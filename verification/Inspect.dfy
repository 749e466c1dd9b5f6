/** nsfs_inspect (tools/nsfs_inspect.c): reading inodes, directories and files straight from an
    image. */
module Inspect {
  import opened Wrappers
  import opened Bytes
  import opened Paths
  import opened OnDisk
  import opened Inodes
  import opened Superblocks
  import opened Directories
  import opened Volumes
  import FsckSuper

  // ---------- superblock, blocks, inodes ----------

  /** valid_super. */
  predicate Usable(s: Superblock, regionBlocks: nat)
  {
    CopyValid(s) && s.totalBlocks <= UINT32_MAX && s.totalBlocks <= regionBlocks
  }

  /** load_super: the newer usable copy, if its root and data area make sense. */
  function Choose(s0: Superblock, s1: Superblock, regionBlocks: nat): Option<Superblock>
  {
    if Usable(s0, regionBlocks) && Usable(s1, regionBlocks) then Some(if s1.generation > s0.generation then s1 else s0)
    else if Usable(s0, regionBlocks) then Some(s0)
    else if Usable(s1, regionBlocks) then Some(s1)
    else None
  }

  function LoadSuper(image: seq<Block>): Option<Superblock>
  {
    if |image| < SUPERBLOCK_COPIES then None
    else match Choose(DecodeSuper(image[0]), DecodeSuper(image[1]), |image|)
      case None => None
      case Some(s) => if s.rootInode == ROOT_INODE && s.dataStart < s.totalBlocks then Some(s) else None
  }

  /** read_block: only blocks of the data area. */
  predicate Readable(image: seq<Block>, s: Superblock, b: nat)
  {
    s.dataStart <= b < s.totalBlocks && b < |image|
  }

  /** read_inode: the inode with that number, if its checksum is right. */
  function FetchInode(image: seq<Block>, s: Superblock, n: nat): (r: Option<Inode>)
    ensures r.Some? ==> |r.value.direct| == DIRECT_BLOCKS
  {
    if n == 0 || n >= s.totalInodes || s.inodeTableStart + n / FsckSuper.INODES_PER_BLOCK >= |image| then None
    else
      var i := FsckSuper.InodeAt(image, s.inodeTableStart, n);
      if i.checksum == InodeChecksum(i) then Some(i) else None
  }

  /** inode_block: the readable block that holds logical block k. */
  function FileBlock(image: seq<Block>, s: Superblock, i: Inode, k: nat): (r: Option<nat>)
    requires |i.direct| == DIRECT_BLOCKS
    ensures r.Some? ==> Readable(image, s, r.value)
  {
    var b :=
      if k < DIRECT_BLOCKS then i.direct[k]
      else if k - DIRECT_BLOCKS >= INDIRECT_BLOCKS || i.indirect == 0 || !Readable(image, s, i.indirect) then 0
      else Entries(image[i.indirect])[k - DIRECT_BLOCKS];
    if b != 0 && Readable(image, s, b) then Some(b) else None
  }

  // ---------- directories ----------

  /** How a walk ended (-1 malformed, 1 stopped by the callback, 0 at the end) and the entries the
      callback saw. */
  datatype Walk = Walk(status: int, visited: seq<Record>)

  predicate Matches(r: Record, wanted: Option<seq<byte>>)
  {
    wanted.Some? && r.name == wanted.value
  }

  function After(r: Record, rest: Walk): Walk
  {
    Walk(rest.status, [r] + rest.visited)
  }

  /** A walk over records: holes are passed over, a bad name breaks it, a match stops it. */
  function Deliver(rs: seq<Record>, wanted: Option<seq<byte>>): Walk
  {
    if rs == [] then Walk(0, [])
    else if rs[0].inode == 0 then Deliver(rs[1..], wanted)
    else if !EntryName(rs[0].name) then Walk(-1, [])
    else if Matches(rs[0], wanted) then Walk(1, [rs[0]])
    else After(rs[0], Deliver(rs[1..], wanted))
  }

  /** The walk over one block from an offset on. */
  function Scan(b: Block, offset: nat, limit: nat, wanted: Option<seq<byte>>): Walk
    requires offset <= limit <= BLOCK_SIZE
    decreases limit - offset
  {
    if offset == limit then Walk(0, [])
    else if !RecordFits(b, offset, limit) then Walk(-1, [])
    else
      var r, next := RecordAt(b, offset, limit), NextOffset(b, offset, limit);
      if r.inode == 0 then Scan(b, next, limit, wanted)
      else if !EntryName(r.name) then Walk(-1, [])
      else if Matches(r, wanted) then Walk(1, [r])
      else After(r, Scan(b, next, limit, wanted))
  }

  function Then(first: Walk, second: Walk): Walk
  {
    if first.status != 0 then first else Walk(second.status, first.visited + second.visited)
  }

  /** The walk over the blocks from block k on. */
  function ScanFrom(image: seq<Block>, s: Superblock, i: Inode, k: nat, wanted: Option<seq<byte>>): Walk
    requires |i.direct| == DIRECT_BLOCKS && k <= DataBlocks(i)
    decreases DataBlocks(i) - k
  {
    if k == DataBlocks(i) then Walk(0, [])
    else match FileBlock(image, s, i, k)
      case None => Walk(-1, [])
      case Some(b) => Then(Scan(image[b], 0, Limit(i, k), wanted), ScanFrom(image, s, i, k + 1, wanted))
  }

  predicate WalkableKind(i: Inode)
  {
    && i.kind == INODE_DIRECTORY && 0 < i.size <= UINT64_MAX - (BLOCK_SIZE - 1)
    && DataBlocks(i) <= MAX_FILE_BLOCKS
  }

  function WalkOf(image: seq<Block>, s: Superblock, i: Inode, wanted: Option<seq<byte>>): Walk
    requires |i.direct| == DIRECT_BLOCKS
  {
    if WalkableKind(i) then ScanFrom(image, s, i, 0, wanted) else Walk(-1, [])
  }

  lemma ThenWalk(v: seq<Record>, w: Walk, more: Walk)
    ensures Then(Walk(0, v), Then(w, more)) == Then(Then(Walk(0, v), w), more)
  {
    assert v + (w.visited + more.visited) == v + w.visited + more.visited;
  }

  lemma AfterThen(v: seq<Record>, r: Record, w: Walk)
    ensures Then(Walk(0, v), After(r, w)) == Then(Walk(0, v + [r]), w)
  {
    assert v + ([r] + w.visited) == v + [r] + w.visited;
  }

  /** The records of one block, delivered to the callback one by one. */
  method WalkBlock(b: Block, limit: nat, wanted: Option<seq<byte>>, before: seq<Record>)
    returns (status: int, visited: seq<Record>)
    requires limit <= BLOCK_SIZE
    ensures Walk(status, visited) == Then(Walk(0, before), Scan(b, 0, limit, wanted))
  {
    hide RecordFits, RecordAt, NextOffset, EntryName, Matches;
    visited := before;
    var offset := 0;
    while offset < limit
      invariant 0 <= offset <= limit
      invariant Then(Walk(0, visited), Scan(b, offset, limit, wanted))
             == Then(Walk(0, before), Scan(b, 0, limit, wanted))
      decreases limit - offset
    {
      if !RecordFits(b, offset, limit) {
        assert visited + [] == visited;
        return -1, visited;
      }
      var r, next := RecordAt(b, offset, limit), NextOffset(b, offset, limit);
      if r.inode != 0 {
        if !EntryName(r.name) {
          assert visited + [] == visited;
          return -1, visited;
        }
        if Matches(r, wanted) {
          return 1, visited + [r];
        }
        AfterThen(visited, r, Scan(b, next, limit, wanted));
        visited := visited + [r];
      }
      offset := next;
    }
    assert visited + [] == visited;
    return 0, visited;
  }

  /** walk_directory. */
  method WalkDirectory(image: seq<Block>, s: Superblock, i: Inode, wanted: Option<seq<byte>>)
    returns (status: int, visited: seq<Record>)
    requires |i.direct| == DIRECT_BLOCKS
    ensures Walk(status, visited) == WalkOf(image, s, i, wanted)
  {
    hide Scan, FileBlock, Limit, DataBlocks;
    if !WalkableKind(i) {
      return -1, [];
    }
    visited := [];
    var logical, count := 0, DataBlocks(i);
    ghost var whole := ScanFrom(image, s, i, 0, wanted);
    assert [] + whole.visited == whole.visited;
    while logical < count
      invariant 0 <= logical <= count
      invariant Then(Walk(0, visited), ScanFrom(image, s, i, logical, wanted)) == whole
    {
      match FileBlock(image, s, i, logical)
      case None =>
        assert visited + [] == visited;
        return -1, visited;
      case Some(b) =>
        ghost var w := Scan(image[b], 0, Limit(i, logical), wanted);
        ThenWalk(visited, w, ScanFrom(image, s, i, logical + 1, wanted));
        status, visited := WalkBlock(image[b], Limit(i, logical), wanted, visited);
        if status != 0 {
          return;
        }
        logical := logical + 1;
    }
    assert visited + [] == visited;
    return 0, visited;
  }

  // ---------- paths ----------

  const PATH_MAX: nat := 4096

  /** One component: the inode the directory's record of that name gives. */
  function Descend(image: seq<Block>, s: Superblock, current: nat, name: seq<byte>): Option<nat>
  {
    if |name| > NAME_MAX then None
    else match FetchInode(image, s, current)
      case None => None
      case Some(i) =>
        if i.kind != INODE_DIRECTORY then None
        else
          var w := WalkOf(image, s, i, Some(name));
          if w.status == 1 && w.visited != [] then Some(w.visited[|w.visited| - 1].inode) else None
  }

  function Resolve(image: seq<Block>, s: Superblock, current: nat, names: seq<seq<byte>>): Option<nat>
    decreases |names|
  {
    if names == [] then Some(current)
    else if names[0] == DOT then Resolve(image, s, current, names[1..])
    else match Descend(image, s, current, names[0])
      case None => None
      case Some(next) => Resolve(image, s, next, names[1..])
  }

  /** What lookup_path answers: an inode number whose inode can be read. */
  function Lookup(image: seq<Block>, s: Superblock, path: seq<byte>): Option<nat>
  {
    if path == [] || |path| > PATH_MAX then None
    else match Resolve(image, s, ROOT_INODE, Tokens(path))
      case None => None
      case Some(n) => if FetchInode(image, s, n).Some? then Some(n) else None
  }

  lemma WalkFound(image: seq<Block>, s: Superblock, i: Inode, wanted: Option<seq<byte>>)
    requires |i.direct| == DIRECT_BLOCKS
    ensures WalkOf(image, s, i, wanted).status == 1 ==> WalkOf(image, s, i, wanted).visited != []
  {
    if WalkableKind(i) { ScanFromFound(image, s, i, 0, wanted); }
  }

  lemma {:induction false} ScanFromFound(image: seq<Block>, s: Superblock, i: Inode, k: nat, wanted: Option<seq<byte>>)
    requires |i.direct| == DIRECT_BLOCKS && k <= DataBlocks(i)
    ensures ScanFrom(image, s, i, k, wanted).status == 1 ==> ScanFrom(image, s, i, k, wanted).visited != []
    decreases DataBlocks(i) - k
  {
    hide DataBlocks, FileBlock, Limit;
    if k < DataBlocks(i) && FileBlock(image, s, i, k).Some? {
      ScanFound(image[FileBlock(image, s, i, k).value], 0, Limit(i, k), wanted);
      ScanFromFound(image, s, i, k + 1, wanted);
    }
  }

  lemma {:induction false} ScanFound(b: Block, offset: nat, limit: nat, wanted: Option<seq<byte>>)
    requires offset <= limit <= BLOCK_SIZE
    ensures Scan(b, offset, limit, wanted).status == 1 ==> Scan(b, offset, limit, wanted).visited != []
    decreases limit - offset
  {
    hide RecordFits, RecordAt, NextOffset;
    if offset < limit && RecordFits(b, offset, limit) { ScanFound(b, NextOffset(b, offset, limit), limit, wanted); }
  }

  /** lookup_path. */
  method LookupPath(image: seq<Block>, s: Superblock, path: seq<byte>) returns (found: bool, number: nat)
    ensures found == Lookup(image, s, path).Some? && (found ==> Some(number) == Lookup(image, s, path))
  {
    hide FetchInode, WalkOf, Tokens;
    if path == [] || |path| > PATH_MAX {
      return false, 0;
    }
    var names := Tokens(path);
    ghost var whole := Resolve(image, s, ROOT_INODE, names);
    var current, index := ROOT_INODE, 0;
    assert names[0..] == names;
    while index < |names|
      invariant 0 <= index <= |names| && Resolve(image, s, current, names[index..]) == whole
    {
      var component := names[index];
      assert names[index..][1..] == names[index + 1..];
      if component != DOT {
        var inode := FetchInode(image, s, current);
        if |component| > NAME_MAX || inode.None? || inode.value.kind != INODE_DIRECTORY {
          return false, 0;
        }
        WalkFound(image, s, inode.value, Some(component));
        var walked, visited := WalkDirectory(image, s, inode.value, Some(component));
        if walked != 1 {
          return false, 0;
        }
        current := visited[|visited| - 1].inode;
      }
      index := index + 1;
    }
    if FetchInode(image, s, current).None? {
      return false, 0;
    }
    return true, current;
  }

  // ---------- file contents ----------

  predicate Printable(image: seq<Block>, s: Superblock, i: Inode)
    requires |i.direct| == DIRECT_BLOCKS
  {
    && (i.kind == INODE_REGULAR || i.kind == INODE_SYMLINK) && i.size <= MAX_FILE_SIZE
    && forall k :: 0 <= k < DataBlocks(i) ==> FileBlock(image, s, i, k).Some?
  }

  /** Byte j of the file. */
  function FileByte(image: seq<Block>, s: Superblock, i: Inode, j: nat): byte
    requires |i.direct| == DIRECT_BLOCKS && FileBlock(image, s, i, j / BLOCK_SIZE).Some?
  {
    image[FileBlock(image, s, i, j / BLOCK_SIZE).value][j % BLOCK_SIZE]
  }

  /** command_cat: it succeeds exactly on files and links all of whose blocks can be read, and then
      writes the file's bytes. */
  method Cat(image: seq<Block>, s: Superblock, i: Inode) returns (ok: bool, out: seq<byte>)
    requires |i.direct| == DIRECT_BLOCKS
    ensures ok <==> Printable(image, s, i)
    ensures ok ==>
      |out| == i.size && forall j :: 0 <= j < i.size ==>
        FileBlock(image, s, i, j / BLOCK_SIZE).Some? && out[j] == FileByte(image, s, i, j)
  {
    hide FileBlock;
    out := [];
    if (i.kind != INODE_REGULAR && i.kind != INODE_SYMLINK) || i.size > MAX_FILE_SIZE {
      return false, out;
    }
    var count, logical := DataBlocks(i), 0;
    while logical < count
      invariant 0 <= logical <= count
      invariant |out| == if logical * BLOCK_SIZE < i.size then logical * BLOCK_SIZE else i.size
      invariant forall k :: 0 <= k < logical ==> FileBlock(image, s, i, k).Some?
      invariant forall j :: 0 <= j < |out| ==>
                  FileBlock(image, s, i, j / BLOCK_SIZE).Some? && out[j] == FileByte(image, s, i, j)
    {
      var remaining := i.size - |out|;
      var length := if remaining < BLOCK_SIZE then remaining else BLOCK_SIZE;
      match FileBlock(image, s, i, logical)
      case None =>
        return false, out;
      case Some(b) =>
        BlockBytes(image, s, i, logical, length, out);
        out := out + image[b][..length];
        logical := logical + 1;
    }
    return true, out;
  }

  lemma BlockBytes(image: seq<Block>, s: Superblock, i: Inode, k: nat, length: nat, out: seq<byte>)
    requires |i.direct| == DIRECT_BLOCKS && FileBlock(image, s, i, k).Some? && length <= BLOCK_SIZE
    requires |out| == k * BLOCK_SIZE
    ensures forall j :: |out| <= j < |out| + length ==>
      j / BLOCK_SIZE == k && image[FileBlock(image, s, i, k).value][..length][j - |out|] == FileByte(image, s, i, j)
  {
    hide FileBlock;
  }
}
