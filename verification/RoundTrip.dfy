/** What mkfs.northstar writes, nsfs_inspect reads back: every path leads to its node, every
    directory lists its children, every file yields its bytes. */
module RoundTrip {
  import opened Wrappers
  import opened Bytes
  import opened Paths
  import opened OnDisk
  import opened Inodes
  import opened Superblocks
  import opened Volumes
  import opened Directories
  import opened SourceTree
  import opened TreeImage
  import opened VolumeTree
  import opened TreeEntries
  import opened MkfsGraph
  import opened MkfsBlocks
  import opened MkfsNames
  import opened MkfsFormat
  import opened MkfsAccepted
  import opened Inspect
  import FsckSuper

  // ---------- walking over records ----------

  lemma {:induction false} ScanTiled(b: Block, offset: nat, limit: nat, wanted: Option<seq<byte>>)
    requires offset <= limit <= BLOCK_SIZE && Tiles(b, offset, limit)
    ensures Scan(b, offset, limit, wanted) == Deliver(Records(b, offset, limit), wanted)
    decreases limit - offset
  {
    hide RecordFits, RecordAt, NextOffset, EntryName;
    if offset < limit {
      var next := NextOffset(b, offset, limit);
      ScanTiled(b, next, limit, wanted);
      var rs := Records(b, offset, limit);
      assert rs == [RecordAt(b, offset, limit)] + Records(b, next, limit);
      assert rs[1..] == Records(b, next, limit);
    }
  }

  lemma {:induction false} DeliverJoin(a: seq<Record>, b: seq<Record>, wanted: Option<seq<byte>>)
    ensures Deliver(a + b, wanted) == Then(Deliver(a, wanted), Deliver(b, wanted))
  {
    hide EntryName;
    if a == [] {
      assert a + b == b && [] + Deliver(b, wanted).visited == Deliver(b, wanted).visited;
    } else {
      assert (a + b)[1..] == a[1..] + b;
      DeliverJoin(a[1..], b, wanted);
      var w := Deliver(a[1..], wanted);
      assert [a[0]] + (w.visited + Deliver(b, wanted).visited) == [a[0]] + w.visited + Deliver(b, wanted).visited;
    }
  }

  predicate Proper(rs: seq<Record>)
  {
    forall k :: 0 <= k < |rs| ==> rs[k].inode != 0 && EntryName(rs[k].name)
  }

  lemma {:induction false} DeliverAll(rs: seq<Record>)
    requires Proper(rs)
    ensures Deliver(rs, None) == Walk(0, rs)
  {
    hide EntryName;
    if rs != [] {
      DeliverAll(rs[1..]);
      assert rs == [rs[0]] + rs[1..];
    }
  }

  lemma {:induction false} DeliverFind(rs: seq<Record>, k: nat, name: seq<byte>)
    requires Proper(rs) && k < |rs| && rs[k].name == name && forall j :: 0 <= j < k ==> rs[j].name != name
    ensures Deliver(rs, Some(name)) == Walk(1, rs[..k + 1])
  {
    hide EntryName;
    if k == 0 {
      assert rs[..1] == [rs[0]];
    } else {
      DeliverFind(rs[1..], k - 1, name);
      assert rs[..k + 1] == [rs[0]] + rs[1..][..k];
    }
  }

  // ---------- one node ----------

  /** The volume the image loads to holds the tree, and shares the image's table. */
  ghost predicate Holds(v: Volume, image: seq<Block>, s: Superblock, t: Node, ino: nat, blk: nat, parent: nat, ns: nat)
  {
    && v.image == image && v.sb == s && Wf(v) && InodesLoaded(v)
    && 1 <= parent < s.totalInodes && OnVolume(v, t, ino, blk, parent, ns)
  }

  lemma HoldsChild(v: Volume, image: seq<Block>, s: Superblock, t: Node, ino: nat, blk: nat, parent: nat, ns: nat,
                   k: nat)
    requires Holds(v, image, s, t, ino, blk, parent, ns) && k < |t.children|
    ensures Holds(v, image, s, t.children[k], ChildInode(t, ino, k), ChildBlock(t, blk, k), ino, ns)
  {
    hide OnVolume, InodesLoaded, Wf;
    ChildFacts(v, t, ino, blk, parent, ns, k);
    OwnFacts(v, t, ino, blk, parent, ns);
  }

  lemma FetchNode(v: Volume, image: seq<Block>, s: Superblock, t: Node, ino: nat, blk: nat, parent: nat, ns: nat)
    requires Holds(v, image, s, t, ino, blk, parent, ns)
    ensures FetchInode(image, s, ino) == Some(InodeFor(t, blk, ns))
  {
    hide OnVolume, FsckSuper.InodeAt, Wf;
    OwnFacts(v, t, ino, blk, parent, ns);
    WfFacts(v);
    assert InodeLoaded(v, ino);
    SealedChecksum(t, blk, ns);
  }

  lemma SealedChecksum(t: Node, blk: nat, ns: nat)
    ensures InodeFor(t, blk, ns).checksum == InodeChecksum(InodeFor(t, blk, ns))
  {
    hide EncodeInode, Crc32c, DataCount;
    var i := InodeFor(t, blk, ns);
    assert i.(checksum := 0) == Inode(t.mode, KindCode(t.kind), 0, 0, 0, LinkCount(t), NodeSize(t), OwnBlocks(t), 1,
      ns, ns, ns,
                                      DirectSlots(t, blk), IndirectSlot(t, blk), 0, 0, 0);
  }

  lemma FileBlockIs(v: Volume, image: seq<Block>, s: Superblock, t: Node, ino: nat, blk: nat, parent: nat, ns: nat,
                    k: nat)
    requires Holds(v, image, s, t, ino, blk, parent, ns) && k < DataCount(t)
    ensures FileBlock(image, s, InodeFor(t, blk, ns), k) == Some(DataBlock(t, blk, k))
  {
    hide DataCount, EncodeEntries, Entries, InodeChecksum, BlockContent, Wf;
    assert NodeOnVolume(v, t, ino, blk, parent, ns);
    WfFacts(v);
    if k >= DIRECT_BLOCKS {
      TableBounds(t, blk);
      EntriesRoundTrip(IndirectTable(t, blk));
    }
  }

  lemma WfFacts(v: Volume)
    requires Wf(v)
    ensures v.sb.totalBlocks <= |v.image| && 0 < v.sb.dataStart && |v.inodes| == v.sb.totalInodes <= UINT32_MAX
  {
  }

  // ---------- directories ----------

  lemma {:induction false} ScanFromIs(v: Volume, image: seq<Block>, s: Superblock, t: Node, ino: nat, blk: nat,
                                      parent: nat,
                                      ns: nat, k: nat, wanted: Option<seq<byte>>)
    requires Holds(v, image, s, t, ino, blk, parent, ns) && t.kind.Directory? && k <= DataCount(t)
    ensures DataBlocks(InodeFor(t, blk, ns)) == DataCount(t) == |Groups(t, ino, parent)|
    ensures ScanFrom(image, s, InodeFor(t, blk, ns), k, wanted) == Deliver(Flatten(Groups(t, ino, parent)[k..]), wanted)
    decreases DataCount(t) - k
  {
    hide OnVolume, InodeFor, DataCount, Groups, DataBlocks, Scan, Deliver, InodesLoaded, Wf, Limit, FileBlock;
    var i, groups := InodeFor(t, blk, ns), Groups(t, ino, parent);
    SizeBlocks(t, blk, ns);
    GroupCount(t, ino, parent);
    if k == DataCount(t) {
      assert groups[k..] == [];
      NothingDelivered(wanted);
    } else {
      ScanFromIs(v, image, s, t, ino, blk, parent, ns, k + 1, wanted);
      FileBlockIs(v, image, s, t, ino, blk, parent, ns, k);
      BlockScan(v, image, s, t, ino, blk, parent, ns, k, wanted);
      assert groups[k..][1..] == groups[k + 1..];
      DeliverJoin(groups[k], Flatten(groups[k + 1..]), wanted);
    }
  }

  lemma NothingDelivered(wanted: Option<seq<byte>>)
    ensures Deliver([], wanted) == Walk(0, [])
  {
  }

  lemma BlockScan(v: Volume, image: seq<Block>, s: Superblock, t: Node, ino: nat, blk: nat, parent: nat, ns: nat,
                  k: nat,
                  wanted: Option<seq<byte>>)
    requires Holds(v, image, s, t, ino, blk, parent, ns) && t.kind.Directory? && k < DataCount(t)
    ensures DataBlock(t, blk, k) < |image| && k < |Groups(t, ino, parent)| && k < DataBlocks(InodeFor(t, blk, ns))
    ensures Scan(image[DataBlock(t, blk, k)], 0, Limit(InodeFor(t, blk, ns), k), wanted)
         == Deliver(Groups(t, ino, parent)[k], wanted)
  {
    assert NodeOnVolume(v, t, ino, blk, parent, ns);
    hide OnVolume, NodeOnVolume, InodeFor, DataCount, Groups, DataBlocks, Scan, Deliver, InodesLoaded, Wf, Limit,
      LogicalBlock,
      Tiles, Records;
    OwnFacts(v, t, ino, blk, parent, ns);
    WfFacts(v);
    RecordsStorableOn(v, t, ino, parent);
    BlockHolds(v, t, ino, blk, parent, ns, k);
    LogicalIs(v, t, blk, ns, k);
    ScanTiled(image[DataBlock(t, blk, k)], 0, Limit(InodeFor(t, blk, ns), k), wanted);
  }

  /** A directory is walked as `.`, `..`, then its children in order. */
  lemma WalkIs(v: Volume, image: seq<Block>, s: Superblock, t: Node, ino: nat, blk: nat, parent: nat, ns: nat,
               wanted: Option<seq<byte>>)
    requires Holds(v, image, s, t, ino, blk, parent, ns) && t.kind.Directory?
    ensures WalkOf(image, s, InodeFor(t, blk, ns), wanted) == Deliver(NodeRecords(t, ino, parent), wanted)
  {
    hide OnVolume, InodeFor, DataCount, DataBlocks, ScanFrom, Deliver, InodesLoaded, Wf, NodeRecords,
      SourceTree.Scanned;
    OwnFacts(v, t, ino, blk, parent, ns);
    ScanFromIs(v, image, s, t, ino, blk, parent, ns, 0, wanted);
    var groups := Groups(t, ino, parent);
    assert groups[0..] == groups;
    FlattenIs(t, ino, parent);
    Walkable(t, blk, ns);
  }

  lemma FlattenIs(t: Node, ino: nat, parent: nat)
    requires SourceTree.Scanned(t)
    ensures Flatten(Groups(t, ino, parent)) == NodeRecords(t, ino, parent) && |Groups(t, ino, parent)| > 0
  {
    ChildrenFit(t, ino, parent);
    FillKeeps(DotRecords(ino, parent), ChildRecords(t, ino));
  }

  lemma Walkable(t: Node, blk: nat, ns: nat)
    requires t.kind.Directory? && DataCount(t) <= MAX_FILE_BLOCKS
    ensures WalkableKind(InodeFor(t, blk, ns))
  {
    GroupCount(t, 0, 0);
    hide DataCount, InodeChecksum;
    SizeBlocks(t, blk, ns);
    DirectorySizeOk(t, blk, ns);
  }

  lemma RecordsProper(t: Node, ino: nat, parent: nat)
    requires SourceTree.Scanned(t) && 1 <= ino && 1 <= parent
    ensures Proper(NodeRecords(t, ino, parent))
  {
    hide NodesOf;
    var rs := NodeRecords(t, ino, parent);
    forall k | 0 <= k < |rs|
      ensures rs[k].inode != 0 && EntryName(rs[k].name)
    {
      if k >= 2 { ChildScanned(t, k - 2); }
    }
  }

  /** Listing a directory yields `.`, `..`, then the children in order. */
  lemma ListingRoundTrip(v: Volume, image: seq<Block>, s: Superblock, t: Node, ino: nat, blk: nat, parent: nat, ns: nat)
    requires Holds(v, image, s, t, ino, blk, parent, ns) && t.kind.Directory?
    ensures WalkOf(image, s, InodeFor(t, blk, ns), None) == Walk(0, NodeRecords(t, ino, parent))
  {
    hide OnVolume, InodeFor, WalkOf, Deliver, InodesLoaded, Wf, NodeRecords, SourceTree.Scanned;
    OwnFacts(v, t, ino, blk, parent, ns);
    WalkIs(v, image, s, t, ino, blk, parent, ns, None);
    RecordsProper(t, ino, parent);
    DeliverAll(NodeRecords(t, ino, parent));
  }

  /** Looking for a child by name finds its record. */
  lemma DescendIs(v: Volume, image: seq<Block>, s: Superblock, t: Node, ino: nat, blk: nat, parent: nat, ns: nat,
                  k: nat)
    requires Holds(v, image, s, t, ino, blk, parent, ns) && k < |t.children|
    ensures Descend(image, s, ino, t.children[k].name) == Some(ChildInode(t, ino, k))
  {
    hide OnVolume, InodeFor, WalkOf, Deliver, InodesLoaded, Wf, FetchInode, NodesOf;
    OwnFacts(v, t, ino, blk, parent, ns);
    FetchNode(v, image, s, t, ino, blk, parent, ns);
    KindOf(t, blk, ns);
    HasChildren(t, k);
    ChildScanned(t, k);
    var name, rs := t.children[k].name, NodeRecords(t, ino, parent);
    WalkIs(v, image, s, t, ino, blk, parent, ns, Some(name));
    RecordsProper(t, ino, parent);
    forall j | 0 <= j < k + 2
      ensures rs[j].name != name
    {
      if j >= 2 { assert t.children[j - 2].name != t.children[k].name; }
    }
    DeliverFind(rs, k + 2, name);
    assert rs[..k + 3][k + 2] == rs[k + 2];
  }

  // ---------- paths ----------

  /** A node of the tree, by the positions of the children leading to it. */
  predicate ValidPlace(t: Node, place: seq<nat>)
  {
    place == [] || (place[0] < |t.children| && ValidPlace(t.children[place[0]], place[1..]))
  }

  function NodeOn(t: Node, place: seq<nat>): Node
    requires ValidPlace(t, place)
  {
    if place == [] then t else NodeOn(t.children[place[0]], place[1..])
  }

  function NamesOn(t: Node, place: seq<nat>): seq<seq<byte>>
    requires ValidPlace(t, place)
  {
    if place == [] then [] else [t.children[place[0]].name] + NamesOn(t.children[place[0]], place[1..])
  }

  /** The inode number of the node, and where its blocks start. */
  function InodeOn(t: Node, ino: nat, place: seq<nat>): nat
    requires ValidPlace(t, place)
  {
    if place == [] then ino else InodeOn(t.children[place[0]], ChildInode(t, ino, place[0]), place[1..])
  }

  function BlockOn(t: Node, blk: nat, place: seq<nat>): nat
    requires ValidPlace(t, place)
  {
    if place == [] then blk else BlockOn(t.children[place[0]], ChildBlock(t, blk, place[0]), place[1..])
  }

  /** The inode number of the node's directory; the root is its own. */
  function ParentOn(t: Node, ino: nat, parent: nat, place: seq<nat>): nat
    requires ValidPlace(t, place)
  {
    if place == [] then parent else ParentOn(t.children[place[0]], ChildInode(t, ino, place[0]), ino, place[1..])
  }

  lemma {:induction false} HoldsOn(v: Volume, image: seq<Block>, s: Superblock, t: Node, ino: nat, blk: nat,
                                   parent: nat, ns: nat,
                                   place: seq<nat>)
    requires Holds(v, image, s, t, ino, blk, parent, ns) && ValidPlace(t, place)
    ensures Holds(v, image, s, NodeOn(t, place), InodeOn(t, ino, place), BlockOn(t, blk, place),
                  ParentOn(t, ino, parent, place), ns)
    decreases |place|
  {
    hide Holds, ChildInode, ChildBlock;
    if place != [] {
      var k := place[0];
      HoldsChild(v, image, s, t, ino, blk, parent, ns, k);
      HoldsOn(v, image, s, t.children[k], ChildInode(t, ino, k), ChildBlock(t, blk, k), ino, ns, place[1..]);
    }
  }

  lemma {:induction false} ResolveIs(v: Volume, image: seq<Block>, s: Superblock, t: Node, ino: nat, blk: nat,
                                     parent: nat, ns: nat,
                                     place: seq<nat>)
    requires Holds(v, image, s, t, ino, blk, parent, ns) && ValidPlace(t, place)
    ensures Resolve(image, s, ino, NamesOn(t, place)) == Some(InodeOn(t, ino, place))
    decreases |place|
  {
    hide Descend, ChildInode, ChildBlock, OnVolume, Wf, InodesLoaded, SourceTree.Scanned;
    if place != [] {
      var k := place[0];
      OwnFacts(v, t, ino, blk, parent, ns);
      ChildScanned(t, k);
      DescendIs(v, image, s, t, ino, blk, parent, ns, k);
      HoldsChild(v, image, s, t, ino, blk, parent, ns, k);
      ResolveIs(v, image, s, t.children[k], ChildInode(t, ino, k), ChildBlock(t, blk, k), ino, ns, place[1..]);
      var names := NamesOn(t, place);
      assert names[1..] == NamesOn(t.children[k], place[1..]);
    }
  }

  // ---------- files ----------

  lemma ByteOfChunk(data: seq<byte>, j: nat)
    requires j < |data|
    ensures j / BLOCK_SIZE < CeilDiv(|data|, BLOCK_SIZE) && j / BLOCK_SIZE * BLOCK_SIZE <= |data|
    ensures Chunk(data, j / BLOCK_SIZE)[j % BLOCK_SIZE] == data[j]
  {
    var k := j / BLOCK_SIZE;
    assert j == k * BLOCK_SIZE + j % BLOCK_SIZE;
  }

  /** The inode of a file or link can be printed, and yields the node's bytes. */
  lemma FileRoundTrip(v: Volume, image: seq<Block>, s: Superblock, t: Node, ino: nat, blk: nat, parent: nat, ns: nat)
    requires Holds(v, image, s, t, ino, blk, parent, ns) && !t.kind.Directory?
    ensures var i := InodeFor(t, blk, ns);
      && i.size == |t.data| && Printable(image, s, i)
      && forall j :: 0 <= j < |t.data| ==>
           FileBlock(image, s, i, j / BLOCK_SIZE).Some? && FileByte(image, s, i, j) == t.data[j]
  {
    var i := InodeFor(t, blk, ns);
    FilePrintable(v, image, s, t, ino, blk, parent, ns);
    forall j | 0 <= j < |t.data|
      ensures FileBlock(image, s, i, j / BLOCK_SIZE).Some? && FileByte(image, s, i, j) == t.data[j]
    {
      hide InodeFor, FileBlock, OnVolume, Wf, InodesLoaded, Chunk;
      ByteOfChunk(t.data, j);
      FileBlockIs(v, image, s, t, ino, blk, parent, ns, j / BLOCK_SIZE);
      ChunkStored(v, image, s, t, ino, blk, parent, ns, j / BLOCK_SIZE);
    }
  }

  lemma ChunkStored(v: Volume, image: seq<Block>, s: Superblock, t: Node, ino: nat, blk: nat, parent: nat, ns: nat,
                    k: nat)
    requires Holds(v, image, s, t, ino, blk, parent, ns) && !t.kind.Directory? && k < DataCount(t)
    ensures k * BLOCK_SIZE <= |t.data| && DataBlock(t, blk, k) < |image|
    ensures image[DataBlock(t, blk, k)] == Chunk(t.data, k)
  {
    hide InodeFor, Wf, InodesLoaded, Chunk;
    assert NodeOnVolume(v, t, ino, blk, parent, ns);
    ChunkStarts(t.data, k);
    assert image[DataBlock(t, blk, k)] == BlockContent(t, ino, parent, k);
  }

  lemma FilePrintable(v: Volume, image: seq<Block>, s: Superblock, t: Node, ino: nat, blk: nat, parent: nat, ns: nat)
    requires Holds(v, image, s, t, ino, blk, parent, ns) && !t.kind.Directory?
    ensures InodeFor(t, blk, ns).size == |t.data| && Printable(image, s, InodeFor(t, blk, ns))
  {
    var i := InodeFor(t, blk, ns);
    FileInode(t, blk, ns);
    hide InodeFor, FileBlock, OnVolume, Wf, InodesLoaded, DataCount, DataBlocks;
    OwnFacts(v, t, ino, blk, parent, ns);
    DataBounded(t);
    SizeBlocks(t, blk, ns);
    forall k | 0 <= k < DataBlocks(i)
      ensures FileBlock(image, s, i, k).Some?
    {
      FileBlockIs(v, image, s, t, ino, blk, parent, ns, k);
    }
  }

  lemma DataBounded(t: Node)
    requires SourceTree.Scanned(t)
    ensures |t.data| <= MAX_FILE_SIZE
  {
  }

  lemma FileInode(t: Node, blk: nat, ns: nat)
    requires !t.kind.Directory?
    ensures InodeFor(t, blk, ns).size == |t.data|
    ensures InodeFor(t, blk, ns).kind == INODE_REGULAR || InodeFor(t, blk, ns).kind == INODE_SYMLINK
  {
    hide InodeChecksum, DataCount;
  }

  // ---------- the round trip ----------

  lemma FormattedHolds(image: seq<Block>, s: Superblock, t: Node, ns: nat)
    requires Formatted(image, s, t, ns)
    ensures LayoutValid(s, |image|)
    ensures Holds(FsckSuper.Load(image, s), image, s, t, ROOT_INODE, s.dataStart, ROOT_INODE, ns)
  {
    hide LayoutValid, OnVolume, InodesLoaded, FsckSuper.Load, Encoded, Inside, NodeCount, Blocks, MetadataWritten,
      CopyValid,
      SourceTree.Scanned, Representable;
    FormattedVolume(image, s, t, ns);
    LoadIs(image, s);
    CountsBigEnough(t, s);
  }

  lemma CountsBigEnough(t: Node, s: Superblock)
    requires ROOT_INODE + NodeCount(t) <= s.totalInodes
    ensures ROOT_INODE < s.totalInodes
  {
  }

  lemma LoadSuperIs(image: seq<Block>, s: Superblock, t: Node, ns: nat)
    requires Formatted(image, s, t, ns)
    ensures LoadSuper(image) == Some(s)
  {
    hide DecodeSuper, CopyValid, LayoutValid, NodeCount, Blocks, Encoded, Inside, SourceTree.Scanned, Representable,
      BitsOnImage,
      FreshJournal;
    AreaOrder(s, |image|);
    RootOf(s, |image|);
  }

  lemma RootOf(s: Superblock, n: nat)
    requires LayoutValid(s, n)
    ensures s.rootInode == ROOT_INODE
  {
  }

  /** The inode number of the node reads back as the node's inode. */
  ghost predicate ReadsInode(image: seq<Block>, s: Superblock, t: Node, ns: nat, place: seq<nat>)
    requires ValidPlace(t, place)
  {
    FetchInode(image, s, InodeOn(t, ROOT_INODE, place))
    == Some(InodeFor(NodeOn(t, place), BlockOn(t, s.dataStart, place), ns))
  }

  /** From that inode a directory lists its children and nothing else; a file or link has its size
      and, at every offset, its bytes. */
  ghost predicate ReadsContent(image: seq<Block>, s: Superblock, t: Node, ns: nat, place: seq<nat>)
    requires ValidPlace(t, place)
  {
    var node, i := NodeOn(t, place), InodeFor(NodeOn(t, place), BlockOn(t, s.dataStart, place), ns);
    if node.kind.Directory? then
      WalkOf(image, s, i, None)
      == Walk(0, NodeRecords(node, InodeOn(t, ROOT_INODE, place), ParentOn(t, ROOT_INODE, ROOT_INODE, place)))
    else
      && i.size == |node.data| && Printable(image, s, i)
      && forall j :: 0 <= j < |node.data| ==>
           FileBlock(image, s, i, j / BLOCK_SIZE).Some? && FileByte(image, s, i, j) == node.data[j]
  }

  /** Every path that spells the place of a node, in whatever way, leads to its inode. */
  lemma PathRoundTrip(image: seq<Block>, s: Superblock, t: Node, ns: nat, place: seq<nat>, path: seq<byte>)
    requires ValidPlace(t, place) && Tokens(path) == NamesOn(t, place)
    requires 0 < |path| <= PATH_MAX && Formatted(image, s, t, ns)
    ensures LoadSuper(image) == Some(s) && Lookup(image, s, path) == Some(InodeOn(t, ROOT_INODE, place))
    ensures ReadsInode(image, s, t, ns, place)
  {
    hide Formatted, LoadSuper, Resolve, FetchInode, InodeFor, Holds, Tokens, NamesOn, FsckSuper.Load, LayoutValid;
    LoadSuperIs(image, s, t, ns);
    FormattedHolds(image, s, t, ns);
    var v := FsckSuper.Load(image, s);
    ResolveIs(v, image, s, t, ROOT_INODE, s.dataStart, ROOT_INODE, ns, place);
    HoldsOn(v, image, s, t, ROOT_INODE, s.dataStart, ROOT_INODE, ns, place);
    FetchNode(v, image, s, NodeOn(t, place), InodeOn(t, ROOT_INODE, place), BlockOn(t, s.dataStart, place),
              ParentOn(t, ROOT_INODE, ROOT_INODE, place), ns);
  }

  /** And there a file or link yields exactly its bytes, a directory exactly its children. */
  lemma ContentRoundTrip(image: seq<Block>, s: Superblock, t: Node, ns: nat, place: seq<nat>)
    requires ValidPlace(t, place) && Formatted(image, s, t, ns)
    ensures ReadsContent(image, s, t, ns, place)
  {
    hide Formatted, WalkOf, Printable, InodeFor, Holds, FsckSuper.Load, LayoutValid, FileBlock, NodeRecords;
    FormattedHolds(image, s, t, ns);
    var v, node := FsckSuper.Load(image, s), NodeOn(t, place);
    HoldsOn(v, image, s, t, ROOT_INODE, s.dataStart, ROOT_INODE, ns, place);
    var ino, blk := InodeOn(t, ROOT_INODE, place), BlockOn(t, s.dataStart, place);
    var parent := ParentOn(t, ROOT_INODE, ROOT_INODE, place);
    if node.kind.Directory? {
      ListingRoundTrip(v, image, s, node, ino, blk, parent, ns);
    } else {
      FileRoundTrip(v, image, s, node, ino, blk, parent, ns);
    }
  }

  lemma {:induction false} NamesProper(t: Node, place: seq<nat>)
    requires SourceTree.Scanned(t) && ValidPlace(t, place)
    ensures forall k :: 0 <= k < |NamesOn(t, place)| ==> EntryName(NamesOn(t, place)[k])
    decreases |place|
  {
    if place != [] {
      ChildScanned(t, place[0]);
      NamesProper(t.children[place[0]], place[1..]);
    }
  }

  lemma FormattedScanned(image: seq<Block>, s: Superblock, t: Node, ns: nat)
    requires Formatted(image, s, t, ns)
    ensures SourceTree.Scanned(t)
  {
    hide MetadataWritten, Encoded, Inside, CopyValid, NodeCount, Blocks;
  }

  /** In particular the path with one slash before each name. */
  lemma SpelledRoundTrip(image: seq<Block>, s: Superblock, t: Node, ns: nat, place: seq<nat>)
    requires ValidPlace(t, place) && place != [] && |Spell(NamesOn(t, place))| <= PATH_MAX && Formatted(image, s, t, ns)
    ensures Lookup(image, s, Spell(NamesOn(t, place))) == Some(InodeOn(t, ROOT_INODE, place))
  {
    hide Formatted, SourceTree.Scanned, Lookup, EntryName, InodeFor;
    var names := NamesOn(t, place);
    FormattedScanned(image, s, t, ns);
    NamesProper(t, place);
    TokensSpell(names);
    PathRoundTrip(image, s, t, ns, place, Spell(names));
  }
}
