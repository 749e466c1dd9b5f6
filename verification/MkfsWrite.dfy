/** Writing the nodes of the source tree (tools/mkfs_northstar.c, write_indirect to write_node). */
module MkfsWrite {
  import opened Bytes
  import opened Paths
  import opened OnDisk
  import opened Inodes
  import opened Directories
  import opened SourceTree
  import opened DirBlocks
  import opened TreeImage
  import opened InodeTable
  import opened MkfsNodes
  import opened Mkfs
  import FsckSuper

  /** Outside blocks [lo, hi) the images are the same. */
  ghost predicate SameOutside(image: seq<Block>, image': seq<Block>, lo: nat, hi: nat)
  {
    |image| == |image'| && forall b :: 0 <= b < |image| && !(lo <= b < hi) ==> image'[b] == image[b]
  }

  /** node_block. */
  function NodeBlock(m: Mapped, logical: nat): nat
    requires |m.direct| == DIRECT_BLOCKS && logical < DIRECT_BLOCKS + |m.entries|
  {
    if logical < DIRECT_BLOCKS then m.direct[logical] else m.entries[logical - DIRECT_BLOCKS]
  }

  lemma NodeBlockIs(t: Node, ino: nat, blk: nat, k: nat)
    requires k < DataCount(t) <= MAX_FILE_BLOCKS
    ensures var m := Placed(t, ino, blk);
      |m.direct| == DIRECT_BLOCKS && k < DIRECT_BLOCKS + |m.entries| && NodeBlock(m, k) == DataBlock(t, blk, k)
  {
    hide DataCount;
  }

  /** write_indirect. */
  method WriteIndirect(ctx: Context, m: Mapped, ghost t: Node, ghost ino: nat, ghost blk: nat)
    requires m == Placed(t, ino, blk) && 0 < blk && blk + OwnBlocks(t) <= |ctx.image|
    modifies ctx`image
    ensures DataCount(t) > DIRECT_BLOCKS ==>
      |ctx.image| == |old(ctx.image)| && ctx.image == old(ctx.image)[blk := EncodeEntries(IndirectTable(t, blk))]
    ensures DataCount(t) <= DIRECT_BLOCKS ==> ctx.image == old(ctx.image)
  {
    hide DataCount, EncodeEntries;
    if m.indirect == 0 {
      return;
    }
    ctx.image := ctx.image[m.indirect := EncodeEntries(m.entries)];
  }

  lemma ChunkIs(data: seq<byte>, k: nat, wanted: nat)
    requires var start := k * BLOCK_SIZE;
      start < |data| && wanted == if |data| - start < BLOCK_SIZE then |data| - start else BLOCK_SIZE
    ensures data[k * BLOCK_SIZE..k * BLOCK_SIZE + wanted] + Zeros(BLOCK_SIZE - wanted) == Chunk(data, k)
  {
  }

  /** write_regular_data: the bytes of a file or link, the last block padded with zeros. */
  method WriteRegularData(ctx: Context, m: Mapped, ghost t: Node, ghost ino: nat, ghost blk: nat)
    requires m == Placed(t, ino, blk) && !t.kind.Directory? && SourceTree.Scanned(t) && DataCount(t) <= MAX_FILE_BLOCKS
    requires blk + OwnBlocks(t) <= |ctx.image|
    modifies ctx`image
    ensures |ctx.image| == |old(ctx.image)|
    ensures SameOutside(old(ctx.image), ctx.image, DataBlock(t, blk, 0), DataBlock(t, blk, DataCount(t)))
    ensures forall k :: 0 <= k < DataCount(t) ==> ctx.image[DataBlock(t, blk, k)] == BlockContent(t, ino, 0, k)
  {
    hide Chunk, Zeros, NodeBlock, Groups, Finished;
    var index, consumed := 0, 0;
    while index < m.dataBlockCount
      invariant 0 <= index <= DataCount(t) && |ctx.image| == |old(ctx.image)|
      invariant consumed == if index * BLOCK_SIZE <= |t.data| then index * BLOCK_SIZE else |t.data|
      invariant SameOutside(old(ctx.image), ctx.image, DataBlock(t, blk, 0), DataBlock(t, blk, index))
      invariant forall k :: 0 <= k < index ==> ctx.image[DataBlock(t, blk, k)] == BlockContent(t, ino, 0, k)
    {
      ChunkStarts(t.data, index);
      var remaining := m.size - consumed;
      var wanted := if remaining < BLOCK_SIZE then remaining else BLOCK_SIZE;
      var block := m.node.data[consumed..consumed + wanted] + Zeros(BLOCK_SIZE - wanted);
      ChunkIs(t.data, index, wanted);
      NodeBlockIs(t, ino, blk, index);
      ctx.image := ctx.image[NodeBlock(m, index) := block];
      consumed := consumed + wanted;
      index := index + 1;
    }
  }

  // ---------- directories ----------

  /** finish_directory_block on the buffer: the last record is stretched to the end. */
  method FinishDirectoryBlock(block: Block, previous: nat, ghost cur: seq<Record>) returns (done: Block)
    requires GroupOk(cur) && AllStorable(cur) && block == Filling(cur) && previous == Used(cur[..|cur| - 1])
    ensures done == Finished(cur)
  {
    hide Filling, Finished, Used, EncodeDirent, DirentAt, Splice;
    LastHeader(cur);
    FinishBlock(cur);
    var header := DirentAt(block, previous);
    done := Splice(block, previous, EncodeDirent(header.(recLen := BLOCK_SIZE - previous)));
  }

  /** put_dirent on the buffer. */
  method PutRecord(block: Block, offset: nat, r: Record, ghost cur: seq<Record>) returns (done: Block)
    requires Used(cur) + Need(r) <= BLOCK_SIZE && block == Filling(cur) && offset == Used(cur)
    ensures Used(cur + [r]) == Used(cur) + Need(r) && done == Filling(cur + [r])
  {
    hide Filling, EncodeDirent, Splice, Used;
    PutDirent(cur, r);
    done := Splice(block, offset, EncodeDirent(Dirent(r.inode, Need(r), |r.name|, r.kind)));
    done := Splice(done, offset + DIRENT_HEADER_SIZE, r.name);
  }

  /** The record of entry `index`: `.`, `..`, then the children. */
  function EntryOf(m: Mapped, parent: nat, index: nat): Record
    requires index < |m.children| + 2
  {
    if index == 0 then Record(m.inode, INODE_DIRECTORY, DOT)
    else if index == 1 then Record(parent, INODE_DIRECTORY, DOTDOT)
    else
      var child := m.children[index - 2];
      Record(child.inode, KindCode(child.node.kind), child.node.name)
  }

  lemma EntryIs(t: Node, ino: nat, blk: nat, parent: nat, index: nat)
    requires index < |t.children| + 2
    ensures var m := Placed(t, ino, blk);
      |m.children| == |t.children| && EntryOf(m, parent, index) == NodeRecords(t, ino, parent)[index]
  {
    if index >= 2 {
      PlacedChild(t, ino, blk, |t.children|, index - 2);
    }
  }

  lemma FillDots(t: Node, ino: nat, parent: nat)
    ensures Fill([], NodeRecords(t, ino, parent)) == Groups(t, ino, parent)
  {
    hide ChildRecords, DirentMin;
    var rs := NodeRecords(t, ino, parent);
    var d := DotRecords(ino, parent);
    DotsUsed(ino, parent);
    assert rs[1..] == [d[1]] + ChildRecords(t, ino) && rs[1..][1..] == ChildRecords(t, ino);
    assert [] + [d[0]] == [d[0]] && [d[0]] + [d[1]] == d;
    assert [d[0]][..0] == [] && Used([d[0]]) == Need(d[0]);
    assert DirentMin(1) + DirentMin(2) <= BLOCK_SIZE by { DotNeeds(); }
  }

  lemma DotNeeds()
    ensures DirentMin(1) == 12 && DirentMin(2) == 12
  {
  }

  lemma FillOverflows(cur: seq<Record>, rest: seq<Record>)
    requires rest != [] && Used(cur) + Need(rest[0]) > BLOCK_SIZE && Need(rest[0]) <= BLOCK_SIZE
    ensures cur != [] && Fill(cur, rest) == [cur] + Fill([], rest)
  {
    assert [] + [rest[0]] == [rest[0]];
  }

  lemma FillFits(cur: seq<Record>, rest: seq<Record>)
    requires rest != [] && Used(cur) + Need(rest[0]) <= BLOCK_SIZE
    ensures Fill(cur, rest) == Fill(cur + [rest[0]], rest[1..])
  {
  }

  lemma StoredGroup(groups: seq<seq<Record>>, n: nat, cur: seq<Record>, rest: seq<seq<Record>>)
    requires n <= |groups| && groups[..n] + ([cur] + rest) == groups
    ensures n < |groups| && groups[n] == cur && groups[..n + 1] + rest == groups
  {
    assert groups[n] == (groups[..n] + ([cur] + rest))[n];
    assert groups[..n + 1] == groups[..n] + [cur];
    assert groups[..n] + [cur] + rest == groups[..n] + ([cur] + rest);
  }

  /** The directory blocks written so far. */
  ghost predicate Emitted(image: seq<Block>, t: Node, blk: nat, groups: seq<seq<Record>>, n: nat)
  {
    && n <= |groups| && DataBlock(t, blk, |groups|) <= |image|
    && forall k :: 0 <= k < n ==> GroupOk(groups[k]) && image[DataBlock(t, blk, k)] == Finished(groups[k])
  }

  /** Writes the finished buffer as block `logical` of the directory. */
  method EmitBlock(ctx: Context, m: Mapped, block: Block, previous: nat, logical: nat,
                   ghost t: Node, ghost ino: nat, ghost blk: nat, ghost groups: seq<seq<Record>>)
    requires m == Placed(t, ino, blk) && |groups| == DataCount(t) <= MAX_FILE_BLOCKS && logical < |groups|
    requires Emitted(ctx.image, t, blk, groups, logical)
    requires var cur := groups[logical];
      GroupOk(cur) && AllStorable(cur) && block == Filling(cur) && previous == Used(cur[..|cur| - 1])
    modifies ctx`image
    ensures |ctx.image| == |old(ctx.image)|
    ensures SameOutside(old(ctx.image), ctx.image, DataBlock(t, blk, logical), DataBlock(t, blk, logical + 1))
    ensures Emitted(ctx.image, t, blk, groups, logical + 1)
  {
    hide DataCount, Filling, Finished, Used, Placed, GroupOk;
    NodeBlockIs(t, ino, blk, logical);
    var done := FinishDirectoryBlock(block, previous, groups[logical]);
    ctx.image := ctx.image[NodeBlock(m, logical) := done];
  }

  /** The buffer holds the records cur. */
  ghost predicate Buffered(block: Block, offset: nat, previous: nat, cur: seq<Record>)
  {
    && Used(cur) <= BLOCK_SIZE && AllStorable(cur) && block == Filling(cur) && offset == Used(cur)
    && (cur != [] ==> previous == Used(cur[..|cur| - 1]))
  }

  /** With the blocks emitted so far, filling on from cur gives the groups. */
  ghost predicate OnTrack(groups: seq<seq<Record>>, logical: nat, cur: seq<Record>, rest: seq<Record>)
  {
    logical <= |groups| && groups[..logical] + Fill(cur, rest) == groups
  }

  lemma EmptyBuffer()
    ensures Used([]) == 0 && Filling([]) == Zeros(BLOCK_SIZE)
    ensures Buffered(Zeros(BLOCK_SIZE), 0, UINT64_MAX, [])
  {
    assert Packed([]) + Zeros(BLOCK_SIZE) == Zeros(BLOCK_SIZE);
  }

  lemma Overflowed(groups: seq<seq<Record>>, logical: nat, cur: seq<Record>, rest: seq<Record>)
    requires OnTrack(groups, logical, cur, rest) && rest != [] && Storable(rest[0])
    requires Used(cur) <= BLOCK_SIZE < Used(cur) + Need(rest[0])
    ensures cur != [] && logical < |groups| && groups[logical] == cur && GroupOk(cur)
    ensures OnTrack(groups, logical + 1, [], rest)
  {
    hide Fill, Used;
    NeedSmall(rest[0]);
    FillOverflows(cur, rest);
    StoredGroup(groups, logical, cur, Fill([], rest));
  }

  lemma NeedSmall(r: Record)
    requires Storable(r)
    ensures Need(r) <= BLOCK_SIZE
  {
  }

  lemma Fitted(groups: seq<seq<Record>>, logical: nat, cur: seq<Record>, rest: seq<Record>)
    requires OnTrack(groups, logical, cur, rest) && rest != [] && Used(cur) + Need(rest[0]) <= BLOCK_SIZE
    ensures OnTrack(groups, logical, cur + [rest[0]], rest[1..])
  {
    FillFits(cur, rest);
  }

  lemma LastGroup(groups: seq<seq<Record>>, logical: nat, cur: seq<Record>)
    requires OnTrack(groups, logical, cur, []) && cur != [] && Used(cur) <= BLOCK_SIZE
    ensures logical + 1 == |groups| && groups[logical] == cur && GroupOk(cur)
  {
    assert Fill(cur, []) == [cur];
    assert groups[logical] == (groups[..logical] + [cur])[logical];
  }

  lemma StorableAt(rs: seq<Record>, k: nat)
    requires AllStorable(rs) && k < |rs|
    ensures Storable(rs[k])
  {
  }

  lemma BufferedFacts(block: Block, offset: nat, previous: nat, cur: seq<Record>)
    requires Buffered(block, offset, previous, cur)
    ensures Used(cur) <= BLOCK_SIZE && AllStorable(cur) && block == Filling(cur) && offset == Used(cur)
    ensures cur != [] ==> previous == Used(cur[..|cur| - 1])
  {
  }

  lemma BufferedMore(cur: seq<Record>, r: Record, block: Block, offset: nat)
    requires AllStorable(cur) && Storable(r) && offset == Used(cur) && Used(cur) + Need(r) <= BLOCK_SIZE
    requires Used(cur + [r]) == Used(cur) + Need(r) && block == Filling(cur + [r])
    ensures Buffered(block, offset + Need(r), offset, cur + [r])
  {
    assert (cur + [r])[..|cur + [r]| - 1] == cur;
  }

  /** write_directory_data: emits exactly the blocks directory_blocks announced. */
  method WriteDirectoryData(ctx: Context, m: Mapped, parent: nat, ghost t: Node, ghost ino: nat, ghost blk: nat)
    returns (ok: bool)
    requires m == Placed(t, ino, blk) && t.kind.Directory? && SourceTree.Scanned(t) && DataCount(t) <= MAX_FILE_BLOCKS
    requires AllStorable(NodeRecords(t, ino, parent)) && blk + OwnBlocks(t) <= |ctx.image|
    modifies ctx`image
    ensures ok && |ctx.image| == |old(ctx.image)|
    ensures SameOutside(old(ctx.image), ctx.image, DataBlock(t, blk, 0), DataBlock(t, blk, DataCount(t)))
    ensures Emitted(ctx.image, t, blk, Groups(t, ino, parent), DataCount(t))
  {
    hide DataCount, Filling, Finished, Used, Fill, Groups, NodeRecords, SourceTree.Scanned, GroupOk, Need, Placed,
      EntryOf,
      Buffered, OnTrack, Emitted, Storable, AllStorable;
    ghost var groups, all := Groups(t, ino, parent), NodeRecords(t, ino, parent);
    GroupCount(t, ino, parent);
    FillDots(t, ino, parent);
    EntryIs(t, ino, blk, parent, 0);
    var block: Block := Zeros(BLOCK_SIZE);
    var logical: nat, index: nat, offset: nat, previous: nat := 0, 0, 0, UINT64_MAX;
    ghost var cur: seq<Record> := [];
    EmptyBuffer();
    StartOnTrack(groups, all, ctx.image, t, blk);
    AllRecords(t, ino, parent);
    var total := |m.children| + 2;
    while index < total
      invariant 0 <= index <= total == |all| && (cur == [] ==> index < total)
      invariant Buffered(block, offset, previous, cur) && OnTrack(groups, logical, cur, all[index..])
      invariant |ctx.image| == |old(ctx.image)|
      invariant SameOutside(old(ctx.image), ctx.image, DataBlock(t, blk, 0), DataBlock(t, blk, logical))
      invariant Emitted(ctx.image, t, blk, groups, logical)
      decreases total - index, if cur == [] then 0 else 1
    {
      EntryIs(t, ino, blk, parent, index);
      var r := EntryOf(m, parent, index);
      assert all[index..][0] == r && all[index..][1..] == all[index + 1..];
      StorableAt(all, index);
      BufferedFacts(block, offset, previous, cur);
      var needed := Need(r);
      if offset + needed > BLOCK_SIZE {
        Overflowed(groups, logical, cur, all[index..]);
        EmitBlock(ctx, m, block, previous, logical, t, ino, blk, groups);
        logical := logical + 1;
        block, offset, previous, cur := Zeros(BLOCK_SIZE), 0, UINT64_MAX, [];
        EmptyBuffer();
      } else {
        Fitted(groups, logical, cur, all[index..]);
        block := PutRecord(block, offset, r, cur);
        BufferedMore(cur, r, block, offset);
        previous, offset, cur := offset, offset + needed, cur + [r];
        index := index + 1;
      }
    }
    assert all[index..] == [];
    BufferedFacts(block, offset, previous, cur);
    LastGroup(groups, logical, cur);
    EmitBlock(ctx, m, block, previous, logical, t, ino, blk, groups);
    logical := logical + 1;
    ok := logical == m.dataBlockCount;
  }

  lemma StartOnTrack(groups: seq<seq<Record>>, all: seq<Record>, image: seq<Block>, t: Node, blk: nat)
    requires Fill([], all) == groups && |groups| == DataCount(t) && blk + OwnBlocks(t) <= |image|
    ensures OnTrack(groups, 0, [], all[0..]) && Emitted(image, t, blk, groups, 0)
  {
    assert all[0..] == all && groups[..0] + groups == groups;
  }

  lemma AllRecords(t: Node, ino: nat, parent: nat)
    ensures |NodeRecords(t, ino, parent)| == |t.children| + 2
    ensures forall blk :: Placed(t, ino, blk).dataBlockCount == DataCount(t)
  {
  }

  // ---------- nodes ----------

  lemma RecordsStorable(t: Node, ino: nat, parent: nat)
    requires SourceTree.Scanned(t) && ino + NodeCount(t) <= UINT32_MAX && parent <= UINT32_MAX
    ensures AllStorable(NodeRecords(t, ino, parent))
  {
    var rs := NodeRecords(t, ino, parent);
    forall k | 0 <= k < |rs|
      ensures Storable(rs[k])
    {
      if k >= 2 {
        PrefixSums(t.children, k - 2);
        assert ChildName(t.children[k - 2].name);
      }
    }
  }

  /** The data and the indirect block of the node are on the image. */
  ghost predicate OwnData(image: seq<Block>, t: Node, ino: nat, blk: nat, parent: nat)
    requires SourceTree.Scanned(t) && blk + OwnBlocks(t) <= |image|
  {
    && (DataCount(t) > DIRECT_BLOCKS ==> image[blk] == EncodeEntries(IndirectTable(t, blk)))
    && forall k :: 0 <= k < DataCount(t) ==> image[DataBlock(t, blk, k)] == BlockContent(t, ino, parent, k)
  }

  lemma EmittedContent(image: seq<Block>, t: Node, ino: nat, blk: nat, parent: nat)
    requires SourceTree.Scanned(t) && t.kind.Directory? && blk + OwnBlocks(t) <= |image|
    requires Emitted(image, t, blk, Groups(t, ino, parent), DataCount(t))
    ensures forall k :: 0 <= k < DataCount(t) ==> image[DataBlock(t, blk, k)] == BlockContent(t, ino, parent, k)
  {
    hide SourceTree.Scanned, Groups, Finished, DataCount;
  }

  lemma FileContent(t: Node, ino: nat, parent: nat, k: nat)
    requires SourceTree.Scanned(t) && !t.kind.Directory? && k < DataCount(t)
    ensures BlockContent(t, ino, 0, k) == BlockContent(t, ino, parent, k)
  {
  }

  /** The blocks of one node. */
  method WriteBlocks(ctx: Context, m: Mapped, parent: nat, ghost t: Node, ghost ino: nat, ghost blk: nat)
    requires m == Placed(t, ino, blk) && SourceTree.Scanned(t) && DataCount(t) <= MAX_FILE_BLOCKS
    requires ino + NodeCount(t) <= UINT32_MAX && parent <= UINT32_MAX
    requires 0 < blk && blk + OwnBlocks(t) <= |ctx.image|
    modifies ctx`image
    ensures |ctx.image| == |old(ctx.image)|
    ensures SameOutside(old(ctx.image), ctx.image, blk, blk + OwnBlocks(t))
    ensures OwnData(ctx.image, t, ino, blk, parent)
  {
    hide SourceTree.Scanned, Groups, DataCount, BlockContent, EncodeEntries, Placed, Emitted, NodeCount;
    RecordsStorable(t, ino, parent);
    PlacedNode(t, ino, blk);
    WriteIndirect(ctx, m, t, ino, blk);
    if m.node.kind.Directory? {
      var _ := WriteDirectoryData(ctx, m, parent, t, ino, blk);
      EmittedContent(ctx.image, t, ino, blk, parent);
    } else {
      WriteRegularData(ctx, m, t, ino, blk);
      forall k | 0 <= k < DataCount(t)
        ensures BlockContent(t, ino, 0, k) == BlockContent(t, ino, parent, k)
      {
        FileContent(t, ino, parent, k);
      }
    }
  }

  lemma PlacedNode(t: Node, ino: nat, blk: nat)
    ensures var m := Placed(t, ino, blk);
      && m.node == t && m.inode == ino && m.linkCount == LinkCount(t) && m.size == NodeSize(t)
      && m.dataBlockCount == DataCount(t) && m.direct == DirectSlots(t, blk) && m.indirect == IndirectSlot(t, blk)
      && m.children == PlacedChildren(t, ino, blk, |t.children|)
  {
  }

  /** The inode write_node assembles from the node's fields. */
  function AssembleInode(m: Mapped, ns: nat): Inode
    requires |m.direct| == DIRECT_BLOCKS
  {
    SealInode(Inode(m.node.mode, KindCode(m.node.kind), 0, 0, 0, m.linkCount, m.size,
                    m.dataBlockCount + (if m.indirect != 0 then 1 else 0), 1, ns, ns, ns, m.direct, m.indirect,
                    0, 0, 0))
  }

  lemma {:induction false} SubdirectoriesFew(ts: seq<Node>)
    ensures Subdirectories(ts) <= NodesOf(ts)
  {
    if ts != [] { SubdirectoriesFew(ts[..|ts| - 1]); }
  }

  lemma InodeForBounds(t: Node, ino: nat, blk: nat, ns: nat)
    requires SourceTree.Scanned(t) && DataCount(t) <= MAX_FILE_BLOCKS && ns <= UINT64_MAX && 1 <= ino
    requires ino + NodeCount(t) <= UINT32_MAX && blk + OwnBlocks(t) <= UINT32_MAX
    ensures InodeBounds(InodeFor(t, blk, ns))
  {
    hide DataCount, InodeChecksum;
    SubdirectoriesFew(t.children);
  }

  lemma Assembled(t: Node, ino: nat, blk: nat, ns: nat)
    requires 0 < blk
    ensures |Placed(t, ino, blk).direct| == DIRECT_BLOCKS
    ensures AssembleInode(Placed(t, ino, blk), ns) == InodeFor(t, blk, ns)
  {
    hide DataCount, InodeChecksum, PlacedChildren;
  }

  /** Where the nodes may go: the inode slots lie in the table, which ends before the data area. */
  predicate Room(image: seq<Block>, table: nat, limit: nat, t: Node, ino: nat, blk: nat)
  {
    && table <= limit <= blk && blk + Blocks(t) <= |image| <= UINT32_MAX && 0 < blk
    && 1 <= ino && ino + NodeCount(t) <= UINT32_MAX
    && table + (ino + NodeCount(t) - 1) / FsckSuper.INODES_PER_BLOCK < limit
  }

  lemma RoomInside(image: seq<Block>, table: nat, limit: nat, t: Node, ino: nat, blk: nat)
    requires Room(image, table, limit, t, ino, blk)
    ensures Inside(image, table, t, ino, blk) && InodeInside(image, table, ino)
    ensures blk + OwnBlocks(t) <= |image|
  {
    hide DataCount, BlocksOf, NodesOf;
    forall n | ino <= n < ino + NodeCount(t)
      ensures InodeInside(image, table, n)
    {
      DivMonotone(n, ino + NodeCount(t) - 1);
    }
  }

  lemma DivMonotone(a: nat, b: nat)
    requires a <= b
    ensures a / FsckSuper.INODES_PER_BLOCK <= b / FsckSuper.INODES_PER_BLOCK
  {
  }

  /** Only the blocks [lo, hi), the inodes [from, to) and nothing else were written. */
  ghost predicate Touched(image: seq<Block>, image': seq<Block>, table: nat, limit: nat, from: nat, to: nat, lo: nat,
                          hi: nat)
  {
    && |image| == |image'|
    && (forall b :: 0 <= b < |image| && !(table <= b < limit) && !(lo <= b < hi) ==> image'[b] == image[b])
    && (forall n: nat :: InTable(table, limit, n) && !(from <= n < to) ==> SameInode(image, image', table, n))
  }

  predicate InTable(table: nat, limit: nat, n: nat)
  {
    table + n / FsckSuper.INODES_PER_BLOCK < limit
  }

  lemma TouchedJoin(a: seq<Block>, b: seq<Block>, c: seq<Block>, table: nat, limit: nat,
                    from: nat, mid: nat, to: nat, lo: nat, middle: nat, hi: nat)
    requires Touched(a, b, table, limit, from, mid, lo, middle) && Touched(b, c, table, limit, mid, to, middle, hi)
    requires from <= mid <= to && lo <= middle <= hi
    ensures Touched(a, c, table, limit, from, to, lo, hi)
  {
    hide FsckSuper.InodeAt;
    forall n: nat | InTable(table, limit, n) && !(from <= n < to)
      ensures SameInode(a, c, table, n)
    {
      assert SameInode(a, b, table, n) && SameInode(b, c, table, n);
    }
  }

  /** A write to blocks at or behind the limit leaves the inode table alone. */
  lemma DataTouched(image: seq<Block>, image': seq<Block>, table: nat, limit: nat, n: nat, lo: nat, hi: nat)
    requires SameOutside(image, image', lo, hi) && limit <= lo && limit <= |image|
    ensures Touched(image, image', table, limit, n, n, lo, hi)
  {
    forall k: nat | InTable(table, limit, k)
      ensures SameInode(image, image', table, k)
    {
      assert image[table + k / FsckSuper.INODES_PER_BLOCK] == image'[table + k / FsckSuper.INODES_PER_BLOCK];
    }
  }

  lemma InodeTouched(image: seq<Block>, table: nat, limit: nat, n: nat, i: Inode, b: nat)
    requires InTable(table, limit, n) && limit <= |image| && InodeBounds(i)
    ensures |i.direct| == DIRECT_BLOCKS && InodeInside(image, table, n)
    ensures Touched(image, WithInode(image, table, n, i), table, limit, n, n + 1, b, b)
    ensures FsckSuper.InodeAt(WithInode(image, table, n, i), table, n) == i
    ensures forall c :: 0 <= c < |image| && limit <= c ==> WithInode(image, table, n, i)[c] == image[c]
  {
    hide InodeBounds, FsckSuper.InodeAt, EncodeInode, Splice;
    BoundsDirect(i);
    InodeWritten(image, table, n, i, n);
    forall k: nat | InTable(table, limit, k) && k != n
      ensures SameInode(image, WithInode(image, table, n, i), table, k)
    {
      InodeWritten(image, table, n, i, k);
    }
  }

  /** The node itself: its blocks and its inode. */
  method WriteOwn(ctx: Context, m: Mapped, parent: nat, ns: nat, table: nat, ghost limit: nat,
                  ghost t: Node, ghost ino: nat, ghost blk: nat)
    requires m == Placed(t, ino, blk) && SourceTree.Scanned(t) && DataCount(t) <= MAX_FILE_BLOCKS
    requires Room(ctx.image, table, limit, t, ino, blk) && parent <= UINT32_MAX && ns <= UINT64_MAX
    modifies ctx`image
    ensures Room(ctx.image, table, limit, t, ino, blk) && |ctx.image| == |old(ctx.image)|
    ensures Inside(ctx.image, table, t, ino, blk) && InodeInside(ctx.image, table, ino)
    ensures blk + OwnBlocks(t) <= |ctx.image|
    ensures NodeEncoded(ctx.image, table, t, ino, blk, parent, ns)
    ensures Touched(old(ctx.image), ctx.image, table, limit, ino, ino + 1, blk, blk + OwnBlocks(t))
  {
    hide SourceTree.Scanned, DataCount, Placed, InodeFor, FsckSuper.InodeAt, Touched, WithInode, NodeEncoded, Inside,
      OwnData,
      Blocks, NodeCount;
    ghost var before := ctx.image;
    RoomInside(before, table, limit, t, ino, blk);
    WriteBlocks(ctx, m, parent, t, ino, blk);
    Assembled(t, ino, blk, ns);
    PlacedNode(t, ino, blk);
    OwnWritten(before, ctx.image, table, limit, t, ino, blk, parent, ns);
    ctx.image := WithInode(ctx.image, table, m.inode, AssembleInode(m, ns));
  }

  lemma OwnWritten(before: seq<Block>, middle: seq<Block>, table: nat, limit: nat, t: Node, ino: nat, blk: nat,
                   parent: nat, ns: nat)
    requires SourceTree.Scanned(t) && DataCount(t) <= MAX_FILE_BLOCKS && ns <= UINT64_MAX
    requires Room(before, table, limit, t, ino, blk) && |before| == |middle| && blk + OwnBlocks(t) <= |middle|
    requires SameOutside(before, middle, blk, blk + OwnBlocks(t)) && OwnData(middle, t, ino, blk, parent)
    ensures InodeInside(middle, table, ino)
    ensures var after := WithInode(middle, table, ino, InodeFor(t, blk, ns));
      && Room(after, table, limit, t, ino, blk) && Inside(after, table, t, ino, blk) && InodeInside(after, table, ino)
      && NodeEncoded(after, table, t, ino, blk, parent, ns)
      && Touched(before, after, table, limit, ino, ino + 1, blk, blk + OwnBlocks(t))
  {
    hide SourceTree.Scanned, DataCount, BlockContent, EncodeEntries, NodesOf, BlocksOf, InodeFor, FsckSuper.InodeAt,
      Touched, WithInode, InodeBounds;
    DataTouched(before, middle, table, limit, ino, blk, blk + OwnBlocks(t));
    InodeForBounds(t, ino, blk, ns);
    assert InTable(table, limit, ino) by { DivMonotone(ino, ino + NodeCount(t) - 1); }
    InodeTouched(middle, table, limit, ino, InodeFor(t, blk, ns), blk + OwnBlocks(t));
    var after := WithInode(middle, table, ino, InodeFor(t, blk, ns));
    TouchedJoin(before, middle, after, table, limit, ino, ino, ino + 1, blk, blk + OwnBlocks(t), blk + OwnBlocks(t));
    assert Room(after, table, limit, t, ino, blk);
    RoomInside(after, table, limit, t, ino, blk);
  }

  /** The node and its first n children are on the image. */
  ghost predicate EncodedUpto(image: seq<Block>, table: nat, t: Node, ino: nat, blk: nat, parent: nat, ns: nat, n: nat)
    requires SourceTree.Scanned(t) && n <= |t.children|
  {
    && Inside(image, table, t, ino, blk) && InodeInside(image, table, ino) && blk + OwnBlocks(t) <= |image|
    && NodeEncoded(image, table, t, ino, blk, parent, ns)
    && forall k :: 0 <= k < n ==> ChildEncoded(image, table, t, ino, blk, ns, k)
  }

  /** Writing child n keeps the node and the children before it. */
  lemma UptoKept(image: seq<Block>, image': seq<Block>, table: nat, limit: nat, t: Node, ino: nat, blk: nat,
                 parent: nat, ns: nat, n: nat)
    requires SourceTree.Scanned(t) && n < |t.children| && EncodedUpto(image, table, t, ino, blk, parent, ns, n)
    requires Room(image, table, limit, t, ino, blk)
    requires Touched(image, image', table, limit, ChildInode(t, ino, n), ChildInode(t, ino, n + 1),
                     ChildBlock(t, blk, n), ChildBlock(t, blk, n + 1))
    ensures EncodedUpto(image', table, t, ino, blk, parent, ns, n)
  {
    hide SourceTree.Scanned, DataCount, BlockContent, EncodeEntries, InodeFor, FsckSuper.InodeAt, NodesOf, BlocksOf,
      Encoded;
    assert Room(image', table, limit, t, ino, blk);
    RoomInside(image', table, limit, t, ino, blk);
    assert InTable(table, limit, ino) by { DivMonotone(ino, ino + NodeCount(t) - 1); }
    assert SameInode(image, image', table, ino);
    forall k | 0 <= k < n
      ensures ChildEncoded(image', table, t, ino, blk, ns, k)
    {
      assert ChildEncoded(image, table, t, ino, blk, ns, k);
      SiblingKept(image, image', table, limit, t, ino, blk, ns, n, k);
    }
  }

  lemma {:induction false} SumsGrow(ts: seq<Node>, k: nat, n: nat)
    requires k < n <= |ts|
    ensures NodesOf(ts[..k]) + NodeCount(ts[k]) <= NodesOf(ts[..n])
    ensures BlocksOf(ts[..k]) + Blocks(ts[k]) <= BlocksOf(ts[..n])
  {
    PrefixSums(ts[..n], k);
    assert ts[..n][..k] == ts[..k];
  }

  lemma SiblingKept(image: seq<Block>, image': seq<Block>, table: nat, limit: nat, t: Node, ino: nat, blk: nat,
                    ns: nat, n: nat, k: nat)
    requires SourceTree.Scanned(t) && k < n < |t.children|
    requires Room(image, table, limit, t, ino, blk)
    requires Inside(image, table, t, ino, blk) && Inside(image', table, t, ino, blk)
    requires ChildEncoded(image, table, t, ino, blk, ns, k)
    requires Touched(image, image', table, limit, ChildInode(t, ino, n), ChildInode(t, ino, n + 1),
                     ChildBlock(t, blk, n), ChildBlock(t, blk, n + 1))
    ensures ChildEncoded(image', table, t, ino, blk, ns, k)
  {
    hide DataCount, BlockContent, EncodeEntries, InodeFor, FsckSuper.InodeAt, NodesOf, BlocksOf, Encoded;
    var c := t.children[k];
    var i, b := ChildInode(t, ino, k), ChildBlock(t, blk, k);
    ChildInside(image, table, t, ino, blk, k);
    ChildInside(image', table, t, ino, blk, k);
    SumsGrow(t.children, k, n);
    PrefixSums(t.children, k);
    PrefixSums(t.children, n);
    forall m | i <= m < i + NodeCount(c)
      ensures SameInode(image, image', table, m)
    {
      assert InTable(table, limit, m) by { DivMonotone(m, ino + NodeCount(t) - 1); }
    }
    assert SameWithin(image, image', table, c, i, b);
    EncodedFrame(image, image', table, c, i, b, ino, ns);
  }

  lemma ChildRoom(image: seq<Block>, table: nat, limit: nat, t: Node, ino: nat, blk: nat, k: nat)
    requires Room(image, table, limit, t, ino, blk) && k < |t.children|
    ensures Room(image, table, limit, t.children[k], ChildInode(t, ino, k), ChildBlock(t, blk, k))
  {
    hide DataCount, BlocksOf, NodesOf;
    PrefixSums(t.children, k);
    DivMonotone(ChildInode(t, ino, k) + NodeCount(t.children[k]) - 1, ino + NodeCount(t) - 1);
  }

  lemma RepresentableChild(t: Node, k: nat)
    requires Representable(t) && SourceTree.Scanned(t) && k < |t.children|
    ensures Representable(t.children[k]) && SourceTree.Scanned(t.children[k])
  {
  }

  lemma UptoMore(image: seq<Block>, table: nat, t: Node, ino: nat, blk: nat, parent: nat, ns: nat, n: nat)
    requires SourceTree.Scanned(t) && n < |t.children| && EncodedUpto(image, table, t, ino, blk, parent, ns, n)
    requires Inside(image, table, t.children[n], ChildInode(t, ino, n), ChildBlock(t, blk, n))
    requires SourceTree.Scanned(t.children[n])
    requires Encoded(image, table, t.children[n], ChildInode(t, ino, n), ChildBlock(t, blk, n), ino, ns)
    ensures EncodedUpto(image, table, t, ino, blk, parent, ns, n + 1)
  {
    hide DataCount, NodeEncoded, Encoded, NodesOf, BlocksOf;
  }

  /** write_node: the whole subtree, and nothing else. */
  method WriteNode(ctx: Context, m: Mapped, parent: nat, ns: nat, table: nat, ghost limit: nat,
                   ghost t: Node, ghost ino: nat, ghost blk: nat)
    requires m == Placed(t, ino, blk) && SourceTree.Scanned(t) && Representable(t)
    requires Room(ctx.image, table, limit, t, ino, blk) && parent <= UINT32_MAX && ns <= UINT64_MAX
    modifies ctx`image
    ensures |ctx.image| == |old(ctx.image)| && Inside(ctx.image, table, t, ino, blk)
    ensures Encoded(ctx.image, table, t, ino, blk, parent, ns)
    ensures Touched(old(ctx.image), ctx.image, table, limit, ino, ino + NodeCount(t), blk, blk + Blocks(t))
    decreases t
  {
    hide SourceTree.Scanned, Representable, Room, Touched, EncodedUpto, Placed, Encoded, Inside, NodeEncoded, NodesOf,
      BlocksOf,
      DataCount, NodeCount, Blocks;
    RepresentableIs(t);
    WriteOwn(ctx, m, parent, ns, table, limit, t, ino, blk);
    PlacedNode(t, ino, blk);
    StartUpto(ctx.image, table, limit, t, ino, blk, parent, ns);
    var child := 0;
    while child < |m.children|
      invariant 0 <= child <= |m.children| == |t.children| && |ctx.image| == |old(ctx.image)|
      invariant Room(ctx.image, table, limit, t, ino, blk)
      invariant EncodedUpto(ctx.image, table, t, ino, blk, parent, ns, child)
      invariant Touched(old(ctx.image), ctx.image, table, limit, ino, ChildInode(t, ino, child), blk,
                        ChildBlock(t, blk, child))
    {
      ghost var before := ctx.image;
      ChildRoom(before, table, limit, t, ino, blk, child);
      RepresentableChild(t, child);
      PlacedChild(t, ino, blk, |t.children|, child);
      WriteNode(ctx, m.children[child], m.inode, ns, table, limit, t.children[child], ChildInode(t, ino, child),
                ChildBlock(t, blk, child));
      ChildWritten(old(ctx.image), before, ctx.image, table, limit, t, ino, blk, parent, ns, child);
      child := child + 1;
    }
    WholeUpto(ctx.image, table, t, ino, blk, parent, ns);
  }

  lemma StartUpto(image: seq<Block>, table: nat, limit: nat, t: Node, ino: nat, blk: nat, parent: nat, ns: nat)
    requires SourceTree.Scanned(t) && Room(image, table, limit, t, ino, blk)
    requires Inside(image, table, t, ino, blk) && InodeInside(image, table, ino) && blk + OwnBlocks(t) <= |image|
    requires NodeEncoded(image, table, t, ino, blk, parent, ns)
    ensures EncodedUpto(image, table, t, ino, blk, parent, ns, 0)
    ensures ChildInode(t, ino, 0) == ino + 1 && ChildBlock(t, blk, 0) == blk + OwnBlocks(t) && ino <= UINT32_MAX
  {
    hide NodeEncoded, ChildEncoded, SourceTree.Scanned, Inside, DataCount;
    assert t.children[..0] == [];
  }

  lemma WholeUpto(image: seq<Block>, table: nat, t: Node, ino: nat, blk: nat, parent: nat, ns: nat)
    requires SourceTree.Scanned(t) && EncodedUpto(image, table, t, ino, blk, parent, ns, |t.children|)
    ensures Inside(image, table, t, ino, blk) && Encoded(image, table, t, ino, blk, parent, ns)
    ensures ChildInode(t, ino, |t.children|) == ino + NodeCount(t)
    ensures ChildBlock(t, blk, |t.children|) == blk + Blocks(t)
  {
    hide NodeEncoded, ChildEncoded, SourceTree.Scanned, Inside, DataCount;
    assert t.children[..|t.children|] == t.children;
  }

  lemma ChildWritten(first: seq<Block>, before: seq<Block>, after: seq<Block>, table: nat, limit: nat, t: Node,
                     ino: nat, blk: nat, parent: nat, ns: nat, n: nat)
    requires SourceTree.Scanned(t) && n < |t.children| && SourceTree.Scanned(t.children[n])
    requires Room(before, table, limit, t, ino, blk) && EncodedUpto(before, table, t, ino, blk, parent, ns, n)
    requires Touched(first, before, table, limit, ino, ChildInode(t, ino, n), blk, ChildBlock(t, blk, n))
    requires var c, i, b := t.children[n], ChildInode(t, ino, n), ChildBlock(t, blk, n);
      && Touched(before, after, table, limit, i, i + NodeCount(c), b, b + Blocks(c))
      && Inside(after, table, c, i, b) && Encoded(after, table, c, i, b, ino, ns)
    ensures |after| == |before| && Room(after, table, limit, t, ino, blk)
    ensures EncodedUpto(after, table, t, ino, blk, parent, ns, n + 1)
    ensures Touched(first, after, table, limit, ino, ChildInode(t, ino, n + 1), blk, ChildBlock(t, blk, n + 1))
  {
    hide SourceTree.Scanned, EncodedUpto, Encoded, Inside, NodesOf, BlocksOf, DataCount;
    PrefixSums(t.children, n);
    SumsGrow(t.children, n, n + 1);
    UptoKept(before, after, table, limit, t, ino, blk, parent, ns, n);
    UptoMore(after, table, t, ino, blk, parent, ns, n);
    hide Touched;
    TouchedJoin(first, before, after, table, limit, ino, ChildInode(t, ino, n), ChildInode(t, ino, n + 1),
                blk, ChildBlock(t, blk, n), ChildBlock(t, blk, n + 1));
  }
}
