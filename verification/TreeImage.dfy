/** What mkfs.northstar puts on disk for a source tree (tools/mkfs_northstar.c, write_node): the
    inode of every node, its indirect block, its data. */
module TreeImage {
  import opened Bytes
  import opened OnDisk
  import opened Inodes
  import opened Superblocks
  import opened Directories
  import opened SourceTree
  import opened DirBlocks
  import FsckSuper

  // ---------- directory blocks ----------

  predicate AllFit(rs: seq<Record>)
  {
    forall k :: 0 <= k < |rs| ==> Need(rs[k]) <= BLOCK_SIZE
  }

  predicate GroupOk(rs: seq<Record>)
  {
    rs != [] && Used(rs) <= BLOCK_SIZE
  }

  function Flatten(groups: seq<seq<Record>>): seq<Record>
  {
    if groups == [] then [] else groups[0] + Flatten(groups[1..])
  }

  /** Filling keeps the records in order, and every block gets some. */
  lemma {:induction false} FillKeeps(cur: seq<Record>, rest: seq<Record>)
    requires GroupOk(cur) && AllFit(rest)
    ensures Flatten(Fill(cur, rest)) == cur + rest
    ensures forall k :: 0 <= k < |Fill(cur, rest)| ==> GroupOk(Fill(cur, rest)[k])
    decreases |rest|
  {
    if rest == [] {
      assert Fill(cur, rest)[1..] == [];
      assert cur + rest == cur + [];
    } else {
      var r := rest[0];
      assert rest == [r] + rest[1..];
      assert [r][..|[r]| - 1] == [] && Used([r]) == Need(r);
      if Used(cur) + Need(r) > BLOCK_SIZE {
        FillKeeps([r], rest[1..]);
        assert Fill(cur, rest)[1..] == Fill([r], rest[1..]);
      } else {
        assert (cur + [r])[..|cur + [r]| - 1] == cur;
        FillKeeps(cur + [r], rest[1..]);
        assert cur + rest == cur + [r] + rest[1..];
      }
    }
  }

  predicate SameNames(a: seq<Record>, b: seq<Record>)
  {
    |a| == |b| && forall k :: 0 <= k < |a| ==> a[k].name == b[k].name
  }

  lemma {:induction false} UsedNames(a: seq<Record>, b: seq<Record>)
    requires SameNames(a, b)
    ensures Used(a) == Used(b)
  {
    if a != [] {
      UsedNames(a[..|a| - 1], b[..|b| - 1]);
    }
  }

  /** How many blocks are filled depends on the names alone. */
  lemma {:induction false} FillCount(cur: seq<Record>, rest: seq<Record>, cur': seq<Record>, rest': seq<Record>)
    requires SameNames(cur, cur') && SameNames(rest, rest')
    ensures |Fill(cur, rest)| == |Fill(cur', rest')|
    decreases |rest|
  {
    if rest != [] {
      UsedNames(cur, cur');
      if Used(cur) + Need(rest[0]) > BLOCK_SIZE {
        FillCount([rest[0]], rest[1..], [rest'[0]], rest'[1..]);
      } else {
        FillCount(cur + [rest[0]], rest[1..], cur' + [rest'[0]], rest'[1..]);
      }
    }
  }

  lemma GroupCount(t: Node, ino: nat, parent: nat)
    requires t.kind.Directory?
    ensures |Groups(t, ino, parent)| == DataCount(t)
  {
    FillCount(DotRecords(ino, parent), ChildRecords(t, ino), DotRecords(0, 0), ChildRecords(t, 0));
  }

  lemma ChildrenFit(t: Node, ino: nat, parent: nat)
    requires SourceTree.Scanned(t)
    ensures AllFit(ChildRecords(t, ino)) && GroupOk(DotRecords(ino, parent))
  {
    forall k | 0 <= k < |t.children|
      ensures Need(ChildRecords(t, ino)[k]) <= BLOCK_SIZE
    {
      assert ChildName(t.children[k].name);
    }
    var d := DotRecords(ino, parent);
    assert d[..1][..0] == [] && d[..1] == [d[0]];
    assert Used(d[..1]) == Need(d[0]);
  }

  // ---------- the contents of a node's blocks ----------

  /** Bytes [k * 4096, (k + 1) * 4096) of the data, padded with zeros. */
  function Chunk(data: seq<byte>, k: nat): (b: Block)
    requires k * BLOCK_SIZE <= |data|
  {
    if (k + 1) * BLOCK_SIZE <= |data| then data[k * BLOCK_SIZE..(k + 1) * BLOCK_SIZE]
    else data[k * BLOCK_SIZE..] + Zeros((k + 1) * BLOCK_SIZE - |data|)
  }

  function BlockContent(t: Node, ino: nat, parent: nat, k: nat): (b: Block)
    requires SourceTree.Scanned(t) && k < DataCount(t)
  {
    if t.kind.Directory? then
      GroupCount(t, ino, parent);
      ChildrenFit(t, ino, parent);
      FillKeeps(DotRecords(ino, parent), ChildRecords(t, ino));
      Finished(Groups(t, ino, parent)[k])
    else
      ChunkStarts(t.data, k);
      Chunk(t.data, k)
  }

  lemma ChunkStarts(data: seq<byte>, k: nat)
    requires k < CeilDiv(|data|, BLOCK_SIZE)
    ensures k * BLOCK_SIZE < |data|
  {
  }

  function NodeSize(t: Node): nat
  {
    if t.kind.Directory? then DataCount(t) * BLOCK_SIZE else |t.data|
  }

  function BlockOrZero(t: Node, blk: nat, k: nat): nat
  {
    if k < DataCount(t) then DataBlock(t, blk, k) else 0
  }

  /** The numbers of n data blocks from block `from` on, zero past the last. */
  function SlotTable(t: Node, blk: nat, from: nat, n: nat): (e: seq<nat>)
    ensures |e| == n && forall k :: 0 <= k < n ==> e[k] == BlockOrZero(t, blk, from + k)
  {
    seq<nat>(n, k requires 0 <= k < n => BlockOrZero(t, blk, from + k))
  }

  function DirectSlots(t: Node, blk: nat): (d: seq<nat>)
    ensures |d| == DIRECT_BLOCKS
  {
    SlotTable(t, blk, 0, DIRECT_BLOCKS)
  }

  function IndirectSlot(t: Node, blk: nat): nat
  {
    if DataCount(t) > DIRECT_BLOCKS then blk else 0
  }

  function IndirectTable(t: Node, blk: nat): (e: seq<nat>)
    ensures |e| == INDIRECT_BLOCKS
  {
    SlotTable(t, blk, DIRECT_BLOCKS, INDIRECT_BLOCKS)
  }

  function SealInode(i: Inode): Inode
    requires |i.direct| == DIRECT_BLOCKS
  {
    i.(checksum := InodeChecksum(i))
  }

  /** The inode write_node writes. */
  function InodeFor(t: Node, blk: nat, ns: nat): (i: Inode)
    ensures |i.direct| == DIRECT_BLOCKS
  {
    SealInode(Inode(t.mode, KindCode(t.kind), 0, 0, 0, LinkCount(t), NodeSize(t), OwnBlocks(t), 1, ns, ns, ns,
                    DirectSlots(t, blk), IndirectSlot(t, blk), 0, 0, 0))
  }

  // ---------- trees on an image ----------

  /** The blocks and the inode slots of the tree lie inside the image. */
  predicate Inside(image: seq<Block>, table: nat, t: Node, ino: nat, blk: nat)
  {
    && blk + Blocks(t) <= |image|
    && forall n :: ino <= n < ino + NodeCount(t) ==> InodeInside(image, table, n)
  }

  predicate InodeInside(image: seq<Block>, table: nat, n: nat)
  {
    table + n / FsckSuper.INODES_PER_BLOCK < |image|
  }

  /** The node itself is on the image. */
  predicate NodeEncoded(image: seq<Block>, table: nat, t: Node, ino: nat, blk: nat, parent: nat, ns: nat)
    requires SourceTree.Scanned(t) && blk + OwnBlocks(t) <= |image| && InodeInside(image, table, ino)
  {
    && FsckSuper.InodeAt(image, table, ino) == InodeFor(t, blk, ns)
    && (DataCount(t) > DIRECT_BLOCKS ==> image[blk] == EncodeEntries(IndirectTable(t, blk)))
    && forall k :: 0 <= k < DataCount(t) ==> image[DataBlock(t, blk, k)] == BlockContent(t, ino, parent, k)
  }

  lemma {:induction false} PrefixSums(ts: seq<Node>, k: nat)
    requires k < |ts|
    ensures NodesOf(ts[..k]) + NodeCount(ts[k]) <= NodesOf(ts)
    ensures BlocksOf(ts[..k]) + Blocks(ts[k]) <= BlocksOf(ts)
    ensures NodesOf(ts[..k + 1]) == NodesOf(ts[..k]) + NodeCount(ts[k])
    ensures BlocksOf(ts[..k + 1]) == BlocksOf(ts[..k]) + Blocks(ts[k])
    decreases |ts|
  {
    assert ts[..k + 1][..k] == ts[..k];
    var n := |ts| - 1;
    if k == n {
      assert ts[..k + 1] == ts;
    } else {
      PrefixSums(ts[..n], k);
      assert ts[..n][..k] == ts[..k];
    }
  }

  lemma ChildInside(image: seq<Block>, table: nat, t: Node, ino: nat, blk: nat, k: nat)
    requires Inside(image, table, t, ino, blk) && k < |t.children|
    ensures Inside(image, table, t.children[k], ChildInode(t, ino, k), ChildBlock(t, blk, k))
  {
    PrefixSums(t.children, k);
  }

  /** The tree is on the image, its inodes numbered from `ino` and its blocks from `blk` on. */
  predicate Encoded(image: seq<Block>, table: nat, t: Node, ino: nat, blk: nat, parent: nat, ns: nat)
    requires SourceTree.Scanned(t) && Inside(image, table, t, ino, blk)
    decreases t
  {
    && NodeEncoded(image, table, t, ino, blk, parent, ns)
    && forall k :: 0 <= k < |t.children| ==> ChildEncoded(image, table, t, ino, blk, ns, k)
  }

  predicate ChildEncoded(image: seq<Block>, table: nat, t: Node, ino: nat, blk: nat, ns: nat, k: nat)
    requires SourceTree.Scanned(t) && Inside(image, table, t, ino, blk) && 0 <= k < |t.children|
    decreases t, 0
  {
    ChildInside(image, table, t, ino, blk, k);
    Encoded(image, table, t.children[k], ChildInode(t, ino, k), ChildBlock(t, blk, k), ino, ns)
  }

  /** Both images hold the same in the blocks and inode slots of the tree. */
  ghost predicate SameWithin(image: seq<Block>, image': seq<Block>, table: nat, t: Node, ino: nat, blk: nat)
    requires Inside(image, table, t, ino, blk)
  {
    && |image| == |image'|
    && (forall b :: blk <= b < blk + Blocks(t) ==> image[b] == image'[b])
    && (forall n :: ino <= n < ino + NodeCount(t) ==> SameInode(image, image', table, n))
  }

  ghost predicate SameInode(image: seq<Block>, image': seq<Block>, table: nat, n: nat)
  {
    InodeInside(image, table, n) && InodeInside(image', table, n)
    && FsckSuper.InodeAt(image, table, n) == FsckSuper.InodeAt(image', table, n)
  }

  lemma {:induction false} EncodedFrame(image: seq<Block>, image': seq<Block>, table: nat, t: Node, ino: nat, blk: nat,
                                        parent: nat, ns: nat)
    requires SourceTree.Scanned(t) && Inside(image, table, t, ino, blk)
    requires Encoded(image, table, t, ino, blk, parent, ns)
    requires SameWithin(image, image', table, t, ino, blk)
    ensures Inside(image', table, t, ino, blk) && Encoded(image', table, t, ino, blk, parent, ns)
    decreases t
  {
    hide FsckSuper.InodeAt, InodeFor, BlockContent, EncodeEntries, DataCount, BlocksOf, NodesOf;
    assert Inside(image', table, t, ino, blk) by {
      forall n | ino <= n < ino + NodeCount(t)
        ensures InodeInside(image', table, n)
      {
        assert SameInode(image, image', table, n);
      }
    }
    NodeFrame(image, image', table, t, ino, blk, parent, ns);
    forall k | 0 <= k < |t.children|
      ensures ChildEncoded(image', table, t, ino, blk, ns, k)
    {
      assert ChildEncoded(image, table, t, ino, blk, ns, k);
      ChildInside(image, table, t, ino, blk, k);
      ChildSame(image, image', table, t, ino, blk, k);
      EncodedFrame(image, image', table, t.children[k], ChildInode(t, ino, k), ChildBlock(t, blk, k), ino, ns);
    }
  }

  lemma NodeFrame(image: seq<Block>, image': seq<Block>, table: nat, t: Node, ino: nat, blk: nat, parent: nat, ns: nat)
    requires SourceTree.Scanned(t) && Inside(image, table, t, ino, blk) && Inside(image', table, t, ino, blk)
    requires SameWithin(image, image', table, t, ino, blk)
    requires NodeEncoded(image, table, t, ino, blk, parent, ns)
    ensures NodeEncoded(image', table, t, ino, blk, parent, ns)
  {
    hide FsckSuper.InodeAt, InodeFor, BlockContent, EncodeEntries, DataCount, BlocksOf, NodesOf;
    assert SameInode(image, image', table, ino);
  }

  lemma ChildSame(image: seq<Block>, image': seq<Block>, table: nat, t: Node, ino: nat, blk: nat, k: nat)
    requires Inside(image, table, t, ino, blk) && SameWithin(image, image', table, t, ino, blk) && k < |t.children|
    ensures Inside(image, table, t.children[k], ChildInode(t, ino, k), ChildBlock(t, blk, k))
    ensures SameWithin(image, image', table, t.children[k], ChildInode(t, ino, k), ChildBlock(t, blk, k))
  {
    hide FsckSuper.InodeAt, DataCount;
    ChildInside(image, table, t, ino, blk, k);
    PrefixSums(t.children, k);
  }
}
