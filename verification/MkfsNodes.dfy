/** The source nodes of mkfs.northstar with the fields it fills in (tools/mkfs_northstar.c, struct
    source_node), and how many blocks a directory takes. */
module MkfsNodes {
  import opened OnDisk
  import opened Inodes
  import opened Directories
  import opened SourceTree
  import opened TreeImage

  /** A node with its inode number, link count and blocks. */
  datatype Mapped = Mapped(node: Node, inode: nat, linkCount: nat, size: nat, dataBlockCount: nat,
                           direct: seq<nat>, indirect: nat, entries: seq<nat>, children: seq<Mapped>)

  /** The tree after assign_inodes. */
  function Numbered(t: Node, ino: nat): Mapped
    decreases t, 1
  {
    Mapped(t, ino, LinkCount(t), |t.data|, 0, Repeat(0, DIRECT_BLOCKS), 0, [], NumberedChildren(t, ino, |t.children|))
  }

  function NumberedChildren(t: Node, ino: nat, n: nat): (ms: seq<Mapped>)
    requires n <= |t.children|
    ensures |ms| == n
    decreases t, 0, n
  {
    if n == 0 then []
    else NumberedChildren(t, ino, n - 1) + [Numbered(t.children[n - 1], ChildInode(t, ino, n - 1))]
  }

  /** The tree after allocate_node_blocks. */
  function Placed(t: Node, ino: nat, blk: nat): Mapped
    decreases t, 1
  {
    Mapped(t, ino, LinkCount(t), NodeSize(t), DataCount(t), DirectSlots(t, blk), IndirectSlot(t, blk),
           if DataCount(t) > DIRECT_BLOCKS then IndirectTable(t, blk) else [],
           PlacedChildren(t, ino, blk, |t.children|))
  }

  function PlacedChildren(t: Node, ino: nat, blk: nat, n: nat): (ms: seq<Mapped>)
    requires n <= |t.children|
    ensures |ms| == n
    decreases t, 0, n
  {
    if n == 0 then []
    else PlacedChildren(t, ino, blk, n - 1)
         + [Placed(t.children[n - 1], ChildInode(t, ino, n - 1), ChildBlock(t, blk, n - 1))]
  }

  lemma {:induction false} NumberedChild(t: Node, ino: nat, n: nat, k: nat)
    requires k < n <= |t.children|
    ensures NumberedChildren(t, ino, n)[k] == Numbered(t.children[k], ChildInode(t, ino, k))
    decreases n
  {
    if k < n - 1 { NumberedChild(t, ino, n - 1, k); }
  }

  lemma {:induction false} PlacedChild(t: Node, ino: nat, blk: nat, n: nat, k: nat)
    requires k < n <= |t.children|
    ensures PlacedChildren(t, ino, blk, n)[k] == Placed(t.children[k], ChildInode(t, ino, k), ChildBlock(t, blk, k))
    decreases n
  {
    if k < n - 1 { PlacedChild(t, ino, blk, n - 1, k); }
  }

  // ---------- directory_blocks ----------

  /** Filling a block one record further. */
  lemma FillStep(cur: seq<Record>, rest: seq<Record>)
    requires rest != []
    ensures Used([rest[0]]) == Need(rest[0]) && Used(cur + [rest[0]]) == Used(cur) + Need(rest[0])
    ensures |Fill(cur, rest)| ==
      if Used(cur) + Need(rest[0]) > BLOCK_SIZE then 1 + |Fill([rest[0]], rest[1..])|
      else |Fill(cur + [rest[0]], rest[1..])|
  {
    assert [rest[0]][..0] == [];
    assert (cur + [rest[0]])[..|cur|] == cur;
  }

  /** directory_blocks: the number of blocks write_directory_data will emit. */
  method DirectoryBlocks(t: Node) returns (blocks: nat)
    requires t.kind.Directory?
    ensures blocks == DataCount(t)
  {
    hide Fill, Used, DirentMin, ChildInode;
    ghost var rs := ChildRecords(t, 0);
    ghost var cur := DotRecords(0, 0);
    blocks := 1;
    var used := DirentMin(1) + DirentMin(2);
    DotsUsed(0, 0);
    var index := 0;
    assert rs[0..] == rs;
    while index < |t.children|
      invariant 0 <= index <= |t.children| && used == Used(cur)
      invariant blocks + |Fill(cur, rs[index..])| - 1 == DataCount(t)
    {
      var needed := DirentMin(|t.children[index].name|);
      FillStep(cur, rs[index..]);
      assert rs[index..][1..] == rs[index + 1..];
      if used + needed > BLOCK_SIZE {
        blocks := blocks + 1;
        used := 0;
        cur := [];
      }
      used := used + needed;
      cur := cur + [rs[index]];
      assert [] + [rs[index]] == [rs[index]];
      index := index + 1;
    }
    FillEnd(cur, rs[index..]);
  }

  lemma DotsUsed(ino: nat, parent: nat)
    ensures Used(DotRecords(ino, parent)) == DirentMin(1) + DirentMin(2)
  {
    hide DirentMin;
    var d := DotRecords(ino, parent);
    assert d[..1] == [d[0]] && [d[0]][..0] == [];
    assert Used(d) == Used(d[..1]) + Need(d[1]);
    assert Used([d[0]]) == Need(d[0]);
  }

  lemma FillEnd(cur: seq<Record>, rest: seq<Record>)
    requires rest == []
    ensures |Fill(cur, rest)| == 1
  {
  }
}
