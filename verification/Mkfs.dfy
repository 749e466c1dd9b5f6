/** mkfs.northstar (tools/mkfs_northstar.c): layout, inode and block assignment, and writing the
    image. */
module Mkfs {
  import opened Bytes
  import opened OnDisk
  import opened Inodes
  import opened Superblocks
  import opened SourceTree
  import opened TreeImage
  import opened MkfsNodes
  import Bitmap

  /** What parse_options lets through. */
  datatype Options = Options(inodesGiven: bool, inodeCount: nat, journalBlocks: nat, epochSeconds: nat, uuid: nat)

  predicate OptionsOk(o: Options)
  {
    && (o.inodesGiven ==> 2 <= o.inodeCount <= UINT32_MAX)
    && MIN_JOURNAL_BLOCKS <= o.journalBlocks <= JOURNAL_MAX_ENTRIES + 1
    && o.uuid < Pow256(16)
  }

  const MIN_INODES: nat := 32
  const DEFAULT_MAX_INODES: nat := 65536

  class Context {
    var image: seq<Block>
    var sb: Superblock
    var inodeBitmap: array<byte>
    var blockBitmap: array<byte>
    var nextBlock: nat
    var nextInode: nat
    var allocatedBlocks: nat
    var allocatedInodes: nat

    /** Inode zero, the numbers handed out and the tail are marked, nothing else. */
    ghost predicate InodeBits()
      reads this, inodeBitmap
    {
      && 1 <= nextInode <= sb.totalInodes <= 8 * inodeBitmap.Length && allocatedInodes == nextInode
      && forall i :: 0 <= i < 8 * inodeBitmap.Length ==>
           (Bitmap.Test(inodeBitmap[..], i) <==> i < nextInode || i >= sb.totalInodes)
    }

    /** The blocks up to the next one and the tail are marked, nothing else. */
    ghost predicate BlockBits()
      reads this, blockBitmap
    {
      && nextBlock <= sb.totalBlocks <= 8 * blockBitmap.Length && allocatedBlocks == nextBlock
      && sb.totalBlocks <= UINT32_MAX
      && forall b :: 0 <= b < 8 * blockBitmap.Length ==>
           (Bitmap.Test(blockBitmap[..], b) <==> b < nextBlock || b >= sb.totalBlocks)
    }

    method TakeInode() returns (ino: nat)
      requires InodeBits() && nextInode < sb.totalInodes
      modifies this`nextInode, this`allocatedInodes, inodeBitmap
      ensures InodeBits() && ino == old(nextInode) && nextInode == old(nextInode) + 1
    {
      hide Bitmap.Test;
      ino := nextInode;
      Bitmap.Set(inodeBitmap, nextInode);
      nextInode := nextInode + 1;
      allocatedInodes := allocatedInodes + 1;
    }

    /** assign_inodes: preorder numbers and link counts; fails exactly when there are too few inodes. */
    method AssignInodes(t: Node) returns (ok: bool, m: Mapped)
      requires InodeBits() && SourceTree.Scanned(t)
      modifies this`nextInode, this`allocatedInodes, inodeBitmap
      ensures InodeBits()
      ensures ok <==> old(nextInode) + NodeCount(t) <= sb.totalInodes
      ensures ok ==> m == Numbered(t, old(nextInode)) && nextInode == old(nextInode) + NodeCount(t)
      decreases t
    {
      hide InodeBits, NodesOf, Subdirectories, SourceTree.Scanned;
      InodeRoom();
      m := Mapped(t, 0, 0, |t.data|, 0, Repeat(0, DIRECT_BLOCKS), 0, [], []);
      assert t.children[..|t.children|] == t.children;
      if nextInode >= sb.totalInodes {
        return false, m;
      }
      var ino := TakeInode();
      m := m.(inode := ino, linkCount := if t.kind.Directory? then 2 else 1);
      var index := 0;
      NoChildren(t);
      while index < |t.children|
        invariant 0 <= index <= |t.children| && InodeBits()
        invariant nextInode == ino + 1 + NodesOf(t.children[..index])
        invariant m == Mapped(t, ino, (if t.kind.Directory? then 2 else 1) + Subdirectories(t.children[..index]),
                              |t.data|, 0, Repeat(0, DIRECT_BLOCKS), 0, [], NumberedChildren(t, ino, index))
      {
        ChildStep(t, index);
        if t.children[index].kind.Directory? {
          m := m.(linkCount := m.linkCount + 1);
        }
        var childOk, child := AssignInodes(t.children[index]);
        if !childOk {
          return false, m;
        }
        m := m.(children := m.children + [child]);
        index := index + 1;
      }
      InodeRoom();
      return true, m;
    }

    lemma InodeRoom()
      requires InodeBits()
      ensures nextInode <= sb.totalInodes
    {
    }

    /** allocate_block: the first clear bit from the next block on. */
    method AllocateBlock() returns (ok: bool, block: nat)
      requires BlockBits()
      modifies this`nextBlock, this`allocatedBlocks, blockBitmap
      ensures BlockBits()
      ensures ok <==> old(nextBlock) < sb.totalBlocks
      ensures ok ==> block == old(nextBlock) && nextBlock == old(nextBlock) + 1
      ensures !ok ==> nextBlock == old(nextBlock)
    {
      hide Bitmap.Test;
      assert nextBlock < sb.totalBlocks ==> !Bitmap.Test(blockBitmap[..], nextBlock);
      nextBlock := FirstClear(blockBitmap[..], nextBlock, sb.totalBlocks);
      if nextBlock >= sb.totalBlocks || nextBlock > UINT32_MAX {
        return false, 0;
      }
      block := nextBlock;
      Bitmap.Set(blockBitmap, nextBlock);
      allocatedBlocks := allocatedBlocks + 1;
      nextBlock := nextBlock + 1;
      return true, block;
    }

    /** The blocks of one node: the indirect block, if any, and the data blocks. */
    method AllocateOwnBlocks(t: Node) returns (ok: bool, direct: seq<nat>, indirect: nat, entries: seq<nat>)
      requires BlockBits() && DataCount(t) <= MAX_FILE_BLOCKS
      modifies this`nextBlock, this`allocatedBlocks, blockBitmap
      ensures BlockBits()
      ensures ok <==> old(nextBlock) + OwnBlocks(t) <= sb.totalBlocks
      ensures ok ==>
        && nextBlock == old(nextBlock) + OwnBlocks(t)
        && direct == DirectSlots(t, old(nextBlock)) && indirect == IndirectSlot(t, old(nextBlock))
        && entries == if DataCount(t) > DIRECT_BLOCKS then IndirectTable(t, old(nextBlock)) else []
    {
      hide BlockBits;
      ghost var blk := nextBlock;
      var count := NodeBlocks(t);
      BlockRoom();
      direct, indirect, entries := Repeat(0, DIRECT_BLOCKS), 0, [];
      if count > DIRECT_BLOCKS {
        var taken, first := AllocateBlock();
        if !taken {
          return false, direct, indirect, entries;
        }
        indirect := first;
        entries := Repeat(0, INDIRECT_BLOCKS);
      }
      ok := true;
      var index := 0;
      while index < count
        invariant 0 <= index <= count && BlockBits()
        invariant nextBlock == DataBlock(t, blk, index)
        invariant |direct| == DIRECT_BLOCKS
        invariant forall k :: 0 <= k < DIRECT_BLOCKS ==> direct[k] == if k < index then DataBlock(t, blk, k) else 0
        invariant count > DIRECT_BLOCKS ==>
          && |entries| == INDIRECT_BLOCKS
          && forall k :: 0 <= k < INDIRECT_BLOCKS ==>
               entries[k] == if DIRECT_BLOCKS + k < index then DataBlock(t, blk, DIRECT_BLOCKS + k) else 0
        invariant count <= DIRECT_BLOCKS ==> entries == []
      {
        var taken, block := AllocateBlock();
        if !taken {
          return false, direct, indirect, entries;
        }
        if index < DIRECT_BLOCKS {
          direct := direct[index := block];
        } else {
          entries := entries[index - DIRECT_BLOCKS := block];
        }
        index := index + 1;
      }
      assert direct == DirectSlots(t, blk);
      BlockRoom();
    }

    lemma BlockRoom()
      requires BlockBits()
      ensures nextBlock <= sb.totalBlocks
    {
    }

    /** The children of one node, in order. */
    method AllocateChildren(ms: seq<Mapped>, ghost t: Node, ghost ino: nat, ghost blk: nat)
      returns (ok: bool, placed: seq<Mapped>)
      requires BlockBits() && ms == NumberedChildren(t, ino, |t.children|) && SourceTree.Scanned(t)
      requires nextBlock == blk + OwnBlocks(t)
      modifies this`nextBlock, this`allocatedBlocks, blockBitmap
      ensures BlockBits()
      ensures ok <==> ChildrenRepresentable(t) && old(nextBlock) + BlocksOf(t.children) <= sb.totalBlocks
      ensures ok ==>
        && placed == PlacedChildren(t, ino, blk, |t.children|)
        && nextBlock == old(nextBlock) + BlocksOf(t.children)
      decreases t, 0
    {
      hide BlockBits, DataCount, BlocksOf, SourceTree.Scanned, Placed, Numbered, Representable;
      placed := [];
      var child := 0;
      NoBlocks(t);
      BlockRoom();
      while child < |ms|
        invariant 0 <= child <= |ms| == |t.children| && BlockBits()
        invariant nextBlock == blk + OwnBlocks(t) + BlocksOf(t.children[..child])
        invariant forall k :: 0 <= k < child ==> Representable(t.children[k])
        invariant placed == PlacedChildren(t, ino, blk, child)
      {
        BlockStep(t, child);
        NumberedChild(t, ino, |t.children|, child);
        var childOk, one := AllocateNodeBlocks(ms[child], t.children[child], ChildInode(t, ino, child));
        if !childOk {
          return false, placed;
        }
        placed := placed + [one];
        child := child + 1;
      }
      BlockRoom();
      assert t.children[..child] == t.children;
      return true, placed;
    }

    /** allocate_node_blocks: preorder blocks; fails exactly when a node is too large or the blocks
        do not suffice. */
    method AllocateNodeBlocks(m: Mapped, ghost t: Node, ghost ino: nat) returns (ok: bool, p: Mapped)
      requires BlockBits() && m == Numbered(t, ino) && SourceTree.Scanned(t)
      modifies this`nextBlock, this`allocatedBlocks, blockBitmap
      ensures BlockBits()
      ensures ok <==> Representable(t) && old(nextBlock) + Blocks(t) <= sb.totalBlocks
      ensures ok ==> p == Placed(t, ino, old(nextBlock)) && nextBlock == old(nextBlock) + Blocks(t)
      decreases t, 1
    {
      hide BlockBits, DataCount, BlocksOf, SourceTree.Scanned, Numbered, NumberedChildren, PlacedChildren;
      ghost var blk := nextBlock;
      MappedFields(t, ino, blk);
      RepresentableIs(t);
      p := m;
      var count := NodeBlocks(m.node);
      if m.node.kind.Directory? {
        p := p.(size := count * BLOCK_SIZE);
      }
      if count > MAX_FILE_BLOCKS {
        return false, p;
      }
      var taken, direct, indirect, entries := AllocateOwnBlocks(m.node);
      if !taken {
        return false, p;
      }
      var childrenOk, children := AllocateChildren(m.children, t, ino, blk);
      p := p.(dataBlockCount := count, direct := direct, indirect := indirect, entries := entries,
        children := children);
      return childrenOk, p;
    }
  }

  predicate ChildrenRepresentable(t: Node)
  {
    forall k :: 0 <= k < |t.children| ==> Representable(t.children[k])
  }

  lemma RepresentableIs(t: Node)
    ensures Representable(t) <==> DataCount(t) <= MAX_FILE_BLOCKS && ChildrenRepresentable(t)
  {
  }

  /** The first clear bit from `from` on, or the limit. */
  method FirstClear(bitmap: seq<byte>, from: nat, limit: nat) returns (bit: nat)
    requires from <= limit <= 8 * |bitmap|
    ensures from <= bit <= limit && forall b :: from <= b < bit ==> Bitmap.Test(bitmap, b)
    ensures bit < limit ==> !Bitmap.Test(bitmap, bit)
  {
    hide Bitmap.Test;
    bit := from;
    while bit < limit && Bitmap.Test(bitmap, bit)
      invariant from <= bit <= limit && forall b :: from <= b < bit ==> Bitmap.Test(bitmap, b)
    {
      bit := bit + 1;
    }
  }

  method NodeBlocks(t: Node) returns (count: nat)
    ensures count == DataCount(t)
  {
    if t.kind.Directory? {
      count := DirectoryBlocks(t);
    } else {
      count := CeilDiv(|t.data|, BLOCK_SIZE);
    }
  }

  lemma MappedFields(t: Node, ino: nat, blk: nat)
    ensures var m := Numbered(t, ino);
      && m.node == t && m.inode == ino && m.linkCount == LinkCount(t) && m.size == |t.data|
      && m.children == NumberedChildren(t, ino, |t.children|)
  {
  }

  lemma NoBlocks(t: Node)
    ensures t.children[..0] == [] && BlocksOf([]) == 0
  {
  }

  lemma BlockStep(t: Node, k: nat)
    requires SourceTree.Scanned(t) && k < |t.children|
    ensures SourceTree.Scanned(t.children[k])
    ensures BlocksOf(t.children[..k]) + Blocks(t.children[k]) <= BlocksOf(t.children)
    ensures BlocksOf(t.children[..k + 1]) == BlocksOf(t.children[..k]) + Blocks(t.children[k])
  {
    PrefixSums(t.children, k);
  }

  lemma NoChildren(t: Node)
    requires SourceTree.Scanned(t)
    ensures t.children[..0] == [] && NodesOf([]) == 0 && Subdirectories([]) == 0
    ensures !t.kind.Directory? ==> t.children == []
  {
  }

  lemma ChildStep(t: Node, k: nat)
    requires SourceTree.Scanned(t) && k < |t.children|
    ensures SourceTree.Scanned(t.children[k])
    ensures NodesOf(t.children[..k]) + NodeCount(t.children[k]) <= NodesOf(t.children)
    ensures NodesOf(t.children[..k + 1]) == NodesOf(t.children[..k]) + NodeCount(t.children[k])
    ensures Subdirectories(t.children[..k + 1])
         == Subdirectories(t.children[..k]) + if t.children[k].kind.Directory? then 1 else 0
  {
    assert t.children[..k + 1][..k] == t.children[..k];
    PrefixSums(t.children, k);
  }
}
