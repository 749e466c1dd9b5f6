/** A source tree as a loaded volume holds it. */
module VolumeTree {
  import opened OnDisk
  import opened Inodes
  import opened Volumes
  import opened SourceTree
  import opened TreeImage
  import FsckSuper

  /** The indirect block of the node, if it needs one, is in place. */
  predicate IndirectStored(v: Volume, t: Node, blk: nat)
  {
    && DataCount(t) <= MAX_FILE_BLOCKS && 0 < blk && blk + OwnBlocks(t) <= UINT32_MAX
    && (DataCount(t) > DIRECT_BLOCKS ==> blk < |v.image| && v.image[blk] == EncodeEntries(IndirectTable(t, blk)))
  }

  /** The data blocks of the node hold its data. */
  predicate DataStored(v: Volume, t: Node, ino: nat, blk: nat, parent: nat)
  {
    && SourceTree.Scanned(t) && blk + OwnBlocks(t) <= |v.image|
    && forall k :: 0 <= k < DataCount(t) ==> v.image[DataBlock(t, blk, k)] == BlockContent(t, ino, parent, k)
  }

  /** The node itself: inode, indirect block, data, all inside the inode table and the data area. */
  predicate NodeOnVolume(v: Volume, t: Node, ino: nat, blk: nat, parent: nat, ns: nat)
    requires Wf(v)
  {
    && 1 <= ino && ino + NodeCount(t) <= v.sb.totalInodes && v.inodes[ino] == InodeFor(t, blk, ns)
    && v.sb.dataStart <= blk && blk + Blocks(t) <= v.sb.totalBlocks
    && IndirectStored(v, t, blk) && DataStored(v, t, ino, blk, parent)
  }

  predicate OnVolume(v: Volume, t: Node, ino: nat, blk: nat, parent: nat, ns: nat)
    requires Wf(v)
    decreases t
  {
    && NodeOnVolume(v, t, ino, blk, parent, ns)
    && forall k :: 0 <= k < |t.children| ==>
         OnVolume(v, t.children[k], ChildInode(t, ino, k), ChildBlock(t, blk, k), ino, ns)
  }

  predicate EncodedIn(image: seq<Block>, table: nat, t: Node, ino: nat, blk: nat, parent: nat, ns: nat)
  {
    SourceTree.Scanned(t) && Inside(image, table, t, ino, blk) && Encoded(image, table, t, ino, blk, parent, ns)
  }

  /** The volume's inodes are those of the image's table. */
  ghost predicate InodesLoaded(v: Volume)
  {
    forall n :: 0 <= n < |v.inodes| ==> InodeLoaded(v, n)
  }

  predicate InodeLoaded(v: Volume, n: nat)
    requires n < |v.inodes|
  {
    InodeInside(v.image, v.sb.inodeTableStart, n) && v.inodes[n] == FsckSuper.InodeAt(v.image, v.sb.inodeTableStart, n)
  }

  predicate Bounded(v: Volume, t: Node, ino: nat, blk: nat)
  {
    && 1 <= ino && ino + NodeCount(t) <= v.sb.totalInodes
    && v.sb.dataStart <= blk && blk + Blocks(t) <= v.sb.totalBlocks
  }

  /** What an image holds is on the volume loaded from it. */
  lemma {:induction false} EncodedOnVolume(v: Volume, t: Node, ino: nat, blk: nat, parent: nat, ns: nat)
    requires Wf(v) && Representable(t) && Bounded(v, t, ino, blk) && InodesLoaded(v)
    requires EncodedIn(v.image, v.sb.inodeTableStart, t, ino, blk, parent, ns)
    ensures OnVolume(v, t, ino, blk, parent, ns)
    decreases t
  {
    hide FsckSuper.InodeAt, InodeFor, BlockContent, EncodeEntries, DataCount, NodesOf, BlocksOf;
    assert InodeLoaded(v, ino);
    assert NodeOnVolume(v, t, ino, blk, parent, ns);
    forall k | 0 <= k < |t.children|
      ensures OnVolume(v, t.children[k], ChildInode(t, ino, k), ChildBlock(t, blk, k), ino, ns)
    {
      PrefixSums(t.children, k);
      ChildInside(v.image, v.sb.inodeTableStart, t, ino, blk, k);
      assert ChildEncoded(v.image, v.sb.inodeTableStart, t, ino, blk, ns, k);
      EncodedOnVolume(v, t.children[k], ChildInode(t, ino, k), ChildBlock(t, blk, k), ino, ns);
    }
  }
}
