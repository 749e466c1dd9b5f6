/** The block pointers of a formatted tree: every inode is in order, and together they claim each
    block of the tree once. */
module MkfsBlocks {
  import opened Sequences
  import opened OnDisk
  import opened Inodes
  import opened Superblocks
  import opened Volumes
  import opened SourceTree
  import opened TreeImage
  import opened VolumeTree
  import Bitmap

  /** The first `inodes` inodes and the first `blocks` blocks are in use, and no others. */
  ghost predicate InUseUpto(v: Volume, inodes: nat, blocks: nat)
    requires Wf(v)
  {
    && inodes <= v.sb.totalInodes && blocks <= v.sb.totalBlocks
    && (forall n :: 0 <= n < v.sb.totalInodes ==> (Allocated(v, n) <==> n < inodes))
    && (forall b :: 0 <= b < v.sb.totalBlocks ==> (InUse(v, b) <==> b < blocks))
  }

  // ---------- the slots of one inode ----------

  function SlotValue(t: Node, blk: nat, k: nat): nat
  {
    if k < DIRECT_BLOCKS then BlockOrZero(t, blk, k)
    else if k == DIRECT_BLOCKS then IndirectSlot(t, blk)
    else BlockOrZero(t, blk, k - 1)
  }

  lemma SizeBlocks(t: Node, blk: nat, ns: nat)
    ensures DataBlocks(InodeFor(t, blk, ns)) == DataCount(t) && SlotCount(InodeFor(t, blk, ns)) == OwnBlocks(t)
  {
    hide InodeChecksum, DataCount;
    FileCount(t);
  }

  lemma FileCount(t: Node)
    ensures CeilDiv(NodeSize(t), BLOCK_SIZE) == DataCount(t)
  {
    hide Groups;
  }

  lemma SlotIs(v: Volume, t: Node, blk: nat, ns: nat, k: nat)
    requires IndirectStored(v, t, blk) && k < SlotTotal(InodeFor(t, blk, ns)) <= SLOTS
    ensures Slot(v, InodeFor(t, blk, ns), k) == SlotValue(t, blk, k)
  {
    hide InodeChecksum, DataCount, EncodeEntries, Entries;
    SizeBlocks(t, blk, ns);
    if k > DIRECT_BLOCKS {
      TableBounds(t, blk);
      EntriesRoundTrip(IndirectTable(t, blk));
    }
  }

  lemma TableBounds(t: Node, blk: nat)
    requires blk + OwnBlocks(t) <= UINT32_MAX
    ensures forall k :: 0 <= k < INDIRECT_BLOCKS ==> IndirectTable(t, blk)[k] <= UINT32_MAX
  {
    hide DataCount;
  }

  lemma NodeInodeOk(v: Volume, t: Node, blk: nat, ns: nat)
    requires SourceTree.Scanned(t) && IndirectStored(v, t, blk)
    ensures InodeOk(v, InodeFor(t, blk, ns))
  {
    var i := InodeFor(t, blk, ns);
    NodeHeaderOk(t, blk, ns);
    SlotBounds(i);
    hide InodeFor, InodeHeaderOk, SlotTotal, Slot, DataCount, EncodeEntries, SourceTree.Scanned;
    SizeBlocks(t, blk, ns);
    forall k | SlotCount(i) <= k < SlotTotal(i)
      ensures Slot(v, i, k) == 0
    {
      SlotIs(v, t, blk, ns, k);
      UnusedIsZero(t, blk, ns, k);
    }
  }

  lemma UnusedIsZero(t: Node, blk: nat, ns: nat, k: nat)
    requires OwnBlocks(t) <= k < SlotTotal(InodeFor(t, blk, ns))
    ensures SlotValue(t, blk, k) == 0
  {
    hide InodeChecksum, DataCount;
    SizeBlocks(t, blk, ns);
  }

  lemma NodeHeaderOk(t: Node, blk: nat, ns: nat)
    requires SourceTree.Scanned(t) && DataCount(t) <= MAX_FILE_BLOCKS
    ensures InodeHeaderOk(InodeFor(t, blk, ns)) && InodeFor(t, blk, ns).size <= MAX_FILE_SIZE
  {
    hide DataCount, EncodeInode, Crc32c;
    SizeBlocks(t, blk, ns);
    var i := InodeFor(t, blk, ns);
    assert i.(checksum := 0) == Inode(t.mode, KindCode(t.kind), 0, 0, 0, LinkCount(t), NodeSize(t), OwnBlocks(t), 1,
      ns, ns, ns,
                                      DirectSlots(t, blk), IndirectSlot(t, blk), 0, 0, 0);
  }

  // ---------- claims ----------

  /** The numbers are distinct and are exactly those from lo up to hi. */
  ghost predicate Covers(claims: seq<nat>, lo: nat, hi: nat)
  {
    Distinct(claims) && forall b: nat :: b in claims <==> lo <= b < hi
  }

  lemma CoversJoin(a: seq<nat>, b: seq<nat>, lo: nat, mid: nat, hi: nat)
    requires Covers(a, lo, mid) && Covers(b, mid, hi) && lo <= mid <= hi
    ensures Covers(a + b, lo, hi)
  {
    var c := a + b;
    forall i, j | 0 <= i < j < |c|
      ensures c[i] != c[j]
    {
      if i < |a| && j >= |a| {
        assert a[i] in a && b[j - |a|] in b;
      }
    }
  }

  lemma OwnClaims(v: Volume, t: Node, blk: nat, ns: nat)
    requires SourceTree.Scanned(t) && IndirectStored(v, t, blk)
    ensures Covers(InodeClaims(v, InodeFor(t, blk, ns)), blk, blk + OwnBlocks(t))
  {
    var i := InodeFor(t, blk, ns);
    var claims := InodeClaims(v, i);
    NodeHeaderOk(t, blk, ns);
    SizeBlocks(t, blk, ns);
    SlotBounds(i);
    hide InodeFor, InodeHeaderOk, DataCount, EncodeEntries, SourceTree.Scanned, InodeClaims, Slot;
    forall k | 0 <= k < |claims|
      ensures claims[k] == SlotValue(t, blk, k)
    {
      ClaimIsSlot(v, i, k);
      SlotIs(v, t, blk, ns, k);
    }
    SlotsCover(t, blk, claims);
  }

  /** The position of block blk + m among the slots. */
  function SlotPosition(t: Node, m: nat): nat
  {
    if DataCount(t) <= DIRECT_BLOCKS then m
    else if m == 0 then DIRECT_BLOCKS
    else if m <= DIRECT_BLOCKS then m - 1
    else m
  }

  lemma SlotsCover(t: Node, blk: nat, claims: seq<nat>)
    requires |claims| == OwnBlocks(t) && forall k :: 0 <= k < |claims| ==> claims[k] == SlotValue(t, blk, k)
    ensures Covers(claims, blk, blk + OwnBlocks(t))
  {
    hide DataCount;
    forall b: nat | blk <= b < blk + OwnBlocks(t)
      ensures b in claims
    {
      assert claims[SlotPosition(t, b - blk)] == b;
    }
    forall k | 0 <= k < |claims|
      ensures blk <= claims[k] < blk + OwnBlocks(t) && SlotPosition(t, claims[k] - blk) == k
    {
    }
    forall i, j | 0 <= i < j < |claims|
      ensures claims[i] != claims[j]
    {
      assert SlotPosition(t, claims[i] - blk) == i && SlotPosition(t, claims[j] - blk) == j;
    }
  }

  lemma OwnFacts(v: Volume, t: Node, ino: nat, blk: nat, parent: nat, ns: nat)
    requires Wf(v) && OnVolume(v, t, ino, blk, parent, ns)
    ensures Bounded(v, t, ino, blk) && v.inodes[ino] == InodeFor(t, blk, ns)
    ensures SourceTree.Scanned(t) && IndirectStored(v, t, blk)
  {
  }

  lemma ChildFacts(v: Volume, t: Node, ino: nat, blk: nat, parent: nat, ns: nat, k: nat)
    requires Wf(v) && OnVolume(v, t, ino, blk, parent, ns) && k < |t.children|
    ensures OnVolume(v, t.children[k], ChildInode(t, ino, k), ChildBlock(t, blk, k), ino, ns)
    ensures ChildInode(t, ino, k + 1) == ChildInode(t, ino, k) + NodeCount(t.children[k]) <= v.sb.totalInodes
    ensures ChildBlock(t, blk, k + 1) == ChildBlock(t, blk, k) + Blocks(t.children[k])
  {
    hide NodesOf, BlocksOf, DataCount, NodeOnVolume;
    assert OnVolume(v, t.children[k], ChildInode(t, ino, k), ChildBlock(t, blk, k), ino, ns);
    OwnFacts(v, t.children[k], ChildInode(t, ino, k), ChildBlock(t, blk, k), ino, ns);
    PrefixSums(t.children, k);
  }

  /** The inodes [lo, hi) are in order. */
  ghost predicate RangeOk(v: Volume, lo: nat, hi: nat)
    requires Wf(v) && hi <= v.sb.totalInodes
  {
    forall n :: lo <= n < hi ==> InodeOk(v, v.inodes[n])
  }

  /** The claims of inodes [from, to) come to the given ones. */
  ghost predicate Adds(v: Volume, from: nat, to: nat, claims: seq<nat>)
    requires Wf(v) && from <= v.sb.totalInodes && to <= v.sb.totalInodes
  {
    ClaimsUpto(v, to) == ClaimsUpto(v, from) + claims
  }

  lemma AddsJoin(v: Volume, a: nat, b: nat, c: nat, one: seq<nat>, two: seq<nat>)
    requires Wf(v) && a <= v.sb.totalInodes && b <= v.sb.totalInodes && c <= v.sb.totalInodes
    requires Adds(v, a, b, one) && Adds(v, b, c, two)
    ensures Adds(v, a, c, one + two)
  {
    hide ClaimsUpto;
    assert ClaimsUpto(v, a) + one + two == ClaimsUpto(v, a) + (one + two);
  }

  lemma OwnAdds(v: Volume, t: Node, ino: nat, blk: nat, parent: nat, ns: nat, used: nat, blocks: nat)
    requires Wf(v) && OnVolume(v, t, ino, blk, parent, ns) && InUseUpto(v, used, blocks) && ino + NodeCount(t) <= used
    ensures ino + 1 <= v.sb.totalInodes && RangeOk(v, ino, ino + 1)
    ensures var claims := InodeClaims(v, v.inodes[ino]);
      Adds(v, ino, ino + 1, claims) && Covers(claims, blk, blk + OwnBlocks(t))
  {
    hide InodeFor, InodeOk, Covers, InodeClaims, NodesOf, Bitmap.Test, IndirectStored, SourceTree.Scanned, OnVolume;
    OwnFacts(v, t, ino, blk, parent, ns);
    OwnClaims(v, t, blk, ns);
    NodeInodeOk(v, t, blk, ns);
    assert Allocated(v, ino);
  }

  /** The inodes of a subtree are in order, and claim each of its blocks once. */
  lemma {:induction false} TreeAdds(v: Volume, t: Node, ino: nat, blk: nat, parent: nat, ns: nat, used: nat,
                                    blocks: nat)
    returns (claims: seq<nat>)
    requires Wf(v) && OnVolume(v, t, ino, blk, parent, ns) && InUseUpto(v, used, blocks) && ino + NodeCount(t) <= used
    ensures ino + NodeCount(t) <= v.sb.totalInodes && RangeOk(v, ino, ino + NodeCount(t))
    ensures Adds(v, ino, ino + NodeCount(t), claims) && Covers(claims, blk, blk + Blocks(t))
    decreases t, 1
  {
    hide OnVolume, Covers, Adds, InodeOk, BlocksOf, NodesOf, DataCount, InodeClaims;
    OwnAdds(v, t, ino, blk, parent, ns, used, blocks);
    assert t.children[..|t.children|] == t.children;
    var rest := ForestAdds(v, t, ino, blk, parent, ns, used, blocks, |t.children|);
    var own := InodeClaims(v, v.inodes[ino]);
    claims := own + rest;
    AddsJoin(v, ino, ino + 1, ino + NodeCount(t), own, rest);
    CoversJoin(own, rest, blk, blk + OwnBlocks(t), blk + Blocks(t));
  }

  lemma {:induction false} ForestAdds(v: Volume, t: Node, ino: nat, blk: nat, parent: nat, ns: nat, used: nat,
                                      blocks: nat, n: nat)
    returns (claims: seq<nat>)
    requires Wf(v) && OnVolume(v, t, ino, blk, parent, ns) && InUseUpto(v, used, blocks) && ino + NodeCount(t) <= used
    requires n <= |t.children|
    ensures ino + 1 <= ChildInode(t, ino, n) <= v.sb.totalInodes && RangeOk(v, ino + 1, ChildInode(t, ino, n))
    ensures Adds(v, ino + 1, ChildInode(t, ino, n), claims) && Covers(claims, blk + OwnBlocks(t), ChildBlock(t, blk, n))
    decreases t, 0, n
  {
    hide OnVolume, Covers, Adds, InodeOk, BlocksOf, NodesOf, DataCount;
    if n == 0 {
      claims := [];
      NoClaims(v, t, ino, blk, parent, ns);
    } else {
      var front := ForestAdds(v, t, ino, blk, parent, ns, used, blocks, n - 1);
      ChildFacts(v, t, ino, blk, parent, ns, n - 1);
      ChildUsed(t, ino, n - 1);
      var c, i, b := t.children[n - 1], ChildInode(t, ino, n - 1), ChildBlock(t, blk, n - 1);
      var last := TreeAdds(v, c, i, b, ino, ns, used, blocks);
      claims := front + last;
      AddsJoin(v, ino + 1, i, ChildInode(t, ino, n), front, last);
      CoversJoin(front, last, blk + OwnBlocks(t), b, ChildBlock(t, blk, n));
    }
  }

  lemma ChildUsed(t: Node, ino: nat, k: nat)
    requires k < |t.children|
    ensures ChildInode(t, ino, k) + NodeCount(t.children[k]) <= ino + NodeCount(t)
  {
    PrefixSums(t.children, k);
  }

  lemma NoClaims(v: Volume, t: Node, ino: nat, blk: nat, parent: nat, ns: nat)
    requires Wf(v) && OnVolume(v, t, ino, blk, parent, ns)
    ensures ChildInode(t, ino, 0) == ino + 1 <= v.sb.totalInodes && ChildBlock(t, blk, 0) == blk + OwnBlocks(t)
    ensures Adds(v, ino + 1, ino + 1, []) && Covers([], blk + OwnBlocks(t), blk + OwnBlocks(t))
  {
    hide OnVolume, DataCount, ClaimsUpto;
    assert t.children[..0] == [];
    OwnFacts(v, t, ino, blk, parent, ns);
    assert ClaimsUpto(v, ino + 1) + [] == ClaimsUpto(v, ino + 1);
  }

  lemma {:induction false} IdleClaims(v: Volume, used: nat, blocks: nat, n: nat)
    requires Wf(v) && InUseUpto(v, used, blocks) && used <= n <= v.sb.totalInodes
    ensures ClaimsUpto(v, n) == ClaimsUpto(v, used)
    decreases n
  {
    hide Bitmap.Test;
    if n > used {
      IdleClaims(v, used, blocks, n - 1);
      assert !Allocated(v, n - 1);
      if n > 1 { assert ClaimsUpto(v, n) == ClaimsUpto(v, n - 1) + []; }
    }
  }

  /** A formatted tree meets what validate_inodes_and_blocks demands. */
  lemma TreeBlocksOk(v: Volume, t: Node, ns: nat)
    requires Wf(v) && OnVolume(v, t, ROOT_INODE, v.sb.dataStart, ROOT_INODE, ns)
    requires InUseUpto(v, ROOT_INODE + NodeCount(t), v.sb.dataStart + Blocks(t))
    ensures BlocksOk(v)
  {
    hide OnVolume, NodeCount, Blocks, InodeOk, Bitmap.Test, Distinct, ClaimsUpto;
    var used, blocks := ROOT_INODE + NodeCount(t), v.sb.dataStart + Blocks(t);
    var claims := TreeAdds(v, t, ROOT_INODE, v.sb.dataStart, ROOT_INODE, ns, used, blocks);
    IdleClaims(v, used, blocks, v.sb.totalInodes);
    RootClaims(v);
    assert [] + claims == claims;
    assert ClaimsUpto(v, v.sb.totalInodes) == claims;
    forall k | 0 <= k < |claims|
      ensures ClaimOk(v, claims[k])
    {
      assert claims[k] in claims;
    }
  }

  lemma RootClaims(v: Volume)
    requires Wf(v)
    ensures ClaimsUpto(v, ROOT_INODE) == []
  {
  }
}
