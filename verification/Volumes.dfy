/** A volume as fsck has loaded it (tools/fsck_northstar.c, load_metadata), and what it must be
    like: the block pointers of its inodes, and who owns which block. */
module Volumes {
  import opened Sequences
  import opened Bytes
  import opened OnDisk
  import opened Inodes
  import opened Superblocks
  import Bitmap

  datatype Volume = Volume(sb: Superblock, inodeBitmap: seq<byte>, blockBitmap: seq<byte>,
                           inodes: seq<Inode>, image: seq<Block>)

  /** What a valid layout gives: bitmaps and table cover the counts, and the data area is inside
      the image. */
  predicate Wf(v: Volume)
  {
    && 2 <= v.sb.totalInodes == |v.inodes| <= UINT32_MAX && v.sb.totalInodes <= 8 * |v.inodeBitmap|
    && v.sb.totalBlocks <= 8 * |v.blockBitmap| && v.sb.totalBlocks <= |v.image| && v.sb.totalBlocks <= UINT32_MAX
    && 0 < v.sb.dataStart < v.sb.totalBlocks
    && forall n :: 0 <= n < |v.inodes| ==> |v.inodes[n].direct| == DIRECT_BLOCKS
  }

  predicate Allocated(v: Volume, n: nat)
    requires Wf(v) && n < v.sb.totalInodes
  {
    Bitmap.Test(v.inodeBitmap, n)
  }

  predicate InUse(v: Volume, b: nat)
    requires Wf(v) && b < v.sb.totalBlocks
  {
    Bitmap.Test(v.blockBitmap, b)
  }

  predicate InDataArea(v: Volume, b: nat)
  {
    v.sb.dataStart <= b < v.sb.totalBlocks
  }

  // ---------- block pointers ----------

  const SLOTS: nat := 1037   // twelve direct slots, the indirect slot, the entries of an indirect block

  function DataBlocks(i: Inode): nat
  {
    CeilDiv(i.size, BLOCK_SIZE)
  }

  /** How many slots an inode of this size uses; allocated_blocks counts them. */
  function SlotCount(i: Inode): nat
  {
    DataBlocks(i) + if DataBlocks(i) > DIRECT_BLOCKS then 1 else 0
  }

  /** How many slots it has: the indirect block counts only when the size calls for one. */
  function SlotTotal(i: Inode): nat
  {
    if DataBlocks(i) > DIRECT_BLOCKS then SLOTS else DIRECT_BLOCKS + 1
  }

  function IndirectEntries(v: Volume, i: Inode): (e: seq<nat>)
    ensures |e| == INDIRECT_BLOCKS
  {
    if i.indirect < |v.image| then Entries(v.image[i.indirect]) else Repeat(0, INDIRECT_BLOCKS)
  }

  /** The block number in slot k. */
  function Slot(v: Volume, i: Inode, k: nat): nat
    requires |i.direct| == DIRECT_BLOCKS && k < SLOTS
  {
    if k < DIRECT_BLOCKS then i.direct[k]
    else if k == DIRECT_BLOCKS then i.indirect
    else IndirectEntries(v, i)[k - DIRECT_BLOCKS - 1]
  }

  lemma SlotBounds(i: Inode)
    requires i.size <= MAX_FILE_SIZE
    ensures DataBlocks(i) <= MAX_FILE_BLOCKS && SlotCount(i) <= SlotTotal(i) <= SLOTS
  {
  }

  /** The blocks an inode claims: its used slots, in order. */
  function InodeClaims(v: Volume, i: Inode): (c: seq<nat>)
    requires |i.direct| == DIRECT_BLOCKS
    ensures i.size <= MAX_FILE_SIZE ==> |c| == SlotCount(i)
  {
    if i.size > MAX_FILE_SIZE then []
    else
      SlotBounds(i);
      seq(SlotCount(i), k requires 0 <= k < SlotCount(i) => Slot(v, i, k))
  }

  predicate ValidKind(kind: nat)
  {
    kind == INODE_REGULAR || kind == INODE_DIRECTORY || kind == INODE_SYMLINK
  }

  predicate InodeHeaderOk(i: Inode)
    requires |i.direct| == DIRECT_BLOCKS
  {
    && i.checksum == InodeChecksum(i)
    && ValidKind(i.kind) && i.flags == 0 && i.mode < 0x1000
    && i.size <= MAX_FILE_SIZE && i.allocatedBlocks == SlotCount(i)
    && i.linkCount != 0
  }

  /** A slot the size does not call for is zero. */
  predicate UnusedZero(v: Volume, i: Inode)
    requires |i.direct| == DIRECT_BLOCKS
  {
    forall k :: SlotCount(i) <= k < SlotTotal(i) ==> Slot(v, i, k) == 0
  }

  predicate InodeOk(v: Volume, i: Inode)
    requires |i.direct| == DIRECT_BLOCKS
  {
    InodeHeaderOk(i) && UnusedZero(v, i)
  }

  predicate InodesOk(v: Volume, n: nat)
    requires Wf(v) && n <= v.sb.totalInodes
  {
    forall m :: 1 <= m < n && Allocated(v, m) ==> InodeOk(v, v.inodes[m])
  }

  /** The claims of the allocated inodes below n, in order. */
  function ClaimsUpto(v: Volume, n: nat): (c: seq<nat>)
    requires Wf(v) && n <= v.sb.totalInodes
  {
    if n <= 1 then []
    else ClaimsUpto(v, n - 1) + if Allocated(v, n - 1) then InodeClaims(v, v.inodes[n - 1]) else []
  }

  predicate ClaimOk(v: Volume, b: nat)
    requires Wf(v)
  {
    InDataArea(v, b) && InUse(v, b)
  }

  predicate ClaimsGood(v: Volume, claims: seq<nat>)
    requires Wf(v)
  {
    (forall k :: 0 <= k < |claims| ==> ClaimOk(v, claims[k])) && Distinct(claims)
  }

  /** No block of the data area is in use without an owner. */
  ghost predicate NoLeak(v: Volume, claims: seq<nat>)
    requires Wf(v)
  {
    forall b :: InDataArea(v, b) && InUse(v, b) ==> b in claims
  }

  /** What validate_inodes_and_blocks demands. */
  ghost predicate BlocksOk(v: Volume)
    requires Wf(v)
  {
    var claims := ClaimsUpto(v, v.sb.totalInodes);
    InodesOk(v, v.sb.totalInodes) && ClaimsGood(v, claims) && NoLeak(v, claims)
  }

  // ---------- exact ownership ----------

  /** Slot k of allocated inode n names block b. */
  predicate Names(v: Volume, n: nat, k: nat, b: nat)
    requires Wf(v)
  {
    && 1 <= n < v.sb.totalInodes && Allocated(v, n)
    && k < SlotTotal(v.inodes[n]) && Slot(v, v.inodes[n], k) == b
  }

  predicate SameSlot(n: nat, k: nat, n': nat, k': nat)
  {
    n == n' && k == k'
  }

  /** A data block is in use exactly when a slot of an allocated inode names it, and then only
      one does. */
  ghost predicate OwnershipExact(v: Volume)
    requires Wf(v)
  {
    && (forall b :: InDataArea(v, b) ==> (InUse(v, b) <==> exists n, k :: Names(v, n, k, b)))
    && (forall b, n, k, n', k' ::
          InDataArea(v, b) && Names(v, n, k, b) && Names(v, n', k', b) ==> SameSlot(n, k, n', k'))
  }

  lemma {:induction false} ClaimPrefix(v: Volume, n: nat, m: nat)
    requires Wf(v) && n <= m <= v.sb.totalInodes
    ensures ClaimsUpto(v, n) <= ClaimsUpto(v, m)
    decreases m
  {
    if n < m {
      ClaimPrefix(v, n, m - 1);
    }
  }

  /** Where in the claims slot k of inode n is. */
  lemma ClaimPosition(v: Volume, n: nat, k: nat)
    requires Wf(v) && 1 <= n < v.sb.totalInodes && Allocated(v, n)
    requires v.inodes[n].size <= MAX_FILE_SIZE && k < SlotCount(v.inodes[n])
    ensures SlotCount(v.inodes[n]) <= SLOTS
    ensures var claims, at := ClaimsUpto(v, v.sb.totalInodes), |ClaimsUpto(v, n)| + k;
      at < |ClaimsUpto(v, n + 1)| <= |claims| && claims[at] == Slot(v, v.inodes[n], k)
  {
    hide Slot, SlotCount, InodeClaims, Bitmap.Test;
    ClaimIsSlot(v, v.inodes[n], k);
    ClaimPrefix(v, n + 1, v.sb.totalInodes);
    assert ClaimsUpto(v, n + 1) == ClaimsUpto(v, n) + InodeClaims(v, v.inodes[n]);
  }

  lemma ClaimIsSlot(v: Volume, i: Inode, k: nat)
    requires |i.direct| == DIRECT_BLOCKS && k < |InodeClaims(v, i)|
    ensures k < SlotCount(i) <= SlotTotal(i) <= SLOTS && InodeClaims(v, i)[k] == Slot(v, i, k)
  {
    SlotBounds(i);
  }

  lemma {:induction false} ClaimOwner(v: Volume, n: nat, at: nat) returns (m: nat, k: nat)
    requires Wf(v) && n <= v.sb.totalInodes && at < |ClaimsUpto(v, n)|
    ensures 1 <= m < n && Allocated(v, m) && k < SlotTotal(v.inodes[m]) <= SLOTS
    ensures Slot(v, v.inodes[m], k) == ClaimsUpto(v, n)[at]
    decreases n
  {
    hide Slot, SlotCount, SlotTotal, InodeClaims, Bitmap.Test;
    if at < |ClaimsUpto(v, n - 1)| {
      m, k := ClaimOwner(v, n - 1, at);
    } else {
      m, k := n - 1, at - |ClaimsUpto(v, n - 1)|;
      ClaimIsSlot(v, v.inodes[m], k);
    }
  }

  /** Slots of different inodes, or different slots of one, are different claims. */
  lemma ClaimOrder(v: Volume, n: nat, k: nat, n': nat, k': nat)
    requires Wf(v) && 1 <= n < v.sb.totalInodes && Allocated(v, n)
    requires 1 <= n' < v.sb.totalInodes && Allocated(v, n') && !SameSlot(n, k, n', k')
    requires v.inodes[n].size <= MAX_FILE_SIZE && k < SlotCount(v.inodes[n])
    requires v.inodes[n'].size <= MAX_FILE_SIZE && k' < SlotCount(v.inodes[n'])
    ensures |ClaimsUpto(v, n)| + k != |ClaimsUpto(v, n')| + k'
  {
    hide ClaimsUpto;
    ClaimPosition(v, n, k);
    ClaimPosition(v, n', k');
    if n < n' { ClaimPrefix(v, n + 1, n'); }
    if n' < n { ClaimPrefix(v, n' + 1, n); }
  }

  /** The demands of validate_inodes_and_blocks make ownership exact. */
  lemma BlocksOkExact(v: Volume)
    requires Wf(v) && BlocksOk(v)
    ensures OwnershipExact(v)
  {
    hide ClaimsUpto, Slot;
    var claims := ClaimsUpto(v, v.sb.totalInodes);
    forall b | InDataArea(v, b)
      ensures InUse(v, b) <==> exists n, k :: Names(v, n, k, b)
    {
      if InUse(v, b) {
        var at :| 0 <= at < |claims| && claims[at] == b;
        var m, k := ClaimOwner(v, v.sb.totalInodes, at);
        assert Names(v, m, k, b);
      }
      forall n, k | Names(v, n, k, b)
        ensures InUse(v, b)
      {
        NamedClaimed(v, n, k, b);
      }
    }
    forall b, n, k, n', k' | InDataArea(v, b) && Names(v, n, k, b) && Names(v, n', k', b)
      ensures SameSlot(n, k, n', k')
    {
      NamedClaimed(v, n, k, b);
      NamedClaimed(v, n', k', b);
      if !SameSlot(n, k, n', k') {
        ClaimOrder(v, n, k, n', k');
      }
    }
  }

  lemma UsedSlot(v: Volume, i: Inode, k: nat)
    requires |i.direct| == DIRECT_BLOCKS && k < SlotTotal(i) && UnusedZero(v, i) && Slot(v, i, k) != 0
    ensures k < SlotCount(i)
  {
  }

  lemma NamedClaimed(v: Volume, n: nat, k: nat, b: nat)
    requires Wf(v) && BlocksOk(v) && InDataArea(v, b) && Names(v, n, k, b)
    ensures v.inodes[n].size <= MAX_FILE_SIZE && k < SlotCount(v.inodes[n])
    ensures var claims, at := ClaimsUpto(v, v.sb.totalInodes), |ClaimsUpto(v, n)| + k;
      at < |claims| && claims[at] == b && InUse(v, b)
  {
    hide ClaimsUpto;
    assert InodeOk(v, v.inodes[n]);
    UsedSlot(v, v.inodes[n], k);
    ClaimPosition(v, n, k);
    assert ClaimOk(v, ClaimsUpto(v, v.sb.totalInodes)[|ClaimsUpto(v, n)| + k]);
  }

  /** The blocks an allocated inode has are blocks of the data area that are in use. */
  ghost predicate PointersInside(v: Volume)
    requires Wf(v)
  {
    forall n, k :: 1 <= n < v.sb.totalInodes && Allocated(v, n) && 0 <= k < v.inodes[n].allocatedBlocks ==>
      k < SLOTS && InDataArea(v, Slot(v, v.inodes[n], k)) && InUse(v, Slot(v, v.inodes[n], k))
  }

  lemma BlocksOkInside(v: Volume)
    requires Wf(v) && BlocksOk(v)
    ensures PointersInside(v)
  {
    hide ClaimsUpto, Slot, SlotCount, Bitmap.Test, UnusedZero;
    forall n, k | 1 <= n < v.sb.totalInodes && Allocated(v, n) && 0 <= k < v.inodes[n].allocatedBlocks
      ensures k < SLOTS && InDataArea(v, Slot(v, v.inodes[n], k)) && InUse(v, Slot(v, v.inodes[n], k))
    {
      assert InodeOk(v, v.inodes[n]);
      ClaimPosition(v, n, k);
      assert ClaimOk(v, ClaimsUpto(v, v.sb.totalInodes)[|ClaimsUpto(v, n)| + k]);
    }
  }
}
