/** The passes over bitmaps, inodes and block pointers (tools/fsck_northstar.c,
    validate_bitmap_tails to validate_inodes_and_blocks). */
module FsckBlocks {
  import opened Bytes
  import opened OnDisk
  import opened Inodes
  import opened Volumes
  import opened FsckReport
  import opened FsckContext
  import Bitmap

  // ---------- bitmaps ----------

  predicate AllSet(bitmap: seq<byte>, lo: nat, hi: nat)
    requires hi <= 8 * |bitmap|
  {
    forall bit :: lo <= bit < hi ==> Bitmap.Test(bitmap, bit)
  }

  /** What validate_bitmap_tails demands. */
  predicate TailsOk(v: Volume)
    requires Wf(v)
  {
    && Bitmap.Test(v.inodeBitmap, 0) && Bitmap.Test(v.inodeBitmap, ROOT_INODE)
    && AllSet(v.inodeBitmap, v.sb.totalInodes, 8 * |v.inodeBitmap|)
    && AllSet(v.blockBitmap, v.sb.totalBlocks, 8 * |v.blockBitmap|)
    && AllSet(v.blockBitmap, 0, v.sb.dataStart)
    && v.sb.freeBlocks == v.sb.totalBlocks - Bitmap.Count(v.blockBitmap, v.sb.totalBlocks)
    && v.sb.freeInodes == v.sb.totalInodes - Bitmap.Count(v.inodeBitmap, v.sb.totalInodes)
  }

  /** The owner map when every claim so far was good. */
  ghost predicate Tracks(v: Volume, owner: seq<nat>, claims: seq<nat>)
    requires Wf(v)
  {
    && |owner| == v.sb.totalBlocks && ClaimsGood(v, claims)
    && forall b :: 0 <= b < |owner| ==> (owner[b] != NO_OWNER <==> b < v.sb.dataStart || b in claims)
  }

  /** One tail: an issue at the first clear bit, if any. */
  method CheckTail(report: Report, bitmap: seq<byte>, from: nat)
    requires from <= 8 * |bitmap|
    modifies report
    ensures report.errors >= old(report.errors) && report.fatal == old(report.fatal)
    ensures report.errors == old(report.errors) <==> AllSet(bitmap, from, 8 * |bitmap|)
  {
    hide Bitmap.Test;
    var bit := from;
    while bit < 8 * |bitmap|
      invariant from <= bit <= 8 * |bitmap| && AllSet(bitmap, from, bit)
      invariant report.errors == old(report.errors) && report.fatal == old(report.fatal)
    {
      if !Bitmap.Test(bitmap, bit) {
        report.Error();
        return;
      }
      bit := bit + 1;
    }
  }

  method ClaimMetadata(report: Report, ctx: Context)
    requires Wf(ctx.volume) && ctx.blockOwner == seq(ctx.volume.sb.totalBlocks, _ => NO_OWNER)
    modifies report, ctx`blockOwner
    ensures report.errors >= old(report.errors) && report.fatal == old(report.fatal)
    ensures report.errors == old(report.errors) <==> AllSet(ctx.volume.blockBitmap, 0, ctx.volume.sb.dataStart)
    ensures Tracks(ctx.volume, ctx.blockOwner, [])
  {
    hide Bitmap.Test;
    var v := ctx.volume;
    var bit := 0;
    while bit < v.sb.dataStart
      invariant 0 <= bit <= v.sb.dataStart && |ctx.blockOwner| == v.sb.totalBlocks
      invariant report.errors >= old(report.errors) && report.fatal == old(report.fatal)
      invariant report.errors == old(report.errors) <==> AllSet(v.blockBitmap, 0, bit)
      invariant forall b :: 0 <= b < |ctx.blockOwner| ==>
        ctx.blockOwner[b] == if b < bit then METADATA_OWNER else NO_OWNER
    {
      ctx.blockOwner := ctx.blockOwner[bit := METADATA_OWNER];
      if !Bitmap.Test(v.blockBitmap, bit) {
        report.Error();
      }
      bit := bit + 1;
    }
  }

  /** validate_bitmap_tails. */
  method ValidateBitmapTails(report: Report, ctx: Context)
    requires Wf(ctx.volume) && ctx.blockOwner == seq(ctx.volume.sb.totalBlocks, _ => NO_OWNER)
    modifies report, ctx`blockOwner
    ensures report.errors >= old(report.errors) && report.fatal == old(report.fatal)
    ensures report.errors == old(report.errors) <==> TailsOk(ctx.volume)
    ensures Tracks(ctx.volume, ctx.blockOwner, [])
  {
    hide AllSet, Bitmap.Test, Bitmap.Count, Tracks;
    var v := ctx.volume;
    if !Bitmap.Test(v.inodeBitmap, 0) || !Bitmap.Test(v.inodeBitmap, ROOT_INODE) {
      report.Error();
    }
    CheckTail(report, v.inodeBitmap, v.sb.totalInodes);
    CheckTail(report, v.blockBitmap, v.sb.totalBlocks);
    ClaimMetadata(report, ctx);
    var blocks := Bitmap.CountBits(v.blockBitmap, v.sb.totalBlocks);
    var inodes := Bitmap.CountBits(v.inodeBitmap, v.sb.totalInodes);
    if v.sb.freeBlocks != v.sb.totalBlocks - blocks {
      report.Error();
    }
    if v.sb.freeInodes != v.sb.totalInodes - inodes {
      report.Error();
    }
  }

  // ---------- claims ----------

  /** claim_block: an error for a block outside the data area, marked free or already claimed. */
  method ClaimBlock(report: Report, ctx: Context, block: nat, inode: nat, ghost claims: seq<nat>)
    returns (ok: bool)
    requires Wf(ctx.volume) && |ctx.blockOwner| == ctx.volume.sb.totalBlocks && inode < NO_OWNER
    modifies report, ctx`blockOwner
    ensures report.errors >= old(report.errors) && report.fatal == old(report.fatal)
    ensures |ctx.blockOwner| == ctx.volume.sb.totalBlocks
    ensures report.errors == old(report.errors) ==> ok
    ensures old(Tracks(ctx.volume, ctx.blockOwner, claims)) ==>
      && (report.errors == old(report.errors) <==> ClaimsGood(ctx.volume, claims + [block]))
      && (report.errors == old(report.errors) ==> Tracks(ctx.volume, ctx.blockOwner, claims + [block]))
    ensures ok ==> block < |ctx.volume.image|
  {
    hide Bitmap.Test, ClaimsGood;
    var v := ctx.volume;
    GoodExtend(v, claims, block);
    if block < v.sb.dataStart || block >= v.sb.totalBlocks {
      report.Error();
      return false;
    }
    if !InUse(v, block) {
      report.Error();
    }
    if ctx.blockOwner[block] != NO_OWNER {
      report.Error();
      return false;
    }
    ctx.blockOwner := ctx.blockOwner[block := inode];
    return true;
  }

  lemma GoodExtend(v: Volume, claims: seq<nat>, b: nat)
    requires Wf(v)
    ensures ClaimsGood(v, claims + [b]) <==> ClaimsGood(v, claims) && ClaimOk(v, b) && b !in claims
  {
    hide Bitmap.Test;
    var more := claims + [b];
    assert more[|claims|] == b;
    if ClaimsGood(v, more) {
      forall k | 0 <= k < |claims|
        ensures ClaimOk(v, claims[k]) && claims[k] != b
      {
        assert more[k] == claims[k];
      }
      forall i, j | 0 <= i < j < |claims|
        ensures claims[i] != claims[j]
      {
        assert more[i] == claims[i] && more[j] == claims[j];
      }
      assert ClaimOk(v, more[|claims|]);
    }
  }

  // ---------- one inode ----------

  /** The first k slots are as the inode's size calls for. */
  ghost predicate SlotsGood(v: Volume, i: Inode, claims: seq<nat>, k: nat)
    requires Wf(v) && |i.direct| == DIRECT_BLOCKS && i.size <= MAX_FILE_SIZE && k <= SlotTotal(i)
  {
    SlotBounds(i);
    && (forall j :: SlotCount(i) <= j < k ==> Slot(v, i, j) == 0)
    && ClaimsGood(v, claims + InodeClaims(v, i)[..Used(i, k)])
  }

  /** How many of the first k slots are used. */
  function Used(i: Inode, k: nat): (u: nat)
    ensures u <= k && u <= SlotCount(i)
  {
    if k < SlotCount(i) then k else SlotCount(i)
  }

  lemma SlotsGoodStep(v: Volume, i: Inode, claims: seq<nat>, k: nat)
    requires Wf(v) && |i.direct| == DIRECT_BLOCKS && i.size <= MAX_FILE_SIZE && k < SlotTotal(i)
    ensures SlotTotal(i) <= SLOTS
    ensures var c := InodeClaims(v, i);
      SlotsGood(v, i, claims, k + 1) <==>
      SlotsGood(v, i, claims, k)
      && (if k < SlotCount(i) then ClaimsGood(v, claims + c[..k] + [Slot(v, i, k)]) else Slot(v, i, k) == 0)
    ensures k < SlotCount(i) ==>
      claims + InodeClaims(v, i)[..Used(i, k + 1)] == claims + InodeClaims(v, i)[..Used(i, k)] + [Slot(v, i, k)]
    ensures k >= SlotCount(i) ==> Used(i, k + 1) == Used(i, k)
  {
    hide ClaimsGood, Slot, SlotCount, SlotTotal, InodeClaims;
    SlotBounds(i);
    var c := InodeClaims(v, i);
    if k < SlotCount(i) {
      ClaimIsSlot(v, i, k);
      assert claims + c[..k + 1] == claims + c[..k] + [Slot(v, i, k)];
      GoodExtend(v, claims + c[..k], Slot(v, i, k));
    }
  }

  /** One slot: a used one must hold a good claim, an unused one zero. */
  method CheckSlot(report: Report, ctx: Context, block: nat, number: nat, used: bool, ghost claims: seq<nat>)
    returns (ok: bool)
    requires Wf(ctx.volume) && |ctx.blockOwner| == ctx.volume.sb.totalBlocks && number < NO_OWNER
    modifies report, ctx`blockOwner
    ensures report.errors >= old(report.errors) && report.fatal == old(report.fatal)
    ensures |ctx.blockOwner| == ctx.volume.sb.totalBlocks
    ensures old(Tracks(ctx.volume, ctx.blockOwner, claims)) ==>
      && (report.errors == old(report.errors) <==>
          if used then ClaimsGood(ctx.volume, claims + [block]) else block == 0)
      && (report.errors == old(report.errors) ==>
          Tracks(ctx.volume, ctx.blockOwner, if used then claims + [block] else claims))
    ensures used && ok ==> block < |ctx.volume.image|
    ensures used && report.errors == old(report.errors) ==> ok
  {
    hide Bitmap.Test, Tracks, ClaimsGood;
    GoodExtend(ctx.volume, claims, block);
    ok := true;
    if used {
      if block == 0 {
        report.Error();
        ok := false;
      } else {
        ok := ClaimBlock(report, ctx, block, number, claims);
      }
    } else if block != 0 {
      report.Error();
      var _ := ClaimBlock(report, ctx, block, number, claims);
    }
  }

  lemma {:induction false} SlotsGoodPrefix(v: Volume, i: Inode, claims: seq<nat>, k: nat, m: nat)
    requires Wf(v) && |i.direct| == DIRECT_BLOCKS && i.size <= MAX_FILE_SIZE && k <= m <= SlotTotal(i)
    requires SlotsGood(v, i, claims, m)
    ensures SlotsGood(v, i, claims, k)
    decreases m
  {
    hide SlotsGood, SlotTotal, ClaimsGood;
    if k < m {
      SlotsGoodStep(v, i, claims, m - 1);
      SlotsGoodPrefix(v, i, claims, k, m - 1);
    }
  }

  lemma SlotsGoodWhole(v: Volume, i: Inode, claims: seq<nat>)
    requires Wf(v) && |i.direct| == DIRECT_BLOCKS && i.size <= MAX_FILE_SIZE
    ensures SlotsGood(v, i, claims, SlotTotal(i)) <==> UnusedZero(v, i) && ClaimsGood(v, claims + InodeClaims(v, i))
    ensures Used(i, SlotTotal(i)) == |InodeClaims(v, i)|
  {
    hide ClaimsGood, Slot;
    SlotBounds(i);
    var c := InodeClaims(v, i);
    assert c[..|c|] == c;
  }

  /** The claims when the first k slots have been looked at. */
  ghost function Claimed(v: Volume, i: Inode, claims: seq<nat>, k: nat): seq<nat>
    requires |i.direct| == DIRECT_BLOCKS && i.size <= MAX_FILE_SIZE
  {
    claims + InodeClaims(v, i)[..Used(i, k)]
  }

  /** The slots from lo on, whose values are given; `clean` says the check is clean so far. */
  method CheckSlots(report: Report, ctx: Context, number: nat, lo: nat, values: seq<nat>,
                    ghost claims: seq<nat>, ghost clean: bool)
    requires Wf(ctx.volume) && |ctx.blockOwner| == ctx.volume.sb.totalBlocks && number < |ctx.volume.inodes|
    requires var i := ctx.volume.inodes[number];
      && i.size <= MAX_FILE_SIZE && lo + |values| <= SlotTotal(i) <= SLOTS
      && (forall k :: 0 <= k < |values| ==> values[k] == Slot(ctx.volume, i, lo + k))
      && (clean ==> SlotsGood(ctx.volume, i, claims, lo)
                    && Tracks(ctx.volume, ctx.blockOwner, Claimed(ctx.volume, i, claims, lo)))
    modifies report, ctx`blockOwner
    ensures report.errors >= old(report.errors) && report.fatal == old(report.fatal)
    ensures |ctx.blockOwner| == ctx.volume.sb.totalBlocks
    ensures var i := ctx.volume.inodes[number]; clean ==>
      && (report.errors == old(report.errors) <==> SlotsGood(ctx.volume, i, claims, lo + |values|))
      && (report.errors == old(report.errors) ==>
          Tracks(ctx.volume, ctx.blockOwner, Claimed(ctx.volume, i, claims, lo + |values|)))
  {
    hide SlotsGood, SlotTotal, Slot, Tracks, ClaimsGood, InodeClaims, SlotCount;
    var v, i := ctx.volume, ctx.volume.inodes[number];
    var k := 0;
    while k < |values|
      invariant 0 <= k <= |values| && |ctx.blockOwner| == v.sb.totalBlocks
      invariant report.errors >= old(report.errors) && report.fatal == old(report.fatal)
      invariant clean ==> (report.errors == old(report.errors) <==> SlotsGood(v, i, claims, lo + k))
      invariant clean && report.errors == old(report.errors) ==>
        Tracks(v, ctx.blockOwner, Claimed(v, i, claims, lo + k))
    {
      ghost var errors := report.errors;
      SlotsGoodStep(v, i, claims, lo + k);
      var _ := CheckSlot(report, ctx, values[k], number, lo + k < SlotCount(i), Claimed(v, i, claims, lo + k));
      k := k + 1;
    }
  }

  /** The checks that do not look at block pointers; false when the size is out of range. */
  method CheckInodeHeader(report: Report, i: Inode) returns (sized: bool)
    requires |i.direct| == DIRECT_BLOCKS
    modifies report
    ensures report.errors >= old(report.errors) && report.fatal == old(report.fatal)
    ensures report.errors == old(report.errors) <==> InodeHeaderOk(i)
    ensures sized <==> i.size <= MAX_FILE_SIZE
  {
    hide InodeChecksum, SlotCount;
    if i.checksum != InodeChecksum(i) {
      report.Error();
    }
    if !ValidKind(i.kind) {
      report.Error();
    }
    if i.flags != 0 {
      report.Error();
    }
    if i.mode >= 0x1000 {
      report.Error();
    }
    assert i.size <= MAX_FILE_SIZE ==> DataBlocks(i) <= MAX_FILE_BLOCKS by {
      if i.size <= MAX_FILE_SIZE { SlotBounds(i); }
    }
    if i.size > MAX_FILE_SIZE || DataBlocks(i) > MAX_FILE_BLOCKS {
      report.Error();
      return false;
    }
    if i.allocatedBlocks != SlotCount(i) {
      report.Error();
    }
    if i.linkCount == 0 {
      report.Error();
    }
    return true;
  }

  /** The block pointers of one inode, in slot order. */
  method CheckPointers(report: Report, ctx: Context, number: nat, ghost claims: seq<nat>, ghost clean: bool)
    requires Wf(ctx.volume) && |ctx.blockOwner| == ctx.volume.sb.totalBlocks && number < |ctx.volume.inodes|
    requires ctx.volume.inodes[number].size <= MAX_FILE_SIZE
    requires clean ==> Tracks(ctx.volume, ctx.blockOwner, claims)
    modifies report, ctx`blockOwner
    ensures report.errors >= old(report.errors) && report.fatal == old(report.fatal)
    ensures |ctx.blockOwner| == ctx.volume.sb.totalBlocks
    ensures var v, i := ctx.volume, ctx.volume.inodes[number]; clean ==>
      && (report.errors == old(report.errors) <==> SlotsGood(v, i, claims, SlotTotal(i)))
      && (report.errors == old(report.errors) ==> Tracks(v, ctx.blockOwner, Claimed(v, i, claims, SlotTotal(i))))
  {
    hide SlotsGood, Slot, Tracks, ClaimsGood, InodeClaims, SlotCount, SlotTotal;
    var v, i := ctx.volume, ctx.volume.inodes[number];
    SlotLayout(v, i, claims);
    SlotsNeeded(v, i, claims);
    if clean { TracksGood(v, ctx.blockOwner, claims); }
    CheckSlots(report, ctx, number, 0, i.direct, claims, clean);
    SlotsGoodStep(v, i, claims, DIRECT_BLOCKS);
    var indirect := DataBlocks(i) > DIRECT_BLOCKS;
    var readable := CheckSlot(report, ctx, i.indirect, number, indirect, Claimed(v, i, claims, DIRECT_BLOCKS));
    if !indirect || !readable {
      return;
    }
    CheckSlots(report, ctx, number, DIRECT_BLOCKS + 1, Entries(v.image[i.indirect]), claims,
               clean && report.errors == old(report.errors));
  }

  /** validate_one_inode: with every claim so far good, an error exactly when the inode is not in
      order or one of its claims is not good. */
  method ValidateOneInode(report: Report, ctx: Context, number: nat, ghost claims: seq<nat>)
    requires Wf(ctx.volume) && |ctx.blockOwner| == ctx.volume.sb.totalBlocks && number < |ctx.volume.inodes|
    modifies report, ctx`blockOwner
    ensures report.errors >= old(report.errors) && report.fatal == old(report.fatal)
    ensures |ctx.blockOwner| == ctx.volume.sb.totalBlocks
    ensures var v, i := ctx.volume, ctx.volume.inodes[number];
      old(Tracks(v, ctx.blockOwner, claims)) ==>
      && (report.errors == old(report.errors) <==> InodeOk(v, i) && ClaimsGood(v, claims + InodeClaims(v, i)))
      && (report.errors == old(report.errors) ==> Tracks(v, ctx.blockOwner, claims + InodeClaims(v, i)))
  {
    hide SlotsGood, Slot, Tracks, ClaimsGood, InodeClaims, SlotCount, InodeHeaderOk, UnusedZero, SlotTotal;
    var v, i := ctx.volume, ctx.volume.inodes[number];
    ghost var clean := Tracks(v, ctx.blockOwner, claims);
    var sized := CheckInodeHeader(report, i);
    if !sized {
      HeaderSize(i);
      return;
    }
    SlotsGoodWhole(v, i, claims);
    assert InodeClaims(v, i)[..|InodeClaims(v, i)|] == InodeClaims(v, i);
    CheckPointers(report, ctx, number, claims, clean && report.errors == old(report.errors));
  }

  lemma TracksGood(v: Volume, owner: seq<nat>, claims: seq<nat>)
    requires Wf(v) && Tracks(v, owner, claims)
    ensures ClaimsGood(v, claims)
  {
  }

  /** Slots that are good up to the end are good up to each point where the check may stop. */
  lemma SlotsNeeded(v: Volume, i: Inode, claims: seq<nat>)
    requires Wf(v) && |i.direct| == DIRECT_BLOCKS && i.size <= MAX_FILE_SIZE
    ensures DIRECT_BLOCKS + 1 <= SlotTotal(i)
    ensures SlotsGood(v, i, claims, SlotTotal(i)) ==>
      SlotsGood(v, i, claims, DIRECT_BLOCKS) && SlotsGood(v, i, claims, DIRECT_BLOCKS + 1)
    ensures SlotsGood(v, i, claims, DIRECT_BLOCKS + 1) && DataBlocks(i) > DIRECT_BLOCKS ==> 0 < i.indirect < |v.image|
    ensures i.indirect < |v.image| ==>
      forall k :: 0 <= k < INDIRECT_BLOCKS ==> Entries(v.image[i.indirect])[k] == Slot(v, i, DIRECT_BLOCKS + 1 + k)
  {
    hide ClaimsGood, SlotsGood, Entries;
    if SlotsGood(v, i, claims, SlotTotal(i)) {
      SlotsGoodPrefix(v, i, claims, DIRECT_BLOCKS, SlotTotal(i));
      SlotsGoodPrefix(v, i, claims, DIRECT_BLOCKS + 1, SlotTotal(i));
    }
    SlotsGoodStep(v, i, claims, DIRECT_BLOCKS);
    var c := claims + InodeClaims(v, i)[..Used(i, DIRECT_BLOCKS)];
    GoodExtend(v, c, i.indirect);
  }

  lemma HeaderSize(i: Inode)
    requires |i.direct| == DIRECT_BLOCKS && i.size > MAX_FILE_SIZE
    ensures !InodeHeaderOk(i)
  {
  }

  lemma SlotLayout(v: Volume, i: Inode, claims: seq<nat>)
    requires Wf(v) && |i.direct| == DIRECT_BLOCKS && i.size <= MAX_FILE_SIZE
    ensures SlotTotal(i) <= SLOTS && SlotTotal(i) == if DataBlocks(i) > DIRECT_BLOCKS then SLOTS else DIRECT_BLOCKS + 1
    ensures forall k :: 0 <= k < DIRECT_BLOCKS ==> i.direct[k] == Slot(v, i, 0 + k)
    ensures Slot(v, i, DIRECT_BLOCKS) == i.indirect && (DIRECT_BLOCKS < SlotCount(i) <==> DataBlocks(i) > DIRECT_BLOCKS)
    ensures SlotsGood(v, i, claims, 0) <==> ClaimsGood(v, claims)
    ensures Claimed(v, i, claims, 0) == claims
  {
    hide ClaimsGood;
    SlotBounds(i);
    assert claims + [] == claims;
  }

  /** The pass over the inodes. */
  method ValidateInodes(report: Report, ctx: Context)
    requires Wf(ctx.volume) && Tracks(ctx.volume, ctx.blockOwner, [])
    modifies report, ctx`blockOwner
    ensures report.errors >= old(report.errors) && report.fatal == old(report.fatal)
    ensures |ctx.blockOwner| == ctx.volume.sb.totalBlocks
    ensures var v := ctx.volume; var claims := ClaimsUpto(v, v.sb.totalInodes);
      && (report.errors == old(report.errors) <==> InodesOk(v, v.sb.totalInodes) && ClaimsGood(v, claims))
      && (report.errors == old(report.errors) ==> Tracks(v, ctx.blockOwner, claims))
  {
    hide Bitmap.Test, Tracks, ClaimsGood, InodeClaims, InodeOk, EncodeInode;
    var v := ctx.volume;
    TracksLength(v, ctx.blockOwner, []);
    if !AllZero(EncodeInode(v.inodes[0])) {
      report.Warning();
    }
    var n := 1;
    while n < v.sb.totalInodes
      invariant 1 <= n <= v.sb.totalInodes && |ctx.blockOwner| == v.sb.totalBlocks
      invariant report.errors >= old(report.errors) && report.fatal == old(report.fatal)
      invariant report.errors == old(report.errors) <==> InodesOk(v, n) && ClaimsGood(v, ClaimsUpto(v, n))
      invariant report.errors == old(report.errors) ==> Tracks(v, ctx.blockOwner, ClaimsUpto(v, n))
    {
      ClaimsGoodStep(v, n);
      if Allocated(v, n) {
        ValidateOneInode(report, ctx, n, ClaimsUpto(v, n));
      } else if !AllZero(EncodeInode(v.inodes[n])) {
        report.Warning();
      }
      n := n + 1;
    }
  }

  lemma TracksLength(v: Volume, owner: seq<nat>, claims: seq<nat>)
    requires Wf(v) && Tracks(v, owner, claims)
    ensures |owner| == v.sb.totalBlocks && ClaimsGood(v, claims)
  {
  }

  lemma ClaimsGoodStep(v: Volume, n: nat)
    requires Wf(v) && 1 <= n < v.sb.totalInodes
    ensures InodesOk(v, n + 1) <==> InodesOk(v, n) && (Allocated(v, n) ==> InodeOk(v, v.inodes[n]))
    ensures ClaimsUpto(v, n + 1) == if Allocated(v, n)
      then ClaimsUpto(v, n) + InodeClaims(v, v.inodes[n]) else ClaimsUpto(v, n)
    ensures ClaimsGood(v, ClaimsUpto(v, n + 1)) ==> ClaimsGood(v, ClaimsUpto(v, n))
  {
    hide Bitmap.Test, InodeOk, ClaimOk;
    var less, more := ClaimsUpto(v, n), ClaimsUpto(v, n + 1);
    assert forall k :: 0 <= k < |less| ==> less[k] == more[k];
  }

  /** validate_inodes_and_blocks. */
  method ValidateInodesAndBlocks(report: Report, ctx: Context)
    requires Wf(ctx.volume) && Tracks(ctx.volume, ctx.blockOwner, [])
    modifies report, ctx`blockOwner
    ensures report.errors >= old(report.errors) && report.fatal == old(report.fatal)
    ensures report.errors == old(report.errors) <==> BlocksOk(ctx.volume)
  {
    hide Bitmap.Test, ClaimsGood, ClaimsUpto, InodesOk, Tracks;
    var v := ctx.volume;
    ghost var claims := ClaimsUpto(v, v.sb.totalInodes);
    ValidateInodes(report, ctx);
    ghost var clean := report.errors == old(report.errors);
    var owner := ctx.blockOwner;
    var block := v.sb.dataStart;
    while block < v.sb.totalBlocks
      invariant v.sb.dataStart <= block <= v.sb.totalBlocks
      invariant report.errors >= old(report.errors) && report.fatal == old(report.fatal)
      invariant !clean ==> report.errors > old(report.errors)
      invariant clean ==> (report.errors == old(report.errors) <==>
                           forall b :: v.sb.dataStart <= b < block && InUse(v, b) ==> b in claims)
    {
      var referenced := owner[block] != NO_OWNER;
      if clean { OwnerIsClaim(v, owner, claims, block); }
      if InUse(v, block) && !referenced {
        report.Error();
      } else if !InUse(v, block) && referenced {
        report.Error();
      }
      block := block + 1;
    }
  }

  lemma OwnerIsClaim(v: Volume, owner: seq<nat>, claims: seq<nat>, b: nat)
    requires Wf(v) && Tracks(v, owner, claims) && InDataArea(v, b)
    ensures |owner| == v.sb.totalBlocks && (owner[b] != NO_OWNER <==> b in claims)
    ensures b in claims ==> InUse(v, b)
  {
    hide Bitmap.Test;
    if b in claims {
      var k :| 0 <= k < |claims| && claims[k] == b;
      assert ClaimOk(v, claims[k]);
    }
  }
}
