/** The physical page allocator (kernel/mm/pmm.c): two bitmaps over the page frames, a rotating
    hint, and a search for aligned runs that skips ahead. */
module Pmm {
  import opened HeapLayout
  import Bitmap

  const UINT64_MAX: nat := 0xFFFF_FFFF_FFFF_FFFF
  const MAX_ALIGNMENT: nat := 0x8000_0000_0000_0000
  const MAX_FRAMES: nat := 0xF_FFFF_FFFF_FFFF   // whole pages below 2^64 - 1

  const INVALID_PHYS: nat := UINT64_MAX

  const OK: int := 0
  const EINVAL: int := -1
  const ECORRUPT: int := -2
  const ENOSPC: int := -3
  const ERANGE: int := -4
  const EPERM: int := -5
  const EDOUBLEFREE: int := -6

  // ---------- runs ----------

  /** align_frame: the next multiple, or the largest number when that overflows 64 bits. */
  function AlignFrame(frame: nat, alignment: nat): nat
    requires alignment > 0
  {
    if frame + (alignment - 1) > UINT64_MAX then UINT64_MAX
    else (frame + alignment - 1) / alignment * alignment
  }

  /** `count` clear frames from an aligned frame on, inside [begin, end). */
  predicate IsRun(taken: seq<bool>, begin: nat, end: nat, count: nat, alignment: nat, frame: nat)
    requires alignment > 0 && end <= |taken|
  {
    && begin <= frame && frame + count <= end && frame % alignment == 0
    && forall f :: frame <= f < frame + count ==> !taken[f]
  }

  ghost predicate NoRun(taken: seq<bool>, begin: nat, end: nat, count: nat, alignment: nat)
    requires alignment > 0 && end <= |taken|
  {
    forall frame: nat :: !IsRun(taken, begin, end, count, alignment, frame)
  }

  /** Nothing that starts in [from, to) is a run. */
  ghost predicate NoRunIn(taken: seq<bool>, begin: nat, end: nat, count: nat, alignment: nat, from: nat, to: nat)
    requires alignment > 0 && end <= |taken|
  {
    forall frame: nat :: from <= frame < to ==> !IsRun(taken, begin, end, count, alignment, frame)
  }

  /** The frame is the lowest run. */
  ghost predicate Lowest(taken: seq<bool>, begin: nat, end: nat, count: nat, alignment: nat, frame: nat)
    requires alignment > 0 && end <= |taken|
  {
    IsRun(taken, begin, end, count, alignment, frame) && NoRunIn(taken, begin, end, count, alignment, begin, frame)
  }

  lemma NoMultipleBetween(frame: nat, alignment: nat, x: nat)
    requires alignment > 0 && frame <= x < (frame + alignment - 1) / alignment * alignment
    ensures x % alignment != 0
  {
    var q := (frame + alignment - 1) / alignment;
    assert frame + alignment - 1 == q * alignment + (frame + alignment - 1) % alignment;
    assert q * alignment - alignment < frame;
    if x % alignment == 0 {
      var p := x / alignment;
      assert x == p * alignment && (q - 1) * alignment == q * alignment - alignment;
      if p >= q { MulMonotone(q, p, alignment); } else { MulMonotone(p, q - 1, alignment); }
    }
  }

  lemma MulMonotone(a: int, b: int, c: nat)
    requires a <= b
    ensures a * c <= b * c
  {
  }

  /** Moving on to the next aligned frame passes over no run. */
  lemma AlignSkips(taken: seq<bool>, begin: nat, end: nat, count: nat, alignment: nat, frame: nat)
    requires 0 < alignment <= MAX_ALIGNMENT && end <= |taken| <= MAX_FRAMES && frame <= MAX_FRAMES + 1
    ensures frame <= AlignFrame(frame, alignment)
    ensures AlignFrame(frame, alignment) % alignment == 0
    ensures NoRunIn(taken, begin, end, count, alignment, frame, AlignFrame(frame, alignment))
  {
    var next := AlignFrame(frame, alignment);
    assert next == (frame + alignment - 1) / alignment * alignment;
    RoundedUp(frame, alignment);
    forall x: nat | frame <= x < next
      ensures !IsRun(taken, begin, end, count, alignment, x)
    {
      NoMultipleBetween(frame, alignment, x);
    }
  }

  lemma RoundedUp(frame: nat, alignment: nat)
    requires alignment > 0
    ensures var r := (frame + alignment - 1) / alignment * alignment; frame <= r && r % alignment == 0
  {
    var q := (frame + alignment - 1) / alignment;
    assert frame + alignment - 1 == q * alignment + (frame + alignment - 1) % alignment;
    MultipleOf(q, alignment);
  }

  lemma MultipleOf(q: nat, alignment: nat)
    requires alignment > 0
    ensures q * alignment % alignment == 0
  {
    var x := q * alignment;
    var p, r := x / alignment, x % alignment;
    assert x == p * alignment + r;
    if p < q { MulMonotone(p + 1, q, alignment); }
    if p > q { MulMonotone(q + 1, p, alignment); }
    assert (p + 1) * alignment == p * alignment + alignment;
    assert (q + 1) * alignment == q * alignment + alignment;
  }

  /** span_is_free. */
  method SpanIsFree(taken: seq<bool>, first: nat, count: nat, limit: nat) returns (free: bool)
    requires limit <= |taken|
    ensures free <==> first + count <= limit && forall f :: first <= f < first + count ==> !taken[f]
  {
    if first > limit || count > limit - first {
      return false;
    }
    var i := 0;
    while i < count
      invariant 0 <= i <= count && forall f :: first <= f < first + i ==> !taken[f]
    {
      if taken[first + i] {
        return false;
      }
      i := i + 1;
    }
    return true;
  }

  /** How far past the candidate its first occupied frame lies, plus one. */
  method FirstOccupied(taken: seq<bool>, frame: nat, count: nat) returns (skip: nat)
    requires frame + count <= |taken| && exists f :: frame <= f < frame + count && taken[f]
    ensures 1 <= skip <= count && taken[frame + skip - 1]
  {
    skip := 1;
    var i := 0;
    while i < count
      invariant 0 <= i <= count && forall f :: frame <= f < frame + i ==> !taken[f]
    {
      if taken[frame + i] {
        return i + 1;
      }
      i := i + 1;
    }
  }

  /** find_run: the lowest aligned run in [begin, end), if there is one. */
  method FindRun(taken: seq<bool>, begin: nat, end: nat, count: nat, alignment: nat) returns (found: bool, frame: nat)
    requires 0 < alignment <= MAX_ALIGNMENT && 0 < count && begin <= |taken| && end <= |taken| <= MAX_FRAMES
    ensures found ==> Lowest(taken, begin, end, count, alignment, frame)
    ensures found <==> !NoRun(taken, begin, end, count, alignment)
  {
    hide AlignFrame;
    AlignSkips(taken, begin, end, count, alignment, begin);
    frame := AlignFrame(begin, alignment);
    while frame < end && count <= end - frame
      invariant begin <= frame && frame % alignment == 0
      invariant NoRunIn(taken, begin, end, count, alignment, begin, frame)
      decreases end - frame
    {
      var free := SpanIsFree(taken, frame, count, end);
      if free {
        assert IsRun(taken, begin, end, count, alignment, frame);
        return true, frame;
      }
      var skip := FirstOccupied(taken, frame, count);
      SkipPasses(taken, begin, end, count, alignment, frame, skip);
      AlignSkips(taken, begin, end, count, alignment, frame + skip);
      frame := AlignFrame(frame + skip, alignment);
    }
    return false, frame;
  }

  /** A run that starts at the candidate or before its occupied frame would hold that frame. */
  lemma SkipPasses(taken: seq<bool>, begin: nat, end: nat, count: nat, alignment: nat, frame: nat, skip: nat)
    requires alignment > 0 && end <= |taken| && frame + count <= end
    requires 1 <= skip <= count && taken[frame + skip - 1]
    ensures NoRunIn(taken, begin, end, count, alignment, frame, frame + skip)
  {
    forall x: nat | frame <= x < frame + skip
      ensures !IsRun(taken, begin, end, count, alignment, x)
    {
      assert x <= frame + skip - 1 < x + count;
    }
  }

  // ---------- counting ----------

  /** The number of clear frames. */
  function FreeCount(taken: seq<bool>): (n: nat)
    ensures n <= |taken|
  {
    if taken == [] then 0 else FreeCount(taken[..|taken| - 1]) + if taken[|taken| - 1] then 0 else 1
  }

  lemma {:induction false} FreeCountSet(taken: seq<bool>, f: nat, value: bool)
    requires f < |taken|
    ensures FreeCount(taken[f := value]) == FreeCount(taken) + (if taken[f] then 1 else 0) - (if value then 1 else 0)
  {
    var n := |taken| - 1;
    if f == n {
      assert taken[f := value][..n] == taken[..n];
    } else {
      assert taken[f := value][..n] == taken[..n][f := value];
      FreeCountSet(taken[..n], f, value);
    }
  }

  /** Clear frames in a run are counted. */
  lemma {:induction false} FreeCountRun(taken: seq<bool>, first: nat, count: nat)
    requires first + count <= |taken| && forall f :: first <= f < first + count ==> !taken[f]
    ensures count <= FreeCount(taken)
    decreases |taken|
  {
    var n := |taken| - 1;
    if first + count <= n {
      FreeCountRun(taken[..n], first, count);
    } else if count > 0 {
      FreeCountRun(taken[..n], first, count - 1);
    }
  }

  /** The bits with [first, last) set, or cleared. */
  function Filled(taken: seq<bool>, first: nat, last: nat, value: bool): (r: seq<bool>)
    requires first <= last <= |taken|
    ensures |r| == |taken|
  {
    seq(|taken|, f requires 0 <= f < |taken| => if first <= f < last then value else taken[f])
  }

  lemma FilledStep(taken: seq<bool>, first: nat, last: nat, value: bool)
    requires first <= last < |taken|
    ensures Filled(taken, first, last + 1, value) == Filled(taken, first, last, value)[last := value]
  {
  }

  /** Changing a run of equal bits changes the count by its length. */
  lemma {:induction false} FilledCount(taken: seq<bool>, first: nat, last: nat, value: bool)
    requires first <= last <= |taken| && forall f :: first <= f < last ==> taken[f] == !value
    ensures FreeCount(Filled(taken, first, last, value))
         == FreeCount(taken) + (if value then first - last else last - first)
    decreases last - first
  {
    if first == last {
      assert Filled(taken, first, last, value) == taken;
    } else {
      FilledCount(taken, first, last - 1, value);
      FilledStep(taken, first, last - 1, value);
      FreeCountSet(Filled(taken, first, last - 1, value), last - 1, value);
    }
  }

  // ---------- the allocator ----------

  predicate InRun(f: nat, first: nat, count: nat)
  {
    first <= f < first + count
  }

  function Frames(first: nat, count: nat): set<nat>
  {
    set f: nat | first <= f < first + count && InRun(f, first, count)
  }

  lemma {:induction false} PowerBound(v: nat, n: nat)
    requires IsPowerOfTwo(v) && v < 2 * Bitmap.Pow2(n)
    ensures v <= Bitmap.Pow2(n)
    decreases n
  {
    if n > 0 && v > 1 { PowerBound(v / 2, n - 1); }
  }

  lemma {:induction false} PowersMultiply(m: nat, n: nat)
    ensures Bitmap.Pow2(m + n) == Bitmap.Pow2(m) * Bitmap.Pow2(n)
    decreases n
  {
    if n > 0 {
      PowersMultiply(m, n - 1);
      assert Bitmap.Pow2(m) * (2 * Bitmap.Pow2(n - 1)) == 2 * (Bitmap.Pow2(m) * Bitmap.Pow2(n - 1));
    }
  }

  lemma SixtyFour(n: nat)
    requires n == 8
    ensures Bitmap.Pow2(8 * n) == UINT64_MAX + 1
  {
    hide Bitmap.Pow2;
    Bitmap.PowerOfEight(n);
    PowersMultiply(n, n);
    var m := n + n;
    PowersMultiply(m, m);
    var k := m + m;
    PowersMultiply(k, k);
  }

  lemma PowerStep(n: nat)
    ensures Bitmap.Pow2(n + 1) == 2 * Bitmap.Pow2(n)
  {
  }

  /** A power of two of 64 bits is at most 2^63. */
  lemma AlignmentBound(alignment: nat)
    requires IsPowerOfTwo(alignment) && alignment <= UINT64_MAX
    ensures alignment <= MAX_ALIGNMENT
  {
    hide Bitmap.Pow2, IsPowerOfTwo;
    SixtyFour(8);
    PowerStep(63);
    PowerBound(alignment, 63);
  }

  lemma PhysOf(frame: nat)
    ensures frame * PAGE_SIZE / PAGE_SIZE == frame && frame * PAGE_SIZE % PAGE_SIZE == 0
  {
  }

  lemma BelowLimit(frame: nat, count: nat, maxPhys: nat, limit: nat)
    requires frame + count <= limit && limit <= maxPhys / PAGE_SIZE
    ensures frame * PAGE_SIZE + count * PAGE_SIZE <= maxPhys
  {
    assert (frame + count) * PAGE_SIZE <= limit * PAGE_SIZE <= maxPhys / PAGE_SIZE * PAGE_SIZE;
  }

  class FrameAllocator {
    var taken: array<bool>       // allocated_bitmap
    var reserved: array<bool>    // reserved_bitmap
    var frameCount: nat
    var usableFrames: nat
    var freeFrames: nat
    var nextHint: nat
    var managedLimit: nat
    var initialized: bool
    ghost var live: set<nat>     // frames handed out and not returned

    /** An allocator that was never set up. */
    constructor ()
      ensures !initialized
    {
      taken := new bool[0];
      reserved := new bool[0];
      frameCount, usableFrames, freeFrames, nextHint, managedLimit, initialized := 0, 0, 0, 0, 0, false;
      live := {};
    }

    /** The bitmaps and counters fit together: a frame is taken exactly when it is reserved or
        handed out, and the clear ones are counted. */
    ghost predicate Valid()
      reads this, taken, reserved
    {
      && taken != reserved && taken.Length == reserved.Length == frameCount <= MAX_FRAMES
      && managedLimit == frameCount * PAGE_SIZE
      && freeFrames == FreeCount(taken[..])
      && (nextHint < frameCount || nextHint == 0)
      && (forall f :: 0 <= f < frameCount ==> (taken[f] <==> reserved[f] || f in live))
      && (forall f :: f in live ==> f < frameCount)
    }

    /** The frames a request may use: those below the limit it names. */
    function LimitFor(maxPhys: nat): nat
      reads this
    {
      if maxPhys != 0 && maxPhys / PAGE_SIZE < frameCount then maxPhys / PAGE_SIZE else frameCount
    }

    function HintFor(limit: nat): nat
      reads this
    {
      if nextHint < limit then nextHint else 0
    }

    /** Neither at and above the hint nor below it is there a run; one that straddles the hint does
        not count. */
    ghost predicate Exhausted(count: nat, alignment: nat, limit: nat)
      requires alignment > 0 && limit <= taken.Length
      reads this, taken
    {
      NoRun(taken[..], HintFor(limit), limit, count, alignment) && NoRun(taken[..], 0, HintFor(limit), count, alignment)
    }

    /** The frame is the lowest run at or above the hint, or with none there the lowest below it. */
    ghost predicate Picks(count: nat, alignment: nat, limit: nat, frame: nat)
      requires alignment > 0 && limit <= taken.Length
      reads this, taken
    {
      var hint := HintFor(limit);
      || Lowest(taken[..], hint, limit, count, alignment, frame)
      || (NoRun(taken[..], hint, limit, count, alignment) && Lowest(taken[..], 0, hint, count, alignment, frame))
    }

    /** Sets the bits of a run. */
    method Take(first: nat, count: nat)
      requires first + count <= taken.Length
      modifies taken
      ensures taken[..] == Filled(old(taken[..]), first, first + count, true)
    {
      var i := 0;
      while i < count
        invariant 0 <= i <= count && taken[..] == Filled(old(taken[..]), first, first + i, true)
      {
        FilledStep(old(taken[..]), first, first + i, true);
        taken[first + i] := true;
        i := i + 1;
      }
    }

    /** Hands out a run that was found. */
    method TakeRun(first: nat, count: nat)
      requires Valid() && first + count <= frameCount && forall f :: first <= f < first + count ==> !taken[f]
      modifies this`freeFrames, this`nextHint, this`live, taken
      ensures Valid() && taken == old(taken) && nextHint == if first + count >= frameCount then 0 else first + count
      ensures live == old(live) + Frames(first, count) && old(live) !! Frames(first, count)
      ensures forall f :: f in Frames(first, count) ==> !reserved[f] && !old(taken[f])
    {
      hide FreeCount;
      FilledCount(taken[..], first, first + count, true);
      Take(first, count);
      freeFrames := freeFrames - count;
      nextHint := first + count;
      if nextHint >= frameCount {
        nextHint := 0;
      }
      live := live + Frames(first, count);
      forall f | 0 <= f < frameCount
        ensures taken[f] <==> reserved[f] || f in live
      {
        assert taken[f] == taken[..][f];
      }
    }

    /** ns_pmm_alloc_pages: the first fit from the hint on, then from the bottom. */
    method AllocPages(count: nat, alignment: nat, maxPhys: nat) returns (result: int, phys: nat)
      requires initialized ==> Valid()
      requires count <= UINT64_MAX && alignment <= UINT64_MAX && maxPhys <= UINT64_MAX
      modifies this`freeFrames, this`nextHint, this`live, taken
      ensures initialized ==> Valid()
      ensures taken == old(taken) && reserved == old(reserved)
      ensures !initialized || count == 0 || !IsPowerOfTwo(alignment) ==> result == EINVAL
      ensures initialized && count > 0 && IsPowerOfTwo(alignment) ==>
        result == if old(Exhausted(count, alignment, LimitFor(maxPhys))) then ENOSPC else OK
      ensures result != OK ==> unchanged(this) && unchanged(taken) && (result == ENOSPC ==> phys == INVALID_PHYS)
      ensures result == OK ==>
        && phys % PAGE_SIZE == 0 && (phys / PAGE_SIZE) % alignment == 0
        && phys / PAGE_SIZE + count <= old(LimitFor(maxPhys)) && (maxPhys != 0 ==> phys + count * PAGE_SIZE <= maxPhys)
        && live == old(live) + Frames(phys / PAGE_SIZE, count) && old(live) !! Frames(phys / PAGE_SIZE, count)
        && (forall f :: f in Frames(phys / PAGE_SIZE, count) ==> !reserved[f] && !old(taken[f]))
        && old(Picks(count, alignment, LimitFor(maxPhys), phys / PAGE_SIZE))
        && nextHint == if phys / PAGE_SIZE + count >= frameCount then 0 else phys / PAGE_SIZE + count
    {
      hide IsPowerOfTwo, IsRun, NoRun, NoRunIn, FreeCount, Frames;
      if !initialized || count == 0 || alignment == 0 || !IsPowerOfTwo(alignment) {
        ZeroNotPower();
        return EINVAL, INVALID_PHYS;
      }
      AlignmentBound(alignment);
      var limit := LimitFor(maxPhys);
      NoneWhenFew(taken[..], count, alignment, limit);
      if count > freeFrames {
        return ENOSPC, INVALID_PHYS;
      }
      var hint := HintFor(limit);
      var found, candidate := FindRun(taken[..], hint, limit, count, alignment);
      if !found && hint != 0 {
        found, candidate := FindRun(taken[..], 0, hint, count, alignment);
      }
      if !found {
        NoneInNothing(taken[..], count, alignment);
        return ENOSPC, INVALID_PHYS;
      }
      RunFacts(taken[..], hint, limit, count, alignment, candidate);
      if maxPhys != 0 { BelowLimit(candidate, count, maxPhys, limit); }
      PhysOf(candidate);
      TakeRun(candidate, count);
      return OK, candidate * PAGE_SIZE;
    }

    /** Every frame of the run is handed out and none is reserved. */
    ghost predicate Returnable(first: nat, count: nat)
      requires first + count <= reserved.Length
      reads this, reserved
    {
      forall f :: f in Frames(first, count) ==> !reserved[f] && f in live
    }

    /** The first frame that may not be returned is the k-th, which is reserved or just not handed out. */
    ghost predicate StopsAt(first: nat, k: nat, isReserved: bool)
      requires first + k < reserved.Length
      reads this, reserved
    {
      Returnable(first, k) && reserved[first + k] == isReserved && (isReserved || first + k !in live)
    }

    /** ns_pmm_free_pages: all or nothing.  It succeeds exactly when every frame is handed out and
        none is reserved; otherwise the first frame that is not decides the error. */
    method FreePages(phys: nat, count: nat) returns (result: int)
      requires initialized ==> Valid()
      modifies this`freeFrames, this`nextHint, this`live, taken
      ensures initialized ==> Valid()
      ensures taken == old(taken) && reserved == old(reserved)
      ensures !initialized || count == 0 || phys % PAGE_SIZE != 0 ==> result == EINVAL
      ensures initialized && count > 0 && phys % PAGE_SIZE == 0 && phys / PAGE_SIZE + count > frameCount ==>
        result == ERANGE
      ensures initialized && count > 0 && phys % PAGE_SIZE == 0 && phys / PAGE_SIZE + count <= frameCount ==>
        && (result == OK <==> old(Returnable(phys / PAGE_SIZE, count)))
        && (result == EPERM <==> exists k :: 0 <= k < count && old(StopsAt(phys / PAGE_SIZE, k, true)))
        && (result == EDOUBLEFREE <==> exists k :: 0 <= k < count && old(StopsAt(phys / PAGE_SIZE, k, false)))
      ensures result != OK ==> unchanged(this) && unchanged(taken)
      ensures result == OK ==>
        && live == old(live) - Frames(phys / PAGE_SIZE, count)
        && nextHint == if phys / PAGE_SIZE < old(nextHint) then phys / PAGE_SIZE else old(nextHint)
    {
      hide FreeCount;
      if !initialized || count == 0 || phys % PAGE_SIZE != 0 {
        return EINVAL;
      }
      var first := phys / PAGE_SIZE;
      if first >= frameCount || count > frameCount - first {
        return ERANGE;
      }
      var i := 0;
      while i < count
        invariant 0 <= i <= count
        invariant forall f :: first <= f < first + i ==> !reserved[f] && taken[f]
      {
        assert InRun(first + i, first, count);
        if reserved[first + i] {
          assert old(StopsAt(first, i, true));
          return EPERM;
        }
        if !taken[first + i] {
          assert old(StopsAt(first, i, false));
          return EDOUBLEFREE;
        }
        i := i + 1;
      }
      ReturnRun(first, count);
      return OK;
    }

    /** Clears the bits of a run. */
    method Clear(first: nat, count: nat)
      requires first + count <= taken.Length
      modifies taken
      ensures taken[..] == Filled(old(taken[..]), first, first + count, false)
    {
      var i := 0;
      while i < count
        invariant 0 <= i <= count && taken[..] == Filled(old(taken[..]), first, first + i, false)
      {
        FilledStep(old(taken[..]), first, first + i, false);
        taken[first + i] := false;
        i := i + 1;
      }
    }

    method ReturnRun(first: nat, count: nat)
      requires Valid() && first + count <= frameCount
      requires forall f :: first <= f < first + count ==> !reserved[f] && taken[f]
      modifies this`freeFrames, this`nextHint, this`live, taken
      ensures Valid() && taken == old(taken) && live == old(live) - Frames(first, count)
      ensures nextHint == if first < old(nextHint) then first else old(nextHint)
      ensures forall f :: f in Frames(first, count) ==> f in old(live)
    {
      hide FreeCount;
      FilledCount(taken[..], first, first + count, false);
      Clear(first, count);
      freeFrames := freeFrames + count;
      if first < nextHint {
        nextHint := first;
      }
      live := live - Frames(first, count);
      forall f | 0 <= f < frameCount
        ensures taken[f] <==> reserved[f] || f in live
      {
        assert taken[f] == taken[..][f];
        assert InRun(f, first, count) <==> f in Frames(first, count);
      }
    }

    /** mark_frame_permanent. */
    method MarkPermanent(frame: nat)
      requires Valid()
      modifies this`freeFrames, taken, reserved
      ensures Valid() && taken == old(taken) && reserved == old(reserved)
      ensures forall f :: 0 <= f < frameCount ==> (reserved[f] <==> f == frame || old(reserved[f]))
    {
      hide FreeCount;
      if frame >= frameCount {
        return;
      }
      FreeCountSet(taken[..], frame, true);
      FreeCountRunOne(taken[..], frame);
      if !taken[frame] {
        taken[frame] := true;
        assert taken[..] == old(taken[..])[frame := true];
        if freeFrames != 0 {
          freeFrames := freeFrames - 1;
        }
      } else {
        assert taken[..] == old(taken[..])[frame := true];
      }
      reserved[frame] := true;
    }

    /** reserve_range_unlocked: the frames the range touches become reserved, and no others. */
    method ReserveRangeUnlocked(base: nat, length: nat)
      requires Valid() && base <= UINT64_MAX && length <= UINT64_MAX
      modifies this`freeFrames, taken, reserved
      ensures Valid() && taken == old(taken) && reserved == old(reserved)
      ensures forall f :: 0 <= f < frameCount ==> (reserved[f] <==> old(reserved[f]) || Touches(base, length, f))
    {
      hide FreeCount, Touches;
      if length == 0 || base >= managedLimit {
        NotTouched(base, length, frameCount);
        return;
      }
      var end := base + length;
      if end > UINT64_MAX || end > managedLimit {
        end := managedLimit;
      }
      var first, last := base / PAGE_SIZE, AlignUpPage(end) / PAGE_SIZE;
      if last > frameCount {
        last := frameCount;
      }
      TouchedFrames(base, length, end, frameCount, first, last);
      var frame := first;
      while frame < last
        invariant first <= frame && (frame <= last || first > last) && Valid() && taken == old(taken)
        invariant reserved == old(reserved)
        invariant forall f :: 0 <= f < frameCount ==> (reserved[f] <==> old(reserved[f]) || first <= f < frame)
      {
        MarkPermanent(frame);
        frame := frame + 1;
      }
    }

    /** ns_pmm_reserve_range. */
    method ReserveRange(base: nat, length: nat) returns (result: int)
      requires initialized ==> Valid()
      requires base <= UINT64_MAX && length <= UINT64_MAX
      modifies this`freeFrames, taken, reserved
      ensures initialized ==> Valid()
      ensures taken == old(taken) && reserved == old(reserved)
      ensures result == (if !initialized || length == 0 then EINVAL else if base >= managedLimit then ERANGE else OK)
      ensures result != OK ==> unchanged(this) && unchanged(taken) && unchanged(reserved)
      ensures result == OK ==>
        forall f :: 0 <= f < frameCount ==> (reserved[f] <==> old(reserved[f]) || Touches(base, length, f))
    {
      hide FreeCount, Touches;
      if !initialized || length == 0 {
        return EINVAL;
      }
      if base >= managedLimit {
        return ERANGE;
      }
      ReserveRangeUnlocked(base, length);
      return OK;
    }

    /** ns_pmm_check_invariants. */
    method CheckInvariants() returns (result: int)
      requires taken.Length == reserved.Length == frameCount
      ensures result == OK <==>
        && frameCount > 0 && freeFrames == FreeCount(taken[..])
        && forall f :: 0 <= f < frameCount && reserved[f] ==> taken[f]
      ensures result == OK || result == ECORRUPT
    {
      if frameCount == 0 {
        return ECORRUPT;
      }
      var count, frame := 0, 0;
      while frame < frameCount
        invariant frame <= frameCount && count == FreeCount(taken[..frame])
        invariant forall f :: 0 <= f < frame && reserved[f] ==> taken[f]
      {
        if reserved[frame] && !taken[frame] {
          return ECORRUPT;
        }
        assert taken[..frame + 1][..frame] == taken[..frame];
        if !taken[frame] {
          count := count + 1;
        }
        frame := frame + 1;
      }
      assert taken[..frameCount] == taken[..];
      return if count == freeFrames then OK else ECORRUPT;
    }

    /** mark_frame_free_initial. */
    method MarkFree(frame: nat)
      requires Exposing()
      modifies this`usableFrames, this`freeFrames, taken, reserved
      ensures Exposing() && taken == old(taken) && reserved == old(reserved)
      ensures forall f :: 0 <= f < frameCount ==> (reserved[f] <==> f != frame && old(reserved[f]))
    {
      hide FreeCount;
      if frame >= frameCount || !reserved[frame] {
        return;
      }
      FreeCountSet(taken[..], frame, false);
      FreeCountSet(reserved[..], frame, false);
      reserved[frame] := false;
      taken[frame] := false;
      assert taken[..] == old(taken[..])[frame := false] && reserved[..] == old(reserved[..])[frame := false];
      usableFrames := usableFrames + 1;
      freeFrames := freeFrames + 1;
    }

    /** While usable memory is being exposed nothing is handed out, and the usable frames are
        those no longer reserved. */
    ghost predicate Exposing()
      reads this, taken, reserved
    {
      Valid() && live == {} && usableFrames == FreeCount(reserved[..])
    }

    /** Exposes the whole pages of one usable entry. */
    method ExposeEntry(entry: Entry)
      requires Exposing() && entry.base <= UINT64_MAX && Enabled(entry) && entry.kind == USABLE && entry.length > 0
      modifies this`usableFrames, this`freeFrames, taken, reserved
      ensures Exposing() && taken == old(taken) && reserved == old(reserved)
      ensures forall f :: 0 <= f < frameCount ==> (reserved[f] <==> !Covers(entry, f) && old(reserved[f]))
    {
      hide FreeCount, Covers, Exposing;
      ExposingBounds();
      var end := entry.base + entry.length;
      if end > UINT64_MAX || end > managedLimit {
        end := managedLimit;
      }
      var start := AlignUpPage(entry.base);
      end := end / PAGE_SIZE * PAGE_SIZE;
      CoveredFrames(entry, frameCount, start, end);
      var address := start;
      while address < end
        invariant start <= address && address % PAGE_SIZE == 0 && Exposing() && taken == old(taken)
        invariant reserved == old(reserved)
        invariant reserved.Length == frameCount
        invariant forall f :: 0 <= f < frameCount ==>
          (reserved[f] <==> !(start / PAGE_SIZE <= f < address / PAGE_SIZE) && old(reserved[f]))
        invariant address <= end || address == start
      {
        NextPage(address, end);
        MarkFree(address / PAGE_SIZE);
        address := address + PAGE_SIZE;
      }
    }

    lemma ExposingBounds()
      requires Exposing()
      ensures taken.Length == reserved.Length == frameCount <= MAX_FRAMES && managedLimit == frameCount * PAGE_SIZE
    {
    }

    method ExposeAll(entries: seq<Entry>)
      requires Exposing() && AllReserved(reserved[..]) && Entries64(entries)
      modifies this`usableFrames, this`freeFrames, taken, reserved
      ensures Exposing() && taken == old(taken) && reserved == old(reserved)
      ensures forall f :: 0 <= f < frameCount ==> (reserved[f] <==> !CoveredBy(entries, f))
    {
      hide FreeCount, Covers, Exposing;
      ExposingBounds();
      var i := 0;
      while i < |entries|
        invariant 0 <= i <= |entries| && Exposing() && taken == old(taken) && reserved == old(reserved)
        invariant reserved.Length == frameCount
        invariant forall f :: 0 <= f < frameCount ==> (reserved[f] <==> !CoveredBy(entries[..i], f))
      {
        var entry := entries[i];
        assert entries[..i + 1] == entries[..i] + [entry];
        if !Enabled(entry) || entry.kind != USABLE || entry.length == 0 {
          NotUsable(entry, frameCount);
        } else {
          ExposeEntry(entry);
        }
        CoveredMore(entries[..i], entry, frameCount);
        i := i + 1;
      }
      assert entries[..i] == entries;
    }

    /** Reserves what the firmware lists as anything but usable. */
    method ReserveFirmware(entries: seq<Entry>)
      requires Valid() && Entries64(entries)
      modifies this`freeFrames, taken, reserved
      ensures Valid() && taken == old(taken) && reserved == old(reserved)
      ensures forall f :: 0 <= f < frameCount ==> (reserved[f] <==> old(reserved[f]) || WithheldBy(entries, f))
    {
      hide FreeCount, Touches;
      var i := 0;
      while i < |entries|
        invariant 0 <= i <= |entries| && Valid() && taken == old(taken) && reserved == old(reserved)
        invariant forall f :: 0 <= f < frameCount ==> (reserved[f] <==> old(reserved[f]) || WithheldBy(entries[..i], f))
      {
        var entry := entries[i];
        assert entries[..i + 1] == entries[..i] + [entry];
        if Enabled(entry) && entry.kind != USABLE {
          ReserveRangeUnlocked(entry.base, entry.length);
        }
        WithheldMore(entries[..i], entry, frameCount);
        i := i + 1;
      }
      assert entries[..i] == entries;
    }

    /** reserve_boot_regions. */
    method ReserveRegions(regions: seq<Region>)
      requires Valid() && Regions64(regions)
      modifies this`freeFrames, taken, reserved
      ensures Valid() && taken == old(taken) && reserved == old(reserved)
      ensures forall f :: 0 <= f < frameCount ==> (reserved[f] <==> old(reserved[f]) || Occupied(regions, f))
    {
      hide FreeCount, Touches;
      var i := 0;
      while i < |regions|
        invariant 0 <= i <= |regions| && Valid() && taken == old(taken) && reserved == old(reserved)
        invariant forall f :: 0 <= f < frameCount ==> (reserved[f] <==> old(reserved[f]) || Occupied(regions[..i], f))
      {
        assert Region64(regions[i]);
        ReserveRangeUnlocked(regions[i].base, regions[i].length);
        OccupiedMore(regions[..i], regions[i], frameCount);
        assert regions[..i + 1] == regions[..i] + [regions[i]];
        i := i + 1;
      }
      assert regions[..i] == regions;
    }

    /** The state ns_pmm_init sets up before it reads the map: every frame taken and reserved. */
    method Blank(limit: nat)
      requires limit % PAGE_SIZE == 0 && limit / PAGE_SIZE <= MAX_FRAMES
      modifies this
      ensures Exposing() && AllReserved(reserved[..]) && fresh(taken) && fresh(reserved)
      ensures frameCount == limit / PAGE_SIZE && managedLimit == limit && nextHint == 0
    {
      hide FreeCount;
      var frames := limit / PAGE_SIZE;
      taken := new bool[frames](_ => true);
      reserved := new bool[frames](_ => true);
      frameCount, usableFrames, freeFrames, nextHint, managedLimit, initialized := frames, 0, 0, 0, limit, false;
      live := {};
      NoneFree(taken[..]);
      NoneFree(reserved[..]);
    }

    /** ns_pmm_init: afterwards a frame is free exactly when a usable entry of the memory map holds
        all of it and no withheld entry and no boot region holds any of it. */
    method Init(boot: Boot, bootValid: bool, bitmapPhys: nat, storage: nat) returns (result: int)
      requires Boot64(boot) && bitmapPhys <= UINT64_MAX && storage <= UINT64_MAX
      modifies this
      ensures result == if !bootValid || bitmapPhys % PAGE_SIZE != 0 then EINVAL
                        else if !Enough(boot, storage) then ENOSPC else OK
      ensures result != OK ==> unchanged(this)
      ensures result == OK ==>
        && Valid() && initialized && live == {} && fresh(taken) && fresh(reserved)
        && nextHint == (if LOW_MEMORY / PAGE_SIZE >= frameCount then 0 else LOW_MEMORY / PAGE_SIZE)
        && (forall f: nat :: f < frameCount <==> Managed(boot, f))
        && (forall f :: 0 <= f < frameCount ==>
          (!taken[f] <==> FreeAtBoot(boot, bitmapPhys, frameCount, f)))
        && usableFrames == FreeCount(Uncovered(boot.entries, frameCount))
    {
      hide FreeCount, Covers, Exposing, Managed, Enough, CoveredBy, FreeAtBoot;
      if bitmapPhys % PAGE_SIZE != 0 || !bootValid {
        return EINVAL;
      }
      var limit := DiscoverLimit(boot);
      var bytes := (limit / PAGE_SIZE + 7) / 8;
      EnoughExactly(boot, limit, storage);
      if bytes == 0 || storage < 2 * bytes {
        return ENOSPC;
      }
      Blank(limit);
      ExposeAll(boot.entries);
      ExposingBounds();
      Withhold(boot, bitmapPhys, bytes);
      nextHint := LOW_MEMORY / PAGE_SIZE;
      if nextHint >= frameCount {
        nextHint := 0;
      }
      initialized := true;
      result := CheckInvariants();
    }

    /** The second half of ns_pmm_init: takes back what is not free memory after all. */
    method Withhold(boot: Boot, bitmapPhys: nat, bytes: nat)
      requires Exposing() && Boot64(boot) && bitmapPhys <= UINT64_MAX
      requires bytes == (frameCount + 7) / 8
      requires forall f :: 0 <= f < reserved.Length ==> (reserved[f] <==> !CoveredBy(boot.entries, f))
      modifies this`freeFrames, taken, reserved
      ensures Valid() && taken == old(taken) && reserved == old(reserved) && live == {}
      ensures forall f :: 0 <= f < frameCount ==> (!taken[f] <==> FreeAtBoot(boot, bitmapPhys, frameCount, f))
      ensures usableFrames == FreeCount(Uncovered(boot.entries, frameCount))
    {
      hide FreeCount, Touches, Covers, CoveredBy, WithheldBy, Occupied, BootRegions;
      assert reserved[..] == Uncovered(boot.entries, frameCount);
      ReserveFirmware(boot.entries);
      var regions := BootRegions(boot, bitmapPhys, 2 * bytes);
      Regions64Hold(boot, bitmapPhys, frameCount);
      ReserveRegions(regions);
    }
  }

  /** align_up_page_saturating. */
  function AlignUpPage(value: nat): nat
  {
    if value > UINT64_MAX - (PAGE_SIZE - 1) then UINT64_MAX / PAGE_SIZE * PAGE_SIZE
    else (value + PAGE_SIZE - 1) / PAGE_SIZE * PAGE_SIZE
  }

  /** Some byte of the frame is in [base, base + length). */
  predicate Touches(base: nat, length: nat, frame: nat)
  {
    length > 0 && base < (frame + 1) * PAGE_SIZE && frame * PAGE_SIZE < base + length
  }

  lemma NotTouched(base: nat, length: nat, frames: nat)
    requires length == 0 || base >= frames * PAGE_SIZE
    ensures forall f :: 0 <= f < frames ==> !Touches(base, length, f)
  {
    forall f | 0 <= f < frames
      ensures !Touches(base, length, f)
    {
      MulMonotone(f + 1, frames, PAGE_SIZE);
    }
  }

  /** Rounding down and up gives exactly the frames that are touched. */
  lemma TouchedFrames(base: nat, length: nat, end: nat, frames: nat, first: nat, last: nat)
    requires 0 < length && base < frames * PAGE_SIZE && frames <= MAX_FRAMES && base <= UINT64_MAX
    requires end == if base + length > UINT64_MAX || base + length > frames * PAGE_SIZE
      then frames * PAGE_SIZE else base + length
    requires first == base / PAGE_SIZE
    requires last == if AlignUpPage(end) / PAGE_SIZE > frames then frames else AlignUpPage(end) / PAGE_SIZE
    ensures forall f :: 0 <= f < frames ==> (Touches(base, length, f) <==> first <= f < last)
  {
    forall f | 0 <= f < frames
      ensures Touches(base, length, f) <==> first <= f < last
    {
    }
  }

  // ---------- the memory map ----------

  const USABLE: nat := 1
  const LOW_MEMORY: nat := 0x10_0000

  /** An E820 record. */
  datatype Entry = Entry(base: nat, length: nat, kind: nat, attributes: nat)

  datatype Region = Region(base: nat, length: nat)

  /** What ns_pmm_init reads of the boot information. */
  datatype Boot = Boot(
    entries: seq<Entry>, directMapSize: nat, kernel: Region, bootloader: Region, pageTables: Region, pml4: nat,
    info: Region, table: Region, hasInitrd: bool, initrd: Region, hasFramebuffer: bool, framebuffer: Region)

  /** The regions reserve_boot_regions takes back, in its order. */
  function BootRegions(boot: Boot, bitmapPhys: nat, bitmapBytes: nat): seq<Region>
  {
    [Region(0, LOW_MEMORY), boot.kernel, boot.bootloader, boot.pageTables, Region(boot.pml4, PAGE_SIZE),
      boot.info, boot.table, Region(bitmapPhys, bitmapBytes)]
    + (if boot.hasInitrd then [boot.initrd] else [])
    + (if boot.hasFramebuffer then [boot.framebuffer] else [])
  }

  /** entry_enabled: a legacy record has no attributes. */
  predicate Enabled(entry: Entry)
  {
    entry.attributes == 0 || entry.attributes % 2 == 1
  }

  predicate Entries64(entries: seq<Entry>)
  {
    forall e :: e in entries ==> e.base <= UINT64_MAX && e.length <= UINT64_MAX
  }

  predicate Regions64(regions: seq<Region>)
  {
    forall r :: r in regions ==> Region64(r)
  }

  predicate Region64(r: Region)
  {
    r.base <= UINT64_MAX && r.length <= UINT64_MAX
  }

  predicate Boot64(boot: Boot)
  {
    && Entries64(boot.entries) && Region64(boot.kernel) && Region64(boot.bootloader) && Region64(boot.pageTables)
    && boot.pml4 <= UINT64_MAX && Region64(boot.info) && Region64(boot.table)
    && Region64(boot.initrd) && Region64(boot.framebuffer)
  }

  /** The whole frame lies in a usable entry. */
  predicate Covers(entry: Entry, frame: nat)
  {
    && Enabled(entry) && entry.kind == USABLE
    && entry.base <= frame * PAGE_SIZE && (frame + 1) * PAGE_SIZE <= entry.base + entry.length
  }

  predicate CoveredBy(entries: seq<Entry>, frame: nat)
  {
    exists e :: e in entries && Covers(e, frame)
  }

  /** One bit a frame, clear where a usable entry covers it. */
  function Uncovered(entries: seq<Entry>, frames: nat): seq<bool>
  {
    seq(frames, f requires 0 <= f < frames => !CoveredBy(entries, f))
  }

  /** Part of the frame lies in an entry that is not usable memory. */
  predicate WithheldBy(entries: seq<Entry>, frame: nat)
  {
    exists e :: e in entries && Withholds(e, frame)
  }

  predicate Withholds(entry: Entry, frame: nat)
  {
    Enabled(entry) && entry.kind != USABLE && Touches(entry.base, entry.length, frame)
  }

  predicate Occupied(regions: seq<Region>, frame: nat)
  {
    exists r :: r in regions && Touches(r.base, r.length, frame)
  }

  /** The frame holds part of a region in use. */
  predicate InBootRegion(boot: Boot, bitmapPhys: nat, frames: nat, frame: nat)
  {
    Occupied(BootRegions(boot, bitmapPhys, 2 * ((frames + 7) / 8)), frame)
  }

  /** A usable entry holds the whole frame, and nothing that is withheld or in use holds any of it. */
  predicate FreeAtBoot(boot: Boot, bitmapPhys: nat, frames: nat, frame: nat)
  {
    && CoveredBy(boot.entries, frame) && !WithheldBy(boot.entries, frame)
    && !InBootRegion(boot, bitmapPhys, frames, frame)
  }

  lemma Regions64Hold(boot: Boot, bitmapPhys: nat, frames: nat)
    requires Boot64(boot) && bitmapPhys <= UINT64_MAX && frames <= MAX_FRAMES
    ensures Regions64(BootRegions(boot, bitmapPhys, 2 * ((frames + 7) / 8)))
  {
  }

  predicate Reaches(entry: Entry, frame: nat)
  {
    Enabled(entry) && entry.length > 0 && frame * PAGE_SIZE < entry.base + entry.length
  }

  /** The frames the allocator tracks: those below the end of some enabled entry, inside the direct
      map and addressable as a whole. */
  predicate Managed(boot: Boot, frame: nat)
  {
    && frame < MAX_FRAMES && (boot.directMapSize != 0 ==> frame * PAGE_SIZE < boot.directMapSize)
    && exists e :: e in boot.entries && Reaches(e, frame)
  }

  /** There is memory to manage, and room for two bitmaps over it. */
  ghost predicate Enough(boot: Boot, storage: nat)
  {
    Managed(boot, 0) && forall f: nat :: Managed(boot, f) ==> 2 * ((f + 8) / 8) <= storage
  }

  /** The end of an entry, cut off at the last address. */
  function EndOf(entry: Entry): nat
  {
    if entry.base + entry.length > UINT64_MAX then UINT64_MAX else entry.base + entry.length
  }

  /** discover_limit. */
  method DiscoverLimit(boot: Boot) returns (limit: nat)
    requires Entries64(boot.entries)
    ensures limit % PAGE_SIZE == 0 && limit / PAGE_SIZE <= MAX_FRAMES
    ensures forall f: nat :: f < limit / PAGE_SIZE <==> Managed(boot, f)
  {
    var highest, i := 0, 0;
    while i < |boot.entries|
      invariant 0 <= i <= |boot.entries| && highest <= UINT64_MAX
      invariant forall j :: 0 <= j < i && Enabled(boot.entries[j]) && boot.entries[j].length > 0 ==>
        EndOf(boot.entries[j]) <= highest
      invariant highest == 0 || exists j ::
        0 <= j < i && Enabled(boot.entries[j]) && boot.entries[j].length > 0 && EndOf(boot.entries[j]) == highest
    {
      var entry := boot.entries[i];
      if Enabled(entry) && entry.length != 0 {
        var end := entry.base + entry.length;
        if end > UINT64_MAX {
          end := UINT64_MAX;
        }
        if end > highest {
          highest := end;
        }
      }
      i := i + 1;
    }
    ghost var top := highest;
    if boot.directMapSize != 0 && highest > boot.directMapSize {
      highest := boot.directMapSize;
    }
    limit := AlignUpPage(highest);
    AlignUpLimit(highest);
    forall f: nat
      ensures f < limit / PAGE_SIZE <==> Managed(boot, f)
    {
      ManagedExactly(boot, top, f);
      AlignUpFrames(highest, f);
    }
  }

  lemma AlignUpLimit(value: nat)
    requires value <= UINT64_MAX
    ensures AlignUpPage(value) % PAGE_SIZE == 0 && AlignUpPage(value) / PAGE_SIZE <= MAX_FRAMES
  {
  }

  lemma AlignUpFrames(value: nat, frame: nat)
    requires value <= UINT64_MAX
    ensures frame < AlignUpPage(value) / PAGE_SIZE <==> frame < MAX_FRAMES && frame * PAGE_SIZE < value
  {
  }

  lemma ManagedExactly(boot: Boot, top: nat, frame: nat)
    requires forall j :: 0 <= j < |boot.entries| && Enabled(boot.entries[j]) && boot.entries[j].length > 0 ==>
      EndOf(boot.entries[j]) <= top
    requires top == 0 || exists j ::
      0 <= j < |boot.entries| && Enabled(boot.entries[j]) && boot.entries[j].length > 0 && EndOf(boot.entries[j]) == top
    ensures Managed(boot, frame) <==>
      && frame < MAX_FRAMES && frame * PAGE_SIZE < top
      && (boot.directMapSize != 0 ==> frame * PAGE_SIZE < boot.directMapSize)
  {
    if frame < MAX_FRAMES {
      FrameBelow(frame);
      if top != 0 {
        var j :| 0 <= j < |boot.entries| && Enabled(boot.entries[j]) && boot.entries[j].length > 0
                 && EndOf(boot.entries[j]) == top;
        assert frame * PAGE_SIZE < top ==> Reaches(boot.entries[j], frame);
      }
    }
  }

  lemma FrameBelow(frame: nat)
    requires frame < MAX_FRAMES
    ensures frame * PAGE_SIZE < UINT64_MAX
  {
  }

  lemma EnoughExactly(boot: Boot, limit: nat, storage: nat)
    requires forall f: nat :: f < limit / PAGE_SIZE <==> Managed(boot, f)
    ensures var bytes := (limit / PAGE_SIZE + 7) / 8; Enough(boot, storage) <==> bytes != 0 && 2 * bytes <= storage
  {
    hide Managed;
    var frames := limit / PAGE_SIZE;
    if frames > 0 {
      assert Managed(boot, frames - 1) && Managed(boot, 0);
      forall f: nat | Managed(boot, f)
        ensures 2 * ((f + 8) / 8) <= 2 * ((frames + 7) / 8)
      {
        assert f < frames;
      }
    }
  }

  predicate AllReserved(bits: seq<bool>)
  {
    forall f :: 0 <= f < |bits| ==> bits[f]
  }

  lemma {:induction false} NoneFree(bits: seq<bool>)
    requires AllReserved(bits)
    ensures FreeCount(bits) == 0
  {
    if bits != [] { NoneFree(bits[..|bits| - 1]); }
  }

  /** Rounding up and down gives exactly the frames that are covered. */
  lemma CoveredFrames(entry: Entry, frames: nat, start: nat, end: nat)
    requires frames <= MAX_FRAMES && entry.base <= UINT64_MAX && Enabled(entry) && entry.kind == USABLE
    requires start == AlignUpPage(entry.base)
    requires end == (if entry.base + entry.length > UINT64_MAX || entry.base + entry.length > frames * PAGE_SIZE
                     then frames * PAGE_SIZE else entry.base + entry.length) / PAGE_SIZE * PAGE_SIZE
    ensures start % PAGE_SIZE == 0 && end % PAGE_SIZE == 0
    ensures forall f :: 0 <= f < frames ==> (Covers(entry, f) <==> start / PAGE_SIZE <= f < end / PAGE_SIZE)
  {
    forall f | 0 <= f < frames
      ensures Covers(entry, f) <==> start / PAGE_SIZE <= f < end / PAGE_SIZE
    {
    }
  }

  lemma NextPage(address: nat, end: nat)
    requires address % PAGE_SIZE == end % PAGE_SIZE == 0 && address < end
    ensures address + PAGE_SIZE <= end && (address + PAGE_SIZE) % PAGE_SIZE == 0
    ensures (address + PAGE_SIZE) / PAGE_SIZE == address / PAGE_SIZE + 1
  {
  }

  lemma NotUsable(entry: Entry, frames: nat)
    requires !Enabled(entry) || entry.kind != USABLE || entry.length == 0
    ensures forall f :: 0 <= f < frames ==> !Covers(entry, f)
  {
  }

  lemma CoveredMore(entries: seq<Entry>, entry: Entry, frames: nat)
    ensures forall f :: 0 <= f < frames ==>
      (CoveredBy(entries + [entry], f) <==> CoveredBy(entries, f) || Covers(entry, f))
  {
    hide Covers;
    forall f | 0 <= f < frames
      ensures CoveredBy(entries + [entry], f) <==> CoveredBy(entries, f) || Covers(entry, f)
    {
      assert entry in entries + [entry];
    }
  }

  lemma WithheldMore(entries: seq<Entry>, entry: Entry, frames: nat)
    ensures forall f :: 0 <= f < frames ==>
      (WithheldBy(entries + [entry], f) <==> WithheldBy(entries, f) || Withholds(entry, f))
  {
    hide Touches;
    forall f | 0 <= f < frames
      ensures WithheldBy(entries + [entry], f) <==> WithheldBy(entries, f) || Withholds(entry, f)
    {
      assert entry in entries + [entry];
    }
  }

  lemma OccupiedMore(regions: seq<Region>, region: Region, frames: nat)
    ensures forall f :: 0 <= f < frames ==>
      (Occupied(regions + [region], f) <==> Occupied(regions, f) || Touches(region.base, region.length, f))
  {
    hide Touches;
    forall f | 0 <= f < frames
      ensures Occupied(regions + [region], f) <==> Occupied(regions, f) || Touches(region.base, region.length, f)
    {
      assert region in regions + [region];
    }
  }

  // ---------- what the rotating hint costs ----------

  /** Splitting the search at the hint misses exactly the runs that straddle it. */
  lemma SplitSearch(taken: seq<bool>, hint: nat, limit: nat, count: nat, alignment: nat)
    requires alignment > 0 && count > 0 && hint <= limit <= |taken|
    ensures NoRun(taken, hint, limit, count, alignment) && NoRun(taken, 0, hint, count, alignment) <==>
      forall frame: nat :: IsRun(taken, 0, limit, count, alignment, frame) ==> frame < hint < frame + count
  {
    if NoRun(taken, hint, limit, count, alignment) && NoRun(taken, 0, hint, count, alignment) {
      forall frame: nat | IsRun(taken, 0, limit, count, alignment, frame)
        ensures frame < hint < frame + count
      {
        assert !IsRun(taken, hint, limit, count, alignment, frame) && !IsRun(taken, 0, hint, count, alignment, frame);
      }
    } else if frame: nat :| IsRun(taken, hint, limit, count, alignment, frame) {
      assert IsRun(taken, 0, limit, count, alignment, frame);
    } else {
      var frame: nat :| IsRun(taken, 0, hint, count, alignment, frame);
      assert IsRun(taken, 0, limit, count, alignment, frame);
    }
  }

  /** A single frame cannot straddle: a one-page request fails only when every aligned frame below
      the limit is taken. */
  lemma OneFrame(taken: seq<bool>, hint: nat, limit: nat, alignment: nat)
    requires alignment > 0 && hint <= limit <= |taken|
    ensures NoRun(taken, hint, limit, 1, alignment) && NoRun(taken, 0, hint, 1, alignment) <==>
      forall f :: 0 <= f < limit && f % alignment == 0 ==> taken[f]
  {
    SplitSearch(taken, hint, limit, 1, alignment);
    assert forall frame: nat :: IsRun(taken, 0, limit, 1, alignment, frame) ==> !(frame < hint < frame + 1);
    forall f: nat | f < limit && f % alignment == 0
      ensures IsRun(taken, 0, limit, 1, alignment, f) <==> !taken[f]
    {
    }
  }

  lemma FreeCountRunOne(taken: seq<bool>, frame: nat)
    requires frame < |taken|
    ensures !taken[frame] ==> FreeCount(taken) > 0
  {
    if !taken[frame] { FreeCountRun(taken, frame, 1); }
  }

  lemma ZeroNotPower()
    ensures !IsPowerOfTwo(0)
  {
  }

  /** With fewer clear frames than asked for there is no run anywhere. */
  lemma NoneWhenFew(taken: seq<bool>, count: nat, alignment: nat, limit: nat)
    requires alignment > 0 && limit <= |taken|
    ensures count > FreeCount(taken) ==>
      forall begin, end: nat :: end <= limit ==> NoRun(taken, begin, end, count, alignment)
  {
    if count > FreeCount(taken) {
      forall begin: nat, end: nat, frame: nat | end <= limit
        ensures !IsRun(taken, begin, end, count, alignment, frame)
      {
        if IsRun(taken, begin, end, count, alignment, frame) { FreeCountRun(taken, frame, count); }
      }
    }
  }

  lemma NoneInNothing(taken: seq<bool>, count: nat, alignment: nat)
    requires alignment > 0 && count > 0
    ensures NoRun(taken, 0, 0, count, alignment)
  {
  }

  lemma RunFacts(taken: seq<bool>, hint: nat, limit: nat, count: nat, alignment: nat, frame: nat)
    requires alignment > 0 && hint <= limit <= |taken|
    requires IsRun(taken, hint, limit, count, alignment, frame) || IsRun(taken, 0, hint, count, alignment, frame)
    ensures frame + count <= limit && frame % alignment == 0
    ensures forall f :: frame <= f < frame + count ==> !taken[f]
  {
  }
}
