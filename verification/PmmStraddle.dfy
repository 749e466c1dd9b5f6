/** A run the allocator overlooks: two clear frames side by side, and a request for two frames that
    fails because the hint lies between them. */
module PmmStraddle {
  import opened HeapLayout
  import opened Pmm

  const FRAMES: nat := 265
  const LOW: nat := 256

  /** A machine with 265 frames of memory, all in use below one megabyte. */
  const SMALL: Boot := Boot(
    [Entry(0, FRAMES * PAGE_SIZE, USABLE, 1)], FRAMES * PAGE_SIZE,
    Region(0x10000, PAGE_SIZE), Region(0x8000, PAGE_SIZE), Region(0x20000, PAGE_SIZE), 0x20000,
    Region(0x5000, 192), Region(0x6000, 24), false, Region(0, 0), false, Region(0, 0))

  lemma SmallManaged(f: nat)
    ensures Managed(SMALL, f) <==> f < FRAMES
  {
    var e := SMALL.entries[0];
    assert e in SMALL.entries && forall x :: x in SMALL.entries ==> x == e;
    assert Reaches(e, f) <==> f * PAGE_SIZE < FRAMES * PAGE_SIZE;
  }

  lemma SmallFree(f: nat)
    requires f < FRAMES
    ensures FreeAtBoot(SMALL, 0x30000, FRAMES, f) <==> LOW <= f
  {
    var e := SMALL.entries[0];
    assert e in SMALL.entries && forall x :: x in SMALL.entries ==> x == e;
    assert Covers(e, f);
    var regions := BootRegions(SMALL, 0x30000, 2 * ((FRAMES + 7) / 8));
    if f < LOW {
      assert regions[0] == Region(0, LOW_MEMORY) && Touches(0, LOW_MEMORY, f) && regions[0] in regions;
    } else {
      SmallUntouched(f);
    }
  }

  lemma SmallUntouched(f: nat)
    requires LOW <= f
    ensures !InBootRegion(SMALL, 0x30000, FRAMES, f)
  {
    var regions := BootRegions(SMALL, 0x30000, 2 * ((FRAMES + 7) / 8));
    forall r | r in regions
      ensures r.base + r.length <= LOW * PAGE_SIZE
    {
    }
  }

  lemma SmallEnough()
    ensures Boot64(SMALL) && Enough(SMALL, 4096)
  {
    SmallManaged(0);
    forall f: nat | Managed(SMALL, f)
      ensures 2 * ((f + 8) / 8) <= 4096
    {
      SmallManaged(f);
    }
  }

  /** The frames in use are those below one megabyte and those handed out. */
  ghost predicate Stands(pmm: FrameAllocator, live: set<nat>, hint: nat)
    reads pmm, pmm.taken, pmm.reserved
  {
    && pmm.Valid() && pmm.initialized && pmm.frameCount == FRAMES && pmm.live == live && pmm.nextHint == hint
    && (forall f :: 0 <= f < FRAMES ==> (pmm.reserved[f] <==> f < LOW))
  }

  lemma FirstFit(pmm: FrameAllocator, live: set<nat>, hint: nat, count: nat, alignment: nat, want: nat)
    requires Stands(pmm, live, hint) && hint < FRAMES && alignment > 0 && count > 0
    requires Lowest(pmm.taken[..], hint, FRAMES, count, alignment, want)
    ensures !pmm.Exhausted(count, alignment, FRAMES)
    ensures forall f: nat :: pmm.Picks(count, alignment, FRAMES, f) ==> f == want
  {
    forall f: nat | pmm.Picks(count, alignment, FRAMES, f)
      ensures f == want
    {
      OneLowest(pmm.taken[..], hint, FRAMES, count, alignment, f, want);
    }
  }

  lemma OneLowest(taken: seq<bool>, begin: nat, end: nat, count: nat, alignment: nat, f: nat, g: nat)
    requires alignment > 0 && end <= |taken| && Lowest(taken, begin, end, count, alignment, g)
    ensures Lowest(taken, begin, end, count, alignment, f) ==> f == g
    ensures !NoRun(taken, begin, end, count, alignment)
  {
    assert IsRun(taken, begin, end, count, alignment, g);
  }

  lemma LimitIs(pmm: FrameAllocator)
    ensures pmm.LimitFor(0) == pmm.frameCount
  {
  }

  lemma One()
    ensures IsPowerOfTwo(1) && IsPowerOfTwo(4)
  {
    assert IsPowerOfTwo(2);
  }

  /** An allocation whose place is known. */
  method Take(pmm: FrameAllocator, ghost live: set<nat>, ghost hint: nat, count: nat, alignment: nat, want: nat)
    requires Stands(pmm, live, hint) && hint < FRAMES && (alignment == 1 || alignment == 4) && 0 < count <= FRAMES
    requires Lowest(pmm.taken[..], hint, FRAMES, count, alignment, want) && want + count < FRAMES
    modifies pmm, pmm.taken
    ensures pmm.taken == old(pmm.taken) && pmm.reserved == old(pmm.reserved)
    ensures Stands(pmm, live + Frames(want, count), want + count)
  {
    hide IsRun, NoRun, Lowest, Frames, FreeCount;
    One();
    LimitIs(pmm);
    FirstFit(pmm, live, hint, count, alignment, want);
    var result, phys := pmm.AllocPages(count, alignment, 0);
    assert phys / PAGE_SIZE == want;
  }

  lemma TakenIs(pmm: FrameAllocator, live: set<nat>, hint: nat)
    requires Stands(pmm, live, hint)
    ensures pmm.taken.Length == FRAMES && forall f :: 0 <= f < FRAMES ==> (pmm.taken[..][f] <==> f < LOW || f in live)
  {
  }

  lemma LowestIs(taken: seq<bool>, live: set<nat>, hint: nat, count: nat, alignment: nat, want: nat)
    requires |taken| == FRAMES && forall f :: 0 <= f < FRAMES ==> (taken[f] <==> f < LOW || f in live)
    requires LOW <= hint <= want && want + count <= FRAMES && alignment > 0 && want % alignment == 0
    requires forall f :: want <= f < want + count ==> f !in live
    requires want == hint || (alignment == 4 && hint == want - 1)
    ensures Lowest(taken, hint, FRAMES, count, alignment, want)
  {
  }

  method Start() returns (pmm: FrameAllocator)
    ensures fresh(pmm) && fresh(pmm.taken) && fresh(pmm.reserved) && Stands(pmm, {}, 256)
  {
    hide FreeCount, Managed, FreeAtBoot, Boot64, Enough;
    pmm := new FrameAllocator();
    SmallEnough();
    var status := pmm.Init(SMALL, true, 0x30000, 4096);
    Started(pmm);
  }

  lemma FramesHas(first: nat, count: nat)
    ensures forall f :: f in Frames(first, count) <==> first <= f < first + count
  {
    forall f: nat
      ensures f in Frames(first, count) <==> first <= f < first + count
    {
      assert InRun(f, first, count) <==> first <= f < first + count;
    }
  }

  /** Three allocations: frames 256 to 258, frame 260, frames 261 to 263. */
  method FillUp(pmm: FrameAllocator)
    requires Stands(pmm, {}, 256)
    modifies pmm, pmm.taken
    ensures pmm.taken == old(pmm.taken) && pmm.reserved == old(pmm.reserved)
    ensures Stands(pmm, Frames(256, 3) + Frames(260, 1) + Frames(261, 3), 264)
  {
    hide Stands, Frames, Lowest;
    FramesHas(256, 3);
    FramesHas(260, 1);
    FramesHas(261, 3);
    TakenIs(pmm, {}, 256);
    LowestIs(pmm.taken[..], {}, 256, 3, 1, 256);
    Take(pmm, {}, 256, 3, 1, 256);
    ghost var first := {} + Frames(256, 3);
    TakenIs(pmm, first, 259);
    LowestIs(pmm.taken[..], first, 259, 1, 4, 260);
    Take(pmm, first, 259, 1, 4, 260);
    ghost var second := first + Frames(260, 1);
    TakenIs(pmm, second, 261);
    LowestIs(pmm.taken[..], second, 261, 3, 1, 261);
    Take(pmm, second, 261, 3, 1, 261);
    assert second + Frames(261, 3) == Frames(256, 3) + Frames(260, 1) + Frames(261, 3);
  }

  /** Returning frame 260 puts the hint there. */
  method GiveBack(pmm: FrameAllocator, ghost live: set<nat>)
    requires Stands(pmm, live, 264) && Frames(260, 1) <= live
    modifies pmm, pmm.taken
    ensures pmm.taken == old(pmm.taken) && pmm.reserved == old(pmm.reserved)
    ensures Stands(pmm, live - Frames(260, 1), 260)
  {
    hide FreeCount, Frames;
    FramesHas(260, 1);
    PhysOf(260);
    var freed := pmm.FreePages(260 * PAGE_SIZE, 1);
  }

  /** Five calls after start-up, frames 259 and 260 are clear and a request for two frames fails. */
  method StraddlingRunMissed() returns (pmm: FrameAllocator, result: int)
    ensures pmm.Valid() && pmm.frameCount == FRAMES && result == ENOSPC
    ensures IsRun(pmm.taken[..], 0, FRAMES, 2, 1, 259)
  {
    hide FreeCount, Frames, IsRun, NoRun;
    pmm := Start();
    FillUp(pmm);
    ghost var live := Frames(256, 3) + Frames(260, 1) + Frames(261, 3);
    FramesHas(256, 3);
    FramesHas(260, 1);
    FramesHas(261, 3);
    GiveBack(pmm, live);
    TakenIs(pmm, live - Frames(260, 1), 260);
    Missed(pmm.taken[..], live - Frames(260, 1));
    One();
    LimitIs(pmm);
    ghost var before := pmm.taken[..];
    var phys;
    result, phys := pmm.AllocPages(2, 1, 0);
    assert pmm.taken[..] == before;
  }

  lemma Started(pmm: FrameAllocator)
    requires pmm.Valid() && pmm.initialized && pmm.live == {}
    requires pmm.nextHint == if LOW_MEMORY / PAGE_SIZE >= pmm.frameCount then 0 else LOW_MEMORY / PAGE_SIZE
    requires forall f: nat :: f < pmm.frameCount <==> Managed(SMALL, f)
    requires forall f :: 0 <= f < pmm.frameCount ==> (!pmm.taken[f] <==> FreeAtBoot(SMALL, 0x30000, pmm.frameCount, f))
    ensures Stands(pmm, {}, 256)
  {
    hide Managed, FreeAtBoot;
    SmallManaged(FRAMES);
    SmallManaged(pmm.frameCount);
    forall f | 0 <= f < FRAMES
      ensures pmm.reserved[f] <==> f < LOW
    {
      SmallFree(f);
    }
  }

  /** Only frames 259, 260 and 264 are clear. */
  lemma Missed(taken: seq<bool>, live: set<nat>)
    requires |taken| == FRAMES && forall f :: 0 <= f < FRAMES ==> (taken[f] <==> f < LOW || f in live)
    requires forall f :: f in live <==> 256 <= f < 259 || 261 <= f < 264
    ensures NoRun(taken, 260, FRAMES, 2, 1) && NoRun(taken, 0, 260, 2, 1)
    ensures IsRun(taken, 0, FRAMES, 2, 1, 259)
  {
    forall frame: nat
      ensures !IsRun(taken, 260, FRAMES, 2, 1, frame) && !IsRun(taken, 0, 260, 2, 1, frame)
    {
      if frame + 2 <= FRAMES {
        assert taken[frame] || taken[frame + 1] || frame == 259;
      }
    }
  }
}
