/** The kernel heap takes no more than it needs (kernel/mm/heap.c): a block in use ends close behind
    its payload, blocks in use stay as they are, and a block is passed over only if it has no place
    for the payload. */
module HeapThrift {
  import opened HeapBlocks
  import opened HeapLayout

  /** Block i holds the allocation and ends too close behind it for another block. */
  predicate TightAt(s: seq<Blk>, i: int, p: nat, size: nat)
  {
    && 0 <= i < |s| && !s[i].free && s[i].user == p && s[i].requested == size
    && End(s[i]) < p + size + MIN_ALIGNMENT + MIN_SPAN
  }

  ghost predicate Tight(s: seq<Blk>, p: nat, size: nat)
  {
    exists i :: TightAt(s, i, p, size)
  }

  /** Nor is there more in front of it than header, tag and alignment call for. */
  ghost predicate Snug(s: seq<Blk>, p: nat, size: nat, alignment: nat)
  {
    exists i :: TightAt(s, i, p, size) && p < s[i].addr + HEADER + TAG + alignment
  }

  lemma SnugTight(s: seq<Blk>, p: nat, size: nat, alignment: nat)
    requires Snug(s, p, size, alignment)
    ensures Tight(s, p, size)
  {
  }

  /** The blocks in use are still there, but for that of one pointer. */
  ghost predicate Keeps(s: seq<Blk>, r: seq<Blk>, p: nat)
  {
    forall b :: b in s && !b.free && b.user != p ==> b in r
  }

  /** The blocks in use are still there. */
  ghost predicate KeepsAll(s: seq<Blk>, r: seq<Blk>)
  {
    forall b :: b in s && !b.free ==> b in r
  }

  lemma KeepsSame(s: seq<Blk>)
    ensures KeepsAll(s, s)
  {
  }

  lemma KeepsTwice(s: seq<Blk>, m: seq<Blk>, r: seq<Blk>)
    requires KeepsAll(s, m) && KeepsAll(m, r)
    ensures KeepsAll(s, r)
  {
  }

  lemma TightKept(s: seq<Blk>, r: seq<Blk>, p: nat, size: nat, other: nat)
    requires Tight(s, p, size) && Keeps(s, r, other) && p != other
    ensures Tight(r, p, size)
  {
    var i :| TightAt(s, i, p, size);
    assert s[i] in r;
    var j :| 0 <= j < |r| && r[j] == s[i];
    assert TightAt(r, j, p, size);
  }

  lemma MergeHeld(s: seq<Blk>, i: nat)
    requires i < |s|
    ensures forall b :: b in s && !b.free && b != s[i] ==> b in MergeNext(s, i)
    ensures forall k :: 0 <= k < i ==> k < |MergeNext(s, i)| && MergeNext(s, i)[k] == s[k]
  {
    var r := MergeNext(s, i);
    forall b | b in s && !b.free && b != s[i]
      ensures b in r
    {
      var k :| 0 <= k < |s| && s[k] == b;
      if i + 1 < |s| && s[i + 1].free {
        assert k < i ==> r[k] == b;
        assert k > i + 1 ==> r[k - 1] == b;
      }
    }
  }

  /** Cutting a block in two loses no other. */
  lemma CutHeld(s: seq<Blk>, i: nat, low: Blk, high: Blk)
    requires i < |s|
    ensures var cut := s[..i] + [low, high] + s[i + 1..];
      |cut| == |s| + 1 && cut[i] == low && cut[i + 1] == high && forall b :: b in s && b != s[i] ==> b in cut
  {
    var cut := s[..i] + [low, high] + s[i + 1..];
    forall b | b in s && b != s[i]
      ensures b in cut
    {
      var k :| 0 <= k < |s| && s[k] == b;
      if k < i { assert cut[k] == b; } else { assert cut[k + 1] == b; }
    }
  }

  lemma SplitHeld(s: seq<Blk>, i: nat, consumed: nat)
    requires i < |s| && consumed <= s[i].span
    ensures forall b :: b in s && !b.free && b != s[i] ==> b in SplitTrailing(s, i, consumed)
    ensures var r := SplitTrailing(s, i, consumed);
      i < |r| && r[i] == s[i].(span := r[i].span) && consumed <= r[i].span < consumed + MIN_SPAN
  {
    hide MergeNext;
    var rest := s[i].span - consumed;
    var low, high := s[i].(span := consumed), Blk(s[i].addr + consumed, rest, true, 0, 0);
    CutHeld(s, i, low, high);
    MergeHeld(s[..i] + [low, high] + s[i + 1..], i + 1);
  }

  lemma MarkHeld(s: seq<Blk>, i: nat, free: bool, user: nat, size: nat)
    requires i < |s|
    ensures forall b :: b in s && b != s[i] ==> b in Mark(s, i, free, user, size)
  {
    forall b | b in s && b != s[i]
      ensures b in Mark(s, i, free, user, size)
    {
      var k :| 0 <= k < |s| && s[k] == b;
      assert Mark(s, i, free, user, size)[k] == b;
    }
  }

  /** Handing out a place in a free block. */
  lemma AllocateHeld(s: seq<Blk>, i: nat, consumed: nat, user: nat, size: nat)
    requires i < |s| && s[i].free && consumed <= s[i].span
    requires s[i].addr + consumed < user + size + MIN_ALIGNMENT
    ensures var r := Allocate(s, i, consumed, user, size);
      KeepsAll(s, r) && TightAt(r, i, user, size) && r[i].addr == s[i].addr
  {
    SplitHeld(s, i, consumed);
    var split := SplitTrailing(s, i, consumed);
    hide SplitTrailing;
    MarkHeld(split, i, false, user, size);
  }

  lemma ReleaseHeld(s: seq<Blk>, i: nat)
    requires i < |s|
    ensures Keeps(s, Release(s, i), s[i].user)
  {
    var m := Mark(s, i, true, 0, 0);
    MarkHeld(s, i, true, 0, 0);
    MergeHeld(m, i);
    var merged := MergeNext(m, i);
    if i > 0 && merged[i - 1].free { MergeHeld(merged, i - 1); }
    hide MergeNext;
  }

  lemma ResizeHeld(s: seq<Blk>, i: nat, consumed: nat, size: nat)
    requires i < |s| && !s[i].free && consumed <= s[i].span && s[i].addr + consumed < s[i].user + size + MIN_ALIGNMENT
    ensures i < |SplitTrailing(s, i, consumed)|
    ensures var r := Mark(SplitTrailing(s, i, consumed), i, false, s[i].user, size);
      Keeps(s, r, s[i].user) && TightAt(r, i, s[i].user, size)
  {
    SplitHeld(s, i, consumed);
    var split := SplitTrailing(s, i, consumed);
    hide SplitTrailing;
    MarkHeld(split, i, false, s[i].user, size);
  }

  lemma GrowHeld(s: seq<Blk>, end: nat, growth: nat)
    ensures KeepsAll(s, Grow(s, end, growth))
  {
    var r := Grow(s, end, growth);
    forall b | b in s && !b.free
      ensures b in r
    {
      var k :| 0 <= k < |s| && s[k] == b;
      assert r[k] == b;
    }
  }

  // ---------- when a block has room ----------

  /** A place for the payload: aligned, behind header and tag, inside the block. */
  predicate PlaceAt(b: Blk, p: nat, size: nat, alignment: nat)
    requires alignment > 0
  {
    p % alignment == 0 && b.addr + HEADER + TAG <= p && p + size <= End(b)
  }

  lemma {:induction false} PowerDivides(v: nat, w: nat)
    requires IsPowerOfTwo(v) && IsPowerOfTwo(w) && v <= w
    ensures v > 0 && w % v == 0
  {
    if v > 1 {
      PowerDivides(v / 2, w / 2);
      var q := w / 2 / (v / 2);
      assert w / 2 == q * (v / 2);
      assert v == 2 * (v / 2) && w == 2 * (w / 2);
      assert w == q * v;
      MultipleMod(q, v);
    }
  }

  lemma TimesSixteen(v: nat)
    requires IsPowerOfTwo(v)
    ensures IsPowerOfTwo(16 * v)
  {
    assert IsPowerOfTwo(2 * v) by { assert 2 * v / 2 == v; }
    assert IsPowerOfTwo(4 * v) by { assert 4 * v / 2 == 2 * v; }
    assert IsPowerOfTwo(8 * v) by { assert 8 * v / 2 == 4 * v; }
    assert 16 * v / 2 == 8 * v;
  }

  lemma TimesPage(v: nat)
    requires IsPowerOfTwo(v)
    ensures IsPowerOfTwo(65536 * v)
  {
    hide IsPowerOfTwo;
    TimesSixteen(v);
    TimesSixteen(16 * v);
    TimesSixteen(256 * v);
    TimesSixteen(4096 * v);
  }

  lemma AddressSpace()
    ensures IsPowerOfTwo(UINTPTR_MAX + 1)
  {
    hide IsPowerOfTwo;
    One(1);
    TimesPage(1);
    TimesPage(0x1_0000);
    TimesPage(0x1_0000_0000);
    TimesPage(0x1_0000_0000_0000);
  }

  lemma One(v: nat)
    requires v == 1
    ensures IsPowerOfTwo(v)
  {
  }

  /** Multiples are in the order of their factors. */
  lemma Factors(q: int, r: int, unit: nat)
    requires unit > 0
    ensures q * unit < (r + 1) * unit ==> q <= r
    ensures q <= r ==> q * unit <= r * unit
  {
    var k := q - r - 1;
    NonNegative(k, unit);
    NonNegative(r - q, unit);
    assert k * unit == q * unit - (r + 1) * unit;
    assert (r - q) * unit == r * unit - q * unit;
  }

  lemma NonNegative(k: int, unit: nat)
    ensures k >= 0 ==> k * unit >= 0
  {
  }

  /** AlignUp is the least multiple, for any alignment. */
  lemma AlignUpFirst(v: nat, alignment: nat, p: nat)
    requires alignment > 0 && v <= p && p % alignment == 0
    ensures AlignUp(v, alignment) <= p
  {
    var q, r := (v + alignment - 1) / alignment, p / alignment;
    assert r * alignment == p && (r + 1) * alignment == p + alignment;
    Factors(q, r, alignment);
  }

  /** A block of the arena has room exactly when there is a place for the payload in it. */
  lemma RoomExactly(b: Blk, size: nat, alignment: nat)
    requires IsPowerOfTwo(alignment) && alignment <= UINTPTR_MAX && size <= UINTPTR_MAX
    requires 0 < b.addr && End(b) <= UINTPTR_MAX && b.span % MIN_ALIGNMENT == 0
    ensures Layout(b.addr, b.span, size, alignment).Room? <==> exists p :: PlaceAt(b, p, size, alignment)
  {
    hide IsPowerOfTwo, AlignUp;
    AddressSpace();
    PowerDivides(alignment, UINTPTR_MAX + 1);
    var lowest := b.addr + HEADER + TAG;
    AlignUpMultiple(lowest, alignment, alignment);
    if Layout(b.addr, b.span, size, alignment).Room? {
      assert PlaceAt(b, AlignUp(lowest, alignment), size, alignment);
    }
    if p :| PlaceAt(b, p, size, alignment) {
      AlignUpFirst(lowest, alignment, p);
      BelowTop(lowest, alignment, p);
      AlignUpLeast(AlignUp(lowest, alignment) + size - b.addr, b.span);
    }
  }

  /** Rounding up to an address that exists does not overflow. */
  lemma BelowTop(v: nat, alignment: nat, p: nat)
    requires alignment > 0 && (UINTPTR_MAX + 1) % alignment == 0 && v <= p <= UINTPTR_MAX && p % alignment == 0
    ensures v <= UINTPTR_MAX - (alignment - 1)
  {
    var q, r := (UINTPTR_MAX + 1) / alignment, p / alignment;
    assert q * alignment == UINTPTR_MAX + 1 && r * alignment == p;
    assert (r + 1) * alignment == p + alignment;
    Factors(q, r, alignment);
    Factors(r + 1, q, alignment);
  }
}
