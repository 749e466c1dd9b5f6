/** The arithmetic of the kernel heap (kernel/mm/heap.c): alignment, where an allocation goes in a
    block, and how much to grow, with the source's 64-bit overflow tests. */
module HeapLayout {
  import opened HeapBlocks

  const PAGE_SIZE: nat := 4096
  const UINTPTR_MAX: nat := 0xFFFF_FFFF_FFFF_FFFF

  predicate IsPowerOfTwo(v: nat)
  {
    v == 1 || (v != 0 && v % 2 == 0 && IsPowerOfTwo(v / 2))
  }

  /** The least multiple of the alignment that is not below v. */
  function AlignUp(v: nat, alignment: nat): (r: nat)
    requires alignment > 0
    ensures v <= r < v + alignment
  {
    (v + alignment - 1) / alignment * alignment
  }

  lemma AlignUpMultiple(v: nat, alignment: nat, unit: nat)
    requires alignment > 0 && unit > 0 && alignment % unit == 0
    ensures AlignUp(v, alignment) % unit == 0
  {
    var q, m := (v + alignment - 1) / alignment, alignment / unit;
    assert alignment == m * unit;
    assert q * alignment == (q * m) * unit by {
      assert q * (m * unit) == (q * m) * unit;
    }
    MultipleMod(q * m, unit);
  }

  lemma MultipleMod(q: nat, unit: nat)
    requires unit > 0
    ensures (q * unit) % unit == 0
  {
    var d, r := q * unit / unit, (q * unit) % unit;
    assert (q - d) * unit == r;
    NonZeroMultiple(q - d, unit);
  }

  lemma NonZeroMultiple(k: int, unit: int)
    requires unit > 0
    ensures k >= 1 ==> k * unit >= unit
    ensures k <= -1 ==> k * unit <= -unit
  {
  }

  /** AlignUp is the least such multiple. */
  lemma AlignUpLeast(v: nat, bound: nat)
    requires v <= bound && bound % MIN_ALIGNMENT == 0
    ensures AlignUp(v, MIN_ALIGNMENT) <= bound
  {
    var q, b := (v + MIN_ALIGNMENT - 1) / MIN_ALIGNMENT, bound / MIN_ALIGNMENT;
    assert q <= b;
  }

  lemma PowerOfTwoUnit(v: nat)
    requires IsPowerOfTwo(v) && v >= 16
    ensures v % 16 == 0
  {
    assert IsPowerOfTwo(v / 2) && IsPowerOfTwo(v / 2 / 2) && IsPowerOfTwo(v / 2 / 2 / 2);
  }

  lemma SmallPower(v: nat)
    requires IsPowerOfTwo(v) && v < 16
    ensures v > 0 && 16 % v == 0
  {
    assert v == 1 || (v % 2 == 0 && IsPowerOfTwo(v / 2));
    assert v <= 2 || (v / 2 % 2 == 0 && IsPowerOfTwo(v / 2 / 2));
    assert v <= 4 || v / 2 / 2 % 2 == 0;
  }

  lemma Sixteen(v: nat)
    requires v == 16
    ensures IsPowerOfTwo(v)
  {
    assert IsPowerOfTwo(v / 2 / 2 / 2 / 2);
    assert IsPowerOfTwo(v / 2 / 2 / 2);
    assert IsPowerOfTwo(v / 2 / 2);
    assert IsPowerOfTwo(v / 2);
  }

  /** What ns_kheap_alloc_aligned makes of the alignment asked for. */
  function AlignmentFor(requested: nat): (r: nat)
    ensures r >= MIN_ALIGNMENT && (requested <= UINTPTR_MAX ==> r <= UINTPTR_MAX)
  {
    if requested < MIN_ALIGNMENT then MIN_ALIGNMENT else requested
  }

  /** The alignment used is a power of two, and its multiples are multiples of the one asked for. */
  lemma AlignmentUsed(requested: nat, p: nat)
    requires IsPowerOfTwo(requested)
    ensures IsPowerOfTwo(AlignmentFor(requested)) && requested > 0
    ensures p % AlignmentFor(requested) == 0 ==> p % requested == 0 && p % MIN_ALIGNMENT == 0
  {
    var alignment := AlignmentFor(requested);
    Sixteen(MIN_ALIGNMENT);
    if requested < MIN_ALIGNMENT {
      SmallPower(requested);
      hide IsPowerOfTwo;
      if p % alignment == 0 { MultipleDivides(p, alignment, requested); }
    } else {
      PowerOfTwoUnit(requested);
      hide IsPowerOfTwo;
      if p % alignment == 0 { MultipleDivides(p, alignment, MIN_ALIGNMENT); }
    }
  }

  lemma MultipleDivides(p: nat, alignment: nat, unit: nat)
    requires alignment > 0 && unit > 0 && p % alignment == 0 && alignment % unit == 0
    ensures p % unit == 0
  {
    var q, m := p / alignment, alignment / unit;
    assert p == q * alignment && alignment == m * unit;
    assert q * (m * unit) == (q * m) * unit;
    MultipleMod(q * m, unit);
  }

  /** Whole pages are whole alignment units, and add up to whole pages. */
  lemma WholePages(a: nat, b: nat)
    requires a % PAGE_SIZE == 0 && b % PAGE_SIZE == 0
    ensures (a + b) % PAGE_SIZE == 0 && b % MIN_ALIGNMENT == 0
  {
  }

  lemma WholePagesLeft(a: nat, b: nat)
    requires a % PAGE_SIZE == 0 && b % PAGE_SIZE == 0 && b <= a
    ensures (a - b) % PAGE_SIZE == 0
  {
  }

  datatype Placement = NoRoom | Room(pointer: nat, consumed: nat)

  /** allocation_layout. */
  function Layout(base: nat, span: nat, size: nat, alignment: nat): Placement
    requires alignment > 0
  {
    if base > UINTPTR_MAX - HEADER - TAG then NoRoom
    else if base + HEADER + TAG > UINTPTR_MAX - (alignment - 1) then NoRoom
    else
      var pointer := AlignUp(base + HEADER + TAG, alignment);
      if pointer > UINTPTR_MAX - size then NoRoom
      else
        var used := pointer + size - base;
        if used > UINTPTR_MAX - (MIN_ALIGNMENT - 1) then NoRoom
        else
          var consumed := AlignUp(used, MIN_ALIGNMENT);
          if consumed > span then NoRoom else Room(pointer, consumed)
  }

  /** Where there is room, the allocation is aligned as asked and inside the block. */
  lemma LayoutPlaces(base: nat, span: nat, size: nat, alignment: nat)
    requires IsPowerOfTwo(alignment) && alignment >= MIN_ALIGNMENT && size > 0
    requires Layout(base, span, size, alignment).Room?
    ensures var Room(p, c) := Layout(base, span, size, alignment);
      && p % alignment == 0
      && 96 <= c <= span && c % MIN_ALIGNMENT == 0
      && Placed(Blk(base, c, false, p, size))
  {
    hide AlignUp, IsPowerOfTwo;
    PowerOfTwoUnit(alignment);
    AlignUpMultiple(base + HEADER + TAG, alignment, alignment);
    AlignUpMultiple(base + HEADER + TAG, alignment, MIN_ALIGNMENT);
    var p := AlignUp(base + HEADER + TAG, alignment);
    AlignUpMultiple(p + size - base, MIN_ALIGNMENT, MIN_ALIGNMENT);
  }

  /** Nothing is wasted: the payload starts at the first aligned address, and less than a unit is taken
      behind it. */
  lemma LayoutThrift(base: nat, span: nat, size: nat, alignment: nat)
    requires alignment > 0 && Layout(base, span, size, alignment).Room?
    ensures var Room(p, c) := Layout(base, span, size, alignment);
      p < base + HEADER + TAG + alignment && base + c < p + size + MIN_ALIGNMENT
  {
    hide AlignUp;
  }

  /** A block of header, tag, size and alignment bytes always has room. */
  lemma LayoutFits(base: nat, span: nat, size: nat, alignment: nat)
    requires alignment > 0 && base + span <= UINTPTR_MAX && span % MIN_ALIGNMENT == 0
    requires HEADER + TAG + size + alignment <= span && base >= MIN_ALIGNMENT
    ensures Layout(base, span, size, alignment).Room?
  {
    hide AlignUp;
    var p := AlignUp(base + HEADER + TAG, alignment);
    AlignUpLeast(p + size - base, span);
  }

  datatype Growth = NoGrowth | By(bytes: nat, pages: nat)

  /** How far grow_heap grows: whole pages, at least the minimum, cut to what is left. */
  function PlanGrowth(minimum: nat, minimumPages: nat, remaining: nat): Growth
  {
    if minimum > UINTPTR_MAX - (PAGE_SIZE - 1) then NoGrowth
    else
      var needed := (minimum + PAGE_SIZE - 1) / PAGE_SIZE;
      var pages := if needed < minimumPages then minimumPages else needed;
      if pages > UINTPTR_MAX / PAGE_SIZE then NoGrowth
      else
        var growth := pages * PAGE_SIZE;
        var bytes := if growth > remaining then remaining else growth;
        var finalPages := if growth > remaining then remaining / PAGE_SIZE else pages;
        if bytes < minimum || finalPages == 0 then NoGrowth else By(bytes, finalPages)
  }

  function PagesFor(minimum: nat, minimumPages: nat, remaining: nat): nat
  {
    match PlanGrowth(minimum, minimumPages, remaining)
    case By(_, pages) => pages
    case NoGrowth => 0
  }

  lemma GrowthShape(minimum: nat, minimumPages: nat, remaining: nat)
    requires 0 < minimum && remaining % PAGE_SIZE == 0
    requires PlanGrowth(minimum, minimumPages, remaining).By?
    ensures var By(bytes, pages) := PlanGrowth(minimum, minimumPages, remaining);
      minimum <= bytes <= remaining && bytes == pages * PAGE_SIZE && bytes % PAGE_SIZE == 0 && pages > 0
  {
  }

  lemma GrowthPagesBound(minimum: nat, minimumPages: nat, remaining: nat)
    requires PlanGrowth(minimum, minimumPages, remaining).By?
    ensures minimumPages <= UINTPTR_MAX / PAGE_SIZE
  {
  }

  /** Growth is refused exactly when too little of the arena is left. */
  lemma GrowthExactly(minimum: nat, minimumPages: nat, remaining: nat)
    requires 0 < minimum && remaining % PAGE_SIZE == 0 && remaining <= UINTPTR_MAX - PAGE_SIZE
    requires minimumPages <= UINTPTR_MAX / PAGE_SIZE
    ensures PlanGrowth(minimum, minimumPages, remaining).NoGrowth? <==> remaining < minimum
  {
  }
}
