/** Allocation bitmaps (tools/nsfs_host.c, nsfs_bitmap_*): bit i is bit i mod 8 of byte i div 8. */
module Bitmap {
  import opened Bytes

  function Pow2(k: nat): (p: nat)
    ensures p > 0
  {
    if k == 0 then 1 else 2 * Pow2(k - 1)
  }

  predicate ByteBit(x: byte, k: nat)
  {
    x / Pow2(k) % 2 == 1
  }

  predicate Test(bitmap: seq<byte>, bit: nat)
    requires bit < 8 * |bitmap|
  {
    ByteBit(bitmap[bit / 8], bit % 8)
  }

  /** The byte with bit k set. */
  function WithBit(x: nat, k: nat): nat
  {
    if x / Pow2(k) % 2 == 1 then x else x + Pow2(k)
  }

  /** Setting one bit sets that bit and no other. */
  lemma {:induction false} WithBitBits(x: nat, k: nat, j: nat)
    ensures WithBit(x, k) / Pow2(j) % 2 == 1 <==> j == k || x / Pow2(j) % 2 == 1
    decreases k
  {
    if k == 0 {
      if x % 2 == 0 {
        assert (x + 1) / 2 == x / 2;
        if j > 0 { HalvesFirst(x, j); HalvesFirst(x + 1, j); }
      }
    } else if j == 0 {
      HalvesFirst(x, k);
      assert (x + Pow2(k)) % 2 == x % 2;
    } else {
      HalvesFirst(x, k);
      WithBitHalf(x, k);
      HalvesFirst(x, j);
      HalvesFirst(WithBit(x, k), j);
      WithBitBits(x / 2, k - 1, j - 1);
    }
  }

  lemma WithBitHalf(x: nat, k: nat)
    requires k > 0
    ensures WithBit(x, k) / 2 == WithBit(x / 2, k - 1)
  {
    HalvesFirst(x, k);
    assert Pow2(k) == 2 * Pow2(k - 1);
    assert (x + 2 * Pow2(k - 1)) / 2 == x / 2 + Pow2(k - 1);
  }

  /** Dividing by a power of two can start with a halving. */
  lemma HalvesFirst(x: nat, k: nat)
    requires k > 0
    ensures x / Pow2(k) == x / 2 / Pow2(k - 1)
  {
    var p := Pow2(k - 1);
    var q, r := x / 2 / p, x / 2 % p;
    var s := 2 * r + x % 2;
    assert x == 2 * (x / 2) + x % 2;
    assert x / 2 == q * p + r;
    assert x == q * (2 * p) + s by {
      assert 2 * (q * p) == q * (2 * p);
    }
    QuotientIs(x, 2 * p, q, s);
  }

  lemma QuotientIs(x: nat, d: nat, q: nat, r: nat)
    requires d > 0 && x == q * d + r && r < d
    ensures x / d == q
  {
    var q', r' := x / d, x % d;
    assert x == q' * d + r';
    if q < q' { Spread(q, q', d); }
    if q' < q { Spread(q', q, d); }
  }

  lemma Spread(a: int, b: int, d: int)
    requires d > 0 && a < b
    ensures a * d + d <= b * d
  {
    assert (b - a - 1) * d >= 0;
  }

  lemma {:induction false} WithBitBound(x: nat, k: nat, n: nat)
    requires k < n && x < Pow2(n)
    ensures WithBit(x, k) < Pow2(n)
    decreases n
  {
    if k == 0 {
      assert Pow2(n) == 2 * Pow2(n - 1);
    } else {
      WithBitHalf(x, k);
      WithBitBound(x / 2, k - 1, n - 1);
    }
  }

  /** nsfs_bitmap_set on a buffer. */
  method Set(bitmap: array<byte>, bit: nat)
    requires bit < 8 * bitmap.Length
    modifies bitmap
    ensures forall j :: 0 <= j < 8 * bitmap.Length ==>
              (Test(bitmap[..], j) <==> j == bit || old(Test(bitmap[..], j)))
  {
    hide Pow2, WithBit;
    ghost var before := bitmap[..];
    WithBitByte(bitmap[bit / 8], bit % 8);
    bitmap[bit / 8] := WithBit(bitmap[bit / 8], bit % 8);
    forall j | 0 <= j < 8 * bitmap.Length
      ensures Test(bitmap[..], j) <==> j == bit || Test(before, j)
    {
      if j / 8 == bit / 8 {
        WithBitBits(before[bit / 8], bit % 8, j % 8);
      }
    }
  }

  lemma WithBitByte(x: byte, k: nat)
    requires k < 8
    ensures WithBit(x, k) < 256
  {
    PowerOfEight(8);
    WithBitBound(x, k, 8);
  }

  lemma PowerOfEight(n: nat)
    requires n == 8
    ensures Pow2(n) == 256
  {
    assert Pow2(n - 7) == 2;
    assert Pow2(n - 6) == 4;
    assert Pow2(n - 5) == 8;
    assert Pow2(n - 4) == 16;
    assert Pow2(n - 3) == 32;
    assert Pow2(n - 2) == 64;
    assert Pow2(n - 1) == 128;
  }

  /** The number of set bits among the first n. */
  function Count(bitmap: seq<byte>, n: nat): (c: nat)
    requires n <= 8 * |bitmap|
    ensures c <= n
  {
    if n == 0 then 0 else Count(bitmap, n - 1) + if Test(bitmap, n - 1) then 1 else 0
  }

  /** nsfs_bitmap_count. */
  method CountBits(bitmap: seq<byte>, n: nat) returns (count: nat)
    requires n <= 8 * |bitmap|
    ensures count == Count(bitmap, n)
  {
    count := 0;
    var bit := 0;
    while bit < n
      invariant 0 <= bit <= n && count == Count(bitmap, bit)
    {
      if Test(bitmap, bit) {
        count := count + 1;
      }
      bit := bit + 1;
    }
  }
}
