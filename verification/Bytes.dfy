/** Bytes, little-endian integers and packed records.

    An on-disk structure of the source is a packed C struct.  Here it is a table of field
    widths and a sequence of field values; encoding and decoding are proved inverse once,
    for every table. */
module Bytes {

  type byte = x: int | 0 <= x < 256

  /** 256 to the power n: the number of values an n-byte integer can take. */
  function Pow256(n: nat): (p: nat)
    ensures p > 0
  {
    if n == 0 then 1 else 256 * Pow256(n - 1)
  }

  function EncodeLE(width: nat, v: nat): (b: seq<byte>)
    ensures |b| == width
  {
    if width == 0 then [] else [v % 256] + EncodeLE(width - 1, v / 256)
  }

  function DecodeLE(b: seq<byte>): (v: nat)
  {
    if b == [] then 0 else b[0] + 256 * DecodeLE(b[1..])
  }

  lemma {:induction false} DecodeEncodeLE(width: nat, v: nat)
    requires v < Pow256(width)
    ensures DecodeLE(EncodeLE(width, v)) == v
  {
    if width > 0 {
      var b := EncodeLE(width, v);
      assert b[1..] == EncodeLE(width - 1, v / 256);
      DecodeEncodeLE(width - 1, v / 256);
    }
  }

  lemma {:induction false} EncodeDecodeLE(b: seq<byte>)
    ensures DecodeLE(b) < Pow256(|b|)
    ensures EncodeLE(|b|, DecodeLE(b)) == b
  {
    if b != [] {
      var rest := DecodeLE(b[1..]);
      EncodeDecodeLE(b[1..]);
      assert (b[0] + 256 * rest) % 256 == b[0] && (b[0] + 256 * rest) / 256 == rest;
      assert b == [b[0]] + b[1..];
    }
  }

  /** Where field n of a record starts: the widths of the fields before it. */
  function Offset(widths: seq<nat>, n: nat): nat
    requires n <= |widths|
    decreases n
  {
    if n == 0 then 0 else Offset(widths, n - 1) + widths[n - 1]
  }

  /** Every value fits its field. */
  predicate Fits(widths: seq<nat>, values: seq<nat>)
  {
    |values| == |widths| && forall i :: 0 <= i < |widths| ==> values[i] < Pow256(widths[i])
  }

  lemma FitsConcat(w: seq<nat>, v: seq<nat>, w': seq<nat>, v': seq<nat>)
    requires Fits(w, v) && Fits(w', v')
    ensures Fits(w + w', v + v')
  {
    hide Pow256;
  }

  /** The first n fields, packed. */
  function Encode(widths: seq<nat>, values: seq<nat>, n: nat): (b: seq<byte>)
    requires n <= |values| == |widths|
    ensures |b| == Offset(widths, n)
    decreases n
  {
    if n == 0 then [] else Encode(widths, values, n - 1) + EncodeLE(widths[n - 1], values[n - 1])
  }

  function Size(widths: seq<nat>): nat
  {
    Offset(widths, |widths|)
  }

  lemma {:induction false} OffsetConcat(a: seq<nat>, b: seq<nat>, n: nat)
    requires n <= |b|
    ensures Offset(a + b, |a| + n) == Size(a) + Offset(b, n)
    decreases n
  {
    if n == 0 {
      OffsetPrefix(a, a + b, |a|);
    } else {
      OffsetConcat(a, b, n - 1);
    }
  }

  lemma {:induction false} OffsetPrefix(a: seq<nat>, b: seq<nat>, n: nat)
    requires n <= |a| && a <= b
    ensures Offset(a, n) == Offset(b, n)
    decreases n
  {
    if n > 0 {
      OffsetPrefix(a, b, n - 1);
    }
  }

  lemma SizeConcat(a: seq<nat>, b: seq<nat>)
    ensures Size(a + b) == Size(a) + Size(b)
  {
    OffsetConcat(a, b, |b|);
  }

  lemma SizeOfFive(a: nat, b: nat, c: nat, d: nat, e: nat)
    ensures Size([a, b, c, d, e]) == a + b + c + d + e
  {
    var w := [a, b, c, d, e];
    assert Offset(w, 2) == a + b;
    assert Offset(w, 4) == a + b + c + d;
  }

  function Pack(widths: seq<nat>, values: seq<nat>): (b: seq<byte>)
    requires |values| == |widths|
    ensures |b| == Size(widths)
  {
    Encode(widths, values, |widths|)
  }

  lemma {:induction false} OffsetMonotone(widths: seq<nat>, i: nat, n: nat)
    requires i <= n <= |widths|
    ensures Offset(widths, i) <= Offset(widths, n)
    decreases n
  {
    if i < n {
      OffsetMonotone(widths, i, n - 1);
    }
  }

  function Field(widths: seq<nat>, b: seq<byte>, i: nat): nat
    requires i < |widths| && Size(widths) <= |b|
  {
    OffsetMonotone(widths, i + 1, |widths|);
    DecodeLE(b[Offset(widths, i)..Offset(widths, i + 1)])
  }

  /** The fields of the record that b starts with. */
  function Unpack(widths: seq<nat>, b: seq<byte>): (values: seq<nat>)
    requires Size(widths) <= |b|
    ensures |values| == |widths|
  {
    seq(|widths|, i requires 0 <= i < |widths| => Field(widths, b, i))
  }

  lemma SliceFirst<T>(a: seq<T>, b: seq<T>, lo: nat, hi: nat)
    requires lo <= hi <= |a|
    ensures (a + b)[lo..hi] == a[lo..hi]
  {
  }

  lemma SliceSecond<T>(a: seq<T>, b: seq<T>)
    ensures (a + b)[|a|..|a| + |b|] == b
  {
  }

  lemma {:induction false} EncodedField(widths: seq<nat>, values: seq<nat>, n: nat, i: nat)
    requires i < n <= |values| == |widths|
    ensures Offset(widths, i) <= Offset(widths, i + 1) <= Offset(widths, n)
    ensures Encode(widths, values, n)[Offset(widths, i)..Offset(widths, i + 1)]
         == EncodeLE(widths[i], values[i])
    decreases n
  {
    hide EncodeLE;
    var head, field := Encode(widths, values, n - 1), EncodeLE(widths[n - 1], values[n - 1]);
    if i == n - 1 {
      SliceSecond(head, field);
    } else {
      EncodedField(widths, values, n - 1, i);
      SliceFirst(head, field, Offset(widths, i), Offset(widths, i + 1));
    }
  }

  /** Packing and reading back is the identity, whatever follows the record. */
  lemma UnpackPack(widths: seq<nat>, values: seq<nat>, rest: seq<byte>)
    requires Fits(widths, values)
    ensures Unpack(widths, Pack(widths, values) + rest) == values
  {
    var record := Pack(widths, values);
    forall i | 0 <= i < |widths|
      ensures Field(widths, record + rest, i) == values[i]
    {
      hide EncodeLE, DecodeLE, Pow256;
      EncodedField(widths, values, |widths|, i);
      SliceFirst(record, rest, Offset(widths, i), Offset(widths, i + 1));
      DecodeEncodeLE(widths[i], values[i]);
    }
  }

  lemma {:induction false} EncodeUnpacked(widths: seq<nat>, b: seq<byte>, n: nat)
    requires n <= |widths| && Size(widths) <= |b|
    ensures Offset(widths, n) <= |b|
    ensures Encode(widths, Unpack(widths, b), n) == b[..Offset(widths, n)]
    decreases n
  {
    OffsetMonotone(widths, n, |widths|);
    if n > 0 {
      var lo, hi := Offset(widths, n - 1), Offset(widths, n);
      EncodeUnpacked(widths, b, n - 1);
      assert Unpack(widths, b)[n - 1] == DecodeLE(b[lo..hi]);
      assert b[..hi] == b[..lo] + b[lo..hi];
      hide DecodeLE, EncodeLE, Unpack, Pow256;
      EncodeDecodeLE(b[lo..hi]);
    }
  }

  /** Reading and packing again is the identity: a record has no bytes outside its fields. */
  lemma PackUnpack(widths: seq<nat>, b: seq<byte>)
    requires Size(widths) <= |b|
    ensures Fits(widths, Unpack(widths, b))
    ensures Pack(widths, Unpack(widths, b)) == b[..Size(widths)]
  {
    EncodeUnpacked(widths, b, |widths|);
    forall i | 0 <= i < |widths|
      ensures Unpack(widths, b)[i] < Pow256(widths[i])
    {
      hide DecodeLE, EncodeLE, Pow256, Pack;
      OffsetMonotone(widths, i + 1, |widths|);
      EncodeDecodeLE(b[Offset(widths, i)..Offset(widths, i + 1)]);
    }
  }

  predicate AllZero(b: seq<byte>)
  {
    forall i :: 0 <= i < |b| ==> b[i] == 0
  }

  function Zeros(n: nat): (b: seq<byte>)
    ensures |b| == n && AllZero(b)
  {
    seq(n, _ => 0)
  }
}
