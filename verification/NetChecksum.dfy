/** The Internet checksum (kernel/net/net_checksum.c): a running 32-bit sum with an odd byte carried
    between chunks, against the one's-complement sum of section 1 of RFC 1071. */
module NetChecksum {
  import opened Bytes

  const WRAP: nat := 0x1_0000_0000
  const MASK: nat := 0xFFFF
  const MAX_WORDS: nat := 65537

  // ---------- the definition ----------

  /** A big-endian word. */
  function Word(high: byte, low: byte): (w: nat)
    ensures w <= MASK
  {
    256 * (high as int) + low
  }

  /** One's-complement addition of 16-bit words: the carry out of the top goes in at the bottom. */
  function OnesAdd(a: nat, b: nat): nat
  {
    if a + b > MASK then a + b - MASK else a + b
  }

  /** The one's-complement sum of the big-endian words; a last odd byte is padded with zero. */
  function OnesSum(b: seq<byte>): (s: nat)
    ensures s <= MASK
  {
    if b == [] then 0
    else if |b| == 1 then Word(b[0], 0)
    else OnesAdd(Word(b[0], b[1]), OnesSum(b[2..]))
  }

  /** The checksum of RFC 1071: the complement of that sum. */
  function Rfc1071(b: seq<byte>): nat
  {
    MASK - OnesSum(b)
  }

  // ---------- ordinary sums ----------

  /** The sum of the words as an ordinary number. */
  function WordSum(b: seq<byte>): nat
  {
    if b == [] then 0
    else if |b| == 1 then Word(b[0], 0)
    else Word(b[0], b[1]) + WordSum(b[2..])
  }

  lemma {:induction false} WordSumConcat(a: seq<byte>, b: seq<byte>)
    requires |a| % 2 == 0
    ensures WordSum(a + b) == WordSum(a) + WordSum(b)
  {
    if a == [] {
      assert a + b == b;
    } else {
      assert (a + b)[2..] == a[2..] + b;
      WordSumConcat(a[2..], b);
    }
  }

  lemma WordSumPair(a: seq<byte>, x: byte, y: byte)
    requires |a| % 2 == 0
    ensures WordSum(a + [x, y]) == WordSum(a) + Word(x, y)
  {
    WordSumConcat(a, [x, y]);
    assert [x, y][2..] == [];
  }

  lemma {:induction false} WordSumBound(b: seq<byte>)
    ensures WordSum(b) <= (|b| + 1) / 2 * MASK
  {
    if |b| > 1 { WordSumBound(b[2..]); }
  }

  /** The number in 1..65535 that a positive sum is equal to modulo 65535; nought for nought. */
  function Folded(n: nat): (r: nat)
    ensures r <= MASK
  {
    if n == 0 then 0 else (n - 1) % MASK + 1
  }

  lemma {:induction false} FoldedAdd(w: nat, n: nat)
    requires w <= MASK
    ensures OnesAdd(w, Folded(n)) == Folded(w + n)
  {
    if n > 0 {
      var q, r := (n - 1) / MASK, (n - 1) % MASK;
      assert n - 1 == q * MASK + r;
      if w + r >= MASK {
        FoldedIs(w + n, q + 1, w + r - MASK);
      } else {
        FoldedIs(w + n, q, w + r);
      }
    }
  }

  lemma FoldedIs(n: nat, q: nat, r: nat)
    requires n == q * MASK + r + 1 && r < MASK
    ensures Folded(n) == r + 1
  {
    assert (n - 1) % MASK == r;
  }

  /** End-around carry is arithmetic modulo 65535. */
  lemma {:induction false} OnesSumIsFolded(b: seq<byte>)
    ensures OnesSum(b) == Folded(WordSum(b))
  {
    hide Folded;
    if |b| < 2 {
      FoldedSmall(WordSum(b));
    } else {
      OnesSumIsFolded(b[2..]);
      FoldedAdd(Word(b[0], b[1]), WordSum(b[2..]));
    }
  }

  lemma FoldedSmall(n: nat)
    requires n <= MASK
    ensures Folded(n) == n
  {
  }

  /** One pass of the folding loop. */
  lemma FoldStep(n: nat)
    requires n > MASK
    ensures 0 < n % 65536 + n / 65536 < n && Folded(n % 65536 + n / 65536) == Folded(n)
  {
    var q, r := n / 65536, n % 65536;
    assert n - 1 == q * MASK + (q + r - 1);
    FoldedShift(q + r - 1, q);
  }

  lemma {:induction false} FoldedShift(m: nat, q: nat)
    ensures (q * MASK + m) % MASK == m % MASK
  {
    if q > 0 {
      FoldedShift(m, q - 1);
      assert q * MASK + m == (q - 1) * MASK + m + MASK;
    }
  }

  // ---------- the state ----------

  /** What the 32-bit sum comes to, wrap-around included. */
  function Wrapped(b: seq<byte>): nat
  {
    WordSum(b) % WRAP
  }

  /** The bytes of n that fill whole words. */
  function Even(n: nat): (m: nat)
    ensures m <= n
  {
    n - n % 2
  }

  lemma EvenIs(n: nat, m: nat)
    requires m % 2 == 0 && m <= n < m + 2
    ensures Even(n) == m && (n % 2 == 1 <==> m < n)
  {
  }

  lemma EvenCases(n: nat)
    ensures Even(n) == if n % 2 == 1 then n - 1 else n
    ensures n % 2 == 1 ==> (n + 1) % 2 == 0 && (n - 1) % 2 == 0
  {
  }

  class State {
    var sum: nat
    var oddByte: byte
    var hasOddByte: bool
    ghost var seen: seq<byte>    // every byte fed in so far

    /** The sum is that of the whole words seen, modulo 2^32; a last odd byte waits. */
    ghost predicate Valid()
      reads this
    {
      && (hasOddByte <==> |seen| % 2 == 1)
      && (hasOddByte ==> oddByte == seen[|seen| - 1])
      && sum == Wrapped(seen[..Even(|seen|)])
    }

    /** net_checksum_init. */
    constructor ()
      ensures Valid() && seen == []
    {
      sum := 0;
      oddByte := 0;
      hasOddByte := false;
      seen := [];
    }

    /** net_checksum_update: the state stands for the bytes seen, however they were cut up. */
    method Update(data: seq<byte>)
      requires Valid()
      modifies this
      ensures Valid() && seen == old(seen) + data
    {
      hide Wrapped, Word, Even;
      EvenCases(|seen|);
      if data == [] {
        assert seen + data == seen;
        return;
      }
      ghost var whole := seen + data;
      var index := 0;
      if hasOddByte {
        assert whole[..|seen| - 1] == seen[..Even(|seen|)];
        FeedPair(whole, |seen| - 1);
        sum := (sum + Word(oddByte, data[0])) % WRAP;
        hasOddByte := false;
        index := 1;
      } else {
        assert whole[..|seen|] == seen[..Even(|seen|)];
      }
      index := FeedWords(data, index);
      if index < |data| {
        oddByte := data[index];
        hasOddByte := true;
      }
      EvenIs(|whole|, |seen| + index);
      seen := whole;
    }

    /** The loop over whole words. */
    method FeedWords(data: seq<byte>, start: nat) returns (index: nat)
      requires start <= |data| && (|seen| + start) % 2 == 0 && sum == Wrapped((seen + data)[..|seen| + start])
      modifies this`sum
      ensures start <= index <= |data| < index + 2 && (|seen| + index) % 2 == 0
      ensures sum == Wrapped((seen + data)[..|seen| + index])
    {
      hide Wrapped, Word;
      ghost var whole := seen + data;
      index := start;
      while index + 1 < |data|
        invariant start <= index <= |data| && (|seen| + index) % 2 == 0
        invariant sum == Wrapped(whole[..|seen| + index])
      {
        FeedPair(whole, |seen| + index);
        sum := (sum + Word(data[index], data[index + 1])) % WRAP;
        index := index + 2;
      }
    }

    /** net_checksum_finalize. */
    method Finalize() returns (checksum: nat)
      requires Valid()
      ensures checksum == MASK - Folded(Wrapped(seen))
    {
      hide WordSum, Folded;
      var folded: nat := sum;
      assert seen == seen[..Even(|seen|)] + seen[Even(|seen|)..];
      WordSumConcat(seen[..Even(|seen|)], seen[Even(|seen|)..]);
      WordSumTail(seen[Even(|seen|)..]);
      if hasOddByte {
        AddWraps(WordSum(seen[..Even(|seen|)]), Word(oddByte, 0));
        folded := (folded + Word(oddByte, 0)) % WRAP;
      }
      while folded / 65536 != 0
        invariant Folded(folded) == Folded(Wrapped(seen))
        decreases folded
      {
        FoldStep(folded);
        folded := folded % 65536 + folded / 65536;
      }
      FoldedSmall(folded);
      return MASK - folded;
    }
  }

  lemma AddWraps(total: nat, word: nat)
    ensures (total % WRAP + word) % WRAP == (total + word) % WRAP
  {
  }

  lemma FeedPair(whole: seq<byte>, at: nat)
    requires at % 2 == 0 && at + 2 <= |whole|
    ensures Wrapped(whole[..at + 2]) == (Wrapped(whole[..at]) + Word(whole[at], whole[at + 1])) % WRAP
  {
    assert whole[..at + 2] == whole[..at] + [whole[at], whole[at + 1]];
    WordSumPair(whole[..at], whole[at], whole[at + 1]);
    AddWraps(WordSum(whole[..at]), Word(whole[at], whole[at + 1]));
  }

  lemma WordSumTail(b: seq<byte>)
    requires |b| < 2
    ensures WordSum(b) == if b == [] then 0 else Word(b[0], 0)
  {
  }

  /** net_checksum_compute. */
  method Compute(data: seq<byte>) returns (checksum: nat)
    ensures checksum == MASK - Folded(Wrapped(data))
    ensures (|data| + 1) / 2 <= MAX_WORDS ==> checksum == Rfc1071(data)
    ensures checksum == Rfc1071(data) <==> Exact(data)
  {
    hide Folded, Wrapped, Rfc1071, Exact;
    var state := new State();
    state.Update(data);
    assert state.seen == data;
    ExactExactly(data);
    ShortIsExact(data);
    checksum := state.Finalize();
  }

  /** net_checksum_is_valid. */
  method IsValid(data: seq<byte>) returns (valid: bool)
    ensures valid <==> Folded(Wrapped(data)) == MASK
    ensures (|data| + 1) / 2 <= MAX_WORDS ==> (valid <==> OnesSum(data) == MASK)
  {
    var checksum := Compute(data);
    return checksum == 0;
  }

  // ---------- when the 32-bit sum is enough ----------

  /** The carries lost off the top of the 32-bit sum number a multiple of 65535, and what is left is
      nought only if there was nothing to add. */
  predicate Exact(data: seq<byte>)
  {
    (WordSum(data) / WRAP) % MASK == 0 && (Wrapped(data) == 0 ==> WordSum(data) == 0)
  }

  /** The code computes the checksum of RFC 1071 on exactly those inputs. */
  lemma ExactExactly(data: seq<byte>)
    ensures MASK - Folded(Wrapped(data)) == Rfc1071(data) <==> Exact(data)
  {
    OnesSumIsFolded(data);
    FoldedDiffers(WordSum(data));
  }

  /** Losing k carries lowers the folded sum by k modulo 65535, since 2^32 is 1 there. */
  lemma FoldedDiffers(total: nat)
    ensures Folded(total % WRAP) == Folded(total) <==> (total / WRAP) % MASK == 0 && (total % WRAP == 0 ==> total == 0)
  {
    var k, rest := total / WRAP, total % WRAP;
    assert total == k * WRAP + rest;
    if rest > 0 {
      assert total - 1 == (k * 65537) * MASK + (k + (rest - 1));
      FoldedShift(k + (rest - 1), k * 65537);
      SameResidue(k, rest - 1);
    }
  }

  lemma SameResidue(k: nat, m: nat)
    ensures (k + m) % MASK == m % MASK <==> k % MASK == 0
  {
    var q, r := k / MASK, k % MASK;
    assert k + m == q * MASK + (r + m);
    FoldedShift(r + m, q);
    var p, s := m / MASK, m % MASK;
    assert r + m == p * MASK + (r + s);
    FoldedShift(r + s, p);
    assert (r + s) % MASK == if r + s < MASK then r + s else r + s - MASK;
  }

  /** Up to 65,537 words nothing is lost. */
  lemma ShortIsExact(data: seq<byte>)
    ensures (|data| + 1) / 2 <= MAX_WORDS ==> Exact(data)
  {
    WordSumBound(data);
    if (|data| + 1) / 2 <= MAX_WORDS {
      assert WordSum(data) <= MAX_WORDS * MASK < WRAP;
    }
  }

  /** One more word can lose a carry. */
  lemma OneWordTooMany(data: seq<byte>)
    requires |data| == 2 * (MAX_WORDS + 1) && forall i :: 0 <= i < |data| ==> data[i] == 255
    ensures MASK - Folded(Wrapped(data)) == 1 && Rfc1071(data) == 0
  {
    AllOnes(data);
    OnesSumIsFolded(data);
    FoldedIs(WordSum(data), MAX_WORDS, MASK - 1);
  }

  lemma {:induction false} AllOnes(data: seq<byte>)
    requires |data| % 2 == 0 && forall i :: 0 <= i < |data| ==> data[i] == 255
    ensures WordSum(data) == |data| / 2 * MASK
  {
    if data != [] { AllOnes(data[2..]); }
  }

  // ---------- storing the checksum ----------

  /** The bytes with a 16-bit word stored big-endian at `at`. */
  function Stored(data: seq<byte>, at: nat, value: nat): (r: seq<byte>)
    requires at + 2 <= |data| && value <= MASK
    ensures |r| == |data|
  {
    data[at := value / 256][at + 1 := value % 256]
  }

  lemma WordSumSplit(data: seq<byte>, at: nat)
    requires at % 2 == 0 && at + 2 <= |data|
    ensures WordSum(data) == WordSum(data[..at]) + Word(data[at], data[at + 1]) + WordSum(data[at + 2..])
  {
    assert data == data[..at] + data[at..] && data[at..][2..] == data[at + 2..];
    WordSumConcat(data[..at], data[at..]);
  }

  lemma StoredSum(data: seq<byte>, at: nat, value: nat)
    requires at % 2 == 0 && at + 2 <= |data| && value <= MASK && data[at] == data[at + 1] == 0
    ensures WordSum(Stored(data, at, value)) == WordSum(data) + value
  {
    hide WordSum;
    var r := Stored(data, at, value);
    WordSumSplit(data, at);
    WordSumSplit(r, at);
    assert r[..at] == data[..at] && r[at + 2..] == data[at + 2..];
  }

  /** A packet whose checksum was computed over a zeroed field and stored there verifies. */
  lemma StoredVerifies(data: seq<byte>, at: nat)
    requires at % 2 == 0 && at + 2 <= |data| && data[at] == data[at + 1] == 0
    ensures Rfc1071(Stored(data, at, Rfc1071(data))) == 0
  {
    hide OnesSum, WordSum, Folded, Stored;
    var c := Rfc1071(data);
    StoredSum(data, at, c);
    OnesSumIsFolded(data);
    OnesSumIsFolded(Stored(data, at, c));
    FoldedAdd(c, WordSum(data));
  }

  /** Adding its complement to a 32-bit sum loses no carry, since 2^32 - 1 is a multiple of 65535. */
  lemma NoWrap(m: nat)
    requires m < WRAP
    ensures m + (MASK - Folded(m)) < WRAP && Folded(m + (MASK - Folded(m))) == MASK
  {
    if m > 0 {
      var q, r := (m - 1) / MASK, (m - 1) % MASK;
      assert m - 1 == q * MASK + r;
      FoldedIs(m, q, r);
      assert q <= MAX_WORDS - 1 by { assert WRAP - 1 == MAX_WORDS * MASK; }
      FoldedIs(m + (MASK - Folded(m)), q, MASK - 1);
    } else {
      FoldedIs(MASK, 0, MASK - 1);
    }
  }

  /** So the code accepts what it produced, also where its sum is too long to be the RFC's checksum. */
  lemma StoredIsValid(data: seq<byte>, at: nat)
    requires at % 2 == 0 && at + 2 <= |data| && data[at] == data[at + 1] == 0
    ensures Folded(Wrapped(Stored(data, at, MASK - Folded(Wrapped(data))))) == MASK
  {
    hide WordSum, Folded, Stored;
    var m := Wrapped(data);
    var c := MASK - Folded(m);
    StoredSum(data, at, c);
    AddWraps(WordSum(data), c);
    NoWrap(m);
  }
}
