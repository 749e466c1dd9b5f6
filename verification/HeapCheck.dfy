/** What check_invariants_unlocked of the kernel heap (kernel/mm/heap.c) accepts. */
module HeapCheck {
  import opened HeapBlocks
  import opened HeapLinks
  import opened HeapLayout

  /** What the check asks of one block; the distance to the block's end wraps at 64 bits. */
  predicate Holds(b: Blk)
  {
    && b.addr != NULL && HEADER <= b.span && b.span % MIN_ALIGNMENT == 0
    && (!b.free ==> b.addr + HEADER < b.user && 0 < b.requested <= (End(b) - b.user) % (UINTPTR_MAX + 1))
  }

  /** The headers spell out the blocks s, which fill the committed arena and meet the check. */
  ghost predicate Intact(headers: map<nat, Header>, first: nat, last: nat, s: seq<Blk>, from: nat, to: nat)
  {
    && s != [] && first == s[0].addr == from && last == s[|s| - 1].addr && End(s[|s| - 1]) == to
    && HeadersMatch(headers, s)
    && (forall i :: 0 <= i < |s| ==> Holds(s[i]))
    && (forall i :: 0 < i < |s| ==> Adjacent(s, i))
    && Coalesced(s)
  }

  /** A sound, linked heap is intact. */
  lemma SoundIntact(headers: map<nat, Header>, s: seq<Blk>, from: nat, to: nat)
    requires s != [] && 0 < from && to <= UINTPTR_MAX && Sound(s, from, to) && Linked(headers, s)
    ensures Intact(headers, s[0].addr, s[|s| - 1].addr, s, from, to)
  {
    forall i | 0 <= i < |s|
      ensures Holds(s[i])
    {
      assert Placed(s[i]);
      FirstNotNull(s, from, to, i);
      if i < |s| - 1 { Ordered(s, from, to, i, |s| - 1); }
    }
  }

  function BlockOf(headers: map<nat, Header>, a: nat): Blk
    requires a in headers
  {
    Blk(a, headers[a].span, headers[a].free, headers[a].user, headers[a].requested)
  }

  /** The tests of one round of the loop. */
  predicate Passes(headers: map<nat, Header>, block: nat, expected: nat, previous: nat, to: nat)
  {
    && block == expected && block in headers && headers[block].live
    && Holds(BlockOf(headers, block))
    && headers[block].previous == previous
    && !(previous != NULL && previous in headers && headers[previous].free && headers[block].free)
    && expected + headers[block].span <= to
  }

  /** The blocks passed so far, and where the walk stands. */
  ghost predicate Partial(headers: map<nat, Header>, s: seq<Blk>, from: nat, expected: nat, previous: nat, block: nat)
  {
    && expected == (if s == [] then from else End(s[|s| - 1]))
    && previous == (if s == [] then NULL else s[|s| - 1].addr)
    && (if s == [] then block == from else s[0].addr == from)
    && (forall i :: 0 <= i < |s| ==> LinkedTo(headers, s, i, block) && Holds(s[i]))
    && (forall i :: 0 < i < |s| ==> Adjacent(s, i))
    && Coalesced(s)
  }

  ghost predicate LinkedTo(headers: map<nat, Header>, s: seq<Blk>, i: nat, next: nat)
    requires i < |s|
  {
    && s[i].addr in headers
    && headers[s[i].addr] == HeaderOf(s, i).(next := if i + 1 < |s| then s[i + 1].addr else next)
  }

  /** The walk along s, about to look at `block`, is the walk along t so far. */
  ghost predicate Leads(s: seq<Blk>, t: seq<Blk>, block: nat)
  {
    |s| <= |t| && t[..|s|] == s && block == if |s| < |t| then t[|s|].addr else NULL
  }

  lemma IntactStart(headers: map<nat, Header>, first: nat, last: nat, from: nat, to: nat)
    ensures forall t :: Intact(headers, first, last, t, from, to) ==> first != NULL && last != NULL && first == from
  {
  }

  lemma PartialEmpty(headers: map<nat, Header>, first: nat, last: nat, from: nat, to: nat)
    requires first == from
    ensures Partial(headers, [], from, from, NULL, first)
    ensures forall t :: Intact(headers, first, last, t, from, to) ==> Leads([], t, first)
  {
  }

  lemma PartialExtend(headers: map<nat, Header>, s: seq<Blk>, from: nat, to: nat, expected: nat, previous: nat,
                      block: nat)
    requires Partial(headers, s, from, expected, previous, block) && Passes(headers, block, expected, previous, to)
    ensures Partial(headers, s + [BlockOf(headers, block)], from, expected + headers[block].span, block,
      headers[block].next)
    ensures 0 < headers[block].span
  {
    var r := s + [BlockOf(headers, block)];
    forall i | 0 <= i < |r|
      ensures LinkedTo(headers, r, i, headers[block].next) && Holds(r[i])
    {
      if i < |s| {
        assert LinkedTo(headers, s, i, block);
      }
    }
    forall i | 0 < i < |r|
      ensures Adjacent(r, i) && NotBothFree(r, i)
    {
      if i < |s| {
        assert Adjacent(s, i) && NotBothFree(s, i);
      } else {
        assert LinkedTo(headers, s, i - 1, block) && Holds(s[i - 1]);
      }
    }
  }

  lemma NotNull(b: Blk)
    requires Holds(b)
    ensures b.addr != NULL
  {
  }

  lemma {:induction false} EndsBelow(t: seq<Blk>, k: nat)
    requires k < |t| && forall i :: 0 < i < |t| ==> Adjacent(t, i)
    ensures End(t[k]) <= End(t[|t| - 1])
    decreases |t| - k
  {
    if k + 1 < |t| {
      assert Adjacent(t, k + 1);
      EndsBelow(t, k + 1);
    }
  }

  /** If some sequence is intact, the block the walk looks at is its next one, and passes. */
  lemma Forced(headers: map<nat, Header>, first: nat, last: nat, s: seq<Blk>, t: seq<Blk>, from: nat, to: nat,
               expected: nat, previous: nat, block: nat)
    requires Partial(headers, s, from, expected, previous, block) && block != NULL
    requires Intact(headers, first, last, t, from, to) && Leads(s, t, block)
    ensures Passes(headers, block, expected, previous, to)
    ensures Leads(s + [BlockOf(headers, block)], t, headers[block].next)
  {
    ForcedPasses(headers, first, last, s, t, from, to, expected, previous, block);
    assert HeaderMatches(headers, t, |s|);
    LeadsOn(headers, s, t, block);
  }

  lemma LeadsOn(headers: map<nat, Header>, s: seq<Blk>, t: seq<Blk>, block: nat)
    requires Leads(s, t, block) && block != NULL && HeaderMatches(headers, t, |s|)
    ensures Leads(s + [BlockOf(headers, block)], t, headers[block].next)
  {
    assert t[..|s| + 1] == s + [t[|s|]];
  }

  lemma ForcedPasses(headers: map<nat, Header>, first: nat, last: nat, s: seq<Blk>, t: seq<Blk>, from: nat, to: nat,
                     expected: nat, previous: nat, block: nat)
    requires Partial(headers, s, from, expected, previous, block) && block != NULL
    requires Intact(headers, first, last, t, from, to) && Leads(s, t, block)
    ensures Passes(headers, block, expected, previous, to)
  {
    var k := |s|;
    assert HeaderMatches(headers, t, k) && Holds(t[k]);
    hide Holds;
    EndsBelow(t, k);
    if k > 0 {
      assert t[k - 1] == s[k - 1];
      NotNull(t[k - 1]);
      assert Adjacent(t, k) && NotBothFree(t, k) && LinkedTo(headers, s, k - 1, block);
    }
  }

  lemma Finished(headers: map<nat, Header>, first: nat, last: nat, s: seq<Blk>, from: nat, to: nat,
                 expected: nat, previous: nat)
    requires Partial(headers, s, from, expected, previous, NULL) && first == from && first != NULL && last != NULL
    requires forall t :: Intact(headers, first, last, t, from, to) ==> Leads(s, t, NULL)
    ensures previous == last && expected == to <==> exists t :: Intact(headers, first, last, t, from, to)
  {
    if previous == last && expected == to {
      forall i | 0 <= i < |s|
        ensures HeaderMatches(headers, s, i)
      {
        assert LinkedTo(headers, s, i, NULL);
      }
      assert Intact(headers, first, last, s, from, to);
    }
    forall t | Intact(headers, first, last, t, from, to)
      ensures previous == last && expected == to
    {
      assert |s| < |t| ==> Holds(t[|s|]);
      assert t == s;
    }
  }
}
