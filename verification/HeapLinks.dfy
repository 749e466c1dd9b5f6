/** The headers of the kernel heap (kernel/mm/heap.c): a doubly linked list in memory that
    spells out the sequence of blocks, kept so by every pointer update. */
module HeapLinks {
  import opened Bytes
  import opened HeapBlocks

  const NULL: nat := 0

  const OK: int := 0
  const EINVAL: int := -1
  const ENOMEM: int := -2
  const ECORRUPT: int := -3
  const EDOUBLEFREE: int := -4

  /** struct ns_kheap_block; `live` says whether the magic is the live one. */
  datatype Header = Header(live: bool, span: nat, requested: nat, user: nat, previous: nat, next: nat, free: bool)

  /** struct allocation_tag. */
  datatype Tag = Tag(cookie: nat, block: nat, requested: nat)

  /** A byte of the arena: caller data, or part of a header or a tag. */
  datatype Cell = Data(value: byte) | Meta

  /** The header of block i, given its neighbours. */
  function HeaderOf(s: seq<Blk>, i: nat): Header
    requires i < |s|
  {
    Header(true, s[i].span, s[i].requested, s[i].user,
           if i > 0 then s[i - 1].addr else NULL,
           if i + 1 < |s| then s[i + 1].addr else NULL,
           s[i].free)
  }

  ghost predicate HeadersMatch(headers: map<nat, Header>, s: seq<Blk>)
  {
    && (forall i :: 0 <= i < |s| ==> s[i].addr in headers)
    && (forall i :: 0 <= i < |s| ==> HeaderMatches(headers, s, i))
  }

  ghost predicate HeaderMatches(headers: map<nat, Header>, s: seq<Blk>, i: nat)
    requires i < |s|
  {
    s[i].addr in headers && headers[s[i].addr] == HeaderOf(s, i)
  }

  ghost predicate OnChain(s: seq<Blk>, a: nat)
  {
    exists i :: 0 <= i < |s| && s[i].addr == a
  }

  /** The chain of headers is the sequence of blocks, and no other header is live. */
  ghost predicate Linked(headers: map<nat, Header>, s: seq<Blk>)
  {
    && HeadersMatch(headers, s)
    && (forall a :: a in headers && headers[a].live ==> OnChain(s, a))
  }

  /** Byte a belongs to a header of the chain. */
  ghost predicate HeaderByte(s: seq<Blk>, a: nat)
  {
    exists i :: 0 <= i < |s| && s[i].addr <= a < s[i].addr + HEADER_BYTES
  }

  /** Fresh pages: zeroed bytes at [lo, hi). */
  function Zeroed(memory: map<nat, Cell>, lo: nat, hi: nat): (r: map<nat, Cell>)
    ensures forall x :: x in r <==> x in memory || lo <= x < hi
    ensures forall x :: x in memory && !(lo <= x < hi) ==> r[x] == memory[x]
  {
    memory + map x: nat | lo <= x < hi && Between(lo, hi, x) :: Data(0)
  }

  predicate Between(lo: nat, hi: nat, x: nat) { lo <= x < hi }

  lemma HeaderBytes(s: seq<Blk>, i: nat)
    requires i < |s|
    ensures forall a :: s[i].addr <= a < s[i].addr + HEADER_BYTES ==> HeaderByte(s, a)
  {
  }

  /** Storing metadata at [a, a + n). */
  function Clobber(memory: map<nat, Cell>, a: nat, n: nat): (r: map<nat, Cell>)
    ensures r.Keys == memory.Keys
    ensures forall x :: x in memory ==> r[x] == if a <= x < a + n then Meta else memory[x]
  {
    map x | x in memory :: if a <= x < a + n then Meta else memory[x]
  }

  // ---------- relinking ----------

  /** Address a lies beyond the neighbours of the blocks from lo up to hi. */
  predicate Outside(s: seq<Blk>, lo: nat, hi: nat, a: nat)
    requires lo <= hi <= |s|
  {
    (lo > 0 && a < s[lo - 1].addr) || (hi < |s| && s[hi].addr < a)
  }

  /** The blocks from lo up to hi were replaced by mid: the new blocks and their neighbours have
      the right headers, and headers beyond are as before. */
  ghost predicate Relinked(headers: map<nat, Header>, s: seq<Blk>, lo: nat, hi: nat, mid: seq<Blk>,
                           headers': map<nat, Header>)
    requires lo <= hi <= |s|
  {
    var r := s[..lo] + mid + s[hi..];
    && (forall j :: 0 <= j < |r| && lo - 1 <= j <= lo + |mid| ==> HeaderMatches(headers', r, j))
    && (forall a :: a in headers && Outside(s, lo, hi, a) ==> a in headers' && headers'[a] == headers[a])
  }

  /** No header became live but those of mid, and those of the replaced blocks died otherwise. */
  ghost predicate Retired(headers: map<nat, Header>, s: seq<Blk>, lo: nat, hi: nat, mid: seq<Blk>,
                          headers': map<nat, Header>)
    requires lo <= hi <= |s|
  {
    && (forall a :: a in headers' && headers'[a].live ==> (a in headers && headers[a].live) || OnChain(mid, a))
    && (forall k :: lo <= k < hi ==>
          s[k].addr !in headers' || !headers'[s[k].addr].live || OnChain(mid, s[k].addr))
  }

  lemma Relink(headers: map<nat, Header>, s: seq<Blk>, from: nat, to: nat, lo: nat, hi: nat,
               mid: seq<Blk>, headers': map<nat, Header>)
    requires Tiled(s, from, to) && HeadersMatch(headers, s) && lo <= hi <= |s|
    requires Relinked(headers, s, lo, hi, mid, headers')
    ensures HeadersMatch(headers', s[..lo] + mid + s[hi..])
  {
    hide Tiled;
    var r, d := s[..lo] + mid + s[hi..], hi - lo - |mid|;
    forall j | 0 <= j < |r|
      ensures r[j].addr in headers' && HeaderMatches(headers', r, j)
    {
      if lo - 1 <= j <= lo + |mid| {
        assert HeaderMatches(headers', r, j);
      } else if j < lo - 1 {
        assert r[j] == s[j] && r[j + 1] == s[j + 1] && (j > 0 ==> r[j - 1] == s[j - 1]);
        assert HeaderMatches(headers, s, j);
        Addresses(s, from, to, j, lo - 1);
      } else {
        assert r[j] == s[j + d] && r[j - 1] == s[j - 1 + d] && (j + 1 < |r| ==> r[j + 1] == s[j + 1 + d]);
        assert HeaderMatches(headers, s, j + d);
        Addresses(s, from, to, hi, j + d);
      }
    }
  }

  lemma Retire(headers: map<nat, Header>, s: seq<Blk>, lo: nat, hi: nat, mid: seq<Blk>, headers': map<nat, Header>)
    requires Linked(headers, s) && lo <= hi <= |s| && Retired(headers, s, lo, hi, mid, headers')
    ensures forall a :: a in headers' && headers'[a].live ==> OnChain(s[..lo] + mid + s[hi..], a)
  {
    hide HeadersMatch;
    var r, d := s[..lo] + mid + s[hi..], hi - lo - |mid|;
    forall a | a in headers' && headers'[a].live
      ensures OnChain(r, a)
    {
      if OnChain(mid, a) {
        var m :| 0 <= m < |mid| && mid[m].addr == a;
        assert r[lo + m] == mid[m];
      } else {
        assert OnChain(s, a);
        var k :| 0 <= k < |s| && s[k].addr == a;
        if k < lo { assert r[k] == s[k]; } else { assert r[k - d] == s[k]; }
      }
    }
  }

  /** The links of block i. */
  lemma Neighbours(headers: map<nat, Header>, s: seq<Blk>, from: nat, to: nat, i: nat)
    requires 0 < from && Tiled(s, from, to) && HeadersMatch(headers, s) && i < |s|
    ensures s[i].addr in headers && headers[s[i].addr] == HeaderOf(s, i) && s[i].addr != NULL
    ensures i + 1 < |s| ==> s[i + 1].addr in headers && headers[s[i].addr].next == s[i + 1].addr != NULL
    ensures i + 1 < |s| ==> headers[s[i + 1].addr].free == s[i + 1].free && s[i].addr < s[i + 1].addr
    ensures i + 1 == |s| ==> headers[s[i].addr].next == NULL
    ensures i > 0 ==> s[i - 1].addr in headers && headers[s[i].addr].previous == s[i - 1].addr != NULL
    ensures i > 0 ==> headers[s[i - 1].addr].free == s[i - 1].free && s[i - 1].addr < s[i].addr
    ensures i == 0 ==> headers[s[i].addr].previous == NULL
  {
    hide Tiled;
    assert HeaderMatches(headers, s, i);
    FirstNotNull(s, from, to, i);
    if i + 1 < |s| {
      assert HeaderMatches(headers, s, i + 1);
      Addresses(s, from, to, i, i + 1);
    }
    if i > 0 {
      assert HeaderMatches(headers, s, i - 1);
      Addresses(s, from, to, i - 1, i);
      FirstNotNull(s, from, to, i - 1);
    }
  }

  /** The headers after merge_next found a free next block. */
  function MergedHeaders(headers: map<nat, Header>, block: nat): map<nat, Header>
    requires block in headers && headers[block].next in headers
    requires var n := headers[headers[block].next].next; n != NULL ==> n in headers
  {
    var h := headers[block];
    var n := headers[h.next];
    var h1 := headers[block := h.(span := h.span + n.span, next := n.next)];
    var h2 := if n.next != NULL then h1[n.next := h1[n.next].(previous := block)] else h1;
    h2[h.next := h2[h.next].(live := false)]
  }

  ghost predicate Mergeable(headers: map<nat, Header>, s: seq<Blk>, from: nat, to: nat, i: nat)
  {
    && 0 < from && Tiled(s, from, to) && Linked(headers, s) && i + 1 < |s| && s[i + 1].free
    && s[i].addr in headers && headers[s[i].addr].next in headers
    && var n := headers[headers[s[i].addr].next].next; n != NULL ==> n in headers
  }

  /** What merging does to each header. */
  lemma MergedHeadersAre(headers: map<nat, Header>, s: seq<Blk>, from: nat, to: nat, i: nat)
    requires Mergeable(headers, s, from, to, i)
    ensures s[i].addr < s[i + 1].addr && (i + 2 < |s| ==> s[i + 1].addr < s[i + 2].addr)
    ensures i > 0 ==> s[i - 1].addr < s[i].addr
    ensures var headers' := MergedHeaders(headers, s[i].addr);
      && headers'.Keys == headers.Keys
      && headers'[s[i].addr] == headers[s[i].addr].(span := s[i].span + s[i + 1].span,
           next := headers[s[i + 1].addr].next)
      && !headers'[s[i + 1].addr].live
      && (i + 2 < |s| ==> headers'[s[i + 2].addr] == headers[s[i + 2].addr].(previous := s[i].addr))
      && forall a :: a in headers && a != s[i].addr && a != s[i + 1].addr && (i + 2 < |s| ==> a != s[i + 2].addr) ==>
           headers'[a] == headers[a]
  {
    hide Tiled, OnChain;
    Neighbours(headers, s, from, to, i);
    Neighbours(headers, s, from, to, i + 1);
    hide HeadersMatch;
  }

  lemma MergedWindow(headers: map<nat, Header>, s: seq<Blk>, from: nat, to: nat, i: nat)
    requires Mergeable(headers, s, from, to, i)
    ensures var headers', r := MergedHeaders(headers, s[i].addr), MergeNext(s, i);
      && HeaderMatches(headers', r, i)
      && (i > 0 ==> HeaderMatches(headers', r, i - 1))
      && (i + 2 < |s| ==> HeaderMatches(headers', r, i + 1))
  {
    hide Tiled, OnChain, MergedHeaders;
    Neighbours(headers, s, from, to, i);
    Neighbours(headers, s, from, to, i + 1);
    if i + 2 < |s| { Neighbours(headers, s, from, to, i + 2); }
    if i > 0 { Neighbours(headers, s, from, to, i - 1); }
    MergedHeadersAre(headers, s, from, to, i);
    var r := MergeNext(s, i);
    assert r[i] == s[i].(span := s[i].span + s[i + 1].span);
    assert i + 2 < |s| ==> r[i + 1] == s[i + 2];
    assert i + 3 < |s| ==> r[i + 2] == s[i + 3];
    assert i > 0 ==> r[i - 1] == s[i - 1];
    assert i > 1 ==> r[i - 2] == s[i - 2];
    hide MergeNext, HeadersMatch;
  }

  lemma MergedMatch(headers: map<nat, Header>, s: seq<Blk>, from: nat, to: nat, i: nat)
    requires Mergeable(headers, s, from, to, i)
    ensures HeadersMatch(MergedHeaders(headers, s[i].addr), MergeNext(s, i))
  {
    hide Tiled, HeaderOf, MergedHeaders, HeaderMatches, OnChain;
    var fused := s[i].(span := s[i].span + s[i + 1].span);
    var headers' := MergedHeaders(headers, s[i].addr);
    MergedHeadersAre(headers, s, from, to, i);
    MergedWindow(headers, s, from, to, i);
    hide HeadersMatch;
    Relink(headers, s, from, to, i, i + 2, [fused], headers');
  }

  lemma MergedLinked(headers: map<nat, Header>, s: seq<Blk>, from: nat, to: nat, i: nat)
    requires Mergeable(headers, s, from, to, i)
    ensures Linked(MergedHeaders(headers, s[i].addr), MergeNext(s, i))
  {
    hide Tiled, HeadersMatch, MergedHeaders, OnChain;
    var fused := s[i].(span := s[i].span + s[i + 1].span);
    MergedHeadersAre(headers, s, from, to, i);
    MergedMatch(headers, s, from, to, i);
    OnChainOne(fused);
    Retire(headers, s, i, i + 2, [fused], MergedHeaders(headers, s[i].addr));
  }

  lemma OnChainOne(b: Blk)
    ensures OnChain([b], b.addr)
  {
    assert [b][0] == b;
  }

  // ---------- the other header updates ----------

  /** Rewriting the header of one block in place. */
  lemma UpdateLinked(headers: map<nat, Header>, s: seq<Blk>, from: nat, to: nat, i: nat, b: Blk)
    requires Tiled(s, from, to) && Linked(headers, s) && i < |s| && b.addr == s[i].addr
    ensures Linked(headers[b.addr := HeaderOf(s[i := b], i)], s[i := b])
  {
    hide Tiled;
    var r := s[i := b];
    var headers' := headers[b.addr := HeaderOf(r, i)];
    forall j | 0 <= j < |r|
      ensures r[j].addr in headers' && HeaderMatches(headers', r, j)
    {
      assert HeaderMatches(headers, s, j);
      if j < i { Addresses(s, from, to, j, i); }
      if i < j { Addresses(s, from, to, i, j); }
    }
    forall a | a in headers' && headers'[a].live
      ensures OnChain(r, a)
    {
      if a == b.addr {
        assert r[i].addr == a;
      } else {
        assert OnChain(s, a);
        var k :| 0 <= k < |s| && s[k].addr == a;
        assert r[k].addr == a;
      }
    }
  }

  /** The headers after a free block `tail` was put behind `block`. */
  function InsertedHeaders(headers: map<nat, Header>, block: nat, consumed: nat): map<nat, Header>
    requires block in headers && consumed <= headers[block].span
    requires headers[block].next != NULL ==> headers[block].next in headers
  {
    var h, tail := headers[block], block + consumed;
    var h1 := headers[tail := Header(true, h.span - consumed, 0, 0, block, h.next, true)];
    var h2 := if h.next != NULL then h1[h.next := h1[h.next].(previous := tail)] else h1;
    h2[block := h.(span := consumed, next := tail)]
  }

  /** The blocks after block i was cut. */
  function Inserted(s: seq<Blk>, i: nat, consumed: nat): (r: seq<Blk>)
    requires i < |s| && consumed <= s[i].span
  {
    s[..i] + [s[i].(span := consumed), Blk(s[i].addr + consumed, s[i].span - consumed, true, 0, 0)]
    + s[i + 1..]
  }

  ghost predicate Insertable(headers: map<nat, Header>, s: seq<Blk>, from: nat, to: nat, i: nat, consumed: nat)
  {
    && 0 < from && Tiled(s, from, to) && Linked(headers, s) && i < |s| && 0 < consumed < s[i].span
    && s[i].addr in headers && headers[s[i].addr].span == s[i].span
    && (headers[s[i].addr].next != NULL ==> headers[s[i].addr].next in headers)
  }

  lemma InsertedHeadersAre(headers: map<nat, Header>, s: seq<Blk>, from: nat, to: nat, i: nat, consumed: nat)
    requires Insertable(headers, s, from, to, i, consumed)
    ensures i > 0 ==> s[i - 1].addr < s[i].addr
    ensures i + 1 < |s| ==> s[i].addr + consumed < s[i + 1].addr
    ensures var headers', tail := InsertedHeaders(headers, s[i].addr, consumed), s[i].addr + consumed;
      && headers'.Keys == headers.Keys + {tail}
      && headers'[s[i].addr] == headers[s[i].addr].(span := consumed, next := tail)
      && headers'[tail] == Header(true, s[i].span - consumed, 0, 0, s[i].addr, headers[s[i].addr].next, true)
      && (i + 1 < |s| ==> headers'[s[i + 1].addr] == headers[s[i + 1].addr].(previous := tail))
      && forall a :: a in headers && a != s[i].addr && a != tail && (i + 1 < |s| ==> a != s[i + 1].addr) ==>
           headers'[a] == headers[a]
  {
    if i + 1 < |s| { assert Adjacent(s, i + 1); }
    hide Tiled, OnChain;
    Neighbours(headers, s, from, to, i);
    if i + 1 < |s| { Neighbours(headers, s, from, to, i + 1); }
    hide HeadersMatch;
  }

  lemma InsertedWindow(headers: map<nat, Header>, s: seq<Blk>, from: nat, to: nat, i: nat, consumed: nat)
    requires Insertable(headers, s, from, to, i, consumed)
    ensures var headers', r := InsertedHeaders(headers, s[i].addr, consumed), Inserted(s, i, consumed);
      && HeaderMatches(headers', r, i) && HeaderMatches(headers', r, i + 1)
      && (i > 0 ==> HeaderMatches(headers', r, i - 1))
      && (i + 1 < |s| ==> HeaderMatches(headers', r, i + 2))
  {
    hide Tiled, OnChain, InsertedHeaders;
    if i > 0 { Neighbours(headers, s, from, to, i - 1); }
    Neighbours(headers, s, from, to, i);
    if i + 1 < |s| { Neighbours(headers, s, from, to, i + 1); }
    InsertedHeadersAre(headers, s, from, to, i, consumed);
    var r := Inserted(s, i, consumed);
    assert i + 1 < |s| ==> r[i + 2] == s[i + 1];
    assert i + 2 < |s| ==> r[i + 3] == s[i + 2];
    assert i > 0 ==> r[i - 1] == s[i - 1];
    assert i > 1 ==> r[i - 2] == s[i - 2];
    hide HeadersMatch;
  }

  lemma InsertedMatch(headers: map<nat, Header>, s: seq<Blk>, from: nat, to: nat, i: nat, consumed: nat)
    requires Insertable(headers, s, from, to, i, consumed)
    ensures HeadersMatch(InsertedHeaders(headers, s[i].addr, consumed), Inserted(s, i, consumed))
  {
    hide Tiled, HeaderOf, InsertedHeaders, HeaderMatches, OnChain, HeadersMatch;
    var mid := [s[i].(span := consumed), Blk(s[i].addr + consumed, s[i].span - consumed, true, 0, 0)];
    InsertedHeadersAre(headers, s, from, to, i, consumed);
    InsertedWindow(headers, s, from, to, i, consumed);
    Relink(headers, s, from, to, i, i + 1, mid, InsertedHeaders(headers, s[i].addr, consumed));
  }

  lemma InsertedLinked(headers: map<nat, Header>, s: seq<Blk>, from: nat, to: nat, i: nat, consumed: nat)
    requires Insertable(headers, s, from, to, i, consumed)
    ensures Linked(InsertedHeaders(headers, s[i].addr, consumed), Inserted(s, i, consumed))
  {
    hide Tiled, HeadersMatch, InsertedHeaders, HeaderOf;
    var mid := [s[i].(span := consumed), Blk(s[i].addr + consumed, s[i].span - consumed, true, 0, 0)];
    InsertedHeadersAre(headers, s, from, to, i, consumed);
    InsertedMatch(headers, s, from, to, i, consumed);
    assert OnChain(mid, s[i].addr) && OnChain(mid, s[i].addr + consumed) by {
      assert mid[0].addr == s[i].addr && mid[1].addr == s[i].addr + consumed;
    }
    hide OnChain;
    Retire(headers, s, i, i + 1, mid, InsertedHeaders(headers, s[i].addr, consumed));
  }

  lemma InsertedTiled(s: seq<Blk>, from: nat, to: nat, i: nat, consumed: nat)
    requires Tiled(s, from, to) && i < |s| && consumed % MIN_ALIGNMENT == 0
    requires 96 <= consumed && consumed + MIN_SPAN <= s[i].span
    ensures Tiled(Inserted(s, i, consumed), from, to)
  {
    var mid := [s[i].(span := consumed), Blk(s[i].addr + consumed, s[i].span - consumed, true, 0, 0)];
    DifferenceAligned(s[i].span, consumed);
    assert Adjacent(mid, 1);
    assert i + 1 < |s| ==> Adjacent(s, i + 1);
    assert Tiled(mid, At(s, i, to), At(s, i + 1, to));
    TiledReplace(s, from, to, i, i + 1, mid);
  }

  /** A new free block behind the last one. */
  lemma AppendedLinked(headers: map<nat, Header>, s: seq<Blk>, from: nat, to: nat, b: Blk)
    requires 0 < from && Tiled(s, from, to) && s != [] && Linked(headers, s) && b == Blk(to, b.span, true, 0, 0)
    ensures var n := |s| - 1;
      Linked(headers[to := Header(true, b.span, 0, 0, s[n].addr, NULL, true)]
                    [s[n].addr := HeaderOf(s, n).(next := to)], s + [b])
  {
    var n, r := |s| - 1, s + [b];
    var headers' := headers[to := Header(true, b.span, 0, 0, s[n].addr, NULL, true)]
                           [s[n].addr := HeaderOf(s, n).(next := to)];
    assert s[n].addr < to;
    hide Tiled;
    forall j | 0 <= j < |r|
      ensures r[j].addr in headers' && HeaderMatches(headers', r, j)
    {
      if j < n {
        Addresses(s, from, to, j, n);
        assert HeaderMatches(headers, s, j);
      }
    }
    forall a | a in headers' && headers'[a].live
      ensures OnChain(r, a)
    {
      if a == to {
        assert r[n + 1].addr == a;
      } else {
        assert a == s[n].addr || OnChain(s, a);
        var k :| 0 <= k < |s| && s[k].addr == a;
        assert r[k].addr == a;
      }
    }
  }

  /** The first block of an empty chain. */
  lemma FirstLinked(headers: map<nat, Header>, b: Blk)
    requires Linked(headers, []) && b.free && b.user == 0 && b.requested == 0
    ensures Linked(headers[b.addr := Header(true, b.span, 0, 0, NULL, NULL, true)], [b])
  {
    var headers' := headers[b.addr := Header(true, b.span, 0, 0, NULL, NULL, true)];
    OnChainOne(b);
    assert [b][0] == b;
    assert HeaderMatches(headers', [b], 0);
    forall a | a in headers' && headers'[a].live
      ensures OnChain([b], a)
    {
      assert !OnChain([], a);
    }
  }

  lemma Addresses(s: seq<Blk>, from: nat, to: nat, i: nat, j: nat)
    requires Tiled(s, from, to) && i < j < |s|
    ensures s[i].addr < s[j].addr
  {
    Ordered(s, from, to, i, j);
  }

  lemma FirstNotNull(s: seq<Blk>, from: nat, to: nat, i: nat)
    requires Tiled(s, from, to) && 0 < from && i < |s|
    ensures s[i].addr != NULL
  {
    if i > 0 { Ordered(s, from, to, 0, i); }
  }

  lemma MergeKeepsTiled(s: seq<Blk>, from: nat, to: nat, i: nat)
    requires Tiled(s, from, to) && i < |s|
    ensures Tiled(MergeNext(s, i), from, to)
  {
    if i + 1 < |s| && s[i + 1].free {
      FusedTiled(s, from, to, i);
      TiledReplace(s, from, to, i, i + 2, [s[i].(span := s[i].span + s[i + 1].span)]);
    }
  }
}
