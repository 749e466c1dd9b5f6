/** The kernel heap seen as the sequence of its blocks in address order (kernel/mm/heap.c): what
    splitting, merging, growing, allocating and freeing do to it, and what they keep. */
module HeapBlocks {

  const HEADER: nat := 64         // BLOCK_HEADER_SIZE, struct ns_kheap_block rounded up
  const HEADER_BYTES: nat := 56   // sizeof(struct ns_kheap_block)
  const TAG: nat := 24            // sizeof(struct allocation_tag)
  const MIN_ALIGNMENT: nat := 16
  const MIN_SPAN: nat := 104      // MIN_BLOCK_SPAN

  /** One block: its header's address, its span, and its allocation, if any. */
  datatype Blk = Blk(addr: nat, span: nat, free: bool, user: nat, requested: nat)

  function End(b: Blk): nat { b.addr + b.span }

  /** The blocks cover [from, to) without gap or overlap, in whole alignment units, each with
      room for a header, a tag and one unit. */
  predicate Tiled(s: seq<Blk>, from: nat, to: nat)
  {
    && (if s == [] then from == to else s[0].addr == from && End(s[|s| - 1]) == to)
    && (forall i :: 0 <= i < |s| ==> s[i].span % MIN_ALIGNMENT == 0 && s[i].span >= 96)
    && (forall i :: 0 < i < |s| ==> Adjacent(s, i))
  }

  predicate Adjacent(s: seq<Blk>, i: nat)
    requires 0 < i < |s|
  {
    End(s[i - 1]) == s[i].addr
  }

  /** No two free blocks touch. */
  predicate Coalesced(s: seq<Blk>)
  {
    forall i :: 0 < i < |s| ==> NotBothFree(s, i)
  }

  predicate NotBothFree(s: seq<Blk>, i: nat)
    requires 0 < i < |s|
  {
    !(s[i - 1].free && s[i].free)
  }

  /** An allocation lies inside its block, after the header and the tag. */
  predicate Placed(b: Blk)
  {
    if b.free then b.user == 0 && b.requested == 0
    else
      && b.user % MIN_ALIGNMENT == 0
      && b.addr + HEADER + TAG <= b.user
      && 0 < b.requested && b.user + b.requested <= End(b)
  }

  predicate AllPlaced(s: seq<Blk>)
  {
    forall i :: 0 <= i < |s| ==> Placed(s[i])
  }

  predicate Sound(s: seq<Blk>, from: nat, to: nat)
  {
    Tiled(s, from, to) && Coalesced(s) && AllPlaced(s)
  }

  /** A live allocation: the block it is in, the pointer handed out, the size asked for. */
  datatype Alloc = Alloc(block: nat, pointer: nat, size: nat)

  function AllocOf(b: Blk): Alloc { Alloc(b.addr, b.user, b.requested) }

  ghost function Live(s: seq<Blk>): set<Alloc>
  {
    set i | 0 <= i < |s| && !s[i].free :: AllocOf(s[i])
  }

  // ---------- the operations ----------

  /** merge_next: absorb the next block if it is free. */
  function MergeNext(s: seq<Blk>, i: nat): (r: seq<Blk>)
    requires i < |s|
  {
    if i + 1 < |s| && s[i + 1].free
    then s[..i] + [s[i].(span := s[i].span + s[i + 1].span)] + s[i + 2..]
    else s
  }

  /** split_trailing: cut the block after `consumed` bytes if the rest can be a block of its own,
      merged with the block after it if that is free. */
  function SplitTrailing(s: seq<Blk>, i: nat, consumed: nat): (r: seq<Blk>)
    requires i < |s| && consumed <= s[i].span
  {
    var rest := s[i].span - consumed;
    if rest < MIN_SPAN then s
    else
      MergeNext(s[..i] + [s[i].(span := consumed), Blk(s[i].addr + consumed, rest, true, 0, 0)]
                + s[i + 1..], i + 1)
  }

  /** The block chain after grow_heap committed `growth` more bytes at `end`. */
  function Grow(s: seq<Blk>, end: nat, growth: nat): (r: seq<Blk>)
  {
    if |s| > 0 && s[|s| - 1].free
    then s[|s| - 1 := s[|s| - 1].(span := s[|s| - 1].span + growth)]
    else s + [Blk(end, growth, true, 0, 0)]
  }

  function Mark(s: seq<Blk>, i: nat, free: bool, user: nat, requested: nat): (r: seq<Blk>)
    requires i < |s|
  {
    s[i := s[i].(free := free, user := user, requested := requested)]
  }

  /** Allocate in free block i. */
  function Allocate(s: seq<Blk>, i: nat, consumed: nat, user: nat, requested: nat): seq<Blk>
    requires i < |s| && consumed <= s[i].span
    ensures i < |SplitTrailing(s, i, consumed)|
  {
    Mark(SplitTrailing(s, i, consumed), i, false, user, requested)
  }

  /** Free block i and merge it with its free neighbours. */
  function Release(s: seq<Blk>, i: nat): seq<Blk>
    requires i < |s|
  {
    var merged := MergeNext(Mark(s, i, true, 0, 0), i);
    if i > 0 && merged[i - 1].free then MergeNext(merged, i - 1) else merged
  }

  // ---------- cutting and joining ----------

  /** Where block i starts, or the end of the last block. */
  function At(s: seq<Blk>, i: nat, to: nat): nat
    requires i <= |s|
  {
    if i < |s| then s[i].addr else to
  }

  lemma TiledCut(s: seq<Blk>, from: nat, to: nat, i: nat)
    requires Tiled(s, from, to) && i <= |s|
    ensures Tiled(s[..i], from, At(s, i, to)) && Tiled(s[i..], At(s, i, to), to)
  {
    forall j | 0 < j < i
      ensures Adjacent(s[..i], j)
    {
      assert Adjacent(s, j);
    }
    forall j | 0 < j < |s| - i
      ensures Adjacent(s[i..], j)
    {
      assert Adjacent(s, i + j);
    }
    assert 0 < i < |s| ==> Adjacent(s, i);
  }

  lemma TiledJoin(a: seq<Blk>, b: seq<Blk>, from: nat, mid: nat, to: nat)
    requires Tiled(a, from, mid) && Tiled(b, mid, to)
    ensures Tiled(a + b, from, to)
  {
    var s := a + b;
    forall i | 0 < i < |s|
      ensures Adjacent(s, i)
    {
      if i < |a| {
        assert Adjacent(a, i);
      } else if i > |a| {
        assert Adjacent(b, i - |a|);
      }
    }
  }

  lemma TiledReplace(s: seq<Blk>, from: nat, to: nat, lo: nat, hi: nat, mid: seq<Blk>)
    requires Tiled(s, from, to) && lo <= hi <= |s| && Tiled(mid, At(s, lo, to), At(s, hi, to))
    ensures Tiled(s[..lo] + mid + s[hi..], from, to)
  {
    hide Tiled;
    TiledCut(s, from, to, lo);
    TiledCut(s, from, to, hi);
    TiledJoin(s[..lo], mid, from, At(s, lo, to), At(s, hi, to));
    TiledJoin(s[..lo] + mid, s[hi..], from, At(s, hi, to), to);
  }

  predicate Seam(a: seq<Blk>, b: seq<Blk>)
  {
    a == [] || b == [] || !(a[|a| - 1].free && b[0].free)
  }

  lemma CoalescedJoin(a: seq<Blk>, b: seq<Blk>)
    ensures Coalesced(a + b) <==> Coalesced(a) && Coalesced(b) && Seam(a, b)
  {
    var s := a + b;
    if Coalesced(s) {
      forall i | 0 < i < |b|
        ensures NotBothFree(b, i)
      {
        assert NotBothFree(s, |a| + i);
      }
      forall i | 0 < i < |a|
        ensures NotBothFree(a, i)
      {
        assert NotBothFree(s, i);
      }
      if a != [] && b != [] {
        assert NotBothFree(s, |a|);
      }
    } else if Coalesced(a) && Coalesced(b) && Seam(a, b) {
      forall i | 0 < i < |s|
        ensures NotBothFree(s, i)
      {
        if i < |a| {
          assert NotBothFree(a, i);
        } else if i > |a| {
          assert NotBothFree(b, i - |a|);
        }
      }
    }
  }

  lemma LiveJoin(a: seq<Blk>, b: seq<Blk>)
    ensures Live(a + b) == Live(a) + Live(b)
  {
    var s := a + b;
    forall x | x in Live(b)
      ensures x in Live(s)
    {
      var i :| 0 <= i < |b| && !b[i].free && x == AllocOf(b[i]);
      assert s[|a| + i] == b[i];
    }
    forall x | x in Live(a)
      ensures x in Live(s)
    {
      var i :| 0 <= i < |a| && !a[i].free && x == AllocOf(a[i]);
      assert s[i] == a[i];
    }
  }

  lemma LiveReplace(s: seq<Blk>, lo: nat, hi: nat, mid: seq<Blk>)
    requires lo <= hi <= |s|
    ensures Live(s) == Live(s[..lo]) + Live(s[lo..hi]) + Live(s[hi..])
    ensures Live(s[..lo] + mid + s[hi..]) == Live(s[..lo]) + Live(mid) + Live(s[hi..])
  {
    hide Live;
    assert s == s[..lo] + s[lo..hi] + s[hi..];
    LiveJoin(s[..lo] + s[lo..hi], s[hi..]);
    LiveJoin(s[..lo], s[lo..hi]);
    LiveJoin(s[..lo] + mid, s[hi..]);
    LiveJoin(s[..lo], mid);
  }

  lemma Cut(s: seq<Blk>, from: nat, to: nat, i: nat)
    requires Sound(s, from, to) && i <= |s|
    ensures Sound(s[..i], from, At(s, i, to)) && Sound(s[i..], At(s, i, to), to)
    ensures Seam(s[..i], s[i..]) && Live(s) == Live(s[..i]) + Live(s[i..])
  {
    assert s == s[..i] + s[i..];
    hide Live;
    TiledCut(s, from, to, i);
    CoalescedJoin(s[..i], s[i..]);
    LiveJoin(s[..i], s[i..]);
  }

  lemma Join(a: seq<Blk>, b: seq<Blk>, from: nat, mid: nat, to: nat)
    requires Sound(a, from, mid) && Sound(b, mid, to) && Seam(a, b)
    ensures Sound(a + b, from, to) && Live(a + b) == Live(a) + Live(b)
  {
    hide Live, Tiled, Coalesced, Placed;
    TiledJoin(a, b, from, mid, to);
    CoalescedJoin(a, b);
    LiveJoin(a, b);
  }

  // ---------- what the operations keep ----------

  /** Where the blocks from lo up to hi lie. */
  lemma Around(s: seq<Blk>, from: nat, to: nat, lo: nat, hi: nat)
    requires Sound(s, from, to) && lo < hi <= |s|
    ensures Sound(s[..lo], from, s[lo].addr) && Sound(s[lo..hi], s[lo].addr, End(s[hi - 1]))
    ensures Sound(s[hi..], End(s[hi - 1]), to)
    ensures Seam(s[..lo], s[lo..]) && Seam(s[..hi], s[hi..])
    ensures Live(s) == Live(s[..lo]) + Live(s[lo..hi]) + Live(s[hi..])
  {
    hide Sound, Live;
    Cut(s, from, to, lo);
    Cut(s, from, to, hi);
    Cut(s[lo..], s[lo].addr, to, hi - lo);
    assert s[lo..][..hi - lo] == s[lo..hi] && s[lo..][hi - lo..] == s[hi..];
    BlockEnd(s, from, to, hi - 1);
  }

  lemma BlockEnd(s: seq<Blk>, from: nat, to: nat, i: nat)
    requires Sound(s, from, to) && i < |s|
    ensures At(s, i + 1, to) == End(s[i])
  {
    assert i + 1 < |s| ==> Adjacent(s, i + 1);
  }

  /** Replacing the blocks from lo up to hi by others that fill their place. */
  lemma Replace(s: seq<Blk>, from: nat, to: nat, lo: nat, hi: nat, mid: seq<Blk>)
    requires Sound(s, from, to) && lo < hi <= |s|
    requires mid != [] && Sound(mid, s[lo].addr, End(s[hi - 1]))
    requires Seam(s[..lo], mid) && Seam(mid, s[hi..])
    ensures Sound(s[..lo] + mid + s[hi..], from, to)
    ensures Live(s[..lo] + mid + s[hi..]) == Live(s[..lo]) + Live(mid) + Live(s[hi..])
    ensures Live(s) == Live(s[..lo]) + Live(s[lo..hi]) + Live(s[hi..])
  {
    hide Sound, Live;
    Around(s, from, to, lo, hi);
    Join(s[..lo], mid, from, s[lo].addr, End(s[hi - 1]));
    Join(s[..lo] + mid, s[hi..], from, End(s[hi - 1]), to);
  }

  /** An allocation belongs to one block only. */
  lemma LiveOnce(s: seq<Blk>, from: nat, to: nat, lo: nat, hi: nat, x: Alloc)
    requires Sound(s, from, to) && lo < hi <= |s|
    requires s[lo].addr <= x.pointer < End(s[hi - 1])
    ensures x !in Live(s[..lo]) && x !in Live(s[hi..])
  {
    forall k | 0 <= k < lo && !s[k].free
      ensures s[k].user != x.pointer
    {
      Ordered(s, from, to, k, lo);
      assert Placed(s[k]);
    }
    forall k | hi <= k < |s| && !s[k].free
      ensures s[k].user != x.pointer
    {
      Ordered(s, from, to, hi - 1, k);
      assert Placed(s[k]);
    }
  }

  lemma {:induction false} Ordered(s: seq<Blk>, from: nat, to: nat, i: nat, j: nat)
    requires Tiled(s, from, to) && i < j < |s|
    ensures End(s[i]) <= s[j].addr
    decreases j
  {
    assert Adjacent(s, j);
    if i < j - 1 {
      Ordered(s, from, to, i, j - 1);
    }
  }

  /** What a free block becomes when `consumed` bytes of it are taken. */
  function Taken(b: Blk, consumed: nat, user: nat, size: nat): (mid: seq<Blk>)
    requires consumed <= b.span
  {
    var rest := b.span - consumed;
    if rest < MIN_SPAN then [Blk(b.addr, b.span, false, user, size)]
    else [Blk(b.addr, consumed, false, user, size), Blk(b.addr + consumed, rest, true, 0, 0)]
  }

  lemma AllocateShape(s: seq<Blk>, i: nat, consumed: nat, user: nat, size: nat)
    requires i < |s| && consumed <= s[i].span && Seam([s[i]], s[i + 1..]) && s[i].free
    ensures Allocate(s, i, consumed, user, size) == s[..i] + Taken(s[i], consumed, user, size) + s[i + 1..]
  {
  }

  lemma TakenSound(b: Blk, consumed: nat, user: nat, size: nat)
    requires Sound([b], b.addr, End(b)) && b.free
    requires 96 <= consumed <= b.span && consumed % MIN_ALIGNMENT == 0
    requires Placed(Blk(b.addr, consumed, false, user, size))
    ensures var mid := Taken(b, consumed, user, size);
      mid != [] && !mid[0].free && Sound(mid, b.addr, End(b)) && Live(mid) == {Alloc(b.addr, user, size)}
  {
    var mid := Taken(b, consumed, user, size);
    assert b == [b][0];
    assert Alloc(b.addr, user, size) in Live(mid) by { assert !mid[0].free; }
  }

  /** Allocating in a free block keeps the heap sound and adds exactly the new allocation. */
  lemma AllocateSound(s: seq<Blk>, from: nat, to: nat, i: nat, consumed: nat, user: nat, size: nat)
    requires Sound(s, from, to) && i < |s| && s[i].free
    requires 96 <= consumed <= s[i].span && consumed % MIN_ALIGNMENT == 0
    requires Placed(Blk(s[i].addr, consumed, false, user, size))
    ensures Sound(Allocate(s, i, consumed, user, size), from, to)
    ensures Live(Allocate(s, i, consumed, user, size)) == Live(s) + {Alloc(s[i].addr, user, size)}
  {
    hide Sound, Live, Allocate, Taken, Placed;
    Around(s, from, to, i, i + 1);
    assert s[i..i + 1] == [s[i]];
    NeighboursNotFree(s, i);
    var mid := Taken(s[i], consumed, user, size);
    TakenSound(s[i], consumed, user, size);
    AllocateShape(s, i, consumed, user, size);
    LiveOne(s[i]);
    Replace(s, from, to, i, i + 1, mid);
  }

  lemma LiveOne(b: Blk)
    ensures Live([b]) == if b.free then {} else {AllocOf(b)}
  {
    if !b.free {
      assert [b][0] == b;
    }
  }

  lemma NeighboursNotFree(s: seq<Blk>, i: nat)
    requires i < |s| && s[i].free && Seam(s[..i], s[i..]) && Seam(s[..i + 1], s[i + 1..])
    ensures i > 0 ==> !s[i - 1].free
    ensures i + 1 < |s| ==> !s[i + 1].free
    ensures Seam([s[i]], s[i + 1..])
  {
    if i > 0 { assert s[..i][i - 1] == s[i - 1] && s[i..][0] == s[i]; }
    if i + 1 < |s| { assert s[..i + 1][i] == s[i] && s[i + 1..][0] == s[i + 1]; }
  }

  // ---------- freeing ----------

  /** Merging keeps the tiling and the allocations, whatever is free around it. */
  lemma MergeKeeps(s: seq<Blk>, from: nat, to: nat, i: nat)
    requires Tiled(s, from, to) && AllPlaced(s) && i < |s|
    ensures Tiled(MergeNext(s, i), from, to) && AllPlaced(MergeNext(s, i))
    ensures Live(MergeNext(s, i)) == Live(s)
  {
    hide Tiled, Live;
    if i + 1 < |s| && s[i + 1].free {
      var b, c := s[i], s[i + 1];
      var fused := b.(span := b.span + c.span);
      assert Placed(b) && Placed(fused);
      FusedTiled(s, from, to, i);
      TiledReplace(s, from, to, i, i + 2, [fused]);
      FusedLive(b, c, fused);
      assert s[i..i + 2] == [b, c];
      LiveReplace(s, i, i + 2, [fused]);
    }
  }

  lemma FusedTiled(s: seq<Blk>, from: nat, to: nat, i: nat)
    requires Tiled(s, from, to) && i + 1 < |s|
    ensures Tiled([s[i].(span := s[i].span + s[i + 1].span)], At(s, i, to), At(s, i + 2, to))
  {
    SumAligned(s[i].span, s[i + 1].span);
    assert Adjacent(s, i + 1);
    assert i + 2 < |s| ==> Adjacent(s, i + 2);
  }

  lemma SumAligned(a: nat, b: nat)
    requires a % MIN_ALIGNMENT == 0 && b % MIN_ALIGNMENT == 0
    ensures (a + b) % MIN_ALIGNMENT == 0
  {
  }

  lemma FusedLive(b: Blk, c: Blk, fused: Blk)
    requires c.free && fused == b.(span := b.span + c.span)
    ensures Live([fused]) == Live([b, c])
  {
    LiveOne(fused);
    LiveOne(b);
    LiveOne(c);
    LiveJoin([b], [c]);
    assert [b, c] == [b] + [c];
  }

  /** Freeing block i keeps the heap sound and removes exactly its allocation. */
  lemma ReleaseSound(s: seq<Blk>, from: nat, to: nat, i: nat)
    requires Sound(s, from, to) && i < |s| && !s[i].free
    ensures Sound(Release(s, i), from, to)
    ensures Live(Release(s, i)) == Live(s) - {AllocOf(s[i])}
  {
    hide Tiled, Live, Coalesced;
    var marked := Mark(s, i, true, 0, 0);
    MarkKeeps(s, from, to, i, true, 0, 0);
    MarkedLive(s, from, to, i);
    var merged := MergeNext(marked, i);
    MergeKeeps(marked, from, to, i);
    if i > 0 && merged[i - 1].free {
      MergeKeeps(merged, from, to, i - 1);
    }
    ReleaseCoalesced(s, i);
  }

  lemma MarkKeeps(s: seq<Blk>, from: nat, to: nat, i: nat, free: bool, user: nat, size: nat)
    requires Tiled(s, from, to) && AllPlaced(s) && i < |s|
    requires Placed(s[i].(free := free, user := user, requested := size))
    ensures Tiled(Mark(s, i, free, user, size), from, to) && AllPlaced(Mark(s, i, free, user, size))
  {
    forall j | 0 < j < |s|
      ensures Adjacent(Mark(s, i, free, user, size), j)
    {
      assert Adjacent(s, j);
    }
  }

  lemma MarkedLive(s: seq<Blk>, from: nat, to: nat, i: nat)
    requires Sound(s, from, to) && i < |s| && !s[i].free
    ensures Live(Mark(s, i, true, 0, 0)) == Live(s) - {AllocOf(s[i])}
  {
    var b := s[i].(free := true, user := 0, requested := 0);
    assert Mark(s, i, true, 0, 0) == s[..i] + [b] + s[i + 1..];
    assert s[i..i + 1] == [s[i]];
    LiveReplace(s, i, i + 1, [b]);
    LiveOne(b);
    LiveOne(s[i]);
    assert Placed(s[i]);
    LiveOnce(s, from, to, i, i + 1, AllocOf(s[i]));
  }

  lemma ReleaseCoalesced(s: seq<Blk>, i: nat)
    requires Coalesced(s) && i < |s| && !s[i].free
    ensures Coalesced(Release(s, i))
  {
    var lo := if i > 0 && s[i - 1].free then i - 1 else i;
    var hi := if i + 1 < |s| && s[i + 1].free then i + 2 else i + 1;
    var b := ReleaseShape(s, i, lo, hi);
    assert 0 < lo < i ==> NotBothFree(s, lo);
    assert i + 1 < hi < |s| ==> NotBothFree(s, hi);
    Bridge(s, lo, hi, b);
  }

  lemma ReleaseShape(s: seq<Blk>, i: nat, lo: nat, hi: nat) returns (b: Blk)
    requires i < |s| && !s[i].free
    requires lo == if i > 0 && s[i - 1].free then i - 1 else i
    requires hi == if i + 1 < |s| && s[i + 1].free then i + 2 else i + 1
    ensures Release(s, i) == s[..lo] + [b] + s[hi..] && b.free
  {
    var marked := Mark(s, i, true, 0, 0);
    assert marked[..i] == s[..i] && marked[i + 1..] == s[i + 1..];
    var merged := MergeNext(marked, i);
    b := merged[i];
    assert merged == s[..i] + [b] + s[hi..];
    if lo < i {
      var fused := merged[lo].(span := merged[lo].span + b.span);
      assert merged[lo] == s[lo] && merged[..lo] == s[..lo] && merged[i + 1..] == s[hi..];
      b := fused;
    }
  }

  /** A free block between blocks that are not free. */
  lemma Bridge(s: seq<Blk>, lo: nat, hi: nat, b: Blk)
    requires Coalesced(s) && lo <= hi <= |s|
    requires (lo > 0 ==> !s[lo - 1].free) && (hi < |s| ==> !s[hi].free)
    ensures Coalesced(s[..lo] + [b] + s[hi..])
  {
    assert s == s[..lo] + s[lo..] && s == s[..hi] + s[hi..];
    CoalescedJoin(s[..lo], s[lo..]);
    CoalescedJoin(s[..hi], s[hi..]);
    CoalescedJoin([b], s[hi..]);
    CoalescedJoin(s[..lo], [b]);
    CoalescedJoin(s[..lo] + [b], s[hi..]);
  }

  // ---------- growing ----------

  /** Growing keeps the heap sound, changes no allocation, and leaves a free last block of at
      least the committed bytes. */
  lemma GrowSound(s: seq<Blk>, from: nat, to: nat, growth: nat)
    requires Sound(s, from, to) && growth % MIN_ALIGNMENT == 0 && growth >= 96
    ensures Sound(Grow(s, to, growth), from, to + growth) && Live(Grow(s, to, growth)) == Live(s)
    ensures var r := Grow(s, to, growth); r != [] && r[|r| - 1].free && r[|r| - 1].span >= growth
  {
    var n := |s|;
    if n > 0 && s[n - 1].free {
      var last := s[n - 1];
      var grown := last.(span := last.span + growth);
      assert s[n - 1..n] == [last] && s[n..] == [];
      assert Grow(s, to, growth) == s[..n - 1] + [grown];
      Around(s, from, to, n - 1, n);
      NeighboursNotFree(s, n - 1);
      GrownSound(s, from, to, growth);
      LiveOne(grown);
      LiveOne(last);
      hide Sound, Live;
      Join(s[..n - 1], [grown], from, last.addr, to + growth);
    } else {
      var b := Blk(to, growth, true, 0, 0);
      LiveOne(b);
      Join(s, [b], from, to, to + growth);
    }
  }

  lemma GrownSound(s: seq<Blk>, from: nat, to: nat, growth: nat)
    requires Sound(s, from, to) && growth % MIN_ALIGNMENT == 0 && s != []
    requires s[|s| - 1].free
    ensures var last := s[|s| - 1];
      Sound([last.(span := last.span + growth)], last.addr, to + growth)
  {
    var last := s[|s| - 1];
    SumAligned(last.span, growth);
    assert Placed(last);
  }

  // ---------- resizing in place ----------

  /** An allocated block absorbs the free block after it. */
  lemma MergeSound(s: seq<Blk>, from: nat, to: nat, i: nat)
    requires Sound(s, from, to) && i < |s| && !s[i].free
    ensures Sound(MergeNext(s, i), from, to) && Live(MergeNext(s, i)) == Live(s)
  {
    MergeKeeps(s, from, to, i);
    if i + 1 < |s| && s[i + 1].free {
      var fused := s[i].(span := s[i].span + s[i + 1].span);
      CoalescedJoin(s[..i] + [fused], s[i + 2..]);
      CoalescedJoin(s[..i], [fused]);
      assert s == s[..i] + s[i..] && s == s[..i + 2] + s[i + 2..];
      CoalescedJoin(s[..i], s[i..]);
      CoalescedJoin(s[..i + 2], s[i + 2..]);
    }
  }

  /** Setting the requested size of an allocation that still fits its block. */
  lemma ResizeSound(s: seq<Blk>, from: nat, to: nat, i: nat, size: nat)
    requires Sound(s, from, to) && i < |s| && !s[i].free
    requires 0 < size && s[i].user + size <= End(s[i])
    ensures Sound(Mark(s, i, false, s[i].user, size), from, to)
    ensures Live(Mark(s, i, false, s[i].user, size))
         == Live(s) - {AllocOf(s[i])} + {AllocOf(s[i]).(size := size)}
  {
    var b := s[i].(requested := size);
    assert Placed(s[i]) && Placed(b);
    MarkKeeps(s, from, to, i, false, s[i].user, size);
    forall j | 0 < j < |s|
      ensures NotBothFree(Mark(s, i, false, s[i].user, size), j)
    {
      assert NotBothFree(s, j);
    }
    assert Mark(s, i, false, s[i].user, size) == s[..i] + [b] + s[i + 1..];
    assert s[i..i + 1] == [s[i]];
    LiveReplace(s, i, i + 1, [b]);
    LiveOne(b);
    LiveOne(s[i]);
    LiveOnce(s, from, to, i, i + 1, AllocOf(s[i]));
    LiveOnce(s, from, to, i, i + 1, AllocOf(s[i]).(size := size));
  }

  /** What an allocated block and the block after it become when the block is cut. */
  function Trimmed(s: seq<Blk>, i: nat, consumed: nat, hi: nat): seq<Blk>
    requires i < hi <= |s| && consumed <= s[i].span
  {
    var rest := s[i].span - consumed;
    [s[i].(span := consumed),
     Blk(s[i].addr + consumed, rest + if hi == i + 2 then s[i + 1].span else 0, true, 0, 0)]
  }

  lemma SplitShape(s: seq<Blk>, i: nat, consumed: nat, hi: nat)
    requires i < |s| && consumed <= s[i].span && s[i].span - consumed >= MIN_SPAN
    requires hi == if i + 1 < |s| && s[i + 1].free then i + 2 else i + 1
    ensures SplitTrailing(s, i, consumed) == s[..i] + Trimmed(s, i, consumed, hi) + s[hi..]
  {
    var rest := s[i].span - consumed;
    var tail := Blk(s[i].addr + consumed, rest, true, 0, 0);
    var cut := s[..i] + [s[i].(span := consumed), tail] + s[i + 1..];
    assert cut[i + 1] == tail && cut[i + 2..] == s[i + 1..];
    if hi == i + 2 {
      assert cut[i + 2] == s[i + 1] && cut[i + 3..] == s[i + 2..];
      assert cut[..i + 1] == s[..i] + [s[i].(span := consumed)];
    }
  }

  lemma TrimmedTiled(s: seq<Blk>, from: nat, to: nat, i: nat, consumed: nat, hi: nat)
    requires Sound(s, from, to) && i < |s| && !s[i].free
    requires hi == if i + 1 < |s| && s[i + 1].free then i + 2 else i + 1
    requires 96 <= consumed <= s[i].span && consumed % MIN_ALIGNMENT == 0
    requires s[i].span - consumed >= MIN_SPAN && Placed(s[i].(span := consumed))
    ensures Sound(Trimmed(s, i, consumed, hi), s[i].addr, End(s[hi - 1]))
  {
    var mid := Trimmed(s, i, consumed, hi);
    assert Adjacent(mid, 1);
    DifferenceAligned(s[i].span, consumed);
    if hi == i + 2 {
      SumAligned(s[i].span - consumed, s[i + 1].span);
      assert Adjacent(s, i + 1);
    }
  }

  lemma DifferenceAligned(a: nat, b: nat)
    requires a % MIN_ALIGNMENT == 0 && b % MIN_ALIGNMENT == 0 && b <= a
    ensures (a - b) % MIN_ALIGNMENT == 0
  {
  }

  lemma TrimmedLive(s: seq<Blk>, i: nat, consumed: nat, hi: nat)
    requires i < |s| && consumed <= s[i].span
    requires hi == if i + 1 < |s| && s[i + 1].free then i + 2 else i + 1
    ensures Live(Trimmed(s, i, consumed, hi)) == Live(s[i..hi])
  {
    var mid := Trimmed(s, i, consumed, hi);
    assert mid == [mid[0]] + [mid[1]];
    LiveJoin([mid[0]], [mid[1]]);
    LiveOne(mid[0]);
    LiveOne(mid[1]);
    LiveOne(s[i]);
    if hi == i + 2 {
      assert s[i..hi] == [s[i]] + [s[i + 1]];
      LiveJoin([s[i]], [s[i + 1]]);
      LiveOne(s[i + 1]);
    } else {
      assert s[i..hi] == [s[i]];
    }
  }

  /** Cutting an allocated block behind its allocation. */
  lemma SplitSound(s: seq<Blk>, from: nat, to: nat, i: nat, consumed: nat)
    requires Sound(s, from, to) && i < |s| && !s[i].free
    requires 96 <= consumed <= s[i].span && consumed % MIN_ALIGNMENT == 0
    requires Placed(s[i].(span := consumed))
    ensures Sound(SplitTrailing(s, i, consumed), from, to)
    ensures Live(SplitTrailing(s, i, consumed)) == Live(s)
  {
    if s[i].span - consumed >= MIN_SPAN {
      var hi := if i + 1 < |s| && s[i + 1].free then i + 2 else i + 1;
      var mid := Trimmed(s, i, consumed, hi);
      SplitShape(s, i, consumed, hi);
      TrimmedTiled(s, from, to, i, consumed, hi);
      TrimmedLive(s, i, consumed, hi);
      assert hi < |s| ==> !s[hi].free by {
        assert i + 1 < hi < |s| ==> NotBothFree(s, hi);
      }
      assert Seam(s[..i], mid) && Seam(mid, s[hi..]);
      hide Sound, Live, Trimmed, SplitTrailing;
      Replace(s, from, to, i, hi, mid);
    }
  }

  // ---------- what soundness means to a caller ----------

  /** Byte a belongs to the allocation of block b. */
  predicate InPayload(b: Blk, a: nat)
  {
    !b.free && b.user <= a < b.user + b.requested
  }

  /** Byte a belongs to the header of block b, or to its allocation tag. */
  predicate InMetadata(b: Blk, a: nat)
  {
    b.addr <= a < b.addr + HEADER_BYTES || (!b.free && b.user - TAG <= a < b.user)
  }

  /** Live payloads are aligned to 16 bytes, overlap no other payload, and no header or tag. */
  lemma PayloadsDisjoint(s: seq<Blk>, from: nat, to: nat, i: nat, j: nat, a: nat)
    requires Sound(s, from, to) && i < |s| && j < |s| && InPayload(s[i], a)
    ensures s[i].user % MIN_ALIGNMENT == 0 && from <= a < to
    ensures InPayload(s[j], a) ==> i == j
    ensures !InMetadata(s[j], a)
  {
    assert Placed(s[i]) && Placed(s[j]);
    if i < j { Ordered(s, from, to, i, j); }
    if j < i { Ordered(s, from, to, j, i); }
    if i > 0 { Ordered(s, from, to, 0, i); }
    if i < |s| - 1 { Ordered(s, from, to, i, |s| - 1); }
  }

  /** The tag in front of p shares no byte with a block header. */
  predicate TagClear(s: seq<Blk>, p: nat)
  {
    forall j :: 0 <= j < |s| ==> p <= s[j].addr || s[j].addr + HEADER_BYTES + TAG <= p
  }

  /** Tags and headers of a sound heap lie apart, so writing one never changes the other. */
  lemma MetadataDisjoint(s: seq<Blk>, from: nat, to: nat, i: nat)
    requires Sound(s, from, to) && i < |s| && !s[i].free
    ensures TagClear(s, s[i].user)
  {
    assert Placed(s[i]);
    forall j | 0 <= j < |s|
      ensures s[i].user <= s[j].addr || s[j].addr + HEADER_BYTES + TAG <= s[i].user
    {
      if i < j { Ordered(s, from, to, i, j); }
      if j < i { Ordered(s, from, to, j, i); }
    }
  }
}
