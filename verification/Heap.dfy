/** The kernel heap (kernel/mm/heap.c): block headers linked in memory, allocation tags in front
    of the payloads, first-fit allocation, coalescing, growth and in-place resizing. */
module Heap {
  import opened HeapBlocks
  import opened HeapLinks
  import opened HeapLayout
  import opened HeapCheck
  import opened HeapThrift

  /** allocation_cookie. */
  function Cookie(seed: nat, block: nat, pointer: nat): nat
    requires seed <= UINTPTR_MAX && block <= UINTPTR_MAX && pointer <= UINTPTR_MAX
  {
    ((seed as bv64) ^ (block as bv64) ^ (pointer as bv64)) as nat
  }

  /** Every allocation has its tag right in front of it. */
  ghost predicate Tagged(tags: map<nat, Tag>, live: set<Alloc>, seed: nat)
  {
    forall x :: x in live ==> TagMatches(tags, x, seed)
  }

  ghost predicate TagMatches(tags: map<nat, Tag>, x: Alloc, seed: nat)
  {
    && TAG <= x.pointer <= UINTPTR_MAX && x.block <= UINTPTR_MAX && seed <= UINTPTR_MAX
    && x.pointer - TAG in tags
    && tags[x.pointer - TAG] == Tag(Cookie(seed, x.block, x.pointer), x.block, x.size)
  }

  predicate InAlloc(x: Alloc, a: nat)
  {
    x.pointer <= a < x.pointer + x.size
  }

  /** The bytes of the given allocations are the same in both memories. */
  ghost predicate SameBytes(before: map<nat, Cell>, after: map<nat, Cell>, live: set<Alloc>)
  {
    forall x, a: nat :: x in live && InAlloc(x, a) ==> a in before && a in after && before[a] == after[a]
  }

  predicate HasRoom(b: Blk, size: nat, alignment: nat)
    requires alignment > 0
  {
    b.free && Layout(b.addr, b.span, size, alignment).Room?
  }

  predicate NoFit(s: seq<Blk>, size: nat, alignment: nat)
    requires alignment > 0
  {
    forall k :: 0 <= k < |s| ==> !HasRoom(s[k], size, alignment)
  }

  ghost predicate HasPlace(b: Blk, size: nat, alignment: nat)
    requires alignment > 0
  {
    exists p :: PlaceAt(b, p, size, alignment)
  }

  /** No free block below the pointer had a place for the payload. */
  ghost predicate FirstFit(s: seq<Blk>, p: nat, size: nat, alignment: nat)
    requires alignment > 0
  {
    forall k :: 0 <= k < |s| && s[k].free && End(s[k]) <= p ==> !HasPlace(s[k], size, alignment)
  }

  /** A block of a consistent heap has room exactly when it has a place. */
  lemma RoomIsPlace(heap: Kheap, k: nat, size: nat, alignment: nat)
    requires heap.Consistent() && k < |heap.blocks|
    requires IsPowerOfTwo(alignment) && alignment <= UINTPTR_MAX && size <= UINTPTR_MAX
    ensures alignment > 0
    ensures HasRoom(heap.blocks[k], size, alignment)
       <==> heap.blocks[k].free && HasPlace(heap.blocks[k], size, alignment)
  {
    hide IsPowerOfTwo, Layout, PlaceAt, Linked, Tagged, Live;
    var s := heap.blocks;
    PositivePower(alignment);
    if k > 0 { Ordered(s, heap.arenaBase, heap.arenaBase + heap.committed, 0, k); }
    if k < |s| - 1 { Ordered(s, heap.arenaBase, heap.arenaBase + heap.committed, k, |s| - 1); }
    RoomExactly(s[k], size, alignment);
  }

  lemma PositivePower(v: nat)
    requires IsPowerOfTwo(v)
    ensures v > 0
  {
  }

  /** So nothing fits exactly when no free block has a place. */
  lemma NonePlaced(heap: Kheap, size: nat, alignment: nat)
    requires heap.Consistent() && IsPowerOfTwo(alignment) && alignment <= UINTPTR_MAX && size <= UINTPTR_MAX
    ensures alignment > 0
    ensures NoFit(heap.blocks, size, alignment) <==>
      forall k :: 0 <= k < |heap.blocks| && heap.blocks[k].free ==> !HasPlace(heap.blocks[k], size, alignment)
    ensures NoFit(heap.blocks, size, alignment) ==> forall p :: FirstFit(heap.blocks, p, size, alignment)
  {
    hide IsPowerOfTwo, HasRoom, HasPlace;
    PositivePower(alignment);
    forall k | 0 <= k < |heap.blocks|
      ensures HasRoom(heap.blocks[k], size, alignment)
         <==> heap.blocks[k].free && HasPlace(heap.blocks[k], size, alignment)
    {
      RoomIsPlace(heap, k, size, alignment);
    }
  }

  /** The scan stops at the first block with a place. */
  lemma PassedOver(heap: Kheap, i: nat, size: nat, alignment: nat)
    requires heap.Consistent() && i < |heap.blocks|
    requires IsPowerOfTwo(alignment) && 0 < alignment <= UINTPTR_MAX && size <= UINTPTR_MAX
    requires forall k :: 0 <= k < i ==> !HasRoom(heap.blocks[k], size, alignment)
    ensures forall p :: heap.blocks[i].addr <= p < End(heap.blocks[i]) ==> FirstFit(heap.blocks, p, size, alignment)
  {
    hide IsPowerOfTwo, HasRoom, HasPlace;
    var s := heap.blocks;
    forall k | 0 <= k < |s| && s[k].free
      ensures !HasPlace(s[k], size, alignment) || End(s[i]) <= End(s[k])
    {
      if k < i {
        RoomIsPlace(heap, k, size, alignment);
      } else if i < k {
        Ordered(s, heap.arenaBase, heap.arenaBase + heap.committed, i, k);
      }
    }
  }

  predicate Disjoint(x: Alloc, y: Alloc)
  {
    x.pointer + x.size <= y.pointer || y.pointer + y.size <= x.pointer
  }

  /** The allocations after are those before and one new one, which shares no byte with any of them. */
  ghost predicate Added(before: set<Alloc>, after: set<Alloc>, p: nat, size: nat)
  {
    exists b :: AddedAt(before, after, Alloc(b, p, size))
  }

  ghost predicate AddedAt(before: set<Alloc>, after: set<Alloc>, added: Alloc)
  {
    && added !in before && after == before + {added}
    && forall x :: x in before ==> Disjoint(x, added)
  }

  lemma LiveBlock(s: seq<Blk>, x: Alloc) returns (k: nat)
    requires x in Live(s)
    ensures k < |s| && !s[k].free && AllocOf(s[k]) == x
  {
    k :| 0 <= k < |s| && !s[k].free && AllocOf(s[k]) == x;
  }

  /** A payload byte is in the arena, in no header, and in no block but its own. */
  lemma PayloadByte(s: seq<Blk>, from: nat, to: nat, i: nat, x: Alloc, a: nat)
    requires Sound(s, from, to) && i <= |s| && x in Live(s) && InAlloc(x, a)
    ensures from <= a < to && !HeaderByte(s, a)
    ensures i < |s| && x != AllocOf(s[i]) ==> !(s[i].addr <= a < End(s[i]))
  {
    var k := LiveBlock(s, x);
    assert InPayload(s[k], a) && Placed(s[k]);
    PayloadsDisjoint(s, from, to, k, k, a);
    forall j | 0 <= j < |s|
      ensures !(s[j].addr <= a < s[j].addr + HEADER_BYTES)
    {
      PayloadsDisjoint(s, from, to, k, j, a);
    }
    if i < |s| && k != i {
      if k < i { Ordered(s, from, to, k, i); } else { Ordered(s, from, to, i, k); }
    }
  }

  /** Writes to headers and inside block i leave every payload but that of block i alone. */
  lemma OthersUntouched(s: seq<Blk>, from: nat, to: nat, i: nat, before: map<nat, Cell>, after: map<nat, Cell>,
                        live: set<Alloc>)
    requires Sound(s, from, to) && i <= |s| && live <= Live(s)
    requires i < |s| && !s[i].free ==> AllocOf(s[i]) !in live
    requires forall a :: from <= a < to ==> a in before && a in after
    requires forall a :: (a in before && a in after && !HeaderByte(s, a)
                          && !(i < |s| && s[i].addr <= a < End(s[i]))) ==> before[a] == after[a]
    ensures SameBytes(before, after, live)
  {
    hide Sound, HeaderByte, Live;
    forall x, a: nat | x in live && InAlloc(x, a)
      ensures a in before && a in after && before[a] == after[a]
    {
      PayloadByte(s, from, to, i, x, a);
      if i < |s| && s[i].free {
        FreeNotLive(s, from, to, i, x);
      }
    }
  }

  lemma FreeNotLive(s: seq<Blk>, from: nat, to: nat, i: nat, x: Alloc)
    requires Sound(s, from, to) && i < |s| && s[i].free && x in Live(s)
    ensures x != AllocOf(s[i])
  {
    var k := LiveBlock(s, x);
    assert Placed(s[k]) && Placed(s[i]);
  }

  /** What callers' bytes read as, taken for a tag or a header, at addresses where the heap keeps
      neither: payloads, handed out or free, may hold anything. */
  datatype Residue = Residue(tags: map<nat, Tag>, headers: map<nat, Header>)

  const NO_RESIDUE: Residue := Residue(map[], map[])

  /** The comparisons of validate_pointer. */
  predicate Matches(h: Header, tag: Tag, seed: nat, pointer: nat)
    requires seed <= UINTPTR_MAX && tag.block <= UINTPTR_MAX && pointer <= UINTPTR_MAX
  {
    && h.live && !h.free && h.user == pointer && h.requested == tag.requested
    && tag.cookie == Cookie(seed, tag.block, pointer)
  }

  class Kheap {
    const provider: (nat, nat, nat) -> bool   // whether request n, map_pages(address, pages), succeeds
    var requests: nat                    // how often the provider was asked
    var arenaBase: nat
    var arenaSize: nat
    var committed: nat
    var minimumGrowthPages: nat
    var first: nat
    var last: nat
    var seed: nat
    var lastError: int
    var initialized: bool
    var growths: nat                     // how often pages were mapped
    var headers: map<nat, Header>
    var tags: map<nat, Tag>
    var memory: map<nat, Cell>
    ghost var blocks: seq<Blk>

    ghost predicate Chained()
      reads this`arenaBase, this`committed, this`first, this`last, this`headers, this`memory, this`blocks
    {
      && 0 < arenaBase
      && Tiled(blocks, arenaBase, arenaBase + committed)
      && first == (if blocks == [] then NULL else blocks[0].addr)
      && last == (if blocks == [] then NULL else blocks[|blocks| - 1].addr)
      && Linked(headers, blocks)
      && (forall a :: a in memory <==> arenaBase <= a < arenaBase + committed)
    }

    ghost predicate Geometry()
      reads this`arenaBase, this`arenaSize, this`committed, this`seed
    {
      && arenaBase % PAGE_SIZE == 0 && arenaSize % PAGE_SIZE == 0 && committed % PAGE_SIZE == 0
      && PAGE_SIZE <= arenaBase && committed <= arenaSize && arenaBase + arenaSize <= UINTPTR_MAX
      && seed <= UINTPTR_MAX
    }

    /** What holds whenever no operation is under way. */
    ghost predicate Consistent()
      reads this`arenaBase, this`arenaSize, this`committed, this`seed, this`tags,
            this`first, this`last, this`headers, this`memory, this`blocks
    {
      && Geometry()
      && Chained()
      && Sound(blocks, arenaBase, arenaBase + committed)
      && Tagged(tags, Live(blocks), seed)
    }

    /** An initialized heap between calls. */
    ghost predicate Ready()
      reads this`arenaBase, this`arenaSize, this`committed, this`seed, this`tags, this`initialized,
            this`minimumGrowthPages, this`first, this`last, this`headers, this`memory, this`blocks
    {
      initialized && 0 < committed && Consistent() && minimumGrowthPages <= UINTPTR_MAX / PAGE_SIZE
    }

    method Store(a: nat, h: Header)
      modifies this`headers, this`memory
      ensures headers == old(headers)[a := h]
      ensures memory == Clobber(old(memory), a, HEADER_BYTES)
    {
      headers := headers[a := h];
      memory := Clobber(memory, a, HEADER_BYTES);
    }

    /** merge_next on block i of the chain. */
    method MergeNextBlock(block: nat, ghost i: nat)
      requires Chained() && i < |blocks| && blocks[i].addr == block
      modifies this`headers, this`memory, this`last, this`blocks
      ensures Chained() && blocks == MergeNext(old(blocks), i) && memory.Keys == old(memory).Keys
      ensures forall a :: a in memory && !HeaderByte(old(blocks), a) ==> memory[a] == old(memory)[a]
    {
      hide Tiled, Linked, HeadersMatch, HeaderOf, HeaderByte, Clobber;
      ghost var s := blocks;
      LinkedMatch(headers, s);
      Neighbours(headers, s, arenaBase, arenaBase + committed, i);
      var h := headers[block];
      if h.next == NULL || !headers[h.next].free {
        return;
      }
      Neighbours(headers, s, arenaBase, arenaBase + committed, i + 1);
      MergedLinked(headers, s, arenaBase, arenaBase + committed, i);
      MergeKeepsTiled(s, arenaBase, arenaBase + committed, i);
      HeaderBytes(s, i);
      HeaderBytes(s, i + 1);
      if i + 2 < |s| { HeaderBytes(s, i + 2); }
      var n, newLast := headers[h.next], last;
      var hs, m := headers, memory;
      hs, m := hs[block := h.(span := h.span + n.span, next := n.next)], Clobber(m, block, HEADER_BYTES);
      if n.next != NULL {
        hs, m := hs[n.next := hs[n.next].(previous := block)], Clobber(m, n.next, HEADER_BYTES);
      } else {
        newLast := block;
      }
      hs, m := hs[h.next := hs[h.next].(live := false)], Clobber(m, h.next, HEADER_BYTES);
      headers, memory, last := hs, m, newLast;
      blocks := MergeNext(s, i);
    }

    /** Cuts block i after `consumed` bytes and links the rest behind it as a free block. */
    method InsertTail(block: nat, ghost i: nat, consumed: nat)
      requires Chained() && i < |blocks| && blocks[i].addr == block
      requires 96 <= consumed && consumed + MIN_SPAN <= blocks[i].span && consumed % MIN_ALIGNMENT == 0
      modifies this`headers, this`memory, this`last, this`blocks
      ensures Chained() && blocks == Inserted(old(blocks), i, consumed) && memory.Keys == old(memory).Keys
      ensures forall a :: a in memory && !HeaderByte(blocks, a) ==> memory[a] == old(memory)[a]
    {
      hide Tiled, Linked, HeadersMatch, HeaderOf, HeaderByte, Clobber;
      ghost var s := blocks;
      LinkedMatch(headers, s);
      Neighbours(headers, s, arenaBase, arenaBase + committed, i);
      SpanOf(headers, s, i);
      InsertedLinked(headers, s, arenaBase, arenaBase + committed, i, consumed);
      InsertedTiled(s, arenaBase, arenaBase + committed, i, consumed);
      ghost var r := Inserted(s, i, consumed);
      HeaderBytes(r, i);
      HeaderBytes(r, i + 1);
      if i + 1 < |s| { HeaderBytes(r, i + 2); }
      var h, tail, newLast := headers[block], block + consumed, last;
      var hs, m := headers, memory;
      hs := hs[tail := Header(true, h.span - consumed, 0, 0, block, h.next, true)];
      m := Clobber(m, tail, HEADER_BYTES);
      if h.next != NULL {
        hs, m := hs[h.next := hs[h.next].(previous := tail)], Clobber(m, h.next, HEADER_BYTES);
      } else {
        newLast := tail;
      }
      hs, m := hs[block := h.(span := consumed, next := tail)], Clobber(m, block, HEADER_BYTES);
      headers, memory, last := hs, m, newLast;
      blocks := r;
    }

    /** split_trailing on block i; the merge of the tail with a free next block is merge_next. */
    method SplitTrailingBlock(block: nat, ghost i: nat, consumed: nat)
      requires Chained() && i < |blocks| && blocks[i].addr == block
      requires 96 <= consumed <= blocks[i].span && consumed % MIN_ALIGNMENT == 0
      modifies this`headers, this`memory, this`last, this`blocks
      ensures Chained() && blocks == SplitTrailing(old(blocks), i, consumed) && memory.Keys == old(memory).Keys
      ensures forall a :: (a in memory && !HeaderByte(old(blocks), a)
                           && !(block + consumed <= a < End(old(blocks)[i]))) ==> memory[a] == old(memory)[a]
    {
      hide Chained, HeaderByte;
      ghost var s := blocks;
      assert block in headers && headers[block].span == s[i].span by { SpanOfChain(this, i); }
      if headers[block].span - consumed < MIN_SPAN {
        return;
      }
      InsertedHeaderBytes(s, i, consumed);
      InsertTail(block, i, consumed);
      MergeNextBlock(block + consumed, i + 1);
    }

    /** Rewrites the allocation fields of the header of block i. */
    method MarkBlock(block: nat, ghost i: nat, free: bool, user: nat, size: nat)
      requires Chained() && i < |blocks| && blocks[i].addr == block
      modifies this`headers, this`memory, this`blocks
      ensures Chained() && blocks == Mark(old(blocks), i, free, user, size)
      ensures memory == Clobber(old(memory), block, HEADER_BYTES)
    {
      hide Linked;
      ghost var s := blocks;
      LinkedMatch(headers, s);
      Neighbours(headers, s, arenaBase, arenaBase + committed, i);
      UpdateLinked(headers, s, arenaBase, arenaBase + committed, i,
                   s[i].(free := free, user := user, requested := size));
      MarkTiled(s, arenaBase, arenaBase + committed, i, free, user, size);
      hide Tiled, HeadersMatch;
      Store(block, headers[block].(free := free, user := user, requested := size));
      blocks := Mark(s, i, free, user, size);
    }

    /** Writes the tag in front of a pointer, over bytes of no header. */
    method StoreTag(pointer: nat, tag: Tag)
      requires TAG <= pointer && TagClear(blocks, pointer)
      modifies this`tags, this`memory
      ensures tags == old(tags)[pointer - TAG := tag]
      ensures memory == Clobber(old(memory), pointer - TAG, TAG)
    {
      tags := tags[pointer - TAG := tag];
      memory := Clobber(memory, pointer - TAG, TAG);
    }

    /** Hands out `pointer` in free block i, as ns_kheap_alloc_aligned does once a block fits. */
    method Place(block: nat, ghost i: nat, pointer: nat, consumed: nat, size: nat)
      requires Consistent() && i < |blocks| && blocks[i].addr == block && blocks[i].free
      requires 96 <= consumed <= blocks[i].span && consumed % MIN_ALIGNMENT == 0
      requires Placed(Blk(block, consumed, false, pointer, size))
      modifies this`headers, this`memory, this`last, this`blocks, this`tags
      ensures Consistent() && blocks == Allocate(old(blocks), i, consumed, pointer, size)
      ensures SameBytes(old(memory), memory, Live(old(blocks)))
    {
      hide Tiled, Sound, Linked, HeaderByte, Live, Tagged, SameBytes, Clobber, Cookie, SplitTrailing, TagClear;
      ghost var s, end := blocks, arenaBase + committed;
      AllocateSound(s, arenaBase, end, i, consumed, pointer, size);
      BlockWithin(s, arenaBase, end, i);
      AllocationTagged(s, arenaBase, end, i, consumed, pointer, size, tags, seed);
      SplitTrailingBlock(block, i, consumed);
      SplitKeepsAddress(s, i, consumed);
      MarkBlock(block, i, false, pointer, size);
      MetadataDisjoint(blocks, arenaBase, end, i);
      StoreTag(pointer, Tag(Cookie(seed, block, pointer), block, size));
      HeaderBytes(s, i);
      OthersUntouched(s, arenaBase, end, i, old(memory), memory, Live(s));
    }

    /** The header updates of grow_heap: extend a free last block, or append a block. */
    method LinkGrown(address: nat, bytes: nat)
      requires 0 < arenaBase && Tiled(blocks, arenaBase, address) && Linked(headers, blocks)
      requires first == (if blocks == [] then NULL else blocks[0].addr)
      requires last == (if blocks == [] then NULL else blocks[|blocks| - 1].addr)
      modifies this`headers, this`memory, this`first, this`last
      ensures var r := HeapBlocks.Grow(blocks, address, bytes);
        Linked(headers, r) && r != [] && first == r[0].addr && last == r[|r| - 1].addr
      ensures memory.Keys == old(memory).Keys
      ensures forall a :: a in memory && a < address && !HeaderByte(blocks, a) ==> memory[a] == old(memory)[a]
    {
      hide Tiled, HeadersMatch, OnChain, HeaderOf, HeaderByte;
      ghost var s := blocks;
      if s != [] { Neighbours(headers, s, arenaBase, address, |s| - 1); HeaderBytes(s, |s| - 1); }
      if last != NULL && headers[last].free {
        GrownLast(headers, s, arenaBase, address, bytes);
        Store(last, headers[last].(span := headers[last].span + bytes));
      } else {
        GrownAppended(headers, s, arenaBase, address, bytes);
        Store(address, Header(true, bytes, 0, 0, last, NULL, true));
        if last != NULL {
          Store(last, headers[last].(next := address));
        } else {
          first := address;
        }
        last := address;
      }
    }

    /** grow_heap once the pages are mapped: zero them and make them a free block. */
    method MapPages(bytes: nat)
      requires Chained()
      requires Tiled(HeapBlocks.Grow(blocks, arenaBase + committed, bytes), arenaBase, arenaBase + committed + bytes)
      modifies this`committed, this`first, this`last, this`headers, this`memory, this`blocks
      ensures Chained() && committed == old(committed) + bytes
      ensures blocks == HeapBlocks.Grow(old(blocks), arenaBase + old(committed), bytes)
      ensures forall a :: a in old(memory) && !HeaderByte(old(blocks), a) ==> a in memory && memory[a] == old(memory)[a]
    {
      hide Tiled, Linked, HeaderByte, Zeroed, HeapBlocks.Grow;
      var address := arenaBase + committed;
      memory := Zeroed(memory, address, address + bytes);
      LinkGrown(address, bytes);
      blocks := HeapBlocks.Grow(blocks, address, bytes);
      committed := committed + bytes;
    }

    method Commit(bytes: nat)
      requires Consistent() && PAGE_SIZE <= bytes <= arenaSize - committed
      requires bytes % MIN_ALIGNMENT == 0 && (committed + bytes) % PAGE_SIZE == 0
      modifies this`committed, this`first, this`last, this`headers, this`memory, this`blocks, this`growths
      ensures Consistent()
      ensures committed == old(committed) + bytes && growths == old(growths) + 1
      ensures blocks == HeapBlocks.Grow(old(blocks), arenaBase + old(committed), bytes)
      ensures SameBytes(old(memory), memory, Live(old(blocks))) && Live(blocks) == Live(old(blocks))
    {
      hide Tiled, Sound, Linked, HeaderByte, Live, Tagged, SameBytes, HeapBlocks.Grow;
      ghost var s, address := blocks, arenaBase + committed;
      GrowSound(s, arenaBase, address, bytes);
      GrownTiled(s, arenaBase, address, bytes);
      MapPages(bytes);
      growths := growths + 1;
      OthersUntouched(s, arenaBase, address, |s|, old(memory), memory, Live(s));
    }

    /** grow_heap: ask for at least `minimum` more bytes. */
    method Grow(minimum: nat) returns (result: int)
      requires Consistent() && 0 < minimum
      modifies this`committed, this`first, this`last, this`headers, this`memory, this`blocks, this`growths,
               this`requests
      ensures Consistent()
      ensures var plan := PlanGrowth(minimum, minimumGrowthPages, arenaSize - old(committed));
        && (result == OK <==> plan.By? && provider(old(requests), arenaBase + old(committed), plan.pages))
        && (result == OK ==>
              && committed == old(committed) + plan.bytes && growths == old(growths) + 1
              && blocks == HeapBlocks.Grow(old(blocks), arenaBase + old(committed), plan.bytes))
      ensures result != OK ==> result == ENOMEM
      ensures result != OK ==>
        && committed == old(committed) && first == old(first) && last == old(last) && headers == old(headers)
        && memory == old(memory) && blocks == old(blocks) && growths == old(growths)
      ensures result == OK ==> SameBytes(old(memory), memory, Live(old(blocks))) && Live(blocks) == Live(old(blocks))
    {
      hide Chained, Sound, Live, Tagged, PlanGrowth, HeapBlocks.Grow, SameBytes;
      var plan := PlanGrowth(minimum, minimumGrowthPages, arenaSize - committed);
      if plan.NoGrowth? {
        return ENOMEM;
      }
      var granted := provider(requests, arenaBase + committed, plan.pages);
      requests := requests + 1;
      if !granted {
        return ENOMEM;
      }
      GrowthShape(minimum, minimumGrowthPages, arenaSize - committed);
      WholePages(committed, plan.bytes);
      Commit(plan.bytes);
      return OK;
    }

    /** The first-fit scan: the lowest free block with room, if any. */
    method FindFit(size: nat, alignment: nat)
      returns (found: bool, block: nat, pointer: nat, consumed: nat, ghost i: nat)
      requires Consistent() && alignment > 0
      ensures found ==>
        && i < |blocks| && blocks[i].addr == block && blocks[i].free
        && Layout(block, blocks[i].span, size, alignment) == Room(pointer, consumed)
        && forall k :: 0 <= k < i ==> !HasRoom(blocks[k], size, alignment)
      ensures found <==> !NoFit(blocks, size, alignment)
    {
      hide Tiled, Sound, Linked, HeadersMatch, Layout, Tagged, Live;
      found, pointer, consumed, block, i := false, 0, 0, first, 0;
      LinkedMatch(headers, blocks);
      while block != NULL
        invariant i <= |blocks| && block == if i < |blocks| then blocks[i].addr else NULL
        invariant forall k :: 0 <= k < i ==> !HasRoom(blocks[k], size, alignment)
        decreases |blocks| - i
      {
        Neighbours(headers, blocks, arenaBase, arenaBase + committed, i);
        var h := headers[block];
        if h.free {
          match Layout(block, h.span, size, alignment)
          case Room(p, c) =>
            return true, block, p, c, i;
          case NoRoom =>
        }
        block, i := h.next, i + 1;
      }
      if i < |blocks| { FirstNotNull(blocks, arenaBase, arenaBase + committed, i); }
    }

    ghost predicate OutOfMemory(size: nat, alignment: nat)
      requires Ready() && alignment > 0
      reads this
    {
      OutOfMemoryWith(blocks, size, alignment)
    }

    /** No block has room, and the arena cannot grow by what an allocation of its own block needs. */
    ghost predicate OutOfMemoryWith(s: seq<Blk>, size: nat, alignment: nat)
      requires committed <= arenaSize && alignment > 0
      reads this`arenaBase, this`arenaSize, this`committed, this`minimumGrowthPages, this`requests
    {
      var minimum := HEADER + TAG + size + alignment;
      && NoFit(s, size, alignment)
      && (arenaSize - committed < minimum
          || !provider(requests, arenaBase + committed, PagesFor(minimum, minimumGrowthPages, arenaSize - committed)))
    }

    /** What the allocation loop does with a block that fits. */
    method PlaceFit(block: nat, ghost i: nat, pointer: nat, consumed: nat, size: nat, alignment: nat)
      requires Consistent() && i < |blocks| && blocks[i].addr == block && blocks[i].free
      requires IsPowerOfTwo(alignment) && alignment >= MIN_ALIGNMENT && size > 0
      requires Layout(block, blocks[i].span, size, alignment) == Room(pointer, consumed)
      modifies this`headers, this`memory, this`last, this`blocks, this`tags
      ensures Consistent() && pointer % alignment == 0 && pointer != NULL
      ensures KeepsAll(old(blocks), blocks) && Snug(blocks, pointer, size, alignment)
      ensures old(blocks)[i].addr <= pointer < End(old(blocks)[i])
      ensures Added(Live(old(blocks)), Live(blocks), pointer, size)
      ensures SameBytes(old(memory), memory, Live(old(blocks)))
    {
      hide Layout, IsPowerOfTwo, Chained, Sound, Tagged, Live, SameBytes, Added, Allocate, KeepsAll;
      LayoutPlaces(block, blocks[i].span, size, alignment);
      LayoutThrift(block, blocks[i].span, size, alignment);
      AllocateHeld(blocks, i, consumed, pointer, size);
      AllocationNew(blocks, arenaBase, arenaBase + committed, i, consumed, pointer, size);
      Place(block, i, pointer, consumed, size);
    }

    /** The scan of the allocation loop: the first block with room, if any, yields the allocation. */
    method TakeFirst(size: nat, alignment: nat) returns (pointer: nat)
      requires Consistent() && 0 < size <= UINTPTR_MAX
      requires IsPowerOfTwo(alignment) && MIN_ALIGNMENT <= alignment <= UINTPTR_MAX
      modifies this`headers, this`memory, this`last, this`blocks, this`tags
      ensures Consistent() && (pointer == NULL <==> NoFit(old(blocks), size, alignment))
      ensures pointer == NULL ==> unchanged(this`headers, this`memory, this`last, this`blocks, this`tags)
      ensures pointer != NULL ==>
        && pointer % alignment == 0 && Added(Live(old(blocks)), Live(blocks), pointer, size)
        && SameBytes(old(memory), memory, Live(old(blocks)))
        && KeepsAll(old(blocks), blocks) && Snug(blocks, pointer, size, alignment)
        && FirstFit(old(blocks), pointer, size, alignment)
    {
      hide Layout, IsPowerOfTwo, Consistent, Live, SameBytes, NoFit, Added, Snug, HasRoom, FirstFit, KeepsAll;
      var found, block, p, consumed, i := FindFit(size, alignment);
      if !found {
        return NULL;
      }
      PassedOver(this, i, size, alignment);
      PlaceFit(block, i, p, consumed, size, alignment);
      return p;
    }

    /** What the allocation loop does when no block fits: one that does is there afterwards. */
    method GrowFor(minimum: nat, size: nat, alignment: nat) returns (result: int)
      requires Consistent() && 0 < alignment && minimum == HEADER + TAG + size + alignment
      modifies this`committed, this`first, this`last, this`headers, this`memory, this`blocks, this`growths,
               this`requests
      ensures Consistent()
      ensures result == OK <==>
        var plan := PlanGrowth(minimum, minimumGrowthPages, arenaSize - old(committed));
        plan.By? && provider(old(requests), arenaBase + old(committed), plan.pages)
      ensures result != OK ==> result == ENOMEM
      ensures result != OK ==>
        && committed == old(committed) && first == old(first) && last == old(last) && headers == old(headers)
        && memory == old(memory) && blocks == old(blocks) && growths == old(growths)
      ensures result == OK ==>
        && committed > old(committed) && growths == old(growths) + 1
        && !NoFit(blocks, size, alignment) && KeepsAll(old(blocks), blocks)
        && SameBytes(old(memory), memory, Live(old(blocks))) && Live(blocks) == Live(old(blocks))
    {
      hide Chained, Sound, Live, Tagged, PlanGrowth, HeapBlocks.Grow, SameBytes, HasRoom, KeepsAll;
      ghost var s := blocks;
      result := Grow(minimum);
      if result == OK {
        ghost var growth := committed - old(committed);
        GrowthShape(minimum, minimumGrowthPages, arenaSize - old(committed));
        WholePages(0, growth);
        GrownFits(s, arenaBase, arenaBase + old(committed), growth, size, alignment);
        GrowHeld(s, arenaBase + old(committed), growth);
      }
    }

    /** ns_kheap_alloc_aligned. */
    method AllocAligned(size: nat, requestedAlignment: nat) returns (p: nat)
      requires initialized ==> Ready()
      requires size <= UINTPTR_MAX && requestedAlignment <= UINTPTR_MAX
      modifies this`committed, this`first, this`last, this`headers, this`memory, this`blocks, this`growths,
               this`requests, this`tags, this`lastError
      ensures initialized ==> Ready()
      ensures !(initialized && size > 0 && IsPowerOfTwo(requestedAlignment)) ==> p == NULL && lastError == EINVAL
      ensures p == NULL ==> blocks == old(blocks) && memory == old(memory) && tags == old(tags)
                            && headers == old(headers) && committed == old(committed)
      ensures p != NULL ==>
        && initialized && lastError == OK
        && p % requestedAlignment == 0 && p % MIN_ALIGNMENT == 0
        && Added(Live(old(blocks)), Live(blocks), p, size)
        && SameBytes(old(memory), memory, Live(old(blocks)))
        && KeepsAll(old(blocks), blocks) && Snug(blocks, p, size, AlignmentFor(requestedAlignment))
        && FirstFit(old(blocks), p, size, AlignmentFor(requestedAlignment))
      ensures initialized && size > 0 && IsPowerOfTwo(requestedAlignment) ==>
        (p == NULL <==> old(OutOfMemory(size, AlignmentFor(requestedAlignment))))
      ensures growths <= old(growths) + 1
    {
      hide Layout, PlanGrowth, IsPowerOfTwo, Consistent, Live, SameBytes, NoFit, Added, AlignmentFor, Snug, FirstFit,
        KeepsAll;
      if !initialized || size == 0 || !IsPowerOfTwo(requestedAlignment) {
        lastError := EINVAL;
        return NULL;
      }
      var alignment := AlignmentFor(requestedAlignment);
      AlignmentUsed(requestedAlignment, 0);
      var minimum := HEADER + TAG + size + alignment;
      ghost var grown := false;
      NonePlaced(this, size, alignment);
      KeepsSame(blocks);
      GrowthRefused(this, minimum);
      Untouched(this);
      while true
        invariant Ready()
        invariant !grown ==>
          && blocks == old(blocks) && memory == old(memory) && tags == old(tags)
          && headers == old(headers) && committed == old(committed) && growths == old(growths)
          && requests == old(requests)
        invariant grown ==>
          && growths == old(growths) + 1 && !NoFit(blocks, size, alignment)
          && !old(OutOfMemory(size, alignment))
        invariant Live(blocks) == Live(old(blocks)) && SameBytes(old(memory), memory, Live(blocks))
        invariant KeepsAll(old(blocks), blocks) && (grown ==> old(NoFit(blocks, size, alignment)))
        decreases !grown
      {
        ghost var m, s := memory, blocks;
        var pointer := TakeFirst(size, alignment);
        if pointer != NULL {
          SameBytesTransitive(old(memory), m, memory, Live(old(blocks)));
          KeepsTwice(old(blocks), s, blocks);
          AlignmentUsed(requestedAlignment, pointer);
          lastError := OK;
          return pointer;
        }
        assert !grown;
        if minimum > UINTPTR_MAX {
          lastError := ENOMEM;
          return NULL;
        }
        var result := GrowFor(minimum, size, alignment);
        if result != OK {
          lastError := result;
          return NULL;
        }
        grown := true;
      }
    }

    /** The imitations are nowhere where the heap keeps a tag or a header of its own. */
    ghost predicate Apart(residue: Residue)
      reads this`blocks
    {
      && (forall x :: x in Live(blocks) && TAG <= x.pointer ==> x.pointer - TAG !in residue.tags)
      && (forall i :: 0 <= i < |blocks| ==> blocks[i].addr !in residue.headers)
    }

    /** What reads as a tag in front of a pointer. */
    function TagBefore(residue: Residue, pointer: nat): (tag: Tag)
      requires TAG <= pointer
      reads this`tags
    {
      if pointer - TAG in residue.tags then residue.tags[pointer - TAG]
      else if pointer - TAG in tags then tags[pointer - TAG]
      else Tag(0, NULL, 0)
    }

    /** The bytes in front of the pointer read as a tag with the right cookie, and the block it names
        is an imitation: a header with the magic number, in use, for just this pointer. */
    predicate Imitated(residue: Residue, pointer: nat)
      reads this`arenaBase, this`committed, this`seed, this`tags
    {
      && arenaBase + HEADER + TAG <= pointer < arenaBase + committed && pointer <= UINTPTR_MAX && seed <= UINTPTR_MAX
      && var tag := TagBefore(residue, pointer);
      && arenaBase <= tag.block && tag.block + HEADER <= arenaBase + committed && tag.block <= UINTPTR_MAX
      && tag.block in residue.headers
      && Matches(residue.headers[tag.block], tag, seed, pointer)
    }

    predicate InArena(pointer: nat)
      reads this`arenaBase, this`committed
    {
      arenaBase + HEADER + TAG <= pointer < arenaBase + committed
    }

    /** The tag read in front of an address gives a free block, or an imitation of one. */
    ghost predicate NamesFree(residue: Residue, pointer: nat)
      reads this`arenaBase, this`committed, this`tags, this`blocks
    {
      && InArena(pointer)
      && var block := TagBefore(residue, pointer).block;
      && arenaBase <= block <= arenaBase + committed - HEADER
      && if block in residue.headers then residue.headers[block].live && residue.headers[block].free
         else exists k :: 0 <= k < |blocks| && blocks[k].addr == block && blocks[k].free
    }

    /** validate_pointer: a pointer passes exactly when it was handed out and not freed since, or is
        imitated. */
    method ValidatePointer(pointer: nat, residue: Residue) returns (result: int, block: nat, ghost i: nat)
      requires Consistent() && 0 < committed && pointer <= UINTPTR_MAX && Apart(residue)
      ensures result == OK <==> LiveAt(Live(blocks), pointer) || Imitated(residue, pointer)
      ensures result == OK ==> (block in residue.headers <==> Imitated(residue, pointer))
      ensures result == OK && !Imitated(residue, pointer) ==>
        i < |blocks| && !blocks[i].free && blocks[i].addr == block && blocks[i].user == pointer
      ensures LiveAt(Live(blocks), pointer) ==> !Imitated(residue, pointer)
      ensures result != OK ==> result in {EINVAL, ECORRUPT, EDOUBLEFREE}
      ensures (result == EINVAL <==> !InArena(pointer)) && (result == EDOUBLEFREE <==> NamesFree(residue, pointer))
    {
      hide Sound, Linked, Live, Tagged, Cookie, HeaderOf;
      ChainFree(this);
      block, i := NULL, 0;
      if LiveAt(Live(blocks), pointer) {
        LiveRecorded(this, pointer);
        LiveApart(this, residue, pointer);
      }
      if pointer == NULL || pointer < arenaBase + HEADER + TAG || pointer >= arenaBase + committed {
        return EINVAL, block, i;
      }
      var tag := TagBefore(residue, pointer);
      if tag.block < arenaBase || tag.block > arenaBase + committed - HEADER {
        return ECORRUPT, block, i;
      }
      if tag.block !in residue.headers && tag.block !in headers {
        return ECORRUPT, block, i;
      }
      var h := if tag.block in residue.headers then residue.headers[tag.block] else headers[tag.block];
      if !h.live {
        return ECORRUPT, block, i;
      }
      if h.free {
        return EDOUBLEFREE, block, i;
      }
      if h.user != pointer || h.requested != tag.requested || tag.cookie != Cookie(seed, tag.block, pointer) {
        return ECORRUPT, block, i;
      }
      if tag.block !in residue.headers {
        i := ChainBlock(headers, blocks, tag.block);
        BlockLive(blocks, i);
      }
      return OK, tag.block, i;
    }

    /** The header updates of ns_kheap_free: mark block i free and merge it with free neighbours. */
    method ReleaseBlock(block: nat, ghost i: nat)
      requires Chained() && i < |blocks| && blocks[i].addr == block
      modifies this`headers, this`memory, this`last, this`blocks
      ensures Chained() && blocks == Release(old(blocks), i) && memory.Keys == old(memory).Keys
      ensures forall a :: a in memory && !HeaderByte(old(blocks), a) ==> memory[a] == old(memory)[a]
    {
      hide Chained, HeaderByte, MergeNext, Clobber;
      ghost var s := blocks;
      HeaderBytes(s, i);
      MarkBlock(block, i, true, 0, 0);
      MarkHeaderBytes(s, i, true, 0, 0);
      MergeHeaderBytes(blocks, i);
      MergeShape(blocks, i);
      MergeNextBlock(block, i);
      PreviousOf(this, i);
      var previous := headers[block].previous;
      if previous != NULL && headers[previous].free {
        MergeNextBlock(previous, i - 1);
      }
    }

    /** ns_kheap_free once the pointer is known to be live. */
    method FreeBlock(block: nat, ghost i: nat, pointer: nat)
      requires Consistent() && i < |blocks| && !blocks[i].free && blocks[i].addr == block && blocks[i].user == pointer
      modifies this`headers, this`memory, this`last, this`blocks, this`tags
      ensures Consistent()
      ensures Removed(Live(old(blocks)), Live(blocks), pointer) && Keeps(old(blocks), blocks, pointer)
      ensures SameBytes(old(memory), memory, Live(blocks))
    {
      hide Tiled, Linked, Sound, Live, Tagged, Removed, HeaderByte, SameBytes, Clobber, Release, TagClear, Keeps;
      ghost var s, end := blocks, arenaBase + committed;
      FreedTagged(this, i);
      ReleaseSound(s, arenaBase, end, i);
      ReleaseHeld(s, i);
      MetadataDisjoint(s, arenaBase, end, i);
      StoreTag(pointer, tags[pointer - TAG].(cookie := 0));
      ReleaseBlock(block, i);
      OthersUntouched(s, arenaBase, end, i, old(memory), memory, Live(blocks));
    }

    /** ns_kheap_free.  Of an imitated pointer only the answer is modelled, not what following its
        links then does. */
    method Free(pointer: nat, residue: Residue) returns (result: int)
      requires initialized ==> Ready() && Apart(residue)
      requires pointer <= UINTPTR_MAX
      modifies this`headers, this`memory, this`last, this`blocks, this`tags, this`lastError
      ensures initialized && !old(Imitated(residue, pointer)) ==> Ready()
      ensures pointer == NULL ==> result == OK && unchanged(this)
      ensures pointer != NULL && !initialized ==> result == EINVAL && unchanged(this)
      ensures pointer != NULL && initialized ==>
        && (result == OK <==> LiveAt(Live(old(blocks)), pointer) || old(Imitated(residue, pointer)))
        && (result == EINVAL <==> !old(InArena(pointer)))
        && (result == EDOUBLEFREE <==> old(NamesFree(residue, pointer)))
        && (result == OK || result == EINVAL || result == EDOUBLEFREE || result == ECORRUPT) && lastError == result
      ensures result != OK ==> unchanged(this`headers, this`memory, this`last, this`blocks, this`tags)
      ensures pointer != NULL && result == OK && !old(Imitated(residue, pointer)) ==>
        && Removed(Live(old(blocks)), Live(blocks), pointer) && Keeps(old(blocks), blocks, pointer)
        && SameBytes(old(memory), memory, Live(blocks))
    {
      hide Consistent, Live, Removed, SameBytes, Imitated, Apart, Keeps, NamesFree;
      if pointer == NULL {
        return OK;
      }
      if !initialized {
        return EINVAL;
      }
      var validity, block, i := ValidatePointer(pointer, residue);
      result := validity;
      if result != OK {
        lastError := result;
        return;
      }
      if block !in residue.headers {
        FreeBlock(block, i, pointer);
      }
      lastError := OK;
    }

    /** Realloc's merge of an allocated block with the free block after it. */
    method AbsorbNext(block: nat, ghost i: nat)
      requires Consistent() && i < |blocks| && !blocks[i].free && blocks[i].addr == block
      modifies this`headers, this`memory, this`last, this`blocks
      ensures Consistent() && blocks == MergeNext(old(blocks), i) && Live(blocks) == Live(old(blocks))
      ensures SameBytes(old(memory), memory, Live(old(blocks))) && Keeps(old(blocks), blocks, old(blocks)[i].user)
    {
      hide Tiled, Linked, Sound, Live, Tagged, HeaderByte, SameBytes, MergeNext;
      ghost var s, end := blocks, arenaBase + committed;
      MergeSound(s, arenaBase, end, i);
      MergeHeld(s, i);
      MergeNextBlock(block, i);
      OthersUntouched(s, arenaBase, end, |s|, old(memory), memory, Live(s));
    }

    /** The cut of an in-place resize, behind the new end of the payload. */
    method CutBehind(block: nat, ghost i: nat, pointer: nat, size: nat)
      requires Consistent() && i < |blocks| && !blocks[i].free && blocks[i].addr == block && blocks[i].user == pointer
      requires 0 < size && block <= pointer && pointer + size <= End(blocks[i])
      requires CutAt(blocks[i], size) <= blocks[i].span
      modifies this`headers, this`memory, this`last, this`blocks
      ensures Chained() && blocks == SplitTrailing(old(blocks), i, CutAt(old(blocks)[i], size))
      ensures i < |blocks| && blocks[i].addr == block && memory.Keys == old(memory).Keys
      ensures forall a :: (a in memory && !HeaderByte(old(blocks), a)
                           && !(pointer + size <= a < End(old(blocks)[i]))) ==> memory[a] == old(memory)[a]
    {
      hide Chained, Sound, Live, Tagged, HeaderByte, SplitTrailing, AlignUp;
      ghost var s := blocks;
      ResizeFits(s, arenaBase, arenaBase + committed, i, size);
      BlockWithinHeap(this, i);
      var consumed := pointer + size - block;
      if consumed <= UINTPTR_MAX - (MIN_ALIGNMENT - 1) {
        consumed := AlignUp(consumed, MIN_ALIGNMENT);
        SplitTrailingBlock(block, i, consumed);
        SplitKeepsAddress(s, i, consumed);
      }
    }

    /** Realloc when the block has room for the new size. */
    method ResizeBlock(block: nat, ghost i: nat, pointer: nat, size: nat)
      requires Consistent() && i < |blocks| && !blocks[i].free && blocks[i].addr == block && blocks[i].user == pointer
      requires 0 < size && pointer + size <= End(blocks[i])
      modifies this`headers, this`memory, this`last, this`blocks, this`tags
      ensures Consistent()
      ensures ReallocatedTo(Live(old(blocks)), Live(blocks), old(memory), memory,
                            AllocOf(old(blocks)[i]), Alloc(block, pointer, size))
      ensures Keeps(old(blocks), blocks, pointer) && Tight(blocks, pointer, size)
    {
      hide Tiled, Linked, Sound, Live, Tagged, HeaderByte, SameBytes, Copied, Clobber, Cookie, SplitTrailing, CutAt,
        TagClear, Keeps, TightAt;
      ghost var s, end, x := blocks, arenaBase + committed, AllocOf(blocks[i]);
      ResizedTagged(this, i, size);
      ResizedSound(s, arenaBase, end, i, size);
      ResizedHeld(s, i, size);
      CutBehind(block, i, pointer, size);
      MarkBlock(block, i, false, pointer, size);
      MetadataDisjoint(blocks, arenaBase, end, i);
      StoreTag(pointer, Tag(Cookie(seed, block, pointer), block, size));
      HeaderBytes(s, i);
      OthersUntouched(s, arenaBase, end, i, old(memory), memory, Live(s) - {x});
      OwnUntouched(s, arenaBase, end, i, old(memory), memory, size);
    }

    /** heap_copy. */
    method Copy(to: nat, from: nat, n: nat)
      requires forall a: nat :: from <= a < from + n || to <= a < to + n ==> a in memory
      requires from + n <= to || to + n <= from
      modifies this`memory
      ensures memory.Keys == old(memory).Keys
      ensures Copied(old(memory), memory, from, to, n)
      ensures forall a :: a in memory && !(to <= a < to + n) ==> memory[a] == old(memory)[a]
    {
      var k := 0;
      while k < n
        invariant k <= n && memory.Keys == old(memory).Keys
        invariant Copied(old(memory), memory, from, to, k)
        invariant forall a :: a in memory && !(to <= a < to + k) ==> memory[a] == old(memory)[a]
      {
        ghost var m := memory;
        memory := memory[to + k := memory[from + k]];
        forall j: nat | j < k + 1
          ensures CopiedAt(old(memory), memory, from, to, j)
        {
          assert j < k ==> CopiedAt(old(memory), m, from, to, j);
        }
        k := k + 1;
      }
    }

    method CopyPayload(to: nat, from: nat, n: nat, ghost x: Alloc, ghost y: Alloc)
      requires Consistent() && x in Live(blocks) && y in Live(blocks) && x != y
      requires x.pointer == from && y.pointer == to && n <= x.size && n <= y.size
      modifies this`memory
      ensures Consistent()
      ensures Copied(old(memory), memory, from, to, n)
      ensures SameBytes(old(memory), memory, Live(blocks) - {y})
    {
      hide Tiled, Linked, Live, Sound, Tagged, SameBytes, Copied;
      CopyRoom(this, x, y);
      LiveDisjoint(blocks, arenaBase, arenaBase + committed, x, y);
      Copy(to, from, n);
      OutsideCopy(this, old(memory), y, n);
    }

    /** Realloc when the block has no room: allocate, copy, free. The free cannot fail. */
    method Move(pointer: nat, oldSize: nat, size: nat, ghost x: Alloc) returns (p: nat)
      requires Ready() && 0 < size <= UINTPTR_MAX && x in Live(blocks) && x.pointer == pointer && x.size == oldSize
      modifies this`committed, this`first, this`last, this`headers, this`memory, this`blocks, this`growths,
               this`requests, this`tags, this`lastError
      ensures Ready()
      ensures p == NULL <==> old(OutOfMemory(size, MIN_ALIGNMENT))
      ensures p == NULL ==> blocks == old(blocks) && memory == old(memory)
      ensures p != NULL ==>
        && p % MIN_ALIGNMENT == 0
        && ReallocatedAt(Live(old(blocks)), Live(blocks), old(memory), memory, x, p, size)
        && Keeps(old(blocks), blocks, pointer) && Tight(blocks, p, size)
    {
      hide Consistent, Live, SameBytes, Copied, OutOfMemory, Removed, Added, IsPowerOfTwo, Disjoint, Snug, Tight,
        FirstFit;
      Sixteen(MIN_ALIGNMENT);
      ghost var m0, l0 := memory, Live(blocks);
      p := AllocAligned(size, MIN_ALIGNMENT);
      if p == NULL {
        return;
      }
      ghost var m1, l1 := memory, Live(blocks);
      ghost var y := AddedBlock(l0, l1, p, size);
      SnugTight(blocks, p, size, AlignmentFor(MIN_ALIGNMENT));
      ghost var s1 := blocks;
      var n := if oldSize < size then oldSize else size;
      CopyPayload(p, pointer, n, x, y);
      ghost var m2 := memory;
      LivePointerBound(this, x);
      // The answer for a live pointer does not depend on what other bytes look like.
      NothingApart(this);
      NothingImitated(this, pointer);
      var freed := Free(pointer, NO_RESIDUE);
      assert freed == OK;
      RemovedIs(l1, Live(blocks), x);
      TightKept(s1, blocks, p, size, pointer);
      assert l1 - {y} == l0 && l1 - {x} == l0 - {x} + {y};
      MovedTo(l0, m0, m1, m2, memory, x, y, n);
    }

    /** Realloc of a live allocation to a nonzero size. */
    method ReallocLive(block: nat, ghost i: nat, pointer: nat, size: nat) returns (p: nat)
      requires Ready() && 0 < size <= UINTPTR_MAX
      requires i < |blocks| && !blocks[i].free && blocks[i].addr == block && blocks[i].user == pointer
      modifies this`committed, this`first, this`last, this`headers, this`memory, this`blocks, this`growths,
               this`requests, this`tags, this`lastError
      ensures Ready()
      ensures size <= RoomFor(old(blocks), i) ==> p == pointer
      ensures size > RoomFor(old(blocks), i) ==>
        (p == NULL <==> old(OutOfMemoryWith(MergeNext(blocks, i), size, MIN_ALIGNMENT)))
      ensures p == NULL ==> Live(blocks) == Live(old(blocks)) && SameBytes(old(memory), memory, Live(old(blocks)))
      ensures p != NULL ==>
        && p % MIN_ALIGNMENT == 0
        && ReallocatedAt(Live(old(blocks)), Live(blocks), old(memory), memory, AllocOf(old(blocks)[i]), p, size)
        && Tight(blocks, p, size)
      ensures Keeps(old(blocks), blocks, pointer)
    {
      hide Consistent, Live, SameBytes, Copied, OutOfMemoryWith, MergeNext, ReallocatedTo, Tight;
      ghost var s, x := blocks, AllocOf(blocks[i]);
      BlockLive(s, i);
      Untouched(this);
      LivePointerBound(this, x);
      HeaderAt(this, i);
      MergedBlock(s, i);
      var h := headers[block];
      var oldSize, available := h.requested, h.span - (pointer - block);
      if available < size && h.next != NULL && headers[h.next].free {
        AbsorbNext(block, i);
        HeaderAt(this, i);
        available := headers[block].span - (pointer - block);
      }
      ghost var m := memory;
      if available >= size {
        ResizeBlock(block, i, pointer, size);
        ReallocatedAfter(Live(s), Live(blocks), old(memory), m, memory, x, Alloc(block, pointer, size));
        lastError := OK;
        return pointer;
      }
      p := Move(pointer, oldSize, size, x);
      if p != NULL {
        ReallocatedMoved(Live(s), Live(blocks), old(memory), m, memory, x, p, size);
      }
    }

    /** ns_kheap_realloc; as for Free, nothing is promised of an imitated pointer. */
    method Realloc(pointer: nat, size: nat, residue: Residue) returns (p: nat)
      requires initialized ==> Ready() && Apart(residue)
      requires pointer <= UINTPTR_MAX && size <= UINTPTR_MAX
      modifies this`committed, this`first, this`last, this`headers, this`memory, this`blocks, this`growths,
               this`requests, this`tags, this`lastError
      ensures initialized && !old(Imitated(residue, pointer)) ==> Ready()
      ensures pointer == NULL && p != NULL ==>
        && size > 0 && initialized && Added(Live(old(blocks)), Live(blocks), p, size)
        && SameBytes(old(memory), memory, Live(old(blocks)))
      ensures pointer == NULL && p == NULL ==> blocks == old(blocks) && memory == old(memory)
      ensures pointer == NULL && initialized && size > 0 ==> (p == NULL <==> old(OutOfMemory(size, MIN_ALIGNMENT)))
      ensures pointer != NULL && !initialized ==> p == NULL && blocks == old(blocks) && memory == old(memory)
      ensures pointer != NULL && initialized && !old(Imitated(residue, pointer)) ==>
        !LiveAt(Live(old(blocks)), pointer) ==> p == NULL && blocks == old(blocks) && memory == old(memory)
      ensures pointer != NULL && size == 0 ==> p == NULL
      ensures pointer != NULL && size == 0 && initialized && LiveAt(Live(old(blocks)), pointer) ==>
        && Removed(Live(old(blocks)), Live(blocks), pointer)
        && SameBytes(old(memory), memory, Live(blocks))
      ensures pointer != NULL && size > 0 && p == NULL && initialized && !old(Imitated(residue, pointer)) ==>
        && Live(blocks) == Live(old(blocks)) && SameBytes(old(memory), memory, Live(old(blocks)))
      ensures p != NULL && !(initialized && old(Imitated(residue, pointer))) ==> p % MIN_ALIGNMENT == 0
      ensures pointer != NULL && p != NULL && !(initialized && old(Imitated(residue, pointer))) ==>
        && initialized && size > 0 && LiveAt(Live(old(blocks)), pointer)
        && exists x, b :: x in Live(old(blocks)) && x.pointer == pointer
             && ReallocatedTo(Live(old(blocks)), Live(blocks), old(memory), memory, x, Alloc(b, p, size))
      ensures p != NULL && !(initialized && old(Imitated(residue, pointer))) ==> Tight(blocks, p, size)
      ensures !(initialized && old(Imitated(residue, pointer))) ==> Keeps(old(blocks), blocks, pointer)
      ensures forall i :: pointer != NULL && size > 0 && initialized && BlockAt(old(blocks), i, pointer) ==>
        if size <= RoomFor(old(blocks), i) then p == pointer
        else p == NULL <==> old(OutOfMemoryWith(MergeNext(blocks, i), size, MIN_ALIGNMENT))
    {
      hide Consistent, Live, SameBytes, OutOfMemoryWith, MergeNext, ReallocatedTo, Removed, Added, RoomFor,
        IsPowerOfTwo, Imitated, Apart, Tight, Snug, FirstFit;
      if pointer == NULL {
        Sixteen(MIN_ALIGNMENT);
        p := AllocAligned(size, MIN_ALIGNMENT);
        if p != NULL { SnugTight(blocks, p, size, AlignmentFor(MIN_ALIGNMENT)); }
        return;
      }
      if size == 0 {
        if initialized { LiveNotImitated(this, residue, pointer); }
        var _ := Free(pointer, residue);
        return NULL;
      }
      if !initialized {
        return NULL;
      }
      var validity, block, i := ValidatePointer(pointer, residue);
      if validity != OK {
        lastError := validity;
        Untouched(this);
        NotLive(blocks, pointer);
        return NULL;
      }
      if block in residue.headers {
        NotLive(blocks, pointer);
        return NULL;
      }
      OnlyBlockAt(this, i);
      p := ReallocLive(block, i, pointer, size);
    }

    constructor (provider: (nat, nat, nat) -> bool)
      ensures !initialized && this.provider == provider
    {
      this.provider := provider;
      arenaBase, arenaSize, committed, minimumGrowthPages := 0, 0, 0, 0;
      first, last, seed, lastError, initialized, growths, requests := NULL, NULL, 0, OK, false, 0, 0;
      headers, tags, memory, blocks := map[], map[], map[], [];
    }

    method Clear()
      modifies this`committed, this`first, this`last, this`headers, this`tags, this`memory, this`blocks, this`growths
      ensures committed == 0 && first == last == NULL && headers == map[] && tags == map[] && memory == map[]
      ensures blocks == []
    {
      committed, first, last, growths := 0, NULL, NULL, 0;
      headers, tags, memory, blocks := map[], map[], map[], [];
    }

    /** ns_kheap_init before the first growth: nothing is mapped yet. */
    method Reset(base: nat, size: nat, ghost initialPages: nat, growthPages: nat)
      requires InitArguments(base, size, initialPages, growthPages) && base <= UINTPTR_MAX && size <= UINTPTR_MAX
      modifies this`arenaBase, this`arenaSize, this`committed, this`minimumGrowthPages, this`first, this`last,
               this`headers, this`tags, this`memory, this`blocks, this`seed, this`lastError,
               this`initialized, this`growths
      ensures arenaBase == base && arenaSize == size && committed == 0 && minimumGrowthPages == growthPages
      ensures blocks == [] && initialized && Consistent()
    {
      hide *;
      Clear();
      arenaBase, arenaSize, minimumGrowthPages := base, size, growthPages;
      seed := Seed(base, size);
      lastError, initialized := OK, true;
      InitGeometry(this, initialPages, growthPages);
    }

    /** ns_kheap_init. */
    method Init(base: nat, size: nat, initialPages: nat, growthPages: nat) returns (result: int)
      requires base <= UINTPTR_MAX && size <= UINTPTR_MAX
      modifies this
      ensures !InitArguments(base, size, initialPages, growthPages) ==> result == EINVAL && unchanged(this)
      ensures InitArguments(base, size, initialPages, growthPages) ==>
        var plan := PlanGrowth(initialPages * PAGE_SIZE, growthPages, size);
        (if plan.By? && provider(old(requests), base, plan.pages) then result == OK else result == ENOMEM)
      ensures result == OK ==>
        && Ready() && arenaBase == base && arenaSize == size && initialPages * PAGE_SIZE <= committed <= size
        && blocks == [Blk(base, committed, true, 0, 0)] && Live(blocks) == {}
      ensures result == ENOMEM ==> !initialized
    {
      hide Consistent, Live, PlanGrowth, InitArguments;
      if !InitArguments(base, size, initialPages, growthPages) {
        return EINVAL;
      }
      InitPages(base, size, initialPages, growthPages);
      Reset(base, size, initialPages, growthPages);
      var minimum := initialPages * PAGE_SIZE;
      result := Grow(minimum);
      if result != OK {
        initialized, lastError := false, result;
        return;
      }
      GrowthShape(minimum, growthPages, size);
      GrowthPagesBound(minimum, growthPages, size);
      LiveOne(blocks[0]);
    }

    /** The headers spell out the blocks s, which fill the committed arena. */
    ghost predicate SpelledBy(s: seq<Blk>)
      reads this`headers, this`first, this`last, this`arenaBase, this`committed
    {
      Intact(headers, first, last, s, arenaBase, arenaBase + committed)
    }

    /** check_invariants_unlocked, for any state of the headers. */
    method CheckInvariants() returns (result: int)
      ensures result == OK || result == ECORRUPT
      ensures result == OK <==> exists s :: SpelledBy(s)
    {
      hide Intact, Partial, Holds, Leads;
      var end := arenaBase + committed;
      if first == NULL || last == NULL || first != arenaBase {
        IntactStart(headers, first, last, arenaBase, end);
        return ECORRUPT;
      }
      var expected, previous, block := arenaBase, NULL, first;
      ghost var s: seq<Blk> := [];
      PartialEmpty(headers, first, last, arenaBase, end);
      while block != NULL
        invariant expected <= end && Partial(headers, s, arenaBase, expected, previous, block)
        invariant forall t :: Intact(headers, first, last, t, arenaBase, end) ==> Leads(s, t, block)
        decreases end - expected
      {
        forall t | Intact(headers, first, last, t, arenaBase, end)
          ensures Passes(headers, block, expected, previous, end)
          ensures Leads(s + [BlockOf(headers, block)], t, headers[block].next)
        {
          Forced(headers, first, last, s, t, arenaBase, end, expected, previous, block);
        }
        if !Passes(headers, block, expected, previous, end) {
          return ECORRUPT;
        }
        PartialExtend(headers, s, arenaBase, end, expected, previous, block);
        s := s + [BlockOf(headers, block)];
        expected, previous, block := expected + headers[block].span, block, headers[block].next;
      }
      Finished(headers, first, last, s, arenaBase, end, expected, previous);
      assert forall t :: SpelledBy(t) <==> Intact(headers, first, last, t, arenaBase, end);
      return if previous != last || expected != end then ECORRUPT else OK;
    }
  }

  /** Between calls the heap passes its own check. */
  lemma ReadyPassesCheck(heap: Kheap)
    requires heap.Ready()
    ensures heap.SpelledBy(heap.blocks)
  {
    hide Sound, Linked, Tagged, Live;
    NotEmpty(heap.blocks, heap.arenaBase, heap.arenaBase + heap.committed);
    SoundIntact(heap.headers, heap.blocks, heap.arenaBase, heap.arenaBase + heap.committed);
  }

  lemma NotEmpty(s: seq<Blk>, from: nat, to: nat)
    requires Sound(s, from, to) && from < to
    ensures s != []
  {
  }

  predicate InitArguments(base: nat, size: nat, initialPages: nat, growthPages: nat)
  {
    && base != 0 && base % PAGE_SIZE == 0
    && PAGE_SIZE <= size && size % PAGE_SIZE == 0
    && 0 < initialPages <= size / PAGE_SIZE && 0 < growthPages
    && base <= UINTPTR_MAX - size
  }

  /** The cookie seed of an arena. */
  function Seed(base: nat, size: nat): (r: nat)
    requires base <= UINTPTR_MAX && size <= UINTPTR_MAX
    ensures r <= UINTPTR_MAX
  {
    (0x9e3779b97f4a7c15 ^ (base as bv64) ^ ((size as bv64) << 17)) as nat
  }

  lemma InitPages(base: nat, size: nat, initialPages: nat, growthPages: nat)
    requires InitArguments(base, size, initialPages, growthPages)
    ensures 0 < initialPages * PAGE_SIZE && size % PAGE_SIZE == 0
  {
  }

  lemma InitGeometry(heap: Kheap, initialPages: nat, growthPages: nat)
    requires InitArguments(heap.arenaBase, heap.arenaSize, initialPages, growthPages) && heap.seed <= UINTPTR_MAX
    requires heap.blocks == [] && heap.headers == map[] && heap.memory == map[]
    requires heap.committed == 0 && heap.first == NULL && heap.last == NULL
    ensures heap.Consistent()
  {
    assert Live(heap.blocks) == {};
  }

  /** How many bytes the payload of block i may have where it is, with the free block after it. */
  function RoomFor(s: seq<Blk>, i: nat): int
    requires i < |s|
  {
    End(s[i]) - s[i].user + if i + 1 < |s| && s[i + 1].free then s[i + 1].span else 0
  }

  predicate BlockAt(s: seq<Blk>, i: int, p: nat)
  {
    0 <= i < |s| && !s[i].free && s[i].user == p
  }

  /** The headers with the magic number are those of the blocks, and say which are free. */
  lemma ChainFree(heap: Kheap)
    requires heap.Consistent()
    ensures forall k :: 0 <= k < |heap.blocks| ==>
      && heap.blocks[k].addr in heap.headers && heap.headers[heap.blocks[k].addr].live
      && heap.headers[heap.blocks[k].addr].free == heap.blocks[k].free
    ensures forall a :: a in heap.headers && heap.headers[a].live ==>
      exists k :: 0 <= k < |heap.blocks| && heap.blocks[k].addr == a
  {
    hide Sound, Tiled, Live, Tagged;
    forall a | a in heap.headers && heap.headers[a].live
      ensures exists k :: 0 <= k < |heap.blocks| && heap.blocks[k].addr == a
    {
      var k := ChainBlock(heap.headers, heap.blocks, a);
    }
    forall k | 0 <= k < |heap.blocks|
      ensures heap.blocks[k].addr in heap.headers && heap.headers[heap.blocks[k].addr].live
      ensures heap.headers[heap.blocks[k].addr].free == heap.blocks[k].free
    {
      assert HeaderMatches(heap.headers, heap.blocks, k);
    }
  }

  lemma NotLive(s: seq<Blk>, p: nat)
    requires !LiveAt(Live(s), p)
    ensures forall i :: !BlockAt(s, i, p)
  {
    forall i | BlockAt(s, i, p)
      ensures false
    {
      BlockLive(s, i);
    }
  }

  lemma OnlyBlockAt(heap: Kheap, i: nat)
    requires heap.Consistent() && i < |heap.blocks| && !heap.blocks[i].free
    ensures LiveAt(Live(heap.blocks), heap.blocks[i].user) && AllocOf(heap.blocks[i]) in Live(heap.blocks)
    ensures forall j :: BlockAt(heap.blocks, j, heap.blocks[i].user) ==> j == i
  {
    hide Live;
    BlockLive(heap.blocks, i);
    LivePointerBound(heap, AllocOf(heap.blocks[i]));
    forall j | BlockAt(heap.blocks, j, heap.blocks[i].user)
      ensures j == i
    {
      BlockLive(heap.blocks, j);
      if j < i { Ordered(heap.blocks, heap.arenaBase, heap.arenaBase + heap.committed, j, i); }
      if i < j { Ordered(heap.blocks, heap.arenaBase, heap.arenaBase + heap.committed, i, j); }
    }
  }

  lemma MergedBlock(s: seq<Blk>, i: nat)
    requires i < |s| && !s[i].free
    ensures var r := MergeNext(s, i);
      i < |r| && !r[i].free && AllocOf(r[i]) == AllocOf(s[i]) && End(r[i]) - r[i].user == RoomFor(s, i)
    ensures !(i + 1 < |s| && s[i + 1].free) ==> MergeNext(s, i) == s
  {
  }

  lemma HeaderAt(heap: Kheap, i: nat)
    requires heap.Consistent() && i < |heap.blocks|
    ensures var b := heap.blocks[i];
      && b.addr in heap.headers && heap.headers[b.addr].span == b.span && heap.headers[b.addr].requested == b.requested
      && var next := heap.headers[b.addr].next;
      && (next != NULL <==> i + 1 < |heap.blocks|)
      && (next != NULL ==> next in heap.headers && heap.headers[next].free == heap.blocks[i + 1].free)
      && (!b.free ==> b.addr <= b.user <= End(b) && b.user % MIN_ALIGNMENT == 0)
  {
    hide Tiled, Tagged;
    BlockPlaced(heap.blocks, heap.arenaBase, heap.arenaBase + heap.committed, i);
    Neighbours(heap.headers, heap.blocks, heap.arenaBase, heap.arenaBase + heap.committed, i);
    assert HeaderMatches(heap.headers, heap.blocks, i);
    if i + 1 < |heap.blocks| {
      FirstNotNull(heap.blocks, heap.arenaBase, heap.arenaBase + heap.committed, i + 1);
      assert HeaderMatches(heap.headers, heap.blocks, i + 1);
    }
  }

  lemma ReallocatedAfter(live: set<Alloc>, live': set<Alloc>, m0: map<nat, Cell>, m1: map<nat, Cell>,
                         m2: map<nat, Cell>,
                         x: Alloc, y: Alloc)
    requires SameBytes(m0, m1, live) && ReallocatedTo(live, live', m1, m2, x, y)
    ensures ReallocatedTo(live, live', m0, m2, x, y)
  {
    forall k: nat | k < Min(x.size, y.size)
      ensures CopiedAt(m0, m2, x.pointer, y.pointer, k)
    {
      assert CopiedAt(m1, m2, x.pointer, y.pointer, k);
      assert InAlloc(x, x.pointer + k);
    }
  }

  lemma ReallocatedMoved(live: set<Alloc>, live': set<Alloc>, m0: map<nat, Cell>, m1: map<nat, Cell>,
                         m2: map<nat, Cell>,
                         x: Alloc, p: nat, size: nat)
    requires SameBytes(m0, m1, live) && ReallocatedAt(live, live', m1, m2, x, p, size)
    ensures ReallocatedAt(live, live', m0, m2, x, p, size)
  {
    hide ReallocatedTo;
    var b :| ReallocatedTo(live, live', m1, m2, x, Alloc(b, p, size));
    ReallocatedAfter(live, live', m0, m1, m2, x, Alloc(b, p, size));
  }

  ghost predicate ReallocatedAt(live: set<Alloc>, live': set<Alloc>, m: map<nat, Cell>, m': map<nat, Cell>,
                                x: Alloc, p: nat, size: nat)
  {
    exists b :: ReallocatedTo(live, live', m, m', x, Alloc(b, p, size))
  }

  lemma AddedBlock(before: set<Alloc>, after: set<Alloc>, p: nat, size: nat) returns (y: Alloc)
    requires Added(before, after, p, size)
    ensures y.pointer == p && y.size == size && AddedAt(before, after, y)
  {
    var b :| AddedAt(before, after, Alloc(b, p, size));
    y := Alloc(b, p, size);
  }

  lemma CopyRoom(heap: Kheap, x: Alloc, y: Alloc)
    requires heap.Consistent() && x in Live(heap.blocks) && y in Live(heap.blocks)
    ensures forall a: nat :: InAlloc(x, a) || InAlloc(y, a) ==> a in heap.memory
  {
    hide Live, Sound, Tiled, Linked, Tagged;
    forall a: nat | InAlloc(x, a) || InAlloc(y, a)
      ensures a in heap.memory
    {
      var z := if InAlloc(x, a) then x else y;
      PayloadByte(heap.blocks, heap.arenaBase, heap.arenaBase + heap.committed, |heap.blocks|, z, a);
    }
  }

  lemma OutsideCopy(heap: Kheap, before: map<nat, Cell>, y: Alloc, n: nat)
    requires heap.Consistent() && y in Live(heap.blocks) && n <= y.size && before.Keys == heap.memory.Keys
    requires forall a :: a in heap.memory && !(y.pointer <= a < y.pointer + n) ==> heap.memory[a] == before[a]
    ensures SameBytes(before, heap.memory, Live(heap.blocks) - {y})
  {
    hide Live, Sound, Tiled, Linked, Tagged;
    forall x, a: nat | x in Live(heap.blocks) - {y} && InAlloc(x, a)
      ensures a in before && a in heap.memory && before[a] == heap.memory[a]
    {
      PayloadByte(heap.blocks, heap.arenaBase, heap.arenaBase + heap.committed, |heap.blocks|, x, a);
      LiveDisjoint(heap.blocks, heap.arenaBase, heap.arenaBase + heap.committed, x, y);
    }
  }

  lemma RemovedIs(before: set<Alloc>, after: set<Alloc>, x: Alloc)
    requires Removed(before, after, x.pointer) && x in before
    requires forall y :: y in before && y.pointer == x.pointer ==> y == x
    ensures after == before - {x}
  {
  }

  /** Allocate y, copy x into it, free x: x has become y. */
  lemma MovedTo(live: set<Alloc>, m0: map<nat, Cell>, m1: map<nat, Cell>, m2: map<nat, Cell>, m3: map<nat, Cell>,
                x: Alloc, y: Alloc, n: nat)
    requires x in live && y !in live && n == Min(x.size, y.size)
    requires SameBytes(m0, m1, live)
    requires Copied(m1, m2, x.pointer, y.pointer, n) && SameBytes(m1, m2, live)
    requires SameBytes(m2, m3, live - {x} + {y})
    ensures ReallocatedTo(live, live - {x} + {y}, m0, m3, x, y)
  {
    forall k: nat | k < n
      ensures CopiedAt(m0, m3, x.pointer, y.pointer, k)
    {
      assert CopiedAt(m1, m2, x.pointer, y.pointer, k);
      assert InAlloc(x, x.pointer + k) && InAlloc(y, y.pointer + k);
    }
  }

  /** A live pointer names one allocation, is not null and fits 64 bits. */
  lemma LivePointerBound(heap: Kheap, x: Alloc)
    requires heap.Consistent() && x in Live(heap.blocks)
    ensures 0 < x.pointer <= UINTPTR_MAX
    ensures forall y :: y in Live(heap.blocks) && y.pointer == x.pointer ==> y == x
  {
    hide Live, Sound, Tiled, Linked, Cookie;
    assert TagMatches(heap.tags, x, heap.seed);
    forall y | y in Live(heap.blocks) && y != x
      ensures y.pointer != x.pointer
    {
      LiveDisjoint(heap.blocks, heap.arenaBase, heap.arenaBase + heap.committed, x, y);
    }
  }

  /** The first n bytes at p in one memory are those at q in the other. */
  ghost predicate Copied(before: map<nat, Cell>, after: map<nat, Cell>, p: nat, q: nat, n: nat)
  {
    forall k: nat :: k < n ==> CopiedAt(before, after, p, q, k)
  }

  ghost predicate CopiedAt(before: map<nat, Cell>, after: map<nat, Cell>, p: nat, q: nat, k: nat)
  {
    p + k in before && q + k in after && after[q + k] == before[p + k]
  }

  function Min(a: nat, b: nat): nat { if a < b then a else b }

  /** Allocation x became y: its bytes came along, and no other allocation was touched. */
  ghost predicate ReallocatedTo(live: set<Alloc>, live': set<Alloc>, m: map<nat, Cell>, m': map<nat, Cell>,
                                x: Alloc, y: Alloc)
  {
    && x in live && y !in live - {x} && live' == live - {x} + {y}
    && SameBytes(m, m', live - {x})
    && Copied(m, m', x.pointer, y.pointer, Min(x.size, y.size))
  }

  /** How much of the block an allocation of the new size takes, in whole alignment units. */
  function CutAt(b: Blk, size: nat): nat
    requires b.addr <= b.user
  {
    AlignUp(b.user + size - b.addr, MIN_ALIGNMENT)
  }

  lemma ResizeFits(s: seq<Blk>, from: nat, to: nat, i: nat, size: nat)
    requires Sound(s, from, to) && i < |s| && !s[i].free && 0 < size && s[i].user + size <= End(s[i])
    ensures s[i].addr <= s[i].user
    ensures var consumed := CutAt(s[i], size);
      && 96 <= consumed <= s[i].span && consumed % MIN_ALIGNMENT == 0
      && Placed(Blk(s[i].addr, consumed, false, s[i].user, size))
  {
    hide AlignUp;
    assert Placed(s[i]);
    AlignUpLeast(s[i].user + size - s[i].addr, s[i].span);
    AlignUpMultiple(s[i].user + size - s[i].addr, MIN_ALIGNMENT, MIN_ALIGNMENT);
  }

  lemma ResizedHeld(s: seq<Blk>, i: nat, size: nat)
    requires i < |s| && !s[i].free && s[i].addr <= s[i].user && CutAt(s[i], size) <= s[i].span
    ensures i < |SplitTrailing(s, i, CutAt(s[i], size))|
    ensures var r := Mark(SplitTrailing(s, i, CutAt(s[i], size)), i, false, s[i].user, size);
      Keeps(s, r, s[i].user) && TightAt(r, i, s[i].user, size)
  {
    hide SplitTrailing, AlignUp, Keeps;
    ResizeHeld(s, i, CutAt(s[i], size), size);
  }

  lemma ResizedSound(s: seq<Blk>, from: nat, to: nat, i: nat, size: nat)
    requires Sound(s, from, to) && i < |s| && !s[i].free && 0 < size && s[i].user + size <= End(s[i])
    ensures s[i].addr <= s[i].user && CutAt(s[i], size) <= s[i].span
    ensures i < |SplitTrailing(s, i, CutAt(s[i], size))|
    ensures var r := Mark(SplitTrailing(s, i, CutAt(s[i], size)), i, false, s[i].user, size);
      Sound(r, from, to) && Live(r) == Live(s) - {AllocOf(s[i])} + {Alloc(s[i].addr, s[i].user, size)}
  {
    hide Sound, Live, SplitTrailing, CutAt;
    ResizeFits(s, from, to, i, size);
    ResizeSound(s, from, to, i, size);
    var marked := Mark(s, i, false, s[i].user, size);
    SplitSound(marked, from, to, i, CutAt(s[i], size));
    SplitCommutes(s, i, CutAt(s[i], size), s[i].user, size);
  }

  lemma BlockWithinHeap(heap: Kheap, i: nat)
    requires heap.Consistent() && i < |heap.blocks|
    ensures End(heap.blocks[i]) <= UINTPTR_MAX && heap.arenaBase <= heap.blocks[i].addr && PAGE_SIZE <= heap.arenaBase
  {
    BlockWithin(heap.blocks, heap.arenaBase, heap.arenaBase + heap.committed, i);
  }

  lemma OwnUntouched(s: seq<Blk>, from: nat, to: nat, i: nat, before: map<nat, Cell>, after: map<nat, Cell>, size: nat)
    requires Sound(s, from, to) && i < |s| && !s[i].free
    requires forall a :: from <= a < to ==> a in before && a in after
    requires forall a :: (a in before && a in after && !HeaderByte(s, a)
                          && s[i].user <= a < s[i].user + size) ==> before[a] == after[a]
    ensures Copied(before, after, s[i].user, s[i].user, Min(s[i].requested, size))
  {
    hide Sound, HeaderByte, Live;
    var x := AllocOf(s[i]);
    forall k: nat | k < Min(s[i].requested, size)
      ensures CopiedAt(before, after, s[i].user, s[i].user, k)
    {
      BlockLive(s, i);
      PayloadByte(s, from, to, |s|, x, s[i].user + k);
    }
  }

  lemma SplitCommutes(s: seq<Blk>, i: nat, consumed: nat, user: nat, size: nat)
    requires i < |s| && consumed <= s[i].span
    ensures i < |SplitTrailing(s, i, consumed)|
    ensures SplitTrailing(Mark(s, i, false, user, size), i, consumed)
         == Mark(SplitTrailing(s, i, consumed), i, false, user, size)
  {
    var marked := Mark(s, i, false, user, size);
    assert marked[..i] == s[..i] && marked[i + 1..] == s[i + 1..];
    var rest := Blk(s[i].addr + consumed, s[i].span - consumed, true, 0, 0);
    var cut := s[..i] + [s[i].(span := consumed), rest] + s[i + 1..];
    var cut' := marked[..i] + [marked[i].(span := consumed), rest] + marked[i + 1..];
    assert cut' == cut[i := cut'[i]];
    if i + 2 < |cut| && cut[i + 2].free {
      assert MergeNext(cut', i + 1) == MergeNext(cut, i + 1)[i := cut'[i]];
    }
  }

  lemma ResizedTagged(heap: Kheap, i: nat, size: nat)
    requires heap.Consistent() && i < |heap.blocks| && !heap.blocks[i].free
    ensures var x := AllocOf(heap.blocks[i]);
      && heap.blocks[i].addr + HEADER + TAG <= x.pointer <= End(heap.blocks[i])
      && x.pointer <= UINTPTR_MAX && x.block <= UINTPTR_MAX && heap.seed <= UINTPTR_MAX
      && x in Live(heap.blocks) && x.(size := size) !in Live(heap.blocks) - {x}
      && Tagged(heap.tags[x.pointer - TAG := Tag(Cookie(heap.seed, x.block, x.pointer), x.block, size)],
                Live(heap.blocks) - {x} + {x.(size := size)}, heap.seed)
  {
    hide Cookie, Sound;
    var x := AllocOf(heap.blocks[i]);
    BlockLive(heap.blocks, i);
    BlockPlaced(heap.blocks, heap.arenaBase, heap.arenaBase + heap.committed, i);
    assert TagMatches(heap.tags, x, heap.seed);
    forall y | y in Live(heap.blocks) - {x}
      ensures y.pointer != x.pointer && TagMatches(heap.tags, y, heap.seed)
    {
      LiveDisjoint(heap.blocks, heap.arenaBase, heap.arenaBase + heap.committed, x, y);
    }
  }

  /** The allocations after are those before without the one at p. */
  ghost predicate Removed(before: set<Alloc>, after: set<Alloc>, p: nat)
  {
    exists x :: x in before && x.pointer == p && after == before - {x}
  }

  lemma MarkHeaderBytes(s: seq<Blk>, i: nat, free: bool, user: nat, size: nat)
    requires i < |s|
    ensures forall a: nat :: HeaderByte(Mark(s, i, free, user, size), a) ==> HeaderByte(s, a)
  {
    var r := Mark(s, i, free, user, size);
    forall a: nat | HeaderByte(r, a)
      ensures HeaderByte(s, a)
    {
      var k :| 0 <= k < |r| && r[k].addr <= a < r[k].addr + HEADER_BYTES;
      assert s[k].addr == r[k].addr;
    }
  }

  lemma MergeHeaderBytes(s: seq<Blk>, i: nat)
    requires i < |s|
    ensures forall a: nat :: HeaderByte(MergeNext(s, i), a) ==> HeaderByte(s, a)
  {
    var r := MergeNext(s, i);
    forall a: nat | HeaderByte(r, a)
      ensures HeaderByte(s, a)
    {
      var k :| 0 <= k < |r| && r[k].addr <= a < r[k].addr + HEADER_BYTES;
      if |r| != |s| {
        assert r[k].addr == if k <= i then s[k].addr else s[k + 1].addr;
      }
    }
  }

  lemma MergeShape(s: seq<Blk>, i: nat)
    requires i < |s|
    ensures var r := MergeNext(s, i); i < |r| && r[i].addr == s[i].addr && r[..i] == s[..i]
  {
  }

  /** What the back pointer of block i says. */
  lemma PreviousOf(heap: Kheap, i: nat)
    requires heap.Chained() && i < |heap.blocks|
    ensures var b := heap.blocks[i];
      && b.addr in heap.headers
      && (heap.headers[b.addr].previous == if i > 0 then heap.blocks[i - 1].addr else NULL)
      && (i > 0 ==> heap.blocks[i - 1].addr != NULL && heap.blocks[i - 1].addr in heap.headers
                    && heap.headers[heap.blocks[i - 1].addr].free == heap.blocks[i - 1].free)
  {
    assert HeaderMatches(heap.headers, heap.blocks, i);
    if i > 0 {
      assert HeaderMatches(heap.headers, heap.blocks, i - 1);
      FirstNotNull(heap.blocks, heap.arenaBase, heap.arenaBase + heap.committed, i - 1);
    }
  }

  lemma BlockPlaced(s: seq<Blk>, from: nat, to: nat, i: nat)
    requires Sound(s, from, to) && i < |s|
    ensures Placed(s[i])
  {
  }

  /** Zeroing the cookie of the allocation of block i leaves the tags of the others alone. */
  lemma FreedTagged(heap: Kheap, i: nat)
    requires heap.Consistent() && i < |heap.blocks| && !heap.blocks[i].free
    ensures var x := AllocOf(heap.blocks[i]);
      && heap.blocks[i].addr + HEADER + TAG <= x.pointer <= End(heap.blocks[i]) && x.pointer - TAG in heap.tags
      && Tagged(heap.tags[x.pointer - TAG := heap.tags[x.pointer - TAG].(cookie := 0)],
                Live(heap.blocks) - {x}, heap.seed)
      && Removed(Live(heap.blocks), Live(heap.blocks) - {x}, x.pointer)
      && x in Live(heap.blocks)
  {
    hide Cookie, Sound;
    var x := AllocOf(heap.blocks[i]);
    BlockLive(heap.blocks, i);
    BlockPlaced(heap.blocks, heap.arenaBase, heap.arenaBase + heap.committed, i);
    assert TagMatches(heap.tags, x, heap.seed);
    forall y | y in Live(heap.blocks) - {x}
      ensures y.pointer != x.pointer && TagMatches(heap.tags, y, heap.seed)
    {
      LiveDisjoint(heap.blocks, heap.arenaBase, heap.arenaBase + heap.committed, x, y);
    }
  }

  ghost predicate LiveAt(live: set<Alloc>, p: nat)
  {
    exists x :: x in live && x.pointer == p
  }

  lemma BlockLive(s: seq<Blk>, i: nat)
    requires i < |s| && !s[i].free
    ensures AllocOf(s[i]) in Live(s) && LiveAt(Live(s), s[i].user)
  {
    assert AllocOf(s[i]) in Live(s);
  }

  /** A live header is that of a block on the chain. */
  lemma ChainBlock(headers: map<nat, Header>, s: seq<Blk>, a: nat) returns (i: nat)
    requires Linked(headers, s) && a in headers && headers[a].live
    ensures i < |s| && s[i].addr == a
    ensures s[i].free == headers[a].free && s[i].user == headers[a].user && s[i].requested == headers[a].requested
  {
    assert OnChain(s, a);
    i :| 0 <= i < |s| && s[i].addr == a;
    assert HeaderMatches(headers, s, i);
  }

  /** What validate_pointer looks for. */
  ghost predicate Recorded(heap: Kheap, p: nat)
    reads heap
  {
    && heap.arenaBase + HEADER + TAG <= p < heap.arenaBase + heap.committed && p <= UINTPTR_MAX
    && p - TAG in heap.tags
    && var tag := heap.tags[p - TAG];
    && heap.arenaBase <= tag.block && tag.block + HEADER <= heap.arenaBase + heap.committed
    && tag.block in heap.headers && tag.block <= UINTPTR_MAX && heap.seed <= UINTPTR_MAX
    && var h := heap.headers[tag.block];
    && h.live && !h.free && h.user == p && h.requested == tag.requested
    && tag.cookie == Cookie(heap.seed, tag.block, p)
  }

  lemma LiveRecorded(heap: Kheap, p: nat)
    requires heap.Consistent() && LiveAt(Live(heap.blocks), p)
    ensures Recorded(heap, p)
  {
    hide Cookie, Tiled, Live;
    var x :| x in Live(heap.blocks) && x.pointer == p;
    var k := LiveBlock(heap.blocks, x);
    assert TagMatches(heap.tags, x, heap.seed);
    BlockWithin(heap.blocks, heap.arenaBase, heap.arenaBase + heap.committed, k);
    assert Placed(heap.blocks[k]);
    assert HeaderMatches(heap.headers, heap.blocks, k);
  }

  /** Of a live pointer the heap reads its own tag and its own header. */
  lemma LiveApart(heap: Kheap, residue: Residue, p: nat)
    requires heap.Consistent() && LiveAt(Live(heap.blocks), p) && heap.Apart(residue) && Recorded(heap, p)
    ensures heap.TagBefore(residue, p) == heap.tags[p - TAG] && heap.tags[p - TAG].block !in residue.headers
    ensures !heap.Imitated(residue, p)
  {
    hide Cookie, Tiled, Sound, Linked;
    var x :| x in Live(heap.blocks) && x.pointer == p;
    var k := LiveBlock(heap.blocks, x);
    assert TagMatches(heap.tags, x, heap.seed);
    hide Live;
  }

  lemma LiveNotImitated(heap: Kheap, residue: Residue, p: nat)
    requires heap.Consistent() && heap.Apart(residue)
    ensures LiveAt(Live(heap.blocks), p) ==> !heap.Imitated(residue, p)
  {
    hide Live, Sound, Tiled, Linked, Tagged, Cookie;
    if LiveAt(Live(heap.blocks), p) {
      LiveRecorded(heap, p);
      LiveApart(heap, residue, p);
    }
  }

  /** Every image lies inside the payload of one allocation. */
  predicate Within(residue: Residue, x: Alloc)
  {
    && (forall a :: a in residue.tags ==> x.pointer <= a && a + TAG <= x.pointer + x.size)
    && (forall a :: a in residue.headers ==> x.pointer <= a && a + HEADER_BYTES <= x.pointer + x.size)
  }

  /** A caller who keeps to the bytes it was given touches no tag and no header of the heap. */
  lemma PayloadApart(heap: Kheap, x: Alloc, residue: Residue)
    requires heap.Consistent() && x in Live(heap.blocks) && Within(residue, x)
    ensures heap.Apart(residue)
  {
    hide Live, Tiled, Linked, Tagged, Cookie, Sound;
    var s, end := heap.blocks, heap.arenaBase + heap.committed;
    var k := LiveBlock(s, x);
    forall i | 0 <= i < |s|
      ensures s[i].addr !in residue.headers
    {
      if InAlloc(x, s[i].addr) { PayloadsDisjoint(s, heap.arenaBase, end, k, i, s[i].addr); }
    }
    forall y | y in Live(s) && TAG <= y.pointer
      ensures y.pointer - TAG !in residue.tags
    {
      var j := LiveBlock(s, y);
      if InAlloc(x, y.pointer - TAG) { PayloadsDisjoint(s, heap.arenaBase, end, k, j, y.pointer - TAG); }
    }
  }

  /** The exception in validate_pointer is real: any allocation of more than 88 bytes can be filled
      so that a pointer into it, never handed out, passes. */
  lemma ImitationPasses(heap: Kheap, x: Alloc) returns (residue: Residue, p: nat)
    requires heap.Ready() && x in Live(heap.blocks) && x.size > HEADER + TAG
    ensures Within(residue, x) && heap.Apart(residue)
    ensures heap.Imitated(residue, p) && !LiveAt(Live(heap.blocks), p)
  {
    hide Live, Tiled, Linked, Cookie, Sound;
    var s, end := heap.blocks, heap.arenaBase + heap.committed;
    var k := LiveBlock(s, x);
    assert TagMatches(heap.tags, x, heap.seed);
    BlockPlaced(s, heap.arenaBase, end, k);
    BlockWithin(s, heap.arenaBase, end, k);
    p := x.pointer + HEADER + TAG;
    residue := Residue(map[p - TAG := Tag(Cookie(heap.seed, x.pointer, p), x.pointer, 1)],
                       map[x.pointer := Header(true, MIN_SPAN, 1, p, NULL, NULL, false)]);
    PayloadApart(heap, x, residue);
    forall y | y in Live(s)
      ensures y.pointer != p
    {
      if y != x { LiveDisjoint(s, heap.arenaBase, end, x, y); }
      LivePlaced(heap, y);
    }
  }

  lemma LivePlaced(heap: Kheap, y: Alloc)
    requires heap.Consistent() && y in Live(heap.blocks)
    ensures y.size > 0
  {
    LivePointer(heap.blocks, y);
  }

  lemma NothingApart(heap: Kheap)
    ensures heap.Apart(NO_RESIDUE)
  {
  }

  lemma NothingImitated(heap: Kheap, p: nat)
    ensures !heap.Imitated(NO_RESIDUE, p)
  {
  }

  lemma GrowthRefused(heap: Kheap, minimum: nat)
    requires heap.Ready() && 0 < minimum
    ensures PlanGrowth(minimum, heap.minimumGrowthPages, heap.arenaSize - heap.committed).NoGrowth?
            <==> heap.arenaSize - heap.committed < minimum
    ensures heap.arenaSize <= UINTPTR_MAX
  {
    hide PlanGrowth;
    WholePagesLeft(heap.arenaSize, heap.committed);
    GrowthExactly(minimum, heap.minimumGrowthPages, heap.arenaSize - heap.committed);
  }

  lemma Untouched(heap: Kheap)
    requires heap.Consistent()
    ensures SameBytes(heap.memory, heap.memory, Live(heap.blocks))
  {
    OthersUntouched(heap.blocks, heap.arenaBase, heap.arenaBase + heap.committed, |heap.blocks|,
                    heap.memory, heap.memory, Live(heap.blocks));
  }

  lemma SameBytesTransitive(a: map<nat, Cell>, b: map<nat, Cell>, c: map<nat, Cell>, live: set<Alloc>)
    requires SameBytes(a, b, live) && SameBytes(b, c, live)
    ensures SameBytes(a, c, live)
  {
  }

  /** Distinct live allocations share no byte, and no pointer. */
  lemma LiveDisjoint(s: seq<Blk>, from: nat, to: nat, x: Alloc, y: Alloc)
    requires Sound(s, from, to) && x in Live(s) && y in Live(s) && x != y
    ensures Disjoint(x, y) && x.pointer != y.pointer
  {
    var i := LiveBlock(s, x);
    var j := LiveBlock(s, y);
    assert Placed(s[i]) && Placed(s[j]);
    if i < j { Ordered(s, from, to, i, j); } else { Ordered(s, from, to, j, i); }
  }

  /** The block an allocation was put into was not live before. */
  lemma AllocationNew(s: seq<Blk>, from: nat, to: nat, i: nat, consumed: nat, p: nat, size: nat)
    requires Sound(s, from, to) && i < |s| && s[i].free
    requires 96 <= consumed <= s[i].span && consumed % MIN_ALIGNMENT == 0
    requires Placed(Blk(s[i].addr, consumed, false, p, size))
    ensures Added(Live(s), Live(Allocate(s, i, consumed, p, size)), p, size)
  {
    hide Sound, Live, Allocate;
    var added := Alloc(s[i].addr, p, size);
    AllocateSound(s, from, to, i, consumed, p, size);
    forall x | x in Live(s)
      ensures x.block != s[i].addr
    {
      FreeBlockNotLive(s, from, to, i, x);
    }
    forall x | x in Live(s)
      ensures Disjoint(x, added)
    {
      LiveDisjoint(Allocate(s, i, consumed, p, size), from, to, x, added);
    }
    assert added !in Live(s);
  }

  lemma FreeBlockNotLive(s: seq<Blk>, from: nat, to: nat, i: nat, x: Alloc)
    requires Sound(s, from, to) && i < |s| && s[i].free && x in Live(s)
    ensures x.block != s[i].addr
  {
    var k := LiveBlock(s, x);
    if k < i { Ordered(s, from, to, k, i); } else { Ordered(s, from, to, i, k); }
  }

  /** After growing by what a request needs, the last block has room for it. */
  lemma GrownFits(s: seq<Blk>, from: nat, to: nat, growth: nat, size: nat, alignment: nat)
    requires Sound(s, from, to) && growth % MIN_ALIGNMENT == 0 && MIN_ALIGNMENT <= from
    requires alignment > 0 && HEADER + TAG + size + alignment <= growth && to + growth <= UINTPTR_MAX
    requires growth >= 96
    ensures var r := HeapBlocks.Grow(s, to, growth); r != [] && HasRoom(r[|r| - 1], size, alignment)
  {
    hide Live, Layout;
    GrowSound(s, from, to, growth);
    var r := HeapBlocks.Grow(s, to, growth);
    var b := r[|r| - 1];
    hide HeapBlocks.Grow;
    BlockWithin(r, from, to + growth, |r| - 1);
    LayoutFits(b.addr, b.span, size, alignment);
  }

  lemma GrownTiled(s: seq<Blk>, from: nat, to: nat, growth: nat)
    requires Sound(HeapBlocks.Grow(s, to, growth), from, to + growth)
    ensures Tiled(HeapBlocks.Grow(s, to, growth), from, to + growth)
  {
  }

  /** The chain when the last block is free and takes the new bytes. */
  lemma GrownLast(headers: map<nat, Header>, s: seq<Blk>, from: nat, to: nat, growth: nat)
    requires 0 < from && Tiled(s, from, to) && Linked(headers, s) && s != []
    requires s[|s| - 1].addr in headers && headers[s[|s| - 1].addr].free
    ensures var n := |s| - 1; var h := headers[s[n].addr];
      && HeapBlocks.Grow(s, to, growth) == s[n := s[n].(span := s[n].span + growth)]
      && Linked(headers[s[n].addr := h.(span := h.span + growth)], HeapBlocks.Grow(s, to, growth))
  {
    var n := |s| - 1;
    Neighbours(headers, s, from, to, n);
    var b := s[n].(span := s[n].span + growth);
    UpdateLinked(headers, s, from, to, n, b);
  }

  /** The chain when the new bytes become a block of their own. */
  lemma GrownAppended(headers: map<nat, Header>, s: seq<Blk>, from: nat, to: nat, growth: nat)
    requires 0 < from && Tiled(s, from, to) && Linked(headers, s)
    requires s == [] || (s[|s| - 1].addr in headers && !headers[s[|s| - 1].addr].free)
    ensures HeapBlocks.Grow(s, to, growth) == s + [Blk(to, growth, true, 0, 0)]
    ensures s == [] || s[|s| - 1].addr in headers
    ensures var headers' := headers[to := Header(true, growth, 0, 0, if s == [] then NULL else s[|s| - 1].addr,
                                                NULL, true)];
      Linked(if s == [] then headers'
             else headers'[s[|s| - 1].addr := headers'[s[|s| - 1].addr].(next := to)],
             HeapBlocks.Grow(s, to, growth))
    ensures s != [] ==> s[|s| - 1].addr < to
  {
    var b := Blk(to, growth, true, 0, 0);
    if s == [] {
      assert s + [b] == [b];
      FirstLinked(headers, b);
    } else {
      Neighbours(headers, s, from, to, |s| - 1);
      AppendedLinked(headers, s, from, to, b);
    }
  }

  lemma LinkedMatch(headers: map<nat, Header>, s: seq<Blk>)
    requires Linked(headers, s)
    ensures HeadersMatch(headers, s)
  {
  }

  lemma SpanOf(headers: map<nat, Header>, s: seq<Blk>, i: nat)
    requires HeadersMatch(headers, s) && i < |s|
    ensures headers[s[i].addr].span == s[i].span
  {
    assert HeaderMatches(headers, s, i);
  }

  lemma SpanOfChain(heap: Kheap, i: nat)
    requires heap.Chained() && i < |heap.blocks|
    ensures var b := heap.blocks[i]; b.addr in heap.headers && heap.headers[b.addr].span == b.span
  {
    SpanOf(heap.headers, heap.blocks, i);
  }

  lemma MarkTiled(s: seq<Blk>, from: nat, to: nat, i: nat, free: bool, user: nat, size: nat)
    requires Tiled(s, from, to) && i < |s|
    ensures Tiled(Mark(s, i, free, user, size), from, to)
  {
    forall j | 0 < j < |s|
      ensures Adjacent(Mark(s, i, free, user, size), j)
    {
      assert Adjacent(s, j);
    }
  }

  lemma BlockWithin(s: seq<Blk>, from: nat, to: nat, i: nat)
    requires Tiled(s, from, to) && i < |s|
    ensures from <= s[i].addr && End(s[i]) <= to
  {
    if i > 0 { Ordered(s, from, to, 0, i); }
    if i < |s| - 1 { Ordered(s, from, to, i, |s| - 1); }
  }

  lemma SplitKeepsAddress(s: seq<Blk>, i: nat, consumed: nat)
    requires i < |s| && consumed <= s[i].span
    ensures i < |SplitTrailing(s, i, consumed)|
    ensures SplitTrailing(s, i, consumed)[i].addr == s[i].addr
  {
  }

  /** The tag of a new allocation overwrites no other tag. */
  lemma AllocationTagged(s: seq<Blk>, from: nat, to: nat, i: nat, consumed: nat, pointer: nat, size: nat,
                         tags: map<nat, Tag>, seed: nat)
    requires Sound(s, from, to) && i < |s| && s[i].free && to <= UINTPTR_MAX && seed <= UINTPTR_MAX
    requires 96 <= consumed <= s[i].span && Placed(Blk(s[i].addr, consumed, false, pointer, size))
    requires Tagged(tags, Live(s), seed)
    ensures s[i].addr <= UINTPTR_MAX && TAG <= pointer <= UINTPTR_MAX
    ensures Tagged(tags[pointer - TAG := Tag(Cookie(seed, s[i].addr, pointer), s[i].addr, size)],
                   Live(s) + {Alloc(s[i].addr, pointer, size)}, seed)
  {
    hide Cookie, Live;
    BlockWithin(s, from, to, i);
    forall x | x in Live(s)
      ensures x.pointer != pointer
    {
      FreeNotLive(s, from, to, i, x);
      LivePointer(s, x);
      PayloadByte(s, from, to, i, x, x.pointer);
    }
  }

  lemma LivePointer(s: seq<Blk>, x: Alloc)
    requires AllPlaced(s) && x in Live(s)
    ensures x.size > 0 && InAlloc(x, x.pointer) && TAG <= x.pointer
  {
    var k := LiveBlock(s, x);
    assert Placed(s[k]);
  }

  lemma InsertedHeaderBytes(s: seq<Blk>, i: nat, consumed: nat)
    requires i < |s| && consumed <= s[i].span
    ensures forall a: nat :: HeaderByte(Inserted(s, i, consumed), a) ==>
              HeaderByte(s, a) || s[i].addr + consumed <= a < s[i].addr + consumed + HEADER_BYTES
  {
    var r := Inserted(s, i, consumed);
    forall a: nat | HeaderByte(r, a)
      ensures HeaderByte(s, a) || s[i].addr + consumed <= a < s[i].addr + consumed + HEADER_BYTES
    {
      var k :| 0 <= k < |r| && r[k].addr <= a < r[k].addr + HEADER_BYTES;
      if k <= i {
        assert r[k].addr == s[k].addr;
      } else if k > i + 1 {
        assert r[k] == s[k - 1];
      }
    }
  }
}
