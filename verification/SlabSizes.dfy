/** Which block a request gets and which block a free gives back, in numbers: sizes, slots and addresses. */
module SlabSizes {
  import opened Machine
  import opened Bits
  import opened SlabModel
  import opened SlabRuns

  /** `o` is the power of two from 8 to 4096 that a request is rounded up to. */
  predicate Suits(size: nat, align: nat, o: nat) {
    && PowerOfTwo(o) && 8 <= o <= 4096
    && size <= o && align <= o
    && (o == 8 || o < 2 * size || o < 2 * align)
  }

  /** A request is rounded up in one way only. */
  lemma SuitsOnce(size: nat, align: nat, o: nat, p: nat)
    requires Suits(size, align, o) && Suits(size, align, p)
    ensures o == p
  {
    if o < p {
      NextPower(o, p);
    } else if p < o {
      NextPower(p, o);
    }
  }

  lemma NextPower(n: nat, m: nat)
    requires PowerOfTwo(n) && PowerOfTwo(m) && n < m
    ensures 2 * n <= m
  {
    var f := PowerDivides(n, m);
    assert f != 1 && f != 0;
    MulOrder(n, f, 2);
  }

  /** A class serves a request exactly when neither size nor alignment exceeds a page; its objects have the rounded size. */
  lemma ClassExactly(size: nat, align: nat)
    ensures ClassOf(Request(size, align)).Some? <==> size <= 4096 && align <= 4096
    ensures ClassOf(Request(size, align)).Some? ==>
              Suits(size, align, SIZE_CLASSES[ClassOf(Request(size, align)).value])
  {
    var c := ClassOf(Request(size, align));
    if c.Some? {
      ClassIsPower(c.value);
      assert c.value > 0 ==> SIZE_CLASSES[c.value] == 2 * SIZE_CLASSES[c.value - 1];
    } else {
      assert SIZE_CLASSES[9] < Max(size, align);
    }
  }

  lemma SizesDiffer(c: nat, d: nat)
    requires c < NUM_CLASSES && d < NUM_CLASSES && SIZE_CLASSES[c] == SIZE_CLASSES[d]
    ensures c == d
  {
  }

  /** Class `c` is the one that holds objects of `o` bytes. */
  predicate HoldsSize(h: Heap, c: nat, o: nat) {
    c < |h.classes| && h.classes[c].objectSize == o && forall d :: 0 <= d < |h.classes| && d != c ==> h.classes[d].objectSize != o
  }

  lemma ServingClass(h: Heap, size: nat, align: nat) returns (c: nat, o: nat)
    requires HeapShape(h) && size <= 4096 && align <= 4096
    ensures ClassOf(Request(size, align)) == Some(c) && c < NUM_CLASSES && o == SIZE_CLASSES[c]
    ensures Suits(size, align, o) && HoldsSize(h, c, o)
  {
    ClassExactly(size, align);
    c := ClassOf(Request(size, align)).value;
    o := SIZE_CLASSES[c];
    forall d | 0 <= d < NUM_CLASSES && d != c
      ensures SIZE_CLASSES[d] != o
    {
      if SIZE_CLASSES[d] == o {
        SizesDiffer(c, d);
      }
    }
  }

  /** Slot `s` of page `i` of class `c` is free; no lower slot of that page is, nor any slot of an earlier page. */
  ghost predicate FirstFree(h: Heap, c: nat, i: nat, s: nat) {
    && IsPage(h, c, i) && s in PageAt(h, c, i).free
    && (forall t :: t in PageAt(h, c, i).free ==> s <= t)
    && (forall j :: 0 <= j < i ==> h.classes[c].pages[j].free == {})
  }

  /** No page of class `c` has a free slot. */
  ghost predicate Full(h: Heap, c: nat)
    requires c < |h.classes|
  {
    forall j :: 0 <= j < |h.classes[c].pages| ==> h.classes[c].pages[j].free == {}
  }

  /** The page with one slot taken, and the allocation counted. */
  function Taken(h: Heap, c: nat, i: nat, s: nat): Heap
    requires c < |h.classes| && i < |h.classes[c].pages|
  {
    var p := h.classes[c].pages[i];
    SetPage(h, c, i, p.(free := p.free - {s})).(allocCount := (h.allocCount + 1) % 0x1_0000_0000_0000_0000)
  }

  /** One more page, cut into objects of `o` bytes, with its first slot taken, and the allocation counted. */
  ghost function Grown(h: Heap, arena: nat, c: nat, o: nat): Heap
    requires c < |h.classes| && o > 0
  {
    AddPage(h, c, Page(arena + 4096 * h.cursor, o, 4096 / o, Below(4096 / o) - {0}))
      .(allocCount := (h.allocCount + 1) % 0x1_0000_0000_0000_0000)
  }

  /**
   The heap `h'` and the address `ptr` serve a request from class `c` of objects of `o` bytes: the lowest
   free slot of the first page with one; with every page full, the first slot of the next page of the
   arena; with that spent as well, the null pointer and a failure counted.
   */
  ghost predicate Serves(h: Heap, arena: nat, c: nat, o: nat, h': Heap, ptr: nat)
    requires c < |h.classes| && o > 0
  {
    && (forall i: nat, s: nat :: FirstFree(h, c, i, s) ==>
          h' == Taken(h, c, i, s) && ptr == PageAt(h, c, i).base + s * o)
    && (Full(h, c) <==> !exists i: nat, s: nat :: FirstFree(h, c, i, s))
    && (Full(h, c) && h.cursor < 64 ==> h' == Grown(h, arena, c, o) && ptr == arena + 4096 * h.cursor)
    && (Full(h, c) && h.cursor >= 64 ==>
          h' == h.(oomCount := (h.oomCount + 1) % 0x1_0000_0000_0000_0000) && ptr == 0)
  }

  lemma TakesFirstFree(h: Heap, arena: nat, c: nat, i: nat, s: nat)
    requires Layout(h, arena) && c < NUM_CLASSES && FirstFree(h, c, i, s)
    ensures AllocLocked(h, arena, c) == (Taken(h, c, i, s), PageAt(h, c, i).base + s * SIZE_CLASSES[c])
  {
    var k := FirstWithFree(h.classes[c].pages, 0);
    assert k == i;
    AllocCases(h, arena, c, h.classes[c], k);
    assert Lowest(PageAt(h, c, i).free) == s;
  }

  lemma SlotsOfSize(c: nat)
    requires c < NUM_CLASSES
    ensures SizeOk(SIZE_CLASSES[c]) && Fits(PAGE_SIZE, SIZE_CLASSES[c]) == 4096 / SIZE_CLASSES[c]
  {
    ClassSizeOk(c);
    FitsIsQuotient(PAGE_SIZE, SIZE_CLASSES[c]);
  }

  lemma GrowsByPage(h: Heap, arena: nat, c: nat, n: nat) returns (p: Page, h': Heap)
    requires Layout(h, arena) && c < NUM_CLASSES && Full(h, c) && h.cursor < 64
    requires SIZE_CLASSES[c] > 0 && n == Fits(PAGE_SIZE, SIZE_CLASSES[c])
    ensures p == Page(arena + h.cursor * PAGE_SIZE, SIZE_CLASSES[c], n, Below(n) - {0})
    ensures h' == AddPage(h, c, p).(allocCount := Wrapping(h.allocCount + 1))
    ensures AllocLocked(h, arena, c) == (h', arena + h.cursor * PAGE_SIZE)
  {
    ClassPagesBounded(h, c);
    h' := AllocLocked(h, arena, c).0;
    p := NewPageTaken(h, arena, c, h', AllocLocked(h, arena, c).1);
  }

  lemma GrownIs(h: Heap, arena: nat, c: nat, o: nat, n: nat, p: Page)
    requires c < |h.classes| && o > 0 && n == 4096 / o
    requires p == Page(arena + h.cursor * PAGE_SIZE, o, n, Below(n) - {0})
    ensures AddPage(h, c, p).(allocCount := Wrapping(h.allocCount + 1)) == Grown(h, arena, c, o)
  {
  }

  lemma GrowsWhenFull(h: Heap, arena: nat, c: nat)
    requires Layout(h, arena) && c < NUM_CLASSES && Full(h, c) && h.cursor < 64
    ensures SIZE_CLASSES[c] > 0
    ensures AllocLocked(h, arena, c) == (Grown(h, arena, c, SIZE_CLASSES[c]), arena + 4096 * h.cursor)
  {
    SlotsOfSize(c);
    var o := SIZE_CLASSES[c];
    var p, h' := GrowsByPage(h, arena, c, Fits(PAGE_SIZE, o));
    GrownIs(h, arena, c, o, Fits(PAGE_SIZE, o), p);
  }

  lemma FailsWhenSpent(h: Heap, arena: nat, c: nat)
    requires Layout(h, arena) && c < NUM_CLASSES && Full(h, c) && h.cursor == 64
    ensures AllocLocked(h, arena, c) == (h.(oomCount := (h.oomCount + 1) % 0x1_0000_0000_0000_0000), 0)
  {
    AllocCases(h, arena, c, h.classes[c], |h.classes[c].pages|);
  }

  lemma PlacesExactly(h: Heap, arena: nat, c: nat)
    requires Layout(h, arena) && c < NUM_CLASSES
    ensures SIZE_CLASSES[c] > 0
    ensures Serves(h, arena, c, SIZE_CLASSES[c], AllocLocked(h, arena, c).0, AllocLocked(h, arena, c).1)
  {
    ClassSizeOk(c);
    forall i: nat, s: nat | FirstFree(h, c, i, s)
      ensures AllocLocked(h, arena, c) == (Taken(h, c, i, s), PageAt(h, c, i).base + s * SIZE_CLASSES[c])
    {
      TakesFirstFree(h, arena, c, i, s);
    }
    FreeOrFull(h, c);
    if Full(h, c) {
      if h.cursor < 64 {
        GrowsWhenFull(h, arena, c);
      } else {
        FailsWhenSpent(h, arena, c);
      }
    }
  }

  /**
   What `alloc` answers. A request is refused, and nothing changes, when the heap is not ready, stays
   locked, or the request exceeds a page; any other is rounded up, and the class of that size serves it.
   */
  ghost predicate Answers(h: Heap, arena: nat, size: nat, align: nat, lock: LockOutcome, h': Heap, ptr: nat) {
    if !h.ready || lock == Busy || size > 4096 || align > 4096 then h' == h && ptr == 0
    else exists c, o :: Suits(size, align, o) && HoldsSize(h, c, o) && Serves(h, arena, c, o, h', ptr)
  }

  lemma AllocAnswers(h: Heap, arena: nat, size: nat, align: nat, lock: LockOutcome)
    requires Layout(h, arena)
    ensures Answers(h, arena, size, align, lock, HeapAlloc(h, arena, size, align, lock).0,
                    HeapAlloc(h, arena, size, align, lock).1)
  {
    ClassExactly(size, align);
    if size <= 4096 && align <= 4096 {
      var c, o := ServingClass(h, size, align);
      PlacesExactly(h, arena, c);
    }
  }

  /** After every run `alloc` answers as described. */
  lemma AllocExactly(arena: nat, events: seq<Event>, size: nat, align: nat, lock: LockOutcome)
    requires arena > 0
    ensures var h := RunOf(arena, events).heap;
            var (h', ptr) := HeapAlloc(h, arena, size, align, lock);
            Answers(h, arena, size, align, lock, h', ptr)
  {
    var r := ReachedRun(arena, events);
    AllocAnswers(r.heap, arena, size, align, lock);
  }

  lemma FreeOrFull(h: Heap, c: nat)
    requires c < |h.classes|
    ensures Full(h, c) <==> !exists i: nat, s: nat :: FirstFree(h, c, i, s)
  {
    var k := FirstWithFree(h.classes[c].pages, 0);
    if k < |h.classes[c].pages| {
      assert IsPage(h, c, k);
      assert FirstFree(h, c, k, Lowest(PageAt(h, c, k).free));
    }
  }

  /** Slot `s` of page `i` of class `c` is taken and starts at `ptr`. */
  ghost predicate TakenAt(h: Heap, c: nat, i: nat, s: nat, ptr: nat) {
    && IsPage(h, c, i)
    && s < PageAt(h, c, i).slotCount && s !in PageAt(h, c, i).free
    && ptr == PageAt(h, c, i).base + s * PageAt(h, c, i).objectSize
  }

  lemma LiveIsTaken(h: Heap, arena: nat, c: nat, ptr: nat) returns (i: nat, s: nat)
    requires Layout(h, arena) && c < NUM_CLASSES && Live(h, c, ptr)
    ensures TakenAt(h, c, i, s, ptr) && PageAt(h, c, i).objectSize == SIZE_CLASSES[c]
    ensures SIZE_CLASSES[c] * PageAt(h, c, i).slotCount == 4096
  {
    assert Unfold(0);
    i :| IsPage(h, c, i) && LiveAddress(PageAt(h, c, i), ptr);
    s := LiveSlot(PageAt(h, c, i), ptr);
  }

  /** A held block is a slot of a page cut into objects of the size its request is rounded up to. */
  lemma HeldBlockSize(arena: nat, events: seq<Event>, ptr: nat) returns (c: nat, i: nat, s: nat)
    requires arena > 0 && ptr in RunOf(arena, events).held
    ensures var r := RunOf(arena, events);
            && TakenAt(r.heap, c, i, s, ptr)
            && Suits(r.held[ptr].size, r.held[ptr].align, PageAt(r.heap, c, i).objectSize)
            && PageAt(r.heap, c, i).objectSize * PageAt(r.heap, c, i).slotCount == 4096
            && ClassOf(r.held[ptr]).Some? && Extent(r.held[ptr]) == PageAt(r.heap, c, i).objectSize
  {
    var r := ReachedRun(arena, events);
    HeldHasClass(r, ptr);
    ClassExactly(r.held[ptr].size, r.held[ptr].align);
    c := ClassOf(r.held[ptr]).value;
    i, s := LiveIsTaken(r.heap, arena, c, ptr);
  }

  /** Page `i` of class `c` with slot `s` free again, and the free counted. */
  function Released(h: Heap, c: nat, i: nat, s: nat): Heap
    requires c < |h.classes| && i < |h.classes[c].pages|
  {
    var p := h.classes[c].pages[i];
    SetPage(h, c, i, p.(free := p.free + {s})).(deallocCount := (h.deallocCount + 1) % 0x1_0000_0000_0000_0000)
  }

  lemma TakenIsLive(h: Heap, arena: nat, c: nat, i: nat, s: nat, ptr: nat)
    requires Layout(h, arena) && TakenAt(h, c, i, s, ptr)
    ensures LiveAddress(PageAt(h, c, i), ptr) && (ptr - PageAt(h, c, i).base) / PageAt(h, c, i).objectSize == s
  {
    assert Unfold(0);
    SlotAt(PageAt(h, c, i), s);
  }

  lemma ReleasesSlot(h: Heap, arena: nat, c: nat, i: nat, s: nat, ptr: nat)
    requires Layout(h, arena) && c < NUM_CLASSES && TakenAt(h, c, i, s, ptr)
    ensures DeallocLocked(h, ptr, c) == Released(h, c, i, s)
  {
    TakenIsLive(h, arena, c, i, s, ptr);
    FoundAt(h, arena, c, i, ptr);
  }

  lemma ReleasesNothing(h: Heap, arena: nat, c: nat, ptr: nat)
    requires Layout(h, arena) && c < NUM_CLASSES && forall i: nat, s: nat :: !TakenAt(h, c, i, s, ptr)
    ensures DeallocLocked(h, ptr, c) == h
  {
    if Live(h, c, ptr) {
      var i, s := LiveIsTaken(h, arena, c, ptr);
    }
    DeallocEffect(h, arena, c, ptr, DeallocLocked(h, ptr, c));
  }

  /** The free releases the slot of class `c` that is taken and starts at `ptr`, or finds none and changes nothing. */
  ghost predicate GivesBack(h: Heap, c: nat, ptr: nat, h': Heap) {
    && (forall i: nat, s: nat :: TakenAt(h, c, i, s, ptr) ==> h' == Released(h, c, i, s))
    && ((forall i: nat, s: nat :: !TakenAt(h, c, i, s, ptr)) ==> h' == h)
  }

  /**
   What `dealloc` does. A free of a null pointer, of a size above a page, or with the lock busy changes
   nothing; any other is rounded up as the allocation was, and looks in the class of that size.
   */
  ghost predicate Frees(h: Heap, ptr: nat, size: nat, align: nat, lock: LockOutcome, h': Heap) {
    if ptr == 0 || lock == Busy || size > 4096 || align > 4096 then h' == h
    else exists c, o :: Suits(size, align, o) && HoldsSize(h, c, o) && GivesBack(h, c, ptr, h')
  }

  lemma DeallocFrees(h: Heap, arena: nat, ptr: nat, size: nat, align: nat, lock: LockOutcome)
    requires Layout(h, arena)
    ensures Frees(h, ptr, size, align, lock, HeapDealloc(h, ptr, size, align, lock))
  {
    ClassExactly(size, align);
    if size <= 4096 && align <= 4096 {
      var c, o := ServingClass(h, size, align);
      FreesFrom(h, arena, c, ptr);
    }
  }

  lemma FreesFrom(h: Heap, arena: nat, c: nat, ptr: nat)
    requires Layout(h, arena) && c < NUM_CLASSES
    ensures GivesBack(h, c, ptr, DeallocLocked(h, ptr, c))
  {
    forall i: nat, s: nat | TakenAt(h, c, i, s, ptr)
      ensures DeallocLocked(h, ptr, c) == Released(h, c, i, s)
    {
      ReleasesSlot(h, arena, c, i, s, ptr);
    }
    if forall i: nat, s: nat :: !TakenAt(h, c, i, s, ptr) {
      ReleasesNothing(h, arena, c, ptr);
    }
  }

  /** After every run `dealloc` does as described. */
  lemma DeallocExactly(arena: nat, events: seq<Event>, ptr: nat, size: nat, align: nat, lock: LockOutcome)
    requires arena > 0
    ensures var h := RunOf(arena, events).heap;
            Frees(h, ptr, size, align, lock, HeapDealloc(h, ptr, size, align, lock))
  {
    var r := ReachedRun(arena, events);
    DeallocFrees(r.heap, arena, ptr, size, align, lock);
  }

  /** A free ends a block exactly when it found the lock, the block is held, and both sizes are rounded up alike. */
  lemma FreedExactly(arena: nat, events: seq<Event>, ptr: nat, size: nat, align: nat, lock: LockOutcome)
    requires arena > 0
    ensures var held := RunOf(arena, events).held;
            RunOf(arena, events + [Dealloc(ptr, size, align, lock)]).held ==
              if lock == Acquired && ptr in held
                 && exists o :: Suits(size, align, o) && Suits(held[ptr].size, held[ptr].align, o)
              then held - {ptr} else held
  {
    var e := Dealloc(ptr, size, align, lock);
    assert (events + [e])[..|events|] == events;
    var r := ReachedRun(arena, events);
    FreeEnds(r, arena, ptr, size, align, lock);
  }

  lemma FreeEnds(r: Run, arena: nat, ptr: nat, size: nat, align: nat, lock: LockOutcome)
    requires Inv(r, arena)
    ensures Releases(r, ptr, size, align, lock) <==>
              && lock == Acquired && ptr in r.held
              && exists o :: Suits(size, align, o) && Suits(r.held[ptr].size, r.held[ptr].align, o)
  {
    if ptr in r.held {
      HeldHasClass(r, ptr);
      SameClass(size, align, r.held[ptr].size, r.held[ptr].align);
    }
  }

  lemma SameClass(size: nat, align: nat, size2: nat, align2: nat)
    requires ClassOf(Request(size2, align2)).Some?
    ensures ClassOf(Request(size, align)) == ClassOf(Request(size2, align2)) <==>
              exists o :: Suits(size, align, o) && Suits(size2, align2, o)
  {
    ClassExactly(size, align);
    ClassExactly(size2, align2);
    var c, d := ClassOf(Request(size, align)), ClassOf(Request(size2, align2));
    if o :| Suits(size, align, o) && Suits(size2, align2, o) {
      SuitsOnce(size, align, SIZE_CLASSES[c.value], o);
      SuitsOnce(size2, align2, SIZE_CLASSES[d.value], o);
      SizesDiffer(c.value, d.value);
    }
  }

  /** Every run starts with nothing counted, no page handed out and ten classes, from 8 to 4096 bytes, without pages. */
  lemma StartsEmpty(arena: nat, c: nat)
    requires c < 10
    ensures var h := RunOf(arena, []).heap;
            && !h.ready && h.cursor == h.allocCount == h.deallocCount == h.oomCount == 0
            && |h.classes| == 10 && h.classes[c].pages == [] && h.classes[c].objectSize == 8 * Pow2(c)
    ensures RunOf(arena, []).held == map[]
  {
    assert Pow2(3) == 8 && Pow2(6) == 64 && Pow2(9) == 512;
  }

  /** In every run the heap is ready exactly when it was initialised. */
  lemma {:induction false} ReadyExactly(arena: nat, events: seq<Event>)
    ensures RunOf(arena, events).heap.ready <==> Init in events
  {
    if events != [] {
      var n := |events| - 1;
      ReadyExactly(arena, events[..n]);
      StepKeepsReady(RunOf(arena, events[..n]), arena, events[n]);
      assert events == events[..n] + [events[n]];
    }
  }

  lemma StepKeepsReady(r: Run, arena: nat, e: Event)
    requires HeapShape(r.heap)
    ensures Step(r, arena, e).heap.ready <==> r.heap.ready || e == Init
  {
  }
}
