/** What every run of allocations and deallocations keeps, whatever addresses callers free. */
module SlabRuns {
  import opened Machine
  import opened SlabModel

  datatype Request = Request(size: nat, align: nat)

  datatype Event =
    | Init
    | Alloc(size: nat, align: nat, lock: LockOutcome)
    | Dealloc(ptr: nat, size: nat, align: nat, lock: LockOutcome)

  /** The heap together with the blocks its callers hold and what they asked for. */
  datatype Run = Run(heap: Heap, held: map<nat, Request>)

  function ClassOf(r: Request): Option<nat> {
    ClassFor(Max(r.size, r.align))
  }

  ghost function Step(r: Run, arena: nat, e: Event): (r': Run)
    requires HeapShape(r.heap)
    ensures HeapShape(r'.heap)
  {
    EventShape(r, arena, e);
    match e
    case Init => r.(heap := r.heap.(ready := true))
    case Alloc(size, align, lock) =>
      var (h, ptr) := HeapAlloc(r.heap, arena, size, align, lock);
      Run(h, if ptr == NULL then r.held else r.held[ptr := Request(size, align)])
    case Dealloc(ptr, size, align, lock) =>
      var h := HeapDealloc(r.heap, ptr, size, align, lock);
      Run(h, if Releases(r, ptr, size, align, lock) then r.held - {ptr} else r.held)
  }

  lemma EventShape(r: Run, arena: nat, e: Event)
    requires HeapShape(r.heap)
    ensures e.Alloc? ==> HeapShape(HeapAlloc(r.heap, arena, e.size, e.align, e.lock).0)
    ensures e.Dealloc? ==> HeapShape(HeapDealloc(r.heap, e.ptr, e.size, e.align, e.lock))
  {
    if !e.Init? {
      var ci := ClassOf(Request(e.size, e.align));
      if ci.Some? && e.Alloc? {
        AllocShape(r.heap, arena, ci.value);
      } else if ci.Some? {
        DeallocShape(r.heap, e.ptr, ci.value);
      }
    }
  }

  /** A deallocation releases a held block of the class the caller names, and nothing else. */
  predicate Releases(r: Run, ptr: nat, size: nat, align: nat, lock: LockOutcome) {
    lock == Acquired && ptr in r.held && ClassOf(r.held[ptr]) == ClassOf(Request(size, align))
  }

  ghost predicate IsPage(h: Heap, c: nat, i: nat) {
    c < |h.classes| && i < |h.classes[c].pages|
  }

  ghost function PageAt(h: Heap, c: nat, i: nat): Page
    requires IsPage(h, c, i)
  {
    h.classes[c].pages[i]
  }

  /** `slotCount` objects of this size fill a page exactly. */
  predicate Divides(objectSize: nat, slotCount: nat) {
    objectSize > 0 && 1 <= slotCount <= MAX_SLOTS_PER_PAGE && slotCount * objectSize == PAGE_SIZE
  }

  /** A page cut exactly into slots, at its own place in the arena. */
  ghost predicate PageOk(p: Page, arena: nat, cursor: nat) {
    && Divides(p.objectSize, p.slotCount)
    && (forall s :: s in p.free ==> s < p.slotCount)
    && arena <= p.base < arena + cursor * PAGE_SIZE
    && (p.base - arena) % PAGE_SIZE == 0
  }

  function PagesFrom(h: Heap, c: nat): nat
    decreases |h.classes| - c
  {
    if c >= |h.classes| then 0 else |h.classes[c].pages| + PagesFrom(h, c + 1)
  }

  /** Every page of every class has a place of its own, and the cursor counts them all. */
  ghost predicate Layout(h: Heap, arena: nat) {
    && HeapShape(h)
    && arena > 0
    && h.cursor <= USER_HEAP_PAGES
    && PagesFrom(h, 0) == h.cursor
    && (forall u {:trigger Unfold(u)} :: Unfold(u) ==> Places(h, arena))
  }

  ghost predicate Places(h: Heap, arena: nat) {
    && (forall c, i :: IsPage(h, c, i) ==> PageOk(PageAt(h, c, i), arena, h.cursor))
    && (forall c, i, d, j :: IsPage(h, c, i) && IsPage(h, d, j) && (c != d || i != j) ==>
          PageAt(h, c, i).base != PageAt(h, d, j).base)
    && (forall k: nat :: k < h.cursor ==> Owned(h, arena, k))
  }

  /** Some class owns the `k`-th page of the arena. */
  ghost predicate Owned(h: Heap, arena: nat, k: nat) {
    exists c, i :: IsPage(h, c, i) && PageAt(h, c, i).base == arena + k * PAGE_SIZE
  }

  ghost predicate Live(h: Heap, c: nat, ptr: nat)
    requires HeapShape(h)
  {
    exists i :: IsPage(h, c, i) && LiveAddress(PageAt(h, c, i), ptr)
  }

  /** The blocks callers hold are exactly the live slots, each in the class its request calls for. */
  ghost predicate Held(r: Run)
    requires HeapShape(r.heap)
  {
    forall u {:trigger Unfold(u)} :: Unfold(u) ==>
      && (forall ptr :: ptr in r.held ==>
            ClassOf(r.held[ptr]).Some? && Live(r.heap, ClassOf(r.held[ptr]).value, ptr))
      && (forall c: nat, ptr: nat :: Live(r.heap, c, ptr) ==>
            ptr in r.held && ClassOf(r.held[ptr]) == Some(c))
  }

  ghost predicate Inv(r: Run, arena: nat) {
    && Layout(r.heap, arena)
    && Held(r)
    && Wrapping(r.heap.deallocCount + |r.held|) == r.heap.allocCount
  }

  // ----- one page -----

  /** A slot's address determines the slot, and the slot lies within the page. */
  lemma SlotAt(p: Page, s: nat)
    requires Divides(p.objectSize, p.slotCount) && s < p.slotCount
    ensures var a := SlotAddress(p.base, p.objectSize, s);
            && p.base <= a && a + p.objectSize <= p.base + PAGE_SIZE
            && (a - p.base) % p.objectSize == 0 && (a - p.base) / p.objectSize == s
  {
    QuotientIs(s * p.objectSize, p.objectSize, s, 0);
    assert (s + 1) * p.objectSize <= p.slotCount * p.objectSize by {
      MulMonotone(s + 1, p.slotCount, p.objectSize);
    }
  }

  lemma MulMonotone(a: nat, b: nat, k: nat)
    requires a <= b
    ensures a * k <= b * k
  {
  }

  /** A live address is the address of a slot that is not free. */
  lemma LiveSlot(p: Page, ptr: nat) returns (s: nat)
    requires Divides(p.objectSize, p.slotCount) && LiveAddress(p, ptr)
    ensures s < p.slotCount && s !in p.free && ptr == SlotAddress(p.base, p.objectSize, s)
    ensures p.base <= ptr && ptr + p.objectSize <= p.base + PAGE_SIZE
  {
    s := (ptr - p.base) / p.objectSize;
    SlotAt(p, s);
  }

  /** Taking a free slot makes exactly that slot's address live. */
  lemma TakenSlot(p: Page, s: nat, q: nat)
    requires Divides(p.objectSize, p.slotCount) && s in p.free && s < p.slotCount
    ensures LiveAddress(p.(free := p.free - {s}), q) <==> LiveAddress(p, q) || q == SlotAddress(p.base, p.objectSize, s)
    ensures !LiveAddress(p, SlotAddress(p.base, p.objectSize, s))
  {
    SlotAt(p, s);
    if LiveAddress(p.(free := p.free - {s}), q) {
      var t := LiveSlot(p.(free := p.free - {s}), q);
    }
  }

  /** Releasing a live slot makes exactly that slot's address no longer live. */
  lemma ReleasedSlot(p: Page, ptr: nat, q: nat)
    requires Divides(p.objectSize, p.slotCount) && LiveAddress(p, ptr)
    ensures LiveAddress(PageFree(p, ptr), q) <==> LiveAddress(p, q) && q != ptr
  {
    var s := LiveSlot(p, ptr);
    SlotAt(p, s);
    if LiveAddress(p, q) {
      var t := LiveSlot(p, q);
      SlotAt(p, t);
    }
  }

  /** Pages at different places share no address. */
  lemma PagesApart(p: Page, q: Page, arena: nat, cursor: nat, a: nat)
    requires PageOk(p, arena, cursor) && PageOk(q, arena, cursor) && p.base != q.base
    requires p.base <= a < p.base + PAGE_SIZE
    ensures !(q.base <= a < q.base + PAGE_SIZE)
  {
  }

  // ----- replacing and adding a page -----

  function SetPage(h: Heap, c: nat, k: nat, p: Page): Heap
    requires c < |h.classes| && k < |h.classes[c].pages|
  {
    h.(classes := h.classes[c := h.classes[c].(pages := h.classes[c].pages[k := p])])
  }

  function AddPage(h: Heap, c: nat, p: Page): Heap
    requires c < |h.classes|
  {
    h.(classes := h.classes[c := h.classes[c].(pages := h.classes[c].pages + [p])], cursor := h.cursor + 1)
  }

  lemma {:induction false} PagesFromClass(h: Heap, h': Heap, c: nat, from: nat)
    requires c < |h.classes| == |h'.classes| && h'.classes == h.classes[c := h'.classes[c]]
    ensures PagesFrom(h', from) - PagesFrom(h, from) ==
              if from <= c then |h'.classes[c].pages| - |h.classes[c].pages| else 0
    decreases |h.classes| - from
  {
    if from < |h.classes| {
      PagesFromClass(h, h', c, from + 1);
    }
  }

  lemma SetPageLayout(h: Heap, arena: nat, c: nat, k: nat, p: Page)
    requires Layout(h, arena) && IsPage(h, c, k)
    requires p == PageAt(h, c, k).(free := p.free) && forall s :: s in p.free ==> s < p.slotCount
    ensures Layout(SetPage(h, c, k, p), arena)
  {
    assert Unfold(0);
    var h' := SetPage(h, c, k, p);
    PagesFromClass(h, h', c, 0);
    assert forall d, i :: IsPage(h', d, i) <==> IsPage(h, d, i);
    assert forall d, i :: IsPage(h, d, i) ==>
      PageAt(h', d, i) == if d == c && i == k then p else PageAt(h, d, i);
    OwnersKept(h, h', arena);
  }

  /** Pages that stay where they are keep their places owned. */
  lemma OwnersKept(h: Heap, h': Heap, arena: nat)
    requires forall d, i :: IsPage(h, d, i) ==> IsPage(h', d, i) && PageAt(h', d, i).base == PageAt(h, d, i).base
    ensures forall k: nat :: Owned(h, arena, k) ==> Owned(h', arena, k)
  {
    forall k: nat | Owned(h, arena, k)
      ensures Owned(h', arena, k)
    {
      var c, i :| IsPage(h, c, i) && PageAt(h, c, i).base == arena + k * PAGE_SIZE;
      assert IsPage(h', c, i);
    }
  }

  lemma AddPageApart(h: Heap, arena: nat, c: nat, p: Page)
    requires Layout(h, arena) && c < NUM_CLASSES && p.base == arena + h.cursor * PAGE_SIZE
    ensures var h' := AddPage(h, c, p);
            forall d, i, e, j :: IsPage(h', d, i) && IsPage(h', e, j) && (d != e || i != j) ==>
              PageAt(h', d, i).base != PageAt(h', e, j).base
  {
    assert Unfold(0);
    var h' := AddPage(h, c, p);
    var n := |h.classes[c].pages|;
    assert forall d, i :: IsPage(h', d, i) <==> IsPage(h, d, i) || (d == c && i == n);
    assert forall d, i :: IsPage(h, d, i) ==> PageAt(h', d, i) == PageAt(h, d, i);
    assert PageAt(h', c, n) == p;
    assert forall d, i :: IsPage(h, d, i) ==> PageAt(h, d, i).base != p.base;
  }

  lemma AddPageLayout(h: Heap, arena: nat, c: nat, p: Page)
    requires Layout(h, arena) && c < NUM_CLASSES && h.cursor < USER_HEAP_PAGES
    requires p.base == arena + h.cursor * PAGE_SIZE && p.objectSize == SIZE_CLASSES[c]
    requires Divides(p.objectSize, p.slotCount) && forall s :: s in p.free ==> s < p.slotCount
    ensures Layout(AddPage(h, c, p), arena)
  {
    assert Unfold(0);
    var h' := AddPage(h, c, p);
    var n := |h.classes[c].pages|;
    PagesFromClass(h, h', c, 0);
    assert forall d, i :: IsPage(h', d, i) <==> IsPage(h, d, i) || (d == c && i == n);
    assert forall d, i :: IsPage(h, d, i) ==> PageAt(h', d, i) == PageAt(h, d, i);
    assert PageAt(h', c, n) == p;
    AddPageApart(h, arena, c, p);
    OwnersKept(h, h', arena);
    assert IsPage(h', c, n);
    assert Owned(h', arena, h.cursor);
  }

  // ----- one operation -----

  /** An address is live in one class at most, and there in one page. */
  lemma LiveOnce(h: Heap, arena: nat, c: nat, i: nat, d: nat, j: nat, a: nat)
    requires Layout(h, arena) && IsPage(h, c, i) && IsPage(h, d, j)
    requires PageAt(h, c, i).base <= a < PageAt(h, c, i).base + PAGE_SIZE
    requires LiveAddress(PageAt(h, d, j), a)
    ensures c == d && i == j
  {
    assert Unfold(0);
    var s := LiveSlot(PageAt(h, d, j), a);
    if c != d || i != j {
      PagesApart(PageAt(h, c, i), PageAt(h, d, j), arena, h.cursor, a);
    }
  }

  /** Taking a free slot of page `k` of class `c` adds its address to the live ones, and no other. */
  lemma TakeInPage(h: Heap, arena: nat, c: nat, k: nat, s: nat, h': Heap, a: nat)
    requires Layout(h, arena) && IsPage(h, c, k)
    requires var p := PageAt(h, c, k);
             && s in p.free
             && h' == SetPage(h, c, k, p.(free := p.free - {s}))
             && a == SlotAddress(p.base, p.objectSize, s)
    ensures Layout(h', arena)
    ensures forall d :: !Live(h, d, a)
    ensures forall d, q :: Live(h', d, q) <==> Live(h, d, q) || (d == c && q == a)
  {
    assert Unfold(0);
    var p := PageAt(h, c, k);
    var p' := p.(free := p.free - {s});
    SetPageLayout(h, arena, c, k, p');
    SlotAt(p, s);
    forall d, j | IsPage(h, d, j)
      ensures !LiveAddress(PageAt(h, d, j), a)
    {
      if LiveAddress(PageAt(h, d, j), a) {
        LiveOnce(h, arena, c, k, d, j, a);
        TakenSlot(p, s, a);
      }
    }
    forall d, q
      ensures Live(h', d, q) <==> Live(h, d, q) || (d == c && q == a)
    {
      TakenSlot(p, s, q);
      PageChanges(h, h', c, k, p');
      assert IsPage(h', c, k);
    }
  }

  lemma PageChanges(h: Heap, h': Heap, c: nat, k: nat, p: Page)
    requires IsPage(h, c, k) && h' == SetPage(h, c, k, p)
    ensures forall d, i :: IsPage(h', d, i) <==> IsPage(h, d, i)
    ensures forall d, i :: IsPage(h, d, i) ==> PageAt(h', d, i) == if d == c && i == k then p else PageAt(h, d, i)
  {
  }

  lemma AddPageLive(h: Heap, c: nat, p: Page, d: nat, q: nat)
    requires HeapShape(h) && c < NUM_CLASSES && p.objectSize == SIZE_CLASSES[c]
    ensures Live(AddPage(h, c, p), d, q) <==> Live(h, d, q) || (d == c && LiveAddress(p, q))
  {
    var h' := AddPage(h, c, p);
    var n := |h.classes[c].pages|;
    assert forall i :: IsPage(h', d, i) <==> IsPage(h, d, i) || (d == c && i == n);
    assert forall i :: IsPage(h, d, i) ==> PageAt(h', d, i) == PageAt(h, d, i);
    assert IsPage(h', c, n) && PageAt(h', c, n) == p;
  }

  /** Nothing is live at the place of the next page. */
  lemma NextPageUnused(h: Heap, arena: nat, d: nat)
    requires Layout(h, arena)
    ensures !Live(h, d, arena + h.cursor * PAGE_SIZE)
  {
    assert Unfold(0);
    var a := arena + h.cursor * PAGE_SIZE;
    forall j | IsPage(h, d, j)
      ensures !LiveAddress(PageAt(h, d, j), a)
    {
      if LiveAddress(PageAt(h, d, j), a) {
        var s := LiveSlot(PageAt(h, d, j), a);
        PageEndsBelow(PageAt(h, d, j), arena, h.cursor);
      }
    }
  }

  lemma PageEndsBelow(p: Page, arena: nat, cursor: nat)
    requires PageOk(p, arena, cursor)
    ensures p.base + PAGE_SIZE <= arena + cursor * PAGE_SIZE
  {
  }

  /** A new page whose first slot is taken adds one live address, and no other. */
  lemma TakeInNewPage(h: Heap, arena: nat, c: nat, p: Page, h': Heap)
    requires Layout(h, arena) && c < NUM_CLASSES && h.cursor < USER_HEAP_PAGES
    requires p.base == arena + h.cursor * PAGE_SIZE && p.objectSize == SIZE_CLASSES[c]
    requires p.slotCount == Fits(PAGE_SIZE, p.objectSize) && p.free == Below(p.slotCount) - {0}
    requires h' == AddPage(h, c, p)
    ensures Layout(h', arena)
    ensures forall d, q :: Live(h', d, q) <==> Live(h, d, q) || (d == c && q == p.base)
  {
    NewPageDivides(c);
    AddPageLayout(h, arena, c, p);
    forall d, q
      ensures Live(h', d, q) <==> Live(h, d, q) || (d == c && q == p.base)
    {
      AddPageLive(h, c, p, d, q);
      OnlyFirstSlot(p, q);
    }
  }

  lemma NewPageDivides(c: nat)
    requires c < NUM_CLASSES
    ensures Divides(SIZE_CLASSES[c], Fits(PAGE_SIZE, SIZE_CLASSES[c]))
  {
    ClassSizeOk(c);
    FitsIsQuotient(PAGE_SIZE, SIZE_CLASSES[c]);
  }

  lemma OnlyFirstSlot(p: Page, q: nat)
    requires Divides(p.objectSize, p.slotCount) && p.free == Below(p.slotCount) - {0}
    ensures LiveAddress(p, q) <==> q == p.base
  {
    SlotAt(p, 0);
    if LiveAddress(p, q) {
      var s := LiveSlot(p, q);
      assert s in Below(p.slotCount);
    }
  }

  /** Layout and liveness do not depend on the counters. */
  lemma Recounted(h: Heap, h': Heap, arena: nat)
    requires Layout(h, arena) && h'.classes == h.classes && h'.cursor == h.cursor
    ensures Layout(h', arena)
    ensures forall c, ptr :: Live(h', c, ptr) <==> Live(h, c, ptr)
  {
    assert Unfold(0);
    PagesFromClass(h, h', 0, 0);
    assert forall d, i :: IsPage(h', d, i) <==> IsPage(h, d, i);
    assert forall d, i :: IsPage(h, d, i) ==> PageAt(h', d, i) == PageAt(h, d, i);
    OwnersKept(h, h', arena);
    forall c, ptr
      ensures Live(h', c, ptr) <==> Live(h, c, ptr)
    {
      assert forall i :: IsPage(h, c, i) ==> IsPage(h', c, i) && PageAt(h', c, i) == PageAt(h, c, i);
    }
  }

  /** What `alloc` comes to, case by case. */
  lemma AllocCases(h: Heap, arena: nat, ci: nat, c: Class, k: nat)
    requires HeapShape(h) && ci < NUM_CLASSES && c == h.classes[ci] && k == FirstWithFree(c.pages, 0)
    ensures SizeOk(c.objectSize)
    ensures k < |c.pages| ==>
              var (p, ptr) := PageAlloc(c.pages[k]);
              AllocLocked(h, arena, ci) ==
                (SetPage(h, ci, k, p).(allocCount := Wrapping(h.allocCount + 1)), ptr)
    ensures k == |c.pages| && (k >= MAX_SLAB_PAGES || h.cursor >= USER_HEAP_PAGES) ==>
              AllocLocked(h, arena, ci) == (h.(oomCount := Wrapping(h.oomCount + 1)), NULL)
    ensures k == |c.pages| < MAX_SLAB_PAGES && h.cursor < USER_HEAP_PAGES ==>
              var (p, ptr) := PageAlloc(NewPage(arena + h.cursor * PAGE_SIZE, c.objectSize));
              AllocLocked(h, arena, ci) == (AddPage(h, ci, p).(allocCount := Wrapping(h.allocCount + 1)), ptr)
  {
    ClassSizeOk(ci);
    if k < |c.pages| {
      AllocInPage(h, arena, ci, c, k);
    } else if k >= MAX_SLAB_PAGES || h.cursor >= USER_HEAP_PAGES {
      AllocNowhere(h, arena, ci, c, k);
    } else {
      AllocInNewPage(h, arena, ci, c, k);
    }
  }

  lemma AllocInPage(h: Heap, arena: nat, ci: nat, c: Class, k: nat)
    requires HeapShape(h) && ci < NUM_CLASSES && c == h.classes[ci] && k == FirstWithFree(c.pages, 0) < |c.pages|
    requires SizeOk(c.objectSize)
    ensures var (p, ptr) := PageAlloc(c.pages[k]);
            AllocLocked(h, arena, ci) == (SetPage(h, ci, k, p).(allocCount := Wrapping(h.allocCount + 1)), ptr)
  {
  }

  lemma AllocNowhere(h: Heap, arena: nat, ci: nat, c: Class, k: nat)
    requires HeapShape(h) && ci < NUM_CLASSES && c == h.classes[ci] && k == FirstWithFree(c.pages, 0) == |c.pages|
    requires SizeOk(c.objectSize) && (k >= MAX_SLAB_PAGES || h.cursor >= USER_HEAP_PAGES)
    ensures AllocLocked(h, arena, ci) == (h.(oomCount := Wrapping(h.oomCount + 1)), NULL)
  {
    assert h.classes[ci := c] == h.classes;
  }

  lemma AllocInNewPage(h: Heap, arena: nat, ci: nat, c: Class, k: nat)
    requires HeapShape(h) && ci < NUM_CLASSES && c == h.classes[ci] && k == FirstWithFree(c.pages, 0) == |c.pages|
    requires SizeOk(c.objectSize) && k < MAX_SLAB_PAGES && h.cursor < USER_HEAP_PAGES
    ensures var (p, ptr) := PageAlloc(NewPage(arena + h.cursor * PAGE_SIZE, c.objectSize));
            AllocLocked(h, arena, ci) == (AddPage(h, ci, p).(allocCount := Wrapping(h.allocCount + 1)), ptr)
  {
  }

  /** From `h` to `h'` the address `a` became live in class `ci`, having been live nowhere, and nothing else changed. */
  ghost predicate Gains(h: Heap, h': Heap, arena: nat, ci: nat, a: nat)
    requires HeapShape(h) && HeapShape(h')
  {
    && Layout(h', arena)
    && (forall d :: !Live(h, d, a))
    && (forall d, q :: Live(h', d, q) <==> Live(h, d, q) || (d == ci && q == a))
  }

  lemma GainInPage(h: Heap, arena: nat, ci: nat, k: nat, h': Heap, ptr: nat)
    requires Layout(h, arena) && ci < NUM_CLASSES
    requires k == FirstWithFree(h.classes[ci].pages, 0) < |h.classes[ci].pages|
    requires (h', ptr) == AllocLocked(h, arena, ci)
    ensures HeapShape(h') && Gains(h, h', arena, ci, ptr) && ptr != NULL
    ensures h'.allocCount == Wrapping(h.allocCount + 1) && h'.deallocCount == h.deallocCount
  {
    assert Unfold(0);
    AllocCases(h, arena, ci, h.classes[ci], k);
    assert IsPage(h, ci, k);
    var p := PageAt(h, ci, k);
    var s := Lowest(p.free);
    var h1 := SetPage(h, ci, k, p.(free := p.free - {s}));
    TakeInPage(h, arena, ci, k, s, h1, ptr);
    Recounted(h1, h', arena);
  }

  lemma GainInNewPage(h: Heap, arena: nat, ci: nat, h': Heap, ptr: nat)
    requires Layout(h, arena) && ci < NUM_CLASSES
    requires FirstWithFree(h.classes[ci].pages, 0) == |h.classes[ci].pages| < MAX_SLAB_PAGES
    requires h.cursor < USER_HEAP_PAGES
    requires (h', ptr) == AllocLocked(h, arena, ci)
    ensures HeapShape(h') && Gains(h, h', arena, ci, ptr) && ptr != NULL
    ensures h'.allocCount == Wrapping(h.allocCount + 1) && h'.deallocCount == h.deallocCount
  {
    var p := NewPageTaken(h, arena, ci, h', ptr);
    TakeInNewPage(h, arena, ci, p, AddPage(h, ci, p));
    Recounted(AddPage(h, ci, p), h', arena);
    forall d
      ensures !Live(h, d, ptr)
    {
      NextPageUnused(h, arena, d);
    }
  }

  lemma NewPageTaken(h: Heap, arena: nat, ci: nat, h': Heap, ptr: nat) returns (p: Page)
    requires HeapShape(h) && ci < NUM_CLASSES && arena > 0
    requires FirstWithFree(h.classes[ci].pages, 0) == |h.classes[ci].pages| < MAX_SLAB_PAGES
    requires h.cursor < USER_HEAP_PAGES
    requires (h', ptr) == AllocLocked(h, arena, ci)
    ensures SizeOk(SIZE_CLASSES[ci]) && ptr == arena + h.cursor * PAGE_SIZE && ptr != NULL
    ensures p == Page(ptr, SIZE_CLASSES[ci], Fits(PAGE_SIZE, SIZE_CLASSES[ci]), Below(Fits(PAGE_SIZE, SIZE_CLASSES[ci])) - {0})
    ensures h' == AddPage(h, ci, p).(allocCount := Wrapping(h.allocCount + 1))
  {
    ClassSizeOk(ci);
    AllocCases(h, arena, ci, h.classes[ci], |h.classes[ci].pages|);
    p := FirstSlotTaken(arena + h.cursor * PAGE_SIZE, SIZE_CLASSES[ci]);
  }

  lemma FirstSlotTaken(base: nat, objectSize: nat) returns (p: Page)
    requires SizeOk(objectSize)
    ensures PageAlloc(NewPage(base, objectSize)) == (p, base)
    ensures p == Page(base, objectSize, Fits(PAGE_SIZE, objectSize), Below(Fits(PAGE_SIZE, objectSize)) - {0})
  {
    var page := NewPage(base, objectSize);
    assert Lowest(page.free) == 0;
    p := PageAlloc(page).0;
  }

  /** Every slot of the class is live and the arena has no page left. */
  predicate Exhausted(h: Heap, ci: nat)
    requires ci < |h.classes|
  {
    (forall i :: 0 <= i < |h.classes[ci].pages| ==> h.classes[ci].pages[i].free == {}) && h.cursor == USER_HEAP_PAGES
  }

  /**
   Under the lock, allocation fails exactly when the class is exhausted, and then changes only
   the failure count; otherwise one address becomes live that was live nowhere.
   */
  lemma AllocEffect(h: Heap, arena: nat, ci: nat, h': Heap, ptr: nat)
    requires Layout(h, arena) && ci < NUM_CLASSES
    requires (h', ptr) == AllocLocked(h, arena, ci)
    ensures HeapShape(h')
    ensures ptr == NULL <==> Exhausted(h, ci)
    ensures ptr == NULL ==> h' == h.(oomCount := Wrapping(h.oomCount + 1))
    ensures ptr != NULL ==> Gains(h, h', arena, ci, ptr)
    ensures ptr != NULL ==> h'.allocCount == Wrapping(h.allocCount + 1) && h'.deallocCount == h.deallocCount
  {
    var k := FirstWithFree(h.classes[ci].pages, 0);
    AllocCases(h, arena, ci, h.classes[ci], k);
    ClassPagesBounded(h, ci);
    if k < |h.classes[ci].pages| {
      GainInPage(h, arena, ci, k, h', ptr);
    } else if k < MAX_SLAB_PAGES && h.cursor < USER_HEAP_PAGES {
      GainInNewPage(h, arena, ci, h', ptr);
    }
  }

  /** A class never owns more pages than the cursor has handed out. */
  lemma ClassPagesBounded(h: Heap, ci: nat)
    requires ci < |h.classes|
    ensures |h.classes[ci].pages| <= PagesFrom(h, 0)
  {
    PagesFromAtLeast(h, ci, 0);
  }

  lemma {:induction false} PagesFromAtLeast(h: Heap, ci: nat, from: nat)
    requires from <= ci < |h.classes|
    ensures |h.classes[ci].pages| <= PagesFrom(h, from)
    decreases ci - from
  {
    if from < ci {
      PagesFromAtLeast(h, ci, from + 1);
    }
  }

  // ----- deallocation -----

  /** From `h` to `h'` the address `a` is no longer live in class `ci`, and nothing else changed. */
  ghost predicate Loses(h: Heap, h': Heap, arena: nat, ci: nat, a: nat)
    requires HeapShape(h) && HeapShape(h')
  {
    && Layout(h', arena)
    && (forall d, q :: Live(h', d, q) <==> Live(h, d, q) && !(d == ci && q == a))
  }

  lemma ReleaseInPage(h: Heap, arena: nat, c: nat, k: nat, h': Heap, a: nat)
    requires Layout(h, arena) && IsPage(h, c, k) && LiveAddress(PageAt(h, c, k), a)
    requires h' == SetPage(h, c, k, PageFree(PageAt(h, c, k), a))
    ensures Loses(h, h', arena, c, a)
  {
    assert Unfold(0);
    var p := PageAt(h, c, k);
    var p' := PageFree(p, a);
    var s := LiveSlot(p, a);
    SetPageLayout(h, arena, c, k, p');
    PageChanges(h, h', c, k, p');
    forall d, q
      ensures Live(h', d, q) <==> Live(h, d, q) && !(d == c && q == a)
    {
      ReleasedSlot(p, a, q);
      forall j | IsPage(h, c, j) && LiveAddress(PageAt(h, c, j), a)
        ensures j == k
      {
        LiveOnce(h, arena, c, k, c, j, a);
      }
    }
  }

  /** Under the lock, deallocation releases exactly the live blocks of its class, and otherwise changes nothing. */
  lemma DeallocEffect(h: Heap, arena: nat, ci: nat, ptr: nat, h': Heap)
    requires Layout(h, arena) && ci < NUM_CLASSES
    requires h' == DeallocLocked(h, ptr, ci)
    ensures HeapShape(h')
    ensures !Live(h, ci, ptr) ==> h' == h
    ensures Live(h, ci, ptr) ==> Loses(h, h', arena, ci, ptr)
    ensures Live(h, ci, ptr) ==> h'.allocCount == h.allocCount && h'.deallocCount == Wrapping(h.deallocCount + 1)
  {
    assert Unfold(0);
    var c := h.classes[ci];
    var k := FirstHolding(c.pages, ptr, 0);
    if k < |c.pages| {
      assert IsPage(h, ci, k) && LiveAddress(PageAt(h, ci, k), ptr);
      var h1 := SetPage(h, ci, k, PageFree(PageAt(h, ci, k), ptr));
      ReleaseInPage(h, arena, ci, k, h1, ptr);
      Recounted(h1, h', arena);
    } else {
      assert h.classes[ci := c] == h.classes;
    }
  }

  // ----- whole runs -----

  function Start(): Run {
    Run(EmptyHeap(), map[])
  }

  ghost function RunOf(arena: nat, events: seq<Event>): (r: Run)
    ensures HeapShape(r.heap)
  {
    if events == [] then Start()
    else Step(RunOf(arena, events[..|events| - 1]), arena, events[|events| - 1])
  }

  lemma StartKeeps(arena: nat)
    requires arena > 0
    ensures Inv(Start(), arena)
  {
    NoPages(EmptyHeap(), 0);
  }

  lemma {:induction false} NoPages(h: Heap, from: nat)
    requires forall c :: 0 <= c < |h.classes| ==> h.classes[c].pages == []
    ensures PagesFrom(h, from) == 0
    decreases |h.classes| - from
  {
    if from < |h.classes| {
      NoPages(h, from + 1);
    }
  }

  lemma HeldGains(r: Run, arena: nat, h': Heap, ptr: nat, request: Request)
    requires HeapShape(r.heap) && HeapShape(h') && Held(r)
    requires ClassOf(request).Some? && Gains(r.heap, h', arena, ClassOf(request).value, ptr)
    ensures ptr !in r.held
    ensures Held(Run(h', r.held[ptr := request]))
  {
    assert Unfold(0);
  }

  lemma HeldLoses(r: Run, arena: nat, h': Heap, ci: nat, ptr: nat)
    requires HeapShape(r.heap) && HeapShape(h') && Held(r)
    requires Live(r.heap, ci, ptr) && Loses(r.heap, h', arena, ci, ptr)
    ensures ptr in r.held && ClassOf(r.held[ptr]) == Some(ci)
    ensures Held(Run(h', r.held - {ptr}))
  {
    assert Unfold(0);
  }

  lemma HeldSame(r: Run, h': Heap)
    requires HeapShape(r.heap) && HeapShape(h') && Held(r)
    requires forall c, ptr :: Live(h', c, ptr) <==> Live(r.heap, c, ptr)
    ensures Held(Run(h', r.held))
  {
    assert Unfold(0);
  }

  lemma CountUp(a: u64, d: u64, n: nat)
    requires Wrapping(d + n) == a
    ensures Wrapping(d + n + 1) == Wrapping(a + 1)
  {
  }

  lemma CountDown(d: u64, n: nat)
    requires n > 0
    ensures Wrapping(Wrapping(d + 1) + n - 1) == Wrapping(d + n)
  {
  }

  lemma NotLiveNotHeld(r: Run, ci: nat, ptr: nat)
    requires HeapShape(r.heap) && Held(r) && !Live(r.heap, ci, ptr)
    ensures ptr in r.held ==> ClassOf(r.held[ptr]) != Some(ci)
  {
    assert Unfold(0);
  }

  lemma AllocKeeps(r: Run, arena: nat, ci: nat, request: Request, h': Heap, ptr: nat)
    requires Inv(r, arena) && ClassOf(request) == Some(ci)
    requires (h', ptr) == AllocLocked(r.heap, arena, ci)
    ensures Inv(Run(h', if ptr == NULL then r.held else r.held[ptr := request]), arena)
  {
    AllocEffect(r.heap, arena, ci, h', ptr);
    if ptr == NULL {
      Recounted(r.heap, h', arena);
      HeldSame(r, h');
    } else {
      HeldGains(r, arena, h', ptr, request);
      CountUp(r.heap.allocCount, r.heap.deallocCount, |r.held|);
    }
  }

  lemma DeallocKeeps(r: Run, arena: nat, ci: nat, ptr: nat, h': Heap)
    requires Inv(r, arena) && ci < NUM_CLASSES
    requires h' == DeallocLocked(r.heap, ptr, ci)
    ensures Inv(Run(h', if ptr in r.held && ClassOf(r.held[ptr]) == Some(ci) then r.held - {ptr} else r.held), arena)
  {
    DeallocEffect(r.heap, arena, ci, ptr, h');
    if Live(r.heap, ci, ptr) {
      HeldLoses(r, arena, h', ci, ptr);
      assert |r.held - {ptr}| == |r.held| - 1;
      CountDown(r.heap.deallocCount, |r.held|);
    } else {
      NotLiveNotHeld(r, ci, ptr);
    }
  }

  lemma NullNotHeld(r: Run, arena: nat)
    requires Inv(r, arena)
    ensures NULL !in r.held
  {
    if NULL in r.held {
      HeldInArena(r, arena, NULL);
    }
  }

  lemma AllocEventKeeps(r: Run, arena: nat, e: Event)
    requires Inv(r, arena) && e.Alloc?
    ensures Inv(Step(r, arena, e), arena)
  {
    var request := Request(e.size, e.align);
    var ci := ClassOf(request);
    if r.heap.ready && ci.Some? && e.lock == Acquired {
      var (h', ptr) := AllocLocked(r.heap, arena, ci.value);
      AllocKeeps(r, arena, ci.value, request, h', ptr);
    }
  }

  lemma DeallocEventKeeps(r: Run, arena: nat, e: Event)
    requires Inv(r, arena) && e.Dealloc?
    ensures Inv(Step(r, arena, e), arena)
  {
    var ci := ClassOf(Request(e.size, e.align));
    NullNotHeld(r, arena);
    if e.ptr != NULL && ci.Some? && e.lock == Acquired {
      DeallocKeeps(r, arena, ci.value, e.ptr, DeallocLocked(r.heap, e.ptr, ci.value));
    } else if e.ptr in r.held {
      HeldHasClass(r, e.ptr);
    }
  }

  lemma HeldHasClass(r: Run, ptr: nat)
    requires HeapShape(r.heap) && Held(r) && ptr in r.held
    ensures ClassOf(r.held[ptr]).Some?
    ensures Live(r.heap, ClassOf(r.held[ptr]).value, ptr)
  {
    assert Unfold(0);
  }

  lemma StepKeepsInvariant(r: Run, arena: nat, e: Event)
    requires Inv(r, arena)
    ensures Inv(Step(r, arena, e), arena)
  {
    match e
    case Init =>
      Recounted(r.heap, r.heap.(ready := true), arena);
      HeldSame(r, r.heap.(ready := true));
    case Alloc(_, _, _) =>
      AllocEventKeeps(r, arena, e);
    case Dealloc(_, _, _, _) =>
      DeallocEventKeeps(r, arena, e);
  }

  /** The invariant holds after every run. */
  lemma {:induction false} RunsKeepInvariant(arena: nat, events: seq<Event>)
    requires arena > 0
    ensures Inv(RunOf(arena, events), arena)
  {
    if events == [] {
      StartKeeps(arena);
    } else {
      RunsKeepInvariant(arena, events[..|events| - 1]);
      StepKeepsInvariant(RunOf(arena, events[..|events| - 1]), arena, events[|events| - 1]);
    }
  }

  // ----- what callers may rely on -----

  /** The bytes a held block occupies, rounded up to its size class. */
  function Extent(r: Request): nat
    requires ClassOf(r).Some?
  {
    SIZE_CLASSES[ClassOf(r).value]
  }

  predicate PowerOfTwo(n: nat) {
    n == 1 || (n > 1 && n % 2 == 0 && PowerOfTwo(n / 2))
  }

  /**
   In every run each held block is large enough, aligned as asked, and inside the arena.
   (Callers ask for power-of-two alignments, and the arena starts on a page boundary.)
   */
  lemma HeldBlocksAreSound(arena: nat, events: seq<Event>, ptr: nat)
    requires arena > 0 && arena % PAGE_SIZE == 0
    requires ptr in RunOf(arena, events).held
    requires PowerOfTwo(RunOf(arena, events).held[ptr].align)
    ensures var q := RunOf(arena, events).held[ptr];
            && ClassOf(q).Some? && q.size <= Extent(q)
            && arena <= ptr && ptr + Extent(q) <= arena + USER_HEAP_PAGES * PAGE_SIZE
            && ptr % q.align == 0
  {
    var r := ReachedRun(arena, events);
    HeldHasClass(r, ptr);
    LiveBlockSound(r.heap, arena, ClassOf(r.held[ptr]).value, ptr, r.held[ptr].align);
  }

  lemma LiveBlockSound(h: Heap, arena: nat, c: nat, ptr: nat, align: nat)
    requires Layout(h, arena) && arena % PAGE_SIZE == 0 && c < NUM_CLASSES && Live(h, c, ptr)
    requires PowerOfTwo(align) && align <= SIZE_CLASSES[c]
    ensures arena <= ptr && ptr + SIZE_CLASSES[c] <= arena + USER_HEAP_PAGES * PAGE_SIZE
    ensures ptr % align == 0
  {
    var p := HomePage(h, arena, c, ptr);
    var s := LiveSlot(p, ptr);
    PageEndsBelow(p, arena, h.cursor);
    var m := SlotMultiple(p, arena, h.cursor, s);
    ClassIsPower(c);
    var f := PowerDivides(align, SIZE_CLASSES[c]);
    MultipleAligned(ptr, m, SIZE_CLASSES[c], f, align);
  }

  lemma MultipleAligned(a: nat, m: nat, size: nat, f: nat, align: nat)
    requires a == m * size && size == f * align && align > 0
    ensures a % align == 0
  {
    assert a == (m * f) * align;
    QuotientIs(a, align, m * f, 0);
  }

  /** The page a live address lies in. */
  lemma HomePage(h: Heap, arena: nat, c: nat, ptr: nat) returns (p: Page)
    requires Layout(h, arena) && Live(h, c, ptr)
    ensures PageOk(p, arena, h.cursor) && LiveAddress(p, ptr)
    ensures c < NUM_CLASSES && p.objectSize == SIZE_CLASSES[c]
  {
    assert Unfold(0);
    var i :| IsPage(h, c, i) && LiveAddress(PageAt(h, c, i), ptr);
    p := PageAt(h, c, i);
  }

  /** Every slot starts at a multiple of its object size. */
  lemma SlotMultiple(p: Page, arena: nat, cursor: nat, s: nat) returns (m: nat)
    requires PageOk(p, arena, cursor) && arena % PAGE_SIZE == 0
    ensures SlotAddress(p.base, p.objectSize, s) == m * p.objectSize
  {
    var b := p.base / PAGE_SIZE;
    assert p.base == b * PAGE_SIZE by {
      PageMultiple(p.base, arena);
    }
    m := b * p.slotCount + s;
    assert b * (p.slotCount * p.objectSize) == (b * p.slotCount) * p.objectSize;
  }

  lemma PageMultiple(base: nat, arena: nat)
    requires arena <= base && (base - arena) % PAGE_SIZE == 0 && arena % PAGE_SIZE == 0
    ensures base == base / PAGE_SIZE * PAGE_SIZE
  {
  }

  lemma ClassIsPower(c: nat)
    requires c < NUM_CLASSES
    ensures PowerOfTwo(SIZE_CLASSES[c]) && SIZE_CLASSES[c] > 0
  {
    assert PowerOfTwo(4);
    assert PowerOfTwo(16);
    assert PowerOfTwo(64);
    assert PowerOfTwo(256);
    assert PowerOfTwo(1024);
  }

  /** A power of two divides every larger one. */
  lemma {:induction false} PowerDivides(n: nat, m: nat) returns (f: nat)
    requires PowerOfTwo(n) && PowerOfTwo(m) && n <= m
    ensures m == f * n
  {
    if n == 1 {
      f := m;
    } else {
      f := PowerDivides(n / 2, m / 2);
      assert f * n == f * (2 * (n / 2)) == 2 * (f * (n / 2));
    }
  }

  /** In every run two held blocks never overlap. */
  lemma HeldBlocksDisjoint(arena: nat, events: seq<Event>, a: nat, b: nat)
    requires arena > 0
    requires a in RunOf(arena, events).held && b in RunOf(arena, events).held && a < b
    ensures var held := RunOf(arena, events).held;
            ClassOf(held[a]).Some? && a + Extent(held[a]) <= b
  {
    var r := ReachedRun(arena, events);
    HeldHasClass(r, a);
    HeldHasClass(r, b);
    var ca, cb := ClassOf(r.held[a]).value, ClassOf(r.held[b]).value;
    BlocksApart(r.heap, arena, ca, a, cb, b);
  }

  lemma BlocksApart(h: Heap, arena: nat, c: nat, a: nat, d: nat, b: nat)
    requires Layout(h, arena) && Live(h, c, a) && Live(h, d, b) && a < b
    ensures c < NUM_CLASSES && a + SIZE_CLASSES[c] <= b
  {
    assert Unfold(0);
    var i :| IsPage(h, c, i) && LiveAddress(PageAt(h, c, i), a);
    var j :| IsPage(h, d, j) && LiveAddress(PageAt(h, d, j), b);
    var p := PageAt(h, c, i);
    var s := LiveSlot(p, a);
    var t := LiveSlot(PageAt(h, d, j), b);
    if b < p.base + PAGE_SIZE {
      LiveOnce(h, arena, c, i, d, j, b);
      NextSlot(p.base, p.objectSize, s, t);
    }
  }

  lemma NextSlot(base: nat, objectSize: nat, s: nat, t: nat)
    requires SlotAddress(base, objectSize, s) < SlotAddress(base, objectSize, t)
    ensures SlotAddress(base, objectSize, s) + objectSize <= SlotAddress(base, objectSize, t)
  {
    if t <= s {
      MulMonotone(t, s, objectSize);
    } else {
      MulMonotone(s + 1, t, objectSize);
    }
  }

  /** In every run each page handed out belongs to exactly one class, and no class holds any other. */
  lemma PagesHaveOneOwner(arena: nat, events: seq<Event>, k: nat)
    requires arena > 0
    ensures var h := RunOf(arena, events).heap;
            && PagesFrom(h, 0) == h.cursor <= USER_HEAP_PAGES
            && (k < h.cursor <==>
                exists c, i :: IsPage(h, c, i) && PageAt(h, c, i).base == arena + k * PAGE_SIZE)
            && (forall c, i, d, j :: IsPage(h, c, i) && IsPage(h, d, j) && (c != d || i != j) ==>
                  PageAt(h, c, i).base != PageAt(h, d, j).base)
  {
    var r := ReachedRun(arena, events);
    var h := r.heap;
    assert Unfold(0);
    assert Owned(h, arena, k) <==>
      exists c, i :: IsPage(h, c, i) && PageAt(h, c, i).base == arena + k * PAGE_SIZE;
  }

  /** In every run the counters differ by the number of held blocks. */
  lemma CountersConserve(arena: nat, events: seq<Event>)
    requires arena > 0
    ensures var r := RunOf(arena, events);
            Wrapping(r.heap.allocCount - r.heap.deallocCount) == |r.held|
  {
    var r := ReachedRun(arena, events);
    CountersMatch(r, arena);
  }

  lemma ReachedRun(arena: nat, events: seq<Event>) returns (r: Run)
    requires arena > 0
    ensures r == RunOf(arena, events) && Inv(r, arena)
  {
    RunsKeepInvariant(arena, events);
    r := RunOf(arena, events);
  }

  lemma CountersMatch(r: Run, arena: nat)
    requires Inv(r, arena)
    ensures Wrapping(r.heap.allocCount - r.heap.deallocCount) == |r.held|
  {
    forall ptr | ptr in r.held.Keys
      ensures arena <= ptr < arena + USER_HEAP_PAGES * PAGE_SIZE
    {
      HeldInArena(r, arena, ptr);
    }
    HeldBound(r.held.Keys, arena, USER_HEAP_PAGES * PAGE_SIZE);
    CountersApart(r.heap.allocCount, r.heap.deallocCount, |r.held|);
  }

  lemma HeldInArena(r: Run, arena: nat, ptr: nat)
    requires Inv(r, arena) && ptr in r.held
    ensures arena <= ptr < arena + USER_HEAP_PAGES * PAGE_SIZE
  {
    HeldHasClass(r, ptr);
    var p := HomePage(r.heap, arena, ClassOf(r.held[ptr]).value, ptr);
    var s := LiveSlot(p, ptr);
    PageEndsBelow(p, arena, r.heap.cursor);
  }

  lemma CountersApart(a: u64, d: u64, n: nat)
    requires Wrapping(d + n) == a && n < U64_LIMIT
    ensures Wrapping(a - d) == n
  {
    if d + n < U64_LIMIT {
      assert a == d + n;
    } else {
      assert a == d + n - U64_LIMIT;
      assert Wrapping(a - d) == a - d + U64_LIMIT;
    }
  }

  lemma {:induction false} HeldBound(s: set<nat>, lo: nat, n: nat)
    requires forall x :: x in s ==> lo <= x < lo + n
    ensures |s| <= n
  {
    if n == 0 {
      assert s == {};
    } else {
      HeldBound(s - {lo + n - 1}, lo, n - 1);
      assert s <= s - {lo + n - 1} + {lo + n - 1};
    }
  }

  lemma FailsExactly(h: Heap, arena: nat, ci: nat)
    requires Layout(h, arena) && ci < NUM_CLASSES
    ensures AllocLocked(h, arena, ci).1 == NULL <==> Exhausted(h, ci)
  {
    var (h', ptr) := AllocLocked(h, arena, ci);
    AllocEffect(h, arena, ci, h', ptr);
  }

  /**
   In every run a request for a size some class holds fails, with the heap ready and locked,
   exactly when every slot of that class is held and every page of the arena is taken.
   */
  lemma AllocFailsOnlyWhenExhausted(arena: nat, events: seq<Event>, size: nat, align: nat)
    requires arena > 0
    requires ClassOf(Request(size, align)).Some? && RunOf(arena, events).heap.ready
    ensures var h := RunOf(arena, events).heap;
            HeapAlloc(h, arena, size, align, Acquired).1 == NULL <==>
              && h.cursor == USER_HEAP_PAGES
              && forall i :: 0 <= i < |h.classes[ClassOf(Request(size, align)).value].pages| ==>
                   h.classes[ClassOf(Request(size, align)).value].pages[i].free == {}
  {
    var r := ReachedRun(arena, events);
    FailsExactly(r.heap, arena, ClassOf(Request(size, align)).value);
  }

  /** A live address is found in the page it lies in. */
  lemma FoundAt(h: Heap, arena: nat, ci: nat, k: nat, ptr: nat)
    requires Layout(h, arena) && IsPage(h, ci, k) && LiveAddress(PageAt(h, ci, k), ptr)
    ensures DeallocLocked(h, ptr, ci) ==
              SetPage(h, ci, k, PageFree(PageAt(h, ci, k), ptr)).(deallocCount := Wrapping(h.deallocCount + 1))
  {
    var pages := h.classes[ci].pages;
    var j := FirstHolding(pages, ptr, 0);
    assert j < |pages|;
    assert IsPage(h, ci, j) && PageAt(h, ci, j) == pages[j];
    assert Unfold(0);
    var s := LiveSlot(PageAt(h, ci, k), ptr);
    LiveOnce(h, arena, ci, k, ci, j, ptr);
  }

  /** Releasing the slot just taken gives back the page as it was. */
  lemma TakenThenReleased(p: Page, s: nat)
    requires Divides(p.objectSize, p.slotCount) && s in p.free && s < p.slotCount
    ensures var taken := p.(free := p.free - {s});
            var a := SlotAddress(p.base, p.objectSize, s);
            LiveAddress(taken, a) && PageFree(taken, a) == p
  {
    SlotAt(p, s);
    assert p.free - {s} + {s} == p.free;
  }

  ghost predicate PagesKept(h: Heap, h2: Heap) {
    && (forall c, i :: IsPage(h, c, i) ==> IsPage(h2, c, i) && PageAt(h2, c, i) == PageAt(h, c, i))
    && (forall c, i :: IsPage(h2, c, i) && !IsPage(h, c, i) ==>
          PageAt(h2, c, i).free == Below(PageAt(h2, c, i).slotCount))
  }

  lemma AllocKeepsLayout(h: Heap, arena: nat, ci: nat)
    requires Layout(h, arena) && ci < NUM_CLASSES
    ensures Layout(AllocLocked(h, arena, ci).0, arena)
  {
    var (h', ptr) := AllocLocked(h, arena, ci);
    AllocEffect(h, arena, ci, h', ptr);
    if ptr == NULL {
      Recounted(h, h', arena);
    }
  }

  lemma RestoredInPage(h: Heap, arena: nat, ci: nat, h1: Heap, ptr: nat)
    requires Layout(h, arena) && ci < NUM_CLASSES
    requires (h1, ptr) == AllocLocked(h, arena, ci)
    requires FirstWithFree(h.classes[ci].pages, 0) < |h.classes[ci].pages|
    ensures HeapShape(h1) && PagesKept(h, DeallocLocked(h1, ptr, ci))
  {
    var k := FirstWithFree(h.classes[ci].pages, 0);
    AllocCases(h, arena, ci, h.classes[ci], k);
    AllocKeepsLayout(h, arena, ci);
    var p := PageAt(h, ci, k);
    assert PageOk(p, arena, h.cursor) by {
      assert Unfold(0) && IsPage(h, ci, k);
    }
    TakenThenReleased(p, Lowest(p.free));
    assert IsPage(h1, ci, k) && PageAt(h1, ci, k) == PageAlloc(p).0;
    FoundAt(h1, arena, ci, k, ptr);
  }

  /** Taking the first slot of a fresh page and releasing it gives the fresh page back. */
  lemma FreshPageRestored(ci: nat, base: nat) returns (fresh_: Page, taken: Page, ptr: nat)
    requires ci < NUM_CLASSES
    ensures SizeOk(SIZE_CLASSES[ci])
    ensures fresh_ == NewPage(base, SIZE_CLASSES[ci]) && (taken, ptr) == PageAlloc(fresh_)
    ensures fresh_.free == Below(fresh_.slotCount)
    ensures LiveAddress(taken, ptr) && PageFree(taken, ptr) == fresh_
  {
    NewPageDivides(ci);
    ClassSizeOk(ci);
    fresh_ := NewPage(base, SIZE_CLASSES[ci]);
    taken, ptr := PageAlloc(fresh_).0, PageAlloc(fresh_).1;
    TakenThenReleased(fresh_, Lowest(fresh_.free));
  }

  /** An allocation in a new page adds that page with its first slot taken. */
  lemma AllocAddsPage(h: Heap, arena: nat, ci: nat, h1: Heap, ptr: nat) returns (page: Page, taken: Page)
    requires HeapShape(h) && ci < NUM_CLASSES
    requires (h1, ptr) == AllocLocked(h, arena, ci) && ptr != NULL
    requires FirstWithFree(h.classes[ci].pages, 0) == |h.classes[ci].pages|
    ensures h1.classes == AddPage(h, ci, taken).classes
    ensures page.free == Below(page.slotCount)
    ensures taken.objectSize > 0 && LiveAddress(taken, ptr) && PageFree(taken, ptr) == page
  {
    AllocCases(h, arena, ci, h.classes[ci], |h.classes[ci].pages|);
    var a;
    page, taken, a := FreshPageRestored(ci, arena + h.cursor * PAGE_SIZE);
  }

  /** Releasing the block in the last page puts back that page. */
  lemma LastPageReleased(h: Heap, arena: nat, ci: nat, h1: Heap, ptr: nat, page: Page, taken: Page)
    requires Layout(h1, arena) && ci < NUM_CLASSES == |h.classes|
    requires h1.classes == AddPage(h, ci, taken).classes
    requires taken.objectSize > 0 && LiveAddress(taken, ptr) && PageFree(taken, ptr) == page
    ensures DeallocLocked(h1, ptr, ci).classes == AddPage(h, ci, page).classes
  {
    var n := |h.classes[ci].pages|;
    assert IsPage(h1, ci, n) && PageAt(h1, ci, n) == taken;
    FoundAt(h1, arena, ci, n, ptr);
    assert (h.classes[ci].pages + [taken])[n := page] == h.classes[ci].pages + [page];
  }

  lemma RestoredInNewPage(h: Heap, arena: nat, ci: nat, h1: Heap, ptr: nat)
    requires Layout(h, arena) && ci < NUM_CLASSES
    requires (h1, ptr) == AllocLocked(h, arena, ci) && ptr != NULL
    requires FirstWithFree(h.classes[ci].pages, 0) == |h.classes[ci].pages|
    ensures HeapShape(h1) && PagesKept(h, DeallocLocked(h1, ptr, ci))
  {
    AllocKeepsLayout(h, arena, ci);
    var page, taken := AllocAddsPage(h, arena, ci, h1, ptr);
    LastPageReleased(h, arena, ci, h1, ptr, page, taken);
    AppendedKept(h, DeallocLocked(h1, ptr, ci), ci, page);
  }

  lemma AppendedKept(h: Heap, h2: Heap, ci: nat, page: Page)
    requires ci < |h.classes| == |h2.classes|
    requires h2.classes[ci].pages == h.classes[ci].pages + [page] && page.free == Below(page.slotCount)
    requires forall c :: 0 <= c < |h.classes| && c != ci ==> h2.classes[c] == h.classes[c]
    ensures PagesKept(h, h2)
  {
  }

  lemma Restored(h: Heap, arena: nat, ci: nat)
    requires Layout(h, arena) && ci < NUM_CLASSES
    ensures var (h1, ptr) := AllocLocked(h, arena, ci);
            ptr != NULL ==> HeapShape(h1) && PagesKept(h, DeallocLocked(h1, ptr, ci))
  {
    var (h1, ptr) := AllocLocked(h, arena, ci);
    if ptr != NULL {
      if FirstWithFree(h.classes[ci].pages, 0) < |h.classes[ci].pages| {
        RestoredInPage(h, arena, ci, h1, ptr);
      } else {
        RestoredInNewPage(h, arena, ci, h1, ptr);
      }
    }
  }

  /** Freeing a block just allocated restores every free set there was; at most one all-free page remains. */
  lemma AllocThenDealloc(arena: nat, events: seq<Event>, size: nat, align: nat)
    requires arena > 0
    ensures var h := RunOf(arena, events).heap;
            var (h1, ptr) := HeapAlloc(h, arena, size, align, Acquired);
            ptr != NULL ==> HeapShape(h1) && PagesKept(h, HeapDealloc(h1, ptr, size, align, Acquired))
  {
    var r := ReachedRun(arena, events);
    var request := ClassOf(Request(size, align));
    if r.heap.ready && request.Some? {
      Restored(r.heap, arena, request.value);
    }
  }
}
