/**
 The slab heap seen as sets of free slots: what each allocator operation does to them,
 and the invariants every run of allocations and deallocations keeps.
 */
module SlabModel {
  import opened Machine

  const PAGE_SIZE: nat := 4096
  const MAX_SLAB_PAGES: nat := 64
  const USER_HEAP_PAGES: nat := 64
  const SIZE_CLASSES: seq<nat> := [8, 16, 32, 64, 128, 256, 512, 1024, 2048, 4096]
  const NUM_CLASSES: nat := 10

  // The null pointer.
  const NULL: nat := 0

  /** The first size class at or after `from` that holds `size` bytes. */
  function ClassFrom(size: nat, from: nat): (c: Option<nat>)
    requires from <= NUM_CLASSES
    ensures c.Some? ==> from <= c.value < NUM_CLASSES && SIZE_CLASSES[c.value] >= size
    ensures c.Some? ==> forall k :: from <= k < c.value ==> SIZE_CLASSES[k] < size
    ensures c.None? ==> forall k :: from <= k < NUM_CLASSES ==> SIZE_CLASSES[k] < size
    decreases NUM_CLASSES - from
  {
    if from == NUM_CLASSES then None
    else if SIZE_CLASSES[from] >= size then Some(from)
    else ClassFrom(size, from + 1)
  }

  function ClassFor(size: nat): Option<nat> {
    ClassFrom(size, 0)
  }

  /** A page: where it starts, how it is divided, and which slots are free. */
  datatype Page = Page(base: nat, objectSize: nat, slotCount: nat, free: set<nat>)

  datatype Class = Class(objectSize: nat, pages: seq<Page>)

  datatype Heap = Heap(ready: bool, classes: seq<Class>, cursor: nat,
                       allocCount: u64, deallocCount: u64, oomCount: u64)

  const MAX_SLOTS_PER_PAGE: nat := 512

  /** Object sizes a page can be cut into. */
  predicate SizeOk(objectSize: nat) {
    8 <= objectSize <= PAGE_SIZE
  }

  lemma ClassSizeOk(c: nat)
    requires c < NUM_CLASSES
    ensures SizeOk(SIZE_CLASSES[c])
  {
  }

  /** How many objects fit in `bytes`. */
  function Fits(bytes: nat, objectSize: nat): nat
    requires objectSize > 0
  {
    if bytes < objectSize then 0 else 1 + Fits(bytes - objectSize, objectSize)
  }

  lemma {:induction false} FitsIsQuotient(bytes: nat, objectSize: nat)
    requires objectSize > 0
    ensures Fits(bytes, objectSize) == bytes / objectSize
  {
    if bytes >= objectSize {
      FitsIsQuotient(bytes - objectSize, objectSize);
      assert bytes / objectSize == (bytes - objectSize) / objectSize + 1 by {
        var q := (bytes - objectSize) / objectSize;
        assert bytes == (q + 1) * objectSize + (bytes - objectSize) % objectSize;
        QuotientIs(bytes, objectSize, q + 1, (bytes - objectSize) % objectSize);
      }
    } else {
      QuotientIs(bytes, objectSize, 0, bytes);
    }
  }

  /** A quotient is recognised by its remainder. */
  lemma QuotientIs(a: nat, b: nat, q: nat, r: nat)
    requires b > 0 && a == q * b + r && r < b
    ensures a / b == q && a % b == r
  {
    var d := a / b - q;
    assert d * b == r - a % b;
    MulOrder(b, d, 1);
    MulOrder(b, -1, d);
  }

  lemma SlotCountRange(objectSize: nat)
    requires SizeOk(objectSize)
    ensures 1 <= Fits(PAGE_SIZE, objectSize) == PAGE_SIZE / objectSize <= MAX_SLOTS_PER_PAGE
  {
    FitsIsQuotient(PAGE_SIZE, objectSize);
    MulOrder(objectSize, PAGE_SIZE / objectSize, MAX_SLOTS_PER_PAGE + 1);
  }

  ghost predicate IsLowest(s: nat, free: set<nat>) {
    s in free && forall j :: j in free ==> s <= j
  }

  /** Every nonempty set of slots has exactly one lowest member. */
  lemma {:induction false} LowestExists(free: set<nat>)
    requires free != {}
    ensures exists s: nat :: IsLowest(s, free)
  {
    var s :| s in free;
    if free == {s} {
      assert IsLowest(s, free);
    } else {
      LowestExists(free - {s});
      var t: nat :| IsLowest(t, free - {s});
      var least := if s < t then s else t;
      forall j | j in free
        ensures least <= j
      {
        assert j == s || j in free - {s};
      }
      assert IsLowest(least, free);
    }
  }

  ghost function Lowest(free: set<nat>): (s: nat)
    requires free != {}
    ensures IsLowest(s, free)
  {
    LowestExists(free);
    var s: nat :| IsLowest(s, free);
    s
  }

  /** Where slot `s` of a page starting at `base` begins. */
  function SlotAddress(base: nat, objectSize: nat, s: nat): nat {
    base + s * objectSize
  }

  // ----- one page -----

  ghost function PageAlloc(p: Page): (Page, nat)
    requires p.free != {}
  {
    var s := Lowest(p.free);
    (p.(free := p.free - {s}), SlotAddress(p.base, p.objectSize, s))
  }

  /** `ptr` is the address of a slot of `p` that is not free. */
  predicate LiveAddress(p: Page, ptr: nat)
    requires p.objectSize > 0
  {
    && p.base <= ptr
    && (ptr - p.base) % p.objectSize == 0
    && (ptr - p.base) / p.objectSize < p.slotCount
    && (ptr - p.base) / p.objectSize !in p.free
  }

  function PageFree(p: Page, ptr: nat): Page
    requires p.objectSize > 0 && LiveAddress(p, ptr)
  {
    p.(free := p.free + {(ptr - p.base) / p.objectSize})
  }

  ghost function NewPage(base: nat, objectSize: nat): Page
    requires SizeOk(objectSize)
    ensures 0 in NewPage(base, objectSize).free
  {
    SlotCountRange(objectSize);
    var slotCount := Fits(PAGE_SIZE, objectSize);
    Page(base, objectSize, slotCount, Below(slotCount))
  }

  // ----- one class -----

  /** The first page at or after `i` with a free slot, or the number of pages. */
  function FirstWithFree(pages: seq<Page>, i: nat): (k: nat)
    requires i <= |pages|
    ensures i <= k <= |pages|
    ensures forall j :: i <= j < k ==> pages[j].free == {}
    ensures k < |pages| ==> pages[k].free != {}
    decreases |pages| - i
  {
    if i == |pages| || pages[i].free != {} then i else FirstWithFree(pages, i + 1)
  }

  /** The first page at or after `i` in which `ptr` is live, or the number of pages. */
  function FirstHolding(pages: seq<Page>, ptr: nat, i: nat): (k: nat)
    requires i <= |pages|
    requires forall j :: 0 <= j < |pages| ==> pages[j].objectSize > 0
    ensures i <= k <= |pages|
    ensures forall j :: i <= j < k ==> !LiveAddress(pages[j], ptr)
    ensures k < |pages| ==> LiveAddress(pages[k], ptr)
    decreases |pages| - i
  {
    if i == |pages| || LiveAddress(pages[i], ptr) then i else FirstHolding(pages, ptr, i + 1)
  }

  datatype ClassResult = ClassResult(class_: Class, cursor: nat, ptr: Option<nat>)

  ghost function ClassAlloc(c: Class, cursor: nat, arena: nat): ClassResult
    requires SizeOk(c.objectSize)
  {
    var k := FirstWithFree(c.pages, 0);
    if k < |c.pages| then
      var (p, ptr) := PageAlloc(c.pages[k]);
      ClassResult(c.(pages := c.pages[k := p]), cursor, Some(ptr))
    else if |c.pages| >= MAX_SLAB_PAGES || cursor >= USER_HEAP_PAGES then
      ClassResult(c, cursor, None)
    else
      var (p, ptr) := PageAlloc(NewPage(arena + cursor * PAGE_SIZE, c.objectSize));
      ClassResult(c.(pages := c.pages + [p]), cursor + 1, Some(ptr))
  }

  /** The class after `dealloc(ptr)`, and whether some live block was released. */
  function ClassDealloc(c: Class, ptr: nat): (Class, bool)
    requires forall i :: 0 <= i < |c.pages| ==> c.pages[i].objectSize > 0
  {
    var k := FirstHolding(c.pages, ptr, 0);
    if k < |c.pages| then (c.(pages := c.pages[k := PageFree(c.pages[k], ptr)]), true)
    else (c, false)
  }

  // ----- the whole heap -----

  /** What the bounded retry of the heap lock came to. */
  datatype LockOutcome = Acquired | Busy

  function Wrapping(n: int): u64 {
    n % U64_LIMIT
  }

  predicate HeapShape(h: Heap) {
    && |h.classes| == NUM_CLASSES
    && (forall c :: 0 <= c < NUM_CLASSES ==> h.classes[c].objectSize == SIZE_CLASSES[c])
    && (forall c, i :: 0 <= c < NUM_CLASSES && 0 <= i < |h.classes[c].pages| ==> h.classes[c].pages[i].objectSize == SIZE_CLASSES[c])
  }

  /** The heap before `init`: no pages, nothing counted. */
  function EmptyHeap(): Heap {
    Heap(false, seq(NUM_CLASSES, c requires 0 <= c < NUM_CLASSES => Class(SIZE_CLASSES[c], [])), 0, 0, 0, 0)
  }

  /** What `alloc` does to size class `ci` under the lock. */
  ghost function AllocLocked(h: Heap, arena: nat, ci: nat): (Heap, nat)
    requires ci < |h.classes| && SizeOk(h.classes[ci].objectSize)
  {
    var r := ClassAlloc(h.classes[ci], h.cursor, arena);
    var h' := h.(classes := h.classes[ci := r.class_], cursor := r.cursor);
    match r.ptr
    case None => (h'.(oomCount := Wrapping(h.oomCount + 1)), NULL)
    case Some(ptr) => (h'.(allocCount := Wrapping(h.allocCount + 1)), ptr)
  }

  ghost function HeapAlloc(h: Heap, arena: nat, size: nat, align: nat, lock: LockOutcome): (Heap, nat)
    requires HeapShape(h)
  {
    var class_ := ClassFor(Max(size, align));
    if h.ready && class_.Some? && lock == Acquired then AllocLocked(h, arena, class_.value) else (h, NULL)
  }

  /** What `dealloc` does to size class `ci` under the lock. */
  function DeallocLocked(h: Heap, ptr: nat, ci: nat): Heap
    requires HeapShape(h) && ci < NUM_CLASSES
  {
    var (c, released) := ClassDealloc(h.classes[ci], ptr);
    h.(classes := h.classes[ci := c],
       deallocCount := if released then Wrapping(h.deallocCount + 1) else h.deallocCount)
  }

  ghost function HeapDealloc(h: Heap, ptr: nat, size: nat, align: nat, lock: LockOutcome): Heap
    requires HeapShape(h)
  {
    var class_ := ClassFor(Max(size, align));
    if ptr != NULL && class_.Some? && lock == Acquired then DeallocLocked(h, ptr, class_.value) else h
  }

  /** Allocation and deallocation leave the object sizes of classes and pages alone. */
  lemma AllocShape(h: Heap, arena: nat, ci: nat)
    requires HeapShape(h) && ci < NUM_CLASSES
    ensures HeapShape(AllocLocked(h, arena, ci).0)
  {
  }

  lemma DeallocShape(h: Heap, ptr: nat, ci: nat)
    requires HeapShape(h) && ci < NUM_CLASSES
    ensures HeapShape(DeallocLocked(h, ptr, ci))
  {
  }
}
