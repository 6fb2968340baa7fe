/** The slab heap as it runs: bitmask pages, size classes and the page arena, updated in place. */
module SlabHeap {
  import opened Machine
  import opened Bits
  import opened SlabModel
  import SlabRuns
  import SlabSizes

  const BITMASK_WORDS: nat := 8

  function DivCeil(a: nat, b: nat): nat
    requires b > 0
  {
    (a + b - 1) / b
  }

  /** The slots a bitmask marks free: slot s is bit s % 64 of word s / 64. */
  ghost function FreeIn(mask: seq<u64>): set<nat>
    requires |mask| == BITMASK_WORDS
  {
    set s: nat | s < 64 * BITMASK_WORDS && s % 64 in Members(mask[s / 64])
  }

  /** `free` is the set of slots the bitmask marks free. */
  ghost predicate Shows(mask: seq<u64>, free: set<nat>)
    requires |mask| == BITMASK_WORDS
  {
    forall s: nat {:trigger s in free} :: s in free <==> s < 64 * BITMASK_WORDS && s % 64 in Members(mask[s / 64])
  }

  lemma ShownIsFree(mask: seq<u64>, free: set<nat>)
    requires |mask| == BITMASK_WORDS && Shows(mask, free)
    ensures free == FreeIn(mask)
  {
  }

  lemma FreeInAt(mask: seq<u64>, w: nat, b: nat)
    requires |mask| == BITMASK_WORDS && w < BITMASK_WORDS && b < 64
    ensures 64 * w + b in FreeIn(mask) <==> b in Members(mask[w])
  {
    assert (64 * w + b) / 64 == w && (64 * w + b) % 64 == b;
  }

  /** Clearing a set bit of one word removes exactly that slot. */
  lemma FreeInClear(mask: seq<u64>, w: nat, b: nat)
    requires |mask| == BITMASK_WORDS && w < BITMASK_WORDS && b < 64
    ensures FreeIn(mask[w := And64(mask[w], Not(Unit(b)))]) == FreeIn(mask) - {64 * w + b}
  {
    MembersClear(mask[w], b);
  }

  /** Setting a bit of one word adds exactly that slot. */
  lemma FreeInSet(mask: seq<u64>, w: nat, b: nat)
    requires |mask| == BITMASK_WORDS && w < BITMASK_WORDS && b < 64
    ensures FreeIn(mask[w := Or64(mask[w], Unit(b))]) == FreeIn(mask) + {64 * w + b}
  {
    MembersSet(mask[w], b);
  }

  /** Testing a slot's bit tells whether the slot is free. */
  lemma SlotTest(mask: seq<u64>, slot: nat)
    requires |mask| == BITMASK_WORDS && slot < MAX_SLOTS_PER_PAGE
    ensures And64(mask[slot / 64], Unit(slot % 64)) != 0 <==> slot in FreeIn(mask)
  {
    BitTest(mask[slot / 64], slot % 64);
  }

  /** Below the first nonzero word nothing is free, so its lowest set bit is the lowest free slot. */
  lemma LowestInWord(mask: seq<u64>, w: nat)
    requires |mask| == BITMASK_WORDS && w < BITMASK_WORDS && mask[w] != 0
    requires forall k :: 0 <= k < w ==> mask[k] == 0
    ensures TrailingZeros(mask[w]) < 64
    ensures IsLowest(64 * w + TrailingZeros(mask[w]), FreeIn(mask))
  {
    var b := TrailingZeros(mask[w]);
    TrailingZerosIsLowest(mask[w]);
    MembersZero();
    FreeInAt(mask, w, b);
    forall s | s in FreeIn(mask)
      ensures 64 * w + b <= s
    {
      assert s / 64 >= w;
    }
  }

  /** Clearing the lowest set bit of the first nonzero word takes the lowest free slot. */
  lemma TakeLowest(mask: seq<u64>, w: nat, b: nat, taken: seq<u64>)
    requires |mask| == BITMASK_WORDS && w < BITMASK_WORDS && mask[w] != 0
    requires forall k :: 0 <= k < w ==> mask[k] == 0
    requires b == TrailingZeros(mask[w]) < 64
    requires taken == mask[w := And64(mask[w], Not(Unit(b)))]
    ensures FreeIn(mask) != {} && 64 * w + b == Lowest(FreeIn(mask))
    ensures FreeIn(taken) == FreeIn(mask) - {Lowest(FreeIn(mask))}
    ensures |FreeIn(taken)| == |FreeIn(mask)| - 1
  {
    LowestInWord(mask, w);
    FreeInClear(mask, w, b);
  }

  lemma NothingFree(mask: seq<u64>, slotCount: nat)
    requires |mask| == BITMASK_WORDS && slotCount <= MAX_SLOTS_PER_PAGE
    requires FreeIn(mask) <= Below(slotCount)
    requires forall k :: 0 <= k < DivCeil(slotCount, 64) ==> mask[k] == 0
    ensures FreeIn(mask) == {}
  {
    MembersZero();
    forall s: nat | s < slotCount
      ensures s !in FreeIn(mask)
    {
      assert s / 64 < DivCeil(slotCount, 64);
    }
  }

  /** Word `k` of the mask of a page all of whose `slotCount` slots are free. */
  function FreshWord(slotCount: nat, k: nat): u64 {
    if 64 * k >= slotCount then 0
    else if 64 * (k + 1) <= slotCount then U64_MAX
    else Unit(slotCount % 64) - 1
  }

  lemma FreshBit(slotCount: nat, k: nat, b: nat)
    requires b < 64
    ensures b in Members(FreshWord(slotCount, k)) <==> 64 * k + b < slotCount
  {
    Pow2At64();
    MembersZero();
    MembersLow(64, b);
    MembersLow(slotCount % 64, b);
  }

  lemma FreshMask(mask: seq<u64>, slotCount: nat)
    requires |mask| == BITMASK_WORDS && slotCount <= MAX_SLOTS_PER_PAGE
    requires forall k :: 0 <= k < BITMASK_WORDS ==> mask[k] == FreshWord(slotCount, k)
    ensures FreeIn(mask) == Below(slotCount)
  {
    forall s: nat | s < 64 * BITMASK_WORDS
      ensures s % 64 in Members(mask[s / 64]) <==> s < slotCount
    {
      FreshBit(slotCount, s / 64, s % 64);
    }
  }

  method NewMask(slotCount: nat) returns (mask: array<u64>)
    requires 1 <= slotCount <= MAX_SLOTS_PER_PAGE
    ensures fresh(mask) && mask.Length == BITMASK_WORDS
    ensures FreeIn(mask[..]) == Below(slotCount)
  {
    mask := new u64[BITMASK_WORDS](_ => 0);
    var wordCount := DivCeil(slotCount, 64);
    for i := 0 to wordCount
      invariant forall k :: 0 <= k < BITMASK_WORDS ==> mask[k] == if k < i then U64_MAX else 0
    {
      mask[i] := U64_MAX;
    }
    if slotCount % 64 != 0 {
      mask[wordCount - 1] := Unit(slotCount % 64) - 1;
    }
    FreshMask(mask[..], slotCount);
  }

  class SlabPage {
    const base: nat
    const freeMask: array<u64>
    const objectSize: nat
    const slotCount: nat
    var freeCount: nat
    ghost var state: Page

    ghost predicate Valid()
      reads this, freeMask
    {
      && freeMask.Length == BITMASK_WORDS
      && objectSize > 0 && slotCount <= MAX_SLOTS_PER_PAGE
      && state.base == base && state.objectSize == objectSize && state.slotCount == slotCount
      && Shows(freeMask[..], state.free)
      && (forall s :: s in state.free ==> s < slotCount)
      && freeCount == |state.free|
    }

    constructor (base: nat, objectSize: nat)
      requires SizeOk(objectSize)
      ensures Valid() && fresh(freeMask)
      ensures state == NewPage(base, objectSize)
    {
      this.base := base;
      this.objectSize := objectSize;
      var slotCount := PAGE_SIZE / objectSize;
      SlotCountRange(objectSize);
      this.slotCount := slotCount;
      var mask := NewMask(slotCount);
      this.freeMask := mask;
      this.freeCount := slotCount;
      this.state := NewPage(base, objectSize);
    }

    // Marks the lowest free slot, found at bit `bit` of word `wi`, as taken.
    method TakeBit(wi: nat, bit: nat)
      requires Valid() && wi < BITMASK_WORDS && freeMask[wi] != 0
      requires forall k :: 0 <= k < wi ==> freeMask[k] == 0
      requires bit == TrailingZeros(freeMask[wi]) < 64
      modifies this, freeMask
      ensures Valid() && old(state).free != {} && Lowest(old(state).free) == 64 * wi + bit
      ensures state == PageAlloc(old(state)).0
    {
      ghost var mask := freeMask[..];
      ShownIsFree(mask, state.free);
      freeMask[wi] := And64(freeMask[wi], Not(Unit(bit)));
      TakeLowest(mask, wi, bit, freeMask[..]);
      freeCount := freeCount - 1;
      state := state.(free := FreeIn(freeMask[..]));
    }

    // Marks `slot`, which is taken, as free.
    method PutBit(slot: nat)
      requires Valid() && slot < slotCount && slot !in state.free
      modifies this, freeMask
      ensures Valid()
      ensures state == old(state).(free := old(state).free + {slot})
    {
      ghost var mask := freeMask[..];
      ShownIsFree(mask, state.free);
      var wi := slot / 64;
      var bit := slot % 64;
      freeMask[wi] := Or64(freeMask[wi], Unit(bit));
      assert freeMask[..] == mask[wi := Or64(mask[wi], Unit(bit))];
      FreeInSet(mask, wi, bit);
      freeCount := freeCount + 1;
      state := state.(free := FreeIn(freeMask[..]));
    }

    method AllocSlot() returns (ptr: Option<nat>)
      requires Valid()
      modifies this, freeMask
      ensures Valid()
      ensures ptr == None ==> old(state).free == {} && state == old(state)
      ensures ptr.Some? ==> old(state).free != {} && (state, ptr.value) == PageAlloc(old(state))
    {
      var wordCount := DivCeil(slotCount, 64);
      for wi := 0 to wordCount
        invariant Valid() && state == old(state)
        invariant forall k :: 0 <= k < wi ==> freeMask[k] == 0
      {
        if freeMask[wi] == 0 {
          continue;
        }
        var bit := TrailingZeros(freeMask[wi]);
        ShownIsFree(freeMask[..], state.free);
        LowestInWord(freeMask[..], wi);
        var slot := 64 * wi + bit;
        if slot >= slotCount {
          continue;
        }
        TakeBit(wi, bit);
        ptr := Some(SlotAddress(base, objectSize, slot));
        return;
      }
      ShownIsFree(freeMask[..], state.free);
      NothingFree(freeMask[..], slotCount);
      return None;
    }

    method DeallocSlot(ptr: nat) returns (released: bool)
      requires Valid()
      modifies this, freeMask
      ensures Valid()
      ensures released == LiveAddress(old(state), ptr)
      ensures state == if released then PageFree(old(state), ptr) else old(state)
    {
      if ptr < base {
        return false;
      }
      var offset := ptr - base;
      if offset % objectSize != 0 {
        return false;
      }
      var slot := offset / objectSize;
      if slot >= slotCount {
        return false;
      }
      SlotTest(freeMask[..], slot);
      if And64(freeMask[slot / 64], Unit(slot % 64)) != 0 {
        return false;
      }
      PutBit(slot);
      return true;
    }
  }

  /** The process-private source of pages: page `nextPage` is the next one to hand out. */
  class FixedHeapArena {
    const base: nat
    var nextPage: nat

    constructor (base: nat)
      ensures this.base == base && nextPage == 0
    {
      this.base := base;
      nextPage := 0;
    }

    method AllocatePage() returns (page: Option<nat>)
      modifies this
      ensures old(nextPage) >= USER_HEAP_PAGES ==> page == None && nextPage == old(nextPage)
      ensures old(nextPage) < USER_HEAP_PAGES ==>
                page == Some(base + old(nextPage) * PAGE_SIZE) && nextPage == old(nextPage) + 1
    {
      var current := nextPage;
      if current >= USER_HEAP_PAGES {
        return None;
      }
      nextPage := current + 1;
      return Some(base + current * PAGE_SIZE);
    }
  }

  /** With no free slot left, allocation takes the first slot of one more page. */
  lemma GrownAlloc(c: Class, cursor: nat, arena: nat, page: Page)
    requires SizeOk(c.objectSize) && |c.pages| < MAX_SLAB_PAGES && cursor < USER_HEAP_PAGES
    requires FirstWithFree(c.pages, 0) == |c.pages|
    requires page == NewPage(arena + cursor * PAGE_SIZE, c.objectSize)
    ensures page.free != {}
    ensures ClassAlloc(c, cursor, arena) ==
              ClassResult(Class(c.objectSize, (c.pages + [page])[|c.pages| := PageAlloc(page).0]), cursor + 1,
                          Some(PageAlloc(page).1))
  {
    assert (c.pages + [page])[|c.pages| := PageAlloc(page).0] == c.pages + [PageAlloc(page).0];
  }

  class SlabClass {
    const objectSize: nat
    const pages: array<SlabPage?>
    var pageCount: nat
    ghost var state: Class
    ghost var Repr: set<object>

    ghost predicate Valid()
      reads this, Repr
    {
      && this in Repr && pages in Repr
      && pages.Length == MAX_SLAB_PAGES && pageCount <= MAX_SLAB_PAGES
      && SizeOk(objectSize)
      && state.objectSize == objectSize && |state.pages| == pageCount
      && (forall i :: 0 <= i < pageCount ==> state.pages[i].objectSize == objectSize)
      && (forall k {:trigger Unfold(k)} :: Unfold(k) ==> PagesValid())
    }

    ghost predicate PagesValid()
      requires pages.Length == MAX_SLAB_PAGES && pageCount <= MAX_SLAB_PAGES && |state.pages| == pageCount
      reads this, Repr, pages
    {
      && (forall i :: 0 <= i < pageCount ==>
            && pages[i] != null && pages[i] in Repr && pages[i].freeMask in Repr && pages[i].Valid()
            && pages[i].objectSize == objectSize && pages[i].state == state.pages[i])
      && (forall i, j :: 0 <= i < j < pageCount ==>
            pages[i] != pages[j] && pages[i].freeMask != pages[j].freeMask)
    }

    constructor (objectSize: nat)
      requires SizeOk(objectSize)
      ensures Valid() && fresh(Repr)
      ensures state == Class(objectSize, [])
    {
      this.objectSize := objectSize;
      this.pages := new SlabPage?[MAX_SLAB_PAGES](_ => null);
      this.pageCount := 0;
      this.state := Class(objectSize, []);
      new;
      Repr := {this, pages};
    }

    // Takes a slot of one page of the class.
    method AllocIn(i: nat) returns (ptr: Option<nat>)
      requires Valid() && i < pageCount
      modifies Repr
      ensures Valid() && Repr == old(Repr)
      ensures ptr == None ==> old(state).pages[i].free == {} && state == old(state)
      ensures ptr.Some? ==>
                && old(state).pages[i].free != {}
                && ptr.value == PageAlloc(old(state).pages[i]).1
                && state == old(state).(pages := old(state).pages[i := PageAlloc(old(state).pages[i]).0])
    {
      assert Unfold(0);
      ptr := pages[i].AllocSlot();
      state := state.(pages := state.pages[i := pages[i].state]);
    }

    // The pass over the pages the class already has.
    method AllocExisting(ghost cursor: nat, ghost arena: nat) returns (ptr: Option<nat>)
      requires Valid()
      modifies Repr
      ensures Valid() && Repr == old(Repr)
      ensures ptr == None ==> state == old(state) && FirstWithFree(state.pages, 0) == |state.pages|
      ensures ptr.Some? ==> ClassResult(state, cursor, ptr) == ClassAlloc(old(state), cursor, arena)
    {
      ghost var c := state;
      for i := 0 to pageCount
        invariant Valid()
        invariant Repr == old(Repr)
        invariant state == c
        invariant FirstWithFree(c.pages, 0) >= i
      {
        ptr := AllocIn(i);
        if ptr.Some? {
          return;
        }
      }
      return None;
    }

    method Alloc(arena: FixedHeapArena) returns (ptr: Option<nat>)
      requires Valid() && arena !in Repr
      modifies Repr, arena
      ensures Valid() && fresh(Repr - old(Repr))
      ensures ClassResult(state, arena.nextPage, ptr) == ClassAlloc(old(state), old(arena.nextPage), arena.base)
    {
      ptr := AllocExisting(arena.nextPage, arena.base);
      if ptr.Some? {
        return;
      }
      ptr := AllocGrown(arena);
    }

    // Takes a new page from the arena, if there is one, and the first slot of that page.
    method AllocGrown(arena: FixedHeapArena) returns (ptr: Option<nat>)
      requires Valid() && arena !in Repr && FirstWithFree(state.pages, 0) == |state.pages|
      modifies Repr, arena
      ensures Valid() && fresh(Repr - old(Repr))
      ensures ClassResult(state, arena.nextPage, ptr) == ClassAlloc(old(state), old(arena.nextPage), arena.base)
    {
      ghost var c := state;
      var grown := Grow(arena);
      if !grown {
        return None;
      }
      GrownAlloc(c, old(arena.nextPage), arena.base, state.pages[pageCount - 1]);
      ptr := AllocIn(pageCount - 1);
    }

    method Grow(arena: FixedHeapArena) returns (grown: bool)
      requires Valid() && arena !in Repr
      modifies this, pages, arena
      ensures Valid() && fresh(Repr - old(Repr)) && arena !in Repr
      ensures grown == (old(pageCount) < MAX_SLAB_PAGES && old(arena.nextPage) < USER_HEAP_PAGES)
      ensures arena.nextPage == old(arena.nextPage) + if grown then 1 else 0
      ensures state == if grown then
                          old(state).(pages := old(state).pages +
                            [NewPage(arena.base + old(arena.nextPage) * PAGE_SIZE, objectSize)])
                        else old(state)
    {
      if pageCount >= MAX_SLAB_PAGES {
        return false;
      }
      var base := arena.AllocatePage();
      if base == None {
        return false;
      }
      Append(base.value);
      return true;
    }

    // Puts a fresh page behind the pages the class already has.
    method Append(base: nat)
      requires Valid() && pageCount < MAX_SLAB_PAGES
      modifies this, pages
      ensures Valid() && fresh(Repr - old(Repr))
      ensures state == old(state).(pages := old(state).pages + [NewPage(base, objectSize)])
    {
      var page := new SlabPage(base, objectSize);
      Install(page);
    }

    method Install(page: SlabPage)
      requires Valid() && pageCount < MAX_SLAB_PAGES
      requires page.Valid() && page.objectSize == objectSize && page !in Repr && page.freeMask !in Repr
      modifies this, pages
      ensures Valid() && Repr == old(Repr) + {page, page.freeMask}
      ensures state == old(state).(pages := old(state).pages + [page.state])
    {
      assert Unfold(0);
      pages[pageCount] := page;
      pageCount := pageCount + 1;
      state := state.(pages := state.pages + [page.state]);
      Repr := Repr + {page, page.freeMask};
    }

    // Hands a block back to one page of the class.
    method DeallocIn(i: nat, ptr: nat) returns (released: bool)
      requires Valid() && i < pageCount
      modifies Repr
      ensures Valid() && Repr == old(Repr)
      ensures released == LiveAddress(old(state).pages[i], ptr)
      ensures state == if released then
                          old(state).(pages := old(state).pages[i := PageFree(old(state).pages[i], ptr)])
                        else old(state)
    {
      assert Unfold(0);
      released := pages[i].DeallocSlot(ptr);
      state := state.(pages := state.pages[i := pages[i].state]);
    }

    method Dealloc(ptr: nat) returns (released: bool)
      requires Valid()
      modifies Repr
      ensures Valid() && Repr == old(Repr)
      ensures (state, released) == ClassDealloc(old(state), ptr)
    {
      ghost var c := state;
      for i := 0 to pageCount
        invariant Valid() && Repr == old(Repr) && state == c
        invariant FirstHolding(c.pages, ptr, 0) >= i
      {
        released := DeallocIn(i, ptr);
        if released {
          assert FirstHolding(c.pages, ptr, 0) == i;
          return;
        }
      }
      return false;
    }
  }

  /** One empty class for each object size. */
  method NewClasses() returns (table: seq<SlabClass>, ghost repr: set<object>)
    ensures fresh(repr) && |table| == NUM_CLASSES
    ensures forall c :: 0 <= c < NUM_CLASSES ==>
              && table[c].Valid() && table[c] in repr && table[c].Repr <= repr
              && table[c].objectSize == SIZE_CLASSES[c] && table[c].state == Class(SIZE_CLASSES[c], [])
    ensures forall c, d :: 0 <= c < d < NUM_CLASSES ==> table[c].Repr !! table[d].Repr
  {
    table, repr := [], {};
    for n := 0 to NUM_CLASSES
      invariant fresh(repr) && |table| == n
      invariant forall c :: 0 <= c < n ==>
                  && table[c].Valid() && table[c] in repr && table[c].Repr <= repr
                  && table[c].objectSize == SIZE_CLASSES[c] && table[c].state == Class(SIZE_CLASSES[c], [])
      invariant forall c, d :: 0 <= c < d < n ==> table[c].Repr !! table[d].Repr
    {
      ClassSizeOk(n);
      var next := new SlabClass(SIZE_CLASSES[n]);
      table := table + [next];
      repr := repr + next.Repr;
    }
  }

  /** The global allocator. Its methods run with the heap lock held, or report that it stayed busy. */
  class GlobalSlabHeap {
    const arena: FixedHeapArena
    const classes: seq<SlabClass>
    var ready: bool
    var allocCount: u64
    var deallocCount: u64
    var oomCount: u64
    ghost var state: Heap
    ghost var Repr: set<object>

    ghost predicate Valid()
      reads this, Repr
    {
      && this in Repr && arena in Repr
      && |classes| == NUM_CLASSES
      && (forall c :: 0 <= c < NUM_CLASSES ==>
            && classes[c] in Repr && classes[c].Repr <= Repr && classes[c].Valid()
            && {this, arena} !! classes[c].Repr
            && classes[c].objectSize == SIZE_CLASSES[c])
      && (forall c, d :: 0 <= c < d < NUM_CLASSES ==> classes[c].Repr !! classes[d].Repr)
      && |state.classes| == NUM_CLASSES
      && (forall c :: 0 <= c < NUM_CLASSES ==> state.classes[c] == classes[c].state)
      && state == Heap(ready, state.classes, arena.nextPage, allocCount, deallocCount, oomCount)
    }

    constructor (base: nat)
      ensures Valid() && fresh(Repr)
      ensures arena.base == base && state == EmptyHeap() && HeapShape(state)
    {
      arena := new FixedHeapArena(base);
      ready := false;
      allocCount, deallocCount, oomCount := 0, 0, 0;
      state := EmptyHeap();
      var table, repr := NewClasses();
      classes := table;
      new;
      Repr := {this, arena} + repr;
    }

    method Init()
      requires Valid()
      modifies Repr
      ensures Valid() && Repr == old(Repr)
      ensures state == old(state).(ready := true)
    {
      ready := true;
      state := state.(ready := true);
    }

    // Serves a request from one class and leaves the others untouched.
    method ServeFrom(ci: nat) returns (ptr: Option<nat>)
      requires Valid() && ci < NUM_CLASSES
      modifies classes[ci].Repr, arena
      ensures classes[ci].Valid() && this !in classes[ci].Repr && arena !in classes[ci].Repr
      ensures fresh(classes[ci].Repr - old(classes[ci].Repr))
      ensures forall c :: 0 <= c < NUM_CLASSES && c != ci ==>
        && classes[c].Valid() && classes[c].Repr == old(classes[c].Repr) && classes[c].state == old(classes[c].state)
        && classes[c].Repr !! classes[ci].Repr
      ensures ClassResult(classes[ci].state, arena.nextPage, ptr) ==
                ClassAlloc(old(state).classes[ci], old(state).cursor, arena.base)
    {
      ptr := classes[ci].Alloc(arena);
    }

    // Serves a request from one class of the heap.
    method AllocClass(ci: nat) returns (ptr: Option<nat>)
      requires Valid() && ci < NUM_CLASSES
      modifies Repr
      ensures Valid() && fresh(Repr - old(Repr))
      ensures ClassResult(state.classes[ci], state.cursor, ptr) ==
                ClassAlloc(old(state).classes[ci], old(state).cursor, arena.base)
      ensures state == old(state).(classes := old(state).classes[ci := state.classes[ci]], cursor := state.cursor)
    {
      ptr := ServeFrom(ci);
      state := state.(classes := state.classes[ci := classes[ci].state], cursor := arena.nextPage);
      Repr := Repr + classes[ci].Repr;
    }

    method Alloc(size: nat, align: nat, lock: LockOutcome) returns (ptr: nat)
      requires Valid() && HeapShape(state)
      modifies Repr
      ensures Valid() && fresh(Repr - old(Repr))
      ensures HeapShape(state)
      ensures (state, ptr) == HeapAlloc(old(state), arena.base, size, align, lock)
      ensures SlabRuns.Layout(old(state), arena.base) ==>
                SlabSizes.Answers(old(state), arena.base, size, align, lock, state, ptr)
    {
      ghost var h := state;
      ptr := NULL;
      if ready {
        var class_ := ClassFor(Max(size, align));
        if class_.Some? && lock == Acquired {
          ptr := AllocCounted(class_.value);
        }
      }
      if SlabRuns.Layout(h, arena.base) {
        SlabSizes.AllocAnswers(h, arena.base, size, align, lock);
      }
    }

    // The operation `alloc` runs under the lock.
    method AllocCounted(ci: nat) returns (ptr: nat)
      requires Valid() && ci < NUM_CLASSES
      modifies Repr
      ensures Valid() && fresh(Repr - old(Repr))
      ensures (state, ptr) == AllocLocked(old(state), arena.base, ci)
    {
      var r := AllocClass(ci);
      if r == None {
        ptr := NULL;
        oomCount := Wrapping(oomCount + 1);
      } else {
        ptr := r.value;
        allocCount := Wrapping(allocCount + 1);
      }
      state := state.(oomCount := oomCount, allocCount := allocCount);
    }

    // Hands a block back to one class and leaves the others untouched.
    method ReleaseTo(ci: nat, ptr: nat) returns (released: bool)
      requires Valid() && ci < NUM_CLASSES
      modifies classes[ci].Repr
      ensures classes[ci].Valid() && classes[ci].Repr == old(classes[ci].Repr)
      ensures forall c :: 0 <= c < NUM_CLASSES && c != ci ==>
        classes[c].Valid() && classes[c].Repr == old(classes[c].Repr) && classes[c].state == old(classes[c].state)
      ensures (classes[ci].state, released) == ClassDealloc(old(state).classes[ci], ptr)
    {
      released := classes[ci].Dealloc(ptr);
    }

    // Hands a block back to one class of the heap.
    method DeallocClass(ci: nat, ptr: nat) returns (released: bool)
      requires Valid() && HeapShape(state) && ci < NUM_CLASSES
      modifies Repr
      ensures Valid() && Repr == old(Repr)
      ensures state == old(state).(classes := old(state).classes[ci := ClassDealloc(old(state).classes[ci], ptr).0])
      ensures released == ClassDealloc(old(state).classes[ci], ptr).1
    {
      released := ReleaseTo(ci, ptr);
      state := state.(classes := state.classes[ci := classes[ci].state]);
    }

    method Dealloc(ptr: nat, size: nat, align: nat, lock: LockOutcome)
      requires Valid() && HeapShape(state)
      modifies Repr
      ensures Valid() && Repr == old(Repr)
      ensures HeapShape(state)
      ensures state == HeapDealloc(old(state), ptr, size, align, lock)
      ensures SlabRuns.Layout(old(state), arena.base) ==>
                SlabSizes.Frees(old(state), ptr, size, align, lock, state)
    {
      ghost var h := state;
      if ptr != NULL {
        var class_ := ClassFor(Max(size, align));
        if class_.Some? && lock == Acquired {
          DeallocCounted(class_.value, ptr);
        }
      }
      if SlabRuns.Layout(h, arena.base) {
        SlabSizes.DeallocFrees(h, arena.base, ptr, size, align, lock);
      }
    }

    // The operation `dealloc` runs under the lock.
    method DeallocCounted(ci: nat, ptr: nat)
      requires Valid() && HeapShape(state) && ci < NUM_CLASSES
      modifies Repr
      ensures Valid() && Repr == old(Repr)
      ensures state == DeallocLocked(old(state), ptr, ci)
    {
      var released := DeallocClass(ci, ptr);
      if released {
        deallocCount := Wrapping(deallocCount + 1);
        state := state.(deallocCount := deallocCount);
      }
    }
  }
}
