/**
 The fixed-arena cooperative executor. A future is a script of polls, each raising wakes; a waker is
 "set bit `slot` of the ready mask".
 */
module Executors {
  import opened Machine
  import opened Bits

  const MAX_TASKS: nat := 64

  /** The wakes raised by each poll that returns pending, and by the poll that returns ready. */
  datatype Task = Task(pending: seq<u64>, last: u64)

  datatype SlotState = Free | Parked | Ready | Running | Done

  datatype Slot = Slot(state: SlotState, task: Task)

  datatype Executor = Executor(slots: seq<Slot>, ready: u64, count: nat)

  datatype ExecutorError = ArenaFull

  predicate Shape(e: Executor) {
    |e.slots| == MAX_TASKS
  }

  function Empty(): (e: Executor)
    ensures Shape(e)
  {
    Executor(seq(MAX_TASKS, _ => Slot(Free, Task([], 0))), 0, 0)
  }

  predicate Live(s: Slot) {
    s.state.Parked? || s.state.Ready? || s.state.Running?
  }

  predicate Pollable(s: Slot) {
    s.state.Parked? || s.state.Ready?
  }

  // ----- spawning -----

  /** The first slot that is free or done, or the number of slots. */
  function FindFree(slots: seq<Slot>): (i: nat)
    ensures i <= |slots|
    ensures i < |slots| ==> slots[i].state in {Free, Done}
    ensures forall j :: 0 <= j < i ==> slots[j].state !in {Free, Done}
  {
    if slots == [] then 0
    else if slots[0].state in {Free, Done} then 0
    else
      assert forall j :: 0 < j < |slots| ==> slots[j] == slots[1..][j - 1];
      1 + FindFree(slots[1..])
  }

  function Spawn(e: Executor, task: Task): (Executor, Result<nat, ExecutorError>)
    requires Shape(e)
  {
    var i := FindFree(e.slots);
    if i == MAX_TASKS then (e, Err(ArenaFull))
    else
      (Executor(e.slots[i := Slot(Ready, task)], Or64(e.ready, Unit(i)), e.count + 1), Ok(i))
  }

  // ----- polling one slot -----

  /** The wakes the next poll raises. */
  function Wakes(t: Task): u64 {
    if t.pending == [] then t.last else t.pending[0]
  }

  function AfterPoll(s: Slot): Slot {
    if s.task.pending == [] then Slot(Done, s.task) else Slot(Parked, s.task.(pending := s.task.pending[1..]))
  }

  function PollSlot(e: Executor, i: nat): (e': Executor)
    requires Shape(e) && i < MAX_TASKS
    ensures Shape(e')
  {
    var s := e.slots[i];
    if !Pollable(s) then e
    else
      Executor(e.slots[i := AfterPoll(s)], Or64(e.ready, Wakes(s.task)),
               if s.task.pending == [] then (if e.count == 0 then 0 else e.count - 1) else e.count)
  }

  // ----- a pass -----

  /** `mask` without its lowest position. */
  function ClearLowest(mask: u64): (rest: u64)
    requires mask != 0
    ensures TrailingZeros(mask) < 64 && TrailingZeros(mask) in Members(mask)
    ensures Members(rest) == Members(mask) - {TrailingZeros(mask)}
  {
    TrailingZerosIsLowest(mask);
    MembersClear(mask, TrailingZeros(mask));
    And64(mask, Not(Unit(TrailingZeros(mask))))
  }

  /** Polls the slots of `mask` from the lowest up. */
  function PollMask(e: Executor, mask: u64): (e': Executor)
    requires Shape(e)
    ensures Shape(e')
    decreases |Members(mask)|
  {
    if mask == 0 then e
    else
      var rest := ClearLowest(mask);
      PollMask(PollSlot(e, TrailingZeros(mask)), rest)
  }

  function RunUntilStall(e: Executor): (e': Executor)
    requires Shape(e)
    ensures Shape(e')
  {
    PollMask(e.(ready := 0), e.ready)
  }

  /** Slot `i` is polled by a pass over `mask`. */
  predicate Polled(e: Executor, mask: u64, i: nat)
    requires Shape(e)
  {
    i < MAX_TASKS && i in Members(mask) && Pollable(e.slots[i])
  }

  lemma {:induction false} PollMaskSlots(e: Executor, mask: u64, i: nat)
    requires Shape(e) && i < MAX_TASKS
    ensures PollMask(e, mask).slots[i] == if Polled(e, mask, i) then AfterPoll(e.slots[i]) else e.slots[i]
    decreases |Members(mask)|
  {
    if mask == 0 {
      MembersZero();
    } else {
      var rest := ClearLowest(mask);
      PollMaskSlots(PollSlot(e, TrailingZeros(mask)), rest, i);
    }
  }

  lemma {:induction false} PollMaskReady(e: Executor, mask: u64, j: nat)
    requires Shape(e)
    ensures j in Members(PollMask(e, mask).ready) <==>
              j in Members(e.ready) || exists i: nat :: Polled(e, mask, i) && j in Members(Wakes(e.slots[i].task))
    decreases |Members(mask)|
  {
    if mask == 0 {
      MembersZero();
    } else {
      var b, rest := TrailingZeros(mask), ClearLowest(mask);
      var e1 := PollSlot(e, b);
      PollMaskReady(e1, rest, j);
      MembersOr(e.ready, Wakes(e.slots[b].task));
      forall i: nat
        ensures Polled(e, mask, i) <==> Polled(e1, rest, i) || (i == b && Pollable(e.slots[b]))
        ensures i < MAX_TASKS && i != b ==> e1.slots[i] == e.slots[i]
      {
      }
      if Pollable(e.slots[b]) && j in Members(Wakes(e.slots[b].task)) {
        assert Polled(e, mask, b);
      }
      if exists i: nat :: Polled(e1, rest, i) && j in Members(Wakes(e1.slots[i].task)) {
        var i: nat :| Polled(e1, rest, i) && j in Members(Wakes(e1.slots[i].task));
        assert Polled(e, mask, i);
      }
      if exists i: nat :: Polled(e, mask, i) && j in Members(Wakes(e.slots[i].task)) {
        var i: nat :| Polled(e, mask, i) && j in Members(Wakes(e.slots[i].task));
        assert i == b || Polled(e1, rest, i);
      }
    }
  }

  /**
   A pass polls every captured live slot exactly once and no other, and afterwards the ready mask
   holds exactly the wakes those polls raised, whatever the order they came in.
   */
  lemma PassCharacterised(e: Executor, i: nat)
    requires Shape(e) && i < MAX_TASKS
    ensures RunUntilStall(e).slots[i] == if Polled(e, e.ready, i) then AfterPoll(e.slots[i]) else e.slots[i]
    ensures i in Members(RunUntilStall(e).ready) <==>
              exists k: nat :: Polled(e, e.ready, k) && i in Members(Wakes(e.slots[k].task))
  {
    var start := e.(ready := 0);
    PollMaskSlots(start, e.ready, i);
    PollMaskReady(start, e.ready, i);
    MembersZero();
    assert forall k: nat :: Polled(start, e.ready, k) <==> Polled(e, e.ready, k);
  }

  // ----- counting -----

  /** The sum of `f` over the slots. */
  function Total(f: Slot -> nat, slots: seq<Slot>): nat
    decreases |slots|
  {
    if slots == [] then 0 else Total(f, slots[..|slots| - 1]) + f(slots[|slots| - 1])
  }

  function One(s: Slot): nat {
    if Live(s) then 1 else 0
  }

  /** The polls a live slot still needs. */
  function Remaining(s: Slot): nat {
    if Live(s) then |s.task.pending| + 1 else 0
  }

  lemma {:induction false} TotalUpdate(f: Slot -> nat, slots: seq<Slot>, i: nat, s: Slot)
    requires i < |slots|
    ensures Total(f, slots[i := s]) == Total(f, slots) - f(slots[i]) + f(s)
    decreases |slots|
  {
    var n := |slots| - 1;
    if i == n {
      assert slots[i := s][..n] == slots[..n];
    } else {
      assert slots[i := s][..n] == slots[..n][i := s];
      TotalUpdate(f, slots[..n], i, s);
    }
  }

  lemma {:induction false} TotalAtLeast(f: Slot -> nat, slots: seq<Slot>, i: nat)
    requires i < |slots|
    ensures Total(f, slots) >= f(slots[i])
    decreases |slots|
  {
    if i < |slots| - 1 {
      TotalAtLeast(f, slots[..|slots| - 1], i);
    }
  }

  lemma {:induction false} CountBounds(slots: seq<Slot>)
    ensures Total(One, slots) <= |slots|
    ensures Total(One, slots) == |slots| <==> forall i :: 0 <= i < |slots| ==> Live(slots[i])
  {
    if slots != [] {
      var n := |slots| - 1;
      CountBounds(slots[..n]);
      if forall i :: 0 <= i < |slots| ==> Live(slots[i]) {
        assert forall i :: 0 <= i < n ==> Live(slots[..n][i]);
      }
      if Total(One, slots) == |slots| {
        assert Live(slots[n]);
        forall i | 0 <= i < |slots|
          ensures Live(slots[i])
        {
          if i < n {
            assert slots[i] == slots[..n][i];
          }
        }
      }
    }
  }

  ghost predicate Counted(e: Executor) {
    Shape(e) && e.count == Total(One, e.slots)
  }

  lemma EmptyCounted()
    ensures Counted(Empty()) && Empty().count == 0 && Members(Empty().ready) == {}
  {
    NoneLive(Empty().slots);
    MembersZero();
  }

  lemma {:induction false} NoneLive(slots: seq<Slot>)
    requires forall i :: 0 <= i < |slots| ==> !Live(slots[i])
    ensures Total(One, slots) == 0 && Total(Remaining, slots) == 0
  {
    if slots != [] {
      NoneLive(slots[..|slots| - 1]);
    }
  }

  /** The task takes the first slot that is free or done, scheduled, and no other slot changes. */
  ghost predicate Placed(before: seq<Slot>, after: seq<Slot>, task: Task, i: nat) {
    && i < |before| == |after|
    && !Live(before[i]) && (forall j :: 0 <= j < i ==> Live(before[j]))
    && after[i] == Slot(Ready, task)
    && (forall j :: 0 <= j < |before| && j != i ==> after[j] == before[j])
  }

  /** Spawning fails exactly when 64 tasks are alive; otherwise the task takes the first free slot and is woken. */
  lemma SpawnExactly(e: Executor, task: Task)
    requires Counted(e)
    ensures var (e', result) := Spawn(e, task);
            && Counted(e')
            && (result == Err(ArenaFull) <==> e.count == 64)
            && (result.Err? ==> e' == e)
            && (result.Ok? ==>
                  && Placed(e.slots, e'.slots, task, result.value)
                  && e'.count == e.count + 1 && Members(e'.ready) == Members(e.ready) + {result.value})
  {
    var i := FindFree(e.slots);
    CountBounds(e.slots);
    if i < MAX_TASKS {
      assert !Live(e.slots[i]);
      TotalUpdate(One, e.slots, i, Slot(Ready, task));
      MembersSet(e.ready, i);
    }
  }

  lemma PollCounts(e: Executor, i: nat)
    requires Counted(e) && i < MAX_TASKS
    ensures Counted(PollSlot(e, i))
    ensures Total(Remaining, PollSlot(e, i).slots)
         == Total(Remaining, e.slots) - if Pollable(e.slots[i]) then 1 else 0
  {
    TotalUpdate(One, e.slots, i, AfterPoll(e.slots[i]));
    TotalUpdate(Remaining, e.slots, i, AfterPoll(e.slots[i]));
    TotalAtLeast(One, e.slots, i);
  }

  lemma {:induction false} PassCounts(e: Executor, mask: u64)
    requires Counted(e)
    ensures Counted(PollMask(e, mask))
    ensures Total(Remaining, PollMask(e, mask).slots) <= Total(Remaining, e.slots)
    ensures (exists i: nat :: Polled(e, mask, i)) ==>
              Total(Remaining, PollMask(e, mask).slots) < Total(Remaining, e.slots)
    decreases |Members(mask)|
  {
    if mask == 0 {
      MembersZero();
    } else {
      var b, rest := TrailingZeros(mask), ClearLowest(mask);
      var e1 := PollSlot(e, b);
      PollCounts(e, b);
      PassCounts(e1, rest);
      if !Pollable(e.slots[b]) && exists i: nat :: Polled(e, mask, i) {
        var i: nat :| Polled(e, mask, i);
        assert Polled(e1, rest, i);
      }
    }
  }

  // ----- running to completion -----

  /** Every pending poll wakes its own slot. */
  ghost predicate SelfWaking(s: Slot, i: nat) {
    Live(s) ==> forall k {:trigger s.task.pending[k]} :: 0 <= k < |s.task.pending| ==> i in Members(s.task.pending[k])
  }

  /** Between passes every live slot is scheduled and will keep itself scheduled. */
  ghost predicate Driven(e: Executor) {
    && Counted(e)
    && forall i {:trigger e.slots[i]} :: 0 <= i < MAX_TASKS ==>
         !e.slots[i].state.Running? && SelfWaking(e.slots[i], i) && (Live(e.slots[i]) ==> i in Members(e.ready))
  }

  lemma PollStaysSelfWaking(s: Slot, i: nat)
    requires SelfWaking(s, i) && Live(s)
    ensures SelfWaking(AfterPoll(s), i)
    ensures Live(AfterPoll(s)) ==> i in Members(Wakes(s.task))
  {
    assert forall k :: 0 <= k < |AfterPoll(s).task.pending| && s.task.pending != [] ==>
        AfterPoll(s).task.pending[k] == s.task.pending[k + 1];
  }

  /** A pass over self-waking tasks keeps all of them scheduled, and uses up a poll unless none is left. */
  lemma DrivenPass(e: Executor)
    requires Driven(e)
    ensures Driven(RunUntilStall(e))
    ensures e.count > 0 ==> Total(Remaining, RunUntilStall(e).slots) < Total(Remaining, e.slots)
  {
    var e' := RunUntilStall(e);
    var start := e.(ready := 0);
    PassCounts(start, e.ready);
    forall i | 0 <= i < MAX_TASKS
      ensures !e'.slots[i].state.Running? && SelfWaking(e'.slots[i], i)
      ensures Live(e'.slots[i]) ==> i in Members(e'.ready)
    {
      PassCharacterised(e, i);
      if Live(e.slots[i]) {
        assert Polled(e, e.ready, i);
        PollStaysSelfWaking(e.slots[i], i);
      }
    }
    if e.count > 0 {
      var i := SomeLive(e.slots);
      assert Polled(start, e.ready, i);
    }
  }

  lemma {:induction false} SomeLive(slots: seq<Slot>) returns (i: nat)
    requires Total(One, slots) > 0
    ensures i < |slots| && Live(slots[i])
  {
    var n := |slots| - 1;
    if Live(slots[n]) {
      i := n;
    } else {
      i := SomeLive(slots[..n]);
    }
  }

  class OuroborosExecutor {
    const slots: array<Slot>
    var ready: u64
    var count: nat

    ghost function View(): Executor
      reads this, slots
    {
      Executor(slots[..], ready, count)
    }

    ghost predicate Valid()
      reads this, slots
    {
      slots.Length == MAX_TASKS
    }

    constructor ()
      ensures Valid() && fresh(slots) && View() == Empty()
    {
      slots := new Slot[MAX_TASKS](_ => Slot(Free, Task([], 0)));
      ready, count := 0, 0;
    }

    method FindFreeSlot() returns (i: nat)
      requires Valid()
      ensures i == FindFree(slots[..])
    {
      i := 0;
      while i < MAX_TASKS && slots[i].state != Free && slots[i].state != Done
        invariant i <= MAX_TASKS
        invariant forall j :: 0 <= j < i ==> slots[j].state !in {Free, Done}
      {
        i := i + 1;
      }
    }

    method SpawnRaw(task: Task) returns (result: Result<nat, ExecutorError>)
      requires Valid()
      modifies this, slots
      ensures Valid()
      ensures (View(), result) == Spawn(old(View()), task)
      ensures result.Ok? ==> Placed(old(slots[..]), slots[..], task, result.value)
      ensures result.Err? ==> View() == old(View()) && forall j :: 0 <= j < 64 ==> Live(slots[j])
    {
      var i := FindFreeSlot();
      if i == MAX_TASKS {
        return Err(ArenaFull);
      }
      slots[i] := Slot(Ready, task);
      ready := Or64(ready, Unit(i));
      count := count + 1;
      return Ok(i);
    }

    // One poll of the future in slot `i`.
    method Poll(i: nat)
      requires Valid() && i < MAX_TASKS
      modifies this, slots
      ensures View() == PollSlot(old(View()), i)
    {
      if slots[i].state != Ready && slots[i].state != Parked {
        return;
      }
      var task := slots[i].task;
      slots[i] := Slot(Running, task);
      ready := Or64(ready, Wakes(task));
      if task.pending == [] {
        slots[i] := Slot(Done, task);
        count := if count == 0 then 0 else count - 1;
      } else {
        slots[i] := Slot(Parked, task.(pending := task.pending[1..]));
      }
    }

    method RunOnce() returns (alive: nat)
      requires Valid()
      modifies this, slots
      ensures Valid()
      ensures View() == RunUntilStall(old(View())) && alive == count
    {
      var mask := ready;
      ready := 0;
      while mask != 0
        invariant PollMask(View(), mask) == RunUntilStall(old(View()))
        decreases |Members(mask)|
      {
        var bit := TrailingZeros(mask);
        mask := ClearLowest(mask);
        Poll(bit);
      }
      alive := count;
    }

    /** With tasks that wake themselves whenever they stay pending, running forever ends with every task finished. */
    method RunForever()
      requires Valid() && Driven(View())
      modifies this, slots
      ensures Valid() && count == 0 && forall i :: 0 <= i < MAX_TASKS ==> !Live(slots[i])
    {
      var alive := MAX_TASKS;
      while alive != 0
        invariant Driven(View())
        invariant alive == 0 ==> count == 0
        decreases Total(Remaining, slots[..]), alive
      {
        ghost var before := View();
        DrivenPass(before);
        PassCounts(before.(ready := 0), before.ready);
        alive := RunOnce();
        if alive != 0 {
          StillAlive(before);
        }
      }
      forall i | 0 <= i < MAX_TASKS
        ensures !Live(slots[i])
      {
        TotalAtLeast(One, slots[..], i);
      }
    }
  }

  /** If tasks are alive after a pass, some were alive before it. */
  lemma StillAlive(e: Executor)
    requires Driven(e) && RunUntilStall(e).count > 0
    ensures e.count > 0
  {
    DrivenPass(e);
    var i := SomeLive(RunUntilStall(e).slots);
    PassCharacterised(e, i);
    TotalAtLeast(One, e.slots, i);
  }
}
