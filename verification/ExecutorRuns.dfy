/** Interleavings of the executor's passes with wakes that arrive from outside at any moment. */
module ExecutorRuns {
  import opened Machine
  import opened Bits
  import opened Executors

  /** Where the executor is: outside a pass, between two polls with `left` still to do, or inside a poll. */
  datatype Pass = Outside | Between(left: u64) | During(left: u64, slot: nat)

  /**
   The executor with its history: the slots woken since their last poll began; for the current
   pass the live slots it captured and the slots it polled; and for every slot the task last given
   to it and how often that task has been polled to the end of a poll.
   */
  datatype System = System(e: Executor, pass: Pass, woken: set<nat>, captured: set<nat>, polled: seq<nat>,
                           given: map<nat, Task>, polls: map<nat, nat>)

  datatype Action = Add(task: Task) | Wake(slot: nat) | Begin | Proceed

  function LiveAmong(slots: seq<Slot>, mask: u64): set<nat> {
    set i | i in Members(mask) && i < |slots| && Live(slots[i])
  }

  function AfterAdd(s: System, task: Task): System
    requires Shape(s.e)
  {
    var (e, result) := Spawn(s.e, task);
    if result.Ok? then
      s.(e := e, woken := s.woken + {result.value},
         given := s.given[result.value := task], polls := s.polls[result.value := 0])
    else s
  }

  /** The next step of a pass: finish it, skip or start the lowest slot left, or finish the poll under way. */
  function AfterProceed(s: System): System
    requires Shape(s.e)
  {
    match s.pass
    case Outside => s
    case Between(left) =>
      if left == 0 then s.(pass := Outside)
      else
        var rest := ClearLowest(left);
        var i := TrailingZeros(left);
        if Pollable(s.e.slots[i]) then
          s.(e := s.e.(slots := s.e.slots[i := s.e.slots[i].(state := Running)]),
             pass := During(rest, i), woken := s.woken - {i}, polled := s.polled + [i])
        else s.(pass := Between(rest))
    case During(left, i) =>
      if i >= MAX_TASKS then s
      else
        var task := s.e.slots[i].task;
        s.(e := Executor(s.e.slots[i := AfterPoll(s.e.slots[i])], Or64(s.e.ready, Wakes(task)),
                         if task.pending == [] then (if s.e.count == 0 then 0 else s.e.count - 1) else s.e.count),
           pass := Between(left), woken := s.woken + Members(Wakes(task)),
           polls := s.polls[i := 1 + if i in s.polls then s.polls[i] else 0])
  }

  function Next(s: System, a: Action): (s': System)
    requires Shape(s.e)
    ensures Shape(s'.e)
  {
    match a
    case Add(task) => if s.pass.Outside? then AfterAdd(s, task) else s
    case Wake(i) =>
      if i < MAX_TASKS then s.(e := s.e.(ready := Or64(s.e.ready, Unit(i))), woken := s.woken + {i}) else s
    case Begin =>
      if s.pass.Outside? then
        s.(e := s.e.(ready := 0), pass := Between(s.e.ready), captured := LiveAmong(s.e.slots, s.e.ready), polled := [])
      else s
    case Proceed => AfterProceed(s)
  }

  function RunOf(actions: seq<Action>): (s: System)
    ensures Shape(s.e)
  {
    if actions == [] then System(Empty(), Outside, {}, {}, [], map[], map[])
    else Next(RunOf(actions[..|actions| - 1]), actions[|actions| - 1])
  }

  // ----- the invariant -----

  /** The positions the current pass has not reached. */
  function Left(s: System): set<nat> {
    if s.pass.Outside? then {} else Members(s.pass.left)
  }

  /** A slot is running exactly while it is being polled, and `count` is the number of live slots. */
  ghost predicate SlotsOk(s: System) {
    && Counted(s.e)
    && (s.pass.During? ==> s.pass.slot < MAX_TASKS && s.pass.slot !in Left(s))
    && (forall i {:trigger s.e.slots[i]} :: 0 <= i < MAX_TASKS ==>
          (s.e.slots[i].state.Running? <==> s.pass.During? && s.pass.slot == i))
  }

  /** Every live slot woken since its last poll began is scheduled, and a new task counts as woken. */
  ghost predicate WakesOk(s: System)
    requires Shape(s.e)
  {
    forall i {:trigger s.e.slots[i]} :: 0 <= i < MAX_TASKS ==>
      && (Live(s.e.slots[i]) && i in s.woken ==> i in Members(s.e.ready) || i in Left(s))
      && (s.e.slots[i].state.Ready? ==> i in s.woken)
  }

  /** The pass has polled exactly the captured slots it has passed, each once; the others are still to be polled. */
  ghost predicate PassOk(s: System)
    requires Shape(s.e)
  {
    && (forall j, k {:trigger s.polled[j], s.polled[k]} :: 0 <= j < k < |s.polled| ==> s.polled[j] != s.polled[k])
    && (!s.pass.Outside? ==>
          && (forall i :: i in s.captured ==> i < MAX_TASKS && (i in s.polled <==> i !in Left(s)))
          && (forall j {:trigger s.polled[j]} :: 0 <= j < |s.polled| ==> s.polled[j] in s.captured)
          && (forall i {:trigger s.e.slots[i]} :: 0 <= i < MAX_TASKS && i in Left(s) ==>
                (i in s.captured <==> Pollable(s.e.slots[i]))))
    && (s.pass.Outside? ==> forall i :: i in s.captured ==> i in s.polled)
  }

  ghost predicate Inv(s: System) {
    SlotsOk(s) && WakesOk(s) && PassOk(s)
  }

  lemma StartInv()
    ensures Inv(RunOf([]))
  {
    EmptyCounted();
    MembersZero();
  }

  lemma AddKeeps(s: System, task: Task)
    requires Inv(s) && s.pass.Outside?
    ensures Inv(AfterAdd(s, task))
  {
    SpawnExactly(s.e, task);
  }

  lemma WakeKeeps(s: System, i: nat)
    requires Inv(s) && i < MAX_TASKS
    ensures Inv(Next(s, Wake(i)))
  {
    MembersSet(s.e.ready, i);
  }

  lemma BeginKeeps(s: System)
    requires Inv(s) && s.pass.Outside?
    ensures Inv(Next(s, Begin))
  {
    MembersZero();
    assert forall i :: i in Members(s.e.ready) ==> i < MAX_TASKS;
  }

  lemma SkipKeeps(s: System)
    requires Inv(s) && s.pass.Between? && s.pass.left != 0
    requires var rest := ClearLowest(s.pass.left); !Pollable(s.e.slots[TrailingZeros(s.pass.left)])
    ensures Inv(AfterProceed(s))
  {
    var rest := ClearLowest(s.pass.left);
    assert !Live(s.e.slots[TrailingZeros(s.pass.left)]);
  }

  lemma StartPollKeeps(s: System)
    requires Inv(s) && s.pass.Between? && s.pass.left != 0
    requires var rest := ClearLowest(s.pass.left); Pollable(s.e.slots[TrailingZeros(s.pass.left)])
    ensures Inv(AfterProceed(s))
  {
    var rest := ClearLowest(s.pass.left);
    var i := TrailingZeros(s.pass.left);
    TotalUpdate(One, s.e.slots, i, s.e.slots[i].(state := Running));
    assert i in s.captured && i !in s.polled;
  }

  lemma FinishPollKeeps(s: System)
    requires Inv(s) && s.pass.During?
    ensures Inv(AfterProceed(s))
  {
    var i := s.pass.slot;
    var slot := s.e.slots[i];
    TotalUpdate(One, s.e.slots, i, AfterPoll(slot));
    TotalAtLeast(One, s.e.slots, i);
    MembersOr(s.e.ready, Wakes(slot.task));
  }

  lemma EndPassKeeps(s: System)
    requires Inv(s) && s.pass == Between(0)
    ensures Inv(AfterProceed(s))
  {
    MembersZero();
  }

  lemma ProceedKeeps(s: System)
    requires Inv(s)
    ensures Inv(AfterProceed(s))
  {
    match s.pass
    case Outside =>
    case During(_, _) => FinishPollKeeps(s);
    case Between(left) =>
      if left == 0 {
        EndPassKeeps(s);
      } else {
        var rest := ClearLowest(left);
        if Pollable(s.e.slots[TrailingZeros(left)]) {
          StartPollKeeps(s);
        } else {
          SkipKeeps(s);
        }
      }
  }

  lemma {:induction false} RunsKeepInvariant(actions: seq<Action>)
    ensures Inv(RunOf(actions))
  {
    if actions == [] {
      StartInv();
    } else {
      var s := RunOf(actions[..|actions| - 1]);
      RunsKeepInvariant(actions[..|actions| - 1]);
      match actions[|actions| - 1]
      case Add(task) =>
        if s.pass.Outside? {
          AddKeeps(s, task);
        }
      case Wake(i) =>
        if i < MAX_TASKS {
          WakeKeeps(s, i);
        }
      case Begin =>
        if s.pass.Outside? {
          BeginKeeps(s);
        }
      case Proceed => ProceedKeeps(s);
    }
  }

  // ----- one task -----

  /** What is left of a task after `n` polls. */
  function Rest(t: Task, n: nat): Task
    requires n <= |t.pending|
  {
    t.(pending := t.pending[n..])
  }

  /** A slot that got no task is free; any other has run its task as many polls as are counted. */
  ghost predicate SlotTells(slot: Slot, given: map<nat, Task>, polls: map<nat, nat>, i: nat) {
    if i !in given then slot.state == Free && i !in polls
    else
      && i in polls && polls[i] <= |given[i].pending| + 1
      && (if polls[i] == |given[i].pending| + 1 then slot.state == Done
          else Live(slot) && slot.task == Rest(given[i], polls[i]))
  }

  ghost predicate HistoryOk(s: System)
    requires Shape(s.e)
  {
    forall i: nat {:trigger SlotTells(s.e.slots[i], s.given, s.polls, i)} :: i < MAX_TASKS ==>
      SlotTells(s.e.slots[i], s.given, s.polls, i)
  }

  lemma AddTells(s: System, task: Task)
    requires Counted(s.e) && HistoryOk(s)
    ensures HistoryOk(AfterAdd(s, task))
  {
    SpawnExactly(s.e, task);
    var s' := AfterAdd(s, task);
    forall i: nat | i < MAX_TASKS
      ensures SlotTells(s'.e.slots[i], s'.given, s'.polls, i)
    {
      assert SlotTells(s.e.slots[i], s.given, s.polls, i);
    }
  }

  lemma ProceedTells(s: System)
    requires Inv(s) && HistoryOk(s)
    ensures HistoryOk(AfterProceed(s))
  {
    var s' := AfterProceed(s);
    forall i: nat | i < MAX_TASKS
      ensures SlotTells(s'.e.slots[i], s'.given, s'.polls, i)
    {
      assert SlotTells(s.e.slots[i], s.given, s.polls, i);
    }
  }

  lemma {:induction false} RunsTell(actions: seq<Action>)
    ensures HistoryOk(RunOf(actions))
  {
    if actions != [] {
      var s := RunOf(actions[..|actions| - 1]);
      RunsKeepInvariant(actions[..|actions| - 1]);
      RunsTell(actions[..|actions| - 1]);
      var a := actions[|actions| - 1];
      if a.Proceed? {
        ProceedTells(s);
      } else if a.Add? {
        AddTells(s, a.task);
      } else {
        assert forall i: nat :: i < MAX_TASKS ==> SlotTells(s.e.slots[i], s.given, s.polls, i);
      }
    }
  }

  /**
   In every interleaving a task that stays pending `n` times is done exactly after its `n + 1`-th poll:
   until then its slot is alive and no poll is repeated, skipped or added.
   */
  lemma TaskDoneExactly(actions: seq<Action>, i: nat)
    requires i < MAX_TASKS
    ensures var s := RunOf(actions);
            && (i !in s.given <==> s.e.slots[i].state == Free)
            && (i in s.given ==>
                  && i in s.polls && s.polls[i] <= |s.given[i].pending| + 1
                  && (s.e.slots[i].state == Done <==> s.polls[i] == |s.given[i].pending| + 1)
                  && (Live(s.e.slots[i]) <==> s.polls[i] <= |s.given[i].pending|))
  {
    RunsTell(actions);
    assert SlotTells(RunOf(actions).e.slots[i], RunOf(actions).given, RunOf(actions).polls, i);
  }

  /** In every interleaving the `k`-th poll of a task raises the wakes its script names for it, and no other. */
  lemma PollRaises(actions: seq<Action>)
    requires RunOf(actions).pass.During?
    ensures var s := RunOf(actions);
            var i := s.pass.slot;
            && i in s.given && i in s.polls && s.polls[i] <= |s.given[i].pending|
            && Members(Next(s, Proceed).e.ready) ==
                 Members(s.e.ready)
                 + Members(if s.polls[i] == |s.given[i].pending| then s.given[i].last else s.given[i].pending[s.polls[i]])
  {
    RunsKeepInvariant(actions);
    RunsTell(actions);
    var s := RunOf(actions);
    var i := s.pass.slot;
    assert SlotTells(s.e.slots[i], s.given, s.polls, i);
    MembersOr(s.e.ready, Wakes(s.e.slots[i].task));
  }

  // ----- what the executor promises -----

  /** In every interleaving `count` is the number of live slots, so spawning fails exactly when 64 tasks are alive. */
  lemma ArenaFullExactly(actions: seq<Action>, task: Task)
    ensures var s := RunOf(actions);
            && s.e.count == Total(One, s.e.slots)
            && (s.pass.Outside? ==> (Spawn(s.e, task).1 == Err(ArenaFull) <==> s.e.count == MAX_TASKS))
  {
    RunsKeepInvariant(actions);
    if RunOf(actions).pass.Outside? {
      SpawnExactly(RunOf(actions).e, task);
    }
  }

  /**
   In every interleaving no wake of a live task is lost, not even one raised during its own poll or
   in the middle of a pass: the slot stays scheduled until it is polled again.
   */
  lemma NoWakeLost(actions: seq<Action>, i: nat)
    requires i < MAX_TASKS
    ensures var s := RunOf(actions);
            Live(s.e.slots[i]) && i in s.woken ==> i in Members(s.e.ready) || i in Left(s)
  {
    RunsKeepInvariant(actions);
  }

  /** In every interleaving a finished pass has polled each live slot it captured, each exactly once, and no other. */
  lemma PassPollsEachOnce(actions: seq<Action>)
    requires RunOf(actions).pass == Between(0)
    ensures var s := RunOf(actions);
            && (forall i :: i in s.polled <==> i in s.captured)
            && forall j, k :: 0 <= j < k < |s.polled| ==> s.polled[j] != s.polled[k]
  {
    RunsKeepInvariant(actions);
    MembersZero();
  }

  /** How many steps a pass without outside wakes takes from here. */
  function Steps(e: Executor, left: u64): nat
    requires Shape(e)
    decreases |Members(left)|
  {
    if left == 0 then 0
    else
      var rest := ClearLowest(left);
      var i := TrailingZeros(left);
      (if Pollable(e.slots[i]) then 2 else 1) + Steps(PollSlot(e, i), rest)
  }

  function Repeat(s: System, n: nat): (s': System)
    requires Shape(s.e)
    ensures Shape(s'.e)
    decreases n
  {
    if n == 0 then s else Repeat(Next(s, Proceed), n - 1)
  }

  lemma PollIsTwoSteps(s: System)
    requires Shape(s.e) && s.pass.Between? && s.pass.left != 0
    ensures var rest := ClearLowest(s.pass.left);
            var i := TrailingZeros(s.pass.left);
            var s' := if Pollable(s.e.slots[i]) then Next(Next(s, Proceed), Proceed) else Next(s, Proceed);
            s'.e == PollSlot(s.e, i) && s'.pass == Between(rest)
  {
    var rest := ClearLowest(s.pass.left);
    var i := TrailingZeros(s.pass.left);
    var slot := s.e.slots[i];
    if Pollable(slot) {
      assert s.e.slots[i := slot.(state := Running)][i := AfterPoll(slot)] == s.e.slots[i := AfterPoll(slot)];
    }
  }

  /** Without outside wakes, the steps of a pass are what `RunUntilStall` does at once. */
  lemma {:induction false} PassAloneIsRun(s: System)
    requires Shape(s.e) && s.pass.Between?
    ensures var s' := Repeat(s, Steps(s.e, s.pass.left));
            s'.e == PollMask(s.e, s.pass.left) && s'.pass == Between(0)
    decreases |Members(s.pass.left)|
  {
    if s.pass.left != 0 {
      var rest := ClearLowest(s.pass.left);
      var i := TrailingZeros(s.pass.left);
      PollIsTwoSteps(s);
      var s' := if Pollable(s.e.slots[i]) then Next(Next(s, Proceed), Proceed) else Next(s, Proceed);
      PassAloneIsRun(s');
      if Pollable(s.e.slots[i]) {
        assert Repeat(s, Steps(s.e, s.pass.left)) == Repeat(Next(s, Proceed), 1 + Steps(s'.e, rest));
      }
    }
  }

  /** Beginning a pass and finishing its steps without outside wakes is `RunUntilStall`, after which tasks can be added again. */
  lemma PassIsRunUntilStall(s: System)
    requires Shape(s.e) && s.pass == Outside
    ensures var begun := Next(s, Begin);
            && begun.pass.Between?
            && var s' := Next(Repeat(begun, Steps(begun.e, begun.pass.left)), Proceed);
               s'.e == RunUntilStall(s.e) && s'.pass == Outside
  {
    PassAloneIsRun(Next(s, Begin));
  }

  /** What counts as woken: a slot woken from outside, the slot of a new task, and every slot a finished poll wakes. */
  lemma WakesRecorded(s: System, i: nat, task: Task)
    requires Shape(s.e)
    ensures i < 64 ==> Next(s, Wake(i)).woken == s.woken + {i} && i in Members(Next(s, Wake(i)).e.ready)
    ensures s.pass.During? && s.pass.slot < 64 ==>
              Next(s, Proceed).woken == s.woken + Members(Wakes(s.e.slots[s.pass.slot].task))
    ensures s.pass == Outside && Spawn(s.e, task).1.Ok? ==>
              Next(s, Add(task)).woken == s.woken + {Spawn(s.e, task).1.value}
  {
    if i < 64 {
      MembersSet(s.e.ready, i);
    }
  }
}
