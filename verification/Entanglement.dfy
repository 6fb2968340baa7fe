/**
 The lock that serialises shared storage, used by any number of threads. Each compare-exchange,
 each half of an operation on the data, and each unlock is one step of an interleaving.
 */
module Entanglement {
  import opened Machine

  datatype EntanglementError = Busy

  datatype Outcome = Applied | GaveUp

  /** A thread inside `mutate_bounded`: the number of its call, its operation, and how far it is. */
  datatype Pc<!T> =
    | Idle
    | Trying(call: nat, operation: T -> T, attempts: nat)
    | Locked(call: nat, operation: T -> T)
    | Loaded(call: nat, operation: T -> T, seen: T)
    | Stored(call: nat)

  datatype Entry<!T> = Entry(call: nat, operation: T -> T)

  /**
   The lock and the data, the threads, and the history: the operations in the order they reached
   the data, how each finished call ended, and which thread made each call.
   */
  datatype System<!T> = System(locked: bool, data: T, pcs: map<nat, Pc<T>>, owner: Option<nat>,
                              log: seq<Entry<T>>, outcomes: map<nat, Outcome>, callers: seq<nat>)

  datatype Action<!T> = Call(thread: nat, operation: T -> T, attempts: nat) | Step(thread: nat)

  function PcOf<T>(s: System<T>, t: nat): Pc<T> {
    if t in s.pcs then s.pcs[t] else Idle
  }

  function Move<T>(s: System<T>, t: nat, pc: Pc<T>): System<T> {
    s.(pcs := s.pcs[t := pc])
  }

  function StepOf<T>(s: System<T>, t: nat): System<T> {
    match PcOf(s, t)
    case Idle => s
    case Trying(call, operation, attempts) =>
      if attempts == 0 then Move(s, t, Idle).(outcomes := s.outcomes[call := GaveUp])
      else if !s.locked then Move(s, t, Locked(call, operation)).(locked := true, owner := Some(t))
      else Move(s, t, Trying(call, operation, attempts - 1))
    case Locked(call, operation) => Move(s, t, Loaded(call, operation, s.data))
    case Loaded(call, operation, seen) =>
      Move(s, t, Stored(call)).(data := operation(seen), log := s.log + [Entry(call, operation)])
    case Stored(call) =>
      Move(s, t, Idle).(locked := false, owner := None, outcomes := s.outcomes[call := Applied])
  }

  function Next<T>(s: System<T>, a: Action<T>): System<T> {
    match a
    case Call(t, operation, attempts) =>
      if PcOf(s, t).Idle? then Move(s, t, Trying(|s.callers|, operation, attempts)).(callers := s.callers + [t]) else s
    case Step(t) => StepOf(s, t)
  }

  function Start<T>(data: T): System<T> {
    System(false, data, map[], None, [], map[], [])
  }

  function RunOf<T>(data: T, actions: seq<Action<T>>): System<T> {
    if actions == [] then Start(data)
    else Next(RunOf(data, actions[..|actions| - 1]), actions[|actions| - 1])
  }

  /** What the logged operations make of the data, one after the other. */
  function Replay<T>(data: T, log: seq<Entry<T>>): T {
    if log == [] then data else log[|log| - 1].operation(Replay(data, log[..|log| - 1]))
  }

  /** How often a call reached the data. */
  function Applications<T>(log: seq<Entry<T>>, call: nat): nat {
    if log == [] then 0
    else Applications(log[..|log| - 1], call) + if log[|log| - 1].call == call then 1 else 0
  }

  predicate Holds<T>(pc: Pc<T>) {
    pc.Locked? || pc.Loaded? || pc.Stored?
  }

  ghost predicate LockOk<T>(s: System<T>) {
    && (forall t: nat {:trigger PcOf(s, t)} :: Holds(PcOf(s, t)) <==> s.owner == Some(t))
    && (s.locked <==> s.owner.Some?)
    && (forall t: nat {:trigger PcOf(s, t)} :: PcOf(s, t).Loaded? ==> PcOf(s, t).seen == s.data)
  }

  /** Calls in progress carry their thread's number, and have no outcome yet. */
  ghost predicate CallsOk<T>(s: System<T>) {
    && (forall t: nat {:trigger PcOf(s, t)} :: !PcOf(s, t).Idle? ==>
          && PcOf(s, t).call < |s.callers| && s.callers[PcOf(s, t).call] == t
          && PcOf(s, t).call !in s.outcomes)
    && (forall c: nat {:trigger c in s.outcomes} :: c in s.outcomes ==> c < |s.callers|)
  }

  ghost predicate LogOk<T>(s: System<T>) {
    && (forall c: nat {:trigger Applications(s.log, c)} :: c >= |s.callers| ==> Applications(s.log, c) == 0)
    && (forall t: nat {:trigger PcOf(s, t)} :: !PcOf(s, t).Idle? ==>
          Applications(s.log, PcOf(s, t).call) == if PcOf(s, t).Stored? then 1 else 0)
    && (forall c: nat {:trigger c in s.outcomes} :: c in s.outcomes ==>
          Applications(s.log, c) == if s.outcomes[c] == Applied then 1 else 0)
  }

  ghost predicate Inv<T>(s: System<T>, data: T) {
    LockOk(s) && CallsOk(s) && LogOk(s) && s.data == Replay(data, s.log)
  }

  lemma OthersStay<T>(s: System<T>, a: Action<T>)
    ensures forall u: nat {:trigger PcOf(Next(s, a), u)} :: u != a.thread ==> PcOf(Next(s, a), u) == PcOf(s, u)
  {
  }

  lemma KeepsLock<T>(s: System<T>, a: Action<T>)
    requires LockOk(s)
    ensures LockOk(Next(s, a))
  {
    OthersStay(s, a);
  }

  lemma KeepsCalls<T>(s: System<T>, a: Action<T>)
    requires CallsOk(s)
    ensures CallsOk(Next(s, a))
  {
    OthersStay(s, a);
  }

  lemma LogGrows<T>(log: seq<Entry<T>>, e: Entry<T>, data: T)
    ensures forall c: nat {:trigger Applications(log + [e], c)} ::
              Applications(log + [e], c) == Applications(log, c) + if c == e.call then 1 else 0
    ensures Replay(data, log + [e]) == e.operation(Replay(data, log))
  {
    assert (log + [e])[..|log|] == log;
  }

  lemma StoreKeepsLog<T>(s: System<T>, t: nat)
    requires CallsOk(s) && LogOk(s) && PcOf(s, t).Loaded?
    ensures LogOk(StepOf(s, t))
  {
    var e := Entry(PcOf(s, t).call, PcOf(s, t).operation);
    var s' := StepOf(s, t);
    OthersStay(s, Step(t));
    LogGrows(s.log, e, s.data);
    assert s'.log == s.log + [e];
    forall u: nat | !PcOf(s', u).Idle?
      ensures Applications(s'.log, PcOf(s', u).call) == if PcOf(s', u).Stored? then 1 else 0
    {
      assert PcOf(Next(s, Step(t)), u) == PcOf(s', u);
    }
  }

  lemma KeepsLog<T>(s: System<T>, a: Action<T>)
    requires CallsOk(s) && LogOk(s)
    ensures LogOk(Next(s, a))
  {
    if a.Step? && PcOf(s, a.thread).Loaded? {
      StoreKeepsLog(s, a.thread);
    } else {
      OthersStay(s, a);
    }
  }

  lemma KeepsData<T>(s: System<T>, a: Action<T>, data: T)
    requires LockOk(s) && s.data == Replay(data, s.log)
    ensures Next(s, a).data == Replay(data, Next(s, a).log)
  {
    if a.Step? && PcOf(s, a.thread).Loaded? {
      LogGrows(s.log, Entry(PcOf(s, a.thread).call, PcOf(s, a.thread).operation), data);
    }
  }

  lemma {:induction false} RunsKeepInvariant<T>(data: T, actions: seq<Action<T>>)
    ensures Inv(RunOf(data, actions), data)
  {
    if actions != [] {
      var before, a := RunOf(data, actions[..|actions| - 1]), actions[|actions| - 1];
      RunsKeepInvariant(data, actions[..|actions| - 1]);
      KeepsLock(before, a);
      KeepsCalls(before, a);
      KeepsLog(before, a);
      KeepsData(before, a, data);
    }
  }

  /** In every interleaving at most one thread is between lock and unlock, and the lock is set exactly then. */
  lemma MutualExclusion<T>(data: T, actions: seq<Action<T>>, t: nat, u: nat)
    ensures var s := RunOf(data, actions);
            && (Holds(PcOf(s, t)) && Holds(PcOf(s, u)) ==> t == u)
            && (s.locked <==> exists v: nat :: Holds(PcOf(s, v)))
  {
    RunsKeepInvariant(data, actions);
    var s := RunOf(data, actions);
    if s.locked {
      assert Holds(PcOf(s, s.owner.value));
    }
  }

  /** In every interleaving a finished call applied its operation exactly once if it succeeded and never if it gave up. */
  lemma AppliedExactlyOnce<T>(data: T, actions: seq<Action<T>>, call: nat)
    ensures var s := RunOf(data, actions);
            call in s.outcomes ==> Applications(s.log, call) == if s.outcomes[call] == Applied then 1 else 0
  {
    RunsKeepInvariant(data, actions);
  }

  /** In every interleaving no update is lost: the data is what the operations make of it one at a time. */
  lemma Serialised<T>(data: T, actions: seq<Action<T>>)
    ensures var s := RunOf(data, actions);
            s.data == Replay(data, s.log)
  {
    RunsKeepInvariant(data, actions);
  }

  /** The call is under way in its thread or has an outcome. */
  predicate CallAccounted<T>(s: System<T>, call: nat) {
    call < |s.callers| ==>
      call in s.outcomes || (!PcOf(s, s.callers[call]).Idle? && PcOf(s, s.callers[call]).call == call)
  }

  ghost predicate Accounted<T>(s: System<T>) {
    forall c: nat {:trigger CallAccounted(s, c)} :: CallAccounted(s, c)
  }

  lemma CallKeepsAccounted<T>(s: System<T>, a: Action<T>, c: nat)
    requires CallAccounted(s, c) && a.Call?
    ensures CallAccounted(Next(s, a), c)
  {
  }

  lemma StepKeepsAccounted<T>(s: System<T>, t: nat, c: nat)
    requires CallAccounted(s, c)
    ensures CallAccounted(StepOf(s, t), c)
  {
    assert StepOf(s, t).callers == s.callers;
  }

  lemma KeepsAccounted<T>(s: System<T>, a: Action<T>)
    requires Accounted(s)
    ensures Accounted(Next(s, a))
  {
    forall c: nat
      ensures CallAccounted(Next(s, a), c)
    {
      assert CallAccounted(s, c);
      if a.Call? {
        CallKeepsAccounted(s, a, c);
      } else {
        StepKeepsAccounted(s, a.thread, c);
      }
    }
  }

  /** A run with what an observer counts: the attempts each call was allowed, and those that met a locked cell. */
  datatype Tally<!T> = Tally(system: System<T>, allowed: seq<nat>, missed: map<nat, nat>)

  function Missed<T>(c: Tally<T>, call: nat): nat {
    if call in c.missed then c.missed[call] else 0
  }

  /** The thread has an attempt left and finds the cell locked. */
  predicate Misses<T>(s: System<T>, a: Action<T>) {
    a.Step? && s.locked && PcOf(s, a.thread).Trying? && PcOf(s, a.thread).attempts > 0
  }

  function Observed<T>(c: Tally<T>, a: Action<T>): Tally<T> {
    Tally(Next(c.system, a),
          if a.Call? && PcOf(c.system, a.thread).Idle? then c.allowed + [a.attempts] else c.allowed,
          if Misses(c.system, a)
          then c.missed[PcOf(c.system, a.thread).call := Missed(c, PcOf(c.system, a.thread).call) + 1]
          else c.missed)
  }

  function TallyOf<T>(data: T, actions: seq<Action<T>>): (c: Tally<T>)
    ensures c.system == RunOf(data, actions)
  {
    if actions == [] then Tally(Start(data), [], map[])
    else Observed(TallyOf(data, actions[..|actions| - 1]), actions[|actions| - 1])
  }

  /** Attempts missed and attempts left add up to those allowed; only a call that missed them all gives up. */
  ghost predicate AttemptsOk<T>(c: Tally<T>) {
    && |c.allowed| == |c.system.callers|
    && (forall k: nat {:trigger Missed(c, k)} :: k >= |c.allowed| ==> Missed(c, k) == 0)
    && (forall t: nat {:trigger PcOf(c.system, t)} :: PcTallied(c, PcOf(c.system, t)))
    && (forall k: nat {:trigger k in c.system.outcomes} :: k in c.system.outcomes && k < |c.allowed| ==>
          if c.system.outcomes[k] == GaveUp then Missed(c, k) == c.allowed[k] else Missed(c, k) < c.allowed[k])
  }

  predicate PcTallied<T>(c: Tally<T>, pc: Pc<T>) {
    !pc.Idle? && pc.call < |c.allowed| ==>
      if pc.Trying? then Missed(c, pc.call) + pc.attempts == c.allowed[pc.call]
      else Missed(c, pc.call) < c.allowed[pc.call]
  }

  lemma CallTallied<T>(c: Tally<T>, a: Action<T>)
    requires CallsOk(c.system) && AttemptsOk(c) && a.Call?
    ensures AttemptsOk(Observed(c, a))
  {
    OthersStay(c.system, a);
    var c' := Observed(c, a);
    assert Missed(c, |c.allowed|) == 0;
    assert forall k: nat {:trigger Missed(c', k)} :: Missed(c', k) == Missed(c, k);
  }

  lemma StepTallied<T>(c: Tally<T>, t: nat)
    requires CallsOk(c.system) && AttemptsOk(c)
    ensures AttemptsOk(Observed(c, Step(t)))
  {
    OthersStay(c.system, Step(t));
    var c' := Observed(c, Step(t));
    assert PcTallied(c, PcOf(c.system, t));
    assert forall k: nat {:trigger Missed(c', k)} ::
        Missed(c', k) == Missed(c, k) + if Misses(c.system, Step(t)) && k == PcOf(c.system, t).call then 1 else 0;
    forall u: nat {:trigger PcOf(c'.system, u)}
      ensures PcTallied(c', PcOf(c'.system, u))
    {
      assert PcTallied(c, PcOf(c.system, u));
    }
  }

  lemma {:induction false} RunsKeepAttempts<T>(data: T, actions: seq<Action<T>>)
    ensures Accounted(RunOf(data, actions)) && AttemptsOk(TallyOf(data, actions))
  {
    if actions != [] {
      var before, a := TallyOf(data, actions[..|actions| - 1]), actions[|actions| - 1];
      RunsKeepInvariant(data, actions[..|actions| - 1]);
      RunsKeepAttempts(data, actions[..|actions| - 1]);
      KeepsAccounted(before.system, a);
      if a.Call? {
        CallTallied(before, a);
      } else {
        StepTallied(before, a.thread);
      }
    }
  }

  /**
   In every interleaving a call whose thread has left it has an outcome: it gave up exactly when as many
   attempts as it was allowed found the cell locked, and otherwise it was applied.
   */
  lemma GivesUpExactly<T>(data: T, actions: seq<Action<T>>, call: nat)
    requires call < |RunOf(data, actions).callers|
    ensures var s, c := RunOf(data, actions), TallyOf(data, actions);
            && |c.allowed| == |s.callers|
            && (call in s.outcomes <==> PcOf(s, s.callers[call]).Idle? || PcOf(s, s.callers[call]).call != call)
            && (call in s.outcomes ==> (s.outcomes[call] == GaveUp <==> Missed(c, call) == c.allowed[call]))
            && Missed(c, call) <= c.allowed[call]
  {
    RunsKeepInvariant(data, actions);
    RunsKeepAttempts(data, actions);
    var s := RunOf(data, actions);
    assert CallAccounted(s, call);
    assert PcTallied(TallyOf(data, actions), PcOf(s, s.callers[call]));
  }

  /** The steps a thread still needs to leave its call, at most. */
  function StepsLeft<T>(pc: Pc<T>): nat {
    match pc
    case Idle => 0
    case Trying(_, _, attempts) => attempts + 4
    case Locked(_, _) => 3
    case Loaded(_, _, _) => 2
    case Stored(_) => 1
  }

  /** No call spins forever: each of its steps brings its thread closer to leaving it, and no step of another sets it back. */
  lemma StepsRunOut<T>(s: System<T>, a: Action<T>, t: nat)
    requires !PcOf(s, t).Idle?
    ensures StepsLeft(PcOf(Next(s, a), t)) <= StepsLeft(PcOf(s, t))
    ensures a == Step(t) ==> StepsLeft(PcOf(Next(s, a), t)) < StepsLeft(PcOf(s, t))
  {
    OthersStay(s, a);
  }

  // ----- the cell as one thread sees it -----

  /** What an attempt finds: the lock held by another thread, or free with the data as the others left it. */
  datatype Finding<T> = Held | Open(data: T)

  /** The first attempt that finds the lock free, or the number of attempts. */
  function FirstOpen<T>(findings: seq<Finding<T>>): (i: nat)
    ensures i <= |findings|
    ensures i < |findings| <==> exists k :: 0 <= k < |findings| && findings[k].Open?
    ensures i < |findings| ==> findings[i].Open?
    ensures forall k :: 0 <= k < i ==> findings[k].Held?
  {
    if findings == [] then 0
    else if findings[0].Open? then 0
    else
      assert forall k :: 0 < k < |findings| ==> findings[k] == findings[1..][k - 1];
      1 + FirstOpen(findings[1..])
  }

  class SpookyCell<T> {
    var locked: bool
    var data: T

    constructor (value: T)
      ensures !locked && data == value
    {
      locked := false;
      data := value;
    }

    method TryLock() returns (acquired: bool)
      modifies this
      ensures acquired == !old(locked) && locked && data == old(data)
    {
      acquired := !locked;
      if acquired {
        locked := true;
      }
    }

    /** The guard is released after the operation, so a successful call leaves the lock free. */
    method TryMutate<R>(operation: T -> (T, R)) returns (result: Result<R, EntanglementError>)
      modifies this
      ensures if old(locked) then result == Err(Busy) && locked && data == old(data)
              else !locked && (data, result) == (operation(old(data)).0, Ok(operation(old(data)).1))
    {
      var acquired := TryLock();
      if !acquired {
        return Err(Busy);
      }
      var (after, value) := operation(data);
      data := after;
      locked := false;
      return Ok(value);
    }

    method TryObserve<R>(operation: T -> R) returns (result: Result<R, EntanglementError>)
      modifies this
      ensures locked == old(locked) && data == old(data)
      ensures result == if old(locked) then Err(Busy) else Ok(operation(old(data)))
    {
      var acquired := TryLock();
      if !acquired {
        return Err(Busy);
      }
      var value := operation(data);
      locked := false;
      return Ok(value);
    }

    /** Before attempt `i` the other threads leave the cell as `findings[i]` says. */
    method MutateBounded<R>(findings: seq<Finding<T>>, operation: T -> (T, R)) returns (result: Result<R, EntanglementError>)
      modifies this
      ensures var i := FirstOpen(findings);
              if i < |findings|
              then !locked && (data, result) == (operation(findings[i].data).0, Ok(operation(findings[i].data).1))
              else result == Err(Busy) && data == old(data)
    {
      for i := 0 to |findings|
        invariant data == old(data)
        invariant forall k :: 0 <= k < i ==> findings[k].Held?
      {
        locked := findings[i].Held?;
        if findings[i].Open? {
          data := findings[i].data;
        }
        result := TryMutate(operation);
        if result.Ok? {
          return;
        }
      }
      result := Err(Busy);
    }
  }
}
