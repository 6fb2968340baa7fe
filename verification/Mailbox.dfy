/**
 The one-slot mailboxes of the Quantum Crest page, shared by any number of threads. Every
 compare-exchange, store and copy is one step, so a sequence of actions is one interleaving.
 */
module Mailbox {
  import opened Machine

  datatype CellState = Free | Writing | Ready | Reading

  datatype Cell<T> = Cell(state: CellState, value: T)

  /** Where a thread is within `publish` (or `submit`) or `take`. */
  datatype Pc<T> =
    | Idle
    | Claiming(value: T)
    | Holding(value: T)
    | Written(value: T)
    | Polling
    | Owning
    | Copied(value: T)

  /** The cell, the threads, and the history: who holds the cell, the values published and those taken. */
  datatype System<T> = System(cell: Cell<T>, pcs: map<nat, Pc<T>>, owner: Option<nat>,
                              published: seq<T>, taken: seq<T>)

  datatype Action<T> = Publish(thread: nat, value: T) | Take(thread: nat) | Step(thread: nat)

  function PcOf<T>(s: System<T>, t: nat): Pc<T> {
    if t in s.pcs then s.pcs[t] else Idle
  }

  function Move<T>(s: System<T>, t: nat, pc: Pc<T>): System<T> {
    s.(pcs := s.pcs[t := pc])
  }

  function StepOf<T>(s: System<T>, t: nat): System<T> {
    match PcOf(s, t)
    case Idle => s
    case Claiming(value) =>
      if s.cell.state == Free then Move(s, t, Holding(value)).(cell := s.cell.(state := Writing), owner := Some(t))
      else Move(s, t, Idle) // `QuantumPortalError::Busy`
    case Holding(value) => Move(s, t, Written(value)).(cell := s.cell.(value := value))
    case Written(value) =>
      Move(s, t, Idle).(cell := s.cell.(state := Ready), owner := None, published := s.published + [value])
    case Polling =>
      if s.cell.state == Ready then Move(s, t, Owning).(cell := s.cell.(state := Reading), owner := Some(t))
      else Move(s, t, Idle) // `Ok(None)`
    case Owning => Move(s, t, Copied(s.cell.value))
    case Copied(value) =>
      Move(s, t, Idle).(cell := s.cell.(state := Free), owner := None, taken := s.taken + [value])
  }

  function Next<T>(s: System<T>, a: Action<T>): System<T> {
    match a
    case Publish(t, value) => if PcOf(s, t).Idle? then Move(s, t, Claiming(value)) else s
    case Take(t) => if PcOf(s, t).Idle? then Move(s, t, Polling) else s
    case Step(t) => StepOf(s, t)
  }

  function Start<T>(empty: T): System<T> {
    System(Cell(Free, empty), map[], None, [], [])
  }

  function RunOf<T>(empty: T, actions: seq<Action<T>>): System<T> {
    if actions == [] then Start(empty)
    else Next(RunOf(empty, actions[..|actions| - 1]), actions[|actions| - 1])
  }

  predicate IsWriter<T>(pc: Pc<T>) {
    pc.Holding? || pc.Written?
  }

  predicate IsReader<T>(pc: Pc<T>) {
    pc.Owning? || pc.Copied?
  }

  ghost predicate OwnerOk<T>(s: System<T>) {
    && (forall t: nat {:trigger PcOf(s, t)} :: IsWriter(PcOf(s, t)) || IsReader(PcOf(s, t)) <==> s.owner == Some(t))
    && (s.owner == None <==> s.cell.state in {Free, Ready})
    && (s.owner.Some? ==>
          && (IsWriter(PcOf(s, s.owner.value)) <==> s.cell.state == Writing)
          && (IsReader(PcOf(s, s.owner.value)) <==> s.cell.state == Reading))
  }

  ghost predicate ContentOk<T>(s: System<T>) {
    && s.published == (if s.cell.state in {Ready, Reading} then s.taken + [s.cell.value] else s.taken)
    && (forall t: nat {:trigger PcOf(s, t)} ::
          PcOf(s, t).Written? || PcOf(s, t).Copied? ==> PcOf(s, t).value == s.cell.value)
  }

  ghost predicate Inv<T>(s: System<T>) {
    OwnerOk(s) && ContentOk(s)
  }

  lemma StepKeepsOwner<T>(s: System<T>, a: Action<T>)
    requires Inv(s)
    ensures OwnerOk(Next(s, a))
  {
    var s' := Next(s, a);
    assert forall u: nat :: u != a.thread ==> PcOf(s', u) == PcOf(s, u);
  }

  lemma StepKeepsContent<T>(s: System<T>, a: Action<T>)
    requires Inv(s)
    ensures ContentOk(Next(s, a))
  {
    var s' := Next(s, a);
    assert forall u: nat :: u != a.thread ==> PcOf(s', u) == PcOf(s, u);
  }

  lemma {:induction false} RunsKeepInvariant<T>(empty: T, actions: seq<Action<T>>)
    ensures Inv(RunOf(empty, actions))
  {
    if actions != [] {
      var before := RunOf(empty, actions[..|actions| - 1]);
      RunsKeepInvariant(empty, actions[..|actions| - 1]);
      StepKeepsOwner(before, actions[|actions| - 1]);
      StepKeepsContent(before, actions[|actions| - 1]);
    }
  }

  /** In every interleaving at most one thread touches the value, and the cell says whether it reads or writes. */
  lemma Exclusive<T>(empty: T, actions: seq<Action<T>>, t: nat, u: nat)
    ensures var s := RunOf(empty, actions);
            && (IsWriter(PcOf(s, t)) ==> s.cell.state == Writing)
            && (IsReader(PcOf(s, t)) ==> s.cell.state == Reading)
            && ((IsWriter(PcOf(s, t)) || IsReader(PcOf(s, t))) && (IsWriter(PcOf(s, u)) || IsReader(PcOf(s, u))) ==> t == u)
  {
    RunsKeepInvariant(empty, actions);
  }

  /** In every interleaving the values taken are the values published, in order, each once, with at most one left. */
  lemma TakenInOrder<T>(empty: T, actions: seq<Action<T>>)
    ensures var s := RunOf(empty, actions);
            s.taken <= s.published && |s.published| <= |s.taken| + 1
  {
    RunsKeepInvariant(empty, actions);
  }

  /** `publish` reports `Busy` exactly when a value is waiting to be taken or a thread holds the cell. */
  lemma BusyExactly<T>(empty: T, actions: seq<Action<T>>, t: nat)
    requires PcOf(RunOf(empty, actions), t).Claiming?
    ensures var s := RunOf(empty, actions);
            PcOf(Next(s, Step(t)), t).Idle? <==>
              s.published != s.taken || exists u: nat :: IsWriter(PcOf(s, u)) || IsReader(PcOf(s, u))
  {
    RunsKeepInvariant(empty, actions);
    var s := RunOf(empty, actions);
    if s.owner.Some? {
      assert IsWriter(PcOf(s, s.owner.value)) || IsReader(PcOf(s, s.owner.value));
    }
  }

  /** `take` returns `None` exactly when every published value is taken or is being taken. */
  lemma NoneExactly<T>(empty: T, actions: seq<Action<T>>, t: nat)
    requires PcOf(RunOf(empty, actions), t).Polling?
    ensures var s := RunOf(empty, actions);
            PcOf(Next(s, Step(t)), t).Idle? <==>
              s.published == s.taken || exists u: nat :: IsReader(PcOf(s, u))
  {
    RunsKeepInvariant(empty, actions);
    var s := RunOf(empty, actions);
    if s.owner.Some? {
      assert IsWriter(PcOf(s, s.owner.value)) || IsReader(PcOf(s, s.owner.value));
    }
  }

  // ----- the mailbox as it runs -----

  datatype PortalError = Busy | Invalid

  /** `publish` without interference. */
  function PublishAlone<T>(c: Cell<T>, value: T): (Cell<T>, Result<(), PortalError>) {
    if c.state == Free then (Cell(Ready, value), Ok(())) else (c, Err(Busy))
  }

  /** `take` without interference. */
  function TakeAlone<T>(c: Cell<T>): (Cell<T>, Option<T>) {
    if c.state == Ready then (c.(state := Free), Some(c.value)) else (c, None)
  }

  /** `publish` without interference is a run of one thread's steps. */
  lemma PublishAloneIsRun<T>(s: System<T>, t: nat, value: T)
    requires PcOf(s, t).Idle? && s.owner == None
    ensures var (cell, result) := PublishAlone(s.cell, value);
            var s1 := StepOf(Next(s, Publish(t, value)), t);
            if result.Ok? then
              StepOf(StepOf(s1, t), t) == Move(s, t, Idle).(cell := cell, published := s.published + [value])
            else s1 == Move(s, t, Idle)
  {
    var s1 := StepOf(Next(s, Publish(t, value)), t);
    if s.cell.state == Free {
      assert PcOf(s1, t) == Holding(value);
      var s2 := StepOf(s1, t);
      assert PcOf(s2, t) == Written(value);
      assert StepOf(s2, t).pcs == s.pcs[t := Idle];
    } else {
      assert s1.pcs == s.pcs[t := Idle];
    }
  }

  /** `take` without interference is a run of one thread's steps. */
  lemma TakeAloneIsRun<T>(s: System<T>, t: nat)
    requires PcOf(s, t).Idle? && s.owner == None
    ensures var (cell, result) := TakeAlone(s.cell);
            var s1 := StepOf(Next(s, Take(t)), t);
            if result.Some? then
              StepOf(StepOf(s1, t), t) == Move(s, t, Idle).(cell := cell, taken := s.taken + [result.value])
            else s1 == Move(s, t, Idle)
  {
    var s1 := StepOf(Next(s, Take(t)), t);
    if s.cell.state == Ready {
      assert PcOf(s1, t) == Owning;
      var s2 := StepOf(s1, t);
      assert PcOf(s2, t) == Copied(s.cell.value);
      assert StepOf(s2, t).pcs == s.pcs[t := Idle];
    } else {
      assert s1.pcs == s.pcs[t := Idle];
    }
  }

  /**
   After every run, with no thread inside, `publish` is accepted exactly when every published value was
   taken and otherwise reports `Busy`, and `take` returns the one value not taken yet, if there is one.
   */
  lemma AnswersExactly<T>(empty: T, actions: seq<Action<T>>, value: T)
    requires RunOf(empty, actions).owner == None
    ensures var s := RunOf(empty, actions);
            var (cell, result) := PublishAlone(s.cell, value);
            && |s.taken| <= |s.published|
            && result == (if |s.taken| == |s.published| then Ok(()) else Err(Busy))
            && (if result.Ok? then TakeAlone(cell).1 == Some(value) else cell == s.cell)
            && TakeAlone(s.cell).1 == (if |s.taken| == |s.published| then None else Some(s.published[|s.taken|]))
            && TakeAlone(TakeAlone(s.cell).0).1 == None
  {
    RunsKeepInvariant(empty, actions);
  }

  class SharedCell<T> {
    var state: CellState
    var value: T

    ghost function View(): Cell<T>
      reads this
    {
      Cell(state, value)
    }

    constructor (empty: T)
      ensures View() == Cell(Free, empty)
    {
      state := Free;
      value := empty;
    }

    // One compare-exchange on the state.
    method CompareExchange(expected: CellState, wanted: CellState) returns (done: bool)
      modifies this
      ensures done == (old(state) == expected) && value == old(value)
      ensures state == if done then wanted else old(state)
    {
      done := state == expected;
      if done {
        state := wanted;
      }
    }

    method Publish(v: T) returns (result: Result<(), PortalError>)
      modifies this
      ensures (View(), result) == PublishAlone(old(View()), v)
    {
      var claimed := CompareExchange(Free, Writing);
      if !claimed {
        return Err(Busy);
      }
      value := v;
      state := Ready;
      return Ok(());
    }

    method Take() returns (result: Option<T>)
      modifies this
      ensures (View(), result) == TakeAlone(old(View()))
    {
      var claimed := CompareExchange(Ready, Reading);
      if !claimed {
        return None;
      }
      result := Some(value);
      state := Free;
    }
  }
}

/** The page that holds one mailbox per direction and the two published epochs. */
module CrestPage {
  import opened Machine
  import opened Mailbox
  import opened QuantumCrest

  class QuantumCrestPage {
    const snapshot: SharedCell<Snapshot>
    const command: SharedCell<Command>
    const reply: SharedCell<Reply>
    var kernelEpoch: u64
    var userEpoch: u64

    constructor (s: SharedCell<Snapshot>, c: SharedCell<Command>, r: SharedCell<Reply>)
      ensures snapshot == s && command == c && reply == r && kernelEpoch == 0 && userEpoch == 0
    {
      snapshot, command, reply := s, c, r;
      kernelEpoch, userEpoch := 0, 0;
    }

    /** The epoch is published before the mailbox is tried, so it moves even when the mailbox is busy. */
    method KernelPublishSnapshot(value: Snapshot) returns (result: Result<(), PortalError>)
      modifies this, snapshot
      ensures if value.epoch == 0 || value.sequence == 0
              then result == Err(Invalid) && kernelEpoch == old(kernelEpoch) && snapshot.View() == old(snapshot.View())
              else kernelEpoch == value.epoch && (snapshot.View(), result) == PublishAlone(old(snapshot.View()), value)
      ensures userEpoch == old(userEpoch)
    {
      if value.epoch == 0 || value.sequence == 0 {
        return Err(Invalid);
      }
      kernelEpoch := value.epoch;
      result := snapshot.Publish(value);
    }

    method UserSubmitCommand(value: Command) returns (result: Result<(), PortalError>)
      modifies this, command
      ensures if value.epoch == 0 || value.sequence == 0
              then result == Err(Invalid) && userEpoch == old(userEpoch) && command.View() == old(command.View())
              else userEpoch == value.epoch && (command.View(), result) == PublishAlone(old(command.View()), value)
      ensures kernelEpoch == old(kernelEpoch)
    {
      if value.epoch == 0 || value.sequence == 0 {
        return Err(Invalid);
      }
      userEpoch := value.epoch;
      result := command.Publish(value);
    }

    method KernelPublishReply(value: Reply) returns (result: Result<(), PortalError>)
      modifies reply
      ensures if value.commandSequence == 0
              then result == Err(Invalid) && reply.View() == old(reply.View())
              else (reply.View(), result) == PublishAlone(old(reply.View()), value)
    {
      if value.commandSequence == 0 {
        return Err(Invalid);
      }
      result := reply.Publish(value);
    }
  }
}
