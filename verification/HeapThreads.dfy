/** The heap behind its lock: threads that allocate and free in any interleaving. */
module HeapThreads {
  import opened Machine
  import opened SlabModel
  import SlabRuns
  import Entanglement

  /** What one allocator event does to the shared heap and the blocks its callers hold. */
  ghost function Operation(arena: nat, e: SlabRuns.Event): SlabRuns.Run -> SlabRuns.Run {
    (r: SlabRuns.Run) => if HeapShape(r.heap) then SlabRuns.Step(r, arena, e) else r
  }

  /** The operation is that of an allocation or a free that found the lock. */
  ghost predicate Performs(arena: nat, operation: SlabRuns.Run -> SlabRuns.Run, e: SlabRuns.Event) {
    !e.Init? && e.lock == Acquired && operation == Operation(arena, e)
  }

  ghost predicate UnderLock(arena: nat, operation: SlabRuns.Run -> SlabRuns.Run) {
    exists e: SlabRuns.Event :: Performs(arena, operation, e)
  }

  /** The log records these events, one entry each, in this order. */
  ghost predicate Records(arena: nat, log: seq<Entanglement.Entry<SlabRuns.Run>>, events: seq<SlabRuns.Event>) {
    && |events| == |log|
    && forall i {:trigger events[i]} {:trigger log[i]} :: 0 <= i < |log| ==> Performs(arena, log[i].operation, events[i])
  }

  /** Every call is an allocation or a free. */
  ghost predicate Allocating(arena: nat, actions: seq<Entanglement.Action<SlabRuns.Run>>) {
    forall i {:trigger actions[i]} :: 0 <= i < |actions| && actions[i].Call? ==> UnderLock(arena, actions[i].operation)
  }

  ghost predicate PcOk(arena: nat, pc: Entanglement.Pc<SlabRuns.Run>) {
    pc.Trying? || pc.Locked? || pc.Loaded? ==> UnderLock(arena, pc.operation)
  }

  ghost predicate OperationsOk(arena: nat, s: Entanglement.System<SlabRuns.Run>) {
    && (forall t: nat {:trigger Entanglement.PcOf(s, t)} :: PcOk(arena, Entanglement.PcOf(s, t)))
    && (forall i {:trigger s.log[i]} :: 0 <= i < |s.log| ==> UnderLock(arena, s.log[i].operation))
  }

  lemma StepKeepsOperations(arena: nat, s: Entanglement.System<SlabRuns.Run>, a: Entanglement.Action<SlabRuns.Run>)
    requires OperationsOk(arena, s) && (a.Call? ==> UnderLock(arena, a.operation))
    ensures OperationsOk(arena, Entanglement.Next(s, a))
  {
    Entanglement.OthersStay(s, a);
    assert PcOk(arena, Entanglement.PcOf(s, a.thread));
  }

  lemma {:induction false} RunKeepsOperations(arena: nat, data: SlabRuns.Run, actions: seq<Entanglement.Action<SlabRuns.Run>>)
    requires Allocating(arena, actions)
    ensures OperationsOk(arena, Entanglement.RunOf(data, actions))
  {
    if actions != [] {
      var n := |actions| - 1;
      assert forall i :: 0 <= i < n ==> actions[..n][i] == actions[i];
      RunKeepsOperations(arena, data, actions[..n]);
      StepKeepsOperations(arena, Entanglement.RunOf(data, actions[..n]), actions[n]);
    }
  }

  lemma RunGrows(arena: nat, events: seq<SlabRuns.Event>, e: SlabRuns.Event)
    ensures SlabRuns.RunOf(arena, events + [e]) == Operation(arena, e)(SlabRuns.RunOf(arena, events))
  {
    assert (events + [e])[..|events|] == events;
  }

  lemma RecordMore(arena: nat, log: seq<Entanglement.Entry<SlabRuns.Run>>, events: seq<SlabRuns.Event>)
    returns (e: SlabRuns.Event)
    requires log != [] && Records(arena, log[..|log| - 1], events) && UnderLock(arena, log[|log| - 1].operation)
    ensures Performs(arena, log[|log| - 1].operation, e) && Records(arena, log, events + [e])
  {
    e :| Performs(arena, log[|log| - 1].operation, e);
    assert forall i :: 0 <= i < |log| - 1 ==> log[..|log| - 1][i] == log[i];
  }

  /** Replaying logged operations on a run of the heap is a longer run of the heap. */
  lemma {:induction false} ReplayIsRun(arena: nat, first: seq<SlabRuns.Event>, log: seq<Entanglement.Entry<SlabRuns.Run>>)
    returns (events: seq<SlabRuns.Event>)
    requires forall i {:trigger log[i]} :: 0 <= i < |log| ==> UnderLock(arena, log[i].operation)
    ensures Records(arena, log, events)
    ensures Entanglement.Replay(SlabRuns.RunOf(arena, first), log) == SlabRuns.RunOf(arena, first + events)
  {
    if log == [] {
      events := [];
      assert first + events == first;
    } else {
      var before := ReplayIsRun(arena, first, log[..|log| - 1]);
      var e := RecordMore(arena, log, before);
      events := before + [e];
      RunGrows(arena, first + before, e);
      assert first + before + [e] == first + events;
    }
  }

  /**
   In every interleaving of any number of allocating threads, the heap behind the lock is the heap of
   some run, one event for each operation that reached it, in that order.
   */
  lemma SharedHeapIsRun(arena: nat, actions: seq<Entanglement.Action<SlabRuns.Run>>) returns (events: seq<SlabRuns.Event>)
    requires Allocating(arena, actions)
    ensures var s := Entanglement.RunOf(SlabRuns.RunOf(arena, [SlabRuns.Init]), actions);
            && Records(arena, s.log, events)
            && s.data == SlabRuns.RunOf(arena, [SlabRuns.Init] + events)
  {
    var start := SlabRuns.RunOf(arena, [SlabRuns.Init]);
    RunKeepsOperations(arena, start, actions);
    Entanglement.Serialised(start, actions);
    events := ReplayIsRun(arena, [SlabRuns.Init], Entanglement.RunOf(start, actions).log);
  }

  /** So in every interleaving the shared heap keeps its invariant, and blocks held by different callers are disjoint. */
  lemma SharedBlocksDisjoint(arena: nat, actions: seq<Entanglement.Action<SlabRuns.Run>>, a: nat, b: nat)
    requires Allocating(arena, actions) && arena > 0
    ensures var r := Entanglement.RunOf(SlabRuns.RunOf(arena, [SlabRuns.Init]), actions).data;
            && SlabRuns.Inv(r, arena)
            && (a in r.held && b in r.held && a < b ==>
                  SlabRuns.ClassOf(r.held[a]).Some? && a + SlabRuns.Extent(r.held[a]) <= b)
  {
    var events := SharedHeapIsRun(arena, actions);
    var all := [SlabRuns.Init] + events;
    SlabRuns.RunsKeepInvariant(arena, all);
    if a in SlabRuns.RunOf(arena, all).held && b in SlabRuns.RunOf(arena, all).held && a < b {
      SlabRuns.HeldBlocksDisjoint(arena, all, a, b);
    }
  }
}
