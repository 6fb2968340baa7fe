/**
 The single-producer/single-consumer ring. Every atomic load, compare-exchange and store is one
 step, so a sequence of actions is one interleaving of the producer and the consumer.
 */
module SpscRing {
  import opened Machine
  import opened RingWindows

  const CHANNEL_DEPTH: nat := 128

  datatype ChannelMessage = ChannelMessage(capability: u64, tag: u32, sequence: u32, payload: seq<u8>)

  datatype SlotState = Empty | Writing | Ready | Reading

  datatype Slot = Slot(state: SlotState, message: ChannelMessage)

  /** The shared memory: two cursors and the slots. */
  datatype Ring = Ring(producer: nat, consumer: nat, slots: seq<Slot>)

  /** Where the producer is within `send`. */
  datatype SendPc =
    | SendIdle
    | SendLoaded(message: ChannelMessage, head: nat)
    | SendClaimed(message: ChannelMessage, head: nat)
    | SendWritten(message: ChannelMessage, head: nat)
    | SendPublished(message: ChannelMessage, head: nat)

  /** Where the consumer is within `recv` or `is_empty`. */
  datatype RecvPc =
    | RecvIdle
    | RecvLoaded(tail: nat)
    | RecvClaimed(tail: nat)
    | RecvCopied(tail: nat, message: ChannelMessage)
    | RecvReleased(tail: nat, message: ChannelMessage)
    | ProbeLoaded(tail: nat)

  /**
   The ring, both agents, and the history: messages made ready, messages whose `send` returned `Ok`,
   and messages returned by `recv`.
   */
  datatype System = System(ring: Ring, send: SendPc, recv: RecvPc,
                           published: seq<ChannelMessage>, accepted: seq<ChannelMessage>,
                           received: seq<ChannelMessage>)

  datatype Action = StartSend(message: ChannelMessage) | Produce | StartRecv | StartProbe | Consume

  predicate RingShape(r: Ring) {
    |r.slots| == CHANNEL_DEPTH
  }

  function SetState(r: Ring, i: nat, state: SlotState): Ring
    requires i < |r.slots|
  {
    r.(slots := r.slots[i := r.slots[i].(state := state)])
  }

  function SetMessage(r: Ring, i: nat, message: ChannelMessage): Ring
    requires i < |r.slots|
  {
    r.(slots := r.slots[i := r.slots[i].(message := message)])
  }

  /** One step of `send`. */
  function ProducerStep(s: System): (s': System)
    requires RingShape(s.ring)
    ensures RingShape(s'.ring)
  {
    match s.send
    case SendIdle => s
    case SendLoaded(message, head) =>
      if s.ring.slots[At(head, CHANNEL_DEPTH)].state == Empty then
        s.(ring := SetState(s.ring, At(head, CHANNEL_DEPTH), Writing), send := SendClaimed(message, head))
      else s.(send := SendIdle) // `ChannelError::Full`
    case SendClaimed(message, head) =>
      s.(ring := SetMessage(s.ring, At(head, CHANNEL_DEPTH), message), send := SendWritten(message, head))
    case SendWritten(message, head) =>
      s.(ring := SetState(s.ring, At(head, CHANNEL_DEPTH), Ready), send := SendPublished(message, head),
        published := s.published + [message])
    case SendPublished(message, head) =>
      s.(ring := s.ring.(producer := At(head + 1, CHANNEL_DEPTH)), send := SendIdle, accepted := s.accepted + [message])
  }

  /** One step of `recv` or `is_empty`. */
  function ConsumerStep(s: System): (s': System)
    requires RingShape(s.ring)
    ensures RingShape(s'.ring)
  {
    match s.recv
    case RecvIdle => s
    case RecvLoaded(tail) =>
      if s.ring.slots[At(tail, CHANNEL_DEPTH)].state == Ready then
        s.(ring := SetState(s.ring, At(tail, CHANNEL_DEPTH), Reading), recv := RecvClaimed(tail))
      else s.(recv := RecvIdle) // `None`
    case RecvClaimed(tail) =>
      s.(recv := RecvCopied(tail, s.ring.slots[At(tail, CHANNEL_DEPTH)].message))
    case RecvCopied(tail, message) =>
      s.(ring := SetState(s.ring, At(tail, CHANNEL_DEPTH), Empty), recv := RecvReleased(tail, message))
    case RecvReleased(tail, message) =>
      s.(ring := s.ring.(consumer := At(tail + 1, CHANNEL_DEPTH)), recv := RecvIdle, received := s.received + [message])
    case ProbeLoaded(tail) =>
      s.(recv := RecvIdle) // returns `slots[tail].state != READY`
  }

  function Next(s: System, a: Action): (s': System)
    requires RingShape(s.ring)
    ensures RingShape(s'.ring)
  {
    match a
    case StartSend(message) =>
      if s.send == SendIdle then s.(send := SendLoaded(message, s.ring.producer)) else s
    case Produce => ProducerStep(s)
    case StartRecv =>
      if s.recv == RecvIdle then s.(recv := RecvLoaded(s.ring.consumer)) else s
    case StartProbe =>
      if s.recv == RecvIdle then s.(recv := ProbeLoaded(s.ring.consumer)) else s
    case Consume => ConsumerStep(s)
  }

  function EmptyMessage(): ChannelMessage {
    ChannelMessage(0, 0, 0, seq(48, _ => 0))
  }

  function EmptyRing(): Ring {
    Ring(0, 0, seq(CHANNEL_DEPTH, _ => Slot(Empty, EmptyMessage())))
  }

  function Start(): System {
    System(EmptyRing(), SendIdle, RecvIdle, [], [], [])
  }

  function RunOf(actions: seq<Action>): (s: System)
    ensures RingShape(s.ring)
  {
    if actions == [] then Start()
    else Next(RunOf(actions[..|actions| - 1]), actions[|actions| - 1])
  }

  // ----- the invariant -----

  /** How many slots the consumer has given back. */
  function Taken(s: System): nat {
    |s.received| + if s.recv.RecvReleased? then 1 else 0
  }

  /** The messages made ready and not yet given back: what the ring holds. */
  function Queue(s: System): seq<ChannelMessage>
    requires Taken(s) <= |s.published|
  {
    s.published[Taken(s)..]
  }

  predicate IsWriting(s: System) {
    s.send.SendClaimed? || s.send.SendWritten?
  }

  predicate IsReading(s: System) {
    s.recv.RecvClaimed? || s.recv.RecvCopied?
  }

  /** The state the slot of the `k`-th message should be in, for `k` in the current window. */
  function Expected(s: System, k: nat): SlotState {
    if k < |s.published| then (if k == Taken(s) && IsReading(s) then Reading else Ready)
    else if k == |s.published| && IsWriting(s) then Writing
    else Empty
  }

  ghost predicate SlotsOk(s: System)
    requires RingShape(s.ring)
  {
    && (forall k: nat {:trigger At(k, CHANNEL_DEPTH)} :: Taken(s) <= k < Taken(s) + CHANNEL_DEPTH ==>
          s.ring.slots[At(k, CHANNEL_DEPTH)].state == Expected(s, k))
    && (forall k: nat {:trigger At(k, CHANNEL_DEPTH)} :: Taken(s) <= k < |s.published| ==>
          s.ring.slots[At(k, CHANNEL_DEPTH)].message == s.published[k])
  }

  ghost predicate ProducerOk(s: System)
    requires RingShape(s.ring)
  {
    var n := |s.published|;
    match s.send
    case SendIdle => s.ring.producer == At(n, CHANNEL_DEPTH)
    case SendLoaded(_, head) => head == s.ring.producer == At(n, CHANNEL_DEPTH)
    case SendClaimed(_, head) => head == s.ring.producer == At(n, CHANNEL_DEPTH)
    case SendWritten(message, head) => head == s.ring.producer == At(n, CHANNEL_DEPTH) && s.ring.slots[At(n, CHANNEL_DEPTH)].message == message
    case SendPublished(_, head) => n > 0 && head == s.ring.producer == At(n - 1, CHANNEL_DEPTH)
  }

  ghost predicate ConsumerOk(s: System) {
    var n := Taken(s);
    match s.recv
    case RecvIdle => s.ring.consumer == At(n, CHANNEL_DEPTH)
    case RecvLoaded(tail) => tail == s.ring.consumer == At(n, CHANNEL_DEPTH)
    case RecvClaimed(tail) => tail == s.ring.consumer == At(n, CHANNEL_DEPTH)
    case RecvCopied(tail, message) =>
      tail == s.ring.consumer == At(n, CHANNEL_DEPTH) && n < |s.published| && message == s.published[n]
    case RecvReleased(tail, message) =>
      tail == s.ring.consumer == At(n - 1, CHANNEL_DEPTH) && n <= |s.published| && message == s.published[n - 1]
    case ProbeLoaded(tail) => tail == s.ring.consumer == At(n, CHANNEL_DEPTH)
  }

  ghost predicate Inv(s: System) {
    && RingShape(s.ring)
    && Taken(s) <= |s.published| <= Taken(s) + CHANNEL_DEPTH
    && (IsWriting(s) ==> |s.published| < Taken(s) + CHANNEL_DEPTH)
    && (IsReading(s) ==> Taken(s) < |s.published|)
    && s.published == s.accepted + (if s.send.SendPublished? then [s.send.message] else [])
    && s.received == s.published[..|s.received|]
    && ProducerOk(s)
    && ConsumerOk(s)
    && SlotsOk(s)
  }

  lemma StartInv()
    ensures Inv(Start())
  {
  }

  /** `slots[head]` is empty for the producer exactly when the window has room. */
  lemma RoomForNext(s: System)
    requires Inv(s) && !IsWriting(s)
    ensures s.ring.slots[At(|s.published|, CHANNEL_DEPTH)].state == Empty <==> |s.published| < Taken(s) + CHANNEL_DEPTH
  {
    AtIdempotent(CHANNEL_DEPTH, Taken(s));
    assert s.ring.slots[At(Taken(s), CHANNEL_DEPTH)].state == Expected(s, Taken(s));
  }

  lemma ClaimKeeps(s: System)
    requires Inv(s) && s.send.SendLoaded?
    ensures Inv(ProducerStep(s))
  {
    var n := |s.published|;
    AtIdempotent(CHANNEL_DEPTH, n);
    RoomForNext(s);
    if s.ring.slots[At(n, CHANNEL_DEPTH)].state == Empty {
      Replaced(CHANNEL_DEPTH, s.ring.slots, Taken(s), n, s.ring.slots[At(n, CHANNEL_DEPTH)].(state := Writing));
    }
  }

  lemma WriteKeeps(s: System)
    requires Inv(s) && s.send.SendClaimed?
    ensures Inv(ProducerStep(s))
  {
    var n := |s.published|;
    AtIdempotent(CHANNEL_DEPTH, n);
    Replaced(CHANNEL_DEPTH, s.ring.slots, Taken(s), n, s.ring.slots[At(n, CHANNEL_DEPTH)].(message := s.send.message));
  }

  lemma PublishKeeps(s: System)
    requires Inv(s) && s.send.SendWritten?
    ensures Inv(ProducerStep(s))
  {
    var n := |s.published|;
    AtIdempotent(CHANNEL_DEPTH, n);
    Replaced(CHANNEL_DEPTH, s.ring.slots, Taken(s), n, s.ring.slots[At(n, CHANNEL_DEPTH)].(state := Ready));
  }

  lemma ProducerKeeps(s: System)
    requires Inv(s)
    ensures Inv(ProducerStep(s))
  {
    match s.send
    case SendIdle =>
    case SendLoaded(_, _) => ClaimKeeps(s);
    case SendClaimed(_, _) => WriteKeeps(s);
    case SendWritten(_, _) => PublishKeeps(s);
    case SendPublished(_, _) => AtIdempotent(CHANNEL_DEPTH, |s.published| - 1);
  }

  lemma BeginReadKeeps(s: System)
    requires Inv(s) && s.recv.RecvLoaded? && s.ring.slots[At(s.recv.tail, CHANNEL_DEPTH)].state == Ready
    ensures Inv(ConsumerStep(s))
  {
    var n := Taken(s);
    AtIdempotent(CHANNEL_DEPTH, n);
    Replaced(CHANNEL_DEPTH, s.ring.slots, n, n, s.ring.slots[At(n, CHANNEL_DEPTH)].(state := Reading));
  }

  lemma NoReadKeeps(s: System)
    requires Inv(s) && s.recv.RecvLoaded? && s.ring.slots[At(s.recv.tail, CHANNEL_DEPTH)].state != Ready
    ensures Inv(ConsumerStep(s))
  {
  }

  lemma ReleaseKeeps(s: System)
    requires Inv(s) && s.recv.RecvCopied?
    ensures Inv(ConsumerStep(s))
  {
    var n := Taken(s);
    AtIdempotent(CHANNEL_DEPTH, n);
    Replaced(CHANNEL_DEPTH, s.ring.slots, n, n, s.ring.slots[At(n, CHANNEL_DEPTH)].(state := Empty));
  }

  lemma CopyKeeps(s: System)
    requires Inv(s) && s.recv.RecvClaimed?
    ensures Inv(ConsumerStep(s))
  {
    AtIdempotent(CHANNEL_DEPTH, Taken(s));
  }

  lemma ReturnKeeps(s: System)
    requires Inv(s) && s.recv.RecvReleased?
    ensures Inv(ConsumerStep(s))
  {
    AtIdempotent(CHANNEL_DEPTH, Taken(s) - 1);
    var s' := ConsumerStep(s);
    assert Taken(s') == Taken(s) && s'.ring.slots == s.ring.slots;
    assert forall k: nat :: Expected(s', k) == Expected(s, k);
  }

  lemma ConsumerKeeps(s: System)
    requires Inv(s)
    ensures Inv(ConsumerStep(s))
  {
    match s.recv
    case RecvIdle =>
    case RecvLoaded(tail) =>
      if s.ring.slots[At(tail, CHANNEL_DEPTH)].state == Ready {
        BeginReadKeeps(s);
      } else {
        NoReadKeeps(s);
      }
    case RecvClaimed(_) => CopyKeeps(s);
    case RecvCopied(_, _) => ReleaseKeeps(s);
    case RecvReleased(_, _) => ReturnKeeps(s);
    case ProbeLoaded(_) =>
  }

  lemma StartSendKeeps(s: System, message: ChannelMessage)
    requires Inv(s)
    ensures Inv(Next(s, StartSend(message)))
  {
  }

  lemma StartRecvKeeps(s: System)
    requires Inv(s)
    ensures Inv(Next(s, StartRecv))
  {
  }

  lemma StartProbeKeeps(s: System)
    requires Inv(s)
    ensures Inv(Next(s, StartProbe))
  {
  }

  lemma StepKeeps(s: System, a: Action)
    requires Inv(s)
    ensures Inv(Next(s, a))
  {
    match a
    case Produce => ProducerKeeps(s);
    case Consume => ConsumerKeeps(s);
    case StartSend(message) => StartSendKeeps(s, message);
    case StartRecv => StartRecvKeeps(s);
    case StartProbe => StartProbeKeeps(s);
  }

  lemma {:induction false} RunsKeepInvariant(actions: seq<Action>)
    ensures Inv(RunOf(actions))
  {
    if actions == [] {
      StartInv();
    } else {
      RunsKeepInvariant(actions[..|actions| - 1]);
      StepKeeps(RunOf(actions[..|actions| - 1]), actions[|actions| - 1]);
    }
  }

  // ----- what the ring promises -----

  /** In every interleaving the received messages are the first accepted ones, in order, each once. */
  lemma DeliveredInOrder(actions: seq<Action>)
    ensures var s := RunOf(actions);
            && s.accepted <= s.published && s.received <= s.published
            && |s.published| <= |s.accepted| + 1 && |s.published| <= |s.received| + 129
  {
    RunsKeepInvariant(actions);
  }

  /** In every interleaving no slot is written while it is read. */
  lemma Exclusive(actions: seq<Action>)
    ensures var s := RunOf(actions);
            IsWriting(s) && IsReading(s) ==>
              && At(s.send.head, CHANNEL_DEPTH) != At(s.recv.tail, CHANNEL_DEPTH)
              && s.ring.slots[At(s.send.head, CHANNEL_DEPTH)].state == Writing
              && s.ring.slots[At(s.recv.tail, CHANNEL_DEPTH)].state == Reading
  {
    RunsKeepInvariant(actions);
    var s := RunOf(actions);
    if IsWriting(s) && IsReading(s) {
      AtIdempotent(CHANNEL_DEPTH, |s.published|);
      AtIdempotent(CHANNEL_DEPTH, Taken(s));
      WindowApart(CHANNEL_DEPTH, Taken(s), |s.published|, Taken(s));
    }
  }

  /** `send` reports `Full` exactly when all slots are occupied, the oldest possibly being read. */
  lemma FullExactly(actions: seq<Action>)
    requires RunOf(actions).send.SendLoaded?
    ensures var s := RunOf(actions);
            && (Next(s, Produce).send == SendIdle <==> |s.published| == Taken(s) + 128)
            && (Next(s, Produce).send == SendIdle <==>
                forall i :: 0 <= i < 128 ==> s.ring.slots[i].state in {Ready, Reading})
  {
    RunsKeepInvariant(actions);
    var s := RunOf(actions);
    var n := |s.published|;
    RoomForNext(s);
    AtIdempotent(CHANNEL_DEPTH, n);
    if n == Taken(s) + CHANNEL_DEPTH {
      forall i | 0 <= i < CHANNEL_DEPTH
        ensures s.ring.slots[i].state in {Ready, Reading}
      {
        var k := ItemAt(CHANNEL_DEPTH, Taken(s), i);
        assert s.ring.slots[At(k, CHANNEL_DEPTH)].state == Expected(s, k);
      }
    } else {
      assert s.ring.slots[At(n, CHANNEL_DEPTH)].state == Empty;
    }
  }

  /** `recv` returns `None`, and `is_empty` returns true, exactly when no published message is unread. */
  lemma NoneExactly(actions: seq<Action>)
    ensures var s := RunOf(actions);
            s.recv.RecvLoaded? ==>
              (Next(s, Consume).recv == RecvIdle <==> s.received == s.published)
    ensures var s := RunOf(actions);
            s.recv.ProbeLoaded? ==>
              (s.ring.slots[At(s.recv.tail, CHANNEL_DEPTH)].state != Ready <==> s.received == s.published)
  {
    RunsKeepInvariant(actions);
    var s := RunOf(actions);
    AtIdempotent(CHANNEL_DEPTH, Taken(s));
    assert s.ring.slots[At(Taken(s), CHANNEL_DEPTH)].state == Expected(s, Taken(s));
  }

  /** The queue of unread messages after an action: the agents' other steps leave it alone. */
  function QueueAfter(s: System, a: Action): seq<ChannelMessage>
    requires Taken(s) <= |s.published|
  {
    if a.Produce? && s.send.SendWritten? then Queue(s) + [s.send.message]
    else if a.Consume? && s.recv.RecvCopied? && Queue(s) != [] then Queue(s)[1..]
    else Queue(s)
  }

  lemma ProduceRefines(s: System)
    requires Inv(s)
    ensures Taken(ProducerStep(s)) == Taken(s) && |s.published| <= |ProducerStep(s).published|
    ensures Queue(ProducerStep(s)) == QueueAfter(s, Produce)
  {
    if s.send.SendWritten? {
      assert (s.published + [s.send.message])[Taken(s)..] == s.published[Taken(s)..] + [s.send.message];
    }
  }

  lemma ConsumeRefines(s: System)
    requires Inv(s)
    ensures Taken(ConsumerStep(s)) <= |s.published| && ConsumerStep(s).published == s.published
    ensures Queue(ConsumerStep(s)) == QueueAfter(s, Consume)
    ensures s.recv.RecvCopied? ==> Queue(s) == [s.recv.message] + Queue(ConsumerStep(s))
  {
    if s.recv.RecvCopied? {
      TakeRefines(s);
    }
  }

  lemma TakeRefines(s: System)
    requires Inv(s) && s.recv.RecvCopied?
    ensures Taken(ConsumerStep(s)) == Taken(s) + 1 <= |s.published| && ConsumerStep(s).published == s.published
    ensures Queue(s) == [s.recv.message] + Queue(ConsumerStep(s))
  {
  }

  /** In every interleaving the ring is a bounded queue: each step enqueues one, dequeues one, or does neither. */
  lemma RefinesQueue(actions: seq<Action>, a: Action)
    ensures var s := RunOf(actions);
            var s' := Next(s, a);
            && Taken(s) <= |s.published| && Taken(s') <= |s'.published|
            && |Queue(s)| <= 128
            && Queue(s') == QueueAfter(s, a)
            && (a.Consume? && s.recv.RecvCopied? ==> Queue(s) == [s.recv.message] + Queue(s'))
  {
    RunsKeepInvariant(actions);
    var s := RunOf(actions);
    match a
    case Produce => ProduceRefines(s);
    case Consume => ConsumeRefines(s);
    case _ =>
  }

  // ----- the ring as it runs -----

  datatype ChannelError = Full

  /** `send` without interference: the producer's steps one after the other. */
  function SendAlone(r: Ring, message: ChannelMessage): (Ring, Result<(), ChannelError>)
    requires RingShape(r)
  {
    var i := At(r.producer, CHANNEL_DEPTH);
    if r.slots[i].state != Empty then (r, Err(Full))
    else (SetState(SetMessage(SetState(r, i, Writing), i, message), i, Ready).(producer := At(r.producer + 1, CHANNEL_DEPTH)), Ok(()))
  }

  /** `recv` without interference: the consumer's steps one after the other. */
  function RecvAlone(r: Ring): (Ring, Option<ChannelMessage>)
    requires RingShape(r)
  {
    var i := At(r.consumer, CHANNEL_DEPTH);
    if r.slots[i].state != Ready then (r, None)
    else (SetState(SetState(r, i, Reading), i, Empty).(consumer := At(r.consumer + 1, CHANNEL_DEPTH)), Some(r.slots[i].message))
  }

  /** `send` without interference is a run of the producer's steps. */
  lemma SendAloneIsRun(s: System, message: ChannelMessage)
    requires RingShape(s.ring) && s.send == SendIdle
    ensures var (r, result) := SendAlone(s.ring, message);
            var s1 := Next(Next(s, StartSend(message)), Produce);
            if result.Ok? then
              ProducerStep(ProducerStep(ProducerStep(s1))) ==
                s.(ring := r, published := s.published + [message], accepted := s.accepted + [message])
            else s1 == s
  {
  }

  /** `recv` without interference is a run of the consumer's steps. */
  lemma RecvAloneIsRun(s: System)
    requires RingShape(s.ring) && s.recv == RecvIdle
    ensures var (r, result) := RecvAlone(s.ring);
            var s1 := Next(Next(s, StartRecv), Consume);
            if result.Some? then
              ConsumerStep(ConsumerStep(ConsumerStep(s1))) == s.(ring := r, received := s.received + [result.value])
            else s1 == s
  {
  }

  /** `is_empty` without interference looks at the slot a `recv` would take from, and leaves everything as it was. */
  lemma ProbeAloneIsRun(s: System)
    requires RingShape(s.ring) && s.recv == RecvIdle
    ensures var s1 := Next(s, StartProbe);
            && s1.recv.ProbeLoaded? && Next(s1, Consume) == s
            && (s.ring.slots[At(s1.recv.tail, CHANNEL_DEPTH)].state != Ready <==> RecvAlone(s.ring).1 == None)
  {
  }

  /** After every run a `send` succeeds exactly when fewer than 128 messages are made ready and not given back. */
  lemma SendsExactly(actions: seq<Action>, message: ChannelMessage)
    requires RunOf(actions).send == SendIdle
    ensures var s := RunOf(actions);
            SendAlone(s.ring, message).1 == if |s.published| < Taken(s) + 128 then Ok(()) else Err(Full)
  {
    RunsKeepInvariant(actions);
    RoomForNext(RunOf(actions));
    AtIdempotent(CHANNEL_DEPTH, |RunOf(actions).published|);
  }

  /** After every run a `recv` returns the oldest message not yet received, or nothing exactly when there is none. */
  lemma ReceivesExactly(actions: seq<Action>)
    requires RunOf(actions).recv == RecvIdle
    ensures var s := RunOf(actions);
            && |s.received| <= |s.published|
            && RecvAlone(s.ring).1 ==
                 if |s.received| == |s.published| then None else Some(s.published[|s.received|])
  {
    RunsKeepInvariant(actions);
    var s := RunOf(actions);
    AtIdempotent(CHANNEL_DEPTH, Taken(s));
    assert s.ring.slots[At(Taken(s), CHANNEL_DEPTH)].state == Expected(s, Taken(s));
  }

  class SharedRing {
    var producer: nat
    var consumer: nat
    const slots: array<Slot>

    ghost predicate Valid()
      reads this
    {
      slots.Length == CHANNEL_DEPTH
    }

    ghost function View(): Ring
      reads this, slots
    {
      Ring(producer, consumer, slots[..])
    }

    constructor ()
      ensures Valid() && fresh(slots)
      ensures View() == EmptyRing()
    {
      producer := 0;
      consumer := 0;
      slots := new Slot[CHANNEL_DEPTH](_ => Slot(Empty, EmptyMessage()));
    }

    // One compare-exchange on a slot's state.
    method CompareExchange(i: nat, expected: SlotState, wanted: SlotState) returns (done: bool)
      requires Valid() && i < CHANNEL_DEPTH
      modifies slots
      ensures done == (old(slots[i].state) == expected)
      ensures View() == if done then SetState(old(View()), i, wanted) else old(View())
    {
      done := slots[i].state == expected;
      if done {
        slots[i] := slots[i].(state := wanted);
      }
    }

    method Send(message: ChannelMessage) returns (result: Result<(), ChannelError>)
      requires Valid()
      modifies this, slots
      ensures Valid()
      ensures (View(), result) == SendAlone(old(View()), message)
    {
      var head := producer;
      var i := At(head, CHANNEL_DEPTH);
      var claimed := CompareExchange(i, Empty, Writing);
      if !claimed {
        return Err(Full);
      }
      slots[i] := slots[i].(message := message);
      slots[i] := slots[i].(state := Ready);
      producer := At(head + 1, CHANNEL_DEPTH);
      return Ok(());
    }

    method Recv() returns (result: Option<ChannelMessage>)
      requires Valid()
      modifies this, slots
      ensures Valid()
      ensures (View(), result) == RecvAlone(old(View()))
    {
      var tail := consumer;
      var i := At(tail, CHANNEL_DEPTH);
      var claimed := CompareExchange(i, Ready, Reading);
      if !claimed {
        return None;
      }
      var message := slots[i].message;
      slots[i] := slots[i].(state := Empty);
      consumer := At(tail + 1, CHANNEL_DEPTH);
      return Some(message);
    }

    method IsEmpty() returns (empty: bool)
      requires Valid()
      ensures empty <==> RecvAlone(View()).1 == None
    {
      var tail := consumer;
      empty := slots[At(tail, CHANNEL_DEPTH)].state != Ready;
    }
  }
}
