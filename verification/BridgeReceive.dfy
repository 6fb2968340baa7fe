/**
 The receive half of the DMA bridge. The device fills descriptors in ring order; the receiver
 claims the oldest ready one and hands it back when the packet guard is dropped. Every atomic
 operation is one step, so a sequence of actions is one interleaving of device and receiver.
 */
module BridgeReceive {
  import opened Machine
  import opened RingWindows

  const RING_ENTRIES: nat := 256
  const MAXIMUM_FRAME_BYTES: nat := 2048

  datatype DescriptorState = DeviceOwned | Ready | UserHeld

  datatype Descriptor = Descriptor(buffer: seq<u8>, length: u32, state: DescriptorState)

  datatype Ring = Ring(consumer: nat, descriptors: seq<Descriptor>)

  /** What the device left in a descriptor when it made it ready. */
  datatype Frame = Frame(buffer: seq<u8>, length: u32)

  /** A live `ReceivedPacket`. */
  datatype Guard = Guard(index: nat, length: nat)

  datatype Outcome = Packet(bytes: seq<u8>) | InvalidHardwareLength

  datatype ReceivePc =
    | Idle
    | Loaded(index: nat)
    | Claimed(index: nat)
    | RejectClear(index: nat)
    | RejectRelease(index: nat)
    | RejectAdvance(index: nat)
    | DropClear(index: nat)
    | DropRelease(index: nat)
    | DropAdvance(index: nat)

  /**
   The shared memory, both agents, and the history: frames the device made ready, how many
   descriptors were handed back, and what `try_receive` made of each frame it claimed.
   */
  datatype System = System(ring: Ring, filling: bool, pc: ReceivePc, guards: seq<Guard>,
                           published: seq<Frame>, released: nat, outcomes: seq<Outcome>)

  datatype Action =
    | DeviceBegin
    | DeviceWrite(buffer: seq<u8>, length: u32)
    | DevicePublish
    | TryReceive
    | Drop(guard: nat)
    | Advance

  predicate RingShape(r: Ring) {
    && |r.descriptors| == RING_ENTRIES
    && forall i :: 0 <= i < RING_ENTRIES ==> |r.descriptors[i].buffer| == MAXIMUM_FRAME_BYTES
  }

  function SetState(r: Ring, i: nat, state: DescriptorState): Ring
    requires i < |r.descriptors|
  {
    r.(descriptors := r.descriptors[i := r.descriptors[i].(state := state)])
  }

  function SetLength(r: Ring, i: nat, length: u32): Ring
    requires i < |r.descriptors|
  {
    r.(descriptors := r.descriptors[i := r.descriptors[i].(length := length)])
  }

  /** What the guard shows of its descriptor. */
  function Bytes(r: Ring, g: Guard): seq<u8>
    requires RingShape(r) && g.length <= MAXIMUM_FRAME_BYTES
  {
    r.descriptors[At(g.index, RING_ENTRIES)].buffer[..g.length]
  }

  /** What `try_receive` should make of a frame. */
  function OutcomeOf(f: Frame): Outcome
    requires |f.buffer| == MAXIMUM_FRAME_BYTES
  {
    if f.length > MAXIMUM_FRAME_BYTES then InvalidHardwareLength else Packet(f.buffer[..f.length])
  }

  /** One step of the device, which works on descriptor `|published|` in ring order. */
  function DeviceStep(s: System, a: Action): (s': System)
    requires RingShape(s.ring)
    ensures RingShape(s'.ring)
  {
    var i := At(|s.published|, RING_ENTRIES);
    var d := s.ring.descriptors[i];
    match a
    case DeviceBegin =>
      if d.state == DeviceOwned then s.(filling := true) else s
    case DeviceWrite(buffer, length) =>
      if s.filling && |buffer| == MAXIMUM_FRAME_BYTES then
        s.(ring := s.ring.(descriptors := s.ring.descriptors[i := d.(buffer := buffer, length := length)]))
      else s
    case DevicePublish =>
      if s.filling then
        s.(ring := SetState(s.ring, i, Ready), filling := false, published := s.published + [Frame(d.buffer, d.length)])
      else s
    case _ => s
  }

  /** One step of `try_receive` or of dropping a guard. */
  function ReceiverStep(s: System): (s': System)
    requires RingShape(s.ring)
    ensures RingShape(s'.ring)
  {
    match s.pc
    case Idle => s
    case Loaded(index) =>
      if s.ring.descriptors[At(index, RING_ENTRIES)].state == Ready then
        s.(ring := SetState(s.ring, At(index, RING_ENTRIES), UserHeld), pc := Claimed(index))
      else s.(pc := Idle) // `Ok(None)`
    case Claimed(index) =>
      var d := s.ring.descriptors[At(index, RING_ENTRIES)];
      if d.length > MAXIMUM_FRAME_BYTES then
        s.(pc := RejectClear(index), outcomes := s.outcomes + [InvalidHardwareLength])
      else
        s.(pc := Idle, guards := s.guards + [Guard(index, d.length)],
           outcomes := s.outcomes + [Packet(d.buffer[..d.length])])
    case RejectClear(index) => s.(ring := SetLength(s.ring, At(index, RING_ENTRIES), 0), pc := RejectRelease(index))
    case RejectRelease(index) =>
      s.(ring := SetState(s.ring, At(index, RING_ENTRIES), DeviceOwned), pc := RejectAdvance(index), released := s.released + 1)
    case RejectAdvance(index) => s.(ring := s.ring.(consumer := At(index + 1, RING_ENTRIES)), pc := Idle)
    case DropClear(index) => s.(ring := SetLength(s.ring, At(index, RING_ENTRIES), 0), pc := DropRelease(index))
    case DropRelease(index) =>
      s.(ring := SetState(s.ring, At(index, RING_ENTRIES), DeviceOwned), pc := DropAdvance(index), released := s.released + 1)
    case DropAdvance(index) => s.(ring := s.ring.(consumer := At(index + 1, RING_ENTRIES)), pc := Idle)
  }

  function Next(s: System, a: Action): (s': System)
    requires RingShape(s.ring)
    ensures RingShape(s'.ring)
  {
    match a
    case TryReceive =>
      if s.pc == Idle then s.(pc := Loaded(At(s.ring.consumer, RING_ENTRIES))) else s
    case Drop(g) =>
      if s.pc == Idle && g < |s.guards| then
        s.(pc := DropClear(s.guards[g].index), guards := s.guards[..g] + s.guards[g + 1..])
      else s
    case Advance => ReceiverStep(s)
    case _ => DeviceStep(s, a)
  }

  function EmptyRing(): Ring {
    Ring(0, seq(RING_ENTRIES, _ => Descriptor(seq(MAXIMUM_FRAME_BYTES, _ => 0), 0, DeviceOwned)))
  }

  function Start(): System {
    System(EmptyRing(), false, Idle, [], [], 0, [])
  }

  function RunOf(actions: seq<Action>): (s: System)
    ensures RingShape(s.ring)
  {
    if actions == [] then Start()
    else Next(RunOf(actions[..|actions| - 1]), actions[|actions| - 1])
  }

  // ----- the invariant -----

  /** The receiver has read the length of the descriptor it holds. */
  predicate Classified(s: System) {
    s.guards != [] || s.pc.RejectClear? || s.pc.RejectRelease? || s.pc.DropClear? || s.pc.DropRelease?
  }

  /** The receiver holds a descriptor. */
  predicate Engaged(s: System) {
    s.pc.Claimed? || Classified(s)
  }

  predicate Cleared(s: System) {
    s.pc.RejectRelease? || s.pc.DropRelease?
  }

  /** The state the descriptor of the `k`-th frame should be in, for `k` in the current window. */
  function Expected(s: System, k: nat): DescriptorState {
    if k >= |s.published| then DeviceOwned
    else if k == s.released && Engaged(s) then UserHeld
    else Ready
  }

  ghost predicate DescriptorsOk(s: System)
    requires RingShape(s.ring)
  {
    && (forall k: nat {:trigger At(k, RING_ENTRIES)} :: s.released <= k < s.released + RING_ENTRIES ==>
          s.ring.descriptors[At(k, RING_ENTRIES)].state == Expected(s, k))
    && (forall k: nat {:trigger At(k, RING_ENTRIES)} :: s.released <= k < |s.published| ==>
          s.ring.descriptors[At(k, RING_ENTRIES)].buffer == s.published[k].buffer)
    && (forall k: nat {:trigger At(k, RING_ENTRIES)} :: s.released <= k < |s.published| ==>
          (k == s.released && Cleared(s)) || s.ring.descriptors[At(k, RING_ENTRIES)].length == s.published[k].length)
  }

  ghost predicate OutcomesOk(s: System) {
    && (forall k :: 0 <= k < |s.published| ==> |s.published[k].buffer| == MAXIMUM_FRAME_BYTES)
    && |s.outcomes| == s.released + (if Classified(s) then 1 else 0) <= |s.published|
    && (forall k :: 0 <= k < |s.outcomes| ==> s.outcomes[k] == OutcomeOf(s.published[k]))
  }

  ghost predicate ReceiverOk(s: System) {
    var n := s.released;
    && |s.guards| <= 1
    && (s.guards != [] ==> (s.pc.Idle? || s.pc.Loaded?))
    && (s.guards != [] ==>
          && s.guards[0].index == At(n, RING_ENTRIES) && n < |s.published|
          && s.guards[0].length == s.published[n].length <= MAXIMUM_FRAME_BYTES)
    && (s.pc.Idle? ==> s.ring.consumer == At(n, RING_ENTRIES))
    && (s.pc.RejectAdvance? || s.pc.DropAdvance? ==> n > 0 && s.pc.index == s.ring.consumer == At(n - 1, RING_ENTRIES))
    && (!s.pc.Idle? && !s.pc.RejectAdvance? && !s.pc.DropAdvance? ==> s.pc.index == s.ring.consumer == At(n, RING_ENTRIES))
  }

  ghost predicate Inv(s: System) {
    && RingShape(s.ring)
    && s.released <= |s.published| <= s.released + RING_ENTRIES
    && (s.filling ==> |s.published| < s.released + RING_ENTRIES)
    && (Engaged(s) ==> s.released < |s.published|)
    && ReceiverOk(s)
    && OutcomesOk(s)
    && DescriptorsOk(s)
  }

  lemma StartInv()
    ensures Inv(Start())
  {
  }

  /** The device finds its next descriptor its own exactly when the window has room. */
  lemma RoomForNext(s: System)
    requires Inv(s)
    ensures s.ring.descriptors[At(|s.published|, RING_ENTRIES)].state == DeviceOwned <==> |s.published| < s.released + RING_ENTRIES
  {
    AtIdempotent(RING_ENTRIES, s.released);
    assert s.ring.descriptors[At(s.released, RING_ENTRIES)].state == Expected(s, s.released);
  }

  lemma DeviceWriteKeeps(s: System, buffer: seq<u8>, length: u32)
    requires Inv(s) && s.filling && |buffer| == MAXIMUM_FRAME_BYTES
    ensures Inv(DeviceStep(s, DeviceWrite(buffer, length)))
  {
    var n := |s.published|;
    Replaced(RING_ENTRIES, s.ring.descriptors, s.released, n, s.ring.descriptors[At(n, RING_ENTRIES)].(buffer := buffer, length := length));
  }

  lemma DevicePublishKeeps(s: System)
    requires Inv(s) && s.filling
    ensures Inv(DeviceStep(s, DevicePublish))
  {
    var n := |s.published|;
    Replaced(RING_ENTRIES, s.ring.descriptors, s.released, n, s.ring.descriptors[At(n, RING_ENTRIES)].(state := Ready));
  }

  lemma ClaimKeeps(s: System)
    requires Inv(s) && s.pc.Loaded?
    ensures Inv(ReceiverStep(s))
  {
    var n := s.released;
    AtIdempotent(RING_ENTRIES, n);
    Replaced(RING_ENTRIES, s.ring.descriptors, n, n, s.ring.descriptors[At(n, RING_ENTRIES)].(state := UserHeld));
  }

  lemma ClassifyKeeps(s: System)
    requires Inv(s) && s.pc.Claimed?
    ensures Inv(ReceiverStep(s))
  {
    AtIdempotent(RING_ENTRIES, s.released);
  }

  lemma RejectClearKeeps(s: System)
    requires Inv(s) && s.pc.RejectClear?
    ensures Inv(ReceiverStep(s))
  {
    var n := s.released;
    AtIdempotent(RING_ENTRIES, n);
    Replaced(RING_ENTRIES, s.ring.descriptors, n, n, s.ring.descriptors[At(n, RING_ENTRIES)].(length := 0));
  }

  lemma DropClearKeeps(s: System)
    requires Inv(s) && s.pc.DropClear?
    ensures Inv(ReceiverStep(s))
  {
    var n := s.released;
    AtIdempotent(RING_ENTRIES, n);
    Replaced(RING_ENTRIES, s.ring.descriptors, n, n, s.ring.descriptors[At(n, RING_ENTRIES)].(length := 0));
  }

  lemma RejectReleaseKeeps(s: System)
    requires Inv(s) && s.pc.RejectRelease?
    ensures Inv(ReceiverStep(s))
  {
    var n := s.released;
    AtIdempotent(RING_ENTRIES, n);
    Replaced(RING_ENTRIES, s.ring.descriptors, n, n, s.ring.descriptors[At(n, RING_ENTRIES)].(state := DeviceOwned));
  }

  lemma DropReleaseKeeps(s: System)
    requires Inv(s) && s.pc.DropRelease?
    ensures Inv(ReceiverStep(s))
  {
    var n := s.released;
    AtIdempotent(RING_ENTRIES, n);
    Replaced(RING_ENTRIES, s.ring.descriptors, n, n, s.ring.descriptors[At(n, RING_ENTRIES)].(state := DeviceOwned));
  }

  lemma AdvanceKeeps(s: System)
    requires Inv(s) && (s.pc.RejectAdvance? || s.pc.DropAdvance?)
    ensures Inv(ReceiverStep(s))
  {
    AtIdempotent(RING_ENTRIES, s.released - 1);
  }

  lemma StartDropKeeps(s: System, g: nat)
    requires Inv(s)
    ensures Inv(Next(s, Drop(g)))
  {
    if s.pc == Idle && g < |s.guards| {
      assert s.guards[..g] + s.guards[g + 1..] == [];
    }
  }

  lemma ReceiverKeeps(s: System)
    requires Inv(s)
    ensures Inv(ReceiverStep(s))
  {
    match s.pc
    case Idle =>
    case Loaded(_) => ClaimKeeps(s);
    case Claimed(_) => ClassifyKeeps(s);
    case RejectClear(_) => RejectClearKeeps(s);
    case RejectRelease(_) => RejectReleaseKeeps(s);
    case RejectAdvance(_) => AdvanceKeeps(s);
    case DropClear(_) => DropClearKeeps(s);
    case DropRelease(_) => DropReleaseKeeps(s);
    case DropAdvance(_) => AdvanceKeeps(s);
  }

  lemma DeviceKeeps(s: System, a: Action)
    requires Inv(s)
    ensures Inv(DeviceStep(s, a))
  {
    match a
    case DeviceBegin => RoomForNext(s);
    case DeviceWrite(buffer, length) =>
      if s.filling && |buffer| == MAXIMUM_FRAME_BYTES {
        DeviceWriteKeeps(s, buffer, length);
      }
    case DevicePublish =>
      if s.filling {
        DevicePublishKeeps(s);
      }
    case _ =>
  }

  lemma StepKeeps(s: System, a: Action)
    requires Inv(s)
    ensures Inv(Next(s, a))
  {
    match a
    case TryReceive => AtIdempotent(RING_ENTRIES, s.released);
    case Drop(g) => StartDropKeeps(s, g);
    case Advance => ReceiverKeeps(s);
    case _ => DeviceKeeps(s, a);
  }

  lemma {:induction false} RunsKeepInvariant(actions: seq<Action>)
    ensures Inv(RunOf(actions))
  {
    if actions == [] {
      StartInv();
    } else {
      RunsKeepInvariant(actions[..|actions| - 1]);
      StepKeeps(RunOf(actions[..|actions| - 1]), actions[|actions| - 1]);
    }
  }

  // ----- what the receive half promises -----

  /** What `try_receive` should make of each frame, in order. */
  function Outcomes(frames: seq<Frame>): seq<Outcome>
    requires forall k :: 0 <= k < |frames| ==> |frames[k].buffer| == MAXIMUM_FRAME_BYTES
  {
    seq(|frames|, k requires 0 <= k < |frames| => OutcomeOf(frames[k]))
  }

  /**
   In every interleaving the outcomes are those of the first published frames, in order and each once:
   a packet per valid frame and one error per oversized frame. At most the one claimed frame still
   owes its outcome once it is handed back.
   */
  lemma OutcomesInOrder(actions: seq<Action>)
    ensures var s := RunOf(actions);
            && |s.outcomes| <= |s.published| <= |s.outcomes| + 256
            && (forall k :: 0 <= k < |s.published| ==> |s.published[k].buffer| == 2048)
            && s.outcomes == Outcomes(s.published[..|s.outcomes|])
            && s.released <= |s.outcomes| <= s.released + 1
  {
    RunsKeepInvariant(actions);
  }

  /** The guard `g` shows the last packet received, just as the device published it. */
  ghost predicate Shows(s: System, g: Guard)
    requires RingShape(s.ring)
  {
    && g.length <= MAXIMUM_FRAME_BYTES
    && |s.outcomes| > 0 && s.outcomes[|s.outcomes| - 1] == Packet(Bytes(s.ring, g))
    && |s.outcomes| <= |s.published|
    && |s.published[|s.outcomes| - 1].buffer| == MAXIMUM_FRAME_BYTES
    && Bytes(s.ring, g) == s.published[|s.outcomes| - 1].buffer[..g.length]
    && g.length == s.published[|s.outcomes| - 1].length
  }

  lemma HeldFrame(s: System)
    requires Inv(s) && s.guards != []
    ensures s.guards == [s.guards[0]] && Shows(s, s.guards[0])
  {
    AtIdempotent(RING_ENTRIES, s.released);
    assert s.outcomes[s.released] == OutcomeOf(s.published[s.released]);
    assert s.ring.descriptors[At(s.released, RING_ENTRIES)].buffer == s.published[s.released].buffer;
  }

  /** In every interleaving at most one guard is live, and it shows the last packet, just as the device left it. */
  lemma GuardShowsItsFrame(actions: seq<Action>)
    ensures var s := RunOf(actions);
            |s.guards| <= 1 && forall g :: g in s.guards ==> Shows(s, g)
  {
    RunsKeepInvariant(actions);
    var s := RunOf(actions);
    if s.guards != [] {
      HeldFrame(s);
    }
  }

  /** In every interleaving the device never fills the descriptor the receiver holds. */
  lemma Exclusive(actions: seq<Action>)
    ensures var s := RunOf(actions);
            s.filling && Engaged(s) ==>
              && At(|s.published|, RING_ENTRIES) != At(s.released, RING_ENTRIES)
              && s.ring.descriptors[At(|s.published|, RING_ENTRIES)].state == DeviceOwned
              && s.ring.descriptors[At(s.released, RING_ENTRIES)].state == UserHeld
  {
    RunsKeepInvariant(actions);
    var s := RunOf(actions);
    if s.filling && Engaged(s) {
      WindowApart(RING_ENTRIES, s.released, |s.published|, s.released);
    }
  }

  /** `try_receive` finds nothing exactly when a guard is live or every published frame has its outcome. */
  lemma NothingExactly(actions: seq<Action>)
    requires RunOf(actions).pc.Loaded?
    ensures var s := RunOf(actions);
            Next(s, Advance).pc == Idle <==> s.guards != [] || |s.outcomes| == |s.published|
  {
    RunsKeepInvariant(actions);
    var s := RunOf(actions);
    AtIdempotent(RING_ENTRIES, s.released);
    assert s.ring.descriptors[At(s.released, RING_ENTRIES)].state == Expected(s, s.released);
  }

  // ----- the receive half as it runs -----

  datatype BridgeError = InvalidHardwareLengthError

  /** `try_receive` without interference. */
  function ReceiveAlone(r: Ring): (Ring, Result<Option<Guard>, BridgeError>)
    requires RingShape(r)
  {
    var i := At(r.consumer, RING_ENTRIES);
    if r.descriptors[i].state != Ready then (r, Ok(None))
    else
      var held := SetState(r, i, UserHeld);
      if r.descriptors[i].length > MAXIMUM_FRAME_BYTES then
        (GiveBack(held, i), Err(InvalidHardwareLengthError))
      else (held, Ok(Some(Guard(i, r.descriptors[i].length))))
  }

  /** Clear the length, return the descriptor to the device, advance the cursor. */
  function GiveBack(r: Ring, i: nat): Ring
    requires i < |r.descriptors|
  {
    SetState(SetLength(r, i, 0), i, DeviceOwned).(consumer := At(i + 1, RING_ENTRIES))
  }

  /** `try_receive` without interference is a run of the receiver's steps. */
  lemma ReceiveAloneIsRun(s: System)
    requires RingShape(s.ring) && s.pc == Idle
    ensures var (r, result) := ReceiveAlone(s.ring);
            var s1 := Next(Next(s, TryReceive), Advance);
            match result
            case Ok(None) => s1 == s
            case Ok(Some(g)) =>
              ReceiverStep(s1) == s.(ring := r, guards := s.guards + [g], outcomes := s.outcomes + [Packet(Bytes(r, g))])
            case Err(_) =>
              ReceiverStep(ReceiverStep(ReceiverStep(ReceiverStep(s1)))) ==
                s.(ring := r, released := s.released + 1, outcomes := s.outcomes + [InvalidHardwareLength])
  {
    AtIdempotent(RING_ENTRIES, s.ring.consumer);
  }

  /** Dropping a guard without interference is a run of the receiver's steps. */
  lemma DropAloneIsRun(s: System, g: nat)
    requires RingShape(s.ring) && s.pc == Idle && g < |s.guards| && s.guards[g].index < RING_ENTRIES
    ensures ReceiverStep(ReceiverStep(ReceiverStep(Next(s, Drop(g))))) ==
              s.(ring := GiveBack(s.ring, s.guards[g].index), released := s.released + 1,
                 guards := s.guards[..g] + s.guards[g + 1..])
  {
  }

  /**
   After every run `try_receive` finds nothing exactly when a guard is live or every frame has its outcome;
   otherwise it takes the oldest frame left: an error above 2048 bytes, else a guard for exactly its bytes.
   */
  lemma ReceivesExactly(actions: seq<Action>)
    requires RunOf(actions).pc == Idle
    ensures var s := RunOf(actions);
            var (r, result) := ReceiveAlone(s.ring);
            if s.guards != [] || |s.outcomes| == |s.published| then result == Ok(None)
            else
              && |s.outcomes| < |s.published| && |s.published[|s.outcomes|].buffer| == 2048
              && (if s.published[|s.outcomes|].length > 2048 then result == Err(InvalidHardwareLengthError)
                  else
                    && result.Ok? && result.value.Some? && result.value.value.length <= 2048 && RingShape(r)
                    && Bytes(r, result.value.value) ==
                         s.published[|s.outcomes|].buffer[..s.published[|s.outcomes|].length])
  {
    RunsKeepInvariant(actions);
    var s := RunOf(actions);
    AtIdempotent(RING_ENTRIES, s.released);
    assert s.ring.descriptors[At(s.released, RING_ENTRIES)].state == Expected(s, s.released);
  }

  /** A descriptor handed back keeps its bytes, has no length any more and belongs to the device; the cursor moves behind it. */
  lemma GivesBackCleared(r: Ring, i: nat)
    requires RingShape(r) && i < 256
    ensures var r' := GiveBack(r, i);
            && r'.descriptors == r.descriptors[i := Descriptor(r.descriptors[i].buffer, 0, DeviceOwned)]
            && r'.consumer == (i + 1) % 256
  {
  }

  /** Three steps of the device put any frame into the descriptor that is its turn, when it owns that one. */
  lemma DevicePublishes(s: System, buffer: seq<u8>, length: u32)
    requires RingShape(s.ring) && |buffer| == 2048
    requires s.ring.descriptors[At(|s.published|, RING_ENTRIES)].state == DeviceOwned
    ensures var i := At(|s.published|, RING_ENTRIES);
            Next(Next(Next(s, DeviceBegin), DeviceWrite(buffer, length)), DevicePublish) ==
              s.(ring := s.ring.(descriptors := s.ring.descriptors[i := Descriptor(buffer, length, Ready)]),
                 filling := false, published := s.published + [Frame(buffer, length)])
  {
  }

  lemma RunExtends(actions: seq<Action>, a: Action)
    ensures RunOf(actions + [a]) == Next(RunOf(actions), a)
  {
    assert (actions + [a])[..|actions|] == actions;
  }

  /** A frame the device publishes to an idle receiver that has dealt with all others is what it receives next. */
  lemma FrameComesThrough(actions: seq<Action>, buffer: seq<u8>, length: u32)
    requires |buffer| == 2048 && RunOf(actions).pc == Idle
    requires RunOf(actions).guards == [] && |RunOf(actions).outcomes| == |RunOf(actions).published|
    ensures var s := Next(Next(Next(RunOf(actions), DeviceBegin), DeviceWrite(buffer, length)), DevicePublish);
            var (r, result) := ReceiveAlone(s.ring);
            if length > 2048 then result == Err(InvalidHardwareLengthError)
            else
              && result.Ok? && result.value.Some? && result.value.value.length == length && RingShape(r)
              && Bytes(r, result.value.value) == buffer[..length]
  {
    RunsKeepInvariant(actions);
    var s := RunOf(actions);
    assert s.ring.descriptors[At(s.released, RING_ENTRIES)].state == Expected(s, s.released);
    DevicePublishes(s, buffer, length);
    RunExtends(actions, DeviceBegin);
    RunExtends(actions + [DeviceBegin], DeviceWrite(buffer, length));
    var more := actions + [DeviceBegin] + [DeviceWrite(buffer, length)];
    RunExtends(more, DevicePublish);
    assert RunOf(more + [DevicePublish]).published[|s.published|] == Frame(buffer, length);
    ReceivesExactly(more + [DevicePublish]);
  }

  // ----- lengths of descriptors the device owns -----

  /** The length of the descriptor of the `k`-th frame. */
  function LengthAt(s: System, k: nat): u32
    requires RingShape(s.ring)
  {
    s.ring.descriptors[At(k, RING_ENTRIES)].length
  }

  /** A descriptor the device owns and is not filling has length zero, and so has one on its way back. */
  ghost predicate LengthsClear(s: System)
    requires RingShape(s.ring)
  {
    && (forall k: nat {:trigger LengthAt(s, k)} :: |s.published| <= k < s.released + RING_ENTRIES ==>
          (s.filling && k == |s.published|) || LengthAt(s, k) == 0)
    && (Cleared(s) ==> LengthAt(s, s.released) == 0)
  }

  lemma DeviceKeepsClear(s: System, a: Action)
    requires Inv(s) && LengthsClear(s)
    ensures LengthsClear(DeviceStep(s, a))
  {
    var s' := DeviceStep(s, a);
    var n := |s.published|;
    forall k: nat | |s'.published| <= k < s'.released + RING_ENTRIES && !(s'.filling && k == |s'.published|)
      ensures LengthAt(s', k) == 0
    {
      assert LengthAt(s, k) == 0;
      if k != n && n < s.released + RING_ENTRIES {
        WindowApart(RING_ENTRIES, s.released, k, n);
      }
    }
    if Cleared(s) && n < s.released + RING_ENTRIES {
      WindowApart(RING_ENTRIES, s.released, s.released, n);
    }
  }

  lemma ReceiverKeepsClear(s: System)
    requires Inv(s) && LengthsClear(s)
    ensures LengthsClear(ReceiverStep(s))
  {
    var s' := ReceiverStep(s);
    AtIdempotent(RING_ENTRIES, s.released);
    forall k: nat | |s'.published| <= k < s'.released + RING_ENTRIES && !(s'.filling && k == |s'.published|)
      ensures LengthAt(s', k) == 0
    {
      if k < s.released + RING_ENTRIES {
        assert LengthAt(s, k) == 0;
      } else {
        assert LengthAt(s, s.released) == 0;
      }
    }
  }

  lemma {:induction false} RunsKeepClear(actions: seq<Action>)
    ensures LengthsClear(RunOf(actions))
  {
    if actions != [] {
      var s, a := RunOf(actions[..|actions| - 1]), actions[|actions| - 1];
      RunsKeepInvariant(actions[..|actions| - 1]);
      RunsKeepClear(actions[..|actions| - 1]);
      if a.Advance? {
        ReceiverKeepsClear(s);
      } else if a.TryReceive? || a.Drop? {
        assert forall k: nat :: LengthAt(Next(s, a), k) == LengthAt(s, k);
      } else {
        DeviceKeepsClear(s, a);
      }
    }
  }

  /** In every interleaving a descriptor the device owns has length zero, unless it is the one being filled. */
  lemma OwnedAreCleared(actions: seq<Action>, i: nat)
    requires i < 256
    ensures var s := RunOf(actions);
            s.ring.descriptors[i].state == DeviceOwned && !(s.filling && i == At(|s.published|, RING_ENTRIES)) ==>
              s.ring.descriptors[i].length == 0
  {
    RunsKeepInvariant(actions);
    RunsKeepClear(actions);
    var s := RunOf(actions);
    var k := ItemAt(RING_ENTRIES, s.released, i);
    assert s.ring.descriptors[At(k, RING_ENTRIES)].state == Expected(s, k);
    assert k >= |s.published| ==> LengthAt(s, k) == 0 || (s.filling && k == |s.published|);
  }
}
