/**
 The transmit half of the DMA bridge. The transmitter copies frames into free descriptors; the
 device drains them in ring order. Every atomic operation is one step, so a sequence of actions
 is one interleaving of transmitter and device.
 */
module BridgeTransmit {
  import opened Machine
  import opened RingWindows

  const RING_ENTRIES: nat := 256
  const MAXIMUM_FRAME_BYTES: nat := 2048

  datatype DescriptorState = Free | Building | DeviceOwned

  datatype Descriptor = Descriptor(buffer: seq<u8>, length: u32, state: DescriptorState)

  datatype Ring = Ring(producer: nat, descriptors: seq<Descriptor>)

  datatype BridgeError = InvalidPayloadLength | TransmitQueueFull

  datatype TransmitPc =
    | Idle
    | Loaded(payload: seq<u8>, index: nat)
    | Claimed(payload: seq<u8>, index: nat)
    | Copied(payload: seq<u8>, index: nat)
    | Sized(payload: seq<u8>, index: nat)
    | Published(payload: seq<u8>, index: nat)

  /** The device waits for its next descriptor, has found it ready, or has fetched its frame. */
  datatype DevicePc = Waiting | Found | Fetched(frame: seq<u8>)

  /**
   The shared memory, both agents, and the history: payloads handed to the device, payloads whose
   `transmit` returned `Ok`, and frames the device has sent on.
   */
  datatype System = System(ring: Ring, pc: TransmitPc, device: DevicePc,
                           published: seq<seq<u8>>, accepted: seq<seq<u8>>, drained: seq<seq<u8>>)

  datatype Action = Transmit(payload: seq<u8>) | Advance | Device

  predicate RingShape(r: Ring) {
    && |r.descriptors| == RING_ENTRIES
    && forall i :: 0 <= i < RING_ENTRIES ==> |r.descriptors[i].buffer| == MAXIMUM_FRAME_BYTES
  }

  predicate PayloadOk(payload: seq<u8>) {
    0 < |payload| <= MAXIMUM_FRAME_BYTES
  }

  function SetState(r: Ring, i: nat, state: DescriptorState): Ring
    requires i < |r.descriptors|
  {
    r.(descriptors := r.descriptors[i := r.descriptors[i].(state := state)])
  }

  function SetLength(r: Ring, i: nat, length: u32): Ring
    requires i < |r.descriptors|
  {
    r.(descriptors := r.descriptors[i := r.descriptors[i].(length := length)])
  }

  /** The payload overwrites the start of the buffer; the rest keeps its old bytes. */
  function Overlay(buffer: seq<u8>, payload: seq<u8>): seq<u8>
    requires |payload| <= |buffer|
  {
    payload + buffer[|payload|..]
  }

  function Copy(r: Ring, i: nat, payload: seq<u8>): Ring
    requires RingShape(r) && i < RING_ENTRIES && PayloadOk(payload)
  {
    r.(descriptors := r.descriptors[i := r.descriptors[i].(buffer := Overlay(r.descriptors[i].buffer, payload))])
  }

  /** The frame a descriptor describes. */
  function FrameIn(d: Descriptor): seq<u8> {
    d.buffer[..Min(d.length, |d.buffer|)]
  }

  /** One step of `transmit`. */
  function TransmitterStep(s: System): (s': System)
    requires Sane(s)
    ensures RingShape(s'.ring)
  {
    match s.pc
    case Idle => s
    case Loaded(payload, index) =>
      if s.ring.descriptors[At(index, RING_ENTRIES)].state == Free then
        s.(ring := SetState(s.ring, At(index, RING_ENTRIES), Building), pc := Claimed(payload, index))
      else s.(pc := Idle) // `TransmitQueueFull`
    case Claimed(payload, index) =>
      s.(ring := Copy(s.ring, At(index, RING_ENTRIES), payload), pc := Copied(payload, index))
    case Copied(payload, index) =>
      s.(ring := SetLength(s.ring, At(index, RING_ENTRIES), |payload| % U32_LIMIT), pc := Sized(payload, index))
    case Sized(payload, index) =>
      s.(ring := SetState(s.ring, At(index, RING_ENTRIES), DeviceOwned), pc := Published(payload, index),
         published := s.published + [payload])
    case Published(payload, index) =>
      s.(ring := s.ring.(producer := At(index + 1, RING_ENTRIES)), pc := Idle, accepted := s.accepted + [payload])
  }

  /** One step of the device, which works on descriptor `|drained|` in ring order. */
  function DeviceStep(s: System): (s': System)
    requires RingShape(s.ring)
    ensures RingShape(s'.ring)
  {
    var i := At(|s.drained|, RING_ENTRIES);
    match s.device
    case Waiting => if s.ring.descriptors[i].state == DeviceOwned then s.(device := Found) else s
    case Found => s.(device := Fetched(FrameIn(s.ring.descriptors[i])))
    case Fetched(frame) => s.(ring := SetState(s.ring, i, Free), device := Waiting, drained := s.drained + [frame])
  }

  predicate Sane(s: System) {
    RingShape(s.ring) && (s.pc.Loaded? || s.pc.Claimed? ==> PayloadOk(s.pc.payload))
  }

  function Next(s: System, a: Action): (s': System)
    requires Sane(s)
    ensures Sane(s')
  {
    match a
    case Transmit(payload) =>
      if s.pc == Idle && PayloadOk(payload) then s.(pc := Loaded(payload, At(s.ring.producer, RING_ENTRIES)))
      else s // `InvalidPayloadLength`, unless a call is under way
    case Advance => TransmitterStep(s)
    case Device => DeviceStep(s)
  }

  function EmptyRing(): Ring {
    Ring(0, seq(RING_ENTRIES, _ => Descriptor(seq(MAXIMUM_FRAME_BYTES, _ => 0), 0, Free)))
  }

  function Start(): System {
    System(EmptyRing(), Idle, Waiting, [], [], [])
  }

  function RunOf(actions: seq<Action>): (s: System)
    ensures Sane(s)
  {
    if actions == [] then Start()
    else Next(RunOf(actions[..|actions| - 1]), actions[|actions| - 1])
  }

  // ----- the invariant -----

  predicate IsBuilding(s: System) {
    s.pc.Claimed? || s.pc.Copied? || s.pc.Sized?
  }

  /** The state the descriptor of the `k`-th payload should be in, for `k` in the current window. */
  function Expected(s: System, k: nat): DescriptorState {
    if k < |s.published| then DeviceOwned
    else if k == |s.published| && IsBuilding(s) then Building
    else Free
  }

  predicate Holds(d: Descriptor, payload: seq<u8>) {
    |payload| <= |d.buffer| && d.buffer[..|payload|] == payload && d.length == |payload|
  }

  ghost predicate DescriptorsOk(s: System)
    requires RingShape(s.ring)
  {
    && (forall k: nat {:trigger At(k, RING_ENTRIES)} :: |s.drained| <= k < |s.drained| + RING_ENTRIES ==>
          s.ring.descriptors[At(k, RING_ENTRIES)].state == Expected(s, k))
    && (forall k: nat {:trigger At(k, RING_ENTRIES)} :: |s.drained| <= k < |s.published| ==>
          Holds(s.ring.descriptors[At(k, RING_ENTRIES)], s.published[k]))
  }

  ghost predicate TransmitterOk(s: System)
    requires RingShape(s.ring)
  {
    var n := |s.published|;
    match s.pc
    case Idle => s.ring.producer == At(n, RING_ENTRIES)
    case Loaded(payload, index) => index == s.ring.producer == At(n, RING_ENTRIES) && PayloadOk(payload)
    case Claimed(payload, index) => index == s.ring.producer == At(n, RING_ENTRIES) && PayloadOk(payload)
    case Copied(payload, index) =>
      && index == s.ring.producer == At(n, RING_ENTRIES) && PayloadOk(payload)
      && s.ring.descriptors[At(n, RING_ENTRIES)].buffer[..|payload|] == payload
    case Sized(payload, index) =>
      && index == s.ring.producer == At(n, RING_ENTRIES) && PayloadOk(payload)
      && Holds(s.ring.descriptors[At(n, RING_ENTRIES)], payload)
    case Published(_, index) => n > 0 && index == s.ring.producer == At(n - 1, RING_ENTRIES)
  }

  ghost predicate DeviceOk(s: System) {
    && (s.device != Waiting ==> |s.drained| < |s.published|)
    && (s.device.Fetched? ==> |s.drained| < |s.published| && s.device.frame == s.published[|s.drained|])
  }

  ghost predicate Inv(s: System) {
    && RingShape(s.ring)
    && |s.drained| <= |s.published| <= |s.drained| + 256
    && (IsBuilding(s) ==> |s.published| < |s.drained| + RING_ENTRIES)
    && s.published == s.accepted + (if s.pc.Published? then [s.pc.payload] else [])
    && s.drained == s.published[..|s.drained|]
    && TransmitterOk(s)
    && DeviceOk(s)
    && DescriptorsOk(s)
  }

  lemma StartInv()
    ensures Inv(Start())
  {
  }

  /** The transmitter finds its next descriptor free exactly when the window has room. */
  lemma RoomForNext(s: System)
    requires Inv(s) && !IsBuilding(s)
    ensures s.ring.descriptors[At(|s.published|, RING_ENTRIES)].state == Free <==> |s.published| < |s.drained| + RING_ENTRIES
  {
    AtIdempotent(RING_ENTRIES, |s.drained|);
    assert s.ring.descriptors[At(|s.drained|, RING_ENTRIES)].state == Expected(s, |s.drained|);
  }

  lemma ClaimKeeps(s: System)
    requires Inv(s) && s.pc.Loaded?
    ensures Sane(s) && Inv(TransmitterStep(s))
  {
    var n := |s.published|;
    AtIdempotent(RING_ENTRIES, n);
    RoomForNext(s);
    if s.ring.descriptors[At(n, RING_ENTRIES)].state == Free {
      Replaced(RING_ENTRIES, s.ring.descriptors, |s.drained|, n, s.ring.descriptors[At(n, RING_ENTRIES)].(state := Building));
    }
  }

  lemma CopyKeeps(s: System)
    requires Inv(s) && s.pc.Claimed?
    ensures Sane(s) && Inv(TransmitterStep(s))
  {
    var n := |s.published|;
    AtIdempotent(RING_ENTRIES, n);
    var d := s.ring.descriptors[At(n, RING_ENTRIES)];
    assert Overlay(d.buffer, s.pc.payload)[..|s.pc.payload|] == s.pc.payload;
    Replaced(RING_ENTRIES, s.ring.descriptors, |s.drained|, n, d.(buffer := Overlay(d.buffer, s.pc.payload)));
  }

  lemma SizeKeeps(s: System)
    requires Inv(s) && s.pc.Copied?
    ensures Sane(s) && Inv(TransmitterStep(s))
  {
    var n := |s.published|;
    AtIdempotent(RING_ENTRIES, n);
    Replaced(RING_ENTRIES, s.ring.descriptors, |s.drained|, n, s.ring.descriptors[At(n, RING_ENTRIES)].(length := |s.pc.payload|));
  }

  lemma PublishKeeps(s: System)
    requires Inv(s) && s.pc.Sized?
    ensures Sane(s) && Inv(TransmitterStep(s))
  {
    var n := |s.published|;
    AtIdempotent(RING_ENTRIES, n);
    Replaced(RING_ENTRIES, s.ring.descriptors, |s.drained|, n, s.ring.descriptors[At(n, RING_ENTRIES)].(state := DeviceOwned));
  }

  lemma ReturnKeeps(s: System)
    requires Inv(s) && s.pc.Published?
    ensures Sane(s) && Inv(TransmitterStep(s))
  {
    AtIdempotent(RING_ENTRIES, |s.published| - 1);
  }

  lemma FindKeeps(s: System)
    requires Inv(s) && s.device.Waiting?
    ensures Inv(DeviceStep(s))
  {
    var n := |s.drained|;
    assert s.ring.descriptors[At(n, RING_ENTRIES)].state == Expected(s, n);
  }

  lemma FetchKeeps(s: System)
    requires Inv(s) && s.device.Found?
    ensures Inv(DeviceStep(s))
  {
    var n := |s.drained|;
    assert Holds(s.ring.descriptors[At(n, RING_ENTRIES)], s.published[n]);
  }

  lemma DrainKeeps(s: System)
    requires Inv(s) && s.device.Fetched?
    ensures Inv(DeviceStep(s))
  {
    var n := |s.drained|;
    AtIdempotent(RING_ENTRIES, n);
    Replaced(RING_ENTRIES, s.ring.descriptors, n, n, s.ring.descriptors[At(n, RING_ENTRIES)].(state := Free));
  }

  lemma StepKeeps(s: System, a: Action)
    requires Inv(s)
    ensures Sane(s) && Inv(Next(s, a))
  {
    match a
    case Transmit(_) => AtIdempotent(RING_ENTRIES, |s.published|);
    case Advance =>
      match s.pc {
        case Idle =>
        case Loaded(_, _) => ClaimKeeps(s);
        case Claimed(_, _) => CopyKeeps(s);
        case Copied(_, _) => SizeKeeps(s);
        case Sized(_, _) => PublishKeeps(s);
        case Published(_, _) => ReturnKeeps(s);
      }
    case Device =>
      match s.device {
        case Waiting => FindKeeps(s);
        case Found => FetchKeeps(s);
        case Fetched(_) => DrainKeeps(s);
      }
  }

  lemma {:induction false} RunsKeepInvariant(actions: seq<Action>)
    ensures Inv(RunOf(actions))
  {
    if actions == [] {
      StartInv();
    } else {
      RunsKeepInvariant(actions[..|actions| - 1]);
      StepKeeps(RunOf(actions[..|actions| - 1]), actions[|actions| - 1]);
    }
  }

  // ----- what the transmit half promises -----

  /** In every interleaving the device sends the first accepted payloads, intact, in order, each once. */
  lemma SentInOrder(actions: seq<Action>)
    ensures var s := RunOf(actions);
            && s.accepted <= s.published && s.drained <= s.published
            && |s.published| <= |s.accepted| + 1 && |s.published| <= |s.drained| + RING_ENTRIES
  {
    RunsKeepInvariant(actions);
  }

  /** In every interleaving the descriptor being built is not the one the device reads. */
  lemma Exclusive(actions: seq<Action>)
    ensures var s := RunOf(actions);
            IsBuilding(s) && s.device != Waiting ==>
              && At(s.pc.index, RING_ENTRIES) != At(|s.drained|, RING_ENTRIES)
              && s.ring.descriptors[At(s.pc.index, RING_ENTRIES)].state == Building
              && s.ring.descriptors[At(|s.drained|, RING_ENTRIES)].state == DeviceOwned
  {
    RunsKeepInvariant(actions);
    var s := RunOf(actions);
    if IsBuilding(s) && s.device != Waiting {
      AtIdempotent(RING_ENTRIES, |s.published|);
      WindowApart(RING_ENTRIES, |s.drained|, |s.published|, |s.drained|);
    }
  }

  /** A valid payload is refused exactly when the device still owns every descriptor. */
  lemma FullExactly(actions: seq<Action>)
    requires RunOf(actions).pc.Loaded?
    ensures var s := RunOf(actions);
            && (Next(s, Advance).pc == Idle <==> |s.published| == |s.drained| + 256)
            && (Next(s, Advance).pc == Idle <==>
                forall i :: 0 <= i < 256 ==> s.ring.descriptors[i].state == DeviceOwned)
  {
    RunsKeepInvariant(actions);
    var s := RunOf(actions);
    var n := |s.published|;
    RoomForNext(s);
    AtIdempotent(RING_ENTRIES, n);
    if n == |s.drained| + RING_ENTRIES {
      forall i | 0 <= i < RING_ENTRIES
        ensures s.ring.descriptors[i].state == DeviceOwned
      {
        var k := ItemAt(RING_ENTRIES, |s.drained|, i);
        assert s.ring.descriptors[At(k, RING_ENTRIES)].state == Expected(s, k);
      }
    } else {
      assert s.ring.descriptors[At(n, RING_ENTRIES)].state == Free;
    }
  }

  // ----- the transmit half as it runs -----

  /** `transmit` without interference. */
  function TransmitAlone(r: Ring, payload: seq<u8>): (Ring, Result<(), BridgeError>)
    requires RingShape(r)
  {
    var i := At(r.producer, RING_ENTRIES);
    if !PayloadOk(payload) then (r, Err(InvalidPayloadLength))
    else if r.descriptors[i].state != Free then (r, Err(TransmitQueueFull))
    else
      var d := Descriptor(Overlay(r.descriptors[i].buffer, payload), |payload|, DeviceOwned);
      (Ring(At(i + 1, RING_ENTRIES), r.descriptors[i := d]), Ok(()))
  }

  /** `transmit` without interference is a run of the transmitter's steps. */
  lemma TransmitAloneIsRun(s: System, payload: seq<u8>)
    requires Sane(s) && s.pc == Idle
    ensures var (r, result) := TransmitAlone(s.ring, payload);
            var s1 := Next(Next(s, Transmit(payload)), Advance);
            if result.Ok? then
              TransmitterStep(TransmitterStep(TransmitterStep(TransmitterStep(s1)))) ==
                s.(ring := r, published := s.published + [payload], accepted := s.accepted + [payload])
            else s1 == s
  {
    AtIdempotent(RING_ENTRIES, s.ring.producer);
  }

  /**
   After every run `transmit` refuses an empty payload or one above 2048 bytes, then a ring in which the
   device still owns 256 frames, and accepts anything else.
   */
  lemma TransmitsExactly(actions: seq<Action>, payload: seq<u8>)
    requires RunOf(actions).pc == Idle
    ensures var s := RunOf(actions);
            TransmitAlone(s.ring, payload).1 ==
              if |payload| == 0 || |payload| > 2048 then Err(InvalidPayloadLength)
              else if |s.published| == |s.drained| + 256 then Err(TransmitQueueFull)
              else Ok(())
  {
    RunsKeepInvariant(actions);
    RoomForNext(RunOf(actions));
    AtIdempotent(RING_ENTRIES, |RunOf(actions).published|);
  }

  /** Three steps of the device send the frame whose turn it is, when it owns that descriptor, and free it. */
  lemma DeviceSends(s: System)
    requires RingShape(s.ring) && s.device == Waiting
    requires s.ring.descriptors[At(|s.drained|, RING_ENTRIES)].state == DeviceOwned
    ensures var i := At(|s.drained|, RING_ENTRIES);
            DeviceStep(DeviceStep(DeviceStep(s))) ==
              s.(ring := SetState(s.ring, i, Free), drained := s.drained + [FrameIn(s.ring.descriptors[i])])
  {
  }

  /** An accepted payload is the frame of the descriptor at the producer's place, and the device owns it. */
  lemma AcceptedFrame(r: Ring, payload: seq<u8>)
    requires RingShape(r) && TransmitAlone(r, payload).1.Ok?
    ensures var d := TransmitAlone(r, payload).0.descriptors[At(r.producer, RING_ENTRIES)];
            FrameIn(d) == payload && d.state == DeviceOwned && RingShape(TransmitAlone(r, payload).0)
  {
  }

  /** A payload accepted while the device has sent all others is what its next three steps send. */
  lemma PayloadGoesOut(actions: seq<Action>, payload: seq<u8>)
    requires RunOf(actions).pc == Idle && RunOf(actions).device == Waiting
    requires |RunOf(actions).drained| == |RunOf(actions).published| && 1 <= |payload| <= 2048
    ensures var s := RunOf(actions);
            var (r, result) := TransmitAlone(s.ring, payload);
            var s1 := s.(ring := r, published := s.published + [payload], accepted := s.accepted + [payload]);
            && result == Ok(()) && RingShape(r)
            && DeviceStep(DeviceStep(DeviceStep(s1))).drained == s.drained + [payload]
  {
    TransmitsExactly(actions, payload);
    RunsKeepInvariant(actions);
    var s := RunOf(actions);
    AcceptedFrame(s.ring, payload);
    AtIdempotent(RING_ENTRIES, |s.drained|);
    DeviceSends(s.(ring := TransmitAlone(s.ring, payload).0, published := s.published + [payload],
                   accepted := s.accepted + [payload]));
  }
}
