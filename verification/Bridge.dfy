/** The DMA bridge as it runs when neither side is interfered with. */
module Bridge {
  import opened Machine
  import R = BridgeReceive
  import T = BridgeTransmit

  class BifrostRing {
    var receiveConsumer: nat
    var transmitProducer: nat
    const receive: array<R.Descriptor>
    const transmit: array<T.Descriptor>

    ghost predicate Valid()
      reads this, receive, transmit
    {
      && R.RingShape(ReceiveView())
      && T.RingShape(TransmitView())
    }

    ghost function ReceiveView(): R.Ring
      reads this, receive
    {
      R.Ring(receiveConsumer, receive[..])
    }

    ghost function TransmitView(): T.Ring
      reads this, transmit
    {
      T.Ring(transmitProducer, transmit[..])
    }

    constructor ()
      ensures Valid() && fresh(receive) && fresh(transmit)
      ensures ReceiveView() == R.EmptyRing() && TransmitView() == T.EmptyRing()
    {
      receiveConsumer := 0;
      transmitProducer := 0;
      receive := new R.Descriptor[R.RING_ENTRIES](_ =>
        R.Descriptor(seq(R.MAXIMUM_FRAME_BYTES, _ => 0), 0, R.DeviceOwned));
      transmit := new T.Descriptor[T.RING_ENTRIES](_ =>
        T.Descriptor(seq(T.MAXIMUM_FRAME_BYTES, _ => 0), 0, T.Free));
    }

    method TryReceive() returns (result: Result<Option<R.Guard>, R.BridgeError>)
      requires Valid()
      modifies this`receiveConsumer, receive
      ensures Valid()
      ensures (ReceiveView(), result) == R.ReceiveAlone(old(ReceiveView()))
    {
      var index := receiveConsumer % R.RING_ENTRIES;
      if receive[index].state != R.Ready {
        return Ok(None);
      }
      receive[index] := receive[index].(state := R.UserHeld);
      var length := receive[index].length;
      if length > R.MAXIMUM_FRAME_BYTES {
        receive[index] := receive[index].(length := 0);
        receive[index] := receive[index].(state := R.DeviceOwned);
        receiveConsumer := (index + 1) % R.RING_ENTRIES;
        return Err(R.InvalidHardwareLengthError);
      }
      return Ok(Some(R.Guard(index, length)));
    }

    method DropPacket(packet: R.Guard)
      requires Valid() && packet.index < R.RING_ENTRIES
      modifies this`receiveConsumer, receive
      ensures Valid()
      ensures ReceiveView() == R.GiveBack(old(ReceiveView()), packet.index)
    {
      receive[packet.index] := receive[packet.index].(length := 0);
      receive[packet.index] := receive[packet.index].(state := R.DeviceOwned);
      receiveConsumer := (packet.index + 1) % R.RING_ENTRIES;
    }

    method Transmit(payload: seq<u8>) returns (result: Result<(), T.BridgeError>)
      requires Valid()
      modifies this`transmitProducer, transmit
      ensures Valid()
      ensures (TransmitView(), result) == T.TransmitAlone(old(TransmitView()), payload)
    {
      if |payload| == 0 || |payload| > T.MAXIMUM_FRAME_BYTES {
        return Err(T.InvalidPayloadLength);
      }
      var index := transmitProducer % T.RING_ENTRIES;
      if transmit[index].state != T.Free {
        return Err(T.TransmitQueueFull);
      }
      transmit[index] := transmit[index].(state := T.Building);
      transmit[index] := transmit[index].(buffer := payload + transmit[index].buffer[|payload|..]);
      transmit[index] := transmit[index].(length := |payload|);
      transmit[index] := transmit[index].(state := T.DeviceOwned);
      transmitProducer := (index + 1) % T.RING_ENTRIES;
      assert transmit[..] == old(transmit[..])[index := transmit[index]];
      return Ok(());
    }
  }
}
