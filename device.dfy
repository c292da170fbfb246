/**
 * The receiving device: the state the receive loop keeps, the reset flag and
 * the receive queue, updated in place one byte at a time.
 */
module SimpleSerial {
  import opened SimpleSerialConstants
  import opened Wrappers
  import opened FrameEncoder
  import opened FrameReceiver
  import opened Loopback

  class SimpleSerialDevice {
    // the receive loop's working state
    var state: ScanState
    var title: byte
    var length: byte
    var message: seq<byte>
    var count: nat
    // set from outside to abandon the frame being scanned
    var resetRequested: bool
    // completed messages, oldest first
    var received: seq<Message>

    /** The loop's working state as a value. */
    function Snapshot(): Scan
      reads this
    {
      Scan(state, title, length, message, count, resetRequested)
    }

    /** The scanner invariant holds and every queued message is well formed. */
    ghost predicate Valid()
      reads this
    {
      FrameReceiver.Valid(Snapshot()) && forall m <- received :: WellFormed(m)
    }

    /** A device whose loop starts scanning for a preamble with an empty message and an empty queue. */
    constructor ()
      ensures Valid()
      ensures Snapshot() == Initial && received == []
    {
      state, title, length, message, count := Preamble, 0, 0, [], 0;
      resetRequested := false;
      received := [];
    }

    /** Ask the receive loop to drop the frame it is scanning. */
    method RequestReset()
      requires Valid()
      modifies this
      ensures Valid()
      ensures Snapshot() == old(Snapshot()).(reset := true) && received == old(received)
    {
      resetRequested := true;
    }

    /** One iteration of the receive loop on byte `b`. */
    method Feed(b: byte)
      requires Valid()
      modifies this
      ensures Valid()
      ensures Snapshot() == Step(old(Snapshot()), b).0
      ensures received == old(received) + Emitted(Step(old(Snapshot()), b).1)
    {
      if resetRequested {
        state := Preamble;
      }
      if state == Preamble {
        if b == PREAMBLE_BYTE {
          resetRequested := false;
          state := Version;
        }
      } else if state == Version {
        if b == VERSION_1 {
          state := Title;
        } else {
          state := Preamble;
        }
      } else if state == Title {
        title := b;
        state := Length;
      } else if state == Length {
        message := [];
        length := b;
        count := 0;
        if length == 0 {
          state := End;
        } else {
          state := Payload;
        }
      } else if state == Payload {
        message := message + [b];
        count := count + 1;
        if count == length as int {
          state := End;
        }
      } else {
        if b == FRAME_END {
          received := received + [Message(title, length, message)];
        }
        state := Preamble;
      }
    }

    /** The receive loop run over the bytes `bs`, read one at a time. */
    method Receive(bs: seq<byte>)
      requires Valid()
      modifies this
      ensures Valid()
      ensures Snapshot() == Run(old(Snapshot()), bs).0
      ensures received == old(received) + Run(old(Snapshot()), bs).1
    {
      var i := 0;
      while i < |bs|
        invariant 0 <= i <= |bs|
        invariant Valid()
        invariant Snapshot() == Run(old(Snapshot()), bs[..i]).0
        invariant received == old(received) + Run(old(Snapshot()), bs[..i]).1
      {
        RunSnoc(old(Snapshot()), bs[..i], bs[i]);
        assert bs[..i + 1] == bs[..i] + [bs[i]];
        Feed(bs[i]);
        i := i + 1;
      }
      assert bs[..i] == bs;
    }

    /** The number of messages waiting in the receive queue. */
    method MessageAvailable() returns (n: nat)
      ensures n == |received|
    {
      n := |received|;
    }

    /** Take the oldest message off the receive queue; `None` when the queue is empty. */
    method GetMessage() returns (m: Option<Message>)
      requires Valid()
      modifies this
      ensures Valid() && Snapshot() == old(Snapshot())
      ensures old(received) == [] ==> m == None && received == []
      ensures old(received) != [] ==> m == Some(old(received)[0]) && received == old(received)[1..]
      ensures m.Some? ==> WellFormed(m.value)
    {
      if received == [] {
        m := None;
      } else {
        m := Some(received[0]);
        received := received[1..];
      }
    }
  }

  /**
   * Sending `msg` to a device that is between frames (or has a reset pending)
   * adds exactly that message to its queue and leaves the loop scanning for the
   * next preamble, holding that message's title, length and payload.
   */
  method SendTo(d: SimpleSerialDevice, msg: OutgoingMessage)
    requires d.Valid() && (d.state == Preamble || d.resetRequested)
    requires EncodeFrame(msg).Sent?
    modifies d
    ensures d.Valid()
    ensures d.Snapshot() == AtTerminator(old(d.Snapshot()), msg).(state := Preamble)
    ensures d.received == old(d.received) + [Delivered(msg)]
  {
    FrameRoundTrip(d.Snapshot(), msg);
    d.Receive(EncodeFrame(msg).frame);
  }

  /** On a fresh device the queue count goes from zero to one and the message taken is the one encoded. */
  method FreshLoopback(msg: OutgoingMessage) returns (n: nat, got: Option<Message>)
    requires EncodeFrame(msg).Sent?
    ensures n == 1 && got == Some(Delivered(msg))
  {
    var d := new SimpleSerialDevice();
    SendTo(d, msg);
    n := d.MessageAvailable();
    got := d.GetMessage();
  }
}
