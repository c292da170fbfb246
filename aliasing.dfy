/**
 * The receive queue as the source actually fills it. The receive loop keeps a
 * single message dictionary, updates it in place while scanning, and puts that
 * same object on the queue for every completed frame. The rest of the model
 * queues value snapshots.
 */
module QueueAliasing {
  import opened SimpleSerialConstants
  import opened FrameEncoder
  import opened FrameReceiver
  import opened Loopback

  /** The loop's one message dictionary: title, length and payload. */
  class RecvMsg {
    var title: byte
    var length: byte
    var message: seq<byte>

    /** The dictionary as first created: title 0, length 0, empty payload. */
    constructor ()
      ensures title == 0 && length == 0 && message == []
    {
      title, length, message := 0, 0, [];
    }

    /** What a consumer reading this dictionary sees now. */
    function Read(): Message
      reads this
    {
      Message(title, length, message)
    }
  }

  /** The receive loop with its message kept in one `RecvMsg` object that is queued by reference. */
  class AliasedDevice {
    var state: ScanState
    var count: nat
    var resetRequested: bool
    const recvMsg: RecvMsg
    var queue: seq<RecvMsg>

    /** The loop's working state as a value, read through the shared object. */
    function Snapshot(): Scan
      reads this, recvMsg
    {
      Scan(state, recvMsg.title, recvMsg.length, recvMsg.message, count, resetRequested)
    }

    /** The scanner invariant holds and every queue entry is the loop's own message object. */
    ghost predicate Valid()
      reads this, recvMsg
    {
      FrameReceiver.Valid(Snapshot()) && forall q <- queue :: q == recvMsg
    }

    constructor ()
      ensures Valid() && fresh(recvMsg)
      ensures Snapshot() == Initial && queue == []
    {
      recvMsg := new RecvMsg();
      state, count, resetRequested := Preamble, 0, false;
      queue := [];
    }

    /** Every queue entry reads as the message the loop is building now, not the one it held when queued. */
    function Entry(i: nat): (m: Message)
      requires Valid() && i < |queue|
      reads this, recvMsg, queue
      ensures m == Message(Snapshot().title, Snapshot().length, Snapshot().message)
    {
      assert queue[i] in queue;
      queue[i].Read()
    }

    /** One loop iteration, updating the shared message object in place. */
    method Feed(b: byte)
      requires Valid()
      modifies this, recvMsg
      ensures Valid()
      ensures Snapshot() == Step(old(Snapshot()), b).0
      ensures queue == old(queue) + (if Step(old(Snapshot()), b).1.Some? then [recvMsg] else [])
    {
      if resetRequested {
        state := Preamble;
      }
      if state == Preamble {
        if b == PREAMBLE_BYTE {
          resetRequested := false;
          state := Version;
        }
      } else if state == Version {
        if b == VERSION_1 {
          state := Title;
        } else {
          state := Preamble;
        }
      } else if state == Title {
        recvMsg.title := b;
        state := Length;
      } else if state == Length {
        recvMsg.message := [];
        recvMsg.length := b;
        count := 0;
        if recvMsg.length == 0 {
          state := End;
        } else {
          state := Payload;
        }
      } else if state == Payload {
        recvMsg.message := recvMsg.message + [b];
        count := count + 1;
        if count == recvMsg.length as int {
          state := End;
        }
      } else {
        if b == FRAME_END {
          queue := queue + [recvMsg];
        }
        state := Preamble;
      }
    }

    /** The loop over `bs`: the queue gains one reference to the shared object per completed frame. */
    method Receive(bs: seq<byte>)
      requires Valid()
      modifies this, recvMsg
      ensures Valid()
      ensures Snapshot() == Run(old(Snapshot()), bs).0
      ensures |queue| == |old(queue)| + |Run(old(Snapshot()), bs).1|
    {
      var i := 0;
      while i < |bs|
        invariant 0 <= i <= |bs|
        invariant Valid()
        invariant Snapshot() == Run(old(Snapshot()), bs[..i]).0
        invariant |queue| == |old(queue)| + |Run(old(Snapshot()), bs[..i]).1|
      {
        RunSnoc(old(Snapshot()), bs[..i], bs[i]);
        assert bs[..i + 1] == bs[..i] + [bs[i]];
        Feed(bs[i]);
        i := i + 1;
      }
      assert bs[..i] == bs;
    }
  }

  /** Two frames back to back: both messages are produced, and the scanner ends holding the second. */
  lemma TwoFrames(a: OutgoingMessage, b: OutgoingMessage)
    requires EncodeFrame(a).Sent? && EncodeFrame(b).Sent?
    ensures var r := Run(Initial, EncodeFrame(a).frame + EncodeFrame(b).frame);
      && r.1 == [Delivered(a), Delivered(b)]
      && Message(r.0.title, r.0.length, r.0.message) == Delivered(b)
  {
    FrameRoundTrip(Initial, a);
    var t := AtTerminator(Initial, a).(state := Preamble);
    FrameRoundTrip(t, b);
    RunAppend(Initial, EncodeFrame(a).frame, EncodeFrame(b).frame);
    var r := Run(Initial, EncodeFrame(a).frame + EncodeFrame(b).frame);
    assert r.0 == AtTerminator(t, b).(state := Preamble);
    assert r.1 == [Delivered(a), Delivered(b)];
  }

  /**
   * The source as written: after frames `AA 01 01 01 11 1E` and
   * `AA 01 02 01 22 1E`, the first queue entry reads as the second message,
   * where the snapshot queue holds the first.
   */
  method AliasedQueueLosesFirstFrame() returns (queued: nat, first: Message)
    ensures queued == 2
    ensures first == Message(2, 1, [0x22]) && first != Message(1, 1, [0x11])
  {
    var a := OutgoingMessage("1", 1, 0, [0x11]);
    var b := OutgoingMessage("1", 2, 0, [0x22]);
    TwoFrames(a, b);
    var d := new AliasedDevice();
    d.Receive(EncodeFrame(a).frame + EncodeFrame(b).frame);
    queued := |d.queue|;
    first := d.Entry(0);
  }
}
