/**
 * What the receive state machine makes of the bytes the encoder writes: the
 * round trip between the two halves of the protocol, and resynchronisation
 * after noise, a reset or a corrupt frame.
 */
module Loopback {
  import opened SimpleSerialConstants
  import opened Wrappers
  import opened FrameEncoder
  import opened FrameReceiver

  /** The message the receiver should queue for a message the encoder accepts. */
  function Delivered(msg: OutgoingMessage): (m: Message)
    requires Encodable(msg)
    ensures WellFormed(m)
    ensures m.title as int == msg.title && m.message == msg.message
  {
    Message(msg.title as byte, |msg.message| as byte, msg.message)
  }

  /** The scanner state once every byte of `msg`'s frame but the terminator has been read. */
  function AtTerminator(s: Scan, msg: OutgoingMessage): (r: Scan)
    requires Encodable(msg)
    ensures r.state == End && !r.reset && Valid(r)
    ensures Message(r.title, r.length, r.message) == Delivered(msg)
  {
    s.(state := End, reset := false, title := msg.title as byte, length := |msg.message| as byte,
       message := msg.message, count := |msg.message|)
  }

  /**
   * Reading a frame up to (not including) its terminator, starting in Preamble
   * state or with a reset pending, queues nothing and leaves the scanner in End
   * with the frame's title, length and payload; the old message is forgotten.
   */
  lemma FrameBody(s: Scan, msg: OutgoingMessage)
    requires s.state == Preamble || s.reset
    requires EncodeFrame(msg).Sent?
    ensures var f := EncodeFrame(msg).frame;
      Run(s, f[..|f| - 1]) == (AtTerminator(s, msg), [])
  {
    var f := EncodeFrame(msg).frame;
    var p := msg.message;
    var t, L := msg.title as byte, |p| as byte;
    var header := [PREAMBLE_BYTE, VERSION_1, t, L];
    assert f[..|f| - 1] == header + p;

    var s1 := s.(reset := false, state := Version);
    var s2 := s1.(state := Title);
    var s3 := s2.(title := t, state := Length);
    var s4 := s3.(message := [], length := L, count := 0, state := if L == 0 then End else Payload);
    assert Step(s, PREAMBLE_BYTE) == (s1, None);
    assert Run(s3, [L]) == (s4, []) by { assert [L][1..] == []; }
    assert Run(s2, [t, L]) == (s4, []) by { assert [t, L][1..] == [L]; }
    assert Run(s1, [VERSION_1, t, L]) == (s4, []) by { assert [VERSION_1, t, L][1..] == [t, L]; }
    assert Run(s, header) == (s4, []) by { assert header[1..] == [VERSION_1, t, L]; }

    if L == 0 {
      assert p == [];
      assert header + p == header;
      assert s4 == AtTerminator(s, msg);
    } else {
      PayloadPhase(s4, p);
      assert [] + p == p;
      assert Run(s4, p) == (AtTerminator(s, msg), []);
      RunAppend(s, header, p);
    }
  }

  /** A prefix of `f` stopping short of its last byte queues nothing when `f` without that byte queues nothing. */
  lemma NothingBeforeTerminator(s: Scan, f: seq<byte>, k: nat)
    requires k < |f| && Run(s, f[..|f| - 1]).1 == []
    ensures Run(s, f[..k]).1 == []
  {
    var body := f[..|f| - 1];
    assert body == f[..k] + body[k..];
    PrefixQueuesNothing(s, f[..k], body[k..]);
  }

  /**
   * The round trip. Starting in Preamble state (or with a reset pending), with
   * any leftovers of an earlier frame, reading the frame the encoder produces
   * queues nothing before the last byte and exactly the encoded message on the
   * terminator, after which the scanner is back in Preamble.
   */
  lemma FrameRoundTrip(s: Scan, msg: OutgoingMessage)
    requires s.state == Preamble || s.reset
    requires EncodeFrame(msg).Sent?
    ensures var f := EncodeFrame(msg).frame;
      forall k :: 0 <= k < |f| ==> Run(s, f[..k]).1 == []
    ensures Run(s, EncodeFrame(msg).frame) == (AtTerminator(s, msg).(state := Preamble), [Delivered(msg)])
  {
    var f := EncodeFrame(msg).frame;
    var body := f[..|f| - 1];
    FrameBody(s, msg);
    forall k | 0 <= k < |f|
      ensures Run(s, f[..k]).1 == []
    {
      NothingBeforeTerminator(s, f, k);
    }
    assert f == body + [FRAME_END];
    RunSnoc(s, body, FRAME_END);
    var t := AtTerminator(s, msg);
    assert Step(t, FRAME_END) == (t.(state := Preamble), Some(Delivered(msg)));
    assert Run(s, f).0 == t.(state := Preamble);
    assert Run(s, f).1 == [] + [Delivered(msg)];
    assert [] + [Delivered(msg)] == [Delivered(msg)];
  }

  /** Noise without a preamble byte in front of a frame does not prevent its delivery. */
  lemma NoiseThenFrame(s: Scan, noise: seq<byte>, msg: OutgoingMessage)
    requires s.state == Preamble || s.reset
    requires forall i :: 0 <= i < |noise| ==> noise[i] != PREAMBLE_BYTE
    requires EncodeFrame(msg).Sent?
    ensures Run(s, noise + EncodeFrame(msg).frame).1 == [Delivered(msg)]
    ensures Run(s, noise + EncodeFrame(msg).frame).0.state == Preamble
  {
    var f := EncodeFrame(msg).frame;
    if noise == [] {
      assert noise + f == f;
      FrameRoundTrip(s, msg);
    } else {
      var s' := s.(state := Preamble);
      assert Step(s, noise[0]) == (s', None);
      NoiseIsIgnored(s', noise[1..]);
      assert Run(s, noise) == (s', []);
      FrameRoundTrip(s', msg);
      RunAppend(s, noise, f);
    }
  }

  /**
   * A frame whose terminator is replaced by any other byte queues nothing and
   * leaves nothing behind that disturbs the next frame.
   */
  lemma CorruptFrameThenFrame(s: Scan, bad: OutgoingMessage, wrong: byte, msg: OutgoingMessage)
    requires s.state == Preamble || s.reset
    requires EncodeFrame(bad).Sent? && wrong != FRAME_END
    requires EncodeFrame(msg).Sent?
    ensures var g := EncodeFrame(bad).frame;
      Run(s, g[..|g| - 1] + [wrong] + EncodeFrame(msg).frame).1 == [Delivered(msg)]
  {
    var g := EncodeFrame(bad).frame;
    var f := EncodeFrame(msg).frame;
    var body := g[..|g| - 1];
    FrameBody(s, bad);
    RunSnoc(s, body, wrong);
    var t := AtTerminator(s, bad).(state := Preamble);
    assert Run(s, body + [wrong]) == (t, []);
    FrameRoundTrip(t, msg);
    RunAppend(s, body + [wrong], f);
  }

  /** Encoded frames sent back to back. */
  function Frames(msgs: seq<OutgoingMessage>): seq<byte>
    requires forall i :: 0 <= i < |msgs| ==> Encodable(msgs[i])
  {
    if msgs == [] then [] else EncodeFrame(msgs[0]).frame + Frames(msgs[1..])
  }

  /** What the receiver should queue for a sequence of accepted messages, in order. */
  function DeliveredAll(msgs: seq<OutgoingMessage>): (ms: seq<Message>)
    requires forall i :: 0 <= i < |msgs| ==> Encodable(msgs[i])
    ensures |ms| == |msgs|
    ensures forall i :: 0 <= i < |msgs| ==> ms[i] == Delivered(msgs[i])
  {
    if msgs == [] then [] else [Delivered(msgs[0])] + DeliveredAll(msgs[1..])
  }

  /** A stream of back-to-back frames is delivered message for message, in order. */
  lemma {:induction false} FramesRoundTrip(s: Scan, msgs: seq<OutgoingMessage>)
    requires s.state == Preamble || s.reset
    requires forall i :: 0 <= i < |msgs| ==> Encodable(msgs[i])
    ensures Run(s, Frames(msgs)).1 == DeliveredAll(msgs)
    ensures Run(s, Frames(msgs)).0.state == Preamble || (msgs == [] && s.reset)
    decreases |msgs|
  {
    if msgs != [] {
      var f := EncodeFrame(msgs[0]).frame;
      FrameRoundTrip(s, msgs[0]);
      var t := AtTerminator(s, msgs[0]).(state := Preamble);
      FramesRoundTrip(t, msgs[1..]);
      RunAppend(s, f, Frames(msgs[1..]));
    }
  }

  /** A zero-length payload: `AA 01 09 00 1E` is the message with title 9 and an empty payload. */
  lemma ZeroLengthExample()
    ensures Run(Initial, [0xAA, 0x01, 0x09, 0x00, 0x1E]).1 == [Message(9, 0, [])]
  {
    var msg := OutgoingMessage("1", 9, 0, []);
    assert EncodeFrame(msg).frame == [0xAA, 0x01, 0x09, 0x00, 0x1E];
    FrameRoundTrip(Initial, msg);
  }

  /** Preamble and terminator bytes inside the payload window are data: `AA 01 03 02 AA 1E 1E`. */
  lemma EmbeddedControlBytesExample()
    ensures Run(Initial, [0xAA, 0x01, 0x03, 0x02, 0xAA, 0x1E, 0x1E]).1 == [Message(3, 2, [0xAA, 0x1E])]
  {
    var msg := OutgoingMessage("1", 3, 0, [0xAA, 0x1E]);
    assert EncodeFrame(msg).frame == [0xAA, 0x01, 0x03, 0x02, 0xAA, 0x1E, 0x1E];
    FrameRoundTrip(Initial, msg);
  }

  /** A frame ending in 0xFF instead of the terminator, then a valid frame: only the valid one is queued. */
  lemma ResyncExample()
    ensures Run(Initial, [0xAA, 0x01, 0x05, 0x02, 0x11, 0x22, 0xFF] + [0xAA, 0x01, 0x07, 0x00, 0x1E]).1
         == [Message(7, 0, [])]
  {
    var bad := OutgoingMessage("1", 5, 0, [0x11, 0x22]);
    var msg := OutgoingMessage("1", 7, 0, []);
    var g := EncodeFrame(bad).frame;
    assert g[..|g| - 1] + [0xFF] == [0xAA, 0x01, 0x05, 0x02, 0x11, 0x22, 0xFF];
    assert EncodeFrame(msg).frame == [0xAA, 0x01, 0x07, 0x00, 0x1E];
    CorruptFrameThenFrame(Initial, bad, 0xFF, msg);
  }

  /**
   * Resynchronisation reaches only noise free of 0xAA: one stray preamble byte
   * in front of a frame turns the frame's own preamble into a version mismatch,
   * and the rest of the frame is then ignored in Preamble state.
   */
  lemma StrayPreambleLosesFrame()
    ensures Run(Initial, [0xAA] + [0xAA, 0x01, 0x07, 0x00, 0x1E]).1 == []
  {
    var rest: seq<byte> := [0x07, 0x00, 0x1E];
    RepeatedPreambleDoesNotStartFrame(Initial);
    NoiseIsIgnored(Initial, rest);
    assert [0xAA] + [0xAA, 0x01, 0x07, 0x00, 0x1E] == [PREAMBLE_BYTE, PREAMBLE_BYTE, VERSION_1] + rest;
    RunAppend(Initial, [PREAMBLE_BYTE, PREAMBLE_BYTE, VERSION_1], rest);
  }

  /**
   * A frame with a wrong version byte whose remaining bytes hold a 0xAA hides
   * the frame that follows it: `AA 02 05 01 AA` then `AA 01 07 00 1E` queues nothing.
   */
  lemma MismatchedFrameHidesNextFrame()
    ensures Run(Initial, [0xAA, 0x02, 0x05, 0x01, 0xAA] + [0xAA, 0x01, 0x07, 0x00, 0x1E]).1 == []
  {
    var v := Initial.(state := Version);
    var first: seq<byte> := [0xAA, 0x02];
    var noise: seq<byte> := [0x05, 0x01];
    var stray: seq<byte> := [PREAMBLE_BYTE, PREAMBLE_BYTE, VERSION_1];
    var rest: seq<byte> := [0x07, 0x00, 0x1E];
    assert Run(Initial, first) == (Initial, []) by {
      assert Step(Initial, 0xAA) == (v, None);
      VersionMismatchResyncs(v, 0x02);
      assert first[1..] == [0x02];
      assert [0x02 as byte][1..] == [];
    }
    NoiseIsIgnored(Initial, noise);
    RepeatedPreambleDoesNotStartFrame(Initial);
    NoiseIsIgnored(Initial, rest);
    assert [0xAA, 0x02, 0x05, 0x01, 0xAA] + [0xAA, 0x01, 0x07, 0x00, 0x1E]
        == first + (noise + (stray + rest));
    RunAppend(Initial, stray, rest);
    RunAppend(Initial, noise, stray + rest);
    RunAppend(Initial, first, noise + (stray + rest));
  }
}
