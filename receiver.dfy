/**
 * The receive side as values: the scanner's state, one loop iteration of the
 * receive state machine (`Step`) and the iteration over a run of bytes (`Run`).
 * The device class in module SimpleSerial is proved to behave as these say.
 */
module FrameReceiver {
  import opened SimpleSerialConstants
  import opened Wrappers

  /** The six scan states of the receive state machine. */
  datatype ScanState = Preamble | Version | Title | Length | Payload | End

  /** A received message as it is placed on the receive queue. */
  datatype Message = Message(title: byte, length: byte, message: seq<byte>)

  /**
   * Everything the state machine keeps between two bytes: the scan state, the
   * message being built (title, advertised length, payload so far), the payload
   * byte counter and the external reset flag.
   */
  datatype Scan = Scan(state: ScanState, title: byte, length: byte, message: seq<byte>, count: nat, reset: bool)

  /** The state the loop starts in: an empty message, counter zero, no reset pending. */
  const Initial: Scan := Scan(Preamble, 0, 0, [], 0, false)

  /** A queued message's length field agrees with its payload. */
  predicate WellFormed(m: Message) {
    m.length as int == |m.message|
  }

  /** What the scanner keeps true between bytes while it assembles a payload. */
  predicate Valid(s: Scan) {
    && (s.state == Payload ==> s.count < s.length as int && |s.message| == s.count)
    && (s.state == End ==> |s.message| == s.length as int)
  }

  /** The queue entries produced by one step. */
  function Emitted(out: Option<Message>): seq<Message>
  {
    if out.Some? then [out.value] else []
  }

  /**
   * One iteration of the receive loop on byte `b`: the next scanner state and
   * the message it completes, if any. A pending reset makes the byte be read in
   * Preamble state; only a preamble byte clears the flag.
   */
  function Step(s: Scan, b: byte): (r: (Scan, Option<Message>))
    ensures r.1.Some? <==> !s.reset && s.state == End && b == FRAME_END
    ensures r.1.Some? ==> r.1.value == Message(s.title, s.length, s.message)
    ensures r.0.reset <==> s.reset && b != PREAMBLE_BYTE
    ensures Valid(s) ==> Valid(r.0) && (r.1.Some? ==> WellFormed(r.1.value))
  {
    var s0 := if s.reset then s.(state := Preamble) else s;
    match s0.state
    case Preamble =>
      if b == PREAMBLE_BYTE then (s0.(reset := false, state := Version), None) else (s0, None)
    case Version =>
      (s0.(state := if b == VERSION_1 then Title else Preamble), None)
    case Title =>
      (s0.(title := b, state := Length), None)
    case Length =>
      (s0.(message := [], length := b, count := 0, state := if b == 0 then End else Payload), None)
    case Payload =>
      var n := s0.count + 1;
      (s0.(message := s0.message + [b], count := n, state := if n == s0.length as int then End else Payload), None)
    case End =>
      (s0.(state := Preamble), if b == FRAME_END then Some(Message(s0.title, s0.length, s0.message)) else None)
  }

  /** The loop run over `bs`, one byte per iteration: the final state and every message queued, in order. */
  function Run(s: Scan, bs: seq<byte>): (r: (Scan, seq<Message>))
    ensures |r.1| <= |bs|
    ensures Valid(s) ==> Valid(r.0) && forall m <- r.1 :: WellFormed(m)
    decreases |bs|
  {
    if bs == [] then (s, [])
    else
      var next := Step(s, bs[0]);
      var rest := Run(next.0, bs[1..]);
      (rest.0, Emitted(next.1) + rest.1)
  }

  /** Running over `a + b` is running over `a`, then over `b` from where `a` left off. */
  lemma {:induction false} RunAppend(s: Scan, a: seq<byte>, b: seq<byte>)
    ensures Run(s, a + b).0 == Run(Run(s, a).0, b).0
    ensures Run(s, a + b).1 == Run(s, a).1 + Run(Run(s, a).0, b).1
    decreases |a|
  {
    if a == [] {
      assert a + b == b;
    } else {
      var next := Step(s, a[0]);
      assert (a + b)[0] == a[0];
      assert (a + b)[1..] == a[1..] + b;
      RunAppend(next.0, a[1..], b);
      assert Emitted(next.1) + (Run(next.0, a[1..]).1 + Run(Run(next.0, a[1..]).0, b).1)
          == (Emitted(next.1) + Run(next.0, a[1..]).1) + Run(Run(next.0, a[1..]).0, b).1;
    }
  }

  /** Running over one more byte is one more `Step`. */
  lemma RunSnoc(s: Scan, a: seq<byte>, b: byte)
    ensures Run(s, a + [b]).0 == Step(Run(s, a).0, b).0
    ensures Run(s, a + [b]).1 == Run(s, a).1 + Emitted(Step(Run(s, a).0, b).1)
  {
    RunAppend(s, a, [b]);
    var mid := Run(s, a).0;
    assert [b][1..] == [];
    assert Run(mid, [b]) == (Step(mid, b).0, Emitted(Step(mid, b).1) + []);
  }

  /** If a run over `a + b` queues nothing, neither does the run over its prefix `a`. */
  lemma PrefixQueuesNothing(s: Scan, a: seq<byte>, b: seq<byte>)
    requires Run(s, a + b).1 == []
    ensures Run(s, a).1 == []
  {
    RunAppend(s, a, b);
  }

  /** In Preamble state a byte other than the preamble changes nothing, whether or not a reset is pending. */
  lemma PreambleIgnoresNoise(s: Scan, b: byte)
    requires s.state == Preamble && b != PREAMBLE_BYTE
    ensures Step(s, b) == (s, None)
  {
  }

  /** Any stretch of bytes without a preamble byte, seen in Preamble state, changes nothing and queues nothing. */
  lemma {:induction false} NoiseIsIgnored(s: Scan, noise: seq<byte>)
    requires s.state == Preamble
    requires forall i :: 0 <= i < |noise| ==> noise[i] != PREAMBLE_BYTE
    ensures Run(s, noise) == (s, [])
  {
    if noise != [] {
      assert Step(s, noise[0]) == (s, None);
      NoiseIsIgnored(s, noise[1..]);
    }
  }

  /** In Preamble state, with no reset pending, the preamble byte moves to Version and changes nothing else. */
  lemma PreambleStartsFrame(s: Scan)
    requires s.state == Preamble && !s.reset
    ensures Step(s, PREAMBLE_BYTE) == (s.(state := Version), None)
  {
  }

  /** In Version state the version-1 byte moves to Title and changes nothing else. */
  lemma VersionAccepted(s: Scan)
    requires s.state == Version && !s.reset
    ensures Step(s, VERSION_1) == (s.(state := Title), None)
  {
  }

  /**
   * In Version state a byte other than 0x01 sends the scanner back to Preamble
   * and is consumed there: it is not tested again as a preamble byte.
   */
  lemma VersionMismatchResyncs(s: Scan, b: byte)
    requires s.state == Version && !s.reset && b != VERSION_1
    ensures Step(s, b) == (s.(state := Preamble), None)
  {
  }

  /** A second preamble byte in place of the version does not start a frame: `0xAA 0xAA 0x01` leaves the scanner in Preamble. */
  lemma RepeatedPreambleDoesNotStartFrame(s: Scan)
    requires s.state == Preamble && !s.reset
    ensures Run(s, [PREAMBLE_BYTE, PREAMBLE_BYTE, VERSION_1]) == (s, [])
  {
    var s1 := s.(state := Version);
    assert Step(s, PREAMBLE_BYTE) == (s1, None);
    assert Step(s1, PREAMBLE_BYTE) == (s, None);
    assert Step(s, VERSION_1) == (s, None);
    assert [VERSION_1][1..] == [];
    assert Run(s, [VERSION_1]) == (s, []);
    assert [PREAMBLE_BYTE, VERSION_1][1..] == [VERSION_1];
    assert Run(s1, [PREAMBLE_BYTE, VERSION_1]) == (s, []);
    assert [PREAMBLE_BYTE, PREAMBLE_BYTE, VERSION_1][1..] == [PREAMBLE_BYTE, VERSION_1];
  }

  /** In Title state any byte is stored as the title and the scanner moves to Length. */
  lemma TitleStored(s: Scan, b: byte)
    requires s.state == Title && !s.reset
    ensures Step(s, b) == (s.(title := b, state := Length), None)
  {
  }

  /**
   * In Length state the payload buffer is emptied and the counter zeroed; a zero
   * length goes straight to End.
   */
  lemma LengthStartsPayload(s: Scan, b: byte)
    requires s.state == Length && !s.reset
    ensures Step(s, b).1 == None
    ensures Step(s, b).0 == s.(message := [], length := b, count := 0, state := if b == 0 then End else Payload)
  {
  }

  /**
   * In Payload state every byte, whatever its value (a preamble or terminator
   * byte included), is appended and counted; the scanner moves to End exactly
   * when the counter reaches the advertised length.
   */
  lemma PayloadBytesAreOpaque(s: Scan, b: byte)
    requires s.state == Payload && !s.reset
    ensures Step(s, b).1 == None
    ensures Step(s, b).0.message == s.message + [b] && Step(s, b).0.count == s.count + 1
    ensures Step(s, b).0.state == End <==> s.count + 1 == s.length as int
    ensures Step(s, b).0.state != End ==> Step(s, b).0.state == Payload
  {
  }

  /**
   * Every byte seen in End state returns the scanner to Preamble; only the
   * terminator queues the message, any other byte abandons the frame.
   */
  lemma EndAlwaysResyncs(s: Scan, b: byte)
    requires s.state == End && !s.reset
    ensures Step(s, b).0 == s.(state := Preamble)
    ensures Step(s, b).1 == if b == FRAME_END then Some(Message(s.title, s.length, s.message)) else None
  {
  }

  /**
   * A pending reset makes the byte be read in Preamble state whatever the
   * previous state; the flag stays set until a preamble byte is seen, which also
   * moves the scanner to Version.
   */
  lemma ResetRestartsScan(s: Scan, b: byte)
    requires s.reset
    ensures Step(s, b) == Step(s.(state := Preamble), b)
    ensures Step(s, b).1 == None
    ensures b == PREAMBLE_BYTE ==> Step(s, b).0 == s.(state := Version, reset := false)
    ensures b != PREAMBLE_BYTE ==> Step(s, b).0 == s.(state := Preamble)
  {
  }

  /**
   * Assembling a payload: from Payload state, the bytes still owed by the
   * advertised length are appended, the scanner reaches End and nothing is queued.
   */
  lemma {:induction false} PayloadPhase(s: Scan, q: seq<byte>)
    requires s.state == Payload && !s.reset && Valid(s)
    requires |q| == s.length as int - s.count
    ensures Run(s, q) == (s.(state := End, message := s.message + q, count := s.length as int), [])
    decreases |q|
  {
    var s1 := Step(s, q[0]).0;
    assert Step(s, q[0]).1 == None;
    if |q| == 1 {
      assert q == [q[0]];
      assert s1 == s.(state := End, message := s.message + q, count := s.length as int);
    } else {
      assert s1 == s.(message := s.message + [q[0]], count := s.count + 1);
      PayloadPhase(s1, q[1..]);
      assert s.message + [q[0]] + q[1..] == s.message + q by {
        assert q == [q[0]] + q[1..];
      }
    }
  }
}
