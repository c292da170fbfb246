/** The send side: building the bytes of one frame from an outgoing message. */
module FrameEncoder {
  import opened SimpleSerialConstants

  /**
   * The dictionary a caller hands to `send_message`. `length` is whatever the
   * caller put there; the encoder overwrites it with the payload length and
   * never reads the caller's value.
   */
  datatype OutgoingMessage = OutgoingMessage(version: string, title: int, length: int, message: seq<byte>)

  /** Which one-byte conversion raised. */
  datatype SendError = TitleOutOfRange | LengthOutOfRange

  /** What `send_message` does with a message: writes a frame, skips it, or takes the error path. */
  datatype SendOutcome = Sent(frame: seq<byte>) | NotSent | Failed(error: SendError)

  /** `f` is the version-1 frame carrying `title` and `payload`, read field by field. */
  predicate IsFrameOf(f: seq<byte>, title: int, payload: seq<byte>) {
    && |f| == |payload| + 5
    && f[0] == PREAMBLE_BYTE
    && f[1] == VERSION_1
    && f[2] as int == title
    && f[3] as int == |payload|
    && f[4..|f| - 1] == payload
    && f[|f| - 1] == FRAME_END
  }

  /** The message can be framed: version "1", and title and payload length each fit in one byte. */
  predicate Encodable(msg: OutgoingMessage) {
    msg.version == "1" && FitsInByte(msg.title) && FitsInByte(|msg.message|)
  }

  /**
   * The frame `send_message` would write for `msg`. A version other than "1"
   * sends nothing and is not an error; a title or a payload length that does
   * not fit in one byte is the error path (the title is converted first).
   */
  function EncodeFrame(msg: OutgoingMessage): (r: SendOutcome)
    ensures r.Sent? <==> Encodable(msg)
    ensures r.NotSent? <==> msg.version != "1"
    ensures r == Failed(TitleOutOfRange) <==> msg.version == "1" && !FitsInByte(msg.title)
    ensures r == Failed(LengthOutOfRange) <==>
              msg.version == "1" && FitsInByte(msg.title) && !FitsInByte(|msg.message|)
    ensures r.Sent? ==> IsFrameOf(r.frame, msg.title, msg.message)
    ensures r.Sent? ==> 5 <= |r.frame| <= 260
  {
    if msg.version != "1" then NotSent
    else if !FitsInByte(msg.title) then Failed(TitleOutOfRange)
    else if !FitsInByte(|msg.message|) then Failed(LengthOutOfRange)
    else Sent([PREAMBLE_BYTE, VERSION_1, msg.title as byte, |msg.message| as byte] + msg.message + [FRAME_END])
  }

  /** The length the caller supplies plays no part in what is sent. */
  lemma EncodeIgnoresLength(msg: OutgoingMessage, claimed: int)
    ensures EncodeFrame(msg.(length := claimed)) == EncodeFrame(msg)
  {
  }

  /** A frame determines the title and payload it carries, so distinct messages never share a frame. */
  lemma EncodeInjective(m1: OutgoingMessage, m2: OutgoingMessage)
    requires EncodeFrame(m1).Sent? && EncodeFrame(m2).Sent?
    requires EncodeFrame(m1).frame == EncodeFrame(m2).frame
    ensures m1.title == m2.title && m1.message == m2.message
  {
    var f := EncodeFrame(m1).frame;
    assert m1.title == f[2] as int == m2.title;
    assert m1.message == f[4..|f| - 1] == m2.message;
  }

  /** A 256-byte payload cannot be framed: its length does not fit the length byte. */
  lemma OversizedPayloadFails(title: byte, payload: seq<byte>)
    requires |payload| == 256
    ensures EncodeFrame(OutgoingMessage("1", title as int, 0, payload)) == Failed(LengthOutOfRange)
  {
  }
}
