# Simple serial framing, modelled in Dafny

This project models the framing layer of the `py_simple_serial` package. The layer delimits messages in a serial byte
stream. A frame is the preamble byte `0xAA`, the version byte `0x01`, a title byte, a length byte, that many payload
bytes and the terminator `0x1E`.

The model has two halves.

- **Receive side.** `simpleSerialDevice.recv_state_machine` runs a loop that reads one byte per iteration. It moves
  through six scan states: PREAMBLE, VERSION, TITLE, LENGTH, MESSAGE and END.
  - A pending reset flag makes the byte be read in PREAMBLE state.
  - Completed frames are put on a FIFO receive queue. `message_available` and `get_message` read that queue.
  - The loop is specified by two pure functions. `FrameReceiver.Step` is one iteration. `FrameReceiver.Run` is the
    loop over a run of bytes.
  - It is implemented by the class `SimpleSerial.SimpleSerialDevice`. The class has the loop's working variables, the
    reset flag and the queue as fields. Its `Feed` method is proved equal to `Step`, and its `Receive` loop is proved
    equal to `Run`.
- **Send side.** `send_message` builds the frame bytes from a message dictionary. `FrameEncoder.EncodeFrame` models
  this.
  - It recomputes the length from the payload.
  - A version other than `"1"` sends nothing and is not an error.
  - A title or payload length that does not fit in one byte takes the error path.

The round trip connects the two halves. Start in PREAMBLE state, or with a reset pending, and read an encoded frame.
Nothing is queued before the terminator; on the terminator exactly the encoded message is queued and the scanner is
back in PREAMBLE. The receiver resynchronises after noise free of `0xAA` and after a frame with a wrong terminator.
It does not resynchronise in every case. A stray `0xAA` in front of a frame loses that frame. A frame with a wrong
version byte whose remaining bytes hold `0xAA` loses the frame after it. Both are proved as counterexamples.

Files:
- `constants.dfy`: the wire constants from `simpleSerialConstants.py`, the `byte` type and `Option`.
- `encoder.dfy`: the encoder.
- `receiver.dfy`: the receive state machine as values.
- `loopback.dfy`: round-trip and resynchronisation lemmas.
- `device.dfy`: the device class.
- `aliasing.dfy`: the queue as the source actually fills it, with one message object queued by reference (see Findings).

Facts about the wire format and the receiver:
- A frame is `|payload| + 5` bytes, so 5 to 260 bytes.
- The length byte is authoritative. The receiver checks only that the byte after the payload is the terminator.
- Completed frames go to the receive queue.

## Model

| member | source | states |
|---|---|---|
| `FrameEncoder.EncodeFrame` | simpleSerial.py:277-301 | a frame is sent exactly when the version is "1" and the title and payload length each fit in one byte; a version other than "1" sends nothing without error; an out-of-range title (tested first) or payload length is the error path; a sent frame is preamble, version 1, title, payload length, payload, terminator, 5 to 260 bytes long |
| `FrameEncoder.EncodeIgnoresLength` | simpleSerial.py:278 | the length field supplied by the caller has no influence on what is sent |
| `FrameEncoder.EncodeInjective` | simpleSerial.py:283 | two accepted messages with the same frame have the same title and payload |
| `FrameEncoder.OversizedPayloadFails` | simpleSerial.py:283 | a 256-byte payload is refused because its length does not fit the length byte |
| `FrameReceiver.Step` | simpleSerial.py:159-238 | one loop iteration queues a message exactly when no reset is pending, the state is END and the byte is the terminator, and that message is the title, length and payload collected so far; the reset flag survives exactly when it was set and the byte is not a preamble; the payload invariant and the well-formedness of what is queued are preserved |
| `FrameReceiver.Run` | simpleSerial.py:149-238 | the loop over a run of bytes queues at most one message per byte, keeps the payload invariant and queues only messages whose length field equals their payload length |
| `FrameReceiver.RunAppend` | simpleSerial.py:149-156 | reading `a + b` is reading `a` and then `b` from the state `a` leaves; the queue gets `a`'s messages followed by `b`'s |
| `FrameReceiver.PreambleIgnoresNoise` | simpleSerial.py:159-174 | in PREAMBLE state, with or without a reset pending, a byte other than 0xAA changes nothing and queues nothing |
| `FrameReceiver.NoiseIsIgnored` | simpleSerial.py:162-174 | any stretch of bytes without 0xAA read in PREAMBLE state leaves the scanner unchanged and the queue empty |
| `FrameReceiver.PreambleStartsFrame` | simpleSerial.py:165-174 | in PREAMBLE with no reset pending, 0xAA moves to VERSION and changes nothing else |
| `FrameReceiver.VersionAccepted` | simpleSerial.py:181-182 | in VERSION, 0x01 moves to TITLE and changes nothing else |
| `FrameReceiver.TitleStored` | simpleSerial.py:187-193 | in TITLE any byte is stored as the title and the state becomes LENGTH |
| `FrameReceiver.VersionMismatchResyncs` | simpleSerial.py:176-185 | in VERSION state a byte other than 0x01 returns to PREAMBLE, consumes the byte and changes nothing else |
| `FrameReceiver.RepeatedPreambleDoesNotStartFrame` | simpleSerial.py:162-185 | `0xAA 0xAA 0x01` read in PREAMBLE leaves the scanner in PREAMBLE: the second 0xAA is not a new frame start |
| `FrameReceiver.LengthStartsPayload` | simpleSerial.py:195-213 | in LENGTH state the payload buffer is emptied, the counter zeroed and the length stored; a zero length goes to END, any other to MESSAGE |
| `FrameReceiver.PayloadBytesAreOpaque` | simpleSerial.py:215-223 | in MESSAGE state any byte, 0xAA and 0x1E included, is appended and counted without output; the state becomes END exactly when the counter reaches the length |
| `FrameReceiver.EndAlwaysResyncs` | simpleSerial.py:225-238 | every byte read in END returns to PREAMBLE; the terminator queues the collected message and any other byte discards it |
| `FrameReceiver.ResetRestartsScan` | simpleSerial.py:158-174 | with the reset flag set the byte is read as in PREAMBLE whatever the state; a preamble byte clears the flag and moves to VERSION, any other byte leaves the flag set |
| `FrameReceiver.PayloadPhase` | simpleSerial.py:215-223 | from MESSAGE state, the bytes still owed by the length field are all appended, the scanner reaches END and nothing is queued |
| `Loopback.Delivered` | simpleSerial.py:229-231 | the message queued for an accepted outgoing message has its title and payload and a length field equal to the payload length |
| `Loopback.FrameBody` | simpleSerial.py:162-223 | reading a frame up to its terminator from PREAMBLE (or with a reset pending) queues nothing and ends in END holding the frame's title, length and payload, whatever an earlier frame left behind |
| `Loopback.FrameRoundTrip` | simpleSerial.py:162-238 | reading an encoded frame from PREAMBLE (or with a reset pending) queues nothing on any proper prefix and exactly the encoded message on the terminator, ending in PREAMBLE with the reset flag clear |
| `Loopback.NoiseThenFrame` | simpleSerial.py:162-238 | bytes without 0xAA in front of a frame do not prevent its delivery |
| `Loopback.CorruptFrameThenFrame` | simpleSerial.py:225-238 | a frame with any wrong terminator queues nothing and leaves nothing that disturbs the next frame, which is delivered exactly |
| `Loopback.FramesRoundTrip` | simpleSerial.py:149-238 | a sequence of encoded frames sent back to back is queued message for message, in order |
| `Loopback.StrayPreambleLosesFrame` | simpleSerial.py:162-185 | `AA` followed by the frame `AA 01 07 00 1E` queues nothing: the frame's own preamble is read as a wrong version byte |
| `Loopback.MismatchedFrameHidesNextFrame` | simpleSerial.py:162-185 | `AA 02 05 01 AA` followed by the frame `AA 01 07 00 1E` queues nothing |
| `Loopback.ZeroLengthExample` | simpleSerial.py:205-209 | `AA 01 09 00 1E` queues the message with title 9 and an empty payload |
| `Loopback.EmbeddedControlBytesExample` | simpleSerial.py:215-223 | `AA 01 03 02 AA 1E 1E` queues title 3 with payload `AA 1E` |
| `Loopback.ResyncExample` | simpleSerial.py:225-238 | `AA 01 05 02 11 22 FF` followed by `AA 01 07 00 1E` queues only the message with title 7 and an empty payload |
| `SimpleSerial.SimpleSerialDevice.constructor` | simpleSerial.py:143-147 | the loop starts in PREAMBLE with title 0, length 0, an empty payload, counter 0, no reset pending and an empty queue |
| `SimpleSerial.SimpleSerialDevice.RequestReset` | simpleSerial.py:94 | raising the reset flag changes nothing else |
| `SimpleSerial.SimpleSerialDevice.Feed` | simpleSerial.py:159-238 | one loop iteration updates the working state exactly as `Step` and appends to the queue what `Step` emits, keeping the device invariant |
| `SimpleSerial.SimpleSerialDevice.Receive` | simpleSerial.py:149-156 | reading a run of bytes one at a time leaves the working state `Run` gives and appends `Run`'s messages to the queue |
| `SimpleSerial.SimpleSerialDevice.MessageAvailable` | simpleSerial.py:252-256 | the result is the number of queued messages |
| `SimpleSerial.SimpleSerialDevice.GetMessage` | simpleSerial.py:258-264 | takes the oldest queued message and removes it, leaving the scan state alone; an empty queue yields nothing |
| `SimpleSerial.SendTo` | simpleSerial.py:231 | receiving an encoded frame on a device between frames appends exactly that message to its queue and leaves it in PREAMBLE with no reset pending, holding the frame's title, length and payload with the counter equal to the payload length |
| `SimpleSerial.FreshLoopback` | simpleSerial.py:252-264 | on a new device, after one encoded frame, `message_available` is 1 and `get_message` returns the encoded message |
| `QueueAliasing.RecvMsg.constructor` | simpleSerial.py:143 | the loop's one message dictionary starts with title 0, length 0 and an empty payload |
| `QueueAliasing.AliasedDevice.constructor` | simpleSerial.py:143-147 | the loop starts in PREAMBLE with counter 0, no reset pending and an empty queue; its newly created message object holds title 0, length 0 and an empty payload |
| `QueueAliasing.AliasedDevice.Entry` | simpleSerial.py:143-231 | every queue entry reads as the title, length and payload the loop holds now, because every entry is the loop's one message object |
| `QueueAliasing.AliasedDevice.Feed` | simpleSerial.py:159-238 | one iteration updates the shared message object in place as `Step` says and queues a reference to that same object exactly when `Step` emits |
| `QueueAliasing.AliasedDevice.Receive` | simpleSerial.py:149-156 | the loop over a run of bytes leaves the state `Run` gives and adds one reference per message `Run` produces |
| `QueueAliasing.TwoFrames` | simpleSerial.py:162-238 | two frames back to back produce both messages in order, and the scanner ends holding the second |
| `QueueAliasing.AliasedQueueLosesFirstFrame` | simpleSerial.py:143-231 | after frames with titles 1 and 2 on the aliased device, two entries are queued and the first reads as title 2, payload `22`, not as the first message |

## Left out

- Serial I/O is a foreign library and is not modelled. This covers opening and configuring the port, `connect`, `read`, `write`, `close` and `getPorts`. The byte read is the argument of `Feed`. The bytes written are the frame `EncodeFrame` returns.
- A failing `write` is not modelled; it is a transport failure outside the framing logic.
- Read timeouts are not modelled. A timed-out read yields no byte, and the source still runs one iteration on it. The model assumes every iteration reads exactly one byte, as with the default `timeout=None` of the constructor.
- Threads and locks are not modelled: `start`, the empty `stop`, the reset lock and the channel lock. Concurrency is outside the model. The reset flag is a plain field.
- SimpleSerial.SimpleSerialDevice.RequestReset: the source has no method that sets the reset flag; it is read and cleared only inside the loop. This method stands for whatever code sets the flag.
- The receive and error callbacks and the exception re-raise are not modelled. The encoder's error path is the `Failed` result.
- Logging, `print(bytes_to_send)`, `SERIAL_PARITY` and the baud and parity lists are not modelled; they have no protocol meaning.
- Commented-out send-queue code is not live and is not modelled.
- The receive queue of `SimpleSerialDevice` holds value snapshots. The source puts the same mutable dictionary on the queue each time; `QueueAliasing.AliasedDevice` models that behaviour separately (see Findings).
- SimpleSerial.SimpleSerialDevice.GetMessage: returns `None` on an empty queue. In the source, `Queue.get()` blocks until the receive thread puts a message, and modelling that needs the concurrency left out.
- FrameEncoder.EncodeFrame: a message dictionary with a missing key or values of the wrong Python type either raises or silently sends nothing in the source (the integer version `1` is not equal to `"1"`). The model's message type cannot express that.
- FrameEncoder.EncodeFrame: `send_message` also writes the recomputed length back into the caller's dictionary. The model does not return that change. `EncodeIgnoresLength` states that the caller's length is never used.

## Findings

| source | as written | input that shows it | evidently intended | confidence | as-written member | corrected member |
|---|---|---|---|---|---|---|
| simpleSerial.py:143-231 | one `recv_msg` dictionary is created once, updated in place while scanning, and the same object is put on the queue for every frame, so all queue entries alias the loop's current message | frames `AA 01 01 01 11 1E` then `AA 01 02 01 22 1E` with no `get_message` in between: both queue entries read title 2, payload `22` | each completed frame queues its own message | high, not executed | `QueueAliasing.AliasedQueueLosesFirstFrame` | `Loopback.FramesRoundTrip` |
