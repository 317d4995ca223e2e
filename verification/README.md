# frc-dashboard network session layer, in Dafny

This project models the core of a driver-station bridge. The bridge samples a
pair of handheld motion controllers and relays each sample to a robot as UDP
telemetry. It reads gyro readings the robot sends back. It keeps a TCP
control connection that it re-tries on a timer. Two parts are modelled:

- **The wire codec** (`src/message.rs`), in module `Message`.
  - `DsMessage::encode` writes a tag byte 0, ten big-endian 64-bit fields and a
    hand byte, 82 bytes in all.
  - `RobotMessage::decode` is a total parser: tag 0 followed by eight bytes is
    a `Gyro` reading; anything else is `None`.
  - Each `f64` is only ever copied as its IEEE 754 binary64 bit pattern, so it
    is a `bv64` word. Bytes are `bv8`.
  - `Encoding` is the specification of the encoder. `Encode` is the encoder
    itself: twelve appends to an empty buffer, as in the source.
  - `Fields` gives the ten words of a sample in wire order: position x, y, z;
    quaternion w, i, j, k; joystick x, y; trigger.
- **The reactor and its handle** (`src/server.rs`), in module `Server`.
  - Class `Server` holds the connection state, the `udp_messages` stack of
    encoded datagrams and the UDP write-interest flag. Its handlers `Ready`,
    `Notify` and `Timeout` change them in place.
  - Class `ServerHandle` is the application's side. It has `SendUdp`, `Recv`
    and `Tick`, and the cached `connected` flag. `Deliver` is the event loop's
    hand-over of the oldest queued command to the reactor's `notify`.
  - Each `std::sync::mpsc` channel is a `Queue` object whose `seq` both ends share.
- **Scenarios** (module `Scenarios`) drive a fresh handle and its reactor
  through short runs of events. They state what the run observes: LIFO drain,
  FIFO receive, a bad datagram dropped, connect retries.

How the outside world appears in the model:

- An event is a handler call with a `Token` (`TCP` or `UDP`) and readable and
  writable flags.
- The outcome of `TcpStream::connect`, of `recv_from` and of `send_to` is a
  parameter.
- A send that succeeds is appended to the log `udpSent`, with its destination.
- The number of connect calls is counted in `connectAttempts`.
- Timeouts scheduled on the event loop and not yet fired are counted in
  `pendingTimeouts`.
- The literal socket addresses are the constants `RobotControl`
  (10.36.36.21:1234) and `RobotTelemetry` (10.36.36.21:1235).

`Server.Valid()` is the reactor's invariant, and every handler keeps it:

- write interest is registered exactly while `udpMessages` is non-empty;
- every queued datagram has the shape of an encoded message: 82 bytes, tag 0
  first and a hand byte of 0 or 1 last;
- the state is `Connected` exactly when the TCP stream is registered, and then
  it is the state the timeout handler creates.

Two things follow from it:

- the `pop().unwrap()` in the writable branch cannot panic, given that mio
  reports writable readiness only while write interest is registered;
- write interest is off exactly when a drain has emptied the stack.

The outbound stack is drained last-in-first-out, as the code does. No handler ever
moves the state from `Connected` back to `Disconnected`. Both facts appear in
the contracts.

## Model

| member | source | states |
|---|---|---|
| Message.BE8 | src/message.rs:53-62 | the big-endian image of a 64-bit word is 8 bytes long |
| Message.FromBE8OfBE8 | src/message.rs:38 | reading back the big-endian bytes of a word gives the same word, bit for bit |
| Message.FromBE8 | src/message.rs:38 | the word read from 8 bytes has exactly those bytes as its big-endian image, so every 8-byte string is the image of some word |
| Message.Fields | src/message.rs:53-62 | a sample has exactly ten fields on the wire; their order is fixed by EncodingLayout and FieldSlice |
| Message.HandByte | src/message.rs:63-66 | the hand byte is 0 exactly for Left and 1 exactly for Right |
| Message.BEAll | src/message.rs:53-62 | n words written one after the other take 8·n bytes |
| Message.BEAllAt | src/message.rs:53-62 | word k of the written words occupies bytes 8k .. 8k+7 |
| Message.BEAllSnoc | src/message.rs:53-62 | writing one more word appends exactly that word's 8 big-endian bytes |
| Message.Encoding | src/message.rs:48-70 | every encoding is exactly 82 bytes |
| Message.EncodingFrame | src/message.rs:52-66 | every encoding starts with tag 0 and ends with a hand byte of 0 or 1 |
| Message.WriteField | src/message.rs:53-62 | each field write extends a buffer of tag and first k fields to tag and first k+1 fields |
| Message.Encode | src/message.rs:48-70 | the twelve successive writes produce exactly the specified encoding |
| Message.EncodingLayout | src/message.rs:52-66 | length 82 = 1 + 10·8 + 1; byte 0 is the tag 0; field k in wire order is at bytes 1+8k .. 8+8k; byte 81 is the hand byte |
| Message.FieldSlice | src/message.rs:53-62 | bytes 1+8k .. 8+8k are the big-endian bytes of field k and read back as field k |
| Message.HandsDifferOnlyInLastByte | src/message.rs:63-66 | the same sample for Left and Right encodes identically except byte 81, which is 0 and 1 |
| Message.EncodingInjective | src/message.rs:48-70 | two messages with the same encoding are equal: every field and the hand can be recovered |
| Message.ReadU8 | src/message.rs:36 | a byte read succeeds exactly when a byte remains, yields it and advances the cursor by one |
| Message.ReadF64BE | src/message.rs:38 | a word read succeeds exactly when 8 bytes remain, yields their big-endian word and advances by 8 |
| Message.Decode | src/message.rs:34-44 | total over all byte strings; Some exactly when the input has at least 9 bytes and tag 0, and then it is Gyro of the big-endian word of bytes 1..8 |
| Message.DecodeEmpty | src/message.rs:36 | an empty datagram decodes to None |
| Message.DecodeUnknownTag | src/message.rs:39-42 | a non-zero tag decodes to None whatever follows |
| Message.DecodeShort | src/message.rs:38 | tag 0 followed by fewer than 8 bytes decodes to None |
| Message.DecodeGyro | src/message.rs:37-38 | tag 0 followed by the big-endian bytes of w decodes to Gyro(w), with trailing bytes ignored |
| Server.Truncated | src/server.rs:114-116 | what the 64-byte receive buffer holds is the first min(n, 64) bytes of the datagram |
| Server.Forwarded | src/server.rs:115-119 | a readable event forwards at most one message: the decoded datagram exactly when a datagram was received and decodes |
| Server.ForwardedGyro | src/server.rs:113-121 | a received gyro datagram of any length forwards exactly its reading, whatever trails it; a longer one is cut to 64 bytes, which still hold tag and word |
| Server.ForwardedUnknownTag | src/server.rs:113-121 | a received datagram with a non-zero tag forwards nothing |
| Server.Queue.Send | src/server.rs:72 | a send appends exactly the message at the back of the channel |
| Server.Queue.TryRecv | src/server.rs:76-79 | a receive returns and removes the oldest message, or None and no change on an empty channel |
| Server.Server.constructor | src/server.rs:94-102 | a new reactor is Disconnected, with an empty stack, no write interest, no TCP registration and nothing sent |
| Server.Server.ScheduleTimeout | src/server.rs:153 | scheduling a timeout adds one pending timeout and changes nothing else |
| Server.Server.Ready | src/server.rs:110-138 | TCP events change nothing; a readable UDP event runs only the receive branch; a writable-only UDP event pops the newest datagram and sends it when connected; the state never changes |
| Server.Server.ReceiveDatagram | src/server.rs:113-121 | the inbound queue grows by exactly the decoded datagram, or not at all |
| Server.Server.SendNewest | src/server.rs:122-134 | while connected it removes the last element, leaves the rest unchanged, and logs the removed datagram to the telemetry peer only if the send succeeds; interest ends up on exactly when the stack is non-empty; while disconnected nothing changes |
| Server.Server.Notify | src/server.rs:140-150 | a UDP command appends exactly the message's encoding on top of the stack and turns write interest on; a TCP command changes nothing |
| Server.Server.Push | src/server.rs:143-147 | the pushed datagram goes on top of the stack, write interest is on, and the rest of the reactor is unchanged |
| Server.Server.Timeout | src/server.rs:152-163 | re-arms the timer; while disconnected makes one connect attempt, and on success becomes Connected to 10.36.36.21:1235 and publishes exactly one true; on failure or while connected nothing else changes |
| Server.ServerHandle.constructor | src/server.rs:49-69 | fresh channels, a fresh Disconnected reactor with one timeout scheduled, and connected false |
| Server.ServerHandle.SendUdp | src/server.rs:71-73 | appends exactly one UDP command with the message to the command channel |
| Server.ServerHandle.Deliver | src/server.rs:140-150 | the oldest queued command leaves the channel; a UDP command pushes the encoding of its message and turns write interest on, a TCP command changes nothing; an empty channel changes nothing |
| Server.ServerHandle.Recv | src/server.rs:75-80 | returns the oldest inbound message and removes it (FIFO), or None on an empty channel |
| Server.ServerHandle.Tick | src/server.rs:82-86 | drains the connected-flag channel completely; connected becomes the last flag drained, or stays as it was if none |
| Scenarios.ConnectedHandle | src/server.rs:152-163 | a new handle whose first timeout connected: Connected, no command waiting, nothing queued or sent, write interest off |
| Scenarios.TwoCommandsDelivered | src/server.rs:71-73 | send_udp of A then B, each delivered to notify, leaves the stack holding the encodings of A then B with write interest on |
| Scenarios.LifoDrain | src/server.rs:122-150 | after send_udp of A then B and their delivery, two writable events send B then A to the telemetry peer and leave write interest off |
| Scenarios.LeftSampleOnTheWire | src/server.rs:122-147 | one Left sample sent and drained is one 82-byte datagram with tag 0, each field read back from its offset, and hand byte 0 |
| Scenarios.InboundFifo | src/server.rs:113-121 | two gyro datagrams, the second with a trailing byte on a readable-and-writable event, are received in arrival order, then None |
| Scenarios.UnknownTagDropped | src/server.rs:113-121 | a datagram with an unknown tag is dropped and a following gyro datagram is still received |
| Scenarios.NeverConnecting | src/server.rs:152-163 | while every connect fails, the state stays Disconnected, each firing makes exactly one attempt and connected stays false |
| Scenarios.RetryUntilConnected | src/server.rs:152-163 | after failures and one success there was exactly one more attempt than failures; later firings keep the same Connected state and publish nothing more; the next tick reports connected |

## Left out

- `src/main.rs` is not part of this model: the application loop, its 10 ms sleep, the motion-controller polling and the printing of messages are I/O and pacing around a foreign device library.
- mio internals are abstracted away. That covers the event-loop configuration, the 10 ms timer tick and the 100 ms timeout period, and the `register`/`reregister` calls, which become the booleans `writeInterest` and `tcpRegistered`. It also covers edge-triggered delivery and the thread that runs the loop.
- When the event loop delivers a queued command is not modelled: `Deliver` hands one command over each time it is called.
- A handler for an unknown token panics in the source. Here `Token` has only the two registered values.
- Real sockets are left out. `TcpStream::connect` is non-blocking, so a connect "success" here means the call returned without error, as the source treats it. `recv_from` failing (`RecvError`) or finding nothing (`WouldBlock`) forwards nothing. The sender address of a datagram is ignored, as in the source.
- Parsing of the literal socket addresses and binding of the local socket 0.0.0.0:1235 are not modelled; the addresses are constants.
- A failed send on a channel is not modelled. `tx_message.send(msg).unwrap()` panics only if the handle has been dropped, and the handle lives as long as the process. The results of the `tx_connected` and `send_udp` sends are ignored in the source.
- The `unwrap` on `timeout_ms` is not modelled (it fails only when the timer's capacity is exhausted).
- Cross-thread behaviour of the channels is not modelled; each channel is a plain sequence.
- Floating-point semantics are left out; `f64` values are opaque 64-bit patterns.
- Reading individual fields through the device library (`rot_quat.quat()` and the like) is foreign code; a sample is reduced to its ten words.
- `println!` logging is left out.
- Server.Server.Valid: the invariant says that every queued datagram has the shape of an encoded message (82 bytes, tag 0, hand byte 0 or 1), not that it is the encoding of one particular message, because stating the latter for the whole stack was beyond the verifier's budget. `Notify` and `Deliver` still state that the pushed element is the encoding of its message.
