# The framing and integrity layer of dmx_read, in Dafny

This project models the part of dmx_read that turns an unreliable serial
byte stream into checked messages and back:

- **the exact reader with two timeouts** (`read_exact_with_timeouts` in
  src/io/mod.rs, module `Io`). It fills a window of a byte array. When the
  source has data ready it reads in bulk. Otherwise it races a one-byte
  read against a timer: the first-byte timer while nothing has been read,
  the between-bytes timer afterwards. Every error reports how many bytes
  had been read.
- **the rolling receive buffer** (`AsyncReadReceiver` in src/io/framed.rs,
  module `Framed`). It is a fixed-capacity vector, modelled as an array and
  a length field. `receive_sync` resynchronises on the marker byte.
  `receive_frame_fragment(pos, len)` makes sure bytes `[pos, pos+len)` are
  buffered, reading only what is missing. `remove_frame` and `clear_buf`
  trim the buffer. The pass-through sender is `WriteSender`.
- **the wire format and the two message operations** (src/io/proto.rs,
  module `Proto`). A frame is `SYNC | u16 LE length | payload | u16 LE
  CRC-16(payload)`. `send_target_message` streams the encoder's chunks to
  the wire and into a running CRC at the same time. `receive_host_message`
  pulls in the length, then the payload, then the CRC. It decodes only when
  the CRC matches, and after a match it always removes the frame.

The imperative code keeps its form. The receiver is a class whose methods
update its fields; the sender is a class whose methods update its sink. The reader is a `while` loop over an
array. `receive_sync` is a scan loop followed by a read loop. Each method is
proved equal to a pure function of the old state:

| method | specifying function |
|---|---|
| `ReadExactWithTimeouts` | `ReadExact` |
| `ReceiveSync` | `SyncResult` |
| `ReceiveFrameFragment` | `FragmentResult` |
| `ReceiveHostMessage` | `ReceiveResult` |

The properties are then proved about those functions.

### The byte source

Real time and `select` are replaced by a script of what the line does on
each turn of a reader's loop. These are the events (type `Io.Event`):

- `Burst(d)`: `read_ready` is true and `read` delivers `d`. What does not
  fit the window stays with the driver for the next read.
- `EagerFault(e)`: `read_ready` or the bulk `read` fails.
- `Late(b)`: nothing is ready, and one byte `b` wins the race against the timer.
- `Expire`: the timer wins.
- `LateFault(e)`: the one-byte read fails.

A script that has run out is a line that stays silent from then on.
Silence makes a timed wait time out and leaves the untimed marker wait
pending (`Poll.Pending`). `Io.Delivered(s)` is the stream of bytes the
line delivers, up to its first fault. Most properties are stated against
it.

### Abstract parts

- The CRC-16 engine is any function `CrcFn` from bytes to a 16-bit word. A
  streaming computation (`CrcStream`) records the bytes fed to it, and its
  result is the function applied to them.
- The codec is given by `computeSize`, `encode` and `decode`. `encode`
  returns the chunks the encoder writes, in order. `decode` is a `Decoder`.
- A sink (`Framed.Sink`) accepts `room` more bytes before it fails; `None`
  means it never fails. `write_all` writes the part that fits and then
  reports the failure.

### Where `Sync` comes from

src/io/proto.rs:87 turns every error of `receive_sync` into `Sync`, and
`receive_sync` fails only when a read fails while it waits for the marker
(src/io/framed.rs:118-120). `Proto.ReceiveResultBeforeMarker` proves that
`Sync` is returned exactly when the line faults before it delivers a
marker.

## Model

| member | source | states |
|---|---|---|
| Io.ReadExactWithTimeouts | src/io/mod.rs:41-105 | The result, the timers armed and the source left over are those of `ReadExact` on the old script. The window's first `|got|` slots hold the bytes read, in order. Nothing outside the window changes. |
| Io.ReadLoop | src/io/mod.rs:50-104 | Definition of the loop, one scripted event per turn: a ready burst is read in bulk up to the room left, otherwise a timer for the current count is armed and a late byte, an expiry or a fault decides the turn. No contract of its own; `ReadLoopBounds`, `ReadLoopDelivers` and `ReadLoopTimers` prove its properties. |
| Io.TimerFor | src/io/mod.rs:77-81 | Definition: the first-byte length while nothing has been read, the between-bytes length afterwards. No contract of its own; `ReadLoopTimers` proves that every armed timer follows it. |
| Io.ReadExact | src/io/mod.rs:41-105 | One call from an empty window succeeds exactly when the whole window is filled. An error reports the number of bytes read, which is short of the window. |
| Io.ReadTurn | src/io/mod.rs:53-101 | One loop turn either continues with a smaller script or stops with an error. Either way the rest of the loop's outcome is unchanged. The bytes read stay in the window. |
| Io.TakeBurst | src/io/mod.rs:54-61 | The bulk read copies the burst's first `min(|d|, room left)` bytes into the window, advances the count by that many and gives the rest of the burst back to the source. It arms no timer and keeps the loop's outcome. |
| Io.TakeLate | src/io/mod.rs:76-91 | A byte that beats the timer lands at the next slot, advances the count by one and is taken off the source. The armed timer is recorded. |
| Io.ReadLoopBounds | src/io/mod.rs:50-104 | The reader only appends and never reads past its window. It succeeds exactly when the window is full. An error's `bytes_read` is exactly the number of bytes read. |
| Io.ReadLoopDelivers | src/io/mod.rs:52-101 | The bytes read are the line's next bytes, in arrival order. Unless a source fault ended the read, the line still holds everything after them. |
| Io.ReadExactDelivers | src/io/mod.rs:52-104 | The window receives a prefix of the line's bytes. `Ok` means the whole window was filled. `Timeout` and `Other` report a count below the window length. |
| Io.ReadLoopTimers | src/io/mod.rs:77-81 | Every timer armed uses first-byte when nothing had been read and between-bytes otherwise. The timers are armed at strictly increasing counts. |
| Io.ReadExactTimers | src/io/mod.rs:77-81 | The same, for a whole call from an empty window. |
| Io.ReadyDataArmsNoTimer | src/io/mod.rs:54-61 | When only bursts of ready data arrive and they hold enough bytes, the read succeeds without arming any timer. |
| Io.PromptLineFills | src/io/mod.rs:40-104 | When every turn brings data (a ready burst or a byte that beats the timer) and the line holds enough bytes, the read returns `Ok`. The window holds the line's next bytes, and the line keeps the rest. |
| Io.FirstByteTimeout | src/io/mod.rs:76-100 | A line with nothing to give produces `Timeout { bytes_read: 0 }` after arming only the first-byte timer. |
| Io.BetweenBytesTimeout | src/io/mod.rs:76-100 | One late byte followed by silence produces `Timeout { bytes_read: 1 }`. The second wait uses the between-bytes timer. |
| Io.BurstFills | src/io/mod.rs:56-61 | A burst at least as long as the window fills it from its front and leaves the rest with the driver. |
| Io.ShortLine | src/io/mod.rs:52-101 | A line holding fewer bytes than the window still needs, and then going silent or faulting, gives the reader all its bytes. The read then fails with `Timeout` or with the line's error, counting every byte read. |
| Base.FirstIndex | src/io/framed.rs:98 | `position` returns the first occurrence: the element is there and not before it. |
| Framed.SyncResult | src/io/framed.rs:94-125 | With a marker buffered, the buffer becomes what followed its first occurrence and nothing is read. Without one, the buffer is emptied. If the line then faults before it delivers a marker, the result is `Other(e)` with the line's first error `e`. |
| Framed.WaitSync | src/io/framed.rs:108-122 | Definition of the marker wait: one-byte reads with no timer until a byte equals the marker (dropped) or a read fails; silence leaves it pending. No contract of its own; `WaitSyncConsumesThroughMarker` proves its properties. |
| Framed.WaitSyncConsumesThroughMarker | src/io/framed.rs:103-122 | The wait succeeds exactly when the line delivers a marker before any fault. Afterwards the line holds exactly what followed that marker. The wait stays pending exactly when the line goes silent with no marker and no fault. A fault that comes first is reported as `Other(e)` with that fault's error. |
| Framed.WaitSyncSkipsNoise | src/io/framed.rs:109-122 | Non-marker bytes ahead of the marker in a burst are skipped, and what follows the marker stays on the line. |
| Framed.FragmentResult | src/io/framed.rs:127-180 | A fragment already present returns `Ok` with no change. `BufferCapacity` is returned exactly when the fragment would end past the capacity, and the state is then untouched. On `Ok` the length is `pos + len`. On `Timeout`/`Other` the fragment is incomplete. The old bytes stay in place, the new ones are the line's next bytes, and the capacity is never exceeded. |
| Framed.FragmentResultFromReader | src/io/framed.rs:147-178 | When a missing tail fits, the result is the reader's on exactly that tail: `Ok` when it filled the tail, its timeout as `Timeout`, its source error `e` as `Other(e)`. The buffer gains the bytes read, so after an error it is `bytes_read` bytes longer than before. |
| Framed.FragmentRunsOut | src/io/framed.rs:147-178 | A missing tail that fits but that the line does not complete before it ends: all the line's bytes are buffered, and the fragment fails with `Timeout` for silence or `Other(e)` for a fault `e`. |
| Framed.FragmentFromBurst | src/io/framed.rs:134-162 | A missing fragment tail that arrives in one burst is taken from the burst's front, and the burst's rest stays on the line. |
| Framed.FragmentFromPromptLine | src/io/framed.rs:127-180 | On a line whose every turn brings data and that holds enough bytes, a fragment that fits is completed with `Ok`. The buffer becomes the first `max(len, pos + flen)` bytes of what the buffer and the line held, and the line keeps the rest. |
| Framed.AsyncReadReceiver.constructor | src/io/framed.rs:59-73 | The receiver holds the given vector, source, marker and timeouts. |
| Framed.AsyncReadReceiver.Buf | src/io/framed.rs:82-84 | The buffer's contents are the first `len` bytes of the vector and never exceed its capacity. |
| Framed.AsyncReadReceiver.ClearBuf | src/io/framed.rs:86-88 | The buffer becomes empty and the source is untouched. |
| Framed.AsyncReadReceiver.RemoveLeadingBytes | src/io/framed.rs:91 | The buffer becomes `old[n..]`, shifted to the front of the array. |
| Framed.AsyncReadReceiver.RemoveFrame | src/io/framed.rs:90-92 | The buffer becomes `old[n..]`. |
| Framed.AsyncReadReceiver.ReceiveSync | src/io/framed.rs:94-125 | The new buffer and source, and the result, are those of `SyncResult`. |
| Framed.AsyncReadReceiver.ReceiveFrameFragment | src/io/framed.rs:127-180 | The new buffer and source, and the result, are those of `FragmentResult`. |
| Framed.AcceptedSplit | src/io/framed.rs:211-213 | Two writes in a row put on the wire what one write of their concatenation would, and fail exactly when it would. |
| Framed.Sink.WriteAll | src/io/framed.rs:212 | The wire gains the part of the data the sink accepts. The call fails exactly when the data does not fit. |
| Framed.WriteSender.constructor | src/io/framed.rs:195-197 | `WriteSender::new` holds the given sink and marker. |
| Framed.WriteSender.SendSync | src/io/framed.rs:206-209 | The wire gains exactly the one marker byte, if the sink accepts it. |
| Framed.WriteSender.SendFrameFragment | src/io/framed.rs:211-213 | The wire gains the bytes verbatim, up to what the sink accepts. |
| Proto.ReadLeBytes | src/io/proto.rs:99 | Reading back a little-endian encoded `u16` gives the value. |
| Proto.LeBytes | src/io/proto.rs:48 | Definition of `to_le_bytes`: low byte, then high byte. `ReadLeBytes` proves that `ReadU16` reads the value back. |
| Proto.ReadU16 | src/io/proto.rs:99 | `read_u16` is the inverse of `to_le_bytes` on the two bytes it reads: re-encoding the value gives those bytes back. |
| Proto.Frame | src/io/proto.rs:44-62 | The wire frame is five bytes longer than its payload, starts with the marker and carries the payload verbatim from offset 3. |
| Proto.FrameLayout | src/io/proto.rs:43-62 | A sent frame is five bytes longer than its payload. It has the marker at 0, the length at 1, the payload at 3 and the payload's CRC at `3 + len`. |
| Proto.EmptyFrame | src/io/proto.rs:44-62 | An empty message makes a 5-byte frame `[SYNC, 0, 0] ++ le16(crc([]))`. |
| Proto.CrcStream.FeedBytes | src/io/proto.rs:30 | The stream has been fed the old bytes followed by the chunk. |
| Proto.CrcStream.Result | src/io/proto.rs:60 | Definition: the CRC of every byte fed so far, which is the assumption that streaming equals one-shot. No contract of its own. |
| Proto.CrcStream.constructor | src/io/proto.rs:51 | `crc.stream()` starts a computation over the given engine that has been fed nothing. |
| Proto.Writer.constructor | src/io/proto.rs:52-55 | The `Writer` holds the frame sender and the CRC stream it feeds. |
| Proto.Writer.PbWrite | src/io/proto.rs:28-32 | The chunk goes to the wire. Only if that succeeds is it fed to the CRC. |
| Proto.Writer.WriteChunks | src/io/proto.rs:56-58 | The encoder's chunks reach the wire as one write of their concatenation would. If every write succeeds, the CRC has been fed exactly that concatenation. |
| Proto.StreamStep | src/io/proto.rs:44-62 | One more write of a frame being streamed either extends what the sink has taken or leaves the sink as one write of the whole frame would. |
| Proto.SendTargetMessage | src/io/proto.rs:35-63 | The wire gains `[SYNC] ++ le16(size mod 65536) ++ payload ++ le16(crc(payload))`, up to what the sink accepts. The call succeeds exactly when the whole frame fits. |
| Proto.FrameResult | src/io/proto.rs:92-142 | Receiving the frame after the marker never takes the buffer past its capacity. |
| Proto.PayloadResult | src/io/proto.rs:99-142 | With the length field buffered, the rest of the receive never takes the buffer past its capacity. |
| Proto.CrcResult | src/io/proto.rs:110-142 | With the payload buffered, the rest of the receive never takes the buffer past its capacity. |
| Proto.CheckResult | src/io/proto.rs:118-142 | With the whole frame buffered, the check never makes the buffer longer. |
| Proto.MapDecode | src/io/proto.rs:134-138 | The decoder's success comes back as the same message, and its error `e` as `Decode(e)`. |
| Proto.ReceiveResult | src/io/proto.rs:80-143 | With a marker buffered, the receive completes and never reports `Sync`. A pending receive, or one that reports `Sync`, had no marker buffered and leaves the buffer empty. The capacity is kept. |
| Proto.ReceiveHostMessage | src/io/proto.rs:80-143 | The result and the new receiver state are those of `ReceiveResult`. |
| Proto.ReceiveFrame | src/io/proto.rs:92-142 | The result and the new receiver state are those of `FrameResult`. |
| Proto.ReceivePayload | src/io/proto.rs:99-142 | From the payload fragment on, the result and state are those of `PayloadResult`. |
| Proto.ReceiveCrc | src/io/proto.rs:110-142 | From the CRC fragment on, the result and state are those of `CrcResult`. |
| Proto.FrameResultBuffered | src/io/proto.rs:92-142 | With `le16(n) ++ P ++ le16(c) ++ R` buffered, nothing is read. If `crc(P) == c` the result is `decode(P)` and the buffer becomes `R`, whether decoding succeeds or fails. Otherwise the result is `Crc` and the buffer is unchanged. |
| Proto.FrameResultOversized | src/io/proto.rs:99-105 | A length field announcing more than the buffer can hold gives `Framing(BufferCapacity)` and leaves the state untouched. |
| Proto.FrameResultTrailerOversized | src/io/proto.rs:110-113 | With the payload buffered but no room for the CRC trailer, the CRC fragment's refusal comes back as `Framing(BufferCapacity)` and the state is untouched. |
| Proto.FrameResultRunsOut | src/io/proto.rs:92-113 | After the marker, a line holding an incomplete frame body and then ending fails as `Framing(Timeout)` when it goes silent and as `Framing(Other(e))` when it faults with `e`, whichever of the length, payload or CRC fragments runs out. Every byte read stays buffered. |
| Proto.PayloadRunsOut | src/io/proto.rs:103-113 | With the length field buffered, a payload that arrives whole and a CRC trailer the line does not complete before it ends: the failure comes back as `Framing(Timeout)` or `Framing(Other(e))`, with every byte read buffered. |
| Proto.CrcRunsOut | src/io/proto.rs:110-113 | With the payload buffered and a CRC trailer the line does not complete before it ends, the CRC fragment's failure comes back as `Framing(Timeout)` for silence or `Framing(Other(e))` for a fault `e`. |
| Proto.FrameResultChecked | src/io/proto.rs:118-138 | The decoder is reached only for a frame whose CRC matches its payload, and it is given exactly that payload. The receiver ends holding exactly what followed the frame. |
| Proto.FrameResultComplete | src/io/proto.rs:92-142 | The converse of `FrameResultChecked`, on a line whose every turn brings data. When the buffer and the line start with a well-formed frame body that fits, the result is what the decoder makes of the payload. Afterwards the buffer and the line hold exactly what followed the frame. |
| Proto.PayloadResultComplete | src/io/proto.rs:99-142 | The same, from the point where the length field is buffered. |
| Proto.CrcResultComplete | src/io/proto.rs:110-142 | The same, from the point where the payload is buffered. |
| Proto.CheckBufferedFrame | src/io/proto.rs:118-140 | A buffer holding a whole well-formed frame body passes the CRC check, hands the payload to the decoder and drops exactly the body. |
| Proto.FrameResultCrcRejected | src/io/proto.rs:118-126 | A `Crc` failure leaves the complete frame, with its mismatching CRC, in the buffer. Nothing is dropped and no byte of the line is lost. |
| Proto.FrameResultNeverSync | src/io/proto.rs:92-113 | After the marker, no failure is reported as `Sync`. |
| Proto.ReceiveResultBeforeMarker | src/io/proto.rs:87 | With no marker buffered, a receive stays pending exactly when the line never delivers a marker and never faults. It reports `Sync` exactly when the line faults first. |
| Proto.FrameFromBurst | src/io/proto.rs:92-142 | A frame body arriving in one burst on an empty buffer is accepted and decoded from its payload. The buffer ends empty. |
| Proto.CheckWholeFrame | src/io/proto.rs:118-142 | A buffer holding exactly one well-formed frame passes the check, hands its payload to the decoder and is emptied. |
| Proto.ReceiveFromLine | src/io/proto.rs:80-143 | Noise without the marker followed by a frame, in one burst, is received as `decode(payload)`. The receiver ends with an empty buffer and the line after the frame. |
| Proto.ReceiveFromBuffer | src/io/proto.rs:80-143 | Noise followed by a frame and then `R`, all already buffered, is received without reading. The buffer keeps only `R`. |
| Proto.SendThenReceive | src/io/proto.rs:35-143 | A message sent into a sink that never fails, carried in one burst after marker-free noise, reaches a fresh receiver's decoder exactly as encoded. |

## Left out

- Time, `select` and `.await` are left out. Each loop turn takes one scripted event instead, and a timer is recorded only by which of the two durations it was given.
- `Io.ReadExactWithTimeouts`: a `read` that returns `Ok(0)` is not modelled. The slow path (src/io/mod.rs:88-90) advances the window by one but adds `r` to `bytes_read`, so the model assumes a one-byte read returns 1. An empty `Burst` stands for a bulk read of zero bytes.
- `Framed.AsyncReadReceiver.ReceiveSync`: the one-byte read of the marker wait is assumed to return one byte. `Ok(0)` would compare a stale byte (src/io/framed.rs:112-114).
- Dropping a future mid-read (cancellation) is not modelled. Neither are the uninitialised bytes that `set_len` exposes while a read is in flight. The model tracks only the length and the bytes obtained.
- `utils::remove_leading_bytes` is not part of this model's source. It is modelled by its use, as dropping the first `n` bytes.
- The CRC-16 engine (`crate::crc`) is not part of this model. A streaming CRC over chunks is assumed to equal the one-shot CRC of their concatenation: `CrcStream.Result` is defined that way. That single-bit errors are always detected depends on the polynomial and is not stated.
- The micropb codec is abstract. `computeSize` is not required to equal the encoding's length, except in `Proto.SendThenReceive`. A codec error raised by the encoder itself, rather than by the writer, is not modelled.
- Acquiring the shared CRC engine (`crc.stream().await`, `crc.compute(..).await`) is left out. It is a suspension point with no effect on the bytes.
- `Proto.Writer.WriteChunks` states the CRC stream's contents only when every write succeeds. After a failure `send_target_message` returns at once and never reads the stream.
- A sink is modelled as accepting a fixed number of further bytes. Other failure patterns of `write_all` are not modelled.
- The `Receiver`/`Sender` traits are modelled by their one implementation each. `defmt` logging and `thiserror` derives are left out.
- src/main.rs (hardware setup and an echo loop) is not part of this model.
