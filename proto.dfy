/** The message protocol of src/io/proto.rs: the wire format
    `SYNC | u16 LE length | payload | u16 LE CRC-16(payload)`, sending a
    message while its CRC is computed on the fly, and receiving one by
    pulling the frame's fragments into the receiver's buffer and checking
    the CRC before anything is decoded.

    The CRC-16 engine and the message codec are not part of this model: the
    CRC is any function from bytes to a 16-bit word, and the codec is given
    by its size computation, its encoder (the chunks it writes, in order)
    and its decoder. */
module Proto {
  import opened Base
  import Io
  import Framed

  const SYNC_BYTE: Byte := 0xfc
  const MESSAGE_LENGTH_SIZE: nat := 2
  const MESSAGE_CRC_SIZE: nat := 2

  /** The one-shot CRC-16 computation (`crc::Handle::compute`). */
  type CrcFn = seq<Byte> -> U16

  /** micropb's decode error, kept opaque. */
  datatype DecodeError = DecodeError(code: nat)

  /** The decoder of the received message type (`HostMessage::decode`). */
  type Decoder<M> = seq<Byte> -> Result<M, DecodeError>

  // ---------------------------------------------------------------------
  // Little-endian words

  /** `u16::to_le_bytes`. */
  function LeBytes(v: U16): seq<Byte> {
    [v % 0x100, v / 0x100]
  }

  /** `LittleEndian::read_u16`: reads the first two bytes, the inverse of
      `LeBytes` on them. */
  function ReadU16(s: seq<Byte>): (v: U16)
    requires |s| >= 2
    ensures LeBytes(v) == s[..2]
  {
    (s[0] as int) + 0x100 * (s[1] as int)
  }

  lemma ReadLeBytes(v: U16)
    ensures |LeBytes(v)| == 2 && ReadU16(LeBytes(v)) == v
  {
  }

  // ---------------------------------------------------------------------
  // The frame

  /** The bytes `send_target_message` puts on the wire for a message whose
      computed size is `size` and whose encoding is `payload`: the size is
      cut to 16 bits (`as u16`). */
  function Frame(sync: Byte, size: nat, payload: seq<Byte>, crc: CrcFn): (f: seq<Byte>)
    // five bytes of framing around the payload, which is carried verbatim
    ensures |f| == |payload| + 5 && f[0] == sync && f[3..3 + |payload|] == payload
  {
    [sync] + LeBytes(size % 0x1_0000) + payload + LeBytes(crc(payload))
  }

  /** The frame's fields can be read back from their offsets: the marker at
      0, the length at 1, the payload at 3 and the CRC over the payload at
      3 + length; the frame is five bytes longer than its payload. */
  lemma FrameLayout(sync: Byte, payload: seq<Byte>, crc: CrcFn)
    requires |payload| < 0x1_0000
    ensures var f := Frame(sync, |payload|, payload, crc); var n := |payload|;
      |f| == n + 5 && f[0] == sync && ReadU16(f[1..3]) == n &&
      f[3..3 + n] == payload && ReadU16(f[3 + n..]) == crc(payload)
  {
    var f := Frame(sync, |payload|, payload, crc);
    var n := |payload|;
    assert f[1..3] == LeBytes(n);
    assert f[3..3 + n] == payload;
    assert f[3 + n..] == LeBytes(crc(payload));
    ReadLeBytes(n);
    ReadLeBytes(crc(payload));
  }

  /** An empty message makes a five-byte frame whose CRC is over no bytes. */
  lemma EmptyFrame(sync: Byte, crc: CrcFn)
    ensures Frame(sync, 0, [], crc) == [sync, 0, 0] + LeBytes(crc([]))
    ensures |Frame(sync, 0, [], crc)| == 5
  {
  }

  // ---------------------------------------------------------------------
  // Sending

  /** A streaming CRC computation (`crc::Stream`): it has been fed `fed`,
      and its result is the CRC of everything fed. */
  class CrcStream {
    const crc: CrcFn
    var fed: seq<Byte>

    /** `crc.stream()`: a fresh computation. */
    constructor (crc: CrcFn)
      ensures this.crc == crc && fed == []
    {
      this.crc := crc;
      fed := [];
    }

    /** `feed_bytes`. */
    method FeedBytes(data: seq<Byte>)
      modifies this
      ensures fed == old(fed) + data
    {
      fed := fed + data;
    }

    /** `result`. */
    function Result(): U16
      reads this
    {
      crc(fed)
    }
  }

  /** `Writer`: the sink the encoder writes through. */
  class Writer {
    const ftx: Framed.WriteSender
    const crc: CrcStream

    constructor (ftx: Framed.WriteSender, crc: CrcStream)
      ensures this.ftx == ftx && this.crc == crc
    {
      this.ftx := ftx;
      this.crc := crc;
    }

    /** `pb_write`: every chunk goes to the wire and, once it is there, into
        the CRC computation. */
    method PbWrite(data: seq<Byte>) returns (r: Result<(), Framed.WriteError>)
      modifies ftx.tx, crc
      ensures ftx.tx.wire == old(ftx.tx.wire) + Framed.Accepted(data, old(ftx.tx.room))
      ensures ftx.tx.room == Framed.Spend(old(ftx.tx.room), |data|)
      ensures r.Ok? <==> Framed.Fits(|data|, old(ftx.tx.room))
      ensures crc.fed == if r.Ok? then old(crc.fed) + data else old(crc.fed)
    {
      r := ftx.SendFrameFragment(data);
      if r.Err? {
        return;
      }
      crc.FeedBytes(data);
    }

    /** The encoder (`msg.encode(&mut writer)`) writing its chunks through
        `pb_write`, one after another, until one fails. */
    method WriteChunks(chunks: seq<seq<Byte>>) returns (r: Result<(), Framed.WriteError>)
      modifies ftx.tx, crc
      ensures ftx.tx.wire == old(ftx.tx.wire) + Framed.Accepted(Flatten(chunks), old(ftx.tx.room))
      ensures ftx.tx.room == Framed.Spend(old(ftx.tx.room), |Flatten(chunks)|)
      ensures r.Ok? <==> Framed.Fits(|Flatten(chunks)|, old(ftx.tx.room))
      ensures r.Ok? ==> crc.fed == old(crc.fed) + Flatten(chunks)
    {
      ghost var wire0, room0, fed0 := ftx.tx.wire, ftx.tx.room, crc.fed;
      ghost var all := Flatten(chunks);
      ghost var sent: seq<Byte> := [];
      assert Framed.Fits(0, room0) && Framed.Spend(room0, 0) == room0 && wire0 + [] == wire0 && fed0 + [] == fed0;
      r := Ok(());
      var i := 0;
      while i < |chunks|
        invariant i <= |chunks| && r.Ok?
        invariant sent == Flatten(chunks[..i])
        invariant Streamed(wire0, room0, ftx.tx, sent) && crc.fed == fed0 + sent
      {
        FlattenSnoc(chunks, i);
        FlattenPrefix(chunks, i + 1);
        r := WriteNext(wire0, room0, fed0, sent, chunks[i], all);
        if r.Err? {
          return;
        }
        sent := sent + chunks[i];
        i := i + 1;
      }
      assert chunks[..i] == chunks;
    }

    /** One `pb_write` of a chunk that continues the bytes `sent` so far
        towards `all`: on success the sink and the CRC have taken `sent`
        and the chunk; on failure the sink holds what one write of `all`
        would have left. */
    method WriteNext(ghost wire0: seq<Byte>, ghost room0: Option<nat>, ghost fed0: seq<Byte>,
                     ghost sent: seq<Byte>, chunk: seq<Byte>, ghost all: seq<Byte>)
      returns (r: Result<(), Framed.WriteError>)
      requires Streamed(wire0, room0, ftx.tx, sent) && crc.fed == fed0 + sent && sent + chunk <= all
      modifies ftx.tx, crc
      ensures r.Ok? ==> Streamed(wire0, room0, ftx.tx, sent + chunk) && crc.fed == fed0 + (sent + chunk)
      ensures r.Err? ==> WroteAll(wire0, room0, ftx.tx, all) && !Framed.Fits(|all|, room0)
    {
      ghost var wire, room, fed := ftx.tx.wire, ftx.tx.room, crc.fed;
      r := PbWrite(chunk);
      StreamStep(wire0, room0, sent, chunk, all, wire, room, ftx.tx, r.Ok?);
      if r.Ok? {
        assert crc.fed == fed + chunk == fed0 + (sent + chunk);
      }
    }
  }

  /** The sink, which held `wire0` and accepted `room0` more bytes, has
      taken all of `sent`. */
  ghost predicate Streamed(wire0: seq<Byte>, room0: Option<nat>, tx: Framed.Sink, sent: seq<Byte>)
    reads tx
  {
    Framed.Fits(|sent|, room0) && tx.wire == wire0 + sent && tx.room == Framed.Spend(room0, |sent|)
  }

  /** The sink holds what one write of `data` would have left. */
  ghost predicate WroteAll(wire0: seq<Byte>, room0: Option<nat>, tx: Framed.Sink, data: seq<Byte>)
    reads tx
  {
    tx.wire == wire0 + Framed.Accepted(data, room0) && tx.room == Framed.Spend(room0, |data|)
  }

  /** One more write of a frame being streamed, whose result was `ok`: if
      it succeeded, the sink has taken everything so far; if not, the sink
      holds what one write of the whole frame would have left, and the
      whole frame does not fit. */
  lemma StreamStep(wire0: seq<Byte>, room0: Option<nat>, sent: seq<Byte>, piece: seq<Byte>,
                   frame: seq<Byte>, wire: seq<Byte>, room: Option<nat>, tx: Framed.Sink, ok: bool)
    requires Framed.Fits(|sent|, room0) && wire == wire0 + sent && room == Framed.Spend(room0, |sent|)
    requires sent + piece <= frame
    requires tx.wire == wire + Framed.Accepted(piece, room) && tx.room == Framed.Spend(room, |piece|)
    requires ok <==> Framed.Fits(|piece|, room)
    ensures ok ==> Streamed(wire0, room0, tx, sent + piece)
    ensures ok && sent + piece == frame ==> WroteAll(wire0, room0, tx, frame) && Framed.Fits(|frame|, room0)
    ensures !ok ==> WroteAll(wire0, room0, tx, frame) && !Framed.Fits(|frame|, room0)
  {
    var later := frame[|sent + piece|..];
    assert frame == sent + piece + later;
    Framed.AcceptedSplit(sent, piece, room0);
    Framed.AcceptedSplit(sent, piece + later, room0);
    Framed.AcceptedSplit(piece, later, room);
    assert sent + piece + later == sent + (piece + later);
  }

  /** `send_target_message`: the marker, the 16-bit size, the encoded
      message (streamed through `Writer`) and the CRC of what was streamed.
      It stops at the first write that fails; the wire then holds exactly
      the part of the frame the sink accepted. */
  method SendTargetMessage<M>(ftx: Framed.WriteSender, msg: M, computeSize: M -> nat,
                              encode: M -> seq<seq<Byte>>, crc: CrcFn)
    returns (r: Result<(), Framed.WriteError>)
    modifies ftx.tx
    ensures var frame := Frame(ftx.sync, computeSize(msg), Flatten(encode(msg)), crc);
      ftx.tx.wire == old(ftx.tx.wire) + Framed.Accepted(frame, old(ftx.tx.room)) &&
      ftx.tx.room == Framed.Spend(old(ftx.tx.room), |frame|) &&
      (r.Ok? <==> Framed.Fits(|frame|, old(ftx.tx.room)))
  {
    ghost var wire0, room0 := ftx.tx.wire, ftx.tx.room;
    var chunks := encode(msg);
    var encodedSize := LeBytes(computeSize(msg) % 0x1_0000);
    ghost var payload := Flatten(chunks);
    ghost var frame := Frame(ftx.sync, computeSize(msg), payload, crc);
    ghost var trailer := LeBytes(crc(payload));
    ghost var header := [ftx.sync] + encodedSize;
    assert frame == header + payload + trailer;
    assert [] + [ftx.sync] <= frame;
    assert [ftx.sync] + encodedSize <= frame;
    assert header + payload <= frame;

    assert Framed.Fits(0, room0) && Framed.Spend(room0, 0) == room0 && wire0 + [] == wire0;
    ghost var wire, room := ftx.tx.wire, ftx.tx.room;
    r := ftx.SendSync();
    StreamStep(wire0, room0, [], [ftx.sync], frame, wire, room, ftx.tx, r.Ok?);
    if r.Err? {
      return;
    }

    wire, room := ftx.tx.wire, ftx.tx.room;
    r := ftx.SendFrameFragment(encodedSize);
    StreamStep(wire0, room0, [ftx.sync], encodedSize, frame, wire, room, ftx.tx, r.Ok?);
    if r.Err? {
      return;
    }

    var stream := new CrcStream(crc);
    var writer := new Writer(ftx, stream);
    wire, room := ftx.tx.wire, ftx.tx.room;
    r := writer.WriteChunks(chunks);
    StreamStep(wire0, room0, header, payload, frame, wire, room, ftx.tx, r.Ok?);
    if r.Err? {
      return;
    }

    assert writer.crc == stream && stream.fed == [] + payload;
    assert stream.fed == payload;
    assert stream.crc == crc;
    assert stream.Result() == crc(payload);
    var crcResult := LeBytes(stream.Result());
    assert crcResult == trailer;
    wire, room := ftx.tx.wire, ftx.tx.room;
    r := ftx.SendFrameFragment(crcResult);
    StreamStep(wire0, room0, header + payload, crcResult, frame, wire, room, ftx.tx, r.Ok?);
  }

  lemma {:induction false} FlattenPrefix(chunks: seq<seq<Byte>>, i: nat)
    requires i <= |chunks|
    ensures Flatten(chunks[..i]) <= Flatten(chunks)
    decreases |chunks| - i
  {
    if i < |chunks| {
      FlattenPrefix(chunks, i + 1);
      FlattenSnoc(chunks, i);
    } else {
      assert chunks[..i] == chunks;
    }
  }

  // ---------------------------------------------------------------------
  // Receiving

  /** `ReceiveError`. */
  datatype ReceiveError =
    | Sync
    | Crc
    | Framing(error: Framed.RxError)
    | Decode(decodeError: DecodeError)

  /** The decoder's outcome as a receive result: the message unchanged,
      or its error wrapped as `Decode`. */
  function MapDecode<M>(d: Result<M, DecodeError>): (r: Result<M, ReceiveError>)
    ensures r.Ok? <==> d.Ok?
    ensures d.Ok? ==> r.value == d.value
    ensures d.Err? ==> r.error == Decode(d.error)
  {
    match d
    case Ok(m) => Ok(m)
    case Err(e) => Err(Decode(e))
  }

  /** Everything `receive_host_message` does after the marker: the length
      fragment, then the rest of the frame. */
  function FrameResult<M>(cfg: Framed.Config, st: Framed.RxState, crc: CrcFn, decode: Decoder<M>)
    : (r: (Result<M, ReceiveError>, Framed.RxState))
    requires |st.buf| <= cfg.capacity
    ensures |r.1.buf| <= cfg.capacity
  {
    var (r1, st1) := Framed.FragmentResult(cfg, st, 0, MESSAGE_LENGTH_SIZE);
    if r1.Err? then (Err(Framing(r1.error)), st1)
    else PayloadResult(cfg, st1, crc, decode)
  }

  /** With the length field buffered: the payload fragment, then the rest. */
  function PayloadResult<M>(cfg: Framed.Config, st: Framed.RxState, crc: CrcFn, decode: Decoder<M>)
    : (r: (Result<M, ReceiveError>, Framed.RxState))
    requires MESSAGE_LENGTH_SIZE <= |st.buf| <= cfg.capacity
    ensures |r.1.buf| <= cfg.capacity
  {
    var messageLen := ReadU16(st.buf[..MESSAGE_LENGTH_SIZE]);
    var (r2, st2) := Framed.FragmentResult(cfg, st, MESSAGE_LENGTH_SIZE, messageLen);
    if r2.Err? then (Err(Framing(r2.error)), st2)
    else CrcResult(cfg, st2, messageLen, crc, decode)
  }

  /** With the payload buffered: the CRC fragment, then the check. */
  function CrcResult<M>(cfg: Framed.Config, st: Framed.RxState, messageLen: nat, crc: CrcFn, decode: Decoder<M>)
    : (r: (Result<M, ReceiveError>, Framed.RxState))
    requires MESSAGE_LENGTH_SIZE + messageLen <= |st.buf| <= cfg.capacity
    ensures |r.1.buf| <= cfg.capacity
  {
    var crcPos := MESSAGE_LENGTH_SIZE + messageLen;
    var (r3, st3) := Framed.FragmentResult(cfg, st, crcPos, MESSAGE_CRC_SIZE);
    if r3.Err? then (Err(Framing(r3.error)), st3)
    else CheckResult(st3, messageLen, crc, decode)
  }

  /** With the whole frame buffered: compare the received CRC with the
      payload's; on a match decode the payload and drop the frame, on a
      mismatch keep everything. */
  function CheckResult<M>(st: Framed.RxState, messageLen: nat, crc: CrcFn, decode: Decoder<M>)
    : (r: (Result<M, ReceiveError>, Framed.RxState))
    requires MESSAGE_LENGTH_SIZE + messageLen + MESSAGE_CRC_SIZE <= |st.buf|
    ensures |r.1.buf| <= |st.buf|
  {
    var messagePos := MESSAGE_LENGTH_SIZE;
    var crcPos := messagePos + messageLen;
    var expected := ReadU16(st.buf[crcPos..crcPos + MESSAGE_CRC_SIZE]);
    var computed := crc(st.buf[messagePos..messagePos + messageLen]);
    if computed != expected then (Err(Crc), st)
    else
      var result := MapDecode(decode(st.buf[messagePos..messagePos + messageLen]));
      (result, st.(buf := st.buf[crcPos + MESSAGE_CRC_SIZE..]))
  }

  /** `receive_host_message`. */
  function ReceiveResult<M>(cfg: Framed.Config, st: Framed.RxState, crc: CrcFn, decode: Decoder<M>)
    : (r: (Poll<Result<M, ReceiveError>>, Framed.RxState))
    requires |st.buf| <= cfg.capacity
    ensures |r.1.buf| <= cfg.capacity
    // with a marker already buffered the call completes without waiting
    // for it, and cannot fail to find it
    ensures cfg.sync in st.buf ==> r.0.Ready? && r.0.value != Err(Sync)
    // otherwise the buffer is dropped before the wait
    ensures r.0 == Pending || r.0 == Ready(Err(Sync)) ==> cfg.sync !in st.buf && r.1.buf == []
  {
    var (p, st1) := Framed.SyncResult(cfg, st);
    match p
    case Pending => (Pending, st1)
    case Ready(Err(_)) => (Ready(Err(Sync)), st1)
    case Ready(Ok(_)) =>
      var (f, st2) := FrameResult(cfg, st1, crc, decode);
      (Ready(f), st2)
  }

  /** `receive_host_message`, driving the receiver. */
  method ReceiveHostMessage<M>(frx: Framed.AsyncReadReceiver, crc: CrcFn, decode: Decoder<M>)
    returns (r: Poll<Result<M, ReceiveError>>)
    requires frx.Valid()
    modifies frx, frx.buf, frx.rx
    ensures frx.Valid() && (r, frx.State()) == ReceiveResult(frx.Cfg(), old(frx.State()), crc, decode)
  {
    var s := frx.ReceiveSync();
    match s {
      case Pending => return Pending;
      case Ready(Err(_)) => return Ready(Err(Sync));
      case Ready(Ok(_)) =>
    }
    var f := ReceiveFrame(frx, crc, decode);
    r := Ready(f);
  }

  /** The part of `receive_host_message` after the marker has been found:
      the length field, then the rest of the frame. */
  method ReceiveFrame<M>(frx: Framed.AsyncReadReceiver, crc: CrcFn, decode: Decoder<M>)
    returns (r: Result<M, ReceiveError>)
    requires frx.Valid()
    modifies frx, frx.buf, frx.rx
    ensures frx.Valid() && (r, frx.State()) == FrameResult(frx.Cfg(), old(frx.State()), crc, decode)
  {
    var f := frx.ReceiveFrameFragment(0, MESSAGE_LENGTH_SIZE);
    if f.Err? {
      return Err(Framing(f.error));
    }
    r := ReceivePayload(frx, crc, decode);
  }

  /** With the length field buffered: the payload fragment, then the rest. */
  method ReceivePayload<M>(frx: Framed.AsyncReadReceiver, crc: CrcFn, decode: Decoder<M>)
    returns (r: Result<M, ReceiveError>)
    requires frx.Valid() && MESSAGE_LENGTH_SIZE <= |frx.Buf()|
    modifies frx, frx.buf, frx.rx
    ensures frx.Valid() && (r, frx.State()) == PayloadResult(frx.Cfg(), old(frx.State()), crc, decode)
  {
    var messageLen := ReadU16(frx.Buf()[..MESSAGE_LENGTH_SIZE]);
    var f := frx.ReceiveFrameFragment(MESSAGE_LENGTH_SIZE, messageLen);
    if f.Err? {
      return Err(Framing(f.error));
    }
    r := ReceiveCrc(frx, messageLen, crc, decode);
  }

  /** With the payload buffered: the CRC fragment, the check, and on a
      match the decoder and the removal of the frame. */
  method ReceiveCrc<M>(frx: Framed.AsyncReadReceiver, messageLen: nat, crc: CrcFn, decode: Decoder<M>)
    returns (r: Result<M, ReceiveError>)
    requires frx.Valid() && MESSAGE_LENGTH_SIZE + messageLen <= |frx.Buf()|
    modifies frx, frx.buf, frx.rx
    ensures frx.Valid() && (r, frx.State()) == CrcResult(frx.Cfg(), old(frx.State()), messageLen, crc, decode)
  {
    var messagePos := MESSAGE_LENGTH_SIZE;
    var crcPos := messagePos + messageLen;
    var f := frx.ReceiveFrameFragment(crcPos, MESSAGE_CRC_SIZE);
    if f.Err? {
      return Err(Framing(f.error));
    }
    var expected := ReadU16(frx.Buf()[crcPos..crcPos + MESSAGE_CRC_SIZE]);
    var computed := crc(frx.Buf()[messagePos..messagePos + messageLen]);
    if computed != expected {
      return Err(Crc);
    }
    r := MapDecode(decode(frx.Buf()[messagePos..messagePos + messageLen]));
    frx.RemoveFrame(crcPos + MESSAGE_CRC_SIZE);
  }

  // ---------------------------------------------------------------------
  // What a received frame is

  /** A buffered frame whose fields are all present is checked without
      reading: a matching CRC hands the payload to the decoder and removes
      exactly the frame, a mismatch leaves the buffer as it was. */
  lemma FrameResultBuffered<M>(cfg: Framed.Config, st: Framed.RxState, payload: seq<Byte>, c: U16,
                               after: seq<Byte>, crc: CrcFn, decode: Decoder<M>)
    requires |payload| < 0x1_0000
    requires st.buf == LeBytes(|payload|) + payload + LeBytes(c) + after && |st.buf| <= cfg.capacity
    ensures FrameResult(cfg, st, crc, decode) ==
      if crc(payload) == c then (MapDecode(decode(payload)), st.(buf := after)) else (Err(Crc), st)
  {
    var n := |payload|;
    assert st.buf[..2] == LeBytes(n);
    assert st.buf[2..2 + n] == payload;
    assert st.buf[2 + n..4 + n] == LeBytes(c);
    assert st.buf[4 + n..] == after;
    ReadLeBytes(n);
    ReadLeBytes(c);
  }

  /** A length field announcing more than the buffer can ever hold is
      refused before anything more is read. */
  lemma FrameResultOversized<M>(cfg: Framed.Config, st: Framed.RxState, crc: CrcFn, decode: Decoder<M>)
    requires MESSAGE_LENGTH_SIZE <= |st.buf| <= cfg.capacity
    requires MESSAGE_LENGTH_SIZE + ReadU16(st.buf) > cfg.capacity
    ensures FrameResult(cfg, st, crc, decode) == (Err(Framing(Framed.BufferCapacity)), st)
  {
    assert ReadU16(st.buf[..MESSAGE_LENGTH_SIZE]) == ReadU16(st.buf);
  }

  /** A length field that fits, but a payload and CRC trailer that do not:
      once the payload is buffered, the CRC fragment is refused as
      `Framing(BufferCapacity)` and the state is untouched. */
  lemma FrameResultTrailerOversized<M>(cfg: Framed.Config, st: Framed.RxState, crc: CrcFn, decode: Decoder<M>)
    requires MESSAGE_LENGTH_SIZE <= |st.buf| <= cfg.capacity
    requires MESSAGE_LENGTH_SIZE + ReadU16(st.buf) <= |st.buf|
    requires cfg.capacity < MESSAGE_LENGTH_SIZE + ReadU16(st.buf) + MESSAGE_CRC_SIZE
    ensures FrameResult(cfg, st, crc, decode) == (Err(Framing(Framed.BufferCapacity)), st)
  {
    assert ReadU16(st.buf[..MESSAGE_LENGTH_SIZE]) == ReadU16(st.buf);
  }

  /** A line that holds an incomplete frame body `w` and then ends, read
      after the marker on an empty buffer: whichever fragment runs out (the
      length, the payload or the CRC), the failure comes back as
      `Framing(Timeout)` when the line goes silent and as
      `Framing(Other(e))` when it faults with `e`, and every byte of `w`
      stays buffered. */
  lemma FrameResultRunsOut<M>(cfg: Framed.Config, w: seq<Byte>, fault: Option<Io.SourceError>,
                              crc: CrcFn, decode: Decoder<M>)
    requires MESSAGE_LENGTH_SIZE <= cfg.capacity
    requires |w| >= MESSAGE_LENGTH_SIZE ==>
      |w| < MESSAGE_LENGTH_SIZE + ReadU16(w) + MESSAGE_CRC_SIZE <= cfg.capacity
    ensures FrameResult(cfg, Framed.RxState([], Io.Unread(w, Io.LineEnd(fault))), crc, decode)
      == (Err(Framing(Framed.EndError(fault))), Framed.RxState(w, []))
  {
    var t := Io.LineEnd(fault);
    if |w| < 2 {
      Framed.FragmentRunsOut(cfg, [], w, fault, 0, 2);
      assert [] + w == w;
    } else {
      var n: nat := ReadU16(w[..2]);
      assert ReadU16(w) == n;
      Framed.FragmentFromBurst(cfg, [], w, t, 0, 2);
      assert [] + w[..2] == w[..2] && w[..2][..2] == w[..2];
      if |w| < 2 + n {
        Framed.FragmentRunsOut(cfg, w[..2], w[2..], fault, 2, n);
        assert w[..2] + w[2..] == w;
      } else {
        PayloadRunsOut(cfg, w, fault, n, crc, decode);
      }
    }
  }

  /** The case of `FrameResultRunsOut` where the payload has arrived and
      the CRC trailer is incomplete. */
  lemma PayloadRunsOut<M>(cfg: Framed.Config, w: seq<Byte>, fault: Option<Io.SourceError>, n: nat,
                          crc: CrcFn, decode: Decoder<M>)
    requires |w| >= 2 && ReadU16(w[..2]) == n
    requires 2 + n <= |w| < 4 + n <= cfg.capacity
    ensures PayloadResult(cfg, Framed.RxState(w[..2], Io.Unread(w[2..], Io.LineEnd(fault))), crc, decode)
      == (Err(Framing(Framed.EndError(fault))), Framed.RxState(w, []))
  {
    var t := Io.LineEnd(fault);
    assert w[..2][..2] == w[..2];
    if n > 0 {
      Framed.FragmentFromBurst(cfg, w[..2], w[2..], t, 2, n);
      assert w[..2] + w[2..][..n] == w[..2 + n];
      assert w[2..][n..] == w[2 + n..];
    } else {
      assert w[..2] == w[..2 + n] && w[2..] == w[2 + n..];
    }
    CrcRunsOut(cfg, w, fault, n, crc, decode);
  }

  /** The last step of `PayloadRunsOut`: the CRC fragment runs out. */
  lemma CrcRunsOut<M>(cfg: Framed.Config, w: seq<Byte>, fault: Option<Io.SourceError>, n: nat,
                      crc: CrcFn, decode: Decoder<M>)
    requires 2 + n <= |w| < 4 + n <= cfg.capacity
    ensures CrcResult(cfg, Framed.RxState(w[..2 + n], Io.Unread(w[2 + n..], Io.LineEnd(fault))), n, crc, decode)
      == (Err(Framing(Framed.EndError(fault))), Framed.RxState(w, []))
  {
    Framed.FragmentRunsOut(cfg, w[..2 + n], w[2 + n..], fault, 2 + n, 2);
    assert w[..2 + n] + w[2 + n..] == w;
  }

  /** `line` starts with a frame that passes the CRC check, `r` is what
      the decoder makes of its payload, and `st` holds, buffered or still on
      the line, exactly what follows the frame. */
  ghost predicate PassedCheck<M>(line: seq<Byte>, r: Result<M, ReceiveError>, st: Framed.RxState,
                                  crc: CrcFn, decode: Decoder<M>)
  {
    |line| >= 4 &&
    var n := ReadU16(line);
    |line| >= 4 + n &&
    crc(line[2..2 + n]) == ReadU16(line[2 + n..]) &&
    r == MapDecode(decode(line[2..2 + n])) &&
    st.buf + Io.Delivered(st.script) == line[4 + n..]
  }

  /** `buf` starts with a complete frame whose CRC does not match its
      payload. */
  ghost predicate HoldsCorruptFrame(buf: seq<Byte>, crc: CrcFn) {
    |buf| >= 4 &&
    var n := ReadU16(buf);
    |buf| >= 4 + n && crc(buf[2..2 + n]) != ReadU16(buf[2 + n..])
  }

  /** Whatever the decoder is given passed the CRC check: the bytes that
      the buffer and the line held start with a length field, that many
      payload bytes and their CRC, the decoder sees exactly that payload,
      and what remains afterwards, buffered or still on the line, is
      everything after the frame. */
  lemma FrameResultChecked<M>(cfg: Framed.Config, st: Framed.RxState, crc: CrcFn, decode: Decoder<M>)
    requires |st.buf| <= cfg.capacity
    ensures var (r, st') := FrameResult(cfg, st, crc, decode);
      (r.Ok? || r.error.Decode?) ==> PassedCheck(st.buf + Io.Delivered(st.script), r, st', crc, decode)
  {
    var (r1, st1) := Framed.FragmentResult(cfg, st, 0, MESSAGE_LENGTH_SIZE);
    if r1.Ok? {
      PayloadResultChecked(cfg, st1, crc, decode);
    }
  }

  lemma PayloadResultChecked<M>(cfg: Framed.Config, st: Framed.RxState, crc: CrcFn, decode: Decoder<M>)
    requires MESSAGE_LENGTH_SIZE <= |st.buf| <= cfg.capacity
    ensures var (r, st') := PayloadResult(cfg, st, crc, decode);
      (r.Ok? || r.error.Decode?) ==> PassedCheck(st.buf + Io.Delivered(st.script), r, st', crc, decode)
  {
    var n := ReadU16(st.buf[..MESSAGE_LENGTH_SIZE]);
    var (r2, st2) := Framed.FragmentResult(cfg, st, MESSAGE_LENGTH_SIZE, n);
    if r2.Ok? {
      assert st2.buf[..2] == st.buf[..2];
      CrcResultChecked(cfg, st2, n, crc, decode);
    }
  }

  lemma CrcResultChecked<M>(cfg: Framed.Config, st: Framed.RxState, n: nat, crc: CrcFn, decode: Decoder<M>)
    requires MESSAGE_LENGTH_SIZE + n <= |st.buf| <= cfg.capacity && ReadU16(st.buf[..2]) == n
    ensures var (r, st') := CrcResult(cfg, st, n, crc, decode);
      (r.Ok? || r.error.Decode?) ==> PassedCheck(st.buf + Io.Delivered(st.script), r, st', crc, decode)
  {
    var (r3, st3) := Framed.FragmentResult(cfg, st, MESSAGE_LENGTH_SIZE + n, MESSAGE_CRC_SIZE);
    if r3.Ok? {
      FrameInLine(st.buf + Io.Delivered(st.script), st.buf, st3.buf, Io.Delivered(st3.script), n);
    }
  }

  /** The converse of `FrameResultChecked` on a prompt line: when the
      buffer and the line together start with a well-formed frame body that
      fits, the frame is received as what the decoder makes of its payload,
      and afterwards the buffer and the line hold exactly what followed it. */
  lemma FrameResultComplete<M>(cfg: Framed.Config, st: Framed.RxState, payload: seq<Byte>, rest: seq<Byte>,
                               crc: CrcFn, decode: Decoder<M>)
    requires |st.buf| <= cfg.capacity && Io.Prompt(st.script)
    requires |payload| < 0x1_0000 && 4 + |payload| <= cfg.capacity
    requires st.buf + Io.Delivered(st.script) == LeBytes(|payload|) + payload + LeBytes(crc(payload)) + rest
    ensures var (r, st') := FrameResult(cfg, st, crc, decode);
      r == MapDecode(decode(payload)) && st'.buf + Io.Delivered(st'.script) == rest && Io.Prompt(st'.script)
  {
    Framed.FragmentFromPromptLine(cfg, st, 0, MESSAGE_LENGTH_SIZE);
    var (r1, st1) := Framed.FragmentResult(cfg, st, 0, MESSAGE_LENGTH_SIZE);
    PayloadResultComplete(cfg, st1, payload, rest, crc, decode);
  }

  lemma PayloadResultComplete<M>(cfg: Framed.Config, st: Framed.RxState, payload: seq<Byte>, rest: seq<Byte>,
                                 crc: CrcFn, decode: Decoder<M>)
    requires MESSAGE_LENGTH_SIZE <= |st.buf| <= cfg.capacity && Io.Prompt(st.script)
    requires |payload| < 0x1_0000 && 4 + |payload| <= cfg.capacity
    requires st.buf + Io.Delivered(st.script) == LeBytes(|payload|) + payload + LeBytes(crc(payload)) + rest
    ensures var (r, st') := PayloadResult(cfg, st, crc, decode);
      r == MapDecode(decode(payload)) && st'.buf + Io.Delivered(st'.script) == rest && Io.Prompt(st'.script)
  {
    var n := |payload|;
    var line := st.buf + Io.Delivered(st.script);
    assert ReadU16(st.buf[..MESSAGE_LENGTH_SIZE]) == n by {
      assert st.buf[..2] == line[..2] == LeBytes(n);
      ReadLeBytes(n);
    }
    Framed.FragmentFromPromptLine(cfg, st, MESSAGE_LENGTH_SIZE, n);
    var (r2, st2) := Framed.FragmentResult(cfg, st, MESSAGE_LENGTH_SIZE, n);
    CrcResultComplete(cfg, st2, payload, rest, crc, decode);
  }

  lemma CrcResultComplete<M>(cfg: Framed.Config, st: Framed.RxState, payload: seq<Byte>, rest: seq<Byte>,
                             crc: CrcFn, decode: Decoder<M>)
    requires MESSAGE_LENGTH_SIZE + |payload| <= |st.buf| <= cfg.capacity && Io.Prompt(st.script)
    requires |payload| < 0x1_0000 && 4 + |payload| <= cfg.capacity
    requires st.buf + Io.Delivered(st.script) == LeBytes(|payload|) + payload + LeBytes(crc(payload)) + rest
    ensures var (r, st') := CrcResult(cfg, st, |payload|, crc, decode);
      r == MapDecode(decode(payload)) && st'.buf + Io.Delivered(st'.script) == rest && Io.Prompt(st'.script)
  {
    var n := |payload|;
    var line := st.buf + Io.Delivered(st.script);
    var (r3, st3) := Framed.FragmentResult(cfg, st, MESSAGE_LENGTH_SIZE + n, MESSAGE_CRC_SIZE);
    assert r3 == Ok(()) && 4 + n <= |st3.buf| && st3.buf + Io.Delivered(st3.script) == line
        && Io.Prompt(st3.script) by {
      Framed.FragmentFromPromptLine(cfg, st, MESSAGE_LENGTH_SIZE + n, MESSAGE_CRC_SIZE);
    }
    CheckBufferedFrame(st3, payload, rest, crc, decode);
  }

  /** A buffer that, with the line behind it, starts with a well-formed
      frame body holding that whole body passes the check, hands the
      payload to the decoder and drops exactly the body. */
  lemma CheckBufferedFrame<M>(st: Framed.RxState, payload: seq<Byte>, rest: seq<Byte>,
                              crc: CrcFn, decode: Decoder<M>)
    requires |payload| < 0x1_0000 && 4 + |payload| <= |st.buf|
    requires st.buf + Io.Delivered(st.script) == LeBytes(|payload|) + payload + LeBytes(crc(payload)) + rest
    ensures var (r, st') := CheckResult(st, |payload|, crc, decode);
      r == MapDecode(decode(payload)) && st' == st.(buf := st.buf[4 + |payload|..]) &&
      st'.buf + Io.Delivered(st'.script) == rest
  {
    var n := |payload|;
    var line := st.buf + Io.Delivered(st.script);
    var body := LeBytes(n) + payload + LeBytes(crc(payload));
    assert |body| == 4 + n && line == body + rest;
    assert st.buf[2..2 + n] == line[2..2 + n] == payload;
    assert st.buf[2 + n..4 + n] == line[2 + n..4 + n] == LeBytes(crc(payload));
    ReadLeBytes(crc(payload));
    assert line[4 + n..] == rest;
    assert st.buf[4 + n..] + Io.Delivered(st.script) == line[4 + n..];
  }

  /** A buffer that has grown from `b1` to `b3` in front of what the line
      still holds reads, field for field, like the line did. */
  lemma FrameInLine(line: seq<Byte>, b1: seq<Byte>, b3: seq<Byte>, later: seq<Byte>, n: nat)
    requires b3 + later == line && b1 <= b3 && |b1| >= 2 && |b3| >= 4 + n && n == ReadU16(b1[..2])
    ensures |line| >= 4 + n && ReadU16(line) == n && line[2..2 + n] == b3[2..2 + n]
    ensures ReadU16(line[2 + n..]) == ReadU16(b3[2 + n..4 + n])
    ensures b3[4 + n..] + later == line[4 + n..]
  {
    assert line[..|b3|] == b3;
  }

  /** A frame that fails the CRC check is left where it was: the buffer
      holds the complete frame (the length field, the payload and the CRC
      that does not match it), nothing has been dropped from it, and no
      byte of the line has been lost. */
  lemma FrameResultCrcRejected<M>(cfg: Framed.Config, st: Framed.RxState, crc: CrcFn, decode: Decoder<M>)
    requires |st.buf| <= cfg.capacity
    ensures var (r, st') := FrameResult(cfg, st, crc, decode);
      r == Err(Crc) ==>
        st.buf <= st'.buf && HoldsCorruptFrame(st'.buf, crc) &&
        st'.buf + Io.Delivered(st'.script) == st.buf + Io.Delivered(st.script)
  {
    var (r1, st1) := Framed.FragmentResult(cfg, st, 0, MESSAGE_LENGTH_SIZE);
    if r1.Ok? {
      PayloadResultCrcRejected(cfg, st1, crc, decode);
    }
  }

  lemma PayloadResultCrcRejected<M>(cfg: Framed.Config, st: Framed.RxState, crc: CrcFn, decode: Decoder<M>)
    requires MESSAGE_LENGTH_SIZE <= |st.buf| <= cfg.capacity
    ensures var (r, st') := PayloadResult(cfg, st, crc, decode);
      r == Err(Crc) ==>
        st.buf <= st'.buf && HoldsCorruptFrame(st'.buf, crc) &&
        st'.buf + Io.Delivered(st'.script) == st.buf + Io.Delivered(st.script)
  {
    var n := ReadU16(st.buf[..MESSAGE_LENGTH_SIZE]);
    var (r2, st2) := Framed.FragmentResult(cfg, st, MESSAGE_LENGTH_SIZE, n);
    if r2.Ok? {
      assert st2.buf[..2] == st.buf[..2];
      CrcResultCrcRejected(cfg, st2, n, crc, decode);
    }
  }

  lemma CrcResultCrcRejected<M>(cfg: Framed.Config, st: Framed.RxState, n: nat, crc: CrcFn, decode: Decoder<M>)
    requires MESSAGE_LENGTH_SIZE + n <= |st.buf| <= cfg.capacity && ReadU16(st.buf[..2]) == n
    ensures var (r, st') := CrcResult(cfg, st, n, crc, decode);
      r == Err(Crc) ==>
        st.buf <= st'.buf && HoldsCorruptFrame(st'.buf, crc) &&
        st'.buf + Io.Delivered(st'.script) == st.buf + Io.Delivered(st.script)
  {
    var (r3, st3) := Framed.FragmentResult(cfg, st, MESSAGE_LENGTH_SIZE + n, MESSAGE_CRC_SIZE);
    if r3.Ok? {
      assert st3.buf[..2] == st.buf[..2];
      assert st3.buf[2 + n..][..2] == st3.buf[2 + n..4 + n];
    }
  }

  // ---------------------------------------------------------------------
  // Round trips

  /** The three fragments of a frame that arrives in one burst on an empty
      buffer are read from that burst, and the frame is accepted. */
  lemma FrameFromBurst<M>(cfg: Framed.Config, payload: seq<Byte>, t: seq<Io.Event>, crc: CrcFn, decode: Decoder<M>)
    requires |payload| < 0x1_0000 && |payload| + 4 <= cfg.capacity
    ensures var body := LeBytes(|payload|) + payload + LeBytes(crc(payload));
      FrameResult(cfg, Framed.RxState([], [Io.Burst(body)] + t), crc, decode)
        == (MapDecode(decode(payload)), Framed.RxState([], t))
  {
    var n := |payload|;
    var body := LeBytes(n) + payload + LeBytes(crc(payload));
    LengthFromBurst(cfg, body, t, crc, decode);
    assert body[..2] == LeBytes(n);
    ReadLeBytes(n);
    PayloadFromBurst(cfg, body, t, n, crc, decode);
    CrcFromBurst(cfg, body, t, n, crc, decode);
    CheckWholeFrame(body, payload, t, crc, decode);
  }

  /** A buffer holding exactly one well-formed frame body passes the check
      and is emptied. */
  lemma CheckWholeFrame<M>(body: seq<Byte>, payload: seq<Byte>, t: seq<Io.Event>, crc: CrcFn, decode: Decoder<M>)
    requires |payload| < 0x1_0000 && body == LeBytes(|payload|) + payload + LeBytes(crc(payload))
    ensures CheckResult(Framed.RxState(body, t), |payload|, crc, decode)
      == (MapDecode(decode(payload)), Framed.RxState([], t))
  {
    var n := |payload|;
    assert body[2..2 + n] == payload;
    assert body[2 + n..4 + n] == LeBytes(crc(payload));
    ReadLeBytes(crc(payload));
    assert body[4 + n..] == [];
  }

  lemma LengthFromBurst<M>(cfg: Framed.Config, body: seq<Byte>, t: seq<Io.Event>, crc: CrcFn, decode: Decoder<M>)
    requires 4 <= |body| <= cfg.capacity
    ensures FrameResult(cfg, Framed.RxState([], [Io.Burst(body)] + t), crc, decode)
      == PayloadResult(cfg, Framed.RxState(body[..2], [Io.Burst(body[2..])] + t), crc, decode)
  {
    Framed.FragmentFromBurst(cfg, [], body, t, 0, 2);
    assert body[2..] != [] && [] + body[..2] == body[..2];
  }

  lemma PayloadFromBurst<M>(cfg: Framed.Config, body: seq<Byte>, t: seq<Io.Event>, n: nat, crc: CrcFn, decode: Decoder<M>)
    requires |body| == n + 4 <= cfg.capacity && ReadU16(body[..2]) == n
    ensures PayloadResult(cfg, Framed.RxState(body[..2], [Io.Burst(body[2..])] + t), crc, decode)
      == CrcResult(cfg, Framed.RxState(body[..2 + n], [Io.Burst(body[2 + n..])] + t), n, crc, decode)
  {
    assert body[..2][..2] == body[..2];
    if n > 0 {
      Framed.FragmentFromBurst(cfg, body[..2], body[2..], t, 2, n);
      assert body[..2] + body[2..][..n] == body[..2 + n];
      assert body[2..][n..] == body[2 + n..];
    } else {
      assert body[..2] == body[..2 + n] && body[2..] == body[2 + n..];
    }
  }

  lemma CrcFromBurst<M>(cfg: Framed.Config, body: seq<Byte>, t: seq<Io.Event>, n: nat, crc: CrcFn, decode: Decoder<M>)
    requires |body| == n + 4 <= cfg.capacity
    ensures CrcResult(cfg, Framed.RxState(body[..2 + n], [Io.Burst(body[2 + n..])] + t), n, crc, decode)
      == CheckResult(Framed.RxState(body, t), n, crc, decode)
  {
    Framed.FragmentFromBurst(cfg, body[..2 + n], body[2 + n..], t, 2 + n, 2);
    assert body[..2 + n] + body[2 + n..][..2] == body;
    assert body[2 + n..][2..] == [];
  }

  /** A frame arriving in one burst, after any bytes that are not the
      marker, while the buffer holds no marker, is received whole: the
      decoder is given the message's encoding and the receiver ends with
      an empty buffer and the line after the frame. */
  lemma ReceiveFromLine<M>(cfg: Framed.Config, st: Framed.RxState, noise: seq<Byte>, payload: seq<Byte>,
                           t: seq<Io.Event>, crc: CrcFn, decode: Decoder<M>)
    requires |st.buf| <= cfg.capacity && cfg.sync !in st.buf && cfg.sync !in noise
    requires |payload| < 0x1_0000 && |payload| + 4 <= cfg.capacity
    requires st.script == [Io.Burst(noise + Frame(cfg.sync, |payload|, payload, crc))] + t
    ensures ReceiveResult(cfg, st, crc, decode) == (Ready(MapDecode(decode(payload))), Framed.RxState([], t))
  {
    var body := LeBytes(|payload|) + payload + LeBytes(crc(payload));
    assert noise + Frame(cfg.sync, |payload|, payload, crc) == noise + [cfg.sync] + body;
    Framed.WaitSyncSkipsNoise(cfg.sync, noise, body, t);
    assert Framed.SyncResult(cfg, st) == (Ready(Ok(())), Framed.RxState([], [Io.Burst(body)] + t));
    FrameFromBurst(cfg, payload, t, crc, decode);
  }

  /** A frame already buffered behind bytes that are not the marker is
      received without touching the line: the decoder is given the payload
      and the buffer keeps only what followed the frame. */
  lemma ReceiveFromBuffer<M>(cfg: Framed.Config, st: Framed.RxState, noise: seq<Byte>, payload: seq<Byte>,
                             after: seq<Byte>, crc: CrcFn, decode: Decoder<M>)
    requires cfg.sync !in noise && |payload| < 0x1_0000
    requires st.buf == noise + Frame(cfg.sync, |payload|, payload, crc) + after && |st.buf| <= cfg.capacity
    ensures ReceiveResult(cfg, st, crc, decode) == (Ready(MapDecode(decode(payload))), st.(buf := after))
  {
    var n := |payload|;
    var rest := LeBytes(n) + payload + LeBytes(crc(payload)) + after;
    assert Framed.SyncResult(cfg, st) == (Ready(Ok(())), st.(buf := rest)) by {
      assert st.buf == noise + [cfg.sync] + rest;
      assert st.buf[|noise|] == cfg.sync && st.buf[..|noise|] == noise;
      var p := FirstIndex(st.buf, cfg.sync);
      assert st.buf[p + 1..] == rest;
    }
    FrameResultBuffered(cfg, st.(buf := rest), payload, crc(payload), after, crc, decode);
  }

  /** Failing to find a marker is the only way to get `Sync`. */
  lemma FrameResultNeverSync<M>(cfg: Framed.Config, st: Framed.RxState, crc: CrcFn, decode: Decoder<M>)
    requires |st.buf| <= cfg.capacity
    ensures FrameResult(cfg, st, crc, decode).0 != Err(Sync)
  {
  }

  /** How a receive ends before a frame is read: it waits forever exactly
      when neither the buffer nor the line ever delivers a marker and the
      line never fails, and it reports `Sync` exactly when the line fails
      before delivering one. */
  lemma ReceiveResultBeforeMarker<M>(cfg: Framed.Config, st: Framed.RxState, crc: CrcFn, decode: Decoder<M>)
    requires |st.buf| <= cfg.capacity
    ensures var r := ReceiveResult(cfg, st, crc, decode).0;
      var absent := cfg.sync !in st.buf && cfg.sync !in Io.Delivered(st.script);
      (r == Pending <==> absent && Io.Faultless(st.script)) &&
      (r == Ready(Err(Sync)) <==> absent && !Io.Faultless(st.script))
  {
    Framed.WaitSyncConsumesThroughMarker(cfg.sync, st.script);
    if cfg.sync !in st.buf {
      var (p, rest) := Framed.WaitSync(cfg.sync, st.script);
      assert Framed.SyncResult(cfg, st) == (p, Framed.RxState([], rest));
      match p
      case Pending =>
      case Ready(Err(_)) =>
      case Ready(Ok(u)) =>
        assert u == ();
        FrameResultNeverSync(cfg, Framed.RxState([], rest), crc, decode);
        assert ReceiveResult(cfg, st, crc, decode).0 == Ready(FrameResult(cfg, Framed.RxState([], rest), crc, decode).0);
        assert p == Ready(Ok(()));
    }
  }

  /** A message sent by `send_target_message` into a sink that takes
      everything, and carried over a line that delivers it in one burst
      after any bytes that are not the marker, reaches the decoder of a
      fresh receiver whole: the decoder is given exactly the encoder's
      output. */
  method SendThenReceive<M>(msg: M, computeSize: M -> nat, encode: M -> seq<seq<Byte>>,
                            crc: CrcFn, decode: Decoder<M>, noise: seq<Byte>, capacity: nat,
                            firstByteTimeout: Io.Duration, betweenBytesTimeout: Io.Duration)
    returns (sent: Result<(), Framed.WriteError>, received: Poll<Result<M, ReceiveError>>)
    requires computeSize(msg) == |Flatten(encode(msg))| < 0x1_0000
    requires computeSize(msg) + 4 <= capacity
    requires SYNC_BYTE !in noise
    ensures sent.Ok? && received == Ready(MapDecode(decode(Flatten(encode(msg)))))
  {
    var sink := new Framed.Sink(None);
    var ftx := new Framed.WriteSender(sink, SYNC_BYTE);
    sent := SendTargetMessage(ftx, msg, computeSize, encode, crc);
    var payload := Flatten(encode(msg));
    assert sink.wire == Frame(SYNC_BYTE, |payload|, payload, crc);

    var line := new Io.Source([Io.Burst(noise + sink.wire)]);
    var storage := new Byte[capacity](_ => 0);
    var frx := new Framed.AsyncReadReceiver(storage, 0, line, SYNC_BYTE, firstByteTimeout, betweenBytesTimeout);
    assert frx.Buf() == [];
    ReceiveFromLine(frx.Cfg(), frx.State(), noise, payload, [], crc, decode);
    received := ReceiveHostMessage(frx, crc, decode);
  }
}
