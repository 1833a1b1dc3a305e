/** The frame transport of src/io/framed.rs: the buffered receiver that
    resynchronises on a marker byte and accumulates frame fragments in a
    fixed-capacity buffer, and the pass-through sender. */
module Framed {
  import opened Base
  import Io

  /** `AsyncReadReceiverError`. */
  datatype RxError =
    | BufferCapacity
    | Timeout
    | Other(source: Io.SourceError)

  /** What a receiver is configured with: the buffer's capacity `N`, the
      marker byte and the two timer lengths. */
  datatype Config = Config(capacity: nat, sync: Byte, firstByte: Io.Duration, betweenBytes: Io.Duration)

  /** What a receiver holds at one instant: the buffer's contents and what
      its source will do from now on. */
  datatype RxState = RxState(buf: seq<Byte>, script: seq<Io.Event>)

  // ---------------------------------------------------------------------
  // receive_sync

  /** The wait for a marker when the buffer holds none: one-byte reads with
      no timer, until a read yields the marker (which is dropped) or fails.
      A line that stays silent leaves the wait pending. */
  function WaitSync(sync: Byte, s: seq<Io.Event>): (Poll<Result<(), RxError>>, seq<Io.Event>)
    decreases Io.Weight(s)
  {
    if s == [] then (Pending, [])
    else match s[0]
      case Burst(d) =>
        if d == [] then WaitSync(sync, s[1..])
        else if d[0] == sync then (Ready(Ok(())), Io.Unread(d[1..], s[1..]))
        else
          Io.WeightUnread(d[1..], s[1..]);
          WaitSync(sync, Io.Unread(d[1..], s[1..]))
      case Late(b) => if b == sync then (Ready(Ok(())), s[1..]) else WaitSync(sync, s[1..])
      case Expire => WaitSync(sync, s[1..])
      case EagerFault(e) => (Ready(Err(Other(e))), s[1..])
      case LateFault(e) => (Ready(Err(Other(e))), s[1..])
  }

  /** `receive_sync`: drop everything up to and including the first marker
      in the buffer; if there is none, empty the buffer and wait for one on
      the line. */
  function SyncResult(cfg: Config, st: RxState): (r: (Poll<Result<(), RxError>>, RxState))
    ensures |r.1.buf| <= |st.buf|
    ensures cfg.sync in st.buf ==>
      var k := |st.buf| - |r.1.buf| - 1;
      r.0 == Ready(Ok(())) && r.1.script == st.script &&
      0 <= k && st.buf == st.buf[..k] + [cfg.sync] + r.1.buf && cfg.sync !in st.buf[..k]
    ensures cfg.sync !in st.buf ==> r.1.buf == []
    // a fault on the line before any marker is reported as `Other` with
    // the line's own error
    ensures cfg.sync !in st.buf && cfg.sync !in Io.Delivered(st.script) && !Io.Faultless(st.script) ==>
      r.0 == Ready(Err(Other(Io.FirstFault(st.script))))
  {
    if cfg.sync in st.buf then
      var p := FirstIndex(st.buf, cfg.sync);
      assert st.buf == st.buf[..p] + [cfg.sync] + st.buf[p + 1..];
      (Ready(Ok(())), RxState(st.buf[p + 1..], st.script))
    else
      WaitSyncConsumesThroughMarker(cfg.sync, st.script);
      var w := WaitSync(cfg.sync, st.script);
      (w.0, RxState([], w.1))
  }

  lemma FirstIndexAfterOther(s: seq<Byte>, x: Byte)
    requires s != [] && s[0] != x
    ensures x in s <==> x in s[1..]
    ensures x in s ==> FirstIndex(s, x) == 1 + FirstIndex(s[1..], x)
  {
    if x in s {
      var i :| 0 <= i < |s| && s[i] == x;
      assert s[1..][i - 1] == x;
    }
  }

  /** The wait consumes the line's bytes exactly up to and including the
      first marker it delivers: it succeeds precisely when the line delivers
      a marker before any fault, it stays pending precisely when the line
      goes silent without a marker or a fault, after success the line
      still holds everything that followed that marker, and a fault that
      comes first is reported with its own error. */
  ghost predicate ConsumesThroughMarker(sync: Byte, s: seq<Io.Event>) {
    var (p, rest) := WaitSync(sync, s);
    var line := Io.Delivered(s);
    (p == Ready(Ok(())) <==> sync in line) &&
    (p == Ready(Ok(())) ==> Io.Delivered(rest) == line[FirstIndex(line, sync) + 1..]) &&
    (p == Pending <==> sync !in line && Io.Faultless(s)) &&
    (sync !in line && !Io.Faultless(s) ==> p == Ready(Err(Other(Io.FirstFault(s)))))
  }

  lemma {:induction false} WaitSyncConsumesThroughMarker(sync: Byte, s: seq<Io.Event>)
    ensures ConsumesThroughMarker(sync, s)
    decreases Io.Weight(s), 1
  {
    if s != [] {
      match s[0]
      case Burst(d) =>
        BurstConsumesThroughMarker(sync, s);
      case Late(b) =>
        assert Io.Delivered(s) == [b] + Io.Delivered(s[1..]);
        if b != sync {
          WaitSyncConsumesThroughMarker(sync, s[1..]);
          WaitSyncShift(sync, s, s[1..], b);
        }
      case Expire =>
        WaitSyncConsumesThroughMarker(sync, s[1..]);
      case EagerFault(_) =>
      case LateFault(_) =>
    }
  }

  lemma {:induction false} BurstConsumesThroughMarker(sync: Byte, s: seq<Io.Event>)
    requires s != [] && s[0].Burst?
    ensures ConsumesThroughMarker(sync, s)
    decreases Io.Weight(s), 0
  {
    var d := s[0].data;
    if d == [] {
      assert Io.Delivered(s) == Io.Delivered(s[1..]);
      WaitSyncConsumesThroughMarker(sync, s[1..]);
    } else {
      var t := Io.Unread(d[1..], s[1..]);
      assert Io.Delivered(s) == [d[0]] + Io.Delivered(t) by {
        Io.DeliveredUnread(d[1..], s[1..]);
      }
      if d[0] != sync {
        assert Io.Faultless(s) == Io.Faultless(t) &&
          (!Io.Faultless(t) ==> Io.FirstFault(s) == Io.FirstFault(t)) by {
          Io.FaultlessUnread(d[1..], s[1..]);
          if !Io.Faultless(s[1..]) {
            Io.FirstFaultUnread(d[1..], s[1..]);
          }
        }
        Io.WeightUnread(d[1..], s[1..]);
        WaitSyncConsumesThroughMarker(sync, t);
        WaitSyncShift(sync, s, t, d[0]);
      } else {
        MarkerFirst(sync, s, t);
      }
    }
  }

  /** The wait on `s` reads the marker first and leaves `t`. */
  lemma MarkerFirst(sync: Byte, s: seq<Io.Event>, t: seq<Io.Event>)
    requires WaitSync(sync, s) == (Ready(Ok(())), t)
    requires Io.Delivered(s) == [sync] + Io.Delivered(t)
    ensures ConsumesThroughMarker(sync, s)
  {
    assert FirstIndex(Io.Delivered(s), sync) == 0;
    assert Io.Delivered(s)[1..] == Io.Delivered(t);
  }

  /** The wait on `s` reads a byte `x` that is not the marker and goes on
      as the wait on `t`. */
  lemma WaitSyncShift(sync: Byte, s: seq<Io.Event>, t: seq<Io.Event>, x: Byte)
    requires x != sync && WaitSync(sync, s) == WaitSync(sync, t)
    requires Io.Delivered(s) == [x] + Io.Delivered(t) && Io.Faultless(s) == Io.Faultless(t)
    requires !Io.Faultless(t) ==> Io.FirstFault(s) == Io.FirstFault(t)
    requires ConsumesThroughMarker(sync, t)
    ensures ConsumesThroughMarker(sync, s)
  {
    FirstIndexAfterOther(Io.Delivered(s), sync);
    assert Io.Delivered(s)[1..] == Io.Delivered(t);
  }

  /** Bytes before the marker are skipped one by one. */
  lemma {:induction false} WaitSyncSkipsNoise(sync: Byte, noise: seq<Byte>, after: seq<Byte>, t: seq<Io.Event>)
    requires sync !in noise
    ensures WaitSync(sync, [Io.Burst(noise + [sync] + after)] + t) == (Ready(Ok(())), Io.Unread(after, t))
    decreases |noise|
  {
    var d := noise + [sync] + after;
    assert ([Io.Burst(d)] + t)[1..] == t;
    if noise != [] {
      assert d[1..] == noise[1..] + [sync] + after;
      assert Io.Unread(d[1..], t) == [Io.Burst(noise[1..] + [sync] + after)] + t;
      WaitSyncSkipsNoise(sync, noise[1..], after, t);
    }
  }

  // ---------------------------------------------------------------------
  // receive_frame_fragment

  /** `receive_frame_fragment(pos, flen)`: make sure the buffer holds bytes
      `[pos, pos + flen)`, reading only the missing tail. */
  function FragmentResult(cfg: Config, st: RxState, pos: nat, flen: nat): (r: (Result<(), RxError>, RxState))
    requires pos <= |st.buf| <= cfg.capacity
    // the capacity invariant, and the bytes already buffered stay in place
    ensures |r.1.buf| <= cfg.capacity && st.buf <= r.1.buf
    // already present: nothing happens, nothing is read
    ensures pos + flen <= |st.buf| ==> r == (Ok(()), st)
    // refused exactly when the fragment would end past the capacity;
    // the state is then untouched
    ensures r.0 == Err(BufferCapacity) <==> pos + flen > cfg.capacity
    ensures r.0 == Err(BufferCapacity) ==> r.1 == st
    // success: the buffer ends exactly where the fragment ends, unless it
    // already reached further
    ensures r.0.Ok? ==> |r.1.buf| == if pos + flen <= |st.buf| then |st.buf| else pos + flen
    // a timeout or a source error leaves the fragment incomplete
    ensures r.0.Err? && r.0.error != BufferCapacity ==> |r.1.buf| < pos + flen
    // the bytes moved from the line into the buffer are the line's next
    // bytes, in order; after a source error the line has nothing more
    ensures r.0.Err? && r.0.error.Other? ==> r.1.buf == st.buf + Io.Delivered(st.script)
    ensures !(r.0.Err? && r.0.error.Other?) ==>
      r.1.buf + Io.Delivered(r.1.script) == st.buf + Io.Delivered(st.script)
  {
    var available := |st.buf| - pos;
    var toRead := if flen > available then flen - available else 0;
    if toRead == 0 then (Ok(()), st)
    else if toRead > cfg.capacity - |st.buf| then (Err(BufferCapacity), st)
    else
      var o := Io.ReadExact(st.script, toRead, cfg.firstByte, cfg.betweenBytes);
      Io.ReadLoopBounds(st.script, toRead, [], [], cfg.firstByte, cfg.betweenBytes);
      Io.ReadExactDelivers(st.script, toRead, cfg.firstByte, cfg.betweenBytes);
      var next := RxState(st.buf + o.got, o.rest);
      match o.result
      case Ok(_) => (Ok(()), next)
      case Err(Timeout(_)) => (Err(Timeout), next)
      case Err(Other(_, e)) => (Err(Other(e)), next)
  }

  /** The receiver's error for a line that ends as `LineEnd(fault)`
      describes: `Timeout` for silence, `Other(e)` for a fault `e`. */
  function EndError(fault: Option<Io.SourceError>): RxError {
    match fault
    case None => Timeout
    case Some(e) => Other(e)
  }

  /** A missing tail that fits but that the line, before it ends, does not
      complete: everything the line holds is buffered, and the fragment
      fails with the timeout or with the line's own error. */
  lemma FragmentRunsOut(cfg: Config, buf: seq<Byte>, d: seq<Byte>, fault: Option<Io.SourceError>, pos: nat, flen: nat)
    requires pos <= |buf| < pos + flen <= cfg.capacity
    requires |buf| + |d| < pos + flen
    ensures FragmentResult(cfg, RxState(buf, Io.Unread(d, Io.LineEnd(fault))), pos, flen)
      == (Err(EndError(fault)), RxState(buf + d, []))
  {
    Io.ShortLine(d, fault, pos + flen - |buf|, [], [], cfg.firstByte, cfg.betweenBytes);
    assert [] + d == d;
  }

  /** When the fragment has a missing tail that fits, the result is the
      reader's on exactly that tail: `Ok` when the reader filled it, the
      reader's timeout as `Timeout` and its source error `e` as `Other(e)`;
      the buffer gains the bytes read, so on an error it ends `bytes_read`
      bytes longer than before. */
  lemma FragmentResultFromReader(cfg: Config, st: RxState, pos: nat, flen: nat)
    requires pos <= |st.buf| < pos + flen <= cfg.capacity
    ensures var o := Io.ReadExact(st.script, pos + flen - |st.buf|, cfg.firstByte, cfg.betweenBytes);
      var (r, st') := FragmentResult(cfg, st, pos, flen);
      st' == RxState(st.buf + o.got, o.rest) &&
      (r.Ok? <==> o.result.Ok?) &&
      (r == Err(Timeout) <==> o.result.Err? && o.result.error.Timeout?) &&
      (r.Err? && r.error.Other? <==> o.result.Err? && o.result.error.Other?) &&
      (o.result.Err? && o.result.error.Other? ==> r == Err(Other(o.result.error.source))) &&
      (o.result.Err? ==> |st'.buf| == |st.buf| + o.result.error.bytesRead)
  {
    Io.ReadLoopBounds(st.script, pos + flen - |st.buf|, [], [], cfg.firstByte, cfg.betweenBytes);
  }

  /** A fragment whose missing part arrives in one burst is filled from
      the burst's front; the rest of the burst stays on the line. */
  lemma FragmentFromBurst(cfg: Config, buf: seq<Byte>, d: seq<Byte>, t: seq<Io.Event>, pos: nat, flen: nat)
    requires pos <= |buf| < pos + flen <= cfg.capacity
    requires pos + flen - |buf| <= |d|
    ensures var k := pos + flen - |buf|;
      FragmentResult(cfg, RxState(buf, [Io.Burst(d)] + t), pos, flen)
        == (Ok(()), RxState(buf + d[..k], Io.Unread(d[k..], t)))
  {
    var k := pos + flen - |buf|;
    Io.BurstFills(d, t, k, [], [], cfg.firstByte, cfg.betweenBytes);
    assert [] + d[..k] == d[..k];
  }

  /** On a prompt line that holds enough bytes, a fragment that fits is
      completed: the buffer becomes the first `max(|buf|, pos + flen)` bytes
      of what the buffer and the line held together, and the line keeps the
      rest and stays prompt. */
  lemma FragmentFromPromptLine(cfg: Config, st: RxState, pos: nat, flen: nat)
    requires pos <= |st.buf| <= cfg.capacity && pos + flen <= cfg.capacity
    requires Io.Prompt(st.script) && pos + flen <= |st.buf| + |Io.Delivered(st.script)|
    ensures var all := st.buf + Io.Delivered(st.script);
      var (r, st') := FragmentResult(cfg, st, pos, flen);
      r == Ok(()) && st'.buf == all[..Max(|st.buf|, pos + flen)] &&
      st'.buf + Io.Delivered(st'.script) == all && Io.Prompt(st'.script)
  {
    var all := st.buf + Io.Delivered(st.script);
    if |st.buf| < pos + flen {
      var k := pos + flen - |st.buf|;
      var line := Io.Delivered(st.script);
      var o := Io.ReadExact(st.script, k, cfg.firstByte, cfg.betweenBytes);
      assert o.result.Ok? && o.got == line[..k] && Io.Delivered(o.rest) == line[k..] && Io.Prompt(o.rest) by {
        Io.PromptLineFills(st.script, k, [], [], cfg.firstByte, cfg.betweenBytes);
        assert [] + line[..k] == line[..k];
      }
      assert FragmentResult(cfg, st, pos, flen) == (Ok(()), RxState(st.buf + o.got, o.rest)) by {
        FragmentResultFromReader(cfg, st, pos, flen);
      }
      assert all[..pos + flen] == st.buf + line[..k];
      assert line == line[..k] + line[k..];
    } else {
      assert all[..|st.buf|] == st.buf;
    }
  }

  // ---------------------------------------------------------------------
  // The receiver object

  /** `AsyncReadReceiver<N, T>`: a `heapless::Vec<u8, N>` (the array `buf`
      of length `N` and its length `len`) fed from the source `rx`. */
  class AsyncReadReceiver {
    const buf: array<Byte>
    var len: nat
    const rx: Io.Source
    const sync: Byte
    const firstByteTimeout: Io.Duration
    const betweenBytesTimeout: Io.Duration

    /** The buffer never holds more than its capacity. */
    ghost predicate Valid()
      reads this
    {
      len <= buf.Length
    }

    function Cfg(): Config {
      Config(buf.Length, sync, firstByteTimeout, betweenBytesTimeout)
    }

    /** `buf()`: the buffer's current contents. */
    function Buf(): (b: seq<Byte>)
      reads this, buf
      requires Valid()
      ensures |b| <= buf.Length
    {
      buf[..len]
    }

    ghost function State(): RxState
      reads this, buf, rx
      requires Valid()
    {
      RxState(Buf(), rx.script)
    }

    /** `AsyncReadReceiver::new`, over a vector that may already hold bytes. */
    constructor (buf: array<Byte>, len: nat, rx: Io.Source, sync: Byte,
                 firstByteTimeout: Io.Duration, betweenBytesTimeout: Io.Duration)
      requires len <= buf.Length
      ensures Valid()
      ensures this.buf == buf && this.rx == rx && this.sync == sync
      ensures this.firstByteTimeout == firstByteTimeout && this.betweenBytesTimeout == betweenBytesTimeout
      ensures Buf() == buf[..len]
    {
      this.buf := buf;
      this.len := len;
      this.rx := rx;
      this.sync := sync;
      this.firstByteTimeout := firstByteTimeout;
      this.betweenBytesTimeout := betweenBytesTimeout;
    }

    /** `clear_buf`. */
    method ClearBuf()
      requires Valid()
      modifies this
      ensures Valid() && State() == RxState([], old(rx.script))
    {
      len := 0;
    }

    /** Drops the first `n` bytes of the buffer, moving the rest to the
        front (`utils::remove_leading_bytes`). */
    method RemoveLeadingBytes(n: nat)
      requires Valid() && n <= len
      modifies this, buf
      ensures Valid() && State() == RxState(old(Buf())[n..], old(rx.script))
    {
      ghost var before := buf[..];
      for i := 0 to len - n
        invariant len == old(len)
        invariant buf[..i] == before[n..n + i]
        invariant buf[i..] == before[i..]
      {
        buf[i] := buf[i + n];
        assert buf[..i + 1] == buf[..i] + [before[n + i]];
      }
      len := len - n;
    }

    /** `remove_frame`. */
    method RemoveFrame(n: nat)
      requires Valid() && n <= len
      modifies this, buf
      ensures Valid() && State() == RxState(old(Buf())[n..], old(rx.script))
    {
      RemoveLeadingBytes(n);
    }

    /** `receive_sync`. */
    method ReceiveSync() returns (r: Poll<Result<(), RxError>>)
      requires Valid()
      modifies this, buf, rx
      ensures Valid() && (r, State()) == SyncResult(Cfg(), old(State()))
    {
      var i := 0;
      while i < len && buf[i] != sync
        invariant i <= len && sync !in buf[..i]
      {
        assert buf[..i + 1] == buf[..i] + [buf[i]];
        i := i + 1;
      }
      if i < len {
        assert sync in Buf() && Buf()[..i] == buf[..i] && Buf()[i] == sync;
        assert FirstIndex(Buf(), sync) == i;
        RemoveLeadingBytes(i + 1);
        return Ready(Ok(()));
      }
      assert Buf() == buf[..i];
      len := 0;
      ghost var goal := WaitSync(sync, rx.script);
      while rx.script != []
        invariant len == 0 && WaitSync(sync, rx.script) == goal
        decreases Io.Weight(rx.script)
      {
        var ev := rx.script[0];
        rx.script := rx.script[1..];
        match ev
        case Burst(d) =>
          if d != [] {
            Io.WeightUnread(d[1..], rx.script);
            rx.script := Io.Unread(d[1..], rx.script);
            if d[0] == sync {
              return Ready(Ok(()));
            }
          }
        case Late(b) =>
          if b == sync {
            return Ready(Ok(()));
          }
        case Expire =>
        case EagerFault(e) =>
          return Ready(Err(Other(e)));
        case LateFault(e) =>
          return Ready(Err(Other(e)));
      }
      r := Pending;
    }

    /** `receive_frame_fragment`. The slice `buf[pos..]` requires
        `pos <= len`. */
    method ReceiveFrameFragment(pos: nat, flen: nat) returns (r: Result<(), RxError>)
      requires Valid() && pos <= len
      modifies this, buf, rx
      ensures Valid() && (r, State()) == FragmentResult(Cfg(), old(State()), pos, flen)
    {
      var available := len - pos;
      var toRead := if flen > available then flen - available else 0;
      if toRead == 0 {
        return Ok(());
      }
      if toRead > buf.Length - len {
        return Err(BufferCapacity);
      }
      var readStart := pos + available;
      var readEnd := readStart + toRead;
      ghost var o := Io.ReadExact(rx.script, toRead, firstByteTimeout, betweenBytesTimeout);
      Io.ReadLoopBounds(rx.script, toRead, [], [], firstByteTimeout, betweenBytesTimeout);
      len := readEnd;
      var res;
      ghost var armed;
      res, armed := Io.ReadExactWithTimeouts(rx, buf, readStart, readEnd, firstByteTimeout, betweenBytesTimeout);
      match res {
        case Ok(_) =>
          r := Ok(());
        case Err(Timeout(bytesRead)) =>
          len := readStart + bytesRead;
          r := Err(Timeout);
        case Err(Other(bytesRead, e)) =>
          len := readStart + bytesRead;
          r := Err(Other(e));
      }
      assert buf[..len] == buf[..readStart] + buf[readStart..readStart + |o.got|];
    }
  }

  // ---------------------------------------------------------------------
  // The sender

  /** The transport's write error (`T::Error`), kept opaque. */
  datatype WriteError = WriteError

  /** Whether a write of `n` bytes fits in what the sink still accepts
      (`None`: it never fails). */
  predicate Fits(n: nat, room: Option<nat>) {
    room.None? || n <= room.value
  }

  /** The part of `data` that a `write_all` gets onto the wire. */
  function Accepted(data: seq<Byte>, room: Option<nat>): seq<Byte> {
    if Fits(|data|, room) then data else data[..room.value]
  }

  /** What the sink still accepts after a write of `n` bytes. */
  function Spend(room: Option<nat>, n: nat): Option<nat> {
    match room
    case None => None
    case Some(k) => Some(if n <= k then k - n else 0)
  }

  /** Two writes in a row put on the wire what one write of their
      concatenation would, and fail exactly when it would; a failed first
      write stops the sequence. */
  lemma AcceptedSplit(a: seq<Byte>, b: seq<Byte>, room: Option<nat>)
    ensures Fits(|a + b|, room) <==> Fits(|a|, room) && Fits(|b|, Spend(room, |a|))
    ensures Fits(|a|, room) ==> Accepted(a + b, room) == Accepted(a, room) + Accepted(b, Spend(room, |a|))
    ensures !Fits(|a|, room) ==> Accepted(a + b, room) == Accepted(a, room)
    ensures Fits(|a|, room) ==> Spend(Spend(room, |a|), |b|) == Spend(room, |a + b|)
  {
    if room.Some? && |a| <= room.value && |a + b| > room.value {
      assert (a + b)[..room.value] == a + b[..room.value - |a|];
    }
    if room.Some? && |a| > room.value {
      assert (a + b)[..room.value] == a[..room.value];
    }
  }

  /** A byte sink (`T: Write`): what it has put on the wire so far, and how
      many more bytes it will accept before it fails. */
  class Sink {
    var wire: seq<Byte>
    var room: Option<nat>

    constructor (room: Option<nat>)
      ensures wire == [] && this.room == room
    {
      wire := [];
      this.room := room;
    }

    /** `write_all`: writes everything, or fails after writing what fit. */
    method WriteAll(data: seq<Byte>) returns (r: Result<(), WriteError>)
      modifies this
      ensures wire == old(wire) + Accepted(data, old(room))
      ensures room == Spend(old(room), |data|)
      ensures r.Ok? <==> Fits(|data|, old(room))
    {
      wire := wire + Accepted(data, room);
      r := if Fits(|data|, room) then Ok(()) else Err(WriteError);
      room := Spend(room, |data|);
    }
  }

  /** `WriteSender<T>`: a stateless pass-through to its sink. */
  class WriteSender {
    const tx: Sink
    const sync: Byte

    constructor (tx: Sink, sync: Byte)
      ensures this.tx == tx && this.sync == sync
    {
      this.tx := tx;
      this.sync := sync;
    }

    /** `send_sync`: exactly the one marker byte. */
    method SendSync() returns (r: Result<(), WriteError>)
      modifies tx
      ensures tx.wire == old(tx.wire) + Accepted([sync], old(tx.room))
      ensures tx.room == Spend(old(tx.room), 1)
      ensures r.Ok? <==> Fits(1, old(tx.room))
    {
      r := tx.WriteAll([sync]);
    }

    /** `send_frame_fragment`: the bytes, verbatim. */
    method SendFrameFragment(data: seq<Byte>) returns (r: Result<(), WriteError>)
      modifies tx
      ensures tx.wire == old(tx.wire) + Accepted(data, old(tx.room))
      ensures tx.room == Spend(old(tx.room), |data|)
      ensures r.Ok? <==> Fits(|data|, old(tx.room))
    {
      r := tx.WriteAll(data);
    }
  }
}
