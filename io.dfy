/** The exact reader with two timeouts (`read_exact_with_timeouts` in
    src/io/mod.rs), over a scripted byte source.

    The race between a one-byte read and a timer is not modelled as
    concurrency: each turn of the reader's loop takes the next event of the
    source's script, which says what the line did during that turn. A script
    that has run out stands for a line that stays silent from then on. */
module Io {
  import opened Base

  /** A timer length; only which of the two configured lengths was armed
      matters to the model. */
  type Duration = nat

  /** The transport's own error value (`T::Error`), kept opaque. */
  datatype SourceError = SourceError(code: nat)

  /** What the source does during one turn of a reader's loop. */
  datatype Event =
      /** `read_ready()` is `Ok(true)`; the following `read` delivers these
          bytes (at most as many as the destination holds: the surplus stays
          with the driver for the next read). */
    | Burst(data: seq<Byte>)
      /** `read_ready()` fails, or it says `true` and the `read` fails. In
          the untimed marker wait, which calls no `read_ready()`, it is the
          one-byte read failing. */
    | EagerFault(error: SourceError)
      /** Nothing is ready; one byte arrives before the armed timer expires. */
    | Late(b: Byte)
      /** Nothing is ready and nothing arrives before the armed timer expires. */
    | Expire
      /** Nothing is ready; the one-byte read fails before the timer expires. */
    | LateFault(error: SourceError)

  /** `ReadError`: both variants report how many bytes had been read. */
  datatype ReadError =
    | Timeout(bytesRead: nat)
    | Other(bytesRead: nat, source: SourceError)

  /** A timer armed by the reader: how many bytes had been read when it was
      armed, and which length it was given. */
  datatype Armed = Armed(readSoFar: nat, duration: Duration)

  /** Everything one call of the reader produces: its result, the bytes it
      placed in the window (in order), the script left over, and the timers
      it armed (in order). */
  datatype ReadOutcome = ReadOutcome(
    result: Result<(), ReadError>,
    got: seq<Byte>,
    rest: seq<Event>,
    armed: seq<Armed>)

  /** The byte source (`T: Read + ReadReady`), as the script of what it will
      do from now on. */
  class Source {
    var script: seq<Event>

    constructor (script: seq<Event>)
      ensures this.script == script
    {
      this.script := script;
    }
  }

  /** A measure that shrinks with every event consumed, including the
      consumption of part of a burst. */
  function Weight(s: seq<Event>): nat {
    if s == [] then 0
    else (match s[0] case Burst(d) => 1 + |d| case _ => 1) + Weight(s[1..])
  }

  /** Gives back to the driver the bytes of a burst that a read did not take. */
  function Unread(d: seq<Byte>, t: seq<Event>): seq<Event> {
    if d == [] then t else [Burst(d)] + t
  }

  lemma WeightUnread(d: seq<Byte>, t: seq<Event>)
    ensures Weight(Unread(d, t)) == (if d == [] then 0 else 1 + |d|) + Weight(t)
  {
    if d != [] {
      assert ([Burst(d)] + t)[1..] == t;
    }
  }

  /** The bytes the line delivers, in arrival order, up to its first fault.
      Silence contributes nothing. */
  function Delivered(s: seq<Event>): seq<Byte> {
    if s == [] then []
    else match s[0]
      case Burst(d) => d + Delivered(s[1..])
      case Late(b) => [b] + Delivered(s[1..])
      case Expire => Delivered(s[1..])
      case EagerFault(_) => []
      case LateFault(_) => []
  }

  lemma DeliveredUnread(d: seq<Byte>, t: seq<Event>)
    ensures Delivered(Unread(d, t)) == d + Delivered(t)
  {
    if d != [] {
      assert ([Burst(d)] + t)[1..] == t;
    }
  }

  /** Whether the script holds no fault at all. */
  predicate Faultless(s: seq<Event>) {
    s == [] || (!s[0].EagerFault? && !s[0].LateFault? && Faultless(s[1..]))
  }

  lemma FaultlessUnread(d: seq<Byte>, t: seq<Event>)
    ensures Faultless(Unread(d, t)) == Faultless(t)
  {
    if d != [] {
      assert ([Burst(d)] + t)[1..] == t;
    }
  }

  /** The error of the first fault on a line that has one. */
  function FirstFault(s: seq<Event>): SourceError
    requires !Faultless(s)
  {
    if s[0].EagerFault? || s[0].LateFault? then s[0].error else FirstFault(s[1..])
  }

  lemma FirstFaultUnread(d: seq<Byte>, t: seq<Event>)
    requires !Faultless(t)
    ensures !Faultless(Unread(d, t)) && FirstFault(Unread(d, t)) == FirstFault(t)
  {
    if d != [] {
      assert ([Burst(d)] + t)[1..] == t;
    }
  }

  /** The timer the reader arms: the first-byte length while nothing has
      been read, the between-bytes length afterwards. */
  function TimerFor(readSoFar: nat, firstByte: Duration, betweenBytes: Duration): Duration {
    if readSoFar == 0 then firstByte else betweenBytes
  }

  /** One turn after another of the reader's loop, from a window with `need`
      bytes still to fill, `got` already read and `armed` timers armed. */
  function ReadLoop(s: seq<Event>, need: nat, got: seq<Byte>, armed: seq<Armed>,
                    firstByte: Duration, betweenBytes: Duration): ReadOutcome
    decreases Weight(s)
  {
    if need == 0 then ReadOutcome(Ok(()), got, s, armed)
    else
      var timer := Armed(|got|, TimerFor(|got|, firstByte, betweenBytes));
      if s == [] then
        // Silence: nothing is ready, the armed timer expires.
        ReadOutcome(Err(Timeout(|got|)), got, [], armed + [timer])
      else match s[0]
        case Burst(d) =>
          var r := Min(|d|, need);
          WeightUnread(d[r..], s[1..]);
          ReadLoop(Unread(d[r..], s[1..]), need - r, got + d[..r], armed, firstByte, betweenBytes)
        case EagerFault(e) => ReadOutcome(Err(Other(|got|, e)), got, s[1..], armed)
        case Late(b) =>
          ReadLoop(s[1..], need - 1, got + [b], armed + [timer], firstByte, betweenBytes)
        case Expire => ReadOutcome(Err(Timeout(|got|)), got, s[1..], armed + [timer])
        case LateFault(e) => ReadOutcome(Err(Other(|got|, e)), got, s[1..], armed + [timer])
  }

  /** What one call of `read_exact_with_timeouts` with a window of `len`
      bytes does, given the source's script. */
  function ReadExact(s: seq<Event>, len: nat, firstByte: Duration, betweenBytes: Duration): (o: ReadOutcome)
    // `Ok` exactly when the whole window is filled; an error reports the
    // number of bytes read, which is then short of the window
    ensures |o.got| <= len && (o.result.Ok? <==> |o.got| == len)
    ensures o.result.Err? ==> o.result.error.bytesRead == |o.got| < len
  {
    ReadLoopBounds(s, len, [], [], firstByte, betweenBytes);
    ReadLoop(s, len, [], [], firstByte, betweenBytes)
  }

  /** The `read` into the front of the remaining window `a[w..hi]`: the
      bytes `d` land at `w`, nothing else in the array changes. */
  method CopyInto(a: array<Byte>, lo: nat, w: nat, d: seq<Byte>, hi: nat)
    requires lo <= w && w + |d| <= hi <= a.Length
    modifies a
    ensures a[lo..w + |d|] == old(a[lo..w]) + d
    ensures a[..lo] == old(a[..lo]) && a[hi..] == old(a[hi..])
  {
    forall k | 0 <= k < |d| {
      a[w + k] := d[k];
    }
  }

  /** `read_exact_with_timeouts(rx, &mut a[lo..hi], firstByte, betweenBytes)`:
      fills the window `a[lo..hi]` from the source, reading in bulk when data
      is ready and otherwise racing a one-byte read against a timer. */
  method ReadExactWithTimeouts(rx: Source, a: array<Byte>, lo: nat, hi: nat,
                               firstByte: Duration, betweenBytes: Duration)
    returns (r: Result<(), ReadError>, ghost armed: seq<Armed>)
    requires lo <= hi <= a.Length
    modifies rx, a
    ensures var o := ReadExact(old(rx.script), hi - lo, firstByte, betweenBytes);
      r == o.result && armed == o.armed && rx.script == o.rest &&
      lo + |o.got| <= hi && a[lo..lo + |o.got|] == o.got
    ensures a[..lo] == old(a[..lo]) && a[hi..] == old(a[hi..])
  {
    ghost var goal := ReadExact(rx.script, hi - lo, firstByte, betweenBytes);
    ghost var got: seq<Byte> := [];
    var bytesRead: nat := 0;
    armed := [];
    while bytesRead < hi - lo
      invariant bytesRead <= hi - lo && |got| == bytesRead
      invariant a[lo..lo + bytesRead] == got
      invariant a[..lo] == old(a[..lo]) && a[hi..] == old(a[hi..])
      invariant ReadLoop(rx.script, hi - lo - bytesRead, got, armed, firstByte, betweenBytes) == goal
      decreases Weight(rx.script)
    {
      var stop;
      stop, bytesRead, armed, got := ReadTurn(rx, a, lo, hi, bytesRead, armed, got, firstByte, betweenBytes);
      if stop.Some? {
        return Err(stop.value), armed;
      }
    }
    r := Ok(());
  }

  /** One turn of the loop in `read_exact_with_timeouts`, with `bytesRead`
      bytes of the window `a[lo..hi]` filled and `armed` the timers armed so
      far: either it reads and the loop goes on, or it ends the read with
      the error `stop`. */
  method ReadTurn(rx: Source, a: array<Byte>, lo: nat, hi: nat, bytesRead: nat, ghost armed: seq<Armed>,
                  ghost got: seq<Byte>, firstByte: Duration, betweenBytes: Duration)
    returns (stop: Option<ReadError>, bytesRead': nat, ghost armed': seq<Armed>, ghost got': seq<Byte>)
    requires lo + bytesRead < hi <= a.Length && |got| == bytesRead && a[lo..lo + bytesRead] == got
    modifies rx, a
    ensures a[..lo] == old(a[..lo]) && a[hi..] == old(a[hi..])
    ensures bytesRead <= bytesRead' <= hi - lo && |got'| == bytesRead' && a[lo..lo + bytesRead'] == got'
    ensures stop.None? ==> Weight(rx.script) < Weight(old(rx.script))
    ensures ReadLoop(old(rx.script), hi - lo - bytesRead, got, armed, firstByte, betweenBytes) ==
      if stop.None? then ReadLoop(rx.script, hi - lo - bytesRead', got', armed', firstByte, betweenBytes)
      else ReadOutcome(Err(stop.value), got', rx.script, armed')
  {
    var w := lo + bytesRead;
    ghost var timer := Armed(bytesRead, TimerFor(bytesRead, firstByte, betweenBytes));
    got' := got;
    if rx.script == [] {
      assert ReadLoop([], hi - w, got, armed, firstByte, betweenBytes)
          == ReadOutcome(Err(Timeout(bytesRead)), got, [], armed + [timer]);
      stop, bytesRead' := Some(Timeout(bytesRead)), bytesRead;
      armed' := armed + [timer];
      return;
    }
    match rx.script[0]
    case Burst(_) =>
      bytesRead', got' := TakeBurst(rx, a, lo, hi, bytesRead, armed, got, firstByte, betweenBytes);
      stop := None;
      armed' := armed;
    case Late(_) =>
      bytesRead', got' := TakeLate(rx, a, lo, hi, bytesRead, armed, got, firstByte, betweenBytes);
      stop := None;
      armed' := armed + [timer];
    case EagerFault(e) =>
      ghost var s := rx.script;
      rx.script := rx.script[1..];
      stop, bytesRead' := Some(Other(bytesRead, e)), bytesRead;
      armed' := armed;
      assert ReadLoop(s, hi - lo - bytesRead, got, armed, firstByte, betweenBytes)
          == ReadOutcome(Err(stop.value), got', rx.script, armed');
    case Expire =>
      ghost var s := rx.script;
      rx.script := rx.script[1..];
      stop, bytesRead' := Some(Timeout(bytesRead)), bytesRead;
      armed' := armed + [timer];
      assert ReadLoop(s, hi - lo - bytesRead, got, armed, firstByte, betweenBytes)
          == ReadOutcome(Err(stop.value), got', rx.script, armed');
    case LateFault(e) =>
      ghost var s := rx.script;
      rx.script := rx.script[1..];
      stop, bytesRead' := Some(Other(bytesRead, e)), bytesRead;
      armed' := armed + [timer];
      assert ReadLoop(s, hi - lo - bytesRead, got, armed, firstByte, betweenBytes)
          == ReadOutcome(Err(stop.value), got', rx.script, armed');
  }

  /** The bulk read of a turn whose source has data ready: it copies what
      fits in the window and gives the rest back to the source. */
  method TakeBurst(rx: Source, a: array<Byte>, lo: nat, hi: nat, bytesRead: nat, ghost armed: seq<Armed>,
                   ghost got: seq<Byte>, firstByte: Duration, betweenBytes: Duration)
    returns (bytesRead': nat, ghost got': seq<Byte>)
    requires lo + bytesRead < hi <= a.Length && |got| == bytesRead && a[lo..lo + bytesRead] == got
    requires rx.script != [] && rx.script[0].Burst?
    modifies rx, a
    ensures a[..lo] == old(a[..lo]) && a[hi..] == old(a[hi..])
    ensures bytesRead <= bytesRead' <= hi - lo && |got'| == bytesRead' && a[lo..lo + bytesRead'] == got'
    // it takes the burst's first min(|d|, room left) bytes and gives the rest back
    ensures var d := old(rx.script)[0].data; var k := Min(|d|, hi - lo - bytesRead);
      bytesRead' == bytesRead + k && got' == got + d[..k] && rx.script == Unread(d[k..], old(rx.script)[1..])
    ensures Weight(rx.script) < Weight(old(rx.script))
    ensures ReadLoop(old(rx.script), hi - lo - bytesRead, got, armed, firstByte, betweenBytes)
      == ReadLoop(rx.script, hi - lo - bytesRead', got', armed, firstByte, betweenBytes)
  {
    var w := lo + bytesRead;
    var d := rx.script[0].data;
    var chunk := d[..Min(|d|, hi - w)];
    BurstTurn(rx.script, hi - w, got, armed, firstByte, betweenBytes);
    CopyInto(a, lo, w, chunk, hi);
    rx.script := Unread(d[|chunk|..], rx.script[1..]);
    bytesRead', got' := bytesRead + |chunk|, got + chunk;
  }

  /** A turn whose source has nothing ready and whose one-byte read beats
      the timer it arms. */
  method TakeLate(rx: Source, a: array<Byte>, lo: nat, hi: nat, bytesRead: nat, ghost armed: seq<Armed>,
                  ghost got: seq<Byte>, firstByte: Duration, betweenBytes: Duration)
    returns (bytesRead': nat, ghost got': seq<Byte>)
    requires lo + bytesRead < hi <= a.Length && |got| == bytesRead && a[lo..lo + bytesRead] == got
    requires rx.script != [] && rx.script[0].Late?
    modifies rx, a
    ensures a[..lo] == old(a[..lo]) && a[hi..] == old(a[hi..])
    ensures bytesRead' == bytesRead + 1 <= hi - lo && |got'| == bytesRead' && a[lo..lo + bytesRead'] == got'
    ensures got' == got + [old(rx.script)[0].b] && rx.script == old(rx.script)[1..]
    ensures Weight(rx.script) < Weight(old(rx.script))
    ensures ReadLoop(old(rx.script), hi - lo - bytesRead, got, armed, firstByte, betweenBytes)
      == ReadLoop(rx.script, hi - lo - bytesRead', got',
                  armed + [Armed(bytesRead, TimerFor(bytesRead, firstByte, betweenBytes))], firstByte, betweenBytes)
  {
    var b := rx.script[0].b;
    LateTurn(rx.script, hi - lo - bytesRead, got, armed, firstByte, betweenBytes);
    CopyInto(a, lo, lo + bytesRead, [b], hi);
    rx.script := rx.script[1..];
    bytesRead', got' := bytesRead + 1, got + [b];
  }

  // ---------------------------------------------------------------------
  // Properties of the reader.

  /** One turn of the reader on a burst: it takes what fits and gives the
      rest back. */
  lemma BurstTurn(s: seq<Event>, need: nat, got: seq<Byte>, armed: seq<Armed>,
                  firstByte: Duration, betweenBytes: Duration)
    requires need > 0 && s != [] && s[0].Burst?
    ensures var d := s[0].data; var r := Min(|d|, need); var t := Unread(d[r..], s[1..]);
      Weight(t) < Weight(s) &&
      ReadLoop(s, need, got, armed, firstByte, betweenBytes)
        == ReadLoop(t, need - r, got + d[..r], armed, firstByte, betweenBytes)
  {
    var d := s[0].data;
    var r := Min(|d|, need);
    WeightUnread(d[r..], s[1..]);
  }

  /** What a burst delivers is what the reader takes from it followed by
      what it gives back. */
  lemma BurstSplit(s: seq<Event>, r: nat)
    requires s != [] && s[0].Burst? && r <= |s[0].data|
    ensures var d := s[0].data; Delivered(s) == d[..r] + Delivered(Unread(d[r..], s[1..]))
  {
    var d := s[0].data;
    DeliveredUnread(d[r..], s[1..]);
    assert d == d[..r] + d[r..];
  }

  /** One turn of the reader on a late byte: the timer was armed, the byte
      won the race. */
  lemma LateTurn(s: seq<Event>, need: nat, got: seq<Byte>, armed: seq<Armed>,
                 firstByte: Duration, betweenBytes: Duration)
    requires need > 0 && s != [] && s[0].Late?
    ensures ReadLoop(s, need, got, armed, firstByte, betweenBytes)
        == ReadLoop(s[1..], need - 1, got + [s[0].b],
                    armed + [Armed(|got|, TimerFor(|got|, firstByte, betweenBytes))], firstByte, betweenBytes)
    ensures Delivered(s) == [s[0].b] + Delivered(s[1..])
  {
  }

  /** What `ReadLoop` promises about its window, for an outcome `o` of a
      loop that started with `got` read and `need` bytes to go: it only
      adds to what it has read, never reads past its window, succeeds
      exactly when the window is full, and an error reports exactly the
      bytes read. */
  ghost predicate WithinWindow(o: ReadOutcome, got: seq<Byte>, need: nat) {
    got <= o.got && |o.got| <= |got| + need &&
    (o.result.Ok? <==> |o.got| == |got| + need) &&
    (o.result.Err? ==> o.result.error.bytesRead == |o.got|)
  }

  lemma {:induction false} ReadLoopBounds(s: seq<Event>, need: nat, got: seq<Byte>, armed: seq<Armed>,
                                          firstByte: Duration, betweenBytes: Duration)
    ensures WithinWindow(ReadLoop(s, need, got, armed, firstByte, betweenBytes), got, need)
    decreases Weight(s)
  {
    if need != 0 && s != [] {
      if s[0].Burst? {
        var d := s[0].data;
        var r := Min(|d|, need);
        var t := Unread(d[r..], s[1..]);
        BurstTurn(s, need, got, armed, firstByte, betweenBytes);
        ReadLoopBounds(t, need - r, got + d[..r], armed, firstByte, betweenBytes);
        WindowShift(ReadLoop(t, need - r, got + d[..r], armed, firstByte, betweenBytes), got, d[..r], need);
      } else if s[0].Late? {
        var armed' := armed + [Armed(|got|, TimerFor(|got|, firstByte, betweenBytes))];
        LateTurn(s, need, got, armed, firstByte, betweenBytes);
        ReadLoopBounds(s[1..], need - 1, got + [s[0].b], armed', firstByte, betweenBytes);
        WindowShift(ReadLoop(s[1..], need - 1, got + [s[0].b], armed', firstByte, betweenBytes), got, [s[0].b], need);
      }
    }
  }

  /** Bytes taken into `got` by one turn keep the promise. */
  lemma WindowShift(o: ReadOutcome, got: seq<Byte>, piece: seq<Byte>, need: nat)
    requires |piece| <= need && WithinWindow(o, got + piece, need - |piece|)
    ensures WithinWindow(o, got, need)
  {
    assert got <= got + piece;
  }

  /** What `ReadLoop` promises about the line's bytes, for an outcome `o`
      of a loop that started with `got` read on the script `s`: the bytes
      read are the line's next bytes and, unless the read ended in a source
      fault, the line still holds everything after them. */
  ghost predicate DeliversInOrder(o: ReadOutcome, got: seq<Byte>, s: seq<Event>) {
    if o.result.Err? && o.result.error.Other? then got + Delivered(s) == o.got
    else got + Delivered(s) == o.got + Delivered(o.rest)
  }

  /** No byte is invented, lost or reordered by the reader. */
  lemma {:induction false} ReadLoopDelivers(s: seq<Event>, need: nat, got: seq<Byte>, armed: seq<Armed>,
                                            firstByte: Duration, betweenBytes: Duration)
    ensures DeliversInOrder(ReadLoop(s, need, got, armed, firstByte, betweenBytes), got, s)
    decreases Weight(s), 1
  {
    if need != 0 && s != [] {
      if s[0].Burst? {
        BurstDelivers(s, need, got, armed, firstByte, betweenBytes);
      } else if s[0].Late? {
        LateDelivers(s, need, got, armed, firstByte, betweenBytes);
      } else {
        StopDelivers(s, need, got, armed, firstByte, betweenBytes);
      }
    }
  }

  lemma {:induction false} BurstDelivers(s: seq<Event>, need: nat, got: seq<Byte>, armed: seq<Armed>,
                                         firstByte: Duration, betweenBytes: Duration)
    requires need > 0 && s != [] && s[0].Burst?
    ensures DeliversInOrder(ReadLoop(s, need, got, armed, firstByte, betweenBytes), got, s)
    decreases Weight(s), 0
  {
    var d := s[0].data;
    var r := Min(|d|, need);
    var t := Unread(d[r..], s[1..]);
    BurstTurn(s, need, got, armed, firstByte, betweenBytes);
    BurstSplit(s, r);
    ReadLoopDelivers(t, need - r, got + d[..r], armed, firstByte, betweenBytes);
    DeliversShift(ReadLoop(t, need - r, got + d[..r], armed, firstByte, betweenBytes), got, d[..r], s, t);
  }

  lemma {:induction false} LateDelivers(s: seq<Event>, need: nat, got: seq<Byte>, armed: seq<Armed>,
                                        firstByte: Duration, betweenBytes: Duration)
    requires need > 0 && s != [] && s[0].Late?
    ensures DeliversInOrder(ReadLoop(s, need, got, armed, firstByte, betweenBytes), got, s)
    decreases Weight(s), 0
  {
    var b := s[0].b;
    LateTurn(s, need, got, armed, firstByte, betweenBytes);
    var armed' := armed + [Armed(|got|, TimerFor(|got|, firstByte, betweenBytes))];
    ReadLoopDelivers(s[1..], need - 1, got + [b], armed', firstByte, betweenBytes);
    DeliversShift(ReadLoop(s[1..], need - 1, got + [b], armed', firstByte, betweenBytes), got, [b], s, s[1..]);
  }

  /** Bytes moved from the line into `got` by one turn keep the promise. */
  lemma DeliversShift(o: ReadOutcome, got: seq<Byte>, piece: seq<Byte>, s: seq<Event>, t: seq<Event>)
    requires Delivered(s) == piece + Delivered(t)
    requires DeliversInOrder(o, got + piece, t)
    ensures DeliversInOrder(o, got, s)
  {
    assert got + Delivered(s) == (got + piece) + Delivered(t);
  }

  /** A turn that ends the read: a fault ends the line's delivery, an
      expired timer leaves it untouched. */
  lemma StopDelivers(s: seq<Event>, need: nat, got: seq<Byte>, armed: seq<Armed>,
                     firstByte: Duration, betweenBytes: Duration)
    requires need > 0 && s != [] && !s[0].Burst? && !s[0].Late?
    ensures DeliversInOrder(ReadLoop(s, need, got, armed, firstByte, betweenBytes), got, s)
  {
  }

  /** The bytes a read places in the window are the first bytes the line
      delivers, and an Ok read takes exactly as many as the window holds. */
  lemma ReadExactDelivers(s: seq<Event>, len: nat, firstByte: Duration, betweenBytes: Duration)
    ensures var o := ReadExact(s, len, firstByte, betweenBytes);
      o.got <= Delivered(s) &&
      (o.result.Ok? ==> |o.got| == len && Delivered(s) == o.got + Delivered(o.rest)) &&
      (o.result == Err(Timeout(|o.got|)) ==> |o.got| < len && Delivered(s) == o.got + Delivered(o.rest)) &&
      (o.result.Err? && o.result.error.Other? ==> |o.got| < len && Delivered(s) == o.got)
  {
    ReadLoopDelivers(s, len, [], [], firstByte, betweenBytes);
    ReadLoopBounds(s, len, [], [], firstByte, betweenBytes);
    assert [] + Delivered(s) == Delivered(s);
  }

  /** The timers armed by one read: each is the first-byte timer exactly
      when nothing had been read yet, and each wait (except possibly the
      last) ended with a byte, so the counts strictly increase. */
  predicate TimersWellChosen(armed: seq<Armed>, bytesRead: nat, firstByte: Duration, betweenBytes: Duration) {
    (forall i | 0 <= i < |armed| ::
       armed[i].readSoFar <= bytesRead &&
       armed[i].duration == TimerFor(armed[i].readSoFar, firstByte, betweenBytes)) &&
    (forall i, j | 0 <= i < j < |armed| :: armed[i].readSoFar < armed[j].readSoFar)
  }

  /** The timers armed so far all belong to earlier waits. */
  ghost predicate TimersBefore(armed: seq<Armed>, bytesRead: nat, firstByte: Duration, betweenBytes: Duration) {
    TimersWellChosen(armed, bytesRead, firstByte, betweenBytes) &&
    forall i | 0 <= i < |armed| :: armed[i].readSoFar < bytesRead
  }

  /** The timers an outcome records are well chosen for the bytes it read. */
  ghost predicate OutcomeTimers(o: ReadOutcome, firstByte: Duration, betweenBytes: Duration) {
    TimersWellChosen(o.armed, |o.got|, firstByte, betweenBytes)
  }

  lemma {:induction false} ReadLoopTimers(s: seq<Event>, need: nat, got: seq<Byte>, armed: seq<Armed>,
                                          firstByte: Duration, betweenBytes: Duration)
    requires TimersBefore(armed, |got|, firstByte, betweenBytes)
    ensures OutcomeTimers(ReadLoop(s, need, got, armed, firstByte, betweenBytes), firstByte, betweenBytes)
    decreases Weight(s), 1
  {
    if need == 0 || s == [] || !(s[0].Burst? || s[0].Late?) {
      StopTimers(s, need, got, armed, firstByte, betweenBytes);
    } else if s[0].Burst? {
      BurstTimers(s, need, got, armed, firstByte, betweenBytes);
    } else {
      LateTimers(s, need, got, armed, firstByte, betweenBytes);
    }
  }

  /** A bulk read arms no timer and only adds bytes, so the timers stay in
      the past. */
  lemma {:induction false} BurstTimers(s: seq<Event>, need: nat, got: seq<Byte>, armed: seq<Armed>,
                                       firstByte: Duration, betweenBytes: Duration)
    requires TimersBefore(armed, |got|, firstByte, betweenBytes)
    requires need > 0 && s != [] && s[0].Burst?
    ensures OutcomeTimers(ReadLoop(s, need, got, armed, firstByte, betweenBytes), firstByte, betweenBytes)
    decreases Weight(s), 0
  {
    var d := s[0].data;
    var r := Min(|d|, need);
    BurstTurn(s, need, got, armed, firstByte, betweenBytes);
    var o := ReadLoop(Unread(d[r..], s[1..]), need - r, got + d[..r], armed, firstByte, betweenBytes);
    assert OutcomeTimers(o, firstByte, betweenBytes) by {
      TimersLater(armed, |got|, |got + d[..r]|, firstByte, betweenBytes);
      ReadLoopTimers(Unread(d[r..], s[1..]), need - r, got + d[..r], armed, firstByte, betweenBytes);
    }
  }

  /** A late byte adds the timer of its wait, which is then in the past. */
  lemma {:induction false} LateTimers(s: seq<Event>, need: nat, got: seq<Byte>, armed: seq<Armed>,
                                      firstByte: Duration, betweenBytes: Duration)
    requires TimersBefore(armed, |got|, firstByte, betweenBytes)
    requires need > 0 && s != [] && s[0].Late?
    ensures OutcomeTimers(ReadLoop(s, need, got, armed, firstByte, betweenBytes), firstByte, betweenBytes)
    decreases Weight(s), 0
  {
    var timer := Armed(|got|, TimerFor(|got|, firstByte, betweenBytes));
    var o := ReadLoop(s[1..], need - 1, got + [s[0].b], armed + [timer], firstByte, betweenBytes);
    assert OutcomeTimers(o, firstByte, betweenBytes) by {
      TimersArm(armed, |got|, firstByte, betweenBytes);
      assert |got + [s[0].b]| == |got| + 1;
      ReadLoopTimers(s[1..], need - 1, got + [s[0].b], armed + [timer], firstByte, betweenBytes);
    }
    LateTurn(s, need, got, armed, firstByte, betweenBytes);
  }

  /** The turns that end the loop at once keep the timers well chosen. */
  lemma StopTimers(s: seq<Event>, need: nat, got: seq<Byte>, armed: seq<Armed>,
                   firstByte: Duration, betweenBytes: Duration)
    requires TimersBefore(armed, |got|, firstByte, betweenBytes)
    requires need == 0 || s == [] || !(s[0].Burst? || s[0].Late?)
    ensures OutcomeTimers(ReadLoop(s, need, got, armed, firstByte, betweenBytes), firstByte, betweenBytes)
  {
    var o := ReadLoop(s, need, got, armed, firstByte, betweenBytes);
    if need == 0 {
      assert o.armed == armed && o.got == got;
    } else {
      var timer := Armed(|got|, TimerFor(|got|, firstByte, betweenBytes));
      TimersArm(armed, |got|, firstByte, betweenBytes);
      assert o.got == got;
      assert o.armed == armed || o.armed == armed + [timer];
    }
  }

  /** Reading more bytes keeps every armed timer in the past. */
  lemma TimersLater(armed: seq<Armed>, n: nat, m: nat, firstByte: Duration, betweenBytes: Duration)
    requires n <= m && TimersBefore(armed, n, firstByte, betweenBytes)
    ensures TimersBefore(armed, m, firstByte, betweenBytes)
  {
  }

  /** Arming the timer for the current wait keeps the timers well chosen,
      and once the wait has yielded a byte it is in the past. */
  lemma TimersArm(armed: seq<Armed>, n: nat, firstByte: Duration, betweenBytes: Duration)
    requires TimersBefore(armed, n, firstByte, betweenBytes)
    ensures var armed' := armed + [Armed(n, TimerFor(n, firstByte, betweenBytes))];
      TimersWellChosen(armed', n, firstByte, betweenBytes) && TimersBefore(armed', n + 1, firstByte, betweenBytes)
  {
  }

  lemma ReadExactTimers(s: seq<Event>, len: nat, firstByte: Duration, betweenBytes: Duration)
    ensures var o := ReadExact(s, len, firstByte, betweenBytes);
      TimersWellChosen(o.armed, |o.got|, firstByte, betweenBytes)
  {
    ReadLoopTimers(s, len, [], [], firstByte, betweenBytes);
  }

  /** When every event is a burst of ready data and together they hold
      enough bytes, the window is filled without arming any timer. */
  lemma {:induction false} ReadyDataArmsNoTimer(s: seq<Event>, need: nat, got: seq<Byte>, armed: seq<Armed>,
                                                firstByte: Duration, betweenBytes: Duration)
    requires forall i | 0 <= i < |s| :: s[i].Burst?
    requires need <= |Delivered(s)|
    ensures var o := ReadLoop(s, need, got, armed, firstByte, betweenBytes);
      o.result.Ok? && o.armed == armed
    decreases Weight(s)
  {
    if need != 0 {
      assert s != [];
      var d := s[0].data;
      var r := Min(|d|, need);
      WeightUnread(d[r..], s[1..]);
      DeliveredUnread(d[r..], s[1..]);
      var t := Unread(d[r..], s[1..]);
      assert forall i | 0 <= i < |t| :: t[i].Burst? by {
        if d[r..] != [] {
          forall i | 0 <= i < |t| ensures t[i].Burst? {
            if i > 0 { assert t[i] == s[1..][i - 1]; }
          }
        }
      }
      ReadyDataArmsNoTimer(t, need - r, got + d[..r], armed, firstByte, betweenBytes);
    }
  }

  /** A line on which every turn brings data: a burst of ready bytes, or a
      byte that beats the timer. No timer ever expires and nothing fails. */
  predicate Prompt(s: seq<Event>) {
    forall i | 0 <= i < |s| :: s[i].Burst? || s[i].Late?
  }

  lemma PromptRest(s: seq<Event>, d: seq<Byte>)
    requires s != [] && Prompt(s)
    ensures Prompt(s[1..]) && Prompt(Unread(d, s[1..]))
  {
    var t := Unread(d, s[1..]);
    assert Prompt(s[1..]) by {
      forall i | 0 <= i < |s[1..]| ensures s[1..][i].Burst? || s[1..][i].Late? {
        assert s[1..][i] == s[i + 1];
      }
    }
    if d != [] {
      forall i | 0 <= i < |t| ensures t[i].Burst? || t[i].Late? {
        if i > 0 { assert t[i] == s[1..][i - 1]; }
      }
    }
  }

  /** The reader on a prompt line that holds enough bytes succeeds: the
      window receives the line's next bytes, and the line keeps the rest and
      stays prompt. */
  lemma {:induction false} PromptLineFills(s: seq<Event>, need: nat, got: seq<Byte>, armed: seq<Armed>,
                                           firstByte: Duration, betweenBytes: Duration)
    requires Prompt(s) && need <= |Delivered(s)|
    ensures var o := ReadLoop(s, need, got, armed, firstByte, betweenBytes);
      o.result.Ok? && o.got == got + Delivered(s)[..need] &&
      Delivered(o.rest) == Delivered(s)[need..] && Prompt(o.rest)
    decreases Weight(s)
  {
    var line := Delivered(s);
    if need != 0 {
      assert s != [];
      if s[0].Burst? {
        var d := s[0].data;
        var r := Min(|d|, need);
        var t := Unread(d[r..], s[1..]);
        BurstTurn(s, need, got, armed, firstByte, betweenBytes);
        BurstSplit(s, r);
        PromptRest(s, d[r..]);
        PromptLineFills(t, need - r, got + d[..r], armed, firstByte, betweenBytes);
        assert line[..need] == d[..r] + Delivered(t)[..need - r];
        assert line[need..] == Delivered(t)[need - r..];
      } else {
        var b := s[0].b;
        var timer := Armed(|got|, TimerFor(|got|, firstByte, betweenBytes));
        LateTurn(s, need, got, armed, firstByte, betweenBytes);
        PromptRest(s, []);
        PromptLineFills(s[1..], need - 1, got + [b], armed + [timer], firstByte, betweenBytes);
        assert line[..need] == [b] + Delivered(s[1..])[..need - 1];
        assert line[need..] == Delivered(s[1..])[need - 1..];
      }
    } else {
      assert line[..0] == [] && line[0..] == line;
    }
  }

  /** Nothing arrives at all: the read fails as Timeout with zero bytes,
      after arming only the first-byte timer. */
  lemma FirstByteTimeout(s: seq<Event>, len: nat, firstByte: Duration, betweenBytes: Duration)
    requires len > 0 && (s == [] || s[0] == Expire)
    ensures var o := ReadExact(s, len, firstByte, betweenBytes);
      o.result == Err(Timeout(0)) && o.armed == [Armed(0, firstByte)]
  {
  }

  /** One byte arrives, then the line goes quiet: the read fails as Timeout
      with exactly one byte, the second wait using the between-bytes timer. */
  lemma BetweenBytesTimeout(b: Byte, s: seq<Event>, len: nat, firstByte: Duration, betweenBytes: Duration)
    requires len >= 2
    ensures var o := ReadExact([Late(b), Expire] + s, len, firstByte, betweenBytes);
      o.result == Err(Timeout(1)) && o.got == [b] &&
      o.armed == [Armed(0, firstByte), Armed(1, betweenBytes)]
  {
    assert ([Late(b), Expire] + s)[1..] == [Expire] + s;
    LateTurn([Late(b), Expire] + s, len, [], [], firstByte, betweenBytes);
    assert [] + [b] == [b];
  }

  /** How a line ends once it has delivered all it will: it goes silent
      (`None`), or its next read fails with `e` (`Some(e)`). */
  function LineEnd(fault: Option<SourceError>): seq<Event> {
    match fault
    case None => []
    case Some(e) => [EagerFault(e)]
  }

  /** A line that holds fewer bytes than the window still needs and then
      ends gives the reader all of them, and the read fails: `Timeout` when
      the line goes silent, `Other` with the line's error when it faults;
      either way the error counts every byte read and the line is used up. */
  lemma ShortLine(d: seq<Byte>, fault: Option<SourceError>, need: nat, got: seq<Byte>, armed: seq<Armed>,
                  firstByte: Duration, betweenBytes: Duration)
    requires |d| < need
    ensures var o := ReadLoop(Unread(d, LineEnd(fault)), need, got, armed, firstByte, betweenBytes);
      o.got == got + d && o.rest == [] &&
      o.result == Err(if fault.None? then Timeout(|got| + |d|) else Other(|got| + |d|, fault.value))
  {
    var t := LineEnd(fault);
    if d != [] {
      assert ([Burst(d)] + t)[1..] == t;
      assert d[..|d|] == d && d[|d|..] == [];
    } else {
      assert got + d == got;
    }
  }

  /** A burst that holds at least the window's worth of bytes fills the
      window from its front and leaves its remainder with the driver. */
  lemma BurstFills(d: seq<Byte>, t: seq<Event>, need: nat, got: seq<Byte>, armed: seq<Armed>,
                   firstByte: Duration, betweenBytes: Duration)
    requires 0 < need <= |d|
    ensures ReadLoop([Burst(d)] + t, need, got, armed, firstByte, betweenBytes)
         == ReadOutcome(Ok(()), got + d[..need], Unread(d[need..], t), armed)
  {
    assert ([Burst(d)] + t)[1..] == t;
  }
}
