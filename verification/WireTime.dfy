/** Time on the wire (schema/schema.go, temporal/temporal.go): instants with nanosecond
    resolution against int64 Unix milliseconds and microseconds.

    The Go conversions divide with truncation toward zero and wrap at 64 bits; both are
    written out here. */
module WireTime {

  const TWO_63: int := 0x8000_0000_0000_0000
  const TWO_64: int := 0x1_0000_0000_0000_0000
  const NANOS_PER_SECOND: int := 1_000_000_000

  predicate IsInt64(x: int) {
    -TWO_63 <= x < TWO_63
  }

  /** int64 arithmetic: the value that fits, modulo 2^64. */
  function Wrap(x: int): (r: int)
    ensures IsInt64(r)
  {
    (x + TWO_63) % TWO_64 - TWO_63
  }

  /** Go's / and %, which truncate toward zero. */
  function Quo(a: int, b: int): int
    requires b > 0
  {
    if a >= 0 then a / b else -(-a / b)
  }

  function Rem(a: int, b: int): int
    requires b > 0
  {
    a - Quo(a, b) * b
  }

  /** time.Time: whole seconds since the Unix epoch and nanoseconds within the second. */
  datatype Instant = Instant(sec: int, nsec: int)

  predicate Proper(t: Instant) {
    IsInt64(t.sec) && 0 <= t.nsec < NANOS_PER_SECOND
  }

  /** The instant as a number of nanoseconds, for stating what conversions mean. */
  function Nanos(t: Instant): int {
    t.sec * NANOS_PER_SECOND + t.nsec
  }

  /** time.Unix, whose nanoseconds may be negative. */
  function Unix(sec: int, nsec: int): Instant {
    if 0 <= nsec < NANOS_PER_SECOND then Instant(sec, nsec)
    else
      var n := Quo(nsec, NANOS_PER_SECOND);
      var rest := nsec - n * NANOS_PER_SECOND;
      if rest < 0 then Instant(sec + n - 1, rest + NANOS_PER_SECOND) else Instant(sec + n, rest)
  }

  /** Ticks of the wire: milliseconds for Timestamp, microseconds for Epoch. */
  datatype Tick = Milli | Micro {
    /** Ticks in x seconds. */
    function PerSeconds(x: int): int {
      match this
      case Milli => x * 1_000
      case Micro => x * 1_000_000
    }

    /** Nanoseconds in x ticks. */
    function Nanos(x: int): int {
      match this
      case Milli => x * 1_000_000
      case Micro => x * 1_000
    }

    /** Whole ticks in x nanoseconds. */
    function Whole(x: int): int {
      match this
      case Milli => x / 1_000_000
      case Micro => x / 1_000
    }
  }

  /** time.UnixMilli and time.UnixMicro, as functions. */
  function FromTicks(tick: Tick, x: int): Instant {
    match tick
    case Milli => Unix(Quo(x, 1_000), Rem(x, 1_000) * 1_000_000)
    case Micro => Unix(Quo(x, 1_000_000), Rem(x, 1_000_000) * 1_000)
  }

  /** t.UnixMilli() and t.UnixMicro(), as methods: int64 arithmetic throughout. */
  function ToTicks(tick: Tick, t: Instant): int {
    Wrap(Wrap(tick.PerSeconds(t.sec)) + tick.Whole(t.nsec))
  }

  /** The whole ticks from the epoch to t, before any wrap-around. */
  function Count(tick: Tick, t: Instant): int {
    tick.PerSeconds(t.sec) + tick.Whole(t.nsec)
  }

  /** The tick count of t fits 64 bits. */
  predicate InRange(tick: Tick, t: Instant) {
    Proper(t) && IsInt64(Count(tick, t))
  }

  /** Wrapping twice is wrapping once. */
  lemma WrapWraps(a: int, b: int)
    ensures Wrap(Wrap(a) + b) == Wrap(a + b)
  {
    var k := (a + TWO_63) / TWO_64;
    assert Wrap(a) == a - k * TWO_64;
    var x := a + b + TWO_63;
    assert x - k * TWO_64 == (x / TWO_64 - k) * TWO_64 + x % TWO_64;
  }

  /** Reading a wire time gives the exact instant, negative times included. */
  lemma FromTicksIsExact(tick: Tick, x: int)
    requires IsInt64(x)
    ensures Proper(FromTicks(tick, x))
    ensures Nanos(FromTicks(tick, x)) == tick.Nanos(x)
  {
  }

  lemma ToTicksWrapsCount(tick: Tick, t: Instant)
    ensures ToTicks(tick, t) == Wrap(Count(tick, t))
  {
    WrapWraps(tick.PerSeconds(t.sec), tick.Whole(t.nsec));
  }

  lemma WrapKeepsInt64(x: int)
    ensures Wrap(x) == x <==> IsInt64(x)
  {
  }

  lemma FloorCount(tick: Tick, t: Instant)
    requires Proper(t)
    ensures tick.Nanos(Count(tick, t)) <= Nanos(t) < tick.Nanos(Count(tick, t) + 1)
  {
  }

  lemma TickIsUnique(tick: Tick, nanos: int, a: int, b: int)
    requires tick.Nanos(a) <= nanos < tick.Nanos(a + 1)
    ensures tick.Nanos(b) <= nanos < tick.Nanos(b + 1) <==> a == b
  {
  }

  /** Writing an instant floors it to the tick, negatives included, exactly as long as
      the count fits 64 bits. */
  lemma ToTicksIsFloor(tick: Tick, t: Instant)
    requires Proper(t)
    ensures tick.Nanos(ToTicks(tick, t)) <= Nanos(t) < tick.Nanos(ToTicks(tick, t) + 1) <==> InRange(tick, t)
  {
    ToTicksWrapsCount(tick, t);
    WrapKeepsInt64(Count(tick, t));
    FloorCount(tick, t);
    TickIsUnique(tick, Nanos(t), Count(tick, t), ToTicks(tick, t));
  }

  lemma CountOfTicks(tick: Tick, x: int)
    requires IsInt64(x)
    ensures Count(tick, FromTicks(tick, x)) == x
  {
    var t := FromTicks(tick, x);
    FromTicksIsExact(tick, x);
    FloorCount(tick, t);
    TickIsUnique(tick, Nanos(t), Count(tick, t), x);
  }

  /** toProto after fromProto is the identity on every int64 wire time. */
  lemma WireRoundTrip(tick: Tick, x: int)
    requires IsInt64(x)
    ensures ToTicks(tick, FromTicks(tick, x)) == x
  {
    CountOfTicks(tick, x);
    ToTicksWrapsCount(tick, FromTicks(tick, x));
    WrapKeepsInt64(x);
  }

  lemma TickBelow(tick: Tick, nanos: int, x: int, x0: int)
    requires tick.Nanos(x) <= nanos < tick.Nanos(x0 + 1)
    ensures tick.Nanos(x) <= tick.Nanos(x0)
  {
  }

  /** u is a wire instant not after t, and none of the later ones is. */
  ghost predicate LatestNotAfter(tick: Tick, u: Instant, t: Instant) {
    && Nanos(u) <= Nanos(t)
    && forall x :: IsInt64(x) && Nanos(FromTicks(tick, x)) <= Nanos(t) ==> Nanos(FromTicks(tick, x)) <= Nanos(u)
  }

  /** fromProto after toProto: the latest wire instant not after t. */
  lemma InstantRoundTrip(tick: Tick, t: Instant)
    requires InRange(tick, t)
    ensures LatestNotAfter(tick, FromTicks(tick, ToTicks(tick, t)), t)
  {
    var x0 := ToTicks(tick, t);
    ToTicksIsFloor(tick, t);
    FromTicksIsExact(tick, x0);
    forall x | IsInt64(x) && Nanos(FromTicks(tick, x)) <= Nanos(t)
      ensures Nanos(FromTicks(tick, x)) <= Nanos(FromTicks(tick, x0))
    {
      FromTicksIsExact(tick, x);
      TickBelow(tick, Nanos(t), x, x0);
    }
  }

  /** A second trip changes nothing, for every instant. */
  lemma SecondTripIsIdle(tick: Tick, t: Instant)
    ensures var u := FromTicks(tick, ToTicks(tick, t));
      FromTicks(tick, ToTicks(tick, u)) == u
  {
    WireRoundTrip(tick, ToTicks(tick, t));
  }

  // --------------------------------------------------------------- whole events

  /** pb.RecordedEvent and streams.RecordedEvent; `rest` stands for the ten fields that
      both conversions copy. */
  datatype WireEvent<T> = WireEvent(rest: T, timestamp: int, epochUs: int)
  datatype RecordedEvent<T> = RecordedEvent(rest: T, timestamp: Instant, epoch: Instant)

  function FromProto<T>(p: WireEvent<T>): RecordedEvent<T> {
    RecordedEvent(p.rest, FromTicks(Milli, p.timestamp), FromTicks(Micro, p.epochUs))
  }

  function ToProto<T>(e: RecordedEvent<T>): WireEvent<T> {
    WireEvent(e.rest, ToTicks(Milli, e.timestamp), ToTicks(Micro, e.epoch))
  }

  /** The loop with which Upcast builds its request. */
  method ToProtos<T>(events: seq<RecordedEvent<T>>) returns (out: seq<WireEvent<T>>)
    ensures |out| == |events| && forall i :: 0 <= i < |events| ==> out[i] == ToProto(events[i])
  {
    out := [];
    for i := 0 to |events|
      invariant |out| == i && forall k :: 0 <= k < i ==> out[k] == ToProto(events[k])
    {
      out := out + [ToProto(events[i])];
    }
  }

  /** Upcast sends back what was read, bit for bit, for every event the server can
      send; an event with finer times is sent floored, and reads back as that floor. */
  lemma ProtoRoundTrip<T>(p: WireEvent<T>, e: RecordedEvent<T>)
    requires IsInt64(p.timestamp) && IsInt64(p.epochUs)
    requires InRange(Milli, e.timestamp) && InRange(Micro, e.epoch)
    ensures ToProto(FromProto(p)) == p
    ensures var back := FromProto(ToProto(e));
      && back.rest == e.rest
      && LatestNotAfter(Milli, back.timestamp, e.timestamp)
      && LatestNotAfter(Micro, back.epoch, e.epoch)
  {
    WireRoundTrip(Milli, p.timestamp);
    WireRoundTrip(Micro, p.epochUs);
    InstantRoundTrip(Milli, e.timestamp);
    InstantRoundTrip(Micro, e.epoch);
  }

  // ----------------------------------------------------------------- time windows

  /** An event's time as the store holds it, in milliseconds, and as an instant. */
  function EventNanos(ms: int): int {
    Tick.Milli.Nanos(ms)
  }

  /** Until sends the floored cutoff; the server returns events at or before it. */
  predicate UntilSelects(cutoff: Instant, ms: int) {
    ms <= ToTicks(Milli, cutoff)
  }

  /** Range sends both ends floored; the server returns events between them. */
  predicate RangeSelects(from: Instant, to: Instant, ms: int) {
    ToTicks(Milli, from) <= ms <= ToTicks(Milli, to)
  }

  /** Until selects exactly the events at or before the cutoff instant. */
  lemma UntilIsExact(cutoff: Instant, ms: int)
    requires InRange(Milli, cutoff)
    ensures UntilSelects(cutoff, ms) <==> EventNanos(ms) <= Nanos(cutoff)
  {
    ToTicksIsFloor(Milli, cutoff);
  }

  /** For cutoffs beyond the 64-bit range too: Until is exact on every stored time if and
      only if the count fits, or is too large and happens to wrap to the largest one. */
  lemma UntilExactIff(cutoff: Instant)
    requires Proper(cutoff)
    ensures (forall ms: int :: IsInt64(ms) ==> (UntilSelects(cutoff, ms) <==> EventNanos(ms) <= Nanos(cutoff)))
       <==> InRange(Milli, cutoff) || (Count(Milli, cutoff) > 0 && ToTicks(Milli, cutoff) == TWO_63 - 1)
  {
    var count, sent := Count(Milli, cutoff), ToTicks(Milli, cutoff);
    forall ms: int
      ensures EventNanos(ms) <= Nanos(cutoff) <==> ms <= count
    {
    }
    assert IsInt64(sent) && IsInt64(TWO_63 - 1);
    if InRange(Milli, cutoff) {
      forall ms: int | IsInt64(ms)
        ensures UntilSelects(cutoff, ms) <==> EventNanos(ms) <= Nanos(cutoff)
      {
        UntilIsExact(cutoff, ms);
      }
    } else if count > 0 {
      assert UntilSelects(cutoff, TWO_63 - 1) <==> sent == TWO_63 - 1;
    } else {
      assert UntilSelects(cutoff, sent) && sent > count;
    }
  }

  /** A cutoff past the range that selects nothing of what it should. */
  lemma UntilWitness()
    ensures var cutoff := Instant(TWO_63 / 1_000 + 1, 0);
      Proper(cutoff) && EventNanos(0) <= Nanos(cutoff) && !UntilSelects(cutoff, 0)
  {
  }

  /** Range selects the events in [from, to], and besides only those of the millisecond
      that from falls into, which are before from when from is not a whole one. */
  lemma RangeIsExactButOneMilli(from: Instant, to: Instant, ms: int)
    requires InRange(Milli, from) && InRange(Milli, to)
    ensures var inside := Nanos(from) <= EventNanos(ms) <= Nanos(to);
      && (inside ==> RangeSelects(from, to, ms))
      && (RangeSelects(from, to, ms) && !inside <==>
            ms == ToTicks(Milli, from) <= ToTicks(Milli, to) && EventNanos(ms) < Nanos(from))
  {
    ToTicksIsFloor(Milli, from);
    ToTicksIsFloor(Milli, to);
  }

  /** The documented inclusive interval is what Range selects, for every stored event,
      if and only if from is a whole millisecond or the interval sent is empty. */
  lemma RangeExactIffAligned(from: Instant, to: Instant)
    requires InRange(Milli, from) && InRange(Milli, to)
    ensures (forall ms: int :: RangeSelects(from, to, ms) <==> Nanos(from) <= EventNanos(ms) <= Nanos(to))
       <==> from.nsec % 1_000_000 == 0 || ToTicks(Milli, from) > ToTicks(Milli, to)
  {
    var first := ToTicks(Milli, from);
    ToTicksIsFloor(Milli, from);
    assert EventNanos(first) == Nanos(from) <==> from.nsec % 1_000_000 == 0;
    forall ms: int
      ensures RangeSelects(from, to, ms) && !(Nanos(from) <= EventNanos(ms) <= Nanos(to)) <==>
        ms == first <= ToTicks(Milli, to) && EventNanos(ms) < Nanos(from)
      ensures Nanos(from) <= EventNanos(ms) <= Nanos(to) ==> RangeSelects(from, to, ms)
    {
      RangeIsExactButOneMilli(from, to, ms);
    }
    assert RangeSelects(from, to, first) || first > ToTicks(Milli, to);
  }

  /** An event one nanosecond before from is selected. */
  lemma RangeWitness()
    ensures var from, to := Instant(0, 1), Instant(1, 0);
      && InRange(Milli, from) && InRange(Milli, to)
      && RangeSelects(from, to, 0) && EventNanos(0) < Nanos(from)
  {
    ToTicksIsFloor(Milli, Instant(0, 1));
    ToTicksIsFloor(Milli, Instant(1, 0));
  }
}
