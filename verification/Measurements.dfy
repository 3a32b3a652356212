/** Wrapping timestamps and saturating durations, in units of 2^-32 seconds. */
module TimeTypes {
  const ERAS := 0x1_0000_0000_0000_0000
  const HALF := 0x8000_0000_0000_0000

  type Timestamp = x: int | 0 <= x < 0x1_0000_0000_0000_0000
  type Duration = x: int | -0x8000_0000_0000_0000 <= x < 0x8000_0000_0000_0000

  /** What a clock that has counted to `t` shows. */
  function Shown(t: int): Timestamp {
    t % ERAS
  }

  /** Reading 64 bits as a signed number. */
  function Signed(x: Timestamp): Duration {
    if x < HALF then x else x - ERAS
  }

  /** The difference of two timestamps: subtract modulo 2^64 and read the result as signed. */
  function Since(a: Timestamp, b: Timestamp): Duration {
    Signed((a - b) % ERAS)
  }

  function Saturate(x: int): Duration {
    if x < -HALF then -HALF else if x >= HALF then HALF - 1 else x
  }

  function Plus(a: Duration, b: Duration): Duration {
    Saturate(a + b)
  }

  function Minus(a: Duration, b: Duration): Duration {
    Saturate(a - b)
  }

  /** Division by two that rounds toward zero. */
  function TowardZero(x: int): int {
    if x >= 0 then x / 2 else -((-x) / 2)
  }

  function Halve(a: Duration): Duration {
    TowardZero(a)
  }

  /** The number of whole eras by which a difference of `x` is misread. */
  function Eras(x: int): int {
    (x + HALF) / ERAS
  }

  lemma ModShift(x: int, k: int)
    ensures (x + k * ERAS) % ERAS == x % ERAS
  {
    var q, r := x / ERAS, x % ERAS;
    assert x + k * ERAS == (q + k) * ERAS + r;
    RemainderIs(x + k * ERAS, q + k, r);
  }

  lemma RemainderIs(x: int, q: int, r: int)
    requires x == q * ERAS + r && 0 <= r < ERAS
    ensures x % ERAS == r && x / ERAS == q
  {
    var d := q - x / ERAS;
    assert d * ERAS == x % ERAS - r;
  }

  /** The difference of two clock readings is the true difference less the eras it is misread by. */
  lemma SinceShown(a: int, b: int)
    ensures Since(Shown(a), Shown(b)) == a - b - ERAS * Eras(a - b)
  {
    var x := a - b;
    var k := b / ERAS - a / ERAS;
    assert Shown(a) - Shown(b) == x + k * ERAS;
    ModShift(x, k);
    SignedRemainder(x);
  }

  lemma SignedRemainder(x: int)
    ensures Signed(x % ERAS) == x - ERAS * Eras(x)
  {
    var q, r := x / ERAS, x % ERAS;
    if r < HALF {
      RemainderIs(x + HALF, q, r + HALF);
    } else {
      RemainderIs(x + HALF, q + 1, r - HALF);
    }
  }

  /** It is the true difference exactly when that is less than half an era either way. */
  lemma SinceExact(a: int, b: int)
    ensures Since(Shown(a), Shown(b)) == a - b <==> -HALF <= a - b < HALF
  {
    SinceShown(a, b);
    ErasZero(a - b);
  }

  lemma ErasZero(x: int)
    ensures Eras(x) == 0 <==> -HALF <= x < HALF
  {
  }
}

/**
 The two-way controller: it pairs an outgoing measurement with the incoming one that answers it and passes
 the delay and the offset on.
 */
module Measurements {
  import opened Bytes
  import opened TimeTypes

  type ClockId = nat

  const SYSTEM: ClockId := 0

  /** What the packet says of itself and is passed on untouched. */
  datatype Header = Header(rootDelay: Duration, rootDispersion: Duration, leap: nat, precision: int)

  datatype Measurement = Measurement(
    senderId: ClockId, receiverId: ClockId, senderTs: Timestamp, receiverTs: Timestamp, header: Header)

  datatype TwoWay = TwoWay(delay: Duration, offset: Duration, localtime: Timestamp, header: Header)

  function Combine(sent: Measurement, received: Measurement): TwoWay {
    TwoWay(
      Minus(Since(received.receiverTs, sent.senderTs), Since(received.senderTs, sent.receiverTs)),
      Halve(Plus(Since(sent.receiverTs, sent.senderTs), Since(received.senderTs, received.receiverTs))),
      received.receiverTs,
      received.header)
  }

  predicate Outgoing(m: Measurement) {
    m.senderId == SYSTEM
  }

  function Step(last: Option<Measurement>, m: Measurement): (Option<Measurement>, Option<TwoWay>) {
    if Outgoing(m) then (Some(m), None)
    else (None, if last.Some? then Some(Combine(last.value, m)) else None)
  }

  class TwoWayController {
    var lastOutgoing: Option<Measurement>

    constructor ()
      ensures lastOutgoing == None
    {
      lastOutgoing := None;
    }

    /** The result is what the inner controller is given, if anything. */
    method HandleMeasurement(m: Measurement) returns (r: Option<TwoWay>)
      modifies this
      ensures (lastOutgoing, r) == Step(old(lastOutgoing), m)
    {
      if m.senderId == SYSTEM {
        lastOutgoing := Some(m);
        return None;
      }
      var last := lastOutgoing;
      lastOutgoing := None;
      if last == None {
        return None;
      }
      var sent := last.value;
      var delay := Minus(Since(m.receiverTs, sent.senderTs), Since(m.senderTs, sent.receiverTs));
      var offset := Halve(Plus(Since(sent.receiverTs, sent.senderTs), Since(m.senderTs, m.receiverTs)));
      return Some(TwoWay(delay, offset, m.receiverTs, m.header));
    }
  }

  /* ---- Runs ---- */

  datatype Trace = Trace(last: Option<Measurement>, results: seq<TwoWay>)

  function Run(ms: seq<Measurement>): Trace {
    if ms == [] then Trace(None, [])
    else
      var t := Run(ms[..|ms| - 1]);
      var (last, r) := Step(t.last, ms[|ms| - 1]);
      Trace(last, if r.Some? then t.results + [r.value] else t.results)
  }

  /** An incoming measurement counts exactly when the one just before it was outgoing. */
  predicate Answers(ms: seq<Measurement>, i: int) {
    0 < i < |ms| && !Outgoing(ms[i]) && Outgoing(ms[i - 1])
  }

  /** The results of a run, said without its state. */
  function Paired(ms: seq<Measurement>): seq<TwoWay> {
    if ms == [] then []
    else
      Paired(ms[..|ms| - 1])
      + if Answers(ms, |ms| - 1) then [Combine(ms[|ms| - 2], ms[|ms| - 1])] else []
  }

  lemma {:induction false} RunPairs(ms: seq<Measurement>)
    ensures Run(ms).results == Paired(ms)
    ensures Run(ms).last == if ms != [] && Outgoing(ms[|ms| - 1]) then Some(ms[|ms| - 1]) else None
  {
    if ms != [] {
      RunPairs(ms[..|ms| - 1]);
    }
  }

  /* ---- The measurements of a packet ---- */

  datatype Exchange = Exchange(send: Timestamp, receive: Timestamp, transmit: Timestamp, arrive: Timestamp, header: Header)

  function Pair(x: Exchange, id: ClockId): seq<Measurement> {
    [Measurement(SYSTEM, id, x.send, x.receive, x.header), Measurement(id, SYSTEM, x.transmit, x.arrive, x.header)]
  }

  function Pairs(xs: seq<Exchange>, id: ClockId): seq<Measurement> {
    if xs == [] then [] else Pairs(xs[..|xs| - 1], id) + Pair(xs[|xs| - 1], id)
  }

  function Result(x: Exchange, id: ClockId): TwoWay {
    Combine(Pair(x, id)[0], Pair(x, id)[1])
  }

  /** Every accepted packet gives one result, from its own four timestamps. */
  lemma {:induction false} OneResultEach(xs: seq<Exchange>, id: ClockId)
    requires id != SYSTEM
    ensures Run(Pairs(xs, id)).results == seq(|xs|, i requires 0 <= i < |xs| => Result(xs[i], id))
  {
    if xs != [] {
      var init, x := xs[..|xs| - 1], xs[|xs| - 1];
      OneResultEach(init, id);
      var ms, p := Pairs(init, id), Pair(x, id);
      assert (ms + p)[..|ms + p| - 1] == ms + [p[0]] && (ms + [p[0]])[..|ms|] == ms;
      assert Run(ms + [p[0]]) == Trace(Some(p[0]), Run(ms).results);
      assert Run(ms + p) == Trace(None, Run(ms).results + [Combine(p[0], p[1])]);
    }
  }

  /* ---- What the numbers mean ---- */

  /**
   A poll leaves at local time `t`, takes `d1` to the server, waits there for `w` and takes `d2` back.
   The server's clock is ahead of the local one by `theta`.
   */
  function Observed(t: int, theta: int, d1: nat, w: nat, d2: nat, header: Header): Exchange {
    Exchange(Shown(t), Shown(t + d1 + theta), Shown(t + d1 + w + theta), Shown(t + d1 + w + d2), header)
  }

  /** The computed delay is the true one exactly when no difference is misread by more eras than another. */
  lemma DelayExactIff(t: int, theta: int, d1: nat, w: nat, d2: nat, header: Header, id: ClockId)
    ensures Result(Observed(t, theta, d1, w, d2, header), id).delay == d1 + d2
       <==> d1 + d2 < HALF && Eras(d1 + w + d2) == Eras(w)
  {
    hide Since;
    SinceShown(t + d1 + w + d2, t);
    SinceShown(t + d1 + w + theta, t + d1 + theta);
    DelayArithmetic(d1 + d2, w, Eras(d1 + w + d2), Eras(w));
    ErasMonotone(w, d1 + w + d2);
  }

  lemma ErasMonotone(x: int, y: int)
    requires x <= y
    ensures Eras(x) <= Eras(y)
  {
  }

  lemma DelayArithmetic(d: nat, w: nat, e: int, f: int)
    ensures f <= e ==> (Saturate(d + w - ERAS * e - (w - ERAS * f)) == d <==> d < HALF && e == f)
  {
  }

  /** Enough for that: the whole exchange took less than half an era. */
  lemma DelayOfExchange(t: int, theta: int, d1: nat, w: nat, d2: nat, header: Header, id: ClockId)
    requires d1 + w + d2 < HALF
    ensures Result(Observed(t, theta, d1, w, d2, header), id).delay == d1 + d2
  {
    DelayExactIff(t, theta, d1, w, d2, header, id);
  }

  /**
   The computed offset is the mean of the two apparent ones exactly when the eras they are misread by cancel
   and their sum does not saturate (the least sum but one rounds to the same mean as the least).
   */
  lemma OffsetExactIff(t: int, theta: int, d1: nat, w: nat, d2: nat, header: Header, id: ClockId)
    ensures Result(Observed(t, theta, d1, w, d2, header), id).offset == TowardZero(2 * theta + d1 - d2)
       <==> Eras(theta + d1) + Eras(theta - d2) == 0 && -HALF - 1 <= 2 * theta + d1 - d2 < HALF
  {
    hide Since, Halve, Eras;
    SinceShown(t + d1 + theta, t);
    SinceShown(t + d1 + w + theta, t + d1 + w + d2);
    ErasSum(theta + d1, theta - d2);
    OffsetArithmetic(2 * theta + d1 - d2, Eras(theta + d1) + Eras(theta - d2));
  }

  lemma ErasSum(x: int, y: int)
    ensures Eras(x) + Eras(y) > 0 ==> x + y >= 0
    ensures Eras(x) + Eras(y) < 0 ==> x + y < 0
  {
  }

  lemma OffsetArithmetic(s: int, e: int)
    requires (e > 0 ==> s >= 0) && (e < 0 ==> s < 0)
    ensures Halve(Saturate(s - ERAS * e)) == TowardZero(s) <==> e == 0 && -HALF - 1 <= s < HALF
  {
  }

  /** Then twice its error is the difference of the two delays, but for the rounding, and so within the delay. */
  lemma OffsetBound(t: int, theta: int, d1: nat, w: nat, d2: nat, header: Header, id: ClockId)
    requires Eras(theta + d1) + Eras(theta - d2) == 0 && -HALF - 1 <= 2 * theta + d1 - d2 < HALF
    ensures var offset := Result(Observed(t, theta, d1, w, d2, header), id).offset;
            && d1 - d2 - 1 <= 2 * (offset - theta) <= d1 - d2 + 1
            && -(d1 + d2) - 1 <= 2 * (offset - theta) <= d1 + d2 + 1
  {
    hide Since, Halve, Eras;
    OffsetExactIff(t, theta, d1, w, d2, header, id);
  }

  /** The bound cannot be improved: it is attained. */
  lemma OffsetBoundAttained(t: int, header: Header, id: ClockId)
    ensures var r := Result(Observed(t, -1, 1, 0, 0, header), id);
            r.delay == 1 && 2 * (r.offset - -1) == r.delay + 1
  {
    hide Since;
    DelayOfExchange(t, -1, 1, 0, 0, header, id);
    SinceExact(t, t);
    SinceExact(t, t + 1);
  }

  datatype Flight = Flight(t: int, theta: int, d1: nat, w: nat, d2: nat, header: Header)

  /** The exchange took less than half an era, and the clocks differ by less than a quarter less the delays. */
  predicate WithinLimits(f: Flight) {
    && f.d1 + f.w + f.d2 < HALF
    && -HALF <= 2 * (f.theta - f.d2) && 2 * (f.theta + f.d1) < HALF
  }

  function Seen(f: Flight): Exchange {
    Observed(f.t, f.theta, f.d1, f.w, f.d2, f.header)
  }

  function SeenAll(fs: seq<Flight>): seq<Exchange> {
    seq(|fs|, i requires 0 <= i < |fs| => Seen(fs[i]))
  }

  predicate Accurate(r: TwoWay, f: Flight) {
    && r.delay == f.d1 + f.d2
    && -r.delay - 1 <= 2 * (r.offset - f.theta) <= r.delay + 1
    && r.localtime == Shown(f.t + f.d1 + f.w + f.d2)
    && r.header == f.header
  }

  /**
   Over any sequence of exchanges within those limits the controller is given one result per exchange, with
   the true delay and an offset that is wrong by at most half of it, whatever eras the clocks are in.
   */
  lemma RunAccurate(fs: seq<Flight>, id: ClockId)
    requires id != SYSTEM && forall i :: 0 <= i < |fs| ==> WithinLimits(fs[i])
    ensures var rs := Run(Pairs(SeenAll(fs), id)).results;
            |rs| == |fs| && forall i :: 0 <= i < |fs| ==> Accurate(rs[i], fs[i])
  {
    hide Run, Pairs, Result, Accurate, WithinLimits;
    OneResultEach(SeenAll(fs), id);
    forall i | 0 <= i < |fs|
      ensures Accurate(Result(SeenAll(fs)[i], id), fs[i])
    {
      FlightAccurate(fs[i], id);
    }
  }

  lemma FlightAccurate(f: Flight, id: ClockId)
    requires WithinLimits(f)
    ensures Accurate(Result(Seen(f), id), f)
  {
    hide Since, Plus, Minus, Halve;
    DelayOfExchange(f.t, f.theta, f.d1, f.w, f.d2, f.header, id);
    ErasZero(f.theta + f.d1);
    ErasZero(f.theta - f.d2);
    OffsetBound(f.t, f.theta, f.d1, f.w, f.d2, f.header, id);
  }
}
