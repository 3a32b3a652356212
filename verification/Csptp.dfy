/** A CSPTP source: collecting the answer to one request, and the corrections to its timestamps. */
module Csptp {
  import opened Bytes

  const SECOND := 1_000_000_000
  const SECONDS_LIMIT := 0x1_0000_0000_0000

  /** Reading a timestamp lets a whole second of nanoseconds through. */
  type Nanos = x: int | 0 <= x <= 1_000_000_000
  type Seconds = x: int | 0 <= x < 0x1_0000_0000_0000
  datatype Timestamp = Timestamp(seconds: Seconds, nanos: Nanos)

  /** A number of 2^-16 nanoseconds. */
  type Interval = x: int | -0x8000_0000_0000_0000 <= x < 0x8000_0000_0000_0000

  function SaturatingAdd(a: Interval, b: Interval): (r: Interval)
    ensures -0x8000_0000_0000_0000 <= a + b < 0x8000_0000_0000_0000 ==> r == a + b
    ensures a + b >= 0x8000_0000_0000_0000 ==> r == 0x7FFF_FFFF_FFFF_FFFF
    ensures a + b < -0x8000_0000_0000_0000 ==> r == -0x8000_0000_0000_0000
  {
    var s: int := a + b;
    if s < -0x8000_0000_0000_0000 then -0x8000_0000_0000_0000
    else if s > 0x7FFF_FFFF_FFFF_FFFF then 0x7FFF_FFFF_FFFF_FFFF
    else s
  }

  /* ---- Receiving ---- */

  datatype Body = Sync(origin: Timestamp) | FollowUp(precise: Timestamp) | OtherBody

  datatype ResponseTlv = ResponseTlv(ingress: Timestamp, correction: Interval)

  datatype Leap = NoWarning | Leap61 | Leap59

  /** What of a message is passed on unread: the flags of its header and its status field. */
  datatype Status = Status(fields: Option<Bytes>, ptpTimescale: bool, timeTraceable: bool, frequencyTraceable: bool)

  datatype Message = Message(
    domain: Byte, sequence: U16, correction: Interval, twoStep: bool, leap59: bool, leap61: bool,
    body: Body, response: Option<ResponseTlv>, status: Status)

  /** One receive: it fails, or it gives bytes that are a message or not, perhaps with a timestamp. */
  datatype Receipt = Failed | Garbage | Received(message: Message, at: Option<Timestamp>)

  datatype Request = Request(domain: Byte, sequence: U16, sent: Timestamp)

  datatype Measurement = Measurement(
    requestSent: Timestamp, requestReceived: Timestamp, responseSent: Timestamp, responseReceived: Timestamp,
    requestCorrection: Interval, responseCorrection: Interval, leap: Leap, status: Status)

  datatype State =
    | WaitingForResponse
    | WaitingForFollowUp(
        requestReceived: Timestamp, responseReceived: Timestamp, requestCorrection: Interval,
        responseCorrection: Interval, leap: Leap, status: Status)
    | WaitingForResponseHaveFollowUp(remoteSent: Timestamp, followUpCorrection: Interval)

  function LeapOf(m: Message): Leap {
    if m.leap59 then Leap59 else if m.leap61 then Leap61 else NoWarning
  }

  /** The receive loop: it ends with the first measurement; `None` when the receipts run out before that. */
  method Collect(q: Request, trace: seq<Receipt>) returns (r: Option<Measurement>)
    ensures r == Collected(q, trace)
  {
    var state := WaitingForResponse;
    for i := 0 to |trace|
      invariant Collected(q, trace) == CollectFrom(q, state, trace[i..])
    {
      var receipt := trace[i];
      assert trace[i..][1..] == trace[i + 1..];
      if !receipt.Received? {
        continue;
      }
      var m := receipt.message;
      if m.domain != q.domain || m.sequence != q.sequence {
        continue;
      }
      match m.body {
        case Sync(origin) =>
          if m.response.None? {
            continue;
          }
          if receipt.at.None? {
            continue;
          }
          var tlv, at := m.response.value, receipt.at.value;
          if m.twoStep {
            match state {
              case WaitingForResponse =>
                state := WaitingForFollowUp(tlv.ingress, at, tlv.correction, m.correction, LeapOf(m), m.status);
                continue;
              case WaitingForFollowUp(_, _, _, _, _, _) =>
                continue;
              case WaitingForResponseHaveFollowUp(remoteSent, correction) =>
                return Some(Measurement(q.sent, tlv.ingress, remoteSent, at, tlv.correction,
                                        SaturatingAdd(correction, m.correction), LeapOf(m), m.status));
            }
          } else {
            return Some(Measurement(q.sent, tlv.ingress, origin, at, tlv.correction, m.correction,
                                    LeapOf(m), m.status));
          }
        case FollowUp(precise) =>
          match state {
            case WaitingForResponse =>
              state := WaitingForResponseHaveFollowUp(precise, m.correction);
              continue;
            case WaitingForFollowUp(requestReceived, responseReceived, requestCorrection, correction, leap, status) =>
              return Some(Measurement(q.sent, requestReceived, precise, responseReceived, requestCorrection,
                                      SaturatingAdd(correction, m.correction), leap, status));
            case WaitingForResponseHaveFollowUp(_, _) =>
              continue;
          }
        case OtherBody =>
          continue;
      }
    }
    return None;
  }

  /** What one receipt does: it changes the state, or it ends the collection. */
  datatype Reaction = Go(state: State) | End(measurement: Measurement)

  function React(q: Request, state: State, r: Receipt): Reaction {
    if IsOneStep(q, r) then End(Single(q, r))
    else if IsTwoStep(q, r) then
      match state
      case WaitingForResponse => Go(HaveResponse(r))
      case WaitingForFollowUp(_, _, _, _, _, _) => Go(state)
      case WaitingForResponseHaveFollowUp(sent, correction) =>
        End(Measurement(q.sent, r.message.response.value.ingress, sent, r.at.value, r.message.response.value.correction,
                        SaturatingAdd(correction, r.message.correction), LeapOf(r.message), r.message.status))
    else if IsFollowUp(q, r) then
      match state
      case WaitingForResponse => Go(WaitingForResponseHaveFollowUp(r.message.body.precise, r.message.correction))
      case WaitingForFollowUp(requestReceived, responseReceived, requestCorrection, correction, leap, status) =>
        End(Measurement(q.sent, requestReceived, r.message.body.precise, responseReceived, requestCorrection,
                        SaturatingAdd(correction, r.message.correction), leap, status))
      case WaitingForResponseHaveFollowUp(_, _) => Go(state)
    else Go(state)
  }

  function CollectFrom(q: Request, state: State, trace: seq<Receipt>): Option<Measurement>
    decreases |trace|
  {
    if trace == [] then None
    else
      match React(q, state, trace[0])
      case End(m) => Some(m)
      case Go(s) => CollectFrom(q, s, trace[1..])
  }

  function Collected(q: Request, trace: seq<Receipt>): Option<Measurement> {
    CollectFrom(q, WaitingForResponse, trace)
  }

  /* ---- What is being waited for ---- */

  predicate Ours(q: Request, r: Receipt) {
    r.Received? && r.message.domain == q.domain && r.message.sequence == q.sequence
  }

  /** A response has the response field and came with a timestamp. */
  predicate IsResponse(q: Request, r: Receipt) {
    Ours(q, r) && r.message.body.Sync? && r.message.response.Some? && r.at.Some?
  }

  predicate IsOneStep(q: Request, r: Receipt) {
    IsResponse(q, r) && !r.message.twoStep
  }

  predicate IsTwoStep(q: Request, r: Receipt) {
    IsResponse(q, r) && r.message.twoStep
  }

  predicate IsFollowUp(q: Request, r: Receipt) {
    Ours(q, r) && r.message.body.FollowUp?
  }

  function HaveResponse(r: Receipt): State
    requires r.Received? && r.message.response.Some? && r.at.Some?
  {
    var m := r.message;
    WaitingForFollowUp(m.response.value.ingress, r.at.value, m.response.value.correction, m.correction, LeapOf(m), m.status)
  }

  /** The measurement of a response that carries its own time of sending. */
  function Single(q: Request, r: Receipt): Measurement
    requires IsOneStep(q, r)
  {
    var m := r.message;
    Measurement(q.sent, m.response.value.ingress, m.body.origin, r.at.value, m.response.value.correction,
                m.correction, LeapOf(m), m.status)
  }

  /** The measurement of a response and the follow-up that says when it was sent. */
  function Joined(q: Request, r: Receipt, f: Receipt): Measurement
    requires IsTwoStep(q, r) && IsFollowUp(q, f)
  {
    var m := r.message;
    Measurement(q.sent, m.response.value.ingress, f.message.body.precise, r.at.value, m.response.value.correction,
                SaturatingAdd(m.correction, f.message.correction), LeapOf(m), m.status)
  }

  /* ---- The first completion point ---- */

  datatype Kind = OneStep | TwoStep | Follow

  predicate Is(q: Request, kind: Kind, r: Receipt) {
    match kind
    case OneStep => IsOneStep(q, r)
    case TwoStep => IsTwoStep(q, r)
    case Follow => IsFollowUp(q, r)
  }

  /** The index of the first receipt of a kind; the length when there is none. */
  function First(q: Request, kind: Kind, trace: seq<Receipt>): (i: nat)
    ensures i <= |trace| && (i < |trace| ==> Is(q, kind, trace[i]))
    ensures forall j :: 0 <= j < i ==> !Is(q, kind, trace[j])
  {
    if trace == [] || Is(q, kind, trace[0]) then 0 else 1 + First(q, kind, trace[1..])
  }

  /**
   The answer, said without a state: the first one-step response, unless before it both a two-step response
   and a follow-up came, and then the first of each.
   */
  function Answer(q: Request, trace: seq<Receipt>): Option<Measurement> {
    var one, two, follow := First(q, OneStep, trace), First(q, TwoStep, trace), First(q, Follow, trace);
    if two < one && follow < one then Some(Joined(q, trace[two], trace[follow]))
    else if one < |trace| then Some(Single(q, trace[one]))
    else None
  }

  function AnswerTo(q: Request, r: Receipt, trace: seq<Receipt>): Option<Measurement>
    requires IsTwoStep(q, r)
  {
    var one, follow := First(q, OneStep, trace), First(q, Follow, trace);
    if follow < one then Some(Joined(q, r, trace[follow]))
    else if one < |trace| then Some(Single(q, trace[one]))
    else None
  }

  function AnswerWith(q: Request, f: Receipt, trace: seq<Receipt>): Option<Measurement>
    requires IsFollowUp(q, f)
  {
    var one, two := First(q, OneStep, trace), First(q, TwoStep, trace);
    if two < one then Some(Joined(q, trace[two], f))
    else if one < |trace| then Some(Single(q, trace[one]))
    else None
  }

  lemma {:induction false} AfterResponse(q: Request, r: Receipt, trace: seq<Receipt>)
    requires IsTwoStep(q, r)
    ensures CollectFrom(q, HaveResponse(r), trace) == AnswerTo(q, r, trace)
    decreases |trace|
  {
    if trace != [] {
      AfterResponse(q, r, trace[1..]);
    }
  }

  function HaveFollowUp(f: Receipt): State
    requires f.Received? && f.message.body.FollowUp?
  {
    WaitingForResponseHaveFollowUp(f.message.body.precise, f.message.correction)
  }

  lemma {:induction false} AfterFollowUp(q: Request, f: Receipt, trace: seq<Receipt>)
    requires IsFollowUp(q, f)
    ensures CollectFrom(q, HaveFollowUp(f), trace) == AnswerWith(q, f, trace)
    decreases |trace|
  {
    if trace != [] {
      AfterFollowUp(q, f, trace[1..]);
    }
  }

  /** The loop finds exactly that answer, on every trace. */
  lemma {:induction false} CollectsAnswer(q: Request, trace: seq<Receipt>)
    ensures Collected(q, trace) == Answer(q, trace)
    decreases |trace|
  {
    if trace != [] {
      var r, rest := trace[0], trace[1..];
      if IsTwoStep(q, r) {
        AfterResponse(q, r, rest);
      } else if IsFollowUp(q, r) {
        AfterFollowUp(q, r, rest);
      } else if !IsOneStep(q, r) {
        CollectsAnswer(q, rest);
      }
    }
  }

  /* ---- When it ends ---- */

  predicate Has(q: Request, kind: Kind, trace: seq<Receipt>) {
    exists i :: 0 <= i < |trace| && Is(q, kind, trace[i])
  }

  /** Enough has come: a one-step response, or a two-step response and a follow-up. */
  predicate Complete(q: Request, trace: seq<Receipt>) {
    Has(q, OneStep, trace) || (Has(q, TwoStep, trace) && Has(q, Follow, trace))
  }

  /** It ends exactly when enough has come, and what comes afterwards changes nothing. */
  lemma EndsWhenComplete(q: Request, trace: seq<Receipt>, more: seq<Receipt>)
    ensures Collected(q, trace).Some? <==> Complete(q, trace)
    ensures Complete(q, trace) ==> Collected(q, trace + more) == Collected(q, trace)
  {
    CollectsAnswer(q, trace);
    if Complete(q, trace) {
      CollectMore(q, WaitingForResponse, trace, more);
    }
  }

  lemma {:induction false} CollectMore(q: Request, state: State, trace: seq<Receipt>, more: seq<Receipt>)
    requires CollectFrom(q, state, trace).Some?
    ensures CollectFrom(q, state, trace + more) == CollectFrom(q, state, trace)
    decreases |trace|
  {
    assert (trace + more)[1..] == trace[1..] + more;
    var reaction := React(q, state, trace[0]);
    if reaction.Go? {
      CollectMore(q, reaction.state, trace[1..], more);
    }
  }

  /* ---- Order, duplicates and foreign messages ---- */

  function Reach(q: Request, state: State, trace: seq<Receipt>): Reaction
    decreases |trace|
  {
    if trace == [] then Go(state)
    else
      match React(q, state, trace[0])
      case End(m) => End(m)
      case Go(s) => Reach(q, s, trace[1..])
  }

  lemma {:induction false} CollectJoin(q: Request, state: State, a: seq<Receipt>, b: seq<Receipt>)
    ensures CollectFrom(q, state, a + b) ==
            match Reach(q, state, a)
            case End(m) => Some(m)
            case Go(s) => CollectFrom(q, s, b)
    decreases |a|
  {
    if a == [] {
      assert a + b == b;
    } else {
      assert (a + b)[1..] == a[1..] + b;
      var reaction := React(q, state, a[0]);
      if reaction.Go? {
        CollectJoin(q, reaction.state, a[1..], b);
      }
    }
  }

  /** A two-step response and a follow-up next to each other can come in either order. */
  lemma OrderIndependent(q: Request, before: seq<Receipt>, r: Receipt, f: Receipt, after: seq<Receipt>)
    requires IsTwoStep(q, r) && IsFollowUp(q, f)
    ensures Collected(q, before + [r, f] + after) == Collected(q, before + [f, r] + after)
  {
    CollectSplit(q, before, [r, f], after);
    CollectSplit(q, before, [f, r], after);
    var reaction := Reach(q, WaitingForResponse, before);
    if reaction.Go? {
      SwapHere(q, reaction.state, r, f, after);
    }
  }

  lemma CollectSplit(q: Request, before: seq<Receipt>, here: seq<Receipt>, after: seq<Receipt>)
    ensures Collected(q, before + here + after) ==
            match Reach(q, WaitingForResponse, before)
            case End(m) => Some(m)
            case Go(s) => CollectFrom(q, s, here + after)
  {
    assert before + here + after == before + (here + after);
    CollectJoin(q, WaitingForResponse, before, here + after);
  }

  lemma SwapHere(q: Request, s: State, r: Receipt, f: Receipt, after: seq<Receipt>)
    requires IsTwoStep(q, r) && IsFollowUp(q, f)
    ensures CollectFrom(q, s, [r, f] + after) == CollectFrom(q, s, [f, r] + after)
  {
    assert ([r, f] + after)[1..] == [f] + after && ([f, r] + after)[1..] == [r] + after;
    assert ([f] + after)[1..] == after && ([r] + after)[1..] == after;
  }

  /** A message that is not for this request, or of no use to it. */
  predicate Foreign(q: Request, r: Receipt) {
    !IsResponse(q, r) && !IsFollowUp(q, r)
  }

  /** Foreign messages, and another two-step response or follow-up after the first, change nothing. */
  lemma ExtraIgnored(q: Request, before: seq<Receipt>, r: Receipt, after: seq<Receipt>)
    requires || Foreign(q, r)
             || (IsTwoStep(q, r) && Has(q, TwoStep, before))
             || (IsFollowUp(q, r) && Has(q, Follow, before))
    ensures Collected(q, before + [r] + after) == Collected(q, before + after)
  {
    CollectSplit(q, before, [r], after);
    CollectSplit(q, before, [], after);
    assert before + [] + after == before + after && [] + after == after && ([r] + after)[1..] == after;
    ReachRemembers(q, WaitingForResponse, before);
  }

  lemma {:induction false} ReachRemembers(q: Request, s: State, trace: seq<Receipt>)
    ensures var reaction := Reach(q, s, trace);
            reaction.Go? ==>
              && (s.WaitingForFollowUp? || Has(q, TwoStep, trace) ==> reaction.state.WaitingForFollowUp?)
              && (s.WaitingForResponseHaveFollowUp? || Has(q, Follow, trace) ==>
                    reaction.state.WaitingForResponseHaveFollowUp?)
    decreases |trace|
  {
    if trace != [] {
      var reaction := React(q, s, trace[0]);
      if reaction.Go? {
        ReachRemembers(q, reaction.state, trace[1..]);
        HasHead(q, TwoStep, trace);
        HasHead(q, Follow, trace);
      }
    }
  }

  lemma HasHead(q: Request, kind: Kind, trace: seq<Receipt>)
    requires trace != []
    ensures Has(q, kind, trace) <==> Is(q, kind, trace[0]) || Has(q, kind, trace[1..])
  {
    if Has(q, kind, trace[1..]) {
      var i :| 0 <= i < |trace[1..]| && Is(q, kind, trace[1..][i]);
      assert Is(q, kind, trace[i + 1]);
    }
    if Has(q, kind, trace) {
      var i :| 0 <= i < |trace| && Is(q, kind, trace[i]);
      if i > 0 {
        assert Is(q, kind, trace[1..][i - 1]);
      }
    }
  }

  /* ---- Corrections ---- */

  function Total(t: Timestamp): int {
    t.seconds * SECOND + t.nanos
  }

  const U64 := 0x1_0000_0000_0000_0000

  /** Seconds wrap at 2^64; a result of 2^48 seconds or more is refused. */
  function AddCorrection(t: Timestamp, correction: Interval): Option<Timestamp> {
    var nanos: int := correction / 0x1_0000;
    var carried := t.nanos + nanos % SECOND;
    var seconds := ((t.seconds + nanos / SECOND) % U64 + carried / SECOND) % U64;
    if seconds < SECONDS_LIMIT then Some(Timestamp(seconds, carried % SECOND)) else None
  }

  /** The corrected time is exact to the nanosecond below, and there is one exactly when it can be written. */
  lemma CorrectionExact(t: Timestamp, correction: Interval)
    ensures var sum := Total(t) + correction / 0x1_0000;
            var r := AddCorrection(t, correction);
            && (r.Some? <==> 0 <= sum < SECONDS_LIMIT * SECOND)
            && (r.Some? ==> Total(r.value) == sum && r.value.nanos < SECOND)
  {
    var nanos: int := correction / 0x1_0000;
    var carried := t.nanos + nanos % SECOND;
    assert nanos == (nanos / SECOND) * SECOND + nanos % SECOND;
    assert carried == (carried / SECOND) * SECOND + carried % SECOND;
    var a, k := t.seconds + nanos / SECOND, carried / SECOND;
    WrapSeconds(a, k);
    var sum := Total(t) + nanos;
    assert sum == (a + k) * SECOND + carried % SECOND;
    assert 0 <= sum < SECONDS_LIMIT * SECOND <==> 0 <= a + k < SECONDS_LIMIT;
  }

  lemma WrapSeconds(a: int, k: int)
    requires -0x1_0000_0000 <= a < SECONDS_LIMIT + 0x1_0000_0000 && 0 <= k <= 1
    ensures var s := (a % U64 + k) % U64;
            && (s < SECONDS_LIMIT <==> 0 <= a + k < SECONDS_LIMIT)
            && (s < SECONDS_LIMIT ==> s == a + k)
  {
    if a < 0 {
      assert a % U64 == a + U64;
    }
  }

  /* ---- What is measured ---- */

  /**
   A request leaves at local time `t`, takes `p1` on the way and is held up for `c1` in between; the server's clock
   is ahead by `theta`; the answer leaves after `w`, takes `p2` and is held up for `c2`. All in nanoseconds. The server
   knows of a leap second, or of none, and says so, with its status.
   */
  datatype Passage = Passage(t: int, theta: int, p1: nat, c1: nat, w: nat, p2: nat, c2: nat, leap: Leap, status: Status)

  function Nanoseconds(correction: int): int {
    correction / 0x1_0000
  }

  /** The response says truly when the request came and how long it was held up, and came when it did. */
  predicate TrueResponse(r: Receipt, p: Passage)
    requires r.Received? && r.message.response.Some? && r.at.Some?
  {
    && Total(r.message.response.value.ingress) == p.t + p.p1 + p.c1 + p.theta
    && Nanoseconds(r.message.response.value.correction) == p.c1
    && Total(r.at.value) == p.t + p.p1 + p.c1 + p.w + p.p2 + p.c2
    && r.message.leap59 == (p.leap == Leap59) && r.message.leap61 == (p.leap == Leap61) && r.message.status == p.status
  }

  predicate SentAt(t: Timestamp, p: Passage) {
    Total(t) == p.t + p.p1 + p.c1 + p.w + p.theta
  }

  /** What comes for the request is true, whatever else comes: each one-step response by itself, and each two-step
      response with each follow-up. */
  ghost predicate Truthful(q: Request, trace: seq<Receipt>, p: Passage) {
    && Total(q.sent) == p.t
    && (forall r :: r in trace && IsOneStep(q, r) ==>
          TrueResponse(r, p) && SentAt(r.message.body.origin, p) && Nanoseconds(r.message.correction) == p.c2)
    && (forall r, f :: r in trace && f in trace && IsTwoStep(q, r) && IsFollowUp(q, f) ==>
          && TrueResponse(r, p) && SentAt(f.message.body.precise, p)
          && var c: int := r.message.correction + f.message.correction;
             c < 0x8000_0000_0000_0000 && Nanoseconds(c) == p.c2)
  }

  /** The times of leaving, put off by what the messages were held up, and the times of coming differ by the ways
      alone and the difference of the clocks. */
  predicate Measures(m: Measurement, p: Passage) {
    var a, b := AddCorrection(m.requestSent, m.requestCorrection), AddCorrection(m.responseSent, m.responseCorrection);
    && (a.Some? <==> 0 <= p.t + p.c1 < SECONDS_LIMIT * SECOND)
    && (a.Some? ==> Total(m.requestReceived) - Total(a.value) == p.p1 + p.theta)
    && (b.Some? <==> 0 <= p.t + p.p1 + p.c1 + p.w + p.theta + p.c2 < SECONDS_LIMIT * SECOND)
    && (b.Some? ==> Total(m.responseReceived) - Total(b.value) == p.p2 - p.theta)
    && m.leap == p.leap && m.status == p.status
  }

  /** So half the sum is the mean way, and half the difference the clock's error but for the difference of the ways,
      however the answer came together. */
  lemma CollectedMeasures(q: Request, trace: seq<Receipt>, p: Passage)
    requires Truthful(q, trace, p) && Complete(q, trace)
    ensures Collected(q, trace).Some? && Measures(Collected(q, trace).value, p)
  {
    hide AddCorrection, Total, Collected, TrueResponse, SentAt, Measures;
    CollectsAnswer(q, trace);
    EndsWhenComplete(q, trace, []);
    var one, two, follow := First(q, OneStep, trace), First(q, TwoStep, trace), First(q, Follow, trace);
    if two < one && follow < one {
      var r, f := trace[two], trace[follow];
      JoinedMeasures(q, r, f, p);
    } else {
      SingleMeasures(q, trace[one], p);
    }
  }

  lemma SingleMeasures(q: Request, r: Receipt, p: Passage)
    requires IsOneStep(q, r) && Total(q.sent) == p.t
    requires TrueResponse(r, p) && SentAt(r.message.body.origin, p) && Nanoseconds(r.message.correction) == p.c2
    ensures Measures(Single(q, r), p)
  {
    hide AddCorrection, Total;
    CorrectionExact(q.sent, r.message.response.value.correction);
    CorrectionExact(r.message.body.origin, r.message.correction);
  }

  lemma JoinedMeasures(q: Request, r: Receipt, f: Receipt, p: Passage)
    requires IsTwoStep(q, r) && IsFollowUp(q, f) && Total(q.sent) == p.t
    requires TrueResponse(r, p) && SentAt(f.message.body.precise, p)
    requires var c: int := r.message.correction + f.message.correction;
             c < 0x8000_0000_0000_0000 && Nanoseconds(c) == p.c2
    ensures Measures(Joined(q, r, f), p)
  {
    hide AddCorrection, Total;
    var m := Joined(q, r, f);
    assert m.responseCorrection == r.message.correction + f.message.correction;
    CorrectionExact(q.sent, m.requestCorrection);
    CorrectionExact(f.message.body.precise, m.responseCorrection);
  }
}
