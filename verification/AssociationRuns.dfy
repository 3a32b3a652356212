/** What holds of a client association on every run of timers and packets. */
module AssociationRuns {
  import opened PowersOfTwo
  import opened Bytes
  import opened Protocol
  import opened Headers
  import opened ExtensionFields
  import opened EncryptedFields
  import opened Associations

  datatype Event = Timer(poll: Poll) | Incoming(msg: Message, now: int)

  function Step(s: Source, ev: Event): (r: (Source, Outcome))
    requires Stocked(s)
    ensures Stocked(r.0) && r.0.limits == s.limits && (r.0.cookies.Some? <==> s.cookies.Some?)
  {
    match ev
    case Timer(poll) => TimerStep(s, poll)
    case Incoming(m, now) => IncomingStep(s, m, now)
  }

  /** The state after a run. */
  function After(s: Source, evs: seq<Event>): (r: Source)
    requires Stocked(s)
    ensures Stocked(r) && r.limits == s.limits && (r.cookies.Some? <==> s.cookies.Some?)
  {
    if evs == [] then s else Step(After(s, evs[..|evs| - 1]), evs[|evs| - 1]).0
  }

  /** What the last event of a run led to. */
  function LastOutcome(s: Source, evs: seq<Event>): Outcome
    requires Stocked(s) && evs != []
  {
    Step(After(s, evs[..|evs| - 1]), evs[|evs| - 1]).1
  }

  /* ---- The interval that the server imposes ---- */

  /** While a request is outstanding, the imposed interval is within the limits or has already been
      used for polling. */
  predicate IntervalKnown(s: Source) {
    s.request.Some? ==> s.remoteMin <= Max(s.limits.max, s.lastPoll)
  }

  /** The limits under which counting up never wraps to a shorter interval. */
  predicate SafeLimits(limits: Limits) {
    limits.max < 127 || limits.min == 127
  }

  lemma IntervalStep(s: Source, ev: Event)
    requires Stocked(s) && IntervalKnown(s) && SafeLimits(s.limits)
    requires s.limits.min <= s.remoteMin && s.limits.min <= s.lastPoll
    ensures var r := Step(s, ev).0;
            IntervalKnown(r) && s.remoteMin <= r.remoteMin && r.limits.min <= r.lastPoll
  {
  }

  lemma {:induction false} IntervalRun(s: Source, evs: seq<Event>)
    requires Stocked(s) && IntervalKnown(s) && SafeLimits(s.limits)
    requires s.limits.min <= s.remoteMin && s.limits.min <= s.lastPoll
    ensures var r := After(s, evs);
            IntervalKnown(r) && s.remoteMin <= r.remoteMin && r.limits.min <= r.lastPoll
  {
    hide Step;
    if evs != [] {
      IntervalRun(s, evs[..|evs| - 1]);
      IntervalStep(After(s, evs[..|evs| - 1]), evs[|evs| - 1]);
    }
  }

  lemma AfterOne(s: Source, evs: seq<Event>, ev: Event)
    requires Stocked(s)
    ensures After(s, evs + [ev]) == Step(After(s, evs), ev).0
    ensures After(s, []) == s
  {
    hide Step;
    assert (evs + [ev])[..|evs|] == evs;
  }

  lemma {:induction false} AfterAppend(s: Source, a: seq<Event>, b: seq<Event>)
    requires Stocked(s)
    ensures After(s, a + b) == After(After(s, a), b)
    decreases |b|
  {
    if b == [] {
      assert a + b == a;
    } else {
      var n := |b| - 1;
      assert (a + b)[..|a + b| - 1] == a + b[..n];
      AfterAppend(s, a, b[..n]);
    }
  }

  /** The interval imposed on an association never gets shorter, whatever the events. */
  ghost predicate NeverShorter(limits: Limits) {
    forall protocol, cookies, evs, i ::
      Stocked(Fresh(limits, protocol, cookies)) && 0 <= i <= |evs| ==>
        After(Fresh(limits, protocol, cookies), evs[..i]).remoteMin
        <= After(Fresh(limits, protocol, cookies), evs).remoteMin
  }

  /** That holds exactly for limits below the largest interval, or that leave no choice. */
  lemma NeverShorterIff(limits: Limits)
    ensures NeverShorter(limits) <==> SafeLimits(limits)
  {
    if SafeLimits(limits) {
      forall protocol, cookies, evs, i |
        Stocked(Fresh(limits, protocol, cookies)) && 0 <= i <= |evs|
        ensures After(Fresh(limits, protocol, cookies), evs[..i]).remoteMin
                <= After(Fresh(limits, protocol, cookies), evs).remoteMin
      {
        hide Step;
        var s := Fresh(limits, protocol, cookies);
        IntervalRun(s, evs[..i]);
        IntervalRun(After(s, evs[..i]), evs[i..]);
        AfterAppend(s, evs[..i], evs[i..]);
        assert evs[..i] + evs[i..] == evs;
      }
    } else {
      ShorterRun(limits);
    }
  }

  const RATE_KISS := Message(Ntp4, 0, 0, Server, Rate, false, false, ZEROS8, EfData([], [], []))

  /** One poll, and then `k` rate kisses in answer to it. */
  function RateRun(limits: Limits, k: nat): (evs: seq<Event>)
    ensures |evs| == k + 1
  {
    if k == 0 then [Timer(Poll(limits.min, ZEROS8, [], 0, 0))] else RateRun(limits, k - 1) + [Incoming(RATE_KISS, 0)]
  }

  /** Waiting for an answer to the poll of `RateRun`. */
  predicate RateAwaiting(s: Source, limits: Limits) {
    && s.lastPoll == limits.min && s.limits == limits && s.protocol == OnlyV4 && s.cookies == None
    && s.request == Some(Request(RequestId(ZEROS8, None), POLL_WINDOW))
  }

  lemma RateStep(s: Source, limits: Limits)
    requires RateAwaiting(s, limits)
    ensures Step(s, Incoming(RATE_KISS, 0)).0 == s.(remoteMin := Max(IncPoll(s.remoteMin, limits), limits.min))
  {
    assert Answers(s, RATE_KISS, 0) && IsKissRate(RATE_KISS, s.lastPoll);
  }

  lemma {:induction false} RateRunState(limits: Limits, k: nat)
    requires limits.max == 127 && limits.min + k <= 128
    ensures var s := After(Fresh(limits, OnlyV4, None), RateRun(limits, k));
            RateAwaiting(s, limits) && s.remoteMin == if limits.min + k == 128 then limits.min else limits.min + k
  {
    hide Step, After;
    var s := Fresh(limits, OnlyV4, None);
    if k == 0 {
      var poll := Timer(Poll(limits.min, ZEROS8, [], 0, 0));
      FirstPoll(limits);
      AfterOne(s, [], poll);
      assert [] + [poll] == RateRun(limits, 0);
    } else {
      RateRunState(limits, k - 1);
      AfterOne(s, RateRun(limits, k - 1), Incoming(RATE_KISS, 0));
      RateStep(After(s, RateRun(limits, k - 1)), limits);
    }
  }

  lemma FirstPoll(limits: Limits)
    ensures var r := Step(Fresh(limits, OnlyV4, None), Timer(Poll(limits.min, ZEROS8, [], 0, 0))).0;
            RateAwaiting(r, limits) && r.remoteMin == limits.min
  {
  }

  /** Rate kisses within one poll can wrap the interval around when the limit is 127. */
  lemma ShorterRun(limits: Limits)
    requires !SafeLimits(limits)
    ensures !NeverShorter(limits)
  {
    hide After, RateRun;
    var k := 128 - limits.min;
    var s := Fresh(limits, OnlyV4, None);
    RateRunState(limits, k - 1);
    RateRunState(limits, k);
    var evs := RateRun(limits, k);
    assert evs[..k] == RateRun(limits, k - 1) by {
      RateRunPrefix(limits, k);
    }
    assert After(s, evs[..k]).remoteMin == 127 && After(s, evs).remoteMin == limits.min;
  }

  lemma RateRunPrefix(limits: Limits, k: nat)
    requires k > 0
    ensures RateRun(limits, k)[..k] == RateRun(limits, k - 1)
  {
  }

  /* ---- Requests and their answers ---- */

  /** The poll that is waiting for its answer: the last one sent, unless it has been answered. */
  function Outstanding(s: Source, evs: seq<Event>): (r: Option<nat>)
    requires Stocked(s)
    ensures r.Some? ==> r.value < |evs| && evs[r.value].Timer?
  {
    if evs == [] then None
    else
      match LastOutcome(s, evs)
      case Sent(_, _, _, _) => Some(|evs| - 1)
      case Accepted => None
      case _ => Outstanding(s, evs[..|evs| - 1])
  }

  function Sends(s: Source, evs: seq<Event>): nat
    requires Stocked(s)
  {
    if evs == [] then 0
    else Sends(s, evs[..|evs| - 1]) + if LastOutcome(s, evs).Sent? then 1 else 0
  }

  function Accepts(s: Source, evs: seq<Event>): nat
    requires Stocked(s)
  {
    if evs == [] then 0
    else Accepts(s, evs[..|evs| - 1]) + if LastOutcome(s, evs).Accepted? then 1 else 0
  }

  function RequestOf(poll: Poll, nts: bool): Request {
    Request(RequestId(poll.origin, if nts then Some(poll.uid) else None), poll.now + POLL_WINDOW)
  }

  lemma StepRequest(s: Source, ev: Event)
    requires Stocked(s)
    ensures var (r, o) := Step(s, ev);
            match o
            case Sent(_, _, _, _) => ev.Timer? && r.request == Some(RequestOf(ev.poll, s.cookies.Some?))
            case Accepted =>
              && r.request == None && s.request.Some? && ev.Incoming?
              && ev.now <= s.request.value.deadline
              && ValidServerResponse(ev.msg, s.request.value.id, s.cookies.Some?)
              && 1 <= ev.msg.stratum <= MAX_STRATUM && r.stratum == ev.msg.stratum
            case _ => r.request == s.request
    ensures !Step(s, ev).1.Accepted? ==> Step(s, ev).0.stratum == s.stratum
  {
  }

  lemma {:induction false} RequestTracked(s: Source, evs: seq<Event>)
    requires Stocked(s) && s.request == None
    ensures After(s, evs).request ==
            match Outstanding(s, evs)
            case None => None
            case Some(k) => Some(RequestOf(evs[k].poll, s.cookies.Some?))
    ensures Accepts(s, evs) + (if After(s, evs).request.Some? then 1 else 0) <= Sends(s, evs)
  {
    hide Step;
    if evs != [] {
      RequestTracked(s, evs[..|evs| - 1]);
      StepRequest(After(s, evs[..|evs| - 1]), evs[|evs| - 1]);
    }
  }

  /** Some identifier among the fields begins with `uid`. */
  ghost predicate Tells(fs: seq<ExtField>, uid: Bytes) {
    exists i :: 0 <= i < |fs| && fs[i].UniqueIdentifier? && uid <= fs[i].data
  }

  /** No identifier among the fields begins otherwise. */
  ghost predicate NoneOther(fs: seq<ExtField>, uid: Bytes) {
    forall i :: 0 <= i < |fs| && fs[i].UniqueIdentifier? ==> uid <= fs[i].data
  }

  /** A refusal because the encryption of the poll was no good; it cannot be encrypted itself. */
  predicate Nak(m: Message) {
    m.stratum == 0 && if m.version == Ntp5 then m.authNak else m.code == Ntsn
  }

  /** The identifier of the poll is among the fields that are authenticated or encrypted, and no other one is.
      A refusal may have it among the others, where then no other one may be either. */
  ghost predicate Identifies(m: Message, uid: Bytes) {
    var proven := m.efdata.authenticated + m.efdata.encrypted;
    && NoneOther(proven, uid)
    && if Nak(m) then NoneOther(m.efdata.untrusted, uid) && (Tells(proven, uid) || Tells(m.efdata.untrusted, uid))
       else Tells(proven, uid)
  }

  /** The versions that an association listens to. */
  predicate Listens(p: ProtocolVersion, v: NtpVersion) {
    (v == Ntp5 <==> p == OnlyV5 || p == UpgradedToV5) && (v == Ntp3 ==> p == OnlyV4)
  }

  /** The message answers the poll that is waiting for its answer, in time. */
  ghost predicate Heard(s: Source, evs: seq<Event>, m: Message, now: int)
    requires Stocked(s)
  {
    && Listens(After(s, evs).protocol, m.version)
    && Outstanding(s, evs).Some?
    && var poll := evs[Outstanding(s, evs).value].poll;
       now <= poll.now + POLL_WINDOW && m.origin == poll.origin && (s.cookies.Some? ==> Identifies(m, poll.uid))
  }

  lemma CheckedUid(fs: seq<ExtField>, uid: Bytes)
    ensures CheckUid(fs, uid) != Some(false) <==> NoneOther(fs, uid)
    ensures NoneOther(fs, uid) ==> (CheckUid(fs, uid).Some? <==> Tells(fs, uid))
  {
    if CheckUid(fs, uid) == Some(false) {
      var f :| f in fs && f.UniqueIdentifier? && !CarriesUid(f, uid);
      var i :| 0 <= i < |fs| && fs[i] == f;
    }
    if !NoneOther(fs, uid) {
      var i :| 0 <= i < |fs| && fs[i].UniqueIdentifier? && !(uid <= fs[i].data);
      assert fs[i] in fs && !CarriesUid(fs[i], uid);
    }
    if CheckUid(fs, uid).Some? && NoneOther(fs, uid) {
      var f :| f in fs && f.UniqueIdentifier?;
      var i :| 0 <= i < |fs| && fs[i] == f;
    }
    if Tells(fs, uid) {
      var i :| 0 <= i < |fs| && fs[i].UniqueIdentifier? && uid <= fs[i].data;
      assert fs[i] in fs;
    }
  }

  lemma Joined(a: seq<ExtField>, b: seq<ExtField>, uid: Bytes)
    ensures NoneOther(a + b, uid) <==> NoneOther(a, uid) && NoneOther(b, uid)
    ensures Tells(a + b, uid) <==> Tells(a, uid) || Tells(b, uid)
  {
    var c := a + b;
    assert forall i :: 0 <= i < |a| ==> c[i] == a[i];
    assert forall i :: 0 <= i < |b| ==> c[|a| + i] == b[i];
    if Tells(a, uid) {
      var i :| 0 <= i < |a| && a[i].UniqueIdentifier? && uid <= a[i].data;
      assert c[i] == a[i];
    }
    if Tells(b, uid) {
      var i :| 0 <= i < |b| && b[i].UniqueIdentifier? && uid <= b[i].data;
      assert c[|a| + i] == b[i];
    }
    if NoneOther(c, uid) {
      forall i | 0 <= i < |b| && b[i].UniqueIdentifier?
        ensures uid <= b[i].data
      {
        assert c[|a| + i] == b[i];
      }
    }
  }

  lemma ValidIff(m: Message, origin: Bytes8, uid: Bytes)
    ensures ValidServerResponse(m, RequestId(origin, Some(uid)), true) <==> m.origin == origin && Identifies(m, uid)
  {
    hide CheckUid, NoneOther, Tells;
    CheckedUid(m.efdata.authenticated, uid);
    CheckedUid(m.efdata.encrypted, uid);
    CheckedUid(m.efdata.untrusted, uid);
    Joined(m.efdata.authenticated, m.efdata.encrypted, uid);
  }

  /** On every run, exactly which messages are taken for an answer to the last poll. */
  lemma AnswersIff(s: Source, evs: seq<Event>, m: Message, now: int)
    requires Stocked(s) && s.request == None
    ensures Answers(After(s, evs), m, now) <==> Heard(s, evs, m, now)
  {
    hide ValidServerResponse, Identifies, Outstanding, After;
    RequestTracked(s, evs);
    if Outstanding(s, evs).Some? {
      var poll := evs[Outstanding(s, evs).value].poll;
      if s.cookies.Some? {
        ValidIff(m, poll.origin, poll.uid);
      } else {
        PlainValid(m, poll.origin);
      }
    }
  }

  lemma PlainValid(m: Message, origin: Bytes8)
    ensures ValidServerResponse(m, RequestId(origin, None), false) <==> m.origin == origin
  {
  }

  /**
   On every run, exactly which packets reach the clock algorithm: those from a server, with a stratum of 1 to 16,
   that answer the last poll. All that do not answer it are ignored, with no effect on the association.
   */
  lemma AcceptedIff(s: Source, evs: seq<Event>, m: Message, now: int)
    requires Stocked(s) && s.request == None
    ensures var all := evs + [Incoming(m, now)];
            && (LastOutcome(s, all).Accepted? <==> Heard(s, evs, m, now) && m.mode == Server && 1 <= m.stratum <= MAX_STRATUM)
            && (!Heard(s, evs, m, now) ==> LastOutcome(s, all) == Nothing && After(s, all) == After(s, evs))
  {
    hide Heard, Answers, After;
    var ev := Incoming(m, now);
    AnswersIff(s, evs, m, now);
    AfterOne(s, evs, ev);
    assert (evs + [ev])[..|evs|] == evs;
  }

  /** Every packet that reaches the clock algorithm answers the last poll, which nothing answered
      before, within its time window; so there are no more answers than polls. With NTS it proves so. */
  lemma AcceptedAnswersLastPoll(limits: Limits, protocol: ProtocolVersion, cookies: Option<seq<Bytes>>, evs: seq<Event>)
    requires Stocked(Fresh(limits, protocol, cookies)) && evs != []
    requires LastOutcome(Fresh(limits, protocol, cookies), evs).Accepted?
    ensures var s := Fresh(limits, protocol, cookies);
            var n := |evs| - 1;
            && Outstanding(s, evs[..n]).Some?
            && var poll := evs[Outstanding(s, evs[..n]).value].poll;
            && evs[n].Incoming? && evs[n].now <= poll.now + POLL_WINDOW
            && evs[n].msg.origin == poll.origin
            && (cookies.Some? ==>
                  var proven := evs[n].msg.efdata.authenticated + evs[n].msg.efdata.encrypted;
                  Tells(proven, poll.uid) && NoneOther(proven, poll.uid))
    ensures Accepts(Fresh(limits, protocol, cookies), evs) <= Sends(Fresh(limits, protocol, cookies), evs)
  {
    hide Step, After, Outstanding, Accepts, Sends, LastOutcome, Tells, NoneOther;
    var s := Fresh(limits, protocol, cookies);
    var n := |evs| - 1;
    RequestTracked(s, evs);
    AcceptedIncoming(s, evs);
    assert evs[..n] + [Incoming(evs[n].msg, evs[n].now)] == evs;
    AcceptedIff(s, evs[..n], evs[n].msg, evs[n].now);
  }

  lemma AcceptedIncoming(s: Source, evs: seq<Event>)
    requires Stocked(s) && evs != [] && LastOutcome(s, evs).Accepted?
    ensures evs[|evs| - 1].Incoming?
  {
    hide Step, After;
    StepRequest(After(s, evs[..|evs| - 1]), evs[|evs| - 1]);
  }

  /** An association never holds a stratum that a synchronised or unsynchronised server may not have. */
  lemma {:induction false} StratumInRange(limits: Limits, protocol: ProtocolVersion, cookies: Option<seq<Bytes>>, evs: seq<Event>)
    requires Stocked(Fresh(limits, protocol, cookies))
    ensures 1 <= After(Fresh(limits, protocol, cookies), evs).stratum <= MAX_STRATUM
  {
    hide Step;
    if evs != [] {
      var s := Fresh(limits, protocol, cookies);
      StratumInRange(limits, protocol, cookies, evs[..|evs| - 1]);
      StepRequest(After(s, evs[..|evs| - 1]), evs[|evs| - 1]);
    }
  }

  /* ---- Reachability and giving up ---- */

  lemma HalfOfMod(x: nat, m: int)
    requires m > 0
    ensures (x % (2 * m)) % 2 == x % 2 && (x % (2 * m)) / 2 == (x / 2) % m
  {
    var q, r := x / (2 * m), x % (2 * m);
    assert x == q * (2 * m) + r;
    MulAssociative(q, 2, m);
    assert x == 2 * (q * m) + r && x / 2 == q * m + r / 2;
    DivisionBounds(x / 2, q, m);
  }

  lemma {:induction false} LowBitsDecide(x: nat, w: nat)
    ensures TrailingZeros(x % Pow2(w), w) == TrailingZeros(x, w)
  {
    if w > 0 {
      HalfOfMod(x, Pow2(w - 1));
      LowBitsDecide(x / 2, w - 1);
    }
  }

  lemma {:induction false} WiderCount(x: nat, w: nat)
    ensures TrailingZeros(x, w) == Min(w, TrailingZeros(x, w + 1))
  {
    if w > 0 {
      WiderCount(x / 2, w - 1);
    }
  }

  lemma {:induction false} ZeroIffAllZeros(x: nat, w: nat)
    requires x < Pow2(w)
    ensures TrailingZeros(x, w) == w <==> x == 0
  {
    if w > 0 {
      ZeroIffAllZeros(x / 2, w - 1);
    }
  }

  /** A poll adds one to the count of unanswered polls, up to eight; a packet clears it. */
  lemma ReachCounts(reach: Byte)
    ensures UnansweredPolls(ReachPoll(reach)) == Min(8, UnansweredPolls(reach) + 1)
    ensures UnansweredPolls(ReachReceived(reach)) == 0
    ensures reach == 0 <==> UnansweredPolls(reach) == 8
  {
    hide TrailingZeros;
    SmallPowers();
    ZeroIffAllZeros(reach, 8);
    ReachPolled(reach);
    ReachAnswered(reach);
  }

  lemma SmallPowers()
    ensures Pow2(8) == 256 && Pow2(7) == 128
  {
    assert Pow2(4) == 16;
    Pow2Add(4, 4);
    Pow2Step(3);
  }

  lemma ReachAnswered(reach: Byte)
    ensures TrailingZeros(ReachReceived(reach), 8) == 0
  {
  }

  lemma ReachPolled(reach: Byte)
    ensures TrailingZeros(ReachPoll(reach), 8) == Min(8, TrailingZeros(reach, 8) + 1)
  {
    SmallPowers();
    LowBitsDecide(2 * reach, 8);
    OneMoreZero(reach, 7);
    WiderCount(reach, 7);
  }

  lemma OneMoreZero(x: nat, w: nat)
    ensures TrailingZeros(2 * x, w + 1) == 1 + TrailingZeros(x, w)
  {
    assert (2 * x) / 2 == x && (2 * x) % 2 == 0;
  }

  /** How many polls went out since the last accepted packet; none if there never was one. */
  function PollsSinceAccepted(s: Source, evs: seq<Event>): Option<nat>
    requires Stocked(s)
  {
    if evs == [] then None
    else
      var before := PollsSinceAccepted(s, evs[..|evs| - 1]);
      match LastOutcome(s, evs)
      case Sent(_, _, _, _) => if before.Some? then Some(before.value + 1) else None
      case Accepted => Some(0)
      case _ => before
  }

  /** Whether the server refused service since the last accepted packet. */
  function DeniedSinceAccepted(s: Source, evs: seq<Event>): bool
    requires Stocked(s)
  {
    if evs == [] then false
    else
      var ev, p := evs[|evs| - 1], After(s, evs[..|evs| - 1]);
      if LastOutcome(s, evs).Accepted? then false
      else
        || DeniedSinceAccepted(s, evs[..|evs| - 1])
        || (ev.Incoming? && Answers(p, ev.msg, ev.now) && (IsKissRstr(ev.msg) || IsKissDeny(ev.msg)))
  }

  function ExpectedUnanswered(since: Option<nat>): nat {
    match since
    case None => 8
    case Some(n) => Min(8, n)
  }

  lemma StepReach(s: Source, ev: Event)
    requires s.cookies == None
    ensures var (r, o) := Step(s, ev);
            match o
            case Sent(_, _, _, _) => r.reach == ReachPoll(s.reach) && r.tries == Min(s.tries + 1, USIZE_MAX) && r.denied == s.denied
            case Accepted => r.reach == ReachReceived(s.reach) && r.tries == s.tries && !r.denied
            case _ => r.reach == s.reach && r.tries == s.tries
    ensures var (r, o) := Step(s, ev);
            !o.Accepted? ==>
              (r.denied <==> s.denied || (ev.Incoming? && Answers(s, ev.msg, ev.now) &&
                                          (IsKissRstr(ev.msg) || IsKissDeny(ev.msg))))
  {
  }

  lemma {:induction false} ReachTracked(limits: Limits, protocol: ProtocolVersion, evs: seq<Event>)
    ensures var s := Fresh(limits, protocol, None);
            var r := After(s, evs);
            && UnansweredPolls(r.reach) == ExpectedUnanswered(PollsSinceAccepted(s, evs))
            && r.tries == Min(Sends(s, evs), USIZE_MAX)
            && (r.denied <==> DeniedSinceAccepted(s, evs))
  {
    var s := Fresh(limits, protocol, None);
    if evs == [] {
      ReachCounts(0);
    } else {
      hide Step, UnansweredPolls, Answers, ReachPoll, ReachReceived;
      ReachTracked(limits, protocol, evs[..|evs| - 1]);
      var p := After(s, evs[..|evs| - 1]);
      StepReach(p, evs[|evs| - 1]);
      ReachCounts(p.reach);
    }
  }

  /** An association without NTS gives up exactly when it has polled three times or more and none of
      the last eight polls was answered; it gives up for good exactly when service was refused
      since the last accepted packet. */
  lemma GivesUpExactly(limits: Limits, protocol: ProtocolVersion, evs: seq<Event>, poll: Poll)
    ensures var s := Fresh(limits, protocol, None);
            var o := LastOutcome(s, evs + [Timer(poll)]);
            var silent := match PollsSinceAccepted(s, evs) case None => true case Some(n) => n >= 8;
            && (o.Reset? || o.Demobilize? <==> Sends(s, evs) >= STARTUP_TRIES_THRESHOLD && silent)
            && (o.Demobilize? <==>
                  Sends(s, evs) >= STARTUP_TRIES_THRESHOLD && silent && DeniedSinceAccepted(s, evs))
  {
    var s := Fresh(limits, protocol, None);
    ReachTracked(limits, protocol, evs);
    ReachCounts(After(s, evs).reach);
    assert (evs + [Timer(poll)])[..|evs|] == evs;
    hide UnansweredPolls;
  }

  /* ---- Protocol version ---- */

  /** How many packets of a run were valid answers to the poll outstanding then. */
  function ValidAnswers(s: Source, evs: seq<Event>): nat
    requires Stocked(s)
  {
    if evs == [] then 0
    else
      var ev := evs[|evs| - 1];
      ValidAnswers(s, evs[..|evs| - 1])
      + if ev.Incoming? && Answers(After(s, evs[..|evs| - 1]), ev.msg, ev.now) then 1 else 0
  }

  lemma UpgradeStep(s: Source, ev: Event)
    requires Stocked(s) && Step(s, ev).0.protocol.UpgradingToV5?
    ensures s.protocol.UpgradingToV5?
    ensures var t, t' := s.protocol.triesLeft, Step(s, ev).0.protocol.triesLeft;
            if ev.Incoming? && Answers(s, ev.msg, ev.now) then t >= 2 && t' == t - 1 else t' == t
  {
  }

  /** While an association is still upgrading, each valid answer has used up one of its tries; so it has
      settled on a version after at most as many valid answers as it had tries, or one. */
  lemma {:induction false} UpgradeEnds(s: Source, evs: seq<Event>)
    requires Stocked(s) && s.protocol.UpgradingToV5?
    ensures var p := After(s, evs).protocol;
            p.UpgradingToV5? ==>
              && p.triesLeft + ValidAnswers(s, evs) == s.protocol.triesLeft
              && ValidAnswers(s, evs) < Max(1, s.protocol.triesLeft)
  {
    hide Step, Answers;
    if evs != [] && After(s, evs).protocol.UpgradingToV5? {
      UpgradeEnds(s, evs[..|evs| - 1]);
      UpgradeStep(After(s, evs[..|evs| - 1]), evs[|evs| - 1]);
    }
  }

  lemma SettledStep(s: Source, ev: Event)
    requires Stocked(s)
    ensures s.protocol.OnlyV4? || s.protocol.OnlyV5? ==> Step(s, ev).0.protocol == s.protocol
    ensures Step(s, ev).1.Accepted? && ev.Incoming? && ev.msg.version.Ntp5? ==> Step(s, ev).0.protocol.OnlyV5?
  {
  }

  /** Once an association speaks one version only, it does so for ever. */
  lemma {:induction false} ProtocolSettles(s: Source, evs: seq<Event>)
    requires Stocked(s) && (s.protocol.OnlyV4? || s.protocol.OnlyV5?)
    ensures After(s, evs).protocol == s.protocol
  {
    hide Step;
    if evs != [] {
      ProtocolSettles(s, evs[..|evs| - 1]);
      SettledStep(After(s, evs[..|evs| - 1]), evs[|evs| - 1]);
    }
  }

  /** After the first accepted version 5 packet of a run, version 4 never returns. */
  lemma NeverBackToV4(s: Source, evs: seq<Event>, i: nat)
    requires Stocked(s) && i < |evs| && evs[i].Incoming? && evs[i].msg.version.Ntp5?
    requires LastOutcome(s, evs[..i + 1]).Accepted?
    ensures After(s, evs).protocol == OnlyV5
  {
    hide Step;
    assert evs[..i + 1][..i] == evs[..i];
    SettledStep(After(s, evs[..i]), evs[i]);
    AfterAppend(s, evs[..i + 1], evs[i + 1..]);
    assert evs[..i + 1] + evs[i + 1..] == evs;
    ProtocolSettles(After(s, evs[..i + 1]), evs[i + 1..]);
  }

  /* ---- The longest interval ---- */

  /** The clock algorithm never wishes for the longest interval. */
  predicate ModestWishes(evs: seq<Event>) {
    forall i :: 0 <= i < |evs| && evs[i].Timer? ==> evs[i].poll.desired < 127
  }

  /** Only a version 5 server can impose the longest interval. */
  predicate BelowLongest(s: Source) {
    s.protocol.OnlyV5? || (s.remoteMin < 127 && s.lastPoll < 127)
  }

  lemma BelowLongestStep(s: Source, ev: Event)
    requires Stocked(s) && s.limits.max < 127 && BelowLongest(s) && (ev.Timer? ==> ev.poll.desired < 127)
    ensures BelowLongest(Step(s, ev).0)
  {
  }

  lemma {:induction false} BelowLongestRun(s: Source, evs: seq<Event>)
    requires Stocked(s) && s.limits.max < 127 && BelowLongest(s) && ModestWishes(evs)
    ensures BelowLongest(After(s, evs))
  {
    hide Step, BelowLongest;
    if evs != [] {
      BelowLongestRun(s, evs[..|evs| - 1]);
      BelowLongestStep(After(s, evs[..|evs| - 1]), evs[|evs| - 1]);
    }
  }

  /**
   Within limits below the longest interval, whenever a run comes to a rate kiss that makes it count the
   imposed interval up, that interval is not the longest: the increment never overflows.
   */
  lemma NeverOverflows(limits: Limits, protocol: ProtocolVersion, cookies: Option<seq<Bytes>>, evs: seq<Event>,
                       m: Message, now: int)
    requires limits.min < 127 && limits.max < 127 && ModestWishes(evs)
    requires Stocked(Fresh(limits, protocol, cookies))
    requires var s := After(Fresh(limits, protocol, cookies), evs); Answers(s, m, now) && IsKissRate(m, s.lastPoll)
    ensures After(Fresh(limits, protocol, cookies), evs).remoteMin < 127
  {
    hide Step, After;
    var s := Fresh(limits, protocol, cookies);
    IntervalRun(s, evs);
    BelowLongestRun(s, evs);
  }
}
