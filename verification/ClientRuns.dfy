/** How often an association polls, in which version and with which header, on every run. */
module ClientRuns {
  import opened Bytes
  import opened Protocol
  import opened Headers
  import opened ExtensionFields
  import opened Associations
  import opened AssociationRuns

  /* ---- The interval ---- */

  /**
   On every run a poll goes out at the interval that the clock algorithm wishes for, or at the one that the server
   imposes, whichever is longer. It is remembered, and is the poll byte of the packet.
   */
  lemma SentInterval(s: Source, evs: seq<Event>, poll: Poll)
    requires Stocked(s) && LastOutcome(s, evs + [Timer(poll)]).Sent?
    ensures var o, imposed := LastOutcome(s, evs + [Timer(poll)]), After(s, evs).remoteMin;
            && o.interval >= poll.desired && o.interval >= imposed && (o.interval == poll.desired || o.interval == imposed)
            && After(s, evs + [Timer(poll)]).lastPoll == o.interval
            && PollOf(Write(o.header, NumberOf(o.ver))[2]) == o.interval
  {
    hide After;
    var ev, p := Timer(poll), After(s, evs);
    AfterOne(s, evs, ev);
    assert (evs + [ev])[..|evs|] == evs;
    TimerInterval(p, poll);
  }

  lemma TimerInterval(s: Source, poll: Poll)
    requires Stocked(s) && TimerStep(s, poll).1.Sent?
    ensures var (r, o) := TimerStep(s, poll);
            && o.interval >= poll.desired && o.interval >= s.remoteMin && (o.interval == poll.desired || o.interval == s.remoteMin)
            && r.lastPoll == o.interval && PollOf(Write(o.header, NumberOf(o.ver))[2]) == o.interval
  {
    hide NtsPollFields, PlainPollFields, NewCookies;
  }

  /** The interval that is imposed after the first `i` events bounds all later polls. */
  lemma ImposedHolds(limits: Limits, protocol: ProtocolVersion, cookies: Option<seq<Bytes>>, evs: seq<Event>, i: nat, poll: Poll)
    requires SafeLimits(limits) && Stocked(Fresh(limits, protocol, cookies)) && i <= |evs|
    requires LastOutcome(Fresh(limits, protocol, cookies), evs + [Timer(poll)]).Sent?
    ensures var s := Fresh(limits, protocol, cookies);
            LastOutcome(s, evs + [Timer(poll)]).interval >= After(s, evs[..i]).remoteMin
  {
    hide After, LastOutcome;
    var s := Fresh(limits, protocol, cookies);
    IntervalRun(s, evs[..i]);
    IntervalRun(After(s, evs[..i]), evs[i..]);
    AfterAppend(s, evs[..i], evs[i..]);
    assert evs[..i] + evs[i..] == evs;
    SentInterval(s, evs, poll);
  }

  /** The interval that an accepted version 5 packet asks for is kept by all polls after it. */
  lemma HonoursServer(limits: Limits, protocol: ProtocolVersion, cookies: Option<seq<Bytes>>, evs: seq<Event>, i: nat, poll: Poll)
    requires SafeLimits(limits) && Stocked(Fresh(limits, protocol, cookies))
    requires i < |evs| && evs[i].Incoming? && evs[i].msg.version == Ntp5
    requires LastOutcome(Fresh(limits, protocol, cookies), evs[..i + 1]).Accepted?
    requires LastOutcome(Fresh(limits, protocol, cookies), evs + [Timer(poll)]).Sent?
    ensures LastOutcome(Fresh(limits, protocol, cookies), evs + [Timer(poll)]).interval >= evs[i].msg.poll
  {
    hide After;
    var s := Fresh(limits, protocol, cookies);
    assert evs[..i + 1][..i] == evs[..i];
    AfterOne(s, evs[..i], evs[i]);
    assert evs[..i] + [evs[i]] == evs[..i + 1];
    AcceptedImposes(After(s, evs[..i]), evs[i].msg, evs[i].now);
    ImposedHolds(limits, protocol, cookies, evs, i + 1, poll);
  }

  lemma AcceptedImposes(s: Source, m: Message, now: int)
    requires Stocked(s) && IncomingStep(s, m, now).1.Accepted?
    ensures IncomingStep(s, m, now).0.remoteMin == if m.version == Ntp5 then Max(s.remoteMin, m.poll) else s.remoteMin
  {
    hide Answers, ResponseCookies, EnqueueAll;
  }

  /** A refusal because of polling too often. */
  predicate RateLimited(m: Message, own: I8) {
    m.stratum == 0 && if m.version == Ntp5 then own < m.poll < NEVER else m.code == Rate
  }

  /** After one that answers a poll, all polls are at least as far apart as that one was, and one step further than
      what was imposed before, up to the limit. */
  lemma BacksOff(limits: Limits, protocol: ProtocolVersion, cookies: Option<seq<Bytes>>, evs: seq<Event>, i: nat, poll: Poll)
    requires SafeLimits(limits) && Stocked(Fresh(limits, protocol, cookies)) && i < |evs| && evs[i].Incoming?
    requires var s := Fresh(limits, protocol, cookies);
             && Heard(s, evs[..i], evs[i].msg, evs[i].now) && RateLimited(evs[i].msg, After(s, evs[..i]).lastPoll)
             && LastOutcome(s, evs + [Timer(poll)]).Sent?
    ensures var s := Fresh(limits, protocol, cookies);
            var before, o := After(s, evs[..i]), LastOutcome(s, evs + [Timer(poll)]);
            o.interval >= before.lastPoll && o.interval >= Min(before.remoteMin + 1, limits.max)
  {
    hide After, Heard;
    var s := Fresh(limits, protocol, cookies);
    var before := After(s, evs[..i]);
    AnswersIff(s, evs[..i], evs[i].msg, evs[i].now);
    IntervalRun(s, evs[..i]);
    AfterOne(s, evs[..i], evs[i]);
    assert evs[..i] + [evs[i]] == evs[..i + 1];
    RateImposes(before, evs[i].msg, evs[i].now);
    ImposedHolds(limits, protocol, cookies, evs, i + 1, poll);
  }

  lemma RateImposes(s: Source, m: Message, now: int)
    requires Stocked(s) && Answers(s, m, now) && RateLimited(m, s.lastPoll) && SafeLimits(s.limits)
    requires IntervalKnown(s) && s.limits.min <= s.lastPoll
    ensures var r := IncomingStep(s, m, now).0.remoteMin; r >= s.lastPoll && r >= Min(s.remoteMin + 1, s.limits.max)
  {
    hide ValidServerResponse;
  }

  /* ---- The header ---- */

  /**
   The first 48 bytes of every poll: version and client mode, and the random bytes that the answer must carry back,
   where the version has them. Only a version 4 poll of an upgrade that goes on without NTS asks for version 5.
   */
  lemma SentHeaderBytes(s: Source, evs: seq<Event>, poll: Poll)
    requires Stocked(s) && LastOutcome(s, evs + [Timer(poll)]).Sent?
    ensures var o := LastOutcome(s, evs + [Timer(poll)]);
            var b := Write(o.header, NumberOf(o.ver));
            && b[0] == (if o.ver == V5 then 43 else 35)
            && (if o.ver == V5 then b[24..32] else b[40..48]) == poll.origin
            && (o.ver == V4 ==> b[16..24] == if After(s, evs).protocol.UpgradingToV5? then UPGRADE else ZEROS8)
  {
    hide After;
    assert (evs + [Timer(poll)])[..|evs|] == evs;
    TimerHeader(After(s, evs), poll);
  }

  lemma TimerHeader(s: Source, poll: Poll)
    requires Stocked(s) && TimerStep(s, poll).1.Sent?
    ensures var o := TimerStep(s, poll).1;
            var b := Write(o.header, NumberOf(o.ver));
            && b[0] == (if o.ver == V5 then 43 else 35)
            && (if o.ver == V5 then b[24..32] else b[40..48]) == poll.origin
            && (o.ver == V4 ==> b[16..24] == if s.protocol.UpgradingToV5? then UPGRADE else ZEROS8)
  {
    hide NtsPollFields, PlainPollFields, NewCookies, FirstByte;
    var o := TimerStep(s, poll).1;
    var h := o.header;
    assert Write(h, NumberOf(o.ver)) + [] == Write(h, NumberOf(o.ver));
    if o.ver == V5 {
      Slices([FirstByte(0, 5, CLIENT_MODE), 0, h.poll, 0], h.delay, h.dispersion, [0, 0, 0, Flags(h)],
             h.serverCookie, h.clientCookie, h.receive, h.transmit, []);
      FirstByteIs(5);
    } else {
      Slices([FirstByte(0, 4, CLIENT_MODE), 0, h.poll, 0], h.delay, h.dispersion, h.referenceId,
             h.reference, h.origin, h.receive, h.transmit, []);
      FirstByteIs(4);
    }
  }

  lemma FirstByteIs(v: Bits3)
    ensures FirstByte(0, v, CLIENT_MODE) == 8 * v + 3
  {
  }

  /* ---- The version ---- */

  /**
   On every run without NTS: polls are in version 5 once that is settled, and after the server agreed to it until
   two of them in a row went unanswered; otherwise they are in version 4.
   */
  lemma SentVersion(limits: Limits, protocol: ProtocolVersion, evs: seq<Event>, poll: Poll)
    requires LastOutcome(Fresh(limits, protocol, None), evs + [Timer(poll)]).Sent?
    ensures var s := Fresh(limits, protocol, None);
            var p, since := After(s, evs).protocol, PollsSinceAccepted(s, evs);
            LastOutcome(s, evs + [Timer(poll)]).ver == V5 <==>
            p == OnlyV5 || (p == UpgradedToV5 && since.Some? && since.value < AFTER_UPGRADE_TRIES_THRESHOLD)
  {
    hide After, UnansweredPolls;
    var s := Fresh(limits, protocol, None);
    assert (evs + [Timer(poll)])[..|evs|] == evs;
    ReachTracked(limits, protocol, evs);
  }

  /** A valid answer with the mark by which the server agrees to version 5. */
  ghost predicate Marked(s: Source, evs: seq<Event>, i: nat)
    requires Stocked(s)
  {
    i < |evs| && evs[i].Incoming? && Answers(After(s, evs[..i]), evs[i].msg, evs[i].now)
    && evs[i].msg.version == Ntp4 && evs[i].msg.upgrade
  }

  /** While none came, each valid answer uses up a try, and the last one settles on version 4. */
  lemma {:induction false} UpgradeRunsOut(s: Source, evs: seq<Event>)
    requires Stocked(s) && s.protocol.UpgradingToV5? && forall i :: 0 <= i < |evs| ==> !Marked(s, evs, i)
    ensures var t, n := s.protocol.triesLeft, ValidAnswers(s, evs);
            After(s, evs).protocol == if n < Max(1, t) then UpgradingToV5(t - n) else OnlyV4
  {
    hide Step, Answers;
    if evs != [] {
      var init := evs[..|evs| - 1];
      forall i | 0 <= i < |init|
        ensures !Marked(s, init, i)
      {
        assert init[..i] == evs[..i] && !Marked(s, evs, i);
      }
      UpgradeRunsOut(s, init);
      assert !Marked(s, evs, |evs| - 1);
      ProtocolMoves(After(s, init), evs[|evs| - 1]);
    }
  }

  /** The first that comes in time switches to version 5, which the next valid answer then settles. */
  lemma UpgradeTaken(s: Source, evs: seq<Event>, i: nat)
    requires Stocked(s) && s.protocol.UpgradingToV5? && Marked(s, evs, i) && forall j :: 0 <= j < i ==> !Marked(s, evs, j)
    requires ValidAnswers(s, evs[..i]) < Max(1, s.protocol.triesLeft)
    ensures After(s, evs[..i + 1]).protocol == UpgradedToV5
    ensures i + 1 < |evs| && evs[i + 1].Incoming? && Answers(After(s, evs[..i + 1]), evs[i + 1].msg, evs[i + 1].now) ==>
              After(s, evs[..i + 2]).protocol == OnlyV5
  {
    hide Step, Answers;
    forall j | 0 <= j < i
      ensures !Marked(s, evs[..i], j)
    {
      assert evs[..i][..j] == evs[..j] && !Marked(s, evs, j);
    }
    UpgradeRunsOut(s, evs[..i]);
    assert evs[..i + 1][..i] == evs[..i];
    ProtocolMoves(After(s, evs[..i]), evs[i]);
    if i + 1 < |evs| {
      assert evs[..i + 2][..i + 1] == evs[..i + 1];
      ProtocolMoves(After(s, evs[..i + 1]), evs[i + 1]);
    }
  }

  lemma ProtocolMoves(s: Source, ev: Event)
    requires Stocked(s)
    ensures var p, q := s.protocol, Step(s, ev).0.protocol;
            if ev.Incoming? && Answers(s, ev.msg, ev.now) then
              match p
              case UpgradingToV5(t) =>
                q == if ev.msg.version == Ntp4 && ev.msg.upgrade then UpgradedToV5 else if t <= 1 then OnlyV4 else UpgradingToV5(t - 1)
              case UpgradedToV5 => q == OnlyV5
              case _ => q == p
            else q == p || (ev.Timer? && p == UpgradedToV5 && q == OnlyV4)
  {
    hide ValidServerResponse, NtsPollFields, PlainPollFields, NewCookies, ResponseCookies, EnqueueAll;
  }
}
