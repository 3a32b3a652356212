/**
 A session: exchange after exchange under the cookies of the one before, while the server rotates its keys.
 */
module NtsSessions {
  import opened Bytes
  import opened Headers
  import opened ExtensionFields
  import opened EncryptedFields
  import K = KeySets
  import R = RateLimits
  import I = IpFilters
  import S = Servers
  import X = NtsExchange
  import Z = ResponseSizes
  import opened CookieStashes
  import opened Associations
  import opened NtsService
  import opened NtsAnswers
  import C = TimeTypes
  import M = Measurements
  import T = TimeExchanges
  import opened Packets

  /** One exchange: the keys that the server rotates in before it, and the inputs of the client and the server. */
  datatype Round = Round(rotations: seq<Bytes>, poll: Poll, nonce: Bytes, now: int,
                         config: S.Config, slots: R.Slots, hash: R.Hash, ip: I.IpAddr, at: R.Instant,
                         buffer: nat, supplies: S.Supplies)

  /** What a session depends on: the cipher, the keys in its cookies, and how many old keys the server keeps. */
  datatype Terms = Terms(siv: K.Siv, keys: K.Cookie, history: nat)

  ghost predicate ProperTerms(t: Terms) {
    K.ProperSiv(t.siv) && Z.Tight(t.siv) && K.ProperCookie(t.keys) && t.history < K.WORD32 - 1
  }

  function Rotations(rounds: seq<Round>): nat {
    if rounds == [] then 0 else |rounds[0].rotations| + Rotations(rounds[1..])
  }

  /** The server forgets no key within eight successive exchanges. */
  ghost predicate Paced(rounds: seq<Round>, history: nat) {
    forall i, j :: 0 <= i <= j <= |rounds| && j - i <= MAX_COOKIES ==> Rotations(rounds[i..j]) <= history
  }

  /** Made when the server's keys were the first `made` of these. */
  ghost predicate MadeAt(cookie: Bytes, all: seq<Bytes>, made: nat, t: Terms)
    requires t.history < K.WORD32 - 1
  {
    && 0 < made <= |all|
    && S.Usable(K.RotatedThrough(t.history, all[..made]).current)
    && MadeFrom(cookie, K.RotatedThrough(t.history, all[..made]).current, t.siv, t.keys)
  }

  /** It can still be decoded after so many rotations more. */
  ghost predicate Keeps(cookie: Bytes, all: seq<Bytes>, more: nat, t: Terms)
    requires t.history < K.WORD32 - 1
  {
    exists made :: MadeAt(cookie, all, made, t) && |all| + more - made <= t.history
  }

  /** Each cookie in the stock is good until it is used, the first one in the first round. */
  ghost predicate Lasting(q: seq<Bytes>, all: seq<Bytes>, rounds: seq<Round>, t: Terms)
    requires t.history < K.WORD32 - 1
  {
    forall i :: 0 <= i < |q| && i < |rounds| ==> Keeps(q[i], all, Rotations(rounds[..i + 1]), t)
  }

  /** A client in mid-session. */
  predicate InSession(s: Source) {
    Stocked(s) && s.cookies.Some? && s.cookies.value != [] && !s.protocol.UpgradingToV5? && !GivesUp(s)
  }

  /** The inputs are well formed, the server lets the client in, and the answer comes in time. */
  ghost predicate Fair(s: Source, r: Round, t: Terms)
    requires Stocked(s) && TimerStep(s, r.poll).1.Sent? && EfEncodable(TimerStep(s, r.poll).1.fields, TimerStep(s, r.poll).1.ver)
  {
    var o := TimerStep(s, r.poll).1;
    var message := SentPoll(s, r.poll, t.siv(t.keys.c2s), r.nonce);
    && S.ValidConfig(r.config) && NumberOf(o.ver) in r.config.acceptedVersions
    && 1 <= r.supplies.snapshot.stratum <= MAX_STRATUM && r.now <= r.poll.now + POLL_WINDOW
    && |message| <= r.buffer && S.Welcome(r.config, r.slots, r.hash, S.Arrival(r.ip, message, r.at, r.buffer, r.supplies))
  }

  ghost predicate ProperRound(r: Round) {
    |r.nonce| == NONCE_LENGTH && S.ProperSupplies(r.supplies) && X.ProperPoll(r.poll)
  }

  /** What the server does with the poll of this round. */
  function Answered(message: Bytes, r: Round, ks: K.KeySet, t: Terms): S.Outcome
    requires S.ValidConfig(r.config) && S.Usable(ks)
  {
    S.Handle(r.config, ks, t.siv, r.slots, r.hash, S.Arrival(r.ip, message, r.at, r.buffer, r.supplies)).0
  }

  /** The client after the answer. */
  function After(s: Source, r: Round, answer: Bytes, t: Terms): Source
    requires Stocked(s) && Stocked(TimerStep(s, r.poll).0)
  {
    match Received(answer, t.siv(t.keys.s2c))
    case None => TimerStep(s, r.poll).0
    case Some(m) => IncomingStep(TimerStep(s, r.poll).0, m, r.now).0
  }

  /** The client sends a poll in every round; and if each is let in and answered in time, each exchange completes. */
  ghost predicate Lasts(s: Source, all: seq<Bytes>, rounds: seq<Round>, t: Terms)
    requires t.history < K.WORD32 - 1
    decreases |rounds|
  {
    rounds != [] ==>
      var r, held := rounds[0], all + rounds[0].rotations;
      && held != [] && InSession(s) && TimerStep(s, r.poll).1.Sent?
      && EfEncodable(TimerStep(s, r.poll).1.fields, TimerStep(s, r.poll).1.ver)
      && var ks := K.RotatedThrough(t.history, held).current;
         && S.Usable(ks)
         && (Fair(s, r, t) ==>
               var out := Answered(SentPoll(s, r.poll, t.siv(t.keys.c2s), r.nonce), r, ks, t);
               && Completes(out, s, r.poll, r.now, ks, t.siv, t.keys)
               && Lasts(After(s, r, out.sent.value, t), held, rounds[1..], t))
  }

  /* ---- The stock keeps ---- */

  lemma MadeStill(cookie: Bytes, all: seq<Bytes>, more: seq<Bytes>, made: nat, t: Terms)
    requires t.history < K.WORD32 - 1
    ensures MadeAt(cookie, all, made, t) ==> MadeAt(cookie, all + more, made, t)
  {
    if 0 < made <= |all| {
      assert (all + more)[..made] == all[..made];
    }
  }

  lemma KeepsStill(cookie: Bytes, all: seq<Bytes>, next: seq<Bytes>, more: nat, t: Terms)
    requires t.history < K.WORD32 - 1 && Keeps(cookie, all, |next| + more, t)
    ensures Keeps(cookie, all + next, more, t)
  {
    hide MadeAt;
    var made :| MadeAt(cookie, all, made, t) && |all| + (|next| + more) - made <= t.history;
    MadeStill(cookie, all, next, made, t);
  }

  /** A cookie made now keeps while no more rotations follow than there is history. */
  lemma KeepsNew(cookie: Bytes, all: seq<Bytes>, more: nat, t: Terms)
    requires t.history < K.WORD32 - 1 && all != [] && more <= t.history
    requires S.Usable(K.RotatedThrough(t.history, all).current)
    requires MadeFrom(cookie, K.RotatedThrough(t.history, all).current, t.siv, t.keys)
    ensures Keeps(cookie, all, more, t)
  {
    hide MadeFrom;
    assert all[..|all|] == all;
    assert MadeAt(cookie, all, |all|, t);
  }

  lemma FirstRotations(rounds: seq<Round>, i: nat)
    requires i < |rounds|
    ensures Rotations(rounds[..i + 1]) == |rounds[0].rotations| + Rotations(rounds[1..][..i])
  {
    assert rounds[..i + 1][1..] == rounds[1..][..i];
  }

  lemma PacedRest(rounds: seq<Round>, history: nat)
    requires rounds != [] && Paced(rounds, history)
    ensures Paced(rounds[1..], history)
  {
    hide Rotations;
    forall i, j | 0 <= i <= j <= |rounds[1..]| && j - i <= MAX_COOKIES
      ensures Rotations(rounds[1..][i..j]) <= history
    {
      assert rounds[1..][i..j] == rounds[i + 1..j + 1];
    }
  }

  /** The cookies left move up by one place, and the new ones come behind them. */
  lemma LastingNext(q: seq<Bytes>, got: seq<Bytes>, all: seq<Bytes>, rounds: seq<Round>, t: Terms)
    requires t.history < K.WORD32 - 1 && rounds != [] && q != [] && |q[1..] + got| <= MAX_COOKIES
    requires Lasting(q, all, rounds, t) && Paced(rounds, t.history)
    requires all + rounds[0].rotations != []
    requires var ks := K.RotatedThrough(t.history, all + rounds[0].rotations).current;
             S.Usable(ks) && forall c :: c in got ==> MadeFrom(c, ks, t.siv, t.keys)
    ensures Lasting(q[1..] + got, all + rounds[0].rotations, rounds[1..], t)
  {
    hide Keeps, Rotations, MadeFrom, K.RotatedThrough;
    var next, rest := q[1..] + got, rounds[1..];
    forall i | 0 <= i < |next| && i < |rest|
      ensures Keeps(next[i], all + rounds[0].rotations, Rotations(rest[..i + 1]), t)
    {
      if i + 1 < |q| {
        FirstRotations(rounds, i + 1);
        KeepsStill(next[i], all, rounds[0].rotations, Rotations(rest[..i + 1]), t);
      } else {
        assert next[i] in got;
        assert rest[..i + 1] == rounds[1..i + 2];
        KeepsNew(next[i], all + rounds[0].rotations, Rotations(rest[..i + 1]), t);
      }
    }
  }

  /* ---- The client goes on ---- */

  /** A client in mid-session with a cookie of this server always sends a poll. */
  lemma AlwaysPolls(s: Source, poll: Poll, keys: K.Cookie)
    requires InSession(s) && K.ProperCookie(keys) && |s.cookies.value[0]| == K.LengthFor(keys)
    ensures TimerStep(s, poll).1.Sent?
  {
    hide NtsPollFields, HeaderFor;
  }

  /** After an accepted answer the client is reachable again, and has left the upgrade behind it. */
  lemma AcceptedSession(s: Source, poll: Poll, m: Message, now: int)
    requires InSession(s) && TimerStep(s, poll).1.Sent? && Refilled(s, poll, m, now)
    ensures InSession(IncomingStep(TimerStep(s, poll).0, m, now).0)
  {
    hide NtsPollFields, HeaderFor, ValidServerResponse, NewCookies, EnqueueAll, ResponseCookies;
  }

  lemma KeptLength(cookie: Bytes, all: seq<Bytes>, more: nat, t: Terms) returns (made: nat, nonce: Bytes)
    requires ProperTerms(t) && Keeps(cookie, all, more, t)
    ensures MadeAt(cookie, all, made, t) && |all| + more - made <= t.history && |nonce| == NONCE_LENGTH
    ensures cookie == K.EncodeCookie(K.RotatedThrough(t.history, all[..made]).current, t.siv, t.keys, nonce)
    ensures |cookie| == K.LengthFor(t.keys)
  {
    hide K.EncodeCookie, K.RotatedThrough, K.ProperSiv, K.ProperCookie;
    made :| MadeAt(cookie, all, made, t) && |all| + more - made <= t.history;
    var ks := K.RotatedThrough(t.history, all[..made]).current;
    nonce :| |nonce| == NONCE_LENGTH && cookie == K.EncodeCookie(ks, t.siv, t.keys, nonce);
    K.CookieLength(ks, t.siv, t.keys, nonce);
  }

  /** One round of a session. */
  lemma RoundCompletes(s: Source, r: Round, all: seq<Bytes>, t: Terms)
    requires ProperTerms(t) && ProperRound(r) && InSession(s)
    requires Keeps(s.cookies.value[0], all, |r.rotations|, t)
    ensures var held := all + r.rotations;
            && TimerStep(s, r.poll).1.Sent? && held != []
            && EfEncodable(TimerStep(s, r.poll).1.fields, TimerStep(s, r.poll).1.ver)
            && var ks := K.RotatedThrough(t.history, held).current;
               && S.Usable(ks)
               && (Fair(s, r, t) ==> Completes(Answered(SentPoll(s, r.poll, t.siv(t.keys.c2s), r.nonce), r, ks, t), s, r.poll, r.now, ks, t.siv, t.keys))
  {
    hide K.EncodeCookie, K.RotatedThrough, K.ProperSiv, K.ProperCookie, Z.Tight, S.Handle, S.Welcome, Completes, EfEncodable;
    hide NtsPollFields, TimerStep, SentPoll, MadeFrom, S.ProperSupplies;
    var made, nonce := KeptLength(s.cookies.value[0], all, |r.rotations|, t);
    AlwaysPolls(s, r.poll, t.keys);
    var held := all + r.rotations;
    MadeStill(s.cookies.value[0], all, r.rotations, made, t);
    assert held[..made] == all[..made];
    UsableKeys(t.history, held);
    PollFieldsFit(s, r.poll, t.siv, t.keys.c2s, r.nonce);
    if Fair(s, r, t) {
      ExchangeCompletes(s, r.poll, r.now, t.history, held, made, t.keys, nonce, r.nonce, t.siv,
                        r.config, r.slots, r.hash, r.ip, r.at, r.buffer, r.supplies);
    }
  }

  lemma PollFieldsFit(s: Source, poll: Poll, siv: K.Siv, key: Bytes, nonce: Bytes)
    requires InSession(s) && TimerStep(s, poll).1.Sent? && X.ProperPoll(poll) && K.ProperSiv(siv) && |nonce| == NONCE_LENGTH
    ensures EfEncodable(TimerStep(s, poll).1.fields, TimerStep(s, poll).1.ver)
  {
    hide TimerStep, EfEncodable, Serialized, Write, K.ProperSiv;
    var o := TimerStep(s, poll).1;
    OpensOwn(siv, key);
    OpensTagged(siv(key), siv(key));
    X.SentPollFits(s, poll, Write(o.header, NumberOf(o.ver)), siv(key), nonce);
  }

  /**
   A session goes on for as long as its exchanges are let in and answered in time, whatever the number of rounds
   and of rotations: it is enough that the cookies of the start are good for the rounds in which they are used,
   and that no eight successive rounds see more rotations than the server keeps old keys.
   */
  lemma {:induction false} SessionLasts(s: Source, all: seq<Bytes>, rounds: seq<Round>, t: Terms)
    requires ProperTerms(t) && (forall r :: r in rounds ==> ProperRound(r)) && InSession(s)
    requires Lasting(s.cookies.value, all, rounds, t) && Paced(rounds, t.history)
    ensures Lasts(s, all, rounds, t)
    decreases |rounds|
  {
    hide K.RotatedThrough, K.ProperSiv, K.ProperCookie, Z.Tight, EfEncodable, Answered, SentPoll, InSession, S.Welcome, S.ValidConfig;
    hide TimerStep, IncomingStep, Keeps, Paced, ProperRound, Lasting, Refilled, Renews, Received;
    if rounds != [] {
      var r := rounds[0];
      StockOf(s);
      FirstKeeps(s, all, rounds, t);
      RoundCompletes(s, r, all, t);
      var held := all + r.rotations;
      var ks := K.RotatedThrough(t.history, held).current;
      if Fair(s, r, t) {
        var out := Answered(SentPoll(s, r.poll, t.siv(t.keys.c2s), r.nonce), r, ks, t);
        SessionNext(s, all, rounds, t, out.sent.value);
        PacedRest(rounds, t.history);
        SessionLasts(After(s, r, out.sent.value, t), held, rounds[1..], t);
      }
    }
  }

  lemma StockOf(s: Source)
    requires InSession(s)
    ensures Stocked(s) && s.cookies.Some? && s.cookies.value != []
  {
  }

  /** What the next round starts from. */
  lemma SessionNext(s: Source, all: seq<Bytes>, rounds: seq<Round>, t: Terms, answer: Bytes)
    requires t.history < K.WORD32 - 1 && InSession(s) && rounds != [] && TimerStep(s, rounds[0].poll).1.Sent?
    requires Lasting(s.cookies.value, all, rounds, t) && Paced(rounds, t.history) && all + rounds[0].rotations != []
    requires var m := Received(answer, t.siv(t.keys.s2c));
             var ks := K.RotatedThrough(t.history, all + rounds[0].rotations).current;
             && m.Some? && Refilled(s, rounds[0].poll, m.value, rounds[0].now)
             && S.Usable(ks) && Renews(ResponseCookies(m.value.efdata.encrypted), ks, t.siv, t.keys)
    ensures Stocked(TimerStep(s, rounds[0].poll).0)
    ensures var next := After(s, rounds[0], answer, t);
            InSession(next) && Lasting(next.cookies.value, all + rounds[0].rotations, rounds[1..], t)
  {
    hide K.RotatedThrough, TimerStep, IncomingStep, MadeFrom, Lasting, Paced, ResponseCookies, Received, K.DecodeCookie;
    var m := Received(answer, t.siv(t.keys.s2c)).value;
    AcceptedSession(s, rounds[0].poll, m, rounds[0].now);
    LastingNext(s.cookies.value, ResponseCookies(m.efdata.encrypted), all, rounds, t);
  }

  lemma FirstKeeps(s: Source, all: seq<Bytes>, rounds: seq<Round>, t: Terms)
    requires t.history < K.WORD32 - 1 && InSession(s) && rounds != [] && Lasting(s.cookies.value, all, rounds, t)
    ensures Keeps(s.cookies.value[0], all, |rounds[0].rotations|, t)
  {
    hide Keeps;
    FirstRotations(rounds, 0);
    assert rounds[1..][..0] == [];
  }

  /* ---- And the time is right ---- */

  /** The packet in an answer, as the client reads it. */
  function AnswerIn(answer: Bytes, t: Terms): Parse<()> {
    ReadWith(answer, ClientProvider(t.siv(t.keys.s2c)))
  }

  /**
   In each round that completes the client measures the true delay, and an offset that is wrong by at most half
   of it, from the server's clock at the arrival of the poll and at the departure of the answer.
   */
  lemma RoundMeasures(s: Source, r: Round, message: Bytes, ks: K.KeySet, t: Terms, f: M.Flight, id: M.ClockId)
    requires InSession(s) && TimerStep(s, r.poll).1.Sent? && S.ValidConfig(r.config) && S.Usable(ks) && M.WithinLimits(f)
    requires Completes(Answered(message, r, ks, t), s, r.poll, r.now, ks, t.siv, t.keys)
    ensures var answer := AnswerIn(Answered(message, r, ks, t).sent.value, t);
            && answer.Parsed?
            && (T.Clocked(r.supplies, f, answer.packet.version) ==>
                  M.Accurate(M.Result(T.TimesOf(answer.packet.header, C.Shown(f.t), C.Shown(f.t + f.d1 + f.w + f.d2)), id), f))
  {
    hide S.Handle, S.Panics, ReadWith, T.Clocked, T.TimesOf, M.WithinLimits, M.Accurate, M.Result, TimerStep, Refilled, Renews;
    hide ClientProvider;
    var a := S.Arrival(r.ip, message, r.at, r.buffer, r.supplies);
    S.PanicsIff(r.config, ks, t.siv, r.slots, r.hash, a);
    var answer := AnswerIn(Answered(message, r, ks, t).sent.value, t);
    if T.Clocked(r.supplies, f, answer.packet.version) {
      T.AnswerMeasures(r.config, ks, t.siv, r.slots, r.hash, a, f, id, ClientProvider(t.siv(t.keys.s2c)));
    }
  }
}
