/**
 Refusals end to end: a client whose cookies the server cannot use is told so and goes on, and one that the server
 does not serve is told so under the keys of its session, and leaves.
 */
module Refusals {
  import opened Bytes
  import opened Protocol
  import opened Headers
  import opened ExtensionFields
  import opened EncryptedFields
  import opened Packets
  import opened Associations
  import opened Responses
  import opened NtsService
  import opened NtsAnswers
  import P = PlainExchanges

  /* ---- What a refusal carries ---- */

  /** The identifier of the poll, and in version 5 the draft. */
  function Named(poll: Poll, ver: Version): seq<ExtField> {
    if ver == V4 then [UniqueIdentifier(poll.uid)] else [UniqueIdentifier(poll.uid), DraftIdentification(DRAFT_VERSION)]
  }

  lemma EchoNamed(cookie: Bytes, n: nat, poll: Poll, ver: Version)
    requires |cookie| <= 0xFFFF && n >= 1
    ensures var fs := NtsPollFields(cookie, n, poll, ver).authenticated;
            && Echo(fs, None) == [UniqueIdentifier(poll.uid)]
            && Signed(Echo(fs, None), NumberOf(ver)) == Named(poll, ver)
            && Signed(Echo(fs + [InvalidNtsEncryptedField], None), NumberOf(ver)) == Named(poll, ver)
  {
    hide Echo;
    var fs := NtsPollFields(cookie, n, poll, ver).authenticated;
    var uid, asks, trail := [UniqueIdentifier(poll.uid)], [NtsCookie(cookie)] + X.Placeholders(n - 1, |cookie|), X.Trail(poll, ver);
    assert fs == uid + (asks + trail);
    EchoJoin(uid, asks + trail, None);
    EchoJoin(asks, trail, None);
    EchoJoin(fs, [InvalidNtsEncryptedField], None);
    EchoSingle(UniqueIdentifier(poll.uid), None);
    EchoSingle(InvalidNtsEncryptedField, None);
    EchoCookies(asks, None);
    NoTrail(poll, ver);
  }

  lemma NoTrail(poll: Poll, ver: Version)
    ensures Echo(X.Trail(poll, ver), None) == []
  {
    if ver == V5 {
      hide Echo;
      var draft, req := DraftIdentification(DRAFT_VERSION), ReferenceIdRequest(BLOOM_CHUNK, poll.bloomOffset);
      EchoJoin([draft], [req], None);
      EchoSingle(draft, None);
      EchoSingle(req, None);
      assert [draft] + [req] == X.Trail(poll, ver);
    } else {
      NoneEchoed();
    }
  }

  lemma NoneEchoed()
    ensures Echo([], None) == []
  {
  }

  /** All identifiers there are those of the poll. */
  lemma NamedMatches(poll: Poll, ver: Version)
    ensures CheckUid(Named(poll, ver), poll.uid) == Some(true)
  {
    var fs := Named(poll, ver);
    assert fs[0] == UniqueIdentifier(poll.uid) && fs[0] in fs;
    assert CarriesUid(fs[0], poll.uid);
    assert forall f :: f in fs && f.UniqueIdentifier? ==> CarriesUid(f, poll.uid);
  }

  /* ---- A denial ---- */

  function DenialFields(poll: Poll, ver: Version): EfData {
    EfData(Named(poll, ver), [], [])
  }

  lemma DenialReadable(poll: Poll, ver: Version)
    requires |poll.uid| == 32
    ensures var d := DenialFields(poll, ver);
            EfReadable(d, ver) && EfEncodable(d, ver) && RereadData(d, ver) == d
  {
    hide Readable, RereadAll, WithMinimum, UntrustedSizes, AllEncodable, ReadAsWritten;
    var d := DenialFields(poll, ver);
    forall i | 0 <= i < |d.authenticated|
      ensures ReadAsWritten(d.authenticated[i], AUTHENTICATED_MINIMUM, ver)
    {
      ProofAsWritten(d.authenticated[i], ver);
    }
    AllAsWritten(d.authenticated, AUTHENTICATED_MINIMUM, ver);
    AllAsWritten([], 0, ver);
    PaddingUntrusted(0, ver);
    ReadableIsEncodable(d, ver);
  }

  /** The client reads a sealed denial as it was written. */
  lemma DenialRead(h: Header, poll: Poll, ver: Version, cipher: Cipher, nonce: Bytes)
    requires |poll.uid| == 32 && Suits(h, NumberOf(ver)) && Opens(cipher, cipher) && |nonce| == NONCE_LENGTH
    ensures var d := DenialFields(poll, ver);
            && EfEncodable(d, ver)
            && Received(Serialized(Write(h, NumberOf(ver)), d, cipher, nonce, ver), cipher) ==
               Some(MessageOf(NumberOf(ver), SettleLeap(h), d))
  {
    hide EfReadable, EfEncodable, RereadData, Deserialize, Serialized, SealedText, Write, ReadWith, SettleLeap, DraftId, SealedFits;
    var d, header := DenialFields(poll, ver), Write(h, NumberOf(ver));
    DenialReadable(poll, ver);
    PollSealFits(header, d, cipher, nonce, ver);
    RoundTrip(header, d, cipher, nonce, [], Other(cipher), ClientProvider(cipher), ver);
    var b := Serialized(header, d, cipher, nonce, ver);
    assert b + [] == b;
    HeaderFirst(header, d, cipher, nonce, ver);
    if ver == V5 {
      DenialDraft(poll);
    }
    var read: State<()> := State(d, true, None);
    ReadBehind(h, b, ver, ClientProvider(cipher), read);
  }

  lemma DenialDraft(poll: Poll)
    ensures DraftId(DenialFields(poll, V5)) == Some(DRAFT_VERSION)
  {
    FirstDraftAt([] + Named(poll, V5), 1);
  }

  function DenialFor(h: Header, cookie: Bytes, n: nat, poll: Poll, ver: Version, keys: K.Cookie): S.Reply
    requires |cookie| <= 0xFFFF && n >= 1
  {
    S.Reply(NtsDenyReply, Packet(NumberOf(ver), SettleLeap(h), NtsPollFields(cookie, n, poll, ver), None), Some(keys), None)
  }

  function RefusalHeader(b: Builder, h: Header, ver: Version, supplies: S.Supplies): Header {
    ResponseHeader(b, NumberOf(ver), SettleLeap(h), supplies.snapshot, supplies.readings)
  }

  /** A denial is sealed under the key for the way back. */
  lemma DenialBytes(h: Header, cookie: Bytes, n: nat, poll: Poll, ver: Version, keys: K.Cookie,
                    ks: K.KeySet, siv: K.Siv, supplies: S.Supplies)
    requires |cookie| <= 0xFFFF && n >= 1 && EfEncodable(DenialFields(poll, ver), ver)
    ensures S.ReplyBytes(DenialFor(h, cookie, n, poll, ver, keys), ks, siv, supplies) ==
            Some(Serialized(Write(RefusalHeader(NtsDenyReply, h, ver, supplies), NumberOf(ver)), DenialFields(poll, ver),
                            siv(keys.s2c), supplies.nonce, ver))
  {
    hide NtsPollFields, Echo, Signed, Write, Serialized, EfEncodable, Named, SettleLeap, ResponseHeader, IssuedCookies, K.EncodeCookie;
    EchoNamed(cookie, n, poll, ver);
    assert NeedsCipher(DenialFields(poll, ver)) by { NamedSome(poll, ver); }
  }

  lemma NamedSome(poll: Poll, ver: Version)
    ensures Named(poll, ver) != []
  {
  }

  /** To an answer that says so, the client leaves. */
  lemma DenialTold(s: Source, poll: Poll, now: int, supplies: S.Supplies)
    requires Stocked(s) && s.cookies.Some? && s.cookies.value != [] && TimerStep(s, poll).1.Sent?
    requires !s.protocol.UpgradingToV5? && now <= poll.now + POLL_WINDOW
    ensures Stocked(TimerStep(s, poll).0)
    ensures var o := TimerStep(s, poll).1;
            var m := MessageOf(NumberOf(o.ver), SettleLeap(RefusalHeader(NtsDenyReply, o.header, o.ver, supplies)), DenialFields(poll, o.ver));
            IncomingStep(TimerStep(s, poll).0, m, now).1 == Demobilize
  {
    hide TimerStep, NewCookies, NtsPollFields, Named, CheckUid, ExpectedVersion;
    SentState(s, poll);
    PollExpected(s, poll);
    SentHeader(s, poll);
    NamedMatches(poll, TimerStep(s, poll).1.ver);
  }

  /** The client's poll, under a cookie that the server can decode. */
  ghost predicate Polls(s: Source, poll: Poll, ks: K.KeySet, siv: K.Siv, keys: K.Cookie) {
    && Stocked(s) && s.cookies.Some? && s.cookies.value != [] && TimerStep(s, poll).1.Sent? && X.ProperPoll(poll)
    && K.ProperSiv(siv) && Z.Tight(siv)
    && X.ServerCookieLength(|s.cookies.value[0]|) && K.DecodeCookie(ks, siv, s.cookies.value[0]) == Some(keys)
  }

  /** What the client makes of what it is sent. */
  function Reaction(s: Source, poll: Poll, answer: Bytes, cipher: Cipher, now: int): Option<(Source, Outcome)>
    requires Stocked(s) && Stocked(TimerStep(s, poll).0)
  {
    match Received(answer, cipher)
    case None => None
    case Some(m) => Some(IncomingStep(TimerStep(s, poll).0, m, now))
  }

  lemma PollEncodable(s: Source, poll: Poll, siv: K.Siv, key: Bytes, nonce: Bytes)
    requires Stocked(s) && s.cookies.Some? && TimerStep(s, poll).1.Sent? && X.ProperPoll(poll) && K.ProperSiv(siv)
    requires |nonce| == NONCE_LENGTH
    ensures EfEncodable(TimerStep(s, poll).1.fields, TimerStep(s, poll).1.ver)
    ensures |SentPoll(s, poll, siv(key), nonce)| <= 0xFFFF
  {
    hide TimerStep, EfEncodable, Serialized, Write, K.ProperSiv;
    var o := TimerStep(s, poll).1;
    OpensOwn(siv, key);
    OpensTagged(siv(key), siv(key));
    X.SentPollFits(s, poll, Write(o.header, NumberOf(o.ver)), siv(key), nonce);
  }

  /**
   A client with a cookie of this server that is on the deny list, or not on the allow list, of a server that says
   so: the denial comes back sealed for its session, the client reads it, and stops using the server.
   */
  lemma DenialEnds(s: Source, poll: Poll, now: int, ks: K.KeySet, siv: K.Siv, keys: K.Cookie, nonce: Bytes,
                   c: S.Config, slots: R.Slots, hash: R.Hash, ip: I.IpAddr, at: R.Instant, buffer: nat, supplies: S.Supplies)
    requires Polls(s, poll, ks, siv, keys) && |nonce| == NONCE_LENGTH && S.ProperSupplies(supplies)
    requires !s.protocol.UpgradingToV5? && now <= poll.now + POLL_WINDOW
    requires S.ValidConfig(c) && NumberOf(TimerStep(s, poll).1.ver) in c.acceptedVersions && S.Refused(c, ip)
    ensures EfEncodable(TimerStep(s, poll).1.fields, TimerStep(s, poll).1.ver) && Stocked(TimerStep(s, poll).0)
    ensures var a := S.Arrival(ip, SentPoll(s, poll, siv(keys.c2s), nonce), at, buffer, supplies);
            |a.message| <= buffer ==>
              && !S.Panics(c, ks, siv, slots, hash, a)
              && var out := S.Handle(c, ks, siv, slots, hash, a).0;
                 && out.registration.response == S.Deny && out.sent.Some?
                 && var r := Reaction(s, poll, out.sent.value, siv(keys.s2c), now);
                    r.Some? && r.value.1 == Demobilize
  {
    hide TimerStep, NtsPollFields, Serialized, S.ReplyBytes, NewCookies, K.ProperSiv, EfEncodable, Z.Tight, S.CanSend, SettleLeap;
    hide K.DecodeCookie, S.Handle, S.Welcome, S.Refused, Write, ReadPacket, Received, IncomingStep, RefusalHeader, DenialFields;
    SentState(s, poll);
    SentHeader(s, poll);
    PollEncodable(s, poll, siv, keys.c2s, nonce);
    var q, o := s.cookies.value, TimerStep(s, poll).1;
    var n, a := NewCookies(|q| - 1, |q[0]|), S.Arrival(ip, SentPoll(s, poll, siv(keys.c2s), nonce), at, buffer, supplies);
    if |a.message| <= buffer {
      PollRead(o.header, q[0], n, poll, keys, nonce, o.ver, ks, siv);
      OpensOwn(siv, keys.c2s);
      PollUsual(Write(o.header, NumberOf(o.ver)), q[0], n, poll, siv(keys.c2s), nonce, o.ver);
      S.UsualCanSend(S.Deny, ks, siv, a);
      RefusedUnwelcome(c, slots, hash, a);
      S.PanicsIff(c, ks, siv, slots, hash, a);
      S.DeniedIff(c, ks, siv, slots, hash, a);
      S.SentIff(c, ks, siv, slots, hash, a);
      var h := RefusalHeader(NtsDenyReply, o.header, o.ver, supplies);
      OpensOwn(siv, keys.s2c);
      RefusalSuits(NtsDenyReply, o.header, o.ver, supplies);
      DenialRead(h, poll, o.ver, siv(keys.s2c), supplies.nonce);
      DenialBytes(o.header, q[0], n, poll, o.ver, keys, ks, siv, supplies);
      DenialTold(s, poll, now, supplies);
    }
  }

  lemma RefusedUnwelcome(c: S.Config, slots: R.Slots, hash: R.Hash, a: S.Arrival)
    requires S.ValidConfig(c) && S.Refused(c, a.ip)
    ensures !S.Welcome(c, slots, hash, a)
  {
  }

  lemma RefusalSuits(b: Builder, h: Header, ver: Version, supplies: S.Supplies)
    requires ClientHeader(h, ver)
    ensures Suits(RefusalHeader(b, h, ver, supplies), NumberOf(ver))
  {
  }

  /* ---- Encryption that is no good ---- */

  /** The poll as the server reads it when it cannot open it. */
  function Unopened(h: Header, cookie: Bytes, n: nat, poll: Poll, ver: Version): Packet
    requires |cookie| <= 0xFFFF && n >= 1
  {
    var d := NtsPollFields(cookie, n, poll, ver);
    Packet(NumberOf(ver), SettleLeap(h), EfData([], [], d.authenticated + [InvalidNtsEncryptedField]), None)
  }

  lemma UidRead(uid: Bytes, minimum: U16, ver: Version)
    requires |uid| == 32 && minimum <= 36
    ensures ReadableField(UniqueIdentifier(uid), minimum, ver) && Reread(UniqueIdentifier(uid), minimum, ver) == Ok(UniqueIdentifier(uid))
  {
    hide PaddedBody;
    NoPadding(UniqueIdentifier(uid), minimum, ver);
    RereadIsSelf(UniqueIdentifier(uid), minimum, ver);
  }

  lemma NamedWell(poll: Poll, ver: Version)
    requires |poll.uid| == 32
    ensures P.WellRead(Named(poll, ver), ver)
  {
    hide ReadableField, Reread;
    var uid := UniqueIdentifier(poll.uid);
    if ver == V5 {
      hide P.WellRead;
      UidRead(poll.uid, 4, ver);
      P.DraftRead();
      P.TwoRead(uid, DraftIdentification(DRAFT_VERSION));
    } else {
      UidRead(poll.uid, 28, ver);
      var sized := UntrustedSizes([uid], ver);
      assert |sized| == 1 && sized[0] == Sized([uid][0], UntrustedMinimum(true, ver));
      assert RereadAll(sized, ver) == [uid];
    }
  }

  lemma NakBytes(h: Header, cookie: Bytes, n: nat, poll: Poll, ver: Version, ks: K.KeySet, siv: K.Siv, supplies: S.Supplies)
    requires |cookie| <= 0xFFFF && n >= 1 && P.WellRead(Named(poll, ver), ver)
    ensures S.ReplyBytes(S.Reply(NakReply, Unopened(h, cookie, n, poll, ver), None, None), ks, siv, supplies) ==
            Some(P.PlainPacket(RefusalHeader(NakReply, h, ver, supplies), Named(poll, ver), ver))
  {
    hide NtsPollFields, Echo, Signed, Write, Named, SettleLeap, ResponseHeader, P.WellRead, Wire, P.PlainPacket;
    EchoNamed(cookie, n, poll, ver);
    var reply := S.Reply(NakReply, Unopened(h, cookie, n, poll, ver), None, None);
    var request, draws := reply.request.efdata, S.DrawsFor(reply, ks, siv, supplies);
    assert Open(request) == NtsPollFields(cookie, n, poll, ver).authenticated + [InvalidNtsEncryptedField];
    P.WirePlain(NakReply, RefusalHeader(NakReply, h, ver, supplies), request, draws, Named(poll, ver), ver, None);
  }

  lemma NakRead(h: Header, poll: Poll, ver: Version, cipher: Cipher)
    requires Suits(h, NumberOf(ver)) && P.WellRead(Named(poll, ver), ver)
    ensures Received(P.PlainPacket(h, Named(poll, ver), ver), cipher) ==
            Some(MessageOf(NumberOf(ver), SettleLeap(h), EfData([], [], Named(poll, ver))))
  {
    hide P.WellRead, P.PlainPacket, ReadWith, ClientProvider, SettleLeap;
    if ver == V5 {
      FirstDraftAt(Named(poll, V5) + [], 1);
    }
    P.PlainRead(h, Named(poll, ver), ver, ClientProvider(cipher));
  }

  /** To an answer that says so, the client keeps its request open and the cookies that it has left. */
  lemma NakTold(s: Source, poll: Poll, now: int, supplies: S.Supplies)
    requires Stocked(s) && s.cookies.Some? && s.cookies.value != [] && TimerStep(s, poll).1.Sent?
    requires !s.protocol.UpgradingToV5? && now <= poll.now + POLL_WINDOW
    ensures Stocked(TimerStep(s, poll).0)
    ensures var sent, o := TimerStep(s, poll).0, TimerStep(s, poll).1;
            var m := MessageOf(NumberOf(o.ver), SettleLeap(RefusalHeader(NakReply, o.header, o.ver, supplies)),
                               EfData([], [], Named(poll, o.ver)));
            var (next, outcome) := IncomingStep(sent, m, now);
            && Answers(sent, m, now) && outcome == Nothing
            && next.cookies == Some(s.cookies.value[1..]) && next.request == sent.request && next.reach == sent.reach
  {
    hide TimerStep, NewCookies, NtsPollFields, Named, CheckUid, ExpectedVersion;
    SentState(s, poll);
    PollExpected(s, poll);
    SentHeader(s, poll);
    NamedMatches(poll, TimerStep(s, poll).1.ver);
  }

  /** The server reads the poll, of the usual sizes, but cannot open it. */
  ghost predicate CannotOpen(s: Source, poll: Poll, ks: K.KeySet, siv: K.Siv, message: Bytes)
    requires Stocked(s) && s.cookies.Some? && s.cookies.value != [] && TimerStep(s, poll).1.Sent?
  {
    var q, o := s.cookies.value, TimerStep(s, poll).1;
    SentState(s, poll);
    && ReadPacket(message, ks, siv) == Undecryptable(Unopened(o.header, q[0], NewCookies(|q| - 1, |q[0]|), poll, o.ver))
    && Z.Usual(message, o.ver)
  }

  /** So it is with a cookie that the server cannot decode any more. */
  lemma OldCookieUnopened(s: Source, poll: Poll, ks: K.KeySet, siv: K.Siv, keys: K.Cookie, nonce: Bytes)
    requires Stocked(s) && s.cookies.Some? && s.cookies.value != [] && TimerStep(s, poll).1.Sent? && X.ProperPoll(poll)
    requires K.ProperSiv(siv) && |nonce| == NONCE_LENGTH
    requires X.ServerCookieLength(|s.cookies.value[0]|) && K.DecodeCookie(ks, siv, s.cookies.value[0]) == None
    ensures EfEncodable(TimerStep(s, poll).1.fields, TimerStep(s, poll).1.ver)
    ensures CannotOpen(s, poll, ks, siv, SentPoll(s, poll, siv(keys.c2s), nonce))
  {
    hide TimerStep, NtsPollFields, Serialized, NewCookies, K.ProperSiv, EfEncodable, SettleLeap, K.DecodeCookie, Write, ReadPacket, Z.Usual;
    SentState(s, poll);
    SentHeader(s, poll);
    var q, o := s.cookies.value, TimerStep(s, poll).1;
    var n := NewCookies(|q| - 1, |q[0]|);
    PollRead(o.header, q[0], n, poll, keys, nonce, o.ver, ks, siv);
    OpensOwn(siv, keys.c2s);
    PollUsual(Write(o.header, NumberOf(o.ver)), q[0], n, poll, siv(keys.c2s), nonce, o.ver);
  }

  /** And with any ciphertext in the poll that does not open. */
  lemma ChangedUnopened(s: Source, poll: Poll, ks: K.KeySet, siv: K.Siv, keys: K.Cookie, nonce: Bytes, sealed: Bytes)
    requires Polls(s, poll, ks, siv, keys) && |nonce| == NONCE_LENGTH && |sealed| == TAG_LENGTH
    ensures var o := TimerStep(s, poll).1;
            var header := Write(o.header, NumberOf(o.ver));
            && EfEncodable(o.fields, o.ver)
            && (siv(keys.c2s).open(nonce, AssociatedData(header, o.fields, o.ver), sealed) == None ==>
                  CannotOpen(s, poll, ks, siv, SealedAs(header, o.fields, nonce, sealed, o.ver)))
  {
    hide TimerStep, NtsPollFields, NewCookies, K.ProperSiv, EfEncodable, SettleLeap, K.DecodeCookie, Write, ReadPacket, Z.Usual, Z.Tight;
    hide SealedAs, AssociatedData;
    SentState(s, poll);
    SentHeader(s, poll);
    PollEncodable(s, poll, siv, keys.c2s, nonce);
    var q, o := s.cookies.value, TimerStep(s, poll).1;
    if siv(keys.c2s).open(nonce, AssociatedData(Write(o.header, NumberOf(o.ver)), o.fields, o.ver), sealed) == None {
      TamperedRead(o.header, q[0], NewCookies(|q| - 1, |q[0]|), poll, keys, nonce, sealed, o.ver, ks, siv);
    }
  }

  /** The client hears that it was not understood, and is left with its request and the cookies that it has not used. */
  predicate PassedOver(s: Source, poll: Poll, out: S.Outcome, cipher: Cipher, now: int)
    requires Stocked(s) && s.cookies.Some? && s.cookies.value != [] && Stocked(TimerStep(s, poll).0)
  {
    && out.registration.response == S.NtsNak && out.sent.Some?
    && var r := Reaction(s, poll, out.sent.value, cipher, now);
       && r.Some? && r.value.1 == Nothing && r.value.0.cookies == Some(s.cookies.value[1..])
       && r.value.0.request == TimerStep(s, poll).0.request
  }

  /**
   A welcome client whose poll the server cannot open, because its cookie is too old or the poll was changed on the
   way: the server says so, the client takes that for an answer to its poll, and is left with the cookies that it
   has not used.
   */
  lemma NakPassedOver(s: Source, poll: Poll, now: int, ks: K.KeySet, siv: K.Siv, cipher: Cipher,
                      c: S.Config, slots: R.Slots, hash: R.Hash, a: S.Arrival)
    requires Stocked(s) && s.cookies.Some? && s.cookies.value != [] && TimerStep(s, poll).1.Sent? && X.ProperPoll(poll)
    requires !s.protocol.UpgradingToV5? && now <= poll.now + POLL_WINDOW
    requires K.ProperSiv(siv) && Z.Tight(siv) && S.ProperSupplies(a.supplies)
    requires S.ValidConfig(c) && NumberOf(TimerStep(s, poll).1.ver) in c.acceptedVersions
    requires S.Welcome(c, slots, hash, a) && |a.message| <= a.buffer && |a.message| <= 0xFFFF
    ensures Stocked(TimerStep(s, poll).0)
    ensures CannotOpen(s, poll, ks, siv, a.message) ==>
              !S.Panics(c, ks, siv, slots, hash, a) && PassedOver(s, poll, S.Handle(c, ks, siv, slots, hash, a).0, cipher, now)
  {
    hide TimerStep, NtsPollFields, S.ReplyBytes, NewCookies, K.ProperSiv, Z.Tight, S.CanSend, SettleLeap, P.WellRead, P.PlainPacket;
    hide S.Handle, S.Welcome, S.ProperSupplies, ReadPacket, Received, IncomingStep, RefusalHeader, Named, Z.Usual, S.Panics;
    var q, o := s.cookies.value, TimerStep(s, poll).1;
    SentState(s, poll);
    SentHeader(s, poll);
    if CannotOpen(s, poll, ks, siv, a.message) {
      S.PanicsIff(c, ks, siv, slots, hash, a);
      S.UsualCanSend(S.NtsNak, ks, siv, a);
      S.GivenNakIff(c, ks, siv, slots, hash, a);
      S.SentIff(c, ks, siv, slots, hash, a);
      NamedWell(poll, o.ver);
      NakBytes(o.header, q[0], NewCookies(|q| - 1, |q[0]|), poll, o.ver, ks, siv, a.supplies);
      RefusalSuits(NakReply, o.header, o.ver, a.supplies);
      NakRead(RefusalHeader(NakReply, o.header, o.ver, a.supplies), poll, o.ver, cipher);
      NakTold(s, poll, now, a.supplies);
    }
  }

  /* ---- A denial without NTS ---- */

  function PlainDenialFields(ver: Version): seq<ExtField> {
    if ver == V4 then [] else [DraftIdentification(DRAFT_VERSION)]
  }

  lemma PlainDenialWell(ver: Version)
    ensures P.WellRead(PlainDenialFields(ver), ver)
  {
    if ver == V5 {
      hide ReadableField, Reread;
      P.DraftRead();
      var draft := DraftIdentification(DRAFT_VERSION);
      var sized := UntrustedSizes([draft], ver);
      assert |sized| == 1 && sized[0] == Sized([draft][0], UntrustedMinimum(true, ver));
      assert RereadAll(sized, ver) == [draft];
    } else {
      P.NoneRead(ver);
    }
  }

  lemma PlainDenialBytes(h: Header, poll: Poll, ver: Version, ks: K.KeySet, siv: K.Siv, supplies: S.Supplies)
    requires P.WellRead(PlainDenialFields(ver), ver)
    ensures var packet := Packet(NumberOf(ver), SettleLeap(h), EfData([], [], P.PollFields(poll, ver)), None);
            S.ReplyBytes(S.Reply(DenyReply, packet, None, None), ks, siv, supplies) ==
            Some(P.PlainPacket(RefusalHeader(DenyReply, h, ver, supplies), PlainDenialFields(ver), ver))
  {
    hide Echo, Write, SettleLeap, ResponseHeader, P.WellRead, Wire, P.PlainPacket;
    var request := EfData([], [], P.PollFields(poll, ver));
    var reply := S.Reply(DenyReply, Packet(NumberOf(ver), SettleLeap(h), request, None), None, None);
    assert Open(request) == X.Trail(poll, ver);
    NoTrail(poll, ver);
    P.WirePlain(DenyReply, RefusalHeader(DenyReply, h, ver, supplies), request, S.DrawsFor(reply, ks, siv, supplies),
                PlainDenialFields(ver), ver, None);
  }

  lemma PlainDenialRead(h: Header, ver: Version)
    requires Suits(h, NumberOf(ver)) && P.WellRead(PlainDenialFields(ver), ver)
    ensures ReadWith(P.PlainPacket(h, PlainDenialFields(ver), ver), P.NoKeys()) ==
            Parsed(Packet(NumberOf(ver), SettleLeap(h), EfData([], [], PlainDenialFields(ver)), None), None)
  {
    hide P.WellRead, P.PlainPacket, ReadWith, P.NoKeys, SettleLeap;
    if ver == V5 {
      FirstDraftAt(PlainDenialFields(V5) + [], 0);
    }
    P.PlainRead(h, PlainDenialFields(ver), ver, P.NoKeys());
  }

  lemma PlainDenialTold(s: Source, poll: Poll, now: int, supplies: S.Supplies)
    requires s.cookies.None? && Stocked(s) && TimerStep(s, poll).1.Sent? && now <= poll.now + POLL_WINDOW
    ensures Stocked(TimerStep(s, poll).0)
    ensures var sent, o := TimerStep(s, poll).0, TimerStep(s, poll).1;
            var m := MessageOf(NumberOf(o.ver), SettleLeap(RefusalHeader(DenyReply, o.header, o.ver, supplies)),
                               EfData([], [], PlainDenialFields(o.ver)));
            var (next, outcome) := IncomingStep(sent, m, now);
            outcome == Nothing && next.denied && next.request == sent.request
  {
    hide TimerStep, FallBack;
    P.PlainSent(s, poll);
  }

  /**
   A client without NTS that the server does not serve: the denial is not proof of anything, so the client only
   keeps in mind that it was denied.
   */
  lemma PlainDenialRemembered(s: Source, poll: Poll, now: int, ks: K.KeySet, siv: K.Siv,
                              c: S.Config, slots: R.Slots, hash: R.Hash, ip: I.IpAddr, at: R.Instant,
                              buffer: nat, supplies: S.Supplies)
    requires s.cookies.None? && Stocked(s) && TimerStep(s, poll).1.Sent? && P.GoodOffset(poll) && now <= poll.now + POLL_WINDOW
    requires K.ProperSiv(siv) && Z.Tight(siv) && S.ProperSupplies(supplies)
    requires S.ValidConfig(c) && NumberOf(TimerStep(s, poll).1.ver) in c.acceptedVersions
    requires S.Refused(c, ip) && c.requireNts != Some(S.IgnoreThem) && |P.PlainPoll(s, poll)| <= buffer
    ensures Stocked(TimerStep(s, poll).0)
    ensures var a := S.Arrival(ip, P.PlainPoll(s, poll), at, buffer, supplies);
            && !S.Panics(c, ks, siv, slots, hash, a)
            && var out := S.Handle(c, ks, siv, slots, hash, a).0;
               && out.registration.response == S.Deny && out.sent.Some?
               && var answer := ReadWith(out.sent.value, P.NoKeys());
                  && answer.Parsed?
                  && var m := MessageOf(answer.packet.version, answer.packet.header, answer.packet.efdata);
                     var (next, outcome) := IncomingStep(TimerStep(s, poll).0, m, now);
                     outcome == Nothing && next.denied
  {
    hide TimerStep, P.WellRead, P.PlainPacket, S.Handle, S.Welcome, S.Panics, S.ReplyBytes, K.ProperSiv, Z.Tight, UsualSized, Z.Usual;
    hide P.PollFields, ReadWith, ReadPacket, SettleLeap, IncomingStep, P.NoKeys, ClientHeader, RefusalHeader, S.Refused, S.CanSend;
    hide PlainDenialFields, FallBack;
    var o := TimerStep(s, poll).1;
    var a := S.Arrival(ip, P.PlainPoll(s, poll), at, buffer, supplies);
    P.PlainSent(s, poll);
    P.PollWell(poll, o.ver);
    P.AnswerWell(poll, o.ver, supplies.bloom);
    P.SameLength(o.header, o.header, poll, o.ver, supplies.bloom);
    P.PollRead(o.header, poll, o.ver, ks, siv);
    P.PlainUsual(o.header, P.PollFields(poll, o.ver), o.ver);
    RefusedUnwelcome(c, slots, hash, a);
    S.PanicsIff(c, ks, siv, slots, hash, a);
    S.UsualCanSend(S.Deny, ks, siv, a);
    ClientReads(o.header, o.ver);
    S.DeniedIff(c, ks, siv, slots, hash, a);
    S.SentIff(c, ks, siv, slots, hash, a);
    PlainDenialWell(o.ver);
    PlainDenialBytes(o.header, poll, o.ver, ks, siv, supplies);
    RefusalSuits(DenyReply, o.header, o.ver, supplies);
    PlainDenialRead(RefusalHeader(DenyReply, o.header, o.ver, supplies), o.ver);
    PlainDenialTold(s, poll, now, supplies);
  }

  lemma ClientReads(h: Header, ver: Version)
    requires ClientHeader(h, ver)
    ensures ModeOf(SettleLeap(h)) == Client
  {
  }
}
