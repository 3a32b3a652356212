/**
 The way back: the client reads the answer to its poll with the keys of the session, accepts it, and stores
 the new cookies.
 */
module NtsAnswers {
  import opened Bytes
  import opened Protocol
  import opened Headers
  import opened ExtensionFields
  import opened EncryptedFields
  import W = FieldWriter
  import opened Packets
  import opened CookieStashes
  import opened Associations
  import opened Responses
  import opened NtsService

  /* ---- The fields of the answer ---- */

  lemma {:induction false} EchoJoin(a: seq<ExtField>, b: seq<ExtField>, bloom: Option<Bytes>)
    ensures Echo(a + b, bloom) == Echo(a, bloom) + Echo(b, bloom)
    decreases |b|
  {
    hide EchoOne;
    if b == [] {
      assert a + b == a;
    } else {
      var init, last := b[..|b| - 1], b[|b| - 1];
      EchoJoin(a, init, bloom);
      assert (a + b)[..|a + b| - 1] == a + init;
      assert Echo(a, bloom) + (Echo(init, bloom) + EchoOne(last, bloom)) == (Echo(a, bloom) + Echo(init, bloom)) + EchoOne(last, bloom);
    }
  }

  lemma EchoSingle(f: ExtField, bloom: Option<Bytes>)
    ensures Echo([f], bloom) == EchoOne(f, bloom)
  {
    assert [f][..0] == [];
  }

  lemma {:induction false} EchoCookies(fs: seq<ExtField>, bloom: Option<Bytes>)
    requires forall i :: 0 <= i < |fs| ==> Asks(fs[i])
    ensures Echo(fs, bloom) == []
  {
    if fs != [] {
      EchoCookies(fs[..|fs| - 1], bloom);
      assert Asks(fs[|fs| - 1]);
    }
  }

  /** The chunk of the Bloom filter that a poll asks for. */
  function Chunk(bloom: Bytes, poll: Poll): Bytes
    requires |bloom| == 512 && X.ProperPoll(poll)
  {
    bloom[poll.bloomOffset..poll.bloomOffset + BLOOM_CHUNK]
  }

  /** The authenticated fields of the answer to a poll. */
  function Proofs(poll: Poll, ver: Version, bloom: Bytes): seq<ExtField>
    requires |bloom| == 512 && X.ProperPoll(poll)
  {
    if ver == V4 then [UniqueIdentifier(poll.uid)]
    else [UniqueIdentifier(poll.uid), ReferenceIdResponse(Chunk(bloom, poll)), DraftIdentification(DRAFT_VERSION)]
  }

  lemma EchoPoll(cookie: Bytes, n: nat, poll: Poll, ver: Version, bloom: Bytes)
    requires |cookie| <= 0xFFFF && n >= 1 && |bloom| == 512 && X.ProperPoll(poll)
    ensures var fs := NtsPollFields(cookie, n, poll, ver).authenticated;
            Signed(Echo(fs, if ver == V5 then Some(bloom) else None), NumberOf(ver)) == Proofs(poll, ver, bloom)
  {
    hide Echo;
    var b := if ver == V5 then Some(bloom) else None;
    var fs := NtsPollFields(cookie, n, poll, ver).authenticated;
    var uid, asks, trail := [UniqueIdentifier(poll.uid)], [NtsCookie(cookie)] + X.Placeholders(n - 1, |cookie|), X.Trail(poll, ver);
    assert fs == uid + (asks + trail);
    EchoJoin(uid, asks + trail, b);
    EchoJoin(asks, trail, b);
    EchoSingle(UniqueIdentifier(poll.uid), b);
    EchoCookies(asks, b);
    EchoTrail(poll, ver, bloom);
  }

  lemma EchoTrail(poll: Poll, ver: Version, bloom: Bytes)
    requires |bloom| == 512 && X.ProperPoll(poll)
    ensures Echo(X.Trail(poll, ver), if ver == V5 then Some(bloom) else None) ==
            if ver == V5 then [ReferenceIdResponse(Chunk(bloom, poll))] else []
  {
    if ver == V5 {
      hide Echo;
      var draft, req := DraftIdentification(DRAFT_VERSION), ReferenceIdRequest(BLOOM_CHUNK, poll.bloomOffset);
      EchoJoin([draft], [req], Some(bloom));
      EchoSingle(draft, Some(bloom));
      EchoSingle(req, Some(bloom));
      assert [draft] + [req] == X.Trail(poll, ver);
    }
  }

  /** All fields of the answer, with the padding that version 5 adds. */
  function AnswerFields(poll: Poll, ver: Version, bloom: Bytes, cookies: seq<ExtField>, padding: nat): EfData
    requires |bloom| == 512 && X.ProperPoll(poll)
  {
    EfData(Proofs(poll, ver, bloom), cookies, if padding == 0 then [] else [Padding(padding)])
  }

  /* ---- Reading it ---- */

  /** A field that is read as it was written. */
  predicate ReadAsWritten(f: ExtField, minimum: U16, ver: Version) {
    ReadableField(f, minimum, ver) && Reread(f, minimum, ver) == Ok(f)
  }

  lemma CookieAsWritten(cookie: Bytes, ver: Version)
    requires X.ServerCookieLength(|cookie|)
    ensures ReadAsWritten(NtsCookie(cookie), 0, ver)
  {
    hide PaddedBody;
    NoPadding(NtsCookie(cookie), 0, ver);
    RereadIsSelf(NtsCookie(cookie), 0, ver);
  }

  lemma ProofAsWritten(f: ExtField, ver: Version)
    requires || (f.UniqueIdentifier? && |f.data| == 32)
             || (ver == V5 && f.ReferenceIdResponse? && |f.data| == BLOOM_CHUNK)
             || (ver == V5 && f == DraftIdentification(DRAFT_VERSION))
    ensures ReadAsWritten(f, AUTHENTICATED_MINIMUM, ver)
  {
    hide PaddedBody;
    NoPadding(f, AUTHENTICATED_MINIMUM, ver);
    assert IsAscii(DRAFT_VERSION);
    RereadIsSelf(f, AUTHENTICATED_MINIMUM, ver);
  }

  lemma PaddingRead(n: nat)
    requires 4 <= n <= 0xFFFF && n % 4 == 0
    ensures ReadableField(Padding(n), 4, V5)
    ensures Reread(Padding(n), 4, V5).value == Unknown(PADDING, Zeros(n - 4))
  {
    NoPadding(Padding(n), 4, V5);
  }

  predicate SessionCookies(cookies: seq<ExtField>) {
    forall i :: 0 <= i < |cookies| ==> cookies[i].NtsCookie? && X.ServerCookieLength(|cookies[i].data|)
  }

  /** The untrusted part of the answer as it is read. */
  function ReadPadding(padding: nat): seq<ExtField> {
    if padding < 4 then [] else [Unknown(PADDING, Zeros(padding - 4))]
  }

  predicate ProperPadding(padding: nat, ver: Version) {
    padding == 0 || (ver == V5 && 4 <= padding <= 0xFFFF && padding % 4 == 0)
  }

  lemma {:induction false} AllAsWritten(fs: seq<ExtField>, minimum: U16, ver: Version)
    requires forall i :: 0 <= i < |fs| ==> ReadAsWritten(fs[i], minimum, ver)
    ensures Readable(WithMinimum(fs, minimum), ver) && RereadAll(WithMinimum(fs, minimum), ver) == fs
  {
    hide Reread, Encodable, LengthFits, TypeId;
    forall i | 0 <= i < |fs|
      ensures ReadableField(fs[i], minimum, ver) && Reread(fs[i], minimum, ver) == Ok(fs[i])
    {
      assert ReadAsWritten(fs[i], minimum, ver);
    }
  }

  lemma AnswerReadable(poll: Poll, ver: Version, bloom: Bytes, cookies: seq<ExtField>, padding: nat)
    requires |bloom| == 512 && X.ProperPoll(poll) && SessionCookies(cookies) && ProperPadding(padding, ver)
    ensures var d := AnswerFields(poll, ver, bloom, cookies, padding);
            EfReadable(d, ver) && EfEncodable(d, ver) && RereadData(d, ver) == d.(untrusted := ReadPadding(padding))
  {
    hide Readable, RereadAll, WithMinimum, UntrustedSizes, AllEncodable, ReadAsWritten;
    var d := AnswerFields(poll, ver, bloom, cookies, padding);
    forall i | 0 <= i < |d.authenticated|
      ensures ReadAsWritten(d.authenticated[i], AUTHENTICATED_MINIMUM, ver)
    {
      ProofAsWritten(d.authenticated[i], ver);
    }
    forall i | 0 <= i < |cookies|
      ensures ReadAsWritten(cookies[i], 0, ver)
    {
      CookieAsWritten(cookies[i].data, ver);
    }
    AllAsWritten(d.authenticated, AUTHENTICATED_MINIMUM, ver);
    AllAsWritten(cookies, 0, ver);
    PaddingUntrusted(padding, ver);
    ReadableIsEncodable(d, ver);
  }

  lemma PaddingUntrusted(padding: nat, ver: Version)
    requires ProperPadding(padding, ver)
    ensures var fs := if padding == 0 then [] else [Padding(padding)];
            UntrustedReadable(fs, ver) && RereadAll(UntrustedSizes(fs, ver), ver) == ReadPadding(padding)
  {
    if padding != 0 {
      PaddingRead(padding);
      var sized := UntrustedSizes([Padding(padding)], ver);
      assert |sized| == 1 && sized[0] == Sized(Padding(padding), UntrustedMinimum(true, ver));
    }
  }

  /** The client has one cipher for all it receives. */
  function ClientProvider(cipher: Cipher): EncryptedFields.Provider<()> {
    _ => Some(Other(cipher))
  }

  /** What the client reads is what the server wrote. */
  lemma AnswerRead(header: Bytes, poll: Poll, ver: Version, bloom: Bytes, cookies: seq<ExtField>, padding: nat,
                   cipher: Cipher, nonce: Bytes)
    requires |bloom| == 512 && X.ProperPoll(poll) && SessionCookies(cookies) && ProperPadding(padding, ver)
    requires |cookies| <= MAX_COOKIES && Opens(cipher, cipher) && |nonce| == NONCE_LENGTH
    ensures var d := AnswerFields(poll, ver, bloom, cookies, padding);
            && EfEncodable(d, ver)
            && Deserialize(Serialized(header, d, cipher, nonce, ver), |header|, ClientProvider(cipher), ver) ==
               Ok(Deserialized(State(d.(untrusted := ReadPadding(padding)), true, None), []))
  {
    hide EfReadable, EfEncodable, RereadData, Deserialize, Serialized, SealedText, AnswerFields, SessionCookies;
    var d := AnswerFields(poll, ver, bloom, cookies, padding);
    AnswerReadable(poll, ver, bloom, cookies, padding);
    AnswerSealFits(header, poll, ver, bloom, cookies, padding, cipher, nonce);
    RoundTrip(header, d, cipher, nonce, [], Other(cipher), ClientProvider(cipher), ver);
    var b := Serialized(header, d, cipher, nonce, ver);
    assert b + [] == b;
  }

  lemma AnswerSealFits(header: Bytes, poll: Poll, ver: Version, bloom: Bytes, cookies: seq<ExtField>, padding: nat,
                       cipher: Cipher, nonce: Bytes)
    requires |bloom| == 512 && X.ProperPoll(poll) && SessionCookies(cookies) && |cookies| <= MAX_COOKIES
    requires Opens(cipher, cipher) && |nonce| == NONCE_LENGTH
    requires EfEncodable(AnswerFields(poll, ver, bloom, cookies, padding), ver)
    ensures var d := AnswerFields(poll, ver, bloom, cookies, padding);
            NeedsCipher(d) && SealedFits(nonce, SealedText(header, d, cipher, nonce, ver)) && nonce != []
  {
    hide EncodeAll, Total;
    var d := AnswerFields(poll, ver, bloom, cookies, padding);
    Z.EncryptedSize(cookies, ver);
    CookiesTotal(cookies);
    var plain := EncodeAll(WithMinimum(cookies, 0), ver);
    assert |cipher.seal(nonce, AssociatedData(header, d, ver), plain)| == |plain| + TAG_LENGTH;
  }

  lemma {:induction false} CookiesTotal(cookies: seq<ExtField>)
    requires SessionCookies(cookies)
    ensures Total(cookies) <= 172 * |cookies|
  {
    if cookies != [] {
      CookiesTotal(cookies[..|cookies| - 1]);
      assert X.ServerCookieLength(|cookies[|cookies| - 1].data|);
    }
  }

  /* ---- What the server sends is that ---- */

  /** The padding that brings a version 5 answer to the length of its request. */
  function PaddingFor(ver: Version, length: nat, packed: nat): nat {
    if ver == V5 && packed < length then length - packed else 0
  }

  lemma SerializedPadded(header: Bytes, d: EfData, cipher: Cipher, nonce: Bytes, padding: nat)
    requires EfEncodable(d, V5) && d.untrusted == [] && NeedsCipher(d) && 4 <= padding && Encodable(Padding(padding))
    ensures var p := d.(untrusted := [Padding(padding)]);
            && EfEncodable(p, V5)
            && Serialized(header, p, cipher, nonce, V5) == Serialized(header, d, cipher, nonce, V5) + Encode(Padding(padding), 4, V5)
  {
    hide Encode, EncodeEncrypted, WithMinimum;
    var sized := UntrustedSizes([Padding(padding)], V5);
    assert |sized| == 1 && sized[0] == Sized(Padding(padding), UntrustedMinimum(true, V5));
    W.EncodeAllFirst(sized, V5);
    W.NoneEncoded(sized[1..], V5);
    W.NoneEncoded(UntrustedSizes([], V5), V5);
  }

  /** The new cookies for a session. */
  function NewCookiesFor(reply: S.Reply, ks: K.KeySet, siv: K.Siv, supplies: S.Supplies): seq<ExtField>
    requires S.Usable(ks)
  {
    IssuedCookies(reply.request.efdata, S.DrawsFor(reply, ks, siv, supplies).mint)
  }

  lemma NewCookiesProper(reply: S.Reply, ks: K.KeySet, siv: K.Siv, supplies: S.Supplies)
    requires S.Usable(ks) && K.ProperSiv(siv) && S.ProperSupplies(supplies)
    requires reply.cookie.Some? && K.ProperCookie(reply.cookie.value)
    ensures var cookies := NewCookiesFor(reply, ks, siv, supplies);
            SessionCookies(cookies) && |cookies| <= MAX_COOKIES && X.AllCookieFields(cookies)
  {
    hide S.DrawsFor, K.ProperSiv, Issue;
    var mint, c := S.DrawsFor(reply, ks, siv, supplies).mint, K.LengthFor(reply.cookie.value);
    S.MintLength(reply, ks, siv, supplies);
    var fs := Looked(reply.request.efdata);
    var seen := fs[..Min(|fs|, MAX_COOKIES)];
    IssueCounts(seen, mint, c);
    X.GivenAtMost(seen, c);
  }

  /** A cookie that this key set makes for a session. */
  ghost predicate MadeFrom(cookie: Bytes, ks: K.KeySet, siv: K.Siv, keys: K.Cookie)
    requires S.Usable(ks)
  {
    exists nonce :: |nonce| == NONCE_LENGTH && cookie == K.EncodeCookie(ks, siv, keys, nonce)
  }

  /** The cookies are made from the keys of the session, and decode to them. */
  ghost predicate Renews(cookies: seq<Bytes>, ks: K.KeySet, siv: K.Siv, keys: K.Cookie)
    requires S.Usable(ks)
  {
    forall c :: c in cookies ==> MadeFrom(c, ks, siv, keys) && K.DecodeCookie(ks, siv, c) == Some(keys)
  }

  lemma NewCookiesMade(reply: S.Reply, ks: K.KeySet, siv: K.Siv, supplies: S.Supplies)
    requires S.Usable(ks) && K.ProperSiv(siv) && S.ProperSupplies(supplies)
    requires reply.cookie.Some? && K.ProperCookie(reply.cookie.value)
    ensures Renews(ResponseCookies(NewCookiesFor(reply, ks, siv, supplies)), ks, siv, reply.cookie.value)
  {
    hide K.ProperSiv, Issue, K.EncodeCookie, K.DecodeCookie, K.ProperCookie, ResponseCookies;
    var mint, keys := S.DrawsFor(reply, ks, siv, supplies).mint, reply.cookie.value;
    var fs := Looked(reply.request.efdata);
    IssueMints(fs[..Min(|fs|, MAX_COOKIES)], mint);
    forall c | c in ResponseCookies(NewCookiesFor(reply, ks, siv, supplies))
      ensures MadeFrom(c, ks, siv, keys) && K.DecodeCookie(ks, siv, c) == Some(keys)
    {
      assert NtsCookie(c) in NewCookiesFor(reply, ks, siv, supplies);
      var i: nat :| c == mint(i);
      assert c == K.EncodeCookie(ks, siv, keys, supplies.cookieNonces(i));
      K.DecodeOwn(ks, siv, keys, supplies.cookieNonces(i));
    }
  }

  /** With a new nonce for each, no two cookies of an answer are the same. */
  lemma NewCookiesDistinct(reply: S.Reply, ks: K.KeySet, siv: K.Siv, supplies: S.Supplies)
    requires S.Usable(ks) && S.ProperSupplies(supplies) && reply.cookie.Some?
    requires forall i, j :: 0 <= i < j < MAX_COOKIES ==> supplies.cookieNonces(i) != supplies.cookieNonces(j)
    ensures Distinct(NewCookiesFor(reply, ks, siv, supplies))
  {
    hide Issue, K.EncodeCookie;
    var mint, keys := S.DrawsFor(reply, ks, siv, supplies).mint, reply.cookie.value;
    var fs := Looked(reply.request.efdata);
    var seen := fs[..Min(|fs|, MAX_COOKIES)];
    forall i, j | 0 <= i < j < |seen|
      ensures mint(i) != mint(j)
    {
      K.NonceInCookie(ks, siv, keys, supplies.cookieNonces(i));
      K.NonceInCookie(ks, siv, keys, supplies.cookieNonces(j));
    }
    IssueDistinct(seen, mint);
  }

  /** The fields of the answer, as the builder makes them. */
  lemma AnswerBuilt(cookie: Bytes, n: nat, poll: Poll, ver: Version, draws: Draws)
    requires |cookie| <= 0xFFFF && n >= 1 && |draws.bloom| == 512 && X.ProperPoll(poll)
    ensures var request := NtsPollFields(cookie, n, poll, ver);
            ResponseFields(NtsTimeReply, NumberOf(ver), request, draws) ==
            AnswerFields(poll, ver, draws.bloom, IssuedCookies(request, draws.mint), 0)
  {
    hide NtsPollFields, Echo, Signed, IssuedCookies;
    EchoPoll(cookie, n, poll, ver, draws.bloom);
  }

  /** A sealed response on the wire: padding, where there is any, stands behind the encrypted field. */
  lemma WirePadded(b: Builder, ver: Version, request: EfData, draws: Draws, cipher: Cipher, length: nat, d: EfData)
    returns (padding: nat)
    requires ResponseFields(b, NumberOf(ver), request, draws) == d && EfEncodable(d, ver) && NeedsCipher(d)
    requires d.untrusted == [] && |draws.header| == HEADER && length <= 0xFFFF && length % 4 == 0
    ensures var p := if padding == 0 then d else d.(untrusted := [Padding(padding)]);
            && ProperPadding(padding, ver) && EfEncodable(p, ver)
            && Wire(b, NumberOf(ver), request, draws, Some(cipher), Some(length)) ==
               Some(Serialized(draws.header, p, cipher, draws.nonce, ver))
  {
    hide EfEncodable, Serialized, ResponseFields, NeedsCipher, Encodable, Encode;
    var packed := W.Packed(draws.header, d, _ => Some(cipher), draws.nonce, ver);
    Z.PackedInWords(draws.header, d, Some(cipher), draws.nonce, ver);
    padding := PaddingFor(ver, length, |packed|);
    if padding > 0 {
      Z.PaddingSize(padding);
      SerializedPadded(draws.header, d, cipher, draws.nonce, padding);
    }
  }

  /** The header of the answer with the time. */
  function TimeHeaderBytes(h: Header, ver: Version, supplies: S.Supplies): Bytes {
    Write(AnswerHeader(h, ver, supplies), NumberOf(ver))
  }

  function AnswerHeader(h: Header, ver: Version, supplies: S.Supplies): Header {
    ResponseHeader(NtsTimeReply, NumberOf(ver), SettleLeap(h), supplies.snapshot, supplies.readings)
  }

  /** The bytes of the answer with the time are those fields, sealed under the key for the way back. */
  lemma TimeBytes(h: Header, cookie: Bytes, n: nat, poll: Poll, ver: Version, keys: K.Cookie, length: nat,
                  ks: K.KeySet, siv: K.Siv, supplies: S.Supplies) returns (padding: nat)
    requires |cookie| <= 0xFFFF && n >= 1 && X.ProperPoll(poll) && length <= 0xFFFF && length % 4 == 0
    requires S.Usable(ks) && K.ProperSiv(siv) && S.ProperSupplies(supplies) && K.ProperCookie(keys)
    ensures var reply := TimeFor(h, cookie, n, poll, ver, keys, length);
            var d := AnswerFields(poll, ver, supplies.bloom, NewCookiesFor(reply, ks, siv, supplies), padding);
            && ProperPadding(padding, ver) && EfEncodable(d, ver)
            && S.ReplyBytes(reply, ks, siv, supplies) ==
               Some(Serialized(TimeHeaderBytes(h, ver, supplies), d, siv(keys.s2c), supplies.nonce, ver))
  {
    hide NtsPollFields, EfEncodable, Serialized, ResponseFields, SessionCookies, IssuedCookies, Wire;
    hide K.ProperSiv, K.EncodeCookie;
    var reply := TimeFor(h, cookie, n, poll, ver, keys, length);
    var draws, cipher := S.DrawsFor(reply, ks, siv, supplies), siv(keys.s2c);
    var cookies := NewCookiesFor(reply, ks, siv, supplies);
    AnswerBuilt(cookie, n, poll, ver, draws);
    NewCookiesProper(reply, ks, siv, supplies);
    AnswerReadable(poll, ver, supplies.bloom, cookies, 0);
    var d := AnswerFields(poll, ver, supplies.bloom, cookies, 0);
    assert NeedsCipher(d);
    padding := WirePadded(reply.builder, ver, reply.request.efdata, draws, cipher, length, d);
  }

  /**
   A refusal is read by the client for what it is; but a version 5 NAK says an interval of zero, which a client
   that polls more often than once a second takes for a wish to be polled less.
   */
  lemma RefusalTold(b: Builder, v: NtpVersion, request: Header, s: Snapshot, r: Readings, d: EfData, own: I8)
    requires Suits(request, v) && b != TimeReply && b != NtsTimeReply
    ensures var m := MessageOf(v, SettleLeap(ResponseHeader(b, v, request, s, r)), d);
            && (IsKissNtsn(m) <==> b == NakReply) && (IsKissDeny(m) <==> b != NakReply) && !IsKissRstr(m)
            && (IsKissRate(m, own) <==> b == NakReply && v == Ntp5 && own < 0)
  {
  }

  /* ---- The client accepts it ---- */

  lemma UidMatches(poll: Poll, ver: Version, bloom: Bytes)
    requires |bloom| == 512 && X.ProperPoll(poll)
    ensures CheckUid(Proofs(poll, ver, bloom), poll.uid) == Some(true)
  {
    var fs := Proofs(poll, ver, bloom);
    assert fs[0] == UniqueIdentifier(poll.uid) && fs[0] in fs;
    assert CarriesUid(fs[0], poll.uid);
    assert forall f :: f in fs && f.UniqueIdentifier? ==> CarriesUid(f, poll.uid);
  }

  /** What the header of the answer must say for the client to accept it; the server sets it so. */
  predicate GoodHeader(m: Message, poll: Poll, ver: Version) {
    m.version == NumberOf(ver) && m.mode == Server && 1 <= m.stratum <= MAX_STRATUM && m.origin == poll.origin
  }

  lemma AnswerValid(m: Message, poll: Poll, ver: Version, bloom: Bytes, cookies: seq<ExtField>, padding: nat)
    requires |bloom| == 512 && X.ProperPoll(poll) && X.AllCookieFields(cookies) && GoodHeader(m, poll, ver)
    requires m.efdata == AnswerFields(poll, ver, bloom, cookies, 0).(untrusted := ReadPadding(padding))
    ensures ValidServerResponse(m, RequestId(poll.origin, Some(poll.uid)), true)
  {
    hide CheckUid;
    UidMatches(poll, ver, bloom);
  }

  /** The client accepts the answer, and its stock goes from `v` to `v - 1 + min(9 - v, 724 / length)`. */
  predicate Refilled(s: Source, poll: Poll, m: Message, now: int)
    requires Stocked(s) && s.cookies.Some? && s.cookies.value != [] && TimerStep(s, poll).1.Sent?
  {
    var q, sent := s.cookies.value, TimerStep(s, poll).0;
    var n, got := Min(9 - |q|, 724 / Max(|q[0]|, 1)), ResponseCookies(m.efdata.encrypted);
    && Stocked(sent)
    && IncomingStep(sent, m, now).1 == Accepted && |got| == n
    && IncomingStep(sent, m, now).0.cookies == Some(q[1..] + got)
    && |q[1..] + got| == |q| - 1 + n <= MAX_COOKIES
  }

  lemma SentState(s: Source, poll: Poll)
    requires Stocked(s) && s.cookies.Some? && s.cookies.value != [] && TimerStep(s, poll).1.Sent?
    ensures var q, sent, o := s.cookies.value, TimerStep(s, poll).0, TimerStep(s, poll).1;
            && Stocked(sent) && sent.cookies == Some(q[1..])
            && sent.request == Some(Request(RequestId(poll.origin, Some(poll.uid)), poll.now + POLL_WINDOW))
            && |q[0]| <= 0xFFFF && NewCookies(|q| - 1, |q[0]|) >= 1
            && o.fields == NtsPollFields(q[0], NewCookies(|q| - 1, |q[0]|), poll, o.ver)
  {
    hide NtsPollFields;
  }

  lemma ClientAccepts(s: Source, poll: Poll, m: Message, now: int, bloom: Bytes, cookies: seq<ExtField>, padding: nat)
    requires Stocked(s) && s.cookies.Some? && s.cookies.value != [] && TimerStep(s, poll).1.Sent?
    requires |bloom| == 512 && X.ProperPoll(poll) && X.AllCookieFields(cookies)
    requires GoodHeader(m, poll, TimerStep(s, poll).1.ver) && now <= poll.now + POLL_WINDOW
    requires ExpectedVersion(TimerStep(s, poll).0.protocol, m.version)
    requires m.efdata == AnswerFields(poll, TimerStep(s, poll).1.ver, bloom, cookies, 0).(untrusted := ReadPadding(padding))
    requires |cookies| == NewCookies(|s.cookies.value| - 1, |s.cookies.value[0]|)
    requires X.ServerCookieLength(|s.cookies.value[0]|)
    ensures Refilled(s, poll, m, now)
  {
    hide TimerStep, ValidServerResponse, AnswerFields, Progress, EnqueueAll, ResponseCookies;
    SentState(s, poll);
    var q, sent := s.cookies.value, TimerStep(s, poll).0;
    AnswerValid(m, poll, TimerStep(s, poll).1.ver, bloom, cookies, padding);
    assert m.efdata.encrypted == cookies by { AnswerEncrypted(poll, TimerStep(s, poll).1.ver, bloom, cookies); }
    X.AllCookies(cookies);
    X.EnqueueWithin(q[1..], ResponseCookies(cookies));
  }

  lemma AnswerEncrypted(poll: Poll, ver: Version, bloom: Bytes, cookies: seq<ExtField>)
    requires |bloom| == 512 && X.ProperPoll(poll)
    ensures AnswerFields(poll, ver, bloom, cookies, 0).encrypted == cookies
  {
  }

  /** The draft is found behind the padding. */
  lemma AnswerDraft(poll: Poll, bloom: Bytes, cookies: seq<ExtField>, padding: nat)
    requires |bloom| == 512 && X.ProperPoll(poll)
    ensures DraftId(AnswerFields(poll, V5, bloom, cookies, 0).(untrusted := ReadPadding(padding))) == Some(DRAFT_VERSION)
  {
    var u, p := ReadPadding(padding), Proofs(poll, V5, bloom);
    FirstDraftAt(u + p, |u| + 2);
  }

  /** The poll of a client with a cookie of this server: short, in whole words, and asking for fewer than eight. */
  lemma PollFacts(s: Source, poll: Poll, header: Bytes, cipher: Cipher, nonce: Bytes)
    requires Stocked(s) && s.cookies.Some? && s.cookies.value != [] && TimerStep(s, poll).1.Sent?
    requires X.ProperPoll(poll) && |header| == HEADER && Tagged(cipher) && |nonce| == NONCE_LENGTH
    requires X.ServerCookieLength(|s.cookies.value[0]|)
    ensures var o := TimerStep(s, poll).1;
            && EfEncodable(o.fields, o.ver)
            && |Serialized(header, o.fields, cipher, nonce, o.ver)| <= 0xFFFF
            && |Serialized(header, o.fields, cipher, nonce, o.ver)| % 4 == 0
            && 1 <= NewCookies(|s.cookies.value| - 1, |s.cookies.value[0]|) < MAX_COOKIES
  {
    hide TimerStep, NtsPollFields, Serialized, EfEncodable;
    SentState(s, poll);
    var q, o := s.cookies.value, TimerStep(s, poll).1;
    X.SentPollFits(s, poll, header, cipher, nonce);
    PollShape(q[0], NewCookies(|q| - 1, |q[0]|), poll, o.ver);
    Z.PackedInWords(header, o.fields, Some(cipher), nonce, o.ver);
    assert W.Packed(header, o.fields, _ => Some(cipher), nonce, o.ver) == Serialized(header, o.fields, cipher, nonce, o.ver);
  }

  /** What the client makes of a datagram: a message, or nothing if it is malformed or does not open. */
  function Received(data: Bytes, cipher: Cipher): Option<Message> {
    match ReadWith(data, ClientProvider(cipher))
    case Parsed(p, _) => Some(MessageOf(p.version, p.header, p.efdata))
    case _ => None
  }

  /** The time is sent, and the client reads from it a message that refills its stock for the same session. */
  ghost predicate Completes(out: S.Outcome, s: Source, poll: Poll, now: int, ks: K.KeySet, siv: K.Siv, keys: K.Cookie)
    requires Stocked(s) && s.cookies.Some? && s.cookies.value != [] && TimerStep(s, poll).1.Sent? && S.Usable(ks)
  {
    && out.registration.response == S.ProvideTime && out.sent.Some?
    && var m := Received(out.sent.value, siv(keys.s2c));
       && m.Some? && Refilled(s, poll, m.value, now)
       && Renews(ResponseCookies(m.value.efdata.encrypted), ks, siv, keys)
  }

  /** What the client reads of the answer, with its header. */
  lemma AnswerReceived(h: Header, poll: Poll, ver: Version, cookies: seq<ExtField>, padding: nat, cipher: Cipher, supplies: S.Supplies)
    requires X.ProperPoll(poll) && SessionCookies(cookies) && ProperPadding(padding, ver) && S.ProperSupplies(supplies)
    requires |cookies| <= MAX_COOKIES && Opens(cipher, cipher) && ClientHeader(h, ver)
    requires TokenOf(h) == poll.origin && 1 <= supplies.snapshot.stratum <= MAX_STRATUM
    ensures var d := AnswerFields(poll, ver, supplies.bloom, cookies, padding);
            && EfEncodable(d, ver)
            && var m := Received(Serialized(TimeHeaderBytes(h, ver, supplies), d, cipher, supplies.nonce, ver), cipher);
            && m.Some? && GoodHeader(m.value, poll, ver)
            && m.value.efdata == AnswerFields(poll, ver, supplies.bloom, cookies, 0).(untrusted := ReadPadding(padding))
  {
    hide Serialized, Deserialize, DraftId, AnswerFields, SessionCookies, ReadPadding, ProperPadding, EfEncodable, Write, ReadWith;
    var header, d := TimeHeaderBytes(h, ver, supplies), AnswerFields(poll, ver, supplies.bloom, cookies, padding);
    AnswerRead(header, poll, ver, supplies.bloom, cookies, padding, cipher, supplies.nonce);
    HeaderFirst(header, d, cipher, supplies.nonce, ver);
    AnswerDraft(poll, supplies.bloom, cookies, padding);
    UntrustedOnly(poll, ver, supplies.bloom, cookies, padding);
    var read: State<()> := State(d.(untrusted := ReadPadding(padding)), true, None);
    ReadBehind(AnswerHeader(h, ver, supplies), Serialized(header, d, cipher, supplies.nonce, ver), ver, ClientProvider(cipher), read);
  }

  lemma AnswerCompletes(out: S.Outcome, s: Source, poll: Poll, now: int, h: Header, keys: K.Cookie, length: nat,
                        ks: K.KeySet, siv: K.Siv, supplies: S.Supplies)
    requires Stocked(s) && s.cookies.Some? && s.cookies.value != [] && TimerStep(s, poll).1.Sent?
    requires S.Usable(ks) && K.ProperSiv(siv) && S.ProperSupplies(supplies) && K.ProperCookie(keys) && X.ProperPoll(poll)
    requires length <= 0xFFFF && length % 4 == 0 && |s.cookies.value[0]| == K.LengthFor(keys)
    requires 1 <= NewCookies(|s.cookies.value| - 1, |s.cookies.value[0]|) < MAX_COOKIES
    requires ClientHeader(h, TimerStep(s, poll).1.ver) && TokenOf(h) == poll.origin
    requires 1 <= supplies.snapshot.stratum <= MAX_STRATUM && now <= poll.now + POLL_WINDOW
    requires ExpectedVersion(TimerStep(s, poll).0.protocol, NumberOf(TimerStep(s, poll).1.ver))
    requires out.registration.response == S.ProvideTime
    requires var q := s.cookies.value;
             out.sent == S.ReplyBytes(TimeFor(h, q[0], NewCookies(|q| - 1, |q[0]|), poll, TimerStep(s, poll).1.ver, keys, length),
                                      ks, siv, supplies)
    ensures Completes(out, s, poll, now, ks, siv, keys)
  {
    hide TimerStep, NtsPollFields, Serialized, S.ReplyBytes, NewCookies, Refilled, K.ProperSiv, Received, TimeHeaderBytes;
    hide AnswerFields, SessionCookies, NewCookiesFor, ReadPadding, ProperPadding, EfEncodable, ClientHeader, TokenOf, ExpectedVersion;
    hide Renews, ResponseCookies;
    var q, ver := s.cookies.value, TimerStep(s, poll).1.ver;
    var n := NewCookies(|q| - 1, |q[0]|);
    var reply := TimeFor(h, q[0], n, poll, ver, keys, length);
    var cookies, cipher := NewCookiesFor(reply, ks, siv, supplies), siv(keys.s2c);
    NewCookiesProper(reply, ks, siv, supplies);
    var padding := TimeBytes(h, q[0], n, poll, ver, keys, length, ks, siv, supplies);
    OpensOwn(siv, keys.s2c);
    AnswerReceived(h, poll, ver, cookies, padding, cipher, supplies);
    CookiesCounted(h, q[0], n, poll, ver, keys, length, ks, siv, supplies);
    ClientAccepts(s, poll, Received(out.sent.value, cipher).value, now, supplies.bloom, cookies, padding);
    NewCookiesMade(reply, ks, siv, supplies);
    AnswerEncrypted(poll, ver, supplies.bloom, cookies);
  }

  lemma UntrustedOnly(poll: Poll, ver: Version, bloom: Bytes, cookies: seq<ExtField>, padding: nat)
    requires |bloom| == 512 && X.ProperPoll(poll)
    ensures AnswerFields(poll, ver, bloom, cookies, padding).(untrusted := ReadPadding(padding)) ==
            AnswerFields(poll, ver, bloom, cookies, 0).(untrusted := ReadPadding(padding))
  {
  }

  lemma CookiesCounted(h: Header, cookie: Bytes, n: nat, poll: Poll, ver: Version, keys: K.Cookie, length: nat,
                       ks: K.KeySet, siv: K.Siv, supplies: S.Supplies)
    requires 1 <= n < MAX_COOKIES && |cookie| == K.LengthFor(keys)
    requires S.Usable(ks) && K.ProperSiv(siv) && S.ProperSupplies(supplies) && K.ProperCookie(keys)
    ensures |NewCookiesFor(TimeFor(h, cookie, n, poll, ver, keys, length), ks, siv, supplies)| == n
  {
    hide NtsPollFields, IssuedCookies, S.DrawsFor, K.ProperSiv;
    var reply := TimeFor(h, cookie, n, poll, ver, keys, length);
    S.MintLength(reply, ks, siv, supplies);
    X.PollCookiesReturned(cookie, n, poll, ver, S.DrawsFor(reply, ks, siv, supplies).mint);
    NewCookiesProper(reply, ks, siv, supplies);
    X.AllCookies(NewCookiesFor(reply, ks, siv, supplies));
  }

  /** The version that the timer polls with is the one expected back, exactly when no upgrade has just begun. */
  lemma PollExpected(s: Source, poll: Poll)
    requires Stocked(s) && s.cookies.Some? && TimerStep(s, poll).1.Sent?
    ensures ExpectedVersion(TimerStep(s, poll).0.protocol, NumberOf(TimerStep(s, poll).1.ver)) <==> !s.protocol.UpgradingToV5?
  {
    hide NtsPollFields;
  }

  lemma SentHeader(s: Source, poll: Poll)
    requires Stocked(s) && TimerStep(s, poll).1.Sent?
    ensures var o := TimerStep(s, poll).1; ClientHeader(o.header, o.ver) && TokenOf(o.header) == poll.origin
  {
    hide NtsPollFields, NewCookies;
  }

  /** The bytes of a poll that the timer sends. */
  function SentPoll(s: Source, poll: Poll, cipher: Cipher, nonce: Bytes): Bytes
    requires Stocked(s) && TimerStep(s, poll).1.Sent?
    requires EfEncodable(TimerStep(s, poll).1.fields, TimerStep(s, poll).1.ver)
  {
    var o := TimerStep(s, poll).1;
    var v := NumberOf(o.ver);
    Serialized(Write(o.header, v), o.fields, cipher, nonce, o.ver)
  }

  /**
   A whole exchange. The client's timer sends a poll under a cookie that the server made at most as many
   rotations ago as its history goes back; the server, with a buffer as long as the poll, sends the time; and
   from those bytes the client reads a message that it accepts. It then holds the cookies that it had but for
   the one used, and as many new ones as it asked for, never more than eight.
   */
  lemma ExchangeCompletes(s: Source, poll: Poll, now: int,
                          history: nat, all: seq<Bytes>, made: nat, keys: K.Cookie, cookieNonce: Bytes,
                          nonce: Bytes, siv: K.Siv,
                          c: S.Config, slots: R.Slots, hash: R.Hash, ip: I.IpAddr, at: R.Instant,
                          buffer: nat, supplies: S.Supplies)
    requires history < K.WORD32 - 1 && 0 < made <= |all| && |all| - made <= history
    requires K.ProperSiv(siv) && Z.Tight(siv) && K.ProperCookie(keys)
    requires |cookieNonce| == NONCE_LENGTH == |nonce| && S.ProperSupplies(supplies) && X.ProperPoll(poll)
    requires Stocked(s) && s.cookies.Some? && s.cookies.value != [] && TimerStep(s, poll).1.Sent?
    requires !s.protocol.UpgradingToV5? && now <= poll.now + POLL_WINDOW
    requires S.ValidConfig(c) && NumberOf(TimerStep(s, poll).1.ver) in c.acceptedVersions
    requires 1 <= supplies.snapshot.stratum <= MAX_STRATUM
    requires var before := K.RotatedThrough(history, all[..made]).current;
             S.Usable(before) && s.cookies.value[0] == K.EncodeCookie(before, siv, keys, cookieNonce)
    ensures var o, ks := TimerStep(s, poll).1, K.RotatedThrough(history, all).current;
            && S.Usable(ks) && EfEncodable(o.fields, o.ver)
            && var message := SentPoll(s, poll, siv(keys.c2s), nonce);
               var a := S.Arrival(ip, message, at, buffer, supplies);
               S.Welcome(c, slots, hash, a) && |message| <= buffer ==>
                 Completes(S.Handle(c, ks, siv, slots, hash, a).0, s, poll, now, ks, siv, keys)
  {
    hide TimerStep, NtsPollFields, Serialized, S.ReplyBytes, NewCookies, Completes, K.ProperSiv, EfEncodable, Z.Tight;
    hide K.RotatedThrough, K.EncodeCookie, S.Handle, S.Welcome, S.ProperSupplies, Write, ExpectedVersion;
    SentState(s, poll);
    PollExpected(s, poll);
    var q, o := s.cookies.value, TimerStep(s, poll).1;
    var n, ks := NewCookies(|q| - 1, |q[0]|), K.RotatedThrough(history, all).current;
    var before := K.RotatedThrough(history, all[..made]).current;
    var h := o.header;
    SentHeader(s, poll);
    var header := Write(h, NumberOf(o.ver));
    K.CookieLength(before, siv, keys, cookieNonce);
    OpensOwn(siv, keys.c2s);
    OpensTagged(siv(keys.c2s), siv(keys.c2s));
    PollFacts(s, poll, header, siv(keys.c2s), nonce);
    ServedWithinHistory(history, all, made, keys, cookieNonce, h, n, poll, nonce, o.ver, siv,
                        c, slots, hash, ip, at, buffer, supplies);
    var message := Serialized(header, o.fields, siv(keys.c2s), nonce, o.ver);
    var a := S.Arrival(ip, message, at, buffer, supplies);
    if S.Welcome(c, slots, hash, a) && |message| <= buffer {
      AnswerCompletes(S.Handle(c, ks, siv, slots, hash, a).0, s, poll, now, h, keys, |message|, ks, siv, supplies);
    }
  }
}
