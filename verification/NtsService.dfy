/**
 From the client's poll to the server's answer: the poll that a client writes with a cookie of this server is
 read by the server with the keys in that cookie, for as long as the server still has the key of the cookie.
 */
module NtsService {
  import opened Bytes
  import opened Protocol
  import opened Headers
  import opened ExtensionFields
  import opened EncryptedFields
  import K = KeySets
  import opened Packets
  import P = PacketReadings
  import opened Responses
  import opened Associations
  import X = NtsExchange
  import I = IpFilters
  import R = RateLimits
  import S = Servers
  import Z = ResponseSizes

  /* ---- A packet that cannot be opened ---- */

  /** A packet of authenticated fields and an encrypted one with any text for ciphertext. */
  function SealedAs(header: Bytes, d: EfData, nonce: Bytes, sealed: Bytes, ver: Version): Bytes
    requires EfEncodable(d, ver)
  {
    AssociatedData(header, d, ver) + EncodeSealed(nonce, sealed)
  }

  lemma SerializedAs(header: Bytes, d: EfData, cipher: Cipher, nonce: Bytes, ver: Version)
    requires EfEncodable(d, ver) && NeedsCipher(d) && d.untrusted == []
    ensures Serialized(header, d, cipher, nonce, ver) == SealedAs(header, d, nonce, SealedText(header, d, cipher, nonce, ver), ver)
  {
    hide EncodeAll, EncodeSealed, AllEncodable;
    X.NoUntrusted(ver);
  }

  /** There is no cipher for it, or it does not open under it. */
  predicate Shut<C>(holder: Option<CipherHolder<C>>, nonce: Bytes, aad: Bytes, sealed: Bytes) {
    holder.None? || holder.value.cipher.open(nonce, aad, sealed).None?
  }

  /** Then the encrypted field is kept as invalid and the packet is marked. */
  lemma RejectedPacket<C>(header: Bytes, d: EfData, nonce: Bytes, sealed: Bytes, provider: EncryptedFields.Provider<C>, ver: Version)
    requires EfReadable(d, ver) && EfEncodable(d, ver)
    requires SealedFits(nonce, sealed) && |nonce| == NONCE_LENGTH && |sealed| >= TAG_LENGTH
    requires Shut(provider(RereadData(d, ver).authenticated), nonce, AssociatedData(header, d, ver), sealed)
    ensures Deserialize(SealedAs(header, d, nonce, sealed, ver), |header|, provider, ver) ==
            Ok(Deserialized(Rejected(RereadData(d, ver).authenticated), []))
  {
    hide Encode, Decode, RereadAll, Reread, LengthFits, Encodable, EncodeSealed, SealedFits, EncodeAll, ReadFrom;
    hide UntrustAll, WithMinimum, Readable, AllEncodable, Shut;
    var auth := WithMinimum(d.authenticated, AUTHENTICATED_MINIMUM);
    var a, aad := EncodeAll(auth, ver), AssociatedData(header, d, ver);
    var e := EncodeSealed(nonce, sealed);
    var data := SealedAs(header, d, nonce, sealed, ver);
    assert data == header + (a + e);
    assert data[|header|..] == a + e && data[..|header|] == header && data[..|aad|] == aad;
    SealedSize(nonce, sealed);
    RoomForAuthenticated(auth, |e|, ver);
    ReadPlain(data, |header|, auth, e, Initial(), provider, ver);
    ContinuesPast(data, |header|, a, e);
    var st := UntrustAll(Initial<C>(), RereadAll(auth, ver));
    UntrustedFirst<C>(RereadAll(auth, ver));
    ReadRejected(data, |aad|, nonce, sealed, st, provider, ver);
  }

  lemma SealedSize(nonce: Bytes, sealed: Bytes)
    requires |nonce| == NONCE_LENGTH && |sealed| >= TAG_LENGTH
    ensures |EncodeSealed(nonce, sealed)| >= 40
  {
    hide SealedBody, Framing;
  }

  function Rejected<C>(fs: seq<ExtField>): State<C> {
    State(EfData([], [], fs + [InvalidNtsEncryptedField]), false, None)
  }

  lemma UntrustedFirst<C>(fs: seq<ExtField>)
    ensures var st := UntrustAll(Initial<C>(), fs); st.efdata.untrusted == fs && Reject(st) == Rejected<C>(fs)
  {
    assert [] + fs == fs;
  }

  lemma ReadRejected<C>(data: Bytes, pos: nat, nonce: Bytes, sealed: Bytes, st: State<C>,
                        provider: EncryptedFields.Provider<C>, ver: Version)
    requires SealedFits(nonce, sealed) && Continues(data, pos, EncodeSealed(nonce, sealed))
    requires |EncodeSealed(nonce, sealed)| > Cutoff(ver) && Shut(provider(st.efdata.untrusted), nonce, data[..pos], sealed)
    ensures ReadFrom(data, pos, st, provider, ver) == Ok(Deserialized(Reject(st), []))
  {
    hide SealedBody, EncodeSealed, ReadRaw, WireLength, SealedFits, Decode;
    var raw := Raw(NTS_ENCRYPTED_FIELD, SealedBody(nonce, sealed));
    SealedReadBack(nonce, sealed, [], ver);
    assert EncodeSealed(nonce, sealed) + [] == EncodeSealed(nonce, sealed);
    StepRejected(nonce, sealed, data[..pos], st, provider, ver);
    ReadNext(data, pos, raw, st, Reject(st), provider, ver);
    assert data[|data|..] == [];
  }

  lemma StepRejected<C>(nonce: Bytes, sealed: Bytes, aad: Bytes, st: State<C>,
                        provider: EncryptedFields.Provider<C>, ver: Version)
    requires SealedFits(nonce, sealed) && Shut(provider(st.efdata.untrusted), nonce, aad, sealed)
    ensures Step(st, Raw(NTS_ENCRYPTED_FIELD, SealedBody(nonce, sealed)), aad, provider, ver) == Ok(Reject(st))
  {
    hide SealedBody, ReadSealed, RoundUp4, Decode;
    SealedBodyReadBack(nonce, sealed);
  }

  /* ---- The poll ---- */

  /** A header of that version in client mode. */
  predicate ClientHeader(h: Header, ver: Version) {
    Suits(h, NumberOf(ver)) && ModeOf(h) == Client
  }

  /** The cookie is the only one among the fields of the poll. */
  lemma PollFind(cookie: Bytes, n: nat, poll: Poll, ver: Version, ks: K.KeySet, siv: K.Siv)
    requires |cookie| <= 0xFFFF && n >= 1
    ensures var found := Find(NtsPollFields(cookie, n, poll, ver).authenticated, ks, siv);
            match K.DecodeCookie(ks, siv, cookie)
            case Some(c) => found == One(c)
            case None => !found.One?
  {
    hide K.DecodeCookie, Find;
    var fs := NtsPollFields(cookie, n, poll, ver).authenticated;
    assert fs[1] == NtsCookie(cookie) && NoOtherCookie(fs, 1);
    match K.DecodeCookie(ks, siv, cookie)
    case Some(c) =>
      assert CookieAt(fs, 1, c, ks, siv);
      FoundIff(fs, c, ks, siv);
    case None =>
      if Find(fs, ks, siv).One? {
        var c := Find(fs, ks, siv).cookie;
        FoundIff(fs, c, ks, siv);
      }
  }

  lemma {:induction false} FirstDraftAt(fs: seq<ExtField>, i: nat)
    requires i < |fs| && fs[i].DraftIdentification?
    requires forall j :: 0 <= j < i ==> !fs[j].DraftIdentification?
    ensures FirstDraft(fs) == Some(fs[i].text)
  {
    if i > 0 {
      FirstDraftAt(fs[1..], i - 1);
    }
  }

  lemma PollDraft(cookie: Bytes, n: nat, poll: Poll)
    requires |cookie| <= 0xFFFF && n >= 1
    ensures DraftId(NtsPollFields(cookie, n, poll, V5)) == Some(DRAFT_VERSION)
  {
    var d := NtsPollFields(cookie, n, poll, V5);
    assert d.untrusted + d.authenticated == d.authenticated;
    FirstDraftAt(d.authenticated, n + 1);
  }

  function PollMessage(header: Bytes, cookie: Bytes, n: nat, poll: Poll, cipher: Cipher, nonce: Bytes, ver: Version): Bytes
    requires |cookie| <= 0xFFFF && n >= 1 && EfEncodable(NtsPollFields(cookie, n, poll, ver), ver)
  {
    Serialized(header, NtsPollFields(cookie, n, poll, ver), cipher, nonce, ver)
  }

  /** What the fields of a poll are read as. */
  lemma PollDeserialized(header: Bytes, cookie: Bytes, n: nat, poll: Poll, keys: K.Cookie, nonce: Bytes,
                         ver: Version, ks: K.KeySet, siv: K.Siv)
    requires X.ServerCookieLength(|cookie|) && n >= 1 && X.ProperPoll(poll) && |nonce| == NONCE_LENGTH
    requires K.ProperSiv(siv)
    requires K.DecodeCookie(ks, siv, cookie) in {None, Some(keys)}
    ensures var d := NtsPollFields(cookie, n, poll, ver);
            && EfEncodable(d, ver)
            && Deserialize(PollMessage(header, cookie, n, poll, siv(keys.c2s), nonce, ver), |header|,
                           KeyProvider(ks, siv), ver) ==
               Ok(Deserialized(if K.DecodeCookie(ks, siv, cookie).Some? then State(d, true, Some(keys))
                               else Rejected(d.authenticated), []))
  {
    hide NtsPollFields, EfReadable, RereadData, EfEncodable, Serialized, Deserialize, Find, K.DecodeCookie, SealedText;
    var d, cipher := NtsPollFields(cookie, n, poll, ver), siv(keys.c2s);
    assert d.encrypted == [] && d.untrusted == [] && d.authenticated != [] by { PollShape(cookie, n, poll, ver); }
    X.PollReadExactly(cookie, n, poll, ver);
    ReadableIsEncodable(d, ver);
    assert Opens(cipher, cipher);
    PollSealFits(header, d, cipher, nonce, ver);
    PollFind(cookie, n, poll, ver, ks, siv);
    var provider := KeyProvider(ks, siv);
    if K.DecodeCookie(ks, siv, cookie).Some? {
      RoundTrip(header, d, cipher, nonce, [], DecodedServerCookie(keys, cipher), provider, ver);
      var m := PollMessage(header, cookie, n, poll, cipher, nonce, ver);
      assert m + [] == m;
    } else {
      SerializedAs(header, d, cipher, nonce, ver);
      RejectedPacket(header, d, nonce, SealedText(header, d, cipher, nonce, ver), provider, ver);
    }
  }

  lemma PollShape(cookie: Bytes, n: nat, poll: Poll, ver: Version)
    requires |cookie| <= 0xFFFF && n >= 1
    ensures var d := NtsPollFields(cookie, n, poll, ver); d.encrypted == [] && d.untrusted == [] && d.authenticated != []
  {
  }

  lemma PollSealFits(header: Bytes, d: EfData, cipher: Cipher, nonce: Bytes, ver: Version)
    requires EfEncodable(d, ver) && d.encrypted == [] && Opens(cipher, cipher) && |nonce| == NONCE_LENGTH
    ensures SealedFits(nonce, SealedText(header, d, cipher, nonce, ver)) && |SealedText(header, d, cipher, nonce, ver)| == TAG_LENGTH
  {
    assert EncodeAll(WithMinimum([], 0), ver) == [];
    assert |SealedText(header, d, cipher, nonce, ver)| == TAG_LENGTH;
  }

  lemma HeaderFirst(header: Bytes, d: EfData, cipher: Cipher, nonce: Bytes, ver: Version)
    requires EfEncodable(d, ver)
    ensures |Serialized(header, d, cipher, nonce, ver)| >= |header|
    ensures Serialized(header, d, cipher, nonce, ver)[..|header|] == header
  {
  }

  /** A packet of either version whose fields are read to some state, behind a header that was written. */
  lemma ReadBehind<C>(h: Header, data: Bytes, ver: Version, provider: EncryptedFields.Provider<C>, st: State<C>)
    requires Suits(h, NumberOf(ver)) && |data| >= HEADER && data[..HEADER] == Write(h, NumberOf(ver))
    requires Deserialize(data, HEADER, provider, ver) == Ok(Deserialized(st, []))
    requires ver == V5 && st.valid ==> DraftId(st.efdata) == Some(DRAFT_VERSION)
    ensures var packet := Packet(NumberOf(ver), SettleLeap(h), st.efdata, None);
            ReadWith(data, provider) == if st.valid then Parsed(packet, st.cookie) else Undecryptable(packet)
  {
    hide Deserialize, DraftId, VersionBits, Write, ReadOld, ReadNew, SettleLeap;
    HeaderReadBack(h, NumberOf(ver), data[HEADER..]);
    assert data == Write(h, NumberOf(ver)) + data[HEADER..];
  }

  /** The server reads the poll with the keys in its cookie, or knows that it cannot. */
  lemma PollRead(h: Header, cookie: Bytes, n: nat, poll: Poll, keys: K.Cookie, nonce: Bytes, ver: Version,
                 ks: K.KeySet, siv: K.Siv)
    requires X.ServerCookieLength(|cookie|) && n >= 1 && X.ProperPoll(poll) && |nonce| == NONCE_LENGTH
    requires K.ProperSiv(siv) && ClientHeader(h, ver)
    requires K.DecodeCookie(ks, siv, cookie) in {None, Some(keys)}
    ensures var d, v := NtsPollFields(cookie, n, poll, ver), NumberOf(ver);
            && EfEncodable(d, ver)
            && ReadPacket(PollMessage(Write(h, v), cookie, n, poll, siv(keys.c2s), nonce, ver), ks, siv) ==
               if K.DecodeCookie(ks, siv, cookie).Some? then Parsed(Packet(v, SettleLeap(h), d, None), Some(keys))
               else Undecryptable(Packet(v, SettleLeap(h), EfData([], [], d.authenticated + [InvalidNtsEncryptedField]), None))
  {
    hide NtsPollFields, EfEncodable, Serialized, Deserialize, K.DecodeCookie, KeyProvider, DraftId, Write, ReadWith, SettleLeap;
    var header := Write(h, NumberOf(ver));
    PollDeserialized(header, cookie, n, poll, keys, nonce, ver, ks, siv);
    var d := NtsPollFields(cookie, n, poll, ver);
    var m := PollMessage(header, cookie, n, poll, siv(keys.c2s), nonce, ver);
    HeaderFirst(header, d, siv(keys.c2s), nonce, ver);
    if ver == V5 {
      PollDraft(cookie, n, poll);
    }
    ReadBehind(h, m, ver, KeyProvider(ks, siv),
               if K.DecodeCookie(ks, siv, cookie).Some? then State(d, true, Some(keys)) else Rejected(d.authenticated));
  }

  /* ---- The poll keeps to the usual sizes ---- */

  ghost predicate UsualFrom(data: Bytes, pos: nat, ver: Version)
    requires pos <= |data|
  {
    forall q: nat :: q <= |data| && Reaches(data, pos, q, ver) && ReadRaw(data[q..], ver).Ok? ==>
      Z.UsualField(ReadRaw(data[q..], ver).value)
  }

  lemma UsualNext(data: Bytes, pos: nat, raw: Raw, ver: Version)
    requires pos <= |data| && ReadRaw(data[pos..], ver) == Ok(raw) && Z.UsualField(raw)
    requires pos + WireLength(raw) <= |data| && UsualFrom(data, pos + WireLength(raw), ver)
    ensures UsualFrom(data, pos, ver)
  {
    hide ReadRaw, WireLength, Z.UsualField;
  }

  lemma UsualEnd(data: Bytes, ver: Version)
    ensures UsualFrom(data, |data|, ver)
  {
    assert data[|data|..] == [];
    assert !ReadRaw([], ver).Ok?;
  }

  predicate UsualSized(f: Sized) {
    && Encodable(f.field) && (f.field.UniqueIdentifier? ==> |f.field.data| >= 24)
    && TypeId(f.field) != NTS_ENCRYPTED_FIELD && (TypeId(f.field) == UNIQUE_IDENTIFIER ==> f.field.UniqueIdentifier?)
  }

  lemma UsualRaw(f: Sized, ver: Version)
    requires UsualSized(f) && LengthFits(f.field, f.minimum, ver)
    ensures Z.UsualField(Raw(TypeId(f.field), PaddedBody(f.field, f.minimum, ver)))
  {
  }

  lemma {:induction false} UsualPlain(data: Bytes, pos: nat, fs: seq<Sized>, next: Bytes, ver: Version)
    requires Readable(fs, ver) && forall i :: 0 <= i < |fs| ==> UsualSized(fs[i])
    requires Continues(data, pos, EncodeAll(fs, ver) + next)
    requires pos + |EncodeAll(fs, ver)| <= |data| && UsualFrom(data, pos + |EncodeAll(fs, ver)|, ver)
    ensures UsualFrom(data, pos, ver)
    decreases |fs|
  {
    hide UsualFrom, UsualSized, Encode, Reread, Encodable, LengthFits, TypeId, PaddedBody, Continues;
    if fs != [] {
      var f := fs[0];
      var e, rest := Encode(f.field, f.minimum, ver), EncodeAll(fs[1..], ver);
      assert EncodeAll(fs, ver) + next == e + (rest + next);
      assert ReadableField(f.field, f.minimum, ver);
      ContinuesPast(data, pos, e, rest + next);
      UsualPlain(data, pos + |e|, fs[1..], next, ver);
      ReadBack(f.field, f.minimum, ver, rest + next);
      UsualRaw(f, ver);
      assert data[pos..] == e + (rest + next) by { ContinuesWith(data, pos, e + (rest + next)); }
      UsualNext(data, pos, Raw(TypeId(f.field), PaddedBody(f.field, f.minimum, ver)), ver);
    }
  }

  lemma ContinuesWith(data: Bytes, pos: nat, next: Bytes)
    requires Continues(data, pos, next)
    ensures pos <= |data| && data[pos..] == next
  {
  }

  lemma UsualSealed(nonce: Bytes, sealed: Bytes)
    requires |nonce| == NONCE_LENGTH && |sealed| >= TAG_LENGTH && SealedFits(nonce, sealed)
    ensures Z.UsualField(Raw(NTS_ENCRYPTED_FIELD, SealedBody(nonce, sealed)))
  {
    hide SealedBody, ReadSealed;
    SealedBodyReadBack(nonce, sealed);
  }

  /** A packet of authenticated fields and an encrypted field, all of the usual sizes. */
  lemma UsualPacketWritten(header: Bytes, d: EfData, nonce: Bytes, sealed: Bytes, ver: Version)
    requires |header| == HEADER && EfReadable(d, ver) && EfEncodable(d, ver)
    requires forall i :: 0 <= i < |d.authenticated| ==> UsualSized(Sized(d.authenticated[i], AUTHENTICATED_MINIMUM))
    requires SealedFits(nonce, sealed) && |nonce| == NONCE_LENGTH && |sealed| >= TAG_LENGTH
    ensures Z.Usual(SealedAs(header, d, nonce, sealed, ver), ver)
  {
    hide EncodeAll, UsualSized, EncodeSealed, UsualFrom, Readable, AllEncodable, UntrustedReadable, Z.UsualField, Reaches, ReadRaw;
    var auth := WithMinimum(d.authenticated, AUTHENTICATED_MINIMUM);
    var a, aad, e := EncodeAll(auth, ver), AssociatedData(header, d, ver), EncodeSealed(nonce, sealed);
    var data := SealedAs(header, d, nonce, sealed, ver);
    assert data == aad + e + [] + [];
    PacketSlices(header, a, e, [], []);
    assert e + ([] + []) == e + [];
    SealedReadBack(nonce, sealed, [], ver);
    UsualSealed(nonce, sealed);
    UsualEnd(data, ver);
    UsualNext(data, |aad|, Raw(NTS_ENCRYPTED_FIELD, SealedBody(nonce, sealed)), ver);
    UsualPlain(data, HEADER, auth, e + ([] + []), ver);
    UsualFromHeader(data, ver);
  }

  lemma UsualFromHeader(data: Bytes, ver: Version)
    requires HEADER <= |data| && UsualFrom(data, HEADER, ver)
    ensures Z.Usual(data, ver)
  {
    hide Reaches, ReadRaw, Z.UsualField;
  }

  lemma PollUsual(header: Bytes, cookie: Bytes, n: nat, poll: Poll, cipher: Cipher, nonce: Bytes, ver: Version)
    requires |header| == HEADER && X.ServerCookieLength(|cookie|) && n >= 1 && X.ProperPoll(poll)
    requires |nonce| == NONCE_LENGTH && Opens(cipher, cipher)
    ensures var d := NtsPollFields(cookie, n, poll, ver);
            EfEncodable(d, ver) && Z.Usual(PollMessage(header, cookie, n, poll, cipher, nonce, ver), ver)
  {
    hide NtsPollFields, EfReadable, EfEncodable, Serialized, SealedText, Z.Usual, RereadData, UsualSized;
    var d := NtsPollFields(cookie, n, poll, ver);
    PollShape(cookie, n, poll, ver);
    X.PollReadExactly(cookie, n, poll, ver);
    ReadableIsEncodable(d, ver);
    PollSealFits(header, d, cipher, nonce, ver);
    PollFieldsUsual(cookie, n, poll, ver);
    SerializedAs(header, d, cipher, nonce, ver);
    UsualPacketWritten(header, d, nonce, SealedText(header, d, cipher, nonce, ver), ver);
  }

  lemma PollFieldsUsual(cookie: Bytes, n: nat, poll: Poll, ver: Version)
    requires X.ServerCookieLength(|cookie|) && n >= 1 && X.ProperPoll(poll)
    ensures var fs := NtsPollFields(cookie, n, poll, ver).authenticated;
            forall i :: 0 <= i < |fs| ==> UsualSized(Sized(fs[i], AUTHENTICATED_MINIMUM))
  {
  }

  /* ---- The answer ---- */

  /** The request as the server reads it, and the answer with the time. */
  function TimeFor(h: Header, cookie: Bytes, n: nat, poll: Poll, ver: Version, keys: K.Cookie, length: nat): S.Reply
    requires |cookie| <= 0xFFFF && n >= 1
  {
    S.Reply(NtsTimeReply, Packet(NumberOf(ver), SettleLeap(h), NtsPollFields(cookie, n, poll, ver), None), Some(keys), Some(length))
  }

  lemma UsableKeys(history: nat, all: seq<Bytes>)
    requires all != [] && history < K.WORD32 - 1
    ensures S.Usable(K.RotatedThrough(history, all).current)
  {
    K.Holds(history, all);
  }

  /**
   A client polls with a cookie that the server made some rotations ago. If it is welcome and its version is
   accepted, a buffer as long as the poll is enough for it to be given the time, sealed under the keys in its
   cookie, exactly while the number of rotations since is within the server's history; after that it is told
   that its encryption is no longer good.
   */
  lemma ServedWithinHistory(history: nat, all: seq<Bytes>, made: nat, keys: K.Cookie, cookieNonce: Bytes,
                            h: Header, n: nat, poll: Poll, nonce: Bytes, ver: Version, siv: K.Siv,
                            c: S.Config, slots: R.Slots, hash: R.Hash, ip: I.IpAddr, at: R.Instant,
                            buffer: nat, supplies: S.Supplies)
    requires history < K.WORD32 - 1 && 0 < made <= |all| && |all| - made < K.WORD32
    requires K.ProperSiv(siv) && Z.Tight(siv) && K.ProperCookie(keys)
    requires |cookieNonce| == NONCE_LENGTH == |nonce| && S.ProperSupplies(supplies)
    requires ClientHeader(h, ver) && n >= 1 && X.ProperPoll(poll)
    requires S.ValidConfig(c) && NumberOf(ver) in c.acceptedVersions
    ensures var before, now := K.RotatedThrough(history, all[..made]).current, K.RotatedThrough(history, all).current;
            && S.Usable(before) && S.Usable(now)
            && var cookie := K.EncodeCookie(before, siv, keys, cookieNonce);
            && |cookie| <= 0xFFFF && EfEncodable(NtsPollFields(cookie, n, poll, ver), ver)
            && var message := PollMessage(Write(h, NumberOf(ver)), cookie, n, poll, siv(keys.c2s), nonce, ver);
               var a := S.Arrival(ip, message, at, buffer, supplies);
               var o := S.Handle(c, now, siv, slots, hash, a).0;
               |message| <= buffer && |message| <= 0xFFFF && S.Welcome(c, slots, hash, a) ==>
                 if |all| - made <= history
                 then && o.registration.response == S.ProvideTime && o.sent.Some?
                      && o.sent == S.ReplyBytes(TimeFor(h, cookie, n, poll, ver, keys, |message|), now, siv, supplies)
                 else o.registration.response == S.NtsNak && o.sent.Some?
  {
    hide K.RotatedThrough, K.DecodeCookie, K.EncodeCookie, EfEncodable, NtsPollFields, Serialized, S.ReplyBytes;
    hide S.Handle, S.Welcome, ReadPacket, Write, SettleLeap, ModeOf, K.ProperSiv, Z.Tight, Z.Usual, S.ProperSupplies, S.CanSend;
    var before, now := K.RotatedThrough(history, all[..made]).current, K.RotatedThrough(history, all).current;
    UsableKeys(history, all[..made]);
    UsableKeys(history, all);
    K.CookieLifetime(history, all, made, siv, keys, cookieNonce);
    var cookie := K.EncodeCookie(before, siv, keys, cookieNonce);
    K.CookieLength(before, siv, keys, cookieNonce);
    PollRead(h, cookie, n, poll, keys, nonce, ver, now, siv);
    assert Opens(siv(keys.c2s), siv(keys.c2s)) by { OpensOwn(siv, keys.c2s); }
    PollUsual(Write(h, NumberOf(ver)), cookie, n, poll, siv(keys.c2s), nonce, ver);
    var message := PollMessage(Write(h, NumberOf(ver)), cookie, n, poll, siv(keys.c2s), nonce, ver);
    var a := S.Arrival(ip, message, at, buffer, supplies);
    if |message| <= buffer && |message| <= 0xFFFF {
      S.UsualCanSend(if |all| - made <= history then S.ProvideTime else S.NtsNak, now, siv, a);
      S.DecidedIff(c, now, siv, slots, hash, a);
      S.SentIff(c, now, siv, slots, hash, a);
    }
  }

  /* ---- A poll that does not open ---- */

  /** Exactly who is told that the encryption is no good: a welcome client of an accepted version whose packet is
      whole and has an encrypted field without a key for it or that does not open. */
  lemma NakIff(c: S.Config, ks: K.KeySet, siv: K.Siv, slots: R.Slots, hash: R.Hash, a: S.Arrival, ver: Version)
    requires S.ValidConfig(c) && !S.Panics(c, ks, siv, slots, hash, a)
    requires VersionBits(a.message) == VersionNumber(NumberOf(ver)) && !ReadPacket(a.message, ks, siv).Malformed?
    ensures P.Whole(a.message, ks, siv, ver)
    ensures var v := P.ViewOf(a.message, ks, siv, ver);
            S.Handle(c, ks, siv, slots, hash, a).0.registration.response == S.NtsNak <==>
            && S.Welcome(c, slots, hash, a) && NumberOf(ver) in c.acceptedVersions
            && (exists i :: 0 <= i < |v.items| && P.IsSealed(v, i) && !P.Opens(v, i))
            && S.CanSend(S.NtsNak, ReadPacket(a.message, ks, siv), ks, siv, a)
  {
    hide ReadPacket, S.Handle, S.Welcome, S.CanSend, P.Whole, P.ViewOf, P.Opens, VersionBits;
    P.UndecryptableIff(a.message, ks, siv, ver);
    S.GivenNakIff(c, ks, siv, slots, hash, a);
    PacketVersion(a.message, ks, siv, ver);
  }

  lemma PacketVersion(data: Bytes, ks: K.KeySet, siv: K.Siv, ver: Version)
    requires VersionBits(data) == VersionNumber(NumberOf(ver)) && !ReadPacket(data, ks, siv).Malformed?
    ensures ReadPacket(data, ks, siv).packet.version == NumberOf(ver)
  {
    hide KeyProvider, DraftId, VersionBits;
  }

  /** The server cannot open a poll whose ciphertext is not the one that the client sealed. */
  lemma TamperedRead(h: Header, cookie: Bytes, n: nat, poll: Poll, keys: K.Cookie, nonce: Bytes, sealed: Bytes, ver: Version,
                     ks: K.KeySet, siv: K.Siv)
    requires X.ServerCookieLength(|cookie|) && n >= 1 && X.ProperPoll(poll) && ClientHeader(h, ver)
    requires |nonce| == NONCE_LENGTH && |sealed| == TAG_LENGTH && K.DecodeCookie(ks, siv, cookie) == Some(keys)
    requires EfEncodable(NtsPollFields(cookie, n, poll, ver), ver)
    requires var d, header := NtsPollFields(cookie, n, poll, ver), Write(h, NumberOf(ver));
             siv(keys.c2s).open(nonce, AssociatedData(header, d, ver), sealed) == None
    ensures var d, v := NtsPollFields(cookie, n, poll, ver), NumberOf(ver);
            var message := SealedAs(Write(h, v), d, nonce, sealed, ver);
            && ReadPacket(message, ks, siv) ==
               Undecryptable(Packet(v, SettleLeap(h), EfData([], [], d.authenticated + [InvalidNtsEncryptedField]), None))
            && Z.Usual(message, ver)
  {
    hide NtsPollFields, EfEncodable, EfReadable, RereadData, Deserialize, K.DecodeCookie, DraftId, Write, ReadWith, SettleLeap, Find;
    hide AssociatedData, EncodeSealed, UsualSized, Z.Usual;
    var header, d := Write(h, NumberOf(ver)), NtsPollFields(cookie, n, poll, ver);
    PollShape(cookie, n, poll, ver);
    X.PollReadExactly(cookie, n, poll, ver);
    PollFind(cookie, n, poll, ver, ks, siv);
    RejectedPacket(header, d, nonce, sealed, KeyProvider(ks, siv), ver);
    var m := SealedAs(header, d, nonce, sealed, ver);
    assert |m| >= HEADER && m[..HEADER] == header by { BehindHeader(header, d, nonce, sealed, ver); }
    ReadBehind(h, m, ver, KeyProvider(ks, siv), Rejected(d.authenticated));
    PollFieldsUsual(cookie, n, poll, ver);
    UsualPacketWritten(header, d, nonce, sealed, ver);
  }

  lemma BehindHeader(header: Bytes, d: EfData, nonce: Bytes, sealed: Bytes, ver: Version)
    requires EfEncodable(d, ver)
    ensures var m := SealedAs(header, d, nonce, sealed, ver); |m| >= |header| && m[..|header|] == header
  {
    hide EncodeAll, EncodeSealed;
  }

  /** A welcome client whose poll was changed on the way is told so, and is not given the time. */
  lemma TamperedNak(h: Header, cookie: Bytes, n: nat, poll: Poll, keys: K.Cookie, nonce: Bytes, sealed: Bytes, ver: Version,
                    ks: K.KeySet, siv: K.Siv, c: S.Config, slots: R.Slots, hash: R.Hash, ip: I.IpAddr, at: R.Instant,
                    buffer: nat, supplies: S.Supplies)
    requires X.ServerCookieLength(|cookie|) && n >= 1 && X.ProperPoll(poll) && ClientHeader(h, ver)
    requires |nonce| == NONCE_LENGTH && |sealed| == TAG_LENGTH && K.DecodeCookie(ks, siv, cookie) == Some(keys)
    requires EfEncodable(NtsPollFields(cookie, n, poll, ver), ver)
    requires var d, header := NtsPollFields(cookie, n, poll, ver), Write(h, NumberOf(ver));
             siv(keys.c2s).open(nonce, AssociatedData(header, d, ver), sealed) == None
    requires K.ProperSiv(siv) && Z.Tight(siv) && S.ProperSupplies(supplies)
    requires S.ValidConfig(c) && NumberOf(ver) in c.acceptedVersions
    ensures var message := SealedAs(Write(h, NumberOf(ver)), NtsPollFields(cookie, n, poll, ver), nonce, sealed, ver);
            var a := S.Arrival(ip, message, at, buffer, supplies);
            S.Welcome(c, slots, hash, a) && |message| <= buffer && |message| <= 0xFFFF ==>
              && !S.Panics(c, ks, siv, slots, hash, a)
              && S.Handle(c, ks, siv, slots, hash, a).0.registration.response == S.NtsNak
              && S.Handle(c, ks, siv, slots, hash, a).0.sent.Some?
  {
    hide NtsPollFields, EfEncodable, K.DecodeCookie, K.ProperSiv, Z.Tight, Z.Usual, S.ProperSupplies, S.CanSend, S.Handle, S.Welcome;
    hide ReadPacket, Write, SettleLeap, SealedAs, AssociatedData, S.Panics, ClientHeader;
    var message := SealedAs(Write(h, NumberOf(ver)), NtsPollFields(cookie, n, poll, ver), nonce, sealed, ver);
    var a := S.Arrival(ip, message, at, buffer, supplies);
    TamperedRead(h, cookie, n, poll, keys, nonce, sealed, ver, ks, siv);
    if S.Welcome(c, slots, hash, a) && |message| <= buffer && |message| <= 0xFFFF {
      S.PanicsIff(c, ks, siv, slots, hash, a);
      S.UsualCanSend(S.NtsNak, ks, siv, a);
      S.GivenNakIff(c, ks, siv, slots, hash, a);
      S.SentIff(c, ks, siv, slots, hash, a);
    }
  }

  /** A key set whose primary number is the number of its keys, as loading lets through. */
  function WithoutPrimary(ks: K.KeySet): K.KeySet
    requires |ks.keys| < K.WORD32
  {
    K.KeySet(ks.keys, ks.idOffset, |ks.keys|)
  }

  /** With such a key set the poll of a welcome client under a cookie of this server makes it panic. */
  lemma PollPanics(ks: K.KeySet, keys: K.Cookie, cookieNonce: Bytes, h: Header, n: nat, poll: Poll, nonce: Bytes, ver: Version,
                   siv: K.Siv, c: S.Config, slots: R.Slots, hash: R.Hash, ip: I.IpAddr, at: R.Instant,
                   buffer: nat, supplies: S.Supplies)
    requires S.Usable(ks) && |ks.keys| < K.WORD32 && K.ProperSiv(siv) && K.ProperCookie(keys)
    requires |cookieNonce| == NONCE_LENGTH == |nonce| && ClientHeader(h, ver) && n >= 1 && X.ProperPoll(poll)
    requires S.ValidConfig(c) && NumberOf(ver) in c.acceptedVersions
    ensures var cookie := K.EncodeCookie(ks, siv, keys, cookieNonce);
            && |cookie| <= 0xFFFF && EfEncodable(NtsPollFields(cookie, n, poll, ver), ver)
            && var message := PollMessage(Write(h, NumberOf(ver)), cookie, n, poll, siv(keys.c2s), nonce, ver);
               var a := S.Arrival(ip, message, at, buffer, supplies);
               S.Welcome(c, slots, hash, a) ==> S.Panics(c, WithoutPrimary(ks), siv, slots, hash, a)
  {
    hide K.DecodeCookie, K.EncodeCookie, EfEncodable, NtsPollFields, Serialized, S.Welcome, S.Panics, ReadPacket, Write, SettleLeap, ModeOf;
    hide K.ProperSiv, S.AsksEarly;
    var cookie := K.EncodeCookie(ks, siv, keys, cookieNonce);
    K.CookieLength(ks, siv, keys, cookieNonce);
    K.DecodeWith(ks, WithoutPrimary(ks), siv, keys, cookieNonce);
    PollRead(h, cookie, n, poll, keys, nonce, ver, WithoutPrimary(ks), siv);
    PollAsks(cookie, n, poll, ver);
    var message := PollMessage(Write(h, NumberOf(ver)), cookie, n, poll, siv(keys.c2s), nonce, ver);
    S.PanicsIff(c, WithoutPrimary(ks), siv, slots, hash, S.Arrival(ip, message, at, buffer, supplies));
  }

  lemma PollAsks(cookie: Bytes, n: nat, poll: Poll, ver: Version)
    requires |cookie| <= 0xFFFF && n >= 1
    ensures S.AsksEarly(Looked(NtsPollFields(cookie, n, poll, ver)))
  {
    assert Asks(Looked(NtsPollFields(cookie, n, poll, ver))[1]);
  }

  lemma OpensOwn(siv: K.Siv, key: Bytes)
    requires K.ProperSiv(siv)
    ensures Opens(siv(key), siv(key))
  {
  }
}
