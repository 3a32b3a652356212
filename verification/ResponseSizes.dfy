/** Every field of a response is paid for by a field of the request. */
module ResponseSizes {
  import opened Bytes
  import opened Protocol
  import opened ExtensionFields
  import opened EncryptedFields
  import opened FieldWriter
  import opened CookieStashes
  import opened KeySets
  import opened Packets
  import opened Responses

  /** Opening takes off the tag that sealing adds. */
  ghost predicate Tight(siv: Siv) {
    forall key, nonce, aad, sealed ::
      siv(key).open(nonce, aad, sealed).Some? ==> |sealed| == |siv(key).open(nonce, aad, sealed).value| + TAG_LENGTH
  }

  /** Identifiers of 24 bytes or more, and encrypted fields with a nonce and a tag of 16; section 5 of RFC 8915
      asks for at least as much. */
  predicate UsualField(raw: Raw) {
    && (raw.typeId == UNIQUE_IDENTIFIER ==> |raw.body| >= 24)
    && (raw.typeId == NTS_ENCRYPTED_FIELD && ReadSealed(raw.body).Ok? ==>
          |ReadSealed(raw.body).value.nonce| >= NONCE_LENGTH && |ReadSealed(raw.body).value.sealed| >= TAG_LENGTH)
  }

  ghost predicate Usual(data: Bytes, ver: Version) {
    forall q: nat :: FieldStart(data, q, ver) ==> UsualField(ReadRaw(data[q..], ver).value)
  }

  predicate LongId(f: ExtField) {
    f.UniqueIdentifier? ==> 24 <= |f.data| <= MAX_BODY
  }

  predicate LongIds(fs: seq<ExtField>) {
    forall i :: 0 <= i < |fs| ==> LongId(fs[i])
  }

  /** What a state has been paid: its fields, and the frame of an encrypted field once one was opened. */
  function Paid(st: State<Cookie>): nat {
    Total(st.efdata.untrusted) + Total(st.efdata.authenticated) + Total(st.efdata.encrypted)
    + if st.cookie.Some? then 40 else 0
  }

  predicate Accounted(data: Bytes, pos: nat, st: State<Cookie>, ver: Version) {
    && HEADER <= pos <= |data| && Reaches(data, HEADER, pos, ver)
    && LongIds(st.efdata.untrusted) && LongIds(st.efdata.authenticated)
    && HEADER + Paid(st) <= pos
  }

  /** The frame, the nonce and the tag of an encrypted field take 40 bytes. */
  lemma SealedWire(raw: Raw)
    requires raw.typeId == NTS_ENCRYPTED_FIELD && |raw.body| <= MAX_BODY && ReadSealed(raw.body).Ok? && UsualField(raw)
    ensures WireLength(raw) >= 24 + |ReadSealed(raw.body).value.sealed| >= 40
  {
  }

  lemma StepPays(data: Bytes, pos: nat, st: State<Cookie>, ks: KeySet, siv: Siv, ver: Version)
    requires Accounted(data, pos, st, ver) && Usual(data, ver) && Tight(siv)
    requires |data| - pos > Cutoff(ver) && ReadRaw(data[pos..], ver).Ok?
    requires Step(st, ReadRaw(data[pos..], ver).value, data[..pos], KeyProvider(ks, siv), ver).Ok?
    ensures var raw := ReadRaw(data[pos..], ver).value;
            Accounted(data, pos + WireLength(raw), Step(st, raw, data[..pos], KeyProvider(ks, siv), ver).value, ver)
  {
    hide ReadRaw, ReadSealed, DecodeAll, Decode, Find, WireLength, Reaches, Total, LongIds, UsualField;
    var raw, d := ReadRaw(data[pos..], ver).value, st.efdata;
    ReachesNext(data, HEADER, pos, ver);
    assert FieldStart(data, pos, ver);
    if raw.typeId != NTS_ENCRYPTED_FIELD {
      DecodedPays(raw, d.untrusted, ver);
    } else {
      SealedWire(raw);
      var s := ReadSealed(raw.body).value;
      if Find(d.untrusted, ks, siv).One?
         && siv(Find(d.untrusted, ks, siv).cookie.c2s).open(s.nonce, data[..pos], s.sealed).Some? {
        var plain := siv(Find(d.untrusted, ks, siv).cookie.c2s).open(s.nonce, data[..pos], s.sealed).value;
        AcceptPays(d, plain, ver);
      } else {
        RejectPays(d.untrusted);
      }
    }
  }

  lemma DecodedPays(raw: Raw, fs: seq<ExtField>, ver: Version)
    requires |raw.body| <= MAX_BODY && Decode(raw, ver).Ok? && UsualField(raw) && LongIds(fs)
    ensures var f := Decode(raw, ver).value; LongIds(fs + [f]) && Total(fs + [f]) == Total(fs) + WireLength(raw)
  {
    hide FieldSize, Total, WireLength, ReadSealed;
    var f := Decode(raw, ver).value;
    DecodedSize(raw, ver);
    TotalOne(f);
    TotalJoin(fs, [f]);
  }

  lemma AcceptPays(d: EfData, plain: Bytes, ver: Version)
    requires DecodeAll(plain, ver).Ok? && LongIds(d.untrusted) && LongIds(d.authenticated)
    ensures LongIds(d.authenticated + d.untrusted) && LongIds([])
    ensures Total(d.authenticated + d.untrusted) == Total(d.authenticated) + Total(d.untrusted) && Total([]) == 0
    ensures Total(d.encrypted + DecodeAll(plain, ver).value) == Total(d.encrypted) + |plain|
  {
    hide FieldSize, Total, DecodeAll;
    NothingTotal();
    TotalJoin(d.authenticated, d.untrusted);
    TotalJoin(d.encrypted, DecodeAll(plain, ver).value);
    DecodeAllSize(plain, ver);
  }

  lemma RejectPays(fs: seq<ExtField>)
    requires LongIds(fs)
    ensures LongIds(fs + [InvalidNtsEncryptedField])
    ensures Total(fs + [InvalidNtsEncryptedField]) == Total(fs) + 28
  {
    hide Total;
    TotalOne(InvalidNtsEncryptedField);
    TotalJoin(fs, [InvalidNtsEncryptedField]);
  }

  lemma {:induction false} ReadPays(data: Bytes, pos: nat, st: State<Cookie>, ks: KeySet, siv: Siv, ver: Version)
    requires Accounted(data, pos, st, ver) && Usual(data, ver) && Tight(siv)
    requires ReadFrom(data, pos, st, KeyProvider(ks, siv), ver).Ok?
    ensures var r := ReadFrom(data, pos, st, KeyProvider(ks, siv), ver).value;
            && HEADER + Paid(r.state) + |r.remaining| <= |data|
            && LongIds(r.state.efdata.untrusted) && LongIds(r.state.efdata.authenticated)
    decreases |data| - pos
  {
    hide KeyProvider, Step, ReadRaw, WireLength, Reaches, Usual, Tight, LongIds, Paid;
    if |data[pos..]| > Cutoff(ver) {
      var raw := ReadRaw(data[pos..], ver).value;
      StepPays(data, pos, st, ks, siv, ver);
      ReadPays(data, pos + WireLength(raw), Step(st, raw, data[..pos], KeyProvider(ks, siv), ver).value, ks, siv, ver);
    }
  }

  /* ---- What a response costs ---- */

  /** The bytes of the fields that ask for cookies. */
  function AskTotal(fs: seq<ExtField>): nat {
    if fs == [] then 0
    else AskTotal(fs[..|fs| - 1]) + if Asks(fs[|fs| - 1]) then FieldSize(fs[|fs| - 1]) else 0
  }

  lemma {:induction false} AskJoin(a: seq<ExtField>, b: seq<ExtField>)
    ensures AskTotal(a + b) == AskTotal(a) + AskTotal(b)
    decreases |b|
  {
    hide FieldSize;
    if b == [] {
      assert a + b == a;
    } else {
      AskJoin(a, b[..|b| - 1]);
      assert (a + b)[..|a + b| - 1] == a + b[..|b| - 1];
    }
  }

  lemma {:induction false} AskAtMost(fs: seq<ExtField>)
    ensures AskTotal(fs) <= Total(fs)
  {
    hide FieldSize;
    if fs != [] {
      AskAtMost(fs[..|fs| - 1]);
    }
  }

  /** Every new cookie is paid for by the field that asked for it. */
  lemma {:induction false} IssuePays(fs: seq<ExtField>, mint: nat -> Bytes)
    ensures Total(Issue(fs, mint)) <= AskTotal(fs)
  {
    if fs != [] {
      var n := |fs| - 1;
      IssuePays(fs[..n], mint);
      if HasRoom(fs[n], |mint(n)|) {
        RoomPays(fs[n], mint(n));
        TotalOne(NtsCookie(mint(n)));
        TotalJoin(Issue(fs[..n], mint), [NtsCookie(mint(n))]);
      } else {
        assert Issue(fs[..n], mint) + [] == Issue(fs[..n], mint);
      }
    }
  }

  lemma RoomPays(f: ExtField, cookie: Bytes)
    requires HasRoom(f, |cookie|)
    ensures Asks(f) && FieldSize(NtsCookie(cookie)) <= FieldSize(f)
  {
  }

  lemma IssuedPays(request: EfData, mint: nat -> Bytes)
    ensures Total(IssuedCookies(request, mint)) <= AskTotal(request.authenticated) + Total(request.encrypted)
  {
    hide Issue, Total, AskTotal;
    var fs := Looked(request);
    var k := Min(|fs|, MAX_COOKIES);
    IssuePays(fs[..k], mint);
    AskJoin(fs[..k], fs[k..]);
    assert fs[..k] + fs[k..] == fs;
    AskJoin(request.authenticated, request.encrypted);
    AskAtMost(request.encrypted);
  }

  /** A field that can pay for the draft identification of the response. */
  predicate PaysDraft(f: ExtField) {
    f == DraftIdentification(DRAFT_VERSION) || f.InvalidNtsEncryptedField?
  }

  predicate SomePaysDraft(fs: seq<ExtField>) {
    exists i :: 0 <= i < |fs| && PaysDraft(fs[i])
  }

  lemma DraftSize()
    ensures FieldSize(DraftIdentification(DRAFT_VERSION)) == 28
  {
  }

  lemma EchoOnePays(f: ExtField, bloom: Option<Bytes>)
    ensures Total(EchoOne(f, bloom)) <= if Asks(f) || PaysDraft(f) then 0 else FieldSize(f)
    ensures PaysDraft(f) ==> FieldSize(f) == 28 && !Asks(f)
  {
    hide Total, RoundUp4;
    NothingTotal();
    DraftSize();
    match f
    case UniqueIdentifier(_) => TotalOne(f);
    case ReferenceIdRequest(n, offset) =>
      if bloom.Some? && offset + n <= |bloom.value| {
        TotalOne(ReferenceIdResponse(bloom.value[offset..offset + n]));
      }
    case _ =>
  }

  /** What is echoed is paid for by fields that ask for no cookie, and there is something left for the draft. */
  lemma {:induction false} EchoPays(fs: seq<ExtField>, bloom: Option<Bytes>)
    ensures Total(Echo(fs, bloom)) + AskTotal(fs) + (if SomePaysDraft(fs) then 28 else 0) <= Total(fs)
  {
    hide FieldSize, EchoOne, PaysDraft;
    if fs != [] {
      var init, last := fs[..|fs| - 1], fs[|fs| - 1];
      EchoPays(init, bloom);
      EchoOnePays(last, bloom);
      TotalJoin(Echo(init, bloom), EchoOne(last, bloom));
      if SomePaysDraft(fs) && !PaysDraft(last) {
        var i :| 0 <= i < |fs| && PaysDraft(fs[i]);
        assert PaysDraft(init[i]);
      }
    }
  }

  /** The fields of responses, which need no padding up to a minimum. */
  predicate Filling(f: ExtField) {
    || (f.UniqueIdentifier? && 24 <= |f.data| <= MAX_BODY)
    || (f.ReferenceIdResponse? && |f.data| <= MAX_BODY)
    || f == DraftIdentification(DRAFT_VERSION)
  }

  lemma {:induction false} EchoFilling(fs: seq<ExtField>, bloom: Option<Bytes>)
    requires LongIds(fs) && (bloom.Some? ==> |bloom.value| <= MAX_BODY)
    ensures forall i :: 0 <= i < |Echo(fs, bloom)| ==> Filling(Echo(fs, bloom)[i])
    ensures bloom.None? ==> forall i :: 0 <= i < |Echo(fs, bloom)| ==> Echo(fs, bloom)[i].UniqueIdentifier?
  {
    if fs != [] {
      EchoFilling(fs[..|fs| - 1], bloom);
      assert LongId(fs[|fs| - 1]);
    }
  }

  /** What responses carry in the clear or authenticated. */
  predicate Echoed(f: ExtField) {
    || (f.UniqueIdentifier? && |f.data| <= MAX_BODY)
    || (f.ReferenceIdResponse? && |f.data| <= MAX_BODY)
    || f == DraftIdentification(DRAFT_VERSION)
  }

  predicate AllEchoed(fs: seq<ExtField>) {
    forall i :: 0 <= i < |fs| ==> Echoed(fs[i])
  }

  /** The padding that a field needs up to its minimum size. */
  function Short(f: Sized): nat {
    Max(0, MinimumFor(f.field, f.minimum) - FieldSize(f.field))
  }

  function Shortage(fs: seq<Sized>): nat {
    if fs == [] then 0 else Shortage(fs[..|fs| - 1]) + Short(fs[|fs| - 1])
  }

  lemma {:induction false} NoShortage(fs: seq<Sized>)
    requires forall i :: 0 <= i < |fs| ==> Short(fs[i]) == 0
    ensures Shortage(fs) == 0
  {
    hide Short;
    if fs != [] {
      NoShortage(fs[..|fs| - 1]);
    }
  }

  predicate ExactSize(f: Sized, ver: Version) {
    Encodable(f.field) && |Encode(f.field, f.minimum, ver)| == FieldSize(f.field) + Short(f)
  }

  lemma EchoedSize(f: ExtField, minimum: U16, ver: Version)
    requires Echoed(f) && minimum % 4 == 0
    ensures ExactSize(Sized(f, minimum), ver)
  {
    hide Encode, RoundUp4;
    RoundedMax(|Body(f)| + 4, MinimumFor(f, minimum));
  }

  lemma RoundedMax(n: nat, m: nat)
    requires m % 4 == 0
    ensures RoundUp4(Max(n, m)) == Max(RoundUp4(n), m)
  {
  }

  lemma NewCookieSize(cookie: Bytes, ver: Version)
    requires |cookie| <= MAX_BODY
    ensures ExactSize(Sized(NtsCookie(cookie), 0), ver) && Short(Sized(NtsCookie(cookie), 0)) == 0
  {
    hide Encode, RoundUp4;
  }

  lemma {:induction false} EncodedTotal(fs: seq<Sized>, ver: Version)
    requires forall i :: 0 <= i < |fs| ==> ExactSize(fs[i], ver)
    ensures AllEncodable(fs) && |EncodeAll(fs, ver)| == Total(FieldsOf(fs)) + Shortage(fs)
  {
    hide Encode, Encodable, FieldSize, EncodeAll, Total, Short;
    if fs == [] {
      NoneEncoded(fs, ver);
      NothingTotal();
    } else {
      var init, last := fs[..|fs| - 1], fs[|fs| - 1];
      EncodedTotal(init, ver);
      assert ExactSize(last, ver);
      EncodeAllAppend(init, last, ver);
      assert init + [last] == fs;
      assert FieldsOf(fs) == FieldsOf(init) + [last.field];
      TotalOne(last.field);
      TotalJoin(FieldsOf(init), [last.field]);
    }
  }

  predicate AllFilling(fs: seq<ExtField>) {
    forall i :: 0 <= i < |fs| ==> Filling(fs[i])
  }

  predicate AllCookies(fs: seq<ExtField>) {
    forall i :: 0 <= i < |fs| ==> fs[i].NtsCookie? && |fs[i].data| <= MAX_BODY
  }

  lemma AuthenticatedSize(fs: seq<ExtField>, ver: Version)
    requires AllEchoed(fs)
    ensures var sized := WithMinimum(fs, AUTHENTICATED_MINIMUM);
            AllEncodable(sized) && |EncodeAll(sized, ver)| == Total(fs) + Shortage(sized)
  {
    hide Echoed, EncodeAll, Total, Encode, Encodable, FieldSize, Short, Shortage;
    var sized := WithMinimum(fs, AUTHENTICATED_MINIMUM);
    forall i | 0 <= i < |sized|
      ensures ExactSize(sized[i], ver)
    {
      EchoedSize(fs[i], AUTHENTICATED_MINIMUM, ver);
    }
    EncodedTotal(sized, ver);
    assert FieldsOf(sized) == fs;
  }

  lemma UntrustedSize(fs: seq<ExtField>, ver: Version)
    requires AllEchoed(fs)
    ensures var sized := UntrustedSizes(fs, ver);
            AllEncodable(sized) && |EncodeAll(sized, ver)| == Total(fs) + Shortage(sized)
  {
    hide Echoed, EncodeAll, Total, Encode, Encodable, FieldSize, Short, Shortage;
    var sized := UntrustedSizes(fs, ver);
    forall i | 0 <= i < |sized|
      ensures ExactSize(sized[i], ver)
    {
      assert sized[i] == Sized(fs[i], UntrustedMinimum(i == |fs| - 1, ver));
      EchoedSize(fs[i], sized[i].minimum, ver);
    }
    EncodedTotal(sized, ver);
    assert FieldsOf(sized) == fs;
  }

  lemma EncryptedSize(fs: seq<ExtField>, ver: Version)
    requires AllCookies(fs)
    ensures var sized := WithMinimum(fs, 0); AllEncodable(sized) && |EncodeAll(sized, ver)| == Total(fs)
  {
    hide EncodeAll, Total, Encode, Encodable, FieldSize, Short, Shortage;
    var sized := WithMinimum(fs, 0);
    forall i | 0 <= i < |sized|
      ensures ExactSize(sized[i], ver) && Short(sized[i]) == 0
    {
      NewCookieSize(fs[i].data, ver);
    }
    EncodedTotal(sized, ver);
    NoShortage(sized);
    assert FieldsOf(sized) == fs;
  }

  lemma FillingOne(f: ExtField, minimum: U16)
    requires Filling(f) && minimum <= 28
    ensures Echoed(f) && Short(Sized(f, minimum)) == 0
  {
  }

  /** Fields of the usual sizes need no padding. */
  lemma FillingShort(fs: seq<ExtField>, ver: Version)
    requires AllFilling(fs)
    ensures AllEchoed(fs) && Shortage(WithMinimum(fs, AUTHENTICATED_MINIMUM)) == 0 && Shortage(UntrustedSizes(fs, ver)) == 0
  {
    hide Shortage, Short, Filling, Echoed;
    var a, u := WithMinimum(fs, AUTHENTICATED_MINIMUM), UntrustedSizes(fs, ver);
    forall i | 0 <= i < |fs|
      ensures Echoed(fs[i]) && Short(a[i]) == 0 && Short(u[i]) == 0
    {
      FillingOne(fs[i], AUTHENTICATED_MINIMUM);
      FillingOne(fs[i], UntrustedMinimum(i == |fs| - 1, ver));
    }
    NoShortage(a);
    NoShortage(u);
  }

  /** A nonce of 16 bytes, a tag of 16 and their lengths make a frame of 40 around the fields. */
  lemma Aligned(n: nat)
    requires n % 4 == 0
    ensures RoundUp4(n + TAG_LENGTH) == n + TAG_LENGTH && RoundUp4(NONCE_LENGTH) == 16
  {
  }

  /** What the fields of a response cost, with the frame of an encrypted field if there is one. */
  function Cost(d: EfData): nat {
    Total(d.authenticated) + Total(d.encrypted) + Total(d.untrusted) + if NeedsCipher(d) then 40 else 0
  }

  /** The padding that they need up to their minimum sizes. */
  function Shortfall(d: EfData, ver: Version): nat {
    Shortage(WithMinimum(d.authenticated, AUTHENTICATED_MINIMUM)) + Shortage(UntrustedSizes(d.untrusted, ver))
  }

  /** How long a response is before padding. */
  lemma PackedSize(header: Bytes, d: EfData, cipher: Option<Cipher>, nonce: Bytes, ver: Version)
    requires AllEchoed(d.authenticated) && AllCookies(d.encrypted) && AllEchoed(d.untrusted)
    requires (cipher.Some? ==> Tagged(cipher.value)) && (NeedsCipher(d) ==> cipher.Some?) && |nonce| == NONCE_LENGTH
    ensures EfEncodable(d, ver)
    ensures |Packed(header, d, _ => cipher, nonce, ver)| == |header| + Cost(d) + Shortfall(d, ver)
  {
    hide EncodeAll, Total, AllEncodable, SealedBody, Framing, RoundUp4, AllEchoed, AllCookies, WithMinimum, UntrustedSizes, Shortage;
    AuthenticatedSize(d.authenticated, ver);
    EncryptedSize(d.encrypted, ver);
    UntrustedSize(d.untrusted, ver);
    if NeedsCipher(d) {
      var prefix := header + EncodeAll(WithMinimum(d.authenticated, AUTHENTICATED_MINIMUM), ver);
      var plain := EncodeAll(WithMinimum(d.encrypted, 0), ver);
      EncodeAllAligned(WithMinimum(d.encrypted, 0), ver);
      assert |cipher.value.seal(nonce, prefix, plain)| == |plain| + TAG_LENGTH;
      Aligned(|plain|);
    } else {
      NothingTotal();
      NothingShort(AUTHENTICATED_MINIMUM);
    }
  }

  lemma NothingShort(minimum: U16)
    ensures Shortage(WithMinimum([], minimum)) == 0
  {
  }

  /* ---- A buffer as long as the request ---- */

  predicate ForNts(b: Builder) {
    b.NtsDenyReply? || b.NtsTimeReply?
  }

  lemma {:induction false} IssuedAreCookies(fs: seq<ExtField>, mint: nat -> Bytes)
    requires forall i :: |mint(i)| <= MAX_BODY
    ensures AllCookies(Issue(fs, mint))
  {
    if fs != [] {
      IssuedAreCookies(fs[..|fs| - 1], mint);
    }
  }

  lemma SignedFits(fs: seq<ExtField>, v: NtpVersion)
    requires AllFilling(fs)
    ensures AllFilling(Signed(fs, v)) && Total(Signed(fs, v)) == Total(fs) + if v == Ntp5 then 28 else 0
  {
    hide Total;
    TotalOne(DraftIdentification(DRAFT_VERSION));
    TotalJoin(fs, [DraftIdentification(DRAFT_VERSION)]);
  }

  lemma LongIdsJoin(a: seq<ExtField>, b: seq<ExtField>)
    requires LongIds(a) && LongIds(b)
    ensures LongIds(a + b)
  {
  }

  /** The echoed fields of a response, with the draft, are within the fields they come from. */
  lemma EchoCost(fs: seq<ExtField>, bloom: Option<Bytes>, v: NtpVersion, others: seq<ExtField>)
    requires LongIds(fs) && (bloom.Some? ==> |bloom.value| <= MAX_BODY)
    requires v == Ntp5 ==> SomePaysDraft(fs) || SomePaysDraft(others)
    ensures AllFilling(Signed(Echo(fs, bloom), v))
    ensures Total(Signed(Echo(fs, bloom), v)) + AskTotal(fs) <= Total(fs) + Total(others)
  {
    hide Total, AskTotal, Echo, SomePaysDraft, LongIds, Filling, Signed;
    EchoFilling(fs, bloom);
    SignedFits(Echo(fs, bloom), v);
    EchoPays(fs, bloom);
    EchoPays(others, None);
  }

  lemma FieldsCost(b: Builder, v: NtpVersion, st: State<Cookie>, draws: Draws)
    requires v != Ntp3 && ProperDraws(draws) && LongIds(st.efdata.untrusted) && LongIds(st.efdata.authenticated)
    requires v == Ntp5 ==> SomePaysDraft(st.efdata.untrusted) || SomePaysDraft(st.efdata.authenticated)
    requires ForNts(b) ==> st.cookie.Some?
    ensures var d := ResponseFields(b, v, st.efdata, draws);
            && AllFilling(d.authenticated) && AllCookies(d.encrypted) && AllFilling(d.untrusted)
            && Cost(d) <= Paid(st)
            && (NeedsCipher(d) ==> ForNts(b))
  {
    hide Total, AskTotal, Echo, SomePaysDraft, LongIds, Filling, Signed, IssuedCookies;
    var r, bloom := st.efdata, if v == Ntp5 then Some(draws.bloom) else None;
    NothingTotal();
    if ForNts(b) {
      EchoCost(r.authenticated, bloom, v, r.untrusted);
      EchoCost(r.authenticated, None, v, r.untrusted);
      IssuedPays(r, draws.mint);
      IssuedAreCookies(Looked(r)[..Min(|Looked(r)|, MAX_COOKIES)], draws.mint);
      assert AllCookies(IssuedCookies(r, draws.mint)) by { IssuedAreThose(r, draws.mint); }
    } else {
      LongIdsJoin(r.untrusted, r.authenticated);
      DraftInBoth(r.untrusted, r.authenticated);
      TotalJoin(r.untrusted, r.authenticated);
      EchoCost(Open(r), bloom, v, []);
      EchoCost(Open(r), None, v, []);
    }
  }

  lemma IssuedAreThose(r: EfData, mint: nat -> Bytes)
    ensures IssuedCookies(r, mint) == Issue(Looked(r)[..Min(|Looked(r)|, MAX_COOKIES)], mint)
  {
  }

  lemma DraftInBoth(a: seq<ExtField>, b: seq<ExtField>)
    ensures SomePaysDraft(a + b) <==> SomePaysDraft(a) || SomePaysDraft(b)
  {
    if SomePaysDraft(a) {
      var i :| 0 <= i < |a| && PaysDraft(a[i]);
      assert PaysDraft((a + b)[i]);
    }
    if SomePaysDraft(b) {
      var i :| 0 <= i < |b| && PaysDraft(b[i]);
      assert PaysDraft((a + b)[|a| + i]);
    }
    if SomePaysDraft(a + b) {
      var i :| 0 <= i < |a + b| && PaysDraft((a + b)[i]);
      if i < |a| {
        assert PaysDraft(a[i]);
      } else {
        assert PaysDraft(b[i - |a|]);
      }
    }
  }

  lemma {:induction false} FirstDraftPays(fs: seq<ExtField>)
    requires FirstDraft(fs) == Some(DRAFT_VERSION)
    ensures SomePaysDraft(fs)
  {
    if fs[0].DraftIdentification? {
      assert PaysDraft(fs[0]);
    } else {
      FirstDraftPays(fs[1..]);
      var i :| 0 <= i < |fs[1..]| && PaysDraft(fs[1..][i]);
      assert PaysDraft(fs[i + 1]);
    }
  }

  /** A packet that could not be opened keeps the field that could not be. */
  predicate InvalidKept(st: State<Cookie>) {
    st.valid || SomePaysDraft(st.efdata.untrusted) || SomePaysDraft(st.efdata.authenticated)
  }

  lemma StepKeepsInvalid(st: State<Cookie>, raw: Raw, aad: Bytes, ks: KeySet, siv: Siv, ver: Version)
    requires InvalidKept(st) && |raw.body| <= MAX_BODY && Step(st, raw, aad, KeyProvider(ks, siv), ver).Ok?
    ensures InvalidKept(Step(st, raw, aad, KeyProvider(ks, siv), ver).value)
  {
    hide SomePaysDraft, Decode, DecodeAll, ReadSealed, Find;
    var d, r := st.efdata, Step(st, raw, aad, KeyProvider(ks, siv), ver).value;
    if r.efdata.untrusted != [] {
      DraftInBoth(d.untrusted, [r.efdata.untrusted[|r.efdata.untrusted| - 1]]);
      InvalidPays();
    } else {
      DraftInBoth(d.authenticated, d.untrusted);
    }
  }

  lemma InvalidPays()
    ensures SomePaysDraft([InvalidNtsEncryptedField])
  {
    assert PaysDraft([InvalidNtsEncryptedField][0]);
  }

  lemma {:induction false} ReadKeepsInvalid(data: Bytes, pos: nat, st: State<Cookie>, ks: KeySet, siv: Siv, ver: Version)
    requires pos <= |data| && InvalidKept(st) && ReadFrom(data, pos, st, KeyProvider(ks, siv), ver).Ok?
    ensures InvalidKept(ReadFrom(data, pos, st, KeyProvider(ks, siv), ver).value.state)
    decreases |data| - pos
  {
    hide InvalidKept, Step, ReadRaw, WireLength, KeyProvider;
    if |data[pos..]| > Cutoff(ver) {
      var raw := ReadRaw(data[pos..], ver).value;
      StepKeepsInvalid(st, raw, data[..pos], ks, siv, ver);
      ReadKeepsInvalid(data, pos + WireLength(raw), Step(st, raw, data[..pos], KeyProvider(ks, siv), ver).value, ks, siv, ver);
    }
  }

  /** The state that a packet of version 4 or 5 was read to. */
  function ReadState(message: Bytes, ks: KeySet, siv: Siv, ver: Version): State<Cookie>
    requires |message| >= HEADER && Deserialize(message, HEADER, KeyProvider(ks, siv), ver).Ok?
  {
    Deserialize(message, HEADER, KeyProvider(ks, siv), ver).value.state
  }

  lemma PacketState(message: Bytes, ks: KeySet, siv: Siv)
    requires var parse := ReadPacket(message, ks, siv); !parse.Malformed? && parse.packet.version != Ntp3
    ensures var parse := ReadPacket(message, ks, siv);
            var ver := ExtVersion(parse.packet.version);
            && |message| >= HEADER && Deserialize(message, HEADER, KeyProvider(ks, siv), ver).Ok?
            && var st := ReadState(message, ks, siv, ver);
            && st.efdata == parse.packet.efdata
            && (parse.Parsed? ==> st.cookie == parse.cookie && st.valid) && (parse.Undecryptable? ==> !st.valid)
            && (parse.Parsed? && ver == V5 ==> DraftId(st.efdata) == Some(DRAFT_VERSION))
  {
    hide ReadFrom, KeyProvider, DraftId;
  }

  /** Everything that was read paid for, the identifiers long, and in version 5 something to pay for the draft. */
  lemma PacketPays(message: Bytes, ks: KeySet, siv: Siv)
    requires var parse := ReadPacket(message, ks, siv);
             && !parse.Malformed? && parse.packet.version != Ntp3
             && Usual(message, ExtVersion(parse.packet.version)) && Tight(siv)
    ensures var parse := ReadPacket(message, ks, siv);
            var d := parse.packet.efdata;
            && |message| >= HEADER && LongIds(d.untrusted) && LongIds(d.authenticated)
            && (parse.packet.version == Ntp5 ==> SomePaysDraft(d.untrusted) || SomePaysDraft(d.authenticated))
            && Deserialize(message, HEADER, KeyProvider(ks, siv), ExtVersion(parse.packet.version)).Ok?
            && HEADER + Paid(ReadState(message, ks, siv, ExtVersion(parse.packet.version))) <= |message|
  {
    hide ReadPacket, ReadFrom, KeyProvider, DraftId, LongIds, Usual, Tight, SomePaysDraft, Total;
    PacketState(message, ks, siv);
    var parse := ReadPacket(message, ks, siv);
    var ver, d := ExtVersion(parse.packet.version), parse.packet.efdata;
    StartAccounted(message, ver);
    ReadPays(message, HEADER, Initial(), ks, siv, ver);
    if parse.packet.version == Ntp5 {
      if parse.Parsed? {
        DraftPays(d);
      } else {
        ReadKeepsInvalid(message, HEADER, Initial(), ks, siv, ver);
      }
    }
  }

  lemma StartAccounted(message: Bytes, ver: Version)
    requires |message| >= HEADER
    ensures Accounted(message, HEADER, Initial(), ver)
  {
  }

  lemma DraftPays(d: EfData)
    requires DraftId(d) == Some(DRAFT_VERSION)
    ensures SomePaysDraft(d.untrusted) || SomePaysDraft(d.authenticated)
  {
    FirstDraftPays(d.untrusted + d.authenticated);
    DraftInBoth(d.untrusted, d.authenticated);
  }

  /* ---- Version 5 messages are in whole words ---- */

  lemma {:induction false} WholeWords(data: Bytes, pos: nat, st: State<Cookie>, ks: KeySet, siv: Siv)
    requires pos <= |data| && ReadFrom(data, pos, st, KeyProvider(ks, siv), V5).Ok?
    ensures (|data| - pos) % 4 == 0
    decreases |data| - pos
  {
    hide Step, ReadRaw, WireLength, KeyProvider;
    if |data[pos..]| > Cutoff(V5) {
      var raw := ReadRaw(data[pos..], V5).value;
      WholeWords(data, pos + WireLength(raw), Step(st, raw, data[..pos], KeyProvider(ks, siv), V5).value, ks, siv);
      WordsAdd(WireLength(raw), |data| - pos - WireLength(raw));
    }
  }

  lemma SealedInWords(nonce: Bytes, sealed: Bytes)
    ensures |EncodeSealed(nonce, sealed)| % 4 == 0
  {
    hide SealedBody, Framing;
    SealedAligned(|nonce|, |sealed|);
  }

  /** A packet is written in whole words. */
  lemma PackedInWords(header: Bytes, d: EfData, cipher: Option<Cipher>, nonce: Bytes, ver: Version)
    requires |header| == HEADER && EfEncodable(d, ver) && (NeedsCipher(d) ==> cipher.Some?)
    ensures |Packed(header, d, _ => cipher, nonce, ver)| % 4 == 0
  {
    hide EncodeAll, AllEncodable, WithMinimum, UntrustedSizes, EncodeSealed;
    var u := |EncodeAll(UntrustedSizes(d.untrusted, ver), ver)|;
    EncodeAllAligned(UntrustedSizes(d.untrusted, ver), ver);
    if NeedsCipher(d) {
      var auth := EncodeAll(WithMinimum(d.authenticated, AUTHENTICATED_MINIMUM), ver);
      EncodeAllAligned(WithMinimum(d.authenticated, AUTHENTICATED_MINIMUM), ver);
      var sealed := cipher.value.seal(nonce, header + auth, EncodeAll(WithMinimum(d.encrypted, 0), ver));
      SealedInWords(nonce, sealed);
      assert |Packed(header, d, _ => cipher, nonce, ver)| == HEADER + |auth| + |EncodeSealed(nonce, sealed)| + u;
      WordsAdd(HEADER + |auth|, |EncodeSealed(nonce, sealed)|);
      WordsAdd(HEADER + |auth| + |EncodeSealed(nonce, sealed)|, u);
    } else {
      WordsAdd(HEADER, u);
    }
  }

  /** The bytes of a response before padding. */
  function Unpadded(b: Builder, v: NtpVersion, request: EfData, draws: Draws, cipher: Option<Cipher>): Bytes
    requires var d := ResponseFields(b, v, request, draws);
             EfEncodable(d, ExtVersion(v)) && (NeedsCipher(d) ==> cipher.Some?)
  {
    Packed(draws.header, ResponseFields(b, v, request, draws), _ => cipher, draws.nonce, ExtVersion(v))
  }

  /**
   The padding of a version 5 response up to the length of its request always has room for its own header,
   whatever the request: both are in whole words.
   */
  lemma PaddingHasRoom(b: Builder, message: Bytes, ks: KeySet, siv: Siv, draws: Draws, cipher: Option<Cipher>)
    requires |draws.header| == HEADER
    requires var parse := ReadPacket(message, ks, siv);
             && !parse.Malformed? && parse.packet.version == Ntp5
             && var d := ResponseFields(b, Ntp5, parse.packet.efdata, draws);
                EfEncodable(d, V5) && (NeedsCipher(d) ==> cipher.Some?)
    ensures var packed := Unpadded(b, Ntp5, ReadPacket(message, ks, siv).packet.efdata, draws, cipher);
            (|message| - |packed|) % 4 == 0 && (|message| > |packed| ==> Writable(Padding(|message| - |packed|)))
  {
    hide ReadPacket, ReadFrom, KeyProvider, Packed, EfEncodable;
    PacketState(message, ks, siv);
    WholeWords(message, HEADER, Initial(), ks, siv);
    PackedInWords(draws.header, ResponseFields(b, Ntp5, ReadPacket(message, ks, siv).packet.efdata, draws), cipher, draws.nonce, V5);
  }

  lemma PaddingSize(n: nat)
    requires 4 <= n <= 0xFFFF && n % 4 == 0
    ensures Encodable(Padding(n)) && |Encode(Padding(n), 4, V5)| == n
  {
    hide Framing, FramedLength;
  }

  /** The key that a builder seals with is there when it needs one. */
  ghost predicate Suits(b: Builder, parse: Parse<Cookie>, cipher: Option<Cipher>) {
    && (cipher.Some? ==> Tagged(cipher.value))
    && (ForNts(b) ==> parse.Parsed? && parse.cookie.Some? && cipher.Some?)
  }

  ghost predicate UsualPacket(message: Bytes, parse: Parse<Cookie>) {
    !parse.Malformed? && (parse.packet.version != Ntp3 ==> Usual(message, ExtVersion(parse.packet.version)))
  }

  lemma LongEnough(message: Bytes, ks: KeySet, siv: Siv)
    requires !ReadPacket(message, ks, siv).Malformed?
    ensures |message| >= HEADER
  {
    hide KeyProvider, DraftId;
  }

  /* ---- Exactly when it is enough ---- */

  predicate WritableId(f: ExtField) {
    f.UniqueIdentifier? ==> |f.data| <= MAX_BODY
  }

  predicate WritableIds(fs: seq<ExtField>) {
    forall i :: 0 <= i < |fs| ==> WritableId(fs[i])
  }

  lemma StepIds(st: State<Cookie>, raw: Raw, aad: Bytes, ks: KeySet, siv: Siv, ver: Version)
    requires WritableIds(st.efdata.untrusted) && WritableIds(st.efdata.authenticated) && |raw.body| <= MAX_BODY
    requires Step(st, raw, aad, KeyProvider(ks, siv), ver).Ok?
    ensures var r := Step(st, raw, aad, KeyProvider(ks, siv), ver).value;
            WritableIds(r.efdata.untrusted) && WritableIds(r.efdata.authenticated)
  {
    hide DecodeAll, ReadSealed, Find;
  }

  lemma {:induction false} ReadIds(data: Bytes, pos: nat, st: State<Cookie>, ks: KeySet, siv: Siv, ver: Version)
    requires pos <= |data| && WritableIds(st.efdata.untrusted) && WritableIds(st.efdata.authenticated)
    requires ReadFrom(data, pos, st, KeyProvider(ks, siv), ver).Ok?
    ensures var d := ReadFrom(data, pos, st, KeyProvider(ks, siv), ver).value.state.efdata;
            WritableIds(d.untrusted) && WritableIds(d.authenticated)
    decreases |data| - pos
  {
    hide WritableIds, Step, ReadRaw, WireLength, KeyProvider;
    if |data[pos..]| > Cutoff(ver) {
      var raw := ReadRaw(data[pos..], ver).value;
      StepIds(st, raw, data[..pos], ks, siv, ver);
      ReadIds(data, pos + WireLength(raw), Step(st, raw, data[..pos], KeyProvider(ks, siv), ver).value, ks, siv, ver);
    }
  }

  lemma {:induction false} EchoEchoed(fs: seq<ExtField>, bloom: Option<Bytes>)
    requires WritableIds(fs) && (bloom.Some? ==> |bloom.value| <= MAX_BODY)
    ensures AllEchoed(Echo(fs, bloom))
  {
    if fs != [] {
      EchoEchoed(fs[..|fs| - 1], bloom);
      assert WritableId(fs[|fs| - 1]);
    }
  }

  lemma ResponseEchoed(b: Builder, v: NtpVersion, r: EfData, draws: Draws)
    requires WritableIds(r.untrusted) && WritableIds(r.authenticated) && ProperDraws(draws)
    ensures var d := ResponseFields(b, v, r, draws);
            && AllEchoed(d.authenticated) && AllCookies(d.encrypted) && AllEchoed(d.untrusted)
            && (NeedsCipher(d) ==> ForNts(b))
  {
    hide Echo, WritableIds, Issue, IssuedCookies;
    var bloom := if v == Ntp5 then Some(draws.bloom) else None;
    IdsJoin(r.untrusted, r.authenticated);
    EchoEchoed(Open(r), None);
    EchoEchoed(Open(r), bloom);
    EchoEchoed(r.authenticated, None);
    EchoEchoed(r.authenticated, bloom);
    IssuedAreCookies(Looked(r)[..Min(|Looked(r)|, MAX_COOKIES)], draws.mint);
    IssuedAreThose(r, draws.mint);
  }

  /** The identifiers of a packet are short enough to be written. */
  lemma PacketIds(message: Bytes, ks: KeySet, siv: Siv)
    requires !ReadPacket(message, ks, siv).Malformed?
    requires ReadPacket(message, ks, siv).packet.version != Ntp3
    ensures var d := ReadPacket(message, ks, siv).packet.efdata; WritableIds(d.untrusted) && WritableIds(d.authenticated)
  {
    hide ReadPacket, ReadFrom, KeyProvider;
    PacketState(message, ks, siv);
    ReadIds(message, HEADER, Initial(), ks, siv, ExtVersion(ReadPacket(message, ks, siv).packet.version));
  }

  lemma PaddingEncodableIff(n: nat)
    requires n >= 4
    ensures Writable(Padding(n)) && (Encodable(Padding(n)) <==> n <= 0xFFFF)
  {
  }

  /** The fields of a response and what short ones of them lack fit a packet of `length` bytes; and where
      version 5 fills up the rest, one padding field can. */
  predicate CostFits(b: Builder, length: nat, request: Packet, draws: Draws, padded: bool) {
    var d := ResponseFields(b, request.version, request.efdata, draws);
    var packed := HEADER + Cost(d) + Shortfall(d, ExtVersion(request.version));
    packed <= length && (request.version == Ntp5 && padded ==> length - packed <= 0xFFFF)
  }

  /** The length of a response on the wire, by its length before padding. */
  lemma WireFits(b: Builder, v: NtpVersion, request: EfData, draws: Draws, cipher: Option<Cipher>, length: nat, padded: bool)
    requires var d := ResponseFields(b, v, request, draws);
             v != Ntp3 && EfEncodable(d, ExtVersion(v)) && (NeedsCipher(d) ==> cipher.Some?)
    requires v == Ntp5 ==> (length - |Unpadded(b, v, request, draws, cipher)|) % 4 == 0
    ensures var n := |Unpadded(b, v, request, draws, cipher)|;
            var w := Wire(b, v, request, draws, cipher, if padded then Some(length) else None);
            && (w.Some? && |w.value| <= length <==> n <= length && (v == Ntp5 && padded ==> length - n <= 0xFFFF))
            && (w.Some? && |w.value| <= length && v == Ntp5 && padded ==> |w.value| == length)
  {
    hide Packed, EfEncodable, ResponseFields, Encode, Encodable, NeedsCipher;
    var n := |Unpadded(b, v, request, draws, cipher)|;
    if v == Ntp5 && n < length {
      PaddingEncodableIff(length - n);
      if length - n <= 0xFFFF {
        PaddingSize(length - n);
      }
    }
  }

  /** A response fits a buffer as long as its request exactly then; filled up, it is as long as the request. */
  lemma FitsByCost(b: Builder, message: Bytes, ks: KeySet, siv: Siv, draws: Draws, cipher: Option<Cipher>, padded: bool)
    requires ProperDraws(draws) && !ReadPacket(message, ks, siv).Malformed?
    requires (cipher.Some? ==> Tagged(cipher.value)) && (ForNts(b) ==> cipher.Some?)
    ensures var p := ReadPacket(message, ks, siv).packet;
            var w := Wire(b, p.version, p.efdata, draws, cipher, if padded then Some(|message|) else None);
            && (w.Some? && |w.value| <= |message| <==> CostFits(b, |message|, p, draws, padded))
            && (w.Some? && |w.value| <= |message| && p.version == Ntp5 && padded ==> |w.value| == |message|)
  {
    hide ReadPacket, ReadFrom, Packed, EfEncodable, ResponseFields, Cost, Shortfall, WritableIds, AllEchoed, AllCookies, NeedsCipher;
    var p := ReadPacket(message, ks, siv).packet;
    var d := ResponseFields(b, p.version, p.efdata, draws);
    if p.version == Ntp3 {
      LongEnough(message, ks, siv);
      NoFields(b, p.efdata, draws);
    } else {
      hide Wire;
      PacketIds(message, ks, siv);
      ResponseEchoed(b, p.version, p.efdata, draws);
      PackedSize(draws.header, d, cipher, draws.nonce, ExtVersion(p.version));
      if p.version == Ntp5 {
        PaddingHasRoom(b, message, ks, siv, draws, cipher);
      }
      WireFits(b, p.version, p.efdata, draws, cipher, |message|, padded);
    }
  }

  /** Version 3 responses are a header alone. */
  lemma NoFields(b: Builder, request: EfData, draws: Draws)
    ensures var d := ResponseFields(b, Ntp3, request, draws); Cost(d) == 0 && Shortfall(d, V4) == 0 && Shortfall(d, V5) == 0
  {
    NothingTotal();
  }

  lemma IdsJoin(a: seq<ExtField>, b: seq<ExtField>)
    requires WritableIds(a) && WritableIds(b)
    ensures WritableIds(a + b)
  {
  }

  /**
   A buffer as long as the request is enough for every response to a request that keeps to the usual sizes,
   and a version 5 response that is asked to be as long as the request is exactly that long.
   */
  lemma ResponseFits(b: Builder, message: Bytes, ks: KeySet, siv: Siv, draws: Draws, cipher: Option<Cipher>, padded: bool)
    requires ProperDraws(draws) && Tight(siv) && |message| <= 0xFFFF
    requires UsualPacket(message, ReadPacket(message, ks, siv)) && Suits(b, ReadPacket(message, ks, siv), cipher)
    ensures var p := ReadPacket(message, ks, siv).packet;
            var w := Wire(b, p.version, p.efdata, draws, cipher, if padded then Some(|message|) else None);
            && w.Some? && |w.value| <= |message|
            && (p.version == Ntp5 && padded ==> |w.value| == |message|)
  {
    hide ReadPacket, ReadFrom, ResponseFields, Usual, Tight, LongIds, SomePaysDraft, Total, Paid, Wire, Shortage, AllFilling;
    var parse := ReadPacket(message, ks, siv);
    var v := parse.packet.version;
    FitsByCost(b, message, ks, siv, draws, cipher, padded);
    var d := ResponseFields(b, v, parse.packet.efdata, draws);
    if v == Ntp3 {
      LongEnough(message, ks, siv);
      NoFields(b, parse.packet.efdata, draws);
    } else {
      PacketState(message, ks, siv);
      PacketPays(message, ks, siv);
      FieldsCost(b, v, ReadState(message, ks, siv, ExtVersion(v)), draws);
      FillingShort(d.authenticated, ExtVersion(v));
      FillingShort(d.untrusted, ExtVersion(v));
    }
  }
}
