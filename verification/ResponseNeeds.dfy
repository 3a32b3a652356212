/** When a buffer as long as a request is enough for the response to it, told from the request alone. */
module ResponseNeeds {
  import opened PowersOfTwo
  import opened Bytes
  import opened Protocol
  import opened Headers
  import opened ExtensionFields
  import opened EncryptedFields
  import opened FieldWriter
  import opened CookieStashes
  import opened KeySets
  import opened Packets
  import opened Responses
  import opened ResponseSizes

  /** The bytes of the Bloom filter. */
  const FILTER_LENGTH := 512

  /** What the answer to a field of the request takes: an identifier comes back, with at least the minimum size,
      and so does a chunk of the Bloom filter, where chunks are given and it lies within the filter. */
  function FieldNeed(f: ExtField, minimum: nat, chunks: bool): nat {
    match f
    case UniqueIdentifier(_) => Max(FieldSize(f), minimum)
    case ReferenceIdRequest(n, offset) => if chunks && offset + n <= FILTER_LENGTH then FieldSize(f) else 0
    case _ => 0
  }

  function FieldsNeed(fs: seq<ExtField>, minimum: nat, chunks: bool): nat {
    if fs == [] then 0 else FieldsNeed(fs[..|fs| - 1], minimum, chunks) + FieldNeed(fs[|fs| - 1], minimum, chunks)
  }

  /** In version 4 without encryption, identifiers take at least 16 bytes, and the last one 28. */
  function PlainNeed(fs: seq<ExtField>): nat {
    if fs == [] then 0
    else
      var init, last := fs[..|fs| - 1], fs[|fs| - 1];
      if last.UniqueIdentifier? then FieldsNeed(init, 16, false) + Max(FieldSize(last), 28) else PlainNeed(init)
  }

  /** An encrypted field takes 40 bytes around its contents, and is there if anything is. */
  function SealedNeed(contents: nat): nat {
    if contents == 0 then 0 else contents + 40
  }

  /** Version 5 adds the draft identification. */
  function DraftNeed(v: NtpVersion): nat {
    if v == Ntp5 then 28 else 0
  }

  /** A cookie of `c` bytes for each of the first eight fields that asks for one with room for it. */
  function CookiesNeed(request: EfData, c: nat): nat {
    |Given(Looked(request), c)| * RoundUp4(4 + c)
  }

  /** The bytes behind the header of the response to a request, with new cookies of `c` bytes. */
  function Need(b: Builder, v: NtpVersion, request: EfData, c: nat): nat {
    if v == Ntp3 then 0
    else
      match b
      case NtsTimeReply =>
        SealedNeed(FieldsNeed(request.authenticated, 16, v == Ntp5) + DraftNeed(v) + CookiesNeed(request, c))
      case NtsDenyReply => SealedNeed(FieldsNeed(request.authenticated, 16, false) + DraftNeed(v))
      case _ => if v == Ntp4 then PlainNeed(Open(request)) else FieldsNeed(Open(request), 4, b == TimeReply) + DraftNeed(v)
  }

  /** They are within the request; and what is left of it in version 5, where it is filled up, is within one field. */
  predicate Roomy(b: Builder, length: nat, request: Packet, c: nat, padded: bool) {
    var need := HEADER + Need(b, request.version, request.efdata, c);
    need <= length && (request.version == Ntp5 && padded ==> length - need <= 0xFFFF)
  }

  /* ---- What the fields of the response take ---- */

  lemma AppendNeed(e: seq<ExtField>, x: ExtField, minimum: U16)
    ensures Total(e + [x]) + Shortage(WithMinimum(e + [x], minimum)) ==
            Total(e) + Shortage(WithMinimum(e, minimum)) + FieldSize(x) + Short(Sized(x, minimum))
  {
    hide FieldSize, Short;
    var all := WithMinimum(e + [x], minimum);
    assert all[..|e|] == WithMinimum(e, minimum) && all[|e|] == Sized(x, minimum);
    assert (e + [x])[..|e|] == e;
  }

  lemma OneNeed(f: ExtField, bloom: Option<Bytes>, minimum: U16)
    requires bloom.Some? ==> |bloom.value| == FILTER_LENGTH
    ensures var g, need := EchoOne(f, bloom), FieldNeed(f, minimum, bloom.Some?);
            if g == [] then need == 0
            else |g| == 1 && FieldSize(g[0]) + Short(Sized(g[0], minimum)) == need
  {
    hide RoundUp4;
  }

  lemma {:induction false} EchoNeed(fs: seq<ExtField>, bloom: Option<Bytes>, minimum: U16)
    requires bloom.Some? ==> |bloom.value| == FILTER_LENGTH
    ensures var e := Echo(fs, bloom);
            Total(e) + Shortage(WithMinimum(e, minimum)) == FieldsNeed(fs, minimum, bloom.Some?)
  {
    hide FieldSize, Short, EchoOne, FieldNeed, Total, Shortage;
    if fs == [] {
      NothingTotal();
      NothingShort(minimum);
    } else {
      var init, last := fs[..|fs| - 1], fs[|fs| - 1];
      EchoNeed(init, bloom, minimum);
      OneNeed(last, bloom, minimum);
      var g := EchoOne(last, bloom);
      if g == [] {
        assert Echo(fs, bloom) == Echo(init, bloom);
      } else {
        assert g == [g[0]];
        AppendNeed(Echo(init, bloom), g[0], minimum);
      }
    }
  }

  /** The draft identification behind them is longer than any minimum. */
  lemma SignedNeed(fs: seq<ExtField>, bloom: Option<Bytes>, v: NtpVersion, minimum: U16)
    requires (bloom.Some? ==> |bloom.value| == FILTER_LENGTH) && minimum <= 28
    ensures var e := Signed(Echo(fs, bloom), v);
            Total(e) + Shortage(WithMinimum(e, minimum)) == FieldsNeed(fs, minimum, bloom.Some?) + DraftNeed(v)
  {
    hide Total, Shortage, Echo;
    EchoNeed(fs, bloom, minimum);
    AppendNeed(Echo(fs, bloom), DraftIdentification(DRAFT_VERSION), minimum);
    DraftSize();
  }

  /** In version 5 fields without encryption have one minimum size. */
  lemma UntrustedNeed5(fs: seq<ExtField>)
    ensures UntrustedSizes(fs, V5) == WithMinimum(fs, 4)
  {
    var u := UntrustedSizes(fs, V5);
    assert forall i :: 0 <= i < |fs| ==> u[i] == Sized(fs[i], UntrustedMinimum(i == |fs| - 1, V5));
  }

  /** In version 4 the last of them has another. */
  lemma LastSized(e: seq<ExtField>, x: ExtField)
    ensures Total(e + [x]) + Shortage(UntrustedSizes(e + [x], V4)) ==
            Total(e) + Shortage(WithMinimum(e, 16)) + FieldSize(x) + Short(Sized(x, 28))
  {
    hide FieldSize, Short;
    var fs := e + [x];
    var all := UntrustedSizes(fs, V4);
    assert forall i :: 0 <= i < |fs| ==> all[i] == Sized(fs[i], UntrustedMinimum(i == |fs| - 1, V4));
    assert all[..|e|] == WithMinimum(e, 16) && all[|e|] == Sized(x, 28);
    assert (e + [x])[..|e|] == e;
  }

  lemma {:induction false} PlainEchoNeed(fs: seq<ExtField>)
    ensures var e := Echo(fs, None); Total(e) + Shortage(UntrustedSizes(e, V4)) == PlainNeed(fs)
  {
    hide FieldSize, Total, Shortage;
    if fs == [] {
      NothingTotal();
      NothingUntrusted(V4);
    } else {
      var init, last := fs[..|fs| - 1], fs[|fs| - 1];
      if last.UniqueIdentifier? {
        EchoNeed(init, None, 16);
        LastSized(Echo(init, None), last);
      } else {
        PlainEchoNeed(init);
        assert Echo(fs, None) == Echo(init, None);
      }
    }
  }

  lemma NothingUntrusted(ver: Version)
    ensures Shortage(UntrustedSizes([], ver)) == 0
  {
  }

  lemma {:induction false} CookiesTotal(fs: seq<ExtField>, c: nat)
    requires forall i :: 0 <= i < |fs| ==> fs[i].NtsCookie? && |fs[i].data| == c
    ensures Total(fs) == |fs| * RoundUp4(4 + c)
  {
    hide RoundUp4;
    if fs != [] {
      CookiesTotal(fs[..|fs| - 1], c);
      MulDistributes(|fs|, 1, RoundUp4(4 + c));
    }
  }

  lemma IssuedNeed(request: EfData, mint: nat -> Bytes, c: nat)
    requires FreshOfLength(mint, c)
    ensures Total(IssuedCookies(request, mint)) == CookiesNeed(request, c)
  {
    hide Issue, Total, FreshOfLength;
    var fs := Looked(request);
    var seen := fs[..Min(|fs|, MAX_COOKIES)];
    IssueCounts(seen, mint, c);
    CookiesTotal(Issue(seen, mint), c);
    assert Given(seen, c) == Given(fs, c);
  }

  lemma TotalPositive(fs: seq<ExtField>)
    ensures Total(fs) == 0 <==> fs == []
  {
  }

  /** What is sealed takes the frame of an encrypted field. */
  lemma SealedCost(d: EfData, ver: Version)
    requires d.untrusted == []
    ensures Cost(d) + Shortfall(d, ver) ==
            SealedNeed(Total(d.authenticated) + Shortage(WithMinimum(d.authenticated, AUTHENTICATED_MINIMUM)) + Total(d.encrypted))
  {
    hide Total, Shortage;
    NothingTotal();
    NothingUntrusted(ver);
    TotalPositive(d.authenticated);
    TotalPositive(d.encrypted);
    NothingShort(AUTHENTICATED_MINIMUM);
  }

  lemma OpenCost(d: EfData, ver: Version)
    requires d.authenticated == [] && d.encrypted == []
    ensures Cost(d) + Shortfall(d, ver) == Total(d.untrusted) + Shortage(UntrustedSizes(d.untrusted, ver))
  {
    hide Total, Shortage;
    NothingTotal();
    NothingShort(AUTHENTICATED_MINIMUM);
  }

  /** What the response takes is what the request tells. */
  lemma NeedIsCost(b: Builder, v: NtpVersion, request: EfData, draws: Draws, c: nat)
    requires ProperDraws(draws) && FreshOfLength(draws.mint, c)
    ensures var d := ResponseFields(b, v, request, draws); Cost(d) + Shortfall(d, ExtVersion(v)) == Need(b, v, request, c)
  {
    hide Total, Shortage, Cost, Shortfall, Echo, FieldsNeed, PlainNeed, CookiesNeed, IssuedCookies, SealedNeed, Signed, FreshOfLength;
    var d, bloom := ResponseFields(b, v, request, draws), if v == Ntp5 then Some(draws.bloom) else None;
    if v == Ntp3 {
      NoFields(b, request, draws);
    } else if ForNts(b) {
      SealedCost(d, ExtVersion(v));
      IssuedNeed(request, draws.mint, c);
      NothingTotal();
      SignedNeed(request.authenticated, if b == NtsTimeReply then bloom else None, v, AUTHENTICATED_MINIMUM);
    } else {
      OpenCost(d, ExtVersion(v));
      OpenNeed(b, v, request, if b == TimeReply then bloom else None);
    }
  }

  lemma OpenNeed(b: Builder, v: NtpVersion, request: EfData, bloom: Option<Bytes>)
    requires v != Ntp3 && !ForNts(b) && (bloom.Some? <==> b == TimeReply && v == Ntp5)
    requires bloom.Some? ==> |bloom.value| == FILTER_LENGTH
    ensures var e := Signed(Echo(Open(request), bloom), v);
            Total(e) + Shortage(UntrustedSizes(e, ExtVersion(v))) == Need(b, v, request, 0)
  {
    hide Total, Shortage, Echo, FieldsNeed, PlainNeed;
    if v == Ntp4 {
      PlainEchoNeed(Open(request));
    } else {
      SignedNeed(Open(request), bloom, v, 4);
      UntrustedNeed5(Signed(Echo(Open(request), bloom), v));
    }
  }

  /**
   A response fits a buffer as long as its request exactly when what the request asks for takes no more bytes
   than it has. Filled up, the response is as long as the request.
   */
  lemma FitsIff(b: Builder, message: Bytes, ks: KeySet, siv: Siv, draws: Draws, cipher: Option<Cipher>, padded: bool, c: nat)
    requires ProperDraws(draws) && FreshOfLength(draws.mint, c) && !ReadPacket(message, ks, siv).Malformed?
    requires (cipher.Some? ==> Tagged(cipher.value)) && (ForNts(b) ==> cipher.Some?)
    ensures var p := ReadPacket(message, ks, siv).packet;
            var w := Wire(b, p.version, p.efdata, draws, cipher, if padded then Some(|message|) else None);
            && (w.Some? && |w.value| <= |message| <==> Roomy(b, |message|, p, c, padded))
            && (w.Some? && |w.value| <= |message| && p.version == Ntp5 && padded ==> |w.value| == |message|)
  {
    hide ReadPacket, Wire, ResponseFields, Cost, Shortfall, Need, FreshOfLength;
    var p := ReadPacket(message, ks, siv).packet;
    FitsByCost(b, message, ks, siv, draws, cipher, padded);
    NeedIsCost(b, p.version, p.efdata, draws, c);
  }

  /* ---- When it is not enough ---- */

  const SHORT_HEADER: Bytes := [35] + Zeros(47)

  /** A version 4 request with an empty identifier, and 21 bytes behind it that are taken for a MAC. */
  const SHORT_REQUEST: Bytes := SHORT_HEADER + ([1, 4, 0, 4] + Zeros(21))

  const EMPTY_ID := EfData([], [], [UniqueIdentifier([])])

  lemma ShortRequestRead(ks: KeySet, siv: Siv)
    ensures var parse := ReadPacket(SHORT_REQUEST, ks, siv);
            parse.Parsed? && parse.packet.version == Ntp4 && ModeOf(parse.packet.header) == Client && parse.packet.efdata == EMPTY_ID
  {
    hide KeyProvider, DraftId, ReadRaw, WireLength, Step, VersionBits, ReadOld;
    var data, provider := SHORT_REQUEST, KeyProvider(ks, siv);
    ShortHeader();
    ShortField();
    var raw, st := Raw(UNIQUE_IDENTIFIER, []), State(EMPTY_ID, true, None);
    ShortStep(data[..48], provider);
    ReadNext(data, 48, raw, Initial<Cookie>(), st, provider, V4);
    assert ReadFrom(data, 52, st, provider, V4) == Ok(Deserialized(st, Zeros(21)));
  }

  lemma ShortHeader()
    ensures var data := SHORT_REQUEST;
            && |data| == 73 && VersionBits(data) == 4 && ModeOf(ReadOld(data)) == Client
            && data[48..] == [1, 4, 0, 4] + Zeros(21) && data[52..] == Zeros(21)
  {
    var data := SHORT_REQUEST;
    assert |data| == 73 && data[0] == 35;
  }

  lemma ShortStep(aad: Bytes, provider: EncryptedFields.Provider<Cookie>)
    ensures Step(Initial<Cookie>(), Raw(UNIQUE_IDENTIFIER, []), aad, provider, V4) == Ok(State(EMPTY_ID, true, None))
  {
    assert [] + [UniqueIdentifier([])] == [UniqueIdentifier([])];
  }

  lemma ShortField()
    ensures ReadRaw([1, 4, 0, 4] + Zeros(21), V4) == Ok(Raw(UNIQUE_IDENTIFIER, []))
    ensures WireLength(Raw(UNIQUE_IDENTIFIER, [])) == 4
  {
    hide ReadRaw;
    assert ToU16(UNIQUE_IDENTIFIER) == [1, 4] && ToU16(4) == [0, 4];
    assert Framing(UNIQUE_IDENTIFIER, 4) == [1, 4, 0, 4];
    EmptyRead(UNIQUE_IDENTIFIER, Zeros(21), V4);
  }

  /** Its response takes 76 bytes and so does not fit a buffer as long as the request, which has 73. */
  lemma ShortRequestOverflows(ks: KeySet, siv: Siv, draws: Draws)
    requires ProperDraws(draws)
    ensures var parse := ReadPacket(SHORT_REQUEST, ks, siv);
            && parse.Parsed? && |SHORT_REQUEST| == 73
            && var w := Wire(TimeReply, parse.packet.version, parse.packet.efdata, draws, None, Some(73));
               w.Some? && |w.value| == 76
  {
    hide ReadPacket;
    ShortRequestRead(ks, siv);
    EmptyIdResponse(draws);
  }

  lemma EmptyIdResponse(draws: Draws)
    requires ProperDraws(draws)
    ensures var w := Wire(TimeReply, Ntp4, EMPTY_ID, draws, None, Some(73)); w.Some? && |w.value| == 76
  {
    hide Encode;
    var fs := EMPTY_ID.untrusted + [];
    assert fs[..0] == [] && Echo(fs[..0], None) == [];
    assert Echo(fs, None) == [] + [UniqueIdentifier([])] == [UniqueIdentifier([])];
    assert Open(EMPTY_ID) == fs;
    var sized := UntrustedSizes([UniqueIdentifier([])], V4);
    assert |sized| == 1 && sized[0] == Sized(UniqueIdentifier([]), UntrustedMinimum(true, V4));
    assert |Encode(UniqueIdentifier([]), 28, V4)| == 28;
    EncodeAllFirst(sized, V4);
    NoneEncoded(sized[1..], V4);
  }

  /** A version 5 request with nothing but an encrypted field without a cookie to open it. */
  const NAK_REQUEST: Bytes := [43] + Zeros(47) + [4, 4, 0, 8, 0, 0, 0, 0]

  const NOTHING_OPENED := EfData([], [], [InvalidNtsEncryptedField])

  lemma NakHeader()
    ensures var data := NAK_REQUEST;
            && |data| == 56 && VersionBits(data) == 5 && data[..48] == [43] + Zeros(47)
            && data[48..] == [4, 4, 0, 8, 0, 0, 0, 0] && ReadNew(data).Some? && ModeOf(ReadNew(data).value) == Client
  {
    var data := NAK_REQUEST;
    assert data[..48] == [43] + Zeros(47);
    assert data[0] == 43 && data[12] == data[..48][12] && data[14] == data[..48][14] && data[15] == data[..48][15];
  }

  lemma NakField(st: State<Cookie>, provider: EncryptedFields.Provider<Cookie>)
    requires provider(st.efdata.untrusted) == None
    ensures var data, raw := [4, 4, 0, 8, 0, 0, 0, 0], Raw(NTS_ENCRYPTED_FIELD, [0, 0, 0, 0]);
            && ReadRaw(data, V5) == Ok(raw) && WireLength(raw) == 8
            && Step(st, raw, NAK_REQUEST[..48], provider, V5) == Ok(Reject(st))
  {
    var data := [4, 4, 0, 8, 0, 0, 0, 0];
    assert data[4..8] == [0, 0, 0, 0];
  }

  lemma NakRequestRead(ks: KeySet, siv: Siv)
    ensures var parse := ReadPacket(NAK_REQUEST, ks, siv);
            && parse.Undecryptable? && parse.packet.version == Ntp5 && ModeOf(parse.packet.header) == Client
            && parse.packet.efdata == NOTHING_OPENED
  {
    hide DraftId, ReadRaw, WireLength, Step, ReadNew, VersionBits;
    var data, provider := NAK_REQUEST, KeyProvider(ks, siv);
    NakHeader();
    assert Find([], ks, siv) == NoCookie && provider([]) == None;
    NakField(Initial<Cookie>(), provider);
    var raw, st := Raw(NTS_ENCRYPTED_FIELD, [0, 0, 0, 0]), Reject(Initial<Cookie>());
    assert st.efdata == NOTHING_OPENED && !st.valid;
    ReadNext(data, 48, raw, Initial<Cookie>(), st, provider, V5);
    assert data[56..] == [];
    assert ReadFrom(data, 56, st, provider, V5) == Ok(Deserialized(st, []));
  }

  /** The refusal carries the draft identification alone, takes 76 bytes, and so does not fit 56. */
  lemma NakOverflows(ks: KeySet, siv: Siv, draws: Draws)
    requires ProperDraws(draws)
    ensures var parse := ReadPacket(NAK_REQUEST, ks, siv);
            && parse.Undecryptable? && |NAK_REQUEST| == 56
            && var w := Wire(NakReply, parse.packet.version, parse.packet.efdata, draws, None, None);
               w.Some? && |w.value| == 76
  {
    hide ReadPacket;
    NakRequestRead(ks, siv);
    NakHeader();
    DraftAlone(draws);
  }

  lemma DraftAlone(draws: Draws)
    requires ProperDraws(draws)
    ensures var w := Wire(NakReply, Ntp5, NOTHING_OPENED, draws, None, None); w.Some? && |w.value| == 76
  {
    hide Encode;
    var fs, draft := Open(NOTHING_OPENED), DraftIdentification(DRAFT_VERSION);
    assert fs == [InvalidNtsEncryptedField] && Echo(fs[..0], None) == [];
    assert Signed(Echo(fs, None), Ntp5) == [draft];
    var sized := UntrustedSizes([draft], V5);
    assert |sized| == 1 && sized[0] == Sized(draft, UntrustedMinimum(true, V5));
    assert |Encode(draft, 4, V5)| == 28;
    EncodeAllFirst(sized, V5);
    NoneEncoded(sized[1..], V5);
  }
}
