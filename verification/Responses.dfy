/** The responses of the server: which extension fields they carry, and how they are laid out and written. */
module Responses {
  import opened Bytes
  import opened Protocol
  import opened Headers
  import opened ExtensionFields
  import opened EncryptedFields
  import opened FieldWriter
  import opened CookieStashes

  /** Which response is built; those for NTS have no case for version 3. */
  datatype Builder = NakReply | DenyReply | NtsDenyReply | TimeReply | NtsTimeReply

  predicate Builds(b: Builder, v: NtpVersion) {
    b.DenyReply? || b.TimeReply? || v != Ntp3
  }

  /* ---- Headers ---- */

  /** What the server says of itself, with the durations as the version of the response has them. */
  datatype Snapshot = Snapshot(
    leap: Bits2, stratum: Byte, precision: Byte, delay: Bytes4, dispersion: Bytes4, referenceId: Bytes4)

  /** When the request came and the response goes, and the random server cookie of version 5. */
  datatype Readings = Readings(received: Bytes8, sent: Bytes8, serverCookie: Bytes8)

  /** A time without its last seven bits of seconds. */
  function Truncated(t: Bytes8): Bytes8 {
    [t[0], t[1], t[2], t[3] / 128 * 128, 0, 0, 0, 0]
  }

  function TimeHeader(b: Builder, v: NtpVersion, request: Header, s: Snapshot, r: Readings): Header {
    match request
    case Old(_, _, _, poll, _, _, _, _, reference, _, _, transmit) =>
      Old(s.leap, SERVER_MODE, s.stratum, poll, s.precision, s.delay, s.dispersion, s.referenceId,
          if b == TimeReply && v == Ntp4 && reference == UPGRADE then UPGRADE else Truncated(r.received),
          transmit, r.received, r.sent)
    case New(_, _, _, poll, _, _, _, _, _, _, _, _, _, clientCookie, _, _) =>
      New(s.leap, false, s.stratum, poll, s.precision, s.delay, s.dispersion, 0, 0, s.stratum < 16, false, false,
          r.serverCookie, clientCookie, r.received, r.sent)
  }

  /** A refusal says why in its reference id, or in version 5 by its interval or a flag. */
  function KissHeader(b: Builder, request: Header, r: Readings): Header {
    match request
    case Old(_, _, _, _, _, _, _, _, _, _, _, transmit) =>
      Old(0, SERVER_MODE, 0, 0, 0, ZEROS4, ZEROS4, if b == NakReply then KISS_NTSN else KISS_DENY,
          ZEROS8, transmit, ZEROS8, ZEROS8)
    case New(_, _, _, _, _, _, _, _, _, _, _, _, _, clientCookie, _, _) =>
      New(0, false, 0, if b == NakReply then 0 else NEVER_BYTE, 0, ZEROS4, ZEROS4, 0, 0, false, false, b == NakReply,
          r.serverCookie, clientCookie, ZEROS8, ZEROS8)
  }

  function ResponseHeader(b: Builder, v: NtpVersion, request: Header, s: Snapshot, r: Readings): Header {
    if b == TimeReply || b == NtsTimeReply then TimeHeader(b, v, request, s, r) else KissHeader(b, request, r)
  }

  /** Whatever is answered, the header is a server's and carries back what the client sent to be told by. */
  lemma ResponseHeaderAnswers(b: Builder, v: NtpVersion, request: Header, s: Snapshot, r: Readings)
    ensures var h := ResponseHeader(b, v, request, s, r);
            && ModeOf(h) == Server && (h.New? <==> request.New?)
            && OriginOf(h) == TokenOf(request)
            && h.stratum == (if b == TimeReply || b == NtsTimeReply then s.stratum else 0)
  {
  }

  /** What a response draws on besides the request: its header, a nonce, new cookies and the Bloom filter. */
  datatype Draws = Draws(header: Bytes, nonce: Bytes, mint: nat -> Bytes, bloom: Bytes)

  ghost predicate ProperDraws(draws: Draws) {
    && |draws.header| == HEADER && |draws.nonce| == NONCE_LENGTH && |draws.bloom| == 512
    && forall i :: |draws.mint(i)| <= MAX_BODY
  }

  /* ---- New cookies ---- */

  /** A field that asks for a cookie. */
  predicate Asks(f: ExtField) {
    f.NtsCookie? || f.NtsCookiePlaceholder?
  }

  /** It leaves room for a cookie of `c` bytes. */
  predicate HasRoom(f: ExtField, c: nat) {
    match f
    case NtsCookiePlaceholder(n) => c <= n
    case NtsCookie(data) => c <= |data|
    case _ => false
  }

  /** The server answers each field that asks for a cookie with a new one, unless that is longer. */
  function Issue(fs: seq<ExtField>, mint: nat -> Bytes): (r: seq<ExtField>) {
    if fs == [] then []
    else
      var n := |fs| - 1;
      Issue(fs[..n], mint) + if HasRoom(fs[n], |mint(n)|) then [NtsCookie(mint(n))] else []
  }

  /** The fields of a request in the order in which the server looks at them. */
  function Looked(request: EfData): seq<ExtField> {
    request.authenticated + request.encrypted
  }

  /** Only the first eight fields of the request are looked at. */
  function IssuedCookies(request: EfData, mint: nat -> Bytes): seq<ExtField> {
    var fs := Looked(request);
    Issue(fs[..Min(|fs|, MAX_COOKIES)], mint)
  }

  /** All new cookies have the length `c`, as those of one session do. */
  ghost predicate FreshOfLength(mint: nat -> Bytes, c: nat) {
    forall i :: |mint(i)| == c
  }

  /** Where cookies are given: among the first eight fields, with room. */
  function Given(fs: seq<ExtField>, c: nat): set<nat> {
    set i: nat | i < |fs| && i < MAX_COOKIES && HasRoom(fs[i], c)
  }

  lemma {:induction false} IssueCounts(fs: seq<ExtField>, mint: nat -> Bytes, c: nat)
    requires FreshOfLength(mint, c) && |fs| <= MAX_COOKIES
    ensures |Issue(fs, mint)| == |Given(fs, c)|
    ensures forall i :: 0 <= i < |Issue(fs, mint)| ==> Issue(fs, mint)[i].NtsCookie? && |Issue(fs, mint)[i].data| == c
  {
    if fs != [] {
      var n := |fs| - 1;
      IssueCounts(fs[..n], mint, c);
      assert Given(fs, c) == Given(fs[..n], c) + if HasRoom(fs[n], c) then {n} else {};
    }
  }

  /** Every new cookie is one that was minted. */
  lemma {:induction false} IssueMints(fs: seq<ExtField>, mint: nat -> Bytes)
    ensures forall f :: f in Issue(fs, mint) ==> f.NtsCookie? && exists i: nat :: f.data == mint(i)
  {
    if fs != [] {
      IssueMints(fs[..|fs| - 1], mint);
    }
  }

  predicate Distinct(cookies: seq<ExtField>) {
    forall i, j :: 0 <= i < j < |cookies| ==> cookies[i] != cookies[j]
  }

  /** If none is minted twice, none is sent twice. */
  lemma {:induction false} IssueDistinct(fs: seq<ExtField>, mint: nat -> Bytes)
    requires forall i, j :: 0 <= i < j < |fs| ==> mint(i) != mint(j)
    ensures Distinct(Issue(fs, mint))
    ensures forall f :: f in Issue(fs, mint) ==> exists i: nat :: i < |fs| && f == NtsCookie(mint(i))
  {
    if fs != [] {
      var n := |fs| - 1;
      IssueDistinct(fs[..n], mint);
      assert NtsCookie(mint(n)) !in Issue(fs[..n], mint);
    }
  }

  /* ---- Fields that are echoed ---- */

  /** Identifiers are sent back; a chunk of the Bloom filter is sent where one is given and the chunk is in it. */
  function EchoOne(f: ExtField, bloom: Option<Bytes>): seq<ExtField> {
    match f
    case UniqueIdentifier(_) => [f]
    case ReferenceIdRequest(n, offset) =>
      if bloom.Some? && offset + n <= |bloom.value| then [ReferenceIdResponse(bloom.value[offset..offset + n])] else []
    case _ => []
  }

  function Echo(fs: seq<ExtField>, bloom: Option<Bytes>): (r: seq<ExtField>) {
    if fs == [] then [] else Echo(fs[..|fs| - 1], bloom) + EchoOne(fs[|fs| - 1], bloom)
  }

  /** Version 5 responses say which draft they follow. */
  function Signed(fs: seq<ExtField>, v: NtpVersion): seq<ExtField> {
    if v == Ntp5 then fs + [DraftIdentification(DRAFT_VERSION)] else fs
  }

  /** All that may be echoed without encryption, untrusted fields first. */
  function Open(request: EfData): seq<ExtField> {
    request.untrusted + request.authenticated
  }

  function ResponseFields(b: Builder, v: NtpVersion, request: EfData, draws: Draws): EfData {
    var bloom := if v == Ntp5 then Some(draws.bloom) else None;
    if v == Ntp3 then EfData([], [], [])
    else
      match b
      case NakReply => EfData([], [], Signed(Echo(Open(request), None), v))
      case DenyReply => EfData([], [], Signed(Echo(Open(request), None), v))
      case TimeReply => EfData([], [], Signed(Echo(Open(request), bloom), v))
      case NtsDenyReply => EfData(Signed(Echo(request.authenticated, None), v), [], [])
      case NtsTimeReply =>
        EfData(Signed(Echo(request.authenticated, bloom), v), IssuedCookies(request, draws.mint), [])
  }

  /* ---- On the wire ---- */

  /**
   The bytes of a response: header, fields, and in version 5 padding up to the size asked for. None when a
   field is too long, when there is no cipher for fields that need one, or when the padding has no room for
   its own header.
   */
  function Wire(b: Builder, v: NtpVersion, request: EfData, draws: Draws, cipher: Option<Cipher>, size: Option<nat>)
    : Option<Bytes>
  {
    var d, ver := ResponseFields(b, v, request, draws), ExtVersion(v);
    if v == Ntp3 then Some(draws.header)
    else if !EfEncodable(d, ver) || (NeedsCipher(d) && cipher.None?) then None
    else
      var packed := Packed(draws.header, d, _ => cipher, draws.nonce, ver);
      if ver == V4 || size.None? || size.value <= |packed| then Some(packed)
      else
        var padding := Padding(size.value - |packed|);
        if Writable(padding) && Encodable(padding) then Some(packed + Encode(padding, 4, V5)) else None
  }

  lemma {:induction false} EchoWritable(fs: seq<ExtField>, bloom: Option<Bytes>)
    requires bloom.Some? ==> |bloom.value| <= MAX_BODY
    ensures forall f :: f in Echo(fs, bloom) ==> Writable(f)
  {
    if fs != [] {
      EchoWritable(fs[..|fs| - 1], bloom);
    }
  }

  lemma {:induction false} IssueWritable(fs: seq<ExtField>, mint: nat -> Bytes)
    ensures forall f :: f in Issue(fs, mint) ==> Writable(f)
  {
    if fs != [] {
      IssueWritable(fs[..|fs| - 1], mint);
    }
  }

  /** Nothing that a response carries makes the writer panic. */
  lemma ResponseWritable(b: Builder, v: NtpVersion, request: EfData, draws: Draws)
    requires |draws.bloom| <= MAX_BODY
    ensures var d := ResponseFields(b, v, request, draws);
            forall f :: f in d.authenticated || f in d.encrypted || f in d.untrusted ==> Writable(f)
  {
    hide Echo, Issue;
    var bloom := if v == Ntp5 then Some(draws.bloom) else None;
    EchoWritable(Open(request), None);
    EchoWritable(Open(request), bloom);
    EchoWritable(request.authenticated, None);
    EchoWritable(request.authenticated, bloom);
    IssueWritable(Looked(request)[..Min(|Looked(request)|, MAX_COOKIES)], draws.mint);
  }

  lemma PackedBehindHeader(header: Bytes, d: EfData, cipher: Option<Cipher>, nonce: Bytes, ver: Version)
    requires EfEncodable(d, ver) && (NeedsCipher(d) ==> cipher.Some?)
    ensures |Packed(header, d, _ => cipher, nonce, ver)| >= |header|
  {
    hide EncodeAll, AllEncodable, EncodeEncrypted;
  }

  /** Header and fields. */
  method WriteFields(w: Cursor, b: Builder, v: NtpVersion, request: EfData, draws: Draws, cipher: Option<Cipher>)
    returns (ok: bool)
    requires w.Valid() && w.pos == 0 && |draws.bloom| <= MAX_BODY && (cipher.Some? ==> Tagged(cipher.value)) && v != Ntp3
    modifies w`pos, w.buffer
    ensures w.Valid()
    ensures var d, ver := ResponseFields(b, v, request, draws), ExtVersion(v);
            && (ok <==> && EfEncodable(d, ver) && (NeedsCipher(d) ==> cipher.Some?)
                        && |Packed(draws.header, d, _ => cipher, draws.nonce, ver)| <= w.buffer.Length)
            && (ok ==> w.Written() == Packed(draws.header, d, _ => cipher, draws.nonce, ver))
  {
    hide ResponseFields, EfEncodable, Packed, Tagged;
    assert w.Written() == [];
    var d, ver := ResponseFields(b, v, request, draws), ExtVersion(v);
    if EfEncodable(d, ver) && (NeedsCipher(d) ==> cipher.Some?) {
      PackedBehindHeader(draws.header, d, cipher, draws.nonce, ver);
    }
    ok := w.WriteAll(draws.header);
    if !ok {
      return;
    }
    assert w.Written() == draws.header;
    ResponseWritable(b, v, request, draws);
    ok := w.Serialize(d, _ => cipher, draws.nonce, ver);
  }

  /** What a response is written with is of the sizes that it has, and padding has room for its own header. */
  ghost predicate Paddable(b: Builder, v: NtpVersion, request: EfData, draws: Draws, cipher: Option<Cipher>, size: Option<nat>) {
    var d := ResponseFields(b, v, request, draws);
    && |draws.bloom| <= MAX_BODY && (cipher.Some? ==> Tagged(cipher.value))
    && (v == Ntp5 && size.Some? && EfEncodable(d, V5) && (NeedsCipher(d) ==> cipher.Some?) ==>
          var packed := |Packed(draws.header, d, _ => cipher, draws.nonce, V5)|;
          size.value <= packed || size.value - packed >= 4)
  }

  /** The response written to a buffer, as it is done; padding that has no room for its own header is a panic. */
  method WriteResponse(w: Cursor, b: Builder, v: NtpVersion, request: EfData, draws: Draws, cipher: Option<Cipher>,
                       size: Option<nat>) returns (ok: bool)
    requires w.Valid() && w.pos == 0 && Paddable(b, v, request, draws, cipher, size)
    modifies w`pos, w.buffer
    ensures w.Valid()
    ensures var bytes := Wire(b, v, request, draws, cipher, size);
            && (ok <==> bytes.Some? && |bytes.value| <= w.buffer.Length)
            && (ok ==> w.Written() == bytes.value)
  {
    hide ResponseFields, EfEncodable, Packed, Tagged, Encode, NeedsCipher, Encodable;
    if v == Ntp3 {
      assert w.Written() == [];
      ok := w.WriteAll(draws.header);
      return;
    }
    ok := WriteFields(w, b, v, request, draws, cipher);
    if !ok {
      return;
    }
    if v == Ntp5 && size.Some? && size.value > w.pos {
      assert w.pos == |w.Written()|;
      ok := w.EncodeField(Padding(size.value - w.pos), 4, V5);
    }
  }

  /* ---- Sizes ---- */

  /** The bytes that a field takes on the wire; for one that could not be opened, what it takes at least. */
  function FieldSize(f: ExtField): nat {
    match f
    case UniqueIdentifier(d) => RoundUp4(4 + |d|)
    case NtsCookie(d) => RoundUp4(4 + |d|)
    case NtsCookiePlaceholder(n) => RoundUp4(4 + n)
    case InvalidNtsEncryptedField => 28
    case DraftIdentification(t) => RoundUp4(4 + |t|)
    case Padding(n) => RoundUp4(Max(4, n))
    case ReferenceIdRequest(n, _) => RoundUp4(4 + n)
    case ReferenceIdResponse(b) => RoundUp4(4 + |b|)
    case Unknown(_, d) => RoundUp4(4 + |d|)
  }

  function Total(fs: seq<ExtField>): nat {
    if fs == [] then 0 else Total(fs[..|fs| - 1]) + FieldSize(fs[|fs| - 1])
  }

  lemma {:induction false} TotalJoin(a: seq<ExtField>, b: seq<ExtField>)
    ensures Total(a + b) == Total(a) + Total(b)
    decreases |b|
  {
    hide FieldSize;
    if b == [] {
      assert a + b == a;
    } else {
      TotalJoin(a, b[..|b| - 1]);
      assert (a + b)[..|a + b| - 1] == a + b[..|b| - 1];
    }
  }

  lemma TotalOne(f: ExtField)
    ensures Total([f]) == FieldSize(f)
  {
    assert [f][..0] == [];
  }

  /** A field takes as many bytes as it was read from. */
  lemma DecodedSize(raw: Raw, ver: Version)
    requires |raw.body| <= MAX_BODY && Decode(raw, ver).Ok?
    ensures FieldSize(Decode(raw, ver).value) == WireLength(raw)
  {
  }

  lemma {:induction false} DecodeAllSize(data: Bytes, ver: Version)
    requires DecodeAll(data, ver).Ok?
    ensures Total(DecodeAll(data, ver).value) == |data|
    decreases |data|
  {
    hide ReadRaw, Decode, WireLength, FieldSize, Total;
    if data != [] {
      var raw := ReadRaw(data, ver).value;
      var f, rest := Decode(raw, ver).value, data[WireLength(raw)..];
      DecodeAllSize(rest, ver);
      DecodedSize(raw, ver);
      TotalOne(f);
      TotalJoin([f], DecodeAll(rest, ver).value);
    } else {
      NothingTotal();
    }
  }

  lemma NothingTotal()
    ensures Total([]) == 0
  {
  }
}
