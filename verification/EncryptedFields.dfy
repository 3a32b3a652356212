/**
 The extension fields of a packet: the authenticated ones, the encrypted ones inside their own
 field, and the untrusted ones, as written after a header and as read back.
 */
module EncryptedFields {
  import opened Bytes
  import opened ExtensionFields

  /** An authenticated cipher with associated data. */
  datatype Cipher = Cipher(
    seal: (Bytes, Bytes, Bytes) -> Bytes,
    open: (Bytes, Bytes, Bytes) -> Option<Bytes>)

  const TAG_LENGTH := 16
  const NONCE_LENGTH := 16

  /** Sealing adds a tag of fixed size. */
  ghost predicate Tagged(writer: Cipher) {
    forall nonce, aad, plain :: |writer.seal(nonce, aad, plain)| == |plain| + TAG_LENGTH
  }

  /** `reader` opens exactly what `writer` sealed under the same nonce and associated data. */
  ghost predicate Opens(reader: Cipher, writer: Cipher) {
    forall nonce, aad, plain ::
      && |writer.seal(nonce, aad, plain)| == |plain| + TAG_LENGTH
      && reader.open(nonce, aad, writer.seal(nonce, aad, plain)) == Some(plain)
  }

  /** A cipher, with the cookie it was decoded from if there was one. */
  datatype CipherHolder<C> = DecodedServerCookie(cookie: C, cipher: Cipher) | Other(cipher: Cipher)

  /** Chooses the cipher from the fields in front of the encrypted one. */
  type Provider<!C> = seq<ExtField> -> Option<CipherHolder<C>>

  datatype EfData = EfData(authenticated: seq<ExtField>, encrypted: seq<ExtField>, untrusted: seq<ExtField>)

  /* ---- Writing ---- */

  /** A field with the minimum size it is written at. */
  datatype Sized = Sized(field: ExtField, minimum: U16)

  predicate AllEncodable(fs: seq<Sized>) {
    forall i :: 0 <= i < |fs| ==> Encodable(fs[i].field)
  }

  function EncodeAll(fs: seq<Sized>, ver: Version): (r: Bytes)
    requires AllEncodable(fs)
  {
    if fs == [] then []
    else Encode(fs[0].field, fs[0].minimum, ver) + EncodeAll(fs[1..], ver)
  }

  /** Fields fill whole words, so that a ciphertext never needs padding of its own. */
  lemma {:induction false} EncodeAllAligned(fs: seq<Sized>, ver: Version)
    requires AllEncodable(fs)
    ensures |EncodeAll(fs, ver)| % 4 == 0
  {
    hide Encode, Encodable, RoundUp4, MinimumFor, Body;
    if fs != [] {
      EncodeAllAligned(fs[1..], ver);
      WordsAdd(|Encode(fs[0].field, fs[0].minimum, ver)|, |EncodeAll(fs[1..], ver)|);
    }
  }

  lemma WordsAdd(a: nat, b: nat)
    requires a % 4 == 0 && b % 4 == 0
    ensures (a + b) % 4 == 0
  {
  }

  function WithMinimum(fs: seq<ExtField>, minimum: U16): (r: seq<Sized>)
    ensures |r| == |fs|
  {
    seq(|fs|, i requires 0 <= i < |fs| => Sized(fs[i], minimum))
  }

  const AUTHENTICATED_MINIMUM: U16 := 16

  /** Section 7.5.1.4 of RFC 7822: in version 4 the last field is at least 28 octets long and the
      others at least 16. */
  function UntrustedMinimum(isLast: bool, ver: Version): U16 {
    if ver == V5 then 4 else if isLast then 28 else 16
  }

  function UntrustedSizes(fs: seq<ExtField>, ver: Version): (r: seq<Sized>)
    ensures |r| == |fs|
  {
    seq(|fs|, i requires 0 <= i < |fs| => Sized(fs[i], UntrustedMinimum(i == |fs| - 1, ver)))
  }

  /** The lengths, the padded nonce and the padded ciphertext. */
  function SealedBody(nonce: Bytes, sealed: Bytes): (r: Bytes)
    ensures |r| == 4 + RoundUp4(|nonce|) + RoundUp4(|sealed|)
  {
    ToU16(|nonce| % 0x1_0000) + ToU16(|sealed| % 0x1_0000) + PadTo4(nonce) + PadTo4(sealed)
  }

  function PadTo4(b: Bytes): (r: Bytes)
    ensures |r| == RoundUp4(|b|) && r[..|b|] == b
  {
    b + Zeros(RoundUp4(|b|) - |b|)
  }

  function EncodeSealed(nonce: Bytes, sealed: Bytes): (r: Bytes) {
    var b := SealedBody(nonce, sealed);
    Framing(NTS_ENCRYPTED_FIELD, (HEADER_LENGTH + |b|) % 0x1_0000) + b
  }

  function EncodeEncrypted(prefix: Bytes, fs: seq<ExtField>, cipher: Cipher, nonce: Bytes, ver: Version): Bytes
    requires AllEncodable(WithMinimum(fs, 0))
  {
    EncodeSealed(nonce, cipher.seal(nonce, prefix, EncodeAll(WithMinimum(fs, 0), ver)))
  }

  predicate EfEncodable(d: EfData, ver: Version) {
    && AllEncodable(WithMinimum(d.authenticated, AUTHENTICATED_MINIMUM))
    && AllEncodable(WithMinimum(d.encrypted, 0))
    && AllEncodable(UntrustedSizes(d.untrusted, ver))
  }

  predicate NeedsCipher(d: EfData) {
    d.authenticated != [] || d.encrypted != []
  }

  /** The packet up to and including its extension fields, behind the bytes in `header`. */
  function Serialized(header: Bytes, d: EfData, cipher: Cipher, nonce: Bytes, ver: Version): Bytes
    requires EfEncodable(d, ver)
  {
    var a := header + EncodeAll(WithMinimum(d.authenticated, AUTHENTICATED_MINIMUM), ver);
    var b := if NeedsCipher(d) then a + EncodeEncrypted(a, d.encrypted, cipher, nonce, ver) else header;
    b + EncodeAll(UntrustedSizes(d.untrusted, ver), ver)
  }

  /* ---- Reading ---- */

  datatype Sealed = Sealed(nonce: Bytes, sealed: Bytes)

  function ReadSealed(body: Bytes): (r: Result<Sealed>) {
    if |body| < 4 then Err(IncorrectLength)
    else
      var n, c := FromU16(body[0], body[1]), FromU16(body[2], body[3]);
      if 4 + n > |body| then Err(IncorrectLength)
      else
        var start := 4 + RoundUp4U16(n);
        if start + c > |body| then Err(IncorrectLength)
        else Ok(Sealed(body[4..4 + n], body[start..start + c]))
  }

  /** All fields of a decrypted text; the first error wins. */
  function DecodeAll(data: Bytes, ver: Version): (r: Result<seq<ExtField>>)
    decreases |data|
  {
    if data == [] then Ok([])
    else
      match ReadRaw(data, ver)
      case Err(e) => Err(e)
      case Ok(raw) =>
        if raw.typeId == NTS_ENCRYPTED_FIELD then Err(MalformedNtsExtensionFields)
        else
          match Decode(raw, ver)
          case Err(e) => Err(e)
          case Ok(f) =>
            match DecodeAll(data[WireLength(raw)..], ver)
            case Err(e) => Err(e)
            case Ok(fs) => Ok([f] + fs)
  }

  /** What has been read so far. */
  datatype State<C> = State(efdata: EfData, valid: bool, cookie: Option<C>)

  datatype Deserialized<C> = Deserialized(state: State<C>, remaining: Bytes)

  /** Room for a legacy MAC is left at the end of version 4 packets. */
  function Cutoff(ver: Version): nat {
    if ver == V4 then 24 else 0
  }

  function Untrust(st: State, f: ExtField): State {
    st.(efdata := st.efdata.(untrusted := st.efdata.untrusted + [f]))
  }

  /** An encrypted field that cannot be decrypted is remembered as such. */
  function Reject(st: State): State {
    Untrust(st, InvalidNtsEncryptedField).(valid := false)
  }

  /** A decrypted field vouches for all fields in front of it. */
  function Accept<C>(st: State<C>, fs: seq<ExtField>, holder: CipherHolder<C>): State<C> {
    State(EfData(st.efdata.authenticated + st.efdata.untrusted, st.efdata.encrypted + fs, []),
          st.valid,
          if holder.DecodedServerCookie? then Some(holder.cookie) else None)
  }

  /** The effect of one field, where `prefix` is all of the packet in front of it. */
  function Step<C>(st: State<C>, raw: Raw, prefix: Bytes, provider: Provider<C>, ver: Version)
    : (r: Result<State<C>>)
    requires |raw.body| <= MAX_BODY
  {
    if raw.typeId != NTS_ENCRYPTED_FIELD then
      match Decode(raw, ver)
      case Err(e) => Err(e)
      case Ok(f) => Ok(Untrust(st, f))
    else
      match ReadSealed(raw.body)
      case Err(e) => Err(e)
      case Ok(s) =>
        match provider(st.efdata.untrusted)
        case None => Ok(Reject(st))
        case Some(holder) =>
          match holder.cipher.open(s.nonce, prefix, s.sealed)
          case None => Ok(Reject(st))
          case Some(plain) =>
            match DecodeAll(plain, ver)
            case Err(e) => Err(e)
            case Ok(fs) => Ok(Accept(st, fs, holder))
  }

  /** Reads the fields of `data` from position `pos` on. */
  function ReadFrom<C>(data: Bytes, pos: nat, st: State<C>, provider: Provider<C>, ver: Version)
    : (r: Result<Deserialized<C>>)
    requires pos <= |data|
    decreases |data| - pos
  {
    var rest := data[pos..];
    if |rest| <= Cutoff(ver) then Ok(Deserialized(st, rest))
    else
      match ReadRaw(rest, ver)
      case Err(e) => Err(e)
      case Ok(raw) =>
        match Step(st, raw, data[..pos], provider, ver)
        case Err(e) => Err(e)
        case Ok(st') => ReadFrom(data, pos + WireLength(raw), st', provider, ver)
  }

  function Initial<C>(): State<C> {
    State(EfData([], [], []), true, None)
  }

  /** The extension fields behind a header of the given size. */
  function Deserialize<C>(data: Bytes, headerSize: nat, provider: Provider<C>, ver: Version)
    : (r: Result<Deserialized<C>>)
    requires headerSize <= |data|
  {
    ReadFrom(data, headerSize, Initial(), provider, ver)
  }

  /* ---- There and back ---- */

  /** The field reads back, and not as the encrypted field. */
  predicate ReadableField(f: ExtField, minimum: U16, ver: Version) {
    && Encodable(f)
    && LengthFits(f, minimum, ver)
    && TypeId(f) != NTS_ENCRYPTED_FIELD
    && Reread(f, minimum, ver).Ok?
  }

  predicate Readable(fs: seq<Sized>, ver: Version) {
    forall i :: 0 <= i < |fs| ==> ReadableField(fs[i].field, fs[i].minimum, ver)
  }

  /** The fields with the zeros that reading adds to them. */
  function RereadAll(fs: seq<Sized>, ver: Version): (r: seq<ExtField>)
    requires Readable(fs, ver)
    ensures |r| == |fs|
  {
    seq(|fs|, i requires 0 <= i < |fs| => Reread(fs[i].field, fs[i].minimum, ver).value)
  }

  lemma RereadStep(fs: seq<Sized>, ver: Version)
    requires Readable(fs, ver) && fs != []
    ensures RereadAll(fs, ver) == [Reread(fs[0].field, fs[0].minimum, ver).value] + RereadAll(fs[1..], ver)
  {
  }

  lemma {:induction false} DecodeAllEncodeAll(fs: seq<Sized>, ver: Version)
    requires Readable(fs, ver)
    ensures DecodeAll(EncodeAll(fs, ver), ver) == Ok(RereadAll(fs, ver))
  {
    if fs != [] {
      var e, rest := Encode(fs[0].field, fs[0].minimum, ver), EncodeAll(fs[1..], ver);
      ReadBack(fs[0].field, fs[0].minimum, ver, rest);
      assert (e + rest)[|e|..] == rest;
      DecodeAllEncodeAll(fs[1..], ver);
      RereadStep(fs, ver);
    }
  }

  /** `data` goes on with `next` at position `pos`. */
  predicate Continues(data: Bytes, pos: nat, next: Bytes) {
    pos <= |data| && data[pos..] == next
  }

  lemma ContinuesPast(data: Bytes, pos: nat, a: Bytes, b: Bytes)
    requires Continues(data, pos, a + b)
    ensures pos + |a| <= |data| && Continues(data, pos + |a|, b) && data[..pos + |a|] == data[..pos] + a
  {
    assert data == data[..pos] + (a + b);
  }

  /** One field is read and its effect taken. */
  lemma ReadNext<C>(data: Bytes, pos: nat, raw: Raw, st: State<C>, st': State<C>, provider: Provider<C>, ver: Version)
    requires pos <= |data| && |data| - pos > Cutoff(ver) && ReadRaw(data[pos..], ver) == Ok(raw)
    requires Step(st, raw, data[..pos], provider, ver) == Ok(st')
    ensures pos + WireLength(raw) <= |data|
    ensures ReadFrom(data, pos, st, provider, ver) ==
            ReadFrom(data, pos + WireLength(raw), st', provider, ver)
  {
    hide Step, ReadRaw, WireLength;
  }

  lemma ReadOne<C>(data: Bytes, pos: nat, f: ExtField, m: U16, next: Bytes, st: State<C>,
                   provider: Provider<C>, ver: Version)
    requires ReadableField(f, m, ver)
    requires Continues(data, pos, Encode(f, m, ver) + next)
    requires |Encode(f, m, ver)| + |next| > Cutoff(ver)
    ensures pos + |Encode(f, m, ver)| <= |data|
    ensures ReadFrom(data, pos, st, provider, ver) ==
            ReadFrom(data, pos + |Encode(f, m, ver)|, Untrust(st, Reread(f, m, ver).value), provider, ver)
  {
    hide Encode, Decode, PaddedBody, ReadFrom, ReadRaw, WireLength;
    ReadBack(f, m, ver, next);
    ReadNext(data, pos, Raw(TypeId(f), PaddedBody(f, m, ver)), st, Untrust(st, Reread(f, m, ver).value), provider, ver);
  }

  function UntrustAll(st: State, fs: seq<ExtField>): State {
    st.(efdata := st.efdata.(untrusted := st.efdata.untrusted + fs))
  }

  /** In front of every field, more is left than the room kept for a MAC. */
  predicate LeavesRoom(fs: seq<Sized>, after: nat, ver: Version)
    requires AllEncodable(fs)
  {
    fs != [] ==> |EncodeAll(fs, ver)| + after > Cutoff(ver) && LeavesRoom(fs[1..], after, ver)
  }

  lemma UntrustStep(st: State, fs: seq<Sized>, ver: Version)
    requires Readable(fs, ver) && fs != []
    ensures var st1 := Untrust(st, Reread(fs[0].field, fs[0].minimum, ver).value);
            UntrustAll(st1, RereadAll(fs[1..], ver)) == UntrustAll(st, RereadAll(fs, ver))
  {
    hide Reread, Encodable, LengthFits;
    RereadStep(fs, ver);
    var r := Reread(fs[0].field, fs[0].minimum, ver).value;
    assert (st.efdata.untrusted + [r]) + RereadAll(fs[1..], ver) == st.efdata.untrusted + RereadAll(fs, ver);
  }

  /** Reading past a run of ordinary fields only adds them to the untrusted ones, as long as what
      is left always exceeds the room kept for a MAC. */
  lemma {:induction false} ReadPlain<C>(data: Bytes, pos: nat, fs: seq<Sized>, next: Bytes, st: State<C>,
                                        provider: Provider<C>, ver: Version)
    requires Readable(fs, ver)
    requires Continues(data, pos, EncodeAll(fs, ver) + next)
    requires LeavesRoom(fs, |next|, ver)
    ensures pos + |EncodeAll(fs, ver)| <= |data|
    ensures ReadFrom(data, pos, st, provider, ver) ==
            ReadFrom(data, pos + |EncodeAll(fs, ver)|, UntrustAll(st, RereadAll(fs, ver)), provider, ver)
    decreases |fs|
  {
    hide Encode, Decode, ReadFrom, Reread, LengthFits, Continues, RereadAll, Encodable;
    if fs == [] {
      EmptyRun(fs, data, pos, next, st, ver);
    } else {
      var f, m := fs[0].field, fs[0].minimum;
      var e, rest := Encode(f, m, ver), EncodeAll(fs[1..], ver);
      assert EncodeAll(fs, ver) + next == e + (rest + next);
      ReadOne(data, pos, f, m, rest + next, st, provider, ver);
      ContinuesPast(data, pos, e, rest + next);
      var st1 := Untrust(st, Reread(f, m, ver).value);
      ReadPlain(data, pos + |e|, fs[1..], next, st1, provider, ver);
      UntrustStep(st, fs, ver);
    }
  }

  lemma EmptyRun<C>(fs: seq<Sized>, data: Bytes, pos: nat, next: Bytes, st: State<C>, ver: Version)
    requires fs == [] && Continues(data, pos, EncodeAll(fs, ver) + next)
    ensures pos <= |data| && UntrustAll(st, RereadAll(fs, ver)) == st
  {
    assert st.efdata.untrusted + RereadAll(fs, ver) == st.efdata.untrusted;
  }

  /** The encrypted field is short enough for its sixteen-bit lengths. */
  predicate SealedFits(nonce: Bytes, sealed: Bytes) {
    8 + RoundUp4(|nonce|) + RoundUp4(|sealed|) <= 0xFFFF
  }

  /** Nonce and ciphertext are found again behind their padding. */
  lemma SealedBodyReadBack(nonce: Bytes, sealed: Bytes)
    requires SealedFits(nonce, sealed)
    ensures ReadSealed(SealedBody(nonce, sealed)) == Ok(Sealed(nonce, sealed))
  {
    hide PadTo4, ToU16, FromU16, RoundUp4, RoundUp4U16;
    var n, c := |nonce|, |sealed|;
    assert n % 0x1_0000 == n && c % 0x1_0000 == c;
    var h := ToU16(n) + ToU16(c);
    LayoutSlices(h, PadTo4(nonce), PadTo4(sealed), n, c);
    assert h[0] == ToU16(n)[0] && h[1] == ToU16(n)[1] && h[2] == ToU16(c)[0] && h[3] == ToU16(c)[1];
  }

  lemma LayoutSlices(h: Bytes, p: Bytes, q: Bytes, n: nat, c: nat)
    requires |h| == 4 && n <= |p| && c <= |q|
    ensures var b := h + p + q;
            && b[0] == h[0] && b[1] == h[1] && b[2] == h[2] && b[3] == h[3]
            && b[4..4 + n] == p[..n] && b[4 + |p|..4 + |p| + c] == q[..c]
  {
  }

  lemma SealedAligned(n: nat, c: nat)
    ensures var length := 8 + RoundUp4(n) + RoundUp4(c); length % 4 == 0 && RoundUp4(length) == length
  {
    WordsAdd(RoundUp4(n), RoundUp4(c));
  }

  lemma SealedReadBack(nonce: Bytes, sealed: Bytes, next: Bytes, ver: Version)
    requires SealedFits(nonce, sealed)
    ensures var raw := Raw(NTS_ENCRYPTED_FIELD, SealedBody(nonce, sealed));
            && ReadRaw(EncodeSealed(nonce, sealed) + next, ver) == Ok(raw)
            && WireLength(raw) == |EncodeSealed(nonce, sealed)|
  {
    hide SealedBody, Framing, ReadRaw, RoundUp4;
    var b := SealedBody(nonce, sealed);
    var length := 4 + |b|;
    SealedAligned(|nonce|, |sealed|);
    FramedRead(NTS_ENCRYPTED_FIELD, length, b, [], next, ver);
    assert b + [] == b;
    assert EncodeSealed(nonce, sealed) + next == Framing(NTS_ENCRYPTED_FIELD, length) + b + [] + next;
  }

  /** It is found again exactly when it fits: the writer cuts a longer length off to sixteen bits. */
  lemma SealedReadBackIff(nonce: Bytes, sealed: Bytes, next: Bytes, ver: Version)
    ensures ReadRaw(EncodeSealed(nonce, sealed) + next, ver) == Ok(Raw(NTS_ENCRYPTED_FIELD, SealedBody(nonce, sealed)))
       <==> SealedFits(nonce, sealed)
  {
    hide SealedBody, Framing, ReadRaw, RoundUp4;
    if SealedFits(nonce, sealed) {
      SealedReadBack(nonce, sealed, next, ver);
    } else {
      var b := SealedBody(nonce, sealed);
      assert EncodeSealed(nonce, sealed) + next == Framing(NTS_ENCRYPTED_FIELD, (4 + |b|) % 0x1_0000) + (b + next);
      ReadLength(NTS_ENCRYPTED_FIELD, (4 + |b|) % 0x1_0000, b + next, ver);
    }
  }

  /** A sealed text of 65520 bytes makes a field of 65544 bytes, whose length is cut off to eight. */
  lemma LongSealedUnreadable(nonce: Bytes, sealed: Bytes, next: Bytes, ver: Version)
    requires |nonce| == NONCE_LENGTH && |sealed| == 65520
    ensures ReadRaw(EncodeSealed(nonce, sealed) + next, ver) != Ok(Raw(NTS_ENCRYPTED_FIELD, SealedBody(nonce, sealed)))
  {
    hide ReadRaw, EncodeSealed, SealedBody;
    SealedReadBackIff(nonce, sealed, next, ver);
  }

  lemma ReadLength(typeId: U16, length: U16, rest: Bytes, ver: Version)
    ensures var r := ReadRaw(Framing(typeId, length) + rest, ver); r.Ok? ==> |r.value.body| == length - 4
  {
    hide ToU16;
    var data := Framing(typeId, length) + rest;
    assert data[2] == ToU16(length)[0] && data[3] == ToU16(length)[1];
  }

  /** Reading the encrypted field: the associated data of the reader is that of the writer. */
  lemma ReadEncrypted<C>(data: Bytes, pos: nat, fs: seq<ExtField>, writer: Cipher, nonce: Bytes, next: Bytes,
                         st: State<C>, holder: CipherHolder<C>, provider: Provider<C>, ver: Version)
    requires Readable(WithMinimum(fs, 0), ver)
    requires pos <= |data| && Continues(data, pos, EncodeEncrypted(data[..pos], fs, writer, nonce, ver) + next)
    requires SealedFits(nonce, writer.seal(nonce, data[..pos], EncodeAll(WithMinimum(fs, 0), ver)))
    requires nonce != [] && Opens(holder.cipher, writer)
    requires provider(st.efdata.untrusted) == Some(holder)
    ensures var e := EncodeEncrypted(data[..pos], fs, writer, nonce, ver);
            && pos + |e| <= |data|
            && ReadFrom(data, pos, st, provider, ver) ==
               ReadFrom(data, pos + |e|, Accept(st, RereadAll(WithMinimum(fs, 0), ver), holder), provider, ver)
  {
    hide Encode, SealedBody, EncodeSealed, ReadRaw, EncodeAll, RereadAll, WireLength, ReadFrom, Step;
    var sealed := writer.seal(nonce, data[..pos], EncodeAll(WithMinimum(fs, 0), ver));
    var raw := Raw(NTS_ENCRYPTED_FIELD, SealedBody(nonce, sealed));
    assert Tagged(writer);
    SealedLength(data[..pos], fs, writer, nonce, ver);
    SealedReadBack(nonce, sealed, next, ver);
    StepEncrypted(data[..pos], fs, writer, nonce, st, holder, provider, ver);
    ReadNext(data, pos, raw, st, Accept(st, RereadAll(WithMinimum(fs, 0), ver), holder), provider, ver);
  }

  lemma StepEncrypted<C>(aad: Bytes, fs: seq<ExtField>, writer: Cipher, nonce: Bytes,
                         st: State<C>, holder: CipherHolder<C>, provider: Provider<C>, ver: Version)
    requires Readable(WithMinimum(fs, 0), ver)
    requires SealedFits(nonce, writer.seal(nonce, aad, EncodeAll(WithMinimum(fs, 0), ver)))
    requires Opens(holder.cipher, writer) && provider(st.efdata.untrusted) == Some(holder)
    ensures var sealed := writer.seal(nonce, aad, EncodeAll(WithMinimum(fs, 0), ver));
            Step(st, Raw(NTS_ENCRYPTED_FIELD, SealedBody(nonce, sealed)), aad, provider, ver) ==
            Ok(Accept(st, RereadAll(WithMinimum(fs, 0), ver), holder))
  {
    hide Encode, Decode, SealedBody, ReadSealed, EncodeAll, DecodeAll, RereadAll, RoundUp4;
    var plain := EncodeAll(WithMinimum(fs, 0), ver);
    var sealed := writer.seal(nonce, aad, plain);
    DecodeAllEncodeAll(WithMinimum(fs, 0), ver);
    SealedBodyReadBack(nonce, sealed);
    assert holder.cipher.open(nonce, aad, sealed) == Some(plain);
  }

  lemma {:induction false} RoomForAuthenticated(fs: seq<Sized>, after: nat, ver: Version)
    requires AllEncodable(fs) && after > Cutoff(ver)
    ensures LeavesRoom(fs, after, ver)
  {
    if fs != [] {
      RoomForAuthenticated(fs[1..], after, ver);
    }
  }

  /** The last field alone is longer than the longest MAC, so the reader never stops in front of a
      field. */
  lemma {:induction false} RoomForMac(fs: seq<Sized>, after: nat, ver: Version)
    requires AllEncodable(fs)
    requires fs != [] ==> |Encode(fs[|fs| - 1].field, fs[|fs| - 1].minimum, ver)| > Cutoff(ver)
    ensures LeavesRoom(fs, after, ver)
    ensures fs != [] ==> |EncodeAll(fs, ver)| > Cutoff(ver)
  {
    if fs != [] {
      RoomForMac(fs[1..], after, ver);
    }
  }

  /** The three lists of a packet, each with the zeros that reading adds. */
  function RereadData(d: EfData, ver: Version): EfData
    requires EfReadable(d, ver)
  {
    EfData(RereadAll(WithMinimum(d.authenticated, AUTHENTICATED_MINIMUM), ver),
           RereadAll(WithMinimum(d.encrypted, 0), ver),
           RereadAll(UntrustedSizes(d.untrusted, ver), ver))
  }

  predicate EfReadable(d: EfData, ver: Version) {
    && Readable(WithMinimum(d.authenticated, AUTHENTICATED_MINIMUM), ver)
    && Readable(WithMinimum(d.encrypted, 0), ver)
    && UntrustedReadable(d.untrusted, ver)
  }

  /** The last field of a version 4 packet must not be taken for a MAC; reference id fields ignore the minimum
      that keeps others from that. */
  predicate UntrustedReadable(fs: seq<ExtField>, ver: Version) {
    && Readable(UntrustedSizes(fs, ver), ver)
    && (ver == V4 && fs != [] && IsReferenceId(fs[|fs| - 1]) ==>
          var sized := UntrustedSizes(fs, ver);
          sized[|fs| - 1].field == fs[|fs| - 1] && |Body(sized[|fs| - 1].field)| > 20)
  }

  /** The associated data under which the encrypted fields of a packet are sealed. */
  function AssociatedData(header: Bytes, d: EfData, ver: Version): Bytes
    requires EfEncodable(d, ver)
  {
    header + EncodeAll(WithMinimum(d.authenticated, AUTHENTICATED_MINIMUM), ver)
  }

  function SealedText(header: Bytes, d: EfData, cipher: Cipher, nonce: Bytes, ver: Version): Bytes
    requires EfEncodable(d, ver)
  {
    cipher.seal(nonce, AssociatedData(header, d, ver), EncodeAll(WithMinimum(d.encrypted, 0), ver))
  }

  lemma ReadableIsEncodable(d: EfData, ver: Version)
    requires EfReadable(d, ver)
    ensures EfEncodable(d, ver)
  {
  }

  lemma UntrustedLast(fs: seq<ExtField>, ver: Version)
    requires UntrustedReadable(fs, ver) && fs != []
    ensures var last := UntrustedSizes(fs, ver)[|fs| - 1];
            |Encode(last.field, last.minimum, ver)| > Cutoff(ver)
  {
    hide Reread, Body;
    var last := UntrustedSizes(fs, ver)[|fs| - 1];
    assert last == Sized(fs[|fs| - 1], UntrustedMinimum(true, ver)) && Encodable(last.field);
    assert ver == V4 && !IsReferenceId(last.field) ==> MinimumFor(last.field, last.minimum) == 28;
  }

  /** The untrusted fields at the end of a packet, and the MAC that is left over. */
  lemma ReadUntrusted<C>(data: Bytes, pos: nat, fs: seq<ExtField>, mac: Bytes, st: State<C>,
                         provider: Provider<C>, ver: Version)
    requires UntrustedReadable(fs, ver)
    requires Continues(data, pos, EncodeAll(UntrustedSizes(fs, ver), ver) + mac)
    requires |mac| <= Cutoff(ver)
    ensures ReadFrom(data, pos, st, provider, ver) ==
            Ok(Deserialized(UntrustAll(st, RereadAll(UntrustedSizes(fs, ver), ver)), mac))
  {
    hide Encode, Decode, RereadAll, Reread, LengthFits, Encodable, EncodeAll, LeavesRoom;
    var sized := UntrustedSizes(fs, ver);
    if fs != [] {
      UntrustedLast(fs, ver);
    }
    RoomForMac(sized, |mac|, ver);
    ReadPlain(data, pos, sized, mac, st, provider, ver);
    ContinuesPast(data, pos, EncodeAll(sized, ver), mac);
  }

  /** Without authenticated or encrypted fields: what was written is read, and a MAC of up to 24
      octets behind a version 4 packet stays untouched. */
  lemma PlainRoundTrip<C>(header: Bytes, fs: seq<ExtField>, mac: Bytes, provider: Provider<C>, ver: Version)
    requires UntrustedReadable(fs, ver)
    requires |mac| <= Cutoff(ver)
    ensures Deserialize(header + EncodeAll(UntrustedSizes(fs, ver), ver) + mac, |header|, provider, ver) ==
            Ok(Deserialized(State(EfData([], [], RereadAll(UntrustedSizes(fs, ver), ver)), true, None), mac))
  {
    hide Encode, Decode, RereadAll, Reread, LengthFits, Encodable;
    var e := EncodeAll(UntrustedSizes(fs, ver), ver);
    var data := header + e + mac;
    assert data[|header|..] == e + mac;
    ReadUntrusted(data, |header|, fs, mac, Initial(), provider, ver);
    assert [] + RereadAll(UntrustedSizes(fs, ver), ver) == RereadAll(UntrustedSizes(fs, ver), ver);
  }

  /** A whole packet: with a cipher that opens what the writer's sealed, reading returns the three
      lists that were written, up to zeros at the end of a field, and leaves the MAC untouched. */
  lemma RoundTrip<C>(header: Bytes, d: EfData, writer: Cipher, nonce: Bytes, mac: Bytes,
                     holder: CipherHolder<C>, provider: Provider<C>, ver: Version)
    requires EfReadable(d, ver) && EfEncodable(d, ver) && NeedsCipher(d)
    requires SealedFits(nonce, SealedText(header, d, writer, nonce, ver)) && nonce != []
    requires Opens(holder.cipher, writer)
    requires provider(RereadData(d, ver).authenticated) == Some(holder)
    requires |mac| <= Cutoff(ver)
    ensures var cookie := if holder.DecodedServerCookie? then Some(holder.cookie) else None;
            Deserialize(Serialized(header, d, writer, nonce, ver) + mac, |header|, provider, ver) ==
            Ok(Deserialized(State(RereadData(d, ver), true, cookie), mac))
  {
    hide Encode, Decode, RereadAll, Reread, LengthFits, Encodable, EncodeSealed, SealedFits, EncodeAll, ReadFrom;
    hide Accept, UntrustAll, UntrustedSizes, WithMinimum, Readable, AllEncodable, Opens, UntrustedReadable;
    hide RoundUp4, MinimumFor, Body, NeedsCipher, LeavesRoom;
    var auth := WithMinimum(d.authenticated, AUTHENTICATED_MINIMUM);
    var a, u := EncodeAll(auth, ver), EncodeAll(UntrustedSizes(d.untrusted, ver), ver);
    var aad := AssociatedData(header, d, ver);
    var e := EncodeEncrypted(aad, d.encrypted, writer, nonce, ver);
    var data := Serialized(header, d, writer, nonce, ver) + mac;
    assert data == aad + e + u + mac;
    PacketSlices(header, a, e, u, mac);
    OpensTagged(holder.cipher, writer);
    SealedLength(aad, d.encrypted, writer, nonce, ver);
    RoomForAuthenticated(auth, |e + (u + mac)|, ver);
    ReadPlain(data, |header|, auth, e + (u + mac), Initial(), provider, ver);
    var st := UntrustAll(Initial<C>(), RereadAll(auth, ver));
    RoundTripStates(d, holder, ver);
    ReadEncrypted(data, |aad|, d.encrypted, writer, nonce, u + mac, st, holder, provider, ver);
    var st' := Accept(st, RereadAll(WithMinimum(d.encrypted, 0), ver), holder);
    ReadUntrusted(data, |aad| + |e|, d.untrusted, mac, st', provider, ver);
  }

  /** Where the parts of a packet are. */
  lemma PacketSlices(header: Bytes, a: Bytes, e: Bytes, u: Bytes, mac: Bytes)
    ensures var data := (header + a) + e + u + mac;
            && data[..|header|] == header && data[..|header + a|] == header + a
            && Continues(data, |header|, a + (e + (u + mac)))
            && Continues(data, |header + a|, e + (u + mac))
            && Continues(data, |header + a| + |e|, u + mac)
  {
  }

  /** The states that reading a written packet goes through. */
  lemma RoundTripStates<C>(d: EfData, holder: CipherHolder<C>, ver: Version)
    requires EfReadable(d, ver)
    ensures var r := RereadData(d, ver);
            var cookie := if holder.DecodedServerCookie? then Some(holder.cookie) else None;
            var st := UntrustAll(Initial<C>(), r.authenticated);
            && st.efdata.untrusted == r.authenticated
            && UntrustAll(Accept(st, r.encrypted, holder), r.untrusted) == State(r, true, cookie)
  {
    hide RereadAll, WithMinimum, UntrustedSizes, Readable;
    var r := RereadData(d, ver);
    assert [] + r.authenticated == r.authenticated;
    assert [] + r.encrypted == r.encrypted;
    assert [] + r.untrusted == r.untrusted;
  }

  lemma OpensTagged(reader: Cipher, writer: Cipher)
    requires Opens(reader, writer)
    ensures Tagged(writer)
  {
  }

  /** The encrypted field alone is longer than the longest MAC. */
  lemma SealedLength(aad: Bytes, fs: seq<ExtField>, writer: Cipher, nonce: Bytes, ver: Version)
    requires AllEncodable(WithMinimum(fs, 0)) && Tagged(writer) && nonce != []
    ensures |EncodeEncrypted(aad, fs, writer, nonce, ver)| > Cutoff(ver)
  {
    var plain := EncodeAll(WithMinimum(fs, 0), ver);
    assert |writer.seal(nonce, aad, plain)| == |plain| + TAG_LENGTH;
  }

  /* ---- The same lists ---- */

  /** Fields of the kinds that the version has, short enough for their lengths. */
  predicate AllKept(fs: seq<Sized>, ver: Version) {
    forall i :: 0 <= i < |fs| ==> KeptField(fs[i].field, fs[i].minimum, ver)
  }

  predicate KeptField(f: ExtField, minimum: U16, ver: Version) {
    Encodable(f) && Kept(f, ver) && LengthFits(f, minimum, ver) && TypeId(f) != NTS_ENCRYPTED_FIELD
  }

  predicate KeptData(d: EfData, ver: Version) {
    && AllKept(WithMinimum(d.authenticated, AUTHENTICATED_MINIMUM), ver)
    && AllKept(WithMinimum(d.encrypted, 0), ver)
    && AllKept(UntrustedSizes(d.untrusted, ver), ver)
  }

  /** The same fields one by one, but for zeros at the end of each. */
  predicate SameFields(fs: seq<ExtField>, gs: seq<ExtField>) {
    |fs| == |gs| && forall i :: 0 <= i < |fs| ==> SameField(fs[i], gs[i])
  }

  predicate SameData(d: EfData, e: EfData) {
    && SameFields(d.authenticated, e.authenticated)
    && SameFields(d.encrypted, e.encrypted)
    && SameFields(d.untrusted, e.untrusted)
  }

  function FieldsOf(fs: seq<Sized>): seq<ExtField> {
    seq(|fs|, i requires 0 <= i < |fs| => fs[i].field)
  }

  lemma KeptReread(fs: seq<Sized>, ver: Version)
    requires AllKept(fs, ver)
    ensures Readable(fs, ver) && SameFields(FieldsOf(fs), RereadAll(fs, ver))
  {
    hide Encodable, Kept, LengthFits, Reread, SameField, TypeId;
    forall i | 0 <= i < |fs|
      ensures ReadableField(fs[i].field, fs[i].minimum, ver)
      ensures SameField(fs[i].field, Reread(fs[i].field, fs[i].minimum, ver).value)
    {
      RereadIsSelf(fs[i].field, fs[i].minimum, ver);
    }
  }

  lemma KeptDataReread(d: EfData, ver: Version)
    requires KeptData(d, ver)
    ensures EfReadable(d, ver) && EfEncodable(d, ver) && SameData(d, RereadData(d, ver))
  {
    hide AllKept, Readable, RereadAll, SameField, AllEncodable;
    KeptReread(WithMinimum(d.authenticated, AUTHENTICATED_MINIMUM), ver);
    KeptReread(WithMinimum(d.encrypted, 0), ver);
    KeptReread(UntrustedSizes(d.untrusted, ver), ver);
    assert FieldsOf(WithMinimum(d.authenticated, AUTHENTICATED_MINIMUM)) == d.authenticated;
    assert FieldsOf(WithMinimum(d.encrypted, 0)) == d.encrypted;
    assert FieldsOf(UntrustedSizes(d.untrusted, ver)) == d.untrusted;
    KeptUntrusted(d.untrusted, ver);
    ReadableIsEncodable(d, ver);
  }

  lemma KeptUntrusted(fs: seq<ExtField>, ver: Version)
    requires AllKept(UntrustedSizes(fs, ver), ver) && Readable(UntrustedSizes(fs, ver), ver)
    ensures UntrustedReadable(fs, ver)
  {
    hide Reread, LengthFits, Encodable;
    if ver == V4 && fs != [] {
      assert KeptField(UntrustedSizes(fs, ver)[|fs| - 1].field, UntrustedSizes(fs, ver)[|fs| - 1].minimum, ver);
    }
  }

  /** A whole packet of such fields: reading returns the same three lists, each field up to zeros at its end. */
  lemma RoundTripSame<C>(header: Bytes, d: EfData, writer: Cipher, nonce: Bytes, mac: Bytes,
                         holder: CipherHolder<C>, provider: Provider<C>, ver: Version)
    requires KeptData(d, ver) && NeedsCipher(d) && EfReadable(d, ver) && EfEncodable(d, ver)
    requires SealedFits(nonce, SealedText(header, d, writer, nonce, ver)) && nonce != []
    requires Opens(holder.cipher, writer) && provider(RereadData(d, ver).authenticated) == Some(holder)
    requires |mac| <= Cutoff(ver)
    ensures var r := Deserialize(Serialized(header, d, writer, nonce, ver) + mac, |header|, provider, ver);
            && r.Ok? && r.value.remaining == mac && r.value.state.valid
            && SameData(d, r.value.state.efdata)
            && r.value.state.cookie == if holder.DecodedServerCookie? then Some(holder.cookie) else None
  {
    hide KeptData, EfReadable, EfEncodable, SameData, Deserialize, Serialized, RereadData, SealedText, Opens;
    KeptDataReread(d, ver);
    RoundTrip(header, d, writer, nonce, mac, holder, provider, ver);
  }
}
