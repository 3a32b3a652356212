/**
 The wire format of NTP extension fields: framing, padding and minimum sizes on the way out, and
 the reading of one field or of a run of fields on the way in.
 */
module ExtensionFields {
  import opened Bytes
  import opened Protocol

  datatype Version = V4 | V5

  /** How the fields of a packet of some version are framed. */
  function ExtVersion(v: NtpVersion): Version {
    if v == Ntp5 then V5 else V4
  }

  function NumberOf(ver: Version): NtpVersion {
    if ver == V4 then Ntp4 else Ntp5
  }

  datatype Error = IncorrectLength | MalformedNtsExtensionFields | MalformedCookiePlaceholder
    | InvalidDraftIdentification

  datatype Result<+T> = Ok(value: T) | Err(error: Error)

  datatype ExtField =
    | UniqueIdentifier(data: Bytes)
    | NtsCookie(data: Bytes)
    | NtsCookiePlaceholder(cookieLength: U16)
    | InvalidNtsEncryptedField
    | DraftIdentification(text: Bytes)
    | Padding(length: nat)
    | ReferenceIdRequest(payloadLen: U16, offset: U16)
    | ReferenceIdResponse(data: Bytes)
    | Unknown(typeId: U16, data: Bytes)

  const UNIQUE_IDENTIFIER: U16 := 0x104
  const NTS_COOKIE: U16 := 0x204
  const NTS_COOKIE_PLACEHOLDER: U16 := 0x304
  const NTS_ENCRYPTED_FIELD: U16 := 0x404
  const DRAFT_IDENTIFICATION: U16 := 0xF5FF
  const PADDING: U16 := 0xF501
  const REFERENCE_ID_REQUEST: U16 := 0xF503
  const REFERENCE_ID_RESPONSE: U16 := 0xF504

  const HEADER_LENGTH := 4
  /** The longest body whose length still fits the 16-bit length field with its header. */
  const MAX_BODY := 0xFFFF - 4

  function RoundUp4(n: nat): (r: nat)
    ensures r % 4 == 0 && n <= r < n + 4
  {
    (n + 3) / 4 * 4
  }

  /** Rounding in sixteen bits, which wraps for the three largest values. */
  function RoundUp4U16(n: U16): (r: U16)
    ensures n <= 0xFFFC ==> r == RoundUp4(n)
    ensures n > 0xFFFC ==> r == 0
  {
    RoundUp4(n) % 0x1_0000
  }

  /* ---- Writing ---- */

  function TypeId(f: ExtField): U16 {
    match f
    case UniqueIdentifier(_) => UNIQUE_IDENTIFIER
    case NtsCookie(_) => NTS_COOKIE
    case NtsCookiePlaceholder(_) => NTS_COOKIE_PLACEHOLDER
    case InvalidNtsEncryptedField => NTS_ENCRYPTED_FIELD
    case DraftIdentification(_) => DRAFT_IDENTIFICATION
    case Padding(_) => PADDING
    case ReferenceIdRequest(_, _) => REFERENCE_ID_REQUEST
    case ReferenceIdResponse(_) => REFERENCE_ID_RESPONSE
    case Unknown(t, _) => t
  }

  /** What the writer asks of its caller: it panics on a padding field without room for its own header, on a
      reference id request that is not in whole words, and on a response that is too long. */
  predicate Writable(f: ExtField) {
    match f
    case Padding(n) => n >= HEADER_LENGTH
    case ReferenceIdRequest(n, _) => n <= MAX_BODY && n % 4 == 0
    case ReferenceIdResponse(b) => |b| <= MAX_BODY
    case _ => true
  }

  predicate IsReferenceId(f: ExtField) {
    f.ReferenceIdRequest? || f.ReferenceIdResponse?
  }

  function Body(f: ExtField): Bytes
    requires f.Padding? ==> f.length >= HEADER_LENGTH
  {
    match f
    case UniqueIdentifier(d) => d
    case NtsCookie(d) => d
    case NtsCookiePlaceholder(n) => Zeros(n)
    case InvalidNtsEncryptedField => []
    case DraftIdentification(t) => t
    case Padding(n) => Zeros(n - HEADER_LENGTH)
    case ReferenceIdRequest(n, offset) => ToU16(offset) + Zeros(Max(n, 4) - 2)
    case ReferenceIdResponse(b) => b
    case Unknown(_, d) => d
  }

  /** The length that the header declares for the body; a reference id request without payload still has its offset. */
  function Declared(f: ExtField): nat
    requires f.Padding? ==> f.length >= HEADER_LENGTH
  {
    if f.ReferenceIdRequest? then f.payloadLen else |Body(f)|
  }

  /** Reference id fields ignore the minimum size and are framed as in version 5. */
  function MinimumFor(f: ExtField, minimum: U16): U16 {
    if IsReferenceId(f) then 0 else minimum
  }

  function FramedAs(f: ExtField, ver: Version): Version {
    if IsReferenceId(f) then V5 else ver
  }

  /** The value of the length field: in version 4 it counts the padding to a word. */
  function FramedLength(bodyLength: nat, minimum: U16, ver: Version): U16
    requires bodyLength <= MAX_BODY
  {
    var n: U16 := Max(bodyLength + HEADER_LENGTH, minimum);
    if ver == V4 then RoundUp4U16(n) else n
  }

  function Framing(typeId: U16, length: U16): (r: Bytes)
    ensures |r| == 4
  {
    ToU16(typeId) + ToU16(length)
  }

  /** The number of zero bytes after the body, in either version up to a word. */
  function PadLength(bodyLength: nat, minimum: U16): nat {
    RoundUp4(Max(bodyLength + HEADER_LENGTH, minimum)) - bodyLength - HEADER_LENGTH
  }

  predicate Encodable(f: ExtField) {
    Writable(f) && !f.InvalidNtsEncryptedField? && |Body(f)| <= MAX_BODY
  }

  function Encode(f: ExtField, minimum: U16, ver: Version): (r: Bytes)
    requires Encodable(f)
    ensures |r| == RoundUp4(Max(|Body(f)| + 4, MinimumFor(f, minimum)))
  {
    var n, m := |Body(f)|, MinimumFor(f, minimum);
    Framing(TypeId(f), FramedLength(Declared(f), m, FramedAs(f, ver))) + Body(f) + Zeros(PadLength(n, m))
  }

  /* ---- Reading ---- */

  datatype Raw = Raw(typeId: U16, body: Bytes)

  function WireLength(raw: Raw): (n: nat)
    ensures n >= 4 && n % 4 == 0
  {
    RoundUp4(4 + |raw.body|)
  }

  const READ_MINIMUM := 4

  function ReadRaw(data: Bytes, ver: Version): (r: Result<Raw>)
    ensures r.Ok? ==> |data| >= WireLength(r.value) && |r.value.body| <= MAX_BODY
  {
    if |data| < 4 then Err(IncorrectLength)
    else
      var length := FromU16(data[2], data[3]);
      if length < READ_MINIMUM then Err(IncorrectLength)
      else if ver == V4 && length % 4 != 0 then Err(IncorrectLength)
      else if RoundUp4(length) > |data| then Err(IncorrectLength)
      else Ok(Raw(FromU16(data[0], data[1]), data[4..length]))
  }

  predicate AllZero(b: Bytes) {
    forall i :: 0 <= i < |b| ==> b[i] == 0
  }

  predicate IsAscii(b: Bytes) {
    forall i :: 0 <= i < |b| ==> b[i] < 128
  }

  function Decode(raw: Raw, ver: Version): (r: Result<ExtField>)
    requires |raw.body| <= MAX_BODY
  {
    var b := raw.body;
    if raw.typeId == UNIQUE_IDENTIFIER then Ok(UniqueIdentifier(b))
    else if raw.typeId == NTS_COOKIE then Ok(NtsCookie(b))
    else if raw.typeId == NTS_COOKIE_PLACEHOLDER then
      if AllZero(b) then Ok(NtsCookiePlaceholder(|b|)) else Err(MalformedCookiePlaceholder)
    else if raw.typeId == DRAFT_IDENTIFICATION && ver == V5 then
      if IsAscii(b) then Ok(DraftIdentification(b)) else Err(InvalidDraftIdentification)
    else if raw.typeId == REFERENCE_ID_REQUEST && ver == V5 then
      if |b| < 2 then Err(IncorrectLength) else Ok(ReferenceIdRequest(|b|, FromU16(b[0], b[1])))
    else if raw.typeId == REFERENCE_ID_RESPONSE && ver == V5 then Ok(ReferenceIdResponse(b))
    else Ok(Unknown(raw.typeId, b))
  }

  /* ---- One field, there and back ---- */

  /** The length declared is that of the body, and its sixteen bits survive the rounding of version 4, or fill
      whole words where it is not rounded. */
  predicate LengthFits(f: ExtField, minimum: U16, ver: Version)
    requires Encodable(f)
  {
    && Declared(f) == |Body(f)|
    && (ver == V5 ||
        if IsReferenceId(f) then |Body(f)| % 4 == 0 else Max(|Body(f)| + 4, minimum) <= 0xFFFC)
  }

  /** The body a reader sees: the one written, with the zeros that the length field counts. */
  function PaddedBody(f: ExtField, minimum: U16, ver: Version): (b: Bytes)
    requires Encodable(f) && LengthFits(f, minimum, ver)
    ensures |b| <= MAX_BODY
  {
    var n, m := |Body(f)|, MinimumFor(f, minimum);
    Body(f) + Zeros(FramedLength(n, m, FramedAs(f, ver)) - 4 - n)
  }

  function Reread(f: ExtField, minimum: U16, ver: Version): (r: Result<ExtField>)
    requires Encodable(f) && LengthFits(f, minimum, ver)
  {
    Decode(Raw(TypeId(f), PaddedBody(f, minimum, ver)), ver)
  }

  /** The length field, rounded up, is what the field takes, unless it wraps. */
  lemma FramedAligned(n: nat, m: U16, ver: Version)
    requires n <= MAX_BODY && (ver == V5 || Max(n + 4, m) <= 0xFFFC)
    ensures var length := FramedLength(n, m, ver);
            && length >= n + 4 && RoundUp4(length) == 4 + n + PadLength(n, m) && (ver == V4 ==> length % 4 == 0)
            && PadLength(n, m) == RoundUp4(Max(n + 4, m)) - n - 4
            && (ver == V5 && m == 0 ==> length == n + 4)
  {
  }

  lemma ReadBack(f: ExtField, minimum: U16, ver: Version, rest: Bytes)
    requires Encodable(f) && LengthFits(f, minimum, ver)
    ensures var raw := Raw(TypeId(f), PaddedBody(f, minimum, ver));
            && ReadRaw(Encode(f, minimum, ver) + rest, ver) == Ok(raw)
            && WireLength(raw) == |Encode(f, minimum, ver)|
  {
    hide Framing, ReadRaw, Body, TypeId, RoundUp4, FramedLength, PadLength, Declared;
    var n, m := |Body(f)|, MinimumFor(f, minimum);
    var length := FramedLength(n, m, FramedAs(f, ver));
    FramedAligned(n, m, FramedAs(f, ver));
    FramedRead(TypeId(f), length, Body(f), Zeros(PadLength(n, m)), rest, ver);
    assert (Body(f) + Zeros(PadLength(n, m)))[..length - 4] == PaddedBody(f, minimum, ver);
  }

  /** Reading a header, a body and padding that agree in length. */
  lemma FramedRead(typeId: U16, length: U16, body: Bytes, pad: Bytes, rest: Bytes, ver: Version)
    requires 4 <= length && RoundUp4(length) == 4 + |body| + |pad|
    requires ver == V4 ==> length % 4 == 0
    ensures ReadRaw(Framing(typeId, length) + body + pad + rest, ver) ==
            Ok(Raw(typeId, (body + pad)[..length - 4]))
  {
    var data := Framing(typeId, length) + body + pad + rest;
    assert data == Framing(typeId, length) + (body + pad) + rest;
    assert data[..4] == Framing(typeId, length);
    assert data[0] == ToU16(typeId)[0] && data[1] == ToU16(typeId)[1];
    assert data[2] == ToU16(length)[0] && data[3] == ToU16(length)[1];
    assert data[4..length] == (body + pad)[..length - 4];
  }

  /** A field is read as one field, all of it, exactly when its length fits. */
  lemma ReadBackIffFits(f: ExtField, minimum: U16, ver: Version, rest: Bytes)
    requires Encodable(f)
    ensures var e := Encode(f, minimum, ver);
            var r := ReadRaw(e + rest, ver);
            r.Ok? && WireLength(r.value) == |e| <==> LengthFits(f, minimum, ver)
  {
    hide Framing, ReadRaw, ToU16, Body, TypeId, Encode;
    if LengthFits(f, minimum, ver) {
      ReadBack(f, minimum, ver, rest);
    } else {
      Misframed(f, minimum, ver, rest);
    }
  }

  /** Otherwise the length field of a version 4 packet is zero or not in whole words, and the reader refuses it;
      or it leaves out the offset of a request without payload, which is then read as the next field. */
  lemma Misframed(f: ExtField, minimum: U16, ver: Version, rest: Bytes)
    requires Encodable(f) && !LengthFits(f, minimum, ver)
    ensures var r := ReadRaw(Encode(f, minimum, ver) + rest, ver);
            if f.ReferenceIdRequest? then r == Ok(Raw(REFERENCE_ID_REQUEST, [])) && |Encode(f, minimum, ver)| == 8 else r.Err?
  {
    hide Framing, ReadRaw, Body, TypeId, Declared, RoundUp4, FramedLength, PadLength;
    if f.ReferenceIdRequest? {
      hide Encode;
      OnlyEmptyRequest(f, minimum, ver);
      EmptyRequest(f.offset, minimum, ver, rest);
    } else {
      assert Declared(f) == |Body(f)| by { DeclaredIsBody(f); }
      var n, m := |Body(f)|, MinimumFor(f, minimum);
      var length, behind := FramedLength(n, m, FramedAs(f, ver)), Body(f) + Zeros(PadLength(n, m)) + rest;
      assert Encode(f, minimum, ver) + rest == Framing(TypeId(f), length) + behind;
      RefusedFraming(n, m, FramedAs(f, ver));
      RefusedLength(TypeId(f), length, behind);
    }
  }

  lemma RefusedFraming(n: nat, m: U16, ver: Version)
    requires n <= MAX_BODY && if ver == V5 then m == 0 && n % 4 != 0 else Max(n + 4, m) > 0xFFFC
    ensures var length := FramedLength(n, m, ver); length < READ_MINIMUM || length % 4 != 0
  {
  }

  lemma DeclaredIsBody(f: ExtField)
    requires Writable(f) && !f.ReferenceIdRequest?
    ensures Declared(f) == |Body(f)|
  {
  }

  lemma OnlyEmptyRequest(f: ExtField, minimum: U16, ver: Version)
    requires f.ReferenceIdRequest? && Encodable(f) && !LengthFits(f, minimum, ver)
    ensures f.payloadLen == 0
  {
  }

  /** A reference id request without payload takes eight bytes and declares four. */
  lemma EmptyRequest(offset: U16, minimum: U16, ver: Version, rest: Bytes)
    ensures var f := ReferenceIdRequest(0, offset);
            && Encodable(f) && |Encode(f, minimum, ver)| == 8
            && ReadRaw(Encode(f, minimum, ver) + rest, ver) == Ok(Raw(REFERENCE_ID_REQUEST, []))
  {
    hide Framing, ReadRaw;
    var f := ReferenceIdRequest(0, offset);
    var behind := Body(f) + Zeros(PadLength(4, 0)) + rest;
    assert Encode(f, minimum, ver) + rest == Framing(REFERENCE_ID_REQUEST, 4) + behind;
    EmptyRead(REFERENCE_ID_REQUEST, behind, ver);
  }

  lemma EmptyRead(typeId: U16, behind: Bytes, ver: Version)
    ensures ReadRaw(Framing(typeId, 4) + behind, ver) == Ok(Raw(typeId, []))
  {
    FramedRead(typeId, 4, [], [], behind, ver);
    assert Framing(typeId, 4) + [] + [] + behind == Framing(typeId, 4) + behind;
  }

  /** A version 4 field of 65533 bytes, whose length wraps to zero. */
  lemma LongFieldUnreadable(rest: Bytes)
    ensures var f := UniqueIdentifier(Zeros(65529));
            Encodable(f) && ReadRaw(Encode(f, 0, V4) + rest, V4).Err?
  {
    hide Encode, ReadRaw;
    Misframed(UniqueIdentifier(Zeros(65529)), 0, V4, rest);
  }

  lemma RefusedLength(typeId: U16, length: U16, rest: Bytes)
    requires length < READ_MINIMUM || length % 4 != 0
    ensures !ReadRaw(Framing(typeId, length) + rest, V4).Ok?
  {
    hide ToU16;
    var data := Framing(typeId, length) + rest;
    assert data[2] == ToU16(length)[0] && data[3] == ToU16(length)[1];
  }

  /* ---- What comes back ---- */

  /** The bytes, and perhaps zeros behind them. */
  predicate PaddedWithZeros(a: Bytes, b: Bytes) {
    |a| <= |b| && b[..|a|] == a && AllZero(b[|a|..])
  }

  /** The same field, but for zeros at its end. */
  predicate SameField(f: ExtField, g: ExtField) {
    match f
    case UniqueIdentifier(d) => g.UniqueIdentifier? && PaddedWithZeros(d, g.data)
    case NtsCookie(d) => g.NtsCookie? && PaddedWithZeros(d, g.data)
    case NtsCookiePlaceholder(n) => g.NtsCookiePlaceholder? && n <= g.cookieLength
    case DraftIdentification(t) => g.DraftIdentification? && PaddedWithZeros(t, g.text)
    case Unknown(t, d) => g.Unknown? && g.typeId == t && PaddedWithZeros(d, g.data)
    case _ => g == f
  }

  /** A type number that the version gives a meaning to. */
  predicate KnownNumber(t: U16, ver: Version) {
    || t == UNIQUE_IDENTIFIER || t == NTS_COOKIE || t == NTS_COOKIE_PLACEHOLDER
    || (ver == V5 && (t == DRAFT_IDENTIFICATION || t == REFERENCE_ID_REQUEST || t == REFERENCE_ID_RESPONSE))
  }

  /** The fields that have a kind of their own in the version: not padding, and nothing under a wrong number. */
  predicate Kept(f: ExtField, ver: Version) {
    match f
    case UniqueIdentifier(_) => true
    case NtsCookie(_) => true
    case NtsCookiePlaceholder(_) => true
    case DraftIdentification(t) => ver == V5 && IsAscii(t)
    case ReferenceIdRequest(_, _) => ver == V5
    case ReferenceIdResponse(_) => ver == V5
    case Unknown(t, _) => !KnownNumber(t, ver)
    case _ => false
  }

  /** A field is decoded as itself, but for zeros at its end, exactly when it is of such a kind. */
  lemma RereadIsSelf(f: ExtField, minimum: U16, ver: Version)
    requires Encodable(f) && LengthFits(f, minimum, ver)
    ensures Kept(f, ver) <==> Reread(f, minimum, ver).Ok? && SameField(f, Reread(f, minimum, ver).value)
    ensures Kept(f, ver) && PaddedBody(f, minimum, ver) == Body(f) ==> Reread(f, minimum, ver) == Ok(f)
  {
    hide Body, PaddedBody, Decode, SameField, Kept, Declared;
    BodyPadded(f, minimum, ver);
    if IsReferenceId(f) {
      NoPadding(f, minimum, ver);
    }
    var pad := |PaddedBody(f, minimum, ver)| - |Body(f)|;
    DecodedSelf(f, pad, ver);
    if PaddedBody(f, minimum, ver) == Body(f) {
      assert pad == 0;
    }
  }

  /** The same of a body and zeros behind it. */
  lemma DecodedSelf(f: ExtField, pad: nat, ver: Version)
    requires Encodable(f) && Declared(f) == |Body(f)| && |Body(f)| + pad <= MAX_BODY && (IsReferenceId(f) ==> pad == 0)
    ensures var r := Decode(Raw(TypeId(f), Body(f) + Zeros(pad)), ver);
            && (Kept(f, ver) <==> r.Ok? && SameField(f, r.value))
            && (Kept(f, ver) && pad == 0 ==> r == Ok(f))
  {
    var b := Body(f);
    PadIsZeros(b, pad);
    assert b + Zeros(0) == b;
    match f
    case NtsCookiePlaceholder(n) => ZerosAdd(n, pad);
    case DraftIdentification(t) => AsciiPadded(t, pad);
    case ReferenceIdRequest(n, offset) => assert b[0] == ToU16(offset)[0] && b[1] == ToU16(offset)[1];
    case _ =>
  }

  lemma BodyPadded(f: ExtField, minimum: U16, ver: Version)
    requires Encodable(f) && LengthFits(f, minimum, ver)
    ensures |PaddedBody(f, minimum, ver)| >= |Body(f)|
    ensures PaddedBody(f, minimum, ver) == Body(f) + Zeros(|PaddedBody(f, minimum, ver)| - |Body(f)|)
  {
    hide Body, Declared, FramedLength;
  }

  lemma PadIsZeros(a: Bytes, pad: nat)
    ensures PaddedWithZeros(a, a + Zeros(pad))
  {
    assert (a + Zeros(pad))[|a|..] == Zeros(pad);
  }

  lemma AsciiPadded(t: Bytes, pad: nat)
    ensures IsAscii(t + Zeros(pad)) <==> IsAscii(t)
  {
    assert forall i :: 0 <= i < |t| ==> (t + Zeros(pad))[i] == t[i];
  }

  lemma NoPadding(f: ExtField, minimum: U16, ver: Version)
    requires Encodable(f) && LengthFits(f, minimum, ver) && 4 + |Body(f)| >= MinimumFor(f, minimum)
    requires FramedAs(f, ver) == V4 ==> |Body(f)| % 4 == 0
    ensures PaddedBody(f, minimum, ver) == Body(f)
  {
    hide Body, Declared;
    assert Body(f) + Zeros(0) == Body(f);
  }
}
