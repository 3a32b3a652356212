/**
 The records of NTS key establishment (section 4 of RFC 8915). Protocol, algorithm, error and
 warning numbers are kept as the sixteen-bit values that they are on the wire; text is kept as its
 bytes, and `text` says which bytes are valid text.
 */
module NtsRecords {
  import opened Bytes

  type Text = Bytes -> bool

  datatype Record =
    | EndOfMessage
    | NextProtocol(protocols: seq<U16>)
    | ErrorRecord(code: U16)
    | WarningRecord(code: U16)
    | AeadAlgorithm(algorithms: seq<U16>)
    | NewCookie(cookie: Bytes)
    | Server(name: Bytes)
    | Port(port: U16)
    | KeepAlive
    | SupportedNextProtocolList(supportedProtocols: seq<U16>)
    | SupportedAlgorithmList(descriptions: seq<U16>)
    | FixedKeyRequest(c2s: Bytes, s2c: Bytes)
    | NtpServerDeny(denied: Bytes)
    | Authentication(key: Bytes)
    | Unknown(recordType: U16, critical: bool, data: Bytes)

  const CRITICAL := 0x8000

  /* ---- Lists of sixteen-bit values ---- */

  function WriteList(xs: seq<U16>): (r: Bytes)
    ensures |r| == 2 * |xs|
  {
    if xs == [] then [] else ToU16(xs[0]) + WriteList(xs[1..])
  }

  function ReadList(b: Bytes): (r: Option<seq<U16>>)
    ensures r.Some? ==> |b| == 2 * |r.value|
    decreases |b|
  {
    if b == [] then Some([])
    else if |b| < 2 then None
    else
      match ReadList(b[2..])
      case None => None
      case Some(xs) => Some([FromU16(b[0], b[1])] + xs)
  }

  lemma {:induction false} ListReadBack(xs: seq<U16>)
    ensures ReadList(WriteList(xs)) == Some(xs)
  {
    if xs != [] {
      ListReadBack(xs[1..]);
      assert WriteList(xs)[2..] == WriteList(xs[1..]);
      assert WriteList(xs)[0] == ToU16(xs[0])[0] && WriteList(xs)[1] == ToU16(xs[0])[1];
      assert [xs[0]] + xs[1..] == xs;
    }
  }

  /* ---- Writing ---- */

  function TypeNumber(r: Record): U16 {
    match r
    case EndOfMessage => 0 + CRITICAL
    case NextProtocol(_) => 1 + CRITICAL
    case ErrorRecord(_) => 2 + CRITICAL
    case WarningRecord(_) => 3 + CRITICAL
    case AeadAlgorithm(_) => 4 + CRITICAL
    case NewCookie(_) => 5
    case Server(_) => 6 + CRITICAL
    case Port(_) => 7 + CRITICAL
    case KeepAlive => 8
    case SupportedNextProtocolList(_) => 9 + CRITICAL
    case SupportedAlgorithmList(_) => 10 + CRITICAL
    case FixedKeyRequest(_, _) => 12 + CRITICAL
    case NtpServerDeny(_) => 13
    case Authentication(_) => 14
    case Unknown(t, critical, _) => if critical && t < CRITICAL then t + CRITICAL else t
  }

  function RecordBody(r: Record): Bytes {
    match r
    case EndOfMessage => []
    case KeepAlive => []
    case NextProtocol(xs) => WriteList(xs)
    case ErrorRecord(c) => ToU16(c)
    case WarningRecord(c) => ToU16(c)
    case AeadAlgorithm(xs) => WriteList(xs)
    case NewCookie(b) => b
    case Server(b) => b
    case Port(p) => ToU16(p)
    case SupportedNextProtocolList(xs) => WriteList(xs)
    case SupportedAlgorithmList(xs) => WriteList(xs)
    case FixedKeyRequest(c2s, s2c) => c2s + s2c
    case NtpServerDeny(b) => b
    case Authentication(b) => b
    case Unknown(_, _, b) => b
  }

  /** Writing fails when the body is too long for its length field. */
  function WriteRecord(r: Record): (b: Option<Bytes>)
    ensures b.Some? ==> |b.value| == 4 + |RecordBody(r)|
  {
    if |RecordBody(r)| > 0xFFFF then None
    else Some(ToU16(TypeNumber(r)) + ToU16(|RecordBody(r)|) + RecordBody(r))
  }

  /* ---- Reading ---- */

  /** Numbers that no record has of its own. */
  predicate UnknownNumber(t: U16) {
    t == 11 || t > 14
  }

  function ReadNumber(b: Bytes): Option<U16> {
    if |b| == 2 then Some(FromU16(b[0], b[1])) else None
  }

  function ReadBody(t: U16, critical: bool, b: Bytes, text: Text): (r: Option<Record>)
    requires t < CRITICAL
  {
    if t == 0 then Some(EndOfMessage)
    else if t == 1 then (match ReadList(b) case None => None case Some(xs) => Some(NextProtocol(xs)))
    else if t == 2 then (match ReadNumber(b) case None => None case Some(c) => Some(ErrorRecord(c)))
    else if t == 3 then (match ReadNumber(b) case None => None case Some(c) => Some(WarningRecord(c)))
    else if t == 4 then (match ReadList(b) case None => None case Some(xs) => Some(AeadAlgorithm(xs)))
    else if t == 5 then Some(NewCookie(b))
    else if t == 6 then if text(b) then Some(Server(b)) else None
    else if t == 7 then (match ReadNumber(b) case None => None case Some(p) => Some(Port(p)))
    else if t == 8 then Some(KeepAlive)
    else if t == 9 then (match ReadList(b) case None => None case Some(xs) => Some(SupportedNextProtocolList(xs)))
    else if t == 10 then
      (match ReadList(b)
       case None => None
       case Some(xs) => if |xs| % 2 == 0 then Some(SupportedAlgorithmList(xs)) else None)
    else if t == 12 then
      if |b| % 2 == 0 then Some(FixedKeyRequest(b[..|b| / 2], b[|b| / 2..])) else None
    else if t == 13 then if text(b) then Some(NtpServerDeny(b)) else None
    else if t == 14 then if text(b) then Some(Authentication(b)) else None
    else Some(Unknown(t, critical, b))
  }

  /** A record and the number of bytes it takes; none for anything malformed or cut off. */
  datatype Parsed = Parsed(record: Record, length: nat)

  function ReadRecord(input: Bytes, text: Text): (r: Option<Parsed>)
    ensures r.Some? ==> 4 <= r.value.length <= |input|
  {
    if |input| < 4 then None
    else
      var t, size := FromU16(input[0], input[1]), FromU16(input[2], input[3]);
      if |input| < 4 + size then None
      else
        match ReadBody(t % CRITICAL, t >= CRITICAL, input[4..4 + size], text)
        case None => None
        case Some(rec) => Some(Parsed(rec, 4 + size))
  }

  /* ---- There and back ---- */

  /** A record that reading can produce. */
  predicate Canonical(r: Record, text: Text) {
    && |RecordBody(r)| <= 0xFFFF
    && match r
       case Server(b) => text(b)
       case NtpServerDeny(b) => text(b)
       case Authentication(b) => text(b)
       case SupportedAlgorithmList(xs) => |xs| % 2 == 0
       case FixedKeyRequest(c2s, s2c) => |c2s| == |s2c|
       case Unknown(t, _, _) => UnknownNumber(t) && t < CRITICAL
       case _ => true
  }

  lemma BodyReadBack(r: Record, text: Text)
    requires Canonical(r, text)
    ensures var t := TypeNumber(r); ReadBody(t % CRITICAL, t >= CRITICAL, RecordBody(r), text) == Some(r)
  {
    hide ReadList, WriteList;
    match r
    case NextProtocol(xs) => ListReadBack(xs);
    case AeadAlgorithm(xs) => ListReadBack(xs);
    case SupportedNextProtocolList(xs) => ListReadBack(xs);
    case SupportedAlgorithmList(xs) => ListReadBack(xs);
    case FixedKeyRequest(c2s, s2c) =>
      assert (c2s + s2c)[..|c2s|] == c2s && (c2s + s2c)[|c2s|..] == s2c;
    case _ =>
  }

  /** A record is read back from what is written, whatever follows. */
  lemma RecordReadBack(r: Record, rest: Bytes, text: Text)
    requires Canonical(r, text)
    ensures var w := WriteRecord(r);
            w.Some? && ReadRecord(w.value + rest, text) == Some(Parsed(r, |w.value|))
  {
    hide TypeNumber, RecordBody, ReadBody, ToU16;
    BodyReadBack(r, text);
    Framed(ToU16(TypeNumber(r)), ToU16(|RecordBody(r)|), RecordBody(r), rest);
  }

  lemma Framed(head: Bytes, size: Bytes, body: Bytes, rest: Bytes)
    requires |head| == 2 && |size| == 2
    ensures var w := head + size + body + rest;
            && w[0] == head[0] && w[1] == head[1] && w[2] == size[0] && w[3] == size[1]
            && w[4..4 + |body|] == body
  {
  }

  /** What is read is canonical, and no shorter than what writing it takes. */
  lemma ReadIsCanonical(input: Bytes, text: Text)
    requires ReadRecord(input, text).Some?
    ensures var p := ReadRecord(input, text).value;
            Canonical(p.record, text) && 4 + |RecordBody(p.record)| <= p.length
  {
    hide ReadBody, Canonical, RecordBody;
    var t, size := FromU16(input[0], input[1]), FromU16(input[2], input[3]);
    BodyIsCanonical(t % CRITICAL, t >= CRITICAL, input[4..4 + size], text);
  }

  lemma BodyIsCanonical(t: U16, critical: bool, b: Bytes, text: Text)
    requires t < CRITICAL && |b| <= 0xFFFF && ReadBody(t, critical, b, text).Some?
    ensures var r := ReadBody(t, critical, b, text).value;
            Canonical(r, text) && |RecordBody(r)| <= |b|
  {
    hide ReadList, WriteList, ToU16, FromU16;
    if t == 12 {
      HalvesAreCanonical(b, text);
    } else if t == 10 {
      ListIsCanonical(b, text);
    }
  }

  lemma HalvesAreCanonical(b: Bytes, text: Text)
    requires |b| <= 0xFFFF && |b| % 2 == 0
    ensures var r := FixedKeyRequest(b[..|b| / 2], b[|b| / 2..]); Canonical(r, text) && RecordBody(r) == b
  {
  }

  lemma ListIsCanonical(b: Bytes, text: Text)
    requires |b| <= 0xFFFF && ReadList(b).Some? && |ReadList(b).value| % 2 == 0
    ensures var r := SupportedAlgorithmList(ReadList(b).value); Canonical(r, text) && |RecordBody(r)| == |b|
  {
    hide ReadList, WriteList;
  }

  /** Every record that is read is read again, the same, from its own writing. */
  lemma ReadWriteRead(input: Bytes, rest: Bytes, text: Text)
    requires ReadRecord(input, text).Some?
    ensures var p := ReadRecord(input, text).value;
            var w := WriteRecord(p.record);
            && w.Some? && |w.value| <= p.length
            && ReadRecord(w.value + rest, text) == Some(Parsed(p.record, |w.value|))
  {
    ReadIsCanonical(input, text);
    RecordReadBack(ReadRecord(input, text).value.record, rest, text);
  }

  /* ---- On the wire ---- */

  /** The first two bytes of a record: whether a peer that does not know it must refuse, and its number. */
  function Head(r: Record): Bytes {
    match r
    case EndOfMessage => [0x80, 0]
    case NextProtocol(_) => [0x80, 1]
    case ErrorRecord(_) => [0x80, 2]
    case WarningRecord(_) => [0x80, 3]
    case AeadAlgorithm(_) => [0x80, 4]
    case NewCookie(_) => [0, 5]
    case Server(_) => [0x80, 6]
    case Port(_) => [0x80, 7]
    case KeepAlive => [0, 8]
    case SupportedNextProtocolList(_) => [0x80, 9]
    case SupportedAlgorithmList(_) => [0x80, 10]
    case FixedKeyRequest(_, _) => [0x80, 12]
    case NtpServerDeny(_) => [0, 13]
    case Authentication(_) => [0, 14]
    case Unknown(t, critical, _) => ToU16(if critical && t < CRITICAL then t + CRITICAL else t)
  }

  lemma RecordLayout(r: Record)
    requires WriteRecord(r).Some?
    ensures var w := WriteRecord(r).value; w[..2] == Head(r) && FromU16(w[2], w[3]) == |w| - 4
  {
    hide RecordBody, WriteList;
    var t, size := ToU16(TypeNumber(r)), ToU16(|RecordBody(r)|);
    var w := WriteRecord(r).value;
    assert w[..2] == t && w[2] == size[0] && w[3] == size[1];
    assert t == [t[0], t[1]];
  }
}
