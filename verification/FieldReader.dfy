/** Reading the extension fields of a packet step by step, and the MAC behind them. */
module FieldReader {
  import opened Bytes
  import opened ExtensionFields
  import opened EncryptedFields

  /** What the streamer hands out: a field with its offset, or the error that ends the stream. */
  datatype Item = Field(offset: nat, raw: Raw) | Failed(error: Error)

  /** The item at `offset`, if the stream does not end there. */
  function ItemAt(buffer: Bytes, offset: nat, cutoff: nat, ver: Version): (r: Option<Item>)
    requires offset <= |buffer|
    ensures r.Some? && r.value.Field? ==> offset + WireLength(r.value.raw) <= |buffer|
  {
    if |buffer| - offset <= cutoff then None
    else
      match ReadRaw(buffer[offset..], ver)
      case Err(e) => Some(Failed(e))
      case Ok(raw) => Some(Field(offset, raw))
  }

  /** All items of the stream from `offset` on. */
  function Stream(buffer: Bytes, offset: nat, cutoff: nat, ver: Version): (r: seq<Item>)
    requires offset <= |buffer|
    decreases |buffer| - offset
  {
    match ItemAt(buffer, offset, cutoff, ver)
    case None => []
    case Some(Failed(e)) => [Failed(e)]
    case Some(Field(_, raw)) => [Field(offset, raw)] + Stream(buffer, offset + WireLength(raw), cutoff, ver)
  }

  /** The bytes at the item's offset are its type, its length and its body. */
  predicate FieldAt(buffer: Bytes, item: Item)
    requires item.Field?
  {
    var n := 4 + |item.raw.body|;
    && item.offset + WireLength(item.raw) <= |buffer|
    && n <= 0xFFFF
    && buffer[item.offset..item.offset + 4] == Framing(item.raw.typeId, n)
    && buffer[item.offset + 4..item.offset + n] == item.raw.body
  }

  /** On any bytes, each field of the stream spells out the bytes it covers, and an error can only
      come last. */
  lemma {:induction false} StreamFields(buffer: Bytes, offset: nat, cutoff: nat, ver: Version, i: nat)
    requires offset <= |buffer| && i < |Stream(buffer, offset, cutoff, ver)|
    ensures var items := Stream(buffer, offset, cutoff, ver);
            if items[i].Failed? then i == |items| - 1 else FieldAt(buffer, items[i])
    decreases |buffer| - offset
  {
    hide FieldAt, ReadRaw;
    match ReadRaw(buffer[offset..], ver)
    case Err(_) =>
    case Ok(raw) =>
      if i == 0 {
        FieldAtRead(buffer, offset, raw, ver);
      } else {
        StreamFields(buffer, offset + WireLength(raw), cutoff, ver, i - 1);
      }
  }

  /** The first `n` items are fields. */
  predicate FieldsTo(items: seq<Item>, n: nat) {
    n <= |items| && forall i :: 0 <= i < n ==> items[i].Field?
  }

  /** The end of the first `n` fields of a stream. */
  function EndOf(items: seq<Item>, offset: nat, n: nat): nat
    requires FieldsTo(items, n)
  {
    if n == 0 then offset else items[n - 1].offset + WireLength(items[n - 1].raw)
  }

  lemma FieldsBehindFirst(items: seq<Item>, rest: seq<Item>, n: nat)
    requires 0 < n && FieldsTo(items, n) && items == [items[0]] + rest
    ensures FieldsTo(rest, n - 1)
  {
    assert forall i :: 0 <= i < |rest| ==> rest[i] == items[i + 1];
  }

  lemma EndBehindFirst(items: seq<Item>, rest: seq<Item>, offset: nat, n: nat)
    requires 0 < n && FieldsTo(items, n) && FieldsTo(rest, n - 1) && items == [items[0]] + rest
    requires items[0].offset == offset
    ensures EndOf(items, offset, n) == EndOf(rest, offset + WireLength(items[0].raw), n - 1)
    ensures n < |items| ==> items[n] == rest[n - 1]
  {
    hide WireLength;
  }

  /** The first item and what follows it. */
  lemma StreamFirst(buffer: Bytes, offset: nat, cutoff: nat, ver: Version)
    requires offset <= |buffer|
    ensures var items := Stream(buffer, offset, cutoff, ver);
            && (items == [] ==> |buffer| - cutoff <= offset)
            && (items != [] ==> |buffer| - offset > cutoff && (items[0].Field? <==> ReadRaw(buffer[offset..], ver).Ok?))
            && (items != [] && items[0].Field? ==>
                  && items[0].offset == offset && offset + WireLength(items[0].raw) <= |buffer|
                  && ReadRaw(buffer[offset..], ver) == Ok(items[0].raw)
                  && items == [items[0]] + Stream(buffer, offset + WireLength(items[0].raw), cutoff, ver))
  {
    hide WireLength, ReadRaw;
  }

  /** Behind the first `n` fields the stream goes on. */
  lemma {:induction false} StreamFrom(buffer: Bytes, offset: nat, cutoff: nat, ver: Version, n: nat)
    requires offset <= |buffer| && FieldsTo(Stream(buffer, offset, cutoff, ver), n)
    ensures var items := Stream(buffer, offset, cutoff, ver);
            EndOf(items, offset, n) <= |buffer| && Stream(buffer, EndOf(items, offset, n), cutoff, ver) == items[n..]
    decreases n
  {
    hide WireLength, Stream;
    var items := Stream(buffer, offset, cutoff, ver);
    if n > 0 {
      StreamFirst(buffer, offset, cutoff, ver);
      var next := offset + WireLength(items[0].raw);
      var rest := Stream(buffer, next, cutoff, ver);
      hide EndOf;
      FieldsBehindFirst(items, rest, n);
      StreamFrom(buffer, next, cutoff, ver, n - 1);
      EndBehindFirst(items, rest, offset, n);
      assert rest[n - 1..] == items[n..];
    }
  }

  /** The fields follow each other from the start on, without gap or overlap, and when no error
      comes they leave no more than the room for a MAC. */
  lemma {:induction false} StreamTiles(buffer: Bytes, offset: nat, cutoff: nat, ver: Version, n: nat)
    requires offset <= |buffer| && FieldsTo(Stream(buffer, offset, cutoff, ver), n)
    ensures var items := Stream(buffer, offset, cutoff, ver);
            && (n < |items| && items[n].Field? ==> items[n].offset == EndOf(items, offset, n))
            && (n == |items| ==> |buffer| - cutoff <= EndOf(items, offset, n) <= |buffer|)
    decreases |buffer| - offset
  {
    hide WireLength, Stream;
    var items := Stream(buffer, offset, cutoff, ver);
    StreamFirst(buffer, offset, cutoff, ver);
    if n > 0 {
      var raw := items[0].raw;
      var rest := Stream(buffer, offset + WireLength(raw), cutoff, ver);
      hide EndOf;
      FieldsBehindFirst(items, rest, n);
      StreamTiles(buffer, offset + WireLength(raw), cutoff, ver, n - 1);
      EndBehindFirst(items, rest, offset, n);
    }
  }

  lemma FieldAtRead(buffer: Bytes, offset: nat, raw: Raw, ver: Version)
    requires offset <= |buffer| && ReadRaw(buffer[offset..], ver) == Ok(raw)
    ensures FieldAt(buffer, Field(offset, raw))
  {
    var data := buffer[offset..];
    var n := FromU16(data[2], data[3]);
    assert raw.body == data[4..n] == buffer[offset + 4..offset + n];
    SpelledOut(data[0], data[1]);
    SpelledOut(data[2], data[3]);
    assert buffer[offset..offset + 4] == [data[0], data[1]] + [data[2], data[3]];
  }

  lemma SpelledOut(hi: Byte, lo: Byte)
    ensures ToU16(FromU16(hi, lo)) == [hi, lo]
  {
  }

  class ExtensionFieldStreamer {
    const buffer: Bytes
    const cutoff: nat
    const version: Version
    var offset: nat

    ghost predicate Valid()
      reads this
    {
      offset <= |buffer|
    }

    ghost function Rest(): seq<Item>
      requires Valid()
      reads this
    {
      Stream(buffer, offset, cutoff, version)
    }

    constructor (buffer: Bytes, cutoff: nat, version: Version)
      ensures Valid() && this.buffer == buffer && this.cutoff == cutoff && this.version == version
      ensures offset == 0
    {
      this.buffer, this.cutoff, this.version, this.offset := buffer, cutoff, version, 0;
    }

    /** Takes the next item off the stream. */
    method Next() returns (item: Option<Item>)
      requires Valid()
      modifies this
      ensures Valid()
      ensures old(Rest()) == match item { case None => [] case Some(i) => [i] + Rest() }
      ensures item == ItemAt(buffer, old(offset), cutoff, version)
      ensures item.Some? && item.value.Field? ==> offset == old(offset) + WireLength(item.value.raw)
    {
      if |buffer| - offset <= cutoff {
        return None;
      }
      match ReadRaw(buffer[offset..], version) {
        case Ok(raw) =>
          item := Some(Field(offset, raw));
          offset := offset + WireLength(raw);
        case Err(e) =>
          offset := |buffer|;
          item := Some(Failed(e));
      }
    }
  }

  /** Reads all extension fields behind a header, in the order of the packet. */
  method DeserializeFields<C>(data: Bytes, headerSize: nat, provider: Provider<C>, ver: Version)
    returns (r: Result<Deserialized<C>>)
    requires headerSize <= |data|
    ensures r == Deserialize(data, headerSize, provider, ver)
  {
    hide Step, WireLength, Stream, ReadRaw;
    var st: State<C> := Initial();
    var size := 0;
    var streamer := new ExtensionFieldStreamer(data[headerSize..], Cutoff(ver), ver);
    while true
      invariant streamer.Valid() && streamer.buffer == data[headerSize..]
      invariant streamer.cutoff == Cutoff(ver) && streamer.version == ver
      invariant streamer.offset == size && headerSize + size <= |data|
      invariant ReadFrom(data, headerSize + size, st, provider, ver) == Deserialize(data, headerSize, provider, ver)
      decreases |data| - headerSize - size
    {
      assert data[headerSize..][size..] == data[headerSize + size..];
      var item := streamer.Next();
      match item {
        case None =>
          return Ok(Deserialized(st, data[headerSize + size..]));
        case Some(Failed(e)) =>
          return Err(e);
        case Some(Field(offset, raw)) =>
          match Step(st, raw, data[..headerSize + offset], provider, ver) {
            case Err(e) => return Err(e);
            case Ok(st') => st := st';
          }
          size := offset + WireLength(raw);
      }
    }
  }

  /* ---- The MAC behind the fields ---- */

  datatype Mac = Mac(keyid: U32, mac: Bytes)

  const MAC_MAXIMUM_SIZE := 24

  function SerializeMac(m: Mac): (r: Bytes) {
    ToU32(m.keyid) + m.mac
  }

  function DeserializeMac(data: Bytes): (r: Result<Mac>) {
    if |data| < 4 || |data| > MAC_MAXIMUM_SIZE then Err(IncorrectLength)
    else Ok(Mac(FromU32(data[..4]), data[4..]))
  }

  datatype Packet<C> = Packet(fields: State<C>, mac: Option<Mac>)

  /** The part of a version 4 or 5 packet behind its header. */
  function ReadTail<C>(data: Bytes, headerSize: nat, provider: Provider<C>, ver: Version): (r: Result<Packet<C>>)
    requires headerSize <= |data|
  {
    match Deserialize(data, headerSize, provider, ver)
    case Err(e) => Err(e)
    case Ok(d) =>
      if d.remaining == [] then Ok(Packet(d.state, None))
      else
        match DeserializeMac(d.remaining)
        case Err(e) => Err(e)
        case Ok(m) => Ok(Packet(d.state, Some(m)))
  }

  function MacBytes(mac: Option<Mac>): Bytes {
    match mac
    case None => []
    case Some(m) => SerializeMac(m)
  }

  /** A version 4 packet with any untrusted fields and any MAC that the format allows is read back
      as it was written. */
  lemma MacRoundTrip<C>(header: Bytes, fs: seq<ExtField>, mac: Option<Mac>, provider: Provider<C>)
    requires UntrustedReadable(fs, V4)
    requires mac.Some? ==> |mac.value.mac| <= MAC_MAXIMUM_SIZE - 4
    ensures ReadTail(header + EncodeAll(UntrustedSizes(fs, V4), V4) + MacBytes(mac), |header|, provider, V4) ==
            Ok(Packet(State(EfData([], [], RereadAll(UntrustedSizes(fs, V4), V4)), true, None), mac))
  {
    hide Deserialize, EncodeAll, RereadAll;
    PlainRoundTrip(header, fs, MacBytes(mac), provider, V4);
    if mac.Some? {
      var b := SerializeMac(mac.value);
      assert b[..4] == ToU32(mac.value.keyid) && b[4..] == mac.value.mac;
    }
  }
}
