/**
 What a packet is read as, told from its fields as they follow each other: which of them open, which are then
 vouched for, and when the packet is malformed or cannot be decrypted.
 */
module PacketReadings {
  import opened Bytes
  import opened Protocol
  import opened Headers
  import opened ExtensionFields
  import opened EncryptedFields
  import F = FieldReader
  import opened KeySets
  import opened Packets

  /** A packet with the fields behind its header, as a server with these keys sees it. */
  datatype View = View(data: Bytes, items: seq<F.Item>, ks: KeySet, siv: Siv, ver: Version)

  function ViewOf(data: Bytes, ks: KeySet, siv: Siv, ver: Version): View
    requires |data| >= HEADER
  {
    View(data, F.Stream(data, HEADER, Cutoff(ver), ver), ks, siv, ver)
  }

  /** The first `n` items are fields, at places within the packet. */
  predicate Placed(v: View, n: nat) {
    F.FieldsTo(v.items, n) && forall i :: 0 <= i < n ==> v.items[i].offset <= |v.data| && |v.items[i].raw.body| <= MAX_BODY
  }

  predicate IsSealed(v: View, i: nat)
    requires i < |v.items| && v.items[i].Field?
  {
    v.items[i].raw.typeId == NTS_ENCRYPTED_FIELD
  }

  /** A key is selected by a cookie that is alone and that this server can decode. */
  function KeyFrom(cs: seq<Bytes>, ks: KeySet, siv: Siv): Option<Cookie> {
    if |cs| == 1 then DecodeCookie(ks, siv, cs[0]) else None
  }

  /** What is inside field `i`, if it is encrypted and opens under the key that these cookies select, with the packet
      in front of it as associated data. */
  function TextWith(v: View, i: nat, cs: seq<Bytes>): Option<Bytes>
    requires Placed(v, i + 1)
  {
    var key, s := KeyFrom(cs, v.ks, v.siv), ReadSealed(v.items[i].raw.body);
    if IsSealed(v, i) && key.Some? && s.Ok?
    then v.siv(key.value.c2s).open(s.value.nonce, v.data[..v.items[i].offset], s.value.sealed)
    else None
  }

  /** The cookies in front of field `n` that nothing has vouched for: those behind the last field that opened. */
  function Waiting(v: View, n: nat): seq<Bytes>
    requires Placed(v, n)
  {
    if n == 0 then []
    else
      var raw, cs := v.items[n - 1].raw, Waiting(v, n - 1);
      if raw.typeId == NTS_COOKIE then cs + [raw.body]
      else if TextWith(v, n - 1, cs).Some? then []
      else cs
  }

  function KeyOf(v: View, i: nat): Option<Cookie>
    requires Placed(v, i)
  {
    KeyFrom(Waiting(v, i), v.ks, v.siv)
  }

  function TextOf(v: View, i: nat): Option<Bytes>
    requires Placed(v, i + 1)
  {
    TextWith(v, i, Waiting(v, i))
  }

  /** It opens under the key that is selected by the cookies waiting in front of it. */
  predicate Opens(v: View, i: nat)
    requires Placed(v, i + 1)
  {
    TextOf(v, i).Some?
  }

  /** Placeholders are zeros, draft identifications are text, and reference id requests have an offset. */
  predicate Decodable(raw: Raw, ver: Version) {
    && (raw.typeId == NTS_COOKIE_PLACEHOLDER ==> forall i :: 0 <= i < |raw.body| ==> raw.body[i] == 0)
    && (ver == V5 && raw.typeId == DRAFT_IDENTIFICATION ==> forall i :: 0 <= i < |raw.body| ==> raw.body[i] < 128)
    && (ver == V5 && raw.typeId == REFERENCE_ID_REQUEST ==> |raw.body| >= 2)
  }

  lemma DecodableIff(raw: Raw, ver: Version)
    requires |raw.body| <= MAX_BODY
    ensures Decode(raw, ver).Ok? <==> Decodable(raw, ver)
  {
  }

  /** Fields one behind the other, all of them decodable and none encrypted. */
  predicate TextOk(text: Bytes, ver: Version)
    decreases |text|
  {
    text != [] ==>
      && ReadRaw(text, ver).Ok?
      && var raw := ReadRaw(text, ver).value;
         raw.typeId != NTS_ENCRYPTED_FIELD && Decodable(raw, ver) && TextOk(text[WireLength(raw)..], ver)
  }

  lemma {:induction false} TextOkIff(text: Bytes, ver: Version)
    ensures DecodeAll(text, ver).Ok? <==> TextOk(text, ver)
    decreases |text|
  {
    hide ReadRaw, WireLength, Decode, Decodable;
    if text != [] && ReadRaw(text, ver).Ok? {
      var raw := ReadRaw(text, ver).value;
      DecodableIff(raw, ver);
      TextOkIff(text[WireLength(raw)..], ver);
    }
  }

  predicate FieldOk(v: View, i: nat)
    requires Placed(v, i + 1)
  {
    if IsSealed(v, i) then ReadSealed(v.items[i].raw.body).Ok? && (Opens(v, i) ==> TextOk(TextOf(v, i).value, v.ver))
    else Decodable(v.items[i].raw, v.ver)
  }

  predicate FieldsOk(v: View, n: nat)
    requires Placed(v, n)
  {
    forall i :: 0 <= i < n ==> FieldOk(v, i)
  }

  /* ---- What is read ---- */

  /** The last of the first `n` fields that opens. */
  function LastOpened(v: View, n: nat): (r: Option<nat>)
    requires Placed(v, n)
    ensures r.Some? ==> r.value < n && Opens(v, r.value)
    ensures forall i :: (if r.Some? then r.value + 1 else 0) <= i < n ==> !Opens(v, i)
  {
    if n == 0 then None else if Opens(v, n - 1) then Some(n - 1) else LastOpened(v, n - 1)
  }

  /** What a field that does not open is read as. */
  function NextField(v: View, i: nat): ExtField
    requires Placed(v, i + 1) && FieldOk(v, i) && !Opens(v, i)
  {
    if IsSealed(v, i) then InvalidNtsEncryptedField else DecodableIff(v.items[i].raw, v.ver); Decode(v.items[i].raw, v.ver).value
  }

  /** What one that opens holds. */
  function FieldsIn(v: View, i: nat): seq<ExtField>
    requires Placed(v, i + 1) && FieldOk(v, i) && Opens(v, i)
  {
    TextOkIff(TextOf(v, i).value, v.ver);
    DecodeAll(TextOf(v, i).value, v.ver).value
  }

  /** Fields `a` to `b` outside encryption; one that does not open stands for itself. */
  function Outside(v: View, a: nat, b: nat): seq<ExtField>
    requires a <= b && Placed(v, b) && FieldsOk(v, b)
  {
    if a == b then []
    else
      assert FieldOk(v, b - 1);
      Outside(v, a, b - 1) + if Opens(v, b - 1) then [] else [NextField(v, b - 1)]
  }

  /** The fields inside the encrypted ones. */
  function Inside(v: View, n: nat): seq<ExtField>
    requires Placed(v, n) && FieldsOk(v, n)
  {
    if n == 0 then []
    else
      assert FieldOk(v, n - 1);
      Inside(v, n - 1) + if Opens(v, n - 1) then FieldsIn(v, n - 1) else []
  }

  ghost predicate AllOpen(v: View, n: nat)
    requires Placed(v, n)
  {
    forall i :: 0 <= i < n && IsSealed(v, i) ==> Opens(v, i)
  }

  /** All in front of the last field that opens is authenticated by it, and what follows it is not. */
  function FieldsRead(v: View, n: nat): EfData
    requires Placed(v, n) && FieldsOk(v, n)
  {
    match LastOpened(v, n)
    case None => EfData([], [], Outside(v, 0, n))
    case Some(k) => EfData(Outside(v, 0, k), Inside(v, n), Outside(v, k + 1, n))
  }

  function CookieRead(v: View, n: nat): Option<Cookie>
    requires Placed(v, n)
  {
    match LastOpened(v, n)
    case None => None
    case Some(k) => KeyOf(v, k)
  }

  ghost function StateRead(v: View, n: nat): State<Cookie>
    requires Placed(v, n) && FieldsOk(v, n)
  {
    State(FieldsRead(v, n), AllOpen(v, n), CookieRead(v, n))
  }

  /* ---- One field ---- */

  function CookiesIn(fs: seq<ExtField>): seq<Bytes> {
    if fs == [] then []
    else CookiesIn(fs[..|fs| - 1]) + if fs[|fs| - 1].NtsCookie? then [fs[|fs| - 1].data] else []
  }

  lemma {:induction false} FindIs(fs: seq<ExtField>, ks: KeySet, siv: Siv)
    ensures var key := KeyFrom(CookiesIn(fs), ks, siv);
            && (Find(fs, ks, siv).NoCookie? <==> CookiesIn(fs) == [])
            && (if key.Some? then Find(fs, ks, siv) == One(key.value) else !Find(fs, ks, siv).One?)
  {
    hide DecodeCookie;
    if fs != [] {
      FindIs(fs[..|fs| - 1], ks, siv);
    }
  }

  lemma CookiesAppend(fs: seq<ExtField>, f: ExtField)
    ensures CookiesIn(fs + [f]) == CookiesIn(fs) + if f.NtsCookie? then [f.data] else []
  {
    assert (fs + [f])[..|fs|] == fs;
  }

  /** The cookies that wait are those among the fields that are not vouched for. */
  lemma {:induction false} WaitingIs(v: View, n: nat)
    requires Placed(v, n) && FieldsOk(v, n)
    ensures CookiesIn(FieldsRead(v, n).untrusted) == Waiting(v, n)
  {
    hide FieldOk, FieldsOk, Opens, NextField, FieldsRead, Waiting, CookiesIn, CookieRead;
    if n == 0 {
      NothingRead(v);
    } else {
      assert FieldsOk(v, n - 1) && FieldOk(v, n - 1) by { LessOk(v, n); }
      WaitingIs(v, n - 1);
      WaitingNext(v, n - 1);
      if Opens(v, n - 1) {
        NothingWaits(v, n - 1);
        if v.items[n - 1].raw.typeId == NTS_COOKIE {
          SealedNoCookie(v, n - 1);
        }
      } else {
        KeepIs(v, n - 1);
        CookiesAppend(FieldsRead(v, n - 1).untrusted, NextField(v, n - 1));
        NextCookie(v, n - 1);
      }
    }
  }

  lemma NothingRead(v: View)
    requires Placed(v, 0) && FieldsOk(v, 0)
    ensures FieldsRead(v, 0) == EfData([], [], []) && Waiting(v, 0) == [] && CookieRead(v, 0) == None && CookiesIn([]) == []
  {
  }

  lemma LessOk(v: View, n: nat)
    requires n > 0 && Placed(v, n) && FieldsOk(v, n)
    ensures FieldsOk(v, n - 1) && FieldOk(v, n - 1)
  {
    hide FieldOk;
  }

  lemma WaitingNext(v: View, i: nat)
    requires Placed(v, i + 1)
    ensures var raw := v.items[i].raw;
            Waiting(v, i + 1) == if raw.typeId == NTS_COOKIE then Waiting(v, i) + [raw.body] else if Opens(v, i) then [] else Waiting(v, i)
  {
    hide TextWith;
  }

  lemma NothingWaits(v: View, i: nat)
    requires Placed(v, i + 1) && FieldsOk(v, i + 1)
    ensures Opens(v, i) ==> FieldsRead(v, i + 1).untrusted == [] && CookiesIn([]) == []
  {
    hide FieldOk, FieldsOk, Opens, Inside;
    if Opens(v, i) {
      assert LastOpened(v, i + 1) == Some(i);
      OutsideNone(v, i + 1);
    }
  }

  lemma SealedNoCookie(v: View, i: nat)
    requires Placed(v, i + 1) && v.items[i].raw.typeId == NTS_COOKIE
    ensures !Opens(v, i)
  {
  }

  lemma OutsideNext(v: View, a: nat, i: nat)
    requires a <= i && Placed(v, i + 1) && FieldsOk(v, i + 1) && !Opens(v, i)
    ensures Outside(v, a, i + 1) == Outside(v, a, i) + [NextField(v, i)]
  {
    hide FieldOk, Opens, NextField;
  }

  lemma NextCookie(v: View, i: nat)
    requires Placed(v, i + 1) && FieldOk(v, i) && !Opens(v, i)
    ensures var raw, f := v.items[i].raw, NextField(v, i);
            if raw.typeId == NTS_COOKIE then f == NtsCookie(raw.body) else !f.NtsCookie?
  {
    hide Opens, ReadSealed;
  }

  lemma OpenNext(v: View, i: nat)
    requires Placed(v, i + 1)
    ensures Placed(v, i)
    ensures AllOpen(v, i + 1) <==> AllOpen(v, i) && (IsSealed(v, i) ==> Opens(v, i))
  {
    hide Opens;
  }

  /** One more field: read if it is well-formed, and an error if not. */
  lemma StepIs(v: View, n: nat)
    requires Placed(v, n + 1) && FieldsOk(v, n)
    ensures var r := Step(StateRead(v, n), v.items[n].raw, v.data[..v.items[n].offset], KeyProvider(v.ks, v.siv), v.ver);
            if FieldOk(v, n) then FieldsOk(v, n + 1) && r == Ok(StateRead(v, n + 1)) else r.Err?
  {
    hide Waiting, FieldsOk, AllOpen, Outside, Inside, Decode, DecodeAll, ReadSealed, Find, CookiesIn, LastOpened, TextOk, Decodable;
    var st, raw := StateRead(v, n), v.items[n].raw;
    WaitingIs(v, n);
    FindIs(st.efdata.untrusted, v.ks, v.siv);
    OpenNext(v, n);
    if IsSealed(v, n) {
      if Opens(v, n) {
        TextOkIff(TextOf(v, n).value, v.ver);
        if FieldOk(v, n) {
          assert FieldsOk(v, n + 1) by { MoreOk(v, n); }
          AcceptIs(v, n);
        }
      } else if FieldOk(v, n) {
        assert FieldsOk(v, n + 1) by { MoreOk(v, n); }
        KeepIs(v, n);
      }
    } else {
      DecodableIff(raw, v.ver);
      if FieldOk(v, n) {
        assert FieldsOk(v, n + 1) by { MoreOk(v, n); }
        KeepIs(v, n);
      }
    }
  }

  lemma MoreOk(v: View, n: nat)
    requires Placed(v, n + 1) && FieldsOk(v, n) && FieldOk(v, n)
    ensures FieldsOk(v, n + 1)
  {
    hide FieldOk;
  }

  /** A field that does not open joins those that are not vouched for. */
  lemma KeepIs(v: View, n: nat)
    requires Placed(v, n + 1) && FieldsOk(v, n) && FieldsOk(v, n + 1) && FieldOk(v, n) && !Opens(v, n)
    ensures FieldsRead(v, n + 1) == FieldsRead(v, n).(untrusted := FieldsRead(v, n).untrusted + [NextField(v, n)])
    ensures CookieRead(v, n + 1) == CookieRead(v, n)
  {
    hide FieldOk, FieldsOk, Opens, Decode, DecodeAll, ReadSealed, Outside, NextField;
    assert LastOpened(v, n + 1) == LastOpened(v, n);
    var k := if LastOpened(v, n).Some? then LastOpened(v, n).value + 1 else 0;
    OutsideNext(v, k, n);
  }

  /** One that opens vouches for them. */
  lemma AcceptIs(v: View, n: nat)
    requires Placed(v, n + 1) && FieldsOk(v, n) && FieldsOk(v, n + 1) && Opens(v, n) && DecodeAll(TextOf(v, n).value, v.ver).Ok?
    ensures var d, e := FieldsRead(v, n), FieldsRead(v, n + 1);
            && e.authenticated == d.authenticated + d.untrusted && e.untrusted == []
            && e.encrypted == d.encrypted + DecodeAll(TextOf(v, n).value, v.ver).value
    ensures CookieRead(v, n + 1) == KeyOf(v, n)
  {
    hide FieldOk, FieldsOk, Opens, Decode, DecodeAll, ReadSealed, Outside, TextOf, KeyOf, TextOk;
    assert LastOpened(v, n + 1) == Some(n);
    OutsideNone(v, n + 1);
    match LastOpened(v, n) {
      case None => NoneInside(v, n);
      case Some(k) => OutsideJoin(v, 0, k, n);
    }
  }

  lemma OutsideNone(v: View, n: nat)
    requires Placed(v, n) && FieldsOk(v, n)
    ensures Outside(v, n, n) == []
  {
  }

  lemma {:induction false} NoneInside(v: View, n: nat)
    requires Placed(v, n) && FieldsOk(v, n) && LastOpened(v, n) == None
    ensures Inside(v, n) == []
  {
    hide FieldOk, Opens, FieldsIn;
    if n > 0 {
      NoneInside(v, n - 1);
    }
  }

  lemma {:induction false} OutsideJoin(v: View, a: nat, k: nat, n: nat)
    requires a <= k < n && Placed(v, n) && FieldsOk(v, n) && Opens(v, k)
    ensures Outside(v, a, n) == Outside(v, a, k) + Outside(v, k + 1, n)
    decreases n
  {
    hide FieldOk, Opens, NextField;
    if n > k + 1 {
      OutsideJoin(v, a, k, n - 1);
    }
  }

  /* ---- All fields ---- */

  /** Every field is framed within the packet. */
  predicate Framed(v: View) {
    F.FieldsTo(v.items, |v.items|)
  }

  function EndOf(v: View, n: nat): nat
    requires F.FieldsTo(v.items, n)
  {
    F.EndOf(v.items, HEADER, n)
  }

  /** Field `n` and what is read for it. */
  lemma ItemRead(data: Bytes, ks: KeySet, siv: Siv, ver: Version, n: nat)
    requires |data| >= HEADER && F.FieldsTo(ViewOf(data, ks, siv, ver).items, n)
    ensures var v := ViewOf(data, ks, siv, ver);
            && HEADER <= EndOf(v, n) <= |data|
            && (n == |v.items| <==> |data| - EndOf(v, n) <= Cutoff(ver))
            && (n < |v.items| ==> (v.items[n].Field? <==> ReadRaw(data[EndOf(v, n)..], ver).Ok?))
            && (n < |v.items| && v.items[n].Field? ==>
                  && F.FieldsTo(v.items, n + 1) && v.items[n].offset == EndOf(v, n)
                  && ReadRaw(data[EndOf(v, n)..], ver) == Ok(v.items[n].raw)
                  && EndOf(v, n + 1) == EndOf(v, n) + WireLength(v.items[n].raw))
  {
    hide WireLength, ReadRaw, F.Stream;
    var v := ViewOf(data, ks, siv, ver);
    F.StreamFrom(data, HEADER, Cutoff(ver), ver, n);
    F.StreamFirst(data, EndOf(v, n), Cutoff(ver), ver);
    EndsFollow(data, ks, siv, ver, n);
  }

  lemma {:induction false} EndsFollow(data: Bytes, ks: KeySet, siv: Siv, ver: Version, n: nat)
    requires |data| >= HEADER && F.FieldsTo(ViewOf(data, ks, siv, ver).items, n)
    ensures EndOf(ViewOf(data, ks, siv, ver), n) >= HEADER
  {
    hide WireLength, ReadRaw, F.Stream;
    if n > 0 {
      var v := ViewOf(data, ks, siv, ver);
      EndsFollow(data, ks, siv, ver, n - 1);
      F.StreamFrom(data, HEADER, Cutoff(ver), ver, n - 1);
      F.StreamFirst(data, EndOf(v, n - 1), Cutoff(ver), ver);
    }
  }

  lemma {:induction false} ViewPlaced(data: Bytes, ks: KeySet, siv: Siv, ver: Version, n: nat)
    requires |data| >= HEADER && F.FieldsTo(ViewOf(data, ks, siv, ver).items, n)
    ensures Placed(ViewOf(data, ks, siv, ver), n)
  {
    hide WireLength, ReadRaw, F.Stream;
    if n > 0 {
      ViewPlaced(data, ks, siv, ver, n - 1);
      ItemRead(data, ks, siv, ver, n - 1);
    }
  }

  /** From field `n` on, with what the fields in front of it led to. */
  lemma {:induction false} ReadOn(data: Bytes, ks: KeySet, siv: Siv, ver: Version, n: nat)
    requires |data| >= HEADER && F.FieldsTo(ViewOf(data, ks, siv, ver).items, n)
    requires var v := ViewOf(data, ks, siv, ver); Placed(v, n) && FieldsOk(v, n) && EndOf(v, n) <= |data|
    ensures var v := ViewOf(data, ks, siv, ver);
            var all, r := |v.items|, ReadFrom(data, EndOf(v, n), StateRead(v, n), KeyProvider(ks, siv), ver);
            && (Framed(v) ==> Placed(v, all) && EndOf(v, all) <= |data|)
            && (r.Ok? <==> Framed(v) && FieldsOk(v, all))
            && (r.Ok? ==> r.value == Deserialized(StateRead(v, all), data[EndOf(v, all)..]))
    decreases |ViewOf(data, ks, siv, ver).items| - n
  {
    hide WireLength, ReadRaw, Step, StateRead, FieldsOk, FieldOk, KeyProvider, ViewOf, EndOf, Placed;
    var v := ViewOf(data, ks, siv, ver);
    var st := StateRead(v, n);
    ItemRead(data, ks, siv, ver, n);
    assert Framed(v) ==> Placed(v, |v.items|) && EndOf(v, |v.items|) <= |data| by {
      if Framed(v) {
        ViewPlaced(data, ks, siv, ver, |v.items|);
        ItemRead(data, ks, siv, ver, |v.items|);
      }
    }
    if n < |v.items| {
      if v.items[n].Field? {
        ViewPlaced(data, ks, siv, ver, n + 1);
        ViewIs(data, ks, siv, ver);
        StepIs(v, n);
        if FieldOk(v, n) {
          ItemRead(data, ks, siv, ver, n + 1);
          ReadNext(data, EndOf(v, n), v.items[n].raw, st, StateRead(v, n + 1), KeyProvider(ks, siv), ver);
          ReadOn(data, ks, siv, ver, n + 1);
        } else if Framed(v) {
          NotAllOk(v, n);
        }
      } else {
        NotFramed(v, n);
      }
    }
  }

  lemma ViewIs(data: Bytes, ks: KeySet, siv: Siv, ver: Version)
    requires |data| >= HEADER
    ensures var v := ViewOf(data, ks, siv, ver); v.data == data && v.ks == ks && v.siv == siv && v.ver == ver
  {
  }

  lemma NotAllOk(v: View, n: nat)
    requires n < |v.items| && Placed(v, n + 1) && Placed(v, |v.items|) && !FieldOk(v, n)
    ensures !FieldsOk(v, |v.items|)
  {
    hide FieldOk;
  }

  lemma NotFramed(v: View, n: nat)
    requires n < |v.items| && !v.items[n].Field?
    ensures !Framed(v)
  {
  }

  /* ---- Packets ---- */

  /** Nothing, or as much as a MAC may have. */
  predicate MacOk(b: Bytes) {
    b == [] || 4 <= |b| <= 24
  }

  function MacOf(b: Bytes): Option<F.Mac>
    requires MacOk(b)
  {
    if b == [] then None else Some(F.Mac(FromU32(b[..4]), b[4..]))
  }

  /** All that is wrong with a packet but for its encryption. */
  ghost predicate Whole(data: Bytes, ks: KeySet, siv: Siv, ver: Version) {
    && |data| >= HEADER
    && var v := ViewOf(data, ks, siv, ver);
       var all := |v.items|;
       Framed(v) && Placed(v, all) && FieldsOk(v, all) && EndOf(v, all) <= |data| && MacOk(data[EndOf(v, all)..])
  }

  /** What a packet of version 4 or 5 is read as behind its header. */
  ghost function Told(data: Bytes, version: NtpVersion, h: Header, ks: KeySet, siv: Siv, ver: Version): Parse<Cookie> {
    if !Whole(data, ks, siv, ver) then Malformed
    else
      var v := ViewOf(data, ks, siv, ver);
      var all := |v.items|;
      var packet := Packet(version, h, FieldsRead(v, all), MacOf(data[EndOf(v, all)..]));
      if AllOpen(v, all) then Parsed(packet, CookieRead(v, all)) else Undecryptable(packet)
  }

  lemma TailIs(data: Bytes, version: NtpVersion, h: Header, ks: KeySet, siv: Siv, ver: Version)
    requires |data| >= HEADER
    ensures Tail(data, version, h, KeyProvider(ks, siv), ver) == Told(data, version, h, ks, siv, ver)
  {
    hide ReadFrom, FieldsOk, Placed, FieldsRead, AllOpen, CookieRead, KeyProvider, F.Stream;
    var v := ViewOf(data, ks, siv, ver);
    assert Placed(v, 0) && FieldsOk(v, 0) && StateRead(v, 0) == Initial<Cookie>() by { StartRead(v); }
    ReadOn(data, ks, siv, ver, 0);
  }

  lemma StartRead(v: View)
    ensures Placed(v, 0) && FieldsOk(v, 0) && StateRead(v, 0) == Initial<Cookie>()
  {
    NothingRead(v);
  }

  /**
   What every packet is read as. It is malformed if it is too short, of an unknown version, has a bad header, a field
   that is not framed within it or not well-formed, or a rest that is no MAC; and in version 5 if it can be decrypted
   and does not follow the right draft. It cannot be decrypted if some encrypted field does not open.
   */
  lemma PacketIs(data: Bytes, ks: KeySet, siv: Siv)
    ensures var r, n := ReadPacket(data, ks, siv), VersionBits(data);
            if |data| < HEADER || n < 3 || n > 5 then r == Malformed
            else if n == 3 then
              r == if MacOk(data[HEADER..]) then Parsed(Packet(Ntp3, ReadOld(data), EfData([], [], []), MacOf(data[HEADER..])), None)
                   else Malformed
            else if n == 4 then r == Told(data, Ntp4, ReadOld(data), ks, siv, V4)
            else
              r == match ReadNew(data)
                   case None => Malformed
                   case Some(h) =>
                     var t := Told(data, Ntp5, h, ks, siv, V5);
                     if t.Parsed? && DraftId(t.packet.efdata) != Some(DRAFT_VERSION) then Malformed else t
  {
    hide KeyProvider, Tail, Told, DraftId, ReadOld, ReadNew;
    if |data| >= HEADER {
      assert data[..HEADER] + data[HEADER..] == data;
      TailIs(data, Ntp4, ReadOld(data), ks, siv, V4);
      if ReadNew(data).Some? {
        TailIs(data, Ntp5, ReadNew(data).value, ks, siv, V5);
      }
    }
  }

  /** Exactly which packets cannot be decrypted: those with an encrypted field that has no key or does not open. */
  lemma UndecryptableIff(data: Bytes, ks: KeySet, siv: Siv, ver: Version)
    requires VersionBits(data) == VersionNumber(NumberOf(ver)) && !ReadPacket(data, ks, siv).Malformed?
    ensures Whole(data, ks, siv, ver)
    ensures var v := ViewOf(data, ks, siv, ver);
            ReadPacket(data, ks, siv).Undecryptable? <==> exists i :: 0 <= i < |v.items| && IsSealed(v, i) && !Opens(v, i)
  {
    hide ReadPacket, Whole, FieldsRead, CookieRead, DraftId, ReadOld, ReadNew, Opens, F.Stream;
    PacketIs(data, ks, siv);
  }
}
