/** A packet as the server reads it, with the keys of the server deciding what can be decrypted. */
module Packets {
  import opened Bytes
  import opened Protocol
  import opened Headers
  import opened ExtensionFields
  import opened EncryptedFields
  import F = FieldReader
  import opened KeySets

  /* ---- The cookie that selects the key ---- */

  datatype Found = NoCookie | One(cookie: Cookie) | Bad

  function FindStep(found: Found, f: ExtField, ks: KeySet, siv: Siv): Found {
    if !f.NtsCookie? || found.Bad? then found
    else if found.One? then Bad
    else
      match DecodeCookie(ks, siv, f.data)
      case None => Bad
      case Some(c) => One(c)
  }

  function Find(fs: seq<ExtField>, ks: KeySet, siv: Siv): Found {
    if fs == [] then NoCookie else FindStep(Find(fs[..|fs| - 1], ks, siv), fs[|fs| - 1], ks, siv)
  }

  method GetCookie(fs: seq<ExtField>, ks: KeySet, siv: Siv) returns (r: Option<Cookie>)
    ensures r == match Find(fs, ks, siv) case One(c) => Some(c) case _ => None
  {
    r := None;
    for i := 0 to |fs|
      invariant Find(fs[..i], ks, siv) == if r.Some? then One(r.value) else NoCookie
    {
      assert fs[..i + 1][..i] == fs[..i];
      if fs[i].NtsCookie? {
        if r.Some? {
          BadStays(fs, i + 1, ks, siv);
          return None;
        }
        r := DecodeCookie(ks, siv, fs[i].data);
        if r.None? {
          BadStays(fs, i + 1, ks, siv);
          return None;
        }
      }
    }
    assert fs[..|fs|] == fs;
  }

  lemma {:induction false} BadStays(fs: seq<ExtField>, n: nat, ks: KeySet, siv: Siv)
    requires n <= |fs| && Find(fs[..n], ks, siv).Bad?
    ensures Find(fs, ks, siv).Bad?
    decreases |fs|
  {
    if n < |fs| {
      assert fs[..|fs| - 1][..n] == fs[..n];
      BadStays(fs[..|fs| - 1], n, ks, siv);
    } else {
      assert fs[..n] == fs;
    }
  }

  predicate CookieAt(fs: seq<ExtField>, i: int, c: Cookie, ks: KeySet, siv: Siv) {
    0 <= i < |fs| && fs[i].NtsCookie? && DecodeCookie(ks, siv, fs[i].data) == Some(c)
  }

  predicate NoOtherCookie(fs: seq<ExtField>, i: int) {
    forall j :: 0 <= j < |fs| && j != i ==> !fs[j].NtsCookie?
  }

  /** A key is selected exactly by the only cookie there is, if this server can decode it. */
  lemma {:induction false} FoundIff(fs: seq<ExtField>, c: Cookie, ks: KeySet, siv: Siv)
    ensures Find(fs, ks, siv).NoCookie? <==> NoOtherCookie(fs, -1)
    ensures Find(fs, ks, siv) == One(c) <==> exists i :: CookieAt(fs, i, c, ks, siv) && NoOtherCookie(fs, i)
  {
    hide DecodeCookie;
    if fs != [] {
      var init, last := fs[..|fs| - 1], fs[|fs| - 1];
      FoundIff(init, c, ks, siv);
      if Find(fs, ks, siv) == One(c) {
        if last.NtsCookie? {
          assert CookieAt(fs, |fs| - 1, c, ks, siv) && NoOtherCookie(fs, |fs| - 1);
        } else {
          var i :| CookieAt(init, i, c, ks, siv) && NoOtherCookie(init, i);
          assert CookieAt(fs, i, c, ks, siv) && NoOtherCookie(fs, i);
        }
      }
      if exists i :: CookieAt(fs, i, c, ks, siv) && NoOtherCookie(fs, i) {
        var i :| CookieAt(fs, i, c, ks, siv) && NoOtherCookie(fs, i);
        if i < |fs| - 1 {
          assert CookieAt(init, i, c, ks, siv) && NoOtherCookie(init, i);
        } else {
          assert NoOtherCookie(init, -1);
        }
      }
    }
  }

  function KeyProvider(ks: KeySet, siv: Siv): EncryptedFields.Provider<Cookie> {
    fs =>
      match Find(fs, ks, siv)
      case One(c) => Some(DecodedServerCookie(c, siv(c.c2s)))
      case _ => None
  }

  /* ---- Packets ---- */

  datatype Packet = Packet(version: NtpVersion, header: Header, efdata: EfData, mac: Option<F.Mac>)

  /** A packet, a packet whose encrypted part could not be opened, or neither. */
  datatype Parse<C> = Parsed(packet: Packet, cookie: Option<C>) | Undecryptable(packet: Packet) | Malformed

  function DraftId(d: EfData): Option<Bytes> {
    FirstDraft(d.untrusted + d.authenticated)
  }

  function FirstDraft(fs: seq<ExtField>): Option<Bytes> {
    if fs == [] then None
    else if fs[0].DraftIdentification? then Some(fs[0].text)
    else FirstDraft(fs[1..])
  }

  function Tail<C>(data: Bytes, version: NtpVersion, header: Header, provider: EncryptedFields.Provider<C>, ver: Version)
    : Parse<C>
    requires |data| >= HEADER
  {
    match F.ReadTail(data, HEADER, provider, ver)
    case Err(_) => Malformed
    case Ok(p) =>
      var packet := Packet(version, header, p.fields.efdata, p.mac);
      if p.fields.valid then Parsed(packet, p.fields.cookie) else Undecryptable(packet)
  }

  function ReadWith<C>(data: Bytes, provider: EncryptedFields.Provider<C>): Parse<C> {
    var v := VersionBits(data);
    if |data| < HEADER then Malformed
    else if v == 3 then
      if |data| == HEADER then Parsed(Packet(Ntp3, ReadOld(data), EfData([], [], []), None), None)
      else
        (match F.DeserializeMac(data[HEADER..])
         case Err(_) => Malformed
         case Ok(m) => Parsed(Packet(Ntp3, ReadOld(data), EfData([], [], []), Some(m)), None))
    else if v == 4 then Tail(data, Ntp4, ReadOld(data), provider, V4)
    else if v == 5 then
      match ReadNew(data)
      case None => Malformed
      case Some(h) =>
        var r := Tail(data, Ntp5, h, provider, V5);
        if r.Parsed? && DraftId(r.packet.efdata) != Some(DRAFT_VERSION) then Malformed else r
    else Malformed
  }

  /** As the server reads it. */
  function ReadPacket(data: Bytes, ks: KeySet, siv: Siv): Parse<Cookie> {
    ReadWith(data, KeyProvider(ks, siv))
  }

  /* ---- What a cookie vouches for ---- */

  /** Reading the fields one after the other from `pos` on comes to `q`. */
  predicate Reaches(data: Bytes, pos: nat, q: nat, ver: Version)
    requires pos <= |data|
    decreases |data| - pos
  {
    || q == pos
    || (|data| - pos > Cutoff(ver)
        && ReadRaw(data[pos..], ver).Ok?
        && Reaches(data, pos + WireLength(ReadRaw(data[pos..], ver).value), q, ver))
  }

  /** A field of the packet starts at `q`. */
  predicate FieldStart(data: Bytes, q: nat, ver: Version) {
    HEADER <= q <= |data| && Reaches(data, HEADER, q, ver) && ReadRaw(data[q..], ver).Ok?
  }

  /** At `pos` there is a field that only the holder of the cookie's key can have made for this packet. */
  predicate AuthenticatedAt(data: Bytes, pos: nat, c: Cookie, siv: Siv, ver: Version) {
    && FieldStart(data, pos, ver)
    && var raw := ReadRaw(data[pos..], ver).value;
       && raw.typeId == NTS_ENCRYPTED_FIELD
       && var s := ReadSealed(raw.body);
          s.Ok? && siv(c.c2s).open(s.value.nonce, data[..pos], s.value.sealed).Some?
  }

  /** At `q`, and ending in front of `pos`, there is a field with this cookie. */
  predicate CookieBefore(data: Bytes, q: nat, pos: nat, cookie: Bytes, ver: Version) {
    && FieldStart(data, q, ver)
    && var raw := ReadRaw(data[q..], ver).value;
       raw.typeId == NTS_COOKIE && raw.body == cookie && q + WireLength(raw) <= pos
  }

  /** The field at `pos` opens under the keys in the cookie at `q`, which stands in front of it. */
  predicate VouchedAt(data: Bytes, q: nat, pos: nat, cookie: Bytes, c: Cookie, ks: KeySet, siv: Siv, ver: Version) {
    && DecodeCookie(ks, siv, cookie) == Some(c)
    && CookieBefore(data, q, pos, cookie, ver)
    && AuthenticatedAt(data, pos, c, siv, ver)
  }

  /** The cookie is among the authenticated fields, and a field behind it opens under its keys. */
  ghost predicate Vouched(data: Bytes, authenticated: seq<ExtField>, c: Cookie, ks: KeySet, siv: Siv, ver: Version) {
    exists q, pos, cookie :: VouchedAt(data, q, pos, cookie, c, ks, siv, ver) && NtsCookie(cookie) in authenticated
  }

  /** Every cookie among the fields was read in front of `pos`. */
  ghost predicate Located(data: Bytes, fs: seq<ExtField>, pos: nat, ver: Version) {
    forall f :: f in fs && f.NtsCookie? ==> exists q :: CookieBefore(data, q, pos, f.data, ver)
  }

  lemma {:induction false} ReachesNext(data: Bytes, pos: nat, q: nat, ver: Version)
    requires pos <= q <= |data| && Reaches(data, pos, q, ver)
    requires |data| - q > Cutoff(ver) && ReadRaw(data[q..], ver).Ok?
    ensures Reaches(data, pos, q + WireLength(ReadRaw(data[q..], ver).value), ver)
    decreases |data| - pos
  {
    hide ReadRaw, WireLength;
    if q != pos {
      ReachesBeyond(data, pos + WireLength(ReadRaw(data[pos..], ver).value), q, ver);
      ReachesNext(data, pos + WireLength(ReadRaw(data[pos..], ver).value), q, ver);
    }
  }

  lemma {:induction false} ReachesBeyond(data: Bytes, pos: nat, q: nat, ver: Version)
    requires pos <= |data| && Reaches(data, pos, q, ver)
    ensures pos <= q
    decreases |data| - pos
  {
    hide ReadRaw, WireLength;
    if q != pos {
      ReachesBeyond(data, pos + WireLength(ReadRaw(data[pos..], ver).value), q, ver);
    }
  }

  /** What holds while the fields are read: at `pos`, with this much read. */
  ghost predicate Reading(data: Bytes, pos: nat, st: State<Cookie>, ks: KeySet, siv: Siv, ver: Version) {
    && HEADER <= pos <= |data| && Reaches(data, HEADER, pos, ver)
    && Located(data, st.efdata.untrusted, pos, ver)
    && (st.cookie.Some? ==> Vouched(data, st.efdata.authenticated, st.cookie.value, ks, siv, ver))
  }

  lemma {:induction false} ReadVouches(data: Bytes, pos: nat, st: State<Cookie>, ks: KeySet, siv: Siv, ver: Version)
    requires Reading(data, pos, st, ks, siv, ver)
    ensures var r := ReadFrom(data, pos, st, KeyProvider(ks, siv), ver);
            r.Ok? && r.value.state.cookie.Some? ==>
              Vouched(data, r.value.state.efdata.authenticated, r.value.state.cookie.value, ks, siv, ver)
    decreases |data| - pos
  {
    hide Vouched, KeyProvider, Step, ReadRaw, WireLength, Located, Reaches;
    if |data[pos..]| > Cutoff(ver) && ReadRaw(data[pos..], ver).Ok? {
      var raw := ReadRaw(data[pos..], ver).value;
      var st' := Step(st, raw, data[..pos], KeyProvider(ks, siv), ver);
      if st'.Ok? {
        StepVouches(data, pos, st, ks, siv, ver);
        ReadVouches(data, pos + WireLength(raw), st'.value, ks, siv, ver);
      }
    }
  }

  lemma StepVouches(data: Bytes, pos: nat, st: State<Cookie>, ks: KeySet, siv: Siv, ver: Version)
    requires Reading(data, pos, st, ks, siv, ver)
    requires |data| - pos > Cutoff(ver) && ReadRaw(data[pos..], ver).Ok?
    requires Step(st, ReadRaw(data[pos..], ver).value, data[..pos], KeyProvider(ks, siv), ver).Ok?
    ensures var raw := ReadRaw(data[pos..], ver).value;
            Reading(data, pos + WireLength(raw), Step(st, raw, data[..pos], KeyProvider(ks, siv), ver).value, ks, siv, ver)
  {
    hide ReadRaw, ReadSealed, DecodeAll, Decode, DecodeCookie, Find, Located, Vouched, WireLength, Reaches;
    var raw := ReadRaw(data[pos..], ver).value;
    ReachesNext(data, HEADER, pos, ver);
    if raw.typeId != NTS_ENCRYPTED_FIELD {
      LocatedMore(data, pos, st.efdata.untrusted, Decode(raw, ver).value, ver);
    } else if Find(st.efdata.untrusted, ks, siv).One? {
      var c, s := Find(st.efdata.untrusted, ks, siv).cookie, ReadSealed(raw.body).value;
      if siv(c.c2s).open(s.nonce, data[..pos], s.sealed).Some? {
        assert Located(data, [], pos + WireLength(raw), ver) by { NoneLocated(data, pos + WireLength(raw), ver); }
        AcceptVouches(data, pos, st.efdata, c, ks, siv, ver);
      } else {
        LocatedReject(data, pos, st.efdata.untrusted, ver);
      }
    } else {
      LocatedReject(data, pos, st.efdata.untrusted, ver);
    }
  }

  lemma NoneLocated(data: Bytes, pos: nat, ver: Version)
    ensures Located(data, [], pos, ver)
  {
  }

  lemma AcceptVouches(data: Bytes, pos: nat, d: EfData, c: Cookie, ks: KeySet, siv: Siv, ver: Version)
    requires AuthenticatedAt(data, pos, c, siv, ver) && Find(d.untrusted, ks, siv) == One(c)
    requires Located(data, d.untrusted, pos, ver)
    ensures Vouched(data, d.authenticated + d.untrusted, c, ks, siv, ver)
  {
    hide AuthenticatedAt, CookieBefore, Find, DecodeCookie;
    FoundIff(d.untrusted, c, ks, siv);
    var i :| CookieAt(d.untrusted, i, c, ks, siv);
    var cookie := d.untrusted[i].data;
    var q :| CookieBefore(data, q, pos, cookie, ver);
    assert VouchedAt(data, q, pos, cookie, c, ks, siv, ver) && NtsCookie(cookie) in d.untrusted;
  }

  /** One more ordinary field is read. */
  lemma LocatedMore(data: Bytes, pos: nat, fs: seq<ExtField>, f: ExtField, ver: Version)
    requires Located(data, fs, pos, ver) && FieldStart(data, pos, ver)
    requires Decode(ReadRaw(data[pos..], ver).value, ver) == Ok(f)
    ensures Located(data, fs + [f], pos + WireLength(ReadRaw(data[pos..], ver).value), ver)
  {
    hide ReadRaw, WireLength, Reaches;
    var next := pos + WireLength(ReadRaw(data[pos..], ver).value);
    forall g | g in fs + [f] && g.NtsCookie?
      ensures exists q :: CookieBefore(data, q, next, g.data, ver)
    {
      if g in fs {
        var q :| CookieBefore(data, q, pos, g.data, ver);
        assert CookieBefore(data, q, next, g.data, ver);
      } else {
        assert CookieBefore(data, pos, next, g.data, ver);
      }
    }
  }

  lemma LocatedReject(data: Bytes, pos: nat, fs: seq<ExtField>, ver: Version)
    requires Located(data, fs, pos, ver) && FieldStart(data, pos, ver)
    ensures Located(data, fs + [InvalidNtsEncryptedField], pos + WireLength(ReadRaw(data[pos..], ver).value), ver)
  {
    hide ReadRaw, WireLength, Reaches;
    var next := pos + WireLength(ReadRaw(data[pos..], ver).value);
    forall g | g in fs && g.NtsCookie?
      ensures exists q :: CookieBefore(data, q, next, g.data, ver)
    {
      var q :| CookieBefore(data, q, pos, g.data, ver);
      assert CookieBefore(data, q, next, g.data, ver);
    }
  }

  /** No cookie and nothing undecryptable in version 3; a cookie is one this server issued the keys of. */
  lemma PacketVouches(data: Bytes, ks: KeySet, siv: Siv)
    ensures var r := ReadPacket(data, ks, siv);
            && (r.Undecryptable? ==> r.packet.version != Ntp3)
            && (r.Parsed? && r.cookie.Some? ==>
                  && r.packet.version != Ntp3
                  && Vouched(data, r.packet.efdata.authenticated, r.cookie.value, ks, siv, ExtVersion(r.packet.version)))
  {
    hide Vouched, ReadFrom, KeyProvider, DraftId;
    if |data| >= HEADER {
      NoneLocated(data, HEADER, V4);
      NoneLocated(data, HEADER, V5);
      ReadVouches(data, HEADER, Initial(), ks, siv, V4);
      ReadVouches(data, HEADER, Initial(), ks, siv, V5);
    }
  }
}
