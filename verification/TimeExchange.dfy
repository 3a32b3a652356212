/**
 The time on the wire: what the server puts into the header of an answer, and what the client measures from it.
 */
module TimeExchanges {
  import opened Bytes
  import opened Protocol
  import opened TimeTypes
  import opened Headers
  import opened ExtensionFields
  import opened EncryptedFields
  import opened Packets
  import opened Responses
  import opened Associations
  import K = KeySets
  import R = RateLimits
  import S = Servers
  import M = Measurements
  import W = FieldWriter

  /* ---- The header in front ---- */

  lemma PackedBegins(header: Bytes, d: EfData, cipher: Option<Cipher>, nonce: Bytes, ver: Version)
    requires EfEncodable(d, ver) && (NeedsCipher(d) ==> cipher.Some?)
    ensures header <= W.Packed(header, d, _ => cipher, nonce, ver)
  {
    hide EncodeAll, AllEncodable, EncodeEncrypted;
  }

  /** A response starts with its header. */
  lemma WireBegins(b: Builder, v: NtpVersion, request: EfData, draws: Draws, cipher: Option<Cipher>, size: Option<nat>)
    requires Wire(b, v, request, draws, cipher, size).Some?
    ensures draws.header <= Wire(b, v, request, draws, cipher, size).value
  {
    hide ResponseFields, EfEncodable, W.Packed, Encode, NeedsCipher, Writable, Encodable;
    if v != Ntp3 {
      PackedBegins(draws.header, ResponseFields(b, v, request, draws), cipher, draws.nonce, ExtVersion(v));
    }
  }

  /** A packet's header is what its first 48 bytes say. */
  lemma HeaderRead<C>(data: Bytes, provider: EncryptedFields.Provider<C>)
    requires !ReadWith(data, provider).Malformed?
    ensures var p := ReadWith(data, provider).packet;
            && |data| >= HEADER && VersionBits(data) == VersionNumber(p.version)
            && ReadHeader(data, p.version) == Some(p.header) && Suits(p.header, p.version)
  {
    hide VersionBits, DraftId, F.ReadTail, F.DeserializeMac;
  }

  /** A time without what is below 128 seconds. */
  lemma TruncatedTime(t: Bytes8)
    ensures FromU64(Truncated(t)) % 0x80_0000_0000 == 0
    ensures FromU64(Truncated(t)) <= FromU64(t) < FromU64(Truncated(t)) + 0x80_0000_0000
  {
    var r := Truncated(t);
    assert t[..4] == [t[0], t[1], t[2], t[3]] && r[..4] == [t[0], t[1], t[2], t[3] / 128 * 128] && r[4..] == ZEROS4;
    assert FromU32(t[..4]) - FromU32(r[..4]) == t[3] % 128;
  }

  /* ---- What the server sends ---- */

  /** The start of a header: leap indicator, version, mode, stratum, interval, precision and the two durations. */
  predicate Opening(sent: Bytes, leap: Bits2, version: Bits3, stratum: Byte, poll: Byte, precision: Byte, delay: Bytes, dispersion: Bytes) {
    && |sent| >= HEADER && sent[0] / 64 == leap && VersionBits(sent) == version && sent[0] % 8 == SERVER_MODE
    && sent[1] == stratum && sent[2] == poll && sent[3] == precision && sent[4..8] == delay && sent[8..12] == dispersion
  }

  /** What asks for version 5. */
  predicate AsksUpgrade(request: Bytes, nts: bool)
    requires |request| >= HEADER
  {
    VersionBits(request) == 4 && !nts && request[16..24] == UPGRADE
  }

  /**
   An answer with the time, byte by byte: what the server says of itself, when the request came and the response
   goes, and from the request the interval and what it is told by.
   */
  predicate TellsTime(request: Bytes, sent: Bytes, s: S.Supplies, nts: bool)
    requires |request| >= HEADER
  {
    var v, my, r := VersionBits(request), s.snapshot, s.readings;
    && Opening(sent, my.leap, v, my.stratum, request[2], my.precision, my.delay, my.dispersion)
    && sent[32..40] == r.received && sent[40..48] == r.sent
    && if v == 5 then
         && sent[12..15] == [0, 0, 0] && sent[15] == (if my.stratum < 16 then 1 else 0)
         && sent[16..24] == r.serverCookie && sent[24..32] == request[24..32]
       else
         && sent[12..16] == my.referenceId && sent[24..32] == request[40..48]
         && if AsksUpgrade(request, nts) then sent[16..24] == UPGRADE else sent[16..24] == Truncated(r.received)
  }

  /** A refusal, byte by byte: stratum zero, the reason, and what the request is told by. */
  predicate TellsRefusal(request: Bytes, sent: Bytes, s: S.Supplies, nak: bool)
    requires |request| >= HEADER
  {
    var v := VersionBits(request);
    && Opening(sent, 0, v, 0, if v == 5 && !nak then NEVER_BYTE else 0, 0, ZEROS4, ZEROS4)
    && sent[32..40] == ZEROS8 && sent[40..48] == ZEROS8
    && if v == 5 then
         && sent[12..15] == [0, 0, 0] && sent[15] == (if nak then 4 else 0)
         && sent[16..24] == s.readings.serverCookie && sent[24..32] == request[24..32]
       else
         && sent[12..16] == (if nak then KISS_NTSN else KISS_DENY) && sent[16..24] == ZEROS8 && sent[24..32] == request[40..48]
  }

  /** Where the parts of a header are. */
  predicate Laid(sent: Bytes, h: Header) {
    && |sent| >= HEADER && sent[4..8] == h.delay && sent[8..12] == h.dispersion
    && sent[32..40] == h.receive && sent[40..48] == h.transmit
    && if h.Old? then sent[12..16] == h.referenceId && sent[16..24] == h.reference && sent[24..32] == h.origin
       else && sent[12..15] == [h.timescale, h.era, 0] && sent[15] == Flags(h)
            && sent[16..24] == h.serverCookie && sent[24..32] == h.clientCookie
  }

  lemma WrittenHeader(h: Header, v: NtpVersion, sent: Bytes)
    requires Suits(h, v) && Write(h, v) <= sent
    ensures Laid(sent, h)
  {
    hide FirstByte, Flags;
    var rest := sent[HEADER..];
    assert sent == Write(h, v) + rest;
    match h
    case Old(leap, mode, stratum, poll, precision, delay, dispersion, referenceId, reference, origin, receive, transmit) =>
      Slices([FirstByte(leap, VersionNumber(v), mode), stratum, poll, precision], delay, dispersion, referenceId,
             reference, origin, receive, transmit, rest);
    case New(leap, request, stratum, poll, precision, delay, dispersion, timescale, era, _, _, _,
             serverCookie, clientCookie, receive, transmit) =>
      var middle := [timescale, era, 0, Flags(h)];
      Slices([FirstByte(leap, 5, if request then CLIENT_MODE else SERVER_MODE), stratum, poll, precision], delay, dispersion,
             middle, serverCookie, clientCookie, receive, transmit, rest);
      assert sent[12..15] == sent[12..16][..3] && sent[15] == sent[12..16][3];
  }

  lemma WrittenOpening(h: Header, v: NtpVersion, sent: Bytes)
    requires Suits(h, v) && Write(h, v) <= sent && ModeOf(h) == Server
    ensures Opening(sent, h.leap, VersionNumber(v), h.stratum, h.poll, h.precision, h.delay, h.dispersion)
  {
    hide Write, VersionBits;
    assert sent == Write(h, v) + sent[HEADER..];
    FirstBytes(h, v, sent[HEADER..]);
    WrittenHeader(h, v, sent);
  }

  /** The header of a response on the wire. */
  lemma HeaderOnWire(b: Builder, request: Bytes, h: Header, v: NtpVersion, sent: Bytes, s: S.Supplies)
    requires |request| >= HEADER && VersionBits(request) == VersionNumber(v) && ReadHeader(request, v) == Some(h) && Suits(h, v)
    requires Write(ResponseHeader(b, v, h, s.snapshot, s.readings), v) <= sent
    ensures if b == TimeReply || b == NtsTimeReply
            then TellsTime(request, sent, s, b == NtsTimeReply)
            else TellsRefusal(request, sent, s, b == NakReply)
  {
    hide Write, VersionBits, Truncated, Opening;
    var out := ResponseHeader(b, v, h, s.snapshot, s.readings);
    WrittenOpening(out, v, sent);
    WrittenHeader(out, v, sent);
  }

  /** Whatever the server sends starts with the header of what it has decided on. */
  lemma SentOnWire(c: S.Config, ks: K.KeySet, siv: K.Siv, slots: R.Slots, hash: R.Hash, a: S.Arrival)
    requires S.ValidConfig(c) && !S.Panics(c, ks, siv, slots, hash, a)
    requires S.Handle(c, ks, siv, slots, hash, a).0.sent.Some?
    ensures |a.message| >= HEADER
    ensures var o := S.Handle(c, ks, siv, slots, hash, a).0;
            var nts := S.CookieOf(ReadPacket(a.message, ks, siv)).Some?;
            if o.registration.response == S.ProvideTime
            then TellsTime(a.message, o.sent.value, a.supplies, nts)
            else TellsRefusal(a.message, o.sent.value, a.supplies, o.registration.response == S.NtsNak)
  {
    hide ReadPacket, S.Handle, S.Panics, Wire, Write, ReadHeader, VersionBits, TellsTime, TellsRefusal;
    S.SentIff(c, ks, siv, slots, hash, a);
    PacketHeader(a.message, ks, siv);
    var o := S.Handle(c, ks, siv, slots, hash, a).0;
    var parse := ReadPacket(a.message, ks, siv);
    var r := S.ReplyFor(o.registration.response, parse.packet, S.CookieOf(parse), |a.message|).value;
    WireBegins(r.builder, r.request.version, r.request.efdata, S.DrawsFor(r, ks, siv, a.supplies), S.SealedUnder(r, siv), r.size);
    HeaderOnWire(r.builder, a.message, parse.packet.header, parse.packet.version, o.sent.value, a.supplies);
  }

  lemma PacketHeader(data: Bytes, ks: K.KeySet, siv: K.Siv)
    requires !ReadPacket(data, ks, siv).Malformed?
    ensures var p := ReadPacket(data, ks, siv).packet;
            && |data| >= HEADER && VersionBits(data) == VersionNumber(p.version)
            && ReadHeader(data, p.version) == Some(p.header) && Suits(p.header, p.version)
  {
    hide KeyProvider, VersionBits, ReadHeader, ReadWith;
    HeaderRead(data, KeyProvider(ks, siv));
  }

  /* ---- What the client measures ---- */

  /** Durations are in units of 2^-16 seconds, or in version 5 of 2^-28. */
  function DurationUnit(fine: bool): nat {
    if fine then 0x10 else 0x1_0000
  }

  function DurationRead(b: Bytes4, fine: bool): Duration {
    FromU32(b) * DurationUnit(fine)
  }

  /** Writing rounds down to the unit, and what is too long is written as the longest. */
  function DurationWritten(d: Duration, fine: bool): Bytes4
    requires d >= 0
  {
    ToU32(Min(d / DurationUnit(fine), 0xFFFF_FFFF))
  }

  lemma DurationReadBack(d: Duration, fine: bool)
    requires d >= 0
    ensures var r, unit := DurationRead(DurationWritten(d, fine), fine), DurationUnit(fine);
            if d < unit * 0x1_0000_0000 then r <= d < r + unit else r == unit * 0xFFFF_FFFF
  {
  }

  function PassedOn(h: Header): M.Header {
    M.Header(DurationRead(h.delay, h.New?), DurationRead(h.dispersion, h.New?), h.leap, PollOf(h.precision))
  }

  /** The four times of an exchange: two from the client's clock, and two from the answer. */
  function TimesOf(h: Header, send: Timestamp, arrive: Timestamp): M.Exchange {
    M.Exchange(send, FromU64(h.receive), FromU64(h.transmit), arrive, PassedOn(h))
  }

  /** A version 5 server that is not synchronized has no leap indicator. */
  function LeapTold(my: Snapshot, v: NtpVersion): Bits2 {
    if v == Ntp5 && my.stratum >= 16 then NOT_SYNCHRONIZED else my.leap
  }

  /** The server reads its clock when the poll comes and when the answer goes, and says this of itself. */
  predicate Clocked(s: S.Supplies, f: M.Flight, v: NtpVersion) {
    && s.readings.received == ToU64(Shown(f.t + f.d1 + f.theta))
    && s.readings.sent == ToU64(Shown(f.t + f.d1 + f.w + f.theta))
    && f.header == M.Header(DurationRead(s.snapshot.delay, v == Ntp5), DurationRead(s.snapshot.dispersion, v == Ntp5),
                            LeapTold(s.snapshot, v), PollOf(s.snapshot.precision))
  }

  /** The times in an answer are those of the flight. */
  lemma TimesRead<C>(request: Bytes, sent: Bytes, s: S.Supplies, nts: bool, f: M.Flight, provider: EncryptedFields.Provider<C>)
    requires |request| >= HEADER && TellsTime(request, sent, s, nts) && !ReadWith(sent, provider).Malformed?
    requires Clocked(s, f, ReadWith(sent, provider).packet.version)
    ensures TimesOf(ReadWith(sent, provider).packet.header, Shown(f.t), Shown(f.t + f.d1 + f.w + f.d2)) == M.Seen(f)
  {
    hide ReadWith, VersionBits, FromU64, ToU64, FromU32, Truncated, Shown;
    HeaderRead(sent, provider);
    U64ReadBack(Shown(f.t + f.d1 + f.theta));
    U64ReadBack(Shown(f.t + f.d1 + f.w + f.theta));
  }

  /**
   From an answer with the time, however the client reads it, the client measures the true delay and an offset
   that is wrong by at most half of it: the times in the answer are the readings of the server's clock when the
   poll came and when the answer went.
   */
  lemma AnswerMeasures<C>(c: S.Config, ks: K.KeySet, siv: K.Siv, slots: R.Slots, hash: R.Hash, a: S.Arrival,
                          f: M.Flight, id: M.ClockId, provider: EncryptedFields.Provider<C>)
    requires S.ValidConfig(c) && !S.Panics(c, ks, siv, slots, hash, a)
    requires S.Handle(c, ks, siv, slots, hash, a).0.registration.response == S.ProvideTime
    requires S.Handle(c, ks, siv, slots, hash, a).0.sent.Some?
    requires var answer := ReadWith(S.Handle(c, ks, siv, slots, hash, a).0.sent.value, provider);
             !answer.Malformed? && Clocked(a.supplies, f, answer.packet.version)
    requires M.WithinLimits(f)
    ensures var h := ReadWith(S.Handle(c, ks, siv, slots, hash, a).0.sent.value, provider).packet.header;
            M.Accurate(M.Result(TimesOf(h, Shown(f.t), Shown(f.t + f.d1 + f.w + f.d2)), id), f)
  {
    hide ReadPacket, ReadWith, S.Handle, S.Panics, TellsTime, Clocked, M.WithinLimits, TimesOf, M.Seen, M.Result, M.Accurate;
    SentOnWire(c, ks, siv, slots, hash, a);
    var o := S.Handle(c, ks, siv, slots, hash, a).0;
    TimesRead(a.message, o.sent.value, a.supplies, S.CookieOf(ReadPacket(a.message, ks, siv)).Some?, f, provider);
    M.FlightAccurate(f, id);
  }
}
