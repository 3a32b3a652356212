/** A whole exchange without NTS: the client's poll, the server's answer and what the client makes of it. */
module PlainExchanges {
  import opened Bytes
  import opened Protocol
  import C = TimeTypes
  import opened Headers
  import opened ExtensionFields
  import opened EncryptedFields
  import opened Packets
  import opened Responses
  import opened Associations
  import K = KeySets
  import R = RateLimits
  import I = IpFilters
  import S = Servers
  import M = Measurements
  import W = FieldWriter
  import Z = ResponseSizes
  import N = NtsService
  import T = TimeExchanges

  /* ---- Packets of untrusted fields only ---- */

  /** The fields are read as they were written. */
  predicate WellRead(fs: seq<ExtField>, ver: Version) {
    UntrustedReadable(fs, ver) && RereadAll(UntrustedSizes(fs, ver), ver) == fs
  }

  lemma WellEncodable(fs: seq<ExtField>, ver: Version)
    requires WellRead(fs, ver)
    ensures AllEncodable(UntrustedSizes(fs, ver))
  {
    hide Encodable, Reread;
    assert forall i :: 0 <= i < |fs| ==> ReadableField(UntrustedSizes(fs, ver)[i].field, UntrustedSizes(fs, ver)[i].minimum, ver);
  }

  function PlainPacket(h: Header, fs: seq<ExtField>, ver: Version): Bytes
    requires WellRead(fs, ver)
  {
    WellEncodable(fs, ver);
    Write(h, NumberOf(ver)) + EncodeAll(UntrustedSizes(fs, ver), ver)
  }

  /** Such a packet, as anyone reads it. */
  lemma PlainRead<C>(h: Header, fs: seq<ExtField>, ver: Version, provider: EncryptedFields.Provider<C>)
    requires WellRead(fs, ver) && Suits(h, NumberOf(ver))
    requires ver == V5 ==> DraftId(EfData([], [], fs)) == Some(DRAFT_VERSION)
    ensures ReadWith(PlainPacket(h, fs, ver), provider) ==
            Parsed(Packet(NumberOf(ver), SettleLeap(h), EfData([], [], fs), None), None)
  {
    hide Write, EncodeAll, Deserialize, DraftId, SettleLeap, ReadWith, UntrustedReadable, RereadAll, AllEncodable;
    WellEncodable(fs, ver);
    var header, e := Write(h, NumberOf(ver)), EncodeAll(UntrustedSizes(fs, ver), ver);
    var data := PlainPacket(h, fs, ver);
    assert header + e + [] == data && data[..HEADER] == header;
    PlainRoundTrip(header, fs, [], provider, ver);
    N.ReadBehind(h, data, ver, provider, State(EfData([], [], fs), true, None));
  }

  lemma PlainUsual(h: Header, fs: seq<ExtField>, ver: Version)
    requires WellRead(fs, ver) && forall i :: 0 <= i < |fs| ==> N.UsualSized(UntrustedSizes(fs, ver)[i])
    ensures Z.Usual(PlainPacket(h, fs, ver), ver)
  {
    hide Write, EncodeAll, Reread, N.UsualFrom, N.UsualSized, AllEncodable, ReadableField, Z.Usual;
    WellEncodable(fs, ver);
    var data, e := PlainPacket(h, fs, ver), EncodeAll(UntrustedSizes(fs, ver), ver);
    assert data[HEADER..] == e + [];
    N.UsualEnd(data, ver);
    N.UsualPlain(data, HEADER, UntrustedSizes(fs, ver), [], ver);
    N.UsualFromHeader(data, ver);
  }

  /* ---- The poll and its answer ---- */

  predicate GoodOffset(poll: Poll) {
    poll.bloomOffset + BLOOM_CHUNK <= 512
  }

  function PollFields(poll: Poll, ver: Version): seq<ExtField> {
    PlainPollFields(poll, ver).untrusted
  }

  /** In version 5 the piece of the Bloom filter that was asked for, and the draft. */
  function AnswerFields(poll: Poll, ver: Version, bloom: Bytes): seq<ExtField>
    requires GoodOffset(poll) && |bloom| == 512
  {
    if ver == V4 then []
    else [ReferenceIdResponse(bloom[poll.bloomOffset..poll.bloomOffset + BLOOM_CHUNK]), DraftIdentification(DRAFT_VERSION)]
  }

  lemma DraftRead()
    ensures ReadableField(DraftIdentification(DRAFT_VERSION), 4, V5)
    ensures Reread(DraftIdentification(DRAFT_VERSION), 4, V5) == Ok(DraftIdentification(DRAFT_VERSION))
  {
    hide PaddedBody, LengthFits, Encodable;
    DraftPadded();
  }

  lemma DraftPadded()
    ensures Encodable(DraftIdentification(DRAFT_VERSION)) && LengthFits(DraftIdentification(DRAFT_VERSION), 4, V5)
    ensures PaddedBody(DraftIdentification(DRAFT_VERSION), 4, V5) == DRAFT_VERSION
  {
  }

  lemma RequestRead(offset: U16)
    ensures ReadableField(ReferenceIdRequest(BLOOM_CHUNK, offset), 4, V5)
    ensures Reread(ReferenceIdRequest(BLOOM_CHUNK, offset), 4, V5) == Ok(ReferenceIdRequest(BLOOM_CHUNK, offset))
  {
  }

  lemma ResponseRead(chunk: Bytes)
    requires |chunk| == BLOOM_CHUNK
    ensures ReadableField(ReferenceIdResponse(chunk), 4, V5)
    ensures Reread(ReferenceIdResponse(chunk), 4, V5) == Ok(ReferenceIdResponse(chunk))
  {
    assert PaddedBody(ReferenceIdResponse(chunk), 4, V5) == chunk;
  }

  lemma TwoSized(x: ExtField, y: ExtField)
    ensures UntrustedSizes([x, y], V5) == [Sized(x, 4), Sized(y, 4)]
  {
    var sized := UntrustedSizes([x, y], V5);
    assert sized[0] == Sized([x, y][0], UntrustedMinimum(false, V5)) && sized[1] == Sized([x, y][1], UntrustedMinimum(true, V5));
  }

  lemma TwoRead(x: ExtField, y: ExtField)
    requires ReadableField(x, 4, V5) && Reread(x, 4, V5) == Ok(x)
    requires ReadableField(y, 4, V5) && Reread(y, 4, V5) == Ok(y)
    ensures WellRead([x, y], V5)
  {
    hide ReadableField, Reread;
    TwoSized(x, y);
    assert Readable(UntrustedSizes([x, y], V5), V5);
    assert RereadAll(UntrustedSizes([x, y], V5), V5) == [x, y];
  }

  lemma PollWell(poll: Poll, ver: Version)
    ensures var fs := PollFields(poll, ver);
            WellRead(fs, ver) && forall i :: 0 <= i < |fs| ==> N.UsualSized(UntrustedSizes(fs, ver)[i])
  {
    hide ReadableField, Reread, WellRead;
    if ver == V5 {
      var draft, asked := DraftIdentification(DRAFT_VERSION), ReferenceIdRequest(BLOOM_CHUNK, poll.bloomOffset);
      DraftRead();
      RequestRead(poll.bloomOffset);
      TwoRead(draft, asked);
      TwoSized(draft, asked);
    } else {
      NoneRead(ver);
    }
  }

  lemma NoneRead(ver: Version)
    ensures WellRead([], ver)
  {
    assert UntrustedSizes([], ver) == [];
    assert RereadAll([], ver) == [];
  }

  lemma AnswerWell(poll: Poll, ver: Version, bloom: Bytes)
    requires GoodOffset(poll) && |bloom| == 512
    ensures WellRead(AnswerFields(poll, ver, bloom), ver)
  {
    hide ReadableField, Reread, WellRead;
    if ver == V5 {
      var chunk := bloom[poll.bloomOffset..poll.bloomOffset + BLOOM_CHUNK];
      DraftRead();
      ResponseRead(chunk);
      TwoRead(ReferenceIdResponse(chunk), DraftIdentification(DRAFT_VERSION));
    } else {
      NoneRead(ver);
    }
  }

  /** The answer is as long as the poll, so it needs no padding. */
  lemma SameLength(h: Header, g: Header, poll: Poll, ver: Version, bloom: Bytes)
    requires GoodOffset(poll) && |bloom| == 512
    requires WellRead(PollFields(poll, ver), ver) && WellRead(AnswerFields(poll, ver, bloom), ver)
    ensures |PlainPacket(h, PollFields(poll, ver), ver)| == |PlainPacket(g, AnswerFields(poll, ver, bloom), ver)| <= 0xFFFF
  {
    hide Write, Encode, WellRead, EncodeAll, Encodable, AllEncodable;
    WellEncodable(PollFields(poll, ver), ver);
    WellEncodable(AnswerFields(poll, ver, bloom), ver);
    if ver == V4 {
      W.NoneEncoded(UntrustedSizes([], ver), ver);
    } else {
      var draft, asked := DraftIdentification(DRAFT_VERSION), ReferenceIdRequest(BLOOM_CHUNK, poll.bloomOffset);
      var given := ReferenceIdResponse(bloom[poll.bloomOffset..poll.bloomOffset + BLOOM_CHUNK]);
      TwoSized(draft, asked);
      TwoSized(given, draft);
      FieldLengths(draft, asked, given);
      TwoEncoded([Sized(draft, 4), Sized(asked, 4)], ver);
      TwoEncoded([Sized(given, 4), Sized(draft, 4)], ver);
    }
  }

  lemma FieldLengths(draft: ExtField, asked: ExtField, given: ExtField)
    requires draft == DraftIdentification(DRAFT_VERSION)
    requires asked.ReferenceIdRequest? && asked.payloadLen == BLOOM_CHUNK && given.ReferenceIdResponse? && |given.data| == BLOOM_CHUNK
    ensures Encodable(draft) && Encodable(asked) && Encodable(given)
    ensures |Encode(draft, 4, V5)| <= 64 && |Encode(asked, 4, V5)| == 20 == |Encode(given, 4, V5)|
  {
    hide Encode;
    assert |Body(asked)| == 16 == |Body(given)|;
  }

  lemma TwoEncoded(fs: seq<Sized>, ver: Version)
    requires |fs| == 2 && AllEncodable(fs)
    ensures |EncodeAll(fs, ver)| == |Encode(fs[0].field, fs[0].minimum, ver)| + |Encode(fs[1].field, fs[1].minimum, ver)|
  {
    hide Encode, Encodable;
    W.EncodeAllFirst(fs, ver);
    W.EncodeAllFirst(fs[1..], ver);
    W.NoneEncoded(fs[1..][1..], ver);
  }

  /* ---- The exchange ---- */

  /** The bytes of a poll that the timer sends. */
  function PlainPoll(s: Source, poll: Poll): Bytes
    requires s.cookies.None? && Stocked(s) && TimerStep(s, poll).1.Sent?
  {
    var o := TimerStep(s, poll).1;
    PollWell(poll, o.ver);
    PlainPacket(o.header, PollFields(poll, o.ver), o.ver)
  }

  lemma PlainSent(s: Source, poll: Poll)
    requires s.cookies.None? && Stocked(s) && TimerStep(s, poll).1.Sent?
    ensures var sent, o := TimerStep(s, poll).0, TimerStep(s, poll).1;
            && Stocked(sent) && sent.cookies.None? && sent.protocol == FallBack(s)
            && sent.request == Some(Request(RequestId(poll.origin, None), poll.now + POLL_WINDOW))
            && o.fields == PlainPollFields(poll, o.ver) && o.ver == PollVersion(FallBack(s), false)
            && N.ClientHeader(o.header, o.ver) && TokenOf(o.header) == poll.origin
            && (FallBack(s).UpgradingToV5? <==> o.header.Old? && o.header.reference == UPGRADE)
  {
    hide PlainPollFields;
  }

  /** The server reads such a poll as one without NTS. */
  lemma PollRead(h: Header, poll: Poll, ver: Version, ks: K.KeySet, siv: K.Siv)
    requires N.ClientHeader(h, ver) && WellRead(PollFields(poll, ver), ver)
    ensures var fs := PollFields(poll, ver);
            ReadPacket(PlainPacket(h, fs, ver), ks, siv) ==
            Parsed(Packet(NumberOf(ver), SettleLeap(h), EfData([], [], fs), None), None)
  {
    hide WellRead, PlainPacket, ReadWith, KeyProvider, SettleLeap;
    var fs := PollFields(poll, ver);
    if ver == V5 {
      N.FirstDraftAt(fs + [], 0);
    }
    PlainRead(h, fs, ver, KeyProvider(ks, siv));
  }

  /** Nobody can open anything. */
  function NoKeys(): EncryptedFields.Provider<()> {
    _ => None
  }

  lemma AnswerRead(h: Header, poll: Poll, ver: Version, bloom: Bytes)
    requires GoodOffset(poll) && |bloom| == 512 && Suits(h, NumberOf(ver)) && WellRead(AnswerFields(poll, ver, bloom), ver)
    ensures var fs := AnswerFields(poll, ver, bloom);
            ReadWith(PlainPacket(h, fs, ver), NoKeys()) ==
            Parsed(Packet(NumberOf(ver), SettleLeap(h), EfData([], [], fs), None), None)
  {
    hide WellRead, PlainPacket, ReadWith, NoKeys, SettleLeap;
    var fs := AnswerFields(poll, ver, bloom);
    if ver == V5 {
      N.FirstDraftAt(fs + [], 1);
    }
    PlainRead(h, fs, ver, NoKeys());
  }

  lemma EchoPoll(poll: Poll, ver: Version, bloom: Bytes)
    requires GoodOffset(poll) && |bloom| == 512
    ensures Signed(Echo(PollFields(poll, ver), if ver == V5 then Some(bloom) else None), NumberOf(ver)) == AnswerFields(poll, ver, bloom)
  {
    if ver == V5 {
      var fs := PollFields(poll, ver);
      assert fs[..1][..0] == [] && fs[..1] == [fs[0]];
      assert Echo(fs[..1], Some(bloom)) == [];
    }
  }

  /** The answer to the poll of a client without NTS. */
  function TimeFor(h: Header, poll: Poll, ver: Version, length: nat): S.Reply {
    S.Reply(TimeReply, Packet(NumberOf(ver), SettleLeap(h), EfData([], [], PollFields(poll, ver)), None), None, Some(length))
  }

  function AnswerHeader(h: Header, ver: Version, supplies: S.Supplies): Header {
    ResponseHeader(TimeReply, NumberOf(ver), SettleLeap(h), supplies.snapshot, supplies.readings)
  }

  lemma AnswerBytes(h: Header, poll: Poll, ver: Version, length: nat, ks: K.KeySet, siv: K.Siv, supplies: S.Supplies)
    requires GoodOffset(poll) && S.ProperSupplies(supplies)
    requires WellRead(PollFields(poll, ver), ver) && WellRead(AnswerFields(poll, ver, supplies.bloom), ver)
    requires length == |PlainPacket(h, PollFields(poll, ver), ver)|
    ensures S.ReplyBytes(TimeFor(h, poll, ver, length), ks, siv, supplies) ==
            Some(PlainPacket(AnswerHeader(h, ver, supplies), AnswerFields(poll, ver, supplies.bloom), ver))
  {
    hide WellRead, Echo, Signed, Write, EncodeAll, SettleLeap, AnswerFields, PollFields, Encode, PlainPacket, Wire, ResponseHeader;
    var request, fs := EfData([], [], PollFields(poll, ver)), AnswerFields(poll, ver, supplies.bloom);
    EchoPoll(poll, ver, supplies.bloom);
    assert Open(request) == PollFields(poll, ver);
    SameLength(h, AnswerHeader(h, ver, supplies), poll, ver, supplies.bloom);
    var draws := S.DrawsFor(TimeFor(h, poll, ver, length), ks, siv, supplies);
    WirePlain(TimeReply, AnswerHeader(h, ver, supplies), request, draws, fs, ver, Some(length));
  }

  /** A response of untrusted fields, as long as is asked for or of any length. */
  lemma WirePlain(b: Builder, h: Header, request: EfData, draws: Draws, fs: seq<ExtField>, ver: Version, size: Option<nat>)
    requires WellRead(fs, ver) && draws.header == Write(h, NumberOf(ver))
    requires ResponseFields(b, NumberOf(ver), request, draws) == EfData([], [], fs)
    requires size.None? || size.value == |PlainPacket(h, fs, ver)|
    ensures Wire(b, NumberOf(ver), request, draws, None, size) == Some(PlainPacket(h, fs, ver))
  {
    hide WellRead, ResponseFields, Write, Encode, Encodable;
    WellEncodable(fs, ver);
  }

  /** Accepted, with the upgrade to version 5 taken if it was being asked for, and kept if it had just been taken. */
  predicate Completes(s: Source, poll: Poll, out: S.Outcome, now: int)
    requires s.cookies.None? && Stocked(s) && TimerStep(s, poll).1.Sent? && Stocked(TimerStep(s, poll).0)
  {
    && out.registration.response == S.ProvideTime && out.sent.Some?
    && var answer := ReadWith(out.sent.value, NoKeys());
       && answer.Parsed?
       && var m := MessageOf(answer.packet.version, answer.packet.header, answer.packet.efdata);
          var (next, outcome) := IncomingStep(TimerStep(s, poll).0, m, now);
          && outcome == Accepted && next.request == None && next.reach % 2 == 1
          && next.protocol == (match FallBack(s)
                               case UpgradingToV5(_) => UpgradedToV5
                               case UpgradedToV5 => OnlyV5
                               case p => p)
  }

  lemma ClientAccepts(s: Source, poll: Poll, now: int, supplies: S.Supplies)
    requires s.cookies.None? && Stocked(s) && TimerStep(s, poll).1.Sent?
    requires GoodOffset(poll) && |supplies.bloom| == 512
    requires 1 <= supplies.snapshot.stratum <= MAX_STRATUM && now <= poll.now + POLL_WINDOW
    ensures Stocked(TimerStep(s, poll).0)
    ensures var o := TimerStep(s, poll).1;
            var d := EfData([], [], AnswerFields(poll, o.ver, supplies.bloom));
            var m := MessageOf(NumberOf(o.ver), SettleLeap(AnswerHeader(o.header, o.ver, supplies)), d);
            var (next, outcome) := IncomingStep(TimerStep(s, poll).0, m, now);
            && outcome == Accepted && next.request == None && next.reach % 2 == 1
            && next.protocol == (match FallBack(s)
                                 case UpgradingToV5(_) => UpgradedToV5
                                 case UpgradedToV5 => OnlyV5
                                 case p => p)
  {
    hide TimerStep, AnswerFields, FallBack;
    PlainSent(s, poll);
  }

  /** The server sends the time for such a poll. */
  lemma PollServed(h: Header, poll: Poll, ver: Version, ks: K.KeySet, siv: K.Siv, c: S.Config, slots: R.Slots, hash: R.Hash,
                   a: S.Arrival)
    requires N.ClientHeader(h, ver) && WellRead(PollFields(poll, ver), ver) && a.message == PlainPacket(h, PollFields(poll, ver), ver)
    requires forall i :: 0 <= i < |PollFields(poll, ver)| ==> N.UsualSized(UntrustedSizes(PollFields(poll, ver), ver)[i])
    requires K.ProperSiv(siv) && Z.Tight(siv) && S.ProperSupplies(a.supplies)
    requires S.ValidConfig(c) && NumberOf(ver) in c.acceptedVersions && c.requireNts.None?
    requires S.Welcome(c, slots, hash, a) && |a.message| <= a.buffer && |a.message| <= 0xFFFF
    ensures !S.Panics(c, ks, siv, slots, hash, a)
    ensures var out := S.Handle(c, ks, siv, slots, hash, a).0;
            && out.registration.response == S.ProvideTime && out.sent.Some?
            && out.sent == S.ReplyBytes(TimeFor(h, poll, ver, |a.message|), ks, siv, a.supplies)
  {
    hide ReadPacket, S.Handle, S.Welcome, S.Panics, S.ReplyBytes, S.CanSend, WellRead, PlainPacket, K.ProperSiv, Z.Tight, Z.Usual;
    hide PollFields, S.ProperSupplies, N.UsualSized;
    PollRead(h, poll, ver, ks, siv);
    PlainUsual(h, PollFields(poll, ver), ver);
    S.PanicsIff(c, ks, siv, slots, hash, a);
    S.UsualCanSend(S.ProvideTime, ks, siv, a);
    S.GivenTimeIff(c, ks, siv, slots, hash, a);
    S.SentIff(c, ks, siv, slots, hash, a);
  }

  /**
   A whole exchange without NTS. The client's timer sends a poll; a server that lets the client in and does not
   require NTS sends the time back; and the client accepts what it reads. A version 4 poll that asks for version 5
   is told that the server has it, and the client polls in version 5 from then on.
   */
  lemma PlainExchangeCompletes(s: Source, poll: Poll, now: int, ks: K.KeySet, siv: K.Siv,
                               c: S.Config, slots: R.Slots, hash: R.Hash, ip: I.IpAddr, at: R.Instant,
                               buffer: nat, supplies: S.Supplies)
    requires s.cookies.None? && Stocked(s) && TimerStep(s, poll).1.Sent? && GoodOffset(poll)
    requires K.ProperSiv(siv) && Z.Tight(siv) && S.ProperSupplies(supplies)
    requires S.ValidConfig(c) && NumberOf(TimerStep(s, poll).1.ver) in c.acceptedVersions && c.requireNts.None?
    requires 1 <= supplies.snapshot.stratum <= MAX_STRATUM && now <= poll.now + POLL_WINDOW
    requires var message := PlainPoll(s, poll);
             S.Welcome(c, slots, hash, S.Arrival(ip, message, at, buffer, supplies)) && |message| <= buffer
    ensures Stocked(TimerStep(s, poll).0)
    ensures var a := S.Arrival(ip, PlainPoll(s, poll), at, buffer, supplies);
            && !S.Panics(c, ks, siv, slots, hash, a)
            && Completes(s, poll, S.Handle(c, ks, siv, slots, hash, a).0, now)
  {
    hide TimerStep, WellRead, PlainPacket, S.Handle, S.Welcome, S.Panics, S.ReplyBytes, K.ProperSiv, Z.Tight, N.UsualSized;
    hide PollFields, AnswerFields, ReadWith, SettleLeap, IncomingStep, FallBack, NoKeys, N.ClientHeader, AnswerHeader;
    var o := TimerStep(s, poll).1;
    var a := S.Arrival(ip, PlainPoll(s, poll), at, buffer, supplies);
    PlainSent(s, poll);
    PollWell(poll, o.ver);
    AnswerWell(poll, o.ver, supplies.bloom);
    var answer := AnswerHeader(o.header, o.ver, supplies);
    SameLength(o.header, answer, poll, o.ver, supplies.bloom);
    PollServed(o.header, poll, o.ver, ks, siv, c, slots, hash, a);
    AnswerBytes(o.header, poll, o.ver, |a.message|, ks, siv, supplies);
    AnswerSuits(o.header, o.ver, supplies);
    AnswerRead(answer, poll, o.ver, supplies.bloom);
    ClientAccepts(s, poll, now, supplies);
  }

  lemma AnswerSuits(h: Header, ver: Version, supplies: S.Supplies)
    requires N.ClientHeader(h, ver)
    ensures Suits(AnswerHeader(h, ver, supplies), NumberOf(ver))
  {
  }

  /** And from the answer the client measures the true delay, and an offset that is wrong by at most half of it. */
  lemma PlainExchangeMeasures(s: Source, poll: Poll, now: int, ks: K.KeySet, siv: K.Siv,
                              c: S.Config, slots: R.Slots, hash: R.Hash, a: S.Arrival, f: M.Flight, id: M.ClockId)
    requires s.cookies.None? && Stocked(s) && TimerStep(s, poll).1.Sent? && Stocked(TimerStep(s, poll).0)
    requires S.ValidConfig(c) && !S.Panics(c, ks, siv, slots, hash, a)
    requires Completes(s, poll, S.Handle(c, ks, siv, slots, hash, a).0, now)
    requires M.WithinLimits(f)
    ensures var p := ReadWith(S.Handle(c, ks, siv, slots, hash, a).0.sent.value, NoKeys()).packet;
            T.Clocked(a.supplies, f, p.version) ==>
              M.Accurate(M.Result(T.TimesOf(p.header, C.Shown(f.t), C.Shown(f.t + f.d1 + f.w + f.d2)), id), f)
  {
    hide S.Handle, S.Panics, ReadWith, T.Clocked, T.TimesOf, M.WithinLimits, M.Accurate, M.Result, TimerStep, IncomingStep, NoKeys;
    var p := ReadWith(S.Handle(c, ks, siv, slots, hash, a).0.sent.value, NoKeys()).packet;
    if T.Clocked(a.supplies, f, p.version) {
      T.AnswerMeasures(c, ks, siv, slots, hash, a, f, id, NoKeys());
    }
  }
}
