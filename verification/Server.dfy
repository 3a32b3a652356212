/** Rate limiting by a cache of the last visitor of each slot. */
module RateLimits {
  import opened Bytes
  import opened IpFilters

  /** Times of a monotonic clock. */
  type Instant = nat

  datatype Visit = Visit(ip: IpAddr, at: Instant)
  type Slots = seq<Option<Visit>>

  /** The hash is chosen at random when the cache is made. */
  type Hash = IpAddr -> nat

  function Slot(hash: Hash, size: nat, ip: IpAddr): (i: nat)
    requires size > 0
    ensures i < size
  {
    hash(ip) % size
  }

  /** Time passed; none when the clock seems to go backwards. */
  function SinceThen(now: Instant, before: Instant): nat {
    if now < before then 0 else now - before
  }

  function Remember(slots: Slots, hash: Hash, v: Visit): Slots {
    if slots == [] then [] else slots[Slot(hash, |slots|, v.ip) := Some(v)]
  }

  predicate Admits(slots: Slots, hash: Hash, v: Visit, cutoff: nat) {
    slots == [] ||
    match slots[Slot(hash, |slots|, v.ip)]
    case None => true
    case Some(last) => last.ip == v.ip ==> SinceThen(v.at, last.at) >= cutoff
  }

  class TimestampedCache {
    const elements: array<Option<Visit>>
    const hash: Hash

    constructor (size: nat, hash: Hash)
      ensures fresh(elements) && this.hash == hash && elements[..] == Empty(size)
    {
      this.hash := hash;
      elements := new Option<Visit>[size](_ => None);
    }

    method IsAllowed(ip: IpAddr, now: Instant, cutoff: nat) returns (ok: bool)
      modifies elements
      ensures ok <==> Admits(old(elements[..]), hash, Visit(ip, now), cutoff)
      ensures elements[..] == Remember(old(elements[..]), hash, Visit(ip, now))
    {
      if elements.Length == 0 {
        return true;
      }
      var index := Slot(hash, elements.Length, ip);
      var occupant := elements[index];
      elements[index] := Some(Visit(ip, now));
      if occupant.Some? && occupant.value.ip == ip {
        return SinceThen(now, occupant.value.at) >= cutoff;
      }
      return true;
    }
  }

  function Empty(size: nat): Slots {
    seq(size, _ => None)
  }

  /* ---- Runs ---- */

  function After(size: nat, hash: Hash, vs: seq<Visit>): (slots: Slots)
    ensures |slots| == size
  {
    if vs == [] then Empty(size) else Remember(After(size, hash, vs[..|vs| - 1]), hash, vs[|vs| - 1])
  }

  /** The visit `j` is the last one so far to the slot of `ip`. */
  predicate LastTo(size: nat, hash: Hash, vs: seq<Visit>, ip: IpAddr, j: int)
    requires size > 0
  {
    && 0 <= j < |vs|
    && Slot(hash, size, vs[j].ip) == Slot(hash, size, ip)
    && forall k :: j < k < |vs| ==> Slot(hash, size, vs[k].ip) != Slot(hash, size, ip)
  }

  lemma {:induction false} SlotHolds(size: nat, hash: Hash, vs: seq<Visit>, ip: IpAddr, j: int)
    requires size > 0
    ensures LastTo(size, hash, vs, ip, j) ==> After(size, hash, vs)[Slot(hash, size, ip)] == Some(vs[j])
    ensures After(size, hash, vs)[Slot(hash, size, ip)].Some? ==> exists i :: LastTo(size, hash, vs, ip, i)
    decreases |vs|
  {
    hide Slot;
    if vs != [] {
      var init, last := vs[..|vs| - 1], vs[|vs| - 1];
      SlotHolds(size, hash, init, ip, j);
      if Slot(hash, size, last.ip) == Slot(hash, size, ip) {
        assert LastTo(size, hash, vs, ip, |vs| - 1);
      } else {
        if LastTo(size, hash, vs, ip, j) {
          assert LastTo(size, hash, init, ip, j);
        }
        if After(size, hash, init)[Slot(hash, size, ip)].Some? {
          var i :| LastTo(size, hash, init, ip, i);
          assert LastTo(size, hash, vs, ip, i);
        }
      }
    }
  }

  /**
   After any visits, a visitor is turned away exactly when the last visit to its slot was its own and too
   recent. In particular nobody is turned away because of other visitors.
   */
  lemma RefusedIff(size: nat, hash: Hash, vs: seq<Visit>, v: Visit, cutoff: nat)
    ensures !Admits(After(size, hash, vs), hash, v, cutoff) <==>
            size > 0 && exists j :: LastTo(size, hash, vs, v.ip, j) && vs[j].ip == v.ip && SinceThen(v.at, vs[j].at) < cutoff
  {
    hide Slot, After;
    if size > 0 {
      forall j | LastTo(size, hash, vs, v.ip, j)
        ensures After(size, hash, vs)[Slot(hash, size, v.ip)] == Some(vs[j])
      {
        SlotHolds(size, hash, vs, v.ip, j);
      }
      SlotHolds(size, hash, vs, v.ip, 0);
    }
  }
}

/** What the server does with a packet, and how it counts it. */
module Servers {
  import opened Bytes
  import opened Protocol
  import opened Headers
  import opened CookieStashes
  import E = ExtensionFields
  import C = EncryptedFields
  import opened IpFilters
  import opened RateLimits
  import K = KeySets
  import opened Packets
  import opened Responses
  import opened FieldWriter
  import Z = ResponseSizes
  import N = ResponseNeeds

  datatype FilterAction = IgnoreThem | DenyThem
  datatype Response = NtsNak | Deny | Ignore | ProvideTime
  datatype Reason = RateLimit | ParseError | InvalidCrypto | InternalError | Policy

  function AsResponse(a: FilterAction): Response {
    if a == IgnoreThem then Ignore else Deny
  }

  datatype FilterList = FilterList(filter: seq<IpSubnet>, action: FilterAction)

  datatype Config = Config(
    denylist: FilterList, allowlist: FilterList, cutoff: nat, requireNts: Option<FilterAction>,
    acceptedVersions: set<NtpVersion>)

  predicate ValidConfig(c: Config) {
    && (forall i :: 0 <= i < |c.denylist.filter| ==> ValidSubnet(c.denylist.filter[i]))
    && (forall i :: 0 <= i < |c.allowlist.filter| ==> ValidSubnet(c.allowlist.filter[i]))
  }

  /** One call to the statistics. */
  datatype Registration = Registration(version: nat, nts: bool, reason: Reason, response: Response)

  /** A response: how it is built, for whose cookie if it is sealed, and the size it is padded to. */
  datatype Reply = Reply(builder: Builder, request: Packet, cookie: Option<K.Cookie>, size: Option<nat>)

  /** The packet is dropped with one registration, or answered; the last is code that must not be reached. */
  datatype Verdict =
    | Drop(registration: Registration)
    | Send(action: Response, reason: Reason, nts: bool, reply: Reply)
    | Unreachable

  /** What a response takes from outside: the state of the server, the clock, a nonce, nonces for new cookies, and
      the Bloom filter. */
  datatype Supplies = Supplies(snapshot: Snapshot, readings: Readings, nonce: Bytes, cookieNonces: nat -> Bytes, bloom: Bytes)

  /** A packet that arrives, and the length of the buffer for its response. */
  datatype Arrival = Arrival(ip: IpAddr, message: Bytes, at: Instant, buffer: nat, supplies: Supplies)

  /** Making a cookie takes the primary key. */
  predicate Usable(ks: K.KeySet) {
    ks.primary < |ks.keys|
  }

  /* ---- As functions ---- */

  datatype Intended = Intended(response: Response, reason: Reason, slots: Slots)

  function IntendedAction(c: Config, slots: Slots, hash: Hash, a: Arrival): Intended
    requires ValidConfig(c)
  {
    var v := Visit(a.ip, a.at);
    if AnySubnetContains(c.denylist.filter, a.ip) then Intended(AsResponse(c.denylist.action), Policy, slots)
    else if !AnySubnetContains(c.allowlist.filter, a.ip) then Intended(AsResponse(c.allowlist.action), Policy, slots)
    else if !Admits(slots, hash, v, c.cutoff) then Intended(Ignore, RateLimit, Remember(slots, hash, v))
    else Intended(ProvideTime, Policy, Remember(slots, hash, v))
  }

  function Build(b: Builder, p: Packet, cookie: Option<K.Cookie>, size: Option<nat>): Option<Reply> {
    if Builds(b, p.version) then Some(Reply(b, p, cookie, size)) else None
  }

  function ReplyFor(action: Response, p: Packet, cookie: Option<K.Cookie>, length: nat): Option<Reply> {
    match action
    case NtsNak => Build(NakReply, p, None, None)
    case Deny => if cookie.Some? then Build(NtsDenyReply, p, cookie, None) else Build(DenyReply, p, None, None)
    case ProvideTime =>
      if cookie.Some? then Build(NtsTimeReply, p, cookie, Some(length)) else Build(TimeReply, p, None, Some(length))
    case Ignore => None
  }

  /** The part behind parsing. */
  function Answer(c: Config, action: Response, reason: Reason, p: Packet, cookie: Option<K.Cookie>, length: nat): Verdict {
    if p.version !in c.acceptedVersions then Drop(Registration(VersionNumber(p.version), false, Policy, Ignore))
    else
      var nts := cookie.Some? || action == NtsNak;
      if !nts && c.requireNts == Some(IgnoreThem) then Drop(Registration(VersionNumber(p.version), nts, Policy, Ignore))
      else
        var denied := !nts && c.requireNts.Some?;
        var action, reason := if denied then Deny else action, if denied then Policy else reason;
        match ReplyFor(action, p, cookie, length)
        case None => Unreachable
        case Some(r) => Send(action, reason, nts, r)
  }

  function Judge(c: Config, intended: Response, reason: Reason, message: Bytes, parse: Parse<K.Cookie>): Verdict {
    var malformed := Registration(VersionBits(message), false, ParseError, Ignore);
    if intended == Ignore then Drop(Registration(VersionBits(message), false, reason, Ignore))
    else
      match parse
      case Parsed(p, cookie) =>
        if ModeOf(p.header) == Client then Answer(c, intended, reason, p, cookie, |message|) else Drop(malformed)
      case Undecryptable(p) =>
        if intended == Deny then Answer(c, Deny, reason, p, None, |message|)
        else Answer(c, NtsNak, InvalidCrypto, p, None, |message|)
      case Malformed => Drop(malformed)
  }

  /** New cookies hold the keys of the session that the request came from. */
  function DrawsFor(reply: Reply, ks: K.KeySet, siv: K.Siv, s: Supplies): Draws {
    var mint := match reply.cookie
      case None => (_: nat) => []
      case Some(c) => if Usable(ks) then (i: nat) => K.EncodeCookie(ks, siv, c, s.cookieNonces(i)) else (_: nat) => [];
    var p := reply.request;
    Draws(Write(ResponseHeader(reply.builder, p.version, p.header, s.snapshot, s.readings), p.version), s.nonce, mint, s.bloom)
  }

  /** The cipher under which a reply is sealed: that of the key in the cookie, if there is one. */
  function SealedUnder(reply: Reply, siv: K.Siv): Option<C.Cipher> {
    match reply.cookie
    case None => None
    case Some(c) => Some(siv(c.s2c))
  }

  function ReplyBytes(reply: Reply, ks: K.KeySet, siv: K.Siv, s: Supplies): Option<Bytes> {
    Wire(reply.builder, reply.request.version, reply.request.efdata, DrawsFor(reply, ks, siv, s),
         SealedUnder(reply, siv), reply.size)
  }

  predicate Fits(bytes: Option<Bytes>, buffer: nat) {
    bytes.Some? && |bytes.value| <= buffer
  }

  /** What is registered for a packet, and the bytes that are sent. */
  datatype Outcome = Outcome(registration: Registration, sent: Option<Bytes>)

  /** One of the first eight fields asks for a cookie. */
  predicate AsksEarly(fs: seq<E.ExtField>) {
    exists i :: 0 <= i < |fs| && i < MAX_COOKIES && Asks(fs[i])
  }

  /** A cookie is made for each of them, whether there is room for it or not; without a primary key that is a panic. */
  predicate PanicsOn(v: Verdict, ks: K.KeySet) {
    v.Send? && v.reply.builder == NtsTimeReply && AsksEarly(Looked(v.reply.request.efdata)) && !Usable(ks)
  }

  predicate Panics(c: Config, ks: K.KeySet, siv: K.Siv, slots: Slots, hash: Hash, a: Arrival)
    requires ValidConfig(c)
  {
    var i := IntendedAction(c, slots, hash, a);
    PanicsOn(Judge(c, i.response, i.reason, a.message, ReadPacket(a.message, ks, siv)), ks)
  }

  /** A response that cannot be written to the buffer is counted as an error and not sent. */
  function Conclude(v: Verdict, ks: K.KeySet, siv: K.Siv, a: Arrival): Outcome
    requires !v.Unreachable? && !PanicsOn(v, ks)
  {
    match v
    case Drop(r) => Outcome(r, None)
    case Send(action, reason, nts, reply) =>
      var version := VersionNumber(reply.request.version);
      var bytes := ReplyBytes(reply, ks, siv, a.supplies);
      if Fits(bytes, a.buffer) then Outcome(Registration(version, nts, reason, action), bytes)
      else Outcome(Registration(version, nts, InternalError, Ignore), None)
  }

  /** The code that must not be reached is not: no cookie and nothing undecryptable in version 3. */
  lemma NeverUnreachable(c: Config, ks: K.KeySet, siv: K.Siv, intended: Response, reason: Reason, message: Bytes)
    requires intended != NtsNak
    ensures !Judge(c, intended, reason, message, ReadPacket(message, ks, siv)).Unreachable?
  {
    hide ReadPacket, Vouched;
    PacketVouches(message, ks, siv);
  }

  function Handle(c: Config, ks: K.KeySet, siv: K.Siv, slots: Slots, hash: Hash, a: Arrival): (r: (Outcome, Slots))
    requires ValidConfig(c) && !Panics(c, ks, siv, slots, hash, a)
  {
    var i := IntendedAction(c, slots, hash, a);
    NeverUnreachable(c, ks, siv, i.response, i.reason, a.message);
    (Conclude(Judge(c, i.response, i.reason, a.message, ReadPacket(a.message, ks, siv)), ks, siv, a), i.slots)
  }

  /* ---- Counting ---- */

  datatype Stats = Stats(
    received: nat, accepted: nat, denied: nat, ignored: nat, rateLimited: nat, ntsNak: nat,
    ntsReceived: nat, ntsAccepted: nat, ntsDenied: nat, ntsRateLimited: nat)

  const NO_STATS := Stats(0, 0, 0, 0, 0, 0, 0, 0, 0, 0)

  function CountKind(s: Stats, r: Registration): Stats {
    match r.response
    case ProvideTime => s.(accepted := s.accepted + 1)
    case Ignore => if r.reason == RateLimit then s.(rateLimited := s.rateLimited + 1) else s.(ignored := s.ignored + 1)
    case Deny => s.(denied := s.denied + 1)
    case NtsNak => s.(ntsNak := s.ntsNak + 1)
  }

  function CountNts(s: Stats, r: Registration): Stats {
    if !r.nts then s
    else
      var n := s.(ntsReceived := s.ntsReceived + 1);
      match r.response
      case ProvideTime => n.(ntsAccepted := n.ntsAccepted + 1)
      case Deny => n.(ntsDenied := n.ntsDenied + 1)
      case Ignore => if r.reason == RateLimit then n.(ntsRateLimited := n.ntsRateLimited + 1) else n
      case NtsNak => n
  }

  function Register(s: Stats, r: Registration): Stats {
    CountNts(CountKind(s.(received := s.received + 1), r), r)
  }

  class ServerStats {
    var received: nat
    var accepted: nat
    var denied: nat
    var ignored: nat
    var rateLimited: nat
    var ntsNak: nat
    var ntsReceived: nat
    var ntsAccepted: nat
    var ntsDenied: nat
    var ntsRateLimited: nat

    ghost function State(): Stats
      reads this
    {
      Stats(received, accepted, denied, ignored, rateLimited, ntsNak, ntsReceived, ntsAccepted, ntsDenied, ntsRateLimited)
    }

    constructor ()
      ensures State() == NO_STATS
    {
      received, accepted, denied, ignored, rateLimited := 0, 0, 0, 0, 0;
      ntsNak, ntsReceived, ntsAccepted, ntsDenied, ntsRateLimited := 0, 0, 0, 0, 0;
    }

    method Count(r: Registration)
      modifies this
      ensures State() == Register(old(State()), r)
    {
      received := received + 1;
      match (r.response, r.reason) {
        case (ProvideTime, _) => accepted := accepted + 1;
        case (Ignore, RateLimit) => rateLimited := rateLimited + 1;
        case (Ignore, _) => ignored := ignored + 1;
        case (Deny, _) => denied := denied + 1;
        case (NtsNak, _) => ntsNak := ntsNak + 1;
      }
      if r.nts {
        ntsReceived := ntsReceived + 1;
        match (r.response, r.reason) {
          case (ProvideTime, _) => ntsAccepted := ntsAccepted + 1;
          case (Deny, _) => ntsDenied := ntsDenied + 1;
          case (Ignore, RateLimit) => ntsRateLimited := ntsRateLimited + 1;
          case _ =>
        }
      }
    }
  }

  /* ---- As the program has it ---- */

  class Server {
    const config: Config
    const siv: K.Siv
    const denyfilter: IpFilter
    const allowfilter: IpFilter
    const cache: TimestampedCache
    var keyset: K.KeySet

    ghost predicate Valid()
      reads this, denyfilter, allowfilter, denyfilter.ipv4Filter, denyfilter.ipv6Filter,
            allowfilter.ipv4Filter, allowfilter.ipv6Filter
    {
      && ValidConfig(config)
      && denyfilter.FilterFor(config.denylist.filter)
      && allowfilter.FilterFor(config.allowlist.filter)
    }

    constructor (config: Config, size: nat, hash: Hash, keyset: K.KeySet, siv: K.Siv)
      requires ValidConfig(config)
      ensures Valid() && this.config == config && this.siv == siv && this.keyset == keyset
      ensures fresh(cache) && fresh(cache.elements) && cache.hash == hash && cache.elements[..] == Empty(size)
    {
      hide ValidSubnet, Empty, IpFilter.FilterFor;
      this.config, this.siv, this.keyset := config, siv, keyset;
      denyfilter := new IpFilter(config.denylist.filter);
      allowfilter := new IpFilter(config.allowlist.filter);
      cache := new TimestampedCache(size, hash);
    }

    method Intend(a: Arrival) returns (response: Response, reason: Reason)
      requires Valid()
      modifies cache.elements
      ensures Valid()
      ensures Intended(response, reason, cache.elements[..]) == IntendedAction(config, old(cache.elements[..]), cache.hash, a)
    {
      var inDeny := denyfilter.IsIn(a.ip, config.denylist.filter);
      if inDeny {
        return AsResponse(config.denylist.action), Policy;
      }
      var inAllow := allowfilter.IsIn(a.ip, config.allowlist.filter);
      if !inAllow {
        return AsResponse(config.allowlist.action), Policy;
      }
      var ok := cache.IsAllowed(a.ip, a.at, config.cutoff);
      if !ok {
        return Ignore, RateLimit;
      }
      return ProvideTime, Policy;
    }

    /** Behind parsing: a packet that is dropped is registered here. */
    method Respond(intended: Response, why: Reason, p: Packet, cookie: Option<K.Cookie>, length: nat, stats: ServerStats)
      returns (v: Verdict)
      modifies stats
      ensures v == Answer(config, intended, why, p, cookie, length)
      ensures stats.State() == Dropped(old(stats.State()), v)
    {
      hide Register;
      var action, reason := intended, why;
      var version := VersionNumber(p.version);
      if p.version !in config.acceptedVersions {
        var r := Registration(version, false, Policy, Ignore);
        stats.Count(r);
        return Drop(r);
      }
      var nts := cookie.Some? || action == NtsNak;
      if !nts && config.requireNts.Some? {
        if config.requireNts.value == IgnoreThem {
          var r := Registration(version, nts, Policy, Ignore);
          stats.Count(r);
          return Drop(r);
        }
        action := Deny;
        reason := Policy;
      }
      var reply := ReplyFor(action, p, cookie, length);
      return match reply case None => Unreachable case Some(r) => Send(action, reason, nts, r);
    }

    method HandleInner(intended: Response, why: Reason, message: Bytes, stats: ServerStats) returns (v: Verdict)
      modifies stats
      ensures v == Judge(config, intended, why, message, ReadPacket(message, keyset, siv))
      ensures stats.State() == Dropped(old(stats.State()), v)
    {
      hide Register, ReadPacket, Answer;
      if intended == Ignore {
        var r := Registration(VersionBits(message), false, why, intended);
        stats.Count(r);
        return Drop(r);
      }
      match ReadPacket(message, keyset, siv) {
        case Parsed(p, cookie) =>
          if ModeOf(p.header) == Client {
            v := Respond(intended, why, p, cookie, |message|, stats);
            return;
          }
        case Undecryptable(p) =>
          var action, reason := intended, why;
          if action != Deny {
            action := NtsNak;
            reason := InvalidCrypto;
          }
          v := Respond(action, reason, p, None, |message|, stats);
          return;
        case Malformed =>
      }
      var r := Registration(VersionBits(message), false, ParseError, Ignore);
      stats.Count(r);
      return Drop(r);
    }

    /** Every packet is registered once, for what is done with it, and its response is written to the buffer. */
    method HandlePacket(a: Arrival, w: Cursor, stats: ServerStats) returns (sent: bool)
      requires Valid() && w.Valid() && w.pos == 0 && w.buffer.Length == a.buffer
      requires K.ProperSiv(siv) && ProperSupplies(a.supplies)
      requires !Panics(config, keyset, siv, cache.elements[..], cache.hash, a)
      modifies cache.elements, stats, w`pos, w.buffer
      ensures Valid() && w.Valid()
      ensures var (outcome, slots) := Handle(config, keyset, siv, old(cache.elements[..]), cache.hash, a);
              && (sent <==> outcome.sent.Some?) && (sent ==> w.Written() == outcome.sent.value)
              && cache.elements[..] == slots
              && stats.State() == Register(old(stats.State()), outcome.registration)
    {
      hide Register, ReadPacket, Judge, IntendedAction, Wire, K.ProperSiv, DrawsFor, SealedUnder, C.Tagged;
      var action, reason := Intend(a);
      IntendedKinds(config, old(cache.elements[..]), cache.hash, a);
      NeverUnreachable(config, keyset, siv, action, reason, a.message);
      var v := HandleInner(action, reason, a.message, stats);
      if v.Drop? {
        return false;
      }
      ReplyReady(config, action, reason, keyset, siv, a);
      var version, r := VersionNumber(v.reply.request.version), v.reply;
      var ok := WriteResponse(w, r.builder, r.request.version, r.request.efdata, DrawsFor(r, keyset, siv, a.supplies),
                              SealedUnder(r, siv), r.size);
      if ok {
        stats.Count(Registration(version, v.nts, v.reason, v.action));
        return true;
      }
      stats.Count(Registration(version, v.nts, InternalError, Ignore));
      return false;
    }
  }

  function Dropped(s: Stats, v: Verdict): Stats {
    if v.Drop? then Register(s, v.registration) else s
  }

  lemma IntendedKinds(c: Config, slots: Slots, hash: Hash, a: Arrival)
    requires ValidConfig(c)
    ensures IntendedAction(c, slots, hash, a).response != NtsNak
  {
  }

  /** The reply that is decided on can be written without a panic. */
  lemma ReplyReady(c: Config, intended: Response, reason: Reason, ks: K.KeySet, siv: K.Siv, a: Arrival)
    requires K.ProperSiv(siv) && ProperSupplies(a.supplies)
    requires Judge(c, intended, reason, a.message, ReadPacket(a.message, ks, siv)).Send?
    ensures var r := Judge(c, intended, reason, a.message, ReadPacket(a.message, ks, siv)).reply;
            Paddable(r.builder, r.request.version, r.request.efdata, DrawsFor(r, ks, siv, a.supplies), SealedUnder(r, siv), r.size)
  {
    hide ReadPacket, Vouched, DrawsFor, SealedUnder, K.ProperSiv, Z.Unpadded, ResponseFields, C.EfEncodable, C.Tagged;
    var parse := ReadPacket(a.message, ks, siv);
    var r := Judge(c, intended, reason, a.message, parse).reply;
    PacketVouches(a.message, ks, siv);
    if CookieOf(parse).Some? {
      VouchedProper(a.message, parse, ks, siv);
    }
    SuppliesProper(r, ks, siv, a.supplies);
    ReplyPaddable(r, a.message, ks, siv, DrawsFor(r, ks, siv, a.supplies), SealedUnder(r, siv));
  }

  lemma ReplyPaddable(r: Reply, message: Bytes, ks: K.KeySet, siv: K.Siv, draws: Draws, cipher: Option<C.Cipher>)
    requires !ReadPacket(message, ks, siv).Malformed? && r.request == ReadPacket(message, ks, siv).packet
    requires r.size.Some? ==> r.size.value == |message|
    requires ProperDraws(draws) && (cipher.Some? ==> C.Tagged(cipher.value))
    ensures Paddable(r.builder, r.request.version, r.request.efdata, draws, cipher, r.size)
  {
    hide ReadPacket, ResponseFields, C.EfEncodable, C.Tagged, Packed;
    var d := ResponseFields(r.builder, r.request.version, r.request.efdata, draws);
    if r.request.version == Ntp5 && r.size.Some? && C.EfEncodable(d, E.V5) && (C.NeedsCipher(d) ==> cipher.Some?) {
      Z.PaddingHasRoom(r.builder, message, ks, siv, draws, cipher);
    }
  }

  /* ---- Who is given what ---- */

  /** Not on the deny list, on the allow list, and not too early. */
  predicate Welcome(c: Config, slots: Slots, hash: Hash, a: Arrival)
    requires ValidConfig(c)
  {
    && !AnySubnetContains(c.denylist.filter, a.ip)
    && AnySubnetContains(c.allowlist.filter, a.ip)
    && Admits(slots, hash, Visit(a.ip, a.at), c.cutoff)
  }

  predicate Refused(c: Config, ip: IpAddr)
    requires ValidConfig(c)
  {
    if AnySubnetContains(c.denylist.filter, ip) then c.denylist.action == DenyThem
    else !AnySubnetContains(c.allowlist.filter, ip) && c.allowlist.action == DenyThem
  }

  function CookieOf(parse: Parse<K.Cookie>): Option<K.Cookie> {
    if parse.Parsed? then parse.cookie else None
  }

  /** A request of an accepted version that can be answered. */
  predicate Answerable(c: Config, parse: Parse<K.Cookie>) {
    && !parse.Malformed?
    && (parse.Parsed? ==> ModeOf(parse.packet.header) == Client)
    && parse.packet.version in c.acceptedVersions
  }

  /** There is such a response, and it can be written to the buffer. */
  predicate CanSend(action: Response, parse: Parse<K.Cookie>, ks: K.KeySet, siv: K.Siv, a: Arrival)
    requires !parse.Malformed?
  {
    var reply := ReplyFor(action, parse.packet, CookieOf(parse), |a.message|);
    reply.Some? && Fits(ReplyBytes(reply.value, ks, siv, a.supplies), a.buffer)
  }

  /** With which key sets and on which packets the server panics: without a primary key, when a welcome client asks
      under a cookie that still decodes for another one, in one of the first eight fields. */
  lemma PanicsIff(c: Config, ks: K.KeySet, siv: K.Siv, slots: Slots, hash: Hash, a: Arrival)
    requires ValidConfig(c)
    ensures var parse := ReadPacket(a.message, ks, siv);
            Panics(c, ks, siv, slots, hash, a) <==>
            && !Usable(ks) && Welcome(c, slots, hash, a) && parse.Parsed? && Answerable(c, parse)
            && parse.cookie.Some? && AsksEarly(Looked(parse.packet.efdata))
  {
    hide ReadPacket, Vouched, AnySubnetContains, Admits, Remember, AsksEarly;
    PacketVouches(a.message, ks, siv);
  }

  lemma GivenTimeIff(c: Config, ks: K.KeySet, siv: K.Siv, slots: Slots, hash: Hash, a: Arrival)
    requires ValidConfig(c) && !Panics(c, ks, siv, slots, hash, a)
    ensures var parse := ReadPacket(a.message, ks, siv);
            Handle(c, ks, siv, slots, hash, a).0.registration.response == ProvideTime <==>
            && Welcome(c, slots, hash, a) && parse.Parsed? && Answerable(c, parse)
            && (c.requireNts.Some? ==> parse.cookie.Some?) && CanSend(ProvideTime, parse, ks, siv, a)
  {
    hide ReadPacket, Vouched, AnySubnetContains, Admits, Remember, ReplyBytes;
    PacketVouches(a.message, ks, siv);
  }

  lemma GivenNakIff(c: Config, ks: K.KeySet, siv: K.Siv, slots: Slots, hash: Hash, a: Arrival)
    requires ValidConfig(c) && !Panics(c, ks, siv, slots, hash, a)
    ensures var parse := ReadPacket(a.message, ks, siv);
            Handle(c, ks, siv, slots, hash, a).0.registration.response == NtsNak <==>
            && Welcome(c, slots, hash, a) && parse.Undecryptable? && Answerable(c, parse)
            && CanSend(NtsNak, parse, ks, siv, a)
  {
    hide ReadPacket, Vouched, AnySubnetContains, Admits, Remember, ReplyBytes;
    PacketVouches(a.message, ks, siv);
  }

  lemma DeniedIff(c: Config, ks: K.KeySet, siv: K.Siv, slots: Slots, hash: Hash, a: Arrival)
    requires ValidConfig(c) && !Panics(c, ks, siv, slots, hash, a)
    ensures var parse := ReadPacket(a.message, ks, siv);
            Handle(c, ks, siv, slots, hash, a).0.registration.response == Deny <==>
            && Answerable(c, parse) && CanSend(Deny, parse, ks, siv, a)
            && if Welcome(c, slots, hash, a)
               then parse.Parsed? && parse.cookie.None? && c.requireNts == Some(DenyThem)
               else Refused(c, a.ip) && (CookieOf(parse).Some? || c.requireNts != Some(IgnoreThem))
  {
    hide ReadPacket, Vouched, AnySubnetContains, Admits, Remember, ReplyBytes;
    PacketVouches(a.message, ks, siv);
    assert c.requireNts.Some? ==> c.requireNts.value == IgnoreThem || c.requireNts.value == DenyThem;
    assert c.denylist.action == IgnoreThem || c.denylist.action == DenyThem;
    assert c.allowlist.action == IgnoreThem || c.allowlist.action == DenyThem;
  }

  /** Exactly who is given the time, a refusal for broken encryption, or a denial. */
  lemma DecidedIff(c: Config, ks: K.KeySet, siv: K.Siv, slots: Slots, hash: Hash, a: Arrival)
    requires ValidConfig(c) && !Panics(c, ks, siv, slots, hash, a)
    ensures var parse := ReadPacket(a.message, ks, siv);
            var r := Handle(c, ks, siv, slots, hash, a).0.registration.response;
            && (r == ProvideTime <==>
                  && Welcome(c, slots, hash, a) && parse.Parsed? && Answerable(c, parse)
                  && (c.requireNts.Some? ==> parse.cookie.Some?) && CanSend(ProvideTime, parse, ks, siv, a))
            && (r == NtsNak <==>
                  && Welcome(c, slots, hash, a) && parse.Undecryptable? && Answerable(c, parse)
                  && CanSend(NtsNak, parse, ks, siv, a))
            && (r == Deny <==>
                  && Answerable(c, parse) && CanSend(Deny, parse, ks, siv, a)
                  && if Welcome(c, slots, hash, a)
                     then parse.Parsed? && parse.cookie.None? && c.requireNts == Some(DenyThem)
                     else Refused(c, a.ip) && (CookieOf(parse).Some? || c.requireNts != Some(IgnoreThem)))
  {
    hide ReadPacket, Handle, Welcome, Answerable, CanSend, Refused;
    GivenTimeIff(c, ks, siv, slots, hash, a);
    GivenNakIff(c, ks, siv, slots, hash, a);
    DeniedIff(c, ks, siv, slots, hash, a);
  }

  /** Something is sent exactly when something else than ignoring is registered; it is the response registered,
      sealed for whoever sent the cookie. */
  lemma SentIff(c: Config, ks: K.KeySet, siv: K.Siv, slots: Slots, hash: Hash, a: Arrival)
    requires ValidConfig(c) && !Panics(c, ks, siv, slots, hash, a)
    ensures var o := Handle(c, ks, siv, slots, hash, a).0;
            var parse := ReadPacket(a.message, ks, siv);
            && (o.sent.Some? <==> o.registration.response != Ignore)
            && (o.sent.Some? ==>
                  && !parse.Malformed?
                  && var reply := ReplyFor(o.registration.response, parse.packet, CookieOf(parse), |a.message|);
                  && reply.Some? && o.sent == ReplyBytes(reply.value, ks, siv, a.supplies) && |o.sent.value| <= a.buffer
                  && reply.value.cookie == (if o.registration.response == NtsNak then None else CookieOf(parse))
                  && (o.registration.nts <==> CookieOf(parse).Some? || o.registration.response == NtsNak))
  {
    hide ReadPacket, Vouched, AnySubnetContains, Admits, Remember, ReplyBytes;
    PacketVouches(a.message, ks, siv);
  }

  /**
   Where NTS is required, the time goes only to packets that carry a cookie of this server and, behind it, a
   field that opens under the key in that cookie, with the packet in front of it as associated data.
   */
  lemma TimeIsVouchedFor(c: Config, ks: K.KeySet, siv: K.Siv, slots: Slots, hash: Hash, a: Arrival)
    requires ValidConfig(c) && !Panics(c, ks, siv, slots, hash, a) && c.requireNts.Some?
    requires Handle(c, ks, siv, slots, hash, a).0.registration.response == ProvideTime
    ensures var parse := ReadPacket(a.message, ks, siv);
            && parse.Parsed? && parse.cookie.Some?
            && Vouched(a.message, parse.packet.efdata.authenticated, parse.cookie.value, ks, siv,
                       E.ExtVersion(parse.packet.version))
  {
    hide ReadPacket, Vouched, Handle, Answerable, Welcome, CanSend;
    DecidedIff(c, ks, siv, slots, hash, a);
    PacketVouches(a.message, ks, siv);
  }

  ghost predicate ProperSupplies(s: Supplies) {
    && |s.nonce| == C.NONCE_LENGTH && |s.bloom| == 512
    && forall i :: |s.cookieNonces(i)| == C.NONCE_LENGTH
  }

  /** The length of new cookies, which hold the keys of the cookie in the request. */
  function NewLength(cookie: Option<K.Cookie>): nat {
    if cookie.Some? then K.LengthFor(cookie.value) else 0
  }

  lemma MintLength(reply: Reply, ks: K.KeySet, siv: K.Siv, s: Supplies)
    requires Usable(ks) && K.ProperSiv(siv) && ProperSupplies(s)
    requires reply.cookie.Some? ==> K.ProperCookie(reply.cookie.value)
    ensures FreshOfLength(DrawsFor(reply, ks, siv, s).mint, NewLength(reply.cookie))
  {
    hide K.EncodeCookie, K.ProperSiv;
    if reply.cookie.Some? {
      forall i: nat
        ensures |DrawsFor(reply, ks, siv, s).mint(i)| == K.LengthFor(reply.cookie.value)
      {
        K.CookieLength(ks, siv, reply.cookie.value, s.cookieNonces(i));
      }
    }
  }

  lemma NoMint(reply: Reply, ks: K.KeySet, siv: K.Siv, s: Supplies)
    requires !Usable(ks)
    ensures FreshOfLength(DrawsFor(reply, ks, siv, s).mint, 0)
  {
  }

  /** Where no cookie is given, the length of cookies does not matter. */
  lemma SameRoom(b: Builder, length: nat, request: Packet, c: nat, padded: bool)
    requires b == NtsTimeReply ==> !AsksEarly(Looked(request.efdata))
    ensures N.Roomy(b, length, request, c, padded) <==> N.Roomy(b, length, request, 0, padded)
  {
    hide N.FieldsNeed, N.PlainNeed;
    if b == NtsTimeReply {
      NoneGiven(Looked(request.efdata), c);
      NoneGiven(Looked(request.efdata), 0);
    }
  }

  lemma NoneGiven(fs: seq<E.ExtField>, c: nat)
    requires !AsksEarly(fs)
    ensures Given(fs, c) == {}
  {
    forall i: nat | i < |fs| && i < MAX_COOKIES
      ensures !HasRoom(fs[i], c)
    {
      assert !Asks(fs[i]);
    }
  }

  /** With a buffer as long as the request, exactly when the response that is decided on can be sent. */
  lemma CanSendIff(action: Response, ks: K.KeySet, siv: K.Siv, a: Arrival)
    requires K.ProperSiv(siv) && ProperSupplies(a.supplies) && a.buffer == |a.message|
    requires !ReadPacket(a.message, ks, siv).Malformed?
    requires action != Ignore && (action == NtsNak ==> ReadPacket(a.message, ks, siv).Undecryptable?)
    requires var parse := ReadPacket(a.message, ks, siv);
             !Usable(ks) && action == ProvideTime && CookieOf(parse).Some? ==> !AsksEarly(Looked(parse.packet.efdata))
    ensures var parse := ReadPacket(a.message, ks, siv);
            var reply := ReplyFor(action, parse.packet, CookieOf(parse), |a.message|);
            && reply.Some?
            && (CanSend(action, parse, ks, siv, a) <==>
                N.Roomy(reply.value.builder, |a.message|, parse.packet, NewLength(CookieOf(parse)), action == ProvideTime))
  {
    hide ReadPacket, Vouched, Wire, K.ProperSiv, K.EncodeCookie, N.Roomy;
    PacketVouches(a.message, ks, siv);
    var parse := ReadPacket(a.message, ks, siv);
    var reply := ReplyFor(action, parse.packet, CookieOf(parse), |a.message|).value;
    if CookieOf(parse).Some? {
      VouchedProper(a.message, parse, ks, siv);
    }
    SuppliesProper(reply, ks, siv, a.supplies);
    var c := if Usable(ks) then NewLength(reply.cookie) else 0;
    assert FreshOfLength(DrawsFor(reply, ks, siv, a.supplies).mint, c) by {
      if Usable(ks) {
        MintLength(reply, ks, siv, a.supplies);
      } else {
        NoMint(reply, ks, siv, a.supplies);
      }
    }
    N.FitsIff(reply.builder, a.message, ks, siv, DrawsFor(reply, ks, siv, a.supplies), SealedUnder(reply, siv), reply.size.Some?, c);
    if !Usable(ks) {
      SameRoom(reply.builder, |a.message|, parse.packet, NewLength(reply.cookie), reply.size.Some?);
    }
  }

  /**
   For a request that keeps to the usual sizes, a buffer as long as the request is enough for whatever the
   server decides on, so nothing is lost for want of room.
   */
  lemma UsualCanSend(action: Response, ks: K.KeySet, siv: K.Siv, a: Arrival)
    requires K.ProperSiv(siv) && Z.Tight(siv) && ProperSupplies(a.supplies)
    requires |a.message| <= a.buffer && |a.message| <= 0xFFFF
    requires Z.UsualPacket(a.message, ReadPacket(a.message, ks, siv))
    requires action != Ignore && (action == NtsNak ==> ReadPacket(a.message, ks, siv).Undecryptable?)
    ensures CanSend(action, ReadPacket(a.message, ks, siv), ks, siv, a)
  {
    hide ReadPacket, Vouched, Wire, Z.Usual, Z.Tight, K.ProperSiv, K.EncodeCookie;
    PacketVouches(a.message, ks, siv);
    var parse := ReadPacket(a.message, ks, siv);
    var reply := ReplyFor(action, parse.packet, CookieOf(parse), |a.message|).value;
    if CookieOf(parse).Some? {
      VouchedProper(a.message, parse, ks, siv);
    }
    SuppliesProper(reply, ks, siv, a.supplies);
    Z.ResponseFits(reply.builder, a.message, ks, siv, DrawsFor(reply, ks, siv, a.supplies), SealedUnder(reply, siv), reply.size.Some?);
  }

  lemma VouchedProper(message: Bytes, parse: Parse<K.Cookie>, ks: K.KeySet, siv: K.Siv)
    requires parse.Parsed? && parse.cookie.Some?
    requires Vouched(message, parse.packet.efdata.authenticated, parse.cookie.value, ks, siv, E.ExtVersion(parse.packet.version))
    ensures K.ProperCookie(parse.cookie.value)
  {
    hide K.DecodeCookie, CookieBefore, AuthenticatedAt;
    var c, ver := parse.cookie.value, E.ExtVersion(parse.packet.version);
    var q, pos, cookie :| VouchedAt(message, q, pos, cookie, c, ks, siv, ver);
    K.DecodedProper(ks, siv, cookie);
  }

  lemma SuppliesProper(reply: Reply, ks: K.KeySet, siv: K.Siv, s: Supplies)
    requires K.ProperSiv(siv) && ProperSupplies(s)
    requires reply.cookie.Some? ==> K.ProperCookie(reply.cookie.value)
    ensures ProperDraws(DrawsFor(reply, ks, siv, s))
    ensures SealedUnder(reply, siv).Some? ==> C.Tagged(SealedUnder(reply, siv).value)
  {
    hide K.EncodeCookie;
    if reply.cookie.Some? {
      var c := reply.cookie.value;
      assert C.Opens(siv(c.s2c), siv(c.s2c));
      C.OpensTagged(siv(c.s2c), siv(c.s2c));
      forall i: nat
        ensures |DrawsFor(reply, ks, siv, s).mint(i)| <= E.MAX_BODY
      {
        if Usable(ks) {
          K.CookieLength(ks, siv, c, s.cookieNonces(i));
        }
      }
    }
  }

  /* ---- Runs ---- */

  /** The keys can be replaced between packets. */
  datatype Turn = Turn(keyset: K.KeySet, arrival: Arrival)

  datatype Book = Book(slots: Slots, stats: Stats, sent: nat)

  function Turned(c: Config, siv: K.Siv, hash: Hash, b: Book, turn: Turn): Book
    requires ValidConfig(c) && !Panics(c, turn.keyset, siv, b.slots, hash, turn.arrival)
  {
    var (o, slots) := Handle(c, turn.keyset, siv, b.slots, hash, turn.arrival);
    Book(slots, Register(b.stats, o.registration), b.sent + if o.sent.Some? then 1 else 0)
  }

  /** No packet of the run makes the server panic. */
  predicate Unbroken(c: Config, siv: K.Siv, size: nat, hash: Hash, turns: seq<Turn>)
    requires ValidConfig(c)
    decreases |turns|, 0
  {
    turns != [] ==>
      var init, last := turns[..|turns| - 1], turns[|turns| - 1];
      && Unbroken(c, siv, size, hash, init)
      && !Panics(c, last.keyset, siv, Run(c, siv, size, hash, init).slots, hash, last.arrival)
  }

  function Run(c: Config, siv: K.Siv, size: nat, hash: Hash, turns: seq<Turn>): Book
    requires ValidConfig(c) && Unbroken(c, siv, size, hash, turns)
    decreases |turns|, 1
  {
    if turns == [] then Book(Empty(size), NO_STATS, 0)
    else Turned(c, siv, hash, Run(c, siv, size, hash, turns[..|turns| - 1]), turns[|turns| - 1])
  }

  predicate Balanced(s: Stats, sent: nat) {
    && s.received == s.accepted + s.denied + s.ignored + s.rateLimited + s.ntsNak
    && sent == s.accepted + s.denied + s.ntsNak
    && s.ntsAccepted <= s.accepted && s.ntsDenied <= s.denied && s.ntsRateLimited == 0
    && s.ntsAccepted + s.ntsDenied + s.ntsNak <= s.ntsReceived <= s.received
  }

  /**
   Over every run each packet is counted once, under one heading, and the responses sent are those counted
   as accepted, denied or NAK. A rate-limited packet is never read, so none of them counts as NTS.
   */
  lemma {:induction false} RunBalances(c: Config, siv: K.Siv, size: nat, hash: Hash, turns: seq<Turn>)
    requires ValidConfig(c) && Unbroken(c, siv, size, hash, turns)
    ensures var b := Run(c, siv, size, hash, turns);
            b.stats.received == |turns| && Balanced(b.stats, b.sent)
  {
    hide Turned, Balanced;
    if turns == [] {
      NothingBalances();
    } else {
      RunBalances(c, siv, size, hash, turns[..|turns| - 1]);
      TurnBalances(c, siv, hash, Run(c, siv, size, hash, turns[..|turns| - 1]), turns[|turns| - 1]);
    }
  }

  lemma TurnBalances(c: Config, siv: K.Siv, hash: Hash, b: Book, turn: Turn)
    requires ValidConfig(c) && !Panics(c, turn.keyset, siv, b.slots, hash, turn.arrival) && Balanced(b.stats, b.sent)
    ensures var r := Turned(c, siv, hash, b, turn);
            r.stats.received == b.stats.received + 1 && Balanced(r.stats, r.sent)
  {
    hide Handle, Balanced, Register, ReadPacket, ReplyBytes, ReplyFor;
    var o := Handle(c, turn.keyset, siv, b.slots, hash, turn.arrival).0;
    SentIff(c, turn.keyset, siv, b.slots, hash, turn.arrival);
    RateLimitedUnread(c, turn.keyset, siv, b.slots, hash, turn.arrival);
    RegisterBalances(b.stats, b.sent, o.registration, o.sent.Some?);
  }

  lemma NothingBalances()
    ensures Balanced(NO_STATS, 0)
  {
  }

  lemma RateLimitedUnread(c: Config, ks: K.KeySet, siv: K.Siv, slots: Slots, hash: Hash, a: Arrival)
    requires ValidConfig(c) && !Panics(c, ks, siv, slots, hash, a)
    ensures var r := Handle(c, ks, siv, slots, hash, a).0.registration;
            && (r.reason == RateLimit ==> !r.nts && r.response == Ignore)
            && (r.response == NtsNak ==> r.nts)
  {
    hide ReadPacket, Vouched, AnySubnetContains, Admits, Remember, ReplyBytes;
    PacketVouches(a.message, ks, siv);
  }

  lemma RegisterBalances(s: Stats, sent: nat, r: Registration, responds: bool)
    requires Balanced(s, sent) && (responds <==> r.response != Ignore)
    requires (r.reason == RateLimit ==> !r.nts && r.response == Ignore) && (r.response == NtsNak ==> r.nts)
    ensures Register(s, r).received == s.received + 1
    ensures Balanced(Register(s, r), sent + if responds then 1 else 0)
  {
  }
}
