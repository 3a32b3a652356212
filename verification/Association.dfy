/**
 A client association with one server: what a timer and an incoming packet do to its state.
 The random parts of a request, the clock and the interval that the clock algorithm wishes for
 are inputs.
 */
module Associations {
  import opened Bytes
  import opened Protocol
  import opened Headers
  import opened ExtensionFields
  import opened EncryptedFields
  import opened CookieStashes

  type I8 = x: int | -128 <= x <= 127

  const NEVER: I8 := 127
  const MAX_STRATUM := 16
  const STARTUP_TRIES_THRESHOLD := 3
  const AFTER_UPGRADE_TRIES_THRESHOLD := 2
  const POLL_WINDOW := 5
  const USIZE_MAX := 0xFFFF_FFFF_FFFF_FFFF
  const BUFFER_SIZE := 1024

  datatype Limits = Limits(min: I8, max: I8)

  /** Eight-bit addition of one, which wraps where overflow is not trapped. */
  function WrappingInc(x: I8): I8 {
    if x == 127 then -128 else x + 1
  }

  /** The next longer interval within the limits. */
  function IncPoll(x: I8, limits: Limits): I8 {
    Min(WrappingInc(x), limits.max)
  }

  /* ---- Reach: which of the last eight polls were answered ---- */

  function ReachPoll(reach: Byte): Byte {
    (2 * reach) % 256
  }

  function ReachReceived(reach: Byte): Byte {
    if reach % 2 == 0 then reach + 1 else reach
  }

  function TrailingZeros(x: nat, width: nat): (n: nat)
    ensures n <= width
  {
    if width == 0 || x % 2 == 1 then 0 else 1 + TrailingZeros(x / 2, width - 1)
  }

  function UnansweredPolls(reach: Byte): nat {
    TrailingZeros(reach, 8)
  }

  /* ---- Messages ---- */

  datatype KissCode = Rate | Deny | Rstr | Ntsn | OtherCode

  datatype RequestId = RequestId(origin: Bytes8, uid: Option<Bytes>)

  /** A packet from the server, as far as the association looks at it. */
  datatype Message = Message(
    version: NtpVersion, stratum: Byte, poll: I8, mode: Mode, code: KissCode, authNak: bool,
    upgrade: bool, origin: Bytes8, efdata: EfData)

  function CodeOf(id: Bytes4): KissCode {
    if id == KISS_RATE then Rate
    else if id == KISS_DENY then Deny
    else if id == KISS_RSTR then Rstr
    else if id == KISS_NTSN then Ntsn
    else OtherCode
  }

  /** An interval is one signed byte. */
  function PollByte(x: I8): Byte {
    if x < 0 then x + 256 else x
  }

  function PollOf(b: Byte): I8 {
    if b < 128 then b else b - 256
  }

  function MessageOf(v: NtpVersion, h: Header, d: EfData): Message {
    Message(v, h.stratum, PollOf(h.poll), ModeOf(h), if h.Old? then CodeOf(h.referenceId) else OtherCode,
            h.New? && h.authNak, h.Old? && h.reference == UPGRADE, OriginOf(h), d)
  }

  predicate IsKiss(m: Message) {
    m.stratum == 0
  }

  predicate IsKissRate(m: Message, own: I8) {
    IsKiss(m) && if m.version.Ntp5? then m.poll > own && m.poll != NEVER else m.code == Rate
  }

  predicate IsKissDeny(m: Message) {
    IsKiss(m) && if m.version.Ntp5? then m.poll == NEVER else m.code == Deny
  }

  predicate IsKissRstr(m: Message) {
    IsKiss(m) && !m.version.Ntp5? && m.code == Rstr
  }

  predicate IsKissNtsn(m: Message) {
    IsKiss(m) && if m.version.Ntp5? then m.authNak else m.code == Ntsn
  }

  predicate IsUpgrade(m: Message) {
    m.version.Ntp4? && m.upgrade
  }

  predicate CarriesUid(f: ExtField, uid: Bytes) {
    f.UniqueIdentifier? && uid <= f.data
  }

  /** Whether all identifiers among the fields begin with `uid`; none if there is no identifier. */
  function CheckUid(fs: seq<ExtField>, uid: Bytes): (r: Option<bool>)
    ensures r == Some(false) <==> exists f :: f in fs && f.UniqueIdentifier? && !CarriesUid(f, uid)
    ensures r == None <==> forall f :: f in fs ==> !f.UniqueIdentifier?
  {
    if fs == [] then None
    else if fs[0].UniqueIdentifier? then
      if !CarriesUid(fs[0], uid) then Some(false)
      else if CheckUid(fs[1..], uid) == Some(false) then Some(false) else Some(true)
    else CheckUid(fs[1..], uid)
  }

  predicate ValidServerResponse(m: Message, id: RequestId, nts: bool) {
    && (id.uid.Some? ==>
          var uid := id.uid.value;
          var auth, encr, untrusted :=
            CheckUid(m.efdata.authenticated, uid), CheckUid(m.efdata.encrypted, uid), CheckUid(m.efdata.untrusted, uid);
          && auth != Some(false) && encr != Some(false)
          && (untrusted != Some(false) || (nts && !IsKissNtsn(m)))
          && (auth.Some? || encr.Some? || ((!nts || IsKissNtsn(m)) && untrusted.Some?)))
    && m.origin == id.origin
  }

  /* ---- State ---- */

  datatype ProtocolVersion = OnlyV4 | UpgradingToV5(triesLeft: Byte) | UpgradedToV5 | OnlyV5

  predicate ExpectedVersion(p: ProtocolVersion, v: NtpVersion) {
    match p
    case OnlyV4 => v.Ntp4? || v.Ntp3?
    case UpgradingToV5(_) => v.Ntp4?
    case UpgradedToV5 => v.Ntp5?
    case OnlyV5 => v.Ntp5?
  }

  datatype Request = Request(id: RequestId, deadline: int)

  datatype Source = Source(
    cookies: Option<seq<Bytes>>,
    lastPoll: I8, remoteMin: I8,
    request: Option<Request>,
    denied: bool, stratum: Byte, reach: Byte, tries: nat,
    protocol: ProtocolVersion, limits: Limits)

  function Fresh(limits: Limits, protocol: ProtocolVersion, cookies: Option<seq<Bytes>>): Source {
    Source(cookies, limits.min, limits.min, None, false, 16, 0, 0, protocol, limits)
  }

  /** The inputs of one poll. */
  datatype Poll = Poll(desired: I8, origin: Bytes8, uid: Bytes, bloomOffset: U16, now: int)

  datatype Outcome =
    | Sent(interval: I8, header: Header, fields: EfData, ver: Version)
    | Reset
    | Demobilize
    | Nothing
    | Accepted

  /* ---- What is sent ---- */

  const BLOOM_CHUNK: U16 := 16

  /** How many cookies to ask for: as many as are missing, within what the buffer allows. */
  function NewCookies(stock: nat, cookieLength: nat): (n: nat)
    requires stock <= MAX_COOKIES
    ensures n <= MAX_COOKIES - stock
    ensures n >= 1 ==> cookieLength <= BUFFER_SIZE - 300
  {
    Min(MAX_COOKIES - stock, Min((BUFFER_SIZE - 300) / Max(cookieLength, 1), 255))
  }

  /** Identifier, cookie, and a placeholder for each further cookie. */
  function NtsFields(uid: Bytes, cookie: Bytes, newCookies: nat): seq<ExtField>
    requires |cookie| <= 0xFFFF && newCookies >= 1
  {
    [UniqueIdentifier(uid), NtsCookie(cookie)]
    + seq(newCookies - 1, _ => NtsCookiePlaceholder(|cookie|))
  }

  /** The wire version of a poll; an NTS association upgrades by asking in version 5 at once. */
  function PollVersion(p: ProtocolVersion, nts: bool): Version {
    match p
    case OnlyV4 => V4
    case UpgradingToV5(_) => if nts then V5 else V4
    case _ => V5
  }

  /** The header of a poll; without NTS, a version 4 poll during an upgrade asks for version 5. */
  function HeaderFor(p: ProtocolVersion, nts: bool, interval: I8, poll: Poll): Header {
    var v, byte := NumberOf(PollVersion(p, nts)), PollByte(interval);
    if p.UpgradingToV5? && !nts then UpgradeHeader(byte, poll.origin) else PollHeader(v, byte, poll.origin)
  }

  function NtsPollFields(cookie: Bytes, newCookies: nat, poll: Poll, ver: Version): EfData
    requires |cookie| <= 0xFFFF && newCookies >= 1
  {
    var base := NtsFields(poll.uid, cookie, newCookies);
    if ver == V4 then EfData(base, [], [])
    else EfData(base + [DraftIdentification(DRAFT_VERSION), ReferenceIdRequest(BLOOM_CHUNK, poll.bloomOffset)], [], [])
  }

  function PlainPollFields(poll: Poll, ver: Version): EfData {
    if ver == V4 then EfData([], [], [])
    else EfData([], [], [DraftIdentification(DRAFT_VERSION), ReferenceIdRequest(BLOOM_CHUNK, poll.bloomOffset)])
  }

  /* ---- Timer ---- */

  predicate Stocked(s: Source) {
    s.cookies.Some? ==> |s.cookies.value| <= MAX_COOKIES
  }

  function FallBack(s: Source): ProtocolVersion {
    if s.protocol.UpgradedToV5? && UnansweredPolls(s.reach) >= AFTER_UPGRADE_TRIES_THRESHOLD then OnlyV4
    else s.protocol
  }

  /** The poll has been counted, but nothing has been sent yet. */
  function Counted(s: Source): Source {
    s.(protocol := FallBack(s), reach := ReachPoll(s.reach), tries := Min(s.tries + 1, USIZE_MAX))
  }

  function Requested(s: Source, poll: Poll, interval: I8, uid: Option<Bytes>): Source {
    s.(request := Some(Request(RequestId(poll.origin, uid), poll.now + POLL_WINDOW)), lastPoll := interval)
  }

  predicate GivesUp(s: Source) {
    s.reach == 0 && s.tries >= STARTUP_TRIES_THRESHOLD
  }

  /** A poll with one of the cookies in stock. */
  function NtsPoll(s: Source, stock: seq<Bytes>, poll: Poll, interval: I8): (r: (Source, Outcome))
    requires |stock| <= MAX_COOKIES
  {
    if stock == [] then (s, Reset)
    else
      var left := s.(cookies := Some(stock[1..]));
      var n := NewCookies(|stock| - 1, |stock[0]|);
      if n == 0 then (left, Reset)
      else
        var ver := PollVersion(s.protocol, true);
        (Requested(left, poll, interval, Some(poll.uid)), Sent(interval, HeaderFor(s.protocol, true, interval, poll), NtsPollFields(stock[0], n, poll, ver), ver))
  }

  function TimerStep(s: Source, poll: Poll): (r: (Source, Outcome))
    requires Stocked(s)
  {
    if GivesUp(s) then (s, if s.denied then Demobilize else Reset)
    else
      var c := Counted(s);
      var interval: I8 := Max(poll.desired, c.remoteMin);
      match c.cookies
      case None =>
        var ver := PollVersion(c.protocol, false);
        (Requested(c, poll, interval, None), Sent(interval, HeaderFor(c.protocol, false, interval, poll), PlainPollFields(poll, ver), ver))
      case Some(stock) => NtsPoll(c, stock, poll, interval)
  }

  /* ---- Incoming packets ---- */

  /** A valid response moves the upgrade to version 5 on. */
  function Progress(p: ProtocolVersion, m: Message): ProtocolVersion {
    match p
    case UpgradingToV5(tries) =>
      if IsUpgrade(m) then UpgradedToV5
      else if tries <= 1 then OnlyV4
      else UpgradingToV5(tries - 1)
    case UpgradedToV5 => OnlyV5
    case _ => p
  }

  function ResponseCookies(fs: seq<ExtField>): (r: seq<Bytes>)
    ensures forall c :: c in r ==> NtsCookie(c) in fs
  {
    if fs == [] then []
    else (if fs[0].NtsCookie? then [fs[0].data] else []) + ResponseCookies(fs[1..])
  }

  function EnqueueAll(q: seq<Bytes>, cs: seq<Bytes>): (r: seq<Bytes>)
    requires |q| <= MAX_COOKIES
    ensures |r| <= MAX_COOKIES
    decreases |cs|
  {
    if cs == [] then q else EnqueueAll(Enqueue(q, cs[0]), cs[1..])
  }

  /** The effect of a message that answers the outstanding request. */
  function Processed(s: Source, m: Message): Source
    requires Stocked(s)
  {
    s.(reach := ReachReceived(s.reach), denied := false, request := None, stratum := m.stratum,
       remoteMin := if m.version.Ntp5? && m.poll > s.remoteMin then m.poll else s.remoteMin,
       cookies := match s.cookies
                  case None => None
                  case Some(q) => Some(EnqueueAll(q, ResponseCookies(m.efdata.encrypted))))
  }

  /** The request that a packet arriving now could answer. */
  predicate Awaited(s: Source, now: int) {
    s.request.Some? && s.request.value.deadline >= now
  }

  predicate Answers(s: Source, m: Message, now: int) {
    && ExpectedVersion(s.protocol, m.version)
    && Awaited(s, now)
    && ValidServerResponse(m, s.request.value.id, s.cookies.Some?)
  }

  function IncomingStep(s: Source, m: Message, now: int): (r: (Source, Outcome))
    requires Stocked(s)
  {
    if !Answers(s, m, now) then (s, Nothing)
    else
      var p := s.(protocol := Progress(s.protocol, m));
      if IsKissRate(m, p.lastPoll) then
        (p.(remoteMin := Max(IncPoll(p.remoteMin, p.limits), p.lastPoll)), Nothing)
      else if IsKissRstr(m) || IsKissDeny(m) then
        if p.cookies.Some? then (p, Demobilize) else (p.(denied := true), Nothing)
      else if IsKiss(m) || m.stratum > MAX_STRATUM || m.mode != Server then (p, Nothing)
      else (Processed(p, m), Accepted)
  }

  /* ---- The object that the daemon keeps ---- */

  class NtpSource {
    const nts: CookieStash?
    const limits: Limits
    var lastPoll: I8
    var remoteMin: I8
    var request: Option<Request>
    var denied: bool
    var stratum: Byte
    var reach: Byte
    var tries: nat
    var protocol: ProtocolVersion

    ghost function Repr(): set<object>
      reads this, nts
    {
      {this} + if nts == null then {} else {nts, nts.cookies}
    }

    ghost predicate Valid()
      reads Repr()
    {
      nts != null ==> nts.Valid()
    }

    ghost function State(): (s: Source)
      requires Valid()
      reads Repr()
      ensures Stocked(s)
    {
      Source(if nts == null then None else Some(nts.Contents()),
             lastPoll, remoteMin, request, denied, stratum, reach, tries, protocol, limits)
    }

    constructor (limits: Limits, protocol: ProtocolVersion, nts: CookieStash?)
      requires nts != null ==> nts.Valid()
      ensures Valid() && this.nts == nts
      ensures State() == Fresh(limits, protocol, if nts == null then None else Some(nts.Contents()))
    {
      this.nts, this.limits, this.protocol := nts, limits, protocol;
      lastPoll, remoteMin, request := limits.min, limits.min, None;
      denied, stratum, reach, tries := false, 16, 0, 0;
    }

    method HandleTimer(poll: Poll) returns (outcome: Outcome)
      requires Valid()
      modifies Repr()
      ensures Valid() && (State(), outcome) == TimerStep(old(State()), poll)
    {
      hide NtsPollFields, PlainPollFields, HeaderFor, TrailingZeros, Ring, NewCookies, ReachPoll, PollVersion;
      if reach == 0 && tries >= STARTUP_TRIES_THRESHOLD {
        return if denied then Demobilize else Reset;
      }
      if protocol.UpgradedToV5? && UnansweredPolls(reach) >= AFTER_UPGRADE_TRIES_THRESHOLD {
        protocol := OnlyV4;
      }
      reach := ReachPoll(reach);
      tries := Min(tries + 1, USIZE_MAX);
      var interval: I8 := Max(poll.desired, remoteMin);
      if nts == null {
        var ver := PollVersion(protocol, false);
        request := Some(Request(RequestId(poll.origin, None), poll.now + POLL_WINDOW));
        lastPoll := interval;
        outcome := Sent(interval, HeaderFor(protocol, false, interval, poll), PlainPollFields(poll, ver), ver);
      } else {
        hide NtsPoll;
        outcome := PollWithCookie(poll, interval);
      }
    }

    method PollWithCookie(poll: Poll, interval: I8) returns (outcome: Outcome)
      requires Valid() && nts != null
      modifies Repr()
      ensures Valid() && (State(), outcome) == NtsPoll(old(State()), old(nts.Contents()), poll, interval)
    {
      hide NtsPollFields, HeaderFor, Ring, NewCookies, PollVersion;
      var cookie := nts.Get();
      if cookie.None? {
        return Reset;
      }
      var n := CookiesToAskFor(|cookie.value|);
      if n == 0 {
        return Reset;
      }
      var ver := PollVersion(protocol, true);
      request := Some(Request(RequestId(poll.origin, Some(poll.uid)), poll.now + POLL_WINDOW));
      lastPoll := interval;
      outcome := Sent(interval, HeaderFor(protocol, true, interval, poll), NtsPollFields(cookie.value, n, poll, ver), ver);
    }

    /** Not to exceed the buffer when asking for new cookies. */
    method CookiesToAskFor(cookieLength: nat) returns (n: nat)
      requires Valid() && nts != null
      ensures n == NewCookies(|nts.Contents()|, cookieLength)
    {
      var gap := nts.Gap();
      n := Min(gap, Min((BUFFER_SIZE - 300) / Max(cookieLength, 1), 255));
    }

    method HandleIncoming(m: Message, now: int) returns (outcome: Outcome)
      requires Valid()
      modifies Repr()
      ensures Valid() && (State(), outcome) == IncomingStep(old(State()), m, now)
    {
      if !ExpectedVersion(protocol, m.version) {
        return Nothing;
      }
      if request.None? || request.value.deadline < now {
        return Nothing;
      }
      if !ValidServerResponse(m, request.value.id, nts != null) {
        return Nothing;
      }
      match protocol {
        case UpgradingToV5(triesLeft) =>
          if IsUpgrade(m) {
            protocol := UpgradedToV5;
          } else if triesLeft <= 1 {
            protocol := OnlyV4;
          } else {
            protocol := UpgradingToV5(triesLeft - 1);
          }
        case UpgradedToV5 => protocol := OnlyV5;
        case _ =>
      }
      if IsKissRate(m, lastPoll) {
        remoteMin := Max(IncPoll(remoteMin, limits), lastPoll);
        return Nothing;
      }
      if IsKissRstr(m) || IsKissDeny(m) {
        if nts != null {
          return Demobilize;
        }
        denied := true;
        return Nothing;
      }
      if IsKissNtsn(m) || IsKiss(m) || m.stratum > MAX_STRATUM || m.mode != Server {
        return Nothing;
      }
      ProcessMessage(m);
      return Accepted;
    }

    method ProcessMessage(m: Message)
      requires Valid()
      modifies Repr()
      ensures Valid() && State() == Processed(old(State()), m)
    {
      reach := ReachReceived(reach);
      denied := false;
      request := None;
      stratum := m.stratum;
      if m.version.Ntp5? && m.poll > remoteMin {
        remoteMin := m.poll;
      }
      if nts != null {
        var cookies := ResponseCookies(m.efdata.encrypted);
        for i := 0 to |cookies|
          invariant Valid()
          invariant State() == Processed(old(State()), m).(cookies := State().cookies)
          invariant EnqueueAll(nts.Contents(), cookies[i..]) == EnqueueAll(old(nts.Contents()), cookies)
        {
          nts.Store(cookies[i]);
        }
      }
    }
  }
}
