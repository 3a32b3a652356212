/** What the server registers for a packet, and that its counters say over any run how often it registered what. */
module ServerCounts {
  import opened Bytes
  import opened Protocol
  import opened Headers
  import opened Packets
  import opened RateLimits
  import opened IpFilters
  import opened Servers
  import K = KeySets
  import T = TimeExchanges

  /* ---- The reason ---- */

  /** On the lists, but too early. */
  predicate TooEarly(c: Config, slots: Slots, hash: Hash, a: Arrival)
    requires ValidConfig(c)
  {
    && !AnySubnetContains(c.denylist.filter, a.ip) && AnySubnetContains(c.allowlist.filter, a.ip)
    && !Admits(slots, hash, Visit(a.ip, a.at), c.cutoff)
  }

  /** The client is welcome, or to be told that it is not. */
  predicate Attended(c: Config, slots: Slots, hash: Hash, a: Arrival)
    requires ValidConfig(c)
  {
    Welcome(c, slots, hash, a) || Refused(c, a.ip)
  }

  /** The packet is not a client's. */
  predicate Unreadable(parse: Parse<K.Cookie>) {
    parse.Malformed? || (parse.Parsed? && ModeOf(parse.packet.header) != Client)
  }

  /** There is something to be sent: the version is accepted, and what is not NTS is not to be ignored. */
  predicate Due(c: Config, slots: Slots, hash: Hash, a: Arrival, parse: Parse<K.Cookie>)
    requires ValidConfig(c)
  {
    && Attended(c, slots, hash, a) && Answerable(c, parse)
    && (c.requireNts == Some(IgnoreThem) ==> CookieOf(parse).Some? || (parse.Undecryptable? && Welcome(c, slots, hash, a)))
  }

  lemma ReasonIs(c: Config, ks: K.KeySet, siv: K.Siv, slots: Slots, hash: Hash, a: Arrival)
    requires ValidConfig(c) && !Panics(c, ks, siv, slots, hash, a)
    ensures var r, parse := Handle(c, ks, siv, slots, hash, a).0.registration, ReadPacket(a.message, ks, siv);
            && (r.reason == RateLimit <==> TooEarly(c, slots, hash, a))
            && (r.reason == ParseError <==> Attended(c, slots, hash, a) && Unreadable(parse))
            && (r.reason == InvalidCrypto <==> r.response == NtsNak)
            && (r.reason == InternalError <==> Due(c, slots, hash, a, parse) && r.response == Ignore)
            && (r.nts <==> Due(c, slots, hash, a, parse) && (CookieOf(parse).Some? || (parse.Undecryptable? && Welcome(c, slots, hash, a))))
  {
    hide ReadPacket, Vouched, AnySubnetContains, Admits, Remember, ReplyBytes;
    PacketVouches(a.message, ks, siv);
  }

  /** The version registered is the one in the packet, whatever is made of it. */
  lemma VersionRegistered(c: Config, ks: K.KeySet, siv: K.Siv, slots: Slots, hash: Hash, a: Arrival)
    requires ValidConfig(c) && !Panics(c, ks, siv, slots, hash, a)
    ensures Handle(c, ks, siv, slots, hash, a).0.registration.version == VersionBits(a.message)
  {
    hide ReadPacket, Vouched, AnySubnetContains, Admits, Remember, ReplyBytes, VersionBits;
    PacketVouches(a.message, ks, siv);
    if !ReadPacket(a.message, ks, siv).Malformed? {
      T.PacketHeader(a.message, ks, siv);
    }
  }

  /* ---- The counters ---- */

  /** What is registered in each turn of a run. */
  function Registered(c: Config, siv: K.Siv, size: nat, hash: Hash, turns: seq<Turn>): (r: seq<Registration>)
    requires ValidConfig(c) && Unbroken(c, siv, size, hash, turns)
    ensures |r| == |turns|
  {
    if turns == [] then []
    else
      var init, last := turns[..|turns| - 1], turns[|turns| - 1];
      Registered(c, siv, size, hash, init)
      + [Handle(c, last.keyset, siv, Run(c, siv, size, hash, init).slots, hash, last.arrival).0.registration]
  }

  /** How many of them are such. */
  function Tally(rs: seq<Registration>, such: Registration -> bool): nat {
    |set i | 0 <= i < |rs| && such(rs[i])|
  }

  lemma TallyOne(rs: seq<Registration>, r: Registration, such: Registration -> bool)
    ensures Tally(rs + [r], such) == Tally(rs, such) + if such(r) then 1 else 0
  {
    var s, all := set i | 0 <= i < |rs| && such(rs[i]), set i | 0 <= i < |rs + [r]| && such((rs + [r])[i]);
    assert all == s + if such(r) then {|rs|} else {};
  }

  function Responds(x: Response): Registration -> bool {
    (r: Registration) => r.response == x
  }

  function RespondsNts(x: Response): Registration -> bool {
    (r: Registration) => r.nts && r.response == x
  }

  function IsNts(): Registration -> bool {
    (r: Registration) => r.nts
  }

  function Ignores(limited: bool): Registration -> bool {
    (r: Registration) => r.response == Ignore && (r.reason == RateLimit <==> limited)
  }

  /** Each counter is the number of packets that it is for. */
  predicate Counted(s: Stats, rs: seq<Registration>) {
    && s.received == |rs|
    && s.accepted == Tally(rs, Responds(ProvideTime)) && s.denied == Tally(rs, Responds(Deny)) && s.ntsNak == Tally(rs, Responds(NtsNak))
    && s.rateLimited == Tally(rs, Ignores(true)) && s.ignored == Tally(rs, Ignores(false))
    && s.ntsReceived == Tally(rs, IsNts())
    && s.ntsAccepted == Tally(rs, RespondsNts(ProvideTime)) && s.ntsDenied == Tally(rs, RespondsNts(Deny))
  }

  lemma CountedOne(s: Stats, rs: seq<Registration>, r: Registration)
    requires Counted(s, rs)
    ensures Counted(Register(s, r), rs + [r])
  {
    hide Tally;
    TallyOne(rs, r, Responds(ProvideTime));
    TallyOne(rs, r, Responds(Deny));
    TallyOne(rs, r, Responds(NtsNak));
    TallyOne(rs, r, Ignores(true));
    TallyOne(rs, r, Ignores(false));
    TallyOne(rs, r, IsNts());
    TallyOne(rs, r, RespondsNts(ProvideTime));
    TallyOne(rs, r, RespondsNts(Deny));
  }

  lemma TurnCounts(c: Config, siv: K.Siv, hash: Hash, b: Book, turn: Turn, rs: seq<Registration>)
    requires ValidConfig(c) && !Panics(c, turn.keyset, siv, b.slots, hash, turn.arrival) && Counted(b.stats, rs)
    ensures Counted(Turned(c, siv, hash, b, turn).stats,
                    rs + [Handle(c, turn.keyset, siv, b.slots, hash, turn.arrival).0.registration])
  {
    hide Handle, Panics, Counted, Register;
    CountedOne(b.stats, rs, Handle(c, turn.keyset, siv, b.slots, hash, turn.arrival).0.registration);
  }

  /** The last turn of a run. */
  lemma LastTurn(c: Config, siv: K.Siv, size: nat, hash: Hash, turns: seq<Turn>)
    requires ValidConfig(c) && Unbroken(c, siv, size, hash, turns) && turns != []
    ensures var init, last := turns[..|turns| - 1], turns[|turns| - 1];
            && Unbroken(c, siv, size, hash, init)
            && var b := Run(c, siv, size, hash, init);
            && !Panics(c, last.keyset, siv, b.slots, hash, last.arrival)
            && Run(c, siv, size, hash, turns) == Turned(c, siv, hash, b, last)
            && Registered(c, siv, size, hash, turns) ==
               Registered(c, siv, size, hash, init) + [Handle(c, last.keyset, siv, b.slots, hash, last.arrival).0.registration]
  {
    hide Handle, Panics, Turned, ValidConfig;
  }

  /** Over every run the counters say how many packets were given each answer, and how many of those came with NTS. */
  lemma {:induction false} RunCounts(c: Config, siv: K.Siv, size: nat, hash: Hash, turns: seq<Turn>)
    requires ValidConfig(c) && Unbroken(c, siv, size, hash, turns)
    ensures Counted(Run(c, siv, size, hash, turns).stats, Registered(c, siv, size, hash, turns))
  {
    hide Handle, Panics, Counted, Turned, ValidConfig, Run, Registered, Unbroken;
    if turns == [] {
      NoneCounted(c, siv, size, hash);
    } else {
      LastTurn(c, siv, size, hash, turns);
      var init, last := turns[..|turns| - 1], turns[|turns| - 1];
      RunCounts(c, siv, size, hash, init);
      TurnCounts(c, siv, hash, Run(c, siv, size, hash, init), last, Registered(c, siv, size, hash, init));
    }
  }

  lemma NoneCounted(c: Config, siv: K.Siv, size: nat, hash: Hash)
    requires ValidConfig(c)
    ensures Unbroken(c, siv, size, hash, [])
    ensures Counted(Run(c, siv, size, hash, []).stats, Registered(c, siv, size, hash, []))
  {
    hide Panics, Turned, ValidConfig, Counted;
    CountedNone();
  }

  lemma CountedNone()
    ensures Counted(NO_STATS, [])
  {
    hide Tally;
    forall such: Registration -> bool ensures Tally([], such) == 0 {
      TallyNone(such);
    }
  }

  lemma TallyNone(such: Registration -> bool)
    ensures Tally([], such) == 0
  {
    var none: seq<Registration> := [];
    assert (set i | 0 <= i < |none| && such(none[i])) == {};
  }
}
