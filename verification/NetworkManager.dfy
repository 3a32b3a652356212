/**
 The socket manager that PTP and CSPTP share: interfaces kept open by a reference count, and the sockets
 multiplexed over them.

 Every block that runs under one of the two locks is one step, so a run is any interleaving of those
 blocks over all threads. A ticket stands for what a thread owns: a handle, a socket, or the half-done
 creation or removal of a socket, between its two locks.
 */
module NetworkManagers {
  import opened Bytes

  type Key = Option<string>

  const USIZE := 0x1_0000_0000_0000_0000

  type Id = x: int | 0 <= x < USIZE

  datatype TimestampingClock = SystemClock | HardwareClock(phc: Option<nat>)
  datatype TimestampSource = System | Hardware

  datatype Entry = Entry(refcount: nat, hardwareClock: Option<nat>)
  datatype SocketData = SocketData(interface: Key, source: TimestampSource)

  /** The panics of the code, by the `unwrap` that raises them. */
  datatype Why = MissingInterface | MissingSocket | Overflow | Underflow

  /** What a block does: it ends, it panics, or its search for an identifier never ends. */
  datatype Outcome<T> = Done(value: T) | Panic(why: Why) | Spins

  datatype Net = Net(interfaces: map<Key, Entry>, sockets: map<Id, SocketData>, nextId: Id)

  const START := Net(map[None := Entry(1, None)], map[], 0)

  /* ---- The blocks under a lock ---- */

  function Acquire(net: Net, key: Key): Outcome<Net> {
    if key !in net.interfaces then Panic(MissingInterface)
    else
      var e := net.interfaces[key];
      if e.refcount + 1 >= USIZE then Panic(Overflow)
      else Done(net.(interfaces := net.interfaces[key := e.(refcount := e.refcount + 1)]))
  }

  function Release(net: Net, key: Key): Outcome<Net> {
    if key !in net.interfaces then Panic(MissingInterface)
    else
      var e := net.interfaces[key];
      if e.refcount == 0 then Panic(Underflow)
      else if e.refcount == 1 then Done(net.(interfaces := net.interfaces - {key}))
      else Done(net.(interfaces := net.interfaces[key := e.(refcount := e.refcount - 1)]))
  }

  /** The clock a request asks for: none for the system clock, an error when there is no hardware clock. */
  function ClockIndex(clock: TimestampingClock, found: Option<nat>): Option<Option<nat>> {
    match clock
    case SystemClock => Some(None)
    case HardwareClock(Some(phc)) => Some(Some(phc))
    case HardwareClock(None) => if found.Some? then Some(found) else None
  }

  /** Opening fails, with no change, on a clock that differs or when the system refuses. */
  datatype Opened = Opened(net: Net, ok: bool)

  function Open(net: Net, name: string, index: Option<nat>, granted: bool): Outcome<Opened> {
    var key := Some(name);
    if key in net.interfaces then
      if index.Some? && net.interfaces[key].hardwareClock != index then Done(Opened(net, false))
      else
        match Acquire(net, key)
        case Done(n) => Done(Opened(n, true))
        case Panic(why) => Panic(why)
        case Spins => Spins
    else if granted then Done(Opened(net.(interfaces := net.interfaces[key := Entry(1, index)]), true))
    else Done(Opened(net, false))
  }

  /** The first vacant identifier from `next` on, going round at most once. */
  function Probe(next: Id, left: nat, used: set<Id>): (id: Option<Id>)
    ensures id.Some? ==> id.value !in used
    decreases left
  {
    if left == 0 then None
    else if next !in used then Some(next)
    else Probe(Succ(next), left - 1, used)
  }

  /** Identifiers wrap around. */
  function Succ(id: Id): Id {
    if id + 1 == USIZE then 0 else id + 1
  }

  datatype Registered = Registered(net: Net, id: Id)

  function Register(net: Net, data: SocketData): Outcome<Registered> {
    match Probe(net.nextId, USIZE, net.sockets.Keys)
    case None => Spins
    case Some(id) =>
      Done(Registered(net.(sockets := net.sockets[id := data], nextId := Succ(id)), id))
  }

  datatype Unregistered = Unregistered(net: Net, data: SocketData)

  function Unregister(net: Net, id: Id): Outcome<Unregistered> {
    if id !in net.sockets then Panic(MissingSocket)
    else Done(Unregistered(net.(sockets := net.sockets - {id}), net.sockets[id]))
  }

  /** The search goes round without end exactly when every identifier is taken. */
  lemma SpinsIffFull(next: Id, used: set<Id>)
    ensures Probe(next, USIZE, used).None? <==> forall id: Id :: id in used
  {
    if Probe(next, USIZE, used).None? {
      forall id: Id
        ensures id in used
      {
        ProbeMisses(next, USIZE, used, if next <= id then id - next else id + USIZE - next);
      }
    }
  }

  lemma {:induction false} ProbeMisses(next: Id, left: nat, used: set<Id>, steps: nat)
    requires steps < left <= USIZE && Probe(next, left, used).None?
    ensures (if next + steps < USIZE then next + steps else next + steps - USIZE) in used
    decreases steps
  {
    if steps > 0 {
      ProbeMisses(Succ(next), left - 1, used, steps - 1);
    }
  }

  /* ---- As the program has it ---- */

  class NetworkManager {
    var interfaces: map<Key, Entry>
    var sockets: map<Id, SocketData>
    var nextId: Id

    ghost function State(): Net
      reads this
    {
      Net(interfaces, sockets, nextId)
    }

    constructor ()
      ensures State() == START
    {
      interfaces := map[None := Entry(1, None)];
      sockets := map[];
      nextId := 0;
    }

    /** Opening the general interface, cloning a handle, and the first half of making a socket. */
    method Take(key: Key) returns (r: Outcome<()>)
      modifies this
      ensures r == match Acquire(old(State()), key) case Done(_) => Done(()) case Panic(why) => Panic(why) case Spins => Spins
      ensures State() == match Acquire(old(State()), key) case Done(net) => net case _ => old(State())
    {
      if key !in interfaces {
        return Panic(MissingInterface);
      }
      var e := interfaces[key];
      if e.refcount + 1 >= USIZE {
        return Panic(Overflow);
      }
      interfaces := interfaces[key := e.(refcount := e.refcount + 1)];
      return Done(());
    }

    /** Dropping a handle, and the second half of dropping a socket. */
    method Drop(key: Key) returns (r: Outcome<()>)
      modifies this
      ensures r == match Release(old(State()), key) case Done(_) => Done(()) case Panic(why) => Panic(why) case Spins => Spins
      ensures State() == match Release(old(State()), key) case Done(net) => net case _ => old(State())
    {
      if key !in interfaces {
        return Panic(MissingInterface);
      }
      var e := interfaces[key];
      if e.refcount == 0 {
        return Panic(Underflow);
      }
      interfaces := interfaces[key := e.(refcount := e.refcount - 1)];
      if interfaces[key].refcount == 0 {
        interfaces := interfaces - {key};
      }
      return Done(());
    }

    method OpenInterface(name: string, index: Option<nat>, granted: bool) returns (r: Outcome<bool>)
      modifies this
      ensures r == match Open(old(State()), name, index, granted)
                   case Done(o) => Done(o.ok) case Panic(why) => Panic(why) case Spins => Spins
      ensures State() == match Open(old(State()), name, index, granted) case Done(o) => o.net case _ => old(State())
    {
      var key := Some(name);
      if key in interfaces {
        if index.Some? && interfaces[key].hardwareClock != index {
          return Done(false);
        }
        var taken := Take(key);
        return match taken case Done(_) => Done(true) case Panic(why) => Panic(why) case Spins => Spins;
      }
      if !granted {
        return Done(false);
      }
      interfaces := interfaces[key := Entry(1, index)];
      return Done(true);
    }

    /** The second half of making a socket. The source's loop has no count of its own; after a whole round
        without a vacant identifier it would go on for ever, and that is the outcome given here. */
    method AddSocket(data: SocketData) returns (r: Outcome<Id>)
      modifies this
      ensures match Register(old(State()), data)
              case Done(registered) => r == Done(registered.id) && State() == registered.net
              case _ => r == Spins
    {
      hide Succ;
      var left: nat := USIZE;
      var id := nextId;
      nextId := Succ(nextId);
      while id in sockets
        invariant nextId == Succ(id) && interfaces == old(interfaces) && sockets == old(sockets)
        invariant left > 0
        invariant Probe(old(nextId), USIZE, sockets.Keys) == Probe(id, left, sockets.Keys)
        decreases left
      {
        left := left - 1;
        if left == 0 {
          return Spins;
        }
        id := nextId;
        nextId := Succ(nextId);
      }
      sockets := sockets[id := data];
      return Done(id);
    }

    /** The first half of dropping a socket. */
    method RemoveSocket(id: Id) returns (r: Outcome<SocketData>)
      modifies this
      ensures r == match Unregister(old(State()), id)
                   case Done(u) => Done(u.data) case Panic(why) => Panic(why) case Spins => Spins
      ensures State() == match Unregister(old(State()), id) case Done(u) => u.net case _ => old(State())
    {
      if id !in sockets {
        return Panic(MissingSocket);
      }
      r := Done(sockets[id]);
      sockets := sockets - {id};
    }
  }

  /* ---- Runs over all threads ---- */

  /**
   `clock` is the hardware clock that was asked for when the handle was opened, if any: cloning the handle
   and making sockets from it pass it on.
   */
  datatype Ticket =
    | Handle(name: Key, source: TimestampSource, clock: Option<nat>)
    | Creating(name: Key, source: TimestampSource, clock: Option<nat>)
    | Socket(name: Key, source: TimestampSource, clock: Option<nat>, id: Id)
    | Dropping(name: Key, clock: Option<nat>)

  datatype World = World(net: Net, tickets: seq<Ticket>)

  const FIRST := World(START, [])

  /** A thread's next block; `i` is the ticket it works on. */
  datatype Label =
    | OpenGeneral
    | OpenNamed(interface: string, clock: TimestampingClock, found: Option<nat>, granted: bool)
    | CloneHandle(i: nat)
    | DropHandle(i: nat)
    | BeginSocket(i: nat)
    | FinishSocket(i: nat)
    | BeginDrop(i: nat)
    | FinishDrop(i: nat)

  function SourceOf(clock: Option<nat>): TimestampSource {
    if clock.Some? then Hardware else System
  }

  function Without(ts: seq<Ticket>, i: nat): seq<Ticket>
    requires i < |ts|
  {
    ts[..i] + ts[i + 1..]
  }

  /** A block can start only on a ticket of its kind that is still there. */
  predicate Enabled(w: World, l: Label) {
    match l
    case OpenGeneral => true
    case OpenNamed(_, _, _, _) => true
    case CloneHandle(i) => i < |w.tickets| && w.tickets[i].Handle?
    case DropHandle(i) => i < |w.tickets| && w.tickets[i].Handle?
    case BeginSocket(i) => i < |w.tickets| && w.tickets[i].Handle?
    case FinishSocket(i) => i < |w.tickets| && w.tickets[i].Creating?
    case BeginDrop(i) => i < |w.tickets| && w.tickets[i].Socket?
    case FinishDrop(i) => i < |w.tickets| && w.tickets[i].Dropping?
  }

  function Taking(w: World, key: Key, t: Ticket): Outcome<World> {
    match Acquire(w.net, key)
    case Done(net) => Done(World(net, w.tickets + [t]))
    case Panic(why) => Panic(why)
    case Spins => Spins
  }

  function Giving(w: World, i: nat): Outcome<World>
    requires i < |w.tickets|
  {
    match Release(w.net, w.tickets[i].name)
    case Done(net) => Done(World(net, Without(w.tickets, i)))
    case Panic(why) => Panic(why)
    case Spins => Spins
  }

  function Opening(w: World, name: string, index: Option<nat>, granted: bool): Outcome<World> {
    match Open(w.net, name, index, granted)
    case Done(o) =>
      Done(World(o.net, if o.ok then w.tickets + [Handle(Some(name), SourceOf(index), index)] else w.tickets))
    case Panic(why) => Panic(why)
    case Spins => Spins
  }

  function Finishing(w: World, i: nat): Outcome<World>
    requires i < |w.tickets| && w.tickets[i].Creating?
  {
    var t := w.tickets[i];
    match Register(w.net, SocketData(t.name, t.source))
    case Done(r) => Done(World(r.net, w.tickets[i := Socket(t.name, t.source, t.clock, r.id)]))
    case Panic(why) => Panic(why)
    case Spins => Spins
  }

  /** The name that will be released is the one found in the table of sockets. */
  function Removing(w: World, i: nat): Outcome<World>
    requires i < |w.tickets| && w.tickets[i].Socket?
  {
    match Unregister(w.net, w.tickets[i].id)
    case Done(u) => Done(World(u.net, w.tickets[i := Dropping(u.data.interface, w.tickets[i].clock)]))
    case Panic(why) => Panic(why)
    case Spins => Spins
  }

  function Step(w: World, l: Label): Outcome<World> {
    if !Enabled(w, l) then Done(w)
    else
      match l
      case OpenGeneral => Taking(w, None, Handle(None, System, None))
      case OpenNamed(name, clock, found, granted) =>
        (match ClockIndex(clock, found)
         case None => Done(w)
         case Some(index) => Opening(w, name, index, granted))
      case CloneHandle(i) => Taking(w, w.tickets[i].name, w.tickets[i])
      case DropHandle(i) => Giving(w, i)
      case BeginSocket(i) =>
        var t := w.tickets[i]; Taking(w, t.name, Creating(t.name, t.source, t.clock))
      case FinishSocket(i) => Finishing(w, i)
      case BeginDrop(i) => Removing(w, i)
      case FinishDrop(i) => Giving(w, i)
  }

  /* ---- What every block keeps ---- */

  function Count(ts: seq<Ticket>, key: Key): nat {
    if ts == [] then 0
    else Count(ts[..|ts| - 1], key) + if ts[|ts| - 1].name == key then 1 else 0
  }

  /** The general interface has one reference of its own. */
  function Holders(ts: seq<Ticket>, key: Key): nat {
    Count(ts, key) + if key.None? then 1 else 0
  }

  /** An interface is open exactly while something refers to it, and its count is the number of references. */
  ghost predicate Counted(w: World) {
    && (forall key :: key in w.net.interfaces <==> Holders(w.tickets, key) > 0)
    && (forall key :: key in w.net.interfaces ==> w.net.interfaces[key].refcount == Holders(w.tickets, key) < USIZE)
  }

  predicate KeepsClock(net: Net, t: Ticket) {
    t.clock.Some? ==> t.name in net.interfaces && net.interfaces[t.name].hardwareClock == t.clock
  }

  /** Whoever asked for a hardware clock finds it on the open interface. */
  predicate Clocked(w: World) {
    forall i :: 0 <= i < |w.tickets| ==> KeepsClock(w.net, w.tickets[i])
  }

  predicate Listed(net: Net, t: Ticket) {
    t.Socket? ==> t.id in net.sockets && net.sockets[t.id] == SocketData(t.name, t.source)
  }

  predicate Apart(t: Ticket, u: Ticket) {
    t.Socket? && u.Socket? ==> t.id != u.id
  }

  predicate Owns(ts: seq<Ticket>, i: int, id: Id) {
    0 <= i < |ts| && ts[i].Socket? && ts[i].id == id
  }

  ghost predicate Owned(ts: seq<Ticket>, id: Id) {
    exists i :: Owns(ts, i, id)
  }

  /** The table lists exactly the live sockets, each under an identifier of its own. */
  ghost predicate Tabled(w: World) {
    && (forall id :: id in w.net.sockets ==> Owned(w.tickets, id))
    && (forall i :: 0 <= i < |w.tickets| ==> Listed(w.net, w.tickets[i]))
    && (forall i, j :: 0 <= i < j < |w.tickets| ==> Apart(w.tickets[i], w.tickets[j]))
  }

  ghost predicate Sound(w: World) {
    Counted(w) && Clocked(w) && Tabled(w)
  }

  lemma CountAppend(ts: seq<Ticket>, t: Ticket, key: Key)
    ensures Count(ts + [t], key) == Count(ts, key) + if t.name == key then 1 else 0
  {
    assert (ts + [t])[..|ts|] == ts;
  }

  lemma {:induction false} CountJoin(a: seq<Ticket>, b: seq<Ticket>, key: Key)
    ensures Count(a + b, key) == Count(a, key) + Count(b, key)
    decreases |b|
  {
    if b == [] {
      assert a + b == a;
    } else {
      CountJoin(a, b[..|b| - 1], key);
      assert (a + b)[..|a + b| - 1] == a + b[..|b| - 1];
    }
  }

  lemma CountSplit(ts: seq<Ticket>, i: nat, key: Key)
    requires i < |ts|
    ensures Count(ts, key) == Count(Without(ts, i), key) + if ts[i].name == key then 1 else 0
  {
    assert ts == ts[..i] + [ts[i]] + ts[i + 1..];
    CountJoin(ts[..i] + [ts[i]], ts[i + 1..], key);
    CountAppend(ts[..i], ts[i], key);
    CountJoin(ts[..i], ts[i + 1..], key);
  }

  lemma CountReplace(ts: seq<Ticket>, i: nat, t: Ticket, key: Key)
    requires i < |ts| && t.name == ts[i].name
    ensures Count(ts[i := t], key) == Count(ts, key)
  {
    CountSplit(ts, i, key);
    CountSplit(ts[i := t], i, key);
    assert Without(ts[i := t], i) == Without(ts, i);
  }

  lemma OwnedAppend(ts: seq<Ticket>, t: Ticket, id: Id)
    requires Owned(ts, id)
    ensures Owned(ts + [t], id)
  {
    var i :| Owns(ts, i, id);
    assert Owns(ts + [t], i, id);
  }

  lemma OwnedWithout(ts: seq<Ticket>, i: nat, id: Id)
    requires i < |ts| && !ts[i].Socket? && Owned(ts, id)
    ensures Owned(Without(ts, i), id)
  {
    var j :| Owns(ts, j, id);
    assert Owns(Without(ts, i), if j < i then j else j - 1, id);
  }

  lemma OwnedReplace(ts: seq<Ticket>, i: nat, t: Ticket, id: Id)
    requires i < |ts| && !Owns(ts, i, id) && Owned(ts, id)
    ensures Owned(ts[i := t], id)
  {
    var j :| Owns(ts, j, id);
    assert Owns(ts[i := t], j, id);
  }

  /** The interface of every ticket is open. */
  lemma HeldIsOpen(w: World, i: nat)
    requires Counted(w) && i < |w.tickets|
    ensures w.tickets[i].name in w.net.interfaces
  {
    CountSplit(w.tickets, i, w.tickets[i].name);
  }

  lemma TakingSound(w: World, key: Key, t: Ticket)
    requires Sound(w) && key in w.net.interfaces && t.name == key && !t.Socket? && KeepsClock(w.net, t)
    ensures Taking(w, key, t).Panic? <==> Holders(w.tickets, key) == USIZE - 1
    ensures Taking(w, key, t).Panic? ==> Taking(w, key, t).why == Overflow
    ensures !Taking(w, key, t).Spins?
    ensures Taking(w, key, t).Done? ==> Sound(Taking(w, key, t).value)
  {
    hide Count;
    forall k
      ensures Count(w.tickets + [t], k) == Count(w.tickets, k) + if t.name == k then 1 else 0
    {
      CountAppend(w.tickets, t, k);
    }
    forall id | id in w.net.sockets
      ensures Owned(w.tickets + [t], id)
    {
      OwnedAppend(w.tickets, t, id);
    }
  }

  lemma GivingSound(w: World, i: nat)
    requires Sound(w) && i < |w.tickets| && !w.tickets[i].Socket?
    ensures Giving(w, i).Done? && Sound(Giving(w, i).value)
  {
    hide Count;
    var t, ts := w.tickets[i], Without(w.tickets, i);
    HeldIsOpen(w, i);
    forall k
      ensures Count(w.tickets, k) == Count(ts, k) + if t.name == k then 1 else 0
    {
      CountSplit(w.tickets, i, k);
    }
    var w' := Giving(w, i).value;
    assert Counted(w');
    forall j | 0 <= j < |ts|
      ensures KeepsClock(w'.net, ts[j])
    {
      HeldIsOpen(w', j);
    }
    forall id | id in w.net.sockets
      ensures Owned(ts, id)
    {
      OwnedWithout(w.tickets, i, id);
    }
  }

  lemma OpeningSound(w: World, name: string, index: Option<nat>, granted: bool)
    requires Sound(w)
    ensures var r := Opening(w, name, index, granted);
            && (r.Panic? <==> && Some(name) in w.net.interfaces
                              && (index.None? || w.net.interfaces[Some(name)].hardwareClock == index)
                              && Holders(w.tickets, Some(name)) == USIZE - 1)
            && (r.Panic? ==> r.why == Overflow)
            && !r.Spins?
            && (r.Done? ==> Sound(r.value))
  {
    hide Count;
    var key, t := Some(name), Handle(Some(name), SourceOf(index), index);
    if key in w.net.interfaces {
      if index.None? || w.net.interfaces[key].hardwareClock == index {
        TakingSound(w, key, t);
      }
    } else {
      forall k
        ensures Count(w.tickets + [t], k) == Count(w.tickets, k) + if t.name == k then 1 else 0
      {
        CountAppend(w.tickets, t, k);
      }
      forall id | id in w.net.sockets
        ensures Owned(w.tickets + [t], id)
      {
        OwnedAppend(w.tickets, t, id);
      }
    }
  }

  lemma FinishingSound(w: World, i: nat)
    requires Sound(w) && i < |w.tickets| && w.tickets[i].Creating?
    ensures var r := Finishing(w, i);
            && !r.Panic?
            && (r.Done? ==> Sound(r.value))
            && (r.Spins? <==> forall id: Id :: id in w.net.sockets)
  {
    hide Count, Probe;
    SpinsIffFull(w.net.nextId, w.net.sockets.Keys);
    if Finishing(w, i).Done? {
      var w' := Finishing(w, i).value;
      forall k
        ensures Count(w'.tickets, k) == Count(w.tickets, k)
      {
        CountReplace(w.tickets, i, w'.tickets[i], k);
      }
      forall id | id in w'.net.sockets
        ensures Owned(w'.tickets, id)
      {
        if id in w.net.sockets {
          OwnedReplace(w.tickets, i, w'.tickets[i], id);
        } else {
          assert Owns(w'.tickets, i, id);
        }
      }
    }
  }

  lemma RemovingSound(w: World, i: nat)
    requires Sound(w) && i < |w.tickets| && w.tickets[i].Socket?
    ensures Removing(w, i).Done? && Sound(Removing(w, i).value)
  {
    hide Count;
    assert Listed(w.net, w.tickets[i]);
    var w' := Removing(w, i).value;
    forall k
      ensures Count(w'.tickets, k) == Count(w.tickets, k)
    {
      CountReplace(w.tickets, i, w'.tickets[i], k);
    }
    forall id | id in w'.net.sockets
      ensures Owned(w'.tickets, id)
    {
      OwnedReplace(w.tickets, i, w'.tickets[i], id);
    }
    forall j | 0 <= j < |w'.tickets|
      ensures Listed(w'.net, w'.tickets[j])
    {
      if j < i {
        assert Apart(w.tickets[j], w.tickets[i]);
      } else if i < j {
        assert Apart(w.tickets[i], w.tickets[j]);
      }
    }
  }

  /* ---- Main results ---- */

  /** The interface that a block adds a reference to while it is already open. */
  function Referred(w: World, l: Label): Option<Key> {
    if !Enabled(w, l) then None
    else
      match l
      case OpenGeneral => Some(None)
      case OpenNamed(name, clock, found, _) =>
        var key := Some(name);
        (match ClockIndex(clock, found)
         case None => None
         case Some(index) =>
           if key in w.net.interfaces && (index.None? || w.net.interfaces[key].hardwareClock == index) then Some(key)
           else None)
      case CloneHandle(i) => Some(w.tickets[i].name)
      case BeginSocket(i) => Some(w.tickets[i].name)
      case _ => None
  }

  ghost predicate Full(net: Net) {
    forall id: Id :: id in net.sockets
  }

  /**
   From a sound state every block ends in a sound state, except that a reference count at its maximum
   cannot be raised, and that no identifier can be found when all are taken.
   */
  lemma StepSound(w: World, l: Label)
    requires Sound(w)
    ensures var r := Step(w, l);
            && (r.Panic? <==> Referred(w, l).Some? && Holders(w.tickets, Referred(w, l).value) == USIZE - 1)
            && (r.Panic? ==> r.why == Overflow)
            && (r.Spins? <==> l.FinishSocket? && Enabled(w, l) && Full(w.net))
            && (r.Done? ==> Sound(r.value))
  {
    hide Sound, Taking, Giving, Opening, Finishing, Removing, Holders;
    if Enabled(w, l) {
      match l
      case OpenGeneral => GeneralOpen(w); TakingSound(w, None, Handle(None, System, None));
      case OpenNamed(name, clock, found, granted) =>
        if ClockIndex(clock, found).Some? {
          OpeningSound(w, name, ClockIndex(clock, found).value, granted);
        }
      case CloneHandle(i) => TicketOpen(w, i); TakingSound(w, w.tickets[i].name, w.tickets[i]);
      case BeginSocket(i) =>
        var t := w.tickets[i];
        TicketOpen(w, i);
        TakingSound(w, t.name, Creating(t.name, t.source, t.clock));
      case FinishSocket(i) => FinishingSound(w, i);
      case BeginDrop(i) => RemovingSound(w, i);
      case DropHandle(i) => GivingSound(w, i);
      case FinishDrop(i) => GivingSound(w, i);
    }
  }

  /** What is asked for can be had: a hardware clock that is given or found, and on an interface that is open already
      no other one; or the system opens the interface. */
  predicate Grantable(net: Net, key: Key, clock: TimestampingClock, found: Option<nat>, granted: bool) {
    && (clock == HardwareClock(None) ==> found.Some?)
    && if key !in net.interfaces then granted
       else
         var has := net.interfaces[key].hardwareClock;
         match clock
         case SystemClock => true
         case HardwareClock(Some(phc)) => has == Some(phc)
         case HardwareClock(None) => has == found
  }

  /** A handle with the clock that was asked for. */
  predicate Serves(t: Ticket, key: Key, clock: TimestampingClock, found: Option<nat>) {
    && t.Handle? && t.name == key
    && match clock
       case SystemClock => t.source == System && t.clock == None
       case HardwareClock(phc) => t.source == Hardware && t.clock == (if phc.Some? then phc else found)
  }

  /** Exactly who is given a handle on an interface by name, and with which clock; nobody else notices. */
  lemma NamedGiven(w: World, name: string, clock: TimestampingClock, found: Option<nat>, granted: bool)
    requires Step(w, OpenNamed(name, clock, found, granted)).Done?
    ensures var r, key := Step(w, OpenNamed(name, clock, found, granted)).value, Some(name);
            if !Grantable(w.net, key, clock, found, granted) then r == w
            else
              && |r.tickets| == |w.tickets| + 1 && r.tickets[..|w.tickets|] == w.tickets
              && Serves(r.tickets[|w.tickets|], key, clock, found)
              && r.net.interfaces.Keys == w.net.interfaces.Keys + {key} && r.net.sockets == w.net.sockets && r.net.nextId == w.net.nextId
              && (forall k :: k in w.net.interfaces && k != key ==> r.net.interfaces[k] == w.net.interfaces[k])
  {
  }

  lemma GeneralOpen(w: World)
    requires Sound(w)
    ensures None in w.net.interfaces
  {
    assert Holders(w.tickets, None) > 0;
  }

  lemma TicketOpen(w: World, i: nat)
    requires Sound(w) && i < |w.tickets|
    ensures w.tickets[i].name in w.net.interfaces && KeepsClock(w.net, w.tickets[i])
  {
    HeldIsOpen(w, i);
  }

  function Run(w: World, ls: seq<Label>): Outcome<World> {
    if ls == [] then Done(w)
    else
      match Run(w, ls[..|ls| - 1])
      case Done(v) => Step(v, ls[|ls| - 1])
      case Panic(why) => Panic(why)
      case Spins => Spins
  }

  /** So on every interleaving no lookup fails, no count underflows, and the counts are exact. */
  lemma {:induction false} RunSound(ls: seq<Label>)
    ensures var r := Run(FIRST, ls);
            && (r.Panic? ==> r.why == Overflow)
            && (r.Done? ==> Sound(r.value) && None in r.value.net.interfaces)
  {
    hide Step, Sound;
    if ls == [] {
      assert Sound(FIRST) by { FirstSound(); }
      GeneralOpen(FIRST);
    } else {
      RunSound(ls[..|ls| - 1]);
      if Run(FIRST, ls[..|ls| - 1]).Done? {
        var v := Run(FIRST, ls[..|ls| - 1]).value;
        StepSound(v, ls[|ls| - 1]);
        if Step(v, ls[|ls| - 1]).Done? {
          GeneralOpen(Step(v, ls[|ls| - 1]).value);
        }
      }
    }
  }

  lemma FirstSound()
    ensures Sound(FIRST)
  {
  }

  /** A live socket always finds itself in the table, and there the name of an open interface. */
  lemma SocketFindsInterface(ls: seq<Label>, i: nat)
    requires Run(FIRST, ls).Done? && i < |Run(FIRST, ls).value.tickets| && Run(FIRST, ls).value.tickets[i].Socket?
    ensures var w := Run(FIRST, ls).value;
            var t := w.tickets[i];
            && t.id in w.net.sockets && w.net.sockets[t.id] == SocketData(t.name, t.source)
            && t.name in w.net.interfaces
            && (t.clock.Some? ==> w.net.interfaces[t.name].hardwareClock == t.clock)
  {
    hide Run;
    RunSound(ls);
    TicketOpen(Run(FIRST, ls).value, i);
    assert Listed(Run(FIRST, ls).value.net, Run(FIRST, ls).value.tickets[i]);
  }

  /** Once every handle and socket is gone, only the general interface is left. */
  lemma AllReturned(ls: seq<Label>)
    requires Run(FIRST, ls).Done? && Run(FIRST, ls).value.tickets == []
    ensures var net := Run(FIRST, ls).value.net; net.interfaces.Keys == {None} && net.interfaces[None].refcount == 1 && net.sockets == map[]
  {
    RunSound(ls);
  }
}
