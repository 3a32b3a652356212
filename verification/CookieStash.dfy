/** The stock of NTS cookies: a ring of eight slots that behaves as a bounded queue. */
module CookieStashes {
  import opened Bytes

  const MAX_COOKIES := 8

  /** Storing into a full queue drops the oldest cookie. */
  function Enqueue(q: seq<Bytes>, c: Bytes): (r: seq<Bytes>)
    requires |q| <= MAX_COOKIES
    ensures |r| <= MAX_COOKIES
  {
    if |q| < MAX_COOKIES then q + [c] else q[1..] + [c]
  }

  /** The `valid` slots from `read` on, around the end of the array. */
  function Ring(slots: seq<Bytes>, read: nat, valid: nat): (q: seq<Bytes>)
    requires |slots| == MAX_COOKIES && read < MAX_COOKIES && valid <= MAX_COOKIES
    ensures |q| == valid
  {
    seq(valid, i requires 0 <= i < valid => slots[(read + i) % MAX_COOKIES])
  }

  lemma RingAppend(slots: seq<Bytes>, read: nat, valid: nat, c: Bytes)
    requires |slots| == MAX_COOKIES && read < MAX_COOKIES && valid < MAX_COOKIES
    ensures Ring(slots[(read + valid) % MAX_COOKIES := c], read, valid + 1) == Ring(slots, read, valid) + [c]
  {
    var w := (read + valid) % MAX_COOKIES;
    var q, r := Ring(slots, read, valid), Ring(slots[w := c], read, valid + 1);
    forall i | 0 <= i < valid
      ensures r[i] == q[i]
    {
      RingIndex(read, i);
      RingIndex(read, valid);
    }
  }

  /** Positions on the ring. */
  lemma RingIndex(read: nat, i: nat)
    requires read < MAX_COOKIES && i <= MAX_COOKIES
    ensures (read + i) % MAX_COOKIES == if read + i < MAX_COOKIES then read + i else read + i - MAX_COOKIES
  {
  }

  lemma RingReplace(slots: seq<Bytes>, read: nat, c: Bytes)
    requires |slots| == MAX_COOKIES && read < MAX_COOKIES
    ensures Ring(slots[read := c], (read + 1) % MAX_COOKIES, MAX_COOKIES) ==
            Ring(slots, read, MAX_COOKIES)[1..] + [c]
  {
    var q, r := Ring(slots, read, MAX_COOKIES), Ring(slots[read := c], (read + 1) % MAX_COOKIES, MAX_COOKIES);
    forall i | 0 <= i < MAX_COOKIES
      ensures r[i] == (q[1..] + [c])[i]
    {
      RingIndex(read, 1);
      RingIndex((read + 1) % MAX_COOKIES, i);
      RingIndex(read, i + 1);
    }
  }

  lemma RingGet(slots: seq<Bytes>, read: nat, valid: nat)
    requires |slots| == MAX_COOKIES && read < MAX_COOKIES && 0 < valid <= MAX_COOKIES
    ensures Ring(slots, read, valid)[0] == slots[read]
    ensures Ring(slots[read := []], (read + 1) % MAX_COOKIES, valid - 1) == Ring(slots, read, valid)[1..]
  {
    var q, r := Ring(slots, read, valid), Ring(slots[read := []], (read + 1) % MAX_COOKIES, valid - 1);
    forall i | 0 <= i < valid - 1
      ensures r[i] == q[i + 1]
    {
      RingIndex(read, 1);
      RingIndex((read + 1) % MAX_COOKIES, i);
      RingIndex(read, i + 1);
    }
  }

  class CookieStash {
    const cookies: array<Bytes>
    var read: nat
    var valid: nat

    ghost predicate Valid()
      reads this
    {
      cookies.Length == MAX_COOKIES && read < MAX_COOKIES && valid <= MAX_COOKIES
    }

    /** The cookies that have not been handed out, oldest first. */
    ghost function Contents(): (q: seq<Bytes>)
      requires Valid()
      reads this, cookies
    {
      Ring(cookies[..], read, valid)
    }

    constructor ()
      ensures Valid() && fresh(cookies) && Contents() == []
    {
      cookies := new Bytes[MAX_COOKIES](_ => []);
      read, valid := 0, 0;
    }

    method Store(c: Bytes)
      requires Valid()
      modifies this, cookies
      ensures Valid() && Contents() == Enqueue(old(Contents()), c)
    {
      hide Ring;
      if valid < MAX_COOKIES {
        RingAppend(cookies[..], read, valid, c);
      } else {
        RingReplace(cookies[..], read, c);
      }
      var wpos := (read + valid) % cookies.Length;
      cookies[wpos] := c;
      if valid < cookies.Length {
        valid := valid + 1;
      } else {
        read := (read + 1) % cookies.Length;
      }
    }

    method Get() returns (c: Option<Bytes>)
      requires Valid()
      modifies this, cookies
      ensures Valid()
      ensures old(Contents()) == [] ==> c == None && Contents() == []
      ensures old(Contents()) != [] ==> c == Some(old(Contents())[0]) && Contents() == old(Contents())[1..]
    {
      if valid == 0 {
        return None;
      }
      RingGet(cookies[..], read, valid);
      c := Some(cookies[read]);
      cookies[read] := [];
      read := (read + 1) % cookies.Length;
      valid := valid - 1;
    }

    method Gap() returns (n: nat)
      requires Valid()
      ensures n == MAX_COOKIES - |Contents()|
    {
      n := cookies.Length - valid;
    }
  }

  /* ---- Any sequence of operations ---- */

  datatype Op = Store(cookie: Bytes) | Get

  /** All cookies stored in a sequence of operations, in order. */
  function Stored(ops: seq<Op>): (r: seq<Bytes>) {
    if ops == [] then []
    else
      var last := ops[|ops| - 1];
      Stored(ops[..|ops| - 1]) + if last.Store? then [last.cookie] else []
  }

  datatype Log = Log(contents: seq<Bytes>, given: seq<Bytes>, dropped: seq<Bytes>)

  /** The queue after a sequence of operations, the cookies handed out and the cookies dropped. */
  function Run(ops: seq<Op>): (r: Log)
    ensures |r.contents| <= MAX_COOKIES
  {
    if ops == [] then Log([], [], [])
    else
      var l := Run(ops[..|ops| - 1]);
      match ops[|ops| - 1]
      case Store(c) =>
        Log(Enqueue(l.contents, c), l.given, if |l.contents| == MAX_COOKIES then l.dropped + [l.contents[0]] else l.dropped)
      case Get =>
        if l.contents == [] then l else Log(l.contents[1..], l.given + [l.contents[0]], l.dropped)
  }

  /** `at` lists, in ascending order, the positions in `all` where the elements of `part` stand. */
  ghost predicate Picks(part: seq<Bytes>, all: seq<Bytes>, at: seq<nat>, below: nat) {
    && |at| == |part| && below <= |all|
    && (forall i :: 0 <= i < |at| ==> at[i] < below && part[i] == all[at[i]])
    && (forall i, j :: 0 <= i < j < |at| ==> at[i] < at[j])
  }

  /** No cookie is both handed out and dropped. */
  ghost predicate Apart(a: seq<nat>, b: seq<nat>) {
    forall i, j :: 0 <= i < |a| && 0 <= j < |b| ==> a[i] != b[j]
  }

  lemma PicksMore(part: seq<Bytes>, all: seq<Bytes>, at: seq<nat>, below: nat, all': seq<Bytes>, below': nat)
    requires Picks(part, all, at, below) && below <= below' <= |all'| && all <= all'
    ensures Picks(part, all', at, below')
  {
  }

  lemma PicksNext(part: seq<Bytes>, all: seq<Bytes>, at: seq<nat>, below: nat)
    requires Picks(part, all, at, below) && below < |all|
    ensures Picks(part + [all[below]], all, at + [below], below + 1)
  {
  }

  lemma Separate(given: seq<nat>, dropped: seq<nat>, l: Log, all: seq<Bytes>, held: nat)
    requires Picks(l.given, all, given, held) && Picks(l.dropped, all, dropped, held) && Apart(given, dropped)
    ensures Apart(given + [held], dropped) && Apart(given, dropped + [held])
  {
  }

  /** The stash holds the cookies stored last; those stored before were each handed out once or
      dropped once, never both, and both in the order of storing. */
  ghost predicate Accounted(l: Log, all: seq<Bytes>, given: seq<nat>, dropped: seq<nat>) {
    var held := |all| - |l.contents|;
    && held >= 0 && l.contents == all[held..]
    && Picks(l.given, all, given, held) && Picks(l.dropped, all, dropped, held)
    && Apart(given, dropped) && |given| + |dropped| == held
  }

  /** Over any sequence of operations every cookie is accounted for. */
  lemma {:induction false} OldestFirst(ops: seq<Op>) returns (given: seq<nat>, dropped: seq<nat>)
    ensures Accounted(Run(ops), Stored(ops), given, dropped)
  {
    hide Accounted, Enqueue;
    given, dropped := [], [];
    if ops == [] {
      AccountNothing();
    } else {
      var init := ops[..|ops| - 1];
      given, dropped := OldestFirst(init);
      var l, all := Run(init), Stored(init);
      match ops[|ops| - 1]
      case Store(c) =>
        dropped := AccountStore(l, all, given, dropped, c);
      case Get =>
        if l.contents != [] {
          given := AccountGet(l, all, given, dropped);
        }
        assert all + [] == all;
    }
  }

  lemma AccountNothing()
    ensures Accounted(Log([], [], []), [], [], [])
  {
    var none: seq<Bytes> := [];
    assert none[0..] == none;
    assert Picks(none, none, [], 0) && Apart([], []);
  }

  lemma AccountGet(l: Log, all: seq<Bytes>, given: seq<nat>, dropped: seq<nat>) returns (given': seq<nat>)
    requires Accounted(l, all, given, dropped) && l.contents != []
    ensures Accounted(Log(l.contents[1..], l.given + [l.contents[0]], l.dropped), all, given', dropped)
  {
    hide Picks;
    var held := |all| - |l.contents|;
    Separate(given, dropped, l, all, held);
    PicksMore(l.dropped, all, dropped, held, all, held + 1);
    PicksNext(l.given, all, given, held);
    given' := given + [held];
  }

  lemma AccountStore(l: Log, all: seq<Bytes>, given: seq<nat>, dropped: seq<nat>, c: Bytes)
    returns (dropped': seq<nat>)
    requires Accounted(l, all, given, dropped) && |l.contents| <= MAX_COOKIES
    ensures var full := |l.contents| == MAX_COOKIES;
            Accounted(Log(Enqueue(l.contents, c), l.given, if full then l.dropped + [l.contents[0]] else l.dropped),
                      all + [c], given, dropped')
  {
    hide Picks;
    var held := |all| - |l.contents|;
    var all' := all + [c];
    dropped' := dropped;
    if |l.contents| == MAX_COOKIES {
      Separate(given, dropped, l, all, held);
      PicksMore(l.given, all, given, held, all', held + 1);
      PicksMore(l.dropped, all, dropped, held, all', held);
      PicksNext(l.dropped, all', dropped, held);
      dropped' := dropped + [held];
    } else {
      PicksMore(l.given, all, given, held, all', held);
      PicksMore(l.dropped, all, dropped, held, all', held);
    }
  }
}
