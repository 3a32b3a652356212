/** Building the trie from a list of prefixes in place, and looking values up in it. */
module BitTrees {
  import opened PowersOfTwo
  import opened PrefixSets
  import opened Trie
  import opened Segments

  /** `val` and `x` agree on the bits that the prefix keeps. */
  predicate Contains(p: Prefix, x: Word) {
    ApplyMask(p.val, p.len) == ApplyMask(x, p.len)
  }

  ghost predicate AnyContains(d: seq<Prefix>, x: Word) {
    exists i :: 0 <= i < |d| && Contains(d[i], x)
  }

  /** The values that some prefix of the list contains. */
  ghost function Values(d: seq<Prefix>): iset<int> {
    iset x | 0 <= x < WORD && AnyContains(d, x)
  }

  function MaskPrefix(p: Prefix): (r: Prefix) {
    Prefix(ApplyMask(p.val, p.len), p.len)
  }

  function MaskAll(d: seq<Prefix>): (r: seq<Prefix>) {
    seq(|d|, i requires 0 <= i < |d| => MaskPrefix(d[i]))
  }

  /** A masked prefix contains just the values of its interval. */
  lemma MaskedRange(p: Prefix, x: Word)
    ensures Masked(MaskPrefix(p))
    ensures Contains(p, x) <==> InRange(MaskPrefix(p), x)
  {
    hide Pow2;
    FloorRange(p.val, x, Width(p.len));
  }

  lemma MaskAllDenotes(d: seq<Prefix>)
    ensures AllMasked(MaskAll(d)) && Denotes(MaskAll(d)) == Values(d)
  {
    forall i | 0 <= i < |d|
      ensures Masked(MaskAll(d)[i])
    {
      MaskedRange(d[i], 0);
    }
    forall x | 0 <= x < WORD
      ensures x in Denotes(MaskAll(d)) <==> x in Values(d)
    {
      forall i | 0 <= i < |d|
        ensures Contains(d[i], x) <==> InRange(MaskAll(d)[i], x)
      {
        MaskedRange(d[i], x);
      }
      if Covers(MaskAll(d), x) {
        var i :| 0 <= i < |d| && InRange(MaskAll(d)[i], x);
        assert Contains(d[i], x);
      }
      if AnyContains(d, x) {
        var i :| 0 <= i < |d| && Contains(d[i], x);
        assert InRange(MaskAll(d)[i], x);
      }
    }
  }

  function InsertSorted(d: seq<Prefix>, p: Prefix): (r: seq<Prefix>) {
    if d == [] || Before(p, d[0]) then [p] + d else [d[0]] + InsertSorted(d[1..], p)
  }

  /** The list as the standard library's stable `sort` leaves it. */
  function Sort(d: seq<Prefix>): (r: seq<Prefix>) {
    if d == [] then [] else InsertSorted(Sort(d[..|d| - 1]), d[|d| - 1])
  }

  lemma {:induction false} InsertSortedPermutes(d: seq<Prefix>, p: Prefix)
    ensures multiset(InsertSorted(d, p)) == multiset(d) + multiset{p}
  {
    if d != [] && !Before(p, d[0]) {
      InsertSortedPermutes(d[1..], p);
      assert d == [d[0]] + d[1..];
    }
  }

  lemma {:induction false} SortPermutes(d: seq<Prefix>)
    ensures multiset(Sort(d)) == multiset(d)
  {
    if d != [] {
      hide InsertSorted;
      var n := |d| - 1;
      SortPermutes(d[..n]);
      InsertSortedPermutes(Sort(d[..n]), d[n]);
      assert d == d[..n] + [d[n]];
    }
  }

  lemma {:induction false} InsertSortedOrders(d: seq<Prefix>, p: Prefix)
    requires Sorted(d)
    ensures Sorted(InsertSorted(d, p))
  {
    if d != [] {
      if Before(p, d[0]) {
        assert forall i :: 0 <= i < |d| ==> Before(p, d[i]);
      } else {
        InsertSortedOrders(d[1..], p);
        InsertSortedPermutes(d[1..], p);
        var rest := InsertSorted(d[1..], p);
        forall i | 0 <= i < |rest|
          ensures Before(d[0], rest[i])
        {
          InsertedMember(d[1..], p, rest[i]);
        }
      }
    }
  }

  lemma InsertedMember(d: seq<Prefix>, p: Prefix, q: Prefix)
    requires q in InsertSorted(d, p)
    ensures q == p || q in d
  {
    InsertSortedPermutes(d, p);
    assert q in multiset(InsertSorted(d, p));
  }

  /** Sorting orders the list and keeps what it stands for. */
  lemma {:induction false} SortOrders(d: seq<Prefix>)
    ensures Sorted(Sort(d))
  {
    if d != [] {
      SortOrders(d[..|d| - 1]);
      InsertSortedOrders(Sort(d[..|d| - 1]), d[|d| - 1]);
    }
  }

  lemma SortDenotes(d: seq<Prefix>)
    requires AllMasked(d)
    ensures AllMasked(Sort(d)) && Denotes(Sort(d)) == Denotes(d)
  {
    var r := Sort(d);
    SortPermutes(d);
    assert forall p :: p in r <==> p in multiset(r);
    assert forall p :: p in d <==> p in multiset(d);
    assert forall i :: 0 <= i < |r| ==> r[i] in d;
    assert forall i :: 0 <= i < |d| ==> d[i] in r;
  }

  /** The first index of each of the sixteen segments, and the length of the list. */
  method SplitSegments(d: seq<Prefix>) returns (bounds: seq<nat>)
    requires Sorted(d)
    ensures Splits(d, bounds)
  {
    var counts := new nat[16](i => 0);
    for j := 0 to |d|
      invariant forall t :: 0 <= t < 16 ==> counts[t] == Count(d[..j], t)
    {
      assert d[..j + 1][..j] == d[..j];
      var t := TopNibble(d[j].val);
      counts[t] := counts[t] + 1;
    }
    assert d[..|d|] == d;
    CountLessNone(d);
    bounds := [0];
    for s := 0 to 16
      invariant |bounds| == s + 1
      invariant forall t :: 0 <= t < 16 ==> counts[t] == Count(d, t)
      invariant forall t :: 0 <= t <= s ==> bounds[t] == CountLess(d, t)
    {
      CountLessStep(d, s);
      bounds := bounds + [bounds[s] + counts[s]];
    }
    CountsSplit(d, bounds);
  }

  /** Whether the prefixes of a segment together cover its block, by one sweep over them. */
  method CoveredByParts(g: seq<Prefix>, s: nat) returns (covered: bool)
    requires Sorted(g) && s < 16
    requires forall i :: 0 <= i < |g| ==> TopNibble(g[i].val) == s
    ensures covered <==> BlockIn(Denotes(g), s)
  {
    var offset := s * BLOCK;
    var last := 0;
    for j := 0 to |g|
      invariant Swept(g[..j], s, last)
    {
      var part := g[j];
      assert g[..j + 1] == g[..j] + [part];
      SweptStep(g[..j], s, last, part);
      if part.val - offset <= last {
        var end := part.val - offset + Width(part.len);
        last := if last < end then end else last;
      }
    }
    assert g[..|g|] == g;
    SweptDecides(g, s, last);
    covered := last >= BLOCK;
  }

  /** What one segment adds to the symbols that are filled. */
  method DecideSegment(d: seq<Prefix>, a: nat, b: nat, s: nat) returns (added: set<nat>)
    requires Segment(d, a, b, s) && a < b
    ensures FullSymbols(Denotes(d[..b])) == FullSymbols(Denotes(d[..a])) + added
    ensures s !in added ==> forall j :: a <= j < b ==> d[j].len > 4
  {
    hide FullSymbols, Denotes, BlockIn, InBlock, Pow2;
    added := {};
    if d[a].len <= 4 {
      WideStep(d, a, b, s);
      var n := Pow2(4 - d[a].len);
      for j := 0 to n
        invariant added == Run(s, j)
      {
        added := added + {s + j};
      }
      RunMember(s, n, s);
    } else {
      NarrowStep(d, a, b, s);
      var g := d[a..b];
      assert forall i :: 0 <= i < |g| ==> g[i] == d[a + i];
      var covered := CoveredByParts(g, s);
      if covered {
        added := {s};
      }
      forall j | a <= j < b
        ensures d[j].len > 4
      {
        NarrowSegment(d, a, b, s, j);
      }
    }
  }

  /** The symbols whose block the list fills, and those of whose block it has nothing. */
  method DecidedSymbols(d: seq<Prefix>, bounds: seq<nat>) returns (inset: set<nat>, outset: set<nat>)
    requires Sorted(d) && AllMasked(d) && Splits(d, bounds)
    ensures inset == FullSymbols(Denotes(d))
    ensures outset == EmptySymbols(Denotes(d))
    ensures forall s :: s in Undecided(inset, outset) ==> AllLong(d, bounds[s], bounds[s + 1])
  {
    hide Denotes, BlockIn, BlockOut;
    inset, outset := {}, {};
    NothingFull(d[..0]);
    for s := 0 to 16
      invariant inset == FullSymbols(Denotes(d[..bounds[s]]))
      invariant forall t :: t in outset <==> 0 <= t < s && EmptySegment(bounds, t)
      invariant forall t :: 0 <= t < s && t !in inset ==> AllLong(d, bounds[t], bounds[t + 1])
    {
      SplitsSegment(d, bounds, s);
      if bounds[s] == bounds[s + 1] {
        outset := outset + {s};
      } else {
        var added := DecideSegment(d, bounds[s], bounds[s + 1], s);
        inset := inset + added;
      }
    }
    assert d[..bounds[16]] == d;
    outset := outset - inset;
    forall s: nat | s < 16
      ensures s in outset <==> BlockOut(Denotes(d), s)
    {
      OutIffNoSegment(d, bounds, s);
    }
  }

  predicate EmptySegment(bounds: seq<nat>, s: nat)
    requires s + 1 < |bounds|
  {
    bounds[s] == bounds[s + 1]
  }

  /** The prefixes from `a` to `b` all keep more than four bits. */
  predicate AllLong(d: seq<Prefix>, a: nat, b: nat)
    requires a <= b <= |d|
  {
    forall j :: a <= j < b ==> d[j].len > 4
  }

  lemma NothingFull(d: seq<Prefix>)
    requires d == []
    ensures FullSymbols(Denotes(d)) == {}
  {
    forall s: nat | s < 16
      ensures !BlockIn(Denotes(d), s)
    {
      assert InBlock(s, s * BLOCK) && s * BLOCK !in Denotes(d);
    }
  }

  lemma SplitsSegment(d: seq<Prefix>, bounds: seq<nat>, s: nat)
    requires Sorted(d) && AllMasked(d) && Splits(d, bounds) && s < 16
    ensures Segment(d, bounds[s], bounds[s + 1], s)
  {
    forall j | 0 <= j < bounds[s]
      ensures TopNibble(d[j].val) < s
    {
      SegmentOf(d, bounds, j);
    }
  }

  /** All prefixes of the list end within the next `k` nibbles. */
  predicate Shallow(d: seq<Prefix>, k: nat) {
    forall i :: 0 <= i < |d| ==> d[i].len <= 4 * k
  }

  /** What the recursive call for symbol `s` is given, and what it is to produce. */
  lemma ChildSegment(d: seq<Prefix>, bounds: seq<nat>, s: nat, k: nat)
    requires Sorted(d) && AllMasked(d) && Splits(d, bounds) && Shallow(d, k)
    requires s < 16 && s !in FullSymbols(Denotes(d)) && s !in EmptySymbols(Denotes(d))
    requires AllLong(d, bounds[s], bounds[s + 1])
    ensures var g := ShiftAll(d[bounds[s]..bounds[s + 1]]);
            && Sorted(g) && AllMasked(g) && k > 0 && Shallow(g, k - 1)
            && Denotes(g) == Child(Denotes(d), s)
  {
    hide Denotes, Child, ShiftAll, Sorted, AllMasked, Shallow;
    NotDecided(d, s);
    ChildOrdered(d, bounds, s);
    OutIffNoSegment(d, bounds, s);
    ChildShallow(d, bounds[s], bounds[s + 1], k);
    ShiftedSegment(d, bounds, s);
  }

  lemma NotDecided(d: seq<Prefix>, s: nat)
    requires s < 16 && s !in FullSymbols(Denotes(d)) && s !in EmptySymbols(Denotes(d))
    ensures !BlockIn(Denotes(d), s) && !BlockOut(Denotes(d), s)
  {
    hide Denotes, BlockIn, BlockOut;
  }

  lemma ChildShallow(d: seq<Prefix>, a: nat, b: nat, k: nat)
    requires a < b <= |d| && AllLong(d, a, b) && Shallow(d, k)
    ensures k > 0 && Shallow(ShiftAll(d[a..b]), k - 1)
  {
    assert d[a].len > 4;
    assert forall i :: 0 <= i < b - a ==> d[a..b][i] == d[a + i];
  }

  lemma ChildOrdered(d: seq<Prefix>, bounds: seq<nat>, s: nat)
    requires Sorted(d) && AllMasked(d) && Splits(d, bounds) && s < 16 && AllLong(d, bounds[s], bounds[s + 1])
    ensures Sorted(ShiftAll(d[bounds[s]..bounds[s + 1]])) && AllMasked(ShiftAll(d[bounds[s]..bounds[s + 1]]))
  {
    hide ShiftAll;
    var a, b := bounds[s], bounds[s + 1];
    assert forall i :: 0 <= i < b - a ==> d[a..b][i] == d[a + i];
    ShiftAllOrdered(d[a..b], s);
  }

  /** The trie that stands for the set `p`: one array for each set. */
  ghost function Tree(p: iset<int>): (r: seq<TreeNode>) {
    Fill([DEFAULT_NODE], 0, p, 32)
  }

  class BitTree {
    var nodes: seq<TreeNode>

    ghost predicate Decides(p: iset<int>)
      reads this
    {
      Canonical(nodes, 0, p, 32, 1, |nodes|)
    }

    /** Masks and sorts the list in place, then fills the root and all it needs. */
    constructor (data: array<Prefix>)
      modifies data
      ensures nodes == Tree(old(Values(data[..])))
      ensures Decides(old(Values(data[..])))
    {
      nodes := [DEFAULT_NODE];
      new;
      ghost var given := data[..];
      for i := 0 to data.Length
        invariant data[i..] == given[i..]
        invariant data[..i] == MaskAll(given)[..i]
        invariant nodes == [DEFAULT_NODE]
      {
        data[i] := MaskPrefix(data[i]);
      }
      assert data[..] == MaskAll(given);
      MaskAllDenotes(given);
      SortInPlace(data);
      SortDenotes(MaskAll(given));
      SortOrders(MaskAll(given));
      assert data[0..data.Length] == data[..];
      FillNode(data, 0, data.Length, 0, 32);
      WholeGrain(Values(given));
      FillCanonical([DEFAULT_NODE], 0, Values(given), 32);
    }

    /** Fills the node at `idx` from the prefixes between `lo` and `hi`, recursively. */
    method FillNode(data: array<Prefix>, lo: nat, hi: nat, idx: nat, ghost k: nat)
      requires lo <= hi <= data.Length && idx < |nodes|
      requires Sorted(data[lo..hi]) && AllMasked(data[lo..hi]) && Shallow(data[lo..hi], k)
      modifies this, data
      ensures nodes == Fill(old(nodes), idx, Denotes(old(data[lo..hi])), k)
      ensures forall i :: 0 <= i < data.Length && !(lo <= i < hi) ==> data[i] == old(data[i])
      decreases k, 2
    {
      hide FullSymbols, EmptySymbols, Denotes, Child, Canonical, Sorted, AllMasked, Splits, AllLong, Smaller;
      var d := data[lo..hi];
      var bounds := SplitSegments(d);
      var inset, outset := DecidedSymbols(d, bounds);
      var open := Undecided(inset, outset);
      var base := |nodes|;
      nodes := nodes[idx := TreeNode(base, inset, outset)] + EmptyNodes(|open|);
      FillChildrenInOrder(data, lo, d, bounds, open, base, k);
    }

    /** The loop over the undecided symbols: each child is filled from its shifted segment. */
    method FillChildrenInOrder(data: array<Prefix>, lo: nat, ghost d: seq<Prefix>, bounds: seq<nat>,
                               open: set<nat>, base: nat, ghost k: nat)
      requires lo + |d| <= data.Length && forall i :: 0 <= i < |d| ==> data[lo + i] == d[i]
      requires Sorted(d) && AllMasked(d) && Splits(d, bounds) && Shallow(d, k)
      requires open == Undecided(FullSymbols(Denotes(d)), EmptySymbols(Denotes(d)))
      requires forall s :: s in open ==> AllLong(d, bounds[s], bounds[s + 1])
      requires base + |open| <= |nodes|
      modifies this, data
      ensures nodes == FillChildren(old(nodes), base, open, Denotes(d), k, 0)
      ensures forall i :: 0 <= i < data.Length && !(lo <= i < lo + |d|) ==> data[i] == old(data[i])
      decreases k, 1
    {
      hide FullSymbols, EmptySymbols, Denotes, Child, Sorted, AllMasked, Smaller, Shallow, AllLong, Fill;
      ghost var p := Denotes(d);
      var child := base;
      RankZero(open);
      for s := 0 to 16
        invariant child == base + Rank(open, s)
        invariant base + |open| <= |nodes|
        invariant forall i :: bounds[s] <= i < |d| ==> data[lo + i] == d[i]
        invariant forall i :: 0 <= i < data.Length && !(lo <= i < lo + |d|) ==> data[i] == old(data[i])
        invariant FillChildren(nodes, base, open, p, k, s) == FillChildren(old(nodes), base, open, p, k, 0)
      {
        RankStep(open, s);
        if s in open {
          RankTotal(open, s);
          FillChild(data, lo, d, bounds, s, child, k);
          child := child + 1;
        }
      }
    }

    /** Shifts the segment of symbol `s` and fills the child for it. */
    method FillChild(data: array<Prefix>, lo: nat, ghost d: seq<Prefix>, bounds: seq<nat>, s: nat, child: nat,
                     ghost k: nat)
      requires Sorted(d) && AllMasked(d) && Splits(d, bounds) && Shallow(d, k)
      requires s in Undecided(FullSymbols(Denotes(d)), EmptySymbols(Denotes(d)))
      requires AllLong(d, bounds[s], bounds[s + 1])
      requires lo + |d| <= data.Length && forall i :: bounds[s] <= i < |d| ==> data[lo + i] == d[i]
      requires child < |nodes|
      modifies this, data
      ensures k > 0 && nodes == Fill(old(nodes), child, Child(Denotes(d), s), k - 1)
      ensures forall i :: 0 <= i < data.Length && !(lo + bounds[s] <= i < lo + bounds[s + 1]) ==>
                data[i] == old(data[i])
      decreases k, 0
    {
      hide FullSymbols, EmptySymbols, Denotes, Child, Fill, Sorted, AllMasked, Shallow, ShiftAll;
      var a, b := lo + bounds[s], lo + bounds[s + 1];
      ChildSegment(d, bounds, s, k);
      ghost var g := d[bounds[s]..bounds[s + 1]];
      assert data[a..b] == g by {
        assert forall i :: 0 <= i < |g| ==> data[a..b][i] == data[lo + (bounds[s] + i)] == g[i];
      }
      ShiftInPlace(data, a, b);
      FillNode(data, a, b, child, k - 1);
    }

    /** Walks down one nibble at a time. */
    method Lookup(val: Word, ghost p: iset<int>) returns (found: bool)
      requires Decides(p)
      ensures found <==> val in p
    {
      var v: Word := val;
      var node := nodes[0];
      ghost var idx: nat, q, k: nat := 0, p, 32;
      while true
        invariant Canonical(nodes, idx, q, k, 1, |nodes|) && node == nodes[idx]
        invariant v in q <==> val in p
        decreases k
      {
        var cur := TopNibble(v);
        assert InBlock(cur, v);
        if cur in node.inset {
          return true;
        }
        if cur in node.outset {
          return false;
        }
        assert cur in Undecided(node.inset, node.outset);
        ChildMember(q, v);
        v := (16 * v) % WORD;
        idx, q, k := ChildIndex(node, cur), Child(q, cur), k - 1;
        node := nodes[ChildIndex(node, cur)];
      }
    }
  }

  method SortInPlace(data: array<Prefix>)
    modifies data
    ensures data[..] == Sort(old(data[..]))
  {
    var sorted := Sort(data[..]);
    SortPermutes(data[..]);
    SameLength(sorted, data[..]);
    for i := 0 to data.Length
      invariant data[..i] == sorted[..i]
    {
      data[i] := sorted[i];
    }
  }

  lemma SameLength(a: seq<Prefix>, b: seq<Prefix>)
    requires multiset(a) == multiset(b)
    ensures |a| == |b|
  {
    assert |multiset(a)| == |a| && |multiset(b)| == |b|;
  }

  method ShiftInPlace(data: array<Prefix>, a: nat, b: nat)
    requires a <= b <= data.Length
    requires forall i :: 0 <= i < b - a ==> data[a..b][i].len >= 4
    modifies data
    ensures forall i :: 0 <= i < data.Length && !(a <= i < b) ==> data[i] == old(data[i])
    ensures data[a..b] == ShiftAll(old(data[a..b]))
  {
    assert forall i :: a <= i < b ==> data[i] == data[a..b][i - a];
    for i := a to b
      invariant forall j :: 0 <= j < data.Length && !(a <= j < i) ==> data[j] == old(data[j])
      invariant forall j :: a <= j < i ==> data[j] == Shift(old(data[j]))
    {
      data[i] := Shift(data[i]);
    }
  }

  /** Two lists give equal trees exactly when they stand for the same values. */
  lemma EqualTrees(c: seq<Prefix>, d: seq<Prefix>)
    ensures Tree(Values(c)) == Tree(Values(d)) <==> Values(c) == Values(d)
  {
    if Tree(Values(c)) == Tree(Values(d)) {
      WholeGrain(Values(c));
      WholeGrain(Values(d));
      FillCanonical([DEFAULT_NODE], 0, Values(c), 32);
      FillCanonical([DEFAULT_NODE], 0, Values(d), 32);
      var t := Tree(Values(c));
      forall x | 0 <= x < WORD
        ensures x in Values(c) <==> x in Values(d)
      {
        CanonicalInjective(t, 0, Values(c), Values(d), 32, 1, |t|, x);
      }
    }
  }
}
