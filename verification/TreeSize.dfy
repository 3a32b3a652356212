/**
 How large a trie gets: a bound in the number of prefixes, and from it that the 32 bits which the program
 keeps of a child offset are all of it.
 */
module TreeSizes {
  import opened PowersOfTwo
  import opened PrefixSets
  import opened Trie
  import opened Segments
  import opened BitTrees

  /** How many nodes a prefix can call for: one for each whole nibble in front of its last bits. */
  function Levels(len: nat): nat {
    if len <= 4 then 0 else 1 + Levels(len - 4)
  }

  lemma {:induction false} LevelsBound(len: nat, k: nat)
    requires len <= 4 * k + 4
    ensures Levels(len) <= k
  {
    if len > 4 {
      LevelsBound(len - 4, k - 1);
    }
  }

  function Weight(d: seq<Prefix>): nat {
    if d == [] then 0 else Weight(d[..|d| - 1]) + Levels(d[|d| - 1].len)
  }

  lemma {:induction false} WeightJoin(a: seq<Prefix>, b: seq<Prefix>)
    ensures Weight(a + b) == Weight(a) + Weight(b)
    decreases |b|
  {
    if b == [] {
      assert a + b == a;
    } else {
      WeightJoin(a, b[..|b| - 1]);
      assert (a + b)[..|a + b| - 1] == a + b[..|b| - 1];
    }
  }

  lemma {:induction false} WeightBound(d: seq<Prefix>)
    ensures Weight(d) <= 31 * |d|
  {
    if d != [] {
      WeightBound(d[..|d| - 1]);
      LevelsBound(d[|d| - 1].len, 31);
    }
  }

  /** Without its top nibble, each prefix calls for one node less. */
  lemma {:induction false} ShiftedWeight(d: seq<Prefix>)
    requires forall i :: 0 <= i < |d| ==> d[i].len > 4
    ensures Weight(ShiftAll(d)) + |d| == Weight(d)
  {
    if d != [] {
      var n := |d| - 1;
      ShiftedWeight(d[..n]);
      assert ShiftAll(d)[..n] == ShiftAll(d[..n]);
    }
  }

  /** A block that is not decided has prefixes of its own, and all of them keep more than four bits. */
  lemma UndecidedLong(d: seq<Prefix>, bounds: seq<nat>, s: nat)
    requires Sorted(d) && AllMasked(d) && Splits(d, bounds)
    requires s in Undecided(FullSymbols(Denotes(d)), EmptySymbols(Denotes(d)))
    ensures bounds[s] < bounds[s + 1] && AllLong(d, bounds[s], bounds[s + 1])
  {
    NotDecided(d, s);
    OutIffNoSegment(d, bounds, s);
    forall j | bounds[s] <= j < bounds[s + 1]
      ensures d[j].len > 4
    {
      if d[j].len <= 4 {
        WideFillsBlock(d, j, s);
      }
    }
  }

  lemma WideFillsBlock(d: seq<Prefix>, j: nat, s: nat)
    requires j < |d| && AllMasked(d) && d[j].len <= 4 && TopNibble(d[j].val) == s
    ensures BlockIn(Denotes(d), s)
  {
    hide Pow2;
    WideIsBlocks(d[j]);
    forall x | InBlock(s, x)
      ensures x in Denotes(d)
    {
      assert InRange(d[j], x);
    }
  }

  /* ---- The nodes that filling adds ---- */

  function Split(d: seq<Prefix>): (bounds: seq<nat>)
    requires Sorted(d)
    ensures Splits(d, bounds)
  {
    var bounds: seq<nat> := seq(17, t requires 0 <= t < 17 => CountLess(d, t));
    CountsSplit(d, bounds);
    bounds
  }

  function OpenFrom(open: set<nat>, s: nat): nat
    requires s <= 16
    decreases 16 - s
  {
    if s == 16 then 0 else (if s in open then 1 else 0) + OpenFrom(open, s + 1)
  }

  lemma {:induction false} OpenFromRank(open: set<nat>, s: nat)
    requires s <= 16 && forall t :: t in open ==> t < 16
    ensures OpenFrom(open, s) + Rank(open, s) == |open|
    decreases 16 - s
  {
    hide Rank;
    if s == 16 {
      AllRanked(open);
    } else {
      RankStep(open, s);
      OpenFromRank(open, s + 1);
    }
  }

  lemma AllRanked(open: set<nat>)
    requires forall t :: t in open ==> t < 16
    ensures Rank(open, 16) == |open|
  {
    assert Smaller(open, 16) == open;
  }

  /** The symbols of a list that need a child. */
  ghost function Open(d: seq<Prefix>): set<nat> {
    Undecided(FullSymbols(Denotes(d)), EmptySymbols(Denotes(d)))
  }

  ghost predicate Ready(d: seq<Prefix>, k: nat) {
    Sorted(d) && AllMasked(d) && Shallow(d, k)
  }

  /** Filling a node adds no more nodes than the prefixes call for. */
  lemma {:induction false} FillSize(nodes: seq<TreeNode>, idx: nat, d: seq<Prefix>, k: nat)
    requires idx < |nodes| && Ready(d, k)
    ensures |Fill(nodes, idx, Denotes(d), k)| <= |nodes| + Weight(d)
    decreases k, 17
  {
    hide FullSymbols, EmptySymbols, Denotes, Child, FillChildren, Weight, Splits, Sorted, AllMasked, Shallow, Smaller;
    var p, bounds := Denotes(d), Split(d);
    var open := Open(d);
    var r := nodes[idx := TreeNode(|nodes|, FullSymbols(p), EmptySymbols(p))] + EmptyNodes(|open|);
    assert Fill(nodes, idx, p, k) == FillChildren(r, |nodes|, open, p, k, 0);
    OpenFromRank(open, 0);
    RankZero(open);
    FillChildrenSize(r, |nodes|, d, bounds, k, 0);
    WholeList(d, bounds);
  }

  lemma WholeList(d: seq<Prefix>, bounds: seq<nat>)
    requires Splits(d, bounds)
    ensures bounds[0] == 0 && d[bounds[0]..] == d
  {
  }

  /** The children from `s` on, with the nodes already set aside for them, are within what their prefixes call for. */
  lemma {:induction false} FillChildrenSize(nodes: seq<TreeNode>, base: nat, d: seq<Prefix>, bounds: seq<nat>, k: nat, s: nat)
    requires s <= 16 && Ready(d, k) && Splits(d, bounds)
    requires base + |Open(d)| <= |nodes|
    ensures |FillChildren(nodes, base, Open(d), Denotes(d), k, s)| + OpenFrom(Open(d), s) <= |nodes| + Weight(d[bounds[s]..])
    decreases k, 16 - s
  {
    hide FullSymbols, EmptySymbols, Denotes, Child, Fill, Weight, Splits, Sorted, AllMasked, Shallow, Smaller, Rank, Open, Undecided;
    var open, p := Open(d), Denotes(d);
    assert forall t :: t in open ==> t < 16 by { OpenSymbols(d); }
    if s == 16 {
    } else {
      SegmentWeight(d, bounds, s);
      if s in open {
        OpenChild(d, bounds, k, s);
        RankTotal(open, s);
        var g := ShiftAll(d[bounds[s]..bounds[s + 1]]);
        var c := base + Rank(open, s);
        FillSize(nodes, c, g, k - 1);
        var nodes' := Fill(nodes, c, Child(p, s), k - 1);
        assert FillChildren(nodes, base, open, p, k, s) == FillChildren(nodes', base, open, p, k, s + 1);
        FillChildrenSize(nodes', base, d, bounds, k, s + 1);
      } else {
        assert FillChildren(nodes, base, open, p, k, s) == if k == 0 then nodes else FillChildren(nodes, base, open, p, k, s + 1);
        FillChildrenSize(nodes, base, d, bounds, k, s + 1);
        if k == 0 {
          NoChildren(nodes, base, open, p, s + 1);
        }
      }
    }
  }

  lemma OpenSymbols(d: seq<Prefix>)
    ensures forall t :: t in Open(d) ==> t < 16
  {
    hide Denotes;
  }

  lemma NoChildren(nodes: seq<TreeNode>, base: nat, open: set<nat>, p: iset<int>, s: nat)
    requires s <= 16 && base + |open| <= |nodes| && forall t :: t in open ==> t < 16
    ensures FillChildren(nodes, base, open, p, 0, s) == nodes
  {
  }

  lemma SegmentWeight(d: seq<Prefix>, bounds: seq<nat>, s: nat)
    requires Splits(d, bounds) && s < 16
    ensures |bounds| == 17 && bounds[s] <= bounds[s + 1] <= |d|
    ensures Weight(d[bounds[s]..]) == Weight(d[bounds[s]..bounds[s + 1]]) + Weight(d[bounds[s + 1]..])
  {
    assert bounds[s] <= bounds[s + 1] <= bounds[16];
    WeightJoin(d[bounds[s]..bounds[s + 1]], d[bounds[s + 1]..]);
    assert d[bounds[s]..] == d[bounds[s]..bounds[s + 1]] + d[bounds[s + 1]..];
  }

  /** The child of an open symbol is filled from its shifted prefixes, which call for at least one node less. */
  lemma OpenChild(d: seq<Prefix>, bounds: seq<nat>, k: nat, s: nat)
    requires Ready(d, k) && Splits(d, bounds) && s in Open(d)
    ensures s < 16 && bounds[s] <= bounds[s + 1] <= |d| && AllLong(d, bounds[s], bounds[s + 1]) && k > 0
    ensures var g := ShiftAll(d[bounds[s]..bounds[s + 1]]);
            && Ready(g, k - 1) && Denotes(g) == Child(Denotes(d), s)
            && 1 + Weight(g) <= Weight(d[bounds[s]..bounds[s + 1]])
  {
    hide FullSymbols, EmptySymbols, Denotes, Child, Weight, ShiftAll, Sorted, AllMasked, Shallow;
    UndecidedLong(d, bounds, s);
    assert bounds[s] <= bounds[s + 1] <= bounds[16];
    SliceLong(d, bounds[s], bounds[s + 1]);
    ChildSegment(d, bounds, s, k);
    ShiftedWeight(d[bounds[s]..bounds[s + 1]]);
  }

  lemma SliceLong(d: seq<Prefix>, a: nat, b: nat)
    requires a <= b <= |d| && AllLong(d, a, b)
    ensures forall i :: 0 <= i < b - a ==> d[a..b][i].len > 4
  {
    assert forall i :: 0 <= i < b - a ==> d[a..b][i] == d[a + i];
  }

  /* ---- Main results ---- */

  /** A trie has at most one node and another 31 for each prefix. */
  lemma TreeSize(d: seq<Prefix>)
    ensures |Tree(Values(d))| <= 1 + 31 * |d|
  {
    hide Denotes, Sorted, AllMasked, Fill, Weight, MaskAll, Sort;
    var m := MaskAll(d);
    MaskAllDenotes(d);
    SortDenotes(m);
    SortOrders(m);
    SortPermutes(m);
    SameLength(Sort(m), m);
    SameSize(d);
    assert Shallow(Sort(m), 32);
    FillSize([DEFAULT_NODE], 0, Sort(m), 32);
    WeightBound(Sort(m));
  }

  lemma SameSize(d: seq<Prefix>)
    ensures |MaskAll(d)| == |d|
  {
  }

  predicate Offsets(nodes: seq<TreeNode>, limit: nat) {
    forall i :: 0 <= i < |nodes| ==> nodes[i].childOffset <= limit
  }

  /** No offset points beyond the end of the array. */
  lemma {:induction false} FillOffsets(nodes: seq<TreeNode>, idx: nat, p: iset<int>, k: nat)
    requires idx < |nodes| && Offsets(nodes, |nodes|)
    ensures var r := Fill(nodes, idx, p, k); Offsets(r, |r|)
    decreases k, 17
  {
    hide FullSymbols, EmptySymbols, Child, FillChildren, Smaller;
    var inset, outset := FullSymbols(p), EmptySymbols(p);
    var r := nodes[idx := TreeNode(|nodes|, inset, outset)] + EmptyNodes(|Undecided(inset, outset)|);
    assert Fill(nodes, idx, p, k) == FillChildren(r, |nodes|, Undecided(inset, outset), p, k, 0);
    FillChildrenOffsets(r, |nodes|, Undecided(inset, outset), p, k, 0);
  }

  lemma {:induction false} FillChildrenOffsets(nodes: seq<TreeNode>, base: nat, open: set<nat>, p: iset<int>, k: nat, s: nat)
    requires s <= 16 && base + |open| <= |nodes| && (forall t :: t in open ==> t < 16) && Offsets(nodes, |nodes|)
    ensures var r := FillChildren(nodes, base, open, p, k, s); Offsets(r, |r|)
    decreases k, 16 - s
  {
    hide Child, Fill, Smaller, Rank, Offsets;
    if s < 16 && k > 0 {
      if s in open {
        RankTotal(open, s);
        FillOffsets(nodes, base + Rank(open, s), Child(p, s), k - 1);
        FillChildrenOffsets(Fill(nodes, base + Rank(open, s), Child(p, s), k - 1), base, open, p, k, s + 1);
      } else {
        FillChildrenOffsets(nodes, base, open, p, k, s + 1);
      }
    }
  }

  /** The longest list for which no offset can pass 32 bits. */
  const MAX_PREFIXES := 138_547_332

  /** Up to that many prefixes, keeping 32 bits of an offset keeps all of it. */
  lemma OffsetsFit(d: seq<Prefix>)
    requires |d| <= MAX_PREFIXES
    ensures Offsets(Tree(Values(d)), 0xFFFF_FFFF)
  {
    hide Fill, Values;
    TreeSize(d);
    FillOffsets([DEFAULT_NODE], 0, Values(d), 32);
  }
}
