/**
 The flat trie over 128-bit values: its nodes, the layout that filling produces for a set of
 values, and what a walk over a canonical layout answers.

 A sixteen-bit bitmap is the set of its bit positions: `|` is union, `& !` is difference and
 `count_ones` is the cardinality.
 */
module Trie {
  import opened PowersOfTwo
  import opened PrefixSets

  datatype TreeNode = TreeNode(childOffset: nat, inset: set<nat>, outset: set<nat>)

  const DEFAULT_NODE := TreeNode(0, {}, {})

  /** The symbols on which a node with these bitmaps takes no decision. */
  function Undecided(inset: set<nat>, outset: set<nat>): set<nat> {
    set s: nat | s < 16 && s !in inset && s !in outset
  }

  /** The undecided symbols smaller than `s`, whose number is the position of the child for `s`. */
  function Smaller(open: set<nat>, s: nat): set<nat> {
    set t | t in open && t < s
  }

  function Rank(open: set<nat>, s: nat): nat {
    |Smaller(open, s)|
  }

  function ChildIndex(node: TreeNode, s: nat): nat {
    node.childOffset + Rank(Undecided(node.inset, node.outset), s)
  }

  lemma RankStep(open: set<nat>, s: nat)
    ensures Rank(open, s + 1) == Rank(open, s) + if s in open then 1 else 0
  {
    assert Smaller(open, s + 1) == Smaller(open, s) + if s in open then {s} else {};
  }

  lemma RankZero(open: set<nat>)
    ensures Rank(open, 0) == 0
  {
    assert Smaller(open, 0) == {};
  }

  lemma {:induction false} RankMonotone(open: set<nat>, s: nat, t: nat)
    requires s <= t
    ensures Rank(open, s) <= Rank(open, t)
    ensures s in open && s < t ==> Rank(open, s) < Rank(open, t)
    decreases t - s
  {
    if s < t {
      RankStep(open, s);
      RankMonotone(open, s + 1, t);
    }
  }

  lemma RankTotal(open: set<nat>, s: nat)
    requires s <= 16 && forall t :: t in open ==> t < 16
    ensures Rank(open, s) <= |open|
    ensures s in open ==> Rank(open, s) < |open|
  {
    assert Smaller(open, 16) == open;
    RankMonotone(open, s, 16);
  }

  /** The nodes added for the children of one node. */
  function EmptyNodes(n: nat): (r: seq<TreeNode>)
    ensures |r| == n && forall i :: 0 <= i < n ==> r[i] == DEFAULT_NODE
  {
    seq(n, i => DEFAULT_NODE)
  }

  /**
   The array after node `idx` has been filled for the set `p`, when at most `k` nibbles are left.
   The result depends on `p` only, not on the list of prefixes that stands for it.
   */
  ghost function Fill(nodes: seq<TreeNode>, idx: nat, p: iset<int>, k: nat): (r: seq<TreeNode>)
    requires idx < |nodes|
    ensures |r| >= |nodes|
    ensures forall j :: 0 <= j < |nodes| && j != idx ==> r[j] == nodes[j]
    decreases k, 17
  {
    var inset, outset := FullSymbols(p), EmptySymbols(p);
    var open := Undecided(inset, outset);
    var r := nodes[idx := TreeNode(|nodes|, inset, outset)] + EmptyNodes(|open|);
    FillChildren(r, |nodes|, open, p, k, 0)
  }

  /** The array after the children for the undecided symbols from `s` on have been filled. */
  ghost function FillChildren(nodes: seq<TreeNode>, base: nat, open: set<nat>, p: iset<int>, k: nat, s: nat)
    : (r: seq<TreeNode>)
    requires s <= 16
    requires forall t :: t in open ==> t < 16
    requires base + |open| <= |nodes|
    ensures |r| >= |nodes|
    ensures forall j :: 0 <= j < |nodes| && !(base + Rank(open, s) <= j < base + |open|) ==> r[j] == nodes[j]
    decreases k, 16 - s
  {
    RankStep(open, s);
    if s == 16 || k == 0 then nodes
    else if s in open then
      RankTotal(open, s);
      FillChildren(Fill(nodes, base + Rank(open, s), Child(p, s), k - 1), base, open, p, k, s + 1)
    else FillChildren(nodes, base, open, p, k, s + 1)
  }

  /**
   The subtree at `idx` decides exactly the set `p`: a symbol is in the in-bitmap iff its whole
   block is in `p`, in the out-bitmap iff none of it is, and otherwise there is a child that
   decides the rest. All nodes below `idx` lie in `lo..hi`.
   */
  ghost predicate Canonical(nodes: seq<TreeNode>, idx: nat, p: iset<int>, k: nat, lo: nat, hi: nat)
    decreases k
  {
    && idx < |nodes| && hi <= |nodes|
    && nodes[idx].inset == FullSymbols(p)
    && nodes[idx].outset == EmptySymbols(p)
    && forall s :: s in Undecided(nodes[idx].inset, nodes[idx].outset) ==>
         && k > 0
         && lo <= ChildIndex(nodes[idx], s) < hi
         && Canonical(nodes, ChildIndex(nodes[idx], s), Child(p, s), k - 1, lo, hi)
  }

  /** Only the node itself and the nodes of its range matter, and the range may grow. */
  lemma {:induction false} CanonicalFrame(
    nodes: seq<TreeNode>, nodes': seq<TreeNode>, idx: nat, p: iset<int>, k: nat,
    lo: nat, hi: nat, lo': nat, hi': nat)
    requires Canonical(nodes, idx, p, k, lo, hi)
    requires lo' <= lo && hi <= hi' <= |nodes'|
    requires idx < |nodes'| && nodes'[idx] == nodes[idx]
    requires forall j :: lo <= j < hi ==> nodes'[j] == nodes[j]
    ensures Canonical(nodes', idx, p, k, lo', hi')
    decreases k
  {
    forall s | s in Undecided(nodes'[idx].inset, nodes'[idx].outset)
      ensures Canonical(nodes', ChildIndex(nodes'[idx], s), Child(p, s), k - 1, lo', hi')
    {
      CanonicalFrame(nodes, nodes', ChildIndex(nodes[idx], s), Child(p, s), k - 1, lo, hi, lo', hi');
    }
  }

  predicate SameGrain(x: int, y: int, g: int)
    requires g > 0
  {
    0 <= x < WORD && 0 <= y < WORD && x / g == y / g
  }

  /** Membership is the same throughout every run of `g` values. */
  ghost predicate Uniform(p: iset<int>, g: int)
    requires g > 0
  {
    forall x, y :: SameGrain(x, y, g) ==> (x in p <==> y in p)
  }

  /** With `k` nibbles left, membership does not depend on the bits after those. */
  ghost predicate Grain(p: iset<int>, k: nat)
    requires k <= 32
  {
    Uniform(p, Pow2(128 - 4 * k))
  }

  lemma WholeGrain(p: iset<int>)
    ensures Grain(p, 32)
  {
    assert Pow2(0) == 1;
  }

  lemma GrainShift(s: nat, y: int, g: int, m: int)
    requires g > 0 && 0 <= y && m * g == BLOCK
    ensures (s * BLOCK + y / 16) / g == s * m + y / (16 * g)
  {
    var q := y / (16 * g);
    MulAssociative(s, m, g);
    assert q * (16 * g) <= y < (q + 1) * (16 * g);
    MulAssociative(q, 16, g);
    MulAssociative(q + 1, 16, g);
    DivisionBounds(s * BLOCK + y / 16, s * m + q, g);
  }

  lemma ChildGrain(p: iset<int>, k: nat, s: nat)
    requires 0 < k <= 32 && s < 16 && Grain(p, k)
    ensures Grain(Child(p, s), k - 1)
  {
    hide Uniform, Child;
    Pow2Step(128 - 4 * k);
    Pow2Add(4 * k - 4, 128 - 4 * k);
    Pow2Of124();
    ChildUniform(p, Pow2(128 - 4 * k), Pow2(4 * k - 4), s);
  }

  lemma ChildUniform(p: iset<int>, g: int, m: int, s: nat)
    requires g > 0 && m * g == BLOCK && s < 16 && Uniform(p, g)
    ensures Uniform(Child(p, s), 16 * g)
  {
    forall x, y | SameGrain(x, y, 16 * g)
      ensures x in Child(p, s) <==> y in Child(p, s)
    {
      ChildSameGrain(s, x, y, g, m);
    }
  }

  lemma ChildSameGrain(s: nat, x: int, y: int, g: int, m: int)
    requires s < 16 && g > 0 && m * g == BLOCK && SameGrain(x, y, 16 * g)
    ensures SameGrain(s * BLOCK + x / 16, s * BLOCK + y / 16, g)
  {
    GrainShift(s, x, g, m);
    GrainShift(s, y, g, m);
  }

  /** Once no nibble is left, every symbol is decided. */
  lemma NothingLeft(p: iset<int>)
    requires Grain(p, 0)
    ensures Undecided(FullSymbols(p), EmptySymbols(p)) == {}
  {
    Pow2Of128();
    forall s: nat | s < 16
      ensures BlockIn(p, s) || BlockOut(p, s)
    {
      var x := s * BLOCK;
      forall y | InBlock(s, y)
        ensures x in p <==> y in p
      {
        assert SameGrain(x, y, WORD);
      }
    }
  }

  /** Filling a node yields a canonical subtree whose nodes are all new. */
  lemma {:induction false} FillCanonical(nodes: seq<TreeNode>, idx: nat, p: iset<int>, k: nat)
    requires idx < |nodes| && k <= 32 && Grain(p, k)
    ensures var r := Fill(nodes, idx, p, k); Canonical(r, idx, p, k, |nodes|, |r|)
    decreases k, 17
  {
    hide FullSymbols, EmptySymbols, Child, Grain, Smaller;
    var inset, outset := FullSymbols(p), EmptySymbols(p);
    var open := Undecided(inset, outset);
    if k == 0 {
      NothingLeft(p);
    } else {
      var r := nodes[idx := TreeNode(|nodes|, inset, outset)] + EmptyNodes(|open|);
      var f := FillChildren(r, |nodes|, open, p, k, 0);
      assert f == Fill(nodes, idx, p, k);
      assert f[idx] == TreeNode(|nodes|, inset, outset);
      forall s | s in open
        ensures Rank(open, s) < |open|
        ensures Canonical(f, |nodes| + Rank(open, s), Child(p, s), k - 1, |nodes|, |f|)
      {
        RankTotal(open, s);
        FillChildCanonical(r, |nodes|, open, p, k, 0, s);
      }
    }
  }

  /** The child for `t` is canonical, and filling the later children leaves it so. */
  lemma {:induction false} FillChildCanonical(
    nodes: seq<TreeNode>, base: nat, open: set<nat>, p: iset<int>, k: nat, s: nat, t: nat)
    requires t in open && s <= t && 0 < k <= 32 && Grain(p, k)
    requires forall u :: u in open ==> u < 16
    requires base + |open| <= |nodes|
    ensures var r := FillChildren(nodes, base, open, p, k, s);
            Canonical(r, base + Rank(open, t), Child(p, t), k - 1, base, |r|)
    decreases k, 16 - s
  {
    hide FullSymbols, EmptySymbols, Child, Grain, Canonical, Smaller, Rank, Fill;
    RankTotal(open, s);
    RankStep(open, s);
    if s == t {
      ChildGrain(p, k, s);
      var c := base + Rank(open, s);
      FillCanonical(nodes, c, Child(p, s), k - 1);
      var nodes' := Fill(nodes, c, Child(p, s), k - 1);
      var r := FillChildren(nodes', base, open, p, k, s + 1);
      assert r == FillChildren(nodes, base, open, p, k, s);
      CanonicalFrame(nodes', r, c, Child(p, s), k - 1, |nodes|, |nodes'|, base, |r|);
    } else if s in open {
      var nodes' := Fill(nodes, base + Rank(open, s), Child(p, s), k - 1);
      assert FillChildren(nodes, base, open, p, k, s) == FillChildren(nodes', base, open, p, k, s + 1);
      FillChildCanonical(nodes', base, open, p, k, s + 1, t);
    } else {
      assert FillChildren(nodes, base, open, p, k, s) == FillChildren(nodes, base, open, p, k, s + 1);
      FillChildCanonical(nodes, base, open, p, k, s + 1, t);
    }
  }

  /** Dropping the top nibble of `x` moves the question to the child. */
  lemma ChildMember(p: iset<int>, x: Word)
    ensures var y := (16 * x) % WORD; 0 <= y < WORD && (y in Child(p, TopNibble(x)) <==> x in p)
  {
    var s := TopNibble(x);
    var y := 16 * (x - s * BLOCK);
    assert 16 * x == s * WORD + y;
    DivisionBounds(16 * x, s, WORD);
    assert (16 * x) % WORD == y;
  }

  /** One array cannot decide two different sets. */
  lemma {:induction false} CanonicalInjective(
    nodes: seq<TreeNode>, idx: nat, p: iset<int>, q: iset<int>, k: nat, lo: nat, hi: nat, x: Word)
    requires Canonical(nodes, idx, p, k, lo, hi) && Canonical(nodes, idx, q, k, lo, hi)
    ensures x in p <==> x in q
    decreases k
  {
    var s := TopNibble(x);
    assert InBlock(s, x);
    var node := nodes[idx];
    if s in FullSymbols(p) {
      assert s in FullSymbols(q);
    } else if s in EmptySymbols(p) {
      assert s in EmptySymbols(q);
    } else {
      assert s in Undecided(node.inset, node.outset);
      ChildMember(p, x);
      ChildMember(q, x);
      CanonicalInjective(nodes, ChildIndex(node, s), Child(p, s), Child(q, s), k - 1, lo, hi, (16 * x) % WORD);
    }
  }
}
