/**
 A sorted list of masked prefixes, split by top nibble: which blocks its segments fill, and what
 remains of a segment once the top nibble is shifted out.
 */
module Segments {
  import opened PowersOfTwo
  import opened PrefixSets

  /** The order in which `create` sorts: by value, then by length. */
  predicate Before(p: Prefix, q: Prefix) {
    p.val < q.val || (p.val == q.val && p.len <= q.len)
  }

  predicate Sorted(d: seq<Prefix>) {
    forall i, j :: 0 <= i < j < |d| ==> Before(d[i], d[j])
  }

  function Count(d: seq<Prefix>, t: nat): nat {
    if d == [] then 0
    else Count(d[..|d| - 1], t) + if TopNibble(d[|d| - 1].val) == t then 1 else 0
  }

  function CountLess(d: seq<Prefix>, t: nat): nat {
    if d == [] then 0
    else CountLess(d[..|d| - 1], t) + if TopNibble(d[|d| - 1].val) < t then 1 else 0
  }

  lemma {:induction false} CountLessStep(d: seq<Prefix>, t: nat)
    ensures CountLess(d, t + 1) == CountLess(d, t) + Count(d, t)
  {
    if d != [] {
      CountLessStep(d[..|d| - 1], t);
    }
  }

  lemma {:induction false} CountLessMonotone(d: seq<Prefix>, s: nat, t: nat)
    requires s <= t
    ensures CountLess(d, s) <= CountLess(d, t)
    decreases t - s
  {
    if s < t {
      CountLessStep(d, s);
      CountLessMonotone(d, s + 1, t);
    }
  }

  lemma {:induction false} CountLessNone(d: seq<Prefix>)
    ensures CountLess(d, 0) == 0
  {
    if d != [] {
      CountLessNone(d[..|d| - 1]);
    }
  }

  lemma {:induction false} CountLessAll(d: seq<Prefix>, t: nat)
    requires forall j :: 0 <= j < |d| ==> TopNibble(d[j].val) < t
    ensures CountLess(d, t) == |d|
  {
    if d != [] {
      CountLessAll(d[..|d| - 1], t);
    }
  }

  /** In a sorted list the prefixes with a smaller nibble come first. */
  lemma {:induction false} CountLessIsSplit(d: seq<Prefix>, t: nat)
    requires Sorted(d)
    ensures CountLess(d, t) <= |d|
    ensures forall j :: 0 <= j < |d| ==> (j < CountLess(d, t) <==> TopNibble(d[j].val) < t)
  {
    if d != [] {
      var init := d[..|d| - 1];
      CountLessIsSplit(init, t);
      assert forall j :: 0 <= j < |init| ==> init[j] == d[j] && Before(d[j], d[|d| - 1]);
      if TopNibble(d[|d| - 1].val) < t {
        CountLessAll(d, t);
      }
    }
  }

  /** `bounds` cuts the list into its sixteen segments. */
  predicate Splits(d: seq<Prefix>, bounds: seq<nat>) {
    && |bounds| == 17 && bounds[0] == 0 && bounds[16] == |d|
    && (forall s, t :: 0 <= s <= t <= 16 ==> bounds[s] <= bounds[t])
    && (forall s, j :: 0 <= s < 16 && bounds[s] <= j < bounds[s + 1] ==> TopNibble(d[j].val) == s)
  }

  lemma CountsSplit(d: seq<Prefix>, bounds: seq<nat>)
    requires Sorted(d)
    requires |bounds| == 17 && forall t :: 0 <= t <= 16 ==> bounds[t] == CountLess(d, t)
    ensures Splits(d, bounds)
  {
    CountLessNone(d);
    CountLessAll(d, 16);
    forall s, t | 0 <= s <= t <= 16
      ensures bounds[s] <= bounds[t]
    {
      CountLessMonotone(d, s, t);
    }
    forall s, j | 0 <= s < 16 && bounds[s] <= j < bounds[s + 1]
      ensures TopNibble(d[j].val) == s
    {
      CountLessIsSplit(d, s);
      CountLessIsSplit(d, s + 1);
    }
  }

  /** The symbols from `s` to `s + n - 1`. */
  function Run(s: nat, n: nat): set<nat> {
    if n == 0 then {} else Run(s, n - 1) + {s + n - 1}
  }

  lemma {:induction false} RunMember(s: nat, n: nat, t: nat)
    ensures t in Run(s, n) <==> s <= t < s + n
  {
    if n > 0 {
      RunMember(s, n - 1, t);
    }
  }

  /** A part of the list that lies in one block, after a part that lies in earlier blocks. */
  ghost predicate Segment(d: seq<Prefix>, a: nat, b: nat, s: nat) {
    && a <= b <= |d| && s < 16 && Sorted(d) && AllMasked(d)
    && (forall j :: 0 <= j < a ==> TopNibble(d[j].val) < s)
    && (forall j :: a <= j < b ==> TopNibble(d[j].val) == s)
  }

  lemma CoversSplit(d: seq<Prefix>, a: nat, b: nat, x: int)
    requires a <= b <= |d|
    ensures Covers(d[..b], x) <==> Covers(d[..a], x) || Covers(d[a..b], x)
  {
    if Covers(d[..b], x) {
      var i :| 0 <= i < b && InRange(d[..b][i], x);
      if i < a {
        assert d[..a][i] == d[i];
      } else {
        assert d[a..b][i - a] == d[i];
      }
    }
    if Covers(d[..a], x) {
      var i :| 0 <= i < a && InRange(d[..a][i], x);
      assert d[..b][i] == d[i];
    }
    if Covers(d[a..b], x) {
      var i :| 0 <= i < b - a && InRange(d[a..b][i], x);
      assert d[..b][a + i] == d[a + i];
    }
  }

  /** What the earlier blocks' prefixes cover of a block is all of it or nothing. */
  lemma EarlierAllOrNothing(d: seq<Prefix>, a: nat, b: nat, s: nat, x: int, y: int)
    requires Segment(d, a, b, s) && InBlock(s, x) && InBlock(s, y) && Covers(d[..a], x)
    ensures Covers(d[..a], y)
  {
    var i :| 0 <= i < a && InRange(d[..a][i], x);
    OtherBlockAllOrNothing(d[i], s, x, y);
    assert InRange(d[..a][i], y);
  }

  /** If the first prefix of a segment is longer than four bits, then all are. */
  lemma NarrowSegment(d: seq<Prefix>, a: nat, b: nat, s: nat, j: nat)
    requires Segment(d, a, b, s) && a <= j < b && d[a].len > 4
    ensures d[j].len > 4
  {
    assert j == a || Before(d[a], d[j]);
    if d[j].len <= 4 {
      WideIsBlocks(d[j]);
    }
  }

  /** A segment whose first prefix is short covers just the run of blocks of that prefix. */
  lemma WideSegmentCovers(d: seq<Prefix>, a: nat, b: nat, s: nat, x: int)
    requires Segment(d, a, b, s) && a < b && d[a].len <= 4
    ensures Covers(d[a..b], x) <==> InRange(d[a], x)
  {
    assert d[a..b][0] == d[a];
    WideIsBlocks(d[a]);
    if Covers(d[a..b], x) {
      var i :| 0 <= i < b - a && InRange(d[a..b][i], x);
      var p := d[a + i];
      assert i == 0 || Before(d[a], p);
      LaterInside(d[a], p, x);
    }
  }

  /** A short prefix contains every later prefix that starts in the same block. */
  lemma LaterInside(p: Prefix, q: Prefix, x: int)
    requires Masked(p) && Masked(q) && p.len <= 4 && TopNibble(p.val) == TopNibble(q.val)
    requires (p == q || Before(p, q)) && InRange(q, x)
    ensures InRange(p, x)
  {
    WideIsBlocks(p);
    if q.len >= 4 {
      NarrowInBlock(q);
    } else {
      WideIsBlocks(q);
      Pow2Monotone(4 - q.len, 4 - p.len);
      MulMonotone(Pow2(4 - q.len), Pow2(4 - p.len), BLOCK);
    }
  }

  lemma {:induction false} Pow2Monotone(m: nat, n: nat)
    requires m <= n
    ensures Pow2(m) <= Pow2(n)
  {
    if m < n {
      Pow2Monotone(m, n - 1);
    }
  }

  lemma NarrowSegmentCovers(d: seq<Prefix>, a: nat, b: nat, s: nat, x: int)
    requires Segment(d, a, b, s) && a < b && d[a].len > 4 && Covers(d[a..b], x)
    ensures InBlock(s, x)
  {
    var i :| 0 <= i < b - a && InRange(d[a..b][i], x);
    NarrowSegment(d, a, b, s, a + i);
    NarrowInBlock(d[a + i]);
  }

  lemma WideBlock(d: seq<Prefix>, a: nat, b: nat, s: nat, t: nat)
    requires Segment(d, a, b, s) && a < b && d[a].len <= 4 && t < 16
    ensures BlockIn(Denotes(d[..b]), t) <==>
            BlockIn(Denotes(d[..a]), t) || s <= t < s + Pow2(4 - d[a].len)
  {
    WideIsBlocks(d[a]);
    var n := Pow2(4 - d[a].len);
    forall x | InBlock(t, x)
      ensures x in Denotes(d[..b]) <==> x in Denotes(d[..a]) || s <= t < s + n
    {
      CoversSplit(d, a, b, x);
      WideSegmentCovers(d, a, b, s, x);
    }
  }

  /** A segment that starts with a short prefix fills the run of blocks of that prefix. */
  lemma WideStep(d: seq<Prefix>, a: nat, b: nat, s: nat)
    requires Segment(d, a, b, s) && a < b && d[a].len <= 4
    ensures s + Pow2(4 - d[a].len) <= 16
    ensures FullSymbols(Denotes(d[..b])) == FullSymbols(Denotes(d[..a])) + Run(s, Pow2(4 - d[a].len))
  {
    hide Denotes, BlockIn;
    WideIsBlocks(d[a]);
    var n := Pow2(4 - d[a].len);
    forall t: nat
      ensures t in FullSymbols(Denotes(d[..b])) <==> t in FullSymbols(Denotes(d[..a])) + Run(s, n)
    {
      RunMember(s, n, t);
      if t < 16 {
        WideBlock(d, a, b, s, t);
      }
    }
  }

  /** A segment of long prefixes can only fill its own block, and only by itself. */
  lemma NarrowBlock(d: seq<Prefix>, a: nat, b: nat, s: nat, t: nat)
    requires Segment(d, a, b, s) && a < b && d[a].len > 4 && t < 16
    ensures BlockIn(Denotes(d[..b]), t) <==>
            BlockIn(Denotes(d[..a]), t) || (t == s && BlockIn(Denotes(d[a..b]), s))
  {
    forall x | InBlock(t, x)
      ensures x in Denotes(d[..b]) <==> x in Denotes(d[..a]) || x in Denotes(d[a..b])
      ensures x in Denotes(d[a..b]) ==> t == s
    {
      CoversSplit(d, a, b, x);
      if Covers(d[a..b], x) {
        NarrowSegmentCovers(d, a, b, s, x);
      }
    }
    if t == s {
      forall x, y | InBlock(s, x) && InBlock(s, y) && x in Denotes(d[..a])
        ensures y in Denotes(d[..a])
      {
        EarlierAllOrNothing(d, a, b, s, x, y);
      }
    }
  }

  lemma NarrowStep(d: seq<Prefix>, a: nat, b: nat, s: nat)
    requires Segment(d, a, b, s) && a < b && d[a].len > 4
    ensures FullSymbols(Denotes(d[..b])) ==
            FullSymbols(Denotes(d[..a])) + if BlockIn(Denotes(d[a..b]), s) then {s} else {}
  {
    hide Denotes, BlockIn;
    forall t: nat | t < 16
      ensures t in FullSymbols(Denotes(d[..b])) <==>
              t in FullSymbols(Denotes(d[..a])) + if BlockIn(Denotes(d[a..b]), s) then {s} else {}
    {
      NarrowBlock(d, a, b, s, t);
    }
  }

  /** A block is empty exactly when its segment is and no earlier prefix covers the block. */
  lemma OutIffNoSegment(d: seq<Prefix>, bounds: seq<nat>, s: nat)
    requires AllMasked(d) && Splits(d, bounds) && s < 16
    ensures BlockOut(Denotes(d), s) <==> bounds[s] == bounds[s + 1] && !BlockIn(Denotes(d), s)
  {
    assert InBlock(s, s * BLOCK);
    if bounds[s] < bounds[s + 1] {
      var p := d[bounds[s]];
      assert InRange(p, p.val) && InBlock(s, p.val) && p.val in Denotes(d);
    } else {
      forall x, y | InBlock(s, x) && InBlock(s, y) && x in Denotes(d)
        ensures y in Denotes(d)
      {
        var i :| 0 <= i < |d| && InRange(d[i], x);
        SegmentOf(d, bounds, i);
        OtherBlockAllOrNothing(d[i], s, x, y);
        assert InRange(d[i], y);
      }
    }
  }

  /** Every prefix lies in the segment of its top nibble. */
  lemma SegmentOf(d: seq<Prefix>, bounds: seq<nat>, i: nat)
    requires Splits(d, bounds) && i < |d|
    ensures var s := TopNibble(d[i].val); bounds[s] <= i < bounds[s + 1]
  {
    var s := FindSegment(bounds, i, 16);
    assert TopNibble(d[i].val) == s;
  }

  lemma {:induction false} FindSegment(bounds: seq<nat>, i: nat, n: nat) returns (s: nat)
    requires n < |bounds| && bounds[0] == 0 && i < bounds[n]
    ensures s < n && bounds[s] <= i < bounds[s + 1]
  {
    if bounds[n - 1] <= i {
      s := n - 1;
    } else {
      s := FindSegment(bounds, i, n - 1);
    }
  }

  /** A prefix with its top nibble shifted out, as the children see it. */
  function Shift(p: Prefix): (r: Prefix)
    requires p.len >= 4
  {
    Prefix((16 * p.val) % WORD, p.len - 4)
  }

  function ShiftAll(d: seq<Prefix>): (r: seq<Prefix>)
    requires forall i :: 0 <= i < |d| ==> d[i].len >= 4
  {
    seq(|d|, i requires 0 <= i < |d| => Shift(d[i]))
  }

  lemma ShiftVal(v: Word)
    ensures (16 * v) % WORD == 16 * (v - TopNibble(v) * BLOCK)
  {
    DivisionBounds(16 * v, TopNibble(v), WORD);
  }

  lemma ShiftMasked(p: Prefix)
    requires Masked(p) && p.len >= 4
    ensures Masked(Shift(p))
  {
    ShiftVal(p.val);
    WidthFacts(p.len);
    var w, n, s := Width(p.len), Pow2(p.len - 4), TopNibble(p.val);
    MulAssociative(s, n, w);
    MultipleMod(s * n, w);
    ShiftedMultiple(p.val, s * BLOCK, w);
  }

  /** Shifting a prefix of block `s` shifts the interval it stands for. */
  lemma ShiftRange(p: Prefix, y: int)
    requires p.len >= 4
    ensures InRange(Shift(p), y) <==> InRange(p, TopNibble(p.val) * BLOCK + y / 16)
  {
    ShiftVal(p.val);
    WidthFacts(p.len);
  }

  /** What is left of a segment stays sorted and masked. */
  lemma ShiftAllOrdered(d: seq<Prefix>, s: nat)
    requires Sorted(d) && AllMasked(d)
    requires forall i :: 0 <= i < |d| ==> d[i].len >= 4 && TopNibble(d[i].val) == s
    ensures Sorted(ShiftAll(d)) && AllMasked(ShiftAll(d))
  {
    var r := ShiftAll(d);
    forall i, j | 0 <= i < j < |r|
      ensures Before(r[i], r[j])
    {
      ShiftVal(d[i].val);
      ShiftVal(d[j].val);
      assert Before(d[i], d[j]);
    }
    forall i | 0 <= i < |r|
      ensures Masked(r[i])
    {
      ShiftMasked(d[i]);
    }
  }

  /** The segment of an undecided symbol, shifted, stands for the rest of the set. */
  lemma ShiftedSegment(d: seq<Prefix>, bounds: seq<nat>, s: nat)
    requires AllMasked(d) && Splits(d, bounds) && s < 16 && !BlockIn(Denotes(d), s)
    requires forall i :: bounds[s] <= i < bounds[s + 1] ==> d[i].len >= 4
    ensures Denotes(ShiftAll(d[bounds[s]..bounds[s + 1]])) == Child(Denotes(d), s)
  {
    var g := d[bounds[s]..bounds[s + 1]];
    forall y | 0 <= y < WORD
      ensures y in Denotes(ShiftAll(g)) <==> y in Child(Denotes(d), s)
    {
      hide ShiftAll, InRange, BlockIn;
      if Covers(ShiftAll(g), y) {
        ShiftedCovers(d, bounds[s], bounds[s + 1], s, y);
      }
      if Covers(d, s * BLOCK + y / 16) {
        CoversShifted(d, bounds, s, y);
      }
    }
  }

  lemma ShiftedCovers(d: seq<Prefix>, a: nat, b: nat, s: nat, y: int)
    requires a <= b <= |d|
    requires forall i :: a <= i < b ==> d[i].len >= 4 && TopNibble(d[i].val) == s
    requires Covers(ShiftAll(d[a..b]), y)
    ensures Covers(d, s * BLOCK + y / 16)
  {
    var r := ShiftAll(d[a..b]);
    var i :| 0 <= i < |r| && InRange(r[i], y);
    ShiftRange(d[a + i], y);
    assert InRange(d[a + i], s * BLOCK + y / 16);
  }

  lemma CoversShifted(d: seq<Prefix>, bounds: seq<nat>, s: nat, y: int)
    requires AllMasked(d) && Splits(d, bounds) && s < 16 && !BlockIn(Denotes(d), s)
    requires forall i :: bounds[s] <= i < bounds[s + 1] ==> d[i].len >= 4
    requires 0 <= y < WORD && Covers(d, s * BLOCK + y / 16)
    ensures Covers(ShiftAll(d[bounds[s]..bounds[s + 1]]), y)
  {
    var i :| 0 <= i < |d| && InRange(d[i], s * BLOCK + y / 16);
    UndecidedCover(d, bounds, s, i, s * BLOCK + y / 16);
    ShiftRange(d[i], y);
    assert InRange(ShiftAll(d[bounds[s]..bounds[s + 1]])[i - bounds[s]], y);
  }

  /** A value of a block that is not full can only be covered from the block's own segment. */
  lemma UndecidedCover(d: seq<Prefix>, bounds: seq<nat>, s: nat, i: nat, x: int)
    requires AllMasked(d) && Splits(d, bounds) && s < 16 && !BlockIn(Denotes(d), s)
    requires i < |d| && InBlock(s, x) && InRange(d[i], x)
    ensures bounds[s] <= i < bounds[s + 1]
  {
    SegmentOf(d, bounds, i);
    if TopNibble(d[i].val) != s {
      forall y | InBlock(s, y)
        ensures y in Denotes(d)
      {
        OtherBlockAllOrNothing(d[i], s, x, y);
      }
    }
  }

  /** Where a sweep over the parts of a block has got to: up to `last` all is covered, and no
      part starts at or before `last` without ending there. */
  ghost predicate Swept(g: seq<Prefix>, s: nat, last: int) {
    && 0 <= last
    && (forall x :: s * BLOCK <= x < s * BLOCK + last ==> Covers(g, x))
    && (forall i :: 0 <= i < |g| ==> !InRange(g[i], s * BLOCK + last))
  }

  lemma SweptStep(g: seq<Prefix>, s: nat, last: int, p: Prefix)
    requires Sorted(g + [p]) && Swept(g, s, last)
    requires s * BLOCK <= p.val
    ensures var start := p.val - s * BLOCK;
            var end := start + Width(p.len);
            Swept(g + [p], s, if start <= last && last < end then end else last)
  {
    var start := p.val - s * BLOCK;
    var end := start + Width(p.len);
    var last' := if start <= last && last < end then end else last;
    var h := g + [p];
    forall x | s * BLOCK <= x < s * BLOCK + last'
      ensures Covers(h, x)
    {
      if x < s * BLOCK + last {
        assert Covers(g, x);
        var i :| 0 <= i < |g| && InRange(g[i], x);
        assert InRange(h[i], x);
      } else {
        assert InRange(h[|g|], x);
      }
    }
    forall i | 0 <= i < |h|
      ensures !InRange(h[i], s * BLOCK + last')
    {
      if i < |g| {
        assert h[i] == g[i] && h[|g|] == p && Before(h[i], h[|g|]);
      }
    }
  }

  /** The sweep reaches the end of the block exactly when the parts cover it. */
  lemma SweptDecides(g: seq<Prefix>, s: nat, last: int)
    requires Swept(g, s, last) && s < 16
    ensures last >= BLOCK <==> BlockIn(Denotes(g), s)
  {
    if last < BLOCK {
      assert InBlock(s, s * BLOCK + last);
    }
  }
}
