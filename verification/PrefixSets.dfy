/** Powers of two, as widths of address blocks. */
module PowersOfTwo {

  function Pow2(n: nat): (r: nat)
    ensures r >= 1
  {
    if n == 0 then 1 else 2 * Pow2(n - 1)
  }

  lemma {:induction false} Pow2Add(a: nat, b: nat)
    ensures Pow2(a + b) == Pow2(a) * Pow2(b)
  {
    if a > 0 {
      Pow2Add(a - 1, b);
    }
  }

  lemma Pow2Step(n: nat)
    ensures Pow2(n + 4) == 16 * Pow2(n)
  {
    assert Pow2(n + 4) == 2 * Pow2(n + 3) == 4 * Pow2(n + 2) == 8 * Pow2(n + 1);
  }

  lemma Pow2Of32()
    ensures Pow2(32) == 0x1_0000_0000
  {
    assert Pow2(8) == 0x100;
    Pow2Add(8, 8);
    Pow2Add(16, 16);
  }

  lemma Pow2Of96()
    ensures Pow2(96) == 0x1_0000_0000_0000_0000_0000_0000
  {
    Pow2Of32();
    Pow2Add(32, 32);
    Pow2Add(32, 64);
  }

  lemma Pow2Of128()
    ensures Pow2(128) == 0x1_0000_0000_0000_0000_0000_0000_0000_0000
  {
    Pow2Of32();
    Pow2Of96();
    Pow2Add(32, 96);
  }

  lemma Pow2Of124()
    ensures Pow2(124) == 0x1000_0000_0000_0000_0000_0000_0000_0000
  {
    Pow2Of128();
    Pow2Step(124);
  }

  lemma MulMonotone(a: int, b: int, w: int)
    requires w >= 0
    ensures a <= b ==> a * w <= b * w
  {
  }

  lemma ModBound(v: int, w: int)
    requires v >= 0 && w > 0
    ensures 0 <= v % w <= v
  {
    assert v == (v / w) * w + v % w;
    MulMonotone(0, v / w, w);
  }

  lemma MulAssociative(a: int, b: int, c: int)
    ensures a * (b * c) == (a * b) * c
  {
  }

  /** Between a multiple of `w` and a larger one there is room for `w`. */
  lemma NextMultiple(v: int, m: int, w: int)
    requires w > 0 && v % w == 0 && v < m * w
    ensures v + w <= m * w
  {
    var q := v / w;
    assert v == q * w;
    MulMonotone(m, q, w);
    MulMonotone(q + 1, m, w);
  }

  /** A quotient is fixed by the interval it stands for. */
  lemma DivisionBounds(x: int, q: int, w: int)
    requires w > 0
    requires q * w <= x < (q + 1) * w
    ensures x / w == q
  {
    var k := x / w;
    assert k * w <= x < (k + 1) * w;
    MulMonotone(k + 1, q, w);
    MulMonotone(q + 1, k, w);
  }

  lemma MultipleMod(q: int, w: int)
    requires w > 0
    ensures (q * w) % w == 0
  {
    DivisionBounds(q * w, q, w);
  }

  /** Clearing what is below `w` gives the start of the interval of width `w` around a number. */
  lemma FloorRange(v: int, x: int, w: int)
    requires w > 0
    ensures (v - v % w) % w == 0
    ensures x - x % w == v - v % w <==> v - v % w <= x < v - v % w + w
  {
    var q, k := v / w, x / w;
    assert v - v % w == q * w && x - x % w == k * w;
    MultipleMod(q, w);
    if q * w <= x < q * w + w {
      assert (q + 1) * w == q * w + w;
      DivisionBounds(x, q, w);
    }
  }

  lemma MulDistributes(a: int, b: int, w: int)
    ensures (a - b) * w == a * w - b * w
  {
  }

  lemma ShiftedMultiple(v: int, c: int, w: int)
    requires w > 0 && v % w == 0 && c % w == 0
    ensures (16 * (v - c)) % (16 * w) == 0
  {
    var q, r := v / w, c / w;
    MulDistributes(q, r, w);
    assert 16 * (v - c) == (q - r) * (16 * w);
    MultipleMod(q - r, 16 * w);
  }

  lemma QuotientOfHigh(x: nat, n: int, c: int)
    requires n > 0 && c > 0
    ensures n * c > 0 && ((x / c) * c) / (n * c) == x / (n * c)
  {
    MulMonotone(1, n, c);
    var w, h := n * c, x / c;
    var q := x / w;
    assert q * w <= x < (q + 1) * w;
    MulAssociative(q, n, c);
    QuotientAtLeast(x, q * n, c);
    MulMonotone(q * n, h, c);
    DivisionBounds(h * c, q, w);
  }

  lemma QuotientAtLeast(x: int, m: int, c: int)
    requires c > 0 && m * c <= x
    ensures m <= x / c
  {
    MulMonotone(x / c + 1, m, c);
  }
}

/**
 Sets of 128-bit values given by prefixes, and how the sixteen blocks that share a top nibble
 sit inside them.
 */
module PrefixSets {
  import opened PowersOfTwo

  /** 2^128 and 2^124: the number of values, and the number that share one top nibble. */
  const WORD: int := 0x1_0000_0000_0000_0000_0000_0000_0000_0000
  const BLOCK: int := 0x1000_0000_0000_0000_0000_0000_0000_0000

  type Word = x: int | 0 <= x < WORD
  type PrefixLen = l: int | 0 <= l <= 128

  datatype Prefix = Prefix(val: Word, len: PrefixLen)

  /** How many values share a prefix of the given length. */
  function Width(len: PrefixLen): nat {
    Pow2(128 - len)
  }

  function TopNibble(v: Word): (n: nat)
    ensures n < 16
    ensures n * BLOCK <= v < (n + 1) * BLOCK
  {
    v / BLOCK
  }

  /** Keep the top `len` bits of `val` and clear the rest. */
  function ApplyMask(val: Word, len: PrefixLen): (r: Word)
    ensures r <= val
  {
    ModBound(val, Width(len));
    val - val % Width(len)
  }

  /** Only significant bits are set. */
  predicate Masked(p: Prefix) {
    p.val % Width(p.len) == 0
  }

  predicate AllMasked(d: seq<Prefix>) {
    forall i :: 0 <= i < |d| ==> Masked(d[i])
  }

  /** The values of a masked prefix form an interval. */
  predicate InRange(p: Prefix, x: int) {
    p.val <= x < p.val + Width(p.len)
  }

  ghost predicate Covers(d: seq<Prefix>, x: int) {
    exists i :: 0 <= i < |d| && InRange(d[i], x)
  }

  /** The set of values that a list of masked prefixes stands for. */
  ghost function Denotes(d: seq<Prefix>): iset<int> {
    iset x | 0 <= x < WORD && Covers(d, x)
  }

  predicate InBlock(s: nat, x: int) {
    s * BLOCK <= x < (s + 1) * BLOCK
  }

  /** Every value whose top nibble is `s` is in `p`. */
  ghost predicate BlockIn(p: iset<int>, s: nat) {
    forall x :: InBlock(s, x) ==> x in p
  }

  /** No value whose top nibble is `s` is in `p`. */
  ghost predicate BlockOut(p: iset<int>, s: nat) {
    forall x :: InBlock(s, x) ==> x !in p
  }

  ghost function FullSymbols(p: iset<int>): set<nat> {
    set s: nat | s < 16 && BlockIn(p, s)
  }

  ghost function EmptySymbols(p: iset<int>): set<nat> {
    set s: nat | s < 16 && BlockOut(p, s)
  }

  /** The set as seen after the top nibble `s` has been shifted out. */
  ghost function Child(p: iset<int>, s: nat): iset<int> {
    iset y | 0 <= y < WORD && s * BLOCK + y / 16 in p
  }

  lemma WidthFacts(len: PrefixLen)
    ensures Width(0) == WORD && Width(4) == BLOCK
    ensures len >= 4 ==> Width(len - 4) == 16 * Width(len)
    ensures len >= 4 ==> Pow2(len - 4) * Width(len) == BLOCK
    ensures len <= 4 ==> Width(len) == Pow2(4 - len) * BLOCK && Pow2(4 - len) <= 16
  {
    Pow2Of124();
    Pow2Of128();
    if len >= 4 {
      Pow2Step(128 - len);
      Pow2Add(len - 4, 128 - len);
    }
    if len <= 4 {
      Pow2Add(4 - len, 124);
    }
  }

  /** A masked prefix of at least four bits stays inside the block of its top nibble. */
  lemma NarrowInBlock(p: Prefix)
    requires Masked(p) && p.len >= 4
    ensures p.val + Width(p.len) <= (TopNibble(p.val) + 1) * BLOCK
  {
    WidthFacts(p.len);
    var w, n, s := Width(p.len), Pow2(p.len - 4), TopNibble(p.val);
    MulAssociative(s + 1, n, w);
    NextMultiple(p.val, (s + 1) * n, w);
  }

  /** A masked prefix of at most four bits is a run of whole blocks. */
  lemma WideIsBlocks(p: Prefix)
    requires Masked(p) && p.len <= 4
    ensures p.val == TopNibble(p.val) * BLOCK
    ensures TopNibble(p.val) + Pow2(4 - p.len) <= 16
    ensures Width(p.len) == Pow2(4 - p.len) * BLOCK
  {
    hide Pow2, Width;
    WidthFacts(p.len);
    RunOfBlocks(p.val, Pow2(4 - p.len));
    WidthDivides(p.len);
    NextMultiple(p.val, Pow2(p.len), Width(p.len));
  }

  lemma WidthDivides(len: PrefixLen)
    ensures Pow2(len) * Width(len) == WORD
  {
    Pow2Add(len, 128 - len);
    Pow2Of128();
  }

  lemma RunOfBlocks(v: Word, n: nat)
    requires n > 0 && v % (n * BLOCK) == 0
    ensures v == TopNibble(v) * BLOCK
  {
    var q := v / (n * BLOCK);
    assert v == q * (n * BLOCK);
    MulAssociative(q, n, BLOCK);
    DivisionBounds(v, q * n, BLOCK);
  }

  /** A prefix from another block covers all of a block or nothing of it. */
  lemma OtherBlockAllOrNothing(p: Prefix, s: nat, x: int, y: int)
    requires Masked(p) && TopNibble(p.val) != s
    requires InBlock(s, x) && InBlock(s, y) && InRange(p, x)
    ensures InRange(p, y) && p.len < 4
  {
    hide Pow2, Width, TopNibble, Masked;
    var t := TopNibble(p.val);
    if p.len >= 4 {
      NarrowInBlock(p);
      OneBlock(s, t, x);
      assert false;
    } else {
      WideIsBlocks(p);
      RunHoldsBlock(t, Pow2(4 - p.len), s, x, y);
    }
  }

  lemma OneBlock(s: nat, t: nat, x: int)
    requires InBlock(s, x) && InBlock(t, x)
    ensures s == t
  {
  }

  lemma RunHoldsBlock(t: nat, n: nat, s: nat, x: int, y: int)
    requires InBlock(s, x) && InBlock(s, y) && t * BLOCK <= x < t * BLOCK + n * BLOCK
    ensures t * BLOCK <= y < t * BLOCK + n * BLOCK
  {
  }
}
