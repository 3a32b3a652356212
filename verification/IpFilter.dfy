/** Subnet filters over both address families, against the plain list of subnets. */
module IpFilters {
  import opened PowersOfTwo
  import opened PrefixSets
  import opened BitTrees

  const WORD32: int := 0x1_0000_0000
  const SHIFT96: int := 0x1_0000_0000_0000_0000_0000_0000

  type Word32 = x: int | 0 <= x < WORD32

  datatype IpAddr = V4(bits4: Word32) | V6(bits6: Word)

  datatype IpSubnet = IpSubnet(addr: IpAddr, mask: nat)

  /** Parsing a subnet refuses masks that are longer than the address. */
  predicate ValidSubnet(n: IpSubnet) {
    n.mask <= if n.addr.V4? then 32 else 128
  }

  /** `v & mask`, for the mask that keeps all but the low `low` bits. */
  function ClearLow(v: nat, low: nat): nat {
    ModBound(v, Pow2(low));
    v - v % Pow2(low)
  }

  /** The address lies in the subnet: both agree on the masked bits. */
  predicate SubnetContains(n: IpSubnet, addr: IpAddr)
    requires ValidSubnet(n)
  {
    match (n.addr, addr)
    case (V4(net), V4(a)) => ClearLow(net, 32 - n.mask) == ClearLow(a, 32 - n.mask)
    case (V6(net), V6(a)) => ClearLow(net, 128 - n.mask) == ClearLow(a, 128 - n.mask)
    case _ => false
  }

  predicate AnySubnetContains(ns: seq<IpSubnet>, addr: IpAddr)
    requires forall i :: 0 <= i < |ns| ==> ValidSubnet(ns[i])
  {
    exists i :: 0 <= i < |ns| && SubnetContains(ns[i], addr)
  }

  /** An address as the trie of its family sees it. */
  function AsWord(addr: IpAddr): (w: Word) {
    match addr
    case V4(a) => a * SHIFT96
    case V6(a) => a
  }

  function AsPrefix(n: IpSubnet): Prefix
    requires ValidSubnet(n)
  {
    Prefix(AsWord(n.addr), n.mask)
  }

  /** The prefixes of the subnets of one family, in order. */
  function Family(ns: seq<IpSubnet>, v4: bool): (r: seq<Prefix>)
    requires forall i :: 0 <= i < |ns| ==> ValidSubnet(ns[i])
  {
    if ns == [] then []
    else
      var last := ns[|ns| - 1];
      Family(ns[..|ns| - 1], v4) + if last.addr.V4? == v4 then [AsPrefix(last)] else []
  }

  lemma ScaledMod(v: nat, m: nat, c: nat)
    requires m > 0 && c > 0
    ensures (v * c) % (m * c) == (v % m) * c
  {
    var q, r := v / m, v % m;
    assert v == q * m + r;
    MulAssociative(q, m, c);
    assert v * c == q * (m * c) + r * c;
    MulMonotone(r + 1, m, c);
    DivisionBounds(v * c, q, m * c);
  }

  /** Moving a 32-bit address to the top of a word moves its masked bits along. */
  lemma ShiftedMask(v: Word32, mask: nat)
    requires mask <= 32
    ensures ApplyMask(v * SHIFT96, mask) == ClearLow(v, 32 - mask) * SHIFT96
  {
    Pow2Of96();
    Pow2Add(32 - mask, 96);
    ScaledMod(v, Pow2(32 - mask), SHIFT96);
    MulDistributes(v, v % Pow2(32 - mask), SHIFT96);
  }

  lemma ScaledInjective(a: int, b: int)
    ensures a * SHIFT96 == b * SHIFT96 <==> a == b
  {
  }

  lemma SubnetAsPrefix(n: IpSubnet, addr: IpAddr)
    requires ValidSubnet(n) && n.addr.V4? == addr.V4?
    ensures SubnetContains(n, addr) <==> Contains(AsPrefix(n), AsWord(addr))
  {
    if addr.V4? {
      ShiftedMask(n.addr.bits4, n.mask);
      ShiftedMask(addr.bits4, n.mask);
      ScaledInjective(ClearLow(n.addr.bits4, 32 - n.mask), ClearLow(addr.bits4, 32 - n.mask));
    }
  }

  /** The prefixes of a family contain a value exactly when some subnet contains the address. */
  lemma {:induction false} FamilyContains(ns: seq<IpSubnet>, addr: IpAddr)
    requires forall i :: 0 <= i < |ns| ==> ValidSubnet(ns[i])
    ensures AnyContains(Family(ns, addr.V4?), AsWord(addr)) <==> AnySubnetContains(ns, addr)
  {
    if ns != [] {
      var init, last := ns[..|ns| - 1], ns[|ns| - 1];
      FamilyContains(init, addr);
      AppendSubnet(init, last, addr);
      assert ns == init + [last];
      if last.addr.V4? == addr.V4? {
        SubnetAsPrefix(last, addr);
        AppendContains(Family(init, addr.V4?), AsPrefix(last), AsWord(addr));
      } else {
        assert Family(ns, addr.V4?) == Family(init, addr.V4?);
      }
    }
  }

  lemma AppendSubnet(ns: seq<IpSubnet>, n: IpSubnet, addr: IpAddr)
    requires ValidSubnet(n) && forall i :: 0 <= i < |ns| ==> ValidSubnet(ns[i])
    ensures AnySubnetContains(ns + [n], addr) <==> AnySubnetContains(ns, addr) || SubnetContains(n, addr)
  {
    var e := ns + [n];
    assert e[|ns|] == n;
    if AnySubnetContains(ns, addr) {
      var i :| 0 <= i < |ns| && SubnetContains(ns[i], addr);
      assert e[i] == ns[i];
    }
  }

  lemma AppendContains(d: seq<Prefix>, p: Prefix, x: Word)
    ensures AnyContains(d + [p], x) <==> AnyContains(d, x) || Contains(p, x)
  {
    var e := d + [p];
    assert e[|d|] == p;
    if AnyContains(d, x) {
      var i :| 0 <= i < |d| && Contains(d[i], x);
      assert e[i] == d[i];
    }
  }

  class IpFilter {
    const ipv4Filter: BitTree
    const ipv6Filter: BitTree

    ghost predicate FilterFor(ns: seq<IpSubnet>)
      reads ipv4Filter, ipv6Filter
    {
      && (forall i :: 0 <= i < |ns| ==> ValidSubnet(ns[i]))
      && ipv4Filter.Decides(Values(Family(ns, true)))
      && ipv6Filter.Decides(Values(Family(ns, false)))
    }

    constructor (ns: seq<IpSubnet>)
      requires forall i :: 0 <= i < |ns| ==> ValidSubnet(ns[i])
      ensures FilterFor(ns)
      ensures fresh(ipv4Filter) && fresh(ipv6Filter)
      ensures ipv4Filter.nodes == Tree(Values(Family(ns, true)))
      ensures ipv6Filter.nodes == Tree(Values(Family(ns, false)))
    {
      var list4: seq<Prefix>, list6: seq<Prefix> := [], [];
      for i := 0 to |ns|
        invariant list4 == Family(ns[..i], true) && list6 == Family(ns[..i], false)
      {
        assert ns[..i + 1][..i] == ns[..i];
        match ns[i].addr {
          case V4(a) => list4 := list4 + [Prefix(a * SHIFT96, ns[i].mask)];
          case V6(a) => list6 := list6 + [Prefix(a, ns[i].mask)];
        }
      }
      assert ns[..|ns|] == ns;
      var data4 := new Prefix[|list4|](i requires 0 <= i < |list4| => list4[i]);
      assert data4[..] == list4;
      var data6 := new Prefix[|list6|](i requires 0 <= i < |list6| => list6[i]);
      assert data6[..] == list6;
      ipv4Filter := new BitTree(data4);
      ipv6Filter := new BitTree(data6);
    }

    /** Whether the address is in the filter: the answer of the plain list of subnets. */
    method IsIn(addr: IpAddr, ghost ns: seq<IpSubnet>) returns (r: bool)
      requires FilterFor(ns)
      ensures r <==> AnySubnetContains(ns, addr)
    {
      FamilyContains(ns, addr);
      match addr {
        case V4(a) => r := ipv4Filter.Lookup(a * SHIFT96, Values(Family(ns, true)));
        case V6(a) => r := ipv6Filter.Lookup(a, Values(Family(ns, false)));
      }
    }
  }

  ghost predicate SameAddresses(ms: seq<IpSubnet>, ns: seq<IpSubnet>)
    requires forall i :: 0 <= i < |ms| ==> ValidSubnet(ms[i])
    requires forall i :: 0 <= i < |ns| ==> ValidSubnet(ns[i])
  {
    forall addr :: AnySubnetContains(ms, addr) <==> AnySubnetContains(ns, addr)
  }

  /** A prefix of at most 32 bits does not look at the low 96 bits. */
  lemma HighBitsDecide(p: Prefix, x: Word)
    requires p.len <= 32
    ensures Contains(p, x) <==> Contains(p, (x / SHIFT96) * SHIFT96)
  {
    hide ApplyMask, Pow2;
    Pow2Of96();
    Pow2Add(32 - p.len, 96);
    QuotientOfHigh(x, Pow2(32 - p.len), SHIFT96);
    MaskByQuotient(x, p.len);
    MaskByQuotient((x / SHIFT96) * SHIFT96, p.len);
  }

  lemma MaskByQuotient(x: Word, len: PrefixLen)
    ensures ApplyMask(x, len) == (x / Width(len)) * Width(len)
  {
  }

  lemma {:induction false} FamilyShort(ns: seq<IpSubnet>, i: nat)
    requires forall i :: 0 <= i < |ns| ==> ValidSubnet(ns[i])
    requires i < |Family(ns, true)|
    ensures Family(ns, true)[i].len <= 32
  {
    if i < |Family(ns[..|ns| - 1], true)| {
      FamilyShort(ns[..|ns| - 1], i);
    }
  }

  /** Membership of any word in the IPv4 values is membership of the address in its top bits. */
  lemma Family4Values(ns: seq<IpSubnet>, x: Word)
    requires forall i :: 0 <= i < |ns| ==> ValidSubnet(ns[i])
    ensures x in Values(Family(ns, true)) <==> AnySubnetContains(ns, V4(x / SHIFT96))
  {
    var d := Family(ns, true);
    FamilyContains(ns, V4(x / SHIFT96));
    forall i | 0 <= i < |d|
      ensures Contains(d[i], x) <==> Contains(d[i], (x / SHIFT96) * SHIFT96)
    {
      FamilyShort(ns, i);
      HighBitsDecide(d[i], x);
    }
  }

  /** Two filters are equal, node for node, exactly when they admit the same addresses. */
  lemma EqualFilters(ms: seq<IpSubnet>, ns: seq<IpSubnet>)
    requires forall i :: 0 <= i < |ms| ==> ValidSubnet(ms[i])
    requires forall i :: 0 <= i < |ns| ==> ValidSubnet(ns[i])
    ensures SameAddresses(ms, ns) <==>
            && Tree(Values(Family(ms, true))) == Tree(Values(Family(ns, true)))
            && Tree(Values(Family(ms, false))) == Tree(Values(Family(ns, false)))
  {
    EqualTrees(Family(ms, true), Family(ns, true));
    EqualTrees(Family(ms, false), Family(ns, false));
    if SameAddresses(ms, ns) {
      SameValues(ms, ns);
    }
    if Values(Family(ms, true)) == Values(Family(ns, true)) &&
       Values(Family(ms, false)) == Values(Family(ns, false)) {
      forall addr
        ensures AnySubnetContains(ms, addr) <==> AnySubnetContains(ns, addr)
      {
        FamilyContains(ms, addr);
        FamilyContains(ns, addr);
        assert AsWord(addr) in Values(Family(ms, addr.V4?)) <==> AsWord(addr) in Values(Family(ns, addr.V4?));
      }
    }
  }

  lemma SameValues(ms: seq<IpSubnet>, ns: seq<IpSubnet>)
    requires forall i :: 0 <= i < |ms| ==> ValidSubnet(ms[i])
    requires forall i :: 0 <= i < |ns| ==> ValidSubnet(ns[i])
    requires SameAddresses(ms, ns)
    ensures Values(Family(ms, true)) == Values(Family(ns, true))
    ensures Values(Family(ms, false)) == Values(Family(ns, false))
  {
    forall x | 0 <= x < WORD
      ensures x in Values(Family(ms, true)) <==> x in Values(Family(ns, true))
      ensures x in Values(Family(ms, false)) <==> x in Values(Family(ns, false))
    {
      Family4Values(ms, x);
      Family4Values(ns, x);
      FamilyContains(ms, V6(x));
      FamilyContains(ns, V6(x));
    }
  }
}
