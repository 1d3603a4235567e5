/**
 * IPv4 address arithmetic behind `IPNetwork(vpc_cidr).subnet(24)` and `str(subnet)`:
 * a parent network is split into consecutive /24 blocks, each rendered as the CIDR
 * string that the allocation table uses as its key.
 */
module AddressSpace {
  import opened Collections
  import opened Decimal

  /** Addresses are 32-bit unsigned numbers. */
  const AddressBits: nat := 32
  /** subnet_mask = 24: every allocated block is a /24. */
  const SubnetPrefix: nat := 24
  /** Number of addresses in a /24 block. */
  const SubnetSize: nat := 256

  function Pow2(n: nat): (r: nat)
    ensures r >= 1
  {
    if n == 0 then 1 else 2 * Pow2(n - 1)
  }

  lemma {:induction false} Pow2Add(a: nat, b: nat)
    ensures Pow2(a + b) == Pow2(a) * Pow2(b)
    decreases a
  {
    if a > 0 {
      Pow2Add(a - 1, b);
    }
  }

  /** A parent block as IPNetwork holds it: an address and a prefix length. */
  datatype Network = Network(addr: nat, prefix: nat)

  /** A well-formed IPv4 network: a 32-bit address and a prefix length of at most 32. */
  predicate ValidParent(p: Network)
  {
    p.addr < Pow2(AddressBits) && p.prefix <= AddressBits
  }

  /** A sub-block: its network (base) address and prefix length. */
  datatype Block = Block(base: nat, prefix: nat)

  /** Number of addresses in the parent. */
  function Size(p: Network): nat
    requires p.prefix <= AddressBits
  {
    Pow2(AddressBits - p.prefix)
  }

  lemma ModBounds(a: nat, m: nat)
    requires m > 0
    ensures a % m < m && a % m <= a
  {
  }

  /** The parent's network address: its address with the host bits cleared. */
  function First(p: Network): (r: nat)
    requires p.prefix <= AddressBits
    ensures r == (p.addr / Size(p)) * Size(p)
    ensures r <= p.addr < r + Size(p)
  {
    ModBounds(p.addr, Size(p));
    p.addr - p.addr % Size(p)
  }

  /**
   * Number of /24 blocks in the parent; a parent more specific than /24 yields
   * none, as `subnet(24)` then produces nothing.
   */
  function SubnetCount(p: Network): (r: nat)
    requires ValidParent(p)
    ensures r > 0 <==> p.prefix <= SubnetPrefix
  {
    if p.prefix <= SubnetPrefix then Pow2(SubnetPrefix - p.prefix) else 0
  }

  lemma SizeIsSubnetCountBlocks(p: Network)
    requires ValidParent(p) && p.prefix <= SubnetPrefix
    ensures Size(p) == SubnetCount(p) * SubnetSize
  {
    Pow2Add(SubnetPrefix - p.prefix, 8);
    assert Pow2(8) == 256;
  }

  /** `ipnet.subnet(24)`: the /24 blocks of the parent, i-th at First + 256 * i. */
  function Subnets(p: Network): (r: seq<Block>)
    requires ValidParent(p)
    ensures |r| == SubnetCount(p)
    ensures forall i :: 0 <= i < |r| ==> r[i].prefix == SubnetPrefix
  {
    seq(SubnetCount(p), i requires 0 <= i => Block(First(p) + i * SubnetSize, SubnetPrefix))
  }

  /** Whether an address lies in a /24 block. */
  predicate Contains(b: Block, a: nat)
  {
    b.base <= a < b.base + SubnetSize
  }

  /** Candidates come in strictly increasing order and never overlap. */
  lemma SubnetsAscending(p: Network, i: nat, j: nat)
    requires ValidParent(p) && i < j < SubnetCount(p)
    ensures Subnets(p)[i].base + SubnetSize <= Subnets(p)[j].base
  {
  }

  /** Consecutive candidates are adjacent: no address is skipped between them. */
  lemma SubnetsAdjacent(p: Network, i: nat)
    requires ValidParent(p) && i + 1 < SubnetCount(p)
    ensures Subnets(p)[i + 1].base == Subnets(p)[i].base + SubnetSize
  {
  }

  /** Every candidate lies inside the parent. */
  lemma {:induction false} SubnetsInsideParent(p: Network, i: nat)
    requires ValidParent(p) && i < SubnetCount(p)
    ensures First(p) <= Subnets(p)[i].base
    ensures Subnets(p)[i].base + SubnetSize <= First(p) + Size(p)
  {
    SizeIsSubnetCountBlocks(p);
  }

  /** A whole number of /24 blocks ends in a zero octet. */
  lemma WholeBlocks(n: nat)
    ensures (n * SubnetSize) % SubnetSize == 0
    ensures Octets(n * SubnetSize).3 == 0
  {
  }

  /** Every candidate is a whole /24: its base is a multiple of 256, so its last octet is 0. */
  lemma {:induction false} SubnetsAligned(p: Network, i: nat)
    requires ValidParent(p) && i < SubnetCount(p)
    ensures Subnets(p)[i].base % SubnetSize == 0
    ensures Octets(Subnets(p)[i].base).3 == 0
  {
    SizeIsSubnetCountBlocks(p);
    var q := p.addr / Size(p);
    var c := SubnetCount(p);
    var blocks := q * c + i;
    calc {
      Subnets(p)[i].base;
      First(p) + i * SubnetSize;
      q * (c * SubnetSize) + i * SubnetSize;
      { assert q * (c * SubnetSize) == (q * c) * SubnetSize; }
      (q * c) * SubnetSize + i * SubnetSize;
      blocks * SubnetSize;
    }
    WholeBlocks(blocks);
  }

  /** Every address of the parent lies in exactly one candidate. */
  lemma {:induction false} SubnetsCover(p: Network, a: nat) returns (i: nat)
    requires ValidParent(p) && p.prefix <= SubnetPrefix && First(p) <= a < First(p) + Size(p)
    ensures i < SubnetCount(p) && Contains(Subnets(p)[i], a)
    ensures forall j :: 0 <= j < SubnetCount(p) && Contains(Subnets(p)[j], a) ==> j == i
  {
    SizeIsSubnetCountBlocks(p);
    var off := a - First(p);
    i := off / SubnetSize;
    assert i * SubnetSize <= off < i * SubnetSize + SubnetSize;
  }

  /** The four octets of an address, most significant first. */
  function Octets(addr: nat): (nat, nat, nat, nat)
  {
    var q1 := addr / 256;
    var q2 := q1 / 256;
    (q2 / 256, q2 % 256, q1 % 256, addr % 256)
  }

  /** An address is determined by its octets. */
  lemma OctetsDetermineAddress(x: nat, y: nat)
    requires Octets(x) == Octets(y)
    ensures x == y
  {
    var qx, qy := x / 256, y / 256;
    assert qx / 256 == qy / 256;
    assert qx == qy;
  }

  /** `str(IPNetwork)`: the dotted-quad network address, a slash and the prefix length. */
  function Render(b: Block): (s: string)
    ensures '/' in s
    ensures var p := NatToString(b.prefix); |s| > |p| && s[|s| - |p| - 1] == '/' && s[|s| - |p|..] == p
  {
    var (o1, o2, o3, o4) := Octets(b.base);
    NatToString(o1) + ("." + (NatToString(o2) + ("." + (NatToString(o3) + ("." +
      (NatToString(o4) + ("/" + NatToString(b.prefix))))))))
  }

  /** Splitting at the first occurrence of a separator that neither head contains. */
  lemma SplitAtSeparator(x: string, r: string, y: string, t: string, c: char)
    requires AllDigits(x) && AllDigits(y) && !IsDigit(c)
    requires x + ([c] + r) == y + ([c] + t)
    ensures x == y && r == t
  {
    var whole := x + ([c] + r);
    assert whole[|x|] == c && whole[|y|] == c;
    assert |x| == |y|;
    assert x == whole[..|x|];
    assert y == whole[..|y|];
    assert r == whole[|x| + 1..];
    assert t == whole[|y| + 1..];
  }

  /** Different blocks have different CIDR strings. */
  lemma RenderInjective(a: Block, b: Block)
    requires Render(a) == Render(b)
    ensures a == b
  {
    var (a1, a2, a3, a4) := Octets(a.base);
    var (b1, b2, b3, b4) := Octets(b.base);
    var ra := NatToString(a4) + ("/" + NatToString(a.prefix));
    var rb := NatToString(b4) + ("/" + NatToString(b.prefix));
    var ra3 := NatToString(a3) + ("." + ra);
    var rb3 := NatToString(b3) + ("." + rb);
    var ra2 := NatToString(a2) + ("." + ra3);
    var rb2 := NatToString(b2) + ("." + rb3);
    SplitAtSeparator(NatToString(a1), ra2, NatToString(b1), rb2, '.');
    SplitAtSeparator(NatToString(a2), ra3, NatToString(b2), rb3, '.');
    SplitAtSeparator(NatToString(a3), ra, NatToString(b3), rb, '.');
    SplitAtSeparator(NatToString(a4), NatToString(a.prefix), NatToString(b4), NatToString(b.prefix), '/');
    NatToStringInjective(a1, b1);
    NatToStringInjective(a2, b2);
    NatToStringInjective(a3, b3);
    NatToStringInjective(a4, b4);
    NatToStringInjective(a.prefix, b.prefix);
    OctetsDetermineAddress(a.base, b.base);
  }

  /** The table keys of the candidates, in the order the allocation loop visits them. */
  function CandidateKeys(p: Network): (r: seq<string>)
    requires ValidParent(p)
    ensures |r| == SubnetCount(p)
    ensures forall i :: 0 <= i < |r| ==> r[i] == Render(Subnets(p)[i])
  {
    var subnets := Subnets(p);
    seq(|subnets|, i requires 0 <= i < |subnets| => Render(subnets[i]))
  }

  /** No two candidates share a table key. */
  lemma CandidateKeysDistinct(p: Network)
    requires ValidParent(p)
    ensures Distinct(CandidateKeys(p))
  {
    var keys := CandidateKeys(p);
    forall i, j | 0 <= i < j < |keys|
      ensures keys[i] != keys[j]
    {
      SubnetsAscending(p, i, j);
      if keys[i] == keys[j] {
        RenderInjective(Subnets(p)[i], Subnets(p)[j]);
      }
    }
  }
}
