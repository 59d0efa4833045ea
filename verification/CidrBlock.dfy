/** Address blocks of libcidr: what the block functions mean, and the algebra they obey. */
module CidrBlock {
  import opened Bits

  datatype Proto = NoProto | IPv4 | IPv6

  /** `cidr_addr` as a value: 16 octets of address and of mask, whatever the protocol. */
  datatype Block = Block(proto: Proto, addr: seq<byte>, mask: seq<byte>)

  predicate IsBlock(b: Block) {
    |b.addr| == 16 && |b.mask| == 16
  }

  function Zeros(n: nat): BitString {
    seq(n, _ => false)
  }

  /** Where the bits that belong to the protocol begin: IPv4 uses the last four octets. */
  function Start(proto: Proto): nat {
    if proto == IPv4 then 96 else 0
  }

  function AddrBits(b: Block): (r: BitString)
    requires IsBlock(b)
    ensures |r| == 128
  {
    Unpack(b.addr)
  }

  function MaskBits(b: Block): (r: BitString)
    requires IsBlock(b)
    ensures |r| == 128
  {
    Unpack(b.mask)
  }

  /** How many ones a bit string starts with. */
  function LeadingOnes(bits: BitString): (n: nat)
    ensures n <= |bits|
    ensures forall k :: 0 <= k < n ==> bits[k]
    ensures n < |bits| ==> !bits[n]
  {
    if bits == [] || !bits[0] then 0 else 1 + LeadingOnes(bits[1..])
  }

  /** The mask is `p` ones and then zeros; an IPv4 mask covers the 96 bits in front of its address. */
  predicate WellFormed(b: Block, p: nat) {
    && IsBlock(b) && p <= 128 && MaskBits(b) == Ones(p) + Zeros(128 - p)
    && b.proto != NoProto && Start(b.proto) <= p
  }

  // ----- what the functions compute -----

  /** The first `p` bits of `addr`, then `fill`. */
  function Masked(addr: seq<byte>, p: nat, fill: bool): (r: seq<byte>)
    requires |addr| == 16 && p <= 128
    ensures |r| == 16 && Unpack(r) == Unpack(addr)[..p] + seq(128 - p, _ => fill)
  {
    var r := Pack(Unpack(addr)[..p] + seq(128 - p, _ => fill));
    assert 8 * |r| == 128;
    r
  }

  function NetworkOf(b: Block): (r: Block)
    requires IsBlock(b)
    ensures IsBlock(r)
  {
    b.(addr := Masked(b.addr, LeadingOnes(MaskBits(b)), false))
  }

  function BroadcastOf(b: Block): (r: Block)
    requires IsBlock(b)
    ensures IsBlock(r)
  {
    b.(addr := Masked(b.addr, LeadingOnes(MaskBits(b)), true))
  }

  /** Prefix length within the protocol's bits; -1 for a mask with a one after a zero. */
  function PrefixLength(b: Block): (n: int)
    requires IsBlock(b)
    ensures -1 <= n <= 128
  {
    if b.proto == NoProto then -1
    else
      var bits := MaskBits(b)[Start(b.proto)..];
      var n := LeadingOnes(bits);
      if bits[n..] == Zeros(|bits| - n) then n else -1
  }

  predicate SameBits(a: BitString, b: BitString, from: nat, to: int)
    requires |a| == |b| && to <= |a|
  {
    forall k :: from <= k < to ==> a[k] == b[k]
  }

  /** `cidr_contains(big, little) == 0` */
  predicate Contains(big: Block, little: Block)
    requires IsBlock(big) && IsBlock(little)
  {
    && big.proto == little.proto && big.proto != NoProto
    && PrefixLength(big) <= PrefixLength(little)
    && (PrefixLengthFits(big);
        SameBits(AddrBits(big), AddrBits(little), Start(big.proto), PrefixLength(big) + Start(big.proto)))
  }

  lemma PrefixLengthFits(b: Block)
    requires IsBlock(b)
    ensures PrefixLength(b) + Start(b.proto) <= 128
  {
  }

  /** `cidr_equals(a, b) == 0` */
  predicate Equals(a: Block, b: Block)
    requires IsBlock(a) && IsBlock(b)
  {
    a.proto == b.proto && var i := if a.proto == IPv4 then 12 else 0; a.addr[i..] == b.addr[i..] && a.mask[i..] == b.mask[i..]
  }

  // ----- matching -----

  /** The address `x` agrees with the block wherever the mask has a one. */
  predicate Matches(b: Block, x: BitString)
    requires IsBlock(b)
  {
    && |x| == 128 - Start(b.proto)
    && forall k :: 0 <= k < |x| && MaskBits(b)[Start(b.proto) + k] ==> x[k] == AddrBits(b)[Start(b.proto) + k]
  }

  lemma PrefixLengthOf(b: Block, p: nat)
    requires WellFormed(b, p)
    ensures LeadingOnes(MaskBits(b)) == p && PrefixLength(b) == p - Start(b.proto)
    ensures b.proto != NoProto && Start(b.proto) <= p <= 128
  {
    var s := Start(b.proto);
    var bits := MaskBits(b)[s..];
    LeadingOnesAre(MaskBits(b), p);
    LeadingOnesAre(bits, p - s);
    assert bits[p - s..] == Zeros(128 - p);
  }

  lemma {:induction false} LeadingOnesAre(bits: BitString, p: nat)
    requires p <= |bits| && forall k :: 0 <= k < p ==> bits[k]
    requires p < |bits| ==> !bits[p]
    ensures LeadingOnes(bits) == p
  {
    if p > 0 {
      LeadingOnesAre(bits[1..], p - 1);
    }
  }

  /** A well-formed block is matched by exactly the addresses that share its prefix. */
  lemma MatchesByPrefix(b: Block, p: nat, x: BitString)
    requires WellFormed(b, p) && |x| == 128 - Start(b.proto)
    ensures Matches(b, x) <==> SameBits(x, AddrBits(b)[Start(b.proto)..], 0, p - Start(b.proto))
  {
  }

  /** Containment is set inclusion. */
  lemma ContainsIsInclusion(big: Block, little: Block, p: nat, q: nat)
    requires WellFormed(big, p) && WellFormed(little, q) && big.proto == little.proto
    ensures Contains(big, little) <==> forall x: BitString :: Matches(little, x) ==> Matches(big, x)
  {
    hide Val, Pow2, Unpack, LeadingOnes, PrefixLength, Pack;
    var s := Start(big.proto);
    PrefixLengthOf(big, p);
    PrefixLengthOf(little, q);
    var a, l := AddrBits(big)[s..], AddrBits(little)[s..];
    if Contains(big, little) {
      forall x: BitString | Matches(little, x) ensures Matches(big, x) {
        MatchesByPrefix(little, q, x);
        MatchesByPrefix(big, p, x);
      }
    } else {
      var x := if q < p then l[q - s := !a[q - s]] else l;
      MatchesByPrefix(little, q, x);
      MatchesByPrefix(big, p, x);
      assert q < p ==> x[q - s] != a[q - s];
      assert Matches(little, x) && !Matches(big, x);
    }
  }

  lemma ContainsIsPreorder(a: Block, b: Block, c: Block, p: nat, q: nat, r: nat)
    requires WellFormed(a, p) && WellFormed(b, q) && WellFormed(c, r)
    ensures Contains(a, a)
    ensures Contains(a, b) && Contains(b, c) ==> Contains(a, c)
  {
    PrefixLengthOf(a, p);
    PrefixLengthOf(b, q);
    PrefixLengthOf(c, r);
  }

  /** Blocks that contain each other have the same network. */
  lemma ContainsIsAntisymmetric(a: Block, b: Block, p: nat, q: nat)
    requires WellFormed(a, p) && WellFormed(b, q) && Contains(a, b) && Contains(b, a)
    ensures Equals(NetworkOf(a), NetworkOf(b))
  {
    hide Unpack, LeadingOnes, PrefixLength, Masked;
    PrefixLengthOf(a, p);
    PrefixLengthOf(b, q);
    UnpackInjective(a.mask, b.mask);
    MaskedAlike(a.addr, b.addr, p, if a.proto == IPv4 then 12 else 0);
  }

  lemma MaskedAlike(a: seq<byte>, b: seq<byte>, p: nat, i: nat)
    requires |a| == |b| == 16 && i <= 16 && p <= 128 && SameBits(Unpack(a), Unpack(b), 8 * i, p)
    ensures Masked(a, p, false)[i..] == Masked(b, p, false)[i..]
  {
    hide Masked, Unpack;
    var m, n := Masked(a, p, false), Masked(b, p, false);
    assert Unpack(m)[8 * i..] == Unpack(n)[8 * i..];
    SuffixesAgree(m, n, i);
  }

  lemma {:induction false} SuffixesAgree(a: seq<byte>, b: seq<byte>, i: nat)
    requires |a| == |b| && i <= |a| && Unpack(a)[8 * i..] == Unpack(b)[8 * i..]
    ensures a[i..] == b[i..]
  {
    UnpackSlice(a, i);
    UnpackSlice(b, i);
    UnpackInjective(a[i..], b[i..]);
  }

  lemma {:induction false} UnpackSlice(a: seq<byte>, i: nat)
    requires i <= |a|
    ensures Unpack(a[i..]) == Unpack(a)[8 * i..]
    decreases |a|
  {
    if i < |a| {
      var front := a[..|a| - 1];
      assert a[i..][..|a[i..]| - 1] == front[i..];
      UnpackSlice(front, i);
    }
  }

  // ----- equality -----

  /** The address bits that belong to the protocol. */
  function OwnBits(b: Block): (r: BitString)
    requires IsBlock(b)
    ensures |r| == 128 - Start(b.proto)
  {
    AddrBits(b)[Start(b.proto)..]
  }

  /** Well-formed blocks are equal exactly if protocol, prefix length and address bits are. */
  lemma EqualMeans(a: Block, p: nat, b: Block, q: nat)
    requires WellFormed(a, p) && WellFormed(b, q)
    ensures Equals(a, b) <==> a.proto == b.proto && p == q && OwnBits(a) == OwnBits(b)
  {
    hide Unpack;
    if a.proto == b.proto {
      var i := if a.proto == IPv4 then 12 else 0;
      UnpackSlice(a.addr, i);
      UnpackSlice(b.addr, i);
      UnpackSlice(a.mask, i);
      UnpackSlice(b.mask, i);
      SameOctets(a.addr[i..], b.addr[i..]);
      SameOctets(a.mask[i..], b.mask[i..]);
      SameOnes(p, q, 8 * i);
    }
  }

  lemma SameOctets(a: seq<byte>, b: seq<byte>)
    ensures a == b <==> Unpack(a) == Unpack(b)
  {
    if Unpack(a) == Unpack(b) {
      UnpackInjective(a, b);
    }
  }

  lemma SameOnes(p: nat, q: nat, i: nat)
    requires i <= p <= 128 && i <= q <= 128
    ensures (Ones(p) + Zeros(128 - p))[i..] == (Ones(q) + Zeros(128 - q))[i..] <==> p == q
  {
    if p < q {
      assert !(Ones(p) + Zeros(128 - p))[i..][p - i] && (Ones(q) + Zeros(128 - q))[i..][p - i];
    } else if q < p {
      assert !(Ones(q) + Zeros(128 - q))[i..][q - i] && (Ones(p) + Zeros(128 - p))[i..][q - i];
    }
  }

  // ----- intervals -----

  /** The members of a block are the addresses whose big-endian value lies between those of its network and
      its broadcast address, and there are 2^h of them for h host bits. */
  lemma IntervalLaw(b: Block, p: nat, x: BitString)
    requires WellFormed(b, p) && |x| == 128 - Start(b.proto)
    ensures var low, high := Val(AddrBits(NetworkOf(b))[Start(b.proto)..]), Val(AddrBits(BroadcastOf(b))[Start(b.proto)..]);
            && (Matches(b, x) <==> low <= Val(x) <= high)
            && high - low + 1 == Pow2(128 - p)
  {
    hide Val, Pow2, Unpack, Matches, LeadingOnes, PrefixLength, Pack;
    var s := Start(b.proto);
    PrefixLengthOf(b, p);
    MatchesByPrefix(b, p, x);
    var prefix := AddrBits(b)[s..p];
    PrefixInterval(prefix, 128 - p, x);
    assert AddrBits(NetworkOf(b))[s..] == prefix + Zeros(128 - p);
    assert AddrBits(BroadcastOf(b))[s..] == prefix + Ones(128 - p);
    SliceTwice(AddrBits(b), s, p);
    SamePrefix(x, AddrBits(b)[s..], p - s);
  }

  lemma SliceTwice(x: BitString, i: nat, j: nat)
    requires i <= j <= |x|
    ensures x[i..][..j - i] == x[i..j]
  {
  }

  lemma SamePrefix(x: BitString, y: BitString, n: nat)
    requires n <= |x| == |y|
    ensures SameBits(x, y, 0, n) <==> x[..n] == y[..n]
  {
    if SameBits(x, y, 0, n) {
      assert forall k :: 0 <= k < n ==> x[..n][k] == y[..n][k];
    } else {
      var k :| 0 <= k < n && x[k] != y[k];
      assert x[..n][k] != y[..n][k];
    }
  }

  lemma PrefixInterval(prefix: BitString, h: nat, x: BitString)
    requires |x| == |prefix| + h
    ensures x[..|prefix|] == prefix <==> Val(prefix + Zeros(h)) <= Val(x) <= Val(prefix + Ones(h))
    ensures Val(prefix + Ones(h)) - Val(prefix + Zeros(h)) + 1 == Pow2(h)
  {
    hide Val, Pow2;
    var x1, x2 := x[..|prefix|], x[|prefix|..];
    assert x == x1 + x2;
    ValConcat(prefix, Zeros(h));
    ValConcat(prefix, Ones(h));
    ValConcat(x1, x2);
    ValZeros(h);
    ValOnes(h);
    ValBound(x2);
    SameQuotient(Val(prefix), Val(x1), Val(x2), Pow2(h));
    if Val(x1) == Val(prefix) {
      ValInjective(x1, prefix);
    }
  }

  lemma SameQuotient(q: nat, q': nat, r: nat, d: nat)
    requires r < d
    ensures q * d <= q' * d + r <= q * d + (d - 1) <==> q == q'
  {
    if q < q' {
      MulStep(q, q', d);
    } else if q' < q {
      MulStep(q', q, d);
    }
  }

  lemma MulStep(a: nat, b: nat, d: nat)
    requires a < b
    ensures a * d + d <= b * d
  {
    assert (a + 1) * d <= b * d;
  }

  lemma {:induction false} ValZeros(n: nat)
    ensures Val(Zeros(n)) == 0
  {
    if n > 0 {
      assert Zeros(n) == Zeros(n - 1) + [false];
      ValSnoc(Zeros(n - 1), false);
      ValZeros(n - 1);
    }
  }

  /** Taking the network or the broadcast address twice, or of one another, changes nothing more. */
  lemma NetworkIdempotent(b: Block)
    requires IsBlock(b)
    ensures NetworkOf(NetworkOf(b)) == NetworkOf(b) == NetworkOf(BroadcastOf(b))
    ensures BroadcastOf(BroadcastOf(b)) == BroadcastOf(b) == BroadcastOf(NetworkOf(b))
  {
    MaskedTwice(b.addr, LeadingOnes(MaskBits(b)));
  }

  lemma MaskedTwice(addr: seq<byte>, p: nat)
    requires |addr| == 16 && p <= 128
    ensures forall f, g :: Masked(Masked(addr, p, f), p, g) == Masked(addr, p, g)
  {
    forall f, g ensures Masked(Masked(addr, p, f), p, g) == Masked(addr, p, g) {
      UnpackInjective(Masked(Masked(addr, p, f), p, g), Masked(addr, p, g));
    }
  }

  // ----- supernets and subnets -----

  /** The mask of `p` ones. */
  function MaskOf(p: nat): (r: seq<byte>)
    requires p <= 128
    ensures |r| == 16 && Unpack(r) == Ones(p) + Zeros(128 - p)
  {
    var r := Pack(Ones(p) + Zeros(128 - p));
    assert 8 * |r| == 128;
    r
  }

  /** `addr` with bit `k` set. */
  function WithBit(addr: seq<byte>, k: nat): (r: seq<byte>)
    requires |addr| == 16 && k < 128
    ensures |r| == 16 && Unpack(r) == Unpack(addr)[k := true]
  {
    var r := Pack(Unpack(addr)[k := true]);
    assert 8 * |r| == 128;
    r
  }

  function SupernetOf(b: Block, p: nat): (r: Block)
    requires WellFormed(b, p) && Start(b.proto) < p
    ensures WellFormed(r, p - 1)
  {
    Block(b.proto, Masked(b.addr, p - 1, false), MaskOf(p - 1))
  }

  function SubnetsOf(b: Block, p: nat): (r: (Block, Block))
    requires WellFormed(b, p) && p < 128
    ensures WellFormed(r.0, p + 1) && WellFormed(r.1, p + 1)
  {
    var first := Block(b.proto, Masked(b.addr, p, false), MaskOf(p + 1));
    (first, first.(addr := WithBit(first.addr, p)))
  }

  function WithoutBit(octets: seq<byte>, k: nat): (r: seq<byte>)
    requires |octets| == 16 && k < 128
    ensures |r| == 16 && Unpack(r) == Unpack(octets)[k := false]
  {
    var r := Pack(Unpack(octets)[k := false]);
    assert 8 * |r| == 128;
    r
  }

  /** The last bit of network that `cidr_net_supernet` takes away, and the first of the host that `cidr_net_subnets` adds:
      the length -1 of a mask that is not contiguous is counted on. */
  function LastNetworkBit(b: Block): int
    requires IsBlock(b)
  {
    PrefixLength(b) + Start(b.proto) - 1
  }

  /** What `cidr_net_supernet` makes of any block: a bit in front of the first octet is none of the mask, and all of the
      address is behind it. */
  function SupernetGiven(b: Block): (r: Block)
    requires IsBlock(b) && PrefixLength(b) != 0
    ensures IsBlock(r)
  {
    var k := LastNetworkBit(b);
    if k < 0 then b.(addr := Masked(b.addr, 0, false))
    else b.(addr := Masked(b.addr, k, false), mask := WithoutBit(b.mask, k))
  }

  /** What `cidr_net_subnets` makes of any block. */
  function SubnetsGiven(b: Block): (r: (Block, Block))
    requires IsBlock(b) && LastNetworkBit(b) < 127
    ensures IsBlock(r.0) && IsBlock(r.1)
  {
    var k, network := LastNetworkBit(b) + 1, NetworkOf(b);
    if k < 0 then (network, network)
    else
      var first := network.(mask := WithBit(network.mask, k));
      (first, first.(addr := WithBit(first.addr, k)))
  }

  /** For well-formed blocks these are the supernet and the halves. */
  lemma GivenForWellFormed(b: Block, p: nat)
    requires WellFormed(b, p)
    ensures LastNetworkBit(b) == p - 1
    ensures Start(b.proto) < p ==> SupernetGiven(b) == SupernetOf(b, p)
    ensures p < 128 ==> SubnetsGiven(b) == SubnetsOf(b, p)
  {
    hide Unpack, Pack, LeadingOnes, PrefixLength, MaskOf, Masked, WithBit, WithoutBit;
    PrefixLengthOf(b, p);
    if Start(b.proto) < p {
      assert (Ones(p) + Zeros(128 - p))[p - 1 := false] == Ones(p - 1) + Zeros(129 - p);
      MaskIs(WithoutBit(b.mask, p - 1), p - 1);
    }
    if p < 128 {
      assert (Ones(p) + Zeros(128 - p))[p := true] == Ones(p + 1) + Zeros(127 - p);
      MaskIs(WithBit(b.mask, p), p + 1);
    }
  }

  lemma MaskIs(mask: seq<byte>, p: nat)
    requires |mask| == 16 && p <= 128 && Unpack(mask) == Ones(p) + Zeros(128 - p)
    ensures mask == MaskOf(p)
  {
    hide Unpack;
    UnpackInjective(mask, MaskOf(p));
  }

  /** An IPv6 mask that is not contiguous: all of the address is lost and the mask stays, and both halves are the block's
      network. An IPv4 one loses, or gains, a bit in front of its four octets. */
  lemma NotContiguous(b: Block)
    requires IsBlock(b) && PrefixLength(b) == -1
    ensures b.proto != IPv4 ==> SupernetGiven(b).mask == b.mask && Unpack(SupernetGiven(b).addr) == Zeros(128)
    ensures b.proto != IPv4 ==> SubnetsGiven(b) == (NetworkOf(b), NetworkOf(b))
    ensures b.proto == IPv4 ==> LastNetworkBit(b) == 94 && Unpack(SupernetGiven(b).addr)[96..] == Zeros(32)
    ensures b.proto == IPv4 ==> MaskBits(SupernetGiven(b))[96..] == MaskBits(b)[96..]
  {
    hide Pack, PrefixLength;
  }

  /** The two halves are disjoint and make up the block. */
  lemma SubnetsPartition(b: Block, p: nat, x: BitString)
    requires WellFormed(b, p) && p < 128
    ensures var (first, second) := SubnetsOf(b, p);
            && (Matches(b, x) <==> Matches(first, x) || Matches(second, x))
            && !(Matches(first, x) && Matches(second, x))
  {
    hide Val, Pow2, Unpack, LeadingOnes, PrefixLength, Pack, Matches;
    var (first, second) := SubnetsOf(b, p);
    OnlyFullLength(b, x);
    OnlyFullLength(first, x);
    OnlyFullLength(second, x);
    if |x| == 128 - Start(b.proto) {
      MatchesByPrefix(b, p, x);
      MatchesByPrefix(first, p + 1, x);
      MatchesByPrefix(second, p + 1, x);
      assert AddrBits(first)[..p + 1] == AddrBits(b)[..p] + [false];
      assert AddrBits(second)[..p + 1] == AddrBits(b)[..p] + [true];
      OneMoreBit(x, AddrBits(b), AddrBits(first), Start(b.proto), p, false);
      OneMoreBit(x, AddrBits(b), AddrBits(second), Start(b.proto), p, true);
    }
  }

  /** Agreement on one more bit. */
  lemma OneMoreBit(x: BitString, bits: BitString, more: BitString, s: nat, p: nat, bit: bool)
    requires s <= p < |bits| == |more| && |x| == |bits| - s && more[..p + 1] == bits[..p] + [bit]
    ensures SameBits(x, more[s..], 0, p - s + 1) <==> SameBits(x, bits[s..], 0, p - s) && x[p - s] == bit
  {
    assert more[p] == more[..p + 1][p] == bit;
    assert forall k :: 0 <= k < p - s ==> more[s..][k] == more[..p + 1][s + k] == bits[s..][k];
    assert more[s..][p - s] == bit;
  }

  lemma OnlyFullLength(b: Block, x: BitString)
    requires IsBlock(b)
    ensures Matches(b, x) ==> |x| == 128 - Start(b.proto)
  {
  }

  /** Either half leads back to the block's network. */
  lemma SupernetOfSubnet(b: Block, p: nat)
    requires WellFormed(b, p) && p < 128
    ensures var (first, second) := SubnetsOf(b, p);
            SupernetOf(first, p + 1) == NetworkOf(b) == SupernetOf(second, p + 1)
  {
    var (first, second) := SubnetsOf(b, p);
    PrefixLengthOf(b, p);
    UnpackInjective(MaskOf(p), b.mask);
    UnpackInjective(SupernetOf(first, p + 1).addr, NetworkOf(b).addr);
    UnpackInjective(SupernetOf(second, p + 1).addr, NetworkOf(b).addr);
  }
}
