/** The block functions of libcidr, bit by bit over octet arrays, proved to compute what CidrBlock says. */
module CidrOps {
  import opened Bits
  import opened CidrBlock

  /** `cidr_addr` */
  class Cidr {
    var proto: Proto
    const addr: array<byte>
    const mask: array<byte>

    /** `cidr_alloc`: zeroed memory. */
    constructor ()
      ensures Valid() && fresh(addr) && fresh(mask)
      ensures Value() == Block(NoProto, seq(16, _ => 0), seq(16, _ => 0))
    {
      proto := NoProto;
      addr := new byte[16](_ => 0);
      mask := new byte[16](_ => 0);
      new;
      assert addr[..] == seq(16, _ => 0) && mask[..] == seq(16, _ => 0);
    }

    ghost predicate Valid()
      reads this
    {
      addr.Length == 16 && mask.Length == 16 && addr != mask
    }

    function Value(): (b: Block)
      reads this, addr, mask
      requires Valid()
      ensures IsBlock(b)
    {
      Block(proto, addr[..], mask[..])
    }

    /** `memcpy` of the mask, and of the protocol. */
    method CopyMask(src: Cidr)
      requires Valid() && src.Valid() && src.mask != mask && src.mask != addr && src.addr != mask
      modifies this, mask
      ensures Valid() && Value() == src.Value().(addr := old(addr[..]))
    {
      proto := src.proto;
      forall i | 0 <= i < 16 {
        mask[i] := src.mask[i];
      }
      assert mask[..] == src.mask[..];
    }
  }

  /** `addr` holds the first `k` bits of `bits`, then zeros. */
  ghost predicate Copied(addr: seq<byte>, bits: BitString, k: nat) {
    |addr| == 16 && |bits| == 128 && k <= 128 && Unpack(addr) == bits[..k] + Zeros(128 - k)
  }

  lemma NothingCopied(bits: BitString)
    requires |bits| == 128
    ensures Copied(seq(16, _ => 0), bits, 0)
  {
    ZeroBytes(16);
  }

  lemma {:induction false} ZeroBytes(n: nat)
    ensures Unpack(seq(n, _ => 0)) == Zeros(8 * n)
  {
    if n > 0 {
      var bytes: seq<byte> := seq(n, _ => 0);
      assert bytes[..n - 1] == seq(n - 1, _ => 0);
      ZeroBytes(n - 1);
      assert ByteBits(0) == Zeros(8);
    }
  }

  /** `toret->addr[i] |= (addr->addr[i] & 1 << j)` extends the copy by one bit. */
  lemma CopyBit(addr: seq<byte>, src: seq<byte>, i: nat, j: nat)
    requires i < 16 && j < 8 && |src| == 16 && Copied(addr, Unpack(src), 8 * i + 7 - j)
    ensures Copied(addr[i := if TestBit(src[i], j) then OrBit(addr[i], j) else addr[i]], Unpack(src), 8 * i + 8 - j)
  {
    hide Unpack, OrBit, TestBit;
    var k := 8 * i + 7 - j;
    UnpackUpdated(addr, i, j);
    UnpackUpdated(src, i, j);
    var bits := Unpack(src);
    if bits[k] {
      assert (bits[..k] + Zeros(128 - k))[k := true] == bits[..k + 1] + Zeros(127 - k);
    } else {
      assert addr[i := addr[i]] == addr;
      assert bits[..k] + Zeros(128 - k) == bits[..k + 1] + Zeros(127 - k);
    }
  }

  lemma MaskBitAt(mask: seq<byte>, i: nat, j: nat)
    requires |mask| == 16 && i < 16 && j < 8
    ensures Unpack(mask)[8 * i + 7 - j] == TestBit(mask[i], j)
  {
    UnpackUpdated(mask, i, j);
  }

  /** Copies the network bits of `a` into `r`; stops at the first host bit, which is at octet `i`, bit `j`
      (`i == 16` if there is none). */
  method CopyNetworkBits(a: Cidr, r: Cidr) returns (i: nat, j: int)
    requires a.Valid() && r.Valid() && r.addr != a.addr && r.addr != a.mask
    requires r.addr[..] == seq(16, _ => 0)
    modifies r.addr
    ensures i <= 16 && (i < 16 ==> 0 <= j < 8)
    ensures LeadingOnes(Unpack(a.mask[..])) == if i < 16 then 8 * i + 7 - j else 128
    ensures Copied(r.addr[..], Unpack(a.addr[..]), LeadingOnes(Unpack(a.mask[..])))
  {
    hide Copied, Unpack, TestBit, OrBit, LeadingOnes;
    i, j := 0, 7;
    NothingCopied(Unpack(a.addr[..]));
    ghost var ones := Unpack(a.mask[..]);
    while i < 16
      invariant i <= 16 && j == 7
      invariant Copied(r.addr[..], Unpack(a.addr[..]), 8 * i)
      invariant forall n :: 0 <= n < 8 * i ==> ones[n]
    {
      while j >= 0
        invariant -1 <= j < 8
        invariant Copied(r.addr[..], Unpack(a.addr[..]), 8 * i + 7 - j)
        invariant forall n :: 0 <= n < 8 * i + 7 - j ==> ones[n]
      {
        MaskBitAt(a.mask[..], i, j);
        if !TestBit(a.mask[i], j) {
          LeadingOnesAre(ones, 8 * i + 7 - j);
          return;
        }
        CopyBit(r.addr[..], a.addr[..], i, j);
        ghost var before := r.addr[..];
        r.addr[i] := if TestBit(a.addr[i], j) then OrBit(r.addr[i], j) else r.addr[i];
        assert r.addr[..] == before[i := r.addr[i]];
        j := j - 1;
      }
      i, j := i + 1, 7;
    }
    LeadingOnesAre(ones, 128);
  }

  /** `cidr_addr_network` */
  method AddrNetwork(a: Cidr?) returns (toret: Cidr?)
    requires a != null ==> a.Valid()
    ensures a == null ==> toret == null
    ensures a != null ==> toret != null && fresh(toret) && fresh(toret.addr) && fresh(toret.mask) && toret.Valid()
                           && toret.Value() == NetworkOf(a.Value())
  {
    if a == null {
      return null;
    }
    hide Unpack, Copied, Masked, LeadingOnes;
    var r := new Cidr();
    r.CopyMask(a);
    var _, _ := CopyNetworkBits(a, r);
    CopiedIsNetwork(r.addr[..], a.Value());
    return r;
  }

  /** The bits of `addr` before `k` are those of `bits` before `p`, then ones; zeros follow. */
  ghost predicate Filled(addr: seq<byte>, bits: BitString, p: nat, k: nat) {
    |addr| == 16 && |bits| == 128 && p <= k <= 128 && Unpack(addr) == bits[..p] + Ones(k - p) + Zeros(128 - k)
  }

  lemma CopiedIsFilled(addr: seq<byte>, bits: BitString, p: nat)
    requires Copied(addr, bits, p)
    ensures Filled(addr, bits, p, p)
  {
    assert bits[..p] + Ones(0) == bits[..p];
  }

  /** `toret->addr[i] |= (1 << j)` */
  lemma FillBit(addr: seq<byte>, bits: BitString, p: nat, i: nat, j: nat)
    requires i < 16 && j < 8 && Filled(addr, bits, p, 8 * i + 7 - j)
    ensures Filled(addr[i := OrBit(addr[i], j)], bits, p, 8 * i + 8 - j)
  {
    hide Unpack, OrBit, TestBit;
    var k := 8 * i + 7 - j;
    UnpackUpdated(addr, i, j);
    assert (bits[..p] + Ones(k - p) + Zeros(128 - k))[k := true] == bits[..p] + Ones(k + 1 - p) + Zeros(127 - k);
  }

  /** `cidr_addr_broadcast` */
  method AddrBroadcast(a: Cidr?) returns (toret: Cidr?)
    requires a != null ==> a.Valid()
    ensures a == null ==> toret == null
    ensures a != null ==> toret != null && fresh(toret) && fresh(toret.addr) && fresh(toret.mask) && toret.Valid()
                           && toret.Value() == BroadcastOf(a.Value())
  {
    if a == null {
      return null;
    }
    hide Unpack, Copied, Masked, LeadingOnes;
    var r := new Cidr();
    r.CopyMask(a);
    var i, j := CopyNetworkBits(a, r);
    ghost var p, bits := LeadingOnes(Unpack(a.mask[..])), Unpack(a.addr[..]);
    CopiedIsFilled(r.addr[..], bits, p);
    FillHostBits(r, i, j, bits, p);
    FilledIsBroadcast(r.addr[..], a.Value());
    return r;
  }

  lemma FilledIsBroadcast(addr: seq<byte>, b: Block)
    requires IsBlock(b) && Filled(addr, AddrBits(b), LeadingOnes(MaskBits(b)), 128)
    ensures addr == BroadcastOf(b).addr
  {
    var bits, p := AddrBits(b), LeadingOnes(MaskBits(b));
    assert bits[..p] + Ones(128 - p) + Zeros(0) == bits[..p] + Ones(128 - p);
    UnpackInjective(addr, BroadcastOf(b).addr);
  }

  lemma CopiedIsNetwork(addr: seq<byte>, b: Block)
    requires IsBlock(b) && Copied(addr, AddrBits(b), LeadingOnes(MaskBits(b)))
    ensures addr == NetworkOf(b).addr
  {
    UnpackInjective(addr, NetworkOf(b).addr);
  }

  /** Sets every bit from octet `i0`, bit `j0` on. */
  method FillHostBits(r: Cidr, i0: nat, j0: int, ghost bits: BitString, ghost p: nat)
    requires r.Valid() && i0 <= 16 && (i0 < 16 ==> 0 <= j0 < 8)
    requires Filled(r.addr[..], bits, p, p) && p == if i0 < 16 then 8 * i0 + 7 - j0 else 128
    modifies r.addr
    ensures Filled(r.addr[..], bits, p, 128)
  {
    hide Filled, Unpack, OrBit;
    var i, j := i0, j0;
    while i < 16
      invariant i0 <= i <= 16 && (i < 16 ==> 0 <= j < 8)
      invariant Filled(r.addr[..], bits, p, if i < 16 then 8 * i + 7 - j else 128)
    {
      while j >= 0
        invariant -1 <= j < 8
        invariant Filled(r.addr[..], bits, p, 8 * i + 7 - j)
      {
        FillBit(r.addr[..], bits, p, i, j);
        ghost var before := r.addr[..];
        r.addr[i] := OrBit(r.addr[i], j);
        assert r.addr[..] == before[i := r.addr[i]];
        j := j - 1;
      }
      i, j := i + 1, 7;
    }
  }

  /** `cidr_get_pflen` */
  method GetPflen(block: Cidr?) returns (pflen: int)
    requires block != null ==> block.Valid()
    ensures pflen == if block == null then -1 else PrefixLength(block.Value())
  {
    if block == null || block.proto == NoProto {
      return -1;
    }
    hide Unpack, TestBit, PrefixLength, OnesThenZeros;
    var i := if block.proto == IPv4 then 12 else 0;
    ghost var bits := Unpack(block.mask[..])[Start(block.proto)..];
    ghost var s := Start(block.proto);
    var foundnmh := false;
    pflen := 0;
    OnesThenZerosSteps(bits);
    while i <= 15
      invariant s <= 8 * i <= 128
      invariant OnesThenZeros(bits, 8 * i - s, pflen, foundnmh)
    {
      var j := 7;
      while j >= 0
        invariant -1 <= j < 8
        invariant OnesThenZeros(bits, 8 * i + 7 - j - s, pflen, foundnmh)
      {
        MaskBitAt(block.mask[..], i, j);
        if TestBit(block.mask[i], j) {
          if foundnmh {
            NotContiguous(block.Value(), 8 * i + 7 - j - s, pflen);
            return -1;
          }
          pflen := pflen + 1;
        } else {
          foundnmh := true;
        }
        j := j - 1;
      }
      i := i + 1;
    }
    IsContiguous(block.Value(), pflen, foundnmh);
  }

  /** The first `k` bits are `n` ones and then zeros; `zero` says whether there is a zero among them. */
  ghost predicate OnesThenZeros(bits: BitString, k: int, n: int, zero: bool) {
    && 0 <= n <= k <= |bits| && (zero <==> n < k)
    && forall m :: 0 <= m < k ==> bits[m] == (m < n)
  }

  lemma OnesThenZerosSteps(bits: BitString)
    ensures OnesThenZeros(bits, 0, 0, false)
    ensures forall k, n :: 0 <= k < |bits| && bits[k] && OnesThenZeros(bits, k, n, false) ==> OnesThenZeros(bits, k + 1, n + 1, false)
    ensures forall k, n, z :: 0 <= k < |bits| && !bits[k] && OnesThenZeros(bits, k, n, z) ==> OnesThenZeros(bits, k + 1, n, true)
  {
  }

  lemma NotContiguous(b: Block, k: int, n: int)
    requires IsBlock(b) && b.proto != NoProto && 0 <= k < 128 - Start(b.proto)
    requires MaskBits(b)[Start(b.proto)..][k] && OnesThenZeros(MaskBits(b)[Start(b.proto)..], k, n, true)
    ensures PrefixLength(b) == -1
  {
    hide Unpack;
    var bits := MaskBits(b)[Start(b.proto)..];
    LeadingOnesAre(bits, n);
    assert bits[n..][k - n];
  }

  lemma IsContiguous(b: Block, n: int, zero: bool)
    requires IsBlock(b) && b.proto != NoProto
    requires OnesThenZeros(MaskBits(b)[Start(b.proto)..], 128 - Start(b.proto), n, zero)
    ensures PrefixLength(b) == n
  {
    hide Unpack;
    var bits := MaskBits(b)[Start(b.proto)..];
    LeadingOnesAre(bits, n);
    assert bits[n..] == Zeros(|bits| - n);
  }

  /** `cidr_contains`: 0 for yes, -1 for no. */
  method ContainsBlock(big: Cidr?, little: Cidr?) returns (r: int)
    requires (big != null ==> big.Valid()) && (little != null ==> little.Valid())
    ensures r == if big != null && little != null && Contains(big.Value(), little.Value()) then 0 else -1
  {
    if big == null || little == null {
      return -1;
    }
    if big.proto != little.proto {
      return -1;
    }
    if big.proto != IPv4 && big.proto != IPv6 {
      return -1;
    }
    hide Unpack, TestBit, LeadingOnes, PrefixLength, SameBits;
    var littleLen := GetPflen(little);
    var pflen := GetPflen(big);
    if littleLen < pflen {
      return -1;
    }
    PrefixLengthFits(big.Value());
    var i := 0;
    if big.proto == IPv4 {
      i, pflen := 96, pflen + 96;
    }
    var same := SamePrefix(big, little, i, pflen);
    return if same then 0 else -1;
  }

  /** The comparing loop of `cidr_contains`. */
  method SamePrefix(big: Cidr, little: Cidr, first: nat, pflen: int) returns (same: bool)
    requires big.Valid() && little.Valid() && pflen <= 128
    ensures same == SameBits(Unpack(big.addr[..]), Unpack(little.addr[..]), first, pflen)
  {
    hide Unpack, TestBit;
    for i := first to if pflen < first then first else pflen
      invariant SameBits(Unpack(big.addr[..]), Unpack(little.addr[..]), first, if i <= pflen then i else pflen)
    {
      var oct, bit := i / 8, 7 - i % 8;
      MaskBitAt(big.addr[..], oct, bit);
      MaskBitAt(little.addr[..], oct, bit);
      assert 8 * oct + 7 - bit == i;
      if TestBit(big.addr[oct], bit) != TestBit(little.addr[oct], bit) {
        return false;
      }
    }
    return true;
  }

  /** `cidr_equals`: 0 for yes, -1 for no. */
  method EqualBlocks(one: Cidr, two: Cidr) returns (r: int)
    requires one.Valid() && two.Valid()
    ensures r == if Equals(one.Value(), two.Value()) then 0 else -1
  {
    if one.proto != two.proto {
      return -1;
    }
    var first := if one.proto == IPv4 then 12 else 0;
    for i := first to 16
      invariant one.addr[first..i] == two.addr[first..i] && one.mask[first..i] == two.mask[first..i]
    {
      if one.addr[i] != two.addr[i] {
        assert one.addr[..][first..][i - first] != two.addr[..][first..][i - first];
        return -1;
      }
      if one.mask[i] != two.mask[i] {
        assert one.mask[..][first..][i - first] != two.mask[..][first..][i - first];
        return -1;
      }
    }
    assert one.addr[..][first..] == one.addr[first..16] && two.addr[..][first..] == two.addr[first..16];
    assert one.mask[..][first..] == one.mask[first..16] && two.mask[..][first..] == two.mask[first..16];
    return 0;
  }

  /** `cidr_dup` */
  method Dup(src: Cidr) returns (r: Cidr)
    requires src.Valid()
    ensures fresh(r) && fresh(r.addr) && fresh(r.mask) && r.Valid() && r.Value() == src.Value()
  {
    r := new Cidr();
    r.CopyMask(src);
    forall i | 0 <= i < 16 {
      r.addr[i] := src.addr[i];
    }
    assert r.addr[..] == src.addr[..];
  }

  /** `addr` keeps the first `p` bits of `bits`; then come zeros up to `k`, and `bits` again. */
  ghost predicate Cleared(addr: seq<byte>, bits: BitString, p: nat, k: nat) {
    |addr| == 16 && |bits| == 128 && p <= k <= 128 && Unpack(addr) == bits[..p] + Zeros(k - p) + bits[k..]
  }

  /** `(toret->addr)[i] &= ~(1 << j)` */
  lemma ClearOne(addr: seq<byte>, bits: BitString, p: nat, i: nat, j: nat)
    requires i < 16 && j < 8 && Cleared(addr, bits, p, 8 * i + 7 - j)
    ensures Cleared(addr[i := ClearBit(addr[i], j)], bits, p, 8 * i + 8 - j)
  {
    hide Unpack, ClearBit, TestBit;
    var k := 8 * i + 7 - j;
    UnpackUpdated(addr, i, j);
    assert (bits[..p] + Zeros(k - p) + bits[k..])[k := false] == bits[..p] + Zeros(k + 1 - p) + bits[k + 1..];
  }

  /** `cidr_net_supernet`, for every block; its mask need not be contiguous. */
  method NetSupernet(a: Cidr?) returns (toret: Cidr?)
    requires a != null ==> a.Valid()
    ensures toret == null <==> a == null || PrefixLength(a.Value()) == 0
    ensures toret != null ==> fresh(toret) && toret.Valid() && toret.Value() == SupernetGiven(a.Value())
  {
    if a == null {
      return null;
    }
    hide Unpack, ClearBit, Cleared, LeadingOnes, PrefixLength, SupernetGiven;
    var pflen := GetPflen(a);
    if pflen == 0 {
      return null;
    }
    toret := Dup(a);
    if toret.proto == IPv4 {
      pflen := pflen + 96;
    }
    pflen := pflen - 1;
    var i, j := OctetOf(pflen), BitOf(pflen);
    ClearBitIn(toret.mask, i, j);
    ClearHostBits(toret, i, j);
    SupernetParts(a.Value(), toret.Value().mask, toret.Value().addr);
  }

  /** C's quotient and seven less C's remainder: a negative number truncates to the first octet, where its bit is none. */
  function OctetOf(k: int): nat
    requires k >= -8
  {
    if k < 0 then 0 else k / 8
  }

  function BitOf(k: int): nat
    requires k > -8
  {
    if k < 0 then 7 - k else 7 - k % 8
  }

  /** `octets[i] &= ~(1 << j)`; no octet has a bit from 8 on. */
  method ClearBitIn(octets: array<byte>, i: nat, j: nat)
    requires i < octets.Length
    modifies octets
    ensures octets[..] == old(octets[..])[i := if j < 8 then ClearBit(old(octets[i]), j) else old(octets[i])]
  {
    if j < 8 {
      octets[i] := ClearBit(octets[i], j);
    }
  }

  lemma SupernetParts(b: Block, mask: seq<byte>, addr: seq<byte>)
    requires IsBlock(b) && PrefixLength(b) != 0 && |mask| == 16
    requires var k := LastNetworkBit(b);
             && mask == b.mask[OctetOf(k) := if BitOf(k) < 8 then ClearBit(b.mask[OctetOf(k)], BitOf(k)) else b.mask[OctetOf(k)]]
             && Cleared(addr, Unpack(b.addr), if k < 0 then 0 else k, 128)
    ensures Block(b.proto, addr, mask) == SupernetGiven(b)
  {
    FewOnes(b);
    hide Unpack, ClearBit, TestBit, Masked, WithoutBit, LeadingOnes, PrefixLength;
    var k := LastNetworkBit(b);
    var p := if k < 0 then 0 else k;
    assert Unpack(b.addr)[..p] + Zeros(128 - p) + Unpack(b.addr)[128..] == Unpack(b.addr)[..p] + seq(128 - p, _ => false);
    UnpackInjective(addr, Masked(b.addr, p, false));
    if k >= 0 {
      UnpackUpdated(b.mask, k / 8, 7 - k % 8);
      UnpackInjective(mask, WithoutBit(b.mask, k));
    }
  }

  /** The position of an octet's bit; a bit that is none comes in front of all. */
  function Position(i: nat, j: int): nat
    requires i == 0 || j < 8
  {
    if j >= 8 then 0 else 8 * i + 7 - j
  }

  lemma PositionsFollow(i: nat)
    ensures Position(i, -1) == if i < 15 then Position(i + 1, 7) else 8 * i + 8
  {
  }

  lemma ClearStep(addr: seq<byte>, bits: BitString, p: nat, i: nat, j: nat)
    requires i < 16 && (i == 0 || j < 8) && Cleared(addr, bits, p, Position(i, j))
    ensures |addr| == 16
    ensures Cleared(addr[i := if j < 8 then ClearBit(addr[i], j) else addr[i]], bits, p, Position(i, j - 1))
  {
    hide Unpack, ClearBit;
    if j < 8 {
      ClearOne(addr, bits, p, i, j);
    } else {
      assert addr[i := addr[i]] == addr;
    }
  }

  /** Clears every address bit from octet `i0`, bit `j0` on. */
  method ClearHostBits(r: Cidr, i0: nat, j0: nat)
    requires r.Valid() && i0 < 16 && (i0 == 0 || j0 < 8)
    modifies r.addr
    ensures Cleared(r.addr[..], old(Unpack(r.addr[..])), Position(i0, j0), 128)
  {
    ghost var bits, p := Unpack(r.addr[..]), Position(i0, j0);
    assert bits[..p] + Zeros(0) + bits[p..] == bits;
    assert Cleared(r.addr[..], bits, p, p);
    hide Unpack, ClearBit, Cleared, Position;
    var i, j := i0, j0;
    while i < 16
      invariant i0 <= i <= 16 && (i < 16 ==> i == 0 || j < 8)
      invariant Cleared(r.addr[..], bits, p, if i < 16 then Position(i, j) else 128)
    {
      ClearOctet(r.addr, i, j, bits, p);
      PositionsFollow(i);
      i, j := i + 1, 7;
    }
  }

  /** The inner loop. */
  method ClearOctet(octets: array<byte>, i: nat, j0: nat, ghost bits: BitString, ghost p: nat)
    requires i < 16 && (i == 0 || j0 < 8) && Cleared(octets[..], bits, p, Position(i, j0))
    modifies octets
    ensures Cleared(octets[..], bits, p, Position(i, -1))
  {
    ClearedIsAddress(octets[..], bits, p, Position(i, j0));
    hide Unpack, ClearBit, Cleared, Position;
    var j: int := j0;
    while j >= 0
      invariant -1 <= j && (i == 0 || j < 8)
      invariant Cleared(octets[..], bits, p, Position(i, j))
    {
      ClearStep(octets[..], bits, p, i, j);
      ClearBitIn(octets, i, j);
      j := j - 1;
    }
  }

  lemma ClearedIsAddress(addr: seq<byte>, bits: BitString, p: nat, k: nat)
    requires Cleared(addr, bits, p, k)
    ensures |addr| == 16
  {
  }

  /** `cidr_net_subnets`, for every block; no pair for a host address. */
  method NetSubnets(a: Cidr?) returns (first: Cidr?, second: Cidr?)
    requires a != null ==> a.Valid()
    ensures first == null <==> second == null
    ensures first == null <==> a == null || LastNetworkBit(a.Value()) == 127
    ensures first != null ==>
              && fresh(first) && fresh(second) && first.Valid() && second.Valid() && first.addr != second.addr
              && LastNetworkBit(a.Value()) < 127 && (first.Value(), second.Value()) == SubnetsGiven(a.Value())
  {
    if a == null {
      return null, null;
    }
    hide Unpack, OrBit, LeadingOnes, Masked, NetworkOf, SubnetsGiven;
    FewOnes(a.Value());
    hide PrefixLength;
    var pflen := GetPflen(a);
    if (a.proto == IPv4 && pflen == 32) || (a.proto == IPv6 && pflen == 128) {
      return null, null;
    }
    if a.proto == IPv4 {
      pflen := pflen + 96;
    }
    first, second := SplitAt(a, pflen);
  }

  /** The two children: bit `k` joins the mask of both and the address of the second. */
  method SplitAt(a: Cidr, k: int) returns (first: Cidr, second: Cidr)
    requires a.Valid() && k == LastNetworkBit(a.Value()) + 1 < 128
    ensures fresh(first) && fresh(second) && first.Valid() && second.Valid() && first.addr != second.addr
    ensures (first.Value(), second.Value()) == SubnetsGiven(a.Value())
  {
    hide Unpack, OrBit, LeadingOnes, Masked, SubnetsGiven, PrefixLength;
    var network := AddrNetwork(a);
    first := network;
    ghost var mask, addr := first.mask[..], first.addr[..];
    var i, j := OctetOf(k), BitOf(k);
    SetBitIn(first.mask, i, j);
    second := Dup(first);
    SetBitIn(second.addr, i, j);
    SubnetParts(a.Value(), first.mask[..], second.addr[..]);
  }

  lemma FewOnes(b: Block)
    requires IsBlock(b)
    ensures PrefixLength(b) <= 128 - Start(b.proto) && (b.proto == NoProto ==> PrefixLength(b) == -1)
  {
  }

  /** `octets[i] |= 1 << j`; no octet has a bit from 8 on. */
  method SetBitIn(octets: array<byte>, i: nat, j: nat)
    requires i < octets.Length
    modifies octets
    ensures octets[..] == old(octets[..])[i := if j < 8 then OrBit(old(octets[i]), j) else old(octets[i])]
  {
    if j < 8 {
      octets[i] := OrBit(octets[i], j);
    }
  }

  lemma SubnetParts(b: Block, mask: seq<byte>, addr: seq<byte>)
    requires IsBlock(b) && LastNetworkBit(b) < 127 && |mask| == |addr| == 16
    requires var k, network := LastNetworkBit(b) + 1, NetworkOf(b).addr;
             && mask == b.mask[OctetOf(k) := if BitOf(k) < 8 then OrBit(b.mask[OctetOf(k)], BitOf(k)) else b.mask[OctetOf(k)]]
             && addr == network[OctetOf(k) := if BitOf(k) < 8 then OrBit(network[OctetOf(k)], BitOf(k)) else network[OctetOf(k)]]
    ensures var first := Block(b.proto, NetworkOf(b).addr, mask); SubnetsGiven(b) == (first, first.(addr := addr))
  {
    FewOnes(b);
    hide Unpack, OrBit, TestBit, Masked, LeadingOnes, PrefixLength, WithBit;
    var k := LastNetworkBit(b) + 1;
    if k < 0 {
      assert mask == b.mask && addr == NetworkOf(b).addr;
    } else {
      BitAdded(b.mask, mask, k);
      BitAdded(NetworkOf(b).addr, addr, k);
    }
  }

  lemma BitAdded(octets: seq<byte>, more: seq<byte>, k: nat)
    requires |octets| == 16 && k < 128 && more == octets[k / 8 := OrBit(octets[k / 8], 7 - k % 8)]
    ensures more == WithBit(octets, k)
  {
    hide Unpack, OrBit, TestBit, WithBit;
    UnpackUpdated(octets, k / 8, 7 - k % 8);
    UnpackInjective(more, WithBit(octets, k));
  }
}
