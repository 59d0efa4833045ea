/** Bytes, bits and the bit operations of the source, written out as arithmetic on `byte`. */
module Bits {
  type byte = x: int | 0 <= x < 256
  type BitString = seq<bool>

  /** A big-endian 16-bit number. */
  function U16(p: seq<byte>, i: nat): (n: nat)
    requires i + 2 <= |p|
    ensures n < 0x1_0000
  {
    p[i] as nat * 0x100 + p[i + 1] as nat
  }

  /** The two bytes of a number in network order. */
  function Bytes16(n: nat): (r: seq<byte>)
    ensures |r| == 2 && U16(r, 0) == n % 0x1_0000
  {
    [n / 0x100 % 0x100, n % 0x100]
  }

  function Pow2(n: nat): (r: nat)
    ensures r > 0
  {
    if n == 0 then 1 else 2 * Pow2(n - 1)
  }

  lemma {:induction false} Pow2Add(m: nat, n: nat)
    ensures Pow2(m + n) == Pow2(m) * Pow2(n)
  {
    if m > 0 {
      Pow2Add(m - 1, n);
    }
  }

  lemma Pow2Plus8(n: nat)
    ensures Pow2(0) == 1 && Pow2(n + 8) == 256 * Pow2(n)
  {
    assert Pow2(n + 2) == 4 * Pow2(n);
    assert Pow2(n + 4) == 4 * Pow2(n + 2);
    assert Pow2(n + 6) == 4 * Pow2(n + 4);
  }

  lemma {:induction false} Pow2Monotonic(m: nat, n: nat)
    requires m <= n
    ensures Pow2(m) <= Pow2(n)
  {
    if m < n {
      Pow2Monotonic(m, n - 1);
    }
  }

  function Bit(b: bool): nat {
    if b then 1 else 0
  }

  /** The number a bit string denotes, most significant bit first. */
  function Val(bits: BitString): nat {
    if bits == [] then 0 else 2 * Val(bits[..|bits| - 1]) + Bit(bits[|bits| - 1])
  }

  /** The `len` low bits of `v`, most significant bit first. */
  function ToBits(len: nat, v: nat): (r: BitString)
    ensures |r| == len
  {
    if len == 0 then [] else ToBits(len - 1, v / 2) + [v % 2 == 1]
  }

  function Ones(n: nat): BitString {
    seq(n, _ => true)
  }

  lemma ValSnoc(bits: BitString, b: bool)
    ensures Val(bits + [b]) == 2 * Val(bits) + Bit(b)
  {
    assert (bits + [b])[..|bits|] == bits;
  }

  lemma {:induction false} ValBound(bits: BitString)
    ensures Val(bits) < Pow2(|bits|)
  {
    if bits != [] {
      ValBound(bits[..|bits| - 1]);
    }
  }

  lemma {:induction false} ValToBits(len: nat, v: nat)
    requires v < Pow2(len)
    ensures Val(ToBits(len, v)) == v
  {
    if len > 0 {
      ValToBits(len - 1, v / 2);
      ValSnoc(ToBits(len - 1, v / 2), v % 2 == 1);
    }
  }

  lemma {:induction false} ToBitsVal(bits: BitString)
    ensures ToBits(|bits|, Val(bits)) == bits
  {
    if bits != [] {
      var front, last := bits[..|bits| - 1], bits[|bits| - 1];
      ToBitsVal(front);
      Halved(Val(front), last);
      assert bits == front + [last];
    }
  }

  lemma Halved(v: nat, b: bool)
    ensures (2 * v + Bit(b)) / 2 == v && ((2 * v + Bit(b)) % 2 == 1 <==> b)
  {
  }

  predicate BitAt(v: nat, j: nat) {
    v / Pow2(j) % 2 == 1
  }

  /** `x & (1 << j)` is non-zero. */
  predicate TestBit(x: byte, j: nat)
    requires j < 8
  {
    BitAt(x, j)
  }

  /** The eight bits of a byte, most significant first. */
  function ByteBits(x: byte): (r: BitString)
    ensures |r| == 8
  {
    ToBits(8, x)
  }

  lemma ByteBitsTest(x: byte, j: nat)
    requires j < 8
    ensures ByteBits(x)[7 - j] == TestBit(x, j)
  {
    ToBitsAt(8, x, 7 - j);
  }

  lemma {:induction false} ToBitsAt(len: nat, v: nat, k: nat)
    requires k < len
    ensures ToBits(len, v)[k] == BitAt(v, len - 1 - k)
  {
    hide BitAt;
    if k < len - 1 {
      ToBitsAt(len - 1, v / 2, k);
      BitOfHalf(v, len - 1 - k);
    } else {
      LowBit(v);
    }
  }

  lemma BitOfHalf(v: nat, j: nat)
    requires j > 0
    ensures BitAt(v, j) == BitAt(v / 2, j - 1)
  {
    DivDiv(v, Pow2(j - 1));
  }

  lemma LowBit(v: nat)
    ensures BitAt(v, 0) == (v % 2 == 1)
  {
  }

  lemma DivDiv(v: nat, d: nat)
    requires d > 0
    ensures v / 2 / d == v / (2 * d)
  {
    var w := v / 2;
    DivMod(w, d);
    var q, r := w / d, 2 * (w % d) + v % 2;
    Doubled(v, w, d * q, w % d);
    DoubleProduct(d, q);
    DivUnique(v, 2 * d, q, r);
  }

  lemma Doubled(v: nat, w: nat, x: int, r: nat)
    requires w == v / 2 && w == x + r
    ensures v == 2 * x + (2 * r + v % 2)
  {
  }

  lemma DivMod(v: nat, e: nat)
    requires e > 0
    ensures v == e * (v / e) + v % e && v % e < e
  {
  }

  lemma DoubleProduct(d: nat, q: nat)
    ensures (2 * d) * q == 2 * (d * q)
  {
  }

  lemma DivUnique(x: nat, d: nat, q: nat, r: nat)
    requires d > 0 && r < d && x == d * q + r
    ensures x / d == q && x % d == r
  {
    var q', r' := x / d, x % d;
    assert d * (q - q') == r' - r;
    MulSmall(d, q - q', r' - r);
  }

  lemma MulSmall(d: nat, k: int, t: int)
    requires d * k == t && t < d && 0 < d + t
    ensures k == 0
  {
  }

  function Unpack(bytes: seq<byte>): (r: BitString)
    ensures |r| == 8 * |bytes|
  {
    if bytes == [] then [] else Unpack(bytes[..|bytes| - 1]) + ByteBits(bytes[|bytes| - 1])
  }

  lemma UnpackSnoc(bytes: seq<byte>, x: byte)
    ensures Unpack(bytes + [x]) == Unpack(bytes) + ByteBits(x)
  {
    assert (bytes + [x])[..|bytes|] == bytes;
  }

  lemma {:induction false} UnpackAt(bytes: seq<byte>, i: nat, k: nat)
    requires i < |bytes| && k < 8
    ensures Unpack(bytes)[8 * i + k] == ByteBits(bytes[i])[k]
  {
    if i < |bytes| - 1 {
      UnpackAt(bytes[..|bytes| - 1], i, k);
    }
  }

  lemma UnpackByte(bytes: seq<byte>, bits: BitString)
    requires |bits| == 8
    ensures Val(bits) < 256 && Unpack(bytes + [Val(bits)]) == Unpack(bytes) + bits
  {
    ValBound(bits);
    assert Pow2(8) == 256;
    ToBitsVal(bits);
    UnpackSnoc(bytes, Val(bits));
  }

  /** The bytes whose bits are `bits`. */
  function Pack(bits: BitString): (r: seq<byte>)
    requires |bits| % 8 == 0
    ensures Unpack(r) == bits
  {
    if bits == [] then []
    else
      var front, last := bits[..|bits| - 8], bits[|bits| - 8..];
      UnpackByte(Pack(front), last);
      assert bits == front + last;
      Pack(front) + [Val(last)]
  }

  lemma {:induction false} UnpackInjective(a: seq<byte>, b: seq<byte>)
    requires Unpack(a) == Unpack(b)
    ensures a == b
  {
    if a != [] {
      var m, n := |a| - 1, |b| - 1;
      assert Unpack(a)[..8 * m] == Unpack(a[..m]) && Unpack(b)[..8 * n] == Unpack(b[..n]);
      assert Unpack(a)[8 * m..] == ByteBits(a[m]) && Unpack(b)[8 * n..] == ByteBits(b[n]);
      UnpackInjective(a[..m], b[..n]);
      assert Pow2(8) == 256;
      ValToBits(8, a[m]);
      ValToBits(8, b[n]);
      assert a == a[..m] + [a[m]] && b == b[..n] + [b[n]];
    }
  }

  lemma {:induction false} ValConcat(a: BitString, b: BitString)
    ensures Val(a + b) == Val(a) * Pow2(|b|) + Val(b)
  {
    if b == [] {
      assert a + b == a;
    } else {
      var front, last := b[..|b| - 1], b[|b| - 1];
      assert b == front + [last] && a + b == (a + front) + [last];
      ValConcat(a, front);
      ValSnoc(a + front, last);
      ValSnoc(front, last);
      Doubling(Val(a), Pow2(|front|));
    }
  }

  lemma Doubling(v: nat, w: nat)
    ensures v * (2 * w) == 2 * (v * w)
  {
  }

  lemma ValInjective(a: BitString, b: BitString)
    requires |a| == |b| && Val(a) == Val(b)
    ensures a == b
  {
    ToBitsVal(a);
    ToBitsVal(b);
  }

  lemma {:induction false} ValOnes(n: nat)
    ensures Val(Ones(n)) == Pow2(n) - 1
  {
    if n > 0 {
      assert Ones(n) == Ones(n - 1) + [true];
      ValSnoc(Ones(n - 1), true);
      ValOnes(n - 1);
    }
  }

  /** `x | (1 << j)` */
  function OrBit(x: byte, j: nat): byte
    requires j < 8
  {
    assert Pow2(8) == 256;
    if TestBit(x, j) then x
    else
      BitSet(8, x, j);
      x + Pow2(j)
  }

  /** `x & ~(1 << j)` */
  function ClearBit(x: byte, j: nat): byte
    requires j < 8
  {
    assert Pow2(8) == 256;
    if !TestBit(x, j) then x
    else
      BitCleared(8, x, j);
      x - Pow2(j)
  }

  lemma {:induction false} BitSet(len: nat, v: nat, j: nat)
    requires j < len && v < Pow2(len) && !BitAt(v, j)
    ensures v + Pow2(j) < Pow2(len) && ToBits(len, v + Pow2(j)) == ToBits(len, v)[len - 1 - j := true]
    decreases len
  {
    hide BitAt;
    if j == 0 {
      LowBit(v);
    } else {
      Pow2Doubles(len - 1);
      Pow2Doubles(j - 1);
      hide Pow2;
      BitOfHalf(v, j);
      BitSet(len - 1, v / 2, j - 1);
      HalfSum(v, Pow2(j - 1));
    }
  }

  lemma {:induction false} BitCleared(len: nat, v: nat, j: nat)
    requires j < len && v < Pow2(len) && BitAt(v, j)
    ensures v >= Pow2(j) && ToBits(len, v - Pow2(j)) == ToBits(len, v)[len - 1 - j := false]
    decreases len
  {
    hide BitAt;
    if j == 0 {
      LowBit(v);
    } else {
      Pow2Doubles(len - 1);
      Pow2Doubles(j - 1);
      hide Pow2;
      BitOfHalf(v, j);
      BitCleared(len - 1, v / 2, j - 1);
      HalfSum(v, -(Pow2(j - 1) as int));
    }
  }

  lemma HalfSum(v: nat, d: int)
    ensures (v + 2 * d) / 2 == v / 2 + d && (v + 2 * d) % 2 == v % 2
  {
  }

  lemma Pow2Doubles(n: nat)
    ensures Pow2(n + 1) == 2 * Pow2(n)
  {
  }

  /** Setting or clearing bit `j` of byte `i` is updating the bit string at `8 * i + 7 - j`. */
  lemma UnpackUpdated(bytes: seq<byte>, i: nat, j: nat)
    requires i < |bytes| && j < 8
    ensures Unpack(bytes)[8 * i + 7 - j] == TestBit(bytes[i], j)
    ensures Unpack(bytes[i := OrBit(bytes[i], j)]) == Unpack(bytes)[8 * i + 7 - j := true]
    ensures Unpack(bytes[i := ClearBit(bytes[i], j)]) == Unpack(bytes)[8 * i + 7 - j := false]
  {
    hide Unpack, ByteBits, OrBit, ClearBit, TestBit;
    UnpackAt(bytes, i, 7 - j);
    ByteBitsTest(bytes[i], j);
    OrBitBits(bytes[i], j);
    UnpackReplaced(bytes, i, OrBit(bytes[i], j));
    UnpackReplaced(bytes, i, ClearBit(bytes[i], j));
    UnpackReplaced(bytes, i, bytes[i]);
    assert bytes[i := bytes[i]] == bytes;
    Spliced(Unpack(bytes), 8 * i, ByteBits(bytes[i]), 7 - j, true);
    Spliced(Unpack(bytes), 8 * i, ByteBits(bytes[i]), 7 - j, false);
  }

  lemma Spliced(bits: BitString, at: nat, part: BitString, k: nat, b: bool)
    requires at + |part| <= |bits| && bits == bits[..at] + part + bits[at + |part|..] && k < |part|
    ensures bits[..at] + part[k := b] + bits[at + |part|..] == bits[at + k := b]
  {
  }

  lemma OrBitBits(x: byte, j: nat)
    requires j < 8
    ensures ByteBits(OrBit(x, j)) == ByteBits(x)[7 - j := true]
    ensures ByteBits(ClearBit(x, j)) == ByteBits(x)[7 - j := false]
  {
    assert Pow2(8) == 256;
    hide Pow2, ToBits, BitAt;
    ByteBitsTest(x, j);
    var bits := ByteBits(x);
    assert bits[7 - j := bits[7 - j]] == bits;
    if TestBit(x, j) {
      BitCleared(8, x, j);
    } else {
      BitSet(8, x, j);
    }
  }

  lemma {:induction false} UnpackReplaced(bytes: seq<byte>, i: nat, x: byte)
    requires i < |bytes|
    ensures Unpack(bytes[i := x]) == Unpack(bytes)[..8 * i] + ByteBits(x) + Unpack(bytes)[8 * i + 8..]
    decreases |bytes|
  {
    var n := |bytes| - 1;
    if i < n {
      assert bytes[i := x][..n] == bytes[..n][i := x];
      UnpackReplaced(bytes[..n], i, x);
    } else {
      assert bytes[i := x][..n] == bytes[..n];
    }
  }
}
