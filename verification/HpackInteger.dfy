/** Prefixed integers (RFC 7541, section 5.1) as the encoder writes and the decoder reads them. */
module HpackInteger {
  import opened Bits

  const INT_LIMIT := 0x8000_0000    // the decoder sums in a signed 32-bit integer
  const UINT_LIMIT := 0x1_0000_0000

  /** `Undefined`: the bytes run out, or the sum no longer fits the decoder's integer. */
  datatype IntResult = Int(value: nat, next: nat) | Undefined

  // ----- what the encoder writes -----

  function Continuation(v: nat): (r: seq<byte>)
    ensures |r| > 0
  {
    if v < 128 then [v] else [v % 128 + 128] + Continuation(v / 128)
  }

  function EncodedInt(v: nat, n: nat): (r: seq<byte>)
    requires 1 <= n <= 8
    ensures |r| > 0 && r[0] < Pow2(n)
  {
    Pow2AtMost(n);
    if v < Pow2(n) - 1 then [v] else [Pow2(n) - 1] + Continuation(v - (Pow2(n) - 1))
  }

  lemma Pow2AtMost(n: nat)
    requires n <= 8
    ensures Pow2(n) <= 256
  {
    assert n == 0 || n == 1 || n == 2 || n == 3 || n == 4 || n == 5 || n == 6 || n == 7 || n == 8;
  }

  /** `encode_integer`: appends `v` to `dst` with an `n`-bit prefix. */
  method EncodeInteger(dst: seq<byte>, v: nat, n: nat) returns (buf: seq<byte>)
    requires 1 <= n <= 8 && v < UINT_LIMIT
    ensures buf == dst + EncodedInt(v, n)
  {
    hide Pow2, EncodedInt, Continuation;
    Pow2AtMost(n);
    EncodedIntIs(v, n);
    var twoN := Pow2(n) - 1;
    if v < twoN {
      return dst + [v];
    }
    var i: nat := v - twoN;
    buf := dst + [twoN];
    while i >= 128
      invariant buf + Continuation(i) == dst + EncodedInt(v, n)
    {
      ContinuationStep(buf, i);
      buf := buf + [i % 128 + 128];
      i := i / 128;
    }
    LastContinuation(i);
    buf := buf + [i];
  }

  lemma EncodedIntIs(v: nat, n: nat)
    requires 1 <= n <= 8
    ensures Pow2(n) <= 256
    ensures EncodedInt(v, n) == if v < Pow2(n) - 1 then [v] else [Pow2(n) - 1] + Continuation(v - (Pow2(n) - 1))
  {
    Pow2AtMost(n);
  }

  lemma LastContinuation(i: nat)
    requires i < 128
    ensures Continuation(i) == [i]
  {
  }

  lemma ContinuationStep(buf: seq<byte>, i: nat)
    requires i >= 128
    ensures buf + Continuation(i) == (buf + [i % 128 + 128]) + Continuation(i / 128)
  {
  }

  // ----- what the decoder reads -----

  function DecodedInt(data: seq<byte>, pos: nat, n: nat): (r: IntResult)
    requires 1 <= n <= 8
    ensures r.Int? ==> pos < r.next <= |data|
  {
    if pos >= |data| then Undefined
    else
      var i := data[pos] % Pow2(n);
      if i < Pow2(n) - 1 then Int(i, pos + 1) else DecodedRest(data, pos + 1, i, 0)
  }

  /** The continuation bytes from `at` on; `m` is the 8-bit shift counter, which wraps. */
  function DecodedRest(data: seq<byte>, at: nat, i: nat, m: nat): (r: IntResult)
    requires m < 256
    ensures r.Int? ==> at < r.next <= |data|
    decreases |data| - at
  {
    if at >= |data| then Undefined
    else
      var sum := i + data[at] % 128 * Pow2(m);
      if sum >= INT_LIMIT then Undefined
      else if data[at] >= 128 then DecodedRest(data, at + 1, sum, (m + 7) % 256)
      else Int(sum, at + 1)
  }

  /** `decode_integer`: the value, and where the iterator is left. */
  method DecodeInteger(data: seq<byte>, beg: nat, n: nat) returns (r: IntResult)
    requires 1 <= n <= 8
    ensures r == DecodedInt(data, beg, n)
  {
    if beg >= |data| {
      return Undefined;
    }
    var i: nat := data[beg] % Pow2(n);
    if i < Pow2(n) - 1 {
      return Int(i, beg + 1);
    }
    var current: nat, m: nat, more := beg, 0, true;
    while more
      invariant beg <= current < |data| && m < 256
      invariant more ==> DecodedInt(data, beg, n) == DecodedRest(data, current + 1, i, m)
      invariant !more ==> DecodedInt(data, beg, n) == Int(i, current + 1)
      decreases |data| - current, more
    {
      current := current + 1;
      if current >= |data| {
        return Undefined;
      }
      var b := data[current];
      ProductOfNats(b % 128, Pow2(m));
      i := i + b % 128 * Pow2(m);
      if i >= INT_LIMIT {
        return Undefined;
      }
      m := (m + 7) % 256;
      more := b >= 128;
    }
    return Int(i, current + 1);
  }

  // ----- reading back what was written -----

  /** `bytes` with flag bits above the prefix in its first byte. */
  function Flagged(bytes: seq<byte>, flags: nat): seq<byte>
    requires |bytes| > 0 && bytes[0] + flags < 256
  {
    [bytes[0] + flags] + bytes[1..]
  }

  /** `flags` are bits above an `n`-bit prefix. */
  predicate AbovePrefix(flags: nat, n: nat) {
    flags % Pow2(n) == 0 && flags + Pow2(n) <= 256
  }

  /** The decoder returns what was encoded, and stops right after it, exactly for values below 2^31. */
  lemma IntegerRoundTrip(before: seq<byte>, v: nat, n: nat, flags: nat, after: seq<byte>)
    requires 1 <= n <= 8 && v < UINT_LIMIT && AbovePrefix(flags, n)
    ensures var bytes := Flagged(EncodedInt(v, n), flags);
            DecodedInt(before + bytes + after, |before|, n)
            == if v < INT_LIMIT then Int(v, |before + bytes|) else Undefined
  {
    var bytes := Flagged(EncodedInt(v, n), flags);
    var data := before + bytes + after;
    var prefix := EncodedInt(v, n)[0];
    assert data[|before|] == prefix + flags;
    PrefixOf(prefix, flags, n);
    if v >= Pow2(n) - 1 {
      var rest := Continuation(v - (Pow2(n) - 1));
      var front := before + [prefix + flags];
      assert data == front + rest + after;
      assert Pow2(0) == 1;
      RestRoundTrip(front, v - (Pow2(n) - 1), Pow2(n) - 1, 0, v, after);
      assert |front + rest| == |before + bytes|;
    }
  }

  lemma ProductOfNats(a: nat, b: nat)
    ensures a * b >= 0
  {
  }

  lemma ProductAtLeast(a: nat, b: nat)
    requires a >= 1
    ensures a * b >= b
  {
  }

  lemma PrefixOf(prefix: nat, flags: nat, n: nat)
    requires prefix < Pow2(n) && flags % Pow2(n) == 0
    ensures (prefix + flags) % Pow2(n) == prefix
  {
    var k := flags / Pow2(n);
    assert flags == Pow2(n) * k;
    DivUnique(prefix + flags, Pow2(n), k, prefix);
  }

  /** With `i` summed so far and `rest` still to come at weight 2^m, the total is `v`. */
  lemma {:induction false} RestRoundTrip(front: seq<byte>, rest: nat, i: nat, m: nat, v: nat, after: seq<byte>)
    requires i + rest * Pow2(m) == v < UINT_LIMIT && i < INT_LIMIT && m < 32
    ensures DecodedRest(front + Continuation(rest) + after, |front|, i, m)
            == if v < INT_LIMIT then Int(v, |front + Continuation(rest)|) else Undefined
    decreases rest
  {
    var data := front + Continuation(rest) + after;
    if rest >= 128 {
      var b := rest % 128 + 128;
      assert data[|front|] == b;
      var sum := i + rest % 128 * Pow2(m);
      SplitRest(rest, m);
      if sum < INT_LIMIT {
        var longer := front + [b];
        assert data == longer + Continuation(rest / 128) + after;
        ShiftStaysSmall(rest / 128, m + 7, v);
        RestRoundTrip(longer, rest / 128, sum, m + 7, v, after);
        assert |longer + Continuation(rest / 128)| == |front + Continuation(rest)|;
      }
    } else {
      assert data[|front|] == rest;
    }
  }

  lemma SplitRest(rest: nat, m: nat)
    ensures rest * Pow2(m) == rest % 128 * Pow2(m) + rest / 128 * Pow2(m + 7)
    ensures rest / 128 * Pow2(m + 7) >= 0
  {
    Pow2Add(m, 7);
    assert Pow2(7) == 128;
    assert rest == 128 * (rest / 128) + rest % 128;
    var q, r, p := rest / 128, rest % 128, Pow2(m);
    assert (128 * q + r) * p == q * (p * 128) + r * p;
  }

  lemma ShiftStaysSmall(q: nat, m: nat, v: nat)
    requires q >= 1 && q * Pow2(m) <= v < UINT_LIMIT
    ensures m < 32
  {
    hide Pow2;
    ProductAtLeast(q, Pow2(m));
    Pow2At32();
    if m >= 32 {
      Pow2Monotonic(32, m);
    }
  }

  lemma Pow2At32()
    ensures Pow2(32) == UINT_LIMIT
  {
    hide Pow2;
    Pow2Plus8(0);
    Pow2Plus8(8);
    Pow2Plus8(16);
    Pow2Plus8(24);
  }
}
