/** Numbers and characters of address text: the C library's conversions, and the printed forms. */
module CidrText {
  // ----- characters and C library functions -----

  /** The character at `i` of a C string: its terminator once past the end. */
  function At(s: string, i: int): char {
    if 0 <= i < |s| then s[i] else '\0'
  }

  predicate IsDigit(c: char) {
    '0' <= c <= '9'
  }

  predicate IsHexDigit(c: char) {
    IsDigit(c) || 'a' <= c <= 'f' || 'A' <= c <= 'F'
  }

  predicate IsX(c: char) {
    c == 'x' || c == 'X'
  }

  function DigitValue(c: char): nat
    requires IsHexDigit(c)
  {
    if IsDigit(c) then c as int - '0' as int
    else if 'a' <= c then c as int - 'a' as int + 10
    else c as int - 'A' as int + 10
  }

  predicate IsDigitOf(c: char, base: nat) {
    IsHexDigit(c) && DigitValue(c) < base
  }

  /** `strspn` over the digits of a base: where they end. */
  function DigitsEnd(s: string, i: nat, base: nat): (e: nat)
    ensures i <= e && (i <= |s| ==> e <= |s|)
    ensures forall k :: i <= k < e ==> k < |s| && IsDigitOf(s[k], base)
    ensures !IsDigitOf(At(s, e), base)
    decreases |s| - i
  {
    if i < |s| && IsDigitOf(s[i], base) then DigitsEnd(s, i + 1, base) else i
  }

  function DigitsValue(s: string, base: nat): nat
    requires forall k :: 0 <= k < |s| ==> IsHexDigit(s[k])
  {
    if s == [] then 0 else DigitsValue(s[..|s| - 1], base) * base + DigitValue(s[|s| - 1])
  }

  /** `strchr`: the first position of `c`, or the length. */
  function Find(s: string, c: char, from: nat): (k: nat)
    requires from <= |s|
    ensures from <= k <= |s|
    ensures forall i :: from <= i < k ==> s[i] != c
    ensures k < |s| ==> s[k] == c
    decreases |s| - from
  {
    if from == |s| || s[from] == c then from else Find(s, c, from + 1)
  }

  const ULONG_MAX := 0xFFFF_FFFF_FFFF_FFFF
  const LONG_MAX := 0x7FFF_FFFF_FFFF_FFFF

  datatype Number = Number(value: int, end: nat)

  /** `strtoul(s + i, &end, base)`: an optional minus, an optional 0x in base 16, then digits; `end` stays at `i`
      without digits. Blanks and plus signs are not among the characters addresses may contain. */
  function Strtoul(s: string, i: nat, base: nat): (n: Number)
    requires i <= |s|
    ensures 0 <= n.value <= ULONG_MAX && i <= n.end <= |s|
  {
    var negative := At(s, i) == '-';
    var j := if negative then i + 1 else i;
    var from := if base == 16 && At(s, j) == '0' && IsX(At(s, j + 1)) && IsHexDigit(At(s, j + 2)) then j + 2 else j;
    var end := DigitsEnd(s, from, base);
    if end == from then Number(0, i)
    else
      var v := DigitsValue(s[from..end], base);
      Number(if v > ULONG_MAX then ULONG_MAX else if negative && v > 0 then ULONG_MAX + 1 - v else v, end)
  }

  /** `(int) strtol(s + i, nullptr, 10)`: clamped to 64 bits, then cut to 32. */
  function StrtolInt(s: string, i: nat): int
    requires i <= |s|
  {
    var negative := At(s, i) == '-';
    var from := if negative then i + 1 else i;
    var v := DigitsValue(s[from..DigitsEnd(s, from, 10)], 10);
    var clamped: int := if negative then (if v > LONG_MAX then -(LONG_MAX as int) - 1 else -(v as int)) else if v > LONG_MAX then LONG_MAX else v;
    (clamped + 0x8000_0000) % 0x1_0000_0000 - 0x8000_0000
  }

  // ----- printing numbers -----

  function DigitChar(d: nat): (c: char)
    requires d < 16
    ensures IsHexDigit(c) && DigitValue(c) == d
    ensures IsDigit(c) <==> d < 10
    ensures c == '0' <==> d == 0
  {
    if d < 10 then '0' + d as char else 'a' + (d - 10) as char
  }

  /** `%u` and `%x` */
  function Digits(v: nat, base: nat): (s: string)
    requires base == 10 || base == 16
    ensures |s| > 0 && forall k :: 0 <= k < |s| ==> IsDigitOf(s[k], base)
    ensures s[0] == '0' <==> v == 0
    ensures v == 0 ==> s == "0"
  {
    if v < base then [DigitChar(v)]
    else if base == 10 then Digits(v / 10, 10) + [DigitChar(v % 10)]
    else Digits(v / 16, 16) + [DigitChar(v % 16)]
  }

  lemma {:induction false} DigitsRead(v: nat, base: nat)
    requires base == 10 || base == 16
    ensures DigitsValue(Digits(v, base), base) == v
  {
    var front := Digits(v, base)[..|Digits(v, base)| - 1];
    if v < base {
      assert front == [];
    } else if base == 10 {
      DigitsRead(v / 10, 10);
      assert front == Digits(v / 10, 10);
    } else {
      DigitsRead(v / 16, 16);
      assert front == Digits(v / 16, 16);
    }
  }

  function Power(base: nat, n: nat): nat {
    if n == 0 then 1 else base * Power(base, n - 1)
  }

  lemma {:induction false} DigitsLength(v: nat, base: nat, n: nat)
    requires (base == 10 || base == 16) && n >= 1 && v < Power(base, n)
    ensures |Digits(v, base)| <= n
  {
    if v >= base {
      assert n > 1;
      if base == 10 {
        DigitsLength(v / 10, 10, n - 1);
      } else {
        DigitsLength(v / 16, 16, n - 1);
      }
    }
  }

  /** A printed number, followed by something that is no digit, is read back by `strtoul`. */
  lemma StrtoulReads(s: string, i: nat, v: nat, base: nat)
    requires (base == 10 || base == 16) && v <= ULONG_MAX
    requires var text := Digits(v, base);
             i + |text| <= |s| && s[i..i + |text|] == text && !IsHexDigit(At(s, i + |text|)) && !IsX(At(s, i + |text|))
    ensures Strtoul(s, i, base) == Number(v, i + |Digits(v, base)|)
  {
    hide Digits, DigitsValue;
    var text := Digits(v, base);
    assert forall k :: i <= k < i + |text| ==> s[k] == text[k - i];
    assert s[i] == text[0];
    DigitsEndIs(s, i, i + |text|, base);
    DigitsRead(v, base);
    assert At(s, i + 1) == if |text| > 1 then text[1] else At(s, i + |text|);
  }

  lemma OctalZeroReads(s: string, i: nat)
    requires i < |s| && s[i] == '0' && !IsHexDigit(At(s, i + 1))
    ensures Strtoul(s, i, 8) == Number(0, i + 1)
  {
    DigitsEndIs(s, i, i + 1, 8);
    assert s[i..i + 1] == "0";
    assert "0"[..0] == "";
  }

  lemma {:induction false} DigitsEndIs(s: string, i: nat, e: nat, base: nat)
    requires i <= e <= |s| && !IsDigitOf(At(s, e), base)
    requires forall k :: i <= k < e ==> IsDigitOf(s[k], base)
    ensures DigitsEnd(s, i, base) == e
    decreases e - i
  {
    if i < e {
      DigitsEndIs(s, i + 1, e, base);
    }
  }

  lemma StrtolReads(s: string, i: nat, v: nat)
    requires v < 1000 && i <= |s| && s[i..] == Digits(v, 10)
    ensures StrtolInt(s, i) == v
  {
    var text := Digits(v, 10);
    assert forall k :: i <= k < |s| ==> s[k] == text[k - i];
    assert s[i] == text[0];
    DigitsEndIs(s, i, |s|, 10);
    assert s[i..|s|] == text;
    DigitsRead(v, 10);
  }
}
