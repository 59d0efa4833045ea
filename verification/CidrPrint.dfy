/** Printing a block: `cidr_to_str` without flags. */
module CidrPrint {
  import opened Bits
  import opened CidrBlock
  import opened CidrOps
  import opened CidrText
  import opened Wrappers

  // ----- the printed form -----

  function V4Text(addr: seq<byte>): string
    requires |addr| == 16
  {
    Digits(addr[12], 10) + "." + Digits(addr[13], 10) + "." + Digits(addr[14], 10) + "." + Digits(addr[15], 10)
  }

  function Group(high: byte, low: byte): (g: nat)
    ensures g < 0x1_0000
  {
    high as int * 256 + low as int
  }

  /** The eight 16-bit groups of an address. */
  function Groups(addr: seq<byte>): (g: seq<nat>)
    requires |addr| == 16
    ensures |g| == 8 && forall k :: 0 <= k < 8 ==> g[k] == Group(addr[2 * k], addr[2 * k + 1])
  {
    seq(8, k requires 0 <= k < 8 => Group(addr[2 * k], addr[2 * k + 1]))
  }

  /** Groups in hexadecimal, colons between them. */
  function Join(gs: seq<nat>): string {
    if gs == [] then ""
    else if |gs| == 1 then Digits(gs[0], 16)
    else Join(gs[..|gs| - 1]) + ":" + Digits(gs[|gs| - 1], 16)
  }

  /** A run of zero groups to be written as `::`. */
  datatype Run = NoRun | Run(start: nat, len: nat)

  predicate ZeroRun(g: seq<nat>, start: nat, len: nat) {
    start + len <= |g| && forall k :: start <= k < start + len ==> g[k] == 0
  }

  /** The longest run, and the first one of that length. */
  ghost predicate LongestRun(g: seq<nat>, r: Run) {
    match r
    case NoRun => forall k :: 0 <= k < |g| ==> g[k] != 0
    case Run(start, len) =>
      && len >= 1 && ZeroRun(g, start, len)
      && forall a, n :: 0 <= a <= |g| && 0 <= n && ZeroRun(g, a, n) ==> n <= len && (n == len ==> start <= a)
  }

  function V6Text(g: seq<nat>, r: Run): string
    requires r.Run? ==> r.start + r.len <= |g|
  {
    match r
    case NoRun => Join(g)
    case Run(start, len) => Join(g[..start]) + "::" + Join(g[start + len..])
  }

  /** `s` is how the block prints. */
  ghost predicate IsText(b: Block, s: string)
    requires IsBlock(b)
  {
    && PrefixLength(b) >= 0
    && if b.proto == IPv4 then s == V4Text(b.addr) + "/" + Digits(PrefixLength(b), 10)
       else exists r :: LongestRun(Groups(b.addr), r) && s == V6Text(Groups(b.addr), r) + "/" + Digits(PrefixLength(b), 10)
  }

  /** A single group of zero is a run already. */
  lemma OneZeroIsARun(g: seq<nat>, k: nat)
    requires k < |g| && forall i :: 0 <= i < |g| ==> (g[i] == 0 <==> i == k)
    ensures LongestRun(g, Run(k, 1))
  {
    forall a, n | 0 <= a <= |g| && 0 <= n && ZeroRun(g, a, n) ensures n <= 1 && (n == 1 ==> k <= a) {
      if n > 0 {
        ZeroInRun(g, a, n, a);
      }
      if n > 1 {
        ZeroInRun(g, a, n, a + 1);
      }
    }
  }

  lemma LongestRunUnique(g: seq<nat>, r: Run, q: Run)
    requires LongestRun(g, r) && LongestRun(g, q)
    ensures r == q
  {
    if r.Run? {
      ZeroInRun(g, r.start, r.len, r.start);
    }
    if q.Run? {
      ZeroInRun(g, q.start, q.len, q.start);
    }
  }

  // ----- printing -----

  /** The best run among those that end by group `k`; it starts at octet `zst`. */
  ghost predicate Best(g: seq<nat>, k: int, zst: int, zmax: nat) {
    && 0 <= k <= |g|
    && (zst == -1 ==> zmax == 0)
    && (zst != -1 ==> 0 <= zst && zst % 2 == 0 && zmax >= 1 && zst / 2 + zmax <= k && ZeroRun(g, zst / 2, zmax))
    && forall a, n :: 0 <= a && 0 < n && a + n <= k && ZeroRun(g, a, n) ==> n <= zmax && (n == zmax ==> zst / 2 <= a)
  }

  /** What the scan knows before group `k`: the run it is in, if any, and the best run that has ended. */
  ghost predicate Scanned(g: seq<nat>, k: int, zcur: int, zlen: nat, zst: int, zmax: nat) {
    && 0 <= k <= |g|
    && (zcur == -1 ==> k == 0 || g[k - 1] != 0)
    && (zcur != -1 ==> zlen >= 1 && zlen <= k && zcur == 2 * (k - zlen) && ZeroRun(g, k - zlen, zlen)
                       && (zlen == k || g[k - zlen - 1] != 0))
    && Best(g, if zcur == -1 then k else k - zlen, zst, zmax)
  }

  lemma ScanZero(g: seq<nat>, k: nat, zcur: int, zlen: nat, zst: int, zmax: nat)
    requires Scanned(g, k, zcur, zlen, zst, zmax) && k < |g| && g[k] == 0
    ensures zcur != -1 ==> Scanned(g, k + 1, zcur, zlen + 1, zst, zmax)
    ensures zcur == -1 ==> Scanned(g, k + 1, 2 * k, 1, zst, zmax)
  {
  }

  /** The run up to group `k` has ended. */
  lemma RunEnds(g: seq<nat>, k: nat, zcur: int, zlen: nat, zst: int, zmax: nat)
    requires Scanned(g, k, zcur, zlen, zst, zmax) && zcur != -1
    ensures if zlen > zmax then Best(g, k, zcur, zlen) else Best(g, k, zst, zmax)
  {
    var start := k - zlen;
    forall a, n | 0 <= a && 0 < n && a + n <= k && ZeroRun(g, a, n)
      ensures a + n <= start || (start <= a && n <= zlen && (n == zlen ==> a == start))
    {
    }
  }

  lemma ScanOther(g: seq<nat>, k: nat, zlen: nat, zst: int, zmax: nat)
    requires Best(g, k, zst, zmax) && k < |g| && g[k] != 0
    ensures Scanned(g, k + 1, -1, zlen, zst, zmax)
  {
    forall a, n | 0 <= a && 0 < n && a + n <= k + 1 && ZeroRun(g, a, n) ensures a + n <= k {
      ZeroInRun(g, a, n, a + n - 1);
    }
  }

  lemma BestOfAll(g: seq<nat>, zst: int, zmax: nat)
    requires Best(g, |g|, zst, zmax)
    ensures LongestRun(g, if zst == -1 then NoRun else Run(zst / 2, zmax))
  {
    if zst == -1 {
      forall k | 0 <= k < |g| ensures g[k] != 0 {
        SingleZero(g, k);
      }
    }
  }

  /** The first loop over the octets: where the longest run of zero groups starts (an octet, or -1), and how many
      groups it has. */
  method FindRun(addr: array<byte>) returns (zst: int, zmax: nat)
    requires addr.Length == 16
    ensures zst == -1 || (0 <= zst && zst % 2 == 0 && zmax > 0 && zst / 2 + zmax <= 8)
    ensures LongestRun(Groups(addr[..]), if zst == -1 then NoRun else Run(zst / 2, zmax))
  {
    hide Best, LongestRun, Groups, ZeroRun, Group;
    ghost var g := Groups(addr[..]);
    ghost var k: nat := 0;
    var zcur, zlen: nat := -1, 0;
    zst, zmax := -1, 0;
    var i := 0;
    ScanStart(g);
    while i <= 15
      invariant i == 2 * k && k <= 8
      invariant Scanned(g, k, zcur, zlen, zst, zmax)
    {
      ZeroOctets(addr[i], addr[i + 1]);
      if addr[i] == 0 && addr[i + 1] == 0 {
        ScanZero(g, k, zcur, zlen, zst, zmax);
        if zcur != -1 {
          zlen := zlen + 1;
        } else {
          zcur, zlen := i, 1;
        }
      } else {
        if zcur != -1 {
          RunEnds(g, k, zcur, zlen, zst, zmax);
          if zlen > zmax {
            zst, zmax := zcur, zlen;
          }
          zcur := -1;
        }
        ScanOther(g, k, zlen, zst, zmax);
      }
      i, k := i + 2, k + 1;
    }
    if zcur != -1 {
      RunEnds(g, 8, zcur, zlen, zst, zmax);
      if zlen > zmax {
        zst, zmax := zcur, zlen;
      }
    }
    BestIsEven(g, zst, zmax);
    BestOfAll(g, zst, zmax);
  }

  lemma ZeroOctets(high: byte, low: byte)
    ensures Group(high, low) == 0 <==> high == 0 && low == 0
  {
  }

  lemma ScanStart(g: seq<nat>)
    ensures Scanned(g, 0, -1, 0, -1, 0)
  {
  }

  lemma BestIsEven(g: seq<nat>, zst: int, zmax: nat)
    requires Best(g, |g|, zst, zmax)
    ensures zst == -1 || (0 <= zst && zst % 2 == 0 && zmax > 0 && zst / 2 + zmax <= |g|)
  {
  }

  lemma ZeroInRun(g: seq<nat>, start: nat, len: nat, k: nat)
    requires ZeroRun(g, start, len) && start <= k < start + len
    ensures g[k] == 0
  {
  }

  lemma SingleZero(g: seq<nat>, k: nat)
    requires k < |g|
    ensures g[k] == 0 ==> ZeroRun(g, k, 1)
  {
  }

  /** `V6Text` up to group `k`, which is not inside the run. */
  function V6Front(g: seq<nat>, r: Run, k: nat): string
    requires k <= |g| && (r.Run? ==> r.start + r.len <= |g|)
  {
    if r.NoRun? || k <= r.start then Join(g[..k])
    else if k < r.start + r.len then ""
    else Join(g[..r.start]) + "::" + Join(g[r.start + r.len..k])
  }

  /** One more group: a colon before it unless it is the first, or the first after the run. */
  lemma V6FrontStep(g: seq<nat>, r: Run, k: nat)
    requires k < |g| && (r.Run? ==> r.start + r.len <= |g| && r.len > 0 && !(r.start <= k < r.start + r.len))
    ensures V6Front(g, r, k + 1)
         == V6Front(g, r, k) + (if k != 0 && !(r.Run? && k == r.start + r.len) then ":" else "") + Digits(g[k], 16)
  {
    hide Digits, Join;
    if r.NoRun? || k < r.start {
      assert g[..k + 1][..k] == g[..k];
      JoinLast(g[..k + 1]);
    } else {
      var tail := g[r.start + r.len..k + 1];
      assert tail[..|tail| - 1] == g[r.start + r.len..k];
      JoinLast(tail);
    }
  }

  lemma JoinLast(gs: seq<nat>)
    requires gs != []
    ensures Join(gs) == Join(gs[..|gs| - 1]) + (if |gs| > 1 then ":" else "") + Digits(gs[|gs| - 1], 16)
  {
    hide Digits;
  }

  lemma V6FrontEnds(g: seq<nat>, r: Run)
    requires r.Run? ==> r.start + r.len <= |g| && r.len > 0
    ensures V6Front(g, r, 0) == ""
    ensures V6Front(g, r, |g|) == V6Text(g, r)
    ensures r.Run? ==> V6Front(g, r, r.start + r.len) == V6Front(g, r, r.start) + "::"
  {
    assert g[..|g|] == g;
    if r.Run? {
      assert g[r.start + r.len..r.start + r.len] == [];
    }
  }

  method V6ToStr(addr: array<byte>) returns (s: string, ghost r: Run)
    requires addr.Length == 16
    ensures LongestRun(Groups(addr[..]), r)
    ensures s == V6Text(Groups(addr[..]), r)
  {
    hide Digits, V6Front, V6Text, Groups, ZeroRun, Group;
    var zst, zmax := FindRun(addr);
    ghost var g := Groups(addr[..]);
    r := if zst == -1 then NoRun else Run(zst / 2, zmax);
    s := "";
    var lzer := false;
    var i := 0;
    ghost var k: nat := 0;
    V6FrontEnds(g, r);
    while i <= 15
      invariant i == 2 * k && k <= 8
      invariant r.Run? ==> !(r.start < k < r.start + r.len)
      invariant lzer <==> r.Run? && k == r.start + r.len
      invariant s == V6Front(g, r, k)
    {
      if i == zst {
        s := s + "::";
        i := i + zmax * 2 - 2;
        k := k + zmax - 1;
        lzer := true;
      } else {
        V6FrontStep(g, r, k);
        if i != 0 && !lzer {
          s := s + ":";
        }
        lzer := false;
        s := s + Digits(Group(addr[i], addr[i + 1]), 16);
      }
      i, k := i + 2, k + 1;
    }
  }

  /** `cidr_to_str` without flags; null for a missing block, an unknown protocol or a mask without a prefix length. */
  method CidrToStr(block: Cidr?) returns (s: Option<string>)
    requires block != null ==> block.Valid()
    ensures s.None? <==> block == null || PrefixLength(block.Value()) == -1
    ensures s.Some? ==> IsText(block.Value(), s.value)
  {
    hide PrefixLength, Digits, V6Text, Groups;
    if block == null || block.proto == NoProto {
      if block != null {
        NoProtoHasNone(block.Value());
      }
      return None;
    }
    ghost var b := block.Value();
    var text;
    ghost var r := NoRun;
    if block.proto == IPv4 {
      text := V4ToStr(block.addr);
    } else {
      text, r := V6ToStr(block.addr);
    }
    var pflen := GetPflen(block);
    if pflen == -1 {
      return None;
    }
    s := Some(text + "/" + Digits(pflen, 10));
    if b.proto == IPv6 {
      assert LongestRun(Groups(b.addr), r) && s.value == V6Text(Groups(b.addr), r) + "/" + Digits(PrefixLength(b), 10);
    }
  }

  lemma NoProtoHasNone(b: Block)
    requires IsBlock(b) && b.proto == NoProto
    ensures PrefixLength(b) == -1
  {
  }

  method V4ToStr(addr: array<byte>) returns (s: string)
    requires addr.Length == 16
    ensures s == V4Text(addr[..])
  {
    hide Digits;
    V4Fronts(addr[..]);
    s := "";
    var i := 12;
    while i <= 15
      invariant 12 <= i <= 16
      invariant s == V4Front(addr[..], i)
    {
      s := s + Digits(addr[i], 10);
      if i < 15 {
        s := s + ".";
      }
      i := i + 1;
    }
  }

  /** The octets before `i`, each but the last one with a dot after it. */
  function V4Front(addr: seq<byte>, i: nat): string
    requires |addr| == 16 && 12 <= i <= 16
  {
    if i == 12 then ""
    else V4Front(addr, i - 1) + Digits(addr[i - 1], 10) + if i < 16 then "." else ""
  }

  lemma V4Fronts(addr: seq<byte>)
    requires |addr| == 16
    ensures V4Front(addr, 16) == V4Text(addr)
  {
    hide Digits;
    var a, b, c := Digits(addr[12], 10), Digits(addr[13], 10), Digits(addr[14], 10);
    assert V4Front(addr, 13) == a + ".";
    assert V4Front(addr, 14) == a + "." + b + ".";
    assert V4Front(addr, 15) == a + "." + b + "." + c + ".";
  }
}
