/** The inspector that answers requests from stored responses. */
module DnsCache {
  import opened Bits
  import opened DnsMessage
  import opened DnsPacket
  import opened DnsLoader
  import opened Wrappers

  // ----- rewriting a response -----

  const WORD := 0x1_0000_0000

  function Bytes32(n: nat): (r: seq<byte>)
    requires n < WORD
    ensures |r| == 4 && U32(r, 0) == n
  {
    Bytes16(n / 0x1_0000) + Bytes16(n % 0x1_0000)
  }

  /** `p` with four bytes overwritten. */
  function Overwritten(p: seq<byte>, i: nat, n: nat): (r: seq<byte>)
    requires i + 4 <= |p| && n < WORD
    ensures |r| == |p| && U32(r, i) == n
    ensures forall k :: 0 <= k < |p| && !(i <= k < i + 4) ==> r[k] == p[k]
  {
    var r := p[..i] + Bytes32(n) + p[i + 4..];
    assert r[i] == Bytes32(n)[0] && r[i + 1] == Bytes32(n)[1] && r[i + 2] == Bytes32(n)[2] && r[i + 3] == Bytes32(n)[3];
    r
  }

  /** A lifetime less an age, in 32 bits. */
  function Less(ttl: nat, age: nat): nat {
    (ttl - age) % WORD
  }

  /** The first `n` lifetimes made shorter. */
  function Aged(p: seq<byte>, os: seq<nat>, age: nat, n: nat): (r: seq<byte>)
    requires n <= |os| && forall k :: 0 <= k < |os| ==> os[k] + 4 <= |p|
    ensures |r| == |p|
  {
    if n == 0 then p
    else
      var r := Aged(p, os, age, n - 1);
      Overwritten(r, os[n - 1], Less(U32(r, os[n - 1]), age))
  }

  function WithId(p: seq<byte>, id: nat): (r: seq<byte>)
    requires |p| >= 2 && id < 0x1_0000
    ensures |r| == |p| && U16(r, 0) == id && forall k :: 2 <= k < |p| ==> r[k] == p[k]
  {
    Bytes16(id) + p[2..]
  }

  /** What is sent for a stored response. */
  function Rewritten(p: seq<byte>, id: nat, os: seq<nat>, age: nat): (r: seq<byte>)
    requires |p| >= 2 && id < 0x1_0000 && forall k :: 0 <= k < |os| ==> os[k] + 4 <= |p|
    ensures |r| == |p|
  {
    Aged(WithId(p, id), os, age, |os|)
  }

  /** The position lies in none of the first `n` fields. */
  ghost predicate Outside(os: seq<nat>, n: nat, k: nat)
    requires n <= |os|
  {
    forall m :: 0 <= m < n ==> !(os[m] <= k < os[m] + 4)
  }

  lemma WordSame(p: seq<byte>, q: seq<byte>, i: nat)
    requires i + 4 <= |p| == |q| && forall k :: i <= k < i + 4 ==> p[k] == q[k]
    ensures U32(p, i) == U32(q, i)
  {
  }

  lemma FieldsApart(os: seq<nat>, n: nat, m: nat, from: nat, size: nat)
    requires InOrder(os, from, size) && n <= |os| && m < |os| && !(m < n)
    ensures forall k :: os[m] <= k < os[m] + 4 ==> Outside(os, n, k)
  {
  }

  /** Outside the first `n` fields nothing has changed. */
  lemma {:induction false} AgedOutside(p: seq<byte>, os: seq<nat>, age: nat, n: nat)
    requires n <= |os| && InOrder(os, HEADER, |p|)
    ensures forall k :: 0 <= k < |p| && Outside(os, n, k) ==> Aged(p, os, age, n)[k] == p[k]
  {
    hide Less, U32, InOrder;
    InBounds(os, HEADER, |p|);
    if n > 0 {
      AgedOutside(p, os, age, n - 1);
      forall k | 0 <= k < |p| && Outside(os, n, k) ensures Aged(p, os, age, n)[k] == p[k] {
        assert Outside(os, n - 1, k);
      }
    }
  }

  lemma InBounds(os: seq<nat>, from: nat, size: nat)
    requires InOrder(os, from, size)
    ensures forall k :: 0 <= k < |os| ==> os[k] + 4 <= size
  {
  }

  /** The first `n` fields have been made shorter. */
  lemma {:induction false} AgedInside(p: seq<byte>, os: seq<nat>, age: nat, n: nat, m: nat)
    requires m < n <= |os| && InOrder(os, HEADER, |p|)
    ensures U32(Aged(p, os, age, n), os[m]) == Less(U32(p, os[m]), age)
    decreases n
  {
    hide Less, U32, Outside, InOrder;
    InBounds(os, HEADER, |p|);
    var before, r := Aged(p, os, age, n - 1), Aged(p, os, age, n);
    if m == n - 1 {
      AgedOutside(p, os, age, n - 1);
      FieldsApart(os, n - 1, m, HEADER, |p|);
      WordSame(p, before, os[m]);
    } else {
      AgedInside(p, os, age, n - 1, m);
      Behind(os, m, n - 1, HEADER, |p|);
      WordSame(before, r, os[m]);
    }
  }

  lemma Behind(os: seq<nat>, m: nat, n: nat, from: nat, size: nat)
    requires InOrder(os, from, size) && m < n < |os|
    ensures os[m] + 4 <= os[n]
  {
  }

  /** No stored lifetime has run out: the check before a stored response is used. */
  predicate Alive(p: seq<byte>, os: seq<nat>, loadedAt: int, now: int)
    requires forall k :: 0 <= k < |os| ==> os[k] + 4 <= |p|
  {
    forall k :: 0 <= k < |os| ==> now <= U32(p, os[k]) + loadedAt
  }

  /** Every record of `b` with a kept offset has the lifetime of `a` less the age; the records agree otherwise. */
  ghost predicate AgedRecords(a: seq<Record>, b: seq<Record>, age: nat) {
    |a| == |b| && forall k :: 0 <= k < |a| ==>
      b[k] == a[k].(ttl := b[k].ttl) && b[k].ttl == if a[k].ttlAt >= 0 then a[k].ttl - age else a[k].ttl
  }

  /** A loaded message with another id and other lifetimes at the kept offsets: it loads with them and with everything
      else as it was, and the offsets are the same. */
  lemma RewrittenLoads(p: seq<byte>, id: nat, age: nat)
    requires Load(p).Loaded? && id < 0x1_0000
    requires forall k :: 0 <= k < |LifetimeOffsets(p)| ==> LifetimeOffsets(p)[k] + 4 <= |p|
    ensures var os, r := LifetimeOffsets(p), Rewritten(p, id, LifetimeOffsets(p), age);
            && AgreeFrom(p, r, 2, os) && Load(r).Loaded? && Load(r).mem == Load(p).mem && LifetimeOffsets(r) == os
            && (forall m :: 0 <= m < |os| ==> U32(r, os[m]) == Less(U32(p, os[m]), age))
            && var a, b := Load(p).packet, Load(r).packet;
               b.id == id && b.flags == a.flags && b.questions == a.questions && SameRecords(a.records, b.records, r)
  {
    hide Load, Aged, LifetimeOffsets, InOrder, Less, U32, U16, AgreeFrom, Outside, SameRecords;
    var os := LifetimeOffsets(p);
    LoadedIsLong(p);
    var q, r := WithId(p, id), Rewritten(p, id, os, age);
    LifetimesInOrder(p);
    InOrderFrom(os, HEADER + 5, HEADER, |p|);
    AgedOutside(q, os, age, |os|);
    OnlyFieldsDiffer(p, q, r, os);
    Reload(p, r);
    SameLifetimes(p, r);
    forall m | 0 <= m < |os| ensures U32(r, os[m]) == Less(U32(p, os[m]), age) {
      AgedInside(q, os, age, |os|, m);
      Behind12(os, m, |p|);
      WordSame(p, q, os[m]);
    }
  }

  lemma SameLifetimes(p: seq<byte>, q: seq<byte>)
    requires Load(p).Loaded? && Load(q).Loaded? && SameRecords(Load(p).packet.records, Load(q).packet.records, q)
    ensures LifetimeOffsets(q) == LifetimeOffsets(p)
  {
    hide Load;
    SameOffsets(Load(p).packet.records, Load(q).packet.records, q);
  }

  lemma {:induction false} SameOffsets(a: seq<Record>, b: seq<Record>, q: seq<byte>)
    requires SameRecords(a, b, q)
    ensures Offsets(b) == Offsets(a)
    decreases |a|
  {
    hide U32;
    if a != [] {
      assert SameButTtl(a[0], b[0], q);
      forall k | 0 <= k < |a| - 1 ensures SameButTtl(a[1..][k], b[1..][k], q) {
        assert SameButTtl(a[k + 1], b[k + 1], q);
      }
      SameOffsets(a[1..], b[1..], q);
    }
  }

  /** What is sent for a stored response that is alive: only the id and the kept lifetimes differ from it, no lifetime
      wraps around, and it loads with the id of the request and all else as it was stored. */
  lemma CachedReplay(p: seq<byte>, id: nat, loadedAt: int, now: int)
    requires Load(p).Loaded? && id < 0x1_0000 && loadedAt <= now
    requires forall k :: 0 <= k < |LifetimeOffsets(p)| ==> LifetimeOffsets(p)[k] + 4 <= |p|
    requires Alive(p, LifetimeOffsets(p), loadedAt, now)
    ensures var r := Rewritten(p, id, LifetimeOffsets(p), now - loadedAt);
            && AgreeFrom(p, r, 2, LifetimeOffsets(p)) && Load(r).Loaded? && Load(r).mem == Load(p).mem
            && var a, b := Load(p).packet, Load(r).packet;
               && b.id == id && b.flags == a.flags && b.questions == a.questions
               && AgedRecords(a.records, b.records, now - loadedAt)
  {
    hide Load, Rewritten, LifetimeOffsets, InOrder, Less, U32, U16, AgreeFrom, SameRecords, AgedRecords;
    var os, age := LifetimeOffsets(p), now - loadedAt;
    LoadedIsLong(p);
    RewrittenLoads(p, id, age);
    var r := Rewritten(p, id, os, age);
    forall m | 0 <= m < |os| ensures U32(r, os[m]) == U32(p, os[m]) - age {
      NoWrap(U32(p, os[m]), age);
    }
    LifetimesInOrder(p);
    InOrderFrom(os, HEADER + 5, HEADER, |p|);
    RecordsAged(p, r, age);
  }

  lemma Behind12(os: seq<nat>, m: nat, size: nat)
    requires InOrder(os, HEADER, size) && m < |os|
    ensures HEADER <= os[m] && os[m] + 4 <= size
  {
  }

  lemma NoWrap(ttl: nat, age: nat)
    requires age <= ttl < WORD
    ensures Less(ttl, age) == ttl - age
  {
  }

  lemma OnlyFieldsDiffer(p: seq<byte>, q: seq<byte>, r: seq<byte>, os: seq<nat>)
    requires |p| == |q| == |r| >= 2 && InOrder(os, HEADER, |p|) && forall k :: 2 <= k < |p| ==> q[k] == p[k]
    requires forall k :: 0 <= k < |q| && Outside(os, |os|, k) ==> r[k] == q[k]
    ensures AgreeFrom(p, r, 2, os) && U16(r, 0) == U16(q, 0)
  {
    assert Outside(os, |os|, 0) && Outside(os, |os|, 1);
    forall k | 2 <= k < |p| && (forall m :: 0 <= m < |os| ==> !(os[m] <= k < os[m] + 4)) ensures p[k] == r[k] {
      assert Outside(os, |os|, k);
    }
  }

  lemma RecordsAged(p: seq<byte>, r: seq<byte>, age: nat)
    requires Load(p).Loaded? && Load(r).Loaded? && |p| == |r|
    requires SameRecords(Load(p).packet.records, Load(r).packet.records, r)
    requires InOrder(LifetimeOffsets(p), HEADER, |p|)
    requires forall m :: 0 <= m < |LifetimeOffsets(p)| ==> U32(r, LifetimeOffsets(p)[m]) == U32(p, LifetimeOffsets(p)[m]) - age
    ensures AgedRecords(Load(p).packet.records, Load(r).packet.records, age)
  {
    hide Load, Offsets;
    var a, b, os := Load(p).packet.records, Load(r).packet.records, LifetimeOffsets(p);
    forall k | 0 <= k < |a|
      ensures b[k] == a[k].(ttl := b[k].ttl) && b[k].ttl == if a[k].ttlAt >= 0 then a[k].ttl - age else a[k].ttl
    {
      assert SameButTtl(a[k], b[k], r);
      if a[k].ttlAt >= 0 {
        OffsetIsKept(a, k);
        LoadedLifetime(p, k);
        var m :| 0 <= m < |os| && os[m] == a[k].ttlAt;
      }
    }
  }

  lemma {:induction false} OffsetIsKept(list: seq<Record>, k: nat)
    requires k < |list| && list[k].ttlAt >= 0
    ensures list[k].ttlAt in Offsets(list)
    decreases |list|
  {
    if k > 0 {
      OffsetIsKept(list[1..], k - 1);
    }
  }

  /** A loaded record has the lifetime that stands at its offset. */
  lemma LoadedLifetime(p: seq<byte>, k: nat)
    requires Load(p).Loaded? && k < |Load(p).packet.records|
    ensures var r := Load(p).packet.records[k]; r.ttlAt >= 0 ==> r.ttlAt + 4 <= |p| && U32(p, r.ttlAt) == r.ttl
  {
    var qs := QuestionSection(p);
    RecordLifetime(p, qs.mem, U16(p, 6), U16(p, 8), U16(p, 10), k);
  }

  lemma {:induction false} RecordLifetime(p: seq<byte>, i: nat, ans: nat, auth: nat, add: nat, k: nat)
    requires var r := ReadRecords(p, i, ans, auth, add); r.Records? && k < |r.list|
    ensures var r := ReadRecords(p, i, ans, auth, add).list[k];
            r.ttlAt >= 0 ==> r.ttlAt + 4 <= |p| && U32(p, r.ttlAt) == r.ttl
    decreases ans + auth + add
  {
    hide ReadRecord;
    if ans + auth + add > 0 && i < |p| {
      var s := NextSection(ans, auth);
      var ans', auth', add' := Left(s, Answer, ans), Left(s, Authority, auth), Left(s, Additional, add);
      RecordLies(p, i, s);
      match ReadRecord(p, i, s)
      case One(_, next) =>
        if k > 0 {
          RecordLifetime(p, next, ans', auth', add', k - 1);
        }
      case Passed(next) => RecordLifetime(p, next, ans', auth', add', k);
      case _ =>
    }
  }

  lemma LoadedIsLong(p: seq<byte>)
    requires Load(p).Loaded?
    ensures |p| > HEADER
  {
  }

  // ----- what is stored and kept -----

  /** What responses are stored under: the type and the name of the first question. */
  datatype Key = NoQuestion | Key(typeName: string, name: seq<byte>)

  function TypeName(rtype: nat): string {
    if rtype == TYPE_A then "A" else if rtype == TYPE_NS then "NS" else if rtype == 5 then "CNAME"
    else if rtype == TYPE_SOA then "SOA" else if rtype == TYPE_TXT then "TXT" else if rtype == TYPE_AAAA then "AAAA"
    else if rtype == TYPE_OPT then "OPT" else "unknown"
  }

  /** A name as a C string: up to its first zero byte. */
  function CString(name: seq<byte>): seq<byte> {
    name[..ZeroFrom(name, 0)]
  }

  /** `question_str_0` */
  function KeyOf(questions: seq<Question>): Key {
    if questions == [] then NoQuestion else Key(TypeName(questions[0].rtype), CString(questions[0].name))
  }

  /** The names are the same up to their first zero byte. */
  ghost predicate SameName(a: seq<byte>, b: seq<byte>) {
    exists n: nat :: EndsAt(a, n) && EndsAt(b, n) && a[..n] == b[..n]
  }

  /** The first zero byte, or the end. */
  predicate EndsAt(name: seq<byte>, n: nat) {
    n <= |name| && (n < |name| ==> name[n] == 0) && forall k :: 0 <= k < n ==> name[k] != 0
  }

  /** Questions for addresses have the same key exactly if they have the same type and the same name. */
  lemma SameKey(a: seq<Question>, b: seq<Question>)
    requires a != [] && (a[0].rtype == 1 || a[0].rtype == 28)
    ensures KeyOf(a) == KeyOf(b) <==> b != [] && b[0].rtype == a[0].rtype && SameName(a[0].name, b[0].name)
  {
    if b != [] {
      var x, y := a[0].name, b[0].name;
      var n, m := ZeroFrom(x, 0), ZeroFrom(y, 0);
      assert EndsAt(x, n) && EndsAt(y, m);
      if SameName(x, y) {
        var k: nat :| EndsAt(x, k) && EndsAt(y, k) && x[..k] == y[..k];
        EndsOnce(x, n, k);
        EndsOnce(y, m, k);
      }
      TypeNames(a[0].rtype, b[0].rtype);
    }
  }

  lemma EndsOnce(name: seq<byte>, n: nat, m: nat)
    requires EndsAt(name, n) && EndsAt(name, m)
    ensures n == m
  {
  }

  lemma TypeNames(a: nat, b: nat)
    requires a == 1 || a == 28
    ensures TypeName(a) == TypeName(b) <==> a == b
  {
    assert TypeName(1) == "A" && TypeName(28) == "AAAA";
    assert "A"[0] == 'A' && |"A"| == 1;
    assert "AAAA"[1] == 'A' && |"AAAA"| == 4;
    assert |"NS"| == 2 && |"CNAME"| == 5 && |"SOA"| == 3 && |"TXT"| == 3 && |"OPT"| == 3 && |"unknown"| == 7;
  }

  predicate AsksAddress(questions: seq<Question>) {
    questions != [] && (questions[0].rtype == TYPE_A || questions[0].rtype == TYPE_AAAA)
  }

  /** `answer_str_A` is not empty: an answer holds an address. */
  predicate HasAddress(answers: seq<Record>) {
    exists k :: 0 <= k < |answers| && (answers[k].rtype == TYPE_A || answers[k].rtype == TYPE_AAAA)
  }

  /** A stored response: its bytes, where its lifetimes are, and when it was loaded. */
  datatype Stored = Stored(packet: seq<byte>, ttlIdx: seq<nat>, loadedAt: int)

  ghost predicate IsStored(e: Stored) {
    Load(e.packet).Loaded? && e.ttlIdx == LifetimeOffsets(e.packet)
  }

  lemma StoredInBounds(e: Stored)
    requires IsStored(e)
    ensures |e.packet| > HEADER && forall k :: 0 <= k < |e.ttlIdx| ==> HEADER <= e.ttlIdx[k] && e.ttlIdx[k] + 4 <= |e.packet|
  {
    LifetimesInOrder(e.packet);
  }

  datatype Verdict = OK | CACHED

  /** The copy of a stored response that is sent, and how it is rewritten before. */
  datatype Copy = Copy(packet: seq<byte>, id: nat, ttlIdx: seq<nat>, decrement: nat)

  /** The cache, and what an inspector keeps from one message to the next; caching is switched on. */
  datatype State = State(cache: map<Key, Stored>, requests: set<nat>, verdict: Verdict, copy: Option<Copy>)

  ghost predicate IsCopy(c: Copy) {
    Load(c.packet).Loaded? && c.ttlIdx == LifetimeOffsets(c.packet) && c.id < 0x1_0000
  }

  /** Stored responses and the copy are loaded messages, responses are stored under their own question, the copy bears the
      id of a request, and there is one exactly when the verdict is to answer from the cache. */
  ghost predicate IsState(s: State) {
    && (forall k :: k in s.cache ==> IsStored(s.cache[k]) && KeyOf(Load(s.cache[k].packet).packet.questions) == k)
    && (s.copy.Some? ==> IsCopy(s.copy.value) && s.copy.value.id in s.requests)
    && (s.verdict == CACHED <==> s.copy.Some?)
  }

  lemma NewIsState()
    ensures IsState(State(map[], {}, OK, None))
  {
  }

  lemma CopyInBounds(c: Copy)
    requires IsCopy(c)
    ensures |c.packet| > HEADER && forall k :: 0 <= k < |c.ttlIdx| ==> HEADER <= c.ttlIdx[k] && c.ttlIdx[k] + 4 <= |c.packet|
  {
    LifetimesInOrder(c.packet);
  }

  /** Cutting the age to 32 bits changes nothing: a living response is not that old, unless it has no lifetimes. */
  lemma DecrementIs(e: Stored, id: nat, now: int)
    requires IsStored(e) && e.loadedAt <= now && id < 0x1_0000 && |e.packet| > HEADER
    requires forall k :: 0 <= k < |e.ttlIdx| ==> e.ttlIdx[k] + 4 <= |e.packet|
    requires Alive(e.packet, e.ttlIdx, e.loadedAt, now)
    ensures Rewritten(e.packet, id, e.ttlIdx, (now - e.loadedAt) % WORD) == Rewritten(e.packet, id, e.ttlIdx, now - e.loadedAt)
  {
    hide Aged, WithId, Overwritten, LifetimeOffsets, Load;
    if e.ttlIdx == [] {
      AgedNone(WithId(e.packet, id), (now - e.loadedAt) % WORD);
      AgedNone(WithId(e.packet, id), now - e.loadedAt);
    } else {
      assert now <= U32(e.packet, e.ttlIdx[0]) + e.loadedAt;
      NoWrap(now - e.loadedAt, 0);
    }
  }

  lemma AgedNone(p: seq<byte>, age: nat)
    ensures Aged(p, [], age, 0) == p
  {
  }

  // ----- requests and responses -----

  /** The request meets a stored response that is alive. */
  ghost predicate Hit(s: State, p: seq<byte>, now: int)
    requires IsState(s) && Load(p).Loaded?
  {
    var key := KeyOf(Load(p).packet.questions);
    AsksAddress(Load(p).packet.questions) && key in s.cache && EntryAlive(s.cache[key], now)
  }

  /** The request meets a stored response that is not. */
  ghost predicate Lapsed(s: State, p: seq<byte>, now: int)
    requires IsState(s) && Load(p).Loaded?
  {
    var key := KeyOf(Load(p).packet.questions);
    AsksAddress(Load(p).packet.questions) && key in s.cache && !EntryAlive(s.cache[key], now)
  }

  ghost predicate EntryAlive(e: Stored, now: int)
    requires IsStored(e)
  {
    StoredInBounds(e);
    Alive(e.packet, e.ttlIdx, e.loadedAt, now)
  }

  function CopyOf(e: Stored, id: nat, now: int): Copy {
    Copy(e.packet, id, e.ttlIdx, (now - e.loadedAt) % WORD)
  }

  /** A request is noted; a hit makes a new copy, a lapsed response leaves the verdict and an earlier copy as they are,
      and everything else drops it. */
  ghost function AfterRequest(s: State, p: seq<byte>, now: int): (t: State)
    requires IsState(s) && Load(p).Loaded?
    ensures IsState(t) && t.cache == s.cache && t.requests == s.requests + {Load(p).packet.id}
  {
    hide *;
    KeepsState(s, p, now);
    var id := Load(p).packet.id;
    var t := s.(requests := s.requests + {id});
    if Hit(s, p, now) then t.(verdict := CACHED, copy := Some(CopyOf(s.cache[KeyOf(Load(p).packet.questions)], id, now)))
    else if Lapsed(s, p, now) then t
    else t.(verdict := OK, copy := None)
  }

  lemma KeepsState(s: State, p: seq<byte>, now: int)
    requires IsState(s) && Load(p).Loaded?
    ensures var key, id := KeyOf(Load(p).packet.questions), Load(p).packet.id;
            var t := s.(requests := s.requests + {id});
            && (Hit(s, p, now) ==> key in s.cache && IsState(t.(verdict := CACHED, copy := Some(CopyOf(s.cache[key], id, now)))))
            && IsState(t) && IsState(t.(verdict := OK, copy := None))
  {
    hide Load, LifetimeOffsets, EntryAlive, KeyOf, AsksAddress;
    IdIsShort(p);
  }

  lemma IdIsShort(p: seq<byte>)
    requires Load(p).Loaded?
    ensures Load(p).packet.id < 0x1_0000
  {
  }

  /** A response is stored under its question, with all that follows it, if its id was asked for and it holds an address. */
  ghost function AfterResponse(s: State, p: seq<byte>, now: int): (t: State)
    requires IsState(s) && Load(p).Loaded?
    ensures IsState(t) && t == s.(cache := t.cache)
  {
    var m := Load(p).packet;
    if m.id in s.requests && HasAddress(Of(m.records, Answer)) then
      s.(cache := s.cache[KeyOf(m.questions) := Stored(p, LifetimeOffsets(p), now)])
    else s
  }

  const ROUNDS := 10

  /** The loop over the requests of a flow entry. */
  ghost function AfterRequests(s: State, src: seq<byte>, now: int, red: nat, round: nat): (t: State)
    requires IsState(s) && round <= ROUNDS
    ensures IsState(t) && t.cache == s.cache && s.requests <= t.requests
    decreases ROUNDS - round
  {
    hide Load, IsState;
    if red >= |src| || round == ROUNDS || Load(src[red..]).NotLoaded? then s
    else AfterRequests(AfterRequest(s, src[red..], now), src, now, red + Load(src[red..]).mem, round + 1)
  }

  /** The loop over the responses, which takes the length of one for the place of the next; `failed` once an id was
      not asked for. */
  ghost function AfterResponses(s: State, src: seq<byte>, now: int, red: nat, round: nat): (r: (State, bool))
    requires IsState(s) && round <= ROUNDS
    ensures IsState(r.0) && r.0 == s.(cache := r.0.cache)
    decreases ROUNDS - round
  {
    hide Load, IsState;
    if red >= |src| || round == ROUNDS || Load(src[red..]).NotLoaded? then (s, false)
    else
      var (t, failed) := AfterResponses(AfterResponse(s, src[red..], now), src, now, Load(src[red..]).mem, round + 1);
      (t, failed || Load(src[red..]).packet.id !in s.requests)
  }

  datatype Side = Requester | Responder

  /** Over TCP a message is wanted behind its length, and as long as that; without the two bytes of the length the
      buffer throws. */
  datatype Framing = At(red: nat) | Waiting | TooShort

  function Framed(src: seq<byte>, isTcp: bool): Framing {
    if !isTcp then At(0) else if |src| < 2 then TooShort else if |src| < U16(src, 0) then Waiting else At(2)
  }

  /** `update`, for the data of the last flow entry. */
  ghost function Updated(s: State, isTcp: bool, side: Side, src: seq<byte>, now: int): (t: State)
    requires IsState(s)
    ensures IsState(t) && s.requests <= t.requests
  {
    hide IsState;
    match Framed(src, isTcp)
    case At(red) => if side == Requester then AfterRequests(s, src, now, red, 0) else AfterResponses(s, src, now, red, 0).0
    case _ => s
  }

  // ----- sending -----

  function Wire(packet: seq<byte>, isTcp: bool): seq<byte> {
    (if isTcp then Bytes16(|packet| % 0x1_0000) else []) + packet
  }

  /** The copy as it is sent; it stays behind as it was sent. */
  ghost function Sent(c: Copy): (r: Copy)
    requires IsCopy(c)
    ensures IsCopy(r) && r == c.(packet := r.packet)
  {
    hide Load, LifetimeOffsets, Rewritten;
    CopyInBounds(c);
    RewrittenLoads(c.packet, c.id, c.decrement);
    c.(packet := Rewritten(c.packet, c.id, c.ttlIdx, c.decrement))
  }

  datatype Exchange = Exchange(state: State, sent: Option<seq<byte>>)

  /** One `inspect` of the proxy: after the update, unless it throws, a verdict to answer from the cache is applied. */
  ghost function Exchanged(s: State, isTcp: bool, side: Side, src: seq<byte>, now: int): (r: Exchange)
    requires IsState(s)
    ensures IsState(r.state) && s.requests <= r.state.requests
    ensures r.sent.Some? <==> r.state.verdict == CACHED && !Framed(src, isTcp).TooShort?
  {
    hide Load, LifetimeOffsets;
    var t := Updated(s, isTcp, side, src, now);
    if t.verdict == CACHED && !Framed(src, isTcp).TooShort? then
      var c := Sent(t.copy.value);
      Exchange(t.(copy := Some(c)), Some(Wire(c.packet, isTcp)))
    else Exchange(t, None)
  }
}
