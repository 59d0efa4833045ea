/** Loading DNS messages, and loading them again after their lifetimes have been rewritten. */
module DnsPacket {
  import opened Bits
  import opened DnsMessage

  const TYPE_A := 1
  const TYPE_NS := 2
  const TYPE_SOA := 6
  const TYPE_TXT := 16
  const TYPE_AAAA := 28
  const TYPE_OPT := 41

  datatype Section = Answer | Authority | Additional

  /** A resource record without its name; `ttlAt` is the offset kept for rewriting the lifetime, -1 for none. */
  datatype Record = Record(section: Section, rtype: nat, rclass: nat, ttl: nat, data: seq<byte>, ttlAt: int)

  // ----- one record -----

  /** The first zero byte from `i` on, or the end. */
  function ZeroFrom(p: seq<byte>, i: nat): (z: nat)
    requires i <= |p|
    ensures i <= z <= |p| && (z < |p| ==> p[z] == 0) && forall k :: i <= k < z ==> p[k] != 0
    decreases |p| - i
  {
    if i == |p| || p[i] == 0 then i else ZeroFrom(p, i + 1)
  }

  /** `skip_qname`: how many bytes a name takes. */
  function SkipQname(p: seq<byte>, i: nat): (n: nat)
    requires i < |p|
    ensures n >= 1
  {
    if p[i] == 0 then 1 else if p[i] < 0xC0 then ZeroFrom(p, i) - i + 1 else 2
  }

  /** A record and where the next one begins; a record that is not kept; the end of what is read; or a failure. */
  datatype OneRead = One(record: Record, next: nat) | Passed(next: nat) | Stop | Fail

  /** The data of a record, if it lies in the message. */
  function DataAt(p: seq<byte>, i: nat, len: nat): seq<byte>
    requires i <= |p|
  {
    if i + len <= |p| then p[i..i + len] else []
  }

  /** An answer: its name is taken to be two bytes long, and the length is read as four bytes. */
  function ReadAnswer(p: seq<byte>, i: nat): OneRead {
    if i + 14 > |p| then Fail
    else
      var len := U16(p, i + 10);
      One(Record(Answer, U16(p, i + 2), U16(p, i + 4), U32(p, i + 6), DataAt(p, i + 12, len), i + 6), i + 12 + len)
  }

  function ReadAuthority(p: seq<byte>, i: nat): OneRead
    requires i < |p|
  {
    var j := i + SkipQname(p, i) + 2;
    if j > |p| then Fail
    else
      var rtype := U16(p, j - 2);
      if !(rtype == TYPE_SOA || rtype == TYPE_NS) || j + 8 > |p| then Fail
      else
        var len := U16(p, j + 6);
        One(Record(Authority, rtype, U16(p, j), U32(p, j + 2), DataAt(p, j + 8, len), -1), j + 8 + len)
  }

  function ReadAdditional(p: seq<byte>, i: nat): OneRead
    requires i < |p|
  {
    var j := i + SkipQname(p, i) + 2;
    if j > |p| then Fail
    else
      var rtype := U16(p, j - 2);
      if rtype == TYPE_OPT then
        if j + 8 > |p| then Fail
        else
          var len := U16(p, j + 6);
          if j + 8 + len > |p| then Stop
          else if len > 0 && j + 14 > |p| then Fail
          else Passed(j + 8 + len)
      else if rtype == TYPE_A || rtype == TYPE_AAAA || rtype == TYPE_TXT then
        if j + 8 > |p| then Fail
        else
          var len := U16(p, j + 6);
          One(Record(Additional, rtype, U16(p, j), U32(p, j + 2), DataAt(p, j + 8, len), j + 2),
              if j + 8 + len <= |p| then j + 8 + len else j + 8)
      else Stop
  }

  function ReadRecord(p: seq<byte>, i: nat, s: Section): OneRead
    requires i < |p|
  {
    match s
    case Answer => ReadAnswer(p, i)
    case Authority => ReadAuthority(p, i)
    case Additional => ReadAdditional(p, i)
  }

  // ----- all records -----

  datatype RecordsRead = Records(list: seq<Record>, mem: nat) | Failed

  function Kept(r: Record, rest: RecordsRead): RecordsRead {
    if rest.Records? then Records([r] + rest.list, rest.mem) else rest
  }

  /** The records from `i` on; answers and authorities must all be there, additional records need not. */
  function ReadRecords(p: seq<byte>, i: nat, ans: nat, auth: nat, add: nat): RecordsRead
    decreases ans + auth + add
  {
    if ans + auth + add == 0 then Records([], i)
    else
      var s := if ans > 0 then Answer else if auth > 0 then Authority else Additional;
      var ans', auth', add' := Left(s, Answer, ans), Left(s, Authority, auth), Left(s, Additional, add);
      if i >= |p| then if s == Additional then Records([], i) else Failed
      else
        match ReadRecord(p, i, s)
        case One(record, next) => Kept(record, ReadRecords(p, next, ans', auth', add'))
        case Passed(next) => ReadRecords(p, next, ans', auth', add')
        case Stop => Records([], |p|)
        case Fail => Failed
  }

  /** How many are left in a section. */
  function Left(s: Section, t: Section, n: nat): nat {
    if s == t && n > 0 then n - 1 else n
  }

  function Offsets(list: seq<Record>): seq<nat> {
    if list == [] then []
    else (if list[0].ttlAt >= 0 then [list[0].ttlAt] else []) + Offsets(list[1..])
  }

  // ----- the offsets of the lifetimes -----

  lemma RecordLies(p: seq<byte>, i: nat, s: Section)
    requires i < |p|
    ensures var r := ReadRecord(p, i, s);
            && (r.Passed? ==> r.next >= i)
            && (r.One? ==> r.next >= i && (r.record.ttlAt != -1 ==>
                  i + 5 <= r.record.ttlAt && r.record.ttlAt + 4 <= |p| && r.record.ttlAt + 4 <= r.next && U32(p, r.record.ttlAt) == r.record.ttl))
            && (r.One? ==> r.record.ttlAt >= -1)
  {
  }

  /** The offsets lie from `from` on and inside the message, each at least four before the next. */
  ghost predicate InOrder(os: seq<nat>, from: nat, size: nat) {
    && (forall k :: 0 <= k < |os| ==> from <= os[k] && os[k] + 4 <= size)
    && (forall k, m :: 0 <= k < m < |os| ==> os[k] + 4 <= os[m])
  }

  lemma InOrderFrom(os: seq<nat>, from: nat, lower: nat, size: nat)
    requires InOrder(os, from, size) && lower <= from
    ensures InOrder(os, lower, size)
  {
  }

  lemma {:induction false} OffsetsInOrder(p: seq<byte>, i: nat, ans: nat, auth: nat, add: nat)
    requires ReadRecords(p, i, ans, auth, add).Records?
    ensures InOrder(Offsets(ReadRecords(p, i, ans, auth, add).list), i + 5, |p|)
    decreases ans + auth + add
  {
    hide ReadRecord, U32, Offsets;
    NoOffsets();
    if ans + auth + add > 0 && i < |p| {
      var s := if ans > 0 then Answer else if auth > 0 then Authority else Additional;
      var ans', auth', add' := Left(s, Answer, ans), Left(s, Authority, auth), Left(s, Additional, add);
      RecordLies(p, i, s);
      match ReadRecord(p, i, s)
      case One(record, next) =>
        OffsetsInOrder(p, next, ans', auth', add');
        OffsetsCons(record, ReadRecords(p, next, ans', auth', add').list);
      case Passed(next) => OffsetsInOrder(p, next, ans', auth', add');
      case _ =>
    }
  }

  lemma NoOffsets()
    ensures Offsets([]) == []
  {
  }

  lemma OffsetsCons(r: Record, rest: seq<Record>)
    ensures Offsets([r] + rest) == (if r.ttlAt >= 0 then [r.ttlAt] else []) + Offsets(rest)
  {
    assert ([r] + rest)[1..] == rest;
  }

  // ----- reading a message whose lifetimes have changed -----

  /** From `i` on, the messages differ only in four-byte fields at the offsets. */
  ghost predicate AgreeFrom(p: seq<byte>, q: seq<byte>, i: nat, os: seq<nat>) {
    |p| == |q| && forall k :: i <= k < |p| && (forall m :: 0 <= m < |os| ==> !(os[m] <= k < os[m] + 4)) ==> p[k] == q[k]
  }

  /** The same record but for its lifetime. */
  ghost predicate SameButTtl(a: Record, b: Record, q: seq<byte>) {
    b == a.(ttl := b.ttl) && if a.ttlAt >= 0 then a.ttlAt + 4 <= |q| && b.ttl == U32(q, a.ttlAt) else b.ttl == a.ttl
  }

  ghost predicate SameRecords(a: seq<Record>, b: seq<Record>, q: seq<byte>) {
    |a| == |b| && forall k :: 0 <= k < |a| ==> SameButTtl(a[k], b[k], q)
  }

  lemma {:induction false} ZeroFromSame(p: seq<byte>, q: seq<byte>, i: nat, end: nat)
    requires |p| == |q| && i <= |p| && ZeroFrom(p, i) < end <= |p| && forall k :: i <= k < end ==> p[k] == q[k]
    ensures ZeroFrom(q, i) == ZeroFrom(p, i)
    decreases |p| - i
  {
    if i < |p| && p[i] != 0 {
      ZeroFromSame(p, q, i + 1, end);
    }
  }

  /** The name and the type in front of a record, read again. */
  lemma NameSame(p: seq<byte>, q: seq<byte>, i: nat)
    requires |p| == |q| && i < |p|
    requires var j := i + SkipQname(p, i) + 2; j <= |p| && forall k :: i <= k < j ==> p[k] == q[k]
    ensures SkipQname(q, i) == SkipQname(p, i)
  {
    if p[i] != 0 && p[i] < 0xC0 {
      ZeroFromSame(p, q, i, i + SkipQname(p, i) + 2);
    }
  }

  lemma DataSame(p: seq<byte>, q: seq<byte>, i: nat, len: nat)
    requires |p| == |q| && i <= |p| && (i + len <= |p| ==> forall k :: i <= k < i + len ==> p[k] == q[k])
    ensures DataAt(p, i, len) == DataAt(q, i, len)
  {
  }

  lemma RecordSame(p: seq<byte>, q: seq<byte>, i: nat, s: Section)
    requires |p| == |q| && i < |p| && ReadRecord(p, i, s).One?
    requires var (r, next) := (ReadRecord(p, i, s).record, ReadRecord(p, i, s).next);
             forall k :: i <= k < next && k < |p| && !(r.ttlAt <= k < r.ttlAt + 4 && r.ttlAt >= 0) ==> p[k] == q[k]
    ensures var (r, o) := (ReadRecord(p, i, s), ReadRecord(q, i, s));
            o.One? && o.next == r.next && SameButTtl(r.record, o.record, q)
  {
    hide SkipQname, ZeroFrom, DataAt;
    match s
    case Answer =>
      DataSame(p, q, i + 12, U16(p, i + 10));
    case _ =>
      var j := i + SkipQname(p, i) + 2;
      NameSame(p, q, i);
      assert U16(p, j - 2) == U16(q, j - 2);
      var len := U16(p, j + 6);
      assert len == U16(q, j + 6);
      DataSame(p, q, j + 8, len);
  }

  lemma OtherSame(p: seq<byte>, q: seq<byte>, i: nat, s: Section)
    requires |p| == |q| && i < |p| && (ReadRecord(p, i, s).Passed? || ReadRecord(p, i, s).Stop?)
    requires forall k :: i <= k < |p| && (ReadRecord(p, i, s).Passed? ==> k < ReadRecord(p, i, s).next) ==> p[k] == q[k]
    ensures ReadRecord(q, i, s) == ReadRecord(p, i, s)
  {
    hide SkipQname, ZeroFrom;
    NameSame(p, q, i);
  }

  /** A message reads the same, but for the lifetimes. */
  lemma {:induction false} RecordsSame(p: seq<byte>, q: seq<byte>, i: nat, ans: nat, auth: nat, add: nat)
    requires ReadRecords(p, i, ans, auth, add).Records?
    requires AgreeFrom(p, q, i, Offsets(ReadRecords(p, i, ans, auth, add).list))
    ensures var r, o := ReadRecords(p, i, ans, auth, add), ReadRecords(q, i, ans, auth, add);
            o.Records? && o.mem == r.mem && SameRecords(r.list, o.list, q)
    decreases ans + auth + add
  {
    hide ReadRecord, SameButTtl, SameRecords, AgreeFrom, Offsets, InOrder;
    AgreeAll(p, q, i, ReadRecords(p, i, ans, auth, add).list);
    SameNone(q);
    if ans + auth + add > 0 && i < |p| {
      var s := if ans > 0 then Answer else if auth > 0 then Authority else Additional;
      var ans', auth', add' := Left(s, Answer, ans), Left(s, Authority, auth), Left(s, Additional, add);
      RecordLies(p, i, s);
      match ReadRecord(p, i, s)
      case One(record, next) =>
        var rest := ReadRecords(p, next, ans', auth', add').list;
        OffsetsBehind(p, next, ans', auth', add');
        OffsetsCons(record, rest);
        AgreeBehind(p, q, i, next, record.ttlAt, Offsets(rest));
        RecordSame(p, q, i, s);
        RecordsSame(p, q, next, ans', auth', add');
        SameCons(record, ReadRecord(q, i, s).record, rest, ReadRecords(q, next, ans', auth', add').list, q);
      case Passed(next) =>
        OffsetsBehind(p, next, ans', auth', add');
        assert [] + Offsets(ReadRecords(p, next, ans', auth', add').list) == Offsets(ReadRecords(p, next, ans', auth', add').list);
        AgreeBehind(p, q, i, next, -1, Offsets(ReadRecords(p, next, ans', auth', add').list));
        OtherSame(p, q, i, s);
        RecordsSame(p, q, next, ans', auth', add');
      case Stop =>
        OtherSame(p, q, i, s);
      case Fail =>
    }
  }

  lemma SameNone(q: seq<byte>)
    ensures SameRecords([], [], q)
  {
  }

  lemma SameCons(a: Record, b: Record, r: seq<Record>, o: seq<Record>, q: seq<byte>)
    requires SameButTtl(a, b, q) && SameRecords(r, o, q)
    ensures SameRecords([a] + r, [b] + o, q)
  {
    hide SameButTtl;
  }

  lemma OffsetsBehind(p: seq<byte>, i: nat, ans: nat, auth: nat, add: nat)
    requires ReadRecords(p, i, ans, auth, add).Records?
    ensures var os := Offsets(ReadRecords(p, i, ans, auth, add).list); forall k :: 0 <= k < |os| ==> i <= os[k]
  {
    OffsetsInOrder(p, i, ans, auth, add);
  }

  lemma AgreeAll(p: seq<byte>, q: seq<byte>, i: nat, list: seq<Record>)
    requires AgreeFrom(p, q, i, Offsets(list))
    ensures |p| == |q| && (list == [] ==> forall k :: i <= k < |p| ==> p[k] == q[k])
  {
  }

  lemma AgreeBehind(p: seq<byte>, q: seq<byte>, i: nat, next: nat, at: int, os: seq<nat>)
    requires AgreeFrom(p, q, i, (if at >= 0 then [at] else []) + os) && i <= next && (at >= 0 ==> at + 4 <= next)
    requires forall k :: 0 <= k < |os| ==> next <= os[k]
    ensures |p| == |q| && AgreeFrom(p, q, next, os)
    ensures forall k :: i <= k < next && k < |p| && !(at <= k < at + 4 && at >= 0) ==> p[k] == q[k]
  {
    var all := (if at >= 0 then [at] else []) + os;
    forall k | next <= k < |p| && (forall m :: 0 <= m < |os| ==> !(os[m] <= k < os[m] + 4)) ensures p[k] == q[k] {
    }
  }

  // ----- a whole message -----

  datatype Packet = Packet(id: nat, flags: nat, questions: seq<Question>, records: seq<Record>)

  datatype Loading = Loaded(packet: Packet, mem: nat) | NotLoaded

  /** The question section; `mem` is where it ends. */
  function QuestionSection(p: seq<byte>): QuestionsRead
    requires |p| >= HEADER
  {
    ReadQuestions(p, HEADER, HEADER, U16(p, 4), [], [])
  }

  /** `DNS_Packet::load` */
  function Load(p: seq<byte>): Loading {
    if |p| <= HEADER then NotLoaded
    else
      var qs := QuestionSection(p);
      if qs.BadQuestion? || qs.togo > 0 then NotLoaded
      else
        var rs := ReadRecords(p, qs.mem, U16(p, 6), U16(p, 8), U16(p, 10));
        if rs.Failed? then NotLoaded else Loaded(Packet(U16(p, 0), U16(p, 2), qs.list, rs.list), rs.mem)
  }

  /** A request of this program is loaded with its name, its type and class 1, and consumed to its end, exactly when
      every label of the name has from 1 to 255 bytes. */
  lemma RequestLoads(id: nat, h: Name, rtype: nat)
    requires id < 0x1_0000 && rtype < 0x1_0000
    ensures var p := Request(id, h, rtype);
            FitLabels(h) <==> Load(p) == Loaded(Packet(id, 0x0100, [Question(h, rtype, 1)], []), |p|)
  {
    hide Labels, AllLabelBytes, ReadQuestions;
    var p := Request(id, h, rtype);
    RequestReadBack(id, h, rtype);
    assert p[..HEADER] == RequestHeader(id);
    assert forall k :: 0 <= k < HEADER ==> p[k] == RequestHeader(id)[k];
    assert U16(Bytes16(id), 0) == id;
  }

  lemma {:induction false} QuestionsLie(p: seq<byte>, cur: nat, mem: nat, togo: nat, name: Name, list: seq<Question>)
    requires cur <= mem
    ensures var r := ReadQuestions(p, cur, mem, togo, name, list); r.Questions? ==> r.mem >= mem && |r.list| == |list| + togo - r.togo
    decreases |p| - cur, togo
  {
    if cur < |p| && togo > 0 && cur + p[cur] < |p| {
      if p[cur] == 0 {
        if cur + 5 <= |p| {
          QuestionsLie(p, cur, mem + 5, togo - 1, name, list + [Question(name, U16(p, cur + 1), U16(p, cur + 3))]);
        }
      } else {
        QuestionsLie(p, cur + p[cur] + 1, mem + p[cur] + 1, togo, Joined(name, p[cur + 1..cur + 1 + p[cur]]), list);
      }
    }
  }

  lemma {:induction false} QuestionsSame(p: seq<byte>, q: seq<byte>, cur: nat, mem: nat, togo: nat, name: Name, list: seq<Question>)
    requires |p| == |q| && cur <= mem
    requires ReadQuestions(p, cur, mem, togo, name, list).Questions? && ReadQuestions(p, cur, mem, togo, name, list).togo == 0
    requires forall k :: cur <= k < ReadQuestions(p, cur, mem, togo, name, list).mem && k < |p| ==> p[k] == q[k]
    ensures ReadQuestions(q, cur, mem, togo, name, list) == ReadQuestions(p, cur, mem, togo, name, list)
    decreases |p| - cur, togo
  {
    hide U16, Joined;
    if cur < |p| && togo > 0 {
      QuestionsLie(p, cur, mem, togo, name, list);
      if p[cur] == 0 {
        var more := list + [Question(name, U16(p, cur + 1), U16(p, cur + 3))];
        QuestionsLie(p, cur, mem + 5, togo - 1, name, more);
        TwoBytesSame(p, q, cur + 1);
        TwoBytesSame(p, q, cur + 3);
        QuestionsSame(p, q, cur, mem + 5, togo - 1, name, more);
      } else {
        var next, l := cur + p[cur] + 1, p[cur + 1..cur + 1 + p[cur]];
        QuestionsLie(p, next, mem + p[cur] + 1, togo, Joined(name, l), list);
        LabelEnds(p, next, mem + p[cur] + 1, togo, Joined(name, l), list);
        assert p[cur] == q[cur];
        assert l == q[cur + 1..next];
        QuestionsSame(p, q, next, mem + p[cur] + 1, togo, Joined(name, l), list);
      }
    }
  }

  lemma TwoBytesSame(p: seq<byte>, q: seq<byte>, i: nat)
    requires i + 2 <= |p| == |q| && p[i] == q[i] && p[i + 1] == q[i + 1]
    ensures U16(p, i) == U16(q, i)
  {
  }

  /** A label that is followed by a whole question lies in front of the end of it. */
  lemma LabelEnds(p: seq<byte>, cur: nat, mem: nat, togo: nat, name: Name, list: seq<Question>)
    requires cur <= mem
    ensures var r := ReadQuestions(p, cur, mem, togo, name, list); r.Questions? ==> r.mem >= cur
  {
    QuestionsLie(p, cur, mem, togo, name, list);
  }

  /** What `load` keeps of a message for rewriting it. */
  function LifetimeOffsets(p: seq<byte>): seq<nat> {
    if Load(p).Loaded? then Offsets(Load(p).packet.records) else []
  }

  /** Offsets are behind the header, inside the message, and at least four apart. */
  lemma LifetimesInOrder(p: seq<byte>)
    ensures InOrder(LifetimeOffsets(p), HEADER + 5, |p|)
  {
    hide InOrder, ReadRecords, ReadQuestions;
    if Load(p).Loaded? {
      var qs := QuestionSection(p);
      QuestionsLie(p, HEADER, HEADER, U16(p, 4), [], []);
      OffsetsInOrder(p, qs.mem, U16(p, 6), U16(p, 8), U16(p, 10));
      InOrderFrom(LifetimeOffsets(p), qs.mem + 5, HEADER + 5, |p|);
    } else {
      assert LifetimeOffsets(p) == [];
      NoneInOrder(|p|);
    }
  }

  lemma NoneInOrder(size: nat)
    ensures InOrder([], HEADER + 5, size)
  {
  }

  lemma AgreeInFront(p: seq<byte>, q: seq<byte>, os: seq<nat>, from: nat)
    requires AgreeFrom(p, q, 2, os) && InOrder(os, from, |p|)
    ensures |p| == |q| && forall k :: 2 <= k < from && k < |p| ==> p[k] == q[k]
  {
  }

  lemma AgreeLater(p: seq<byte>, q: seq<byte>, os: seq<nat>, i: nat, j: nat)
    requires AgreeFrom(p, q, i, os) && i <= j
    ensures AgreeFrom(p, q, j, os)
  {
  }

  /** A message whose id and lifetimes have been overwritten loads with the new ones, and with everything else as it was. */
  lemma Reload(p: seq<byte>, q: seq<byte>)
    requires Load(p).Loaded? && AgreeFrom(p, q, 2, LifetimeOffsets(p))
    ensures Load(q).Loaded? && Load(q).mem == Load(p).mem
    ensures var a, b := Load(p).packet, Load(q).packet;
            b.id == U16(q, 0) && b.flags == a.flags && b.questions == a.questions && SameRecords(a.records, b.records, q)
  {
    hide SameRecords, ReadRecords, ReadQuestions, InOrder, AgreeFrom;
    var qs := QuestionSection(p);
    QuestionsLie(p, HEADER, HEADER, U16(p, 4), [], []);
    OffsetsInOrder(p, qs.mem, U16(p, 6), U16(p, 8), U16(p, 10));
    AgreeInFront(p, q, LifetimeOffsets(p), qs.mem + 5);
    AgreeLater(p, q, LifetimeOffsets(p), 2, qs.mem);
    QuestionsSame(p, q, HEADER, HEADER, U16(p, 4), [], []);
    RecordsSame(p, q, qs.mem, U16(p, 6), U16(p, 8), U16(p, 10));
  }
}
