/** The loops of `DNS_Packet::load`, proved to compute what DnsPacket says. */
module DnsLoader {
  import opened Bits
  import opened DnsMessage
  import opened DnsPacket
  import opened Wrappers

  // ----- records by section -----

  function Of(list: seq<Record>, s: Section): seq<Record> {
    if list == [] then []
    else Of(list[..|list| - 1], s) + if list[|list| - 1].section == s then [list[|list| - 1]] else []
  }

  ghost predicate AllOf(list: seq<Record>, s: Section) {
    forall k :: 0 <= k < |list| ==> list[k].section == s
  }

  lemma {:induction false} OfConcat(a: seq<Record>, b: seq<Record>, s: Section)
    ensures Of(a + b, s) == Of(a, s) + Of(b, s)
  {
    if b == [] {
      assert a + b == a;
    } else {
      assert (a + b)[..|a + b| - 1] == a + b[..|b| - 1];
      OfConcat(a, b[..|b| - 1], s);
    }
  }

  lemma {:induction false} OfSection(list: seq<Record>, t: Section, s: Section)
    requires AllOf(list, t)
    ensures Of(list, s) == if s == t then list else []
  {
    if list != [] {
      OfSection(list[..|list| - 1], t, s);
      assert list == list[..|list| - 1] + [list[|list| - 1]];
    }
  }

  lemma {:induction false} OffsetsConcat(a: seq<Record>, b: seq<Record>)
    ensures Offsets(a + b) == Offsets(a) + Offsets(b)
  {
    if a == [] {
      assert a + b == b;
    } else {
      assert (a + b)[1..] == a[1..] + b;
      OffsetsConcat(a[1..], b);
      OffsetsFirst(a);
      OffsetsFirst(a + b);
      hide Offsets;
    }
  }

  lemma OffsetsFirst(list: seq<Record>)
    requires list != []
    ensures Offsets(list) == (if list[0].ttlAt >= 0 then [list[0].ttlAt] else []) + Offsets(list[1..])
  {
  }

  function Prefixed(done: seq<Record>, rest: RecordsRead): RecordsRead {
    if rest.Records? then Records(done + rest.list, rest.mem) else rest
  }

  lemma PrefixedNone(rest: RecordsRead)
    ensures Prefixed([], rest) == rest
  {
  }

  lemma PrefixedKept(a: seq<Record>, r: Record, rest: RecordsRead)
    ensures Prefixed(a, Kept(r, rest)) == Prefixed(a + [r], rest)
  {
    if rest.Records? {
      assert a + ([r] + rest.list) == a + [r] + rest.list;
    }
  }

  /** `DNS_Packet` */
  class Message {
    var id: nat
    var flags: nat
    var questions: seq<Question>
    var answers: seq<Record>
    var authorities: seq<Record>
    var additionals: seq<Record>
    var ttlIdx: seq<nat>
    var loadedAt: int

    constructor ()
      ensures IsNew()
    {
      id, flags, loadedAt := 0, 0, 0;
      questions, answers, authorities, additionals, ttlIdx := [], [], [], [], [];
    }

    predicate IsNew()
      reads this
    {
      questions == [] && answers == [] && authorities == [] && additionals == [] && ttlIdx == []
    }

    ghost predicate Holds(p: Packet)
      reads this
    {
      && id == p.id && flags == p.flags && questions == p.questions && answers == Of(p.records, Answer)
      && authorities == Of(p.records, Authority) && additionals == Of(p.records, Additional) && ttlIdx == Offsets(p.records)
    }

    /** `load`; none for a message that cannot be loaded. */
    method Load(src: seq<byte>, now: int) returns (consumed: Option<nat>)
      requires IsNew()
      modifies this
      ensures consumed == if DnsPacket.Load(src).Loaded? then Some(DnsPacket.Load(src).mem) else None
      ensures consumed.Some? ==> Holds(DnsPacket.Load(src).packet)
      ensures loadedAt == now
    {
      hide ReadRecords, ReadQuestions, Offsets, Of;
      loadedAt := now;
      if |src| <= HEADER {
        return None;
      }
      id, flags := U16(src, 0), U16(src, 2);
      var failure, mem, togo := LoadQuestions(src, U16(src, 4));
      if failure || togo > 0 {
        return None;
      }
      var end := LoadRecords(src, mem, U16(src, 6), U16(src, 8), U16(src, 10));
      consumed := end;
    }

    /** The question section: the loop over questions. */
    method LoadQuestions(src: seq<byte>, count: nat) returns (failure: bool, mem: nat, togo: nat)
      requires |src| > HEADER && questions == []
      modifies this`questions
      ensures ReadQuestions(src, HEADER, HEADER, count, [], []) == if failure then BadQuestion else Questions(questions, mem, togo)
    {
      hide ReadQuestions;
      failure, mem, togo := false, HEADER, count;
      NoQuestions(src, count);
      ghost var rounds := 1;
      while mem < |src| && togo > 0 && !failure
        invariant 0 <= rounds <= 1
        invariant rounds == 1 ==> mem == HEADER && togo == count && questions == [] && !failure
        invariant rounds == 0 ==> ReadQuestions(src, HEADER, HEADER, count, [], []) == if failure then BadQuestion else Questions(questions, mem, togo)
        invariant rounds == 0 ==> failure || togo == 0 || mem >= |src|
        decreases rounds
      {
        QuestionsAreOver(src, HEADER, count, [], []);
        failure, mem, togo := LoadLabels(src, mem, togo);
        rounds := 0;
      }
    }

    /** The loop over the labels of a question. */
    method LoadLabels(src: seq<byte>, start: nat, count: nat) returns (failure: bool, mem: nat, togo: nat)
      requires questions == []
      modifies this`questions
      ensures ReadQuestions(src, start, start, count, [], []) == if failure then BadQuestion else Questions(questions, mem, togo)
    {
      failure, mem, togo := false, start, count;
      var name: Name := [];
      var cur := start;
      while cur < |src| && togo > 0
        invariant ReadQuestions(src, start, start, count, [], []) == ReadQuestions(src, cur, mem, togo, name, questions)
        decreases |src| - cur, togo
      {
        var len := src[cur];
        if cur + len >= |src| {
          return true, mem, togo;
        }
        if len == 0 {
          if cur + 5 > |src| {
            return true, |src|, togo;
          }
          questions := questions + [Question(name, U16(src, cur + 1), U16(src, cur + 3))];
          mem := mem + 5;
          togo := togo - 1;
        } else {
          if name != [] {
            name := name + [DOT];
          }
          name := name + src[cur + 1..cur + 1 + len];
          cur := cur + len + 1;
          mem := mem + len + 1;
        }
      }
    }

    /** The three loops over records. */
    method LoadRecords(src: seq<byte>, start: nat, ans: nat, auth: nat, add: nat) returns (end: Option<nat>)
      requires answers == [] && authorities == [] && additionals == [] && ttlIdx == []
      modifies this`answers, this`authorities, this`additionals, this`ttlIdx
      ensures var r := ReadRecords(src, start, ans, auth, add);
              && end == (if r.Records? then Some(r.mem) else None)
              && (end.Some? ==> answers == Of(r.list, Answer) && authorities == Of(r.list, Authority)
                                && additionals == Of(r.list, Additional) && ttlIdx == Offsets(r.list))
    {
      hide ReadRecords, Offsets, Of;
      var ok, i, togo;
      ghost var done, more, last;
      ok, i, togo, done := LoadAnswers(src, start, ans, auth, add);
      if !ok {
        return None;
      }
      if togo > 0 {
        MissingRecords(src, i, togo, auth, add);
        return None;
      }
      ok, i, togo, more := LoadAuthorities(src, i, auth, add);
      if !ok {
        return None;
      }
      if togo > 0 {
        MissingRecords(src, i, 0, togo, add);
        return None;
      }
      ok, i, last := LoadAdditionals(src, i, add);
      if !ok {
        return None;
      }
      end := Some(i);
      AllSections(done, more, last);
    }

    method LoadAnswers(src: seq<byte>, start: nat, count: nat, ghost auth: nat, ghost add: nat)
      returns (ok: bool, i: nat, togo: nat, ghost done: seq<Record>)
      requires answers == [] && ttlIdx == []
      modifies this`answers, this`ttlIdx
      ensures !ok ==> ReadRecords(src, start, count, auth, add).Failed?
      ensures ok ==> ReadRecords(src, start, count, auth, add) == Prefixed(done, ReadRecords(src, i, togo, auth, add))
      ensures ok ==> (togo == 0 || i >= |src|) && answers == done && ttlIdx == Offsets(done) && AllOf(done, Answer)
    {
      hide ReadRecords, Offsets;
      ok, i, togo, done := true, start, count, [];
      PrefixedNone(ReadRecords(src, start, count, auth, add));
      NoOffsets();
      while i < |src| && togo > 0
        invariant ok && ReadRecords(src, start, count, auth, add) == Prefixed(done, ReadRecords(src, i, togo, auth, add))
        invariant answers == done && ttlIdx == Offsets(done) && AllOf(done, Answer)
        decreases togo
      {
        NextRecord(src, i, togo, auth, add);
        if i + 14 > |src| {
          return false, i, togo, done;
        }
        ttlIdx := ttlIdx + [i + 6];
        var len := U16(src, i + 10);
        var record := Record(Answer, U16(src, i + 2), U16(src, i + 4), U32(src, i + 6), [], i + 6);
        if len > 0 && i + HEADER + len <= |src| {
          record := record.(data := src[i + HEADER..i + HEADER + len]);
        }
        assert ReadRecord(src, i, Answer) == One(record, i + HEADER + len);
        PrefixedKept(done, record, ReadRecords(src, i + HEADER + len, togo - 1, auth, add));
        OffsetsSnoc(done, record);
        i := i + (HEADER + len);
        answers := answers + [record];
        done := done + [record];
        togo := togo - 1;
      }
    }

    method LoadAuthorities(src: seq<byte>, start: nat, count: nat, ghost add: nat)
      returns (ok: bool, i: nat, togo: nat, ghost done: seq<Record>)
      requires authorities == []
      modifies this`authorities
      ensures !ok ==> ReadRecords(src, start, 0, count, add).Failed?
      ensures ok ==> ReadRecords(src, start, 0, count, add) == Prefixed(done, ReadRecords(src, i, 0, togo, add))
      ensures ok ==> (togo == 0 || i >= |src|) && authorities == done && Offsets(done) == [] && AllOf(done, Authority)
    {
      hide ReadRecords, Offsets, SkipQname;
      ok, i, togo, done := true, start, count, [];
      PrefixedNone(ReadRecords(src, start, 0, count, add));
      NoOffsets();
      while i < |src| && togo > 0
        invariant ok && ReadRecords(src, start, 0, count, add) == Prefixed(done, ReadRecords(src, i, 0, togo, add))
        invariant authorities == done && Offsets(done) == [] && AllOf(done, Authority)
        decreases togo
      {
        NextRecord(src, i, 0, togo, add);
        var j := i + SkipQname(src, i) + 2;
        if j > |src| {
          return false, i, togo, done;
        }
        var preType := U16(src, j - 2);
        if preType == TYPE_SOA || preType == TYPE_NS {
          if j + 8 > |src| {
            return false, i, togo, done;
          }
          var len := U16(src, j + 6);
          var record := Record(Authority, preType, U16(src, j), U32(src, j + 2), [], -1);
          if len > 0 && j + 8 + len <= |src| {
            record := record.(data := src[j + 8..j + 8 + len]);
          }
          assert ReadRecord(src, i, Authority) == One(record, j + 8 + len);
          PrefixedKept(done, record, ReadRecords(src, j + 8 + len, 0, togo - 1, add));
          OffsetsSnoc(done, record);
          i := j + 8 + len;
          authorities := authorities + [record];
          done := done + [record];
          togo := togo - 1;
        } else {
          return false, |src|, togo, done;
        }
      }
    }

    method LoadAdditionals(src: seq<byte>, start: nat, count: nat) returns (ok: bool, i: nat, ghost done: seq<Record>)
      requires additionals == []
      modifies this`additionals, this`ttlIdx
      ensures ReadRecords(src, start, 0, 0, count) == if ok then Records(done, i) else Failed
      ensures ok ==> additionals == done && ttlIdx == old(ttlIdx) + Offsets(done) && AllOf(done, Additional)
    {
      hide ReadRecords, Offsets, SkipQname, ReadRecord, DataAt;
      var togo := count;
      ok, i, done := true, start, [];
      PrefixedNone(ReadRecords(src, start, 0, 0, count));
      NoOffsets();
      while i < |src| && togo > 0
        invariant ok && ReadRecords(src, start, 0, 0, count) == Prefixed(done, ReadRecords(src, i, 0, 0, togo))
        invariant additionals == done && ttlIdx == old(ttlIdx) + Offsets(done) && AllOf(done, Additional)
        decreases togo
      {
        NextRecord(src, i, 0, 0, togo);
        AdditionalIs(src, i);
        var j := i + SkipQname(src, i) + 2;
        if j > |src| {
          return false, i, done;
        }
        var preType := U16(src, j - 2);
        if preType == TYPE_OPT {
          if j + 8 > |src| {
            return false, i, done;
          }
          var len := U16(src, j + 6);
          if j + 8 + len > |src| {
            return true, |src|, done;
          }
          if len > 0 && j + 14 > |src| {
            return false, i, done;
          }
          i := j + 8 + len;
          togo := togo - 1;
        } else if preType == TYPE_A || preType == TYPE_AAAA || preType == TYPE_TXT {
          if j + 8 > |src| {
            return false, i, done;
          }
          ttlIdx := ttlIdx + [j + 2];
          var record;
          record, i := TakeAdditional(src, i, j, preType);
          PrefixedKept(done, record, ReadRecords(src, i, 0, 0, togo - 1));
          OffsetsSnoc(done, record);
          additionals := additionals + [record];
          done := done + [record];
          togo := togo - 1;
        } else {
          return true, |src|, done;
        }
      }
      NoMoreRecords(src, i, togo);
    }
  }

  /** An additional record with an address or a text, whose name and type end at `j`. */
  method TakeAdditional(src: seq<byte>, start: nat, j: nat, preType: nat) returns (record: Record, i: nat)
    requires start < |src| && j == start + SkipQname(src, start) + 2 && j + 8 <= |src| && preType == U16(src, j - 2)
    requires preType == TYPE_A || preType == TYPE_AAAA || preType == TYPE_TXT
    ensures ReadRecord(src, start, Additional) == One(record, i) && record.section == Additional && record.ttlAt == j + 2
  {
    hide SkipQname;
    var len := U16(src, j + 6);
    record := Record(Additional, preType, U16(src, j), U32(src, j + 2), [], j + 2);
    i := j + 8;
    if len > 0 && i + len <= |src| {
      record := record.(data := src[i..i + len]);
      i := i + len;
    }
  }

  // ----- steps of the loops -----

  /** What becomes of an additional record, but for its contents. */
  lemma AdditionalIs(p: seq<byte>, i: nat)
    requires i < |p|
    ensures var r, j := ReadRecord(p, i, Additional), i + SkipQname(p, i) + 2;
            && (j > |p| ==> r.Fail?)
            && (j <= |p| && U16(p, j - 2) == TYPE_OPT ==>
                  r == if j + 8 > |p| then Fail
                       else if j + 8 + U16(p, j + 6) > |p| then Stop
                       else if U16(p, j + 6) > 0 && j + 14 > |p| then Fail
                       else Passed(j + 8 + U16(p, j + 6)))
            && (j <= |p| && U16(p, j - 2) in {TYPE_A, TYPE_AAAA, TYPE_TXT} && j + 8 > |p| ==> r.Fail?)
            && (j <= |p| && U16(p, j - 2) !in {TYPE_A, TYPE_AAAA, TYPE_TXT, TYPE_OPT} ==> r.Stop?)
  {
    hide SkipQname;
  }

  lemma NoQuestions(src: seq<byte>, count: nat)
    requires |src| > HEADER
    ensures count == 0 ==> ReadQuestions(src, HEADER, HEADER, count, [], []) == Questions([], HEADER, 0)
  {
  }

  lemma NextRecord(p: seq<byte>, i: nat, ans: nat, auth: nat, add: nat)
    requires i < |p| && ans + auth + add > 0
    ensures ReadRecords(p, i, ans, auth, add) == After(p, ReadRecord(p, i, NextSection(ans, auth)), ans, auth, add)
  {
  }

  function NextSection(ans: nat, auth: nat): Section {
    if ans > 0 then Answer else if auth > 0 then Authority else Additional
  }

  /** What follows the record that has been read. */
  function After(p: seq<byte>, r: OneRead, ans: nat, auth: nat, add: nat): RecordsRead
    requires ans + auth + add > 0
  {
    var s := NextSection(ans, auth);
    match r
    case One(record, next) => Kept(record, ReadRecords(p, next, Left(s, Answer, ans), Left(s, Authority, auth), Left(s, Additional, add)))
    case Passed(next) => ReadRecords(p, next, Left(s, Answer, ans), Left(s, Authority, auth), Left(s, Additional, add))
    case Stop => Records([], |p|)
    case Fail => Failed
  }

  lemma MissingRecords(p: seq<byte>, i: nat, ans: nat, auth: nat, add: nat)
    requires i >= |p| && ans + auth > 0
    ensures ReadRecords(p, i, ans, auth, add) == Failed
  {
  }

  lemma NoMoreRecords(p: seq<byte>, i: nat, add: nat)
    requires i >= |p| || add == 0
    ensures ReadRecords(p, i, 0, 0, add) == Records([], i)
  {
  }

  lemma OffsetsSnoc(done: seq<Record>, r: Record)
    ensures Offsets(done + [r]) == Offsets(done) + if r.ttlAt >= 0 then [r.ttlAt] else []
  {
    OffsetsConcat(done, [r]);
    assert [r][1..] == [];
  }

  lemma AllSections(a: seq<Record>, b: seq<Record>, c: seq<Record>)
    requires AllOf(a, Answer) && AllOf(b, Authority) && AllOf(c, Additional)
    ensures var all := a + (b + c);
            Of(all, Answer) == a && Of(all, Authority) == b && Of(all, Additional) == c
            && Offsets(all) == Offsets(a) + (Offsets(b) + Offsets(c))
  {
    SectionsOf(a, b, c, Answer);
    SectionsOf(a, b, c, Authority);
    SectionsOf(a, b, c, Additional);
    OffsetsConcat(b, c);
    OffsetsConcat(a, b + c);
  }

  lemma SectionsOf(a: seq<Record>, b: seq<Record>, c: seq<Record>, s: Section)
    requires AllOf(a, Answer) && AllOf(b, Authority) && AllOf(c, Additional)
    ensures Of(a + (b + c), s) == if s == Answer then a else if s == Authority then b else c
  {
    hide Of;
    OfConcat(b, c, s);
    OfConcat(a, b + c, s);
    OfSection(a, Answer, s);
    OfSection(b, Authority, s);
    OfSection(c, Additional, s);
  }
}
