/** Answers as section 4.1 of RFC 1035 lays them out, and when the loader reads them so. */
module DnsStandard {
  import opened Bits
  import opened DnsMessage
  import opened DnsPacket
  import opened DnsCache
  import opened Wrappers

  /** Section 4.1.4: labels up to a zero byte or a pointer. */
  function NameLength(p: seq<byte>, i: nat): (k: Option<nat>)
    ensures k.Some? ==> k.value >= 1 && i + k.value <= |p|
    decreases |p| - i
  {
    if i >= |p| then None
    else if p[i] == 0 then Some(1)
    else if p[i] >= 0xC0 then if i + 2 <= |p| then Some(2) else None
    else if p[i] >= 0x40 || i + 1 + p[i] > |p| then None
    else
      match NameLength(p, i + 1 + p[i])
      case None => None
      case Some(k) => Some(1 + p[i] + k)
  }

  datatype Placed = Placed(record: Record, next: nat)

  /** Section 4.1.3: name, type, class, lifetime, length and data. */
  function StandardAnswer(p: seq<byte>, i: nat): (r: Option<Placed>)
    ensures r.Some? ==> i < r.value.next <= |p|
  {
    match NameLength(p, i)
    case None => None
    case Some(k) =>
      var j := i + k;
      if j + 10 > |p| || j + 10 + U16(p, j + 8) > |p| then None
      else
        var next := j + 10 + U16(p, j + 8);
        Some(Placed(Record(Answer, U16(p, j), U16(p, j + 2), U32(p, j + 4), p[j + 10..next], j + 4), next))
  }

  datatype Answers = Answers(list: seq<Record>, next: nat)

  function StandardAnswers(p: seq<byte>, i: nat, n: nat): (r: Option<Answers>)
    ensures r.Some? ==> |r.value.list| == n
    decreases n
  {
    if n == 0 then Some(Answers([], i))
    else
      match StandardAnswer(p, i)
      case None => None
      case Some(first) =>
        match StandardAnswers(p, first.next, n - 1)
        case None => None
        case Some(rest) => Some(Answers([first.record] + rest.list, rest.next))
  }

  /** A name of two bytes is a pointer; and the loader wants two bytes behind the length of the data. */
  predicate Pointed(p: seq<byte>, i: nat) {
    i + 14 <= |p| && p[i] >= 0xC0
  }

  predicate AllPointed(p: seq<byte>, i: nat, n: nat)
    decreases n
  {
    n == 0
    || (Pointed(p, i)
        && match StandardAnswer(p, i)
           case None => false
           case Some(first) => AllPointed(p, first.next, n - 1))
  }

  lemma OnlyPointersTakeTwo(p: seq<byte>, i: nat)
    requires i < |p|
    ensures NameLength(p, i) == Some(2) ==> p[i] >= 0xC0
    ensures p[i] >= 0xC0 && i + 2 <= |p| ==> NameLength(p, i) == Some(2)
  {
  }

  /** One answer is read as it is exactly if its name takes two bytes, and two more follow the length of its data. */
  lemma AnswerIsRight(p: seq<byte>, i: nat)
    requires StandardAnswer(p, i).Some?
    ensures var a := StandardAnswer(p, i).value;
            && (ReadAnswer(p, i) == One(a.record, a.next) <==> Pointed(p, i))
            && (ReadAnswer(p, i).One? && ReadAnswer(p, i).record == a.record ==> Pointed(p, i))
  {
    OnlyPointersTakeTwo(p, i);
  }

  function Before(list: seq<Record>, rest: RecordsRead): RecordsRead {
    if rest.Records? then Records(list + rest.list, rest.mem) else rest
  }

  /** A whole section is read as it is, whatever follows it, exactly if that holds of every answer. */
  lemma {:induction false} AnswersAreRight(p: seq<byte>, i: nat, n: nat, auth: nat, add: nat)
    requires StandardAnswers(p, i, n).Some?
    ensures var s, r := StandardAnswers(p, i, n).value, ReadRecords(p, i, n, auth, add);
            && (AllPointed(p, i, n) ==> r == Before(s.list, ReadRecords(p, s.next, 0, auth, add)))
            && (r.Records? && s.list <= r.list ==> AllPointed(p, i, n))
    decreases n
  {
    hide StandardAnswer, ReadAnswer, Pointed;
    if n > 0 {
      var first := StandardAnswer(p, i).value;
      AnswerIsRight(p, i);
      AnswersAreRight(p, first.next, n - 1, auth, add);
      FirstAnswer(p, i, n, auth, add);
      var rest := StandardAnswers(p, first.next, n - 1).value;
      if AllPointed(p, i, n) {
        BeforeCons(first.record, rest.list, ReadRecords(p, rest.next, 0, auth, add));
      } else if ReadAnswer(p, i).One? {
        var record, r := ReadAnswer(p, i).record, ReadRecords(p, ReadAnswer(p, i).next, n - 1, auth, add);
        TailBegins(first.record, rest.list, record, if r.Records? then r.list else []);
      }
    } else {
      BeforeNone(ReadRecords(p, i, 0, auth, add));
    }
  }

  lemma FirstAnswer(p: seq<byte>, i: nat, n: nat, auth: nat, add: nat)
    requires n > 0 && i < |p|
    ensures ReadRecords(p, i, n, auth, add)
         == match ReadAnswer(p, i)
            case One(record, next) => Kept(record, ReadRecords(p, next, n - 1, auth, add))
            case _ => Failed
  {
    hide ReadAnswer;
    assert ReadRecord(p, i, Answer) == ReadAnswer(p, i);
    OneOrFail(p, i);
  }

  lemma OneOrFail(p: seq<byte>, i: nat)
    ensures ReadAnswer(p, i).One? || ReadAnswer(p, i).Fail?
  {
  }

  lemma TailBegins(a: Record, list: seq<Record>, b: Record, rest: seq<Record>)
    ensures [a] + list <= [b] + rest <==> a == b && list <= rest
  {
    if [a] + list <= [b] + rest {
      assert ([a] + list)[0] == ([b] + rest)[0];
      assert ([a] + list)[1..] == list && ([b] + rest)[1..] == rest;
    }
  }

  lemma BeforeCons(r: Record, list: seq<Record>, rest: RecordsRead)
    ensures Before([r] + list, rest) == Kept(r, Before(list, rest))
  {
    if rest.Records? {
      assert [r] + list + rest.list == [r] + (list + rest.list);
    }
  }

  lemma BeforeNone(rest: RecordsRead)
    ensures Before([], rest) == rest
  {
    if rest.Records? {
      assert [] + rest.list == rest.list;
    }
  }

  // ----- a whole message -----

  /** Where `n` questions from `i` on end: each has a name, a type and a class. */
  function QuestionsEnd(p: seq<byte>, i: nat, n: nat): (end: Option<nat>)
    ensures end.Some? ==> end.value >= i
    decreases n
  {
    if n == 0 then Some(i)
    else
      match NameLength(p, i)
      case None => None
      case Some(k) => if i + k + 4 > |p| then None else QuestionsEnd(p, i + k + 4, n - 1)
  }

  /** The answers of a message, read by the standard. */
  function StandardOf(p: seq<byte>): (r: Option<Answers>)
    ensures r.Some? ==> |p| >= HEADER && |r.value.list| == U16(p, 6)
  {
    if |p| < HEADER then None
    else
      match QuestionsEnd(p, HEADER, U16(p, 4))
      case None => None
      case Some(start) => StandardAnswers(p, start, U16(p, 6))
  }

  /** The answers begin where the loader looks for them, and all their names are pointers. */
  predicate Fits(p: seq<byte>) {
    && |p| > HEADER && QuestionSection(p).Questions?
    && QuestionsEnd(p, HEADER, U16(p, 4)) == Some(QuestionSection(p).mem)
    && AllPointed(p, QuestionSection(p).mem, U16(p, 6))
  }

  predicate NoPointer(p: seq<byte>, i: nat)
    decreases |p| - i
  {
    i < |p| && p[i] < 0x40 && (p[i] == 0 || NoPointer(p, i + 1 + p[i]))
  }

  /** Behind one question without a pointer the loader looks for the answers where they begin. */
  lemma {:induction false} QuestionEndsRight(p: seq<byte>, cur: nat, name: Name, list: seq<Question>)
    requires NoPointer(p, cur) && NameLength(p, cur).Some? && cur + NameLength(p, cur).value + 4 <= |p|
    ensures var r := ReadQuestions(p, cur, cur, 1, name, list);
            r.Questions? && r.togo == 0 && QuestionsEnd(p, cur, 1) == Some(r.mem)
    decreases |p| - cur
  {
    if p[cur] != 0 {
      QuestionEndsRight(p, cur + 1 + p[cur], Joined(name, p[cur + 1..cur + 1 + p[cur]]), list);
    }
  }

  /** The answers of a loaded message are those of the standard, if it has them, exactly if the names are pointers. */
  lemma MessageIsRight(p: seq<byte>)
    requires Load(p).Loaded? && StandardOf(p).Some? && QuestionsEnd(p, HEADER, U16(p, 4)) == Some(QuestionSection(p).mem)
    ensures StandardOf(p).value.list <= Load(p).packet.records <==> Fits(p)
  {
    hide StandardAnswers, ReadRecords, AllPointed, ReadQuestions, QuestionsEnd;
    AnswersAreRight(p, QuestionSection(p).mem, U16(p, 6), U16(p, 8), U16(p, 10));
  }

  // ----- a stored message that has been rewritten -----

  lemma {:induction false} NameLengthSame(p: seq<byte>, q: seq<byte>, i: nat)
    requires |p| == |q| && NameLength(p, i).Some? && forall k :: i <= k < i + NameLength(p, i).value ==> p[k] == q[k]
    ensures NameLength(q, i) == NameLength(p, i)
    decreases |p| - i
  {
    if 0 < p[i] < 0x40 {
      NameLengthSame(p, q, i + 1 + p[i]);
    }
  }

  lemma {:induction false} QuestionsEndSame(p: seq<byte>, q: seq<byte>, i: nat, n: nat)
    requires |p| == |q| && QuestionsEnd(p, i, n).Some? && forall k :: i <= k < QuestionsEnd(p, i, n).value && k < |p| ==> p[k] == q[k]
    ensures QuestionsEnd(q, i, n) == QuestionsEnd(p, i, n)
    decreases n
  {
    hide NameLength;
    if n > 0 {
      var next := i + NameLength(p, i).value + 4;
      NameLengthSame(p, q, i);
      QuestionsEndSame(p, q, next, n - 1);
    }
  }

  lemma PointedSame(p: seq<byte>, q: seq<byte>, i: nat)
    requires |p| == |q| && Pointed(p, i) && StandardAnswer(p, i).Some?
    requires forall k :: i <= k < StandardAnswer(p, i).value.next && !(i + 6 <= k < i + 10) ==> p[k] == q[k]
    ensures Pointed(q, i) && StandardAnswer(q, i).Some? && StandardAnswer(q, i).value.next == StandardAnswer(p, i).value.next
  {
    OnlyPointersTakeTwo(p, i);
    OnlyPointersTakeTwo(q, i);
  }

  /** Where all names are pointers, a message that differs in the kept fields only has all its answers still. */
  lemma {:induction false} StandardSame(p: seq<byte>, q: seq<byte>, i: nat, n: nat, auth: nat, add: nat)
    requires StandardAnswers(p, i, n).Some? && AllPointed(p, i, n) && ReadRecords(p, i, n, auth, add).Records?
    requires AgreeFrom(p, q, i, Offsets(ReadRecords(p, i, n, auth, add).list))
    ensures StandardAnswers(q, i, n).Some? && AllPointed(q, i, n)
    decreases n
  {
    hide StandardAnswer, ReadAnswer, Pointed, AgreeFrom, Offsets;
    if n > 0 {
      var first := StandardAnswer(p, i).value;
      AnswerIsRight(p, i);
      FirstAnswer(p, i, n, auth, add);
      var rest := ReadRecords(p, first.next, n - 1, auth, add).list;
      OffsetsBehind(p, first.next, n - 1, auth, add);
      OffsetsCons(first.record, rest);
      AnswerOffset(p, i);
      AgreeBehind(p, q, i, first.next, first.record.ttlAt, Offsets(rest));
      PointedSame(p, q, i);
      StandardSame(p, q, first.next, n - 1, auth, add);
    }
  }

  lemma AnswerOffset(p: seq<byte>, i: nat)
    requires Pointed(p, i) && StandardAnswer(p, i).Some?
    ensures StandardAnswer(p, i).value.record.ttlAt == i + 6 && i + 10 <= StandardAnswer(p, i).value.next <= |p|
  {
    OnlyPointersTakeTwo(p, i);
  }

  /** So a standard reader finds the same answers in it, and they are those of the loader. */
  lemma StandardReplay(p: seq<byte>, q: seq<byte>)
    requires Load(p).Loaded? && AgreeFrom(p, q, 2, LifetimeOffsets(p)) && StandardOf(p).Some? && Fits(p)
    ensures Load(q).Loaded? && StandardOf(q).Some? && Fits(q)
    ensures StandardOf(p).value.list <= Load(p).packet.records && StandardOf(q).value.list <= Load(q).packet.records
  {
    hide StandardAnswers, ReadRecords, AllPointed, ReadQuestions, QuestionsEnd, AgreeFrom, InOrder, Offsets, SameRecords;
    var start := QuestionSection(p).mem;
    StartIsBehind(p);
    OffsetsInOrder(p, start, U16(p, 6), U16(p, 8), U16(p, 10));
    AgreeInFront(p, q, LifetimeOffsets(p), start + 5);
    QuestionsSame(p, q, HEADER, HEADER, U16(p, 4), [], []);
    QuestionsEndSame(p, q, HEADER, U16(p, 4));
    AgreeLater(p, q, LifetimeOffsets(p), 2, start);
    StandardSame(p, q, start, U16(p, 6), U16(p, 8), U16(p, 10));
    Reload(p, q);
    MessageIsRight(p);
    MessageIsRight(q);
  }

  lemma StartIsBehind(p: seq<byte>)
    requires Load(p).Loaded?
    ensures QuestionSection(p).mem >= HEADER && QuestionSection(p).togo == 0
  {
    hide ReadRecords;
    QuestionsLie(p, HEADER, HEADER, U16(p, 4), [], []);
  }

  // ----- names that are not pointers -----

  /** The answer of the root's name, 1.2.3.4 for 60 seconds. */
  const ROOT_ANSWER: seq<byte> := [0, 0, 1, 0, 1, 0, 0, 0, 60, 0, 4, 1, 2, 3, 4]

  /** Its name takes one byte: the type is read as 256, and the offset kept covers half of the length of the data. */
  lemma MisreadAnswer()
    ensures StandardAnswer(ROOT_ANSWER, 0) == Some(Placed(Record(Answer, TYPE_A, 1, 60, [1, 2, 3, 4], 5), 15))
    ensures ReadAnswer(ROOT_ANSWER, 0).One? && ReadAnswer(ROOT_ANSWER, 0).record.rtype == 256 && ReadAnswer(ROOT_ANSWER, 0).record.ttlAt == 6
  {
    assert ROOT_ANSWER[11..15] == [1, 2, 3, 4];
  }

  /** A response with two answers, the second of which is for the root. */
  function TwoAnswers(): (p: seq<byte>)
    ensures |p| == 50
  {
    [0, 7, 129, 128, 0, 1, 0, 2, 0, 0, 0, 0] + [1, 97, 0, 0, 1, 0, 1] + [192, 12, 0, 1, 0, 1, 0, 0, 1, 44, 0, 4, 1, 2, 3, 4] + ROOT_ANSWER
  }

  /** It is stored, and what is sent for it after 100 seconds can no longer be read. */
  lemma BrokenReplay(id: nat)
    requires id < 0x1_0000
    ensures var p := TwoAnswers();
            && StandardOf(p).Some? && Load(p).Loaded? && LifetimeOffsets(p) == [25, 41]
            && Load(p).packet.records[0].rtype == TYPE_A && Alive(p, [25, 41], 0, 100)
            && StandardOf(Rewritten(p, id, [25, 41], 100)).None?
  {
    hide Rewritten, TwoAnswers, LifetimeOffsets, Load, AgreeFrom, SameRecords, StandardOf, U32, Less;
    var p := TwoAnswers();
    TwoAreLoaded();
    TwoByStandard();
    RewrittenLoads(p, id, 100);
    var r := Rewritten(p, id, [25, 41], 100);
    assert [25, 41][0] == 25 && [25, 41][1] == 41;
    assert U32(r, 41) == Less(U32(p, 41), 100);
    RewrittenBreaks(r);
  }

  lemma TwoAreLoaded()
    ensures var p := TwoAnswers(); Load(p).Loaded? && LifetimeOffsets(p) == [25, 41]
    ensures Load(TwoAnswers()).packet.records[0].rtype == TYPE_A
    ensures U32(TwoAnswers(), 25) == 300 && U32(TwoAnswers(), 41) == 15360
  {
    hide TwoAnswers;
    var p := TwoAnswers();
    TwoQuestion();
    TwoFirst();
    TwoSecond();
    assert ReadRecords(p, 1072, 0, 0, 0) == Records([], 1072);
    assert ReadRecord(p, 35, Answer) == ReadAnswer(p, 35);
    assert ReadRecords(p, 35, 1, 0, 0) == Kept(ReadAnswer(p, 35).record, Records([], 1072));
    assert ReadRecord(p, 19, Answer) == ReadAnswer(p, 19);
    assert ReadRecords(p, 19, 2, 0, 0) == Kept(ReadAnswer(p, 19).record, ReadRecords(p, 35, 1, 0, 0));
    assert [ReadAnswer(p, 35).record] + [] == [ReadAnswer(p, 35).record];
    OffsetsCons(ReadAnswer(p, 35).record, []);
    OffsetsCons(ReadAnswer(p, 19).record, [ReadAnswer(p, 35).record]);
  }

  lemma TwoQuestion()
    ensures var p := TwoAnswers();
            && U16(p, 4) == 1 && U16(p, 6) == 2 && U16(p, 8) == 0 && U16(p, 10) == 0
            && QuestionSection(p).Questions? && QuestionSection(p).mem == 19 && QuestionSection(p).togo == 0
            && QuestionsEnd(p, HEADER, 1) == Some(19)
  {
    var p := TwoAnswers();
    assert p[12] == 1 && p[14] == 0;
    assert NameLength(p, 14) == Some(1);
    var q := Question([97], 1, 1);
    assert NameLength(p, 12) == Some(3);
    assert QuestionsEnd(p, 19, 0) == Some(19);
    QuestionEndsRight(p, HEADER, [], []);
  }

  lemma TwoFirst()
    ensures var r := ReadAnswer(TwoAnswers(), 19);
            r.One? && r.next == 35 && r.record.ttlAt == 25 && r.record.rtype == TYPE_A && U32(TwoAnswers(), 25) == 300
  {
  }

  lemma TwoSecond()
    ensures var r := ReadAnswer(TwoAnswers(), 35);
            r.One? && r.next == 1072 && r.record.ttlAt == 41 && U32(TwoAnswers(), 41) == 15360
  {
  }

  lemma TwoByStandard()
    ensures StandardOf(TwoAnswers()).Some?
  {
    hide TwoAnswers;
    TwoQuestion();
    TwoPlaced();
    var p := TwoAnswers();
    assert StandardAnswers(p, 50, 0).Some?;
    assert StandardAnswers(p, 35, 1).Some?;
  }

  lemma TwoPlaced()
    ensures var p := TwoAnswers();
            && StandardAnswer(p, 19).Some? && StandardAnswer(p, 19).value.next == 35
            && StandardAnswer(p, 35).Some? && StandardAnswer(p, 35).value.next == 50
  {
  }

  lemma RewrittenBreaks(r: seq<byte>)
    requires AgreeFrom(TwoAnswers(), r, 2, [25, 41]) && U32(r, 41) == Less(15360, 100)
    ensures StandardOf(r).None?
  {
    var p := TwoAnswers();
    hide TwoAnswers;
    TwoQuestion();
    KeptBytes(r);
    QuestionsEndSame(p, r, HEADER, 1);
    assert NameLength(r, 19) == Some(2) && NameLength(r, 35) == Some(1);
    assert StandardAnswer(r, 35).None?;
    assert StandardAnswer(r, 19).Some? ==> StandardAnswer(r, 19).value.next == 35;
  }

  lemma KeptBytes(r: seq<byte>)
    requires AgreeFrom(TwoAnswers(), r, 2, [25, 41]) && U32(r, 41) == Less(15360, 100)
    ensures forall k :: 2 <= k < 19 ==> r[k] == TwoAnswers()[k]
    ensures U16(r, 4) == 1 && U16(r, 6) == 2 && r[19] == 192 && U16(r, 29) == 4 && r[35] == 0 && U16(r, 44) == 39940
  {
    var p := TwoAnswers();
    var os: seq<nat> := [25, 41];
    assert os[0] == 25 && os[1] == 41;
  }
}
