/** The other sections of a message as RFC 1035 lays them out, and whole messages. */
module DnsSections {
  import opened Bits
  import opened DnsMessage
  import opened DnsPacket
  import opened DnsStandard
  import opened Wrappers

  /** Section 4.1.3, for a record of any section; the loader keeps no offset for authorities. */
  function StandardRecord(p: seq<byte>, i: nat, s: Section): (r: Option<Placed>)
    ensures r.Some? ==> i < r.value.next <= |p|
  {
    match StandardAnswer(p, i)
    case None => None
    case Some(a) => Some(Placed(a.record.(section := s, ttlAt := if s == Authority then -1 else a.record.ttlAt), a.next))
  }

  /** A name that the loader skips rightly: a pointer, or labels up to the first zero byte. */
  predicate Skippable(p: seq<byte>, i: nat) {
    match NameLength(p, i)
    case None => false
    case Some(k) => p[i] >= 0xC0 || (p[i + k - 1] == 0 && forall m :: i <= m < i + k - 1 ==> p[m] != 0)
  }

  lemma SkippedRightly(p: seq<byte>, i: nat)
    requires NameLength(p, i).Some?
    ensures SkipQname(p, i) == NameLength(p, i).value <==> Skippable(p, i)
  {
    var k := NameLength(p, i).value;
    if p[i] != 0 && p[i] < 0xC0 {
      var z := ZeroFrom(p, i);
      if Skippable(p, i) {
        assert z == i + k - 1;
      }
      LabelsAreLonger(p, i);
    }
  }

  lemma LabelsAreLonger(p: seq<byte>, i: nat)
    requires NameLength(p, i).Some? && 0 < p[i] < 0xC0
    ensures NameLength(p, i).value > 2
  {
  }

  /** The records that the loader reads as they are; an option is passed over, and wants six bytes if it has data. */
  predicate RecordFits(p: seq<byte>, i: nat, s: Section)
    requires StandardRecord(p, i, s).Some?
  {
    var a := StandardAnswer(p, i).value;
    match s
    case Answer => Pointed(p, i)
    case Authority => Skippable(p, i) && (a.record.rtype == 2 || a.record.rtype == 6)
    case Additional =>
      && Skippable(p, i)
      && (a.record.rtype == 1 || a.record.rtype == 28 || a.record.rtype == 16
          || (a.record.rtype == 41 && (a.record.data == [] || a.record.ttlAt + 12 <= |p|)))
  }

  predicate IsOption(p: seq<byte>, i: nat, s: Section)
    requires StandardRecord(p, i, s).Some?
  {
    s == Additional && StandardAnswer(p, i).value.record.rtype == 41
  }

  /** One record of any section is read as it is laid out exactly if it fits. */
  lemma RecordIsRight(p: seq<byte>, i: nat, s: Section)
    requires StandardRecord(p, i, s).Some?
    ensures var a := StandardRecord(p, i, s).value;
            if IsOption(p, i, s) then RecordFits(p, i, s) ==> ReadRecord(p, i, s) == Passed(a.next)
            else ReadRecord(p, i, s) == One(a.record, a.next) <==> RecordFits(p, i, s)
  {
    hide SkipQname, NameLength, Skippable, ZeroFrom;
    match s
    case Answer => AnswerIsRight(p, i);
    case _ => SkippedRightly(p, i);
  }

  /** A section, without the options of the last. */
  function StandardSection(p: seq<byte>, i: nat, n: nat, s: Section): (r: Option<Answers>)
    decreases n
  {
    if n == 0 then Some(Answers([], i))
    else
      match StandardRecord(p, i, s)
      case None => None
      case Some(first) =>
        match StandardSection(p, first.next, n - 1, s)
        case None => None
        case Some(rest) => Some(Answers((if IsOption(p, i, s) then [] else [first.record]) + rest.list, rest.next))
  }

  predicate AllFit(p: seq<byte>, i: nat, n: nat, s: Section)
    decreases n
  {
    n == 0
    || match StandardRecord(p, i, s)
       case None => false
       case Some(first) => RecordFits(p, i, s) && AllFit(p, first.next, n - 1, s)
  }

  /** How many records of each section are left while `n` of section `s` are. */
  function Counts(s: Section, n: nat, auth: nat, add: nat): (nat, nat, nat) {
    match s case Answer => (n, auth, add) case Authority => (0, n, add) case Additional => (0, 0, n)
  }

  ghost function ReadFrom(p: seq<byte>, i: nat, s: Section, n: nat, auth: nat, add: nat): RecordsRead {
    var (a, b, c) := Counts(s, n, auth, add);
    ReadRecords(p, i, a, b, c)
  }

  /** A section whose records fit is read as it is, whatever follows it. */
  lemma {:induction false} SectionIsRight(p: seq<byte>, i: nat, n: nat, s: Section, auth: nat, add: nat)
    requires StandardSection(p, i, n, s).Some? && AllFit(p, i, n, s)
    ensures var r := StandardSection(p, i, n, s).value;
            ReadFrom(p, i, s, n, auth, add) == Before(r.list, ReadFrom(p, r.next, s, 0, auth, add))
    decreases n
  {
    hide StandardRecord, ReadRecord, RecordFits, IsOption, ReadRecords;
    if n == 0 {
      BeforeNone(ReadFrom(p, i, s, 0, auth, add));
    } else {
      var first := StandardRecord(p, i, s).value;
      RecordIsRight(p, i, s);
      FirstRecord(p, i, s, n, auth, add);
      SectionIsRight(p, first.next, n - 1, s, auth, add);
      var rest := StandardSection(p, first.next, n - 1, s).value;
      BeforeCons(first.record, rest.list, ReadFrom(p, rest.next, s, 0, auth, add));
      assert [] + rest.list == rest.list;
    }
  }

  lemma FirstRecord(p: seq<byte>, i: nat, s: Section, n: nat, auth: nat, add: nat)
    requires n > 0 && i < |p|
    ensures ReadRecord(p, i, s).One? ==>
              ReadFrom(p, i, s, n, auth, add) == Kept(ReadRecord(p, i, s).record, ReadFrom(p, ReadRecord(p, i, s).next, s, n - 1, auth, add))
    ensures ReadRecord(p, i, s).Passed? ==>
              ReadFrom(p, i, s, n, auth, add) == ReadFrom(p, ReadRecord(p, i, s).next, s, n - 1, auth, add)
  {
    hide ReadRecord;
  }

  // ----- whole messages -----

  datatype Sections = Sections(answers: seq<Record>, authorities: seq<Record>, additionals: seq<Record>, next: nat)

  /** The records of a message, by the standard, from where its questions end; the counts are in the header. */
  function StandardSections(p: seq<byte>, i: nat): Option<Sections>
    requires |p| >= HEADER
  {
    match StandardSection(p, i, U16(p, 6), Answer)
    case None => None
    case Some(a) =>
      match StandardSection(p, a.next, U16(p, 8), Authority)
      case None => None
      case Some(b) =>
        match StandardSection(p, b.next, U16(p, 10), Additional)
        case None => None
        case Some(c) => Some(Sections(a.list, b.list, c.list, c.next))
  }

  predicate SectionsFit(p: seq<byte>, i: nat)
    requires |p| >= HEADER && StandardSections(p, i).Some?
  {
    var a := StandardSection(p, i, U16(p, 6), Answer).value;
    var b := StandardSection(p, a.next, U16(p, 8), Authority).value;
    AllFit(p, i, U16(p, 6), Answer) && AllFit(p, a.next, U16(p, 8), Authority) && AllFit(p, b.next, U16(p, 10), Additional)
  }

  /** A message whose records fit is loaded with its id, its flags and exactly the records that the standard has. */
  lemma WholeMessageIsRight(p: seq<byte>)
    requires |p| > HEADER && QuestionSection(p).Questions? && QuestionSection(p).togo == 0
    requires QuestionsEnd(p, HEADER, U16(p, 4)) == Some(QuestionSection(p).mem)
    requires StandardSections(p, QuestionSection(p).mem).Some? && SectionsFit(p, QuestionSection(p).mem)
    ensures var s := StandardSections(p, QuestionSection(p).mem).value;
            Load(p) == Loaded(Packet(U16(p, 0), U16(p, 2), QuestionSection(p).list, s.answers + s.authorities + s.additionals), s.next)
  {
    hide StandardSection, AllFit, ReadRecords, ReadQuestions, QuestionsEnd;
    var i := QuestionSection(p).mem;
    var n, m, k := U16(p, 6), U16(p, 8), U16(p, 10);
    var a := StandardSection(p, i, n, Answer).value;
    var b := StandardSection(p, a.next, m, Authority).value;
    var c := StandardSection(p, b.next, k, Additional).value;
    SectionIsRight(p, i, n, Answer, m, k);
    SectionIsRight(p, a.next, m, Authority, m, k);
    SectionIsRight(p, b.next, k, Additional, m, k);
    NothingLeft(p, c.next);
    assert a.list + (b.list + (c.list + [])) == a.list + b.list + c.list;
  }

  lemma NothingLeft(p: seq<byte>, i: nat)
    ensures ReadRecords(p, i, 0, 0, 0) == Records([], i)
  {
  }

  // ----- requests -----

  /** Labels of 1 to 63 bytes are a name of the standard. */
  lemma {:induction false} LabelsAreName(p: seq<byte>, at: nat, ls: seq<Name>)
    requires forall k :: 0 <= k < |ls| ==> 1 <= |ls[k]| <= 63
    requires var n := |AllLabelBytes(ls)|; at + n < |p| && p[at..at + n] == AllLabelBytes(ls) && p[at + n] == 0
    ensures NameLength(p, at) == Some(|AllLabelBytes(ls)| + 1)
    decreases |ls|
  {
    if ls != [] {
      LabelBytesCons(ls);
      var l, rest := ls[0], AllLabelBytes(ls[1..]);
      hide AllLabelBytes;
      LabelAt(p, at, l, rest);
      LabelsAreName(p, at + 1 + |l|, ls[1..]);
    }
  }

  lemma LabelAt(p: seq<byte>, at: nat, l: Name, rest: seq<byte>)
    requires 1 <= |l| <= 63 && at + |LabelBytes(l) + rest| < |p| && p[at..at + |LabelBytes(l) + rest|] == LabelBytes(l) + rest
    ensures |LabelBytes(l)| == 1 + |l| && p[at] == |l| && p[at + 1 + |l|..at + 1 + |l| + |rest|] == rest
  {
    var all := LabelBytes(l) + rest;
    assert p[at..at + |all|][0] == all[0];
    assert p[at..at + |all|][1 + |l|..] == all[1 + |l|..] == rest;
  }

  /** A request for a name with labels of 1 to 63 bytes, by the standard: one question, which has that name, the type and
      the class of the internet, and nothing behind it; recursion is desired. */
  lemma RequestByStandard(id: nat, h: Name, rtype: nat)
    requires id < 0x1_0000 && rtype < 0x1_0000 && forall k :: 0 <= k < |Labels(h)| ==> 1 <= |Labels(h)[k]| <= 63
    ensures var p, n := Request(id, h, rtype), |AllLabelBytes(Labels(h))| + 1;
            && |p| == HEADER + n + 4 && p[2] == 1 && p[3] == 0
            && U16(p, 0) == id && U16(p, 4) == 1 && U16(p, 6) == 0 && U16(p, 8) == 0 && U16(p, 10) == 0
            && NameLength(p, HEADER) == Some(n) && p[HEADER..HEADER + n] == AllLabelBytes(Labels(h)) + [0]
            && U16(p, HEADER + n) == rtype && U16(p, HEADER + n + 2) == 1
  {
    hide Labels, AllLabelBytes;
    var ls := Labels(h);
    var p, n := Request(id, h, rtype), |AllLabelBytes(ls)| + 1;
    RequestParts(id, h, rtype);
    LabelsAreName(p, HEADER, ls);
  }

  lemma RequestParts(id: nat, h: Name, rtype: nat)
    requires id < 0x1_0000 && rtype < 0x1_0000
    ensures var p, b := Request(id, h, rtype), AllLabelBytes(Labels(h));
            && |p| == HEADER + |b| + 5 && p[2] == 1 && p[3] == 0 && U16(p, 0) == id
            && U16(p, 4) == 1 && U16(p, 6) == 0 && U16(p, 8) == 0 && U16(p, 10) == 0
            && p[HEADER..HEADER + |b|] == b && p[HEADER + |b|] == 0 && p[HEADER..HEADER + |b| + 1] == b + [0]
            && U16(p, HEADER + |b| + 1) == rtype && U16(p, HEADER + |b| + 3) == 1
  {
    hide Labels, AllLabelBytes, RequestHeader;
    HeaderParts(id);
    var p, b, h0 := Request(id, h, rtype), AllLabelBytes(Labels(h)), RequestHeader(id);
    assert p[..HEADER] == h0;
    assert forall k :: 0 <= k < HEADER ==> p[k] == h0[k];
    assert U16(Bytes16(rtype), 0) == rtype;
  }

  lemma HeaderParts(id: nat)
    requires id < 0x1_0000
    ensures var h := RequestHeader(id);
            && U16(h, 0) == id && h[2] == 1 && h[3] == 0 && h[4] == 0 && h[5] == 1 && forall k :: 6 <= k < 12 ==> h[k] == 0
  {
    assert U16(Bytes16(id), 0) == id;
  }
}
