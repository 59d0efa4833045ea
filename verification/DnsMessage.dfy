/** DNS messages: the request writer, the names, and the question part of the loader. */
module DnsMessage {
  import opened Bits

  const HEADER := 12
  const DOT: byte := 0x2E

  /** A big-endian 32-bit number. */
  function U32(p: seq<byte>, i: nat): (n: nat)
    requires i + 4 <= |p|
    ensures n < 0x1_0000_0000
  {
    U16(p, i) * 0x1_0000 + U16(p, i + 2)
  }

  // ----- names and labels -----

  type Name = seq<byte>

  /** The labels between the dots. */
  function Labels(h: Name): (ls: seq<Name>)
    ensures |ls| > 0
  {
    if h == [] then [[]]
    else
      var front, c := Labels(h[..|h| - 1]), h[|h| - 1];
      if c == DOT then front + [[]] else front[..|front| - 1] + [front[|front| - 1] + [c]]
  }

  /** Labels with dots between them. */
  function Dotted(ls: seq<Name>): Name {
    if ls == [] then []
    else if |ls| == 1 then ls[0]
    else Dotted(ls[..|ls| - 1]) + [DOT] + ls[|ls| - 1]
  }

  lemma {:induction false} DottedLabels(h: Name)
    ensures Dotted(Labels(h)) == h
    ensures forall l :: l in Labels(h) ==> DOT !in l
  {
    if h != [] {
      var front, c := Labels(h[..|h| - 1]), h[|h| - 1];
      DottedLabels(h[..|h| - 1]);
      assert h == h[..|h| - 1] + [c];
      if c == DOT {
        DottedDot(front);
      } else {
        DottedChar(front, c);
      }
    }
  }

  lemma DottedDot(ls: seq<Name>)
    requires ls != []
    ensures Dotted(ls + [[]]) == Dotted(ls) + [DOT]
  {
    assert (ls + [[]])[..|ls|] == ls;
  }

  lemma DottedChar(ls: seq<Name>, c: byte)
    requires ls != []
    ensures Dotted(ls[..|ls| - 1] + [ls[|ls| - 1] + [c]]) == Dotted(ls) + [c]
  {
    hide Dotted;
    var n := |ls| - 1;
    var more := ls[..n] + [ls[n] + [c]];
    assert more[..n] == ls[..n] && more[n] == ls[n] + [c];
    if n > 0 {
      DottedLast(ls);
      DottedLast(more);
      CharBehind(Dotted(ls[..n]) + [DOT], ls[n], c);
    } else {
      DottedOne(ls);
      DottedOne(more);
    }
  }

  lemma CharBehind(front: Name, l: Name, c: byte)
    ensures front + (l + [c]) == front + l + [c]
  {
  }

  lemma DottedLast(ls: seq<Name>)
    requires |ls| > 1
    ensures Dotted(ls) == Dotted(ls[..|ls| - 1]) + [DOT] + ls[|ls| - 1]
  {
  }

  // ----- the request writer -----

  /** A label behind its length, which is kept in one byte. */
  function LabelBytes(l: Name): seq<byte> {
    [|l| % 256] + l
  }

  function AllLabelBytes(ls: seq<Name>): seq<byte> {
    if ls == [] then [] else AllLabelBytes(ls[..|ls| - 1]) + LabelBytes(ls[|ls| - 1])
  }

  function RequestHeader(id: nat): (r: seq<byte>)
    requires id < 0x1_0000
    ensures |r| == HEADER
  {
    Bytes16(id) + [1, 0, 0, 1, 0, 0, 0, 0, 0, 0]
  }

  /** `generate_dns_request` */
  function Request(id: nat, h: Name, rtype: nat): seq<byte>
    requires id < 0x1_0000 && rtype < 0x1_0000
  {
    RequestHeader(id) + AllLabelBytes(Labels(h)) + [0] + Bytes16(rtype) + [0, 1]
  }

  /** The queries as they are while the name is being written: the finished labels, and the last one whose length
      byte still holds what was there before. */
  ghost predicate Written(q: seq<byte>, ls: seq<Name>, lenAt: nat, pieceSize: byte) {
    && |ls| > 0 && lenAt == |AllLabelBytes(ls[..|ls| - 1])|
    && |q| == lenAt + 1 + |ls[|ls| - 1]|
    && q[..lenAt] == AllLabelBytes(ls[..|ls| - 1]) && q[lenAt + 1..] == ls[|ls| - 1]
    && pieceSize == |ls[|ls| - 1]| % 256
  }

  /** The lengths are written behind the fact: into the byte of the dot before the label. */
  method GenerateRequest(id: nat, b: array<byte>, h: Name, rtype: nat) returns (size: nat)
    requires id < 0x1_0000 && rtype < 0x1_0000 && b.Length == |h| + 18
    modifies b
    ensures size == b.Length && b[..] == Request(id, h, rtype)
  {
    hide Labels, AllLabelBytes;
    var hostname := [DOT] + h;
    WriteHeader(id, b);
    WriteName(b, hostname);
    var trailer := HEADER + |hostname|;
    ghost var written := b[..trailer];
    b[trailer] := 0;
    b[trailer + 1] := rtype / 0x100;
    b[trailer + 2] := rtype % 0x100;
    b[trailer + 3] := 0;
    b[trailer + 4] := 1;
    assert b[..trailer] == written;
    assert b[trailer..] == [0] + Bytes16(rtype) + [0, 1];
    assert b[..] == b[..trailer] + b[trailer..];
    size := b.Length;
  }

  method WriteHeader(id: nat, b: array<byte>)
    requires id < 0x1_0000 && b.Length >= HEADER
    modifies b
    ensures b[..HEADER] == RequestHeader(id)
  {
    Put16(b, 0, id);
    Put16(b, 2, 0x0100);
    Put16(b, 4, 1);
    Put16(b, 6, 0);
    Put16(b, 8, 0);
    Put16(b, 10, 0);
    assert b[..HEADER] == [] + Bytes16(id) + [1, 0] + [0, 1] + [0, 0] + [0, 0] + [0, 0];
  }

  /** `set_at<uint16_t>` of a number in network order. */
  method Put16(b: array<byte>, i: nat, n: nat)
    requires i + 2 <= b.Length && n < 0x1_0000
    modifies b
    ensures b[..i + 2] == old(b[..i]) + Bytes16(n) && b[i + 2..] == old(b[i + 2..])
  {
    b[i] := n / 0x100;
    b[i + 1] := n % 0x100;
  }

  method WriteName(b: array<byte>, hostname: Name)
    requires b.Length == HEADER + |hostname| + 5 && hostname != [] && hostname[0] == DOT
    modifies b
    ensures b[..HEADER] == old(b[..HEADER])
    ensures b[..HEADER + |hostname|] == old(b[..HEADER]) + AllLabelBytes(Labels(hostname[1..]))
  {
    hide AllLabelBytes, Labels, Written;
    var lenPtr: nat := 0;
    var pieceSize: byte := 0;
    var i := 0;
    while i < |hostname|
      invariant 0 <= i <= |hostname| && (lenPtr < i || lenPtr == i == 0)
      invariant b[..HEADER] == old(b[..HEADER])
      invariant i == 0 ==> pieceSize == 0
      invariant i > 0 ==> Written(b[HEADER..HEADER + i], Labels(hostname[1..i]), lenPtr, pieceSize)
    {
      ghost var q := b[HEADER..HEADER + i];
      var a := hostname[i];
      LabelsOfMore(hostname, i);
      if a == DOT {
        b[HEADER + lenPtr] := pieceSize;
        assert b[HEADER..HEADER + i + 1] == (if i == 0 then [] else q[lenPtr := pieceSize]) + [b[HEADER + i]];
        if i == 0 {
          NothingWritten(b[HEADER]);
        } else {
          DotWritten(q, Labels(hostname[1..i]), lenPtr, pieceSize, b[HEADER + i]);
        }
        lenPtr := i;
        pieceSize := 0;
      } else {
        b[HEADER + i] := a;
        assert b[HEADER..HEADER + i + 1] == q + [a];
        CharWritten(q, Labels(hostname[1..i]), lenPtr, pieceSize, a);
        pieceSize := (pieceSize + 1) % 256;
      }
      i := i + 1;
    }
    ghost var q := b[HEADER..HEADER + i];
    b[HEADER + lenPtr] := pieceSize;
    assert hostname[1..i] == hostname[1..];
    assert b[HEADER..HEADER + i] == q[lenPtr := pieceSize];
    AllWritten(q, Labels(hostname[1..]), lenPtr, pieceSize);
    assert b[..HEADER + |hostname|] == b[..HEADER] + b[HEADER..HEADER + i];
  }

  lemma LabelsOfMore(hostname: Name, i: nat)
    requires i < |hostname|
    ensures i == 0 ==> Labels(hostname[1..i + 1]) == [[]]
    ensures i > 0 ==>
              var ls := Labels(hostname[1..i]);
              Labels(hostname[1..i + 1]) == if hostname[i] == DOT then ls + [[]] else WithChar(ls, hostname[i])
  {
    if i > 0 {
      var h := hostname[1..i + 1];
      assert h[..|h| - 1] == hostname[1..i] && h[|h| - 1] == hostname[i];
    }
  }

  function WithChar(ls: seq<Name>, c: byte): seq<Name>
    requires |ls| > 0
  {
    ls[..|ls| - 1] + [ls[|ls| - 1] + [c]]
  }

  lemma NothingWritten(x: byte)
    ensures Written([x], [[]], 0, 0)
  {
    var ls: seq<Name> := [[]];
    assert ls[..0] == [];
    assert [x][..0] == [] && [x][1..] == [];
  }

  lemma DotWritten(q: seq<byte>, ls: seq<Name>, lenAt: nat, pieceSize: byte, x: byte)
    requires Written(q, ls, lenAt, pieceSize)
    ensures lenAt < |q| && Written(q[lenAt := pieceSize] + [x], ls + [[]], |q|, 0)
  {
    AllWritten(q, ls, lenAt, pieceSize);
    var r := q[lenAt := pieceSize] + [x];
    assert (ls + [[]])[..|ls|] == ls;
    assert r[..|q|] == q[lenAt := pieceSize] && r[|q| + 1..] == [];
  }

  lemma CharWritten(q: seq<byte>, ls: seq<Name>, lenAt: nat, pieceSize: byte, c: byte)
    requires Written(q, ls, lenAt, pieceSize)
    ensures Written(q + [c], WithChar(ls, c), lenAt, (pieceSize + 1) % 256)
  {
    var n := |ls| - 1;
    assert WithChar(ls, c)[..n] == ls[..n];
    assert (q + [c])[..lenAt] == q[..lenAt] && (q + [c])[lenAt + 1..] == q[lenAt + 1..] + [c];
  }

  lemma AllWritten(q: seq<byte>, ls: seq<Name>, lenAt: nat, pieceSize: byte)
    requires Written(q, ls, lenAt, pieceSize)
    ensures lenAt < |q| && q[lenAt := pieceSize] == AllLabelBytes(ls)
  {
    var r := q[lenAt := pieceSize];
    assert r == r[..lenAt] + [pieceSize] + r[lenAt + 1..];
    assert r[..lenAt] == q[..lenAt] && r[lenAt + 1..] == q[lenAt + 1..];
  }

  // ----- the question part of the loader -----

  datatype Question = Question(name: Name, rtype: nat, rclass: nat)

  datatype QuestionsRead = Questions(list: seq<Question>, mem: nat, togo: nat) | BadQuestion

  function Joined(name: Name, l: Name): Name {
    (if name == [] then [] else name + [DOT]) + l
  }

  /** The loop over questions and labels: `cur` is where the next label is read, `mem` how far the message has been
      consumed. Once a question has ended `cur` stays at its zero byte. */
  function ReadQuestions(p: seq<byte>, cur: nat, mem: nat, togo: nat, name: Name, list: seq<Question>): QuestionsRead
    decreases |p| - cur, togo
  {
    if cur >= |p| || togo == 0 then Questions(list, mem, togo)
    else if cur + p[cur] >= |p| then BadQuestion
    else if p[cur] == 0 then
      if cur + 5 > |p| then BadQuestion
      else ReadQuestions(p, cur, mem + 5, togo - 1, name, list + [Question(name, U16(p, cur + 1), U16(p, cur + 3))])
    else ReadQuestions(p, cur + p[cur] + 1, mem + p[cur] + 1, togo, Joined(name, p[cur + 1..cur + 1 + p[cur]]), list)
  }

  /** A question is over, or the message. */
  lemma {:induction false} QuestionsAreOver(p: seq<byte>, cur: nat, togo: nat, name: Name, list: seq<Question>)
    requires cur <= |p|
    ensures var r := ReadQuestions(p, cur, cur, togo, name, list);
            r.Questions? ==> r.togo == 0 || r.mem >= |p|
    decreases |p| - cur, togo
  {
    if cur < |p| && togo > 0 && cur + p[cur] < |p| {
      if p[cur] == 0 {
        if cur + 5 <= |p| {
          EndedQuestions(p, cur, cur + 5, togo - 1, name, list + [Question(name, U16(p, cur + 1), U16(p, cur + 3))]);
        }
      } else {
        QuestionsAreOver(p, cur + p[cur] + 1, togo, Joined(name, p[cur + 1..cur + 1 + p[cur]]), list);
      }
    }
  }

  /** Behind the first question the others are read from the same place, and so are the same. */
  lemma {:induction false} EndedQuestions(p: seq<byte>, cur: nat, mem: nat, togo: nat, name: Name, list: seq<Question>)
    requires cur + 5 <= |p| && p[cur] == 0
    ensures var again := Question(name, U16(p, cur + 1), U16(p, cur + 3));
            ReadQuestions(p, cur, mem, togo, name, list) == Questions(list + seq(togo, _ => again), mem + 5 * togo, 0)
    decreases togo
  {
    hide U16;
    var again := Question(name, U16(p, cur + 1), U16(p, cur + 3));
    if togo == 0 {
      assert list + seq(0, _ => again) == list;
    } else {
      EndedQuestions(p, cur, mem + 5, togo - 1, name, list + [again]);
      assert list + [again] + seq(togo - 1, _ => again) == list + seq(togo, _ => again);
    }
  }

  // ----- requests read back -----

  /** Every label has a length that fits its byte. */
  predicate FitLabels(h: Name) {
    forall l :: l in Labels(h) ==> 1 <= |l| <= 255
  }

  lemma {:induction false} LabelBytesCons(ls: seq<Name>)
    requires ls != []
    ensures AllLabelBytes(ls) == LabelBytes(ls[0]) + AllLabelBytes(ls[1..])
  {
    var n := |ls| - 1;
    if n > 0 {
      LabelBytesCons(ls[..n]);
      assert ls[..n][1..] == ls[1..][..n - 1];
    }
  }

  lemma {:induction false} DottedCons(ls: seq<Name>)
    requires |ls| > 1
    ensures Dotted(ls) == ls[0] + [DOT] + Dotted(ls[1..])
  {
    var n := |ls| - 1;
    if n > 1 {
      DottedCons(ls[..n]);
      assert ls[..n][1..] == ls[1..][..n - 1];
    } else {
      assert ls[..1] == [ls[0]] && ls[1..] == [ls[1]];
    }
  }

  lemma {:induction false} LabelBytesLength(ls: seq<Name>)
    requires ls != []
    ensures |AllLabelBytes(ls)| == |Dotted(ls)| + 1
  {
    if |ls| > 1 {
      LabelBytesLength(ls[..|ls| - 1]);
    }
  }

  function Trailer(rtype: nat): (r: seq<byte>)
    requires rtype < 0x1_0000
    ensures |r| == 5
  {
    [0] + Bytes16(rtype) + [0, 1]
  }

  /** The labels from `at` on, and the rest of a request behind them. */
  ghost predicate LabelsAt(p: seq<byte>, at: nat, ls: seq<Name>, rtype: nat) {
    rtype < 0x1_0000 && at <= |p| && p[at..] == AllLabelBytes(ls) + Trailer(rtype)
  }

  /** What the name is when the labels `ls` follow the part `name`. */
  function NameWith(name: Name, ls: seq<Name>): Name {
    if ls == [] then name else if name == [] then Dotted(ls) else name + [DOT] + Dotted(ls)
  }

  lemma FirstLabel(p: seq<byte>, at: nat, ls: seq<Name>, rtype: nat)
    requires LabelsAt(p, at, ls, rtype) && ls != []
    ensures at + |ls[0]| + 6 <= |p| && p[at] == |ls[0]| % 256 && p[at + 1..at + 1 + |ls[0]|] == ls[0]
    ensures LabelsAt(p, at + |ls[0]| + 1, ls[1..], rtype)
  {
    LabelBytesCons(ls);
    var q, l := p[at..], ls[0];
    assert q == LabelBytes(l) + (AllLabelBytes(ls[1..]) + Trailer(rtype));
    assert q[1..1 + |l|] == l && q[1 + |l|..] == AllLabelBytes(ls[1..]) + Trailer(rtype);
    assert p[at + 1..at + 1 + |l|] == q[1..1 + |l|];
    assert p[at + 1 + |l|..] == q[1 + |l|..];
    assert p[at] == q[0];
  }

  lemma OnlyTrailer(p: seq<byte>, at: nat, rtype: nat)
    requires LabelsAt(p, at, [], rtype)
    ensures at + 5 == |p| && p[at] == 0 && U16(p, at + 1) == rtype && U16(p, at + 3) == 1
  {
    assert p[at..] == Trailer(rtype);
    assert forall k :: 0 <= k < 5 ==> p[at + k] == Trailer(rtype)[k];
    assert U16(Bytes16(rtype), 0) == rtype;
  }

  lemma NameWithFirst(name: Name, ls: seq<Name>)
    requires ls != [] && ls[0] != []
    ensures NameWith(Joined(name, ls[0]), ls[1..]) == NameWith(name, ls)
  {
    hide Dotted;
    if |ls| > 1 {
      DottedCons(ls);
      LongerName(name, ls[0], Dotted(ls[1..]));
    } else {
      DottedOne(ls);
    }
  }

  lemma DottedOne(ls: seq<Name>)
    requires |ls| == 1
    ensures Dotted(ls) == ls[0]
  {
  }

  lemma LongerName(name: Name, l: Name, more: Name)
    ensures Joined(name, l) + [DOT] + more == (if name == [] then [] else name + [DOT]) + (l + [DOT] + more)
  {
  }

  /** Labels are taken off one after the other, up to the byte behind them. */
  lemma {:induction false} LabelsRead(p: seq<byte>, at: nat, end: nat, ls: seq<Name>, togo: nat, name: Name)
    requires at <= end < |p| && p[at..end] == AllLabelBytes(ls) && togo > 0 && forall l :: l in ls ==> 1 <= |l| <= 255
    ensures ReadQuestions(p, at, at, togo, name, []) == ReadQuestions(p, end, end, togo, NameWith(name, ls), [])
    decreases |ls|
  {
    hide AllLabelBytes, Dotted, NameWith, Joined, U16;
    if ls == [] {
      NameAlone(name);
      NoLabelBytes();
    } else {
      FirstLabelOf(p, at, end, ls);
      assert ls[0] in ls;
      NameWithFirst(name, ls);
      LabelsRead(p, at + |ls[0]| + 1, end, ls[1..], togo, Joined(name, ls[0]));
    }
  }

  lemma NoLabelBytes()
    ensures AllLabelBytes([]) == []
  {
  }

  lemma FirstLabelOf(p: seq<byte>, at: nat, end: nat, ls: seq<Name>)
    requires at <= end < |p| && p[at..end] == AllLabelBytes(ls) && ls != []
    ensures var next := at + |ls[0]| + 1;
            && next <= end && p[at] == |ls[0]| % 256 && p[at + 1..next] == ls[0] && p[next..end] == AllLabelBytes(ls[1..])
  {
    hide AllLabelBytes;
    LabelBytesCons(ls);
    var q, l := p[at..end], ls[0];
    assert |q| == end - at;
    assert q == LabelBytes(l) + AllLabelBytes(ls[1..]);
    assert q[1..1 + |l|] == l && q[1 + |l|..] == AllLabelBytes(ls[1..]);
    SubSlice(p, at, end, 1, 1 + |l|);
    SubSlice(p, at, end, 1 + |l|, |q|);
    assert p[at] == q[0];
  }

  lemma SubSlice(p: seq<byte>, a: nat, b: nat, x: nat, y: nat)
    requires a <= b <= |p| && x <= y <= b - a
    ensures p[a..b][x..y] == p[a + x..a + y]
  {
    assert forall k :: 0 <= k < y - x ==> p[a..b][x..y][k] == p[a + x..a + y][k];
  }

  /** A question as a message holds it; the empty name is the root. */
  function QuestionBytes(q: Question): (r: seq<byte>)
    ensures |r| >= 5 && (q.name != [] ==> |r| > 5) && (q.name == [] ==> |r| == 5)
  {
    (if q.name == [] then [] else (LabelBytesLength(Labels(q.name)); AllLabelBytes(Labels(q.name))))
    + ([0] + Bytes16(q.rtype) + Bytes16(q.rclass))
  }

  predicate GoodQuestion(q: Question) {
    (q.name == [] || FitLabels(q.name)) && q.rtype < 0x1_0000 && q.rclass < 0x1_0000
  }

  /** Wherever a question stands, it is read as often as questions are announced. */
  lemma QuestionIsRead(p: seq<byte>, at: nat, q: Question, togo: nat)
    requires GoodQuestion(q) && togo > 0 && at + |QuestionBytes(q)| <= |p| && p[at..at + |QuestionBytes(q)|] == QuestionBytes(q)
    ensures ReadQuestions(p, at, at, togo, [], [])
         == Questions(seq(togo, _ => q), at + |QuestionBytes(q)| + 5 * (togo - 1), 0)
  {
    hide Labels, AllLabelBytes, Dotted, U16, Bytes16, Joined, NameWith;
    var ls := if q.name == [] then [] else Labels(q.name);
    var end := at + |QuestionBytes(q)|;
    QuestionEnds(p, at, end, q);
    DottedLabels(q.name);
    NameWithNothing(ls);
    NoLabelBytes();
    LabelsRead(p, at, end - 5, ls, togo, []);
    EndedQuestions(p, end - 5, end - 5, togo, q.name, []);
    assert [] + seq(togo, _ => q) == seq(togo, _ => q);
  }

  lemma NameWithNothing(ls: seq<Name>)
    ensures NameWith([], ls) == if ls == [] then [] else Dotted(ls)
  {
  }

  lemma QuestionEnds(p: seq<byte>, at: nat, end: nat, q: Question)
    requires at <= end <= |p| && p[at..end] == QuestionBytes(q) && GoodQuestion(q)
    ensures at <= end - 5 && p[end - 5] == 0 && U16(p, end - 4) == q.rtype && U16(p, end - 2) == q.rclass
    ensures p[at..end - 5] == if q.name == [] then [] else AllLabelBytes(Labels(q.name))
  {
    hide Labels, AllLabelBytes;
    var b, n := QuestionBytes(q), |QuestionBytes(q)| - 5;
    assert b[..n] == p[at..end - 5] && b[n..] == p[end - 5..end];
    var t := p[end - 5..end];
    assert t == [0] + Bytes16(q.rtype) + Bytes16(q.rclass);
    assert p[end - 5] == t[0] && p[end - 4] == t[1] && p[end - 3] == t[2] && p[end - 2] == t[3] && p[end - 1] == t[4];
    assert U16(Bytes16(q.rtype), 0) == q.rtype && U16(Bytes16(q.rclass), 0) == q.rclass;
  }

  function QuestionsBytes(qs: seq<Question>): (r: seq<byte>)
    ensures |r| >= 5 * |qs|
  {
    if qs == [] then [] else QuestionBytes(qs[0]) + QuestionsBytes(qs[1..])
  }

  /** A message that announces `n` questions is loaded with `n` times the first; they are the ones it holds, and its
      length is counted right, only if there is one, or all are the same and ask for the root. */
  lemma QuestionsReadBack(before: seq<byte>, qs: seq<Question>, after: seq<byte>)
    requires qs != [] && forall q :: q in qs ==> GoodQuestion(q)
    ensures var p, i := before + QuestionsBytes(qs) + after, |before|;
            var r := ReadQuestions(p, i, i, |qs|, [], []);
            && r.Questions? && r.list == seq(|qs|, _ => qs[0])
            && (r == Questions(qs, |before + QuestionsBytes(qs)|, 0) <==>
                  |qs| == 1 || (qs[0].name == [] && forall k :: 0 <= k < |qs| ==> qs[k] == qs[0]))
  {
    hide QuestionBytes, GoodQuestion;
    var p, i, n := before + QuestionsBytes(qs) + after, |before|, |QuestionBytes(qs[0])|;
    assert p[i..i + n] == QuestionBytes(qs[0]);
    assert qs[0] in qs;
    QuestionIsRead(p, i, qs[0], |qs|);
    var same := seq(|qs|, _ => qs[0]);
    assert same == qs <==> forall k :: 0 <= k < |qs| ==> qs[k] == qs[0];
    if |qs| > 1 {
      if qs[0].name == [] {
        RootQuestions(qs);
      } else if same == qs {
        assert qs[1..][0] == qs[0];
      }
    }
  }

  lemma {:induction false} RootQuestions(qs: seq<Question>)
    ensures (forall k :: 0 <= k < |qs| ==> qs[k].name == []) ==> |QuestionsBytes(qs)| == 5 * |qs|
  {
    hide QuestionBytes;
    if qs != [] {
      RootQuestions(qs[1..]);
    }
  }

  lemma NameAlone(name: Name)
    ensures NameWith(name, []) == name
  {
  }

  /** A name that has been begun is the whole name, or is followed by a dot. */
  lemma {:induction false} NameContinues(p: seq<byte>, cur: nat, mem: nat, name: Name)
    requires name != []
    ensures var r := ReadQuestions(p, cur, mem, 1, name, []);
            r.Questions? && r.list != [] ==> r.list[0].name == name || name + [DOT] <= r.list[0].name
    decreases |p| - cur
  {
    if cur < |p| && cur + p[cur] < |p| {
      if p[cur] == 0 {
        if cur + 5 <= |p| {
          var list := [Question(name, U16(p, cur + 1), U16(p, cur + 3))];
          assert ReadQuestions(p, cur, mem + 5, 0, name, list) == Questions(list, mem + 5, 0);
          assert [] + list == list;
        }
      } else {
        var l := p[cur + 1..cur + 1 + p[cur]];
        NameContinues(p, cur + p[cur] + 1, mem + p[cur] + 1, Joined(name, l));
      }
    }
  }

  /** With a label that is empty or longer than 255 bytes another name is read. */
  lemma {:induction false} UnfitLabelsMisread(p: seq<byte>, at: nat, ls: seq<Name>, rtype: nat, name: Name)
    requires LabelsAt(p, at, ls, rtype) && (exists l :: l in ls && !(1 <= |l| <= 255))
    requires forall l :: l in ls ==> DOT !in l
    ensures var r := ReadQuestions(p, at, at, 1, name, []);
            r.Questions? && r.list != [] ==> r.list[0].name != NameWith(name, ls) || r.mem < |p|
    decreases |ls|
  {
    hide LabelsAt, AllLabelBytes, Dotted, NameWith, U16;
    FirstLabel(p, at, ls, rtype);
    var l := ls[0];
    assert l in ls;
    if 1 <= |l| <= 255 {
      assert p[at + 1..at + 1 + p[at]] == l;
      NameWithFirst(name, ls);
      UnfitLabelsMisread(p, at + |l| + 1, ls[1..], rtype, Joined(name, l));
    } else {
      UnfitFirst(p, at, ls, name);
    }
  }

  lemma UnfitFirst(p: seq<byte>, at: nat, ls: seq<Name>, name: Name)
    requires ls != [] && !(1 <= |ls[0]| <= 255) && DOT !in ls[0]
    requires at + |ls[0]| + 6 <= |p| && p[at] == |ls[0]| % 256 && p[at + 1..at + 1 + |ls[0]|] == ls[0]
    ensures var r := ReadQuestions(p, at, at, 1, name, []);
            r.Questions? && r.list != [] ==> r.list[0].name != NameWith(name, ls) || r.mem < |p|
  {
    hide Dotted, NameWith;
    var l := ls[0];
    var f := |l| % 256;
    if f == 0 {
      var list := [Question(name, U16(p, at + 1), U16(p, at + 3))];
      assert [] + list == list;
      assert ReadQuestions(p, at, at + 5, 0, name, list) == Questions(list, at + 5, 0);
    } else {
      var begun := Joined(name, l[..f]);
      assert p[at + 1..at + 1 + f] == p[at + 1..at + 1 + |l|][..f];
      NameContinues(p, at + f + 1, at + f + 1, begun);
      LabelGoesOn(name, ls, f);
    }
  }

  lemma LabelGoesOn(name: Name, ls: seq<Name>, f: nat)
    requires ls != [] && 0 < f < |ls[0]| && DOT !in ls[0]
    ensures var begun := Joined(name, ls[0][..f]); NameWith(name, ls) != begun && !(begun + [DOT] <= NameWith(name, ls))
  {
    var l := ls[0];
    var begun, whole := Joined(name, l[..f]), NameWith(name, ls);
    if |ls| > 1 {
      DottedCons(ls);
    }
    assert |whole| > |begun| && whole[|begun|] == l[f];
    assert l[f] in l;
    assert (begun + [DOT])[|begun|] == DOT;
  }

  /** The name, the type and the class of a request are read back and the whole of it is consumed, exactly for names
      whose labels all have from 1 to 255 bytes. */
  lemma RequestReadBack(id: nat, h: Name, rtype: nat)
    requires id < 0x1_0000 && rtype < 0x1_0000
    ensures var p := Request(id, h, rtype);
            FitLabels(h) <==> ReadQuestions(p, HEADER, HEADER, 1, [], []) == Questions([Question(h, rtype, 1)], |p|, 0)
  {
    hide Labels, AllLabelBytes, Dotted, RequestHeader;
    var p, ls := Request(id, h, rtype), Labels(h);
    DottedLabels(h);
    RequestLabels(id, h, rtype);
    if FitLabels(h) {
      var q := Question(h, rtype, 1);
      RequestIsQuestion(id, h, rtype);
      QuestionIsRead(p, HEADER, q, 1);
      assert seq(1, _ => q) == [q];
    } else {
      UnfitLabelsMisread(p, HEADER, ls, rtype, []);
    }
  }

  lemma RequestIsQuestion(id: nat, h: Name, rtype: nat)
    requires id < 0x1_0000 && rtype < 0x1_0000 && FitLabels(h)
    ensures h != [] && GoodQuestion(Question(h, rtype, 1))
    ensures var p := Request(id, h, rtype); p[HEADER..] == p[HEADER..HEADER + |p[HEADER..]|] == QuestionBytes(Question(h, rtype, 1))
  {
    hide Labels, AllLabelBytes;
    EmptyIsUnfit();
    assert Bytes16(1) == [0, 1];
    assert Request(id, h, rtype)[HEADER..] == AllLabelBytes(Labels(h)) + ([0] + Bytes16(rtype) + Bytes16(1));
  }

  lemma EmptyIsUnfit()
    ensures !FitLabels([])
  {
    assert [] in Labels([]);
  }

  lemma RequestLabels(id: nat, h: Name, rtype: nat)
    requires id < 0x1_0000 && rtype < 0x1_0000
    ensures LabelsAt(Request(id, h, rtype), HEADER, Labels(h), rtype)
  {
    hide Labels, AllLabelBytes;
    assert Request(id, h, rtype) == RequestHeader(id) + (AllLabelBytes(Labels(h)) + Trailer(rtype));
  }

  // ----- names with pointers -----

  /** A name, or a read behind the message. */
  datatype NameRead = NameIs(name: Name) | BehindTheEnd

  /** Where a compression pointer leads: the high bits are added to the low ones. */
  function PointerTarget(high: byte, low: byte): int {
    low as int + (high as int - 0xC0)
  }

  /** Against section 4.1.4 of RFC 1035: the target is right exactly when it is below 256. */
  lemma PointerTargetIsRight(high: byte, low: byte)
    requires high >= 0xC0
    ensures PointerTarget(high, low) == (high as int - 0xC0) * 256 + low as int <==> high == 0xC0
  {
  }

  /** `construct_qname` */
  function ConstructQname(p: seq<byte>, start: nat, loopMax: nat): NameRead
    decreases loopMax
  {
    if loopMax == 0 || start >= |p| || p[start] == 0 then NameIs([])
    else if p[start] < 0xC0 then
      var size := p[start] as nat;
      if start + 1 + size >= |p| then NameIs(p[start + 1..])
      else
        var more := ConstructQname(p, start + 1 + size, loopMax - 1);
        if more.NameIs? then NameIs(p[start + 1..start + 1 + size] + if more.name == [] then [] else [DOT] + more.name)
        else more
    else if start + 1 >= |p| then BehindTheEnd
    else ConstructQname(p, PointerTarget(p[start], p[start + 1]), loopMax - 1)
  }

  function First(ls: seq<Name>, n: nat): seq<Name> {
    if |ls| <= n then ls else ls[..n]
  }

  lemma {:induction false} NameIsConstructed(p: seq<byte>, at: nat, ls: seq<Name>, rtype: nat, loopMax: nat)
    requires LabelsAt(p, at, ls, rtype) && forall l :: l in ls ==> 1 <= |l| < 0xC0
    ensures ConstructQname(p, at, loopMax) == NameIs(Dotted(First(ls, loopMax)))
    decreases |ls|
  {
    hide LabelsAt, AllLabelBytes, Dotted, First;
    if loopMax == 0 || ls == [] {
      FirstOfNone(ls, loopMax);
      if ls == [] {
        OnlyTrailer(p, at, rtype);
      }
    } else {
      FirstLabel(p, at, ls, rtype);
      assert ls[0] in ls;
      NameIsConstructed(p, at + |ls[0]| + 1, ls[1..], rtype, loopMax - 1);
      FirstCons(ls, loopMax);
    }
  }

  lemma FirstOfNone(ls: seq<Name>, n: nat)
    requires ls == [] || n == 0
    ensures Dotted(First(ls, n)) == []
  {
  }

  lemma FirstCons(ls: seq<Name>, n: nat)
    requires ls != [] && n > 0 && forall l :: l in ls ==> l != []
    ensures var more := Dotted(First(ls[1..], n - 1));
            Dotted(First(ls, n)) == ls[0] + if more == [] then [] else [DOT] + more
  {
    var some, rest := First(ls, n), First(ls[1..], n - 1);
    assert some == [ls[0]] + rest;
    if rest != [] {
      DottedCons(some);
      assert rest[|rest| - 1] in ls;
    }
  }

  /** The name in a request is built again from its first sixteen labels. */
  lemma RequestName(id: nat, h: Name, rtype: nat)
    requires id < 0x1_0000 && rtype < 0x1_0000 && forall l :: l in Labels(h) ==> 1 <= |l| < 0xC0
    ensures ConstructQname(Request(id, h, rtype), HEADER, 16) == NameIs(Dotted(First(Labels(h), 16)))
    ensures |Labels(h)| <= 16 ==> ConstructQname(Request(id, h, rtype), HEADER, 16) == NameIs(h)
  {
    hide Labels, Dotted;
    RequestLabels(id, h, rtype);
    DottedLabels(h);
    NameIsConstructed(Request(id, h, rtype), HEADER, Labels(h), rtype, 16);
  }
}
