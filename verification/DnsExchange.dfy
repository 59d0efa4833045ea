/** What clients get from the cache, over exchanges and runs of them. */
module DnsExchange {
  import opened Bits
  import opened DnsMessage
  import opened DnsPacket
  import opened DnsLoader
  import opened DnsCache
  import opened DnsStandard
  import opened Wrappers

  /** A message that is consumed to its end. */
  predicate Whole(p: seq<byte>) {
    Load(p).Loaded? && Load(p).mem >= |p|
  }

  lemma WireHolds(p: seq<byte>, isTcp: bool)
    requires Whole(p)
    ensures var src := Wire(p, isTcp);
            && Framed(src, isTcp) == At(if isTcp then 2 else 0)
            && 12 < |p| <= |src| && src[if isTcp then 2 else 0..] == p
            && U16(src, 0) == if isTcp then |p| % 0x1_0000 else U16(p, 0)
  {
    hide ReadQuestions, ReadRecords;
    var src := Wire(p, isTcp);
    if isTcp {
      assert src[..2] == Bytes16(|p| % 0x1_0000);
      assert U16(src, 0) == U16(src[..2], 0);
    } else {
      assert src == p;
    }
  }

  /** The payload of what is sent. */
  function Payload(sent: seq<byte>, isTcp: bool): seq<byte>
    requires |sent| >= 2
  {
    if isTcp then sent[2..] else sent
  }

  /** Over TCP a message is waited for until there are as many bytes as its length says, which counts two less than there
      will be; the buffer throws without the length itself. */
  lemma PartOfMessage(p: seq<byte>, n: nat)
    requires |p| < 0x1_0000 && n <= |p| + 2
    ensures Framed(Wire(p, true)[..n], true) == if n < 2 then TooShort else if n < |p| then Waiting else At(2)
  {
    if n >= 2 {
      var src := Wire(p, true)[..n];
      assert src[0] == Bytes16(|p|)[0] && src[1] == Bytes16(|p|)[1];
      assert U16(src, 0) == U16(Bytes16(|p|), 0);
    }
  }

  /** At most ten requests of a flow entry are taken. */
  lemma {:induction false} AtMostTen(s: State, src: seq<byte>, now: int, red: nat, round: nat)
    requires IsState(s) && round <= 10
    ensures |AfterRequests(s, src, now, red, round).requests| <= |s.requests| + (10 - round)
    decreases 10 - round
  {
    hide Load, IsState;
    if red < |src| && round < 10 && Load(src[red..]).Loaded? {
      var t := AfterRequest(s, src[red..], now);
      assert |s.requests + {Load(src[red..]).packet.id}| <= |s.requests| + 1;
      AtMostTen(t, src, now, red + Load(src[red..]).mem, round + 1);
    }
  }

  /** An entry that holds one request is one round. */
  lemma OneRequest(s: State, isTcp: bool, p: seq<byte>, now: int)
    requires IsState(s) && Whole(p)
    ensures Updated(s, isTcp, Requester, Wire(p, isTcp), now) == AfterRequest(s, p, now)
  {
    hide Load, AfterRequest, IsState, Wire, Framed;
    WireHolds(p, isTcp);
    var src, red := Wire(p, isTcp), if isTcp then 2 else 0;
    var t := AfterRequest(s, p, now);
    assert AfterRequests(t, src, now, red + Load(p).mem, 1) == t;
  }

  /** What is sent holds the rewritten copy, with the id that was kept for it. */
  lemma SentReads(c: Copy, isTcp: bool)
    requires IsCopy(c)
    ensures var r := Sent(c).packet;
            && |Wire(r, isTcp)| >= |r| > HEADER && Payload(Wire(r, isTcp), isTcp) == r
            && U16(r, 0) == c.id
            && Load(r).Loaded? && LifetimeOffsets(r) == c.ttlIdx
            && SameRecords(Load(c.packet).packet.records, Load(r).packet.records, r)
  {
    hide Rewritten, LifetimeOffsets, SameRecords, AgreeFrom, ReadRecords, ReadQuestions;
    CopyInBounds(c);
    RewrittenLoads(c.packet, c.id, c.decrement);
  }

  /** A hit makes the request's own copy; a lapsed response leaves the earlier one. */
  lemma CopyAfterRequest(s: State, p: seq<byte>, now: int)
    requires IsState(s) && Load(p).Loaded?
    ensures var t := AfterRequest(s, p, now);
            && (t.copy.Some? <==> Hit(s, p, now) || (Lapsed(s, p, now) && s.copy.Some?))
            && (Hit(s, p, now) ==> t.copy == Some(HitCopy(s, p, now)) && t.copy.value.id == Load(p).packet.id)
            && (Lapsed(s, p, now) ==> t.copy == s.copy)
            && !(Hit(s, p, now) && Lapsed(s, p, now))
  {
    hide Load, EntryAlive;
  }

  /** The copy that a hit makes. */
  ghost function HitCopy(s: State, p: seq<byte>, now: int): (c: Copy)
    requires IsState(s) && Load(p).Loaded? && Hit(s, p, now)
    ensures forall requests: set<nat> :: Load(p).packet.id in requests ==> IsCopy(c)
  {
    IdIsShort(p);
    CopyOf(s.cache[KeyOf(Load(p).packet.questions)], Load(p).packet.id, now)
  }

  /** Unless the update throws, a copy is sent if there is one, and stays behind as it was sent. */
  lemma CopyIsSent(s: State, isTcp: bool, side: Side, src: seq<byte>, now: int)
    requires IsState(s) && !Framed(src, isTcp).TooShort?
    ensures var t, r := Updated(s, isTcp, side, src, now).copy, Exchanged(s, isTcp, side, src, now);
            && (r.sent.Some? <==> t.Some?)
            && (t.Some? ==> IsCopy(t.value) && r.state.copy == Some(Sent(t.value)) && r.sent == Some(Wire(Sent(t.value).packet, isTcp)))
            && (t.None? ==> r.state.copy.None?)
  {
    hide Framed, Updated, Sent, IsCopy, Wire;
  }

  /** Something is sent for a request on a hit, the stored response rewritten for it, and on a lapsed response if an
      earlier copy is left, which is rewritten once more. Its id is that of the request exactly if it is a hit, or the
      earlier copy was made for the same id. */
  lemma RequestAnswered(s: State, isTcp: bool, p: seq<byte>, now: int)
    requires IsState(s) && Whole(p)
    ensures var r, hit, lapsed := Exchanged(s, isTcp, Requester, Wire(p, isTcp), now), Hit(s, p, now), Lapsed(s, p, now);
            && (r.sent.Some? <==> hit || (lapsed && s.copy.Some?))
            && (hit ==> r.state.copy == Some(Sent(HitCopy(s, p, now))))
            && (lapsed && s.copy.Some? ==> IsCopy(s.copy.value) && r.state.copy == Some(Sent(s.copy.value)))
            && (r.sent.Some? ==>
                  && r.state.copy.Some? && r.sent == Some(Wire(r.state.copy.value.packet, isTcp))
                  && |r.sent.value| > HEADER
                  && (U16(Payload(r.sent.value, isTcp), 0) == Load(p).packet.id <==> hit || s.copy.value.id == Load(p).packet.id))
  {
    hide Load, Hit, Lapsed, Framed, Wire, Payload, IsState, AfterRequest, IsCopy, Updated, Sent, Exchanged, HitCopy;
    OneRequest(s, isTcp, p, now);
    CopyAfterRequest(s, p, now);
    WireHolds(p, isTcp);
    CopyIsSent(s, isTcp, Requester, Wire(p, isTcp), now);
    var t := AfterRequest(s, p, now).copy;
    if t.Some? {
      SentReads(t.value, isTcp);
      var sent := Exchanged(s, isTcp, Requester, Wire(p, isTcp), now).sent.value;
      assert Payload(sent, isTcp) == Sent(t.value).packet;
    }
  }

  /** On a hit the client gets the stored response with its own id, each kept lifetime less the age of the response. */
  lemma HitIsRead(s: State, isTcp: bool, p: seq<byte>, now: int)
    requires IsState(s) && Whole(p) && Hit(s, p, now) && s.cache[KeyOf(Load(p).packet.questions)].loadedAt <= now
    ensures var sent := Exchanged(s, isTcp, Requester, Wire(p, isTcp), now).sent; sent.Some? && |sent.value| > HEADER
    ensures var e, sent := s.cache[KeyOf(Load(p).packet.questions)], Exchanged(s, isTcp, Requester, Wire(p, isTcp), now).sent.value;
            var reply := Payload(sent, isTcp);
            && (isTcp ==> U16(sent, 0) == |reply| % 0x1_0000)
            && Load(e.packet).Loaded? && Load(reply).Loaded? && |reply| == |e.packet|
            && AgreeFrom(e.packet, reply, 2, LifetimeOffsets(e.packet))
            && var a, b := Load(e.packet).packet, Load(reply).packet;
               && b.id == Load(p).packet.id && b.flags == a.flags && b.questions == a.questions
               && AgedRecords(a.records, b.records, now - e.loadedAt)
  {
    hide Load, LifetimeOffsets, AgreeFrom, Rewritten, Alive, Exchanged, Wire, AgedRecords;
    var e, id := s.cache[KeyOf(Load(p).packet.questions)], Load(p).packet.id;
    RequestAnswered(s, isTcp, p, now);
    StoredInBounds(e);
    IdIsShort(p);
    DecrementIs(e, id, now);
    CachedReplay(e.packet, id, e.loadedAt, now);
    WireIs(Rewritten(e.packet, id, e.ttlIdx, now - e.loadedAt), isTcp);
  }

  /** The first question of one message is that of the other: the same type, and the same name up to its first zero
      byte. */
  ghost predicate SameQuestion(a: Packet, b: Packet) {
    && a.questions != [] && b.questions != []
    && a.questions[0].rtype == b.questions[0].rtype && SameName(a.questions[0].name, b.questions[0].name)
  }

  /** Over every run: what is sent on a hit answers the question of the request, which asks for an address. */
  lemma HitAnswersQuestion(isTcp: bool, es: seq<Event>, p: seq<byte>, now: int)
    requires Whole(p) && Hit(Run(isTcp, es), p, now)
    ensures var sent := Exchanged(Run(isTcp, es), isTcp, Requester, Wire(p, isTcp), now).sent;
            && sent.Some? && |sent.value| > HEADER
            && var reply := Payload(sent.value, isTcp);
               && Load(reply).Loaded? && SameQuestion(Load(p).packet, Load(reply).packet)
               && (Load(p).packet.questions[0].rtype == 1 || Load(p).packet.questions[0].rtype == 28)
  {
    hide Load, Exchanged, Wire, Payload, SameQuestion, IsState, Hit;
    HitAsked(Run(isTcp, es), isTcp, p, now);
  }

  lemma HitAsked(s: State, isTcp: bool, p: seq<byte>, now: int)
    requires IsState(s) && Whole(p) && Hit(s, p, now)
    ensures var sent := Exchanged(s, isTcp, Requester, Wire(p, isTcp), now).sent;
            && sent.Some? && |sent.value| > HEADER
            && var reply := Payload(sent.value, isTcp);
               && Load(reply).Loaded? && SameQuestion(Load(p).packet, Load(reply).packet)
               && (Load(p).packet.questions[0].rtype == 1 || Load(p).packet.questions[0].rtype == 28)
  {
    hide Load, LifetimeOffsets, AgreeFrom, Rewritten, EntryAlive, Exchanged, Wire, Payload, SameRecords;
    var key := KeyOf(Load(p).packet.questions);
    var e, c := s.cache[key], HitCopy(s, p, now);
    RequestAnswered(s, isTcp, p, now);
    HitCopyIs(s, p, now);
    SentReads(c, isTcp);
    SentAsks(c);
    HitCopyFrom(s, p, now);
    SameKey(Load(p).packet.questions, Load(e.packet).packet.questions);
  }

  lemma SentAsks(c: Copy)
    requires IsCopy(c)
    ensures Load(Sent(c).packet).Loaded? && Load(Sent(c).packet).packet.questions == Load(c.packet).packet.questions
  {
    hide Load, LifetimeOffsets, Rewritten, AgreeFrom, SameRecords;
    CopyInBounds(c);
    RewrittenLoads(c.packet, c.id, c.decrement);
  }

  lemma HitCopyFrom(s: State, p: seq<byte>, now: int)
    requires IsState(s) && Load(p).Loaded? && Hit(s, p, now)
    ensures var key := KeyOf(Load(p).packet.questions);
            && key in s.cache && HitCopy(s, p, now).packet == s.cache[key].packet && KeyOf(Load(s.cache[key].packet).packet.questions) == key
            && IsStored(s.cache[key])
  {
    hide Load;
  }

  // ----- what is stored is found -----

  /** The response holds an address among its answers. */
  predicate AnswersAddress(m: Packet) {
    exists k :: 0 <= k < |m.records| && m.records[k].section == Answer && (m.records[k].rtype == 1 || m.records[k].rtype == 28)
  }

  lemma {:induction false} AnswersAreOf(list: seq<Record>, k: nat)
    requires k < |list| && list[k].section == Answer
    ensures list[k] in Of(list, Answer)
    decreases |list|
  {
    if k < |list| - 1 {
      AnswersAreOf(list[..|list| - 1], k);
    }
  }

  lemma {:induction false} OfAreAnswers(list: seq<Record>, r: Record)
    requires r in Of(list, Answer)
    ensures exists k :: 0 <= k < |list| && list[k] == r && list[k].section == Answer
    decreases |list|
  {
    var n := |list| - 1;
    if r in Of(list[..n], Answer) {
      OfAreAnswers(list[..n], r);
      var k :| 0 <= k < n && list[..n][k] == r && list[..n][k].section == Answer;
      assert list[k] == r;
    } else {
      assert list[n] == r;
    }
  }

  /** A response is stored, under its own question, exactly if its id has been asked for and it answers with an address. */
  lemma StoredExactly(s: State, m: seq<byte>, now: int)
    requires IsState(s) && Load(m).Loaded?
    ensures AfterResponse(s, m, now).cache
         == if Load(m).packet.id in s.requests && AnswersAddress(Load(m).packet)
            then s.cache[KeyOf(Load(m).packet.questions) := Stored(m, LifetimeOffsets(m), now)] else s.cache
  {
    hide Load, LifetimeOffsets, KeyOf;
    var list := Load(m).packet.records;
    if HasAddress(Of(list, Answer)) {
      var k :| 0 <= k < |Of(list, Answer)| && (Of(list, Answer)[k].rtype == TYPE_A || Of(list, Answer)[k].rtype == TYPE_AAAA);
      OfAreAnswers(list, Of(list, Answer)[k]);
    }
    if AnswersAddress(Load(m).packet) {
      var k :| 0 <= k < |list| && list[k].section == Answer && (list[k].rtype == 1 || list[k].rtype == 28);
      AnswersAreOf(list, k);
      assert HasAddress(Of(list, Answer));
    }
  }

  /** An entry that holds one response is one round. */
  lemma OneResponse(s: State, isTcp: bool, m: seq<byte>, now: int)
    requires IsState(s) && Whole(m)
    ensures Updated(s, isTcp, Responder, Wire(m, isTcp), now) == AfterResponse(s, m, now)
  {
    hide Load, AfterResponse, IsState, Wire, Framed;
    WireHolds(m, isTcp);
    var src, red := Wire(m, isTcp), if isTcp then 2 else 0;
    assert |src| == |m| + red by { WireIsLonger(m, isTcp); }
    var t := AfterResponse(s, m, now);
    if Load(m).mem < |src| {
      TooShortToLoad(src[Load(m).mem..]);
    }
    assert AfterResponses(t, src, now, Load(m).mem, 1) == (t, false);
  }

  lemma WireIsLonger(m: seq<byte>, isTcp: bool)
    ensures |Wire(m, isTcp)| == |m| + if isTcp then 2 else 0
  {
  }

  lemma TooShortToLoad(p: seq<byte>)
    requires |p| <= HEADER
    ensures Load(p).NotLoaded?
  {
  }

  /** A response whose id has been asked for and which answers a question for an address with one: until a lifetime has
      run out, a request with that question is a hit. */
  lemma StoredIsHit(isTcp: bool, es: seq<Event>, m: seq<byte>, at: int, p: seq<byte>, now: int)
    requires Whole(m) && Whole(p) && Load(m).packet.id in Run(isTcp, es).requests && AnswersAddress(Load(m).packet)
    requires SameQuestion(Load(p).packet, Load(m).packet)
    requires Load(p).packet.questions[0].rtype == 1 || Load(p).packet.questions[0].rtype == 28
    requires forall k :: 0 <= k < |LifetimeOffsets(m)| ==> LifetimeOffsets(m)[k] + 4 <= |m| && now - at <= U32(m, LifetimeOffsets(m)[k])
    ensures Hit(Run(isTcp, es + [Event(Responder, Wire(m, isTcp), at)]), p, now)
    ensures HitCopy(Run(isTcp, es + [Event(Responder, Wire(m, isTcp), at)]), p, now).packet == m
  {
    hide Load, LifetimeOffsets, Wire, U32, KeyOf, SameName, Framed;
    var s, e := Run(isTcp, es), Event(Responder, Wire(m, isTcp), at);
    assert (es + [e])[..|es|] == es;
    OneResponse(s, isTcp, m, at);
    var k :| 0 <= k < |Load(m).packet.records| && Load(m).packet.records[k].section == Answer
             && (Load(m).packet.records[k].rtype == 1 || Load(m).packet.records[k].rtype == 28);
    AnswersAreOf(Load(m).packet.records, k);
    SameKey(Load(p).packet.questions, Load(m).packet.questions);
    assert HasAddress(Of(Load(m).packet.records, Answer));
    CacheStays(s, isTcp, Responder, Wire(m, isTcp), at);
  }

  lemma CacheStays(s: State, isTcp: bool, side: Side, src: seq<byte>, now: int)
    requires IsState(s)
    ensures Exchanged(s, isTcp, side, src, now).state.cache == Updated(s, isTcp, side, src, now).cache
  {
    hide Updated, Sent, Framed;
  }

  lemma WireIs(p: seq<byte>, isTcp: bool)
    requires |p| > HEADER
    ensures var sent := Wire(p, isTcp);
            |sent| > HEADER && Payload(sent, isTcp) == p && (isTcp ==> U16(sent, 0) == |p| % 0x1_0000)
  {
    assert U16(Bytes16(|p| % 0x1_0000), 0) == |p| % 0x1_0000;
  }

  /** A client that reads by the standard gets the stored answers so too, if all their names are pointers. */
  lemma HitByStandard(s: State, isTcp: bool, p: seq<byte>, now: int)
    requires IsState(s) && Whole(p) && Hit(s, p, now) && s.cache[KeyOf(Load(p).packet.questions)].loadedAt <= now
    requires var e := s.cache[KeyOf(Load(p).packet.questions)]; StandardOf(e.packet).Some? && Fits(e.packet)
    ensures var sent := Exchanged(s, isTcp, Requester, Wire(p, isTcp), now).sent; sent.Some? && |sent.value| > HEADER
    ensures var e, sent := s.cache[KeyOf(Load(p).packet.questions)], Exchanged(s, isTcp, Requester, Wire(p, isTcp), now).sent.value;
            var reply := Payload(sent, isTcp);
            StandardOf(reply).Some? && AgedRecords(StandardOf(e.packet).value.list, StandardOf(reply).value.list, now - e.loadedAt)
  {
    hide Load, LifetimeOffsets, AgreeFrom, Exchanged, Wire, AgedRecords, EntryAlive, StandardOf, Fits, Payload;
    HitIsRead(s, isTcp, p, now);
    var e, sent := s.cache[KeyOf(Load(p).packet.questions)], Exchanged(s, isTcp, Requester, Wire(p, isTcp), now).sent.value;
    var reply := Payload(sent, isTcp);
    StandardReplay(e.packet, reply);
    SameCount(e.packet, reply);
    AgedBeginning(Load(e.packet).packet.records, Load(reply).packet.records, now - e.loadedAt,
                  StandardOf(e.packet).value.list, StandardOf(reply).value.list);
  }

  lemma SameCount(p: seq<byte>, q: seq<byte>)
    requires Load(p).Loaded? && AgreeFrom(p, q, 2, LifetimeOffsets(p)) && StandardOf(p).Some? && StandardOf(q).Some?
    ensures |StandardOf(p).value.list| == |StandardOf(q).value.list|
  {
    hide StandardAnswers, Load, LifetimeOffsets, InOrder, QuestionsEnd;
    LoadedIsLong(p);
    LifetimesInOrder(p);
    InOrderFrom(LifetimeOffsets(p), HEADER + 5, HEADER, |p|);
    AgreeInFront(p, q, LifetimeOffsets(p), HEADER);
  }

  lemma AgedBeginning(a: seq<Record>, b: seq<Record>, age: nat, a': seq<Record>, b': seq<Record>)
    requires AgedRecords(a, b, age) && a' <= a && b' <= b && |a'| == |b'|
    ensures AgedRecords(a', b', age)
  {
    forall k | 0 <= k < |a'| ensures b'[k] == a'[k].(ttl := b'[k].ttl) && b'[k].ttl == if a'[k].ttlAt >= 0 then a'[k].ttl - age else a'[k].ttl {
      assert a'[k] == a[k] && b'[k] == b[k];
    }
  }

  /** A lapsed response after a hit: the reply to the hit is sent again, with the id of the first request and every
      lifetime shortened a second time. */
  lemma StaleAfterHit(s: State, isTcp: bool, p: seq<byte>, at: int, q: seq<byte>, now: int)
    requires IsState(s) && Whole(p) && Whole(q) && Hit(s, p, at)
    requires Lapsed(Exchanged(s, isTcp, Requester, Wire(p, isTcp), at).state, q, now)
    ensures var first := Exchanged(s, isTcp, Requester, Wire(p, isTcp), at);
            var second := Exchanged(first.state, isTcp, Requester, Wire(q, isTcp), now);
            && second.sent.Some? && |second.sent.value| > HEADER
            && var reply, c := Payload(second.sent.value, isTcp), HitCopy(s, p, at);
               && Load(reply).Loaded? && U16(reply, 0) == Load(p).packet.id
               && (forall m :: 0 <= m < |c.ttlIdx| ==>
                     && c.ttlIdx[m] + 4 <= |c.packet| == |reply|
                     && U32(reply, c.ttlIdx[m]) == Less(Less(U32(c.packet, c.ttlIdx[m]), c.decrement), c.decrement))
  {
    hide Load, LifetimeOffsets, Exchanged, Wire, Hit, Lapsed, IsState, Payload, Sent, Less, U32, HitCopy, IsCopy;
    RequestAnswered(s, isTcp, p, at);
    var first := Exchanged(s, isTcp, Requester, Wire(p, isTcp), at);
    RequestAnswered(first.state, isTcp, q, now);
    var c := HitCopy(s, p, at);
    HitCopyIs(s, p, at);
    SentReads(Sent(c), isTcp);
    SentShortens(c);
    SentShortens(Sent(c));
  }

  lemma HitCopyIs(s: State, p: seq<byte>, now: int)
    requires IsState(s) && Load(p).Loaded? && Hit(s, p, now)
    ensures IsCopy(HitCopy(s, p, now)) && HitCopy(s, p, now).id == Load(p).packet.id
  {
    hide Load, LifetimeOffsets, EntryAlive;
    IdIsShort(p);
  }

  lemma SentShortens(c: Copy)
    requires IsCopy(c)
    ensures var r := Sent(c);
            && IsCopy(r) && r.id == c.id && r.ttlIdx == c.ttlIdx && r.decrement == c.decrement && |r.packet| == |c.packet|
            && forall m :: 0 <= m < |c.ttlIdx| ==>
                 c.ttlIdx[m] + 4 <= |c.packet| && U32(r.packet, c.ttlIdx[m]) == Less(U32(c.packet, c.ttlIdx[m]), c.decrement)
  {
    hide Load, LifetimeOffsets, Rewritten, U32, Less, AgreeFrom, SameRecords;
    CopyInBounds(c);
    RewrittenLoads(c.packet, c.id, c.decrement);
  }

  /** Data of the other side sends an earlier copy again as well, and nothing else. */
  lemma ResponseResends(s: State, isTcp: bool, src: seq<byte>, now: int)
    requires IsState(s) && !Framed(src, isTcp).TooShort?
    ensures var r := Exchanged(s, isTcp, Responder, src, now);
            && (r.sent.Some? <==> s.copy.Some?)
            && (s.copy.Some? ==> IsCopy(s.copy.value) && r.state.copy == Some(Sent(s.copy.value))
                                 && r.sent == Some(Wire(Sent(s.copy.value).packet, isTcp)))
  {
    hide Sent, IsCopy, Wire, AfterResponses;
    CopyIsSent(s, isTcp, Responder, src, now);
  }

  // ----- runs -----

  datatype Event = Event(side: Side, src: seq<byte>, now: int)

  ghost function Run(isTcp: bool, es: seq<Event>): (s: State)
    ensures IsState(s)
  {
    hide IsState;
    NewIsState();
    if es == [] then State(map[], {}, OK, None)
    else
      var e := es[|es| - 1];
      Exchanged(Run(isTcp, es[..|es| - 1]), isTcp, e.side, e.src, e.now).state
  }

  /** Whatever is sent after any run loads, with an id that has been asked for. */
  lemma SentWasAsked(isTcp: bool, es: seq<Event>, e: Event)
    ensures var r := Exchanged(Run(isTcp, es), isTcp, e.side, e.src, e.now);
            r.sent.Some? ==>
              && |r.sent.value| > HEADER
              && var reply := Payload(r.sent.value, isTcp);
                 Load(reply).Loaded? && U16(reply, 0) in r.state.requests && r.state.requests == Run(isTcp, es + [e]).requests
  {
    hide Load, IsState, Sent, Wire, Payload, IsCopy, Framed, Updated, Exchanged;
    var s := Run(isTcp, es);
    assert (es + [e])[..|es|] == es;
    if Exchanged(s, isTcp, e.side, e.src, e.now).sent.Some? {
      var t := Updated(s, isTcp, e.side, e.src, e.now);
      SentIsCopy(s, isTcp, e);
      SentReads(t.copy.value, isTcp);
    }
  }

  lemma SentIsCopy(s: State, isTcp: bool, e: Event)
    requires IsState(s) && Exchanged(s, isTcp, e.side, e.src, e.now).sent.Some?
    ensures var t, r := Updated(s, isTcp, e.side, e.src, e.now), Exchanged(s, isTcp, e.side, e.src, e.now);
            && t.copy.Some? && IsCopy(t.copy.value) && t.copy.value.id in r.state.requests
            && r.sent == Some(Wire(Sent(t.copy.value).packet, isTcp))
  {
    hide Sent, Wire, IsCopy, Framed, Updated;
  }

  // ----- several responses in one entry -----

  /** Of responses of the same length in one entry only the first two are taken, whatever follows them. */
  lemma OnlyTwoResponses(s: State, src: seq<byte>, n: nat, now: int)
    requires IsState(s) && n < |src| && Load(src).Loaded? && Load(src).mem == n
    requires Load(src[n..]).Loaded? && Load(src[n..]).mem == n
    ensures AfterResponses(s, src, now, 0, 0).0 == AfterResponse(AfterResponse(s, src, now), src[n..], now)
  {
    hide Load, IsState, AfterResponse;
    assert src[0..] == src;
    TakenAgain(AfterResponse(s, src, now), src, n, now, 1);
  }

  lemma {:induction false} TakenAgain(s: State, src: seq<byte>, n: nat, now: int, round: nat)
    requires IsState(s) && n < |src| && Load(src[n..]).Loaded? && Load(src[n..]).mem == n && round < ROUNDS
    ensures AfterResponses(s, src, now, n, round).0 == AfterResponse(s, src[n..], now)
    decreases ROUNDS - round
  {
    hide Load, IsState, AfterResponse;
    var t := AfterResponse(s, src[n..], now);
    if round + 1 < ROUNDS {
      TakenAgain(t, src, n, now, round + 1);
      StoredOnce(s, src[n..], now);
    }
  }

  lemma StoredOnce(s: State, p: seq<byte>, now: int)
    requires IsState(s) && Load(p).Loaded?
    ensures AfterResponse(AfterResponse(s, p, now), p, now) == AfterResponse(s, p, now)
  {
    hide Load, IsState;
  }
}
