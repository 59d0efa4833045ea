/** The inspector that answers requests from stored responses. */
module DnsInspector {
  import opened Bits
  import opened DnsMessage
  import opened DnsPacket
  import opened DnsLoader
  import opened DnsCache
  import opened DnsExchange
  import opened Wrappers

  datatype Outcome = Done | UnknownId | Thrown

  /** `DNS_Inspector` with the cache it shares. */
  class Inspector {
    const isTcp: bool
    var cache: map<Key, Stored>
    var requests: set<nat>
    var verdict: Verdict
    var reply: array?<byte>
    var replyId: nat
    var replyTtlIdx: seq<nat>
    var replyDecrement: nat

    constructor (isTcp: bool)
      ensures Valid() && State() == DnsCache.State(map[], {}, OK, None) && this.isTcp == isTcp && reply == null
    {
      this.isTcp := isTcp;
      cache, requests, verdict, reply := map[], {}, OK, null;
      replyId, replyTtlIdx, replyDecrement := 0, [], 0;
    }

    ghost function State(): DnsCache.State
      reads this, reply
    {
      DnsCache.State(cache, requests, verdict,
        if reply == null then None else Some(Copy(reply[..], replyId, replyTtlIdx, replyDecrement)))
    }

    ghost predicate Valid()
      reads this, reply
    {
      IsState(State())
    }

    /** `update` */
    method Update(side: Side, src: seq<byte>, now: int) returns (outcome: Outcome)
      requires Valid()
      modifies this
      ensures Valid() && State() == Updated(old(State()), isTcp, side, src, now)
      ensures reply == old(reply) || reply == null || fresh(reply)
      ensures outcome == Thrown <==> Framed(src, isTcp).TooShort?
      ensures outcome == UnknownId <==> side == Responder && Framed(src, isTcp).At? && AfterResponses(old(State()), src, now, Framed(src, isTcp).red, 0).1
    {
      hide AfterRequests, AfterResponses, IsState;
      outcome := Done;
      var red := 0;
      if isTcp {
        if |src| < 2 {
          return Thrown;
        }
        if |src| < U16(src, 0) {
          return;
        }
        red := 2;
      }
      if side == Requester {
        TakeRequests(src, now, red);
      } else {
        var failed := TakeResponses(src, now, red);
        outcome := if failed then UnknownId else Done;
      }
    }

    method TakeRequests(src: seq<byte>, now: int, start: nat)
      requires Valid()
      modifies this
      ensures Valid() && State() == AfterRequests(old(State()), src, now, start, 0)
      ensures reply == old(reply) || reply == null || fresh(reply)
    {
      hide Load, AfterRequest, IsState;
      var red: nat, round := start, 0;
      while red < |src| && round < ROUNDS
        invariant Valid() && round <= ROUNDS
        invariant AfterRequests(old(State()), src, now, start, 0) == AfterRequests(State(), src, now, red, round)
        invariant reply == old(reply) || reply == null || fresh(reply)
        decreases ROUNDS - round
      {
        var consumed := TakeRequest(src[red..], now);
        if consumed.None? {
          return;
        }
        red, round := red + consumed.value, round + 1;
      }
    }

    /** One round for a request: the stored response is copied if it is alive. */
    method TakeRequest(src: seq<byte>, now: int) returns (consumed: Option<nat>)
      requires Valid()
      modifies this
      ensures Valid() && consumed == if Load(src).Loaded? then Some(Load(src).mem) else None
      ensures State() == if Load(src).Loaded? then AfterRequest(old(State()), src, now) else old(State())
      ensures reply == old(reply) || reply == null || fresh(reply)
    {
      hide Load, LifetimeOffsets;
      var message := new Message();
      consumed := message.Load(src, now);
      if consumed.None? {
        return;
      }
      requests := requests + {message.id};
      if AsksAddress(message.questions) {
        var key := KeyOf(message.questions);
        if key in cache {
          StoredInBounds(cache[key]);
          var alive := CheckLifetimes(cache[key], now);
          if alive {
            verdict := CACHED;
            CopyStored(cache[key], message.id, now);
          }
        } else {
          verdict := OK;
          reply := null;
        }
      } else if reply != null {
        reply := null;
        verdict := OK;
      }
      assert State() == AfterRequest(old(State()), src, now);
    }

    method CopyStored(e: Stored, id: nat, now: int)
      modifies this`reply, this`replyId, this`replyTtlIdx, this`replyDecrement
      ensures fresh(reply) && State() == old(State()).(copy := Some(CopyOf(e, id, now)))
    {
      var copy := new byte[|e.packet|];
      forall i | 0 <= i < |e.packet| {
        copy[i] := e.packet[i];
      }
      assert copy[..] == e.packet;
      reply := copy;
      replyId, replyTtlIdx, replyDecrement := id, e.ttlIdx, (now - e.loadedAt) % WORD;
    }

    method CheckLifetimes(e: Stored, now: int) returns (alive: bool)
      requires forall k :: 0 <= k < |e.ttlIdx| ==> e.ttlIdx[k] + 4 <= |e.packet|
      ensures alive == Alive(e.packet, e.ttlIdx, e.loadedAt, now)
    {
      alive := true;
      for i := 0 to |e.ttlIdx|
        invariant alive <==> forall k :: 0 <= k < i ==> now <= U32(e.packet, e.ttlIdx[k]) + e.loadedAt
      {
        var ttl := U32(e.packet, e.ttlIdx[i]);
        if now > ttl + e.loadedAt {
          alive := false;
        }
      }
    }

    method TakeResponses(src: seq<byte>, now: int, start: nat) returns (failed: bool)
      requires Valid()
      modifies this`cache
      ensures Valid() && (State(), failed) == AfterResponses(old(State()), src, now, start, 0)
    {
      hide Load, AfterResponse, IsState;
      failed := false;
      var red: nat, round := start, 0;
      while red < |src| && round < ROUNDS
        invariant Valid() && round <= ROUNDS && requests == old(requests)
        invariant var all, rest := AfterResponses(old(State()), src, now, start, 0), AfterResponses(State(), src, now, red, round);
                  all == (rest.0, failed || rest.1)
        decreases ROUNDS - round
      {
        var consumed, known := TakeResponse(src[red..], now);
        if consumed.None? {
          return;
        }
        failed := failed || !known;
        red, round := consumed.value, round + 1;
      }
    }

    /** One round for a response: it is stored when its id has been asked for and it holds an address. */
    method TakeResponse(src: seq<byte>, now: int) returns (consumed: Option<nat>, known: bool)
      requires Valid()
      modifies this`cache
      ensures Valid() && consumed == if Load(src).Loaded? then Some(Load(src).mem) else None
      ensures State() == if Load(src).Loaded? then AfterResponse(old(State()), src, now) else old(State())
      ensures known <==> Load(src).Loaded? && Load(src).packet.id in requests
    {
      hide Load;
      var message := new Message();
      consumed := message.Load(src, now);
      known := false;
      if consumed.None? {
        return;
      }
      if message.id in requests {
        known := true;
        if HasAddress(message.answers) {
          cache := cache[KeyOf(message.questions) := Stored(src, message.ttlIdx, message.loadedAt)];
        }
      }
    }

    /** `apply_verdict`: the copy is rewritten in place and sent. */
    method ApplyVerdict() returns (sent: Option<seq<byte>>)
      requires Valid()
      modifies reply
      ensures Valid() && State().copy.Some? == old(State()).copy.Some?
      ensures old(State()).copy.None? ==> sent.None? && State() == old(State())
      ensures old(State()).copy.Some? ==>
                var c := Sent(old(State()).copy.value);
                State() == old(State()).(copy := Some(c)) && sent == Some(Wire(c.packet, isTcp))
    {
      hide Load, LifetimeOffsets, Aged, WithId, Sent, IsCopy;
      if reply == null {
        return None;
      }
      ghost var c := State().copy.value;
      SentIs(c);
      PutId(reply, replyId);
      Shorten(reply, replyTtlIdx, replyDecrement);
      sent := Some(Wire(reply[..], isTcp));
    }

    /** What the proxy does with data of a flow and this inspector. */
    method Inspect(side: Side, src: seq<byte>, now: int) returns (sent: Option<seq<byte>>)
      requires Valid()
      modifies this, reply
      ensures Valid() && Exchange(State(), sent) == Exchanged(old(State()), isTcp, side, src, now)
    {
      hide Updated, Framed, IsCopy, IsStored, Sent;
      var outcome := Update(side, src, now);
      sent := None;
      if outcome != Thrown && verdict == CACHED {
        sent := ApplyVerdict();
      }
    }
  }

  /** A request that meets a stored, living response is answered with it. */
  method AnswerFromCache(inspector: Inspector, p: seq<byte>, now: int) returns (reply: seq<byte>)
    requires inspector.Valid() && Whole(p) && Hit(inspector.State(), p, now)
    requires inspector.cache[KeyOf(Load(p).packet.questions)].loadedAt <= now
    modifies inspector, inspector.reply
    ensures inspector.Valid()
    ensures var e := old(inspector.cache)[KeyOf(Load(p).packet.questions)];
            && Load(e.packet).Loaded? && Load(reply).Loaded? && |reply| == |e.packet|
            && var a, b := Load(e.packet).packet, Load(reply).packet;
               && b.id == Load(p).packet.id && b.flags == a.flags && b.questions == a.questions
               && AgedRecords(a.records, b.records, now - e.loadedAt)
    ensures SameQuestion(Load(p).packet, Load(reply).packet)
  {
    hide Load, Exchanged, IsState, AgedRecords, AgreeFrom, EntryAlive, SameQuestion;
    HitAsked(inspector.State(), inspector.isTcp, p, now);
    HitIsRead(inspector.State(), inspector.isTcp, p, now);
    var sent := inspector.Inspect(Requester, Wire(p, inspector.isTcp), now);
    reply := Payload(sent.value, inspector.isTcp);
  }

  method PutId(b: array<byte>, id: nat)
    requires b.Length >= 2 && id < 0x1_0000
    modifies b
    ensures b[..] == WithId(old(b[..]), id)
  {
    b[0] := id / 0x100;
    b[1] := id % 0x100;
    assert b[2..] == old(b[2..]);
    assert b[..] == b[..2] + b[2..];
  }

  /** The loop over the lifetimes. */
  method Shorten(b: array<byte>, os: seq<nat>, age: nat)
    requires forall k :: 0 <= k < |os| ==> os[k] + 4 <= b.Length
    modifies b
    ensures b[..] == Aged(old(b[..]), os, age, |os|)
  {
    hide Aged, Less, Overwritten, U32;
    ghost var start := b[..];
    AgedSteps(start, os, age, 0);
    for n := 0 to |os|
      invariant b[..] == Aged(start, os, age, n)
    {
      var ttl := U32(b[..], os[n]);
      AgedSteps(start, os, age, n + 1);
      PutLifetime(b, os[n], Less(ttl, age));
    }
  }

  lemma AgedSteps(p: seq<byte>, os: seq<nat>, age: nat, n: nat)
    requires n <= |os| && forall k :: 0 <= k < |os| ==> os[k] + 4 <= |p|
    ensures n == 0 ==> Aged(p, os, age, n) == p
    ensures n > 0 ==>
              var r := Aged(p, os, age, n - 1);
              Aged(p, os, age, n) == Overwritten(r, os[n - 1], Less(U32(r, os[n - 1]), age))
  {
  }

  lemma Bytes32Are(n: nat)
    requires n < WORD
    ensures Bytes32(n) == [n / 0x100_0000, n / 0x1_0000 % 0x100, n / 0x100 % 0x100, n % 0x100]
  {
    var a, b, c, d := n / 0x100_0000, n / 0x1_0000 % 0x100, n / 0x100 % 0x100, n % 0x100;
    DigitsOf(n, a, b, c, d);
  }

  /** A number of four digits to the base 256. */
  lemma DigitsOf(n: nat, a: nat, b: nat, c: nat, d: nat)
    requires n < WORD && a == n / 0x100_0000 && b == n / 0x1_0000 % 0x100 && c == n / 0x100 % 0x100 && d == n % 0x100
    ensures n / 0x1_0000 == a * 0x100 + b && n % 0x1_0000 == c * 0x100 + d
  {
  }

  method PutLifetime(b: array<byte>, i: nat, ttl: nat)
    requires i + 4 <= b.Length && ttl < WORD
    modifies b
    ensures b[..] == Overwritten(old(b[..]), i, ttl)
  {
    hide Bytes32;
    Bytes32Are(ttl);
    b[i] := ttl / 0x100_0000;
    b[i + 1] := ttl / 0x1_0000 % 0x100;
    b[i + 2] := ttl / 0x100 % 0x100;
    b[i + 3] := ttl % 0x100;
  }

  lemma SentIs(c: Copy)
    requires IsCopy(c)
    ensures |c.packet| > HEADER && forall k :: 0 <= k < |c.ttlIdx| ==> HEADER <= c.ttlIdx[k] && c.ttlIdx[k] + 4 <= |c.packet|
    ensures c.id < 0x1_0000
    ensures Sent(c) == c.(packet := Aged(WithId(c.packet, c.id), c.ttlIdx, c.decrement, |c.ttlIdx|))
    ensures IsCopy(Sent(c))
  {
    hide Load, LifetimeOffsets;
    CopyInBounds(c);
  }
}
