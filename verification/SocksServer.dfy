/** The SOCKS server as an object: its methods make the steps of `Socks` on its fields and keep its invariant, and
    serving a run of events ends as every run of the machine does. */
module SocksServer {
  import opened Bits
  import opened Socks
  import opened SocksBytes
  import opened Wrappers

  /** `socksServerCX` */
  class ServerCX {
    const config: Config
    var state: Phase
    var request: Request
    var socksError: Error
    var failed: bool
    var policy: Policy
    var dns: Dns
    var nonlocalDst: Target
    var left: Option<Target>
    var right: Option<Target>
    var writebuf: seq<byte>
    ghost var replies: seq<seq<byte>>
    ghost var queries: seq<Asked>

    ghost function View(): Server
      reads this
    {
      Server(state, request, socksError, failed, policy, dns, nonlocalDst, left, right, writebuf, replies, queries)
    }

    ghost predicate Valid()
      reads this
    {
      Inv(View())
    }

    /** Both peers are made for the port that was asked for. */
    ghost predicate PeersReady()
      reads this
    {
      left.Some? && right == left && left.value == Target(nonlocalDst.host, request.port)
    }

    constructor (config: Config)
      ensures Valid() && View() == Created && this.config == config
    {
      this.config := config;
      state, request := INIT, Request(0, 0, IPV4, [0, 0, 0, 0], [], 0);
      socksError, failed, policy := NONE, false, PENDING;
      dns := Dns(false, false, false);
      nonlocalDst, left, right := Target(Unset, 0), None, None;
      writebuf, replies, queries := [], [], [];
      new;
      CreatedKeeps();
    }

    /** `process_in`: reading never replies and never decides; it writes at most the greeting, and when it comes to wait
        for the policy of a CONNECT, both peers are ready. */
    method ProcessIn(data: seq<byte>, l: Lookup)
      requires Valid()
      modifies this
      ensures Valid() && View() == Step(old(View()), Received(data, l), config)
      ensures replies == old(replies) && policy == old(policy)
      ensures writebuf == old(writebuf) || (old(state) == INIT && state == WAIT_REQUEST && writebuf == [5, 0])
      ensures old(state) != WAIT_POLICY && state == WAIT_POLICY && (request.version == 4 || request.cmd == CONNECT) ==> PeersReady()
    {
      hide Requested, Inv, Taken;
      ghost var s := View();
      ReadKeeps(s, data, config, l);
      ReadOnlyReads(s, data, config, l);
      match state {
        case INIT => ProcessHello(data, l);
        case HELLO_SENT =>
        case WAIT_REQUEST => ProcessRequest(data, l);
        case _ =>
      }
      WaitsPrepared(View());
    }

    /** `process_socks_hello_tcp` */
    method ProcessHello(data: seq<byte>, l: Lookup)
      modifies this
      ensures View() == Greeted(old(View()), data, config, l)
    {
      hide Requested;
      if |data| < 3 {
        return;
      }
      request := request.(version := data[0]);
      var nmethods := data[1];
      if |data| < 2 + nmethods as nat {
        return;
      }
      if request.version == 5 {
        writebuf := writebuf + [5, 0];
        state := HELLO_SENT;
        state := WAIT_REQUEST;
      } else if request.version == 4 {
        ProcessRequest(data, l);
      } else {
        failed := true;
      }
    }

    /** `process_socks_request` */
    method ProcessRequest(data: seq<byte>, l: Lookup)
      modifies this
      ensures View() == Requested(old(View()), data, config, l)
    {
      hide Taken;
      socksError := NONE;
      if state == DNS_QUERY_SENT {
        return;
      }
      var e := TakeRequest(data, l);
      socksError := e;
      if socksError != NONE {
        failed := true;
      }
    }

    /** The part of `process_socks_request` in which a read behind the end is malformed data. */
    method TakeRequest(data: seq<byte>, l: Lookup) returns (e: Error)
      modifies this
      ensures (View(), e) == Taken(old(View()), data, config, l)
    {
      hide Connect4, Request5;
      if |data| == 0 {
        return MALFORMED_DATA;
      }
      request := request.(version := data[0]);
      if |data| == 1 {
        return MALFORMED_DATA;
      }
      request := request.(cmd := data[1]);
      if request.version == 5 {
        if |data| < 10 {
          return NONE;
        }
        e := HandleVersion5(data, l);
      } else if request.version == 4 {
        e := HandleConnect4(data);
      } else {
        e := UNSUPPORTED_VERSION;
      }
    }

    method HandleVersion5(data: seq<byte>, l: Lookup) returns (e: Error)
      requires |data| >= 10
      modifies this
      ensures (View(), e) == Request5(old(View()), data, config, l)
    {
      hide Connect5, Parse5;
      if request.cmd == CONNECT {
        e := HandleConnect5(data, l);
      } else if request.cmd == UDP_ASSOCIATE {
        var thrown;
        e, thrown := ParseRequest(data);
        if !thrown {
          state := WAIT_POLICY;
        }
      } else {
        e := UNSUPPORTED_METHOD;
      }
    }

    /** `handle4_connect` */
    method HandleConnect4(data: seq<byte>) returns (e: Error)
      modifies `request, `state, `nonlocalDst, `left, `right
      ensures (View(), e) == Connect4(old(View()), data)
    {
      if |data| < 8 {
        return MALFORMED_DATA;
      }
      state := REQ_RECEIVED;
      request := request.(atype := IPV4, port := U16(data, 2), addr := data[4..8]);
      nonlocalDst := Target(Octets(data[4..8]), request.port);
      PrepareTarget();
      e := NONE;
    }

    /** `socks5_parse_request`; `thrown` tells of a read behind the end. */
    method ParseRequest(data: seq<byte>) returns (e: Error, thrown: bool)
      requires |data| >= 10
      modifies `request, `state, `nonlocalDst
      ensures (View(), e, thrown) == Parse5(old(View()), data)
    {
      thrown := false;
      var kind := data[3];
      if kind != 1 && kind != 4 && kind != 3 {
        return UNSUPPORTED_ATYPE, false;
      }
      state := REQ_RECEIVED;
      if kind == 3 {
        request := request.(atype := FQDN);
        var size := data[4] as nat;
        if size + 4 + 2 >= |data| {
          return MALFORMED_DATA, false;
        }
        request := request.(name := data[5..5 + size], port := U16(data, 5 + size));
      } else {
        request := request.(atype := IPV4);
        if kind == 1 {
          request := request.(addr := data[4..8], port := U16(data, 8));
          nonlocalDst := Target(Octets(data[4..8]), request.port);
        } else {
          request := request.(addr := [0, 0, 0, 0]);
          if |data| < 22 {
            return MALFORMED_DATA, true;
          }
          request := request.(port := U16(data, 20));
          nonlocalDst := Target(Octets(data[4..20]), request.port);
        }
      }
      e := NONE;
    }

    /** `handle5_connect` */
    method HandleConnect5(data: seq<byte>, l: Lookup) returns (e: Error)
      requires |data| >= 10
      modifies this
      ensures (View(), e) == Connect5(old(View()), data, config, l)
    {
      hide Parse5, ConnectName;
      var thrown;
      e, thrown := ParseRequest(data);
      if e == NONE {
        if request.atype == FQDN {
          e := HandleConnectName(l);
        } else {
          PrepareTarget();
        }
      }
    }

    /** `handle5_connect_fqdn` */
    method HandleConnectName(l: Lookup) returns (e: Error)
      modifies this
      ensures (View(), e) == ConnectName(old(View()), config, l)
    {
      if request.name == [] {
        return MALFORMED_DATA;
      }
      nonlocalDst := nonlocalDst.(port := request.port);
      if l.isAddress {
        nonlocalDst := nonlocalDst.(host := Text(request.name));
        PrepareTarget();
      } else if !config.asyncDns {
        var _ := ProcessDnsResponse(l.resolved);
        PrepareTarget();
      } else {
        var query := A;
        if config.carrierIpv6 {
          query := AAAA;
        } else if config.preferIpv6 {
          query := AAAA;
        }
        SetupDnsAsync(query, l.socket);
      }
      e := NONE;
    }

    /** `setup_target` and `wait_policy` */
    method PrepareTarget()
      modifies `left, `right, `state
      ensures View() == SetupTarget(old(View()))
    {
      left := Some(nonlocalDst);
      right := Some(nonlocalDst);
      state := WAIT_POLICY;
    }

    /** `setup_dns_async` */
    method SetupDnsAsync(query: Query, socket: int)
      modifies `queries, `dns, `state, `failed
      ensures View() == SetupDns(old(View()), query, socket)
    {
      if socket != 0 {
        queries := queries + [Asked(query, request.name)];
        if query == AAAA {
          dns := dns.(testedAaaa := true);
        } else {
          dns := dns.(testedA := true);
        }
        dns := dns.(querying := true);
        state := DNS_QUERY_SENT;
      } else {
        failed := true;
      }
    }

    /** `process_dns_response` */
    method ProcessDnsResponse(address: Option<seq<byte>>) returns (ok: bool)
      modifies `nonlocalDst, `left, `right, `state
      ensures View() == DnsResponse(old(View()), address) && ok == address.Some?
    {
      if address.None? {
        return false;
      }
      nonlocalDst := nonlocalDst.(host := Text(address.value));
      PrepareTarget();
      ok := true;
    }

    /** `dns_response_callback`: no answer replies; an address makes both peers ready for it and the port asked for, an
        answer without one leaves the other kind of query to be tried. */
    method DnsResponseCallback(red: int, address: Option<seq<byte>>)
      requires Valid() && dns.querying
      modifies this
      ensures Valid() && View() == Step(old(View()), Answered(red, address), config)
      ensures !dns.querying && replies == old(replies) && writebuf == old(writebuf) && queries == old(queries)
      ensures red > 0 && address.Some? ==> state == WAIT_POLICY && PeersReady() && nonlocalDst.host == Text(address.value)
      ensures red > 0 && address.None? ==> state == DNS_RESP_FAILED
      ensures red <= 0 ==> failed
    {
      AnsweredKeeps(View(), red, address);
      AskedForPort(View());
      hide Inv;
      dns := dns.(querying := false);
      state := DNS_RESP_RECV;
      if red <= 0 {
        failed := true;
      } else {
        var ok := ProcessDnsResponse(address);
        if !ok {
          state := DNS_RESP_FAILED;
        }
      }
    }

    /** `new_message`: the proxy is told of a pending policy before there is a reply, and of the hand-over after it. */
    method IsNewMessage() returns (r: bool)
      requires Valid()
      ensures r && replies == [] <==> PolicyPending(View())
      ensures r && replies != [] <==> state == HANDOFF
    {
      if state == WAIT_POLICY && policy == PENDING {
        return true;
      }
      r := state == HANDOFF;
    }

    /** `verdict` on a pending policy: one reply is written, of success exactly for ACCEPT. */
    method Decide(p: Policy)
      requires Valid() && PolicyPending(View())
      modifies this
      ensures Valid() && View() == Step(old(View()), Decided(p), config)
      ensures p != PENDING ==>
                && state == REQRES_SENT && |replies| == 1 && writebuf == old(writebuf) + replies[0]
                && (IsSuccess(replies[0]) <==> p == ACCEPT)
      ensures p == PENDING ==> replies == [] && writebuf == old(writebuf)
    {
      JudgedKeeps(View(), p);
      NotYetReplied(View());
      ReplyCode(View().(verdict := p, phase := POLICY_RECEIVED));
      hide Inv, ReplyBytes, IsSuccess;
      Verdict(p);
    }

    /** `verdict`, whenever it comes. */
    method Verdict(p: Policy)
      modifies `policy, `writebuf, `replies, `state
      ensures View() == Judged(old(View()), p)
    {
      policy := p;
      state := POLICY_RECEIVED;
      if policy == ACCEPT || policy == REJECT {
        ProcessReply();
      }
    }

    /** `process_socks_reply` */
    method ProcessReply()
      modifies `writebuf, `replies, `state
      ensures View() == Replied(old(View()))
    {
      hide ReplyBytes;
      match request.version
      case 4 => ReplyV4();
      case 5 => ReplyV5();
      case _ =>
    }

    /** `process_socks_reply_v4` */
    method ReplyV4()
      requires request.version == 4
      modifies `writebuf, `replies, `state
      ensures var reply := ReplyBytes(old(View()));
              writebuf == old(writebuf) + reply && replies == old(replies) + [reply] && state == REQRES_SENT
    {
      ghost var before := View();
      var code := if policy == ACCEPT then 90 else 91;
      var b: seq<byte> := [0, code];
      b := b + Bytes16(request.port);
      b := b + request.addr;
      assert b == ReplyBytes(before);
      Send(b);
    }

    /** `process_socks_reply_v5` */
    method ReplyV5()
      requires request.version == 5
      modifies `writebuf, `replies, `state
      ensures View() == Replied(old(View()))
    {
      hide ReplyBytes;
      var response := Response5();
      Send(response);
    }

    method Response5() returns (response: seq<byte>)
      requires request.version == 5
      ensures response == ReplyBytes(View())
    {
      response := [5, if policy == ACCEPT then 0 else 2, 0];
      if request.cmd == CONNECT {
        if request.atype == IPV4 {
          response := response + [1];
          response := response + request.addr;
        } else {
          var name := NameOfRequest();
          response := response + name;
        }
        response := response + Bytes16(request.port);
      } else if request.cmd == UDP_ASSOCIATE {
        response := response + ([1, 0, 0, 0, 0] + Bytes16(1080));
      }
    }

    /** The type, the length and the characters of the name. */
    method NameOfRequest() returns (bytes: seq<byte>)
      ensures bytes == [3, |request.name| % 0x100] + request.name
    {
      bytes := [3];
      bytes := bytes + [|request.name| % 0x100];
      for i := 0 to |request.name|
        invariant bytes == [3, |request.name| % 0x100] + request.name[..i]
      {
        bytes := bytes + [request.name[i]];
      }
    }

    method Send(reply: seq<byte>)
      modifies `writebuf, `replies, `state
      ensures writebuf == old(writebuf) + reply && replies == old(replies) + [reply] && state == REQRES_SENT
    {
      writebuf := writebuf + reply;
      replies := replies + [reply];
      state := REQRES_SENT;
    }

    /** `pre_write`: the hand-over begins only when the one reply is flushed, and no kind of query is sent twice. */
    method PreWrite(flushed: bool, socket: int)
      requires Valid()
      modifies this
      ensures Valid() && View() == Step(old(View()), Written(flushed, socket), config)
      ensures state == HANDOFF && old(state) != HANDOFF ==> flushed && old(state) == REQRES_SENT && |replies| == 1
      ensures replies == old(replies) && writebuf == old(writebuf) && forall q: Query :: Count(queries, q) <= 1
    {
      hide Inv;
      WritableKeeps(View(), flushed, config, socket);
      EachOnce(Writable(View(), flushed, config, socket));
      SentIsReplied(View());
      if state == REQRES_SENT {
        if flushed {
          state := HANDOFF;
        }
      } else if state == DNS_RESP_FAILED {
        if config.mixedIpVersions {
          if !dns.testedAaaa {
            dns := dns.(testedAaaa := true);
            SetupDnsAsync(AAAA, socket);
          } else if !dns.testedA {
            dns := dns.(testedA := true);
            SetupDnsAsync(A, socket);
          }
        } else {
          failed := true;
        }
      }
    }

    /** `SocksProxy::on_left_message`, called when there is a new message: it leaves more than one reply exactly when it
        is told of the hand-over of a request that had failed, and keeps the invariant otherwise. */
    method OnLeftMessage(accept: bool)
      requires Valid() && NewMessage(View())
      modifies this
      ensures View() == LeftMessage(old(View()), accept)
      ensures |replies| > 1 <==> old(state) == HANDOFF && old(socksError) != NONE && old(socksError) != MALFORMED_DATA
      ensures |replies| <= 1 ==> Valid()
      ensures |replies| == 1 && old(replies) == [] ==> (IsSuccess(replies[0]) <==> policy == ACCEPT)
    {
      SecondReply(View(), accept);
      LeftMessageKeeps(View(), accept);
      hide Judged, Inv;
      if socksError != NONE {
        if socksError == MALFORMED_DATA {
          failed := true;
        } else {
          Verdict(REJECT);
        }
      } else if state == WAIT_POLICY {
        var ok := false;
        if request.cmd == CONNECT {
          ok := accept;
        } else if request.cmd == UDP_ASSOCIATE {
          ok := true;
        }
        Verdict(if ok then ACCEPT else REJECT);
      } else if state == HANDOFF {
        state := ZOMBIE;
      }
    }
  }

  /** A new server is driven through a run of events. When it comes to the hand-over, the client has got exactly one
      reply, behind at most the greeting, and of success exactly if the policy accepted; both peers are ready for a
      CONNECT; and neither kind of query has been sent twice. */
  method Serve(es: seq<Event>, config: Config) returns (cx: ServerCX)
    requires IsRun(es, config)
    ensures fresh(cx) && cx.Valid() && cx.View() == After(es, config)
    ensures cx.state == HANDOFF ==>
              && |cx.replies| == 1 && (cx.writebuf == cx.replies[0] || cx.writebuf == [5, 0] + cx.replies[0])
              && (IsSuccess(cx.replies[0]) <==> cx.policy == ACCEPT)
              && (cx.request.version == 4 || cx.request.cmd == CONNECT ==> cx.PeersReady())
    ensures |cx.replies| <= 1 && forall q: Query :: Count(cx.queries, q) <= 1
    ensures cx.state == HANDOFF && (cx.request.version == 4 || cx.request.cmd == CONNECT) ==>
              Delivered(cx.View(), LastTaken(es, config), Answers(es), config)
  {
    hide Inv, Step, Count, ReplyBytes, IsSuccess, Delivered, LastTaken, Answers;
    cx := new ServerCX(config);
    assert es[..0] == [];
    for i := 0 to |es|
      invariant fresh(cx) && cx.config == config && cx.Valid() && cx.View() == After(es[..i], config)
    {
      RunUpTo(es, config, i);
      Handle(cx, es[i]);
    }
    assert es[..|es|] == es;
    Handoff(es, config);
    HandoffBytes(es, config);
    EachOnce(cx.View());
  }

  method Handle(cx: ServerCX, e: Event)
    requires cx.Valid() && Enabled(cx.View(), e)
    modifies cx
    ensures cx.Valid() && cx.View() == Step(old(cx.View()), e, cx.config)
  {
    hide Inv, Read, Writable, Judged, DnsAnswered;
    match e
    case Received(data, lookup) => cx.ProcessIn(data, lookup);
    case Written(flushed, socket) => cx.PreWrite(flushed, socket);
    case Answered(red, address) => cx.DnsResponseCallback(red, address);
    case Decided(policy) => cx.Decide(policy);
    case HandedOff =>
      HandedOffKeeps(cx.View());
      cx.state := ZOMBIE;
  }

  // ----- what the invariant says to callers -----

  /** A run leads from each of its events to the next. */
  lemma {:induction false} RunUpTo(es: seq<Event>, c: Config, i: nat)
    requires IsRun(es, c) && i < |es|
    ensures Enabled(After(es[..i], c), es[i]) && After(es[..i + 1], c) == Step(After(es[..i], c), es[i], c)
  {
    hide Enabled, Step;
    var n := |es| - 1;
    if i < n {
      RunUpTo(es[..n], c, i);
      assert es[..n][..i] == es[..i] && es[..n][..i + 1] == es[..i + 1];
    } else {
      assert es[..i + 1] == es && es[..i + 1][..i] == es[..i];
    }
  }

  /** Neither a reply nor a verdict comes of it. */
  predicate Quiet(s: Server, t: Server) {
    t.replies == s.replies && t.verdict == s.verdict && t.out == s.out
  }

  lemma ReadOnlyReads(s: Server, p: seq<byte>, c: Config, l: Lookup)
    requires Inv(s)
    ensures var t := Read(s, p, c, l);
            && t.replies == s.replies && t.verdict == s.verdict
            && (t.out == s.out || (s.phase == INIT && t.phase == WAIT_REQUEST && t.out == [5, 0]))
  {
    hide ReplyBytes, Served, Count, Taken;
    if s.phase == INIT && |p| >= 3 {
      TakingIsQuiet(s.(request := s.request.(version := p[0]), socksError := NONE), p, c, l);
    } else if s.phase == WAIT_REQUEST {
      TakingIsQuiet(s.(socksError := NONE), p, c, l);
    }
  }

  lemma TakingIsQuiet(s: Server, p: seq<byte>, c: Config, l: Lookup)
    ensures Quiet(s, Taken(s, p, c, l).0)
  {
    hide U16, Parse5, ConnectName;
    if |p| >= 10 {
      var t := s.(request := s.request.(version := p[0], cmd := p[1]));
      ParsingIsQuiet(t, p);
      NamingIsQuiet(Parse5(t, p).0, c, l);
    }
  }

  lemma ParsingIsQuiet(s: Server, p: seq<byte>)
    requires |p| >= 10
    ensures Quiet(s, Parse5(s, p).0)
  {
    hide U16;
  }

  lemma NamingIsQuiet(s: Server, c: Config, l: Lookup)
    ensures Quiet(s, ConnectName(s, c, l).0)
  {
  }

  lemma WaitsPrepared(s: Server)
    requires Inv(s)
    ensures s.phase == WAIT_POLICY && IsConnect(s) ==> Prepared(s)
  {
    hide Count;
  }

  lemma AskedForPort(s: Server)
    requires Inv(s) && s.dns.querying
    ensures s.dst.port == s.request.port
  {
    hide Count;
  }

  lemma NotYetReplied(s: Server)
    requires Inv(s) && PolicyPending(s)
    ensures s.replies == [] && (s.request.version == 4 || s.request.version == 5)
  {
    hide Count;
  }

  lemma SentIsReplied(s: Server)
    requires Inv(s)
    ensures s.phase == REQRES_SENT ==> |s.replies| == 1
  {
    hide Count, ReplyBytes;
  }

  lemma EachOnce(s: Server)
    requires Inv(s)
    ensures forall q: Query :: Count(s.queries, q) <= 1
  {
    hide Count, ReplyBytes, Served;
    forall q: Query ensures Count(s.queries, q) <= 1 {
      assert q == A || q == AAAA;
    }
  }

  lemma LeftMessageKeeps(s: Server, accept: bool)
    requires Inv(s) && NewMessage(s)
    ensures var t := LeftMessage(s, accept);
            && (|t.replies| <= 1 ==> Inv(t))
            && (|t.replies| == 1 && s.replies == [] ==> (IsSuccess(t.replies[0]) <==> t.verdict == ACCEPT))
  {
    hide Inv, Judged, ReplyBytes, IsSuccess;
    SecondReply(s, accept);
    if s.socksError == MALFORMED_DATA {
      ErrorKeeps(s);
    } else if PolicyPending(s) {
      var p := if s.socksError != NONE then REJECT
               else if (s.request.cmd == CONNECT && accept) || s.request.cmd == UDP_ASSOCIATE then ACCEPT else REJECT;
      JudgedKeeps(s, p);
      JudgedReplies(s, p);
      OneReplyIsRight(Judged(s, p));
    } else {
      HandedOffReplied(s);
      if s.socksError == NONE {
        HandedOffKeeps(s);
      }
    }
  }

  lemma JudgedReplies(s: Server, p: Policy)
    requires Inv(s) && PolicyPending(s) && p != PENDING
    ensures |Judged(s, p).replies| == 1
  {
    hide Inv, ReplyBytes;
    NotYetReplied(s);
  }

  lemma ErrorKeeps(s: Server)
    requires Inv(s)
    ensures Inv(s.(error := true))
  {
    hide Count, ReplyBytes, IsSuccess;
    ReplySame(s, s.(error := true));
  }

  lemma HandedOffReplied(s: Server)
    requires Inv(s) && s.phase == HANDOFF
    ensures s.replies != []
  {
    hide Count, ReplyBytes;
  }

  lemma OneReplyIsRight(s: Server)
    requires Inv(s) && s.replies != []
    ensures IsSuccess(s.replies[0]) <==> s.verdict == ACCEPT
  {
    hide Count, ReplyBytes, IsSuccess;
  }
}
