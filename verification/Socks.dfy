/** The SOCKS server of a TCP connection as a state machine, and what all its runs keep. */
module Socks {
  import opened Bits
  import opened Wrappers

  datatype Phase =
    | INIT | HELLO_SENT | WAIT_REQUEST | REQ_RECEIVED | WAIT_POLICY | POLICY_RECEIVED | REQRES_SENT
    | DNS_QUERY_SENT | DNS_RESP_RECV | DNS_RESP_FAILED | HANDOFF | ZOMBIE

  datatype Error = NONE | UNSUPPORTED_VERSION | UNSUPPORTED_ATYPE | UNSUPPORTED_METHOD | MALFORMED_DATA

  datatype Policy = PENDING | ACCEPT | REJECT

  datatype AddressType = IPV4 | FQDN

  datatype Query = A | AAAA

  /** A query for the addresses of a name. */
  datatype Asked = Asked(kind: Query, name: seq<byte>)

  const CONNECT := 1
  const UDP_ASSOCIATE := 3

  /** Where the connection is to go: an address as it was read, or one given as text. */
  datatype Host = Unset | Octets(bytes: seq<byte>) | Text(text: seq<byte>)

  datatype Target = Target(host: Host, port: nat)

  /** `socksServerCX`; `out` is everything written to the client, `replies` the replies in it, `queries` the DNS
      queries sent. */
  datatype Server = Server(
    phase: Phase, request: Request, socksError: Error, error: bool, verdict: Policy, dns: Dns, dst: Target,
    left: Option<Target>, right: Option<Target>, out: seq<byte>, replies: seq<seq<byte>>, queries: seq<Asked>)

  /** What has been read of a request. */
  datatype Request = Request(version: nat, cmd: nat, atype: AddressType, addr: seq<byte>, name: seq<byte>, port: nat)

  /** Which queries have been tried, and whether one of them is still to be answered. */
  datatype Dns = Dns(testedA: bool, testedAaaa: bool, querying: bool)

  const Created := Server(INIT, Request(0, 0, IPV4, [0, 0, 0, 0], [], 0), NONE, false, PENDING, Dns(false, false, false),
                          Target(Unset, 0), None, None, [], [], [])

  /** Settings of the program and of the carrier. */
  datatype Config = Config(asyncDns: bool, mixedIpVersions: bool, preferIpv6: bool, carrierIpv6: bool)

  /** What the surroundings contribute to a request for a name: whether it is an address in text form, the socket of a
      query (0 for none), and the address a blocking query gives. */
  datatype Lookup = Lookup(isAddress: bool, socket: int, resolved: Option<seq<byte>>)

  // ----- what the methods do -----

  /** Both peers are made for the destination, and the policy is waited for. */
  function SetupTarget(s: Server): Server {
    s.(left := Some(s.dst), right := Some(s.dst), phase := WAIT_POLICY)
  }

  function SetupDns(s: Server, q: Query, socket: int): Server {
    if socket == 0 then s.(error := true)
    else s.(dns := Dns(s.dns.testedA || q == A, s.dns.testedAaaa || q == AAAA, true), phase := DNS_QUERY_SENT,
            queries := s.queries + [Asked(q, s.request.name)])
  }

  /** `process_dns_response`: without an address nothing is set up. */
  function DnsResponse(s: Server, address: Option<seq<byte>>): Server {
    if address.None? then s else SetupTarget(s.(dst := Target(Text(address.value), s.dst.port)))
  }

  function ConnectName(s: Server, c: Config, l: Lookup): (r: (Server, Error)) {
    if s.request.name == [] then (s, MALFORMED_DATA)
    else
      var t := s.(dst := Target(s.dst.host, s.request.port));
      if l.isAddress then (SetupTarget(t.(dst := Target(Text(s.request.name), s.request.port))), NONE)
      else if !c.asyncDns then (SetupTarget(DnsResponse(t, l.resolved)), NONE)
      else (SetupDns(t, if c.carrierIpv6 || c.preferIpv6 then AAAA else A, l.socket), NONE)
  }

  function Connect4(s: Server, p: seq<byte>): (r: (Server, Error)) {
    if |p| < 8 then (s, MALFORMED_DATA)
    else (SetupTarget(s.(request := s.request.(atype := IPV4, port := U16(p, 2), addr := p[4..8]), phase := REQ_RECEIVED,
                         dst := Target(Octets(p[4..8]), U16(p, 2)))), NONE)
  }

  /** `socks5_parse_request`; a read behind the end ends as malformed data. The second address type is kept as IPv4,
      and the address kept for the reply is then 0.0.0.0. */
  function Parse5(s: Server, p: seq<byte>): (r: (Server, Error, bool))
    requires |p| >= 10
  {
    if p[3] == 3 then
      var t := s.(request := s.request.(atype := FQDN), phase := REQ_RECEIVED);
      if p[4] as nat + 6 >= |p| then (t, MALFORMED_DATA, false)
      else (t.(request := t.request.(name := p[5..5 + p[4] as nat], port := U16(p, 5 + p[4] as nat))), NONE, false)
    else if p[3] == 1 then
      (s.(request := s.request.(atype := IPV4, addr := p[4..8], port := U16(p, 8)), phase := REQ_RECEIVED,
          dst := Target(Octets(p[4..8]), U16(p, 8))), NONE, false)
    else if p[3] == 4 then
      var t := s.(request := s.request.(atype := IPV4, addr := [0, 0, 0, 0]), phase := REQ_RECEIVED);
      if |p| < 22 then (t, MALFORMED_DATA, true)
      else (t.(request := t.request.(port := U16(p, 20)), dst := Target(Octets(p[4..20]), U16(p, 20))), NONE, false)
    else (s, UNSUPPORTED_ATYPE, false)
  }

  function Connect5(s: Server, p: seq<byte>, c: Config, l: Lookup): (r: (Server, Error))
    requires |p| >= 10
  {
    var (t, e, _) := Parse5(s, p);
    if e != NONE then (t, e)
    else if t.request.atype == FQDN then ConnectName(t, c, l)
    else (SetupTarget(t), NONE)
  }

  function Failed(s: Server, e: Error): Server {
    s.(socksError := e, error := s.error || e != NONE)
  }

  /** The commands of version 5: whatever is wrong with a request for an association, the policy is waited for. */
  function Request5(s: Server, p: seq<byte>, c: Config, l: Lookup): (r: (Server, Error))
    requires |p| >= 10
  {
    if s.request.cmd == CONNECT then Connect5(s, p, c, l)
    else if s.request.cmd == UDP_ASSOCIATE then
      var (u, e, thrown) := Parse5(s, p);
      (if thrown then u else u.(phase := WAIT_POLICY), e)
    else (s, UNSUPPORTED_METHOD)
  }

  /** A request of either version, and the error it ends in; fewer than ten bytes are no error. */
  function Taken(s: Server, p: seq<byte>, c: Config, l: Lookup): (r: (Server, Error)) {
    if p == [] then (s, MALFORMED_DATA)
    else if |p| == 1 then (s.(request := s.request.(version := p[0])), MALFORMED_DATA)
    else
      var t := s.(request := s.request.(version := p[0], cmd := p[1]));
      if p[0] == 5 then if |p| < 10 then (t, NONE) else Request5(t, p, c, l)
      else if p[0] == 4 then Connect4(t, p)
      else (t, UNSUPPORTED_VERSION)
  }

  /** `process_socks_request` */
  function Requested(s: Server, p: seq<byte>, c: Config, l: Lookup): Server {
    var n := s.(socksError := NONE);
    if n.phase == DNS_QUERY_SENT then n
    else
      var (t, e) := Taken(n, p, c, l);
      Failed(t, e)
  }

  /** `process_socks_hello_tcp` */
  function Greeted(s: Server, p: seq<byte>, c: Config, l: Lookup): Server {
    if |p| < 3 then s
    else
      var t := s.(request := s.request.(version := p[0]));
      if |p| < 2 + p[1] as nat then t
      else if p[0] == 5 then t.(out := t.out + [5, 0], phase := WAIT_REQUEST)
      else if p[0] == 4 then Requested(t, p, c, l)
      else t.(error := true)
  }

  /** `process_in`: what has been read goes to the greeting or to the request; in all other states nothing happens. */
  function Read(s: Server, p: seq<byte>, c: Config, l: Lookup): Server {
    if s.phase == INIT then Greeted(s, p, c, l)
    else if s.phase == WAIT_REQUEST then Requested(s, p, c, l)
    else s
  }

  /** RFC 1928, section 6; and the reply of version 4. */
  function ReplyBytes(s: Server): seq<byte> {
    if s.request.version == 4 then [0, if s.verdict == ACCEPT then 90 else 91] + Bytes16(s.request.port) + s.request.addr
    else
      [5, if s.verdict == ACCEPT then 0 else 2, 0]
      + if s.request.cmd == CONNECT then
          (if s.request.atype == IPV4 then [1] + s.request.addr else [3, |s.request.name| % 0x100] + s.request.name) + Bytes16(s.request.port)
        else if s.request.cmd == UDP_ASSOCIATE then [1, 0, 0, 0, 0] + Bytes16(1080)
        else []
  }

  function Replied(s: Server): Server {
    if s.request.version == 4 || s.request.version == 5
    then s.(out := s.out + ReplyBytes(s), replies := s.replies + [ReplyBytes(s)], phase := REQRES_SENT)
    else s
  }

  function Judged(s: Server, p: Policy): Server {
    var t := s.(verdict := p, phase := POLICY_RECEIVED);
    if p == PENDING then t else Replied(t)
  }

  /** `pre_write`; `flushed` tells that nothing is left in the write buffer. */
  function Writable(s: Server, flushed: bool, c: Config, socket: int): Server {
    if s.phase == REQRES_SENT then if flushed then s.(phase := HANDOFF) else s
    else if s.phase == DNS_RESP_FAILED then
      if !c.mixedIpVersions then s.(error := true)
      else if !s.dns.testedAaaa then SetupDns(s.(dns := s.dns.(testedAaaa := true)), AAAA, socket)
      else if !s.dns.testedA then SetupDns(s.(dns := s.dns.(testedA := true)), A, socket)
      else s
    else s
  }

  /** `dns_response_callback`; `red` is what the socket gave, `address` an address taken from the answer. */
  function DnsAnswered(s: Server, red: int, address: Option<seq<byte>>): Server {
    var t := s.(phase := DNS_RESP_RECV, dns := s.dns.(querying := false));
    if red <= 0 then t.(error := true)
    else if address.None? then t.(phase := DNS_RESP_FAILED)
    else DnsResponse(t, address)
  }

  /** `new_message` */
  predicate NewMessage(s: Server) {
    PolicyPending(s) || s.phase == HANDOFF
  }

  predicate PolicyPending(s: Server) {
    s.phase == WAIT_POLICY && s.verdict == PENDING
  }

  // ----- runs -----

  datatype Event =
    | Received(data: seq<byte>, lookup: Lookup)
    | Written(flushed: bool, socket: int)
    | Answered(red: int, address: Option<seq<byte>>)
    | Decided(policy: Policy)
    | HandedOff

  /** A query is answered once; a verdict comes while the policy is pending; the proxy takes over on HANDOFF. */
  predicate Enabled(s: Server, e: Event) {
    match e
    case Answered(_, _) => s.dns.querying
    case Decided(_) => PolicyPending(s)
    case HandedOff => s.phase == HANDOFF
    case _ => true
  }

  function Step(s: Server, e: Event, c: Config): Server {
    match e
    case Received(data, lookup) => Read(s, data, c, lookup)
    case Written(flushed, socket) => Writable(s, flushed, c, socket)
    case Answered(red, address) => DnsAnswered(s, red, address)
    case Decided(policy) => Judged(s, policy)
    case HandedOff => s.(phase := ZOMBIE)
  }

  function After(es: seq<Event>, c: Config): Server {
    if es == [] then Created else Step(After(es[..|es| - 1], c), es[|es| - 1], c)
  }

  predicate IsRun(es: seq<Event>, c: Config) {
    es == [] || (IsRun(es[..|es| - 1], c) && Enabled(After(es[..|es| - 1], c), es[|es| - 1]))
  }

  // ----- what every run keeps -----

  function Count(qs: seq<Asked>, q: Query): nat {
    if qs == [] then 0 else Count(qs[..|qs| - 1], q) + if qs[|qs| - 1].kind == q then 1 else 0
  }

  predicate IsSuccess(reply: seq<byte>) {
    |reply| >= 2 && ((reply[0] == 5 && reply[1] == 0) || (reply[0] == 0 && reply[1] == 90))
  }

  predicate IsConnect(s: Server) {
    s.request.version == 4 || s.request.cmd == CONNECT
  }

  /** Both peers stand ready for the port that was asked for. */
  predicate Prepared(s: Server) {
    s.left.Some? && s.right == s.left && s.left.value == s.dst && s.dst.port == s.request.port
  }

  predicate Served(s: Server) {
    && (s.request.version == 4 || (s.request.version == 5 && (s.request.cmd == CONNECT || s.request.cmd == UDP_ASSOCIATE)))
    && (IsConnect(s) ==> Prepared(s) && NamesHost(s))
  }

  /** The address kept for the reply is the destination, or 0.0.0.0 for a destination of 16 octets. */
  predicate NamesHost(s: Server) {
    s.request.atype == IPV4 ==>
      s.dst.host.Octets? && (s.dst.host.bytes == s.request.addr || (|s.dst.host.bytes| == 16 && s.request.addr == [0, 0, 0, 0]))
  }

  /** The reply is the one and only, it is the one the request and the verdict call for, and it has been written. */
  predicate RepliedOnce(s: Server) {
    && s.verdict != PENDING && s.replies == [ReplyBytes(s)]
    && (IsSuccess(s.replies[0]) <==> s.verdict == ACCEPT)
  }

  /** What has been written is at most the greeting, and then the replies. */
  predicate OnlyReplies(s: Server) {
    (s.replies == [] && (s.out == [] || s.out == [5, 0]))
    || (|s.replies| == 1 && (s.out == s.replies[0] || s.out == [5, 0] + s.replies[0]))
  }

  predicate QueriedOnce(s: Server) {
    && Count(s.queries, A) <= (if s.dns.testedA then 1 else 0)
    && Count(s.queries, AAAA) <= (if s.dns.testedAaaa then 1 else 0)
  }

  /** A CONNECT of version 5 to a name. */
  predicate AsksName(s: Server) {
    s.request.version == 5 && s.request.cmd == CONNECT && s.request.atype == FQDN && s.dst.port == s.request.port
  }

  predicate Inv(s: Server) {
    && |s.request.addr| == 4 && OnlyReplies(s) && QueriedOnce(s)
    && (s.dns.querying <==> s.phase == DNS_QUERY_SENT)
    && match s.phase
       case INIT => s.verdict == PENDING && s.replies == [] && s.out == [] && !s.dns.testedA && !s.dns.testedAaaa
       case WAIT_REQUEST => s.verdict == PENDING && s.replies == [] && !s.dns.testedA && !s.dns.testedAaaa
       case REQ_RECEIVED => s.verdict == PENDING && s.replies == []
       case DNS_QUERY_SENT => s.verdict == PENDING && s.replies == [] && AsksName(s)
       case DNS_RESP_RECV => s.verdict == PENDING && s.replies == []
       case DNS_RESP_FAILED => s.verdict == PENDING && s.replies == [] && AsksName(s)
       case WAIT_POLICY => s.verdict == PENDING && s.replies == [] && Served(s)
       case POLICY_RECEIVED => s.verdict == PENDING && s.replies == []
       case HELLO_SENT => false
       case _ => Served(s) && RepliedOnce(s)
  }

  lemma CountMore(qs: seq<Asked>, q: Asked, p: Query)
    ensures Count(qs + [q], p) == Count(qs, p) + if q.kind == p then 1 else 0
  {
    assert (qs + [q])[..|qs|] == qs;
  }

  /** A server that has not taken a request yet, or one it could not serve. */
  predicate Calm(s: Server) {
    && Early(s) && (s.phase == INIT || s.phase == WAIT_REQUEST || s.phase == REQ_RECEIVED) && (s.phase == INIT ==> s.out == [])
  }

  predicate Early(s: Server) {
    && |s.request.addr| == 4 && s.replies == [] && s.verdict == PENDING && (s.out == [] || s.out == [5, 0])
    && !s.dns.testedA && !s.dns.testedAaaa && !s.dns.querying && QueriedOnce(s)
  }

  lemma CalmKeeps(s: Server)
    requires Calm(s)
    ensures Inv(s)
  {
  }

  lemma TargetKeeps(s: Server)
    requires Early(s) && s.dst.port == s.request.port && NamesHost(s) && (s.request.version == 4 || (s.request.version == 5 && s.request.cmd == CONNECT))
    ensures Inv(SetupTarget(s))
  {
  }

  lemma DnsKeeps(s: Server, q: Query, socket: int)
    requires Calm(s) && s.request.version == 5 && s.request.cmd == CONNECT && s.request.atype == FQDN && s.dst.port == s.request.port
    ensures Inv(SetupDns(s, q, socket))
  {
    CountMore(s.queries, Asked(q, s.request.name), A);
    CountMore(s.queries, Asked(q, s.request.name), AAAA);
  }

  lemma ConnectNameKeeps(s: Server, c: Config, l: Lookup)
    requires Calm(s) && s.request.version == 5 && s.request.cmd == CONNECT && s.request.atype == FQDN
    ensures Inv(ConnectName(s, c, l).0)
  {
    hide Inv, SetupDns;
    CalmKeeps(s);
    var t := s.(dst := Target(s.dst.host, s.request.port));
    if s.request.name != [] {
      if l.isAddress {
        TargetKeeps(t.(dst := Target(Text(s.request.name), s.request.port)));
      } else if !c.asyncDns {
        TargetKeeps(DnsResponse(t, l.resolved));
      } else {
        DnsKeeps(t, if c.carrierIpv6 || c.preferIpv6 then AAAA else A, l.socket);
      }
    }
  }

  lemma ParseKeeps(s: Server, p: seq<byte>)
    requires Calm(s) && |p| >= 10
    ensures var (t, e, _) := Parse5(s, p);
            && Calm(t) && t.request.version == s.request.version && t.request.cmd == s.request.cmd
            && (e == NONE ==> t.phase == REQ_RECEIVED && (t.request.atype == IPV4 ==> t.dst.port == t.request.port && NamesHost(t)))
  {
  }

  lemma FailedKeeps(s: Server, e: Error)
    requires Inv(s)
    ensures Inv(Failed(s, e)) && Inv(s.(socksError := e))
  {
    hide Count, ReplyBytes, IsSuccess;
    ReplySame(s, Failed(s, e));
    ReplySame(s, s.(socksError := e));
  }

  lemma RequestedKeeps(s: Server, p: seq<byte>, c: Config, l: Lookup)
    requires Calm(s)
    ensures Inv(Requested(s, p, c, l))
  {
    var n := s.(socksError := NONE);
    assert Calm(n) && n.phase != DNS_QUERY_SENT;
    hide Inv, Taken, Failed, Calm;
    TakenKeeps(n, p, c, l);
    FailedKeeps(Taken(n, p, c, l).0, Taken(n, p, c, l).1);
  }

  lemma TakenKeeps(s: Server, p: seq<byte>, c: Config, l: Lookup)
    requires Calm(s)
    ensures Inv(Taken(s, p, c, l).0)
  {
    hide Inv, Parse5, Connect5, Connect4, Calm;
    var t := Recalled(s, p);
    CalmKeeps(t);
    if |p| >= 10 && p[0] == 5 {
      Connect5Keeps(t, p, c, l);
      ParseKeeps(t, p);
      var (u, _, _) := Parse5(t, p);
      CalmKeeps(u);
      if u.request.cmd == UDP_ASSOCIATE {
        AssociateKeeps(u);
      }
    } else if |p| >= 2 && p[0] == 4 {
      Connect4Keeps(t, p);
    }
  }

  /** The version and the command as far as they could be read. */
  function Recalled(s: Server, p: seq<byte>): (t: Server)
    ensures Calm(s) ==> Calm(t)
    ensures Early(s) ==> Early(t)
  {
    if p == [] then s else if |p| == 1 then s.(request := s.request.(version := p[0])) else s.(request := s.request.(version := p[0], cmd := p[1]))
  }

  lemma AssociateKeeps(s: Server)
    requires Calm(s) && s.request.version == 5 && s.request.cmd == UDP_ASSOCIATE
    ensures Inv(s.(phase := WAIT_POLICY))
  {
  }

  lemma Connect4Keeps(s: Server, p: seq<byte>)
    requires Calm(s) && s.request.version == 4
    ensures Inv(Connect4(s, p).0)
  {
    hide Inv;
    CalmKeeps(s);
    if |p| >= 8 {
      TargetKeeps(s.(request := s.request.(atype := IPV4, port := U16(p, 2), addr := p[4..8]), phase := REQ_RECEIVED,
                     dst := Target(Octets(p[4..8]), U16(p, 2))));
    }
  }

  lemma Connect5Keeps(s: Server, p: seq<byte>, c: Config, l: Lookup)
    requires Calm(s) && s.request.version == 5 && |p| >= 10
    ensures s.request.cmd == CONNECT ==> Inv(Connect5(s, p, c, l).0)
  {
    hide Inv, Parse5, ConnectName;
    ParseKeeps(s, p);
    var (t, e, _) := Parse5(s, p);
    CalmKeeps(t);
    if e == NONE && s.request.cmd == CONNECT {
      if t.request.atype == FQDN {
        ConnectNameKeeps(t, c, l);
      } else {
        TargetKeeps(t);
      }
    }
  }

  lemma ReadKeeps(s: Server, p: seq<byte>, c: Config, l: Lookup)
    requires Inv(s)
    ensures Inv(Read(s, p, c, l))
  {
    hide Requested, Count;
    if s.phase == INIT && |p| >= 3 {
      var t := s.(request := s.request.(version := p[0]));
      assert Calm(t);
      RequestedKeeps(t, p, c, l);
    } else if s.phase == WAIT_REQUEST {
      assert Calm(s);
      RequestedKeeps(s, p, c, l);
    }
  }

  lemma JudgedKeeps(s: Server, p: Policy)
    requires Inv(s) && PolicyPending(s)
    ensures Inv(Judged(s, p))
  {
    hide Count, ReplyBytes, IsSuccess;
    var t := s.(verdict := p, phase := POLICY_RECEIVED);
    assert [] + ReplyBytes(t) == ReplyBytes(t);
    assert s.replies + [ReplyBytes(t)] == [ReplyBytes(t)];
    ReplyCode(t);
    ReplySame(t, Judged(s, p));
  }

  lemma ReplySame(s: Server, t: Server)
    requires s.request.version == t.request.version && s.verdict == t.verdict && s.request.cmd == t.request.cmd && s.request.atype == t.request.atype
    requires s.request.addr == t.request.addr && s.request.name == t.request.name && s.request.port == t.request.port
    ensures ReplyBytes(s) == ReplyBytes(t)
  {
  }

  /** The code of a reply tells whether the policy accepted. */
  lemma ReplyCode(s: Server)
    requires s.request.version == 4 || s.request.version == 5
    ensures IsSuccess(ReplyBytes(s)) <==> s.verdict == ACCEPT
  {
  }

  lemma WritableKeeps(s: Server, flushed: bool, c: Config, socket: int)
    requires Inv(s)
    ensures Inv(Writable(s, flushed, c, socket))
  {
    hide Count;
    CountMore(s.queries, Asked(A, s.request.name), A);
    CountMore(s.queries, Asked(A, s.request.name), AAAA);
    CountMore(s.queries, Asked(AAAA, s.request.name), A);
    CountMore(s.queries, Asked(AAAA, s.request.name), AAAA);
  }

  /** Every step keeps the invariant. */
  lemma StepKeeps(s: Server, e: Event, c: Config)
    requires Inv(s) && Enabled(s, e)
    ensures Inv(Step(s, e, c))
  {
    hide Inv, Read, Writable, Judged, DnsAnswered;
    match e
    case Received(data, lookup) => ReadKeeps(s, data, c, lookup);
    case Written(flushed, socket) => WritableKeeps(s, flushed, c, socket);
    case Answered(red, address) => AnsweredKeeps(s, red, address);
    case Decided(policy) => JudgedKeeps(s, policy);
    case HandedOff => HandedOffKeeps(s);
  }

  lemma AnsweredKeeps(s: Server, red: int, address: Option<seq<byte>>)
    requires Inv(s) && s.dns.querying
    ensures Inv(DnsAnswered(s, red, address))
  {
    hide Count, ReplyBytes;
  }

  lemma HandedOffKeeps(s: Server)
    requires Inv(s) && s.phase == HANDOFF
    ensures Inv(s.(phase := ZOMBIE))
  {
    hide Count, ReplyBytes;
    ReplySame(s, s.(phase := ZOMBIE));
  }

  lemma {:induction false} RunKeeps(es: seq<Event>, c: Config)
    requires IsRun(es, c)
    ensures Inv(After(es, c))
  {
    hide Step, Inv, Enabled;
    if es == [] {
      CreatedKeeps();
    } else {
      RunKeeps(es[..|es| - 1], c);
      StepKeeps(After(es[..|es| - 1], c), es[|es| - 1], c);
    }
  }

  lemma CreatedKeeps()
    ensures Inv(Created)
  {
  }

  /** Over every run: HANDOFF is reached only with exactly one reply written, of success if and only if the policy
      accepted, and with both peers prepared for a CONNECT; and each kind of query has been sent at most once. */
  lemma Handoff(es: seq<Event>, c: Config)
    requires IsRun(es, c)
    ensures var s := After(es, c);
            && Count(s.queries, A) <= 1 && Count(s.queries, AAAA) <= 1 && |s.replies| <= 1
            && (s.phase == HANDOFF ==>
                  && |s.replies| == 1 && (s.out == s.replies[0] || s.out == [5, 0] + s.replies[0])
                  && (IsSuccess(s.replies[0]) <==> s.verdict == ACCEPT)
                  && (IsConnect(s) ==> Prepared(s) && NamesHost(s)))
  {
    hide After, ReplyBytes, Prepared, NamesHost;
    RunKeeps(es, c);
  }

  // ----- the proxy's side -----

  /** `SocksProxy::on_left_message`: called when there is a new message. */
  function LeftMessage(s: Server, accept: bool): Server {
    if s.socksError == MALFORMED_DATA then s.(error := true)
    else if s.socksError != NONE then Judged(s, REJECT)
    else if s.phase == WAIT_POLICY then
      Judged(s, if (s.request.cmd == CONNECT && accept) || s.request.cmd == UDP_ASSOCIATE then ACCEPT else REJECT)
    else if s.phase == HANDOFF then s.(phase := ZOMBIE)
    else s
  }

  /** The proxy does what the policy says exactly for a CONNECT without an error. Against a policy that refuses it accepts
      exactly the other command, which is an association in version 5 and is not looked at in version 4: that client
      gets a reply of success, and both peers are ready. */
  lemma FollowsPolicy(s: Server)
    requires Inv(s) && PolicyPending(s)
    ensures (forall accept :: LeftMessage(s, accept).verdict == ACCEPT <==> accept) <==> s.socksError == NONE && s.request.cmd == CONNECT
    ensures LeftMessage(s, false).verdict == ACCEPT <==> s.socksError == NONE && s.request.cmd == UDP_ASSOCIATE
    ensures LeftMessage(s, false).verdict == ACCEPT ==>
              && |LeftMessage(s, false).replies| == 1 && IsSuccess(LeftMessage(s, false).replies[0])
              && (s.request.version == 4 ==> Prepared(s))
  {
    hide QueriedOnce, OnlyReplies, ReplyBytes, IsSuccess;
    ReplyCode(s.(verdict := ACCEPT, phase := POLICY_RECEIVED));
    assert LeftMessage(s, true).verdict == ACCEPT <==> s.socksError == NONE && (s.request.cmd == CONNECT || s.request.cmd == UDP_ASSOCIATE);
    assert LeftMessage(s, false).verdict == ACCEPT <==> s.socksError == NONE && s.request.cmd == UDP_ASSOCIATE;
  }

  /** So it is for a first message of version 4 that asks for an association with 10.0.0.1 and port 80. */
  lemma AcceptedAgainstPolicy(c: Config, l: Lookup)
    ensures var es := [Received([4, 3, 0, 80, 10, 0, 0, 1], l)];
            && IsRun(es, c) && PolicyPending(After(es, c)) && After(es, c).left == Some(Target(Octets([10, 0, 0, 1]), 80))
            && LeftMessage(After(es, c), false).verdict == ACCEPT
            && LeftMessage(After(es, c), false).replies == [[0, 90, 0, 80, 10, 0, 0, 1]]
  {
    hide Step, LeftMessage;
    var ask := Received([4, 3, 0, 80, 10, 0, 0, 1], l);
    RunOf([], ask, c);
    NoEvents(c);
    assert [] + [ask] == [ask];
    AssociateInVersion4(c, l);
  }

  lemma AssociateInVersion4(c: Config, l: Lookup)
    ensures var s := Step(Created, Received([4, 3, 0, 80, 10, 0, 0, 1], l), c);
            && PolicyPending(s) && s.left == Some(Target(Octets([10, 0, 0, 1]), 80))
            && LeftMessage(s, false).verdict == ACCEPT && LeftMessage(s, false).replies == [[0, 90, 0, 80, 10, 0, 0, 1]]
  {
    hide Requested, LeftMessage, ReplyBytes;
    var p: seq<byte> := [4, 3, 0, 80, 10, 0, 0, 1];
    var t := Created.(request := Created.request.(version := 4));
    assert Step(Created, Received(p, l), c) == Requested(t, p, c, l);
    TakenInVersion4(t, p, c, l);
    AcceptedInVersion4(Requested(t, p, c, l));
  }

  lemma TakenInVersion4(s: Server, p: seq<byte>, c: Config, l: Lookup)
    requires p == [4, 3, 0, 80, 10, 0, 0, 1] && s.phase == INIT
    ensures var to := Target(Octets([10, 0, 0, 1]), 80);
            Requested(s, p, c, l)
            == s.(request := s.request.(version := 4, cmd := 3, atype := IPV4, port := 80, addr := [10, 0, 0, 1]), socksError := NONE,
                  dst := to, left := Some(to), right := Some(to), phase := WAIT_POLICY)
  {
    hide Request5;
    assert p[4..8] == [10, 0, 0, 1] && U16(p, 2) == 80;
  }

  lemma AcceptedInVersion4(s: Server)
    requires s.request == Request(4, 3, IPV4, [10, 0, 0, 1], s.request.name, 80) && s.socksError == NONE
    requires PolicyPending(s) && s.replies == []
    ensures LeftMessage(s, false).verdict == ACCEPT && LeftMessage(s, false).replies == [[0, 90, 0, 80, 10, 0, 0, 1]]
  {
    var t := s.(verdict := ACCEPT, phase := POLICY_RECEIVED);
    assert Bytes16(80) == [0, 80];
    assert ReplyBytes(t) == [0, 90, 0, 80, 10, 0, 0, 1];
  }

  /** The proxy makes the server reply a second time exactly when it is told of the hand-over of a request that had
      failed otherwise than by malformed data. */
  lemma SecondReply(s: Server, accept: bool)
    requires Inv(s) && NewMessage(s)
    ensures |LeftMessage(s, accept).replies| > 1 <==> s.phase == HANDOFF && s.socksError != NONE && s.socksError != MALFORMED_DATA
  {
    hide QueriedOnce, ReplyBytes, IsSuccess, Prepared, NamesHost;
  }

  /** That happens for an association asked for with an unknown type of address. */
  lemma SecondReplyHappens(c: Config, l: Lookup)
    ensures var es := [Received([5, 1, 0], l), Received([5, 3, 0, 9, 0, 0, 0, 0, 0, 0], l), Decided(REJECT), Written(true, 0)];
            && IsRun(es, c) && After(es, c).phase == HANDOFF && After(es, c).replies == [[5, 2, 0, 1, 0, 0, 0, 0, 4, 56]]
            && LeftMessage(After(es, c), true).replies == [[5, 2, 0, 1, 0, 0, 0, 0, 4, 56], [5, 2, 0, 1, 0, 0, 0, 0, 4, 56]]
  {
    hide Step, LeftMessage, ReplyBytes;
    var hello, ask, no := Received([5, 1, 0], l), Received([5, 3, 0, 9, 0, 0, 0, 0, 0, 0], l), Decided(REJECT);
    RunOf([], hello, c);
    RunOf([hello], ask, c);
    RunOf([hello, ask], no, c);
    RunOf([hello, ask, no], Written(true, 0), c);
    assert [] + [hello] == [hello] && [hello] + [ask] == [hello, ask] && [hello, ask] + [no] == [hello, ask, no];
    assert [hello, ask, no] + [Written(true, 0)] == [hello, ask, no, Written(true, 0)];
    NoEvents(c);
    var greeted := Created.(request := Created.request.(version := 5), out := [5, 0], phase := WAIT_REQUEST);
    var asked := greeted.(request := greeted.request.(cmd := 3), socksError := UNSUPPORTED_ATYPE, error := true, phase := WAIT_POLICY);
    assert Step(Created, hello, c) == greeted by { HelloStep(l, c); }
    assert Step(greeted, ask, c) == asked by { AskStep(greeted, l, c); }
    RejectStep(asked, c);
  }

  lemma NoEvents(c: Config)
    ensures After([], c) == Created && IsRun([], c)
  {
  }

  lemma HelloStep(l: Lookup, c: Config)
    ensures Step(Created, Received([5, 1, 0], l), c) == Created.(request := Created.request.(version := 5), out := [5, 0], phase := WAIT_REQUEST)
  {
  }

  lemma AskStep(s: Server, l: Lookup, c: Config)
    requires s.phase == WAIT_REQUEST && s.request.version == 5
    ensures Step(s, Received([5, 3, 0, 9, 0, 0, 0, 0, 0, 0], l), c)
         == s.(request := s.request.(cmd := 3), socksError := UNSUPPORTED_ATYPE, error := true, phase := WAIT_POLICY)
  {
    var p: seq<byte> := [5, 3, 0, 9, 0, 0, 0, 0, 0, 0];
    assert Parse5(s.(request := s.request.(cmd := 3)), p) == (s.(request := s.request.(cmd := 3)), UNSUPPORTED_ATYPE, false);
  }

  lemma RejectStep(s: Server, c: Config)
    requires s.phase == WAIT_POLICY && s.verdict == PENDING && s.request.version == 5 && s.request.cmd == 3 && s.replies == []
    requires s.socksError == UNSUPPORTED_ATYPE
    ensures var t := Step(s, Decided(REJECT), c);
            var u := Step(t, Written(true, 0), c);
            && Enabled(s, Decided(REJECT)) && Enabled(t, Written(true, 0)) && u.phase == HANDOFF
            && u.replies == [[5, 2, 0, 1, 0, 0, 0, 0, 4, 56]]
            && LeftMessage(u, true).replies == [[5, 2, 0, 1, 0, 0, 0, 0, 4, 56], [5, 2, 0, 1, 0, 0, 0, 0, 4, 56]]
  {
    var r := s.(verdict := REJECT);
    assert ReplyBytes(r) == [5, 2, 0, 1, 0, 0, 0, 0, 4, 56];
    ReplySame(r, s.(verdict := REJECT, phase := POLICY_RECEIVED));
    var u := Step(Step(s, Decided(REJECT), c), Written(true, 0), c);
    ReplySame(r, u.(verdict := REJECT, phase := POLICY_RECEIVED));
  }

  lemma RunOf(es: seq<Event>, e: Event, c: Config)
    ensures After(es + [e], c) == Step(After(es, c), e, c)
    ensures IsRun(es + [e], c) <==> IsRun(es, c) && Enabled(After(es, c), e)
  {
    assert (es + [e])[..|es|] == es;
  }
}
