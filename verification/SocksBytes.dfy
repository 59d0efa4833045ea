/** Where a SOCKS connection goes, told by the bytes of its request, over all runs. */
module SocksBytes {
  import opened Bits
  import opened Socks
  import opened Wrappers

  // ----- requests as they are laid out -----

  /** RFC 1928, section 4: DST.ADDR by its type. */
  datatype Dst = V4(octets: seq<byte>) | Name(name: seq<byte>) | V6(octets: seq<byte>)

  predicate IsDst(d: Dst) {
    match d
    case V4(octets) => |octets| == 4
    case Name(name) => |name| < 256
    case V6(octets) => |octets| == 16
  }

  function DstBytes(d: Dst): seq<byte>
    requires IsDst(d)
  {
    match d
    case V4(octets) => [1] + octets
    case Name(name) => [3, |name|] + name
    case V6(octets) => [4] + octets
  }

  function Bytes5(cmd: byte, reserved: byte, d: Dst, port: nat): seq<byte>
    requires IsDst(d)
  {
    [5, cmd, reserved] + DstBytes(d) + Bytes16(port)
  }

  /** Version 4: the port comes before the address; a user may follow. */
  function Bytes4(cmd: byte, octets: seq<byte>, port: nat): seq<byte> {
    [4, cmd] + Bytes16(port) + octets
  }

  /** The bytes begin with a request for that destination. */
  predicate Asks5(data: seq<byte>, cmd: byte, d: Dst, port: nat) {
    IsDst(d) && port < 0x1_0000 && |data| > 2 && Bytes5(cmd, data[2], d, port) <= data
  }

  predicate Asks4(data: seq<byte>, octets: seq<byte>, port: nat) {
    |octets| == 4 && port < 0x1_0000 && |data| > 1 && Bytes4(data[1], octets, port) <= data
  }

  /** What the server remembers of the destination. */
  predicate Remembers(s: Server, d: Dst, port: nat) {
    && s.request.port == port
    && match d
       case V4(octets) => s.request.atype == IPV4 && s.request.addr == octets && s.dst == Target(Octets(octets), port)
       case V6(octets) => s.request.atype == IPV4 && s.request.addr == [0, 0, 0, 0] && s.dst == Target(Octets(octets), port)
       case Name(name) => s.request.atype == FQDN && s.request.name == name
  }

  lemma WordOf(p: seq<byte>, i: nat, port: nat)
    requires i + 2 <= |p| && port < 0x1_0000 && p[i..i + 2] == Bytes16(port)
    ensures U16(p, i) == port
  {
    assert U16(p, i) == U16(p[i..i + 2], 0);
  }

  lemma WordAt(p: seq<byte>, i: nat)
    requires i + 2 <= |p|
    ensures p[i..i + 2] == Bytes16(U16(p, i))
  {
  }

  /** Where the parts of a request stand. */
  lemma Parts5(p: seq<byte>, cmd: byte, d: Dst, port: nat)
    requires Asks5(p, cmd, d, port)
    ensures var n := |DstBytes(d)|;
            && 3 + n + 2 <= |p| && p[0] == 5 && p[1] == cmd && p[3..3 + n] == DstBytes(d) && U16(p, 3 + n) == port
  {
    var r, n := Bytes5(cmd, p[2], d, port), |DstBytes(d)|;
    assert p[..|r|] == r;
    assert r[3..3 + n] == DstBytes(d) && r[3 + n..3 + n + 2] == Bytes16(port);
    assert p[3..3 + n] == p[..|r|][3..3 + n] && p[3 + n..3 + n + 2] == p[..|r|][3 + n..3 + n + 2];
    assert p[0] == r[0] && p[1] == r[1];
    WordOf(p, 3 + n, port);
  }

  /** A request of ten bytes or more is parsed as it is laid out. */
  lemma LayoutParses(s: Server, p: seq<byte>, cmd: byte, d: Dst, port: nat)
    requires Asks5(p, cmd, d, port) && |p| >= 10
    ensures var (t, e, _) := Parse5(s, p); e == NONE && Remembers(t, d, port)
  {
    hide U16, Bytes16;
    Parts5(p, cmd, d, port);
    var b := p[3..3 + |DstBytes(d)|];
    assert p[3] == b[0];
    match d
    case V4(octets) =>
      assert p[4..8] == b[1..] == octets;
    case V6(octets) =>
      assert p[4..20] == b[1..] == octets;
    case Name(name) =>
      assert p[4] == b[1];
      assert p[5..5 + |name|] == b[2..] == name;
  }

  /** And nothing else is parsed without an error. */
  lemma ParsedIsLayout(s: Server, p: seq<byte>) returns (d: Dst, port: nat)
    requires |p| >= 10 && p[0] == 5 && Parse5(s, p).1 == NONE
    ensures Asks5(p, p[1], d, port)
  {
    hide U16, Bytes16;
    d := DestinationAt(s, p);
    var n := |DstBytes(d)|;
    port := U16(p, 3 + n);
    WordAt(p, 3 + n);
    assert p[..3] == [5, p[1], p[2]];
    assert p[..5 + n] == p[..3] + p[3..3 + n] + p[3 + n..5 + n];
  }

  lemma DestinationAt(s: Server, p: seq<byte>) returns (d: Dst)
    requires |p| >= 10 && Parse5(s, p).1 == NONE
    ensures IsDst(d) && 3 + |DstBytes(d)| + 2 <= |p| && p[3..3 + |DstBytes(d)|] == DstBytes(d)
  {
    hide U16;
    d := if p[3] == 1 then V4(p[4..8]) else if p[3] == 4 then V6(p[4..20]) else Name(p[5..5 + p[4] as nat]);
    match d
    case V4(_) => assert p[3..8] == [p[3]] + p[4..8];
    case V6(_) => assert p[3..20] == [p[3]] + p[4..20];
    case Name(_) => assert p[3..5 + p[4] as nat] == [p[3], p[4]] + p[5..5 + p[4] as nat];
  }

  /** Version 4 reads any eight bytes as they are laid out. */
  lemma Layout4(p: seq<byte>)
    requires |p| >= 8 && p[0] == 4
    ensures Asks4(p, p[4..8], U16(p, 2))
  {
    WordAt(p, 2);
    assert p[..2] == [4, p[1]];
    assert p[..8] == p[..2] + p[2..4] + p[4..8];
  }

  // ----- runs -----

  /** The message that was last taken for a request, and what the surroundings said of its name. */
  datatype Message = Nothing | Message(data: seq<byte>, lookup: Lookup)

  predicate Takes(s: Server, data: seq<byte>) {
    s.phase == WAIT_REQUEST || (s.phase == INIT && |data| >= 3 && data[0] == 4 && |data| >= 2 + data[1] as nat)
  }

  function LastTaken(es: seq<Event>, c: Config): Message {
    if es == [] then Nothing
    else
      var front, e := es[..|es| - 1], es[|es| - 1];
      if e.Received? && Takes(After(front, c), e.data) then Message(e.data, e.lookup) else LastTaken(front, c)
  }

  /** The addresses that answers to queries have given. */
  function Answers(es: seq<Event>): set<seq<byte>> {
    if es == [] then {}
    else
      Answers(es[..|es| - 1]) + match es[|es| - 1] case Answered(_, Some(address)) => {address} case _ => {}
  }

  /** The host that a destination leads to: the address itself; for a name the name if it is an address in text form, else
      an address from an answer. A blocking query that fails leaves the host unset. */
  predicate LeadsTo(d: Dst, host: Host, l: Lookup, answers: set<seq<byte>>, c: Config) {
    match d
    case V4(octets) => host == Octets(octets)
    case V6(octets) => host == Octets(octets)
    case Name(name) =>
      if l.isAddress then host == Text(name)
      else if c.asyncDns then host.Text? && host.text in answers
      else host == match l.resolved case Some(address) => Text(address) case None => Unset
  }

  /** The kinds of queries for a name, in the order in which they are tried. */
  function Order(c: Config): seq<Query> {
    if c.carrierIpv6 || c.preferIpv6 then [AAAA, A] else [A, AAAA]
  }

  /** `n` queries have been sent, all for the name, and in that order. */
  predicate Queried(s: Server, name: seq<byte>, n: nat, c: Config) {
    && |s.queries| == n <= 2
    && forall k :: 0 <= k < n ==> s.queries[k] == Asked(Order(c)[k], name) && if s.queries[k].kind == A then s.dns.testedA else s.dns.testedAaaa
  }

  /** A CONNECT of version 5 for that destination has been understood. */
  predicate Understood(s: Server, m: Message, d: Dst, port: nat, c: Config) {
    && m.Message? && Asks5(m.data, CONNECT, d, port) && s.request.version == 5 && s.request.cmd == CONNECT && s.socksError == NONE
    && s.request.port == port && s.dst.port == port
    && match d
       case V4(octets) => s.request.atype == IPV4 && s.request.addr == octets && s.queries == []
       case V6(octets) => s.request.atype == IPV4 && s.request.addr == [0, 0, 0, 0] && s.queries == []
       case Name(name) =>
         && s.request.atype == FQDN && s.request.name == name && name != []
         && Queried(s, name, |s.queries|, c) && (s.queries != [] ==> !m.lookup.isAddress && c.asyncDns)
  }

  /** The server waits for the answer to a query for the name that the bytes have, or has to try another. */
  ghost predicate Looking(s: Server, m: Message, c: Config) {
    exists name: seq<byte>, port: nat :: Understood(s, m, Name(name), port, c) && s.queries != []
  }

  /** The server knows where the bytes lead. */
  ghost predicate Led(s: Server, m: Message, answers: set<seq<byte>>, c: Config) {
    && m.Message?
    && (s.request.version == 4 ==>
          exists octets: seq<byte>, port: nat ::
            Asks4(m.data, octets, port) && s.request.addr == octets && s.request.port == port && s.dst == Target(Octets(octets), port))
    && (s.request.version == 5 && s.request.cmd == CONNECT ==>
          exists d: Dst, port: nat :: Understood(s, m, d, port, c) && LeadsTo(d, s.dst.host, m.lookup, answers, c))
  }

  /** What every run keeps of the bytes. */
  ghost predicate Tied(s: Server, m: Message, answers: set<seq<byte>>, c: Config) {
    match s.phase
    case INIT => s.dst.host == Unset && s.queries == []
    case WAIT_REQUEST => s.dst.host == Unset && s.queries == []
    case DNS_QUERY_SENT => Looking(s, m, c)
    case DNS_RESP_FAILED => Looking(s, m, c)
    case WAIT_POLICY => Led(s, m, answers, c)
    case REQRES_SENT => Led(s, m, answers, c)
    case HANDOFF => Led(s, m, answers, c)
    case ZOMBIE => Led(s, m, answers, c)
    case _ => true
  }

  /** A name has been understood; it is looked up, or the target is set up. */
  lemma NameTied(s: Server, m: Message, name: seq<byte>, port: nat, answers: set<seq<byte>>, c: Config)
    requires m.Message? && Asks5(m.data, CONNECT, Name(name), port) && s.request.version == 5 && s.request.cmd == CONNECT
    requires s.request.atype == FQDN && s.request.name == name && s.request.port == port && s.queries == [] && s.dst.host == Unset
    requires s.phase == REQ_RECEIVED
    ensures var (t, e) := ConnectName(s, c, m.lookup); Tied(t.(socksError := e), m, answers, c)
  {
    hide Asks5, Order;
    var (t, e) := ConnectName(s, c, m.lookup);
    if name != [] {
      OrderIs(c);
      assert Understood(t.(socksError := e), m, Name(name), port, c);
    }
  }

  lemma OrderIs(c: Config)
    ensures |Order(c)| == 2 && Order(c)[0] == (if c.carrierIpv6 || c.preferIpv6 then AAAA else A) && Order(c)[1] != Order(c)[0]
  {
  }

  lemma Connect5Tied(s: Server, p: seq<byte>, c: Config, l: Lookup, answers: set<seq<byte>>)
    requires |p| >= 10 && p[0] == 5 && p[1] == CONNECT && s.request.version == 5 && s.request.cmd == CONNECT
    requires (s.phase == INIT || s.phase == WAIT_REQUEST) && s.dst.host == Unset && s.queries == []
    ensures var (t, e) := Connect5(s, p, c, l); Tied(t.(socksError := e), Message(p, l), answers, c)
  {
    hide ConnectName, Asks5, Queried;
    ParsedOnly(s, p);
    var (t, e, _) := Parse5(s, p);
    if e == NONE {
      var d, port := ParsedIsLayout(s, p);
      LayoutParses(s, p, CONNECT, d, port);
      hide Parse5;
      if t.request.atype == FQDN {
        NameTied(t, Message(p, l), d.name, port, answers, c);
      } else {
        assert Understood(SetupTarget(t).(socksError := NONE), Message(p, l), d, port, c);
      }
    }
  }

  /** Parsing leaves what it does not read, and the host of a name. */
  lemma ParsedOnly(s: Server, p: seq<byte>)
    requires |p| >= 10
    ensures var (t, e, _) := Parse5(s, p);
            && t.request.version == s.request.version && t.request.cmd == s.request.cmd && t.queries == s.queries
            && (t == s || t.phase == REQ_RECEIVED)
            && (e == NONE ==> t.phase == REQ_RECEIVED && (t.request.atype == FQDN ==> t.dst == s.dst))
  {
    hide U16;
  }

  lemma TakenTied(s: Server, p: seq<byte>, c: Config, l: Lookup, answers: set<seq<byte>>)
    requires (s.phase == INIT || s.phase == WAIT_REQUEST) && s.dst.host == Unset && s.queries == []
    ensures Tied(Requested(s, p, c, l), Message(p, l), answers, c)
  {
    hide Connect5, Parse5, Asks5, LeadsTo, Understood;
    var n := s.(socksError := NONE);
    if |p| >= 2 {
      var t := n.(request := n.request.(version := p[0], cmd := p[1]));
      if |p| >= 10 && p[0] == 5 {
        if p[1] == CONNECT {
          Connect5Tied(t, p, c, l, answers);
          ErrorTied(Connect5(t, p, c, l).0, Connect5(t, p, c, l).1, Message(p, l), answers, c);
        } else {
          ParsedOnly(t, p);
        }
      } else if |p| >= 8 && p[0] == 4 {
        Layout4(p);
      }
    }
  }

  lemma ErrorTied(s: Server, e: Error, m: Message, answers: set<seq<byte>>, c: Config)
    requires Tied(s.(socksError := e), m, answers, c)
    ensures Tied(Failed(s, e), m, answers, c)
  {
    hide Queried, Asks5, Asks4;
    OtherFields(s.(socksError := e), Failed(s, e), m, answers, c);
  }

  /** What is tied stays so when nothing changes that is tied. */
  lemma OtherFields(s: Server, t: Server, m: Message, answers: set<seq<byte>>, c: Config)
    requires t.request == s.request && t.dst == s.dst && t.queries == s.queries && t.socksError == s.socksError && t.dns == s.dns
    ensures forall d: Dst, port: nat :: Understood(s, m, d, port, c) ==> Understood(t, m, d, port, c)
    ensures Led(s, m, answers, c) ==> Led(t, m, answers, c)
    ensures Looking(s, m, c) ==> Looking(t, m, c)
    ensures t.phase == s.phase && Tied(s, m, answers, c) ==> Tied(t, m, answers, c)
  {
    hide Asks5, Asks4;
  }

  lemma ReceivedTied(s: Server, p: seq<byte>, c: Config, l: Lookup, m: Message, answers: set<seq<byte>>)
    requires Tied(s, m, answers, c)
    ensures Tied(Read(s, p, c, l), if Takes(s, p) then Message(p, l) else m, answers, c)
  {
    hide Requested, Led, Looking;
    if s.phase == INIT && Takes(s, p) {
      TakenTied(s.(request := s.request.(version := p[0])), p, c, l, answers);
    } else if s.phase == WAIT_REQUEST {
      TakenTied(s, p, c, l, answers);
    }
  }

  lemma WrittenTied(s: Server, flushed: bool, c: Config, socket: int, m: Message, answers: set<seq<byte>>)
    requires Tied(s, m, answers, c)
    ensures Tied(Writable(s, flushed, c, socket), m, answers, c)
  {
    hide Asks5, Asks4, LeadsTo;
    if s.phase == DNS_RESP_FAILED {
      var name: seq<byte>, port: nat :| Understood(s, m, Name(name), port, c) && s.queries != [];
      OrderIs(c);
      hide Order;
      var t := Writable(s, flushed, c, socket);
      assert Understood(t, m, Name(name), port, c);
    } else if s.phase == REQRES_SENT {
      OtherFields(s, Writable(s, flushed, c, socket), m, answers, c);
    }
  }

  lemma AnsweredTied(s: Server, red: int, address: Option<seq<byte>>, c: Config, m: Message, answers: set<seq<byte>>)
    requires Tied(s, m, answers, c) && s.phase == DNS_QUERY_SENT
    ensures Tied(DnsAnswered(s, red, address), m, answers + (if address.Some? then {address.value} else {}), c)
  {
    hide Asks5, Asks4, Order;
    var name: seq<byte>, port: nat :| Understood(s, m, Name(name), port, c) && s.queries != [];
    var t := DnsAnswered(s, red, address);
    assert Understood(t, m, Name(name), port, c);
  }

  lemma DecidedTied(s: Server, policy: Policy, c: Config, m: Message, answers: set<seq<byte>>)
    requires Tied(s, m, answers, c) && PolicyPending(s)
    ensures Tied(Judged(s, policy), m, answers, c)
  {
    hide ReplyBytes, Led;
    OtherFields(s, Judged(s, policy), m, answers, c);
  }

  lemma MoreAnswers(s: Server, m: Message, answers: set<seq<byte>>, more: set<seq<byte>>, c: Config)
    requires Tied(s, m, answers, c) && answers <= more
    ensures Tied(s, m, more, c)
  {
    hide Understood, Asks4;
  }

  lemma {:induction false} RunTied(es: seq<Event>, c: Config)
    requires IsRun(es, c)
    ensures Tied(After(es, c), LastTaken(es, c), Answers(es), c)
  {
    hide Step, Enabled, Tied, Inv;
    if es == [] {
      BeginningTied(c);
    } else {
      var front, e := es[..|es| - 1], es[|es| - 1];
      RunTied(front, c);
      RunKeeps(front, c);
      StepTied(After(front, c), e, c, LastTaken(front, c), Answers(front));
    }
  }

  lemma BeginningTied(c: Config)
    ensures Tied(Created, Nothing, {}, c)
  {
  }

  lemma StepTied(s: Server, e: Event, c: Config, m: Message, answers: set<seq<byte>>)
    requires Inv(s) && Enabled(s, e) && Tied(s, m, answers, c)
    ensures var m' := if e.Received? && Takes(s, e.data) then Message(e.data, e.lookup) else m;
            var more := answers + match e case Answered(_, Some(address)) => {address} case _ => {};
            Tied(Step(s, e, c), m', more, c)
  {
    hide Inv, Tied, Read, Writable, Judged, DnsAnswered, Takes;
    assert answers + {} == answers;
    match e
    case Received(data, lookup) => ReceivedTied(s, data, c, lookup, m, answers);
    case Written(flushed, socket) => WrittenTied(s, flushed, c, socket, m, answers);
    case Answered(red, address) =>
      QueryingPhase(s);
      AnsweredTied(s, red, address, c, m, answers);
    case Decided(policy) => DecidedTied(s, policy, c, m, answers);
    case HandedOff => EndTied(s, m, answers, c);
  }

  lemma QueryingPhase(s: Server)
    requires Inv(s) && s.dns.querying
    ensures s.phase == DNS_QUERY_SENT
  {
    hide Count, ReplyBytes;
  }

  lemma EndTied(s: Server, m: Message, answers: set<seq<byte>>, c: Config)
    requires s.phase == HANDOFF && Tied(s, m, answers, c)
    ensures Tied(s.(phase := ZOMBIE), m, answers, c)
  {
    hide Led;
    OtherFields(s, s.(phase := ZOMBIE), m, answers, c);
  }

  // ----- what a hand-over delivers -----

  /** RFC 1928, section 6: the reply names what the request asked for, but for an address of 16 octets. */
  function Reply5(accepted: bool, d: Dst, port: nat): seq<byte>
    requires IsDst(d)
  {
    [5, if accepted then 0 else 2, 0] + DstBytes(if d.V6? then V4([0, 0, 0, 0]) else d) + Bytes16(port)
  }

  function Reply4(accepted: bool, octets: seq<byte>, port: nat): seq<byte> {
    [0, if accepted then 90 else 91] + Bytes16(port) + octets
  }

  /** Both peers stand ready for the destination of the bytes, and the one reply names it. */
  ghost predicate Delivered(s: Server, m: Message, answers: set<seq<byte>>, c: Config) {
    m.Message? && s.left.Some? && s.right == s.left && |s.replies| == 1
    && (s.request.version == 4 ==>
          exists octets: seq<byte>, port: nat ::
            && Asks4(m.data, octets, port) && s.left == Some(Target(Octets(octets), port))
            && s.replies[0] == Reply4(s.verdict == ACCEPT, octets, port))
    && (s.request.version == 5 ==>
          exists d: Dst, port: nat ::
            && Asks5(m.data, CONNECT, d, port) && s.left.value.port == port && LeadsTo(d, s.left.value.host, m.lookup, answers, c)
            && s.replies[0] == Reply5(s.verdict == ACCEPT, d, port)
            && (d.Name? ==> Queried(s, d.name, |s.queries|, c)) && (!d.Name? ==> s.queries == []))
  }

  /** Over every run: at the hand-over of a connection, of either version, both peers stand ready for the port and the host
      that the bytes of its request name, and the reply names them too; a name has been looked up under that name. */
  lemma HandoffBytes(es: seq<Event>, c: Config)
    requires IsRun(es, c)
    ensures var s := After(es, c);
            s.phase == HANDOFF && IsConnect(s) ==> Delivered(s, LastTaken(es, c), Answers(es), c)
  {
    hide After, LastTaken, Answers, IsRun, Tied, Inv, Delivered;
    RunTied(es, c);
    RunKeeps(es, c);
    LedDelivers(After(es, c), LastTaken(es, c), Answers(es), c);
  }

  lemma LedDelivers(s: Server, m: Message, answers: set<seq<byte>>, c: Config)
    requires Inv(s) && Tied(s, m, answers, c)
    ensures s.phase == HANDOFF && IsConnect(s) ==> Delivered(s, m, answers, c)
  {
    if s.phase == HANDOFF && IsConnect(s) {
      AtHandoff(s);
      hide Inv, Count, QueriedOnce, IsSuccess;
      if s.request.version == 4 {
        var octets: seq<byte>, port: nat :| Asks4(m.data, octets, port) && s.request.addr == octets && s.request.port == port
                                            && s.dst == Target(Octets(octets), port);
        assert s.replies[0] == Reply4(s.verdict == ACCEPT, octets, port);
      } else {
        var d: Dst, port: nat :| Understood(s, m, d, port, c) && LeadsTo(d, s.dst.host, m.lookup, answers, c);
        hide Asks5, LeadsTo, Queried;
        ReplyIs(s, m, d, port, c);
      }
    }
  }

  lemma AtHandoff(s: Server)
    requires Inv(s) && s.phase == HANDOFF && IsConnect(s)
    ensures s.left.Some? && s.right == s.left && s.left.value == s.dst && s.replies == [ReplyBytes(s)]
    ensures s.request.version == 4 || (s.request.version == 5 && s.request.cmd == CONNECT)
  {
    hide Count, ReplyBytes, IsSuccess, NamesHost;
  }

  lemma ReplyIs(s: Server, m: Message, d: Dst, port: nat, c: Config)
    requires Understood(s, m, d, port, c)
    ensures IsDst(d) && ReplyBytes(s) == Reply5(s.verdict == ACCEPT, d, port)
  {
    hide Queried, Bytes16, ReplyBytes, Asks5;
    DestinationFits(m.data, d, port);
    if d.Name? {
      ReplyToName(s);
    } else {
      ReplyToAddress(s);
    }
  }

  lemma DestinationFits(data: seq<byte>, d: Dst, port: nat)
    requires Asks5(data, CONNECT, d, port)
    ensures IsDst(d)
  {
  }

  lemma ReplyToAddress(s: Server)
    requires s.request.version == 5 && s.request.cmd == CONNECT && s.request.atype == IPV4
    ensures ReplyBytes(s) == [5, if s.verdict == ACCEPT then 0 else 2, 0] + ([1] + s.request.addr) + Bytes16(s.request.port)
  {
    hide Bytes16;
  }

  lemma ReplyToName(s: Server)
    requires s.request.version == 5 && s.request.cmd == CONNECT && s.request.atype == FQDN && |s.request.name| < 256
    ensures ReplyBytes(s)
         == [5, if s.verdict == ACCEPT then 0 else 2, 0] + ([3, |s.request.name|] + s.request.name) + Bytes16(s.request.port)
  {
    hide Bytes16;
  }

  // ----- what is taken -----

  /** RFC 1928, section 3: a whole greeting is answered, whatever methods it offers; a shorter one is waited for. */
  lemma GreetingIsAnswered(methods: seq<byte>, rest: seq<byte>, l: Lookup, c: Config)
    requires |methods| < 256
    ensures var p := [5, |methods|] + methods + rest;
            |p| >= 3 ==> Step(Created, Received(p, l), c)
                         == Created.(request := Created.request.(version := 5), out := [5, 0], phase := WAIT_REQUEST)
    ensures forall n: nat :: n < 2 + |methods| ==>
              var t := Step(Created, Received(([5, |methods|] + methods)[..n], l), c); t.phase == INIT && t.out == []
  {
    hide Requested;
    var p := [5, |methods|] + methods;
    forall n: nat | n < 2 + |methods| ensures var t := Step(Created, Received(p[..n], l), c); t.phase == INIT && t.out == [] {
      if n >= 3 {
        assert p[..n][1] == p[1] && p[..n][0] == p[0];
      }
    }
    assert (p + rest)[0] == 5 && (p + rest)[1] == |methods|;
    assert [] + [5, 0] == [5, 0];
  }

  /** A request for a connection that is laid out is left where it is exactly if it has fewer than ten bytes, as with a name
      of one or two. */
  lemma ShortRequestWaits(s: Server, data: seq<byte>, d: Dst, port: nat, l: Lookup, c: Config)
    requires s.phase == WAIT_REQUEST && Asks5(data, CONNECT, d, port)
    ensures var t := Step(s, Received(data, l), c);
            && (t.phase == WAIT_REQUEST <==> |data| < 10)
            && (|data| < 10 ==> t.out == s.out && t.error == s.error && d.Name? && |d.name| < 3)
  {
    hide Asks5;
    Parts5(data, CONNECT, d, port);
    if |data| >= 10 {
      var n := s.(request := s.request.(version := data[0], cmd := data[1]), socksError := NONE);
      LayoutParses(n, data, CONNECT, d, port);
      ParsedOnly(n, data);
      hide Parse5;
    } else {
      DestinationIsShort(data, d, port);
    }
  }

  lemma DestinationIsShort(data: seq<byte>, d: Dst, port: nat)
    requires Asks5(data, CONNECT, d, port) && |data| < 10
    ensures d.Name? && |d.name| < 3
  {
    hide Bytes16;
    Parts5(data, CONNECT, d, port);
  }

  /** A request for a connection that is laid out and has at least ten bytes is understood; a name must not be empty. */
  lemma RequestIsTaken(s: Server, data: seq<byte>, d: Dst, port: nat, l: Lookup, c: Config)
    requires s.phase == WAIT_REQUEST && Asks5(data, CONNECT, d, port) && |data| >= 10 && (d.Name? ==> d.name != [])
    ensures var t := Step(s, Received(data, l), c);
            && t.socksError == NONE && t.request.port == port && t.dst.port == port
            && (d.Name? && !l.isAddress && c.asyncDns ==> t.phase == if l.socket == 0 then REQ_RECEIVED else DNS_QUERY_SENT)
            && (!(d.Name? && !l.isAddress && c.asyncDns) ==> t.phase == WAIT_POLICY && t.left == Some(t.dst) && t.right == t.left)
  {
    hide Parse5, Asks5;
    var n := s.(request := s.request.(version := data[0], cmd := data[1]), socksError := NONE);
    Parts5(data, CONNECT, d, port);
    LayoutParses(n, data, CONNECT, d, port);
    ParsedOnly(n, data);
  }
}
