/**
 The gateway daemon: knocks with tickets, blacklist orders from the controller, and notices from
 the application, over the whitelist, the replay map and the blacklist they share.
 */
module Gateway {
  import opened Options
  import opened Words
  import opened RsaChunks
  import opened SpaTools
  import opened Firewall

  const APP_NOTICE_CLOSE_PORT_FOR_IP: int := 1

  datatype Config = Config(tcpPort: int, appPort: int, controllerIp: string, applicationIp: string)

  datatype GatewayState = GatewayState(
    wl: WhiteList,
    replay: map<seq<byte>, int>,
    black: map<string, int>)

  // ------------------------------------------------------- state transitions

  /** timestamp + valid_seconds is a uint32 sum; the clock is wider. */
  predicate Fresh(t: Ticket, now: int) {
    (t.timestamp + t.validSeconds) % TWO32 >= now
  }

  /** Whether GateFuncUdpRecv returns 0. */
  predicate Passes(cfg: Config, suite: Suite, g: GatewayState, packet: TicketPacket, ip: string, now: int)
    requires suite.Usable()
  {
    var outcome := DecryptTicket(suite, packet);
    && !IsIn(g.black, ip, cfg.appPort)
    && outcome.Done? && outcome.value.ip == ip && Fresh(outcome.value, now)
    && packet.signData !in g.replay
  }

  function Knock(cfg: Config, suite: Suite, g: GatewayState, packet: TicketPacket, ip: string, now: int): GatewayState
    requires suite.Usable()
  {
    if Passes(cfg, suite, g, packet, ip, now)
    then g.(replay := g.replay[packet.signData := 1],
            wl := Op(g.wl, IP_WHITE_LIST_ADD, ip, cfg.appPort).0)
    else g
  }

  function BlackOp(cfg: Config, g: GatewayState, op: int, ip: string): GatewayState {
    if op == IP_BLACK_LIST_ADD then
      g.(black := InsertNew(g.black, ip, cfg.appPort),
         wl := Op(g.wl, IP_WHITE_LIST_DEL, ip, cfg.appPort).0)
    else if op == IP_BLACK_LIST_DEL then g.(black := g.black - {ip})
    else g
  }

  function Notice(cfg: Config, g: GatewayState, fromIp: string, op: int, opIp: string): GatewayState {
    if fromIp == cfg.applicationIp && op == APP_NOTICE_CLOSE_PORT_FOR_IP
    then g.(wl := Op(g.wl, IP_WHITE_LIST_DEL, opIp, cfg.appPort).0)
    else g
  }

  function Setups(cfg: Config): seq<Setup> {
    [Setup([cfg.controllerIp, cfg.applicationIp], cfg.tcpPort), Setup([], cfg.appPort)]
  }

  function Start(cfg: Config): GatewayState {
    GatewayState(InitAll(Setups(cfg)), map[], map[])
  }

  lemma StartInSteps(cfg: Config)
    ensures Start(cfg).wl ==
            Init(Init(EMPTY, [cfg.controllerIp, cfg.applicationIp], cfg.tcpPort), [], cfg.appPort)
  {
    var setups := Setups(cfg);
    var one := [setups[0]];
    assert setups[..1] == one && one[..0] == [];
    assert InitAll(one) == Init(EMPTY, one[0].ips, one[0].port);
    assert InitAll(setups) == Init(InitAll(one), [], cfg.appPort);
  }

  // ---------------------------------------------------------------- the daemon

  class SDPAppGateway {
    const cfg: Config
    const suite: Suite
    const whitelist: IPWhiteList
    var md5Map: map<seq<byte>, int>
    var controllerBlackList: map<string, int>

    function State(): GatewayState
      reads this, whitelist, whitelist.iptool
    {
      GatewayState(whitelist.State(), md5Map, controllerBlackList)
    }

    constructor (cfg: Config, suite: Suite)
      ensures this.cfg == cfg && this.suite == suite
      ensures fresh(whitelist) && fresh(whitelist.iptool) && State() == Start(cfg)
    {
      this.cfg := cfg;
      this.suite := suite;
      var list := new IPWhiteList();
      whitelist := list;
      md5Map, controllerBlackList := map[], map[];
      new;
      StartInSteps(cfg);
      var _ := whitelist.InitWhiteList([cfg.controllerIp, cfg.applicationIp], cfg.tcpPort);
      var _ := whitelist.InitWhiteList([], cfg.appPort);
    }

    method QueryAndInsertMD5(md5: seq<byte>) returns (ret: int)
      modifies this`md5Map
      ensures ret == if md5 in old(md5Map) then -1 else 0
      ensures md5Map == if md5 in old(md5Map) then old(md5Map) else old(md5Map)[md5 := 1]
    {
      if md5 in md5Map {
        return -1;
      }
      md5Map := md5Map[md5 := 1];
      return 0;
    }

    method ControllerBlackListOp(op: int, ip: string, port: int) returns (ret: int)
      modifies this`controllerBlackList
      ensures ret == 0
      ensures controllerBlackList ==
              if op == IP_BLACK_LIST_ADD then InsertNew(old(controllerBlackList), ip, port)
              else if op == IP_BLACK_LIST_DEL then old(controllerBlackList) - {ip}
              else old(controllerBlackList)
    {
      if op == IP_BLACK_LIST_ADD {
        controllerBlackList := InsertNew(controllerBlackList, ip, port);
      } else if op == IP_BLACK_LIST_DEL {
        controllerBlackList := controllerBlackList - {ip};
      }
      return 0;
    }

    method ControllerBlackListIsIn(ip: string, port: int) returns (b: bool)
      ensures b == IsIn(controllerBlackList, ip, port)
    {
      b := ip in controllerBlackList && controllerBlackList[ip] == port;
    }

    /** OutOfBounds stands for the exception that opening a malformed packet can raise. */
    method GateFuncUdpRecv(packet: TicketPacket, fromIp: string, now: int) returns (r: Outcome<int>)
      requires suite.Usable()
      modifies this`md5Map, whitelist, whitelist.iptool
      ensures State() == Knock(cfg, suite, old(State()), packet, fromIp, now)
      ensures r == Done(0) <==> Passes(cfg, suite, old(State()), packet, fromIp, now)
      ensures !Passes(cfg, suite, old(State()), packet, fromIp, now) ==>
                r == if IsIn(old(controllerBlackList), fromIp, cfg.appPort) then Done(1)
                     else match DecryptTicket(suite, packet)
                          case Failed => Done(-1)
                          case OutOfBounds => OutOfBounds
                          case Done(_) => Done(1)
    {
      var isBlack := ControllerBlackListIsIn(fromIp, cfg.appPort);
      if isBlack {
        return Done(1);
      }
      var outcome := DecryptTicket(suite, packet);
      if outcome.OutOfBounds? {
        return OutOfBounds;
      }
      if outcome.Failed? {
        return Done(-1);
      }
      if outcome.value.ip != fromIp {
        return Done(1);
      }
      if (outcome.value.timestamp + outcome.value.validSeconds) % TWO32 < now {
        return Done(1);
      }
      var ret := QueryAndInsertMD5(packet.signData);
      if ret != 0 {
        return Done(1);
      }
      var _ := whitelist.OpWhiteList(IP_WHITE_LIST_ADD, fromIp, cfg.appPort);
      return Done(0);
    }

    method GateFuncBlackListOp(op: int, ip: string) returns (ret: int)
      modifies this`controllerBlackList, whitelist, whitelist.iptool
      ensures State() == BlackOp(cfg, old(State()), op, ip)
      ensures ret == if op == IP_BLACK_LIST_ADD && !IsIn(old(whitelist.list), ip, cfg.appPort) then -1 else 0
    {
      var _ := ControllerBlackListOp(op, ip, cfg.appPort);
      if op == IP_BLACK_LIST_ADD {
        ret := whitelist.OpWhiteList(IP_WHITE_LIST_DEL, ip, cfg.appPort);
        if ret < 0 {
          return -1;
        }
      }
      return 0;
    }

    /** None is the end of the C++ function, which has no return statement there. */
    method GateFuncNotice(fromIp: string, op: int, opIp: string) returns (ret: Option<int>)
      modifies whitelist, whitelist.iptool
      ensures State() == Notice(cfg, old(State()), fromIp, op, opIp)
      ensures ret == if fromIp != cfg.applicationIp then Some(1)
                     else if op != APP_NOTICE_CLOSE_PORT_FOR_IP then None
                     else if IsIn(old(whitelist.list), opIp, cfg.appPort) then None
                     else Some(-1)
    {
      if fromIp != cfg.applicationIp {
        return Some(1);
      }
      if op == APP_NOTICE_CLOSE_PORT_FOR_IP {
        var r := whitelist.OpWhiteList(IP_WHITE_LIST_DEL, opIp, cfg.appPort);
        if r < 0 {
          return Some(-1);
        }
      }
      return None;
    }
  }

  // ------------------------------------------------------------- whole runs

  datatype Event =
    | Knocked(packet: TicketPacket, fromIp: string, now: int)
    | BlackOrdered(op: int, ip: string)
    | Noticed(fromIp: string, op: int, opIp: string)

  function Step(cfg: Config, suite: Suite, g: GatewayState, e: Event): GatewayState
    requires suite.Usable()
  {
    match e
    case Knocked(packet, ip, now) => Knock(cfg, suite, g, packet, ip, now)
    case BlackOrdered(op, ip) => BlackOp(cfg, g, op, ip)
    case Noticed(fromIp, op, opIp) => Notice(cfg, g, fromIp, op, opIp)
  }

  function Run(cfg: Config, suite: Suite, trace: seq<Event>): GatewayState
    requires suite.Usable()
  {
    if trace == [] then Start(cfg)
    else Step(cfg, suite, Run(cfg, suite, trace[..|trace| - 1]), trace[|trace| - 1])
  }

  // ------------------------------- what a trace means, without any gateway state

  /** The last blacklist order about ip, if any, was to add it. */
  predicate Blacklisted(trace: seq<Event>, ip: string)
  {
    trace != [] &&
    var n := |trace| - 1;
    var e := trace[n];
    if e.BlackOrdered? && e.ip == ip && e.op == IP_BLACK_LIST_ADD then true
    else if e.BlackOrdered? && e.ip == ip && e.op == IP_BLACK_LIST_DEL then false
    else Blacklisted(trace[..n], ip)
  }

  /** The packet opens under the suite to a ticket that names ip and is unexpired. */
  predicate GoodTicket(suite: Suite, packet: TicketPacket, ip: string, now: int)
    requires suite.Usable()
  {
    var outcome := DecryptTicket(suite, packet);
    outcome.Done? && outcome.value.ip == ip && Fresh(outcome.value, now)
  }

  /** e, coming after the trace, is a knock that is let through. */
  predicate LetThrough(suite: Suite, trace: seq<Event>, e: Event)
    requires suite.Usable()
    decreases |trace|, 1
  {
    && e.Knocked?
    && !Blacklisted(trace, e.fromIp)
    && GoodTicket(suite, e.packet, e.fromIp, e.now)
    && !Consumed(suite, trace, e.packet.signData)
  }

  /** An earlier knock with this signature was let through. */
  predicate Consumed(suite: Suite, trace: seq<Event>, sign: seq<byte>)
    requires suite.Usable()
    decreases |trace|, 0
  {
    trace != [] &&
    var n := |trace| - 1;
    || Consumed(suite, trace[..n], sign)
    || (LetThrough(suite, trace[..n], trace[n]) && trace[n].packet.signData == sign)
  }

  predicate Removes(cfg: Config, e: Event, ip: string) {
    || (e.BlackOrdered? && e.op == IP_BLACK_LIST_ADD && e.ip == ip)
    || (e.Noticed? && e.fromIp == cfg.applicationIp && e.op == APP_NOTICE_CLOSE_PORT_FOR_IP && e.opIp == ip)
  }

  predicate Admits(suite: Suite, trace: seq<Event>, e: Event, ip: string)
    requires suite.Usable()
  {
    LetThrough(suite, trace, e) && e.fromIp == ip
  }

  /** The last event that admits or removes ip admits it. */
  predicate Open(cfg: Config, suite: Suite, trace: seq<Event>, ip: string)
    requires suite.Usable()
  {
    trace != [] &&
    var n := |trace| - 1;
    if Admits(suite, trace[..n], trace[n], ip) then true
    else if Removes(cfg, trace[n], ip) then false
    else Open(cfg, suite, trace[..n], ip)
  }

  predicate Seed(cfg: Config, ip: string) {
    ip == cfg.controllerIp || ip == cfg.applicationIp
  }

  // -------------------------------------------------- the gateway follows its trace

  lemma StrangerAtStart(cfg: Config, ip: string)
    requires !Seed(cfg, ip)
    ensures Tracks(Start(cfg).wl, ip, cfg.appPort) && ip !in Start(cfg).wl.list
  {
    var setups := Setups(cfg);
    assert setups[1].port == cfg.appPort;
    StrangersAfterInit(setups, ip, cfg.appPort);
  }

  /** The blacklist and the replay map hold exactly what the trace says. */
  lemma {:induction false} MapsFollowTrace(cfg: Config, suite: Suite, trace: seq<Event>, ip: string, sign: seq<byte>)
    requires suite.Usable()
    ensures
      var g := Run(cfg, suite, trace);
      && (ip in g.black ==> g.black[ip] == cfg.appPort)
      && (IsIn(g.black, ip, cfg.appPort) <==> Blacklisted(trace, ip))
      && (sign in g.replay <==> Consumed(suite, trace, sign))
    decreases |trace|, 0
  {
    if trace != [] {
      var n := |trace| - 1;
      MapsFollowTrace(cfg, suite, trace[..n], ip, sign);
      if trace[n].Knocked? {
        PassesIsLetThrough(cfg, suite, trace[..n], trace[n]);
      }
    }
  }

  /** GateFuncUdpRecv returns 0 in the reached state exactly on the knocks the trace lets through. */
  lemma {:induction false} PassesIsLetThrough(cfg: Config, suite: Suite, trace: seq<Event>, e: Event)
    requires suite.Usable() && e.Knocked?
    ensures Passes(cfg, suite, Run(cfg, suite, trace), e.packet, e.fromIp, e.now) <==> LetThrough(suite, trace, e)
    decreases |trace|, 1
  {
    MapsFollowTrace(cfg, suite, trace, e.fromIp, e.packet.signData);
  }

  /**
   For every trace and every IP that is not a seed: the firewall accepts the IP on the application
   port exactly when the trace leaves it open, and the whitelist agrees.
   */
  lemma {:induction false} FirewallFollowsTrace(cfg: Config, suite: Suite, trace: seq<Event>, ip: string)
    requires suite.Usable() && !Seed(cfg, ip)
    ensures
      var g := Run(cfg, suite, trace);
      && Tracks(g.wl, ip, cfg.appPort)
      && (IsIn(g.wl.list, ip, cfg.appPort) <==> Open(cfg, suite, trace, ip))
      && Verdict(g.wl.chain, ip, cfg.appPort) ==
         Some(if Open(cfg, suite, trace, ip) then ACCEPT else DROP)
  {
    var g := Run(cfg, suite, trace);
    if trace == [] {
      StrangerAtStart(cfg, ip);
    } else {
      var n := |trace| - 1;
      var before, e := Run(cfg, suite, trace[..n]), trace[n];
      FirewallFollowsTrace(cfg, suite, trace[..n], ip);
      match e
      case Knocked(packet, x, now) =>
        PassesIsLetThrough(cfg, suite, trace[..n], e);
        OpKeepsTracks(before.wl, IP_WHITE_LIST_ADD, x, cfg.appPort, ip);
      case BlackOrdered(op, x) =>
        OpKeepsTracks(before.wl, IP_WHITE_LIST_DEL, x, cfg.appPort, ip);
      case Noticed(fromIp, op, x) =>
        OpKeepsTracks(before.wl, IP_WHITE_LIST_DEL, x, cfg.appPort, ip);
    }
    TracksMeansAgreement(g.wl, ip, cfg.appPort);
  }

  // ------------------------------------- the same without recursion over the trace

  /** Event i puts ip on the blacklist and no later event takes it off. */
  predicate BlackSince(trace: seq<Event>, ip: string, i: int) {
    && 0 <= i < |trace| && trace[i] == BlackOrdered(IP_BLACK_LIST_ADD, ip)
    && forall j :: i < j < |trace| ==> trace[j] != BlackOrdered(IP_BLACK_LIST_DEL, ip)
  }

  /** Event i is a knock with this signature for which GateFuncUdpRecv returns 0. */
  predicate PassedWith(cfg: Config, suite: Suite, trace: seq<Event>, sign: seq<byte>, i: int)
    requires suite.Usable()
  {
    && 0 <= i < |trace| && trace[i].Knocked? && trace[i].packet.signData == sign
    && Passes(cfg, suite, Run(cfg, suite, trace[..i]), trace[i].packet, trace[i].fromIp, trace[i].now)
  }

  lemma {:induction false} BlacklistExact(trace: seq<Event>, ip: string)
    ensures Blacklisted(trace, ip) <==> exists i :: BlackSince(trace, ip, i)
  {
    if trace != [] {
      var n := |trace| - 1;
      BlacklistExact(trace[..n], ip);
      if i :| BlackSince(trace, ip, i) && i < n {
        assert BlackSince(trace[..n], ip, i);
      }
      if trace[n] == BlackOrdered(IP_BLACK_LIST_ADD, ip) {
        assert BlackSince(trace, ip, n);
      } else if i :| BlackSince(trace[..n], ip, i) && trace[n] != BlackOrdered(IP_BLACK_LIST_DEL, ip) {
        assert BlackSince(trace, ip, i);
      }
    }
  }

  lemma PassedWithBefore(cfg: Config, suite: Suite, trace: seq<Event>, sign: seq<byte>, i: int)
    requires suite.Usable() && trace != [] && i < |trace| - 1
    ensures PassedWith(cfg, suite, trace, sign, i) <==> PassedWith(cfg, suite, trace[..|trace| - 1], sign, i)
  {
    if i >= 0 {
      assert trace[..|trace| - 1][..i] == trace[..i];
    }
  }

  lemma PassedWithLast(cfg: Config, suite: Suite, trace: seq<Event>, sign: seq<byte>)
    requires suite.Usable() && trace != []
    ensures
      var n := |trace| - 1;
      PassedWith(cfg, suite, trace, sign, n) <==>
        LetThrough(suite, trace[..n], trace[n]) && trace[n].packet.signData == sign
  {
    var n := |trace| - 1;
    if trace[n].Knocked? {
      PassesIsLetThrough(cfg, suite, trace[..n], trace[n]);
    }
  }

  lemma PassedWithStep(cfg: Config, suite: Suite, trace: seq<Event>, sign: seq<byte>)
    requires suite.Usable() && trace != []
    ensures
      var n := |trace| - 1;
      (exists i :: PassedWith(cfg, suite, trace, sign, i)) <==>
        PassedWith(cfg, suite, trace, sign, n) || exists i :: PassedWith(cfg, suite, trace[..n], sign, i)
  {
    var n := |trace| - 1;
    if i :| PassedWith(cfg, suite, trace, sign, i) && i != n {
      PassedWithBefore(cfg, suite, trace, sign, i);
    }
    if i :| PassedWith(cfg, suite, trace[..n], sign, i) {
      PassedWithBefore(cfg, suite, trace, sign, i);
    }
  }

  lemma {:induction false} ConsumedExact(cfg: Config, suite: Suite, trace: seq<Event>, sign: seq<byte>)
    requires suite.Usable()
    ensures Consumed(suite, trace, sign) <==> exists i :: PassedWith(cfg, suite, trace, sign, i)
  {
    if trace != [] {
      ConsumedExact(cfg, suite, trace[..|trace| - 1], sign);
      PassedWithStep(cfg, suite, trace, sign);
      PassedWithLast(cfg, suite, trace, sign);
    }
  }

  /**
   After every run, and whatever the clock reads, a knock returns 0 exactly when no order has put its
   IP on the blacklist without a later one taking it off, no earlier knock with its signature returned
   0, and its ticket opens, names the IP and ends, as a uint32 sum, no earlier than now.
   */
  lemma PassesExactly(cfg: Config, suite: Suite, trace: seq<Event>, packet: TicketPacket, ip: string, now: int)
    requires suite.Usable()
    ensures Passes(cfg, suite, Run(cfg, suite, trace), packet, ip, now) <==>
            && !(exists i :: BlackSince(trace, ip, i))
            && !(exists i :: PassedWith(cfg, suite, trace, packet.signData, i))
            && exists t :: DecryptTicket(suite, packet) == Done(t)
                           && t.ip == ip && now <= (t.timestamp + t.validSeconds) % 0x1_0000_0000
  {
    MapsFollowTrace(cfg, suite, trace, ip, packet.signData);
    BlacklistExact(trace, ip);
    ConsumedExact(cfg, suite, trace, packet.signData);
  }

  // ------------------------------------------------------ safety and provenance

  lemma {:induction false} OpenExcludesBlacklisted(cfg: Config, suite: Suite, trace: seq<Event>, ip: string)
    requires suite.Usable()
    ensures !(Open(cfg, suite, trace, ip) && Blacklisted(trace, ip))
  {
    if trace != [] {
      OpenExcludesBlacklisted(cfg, suite, trace[..|trace| - 1], ip);
    }
  }

  /** No IP that is not a seed is ever both blacklisted and accepted on the application port. */
  lemma BlacklistSafety(cfg: Config, suite: Suite, trace: seq<Event>, ip: string)
    requires suite.Usable() && !Seed(cfg, ip)
    ensures var g := Run(cfg, suite, trace);
            IsIn(g.black, ip, cfg.appPort) ==> Verdict(g.wl.chain, ip, cfg.appPort) == Some(DROP)
  {
    FirewallFollowsTrace(cfg, suite, trace, ip);
    MapsFollowTrace(cfg, suite, trace, ip, []);
    OpenExcludesBlacklisted(cfg, suite, trace, ip);
  }

  /**
   A closed IP stays closed through every continuation that lets no knock of its own through; in
   particular, taking it off the blacklist does not open it.
   */
  lemma {:induction false} ClosedUntilAdmitted(
    cfg: Config, suite: Suite, trace: seq<Event>, more: seq<Event>, ip: string
  )
    requires suite.Usable() && !Seed(cfg, ip)
    requires Verdict(Run(cfg, suite, trace).wl.chain, ip, cfg.appPort) == Some(DROP)
    requires forall i :: 0 <= i < |more| ==> !Admits(suite, trace + more[..i], more[i], ip)
    ensures Verdict(Run(cfg, suite, trace + more).wl.chain, ip, cfg.appPort) == Some(DROP)
  {
    FirewallFollowsTrace(cfg, suite, trace + more, ip);
    if more == [] {
      assert trace + more == trace;
    } else {
      var n := |more| - 1;
      assert forall i :: 0 <= i < n ==> more[..n][..i] == more[..i] && more[..n][i] == more[i];
      ClosedUntilAdmitted(cfg, suite, trace, more[..n], ip);
      FirewallFollowsTrace(cfg, suite, trace + more[..n], ip);
      assert (trace + more)[..|trace + more| - 1] == trace + more[..n];
    }
  }

  /** Event i let ip through and nothing after it removed ip. */
  predicate AdmittedAt(cfg: Config, suite: Suite, trace: seq<Event>, ip: string, i: int)
    requires suite.Usable()
  {
    && 0 <= i < |trace|
    && Admits(suite, trace[..i], trace[i], ip)
    && forall j :: i < j < |trace| ==> !Removes(cfg, trace[j], ip)
  }

  lemma StillAdmitted(cfg: Config, suite: Suite, trace: seq<Event>, ip: string, i: int)
    requires suite.Usable() && trace != []
    requires AdmittedAt(cfg, suite, trace[..|trace| - 1], ip, i) && !Removes(cfg, trace[|trace| - 1], ip)
    ensures AdmittedAt(cfg, suite, trace, ip, i)
  {
    assert trace[..|trace| - 1][..i] == trace[..i];
  }

  lemma {:induction false} OpenHasAdmission(cfg: Config, suite: Suite, trace: seq<Event>, ip: string) returns (i: int)
    requires suite.Usable() && Open(cfg, suite, trace, ip)
    ensures AdmittedAt(cfg, suite, trace, ip, i)
  {
    var n := |trace| - 1;
    if Admits(suite, trace[..n], trace[n], ip) {
      i := n;
    } else {
      i := OpenHasAdmission(cfg, suite, trace[..n], ip);
      StillAdmitted(cfg, suite, trace, ip, i);
    }
  }

  lemma {:induction false} AdmissionLeavesOpen(cfg: Config, suite: Suite, trace: seq<Event>, ip: string, i: int)
    requires suite.Usable() && AdmittedAt(cfg, suite, trace, ip, i)
    ensures Open(cfg, suite, trace, ip)
    decreases |trace|
  {
    var n := |trace| - 1;
    if i < n {
      assert trace[..n][..i] == trace[..i];
      AdmissionLeavesOpen(cfg, suite, trace[..n], ip, i);
    }
  }

  /**
   Admission provenance, in both directions: an IP that is not a seed is accepted on the application
   port exactly when, after its last removal, the trace has a knock from it whose ticket opened, named
   it and was unexpired at that moment, while it was not blacklisted and the signature was unused.
   */
  lemma AdmissionProvenance(cfg: Config, suite: Suite, trace: seq<Event>, ip: string)
    requires suite.Usable() && !Seed(cfg, ip)
    ensures Verdict(Run(cfg, suite, trace).wl.chain, ip, cfg.appPort) == Some(ACCEPT) <==>
            exists i :: AdmittedAt(cfg, suite, trace, ip, i)
    ensures forall i :: AdmittedAt(cfg, suite, trace, ip, i) ==>
              && trace[i].Knocked? && trace[i].fromIp == ip
              && GoodTicket(suite, trace[i].packet, ip, trace[i].now)
              && !Blacklisted(trace[..i], ip)
  {
    FirewallFollowsTrace(cfg, suite, trace, ip);
    if Open(cfg, suite, trace, ip) {
      var i := OpenHasAdmission(cfg, suite, trace, ip);
    }
    forall i | AdmittedAt(cfg, suite, trace, ip, i)
      ensures Open(cfg, suite, trace, ip)
    {
      AdmissionLeavesOpen(cfg, suite, trace, ip, i);
    }
  }

  /** The same with the events spelt out: a knock that returned 0, then no order and no notice against ip. */
  lemma AdmittedExactly(cfg: Config, suite: Suite, trace: seq<Event>, ip: string, i: int)
    requires suite.Usable()
    ensures AdmittedAt(cfg, suite, trace, ip, i) <==>
            && 0 <= i < |trace| && trace[i].Knocked? && trace[i].fromIp == ip
            && Passes(cfg, suite, Run(cfg, suite, trace[..i]), trace[i].packet, ip, trace[i].now)
            && forall j :: i < j < |trace| ==>
                 && trace[j] != BlackOrdered(IP_BLACK_LIST_ADD, ip)
                 && trace[j] != Noticed(cfg.applicationIp, APP_NOTICE_CLOSE_PORT_FOR_IP, ip)
  {
    if 0 <= i < |trace| && trace[i].Knocked? {
      PassesIsLetThrough(cfg, suite, trace[..i], trace[i]);
    }
    assert forall j :: 0 <= j < |trace| ==>
      (Removes(cfg, trace[j], ip) <==>
         || trace[j] == BlackOrdered(IP_BLACK_LIST_ADD, ip)
         || trace[j] == Noticed(cfg.applicationIp, APP_NOTICE_CLOSE_PORT_FOR_IP, ip));
  }

  // ------------------------------------------------------------- conservation

  function PassCount(suite: Suite, trace: seq<Event>): nat
    requires suite.Usable()
  {
    if trace == [] then 0
    else
      var n := |trace| - 1;
      PassCount(suite, trace[..n]) + (if LetThrough(suite, trace[..n], trace[n]) then 1 else 0)
  }

  /** Every knock that returned 0 is one entry of the replay map. */
  lemma {:induction false} PassesAreConserved(cfg: Config, suite: Suite, trace: seq<Event>)
    requires suite.Usable()
    ensures |Run(cfg, suite, trace).replay| == PassCount(suite, trace)
  {
    if trace != [] {
      var n := |trace| - 1;
      PassesAreConserved(cfg, suite, trace[..n]);
      if trace[n].Knocked? {
        PassesIsLetThrough(cfg, suite, trace[..n], trace[n]);
      }
    }
  }

  lemma {:induction false} ConsumedByPass(suite: Suite, trace: seq<Event>, i: nat)
    requires suite.Usable() && i < |trace| && LetThrough(suite, trace[..i], trace[i])
    ensures Consumed(suite, trace, trace[i].packet.signData)
    decreases |trace|
  {
    var n := |trace| - 1;
    if i < n {
      assert trace[..n][..i] == trace[..i];
      ConsumedByPass(suite, trace[..n], i);
    }
  }

  /** Of two knocks of one run for which GateFuncUdpRecv returns 0, the signatures differ. */
  lemma NoSignatureTwice(cfg: Config, suite: Suite, trace: seq<Event>, i: nat, j: nat)
    requires suite.Usable() && i < j < |trace| && trace[i].Knocked? && trace[j].Knocked?
    requires Passes(cfg, suite, Run(cfg, suite, trace[..i]), trace[i].packet, trace[i].fromIp, trace[i].now)
    requires Passes(cfg, suite, Run(cfg, suite, trace[..j]), trace[j].packet, trace[j].fromIp, trace[j].now)
    ensures trace[i].packet.signData != trace[j].packet.signData
  {
    PassesIsLetThrough(cfg, suite, trace[..i], trace[i]);
    PassesIsLetThrough(cfg, suite, trace[..j], trace[j]);
    assert trace[..j][..i] == trace[..i];
    ConsumedByPass(suite, trace[..j], i);
  }

  // ------------------------------------------------------------------- seeds

  function PassesOf(suite: Suite, trace: seq<Event>, ip: string): nat
    requires suite.Usable()
  {
    if trace == [] then 0
    else
      var n := |trace| - 1;
      PassesOf(suite, trace[..n], ip) + (if Admits(suite, trace[..n], trace[n], ip) then 1 else 0)
  }

  lemma SeedAtStart(cfg: Config, ip: string)
    requires Seed(cfg, ip) && cfg.tcpPort != cfg.appPort
    ensures Pinned(Start(cfg).wl, ip)
    ensures Guarded(Start(cfg).wl.chain, ip, cfg.appPort)
    ensures Count(Start(cfg).wl.chain, Accept(ip, cfg.appPort)) == 0
  {
    var setups := Setups(cfg);
    var first := [setups[0]];
    assert setups[..1] == first && first[..0] == [];
    SeedsAfterInit(first, ip, 0);
    NoRulesOffPort(first, ip, cfg.appPort);
    InsertFacts(InitAll(first).chain, Drop(cfg.appPort), Accept(ip, cfg.appPort), ip, cfg.appPort);
  }

  /** On a seed a knock that passes adds one rule, and no event removes any. */
  lemma StepOnSeed(cfg: Config, suite: Suite, g: GatewayState, e: Event, ip: string)
    requires suite.Usable() && cfg.appPort != 1
    requires Pinned(g.wl, ip) && Guarded(g.wl.chain, ip, cfg.appPort)
    ensures
      var g' := Step(cfg, suite, g, e);
      && Pinned(g'.wl, ip) && Guarded(g'.wl.chain, ip, cfg.appPort)
      && Count(g'.wl.chain, Accept(ip, cfg.appPort)) == Count(g.wl.chain, Accept(ip, cfg.appPort))
           + (if e.Knocked? && e.fromIp == ip && Passes(cfg, suite, g, e.packet, ip, e.now) then 1 else 0)
  {
    match e
    case Knocked(packet, x, now) => OpOnPinned(g.wl, IP_WHITE_LIST_ADD, x, cfg.appPort, ip, cfg.appPort);
    case BlackOrdered(op, x) => OpOnPinned(g.wl, IP_WHITE_LIST_DEL, x, cfg.appPort, ip, cfg.appPort);
    case Noticed(f, op, x) => OpOnPinned(g.wl, IP_WHITE_LIST_DEL, x, cfg.appPort, ip, cfg.appPort);
  }

  /**
   For a seed neither the blacklist nor a notice ever closes the application port: it is accepted
   there exactly when some knock of its own has been let through, and each one leaves a rule.
   */
  lemma {:induction false} SeedsAreNeverClosed(cfg: Config, suite: Suite, trace: seq<Event>, ip: string)
    requires suite.Usable() && Seed(cfg, ip) && cfg.tcpPort != cfg.appPort && cfg.appPort != 1
    ensures
      var g := Run(cfg, suite, trace);
      && Pinned(g.wl, ip) && Guarded(g.wl.chain, ip, cfg.appPort)
      && Count(g.wl.chain, Accept(ip, cfg.appPort)) == PassesOf(suite, trace, ip)
      && (Verdict(g.wl.chain, ip, cfg.appPort) == Some(ACCEPT) <==> PassesOf(suite, trace, ip) > 0)
  {
    if trace == [] {
      SeedAtStart(cfg, ip);
    } else {
      var n := |trace| - 1;
      SeedsAreNeverClosed(cfg, suite, trace[..n], ip);
      StepOnSeed(cfg, suite, Run(cfg, suite, trace[..n]), trace[n], ip);
      if trace[n].Knocked? {
        PassesIsLetThrough(cfg, suite, trace[..n], trace[n]);
      }
    }
    VerdictOfGuarded(Run(cfg, suite, trace).wl.chain, ip, cfg.appPort);
  }

  /**
   Blacklist safety exactly: a blacklisted IP is accepted on the application port if and only if it
   is a seed with an earlier knock that was let through.
   */
  lemma BlacklistSafetyExact(cfg: Config, suite: Suite, trace: seq<Event>, ip: string)
    requires suite.Usable() && cfg.tcpPort != cfg.appPort && cfg.appPort != 1
    requires Blacklisted(trace, ip)
    ensures Verdict(Run(cfg, suite, trace).wl.chain, ip, cfg.appPort) == Some(ACCEPT) <==>
            Seed(cfg, ip) && PassesOf(suite, trace, ip) > 0
  {
    if Seed(cfg, ip) {
      SeedsAreNeverClosed(cfg, suite, trace, ip);
    } else {
      MapsFollowTrace(cfg, suite, trace, ip, []);
      BlacklistSafety(cfg, suite, trace, ip);
    }
  }

  /** The smallest run that shows it: a seed knocks, then is blacklisted, and stays accepted. */
  lemma BlacklistedSeedStaysOpen(cfg: Config, suite: Suite, packet: TicketPacket, ip: string, now: int)
    requires suite.Usable() && Seed(cfg, ip) && cfg.tcpPort != cfg.appPort && cfg.appPort != 1
    requires GoodTicket(suite, packet, ip, now)
    ensures
      var trace := [Knocked(packet, ip, now), BlackOrdered(IP_BLACK_LIST_ADD, ip)];
      var g := Run(cfg, suite, trace);
      && IsIn(g.black, ip, cfg.appPort)
      && Verdict(g.wl.chain, ip, cfg.appPort) == Some(ACCEPT)
  {
    var trace := [Knocked(packet, ip, now), BlackOrdered(IP_BLACK_LIST_ADD, ip)];
    var one := [trace[0]];
    assert trace[..1] == one && one[..0] == [];
    assert LetThrough(suite, [], trace[0]);
    assert PassesOf(suite, one, ip) == 1;
    assert PassesOf(suite, trace, ip) >= 1;
    MapsFollowTrace(cfg, suite, trace, ip, []);
    BlacklistSafetyExact(cfg, suite, trace, ip);
  }

  /**
   Whatever happens, only the application port changes: on the gateway's own port exactly the seeds
   are accepted, and no other port has a rule that matches anyone.
   */
  lemma {:induction false} OtherPortsUntouched(cfg: Config, suite: Suite, trace: seq<Event>, ip: string, q: int)
    requires suite.Usable() && q != cfg.appPort
    ensures Verdict(Run(cfg, suite, trace).wl.chain, ip, q) ==
            if q != cfg.tcpPort then None else Some(if Seed(cfg, ip) then ACCEPT else DROP)
  {
    if trace == [] {
      OtherPortsAtStart(cfg, ip, q);
    } else {
      var n := |trace| - 1;
      var before, e := Run(cfg, suite, trace[..n]), trace[n];
      OtherPortsUntouched(cfg, suite, trace[..n], ip, q);
      match e
      case Knocked(packet, x, now) => OpKeepsOtherPorts(before.wl, IP_WHITE_LIST_ADD, x, cfg.appPort, ip, q);
      case BlackOrdered(op, x) => OpKeepsOtherPorts(before.wl, IP_WHITE_LIST_DEL, x, cfg.appPort, ip, q);
      case Noticed(f, op, x) => OpKeepsOtherPorts(before.wl, IP_WHITE_LIST_DEL, x, cfg.appPort, ip, q);
    }
  }

  lemma OtherPortsAtStart(cfg: Config, ip: string, q: int)
    requires q != cfg.appPort
    ensures Verdict(Start(cfg).wl.chain, ip, q) ==
            if q != cfg.tcpPort then None else Some(if Seed(cfg, ip) then ACCEPT else DROP)
  {
    var setups := Setups(cfg);
    assert setups[0].port == cfg.tcpPort;
    if q != cfg.tcpPort {
      NoVerdictOffPort(setups, ip, q);
    } else {
      if Seed(cfg, ip) {
        assert ip in setups[0].ips;
        SeedsAfterInit(setups, ip, 0);
      } else {
        StrangersAfterInit(setups, ip, cfg.tcpPort);
      }
      VerdictOfGuarded(Start(cfg).wl.chain, ip, cfg.tcpPort);
    }
  }
}
