/** What the controller guarantees over whole runs. */
module ControllerRuns {
  import opened Options
  import opened Words
  import opened RsaChunks
  import opened SpaTools
  import opened Firewall
  import opened OrderedMap
  import opened Decimal
  import opened Controller

  datatype Event =
    | Knocked(packet: VoucherPacket, fromIp: string)
    | Registered(ip: string, items: seq<AppItem>)

  function Step(cfg: Config, suite: Suite, c: ControllerState, e: Event): ControllerState
    requires suite.Usable()
  {
    match e
    case Knocked(packet, ip) => Knock(cfg, suite, c, packet, ip)
    case Registered(ip, items) => Register(c, ip, items)
  }

  function Run(cfg: Config, suite: Suite, trace: seq<Event>): ControllerState
    requires suite.Usable()
  {
    if trace == [] then Start(cfg)
    else Step(cfg, suite, Run(cfg, suite, trace[..|trace| - 1]), trace[|trace| - 1])
  }

  // ---------------------------- what a trace means, without any controller state

  predicate IsUser(acc: string) {
    acc == "xiaoming" || acc == "xiaohong" || acc == "xiaobai"
  }

  /** The applications of the last registration from ip that was not empty. */
  function CurrentApps(trace: seq<Event>, ip: string): Option<seq<AppItem>>
  {
    if trace == [] then None
    else
      var n := |trace| - 1;
      var e := trace[n];
      if e.Registered? && e.ip == ip && e.items != [] then Some(e.items)
      else CurrentApps(trace[..n], ip)
  }

  predicate HasItemOn(items: seq<AppItem>, port: int) {
    exists i :: 0 <= i < |items| && items[i].appTcpPort == port
  }

  /** Some registration from ip, at any time, had an application on this port. */
  predicate EverRegistered(trace: seq<Event>, ip: string, port: int)
  {
    trace != [] &&
    var n := |trace| - 1;
    || EverRegistered(trace[..n], ip, port)
    || (trace[n].Registered? && trace[n].ip == ip && HasItemOn(trace[n].items, port))
  }

  predicate AnyRegistered(trace: seq<Event>)
  {
    trace != [] &&
    var n := |trace| - 1;
    AnyRegistered(trace[..n]) || (trace[n].Registered? && trace[n].items != [])
  }

  /** One of the three accounts with its password, once something is registered. */
  predicate Accredited(trace: seq<Event>, account: Account) {
    IsUser(account.acc) && account.pwd == "123456" && AnyRegistered(trace)
  }

  predicate LetThrough(suite: Suite, trace: seq<Event>, e: Event)
    requires suite.Usable()
    decreases |trace|, 1
  {
    e.Knocked? &&
    var voucher := DecryptVoucher(suite, e.packet);
    voucher.Done? && Accredited(trace, voucher.value.account) && !Consumed(suite, trace, e.packet.md5Data)
  }

  predicate Refused(suite: Suite, trace: seq<Event>, e: Event)
    requires suite.Usable()
  {
    e.Knocked? &&
    var voucher := DecryptVoucher(suite, e.packet);
    voucher.Done? && !Accredited(trace, voucher.value.account)
  }

  /** An earlier knock with this digest was let through. */
  predicate Consumed(suite: Suite, trace: seq<Event>, md5: seq<byte>)
    requires suite.Usable()
    decreases |trace|, 0
  {
    trace != [] &&
    var n := |trace| - 1;
    || Consumed(suite, trace[..n], md5)
    || (LetThrough(suite, trace[..n], trace[n]) && trace[n].packet.md5Data == md5)
  }

  /**
   The last decisive knock of ip was let through. Knocks that do not open and replays by an
   accredited account decide nothing.
   */
  predicate Listed(suite: Suite, trace: seq<Event>, ip: string)
    requires suite.Usable()
  {
    trace != [] &&
    var n := |trace| - 1;
    if LetThrough(suite, trace[..n], trace[n]) && trace[n].fromIp == ip then true
    else if Refused(suite, trace[..n], trace[n]) && trace[n].fromIp == ip then false
    else Listed(suite, trace[..n], ip)
  }

  // --------------------------------------------------------------- permissions

  lemma GrantUsersFacts(perms: Permissions, dst: string, acc: string, d: string)
    ensures Granted(GrantUsers(perms, dst), acc, d) <==> Granted(perms, acc, d) || (IsUser(acc) && d == dst)
    ensures acc in GrantUsers(perms, dst) <==> acc in perms || IsUser(acc)
    ensures HasAccessList(GrantUsers(perms, dst), acc) <==> HasAccessList(perms, acc) || IsUser(acc)
  {
    if IsUser(acc) {
      assert Granted(GrantUsers(perms, dst), acc, dst);
    }
  }

  lemma {:induction false} GrantAllFacts(
    perms: Permissions, ip: string, items: seq<AppItem>, acc: string, ip': string, port: int
  )
    ensures Granted(GrantAll(perms, ip, items), acc, Destination(ip', port)) <==>
            || Granted(perms, acc, Destination(ip', port))
            || (IsUser(acc) && ip == ip' && HasItemOn(items, port))
    ensures HasAccessList(GrantAll(perms, ip, items), acc) <==>
            HasAccessList(perms, acc) || (IsUser(acc) && items != [])
  {
    if items != [] {
      var n := |items| - 1;
      var last := items[n].appTcpPort;
      GrantAllFacts(perms, ip, items[..n], acc, ip', port);
      GrantUsersFacts(GrantAll(perms, ip, items[..n]), Destination(ip, last), acc, Destination(ip', port));
      SplitItems(items, port);
      if Destination(ip, last) == Destination(ip', port) {
        DestinationInjective(ip, last, ip', port);
      }
    }
  }

  lemma SplitItems(items: seq<AppItem>, port: int)
    requires items != []
    ensures var n := |items| - 1;
            HasItemOn(items, port) <==> HasItemOn(items[..n], port) || items[n].appTcpPort == port
  {
    var n := |items| - 1;
    if i :| 0 <= i < n && items[i].appTcpPort == port {
      assert items[..n][i] == items[i];
    }
  }

  /** A permission holds exactly for the three accounts and everything ever registered. */
  lemma {:induction false} PermissionsFollowTrace(
    cfg: Config, suite: Suite, trace: seq<Event>, acc: string, ip: string, port: int
  )
    requires suite.Usable()
    ensures
      var c := Run(cfg, suite, trace);
      && (Granted(c.perms, acc, Destination(ip, port)) <==> IsUser(acc) && EverRegistered(trace, ip, port))
      && (HasAccessList(c.perms, acc) <==> IsUser(acc) && AnyRegistered(trace))
  {
    if trace != [] {
      var n := |trace| - 1;
      PermissionsFollowTrace(cfg, suite, trace[..n], acc, ip, port);
      if trace[n].Registered? {
        GrantAllFacts(Run(cfg, suite, trace[..n]).perms, trace[n].ip, trace[n].items, acc, ip, port);
      }
    }
  }

  lemma AuthenticatedIsAccredited(cfg: Config, suite: Suite, trace: seq<Event>, account: Account)
    requires suite.Usable()
    ensures Authenticated(Run(cfg, suite, trace), account) <==> Accredited(trace, account)
  {
    PermissionsFollowTrace(cfg, suite, trace, account.acc, "", 0);
  }

  // ------------------------------------------------- replay map and whitelist

  lemma {:induction false} ReplayFollowsTrace(cfg: Config, suite: Suite, trace: seq<Event>, md5: seq<byte>)
    requires suite.Usable()
    ensures md5 in Run(cfg, suite, trace).replay <==> Consumed(suite, trace, md5)
    decreases |trace|, 0
  {
    if trace != [] {
      var n := |trace| - 1;
      ReplayFollowsTrace(cfg, suite, trace[..n], md5);
      if trace[n].Knocked? {
        VerdictsFollowTrace(cfg, suite, trace[..n], trace[n]);
      }
    }
  }

  /** ConFuncUdpRecv passes and refuses in the reached state exactly what the trace says. */
  lemma {:induction false} VerdictsFollowTrace(cfg: Config, suite: Suite, trace: seq<Event>, e: Event)
    requires suite.Usable() && e.Knocked?
    ensures Passes(suite, Run(cfg, suite, trace), e.packet) <==> LetThrough(suite, trace, e)
    ensures Refuses(suite, Run(cfg, suite, trace), e.packet) <==> Refused(suite, trace, e)
    decreases |trace|, 1
  {
    ReplayFollowsTrace(cfg, suite, trace, e.packet.md5Data);
    var voucher := DecryptVoucher(suite, e.packet);
    if voucher.Done? {
      AuthenticatedIsAccredited(cfg, suite, trace, voucher.value.account);
    }
  }

  lemma StrangerAtStart(cfg: Config, ip: string)
    requires ip != cfg.gatewayIp
    ensures Tracks(Start(cfg).wl, ip, cfg.tcpPort) && ip !in Start(cfg).wl.list
  {
    var setups := [Setup([cfg.gatewayIp], cfg.tcpPort)];
    assert setups[0].port == cfg.tcpPort;
    StrangersAfterInit(setups, ip, cfg.tcpPort);
  }

  /**
   The controller's whitelist is a fold over the trace: an IP that is not the gateway's is a member,
   and accepted by the firewall, exactly when its most recent decisive knock was let through.
   */
  lemma {:induction false} WhitelistFollowsTrace(cfg: Config, suite: Suite, trace: seq<Event>, ip: string)
    requires suite.Usable() && ip != cfg.gatewayIp
    ensures
      var c := Run(cfg, suite, trace);
      && Tracks(c.wl, ip, cfg.tcpPort)
      && (IsIn(c.wl.list, ip, cfg.tcpPort) <==> Listed(suite, trace, ip))
      && Verdict(c.wl.chain, ip, cfg.tcpPort) == Some(if Listed(suite, trace, ip) then ACCEPT else DROP)
  {
    if trace == [] {
      StrangerAtStart(cfg, ip);
    } else {
      var n := |trace| - 1;
      var before, e := Run(cfg, suite, trace[..n]), trace[n];
      WhitelistFollowsTrace(cfg, suite, trace[..n], ip);
      if e.Knocked? {
        VerdictsFollowTrace(cfg, suite, trace[..n], e);
        OpKeepsTracks(before.wl, IP_WHITE_LIST_ADD, e.fromIp, cfg.tcpPort, ip);
        OpKeepsTracks(before.wl, IP_WHITE_LIST_DEL, e.fromIp, cfg.tcpPort, ip);
      }
    }
    TracksMeansAgreement(Run(cfg, suite, trace).wl, ip, cfg.tcpPort);
  }

  // ------------------------------------- the same without recursion over the trace

  predicate RegisteredAt(trace: seq<Event>, i: int) {
    0 <= i < |trace| && trace[i].Registered? && trace[i].items != []
  }

  /** Event i is a knock with this digest for which ConFuncUdpRecv returns 0. */
  predicate PassedWith(cfg: Config, suite: Suite, trace: seq<Event>, md5: seq<byte>, i: int)
    requires suite.Usable()
  {
    && 0 <= i < |trace| && trace[i].Knocked? && trace[i].packet.md5Data == md5
    && Passes(suite, Run(cfg, suite, trace[..i]), trace[i].packet)
  }

  /** The voucher opens to one of the three accounts with its password, after some registration. */
  predicate Entitled(suite: Suite, trace: seq<Event>, packet: VoucherPacket)
    requires suite.Usable()
  {
    var voucher := DecryptVoucher(suite, packet);
    && voucher.Done? && IsUser(voucher.value.account.acc) && voucher.value.account.pwd == "123456"
    && exists i | 0 <= i < |trace| :: RegisteredAt(trace, i)
  }

  lemma {:induction false} AnyRegisteredExact(trace: seq<Event>)
    ensures AnyRegistered(trace) <==> exists i | 0 <= i < |trace| :: RegisteredAt(trace, i)
  {
    if trace != [] {
      var n := |trace| - 1;
      AnyRegisteredExact(trace[..n]);
      assert forall i :: 0 <= i < n ==> (RegisteredAt(trace, i) <==> RegisteredAt(trace[..n], i));
      assert RegisteredAt(trace, n) <==> trace[n].Registered? && trace[n].items != [];
    }
  }

  lemma PassedWithBefore(cfg: Config, suite: Suite, trace: seq<Event>, md5: seq<byte>, i: int)
    requires suite.Usable() && trace != [] && i < |trace| - 1
    ensures PassedWith(cfg, suite, trace, md5, i) <==> PassedWith(cfg, suite, trace[..|trace| - 1], md5, i)
  {
    if i >= 0 {
      assert trace[..|trace| - 1][..i] == trace[..i];
    }
  }

  lemma PassedWithLast(cfg: Config, suite: Suite, trace: seq<Event>, md5: seq<byte>)
    requires suite.Usable() && trace != []
    ensures
      var n := |trace| - 1;
      PassedWith(cfg, suite, trace, md5, n) <==>
        LetThrough(suite, trace[..n], trace[n]) && trace[n].packet.md5Data == md5
  {
    var n := |trace| - 1;
    if trace[n].Knocked? {
      VerdictsFollowTrace(cfg, suite, trace[..n], trace[n]);
    }
  }

  lemma PassedWithStep(cfg: Config, suite: Suite, trace: seq<Event>, md5: seq<byte>)
    requires suite.Usable() && trace != []
    ensures
      var n := |trace| - 1;
      (exists i :: PassedWith(cfg, suite, trace, md5, i)) <==>
        PassedWith(cfg, suite, trace, md5, n) || exists i :: PassedWith(cfg, suite, trace[..n], md5, i)
  {
    var n := |trace| - 1;
    if i :| PassedWith(cfg, suite, trace, md5, i) && i != n {
      PassedWithBefore(cfg, suite, trace, md5, i);
    }
    if i :| PassedWith(cfg, suite, trace[..n], md5, i) {
      PassedWithBefore(cfg, suite, trace, md5, i);
    }
  }

  lemma {:induction false} ConsumedExact(cfg: Config, suite: Suite, trace: seq<Event>, md5: seq<byte>)
    requires suite.Usable()
    ensures Consumed(suite, trace, md5) <==> exists i :: PassedWith(cfg, suite, trace, md5, i)
  {
    if trace != [] {
      ConsumedExact(cfg, suite, trace[..|trace| - 1], md5);
      PassedWithStep(cfg, suite, trace, md5);
      PassedWithLast(cfg, suite, trace, md5);
    }
  }

  /**
   After every run a knock returns 0 exactly when its voucher entitles it and no earlier knock with its
   digest returned 0, and takes its sender off the whitelist exactly when it opens without entitling it.
   */
  lemma PassesExactly(cfg: Config, suite: Suite, trace: seq<Event>, packet: VoucherPacket)
    requires suite.Usable()
    ensures Passes(suite, Run(cfg, suite, trace), packet) <==>
            Entitled(suite, trace, packet) && !exists i :: PassedWith(cfg, suite, trace, packet.md5Data, i)
    ensures Refuses(suite, Run(cfg, suite, trace), packet) <==>
            DecryptVoucher(suite, packet).Done? && !Entitled(suite, trace, packet)
  {
    VerdictsFollowTrace(cfg, suite, trace, Knocked(packet, ""));
    AnyRegisteredExact(trace);
    ConsumedExact(cfg, suite, trace, packet.md5Data);
  }

  /** e, coming after the trace, is a knock of ip whose voucher opens without entitling it. */
  predicate Dismisses(suite: Suite, trace: seq<Event>, e: Event, ip: string)
    requires suite.Usable()
  {
    && e.Knocked? && e.fromIp == ip
    && DecryptVoucher(suite, e.packet).Done? && !Entitled(suite, trace, e.packet)
  }

  lemma DismissesIsRefused(suite: Suite, trace: seq<Event>, e: Event, ip: string)
    requires suite.Usable()
    ensures Dismisses(suite, trace, e, ip) <==> Refused(suite, trace, e) && e.fromIp == ip
  {
    AnyRegisteredExact(trace);
  }

  /** Event i is a knock of ip that returned 0, and no later knock of ip was refused. */
  predicate AdmittedAt(cfg: Config, suite: Suite, trace: seq<Event>, ip: string, i: int)
    requires suite.Usable()
  {
    && 0 <= i < |trace| && trace[i].Knocked? && trace[i].fromIp == ip
    && Passes(suite, Run(cfg, suite, trace[..i]), trace[i].packet)
    && forall j :: i < j < |trace| ==> !Dismisses(suite, trace[..j], trace[j], ip)
  }

  lemma AdmittedBefore(cfg: Config, suite: Suite, trace: seq<Event>, ip: string, i: int)
    requires suite.Usable() && trace != [] && i < |trace| - 1
    ensures
      var n := |trace| - 1;
      AdmittedAt(cfg, suite, trace, ip, i) <==>
        AdmittedAt(cfg, suite, trace[..n], ip, i) && !(Refused(suite, trace[..n], trace[n]) && trace[n].fromIp == ip)
  {
    var n := |trace| - 1;
    DismissesIsRefused(suite, trace[..n], trace[n], ip);
    if i >= 0 {
      assert forall j :: 0 <= j < n ==> trace[..n][..j] == trace[..j] && trace[..n][j] == trace[j];
    }
  }

  lemma AdmittedLast(cfg: Config, suite: Suite, trace: seq<Event>, ip: string)
    requires suite.Usable() && trace != []
    ensures
      var n := |trace| - 1;
      AdmittedAt(cfg, suite, trace, ip, n) <==> LetThrough(suite, trace[..n], trace[n]) && trace[n].fromIp == ip
  {
    var n := |trace| - 1;
    if trace[n].Knocked? {
      VerdictsFollowTrace(cfg, suite, trace[..n], trace[n]);
    }
  }

  lemma AdmittedStep(cfg: Config, suite: Suite, trace: seq<Event>, ip: string)
    requires suite.Usable() && trace != []
    ensures
      var n := |trace| - 1;
      (exists i :: AdmittedAt(cfg, suite, trace, ip, i)) <==>
        || AdmittedAt(cfg, suite, trace, ip, n)
        || (!(Refused(suite, trace[..n], trace[n]) && trace[n].fromIp == ip)
            && exists i :: AdmittedAt(cfg, suite, trace[..n], ip, i))
  {
    var n := |trace| - 1;
    if i :| AdmittedAt(cfg, suite, trace, ip, i) && i != n {
      AdmittedBefore(cfg, suite, trace, ip, i);
    }
    if i :| AdmittedAt(cfg, suite, trace[..n], ip, i) {
      AdmittedBefore(cfg, suite, trace, ip, i);
    }
  }

  lemma {:induction false} ListedExact(cfg: Config, suite: Suite, trace: seq<Event>, ip: string)
    requires suite.Usable()
    ensures Listed(suite, trace, ip) <==> exists i :: AdmittedAt(cfg, suite, trace, ip, i)
  {
    if trace != [] {
      ListedExact(cfg, suite, trace[..|trace| - 1], ip);
      AdmittedStep(cfg, suite, trace, ip);
      AdmittedLast(cfg, suite, trace, ip);
    }
  }

  /** An IP other than the gateway's is accepted exactly when it was admitted and not refused since. */
  lemma AdmissionProvenance(cfg: Config, suite: Suite, trace: seq<Event>, ip: string)
    requires suite.Usable() && ip != cfg.gatewayIp
    ensures Verdict(Run(cfg, suite, trace).wl.chain, ip, cfg.tcpPort) == Some(ACCEPT) <==>
            exists i :: AdmittedAt(cfg, suite, trace, ip, i)
  {
    WhitelistFollowsTrace(cfg, suite, trace, ip);
    ListedExact(cfg, suite, trace, ip);
  }

  /** One knock, whoever sends it, leaves the gateway a seed with its rule above the DROP rule. */
  lemma GatewayKnockStep(cfg: Config, suite: Suite, c: ControllerState, packet: VoucherPacket, x: string)
    requires suite.Usable() && cfg.tcpPort != 1
    requires Pinned(c.wl, cfg.gatewayIp) && Guarded(c.wl.chain, cfg.gatewayIp, cfg.tcpPort)
    ensures
      var w, ip := Knock(cfg, suite, c, packet, x).wl, cfg.gatewayIp;
      && Pinned(w, ip) && Guarded(w.chain, ip, cfg.tcpPort)
      && Count(w.chain, Accept(ip, cfg.tcpPort)) >= Count(c.wl.chain, Accept(ip, cfg.tcpPort))
  {
    OpOnPinned(c.wl, IP_WHITE_LIST_ADD, x, cfg.tcpPort, cfg.gatewayIp, cfg.tcpPort);
    OpOnPinned(c.wl, IP_WHITE_LIST_DEL, x, cfg.tcpPort, cfg.gatewayIp, cfg.tcpPort);
  }

  /** The gateway itself, a seed, is never shut out, not even by its own failed knocks. */
  lemma {:induction false} GatewayStaysAccepted(cfg: Config, suite: Suite, trace: seq<Event>)
    requires suite.Usable() && cfg.tcpPort != 1
    ensures
      var w, ip := Run(cfg, suite, trace).wl, cfg.gatewayIp;
      && Pinned(w, ip) && Guarded(w.chain, ip, cfg.tcpPort)
      && Count(w.chain, Accept(ip, cfg.tcpPort)) >= 1
      && Verdict(w.chain, ip, cfg.tcpPort) == Some(ACCEPT)
  {
    var ip := cfg.gatewayIp;
    if trace == [] {
      SeedsAfterInit([Setup([ip], cfg.tcpPort)], ip, 0);
    } else {
      var n := |trace| - 1;
      GatewayStaysAccepted(cfg, suite, trace[..n]);
      if trace[n].Knocked? {
        GatewayKnockStep(cfg, suite, Run(cfg, suite, trace[..n]), trace[n].packet, trace[n].fromIp);
      }
    }
    VerdictOfGuarded(Run(cfg, suite, trace).wl.chain, ip, cfg.tcpPort);
  }

  /** No other port ever has a rule that matches anyone. */
  lemma {:induction false} OtherPortsUntouched(cfg: Config, suite: Suite, trace: seq<Event>, ip: string, q: int)
    requires suite.Usable() && q != cfg.tcpPort
    ensures Verdict(Run(cfg, suite, trace).wl.chain, ip, q) == None
  {
    if trace == [] {
      NoVerdictOffPort([Setup([cfg.gatewayIp], cfg.tcpPort)], ip, q);
    } else {
      var n := |trace| - 1;
      var before, e := Run(cfg, suite, trace[..n]), trace[n];
      OtherPortsUntouched(cfg, suite, trace[..n], ip, q);
      if e.Knocked? {
        OpKeepsOtherPorts(before.wl, IP_WHITE_LIST_ADD, e.fromIp, cfg.tcpPort, ip, q);
        OpKeepsOtherPorts(before.wl, IP_WHITE_LIST_DEL, e.fromIp, cfg.tcpPort, ip, q);
      }
    }
  }

  // ------------------------------------------------------------- conservation

  function PassCount(suite: Suite, trace: seq<Event>): nat
    requires suite.Usable()
  {
    if trace == [] then 0
    else
      var n := |trace| - 1;
      PassCount(suite, trace[..n]) + (if LetThrough(suite, trace[..n], trace[n]) then 1 else 0)
  }

  lemma {:induction false} PassesAreConserved(cfg: Config, suite: Suite, trace: seq<Event>)
    requires suite.Usable()
    ensures |Run(cfg, suite, trace).replay| == PassCount(suite, trace)
  {
    if trace != [] {
      var n := |trace| - 1;
      PassesAreConserved(cfg, suite, trace[..n]);
      if trace[n].Knocked? {
        VerdictsFollowTrace(cfg, suite, trace[..n], trace[n]);
      }
    }
  }

  lemma {:induction false} ConsumedByPass(suite: Suite, trace: seq<Event>, i: nat)
    requires suite.Usable() && i < |trace| && LetThrough(suite, trace[..i], trace[i])
    ensures Consumed(suite, trace, trace[i].packet.md5Data)
    decreases |trace|
  {
    var n := |trace| - 1;
    if i < n {
      assert trace[..n][..i] == trace[..i];
      ConsumedByPass(suite, trace[..n], i);
    }
  }

  /** Of two knocks of one run for which ConFuncUdpRecv returns 0, the kept digests differ. */
  lemma NoDigestTwice(cfg: Config, suite: Suite, trace: seq<Event>, i: nat, j: nat)
    requires suite.Usable() && i < j < |trace| && trace[i].Knocked? && trace[j].Knocked?
    requires Passes(suite, Run(cfg, suite, trace[..i]), trace[i].packet)
    requires Passes(suite, Run(cfg, suite, trace[..j]), trace[j].packet)
    ensures trace[i].packet.md5Data != trace[j].packet.md5Data
  {
    VerdictsFollowTrace(cfg, suite, trace[..i], trace[i]);
    VerdictsFollowTrace(cfg, suite, trace[..j], trace[j]);
    assert trace[..j][..i] == trace[..i];
    ConsumedByPass(suite, trace[..j], i);
  }

  /** No voucher is let through twice in one run, whatever digest it carries the second time. */
  lemma NoVoucherTwice(cfg: Config, suite: Suite, trace: seq<Event>, i: nat, j: nat)
    requires suite.Usable() && i < j < |trace| && trace[i].Knocked? && trace[j].Knocked?
    requires Passes(suite, Run(cfg, suite, trace[..i]), trace[i].packet)
    requires Passes(suite, Run(cfg, suite, trace[..j]), trace[j].packet)
    ensures trace[i].packet.encData != trace[j].packet.encData
  {
    NoDigestTwice(cfg, suite, trace, i, j);
    if trace[i].packet.encData == trace[j].packet.encData {
      VoucherFixesDigest(suite, trace[i].packet, trace[j].packet);
    }
  }

  lemma {:induction false} KeysAreBytes(cfg: Config, suite: Suite, trace: seq<Event>, md5: seq<byte>)
    requires suite.Usable() && Md5Sound(suite.md5) && md5 in Run(cfg, suite, trace).replay
    ensures |md5| == 1
  {
    if trace != [] {
      var n := |trace| - 1;
      if md5 in Run(cfg, suite, trace[..n]).replay {
        KeysAreBytes(cfg, suite, trace[..n], md5);
      } else {
        KeptDigestIsOneByte(suite, trace[n].packet);
      }
    }
  }

  function BytesBelow(n: nat): (s: set<seq<byte>>)
    requires n <= 256
    ensures |s| == n
    ensures forall b: byte :: b < n <==> [b] in s
    ensures forall x :: x in s ==> |x| == 1
  {
    if n == 0 then {} else BytesBelow(n - 1) + {[n - 1]}
  }

  lemma {:induction false} SubsetIsNotLarger<T>(a: set<T>, b: set<T>)
    requires a <= b
    ensures |a| <= |b|
  {
    if a != {} {
      var x :| x in a;
      SubsetIsNotLarger(a - {x}, b - {x});
    }
  }

  lemma AtMost256OneByteKeys(keys: set<seq<byte>>)
    requires forall md5 :: md5 in keys ==> |md5| == 1
    ensures |keys| <= 256
  {
    forall md5 | md5 in keys
      ensures md5 in BytesBelow(256)
    {
      assert md5 == [md5[0]];
    }
    SubsetIsNotLarger(keys, BytesBelow(256));
  }

  /** The kept digest is one byte, so a controller lets through at most 256 knocks in a run. */
  lemma AtMost256Passes(cfg: Config, suite: Suite, trace: seq<Event>)
    requires suite.Usable() && Md5Sound(suite.md5)
    ensures PassCount(suite, trace) <= 256
  {
    PassesAreConserved(cfg, suite, trace);
    var replay := Run(cfg, suite, trace).replay;
    forall md5 | md5 in replay.Keys
      ensures |md5| == 1
    {
      KeysAreBytes(cfg, suite, trace, md5);
    }
    AtMost256OneByteKeys(replay.Keys);
  }

  // -------------------------------------------------------------- access lists

  /** The app map holds exactly the current registrations, each gateway once, in key order. */
  lemma {:induction false} AppsFollowTrace(cfg: Config, suite: Suite, trace: seq<Event>, ip: string)
    requires suite.Usable()
    ensures Sorted(Run(cfg, suite, trace).apps)
    ensures Lookup(Run(cfg, suite, trace).apps, ip) == CurrentApps(trace, ip)
  {
    if trace != [] {
      var n := |trace| - 1;
      AppsFollowTrace(cfg, suite, trace[..n], ip);
      if trace[n].Registered? && trace[n].items != [] {
        PutFacts(Run(cfg, suite, trace[..n]).apps, trace[n].ip, trace[n].items, ip);
      }
    }
  }

  lemma {:induction false} CurrentIsEver(trace: seq<Event>, ip: string, i: nat)
    requires CurrentApps(trace, ip).Some? && i < |CurrentApps(trace, ip).value|
    ensures EverRegistered(trace, ip, CurrentApps(trace, ip).value[i].appTcpPort)
  {
    var n := |trace| - 1;
    if !(trace[n].Registered? && trace[n].ip == ip && trace[n].items != []) {
      CurrentIsEver(trace[..n], ip, i);
    }
  }

  lemma {:induction false} FlatHasEntry(s: seq<Entry<seq<AppItem>>>, k: nat) returns (i: nat, j: nat)
    requires k < |Flat(s)|
    ensures i < |s| && j < |s[i].value| && Flat(s)[k] == App(s[i].key, s[i].value[j])
  {
    var n := |s| - 1;
    if k < |Flat(s[..n])| {
      i, j := FlatHasEntry(s[..n], k);
    } else {
      i, j := n, k - |Flat(s[..n])|;
    }
  }

  lemma FlatIsRegistered(cfg: Config, suite: Suite, trace: seq<Event>, k: nat)
    requires suite.Usable() && k < |Flat(Run(cfg, suite, trace).apps)|
    ensures var app := Flat(Run(cfg, suite, trace).apps)[k];
            EverRegistered(trace, app.gatewayIp, app.item.appTcpPort)
  {
    var s := Run(cfg, suite, trace).apps;
    var i, j := FlatHasEntry(s, k);
    AppsFollowTrace(cfg, suite, trace, s[i].key);
    LookupIsEntry(s, s[i].key);
    assert s[i] == Entry(s[i].key, s[i].value);
    CurrentIsEver(trace, s[i].key, j);
  }

  /** The items that belong to ip, in order. */
  function ItemsOf(ip: string, apps: seq<App>): seq<AppItem>
  {
    if apps == [] then []
    else
      var n := |apps| - 1;
      ItemsOf(ip, apps[..n]) + if apps[n].gatewayIp == ip then [apps[n].item] else []
  }

  lemma {:induction false} ItemsOfJoined(ip: string, a: seq<App>, b: seq<App>)
    ensures ItemsOf(ip, a + b) == ItemsOf(ip, a) + ItemsOf(ip, b)
  {
    if b == [] {
      assert a + b == a;
    } else {
      var n := |b| - 1;
      ItemsOfJoined(ip, a, b[..n]);
      assert (a + b)[..|a| + n] == a + b[..n];
    }
  }

  lemma {:induction false} ItemsOfEntry(ip: string, e: Entry<seq<AppItem>>)
    ensures ItemsOf(ip, AppsOf(e)) == if e.key == ip then e.value else []
    decreases |e.value|
  {
    if e.value != [] {
      var n := |e.value| - 1;
      var before := Entry(e.key, e.value[..n]);
      ItemsOfEntry(ip, before);
      assert AppsOf(e)[..n] == AppsOf(before);
      assert AppsOf(e)[n] == App(e.key, e.value[n]);
      assert e.value == e.value[..n] + [e.value[n]];
    }
  }

  lemma {:induction false} ItemsOfFlat(s: seq<Entry<seq<AppItem>>>, ip: string)
    requires Sorted(s)
    ensures ItemsOf(ip, Flat(s)) == match Lookup(s, ip) case None => [] case Some(items) => items
  {
    if s != [] {
      var n := |s| - 1;
      LookupLast(s, ip);
      ItemsOfFlat(s[..n], ip);
      ItemsOfJoined(ip, Flat(s[..n]), AppsOf(s[n]));
      ItemsOfEntry(ip, s[n]);
    }
  }

  lemma {:induction false} FlatAscends(s: seq<Entry<seq<AppItem>>>, i: nat, j: nat)
    requires Sorted(s) && i < j < |Flat(s)|
    ensures Flat(s)[i].gatewayIp == Flat(s)[j].gatewayIp || Less(Flat(s)[i].gatewayIp, Flat(s)[j].gatewayIp)
  {
    var n := |s| - 1;
    LookupLast(s, "");
    if j < |Flat(s[..n])| {
      FlatAscends(s[..n], i, j);
    } else {
      assert Flat(s)[j].gatewayIp == s[n].key;
      var k, item := FlatHasEntry(s, i);
      if k < n {
        KeysAscend(s, k, n);
      }
    }
  }

  function AppsIn(rsp: seq<AccessItem>): (r: seq<App>)
    ensures |r| == |rsp| && forall k :: 0 <= k < |rsp| ==> r[k] == rsp[k].app
  {
    seq(|rsp|, k requires 0 <= k < |rsp| => rsp[k].app)
  }

  /**
   The access list gateway by gateway, after every run: the lines of a gateway show its last
   registration that was not empty, item for item and in list order, or there are none; and the
   gateways come in ascending order of their IPs.
   */
  lemma AccessListByGateway(
    cfg: Config, suite: Suite, trace: seq<Event>, acc: string, userIp: string, draw: nat -> Draw,
    ip: string, i: nat, j: nat
  )
    requires suite.Usable() && IsUser(acc)
    ensures
      var c := Run(cfg, suite, trace);
      var rsp := Issue(suite, c.perms, acc, userIp, draw, Flat(c.apps));
      && ItemsOf(ip, AppsIn(rsp)) == (match CurrentApps(trace, ip) case None => [] case Some(items) => items)
      && (i < j < |rsp| ==> var (a, b) := (rsp[i].app.gatewayIp, rsp[j].app.gatewayIp); a == b || Precedes(a, b))
  {
    var c := Run(cfg, suite, trace);
    var rsp := Issue(suite, c.perms, acc, userIp, draw, Flat(c.apps));
    AccessListExact(cfg, suite, trace, acc, userIp, draw);
    assert AppsIn(rsp) == Flat(c.apps);
    ItemsOfFlat(c.apps, ip);
    if i < j < |rsp| {
      FlatAscends(c.apps, i, j);
      LessIsPrecedes(rsp[i].app.gatewayIp, rsp[j].app.gatewayIp);
    }
  }

  lemma {:induction false} FilterAllOrNone(p: App -> bool, apps: seq<App>, all: bool)
    requires forall k :: 0 <= k < |apps| ==> p(apps[k]) == all
    ensures Filter(p, apps) == if all then apps else []
  {
    if apps != [] {
      var n := |apps| - 1;
      FilterAllOrNone(p, apps[..n], all);
      assert apps[..n] + [apps[n]] == apps;
    }
  }

  /**
   Access lists are exact after every run. For the three accounts ConFuncGetAccess answers, in map
   order and then list order, with exactly the current registrations of every gateway, the k-th one
   with the k-th ticket, minted for the requester's IP; for any other account it answers with none.
   */
  lemma AccessListExact(cfg: Config, suite: Suite, trace: seq<Event>, acc: string, userIp: string, draw: nat -> Draw)
    requires suite.Usable()
    ensures
      var c := Run(cfg, suite, trace);
      var all, rsp := Flat(c.apps), Issue(suite, c.perms, acc, userIp, draw, Flat(c.apps));
      && Sorted(c.apps)
      && (forall ip :: Lookup(c.apps, ip) == CurrentApps(trace, ip))
      && (!IsUser(acc) ==> rsp == [])
      && (IsUser(acc) ==> |rsp| == |all|)
      && (IsUser(acc) ==> forall k :: 0 <= k < |all| ==> rsp[k] == AccessItem(all[k], Mint(suite, userIp, draw(k))))
  {
    var c := Run(cfg, suite, trace);
    var all := Flat(c.apps);
    forall ip
      ensures Sorted(c.apps) && Lookup(c.apps, ip) == CurrentApps(trace, ip)
    {
      AppsFollowTrace(cfg, suite, trace, ip);
    }
    AppsFollowTrace(cfg, suite, trace, "");
    forall k | 0 <= k < |all|
      ensures Allowed(c.perms, acc, all[k]) == IsUser(acc)
    {
      FlatIsRegistered(cfg, suite, trace, k);
      PermissionsFollowTrace(cfg, suite, trace, acc, all[k].gatewayIp, all[k].item.appTcpPort);
    }
    FilterAllOrNone(app => Allowed(c.perms, acc, app), all, IsUser(acc));
  }
}
