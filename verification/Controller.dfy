/**
 The controller daemon: knocks with vouchers, registrations by gateways, and access lists with
 freshly minted tickets.
 */
module Controller {
  import opened Words
  import opened RsaChunks
  import opened SpaTools
  import opened Firewall
  import opened OrderedMap
  import opened Decimal

  datatype AppItem = AppItem(gateUdpPort: int, appTcpPort: int, appname: string, description: string)

  /** One application of one gateway, and its line in an access list. */
  datatype App = App(gatewayIp: string, item: AppItem)
  datatype AccessItem = AccessItem(app: App, ticketPacket: TicketPacket)

  /** The clock reading, the random number and the encryption padding for one issued ticket. */
  datatype Draw = Draw(now: nat, random: nat, nonce: nat)

  const VALID_SECONDS: nat := 30

  const USERS: map<string, string> := map["xiaoming" := "123456", "xiaohong" := "123456", "xiaobai" := "123456"]

  datatype Config = Config(tcpPort: int, gatewayIp: string)

  type Permissions = map<string, map<string, int>>

  datatype ControllerState = ControllerState(
    wl: WhiteList,
    replay: map<seq<byte>, int>,
    apps: seq<Entry<seq<AppItem>>>,
    perms: Permissions)

  // ------------------------------------------------------- accounts, permissions

  predicate PasswordOk(account: Account) {
    account.acc in USERS && USERS[account.acc] == account.pwd
  }

  predicate Granted(perms: Permissions, acc: string, dst: string) {
    acc in perms && dst in perms[acc]
  }

  predicate HasAccessList(perms: Permissions, acc: string) {
    acc in perms && perms[acc] != map[]
  }

  /** UpdateUserPerssion_Add. */
  function Grant(perms: Permissions, acc: string, dst: string): Permissions {
    if Granted(perms, acc, dst) then perms
    else perms[acc := (if acc in perms then perms[acc] else map[])[dst := 1]]
  }

  function GrantUsers(perms: Permissions, dst: string): Permissions {
    Grant(Grant(Grant(perms, "xiaoming", dst), "xiaohong", dst), "xiaobai", dst)
  }

  function GrantAll(perms: Permissions, ip: string, items: seq<AppItem>): Permissions
  {
    if items == [] then perms
    else
      var n := |items| - 1;
      GrantUsers(GrantAll(perms, ip, items[..n]), Destination(ip, items[n].appTcpPort))
  }

  // ------------------------------------------------------- state transitions

  predicate Authenticated(c: ControllerState, account: Account) {
    PasswordOk(account) && HasAccessList(c.perms, account.acc)
  }

  /** Whether ConFuncUdpRecv returns 0. */
  predicate Passes(suite: Suite, c: ControllerState, packet: VoucherPacket)
    requires suite.Usable()
  {
    var voucher := DecryptVoucher(suite, packet);
    voucher.Done? && Authenticated(c, voucher.value.account) && packet.md5Data !in c.replay
  }

  /** The voucher opens and its account is refused. */
  predicate Refuses(suite: Suite, c: ControllerState, packet: VoucherPacket)
    requires suite.Usable()
  {
    var voucher := DecryptVoucher(suite, packet);
    voucher.Done? && !Authenticated(c, voucher.value.account)
  }

  function Knock(cfg: Config, suite: Suite, c: ControllerState, packet: VoucherPacket, ip: string): ControllerState
    requires suite.Usable()
  {
    if Refuses(suite, c, packet) then
      c.(wl := Op(c.wl, IP_WHITE_LIST_DEL, ip, cfg.tcpPort).0)
    else if Passes(suite, c, packet) then
      c.(replay := c.replay[packet.md5Data := 1], wl := Op(c.wl, IP_WHITE_LIST_ADD, ip, cfg.tcpPort).0)
    else c
  }

  function Register(c: ControllerState, ip: string, items: seq<AppItem>): ControllerState {
    if items == [] then c
    else c.(apps := Put(c.apps, ip, items), perms := GrantAll(c.perms, ip, items))
  }

  function AppsOf(e: Entry<seq<AppItem>>): (r: seq<App>)
    ensures |r| == |e.value|
  {
    seq(|e.value|, i requires 0 <= i < |e.value| => App(e.key, e.value[i]))
  }

  /** Every registered application, in map order and then list order. */
  function Flat(entries: seq<Entry<seq<AppItem>>>): seq<App>
  {
    if entries == [] then []
    else
      var n := |entries| - 1;
      Flat(entries[..n]) + AppsOf(entries[n])
  }

  function Mint(suite: Suite, userIp: string, d: Draw): TicketPacket
    requires suite.Usable()
  {
    EncryptTicket(suite, Ticket(userIp, d.now % TWO32, d.random, VALID_SECONDS), d.nonce)
  }

  predicate Allowed(perms: Permissions, acc: string, app: App) {
    Granted(perms, acc, Destination(app.gatewayIp, app.item.appTcpPort))
  }

  function Filter(p: App -> bool, apps: seq<App>): seq<App>
  {
    if apps == [] then []
    else
      var n := |apps| - 1;
      Filter(p, apps[..n]) + (if p(apps[n]) then [apps[n]] else [])
  }

  /** The applications that the account may access, in order. */
  function Select(perms: Permissions, acc: string, apps: seq<App>): seq<App> {
    Filter(app => Allowed(perms, acc, app), apps)
  }

  function Numbered<T>(f: (nat, App) -> T, apps: seq<App>): (r: seq<T>)
    ensures |r| == |apps|
    ensures forall k :: 0 <= k < |r| ==> r[k] == f(k, apps[k])
  {
    seq(|apps|, k requires 0 <= k < |apps| => f(k, apps[k]))
  }

  /** The access list: the k-th selected application gets the k-th ticket. */
  function Issue(
    suite: Suite, perms: Permissions, acc: string, userIp: string, draw: nat -> Draw, apps: seq<App>
  ): seq<AccessItem>
    requires suite.Usable()
  {
    Numbered((k: nat, app: App) => AccessItem(app, Mint(suite, userIp, draw(k))), Select(perms, acc, apps))
  }

  function Start(cfg: Config): ControllerState {
    ControllerState(InitAll([Setup([cfg.gatewayIp], cfg.tcpPort)]), map[], [], map[])
  }

  lemma StartInSteps(cfg: Config)
    ensures Start(cfg).wl == Init(EMPTY, [cfg.gatewayIp], cfg.tcpPort)
  {
    var one := [Setup([cfg.gatewayIp], cfg.tcpPort)];
    assert one[..0] == [];
    assert InitAll(one) == Init(InitAll([]), one[0].ips, one[0].port);
  }

  lemma GrantAllStep(perms: Permissions, ip: string, items: seq<AppItem>, i: nat)
    requires i < |items|
    ensures GrantAll(perms, ip, items[..i + 1]) ==
            GrantUsers(GrantAll(perms, ip, items[..i]), Destination(ip, items[i].appTcpPort))
  {
    assert items[..i + 1][..i] == items[..i];
  }

  lemma OneMore(before: seq<App>, these: seq<App>, j: nat)
    requires j < |these|
    ensures before + these[..j] + [these[j]] == before + these[..j + 1]
  {
  }

  lemma FilterStep(p: App -> bool, apps: seq<App>, app: App)
    ensures Filter(p, apps + [app]) == if p(app) then Filter(p, apps) + [app] else Filter(p, apps)
  {
    assert (apps + [app])[..|apps|] == apps;
    assert Filter(p, apps) + [] == Filter(p, apps);
  }

  lemma SelectStep(perms: Permissions, acc: string, apps: seq<App>, app: App)
    ensures Select(perms, acc, apps + [app]) ==
            if Allowed(perms, acc, app) then Select(perms, acc, apps) + [app] else Select(perms, acc, apps)
  {
    FilterStep(app => Allowed(perms, acc, app), apps, app);
  }

  lemma NumberedStep<T>(f: (nat, App) -> T, apps: seq<App>, app: App)
    ensures Numbered(f, apps + [app]) == Numbered(f, apps) + [f(|apps|, app)]
  {
  }

  lemma IssueStep(
    suite: Suite, perms: Permissions, acc: string, userIp: string, draw: nat -> Draw, apps: seq<App>, app: App
  )
    requires suite.Usable()
    ensures var before := Issue(suite, perms, acc, userIp, draw, apps);
            Issue(suite, perms, acc, userIp, draw, apps + [app]) ==
            if Allowed(perms, acc, app) then before + [AccessItem(app, Mint(suite, userIp, draw(|before|)))] else before
  {
    SelectStep(perms, acc, apps, app);
    var line := (k: nat, app: App) => AccessItem(app, Mint(suite, userIp, draw(k)));
    NumberedStep(line, Select(perms, acc, apps), app);
  }

  // ---------------------------------------------------------------- the daemon

  class SDPController {
    const cfg: Config
    const suite: Suite
    const whitelist: IPWhiteList
    var md5Map: map<seq<byte>, int>
    var appMap: seq<Entry<seq<AppItem>>>
    var permissionMap: Permissions

    function State(): ControllerState
      reads this, whitelist, whitelist.iptool
    {
      ControllerState(whitelist.State(), md5Map, appMap, permissionMap)
    }

    constructor (cfg: Config, suite: Suite)
      ensures this.cfg == cfg && this.suite == suite
      ensures fresh(whitelist) && fresh(whitelist.iptool) && State() == Start(cfg)
    {
      this.cfg := cfg;
      this.suite := suite;
      var list := new IPWhiteList();
      whitelist := list;
      md5Map, appMap, permissionMap := map[], [], map[];
      new;
      StartInSteps(cfg);
      var _ := whitelist.InitWhiteList([cfg.gatewayIp], cfg.tcpPort);
    }

    method QueryAndInsertMD5(md5: seq<byte>) returns (ret: int)
      modifies this`md5Map
      ensures ret == if md5 in old(md5Map) then -1 else 0
      ensures md5Map == if md5 in old(md5Map) then old(md5Map) else old(md5Map)[md5 := 1]
    {
      if md5 in md5Map {
        return -1;
      }
      md5Map := md5Map[md5 := 1];
      return 0;
    }

    method RegisterApp(ip: string, items: seq<AppItem>)
      modifies this`appMap
      ensures appMap == if items == [] then old(appMap) else Put(old(appMap), ip, items)
    {
      if items != [] {
        appMap := Put(appMap, ip, items);
      }
    }

    method UpdateUserPerssionAdd(account: string, dst: string) returns (ret: int)
      modifies this`permissionMap
      ensures permissionMap == Grant(old(permissionMap), account, dst)
      ensures ret == if Granted(old(permissionMap), account, dst) then 1 else 0
    {
      if account in permissionMap {
        if dst in permissionMap[account] {
          return 1;
        }
      }
      var dstMap := if account in permissionMap then permissionMap[account] else map[];
      permissionMap := permissionMap[account := dstMap[dst := 1]];
      return 0;
    }

    method CheckUserPasswd(account: string, passwd: string) returns (ret: int)
      ensures ret == 0 <==> PasswordOk(Account(account, passwd))
      ensures account !in USERS ==> ret == -1
      ensures account in USERS && USERS[account] != passwd ==> ret == -2
    {
      if account in USERS {
        if USERS[account] != passwd {
          return -2;
        }
      } else {
        return -1;
      }
      return 0;
    }

    method CheckUserPermissionExists(account: string) returns (ret: int)
      ensures ret == if HasAccessList(permissionMap, account) then 0 else -3
    {
      if account in permissionMap {
        if permissionMap[account] != map[] {
          return 0;
        }
      }
      return -3;
    }

    method CheckUserPermissionAllowed(account: string, dst: string) returns (ret: int)
      ensures ret == if Granted(permissionMap, account, dst) then 0 else -1
    {
      if account in permissionMap {
        if dst in permissionMap[account] {
          return 0;
        }
      }
      return -1;
    }

    /** OutOfBounds stands for the exception that opening a malformed packet can raise. */
    method ConFuncUdpRecv(packet: VoucherPacket, fromIp: string) returns (r: Outcome<int>)
      requires suite.Usable()
      modifies this`md5Map, whitelist, whitelist.iptool
      ensures State() == Knock(cfg, suite, old(State()), packet, fromIp)
      ensures r == match DecryptVoucher(suite, packet)
                   case Failed => Done(-1)
                   case OutOfBounds => OutOfBounds
                   case Done(_) => Done(if Passes(suite, old(State()), packet) then 0 else 1)
    {
      var voucher := DecryptVoucher(suite, packet);
      if voucher.OutOfBounds? {
        return OutOfBounds;
      }
      if voucher.Failed? {
        return Done(-1);
      }
      var account := voucher.value.account;
      var ret := CheckUserPasswd(account.acc, account.pwd);
      if ret != 0 {
        var _ := whitelist.OpWhiteList(IP_WHITE_LIST_DEL, fromIp, cfg.tcpPort);
        return Done(1);
      }
      ret := CheckUserPermissionExists(account.acc);
      if ret != 0 {
        var _ := whitelist.OpWhiteList(IP_WHITE_LIST_DEL, fromIp, cfg.tcpPort);
        return Done(1);
      }
      var repeat := QueryAndInsertMD5(packet.md5Data);
      if repeat != 0 {
        return Done(1);
      }
      var _ := whitelist.OpWhiteList(IP_WHITE_LIST_ADD, fromIp, cfg.tcpPort);
      return Done(0);
    }

    method ConFuncRegisterApp(items: seq<AppItem>, ip: string) returns (ret: int)
      modifies this`appMap, this`permissionMap
      ensures State() == Register(old(State()), ip, items)
      ensures ret == if items == [] then -1 else 0
    {
      if |items| == 0 {
        return -1;
      }
      RegisterApp(ip, items);
      for i := 0 to |items|
        invariant permissionMap == GrantAll(old(permissionMap), ip, items[..i])
        invariant appMap == Put(old(appMap), ip, items)
      {
        GrantAllStep(old(permissionMap), ip, items, i);
        GrantToUsers(Destination(ip, items[i].appTcpPort));
      }
      assert items[..|items|] == items;
      return 0;
    }

    /** The three grants in the loop body of ConFuncRegisterApp. */
    method GrantToUsers(per: string)
      modifies this`permissionMap
      ensures permissionMap == GrantUsers(old(permissionMap), per)
    {
      var _ := UpdateUserPerssionAdd("xiaoming", per);
      var _ := UpdateUserPerssionAdd("xiaohong", per);
      var _ := UpdateUserPerssionAdd("xiaobai", per);
    }

    /** One turn of the inner loop of ConFuncGetAccess: a granted application gets a line of its own. */
    method AddLine(acc: string, userIp: string, draw: nat -> Draw, app: App,
                   ghost before: seq<App>, rsp0: seq<AccessItem>)
      returns (rsp: seq<AccessItem>)
      requires suite.Usable() && rsp0 == Issue(suite, permissionMap, acc, userIp, draw, before)
      ensures rsp == Issue(suite, permissionMap, acc, userIp, draw, before + [app])
    {
      rsp := rsp0;
      IssueStep(suite, permissionMap, acc, userIp, draw, before, app);
      var ret := CheckUserPermissionAllowed(acc, Destination(app.gatewayIp, app.item.appTcpPort));
      if ret == 0 {
        rsp := rsp + [AccessItem(app, Mint(suite, userIp, draw(|rsp|)))];
      }
    }

    /** The inner loop of ConFuncGetAccess: the applications of one gateway. */
    method AddAccess(acc: string, userIp: string, draw: nat -> Draw, e: Entry<seq<AppItem>>,
                     ghost before: seq<App>, rsp0: seq<AccessItem>)
      returns (rsp: seq<AccessItem>)
      requires suite.Usable() && rsp0 == Issue(suite, permissionMap, acc, userIp, draw, before)
      ensures rsp == Issue(suite, permissionMap, acc, userIp, draw, before + AppsOf(e))
    {
      rsp := rsp0;
      ghost var these, done := AppsOf(e), before;
      for j := 0 to |e.value|
        invariant done == before + these[..j]
        invariant rsp == Issue(suite, permissionMap, acc, userIp, draw, done)
      {
        var app := App(e.key, e.value[j]);
        rsp := AddLine(acc, userIp, draw, app, done, rsp);
        done := done + [app];
        OneMore(before, these, j);
      }
      assert these[..|e.value|] == these;
    }

    /** draw(k) is what the clock, the random source and the padding yield for the k-th ticket. */
    method ConFuncGetAccess(acc: string, userIp: string, draw: nat -> Draw) returns (ret: int, rsp: seq<AccessItem>)
      requires suite.Usable()
      ensures ret == 0 && rsp == Issue(suite, permissionMap, acc, userIp, draw, Flat(appMap))
    {
      rsp := [];
      for i := 0 to |appMap|
        invariant rsp == Issue(suite, permissionMap, acc, userIp, draw, Flat(appMap[..i]))
      {
        rsp := AddAccess(acc, userIp, draw, appMap[i], Flat(appMap[..i]), rsp);
        assert appMap[..i + 1][..i] == appMap[..i];
      }
      assert appMap[..|appMap|] == appMap;
      ret := 0;
    }
  }
}
