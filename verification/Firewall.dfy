/**
 The whitelist of iptables_tool.cpp and the firewall chain it drives. The chain is a sequence of
 rules; the first rule that matches a packet decides. The theorems say when the chain and the
 `map<string,int>` kept beside it agree.
 */
module Firewall {
  import opened Options

  const IP_WHITE_LIST_ADD: int := 1
  const IP_WHITE_LIST_DEL: int := 2
  const IP_BLACK_LIST_ADD: int := 3
  const IP_BLACK_LIST_DEL: int := 4

  datatype Target = ACCEPT | DROP

  /** The two shapes of rule that the program issues, both for one TCP destination port. */
  datatype Rule = Accept(src: string, port: int) | Drop(port: int) {
    predicate Matches(ip: string, p: int) {
      port == p && (Accept? ==> src == ip)
    }
  }

  type Chain = seq<Rule>

  /** The target of the first matching rule; None leaves the packet to the chain's policy. */
  function Verdict(chain: Chain, ip: string, port: int): Option<Target>
  {
    if chain == [] then None
    else if chain[0].Matches(ip, port) then Some(if chain[0].Accept? then ACCEPT else DROP)
    else Verdict(chain[1..], ip, port)
  }

  /** `iptables -I`. */
  function Insert(chain: Chain, r: Rule): Chain {
    [r] + chain
  }

  /** `iptables -D`: the first rule equal to r goes; nothing happens when there is none. */
  function Delete(chain: Chain, r: Rule): Chain
  {
    if chain == [] then []
    else if chain[0] == r then chain[1..]
    else [chain[0]] + Delete(chain[1..], r)
  }

  function Count(chain: Chain, r: Rule): nat
  {
    if chain == [] then 0 else (if chain[0] == r then 1 else 0) + Count(chain[1..], r)
  }

  // ------------------------------------------------------- state transitions

  datatype WhiteList = WhiteList(list: map<string, int>, chain: Chain)

  const EMPTY := WhiteList(map[], [])

  predicate IsIn(list: map<string, int>, ip: string, port: int) {
    ip in list && list[ip] == port
  }

  /** std::map::insert keeps the value of a key that is already there. */
  function InsertNew(list: map<string, int>, ip: string, value: int): map<string, int> {
    if ip in list then list else list[ip := value]
  }

  function InsertSeeds(list: map<string, int>, ips: seq<string>): map<string, int>
  {
    if ips == [] then list
    else InsertNew(InsertSeeds(list, ips[..|ips| - 1]), ips[|ips| - 1], 1)
  }

  function UnbanAll(chain: Chain, ips: seq<string>, port: int): Chain
  {
    if ips == [] then chain
    else Insert(UnbanAll(chain, ips[..|ips| - 1], port), Accept(ips[|ips| - 1], port))
  }

  /** The effect of InitWhiteList. */
  function Init(w: WhiteList, ips: seq<string>, port: int): WhiteList {
    WhiteList(InsertSeeds(w.list, ips), UnbanAll(Insert(w.chain, Drop(port)), ips, port))
  }

  /** The effect and the return value of OpWhiteList. */
  function Op(w: WhiteList, op: int, ip: string, port: int): (WhiteList, int)
  {
    var hasRule := IsIn(w.list, ip, port);
    if op == IP_WHITE_LIST_ADD then
      if hasRule then (w, -1)
      else (WhiteList(InsertNew(w.list, ip, port), Insert(w.chain, Accept(ip, port))), 0)
    else if op == IP_WHITE_LIST_DEL then
      if !hasRule then (w, -1)
      else (WhiteList(w.list - {ip}, Delete(w.chain, Accept(ip, port))), 0)
    else (w, 0)
  }

  // ----------------------------------------------------------- the two classes

  class IptablesTools {
    var chain: Chain

    constructor ()
      ensures chain == []
    {
      chain := [];
    }

    method BanUser(ip: string, port: int) returns (ret: int)
      modifies this
      ensures chain == Delete(old(chain), Accept(ip, port)) && ret == 0
    {
      chain := Delete(chain, Accept(ip, port));
      ret := 0;
    }

    method UnbanUser(ip: string, port: int) returns (ret: int)
      modifies this
      ensures chain == Insert(old(chain), Accept(ip, port)) && ret == 0
    {
      chain := Insert(chain, Accept(ip, port));
      ret := 0;
    }

    method IptablesInit(whitelist: seq<string>, port: int) returns (ret: int)
      modifies this
      ensures chain == UnbanAll(Insert(old(chain), Drop(port)), whitelist, port) && ret == 0
    {
      chain := Insert(chain, Drop(port));
      for i := 0 to |whitelist|
        invariant chain == UnbanAll(Insert(old(chain), Drop(port)), whitelist[..i], port)
      {
        ret := UnbanUser(whitelist[i], port);
        assert whitelist[..i + 1][..i] == whitelist[..i];
      }
      assert whitelist[..|whitelist|] == whitelist;
      ret := 0;
    }
  }

  class IPWhiteList {
    var list: map<string, int>
    const iptool: IptablesTools

    function State(): WhiteList
      reads this, iptool
    {
      WhiteList(list, iptool.chain)
    }

    constructor ()
      ensures fresh(iptool) && State() == EMPTY
    {
      list := map[];
      iptool := new IptablesTools();
    }

    method IsIPInWhiteList(ip: string, port: int) returns (b: bool)
      ensures b <==> ip in list && list[ip] == port
    {
      b := ip in list && list[ip] == port;
    }

    method OpWhiteList(op: int, ip: string, port: int) returns (ret: int)
      modifies this, iptool
      ensures (State(), ret) == Op(old(State()), op, ip, port)
      ensures ret == if (op == 1 && IsIn(old(list), ip, port)) || (op == 2 && !IsIn(old(list), ip, port)) then -1 else 0
      ensures ret == -1 || (op != 1 && op != 2) ==> State() == old(State())
      ensures ret == 0 && op == 1 ==>
                && iptool.chain == [Accept(ip, port)] + old(iptool.chain)
                && list == if ip in old(list) then old(list) else old(list)[ip := port]
      ensures ret == 0 && op == 2 ==>
                iptool.chain == Delete(old(iptool.chain), Accept(ip, port)) && list == old(list) - {ip}
    {
      var hasRule := IsIPInWhiteList(ip, port);
      if op == IP_WHITE_LIST_ADD {
        if hasRule {
          return -1;
        }
        list := InsertNew(list, ip, port);
        ret := iptool.UnbanUser(ip, port);
      }
      if op == IP_WHITE_LIST_DEL {
        if !hasRule {
          return -1;
        }
        list := list - {ip};
        ret := iptool.BanUser(ip, port);
      }
      return 0;
    }

    method InitWhiteList(whitelist: seq<string>, port: int) returns (ret: int)
      modifies this, iptool
      ensures State() == Init(old(State()), whitelist, port) && ret == 0
    {
      for i := 0 to |whitelist|
        invariant list == InsertSeeds(old(list), whitelist[..i])
        invariant iptool.chain == old(iptool.chain)
      {
        list := InsertNew(list, whitelist[i], 1);
        assert whitelist[..i + 1][..i] == whitelist[..i];
      }
      assert whitelist[..|whitelist|] == whitelist;
      ret := iptool.IptablesInit(whitelist, port);
    }
  }

  // ------------------------------------------------------ facts about chains

  /** Below the first DROP rule for the port there is no ACCEPT rule for ip, and there is such a DROP. */
  predicate Guarded(chain: Chain, ip: string, port: int)
  {
    chain != [] &&
    if chain[0] == Drop(port) then Count(chain[1..], Accept(ip, port)) == 0
    else Guarded(chain[1..], ip, port)
  }

  lemma {:induction false} VerdictOfGuarded(chain: Chain, ip: string, port: int)
    requires Guarded(chain, ip, port)
    ensures Verdict(chain, ip, port) == Some(if Count(chain, Accept(ip, port)) > 0 then ACCEPT else DROP)
  {
    if chain[0] != Drop(port) {
      VerdictOfGuarded(chain[1..], ip, port);
    }
  }

  lemma InsertFacts(chain: Chain, r: Rule, s: Rule, ip: string, port: int)
    ensures Count(Insert(chain, r), s) == Count(chain, s) + (if r == s then 1 else 0)
    ensures r != Drop(port) && Guarded(chain, ip, port) ==> Guarded(Insert(chain, r), ip, port)
    ensures r == Drop(port) && Count(chain, Accept(ip, port)) == 0 ==> Guarded(Insert(chain, r), ip, port)
    ensures Verdict(Insert(chain, r), ip, port) ==
            if r.Matches(ip, port) then Some(if r.Accept? then ACCEPT else DROP) else Verdict(chain, ip, port)
  {
    assert Insert(chain, r)[1..] == chain;
  }

  lemma {:induction false} DeleteFacts(chain: Chain, r: Rule, s: Rule, ip: string, port: int)
    requires r.Accept?
    ensures Count(Delete(chain, r), s) ==
            if r == s && Count(chain, s) > 0 then Count(chain, s) - 1 else Count(chain, s)
    ensures Guarded(chain, ip, port) ==> Guarded(Delete(chain, r), ip, port)
    ensures !r.Matches(ip, port) ==> Verdict(Delete(chain, r), ip, port) == Verdict(chain, ip, port)
  {
    if chain != [] {
      DeleteFacts(chain[1..], r, s, ip, port);
      DeleteFacts(chain[1..], r, Accept(ip, port), ip, port);
      if chain[0] != r {
        assert Delete(chain, r)[1..] == Delete(chain[1..], r);
      }
    }
  }

  /** The verdict is that of the first rule that matches, and there is none when no rule matches. */
  lemma {:induction false} FirstMatch(chain: Chain, ip: string, port: int, i: nat)
    requires i <= |chain| && forall j :: 0 <= j < i ==> !chain[j].Matches(ip, port)
    requires i < |chain| ==> chain[i].Matches(ip, port)
    ensures Verdict(chain, ip, port) ==
            if i == |chain| then None else Some(if chain[i] == Drop(port) then DROP else ACCEPT)
  {
    if i > 0 {
      assert forall j :: 0 <= j < i - 1 ==> chain[1..][j] == chain[j + 1];
      FirstMatch(chain[1..], ip, port, i - 1);
    }
  }

  lemma WithoutRule(chain: Chain, i: nat)
    requires 0 < i <= |chain|
    ensures i == |chain| ==> [chain[0]] + chain[1..] == chain
    ensures i < |chain| ==> [chain[0]] + (chain[1..][..i - 1] + chain[1..][i..]) == chain[..i] + chain[i + 1..]
  {
  }

  /** A deletion takes out the first rule that is equal and leaves the others in place. */
  lemma {:induction false} DeleteFirst(chain: Chain, r: Rule, i: nat)
    requires i <= |chain| && forall j :: 0 <= j < i ==> chain[j] != r
    requires i < |chain| ==> chain[i] == r
    ensures Delete(chain, r) == if i == |chain| then chain else chain[..i] + chain[i + 1..]
  {
    if i > 0 {
      assert forall j :: 0 <= j < i - 1 ==> chain[1..][j] == chain[j + 1];
      DeleteFirst(chain[1..], r, i - 1);
      WithoutRule(chain, i);
    }
  }

  /** Start-up on one port: the hosts' rules, the last host's on top, above the DROP rule and the old chain. */
  lemma InitStacks(w: WhiteList, ips: seq<string>, port: int, i: nat)
    requires i < |ips|
    ensures
      var c, n := Init(w, ips, port).chain, |ips|;
      |c| > n && c[n - 1 - i] == Accept(ips[i], port) && c[n..] == [Drop(port)] + w.chain
  {
    StackedRules(Insert(w.chain, Drop(port)), ips, port, i);
  }

  lemma {:induction false} StackedRules(chain: Chain, ips: seq<string>, port: int, i: nat)
    requires i <= |ips|
    ensures
      var c, n := UnbanAll(chain, ips, port), |ips|;
      |c| == n + |chain| && c[n..] == chain && (i < n ==> c[n - 1 - i] == Accept(ips[i], port))
  {
    if ips != [] {
      var n := |ips| - 1;
      var before := UnbanAll(chain, ips[..n], port);
      StackedRules(chain, ips[..n], port, if i < n then i else n);
      assert UnbanAll(chain, ips, port)[1..] == before;
    }
  }

  // --------------------------------------------- what one operation preserves

  /** For an IP that is not a seed: the map holds it with the port or not at all, the chain agrees. */
  predicate Tracks(w: WhiteList, ip: string, port: int)
  {
    && (ip in w.list ==> w.list[ip] == port)
    && Guarded(w.chain, ip, port)
    && Count(w.chain, Accept(ip, port)) == if ip in w.list then 1 else 0
  }

  lemma TracksMeansAgreement(w: WhiteList, ip: string, port: int)
    requires Tracks(w, ip, port)
    ensures Verdict(w.chain, ip, port) == Some(if IsIn(w.list, ip, port) then ACCEPT else DROP)
  {
    VerdictOfGuarded(w.chain, ip, port);
  }

  lemma OpKeepsTracks(w: WhiteList, op: int, x: string, port: int, ip: string)
    requires Tracks(w, ip, port)
    ensures var w' := Op(w, op, x, port).0;
            && Tracks(w', ip, port)
            && (IsIn(w'.list, ip, port) <==>
                if x == ip && op == IP_WHITE_LIST_ADD then true
                else if x == ip && op == IP_WHITE_LIST_DEL then false
                else IsIn(w.list, ip, port))
  {
    InsertFacts(w.chain, Accept(x, port), Accept(ip, port), ip, port);
    DeleteFacts(w.chain, Accept(x, port), Accept(ip, port), ip, port);
  }

  /** A seed keeps the value 1, so on a port other than 1 it is never taken for a member. */
  predicate Pinned(w: WhiteList, ip: string) {
    ip in w.list && w.list[ip] == 1
  }

  /** On a seed every addition stacks one more ACCEPT rule, and no removal ever happens. */
  lemma OpOnPinned(w: WhiteList, op: int, x: string, port: int, ip: string, q: int)
    requires Pinned(w, ip) && port != 1
    ensures var w' := Op(w, op, x, port).0;
            && Pinned(w', ip)
            && Count(w'.chain, Accept(ip, q)) == Count(w.chain, Accept(ip, q))
                 + (if x == ip && op == IP_WHITE_LIST_ADD && q == port then 1 else 0)
            && (Guarded(w.chain, ip, q) ==> Guarded(w'.chain, ip, q))
  {
    InsertFacts(w.chain, Accept(x, port), Accept(ip, q), ip, q);
    DeleteFacts(w.chain, Accept(x, port), Accept(ip, q), ip, q);
  }

  lemma OpKeepsOtherPorts(w: WhiteList, op: int, x: string, port: int, ip: string, q: int)
    requires q != port
    ensures Verdict(Op(w, op, x, port).0.chain, ip, q) == Verdict(w.chain, ip, q)
  {
    InsertFacts(w.chain, Accept(x, port), Accept(ip, q), ip, q);
    DeleteFacts(w.chain, Accept(x, port), Accept(ip, q), ip, q);
  }

  // ------------------------------------------------------------- whole runs

  datatype Setup = Setup(ips: seq<string>, port: int)
  datatype Request = Request(op: int, ip: string)

  function InitAll(setups: seq<Setup>): WhiteList
  {
    if setups == [] then EMPTY
    else
      var last := setups[|setups| - 1];
      Init(InitAll(setups[..|setups| - 1]), last.ips, last.port)
  }

  predicate IsSeed(setups: seq<Setup>, ip: string) {
    exists i :: 0 <= i < |setups| && ip in setups[i].ips
  }

  predicate HasPort(setups: seq<Setup>, port: int) {
    exists i :: 0 <= i < |setups| && setups[i].port == port
  }

  function RunOps(w: WhiteList, requests: seq<Request>, port: int): WhiteList
  {
    if requests == [] then w
    else
      var last := requests[|requests| - 1];
      Op(RunOps(w, requests[..|requests| - 1], port), last.op, last.ip, port).0
  }

  lemma {:induction false} UnbanAllFacts(chain: Chain, ips: seq<string>, port: int, ip: string, q: int)
    ensures ip !in ips || q != port ==>
              Count(UnbanAll(chain, ips, port), Accept(ip, q)) == Count(chain, Accept(ip, q))
    ensures Count(UnbanAll(chain, ips, port), Accept(ip, q)) >= Count(chain, Accept(ip, q))
    ensures ip in ips && q == port ==> Count(UnbanAll(chain, ips, port), Accept(ip, q)) >= 1
    ensures Guarded(chain, ip, q) ==> Guarded(UnbanAll(chain, ips, port), ip, q)
  {
    if ips != [] {
      var n := |ips| - 1;
      assert ips == ips[..n] + [ips[n]];
      UnbanAllFacts(chain, ips[..n], port, ip, q);
      InsertFacts(UnbanAll(chain, ips[..n], port), Accept(ips[n], port), Accept(ip, q), ip, q);
    }
  }

  lemma {:induction false} InsertSeedsFacts(list: map<string, int>, ips: seq<string>, ip: string)
    ensures ip in list ==> ip in InsertSeeds(list, ips) && InsertSeeds(list, ips)[ip] == list[ip]
    ensures ip !in list && ip in ips ==> ip in InsertSeeds(list, ips) && InsertSeeds(list, ips)[ip] == 1
    ensures ip !in list && ip !in ips ==> ip !in InsertSeeds(list, ips)
  {
    if ips != [] {
      var n := |ips| - 1;
      assert ips == ips[..n] + [ips[n]];
      InsertSeedsFacts(list, ips[..n], ip);
    }
  }

  /** After start-up a stranger is on no list and dropped on every port that was set up. */
  lemma {:induction false} StrangersAfterInit(setups: seq<Setup>, ip: string, port: int)
    requires !IsSeed(setups, ip)
    ensures ip !in InitAll(setups).list
    ensures Count(InitAll(setups).chain, Accept(ip, port)) == 0
    ensures HasPort(setups, port) ==> Tracks(InitAll(setups), ip, port)
  {
    if setups != [] {
      var n := |setups| - 1;
      var before, last := setups[..n], setups[n];
      assert forall i :: 0 <= i < n ==> before[i] == setups[i];
      StrangersAfterInit(before, ip, port);
      var w := InitAll(before);
      InsertSeedsFacts(w.list, last.ips, ip);
      InsertFacts(w.chain, Drop(last.port), Accept(ip, port), ip, port);
      UnbanAllFacts(Insert(w.chain, Drop(last.port)), last.ips, last.port, ip, port);
    }
  }

  /** After start-up on distinct ports each seed is accepted on the port it was a seed of. */
  lemma {:induction false} SeedsAfterInit(setups: seq<Setup>, ip: string, k: nat)
    requires k < |setups| && ip in setups[k].ips
    requires forall i, j :: 0 <= i < j < |setups| ==> setups[i].port != setups[j].port
    ensures Pinned(InitAll(setups), ip)
    ensures Guarded(InitAll(setups).chain, ip, setups[k].port)
    ensures Count(InitAll(setups).chain, Accept(ip, setups[k].port)) >= 1
  {
    var n, port := |setups| - 1, setups[k].port;
    var before, last := setups[..n], setups[n];
    var w := InitAll(before);
    InsertSeedsFacts(w.list, last.ips, ip);
    InsertFacts(w.chain, Drop(last.port), Accept(ip, port), ip, port);
    UnbanAllFacts(Insert(w.chain, Drop(last.port)), last.ips, last.port, ip, port);
    if k < n {
      SeedsAfterInit(before, ip, k);
    } else {
      SeedValues(before, ip);
      NoRulesOffPort(before, ip, port);
    }
  }

  lemma {:induction false} SeedValues(setups: seq<Setup>, ip: string)
    ensures ip in InitAll(setups).list ==> InitAll(setups).list[ip] == 1
  {
    if setups != [] {
      var n := |setups| - 1;
      SeedValues(setups[..n], ip);
      InsertSeedsFacts(InitAll(setups[..n]).list, setups[n].ips, ip);
    }
  }

  lemma {:induction false} NoRulesOffPort(setups: seq<Setup>, ip: string, port: int)
    requires forall i :: 0 <= i < |setups| ==> setups[i].port != port
    ensures Count(InitAll(setups).chain, Accept(ip, port)) == 0
  {
    if setups != [] {
      var n := |setups| - 1;
      NoRulesOffPort(setups[..n], ip, port);
      var w := InitAll(setups[..n]);
      InsertFacts(w.chain, Drop(setups[n].port), Accept(ip, port), ip, port);
      UnbanAllFacts(Insert(w.chain, Drop(setups[n].port)), setups[n].ips, setups[n].port, ip, port);
    }
  }

  lemma {:induction false} UnbanAllOffPort(chain: Chain, ips: seq<string>, port: int, ip: string, q: int)
    requires q != port
    ensures Verdict(UnbanAll(chain, ips, port), ip, q) == Verdict(chain, ip, q)
  {
    if ips != [] {
      var n := |ips| - 1;
      UnbanAllOffPort(chain, ips[..n], port, ip, q);
      InsertFacts(UnbanAll(chain, ips[..n], port), Accept(ips[n], port), Drop(port), ip, q);
    }
  }

  /** Start-up leaves every port that is not set up to the chain's policy. */
  lemma {:induction false} NoVerdictOffPort(setups: seq<Setup>, ip: string, q: int)
    requires forall i :: 0 <= i < |setups| ==> setups[i].port != q
    ensures Verdict(InitAll(setups).chain, ip, q) == None
  {
    if setups != [] {
      var n := |setups| - 1;
      var w, last := InitAll(setups[..n]), setups[n];
      NoVerdictOffPort(setups[..n], ip, q);
      InsertFacts(w.chain, Drop(last.port), Drop(last.port), ip, q);
      UnbanAllOffPort(Insert(w.chain, Drop(last.port)), last.ips, last.port, ip, q);
    }
  }

  /** Whether the last request about ip that adds or removes was an addition. */
  predicate LastAdded(requests: seq<Request>, ip: string)
  {
    requests != [] &&
    var r := requests[|requests| - 1];
    if r.ip == ip && r.op == IP_WHITE_LIST_ADD then true
    else if r.ip == ip && r.op == IP_WHITE_LIST_DEL then false
    else LastAdded(requests[..|requests| - 1], ip)
  }

  /**
   The firewall refines the whitelist. For every start-up, every run of OpWhiteList calls on one
   of its ports and every IP that is not a seed: the chain accepts the IP on that port exactly when
   the map says so, exactly when its last addition or removal was an addition, and then there is
   one ACCEPT rule for it, otherwise none.
   */
  lemma {:induction false} FirewallRefinesWhitelist(setups: seq<Setup>, requests: seq<Request>, port: int, ip: string)
    requires HasPort(setups, port) && !IsSeed(setups, ip)
    ensures
      var w := RunOps(InitAll(setups), requests, port);
      && Tracks(w, ip, port)
      && Verdict(w.chain, ip, port) == Some(if IsIn(w.list, ip, port) then ACCEPT else DROP)
      && (IsIn(w.list, ip, port) <==> LastAdded(requests, ip))
      && Count(w.chain, Accept(ip, port)) == if IsIn(w.list, ip, port) then 1 else 0
  {
    var w := RunOps(InitAll(setups), requests, port);
    if requests == [] {
      StrangersAfterInit(setups, ip, port);
    } else {
      var n := |requests| - 1;
      FirewallRefinesWhitelist(setups, requests[..n], port, ip);
      OpKeepsTracks(RunOps(InitAll(setups), requests[..n], port), requests[n].op, requests[n].ip, port, ip);
    }
    TracksMeansAgreement(w, ip, port);
  }

  function Additions(requests: seq<Request>, ip: string): nat
  {
    if requests == [] then 0
    else
      var r := requests[|requests| - 1];
      Additions(requests[..|requests| - 1], ip) + (if r.ip == ip && r.op == IP_WHITE_LIST_ADD then 1 else 0)
  }

  /** Every seed stays accepted on its own port, whatever is requested on port p. */
  lemma {:induction false} SeedsStayAccepted(setups: seq<Setup>, requests: seq<Request>, port: int, ip: string, k: nat)
    requires k < |setups| && ip in setups[k].ips && port != 1
    requires forall i, j :: 0 <= i < j < |setups| ==> setups[i].port != setups[j].port
    ensures
      var w := RunOps(InitAll(setups), requests, port);
      && Pinned(w, ip)
      && Guarded(w.chain, ip, setups[k].port)
      && Count(w.chain, Accept(ip, setups[k].port)) >= 1
      && Verdict(w.chain, ip, setups[k].port) == Some(ACCEPT)
  {
    var w := RunOps(InitAll(setups), requests, port);
    if requests == [] {
      SeedsAfterInit(setups, ip, k);
    } else {
      var n := |requests| - 1;
      SeedsStayAccepted(setups, requests[..n], port, ip, k);
      var before := RunOps(InitAll(setups), requests[..n], port);
      OpOnPinned(before, requests[n].op, requests[n].ip, port, ip, setups[k].port);
    }
    VerdictOfGuarded(w.chain, ip, setups[k].port);
  }

  /**
   On a port where it had no rule at start-up, a seed is accepted for good from its first addition
   on; each addition leaves one more rule. The map never says so.
   */
  lemma {:induction false} SeedsAreNeverRemoved(w: WhiteList, requests: seq<Request>, port: int, ip: string)
    requires Pinned(w, ip) && port != 1
    requires Guarded(w.chain, ip, port) && Count(w.chain, Accept(ip, port)) == 0
    ensures
      var w' := RunOps(w, requests, port);
      && Pinned(w', ip) && !IsIn(w'.list, ip, port)
      && Guarded(w'.chain, ip, port)
      && Count(w'.chain, Accept(ip, port)) == Additions(requests, ip)
      && (Verdict(w'.chain, ip, port) == Some(ACCEPT) <==> Additions(requests, ip) > 0)
  {
    var w' := RunOps(w, requests, port);
    if requests != [] {
      var n := |requests| - 1;
      SeedsAreNeverRemoved(w, requests[..n], port, ip);
      OpOnPinned(RunOps(w, requests[..n], port), requests[n].op, requests[n].ip, port, ip, port);
    }
    VerdictOfGuarded(w'.chain, ip, port);
  }

  /** Requests on one port never change what happens to any IP on another port. */
  lemma {:induction false} OtherPortsUntouched(w: WhiteList, requests: seq<Request>, port: int, ip: string, q: int)
    requires q != port
    ensures Verdict(RunOps(w, requests, port).chain, ip, q) == Verdict(w.chain, ip, q)
  {
    if requests != [] {
      var n := |requests| - 1;
      OtherPortsUntouched(w, requests[..n], port, ip, q);
      OpKeepsOtherPorts(RunOps(w, requests[..n], port), requests[n].op, requests[n].ip, port, ip, q);
    }
  }
}
