/** From an access list of the controller to an open port at the gateway. */
module EndToEnd {
  import opened Options
  import opened Words
  import opened RsaChunks
  import opened SpaTools
  import opened Firewall
  import C = Controller
  import CR = ControllerRuns
  import G = Gateway
  import A = Application

  /** A ticket minted at time t is unexpired up to the uint32 sum of t and 30, whichever clock is ahead. */
  predicate InTime(t: nat, now: int) {
    now <= (t + 30) % 0x1_0000_0000
  }

  /** From its minting on, that is up to t + 30 if this fits in 32 bits, and never otherwise. */
  lemma InTimeSinceMinting(t: nat, now: int)
    requires t <= now
    ensures InTime(t, now) <==> now <= t + 30 < 0x1_0000_0000
  {
    if t + 30 >= TWO32 && now < TWO32 {
      DivModUnique(t + 30, TWO32, 1, t + 30 - TWO32);
    }
  }

  lemma MintedTicketIsFresh(userIp: string, d: C.Draw, now: int)
    ensures G.Fresh(Ticket(userIp, d.now % 0x1_0000_0000, d.random, 30), now) <==> InTime(d.now, now)
  {
    ModMultiple(d.now % TWO32 + 30, d.now / TWO32, TWO32);
  }

  /** A minted ticket names the user, the clock reading cut to 32 bits, the random number and 30 seconds. */
  lemma MintedTicketSeals(suite: Suite, userIp: string, d: C.Draw)
    requires suite.Usable() && Md5Sound(suite.md5)
    ensures
      var p := C.Mint(suite, userIp, d);
      var text := suite.ticketText(Ticket(userIp, d.now % 0x1_0000_0000, d.random, 30));
      && IsSealed(suite.gateway, d.nonce, text, p.encData)
      && IsKeptDigest(suite.md5, text, p.md5Data)
      && IsSigned(suite.controller, text, p.signData)
  {
    TicketSeals(suite, Ticket(userIp, d.now % TWO32, d.random, 30), d.nonce);
  }

  lemma MintedTicketOpens(suite: Suite, userIp: string, d: C.Draw)
    requires suite.Sound()
    ensures DecryptTicket(suite, C.Mint(suite, userIp, d)) ==
            Done(Ticket(userIp, d.now % 0x1_0000_0000, d.random, 30))
  {
    TicketRoundTrip(suite, Ticket(userIp, d.now % TWO32, d.random, C.VALID_SECONDS), d.nonce);
  }

  /** What happens to a minted ticket, presented from any IP at any clock reading after any gateway run. */
  lemma PresentedTicket(gcfg: G.Config, suite: Suite, userIp: string, d: C.Draw,
                        seen: seq<G.Event>, fromIp: string, now: int)
    requires suite.Sound() && gcfg.tcpPort != gcfg.appPort && gcfg.appPort != 1
    ensures
      var packet, g := C.Mint(suite, userIp, d), G.Run(gcfg, suite, seen);
      && (G.Passes(gcfg, suite, g, packet, fromIp, now) <==>
            && fromIp == userIp
            && !G.Blacklisted(seen, userIp)
            && !G.Consumed(suite, seen, packet.signData)
            && InTime(d.now, now))
      && (G.Passes(gcfg, suite, g, packet, fromIp, now) ==>
            Verdict(G.Knock(gcfg, suite, g, packet, fromIp, now).wl.chain, fromIp, gcfg.appPort) == Some(ACCEPT))
  {
    var packet := C.Mint(suite, userIp, d);
    var e := G.Knocked(packet, fromIp, now);
    MintedTicketOpens(suite, userIp, d);
    MintedTicketIsFresh(userIp, d, now);
    G.PassesIsLetThrough(gcfg, suite, seen, e);
    if G.LetThrough(suite, seen, e) {
      AdmittedIsAccepted(gcfg, suite, seen, e);
    }
  }

  lemma AdmittedIsAccepted(gcfg: G.Config, suite: Suite, seen: seq<G.Event>, e: G.Event)
    requires suite.Usable() && gcfg.tcpPort != gcfg.appPort && gcfg.appPort != 1
    requires G.LetThrough(suite, seen, e)
    ensures Verdict(G.Step(gcfg, suite, G.Run(gcfg, suite, seen), e).wl.chain, e.fromIp, gcfg.appPort) == Some(ACCEPT)
  {
    var all := seen + [e];
    assert all[..|all| - 1] == seen;
    assert G.Admits(suite, seen, e, e.fromIp);
    if G.Seed(gcfg, e.fromIp) {
      G.SeedsAreNeverClosed(gcfg, suite, all, e.fromIp);
    } else {
      G.FirewallFollowsTrace(gcfg, suite, all, e.fromIp);
    }
  }

  /** The access list after a run of the controller. */
  function AccessList(
    cfg: C.Config, suite: Suite, issued: seq<CR.Event>, acc: string, userIp: string, draw: nat -> C.Draw
  ): seq<C.AccessItem>
    requires suite.Usable()
  {
    var c := CR.Run(cfg, suite, issued);
    C.Issue(suite, c.perms, acc, userIp, draw, C.Flat(c.apps))
  }

  /**
   End-to-end admission. Take any run of the controller, any of the three accounts and any line k of
   its access list, minted at time t for userIp; take any run of the gateway, any sender and any clock
   reading, earlier than t or later. The ticket makes GateFuncUdpRecv return 0 if and only if the sender
   is userIp, it is not blacklisted, the signature is unused and the reading is at most t + 30 modulo
   2^32; and whenever it does, the firewall then accepts userIp on the application port.
   */
  lemma EndToEndAdmission(ccfg: C.Config, gcfg: G.Config, suite: Suite,
                          issued: seq<CR.Event>, acc: string, userIp: string, draw: nat -> C.Draw,
                          seen: seq<G.Event>, fromIp: string, now: int, k: nat)
    requires suite.Sound() && CR.IsUser(acc) && gcfg.tcpPort != gcfg.appPort && gcfg.appPort != 1
    ensures
      var list, g := AccessList(ccfg, suite, issued, acc, userIp, draw), G.Run(gcfg, suite, seen);
      && |list| == |C.Flat(CR.Run(ccfg, suite, issued).apps)|
      && (k < |list| ==>
            var packet := list[k].ticketPacket;
            && (G.Passes(gcfg, suite, g, packet, fromIp, now) <==>
                  && fromIp == userIp
                  && !G.Blacklisted(seen, userIp)
                  && !G.Consumed(suite, seen, packet.signData)
                  && InTime(draw(k).now, now))
            && (G.Passes(gcfg, suite, g, packet, fromIp, now) ==>
                  Verdict(G.Knock(gcfg, suite, g, packet, fromIp, now).wl.chain, fromIp, gcfg.appPort)
                  == Some(ACCEPT)))
  {
    CR.AccessListExact(ccfg, suite, issued, acc, userIp, draw);
    PresentedTicket(gcfg, suite, userIp, draw(k), seen, fromIp, now);
  }

  /** The first minting time whose sum wraps: its tickets pass at no clock reading after 0. */
  lemma LateTicketNeverPasses(gcfg: G.Config, suite: Suite, userIp: string, d: C.Draw,
                              seen: seq<G.Event>, fromIp: string, now: int)
    requires suite.Sound() && gcfg.tcpPort != gcfg.appPort && gcfg.appPort != 1
    requires d.now == 0x1_0000_0000 - 30 && now > 0
    ensures !G.Passes(gcfg, suite, G.Run(gcfg, suite, seen), C.Mint(suite, userIp, d), fromIp, now)
  {
    DivModUnique(d.now + 30, TWO32, 1, 0);
    PresentedTicket(gcfg, suite, userIp, d, seen, fromIp, now);
  }

  /** A seed that knocks with a ticket just minted for it and is then blacklisted stays accepted. */
  lemma BlacklistedSeedWithTicket(gcfg: G.Config, suite: Suite, ip: string, d: C.Draw)
    requires suite.Sound() && gcfg.tcpPort != gcfg.appPort && gcfg.appPort != 1
    requires G.Seed(gcfg, ip) && d.now + 30 < 0x1_0000_0000
    ensures
      var trace := [G.Knocked(C.Mint(suite, ip, d), ip, d.now), G.BlackOrdered(IP_BLACK_LIST_ADD, ip)];
      var g := G.Run(gcfg, suite, trace);
      && IsIn(g.black, ip, gcfg.appPort)
      && Verdict(g.wl.chain, ip, gcfg.appPort) == Some(ACCEPT)
  {
    MintedTicketOpens(suite, ip, d);
    MintedTicketIsFresh(ip, d, d.now);
    InTimeSinceMinting(d.now, d.now);
    G.BlacklistedSeedStaysOpen(gcfg, suite, C.Mint(suite, ip, d), ip, d.now);
  }

  /** The notice that the application sends for ip, as an event of the gateway. */
  function NoticeOf(gcfg: G.Config, ip: string): G.Event {
    G.Noticed(gcfg.applicationIp, G.APP_NOTICE_CLOSE_PORT_FOR_IP, ip)
  }

  /**
   Cut-off. Take any run of the application and a further visit that is over the rate or too late: the
   application's last notice then names the visitor. In any gateway run that receives this notice, the
   visitor, unless a seed, is dropped on the application port until a knock of its own is let through.
   */
  lemma CutOff(gcfg: G.Config, suite: Suite, visits: seq<A.Visit>, v: A.Visit, seen: seq<G.Event>, more: seq<G.Event>)
    requires suite.Usable() && !G.Seed(gcfg, v.ip)
    requires !(A.WithinRate(visits, v) && A.Recent(visits, v))
    requires
      var noticed := seen + [NoticeOf(gcfg, v.ip)];
      forall i :: 0 <= i < |more| ==> !G.Admits(suite, noticed + more[..i], more[i], v.ip)
    ensures
      var notices := A.Run(visits + [v]).notices;
      && |notices| > 0 && notices[|notices| - 1] == v.ip
      && var g := G.Run(gcfg, suite, seen + [NoticeOf(gcfg, notices[|notices| - 1])] + more);
      Verdict(g.wl.chain, v.ip, gcfg.appPort) == Some(DROP)
  {
    var all := visits + [v];
    assert all[..|all| - 1] == visits;
    A.NoticesFollowTrace(all);
    assert A.Unserved(all) == A.Unserved(visits) + [v.ip];
    NoticeCloses(gcfg, suite, seen, v.ip);
    G.ClosedUntilAdmitted(gcfg, suite, seen + [NoticeOf(gcfg, v.ip)], more, v.ip);
  }

  lemma NoticeCloses(gcfg: G.Config, suite: Suite, seen: seq<G.Event>, ip: string)
    requires suite.Usable() && !G.Seed(gcfg, ip)
    ensures Verdict(G.Run(gcfg, suite, seen + [NoticeOf(gcfg, ip)]).wl.chain, ip, gcfg.appPort) == Some(DROP)
  {
    var all := seen + [NoticeOf(gcfg, ip)];
    assert all[..|all| - 1] == seen;
    G.FirewallFollowsTrace(gcfg, suite, all, ip);
  }
}
