/**
 The application server's two limits: at most three requests per IP and minute, and no request
 more than ten seconds after the previous one, in the order AppFuncHttps applies them.
 */
module Application {
  import opened Options
  import opened Words

  const ACCESS_TOO_LAST_LIMIT: int := 10
  const ACCESS_TIMES_LIMIT_ONE_MIN: int := 3
  const HTTPS_RESPONSE: string := "<html><head></head><body>hello world!</body></html>"

  /** Both fields are ints; `min` receives a 64-bit clock value. */
  datatype Freq = Freq(times: int, min: int)

  /** notices are the IPs that the gateway was asked to close, in order. */
  datatype AppState = AppState(freq: map<string, Freq>, last: map<string, int>, notices: seq<string>)

  /** TimeNow_Min: the clock with its seconds set to zero. */
  function Minute(now: int): (m: int)
    ensures m <= now < m + 60 && m % 60 == 0
  {
    now - now % 60
  }

  // ------------------------------------------------------- state transitions

  /** The entry of ip belongs to the current minute, as the code compares them. */
  predicate SameMinute(freq: map<string, Freq>, ip: string, now: int) {
    ip in freq && freq[ip].min == Minute(now)
  }

  function CountVisit(freq: map<string, Freq>, ip: string, now: int): map<string, Freq> {
    if SameMinute(freq, ip, now) then freq[ip := freq[ip].(times := freq[ip].times + 1)]
    else freq[ip := Freq(1, ToInt32(Minute(now)))]
  }

  /** Whether FrequencyJudgment lets the visit pass. */
  predicate FrequencyPasses(freq: map<string, Freq>, ip: string, now: int) {
    SameMinute(freq, ip, now) ==> freq[ip].times + 1 <= ACCESS_TIMES_LIMIT_ONE_MIN
  }

  /** Whether TimeLimitJudgement lets the visit pass. */
  predicate TimePasses(last: map<string, int>, ip: string, now: int) {
    ip in last ==> last[ip] + ACCESS_TOO_LAST_LIMIT >= now
  }

  /** A request with the three clock readings that it can take, in the order they are taken. */
  datatype Visit = Visit(ip: string, t0: int, t1: int, t2: int) {
    predicate Ordered() {
      0 <= t0 <= t1 <= t2
    }
  }

  /** Whether HTTPS_HANDLER runs. */
  predicate Serves(s: AppState, v: Visit) {
    FrequencyPasses(s.freq, v.ip, v.t0) && TimePasses(s.last, v.ip, v.t1)
  }

  function Visited(s: AppState, v: Visit): AppState {
    AppState(CountVisit(s.freq, v.ip, v.t0),
             if FrequencyPasses(s.freq, v.ip, v.t0) then s.last[v.ip := v.t2] else s.last,
             s.notices + if Serves(s, v) then [] else [v.ip])
  }

  // ---------------------------------------------------------------- the server

  class SDPApplication {
    var visistFreqMap: map<string, Freq>
    var lastVisitTimeMap: map<string, int>
    var notices: seq<string>   // the GateFuncNotice requests sent

    function State(): AppState
      reads this
    {
      AppState(visistFreqMap, lastVisitTimeMap, notices)
    }

    constructor ()
      ensures State() == AppState(map[], map[], [])
    {
      visistFreqMap, lastVisitTimeMap, notices := map[], map[], [];
    }

    method FrequencyJudgment(ip: string, now: int) returns (ret: int)
      modifies this`visistFreqMap, this`notices
      ensures visistFreqMap == CountVisit(old(visistFreqMap), ip, now)
      ensures ret == if FrequencyPasses(old(visistFreqMap), ip, now) then 0 else -1
      ensures notices == old(notices) + if ret == 0 then [] else [ip]
    {
      var minNow := Minute(now);
      if ip in visistFreqMap {
        var freq := visistFreqMap[ip];
        if freq.min == minNow {
          freq := freq.(times := freq.times + 1);
          visistFreqMap := visistFreqMap[ip := freq];
          if freq.times > ACCESS_TIMES_LIMIT_ONE_MIN {
            notices := notices + [ip];
            return -1;
          }
          return 0;
        }
      }
      visistFreqMap := visistFreqMap[ip := Freq(1, ToInt32(minNow))];
      return 0;
    }

    method TimeLimitJudgement(ip: string, now: int, later: int) returns (ret: int)
      modifies this`lastVisitTimeMap, this`notices
      ensures lastVisitTimeMap == old(lastVisitTimeMap)[ip := later]
      ensures ret == if TimePasses(old(lastVisitTimeMap), ip, now) then 0 else -1
      ensures notices == old(notices) + if ret == 0 then [] else [ip]
    {
      if ip in lastVisitTimeMap {
        var lastTime := lastVisitTimeMap[ip];
        if lastTime + ACCESS_TOO_LAST_LIMIT < now {
          lastVisitTimeMap := lastVisitTimeMap[ip := later];
          notices := notices + [ip];
          return -1;
        }
      }
      lastVisitTimeMap := lastVisitTimeMap[ip := later];
      return 0;
    }

    method AppFuncHttps(v: Visit, response0: string) returns (ret: int, response: string)
      modifies this
      ensures State() == Visited(old(State()), v)
      ensures ret == if Serves(old(State()), v) then 0 else -1
      ensures response == if Serves(old(State()), v) then HTTPS_RESPONSE else response0
    {
      response := response0;
      ret := FrequencyJudgment(v.ip, v.t0);
      if ret < 0 {
        return -1, response;
      }
      ret := TimeLimitJudgement(v.ip, v.t1, v.t2);
      if ret < 0 {
        return -1, response;
      }
      return 0, HTTPS_RESPONSE;
    }
  }

  // ------------------------------------------------------------- whole runs

  /** The clock never goes back, within a visit or between visits. */
  predicate Monotone(trace: seq<Visit>) {
    && (forall i :: 0 <= i < |trace| ==> trace[i].Ordered())
    && (forall i, j :: 0 <= i < j < |trace| ==> trace[i].t2 <= trace[j].t0)
  }

  function Run(trace: seq<Visit>): AppState
  {
    if trace == [] then AppState(map[], map[], [])
    else Visited(Run(trace[..|trace| - 1]), trace[|trace| - 1])
  }

  // ------------------------------- what a trace means, without any server state

  predicate In(v: Visit, ip: string, minute: int) {
    v.ip == ip && Minute(v.t0) == minute
  }

  /** How often ip asked in this minute. */
  function Attempts(trace: seq<Visit>, ip: string, minute: int): nat
  {
    if trace == [] then 0
    else
      var n := |trace| - 1;
      Attempts(trace[..n], ip, minute) + (if In(trace[n], ip, minute) then 1 else 0)
  }

  /** The minute survives its conversion to int. */
  predicate Counted(minute: int) {
    ToInt32(minute) == minute
  }

  /** The visits of ip, in order. */
  function Of(trace: seq<Visit>, ip: string): seq<Visit>
  {
    if trace == [] then []
    else
      var n := |trace| - 1;
      Of(trace[..n], ip) + if trace[n].ip == ip then [trace[n]] else []
  }

  /**
   The last three visits of its IP were in the minute of v. Of the oldest of them only the int that its
   minute is converted to counts, because that visit may have set the entry.
   */
  predicate OverRate(trace: seq<Visit>, v: Visit) {
    var h, minute := Of(trace, v.ip), Minute(v.t0);
    var n := |h|;
    && n >= 3 && ToInt32(Minute(h[n - 3].t0)) == minute
    && Minute(h[n - 2].t0) == minute && Minute(h[n - 1].t0) == minute
  }

  predicate WithinRate(trace: seq<Visit>, v: Visit) {
    !OverRate(trace, v)
  }

  /** When the last visit of ip within the rate was recorded. */
  function LastRecorded(trace: seq<Visit>, ip: string): Option<int>
  {
    if trace == [] then None
    else
      var n := |trace| - 1;
      if trace[n].ip == ip && WithinRate(trace[..n], trace[n]) then Some(trace[n].t2)
      else LastRecorded(trace[..n], ip)
  }

  predicate Recent(trace: seq<Visit>, v: Visit) {
    var r := LastRecorded(trace, v.ip);
    r.Some? ==> v.t1 <= r.value + 10
  }

  /** The minute of the latest visit of ip. */
  function Latest(trace: seq<Visit>, ip: string): Option<int>
  {
    if trace == [] then None
    else
      var n := |trace| - 1;
      if trace[n].ip == ip then Some(Minute(trace[n].t0)) else Latest(trace[..n], ip)
  }

  // -------------------------------------------------- the server follows its trace

  lemma MinuteMonotone(s: int, t: int)
    requires s <= t
    ensures Minute(s) <= Minute(t)
  {
    var a, b := Minute(s), Minute(t);
    assert a % 60 == 0 && b % 60 == 0 && a < b + 60;
  }

  lemma MonotonePrefix(trace: seq<Visit>, v: Visit)
    requires Monotone(trace + [v])
    ensures Monotone(trace) && v.Ordered()
    ensures forall i :: 0 <= i < |trace| ==> trace[i].t2 <= v.t0
  {
    var all := trace + [v];
    assert forall i :: 0 <= i < |trace| ==> all[i] == trace[i];
    assert all[|trace|] == v;
  }

  /** With a clock that does not go back, the latest visit's minute is the greatest. */
  lemma {:induction false} LatestIsGreatest(trace: seq<Visit>, ip: string, minute: int)
    requires Monotone(trace)
    ensures Latest(trace, ip).None? ==> Attempts(trace, ip, minute) == 0
    ensures Latest(trace, ip).Some? ==> Latest(trace, ip).value >= 0
    ensures Latest(trace, ip).Some? && Latest(trace, ip).value < minute ==> Attempts(trace, ip, minute) == 0
    ensures forall t :: (forall i :: 0 <= i < |trace| ==> trace[i].t2 <= t) && Latest(trace, ip).Some?
              ==> Latest(trace, ip).value <= Minute(t)
  {
    if trace != [] {
      var n := |trace| - 1;
      assert trace[..n] + [trace[n]] == trace;
      MonotonePrefix(trace[..n], trace[n]);
      LatestIsGreatest(trace[..n], ip, minute);
      if trace[n].ip == ip {
        assert (forall i :: 0 <= i < |trace[..n]| ==> trace[..n][i].t2 <= trace[n].t0);
      }
      forall t | (forall i :: 0 <= i < |trace| ==> trace[i].t2 <= t) && Latest(trace, ip).Some?
        ensures Latest(trace, ip).value <= Minute(t)
      {
        assert forall i :: 0 <= i < n ==> trace[..n][i] == trace[i];
        MinuteMonotone(trace[n].t0, t);
      }
    }
  }

  /** The entry of ip in terms of its last three visits, h being all of them. */
  predicate EntryMatches(freq: map<string, Freq>, ip: string, h: seq<Visit>) {
    var n := |h|;
    && (ip in freq <==> n > 0)
    && (n > 0 ==>
          && freq[ip].min == ToInt32(Minute(h[n - 1].t0)) && freq[ip].times >= 1
          && (freq[ip].times >= 2 <==> n >= 2 && Minute(h[n - 1].t0) == ToInt32(Minute(h[n - 2].t0)))
          && (freq[ip].times >= 3 <==>
                n >= 3 && Minute(h[n - 1].t0) == Minute(h[n - 2].t0) == ToInt32(Minute(h[n - 3].t0))))
  }

  lemma CountMatches(freq: map<string, Freq>, ip: string, h: seq<Visit>, v: Visit)
    requires EntryMatches(freq, ip, h)
    ensures EntryMatches(CountVisit(freq, ip, v.t0), ip, h + [v])
  {
  }

  lemma {:induction false} EntryFollowsHistory(trace: seq<Visit>, ip: string)
    ensures EntryMatches(Run(trace).freq, ip, Of(trace, ip))
  {
    if trace != [] {
      var n := |trace| - 1;
      EntryFollowsHistory(trace[..n], ip);
      if trace[n].ip == ip {
        CountMatches(Run(trace[..n]).freq, ip, Of(trace[..n], ip), trace[n]);
      } else {
        assert Of(trace, ip) == Of(trace[..n], ip);
      }
    }
  }

  /**
   After every run, whatever the clock did, FrequencyJudgment refuses a visit exactly when the last
   three visits of its IP were in its minute.
   */
  lemma FrequencyFollowsTrace(trace: seq<Visit>, v: Visit)
    ensures FrequencyPasses(Run(trace).freq, v.ip, v.t0) <==> WithinRate(trace, v)
  {
    EntryFollowsHistory(trace, v.ip);
  }

  /** The entry of an IP holds the minute of its latest visit and counts the visits in it. */
  lemma {:induction false} EntryFollowsTrace(trace: seq<Visit>, ip: string)
    requires Monotone(trace)
    ensures
      var freq, latest := Run(trace).freq, Latest(trace, ip);
      && (ip in freq <==> latest.Some?)
      && (latest.Some? ==> freq[ip].min == ToInt32(latest.value))
      && (latest.Some? && Counted(latest.value) ==> freq[ip].times == Attempts(trace, ip, latest.value))
    decreases |trace|, 0
  {
    if trace != [] {
      var n := |trace| - 1;
      assert trace[..n] + [trace[n]] == trace;
      MonotonePrefix(trace[..n], trace[n]);
      EntryFollowsTrace(trace[..n], ip);
      if trace[n].ip == ip {
        FrequencyIsAttempts(trace[..n], trace[n]);
        LatestIsGreatest(trace[..n], ip, Minute(trace[n].t0));
      }
    }
  }

  /** With a clock that does not go back: a visit passes exactly when it is among the first three of its minute. */
  lemma {:induction false} FrequencyIsAttempts(trace: seq<Visit>, v: Visit)
    requires Monotone(trace + [v])
    ensures
      var freq, minute := Run(trace).freq, Minute(v.t0);
      && (SameMinute(freq, v.ip, v.t0) <==> Counted(minute) && Latest(trace, v.ip) == Some(minute))
      && (FrequencyPasses(freq, v.ip, v.t0) <==> (Counted(minute) ==> Attempts(trace, v.ip, minute) < 3))
    decreases |trace|, 1
  {
    MonotonePrefix(trace, v);
    EntryFollowsTrace(trace, v.ip);
    LatestIsGreatest(trace, v.ip, Minute(v.t0));
  }

  lemma {:induction false} RecordFollowsTrace(trace: seq<Visit>, ip: string)
    ensures ip in Run(trace).last <==> LastRecorded(trace, ip).Some?
    ensures ip in Run(trace).last ==> LastRecorded(trace, ip) == Some(Run(trace).last[ip])
  {
    if trace != [] {
      var n := |trace| - 1;
      RecordFollowsTrace(trace[..n], ip);
      FrequencyFollowsTrace(trace[..n], trace[n]);
    }
  }

  /**
   After every run, whatever the clock did, HTTPS_HANDLER runs for a visit exactly when the visit is
   within the rate and no more than ten seconds after the last one that was.
   */
  lemma ServesExactly(trace: seq<Visit>, v: Visit)
    ensures Serves(Run(trace), v) <==> WithinRate(trace, v) && Recent(trace, v)
  {
    FrequencyFollowsTrace(trace, v);
    RecordFollowsTrace(trace, v.ip);
  }

  /** The IPs of the visits that are not served, in order. */
  function Unserved(trace: seq<Visit>): seq<string>
  {
    if trace == [] then []
    else
      var n := |trace| - 1;
      var served := WithinRate(trace[..n], trace[n]) && Recent(trace[..n], trace[n]);
      Unserved(trace[..n]) + if served then [] else [trace[n].ip]
  }

  /** The gateway is asked to close exactly the IPs of the visits that are not served. */
  lemma {:induction false} NoticesFollowTrace(trace: seq<Visit>)
    ensures Run(trace).notices == Unserved(trace)
  {
    if trace != [] {
      var n := |trace| - 1;
      NoticesFollowTrace(trace[..n]);
      ServesExactly(trace[..n], trace[n]);
    }
  }

  // --------------------------------------------------------------- the rate limit

  /** How often FrequencyJudgment let ip pass in this minute. */
  function Passed(trace: seq<Visit>, ip: string, minute: int): nat
  {
    if trace == [] then 0
    else
      var n := |trace| - 1;
      Passed(trace[..n], ip, minute)
      + (if In(trace[n], ip, minute) && FrequencyPasses(Run(trace[..n]).freq, ip, trace[n].t0) then 1 else 0)
  }

  /** How often HTTPS_HANDLER ran for ip in this minute. */
  function Served(trace: seq<Visit>, ip: string, minute: int): nat
  {
    if trace == [] then 0
    else
      var n := |trace| - 1;
      Served(trace[..n], ip, minute)
      + (if In(trace[n], ip, minute) && Serves(Run(trace[..n]), trace[n]) then 1 else 0)
  }

  function Min(a: int, b: int): int { if a < b then a else b }

  /**
   In each minute that an int can hold, exactly the first three visits of an IP pass; in a later
   minute, all of them. The handler runs no more often than visits pass.
   */
  lemma {:induction false} RateLimit(trace: seq<Visit>, ip: string, minute: int)
    requires Monotone(trace)
    ensures Passed(trace, ip, minute) ==
            if Counted(minute) then Min(3, Attempts(trace, ip, minute))
            else Attempts(trace, ip, minute)
    ensures Served(trace, ip, minute) <= Passed(trace, ip, minute)
  {
    if trace != [] {
      var n := |trace| - 1;
      assert trace[..n] + [trace[n]] == trace;
      MonotonePrefix(trace[..n], trace[n]);
      RateLimit(trace[..n], ip, minute);
      FrequencyIsAttempts(trace[..n], trace[n]);
    }
  }

  /** The limit holds in a minute for every run if and only if an int can hold the minute. */
  lemma RateLimitExact(ip: string, minute: nat)
    requires minute % 60 == 0
    ensures (forall trace :: Monotone(trace) ==> Passed(trace, ip, minute) <= 3)
            <==> minute < 0x8000_0000
  {
    if minute < 0x8000_0000 {
      forall trace | Monotone(trace)
        ensures Passed(trace, ip, minute) <= 3
      {
        RateLimit(trace, ip, minute);
      }
    } else {
      var trace := Repeat(Visit(ip, minute, minute, minute), 4);
      RepeatedVisits(Visit(ip, minute, minute, minute), 4);
      RateLimit(trace, ip, minute);
    }
  }

  function Repeat(v: Visit, n: nat): (r: seq<Visit>)
    ensures |r| == n && forall i :: 0 <= i < n ==> r[i] == v
  {
    seq(n, _ => v)
  }

  lemma {:induction false} RepeatedVisits(v: Visit, n: nat)
    requires 0 <= v.t0 == v.t1 == v.t2
    ensures Monotone(Repeat(v, n)) && Attempts(Repeat(v, n), v.ip, Minute(v.t0)) == n
  {
    if n != 0 {
      RepeatedVisits(v, n - 1);
      assert Repeat(v, n)[..n - 1] == Repeat(v, n - 1);
    }
  }
}
