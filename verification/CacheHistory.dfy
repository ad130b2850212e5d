/** The table of a host in any run, against the log of the address records that reached it and of its sweeps. */
module CacheHistory {
  import opened Shared
  import opened DomainNames
  import opened Messages
  import opened Computers
  import opened ComputerCache
  import opened HostModel
  import opened Discovery
  import opened CacheSoundness

  /** What an event means for the table of host `i`, if anything. */
  function Logged(s: System, ev: NetEvent, i: nat): seq<CacheEvent> {
    if !Enabled(s, ev) || ev.i != i then []
    else
      match ev
      case Delivered(_, o, _, _, now) =>
        if o.ResponseOut? && o.rtype == A then [Received(o.address, Fqdn(o.name, o.service), o.ttl, now)] else []
      case Sweeps(_, readings, now) => [Swept(readings, now)]
      case _ => []
  }

  function LogOf(s: System, evs: seq<NetEvent>, i: nat): seq<CacheEvent> {
    if evs == [] then []
    else LogOf(s, evs[..|evs| - 1], i) + Logged(Exec(s, evs[..|evs| - 1]), evs[|evs| - 1], i)
  }

  function CacheSteps(cache: Cache, evs: seq<CacheEvent>): Cache {
    if |evs| == 1 then CacheStep(cache, evs[0]) else cache
  }

  lemma HandlerLeavesCache(h: Host, k: nat)
    requires k < |h.timer.ready|
    ensures RunReady(h, k).host.cache == h.cache
  {
  }

  lemma QueryLeavesCache(h: Host, id: uint16, qname: seq<Label>, qtype: uint16, qclass: uint16, via: Via, now: nat)
    ensures Receive(h, Query(id, qname, qtype, qclass), via, now).host.cache == h.cache
  {
    hide Answers;
  }

  lemma ReceivedIsLogged(h: Host, o: Out, via: Via, now: nat)
    requires Heeds(via) && (o.ResponseOut? ==> o.rtype == A || o.rtype == PTR)
    ensures Receive(h, Meaning(o), via, now).host.cache ==
            if o.ResponseOut? && o.rtype == A then
              ComputerCache.Insert(h.cache, o.address, Fqdn(o.name, o.service), o.ttl, now)
            else h.cache
  {
    hide ComputerCache.Insert, Claims, Fqdn, HandleQuery;
    if o.QueryOut? {
      QueryLeavesCache(h, 0, o.fqdn, o.qtype, 1, via, now);
    }
  }

  lemma ReactLogged(s: System, ev: NetEvent)
    requires Inv(s) && Enabled(s, ev)
    ensures React(s, ev).host.cache == CacheSteps(s.hosts[ev.i].cache, Logged(s, ev, ev.i))
  {
    var h := s.hosts[ev.i];
    match ev
    case HandlerRuns(_, k) => HandlerLeavesCache(h, k);
    case Delivered(_, o, from, stale, now) =>
      assert OutOk(s.hosts, o);
      Heard(s.hosts, h, o, from, stale, now);
      hide Deliver, Receive, Meaning, Inv, ComputerCache.Insert;
      ReceivedIsLogged(h, o, Via(false, Endpoint(from, MDNS_PORT)), now);
    case _ =>
  }

  lemma LogAppends(log: seq<CacheEvent>, more: seq<CacheEvent>)
    requires |more| <= 1
    ensures CacheAfter(log + more) == CacheSteps(CacheAfter(log), more)
  {
    hide CacheStep;
    if more == [] {
      assert log + more == log;
    } else {
      assert (log + more)[..|log|] == log;
    }
  }

  /** In every run a host's table is what the address records delivered to it and its sweeps make of an empty one. */
  lemma {:induction false} TableIsItsLog(cfgs: seq<Config>, evs: seq<NetEvent>, i: nat)
    requires GoodNetwork(cfgs) && i < |cfgs|
    ensures |Exec(Init(cfgs), evs).hosts| == |cfgs|
    ensures Exec(Init(cfgs), evs).hosts[i].cache == CacheAfter(LogOf(Init(cfgs), evs, i))
    decreases |evs|
  {
    ExecInv(cfgs, evs);
    if evs != [] {
      var before, last := Exec(Init(cfgs), evs[..|evs| - 1]), evs[|evs| - 1];
      ExecInv(cfgs, evs[..|evs| - 1]);
      TableIsItsLog(cfgs, evs[..|evs| - 1], i);
      LogAppends(LogOf(Init(cfgs), evs[..|evs| - 1], i), Logged(before, last, i));
      hide Inv, React, CacheAfter, GoodNetwork, Init;
      if Enabled(before, last) && last.i == i {
        ReactLogged(before, last);
      }
    }
  }

  /**
   So in every run in which host `i`'s clock does not run backwards, its table lists after a full sweep
   exactly the addresses of which it was last told something still valid, and marks exactly that.
   */
  lemma {:induction false} SweptTableIsExact(
      cfgs: seq<Config>, evs: seq<NetEvent>, i: nat, readings: Readings, now: nat, address: uint32)
    requires GoodNetwork(cfgs) && i < |cfgs|
    ensures |Exec(Init(cfgs), evs).hosts| == |cfgs|
    ensures var s, log := Exec(Init(cfgs), evs), LogOf(Init(cfgs), evs, i);
            var cache, at := Step(s, Sweeps(i, readings, now)).hosts[i].cache, Looked(readings, now, address);
            Chronological(log + [Swept(readings, now)]) && s.hosts[i].cache.Keys <= readings.Keys ==>
              && (address in cache <==> Expiry(log, address, UDP) > at || Expiry(log, address, TCP) > at)
              && (address in cache ==> cache[address].opoznienia == (Expiry(log, address, UDP) > at))
              && (address in cache ==> cache[address].ssh == (Expiry(log, address, TCP) > at))
  {
    TableIsItsLog(cfgs, evs, i);
    var s, log := Exec(Init(cfgs), evs), LogOf(Init(cfgs), evs, i);
    assert Step(s, Sweeps(i, readings, now)).hosts[i].cache == Sweep(s.hosts[i].cache, readings);
    LogAppends(log, [Swept(readings, now)]);
    hide Step, Exec, Init, LogOf, Sweep, Expiry, Chronological, GoodNetwork;
    if Chronological(log + [Swept(readings, now)]) && s.hosts[i].cache.Keys <= readings.Keys {
      SweptCacheIsExact(log, readings, now, address);
    }
  }

  // ---------------------------------------------------------------- entries live as long as their host answers

  /** When a record of the address for the service was last heard. */
  function LastHeard(log: seq<CacheEvent>, address: uint32, s: Service): Option<nat> {
    if log == [] then None
    else
      var last := log[|log| - 1];
      if last.Received? && last.address == address && Names(last.qname, s) then Some(last.at)
      else LastHeard(log[..|log| - 1], address, s)
  }

  /** All records of the address have this time to live. */
  predicate LivesFor(log: seq<CacheEvent>, address: uint32, ttl: nat) {
    forall k :: 0 <= k < |log| && log[k].Received? && log[k].address == address ==> log[k].ttl == ttl
  }

  lemma {:induction false} ExpiryIsLastHeard(log: seq<CacheEvent>, address: uint32, s: Service, ttl: nat)
    requires LivesFor(log, address, ttl)
    ensures var heard := LastHeard(log, address, s);
            Expiry(log, address, s) == if heard.Some? then heard.value + ttl * 1_000_000 else 0
    decreases |log|
  {
    hide Names;
    if log != [] {
      ExpiryIsLastHeard(log[..|log| - 1], address, s, ttl);
      assert log[|log| - 1] in log;
    }
  }

  /** A record in flight has the time to live of the one host at its address. */
  lemma SentLivesFor(hosts: seq<Host>, o: Out, j: nat)
    requires OutOk(hosts, o) && DistinctAddresses(hosts) && j < |hosts|
    requires o.ResponseOut? && o.address == hosts[j].cfg.address
    ensures o.ttl == Twice(hosts[j].cfg.exploration)
  {
    hide PlainLabel, Twice;
    var c :| 0 <= c < |hosts| && Vouches(hosts[c], o);
    assert c == j;
  }

  lemma {:induction false} RecordsLiveFor(cfgs: seq<Config>, evs: seq<NetEvent>, i: nat, j: nat)
    requires GoodNetwork(cfgs) && i < |cfgs| && j < |cfgs|
    requires forall j, k :: 0 <= j < k < |cfgs| ==> cfgs[j].address != cfgs[k].address
    ensures LivesFor(LogOf(Init(cfgs), evs, i), cfgs[j].address, Twice(cfgs[j].exploration))
    decreases |evs|
  {
    if evs != [] {
      var before, last := evs[..|evs| - 1], evs[|evs| - 1];
      RecordsLiveFor(cfgs, before, i, j);
      ExecInv(cfgs, before);
      ConfigsStay(cfgs, before);
      hide GoodNetwork, Exec, Init, Logged, Twice, Inv;
      LoggedLivesFor(Exec(Init(cfgs), before), last, i, j);
    }
  }

  lemma LoggedLivesFor(s: System, ev: NetEvent, i: nat, j: nat)
    requires Inv(s) && DistinctAddresses(s.hosts) && j < |s.hosts|
    ensures LivesFor(Logged(s, ev, i), s.hosts[j].cfg.address, Twice(s.hosts[j].cfg.exploration))
  {
    hide Fqdn, Twice, HostInv, OutOk, DistinctAddresses;
    if Enabled(s, ev) && ev.Delivered? && ev.o.ResponseOut? && ev.o.address == s.hosts[j].cfg.address {
      SentLivesFor(s.hosts, ev.o, j);
    }
  }

  /**
   Between hosts with distinct addresses, in every run in which host `i`'s clock does not run backwards: for
   less than two exploration periods after it last heard a service of host `j`, it lists host `j` with that
   service, whatever is swept. So a host that is heard once in each period stays listed although one
   round of questions is lost.
   */
  lemma {:induction false} HeardHostsStayListed(cfgs: seq<Config>, evs: seq<NetEvent>, i: nat, j: nat, sv: Service)
    requires GoodNetwork(cfgs) && i < |cfgs| && j < |cfgs| && sv != NONE
    requires forall j, k :: 0 <= j < k < |cfgs| ==> cfgs[j].address != cfgs[k].address
    ensures |Exec(Init(cfgs), evs).hosts| == |cfgs|
    ensures var cache, log := Exec(Init(cfgs), evs).hosts[i].cache, LogOf(Init(cfgs), evs, i);
            var heard, period := LastHeard(log, cfgs[j].address, sv), cfgs[j].exploration * 1_000_000;
            Chronological(log) && cfgs[j].exploration < 0x8000_0000 ==>
              (heard.Some? && Clock(log) < heard.value + period + period ==>
                 cfgs[j].address in cache && Offers(cache[cfgs[j].address], sv))
  {
    var log := LogOf(Init(cfgs), evs, i);
    TableIsItsLog(cfgs, evs, i);
    RecordsLiveFor(cfgs, evs, i, j);
    TwiceIs(cfgs[j].exploration);
    hide Exec, Init, LogOf, Chronological, GoodNetwork, Clock, LastHeard, Expiry, Offers, CacheAfter, LivesFor, Twice;
    ExpiryIsLastHeard(log, cfgs[j].address, sv, Twice(cfgs[j].exploration));
    if Chronological(log) {
      CacheTracksLog(log, cfgs[j].address, sv);
    }
  }

  /** Once swept, exactly so long: it is listed with that service if and only if it was heard so recently. */
  lemma {:induction false} SweptTableListsTheRecent(
      cfgs: seq<Config>, evs: seq<NetEvent>, i: nat, j: nat, sv: Service, readings: Readings, now: nat)
    requires GoodNetwork(cfgs) && i < |cfgs| && j < |cfgs| && sv != NONE
    requires forall j, k :: 0 <= j < k < |cfgs| ==> cfgs[j].address != cfgs[k].address
    ensures |Exec(Init(cfgs), evs).hosts| == |cfgs|
    ensures var s, log := Exec(Init(cfgs), evs), LogOf(Init(cfgs), evs, i);
            var a, period := cfgs[j].address, cfgs[j].exploration * 1_000_000;
            var cache, at := Step(s, Sweeps(i, readings, now)).hosts[i].cache, Looked(readings, now, a);
            var heard := LastHeard(log, a, sv);
            Chronological(log + [Swept(readings, now)]) && s.hosts[i].cache.Keys <= readings.Keys
            && cfgs[j].exploration < 0x8000_0000 ==>
              (a in cache && Offers(cache[a], sv) <==> heard.Some? && at < heard.value + period + period)
  {
    SweptTableIsExact(cfgs, evs, i, readings, now, cfgs[j].address);
    RecordsLiveFor(cfgs, evs, i, j);
    TwiceIs(cfgs[j].exploration);
    hide Step, Exec, Init, LogOf, Chronological, GoodNetwork, LastHeard, Expiry, LivesFor, Twice;
    ExpiryIsLastHeard(LogOf(Init(cfgs), evs, i), cfgs[j].address, sv, Twice(cfgs[j].exploration));
  }
}
