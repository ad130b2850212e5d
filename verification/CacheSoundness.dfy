/** What hosts learn about each other in any run: every table entry describes the host at its address. */
module CacheSoundness {
  import opened Shared
  import opened Messages
  import opened CandidateNames
  import opened Computers
  import opened ComputerCache
  import opened HostModel
  import opened Discovery

  /** The entry describes host `h`: it has settled on that name, and announces ssh if the entry says so. */
  predicate Describes(e: Entry, h: Host) {
    Owns(h, e.name) && (e.ssh ==> h.cfg.announceSsh)
  }

  predicate EntryOk(hosts: seq<Host>, a: uint32, e: Entry) {
    exists c :: 0 <= c < |hosts| && hosts[c].cfg.address == a && Describes(e, hosts[c])
  }

  predicate CacheOk(hosts: seq<Host>, cache: Cache) {
    forall a :: a in cache ==> EntryOk(hosts, a, cache[a])
  }

  predicate CachesOk(s: System) {
    forall i :: 0 <= i < |s.hosts| ==> CacheOk(s.hosts, s.hosts[i].cache)
  }

  predicate DistinctAddresses(hosts: seq<Host>) {
    forall i, j :: 0 <= i < j < |hosts| ==> hosts[i].cfg.address != hosts[j].cfg.address
  }

  lemma AnnouncedEntry(e: Entry, name: Label, s: Service, ttl: uint32, now: nat)
    ensures Announced(e, Fqdn(name, s), ttl, now).name == e.name
    ensures Announced(e, Fqdn(name, s), ttl, now).ssh ==> e.ssh || s == TCP
  {
    assert Fqdn(name, s)[1..] == ServiceName(s);
    FqdnServices(s);
  }

  lemma FqdnServices(s: Service)
    ensures ServiceName(s) == ServiceName(TCP) ==> s == TCP
  {
    assert OPOZNIENIA[1] != SSH[1];
    assert ServiceName(UDP)[0] != ServiceName(TCP)[0];
  }

  lemma InsertSound(hosts: seq<Host>, cache: Cache, o: Out, now: nat)
    requires DistinctAddresses(hosts) && CacheOk(hosts, cache)
    requires o.ResponseOut? && Vouched(hosts, o)
    ensures CacheOk(hosts, Insert(cache, o.address, Fqdn(o.name, o.service), o.ttl, now))
  {
    var fqdn := Fqdn(o.name, o.service);
    assert fqdn[0] == o.name;
    hide Announced;
    var c :| 0 <= c < |hosts| && Vouches(hosts[c], o);
    var e := if o.address in cache then cache[o.address] else Fresh(o.address, fqdn);
    if o.address in cache {
      var d :| 0 <= d < |hosts| && hosts[d].cfg.address == o.address && Describes(e, hosts[d]);
      assert c == d;
    }
    AnnouncedEntry(e, o.name, o.service, o.ttl, now);
    assert Describes(Announced(e, fqdn, o.ttl, now), hosts[c]);
  }

  lemma SweepSound(hosts: seq<Host>, cache: Cache, readings: Readings)
    requires CacheOk(hosts, cache)
    ensures CacheOk(hosts, Sweep(cache, readings))
  {
    forall a | a in Sweep(cache, readings)
      ensures EntryOk(hosts, a, Sweep(cache, readings)[a])
    {
      assert EntryOk(hosts, a, cache[a]);
      var c :| 0 <= c < |hosts| && hosts[c].cfg.address == a && Describes(cache[a], hosts[c]);
      assert a in readings ==> Describes(Expired(cache[a], readings[a]), hosts[c]);
    }
  }

  lemma {:induction false} ReactSound(s: System, ev: NetEvent)
    requires Inv(s) && CachesOk(s) && DistinctAddresses(s.hosts) && Enabled(s, ev)
    ensures CacheOk(s.hosts, React(s, ev).host.cache)
  {
    hide CacheOk, Insert, Sweep, HandleQuery;
    var h := s.hosts[ev.i];
    assert CacheOk(s.hosts, h.cache);
    match ev
    case Delivered(_, o, from, stale, now) =>
      assert OutOk(s.hosts, o);
      DeliverSound(s, ev.i, o, from, stale, now);
    case Sweeps(_, readings, _) => SweepSound(s.hosts, h.cache, readings);
    case _ =>
  }

  lemma QueryLeavesCache(h: Host, id: uint16, qname: seq<Label>, qtype: uint16, qclass: uint16, via: Via)
    ensures HandleQuery(h, id, qname, qtype, qclass, via).host.cache == h.cache
  {
  }

  lemma MeaningSound(hosts: seq<Host>, h: Host, o: Out, from: uint32, now: nat)
    requires DistinctAddresses(hosts) && OutOk(hosts, o) && CacheOk(hosts, h.cache)
    ensures CacheOk(hosts, Receive(h, Meaning(o), Via(false, Endpoint(from, MDNS_PORT)), now).host.cache)
  {
    hide CacheOk, Insert, HandleQuery, Candidate, Claims, DistinctAddresses, Vouched;
    if o.QueryOut? {
      QueryLeavesCache(h, 0, o.fqdn, o.qtype, 1, Via(false, Endpoint(from, MDNS_PORT)));
    } else if o.rtype == A {
      InsertSound(hosts, h.cache, o, now);
    }
  }

  lemma {:induction false} DeliverSound(s: System, i: nat, o: Out, from: uint32, stale: seq<byte>, now: nat)
    requires DistinctAddresses(s.hosts) && i < |s.hosts| && OutOk(s.hosts, o)
    requires CacheOk(s.hosts, s.hosts[i].cache)
    ensures CacheOk(s.hosts, Deliver(s.hosts[i], o, from, stale, now).host.cache)
  {
    Understood(s.hosts, o, stale);
    MeaningSound(s.hosts, s.hosts[i], o, from, now);
    hide CacheOk, DistinctAddresses, OutOk, DecodeMessage, WireBytes, Receive, Meaning;
  }

  lemma CacheMono(hosts: seq<Host>, i: nat, g: Host, cache: Cache)
    requires i < |hosts| && Extends(hosts[i], g) && CacheOk(hosts, cache)
    ensures CacheOk(hosts[i := g], cache)
  {
    forall a | a in cache
      ensures EntryOk(hosts[i := g], a, cache[a])
    {
      assert EntryOk(hosts, a, cache[a]);
      var c :| 0 <= c < |hosts| && hosts[c].cfg.address == a && Describes(cache[a], hosts[c]);
      assert Describes(cache[a], hosts[i := g][c]);
    }
  }

  lemma {:induction false} StepSound(s: System, ev: NetEvent)
    requires Inv(s) && CachesOk(s) && DistinctAddresses(s.hosts)
    ensures CachesOk(Step(s, ev)) && DistinctAddresses(Step(s, ev).hosts)
  {
    if Enabled(s, ev) {
      ReactIsGood(s, ev);
      ReactSound(s, ev);
      hide Inv, React, CacheOk, Enabled;
      var g, after := React(s, ev).host, Step(s, ev).hosts;
      forall j | 0 <= j < |after|
        ensures CacheOk(after, after[j].cache)
      {
        CacheMono(s.hosts, ev.i, g, if j == ev.i then g.cache else s.hosts[j].cache);
      }
    }
  }

  lemma {:induction false} ExecSound(s: System, evs: seq<NetEvent>)
    requires Inv(s) && CachesOk(s) && DistinctAddresses(s.hosts)
    ensures Inv(Exec(s, evs)) && CachesOk(Exec(s, evs)) && DistinctAddresses(Exec(s, evs).hosts)
    decreases |evs|
  {
    hide Inv, CachesOk, DistinctAddresses;
    if evs != [] {
      ExecSound(s, evs[..|evs| - 1]);
      StepKeepsInv(Exec(s, evs[..|evs| - 1]), evs[|evs| - 1]);
      StepSound(Exec(s, evs[..|evs| - 1]), evs[|evs| - 1]);
    }
  }

  /**
   Between hosts with distinct addresses, in every run: an entry at an address belongs to the one host
   that has this address; that host has settled on its name, the entry carries exactly that name, and
   ssh is only marked for a host that announces it.
   */
  lemma {:induction false} DiscoveryIsSound(cfgs: seq<Config>, evs: seq<NetEvent>, i: nat, a: uint32)
    requires GoodNetwork(cfgs) && i < |cfgs|
    requires forall j, k :: 0 <= j < k < |cfgs| ==> cfgs[j].address != cfgs[k].address
    ensures |Exec(Init(cfgs), evs).hosts| == |cfgs|
    ensures var hosts := Exec(Init(cfgs), evs).hosts;
            a in hosts[i].cache ==>
              && (exists c :: 0 <= c < |cfgs| && cfgs[c].address == a)
              && (forall c :: 0 <= c < |cfgs| && cfgs[c].address == a ==>
                    Owns(hosts[c], hosts[i].cache[a].name) && (hosts[i].cache[a].ssh ==> cfgs[c].announceSsh))
  {
    var s := Exec(Init(cfgs), evs);
    InitInv(cfgs);
    ExecInv(cfgs, evs);
    hide Inv;
    ExecSound(Init(cfgs), evs);
    ConfigsStay(cfgs, evs);
    if a in s.hosts[i].cache {
      assert CacheOk(s.hosts, s.hosts[i].cache);
      assert EntryOk(s.hosts, a, s.hosts[i].cache[a]);
    }
  }
}
