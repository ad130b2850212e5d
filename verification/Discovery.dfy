/**
 Any number of hosts running this program on one network. Whatever was ever sent may be delivered to
 any host at any later time, any number of times or never; nothing else is ever delivered.
 */
module Discovery {
  import opened Shared
  import opened DomainNames
  import opened Messages
  import opened CandidateNames
  import opened ComputerCache
  import opened HostModel

  datatype System = System(hosts: seq<Host>, net: set<Out>)

  datatype NetEvent =
    | TimerExpires(i: nat)
    | HandlerRuns(i: nat, k: nat)
    | Asks(i: nat)
    | Delivered(i: nat, o: Out, from: uint32, stale: seq<byte>, now: nat)
    | Sweeps(i: nat, readings: Readings, now: nat)

  function Init(cfgs: seq<Config>): System {
    System(seq(|cfgs|, i requires 0 <= i < |cfgs| => Start(cfgs[i])), {})
  }

  predicate Enabled(s: System, ev: NetEvent) {
    && ev.i < |s.hosts|
    && (ev.HandlerRuns? ==> ev.k < |s.hosts[ev.i].timer.ready|)
    && (ev.Delivered? ==> ev.o in s.net)
  }

  /** The receiver sees the bytes that were sent, in a buffer that still holds older bytes behind them. */
  function Deliver(h: Host, o: Out, from: uint32, stale: seq<byte>, now: nat): Outcome
  {
    HandleReceive(h, WireBytes(o) + stale, |WireBytes(o)|, Via(false, Endpoint(from, MDNS_PORT)), now)
  }

  function React(s: System, ev: NetEvent): Outcome
    requires Enabled(s, ev)
  {
    var h := s.hosts[ev.i];
    match ev
    case TimerExpires(_) => Outcome(h.(timer := Expire(h.timer)), [])
    case HandlerRuns(_, k) => RunReady(h, k)
    case Asks(_) => AskForServices(h)
    case Delivered(_, o, from, stale, now) => Deliver(h, o, from, stale, now)
    case Sweeps(_, readings, _) => Outcome(HostModel.Measure(h, readings), [])
  }

  /** Events that can not happen leave the system as it is. */
  function Step(s: System, ev: NetEvent): System {
    if Enabled(s, ev) then
      var r := React(s, ev);
      System(s.hosts[ev.i := r.host], s.net + set o | o in r.sent)
    else s
  }

  function Exec(s: System, evs: seq<NetEvent>): System {
    if evs == [] then s else Step(Exec(s, evs[..|evs| - 1]), evs[|evs| - 1])
  }

  // ---------------------------------------------------------------- the invariant

  predicate Owns(h: Host, name: Label) {
    h.nameIsSet && h.myName == name
  }

  /** Another host than `i` has settled on this name. */
  predicate Taken(hosts: seq<Host>, i: nat, name: Label) {
    exists c :: 0 <= c < |hosts| && c != i && Owns(hosts[c], name)
  }

  predicate Vouches(h: Host, o: Out)
    requires o.ResponseOut?
  {
    && Owns(h, o.name) && o.address == h.cfg.address && o.ttl == Twice(h.cfg.exploration)
    && (o.service == TCP ==> h.cfg.announceSsh)
  }

  predicate Vouched(hosts: seq<Host>, o: Out)
    requires o.ResponseOut?
  {
    exists c :: 0 <= c < |hosts| && Vouches(hosts[c], o)
  }

  /** A host name, or a service's name with or without one, short enough to be read back. */
  predicate KnownName(fqdn: seq<Label>) {
    || (|fqdn| == 3 && (fqdn == ServiceName(UDP) || fqdn == ServiceName(TCP)))
    || (|fqdn| == 4 && PlainLabel(fqdn[0], 111) && (fqdn == Fqdn(fqdn[0], UDP) || fqdn == Fqdn(fqdn[0], TCP)))
  }

  predicate OutOk(hosts: seq<Host>, o: Out) {
    && Destination(o) == MULTICAST
    && (o.QueryOut? ==> KnownName(o.fqdn))
    && (o.ResponseOut? ==>
          (o.rtype == A || o.rtype == PTR) && o.service != NONE && PlainLabel(o.name, 111) && Vouched(hosts, o))
  }

  /** Every name a host has given up is owned by another host. */
  predicate GivenUpAreTaken(hosts: seq<Host>, i: nat)
    requires i < |hosts|
  {
    forall k :: 1 <= k < hosts[i].number ==> Taken(hosts, i, Candidate(hosts[i].cfg.base, k))
  }

  predicate HostInv(hosts: seq<Host>, i: nat)
    requires i < |hosts|
  {
    && Hostname(hosts[i].cfg.base) && HostOk(hosts[i]) && (hosts[i].nameIsSet || Pending(hosts[i]))
    && GivenUpAreTaken(hosts, i)
  }

  predicate Inv(s: System) {
    && |s.hosts| <= MAX_NUMBER
    && (forall i :: 0 <= i < |s.hosts| ==> HostInv(s.hosts, i))
    && (forall o :: o in s.net ==> OutOk(s.hosts, o))
  }

  // ---------------------------------------------------------------- numbers are bounded

  lemma {:induction false} Owners(hosts: seq<Host>, i: nat, upTo: nat) returns (owners: set<nat>)
    requires i < |hosts| && GivenUpAreTaken(hosts, i) && upTo < hosts[i].number
    ensures |owners| == upTo && i !in owners
    ensures forall c :: c in owners ==> c < |hosts|
    ensures forall c :: c in owners ==> exists k :: 1 <= k <= upTo && Owns(hosts[c], Candidate(hosts[i].cfg.base, k))
    decreases upTo
  {
    hide Candidate;
    if upTo == 0 {
      owners := {};
    } else {
      var rest := Owners(hosts, i, upTo - 1);
      var base := hosts[i].cfg.base;
      assert Taken(hosts, i, Candidate(base, upTo));
      var c :| 0 <= c < |hosts| && c != i && Owns(hosts[c], Candidate(base, upTo));
      if c in rest {
        var k :| 1 <= k <= upTo - 1 && Owns(hosts[c], Candidate(base, k));
        CandidateInjective(base, k, upTo);
      }
      owners := rest + {c};
    }
  }

  /** Each name given up has its own owner, and a host does not own names it gives up. */
  lemma NumberBounded(hosts: seq<Host>, i: nat)
    requires i < |hosts| && hosts[i].number >= 1 && GivenUpAreTaken(hosts, i)
    ensures hosts[i].number <= |hosts|
  {
    var owners := Owners(hosts, i, hosts[i].number - 1);
    BoundedSet(owners + {i}, |hosts|);
  }

  lemma NamePlain(s: System, i: nat)
    requires Inv(s) && i < |s.hosts|
    ensures PlainLabel(s.hosts[i].myName, 111)
  {
    hide Candidate, Hostname, Pending, GivenUpAreTaken, TimerOk;
    assert HostInv(s.hosts, i);
    NumberBounded(s.hosts, i);
    CandidatePlain(s.hosts[i].cfg.base, s.hosts[i].number);
  }

  // ---------------------------------------------------------------- what a delivered packet means

  function Meaning(o: Out): Message {
    if o.QueryOut? then Query(0, o.fqdn, o.qtype, 1)
    else if o.rtype == A then AAnswer(Fqdn(o.name, o.service), o.ttl, Some(o.address))
    else PtrAnswer(Fqdn(o.name, o.service))
  }

  lemma KnownNamePlain(fqdn: seq<Label>)
    requires KnownName(fqdn)
    ensures PlainName(fqdn, 0xBF)
  {
  }

  lemma PlainLabelWeaken(l: Label, low: nat, high: nat)
    requires PlainLabel(l, low) && low <= high
    ensures PlainLabel(l, high)
  {
  }

  /** The receiver understands exactly what the sender meant. */
  lemma Understood(hosts: seq<Host>, o: Out, stale: seq<byte>)
    requires OutOk(hosts, o)
    ensures 12 <= |WireBytes(o)| && DecodeMessage(WireBytes(o) + stale, |WireBytes(o)|) == Meaning(o)
  {
    hide DecodeMessage, WireBytes, KnownName, Vouched, Destination, PlainLabel;
    var b, size := WireBytes(o) + stale, |WireBytes(o)|;
    assert Carries(b, size, WireBytes(o));
    if o.QueryOut? {
      KnownNamePlain(o.fqdn);
      PlainNameWeaken(o.fqdn);
      WireOfQuery(o);
      QueryRoundTrip(b, size, o.qtype, o.fqdn);
    } else if o.rtype == A {
      PlainLabelWeaken(o.name, 111, 0xFF);
      AResponseRoundTrip(b, size, o);
    } else {
      PlainLabelWeaken(o.name, 111, 0xBF);
      PtrResponseRoundTrip(b, size, o);
    }
  }

  lemma PlainNameWeaken(ls: seq<Label>)
    requires PlainName(ls, 0xBF)
    ensures PlainName(ls, 0xFF)
  {
  }

  lemma WireOfQuery(o: Out)
    requires o.QueryOut?
    ensures WireBytes(o) == QueryBytes(o.qtype, o.fqdn)
  {
  }

  // ---------------------------------------------------------------- packets are never too long

  lemma ServiceNameSize(s: Service)
    ensures |EncodeName(ServiceName(s))| <= 24
  {
    var ls, nil: seq<Label> := ServiceName(s), [];
    assert |EncodeName(nil)| == 1;
    EncodeNameCons(ls);
    if s != NONE {
      EncodeNameCons(ls[1..]);
      EncodeNameCons(ls[1..][1..]);
      assert ls[1..][1..][1..] == nil;
    } else {
      assert ls[1..] == nil;
    }
  }

  lemma FqdnSize(name: Label, s: Service)
    ensures |EncodeName(Fqdn(name, s))| <= 25 + |name|
  {
    ServiceNameSize(s);
    EncodeNameCons(Fqdn(name, s));
    assert Fqdn(name, s)[1..] == ServiceName(s);
  }

  /** What this program's hosts send each other fits every receive buffer. */
  lemma WireSize(hosts: seq<Host>, o: Out)
    requires OutOk(hosts, o)
    ensures |WireBytes(o)| <= BUFFER_SIZE
  {
    hide EncodeName, Vouched, Fqdn, ServiceName;
    if o.QueryOut? {
      KnownNameSize(o.fqdn);
    } else {
      ServiceNameSize(o.service);
      FqdnSize(o.name, o.service);
    }
  }

  lemma KnownNameSize(fqdn: seq<Label>)
    requires KnownName(fqdn)
    ensures |EncodeName(fqdn)| <= 136
  {
    hide EncodeName, ServiceName;
    ServiceNameSize(UDP);
    ServiceNameSize(TCP);
    if |fqdn| == 4 {
      FqdnSize(fqdn[0], UDP);
      FqdnSize(fqdn[0], TCP);
    }
  }

  /** Every packet in flight is read, and means what its sender meant. */
  lemma Heard(hosts: seq<Host>, h: Host, o: Out, from: uint32, stale: seq<byte>, now: nat)
    requires OutOk(hosts, o)
    ensures Deliver(h, o, from, stale, now) == Receive(h, Meaning(o), Via(false, Endpoint(from, MDNS_PORT)), now)
  {
    Understood(hosts, o, stale);
    WireSize(hosts, o);
    hide OutOk, WireBytes, DecodeMessage, Receive, Meaning;
  }

  lemma LastOctet(o: Out)
    requires o.ResponseOut? && o.rtype == PTR
    ensures var b := WireBytes(o); |b| > 0 && b[|b| - 1] < 0xC0
  {
    hide EncodeLabel, EncodeLabels, HeaderBytes, AnswerBytes, QuestionName;
    var r := Rdata(o);
    assert |r| > 0 && r[|r| - 1] < 0xC0;
  }

  lemma OverreadingMeaning(b: seq<byte>, size: nat)
    requires 12 <= size <= |b| && MessageOverreads(b, size)
    ensures !DecodeMessage(b, size).Query? && !DecodeMessage(b, size).AAnswer?
    ensures b[size - 1] >= 0xC0
  {
    hide ParseName, ParseCompressed;
  }

  lemma NeverOverread(hosts: seq<Host>, o: Out, stale: seq<byte>)
    requires OutOk(hosts, o)
    ensures 12 <= |WireBytes(o)| && !MessageOverreads(WireBytes(o) + stale, |WireBytes(o)|)
  {
    var b, size := WireBytes(o) + stale, |WireBytes(o)|;
    Understood(hosts, o, stale);
    if o.ResponseOut? && o.rtype == PTR {
      LastOctet(o);
      assert b[size - 1] == WireBytes(o)[size - 1];
    }
    hide DecodeMessage, MessageOverreads, WireBytes;
    if MessageOverreads(b, size) {
      OverreadingMeaning(b, size);
    }
  }

  /** What this program's hosts send each other never leads them where the program is not defined. */
  lemma SentIsDefined(hosts: seq<Host>, h: Host, o: Out, stale: seq<byte>, heard: bool)
    requires OutOk(hosts, o)
    ensures var b, size := WireBytes(o) + stale, |WireBytes(o)|;
            12 <= size && Defined(h, DecodeMessage(b, size), heard) && !MessageOverreads(b, size)
  {
    Understood(hosts, o, stale);
    hide WireBytes, DecodeMessage, Fqdn, Vouched, Destination, PlainLabel;
    assert o.QueryOut? ==> o.fqdn != [];
    assert o.ResponseOut? ==> Fqdn(o.name, o.service) != [] by { FqdnNotEmpty(o); }
    NeverOverread(hosts, o, stale);
  }

  lemma FqdnNotEmpty(o: Out)
    ensures o.ResponseOut? ==> Fqdn(o.name, o.service) != []
  {
  }

  // ---------------------------------------------------------------- every step keeps the invariant

  /** What one host's step may do, seen from the rest of the system. */
  predicate GoodStep(hosts: seq<Host>, i: nat, r: Outcome)
    requires i < |hosts|
  {
    && HostOk(r.host) && Extends(hosts[i], r.host) && (r.host.nameIsSet || Pending(r.host))
    && (r.host.number == hosts[i].number || (r.host.number == hosts[i].number + 1 && Taken(hosts, i, hosts[i].myName)))
    && (forall o :: o in r.sent ==> OutOk(hosts[i := r.host], o))
  }

  lemma Mono(hosts: seq<Host>, i: nat, g: Host)
    requires i < |hosts| && Extends(hosts[i], g)
    ensures forall j: nat, name :: Taken(hosts, j, name) ==> Taken(hosts[i := g], j, name)
    ensures forall o :: OutOk(hosts, o) ==> OutOk(hosts[i := g], o)
  {
    hide PlainLabel, KnownName;
    var after := hosts[i := g];
    forall j: nat, name | Taken(hosts, j, name)
      ensures Taken(after, j, name)
    {
      var c :| 0 <= c < |hosts| && c != j && Owns(hosts[c], name);
      assert Owns(after[c], name);
    }
    forall o: Out | o.ResponseOut? && Vouched(hosts, o)
      ensures Vouched(after, o)
    {
      var c :| 0 <= c < |hosts| && Vouches(hosts[c], o);
      assert Vouches(after[c], o);
    }
  }

  lemma GoodStepKeepsInv(s: System, i: nat, r: Outcome)
    requires Inv(s) && i < |s.hosts| && GoodStep(s.hosts, i, r)
    ensures Inv(System(s.hosts[i := r.host], s.net + set o | o in r.sent))
  {
    hide HostOk, Hostname, Pending, Candidate, OutOk, Taken;
    var before, after := s.hosts, s.hosts[i := r.host];
    Mono(before, i, r.host);
    forall j | 0 <= j < |after|
      ensures HostInv(after, j)
    {
      assert HostInv(before, j);
      forall k | 1 <= k < after[j].number
        ensures Taken(after, j, Candidate(after[j].cfg.base, k))
      {
        if k < before[j].number {
          assert Taken(before, j, Candidate(before[j].cfg.base, k));
        } else {
          MyNameIsCandidate(before[i]);
        }
      }
    }
  }

  lemma MyNameIsCandidate(h: Host)
    requires HostOk(h)
    ensures h.myName == Candidate(h.cfg.base, h.number)
  {
  }

  /** A response that a host may send about itself. */
  lemma OwnResponse(hosts: seq<Host>, i: nat, g: Host, rtype: uint16, s: Service)
    requires i < |hosts| && g.nameIsSet && PlainLabel(g.myName, 111) && s != NONE && (rtype == A || rtype == PTR)
    requires s == TCP ==> g.cfg.announceSsh
    ensures OutOk(hosts[i := g], Respond(g, rtype, s, false, false))
  {
    hide PlainLabel;
    assert Vouches(hosts[i := g][i], Respond(g, rtype, s, false, false));
  }

  lemma QueryFor(hosts: seq<Host>, name: Label, s: Service, qtype: uint16)
    requires PlainLabel(name, 111) && s != NONE
    ensures OutOk(hosts, QueryOut(qtype, Fqdn(name, s))) && OutOk(hosts, QueryOut(qtype, ServiceName(s)))
  {
    hide PlainLabel;
    assert Fqdn(name, s)[0] == name;
  }

  lemma HandlerIsGood(s: System, i: nat, k: nat)
    requires Inv(s) && i < |s.hosts| && k < |s.hosts[i].timer.ready|
    ensures GoodStep(s.hosts, i, RunReady(s.hosts[i], k))
  {
    var h := s.hosts[i];
    var r := RunReady(h, k);
    assert HostInv(s.hosts, i);
    NamePlain(s, i);
    RunReadyKeeps(h, k);
    QueryFor(s.hosts[i := r.host], h.myName, UDP, A);
    QueryFor(s.hosts[i := r.host], h.myName, TCP, A);
    hide PlainLabel, OutOk, Pending, HostOk;
    if r.host.nameIsSet {
      OwnResponse(s.hosts, i, r.host, A, UDP);
      if h.cfg.announceSsh {
        OwnResponse(s.hosts, i, r.host, A, TCP);
      }
    }
  }

  lemma QueryIsGood(s: System, i: nat, qname: seq<Label>, qtype: uint16, from: uint32, now: nat)
    requires Inv(s) && i < |s.hosts|
    ensures var via := Via(false, Endpoint(from, MDNS_PORT));
            GoodStep(s.hosts, i, Receive(s.hosts[i], Query(0, qname, qtype, 1), via, now))
  {
    var h, via := s.hosts[i], Via(false, Endpoint(from, MDNS_PORT));
    assert HostInv(s.hosts, i);
    NamePlain(s, i);
    ReceiveKeeps(h, Query(0, qname, qtype, 1), via, now);
    hide PlainLabel, OutOk, Pending, HostOk, WhichMyService, Respond;
    if h.nameIsSet {
      var byName, byService := WhichMyService(h.cfg.announceSsh, qname, 1), WhichMyService(h.cfg.announceSsh, qname, 0);
      if byName != NONE {
        OwnResponse(s.hosts, i, h, A, byName);
      }
      if byService != NONE {
        OwnResponse(s.hosts, i, h, PTR, byService);
      }
    }
  }

  lemma AAnswerIsGood(s: System, i: nat, o: Out, from: uint32, now: nat)
    requires Inv(s) && i < |s.hosts| && o in s.net && o.ResponseOut? && o.rtype == A
    ensures GoodStep(s.hosts, i, Receive(s.hosts[i], Meaning(o), Via(false, Endpoint(from, MDNS_PORT)), now))
  {
    var h := s.hosts[i];
    assert HostInv(s.hosts, i) && OutOk(s.hosts, o);
    ReceiveKeeps(h, Meaning(o), Via(false, Endpoint(from, MDNS_PORT)), now);
    hide PlainLabel, Pending, HostOk, Insert, Candidate;
    if !h.nameIsSet && Claims(Fqdn(o.name, o.service), h.myName) {
      ClaimIsName(o.name, o.service, h.myName);
      var c :| 0 <= c < |s.hosts| && Vouches(s.hosts[c], o);
      assert c != i && Owns(s.hosts[c], h.myName);
    }
  }

  lemma ClaimIsName(name: Label, s: Service, claimed: Label)
    ensures Claims(Fqdn(name, s), claimed) ==> name == claimed
    ensures s != NONE ==> Claims(Fqdn(name, s), name)
  {
    assert Fqdn(name, s)[0] == name && Fqdn(claimed, UDP)[0] == claimed && Fqdn(claimed, TCP)[0] == claimed;
  }

  lemma PtrAnswerIsGood(s: System, i: nat, o: Out, from: uint32, now: nat)
    requires Inv(s) && i < |s.hosts| && o in s.net && o.ResponseOut? && o.rtype == PTR
    ensures GoodStep(s.hosts, i, Receive(s.hosts[i], Meaning(o), Via(false, Endpoint(from, MDNS_PORT)), now))
  {
    assert HostInv(s.hosts, i) && OutOk(s.hosts, o);
    hide PlainLabel, Pending, HostOk, Vouched, GivenUpAreTaken;
    QueryFor(s.hosts, o.name, o.service, A);
    assert s.hosts[i := s.hosts[i]] == s.hosts;
  }

  lemma DeliveryIsGood(s: System, i: nat, o: Out, from: uint32, stale: seq<byte>, now: nat)
    requires Inv(s) && i < |s.hosts| && o in s.net
    ensures GoodStep(s.hosts, i, Deliver(s.hosts[i], o, from, stale, now))
  {
    assert OutOk(s.hosts, o);
    Heard(s.hosts, s.hosts[i], o, from, stale, now);
    hide Deliver, Receive, GoodStep, Inv;
    if o.QueryOut? {
      QueryIsGood(s, i, o.fqdn, o.qtype, from, now);
    } else if o.rtype == A {
      AAnswerIsGood(s, i, o, from, now);
    } else {
      PtrAnswerIsGood(s, i, o, from, now);
    }
  }

  lemma StepKeepsInv(s: System, ev: NetEvent)
    requires Inv(s)
    ensures Inv(Step(s, ev))
  {
    if Enabled(s, ev) {
      var r := React(s, ev);
      ReactIsGood(s, ev);
      hide React, GoodStep;
      GoodStepKeepsInv(s, ev.i, r);
    }
  }

  lemma ReactIsGood(s: System, ev: NetEvent)
    requires Inv(s) && Enabled(s, ev)
    ensures GoodStep(s.hosts, ev.i, React(s, ev))
  {
    var h := s.hosts[ev.i];
    assert HostInv(s.hosts, ev.i);
    hide PlainLabel, RunReady, Deliver, Candidate, Pending;
    match ev
    case TimerExpires(i) => ExpireKeeps(h);
    case HandlerRuns(i, k) => HandlerIsGood(s, i, k);
    case Asks(i) =>
      NamePlain(s, i);
      assert s.hosts[i := h] == s.hosts;
      QueryFor(s.hosts, h.myName, UDP, PTR);
      QueryFor(s.hosts, h.myName, TCP, PTR);
    case Delivered(i, o, from, stale, now) => DeliveryIsGood(s, i, o, from, stale, now);
    case Sweeps(i, _, _) =>
  }

  predicate GoodNetwork(cfgs: seq<Config>) {
    |cfgs| <= MAX_NUMBER && forall c :: c in cfgs ==> Hostname(c.base)
  }

  /** As many hosts as an `int` counts, each with a hostname of 1 to 99 octets without NUL. */
  lemma GoodNetworkIs(cfgs: seq<Config>)
    ensures GoodNetwork(cfgs) <==> |cfgs| < 0x8000_0000 && forall c :: c in cfgs ==> 1 <= |c.base| <= 99 && 0 !in c.base
  {
  }

  lemma InitInv(cfgs: seq<Config>)
    requires GoodNetwork(cfgs)
    ensures Inv(Init(cfgs))
  {
    forall i | 0 <= i < |cfgs|
      ensures HostInv(Init(cfgs).hosts, i)
    {
      assert cfgs[i] in cfgs;
      StartOk(cfgs[i]);
    }
  }

  lemma {:induction false} ExecInv(cfgs: seq<Config>, evs: seq<NetEvent>)
    requires GoodNetwork(cfgs)
    ensures Inv(Exec(Init(cfgs), evs)) && |Exec(Init(cfgs), evs).hosts| == |cfgs|
    decreases |evs|
  {
    hide Inv;
    if evs == [] {
      InitInv(cfgs);
    } else {
      ExecInv(cfgs, evs[..|evs| - 1]);
      StepKeepsInv(Exec(Init(cfgs), evs[..|evs| - 1]), evs[|evs| - 1]);
    }
  }

  // ---------------------------------------------------------------- theorems about every run

  /**
   Whatever is lost, duplicated or reordered, no host among N ever tries more than N names; so the C++
   `int` that counts them does not overflow.
   */
  lemma {:induction false} AtMostAsManyNamesAsHosts(cfgs: seq<Config>, evs: seq<NetEvent>, i: nat)
    requires GoodNetwork(cfgs) && i < |cfgs|
    ensures |Exec(Init(cfgs), evs).hosts| == |cfgs|
    ensures 1 <= Exec(Init(cfgs), evs).hosts[i].number <= |cfgs|
  {
    ExecInv(cfgs, evs);
    var hosts := Exec(Init(cfgs), evs).hosts;
    assert HostInv(hosts, i);
    NumberBounded(hosts, i);
  }

  /** In every run a host that has no name yet still has a timer wait or a handler that will get it one. */
  lemma {:induction false} ProbingNeverStalls(cfgs: seq<Config>, evs: seq<NetEvent>, i: nat)
    requires GoodNetwork(cfgs) && i < |cfgs|
    ensures |Exec(Init(cfgs), evs).hosts| == |cfgs|
    ensures var h := Exec(Init(cfgs), evs).hosts[i]; h.nameIsSet || Pending(h)
  {
    ExecInv(cfgs, evs);
    assert HostInv(Exec(Init(cfgs), evs).hosts, i);
  }

  /** A wait of host `i` expires, or one of its handlers runs. */
  predicate OwnTimerEvent(s: System, ev: NetEvent, i: nat) {
    Enabled(s, ev) && ev.i == i && (ev.HandlerRuns? || (ev.TimerExpires? && s.hosts[i].timer.live.Some?))
  }

  function TimerEvents(s: System, evs: seq<NetEvent>, i: nat): nat {
    if evs == [] then 0
    else
      var before, last := evs[..|evs| - 1], evs[|evs| - 1];
      TimerEvents(s, before, i) + (if OwnTimerEvent(Exec(s, before), last, i) then 1 else 0)
  }

  lemma DeliverCharges(h: Host, o: Out, from: uint32, stale: seq<byte>, now: nat)
    ensures var g := Deliver(h, o, from, stale, now).host;
            Charge(g.timer) + 4 * h.number <= Charge(h.timer) + 4 * g.number
  {
    hide Receive, Charge, DecodeMessage, WireBytes;
    var size := |WireBytes(o)|;
    if MIN_MDNS_SIZE <= size <= BUFFER_SIZE {
      ReceiveCharges(h, DecodeMessage(WireBytes(o) + stale, size), Via(false, Endpoint(from, MDNS_PORT)), now);
    }
  }

  lemma StepCharges(s: System, ev: NetEvent, i: nat)
    requires i < |s.hosts|
    ensures |Step(s, ev).hosts| == |s.hosts|
    ensures var h, g := s.hosts[i], Step(s, ev).hosts[i];
            (if OwnTimerEvent(s, ev, i) then 1 else 0) + Charge(g.timer) + 4 * h.number
            <= Charge(h.timer) + 4 * g.number
  {
    hide Charge, RunReady, Deliver;
    if Enabled(s, ev) && ev.i == i {
      match ev
      case TimerExpires(_) => TimerEventsCharge(s.hosts[i], |s.hosts[i].timer.ready|);
      case HandlerRuns(_, k) =>
        TimerEventsCharge(s.hosts[i], k);
        RunReadyNumber(s.hosts[i], k);
      case Delivered(_, o, from, stale, now) => DeliverCharges(s.hosts[i], o, from, stale, now);
      case _ =>
    }
  }

  lemma RunReadyNumber(h: Host, k: nat)
    requires k < |h.timer.ready|
    ensures RunReady(h, k).host.number == h.number
  {
  }

  lemma {:induction false} TimerEventsCharged(cfgs: seq<Config>, evs: seq<NetEvent>, i: nat)
    requires i < |cfgs|
    ensures |Exec(Init(cfgs), evs).hosts| == |cfgs|
    ensures var h := Exec(Init(cfgs), evs).hosts[i];
            TimerEvents(Init(cfgs), evs, i) + Charge(h.timer) <= 4 * h.number
    decreases |evs|
  {
    if evs == [] {
      StartCharge(cfgs[i]);
    } else {
      hide Charge, OwnTimerEvent, Step;
      TimerEventsCharged(cfgs, evs[..|evs| - 1], i);
      StepCharges(Exec(Init(cfgs), evs[..|evs| - 1]), evs[|evs| - 1], i);
    }
  }

  lemma StartCharge(cfg: Config)
    ensures Charge(Start(cfg).timer) == 4 && Start(cfg).number == 1
  {
  }

  /**
   In every run a host's waits expire and its handlers run at most four times for each name it tries,
   so at most 4 N times among N hosts; after that many times it has a name, and as long as it has none
   another such event is possible. So a host whose timer keeps working gets a name, whatever is lost.
   */
  lemma {:induction false} NamedAfterEnoughTimerEvents(cfgs: seq<Config>, evs: seq<NetEvent>, i: nat)
    requires GoodNetwork(cfgs) && i < |cfgs|
    ensures |Exec(Init(cfgs), evs).hosts| == |cfgs|
    ensures var s := Exec(Init(cfgs), evs);
            && TimerEvents(Init(cfgs), evs, i) <= 4 * s.hosts[i].number <= 4 * |cfgs|
            && (TimerEvents(Init(cfgs), evs, i) >= 4 * s.hosts[i].number ==> s.hosts[i].nameIsSet)
            && (!s.hosts[i].nameIsSet ==> exists ev :: OwnTimerEvent(s, ev, i))
  {
    AtMostAsManyNamesAsHosts(cfgs, evs, i);
    ProbingNeverStalls(cfgs, evs, i);
    TimerEventsCharged(cfgs, evs, i);
    var s := Exec(Init(cfgs), evs);
    hide Exec, TimerEvents, Charge, Init;
    if Charge(s.hosts[i].timer) == 0 {
      NothingCharged(s.hosts[i]);
    }
    hide Pending;
    if !s.hosts[i].nameIsSet {
      PendingIsPossible(s, i);
    }
  }

  lemma PendingIsPossible(s: System, i: nat)
    requires i < |s.hosts| && Pending(s.hosts[i])
    ensures exists ev :: OwnTimerEvent(s, ev, i)
  {
    if s.hosts[i].timer.live.Some? {
      assert OwnTimerEvent(s, TimerExpires(i), i);
    } else {
      assert OwnTimerEvent(s, HandlerRuns(i, 0), i);
    }
  }

  lemma {:induction false} ExecAppend(s: System, evs: seq<NetEvent>, more: seq<NetEvent>)
    ensures Exec(s, evs + more) == Exec(Exec(s, evs), more)
    decreases |more|
  {
    if more == [] {
      assert evs + more == evs;
    } else {
      ExecAppend(s, evs, more[..|more| - 1]);
      assert (evs + more)[..|evs + more| - 1] == evs + more[..|more| - 1];
    }
  }

  lemma ExtendsTransitive(f: Host, g: Host, h: Host)
    requires Extends(f, g) && Extends(g, h)
    ensures Extends(f, h)
  {
  }

  lemma {:induction false} HostsExtend(s: System, evs: seq<NetEvent>, i: nat)
    requires Inv(s) && i < |s.hosts|
    ensures Inv(Exec(s, evs)) && |Exec(s, evs).hosts| == |s.hosts| && Extends(s.hosts[i], Exec(s, evs).hosts[i])
    decreases |evs|
  {
    if evs != [] {
      var before, last := Exec(s, evs[..|evs| - 1]), evs[|evs| - 1];
      HostsExtend(s, evs[..|evs| - 1], i);
      hide Inv;
      StepKeepsInv(before, last);
      if Enabled(before, last) {
        ReactIsGood(before, last);
        assert Extends(before.hosts[last.i], React(before, last).host);
      }
      hide React;
      ExtendsTransitive(s.hosts[i], before.hosts[i], Step(before, last).hosts[i]);
    }
  }

  lemma ConfigsStay(cfgs: seq<Config>, evs: seq<NetEvent>)
    requires GoodNetwork(cfgs)
    ensures |Exec(Init(cfgs), evs).hosts| == |cfgs|
    ensures forall i :: 0 <= i < |cfgs| ==> Exec(Init(cfgs), evs).hosts[i].cfg == cfgs[i]
  {
    InitInv(cfgs);
    ExecInv(cfgs, evs);
    hide Inv, Exec;
    forall i | 0 <= i < |cfgs|
      ensures Exec(Init(cfgs), evs).hosts[i].cfg == cfgs[i]
    {
      HostsExtend(Init(cfgs), evs, i);
    }
  }

  /** Once set, a name stays set and stays the same for the rest of every run. */
  lemma {:induction false} NameIsFinal(cfgs: seq<Config>, evs: seq<NetEvent>, more: seq<NetEvent>, i: nat)
    requires GoodNetwork(cfgs) && i < |cfgs|
    ensures |Exec(Init(cfgs), evs).hosts| == |cfgs| == |Exec(Init(cfgs), evs + more).hosts|
    ensures var h, g := Exec(Init(cfgs), evs).hosts[i], Exec(Init(cfgs), evs + more).hosts[i];
            h.nameIsSet ==> g.nameIsSet && g.myName == h.myName
  {
    ExecInv(cfgs, evs);
    ExecAppend(Init(cfgs), evs, more);
    hide Inv;
    HostsExtend(Exec(Init(cfgs), evs), more, i);
  }

  /** What an event of the network is to the host it happens to, if anything. */
  function Locally(ev: NetEvent): Option<HostEvent>
  {
    match ev
    case TimerExpires(_) => Some(Fires)
    case HandlerRuns(_, k) => Some(Runs(k))
    case Asks(_) => None
    case Delivered(_, o, from, stale, now) =>
      if MIN_MDNS_SIZE <= |WireBytes(o)| <= BUFFER_SIZE then
        Some(Gets(DecodeMessage(WireBytes(o) + stale, |WireBytes(o)|), Via(false, Endpoint(from, MDNS_PORT)), now))
      else None
    case Sweeps(_, readings, _) => Some(Cleans(readings))
  }

  lemma ReactLocally(s: System, ev: NetEvent)
    requires Enabled(s, ev)
    ensures var h, e := s.hosts[ev.i], Locally(ev);
            React(s, ev).host == if e.Some? then HostStep(h, e.value) else h
  {
    hide Receive, RunReady, DecodeMessage, WireBytes, HostModel.Measure;
  }

  /** Every run of the network is, seen from one host, a run among arbitrary packets. */
  lemma {:induction false} SeenFromOneHost(cfgs: seq<Config>, evs: seq<NetEvent>, i: nat) returns (mine: seq<HostEvent>)
    requires i < |cfgs|
    ensures |Exec(Init(cfgs), evs).hosts| == |cfgs|
    ensures Exec(Init(cfgs), evs).hosts[i] == HostRun(Start(cfgs[i]), mine)
    decreases |evs|
  {
    if evs == [] {
      mine := [];
    } else {
      hide Start, React, HostStep, Locally;
      var before, last := Exec(Init(cfgs), evs[..|evs| - 1]), evs[|evs| - 1];
      mine := SeenFromOneHost(cfgs, evs[..|evs| - 1], i);
      if Enabled(before, last) && last.i == i {
        ReactLocally(before, last);
        var e := Locally(last);
        if e.Some? {
          assert (mine + [e.value])[..|mine|] == mine;
          mine := mine + [e.value];
        }
      }
    }
  }

  /** Once a host of the network has given up a name, no record for it, whoever sends it, ever counts again. */
  lemma {:induction false} GivenUpForGood(cfgs: seq<Config>, evs: seq<NetEvent>, more: seq<NetEvent>, i: nat, n: Label,
                                          m: Message, via: Via, now: nat)
    requires GoodNetwork(cfgs) && i < |cfgs| && m.AAnswer? && Claims(m.aname, n)
    ensures |Exec(Init(cfgs), evs).hosts| == |cfgs| == |Exec(Init(cfgs), evs + more).hosts|
    ensures var h, g := Exec(Init(cfgs), evs).hosts[i], Exec(Init(cfgs), evs + more).hosts[i];
            GivenUp(h, n) ==> n != g.myName && Receive(g, m, via, now).host.number == g.number
  {
    ExecInv(cfgs, evs);
    ExecAppend(Init(cfgs), evs, more);
    hide Inv, Claims;
    HostsExtend(Exec(Init(cfgs), evs), more, i);
    var h, g := Exec(Init(cfgs), evs).hosts[i], Exec(Init(cfgs), evs + more).hosts[i];
    if GivenUp(h, n) {
      GivenUpExtends(h, g, n);
      HostIsOk(Exec(Init(cfgs), evs + more), i);
      GivenUpIsIgnored(g, n, m, via, now);
    }
  }

  lemma GivenUpExtends(h: Host, g: Host, n: Label)
    requires Extends(h, g) && GivenUp(h, n)
    ensures GivenUp(g, n)
  {
  }

  lemma HostIsOk(s: System, i: nat)
    requires Inv(s) && i < |s.hosts|
    ensures HostOk(s.hosts[i])
  {
    assert HostInv(s.hosts, i);
  }

  /** In no run does a packet that can arrive lead a host where the program is not defined. */
  lemma {:induction false} RunsAreDefined(cfgs: seq<Config>, evs: seq<NetEvent>, i: nat, o: Out, stale: seq<byte>)
    requires GoodNetwork(cfgs) && i < |cfgs|
    ensures |Exec(Init(cfgs), evs).hosts| == |cfgs|
    ensures var s, b, size := Exec(Init(cfgs), evs), WireBytes(o) + stale, |WireBytes(o)|;
            o in s.net ==>
              && 12 <= size <= BUFFER_SIZE && Defined(s.hosts[i], DecodeMessage(b, size), true)
              && !MessageOverreads(b, size)
  {
    ExecInv(cfgs, evs);
    var s := Exec(Init(cfgs), evs);
    hide Exec, Init, OutOk, WireBytes, DecodeMessage, MessageOverreads, Defined;
    if o in s.net {
      assert OutOk(s.hosts, o);
      SentIsDefined(s.hosts, s.hosts[i], o, stale, true);
      WireSize(s.hosts, o);
    }
  }
}
