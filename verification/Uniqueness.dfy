/**
 When names are unique. On an arbitrary network they are exactly if the hostnames are. Otherwise they are
 on a network that is fast compared with the time a host waits for objections: every multicast reaches
 all other running hosts, and a host takes its name only when the probes for it, and the answers to
 it, have arrived. Everything else may happen at any time: packets arrive in any order and after any
 delay, other handlers run while packets are in flight, and hosts join whenever they like.
 */
module Uniqueness {
  import opened Shared
  import opened Messages
  import opened CandidateNames
  import opened ComputerCache
  import opened HostModel
  import opened Discovery

  /** A packet on its way to one host. */
  datatype Flight = Flight(to: nat, o: Out)

  datatype Sync = Sync(sys: System, started: set<nat>, flights: multiset<Flight>)

  datatype SyncEvent =
    | Joins(i: nat)
    | Acts(ev: NetEvent)
    | Lands(f: Flight, from: uint32, stale: seq<byte>, now: nat)

  /** The group does not loop packets back to the sender. */
  function Broadcast(to: set<nat>, sent: seq<Out>): multiset<Flight> {
    if sent == [] then multiset{}
    else Broadcast(to, sent[..|sent| - 1]) + multiset(set r | r in to :: Flight(r, sent[|sent| - 1]))
  }

  /** An address record for `name` is on its way to `u`. */
  predicate ClaimFlies(flights: multiset<Flight>, u: nat, name: Label) {
    exists f :: f in flights && f.to == u && f.o.ResponseOut? && f.o.rtype == A && f.o.name == name
  }

  /** A probe for `name` is on its way to `c`. */
  predicate ProbeFlies(flights: multiset<Flight>, c: nat, name: Label) {
    Flight(c, QueryOut(A, Fqdn(name, UDP))) in flights
  }

  /** The verdict that sets a name comes when the probes for it and the objections have arrived. */
  predicate InTime(s: Sync, i: nat, r: Ready)
    requires i < |s.sys.hosts|
  {
    var name := s.sys.hosts[i].myName;
    r == Ready(Verdict(name), false) ==>
      !ClaimFlies(s.flights, i, name) && forall c: nat :: c < |s.sys.hosts| ==> !ProbeFlies(s.flights, c, name)
  }

  predicate Possible(s: Sync, e: SyncEvent) {
    match e
    case Joins(i) => i < |s.sys.hosts|
    case Acts(ev) =>
      && ev.i in s.started && !ev.Delivered? && Enabled(s.sys, ev)
      && (ev.HandlerRuns? ==> InTime(s, ev.i, s.sys.hosts[ev.i].timer.ready[ev.k]))
    case Lands(f, from, stale, now) => f in s.flights && Enabled(s.sys, Delivered(f.to, f.o, from, stale, now))
  }

  function SyncStep(s: Sync, e: SyncEvent): Sync {
    if !Possible(s, e) then s
    else
      match e
      case Joins(i) => s.(started := s.started + {i})
      case Acts(ev) =>
        Sync(Step(s.sys, ev), s.started, s.flights + Broadcast(s.started - {ev.i}, React(s.sys, ev).sent))
      case Lands(f, from, stale, now) =>
        var ev := Delivered(f.to, f.o, from, stale, now);
        Sync(Step(s.sys, ev), s.started,
             s.flights - multiset{f} + Broadcast(s.started - {f.to}, React(s.sys, ev).sent))
  }

  function SyncInit(cfgs: seq<Config>): Sync {
    Sync(Init(cfgs), {}, multiset{})
  }

  function SyncExec(s: Sync, evs: seq<SyncEvent>): Sync {
    if evs == [] then s else SyncStep(SyncExec(s, evs[..|evs| - 1]), evs[|evs| - 1])
  }

  lemma {:induction false} BroadcastMembers(to: set<nat>, sent: seq<Out>, f: Flight)
    ensures f in Broadcast(to, sent) <==> f.to in to && f.o in sent
    decreases |sent|
  {
    if sent != [] {
      var init, last := sent[..|sent| - 1], sent[|sent| - 1];
      BroadcastMembers(to, init, f);
      assert f.o in sent <==> f.o in init || f.o == last;
      assert f in (set r | r in to :: Flight(r, last)) <==> f.to in to && f.o == last;
    }
  }

  /** Every run on the fast network is also a run on the arbitrary one. */
  lemma {:induction false} FastRunsAreRuns(cfgs: seq<Config>, evs: seq<SyncEvent>) returns (run: seq<NetEvent>)
    ensures SyncExec(SyncInit(cfgs), evs).sys == Exec(Init(cfgs), run)
    decreases |evs|
  {
    if evs == [] {
      run := [];
    } else {
      var before, last := evs[..|evs| - 1], evs[|evs| - 1];
      run := FastRunsAreRuns(cfgs, before);
      if Possible(SyncExec(SyncInit(cfgs), before), last) && !last.Joins? {
        var ev := if last.Acts? then last.ev else Delivered(last.f.to, last.f.o, last.from, last.stale, last.now);
        assert (run + [ev])[..|run|] == run;
        run := run + [ev];
      }
    }
  }

  // ---------------------------------------------------------------- the invariant

  /** Nothing in the timer of `h` will end in setting its present name. */
  predicate Quiet(h: Host) {
    h.timer.live != Some(Verdict(h.myName)) && Ready(Verdict(h.myName), false) !in h.timer.ready
  }

  /** `c` has settled on its name; then `u` has not, and if it is trying this name it is about to learn. */
  predicate PairOk(flights: multiset<Flight>, u: nat, hu: Host, c: nat, hc: Host) {
    hc.nameIsSet && hu.myName == hc.myName ==>
      !hu.nameIsSet && (Quiet(hu) || ClaimFlies(flights, u, hu.myName) || ProbeFlies(flights, c, hu.myName))
  }

  predicate PairsOk(s: Sync) {
    forall u, c :: 0 <= u < |s.sys.hosts| && 0 <= c < |s.sys.hosts| && u != c ==>
      PairOk(s.flights, u, s.sys.hosts[u], c, s.sys.hosts[c])
  }

  /** Hosts that have not joined have done nothing; packets in flight were sent, to hosts that have joined. */
  predicate FrameOk(s: Sync) {
    && Inv(s.sys)
    && (forall i :: 0 <= i < |s.sys.hosts| && i !in s.started ==> !s.sys.hosts[i].nameIsSet && Quiet(s.sys.hosts[i]))
    && (forall f :: f in s.flights ==> f.to in s.started && f.o in s.sys.net)
  }

  predicate SyncInv(s: Sync) {
    FrameOk(s) && PairsOk(s)
  }

  // ---------------------------------------------------------------- one pair of hosts through one step

  /** A step after which the host shows the others the same face. */
  predicate SameOutlook(h: Host, g: Host) {
    g.myName == h.myName && g.nameIsSet == h.nameIsSet && (Quiet(h) ==> Quiet(g))
  }

  predicate Covers(flights: multiset<Flight>, more: multiset<Flight>) {
    forall f :: f in flights ==> f in more
  }

  lemma PairKept(flights: multiset<Flight>, more: multiset<Flight>, u: nat, hu: Host, gu: Host,
                 c: nat, hc: Host, gc: Host)
    requires PairOk(flights, u, hu, c, hc) && Covers(flights, more)
    requires SameOutlook(hu, gu) && SameOutlook(hc, gc)
    ensures PairOk(more, u, gu, c, gc)
  {
    hide Quiet;
    if ClaimFlies(flights, u, hu.myName) {
      var f :| f in flights && f.to == u && f.o.ResponseOut? && f.o.rtype == A && f.o.name == hu.myName;
      assert f in more;
    }
  }

  lemma TimerOutlook(s: System, ev: NetEvent)
    requires Enabled(s, ev) && (ev.TimerExpires? || ev.Asks? || ev.Sweeps?)
    ensures SameOutlook(s.hosts[ev.i], React(s, ev).host)
  {
  }

  /** A probe handler: the probe is now on its way to whoever owns the name. */
  lemma ProbePair(s: Sync, i: nat, k: nat, u: nat, c: nat)
    requires SyncInv(s) && i in s.started && i < |s.sys.hosts|
    requires k < |s.sys.hosts[i].timer.ready| && s.sys.hosts[i].timer.ready[k].wait.Probing?
    requires u < |s.sys.hosts| && c < |s.sys.hosts| && u != c
    ensures var r := RunReady(s.sys.hosts[i], k);
            var hosts := s.sys.hosts[i := r.host];
            PairOk(s.flights + Broadcast(s.started - {i}, r.sent), u, hosts[u], c, hosts[c])
  {
    hide Inv, Broadcast, Quiet;
    var r := RunReady(s.sys.hosts[i], k);
    var hosts, flights := s.sys.hosts, s.flights + Broadcast(s.started - {i}, r.sent);
    assert PairOk(s.flights, u, hosts[u], c, hosts[c]);
    if u == i {
      var probe := QueryOut(A, Fqdn(hosts[i].myName, UDP));
      assert r.sent[0] == probe;
      BroadcastMembers(s.started - {i}, r.sent, Flight(c, probe));
    }
  }

  /** A verdict: with no objection on its way, whoever else tries the name of an owner is quiet. */
  lemma VerdictPair(s: Sync, i: nat, k: nat, u: nat, c: nat)
    requires SyncInv(s) && i in s.started && i < |s.sys.hosts|
    requires k < |s.sys.hosts[i].timer.ready| && s.sys.hosts[i].timer.ready[k].wait.Verdict?
    requires InTime(s, i, s.sys.hosts[i].timer.ready[k])
    requires u < |s.sys.hosts| && c < |s.sys.hosts| && u != c
    ensures var r := RunReady(s.sys.hosts[i], k);
            var hosts := s.sys.hosts[i := r.host];
            PairOk(s.flights + Broadcast(s.started - {i}, r.sent), u, hosts[u], c, hosts[c])
  {
    hide Inv, Broadcast;
    var h := s.sys.hosts[i];
    var r := RunReady(h, k);
    var hosts, flights := s.sys.hosts, s.flights + Broadcast(s.started - {i}, r.sent);
    WithoutOthers(h.timer.ready, k);
    assert PairOk(s.flights, u, hosts[u], c, hosts[c]) && PairOk(s.flights, c, hosts[c], u, hosts[u]);
    assert h.timer.ready[k] in h.timer.ready;
    if r.host.nameIsSet && c == i && r.sent != [] {
      var claim := Respond(r.host, A, UDP, false, false);
      assert r.sent[0] == claim;
      BroadcastMembers(s.started - {i}, r.sent, Flight(u, claim));
      assert u in s.started ==> Flight(u, claim) in flights;
    }
  }

  /** A query lands: an owner who is probed answers to everyone. */
  lemma QueryPair(s: Sync, f: Flight, from: uint32, now: nat, u: nat, c: nat)
    requires SyncInv(s) && f in s.flights && f.to < |s.sys.hosts| && f.o.QueryOut?
    requires u < |s.sys.hosts| && c < |s.sys.hosts| && u != c
    ensures var r := Receive(s.sys.hosts[f.to], Meaning(f.o), Via(false, Endpoint(from, MDNS_PORT)), now);
            var hosts := s.sys.hosts[f.to := r.host];
            PairOk(s.flights - multiset{f} + Broadcast(s.started - {f.to}, r.sent), u, hosts[u], c, hosts[c])
  {
    hide Inv, Broadcast, Quiet, WhichMyService, Respond;
    var h := s.sys.hosts[f.to];
    var r := Receive(h, Meaning(f.o), Via(false, Endpoint(from, MDNS_PORT)), now);
    var flights := s.flights - multiset{f} + Broadcast(s.started - {f.to}, r.sent);
    var hu, hc := s.sys.hosts[u], s.sys.hosts[c];
    assert r.host == h;
    assert PairOk(s.flights, u, hu, c, hc);
    if ClaimFlies(s.flights, u, hu.myName) {
      var g :| g in s.flights && g.to == u && g.o.ResponseOut? && g.o.rtype == A && g.o.name == hu.myName;
      assert g in flights;
    }
    if hc.nameIsSet && hu.myName == hc.myName && f == Flight(c, QueryOut(A, Fqdn(hu.myName, UDP))) {
      var claim := Respond(h, A, UDP, false, false);
      ProbedOwnerAnswers(h, from, now);
      BroadcastMembers(s.started - {f.to}, r.sent, Flight(u, claim));
      RespondName(h, A, UDP, false, false);
      assert u in s.started ==> Flight(u, claim) in flights;
    }
  }

  lemma RespondName(h: Host, rtype: uint16, s: Service, unicast: bool, legacy: bool)
    ensures var o := Respond(h, rtype, s, unicast, legacy); o.ResponseOut? && o.rtype == rtype && o.name == h.myName
  {
  }

  lemma ProbedOwnerAnswers(h: Host, from: uint32, now: nat)
    requires h.nameIsSet
    ensures Receive(h, Query(0, Fqdn(h.myName, UDP), A, 1), Via(false, Endpoint(from, MDNS_PORT)), now).sent
         == [Respond(h, A, UDP, false, false)]
  {
    hide Respond;
    var q := Fqdn(h.myName, UDP);
    assert q[1..4] == ServiceName(UDP);
  }

  /** A record lands: a host that was trying the recorded name moves on and is quiet about the new one. */
  lemma ClaimPair(s: Sync, f: Flight, from: uint32, now: nat, u: nat, c: nat)
    requires SyncInv(s) && f in s.flights && f.to < |s.sys.hosts| && f.o.ResponseOut? && f.o.rtype == A
    requires u < |s.sys.hosts| && c < |s.sys.hosts| && u != c
    ensures var r := Receive(s.sys.hosts[f.to], Meaning(f.o), Via(false, Endpoint(from, MDNS_PORT)), now);
            var hosts := s.sys.hosts[f.to := r.host];
            PairOk(s.flights - multiset{f} + Broadcast(s.started - {f.to}, r.sent), u, hosts[u], c, hosts[c])
  {
    hide Broadcast, Candidate, Insert;
    var h := s.sys.hosts[f.to];
    var hu, hc := s.sys.hosts[u], s.sys.hosts[c];
    var flights := s.flights - multiset{f} + Broadcast(s.started - {f.to}, []);
    assert HostInv(s.sys.hosts, f.to) && OutOk(s.sys.hosts, f.o);
    assert PairOk(s.flights, u, hu, c, hc);
    hide Inv, FrameOk, PairsOk, HostInv, OutOk;
    ClaimIsName(f.o.name, f.o.service, h.myName);
    if !h.nameIsSet && h.myName == f.o.name {
      MovedOnIsQuiet(h);
      hide Quiet, Notify;
      NotifyNotSet(h);
      if u != f.to && c != f.to {
        ClaimsSurvive(s.flights, f, flights, u, hu.myName);
      }
    } else {
      hide Quiet;
      if !hu.nameIsSet && hu.myName == hc.myName {
        ClaimsSurvive(s.flights, f, flights, u, hu.myName);
      }
    }
  }

  lemma NotifyNotSet(h: Host)
    ensures Notify(h).nameIsSet == h.nameIsSet
  {
  }

  lemma MovedOnIsQuiet(h: Host)
    requires HostOk(h) && !h.nameIsSet
    ensures Quiet(Notify(h))
  {
    NotifyKeeps(h);
    hide Candidate;
    var g := Notify(h);
    assert forall r :: r in h.timer.ready && r.wait.Verdict? ==> Tried(h, r.wait.probed);
  }

  /** A claim on its way to a host is still on its way after another flight, or another claim, has landed. */
  lemma ClaimsSurvive(flights: multiset<Flight>, landed: Flight, more: multiset<Flight>, u: nat, name: Label)
    requires forall f :: f in flights && f != landed ==> f in more
    requires landed.to != u || (landed.o.ResponseOut? && landed.o.name != name)
    ensures ClaimFlies(flights, u, name) ==> ClaimFlies(more, u, name)
    ensures forall c: nat :: landed.o.ResponseOut? && ProbeFlies(flights, c, name) ==> ProbeFlies(more, c, name)
  {
    if ClaimFlies(flights, u, name) {
      var f :| f in flights && f.to == u && f.o.ResponseOut? && f.o.rtype == A && f.o.name == name;
      assert f in more;
    }
  }

  /** A pointer record lands: it only makes its receiver ask for the address. */
  lemma PtrPair(s: Sync, f: Flight, from: uint32, now: nat, u: nat, c: nat)
    requires SyncInv(s) && f in s.flights && f.to < |s.sys.hosts| && f.o.ResponseOut? && f.o.rtype == PTR
    requires u < |s.sys.hosts| && c < |s.sys.hosts| && u != c
    ensures var r := Receive(s.sys.hosts[f.to], Meaning(f.o), Via(false, Endpoint(from, MDNS_PORT)), now);
            var hosts := s.sys.hosts[f.to := r.host];
            PairOk(s.flights - multiset{f} + Broadcast(s.started - {f.to}, r.sent), u, hosts[u], c, hosts[c])
  {
    hide Broadcast, Quiet, Inv;
    var hu, hc := s.sys.hosts[u], s.sys.hosts[c];
    assert PairOk(s.flights, u, hu, c, hc);
    if ClaimFlies(s.flights, u, hu.myName) {
      var g :| g in s.flights && g.to == u && g.o.ResponseOut? && g.o.rtype == A && g.o.name == hu.myName;
      assert g in s.flights - multiset{f};
    }
  }

  // ---------------------------------------------------------------- every step, every run

  lemma {:induction false} PairsAfter(s: Sync, e: SyncEvent)
    requires SyncInv(s) && Possible(s, e)
    ensures PairsOk(SyncStep(s, e))
  {
    var t := SyncStep(s, e);
    hide Inv, PairOk, Broadcast, RunReady, Receive, Quiet;
    forall u: nat, c: nat | u < |t.sys.hosts| && c < |t.sys.hosts| && u != c
      ensures PairOk(t.flights, u, t.sys.hosts[u], c, t.sys.hosts[c])
    {
      var hosts := s.sys.hosts;
      assert PairOk(s.flights, u, hosts[u], c, hosts[c]);
      match e
      case Joins(_) =>
      case Acts(ev) =>
        if ev.HandlerRuns? {
          if hosts[ev.i].timer.ready[ev.k].wait.Probing? {
            ProbePair(s, ev.i, ev.k, u, c);
          } else {
            VerdictPair(s, ev.i, ev.k, u, c);
          }
        } else {
          TimerOutlook(s.sys, ev);
          PairKept(s.flights, t.flights, u, hosts[u], t.sys.hosts[u], c, hosts[c], t.sys.hosts[c]);
        }
      case Lands(f, from, stale, now) => LandsPair(s, f, from, stale, now, u, c);
    }
  }

  lemma {:induction false} LandsPair(s: Sync, f: Flight, from: uint32, stale: seq<byte>, now: nat, u: nat, c: nat)
    requires SyncInv(s) && Possible(s, Lands(f, from, stale, now))
    requires u < |s.sys.hosts| && c < |s.sys.hosts| && u != c
    ensures var r := Deliver(s.sys.hosts[f.to], f.o, from, stale, now);
            var hosts := s.sys.hosts[f.to := r.host];
            PairOk(s.flights - multiset{f} + Broadcast(s.started - {f.to}, r.sent), u, hosts[u], c, hosts[c])
  {
    assert OutOk(s.sys.hosts, f.o);
    Heard(s.sys.hosts, s.sys.hosts[f.to], f.o, from, stale, now);
    hide Broadcast, Deliver, Receive, Meaning, Inv, FrameOk, PairsOk, PairOk;
    if f.o.QueryOut? {
      QueryPair(s, f, from, now, u, c);
    } else if f.o.rtype == A {
      ClaimPair(s, f, from, now, u, c);
    } else {
      PtrPair(s, f, from, now, u, c);
    }
  }

  lemma {:induction false} FrameAfter(s: Sync, e: SyncEvent)
    requires SyncInv(s) && Possible(s, e)
    ensures FrameOk(SyncStep(s, e))
  {
    hide Inv, PairsOk, Broadcast, React, Quiet, OutOk;
    var t := SyncStep(s, e);
    if !e.Joins? {
      var ev := if e.Acts? then e.ev else Delivered(e.f.to, e.f.o, e.from, e.stale, e.now);
      StepKeepsInv(s.sys, ev);
      var sent := React(s.sys, ev).sent;
      assert forall o :: o in sent ==> o in t.sys.net;
      forall f | f in t.flights
        ensures f.to in t.started && f.o in t.sys.net
      {
        BroadcastMembers(s.started - {ev.i}, sent, f);
      }
    }
  }

  lemma {:induction false} SyncExecInv(cfgs: seq<Config>, evs: seq<SyncEvent>)
    requires GoodNetwork(cfgs)
    ensures SyncInv(SyncExec(SyncInit(cfgs), evs))
    ensures |SyncExec(SyncInit(cfgs), evs).sys.hosts| == |cfgs|
    decreases |evs|
  {
    if evs == [] {
      InitInv(cfgs);
      hide Inv;
    } else {
      hide SyncInv, Possible;
      var before, last := SyncExec(SyncInit(cfgs), evs[..|evs| - 1]), evs[|evs| - 1];
      SyncExecInv(cfgs, evs[..|evs| - 1]);
      if Possible(before, last) {
        PairsAfter(before, last);
        FrameAfter(before, last);
        assert SyncInv(SyncStep(before, last)) by { SyncInvIs(SyncStep(before, last)); }
        StepSize(before.sys, last);
      }
    }
  }

  lemma SyncInvIs(s: Sync)
    requires FrameOk(s) && PairsOk(s)
    ensures SyncInv(s)
  {
  }

  lemma StepSize(s: System, e: SyncEvent)
    ensures forall ev :: |Step(s, ev).hosts| == |s.hosts|
  {
    hide React;
  }

  /**
   When hosts take their names only after the probes for them and the objections have arrived, no two
   hosts ever own the same name, whatever their hostnames and whenever they join.
   */
  lemma {:induction false} NamesAreUnique(cfgs: seq<Config>, evs: seq<SyncEvent>, i: nat, j: nat)
    requires GoodNetwork(cfgs) && i < |cfgs| && j < |cfgs| && i != j
    ensures |SyncExec(SyncInit(cfgs), evs).sys.hosts| == |cfgs|
    ensures var hosts := SyncExec(SyncInit(cfgs), evs).sys.hosts;
            hosts[i].nameIsSet && hosts[j].nameIsSet ==> hosts[i].myName != hosts[j].myName
  {
    SyncExecInv(cfgs, evs);
    hide FrameOk, Quiet;
    var s := SyncExec(SyncInit(cfgs), evs);
    assert PairOk(s.flights, i, s.sys.hosts[i], j, s.sys.hosts[j]);
  }

  // ---------------------------------------------------------------- why the fast network is needed

  /** A host left alone: the first wait ends, the probes go out, the second wait ends, the name is set. */
  function LeftAlone(i: nat, queued: nat): seq<NetEvent> {
    [TimerExpires(i), HandlerRuns(i, queued), TimerExpires(i), HandlerRuns(i, queued)]
  }

  lemma ExecFour(s: System, a: NetEvent, b: NetEvent, c: NetEvent, d: NetEvent)
    ensures Exec(s, [a, b, c, d]) == Step(Step(Step(Step(s, a), b), c), d)
  {
    hide Step;
    var nil: seq<NetEvent> := [];
    assert [a, b, c, d][..3] == [a, b, c] && [a, b, c][..2] == [a, b] && [a, b][..1] == [a] && [a][..0] == nil;
    assert Exec(s, [a]) == Step(Exec(s, nil), a);
    assert Exec(s, [a, b]) == Step(Exec(s, [a]), b);
    assert Exec(s, [a, b, c]) == Step(Exec(s, [a, b]), c);
  }

  /** A live wait ends and its handler is run at once; what was queued before stays queued. */
  lemma HandlerNext(s: System, i: nat, w: Wait)
    requires i < |s.hosts| && s.hosts[i].timer.live == Some(w)
    ensures var t := Step(Step(s, TimerExpires(i)), HandlerRuns(i, |s.hosts[i].timer.ready|));
            var h := s.hosts[i].(timer := s.hosts[i].timer.(live := None));
            var r := if w.Probing? then SendProbes(h) else Success(h, w.probed, false);
            t.hosts == s.hosts[i := r.host] && t.net == s.net + set o | o in r.sent
  {
    var ready := s.hosts[i].timer.ready;
    var t := Step(s, TimerExpires(i));
    assert t.hosts[i].timer.ready == ready + [Ready(w, false)] && t.net == s.net;
    assert Without(ready + [Ready(w, false)], |ready|) == ready;
    hide SendProbes, Success;
  }

  lemma SettlesAlone(s: System, i: nat)
    requires i < |s.hosts| && s.hosts[i].timer.live == Some(Probing)
    ensures var h, t := s.hosts[i], Exec(s, LeftAlone(i, |s.hosts[i].timer.ready|));
            && |t.hosts| == |s.hosts| && (forall j :: 0 <= j < |s.hosts| && j != i ==> t.hosts[j] == s.hosts[j])
            && Owns(t.hosts[i], h.myName) && t.hosts[i].number == h.number && t.hosts[i].cfg == h.cfg
            && s.net <= t.net && Respond(t.hosts[i], A, UDP, false, false) in t.net
  {
    var queued := |s.hosts[i].timer.ready|;
    ExecFour(s, TimerExpires(i), HandlerRuns(i, queued), TimerExpires(i), HandlerRuns(i, queued));
    HandlerNext(s, i, Probing);
    var t := Step(Step(s, TimerExpires(i)), HandlerRuns(i, queued));
    var name := s.hosts[i].myName;
    assert t.hosts[i].timer == Timer(Some(Verdict(name)), s.hosts[i].timer.ready);
    HandlerNext(t, i, Verdict(name));
    hide Step;
    var h := t.hosts[i].(timer := t.hosts[i].timer.(live := None));
    assert Respond(h, A, UDP, false, false) == Announcement(h)[0];
  }

  /** On a slow network any two hosts with the same hostname can both end up owning it. */
  lemma SlowNetworksAllowClashes(cfgs: seq<Config>, i: nat, j: nat)
    requires i < |cfgs| && j < |cfgs| && i != j && cfgs[i].base == cfgs[j].base
    ensures exists evs :: Clash(Exec(Init(cfgs), evs).hosts, i, j)
  {
    var s := Init(cfgs);
    SettlesAlone(s, i);
    SettlesAlone(Exec(s, LeftAlone(i, 0)), j);
    ExecAppend(s, LeftAlone(i, 0), LeftAlone(j, 0));
    hide LeftAlone, Exec;
    assert Clash(Exec(s, LeftAlone(i, 0) + LeftAlone(j, 0)).hosts, i, j);
  }

  // ---------------------------------------------------------------- when it is not needed

  predicate Clash(hosts: seq<Host>, i: nat, j: nat) {
    && i < |hosts| && j < |hosts| && i != j
    && hosts[i].nameIsSet && hosts[j].nameIsSet && hosts[i].myName == hosts[j].myName
  }

  predicate DistinctBases(hosts: seq<Host>) {
    forall i, j :: 0 <= i < j < |hosts| ==> hosts[i].cfg.base != hosts[j].cfg.base
  }

  lemma CandidateOrBase(base: Label, number: nat)
    requires number >= 1
    ensures if number == 1 then Candidate(base, number) == base else |Candidate(base, number)| > |base|
  {
  }

  /**
   With distinct hostnames no host ever leaves its own behind: whoever owns another's hostname made it
   by adding a number to a shorter one of its own, which it would have had to leave behind.
   */
  lemma {:induction false} NeverRenamed(hosts: seq<Host>, i: nat)
    requires i < |hosts| && DistinctBases(hosts)
    requires forall j: nat :: j < |hosts| ==> HostOk(hosts[j]) && GivenUpAreTaken(hosts, j)
    ensures hosts[i].number == 1 && hosts[i].myName == hosts[i].cfg.base
    decreases |hosts[i].cfg.base|
  {
    hide Candidate, TimerOk;
    var base := hosts[i].cfg.base;
    CandidateOrBase(base, 1);
    if hosts[i].number > 1 {
      assert Taken(hosts, i, Candidate(base, 1));
      var c :| 0 <= c < |hosts| && c != i && Owns(hosts[c], base);
      CandidateOrBase(hosts[c].cfg.base, hosts[c].number);
      assert hosts[c].cfg.base != base;
      NeverRenamed(hosts, c);
      assert false;
    }
  }

  lemma DistinctHostnamesNeverClash(cfgs: seq<Config>, evs: seq<NetEvent>, i: nat, j: nat)
    requires GoodNetwork(cfgs) && DistinctHostnames(cfgs)
    ensures !Clash(Exec(Init(cfgs), evs).hosts, i, j)
  {
    var s := Exec(Init(cfgs), evs);
    ExecInv(cfgs, evs);
    ConfigsStay(cfgs, evs);
    hide GoodNetwork, Exec, Init, HostOk, GivenUpAreTaken, Pending, Hostname;
    assert DistinctBases(s.hosts);
    forall k: nat | k < |s.hosts|
      ensures HostOk(s.hosts[k]) && GivenUpAreTaken(s.hosts, k)
    {
      assert HostInv(s.hosts, k);
    }
    if i < |s.hosts| && j < |s.hosts| && i != j {
      NeverRenamed(s.hosts, i);
      NeverRenamed(s.hosts, j);
    }
  }

  predicate DistinctHostnames(cfgs: seq<Config>) {
    forall i, j :: 0 <= i < j < |cfgs| ==> cfgs[i].base != cfgs[j].base
  }

  /** Without any promise about the network, names are unique in every run if and only if hostnames are distinct. */
  lemma {:induction false} UniqueIffHostnamesDistinct(cfgs: seq<Config>)
    requires GoodNetwork(cfgs)
    ensures DistinctHostnames(cfgs) <==> forall evs, i: nat, j: nat :: !Clash(Exec(Init(cfgs), evs).hosts, i, j)
  {
    hide Exec, Init, Clash, GoodNetwork;
    if DistinctHostnames(cfgs) {
      forall evs, i: nat, j: nat
        ensures !Clash(Exec(Init(cfgs), evs).hosts, i, j)
      {
        DistinctHostnamesNeverClash(cfgs, evs, i, j);
      }
    } else {
      var i, j :| 0 <= i < j < |cfgs| && cfgs[i].base == cfgs[j].base;
      SlowNetworksAllowClashes(cfgs, i, j);
    }
  }
}
