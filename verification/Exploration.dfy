/** Exploration: from the periodic question for a service to an entry in the asker's table. */
module Exploration {
  import opened Shared
  import opened DomainNames
  import opened Messages
  import opened Computers
  import opened ComputerCache
  import opened HostModel
  import opened Discovery

  /** A service is recognised by its own name and behind any host name. */
  lemma ServiceRecognised(announceSsh: bool, name: Label, s: Service)
    requires s != NONE && (s == TCP ==> announceSsh)
    ensures WhichMyService(announceSsh, ServiceName(s), 0) == s
    ensures WhichMyService(announceSsh, Fqdn(name, s), 1) == s
  {
    assert ServiceName(s)[0..3] == ServiceName(s) && Fqdn(name, s)[1..4] == ServiceName(s);
    assert OPOZNIENIA[1] != SSH[1];
    assert ServiceName(UDP)[0] != ServiceName(TCP)[0];
  }

  /** A host with a name, asked for one of its services, answers with its full name. */
  lemma AsksService(b: Host, s: Service, from: uint32, stale: seq<byte>, now: nat)
    requires b.nameIsSet && PlainLabel(b.myName, 111) && s != NONE && (s == TCP ==> b.cfg.announceSsh)
    ensures Deliver(b, QueryOut(PTR, ServiceName(s)), from, stale, now)
         == Outcome(b, [Respond(b, PTR, s, false, false)])
  {
    hide Respond, PlainLabel, WhichMyService, ServiceName, OutOk, Deliver;
    var ask := QueryOut(PTR, ServiceName(s));
    QueryFor([b], b.myName, s, PTR);
    Heard([b], b, ask, from, stale, now);
    ServiceRecognised(b.cfg.announceSsh, b.myName, s);
  }

  /** Asked for its own full name, it answers with its address. */
  lemma AsksName(b: Host, s: Service, from: uint32, stale: seq<byte>, now: nat)
    requires b.nameIsSet && PlainLabel(b.myName, 111) && s != NONE && (s == TCP ==> b.cfg.announceSsh)
    ensures Deliver(b, QueryOut(A, Fqdn(b.myName, s)), from, stale, now) == Outcome(b, [Respond(b, A, s, false, false)])
  {
    hide Respond, PlainLabel, WhichMyService, ServiceName, OutOk, Deliver;
    var ask := QueryOut(A, Fqdn(b.myName, s));
    QueryFor([b], b.myName, s, A);
    Heard([b], b, ask, from, stale, now);
    ServiceRecognised(b.cfg.announceSsh, b.myName, s);
    assert Fqdn(b.myName, s)[0] == b.myName;
  }

  lemma ResponseOk(b: Host, rtype: uint16, s: Service)
    requires b.nameIsSet && PlainLabel(b.myName, 111) && s != NONE && (s == TCP ==> b.cfg.announceSsh)
    requires rtype == A || rtype == PTR
    ensures OutOk([b], Respond(b, rtype, s, false, false))
  {
    assert [b][0 := b] == [b];
    OwnResponse([b], 0, b, rtype, s);
  }

  lemma HearsService(a: Host, b: Host, s: Service, from: uint32, stale: seq<byte>, now: nat)
    requires b.nameIsSet && PlainLabel(b.myName, 111) && s != NONE && (s == TCP ==> b.cfg.announceSsh)
    ensures Deliver(a, Respond(b, PTR, s, false, false), from, stale, now)
         == Outcome(a, [QueryOut(A, Fqdn(b.myName, s))])
  {
    ResponseOk(b, PTR, s);
    hide PlainLabel;
    Heard([b], a, Respond(b, PTR, s, false, false), from, stale, now);
  }

  lemma HearsAddress(a: Host, b: Host, s: Service, from: uint32, stale: seq<byte>, now: nat)
    requires b.nameIsSet && PlainLabel(b.myName, 111) && s != NONE && (s == TCP ==> b.cfg.announceSsh)
    ensures Deliver(a, Respond(b, A, s, false, false), from, stale, now).host.cache
         == ComputerCache.Insert(a.cache, b.cfg.address, Fqdn(b.myName, s), Twice(b.cfg.exploration), now)
  {
    ResponseOk(b, A, s);
    hide PlainLabel, ComputerCache.Insert, Claims;
    Heard([b], a, Respond(b, A, s, false, false), from, stale, now);
  }

  lemma InsertedEntry(cache: Cache, address: uint32, name: Label, s: Service, ttl: uint32, now: nat)
    requires s != NONE
    ensures var after := ComputerCache.Insert(cache, address, Fqdn(name, s), ttl, now);
            && address in after && Offers(after[address], s) && Leave(after[address], s) == now + ttl * MICROSECONDS
            && after[address].name == if address in cache then cache[address].name else name
  {
    var fqdn := Fqdn(name, s);
    assert fqdn[1..] == ServiceName(s) && fqdn[0] == name;
    AnnouncedService(if address in cache then cache[address] else Fresh(address, fqdn), fqdn, ttl, now, s);
  }

  // ---------------------------------------------------------------- in any run

  /** The circumstances of one delivery: who seems to send, what the buffer still held, and the time. */
  datatype Reception = Reception(from: uint32, stale: seq<byte>, now: nat)

  function Hears(i: nat, o: Out, r: Reception): NetEvent {
    Delivered(i, o, r.from, r.stale, r.now)
  }

  /** Host `j` has settled on the name that `b` has, and offers the service. */
  predicate Knows(s: System, j: nat, b: Host, sv: Service) {
    && j < |s.hosts| && Owns(s.hosts[j], b.myName) && s.hosts[j].cfg == b.cfg
    && Provides(b, sv) && PlainLabel(b.myName, 111)
  }

  lemma KnowsForGood(s: System, evs: seq<NetEvent>, j: nat, b: Host, sv: Service)
    requires Inv(s) && Knows(s, j, b, sv)
    ensures Inv(Exec(s, evs)) && |Exec(s, evs).hosts| == |s.hosts| && Knows(Exec(s, evs), j, b, sv)
  {
    HostsExtend(s, evs, j);
    hide Inv, Exec, PlainLabel;
  }

  lemma {:induction false} NetGrows(s: System, evs: seq<NetEvent>, o: Out)
    ensures o in s.net ==> o in Exec(s, evs).net
    decreases |evs|
  {
    if evs != [] {
      hide React;
      NetGrows(s, evs[..|evs| - 1], o);
    }
  }

  /** After a step, and whatever happens then, a packet that was sent by then can be delivered. */
  lemma SentByThen(s: System, ev: NetEvent, evs: seq<NetEvent>, j: nat, b: Host, sv: Service, o: Out)
    requires Inv(s) && Knows(s, j, b, sv) && o in Step(s, ev).net
    ensures var t := Exec(Step(s, ev), evs);
            Inv(t) && |t.hosts| == |s.hosts| && Knows(t, j, b, sv) && o in t.net
  {
    var nil: seq<NetEvent> := [];
    assert [ev][..0] == nil && Exec(s, nil) == s;
    assert Exec(s, [ev]) == Step(s, ev);
    hide Step, Knows, Inv;
    KnowsForGood(s, [ev], j, b, sv);
    KnowsForGood(Step(s, ev), evs, j, b, sv);
    NetGrows(Step(s, ev), evs, o);
  }

  lemma AskIsSent(s: System, i: nat, sv: Service)
    requires i < |s.hosts| && sv != NONE
    ensures QueryOut(PTR, ServiceName(sv)) in Step(s, Asks(i)).net
  {
    hide ServiceName;
    assert AskForServices(s.hosts[i]).sent[if sv == UDP then 0 else 1] == QueryOut(PTR, ServiceName(sv));
  }

  /** The owner answers the question for its service and the question for its name. */
  lemma OwnerAnswers(s: System, j: nat, b: Host, sv: Service, rtype: uint16, r: Reception)
    requires Knows(s, j, b, sv) && (rtype == A || rtype == PTR)
    requires QueryOut(rtype, if rtype == PTR then ServiceName(sv) else Fqdn(b.myName, sv)) in s.net
    ensures var o := QueryOut(rtype, if rtype == PTR then ServiceName(sv) else Fqdn(b.myName, sv));
            Enabled(s, Hears(j, o, r)) && Respond(b, rtype, sv, false, false) in Step(s, Hears(j, o, r)).net
  {
    var h := s.hosts[j];
    assert Respond(h, rtype, sv, false, false) == Respond(b, rtype, sv, false, false);
    hide Deliver, Respond, PlainLabel, ServiceName, Fqdn;
    if rtype == PTR {
      AsksService(h, sv, r.from, r.stale, r.now);
    } else {
      AsksName(h, sv, r.from, r.stale, r.now);
    }
  }

  lemma AskerAsksOn(s: System, i: nat, j: nat, b: Host, sv: Service, r: Reception)
    requires Knows(s, j, b, sv) && i < |s.hosts| && Respond(b, PTR, sv, false, false) in s.net
    ensures var o := Respond(b, PTR, sv, false, false);
            Enabled(s, Hears(i, o, r)) && QueryOut(A, Fqdn(b.myName, sv)) in Step(s, Hears(i, o, r)).net
  {
    assert Respond(s.hosts[j], PTR, sv, false, false) == Respond(b, PTR, sv, false, false);
    hide Deliver, Respond, PlainLabel, Fqdn;
    HearsService(s.hosts[i], s.hosts[j], sv, r.from, r.stale, r.now);
  }

  lemma AskerListsOwner(s: System, i: nat, j: nat, b: Host, sv: Service, r: Reception)
    requires Knows(s, j, b, sv) && i < |s.hosts| && Respond(b, A, sv, false, false) in s.net
    ensures var o := Respond(b, A, sv, false, false);
            && Enabled(s, Hears(i, o, r)) && |Step(s, Hears(i, o, r)).hosts| == |s.hosts|
            && Listed(Step(s, Hears(i, o, r)).hosts[i].cache, b, sv, r.now)
            && (b.cfg.address !in s.hosts[i].cache ==>
                  Step(s, Hears(i, o, r)).hosts[i].cache[b.cfg.address].name == b.myName)
  {
    assert Respond(s.hosts[j], A, sv, false, false) == Respond(b, A, sv, false, false);
    hide Deliver, Respond, PlainLabel, Fqdn, ComputerCache.Insert;
    HearsAddress(s.hosts[i], s.hosts[j], sv, r.from, r.stale, r.now);
    InsertedEntry(s.hosts[i].cache, b.cfg.address, b.myName, sv, Twice(b.cfg.exploration), r.now);
  }

  /** The table has the owner at its address, with the service marked until the record runs out. */
  predicate Listed(cache: Cache, b: Host, sv: Service, now: nat) {
    && b.cfg.address in cache && Offers(cache[b.cfg.address], sv)
    && Leave(cache[b.cfg.address], sv) == now + 2 * b.cfg.exploration % 0x1_0000_0000 * 1_000_000
  }

  /**
   In every run, one round of the periodic question makes a named host known to the asker, provided that
   four packets arrive, each at any later time: question, pointer, question for the address, address.
   In between anything else may happen.
   */
  lemma {:induction false} NamedHostsAreFound(
      cfgs: seq<Config>, evs: seq<NetEvent>, evs1: seq<NetEvent>, evs2: seq<NetEvent>, evs3: seq<NetEvent>,
      evs4: seq<NetEvent>, i: nat, j: nat, sv: Service, r1: Reception, r2: Reception, r3: Reception, r4: Reception)
    requires GoodNetwork(cfgs) && i < |cfgs| && j < |cfgs|
    ensures var s := Exec(Init(cfgs), evs);
            |s.hosts| == |cfgs| && (s.hosts[j].nameIsSet && Provides(s.hosts[j], sv) ==>
              var b := s.hosts[j];
              var s1 := Exec(Step(s, Asks(i)), evs1);
              var ask := Hears(j, QueryOut(PTR, ServiceName(sv)), r1);
              var s2 := Exec(Step(s1, ask), evs2);
              var pointer := Hears(i, Respond(b, PTR, sv, false, false), r2);
              var s3 := Exec(Step(s2, pointer), evs3);
              var askName := Hears(j, QueryOut(A, Fqdn(b.myName, sv)), r3);
              var s4 := Exec(Step(s3, askName), evs4);
              var address := Hears(i, Respond(b, A, sv, false, false), r4);
              var t := Step(s4, address);
              && Enabled(s1, ask) && Enabled(s2, pointer) && Enabled(s3, askName) && Enabled(s4, address)
              && |t.hosts| == |s4.hosts| == |cfgs| && Listed(t.hosts[i].cache, b, sv, r4.now)
              && (b.cfg.address !in s4.hosts[i].cache ==> t.hosts[i].cache[b.cfg.address].name == b.myName))
  {
    ExecInv(cfgs, evs);
    var s := Exec(Init(cfgs), evs);
    hide Exec, Init, GoodNetwork;
    var b := s.hosts[j];
    if b.nameIsSet && Provides(b, sv) {
      NamePlain(s, j);
      assert Knows(s, j, b, sv);
      hide Inv, Knows, Step, Respond, ServiceName, Fqdn, Enabled, Hears, PlainLabel, Listed;
      AskIsSent(s, i, sv);
      SentByThen(s, Asks(i), evs1, j, b, sv, QueryOut(PTR, ServiceName(sv)));
      var s1 := Exec(Step(s, Asks(i)), evs1);
      OwnerAnswers(s1, j, b, sv, PTR, r1);
      var ask := Hears(j, QueryOut(PTR, ServiceName(sv)), r1);
      SentByThen(s1, ask, evs2, j, b, sv, Respond(b, PTR, sv, false, false));
      var s2 := Exec(Step(s1, ask), evs2);
      AskerAsksOn(s2, i, j, b, sv, r2);
      var pointer := Hears(i, Respond(b, PTR, sv, false, false), r2);
      SentByThen(s2, pointer, evs3, j, b, sv, QueryOut(A, Fqdn(b.myName, sv)));
      var s3 := Exec(Step(s2, pointer), evs3);
      OwnerAnswers(s3, j, b, sv, A, r3);
      var askName := Hears(j, QueryOut(A, Fqdn(b.myName, sv)), r3);
      SentByThen(s3, askName, evs4, j, b, sv, Respond(b, A, sv, false, false));
      AskerListsOwner(Exec(Step(s3, askName), evs4), i, j, b, sv, r4);
    }
  }
}
