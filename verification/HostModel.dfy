/**
 One running process as a value: name probing with its timer (name_server.cc), the answers to received
 packets (mdns_server.cc) and the table of discovered hosts. Handlers run one at a time.
 */
module HostModel {
  import opened Shared
  import opened MdnsFields
  import opened DomainNames
  import opened Messages
  import opened CandidateNames
  import opened ComputerCache

  // ---------------------------------------------------------------- state

  /** What does not change while the process runs: hostname, options, address, and how it was built. */
  datatype Config = Config(
    base: Label, announceSsh: bool, address: uint32, netmask: uint32, exploration: uint32, compress: bool)

  /** The handler a wait on the timer ends in; `success` remembers the name that was probed. */
  datatype Wait = Probing | Verdict(probed: Label)

  /** A handler waiting to be run, with `operation_aborted` or without an error. */
  datatype Ready = Ready(wait: Wait, aborted: bool)

  /** A deadline timer: at most one live wait, and the handlers of waits that expired or were cancelled. */
  datatype Timer = Timer(live: Option<Wait>, ready: seq<Ready>)

  datatype Host = Host(
    cfg: Config, number: nat, myName: Label, nameIsSet: bool, timer: Timer,
    receiverAddress: uint32, receiverPort: uint16, idFromQuery: uint16, cache: Cache)

  /** A handler's effect: the new state and what it hands to the socket. */
  datatype Outcome = Outcome(host: Host, sent: seq<Out>)

  // ---------------------------------------------------------------- the timer

  /** `expires_from_now` cancels the live wait; one that has already expired can not be cancelled. */
  function Cancelled(t: Timer): Timer {
    if t.live.Some? then Timer(None, t.ready + [Ready(t.live.value, true)]) else t
  }

  function Arm(t: Timer, w: Wait): Timer {
    Cancelled(t).(live := Some(w))
  }

  function Expire(t: Timer): Timer {
    if t.live.Some? then Timer(None, t.ready + [Ready(t.live.value, false)]) else t
  }

  function Without(ready: seq<Ready>, k: nat): seq<Ready>
    requires k < |ready|
  {
    ready[..k] + ready[k + 1..]
  }

  // ---------------------------------------------------------------- name_server.cc

  function Renamed(h: Host): Host {
    h.(myName := Candidate(h.cfg.base, h.number), timer := Arm(h.timer, Probing))
  }

  function Start(cfg: Config): Host {
    Renamed(Host(cfg, 1, cfg.base, false, Timer(None, []), 0, 0, 0, map[]))
  }

  function Notify(h: Host): Host {
    Renamed(h.(number := h.number + 1))
  }

  function ProbeQueries(cfg: Config, name: Label): seq<Out> {
    [QueryOut(A, Fqdn(name, UDP))] + (if cfg.announceSsh then [QueryOut(A, Fqdn(name, TCP))] else [])
  }

  /** Runs also when its wait was aborted: the error code is not looked at. */
  function SendProbes(h: Host): Outcome {
    Outcome(h.(timer := Arm(h.timer, Verdict(h.myName))), ProbeQueries(h.cfg, h.myName))
  }

  function Success(h: Host, probed: Label, aborted: bool): Outcome {
    if !aborted && probed == h.myName then Outcome(h.(nameIsSet := true), Announcement(h)) else Outcome(h, [])
  }

  function RunReady(h: Host, k: nat): Outcome
    requires k < |h.timer.ready|
  {
    var r := h.timer.ready[k];
    var h1 := h.(timer := h.timer.(ready := Without(h.timer.ready, k)));
    if r.wait.Probing? then SendProbes(h1) else Success(h1, r.wait.probed, r.aborted)
  }

  // ---------------------------------------------------------------- mdns_server.cc

  function Twice(exploration: uint32): uint32 {
    2 * exploration % WRAP32
  }

  /** Two periods, in 32 bits. */
  lemma TwiceIs(exploration: uint32)
    ensures exploration < 0x8000_0000 ==> Twice(exploration) == exploration + exploration
    ensures exploration >= 0x8000_0000 ==> Twice(exploration) == exploration + exploration - 0x1_0000_0000
  {
  }

  /** The response to be sent, to the group or to the asker, as an mDNS or as a legacy response. */
  function Respond(h: Host, rtype: uint16, s: Service, unicast: bool, legacy: bool): Out {
    ResponseOut(rtype,
                if legacy then h.idFromQuery else 0,
                h.myName, s,
                if legacy then 1 else 0x8001,
                if legacy && Twice(h.cfg.exploration) > 10 then 10 else Twice(h.cfg.exploration),
                h.cfg.address, h.cfg.compress,
                Endpoint(if unicast then h.receiverAddress else MULTICAST.address,
                         if legacy then h.receiverPort else MDNS_PORT))
  }

  function Announcement(h: Host): seq<Out> {
    [Respond(h, A, UDP, false, false)] + (if h.cfg.announceSsh then [Respond(h, A, TCP, false, false)] else [])
  }

  /** How a packet came in: by the unicast socket or the multicast one, and from where. */
  datatype Via = Via(unicast: bool, from: Endpoint)

  /** The answer to a query about this host's name, or about one of its services. */
  function Answers(h: Host, qname: seq<Label>, qtype: uint16, unicast: bool, legacy: bool): seq<Out> {
    if !h.nameIsSet then []
    else if qtype == A then
      if qname != [] && qname[0] == h.myName && WhichMyService(h.cfg.announceSsh, qname, 1) != NONE then
        [Respond(h, A, WhichMyService(h.cfg.announceSsh, qname, 1), unicast, legacy)]
      else []
    else if qtype == PTR && WhichMyService(h.cfg.announceSsh, qname, 0) != NONE then
      [Respond(h, PTR, WhichMyService(h.cfg.announceSsh, qname, 0), unicast, legacy)]
    else []
  }

  function HandleQuery(h: Host, id: uint16, qname: seq<Label>, qtype: uint16, qclass: uint16, via: Via): Outcome {
    var legacy := via.from.port != MDNS_PORT;
    var unicast := via.unicast || QU(qclass) || legacy;
    var h1 := if !legacy then h
              else if via.unicast then h.(idFromQuery := id)
              else h.(receiverPort := via.from.port, idFromQuery := id);
    var h2 := if !via.unicast && unicast then h1.(receiverAddress := via.from.address) else h1;
    Outcome(h2, Answers(h2, qname, qtype, unicast, legacy))
  }

  predicate Claims(aname: seq<Label>, name: Label) {
    aname == Fqdn(name, UDP) || aname == Fqdn(name, TCP)
  }

  function HandleA(h: Host, aname: seq<Label>, ttl: uint32, address: Option<uint32>, now: nat): Host {
    var h1 := if !h.nameIsSet && Claims(aname, h.myName) then Notify(h) else h;
    if address.Some? then h1.(cache := Insert(h1.cache, address.value, aname, ttl, now)) else h1
  }

  /** The unicast server notes the asker before it looks at the packet. */
  function Noted(h: Host, via: Via): Host {
    if via.unicast then h.(receiverAddress := via.from.address, receiverPort := via.from.port) else h
  }

  /** `receive_universal`. */
  function Receive(h: Host, m: Message, via: Via, now: nat): Outcome {
    var heard := Heeds(via);
    var h0 := Noted(h, via);
    match m
    case Query(id, qname, qtype, qclass) => HandleQuery(h0, id, qname, qtype, qclass, via)
    case AAnswer(aname, ttl, address) => Outcome(if heard then HandleA(h0, aname, ttl, address, now) else h0, [])
    case PtrAnswer(target) => Outcome(h0, if heard then [QueryOut(A, target)] else [])
    case _ => Outcome(h0, [])
  }

  /**
   What the program is defined on: not a name whose reading never ends, and not an empty name where the
   code takes the first label without looking.
   */
  predicate Defined(h: Host, m: Message, heard: bool) {
    && (m.Query? && m.qtype == A && h.nameIsSet ==> m.qname != [])
    && (heard ==> !m.Stuck?)
    && (heard && m.AAnswer? && m.address.Some? && m.address.value !in h.cache ==> m.aname != [])
  }

  /**
   A query is trouble only if it asks a named host for the address of the root; a response only if it
   counts, and its name never ends or is the root's with a new address.
   */
  lemma UndefinedExactly(h: Host, m: Message, heard: bool)
    ensures m.Query? ==> (!Defined(h, m, heard) <==> h.nameIsSet && m.qtype == 1 && m.qname == [])
    ensures m.AAnswer? ==>
              (!Defined(h, m, heard) <==> heard && m.aname == [] && exists a :: m.address == Some(a) && a !in h.cache)
    ensures m.PtrAnswer? || m.Ignored? ==> Defined(h, m, heard)
    ensures m.Stuck? ==> (!Defined(h, m, heard) <==> heard)
  {
  }

  /** Answers count when they come from the group's port over the multicast socket. */
  predicate Heeds(via: Via) {
    !via.unicast && via.from.port == MDNS_PORT
  }

  /** The two addresses agree in every bit of the mask. */
  predicate SameNetwork(a: uint32, b: uint32, netmask: uint32) {
    And(a, netmask) == And(b, netmask)
  }

  /** Under the mask of a prefix they do if and only if they agree but for the bits behind the prefix. */
  lemma SamePrefix(a: uint32, b: uint32, prefix: nat)
    requires prefix <= 32
    ensures Mask(prefix, 32 - prefix) < 0x1_0000_0000
    ensures SameNetwork(a, b, Mask(prefix, 32 - prefix)) <==> High(a, 32 - prefix) == High(b, 32 - prefix)
  {
    Pow2Values();
    MaskBound(prefix, 32 - prefix);
    hide Pow2;
    AndPrefix(a, b, prefix, 32 - prefix);
  }

  /** For example 192.168.1.x under 255.255.255.0: all but the last octet counts. */
  lemma LastOctetFree(a: uint32, b: uint32)
    ensures SameNetwork(a, b, 0xFFFF_FF00) <==> a / 256 == b / 256
  {
    hide *;
    Pow2Values();
    MaskIs(24, 8);
    SamePrefix(a, b, 24);
    HighIs(a);
    HighIs(b);
  }

  lemma HighIs(x: nat)
    ensures High(x, 8) == x / 256
  {
    HighFour(x, 4);
    HighFour(x / 16, 0);
  }

  /** By unicast, only hosts of the local network are listened to. */
  predicate FromNearby(h: Host, via: Via) {
    via.unicast ==> SameNetwork(via.from.address, h.cfg.address, h.cfg.netmask)
  }

  /** Datagrams of impossible sizes are dropped unread, and so is unicast from outside. */
  function HandleReceive(h: Host, b: seq<byte>, size: nat, via: Via, now: nat): Outcome
    requires size <= |b|
  {
    if size > BUFFER_SIZE || size < MIN_MDNS_SIZE || !FromNearby(h, via) then Outcome(h, [])
    else Receive(h, DecodeMessage(b, size), via, now)
  }

  /** A packet of an impossible size, and one that comes by unicast from outside the network, changes nothing. */
  lemma DroppedUnread(h: Host, b: seq<byte>, size: nat, via: Via, now: nat)
    requires size <= |b|
    requires size < 12 || size > 1500 || (via.unicast && !SameNetwork(via.from.address, h.cfg.address, h.cfg.netmask))
    ensures HandleReceive(h, b, size, via, now) == Outcome(h, [])
  {
    hide Receive, DecodeMessage, SameNetwork;
  }

  /** Any other packet is taken for what it means. */
  lemma TakenOtherwise(h: Host, b: seq<byte>, size: nat, via: Via, now: nat)
    requires 12 <= size <= 1500 && size <= |b|
    requires via.unicast ==> SameNetwork(via.from.address, h.cfg.address, h.cfg.netmask)
    ensures HandleReceive(h, b, size, via, now) == Receive(h, DecodeMessage(b, size), via, now)
  {
    hide Receive, DecodeMessage, SameNetwork;
  }

  /** What a host is, but for where its next answer goes. */
  predicate SameButAsker(h: Host, g: Host) {
    && g.cfg == h.cfg && g.number == h.number && g.myName == h.myName && g.nameIsSet == h.nameIsSet
    && g.timer == h.timer && g.cache == h.cache
  }

  /**
   Responses count only when they come to the group from the mDNS port: any other changes neither name
   nor table, and nothing is sent. A pointer that counts leads to one question for its target's address.
   */
  lemma ResponsesThatCount(h: Host, m: Message, via: Via, now: nat)
    requires m.AAnswer? || m.PtrAnswer?
    ensures var r := Receive(h, m, via, now);
            && (via.unicast || via.from.port != 5353 ==> SameButAsker(h, r.host) && r.sent == [])
            && (m.AAnswer? ==> r.sent == [])
            && (m.PtrAnswer? && !via.unicast && via.from.port == 5353 ==> r == Outcome(h, [QueryOut(1, m.target)]))
  {
    hide HandleA;
  }

  /**
   Packets on which the program is not defined, in a buffer that holds nothing else: a query for the root
   at a named host, a root record of an address not yet listed, and a name whose reading never ends.
   */
  lemma UndefinedPackets(h: Host, ttl: uint32, address: uint32)
    ensures var b := QueryBytes(A, []);
            12 <= |b| && forall heard :: !Defined(h, DecodeMessage(b, |b|), heard) <==> h.nameIsSet
    ensures var b := RootRecord(ttl, address);
            12 <= |b| && forall heard :: !Defined(h, DecodeMessage(b, |b|), heard) <==> heard && address !in h.cache
    ensures forall heard :: !Defined(h, DecodeMessage(LoopingPacket()[..29], 29), heard) <==> heard
  {
    RootQueryMeans(QueryBytes(A, []), |QueryBytes(A, [])|);
    RootRecordMeans(RootRecord(ttl, address), |RootRecord(ttl, address)|, ttl, address);
    LoopingPacketMeans(LoopingPacket()[..29]) by {
      assert SamePacket(LoopingPacket(), LoopingPacket()[..29], 29);
    }
    hide DecodeMessage, QueryBytes, RootRecord, LoopingPacket;
  }

  // ---------------------------------------------------------------- mdns_client.h, measurement_server.h

  function AskForServices(h: Host): Outcome {
    Outcome(h, [QueryOut(PTR, ServiceName(UDP)), QueryOut(PTR, ServiceName(TCP))])
  }

  function Measure(h: Host, readings: Readings): Host {
    h.(cache := Sweep(h.cache, readings))
  }

  // ---------------------------------------------------------------- what every step keeps

  /** `n` is one of the names tried so far. */
  predicate Tried(h: Host, n: Label) {
    exists k :: 1 <= k <= h.number && n == Candidate(h.cfg.base, k)
  }

  predicate TimerOk(h: Host) {
    && (h.timer.live.Some? && h.timer.live.value.Verdict? ==> h.timer.live.value.probed == h.myName)
    && (forall r :: r in h.timer.ready && r.wait.Verdict? ==> Tried(h, r.wait.probed))
  }

  predicate HostOk(h: Host) {
    && h.number >= 1 && h.myName == Candidate(h.cfg.base, h.number)
    && TimerOk(h)
  }

  /** What never changes, and what is frozen once the name is set. */
  predicate Extends(h: Host, g: Host) {
    && g.cfg == h.cfg && g.number >= h.number
    && (h.nameIsSet ==> g.nameIsSet && g.myName == h.myName && g.number == h.number)
  }

  /** Something in the timer will still bring probing of the current name to an end. */
  predicate Pending(h: Host) {
    || h.timer.live.Some?
    || (exists r :: r in h.timer.ready && r.wait.Probing?)
    || Ready(Verdict(h.myName), false) in h.timer.ready
  }

  lemma WithoutOthers(ready: seq<Ready>, k: nat)
    requires k < |ready|
    ensures forall r :: r in Without(ready, k) ==> r in ready
    ensures forall r :: r in ready && r != ready[k] ==> r in Without(ready, k)
  {
  }

  lemma ExpireKeeps(h: Host)
    requires HostOk(h)
    ensures var g := h.(timer := Expire(h.timer));
            HostOk(g) && Extends(h, g) && (Pending(h) ==> Pending(g))
  {
    hide Candidate;
    var g := h.(timer := Expire(h.timer));
    assert Candidate(h.cfg.base, h.number) == h.myName;
    if h.timer.live.Some? {
      assert Ready(h.timer.live.value, false) in g.timer.ready;
    }
  }

  lemma RunReadyKeeps(h: Host, k: nat)
    requires HostOk(h) && k < |h.timer.ready|
    ensures var g := RunReady(h, k).host;
            HostOk(g) && Extends(h, g) && (h.nameIsSet || Pending(h) ==> g.nameIsSet || Pending(g))
  {
    hide Candidate;
    WithoutOthers(h.timer.ready, k);
    assert Candidate(h.cfg.base, h.number) == h.myName;
  }

  lemma NotifyKeeps(h: Host)
    requires HostOk(h) && !h.nameIsSet
    ensures HostOk(Notify(h)) && Extends(h, Notify(h)) && Pending(Notify(h))
    ensures Notify(h).myName != h.myName
    ensures forall n :: Tried(h, n) ==> n != Notify(h).myName
  {
    hide Candidate;
    var g := Notify(h);
    assert Candidate(h.cfg.base, h.number) == h.myName;
    forall n | Tried(h, n)
      ensures Tried(g, n) && n != g.myName
    {
      var k :| 1 <= k <= h.number && n == Candidate(h.cfg.base, k);
      if n == g.myName {
        CandidateInjective(h.cfg.base, k, g.number);
      }
    }
    assert Tried(h, h.myName);
  }

  lemma ReceiveKeeps(h: Host, m: Message, via: Via, now: nat)
    requires HostOk(h)
    ensures var g := Receive(h, m, via, now).host;
            HostOk(g) && Extends(h, g) && (Pending(h) ==> Pending(g))
  {
    hide Candidate, Insert, WhichMyService, QU, Claims, Notify;
    if !h.nameIsSet {
      NotifyKeeps(h);
    }
  }

  /** A host starts without a name, and with the wait that begins its probing. */
  lemma StartOk(cfg: Config)
    ensures HostOk(Start(cfg)) && Pending(Start(cfg)) && !Start(cfg).nameIsSet
  {
  }

  // ---------------------------------------------------------------- consequences

  /** A `success` for a name that was given up never sets the name. */
  lemma StaleSuccessIgnored(h: Host, k: nat)
    requires HostOk(h) && k < |h.timer.ready| && h.timer.ready[k].wait.Verdict? && !h.nameIsSet
    ensures RunReady(h, k).host.nameIsSet <==>
            h.timer.ready[k] == Ready(Verdict(Candidate(h.cfg.base, h.number)), false)
  {
  }

  // ---------------------------------------------------------------- one host among any others

  /** What can happen to a process, whoever sends it packets. */
  datatype HostEvent = Gets(m: Message, via: Via, now: nat) | Runs(k: nat) | Fires | Cleans(readings: Readings)

  function HostStep(h: Host, ev: HostEvent): Host {
    match ev
    case Gets(m, via, now) => Receive(h, m, via, now).host
    case Runs(k) => if k < |h.timer.ready| then RunReady(h, k).host else h
    case Fires => h.(timer := Expire(h.timer))
    case Cleans(readings) => Measure(h, readings)
  }

  function HostRun(h: Host, evs: seq<HostEvent>): Host {
    if evs == [] then h else HostStep(HostRun(h, evs[..|evs| - 1]), evs[|evs| - 1])
  }

  /** An address record for `n`, of either service, is heard. */
  predicate Conflict(ev: HostEvent, n: Label) {
    ev.Gets? && Heeds(ev.via) && ev.m.AAnswer? && Claims(ev.m.aname, n)
  }

  /** `n` was tried and left behind. */
  predicate GivenUp(h: Host, n: Label) {
    exists k :: 1 <= k < h.number && n == Candidate(h.cfg.base, k)
  }

  /** How often a record for `n` made the host move on to another name. */
  function Advances(h: Host, evs: seq<HostEvent>, n: Label): nat {
    if evs == [] then 0
    else
      var before, last := evs[..|evs| - 1], evs[|evs| - 1];
      var g := HostRun(h, before);
      Advances(h, before, n) + (if Conflict(last, n) && HostStep(g, last).number != g.number then 1 else 0)
  }

  /** Only a record for the name being probed makes the host move on, and then by one. */
  lemma HostStepKeeps(h: Host, ev: HostEvent)
    requires HostOk(h)
    ensures var g := HostStep(h, ev);
            && HostOk(g) && Extends(h, g)
            && g.number == if !h.nameIsSet && Conflict(ev, h.myName) then h.number + 1 else h.number
  {
    hide Candidate, Insert, QU, Claims, HostOk, Answers;
    match ev
    case Gets(m, via, now) => ReceiveKeeps(h, m, via, now);
    case Runs(k) =>
      if k < |h.timer.ready| {
        RunReadyKeeps(h, k);
      }
    case Fires => ExpireKeeps(h);
    case Cleans(readings) => MeasureKeeps(h, readings);
  }

  lemma MeasureKeeps(h: Host, readings: Readings)
    requires HostOk(h)
    ensures HostOk(Measure(h, readings)) && Extends(h, Measure(h, readings))
  {
  }

  lemma GivenUpNext(h: Host, g: Host, n: Label)
    requires HostOk(h) && g.cfg == h.cfg && h.number <= g.number <= h.number + 1
    ensures GivenUp(g, n) <==> GivenUp(h, n) || (g.number != h.number && n == h.myName)
    ensures GivenUp(h, n) ==> n != h.myName
  {
    hide Candidate;
    if GivenUp(h, n) {
      var k :| 1 <= k < h.number && n == Candidate(h.cfg.base, k);
      if n == h.myName {
        CandidateInjective(h.cfg.base, k, h.number);
      }
    }
    assert Candidate(h.cfg.base, h.number) == h.myName;
  }

  /**
   In every run of a host, whatever else happens between the packets: however many address records for a
   name arrive, of either service and from whomever, together they made the host move on exactly once if
   it has left that name behind, and otherwise never.
   */
  lemma {:induction false} ConflictCountsOnce(cfg: Config, evs: seq<HostEvent>, n: Label)
    ensures HostOk(HostRun(Start(cfg), evs))
    ensures Advances(Start(cfg), evs, n) == if GivenUp(HostRun(Start(cfg), evs), n) then 1 else 0
    decreases |evs|
  {
    hide Candidate, HostStep, HostOk;
    if evs == [] {
      StartOk(cfg);
    } else {
      var before, last := evs[..|evs| - 1], evs[|evs| - 1];
      var h := HostRun(Start(cfg), before);
      ConflictCountsOnce(cfg, before, n);
      HostStepKeeps(h, last);
      GivenUpNext(h, HostStep(h, last), n);
      hide GivenUp, Claims;
      if Conflict(last, n) && Conflict(last, h.myName) {
        ClaimsOneName(last.m.aname, n, h.myName);
      }
    }
  }

  // ---------------------------------------------------------------- a name is taken after a wait

  /** Some time a wait armed for the verdict on `n` expired by itself. */
  predicate Waited(cfg: Config, evs: seq<HostEvent>, n: Label) {
    exists k :: 0 <= k < |evs| && evs[k] == Fires && HostRun(Start(cfg), evs[..k]).timer.live == Some(Verdict(n))
  }

  /** Only an expiry queues a verdict that was not aborted, and only such a verdict sets the name. */
  lemma VerdictStep(h: Host, ev: HostEvent, n: Label)
    ensures var g := HostStep(h, ev);
            && (Ready(Verdict(n), false) in g.timer.ready ==>
                  || Ready(Verdict(n), false) in h.timer.ready
                  || (ev == Fires && h.timer.live == Some(Verdict(n))))
            && (g.nameIsSet && g.myName == n ==>
                  (h.nameIsSet && h.myName == n) || Ready(Verdict(n), false) in h.timer.ready)
  {
    hide Candidate, Insert, QU, Claims, Answers, Sweep, Announcement, ProbeQueries;
    if ev.Runs? && ev.k < |h.timer.ready| {
      WithoutOthers(h.timer.ready, ev.k);
    }
  }

  /** A host takes a name only after the wait armed for that name has expired, whatever is aborted meanwhile. */
  lemma {:induction false} NameTakenAfterWait(cfg: Config, evs: seq<HostEvent>, n: Label)
    ensures var h := HostRun(Start(cfg), evs);
            && (h.nameIsSet && h.myName == n ==> Waited(cfg, evs, n))
            && (Ready(Verdict(n), false) in h.timer.ready ==> Waited(cfg, evs, n))
    decreases |evs|
  {
    hide HostStep;
    if evs != [] {
      var before, last := evs[..|evs| - 1], evs[|evs| - 1];
      NameTakenAfterWait(cfg, before, n);
      VerdictStep(HostRun(Start(cfg), before), last, n);
      WaitedStays(cfg, before, last, n);
      assert before + [last] == evs;
    } else {
      hide Candidate;
    }
  }

  lemma WaitedStays(cfg: Config, before: seq<HostEvent>, last: HostEvent, n: Label)
    ensures Waited(cfg, before, n) ==> Waited(cfg, before + [last], n)
    ensures last == Fires && HostRun(Start(cfg), before).timer.live == Some(Verdict(n)) ==>
              Waited(cfg, before + [last], n)
  {
    hide HostRun;
    var evs := before + [last];
    if Waited(cfg, before, n) {
      var k :| 0 <= k < |before| && before[k] == Fires
               && HostRun(Start(cfg), before[..k]).timer.live == Some(Verdict(n));
      assert evs[k] == Fires && evs[..k] == before[..k];
    }
    assert evs[..|before|] == before;
  }

  // ---------------------------------------------------------------- every wait's handler runs once

  /** How many handlers have run, and how many of them were those that send probes. */
  function Ran(h: Host, evs: seq<HostEvent>): (r: (nat, nat)) {
    if evs == [] then (0, 0)
    else
      var before, last := Ran(h, evs[..|evs| - 1]), evs[|evs| - 1];
      var ready := HostRun(h, evs[..|evs| - 1]).timer.ready;
      if !last.Runs? || last.k >= |ready| then before
      else (before.0 + 1, before.1 + if ready[last.k].wait.Probing? then 1 else 0)
  }

  /** The waits whose handlers have not run yet. */
  function Waits(t: Timer): nat {
    |t.ready| + if t.live.Some? then 1 else 0
  }

  lemma WaitsStep(h: Host, ev: HostEvent)
    requires HostOk(h)
    ensures var g, ran := HostStep(h, ev), ev.Runs? && ev.k < |h.timer.ready|;
            Waits(g.timer) + (if ran then 1 else 0) ==
            Waits(h.timer) + (g.number - h.number) + if ran && h.timer.ready[ev.k].wait.Probing? then 1 else 0
  {
    hide Candidate, Insert, QU, Claims, Answers, Sweep, Announcement, ProbeQueries;
    if ev.Runs? && ev.k < |h.timer.ready| {
      assert |Without(h.timer.ready, ev.k)| == |h.timer.ready| - 1;
    }
  }

  /**
   In every run: a wait is armed for each name tried, and by each handler that sends probes; and the handler
   of every wait, whether it expired or was cancelled, runs exactly once or is still to run.
   */
  lemma {:induction false} HandlersAreConserved(cfg: Config, evs: seq<HostEvent>)
    ensures HostOk(HostRun(Start(cfg), evs))
    ensures var h, ran := HostRun(Start(cfg), evs), Ran(Start(cfg), evs);
            Waits(h.timer) + ran.0 == h.number + ran.1
    decreases |evs|
  {
    hide Candidate, HostStep, HostOk;
    if evs == [] {
      StartOk(cfg);
      StartWaits(cfg);
    } else {
      var before, last := evs[..|evs| - 1], evs[|evs| - 1];
      HandlersAreConserved(cfg, before);
      HostStepKeeps(HostRun(Start(cfg), before), last);
      WaitsStep(HostRun(Start(cfg), before), last);
    }
  }

  lemma StartWaits(cfg: Config)
    ensures Waits(Start(cfg).timer) == 1 && Start(cfg).number == 1
  {
  }

  /** Aborted or not, a probe handler asks for the present name under every service that will be offered. */
  lemma ProbesAlways(h: Host, k: nat)
    requires k < |h.timer.ready| && h.timer.ready[k].wait.Probing?
    ensures var r := RunReady(h, k);
            && r.sent == [QueryOut(1, Fqdn(h.myName, UDP))] +
                         (if h.cfg.announceSsh then [QueryOut(1, Fqdn(h.myName, TCP))] else [])
            && r.host.timer.live == Some(Verdict(h.myName))
  {
  }

  /** A record for a name that was given up changes nothing about the name. */
  lemma GivenUpIsIgnored(h: Host, n: Label, m: Message, via: Via, now: nat)
    requires HostOk(h) && GivenUp(h, n) && m.AAnswer? && Claims(m.aname, n)
    ensures n != h.myName && Receive(h, m, via, now).host.number == h.number
  {
    GivenUpNext(h, h, n);
    HostStepKeeps(h, Gets(m, via, now));
    hide HostOk, GivenUp, Claims;
    if Claims(m.aname, h.myName) {
      ClaimsOneName(m.aname, n, h.myName);
    }
  }

  lemma ClaimsOneName(aname: seq<Label>, m: Label, n: Label)
    requires Claims(aname, m) && Claims(aname, n)
    ensures m == n
  {
    assert Fqdn(m, UDP)[0] == m && Fqdn(m, TCP)[0] == m && Fqdn(n, UDP)[0] == n && Fqdn(n, TCP)[0] == n;
  }

  predicate Provides(h: Host, s: Service) {
    s == UDP || (s == TCP && h.cfg.announceSsh)
  }

  /** A question for the address of this host under a service, or for who offers the service. */
  predicate AsksFor(h: Host, qname: seq<Label>, qtype: uint16, s: Service) {
    || (qtype == A && |qname| >= 4 && qname[..4] == Fqdn(h.myName, s))
    || (qtype == PTR && |qname| >= 3 && qname[..3] == ServiceName(s))
  }

  lemma AnswerMatches(h: Host, qname: seq<Label>, qtype: uint16, unicast: bool, legacy: bool)
    ensures var outs := Answers(h, qname, qtype, unicast, legacy);
            && (outs != [] <==> h.nameIsSet && exists s :: Provides(h, s) && AsksFor(h, qname, qtype, s))
            && |outs| <= 1
            && (outs != [] ==> exists s :: Provides(h, s) && AsksFor(h, qname, qtype, s)
                                           && outs[0] == Respond(h, qtype, s, unicast, legacy))
  {
    hide Respond;
    var byName, byService := WhichMyService(h.cfg.announceSsh, qname, 1), WhichMyService(h.cfg.announceSsh, qname, 0);
    forall s | Provides(h, s) && |qname| >= 4
      ensures qname[..4] == Fqdn(h.myName, s) <==> qname[0] == h.myName && qname[1..4] == ServiceName(s)
    {
      assert Fqdn(h.myName, s)[0] == h.myName && Fqdn(h.myName, s)[1..] == ServiceName(s);
      assert qname[..4] == [qname[0]] + qname[1..4];
    }
    assert |qname| >= 3 ==> qname[..3] == qname[0..3];
    hide WhichMyService, ServiceName, Fqdn;
    if qtype == A && byName != NONE && qname[0] == h.myName {
      assert Provides(h, byName) && AsksFor(h, qname, qtype, byName);
    } else if qtype == PTR && byService != NONE {
      assert Provides(h, byService) && AsksFor(h, qname, qtype, byService);
    }
  }

  /**
   A query is answered if and only if this host has a name and the question is for a service it offers.
   A query from another port than mDNS's gets its answer as section 6.7 of RFC 6762 asks: by unicast, at
   the port it came from, with its own identifier, no cache-flush bit and at most ten seconds to live. Any
   other answer has identifier 0, as section 18.1 asks, and comes to the mDNS port; its cache-flush bit is
   always set. What the RFC asks for and this is not: see `DeparturesFromRfc6762`.
   */
  lemma AnswersSuitTheAsker(h: Host, id: uint16, qname: seq<Label>, qtype: uint16, qclass: uint16, via: Via, now: nat)
    ensures var sent := Receive(h, Query(id, qname, qtype, qclass), via, now).sent;
            && (sent != [] <==> h.nameIsSet && exists s :: Provides(h, s) && AsksFor(h, qname, qtype, s))
            && |sent| <= 1
            && (sent != [] ==>
                  var o := sent[0];
                  && o.ResponseOut? && o.rtype == qtype && Provides(h, o.service) && AsksFor(h, qname, qtype, o.service)
                  && o.name == h.myName && o.address == h.cfg.address && o.compress == h.cfg.compress
                  && var two := h.cfg.exploration + h.cfg.exploration;
                  && (if via.from.port != 5353 then
                        o.to == via.from && o.id == id && o.rclass == 1
                        && (two < 0x1_0000_0000 ==> o.ttl == if two > 10 then 10 else two)
                      else
                        o.to == (if via.unicast || QU(qclass) then via.from else MULTICAST)
                        && o.id == 0 && o.rclass == 0x8001 && (two < 0x1_0000_0000 ==> o.ttl == two)))
  {
    TwiceIs(h.cfg.exploration);
    hide QU, AsksFor, Answers, Twice;
    var legacy := via.from.port != MDNS_PORT;
    var noted := HandleQuery(Noted(h, via), id, qname, qtype, qclass, via).host;
    AnswerMatches(noted, qname, qtype, via.unicast || QU(qclass) || legacy, legacy);
    AsksForName(h, noted, qname, qtype);
  }

  /**
   From the octets that come in to the octets that go out. Whatever program asked, from whatever port: a
   legacy answer goes back to where the query came from, and its first two octets are those of the query; a
   query with the top bit of its class set is answered by unicast; one without is answered to the group.
   */
  lemma AnswerToPacket(h: Host, b: seq<byte>, size: nat, head: seq<byte>, name: seq<Label>, tail: seq<byte>,
                       via: Via, now: nat)
    requires |head| == 12 && !QR(head[2]) && PlainName(name, 0xFF) && |tail| >= 4
    requires Carries(b, size, head + (EncodeName(name) + tail)) && size <= 1500 && FromNearby(h, via)
    ensures var sent := HandleReceive(h, b, size, via, now).sent;
            && (sent != [] <==>
                  var qtype := tail[0] as int * 256 + tail[1] as int;
                  h.nameIsSet && exists s :: Provides(h, s) && AsksFor(h, name, qtype, s))
            && (sent != [] ==>
                  var o := sent[0];
                  && o.ResponseOut? && |WireBytes(o)| >= 2
                  && (via.from.port != 5353 ==> o.to == via.from && WireBytes(o)[..2] == b[..2])
                  && (via.from.port == 5353 ==> WireBytes(o)[..2] == [0, 0])
                  && (via.from.port == 5353 && tail[2] >= 128 ==> o.to == via.from)
                  && (via.from.port == 5353 && !via.unicast && tail[2] < 32 ==> o.to == Endpoint(0xE000_00FB, 5353)))
  {
    hide DecodeMessage, QR, EncodeName, Receive, FromNearby, Carries, AsksFor, Provides, WireBytes, HandleReceive;
    QueryMeans(b, size, head, name, tail);
    FirstOctets(b, size, head, EncodeName(name) + tail);
    FromNearbyIs(h, via);
    TakenOtherwise(h, b, size, via, now);
    AnswerToQuery(h, head[0], head[1], name, tail[0] as int * 256 + tail[1] as int, tail[2], tail[3], via, now);
  }

  lemma AnswerToQuery(h: Host, idHigh: byte, idLow: byte, name: seq<Label>, qtype: uint16, high: byte, low: byte,
                      via: Via, now: nat)
    ensures var q := Query(idHigh as int * 256 + idLow as int, name, qtype, high as int * 256 + low as int);
            var sent := Receive(h, q, via, now).sent;
            && (sent != [] <==> h.nameIsSet && exists s :: Provides(h, s) && AsksFor(h, name, qtype, s))
            && (sent != [] ==>
                  var o := sent[0];
                  && o.ResponseOut? && |WireBytes(o)| >= 2
                  && (via.from.port != 5353 ==> o.to == via.from && WireBytes(o)[..2] == [idHigh, idLow])
                  && (via.from.port == 5353 ==> WireBytes(o)[..2] == [0, 0])
                  && (via.from.port == 5353 && high >= 128 ==> o.to == via.from)
                  && (via.from.port == 5353 && !via.unicast && high < 32 ==> o.to == Endpoint(0xE000_00FB, 5353)))
  {
    hide Receive, AsksFor, Provides, WireBytes, QU, Twice;
    var id, qclass := idHigh as int * 256 + idLow as int, high as int * 256 + low as int;
    AnswersSuitTheAsker(h, id, name, qtype, qclass, via, now);
    var sent := Receive(h, Query(id, name, qtype, qclass), via, now).sent;
    if sent != [] {
      TopBits(high, low);
      ResponseStarts(sent[0]);
      assert id / 256 == idHigh && id % 256 == idLow;
    }
  }

  lemma FromNearbyIs(h: Host, via: Via)
    requires FromNearby(h, via)
    ensures via.unicast ==> SameNetwork(via.from.address, h.cfg.address, h.cfg.netmask)
  {
  }

  lemma FirstOctets(b: seq<byte>, size: nat, head: seq<byte>, rest: seq<byte>)
    requires |head| == 12 && Carries(b, size, head + rest)
    ensures 12 <= size <= |b| && b[..2] == [head[0], head[1]]
  {
    var all := head + rest;
    assert all[0] == head[0] && all[1] == head[1] && b[0] == all[0] && b[1] == all[1];
  }

  lemma TopBits(high: byte, low: byte)
    ensures high >= 128 ==> QU(high as int * 256 + low as int)
    ensures high < 32 ==> !QU(high as int * 256 + low as int)
  {
  }

  lemma ResponseStarts(o: Out)
    requires o.ResponseOut?
    ensures |WireBytes(o)| >= 2 && WireBytes(o)[..2] == [o.id / 256, o.id % 256]
  {
    ResponseOctets(o);
    hide WireBytes, EncodeName, U32, Rdata, QuestionName, RdLength;
  }

  predicate FlushBitSet(o: Out)
    requires o.ResponseOut?
  {
    o.rclass >= 0x8000
  }

  /**
   Sections 10.2 and 6.7 of RFC 6762 allow the bit on the address of a host's own name, which no other
   host holds, but never on a record shared by all hosts that offer a service, nor in a legacy answer.
   */
  predicate FlushBitWanted(rtype: uint16, legacy: bool) {
    rtype == A && !legacy
  }

  /** The answer says how many questions it repeats in its header's QDCOUNT. */
  predicate RepeatsQuestion(o: Out)
    requires |WireBytes(o)| >= 6
  {
    Get16(WireBytes(o), 4) > 0
  }

  /**
   An answer's cache-flush bit is as it should be if and only if it is not a pointer sent to the mDNS
   port. Section 6 wants no question repeated in an mDNS response, section 6.7 wants it repeated in a
   legacy one: an answer does as they ask if and only if the query came from the mDNS port.
   */
  lemma DeparturesFromRfc6762(
      h: Host, id: uint16, qname: seq<Label>, qtype: uint16, qclass: uint16, via: Via, now: nat)
    ensures var sent := Receive(h, Query(id, qname, qtype, qclass), via, now).sent;
            sent != [] ==>
              var o, legacy := sent[0], via.from.port != MDNS_PORT;
              && o.ResponseOut? && |WireBytes(o)| >= 12
              && (FlushBitSet(o) == FlushBitWanted(o.rtype, legacy) <==> !(o.rtype == PTR && !legacy))
              && (RepeatsQuestion(o) == legacy <==> !legacy)
  {
    AnswersSuitTheAsker(h, id, qname, qtype, qclass, via, now);
    var sent := Receive(h, Query(id, qname, qtype, qclass), via, now).sent;
    hide Receive, Provides, WireBytes, QU;
    if sent != [] {
      HeaderFields(sent[0]);
    }
  }

  /** The records that announce a name are addresses, and have the bit. */
  lemma AnnouncedRecords(h: Host)
    ensures forall o :: o in Announcement(h) ==>
              && o.ResponseOut? && o.rtype == 1 && o.id == 0 && o.rclass == 0x8001 && o.compress == h.cfg.compress
              && o.name == h.myName && o.address == h.cfg.address && o.to == Endpoint(0xE000_00FB, 5353)
              && (h.cfg.exploration < 0x8000_0000 ==> o.ttl == h.cfg.exploration + h.cfg.exploration)
    ensures forall s :: (exists o :: o in Announcement(h) && o.ResponseOut? && o.service == s) <==> Provides(h, s)
    ensures |Announcement(h)| == if h.cfg.announceSsh then 2 else 1
  {
    TwiceIs(h.cfg.exploration);
    hide Twice;
    assert Announcement(h)[0].service == UDP;
    if h.cfg.announceSsh {
      assert Announcement(h)[1].service == TCP;
    }
  }

  lemma AnnouncedBits(h: Host)
    ensures forall o :: o in Announcement(h) ==> o.ResponseOut? && FlushBitSet(o) && FlushBitWanted(o.rtype, false)
  {
  }

  lemma AsksForName(h: Host, g: Host, qname: seq<Label>, qtype: uint16)
    requires h.myName == g.myName
    ensures forall s :: AsksFor(g, qname, qtype, s) == AsksFor(h, qname, qtype, s)
  {
  }

  // ---------------------------------------------------------------- the abort cascade ends

  function CountProbing(ready: seq<Ready>): nat {
    if ready == [] then 0 else CountProbing(ready[..|ready| - 1]) + (if ready[|ready| - 1].wait.Probing? then 1 else 0)
  }

  /**
   Twice the queued probe handlers plus the queued verdicts, plus a weight for the live wait: a probe
   handler that re-arms the timer turns a live probe wait into a live verdict wait.
   */
  function Work(t: Timer): nat {
    |t.ready| + CountProbing(t.ready) + (if t.live == Some(Probing) then 2 else 0)
  }

  lemma {:induction false} CountAppend(s: seq<Ready>, t: seq<Ready>)
    ensures CountProbing(s + t) == CountProbing(s) + CountProbing(t)
  {
    if t == [] {
      assert s + t == s;
    } else {
      var init, last := t[..|t| - 1], t[|t| - 1];
      CountAppend(s, init);
      assert (s + t)[..|s + t| - 1] == s + init;
    }
  }

  lemma CountWithout(ready: seq<Ready>, k: nat)
    requires k < |ready|
    ensures CountProbing(ready) == CountProbing(Without(ready, k)) + (if ready[k].wait.Probing? then 1 else 0)
  {
    hide CountProbing;
    var before, after := ready[..k], ready[k + 1..];
    assert ready == (before + [ready[k]]) + after;
    CountAppend(before + [ready[k]], after);
    CountAppend(before, [ready[k]]);
    CountOne(ready[k]);
    CountAppend(before, after);
  }

  lemma CountOne(r: Ready)
    ensures CountProbing([r]) == if r.wait.Probing? then 1 else 0
  {
    assert CountProbing([r]) == CountProbing([]) + (if r.wait.Probing? then 1 else 0);
  }

  lemma RunReadyWorks(h: Host, k: nat)
    requires k < |h.timer.ready|
    ensures Work(RunReady(h, k).host.timer) < Work(h.timer)
  {
    var ready := h.timer.ready;
    var rest := Without(ready, k);
    CountWithout(ready, k);
    assert |rest| == |ready| - 1;
    if ready[k].wait.Probing? && h.timer.live.Some? {
      CountOne(Ready(h.timer.live.value, true));
      CountAppend(rest, [Ready(h.timer.live.value, true)]);
    }
  }

  /** What the timer can still do: one more for every wait that has yet to expire and every verdict to come. */
  function Charge(t: Timer): nat {
    Work(t) + CountProbing(t.ready) + (if t.live.Some? then 2 else 0)
  }

  lemma QueueOne(ready: seq<Ready>, r: Ready)
    ensures |ready + [r]| == |ready| + 1
    ensures CountProbing(ready + [r]) == CountProbing(ready) + (if r.wait.Probing? then 1 else 0)
  {
    CountAppend(ready, [r]);
    CountOne(r);
  }

  /** Each time a wait expires or a handler runs, less is left to do. */
  lemma TimerEventsCharge(h: Host, k: nat)
    ensures h.timer.live.Some? ==> Charge(Expire(h.timer)) < Charge(h.timer)
    ensures k < |h.timer.ready| ==> Charge(RunReady(h, k).host.timer) < Charge(h.timer)
  {
    var t := h.timer;
    hide CountProbing, Announcement, ProbeQueries;
    if t.live.Some? {
      QueueOne(t.ready, Ready(t.live.value, false));
    }
    if k < |t.ready| {
      var rest := Without(t.ready, k);
      CountWithout(t.ready, k);
      assert |rest| == |t.ready| - 1;
      if t.live.Some? {
        QueueOne(rest, Ready(t.live.value, true));
      }
    }
  }

  /** A packet adds to it only together with the number, four to one. */
  lemma ReceiveCharges(h: Host, m: Message, via: Via, now: nat)
    ensures var g := Receive(h, m, via, now).host;
            Charge(g.timer) + 4 * h.number <= Charge(h.timer) + 4 * g.number
  {
    hide CountProbing, Insert, QU, Claims, Candidate, Answers;
    if h.timer.live.Some? {
      QueueOne(h.timer.ready, Ready(h.timer.live.value, true));
    }
  }

  lemma NothingCharged(h: Host)
    requires Charge(h.timer) == 0
    ensures !Pending(h)
  {
    hide CountProbing;
  }

  /** Running queued handlers, in any order the choices say, until a choice names none. */
  function Drain(h: Host, choices: seq<nat>): (r: (Host, nat))
    decreases |choices|
  {
    if choices == [] || choices[0] >= |h.timer.ready| then (h, 0)
    else
      var rest := Drain(RunReady(h, choices[0]).host, choices[1..]);
      (rest.0, rest.1 + 1)
  }

  /**
   Although an aborted probe handler re-arms the timer and so aborts another wait, only so many
   handlers can run, in whatever order, before the queue is empty.
   */
  lemma {:induction false} DrainBounded(h: Host, choices: seq<nat>)
    ensures Drain(h, choices).1 + Work(Drain(h, choices).0.timer) <= Work(h.timer)
    decreases |choices|
  {
    hide Work, RunReady;
    if choices != [] && choices[0] < |h.timer.ready| {
      RunReadyWorks(h, choices[0]);
      DrainBounded(RunReady(h, choices[0]).host, choices[1..]);
    }
  }

  /** Running queued handlers, oldest first, until none is left; and all that they send. */
  function DrainAll(h: Host): Outcome
    decreases Work(h.timer)
  {
    if h.timer.ready == [] then Outcome(h, [])
    else
      RunReadyWorks(h, 0);
      var r := RunReady(h, 0);
      var rest := DrainAll(r.host);
      Outcome(rest.host, r.sent + rest.sent)
  }

  lemma DrainAllUnfold(h: Host)
    requires h.timer.ready != []
    ensures var r := RunReady(h, 0);
            DrainAll(h) == Outcome(DrainAll(r.host).host, r.sent + DrainAll(r.host).sent)
  {
    hide RunReady, Work;
  }

  /** It is one of the orders, takes at most `Work` handlers, and ends with an empty queue. */
  lemma {:induction false} DrainAllIsDrain(h: Host) returns (n: nat)
    ensures n <= Work(h.timer) && Drain(h, seq(n, _ => 0)) == (DrainAll(h).host, n)
    ensures DrainAll(h).host.timer.ready == []
    ensures h.nameIsSet ==> DrainAll(h).host.nameIsSet
    decreases Work(h.timer)
  {
    if h.timer.ready == [] {
      n := 0;
    } else {
      hide *;
      RunReadyWorks(h, 0);
      RunReadyNameSet(h, 0);
      DrainAllUnfold(h);
      var m := DrainAllIsDrain(RunReady(h, 0).host);
      n := m + 1;
      DrainZero(h, m);
    }
  }

  lemma DrainZero(h: Host, m: nat)
    requires h.timer.ready != []
    ensures var rest := Drain(RunReady(h, 0).host, seq(m, _ => 0));
            Drain(h, seq(m + 1, _ => 0)) == (rest.0, rest.1 + 1)
  {
    hide RunReady;
    var zeros: seq<nat> := seq(m + 1, _ => 0);
    assert zeros[1..] == seq(m, _ => 0);
  }

  lemma RunReadyNameSet(h: Host, k: nat)
    requires k < |h.timer.ready|
    ensures h.nameIsSet ==> RunReady(h, k).host.nameIsSet
  {
  }
}
