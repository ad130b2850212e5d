/** How a host comes by its name in any run of the network: it asks, waits, and only then tells. */
module Settling {
  import opened Shared
  import opened Messages
  import opened CandidateNames
  import opened HostModel
  import opened Discovery

  /** The probes for a name have been sent: address queries for it under every service to be offered. */
  predicate Asked(net: set<Out>, cfg: Config, n: Label) {
    QueryOut(1, Fqdn(n, UDP)) in net && (cfg.announceSsh ==> QueryOut(1, Fqdn(n, TCP)) in net)
  }

  /** The address record of a name under a service has been sent, to live for two periods. */
  predicate Told(net: set<Out>, cfg: Config, n: Label, s: Service) {
    exists o :: o in net && o.ResponseOut? && o.rtype == 1 && o.name == n && o.service == s && o.address == cfg.address
                && (cfg.exploration < 0x8000_0000 ==> o.ttl == cfg.exploration + cfg.exploration)
  }

  /** Some time, after the probes for `n` had gone out, host `i`'s wait for the verdict on `n` expired by itself. */
  predicate WaitedOut(cfgs: seq<Config>, evs: seq<NetEvent>, i: nat, n: Label) {
    i < |cfgs| && exists k :: 0 <= k < |evs| && evs[k] == TimerExpires(i) && VerdictDue(cfgs, evs[..k], i, n)
  }

  predicate VerdictDue(cfgs: seq<Config>, evs: seq<NetEvent>, i: nat, n: Label)
    requires i < |cfgs|
  {
    var s := Exec(Init(cfgs), evs);
    && i < |s.hosts| && s.hosts[i].timer.live == Some(Verdict(n)) && Asked(s.net, cfgs[i], n)
  }

  /** A handler that waits for a verdict has asked; one that settles on a name tells. */
  lemma HandlerAsks(h: Host, k: nat, n: Label)
    requires k < |h.timer.ready|
    ensures var r := RunReady(h, k);
            && r.host.cfg == h.cfg && r.host.myName == h.myName
            && (r.host.timer.live == Some(Verdict(n)) ==>
                  h.timer.live == Some(Verdict(n)) || Asked((set o | o in r.sent), h.cfg, n))
            && (r.host.nameIsSet && !h.nameIsSet ==> r.sent == Announcement(h))
  {
    hide Fqdn;
    if h.timer.ready[k].wait.Probing? {
      ProbesAlways(h, k);
      AsksAll(h.cfg, h.myName, RunReady(h, k).sent);
    }
    hide Asked;
  }

  lemma AsksAll(cfg: Config, n: Label, sent: seq<Out>)
    requires sent == [QueryOut(1, Fqdn(n, UDP))] + if cfg.announceSsh then [QueryOut(1, Fqdn(n, TCP))] else []
    ensures Asked((set o | o in sent), cfg, n)
  {
    hide Fqdn;
    assert sent[0] == QueryOut(1, Fqdn(n, UDP));
    assert cfg.announceSsh ==> sent[1] == QueryOut(1, Fqdn(n, TCP));
  }

  lemma AnnouncementTells(h: Host, s: Service)
    requires Provides(h, s)
    ensures Told((set o | o in Announcement(h)), h.cfg, h.myName, s)
  {
    AnnouncedRecords(h);
    hide Announcement;
  }

  /** No other event arms such a wait or sets a name. */
  lemma OthersDoNot(s: System, ev: NetEvent)
    requires Enabled(s, ev) && !ev.HandlerRuns?
    ensures var h, g := s.hosts[ev.i], React(s, ev).host;
            && (g.timer.live.Some? && g.timer.live.value.Verdict? ==> g.timer == h.timer)
            && (g.nameIsSet ==> h.nameIsSet && g.myName == h.myName)
  {
    hide WireBytes, DecodeMessage, Answers, Claims;
  }

  /** What has been sent stays sent, and what has been waited for stays so. */
  lemma Stays(cfgs: seq<Config>, before: seq<NetEvent>, last: NetEvent, i: nat, n: Label)
    requires i < |cfgs|
    ensures WaitedOut(cfgs, before, i, n) ==> WaitedOut(cfgs, before + [last], i, n)
    ensures last == TimerExpires(i) && VerdictDue(cfgs, before, i, n) ==> WaitedOut(cfgs, before + [last], i, n)
  {
    hide VerdictDue;
    var evs := before + [last];
    if WaitedOut(cfgs, before, i, n) {
      var k :| 0 <= k < |before| && before[k] == TimerExpires(i) && VerdictDue(cfgs, before[..k], i, n);
      assert evs[k] == TimerExpires(i) && evs[..k] == before[..k];
    }
    assert evs[..|before|] == before && evs[|before|] == last;
  }

  lemma NetOnlyGrows(net: set<Out>, more: set<Out>, cfg: Config, n: Label, s: Service)
    ensures Asked(net, cfg, n) || Asked(more, cfg, n) ==> Asked(net + more, cfg, n)
    ensures Told(net, cfg, n, s) || Told(more, cfg, n, s) ==> Told(net + more, cfg, n, s)
  {
    hide Fqdn;
  }

  /** How far a host has come with a name: not waiting, waiting, waited out, settled. */
  lemma ReactProgress(s: System, ev: NetEvent, n: Label, sv: Service)
    requires Enabled(s, ev)
    ensures var h, r := s.hosts[ev.i], React(s, ev); var g, sent := r.host, set o | o in r.sent;
            && (g.timer.live == Some(Verdict(n)) ==> h.timer.live == Some(Verdict(n)) || Asked(sent, h.cfg, n))
            && (Ready(Verdict(n), false) in g.timer.ready ==>
                  || Ready(Verdict(n), false) in h.timer.ready
                  || (ev == TimerExpires(ev.i) && h.timer.live == Some(Verdict(n))))
            && (g.nameIsSet && g.myName == n ==>
                  || (h.nameIsSet && h.myName == n)
                  || (Ready(Verdict(n), false) in h.timer.ready && (Provides(h, sv) ==> Told(sent, h.cfg, n, sv))))
  {
    hide Asked, Told, Provides;
    var h, e := s.hosts[ev.i], Locally(ev);
    ReactLocally(s, ev);
    if e.Some? {
      VerdictStep(h, e.value, n);
    }
    if ev.HandlerRuns? {
      HandlerAsks(h, ev.k, n);
      if Provides(h, sv) {
        AnnouncementTells(h, sv);
      }
    } else {
      OthersDoNot(s, ev);
    }
    hide React, HostStep, RunReady;
  }

  /**
   Where a host stands with a name: whoever waits for the verdict on it has asked for it; whoever will get
   one has waited; and whoever has the name has waited for it and told.
   */
  predicate Stands(h: Host, net: set<Out>, n: Label, sv: Service, waited: bool) {
    && (h.timer.live == Some(Verdict(n)) ==> Asked(net, h.cfg, n))
    && (Ready(Verdict(n), false) in h.timer.ready ==> waited)
    && (h.nameIsSet && h.myName == n ==> waited && (Provides(h, sv) ==> Told(net, h.cfg, n, sv)))
  }

  lemma StepStands(s: System, ev: NetEvent, i: nat, n: Label, sv: Service, before: bool, after: bool)
    requires i < |s.hosts| && Stands(s.hosts[i], s.net, n, sv, before)
    requires before || (ev == TimerExpires(i) && s.hosts[i].timer.live == Some(Verdict(n))) ==> after
    requires Enabled(s, ev) ==> React(s, ev).host.cfg == s.hosts[ev.i].cfg
    ensures |Step(s, ev).hosts| == |s.hosts|
    ensures Stands(Step(s, ev).hosts[i], Step(s, ev).net, n, sv, after)
  {
    hide Asked, Told, React;
    if Enabled(s, ev) {
      NetOnlyGrows(s.net, (set o | o in React(s, ev).sent), s.hosts[i].cfg, n, sv);
      if ev.i == i {
        ReactProgress(s, ev, n, sv);
      }
    }
  }

  lemma ReactKeepsConfig(s: System, ev: NetEvent)
    requires Inv(s)
    ensures Enabled(s, ev) ==> React(s, ev).host.cfg == s.hosts[ev.i].cfg
  {
    hide Inv, React;
    if Enabled(s, ev) {
      ReactIsGood(s, ev);
    }
  }

  lemma StartStands(cfg: Config, n: Label, sv: Service, waited: bool)
    ensures Stands(Start(cfg), {}, n, sv, waited)
  {
    hide Candidate, Asked, Told;
  }

  /** In every run, for every name. */
  lemma {:induction false} AllStand(cfgs: seq<Config>, evs: seq<NetEvent>, i: nat, n: Label, sv: Service)
    requires GoodNetwork(cfgs) && i < |cfgs|
    ensures var s := Exec(Init(cfgs), evs);
            |s.hosts| == |cfgs| && Stands(s.hosts[i], s.net, n, sv, WaitedOut(cfgs, evs, i, n))
    decreases |evs|
  {
    if evs == [] {
      StartStands(cfgs[i], n, sv, WaitedOut(cfgs, evs, i, n));
    } else {
      var before, last := evs[..|evs| - 1], evs[|evs| - 1];
      var s := Exec(Init(cfgs), before);
      AllStand(cfgs, before, i, n, sv);
      ConfigsStay(cfgs, before);
      ExecInv(cfgs, before);
      ReactKeepsConfig(s, last);
      Stays(cfgs, before, last, i, n);
      assert before + [last] == evs;
      hide WaitedOut, Asked, Init, GoodNetwork, React, Inv, Step;
      StepStands(s, last, i, n, sv, WaitedOut(cfgs, before, i, n), WaitedOut(cfgs, evs, i, n)) by {
        hide Exec;
      }
    }
  }

  /**
   In every run, whatever is lost, late or aborted: a host that has a name has, some time, asked whether
   anybody owns it, then waited until the wait expired by itself, and has told the others its address under
   each of its services.
   */
  lemma {:induction false} NamesAreEarned(cfgs: seq<Config>, evs: seq<NetEvent>, i: nat)
    requires GoodNetwork(cfgs) && i < |cfgs|
    ensures |Exec(Init(cfgs), evs).hosts| == |cfgs|
    ensures var s := Exec(Init(cfgs), evs); var h := s.hosts[i];
            h.nameIsSet ==>
              && WaitedOut(cfgs, evs, i, h.myName) && Told(s.net, cfgs[i], h.myName, UDP)
              && (cfgs[i].announceSsh ==> Told(s.net, cfgs[i], h.myName, TCP))
  {
    ConfigsStay(cfgs, evs);
    var h := Exec(Init(cfgs), evs).hosts[i];
    AllStand(cfgs, evs, i, h.myName, UDP);
    AllStand(cfgs, evs, i, h.myName, TCP);
    hide Exec, WaitedOut, Told, Init, GoodNetwork;
  }
}
