/** How many names a host can really need: the bound by the number of hosts is reached. */
module Crowd {
  import opened Shared
  import opened CandidateNames
  import opened HostModel
  import opened Discovery
  import opened Uniqueness

  /** The first `k` hosts have settled on the first `k` candidates and said so; the others have just started. */
  predicate Settled(cfgs: seq<Config>, s: System, k: nat) {
    && |s.hosts| == |cfgs|
    && (forall c :: 0 <= c < k && c < |cfgs| ==>
          && s.hosts[c].nameIsSet && s.hosts[c].number == c + 1 && s.hosts[c].cfg == cfgs[c]
          && Respond(s.hosts[c], A, UDP, false, false) in s.net)
    && (forall c :: k <= c < |cfgs| ==> s.hosts[c] == Start(cfgs[c]))
  }

  /** Host `k` has heard from the first `c`. */
  predicate Yielding(cfgs: seq<Config>, s: System, t: System, k: nat, c: nat)
    requires k < |cfgs|
  {
    && |t.hosts| == |s.hosts| == |cfgs| && s.net <= t.net
    && (forall j :: 0 <= j < |cfgs| && j != k ==> t.hosts[j] == s.hosts[j])
    && !t.hosts[k].nameIsSet && t.hosts[k].number == c + 1 && t.hosts[k].cfg == cfgs[k]
    && t.hosts[k].timer.live == Some(Probing)
  }

  predicate SameHostname(cfgs: seq<Config>, base: Label) {
    forall c :: 0 <= c < |cfgs| ==> cfgs[c].base == base
  }

  /** A host that hears an owner's record for the name it tries moves on. */
  lemma HearsOwner(h: Host, g: Host, hosts: seq<Host>, from: uint32, stale: seq<byte>)
    requires !h.nameIsSet && h.myName == g.myName
    requires OutOk(hosts, Respond(g, A, UDP, false, false))
    ensures var after := Deliver(h, Respond(g, A, UDP, false, false), from, stale, 0).host;
            && !after.nameIsSet && after.number == h.number + 1 && after.cfg == h.cfg
            && after.timer.live == Some(Probing)
  {
    var o := Respond(g, A, UDP, false, false);
    Heard(hosts, h, o, from, stale, 0);
    ClaimIsName(o.name, o.service, h.myName);
    hide Deliver, OutOk, ComputerCache.Insert;
  }

  lemma YieldsOnce(cfgs: seq<Config>, base: Label, s: System, t: System, k: nat, c: nat)
    requires SameHostname(cfgs, base) && Settled(cfgs, s, k) && c < k < |cfgs|
    requires Yielding(cfgs, s, t, k, c) && Inv(t)
    ensures Yielding(cfgs, s, Step(t, Tells(s, k, c)), k, c + 1)
  {
    var o := Respond(s.hosts[c], A, UDP, false, false);
    assert OutOk(t.hosts, o) && HostInv(t.hosts, k) && HostInv(t.hosts, c);
    assert t.hosts[c] == s.hosts[c];
    MyNameIsCandidate(t.hosts[c]);
    MyNameIsCandidate(t.hosts[k]);
    HearsOwner(t.hosts[k], s.hosts[c], t.hosts, 0, [0]);
    hide Inv, Deliver, Respond, Candidate, HostInv, OutOk;
  }

  /** What brings the record of host `c` to host `k`. */
  function Tells(s: System, k: nat, c: nat): NetEvent
    requires c < |s.hosts|
  {
    Delivered(k, Respond(s.hosts[c], A, UDP, false, false), 0, [0], 0)
  }

  lemma ExecSnoc(s: System, evs: seq<NetEvent>, ev: NetEvent)
    ensures Exec(s, evs + [ev]) == Step(Exec(s, evs), ev)
  {
    assert (evs + [ev])[..|evs|] == evs;
    hide Step;
  }

  /** Host `k` gives up the first `c` candidates, one for each host that has spoken. */
  lemma {:induction false} Yields(cfgs: seq<Config>, base: Label, s: System, k: nat, c: nat)
    returns (more: seq<NetEvent>)
    requires SameHostname(cfgs, base) && c <= k < |cfgs| && |s.hosts| == |cfgs| && Inv(s) && Settled(cfgs, s, k)
    ensures Yielding(cfgs, s, Exec(s, more), k, c)
    decreases c
  {
    hide Settled, Yielding, Inv, SameHostname, Step, Tells;
    if c == 0 {
      more := [];
      YieldingStarts(cfgs, s, k);
    } else {
      more := Yields(cfgs, base, s, k, c - 1);
      HostsExtend(s, more, k);
      YieldsOnce(cfgs, base, s, Exec(s, more), k, c - 1);
      ExecSnoc(s, more, Tells(s, k, c - 1));
      more := more + [Tells(s, k, c - 1)];
    }
  }

  lemma YieldingStarts(cfgs: seq<Config>, s: System, k: nat)
    requires k < |cfgs| && Settled(cfgs, s, k)
    ensures Yielding(cfgs, s, s, k, 0)
  {
    hide Respond;
  }

  lemma SettlesNext(cfgs: seq<Config>, s: System, t: System, k: nat)
    requires k < |cfgs| && Settled(cfgs, s, k) && Yielding(cfgs, s, t, k, k)
    ensures Settled(cfgs, Exec(t, LeftAlone(k, |t.hosts[k].timer.ready|)), k + 1)
  {
    SettlesAlone(t, k);
    hide Exec, LeftAlone, Respond;
  }

  lemma {:induction false} SettleInTurn(cfgs: seq<Config>, base: Label, k: nat) returns (evs: seq<NetEvent>)
    requires GoodNetwork(cfgs) && SameHostname(cfgs, base) && k <= |cfgs|
    ensures Settled(cfgs, Exec(Init(cfgs), evs), k)
    decreases k
  {
    if k == 0 {
      evs := [];
    } else {
      evs := SettleInTurn(cfgs, base, k - 1);
      ExecInv(cfgs, evs);
      assert |Exec(Init(cfgs), evs).hosts| == |cfgs|;
      hide Init, Settled, Yielding, SameHostname, GoodNetwork, LeftAlone, Inv;
      var s := Exec(Init(cfgs), evs);
      var more := Yields(cfgs, base, s, k - 1, k - 1);
      var t := Exec(s, more);
      YieldingSize(cfgs, s, t, k - 1, k - 1);
      SettlesNext(cfgs, s, t, k - 1);
      var alone := LeftAlone(k - 1, |t.hosts[k - 1].timer.ready|);
      ExecAppend(Init(cfgs), evs, more);
      ExecAppend(Init(cfgs), evs + more, alone);
      evs := evs + more + alone;
    }
  }

  lemma YieldingSize(cfgs: seq<Config>, s: System, t: System, k: nat, c: nat)
    requires k < |cfgs| && Yielding(cfgs, s, t, k, c)
    ensures |t.hosts| == |cfgs|
  {
  }

  /**
   Hosts that all have the same hostname can need as many names as there are hosts: in some run the
   last of them ends up with the number N, and every one of them with its own name.
   */
  lemma BoundIsReached(cfgs: seq<Config>, base: Label)
    requires GoodNetwork(cfgs) && SameHostname(cfgs, base)
    ensures exists evs :: |Exec(Init(cfgs), evs).hosts| == |cfgs| &&
              forall c :: 0 <= c < |cfgs| ==>
                Exec(Init(cfgs), evs).hosts[c].number == c + 1 && Exec(Init(cfgs), evs).hosts[c].nameIsSet
  {
    var evs := SettleInTurn(cfgs, base, |cfgs|);
    hide Exec, Init, GoodNetwork, Respond;
    assert |Exec(Init(cfgs), evs).hosts| == |cfgs|;
  }
}
