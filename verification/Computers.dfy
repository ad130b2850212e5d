/**
 One discovered host (computer.h, computer.cc): its two services with their leave times, and three
 sliding windows of measured delays. `Entry` is the value of a `Computer` object.
 */
module Computers {
  import opened Shared
  import opened MdnsFields

  // ---------------------------------------------------------------- sliding windows

  /** A queue of samples and its running sum, both kept in 32 bits. */
  datatype Window = Window(times: seq<uint32>, sum: uint32)

  const EMPTY := Window([], 0)

  /** Push, add, and once there are more than ten samples subtract and pop the oldest. */
  function Push(w: Window, res: uint64): Window {
    var times, sum := w.times + [res % WRAP32], (w.sum + res) % WRAP32;
    if |times| > 10 then Window(times[1..], (sum - times[0]) % WRAP32) else Window(times, sum)
  }

  function Average(w: Window): uint32 {
    if |w.times| > 0 then w.sum / |w.times| else 0
  }

  function Sum(s: seq<uint32>): nat {
    if s == [] then 0 else Sum(s[..|s| - 1]) + s[|s| - 1]
  }

  function LastTen<T>(s: seq<T>): seq<T> {
    if |s| > 10 then s[|s| - 10..] else s
  }

  /** Ten of them, or all if there are fewer; the latest, in the order they came in. */
  lemma LastTenAre<T>(s: seq<T>)
    ensures |LastTen(s)| == (if |s| > 10 then 10 else |s|) && s[|s| - |LastTen(s)|..] == LastTen(s)
  {
  }

  /** The window that holds exactly the last ten of all samples, with their sum modulo 2^32. */
  function WindowOf(samples: seq<uint32>): Window {
    Window(LastTen(samples), Sum(LastTen(samples)) % WRAP32)
  }

  lemma {:induction false} SumCons(x: uint32, s: seq<uint32>)
    ensures Sum([x] + s) == x + Sum(s)
  {
    if s == [] {
      assert [x] + s == [x];
      assert Sum([x]) == Sum([]) + x;
    } else {
      SumCons(x, s[..|s| - 1]);
      assert ([x] + s)[..|s|] == [x] + s[..|s| - 1];
    }
  }

  lemma SumSnoc(s: seq<uint32>, x: uint32)
    ensures Sum(s + [x]) == Sum(s) + x
  {
    assert (s + [x])[..|s|] == s;
  }

  /** Reducing early does not change sums and differences modulo 2^32. */
  lemma EarlyReduction(sum: int, res: int, oldest: int)
    ensures (sum % WRAP32 + res) % WRAP32 == (sum + res % WRAP32) % WRAP32
    ensures ((sum % WRAP32 + res) % WRAP32 - oldest) % WRAP32 == (sum + res % WRAP32 - oldest) % WRAP32
  {
  }

  /**
   Pushing onto the window of some samples gives the window of one sample more: the sum is right
   modulo 2^32 although it may wrap between the addition and the subtraction.
   */
  lemma PushKeepsWindow(samples: seq<uint32>, res: uint64)
    ensures Push(WindowOf(samples), res) == WindowOf(samples + [res % WRAP32])
  {
    hide Sum;
    var x: uint32 := res % WRAP32;
    var before, times := LastTen(samples), LastTen(samples) + [x];
    SumSnoc(before, x);
    EarlyReduction(Sum(before), res, times[0]);
    if |times| > 10 {
      assert LastTen(samples + [x]) == times[1..];
      assert times == [times[0]] + times[1..];
      SumCons(times[0], times[1..]);
    } else {
      assert LastTen(samples + [x]) == times;
    }
  }

  lemma {:induction false} SumBounds(s: seq<uint32>, low: nat, high: nat)
    requires forall x :: x in s ==> low <= x <= high
    ensures |s| * low <= Sum(s) <= |s| * high
  {
    if s != [] {
      var n, init := |s| - 1, s[..|s| - 1];
      assert s[n] in s && forall x :: x in init ==> x in s;
      SumBounds(init, low, high);
      assert (n + 1) * low == n * low + low && (n + 1) * high == n * high + high;
    }
  }

  /**
   The average is the true one if and only if the true sum of the window fits 32 bits; then it lies
   between the smallest and the largest sample.
   */
  lemma AverageExact(samples: seq<uint32>, low: nat, high: nat)
    requires samples != []
    requires forall x :: x in LastTen(samples) ==> low <= x <= high
    ensures var w := WindowOf(samples);
            && (Average(w) == Sum(w.times) / |w.times| <==> Sum(w.times) < WRAP32)
            && (Sum(w.times) < WRAP32 ==> low <= Average(w) <= high)
  {
    hide *;
    SumBounds(LastTen(samples), low, high);
    AverageIs(samples);
    MeanIs(Sum(LastTen(samples)), |LastTen(samples)|, low, high);
  }

  lemma MeanIs(total: nat, n: nat, low: nat, high: nat)
    requires 0 < n <= 10 && n * low <= total <= n * high
    ensures total % WRAP32 / n == total / n <==> total < WRAP32
    ensures total < WRAP32 ==> low <= total % WRAP32 / n <= high
  {
    if total >= WRAP32 {
      hide *;
      WrappedMean(total, n);
    } else {
      DivisionBounds(total, n, low, high);
    }
  }

  lemma AverageIs(samples: seq<uint32>)
    requires samples != []
    ensures WindowOf(samples).times == LastTen(samples) && 0 < |LastTen(samples)| <= 10
    ensures Average(WindowOf(samples)) == Sum(LastTen(samples)) % WRAP32 / |LastTen(samples)|
  {
    hide Sum;
  }

  /** Dividing what is left of a sum that wrapped gives less than dividing the sum. */
  lemma WrappedMean(total: nat, n: nat)
    requires total >= WRAP32 && 0 < n <= 10
    ensures total % WRAP32 / n < total / n
  {
    assert total % WRAP32 + n <= total;
    DivisionGrows(total % WRAP32, total, n);
  }

  /** The true average of the samples; zero of none. */
  function Mean(s: seq<uint32>): nat {
    if s == [] then 0 else Sum(s) / |s|
  }

  /** `r` tells the mean of the recent samples exactly when their sum fits 32 bits. */
  ghost predicate TellsMean(r: uint32, w: Window) {
    forall samples: seq<uint32> :: w == WindowOf(samples) ==>
      (r == Mean(LastTen(samples)) <==> Sum(LastTen(samples)) < WRAP32)
  }

  lemma AverageTellsMean(w: Window)
    ensures TellsMean(Average(w), w)
  {
    hide Sum;
    forall samples: seq<uint32> | w == WindowOf(samples)
      ensures Average(w) == Mean(LastTen(samples)) <==> Sum(LastTen(samples)) < WRAP32
    {
      if samples == [] {
        assert Sum(LastTen(samples)) == 0 by { SumOfNone(); }
      } else {
        AverageExact(samples, 0, WRAP32);
      }
    }
  }

  lemma SumOfNone()
    ensures Sum([]) == 0
  {
  }

  lemma Times(n: nat, x: int, y: int)
    requires x <= y
    ensures n * x <= n * y
  {
  }

  lemma Quotient(a: nat, n: nat)
    requires n > 0
    ensures n * (a / n) <= a < n * (a / n + 1)
  {
  }

  lemma DivisionGrows(a: nat, b: nat, n: nat)
    requires n > 0 && a + n <= b
    ensures a / n < b / n
  {
    Quotient(a, n);
    Quotient(b, n);
    var q, r := a / n, b / n;
    assert n * (q + 1) == n * q + n;
    if r <= q {
      Times(n, r + 1, q + 1);
    }
  }

  lemma DivisionBounds(total: nat, n: nat, low: nat, high: nat)
    requires n > 0 && n * low <= total <= n * high
    ensures low <= total / n <= high
  {
    Quotient(total, n);
    var q := total / n;
    if q < low {
      Times(n, q + 1, low);
    } else if q > high {
      Times(n, high + 1, q);
    }
  }

  // ---------------------------------------------------------------- services and their expiry

  datatype Entry = Entry(
    name: Label, address: uint32, opoznienia: bool, ssh: bool, leaveOpoznienia: nat, leaveSsh: nat,
    udp: Window, tcp: Window, icmp: Window)

  const MICROSECONDS := 1_000_000
  const MIN_UDP_SIZE := 16

  /** The difference of two clock readings in unsigned 64-bit arithmetic. */
  function Elapsed(startTime: uint64, endTime: uint64): uint64 {
    (endTime - startTime) % 0x1_0000_0000_0000_0000
  }

  /** The delay, if the clock has not been set back; otherwise 2^64 less that. */
  lemma ElapsedIs(startTime: uint64, endTime: uint64)
    ensures endTime >= startTime ==> Elapsed(startTime, endTime) == endTime - startTime
    ensures endTime < startTime ==> Elapsed(startTime, endTime) == 0x1_0000_0000_0000_0000 - (startTime - endTime)
  {
  }

  predicate Names(fqdn: seq<Label>, s: Service) {
    |fqdn| == 4 && fqdn[1..] == ServiceName(s)
  }

  /** The full names of a service's instances, and no longer or shorter names. */
  lemma NamesExactly(fqdn: seq<Label>, s: Service)
    requires s == UDP || s == TCP
    ensures Names(fqdn, s) <==> exists name :: fqdn == Fqdn(name, s)
  {
    forall name | fqdn == Fqdn(name, s)
      ensures Names(fqdn, s)
    {
      assert fqdn[1..] == ServiceName(s);
    }
    if Names(fqdn, s) {
      assert fqdn == Fqdn(fqdn[0], s);
    }
  }

  function Fresh(address: uint32, fqdn: seq<Label>): Entry
    requires fqdn != []
  {
    Entry(fqdn[0], address, false, false, 0, 0, EMPTY, EMPTY, EMPTY)
  }

  function Announced(e: Entry, fqdn: seq<Label>, ttl: uint32, now: nat): Entry {
    if Names(fqdn, UDP) then e.(opoznienia := true, leaveOpoznienia := now + ttl * MICROSECONDS)
    else if Names(fqdn, TCP) then e.(ssh := true, leaveSsh := now + ttl * MICROSECONDS)
    else e
  }

  /** Services whose time has come are dropped together with the delays measured through them. */
  function Expired(e: Entry, now: nat): Entry {
    var e1 := if now >= e.leaveOpoznienia then e.(opoznienia := false, udp := EMPTY, icmp := EMPTY) else e;
    if now >= e.leaveSsh then e1.(ssh := false, tcp := EMPTY) else e1
  }

  predicate Alive(e: Entry) {
    e.opoznienia || e.ssh
  }

  // ---------------------------------------------------------------- measurements

  /** A measurement set off: a UDP request carrying its time, an echo request, a connection attempt. */
  datatype Probe =
    | UdpProbe(address: uint32, message: seq<byte>)
    | IcmpProbe(address: uint32)
    | TcpProbe(address: uint32, startTime: uint64)

  /** Delays are measured through a service only while it is marked. */
  function ProbesFor(e: Entry, now: uint64): seq<Probe> {
    (if e.opoznienia then [UdpProbe(e.address, U64(now)), IcmpProbe(e.address)] else []) +
    (if e.ssh then [TcpProbe(e.address, now)] else [])
  }

  /** One request by UDP and one by ICMP for the first service, one connection for ssh; nothing else. */
  lemma ProbesAre(e: Entry, now: uint64, p: Probe)
    ensures p in ProbesFor(e, now) <==>
            || (e.opoznienia && (p == IcmpProbe(e.address) || (p.UdpProbe? && p.address == e.address
                                                               && |p.message| == 8 && Get64(p.message, 0) == now)))
            || (e.ssh && p == TcpProbe(e.address, now))
    ensures |ProbesFor(e, now)| == (if e.opoznienia then 2 else 0) + (if e.ssh then 1 else 0)
  {
    assert U64(now)[0..8] == U64(now);
    Get64Inverts(U64(now), 0, now);
    if p.UdpProbe? && |p.message| == 8 && Get64(p.message, 0) == now {
      SameTime(p.message, U64(now));
    }
    hide U64, Get64;
  }

  /** Eight octets tell one time, and one time has one form in eight octets. */
  lemma SameTime(s: seq<byte>, t: seq<byte>)
    requires |s| == |t| == 8 && Get64(s, 0) == Get64(t, 0)
    ensures s == t
  {
    var a, b, c, d := Get32(s, 0), Get32(t, 0), Get32(s, 4), Get32(t, 4);
    assert a == b && c == d by {
      hide Get32;
      assert a * WRAP32 + c == b * WRAP32 + d;
    }
    SameWord(s, t, 0);
    SameWord(s, t, 4);
    assert forall i :: 0 <= i < 8 ==> s[i] == t[i];
  }

  lemma SameWord(s: seq<byte>, t: seq<byte>, at: nat)
    requires at + 4 <= |s| && at + 4 <= |t| && Get32(s, at) == Get32(t, at)
    ensures s[at] == t[at] && s[at + 1] == t[at + 1] && s[at + 2] == t[at + 2] && s[at + 3] == t[at + 3]
  {
  }

  // ---------------------------------------------------------------- whole lives of an entry

  datatype Kind = Udp | Tcp | Icmp

  /** Delays by UDP and ICMP belong to the first service, connection delays to ssh. */
  function ServiceOf(k: Kind): Service {
    if k == Tcp then TCP else UDP
  }

  function WindowFor(e: Entry, k: Kind): Window {
    match k
    case Udp => e.udp
    case Tcp => e.tcp
    case Icmp => e.icmp
  }

  function Leave(e: Entry, s: Service): nat {
    if s == TCP then e.leaveSsh else e.leaveOpoznienia
  }

  function Measured(e: Entry, k: Kind, res: uint64): Entry {
    match k
    case Udp => e.(udp := Push(e.udp, res))
    case Tcp => e.(tcp := Push(e.tcp, res))
    case Icmp => e.(icmp := Push(e.icmp, res))
  }

  datatype LifeEvent =
    | Renewed(fqdn: seq<Label>, ttl: uint32, at: nat)
    | Check(at: nat)
    | Sample(kind: Kind, res: uint64)

  function LifeStep(e: Entry, ev: LifeEvent): Entry {
    match ev
    case Renewed(fqdn, ttl, at) => Announced(e, fqdn, ttl, at)
    case Check(at) => Expired(e, at)
    case Sample(kind, res) => Measured(e, kind, res)
  }

  function Life(e: Entry, evs: seq<LifeEvent>): Entry {
    if evs == [] then e else LifeStep(Life(e, evs[..|evs| - 1]), evs[|evs| - 1])
  }

  /** When the latest record of a service runs out, as the log of events tells it; 0 without a record. */
  function LatestExpiry(evs: seq<LifeEvent>, s: Service): nat {
    if evs == [] then 0
    else
      var last := evs[|evs| - 1];
      if last.Renewed? && Names(last.fqdn, s) then last.at + last.ttl * MICROSECONDS
      else LatestExpiry(evs[..|evs| - 1], s)
  }

  /** The samples, cut to 32 bits, since the last check that found the service's latest record expired. */
  function SamplesKept(evs: seq<LifeEvent>, k: Kind): seq<uint32> {
    if evs == [] then []
    else
      var last, before := evs[|evs| - 1], evs[..|evs| - 1];
      if last.Sample? && last.kind == k then SamplesKept(before, k) + [last.res % WRAP32]
      else if last.Check? && last.at >= LatestExpiry(before, ServiceOf(k)) then []
      else SamplesKept(before, k)
  }

  /**
   In every life of an entry each window holds the last ten of the samples taken since its service was
   last found expired, and its 32-bit sum is the sum of those modulo 2^32.
   */
  lemma {:induction false} WindowsHoldRecentSamples(address: uint32, fqdn: seq<Label>, evs: seq<LifeEvent>, k: Kind)
    requires fqdn != []
    ensures WindowFor(Life(Fresh(address, fqdn), evs), k) == WindowOf(SamplesKept(evs, k))
    ensures Leave(Life(Fresh(address, fqdn), evs), ServiceOf(k)) == LatestExpiry(evs, ServiceOf(k))
  {
    hide Push, WindowOf, Names, LastTen;
    if evs == [] {
      EmptyWindow();
    } else {
      var before, last := evs[..|evs| - 1], evs[|evs| - 1];
      WindowsHoldRecentSamples(address, fqdn, before, k);
      EmptyWindow();
      match last
      case Renewed(f, _, _) => NamesOneService(f);
      case Check(_) =>
      case Sample(_, res) => PushKeepsWindow(SamplesKept(before, k), res);
    }
  }

  lemma EmptyWindow()
    ensures WindowOf([]) == EMPTY
  {
  }

  lemma NamesOneService(fqdn: seq<Label>)
    ensures !(Names(fqdn, UDP) && Names(fqdn, TCP))
  {
    assert OPOZNIENIA[1] != SSH[1];
    assert ServiceName(UDP)[0] != ServiceName(TCP)[0];
  }

  // ---------------------------------------------------------------- the class

  class Computer {
    const address: uint32
    var name: Label
    var opoznieniaService: bool
    var sshService: bool
    var leaveTimeOpoznienia: nat
    var leaveTimeSsh: nat
    var udpTimes: seq<uint32>
    var tcpTimes: seq<uint32>
    var icmpTimes: seq<uint32>
    var udpSum: uint32
    var tcpSum: uint32
    var icmpSum: uint32

    function Value(): Entry
      reads this
    {
      Entry(name, address, opoznieniaService, sshService, leaveTimeOpoznienia, leaveTimeSsh,
            Window(udpTimes, udpSum), Window(tcpTimes, tcpSum), Window(icmpTimes, icmpSum))
    }

    constructor (address: uint32, fqdn: seq<Label>, ttl: uint32, now: nat)
      requires fqdn != []
      ensures this.address == address
      ensures Value() == Announced(Fresh(address, fqdn), fqdn, ttl, now)
    {
      this.address := address;
      name := fqdn[0];
      opoznieniaService, sshService := false, false;
      leaveTimeOpoznienia, leaveTimeSsh := 0, 0;
      udpTimes, tcpTimes, icmpTimes := [], [], [];
      udpSum, tcpSum, icmpSum := 0, 0, 0;
      new;
      AddService(fqdn, ttl, now);
    }

    method AddService(fqdn: seq<Label>, ttl: uint32, now: nat)
      modifies this
      ensures Value() == Announced(old(Value()), fqdn, ttl, now)
    {
      if |fqdn| == 4 && fqdn[1] == OPOZNIENIA && fqdn[2] == UDP_LABEL && fqdn[3] == LOCAL {
        opoznieniaService := true;
        leaveTimeOpoznienia := now + ttl * MICROSECONDS;
      }
      if |fqdn| == 4 && fqdn[1] == SSH && fqdn[2] == TCP_LABEL && fqdn[3] == LOCAL {
        sshService := true;
        leaveTimeSsh := now + ttl * MICROSECONDS;
      }
    }

    /** Returns whether any service is still valid. */
    method VerifyTtl(now: nat) returns (valid: bool)
      modifies this
      ensures Value() == Expired(old(Value()), now)
      ensures valid == Alive(Value())
    {
      if now >= leaveTimeOpoznienia {
        opoznieniaService := false;
        udpTimes, udpSum := [], 0;
        icmpTimes, icmpSum := [], 0;
      }
      if now >= leaveTimeSsh {
        sshService := false;
        tcpTimes, tcpSum := [], 0;
      }
      valid := opoznieniaService || sshService;
    }

    /** The mean of the last ten delays, unless their sum has wrapped; likewise for the other two. */
    function GetUdpAverage(): (r: uint32)
      reads this
      ensures TellsMean(r, Value().udp)
    {
      AverageTellsMean(Value().udp);
      if |udpTimes| > 0 then udpSum / |udpTimes| else 0
    }

    function GetTcpAverage(): (r: uint32)
      reads this
      ensures TellsMean(r, Value().tcp)
    {
      AverageTellsMean(Value().tcp);
      if |tcpTimes| > 0 then tcpSum / |tcpTimes| else 0
    }

    function GetIcmpAverage(): (r: uint32)
      reads this
      ensures TellsMean(r, Value().icmp)
    {
      AverageTellsMean(Value().icmp);
      if |icmpTimes| > 0 then icmpSum / |icmpTimes| else 0
    }

    method NotifyIcmp(res: uint64)
      modifies this
      ensures Value() == old(Value()).(icmp := Push(old(Value()).icmp, res))
    {
      icmpTimes := icmpTimes + [res % WRAP32];
      icmpSum := (icmpSum + res) % WRAP32;
      if |icmpTimes| > 10 {
        icmpSum := (icmpSum - icmpTimes[0]) % WRAP32;
        icmpTimes := icmpTimes[1..];
      }
    }

    /** The message is the time of sending, in eight big-endian octets. */
    method MeasureUdp(now: uint64) returns (message: seq<byte>)
      ensures message == U64(now)
    {
      message := U64(now);
    }

    /** Starts the measurements of the marked services. */
    method Measure(now: uint64) returns (probes: seq<Probe>)
      ensures probes == ProbesFor(Value(), now)
    {
      probes := [];
      if opoznieniaService {
        var message := MeasureUdp(now);
        probes := [UdpProbe(address, message), IcmpProbe(address)];
      }
      if sshService {
        probes := probes + [TcpProbe(address, now)];
      }
    }

    /**
     A measurement reply of `size` bytes, which starts with the eight octets of the request; too short,
     too long or failed receptions are dropped.
     */
    method HandleReceiveUdp(error: bool, b: seq<byte>, size: nat, endTime: uint64)
      requires 8 <= |b|
      modifies this
      ensures Value() == if error || size > 1500 || size < 16 then old(Value())
                         else old(Value()).(udp := Push(old(Value()).udp, Elapsed(Get64(b, 0), endTime)))
    {
      if error || size > BUFFER_SIZE || size < MIN_UDP_SIZE {
        return;
      }
      var res := Elapsed(Get64(b, 0), endTime);
      udpTimes := udpTimes + [res % WRAP32];
      udpSum := (udpSum + res) % WRAP32;
      if |udpTimes| > 10 {
        udpSum := (udpSum - udpTimes[0]) % WRAP32;
        udpTimes := udpTimes[1..];
      }
    }

    method HandleConnectTcp(error: bool, startTime: uint64, endTime: uint64)
      modifies this
      ensures Value() == if error then old(Value())
                         else old(Value()).(tcp := Push(old(Value()).tcp, Elapsed(startTime, endTime)))
    {
      if error {
        return;
      }
      var res := Elapsed(startTime, endTime);
      tcpTimes := tcpTimes + [res % WRAP32];
      tcpSum := (tcpSum + res) % WRAP32;
      if |tcpTimes| > 10 {
        tcpSum := (tcpSum - tcpTimes[0]) % WRAP32;
        tcpTimes := tcpTimes[1..];
      }
    }
  }
}
