/**
 The table of discovered hosts, keyed by address: insertion on A records (mdns_server.cc) and the
 sweep that drops expired entries while it walks the table (measurement_server.h).
 */
module ComputerCache {
  import opened Shared
  import opened Computers

  type Cache = map<uint32, Entry>

  // ---------------------------------------------------------------- the table as a value

  function Insert(cache: Cache, address: uint32, qname: seq<Label>, ttl: uint32, now: nat): Cache {
    if address in cache then cache[address := Announced(cache[address], qname, ttl, now)]
    else if qname == [] then cache
    else cache[address := Announced(Fresh(address, qname), qname, ttl, now)]
  }

  /** The clock as a sweep read it at each entry that it has come to. */
  type Readings = map<uint32, uint64>

  /** Entries that have been come to are checked, and dropped if no service of theirs is valid. */
  function Sweep(cache: Cache, readings: Readings): Cache {
    map a | a in cache && (a in readings ==> Alive(Expired(cache[a], readings[a]))) ::
      if a in readings then Expired(cache[a], readings[a]) else cache[a]
  }

  /** One entry dealt with. */
  function SweptAt(cache: Cache, it: uint32, now: nat): Cache
    requires it in cache
  {
    var e := Expired(cache[it], now);
    if Alive(e) then cache[it := e] else cache - {it}
  }

  lemma SweepOne(cache: Cache, readings: Readings, it: uint32, now: uint64)
    requires it in cache && it !in readings
    ensures it in Sweep(cache, readings) && Sweep(cache, readings)[it] == cache[it]
    ensures Sweep(cache, readings[it := now]) == SweptAt(Sweep(cache, readings), it, now)
  {
    hide Alive, Expired;
  }

  lemma SweepOfNone(cache: Cache)
    ensures Sweep(cache, map[]) == cache
  {
  }

  // ---------------------------------------------------------------- walking the table

  /** Where an iterator starts on these keys: `begin()`. */
  function Least(keys: set<uint32>): (r: Option<uint32>)
    ensures r.None? <==> keys == {}
    ensures r.Some? ==> r.value in keys && forall a :: a in keys ==> r.value <= a
  {
    if keys == {} then None
    else
      assert exists a :: a in keys && forall b :: b in keys ==> a <= b by {
        var some :| some in keys;
        LeastExists(keys, some);
      }
      var a :| a in keys && forall b :: b in keys ==> a <= b;
      Some(a)
  }

  lemma {:induction false} LeastExists(keys: set<uint32>, some: uint32)
    requires some in keys
    ensures exists a :: a in keys && forall b :: b in keys ==> a <= b
    decreases some
  {
    if b :| b in keys && b < some {
      LeastExists(keys, b);
    }
  }

  /** What `it++` still has before it. */
  function Ahead(keys: set<uint32>, from: nat): set<uint32> {
    set a | a in keys && a >= from
  }

  function KeysFrom(keys: set<uint32>, from: nat): seq<uint32>
    decreases WRAP32 - from
  {
    match Least(Ahead(keys, from))
    case None => []
    case Some(a) => [a] + KeysFrom(keys, a + 1)
  }

  /** A walk visits the keys in ascending order, every one of them once. */
  lemma {:induction false} WalkVisitsOnce(keys: set<uint32>, from: nat)
    ensures forall a :: a in KeysFrom(keys, from) <==> a in keys && a >= from
    ensures forall i, j :: 0 <= i < j < |KeysFrom(keys, from)| ==> KeysFrom(keys, from)[i] < KeysFrom(keys, from)[j]
    decreases 0x1_0000_0000 - from
  {
    hide *;
    if Least(Ahead(keys, from)).Some? {
      StopIsNext(keys, from, Least(Ahead(keys, from)).value);
      WalkGoesOn(keys, from);
      var first := Least(Ahead(keys, from)).value as nat;
      WalkVisitsOnce(keys, first + 1);
      WalkJoins(keys, from, first, KeysFrom(keys, first + 1), KeysFrom(keys, from));
    } else {
      WalkEnds(keys, from);
    }
  }

  lemma WalkEnds(keys: set<uint32>, from: nat)
    requires Least(Ahead(keys, from)) == None
    ensures KeysFrom(keys, from) == [] && forall a :: a in keys ==> a < from
  {
    hide Least;
    assert forall a :: a in keys && a >= from ==> a in Ahead(keys, from);
  }

  lemma WalkJoins(keys: set<uint32>, from: nat, first: uint32, rest: seq<uint32>, all: seq<uint32>)
    requires first in keys && from <= first && forall a :: a in keys && from <= a ==> first <= a
    requires all == [first] + rest && forall a :: a in rest <==> a in keys && a >= first as int + 1
    requires forall i, j :: 0 <= i < j < |rest| ==> rest[i] < rest[j]
    ensures forall a :: a in all <==> a in keys && a >= from
    ensures forall i, j :: 0 <= i < j < |all| ==> all[i] < all[j]
  {
    assert forall a :: a in all <==> a == first || a in rest;
    assert forall i :: 0 < i < |all| ==> all[i] == rest[i - 1] && all[i] in rest;
  }

  lemma WalkGoesOn(keys: set<uint32>, from: nat)
    requires Least(Ahead(keys, from)).Some?
    ensures var it := Least(Ahead(keys, from)).value; KeysFrom(keys, from) == [it] + KeysFrom(keys, it as int + 1)
  {
    hide Least, Ahead;
  }

  /** The readings at the stops of a walk, taken in turn. */
  function ReadAt(visited: seq<uint32>, times: seq<uint64>): Readings
    requires |visited| <= |times|
  {
    if visited == [] then map[]
    else
      var n := |visited| - 1;
      ReadAt(visited[..n], times)[visited[n] := times[n]]
  }

  /** Each stop has its own reading. */
  lemma {:induction false} ReadAtEach(visited: seq<uint32>, times: seq<uint64>, k: nat)
    requires k < |visited| <= |times|
    requires forall i, j :: 0 <= i < j < |visited| ==> visited[i] < visited[j]
    ensures visited[k] in ReadAt(visited, times) && ReadAt(visited, times)[visited[k]] == times[k]
    decreases |visited|
  {
    if k < |visited| - 1 {
      ReadAtEach(visited[..|visited| - 1], times, k);
    }
  }

  /** The measurements a sweep sets off, in the order of its walk. */
  function ProbesAlong(cache: Cache, visited: seq<uint32>, readings: Readings): seq<Probe> {
    if visited == [] then []
    else
      var before, last := ProbesAlong(cache, visited[..|visited| - 1], readings), visited[|visited| - 1];
      if last in cache && last in readings then before + ProbesFor(Expired(cache[last], readings[last]), readings[last])
      else before
  }

  /** The measurements of later stops come later. */
  lemma {:induction false} ProbesInOrder(cache: Cache, xs: seq<uint32>, ys: seq<uint32>, readings: Readings)
    ensures ProbesAlong(cache, xs + ys, readings) == ProbesAlong(cache, xs, readings) + ProbesAlong(cache, ys, readings)
    decreases |ys|
  {
    hide ProbesFor, Expired;
    if ys == [] {
      assert xs + ys == xs;
    } else {
      ProbesInOrder(cache, xs, ys[..|ys| - 1], readings);
      assert (xs + ys)[..|xs + ys| - 1] == xs + ys[..|ys| - 1];
    }
  }

  lemma NoneMarked(e: Entry, now: uint64)
    ensures !Alive(e) ==> ProbesFor(e, now) == []
  {
  }

  /** The sweep of `was` has dealt with all keys below `from`; the iterator is at the next one. */
  ghost predicate Midway(was: Cache, times: seq<uint64>, from: nat, cache: Cache, it: Option<uint32>,
                         visited: seq<uint32>, probes: seq<Probe>)
  {
    && |visited| + |KeysFrom(was.Keys, from)| <= |times|
    && KeysFrom(was.Keys, 0) == visited + KeysFrom(was.Keys, from) && it == Least(Ahead(was.Keys, from))
    && (forall a :: a in visited <==> a in was && a < from)
    && cache == Sweep(was, ReadAt(visited, times))
    && probes == ProbesAlong(was, visited, ReadAt(visited, times))
  }

  lemma MidwayStarts(was: Cache, times: seq<uint64>)
    requires |KeysFrom(was.Keys, 0)| <= |times|
    ensures Midway(was, times, 0, was, Least(was.Keys), [], [])
  {
    assert Ahead(was.Keys, 0) == was.Keys;
    hide Least, KeysFrom, Sweep;
    SweepOfNone(was);
  }

  lemma {:induction false} ReadAtKeys(visited: seq<uint32>, times: seq<uint64>)
    requires |visited| <= |times|
    ensures forall a :: a in ReadAt(visited, times) <==> a in visited
  {
    if visited != [] {
      ReadAtKeys(visited[..|visited| - 1], times);
    }
  }

  lemma ReadAtNext(visited: seq<uint32>, it: uint32, times: seq<uint64>)
    requires |visited| < |times|
    ensures ReadAt(visited + [it], times) == ReadAt(visited, times)[it := times[|visited|]]
  {
    assert (visited + [it])[..|visited|] == visited;
  }

  /** A reading at an entry not visited before does not change what has been measured. */
  lemma {:induction false} ProbesKept(cache: Cache, visited: seq<uint32>, readings: Readings, it: uint32, now: uint64)
    requires it !in visited
    ensures ProbesAlong(cache, visited, readings[it := now]) == ProbesAlong(cache, visited, readings)
    decreases |visited|
  {
    if visited != [] {
      hide Expired, ProbesFor;
      ProbesKept(cache, visited[..|visited| - 1], readings, it, now);
    }
  }

  lemma ProbesNext(cache: Cache, visited: seq<uint32>, readings: Readings, it: uint32, now: uint64)
    requires it in cache && it !in visited
    ensures ProbesAlong(cache, visited + [it], readings[it := now])
         == ProbesAlong(cache, visited, readings) + ProbesFor(Expired(cache[it], now), now)
  {
    ProbesKept(cache, visited, readings, it, now);
    hide Expired, ProbesFor;
    assert (visited + [it])[..|visited|] == visited;
  }

  lemma StopIsNext(keys: set<uint32>, from: nat, it: uint32)
    requires Least(Ahead(keys, from)) == Some(it)
    ensures it in keys && from <= it && forall a :: a in keys && from <= a ==> it <= a
  {
    hide Least;
    assert it in Ahead(keys, from);
    assert forall a :: a in keys && from <= a ==> a in Ahead(keys, from);
  }

  /** The walk goes the same way on the table as it has become. */
  lemma AheadOfStop(was: Cache, readings: Readings, from: nat, it: uint32)
    requires from <= it && forall a :: a in readings ==> a < from
    ensures Ahead(Sweep(was, readings).Keys, it + 1) == Ahead(was.Keys, it + 1)
  {
    hide Alive, Expired;
  }

  /** One stop of the walk. */
  lemma MidwayStep(was: Cache, times: seq<uint64>, from: nat, cache: Cache, it: uint32,
                   visited: seq<uint32>, probes: seq<Probe>)
    requires Midway(was, times, from, cache, Some(it), visited, probes)
    ensures it in cache && from <= it && |visited| < |times|
    ensures var now := times[|visited|];
            Midway(was, times, it + 1, SweptAt(cache, it, now), Least(Ahead(cache.Keys, it + 1)), visited + [it],
                   probes + ProbesFor(Expired(cache[it], now), now))
  {
    hide Alive, Expired, Least, ProbesFor, Ahead, KeysFrom, Sweep, SweptAt, ProbesAlong, ReadAt;
    StopIsNext(was.Keys, from, it);
    WalkGoesOn(was.Keys, from);
    ReadAtKeys(visited, times);
    AheadOfStop(was, ReadAt(visited, times), from, it);
    ReadAtNext(visited, it, times);
    SweepOne(was, ReadAt(visited, times), it, times[|visited|]);
    ProbesNext(was, visited, ReadAt(visited, times), it, times[|visited|]);
  }

  lemma MidwayEnds(was: Cache, times: seq<uint64>, from: nat, cache: Cache, visited: seq<uint32>, probes: seq<Probe>)
    requires Midway(was, times, from, cache, None, visited, probes)
    ensures visited == KeysFrom(was.Keys, 0) && |visited| <= |times|
    ensures cache == Sweep(was, ReadAt(visited, times)) && probes == ProbesAlong(was, visited, ReadAt(visited, times))
  {
    assert KeysFrom(was.Keys, from) == [];
  }

  /** A sweep measures exactly what the swept table still lists, at the time it came to it. */
  lemma {:induction false} SweepMeasuresListed(cache: Cache, visited: seq<uint32>, readings: Readings, p: Probe)
    requires forall a :: a in visited ==> a in readings
    ensures p in ProbesAlong(cache, visited, readings) <==>
            var swept := Sweep(cache, readings);
            exists a :: a in visited && a in swept && p in ProbesFor(swept[a], readings[a])
    decreases |visited|
  {
    hide Expired, ProbesFor, Alive;
    if visited != [] {
      var init, last := visited[..|visited| - 1], visited[|visited| - 1];
      assert forall a :: a in visited <==> a in init || a == last;
      SweepMeasuresListed(cache, init, readings, p);
      assert last in visited;
      if last in cache {
        NoneMarked(Expired(cache[last], readings[last]), readings[last]);
        var swept := Sweep(cache, readings);
        assert last in swept ==> swept[last] == Expired(cache[last], readings[last]);
      }
    }
  }

  // ---------------------------------------------------------------- the table against a log of what was received

  datatype CacheEvent =
    | Received(address: uint32, qname: seq<Label>, ttl: uint32, at: nat)
    | Swept(readings: Readings, at: nat)

  function CacheStep(cache: Cache, ev: CacheEvent): Cache {
    match ev
    case Received(address, qname, ttl, at) => Insert(cache, address, qname, ttl, at)
    case Swept(readings, _) => Sweep(cache, readings)
  }

  function CacheAfter(log: seq<CacheEvent>): Cache {
    if log == [] then map[] else CacheStep(CacheAfter(log[..|log| - 1]), log[|log| - 1])
  }

  function Clock(log: seq<CacheEvent>): nat {
    if log == [] then 0 else log[|log| - 1].at
  }

  /** The clock never runs backwards; a sweep reads it between its beginning and its end. */
  predicate Chronological(log: seq<CacheEvent>) {
    log == [] || (Chronological(log[..|log| - 1]) && InOrder(Clock(log[..|log| - 1]), log[|log| - 1]))
  }

  predicate InOrder(now: nat, ev: CacheEvent) {
    now <= ev.at && (ev.Swept? ==> forall a :: a in ev.readings ==> now <= ev.readings[a] <= ev.at)
  }

  /** Each entry has the address under which it is listed, so that is where its measurements go. */
  lemma {:induction false} FiledUnderAddress(log: seq<CacheEvent>, address: uint32, now: uint64, p: Probe)
    ensures address in CacheAfter(log) ==> CacheAfter(log)[address].address == address
    ensures address in CacheAfter(log) && p in ProbesFor(CacheAfter(log)[address], now) ==> p.address == address
    decreases |log|
  {
    if log != [] {
      var before, last := log[..|log| - 1], log[|log| - 1];
      FiledUnderAddress(before, address, now, p);
      hide Names;
    }
  }

  /** When the latest record received for a service of an address expires; 0 without a record. */
  function Expiry(log: seq<CacheEvent>, address: uint32, s: Service): nat {
    if log == [] then 0
    else
      var last := log[|log| - 1];
      if last.Received? && last.address == address && Names(last.qname, s) then last.at + last.ttl * MICROSECONDS
      else Expiry(log[..|log| - 1], address, s)
  }

  predicate Offers(e: Entry, s: Service) {
    if s == TCP then e.ssh else s == UDP && e.opoznienia
  }

  /** A service that is marked has the leave time of its latest record; an unexpired record is marked. */
  predicate Tracks(log: seq<CacheEvent>, cache: Cache, address: uint32, s: Service) {
    && (address in cache && Offers(cache[address], s) ==> Leave(cache[address], s) == Expiry(log, address, s))
    && (Expiry(log, address, s) > Clock(log) ==> address in cache && Offers(cache[address], s))
  }

  lemma AnnouncedService(e: Entry, qname: seq<Label>, ttl: uint32, now: nat, s: Service)
    requires s != NONE
    ensures var f := Announced(e, qname, ttl, now);
            && Offers(f, s) == (Names(qname, s) || Offers(e, s))
            && Leave(f, s) == if Names(qname, s) then now + ttl * MICROSECONDS else Leave(e, s)
  {
    NamesOneService(qname);
    hide Names;
  }

  lemma ExpiredService(e: Entry, now: nat, s: Service)
    requires s != NONE
    ensures var f := Expired(e, now);
            Leave(f, s) == Leave(e, s) && Offers(f, s) == (Offers(e, s) && now < Leave(e, s))
  {
  }

  lemma {:induction false} CacheTracksLog(log: seq<CacheEvent>, address: uint32, s: Service)
    requires Chronological(log) && s != NONE
    ensures Tracks(log, CacheAfter(log), address, s)
  {
    hide Announced, Expired, Names, Alive;
    if log != [] {
      var before, last := log[..|log| - 1], log[|log| - 1];
      var cache := CacheAfter(before);
      CacheTracksLog(before, address, s);
      match last
      case Received(a, qname, ttl, at) =>
        if a == address && (a in cache || qname != []) {
          AnnouncedService(if a in cache then cache[a] else Fresh(a, qname), qname, ttl, at, s);
        } else if a == address {
          NoNameNoService(s);
        }
      case Swept(readings, _) =>
        if address in cache && address in readings {
          ExpiredService(cache[address], readings[address], s);
          AliveOffers(Expired(cache[address], readings[address]));
        }
    }
  }

  lemma NoNameNoService(s: Service)
    ensures !Names([], s)
  {
  }

  lemma AliveOffers(e: Entry)
    ensures Alive(e) <==> Offers(e, UDP) || Offers(e, TCP)
  {
  }

  /** When the sweep came to the address, or would have; it came to all that were listed. */
  function Looked(readings: Readings, at: nat, address: uint32): nat {
    if address in readings then readings[address] else at
  }

  /**
   With a clock that does not run backwards, after each sweep the table lists exactly the addresses
   whose latest record of some service was valid when it came to them, and marks exactly those services.
   */
  lemma {:induction false} SweptCacheIsExact(log: seq<CacheEvent>, readings: Readings, at: nat, address: uint32)
    requires Chronological(log + [Swept(readings, at)]) && CacheAfter(log).Keys <= readings.Keys
    ensures var cache, now := CacheAfter(log + [Swept(readings, at)]), Looked(readings, at, address);
            && (address in cache <==> Expiry(log, address, UDP) > now || Expiry(log, address, TCP) > now)
            && (address in cache ==> cache[address].opoznienia == (Expiry(log, address, UDP) > now))
            && (address in cache ==> cache[address].ssh == (Expiry(log, address, TCP) > now))
  {
    var cache := CacheAfter(log);
    assert (log + [Swept(readings, at)])[..|log|] == log;
    assert CacheAfter(log + [Swept(readings, at)]) == Sweep(cache, readings);
    CacheTracksLog(log, address, UDP);
    CacheTracksLog(log, address, TCP);
    hide CacheAfter, Expired, Alive, Expiry;
    if address in cache {
      assert address in readings;
      ExpiredService(cache[address], readings[address], UDP);
      ExpiredService(cache[address], readings[address], TCP);
      AliveOffers(Expired(cache[address], readings[address]));
    }
  }

  // ---------------------------------------------------------------- the class

  class ComputerTable {
    var computers: map<uint32, Computer>

    /** Every object is filed under its own address, so distinct keys have distinct objects. */
    ghost predicate Valid()
      reads this
    {
      forall a :: a in computers ==> computers[a].address == a
    }

    function Value(): Cache
      reads this, computers.Values
    {
      map a | a in computers :: computers[a].Value()
    }

    constructor ()
      ensures Valid() && computers == map[]
    {
      computers := map[];
    }

    /** An address record: a new computer, or another service of a known one. */
    method Receive(address: uint32, qname: seq<Label>, ttl: uint32, now: nat)
      requires Valid() && (address !in computers ==> qname != [])
      modifies this, computers.Values
      ensures Valid() && fresh(computers.Values - old(computers.Values))
      ensures Value() == Insert(old(Value()), address, qname, ttl, now)
    {
      hide Announced, Computer.Value;
      if address !in computers {
        var comp := new Computer(address, qname, ttl, now);
        computers := computers[address := comp];
      } else {
        computers[address].AddService(qname, ttl, now);
      }
    }

    /**
     One stop of the sweep: the entry stays and is measured, or is erased. The iterator moves on before
     the entry it points to is erased.
     */
    method MeasureOne(it: uint32, now: uint64) returns (next: Option<uint32>, probes: seq<Probe>)
      requires Valid() && it in computers
      modifies this, computers.Values
      ensures Valid() && computers.Values <= old(computers.Values)
      ensures var before := old(Value());
              && Value() == SweptAt(before, it, now) && probes == ProbesFor(Expired(before[it], now), now)
              && next == Least(Ahead(before.Keys, it + 1))
    {
      ValueKeys();
      hide Alive, Expired, ProbesFor, Computer.Value, Least, Ahead;
      probes := [];
      var valid := computers[it].VerifyTtl(now);
      next := Least(Ahead(computers.Keys, it + 1));
      if valid {
        probes := computers[it].Measure(now);
      } else {
        NoneMarked(computers[it].Value(), now);
        computers := computers - {it};
      }
    }

    /**
     Walks the table in the order of addresses, erasing entries whose services have all expired. The clock
     is read at every stop.
     */
    method Measure(times: seq<uint64>) returns (visited: seq<uint32>, probes: seq<Probe>)
      requires Valid() && |KeysFrom(computers.Keys, 0)| <= |times|
      modifies this, computers.Values
      ensures Valid() && computers.Values <= old(computers.Values)
      ensures visited == KeysFrom(old(computers.Keys), 0) && |visited| <= |times|
      ensures Value() == Sweep(old(Value()), ReadAt(visited, times))
      ensures probes == ProbesAlong(old(Value()), visited, ReadAt(visited, times))
    {
      ghost var was, from: nat := Value(), 0;
      ghost var cache := was;
      visited, probes := [], [];
      var it := Least(computers.Keys);
      assert computers.Keys == was.Keys by { ValueKeys(); }
      MidwayStarts(was, times);
      hide *;
      while it.Some?
        invariant Valid() && computers.Values <= old(computers.Values) && Value() == cache
        invariant Midway(was, times, from, cache, it, visited, probes)
        decreases WRAP32 - from
      {
        var stop, more := it.value, [];
        MidwayStep(was, times, from, cache, stop, visited, probes);
        assert stop in computers by { ValueKeys(); }
        var now := times[|visited|];
        it, more := MeasureOne(stop, now);
        visited, probes := visited + [stop], probes + more;
        from, cache := stop as int + 1, SweptAt(cache, stop, now);
      }
      MidwayEnds(was, times, from, cache, visited, probes);
    }

    lemma ValueKeys()
      ensures Value().Keys == computers.Keys
    {
    }
  }

  /** The periodic sweep (measurement_server.h). */
  class MeasurementServer {
    const table: ComputerTable
    const measurementTime: uint32
    var wakesAfter: Option<uint32>  // seconds until the next sweep

    constructor (table: ComputerTable, measurementTime: uint32, times: seq<uint64>)
      requires table.Valid() && |KeysFrom(table.computers.Keys, 0)| <= |times|
      modifies table, table.computers.Values
      ensures this.table == table && this.measurementTime == measurementTime && wakesAfter == Some(measurementTime)
      ensures table.Valid()
      ensures var keys := KeysFrom(old(table.computers.Keys), 0);
              |keys| <= |times| && table.Value() == Sweep(old(table.Value()), ReadAt(keys, times))
    {
      hide Sweep, KeysFrom, Least, Ahead, ReadAt, ProbesAlong;
      this.table, this.measurementTime, wakesAfter := table, measurementTime, None;
      new;
      var probes := Measure(times);
    }

    /** Sweeps the table, sets off the measurements, and arms the timer for the next time. */
    method Measure(times: seq<uint64>) returns (probes: seq<Probe>)
      requires table.Valid() && |KeysFrom(table.computers.Keys, 0)| <= |times|
      modifies this`wakesAfter, table, table.computers.Values
      ensures table.Valid() && wakesAfter == Some(measurementTime)
      ensures var keys := KeysFrom(old(table.computers.Keys), 0);
              && |keys| <= |times| && table.Value() == Sweep(old(table.Value()), ReadAt(keys, times))
              && probes == ProbesAlong(old(table.Value()), keys, ReadAt(keys, times))
    {
      hide *;
      var visited;
      visited, probes := table.Measure(times);
      wakesAfter := Some(measurementTime);
    }
  }
}
