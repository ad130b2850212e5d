/** Echo requests and the map of outstanding ones (icmp_client.cc). */
module IcmpClient {
  import opened Shared
  import opened MdnsFields
  import opened Computers
  import opened ComputerCache
  import opened IcmpChecksum

  // ---------------------------------------------------------------- the map as a value

  datatype Requests = Requests(sequence: uint16, starts: map<uint16, uint64>)

  const NOTHING_SENT := Requests(0, map[])

  function NextNumber(sequence: uint16): uint16 {
    (sequence + 1) % 0x1_0000
  }

  /** `map::insert` keeps the start time of a request with the same number that is still outstanding. */
  function Request(r: Requests, now: uint64): Requests {
    var n := NextNumber(r.sequence);
    Requests(n, if n in r.starts then r.starts else r.starts[n := now])
  }

  function Answer(r: Requests, n: uint16): Requests {
    r.(starts := r.starts - {n})
  }

  // ---------------------------------------------------------------- the map against a log

  /** A request goes out; or an echo reply for this program's identifier comes in. */
  datatype IcmpEvent = Sent(at: uint64) | Answered(number: uint16)

  function After(log: seq<IcmpEvent>): Requests {
    if log == [] then NOTHING_SENT
    else
      var before, last := After(log[..|log| - 1]), log[|log| - 1];
      match last
      case Sent(at) => Request(before, at)
      case Answered(n) => Answer(before, n)
  }

  function SentCount(log: seq<IcmpEvent>): nat {
    if log == [] then 0 else SentCount(log[..|log| - 1]) + (if log[|log| - 1].Sent? then 1 else 0)
  }

  /** The request at position `j` of the log carries number `n`: requests count up from 1 modulo 2^16. */
  predicate IsRequest(log: seq<IcmpEvent>, j: nat, n: uint16) {
    j < |log| && log[j].Sent? && SentCount(log[..j + 1]) % 0x1_0000 == n
  }

  /** It has had no reply to its number since. */
  predicate Open(log: seq<IcmpEvent>, j: nat, n: uint16) {
    IsRequest(log, j, n) && forall k :: j < k < |log| ==> log[k] != Answered(n)
  }

  predicate EarliestOpen(log: seq<IcmpEvent>, j: nat, n: uint16) {
    Open(log, j, n) && forall i :: Open(log, i, n) ==> j <= i
  }

  lemma {:induction false} SequenceCounts(log: seq<IcmpEvent>)
    ensures After(log).sequence == SentCount(log) % 0x1_0000
  {
    if log != [] {
      SequenceCounts(log[..|log| - 1]);
    }
  }

  lemma OpenBefore(log: seq<IcmpEvent>, ev: IcmpEvent, n: uint16)
    ensures forall j: nat :: j < |log| ==> (Open(log + [ev], j, n) <==> Open(log, j, n) && ev != Answered(n))
    ensures Open(log + [ev], |log|, n) <==> ev.Sent? && SentCount(log + [ev]) % 0x1_0000 == n
  {
    var all := log + [ev];
    hide SentCount;
    assert all[..|log| + 1] == all;
    forall j: nat | j < |log|
      ensures Open(all, j, n) <==> Open(log, j, n) && ev != Answered(n)
    {
      assert all[..j + 1] == log[..j + 1];
      assert all[j] == log[j];
      if Open(all, j, n) {
        assert forall k :: j < k < |log| ==> log[k] == all[k];
        assert all[|log|] == ev;
      }
    }
  }

  /**
   Over every log, wrap-around of the 16-bit numbers included: a number is outstanding exactly when some
   request that carried it has had no reply since, and its start time is that of the earliest such request.
   */
  lemma {:induction false} StartsAreEarliestOpen(log: seq<IcmpEvent>, n: uint16)
    ensures n in After(log).starts <==> exists j: nat :: Open(log, j, n)
    ensures n in After(log).starts ==>
              exists j: nat :: EarliestOpen(log, j, n) && After(log).starts[n] == log[j].at
  {
    if log != [] {
      var before, last := log[..|log| - 1], log[|log| - 1];
      assert log == before + [last];
      StartsAreEarliestOpen(before, n);
      OpenBefore(before, last, n);
      SequenceCounts(log);
      hide Open, SentCount;
      OpenInLog(log, n);
      OpenInLog(before, n);
      if exists j: nat :: EarliestOpen(before, j, n) {
        var j: nat :| EarliestOpen(before, j, n) && After(before).starts[n] == before[j].at;
        if last != Answered(n) {
          assert Open(log, j, n);
          assert EarliestOpen(log, j, n);
        }
      } else if Open(log, |before|, n) {
        assert EarliestOpen(log, |before|, n);
      }
    }
  }

  lemma OpenInLog(log: seq<IcmpEvent>, n: uint16)
    ensures forall j: nat :: Open(log, j, n) ==> j < |log| && log[j].Sent?
  {
  }

  function RequestsOf(log: seq<IcmpEvent>, n: uint16): nat {
    if log == [] then 0
    else RequestsOf(log[..|log| - 1], n) + (if log[|log| - 1].Sent? && SentCount(log) % 0x1_0000 == n then 1 else 0)
  }

  /** Replies that found their number outstanding, and so gave a sample. */
  function AcceptedOf(log: seq<IcmpEvent>, n: uint16): nat {
    if log == [] then 0
    else AcceptedOf(log[..|log| - 1], n) +
         (if log[|log| - 1] == Answered(n) && n in After(log[..|log| - 1]).starts then 1 else 0)
  }

  /** For no number do accepted replies outnumber requests; an outstanding request leaves one to spare. */
  lemma {:induction false} RepliesNeverOutnumber(log: seq<IcmpEvent>, n: uint16)
    ensures AcceptedOf(log, n) + (if n in After(log).starts then 1 else 0) <= RequestsOf(log, n)
  {
    if log != [] {
      RepliesNeverOutnumber(log[..|log| - 1], n);
      SequenceCounts(log);
    }
  }

  // ---------------------------------------------------------------- the class

  const ICMP_ID: uint16 := 0x13
  const ECHO_REPLY: byte := 0
  const ECHO_REQUEST: byte := 8
  const ICMP_PROTOCOL: byte := 1

  /** The body of every request: the index and group numbers as a string stream extracts them. */
  const BODY: seq<byte> := [0x34, 0x71, 0x71, 5]

  /** The number of the outstanding request that a received ICMP message answers, if it answers one. */
  function Match(r: Requests, protocol: byte, message: seq<byte>): Option<uint16> {
    if protocol == ICMP_PROTOCOL && |message| >= 8 && message[0] == ECHO_REPLY && Get16(message, 4) == ICMP_ID
       && Get16(message, 6) in r.starts
    then Some(Get16(message, 6)) else None
  }

  /** A message answers request `n` if it is an echo reply, type 0, with identifier 0x13, and `n` is outstanding. */
  lemma MatchExactly(r: Requests, protocol: byte, message: seq<byte>, n: uint16)
    ensures Match(r, protocol, message) == Some(n) <==>
            && protocol == 1 && |message| >= 8 && message[0] == 0 && message[4] == 0 && message[5] == 0x13
            && message[6] as int * 256 + message[7] as int == n && n in r.starts
  {
  }

  /** The packet of a request, come back as a reply: its type is 0, and its checksum may be anything. */
  predicate IsReplyTo(message: seq<byte>, packet: seq<byte>)
    requires |packet| == 12
  {
    |message| == 12 && message[0] == 0 && message[1] == packet[1] && message[4..] == packet[4..]
  }

  /** A request's reply answers that request and no other; the request itself, looped back, answers none. */
  lemma RepliesMatch(r: Requests, packet: seq<byte>, message: seq<byte>)
    requires |packet| == 12 && packet[0] == 8 && Get16(packet, 4) == ICMP_ID && Get16(packet, 6) in r.starts
    requires IsReplyTo(message, packet)
    ensures Match(r, 1, message) == Some(Get16(packet, 6)) && Match(r, 1, packet) == None
  {
    assert forall i :: 4 <= i < 8 ==> message[i] == message[4..][i - 4] && packet[i] == packet[4..][i - 4];
  }

  lemma WordsOfHeader(b: seq<byte>, body: seq<byte>)
    requires |b| == 8
    ensures Words(b + body) == [Get16(b, 0), Get16(b, 2), Get16(b, 4), Get16(b, 6)] + Words(body)
  {
    WordsPair(b, 0, body);
    WordsPair(b, 2, body);
    WordsPair(b, 4, body);
    WordsPair(b, 6, body);
    assert b[0..] + body == b + body && b[8..] + body == body;
    hide Words;
    var w0, w1, w2, w3 := Get16(b, 0), Get16(b, 2), Get16(b, 4), Get16(b, 6);
    assert [w0] + ([w1] + ([w2] + ([w3] + Words(body)))) == [w0, w1, w2, w3] + Words(body);
  }

  lemma WordsPair(b: seq<byte>, i: nat, body: seq<byte>)
    requires i + 2 <= |b|
    ensures Words(b[i..] + body) == [Get16(b, i)] + Words(b[i + 2..] + body)
  {
    var s := b[i..] + body;
    assert s[2..] == b[i + 2..] + body;
    assert s[0] == b[i] && s[1] == b[i + 1];
  }

  class IcmpClient {
    var icmpStartTimes: map<uint16, uint64>
    var sequenceNumber: uint16

    function Value(): Requests
      reads this
    {
      Requests(sequenceNumber, icmpStartTimes)
    }

    constructor ()
      ensures Value() == NOTHING_SENT
    {
      icmpStartTimes, sequenceNumber := map[], 0;
    }

    /** The request that goes out carries the next number and a checksum that verifies. */
    method Measure(now: uint64) returns (packet: seq<byte>)
      modifies this
      ensures Value() == Request(old(Value()), now)
      ensures |packet| == 12 && packet[0] == 8 && packet[1] == 0 && packet[8..] == [0x34, 0x71, 0x71, 5]
      ensures Get16(packet, 4) == ICMP_ID && Get16(packet, 6) == Value().sequence
      ensures Verifies(Words(packet))
      ensures Match(Value(), 1, packet) == None
      ensures forall m :: IsReplyTo(m, packet) ==> Match(Value(), 1, m) == Some(Value().sequence)
    {
      sequenceNumber := (sequenceNumber + 1) % 0x1_0000;
      packet := WriteRequest(sequenceNumber);
      if sequenceNumber !in icmpStartTimes {
        icmpStartTimes := icmpStartTimes[sequenceNumber := now];
      }
      hide Match, Get16, Verifies, Words, IsReplyTo;
      RequestMatches(Value(), packet);
    }

    /**
     A received message, its IP header stripped: a reply to an outstanding request retires it and, when
     the sender is a known computer, adds the elapsed time to that computer's window.
     */
    method HandleIcmpReceive(error: bool, protocol: byte, address: uint32, message: seq<byte>, now: uint64,
                             table: ComputerTable)
      requires table.Valid()
      modifies this, table.computers.Values
      ensures table.Valid()
      ensures var r := old(Value());
              var m := if error then None else Match(r, protocol, message);
              && Value() == (if m.Some? then Answer(r, m.value) else r)
              && table.Value() == if m.Some? && address in old(table.Value())
                                  then Sampled(old(table.Value()), address, Elapsed(r.starts[m.value], now))
                                  else old(table.Value())
    {
      hide Get16, Push;
      if error || protocol != ICMP_PROTOCOL {
        return;
      }
      if |message| < 8 {
        return;
      }
      if message[0] == ECHO_REPLY && Get16(message, 4) == ICMP_ID && Get16(message, 6) in icmpStartTimes {
        var number := Get16(message, 6);
        var res := Elapsed(icmpStartTimes[number], now);
        icmpStartTimes := icmpStartTimes - {number};
        if address in table.computers {
          table.computers[address].NotifyIcmp(res);
        }
      }
    }
  }

  lemma RequestMatches(r: Requests, packet: seq<byte>)
    requires |packet| == 12 && packet[0] == 8 && Get16(packet, 4) == ICMP_ID && Get16(packet, 6) in r.starts
    ensures Match(r, 1, packet) == None
    ensures forall m :: IsReplyTo(m, packet) ==> Match(r, 1, m) == Some(Get16(packet, 6))
  {
    hide Get16, IsReplyTo;
    forall m | IsReplyTo(m, packet)
      ensures Match(r, 1, m) == Some(Get16(packet, 6))
    {
      RepliesMatch(r, packet, m);
    }
  }

  /** The sample enters the ICMP window at that address; nothing else in the table changes. */
  lemma SampledIs(cache: Cache, address: uint32, res: uint64, a: uint32)
    requires address in cache
    ensures Sampled(cache, address, res).Keys == cache.Keys
    ensures a in cache && a != address ==> Sampled(cache, address, res)[a] == cache[a]
    ensures Sampled(cache, address, res)[address] == LifeStep(cache[address], Sample(Icmp, res))
  {
  }

  function Sampled(cache: Cache, address: uint32, res: uint64): Cache
    requires address in cache
  {
    cache[address := cache[address].(icmp := Push(cache[address].icmp, res))]
  }

  method WriteRequest(sequence: uint16) returns (packet: seq<byte>)
    ensures |packet| == 12 && packet[0] == 8 && packet[1] == 0 && packet[8..] == [0x34, 0x71, 0x71, 5]
    ensures Get16(packet, 4) == ICMP_ID && Get16(packet, 6) == sequence
    ensures Verifies(Words(packet))
  {
    hide Words, Verifies, Checksum, IcmpChecksum.Message;
    var echoRequest := new Record(8);
    echoRequest.rep[0] := ECHO_REQUEST;
    echoRequest.rep[1] := 0;
    echoRequest.Encode16(4, ICMP_ID);
    echoRequest.Encode16(6, sequence);
    ghost var rep := echoRequest.Bytes();
    assert Get16(rep, 0) == 0x800 && Get16(rep, 4) == ICMP_ID && Get16(rep, 6) == sequence;
    ComputeChecksum(echoRequest, BODY);
    var header := echoRequest.Bytes();
    packet := header + BODY;
    RequestVerifies(header, sequence);
  }

  lemma RequestVerifies(header: seq<byte>, sequence: uint16)
    requires |header| == 8 && Get16(header, 0) == 0x800 && Get16(header, 4) == ICMP_ID && Get16(header, 6) == sequence
    requires Get16(header, 2) == Checksum(0x800, ICMP_ID, sequence, BODY)
    ensures Verifies(Words(header + BODY))
  {
    WordsOfHeader(header, BODY);
    ChecksumRefinesRfc1071(0x800, ICMP_ID, sequence, BODY);
    hide Words, Verifies, Checksum;
  }
}
