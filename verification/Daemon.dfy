/**
 The process itself: the globals of shared.cc, and the classes `mdns_client` (mdns_client.h),
 `mdns_server` (mdns_server.cc) and `name_server` (name_server.cc) that work on them. Each method is
 proved against the corresponding function of HostModel. Sockets are logs of datagrams.
 */
module Daemon {
  import opened Shared
  import opened MdnsFields
  import opened DomainNames
  import opened Messages
  import opened CandidateNames
  import opened ComputerCache
  import opened HostModel

  datatype Datagram = Datagram(to: Endpoint, bytes: seq<byte>)

  function Render(outs: seq<Out>): seq<Datagram> {
    if outs == [] then []
    else Render(outs[..|outs| - 1]) + [Datagram(Destination(outs[|outs| - 1]), WireBytes(outs[|outs| - 1]))]
  }

  /** PTR responses wait 20 to 120 milliseconds before they are sent; everything else is sent at once. */
  predicate Deferred(o: Out) {
    o.ResponseOut? && o.rtype != A
  }

  class Globals {
    const cfg: Config
    const table: ComputerTable
    var myName: Label
    var nameIsSet: bool
    var sent: seq<Datagram>
    var delayed: seq<Datagram>

    constructor (cfg: Config)
      ensures this.cfg == cfg && myName == cfg.base && !nameIsSet && sent == [] && delayed == []
      ensures fresh(table) && table.Valid() && table.computers == map[]
    {
      this.cfg := cfg;
      table := new ComputerTable();
      myName := cfg.base;
      nameIsSet := false;
      sent, delayed := [], [];
    }

    /** The delay of a PTR response is over: the datagram goes out unchanged. */
    method SendPtrResponse(k: nat)
      requires k < |delayed|
      modifies this`sent, this`delayed
      ensures sent == old(sent) + [old(delayed[k])]
      ensures delayed == old(delayed[..k] + delayed[k + 1..])
    {
      sent := sent + [delayed[k]];
      delayed := delayed[..k] + delayed[k + 1..];
    }
  }

  // ---------------------------------------------------------------- the records, field by field

  lemma SeqByIndex(s: seq<byte>, t: seq<byte>)
    requires |s| == |t| && forall i :: 0 <= i < |s| ==> s[i] == t[i]
    ensures s == t
  {
  }

  method WriteHeader(id: uint16, flags: uint16, qdcount: uint16, ancount: uint16) returns (bytes: seq<byte>)
    ensures bytes == HeaderBytes(id, flags, qdcount, ancount)
  {
    var header := new Record(12);
    header.Encode16(0, id);
    header.Encode16(2, flags);
    header.Encode16(4, qdcount);
    header.Encode16(6, ancount);
    header.Encode16(8, 0);
    header.Encode16(10, 0);
    bytes := header.Bytes();
    assert HeaderBytes(id, flags, qdcount, ancount) ==
           [id / 0x100, id % 0x100, flags / 0x100, flags % 0x100, qdcount / 0x100, qdcount % 0x100,
            ancount / 0x100, ancount % 0x100, 0, 0, 0, 0];
  }

  method WriteQueryEnd(qtype: uint16, qclass: uint16) returns (bytes: seq<byte>)
    ensures bytes == QueryEndBytes(qtype, qclass)
  {
    var end := new Record(4);
    end.Encode16(0, qtype);
    end.Encode16(2, qclass);
    bytes := end.Bytes();
    assert QueryEndBytes(qtype, qclass) == [qtype / 0x100, qtype % 0x100, qclass / 0x100, qclass % 0x100];
  }

  method WriteAnswer(rtype: uint16, rclass: uint16, ttl: uint32, length: uint16) returns (bytes: seq<byte>)
    ensures bytes == AnswerBytes(rtype, rclass, ttl, length)
  {
    var answer := new Record(10);
    answer.Encode16(0, rtype);
    answer.Encode16(2, rclass);
    answer.Encode32(4, ttl);
    answer.Encode16(8, length);
    bytes := answer.Bytes();
    hide U32;
    assert AnswerBytes(rtype, rclass, ttl, length) ==
           [rtype / 0x100, rtype % 0x100, rclass / 0x100, rclass % 0x100] + U32(ttl) + [length / 0x100, length % 0x100];
    assert |U32(ttl)| == 4 by { U32Length(ttl); }
    SeqByIndex(bytes, AnswerBytes(rtype, rclass, ttl, length));
  }

  lemma U32Length(n: uint32)
    ensures |U32(n)| == 4
  {
  }

  method WriteQuery(qtype: uint16, fqdn: seq<Label>) returns (oss: seq<byte>)
    ensures oss == QueryBytes(qtype, fqdn)
  {
    hide HeaderBytes, QueryEndBytes, EncodeLabels;
    oss := WriteHeader(0, 0, 1, 0);
    ghost var head := oss;
    assert EncodeLabels(fqdn[..0]) == [] by { NoLabels(fqdn); }
    for i := 0 to |fqdn|
      invariant oss == head + EncodeLabels(fqdn[..i])
    {
      var len: byte := |fqdn[i]| % 0x100;
      NextLabel(fqdn, i);
      oss := oss + ([len] + fqdn[i]);
    }
    assert fqdn[..|fqdn|] == fqdn;
    oss := oss + [0];
    assert oss == head + EncodeName(fqdn);
    var end := WriteQueryEnd(qtype, 1);
    oss := oss + end;
  }

  lemma NoLabels(ls: seq<Label>)
    ensures EncodeLabels(ls[..0]) == []
  {
  }

  lemma NextLabel(ls: seq<Label>, i: nat)
    requires i < |ls|
    ensures EncodeLabels(ls[..i + 1]) == EncodeLabels(ls[..i]) + EncodeLabel(ls[i])
  {
    assert ls[..i + 1] == ls[..i] + [ls[i]];
    EncodeLabelsSnoc(ls[..i], ls[i]);
  }

  // ---------------------------------------------------------------- mdns_client.h

  class MdnsClient {
    const g: Globals
    var wakesAfter: Option<uint32>  // seconds until the timer asks again

    constructor (g: Globals)
      modifies g`sent
      ensures this.g == g && wakesAfter == Some(g.cfg.exploration)
      ensures g.sent == old(g.sent) + Render(HostModel.AskForServices(Start(g.cfg)).sent)
    {
      this.g := g;
      new;
      AskForServices();
    }

    method SendQuery(qtype: uint16, fqdn: seq<Label>)
      modifies g`sent
      ensures g.sent == old(g.sent) + Render([QueryOut(qtype, fqdn)])
    {
      var message := WriteQuery(qtype, fqdn);
      RenderOne(QueryOut(qtype, fqdn));
      assert message == WireBytes(QueryOut(qtype, fqdn));
      hide Render, WireBytes;
      g.sent := g.sent + [Datagram(MULTICAST, message)];
    }

    /** Asks who offers either service, and arms the timer to ask again. */
    method AskForServices()
      modifies this`wakesAfter, g`sent
      ensures wakesAfter == Some(g.cfg.exploration)
      ensures g.sent == old(g.sent) + Render([QueryOut(PTR, ServiceName(UDP)), QueryOut(PTR, ServiceName(TCP))])
    {
      var first, second := QueryOut(PTR, ServiceName(UDP)), QueryOut(PTR, ServiceName(TCP));
      RenderAppend([first], [second]);
      assert [first] + [second] == [first, second];
      hide Render;
      SendQuery(PTR, [OPOZNIENIA, UDP_LABEL, LOCAL]);
      SendQuery(PTR, [SSH, TCP_LABEL, LOCAL]);
      wakesAfter := Some(g.cfg.exploration);
    }
  }

  lemma RenderOne(o: Out)
    ensures Render([o]) == [Datagram(Destination(o), WireBytes(o))]
  {
    var nil: seq<Out> := [];
    assert [o][..0] == nil;
  }

  lemma {:induction false} RenderAppend(xs: seq<Out>, ys: seq<Out>)
    ensures Render(xs + ys) == Render(xs) + Render(ys)
    decreases |ys|
  {
    hide WireBytes, Destination;
    if ys == [] {
      assert xs + ys == xs;
    } else {
      RenderAppend(xs, ys[..|ys| - 1]);
      assert (xs + ys)[..|xs + ys| - 1] == xs + ys[..|ys| - 1];
    }
  }

  /** One datagram for each packet, in order: queries go to 224.0.0.251, port 5353, responses where they are to go. */
  lemma {:induction false} RenderIs(outs: seq<Out>, k: nat)
    requires k < |outs|
    ensures |Render(outs)| == |outs|
    ensures Render(outs)[k].bytes == WireBytes(outs[k])
    ensures Render(outs)[k].to == if outs[k].QueryOut? then Endpoint(0xE000_00FB, 5353) else outs[k].to
    decreases |outs|
  {
    hide WireBytes;
    if |outs| > 1 {
      RenderIs(outs[..|outs| - 1], if k < |outs| - 1 then k else 0);
    } else {
      RenderNone();
      assert outs[..0] == [];
    }
  }

  lemma RenderNone()
    ensures Render([]) == []
  {
  }

  /** Of at most one answer to a packet: what is sent at once, and what waits. */
  function Prompt(outs: seq<Out>): seq<Out> {
    if |outs| == 1 && Deferred(outs[0]) then [] else outs
  }

  function Late(outs: seq<Out>): seq<Out> {
    if |outs| == 1 && Deferred(outs[0]) then outs else []
  }

  /** The address of an A record, if its length is right and it lies inside the packet. */
  function AddressIn(b: seq<byte>, start: nat, size: nat, length: uint16): Option<uint32>
    requires size <= |b|
  {
    if length == 4 && start + 4 <= size then Some(Get32(b, start)) else None
  }

  predicate Announces(m: Message, address: uint32) {
    m.AAnswer? && m.address == Some(address)
  }

  // ---------------------------------------------------------------- the whole process as a value

  function Value(g: Globals, server: MdnsServer, names: NameServer): Host
    reads g, server, names, g.table, g.table.computers.Values
  {
    Host(g.cfg, names.number, g.myName, g.nameIsSet, names.timer,
         server.receiverAddress, server.receiverPort, server.idFromQuery, g.table.Value())
  }

  /** The pieces belong to one process. */
  ghost predicate Linked(g: Globals, server: MdnsServer, names: NameServer)
    reads g.table
  {
    && server.g == g && server.client.g == g && names.g == g && names.client.g == g
    && names.name == g.cfg.base && g.table.Valid()
  }

  // ---------------------------------------------------------------- mdns_server.cc

  /** The full name, and the question's name: the same, or without the first label in a PTR response. */
  method WriteNames(fqdn: seq<Label>, skipFirst: bool) returns (question: seq<byte>, full: seq<byte>)
    requires fqdn != []
    ensures full == EncodeName(fqdn)
    ensures question == EncodeName(if skipFirst then fqdn[1..] else fqdn)
  {
    hide EncodeLabels;
    question, full := [], [];
    var rest := fqdn[1..];
    NoLabels(fqdn);
    NoLabels(rest);
    for i := 0 to |fqdn|
      invariant full == EncodeLabels(fqdn[..i])
      invariant skipFirst ==> question == if i == 0 then [] else EncodeLabels(rest[..i - 1])
      invariant !skipFirst ==> question == full
    {
      var len: byte := |fqdn[i]| % 0x100;
      NextLabel(fqdn, i);
      full := full + ([len] + fqdn[i]);
      if !skipFirst || i != 0 {
        if skipFirst {
          NextLabel(rest, i - 1);
        }
        question := question + ([len] + fqdn[i]);
      }
    }
    assert fqdn[..|fqdn|] == fqdn && rest[..|rest|] == rest;
    question, full := question + [0], full + [0];
  }

  method WriteAddress(address: uint32) returns (bytes: seq<byte>)
    ensures bytes == U32(address)
  {
    var rec := new Record(4);
    rec.Encode32(0, address);
    bytes := rec.Bytes();
    U32Length(address);
    hide U32;
    SeqByIndex(bytes, U32(address));
  }

  /** The body of `send_response` that fills the output stream. */
  method WriteResponse(o: Out) returns (oss: seq<byte>)
    requires o.ResponseOut?
    ensures oss == ResponseBytes(o)
  {
    hide HeaderBytes, AnswerBytes, EncodeName, U32;
    var fqdn := [o.name];
    if o.service == UDP {
      fqdn := fqdn + [OPOZNIENIA, UDP_LABEL];
    } else if o.service == TCP {
      fqdn := fqdn + [SSH, TCP_LABEL];
    }
    fqdn := fqdn + [LOCAL];
    assert fqdn == Fqdn(o.name, o.service) && fqdn[1..] == ServiceName(o.service);

    oss := WriteHeader(o.id, RESPONSE_FLAG, 0, 1);
    var question, ossFqdn := WriteNames(fqdn, o.rtype == PTR);
    oss := oss + question;
    if o.rtype == A {
      var answer := WriteAnswer(o.rtype, o.rclass, o.ttl, 4);
      var address := WriteAddress(o.address);
      oss := oss + answer + address;
    } else if o.compress {
      var answer := WriteAnswer(o.rtype, o.rclass, o.ttl, (|fqdn[0]| + 2) % 0x1_0000);
      oss := oss + answer + ([|fqdn[0]| % 0x100] + fqdn[0] + [0xC0, 12]);
    } else {
      var answer := WriteAnswer(o.rtype, o.rclass, o.ttl, |ossFqdn| % 0x1_0000);
      oss := oss + answer + ossFqdn;
    }
  }

  class MdnsServer {
    const g: Globals
    const client: MdnsClient
    var receiverAddress: uint32
    var receiverPort: uint16
    var idFromQuery: uint16

    constructor (g: Globals, client: MdnsClient)
      requires client.g == g
      ensures this.g == g && this.client == client
      ensures receiverAddress == 0 && receiverPort == 0 && idFromQuery == 0
    {
      this.g, this.client := g, client;
      receiverAddress, receiverPort, idFromQuery := 0, 0, 0;
    }

    /** The fields a response is made of are those of the process value `h`. */
    ghost predicate Shows(h: Host)
      reads this, g
    {
      && h.cfg == g.cfg && h.myName == g.myName
      && h.receiverAddress == receiverAddress && h.receiverPort == receiverPort && h.idFromQuery == idFromQuery
    }

    method SendResponse(rtype: uint16, service: Service, sendViaUnicast: bool, legacyUnicast: bool, ghost h: Host)
      requires Shows(h)
      modifies g`sent, g`delayed
      ensures var o := Respond(h, rtype, service, sendViaUnicast, legacyUnicast);
              && g.sent == old(g.sent) + (if rtype == A then Render([o]) else [])
              && g.delayed == old(g.delayed) + (if rtype == A then [] else Render([o]))
    {
      var to := Endpoint(if sendViaUnicast then receiverAddress else MULTICAST.address,
                         if legacyUnicast then receiverPort else MDNS_PORT);
      var id: uint16, rclass: uint16, ttl: uint32 := 0, 0x8001, 2 * g.cfg.exploration % WRAP32;
      if legacyUnicast {
        id, rclass := idFromQuery, 1;
        if ttl > 10 {
          ttl := 10;
        }
      }
      var o := ResponseOut(rtype, id, g.myName, service, rclass, ttl, g.cfg.address, g.cfg.compress, to);
      assert o == Respond(h, rtype, service, sendViaUnicast, legacyUnicast);
      var message := WriteResponse(o);
      assert message == WireBytes(o);
      RenderOne(o);
      hide WireBytes, Render;
      if rtype == A {
        g.sent := g.sent + [Datagram(to, message)];
      } else {
        g.delayed := g.delayed + [Datagram(to, message)];
      }
    }

    method AnnounceName(ghost h: Host)
      requires Shows(h)
      modifies g`sent, g`delayed
      ensures g.sent == old(g.sent) + Render(Announcement(h)) && g.delayed == old(g.delayed)
    {
      var second := [Respond(h, A, TCP, false, false)];
      RenderAppend([Respond(h, A, UDP, false, false)], if g.cfg.announceSsh then second else []);
      RenderNone();
      hide Render, Respond;
      SendResponse(A, UDP, false, false, h);
      if g.cfg.announceSsh {
        SendResponse(A, TCP, false, false, h);
      }
    }

    /** Someone may have announced the name this host is trying. */
    method YieldName(qname: seq<Label>, names: NameServer)
      requires Linked(g, this, names)
      modifies names, g`myName
      ensures var h := old(Value(g, this, names));
              Value(g, this, names) == if !h.nameIsSet && Claims(qname, h.myName) then HostModel.Notify(h) else h
    {
      hide Candidate, Arm, Fqdn;
      if !g.nameIsSet {
        var name1 := [g.myName, OPOZNIENIA, UDP_LABEL, LOCAL];
        var name2 := [g.myName, SSH, TCP_LABEL, LOCAL];
        FqdnLabels(g.myName);
        if qname == name1 || qname == name2 {
          names.Notify();
        }
      }
    }

    method ReadAddress(length: uint16, b: seq<byte>, start: nat, size: nat) returns (address: Option<uint32>)
      requires size <= |b|
      ensures address == AddressIn(b, start, size, length)
    {
      if length != 4 {
        return None;
      }
      var rec := new Record(4);
      var ok, end := rec.Read(b, start, size);
      if !ok {
        return None;
      }
      GetInCopy(b, start, end, 0);
      address := Some(rec.Decode32(0));
    }

    /** An address record: a possible conflict, and an address for the table. */
    method HandleAResponse(ttl: uint32, length: uint16, qname: seq<Label>, b: seq<byte>, start: nat, size: nat,
                           now: nat, names: NameServer)
      requires Linked(g, this, names) && size <= |b|
      requires var address := AddressIn(b, start, size, length);
               address.Some? && address.value !in g.table.computers ==> qname != []
      modifies names, g`myName, g.table, g.table.computers.Values
      ensures Linked(g, this, names) && fresh(g.table.computers.Values - old(g.table.computers.Values))
      ensures var address := AddressIn(b, start, size, length);
              Value(g, this, names) == HandleA(old(Value(g, this, names)), qname, ttl, address, now)
    {
      hide Insert, Claims, HostModel.Notify, AddressIn, ComputerTable.Value, ComputerTable.Valid;
      YieldName(qname, names);
      var address := ReadAddress(length, b, start, size);
      if address.Some? {
        g.table.Receive(address.value, qname, ttl, now);
      }
    }

    /** Asks for the address of the named service instance, if its name can be read. */
    method HandlePtrResponse(b: seq<byte>, start: nat, size: nat)
      requires client.g == g && 10 <= start && size <= |b|
      requires Readable(b, size, start) && !ParseCompressed(b, size, start).Hangs?
      modifies g`sent
      ensures var r := ParseCompressed(b, size, start);
              g.sent == old(g.sent) + Render(if r.Name? then [QueryOut(A, r.labels)] else [])
    {
      RenderNone();
      hide Render;
      var r := ReadCompressableName(b, start, size);
      match r
      case Name(fqdn, _) => client.SendQuery(A, fqdn);
      case _ =>
    }

    /** Where and how to answer: what is noted about the asker. */
    method NoteAsker(id: uint16, qclass: uint16, via: Via) returns (sendViaUnicast: bool, legacyUnicast: bool)
      modifies this
      ensures legacyUnicast == (via.from.port != MDNS_PORT)
      ensures sendViaUnicast == (via.unicast || QU(qclass) || legacyUnicast)
      ensures idFromQuery == if legacyUnicast then id else old(idFromQuery)
      ensures receiverPort == if legacyUnicast && !via.unicast then via.from.port else old(receiverPort)
      ensures receiverAddress == if sendViaUnicast && !via.unicast then via.from.address else old(receiverAddress)
    {
      legacyUnicast := false;
      if via.from.port != MDNS_PORT {
        legacyUnicast := true;
        if !via.unicast {
          receiverPort := via.from.port;
        }
        idFromQuery := id;
      }
      sendViaUnicast := via.unicast;
      if !via.unicast && (QU(qclass) || legacyUnicast) {
        sendViaUnicast := true;
        receiverAddress := via.from.address;
      }
    }

    /** An unnamed host stays invisible; a named one answers for its name and for its services. */
    method Answer(qname: seq<Label>, qtype: uint16, sendViaUnicast: bool, legacyUnicast: bool, ghost h: Host)
      requires Shows(h) && h.nameIsSet == g.nameIsSet && (g.nameIsSet && qtype == A ==> qname != [])
      modifies g`sent, g`delayed
      ensures var outs := Answers(h, qname, qtype, sendViaUnicast, legacyUnicast);
              g.sent == old(g.sent) + Render(Prompt(outs)) && g.delayed == old(g.delayed) + Render(Late(outs))
    {
      RenderNone();
      hide Render, Respond, WhichMyService, Prompt, Late;
      PromptNone();
      if g.nameIsSet {
        if qtype == A {
          if qname[0] == g.myName {
            var service := WhichMyService(g.cfg.announceSsh, qname, 1);
            if service != NONE {
              PromptOne(h, A, service, sendViaUnicast, legacyUnicast);
              SendResponse(A, service, sendViaUnicast, legacyUnicast, h);
            }
          }
        } else if qtype == PTR {
          var service := WhichMyService(g.cfg.announceSsh, qname, 0);
          if service != NONE {
            PromptOne(h, PTR, service, sendViaUnicast, legacyUnicast);
            SendResponse(PTR, service, sendViaUnicast, legacyUnicast, h);
          }
        }
      }
    }

    /** The answering half of `receive_universal`. */
    method HandleQueryPacket(id: uint16, qname: seq<Label>, qtype: uint16, qclass: uint16, via: Via, names: NameServer)
      requires Linked(g, this, names) && (g.nameIsSet && qtype == A ==> qname != [])
      modifies this, g`sent, g`delayed
      ensures var r := HandleQuery(old(Value(g, this, names)), id, qname, qtype, qclass, via);
              && Value(g, this, names) == r.host
              && g.sent == old(g.sent) + Render(Prompt(r.sent)) && g.delayed == old(g.delayed) + Render(Late(r.sent))
    {
      hide Render, Answers, QU, Prompt, Late;
      var sendViaUnicast, legacyUnicast := NoteAsker(id, qclass, via);
      Answer(qname, qtype, sendViaUnicast, legacyUnicast, Value(g, this, names));
    }

    /** The listening half of `receive_universal`. */
    method HandleAnswerPacket(b: seq<byte>, qname: seq<Label>, start: nat, size: nat, now: nat, names: NameServer)
      requires Linked(g, this, names) && 12 <= size <= |b|
      requires (size < |b| || !AnswerOverreads(b, size, start)) && !ReadAnswer(b, size, qname, start).Stuck?
      requires forall a :: Announces(ReadAnswer(b, size, qname, start), a) && a !in g.table.computers ==> qname != []
      modifies names, g`myName, g`sent, g.table, g.table.computers.Values
      ensures Linked(g, this, names) && fresh(g.table.computers.Values - old(g.table.computers.Values))
      ensures g.delayed == old(g.delayed)
      ensures var h, m := old(Value(g, this, names)), ReadAnswer(b, size, qname, start);
              && Value(g, this, names) == (if m.AAnswer? then HandleA(h, m.aname, m.ttl, m.address, now) else h)
              && g.sent == old(g.sent) + (if m.PtrAnswer? then Render([QueryOut(A, m.target)]) else [])
    {
      hide HandleA, Render, ParseCompressed, Get16, Get32, ReadAnswer, AddressIn, Value, Linked, ComputerTable.Valid;
      AnswerCases(b, size, qname, start);
      var ok, rtype, ttl, length, end := ReadAnswerFields(b, start, size);
      if ok {
        HandleAnswer(rtype, ttl, length, qname, b, end, size, now, names);
      }
    }

    /** By type of record; other types are ignored. */
    method HandleAnswer(rtype: uint16, ttl: uint32, length: uint16, qname: seq<Label>, b: seq<byte>, start: nat,
                        size: nat, now: nat, names: NameServer)
      requires Linked(g, this, names) && 10 <= start && size <= |b|
      requires rtype == PTR ==> Readable(b, size, start) && !ParseCompressed(b, size, start).Hangs?
      requires var address := AddressIn(b, start, size, length);
               rtype == A && address.Some? && address.value !in g.table.computers ==> qname != []
      modifies names, g`myName, g`sent, g.table, g.table.computers.Values
      ensures Linked(g, this, names) && fresh(g.table.computers.Values - old(g.table.computers.Values))
      ensures g.delayed == old(g.delayed)
      ensures var h, address := old(Value(g, this, names)), AddressIn(b, start, size, length);
              Value(g, this, names) == if rtype == A then HandleA(h, qname, ttl, address, now) else h
      ensures var r := ParseCompressed(b, size, start);
              g.sent == old(g.sent) + if rtype == PTR && r.Name? then Render([QueryOut(A, r.labels)]) else []
    {
      assert client.g == g && PTR != A;
      RenderNone();
      hide *;
      if rtype == A {
        HandleAResponse(ttl, length, qname, b, start, size, now, names);
      } else if rtype == PTR {
        HandlePtrResponse(b, start, size);
      }
    }

    method ReadQueryFields(b: seq<byte>, start: nat, size: nat) returns (ok: bool, qtype: uint16, qclass: uint16)
      requires size <= |b|
      ensures ok <==> start + 4 <= size
      ensures ok ==> qtype == Get16(b, start) && qclass == Get16(b, start + 2)
    {
      qtype, qclass := 0, 0;
      var queryEnd := new Record(4);
      var end;
      ok, end := queryEnd.Read(b, start, size);
      if ok {
        GetInCopy(b, start, end, 0);
        GetInCopy(b, start, end, 2);
        qtype, qclass := queryEnd.Decode16(0), queryEnd.Decode16(2);
      }
    }

    /** The first twelve bytes: the identifier, and whether this is a response. */
    method ReadHeader(b: seq<byte>, size: nat) returns (id: uint16, isResponse: bool)
      requires 12 <= size <= |b|
      ensures id == Get16(b, 0) && isResponse == QR(b[2])
    {
      var header := new Record(12);
      var ok, end := header.Read(b, 0, size);
      GetInCopy(b, 0, end, 0);
      id := header.Decode16(0);
      isResponse := QR(header.rep[2]);
      assert header.rep[2] == header.Bytes()[2] == b[0..12][2];
    }

    /** What every branch of `receive_universal` promises about the message it dealt with. */
    predicate Dealt(g: Globals, names: NameServer, m: Message, via: Via, now: nat,
                    h: Host, sent: seq<Datagram>, delayed: seq<Datagram>)
      reads this, names, g, g.table, g.table.computers.Values
    {
      var r := Receive(h, m, via, now);
      && Value(g, this, names) == r.host
      && g.sent == sent + Render(Prompt(r.sent)) && g.delayed == delayed + Render(Late(r.sent))
    }

    method ReceiveQuery(id: uint16, qname: seq<Label>, b: seq<byte>, start: nat, size: nat, via: Via, now: nat,
                        names: NameServer)
      requires Linked(g, this, names) && 12 <= size <= |b| && id == Get16(b, 0)
      requires Defined(Value(g, this, names), ReadQuery(b, size, qname, start), Heeds(via))
      requires Value(g, this, names) == Noted(Value(g, this, names), via)
      modifies this, g`sent, g`delayed
      ensures var h, sent, delayed := old(Value(g, this, names)), old(g.sent), old(g.delayed);
              Dealt(g, names, ReadQuery(b, size, qname, start), via, now, h, sent, delayed)
    {
      RenderNone();
      PromptNone();
      ValueNameIsSet(g, this, names);
      hide Render, HandleQuery, Get16, Value, Noted, Prompt, Late;
      var ok, qtype, qclass := ReadQueryFields(b, start, size);
      if ok {
        HandleQueryPacket(id, qname, qtype, qclass, via, names);
      }
    }

    method ReceiveAnswer(qname: seq<Label>, b: seq<byte>, start: nat, size: nat, via: Via, now: nat, names: NameServer)
      requires Linked(g, this, names) && 12 <= size <= |b|
      requires Defined(Value(g, this, names), ReadAnswer(b, size, qname, start), Heeds(via))
      requires size < |b| || !AnswerOverreads(b, size, start) || !Heeds(via)
      requires Value(g, this, names) == Noted(Value(g, this, names), via)
      modifies names, g`myName, g`sent, g.table, g.table.computers.Values
      ensures Linked(g, this, names) && fresh(g.table.computers.Values - old(g.table.computers.Values))
      ensures var h, sent, delayed := old(Value(g, this, names)), old(g.sent), old(g.delayed);
              Dealt(g, names, ReadAnswer(b, size, qname, start), via, now, h, sent, delayed)
    {
      RenderNone();
      PromptNone();
      AnswerIsNoQuery(b, size, qname, start);
      ValueCache(g, this, names);
      hide Render, HandleA, Value, Noted, Prompt, Late, ReadAnswer, Linked;
      if !via.unicast && via.from.port == MDNS_PORT {
        HandleAnswerPacket(b, qname, start, size, now, names);
      }
    }

    method ReceiveUniversal(b: seq<byte>, size: nat, via: Via, now: nat, names: NameServer)
      requires Linked(g, this, names) && 12 <= size <= |b|
      requires Defined(Value(g, this, names), DecodeMessage(b, size), Heeds(via))
      requires size < |b| || !MessageOverreads(b, size) || !Heeds(via)
      requires via.unicast ==> receiverAddress == via.from.address && receiverPort == via.from.port
      modifies this, names, g`myName, g`sent, g`delayed, g.table, g.table.computers.Values
      ensures Linked(g, this, names) && fresh(g.table.computers.Values - old(g.table.computers.Values))
      ensures var h, sent, delayed := old(Value(g, this, names)), old(g.sent), old(g.delayed);
              Dealt(g, names, DecodeMessage(b, size), via, now, h, sent, delayed)
    {
      hide ParseName, Render, Receive, QR, Get16, Value, Linked, Noted, ReadAnswer, ReadQuery, Prompt, Late;
      hide Defined, Dealt;
      ghost var h := Value(g, this, names);
      NotedAlready(via, names);
      var id, isResponse := ReadHeader(b, size);
      var parsed := ReadName(b, 12, size);
      assert Value(g, this, names) == h;
      if parsed.Name? {
        ReceiveNamed(id, isResponse, parsed.labels, b, parsed.end, size, via, now, names);
      } else {
        IgnoredIsDealt(g, names, via, now);
      }
    }

    /** By kind of message. */
    method ReceiveNamed(id: uint16, isResponse: bool, qname: seq<Label>, b: seq<byte>, start: nat, size: nat,
                        via: Via, now: nat, names: NameServer)
      requires Linked(g, this, names) && 12 <= size <= |b| && id == Get16(b, 0)
      requires var m := if isResponse then ReadAnswer(b, size, qname, start) else ReadQuery(b, size, qname, start);
               Defined(Value(g, this, names), m, Heeds(via))
      requires size < |b| || !isResponse || !AnswerOverreads(b, size, start) || !Heeds(via)
      requires Value(g, this, names) == Noted(Value(g, this, names), via)
      modifies this, names, g`myName, g`sent, g`delayed, g.table, g.table.computers.Values
      ensures Linked(g, this, names) && fresh(g.table.computers.Values - old(g.table.computers.Values))
      ensures var m := if isResponse then ReadAnswer(b, size, qname, start) else ReadQuery(b, size, qname, start);
              Dealt(g, names, m, via, now, old(Value(g, this, names)), old(g.sent), old(g.delayed))
    {
      hide *;
      if isResponse {
        ReceiveAnswer(qname, b, start, size, via, now, names);
      } else {
        ReceiveQuery(id, qname, b, start, size, via, now, names);
      }
    }

    lemma IgnoredIsDealt(g: Globals, names: NameServer, via: Via, now: nat)
      requires Value(g, this, names) == Noted(Value(g, this, names), via)
      ensures Dealt(g, names, Ignored, via, now, Value(g, this, names), g.sent, g.delayed)
    {
      RenderNone();
      hide Noted, Value;
    }

    lemma NotedAlready(via: Via, names: NameServer)
      requires via.unicast ==> receiverAddress == via.from.address && receiverPort == via.from.port
      ensures Value(g, this, names) == Noted(Value(g, this, names), via)
    {
    }

    /**
     Both servers' handlers: datagrams of impossible sizes are dropped; the unicast one drops what comes
     from outside the local network, and notes the asker.
     */
    method HandleReceive(error: bool, b: seq<byte>, size: nat, via: Via, now: nat, names: NameServer)
      requires Linked(g, this, names) && size <= |b|
      requires !error && MIN_MDNS_SIZE <= size <= BUFFER_SIZE ==>
                 && Defined(Noted(Value(g, this, names), via), DecodeMessage(b, size), Heeds(via))
                 && (size < |b| || !MessageOverreads(b, size) || !Heeds(via))
      modifies this, names, g`myName, g`sent, g`delayed, g.table, g.table.computers.Values
      ensures Linked(g, this, names) && fresh(g.table.computers.Values - old(g.table.computers.Values))
      ensures var h := old(Value(g, this, names));
              var r := if error then Outcome(h, []) else HostModel.HandleReceive(h, b, size, via, now);
              && Value(g, this, names) == r.host
              && g.sent == old(g.sent) + Render(Prompt(r.sent)) && g.delayed == old(g.delayed) + Render(Late(r.sent))
    {
      RenderNone();
      PromptNone();
      hide Render, Prompt, Late, DecodeMessage, Defined, Heeds, SameNetwork, ComputerTable.Value, ComputerTable.Valid;
      if error || size > BUFFER_SIZE || size < MIN_MDNS_SIZE {
        return;
      }
      if via.unicast && !SameNetwork(via.from.address, g.cfg.address, g.cfg.netmask) {
        return;
      }
      NotedTwice(Value(g, this, names), DecodeMessage(b, size), via, now);
      if via.unicast {
        receiverAddress, receiverPort := via.from.address, via.from.port;
      }
      hide Receive, Value;
      ReceiveUniversal(b, size, via, now, names);
    }
  }

  lemma NotedTwice(h: Host, m: Message, via: Via, now: nat)
    ensures Receive(Noted(h, via), m, via, now) == Receive(h, m, via, now)
  {
    hide HandleQuery, HandleA;
  }

  lemma ValueCache(g: Globals, server: MdnsServer, names: NameServer)
    ensures forall a :: a in Value(g, server, names).cache <==> a in g.table.computers
  {
  }

  lemma ValueNameIsSet(g: Globals, server: MdnsServer, names: NameServer)
    ensures Value(g, server, names).nameIsSet == g.nameIsSet
  {
  }

  lemma AnswerIsNoQuery(b: seq<byte>, size: nat, qname: seq<Label>, start: nat)
    requires size <= |b|
    ensures var m := ReadAnswer(b, size, qname, start);
            !m.Query? && (m.AAnswer? ==> m.aname == qname) && (m.PtrAnswer? ==> PromptQuery(m.target))
  {
  }

  /** A follow-up query is sent at once. */
  predicate PromptQuery(target: seq<Label>) {
    Prompt([QueryOut(A, target)]) == [QueryOut(A, target)] && Late([QueryOut(A, target)]) == []
  }

  method ReadAnswerFields(b: seq<byte>, start: nat, size: nat)
    returns (ok: bool, rtype: uint16, ttl: uint32, length: uint16, end: nat)
    requires size <= |b|
    ensures ok <==> start + 10 <= size
    ensures ok ==> rtype == Get16(b, start) && ttl == Get32(b, start + 4) && length == Get16(b, start + 8)
    ensures ok ==> end == start + 10
  {
    rtype, ttl, length := 0, 0, 0;
    var answer := new Record(10);
    ok, end := answer.Read(b, start, size);
    if ok {
      GetInCopy(b, start, end, 0);
      GetInCopy(b, start, end, 4);
      GetInCopy(b, start, end, 8);
      rtype, ttl, length := answer.Decode16(0), answer.Decode32(4), answer.Decode16(8);
    }
  }

  lemma AnswerCases(b: seq<byte>, size: nat, qname: seq<Label>, start: nat)
    requires size <= |b|
    ensures var m := ReadAnswer(b, size, qname, start);
            if start + 10 > size then m == Ignored
            else if Get16(b, start) == A then
              m == AAnswer(qname, Get32(b, start + 4), AddressIn(b, start + 10, size, Get16(b, start + 8)))
            else if Get16(b, start) != PTR then m == Ignored
            else
              var target := ParseCompressed(b, size, start + 10);
              m == if target.Name? then PtrAnswer(target.labels) else if target.Hangs? then Stuck else Ignored
  {
    hide ParseCompressed, Get16, Get32;
  }

  lemma PromptNone()
    ensures Prompt([]) == [] && Late([]) == []
  {
  }

  lemma PromptOne(h: Host, rtype: uint16, s: Service, unicast: bool, legacy: bool)
    ensures var o := Respond(h, rtype, s, unicast, legacy);
            Prompt([o]) == (if rtype == A then [o] else []) && Late([o]) == (if rtype == A then [] else [o])
  {
  }

  lemma FqdnLabels(name: Label)
    ensures Fqdn(name, UDP) == [name, OPOZNIENIA, UDP_LABEL, LOCAL] && Fqdn(name, TCP) == [name, SSH, TCP_LABEL, LOCAL]
  {
  }

  // ---------------------------------------------------------------- name_server.cc

  class NameServer {
    const g: Globals
    const client: MdnsClient
    const name: Label
    var number: nat
    var timer: Timer

    constructor (g: Globals, client: MdnsClient)
      requires client.g == g
      modifies g`myName
      ensures this.g == g && this.client == client && name == old(g.myName)
      ensures number == 1 && g.myName == Candidate(name, 1) && timer == Arm(Timer(None, []), Probing)
    {
      this.g, this.client := g, client;
      name, number := g.myName, 1;
      timer := Timer(None, []);
      new;
      SendQuery();
    }

    /** `expires_from_now` followed by `async_wait`. */
    method Rearm(w: Wait)
      modifies this`timer
      ensures timer == Arm(old(timer), w)
    {
      if timer.live.Some? {
        timer := Timer(None, timer.ready + [Ready(timer.live.value, true)]);
      }
      timer := timer.(live := Some(w));
    }

    method SendQuery()
      modifies this`timer, g`myName
      ensures g.myName == Candidate(name, number) && timer == Arm(old(timer), Probing)
    {
      g.myName := name;
      if number > 1 {
        g.myName := g.myName + ([40] + Decimal(number) + [41]);
      }
      Rearm(Probing);
    }

    method Notify()
      modifies this, g`myName
      ensures number == old(number) + 1
      ensures g.myName == Candidate(name, number) && timer == Arm(old(timer), Probing)
    {
      number := number + 1;
      SendQuery();
    }

    /** Asks for the address of the name, for each service this host would offer under it. */
    method QueryName()
      requires client.g == g
      modifies g`sent
      ensures g.sent == old(g.sent) + Render(ProbeQueries(g.cfg, g.myName))
    {
      ghost var second := if g.cfg.announceSsh then [QueryOut(A, Fqdn(g.myName, TCP))] else [];
      RenderAppend([QueryOut(A, Fqdn(g.myName, UDP))], second);
      RenderNone();
      FqdnLabels(g.myName);
      hide Render, Fqdn;
      client.SendQuery(A, [g.myName, OPOZNIENIA, UDP_LABEL, LOCAL]);
      if g.cfg.announceSsh {
        client.SendQuery(A, [g.myName, SSH, TCP_LABEL, LOCAL]);
      }
    }

    /** Bound to every first wait; the error code is ignored, so it runs for aborted waits too. */
    method SendProbes(ghost server: MdnsServer)
      requires Linked(g, server, this)
      modifies this`timer, g`sent
      ensures var r := HostModel.SendProbes(old(Value(g, server, this)));
              Value(g, server, this) == r.host && g.sent == old(g.sent) + Render(r.sent)
    {
      hide Render, ProbeQueries, Arm, ComputerTable.Value, ComputerTable.Valid;
      QueryName();
      var probedName := g.myName;
      Rearm(Verdict(probedName));
    }

    /** Sets and announces the name, unless the wait was aborted or was for a name given up since. */
    method Success(probedName: Label, aborted: bool, server: MdnsServer)
      requires Linked(g, server, this)
      modifies g`nameIsSet, g`sent, g`delayed
      ensures var r := HostModel.Success(old(Value(g, server, this)), probedName, aborted);
              && Value(g, server, this) == r.host
              && g.sent == old(g.sent) + Render(r.sent) && g.delayed == old(g.delayed)
    {
      ghost var h := Value(g, server, this);
      RenderNone();
      hide Render, Announcement;
      if !aborted && probedName == g.myName {
        g.nameIsSet := true;
        server.AnnounceName(h);
      }
    }

    /** The wait ends by itself: its handler is queued without an error. */
    method TimerExpires()
      modifies this`timer
      ensures timer == Expire(old(timer))
    {
      if timer.live.Some? {
        timer := Timer(None, timer.ready + [Ready(timer.live.value, false)]);
      }
    }

    /** The io_service takes a queued handler and runs it. */
    method RunHandler(k: nat, server: MdnsServer)
      requires Linked(g, server, this) && k < |timer.ready|
      modifies this`timer, g`nameIsSet, g`sent, g`delayed
      ensures var r := RunReady(old(Value(g, server, this)), k);
              && Value(g, server, this) == r.host
              && g.sent == old(g.sent) + Render(r.sent) && g.delayed == old(g.delayed)
    {
      var handler := timer.ready[k];
      ghost var h := Value(g, server, this);
      timer := timer.(ready := timer.ready[..k] + timer.ready[k + 1..]);
      assert Value(g, server, this) == h.(timer := h.timer.(ready := Without(h.timer.ready, k)));
      hide Render, HostModel.Success, HostModel.SendProbes, Value;
      if handler.wait.Probing? {
        SendProbes(server);
      } else {
        Success(handler.wait.probed, handler.aborted, server);
      }
    }

    /**
     Runs queued handlers, oldest first, until none is left. Handlers that re-arm the timer abort
     waits and so queue further handlers, but not for ever.
     */
    method RunAllHandlers(server: MdnsServer)
      requires Linked(g, server, this)
      modifies this`timer, g`nameIsSet, g`sent, g`delayed
      ensures timer.ready == []
      ensures var r := DrainAll(old(Value(g, server, this)));
              && Value(g, server, this) == r.host
              && g.sent == old(g.sent) + Render(r.sent) && g.delayed == old(g.delayed)
    {
      hide *;
      ghost var start := DrainAll(Value(g, server, this));
      ghost var done: seq<Out> := [];
      DrainingStarts(Value(g, server, this));
      while timer.ready != []
        invariant g.delayed == old(g.delayed) && g.sent == old(g.sent) + Render(done)
        invariant Draining(start, Value(g, server, this), done)
        decreases Work(timer)
      {
        ghost var h := Value(g, server, this);
        ValueTimer(g, server, this);
        DrainingStep(start, h, done);
        RunHandler(0, server);
        ValueTimer(g, server, this);
        done := done + RunReady(h, 0).sent;
      }
      ValueTimer(g, server, this);
      DrainingEnds(start, Value(g, server, this), done);
    }
  }

  /** With `done` sent, host `h` still has the rest of `start` before it. */
  ghost predicate Draining(start: Outcome, h: Host, done: seq<Out>) {
    start == Outcome(DrainAll(h).host, done + DrainAll(h).sent)
  }

  lemma DrainingStarts(h: Host)
    ensures Draining(DrainAll(h), h, []) && Render([]) == []
  {
    assert [] + DrainAll(h).sent == DrainAll(h).sent;
    hide DrainAll;
  }

  lemma DrainingStep(start: Outcome, h: Host, done: seq<Out>)
    requires Draining(start, h, done) && h.timer.ready != []
    ensures var r := RunReady(h, 0);
            && Draining(start, r.host, done + r.sent) && Work(r.host.timer) < Work(h.timer)
            && Render(done + r.sent) == Render(done) + Render(r.sent)
  {
    hide RunReady, Work, Render, DrainAll, WireBytes;
    RunReadyWorks(h, 0);
    DrainAllUnfold(h);
    RenderAppend(done, RunReady(h, 0).sent);
    var rest := DrainAll(RunReady(h, 0).host).sent;
    assert done + RunReady(h, 0).sent + rest == done + (RunReady(h, 0).sent + rest);
  }

  lemma DrainingEnds(start: Outcome, h: Host, done: seq<Out>)
    requires Draining(start, h, done) && h.timer.ready == []
    ensures start == Outcome(h, done)
  {
  }

  lemma ValueTimer(g: Globals, server: MdnsServer, names: NameServer)
    ensures Value(g, server, names).timer == names.timer
  {
  }

  /** Start-up: the client asks for services, the name server starts probing the hostname. */
  method Boot(cfg: Config) returns (g: Globals, client: MdnsClient, server: MdnsServer, names: NameServer)
    ensures Linked(g, server, names) && Value(g, server, names) == Start(cfg)
    ensures g.sent == Render(AskForServices(Start(cfg)).sent) && g.delayed == []
    ensures client.wakesAfter == Some(cfg.exploration)
  {
    hide Render, Candidate;
    g := new Globals(cfg);
    client := new MdnsClient(g);
    names := new NameServer(g, client);
    server := new MdnsServer(g, client);
  }
}
