/**
 Whole packets: what the query writer (mdns_client.h) and the response writer (mdns_server.cc) put on
 the wire, and what `receive_universal` (mdns_server.cc) makes of a received buffer.
 */
module Messages {
  import opened Shared
  import opened MdnsFields
  import opened DomainNames

  // ---------------------------------------------------------------- what is sent

  datatype Endpoint = Endpoint(address: uint32, port: uint16)

  /** 224.0.0.251, port 5353. */
  const MULTICAST := Endpoint(0xE000_00FB, MDNS_PORT)

  datatype Out =
    | QueryOut(qtype: uint16, fqdn: seq<Label>)
    | ResponseOut(rtype: uint16, id: uint16, name: Label, service: Service, rclass: uint16, ttl: uint32,
                  address: uint32, compress: bool, to: Endpoint)

  function Destination(o: Out): Endpoint {
    if o.QueryOut? then MULTICAST else o.to
  }

  function HeaderBytes(id: uint16, flags: uint16, qdcount: uint16, ancount: uint16): (r: seq<byte>)
    ensures |r| == 12
  {
    U16(id) + U16(flags) + U16(qdcount) + U16(ancount) + U16(0) + U16(0)
  }

  function QueryEndBytes(qtype: uint16, qclass: uint16): (r: seq<byte>) {
    U16(qtype) + U16(qclass)
  }

  function AnswerBytes(rtype: uint16, rclass: uint16, ttl: uint32, length: uint16): (r: seq<byte>)
    ensures |r| == 10
  {
    U16(rtype) + U16(rclass) + U32(ttl) + U16(length)
  }

  function QueryBytes(qtype: uint16, fqdn: seq<Label>): seq<byte> {
    HeaderBytes(0, 0, 1, 0) + EncodeName(fqdn) + QueryEndBytes(qtype, 1)
  }

  /** The question's name in a response: a PTR response repeats the name that was asked for. */
  function QuestionName(o: Out): seq<Label>
    requires o.ResponseOut?
  {
    if o.rtype == PTR then ServiceName(o.service) else Fqdn(o.name, o.service)
  }

  /** The record data: an address, or a full name, written out or compressed into a pointer to offset 12. */
  function Rdata(o: Out): seq<byte>
    requires o.ResponseOut?
  {
    if o.rtype == A then U32(o.address)
    else if o.compress then EncodeLabel(o.name) + [0xC0, 12]
    else EncodeName(Fqdn(o.name, o.service))
  }

  /** The RDLENGTH field: in compressed form the code does not count the label's length octet. */
  function RdLength(o: Out): uint16
    requires o.ResponseOut?
  {
    if o.rtype == A then 4
    else if o.compress then (|o.name| + 2) % 0x1_0000
    else |EncodeName(Fqdn(o.name, o.service))| % 0x1_0000
  }

  function ResponseBytes(o: Out): seq<byte>
    requires o.ResponseOut?
  {
    HeaderBytes(o.id, RESPONSE_FLAG, 0, 1) + EncodeName(QuestionName(o)) +
    AnswerBytes(o.rtype, o.rclass, o.ttl, RdLength(o)) + Rdata(o)
  }

  function WireBytes(o: Out): seq<byte> {
    if o.QueryOut? then QueryBytes(o.qtype, o.fqdn) else ResponseBytes(o)
  }

  /**
   Section 3.2.1 of RFC 1035 makes RDLENGTH the length of the data that follows. For responses of the
   sizes this program sends, that holds exactly when the response is not a compressed PTR response.
   */
  lemma RdLengthIsLength(o: Out)
    requires o.ResponseOut? && |o.name| <= 0xFF && |EncodeName(Fqdn(o.name, o.service))| < 0x1_0000
    ensures RdLength(o) == |Rdata(o)| <==> !(o.rtype != A && o.compress)
  {
  }

  // ---------------------------------------------------------------- what is received

  datatype Message =
    | Ignored
    | Query(id: uint16, qname: seq<Label>, qtype: uint16, qclass: uint16)
    | AAnswer(aname: seq<Label>, ttl: uint32, address: Option<uint32>)
    | PtrAnswer(target: seq<Label>)
    | Stuck  // the name in the answer sends the reader into an endless loop

  function ReadQuery(b: seq<byte>, size: nat, qname: seq<Label>, end: nat): (m: Message)
    requires 12 <= size <= |b|
  {
    if end + 4 > size then Ignored
    else Query(Get16(b, 0), qname, Get16(b, end), Get16(b, end + 2))
  }

  function ReadAnswer(b: seq<byte>, size: nat, qname: seq<Label>, end: nat): (m: Message)
    requires size <= |b|
  {
    if end + 10 > size then Ignored
    else if Get16(b, end) == A then
      AAnswer(qname, Get32(b, end + 4),
              if Get16(b, end + 8) == 4 && end + 14 <= size then Some(Get32(b, end + 10)) else None)
    else if Get16(b, end) == PTR then
      match ParseCompressed(b, size, end + 10)
      case Name(fqdn, _) => PtrAnswer(fqdn)
      case Hangs => Stuck
      case _ => Ignored
    else Ignored
  }

  /** The parse that `receive_universal` makes of the first `size` bytes of its buffer. */
  function DecodeMessage(b: seq<byte>, size: nat): (m: Message)
    requires 12 <= size <= |b|
  {
    match ParseName(b, size, 12)
    case Name(qname, end) => if QR(b[2]) then ReadAnswer(b, size, qname, end) else ReadQuery(b, size, qname, end)
    case _ => Ignored
  }

  // ---------------------------------------------------------------- what decides the parse

  /** The answer at `end` is a pointer record whose name makes its reader look behind the packet. */
  ghost predicate AnswerOverreads(b: seq<byte>, size: nat, end: nat)
    requires size <= |b|
  {
    end + 10 <= size && Get16(b, end) == PTR && Overreads(b, size, end + 10)
  }

  ghost predicate MessageOverreads(b: seq<byte>, size: nat)
    requires 12 <= size <= |b|
  {
    var qname := ParseName(b, size, 12);
    qname.Name? && QR(b[2]) && AnswerOverreads(b, size, qname.end)
  }

  lemma SameFields(b: seq<byte>, c: seq<byte>, size: nat)
    requires SamePacket(b, c, size)
    ensures forall i: nat :: i < size ==> b[i] == c[i]
    ensures forall at: nat :: at + 2 <= size ==> Get16(b, at) == Get16(c, at)
    ensures forall at: nat :: at + 4 <= size ==> Get32(b, at) == Get32(c, at)
  {
    SameOctets(b, c, size);
  }

  lemma AnswerOfThePacket(b: seq<byte>, c: seq<byte>, size: nat, qname: seq<Label>, end: nat)
    requires SamePacket(b, c, size)
    ensures AnswerOverreads(b, size, end) <==> AnswerOverreads(c, size, end)
    ensures !AnswerOverreads(b, size, end) ==> ReadAnswer(b, size, qname, end) == ReadAnswer(c, size, qname, end)
  {
    SameFields(b, c, size);
    OverreadsIsOfThePacket(b, c, size, end + 10);
    hide Overreads, ParseCompressed, Get16, Get32, SamePacket;
    if end + 10 <= size && !Overreads(b, size, end + 10) {
      ReadsOnlyThePacket(b, c, size, end + 10);
    }
  }

  /**
   What a packet means does not depend on what is left over behind it, unless it is a pointer response
   that ends within a pointer which its reader comes to; and that is decided by the packet alone.
   */
  lemma MeaningOfThePacket(b: seq<byte>, c: seq<byte>, size: nat)
    requires 12 <= size && SamePacket(b, c, size)
    ensures MessageOverreads(b, size) <==> MessageOverreads(c, size)
    ensures !MessageOverreads(b, size) ==> DecodeMessage(b, size) == DecodeMessage(c, size)
  {
    PlainReaderIgnoresRest(b, c, size, 12);
    SameFields(b, c, size);
    hide ParseName, QR, AnswerOverreads, ReadAnswer, Get16, Get32, SamePacket;
    var r := ParseName(b, size, 12);
    if r.Name? {
      AnswerOfThePacket(b, c, size, r.labels, r.end);
    }
  }

  lemma CutPacketParts(leftover: byte)
    ensures var b := CutPacket(leftover);
            ParseName(b, 26, 12) == Name([[97]], 15) && QR(b[2]) && Get16(b, 15) == PTR
  {
    var b := CutPacket(leftover);
    CutOctets(leftover);
    hide CutPacket, ParseName;
    assert b[13..14] == [97] && CString([97]) == [97];
    ParseUnfold(b, 26, 12);
    ParseUnfold(b, 26, 14);
  }

  /** One packet that asks two different questions, as the octet left over behind it says. */
  lemma CutPacketMeans()
    ensures SamePacket(CutPacket(12), CutPacket(14), 26) && MessageOverreads(CutPacket(12), 26)
    ensures DecodeMessage(CutPacket(12), 26) == PtrAnswer([[97]])
    ensures DecodeMessage(CutPacket(14), 26) == PtrAnswer([])
  {
    OverreadChangesTheName();
    CutPacketParts(12);
    CutPacketParts(14);
    hide CutPacket, ParseName, ParseCompressed, Overreads, QR, Get16, SamePacket;
  }

  lemma LoopingPacketParts()
    ensures DecodeMessage(LoopingPacket(), 29) == Stuck
    ensures LoopingPacket()[28] < 0xC0
  {
    PointerLoopHangs();
    LoopingOctets();
    hide LoopingPacket, ParseName, ParseCompressed;
    assert QR(LoopingPacket()[2]);
    hide QR;
  }

  /** The looping packet reaches the loop through the whole receive path, whatever is left over behind it. */
  lemma LoopingPacketMeans(b: seq<byte>)
    requires SamePacket(LoopingPacket(), b, 29)
    ensures DecodeMessage(b, 29) == Stuck
  {
    LoopingPacketParts();
    MeaningOfThePacket(LoopingPacket(), b, 29);
    hide DecodeMessage, LoopingPacket, ParseName, QR, SamePacket;
  }

  // ---------------------------------------------------------------- round trips

  /** The buffer was filled with exactly this packet; older bytes may follow it. */
  predicate Carries(b: seq<byte>, size: nat, packet: seq<byte>) {
    size == |packet| && size <= |b| && Holds(b, size, 0, packet)
  }

  lemma HoldsU16(b: seq<byte>, size: nat, at: nat, n: uint16)
    requires Holds(b, size, at, U16(n))
    ensures at + 2 <= size && b[at] == n / 0x100 && Get16(b, at) == n
  {
    var s := U16(n);
    assert b[at] == s[0] && b[at + 1] == s[1];
  }

  lemma HoldsU32(b: seq<byte>, size: nat, at: nat, n: uint32)
    requires Holds(b, size, at, U32(n))
    ensures at + 4 <= size && Get32(b, at) == n
  {
    var s := U32(n);
    assert b[at..at + 4] == s by {
      assert b[at] == s[0] && b[at + 1] == s[1] && b[at + 2] == s[2] && b[at + 3] == s[3];
    }
    Get32Inverts(b, at, n);
  }

  lemma HoldsHeader(b: seq<byte>, size: nat, id: uint16, flags: uint16, qdcount: uint16, ancount: uint16,
                    rest: seq<byte>)
    requires Carries(b, size, HeaderBytes(id, flags, qdcount, ancount) + rest)
    ensures 12 <= size && Holds(b, size, 12, rest)
    ensures Get16(b, 0) == id && b[2] == flags / 0x100
  {
    var h := HeaderBytes(id, flags, qdcount, ancount);
    HoldsParts(b, size, 0, h, rest);
    assert h[0] == id / 0x100 && h[1] == id % 0x100 && h[2] == flags / 0x100;
    assert b[0] == h[0] && b[1] == h[1] && b[2] == h[2];
  }

  lemma HoldsQueryEnd(b: seq<byte>, size: nat, at: nat, qtype: uint16, qclass: uint16)
    requires Holds(b, size, at, QueryEndBytes(qtype, qclass))
    ensures at + 4 <= size && Get16(b, at) == qtype && Get16(b, at + 2) == qclass
  {
    HoldsParts(b, size, at, U16(qtype), U16(qclass));
    HoldsU16(b, size, at, qtype);
    HoldsU16(b, size, at + 2, qclass);
  }

  lemma HoldsAnswer(b: seq<byte>, size: nat, at: nat, rtype: uint16, rclass: uint16, ttl: uint32, length: uint16)
    requires Holds(b, size, at, AnswerBytes(rtype, rclass, ttl, length))
    ensures at + 10 <= size && Get16(b, at) == rtype && Get16(b, at + 2) == rclass
    ensures Get32(b, at + 4) == ttl && Get16(b, at + 8) == length
  {
    HoldsParts(b, size, at, U16(rtype) + U16(rclass) + U32(ttl), U16(length));
    HoldsParts(b, size, at, U16(rtype) + U16(rclass), U32(ttl));
    HoldsParts(b, size, at, U16(rtype), U16(rclass));
    HoldsU16(b, size, at, rtype);
    HoldsU16(b, size, at + 2, rclass);
    HoldsU32(b, size, at + 4, ttl);
    HoldsU16(b, size, at + 8, length);
  }

  /** Section 4.1.1 of RFC 1035: one question in a query, one answer in a response, nothing else announced. */
  lemma HeaderFields(o: Out)
    ensures var b := WireBytes(o);
            && |b| >= 12
            && Get16(b, 0) == (if o.QueryOut? then 0 else o.id)
            && Get16(b, 2) == (if o.QueryOut? then 0 else RESPONSE_FLAG)
            && Get16(b, 4) == (if o.QueryOut? then 1 else 0)
            && Get16(b, 6) == (if o.QueryOut? then 0 else 1)
            && Get16(b, 8) == 0 && Get16(b, 10) == 0
  {
    hide EncodeName, QueryEndBytes, AnswerBytes, Rdata, QuestionName, HeaderBytes;
    if o.QueryOut? {
      HeaderReads(WireBytes(o), 0, 0, 1, 0);
    } else {
      HeaderReads(WireBytes(o), o.id, RESPONSE_FLAG, 0, 1);
    }
  }

  lemma HeaderReads(b: seq<byte>, id: uint16, flags: uint16, qdcount: uint16, ancount: uint16)
    requires |b| >= 12 && b[..12] == HeaderBytes(id, flags, qdcount, ancount)
    ensures Get16(b, 0) == id && Get16(b, 2) == flags && Get16(b, 4) == qdcount && Get16(b, 6) == ancount
    ensures Get16(b, 8) == 0 && Get16(b, 10) == 0
  {
    var h := HeaderBytes(id, flags, qdcount, ancount);
    assert forall i :: 0 <= i < 12 ==> b[i] == h[i];
  }

  /** A packet made of a header, a name and a tail: where the tail starts, and what the name reads as. */
  lemma HoldsNamed(b: seq<byte>, size: nat, id: uint16, flags: uint16, qdcount: uint16, ancount: uint16,
                   name: seq<Label>, tail: seq<byte>)
    requires PlainName(name, 0xFF)
    requires Carries(b, size, HeaderBytes(id, flags, qdcount, ancount) + EncodeName(name) + tail)
    ensures 12 <= size && Get16(b, 0) == id && b[2] == flags / 0x100
    ensures ParseName(b, size, 12) == Name(name, 12 + |EncodeName(name)|)
    ensures Holds(b, size, 12, EncodeName(name)) && Holds(b, size, 12 + |EncodeName(name)|, tail)
  {
    hide ParseName;
    var h, n := HeaderBytes(id, flags, qdcount, ancount), EncodeName(name);
    assert h + n + tail == h + (n + tail);
    HoldsHeader(b, size, id, flags, qdcount, ancount, n + tail);
    HoldsParts(b, size, 12, n, tail);
    ReadNameInverts(b, size, 12, name);
  }

  /** Every query that is written is parsed as a query for that exact name, type and class 1. */
  lemma QueryRoundTrip(b: seq<byte>, size: nat, qtype: uint16, fqdn: seq<Label>)
    requires PlainName(fqdn, 0xFF) && Carries(b, size, QueryBytes(qtype, fqdn))
    ensures 12 <= size && DecodeMessage(b, size) == Query(0, fqdn, qtype, 1)
  {
    hide ParseName;
    HoldsNamed(b, size, 0, 0, 1, 0, fqdn, QueryEndBytes(qtype, 1));
    HoldsQueryEnd(b, size, 12 + |EncodeName(fqdn)|, qtype, 1);
  }

  lemma QuestionNamePlain(o: Out, max: nat)
    requires o.ResponseOut? && PlainLabel(o.name, max) && max >= 11
    ensures PlainName(QuestionName(o), max) && PlainName(Fqdn(o.name, o.service), max)
    ensures PlainName(ServiceName(o.service), max)
  {
  }

  lemma HoldsResponse(b: seq<byte>, size: nat, o: Out)
    requires o.ResponseOut? && PlainLabel(o.name, 0xFF) && Carries(b, size, ResponseBytes(o))
    ensures 12 <= size && QR(b[2]) && Holds(b, size, 12, EncodeName(QuestionName(o)))
    ensures ParseName(b, size, 12) == Name(QuestionName(o), 12 + |EncodeName(QuestionName(o))|)
    ensures var end := 12 + |EncodeName(QuestionName(o))|;
            && end + 10 <= size && Get16(b, end) == o.rtype && Get16(b, end + 2) == o.rclass
            && Get32(b, end + 4) == o.ttl && Get16(b, end + 8) == RdLength(o)
            && Holds(b, size, end + 10, Rdata(o)) && end + 10 + |Rdata(o)| == size
  {
    hide ParseName, EncodeName, QuestionName, Rdata, RdLength;
    var name, answer := QuestionName(o), AnswerBytes(o.rtype, o.rclass, o.ttl, RdLength(o));
    QuestionNamePlain(o, 0xFF);
    assert ResponseBytes(o) == HeaderBytes(o.id, RESPONSE_FLAG, 0, 1) + EncodeName(name) + (answer + Rdata(o));
    HoldsNamed(b, size, o.id, RESPONSE_FLAG, 0, 1, name, answer + Rdata(o));
    HoldsParts(b, size, 12 + |EncodeName(name)|, answer, Rdata(o));
    HoldsAnswer(b, size, 12 + |EncodeName(name)|, o.rtype, o.rclass, o.ttl, RdLength(o));
  }

  /** Every A response reaches the receiver with the same full name, time to live and address. */
  lemma AResponseRoundTrip(b: seq<byte>, size: nat, o: Out)
    requires o.ResponseOut? && o.rtype == A && PlainLabel(o.name, 0xFF) && Carries(b, size, WireBytes(o))
    ensures 12 <= size && DecodeMessage(b, size) == AAnswer(Fqdn(o.name, o.service), o.ttl, Some(o.address))
  {
    hide ParseName, EncodeName;
    HoldsResponse(b, size, o);
    HoldsU32(b, size, 22 + |EncodeName(QuestionName(o))|, o.address);
  }

  /** The compressed form of a PTR response: its pointer to offset 12 passes the range check and is followed. */
  lemma CompressedRdata(b: seq<byte>, size: nat, end: nat, name: Label, qname: seq<Label>)
    requires size <= |b| && PlainLabel(name, 0xBF) && PlainName(qname, 0xBF)
    requires Holds(b, size, 12, EncodeName(qname)) && end == 12 + |EncodeName(qname)|
    requires Holds(b, size, end + 10, EncodeLabel(name) + [0xC0, 12])
    ensures ParseCompressed(b, size, end + 10) == Name([name] + qname, end + 10 + |name| + 4)
  {
    hide ParseName, ParseCompressed, NoPointers, EncodeLabels, Holds, Pointed;
    ReadNameInverts(b, size, 12, qname);
    PlainNameHasNoPointers(b, size, 12, qname);
    CompressedIsPointed(b, size, end + 10, name);
    hide PlainLabel, PlainName, EncodeLabel, EncodeName;
    PointerIntoQname(b, size, 0, [name], end + 10 + |name| + 1);
  }

  lemma CompressedIsPointed(b: seq<byte>, size: nat, at: nat, name: Label)
    requires size <= |b| && PlainLabel(name, 0xBF) && Holds(b, size, at, EncodeLabel(name) + [0xC0, 12])
    ensures Pointed(b, size, at, [name], at + |name| + 1, 12)
  {
    hide Pointed, Holds, PlainLabel;
    var prefix: seq<Label> := [name];
    assert EncodeLabels(prefix) == EncodeLabel(name) by {
      EncodeLabelsSnoc([], name);
      assert [] + [name] == prefix;
    }
    hide EncodeLabels;
    PointedBytes(b, size, at, prefix, 0xC0, 12);
  }

  /**
   Both encodings of a PTR response decode to the same full name, so hosts built with and without
   compression understand each other.
   */
  lemma PtrResponseRoundTrip(b: seq<byte>, size: nat, o: Out)
    requires o.ResponseOut? && o.rtype == PTR && PlainLabel(o.name, 0xBF) && Carries(b, size, WireBytes(o))
    ensures 12 <= size && DecodeMessage(b, size) == PtrAnswer(Fqdn(o.name, o.service))
  {
    hide ParseName, ParseCompressed, EncodeName;
    var fqdn := Fqdn(o.name, o.service);
    var end := 12 + |EncodeName(QuestionName(o))|;
    HoldsResponse(b, size, o);
    QuestionNamePlain(o, 0xBF);
    if o.compress {
      CompressedRdata(b, size, end, o.name, ServiceName(o.service));
    } else {
      PlainNameHasNoPointers(b, size, end + 10, fqdn);
      ReadersAgreeOnPlainNames(b, size, end + 10);
      ReadNameInverts(b, size, end + 10, fqdn);
    }
  }

  // ---------------------------------------------------------------- every octet that is sent

  lemma Octets16(n: uint16)
    ensures U16(n) == [n / 256, n % 256]
  {
  }

  /** The services' names: _opoznienia._udp.local and _ssh._tcp.local. */
  lemma ServiceOctets()
    ensures EncodeName(ServiceName(UDP)) ==
            [11, 95, 111, 112, 111, 122, 110, 105, 101, 110, 105, 97, 4, 95, 117, 100, 112, 5, 108, 111, 99, 97, 108, 0]
    ensures EncodeName(ServiceName(TCP)) ==
            [4, 95, 115, 115, 104, 4, 95, 116, 99, 112, 5, 108, 111, 99, 97, 108, 0]
  {
    UdpOctets();
    TcpOctets();
    hide EncodeName;
  }

  lemma UdpOctets()
    ensures EncodeName(ServiceName(UDP)) ==
            [11, 95, 111, 112, 111, 122, 110, 105, 101, 110, 105, 97, 4, 95, 117, 100, 112, 5, 108, 111, 99, 97, 108, 0]
  {
    hide EncodeName;
    ThreeLabels(OPOZNIENIA, UDP_LABEL, LOCAL);
  }

  lemma TcpOctets()
    ensures EncodeName(ServiceName(TCP)) ==
            [4, 95, 115, 115, 104, 4, 95, 116, 99, 112, 5, 108, 111, 99, 97, 108, 0]
  {
    hide EncodeName;
    ThreeLabels(SSH, TCP_LABEL, LOCAL);
  }

  lemma ThreeLabels(x: Label, y: Label, z: Label)
    ensures EncodeName([x, y, z]) ==
            [|x| % 0x100] + x + [|y| % 0x100] + y + [|z| % 0x100] + z + [0]
  {
    var nil: seq<Label> := [];
    assert [x, y, z][1..] == [y, z] && [y, z][1..] == [z] && [z][1..] == nil;
    EncodeNameCons([x, y, z]);
    EncodeNameCons([y, z]);
    EncodeNameCons([z]);
    assert EncodeName(nil) == [0];
    hide EncodeName;
  }

  lemma FullNameOctets(name: Label, s: Service)
    ensures EncodeName(Fqdn(name, s)) == [|name| % 256] + name + EncodeName(ServiceName(s))
  {
    EncodeNameCons(Fqdn(name, s));
    assert Fqdn(name, s)[1..] == ServiceName(s);
    hide EncodeName;
  }

  /** Queries go to 224.0.0.251, port 5353, and are these octets; type 1 is an address, type 12 a pointer. */
  lemma QueryOctets(qtype: uint16, fqdn: seq<Label>)
    ensures Destination(QueryOut(qtype, fqdn)) == Endpoint(224 * 16777216 + 251, 5353) && A == 1 && PTR == 12
    ensures WireBytes(QueryOut(qtype, fqdn)) ==
            [0, 0, 0, 0, 0, 1, 0, 0, 0, 0, 0, 0] + EncodeName(fqdn) + [qtype / 256, qtype % 256, 0, 1]
  {
    hide EncodeName;
    assert HeaderBytes(0, 0, 1, 0) == [0, 0, 0, 0, 0, 1, 0, 0, 0, 0, 0, 0];
    assert QueryEndBytes(qtype, 1) == [qtype / 256, qtype % 256, 0, 1];
  }

  /** Responses begin with these octets: one answer, and its fields in turn. */
  lemma ResponseOctets(o: Out)
    requires o.ResponseOut?
    ensures WireBytes(o) ==
            [o.id / 256, o.id % 256, 132, 0, 0, 0, 0, 1, 0, 0, 0, 0] + EncodeName(QuestionName(o)) +
            [o.rtype / 256, o.rtype % 256, o.rclass / 256, o.rclass % 256] + U32(o.ttl) +
            [RdLength(o) / 256, RdLength(o) % 256] + Rdata(o)
  {
    hide EncodeName, QuestionName, Rdata, RdLength, U32;
    assert HeaderBytes(o.id, RESPONSE_FLAG, 0, 1) == [o.id / 256, o.id % 256, 132, 0, 0, 0, 0, 1, 0, 0, 0, 0];
    AnswerOctets(o.rtype, o.rclass, o.ttl, RdLength(o));
    assert AnswerBytes(o.rtype, o.rclass, o.ttl, RdLength(o)) ==
           [o.rtype / 256, o.rtype % 256, o.rclass / 256, o.rclass % 256] + U32(o.ttl) +
           [RdLength(o) / 256, RdLength(o) % 256];
  }

  lemma AnswerOctets(rtype: uint16, rclass: uint16, ttl: uint32, length: uint16)
    ensures AnswerBytes(rtype, rclass, ttl, length) ==
            [rtype / 256, rtype % 256, rclass / 256, rclass % 256] + U32(ttl) + [length / 256, length % 256]
  {
    hide U32;
    assert U16(rtype) + U16(rclass) == [rtype / 256, rtype % 256, rclass / 256, rclass % 256];
  }

  /** The record data: an address by its octets; a pointer's target with two octets 192, 12 or written out. */
  lemma RdataOctets(o: Out)
    requires o.ResponseOut? && (o.rtype == 1 || o.rtype == 12)
    ensures o.rtype == 1 ==>
              QuestionName(o) == Fqdn(o.name, o.service) && RdLength(o) == 4 && Rdata(o) == U32(o.address)
    ensures o.rtype == 12 ==> QuestionName(o) == ServiceName(o.service)
    ensures o.rtype == 12 && o.compress ==>
              Rdata(o) == [|o.name| % 256] + o.name + [192, 12] && RdLength(o) == (|o.name| + 2) % 0x1_0000
    ensures o.rtype == 12 && !o.compress ==>
              Rdata(o) == [|o.name| % 256] + o.name + EncodeName(ServiceName(o.service))
              && RdLength(o) == |Rdata(o)| % 0x1_0000
  {
    FullNameOctets(o.name, o.service);
    hide EncodeName, U32;
  }

  // ---------------------------------------------------------------- whoever sent it

  /** Any twelve octets, a name, and a tail: where the tail lies, and what the name reads as. */
  lemma HoldsAfterHead(b: seq<byte>, size: nat, head: seq<byte>, name: seq<Label>, tail: seq<byte>)
    requires |head| == 12 && PlainName(name, 0xFF) && Carries(b, size, head + (EncodeName(name) + tail))
    ensures 12 <= size && b[0] == head[0] && b[1] == head[1] && b[2] == head[2]
    ensures ParseName(b, size, 12) == Name(name, 12 + |EncodeName(name)|)
    ensures Holds(b, size, 12 + |EncodeName(name)|, tail) && size == 12 + |EncodeName(name)| + |tail|
  {
    hide ParseName, EncodeName;
    HoldsParts(b, size, 0, head, EncodeName(name) + tail);
    HoldsParts(b, size, 12, EncodeName(name), tail);
    ReadNameInverts(b, size, 12, name);
  }

  /**
   A query in any packet: identifier, type and class are these octets of it, whatever its other fields say
   and whatever follows; a packet that ends before is ignored.
   */
  lemma QueryMeans(b: seq<byte>, size: nat, head: seq<byte>, name: seq<Label>, tail: seq<byte>)
    requires |head| == 12 && !QR(head[2]) && PlainName(name, 0xFF)
    requires Carries(b, size, head + (EncodeName(name) + tail))
    ensures 12 <= size
    ensures |tail| < 4 ==> DecodeMessage(b, size) == Ignored
    ensures |tail| >= 4 ==>
              DecodeMessage(b, size) ==
              Query(head[0] as int * 256 + head[1] as int, name,
                    tail[0] as int * 256 + tail[1] as int, tail[2] as int * 256 + tail[3] as int)
  {
    hide ParseName, EncodeName, QR;
    HoldsAfterHead(b, size, head, name, tail);
    var end := 12 + |EncodeName(name)|;
    if |tail| >= 4 {
      assert b[end] == tail[0] && b[end + 1] == tail[1] && b[end + 2] == tail[2] && b[end + 3] == tail[3];
    }
  }

  /** An address record in any packet: time to live, and if its length is right the address, are these octets. */
  lemma AddressMeans(b: seq<byte>, size: nat, head: seq<byte>, name: seq<Label>, tail: seq<byte>)
    requires |head| == 12 && QR(head[2]) && PlainName(name, 0xFF)
    requires Carries(b, size, head + (EncodeName(name) + tail))
    ensures 12 <= size
    ensures |tail| < 10 ==> DecodeMessage(b, size) == Ignored
    ensures |tail| >= 10 && tail[0] == 0 && tail[1] == 1 ==>
              DecodeMessage(b, size) ==
              AAnswer(
                name,
                tail[4] as int * 16777216 + tail[5] as int * 65536 + tail[6] as int * 256 + tail[7] as int,
                if |tail| >= 14 && tail[8] == 0 && tail[9] == 4 then
                  Some(tail[10] as int * 16777216 + tail[11] as int * 65536 + tail[12] as int * 256 + tail[13] as int)
                else None)
    ensures |tail| >= 10 && (tail[0] != 0 || (tail[1] != 1 && tail[1] != 12)) ==> DecodeMessage(b, size) == Ignored
  {
    hide ParseName, ParseCompressed, EncodeName, QR;
    HoldsAfterHead(b, size, head, name, tail);
    var end := 12 + |EncodeName(name)|;
    if |tail| >= 10 {
      TailOctets(b, size, end, tail);
      hide Holds;
      if tail[0] == 0 && tail[1] == 1 {
        assert Get16(b, end) == 1;
      }
    }
  }

  lemma TailOctets(b: seq<byte>, size: nat, end: nat, tail: seq<byte>)
    requires Holds(b, size, end, tail)
    ensures end + |tail| <= |b| && forall i :: 0 <= i < |tail| ==> b[end + i] == tail[i]
  {
  }

  // ---------------------------------------------------------------- packets the program can not cope with

  /** An address record whose name is the root. */
  function RootRecord(ttl: uint32, address: uint32): seq<byte> {
    HeaderBytes(0, RESPONSE_FLAG, 0, 1) + EncodeName([]) + (AnswerBytes(A, 0x8001, ttl, 4) + U32(address))
  }

  lemma RootQueryMeans(b: seq<byte>, size: nat)
    requires Carries(b, size, QueryBytes(A, []))
    ensures 12 <= size && DecodeMessage(b, size) == Query(0, [], A, 1)
  {
    QueryRoundTrip(b, size, A, []);
  }

  lemma RootRecordMeans(b: seq<byte>, size: nat, ttl: uint32, address: uint32)
    requires Carries(b, size, RootRecord(ttl, address))
    ensures 12 <= size && DecodeMessage(b, size) == AAnswer([], ttl, Some(address))
  {
    hide ParseName, EncodeName;
    var end := 12 + |EncodeName([])|;
    var answer := AnswerBytes(A, 0x8001, ttl, 4);
    HoldsNamed(b, size, 0, RESPONSE_FLAG, 0, 1, [], answer + U32(address));
    HoldsParts(b, size, end, answer, U32(address));
    HoldsAnswer(b, size, end, A, 0x8001, ttl, 4);
    HoldsU32(b, size, end + 10, address);
    assert QR(b[2]);
  }
}
