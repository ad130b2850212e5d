/** Types, constants and the service matcher shared by every component (shared.h, shared.cc). */
module Shared {

  type byte = x: int | 0 <= x < 0x100
  type uint16 = x: int | 0 <= x < 0x1_0000
  type uint32 = x: int | 0 <= x < 0x1_0000_0000
  type uint64 = x: int | 0 <= x < 0x1_0000_0000_0000_0000

  /** 32-bit arithmetic is modulo this. */
  const WRAP32 := 0x1_0000_0000

  /** One label of a domain name: the bytes of a C++ std::string. */
  type Label = seq<byte>

  datatype Option<+T> = None | Some(value: T)

  /** Largest datagram the receive buffers hold, and the smallest that is looked at. */
  const BUFFER_SIZE := 1500
  const MIN_MDNS_SIZE := 12

  const MDNS_PORT: uint16 := 5353
  const RESPONSE_FLAG: uint16 := 0x8400

  /** The two record types of `enum dns_type`. */
  const A: uint16 := 1
  const PTR: uint16 := 12

  // The fixed labels, spelled in ASCII.
  const OPOZNIENIA: Label := [95, 111, 112, 111, 122, 110, 105, 101, 110, 105, 97]  // _opoznienia
  const UDP_LABEL: Label := [95, 117, 100, 112]                                     // _udp
  const SSH: Label := [95, 115, 115, 104]                                           // _ssh
  const TCP_LABEL: Label := [95, 116, 99, 112]                                      // _tcp
  const LOCAL: Label := [108, 111, 99, 97, 108]                                     // local

  datatype Service = UDP | TCP | NONE

  /** The labels that follow the host name in a service's full name; also its PTR query name. */
  function ServiceName(s: Service): seq<Label> {
    match s
    case UDP => [OPOZNIENIA, UDP_LABEL, LOCAL]
    case TCP => [SSH, TCP_LABEL, LOCAL]
    case NONE => [LOCAL]
  }

  function Fqdn(name: Label, s: Service): seq<Label> {
    [name] + ServiceName(s)
  }

  /**
   Which service the labels from `start` on name. Labels past the third are not looked at, and
   the ssh service is only recognised by a host that announces it.
   */
  function WhichMyService(announceSsh: bool, fqdn: seq<Label>, start: nat): (r: Service)
    ensures r == UDP <==> start + 3 <= |fqdn| && fqdn[start..start + 3] == ServiceName(UDP)
    ensures r == TCP <==> announceSsh && start + 3 <= |fqdn| && fqdn[start..start + 3] == ServiceName(TCP)
  {
    assert OPOZNIENIA[1] != SSH[1];
    var three := start + 2 < |fqdn|;
    if three && fqdn[start] == OPOZNIENIA && fqdn[start + 1] == UDP_LABEL && fqdn[start + 2] == LOCAL then
      UDP
    else if announceSsh && three && fqdn[start] == SSH && fqdn[start + 1] == TCP_LABEL && fqdn[start + 2] == LOCAL then
      TCP
    else
      NONE
  }
}
