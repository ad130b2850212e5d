/**
 Fixed-size records of the mDNS packet (mdns_fields.h): big-endian fields inside a byte array.
 The header, the query end, the answer and the address differ only in size and field offsets.
 */
module MdnsFields {
  import opened Shared

  function U16(n: uint16): (r: seq<byte>) {
    [n / 0x100, n % 0x100]
  }

  function U32(n: uint32): (r: seq<byte>) {
    [n / 0x1_0000 / 0x100, n / 0x1_0000 % 0x100, n % 0x1_0000 / 0x100, n % 0x100]
  }

  /** The shifts and masks of `encode` pick the same four octets. */
  lemma ShiftedOctets(n: uint32)
    ensures n / 0x100_0000 == n / 0x1_0000 / 0x100
    ensures n / 0x100 % 0x100 == n % 0x1_0000 / 0x100
  {
    var high, low := n / 0x1_0000, n % 0x1_0000;
    assert n == high * 0x1_0000 + low;
    assert n / 0x100 == high * 0x100 + low / 0x100;
  }

  /** The octets' weights: the first is the highest. */
  lemma Weights(n: uint16, m: uint32)
    ensures U16(n)[0] as int * 256 + U16(n)[1] as int == n && |U16(n)| == 2
    ensures var s := U32(m);
            |s| == 4 && s[0] as int * 16777216 + s[1] as int * 65536 + s[2] as int * 256 + s[3] as int == m
  {
    ByOctets(n);
    ByOctets(m / 0x1_0000);
    ByOctets(m % 0x1_0000);
    ByHalves(m);
    LowOctet(m);
  }

  lemma ByOctets(x: nat)
    ensures x / 0x100 * 0x100 + x % 0x100 == x
  {
  }

  lemma ByHalves(x: nat)
    ensures x / 0x1_0000 * 0x1_0000 + x % 0x1_0000 == x
  {
  }

  lemma LowOctet(x: nat)
    ensures x % 0x1_0000 % 0x100 == x % 0x100
  {
  }

  function Get16(b: seq<byte>, a: nat): uint16
    requires a + 2 <= |b|
  {
    b[a] as int * 0x100 + b[a + 1] as int
  }

  function Get32(b: seq<byte>, a: nat): uint32
    requires a + 4 <= |b|
  {
    b[a] as int * 0x100_0000 + b[a + 1] as int * 0x1_0000 + b[a + 2] as int * 0x100 + b[a + 3] as int
  }

  /** Decoding inverts encoding, at any offset of any buffer. */
  lemma Get16Inverts(b: seq<byte>, a: nat, n: uint16)
    requires a + 2 <= |b| && b[a..a + 2] == U16(n)
    ensures Get16(b, a) == n
  {
    assert b[a] == b[a..a + 2][0] && b[a + 1] == b[a..a + 2][1];
  }

  lemma Get32Inverts(b: seq<byte>, a: nat, n: uint32)
    requires a + 4 <= |b| && b[a..a + 4] == U32(n)
    ensures Get32(b, a) == n
  {
    assert n % 0x1_0000 % 0x100 == n % 0x100;
    var s := b[a..a + 4];
    assert b[a] == s[0] && b[a + 1] == s[1] && b[a + 2] == s[2] && b[a + 3] == s[3];
  }

  function U64(n: uint64): seq<byte> {
    U32(n / WRAP32) + U32(n % WRAP32)
  }

  function Get64(b: seq<byte>, a: nat): uint64
    requires a + 8 <= |b|
  {
    Get32(b, a) * WRAP32 + Get32(b, a + 4)
  }

  lemma Get64Inverts(b: seq<byte>, a: nat, n: uint64)
    requires a + 8 <= |b| && b[a..a + 8] == U64(n)
    ensures Get64(b, a) == n
  {
    var high, low := U32(n / WRAP32), U32(n % WRAP32);
    assert (high + low)[..4] == high && (high + low)[4..] == low;
    assert b[a..a + 8][..4] == b[a..a + 4] && b[a..a + 8][4..] == b[a + 4..a + 4 + 4];
    hide U32;
    Get32Inverts(b, a, n / WRAP32);
    Get32Inverts(b, a + 4, n % WRAP32);
  }

  /** Fields keep their place when a record is copied out of a packet. */
  lemma GetInCopy(b: seq<byte>, start: nat, end: nat, a: nat)
    requires start <= end <= |b| && start + a + 2 <= end
    ensures Get16(b[start..end], a) == Get16(b, start + a)
    ensures start + a + 4 <= end ==> Get32(b[start..end], a) == Get32(b, start + a)
  {
  }

  /** Bitwise `&`. */
  function And(x: nat, y: nat): nat {
    if x == 0 || y == 0 then 0 else 2 * And(x / 2, y / 2) + x % 2 * (y % 2)
  }

  function Pow2(k: nat): (r: nat)
    ensures r >= 1
  {
    if k == 0 then 1 else 2 * Pow2(k - 1)
  }

  /** A mask of `h` ones followed by `k` zeros. */
  function Mask(h: nat, k: nat): nat {
    if k == 0 then Pow2(h) - 1 else 2 * Mask(h, k - 1)
  }

  /** What is left without the `k` lowest bits. */
  function High(x: nat, k: nat): nat {
    if k == 0 then x else High(x / 2, k - 1)
  }

  lemma {:induction false} Pow2Sum(h: nat, k: nat)
    ensures Pow2(h + k) == Pow2(h) * Pow2(k)
    decreases k
  {
    if k > 0 {
      Pow2Sum(h, k - 1);
      assert Pow2(h + k) == 2 * Pow2(h + (k - 1)) == 2 * (Pow2(h) * Pow2(k - 1));
    }
  }

  lemma Pow2Values()
    ensures Pow2(8) == 256 && Pow2(24) == 0x100_0000 && Pow2(32) == 0x1_0000_0000
  {
    assert Pow2(2) == 2 * Pow2(1) == 4 * Pow2(0) == 4;
    Pow2Sum(2, 2);
    Pow2Sum(4, 4);
    Pow2Sum(8, 8);
    Pow2Sum(16, 8);
    Pow2Sum(16, 16);
    hide Pow2;
  }

  lemma {:induction false} MaskIs(h: nat, k: nat)
    ensures Mask(h, k) == (Pow2(h) - 1) * Pow2(k)
    decreases k
  {
    if k > 0 {
      MaskIs(h, k - 1);
      var ones, low := Pow2(h) - 1, Pow2(k - 1);
      assert Mask(h, k) == 2 * (ones * low);
      assert 2 * (ones * low) == ones * (2 * low);
    }
  }

  lemma {:induction false} MaskBound(h: nat, k: nat)
    ensures Mask(h, k) < Pow2(h + k)
    decreases k
  {
    if k > 0 {
      MaskBound(h, k - 1);
    }
  }

  lemma HighFour(x: nat, k: nat)
    ensures High(x, k + 4) == High(x / 16, k)
  {
    assert High(x, k + 4) == High(x / 2, k + 3) == High(x / 4, k + 2);
    assert High(x / 4, k + 2) == High(x / 8, k + 1) == High(x / 16, k);
  }

  lemma {:induction false} AndAllOnes(x: nat, h: nat)
    requires x < Pow2(h)
    ensures And(x, Pow2(h) - 1) == x
  {
    if h > 0 {
      AndAllOnes(x / 2, h - 1);
      var y := Pow2(h) - 1;
      assert y / 2 == Pow2(h - 1) - 1 && y % 2 == 1;
    }
  }

  lemma AndOfEven(x: nat, half: nat)
    ensures And(x, 2 * half) == 2 * And(x / 2, half)
  {
    assert 2 * half / 2 == half && 2 * half % 2 == 0;
  }

  /** Under such a mask two numbers look alike if and only if they agree but for the `k` lowest bits. */
  lemma {:induction false} AndPrefix(x: nat, y: nat, h: nat, k: nat)
    requires x < Pow2(h + k) && y < Pow2(h + k)
    ensures And(x, Mask(h, k)) == And(y, Mask(h, k)) <==> High(x, k) == High(y, k)
    decreases k
  {
    if k == 0 {
      AndAllOnes(x, h);
      AndAllOnes(y, h);
    } else {
      AndPrefix(x / 2, y / 2, h, k - 1);
      AndOfEven(x, Mask(h, k - 1));
      AndOfEven(y, Mask(h, k - 1));
    }
  }

  predicate Bit(n: nat, weight: nat)
    requires weight > 0
  {
    n / weight % 2 == 1
  }

  /** The response test on the flags' first octet: it masks with 0xA0, so bit 5 counts too. */
  predicate QR(flagsHigh: byte) {
    Bit(flagsHigh, 0x80) || Bit(flagsHigh, 0x20)
  }

  /** The unicast-response test on a query's class: it masks with 0xA000. */
  predicate QU(qclass: uint16) {
    Bit(qclass, 0x8000) || Bit(qclass, 0x2000)
  }

  /**
   Section 4.1.1 of RFC 1035 puts QR in the top bit alone. The test misreads exactly the queries whose
   second opcode bit is set, such as those with flags 0x2000: it takes them for responses.
   */
  lemma QrMisread(flagsHigh: byte)
    ensures QR(flagsHigh) != (flagsHigh >= 0x80) <==> flagsHigh < 0x80 && Bit(flagsHigh, 0x20)
    ensures QR(0x20)
  {
    assert Bit(flagsHigh, 0x80) <==> flagsHigh >= 0x80;
  }

  /**
   Section 18.12 of RFC 6762 asks for a unicast answer by the top bit of the class alone. The test
   misreads exactly the classes with bit 13 set and the top bit clear, such as 0x2001.
   */
  lemma QuMisread(qclass: uint16)
    ensures QU(qclass) != (qclass >= 0x8000) <==> qclass < 0x8000 && Bit(qclass, 0x2000)
    ensures QU(0x2001)
  {
    assert Bit(qclass, 0x8000) <==> qclass >= 0x8000;
  }

  /** A record: `rep_` with its `encode`, `decode`, `read` and `operator<<`. */
  class Record {
    const rep: array<byte>

    constructor (size: nat)
      ensures fresh(rep) && rep.Length == size
      ensures forall i :: 0 <= i < size ==> rep[i] == 0
    {
      rep := new byte[size](_ => 0);
    }

    function Bytes(): seq<byte>
      reads rep
    {
      rep[..]
    }

    function Decode16(a: nat): uint16
      requires a + 2 <= rep.Length
      reads rep
    {
      Get16(Bytes(), a)
    }

    function Decode32(a: nat): uint32
      requires a + 4 <= rep.Length
      reads rep
    {
      Get32(Bytes(), a)
    }

    method Encode16(a: nat, n: uint16)
      requires a + 2 <= rep.Length
      modifies rep
      ensures forall i :: 0 <= i < rep.Length ==>
                rep[i] == if i == a then n / 0x100 else if i == a + 1 then n % 0x100 else old(rep[i])
    {
      rep[a] := n / 0x100;
      rep[a + 1] := n % 0x100;
    }

    method Encode32(a: nat, n: uint32)
      requires a + 4 <= rep.Length
      modifies rep
      ensures forall i :: 0 <= i < rep.Length ==> rep[i] == if a <= i < a + 4 then U32(n)[i - a] else old(rep[i])
    {
      ShiftedOctets(n);
      rep[a] := n / 0x100_0000;
      rep[a + 1] := n / 0x1_0000 % 0x100;
      rep[a + 2] := n / 0x100 % 0x100;
      rep[a + 3] := n % 0x100;
    }

    /** Copies the record out of the packet, or reports that the packet is too small. */
    method Read(buffer: seq<byte>, start: nat, size: nat) returns (ok: bool, end: nat)
      requires size <= |buffer|
      modifies rep
      ensures ok <==> start + rep.Length <= size
      ensures ok ==> end == start + rep.Length && Bytes() == buffer[start..end]
      ensures !ok ==> end == start && Bytes() == old(Bytes())
    {
      end := start;
      ok := start + rep.Length <= size;
      if ok {
        forall i | 0 <= i < rep.Length {
          rep[i] := buffer[start + i];
        }
        end := start + rep.Length;
      }
    }
  }
}
