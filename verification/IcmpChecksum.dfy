/** The checksum of an ICMP message (icmp_header.hpp) against the one's complement sum of RFC 1071. */
module IcmpChecksum {
  import opened Shared
  import opened MdnsFields

  // ---------------------------------------------------------------- the reference

  /** Big-endian words; an odd last byte is padded with zero. */
  function Words(b: seq<byte>): seq<uint16> {
    if b == [] then []
    else if |b| == 1 then [b[0] as int * 0x100]
    else [b[0] as int * 0x100 + b[1] as int] + Words(b[2..])
  }

  /** One's complement addition: the carry is added back in. */
  function OnesAdd(x: uint16, y: uint16): uint16 {
    if x + y > 0xFFFF then x + y - 0xFFFF else x + y
  }

  function OnesSum(ws: seq<uint16>): uint16 {
    if ws == [] then 0 else OnesAdd(OnesSum(ws[..|ws| - 1]), ws[|ws| - 1])
  }

  /** A message is intact when its words, the stored checksum among them, sum to all ones. */
  predicate Verifies(ws: seq<uint16>) {
    OnesSum(ws) == 0xFFFF
  }

  // ---------------------------------------------------------------- the code's computation

  function Total(ws: seq<uint16>): nat {
    if ws == [] then 0 else ws[0] + Total(ws[1..])
  }

  /** The last three lines: two folds and a complement of a 32-bit sum. */
  function Folded(sum: uint32): uint16 {
    var once := sum / 0x1_0000 + sum % 0x1_0000;
    var twice := once + once / 0x1_0000;
    0xFFFF - twice % 0x1_0000
  }

  /** The words of a header without its checksum. */
  function HeaderWords(first: uint16, identifier: uint16, sequence: uint16): seq<uint16> {
    [first, identifier, sequence]
  }

  function Checksum(first: uint16, identifier: uint16, sequence: uint16, body: seq<byte>): uint16 {
    Folded((first + identifier + sequence + Total(Words(body))) % WRAP32)
  }

  /** The loop over the body, with the sum in 32 wrapping bits. */
  method AddBody(start: uint32, body: seq<byte>) returns (sum: uint32)
    ensures sum == (start + Total(Words(body))) % WRAP32
  {
    hide Summed, Total, Words;
    sum := start;
    ghost var unbounded: nat := start;
    var i := 0;
    SummedStarts(start, body);
    while i < |body|
      invariant i <= |body| && Summed(start, body, i, sum, unbounded)
    {
      SummedNext(start, body, i, sum, unbounded);
      sum, unbounded := (sum + body[i] as int * 0x100) % WRAP32, unbounded + body[i] as int * 0x100;
      i := i + 1;
      if i != |body| {
        sum, unbounded := (sum + body[i] as int) % WRAP32, unbounded + body[i] as int;
        i := i + 1;
      }
    }
    SummedEnds(start, body, sum, unbounded);
  }

  /** The sum of the octets before `i` has been added: without bound, and in 32 bits. */
  predicate Summed(start: uint32, body: seq<byte>, i: nat, sum: uint32, unbounded: nat)
    requires i <= |body|
  {
    && sum == unbounded % WRAP32
    && unbounded + Total(Words(body[i..])) == start + Total(Words(body))
  }

  lemma SummedStarts(start: uint32, body: seq<byte>)
    ensures Summed(start, body, 0, start, start)
  {
    hide Total, Words;
    assert body[0..] == body;
  }

  lemma SummedNext(start: uint32, body: seq<byte>, i: nat, sum: uint32, unbounded: nat)
    requires i < |body| && Summed(start, body, i, sum, unbounded)
    ensures var high := body[i] as int * 0x100;
            if i + 1 == |body| then Summed(start, body, i + 1, (sum + high) % WRAP32, unbounded + high)
            else
              var low := body[i + 1] as int;
              Summed(start, body, i + 2, ((sum + high) % WRAP32 + low) % WRAP32, unbounded + high + low)
  {
    WordsStep(body, i);
    hide Total, Words;
    AddWraps(unbounded, body[i] as int * 0x100);
    if i + 1 < |body| {
      AddWraps(unbounded + body[i] as int * 0x100, body[i + 1]);
    }
  }

  lemma SummedEnds(start: uint32, body: seq<byte>, sum: uint32, unbounded: nat)
    requires Summed(start, body, |body|, sum, unbounded)
    ensures sum == (start + Total(Words(body))) % WRAP32
  {
    assert body[|body|..] == [];
  }

  lemma AddWraps(sum: nat, x: nat)
    ensures (sum % WRAP32 + x) % WRAP32 == (sum + x) % WRAP32
  {
  }

  method ComputeChecksum(header: Record, body: seq<byte>)
    requires header.rep.Length == 8
    modifies header.rep
    ensures var rep := old(header.Bytes());
            header.Bytes() == rep[..2] + U16(Checksum(Get16(rep, 0), Get16(rep, 4), Get16(rep, 6), body)) + rep[4..]
  {
    hide Total, Words, Folded;
    var first := header.rep[0] as int * 0x100 + header.rep[1] as int;
    var sum: uint32 := first + header.Decode16(4) + header.Decode16(6);
    sum := AddBody(sum, body);
    header.Encode16(2, Folded(sum));
  }

  lemma WordsStep(body: seq<byte>, i: nat)
    requires i < |body|
    ensures Total(Words(body[i..])) ==
            if i + 1 == |body| then body[i] as int * 0x100 + Total(Words(body[i + 1..]))
            else body[i] as int * 0x100 + body[i + 1] as int + Total(Words(body[i + 2..]))
  {
    var rest := body[i..];
    if i + 1 == |body| {
      assert body[i + 1..] == [];
    } else {
      assert rest[2..] == body[i + 2..];
      assert (Words(rest))[1..] == Words(rest[2..]);
    }
  }

  // ---------------------------------------------------------------- the two agree

  /** The one's complement value of an ordinary sum: zero only for zero. */
  function Ones(s: nat): (r: uint16) {
    if s == 0 then 0 else if s % 0xFFFF == 0 then 0xFFFF else s % 0xFFFF
  }

  lemma Residue(q: nat, r: nat)
    ensures (q * 0xFFFF + r) % 0xFFFF == r % 0xFFFF
  {
  }

  lemma OnesOf(s: nat, q: nat, r: nat)
    requires s == q * 0xFFFF + r && r <= 0xFFFF && (r == 0 <==> s == 0)
    ensures Ones(s) == r
  {
    Residue(q, r);
  }

  lemma OnesAddIsSum(s: nat, w: uint16)
    ensures OnesAdd(Ones(s), w) == Ones(s + w)
  {
    var q := (s - Ones(s)) / 0xFFFF;
    assert s == q * 0xFFFF + Ones(s) by {
      var m := s / 0xFFFF;
      assert s == m * 0xFFFF + s % 0xFFFF;
      if s != 0 && s % 0xFFFF == 0 {
        assert s - 0xFFFF == (m - 1) * 0xFFFF;
      }
    }
    if Ones(s) + w > 0xFFFF {
      OnesOf(s + w, q + 1, Ones(s) + w - 0xFFFF);
    } else {
      OnesOf(s + w, q, Ones(s) + w);
    }
  }

  lemma {:induction false} TotalSnoc(ws: seq<uint16>, w: uint16)
    ensures Total(ws + [w]) == Total(ws) + w
  {
    if ws != [] {
      TotalSnoc(ws[1..], w);
      assert (ws + [w])[1..] == ws[1..] + [w];
    } else {
      assert ws + [w] == [w];
      assert [w][1..] == [];
    }
  }

  /** Adding with end-around carry, word by word, is one ordinary sum reduced at the end. */
  lemma {:induction false} OnesSumIsTotal(ws: seq<uint16>)
    ensures OnesSum(ws) == Ones(Total(ws))
  {
    if ws != [] {
      var init, last := ws[..|ws| - 1], ws[|ws| - 1];
      OnesSumIsTotal(init);
      OnesAddIsSum(Total(init), last);
      TotalSnoc(init, last);
      assert ws == init + [last];
    }
  }

  /** Two folds of a 32-bit sum suffice. */
  lemma TwoFoldsSuffice(sum: uint32)
    ensures Folded(sum) == 0xFFFF - Ones(sum)
  {
    var high, low := sum / 0x1_0000, sum % 0x1_0000;
    var once := high + low;
    assert sum == high * 0xFFFF + once;
    var carry := once / 0x1_0000;
    assert carry == 0 || carry == 1;
    var r := once - carry * 0xFFFF;
    assert (once + carry) % 0x1_0000 == r;
    OnesOf(sum, high + carry, r);
  }

  lemma {:induction false} TotalBound(ws: seq<uint16>)
    ensures Total(ws) <= |ws| * 0xFFFF
  {
    if ws != [] {
      TotalBound(ws[1..]);
    }
  }

  lemma {:induction false} WordCount(b: seq<byte>)
    ensures |Words(b)| == (|b| + 1) / 2
    decreases |b|
  {
    if |b| >= 2 {
      WordCount(b[2..]);
    }
  }

  /** The message as sent: the checksum is the second word. */
  function Message(first: uint16, checksum: uint16, identifier: uint16, sequence: uint16, body: seq<byte>)
    : seq<uint16>
  {
    [first, checksum, identifier, sequence] + Words(body)
  }

  lemma TotalCons(w: uint16, ws: seq<uint16>)
    ensures Total([w] + ws) == w + Total(ws)
  {
    assert ([w] + ws)[1..] == ws;
  }

  lemma MessageTotal(first: uint16, checksum: uint16, identifier: uint16, sequence: uint16, body: seq<byte>)
    ensures Total(Message(first, checksum, identifier, sequence, body))
         == first + checksum + identifier + sequence + Total(Words(body))
  {
    var ws := Words(body);
    hide Total, Words;
    TotalCons(sequence, ws);
    TotalCons(identifier, [sequence] + ws);
    TotalCons(checksum, [identifier] + ([sequence] + ws));
    TotalCons(first, [checksum] + ([identifier] + ([sequence] + ws)));
    assert Message(first, checksum, identifier, sequence, body)
        == [first] + ([checksum] + ([identifier] + ([sequence] + ws)));
  }

  /**
   For a message of any length: the stored checksum verifies if and only if the number of times the
   32-bit accumulator wrapped is a multiple of 65535, above all if it never wrapped.
   */
  lemma ChecksumVerifies(first: uint16, identifier: uint16, sequence: uint16, body: seq<byte>)
    ensures var total := first + identifier + sequence + Total(Words(body));
            Verifies(Message(first, Checksum(first, identifier, sequence, body), identifier, sequence, body))
            <==> total / WRAP32 % 0xFFFF == 0
  {
    var total := first + identifier + sequence + Total(Words(body));
    var stored := Checksum(first, identifier, sequence, body);
    MessageTotal(first, stored, identifier, sequence, body);
    OnesSumIsTotal(Message(first, stored, identifier, sequence, body));
    TwoFoldsSuffice(total % WRAP32);
    hide Words, Message, Folded, OnesSum;
    WrapsCount(total);
  }

  lemma WrapsCount(total: nat)
    ensures Ones(total + 0xFFFF - Ones(total % WRAP32)) == 0xFFFF <==> total / WRAP32 % 0xFFFF == 0
  {
    var wraps, rest := total / WRAP32, total % WRAP32;
    assert total == wraps * WRAP32 + rest;
    var q := rest / 0xFFFF;
    var r := Ones(rest);
    var all := total + 0xFFFF - r;
    assert all > 0;
    if rest != 0 && rest % 0xFFFF == 0 {
      assert rest == (q - 1) * 0xFFFF + r;
      Residue(wraps * 0x1_0001 + q, wraps);
      assert all == (wraps * 0x1_0001 + q) * 0xFFFF + wraps;
    } else {
      assert rest == q * 0xFFFF + r;
      Residue(wraps * 0x1_0001 + q + 1, wraps);
      assert all == (wraps * 0x1_0001 + q + 1) * 0xFFFF + wraps;
    }
  }

  /**
   Bodies of up to 131068 bytes never wrap the accumulator: the code then computes exactly the
   complement of the word-by-word sum with end-around carry, and the message verifies.
   */
  lemma {:induction false} ChecksumRefinesRfc1071(first: uint16, identifier: uint16, sequence: uint16, body: seq<byte>)
    requires |body| <= 131068
    ensures first + identifier + sequence + Total(Words(body)) < WRAP32
    ensures Checksum(first, identifier, sequence, body)
         == 0xFFFF - OnesSum(HeaderWords(first, identifier, sequence) + Words(body))
    ensures Verifies(Message(first, Checksum(first, identifier, sequence, body), identifier, sequence, body))
  {
    hide Words, Message, Folded, OnesSum, Total, Verifies, HeaderWords;
    var ws := Words(body);
    WordCount(body);
    TotalBound(ws);
    var total := first + identifier + sequence + Total(ws);
    ChecksumVerifies(first, identifier, sequence, body);
    TwoFoldsSuffice(total);
    OnesSumIsTotal(HeaderWords(first, identifier, sequence) + ws);
    HeaderTotal(first, identifier, sequence, ws);
  }

  lemma HeaderTotal(first: uint16, identifier: uint16, sequence: uint16, ws: seq<uint16>)
    ensures Total(HeaderWords(first, identifier, sequence) + ws) == first + identifier + sequence + Total(ws)
  {
    hide Total;
    TotalCons(sequence, ws);
    TotalCons(identifier, [sequence] + ws);
    TotalCons(first, [identifier] + ([sequence] + ws));
    assert HeaderWords(first, identifier, sequence) + ws == [first] + ([identifier] + ([sequence] + ws));
  }

  /** An odd number of all-ones octets: the last one is padded. */
  lemma {:induction false} AllOnesTotal(n: nat)
    ensures Total(Words(seq(2 * n + 1, _ => 0xFF as byte))) == n * 0xFFFF + 0xFF00
    decreases n
  {
    var b := seq(2 * n + 1, _ => 0xFF as byte);
    if n > 0 {
      AllOnesTotal(n - 1);
      assert b[2..] == seq(2 * (n - 1) + 1, _ => 0xFF as byte);
      assert Words(b)[1..] == Words(b[2..]);
    } else {
      assert b == [0xFF];
    }
  }

  /**
   One byte more and the bound is lost: this message would be taken for a damaged one. It shows where the
   function template, which takes a body of any length, stops computing the checksum; no IP packet holds
   such a body, and this program's are four bytes long.
   */
  lemma LongerBodiesFail()
    ensures exists body: seq<byte> :: |body| == 131069 &&
              !Verifies(Message(0xFFFF, Checksum(0xFFFF, 0xFFFF, 0xFFFF, body), 0xFFFF, 0xFFFF, body))
  {
    var body := seq(2 * 65534 + 1, _ => 0xFF as byte);
    AllOnesTotal(65534);
    ChecksumVerifies(0xFFFF, 0xFFFF, 0xFFFF, body);
    hide Words, Message, Total, Checksum, Verifies;
    assert |body| == 131069;
  }
}
