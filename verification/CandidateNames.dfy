/** The names a host tries in turn: its hostname, then "hostname(2)", "hostname(3)", ... (name_server.cc). */
module CandidateNames {
  import opened Shared
  import opened DomainNames

  /** What a string stream prints for a number. */
  function Decimal(n: nat): (r: seq<byte>)
    ensures |r| >= 1
    ensures 0 !in r
  {
    if n < 10 then [48 + n] else Decimal(n / 10) + [48 + n % 10]
  }

  /** What a reader makes of decimal digits. */
  function ValueOf(digits: seq<byte>): int {
    if digits == [] then 0 else 10 * ValueOf(digits[..|digits| - 1]) + (digits[|digits| - 1] as int - 48)
  }

  /** They are digits, they have the number's value, and only zero starts with a zero. */
  lemma {:induction false} DecimalReads(n: nat)
    ensures ValueOf(Decimal(n)) == n
    ensures forall d :: d in Decimal(n) ==> 48 <= d <= 57
    ensures n > 0 ==> Decimal(n)[0] != 48
  {
    var last: seq<byte> := [48 + n % 10];
    if n >= 10 {
      DecimalReads(n / 10);
      assert Decimal(n) == Decimal(n / 10) + last;
      assert Decimal(n)[..|Decimal(n)| - 1] == Decimal(n / 10);
    } else {
      assert Decimal(n) == last && last[..0] == [] && ValueOf([]) == 0;
    }
  }

  function Candidate(base: Label, number: nat): (r: Label) {
    if number > 1 then base + ([40] + Decimal(number) + [41]) else base
  }

  lemma {:induction false} DecimalInjective(m: nat, n: nat)
    requires Decimal(m) == Decimal(n)
    ensures m == n
  {
    var s, t := Decimal(m), Decimal(n);
    assert (m >= 10 <==> |s| > 1) && (n >= 10 <==> |t| > 1);
    assert s[|s| - 1] == 48 + m % 10 && t[|t| - 1] == 48 + n % 10;
    if m >= 10 && n >= 10 {
      assert s[..|s| - 1] == Decimal(m / 10) && t[..|t| - 1] == Decimal(n / 10);
      DecimalInjective(m / 10, n / 10);
    }
  }

  /** The hostname itself first; then with a number in parentheses, from 2 on. */
  lemma CandidateReads(base: Label, number: nat)
    ensures number <= 1 ==> Candidate(base, number) == base
    ensures number >= 2 ==>
              exists digits :: Candidate(base, number) == base + [40] + digits + [41] && ValueOf(digits) == number
  {
    DecimalReads(number);
    hide Decimal, ValueOf;
    if number >= 2 {
      assert base + ([40] + Decimal(number) + [41]) == base + [40] + Decimal(number) + [41];
    }
  }

  /** Different numbers give different names, so a name given up is never tried again. */
  lemma CandidateInjective(base: Label, j: nat, k: nat)
    requires j >= 1 && k >= 1 && Candidate(base, j) == Candidate(base, k)
    ensures j == k
  {
    hide Decimal;
    assert (j > 1 <==> |Candidate(base, j)| > |base|) && (k > 1 <==> |Candidate(base, k)| > |base|);
    if j > 1 && k > 1 {
      var s, t := [40] + Decimal(j) + [41], [40] + Decimal(k) + [41];
      assert (base + s)[|base|..] == s && (base + t)[|base|..] == t;
      assert s[1..|s| - 1] == Decimal(j) && t[1..|t| - 1] == Decimal(k);
      DecimalInjective(j, k);
    }
  }

  function Pow10(k: nat): nat {
    if k == 0 then 1 else 10 * Pow10(k - 1)
  }

  lemma {:induction false} DecimalLength(n: nat, k: nat)
    requires k >= 1 && n < Pow10(k)
    ensures |Decimal(n)| <= k
  {
    if n >= 10 {
      assert Pow10(1) == 10 * Pow10(0) == 10;
      DecimalLength(n / 10, k - 1);
    }
  }

  /** Hostnames are read into 100 bytes, terminator included. */
  const HOSTNAME_SIZE := 100

  /** The range of the C++ `int` that counts the names. */
  const MAX_NUMBER := 0x7FFF_FFFF

  predicate Hostname(base: Label) {
    PlainLabel(base, HOSTNAME_SIZE - 1)
  }

  /** No candidate outgrows what both name readers can take. */
  lemma CandidatePlain(base: Label, number: nat)
    requires Hostname(base) && number <= MAX_NUMBER
    ensures PlainLabel(Candidate(base, number), 111)
  {
    assert Pow10(10) == 10_000_000_000 by {
      assert Pow10(5) == 100_000;
      assert Pow10(10) == 100_000 * Pow10(5);
    }
    DecimalLength(number, 10);
  }
}
