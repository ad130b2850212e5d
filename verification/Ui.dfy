/**
 The table shown to telnet users (ui.h): rows indented in proportion to their delay, slowest first, one
 page at a time.
 */
module Ui {
  import opened Shared
  import opened Computers
  import CandidateNames
  import ComputerCache

  const FREE_SPACES := 39
  const MAX_LINES := 24

  /** The averages of one computer by UDP, TCP and ICMP; zero where nothing was measured. */
  type Averages = s: seq<uint32> | |s| == 3 witness [0, 0, 0]

  /** A row as it is sorted, by delay and text; and the indentation within the text. */
  datatype Row = Row(average: uint32, spaces: nat, text: seq<byte>)

  // ---------------------------------------------------------------- the two passes as values

  /** The running sum of the measured averages, in 32 wrapping bits, and their number. */
  function SumOf(s: seq<uint32>): uint32 {
    if s == [] then 0 else (SumOf(s[..|s| - 1]) + s[|s| - 1]) % WRAP32
  }

  /** A measured average counts for one. */
  function One(average: uint32): nat {
    if average != 0 then 1 else 0
  }

  function CountOf(s: seq<uint32>): nat {
    if s == [] then 0 else CountOf(s[..|s| - 1]) + One(s[|s| - 1])
  }

  function AverageOf(a: Averages): uint32 {
    if CountOf(a) == 0 then 0 else SumOf(a) / CountOf(a)
  }

  function MaxAverage(list: seq<Averages>): uint32 {
    if list == [] then 0
    else
      var before, last := MaxAverage(list[..|list| - 1]), AverageOf(list[|list| - 1]);
      if before < last then last else before
  }

  /** The indentation: a 32-bit product, a quotient, and a cast to 8 bits. */
  function Spaces(average: uint32, max: uint32): nat
    requires max > 0
  {
    FREE_SPACES * average % WRAP32 / max % 0x100
  }

  predicate Divisible(list: seq<Averages>, max: uint32) {
    forall a :: a in list && CountOf(a) > 0 ==> max > 0
  }

  /** The second pass divides only by a positive maximum. */
  predicate Divides(list: seq<Averages>) {
    Divisible(list, MaxAverage(list))
  }

  // ---------------------------------------------------------------- the text of a row

  function Dotted(address: uint32): seq<byte> {
    CandidateNames.Decimal(address / 0x100_0000) + [46] + CandidateNames.Decimal(address / 0x1_0000 % 0x100) + [46] +
    CandidateNames.Decimal(address / 0x100 % 0x100) + [46] + CandidateNames.Decimal(address % 0x100)
  }

  function Blanks(n: nat): seq<byte> {
    if n == 0 then [] else Blanks(n - 1) + [32]
  }

  /** A delay, or a dash; a blank follows each, the last one too. */
  function Fields(a: seq<uint32>): seq<byte> {
    if a == [] then []
    else
      var last := a[|a| - 1];
      Fields(a[..|a| - 1]) + (if last != 0 then CandidateNames.Decimal(last) else [45]) + [32]
  }

  function RowOf(address: uint32, a: Averages, average: uint32, spaces: nat): Row {
    Row(average, spaces, Dotted(address) + Blanks(spaces) + Fields(a))
  }

  function Rows(addresses: seq<uint32>, list: seq<Averages>, max: uint32): seq<Row>
    requires Divisible(list, max) && |addresses| == |list|
  {
    if list == [] then []
    else
      var n := |list| - 1;
      var last := list[n];
      assert last in list && forall a :: a in list[..n] ==> a in list;
      var row := if CountOf(last) == 0 then []
                 else [RowOf(addresses[n], last, AverageOf(last), Spaces(AverageOf(last), max))];
      Rows(addresses[..n], list[..n], max) + row
  }

  // ---------------------------------------------------------------- what the table of hosts shows

  function AveragesOf(e: Entry): Averages {
    [Average(e.udp), Average(e.tcp), Average(e.icmp)]
  }

  /** The averages of the listed computers, in the order of their addresses. */
  function Listing(cache: ComputerCache.Cache): (list: seq<Averages>)
    ensures |list| == |Addresses(cache)|
  {
    seq(|Addresses(cache)|, i requires 0 <= i < |Addresses(cache)| => AveragesOf(cache[Addresses(cache)[i]]))
  }

  function Addresses(cache: ComputerCache.Cache): (keys: seq<uint32>)
    ensures forall a :: a in keys <==> a in cache
  {
    ComputerCache.WalkVisitsOnce(cache.Keys, 0);
    ComputerCache.KeysFrom(cache.Keys, 0)
  }

  /** The rows that a user starting at this line sees. */
  function Page(lines: seq<Row>, startLine: nat): seq<Row> {
    if startLine >= |lines| then []
    else if startLine + MAX_LINES < |lines| then lines[startLine..startLine + MAX_LINES]
    else lines[startLine..]
  }

  /** A page has at most 24 rows, from the user's line on, none left out. */
  lemma PageIs(lines: seq<Row>, startLine: nat, i: nat)
    ensures i < |Page(lines, startLine)| <==> i < 24 && startLine + i < |lines|
    ensures i < |Page(lines, startLine)| ==> Page(lines, startLine)[i] == lines[startLine + i]
  {
  }

  /** The user's line after a key, with `count` rows: down while there are rows below, up while there are rows above. */
  function Scrolled(startLine: nat, count: nat, key: char): nat {
    if key == 'a' && (count == 0 || startLine < count - 1) then startLine + 1
    else if key == 'q' && startLine > 0 then startLine - 1
    else startLine
  }

  /** The key for up undoes the key for down, and stops at the first line; other keys do nothing. */
  lemma UpUndoesDown(startLine: nat, count: nat, key: char)
    ensures startLine + 1 < count ==>
              Scrolled(startLine, count, 'a') == startLine + 1
              && Scrolled(Scrolled(startLine, count, 'a'), count, 'q') == startLine
    ensures Scrolled(0, count, 'q') == 0 && (key != 'a' && key != 'q' ==> Scrolled(startLine, count, key) == startLine)
  {
  }

  function ScrolledBy(startLine: nat, count: nat, keys: string): nat {
    if keys == [] then startLine
    else Scrolled(ScrolledBy(startLine, count, keys[..|keys| - 1]), count, keys[|keys| - 1])
  }

  function Downs(n: nat): string {
    if n == 0 then [] else Downs(n - 1) + ['a']
  }

  lemma {:induction false} DownsScroll(count: nat, n: nat)
    requires n < count
    ensures ScrolledBy(0, count, Downs(n)) == n
    decreases n
  {
    if n > 0 {
      DownsScroll(count, n - 1);
      assert Downs(n)[..|Downs(n)| - 1] == Downs(n - 1);
    }
  }

  /** Every row is brought to the top of a page by pressing the key for down as often as its line says. */
  lemma EveryRowIsReached(lines: seq<Row>, n: nat)
    requires n < |lines|
    ensures var page := Page(lines, ScrolledBy(0, |lines|, Downs(n))); page != [] && page[0] == lines[n]
  {
    DownsScroll(|lines|, n);
    hide Page, ScrolledBy;
    PageIs(lines, n, 0);
  }

  /** While there are rows a user never leaves them; on an empty table, of huge size less one, the line runs away. */
  lemma {:induction false} StaysOnRows(count: nat, keys: string)
    requires count > 0
    ensures ScrolledBy(0, count, keys) < count
    ensures ScrolledBy(0, 0, "aa") == 2
  {
    if keys != [] {
      StaysOnRows(count, keys[..|keys| - 1]);
    }
    var one: string := "a";
    assert "aa"[..1] == one && one[..0] == "";
    assert ScrolledBy(0, 0, one) == 1;
  }

  const CLEAN: seq<byte> := [27, 91, 50, 74, 27, 91, 48, 59, 48, 72]
  const NEXT_LINE: seq<byte> := [10, 13]

  /** The rows of a page, one below the other. */
  function Joined(page: seq<Row>): seq<byte> {
    if page == [] then []
    else
      var n := |page| - 1;
      Joined(page[..n]) + (if n > 0 then NEXT_LINE else []) + page[n].text
  }

  /** The screen is cleared, then come the rows, a line feed and a return between any two. */
  lemma ScreenReads(p: Row, q: Row)
    ensures CLEAN + Joined([p, q]) == [27, 91, 50, 74, 27, 91, 48, 59, 48, 72] + p.text + [10, 13] + q.text
    ensures CLEAN + Joined([p]) == [27, 91, 50, 74, 27, 91, 48, 59, 48, 72] + p.text
  {
    var nil: seq<Row> := [];
    assert [p, q][..1] == [p] && [p][..0] == nil;
    assert Joined([p]) == p.text && Joined([p, q]) == p.text + [10, 13] + q.text;
  }

  lemma {:induction false} JoinedGrows(page: seq<Row>, r: Row)
    requires page != []
    ensures Joined(page + [r]) == Joined(page) + [10, 13] + r.text
  {
    assert (page + [r])[..|page|] == page;
  }

  /** An address is shown by its octets, the highest first, in decimal and with dots between. */
  lemma DottedReads(a: byte, b: byte, c: byte, d: byte)
    ensures var address := a as int * 16777216 + b as int * 65536 + c as int * 256 + d as int;
            Dotted(address) == CandidateNames.Decimal(a) + [46] + CandidateNames.Decimal(b) + [46] +
                               CandidateNames.Decimal(c) + [46] + CandidateNames.Decimal(d)
  {
    hide CandidateNames.Decimal;
    OctetsBack(a, b, c, d);
  }

  lemma By256(q: nat, r: nat)
    requires r < 256
    ensures (q * 256 + r) / 256 == q && (q * 256 + r) % 256 == r
  {
  }

  lemma By65536(q: nat, r: nat)
    requires r < 65536
    ensures (q * 65536 + r) / 65536 == q
  {
  }

  lemma By16777216(q: nat, r: nat)
    requires r < 16777216
    ensures (q * 16777216 + r) / 16777216 == q
  {
  }

  lemma OctetsBack(a: byte, b: byte, c: byte, d: byte)
    ensures var x := a as int * 16777216 + b as int * 65536 + c as int * 256 + d as int;
            x / 0x100_0000 == a && x / 0x1_0000 % 0x100 == b && x / 0x100 % 0x100 == c && x % 0x100 == d
  {
    By16777216(a, b as int * 65536 + c as int * 256 + d as int);
    By65536(a as int * 256 + b as int, c as int * 256 + d as int);
    By256(a, b);
    By256((a as int * 256 + b as int) * 256 + c as int, d);
    By256(a as int * 256 + b as int, c);
  }

  /** After the address and its blanks come three delays, each a number or a dash, and a blank behind each. */
  lemma FieldsRead(a: Averages, k: nat)
    requires k <= 3
    ensures Fields([]) == []
    ensures k < 3 ==>
              var field := if a[k] == 0 then [45] else CandidateNames.Decimal(a[k]);
              Fields(a[..k + 1]) == Fields(a[..k]) + field + [32]
    ensures a[..3] == a
  {
    if k < 3 {
      assert a[..k + 1][..k] == a[..k];
    }
  }

  /** The address, as many blanks as the indentation says, then the delays. */
  lemma RowReads(address: uint32, a: Averages, average: uint32, spaces: nat)
    ensures var row, d := RowOf(address, a, average, spaces), |Dotted(address)|;
            && row.average == average && row.spaces == spaces && d + spaces <= |row.text|
            && row.text[..d] == Dotted(address) && row.text[d + spaces..] == Fields(a)
            && forall i :: d <= i < d + spaces ==> row.text[i] == 32
  {
    BlanksRead(spaces);
    hide Dotted, Blanks, Fields;
    var d, text := |Dotted(address)|, Dotted(address) + Blanks(spaces) + Fields(a);
    assert RowOf(address, a, average, spaces).text == text && text[d + spaces..] == Fields(a);
    assert text[..d] == Dotted(address);
    forall i | d <= i < d + spaces
      ensures text[i] == 32
    {
      assert text[i] == Blanks(spaces)[i - d] && text[i] in Blanks(spaces);
    }
  }

  lemma {:induction false} BlanksRead(n: nat)
    ensures |Blanks(n)| == n && forall c :: c in Blanks(n) ==> c == 32
  {
    if n > 0 {
      BlanksRead(n - 1);
    }
  }

  // ---------------------------------------------------------------- the order of rows

  /** The order of strings: by the first octet that differs, or a prefix first. */
  predicate LexLe(s: seq<byte>, t: seq<byte>) {
    s == [] || (t != [] && (s[0] < t[0] || (s[0] == t[0] && LexLe(s[1..], t[1..]))))
  }

  lemma {:induction false} LexReflexive(s: seq<byte>)
    ensures LexLe(s, s)
  {
    if s != [] {
      LexReflexive(s[1..]);
    }
  }

  lemma {:induction false} LexTotal(s: seq<byte>, t: seq<byte>)
    ensures LexLe(s, t) || LexLe(t, s)
  {
    if s != [] && t != [] && s[0] == t[0] {
      LexTotal(s[1..], t[1..]);
    }
  }

  lemma {:induction false} LexTransitive(s: seq<byte>, t: seq<byte>, u: seq<byte>)
    requires LexLe(s, t) && LexLe(t, u)
    ensures LexLe(s, u)
  {
    if s != [] && s[0] == t[0] == u[0] {
      LexTransitive(s[1..], t[1..], u[1..]);
    }
  }

  lemma {:induction false} LexAntisymmetric(s: seq<byte>, t: seq<byte>)
    requires LexLe(s, t) && LexLe(t, s)
    ensures s == t
  {
    if s != [] {
      LexAntisymmetric(s[1..], t[1..]);
      assert s == [s[0]] + s[1..] && t == [t[0]] + t[1..];
    }
  }

  /** The order of pairs, greatest first: `p` may stand before `q`. */
  predicate Before(p: Row, q: Row) {
    p.average > q.average || (p.average == q.average && LexLe(q.text, p.text))
  }

  /** At the first difference the smaller octet decides; a text comes before any longer one that starts with it. */
  lemma {:induction false} LexDecides(common: seq<byte>, s: seq<byte>, t: seq<byte>)
    requires s != [] && (t == [] || t[0] < s[0])
    ensures LexLe(common + t, common + s) && !LexLe(common + s, common + t)
    decreases |common|
  {
    if common == [] {
      assert common + t == t && common + s == s;
    } else {
      LexDecides(common[1..], s, t);
      assert (common + t)[1..] == common[1..] + t && (common + s)[1..] == common[1..] + s;
    }
  }

  /** The larger delay stands before the smaller; of equal delays, the greater text. */
  lemma GreaterFirst(p: Row, q: Row, common: seq<byte>, s: seq<byte>, t: seq<byte>)
    requires s != [] && (t == [] || t[0] < s[0])
    ensures p.average > q.average ==> Before(p, q) && !Before(q, p)
    ensures p.average == q.average && p.text == common + s && q.text == common + t ==> Before(p, q) && !Before(q, p)
  {
    LexDecides(common, s, t);
  }

  lemma BeforeTotal(p: Row, q: Row)
    ensures Before(p, q) || Before(q, p)
    ensures Before(p, p)
  {
    LexTotal(p.text, q.text);
    LexReflexive(p.text);
  }

  lemma BeforeTransitive(p: Row, q: Row, r: Row)
    requires Before(p, q) && Before(q, r)
    ensures Before(p, r)
  {
    if p.average == q.average == r.average {
      LexTransitive(r.text, q.text, p.text);
    }
  }

  // ---------------------------------------------------------------- sorting

  /** Into its place in a descending list. */
  function Insert(r: Row, rows: seq<Row>): seq<Row> {
    if rows == [] then [r]
    else if Before(r, rows[0]) then [r] + rows
    else [rows[0]] + Insert(r, rows[1..])
  }

  function Sort(rows: seq<Row>): seq<Row> {
    if rows == [] then [] else Insert(rows[0], Sort(rows[1..]))
  }

  predicate Descending(rows: seq<Row>) {
    forall i, j :: 0 <= i < j < |rows| ==> Before(rows[i], rows[j])
  }

  lemma {:induction false} InsertPermutes(r: Row, rows: seq<Row>)
    ensures multiset(Insert(r, rows)) == multiset(rows) + multiset{r}
    decreases |rows|
  {
    hide Before;
    if rows != [] {
      var rest := rows[1..];
      assert rows == [rows[0]] + rest;
      if !Before(r, rows[0]) {
        InsertPermutes(r, rest);
      }
    }
  }

  lemma {:induction false} InsertKeeps(r: Row, rows: seq<Row>)
    requires Descending(rows)
    ensures Descending(Insert(r, rows))
    decreases |rows|
  {
    hide Before;
    if rows != [] {
      var rest := rows[1..];
      if Before(r, rows[0]) {
        forall x | x in rows
          ensures Before(r, x)
        {
          if x != rows[0] {
            BeforeTransitive(r, rows[0], x);
          }
        }
      } else {
        InsertKeeps(r, rest);
        InsertPermutes(r, rest);
        BeforeTotal(rows[0], r);
        hide Insert;
        var placed := Insert(r, rest);
        forall x | x in placed
          ensures Before(rows[0], x)
        {
          assert x in multiset(placed);
        }
      }
    }
  }

  lemma SortNext(rows: seq<Row>)
    requires rows != []
    ensures Sort(rows) == Insert(rows[0], Sort(rows[1..]))
    ensures multiset(rows) == multiset(rows[1..]) + multiset{rows[0]}
  {
    hide Insert;
    assert rows == [rows[0]] + rows[1..];
  }

  lemma SameLength(xs: seq<Row>, ys: seq<Row>)
    requires multiset(xs) == multiset(ys)
    ensures |xs| == |ys|
  {
    assert |multiset(xs)| == |multiset(ys)|;
  }

  lemma {:induction false} SortSorts(rows: seq<Row>)
    ensures Descending(Sort(rows)) && multiset(Sort(rows)) == multiset(rows) && |Sort(rows)| == |rows|
    decreases |rows|
  {
    if rows != [] {
      hide *;
      SortSorts(rows[1..]);
      InsertKeeps(rows[0], Sort(rows[1..]));
      InsertPermutes(rows[0], Sort(rows[1..]));
      SortNext(rows);
      SameLength(Sort(rows), rows);
    }
  }

  /** Rows with the same delay and the same text are the same. */
  predicate Keyed(rows: seq<Row>) {
    forall p, q :: p in rows && q in rows && p.average == q.average && p.text == q.text ==> p == q
  }

  lemma BeforeAntisymmetric(p: Row, q: Row)
    requires Before(p, q) && Before(q, p)
    ensures p.average == q.average && p.text == q.text
  {
    LexAntisymmetric(p.text, q.text);
  }

  lemma HeadIsFirst(rows: seq<Row>, x: Row)
    requires Descending(rows) && x in rows
    ensures Before(rows[0], x)
  {
    BeforeTotal(x, x);
    hide Before;
  }

  /** Whatever the algorithm, there is one way only to put the rows in descending order. */
  lemma {:induction false} OrderIsDetermined(xs: seq<Row>, ys: seq<Row>)
    requires Descending(xs) && Descending(ys) && multiset(xs) == multiset(ys) && Keyed(xs)
    ensures xs == ys
    decreases |xs|
  {
    hide Before, Descending, Keyed;
    SameLength(xs, ys);
    if xs != [] {
      assert xs[0] in multiset(ys) && ys[0] in multiset(xs);
      HeadIsFirst(xs, ys[0]);
      HeadIsFirst(ys, xs[0]);
      SameHead(xs, ys[0]);
      Tail(xs);
      Tail(ys);
      OrderIsDetermined(xs[1..], ys[1..]);
    }
  }

  lemma SameHead(xs: seq<Row>, y: Row)
    requires y in xs && Keyed(xs) && Before(xs[0], y) && Before(y, xs[0])
    ensures xs[0] == y
  {
    BeforeAntisymmetric(xs[0], y);
    hide Before;
  }

  lemma Tail(xs: seq<Row>)
    requires xs != []
    ensures multiset(xs[1..]) == multiset(xs) - multiset{xs[0]}
    ensures Descending(xs) ==> Descending(xs[1..])
    ensures Keyed(xs) ==> Keyed(xs[1..])
  {
    hide Before;
    assert xs == [xs[0]] + xs[1..];
    assert forall r :: r in xs[1..] ==> r in xs;
  }

  // ---------------------------------------------------------------- the loops

  method SumAndCount(avg: Averages) returns (sum: uint32, cnt: nat)
    ensures sum == SumOf(avg) && cnt == CountOf(avg)
  {
    sum, cnt := 0, 0;
    for i := 0 to 3
      invariant sum == SumOf(avg[..i]) && cnt == CountOf(avg[..i])
    {
      assert avg[..i + 1][..i] == avg[..i];
      if avg[i] != 0 {
        sum := (sum + avg[i]) % WRAP32;
        cnt := cnt + 1;
      }
    }
    assert avg[..3] == avg;
  }

  /** The averages of one computer, as its getters tell them. */
  method ReadAverages(table: ComputerCache.ComputerTable, it: uint32) returns (avg: Averages)
    requires it in table.computers
    ensures it in table.Value() && avg == AveragesOf(table.Value()[it])
  {
    var comp := table.computers[it];
    avg := [comp.GetUdpAverage(), comp.GetTcpAverage(), comp.GetIcmpAverage()];
  }

  /** The order in which an iterator goes through the table. */
  method ReadOrder(table: ComputerCache.ComputerTable) returns (order: seq<uint32>)
    ensures order == Addresses(table.Value()) && forall a :: a in order ==> a in table.computers
  {
    assert table.Value().Keys == table.computers.Keys;
    order := ComputerCache.KeysFrom(table.computers.Keys, 0);
  }

  /** The first pass of `refresh`. */
  method LargestAverage(table: ComputerCache.ComputerTable) returns (maxAvgAvg: uint32)
    ensures maxAvgAvg == MaxAverage(Listing(table.Value()))
  {
    hide SumOf, CountOf, Addresses, AveragesOf, ComputerCache.ComputerTable.Value;
    ghost var list := Listing(table.Value());
    var order := ReadOrder(table);
    maxAvgAvg := 0;
    for i := 0 to |order|
      invariant maxAvgAvg == MaxAverage(list[..i])
    {
      assert list[..i + 1][..i] == list[..i];
      var avg := ReadAverages(table, order[i]);
      assert avg == list[i];
      var sum, cnt := SumAndCount(avg);
      if cnt != 0 {
        var avgAvg := sum / cnt;
        if maxAvgAvg < avgAvg {
          maxAvgAvg := avgAvg;
        }
      }
    }
    assert list[..|list|] == list;
  }

  lemma ListingAt(cache: ComputerCache.Cache, i: nat)
    requires i < |Listing(cache)|
    ensures Addresses(cache)[i] in cache && Listing(cache)[i] == AveragesOf(cache[Addresses(cache)[i]])
  {
    hide Addresses, AveragesOf;
  }

  lemma NoRows(addresses: seq<uint32>, list: seq<Averages>, max: uint32)
    ensures Divisible(list[..0], max) && Rows(addresses[..0], list[..0], max) == []
  {
  }

  lemma NextRow(addresses: seq<uint32>, list: seq<Averages>, max: uint32, i: nat, sum: uint32, cnt: nat)
    requires Divisible(list, max) && i < |list| == |addresses| && sum == SumOf(list[i]) && cnt == CountOf(list[i])
    ensures Divisible(list[..i], max) && Divisible(list[..i + 1], max) && (cnt > 0 ==> max > 0)
    ensures Rows(addresses[..i + 1], list[..i + 1], max) == Rows(addresses[..i], list[..i], max) +
            if cnt == 0 then []
            else [RowOf(addresses[i], list[i], sum / cnt, FREE_SPACES * (sum / cnt) % WRAP32 / max % 0x100)]
  {
    hide SumOf, CountOf, RowOf;
    assert list[i] in list && forall a :: a in list[..i + 1] ==> a in list;
    assert list[..i + 1][..i] == list[..i] && addresses[..i + 1][..i] == addresses[..i];
  }

  /** The text of a row, written to a stream piece by piece. */
  method WriteRow(address: uint32, avg: Averages, avgAvg: uint32, spaces: nat) returns (row: Row)
    ensures row == RowOf(address, avg, avgAvg, spaces)
  {
    hide Dotted;
    var oss := Dotted(address);
    for i := 0 to spaces
      invariant oss == Dotted(address) + Blanks(i)
    {
      oss := oss + [32];
    }
    ghost var head := oss;
    for i := 0 to 3
      invariant oss == head + Fields(avg[..i])
    {
      assert avg[..i + 1][..i] == avg[..i];
      oss := oss + (if avg[i] != 0 then CandidateNames.Decimal(avg[i]) else [45]) + [32];
    }
    assert avg[..3] == avg;
    row := Row(avgAvg, spaces, oss);
  }

  class TcpConnection {
    var lines: seq<Row>
    var startLine: nat

    constructor ()
      ensures startLine == 0 && lines == []
    {
      lines, startLine := [], 0;
    }

    /** A key moves the user's line, if it can; then the page is written again. */
    method Write(key: char) returns (message: seq<byte>)
      modifies this
      ensures startLine == Scrolled(old(startLine), |old(lines)|, key)
      ensures if startLine != old(startLine) then
                lines == Sort(old(lines)) && message == CLEAN + Joined(Page(lines, startLine))
              else lines == old(lines) && message == []
    {
      hide Sort, Joined, Page;
      var hasChanged := false;
      if key == 'a' {
        if |lines| == 0 || startLine < |lines| - 1 {
          startLine := startLine + 1;
          hasChanged := true;
        }
      } else if key == 'q' {
        if startLine > 0 {
          startLine := startLine - 1;
          hasChanged := true;
        }
      }
      message := [];
      if hasChanged {
        message := WriteLines();
      }
    }

    /**
     First the largest average delay, then a row for every computer that was measured at all, then the
     user's page of the sorted rows. All it asks for is that it does not divide by zero.
     */
    method Refresh(table: ComputerCache.ComputerTable) returns (message: seq<byte>)
      requires Divides(Listing(table.Value()))
      modifies this`lines
      ensures var addresses, list := Addresses(table.Value()), Listing(table.Value());
              lines == Sort(Rows(addresses, list, MaxAverage(list)))
      ensures message == CLEAN + Joined(Page(lines, startLine))
    {
      hide Listing, Addresses, Sort, MaxAverage, Page, Rows, Joined, ComputerCache.ComputerTable.Value;
      var maxAvgAvg := LargestAverage(table);
      FillLines(table, maxAvgAvg);
      message := WriteLines();
    }

    /** The second pass. */
    method FillLines(table: ComputerCache.ComputerTable, maxAvgAvg: uint32)
      requires Divisible(Listing(table.Value()), maxAvgAvg)
      modifies this`lines
      ensures lines == Rows(Addresses(table.Value()), Listing(table.Value()), maxAvgAvg)
    {
      hide Rows, RowOf, Divisible, Listing, Addresses, AveragesOf, One, SumOf, CountOf;
      hide ComputerCache.ComputerTable.Value;
      ghost var cache := table.Value();
      ghost var list := Listing(cache);
      var order := ReadOrder(table);
      lines := [];
      NoRows(order, list, maxAvgAvg);
      for i := 0 to |order|
        invariant table.Value() == cache
        invariant Divisible(list[..i], maxAvgAvg)
        invariant lines == Rows(order[..i], list[..i], maxAvgAvg)
      {
        ListingAt(cache, i);
        var avg := ReadAverages(table, order[i]);
        assert avg == list[i];
        var sum, cnt := SumAndCount(avg);
        NextRow(order, list, maxAvgAvg, i, sum, cnt);
        if cnt == 0 {
          continue;
        }
        var avgAvg := sum / cnt;
        var spaces := FREE_SPACES * avgAvg % WRAP32 / maxAvgAvg % 0x100;
        var row := WriteRow(order[i], avg, avgAvg, spaces);
        lines := lines + [row];
      }
      assert list[..|list|] == list && order[..|order|] == order;
    }

    /** Sorts the rows in place and writes the page that starts at the user's line. */
    method WriteLines() returns (message: seq<byte>)
      modifies this`lines
      ensures lines == Sort(old(lines))
      ensures message == CLEAN + Joined(Page(lines, startLine))
    {
      message := CLEAN;
      var end := |lines|;
      if startLine + MAX_LINES < end {
        end := startLine + MAX_LINES;
      }
      SortSorts(lines);
      hide Sort, Descending, Joined;
      JoinedNone();
      lines := Sort(lines);
      if startLine < end {
        var rows := JoinRows(lines, startLine, end);
        message := message + rows;
      }
      assert Page(lines, startLine) == if startLine < end then lines[startLine..end] else [];
    }
  }

  /** The loop that appends the rows from `startLine` to `end`. */
  method JoinRows(lines: seq<Row>, startLine: nat, end: nat) returns (message: seq<byte>)
    requires startLine <= end <= |lines|
    ensures message == Joined(lines[startLine..end])
  {
    ghost var page := lines[startLine..end];
    hide Joined;
    JoinedNone();
    message := [];
    for i := startLine to end
      invariant message == Joined(page[..i - startLine]) + (if startLine < i < end then NEXT_LINE else [])
    {
      JoinedNext(page, i - startLine);
      assert page[i - startLine] == lines[i];
      message := message + (lines[i].text + (if i != end - 1 then NEXT_LINE else []));
    }
    assert page[..|page|] == page;
  }

  lemma JoinedNone()
    ensures Joined([]) == []
  {
  }

  lemma JoinedNext(page: seq<Row>, k: nat)
    requires k < |page|
    ensures Joined(page[..k + 1]) == Joined(page[..k]) + (if k > 0 then NEXT_LINE else []) + page[k].text
  {
    assert page[..k + 1][..k] == page[..k];
  }

  // ---------------------------------------------------------------- the arithmetic

  /** The largest average for which 39 times it fits 32 bits. */
  const LIMIT := 110127366

  predicate Within(a: Averages, limit: nat) {
    a[0] <= limit && a[1] <= limit && a[2] <= limit
  }

  /** The running sum is the sum modulo 2^32, and zeros are not counted. */
  lemma SumWraps(a: Averages)
    ensures SumOf(a) == (a[0] + a[1] + a[2]) % WRAP32
    ensures CountOf(a) == One(a[0]) + One(a[1]) + One(a[2])
  {
    hide *;
    SumOfNone();
    SumSnoc([], a[0]);
    SumSnoc([] + [a[0]], a[1]);
    SumSnoc([] + [a[0]] + [a[1]], a[2]);
    var s: seq<uint32> := a;
    assert [] + [a[0]] + [a[1]] + [a[2]] == s;
    TwoSteps(a[0], a[1], a[2]);
  }

  lemma TwoSteps(x: uint32, y: uint32, z: uint32)
    ensures (((0 + x) % WRAP32 + y) % WRAP32 + z) % WRAP32 == (x + y + z) % WRAP32
  {
  }

  lemma SumOfNone()
    ensures SumOf([]) == 0 && CountOf([]) == 0
  {
  }

  lemma SumSnoc(s: seq<uint32>, x: uint32)
    ensures SumOf(s + [x]) == (SumOf(s) + x) % WRAP32 && CountOf(s + [x]) == CountOf(s) + One(x)
  {
    assert (s + [x])[..|s|] == s;
  }

  lemma AverageWithin(a: Averages, limit: nat)
    requires Within(a, limit) && 3 * limit < WRAP32
    ensures CountOf(a) > 0 ==> 1 <= AverageOf(a) <= limit
  {
    SumWraps(a);
    hide SumOf, CountOf;
    if CountOf(a) > 0 {
      Multiples(CountOf(a), limit);
      DivisionBounds(SumOf(a), CountOf(a), 1, limit);
    }
  }

  /** The mean of the measured averages, rounded down, if their sum does not wrap. */
  lemma AverageIsMean(a: Averages)
    requires a[0] + a[1] + a[2] < WRAP32
    ensures var n := One(a[0]) + One(a[1]) + One(a[2]);
            if n == 0 then AverageOf(a) == 0
            else n * AverageOf(a) <= a[0] + a[1] + a[2] < n * (AverageOf(a) + 1)
  {
    SumWraps(a);
    hide SumOf, CountOf, One;
    if CountOf(a) > 0 {
      Quotient(SumOf(a), CountOf(a));
    }
  }

  lemma Multiples(n: nat, limit: nat)
    ensures n == 1 ==> n * limit == limit
    ensures n == 2 ==> n * limit == limit + limit
    ensures n == 3 ==> n * limit == limit + limit + limit
  {
  }

  lemma {:induction false} MaxIsLargest(list: seq<Averages>)
    ensures forall a :: a in list ==> AverageOf(a) <= MaxAverage(list)
    ensures MaxAverage(list) > 0 ==> exists a :: a in list && AverageOf(a) == MaxAverage(list)
    decreases |list|
  {
    hide AverageOf;
    if list != [] {
      var init, last := list[..|list| - 1], list[|list| - 1];
      MaxIsLargest(init);
      assert forall a :: a in list <==> a in init || a == last;
    }
  }

  /** The computer has been measured; and its 32-bit sum is large enough to average to at least one. */
  predicate Measured(a: Averages) {
    a[0] != 0 || a[1] != 0 || a[2] != 0
  }

  predicate AveragesToSome(a: Averages) {
    (a[0] + a[1] + a[2]) % WRAP32 >= One(a[0]) + One(a[1]) + One(a[2])
  }

  lemma PositiveAverage(a: Averages)
    ensures CountOf(a) > 0 <==> Measured(a)
    ensures AverageOf(a) > 0 <==> Measured(a) && AveragesToSome(a)
  {
    SumWraps(a);
    hide SumOf, CountOf;
    if Measured(a) {
      Quotient(SumOf(a), CountOf(a));
      if SumOf(a) >= CountOf(a) {
        DivisionBounds(SumOf(a), CountOf(a), 1, SumOf(a));
      }
    }
  }

  /**
   `refresh` divides by zero if and only if something was measured, but every sum that is not empty has
   wrapped to less than the number of its parts.
   */
  lemma DividesExactly(list: seq<Averages>)
    ensures Divides(list) <==>
            ((exists a :: a in list && Measured(a)) ==> exists a :: a in list && Measured(a) && AveragesToSome(a))
  {
    hide SumOf, CountOf, AverageOf, MaxAverage, Measured, AveragesToSome;
    MaxIsLargest(list);
    forall a: Averages
      ensures CountOf(a) > 0 <==> Measured(a)
      ensures AverageOf(a) > 0 <==> Measured(a) && AveragesToSome(a)
    {
      PositiveAverage(a);
    }
  }

  /** While no sum wraps, the second pass never divides by zero. */
  lemma DivisorPositive(list: seq<Averages>)
    requires forall a :: a in list ==> a[0] + a[1] + a[2] < WRAP32
    ensures Divides(list)
  {
    DividesExactly(list);
    forall a | a in list && Measured(a)
      ensures AveragesToSome(a)
    {
    }
    hide *;
  }

  /** The largest bound on single averages that keeps sums from wrapping; one more, and it divides by zero. */
  lemma UniformBoundIsTight(list: seq<Averages>)
    ensures (forall a :: a in list ==> Within(a, 0x5555_5555)) ==> Divides(list)
    ensures !Divides([[0x5555_5556, 0x5555_5556, 0x5555_5556]])
  {
    hide Divides;
    if forall a :: a in list ==> Within(a, 0x5555_5555) {
      DivisorPositive(list);
    }
    var a: Averages := [0x5555_5556, 0x5555_5556, 0x5555_5556];
    DividesExactly([a]);
    assert a in [a] && Measured(a) && !AveragesToSome(a);
  }

  lemma Times39(average: nat, max: nat)
    requires average <= max
    ensures FREE_SPACES * average <= max * FREE_SPACES
  {
  }

  /** 39 times an average fits 32 bits exactly up to the limit. */
  lemma Fits(average: nat)
    ensures FREE_SPACES * average < WRAP32 <==> average <= LIMIT
  {
  }

  /** A quotient of at most 39 fits its octet; a smaller one does not become it. */
  lemma OctetKept(q: nat, low: nat, wrapped: bool)
    requires q <= FREE_SPACES && (if wrapped then low < q else low == q)
    ensures low % 0x100 == q <==> !wrapped
  {
  }

  /** What remains of a product that wrapped gives too small a quotient. */
  lemma QuotientKept(product: nat, max: nat)
    requires 0 < max < WRAP32
    ensures product < WRAP32 ==> product % WRAP32 / max == product / max
    ensures product >= WRAP32 ==> product % WRAP32 / max < product / max
  {
    if product >= WRAP32 {
      assert product % WRAP32 + max <= product;
      DivisionGrows(product % WRAP32, product, max);
    }
  }

  /** The indentation is right if and only if the average is at most 110127366. */
  lemma SpacesExactly(average: uint32, max: uint32)
    requires 0 < max && average <= max
    ensures Spaces(average, max) == 39 * average / max <==> average <= 110127366
    ensures 39 * average / max <= 39
  {
    Times39(average, max);
    Fits(average);
    var product := FREE_SPACES * average;
    QuotientKept(product, max);
    DivisionBounds(product, max, 0, FREE_SPACES);
    OctetKept(product / max, product % WRAP32 / max, product >= WRAP32);
  }

  lemma RowsNext(addresses: seq<uint32>, list: seq<Averages>, max: uint32)
    requires Divisible(list, max) && |addresses| == |list| && list != []
    ensures var n := |list| - 1;
            && Divisible(list[..n], max) && (Measured(list[n]) ==> max > 0)
            && Rows(addresses, list, max) == Rows(addresses[..n], list[..n], max) +
                 if Measured(list[n]) then
                   [RowOf(addresses[n], list[n], AverageOf(list[n]), Spaces(AverageOf(list[n]), max))]
                 else []
  {
    var n := |list| - 1;
    hide SumOf, CountOf, AverageOf, Spaces, Measured, RowOf;
    assert list[n] in list && forall a :: a in list[..n] ==> a in list;
    PositiveAverage(list[n]);
  }

  /** The row of the k-th computer. */
  predicate IsRow(addresses: seq<uint32>, list: seq<Averages>, max: uint32, k: nat, r: Row)
    requires k < |list| == |addresses|
  {
    && Measured(list[k]) && max > 0
    && r == RowOf(addresses[k], list[k], AverageOf(list[k]), Spaces(AverageOf(list[k]), max))
  }

  /** It is the row of some computer. */
  predicate OfComputer(addresses: seq<uint32>, list: seq<Averages>, max: uint32, r: Row)
    requires |list| == |addresses|
  {
    exists k: nat :: k < |list| && IsRow(addresses, list, max, k, r)
  }

  lemma OfComputerNext(addresses: seq<uint32>, list: seq<Averages>, max: uint32, r: Row)
    requires |addresses| == |list| && list != []
    ensures var n := |list| - 1;
            OfComputer(addresses, list, max, r) <==>
              OfComputer(addresses[..n], list[..n], max, r) || IsRow(addresses, list, max, n, r)
  {
    hide Measured, RowOf, AverageOf, Spaces;
    var n := |list| - 1;
    assert forall k: nat :: k < n ==>
                              IsRow(addresses, list, max, k, r) == IsRow(addresses[..n], list[..n], max, k, r);
    hide IsRow;
  }

  /** Every computer that was measured has a row, with its address, delays, mean and indentation; no other has. */
  lemma {:induction false} RowsAreMeasured(addresses: seq<uint32>, list: seq<Averages>, max: uint32, r: Row)
    requires Divisible(list, max) && |addresses| == |list|
    ensures r in Rows(addresses, list, max) <==> OfComputer(addresses, list, max, r)
    ensures |Rows(addresses, list, max)| == MeasuredCount(list)
    decreases |list|
  {
    hide Rows, Divisible, AverageOf, Spaces, Measured, RowOf;
    if list != [] {
      RowsNext(addresses, list, max);
      RowsAreMeasured(addresses[..|list| - 1], list[..|list| - 1], max, r);
      OfComputerNext(addresses, list, max, r);
      hide OfComputer;
    } else {
      NoRows(addresses, list, max);
      assert addresses[..0] == addresses && list[..0] == list;
    }
  }

  function MeasuredCount(list: seq<Averages>): nat {
    if list == [] then 0 else MeasuredCount(list[..|list| - 1]) + if Measured(list[|list| - 1]) then 1 else 0
  }

  /** The three averages of a listed computer are those by UDP, TCP and ICMP. */
  lemma ListingTells(cache: ComputerCache.Cache, k: nat)
    requires k < |Listing(cache)|
    ensures Addresses(cache)[k] in cache
    ensures var e, a := cache[Addresses(cache)[k]], Listing(cache)[k];
            TellsMean(a[0], e.udp) && TellsMean(a[1], e.tcp) && TellsMean(a[2], e.icmp)
  {
    ListingAt(cache, k);
    hide Listing, Addresses, Average, TellsMean;
    var e := cache[Addresses(cache)[k]];
    AverageTellsMean(e.udp);
    AverageTellsMean(e.tcp);
    AverageTellsMean(e.icmp);
  }

  /** Indentation is a matter of the delay, so the order of the rows is determined. */
  lemma {:induction false} RowsKeyed(addresses: seq<uint32>, list: seq<Averages>, max: uint32)
    requires Divisible(list, max) && |addresses| == |list|
    ensures forall r :: r in Rows(addresses, list, max) ==> max > 0 && r.spaces == Spaces(r.average, max)
    ensures Keyed(Rows(addresses, list, max))
    decreases |list|
  {
    hide SumOf, CountOf, AverageOf, Spaces;
    if list != [] {
      var n := |list| - 1;
      assert list[n] in list && forall a :: a in list[..n] ==> a in list;
      RowsKeyed(addresses[..n], list[..n], max);
    }
  }

  /** Any descending arrangement of the rows of a refresh is the one written here. */
  lemma SortIsAnySort(addresses: seq<uint32>, list: seq<Averages>, max: uint32, sorted: seq<Row>)
    requires Divisible(list, max) && |addresses| == |list|
    requires Descending(sorted) && multiset(sorted) == multiset(Rows(addresses, list, max))
    ensures sorted == Sort(Rows(addresses, list, max))
  {
    var rows := Rows(addresses, list, max);
    RowsKeyed(addresses, list, max);
    SortSorts(rows);
    hide Rows, Sort, Descending;
    assert Keyed(Sort(rows)) by {
      assert forall r :: r in Sort(rows) ==> r in multiset(Sort(rows));
    }
    OrderIsDetermined(Sort(rows), sorted);
  }

  lemma {:induction false} RowsScaled(addresses: seq<uint32>, list: seq<Averages>, max: uint32)
    requires forall a :: a in list ==> Within(a, LIMIT) && AverageOf(a) <= max
    requires max <= LIMIT && Divisible(list, max) && |addresses| == |list|
    ensures forall r :: r in Rows(addresses, list, max) ==>
              1 <= r.average <= max && FREE_SPACES * r.average < WRAP32
              && r.spaces == FREE_SPACES * r.average / max <= FREE_SPACES
    decreases |list|
  {
    if list != [] {
      var init, last := list[..|list| - 1], list[|list| - 1];
      assert last in list && forall a :: a in init ==> a in list;
      RowsScaled(addresses[..|list| - 1], init, max);
      hide SumOf, CountOf, AverageOf, Spaces;
      AverageWithin(last, LIMIT);
      if CountOf(last) > 0 {
        SpacesExactly(AverageOf(last), max);
        Fits(AverageOf(last));
      }
    }
  }

  lemma LargerIsFurther(x: nat, y: nat, max: nat)
    requires max > 0 && x <= y
    ensures FREE_SPACES * x / max <= FREE_SPACES * y / max
  {
    var p, q := FREE_SPACES * x, FREE_SPACES * y;
    Quotient(p, max);
    Quotient(q, max);
    if p / max > q / max {
      Times(max, q / max + 1, p / max);
    }
  }

  /**
   While no average exceeds 110127366 microseconds, nothing in a refresh wraps and nothing divides by
   zero: every row is indented by 39 times its delay over the largest, which is at most 39, and down
   the sorted rows the indentation never grows.
   */
  lemma RefreshIsExact(addresses: seq<uint32>, list: seq<Averages>)
    requires |addresses| == |list| && forall a :: a in list ==> Within(a, LIMIT)
    ensures Divides(list)
    ensures var max, shown := MaxAverage(list), Sort(Rows(addresses, list, MaxAverage(list)));
            && (forall r :: r in shown ==> 0 < r.average <= max && 39 * r.average < 0x1_0000_0000
                                           && r.spaces == 39 * r.average / max <= 39)
            && (forall i, j :: 0 <= i < j < |shown| ==> shown[i].spaces >= shown[j].spaces)
  {
    hide SumOf, CountOf, AverageOf, Sort, Rows, MaxAverage;
    DivisorPositive(list);
    MaxIsLargest(list);
    MaxWithin(list);
    var max := MaxAverage(list);
    RowsScaled(addresses, list, max);
    var rows := Rows(addresses, list, max);
    SortSorts(rows);
    var shown := Sort(rows);
    forall r | r in shown
      ensures r in rows
    {
      assert r in multiset(shown);
    }
    forall i, j | 0 <= i < j < |shown|
      ensures shown[i].spaces >= shown[j].spaces
    {
      assert shown[i] in shown && shown[j] in shown;
      LargerIsFurther(shown[j].average, shown[i].average, max);
    }
  }

  lemma MaxWithin(list: seq<Averages>)
    requires forall a :: a in list ==> Within(a, LIMIT)
    ensures MaxAverage(list) <= LIMIT
  {
    MaxIsLargest(list);
    hide SumOf, CountOf, MaxAverage;
    if a :| a in list && AverageOf(a) == MaxAverage(list) {
      AverageWithin(a, LIMIT);
    }
  }

  /** Delays that are all within the limit have averages within it: the window sums can not wrap. */
  lemma SamplesBoundAverages(samples: seq<uint32>)
    requires forall x :: x in LastTen(samples) ==> x <= LIMIT
    ensures Average(WindowOf(samples)) <= LIMIT
  {
    hide WindowOf, Average;
    if samples != [] {
      AverageExact(samples, 0, LIMIT);
      SumBounds(LastTen(samples), 0, LIMIT);
      WindowTimes(samples);
      Times(LIMIT, |LastTen(samples)|, 10);
    } else {
      NoSamples();
    }
  }

  /** A window of delays that were all within the limit. */
  ghost predicate ModestWindow(w: Window) {
    exists samples: seq<uint32> :: w == WindowOf(samples) && forall x :: x in LastTen(samples) ==> x <= LIMIT
  }

  /** So while all recent delays are within the limit, what users are shown is exact. */
  lemma ModestDelaysFit(cache: ComputerCache.Cache)
    requires forall a :: a in cache ==>
               ModestWindow(cache[a].udp) && ModestWindow(cache[a].tcp) && ModestWindow(cache[a].icmp)
    ensures forall avg :: avg in Listing(cache) ==> Within(avg, LIMIT)
  {
    hide Average, ModestWindow;
    forall w | ModestWindow(w)
      ensures Average(w) <= LIMIT
    {
      ModestAverage(w);
    }
  }

  lemma ModestAverage(w: Window)
    requires ModestWindow(w)
    ensures Average(w) <= LIMIT
  {
    hide Average, WindowOf, LastTen;
    var samples: seq<uint32> :| w == WindowOf(samples) && forall x :: x in LastTen(samples) ==> x <= LIMIT;
    SamplesBoundAverages(samples);
  }

  lemma WindowTimes(samples: seq<uint32>)
    ensures WindowOf(samples).times == LastTen(samples) && |LastTen(samples)| <= 10
  {
  }

  lemma NoSamples()
    ensures Average(WindowOf([])) == 0
  {
  }

  /**
   A table on which `refresh` divides by zero: one computer, measured once by UDP while its clock was set
   back by three microseconds, and once by TCP, in three microseconds.
   */
  lemma TableDividesByZero(address: uint32, name: Label)
    ensures var udp, tcp := WindowOf([0xFFFF_FFFD]), WindowOf([3]);
            var e := Entry(name, address, true, true, 1, 1, udp, tcp, EMPTY);
            && Push(EMPTY, Elapsed(3, 0)) == udp && Push(EMPTY, Elapsed(0, 3)) == tcp
            && !Divides(Listing(map[address := e]))
  {
    var udp, tcp := WindowOf([0xFFFF_FFFD]), WindowOf([3]);
    OneSample(0xFFFF_FFFD);
    OneSample(3);
    hide WindowOf, Push, Divides, Listing;
    var e := Entry(name, address, true, true, 1, 1, udp, tcp, EMPTY);
    assert AveragesOf(e) == [0xFFFF_FFFD, 3, 0];
    ListingOfOne(address, e);
    OnlyWrapped(Listing(map[address := e]));
  }

  lemma OnlyWrapped(list: seq<Averages>)
    requires list != [] && forall a :: a in list ==> a == [0xFFFF_FFFD, 3, 0]
    ensures !Divides(list)
  {
    hide Divides;
    DividesExactly(list);
    assert list[0] in list && Measured(list[0]) && !AveragesToSome(list[0]);
  }

  lemma ListingOfOne(address: uint32, e: Entry)
    ensures Listing(map[address := e]) != []
    ensures forall a :: a in Listing(map[address := e]) ==> a == AveragesOf(e)
  {
    hide AveragesOf, Addresses;
    var cache: ComputerCache.Cache := map[address := e];
    assert address in Addresses(cache) && forall a :: a in Addresses(cache) ==> a == address;
  }

  lemma OneSample(x: uint32)
    ensures WindowOf([x]) == Window([x], x) && Push(EMPTY, x) == WindowOf([x])
    ensures Average(WindowOf([x])) == x
  {
    var nil: seq<uint32> := [];
    assert [x][..0] == nil && Sum(nil) == 0 && Sum([x]) == x;
  }
}
