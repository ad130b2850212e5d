/**
 Domain names on the wire (mdns_fields.cc): the writers' encoding, the plain reader, and the reader
 that follows compression pointers. A buffer `b` holds a packet of `size` bytes; what lies beyond, if
 the packet does not fill the buffer, is left over from earlier packets.
 */
module DomainNames {
  import opened Shared

  // ---------------------------------------------------------------- writing

  /** One label as the writers emit it: the length is cast to one byte. */
  function EncodeLabel(l: Label): (r: seq<byte>) {
    [|l| % 0x100] + l
  }

  function EncodeLabels(ls: seq<Label>): (r: seq<byte>) {
    if ls == [] then [] else EncodeLabels(ls[..|ls| - 1]) + EncodeLabel(ls[|ls| - 1])
  }

  function EncodeName(ls: seq<Label>): seq<byte> {
    EncodeLabels(ls) + [0]
  }

  /** A label that survives the C-string conversion of the readers and the length cast of the writers. */
  predicate PlainLabel(l: Label, max: nat) {
    1 <= |l| <= max && 0 !in l
  }

  predicate PlainName(ls: seq<Label>, max: nat) {
    forall l :: l in ls ==> PlainLabel(l, max)
  }

  lemma EncodeLabelsSnoc(ls: seq<Label>, l: Label)
    ensures EncodeLabels(ls + [l]) == EncodeLabels(ls) + EncodeLabel(l)
  {
    assert (ls + [l])[..|ls|] == ls;
  }

  lemma {:induction false} EncodeLabelsCons(l: Label, ls: seq<Label>)
    ensures EncodeLabels([l] + ls) == EncodeLabel(l) + EncodeLabels(ls)
  {
    hide EncodeLabel;
    if ls == [] {
      assert [l] + ls == [] + [l];
      EncodeLabelsSnoc([], l);
    } else {
      var init, last := ls[..|ls| - 1], ls[|ls| - 1];
      EncodeLabelsCons(l, init);
      assert [l] + ls == ([l] + init) + [last];
      EncodeLabelsSnoc([l] + init, last);
    }
  }

  lemma EncodeNameCons(ls: seq<Label>)
    requires ls != []
    ensures EncodeName(ls) == EncodeLabel(ls[0]) + EncodeName(ls[1..])
  {
    assert ls == [ls[0]] + ls[1..];
    EncodeLabelsCons(ls[0], ls[1..]);
  }

  // ---------------------------------------------------------------- the plain reader

  datatype NameResult =
    | Name(labels: seq<Label>, end: nat)
    | TooSmall
    | BadCompression
    | Hangs  // the reader's loop never ends

  /** What std::string keeps of a NUL-terminated copy. */
  function CString(s: seq<byte>): (r: Label)
    ensures 0 !in s ==> r == s
  {
    if s == [] || s[0] == 0 then [] else [s[0]] + CString(s[1..])
  }

  /** The octets before the first NUL, or all. */
  lemma {:induction false} CStringCuts(s: seq<byte>, t: seq<byte>)
    requires 0 !in s
    ensures CString(s + [0] + t) == s
  {
    var all := s + [0] + t;
    if s == [] {
      assert all[0] == 0;
    } else {
      assert all[0] == s[0] && all[1..] == s[1..] + [0] + t;
      CStringCuts(s[1..], t);
      assert s == [s[0]] + s[1..];
    }
  }

  lemma {:induction false} CStringStops(s: seq<byte>, k: nat)
    requires k <= |s| && 0 !in s[..k] && (k == |s| || s[k] == 0)
    ensures CString(s) == s[..k]
  {
    if k == |s| {
      assert s[..k] == s;
    } else {
      CStringCuts(s[..k], s[k + 1..]);
      assert s == s[..k] + [0] + s[k + 1..];
    }
  }

  function Prepend(ls: seq<Label>, r: NameResult): NameResult {
    if r.Name? then r.(labels := ls + r.labels) else r
  }

  /** The labels from `start` up to a zero length octet. */
  function ParseName(b: seq<byte>, size: nat, start: nat): (r: NameResult)
    requires size <= |b|
    ensures r.Name? || r.TooSmall?
    ensures r.Name? ==> start < r.end <= size
    decreases size - start
  {
    if start >= size then TooSmall
    else if b[start] == 0 then Name([], start + 1)
    else
      var next := start + 1 + b[start];
      if next > size then TooSmall
      else Prepend([CString(b[start + 1..next])], ParseName(b, size, next))
  }

  lemma ParseUnfold(b: seq<byte>, size: nat, at: nat)
    requires size <= |b|
    ensures ParseName(b, size, at) ==
            if at >= size then TooSmall
            else if b[at] == 0 then Name([], at + 1)
            else if at + 1 + b[at] > size then TooSmall
            else Prepend([CString(b[at + 1..at + 1 + b[at]])], ParseName(b, size, at + 1 + b[at]))
  {
  }

  method ReadName(b: seq<byte>, start: nat, size: nat) returns (r: NameResult)
    requires size <= |b|
    ensures r == ParseName(b, size, start)
  {
    var at := start;
    var res: seq<Label> := [];
    hide *;
    NameStarts(b, size, start);
    while true
      invariant NameSoFar(b, size, start, at, res)
      decreases size - at
    {
      NameStep(b, size, start, at, res);
      if at >= size {
        return TooSmall;
      }
      var len := b[at];
      at := at + 1;
      if len == 0 {
        return Name(res, at);
      }
      if at + len > size {
        return TooSmall;
      }
      var name := CString(b[at..at + len]);
      at := at + len;
      res := res + [name];
    }
  }

  /** The reader has collected `res` and has the rest of the name, from `at`, before it. */
  predicate NameSoFar(b: seq<byte>, size: nat, start: nat, at: nat, res: seq<Label>)
    requires size <= |b|
  {
    ParseName(b, size, start) == Prepend(res, ParseName(b, size, at))
  }

  lemma NameStarts(b: seq<byte>, size: nat, start: nat)
    requires size <= |b|
    ensures NameSoFar(b, size, start, start, [])
  {
    PrependNil(ParseName(b, size, start));
  }

  lemma NameStep(b: seq<byte>, size: nat, start: nat, at: nat, res: seq<Label>)
    requires size <= |b| && NameSoFar(b, size, start, at, res)
    ensures if at >= size then ParseName(b, size, start) == TooSmall
            else if b[at] == 0 then ParseName(b, size, start) == Name(res, at + 1)
            else if at + 1 + b[at] > size then ParseName(b, size, start) == TooSmall
            else NameSoFar(b, size, start, at + 1 + b[at], res + [CString(b[at + 1..at + 1 + b[at]])])
  {
    ParseUnfold(b, size, at);
    hide ParseName, Prepend, CString;
    PrependErrors(res);
    PrependToEnd(res, at + 1);
    if at < size && at + 1 + b[at] <= size {
      var next := at + 1 + b[at];
      PrependPrepend(res, [CString(b[at + 1..next])], ParseName(b, size, next));
    }
  }

  lemma PrependPrepend(xs: seq<Label>, ys: seq<Label>, r: NameResult)
    ensures Prepend(xs, Prepend(ys, r)) == Prepend(xs + ys, r)
  {
    if r.Name? {
      assert xs + (ys + r.labels) == xs + ys + r.labels;
    }
  }

  /** `b` holds the bytes `s` at offset `start`, inside the packet. */
  predicate Holds(b: seq<byte>, size: nat, start: nat, s: seq<byte>) {
    start + |s| <= size <= |b| && forall i :: 0 <= i < |s| ==> s[i] == b[start + i]
  }

  lemma HoldsParts(b: seq<byte>, size: nat, start: nat, s: seq<byte>, t: seq<byte>)
    ensures Holds(b, size, start, s + t) <==> Holds(b, size, start, s) && Holds(b, size, start + |s|, t)
  {
    if Holds(b, size, start, s + t) {
      assert forall i :: 0 <= i < |s| ==> s[i] == (s + t)[i];
      assert forall i :: 0 <= i < |t| ==> t[i] == (s + t)[|s| + i];
    }
  }

  lemma HoldsLabel(b: seq<byte>, size: nat, start: nat, l: Label)
    requires PlainLabel(l, 0xFF) && Holds(b, size, start, EncodeLabel(l))
    ensures start + 1 + |l| <= size && b[start] == |l|
    ensures b[start + 1..start + 1 + |l|] == l
  {
    var s := EncodeLabel(l);
    assert b[start] == s[0];
    assert forall i :: 0 <= i < |l| ==> l[i] == s[i + 1];
  }

  lemma PrependHead(ls: seq<Label>, r: NameResult)
    requires ls != []
    ensures Prepend([ls[0]], Prepend(ls[1..], r)) == Prepend(ls, r)
  {
    PrependPrepend([ls[0]], ls[1..], r);
    assert [ls[0]] + ls[1..] == ls;
  }

  lemma PrependToEnd(ls: seq<Label>, end: nat)
    ensures Prepend(ls, Name([], end)) == Name(ls, end)
  {
    assert ls + [] == ls;
  }

  lemma PrependErrors(ls: seq<Label>)
    ensures forall e: NameResult :: !e.Name? ==> Prepend(ls, e) == e
  {
  }

  lemma PrependNil(r: NameResult)
    ensures Prepend([], r) == r
  {
    assert r.Name? ==> [] + r.labels == r.labels;
  }

  lemma ParseOneLabel(b: seq<byte>, size: nat, start: nat, l: Label)
    requires PlainLabel(l, 0xFF) && Holds(b, size, start, EncodeLabel(l))
    ensures ParseName(b, size, start) == Prepend([l], ParseName(b, size, start + 1 + |l|))
  {
    HoldsLabel(b, size, start, l);
  }

  /** Reading inverts writing, at any offset of any buffer, and stops just past the terminator. */
  lemma {:induction false} ReadNameInverts(b: seq<byte>, size: nat, start: nat, ls: seq<Label>)
    requires PlainName(ls, 0xFF) && Holds(b, size, start, EncodeName(ls))
    ensures ParseName(b, size, start) == Name(ls, start + |EncodeName(ls)|)
    decreases |ls|
  {
    hide ParseName, Prepend, CString, EncodeLabel;
    if ls == [] {
      assert b[start] == EncodeName(ls)[0] == 0;
      ParseUnfold(b, size, start);
    } else {
      var l, rest := ls[0], ls[1..];
      EncodeNameCons(ls);
      HoldsParts(b, size, start, EncodeLabel(l), EncodeName(rest));
      ParseOneLabel(b, size, start, l);
      hide EncodeName, EncodeLabels, Holds;
      assert |EncodeLabel(l)| == 1 + |l| by { LabelLength(l); }
      ReadNameInverts(b, size, start + 1 + |l|, rest);
      PrependToEnd(rest, start + |EncodeName(ls)|);
      PrependHead(ls, Name([], start + |EncodeName(ls)|));
      PrependToEnd(ls, start + |EncodeName(ls)|);
    }
  }

  lemma LabelLength(l: Label)
    ensures |EncodeLabel(l)| == 1 + |l|
  {
  }

  // ---------------------------------------------------------------- the reader that follows pointers

  /** One turn of the loop of `read_compressable_name`. */
  datatype Turn = PastEnd | BadTarget | End | Take(next: nat) | Jump(target: nat)

  /** A `char` read back as an int: octets from 0x80 up are negative. */
  function SignedChar(c: byte): int {
    if c >= 0x80 then c as int - 0x100 else c as int
  }

  function PointerTarget(high: byte, low: byte): int {
    high % 0x40 * 0x100 + SignedChar(low)
  }

  /** Section 4.1.4 of RFC 1035 reads the pointer as 14 unsigned bits; the code agrees below 0x80 only. */
  lemma PointerTargetIsOffset(high: byte, low: byte)
    requires high >= 0xC0
    ensures PointerTarget(high, low) == (high as int - 0xC0) * 0x100 + low as int <==> low < 0x80
  {
    assert high % 0x40 == high - 0xC0;
  }

  /** An octet of the buffer. Behind the buffer stands a zero for what is unknown: see `Overreads`. */
  function OctetAt(b: seq<byte>, i: nat): byte {
    if i < |b| then b[i] else 0
  }

  function TurnAt(b: seq<byte>, size: nat, realStart: nat, at: nat): (t: Turn)
    requires size <= |b|
    ensures t.Take? ==> at < t.next < size && b[at] < 0xC0
    ensures t.Jump? ==> at < size && b[at] >= 0xC0 && 12 <= t.target < realStart - 10
  {
    if at >= size then PastEnd
    else if b[at] == 0 then End
    else if b[at] >= 0xC0 then
      var target := PointerTarget(b[at], OctetAt(b, at + 1));
      if 12 <= target < realStart - 10 then Jump(target) else BadTarget
    else
      var next := at + 1 + b[at];
      if next >= size then PastEnd else Take(next)
  }

  /**
   The loop from `at`, cut off after `fuel` turns. `realEnd` is where the last pointer seen said the
   name ends: the code adds two after already stepping over the pointer's first octet.
   */
  function Follow(b: seq<byte>, size: nat, realStart: nat, at: nat, realEnd: Option<nat>, fuel: nat): (r: NameResult)
    requires size <= |b|
    decreases fuel
  {
    if fuel == 0 then Hangs
    else
      match TurnAt(b, size, realStart, at)
      case PastEnd => TooSmall
      case BadTarget => BadCompression
      case End => Name([], if realEnd.Some? then realEnd.value else at + 1)
      case Take(next) => Prepend([CString(b[at + 1..next])], Follow(b, size, realStart, next, realEnd, fuel - 1))
      case Jump(target) => Follow(b, size, realStart, target, Some(at + 3), fuel - 1)
  }

  lemma FollowUnfold(b: seq<byte>, size: nat, realStart: nat, at: nat, realEnd: Option<nat>, fuel: nat)
    requires size <= |b|
    ensures Follow(b, size, realStart, at, realEnd, fuel) ==
            if fuel == 0 then Hangs else
            match TurnAt(b, size, realStart, at)
            case PastEnd => TooSmall
            case BadTarget => BadCompression
            case End => Name([], if realEnd.Some? then realEnd.value else at + 1)
            case Take(next) => Prepend([CString(b[at + 1..next])], Follow(b, size, realStart, next, realEnd, fuel - 1))
            case Jump(target) => Follow(b, size, realStart, target, Some(at + 3), fuel - 1)
  {
  }

  /** `read_compressable_name`; `size + 1` turns are enough to tell whether the loop ends at all. */
  function ParseCompressed(b: seq<byte>, size: nat, start: nat): (r: NameResult)
    requires size <= |b|
  {
    Follow(b, size, start, start, None, size + 1)
  }

  // ---------------------------------------------------------------- when the loop ends

  predicate Ends(b: seq<byte>, size: nat, realStart: nat, at: nat, fuel: nat)
    requires size <= |b|
  {
    !Follow(b, size, realStart, at, None, fuel).Hangs?
  }

  /** The same outcome, but for where the name is said to end. */
  predicate SameLabels(r: NameResult, q: NameResult) {
    if r.Name? then q.Name? && q.labels == r.labels else q == r
  }

  /**
   Whether a pointer is taken to have been seen before the first turn, and where it would have ended,
   influences nothing but the reported end; so the uninitialised flag does no harm.
   */
  lemma {:induction false} RealEndIrrelevant(
      b: seq<byte>, size: nat, realStart: nat, at: nat, e: Option<nat>, f: Option<nat>, fuel: nat)
    requires size <= |b|
    ensures SameLabels(Follow(b, size, realStart, at, e, fuel), Follow(b, size, realStart, at, f, fuel))
    decreases fuel
  {
    hide Follow, TurnAt, CString;
    FollowUnfold(b, size, realStart, at, e, fuel);
    FollowUnfold(b, size, realStart, at, f, fuel);
    if fuel > 0 {
      match TurnAt(b, size, realStart, at)
      case Take(next) => RealEndIrrelevant(b, size, realStart, next, e, f, fuel - 1);
      case _ =>
    }
  }

  /** The position of the next turn, when there is one. */
  function Next(t: Turn): nat
    requires t.Take? || t.Jump?
  {
    if t.Take? then t.next else t.target
  }

  lemma EndsUnfold(b: seq<byte>, size: nat, realStart: nat, at: nat, fuel: nat)
    requires size <= |b| && fuel > 0
    ensures var t := TurnAt(b, size, realStart, at);
            Ends(b, size, realStart, at, fuel) <==>
            (t.PastEnd? || t.BadTarget? || t.End? || Ends(b, size, realStart, Next(t), fuel - 1))
  {
    var t := TurnAt(b, size, realStart, at);
    if t.Jump? {
      RealEndIrrelevant(b, size, realStart, t.target, None, Some(at + 3), fuel - 1);
    }
  }

  lemma {:induction false} BoundedSet(s: set<nat>, n: nat)
    requires forall p :: p in s ==> p < n
    ensures |s| <= n
  {
    if n == 0 {
      assert s == {};
    } else {
      BoundedSet(s - {n - 1}, n - 1);
      assert s <= (s - {n - 1}) + {n - 1};
    }
  }

  /** From `at`, the loop stands at `p` after `n` turns. */
  predicate Leads(b: seq<byte>, size: nat, realStart: nat, at: nat, p: nat, n: nat)
    requires size <= |b|
    decreases n
  {
    if n == 0 then at == p
    else
      var t := TurnAt(b, size, realStart, at);
      (t.Take? || t.Jump?) && Leads(b, size, realStart, Next(t), p, n - 1)
  }

  ghost predicate Reaches(b: seq<byte>, size: nat, realStart: nat, at: nat, p: nat)
    requires size <= |b|
  {
    exists n: nat :: Leads(b, size, realStart, at, p, n)
  }

  /** From `p` the loop comes back to `p`. */
  ghost predicate Recurs(b: seq<byte>, size: nat, realStart: nat, p: nat)
    requires size <= |b|
  {
    exists m: nat :: m > 0 && Leads(b, size, realStart, p, p, m)
  }

  /** On its way from `at` the loop comes to an octet from which it comes back to it. */
  ghost predicate Revisits(b: seq<byte>, size: nat, realStart: nat, at: nat)
    requires size <= |b|
  {
    exists p: nat :: Reaches(b, size, realStart, at, p) && Recurs(b, size, realStart, p)
  }

  lemma {:induction false} EndsFurtherOn(b: seq<byte>, size: nat, realStart: nat, at: nat, p: nat, n: nat, fuel: nat)
    requires size <= |b| && Leads(b, size, realStart, at, p, n) && Ends(b, size, realStart, at, fuel)
    ensures fuel > n && Ends(b, size, realStart, p, fuel - n)
    decreases n
  {
    hide Ends, TurnAt;
    assert fuel > 0 by { EndsNever(b, size, realStart, at); }
    if n > 0 {
      EndsUnfold(b, size, realStart, at, fuel);
      EndsFurtherOn(b, size, realStart, Next(TurnAt(b, size, realStart, at)), p, n - 1, fuel - 1);
    }
  }

  lemma EndsNever(b: seq<byte>, size: nat, realStart: nat, at: nat)
    requires size <= |b|
    ensures !Ends(b, size, realStart, at, 0)
  {
  }

  lemma {:induction false} CyclesNeverEnd(b: seq<byte>, size: nat, realStart: nat, p: nat, m: nat, fuel: nat)
    requires size <= |b| && m > 0 && Leads(b, size, realStart, p, p, m)
    ensures !Ends(b, size, realStart, p, fuel)
    decreases fuel
  {
    hide Ends, Leads;
    if Ends(b, size, realStart, p, fuel) {
      EndsFurtherOn(b, size, realStart, p, p, m, fuel);
      CyclesNeverEnd(b, size, realStart, p, m, fuel - m);
    }
  }

  lemma ReachesOneTurnOn(b: seq<byte>, size: nat, realStart: nat, at: nat, p: nat)
    requires size <= |b|
    requires var t := TurnAt(b, size, realStart, at); (t.Take? || t.Jump?) && Reaches(b, size, realStart, Next(t), p)
    ensures Reaches(b, size, realStart, at, p)
    ensures p == at ==> Recurs(b, size, realStart, at)
  {
    var next := Next(TurnAt(b, size, realStart, at));
    hide TurnAt;
    var n: nat :| Leads(b, size, realStart, next, p, n);
    assert Leads(b, size, realStart, at, p, n + 1);
  }

  lemma ReachesItself(b: seq<byte>, size: nat, realStart: nat, at: nat)
    requires size <= |b|
    ensures Reaches(b, size, realStart, at, at)
  {
    assert Leads(b, size, realStart, at, at, 0);
  }

  /** As long as the loop does not end it stands on a new octet of the packet each turn, or has revisited one. */
  lemma {:induction false} Trail(b: seq<byte>, size: nat, realStart: nat, at: nat, turns: nat) returns (seen: set<nat>)
    requires size <= |b| && !Ends(b, size, realStart, at, turns)
    ensures Revisits(b, size, realStart, at) || |seen| == turns
    ensures forall p :: p in seen ==> p < size && Reaches(b, size, realStart, at, p)
    decreases turns
  {
    hide Ends, Reaches, Recurs;
    seen := {};
    if turns > 0 {
      EndsUnfold(b, size, realStart, at, turns);
      var t := TurnAt(b, size, realStart, at);
      assert at < size;
      hide TurnAt;
      ReachesItself(b, size, realStart, at);
      var rest := Trail(b, size, realStart, Next(t), turns - 1);
      forall p | Reaches(b, size, realStart, Next(t), p)
        ensures Reaches(b, size, realStart, at, p) && (p == at ==> Recurs(b, size, realStart, at))
      {
        ReachesOneTurnOn(b, size, realStart, at, p);
      }
      seen := rest + {at};
    }
  }

  lemma RevisitingNeverEnds(b: seq<byte>, size: nat, realStart: nat, at: nat, fuel: nat)
    requires size <= |b| && Revisits(b, size, realStart, at)
    ensures !Ends(b, size, realStart, at, fuel)
  {
    hide Ends, Leads;
    if Ends(b, size, realStart, at, fuel) {
      var p: nat :| Reaches(b, size, realStart, at, p) && Recurs(b, size, realStart, p);
      var n: nat :| Leads(b, size, realStart, at, p, n);
      var m: nat :| m > 0 && Leads(b, size, realStart, p, p, m);
      EndsFurtherOn(b, size, realStart, at, p, n, fuel);
      CyclesNeverEnd(b, size, realStart, p, m, fuel - n);
    }
  }

  /** The reader never returns if and only if its loop comes back to an octet it has visited before. */
  lemma HangsIffRevisits(b: seq<byte>, size: nat, start: nat)
    requires size <= |b|
    ensures ParseCompressed(b, size, start).Hangs? <==> Revisits(b, size, start, start)
  {
    assert ParseCompressed(b, size, start).Hangs? <==> !Ends(b, size, start, start, size + 1);
    hide Ends, ParseCompressed, Revisits;
    if Revisits(b, size, start, start) {
      RevisitingNeverEnds(b, size, start, start, size + 1);
    } else if !Ends(b, size, start, start, size + 1) {
      var seen := Trail(b, size, start, start, size + 1);
      BoundedSet(seen, size);
    }
  }

  /** It returns if and only if it does so within `size + 1` turns of its loop, whatever the packet. */
  lemma EndsWithinSize(b: seq<byte>, size: nat, start: nat)
    requires size <= |b|
    ensures ParseCompressed(b, size, start).Hangs? <==> forall fuel: nat :: !Ends(b, size, start, start, fuel)
  {
    assert ParseCompressed(b, size, start).Hangs? <==> !Ends(b, size, start, start, size + 1);
    hide Ends, ParseCompressed, Revisits;
    HangsIffRevisits(b, size, start);
    if Revisits(b, size, start, start) {
      forall fuel: nat
        ensures !Ends(b, size, start, start, fuel)
      {
        RevisitingNeverEnds(b, size, start, start, fuel);
      }
    }
  }

  /** A pointer response whose record data is a pointer into the middle of the question's only label. */
  function LoopingPacket(): (b: seq<byte>)
    ensures |b| == 30
  {
    var head: seq<byte> := [0, 0, 0x84, 0, 0, 0, 0, 1, 0, 0, 0, 0];
    var answer: seq<byte> := [0, 12, 0x80, 1, 0, 0, 0, 20, 0, 2];
    head + [3, 0xC0, 13, 1, 0] + answer + [0xC0, 13, 0]
  }

  lemma LoopingOctets()
    ensures var b := LoopingPacket();
            && b[2] == 0x84 && b[12] == 3 && b[13] == 0xC0 && b[14] == 13 && b[16] == 0
            && b[17] == 0 && b[18] == 12 && b[27] == 0xC0 && b[28] == 13
  {
  }

  lemma LoopingQuestion()
    ensures exists ls: seq<Label> :: ParseName(LoopingPacket(), 29, 12) == Name(ls, 17)
  {
    var b := LoopingPacket();
    LoopingOctets();
    hide LoopingPacket, CString, ParseName;
    ParseUnfold(b, 29, 12);
    ParseUnfold(b, 29, 16);
    assert ParseName(b, 29, 12) == Name([CString(b[13..16])], 17);
  }

  lemma LoopingTurns()
    ensures TurnAt(LoopingPacket(), 29, 27, 27) == Jump(13) && TurnAt(LoopingPacket(), 29, 27, 13) == Jump(13)
  {
    LoopingOctets();
    hide LoopingPacket;
  }

  /** The check on pointer targets does not rule this out: the two octets there point to themselves. */
  lemma PointerLoopHangs()
    ensures var b := LoopingPacket();
            && (exists ls: seq<Label> :: ParseName(b, 29, 12) == Name(ls, 17))
            && ParseCompressed(b, 29, 27).Hangs?
  {
    hide *;
    LoopingQuestion();
    LoopingTurns();
    SelfPointerRevisits(LoopingPacket(), 29, 27, 27, 13);
    HangsIffRevisits(LoopingPacket(), 29, 27);
  }

  lemma SelfPointerRevisits(b: seq<byte>, size: nat, realStart: nat, at: nat, p: nat)
    requires size <= |b| && TurnAt(b, size, realStart, at) == Jump(p) && TurnAt(b, size, realStart, p) == Jump(p)
    ensures Revisits(b, size, realStart, at)
  {
    hide TurnAt;
    assert Leads(b, size, realStart, p, p, 0);
    assert Leads(b, size, realStart, at, p, 1) && Leads(b, size, realStart, p, p, 1);
    assert Reaches(b, size, realStart, at, p) && Recurs(b, size, realStart, p);
  }

  // ---------------------------------------------------------------- reading past the packet

  /** The octets that a turn at `at` looks at: a length, and a label or a pointer's second octet. */
  predicate LooksAt(b: seq<byte>, size: nat, at: nat, i: nat)
    requires size <= |b|
  {
    at < size && (i == at || (if b[at] >= 0xC0 then i == at + 1 else at < i < at + 1 + b[at] < size))
  }

  /** They alone decide the turn, and the label that it takes. */
  lemma TurnLooksOnlyThere(b: seq<byte>, c: seq<byte>, size: nat, realStart: nat, at: nat)
    requires size <= |b| && size <= |c|
    requires forall i: nat :: LooksAt(b, size, at, i) ==> OctetAt(b, i) == OctetAt(c, i)
    ensures TurnAt(b, size, realStart, at) == TurnAt(c, size, realStart, at)
    ensures var t := TurnAt(b, size, realStart, at); t.Take? ==> b[at + 1..t.next] == c[at + 1..t.next]
  {
    if at < size {
      assert LooksAt(b, size, at, at) && OctetAt(b, at) == b[at] && OctetAt(c, at) == c[at];
      assert b[at] >= 0xC0 ==> LooksAt(b, size, at, at + 1);
      hide PointerTarget;
      var t := TurnAt(b, size, realStart, at);
      if t.Take? {
        forall i | at + 1 <= i < t.next
          ensures b[i] == c[i]
        {
          assert LooksAt(b, size, at, i) && OctetAt(b, i) == b[i] && OctetAt(c, i) == c[i];
        }
      }
    }
  }

  /**
   The loop comes to the packet's last octet as to the first octet of a pointer. The pointer's second
   octet then is whatever is left over behind the packet; behind a full buffer it is foreign memory.
   */
  ghost predicate Overreads(b: seq<byte>, size: nat, start: nat)
    requires size <= |b|
  {
    size > 0 && b[size - 1] >= 0xC0 && Reaches(b, size, start, start, size - 1)
  }

  /** The reader looks past the packet if and only if it overreads, and then at one octet only. */
  lemma OverreadsExactly(b: seq<byte>, size: nat, start: nat)
    requires size <= |b|
    ensures Overreads(b, size, start) <==>
            exists p: nat :: Reaches(b, size, start, start, p) && LooksAt(b, size, p, size)
    ensures forall p: nat, i: nat :: LooksAt(b, size, p, i) ==> i <= size
  {
    hide Reaches;
    if Overreads(b, size, start) {
      assert LooksAt(b, size, size - 1, size);
    }
    if p: nat :| Reaches(b, size, start, start, p) && LooksAt(b, size, p, size) {
      assert p == size - 1;
    }
  }

  predicate SamePacket(b: seq<byte>, c: seq<byte>, size: nat) {
    size <= |b| && size <= |c| && b[..size] == c[..size]
  }

  lemma SameOctets(b: seq<byte>, c: seq<byte>, size: nat)
    requires SamePacket(b, c, size)
    ensures size <= |b| && size <= |c| && forall i :: 0 <= i < size ==> b[i] == c[i]
  {
    assert forall i :: 0 <= i < size ==> b[i] == b[..size][i] && c[i] == c[..size][i];
  }

  lemma SameTurn(b: seq<byte>, c: seq<byte>, size: nat, realStart: nat, at: nat)
    requires SamePacket(b, c, size) && (at != size - 1 || b[at] < 0xC0)
    ensures TurnAt(b, size, realStart, at) == TurnAt(c, size, realStart, at)
    ensures var t := TurnAt(b, size, realStart, at); t.Take? ==> b[at + 1..t.next] == c[at + 1..t.next]
  {
    SameOctets(b, c, size);
    hide SamePacket, TurnAt;
    forall i: nat | LooksAt(b, size, at, i)
      ensures OctetAt(b, i) == OctetAt(c, i)
    {
      assert i < size;
    }
    TurnLooksOnlyThere(b, c, size, realStart, at);
  }

  lemma {:induction false} SameWayToTheEnd(
      b: seq<byte>, c: seq<byte>, size: nat, realStart: nat, at: nat, n: nat)
    requires SamePacket(b, c, size) && size > 0 && Leads(b, size, realStart, at, size - 1, n)
    ensures Reaches(c, size, realStart, at, size - 1)
    decreases n
  {
    assert size <= |b| && size <= |c|;
    hide SamePacket, Reaches, TurnAt;
    if at == size - 1 {
      ReachesItself(c, size, realStart, at);
    } else {
      SameTurn(b, c, size, realStart, at);
      SameWayToTheEnd(b, c, size, realStart, Next(TurnAt(b, size, realStart, at)), n - 1);
      ReachesOneTurnOn(c, size, realStart, at, size - 1);
    }
  }

  /** Whether it overreads is decided by the packet alone. */
  lemma OverreadsIsOfThePacket(b: seq<byte>, c: seq<byte>, size: nat, start: nat)
    requires SamePacket(b, c, size)
    ensures Overreads(b, size, start) <==> Overreads(c, size, start)
  {
    OverreadsThere(b, c, size, start);
    OverreadsThere(c, b, size, start);
  }

  lemma OverreadsThere(b: seq<byte>, c: seq<byte>, size: nat, start: nat)
    requires SamePacket(b, c, size)
    ensures Overreads(b, size, start) ==> Overreads(c, size, start)
  {
    if Overreads(b, size, start) {
      assert b[size - 1] == b[..size][size - 1] && c[size - 1] == c[..size][size - 1];
      var n: nat :| Leads(b, size, start, start, size - 1, n);
      SameWayToTheEnd(b, c, size, start, start, n);
    }
  }

  lemma FollowSameTurn(b: seq<byte>, c: seq<byte>, size: nat, realStart: nat, at: nat, realEnd: Option<nat>, fuel: nat)
    requires size <= |b| && size <= |c| && fuel > 0 && TurnAt(b, size, realStart, at) == TurnAt(c, size, realStart, at)
    requires var t := TurnAt(b, size, realStart, at);
             && (t.Take? ==> b[at + 1..t.next] == c[at + 1..t.next])
             && (t.Take? || t.Jump? ==>
                   var end := if t.Take? then realEnd else Some(at + 3);
                   Follow(b, size, realStart, Next(t), end, fuel - 1)
                   == Follow(c, size, realStart, Next(t), end, fuel - 1))
    ensures Follow(b, size, realStart, at, realEnd, fuel) == Follow(c, size, realStart, at, realEnd, fuel)
  {
    hide *;
    FollowUnfold(b, size, realStart, at, realEnd, fuel);
    FollowUnfold(c, size, realStart, at, realEnd, fuel);
    NextOf(TurnAt(b, size, realStart, at));
  }

  lemma NextOf(t: Turn)
    ensures t.Take? ==> Next(t) == t.next
    ensures t.Jump? ==> Next(t) == t.target
  {
  }

  lemma FollowNoFurther(b: seq<byte>, c: seq<byte>, size: nat, realStart: nat, at: nat, realEnd: Option<nat>)
    requires size <= |b| && size <= |c|
    ensures Follow(b, size, realStart, at, realEnd, 0) == Follow(c, size, realStart, at, realEnd, 0)
  {
  }

  lemma {:induction false} FollowIgnoresRest(
      b: seq<byte>, c: seq<byte>, size: nat, realStart: nat, at: nat, realEnd: Option<nat>, fuel: nat)
    requires size <= |b| && size <= |c| && SamePacket(b, c, size)
    requires size > 0 && b[size - 1] >= 0xC0 ==> !Reaches(b, size, realStart, at, size - 1)
    ensures Follow(b, size, realStart, at, realEnd, fuel) == Follow(c, size, realStart, at, realEnd, fuel)
    decreases fuel
  {
    hide *;
    if fuel == 0 {
      FollowNoFurther(b, c, size, realStart, at, realEnd);
    } else {
      ReachesItself(b, size, realStart, at);
      SameTurn(b, c, size, realStart, at);
      var t := TurnAt(b, size, realStart, at);
      if t.Take? || t.Jump? {
        if Reaches(b, size, realStart, Next(t), size - 1) {
          ReachesOneTurnOn(b, size, realStart, at, size - 1);
        }
        FollowIgnoresRest(b, c, size, realStart, Next(t), if t.Take? then realEnd else Some(at + 3), fuel - 1);
      }
      FollowSameTurn(b, c, size, realStart, at, realEnd, fuel);
    }
  }

  /** Unless it overreads, what the reader returns depends on the packet alone. */
  lemma ReadsOnlyThePacket(b: seq<byte>, c: seq<byte>, size: nat, start: nat)
    requires SamePacket(b, c, size) && !Overreads(b, size, start)
    ensures ParseCompressed(b, size, start) == ParseCompressed(c, size, start)
  {
    FollowIgnoresRest(b, c, size, start, start, None, size + 1);
  }

  lemma {:induction false} PlainReaderIgnoresRest(b: seq<byte>, c: seq<byte>, size: nat, start: nat)
    requires SamePacket(b, c, size)
    ensures ParseName(b, size, start) == ParseName(c, size, start)
    decreases size - start
  {
    hide ParseName, CString, Prepend, SamePacket;
    SameOctets(b, c, size);
    ParseUnfold(b, size, start);
    ParseUnfold(c, size, start);
    if start < size && b[start] != 0 && start + 1 + b[start] <= size {
      var next := start + 1 + b[start];
      assert b[start + 1..next] == c[start + 1..next];
      PlainReaderIgnoresRest(b, c, size, next);
    }
  }

  /** A pointer response that ends within its pointer, in a buffer with one octet left over behind it. */
  function CutPacket(leftover: byte): (b: seq<byte>)
    ensures |b| == 27
  {
    var head: seq<byte> := [0, 0, 0x84, 0, 0, 0, 0, 1, 0, 0, 0, 0];
    var answer: seq<byte> := [0, 12, 0x80, 1, 0, 0, 0, 20, 0, 2];
    head + [1, 97, 0] + answer + [0xC0, leftover]
  }

  lemma CutOctets(leftover: byte)
    ensures var b := CutPacket(leftover);
            && b[2] == 0x84 && b[12] == 1 && b[13] == 97 && b[14] == 0
            && b[15] == 0 && b[16] == 12 && b[25] == 0xC0 && b[26] == leftover
            && b[..26] == CutPacket(0)[..26]
  {
  }

  lemma CutPacketJumps(leftover: byte, target: nat)
    requires leftover == target && target in {12, 14}
    ensures ParseCompressed(CutPacket(leftover), 26, 25) == Name(if target == 12 then [[97]] else [], 28)
    ensures Overreads(CutPacket(leftover), 26, 25)
  {
    var b := CutPacket(leftover);
    CutOctets(leftover);
    ReachesItself(b, 26, 25, 25);
    hide CutPacket, Follow;
    assert TurnAt(b, 26, 25, 25) == Jump(target);
    FollowUnfold(b, 26, 25, 25, None, 27);
    FollowUnfold(b, 26, 25, target, Some(28), 26);
    FollowUnfold(b, 26, 25, 14, Some(28), 25);
    if target == 12 {
      assert b[13..14] == [97];
      assert CString([97]) == [97] && [97] + [] == [97];
    }
  }

  /** One packet, two results: the name "a" or the empty name, as the octet left over behind it says. */
  lemma OverreadChangesTheName()
    ensures SamePacket(CutPacket(12), CutPacket(14), 26) && Overreads(CutPacket(12), 26, 25)
    ensures ParseCompressed(CutPacket(12), 26, 25) == Name([[97]], 28)
    ensures ParseCompressed(CutPacket(14), 26, 25) == Name([], 28)
  {
    CutPacketJumps(12, 12);
    CutPacketJumps(14, 14);
    CutOctets(12);
    CutOctets(14);
    hide *;
  }

  // ---------------------------------------------------------------- the reader's loop

  /** After some turns the loop is at `at`, has collected `res`, and has the rest of the answer before it. */
  ghost predicate Reading(b: seq<byte>, size: nat, start: nat, at: nat, realEnd: Option<nat>, fuel: nat,
                          res: seq<Label>)
    requires size <= |b|
  {
    ParseCompressed(b, size, start) == Prepend(res, Follow(b, size, start, at, realEnd, fuel))
  }

  lemma ReadingStarts(b: seq<byte>, size: nat, start: nat)
    requires size <= |b|
    ensures Reading(b, size, start, start, None, size + 1, [])
  {
    PrependNil(ParseCompressed(b, size, start));
  }

  lemma ReadingStep(b: seq<byte>, size: nat, start: nat, at: nat, realEnd: Option<nat>, fuel: nat, res: seq<Label>)
    requires size <= |b| && Reading(b, size, start, at, realEnd, fuel, res)
    requires !ParseCompressed(b, size, start).Hangs?
    ensures fuel > 0
    ensures match TurnAt(b, size, start, at)
            case PastEnd => ParseCompressed(b, size, start) == TooSmall
            case BadTarget => ParseCompressed(b, size, start) == BadCompression
            case End => ParseCompressed(b, size, start) == Name(res, if realEnd.Some? then realEnd.value else at + 1)
            case Take(next) => Reading(b, size, start, next, realEnd, fuel - 1, res + [CString(b[at + 1..next])])
            case Jump(target) => Reading(b, size, start, target, Some(at + 3), fuel - 1, res)
  {
    FollowUnfold(b, size, start, at, realEnd, fuel);
    hide Follow, ParseCompressed, TurnAt;
    match TurnAt(b, size, start, at)
    case PastEnd => PrependErrors(res);
    case BadTarget => PrependErrors(res);
    case End => PrependToEnd(res, if realEnd.Some? then realEnd.value else at + 1);
    case Take(next) => PrependPrepend(res, [CString(b[at + 1..next])], Follow(b, size, start, next, realEnd, fuel - 1));
    case Jump(_) =>
  }

  lemma ReachesFurther(b: seq<byte>, size: nat, realStart: nat, at: nat, p: nat)
    requires size <= |b| && Reaches(b, size, realStart, at, p)
    requires TurnAt(b, size, realStart, p).Take? || TurnAt(b, size, realStart, p).Jump?
    ensures Reaches(b, size, realStart, at, Next(TurnAt(b, size, realStart, p)))
  {
    var n: nat :| Leads(b, size, realStart, at, p, n);
    hide TurnAt;
    LeadsFurther(b, size, realStart, at, p, n);
  }

  lemma {:induction false} LeadsFurther(b: seq<byte>, size: nat, realStart: nat, at: nat, p: nat, n: nat)
    requires size <= |b| && Leads(b, size, realStart, at, p, n)
    requires TurnAt(b, size, realStart, p).Take? || TurnAt(b, size, realStart, p).Jump?
    ensures Leads(b, size, realStart, at, Next(TurnAt(b, size, realStart, p)), n + 1)
    decreases n
  {
    hide TurnAt;
    if n == 0 {
      assert Leads(b, size, realStart, Next(TurnAt(b, size, realStart, p)), Next(TurnAt(b, size, realStart, p)), 0);
    } else {
      LeadsFurther(b, size, realStart, Next(TurnAt(b, size, realStart, at)), p, n - 1);
    }
  }

  /** The octets it may look at lie in the buffer: it is larger than the packet, or no octet behind is needed. */
  ghost predicate Readable(b: seq<byte>, size: nat, start: nat)
    requires size <= |b|
  {
    size < |b| || !Overreads(b, size, start)
  }

  /** The same turn as the code takes it. */
  lemma ReadingTurn(b: seq<byte>, size: nat, start: nat, at: nat, realEnd: Option<nat>, fuel: nat, res: seq<Label>)
    requires size <= |b| && Reading(b, size, start, at, realEnd, fuel, res)
    requires !ParseCompressed(b, size, start).Hangs?
    requires Readable(b, size, start) && Reaches(b, size, start, start, at)
    ensures fuel > 0 && (at < size && b[at] >= 0xC0 ==> at + 1 < |b|)
    ensures var r := ParseCompressed(b, size, start);
            if at >= size then r == TooSmall
            else if b[at] == 0 then r == Name(res, if realEnd.Some? then realEnd.value else at + 1)
            else if b[at] >= 0xC0 then
              var target := PointerTarget(b[at], b[at + 1]);
              if 12 <= target < start - 10 then
                Reading(b, size, start, target, Some(at + 3), fuel - 1, res) && Reaches(b, size, start, start, target)
              else r == BadCompression
            else if at + 1 + b[at] >= size then r == TooSmall
            else
              var next := at + 1 + b[at];
              && Reading(b, size, start, next, realEnd, fuel - 1, res + [CString(b[at + 1..next])])
              && Reaches(b, size, start, start, next)
  {
    hide ParseCompressed, Reading, Reaches, PointerTarget, CString;
    ReadingStep(b, size, start, at, realEnd, fuel, res);
    var t := TurnAt(b, size, start, at);
    if t.Take? || t.Jump? {
      ReachesFurther(b, size, start, start, at);
    }
  }

  /** The same loop in place, on all inputs on which it returns without reading past the buffer. */
  method ReadCompressableName(b: seq<byte>, start: nat, size: nat) returns (r: NameResult)
    requires size <= |b| && Readable(b, size, start)
    requires start >= 10  // the answer's fixed part was read before it; the check below is on unsigned sizes
    requires !ParseCompressed(b, size, start).Hangs?
    ensures r == ParseCompressed(b, size, start)
  {
    hide *;
    var res: seq<Label> := [];
    var realEnd: nat := 0;
    var realStart: int := start;
    var compressionOccurred := false;
    var at: nat := start;
    ghost var fuel: nat, reported: Option<nat> := size + 1, None;
    ReadingStarts(b, size, start);
    ReachesItself(b, size, start, start);
    while true
      invariant Reading(b, size, start, at, reported, fuel, res) && Reaches(b, size, start, start, at)
      invariant reported == if compressionOccurred then Some(realEnd) else None
      decreases fuel
    {
      ReadingTurn(b, size, start, at, reported, fuel, res);
      if at >= size {
        return TooSmall;
      }
      var len := b[at];
      at := at + 1;
      if len == 0 {
        break;
      }
      fuel := fuel - 1;
      if len >= 0xC0 {
        compressionOccurred := true;
        realEnd := at + 2;
        var target := PointerTarget(len, b[at]);
        if !(12 <= target < realStart - 10) {
          return BadCompression;
        }
        at, reported := target, Some(realEnd);
        continue;
      }
      if at + len >= size {
        return TooSmall;
      }
      var name := CString(b[at..at + len]);
      at := at + len;
      res := res + [name];
    }
    if compressionOccurred {
      at := realEnd;
    }
    r := Name(res, at);
  }

  // ---------------------------------------------------------------- the two readers compared

  /** Every length octet the plain reader meets is below 0xC0. */
  predicate NoPointers(b: seq<byte>, size: nat, start: nat)
    requires size <= |b|
    decreases size - start
  {
    start < size && b[start] != 0 ==>
      b[start] < 0xC0 && (start + 1 + b[start] <= size ==> NoPointers(b, size, start + 1 + b[start]))
  }

  /**
   Without pointers the two readers agree on labels, end and failure, although one tests `>` and
   the other `>=`: a label that fills the packet leaves no room for its terminator.
   */
  lemma {:induction false} ReadersAgree(
      b: seq<byte>, size: nat, realStart: nat, at: nat, realEnd: Option<nat>, fuel: nat)
    requires size <= |b| && NoPointers(b, size, at) && fuel > 0
    requires var plain := ParseName(b, size, at);
             fuel > (if plain.Name? then plain.end else size) - at
    ensures var plain := ParseName(b, size, at);
            Follow(b, size, realStart, at, realEnd, fuel) ==
            if plain.Name? && realEnd.Some? then plain.(end := realEnd.value) else plain
    decreases fuel
  {
    hide ParseName, Follow, CString;
    ParseUnfold(b, size, at);
    FollowUnfold(b, size, realStart, at, realEnd, fuel);
    if at < size && b[at] != 0 && at + 1 + b[at] <= size {
      var next := at + 1 + b[at];
      if next < size {
        ReadersAgree(b, size, realStart, next, realEnd, fuel - 1);
      } else {
        ParseUnfold(b, size, next);
      }
    }
  }

  lemma ReadersAgreeOnPlainNames(b: seq<byte>, size: nat, start: nat)
    requires size <= |b| && NoPointers(b, size, start)
    ensures ParseCompressed(b, size, start) == ParseName(b, size, start)
  {
    ReadersAgree(b, size, start, start, None, size + 1);
  }

  lemma {:induction false} PlainNameHasNoPointers(b: seq<byte>, size: nat, start: nat, ls: seq<Label>)
    requires PlainName(ls, 0xBF) && Holds(b, size, start, EncodeName(ls))
    ensures NoPointers(b, size, start)
    decreases |ls|
  {
    if ls == [] {
      assert b[start] == EncodeName(ls)[0];
    } else {
      var l, rest := ls[0], ls[1..];
      assert l in ls;
      EncodeNameCons(ls);
      HoldsParts(b, size, start, EncodeLabel(l), EncodeName(rest));
      HoldsLabel(b, size, start, l);
      PlainNameHasNoPointers(b, size, start + 1 + |l|, rest);
    }
  }

  /** Where the k-th label of the name at `start` begins. */
  function Boundary(b: seq<byte>, size: nat, start: nat, k: nat): (p: nat)
    requires size <= |b| && ParseName(b, size, start).Name? && k <= |ParseName(b, size, start).labels|
    ensures start <= p < ParseName(b, size, start).end
    decreases k
  {
    if k == 0 then start else Boundary(b, size, start + 1 + b[start], k - 1)
  }

  /** From a label boundary the plain reader yields the rest of the name. */
  lemma {:induction false} ParseFromBoundary(b: seq<byte>, size: nat, start: nat, k: nat)
    requires size <= |b| && ParseName(b, size, start).Name? && k <= |ParseName(b, size, start).labels|
    ensures var whole := ParseName(b, size, start);
            ParseName(b, size, Boundary(b, size, start, k)) == Name(whole.labels[k..], whole.end)
    ensures NoPointers(b, size, start) ==> NoPointers(b, size, Boundary(b, size, start, k))
    decreases k
  {
    hide CString, ParseName;
    ParseUnfold(b, size, start);
    if k > 0 {
      ParseFromBoundary(b, size, start + 1 + b[start], k - 1);
      var rest := ParseName(b, size, start + 1 + b[start]).labels;
      assert ParseName(b, size, start).labels[k..] == rest[k - 1..];
    }
  }

  /** Labels `ls` from `at`, then at `p` a pointer whose decoded target is `target`. */
  predicate Pointed(b: seq<byte>, size: nat, at: nat, ls: seq<Label>, p: nat, target: nat)
    decreases |ls|
  {
    if ls == [] then
      at == p && p + 2 <= size <= |b| && b[p] >= 0xC0 && PointerTarget(b[p], b[p + 1]) == target
    else
      && PlainLabel(ls[0], 0xBF) && Holds(b, size, at, EncodeLabel(ls[0]))
      && Pointed(b, size, at + 1 + |ls[0]|, ls[1..], p, target)
  }

  /** Such bytes are what a writer of labels followed by a pointer produces. */
  lemma {:induction false} PointedBytes(b: seq<byte>, size: nat, at: nat, ls: seq<Label>, high: byte, low: byte)
    requires PlainName(ls, 0xBF) && high >= 0xC0 && PointerTarget(high, low) >= 0
    requires Holds(b, size, at, EncodeLabels(ls) + [high, low])
    ensures Pointed(b, size, at, ls, at + |EncodeLabels(ls)|, PointerTarget(high, low))
    decreases |ls|
  {
    if ls == [] {
      var s: seq<byte> := [high, low];
      assert EncodeLabels(ls) + s == s;
      assert b[at] == s[0] && b[at + 1] == s[1];
    } else {
      var l, rest := ls[0], ls[1..];
      assert l in ls && ls == [l] + rest;
      EncodeLabelsCons(l, rest);
      assert EncodeLabels(ls) + [high, low] == EncodeLabel(l) + (EncodeLabels(rest) + [high, low]);
      HoldsParts(b, size, at, EncodeLabel(l), EncodeLabels(rest) + [high, low]);
      PointedBytes(b, size, at + 1 + |l|, rest, high, low);
    }
  }

  lemma {:induction false} PointedExtent(b: seq<byte>, size: nat, at: nat, ls: seq<Label>, p: nat, target: nat)
    requires Pointed(b, size, at, ls, p, target)
    ensures at + |ls| <= p && p + 2 <= size <= |b| && b[p] >= 0xC0
    decreases |ls|
  {
    if ls != [] {
      PointedExtent(b, size, at + 1 + |ls[0]|, ls[1..], p, target);
    }
  }

  lemma FollowOneLabel(b: seq<byte>, size: nat, realStart: nat, at: nat, l: Label, realEnd: Option<nat>, fuel: nat)
    requires size <= |b| && fuel > 0 && at + 1 + |l| < size
    requires PlainLabel(l, 0xBF) && Holds(b, size, at, EncodeLabel(l))
    ensures Follow(b, size, realStart, at, realEnd, fuel)
         == Prepend([l], Follow(b, size, realStart, at + 1 + |l|, realEnd, fuel - 1))
  {
    hide Follow, Holds, CString, Prepend;
    HoldsLabel(b, size, at, l);
    assert TurnAt(b, size, realStart, at) == Take(at + 1 + |l|);
    hide TurnAt;
    FollowUnfold(b, size, realStart, at, realEnd, fuel);
  }

  lemma FollowFirst(b: seq<byte>, size: nat, realStart: nat, at: nat, ls: seq<Label>, p: nat, target: nat, fuel: nat)
    requires size <= |b| && ls != [] && Pointed(b, size, at, ls, p, target)
    requires 12 <= target < realStart - 10 && fuel > |ls|
    ensures Pointed(b, size, at + 1 + |ls[0]|, ls[1..], p, target)
    ensures Follow(b, size, realStart, at, None, fuel)
         == Prepend([ls[0]], Follow(b, size, realStart, at + 1 + |ls[0]|, None, fuel - 1))
  {
    hide Follow, TurnAt;
    PointedExtent(b, size, at + 1 + |ls[0]|, ls[1..], p, target);
    FollowOneLabel(b, size, realStart, at, ls[0], None, fuel);
  }

  lemma FollowJump(b: seq<byte>, size: nat, realStart: nat, at: nat, p: nat, target: nat, fuel: nat)
    requires size <= |b| && fuel > 0 && 12 <= target < realStart - 10
    requires Pointed(b, size, at, [], p, target)
    ensures Follow(b, size, realStart, at, None, fuel) == Follow(b, size, realStart, target, Some(p + 3), fuel - 1)
  {
    assert TurnAt(b, size, realStart, at) == Jump(target);
  }

  /** The labels before the pointer are taken one by one; then a single jump is made. */
  lemma {:induction false} FollowPrefix(
      b: seq<byte>, size: nat, realStart: nat, at: nat, ls: seq<Label>, p: nat, target: nat, fuel: nat,
      after: NameResult)
    requires size <= |b| && Pointed(b, size, at, ls, p, target)
    requires 12 <= target < realStart - 10 && fuel > |ls|
    requires after == Follow(b, size, realStart, target, Some(p + 3), fuel - |ls| - 1)
    ensures Follow(b, size, realStart, at, None, fuel) == Prepend(ls, after)
    decreases |ls|
  {
    hide Follow;
    if ls == [] {
      FollowJump(b, size, realStart, at, p, target, fuel);
      PrependNil(after);
    } else {
      FollowFirst(b, size, realStart, at, ls, p, target, fuel);
      FollowPrefix(b, size, realStart, at + 1 + |ls[0]|, ls[1..], p, target, fuel - 1, after);
      PrependHead(ls, after);
    }
  }

  /** A pointer after some labels is refused unless its target lies from offset 12 up to 10 before the record data. */
  lemma {:induction false} PointerRefused(
      b: seq<byte>, size: nat, realStart: nat, at: nat, ls: seq<Label>, p: nat, target: nat, fuel: nat)
    requires size <= |b| && Pointed(b, size, at, ls, p, target) && fuel > |ls|
    requires target < 12 || target + 10 >= realStart
    ensures Follow(b, size, realStart, at, None, fuel) == BadCompression
    decreases |ls|
  {
    hide Follow, CString;
    if ls == [] {
      assert TurnAt(b, size, realStart, at) == BadTarget;
      FollowUnfold(b, size, realStart, at, None, fuel);
    } else {
      PointedExtent(b, size, at + 1 + |ls[0]|, ls[1..], p, target);
      FollowOneLabel(b, size, realStart, at, ls[0], None, fuel);
      PointerRefused(b, size, realStart, at + 1 + |ls[0]|, ls[1..], p, target, fuel - 1);
      hide Prepend;
      PrependErrors([ls[0]]);
    }
  }

  /** So of the pointers after some labels exactly those are followed that point into the question's octets. */
  lemma PointerOutside(b: seq<byte>, size: nat, start: nat, ls: seq<Label>, p: nat, target: nat)
    requires size <= |b| && Pointed(b, size, start, ls, p, target)
    requires target < 12 || target + 10 >= start
    ensures ParseCompressed(b, size, start) == BadCompression
  {
    PointedExtent(b, size, start, ls, p, target);
    PointerRefused(b, size, start, start, ls, p, target, size + 1);
  }

  /**
   When a pointer targets any label boundary of the question's name (all its length octets below
   0xC0), the reader makes one jump and returns the labels before the pointer followed by exactly
   the rest of the question's name; the end it reports lies one octet past the pointer.
   */
  lemma PointerIntoQname(b: seq<byte>, size: nat, k: nat, ls: seq<Label>, p: nat)
    requires size <= |b| && ParseName(b, size, 12).Name? && NoPointers(b, size, 12)
    requires k <= |ParseName(b, size, 12).labels|
    requires Pointed(b, size, ParseName(b, size, 12).end + 10, ls, p, Boundary(b, size, 12, k))
    ensures var qname := ParseName(b, size, 12);
            ParseCompressed(b, size, qname.end + 10) == Name(ls + qname.labels[k..], p + 3)
  {
    hide Follow, ParseName, NoPointers;
    var qname := ParseName(b, size, 12);
    var start := qname.end + 10;
    var target := Boundary(b, size, 12, k);
    PointedExtent(b, size, start, ls, p, target);
    ParseFromBoundary(b, size, 12, k);
    ReadersAgree(b, size, start, target, Some(p + 3), size - |ls|);
    FollowPrefix(b, size, start, start, ls, p, target, size + 1, Name(qname.labels[k..], p + 3));
  }

  /** Both readers keep of a label the octets before its first NUL. */
  lemma LabelsAreCut(b: seq<byte>, size: nat, start: nat, kept: seq<byte>)
    requires start < size <= |b| && b[start] > 0 && start + 1 + b[start] <= size
    requires 0 !in kept && kept <= b[start + 1..start + 1 + b[start]]
    requires |kept| == b[start] || b[start + 1 + |kept|] == 0
    ensures var r := ParseName(b, size, start); r.Name? ==> r.labels != [] && r.labels[0] == kept
    ensures var r := ParseCompressed(b, size, start);
            r.Name? && b[start] < 0xC0 ==> r.labels != [] && r.labels[0] == kept
  {
    hide CString, ParseName, Follow, PointerTarget, OctetAt;
    CStringStops(b[start + 1..start + 1 + b[start]], |kept|);
    ParseUnfold(b, size, start);
    FollowUnfold(b, size, start, start, None, size + 1);
  }
}
