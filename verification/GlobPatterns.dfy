/** What the elements of a glob pattern match (PatternMatcher.h), as splits of the line into pieces. */
module GlobPatterns {

  datatype Elem =
    | LiteralString(text: string)
    | AnyChar
    | CommonChar
    | Set(chars: string)
    | NegSet(chars: string)
    | NumRange(from: int, to: int)
    | AnySeq
    | CommonSeq
    | End

  const LONG_MAX: int := 0x7FFF_FFFF_FFFF_FFFF

  predicate IsDigit(c: char) { '0' <= c <= '9' }

  predicate AllDigits(s: string) { forall i :: 0 <= i < |s| ==> IsDigit(s[i]) }

  /** The number a string of digits stands for. */
  function Number(s: string): nat
    requires AllDigits(s)
  {
    if s == "" then 0 else 10 * Number(s[..|s| - 1]) + (s[|s| - 1] as int - '0' as int)
  }

  /** Where the run of digits that starts at i ends. */
  function DigitsEnd(s: string, i: nat): (j: nat)
    requires i <= |s|
    ensures i <= j <= |s| && AllDigits(s[i..j]) && (j < |s| ==> !IsDigit(s[j]))
    decreases |s| - i
  {
    if i < |s| && IsDigit(s[i]) then
      var j := DigitsEnd(s, i + 1);
      assert s[i..j] == [s[i]] + s[i + 1..j];
      j
    else i
  }

  /** atol at a digit: numbers that do not fit a long become the largest one. */
  function Atol(s: string, i: nat): nat
    requires i <= |s|
  {
    Saturated(Number(s[i..DigitsEnd(s, i)]))
  }

  /** A set is a string of pairs, each the two ends of a range. */
  ghost predicate InSet(c: char, chars: string) {
    exists k :: 0 <= k && 2 * k + 1 < |chars| && chars[2 * k] <= c <= chars[2 * k + 1]
  }

  predicate InRange(n: int, from: int, to: int) {
    (from >= 0 ==> from <= n) && (to >= 0 ==> n <= to)
  }

  /** The piece of the line that one element accepts; a number takes all digits there are. */
  ghost predicate Piece(e: Elem, s: string, i: nat, j: nat) {
    && i <= j <= |s|
    && match e
       case LiteralString(text) => s[i..j] == text
       case AnyChar => j == i + 1
       case CommonChar => j == i + 1 && s[i] != '.'
       case Set(chars) => j == i + 1 && InSet(s[i], chars)
       case NegSet(chars) => j == i + 1 && !InSet(s[i], chars)
       case NumRange(from, to) => i < j && j == DigitsEnd(s, i) && InRange(Atol(s, i), from, to)
       case AnySeq => true
       case CommonSeq => '.' !in s[i..j]
       case End => i == |s|
  }

  /** The cuts divide the line from i on into pieces for the elements from k on. */
  ghost predicate Split(p: seq<Elem>, k: nat, s: string, i: nat, cuts: seq<nat>) {
    && k <= |p| && |cuts| == |p| - k + 1 && cuts[0] == i
    && forall m :: 0 <= m < |p| - k ==> Piece(p[k + m], s, cuts[m], cuts[m + 1])
  }

  /** The same, element by element. */
  ghost predicate Accepts(p: seq<Elem>, k: nat, s: string, i: nat)
    decreases |p| - k
  {
    k >= |p| || exists j: nat :: i <= j <= |s| && Piece(p[k], s, i, j) && Accepts(p, k + 1, s, j)
  }

  lemma {:induction false} SplitAccepted(p: seq<Elem>, k: nat, s: string, i: nat, cuts: seq<nat>)
    requires Split(p, k, s, i, cuts)
    ensures Accepts(p, k, s, i)
    decreases |p| - k
  {
    if k < |p| {
      var rest := cuts[1..];
      forall m | 0 <= m < |p| - (k + 1) ensures Piece(p[k + 1 + m], s, rest[m], rest[m + 1]) {
        assert Piece(p[k + (m + 1)], s, cuts[m + 1], cuts[m + 2]);
      }
      SplitAccepted(p, k + 1, s, cuts[1], rest);
      assert Piece(p[k + 0], s, cuts[0], cuts[1]);
    }
  }

  lemma {:induction false} AcceptedSplit(p: seq<Elem>, k: nat, s: string, i: nat) returns (cuts: seq<nat>)
    requires k <= |p| && Accepts(p, k, s, i)
    ensures Split(p, k, s, i, cuts)
    decreases |p| - k
  {
    if k == |p| {
      cuts := [i];
    } else {
      var j: nat :| i <= j <= |s| && Piece(p[k], s, i, j) && Accepts(p, k + 1, s, j);
      var rest := AcceptedSplit(p, k + 1, s, j);
      cuts := [i] + rest;
      forall m | 0 <= m < |p| - k ensures Piece(p[k + m], s, cuts[m], cuts[m + 1]) {
        if m > 0 { assert Piece(p[k + 1 + (m - 1)], s, rest[m - 1], rest[m]); }
      }
    }
  }

  /** A line is accepted exactly if it can be cut into one piece for each element. */
  lemma AcceptsIffSplit(p: seq<Elem>, k: nat, s: string, i: nat)
    requires k <= |p|
    ensures Accepts(p, k, s, i) <==> exists cuts :: Split(p, k, s, i, cuts)
  {
    if Accepts(p, k, s, i) { var cuts := AcceptedSplit(p, k, s, i); }
    if exists cuts :: Split(p, k, s, i, cuts) {
      var cuts :| Split(p, k, s, i, cuts);
      SplitAccepted(p, k, s, i, cuts);
    }
  }

  /** A pattern ends in END, and nowhere else. */
  predicate WellFormed(p: seq<Elem>) {
    && |p| > 0 && p[|p| - 1] == End && (forall k :: 0 <= k < |p| - 1 ==> p[k] != End)
    && forall k :: 0 <= k < |p| ==> EvenSet(p[k])
  }

  predicate EvenSet(e: Elem) {
    match e
    case Set(chars) => |chars| % 2 == 0
    case NegSet(chars) => |chars| % 2 == 0
    case _ => true
  }

  // ----- the shortcuts -----

  lemma AtEnd(p: seq<Elem>, s: string, i: nat)
    requires WellFormed(p) && i <= |s|
    ensures Accepts(p, |p| - 1, s, i) <==> i == |s|
  {
    if i == |s| { assert Piece(p[|p| - 1], s, i, i) && Accepts(p, |p|, s, i); }
  }

  predicate EndsWith(s: string, text: string) {
    |s| >= |text| && s[|s| - |text|..] == text
  }

  /** A pattern that goes on with a last literal accepts exactly that text. */
  lemma LastLiteral(p: seq<Elem>, s: string, i: nat)
    requires WellFormed(p) && |p| >= 2 && p[|p| - 2].LiteralString? && i <= |s|
    ensures Accepts(p, |p| - 2, s, i) <==> s[i..] == p[|p| - 2].text
  {
    var text := p[|p| - 2].text;
    AtEnd(p, s, |s|);
    if s[i..] == text { assert s[i..|s|] == text && Piece(p[|p| - 2], s, i, |s|); }
    if Accepts(p, |p| - 2, s, i) {
      var j: nat :| i <= j <= |s| && Piece(p[|p| - 2], s, i, j) && Accepts(p, |p| - 1, s, j);
      AtEnd(p, s, j);
      assert s[i..j] == s[i..];
    }
  }

  /** "**" at the end takes whatever is left. */
  lemma TailAnything(p: seq<Elem>, s: string, i: nat)
    requires WellFormed(p) && |p| >= 2 && p[|p| - 2] == AnySeq && i <= |s|
    ensures Accepts(p, |p| - 2, s, i)
  {
    AtEnd(p, s, |s|);
    assert Piece(AnySeq, s, i, |s|);
  }

  lemma EndsFrom(s: string, i: nat, text: string)
    requires i <= |s|
    ensures EndsWith(s[i..], text) <==> EndsWith(s, text) && |text| <= |s| - i
  {
    if i + |text| <= |s| { assert s[i..][|s[i..]| - |text|..] == s[|s| - |text|..]; }
  }

  lemma EndIs(s: string, text: string)
    ensures EndsWith(s, text) <==> |s| >= |text| && s[|s| - |text|..] == text
  {
  }

  /** "**" and a literal at the end accept whatever ends in the literal. */
  lemma TailLiteral(p: seq<Elem>, s: string, i: nat)
    requires WellFormed(p) && |p| >= 3 && p[|p| - 3] == AnySeq && p[|p| - 2].LiteralString? && i <= |s|
    ensures Accepts(p, |p| - 3, s, i) <==> EndsWith(s[i..], p[|p| - 2].text)
  {
    hide WellFormed, EndsWith;
    var k, text := |p| - 3, p[|p| - 2].text;
    EndsFrom(s, i, text);
    EndIs(s, text);
    if EndsWith(s[i..], text) {
      var j := |s| - |text|;
      LastLiteral(p, s, j);
      assert Piece(p[k], s, i, j) && Accepts(p, k + 1, s, j);
    }
    if Accepts(p, k, s, i) {
      var j: nat :| i <= j <= |s| && Piece(p[k], s, i, j) && Accepts(p, k + 1, s, j);
      LastLiteral(p, s, j);
      assert |s[j..]| == |text| && j == |s| - |text|;
    }
  }

  /** Whatever is accepted ends in the pattern's last literal, so a line with another ending can be turned away. */
  lemma {:induction false} LastLiteralEndsLine(p: seq<Elem>, k: nat, s: string, i: nat)
    requires WellFormed(p) && k <= |p| - 2 && p[|p| - 2].LiteralString? && i <= |s|
    requires Accepts(p, k, s, i)
    ensures EndsWith(s, p[|p| - 2].text)
    decreases |p| - k
  {
    if k == |p| - 2 {
      LastLiteral(p, s, i);
    } else {
      var j: nat :| i <= j <= |s| && Piece(p[k], s, i, j) && Accepts(p, k + 1, s, j);
      LastLiteralEndsLine(p, k + 1, s, j);
    }
  }

  // ----- matching a part of the line -----

  /** The ends of a pattern for substring match. */
  function Open(p: seq<Elem>): seq<Elem> {
    if p == [] || p[|p| - 1] != AnySeq then p + [AnySeq] else p
  }

  function Loosened(p: seq<Elem>): seq<Elem> {
    var q := Open(p);
    if q[0] != AnySeq then [AnySeq] + q else q
  }

  /** With "**" at its end, a pattern accepts a line exactly if its elements can be placed before some end. */
  lemma {:induction false} OpenEnd(p: seq<Elem>, q: seq<Elem>, k: nat, s: string, i: nat)
    requires (p != [] && p[|p| - 1] == AnySeq && q == p + [End]) || q == p + [AnySeq, End]
    requires k <= |p| && i <= |s| && forall m :: 0 <= m < |p| ==> p[m] != End
    ensures Accepts(q, k, s, i) ==> Accepts(p, k, s, i)
    ensures q == p + [AnySeq, End] || k < |p| ==> (Accepts(p, k, s, i) ==> Accepts(q, k, s, i))
    decreases |p| - k
  {
    if q == p + [AnySeq, End] && k == |p| {
      AnyTail(q, s, i);
    } else if q == p + [End] && k == |p| - 1 {
      AnyTail(q, s, i);
      if Accepts(p, k, s, i) { }
    } else if k < |p| {
      assert q[k] == p[k];
      if Accepts(q, k, s, i) {
        var j: nat :| i <= j <= |s| && Piece(q[k], s, i, j) && Accepts(q, k + 1, s, j);
        OpenEnd(p, q, k + 1, s, j);
      }
      if Accepts(p, k, s, i) {
        var j: nat :| i <= j <= |s| && Piece(p[k], s, i, j) && Accepts(p, k + 1, s, j);
        OpenEnd(p, q, k + 1, s, j);
      }
    }
  }

  lemma AnyTail(q: seq<Elem>, s: string, i: nat)
    requires |q| >= 2 && q[|q| - 1] == End && q[|q| - 2] == AnySeq && i <= |s|
    ensures Accepts(q, |q| - 2, s, i)
  {
    assert Piece(End, s, |s|, |s|) && Accepts(q, |q|, s, |s|);
    assert Piece(AnySeq, s, i, |s|) && Accepts(q, |q| - 1, s, |s|);
  }

  ghost predicate Somewhere(p: seq<Elem>, s: string) {
    exists i: nat :: i <= |s| && Accepts(p, 0, s, i)
  }

  /** Substring match: the pattern accepts a line exactly if its elements can be placed somewhere in it. */
  lemma MatchesSomewhere(p: seq<Elem>, s: string)
    requires forall m :: 0 <= m < |p| ==> p[m] != End
    ensures Accepts(Loosened(p) + [End], 0, s, 0) <==> Somewhere(p, s)
  {
    hide Accepts;
    var q := Open(p);
    var r := q + [End];
    if p == [] || p[|p| - 1] != AnySeq { assert r == p + [AnySeq, End]; }
    OpenEndAll(p, r, s);
    if q[0] != AnySeq {
      assert Loosened(p) + [End] == [AnySeq] + r;
      LeadingAny([AnySeq] + r, r, s);
    } else {
      assert Loosened(p) + [End] == r;
      AnySuffix(r, s);
    }
  }

  lemma OpenEndAll(p: seq<Elem>, r: seq<Elem>, s: string)
    requires (p != [] && p[|p| - 1] == AnySeq && r == p + [End]) || r == p + [AnySeq, End]
    requires forall m :: 0 <= m < |p| ==> p[m] != End
    ensures Somewhere(r, s) <==> Somewhere(p, s)
  {
    hide Accepts;
    forall i: nat | i <= |s| ensures Accepts(r, 0, s, i) == Accepts(p, 0, s, i) { OpenEnd(p, r, 0, s, i); }
  }

  /** A prefix of the pattern does not matter to what its rest accepts. */
  lemma {:induction false} Shifted(q: seq<Elem>, r: seq<Elem>, k: nat, m: nat, s: string, i: nat)
    requires q == [AnySeq] + r && m == k + 1
    ensures Accepts(q, m, s, i) == Accepts(r, k, s, i)
    decreases |r| - k
  {
    if k < |r| {
      assert q[m] == r[k];
      var k', m' := k + 1, m + 1;
      forall j: nat ensures Accepts(q, m', s, j) == Accepts(r, k', s, j) { Shifted(q, r, k', m', s, j); }
    }
  }

  lemma LeadingAny(q: seq<Elem>, r: seq<Elem>, s: string)
    requires q == [AnySeq] + r
    ensures Accepts(q, 0, s, 0) <==> Somewhere(r, s)
  {
    if Accepts(q, 0, s, 0) {
      var j: nat :| j <= |s| && Piece(q[0], s, 0, j) && Accepts(q, 0 + 1, s, j);
      Shifted(q, r, 0, 1, s, j);
    }
    if i: nat :| i <= |s| && Accepts(r, 0, s, i) {
      Shifted(q, r, 0, 1, s, i);
      assert Piece(q[0], s, 0, i) && Accepts(q, 0 + 1, s, i);
    }
  }

  lemma AnySuffix(r: seq<Elem>, s: string)
    requires r != [] && r[0] == AnySeq
    ensures Accepts(r, 0, s, 0) <==> Somewhere(r, s)
  {
    if i: nat :| i <= |s| && Accepts(r, 0, s, i) {
      var j: nat :| i <= j <= |s| && Piece(r[0], s, i, j) && Accepts(r, 1, s, j);
      assert Piece(r[0], s, 0, j);
    }
  }

  // ----- numbers too large for a long -----

  function Saturated(n: nat): nat { if n > LONG_MAX then LONG_MAX else n }

  /** A closed range is honoured for every number exactly if its upper bound is below LONG_MAX. */
  lemma ClosedRangeExactly(from: nat, to: nat)
    ensures (forall n: nat :: InRange(Saturated(n), Saturated(from), Saturated(to)) <==> from <= n <= to) <==>
            to < LONG_MAX
  {
    if to >= LONG_MAX {
      var n: nat := if from <= to then to + 1 else LONG_MAX;
      assert InRange(Saturated(n), Saturated(from), Saturated(to)) && !(from <= n <= to);
    }
  }

  /** A range without upper bound is honoured for every number exactly if its lower bound fits a long. */
  lemma OpenRangeExactly(from: nat)
    ensures (forall n: nat :: InRange(Saturated(n), Saturated(from), -1) <==> from <= n) <==> from <= LONG_MAX
  {
    if from > LONG_MAX {
      var n: nat := LONG_MAX;
      assert InRange(Saturated(n), Saturated(from), -1) && n < from;
    }
  }
}
