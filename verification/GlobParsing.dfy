/** How pattern text becomes elements (PatternMatcher.cc, setPattern and the parse helpers). */
module GlobParsing {
  import opened Options
  import opened GlobPatterns

  /**
   * The elements; or the error thrown for a set without end; or an escape at the very end, which reads past the text.
   */
  datatype Outcome<T> = Ok(value: T) | UnmatchedBrace | PastEnd

  /** The character at i of a C string, whose end reads as NUL. */
  function At(s: string, i: nat): char { if i < |s| then s[i] else '\0' }

  /** "[n..m]" or "{n..m}" at i: the two bounds, -1 where missing, and the place of the closing character. */
  function NumRangeAt(s: string, i: nat, closing: char): (r: Option<(int, int, nat)>)
    requires i < |s| && closing != '\0'
    ensures r.Some? ==> i < r.value.2 < |s| && s[r.value.2] == closing
  {
    var a := DigitsEnd(s, i + 1);
    if At(s, a) != '.' || At(s, a + 1) != '.' then None
    else
      var b := DigitsEnd(s, a + 2);
      if At(s, b) != closing then None
      else Some((Bound(s, i + 1, a), Bound(s, a + 2, b), b))
  }

  function Bound(s: string, from: nat, to: nat): int
    requires from <= |s|
  {
    if from < to then Atol(s, from) else -1
  }

  /** What has been read, before what is still to be read. */
  function Prepend(read: string, rest: Option<(string, nat)>): Option<(string, nat)> {
    if rest.None? then None else Some((read + rest.value.0, rest.value.1))
  }

  lemma PrependTwice(a: string, b: string, rest: Option<(string, nat)>)
    ensures Prepend(a, Prepend(b, rest)) == Prepend(a + b, rest) && Prepend("", rest) == rest
  {
    if rest.Some? {
      assert a + (b + rest.value.0) == a + b + rest.value.0;
      assert "" + rest.value.0 == rest.value.0;
    }
  }

  /** The characters that end a literal. */
  predicate Wild(c: char) { c == '?' || c == '{' || c == '*' }

  /** A literal from i on: its text, and where it ends. A backslash at the very end reads past the text. */
  function LiteralAt(s: string, i: nat): (r: Option<(string, nat)>)
    requires i <= |s|
    ensures r.Some? ==> i <= r.value.1 <= |s|
    decreases |s| - i
  {
    if i == |s| || Wild(s[i]) then Some(("", i))
    else
      var j := if s[i] == '\\' then i + 1 else i;
      if j == |s| then None
      else if s[j] == '[' && NumRangeAt(s, j, ']').Some? then Some((s[j..j + 1], j))
      else Prepend(s[j..j + 1], LiteralAt(s, j + 1))
  }

  /** The ranges of a set from i on, as pairs, up to the closing brace; none if there is no such brace. */
  function RangesAt(s: string, i: nat, begin: nat): (r: Option<(string, nat)>)
    requires i <= |s|
    ensures r.Some? ==> i < r.value.1 <= |s| && |r.value.0| % 2 == 0
    decreases |s| - i
  {
    if i == |s| then None
    else if s[i] == '}' && i != begin then Some(("", i + 1))
    else
      var far := i + 2 < |s| && s[i + 1] == '-' && s[i + 2] != '}';
      Prepend([s[i], if far then s[i + 2] else s[i]], RangesAt(s, if far then i + 3 else i + 1, begin))
  }

  function SetAt(s: string, i: nat): (r: Outcome<(Elem, nat)>)
    requires i < |s|
    ensures r.Ok? ==> i < r.value.1 <= |s| && EvenSet(r.value.0) && r.value.0 != End
  {
    var negated := i + 1 < |s| && s[i + 1] == '^';
    var begin := if negated then i + 2 else i + 1;
    match RangesAt(s, begin, begin)
    case None => UnmatchedBrace
    case Some(ranges) => Ok((if negated then NegSet(ranges.0) else Set(ranges.0), ranges.1))
  }

  function AfterLiteral(p: seq<Elem>): bool { p != [] && p[|p| - 1].LiteralString? }

  /** The next element of the pattern, with what precedes it. */
  function ElemAt(s: string, i: nat, dotted: bool, before: seq<Elem>): (r: Outcome<(Elem, nat)>)
    requires i < |s|
    ensures r.Ok? ==> i <= r.value.1 <= |s| && EvenSet(r.value.0) && r.value.0 != End
    ensures r.Ok? && r.value.1 == i ==> r.value.0.LiteralString? && !AfterLiteral(before) && s[i] == '['
  {
    if s[i] == '?' then Ok((if dotted then CommonChar else AnyChar, i + 1))
    else if s[i] == '[' && AfterLiteral(before) && NumRangeAt(s, i, ']').Some? then
      var r := NumRangeAt(s, i, ']').value;
      Ok((NumRange(r.0, r.1), r.2))
    else if s[i] == '{' && NumRangeAt(s, i, '}').Some? then
      var r := NumRangeAt(s, i, '}').value;
      Ok((NumRange(r.0, r.1), r.2 + 1))
    else if s[i] == '{' then SetAt(s, i)
    else if s[i] == '*' && i + 1 < |s| && s[i + 1] == '*' then Ok((AnySeq, i + 2))
    else if s[i] == '*' then Ok((if dotted then CommonSeq else AnySeq, i + 1))
    else
      match LiteralAt(s, i)
      case None => PastEnd
      case Some(l) => Ok((LiteralString(l.0), l.1))
  }

  /** All elements of the pattern text. */
  function Tokens(s: string, i: nat, dotted: bool, before: seq<Elem>): (r: Outcome<seq<Elem>>)
    requires i <= |s|
    decreases |s| - i, !AfterLiteral(before)
  {
    if i == |s| then Ok(before)
    else
      match ElemAt(s, i, dotted, before)
      case UnmatchedBrace => UnmatchedBrace
      case PastEnd => PastEnd
      case Ok(e) => Tokens(s, e.1, dotted, before + [e.0])
  }

  // ----- what the parser promises -----

  predicate Parsed(p: seq<Elem>) { forall k :: 0 <= k < |p| ==> p[k] != End && EvenSet(p[k]) }

  lemma {:induction false} TokensParsed(s: string, i: nat, dotted: bool, before: seq<Elem>)
    requires i <= |s| && Parsed(before)
    ensures Tokens(s, i, dotted, before).Ok? ==> Parsed(Tokens(s, i, dotted, before).value)
    decreases |s| - i, !AfterLiteral(before)
  {
    if i < |s| && ElemAt(s, i, dotted, before).Ok? {
      var e := ElemAt(s, i, dotted, before).value;
      TokensParsed(s, e.1, dotted, before + [e.0]);
    }
  }

  /** What containsWildcards looks for. */
  predicate ContainsWildcards(s: string) {
    '?' in s || '*' in s || '\\' in s || '{' in s || exists i :: 0 <= i < |s| - 1 && s[i] == '.' && s[i + 1] == '.'
  }

  lemma {:induction false} PlainLiteral(s: string, i: nat)
    requires i <= |s| && !ContainsWildcards(s)
    ensures LiteralAt(s, i) == Some((s[i..], |s|))
    decreases |s| - i
  {
    if i < |s| {
      PlainLiteral(s, i + 1);
      NoRange(s, i);
      assert s[i] in s;
      assert !Wild(s[i]) && s[i] != '\\';
      assert s[i..i + 1] + s[i + 1..] == s[i..];
    } else {
      assert s[i..] == "";
    }
  }

  lemma NoRange(s: string, i: nat)
    requires i < |s| && !ContainsWildcards(s)
    ensures NumRangeAt(s, i, ']').None?
  {
    var a := DigitsEnd(s, i + 1);
    if a + 1 < |s| { assert !(s[a] == '.' && s[a + 1] == '.'); }
  }

  /** A text without wildcards is one literal, and it matches nothing but itself: comparing strings would do. */
  lemma ComparingSuffices(s: string, dotted: bool, line: string)
    requires !ContainsWildcards(s)
    ensures Tokens(s, 0, dotted, []) == Ok(if s == "" then [] else [LiteralString(s)])
    ensures Accepts(Tokens(s, 0, dotted, []).value + [End], 0, line, 0) <==> line == s
  {
    PlainLiteral(s, 0);
    if s != "" {
      assert s[0] in s && s[0..] == s;
      assert Tokens(s, |s|, dotted, [LiteralString(s)]) == Ok([LiteralString(s)]);
      assert [] + [LiteralString(s)] == [LiteralString(s)];
    }
    OneLiteral(s, line);
  }

  lemma OneLiteral(s: string, line: string)
    ensures Accepts((if s == "" then [] else [LiteralString(s)]) + [End], 0, line, 0) <==> line == s
  {
    var p := if s == "" then [] else [LiteralString(s)];
    if s == "" { AtEnd(p + [End], line, 0); } else { LastLiteral(p + [End], line, 0); assert line[0..] == line; }
  }

  /** The text with a backslash before every character. */
  function Quoted(t: string): string {
    if t == "" then "" else ['\\', t[0]] + Quoted(t[1..])
  }

  lemma {:induction false} QuotedAt(t: string, k: nat)
    requires k <= |t|
    ensures |Quoted(t)| == 2 * |t| && Quoted(t)[2 * k..] == Quoted(t[k..])
  {
    if k == 0 {
      QuotedLength(t);
      assert Quoted(t)[0..] == Quoted(t) && t[0..] == t;
    } else {
      QuotedLength(t);
      QuotedAt(t[1..], k - 1);
      assert t[1..][k - 1..] == t[k..];
      assert Quoted(t)[2 * k..] == Quoted(t[1..])[2 * (k - 1)..];
    }
  }

  lemma {:induction false} QuotedLength(t: string)
    ensures |Quoted(t)| == 2 * |t|
  {
    if t != "" { QuotedLength(t[1..]); }
  }

  lemma {:induction false} QuotedLiteral(t: string, k: nat)
    requires k <= |t|
    ensures |Quoted(t)| == 2 * |t| && LiteralAt(Quoted(t), 2 * k) == Some((t[k..], |Quoted(t)|))
    decreases |t| - k
  {
    hide Quoted, NumRangeAt;
    var s := Quoted(t);
    QuotedPlace(t, k);
    if k == |t| {
      assert t[k..] == "";
    } else {
      QuotedLiteral(t, k + 1);
      QuotedPlace(t, k + 1);
      NoQuotedRange(s, 2 * k + 1);
      assert s[2 * k + 1..2 * k + 2] == [t[k]] && t[k..] == [t[k]] + t[k + 1..];
      assert LiteralAt(s, 2 * k) == Prepend([t[k]], LiteralAt(s, 2 * (k + 1)));
    }
  }

  lemma QuotedPlace(t: string, k: nat)
    requires k <= |t|
    ensures |Quoted(t)| == 2 * |t|
    ensures k < |t| ==> Quoted(t)[2 * k] == '\\' && Quoted(t)[2 * k + 1] == t[k]
  {
    QuotedAt(t, k);
    if k < |t| {
      assert Quoted(t)[2 * k..] == ['\\', t[k]] + Quoted(t[k + 1..]) by { assert t[k..][1..] == t[k + 1..]; }
      assert Quoted(t)[2 * k] == Quoted(t)[2 * k..][0] && Quoted(t)[2 * k + 1] == Quoted(t)[2 * k..][1];
    }
  }

  lemma NoQuotedRange(s: string, j: nat)
    requires j < |s| && (j + 1 == |s| || s[j + 1] == '\\')
    ensures NumRangeAt(s, j, ']').None?
  {
  }

  /** Backslashes take away every special meaning: a quoted text matches nothing but the text. */
  lemma QuotingWorks(t: string, dotted: bool, line: string)
    ensures Tokens(Quoted(t), 0, dotted, []) == Ok(if t == "" then [] else [LiteralString(t)])
    ensures Accepts(Tokens(Quoted(t), 0, dotted, []).value + [End], 0, line, 0) <==> line == t
  {
    QuotedLiteral(t, 0);
    if t != "" {
      var s := Quoted(t);
      assert t[0..] == t && s[0] == '\\';
      assert Tokens(s, |s|, dotted, [LiteralString(t)]) == Ok([LiteralString(t)]);
      assert [] + [LiteralString(t)] == [LiteralString(t)];
    }
    OneLiteral(t, line);
  }

  // ----- a backslash at the very end -----

  /** Whether the text ends in an odd number of backslashes. */
  predicate OddTail(x: string) {
    x != "" && x[|x| - 1] == '\\' && !OddTail(x[..|x| - 1])
  }

  /** What stands before a place does not matter if the backslashes at the end cannot reach back over it. */
  lemma {:induction false} TailSkips(x: string, k: nat)
    requires k <= |x|
    requires k == 0 || x[k - 1] != '\\' || exists i :: k <= i < |x| && x[i] != '\\'
    ensures OddTail(x) == OddTail(x[k..])
    decreases |x|
  {
    if k == 0 {
      assert x[0..] == x;
    } else if k < |x| && x[|x| - 1] == '\\' {
      var y := x[..|x| - 1];
      TailSkips(y, k);
      assert x[k..][..|x[k..]| - 1] == y[k..];
    }
  }

  lemma {:induction false} TailSkipsPair(x: string)
    requires |x| >= 2 && x[0] == x[1] == '\\'
    ensures OddTail(x) == OddTail(x[2..])
    decreases |x|
  {
    if |x| == 2 {
      assert x[..1][..0] == "" && !OddTail("") && OddTail(x[..1]);
    } else if x[|x| - 1] == '\\' {
      var y := x[..|x| - 1];
      TailSkipsPair(y);
      assert x[2..][..|x[2..]| - 1] == y[2..];
    }
  }

  lemma TailFrom(s: string, i: nat, j: nat)
    requires i <= j <= |s|
    requires i == j || s[j - 1] != '\\' || (j < |s| && s[j] != '\\')
    ensures OddTail(s[i..]) == OddTail(s[j..])
  {
    assert s[i..][j - i..] == s[j..];
    if i < j { assert s[i..][j - i - 1] == s[j - 1]; }
    if j < |s| { assert s[i..][j - i] == s[j]; }
    TailSkips(s[i..], j - i);
  }

  /** A literal reads past the text exactly if its escapes leave a last backslash unpaired. */
  lemma {:induction false} LiteralTail(s: string, i: nat)
    requires i <= |s|
    ensures match LiteralAt(s, i)
            case None => OddTail(s[i..])
            case Some(l) => OddTail(s[i..]) == OddTail(s[l.1..])
    decreases |s| - i
  {
    if i < |s| && !Wild(s[i]) {
      var j := if s[i] == '\\' then i + 1 else i;
      if j == |s| {
        assert s[i..] == "\\" && s[i..][..0] == "" && !OddTail("");
      } else if s[j] == '[' && NumRangeAt(s, j, ']').Some? {
        TailFrom(s, i, j);
      } else {
        LiteralTail(s, j + 1);
        if s[j] == '\\' {
          TailSkipsPair(s[i..]);
          assert s[i..][2..] == s[j + 1..];
        } else {
          TailFrom(s, i, j + 1);
        }
      }
    }
  }

  lemma {:induction false} RangesClose(s: string, i: nat, begin: nat)
    requires i <= |s|
    ensures RangesAt(s, i, begin).Some? ==> s[RangesAt(s, i, begin).value.1 - 1] == '}'
    decreases |s| - i
  {
    if i < |s| && !(s[i] == '}' && i != begin) {
      var far := i + 2 < |s| && s[i + 1] == '-' && s[i + 2] != '}';
      RangesClose(s, if far then i + 3 else i + 1, begin);
    }
  }

  lemma ElemTail(s: string, i: nat, dotted: bool, before: seq<Elem>)
    requires i < |s|
    ensures match ElemAt(s, i, dotted, before)
            case PastEnd => OddTail(s[i..])
            case Ok(e) => OddTail(s[i..]) == OddTail(s[e.1..])
            case UnmatchedBrace => true
  {
    hide NumRangeAt, LiteralAt, RangesAt, OddTail;
    LiteralTail(s, i);
    if s[i] == '{' && NumRangeAt(s, i, '}').None? {
      var begin := if i + 1 < |s| && s[i + 1] == '^' then i + 2 else i + 1;
      RangesClose(s, begin, begin);
    }
    if ElemAt(s, i, dotted, before).Ok? {
      var e := ElemAt(s, i, dotted, before).value;
      if !e.0.LiteralString? { TailFrom(s, i, e.1); }
    }
  }

  lemma {:induction false} TokensTail(s: string, i: nat, dotted: bool, before: seq<Elem>)
    requires i <= |s|
    ensures match Tokens(s, i, dotted, before)
            case PastEnd => OddTail(s[i..])
            case Ok(_) => !OddTail(s[i..])
            case UnmatchedBrace => true
    decreases |s| - i, !AfterLiteral(before)
  {
    if i < |s| {
      ElemTail(s, i, dotted, before);
      if ElemAt(s, i, dotted, before).Ok? {
        var e := ElemAt(s, i, dotted, before).value;
        TokensTail(s, e.1, dotted, before + [e.0]);
      }
    }
  }

  // ----- a set left open -----

  /** The first closing brace from k on, or the end of the text. */
  function FirstBrace(s: string, k: nat): (b: nat)
    ensures b <= |s| && (k <= |s| ==> k <= b)
    decreases |s| - k
  {
    if k >= |s| then |s| else if s[k] == '}' then k else FirstBrace(s, k + 1)
  }

  /** A scan for a brace that opens a set and is never closed; escaped braces and numeric ranges open none. */
  predicate LeftOpen(s: string, i: nat)
    decreases |s| - i
  {
    if i >= |s| then false
    else if s[i] == '\\' then LeftOpen(s, i + 2)
    else if s[i] != '{' then LeftOpen(s, i + 1)
    else if NumRangeAt(s, i, '}').Some? then LeftOpen(s, NumRangeAt(s, i, '}').value.2 + 1)
    else
      var b := FirstBrace(s, if i + 1 < |s| && s[i + 1] == '^' then i + 3 else i + 2);
      b == |s| || LeftOpen(s, b + 1)
  }

  lemma BraceSkips(s: string, i: nat, begin: nat)
    requires i < |s| && !(s[i] == '}' && i != begin)
    ensures var far := i + 2 < |s| && s[i + 1] == '-' && s[i + 2] != '}';
            FirstBrace(s, if i == begin then i + 1 else i) == FirstBrace(s, if far then i + 3 else i + 1)
  {
    if i + 2 < |s| && s[i + 1] == '-' && s[i + 2] != '}' {
      assert FirstBrace(s, i + 1) == FirstBrace(s, i + 2) == FirstBrace(s, i + 3);
    }
  }

  /** The ranges of a set end at the first brace that is not its first character. */
  lemma {:induction false} RangesEnd(s: string, i: nat, begin: nat)
    requires begin <= i <= |s|
    ensures var b := FirstBrace(s, if i == begin then i + 1 else i);
            match RangesAt(s, i, begin)
            case None => b == |s|
            case Some(r) => r.1 == b + 1
    decreases |s| - i
  {
    if i < |s| && !(s[i] == '}' && i != begin) {
      hide FirstBrace;
      var far := i + 2 < |s| && s[i + 1] == '-' && s[i + 2] != '}';
      BraceSkips(s, i, begin);
      RangesEnd(s, if far then i + 3 else i + 1, begin);
    }
  }

  lemma {:induction false} OpenSkips(s: string, i: nat, j: nat)
    requires i <= j <= |s| && forall k :: i <= k < j ==> s[k] != '{' && s[k] != '\\'
    ensures LeftOpen(s, i) == LeftOpen(s, j)
    decreases j - i
  {
    if i < j { OpenSkips(s, i + 1, j); }
  }

  lemma {:induction false} OnlyDigits(s: string, i: nat)
    requires i <= |s|
    ensures forall k :: i <= k < DigitsEnd(s, i) ==> IsDigit(s[k])
    decreases |s| - i
  {
    hide AllDigits;
    if i < |s| && IsDigit(s[i]) { OnlyDigits(s, i + 1); }
  }

  /** A numeric range in brackets holds no brace and no backslash. */
  lemma RangeSkipped(s: string, i: nat)
    requires i < |s| && s[i] == '[' && NumRangeAt(s, i, ']').Some?
    ensures LeftOpen(s, i) == LeftOpen(s, NumRangeAt(s, i, ']').value.2)
  {
    hide DigitsEnd, AllDigits, LeftOpen;
    var a, j := DigitsEnd(s, i + 1), NumRangeAt(s, i, ']').value.2;
    OnlyDigits(s, i + 1);
    OnlyDigits(s, a + 2);
    forall k | i <= k < j ensures s[k] != '{' && s[k] != '\\' {
      if i < k < a { assert IsDigit(s[k]); }
      if a + 2 <= k { assert IsDigit(s[k]); }
    }
    OpenSkips(s, i, j);
  }

  lemma {:induction false} LiteralOpen(s: string, i: nat)
    requires i <= |s|
    ensures match LiteralAt(s, i)
            case None => !LeftOpen(s, i)
            case Some(l) => LeftOpen(s, i) == LeftOpen(s, l.1)
    decreases |s| - i
  {
    hide NumRangeAt, FirstBrace;
    if i < |s| && !Wild(s[i]) {
      var j := if s[i] == '\\' then i + 1 else i;
      if j < |s| { LiteralOpen(s, j + 1); }
    }
  }

  lemma ElemOpen(s: string, i: nat, dotted: bool, before: seq<Elem>)
    requires i < |s|
    ensures match ElemAt(s, i, dotted, before)
            case PastEnd => !LeftOpen(s, i)
            case UnmatchedBrace => LeftOpen(s, i)
            case Ok(e) => LeftOpen(s, i) == LeftOpen(s, e.1)
  {
    hide NumRangeAt, LiteralAt, RangesAt, FirstBrace;
    LiteralOpen(s, i);
    if s[i] == '[' && NumRangeAt(s, i, ']').Some? { RangeSkipped(s, i); }
    if s[i] == '{' && NumRangeAt(s, i, '}').None? {
      var begin := if i + 1 < |s| && s[i + 1] == '^' then i + 2 else i + 1;
      RangesEnd(s, begin, begin);
    }
    if s[i] == '*' && i + 1 < |s| && s[i + 1] == '*' { assert LeftOpen(s, i + 1) == LeftOpen(s, i + 2); }
  }

  /** The error of a missing brace is thrown exactly if the scan finds one. */
  lemma {:induction false} OpenExactly(s: string, i: nat, dotted: bool, before: seq<Elem>)
    requires i <= |s|
    ensures Tokens(s, i, dotted, before).UnmatchedBrace? <==> LeftOpen(s, i)
    decreases |s| - i, !AfterLiteral(before)
  {
    if i < |s| {
      hide LeftOpen, ElemAt;
      ElemOpen(s, i, dotted, before);
      if ElemAt(s, i, dotted, before).Ok? {
        var e := ElemAt(s, i, dotted, before).value;
        ElemProgress(s, i, dotted, before);
        OpenExactly(s, e.1, dotted, before + [e.0]);
      }
    }
  }

  lemma ElemProgress(s: string, i: nat, dotted: bool, before: seq<Elem>)
    requires i < |s| && ElemAt(s, i, dotted, before).Ok?
    ensures var e := ElemAt(s, i, dotted, before).value;
            i <= e.1 <= |s| && (e.1 == i ==> e.0.LiteralString? && !AfterLiteral(before))
  {
  }

  /**
   * A pattern reads past its end if and only if it ends in an odd number of backslashes, the last of which escapes
   * nothing, and leaves no set open before; with an even number, or none, it never does.
   */
  lemma PastEndExactly(s: string, dotted: bool)
    ensures Tokens(s, 0, dotted, []).PastEnd? <==> OddTail(s) && !LeftOpen(s, 0)
    ensures Tokens(s, 0, dotted, []).UnmatchedBrace? <==> LeftOpen(s, 0)
    ensures '{' !in s ==> !LeftOpen(s, 0)
    ensures s == "" || s[|s| - 1] != '\\' ==> !Tokens(s, 0, dotted, []).PastEnd?
  {
    assert s[0..] == s;
    TokensTail(s, 0, dotted, []);
    OpenExactly(s, 0, dotted, []);
    if '{' !in s { NoBrace(s, 0); }
  }

  lemma {:induction false} NoBrace(s: string, i: nat)
    requires '{' !in s
    ensures !LeftOpen(s, i)
    decreases |s| - i
  {
    if i < |s| { NoBrace(s, if s[i] == '\\' then i + 2 else i + 1); }
  }

  // ----- numeric ranges as they are written -----

  function DigitOf(d: nat): char
    requires d < 10
  {
    ('0' as int + d) as char
  }

  function Decimal(n: nat): (s: string)
    ensures s != ""
  {
    if n < 10 then [DigitOf(n)] else Decimal(n / 10) + [DigitOf(n % 10)]
  }

  lemma {:induction false} DecimalNumber(n: nat)
    ensures AllDigits(Decimal(n)) && Number(Decimal(n)) == n
  {
    var s := Decimal(n);
    if n < 10 {
      assert s[..0] == "";
    } else {
      DecimalNumber(n / 10);
      assert s[..|s| - 1] == Decimal(n / 10);
    }
  }

  /** A bound as written, or left out. */
  function Written(bound: Option<nat>): string { if bound.None? then "" else Decimal(bound.value) }

  function Stored(bound: Option<nat>): int { if bound.None? then -1 else Saturated(bound.value) }

  function RangeText(lo: Option<nat>, up: Option<nat>): string { "{" + Written(lo) + ".." + Written(up) + "}" }

  /** Digits up to something else end there. */
  lemma {:induction false} DigitsRun(s: string, i: nat, j: nat)
    requires i <= j <= |s| && AllDigits(s[i..j]) && (j < |s| ==> !IsDigit(s[j]))
    ensures DigitsEnd(s, i) == j
    decreases j - i
  {
    if i < j {
      assert s[i] == s[i..j][0] && s[i + 1..j] == s[i..j][1..];
      DigitsRun(s, i + 1, j);
    }
  }

  lemma BoundRead(s: string, i: nat, j: nat, bound: Option<nat>)
    requires i <= j <= |s| && s[i..j] == Written(bound) && (j < |s| ==> !IsDigit(s[j]))
    ensures DigitsEnd(s, i) == j && Bound(s, i, j) == Stored(bound)
  {
    if bound.Some? { DecimalNumber(bound.value); }
    DigitsRun(s, i, j);
  }

  /** A range as written is one element with the bounds, those beyond LONG_MAX as LONG_MAX. */
  lemma RangeParsed(lo: Option<nat>, up: Option<nat>, dotted: bool)
    ensures Tokens(RangeText(lo, up), 0, dotted, []) == Ok([NumRange(Stored(lo), Stored(up))])
  {
    hide DigitsEnd, Bound, Written, Stored;
    var s := RangeText(lo, up);
    var a := 1 + |Written(lo)|;
    var b := a + 2 + |Written(up)|;
    assert s[1..a] == Written(lo) && s[a] == '.' && s[a + 1] == '.';
    assert s[a + 2..b] == Written(up) && s[b] == '}' && b + 1 == |s| && s[0] == '{';
    BoundRead(s, 1, a, lo);
    BoundRead(s, a + 2, b, up);
    assert NumRangeAt(s, 0, '}') == Some((Stored(lo), Stored(up), b));
    var e := NumRange(Stored(lo), Stored(up));
    var end: nat := |s|;
    assert ElemAt(s, 0, dotted, []) == Ok((e, end));
    assert [] + [e] == [e] && Tokens(s, |s|, dotted, [e]) == Ok([e]);
  }

  /** Whether the number is in the range as meant. */
  predicate Meant(n: nat, lo: Option<nat>, up: Option<nat>) {
    (lo.Some? ==> lo.value <= n) && (up.Some? ==> n <= up.value)
  }

  /** A line of digits is accepted if its number, saturated, lies between the bounds. */
  lemma RangeAccepts(lo: Option<nat>, up: Option<nat>, line: string)
    requires AllDigits(line) && line != ""
    ensures Accepts([NumRange(Stored(lo), Stored(up)), End], 0, line, 0)
      <==> InRange(Saturated(Number(line)), Stored(lo), Stored(up))
  {
    var p := [NumRange(Stored(lo), Stored(up)), End];
    assert line[0..|line|] == line;
    DigitsRun(line, 0, |line|);
    AtEnd(p, line, |line|);
    if Accepts(p, 0, line, 0) {
      var j: nat :| 0 <= j <= |line| && Piece(p[0], line, 0, j) && Accepts(p, 1, line, j);
    }
    if InRange(Atol(line, 0), Stored(lo), Stored(up)) { assert Piece(p[0], line, 0, |line|); }
  }

  /** Whether the range accepts exactly the numbers it means. */
  ghost predicate Honoured(lo: Option<nat>, up: Option<nat>) {
    forall line :: AllDigits(line) && line != "" ==>
      (Accepts([NumRange(Stored(lo), Stored(up)), End], 0, line, 0) <==> Meant(Number(line), lo, up))
  }

  /**
   * That is so if and only if its upper bound is below LONG_MAX or, when it has none,
   * its lower bound is at most LONG_MAX; a range without bounds accepts every number.
   */
  lemma RangeExactly(lo: Option<nat>, up: Option<nat>)
    ensures Honoured(lo, up) <==> if up.Some? then up.value < LONG_MAX else lo.Some? ==> lo.value <= LONG_MAX
  {
    hide Accepts, Number;
    if if up.Some? then up.value < LONG_MAX else lo.Some? ==> lo.value <= LONG_MAX {
      forall line | AllDigits(line) && line != ""
        ensures Accepts([NumRange(Stored(lo), Stored(up)), End], 0, line, 0) <==> Meant(Number(line), lo, up)
      {
        RangeAccepts(lo, up, line);
      }
    } else {
      var n := if up.Some? && Meant(up.value + 1, lo, None) then up.value + 1 else LONG_MAX;
      var line := Decimal(n);
      DecimalNumber(n);
      RangeAccepts(lo, up, line);
      assert !Meant(n, lo, up);
    }
  }
}
