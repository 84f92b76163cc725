/** The matcher of PatternMatcher.cc, case-sensitive or not. */
module PatternMatchers {
  import opened Options
  import opened GlobPatterns
  import opened GlobParsing
  import opened GlobFolding

  class PatternMatcher {
    var pattern: seq<Elem>
    var iscasesensitive: bool

    constructor ()
      ensures pattern == [] && !iscasesensitive
    {
      pattern, iscasesensitive := [], false;
    }

    // ----- parsing -----

    /** Moves on over digits. */
    method SkipDigits(s: string, i: nat) returns (j: nat)
      requires i <= |s|
      ensures j == DigitsEnd(s, i)
    {
      j := i;
      while j < |s| && IsDigit(s[j])
        invariant i <= j <= |s| && DigitsEnd(s, j) == DigitsEnd(s, i)
      {
        j := j + 1;
      }
    }

    method ParseNumRange(s: string, i: nat, closing: char) returns (r: Option<(int, int, nat)>)
      requires i < |s| && closing != '\0'
      ensures r == NumRangeAt(s, i, closing)
    {
      var lo: int, up: int := -1, -1;
      var a := i + 1;
      if IsDigit(At(s, a)) {
        lo := Atol(s, a);
        a := SkipDigits(s, a);
      }
      if At(s, a) != '.' || At(s, a + 1) != '.' { return None; }
      var b := a + 2;
      if IsDigit(At(s, b)) {
        up := Atol(s, b);
        b := SkipDigits(s, b);
      }
      if At(s, b) != closing { return None; }
      return Some((lo, up, b));
    }

    method ParseLiteralString(s: string, i: nat) returns (r: Option<(string, nat)>)
      requires i <= |s|
      ensures r == LiteralAt(s, i)
    {
      hide NumRangeAt;
      var text, k := "", i;
      PrependTwice("", "", LiteralAt(s, i));
      while k < |s| && !Wild(s[k])
        invariant i <= k <= |s|
        invariant LiteralAt(s, i) == Prepend(text, LiteralAt(s, k))
      {
        ghost var whole, was := LiteralAt(s, k), text;
        if s[k] == '\\' { k := k + 1; }
        if k == |s| { return None; }
        text := text + s[k..k + 1];
        PrependTwice(was, s[k..k + 1], LiteralAt(s, k + 1));
        if s[k] == '[' {
          var range := ParseNumRange(s, k, ']');
          if range.Some? { return Some((text, k)); }
        }
        k := k + 1;
      }
      assert text + "" == text;
      return Some((text, k));
    }

    /** The set as it is stored: without case sensitivity both ends of each range are in upper case. */
    method ParseSet(s: string, i: nat) returns (r: Outcome<(Elem, nat)>)
      requires i < |s|
      ensures r == KeptOutcome(SetAt(s, i), iscasesensitive)
    {
      hide Fold;
      var k := i + 1;
      var negated := false;
      if k < |s| && s[k] == '^' {
        negated := true;
        k := k + 1;
      }
      var begin := k;
      var chars := "";
      ghost var plain := "";
      FoldEmpty(iscasesensitive);
      PrependTwice("", "", RangesAt(s, begin, begin));
      while k < |s| && (s[k] != '}' || k == begin)
        invariant begin <= k <= |s|
        invariant RangesAt(s, begin, begin) == Prepend(plain, RangesAt(s, k, begin))
        invariant chars == Fold(plain, iscasesensitive)
      {
        ghost var was := plain;
        var lo, up := s[k], s[k];
        if k + 2 < |s| && s[k + 1] == '-' && s[k + 2] != '}' {
          up := s[k + 2];
          k := k + 3;
        } else {
          k := k + 1;
        }
        plain := plain + [lo, up];
        FoldMore(was, lo, up, iscasesensitive);
        if !iscasesensitive { lo, up := Upper(lo), Upper(up); }
        chars := chars + [lo, up];
        PrependTwice(was, plain[|was|..], RangesAt(s, k, begin));
      }
      assert plain + "" == plain;
      if k == |s| { return UnmatchedBrace; }
      return Ok((if negated then NegSet(chars) else Set(chars), k + 1));
    }

    method ParseElem(s: string, i: nat, dotted: bool, before: seq<Elem>) returns (r: Outcome<(Elem, nat)>)
      requires i < |s|
      ensures r == KeptOutcome(ElemAt(s, i, dotted, before), iscasesensitive)
    {
      hide NumRangeAt, LiteralAt, RangesAt, SetAt;
      match s[i] {
        case '?' =>
          return Ok((if dotted then CommonChar else AnyChar, i + 1));
        case '[' =>
          if AfterLiteral(before) {
            var range := ParseNumRange(s, i, ']');
            if range.Some? { return Ok((NumRange(range.value.0, range.value.1), range.value.2)); }
          }
        case '{' =>
          var range := ParseNumRange(s, i, '}');
          if range.Some? { return Ok((NumRange(range.value.0, range.value.1), range.value.2 + 1)); }
          r := ParseSet(s, i);
          return;
        case '*' =>
          if At(s, i + 1) == '*' { return Ok((AnySeq, i + 2)); }
          return Ok((if dotted then CommonSeq else AnySeq, i + 1));
        case _ =>
      }
      var l := ParseLiteralString(s, i);
      return if l.Some? then Ok((LiteralString(l.value.0), l.value.1)) else PastEnd;
    }

    /** Reads a pattern; for substring match it is opened at both ends. */
    method SetPattern(patt: string, dotted: bool, fullstring: bool, casesensitive: bool) returns (r: Outcome<seq<Elem>>)
      modifies this
      ensures r == KeptTokens(Tokens(patt, 0, dotted, []), casesensitive) && iscasesensitive == casesensitive
      ensures if r.Ok?
              then WellFormed(pattern) && Stored()
                && pattern == (if fullstring then r.value else Loosened(r.value)) + [End]
              else Parsed(pattern)
    {
      hide ElemAt, Kept, Parsed, WellFormed;
      pattern, iscasesensitive := [], casesensitive;
      var i := 0;
      ghost var plain: seq<Elem> := [];
      NothingParsed();
      while i < |patt|
        invariant i <= |patt| && Parsed(plain) && pattern == KeptAll(plain, casesensitive)
        invariant iscasesensitive == casesensitive
        invariant Tokens(patt, i, dotted, plain) == Tokens(patt, 0, dotted, [])
        decreases |patt| - i, !AfterLiteral(plain)
      {
        var e := ParseElem(patt, i, dotted, pattern);
        ElemAtKept(patt, i, dotted, plain, casesensitive);
        KeptParsed(plain, casesensitive);
        if e.UnmatchedBrace? { return UnmatchedBrace; }
        if e.PastEnd? { return PastEnd; }
        ParsedMore(plain, patt, i, dotted);
        ghost var found := ElemAt(patt, i, dotted, plain).value.0;
        KeptMore(plain, found, casesensitive);
        plain := plain + [found];
        pattern := pattern + [e.value.0];
        i := e.value.1;
      }
      r := Ok(pattern);
      KeptParsed(plain, casesensitive);
      if !fullstring {
        if pattern == [] || pattern[|pattern| - 1] != AnySeq { pattern := pattern + [AnySeq]; }
        if pattern[0] != AnySeq { pattern := [AnySeq] + pattern; }
      }
      Finished(r.value, pattern);
      KeptLoosened(plain, casesensitive);
      KeptOnce(plain, casesensitive);
      KeptOnce(Loosened(plain), casesensitive);
      pattern := pattern + [End];
    }

    lemma NothingParsed()
      ensures Parsed([])
    {
    }

    lemma ParsedMore(p: seq<Elem>, s: string, i: nat, dotted: bool)
      requires i < |s| && Parsed(p) && ElemAt(s, i, dotted, p).Ok?
      ensures Parsed(p + [ElemAt(s, i, dotted, p).value.0])
    {
    }

    lemma Finished(p: seq<Elem>, q: seq<Elem>)
      requires Parsed(p) && (q == p || q == Loosened(p))
      ensures WellFormed(q + [End])
    {
    }

    // ----- matching -----

    method IsInSet(c: char, chars: string) returns (r: bool)
      requires |chars| % 2 == 0
      ensures r <==> InSet(if iscasesensitive then c else Upper(c), chars)
    {
      var d := if iscasesensitive then c else Upper(c);
      var j := 0;
      while j < |chars|
        invariant j <= |chars| && j % 2 == 0
        invariant forall k :: 0 <= k && 2 * k < j ==> !(chars[2 * k] <= d <= chars[2 * k + 1])
      {
        if d >= chars[j] && d <= chars[j + 1] {
          assert chars[2 * (j / 2)] <= d <= chars[2 * (j / 2) + 1];
          return true;
        }
        j := j + 2;
      }
      return false;
    }

    /** The element as it is compared, sets being stored folded. */
    ghost predicate Stored()
      reads this
    {
      KeptAll(pattern, iscasesensitive) == pattern
    }

    /** Whether one element other than a sequence accepts a piece at i, and where that piece ends. */
    method MatchOne(e: Elem, s: string, i: nat) returns (ok: bool, j: nat)
      requires i <= |s| && EvenSet(e) && !e.AnySeq? && !e.CommonSeq? && !e.End? && Kept(e, iscasesensitive) == e
      ensures ok ==> Piece(FoldElem(e, iscasesensitive), Fold(s, iscasesensitive), i, j)
      ensures ok ==> forall m :: Piece(FoldElem(e, iscasesensitive), Fold(s, iscasesensitive), i, m) ==> m == j
      ensures !ok ==> forall m :: !Piece(FoldElem(e, iscasesensitive), Fold(s, iscasesensitive), i, m)
    {
      ok, j := false, i;
      if i < |s| { FoldChar(s, iscasesensitive, i); }
      match e
      case LiteralString(text) =>
        j := i + |text|;
        if j <= |s| {
          FoldPart(s, iscasesensitive, i, j);
          ok := if iscasesensitive then s[i..j] == text else UpperAll(s[i..j]) == UpperAll(text);
        }
      case AnyChar =>
        ok, j := i < |s|, i + 1;
      case CommonChar =>
        ok, j := i < |s| && s[i] != '.', i + 1;
      case Set(chars) =>
        if i < |s| {
          ok := IsInSet(s[i], chars);
          j := i + 1;
        }
      case NegSet(chars) =>
        if i < |s| {
          var has := IsInSet(s[i], chars);
          ok, j := !has, i + 1;
        }
      case NumRange(from, to) =>
        FoldDigits(s, iscasesensitive, i);
        if i < |s| && IsDigit(s[i]) {
          var num := Atol(s, i);
          j := SkipDigits(s, i);
          ok := !((from >= 0 && num < from) || (to >= 0 && num > to));
        }
      case _ =>
    }

    /** Whether the rest of the line from i is accepted by the elements from k on. */
    method DoMatch(s: string, i: nat, k: nat) returns (r: bool)
      requires WellFormed(pattern) && Stored() && k < |pattern| && i <= |s|
      ensures r <==> Matching(pattern, iscasesensitive, k, s, i)
      decreases |pattern| - k
    {
      hide Piece, Matching, WellFormed, Stored;
      var j, m := i, k;
      while true
        invariant i <= j <= |s| && k <= m < |pattern|
        invariant Matching(pattern, iscasesensitive, k, s, i) == Matching(pattern, iscasesensitive, m, s, j)
        decreases |pattern| - m
      {
        var e := pattern[m];
        ElemIs(m);
        MatchingEnd(pattern, iscasesensitive, s, j);
        if e == End {
          return j == |s|;
        } else if e == AnySeq {
          if m == |pattern| - 2 { return true; }
          if m == |pattern| - 3 && pattern[m + 1].LiteralString? {
            TailShortcut(pattern, iscasesensitive, s, j);
            var text := pattern[m + 1].text;
            return |s| - j >= |text| && s[j..][|s| - j - |text|..] == text;
          }
          r := MatchAny(s, j, m);
          return;
        } else if e == CommonSeq {
          r := MatchCommon(s, j, m);
          return;
        }
        var ok, next := MatchSingle(s, j, m);
        if !ok { return false; }
        j, m := next, m + 1;
      }
    }

    /** One element other than a sequence: its only possible piece is passed, or there is none. */
    method MatchSingle(s: string, i: nat, k: nat) returns (ok: bool, j: nat)
      requires WellFormed(pattern) && Stored() && k < |pattern| && i <= |s|
      requires !pattern[k].AnySeq? && !pattern[k].CommonSeq? && !pattern[k].End?
      ensures ok ==> i <= j <= |s| && k + 1 < |pattern|
      ensures Matching(pattern, iscasesensitive, k, s, i) <==> ok && Matching(pattern, iscasesensitive, k + 1, s, j)
    {
      hide Piece, Matching, WellFormed, Stored;
      ElemIs(k);
      ok, j := MatchOne(pattern[k], s, i);
      if ok {
        PieceEnds(FoldAll(pattern, iscasesensitive)[k], Fold(s, iscasesensitive), i, j);
        MatchingOnly(pattern, iscasesensitive, k, s, i, j);
      } else {
        MatchingNowhere(pattern, iscasesensitive, k, s, i);
      }
    }

    lemma ElemIs(m: nat)
      requires WellFormed(pattern) && Stored() && m < |pattern|
      ensures EvenSet(pattern[m]) && Kept(pattern[m], iscasesensitive) == pattern[m]
      ensures pattern[m] == End <==> m == |pattern| - 1
      ensures FoldAll(pattern, iscasesensitive)[m] == FoldElem(pattern[m], iscasesensitive)
    {
      assert KeptAll(pattern, iscasesensitive)[m] == Kept(pattern[m], iscasesensitive);
    }

    /** "**": tries every place to go on from. */
    method MatchAny(s: string, i: nat, k: nat) returns (r: bool)
      requires WellFormed(pattern) && Stored() && k < |pattern| - 1 && i <= |s| && pattern[k] == AnySeq
      requires !Shortcut(pattern, k)
      ensures r <==> Matching(pattern, iscasesensitive, k, s, i)
      decreases |pattern| - k, 0
    {
      hide Matching, Stored, WellFormed;
      var j, next := i, k + 1;
      while true
        invariant i <= j <= |s|
        invariant forall m: nat :: i <= m < j ==> !Matching(pattern, iscasesensitive, next, s, m)
        decreases |s| - j
      {
        r := DoMatch(s, j, next);
        if r {
          MatchingOn(pattern, iscasesensitive, k, s, i, j);
          return;
        }
        if j == |s| {
          MatchingNowhere(pattern, iscasesensitive, k, s, i);
          return;
        }
        j := j + 1;
      }
    }

    /** "*" of a dotted path: tries every place up to the next dot. */
    method MatchCommon(s: string, i: nat, k: nat) returns (r: bool)
      requires WellFormed(pattern) && Stored() && k < |pattern| - 1 && i <= |s| && pattern[k] == CommonSeq
      ensures r <==> Matching(pattern, iscasesensitive, k, s, i)
      decreases |pattern| - k, 0
    {
      hide Matching, Stored, WellFormed;
      var j, next := i, k + 1;
      ghost var u := Fold(s, iscasesensitive);
      while true
        invariant i <= j <= |s| && '.' !in u[i..j]
        invariant forall m: nat :: i <= m < j ==> !Matching(pattern, iscasesensitive, next, s, m)
        decreases |s| - j
      {
        r := DoMatch(s, j, next);
        if r {
          MatchingOn(pattern, iscasesensitive, k, s, i, j);
          return;
        }
        if j < |s| { FoldChar(s, iscasesensitive, j); }
        if j == |s| || s[j] == '.' {
          forall m: nat | j < m <= |s| ensures !Piece(CommonSeq, u, i, m) { assert u[i..m][j - i] == u[j]; }
          MatchingNowhere(pattern, iscasesensitive, k, s, i);
          return;
        }
        assert u[i..j + 1] == u[i..j] + [u[j]];
        j := j + 1;
      }
    }

    lemma PieceEnds(e: Elem, s: string, i: nat, j: nat)
      requires Piece(e, s, i, j)
      ensures i <= j <= |s|
    {
    }

    /** Whether the pattern accepts the line; the quick look at its last two characters changes nothing. */
    method Matches(line: string) returns (r: bool)
      requires WellFormed(pattern) && Stored()
      ensures r <==> Matching(pattern, iscasesensitive, 0, line, 0)
    {
      hide Accepts;
      if |pattern| >= 2 && iscasesensitive {
        var e := pattern[|pattern| - 2];
        if e.LiteralString? {
          var pattlen, linelen := |e.text|, |line|;
          if pattlen >= 2 && linelen >= 2
            && (line[linelen - 1] != e.text[pattlen - 1] || line[linelen - 2] != e.text[pattlen - 2]) {
            ExactIsPlain(pattern, 0, line, 0);
            if Accepts(pattern, 0, line, 0) {
              LastLiteralEndsLine(pattern, 0, line, 0);
              LastTwo(line, e.text);
            }
            return false;
          }
        }
      }
      r := DoMatch(line, 0, 0);
    }

    lemma LastTwo(line: string, text: string)
      requires EndsWith(line, text) && |text| >= 2
      ensures line[|line| - 1] == text[|text| - 1] && line[|line| - 2] == text[|text| - 2]
    {
      var tail := line[|line| - |text|..];
      assert tail[|text| - 1] == line[|line| - 1] && tail[|text| - 2] == line[|line| - 2];
    }
  }
}
