/** The case-insensitive mode of PatternMatcher.cc: what it accepts, and when letters matter after all. */
module GlobFolding {
  import opened Options
  import opened GlobPatterns
  import opened GlobParsing

  predicate IsLetter(c: char) { 'a' <= c <= 'z' || 'A' <= c <= 'Z' }

  /** toupper, of characters of the C locale. */
  function Upper(c: char): char {
    if 'a' <= c <= 'z' then (c as int - 'a' as int + 'A' as int) as char else c
  }

  function UpperAll(s: string): (r: string)
    ensures |r| == |s| && forall i :: 0 <= i < |s| ==> r[i] == Upper(s[i])
  {
    seq(|s|, i requires 0 <= i < |s| => Upper(s[i]))
  }

  /** Texts as the matcher compares them. */
  function Fold(s: string, exact: bool): (r: string)
    ensures |r| == |s|
  {
    if exact then s else UpperAll(s)
  }

  function FoldElem(e: Elem, exact: bool): Elem {
    match e
    case LiteralString(text) => LiteralString(Fold(text, exact))
    case Set(chars) => Set(Fold(chars, exact))
    case NegSet(chars) => NegSet(Fold(chars, exact))
    case _ => e
  }

  function FoldAll(p: seq<Elem>, exact: bool): (r: seq<Elem>)
    ensures |r| == |p| && forall k :: 0 <= k < |p| ==> r[k] == FoldElem(p[k], exact)
  {
    seq(|p|, k requires 0 <= k < |p| => FoldElem(p[k], exact))
  }

  /** Sets are stored in upper case, literals as they are. */
  function Kept(e: Elem, exact: bool): Elem {
    if e.LiteralString? then e else FoldElem(e, exact)
  }

  function KeptAll(p: seq<Elem>, exact: bool): (r: seq<Elem>)
    ensures |r| == |p| && forall k :: 0 <= k < |p| ==> r[k] == Kept(p[k], exact)
  {
    seq(|p|, k requires 0 <= k < |p| => Kept(p[k], exact))
  }

  /** An element read, as it is stored. */
  function KeptOutcome(r: Outcome<(Elem, nat)>, exact: bool): Outcome<(Elem, nat)> {
    match r
    case Ok(e) => Ok((Kept(e.0, exact), e.1))
    case UnmatchedBrace => UnmatchedBrace
    case PastEnd => PastEnd
  }

  function KeptTokens(r: Outcome<seq<Elem>>, exact: bool): Outcome<seq<Elem>> {
    match r
    case Ok(p) => Ok(KeptAll(p, exact))
    case UnmatchedBrace => UnmatchedBrace
    case PastEnd => PastEnd
  }

  /** One more range of a set. */
  lemma FoldMore(s: string, a: char, b: char, exact: bool)
    ensures Fold(s + [a, b], exact) == Fold(s, exact) + if exact then [a, b] else [Upper(a), Upper(b)]
  {
    if !exact {
      var r, u := s + [a, b], UpperAll(s) + [Upper(a), Upper(b)];
      forall i | 0 <= i < |r| ensures UpperAll(r)[i] == u[i] { }
    }
  }

  lemma FoldEmpty(exact: bool)
    ensures Fold("", exact) == ""
  {
  }

  lemma KeptMore(p: seq<Elem>, e: Elem, exact: bool)
    ensures KeptAll(p + [e], exact) == KeptAll(p, exact) + [Kept(e, exact)]
  {
  }

  /** What is read next does not depend on how sets before it are stored. */
  lemma ElemAtKept(s: string, i: nat, dotted: bool, before: seq<Elem>, exact: bool)
    requires i < |s|
    ensures AfterLiteral(KeptAll(before, exact)) == AfterLiteral(before)
    ensures ElemAt(s, i, dotted, KeptAll(before, exact)) == ElemAt(s, i, dotted, before)
  {
  }

  /** A pattern from k on that ends in "**" and a literal: the shortcut compares the ending letter by letter. */
  predicate LastBehindAny(p: seq<Elem>, k: nat) {
    k + 3 <= |p| && p[|p| - 3] == AnySeq && p[|p| - 2].LiteralString?
  }

  /** What the matcher accepts: case is folded, but for a literal behind a last "**". */
  ghost predicate Matching(p: seq<Elem>, exact: bool, k: nat, s: string, i: nat) {
    && Accepts(FoldAll(p, exact), k, Fold(s, exact), i)
    && (!exact && LastBehindAny(p, k) ==> EndsWith(s, p[|p| - 2].text))
  }

  // ----- folding and pieces -----

  lemma FoldOnce(s: string)
    ensures UpperAll(UpperAll(s)) == UpperAll(s)
  {
  }

  lemma FoldPart(s: string, exact: bool, i: nat, j: nat)
    requires i <= j <= |s|
    ensures Fold(s, exact)[i..j] == Fold(s[i..j], exact)
  {
  }

  lemma FoldChar(s: string, exact: bool, i: nat)
    requires i < |s|
    ensures var c := Fold(s, exact)[i];
            && c == (if exact then s[i] else Upper(s[i]))
            && (c == '.' <==> s[i] == '.') && (IsDigit(c) <==> IsDigit(s[i])) && (IsDigit(c) ==> c == s[i])
  {
  }

  lemma {:induction false} FoldDigits(s: string, exact: bool, i: nat)
    requires i <= |s|
    ensures DigitsEnd(Fold(s, exact), i) == DigitsEnd(s, i)
    ensures Fold(s, exact)[i..DigitsEnd(s, i)] == s[i..DigitsEnd(s, i)]
    decreases |s| - i
  {
    if i < |s| {
      FoldChar(s, exact, i);
      if IsDigit(s[i]) {
        FoldDigits(s, exact, i + 1);
        var u, j := Fold(s, exact), DigitsEnd(s, i);
        assert u[i..j] == [u[i]] + u[i + 1..j];
        assert s[i..j] == [s[i]] + s[i + 1..j];
      }
    }
  }

  lemma FoldKept(p: seq<Elem>, exact: bool)
    ensures FoldAll(KeptAll(p, exact), exact) == FoldAll(p, exact)
  {
    forall k | 0 <= k < |p| ensures FoldElem(Kept(p[k], exact), exact) == FoldElem(p[k], exact) {
      match p[k]
      case Set(chars) => FoldOnce(chars);
      case NegSet(chars) => FoldOnce(chars);
      case _ =>
    }
  }

  lemma FoldWellFormed(p: seq<Elem>, exact: bool)
    requires WellFormed(p)
    ensures WellFormed(FoldAll(p, exact))
  {
  }

  lemma KeptParsed(p: seq<Elem>, exact: bool)
    requires Parsed(p)
    ensures Parsed(KeptAll(p, exact))
  {
  }

  /** Folding happens before or after a pattern is opened for substring match. */
  lemma KeptLoosened(p: seq<Elem>, exact: bool)
    ensures Loosened(KeptAll(p, exact)) == KeptAll(Loosened(p), exact)
  {
    var q := KeptAll(p, exact);
    assert Open(q) == KeptAll(Open(p), exact);
    assert Open(q)[0] == AnySeq <==> Open(p)[0] == AnySeq;
  }

  lemma KeptOnce(p: seq<Elem>, exact: bool)
    ensures KeptAll(KeptAll(p, exact) + [End], exact) == KeptAll(p, exact) + [End]
  {
    forall k | 0 <= k < |p| ensures Kept(Kept(p[k], exact), exact) == Kept(p[k], exact) {
      match p[k]
      case Set(chars) => FoldOnce(chars);
      case NegSet(chars) => FoldOnce(chars);
      case _ =>
    }
  }

  /** How sets are stored does not change what is accepted, for a whole match and for a substring match. */
  lemma KeptMatching(p: seq<Elem>, exact: bool, s: string)
    ensures Matching(KeptAll(p, exact) + [End], exact, 0, s, 0) <==> Matching(p + [End], exact, 0, s, 0)
    ensures Matching(Loosened(KeptAll(p, exact)) + [End], exact, 0, s, 0) <==>
            Matching(Loosened(p) + [End], exact, 0, s, 0)
  {
    hide Accepts, EndsWith, Loosened;
    KeptFinished(p, exact, s);
    KeptLoosened(p, exact);
    KeptFinished(Loosened(p), exact, s);
  }

  lemma KeptFinished(p: seq<Elem>, exact: bool, s: string)
    ensures Matching(KeptAll(p, exact) + [End], exact, 0, s, 0) <==> Matching(p + [End], exact, 0, s, 0)
  {
    hide Accepts, EndsWith;
    KeptMore(p, End, exact);
    FoldKept(p + [End], exact);
  }

  /** With case sensitivity nothing is folded. */
  lemma ExactIsPlain(p: seq<Elem>, k: nat, s: string, i: nat)
    ensures Matching(p, true, k, s, i) <==> Accepts(p, k, s, i)
    ensures KeptAll(p, true) == p && FoldAll(p, true) == p
  {
    assert FoldAll(p, true) == p;
    assert KeptAll(p, true) == p;
  }

  /** The end of a line, folded. */
  lemma EndFolded(s: string, exact: bool, text: string)
    requires EndsWith(s, text)
    ensures EndsWith(Fold(s, exact), Fold(text, exact))
  {
    FoldPart(s, exact, |s| - |text|, |s|);
    assert s[|s| - |text|..|s|] == s[|s| - |text|..];
  }

  /**
   * The shortcut for "**" and a last literal: what it answers is what is accepted, the letters of the literal included.
   */
  lemma TailShortcut(p: seq<Elem>, exact: bool, s: string, j: nat)
    requires WellFormed(p) && LastBehindAny(p, 0) && j <= |s|
    ensures Matching(p, exact, |p| - 3, s, j) <==> EndsWith(s[j..], p[|p| - 2].text)
  {
    hide Accepts, EndsWith, WellFormed;
    var q, u, text := FoldAll(p, exact), Fold(s, exact), p[|p| - 2].text;
    FoldWellFormed(p, exact);
    TailLiteral(q, u, j);
    EndsFrom(s, j, text);
    EndsFrom(u, j, Fold(text, exact));
    if EndsWith(s, text) { EndFolded(s, exact, text); }
  }

  /** Where the matcher takes the shortcut. */
  predicate Shortcut(p: seq<Elem>, k: nat) {
    LastBehindAny(p, k) && k == |p| - 3
  }

  /** A piece for one element, and a match of the rest. */
  lemma MatchingOn(p: seq<Elem>, exact: bool, k: nat, s: string, i: nat, j: nat)
    requires k < |p| && !Shortcut(p, k) && i <= j <= |s| && Piece(FoldAll(p, exact)[k], Fold(s, exact), i, j)
    requires Matching(p, exact, k + 1, s, j)
    ensures Matching(p, exact, k, s, i)
  {
  }

  lemma MatchingNowhere(p: seq<Elem>, exact: bool, k: nat, s: string, i: nat)
    requires k < |p| && !Shortcut(p, k)
    requires forall j: nat :: i <= j <= |s| && Piece(FoldAll(p, exact)[k], Fold(s, exact), i, j) ==>
                                !Matching(p, exact, k + 1, s, j)
    ensures !Matching(p, exact, k, s, i)
  {
    hide Piece;
  }

  lemma MatchingOnly(p: seq<Elem>, exact: bool, k: nat, s: string, i: nat, j: nat)
    requires k < |p| && !Shortcut(p, k) && i <= j <= |s| && Piece(FoldAll(p, exact)[k], Fold(s, exact), i, j)
    requires forall m :: Piece(FoldAll(p, exact)[k], Fold(s, exact), i, m) ==> m == j
    ensures Matching(p, exact, k, s, i) == Matching(p, exact, k + 1, s, j)
  {
    hide Piece, Matching;
    if Matching(p, exact, k + 1, s, j) {
      MatchingOn(p, exact, k, s, i, j);
    } else {
      MatchingNowhere(p, exact, k, s, i);
    }
  }

  lemma MatchingEnd(p: seq<Elem>, exact: bool, s: string, i: nat)
    requires WellFormed(p) && i <= |s|
    ensures Matching(p, exact, |p| - 1, s, i) <==> i == |s|
    ensures |p| >= 2 && p[|p| - 2] == AnySeq ==> Matching(p, exact, |p| - 2, s, i)
  {
    hide Accepts, WellFormed;
    var q, u := FoldAll(p, exact), Fold(s, exact);
    FoldWellFormed(p, exact);
    AtEnd(q, u, i);
    if |p| >= 2 && p[|p| - 2] == AnySeq { TailAnything(q, u, i); }
  }

  // ----- whether case matters -----

  ghost predicate Same(s: string, t: string) { UpperAll(s) == UpperAll(t) }

  predicate HasLetter(s: string) { exists k :: 0 <= k < |s| && IsLetter(s[k]) }

  /** The other case of every letter. */
  function Swapped(s: string): (r: string)
    ensures |r| == |s| && UpperAll(r) == UpperAll(s)
    ensures forall k :: 0 <= k < |s| ==> (r[k] == s[k] <==> !IsLetter(s[k]))
  {
    seq(|s|, k requires 0 <= k < |s| =>
      if 'a' <= s[k] <= 'z' then Upper(s[k])
      else if 'A' <= s[k] <= 'Z' then (s[k] as int - 'A' as int + 'a' as int) as char
      else s[k])
  }

  /** An ending without letters does not tell lines apart that differ in case only. */
  lemma NoLetterNoCase(s: string, t: string, text: string)
    requires Same(s, t) && !HasLetter(text) && EndsWith(s, text)
    ensures EndsWith(t, text)
  {
    assert |UpperAll(s)| == |UpperAll(t)|;
    var at := |s| - |text|;
    forall k | 0 <= k < |text| ensures t[at..][k] == text[k] {
      assert s[at..][k] == text[k];
      assert UpperAll(s)[at + k] == UpperAll(t)[at + k];
    }
  }

  lemma SwappedEnd(s: string, text: string)
    requires EndsWith(s, text) && HasLetter(text)
    ensures !EndsWith(Swapped(s), text)
  {
    var k :| 0 <= k < |text| && IsLetter(text[k]);
    var at := |s| - |text|;
    assert s[at..][k] == text[k];
    assert Swapped(s)[at..][k] != text[k];
  }

  /**
   * The case-insensitive mode ignores the case of the line unless the pattern ends in "**" and a literal with a letter,
   * and accepts anything at all: it does so if and only if not.
   */
  lemma CaseIgnoredExactly(p: seq<Elem>)
    ensures (forall s, t :: Same(s, t) ==> (Matching(p, false, 0, s, 0) <==> Matching(p, false, 0, t, 0))) <==>
            !(LastBehindAny(p, 0) && HasLetter(p[|p| - 2].text) && exists s :: Matching(p, false, 0, s, 0))
  {
    hide Accepts, EndsWith, HasLetter;
    if LastBehindAny(p, 0) {
      var text := p[|p| - 2].text;
      if HasLetter(text) {
        if s :| Matching(p, false, 0, s, 0) {
          SwappedEnd(s, text);
          assert Same(s, Swapped(s));
        }
      } else {
        forall s, t | Same(s, t) && EndsWith(s, text) ensures EndsWith(t, text) { NoLetterNoCase(s, t, text); }
        forall s, t | Same(s, t) ensures Matching(p, false, 0, s, 0) <==> Matching(p, false, 0, t, 0) {
          assert Same(t, s);
        }
      }
    }
  }

  /** Some text is a piece for the element, whatever comes before and after. */
  ghost predicate HasPiece(e: Elem) {
    match e
    case Set(chars) => exists c :: InSet(Upper(c), UpperAll(chars))
    case NegSet(chars) => exists c :: !InSet(Upper(c), UpperAll(chars))
    case NumRange(_, _) => false
    case End => false
    case _ => true
  }

  /** A text that is such a piece. */
  lemma PieceFor(e: Elem, pre: string) returns (t: string)
    requires HasPiece(e)
    ensures e.LiteralString? ==> t == e.text
    ensures forall post :: Piece(FoldElem(e, false), UpperAll(pre + t + post), |pre|, |pre + t|)
  {
    t := "";
    match e {
      case LiteralString(text) => t := text;
      case AnyChar => t := "x";
      case CommonChar => t := "x";
      case Set(chars) =>
        var c :| InSet(Upper(c), UpperAll(chars));
        t := [c];
      case NegSet(chars) =>
        var c :| !InSet(Upper(c), UpperAll(chars));
        t := [c];
      case _ =>
    }
    forall post ensures Piece(FoldElem(e, false), UpperAll(pre + t + post), |pre|, |pre + t|) {
      var u := UpperAll(pre + t + post);
      assert u[|pre|..|pre + t|] == UpperAll(t);
      if |t| == 1 { assert u[|pre|] == Upper(t[0]); }
    }
  }

  /** A line for the rest of a pattern, with the given beginning. */
  lemma {:induction false} LineFor(p: seq<Elem>, k: nat, pre: string) returns (s: string)
    requires WellFormed(p) && k < |p| && forall m :: 0 <= m < |p| - 1 ==> HasPiece(p[m])
    ensures |pre| <= |s| && s[..|pre|] == pre && Accepts(FoldAll(p, false), k, UpperAll(s), |pre|)
    ensures k <= |p| - 2 && p[|p| - 2].LiteralString? ==> EndsWith(s, p[|p| - 2].text)
    decreases |p| - k
  {
    hide HasPiece, Piece;
    if k == |p| - 1 {
      s := pre;
      FoldWellFormed(p, false);
      AtEnd(FoldAll(p, false), UpperAll(s), |s|);
    } else {
      var t := PieceFor(p[k], pre);
      s := LineFor(p, k + 1, pre + t);
      var post := s[|pre + t|..];
      assert s == pre + t + post;
      var q, u, j := FoldAll(p, false), UpperAll(s), |pre + t|;
      assert Piece(q[k], u, |pre|, j) && Accepts(q, k + 1, u, j);
      if k == |p| - 2 && p[k].LiteralString? { LastPart(p, s, pre, t); }
    }
  }

  lemma LastPart(p: seq<Elem>, s: string, pre: string, t: string)
    requires WellFormed(p) && |pre + t| <= |s| && s[..|pre + t|] == pre + t
    requires Accepts(FoldAll(p, false), |p| - 1, UpperAll(s), |pre + t|)
    ensures EndsWith(s, t)
  {
    hide Accepts, WellFormed;
    FoldWellFormed(p, false);
    AtEnd(FoldAll(p, false), UpperAll(s), |pre + t|);
    assert s == pre + t;
  }

  /** Where no element is a numeric range and every set has a character, only the end of the pattern decides. */
  lemma CaseIgnoredSimply(p: seq<Elem>)
    requires WellFormed(p) && forall m :: 0 <= m < |p| - 1 ==> HasPiece(p[m])
    ensures (forall s, t :: Same(s, t) ==> (Matching(p, false, 0, s, 0) <==> Matching(p, false, 0, t, 0))) <==>
            !(LastBehindAny(p, 0) && HasLetter(p[|p| - 2].text))
  {
    hide Accepts, EndsWith, HasLetter, Same;
    CaseIgnoredExactly(p);
    var s := LineFor(p, 0, "");
    assert Matching(p, false, 0, s, 0);
  }

  /** "**a" accepts "a" but not "A", although case is to be ignored. */
  lemma TailMindsCase()
    ensures Tokens("**a", 0, true, []) == Ok([AnySeq, LiteralString("a")])
    ensures var p := [AnySeq, LiteralString("a"), End];
            Matching(p, false, 0, "a", 0) && !Matching(p, false, 0, "A", 0) && Same("a", "A")
  {
    var t, p := "**a", [AnySeq, LiteralString("a"), End];
    assert LiteralAt(t, 3) == Some(("", 3));
    assert t[2..3] == "a" && "a" + "" == "a";
    assert LiteralAt(t, 2) == Some(("a", 3));
    assert ElemAt(t, 2, true, [AnySeq]) == Ok((LiteralString("a"), 3));
    assert ElemAt(t, 0, true, []) == Ok((AnySeq, 2));
    assert [] + [AnySeq] == [AnySeq] && [AnySeq] + [LiteralString("a")] == [AnySeq, LiteralString("a")];
    assert Tokens(t, 3, true, [AnySeq, LiteralString("a")]) == Ok([AnySeq, LiteralString("a")]);
    assert Tokens(t, 2, true, [AnySeq]) == Ok([AnySeq, LiteralString("a")]);
    TailShortcut(p, false, "a", 0);
    TailShortcut(p, false, "A", 0);
    assert "a"[0..] == "a" && "A"[0..] == "A";
  }
}
