/** What the text of a glob pattern means: the lines it accepts, part by part. */
module GlobLaws {
  import opened Options
  import opened GlobPatterns
  import opened GlobParsing
  import opened GlobFolding

  /** What a set lists: one character, or all between two. */
  datatype Item = Single(c: char) | Between(x: char, y: char)

  /** The parts patterns are written in. */
  datatype Part =
    | Plain(text: string)
    | Escaped(text: string)
    | One
    | Run
    | Any
    | OneOf(items: seq<Item>)
    | NoneOf(items: seq<Item>)
    | Numbers(lo: Option<nat>, up: Option<nat>)

  function ItemsText(items: seq<Item>): string {
    if items == [] then ""
    else (match items[0] case Single(c) => [c] case Between(x, y) => [x, '-', y]) + ItemsText(items[1..])
  }

  function PartText(p: Part): string {
    match p
    case Plain(text) => text
    case Escaped(text) => Quoted(text)
    case One => "?"
    case Run => "*"
    case Any => "**"
    case OneOf(items) => "{" + (ItemsText(items) + "}")
    case NoneOf(items) => "{^" + (ItemsText(items) + "}")
    case Numbers(lo, up) => RangeText(lo, up)
  }

  function PatternText(parts: seq<Part>): string {
    if parts == [] then "" else PartText(parts[0]) + PatternText(parts[1..])
  }

  // ----- the lines they mean -----

  predicate Within(c: char, item: Item) {
    match item case Single(d) => c == d case Between(x, y) => x <= c <= y
  }

  predicate Listed(c: char, items: seq<Item>) { exists i :: 0 <= i < |items| && Within(c, items[i]) }

  /** The texts a part stands for; what follows matters to numbers, which take all digits there are. */
  predicate Fits(p: Part, w: string, rest: string, dotted: bool) {
    match p
    case Plain(text) => w == text
    case Escaped(text) => w == text
    case One => |w| == 1 && (dotted ==> w[0] != '.')
    case Run => dotted ==> '.' !in w
    case Any => true
    case OneOf(items) => |w| == 1 && Listed(w[0], items)
    case NoneOf(items) => |w| == 1 && !Listed(w[0], items)
    case Numbers(lo, up) => w != "" && AllDigits(w) && (rest == "" || !IsDigit(rest[0])) && Meant(Number(w), lo, up)
  }

  /** The first part stands for the first j characters. */
  predicate Begins(parts: seq<Part>, s: string, j: nat, dotted: bool)
    requires parts != [] && j <= |s|
  {
    Fits(parts[0], s[..j], s[j..], dotted)
  }

  /** The line is such texts one after the other; or, if not to the end, begins with them. */
  ghost predicate Spells(parts: seq<Part>, s: string, dotted: bool, whole: bool)
    decreases parts
  {
    if parts == [] then whole ==> s == ""
    else
      exists j: nat :: j <= |s| && Begins(parts, s, j, dotted) && Spells(parts[1..], s[j..], dotted, whole)
  }

  // ----- how they are written -----

  function Head(item: Item): char { match item case Single(c) => c case Between(x, _) => x }

  /**
   * How a set can be written: a brace only as its first character, and a hyphen behind a single character only as
   * its last.
   */
  predicate Writable(items: seq<Item>, first: bool)
    decreases items
  {
    if items == [] then !first
    else
      && (match items[0]
          case Single(c) =>
            (c == '}' ==> first) && (items[1..] != [] && Head(items[1]) == '-' ==> items[1..] == [Single('-')])
          case Between(x, y) => (x == '}' ==> first) && y != '}')
      && Writable(items[1..], false)
  }

  predicate NoDots(s: string) { forall i :: 0 <= i < |s| - 1 ==> !(s[i] == '.' && s[i + 1] == '.') }

  predicate Literal(p: Part) { p.Plain? || p.Escaped? }

  /** A part that reads as itself, before the one that follows. */
  predicate WrittenBefore(p: Part, after: seq<Part>) {
    match p
    case Plain(text) => text != "" && !ContainsWildcards(text) && (after == [] || !Literal(after[0]))
    case Escaped(text) => text != "" && (after == [] || !Literal(after[0]))
    case Run => after == [] || (after[0] != Run && after[0] != Any)
    case OneOf(items) => Writable(items, true) && Head(items[0]) != '^' && NoDots(ItemsText(items))
    case NoneOf(items) => Writable(items, true)
    case Numbers(lo, up) => if up.Some? then up.value < LONG_MAX else lo.Some? ==> lo.value <= LONG_MAX
    case _ => true
  }

  predicate WellWritten(parts: seq<Part>) {
    forall k :: 0 <= k < |parts| ==> WrittenBefore(parts[k], parts[k + 1..])
  }

  // ----- reading one part -----

  function Pairs(items: seq<Item>): string {
    if items == [] then ""
    else (match items[0] case Single(c) => [c, c] case Between(x, y) => [x, y]) + Pairs(items[1..])
  }

  function ElemFor(p: Part, dotted: bool): Elem {
    match p
    case Plain(text) => LiteralString(text)
    case Escaped(text) => LiteralString(text)
    case One => if dotted then CommonChar else AnyChar
    case Run => if dotted then CommonSeq else AnySeq
    case Any => AnySeq
    case OneOf(items) => Set(Pairs(items))
    case NoneOf(items) => NegSet(Pairs(items))
    case Numbers(lo, up) => NumRange(Stored(lo), Stored(up))
  }

  function ElemsFor(parts: seq<Part>, dotted: bool): (q: seq<Elem>)
    ensures |q| == |parts| && forall k :: 0 <= k < |q| ==> q[k] == ElemFor(parts[k], dotted)
  {
    seq(|parts|, k requires 0 <= k < |parts| => ElemFor(parts[k], dotted))
  }

  /** What may follow a literal. */
  predicate EndsLiteral(post: string) { post == "" || Wild(post[0]) }

  /** The characters of a text that stands at i, and what comes behind it. */
  lemma TextAt(s: string, i: nat, t: string, post: string)
    requires i <= |s| && s[i..] == t + post
    ensures i + |t| <= |s| && s[i + |t|..] == post && s[i..i + |t|] == t
    ensures forall k :: 0 <= k < |t| ==> s[i + k] == t[k]
    ensures post != "" ==> i + |t| < |s| && s[i + |t|] == post[0]
    ensures post == "" ==> i + |t| == |s|
  {
    var u := t + post;
    assert forall k :: 0 <= k < |u| ==> s[i + k] == u[k];
    assert s[i + |t|..] == u[|t|..];
  }

  /** No numeric range starts in a text without wildcards. */
  lemma NoRangeIn(s: string, i: nat, t: string, post: string)
    requires i < |s| && s[i..] == t + post && t != "" && !ContainsWildcards(t)
    requires post == "" || (post[0] != '.' && !IsDigit(post[0]))
    ensures NumRangeAt(s, i, ']').None?
  {
    hide DigitsEnd;
    OnlyDigits(s, i + 1);
    var a, u := DigitsEnd(s, i + 1), t + post;
    var m := a - i;
    assert forall k :: 0 <= k < |u| ==> u[k] == s[i + k];
    if post != "" { assert u[|t|] == post[0]; }
    assert m <= |t|;
    if m < |t| - 1 {
      assert u[m] == t[m] && u[m + 1] == t[m + 1];
      assert !(t[m] == '.' && t[m + 1] == '.');
    }
  }

  lemma {:induction false} PlainRead(s: string, i: nat, t: string, post: string)
    requires i <= |s| && s[i..] == t + post && !ContainsWildcards(t) && EndsLiteral(post)
    ensures LiteralAt(s, i) == Some((t, i + |t|))
    decreases t
  {
    hide NumRangeAt, ContainsWildcards;
    TextAt(s, i, t, post);
    if t != "" {
      PlainTail(t);
      assert s[i..] == [t[0]] + (t[1..] + post);
      TextAt(s, i, [t[0]], t[1..] + post);
      PlainRead(s, i + 1, t[1..], post);
      NoRangeIn(s, i, t, post);
      assert [t[0]] + t[1..] == t;
    }
  }

  lemma PlainTail(t: string)
    requires t != "" && !ContainsWildcards(t)
    ensures !ContainsWildcards(t[1..]) && !Wild(t[0]) && t[0] != '\\'
  {
    assert t[0] in t;
    forall c | c in t[1..] ensures c in t { }
    forall i | 0 <= i < |t[1..]| - 1 ensures !(t[1..][i] == '.' && t[1..][i + 1] == '.') {
      assert !(t[i + 1] == '.' && t[i + 2] == '.');
    }
  }

  lemma QuotedSplit(t: string, post: string)
    requires t != ""
    ensures Quoted(t) + post == ['\\', t[0]] + (Quoted(t[1..]) + post) && |Quoted(t)| == 2 + |Quoted(t[1..])|
    ensures Quoted(t[1..]) != "" ==> Quoted(t[1..])[0] == '\\'
  {
  }

  lemma EscapeRead(s: string, i: nat)
    requires i + 1 < |s| && s[i] == '\\' && NumRangeAt(s, i + 1, ']').None?
    ensures LiteralAt(s, i) == Prepend(s[i + 1..i + 2], LiteralAt(s, i + 2))
  {
  }

  lemma {:induction false} EscapedRead(s: string, i: nat, t: string, post: string)
    requires i <= |s| && s[i..] == Quoted(t) + post && EndsLiteral(post)
    ensures LiteralAt(s, i) == Some((t, i + |Quoted(t)|))
    decreases t
  {
    hide NumRangeAt;
    TextAt(s, i, Quoted(t), post);
    if t != "" {
      hide Quoted, LiteralAt;
      var q := Quoted(t[1..]) + post;
      QuotedSplit(t, post);
      TextAt(s, i, ['\\', t[0]], q);
      EscapedRead(s, i + 2, t[1..], post);
      NoRangeHere(s, i + 1);
      EscapeRead(s, i);
      assert s[i + 1..i + 2] == [t[0]] && [t[0]] + t[1..] == t;
    }
  }

  /** A bracket before an escape or the end of a literal opens no range. */
  lemma NoRangeHere(s: string, j: nat)
    requires j < |s| && (j + 1 == |s| || s[j + 1] == '\\' || Wild(s[j + 1]))
    ensures NumRangeAt(s, j, ']').None?
  {
  }

  function ItemText(item: Item): string { match item case Single(c) => [c] case Between(x, y) => [x, '-', y] }

  function Pair(item: Item): string { match item case Single(c) => [c, c] case Between(x, y) => [x, y] }

  lemma {:induction false} ItemsRead(s: string, k: nat, begin: nat, items: seq<Item>, post: string)
    requires begin <= k <= |s| && s[k..] == ItemsText(items) + ("}" + post) && Writable(items, k == begin)
    ensures RangesAt(s, k, begin) == Some((Pairs(items), k + |ItemsText(items)| + 1))
    decreases items
  {
    hide ItemsText, Writable, RangesAt, Pairs, Pair, ItemText;
    if items == [] {
      NoItems(k == begin);
      BraceRead(s, k, begin, post);
    } else {
      var rest, t := items[1..], ItemText(items[0]);
      ItemsSplit(items, "}" + post);
      TextAt(s, k, t, ItemsText(rest) + ("}" + post));
      RestWritable(items, k == begin);
      if items[0].Single? { SingleRead(s, k, items, k == begin, post); }
      ItemRead(s, k, begin, items, ItemsText(rest) + ("}" + post));
      ItemsRead(s, k + |t|, begin, rest, post);
    }
  }

  lemma NoItems(first: bool)
    ensures ItemsText([]) == "" && Pairs([]) == "" && Writable([], first) == !first
  {
  }

  lemma BraceRead(s: string, k: nat, begin: nat, post: string)
    requires begin < k <= |s| && s[k..] == "" + ("}" + post)
    ensures RangesAt(s, k, begin) == Some(("", k + 1))
  {
    assert s[k] == s[k..][0];
  }

  lemma RestWritable(items: seq<Item>, first: bool)
    requires items != [] && Writable(items, first)
    ensures Writable(items[1..], false) && |ItemText(items[0])| > 0
  {
  }

  /** One item of a set is read as its pair. */
  lemma ItemRead(s: string, k: nat, begin: nat, items: seq<Item>, v: string)
    requires begin <= k <= |s| && items != [] && Writable(items, k == begin) && s[k..] == ItemText(items[0]) + v
    requires items[0].Single? ==> k + 1 < |s| && (s[k + 1] == '-' ==> k + 2 < |s| && s[k + 2] == '}')
    ensures k + |ItemText(items[0])| <= |s|
    ensures RangesAt(s, k, begin) == Prepend(Pair(items[0]), RangesAt(s, k + |ItemText(items[0])|, begin))
    ensures Pairs(items) == Pair(items[0]) + Pairs(items[1..])
  {
    TextAt(s, k, ItemText(items[0]), v);
  }

  /** What stands behind a single character does not make it a range. */
  lemma SingleRead(s: string, k: nat, items: seq<Item>, first: bool, post: string)
    requires k < |s| && items != [] && items[0].Single? && Writable(items, first)
    requires s[k..] == ItemText(items[0]) + (ItemsText(items[1..]) + ("}" + post))
    ensures k + 1 < |s| && (s[k + 1] == '-' ==> k + 2 < |s| && s[k + 2] == '}')
  {
    hide ItemsText, Writable;
    var v := ItemsText(items[1..]) + ("}" + post);
    NoHyphen(items, first, post);
    TextAt(s, k, ItemText(items[0]), v);
    assert s[k + 1] == s[k + 1..][0] == v[0];
    if |v| > 1 { assert s[k + 2] == s[k + 1..][1] == v[1]; }
  }

  lemma ItemsSplit(items: seq<Item>, post: string)
    requires items != []
    ensures ItemsText(items) == ItemText(items[0]) + ItemsText(items[1..])
    ensures ItemsText(items) + post == ItemText(items[0]) + (ItemsText(items[1..]) + post)
  {
  }

  /** Behind a single character comes no hyphen, but for one before the closing brace. */
  lemma NoHyphen(items: seq<Item>, first: bool, post: string)
    requires items != [] && items[0].Single? && Writable(items, first)
    ensures var v := ItemsText(items[1..]) + ("}" + post);
            v[0] == '-' ==> |v| > 1 && v[1] == '}'
  {
    var rest := items[1..];
    if rest != [] {
      assert items[1] == rest[0];
      if Head(rest[0]) == '-' {
        assert ItemsText([Single('-')]) == "-" by { assert ItemsText([Single('-')][1..]) == ""; }
      }
    }
  }

  /** An open set is no numeric range. */
  lemma NoRangeInSet(s: string, i: nat, t: string, post: string)
    requires i < |s| && s[i + 1..] == t + ("}" + post) && t != "" && (NoDots(t) || t[0] == '^')
    ensures NumRangeAt(s, i, '}').None?
  {
    hide DigitsEnd;
    OnlyDigits(s, i + 1);
    var a, u := DigitsEnd(s, i + 1), t + ("}" + post);
    var m := a - i - 1;
    assert forall k :: 0 <= k < |u| ==> u[k] == s[i + 1 + k];
    assert u[|t|] == '}' && u[0] == t[0];
    assert m <= |t|;
    if m < |t| - 1 {
      assert u[m] == t[m] && u[m + 1] == t[m + 1];
      if NoDots(t) { assert !(t[m] == '.' && t[m + 1] == '.'); }
    }
  }

  /** One part of a pattern text is read as its element. */
  lemma PartRead(s: string, i: nat, p: Part, after: seq<Part>, post: string, dotted: bool, before: seq<Elem>)
    requires i <= |s| && s[i..] == PartText(p) + post && WrittenBefore(p, after)
    requires Literal(p) ==> !AfterLiteral(before) && EndsLiteral(post)
    requires p == Run ==> post == "" || post[0] != '*'
    ensures i < |s| && ElemAt(s, i, dotted, before) == Ok((ElemFor(p, dotted), i + |PartText(p)|))
  {
    hide NumRangeAt, LiteralAt, RangesAt, ItemsText, Quoted;
    var t := PartText(p);
    assert forall k :: 0 <= k < |t| ==> s[i + k] == (t + post)[k];
    match p
    case Plain(text) =>
      PlainRead(s, i, text, post);
      assert s[i] in text;
    case Escaped(text) =>
      EscapedRead(s, i, text, post);
      EscapedHead(text);
    case One =>
    case Run =>
      if post != "" { assert s[i + 1] == (t + post)[1]; }
    case Any =>
    case OneOf(items) => SetRead(s, i, items, false, post);
    case NoneOf(items) => SetRead(s, i, items, true, post);
    case Numbers(lo, up) => NumbersRead(s, i, lo, up, post);
  }

  lemma EscapedHead(t: string)
    requires t != ""
    ensures Quoted(t) != "" && Quoted(t)[0] == '\\'
  {
  }

  lemma SetRead(s: string, i: nat, items: seq<Item>, negated: bool, post: string)
    requires i <= |s| && s[i..] == (if negated then "{^" else "{") + (ItemsText(items) + "}") + post
    requires Writable(items, true) && (!negated ==> Head(items[0]) != '^' && NoDots(ItemsText(items)))
    ensures i < |s| && s[i] == '{' && NumRangeAt(s, i, '}').None?
    ensures SetAt(s, i) == Ok((if negated then NegSet(Pairs(items)) else Set(Pairs(items)),
                              i + (if negated then 2 else 1) + |ItemsText(items)| + 1))
  {
    hide NumRangeAt, RangesAt;
    var p := if negated then "{^" else "{";
    var t := ItemsText(items);
    var u := p + (t + "}") + post;
    assert forall k :: 0 <= k < |u| ==> s[i + k] == u[k];
    assert u[0] == '{' && u[|p|..] == t + ("}" + post);
    var begin := i + |p|;
    assert s[begin..] == s[i..][|p|..];
    ItemsHead(items);
    assert u[|p|] == t[0];
    NoRangeInSet(s, i, if negated then "^" + t else t, post) by {
      assert s[i + 1..] == s[i..][1..];
      if negated { assert u[1..] == ("^" + t) + ("}" + post); } else { assert u[1..] == t + ("}" + post); }
    }
    ItemsRead(s, begin, begin, items, post);
  }

  lemma ItemsHead(items: seq<Item>)
    requires items != []
    ensures ItemsText(items) != "" && ItemsText(items)[0] == Head(items[0])
  {
  }

  lemma NumbersRead(s: string, i: nat, lo: Option<nat>, up: Option<nat>, post: string)
    requires i <= |s| && s[i..] == RangeText(lo, up) + post
    ensures i < |s| && s[i] == '{'
    ensures NumRangeAt(s, i, '}') == Some((Stored(lo), Stored(up), i + |RangeText(lo, up)| - 1))
  {
    hide Written;
    TextAt(s, i, RangeText(lo, up), post);
    assert s[i..] == "{" + Written(lo) + ".." + Written(up) + "}" + post;
    RangeAt(s, i, '{', '}', lo, up, post);
  }

  /** A numeric range, whatever its brackets. */
  lemma RangeAt(s: string, i: nat, open: char, closing: char, lo: Option<nat>, up: Option<nat>, post: string)
    requires i <= |s| && s[i..] == [open] + Written(lo) + ".." + Written(up) + [closing] + post
    requires closing != '\0' && !IsDigit(closing)
    ensures i < |s| && s[i] == open
    ensures NumRangeAt(s, i, closing) == Some((Stored(lo), Stored(up), i + |Written(lo)| + |Written(up)| + 3))
  {
    hide DigitsEnd, Bound, Written, Stored;
    var x, y := Written(lo), Written(up);
    RangeTextAt(s, i, open, closing, x, y, post);
    var a := i + 1 + |x|;
    BoundRead(s, i + 1, a, lo);
    BoundRead(s, a + 2, a + 2 + |y|, up);
  }

  lemma RangeTextAt(s: string, i: nat, open: char, closing: char, x: string, y: string, post: string)
    requires i <= |s| && s[i..] == [open] + x + ".." + y + [closing] + post
    ensures var a := i + 1 + |x|;
            && a + 2 + |y| < |s| && s[i] == open && s[i + 1..a] == x && s[a] == '.' && s[a + 1] == '.'
            && s[a + 2..a + 2 + |y|] == y && s[a + 2 + |y|] == closing
  {
    var t := [open] + x + ".." + y + [closing];
    var a := i + 1 + |x|;
    TextAt(s, i, t, post);
    assert t[0] == open && t[1..1 + |x|] == x && t[1 + |x|] == '.' && t[2 + |x|] == '.';
    assert t[3 + |x|..3 + |x| + |y|] == y && t[3 + |x| + |y|] == closing;
    assert s[i..i + |t|][1..1 + |x|] == s[i + 1..a];
    assert s[i..i + |t|][3 + |x|..3 + |x| + |y|] == s[a + 2..a + 2 + |y|];
  }

  // ----- reading the whole pattern -----

  lemma PatternHead(parts: seq<Part>)
    requires WellWritten(parts) && parts != []
    ensures var t := PatternText(parts);
            && t != ""
            && (!Literal(parts[0]) ==> Wild(t[0]))
            && (t[0] == '*' <==> parts[0] == Run || parts[0] == Any)
  {
    hide ItemsText, Quoted, RangeText;
    assert WrittenBefore(parts[0], parts[1..]);
    match parts[0]
    case Plain(text) => assert text[0] in text;
    case Escaped(text) => EscapedHead(text);
    case Numbers(lo, up) => RangeHead(lo, up);
    case _ =>
  }

  lemma RangeHead(lo: Option<nat>, up: Option<nat>)
    ensures RangeText(lo, up) != "" && RangeText(lo, up)[0] == '{'
  {
  }

  lemma {:induction false} PatternRead(s: string, i: nat, parts: seq<Part>, dotted: bool, before: seq<Elem>)
    requires i <= |s| && s[i..] == PatternText(parts) && WellWritten(parts)
    requires parts != [] && Literal(parts[0]) ==> !AfterLiteral(before)
    ensures Tokens(s, i, dotted, before) == Ok(before + ElemsFor(parts, dotted))
    decreases parts
  {
    hide ElemAt, WellWritten, WrittenBefore, PartText, ElemsFor, ElemFor, EndsLiteral;
    ElemsSplit(parts, dotted, before);
    if parts != [] {
      var p, rest := parts[0], parts[1..];
      var post := PatternText(rest);
      Follows(parts);
      TextAt(s, i, PartText(p), post);
      PartRead(s, i, p, rest, post, dotted, before);
      PatternRead(s, i + |PartText(p)|, rest, dotted, before + [ElemFor(p, dotted)]);
    }
  }

  lemma ElemsSplit(parts: seq<Part>, dotted: bool, before: seq<Elem>)
    ensures parts == [] ==> before + ElemsFor(parts, dotted) == before
    ensures parts != [] ==>
              before + ElemsFor(parts, dotted) == before + [ElemFor(parts[0], dotted)] + ElemsFor(parts[1..], dotted)
    ensures parts != [] ==> (AfterLiteral(before + [ElemFor(parts[0], dotted)]) <==> Literal(parts[0]))
  {
    if parts != [] {
      FirstElem(parts, dotted);
      LiteralElem(parts[0], dotted);
      hide ElemsFor, ElemFor;
      assert before + ([ElemFor(parts[0], dotted)] + ElemsFor(parts[1..], dotted)) ==
             before + [ElemFor(parts[0], dotted)] + ElemsFor(parts[1..], dotted);
    }
  }

  lemma FirstElem(parts: seq<Part>, dotted: bool)
    requires parts != []
    ensures ElemsFor(parts, dotted) == [ElemFor(parts[0], dotted)] + ElemsFor(parts[1..], dotted)
  {
    hide ElemFor;
  }

  lemma LiteralElem(p: Part, dotted: bool)
    ensures ElemFor(p, dotted).LiteralString? <==> Literal(p)
  {
  }

  /** What comes behind the first part leaves it apart. */
  lemma Follows(parts: seq<Part>)
    requires WellWritten(parts) && parts != []
    ensures WrittenBefore(parts[0], parts[1..]) && WellWritten(parts[1..])
    ensures Literal(parts[0]) ==> EndsLiteral(PatternText(parts[1..])) && (parts[1..] != [] ==> !Literal(parts[1]))
    ensures parts[0] == Run ==> PatternText(parts[1..]) == "" || PatternText(parts[1..])[0] != '*'
    ensures ElemFor(parts[0], true).LiteralString? <==> Literal(parts[0])
    ensures ElemFor(parts[0], false).LiteralString? <==> Literal(parts[0])
  {
    hide WrittenBefore, PatternText;
    assert WrittenBefore(parts[0], parts[0 + 1..]);
    var rest := parts[1..];
    forall k | 0 <= k < |rest| ensures WrittenBefore(rest[k], rest[k + 1..]) {
      assert rest[k + 1..] == parts[k + 1 + 1..] && rest[k] == parts[k + 1];
    }
    NextPart(parts[0], rest);
    if rest != [] { PatternHead(rest); }
    EmptyPattern();
  }

  lemma EmptyPattern()
    ensures PatternText([]) == ""
  {
  }

  lemma NextPart(p: Part, after: seq<Part>)
    requires WrittenBefore(p, after)
    ensures Literal(p) ==> after == [] || !Literal(after[0])
    ensures p == Run ==> after == [] || (after[0] != Run && after[0] != Any)
    ensures p.Plain? ==> p.text != "" && !Wild(p.text[0])
  {
    if p.Plain? { assert p.text[0] in p.text; }
  }

  // ----- matching -----

  lemma {:induction false} PairsListed(items: seq<Item>, c: char)
    ensures InSet(c, Pairs(items)) <==> Listed(c, items)
    ensures |Pairs(items)| == 2 * |items|
  {
    if items != [] {
      hide InSet, Listed;
      PairsListed(items[1..], c);
      ListedSplit(items, c);
      var x := if items[0].Single? then items[0].c else items[0].x;
      var y := if items[0].Single? then items[0].c else items[0].y;
      SetSplit(x, y, Pairs(items[1..]), c);
      assert Pairs(items) == [x, y] + Pairs(items[1..]);
    } else {
      assert !InSet(c, "") && !Listed(c, []);
    }
  }

  lemma SetSplit(x: char, y: char, t: string, c: char)
    ensures InSet(c, [x, y] + t) <==> x <= c <= y || InSet(c, t)
  {
    var u := [x, y] + t;
    assert forall k :: 0 <= k && 2 * k + 1 < |t| ==> u[2 * (k + 1)] == t[2 * k] && u[2 * (k + 1) + 1] == t[2 * k + 1];
    if x <= c <= y { assert u[2 * 0] <= c <= u[2 * 0 + 1]; }
    if k :| 0 <= k && 2 * k + 1 < |t| && t[2 * k] <= c <= t[2 * k + 1] {
      assert u[2 * (k + 1)] <= c <= u[2 * (k + 1) + 1];
    }
    if k :| 0 <= k && 2 * k + 1 < |u| && u[2 * k] <= c <= u[2 * k + 1] {
      if k > 0 { assert t[2 * (k - 1)] <= c <= t[2 * (k - 1) + 1]; }
    }
  }

  lemma ListedSplit(items: seq<Item>, c: char)
    requires items != []
    ensures Listed(c, items) <==> Within(c, items[0]) || Listed(c, items[1..])
  {
    if Listed(c, items[1..]) {
      var i :| 0 <= i < |items[1..]| && Within(c, items[1..][i]);
      assert Within(c, items[i + 1]);
    }
    if i :| 0 <= i < |items| && Within(c, items[i]) {
      if i > 0 { assert Within(c, items[1..][i - 1]); }
    }
  }

  /** Ranges that are honoured for every number. */
  predicate Bounded(p: Part) {
    p.Numbers? ==> if p.up.Some? then p.up.value < LONG_MAX else p.lo.Some? ==> p.lo.value <= LONG_MAX
  }

  predicate AllBounded(parts: seq<Part>) { forall k :: 0 <= k < |parts| ==> Bounded(parts[k]) }

  lemma WrittenBounded(parts: seq<Part>)
    requires WellWritten(parts)
    ensures AllBounded(parts)
  {
    forall k | 0 <= k < |parts| ensures Bounded(parts[k]) { assert WrittenBefore(parts[k], parts[k + 1..]); }
  }

  /** A piece for the element of a part is a text the part stands for. */
  lemma PieceFits(p: Part, s: string, i: nat, j: nat, dotted: bool)
    requires Bounded(p) && i <= j <= |s|
    ensures Piece(ElemFor(p, dotted), s, i, j) <==> Fits(p, s[i..j], s[j..], dotted)
  {
    hide Written, ItemsText;
    var w := s[i..j];
    if |w| == 1 { assert w[0] == s[i]; }
    match p
    case OneOf(items) => if i < |s| { PairsListed(items, s[i]); }
    case NoneOf(items) => if i < |s| { PairsListed(items, s[i]); }
    case Numbers(lo, up) => NumberFits(lo, up, s, i, j);
    case _ =>
  }

  lemma NumberFits(lo: Option<nat>, up: Option<nat>, s: string, i: nat, j: nat)
    requires i <= j <= |s| && if up.Some? then up.value < LONG_MAX else lo.Some? ==> lo.value <= LONG_MAX
    ensures Piece(NumRange(Stored(lo), Stored(up)), s, i, j) <==>
            s[i..j] != "" && AllDigits(s[i..j]) && (s[j..] == "" || !IsDigit(s[j..][0]))
              && Meant(Number(s[i..j]), lo, up)
  {
    if AllDigits(s[i..j]) && (j < |s| ==> !IsDigit(s[j])) { DigitsRun(s, i, j); }
  }

  /** The elements of the parts accept the rest of a line exactly if the parts spell it. */
  lemma {:induction false} SpellsAccepted(parts: seq<Part>, q: seq<Elem>, k: nat, s: string, i: nat, dotted: bool,
      whole: bool)
    requires AllBounded(parts) && q == ElemsFor(parts, dotted) + (if whole then [End] else [])
    requires k <= |parts| && i <= |s|
    ensures Accepts(q, k, s, i) <==> Spells(parts[k..], s[i..], dotted, whole)
    decreases |parts| - k
  {
    hide Bounded, Piece, Fits, ElemFor;
    if k == |parts| {
      SpellsNothing(q, k, s, i, whole);
    } else {
      var rest, line := parts[k..], s[i..];
      assert rest[0] == parts[k] && rest[1..] == parts[k + 1..] && q[k] == ElemFor(parts[k], dotted);
      forall j: nat | i <= j <= |s|
        ensures Piece(q[k], s, i, j) <==> Begins(rest, line, j - i, dotted)
        ensures Accepts(q, k + 1, s, j) <==> Spells(rest[1..], line[j - i..], dotted, whole)
      {
        assert line[..j - i] == s[i..j] && line[j - i..] == s[j..];
        PieceFits(parts[k], s, i, j, dotted);
        assert Begins(rest, line, j - i, dotted) <==> Fits(rest[0], line[..j - i], line[j - i..], dotted);
        SpellsAccepted(parts, q, k + 1, s, j, dotted, whole);
      }
      if Accepts(q, k, s, i) {
        var j: nat :| i <= j <= |s| && Piece(q[k], s, i, j) && Accepts(q, k + 1, s, j);
        var n: nat := j - i;
        assert Begins(rest, line, n, dotted) && Spells(rest[1..], line[n..], dotted, whole);
      }
      if Spells(rest, line, dotted, whole) {
        var n: nat :| n <= |line| && Begins(rest, line, n, dotted) && Spells(rest[1..], line[n..], dotted, whole);
        var j: nat := i + n;
        assert Piece(q[k], s, i, j) && Accepts(q, k + 1, s, j);
      }
    }
  }

  lemma SpellsNothing(q: seq<Elem>, k: nat, s: string, i: nat, whole: bool)
    requires i <= |s| && k <= |q| && q[k..] == if whole then [End] else []
    ensures Accepts(q, k, s, i) <==> (whole ==> s[i..] == "")
  {
    if whole {
      assert q[k] == q[k..][0] && k + 1 == |q|;
      if i == |s| { assert Piece(End, s, i, i) && Accepts(q, k + 1, s, i); }
    }
  }

  // ----- the laws -----

  /** The pattern is well formed, and accepts the line. */
  ghost predicate AcceptsLine(text: string, dotted: bool, line: string) {
    var r := Tokens(text, 0, dotted, []);
    r.Ok? && Accepts(r.value + [End], 0, line, 0)
  }

  /** The same for a part of the line. */
  ghost predicate AcceptsWithin(text: string, dotted: bool, line: string) {
    var r := Tokens(text, 0, dotted, []);
    r.Ok? && Accepts(Loosened(r.value) + [End], 0, line, 0)
  }

  lemma PatternElems(parts: seq<Part>, dotted: bool)
    requires WellWritten(parts)
    ensures Tokens(PatternText(parts), 0, dotted, []) == Ok(ElemsFor(parts, dotted))
  {
    hide WrittenBefore;
    var s, q := PatternText(parts), ElemsFor(parts, dotted);
    assert s[0..] == s && [] + q == q;
    PatternRead(s, 0, parts, dotted, []);
  }

  /** A pattern accepts exactly the lines its parts spell, one after the other. */
  lemma PatternMeans(parts: seq<Part>, dotted: bool, line: string)
    requires WellWritten(parts)
    ensures AcceptsLine(PatternText(parts), dotted, line) <==> Spells(parts, line, dotted, true)
  {
    hide Spells, Accepts, WellWritten, Bounded;
    PatternElems(parts, dotted);
    WrittenBounded(parts);
    assert parts[0..] == parts && line[0..] == line;
    SpellsAccepted(parts, ElemsFor(parts, dotted) + [End], 0, line, 0, dotted, true);
  }

  /** Substring match accepts exactly the lines its parts spell some part of. */
  lemma PatternMeansWithin(parts: seq<Part>, dotted: bool, line: string)
    requires WellWritten(parts)
    ensures AcceptsWithin(PatternText(parts), dotted, line) <==>
            exists i :: 0 <= i <= |line| && Spells(parts, line[i..], dotted, false)
  {
    hide Spells, Accepts, WellWritten, Bounded, Somewhere;
    PatternElems(parts, dotted);
    WrittenBounded(parts);
    MatchesSomewhere(ElemsFor(parts, dotted), line);
    SpelledSomewhere(parts, ElemsFor(parts, dotted), line, dotted);
  }

  lemma SpelledSomewhere(parts: seq<Part>, q: seq<Elem>, line: string, dotted: bool)
    requires AllBounded(parts) && q == ElemsFor(parts, dotted)
    ensures Somewhere(q, line) <==> exists i :: 0 <= i <= |line| && Spells(parts, line[i..], dotted, false)
  {
    hide Spells, Accepts, Bounded;
    assert parts[0..] == parts && q + [] == q;
    forall i: nat | i <= |line| ensures Accepts(q, 0, line, i) <==> Spells(parts, line[i..], dotted, false) {
      SpellsAccepted(parts, q, 0, line, i, dotted, false);
    }
  }

  // ----- one wildcard behind a text -----

  function Before(a: string, p: Part): seq<Part> { if a == "" then [p] else [Plain(a), p] }

  /** Behind a text without wildcards, a part other than a text accepts what it stands for. */
  lemma BehindText(a: string, p: Part, dotted: bool, line: string)
    requires !ContainsWildcards(a) && !Literal(p) && WrittenBefore(p, [])
    ensures AcceptsLine(a + PartText(p), dotted, line) <==>
            |line| >= |a| && line[..|a|] == a && Fits(p, line[|a|..], "", dotted)
  {
    hide WrittenBefore, Fits, PartText, AcceptsLine;
    var parts := Before(a, p);
    BeforeWritten(a, p);
    PatternMeans(parts, dotted, line);
    if a == "" {
      OneSpelled(p, line, dotted);
      assert line[0..] == line;
    } else {
      assert parts == [Plain(a)] + [p];
      TextSpelled(a, [p], line, dotted);
      if |line| >= |a| { OneSpelled(p, line[|a|..], dotted); }
    }
  }

  lemma BeforeWritten(a: string, p: Part)
    requires !ContainsWildcards(a) && !Literal(p) && WrittenBefore(p, [])
    ensures WellWritten(Before(a, p)) && PatternText(Before(a, p)) == a + PartText(p)
  {
    hide PartText;
    var parts := Before(a, p);
    assert PatternText([p]) == PartText(p) by { assert PartText(p) + "" == PartText(p); }
    if a != "" {
      assert parts[1..] == [p] && PartText(parts[0]) == a by { TextItself(a); }
      assert parts[0 + 1..] == [p] && parts[1 + 1..] == [];
    } else {
      assert parts[0 + 1..] == [] && "" + PartText(p) == PartText(p);
    }
  }

  lemma TextItself(a: string)
    ensures PartText(Plain(a)) == a
  {
  }

  lemma OneSpelled(p: Part, line: string, dotted: bool)
    ensures Spells([p], line, dotted, true) <==> Fits(p, line, "", dotted)
  {
    hide Fits;
    var n: nat := |line|;
    assert line[..n] == line && line[n..] == "" && [p][1..] == [];
    assert forall j: nat :: j <= n && line[j..] == "" ==> j == n;
    assert Begins([p], line, n, dotted) <==> Fits(p, line, "", dotted);
    assert Spells([], line[n..], dotted, true);
  }

  lemma TextSpelled(a: string, rest: seq<Part>, line: string, dotted: bool)
    ensures Spells([Plain(a)] + rest, line, dotted, true) <==>
            |line| >= |a| && line[..|a|] == a && Spells(rest, line[|a|..], dotted, true)
  {
    var parts := [Plain(a)] + rest;
    assert parts[1..] == rest;
    if |line| >= |a| && line[..|a|] == a && Spells(rest, line[|a|..], dotted, true) {
      var j: nat := |a|;
      assert Begins(parts, line, j, dotted) && Spells(parts[1..], line[j..], dotted, true);
    }
  }

  /** "?" stands for one character, in a dotted path other than a dot. */
  lemma QuestionMark(a: string, dotted: bool, line: string)
    requires !ContainsWildcards(a)
    ensures AcceptsLine(a + "?", dotted, line) <==> exists c :: line == a + [c] && (dotted ==> c != '.')
  {
    hide AcceptsLine;
    BehindText(a, One, dotted, line);
    if |line| == |a| + 1 && line[..|a|] == a { assert line == a + [line[|a|]]; }
  }

  /** "*" stands for any characters, in a dotted path other than dots. */
  lemma Asterisk(a: string, dotted: bool, line: string)
    requires !ContainsWildcards(a)
    ensures AcceptsLine(a + "*", dotted, line) <==> exists t :: line == a + t && (dotted ==> '.' !in t)
  {
    hide AcceptsLine;
    BehindText(a, Run, dotted, line);
    if |line| >= |a| && line[..|a|] == a { assert line == a + line[|a|..]; }
    if t :| line == a + t && (dotted ==> '.' !in t) { assert line[|a|..] == t; }
  }

  /** "**" stands for anything. */
  lemma DoubleAsterisk(a: string, dotted: bool, line: string)
    requires !ContainsWildcards(a)
    ensures AcceptsLine(a + "**", dotted, line) <==> a <= line
  {
    hide AcceptsLine;
    BehindText(a, Any, dotted, line);
  }

  /** "{x-y}" stands for one character from x to y, "{^x-y}" for one that is not. */
  lemma OneRange(a: string, x: char, y: char, dotted: bool, line: string)
    requires !ContainsWildcards(a) && y != '}'
    ensures x != '^' ==>
              (AcceptsLine(a + ("{" + [x, '-', y] + "}"), dotted, line) <==> exists c :: line == a + [c] && x <= c <= y)
    ensures AcceptsLine(a + ("{^" + [x, '-', y] + "}"), dotted, line) <==> exists c :: line == a + [c] && !(x <= c <= y)
  {
    hide AcceptsLine, ContainsWildcards;
    var items := [Between(x, y)];
    BetweenText(x, y);
    forall w ensures Fits(OneOf(items), w, "", dotted) <==> |w| == 1 && x <= w[0] <= y { BetweenFits(x, y, w, dotted); }
    forall w ensures Fits(NoneOf(items), w, "", dotted) <==>
      |w| == 1 && !(x <= w[0] <= y) { BetweenFits(x, y, w, dotted); }
    hide Fits;
    if x != '^' { BehindText(a, OneOf(items), dotted, line); }
    BehindText(a, NoneOf(items), dotted, line);
    OneMore(a, line);
  }

  lemma BetweenText(x: char, y: char)
    requires y != '}'
    ensures PartText(OneOf([Between(x, y)])) == "{" + [x, '-', y] + "}"
    ensures PartText(NoneOf([Between(x, y)])) == "{^" + [x, '-', y] + "}"
    ensures WrittenBefore(NoneOf([Between(x, y)]), []) && (x != '^' ==> WrittenBefore(OneOf([Between(x, y)]), []))
  {
    var items := [Between(x, y)];
    assert items[1..] == [] && ItemsText(items) == [x, '-', y];
    assert Writable([], false);
  }

  lemma BetweenFits(x: char, y: char, w: string, dotted: bool)
    ensures Fits(OneOf([Between(x, y)]), w, "", dotted) <==> |w| == 1 && x <= w[0] <= y
    ensures Fits(NoneOf([Between(x, y)]), w, "", dotted) <==> |w| == 1 && !(x <= w[0] <= y)
  {
    assert forall c :: Listed(c, [Between(x, y)]) <==> Within(c, [Between(x, y)][0]);
  }

  lemma OneMore(a: string, line: string)
    ensures |line| == |a| + 1 && line[..|a|] == a <==> exists c :: line == a + [c]
    ensures forall c :: line == a + [c] ==> |line| == |a| + 1 && line[|a|..] == [c]
  {
    if |line| == |a| + 1 && line[..|a|] == a { assert line == a + [line[|a|]]; }
  }

  /** Characters that differ at most in case, as letters of the C locale. */
  predicate SameLetter(c: char, d: char) {
    c == d || ('a' <= c <= 'z' && d as int == c as int - 32) || ('A' <= c <= 'Z' && d as int == c as int + 32)
  }

  /** Folding makes exactly the lines alike that differ in the case of letters only. */
  lemma SameExactly(s: string, t: string)
    ensures Same(s, t) <==> |s| == |t| && forall k :: 0 <= k < |s| ==> SameLetter(s[k], t[k])
  {
    if Same(s, t) {
      assert |s| == |UpperAll(s)| == |UpperAll(t)| == |t|;
      forall k | 0 <= k < |s| ensures SameLetter(s[k], t[k]) { assert UpperAll(s)[k] == UpperAll(t)[k]; }
    }
    if |s| == |t| && forall k :: 0 <= k < |s| ==> SameLetter(s[k], t[k]) {
      forall k | 0 <= k < |s| ensures UpperAll(s)[k] == UpperAll(t)[k] { assert SameLetter(s[k], t[k]); }
      assert UpperAll(s) == UpperAll(t);
    }
  }

  /** What a run of digits counts. */
  lemma NumberWeight(s: string, c: char)
    requires AllDigits(s) && '0' <= c <= '9'
    ensures AllDigits(s + [c]) && Number(s + [c]) == 10 * Number(s) + (c as int - '0' as int) && Number("") == 0
  {
    assert (s + [c])[..|s|] == s;
  }

  /** The matcher, case-sensitive, decides exactly this of the pattern it stores. */
  lemma ExactMatch(text: string, dotted: bool, line: string)
    requires Tokens(text, 0, dotted, []).Ok?
    ensures var q := KeptAll(Tokens(text, 0, dotted, []).value, true);
            && (Matching(q + [End], true, 0, line, 0) <==> AcceptsLine(text, dotted, line))
            && (Matching(Loosened(q) + [End], true, 0, line, 0) <==> AcceptsWithin(text, dotted, line))
  {
    hide Accepts, Matching, Loosened;
    var q := Tokens(text, 0, dotted, []).value;
    ExactIsPlain(q, 0, line, 0);
    ExactIsPlain(q + [End], 0, line, 0);
    ExactIsPlain(Loosened(q) + [End], 0, line, 0);
  }

  // ----- without case sensitivity -----

  function FoldItem(item: Item): Item {
    match item case Single(c) => Single(Upper(c)) case Between(x, y) => Between(Upper(x), Upper(y))
  }

  function FoldItems(items: seq<Item>): (r: seq<Item>)
    ensures |r| == |items|
  {
    if items == [] then [] else [FoldItem(items[0])] + FoldItems(items[1..])
  }

  /** The part in capital letters. */
  function CapitalPart(p: Part): Part {
    match p
    case Plain(text) => Plain(UpperAll(text))
    case Escaped(text) => Escaped(UpperAll(text))
    case OneOf(items) => OneOf(FoldItems(items))
    case NoneOf(items) => NoneOf(FoldItems(items))
    case _ => p
  }

  function FoldParts(parts: seq<Part>): (r: seq<Part>)
    ensures |r| == |parts| && forall k :: 0 <= k < |r| ==> r[k] == CapitalPart(parts[k])
  {
    seq(|parts|, k requires 0 <= k < |parts| => CapitalPart(parts[k]))
  }

  lemma UpperTwo(x: char, y: char, t: string)
    ensures UpperAll([x, y] + t) == [Upper(x), Upper(y)] + UpperAll(t)
  {
    var u, v := [x, y] + t, [Upper(x), Upper(y)] + UpperAll(t);
    forall i | 0 <= i < |u| ensures UpperAll(u)[i] == v[i] { }
  }

  lemma PairsSplit(items: seq<Item>)
    requires items != []
    ensures Pairs(items) == Pair(items[0]) + Pairs(items[1..])
    ensures FoldItems(items) != [] && FoldItems(items)[0] == FoldItem(items[0])
    ensures FoldItems(items)[1..] == FoldItems(items[1..])
  {
  }

  lemma {:induction false} FoldPairs(items: seq<Item>)
    ensures Pairs(FoldItems(items)) == UpperAll(Pairs(items))
  {
    if items != [] {
      hide Pairs, FoldItems, UpperAll, Upper;
      FoldPairs(items[1..]);
      PairsSplit(items);
      PairsSplit(FoldItems(items));
      var p := Pair(items[0]);
      assert p == [p[0], p[1]] && Pair(FoldItem(items[0])) == [Upper(p[0]), Upper(p[1])];
      UpperTwo(p[0], p[1], Pairs(items[1..]));
    }
  }

  lemma FoldFor(p: Part, dotted: bool)
    ensures FoldElem(ElemFor(p, dotted), false) == ElemFor(CapitalPart(p), dotted)
  {
    match p
    case OneOf(items) => FoldPairs(items);
    case NoneOf(items) => FoldPairs(items);
    case _ =>
  }

  /** The pattern ends in a text behind something that stands for anything. */
  predicate TextBehindAny(parts: seq<Part>, dotted: bool) {
    && |parts| >= 2 && Literal(parts[|parts| - 1])
    && (parts[|parts| - 2] == Any || (parts[|parts| - 2] == Run && !dotted))
  }

  /**
   * Without case sensitivity a pattern accepts the lines its parts in capital letters spell in capital letters; and if
   * it ends in "**" and a text, they must end in that very text.
   */
  lemma PatternMeansFolded(parts: seq<Part>, dotted: bool, line: string)
    requires WellWritten(parts)
    ensures Tokens(PatternText(parts), 0, dotted, []).Ok?
    ensures Matching(KeptAll(Tokens(PatternText(parts), 0, dotted, []).value, false) + [End], false, 0, line, 0) <==>
            && Spells(FoldParts(parts), UpperAll(line), dotted, true)
            && (TextBehindAny(parts, dotted) ==> EndsWith(line, parts[|parts| - 1].text))
  {
    hide Spells, WellWritten, Bounded, EndsWith, Matching;
    PatternElems(parts, dotted);
    WrittenBounded(parts);
    KeptMatching(ElemsFor(parts, dotted), false, line);
    FoldedSpelled(parts, dotted, line);
  }

  lemma FoldedSpelled(parts: seq<Part>, dotted: bool, line: string)
    requires AllBounded(parts)
    ensures Matching(ElemsFor(parts, dotted) + [End], false, 0, line, 0) <==>
            && Spells(FoldParts(parts), UpperAll(line), dotted, true)
            && (TextBehindAny(parts, dotted) ==> EndsWith(line, parts[|parts| - 1].text))
  {
    hide Spells, Accepts, Bounded, EndsWith, FoldAll, FoldParts;
    var folded, u := FoldParts(parts), UpperAll(line);
    FoldedElems(parts, dotted);
    FoldedBounded(parts);
    assert folded[0..] == folded && u[0..] == u;
    SpellsAccepted(folded, ElemsFor(folded, dotted) + [End], 0, u, 0, dotted, true);
    TailElems(parts, dotted);
  }

  lemma TailElems(parts: seq<Part>, dotted: bool)
    ensures var q := ElemsFor(parts, dotted) + [End];
            && (LastBehindAny(q, 0) <==> TextBehindAny(parts, dotted))
            && (LastBehindAny(q, 0) ==> q[|q| - 2].text == parts[|parts| - 1].text)
  {
  }

  lemma FoldedElems(parts: seq<Part>, dotted: bool)
    ensures FoldAll(ElemsFor(parts, dotted) + [End], false) == ElemsFor(FoldParts(parts), dotted) + [End]
  {
    forall k | 0 <= k < |parts| ensures FoldElem(ElemFor(parts[k], dotted), false) ==
      ElemFor(CapitalPart(parts[k]), dotted) {
      FoldFor(parts[k], dotted);
    }
  }

  lemma FoldedBounded(parts: seq<Part>)
    requires AllBounded(parts)
    ensures AllBounded(FoldParts(parts))
  {
    forall k | 0 <= k < |parts| ensures Bounded(CapitalPart(parts[k])) { assert Bounded(parts[k]); }
  }

  // ----- a numeric range in brackets -----

  lemma BracketRange(s: string, i: nat, lo: Option<nat>, up: Option<nat>, post: string)
    requires i <= |s| && s[i..] == "[" + Written(lo) + ".." + Written(up) + "]" + post
    ensures i < |s| && s[i] == '['
    ensures NumRangeAt(s, i, ']') == Some((Stored(lo), Stored(up), i + |Written(lo)| + |Written(up)| + 3))
  {
    RangeAt(s, i, '[', ']', lo, up, post);
  }

  /** A text is read up to the bracket that opens a range, with the bracket. */
  lemma {:induction false} LiteralToRange(s: string, i: nat, a: string, post: string)
    requires i <= |s| && s[i..] == a + post && !ContainsWildcards(a)
    requires post != "" && post[0] == '[' && NumRangeAt(s, i + |a|, ']').Some?
    ensures LiteralAt(s, i) == Some((a + "[", i + |a|))
    decreases a
  {
    hide NumRangeAt;
    if a == "" {
      assert s[i] == s[i..][0] && s[i..i + 1] == "[" && a + "[" == "[";
      assert NumRangeAt(s, i, ']').Some?;
    } else {
      assert s[i] == s[i..][0] == a[0] && a[0] in a;
      assert s[i + 1..] == a[1..] + post by { assert s[i + 1..] == s[i..][1..]; }
      PlainTail(a);
      LiteralToRange(s, i + 1, a[1..], post);
      NoRangeIn(s, i, a, post);
      assert s[i..i + 1] == [a[0]] && [a[0]] + (a[1..] + "[") == a + "[";
    }
  }

  lemma BehindBracket(b: string)
    requires !ContainsWildcards(b)
    ensures !ContainsWildcards("]" + b)
  {
    var t := "]" + b;
    forall c | c in t ensures c == ']' || c in b { }
    forall i | 0 <= i < |t| - 1 ensures !(t[i] == '.' && t[i + 1] == '.') {
      if i > 0 { assert !(b[i - 1] == '.' && b[i] == '.'); }
    }
  }

  /** "[lo..up]" between texts stands for the brackets with a number between. */
  lemma BracketRead(a: string, lo: Option<nat>, up: Option<nat>, b: string, dotted: bool)
    requires !ContainsWildcards(a) && !ContainsWildcards(b)
    ensures Tokens(a + ("[" + Written(lo) + ".." + Written(up) + "]" + b), 0, dotted, []) ==
            Ok([LiteralString(a + "["), NumRange(Stored(lo), Stored(up)), LiteralString("]" + b)])
  {
    hide NumRangeAt, LiteralAt, Written, Stored;
    var r := "[" + Written(lo) + ".." + Written(up) + "]" + b;
    var s := a + r;
    var i: nat := |a|;
    var j: nat := i + |Written(lo)| + |Written(up)| + 3;
    assert s[i..] == r && s[0..] == a + r && s[j..] == "]" + b + "";
    BracketRange(s, i, lo, up, b);
    LiteralToRange(s, 0, a, r);
    BehindBracket(b);
    PlainRead(s, j, "]" + b, "");
    if a != "" { assert s[0] == a[0] && a[0] in a; }
    assert s[j] == s[j..][0];
    var end: nat := |s|;
    var e1, e2, e3 := LiteralString(a + "["), NumRange(Stored(lo), Stored(up)), LiteralString("]" + b);
    assert ElemAt(s, 0, dotted, []) == Ok((e1, i));
    assert ElemAt(s, i, dotted, [e1]) == Ok((e2, j));
    assert ElemAt(s, j, dotted, [e1, e2]) == Ok((e3, end));
    ThreeTokens(s, i, j, dotted, e1, e2, e3);
  }

  lemma ThreeTokens(s: string, i: nat, j: nat, dotted: bool, e1: Elem, e2: Elem, e3: Elem)
    requires i < j < |s| && e1.LiteralString? && !e2.LiteralString?
    requires ElemAt(s, 0, dotted, []) == Ok((e1, i)) && ElemAt(s, i, dotted, [e1]) == Ok((e2, j))
    requires var end: nat := |s|; ElemAt(s, j, dotted, [e1, e2]) == Ok((e3, end))
    ensures Tokens(s, 0, dotted, []) == Ok([e1, e2, e3])
  {
    hide ElemAt;
    assert [] + [e1] == [e1] && [e1] + [e2] == [e1, e2] && [e1, e2] + [e3] == [e1, e2, e3];
    assert Tokens(s, |s|, dotted, [e1, e2, e3]) == Ok([e1, e2, e3]);
    assert Tokens(s, j, dotted, [e1, e2]) == Ok([e1, e2, e3]);
    assert Tokens(s, i, dotted, [e1]) == Ok([e1, e2, e3]);
  }

  /** Such a pattern accepts the texts around a bracketed number between the bounds. */
  lemma BracketMeans(a: string, lo: Option<nat>, up: Option<nat>, b: string, dotted: bool, line: string)
    requires !ContainsWildcards(a) && !ContainsWildcards(b) && Bounded(Numbers(lo, up))
    ensures AcceptsLine(a + ("[" + Written(lo) + ".." + Written(up) + "]" + b), dotted, line) <==>
            exists n :: n != "" && AllDigits(n) && Meant(Number(n), lo, up) && line == a + "[" + n + ("]" + b)
  {
    hide Spells, Accepts, Written, Number;
    BracketRead(a, lo, up, b, dotted);
    var parts := [Plain(a + "["), Numbers(lo, up), Plain("]" + b)];
    var q := [LiteralString(a + "["), NumRange(Stored(lo), Stored(up)), LiteralString("]" + b)];
    assert ElemsFor(parts, dotted) == q && parts[0..] == parts && line[0..] == line;
    SpellsAccepted(parts, q + [End], 0, line, 0, dotted, true);
    ThreeSpelled(a + "[", lo, up, "]" + b, line, dotted);
  }

  lemma ThreeSpelled(a: string, lo: Option<nat>, up: Option<nat>, b: string, line: string, dotted: bool)
    requires b != "" && !IsDigit(b[0])
    ensures Spells([Plain(a), Numbers(lo, up), Plain(b)], line, dotted, true) <==>
            exists n :: n != "" && AllDigits(n) && Meant(Number(n), lo, up) && line == a + n + b
  {
    hide Spells, Number;
    var rest := [Numbers(lo, up), Plain(b)];
    assert [Plain(a), Numbers(lo, up), Plain(b)] == [Plain(a)] + rest;
    TextSpelled(a, rest, line, dotted);
    if |line| >= |a| && line[..|a|] == a {
      NumberSpelled(lo, up, b, line[|a|..], dotted);
      forall n ensures line[|a|..] == n + b <==>
        line == a + n + b { Behind(line, a, n + b); assert a + (n + b) == a + n + b; }
    }
  }

  lemma Behind(line: string, a: string, t: string)
    requires |line| >= |a| && line[..|a|] == a
    ensures line[|a|..] == t <==> line == a + t
  {
  }

  lemma NumberSpelled(lo: Option<nat>, up: Option<nat>, b: string, line: string, dotted: bool)
    requires b != "" && !IsDigit(b[0])
    ensures Spells([Numbers(lo, up), Plain(b)], line, dotted, true) <==>
            exists n :: n != "" && AllDigits(n) && Meant(Number(n), lo, up) && line == n + b
  {
    hide Number, AllDigits, Fits, Meant;
    var parts := [Numbers(lo, up), Plain(b)];
    assert parts[1..] == [Plain(b)];
    forall j: nat | j <= |line|
      ensures Begins(parts, line, j, dotted) && Spells(parts[1..], line[j..], dotted, true) <==>
              NumberBefore(line, j, lo, up, b)
    {
      OneSpelled(Plain(b), line[j..], dotted);
      NumberFirst(parts, line, j, lo, up, b, dotted);
    }
    NumberSomewhere(line, lo, up, b);
  }

  /** The line is a number between the bounds, up to j, and then b. */
  predicate NumberBefore(line: string, j: nat, lo: Option<nat>, up: Option<nat>, b: string)
    requires j <= |line|
  {
    line[j..] == b && line[..j] != "" && AllDigits(line[..j]) && Meant(Number(line[..j]), lo, up)
  }

  lemma NumberFirst(parts: seq<Part>, line: string, j: nat, lo: Option<nat>, up: Option<nat>, b: string, dotted: bool)
    requires j <= |line| && parts != [] && parts[0] == Numbers(lo, up) && b != "" && !IsDigit(b[0])
    ensures Begins(parts, line, j, dotted) && Fits(Plain(b), line[j..], "", dotted) <==>
            NumberBefore(line, j, lo, up, b)
  {
    hide Number, AllDigits, Meant;
  }

  lemma NumberSomewhere(line: string, lo: Option<nat>, up: Option<nat>, b: string)
    ensures (exists j: nat :: j <= |line| && NumberBefore(line, j, lo, up, b)) <==>
            exists n :: n != "" && AllDigits(n) && Meant(Number(n), lo, up) && line == n + b
  {
    hide Number, AllDigits, Meant;
    if j: nat :| j <= |line| && NumberBefore(line, j, lo, up, b) {
      assert line == line[..j] + b;
    }
    if n :| n != "" && AllDigits(n) && Meant(Number(n), lo, up) && line == n + b {
      var j: nat := |n|;
      assert line[..j] == n && line[j..] == b && NumberBefore(line, j, lo, up, b);
    }
  }
}
