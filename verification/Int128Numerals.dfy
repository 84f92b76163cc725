/** What the texts of toString and set mean as numerals: the weighted values of their characters. */
module Int128Numerals {
  import opened Options
  import opened Powers
  import opened Int128Words
  import opened Int128Division
  import opened Int128Text

  /** The digits 0 to 9, then the letters in either case; behind the capital Z comes the bracket, worth 36. */
  function Worth(c: char): int {
    if '0' <= c <= '9' then c as int - '0' as int
    else if 'A' <= c <= '[' then c as int - 'A' as int + 10
    else if 'a' <= c <= 'z' then c as int - 'a' as int + 10
    else -1
  }

  /** Every character counts radix times as much as the one behind it. */
  function Weighted(s: string, radix: nat): int {
    if s == "" then 0 else Weighted(s[..|s| - 1], radix) * radix + Worth(s[|s| - 1])
  }

  /** The numeral of a number in capital letters, without leading zeros. */
  predicate Numeral(s: string, radix: nat, v: int) {
    && (forall i :: 0 <= i < |s| ==> ('0' <= s[i] <= '9' || 'A' <= s[i] <= '[') && 0 <= Worth(s[i]) < radix)
    && (s != "" ==> s[0] != '0')
    && Weighted(s, radix) == v
  }

  /** A number has one numeral. */
  lemma {:induction false} OneNumeral(s: string, t: string, radix: nat, v: int)
    requires 2 <= radix <= 37 && Numeral(s, radix, v) && Numeral(t, radix, v)
    ensures s == t
    decreases |s| + |t|
  {
    NumeralSign(s, radix, v);
    NumeralSign(t, radix, v);
    if s != "" && t != "" {
      var a, b := s[..|s| - 1], t[..|t| - 1];
      var c, d := s[|s| - 1], t[|t| - 1];
      DivModUnique(v, radix, Weighted(a, radix), Worth(c));
      DivModUnique(v, radix, Weighted(b, radix), Worth(d));
      OneNumeral(a, b, radix, Weighted(a, radix));
      assert s == a + [c] && t == b + [d];
    }
  }

  lemma TimesRadix(a: int, radix: nat, d: int)
    requires a >= 0 && radix >= 2 && d >= 0
    ensures a * radix + d >= a + d
  {
  }

  lemma {:induction false} NumeralSign(s: string, radix: nat, v: int)
    requires 2 <= radix <= 37 && Numeral(s, radix, v)
    ensures v >= 0 && (v == 0 <==> s == "")
    decreases s
  {
    if s != "" {
      var a, c := s[..|s| - 1], s[|s| - 1];
      NumeralSign(a, radix, Weighted(a, radix));
      TimesRadix(Weighted(a, radix), radix, Worth(c));
    }
  }

  lemma CharWorth(d: nat)
    requires d <= 36
    ensures var c := DigitChar(d); ('0' <= c <= '9' || 'A' <= c <= '[') && Worth(c) == d
  {
  }

  /** A numeral with one more character. */
  lemma NumeralMore(a: string, c: char, radix: nat, v: int)
    requires Numeral(a, radix, v) && ('0' <= c <= '9' || 'A' <= c <= '[') && 0 <= Worth(c) < radix
    requires a == "" ==> c != '0'
    ensures Numeral(a + [c], radix, v * radix + Worth(c))
  {
    hide Worth;
    assert (a + [c])[..|a|] == a;
  }

  /** What is printed of a number is its numeral. */
  lemma {:induction false} PrintedNumeral(v: nat, radix: nat)
    requires 2 <= radix <= 37
    ensures Numeral(Digits(v, radix), radix, v)
  {
    if v > 0 {
      hide Numeral, DigitChar, Worth;
      QuotientSmaller(v, radix);
      PrintedNumeral(v / radix, radix);
      NoLeadingZero(v, radix);
      CharWorth(v % radix);
      NumeralMore(Digits(v / radix, radix), DigitChar(v % radix), radix, v / radix);
    }
  }

  /** What toString prints of a value: the numeral of its magnitude behind its sign, but for zero and INT128_MIN. */
  predicate Prints(s: string, radix: nat, v: int) {
    if v == 0 then s == "0"
    else if v == -M127 then s == "-0"
    else if v < 0 then s != "" && s[0] == '-' && Numeral(s[1..], radix, -v)
    else Numeral(s, radix, v)
  }

  lemma TextPrints(v: Wide, radix: nat)
    requires 2 <= radix <= 37
    ensures Prints(Text(v, radix), radix, v)
  {
    hide Numeral, Digits;
    TextCases(v, radix);
    if v == -M127 {
      WrapUnique(M127, -M127, -1);
    } else if v != 0 {
      WrapOfSmall(Abs(v));
      var d := Digits(Abs(v), radix);
      PrintedNumeral(Abs(v), radix);
      assert ("-" + d)[1..] == d && "" + d == d;
    }
  }

  // ----- reading -----

  /** The characters set goes on at: digits of the radix, and the letter that would be worth the radix. */
  predicate Taken(c: char, radix: nat) {
    ('0' <= c <= '9' && Worth(c) < radix) || (('A' <= c <= 'Z' || 'a' <= c <= 'z') && Worth(c) <= radix)
  }

  lemma DigitWorth(c: char, radix: nat)
    requires radix == 8 || radix == 10 || radix == 16
    ensures DigitOf(c, radix) == if Taken(c, radix) then Some(Worth(c)) else None
  {
  }

  lemma WrapFactor(x: int, r: int, n: int)
    ensures Wrap(Wrap(Wrap(x) * r) + n) == Wrap(x * r + n)
  {
    var k := WrapQuotient(x);
    WrapAbsorbs(Wrap(x) * r, n);
    assert Wrap(x) * r + n == (x * r + n) + (k * r) * M128 by {
      assert (x + k * M128) * r == x * r + (k * r) * M128;
    }
    WrapShift(x * r + n, k * r);
  }

  /** Characters that are all taken read as their weighted value modulo 2^128. */
  lemma {:induction false} TakenRead(s: string, radix: nat)
    requires radix == 8 || radix == 10 || radix == 16
    requires forall i :: 0 <= i < |s| ==> Taken(s[i], radix)
    ensures AllDigits(s, radix) && ReadFrom(s, radix, 0) == Wrap(Weighted(s, radix))
    decreases s
  {
    hide Taken, DigitOf, Wrap, Worth;
    if s == "" {
      WrapOfSmall(0);
    } else {
      var a, c := s[..|s| - 1], s[|s| - 1];
      TakenRead(a, radix);
      DigitWorth(c, radix);
      assert s == a + [c];
      ReadOneMore(a, c, radix, 0);
      WrapFactor(Weighted(a, radix), radix, Worth(c));
    }
  }

  lemma {:induction false} LengthTaken(s: string, radix: nat, k: nat)
    requires radix == 8 || radix == 10 || radix == 16
    requires k <= |s| && (forall i :: 0 <= i < k ==> Taken(s[i], radix)) && (k < |s| ==> !Taken(s[k], radix))
    ensures ReadLength(s, radix) == k
    decreases k
  {
    hide Taken, DigitOf;
    if s != "" { DigitWorth(s[0], radix); }
    if k > 0 { LengthTaken(s[1..], radix, k - 1); }
  }

  /** The characters taken from start on end there. */
  predicate UpTo(s: string, start: int, end: int, radix: nat) {
    && 0 <= start <= end <= |s| && (forall i :: start <= i < end ==> Taken(s[i], radix))
    && (end < |s| ==> !Taken(s[end], radix))
  }

  /**
   * What set makes of a text: behind an optional minus, "0x" announces radix 16 and another "0" radix 8; then the
   * characters up to the first that is not taken count by their weight, modulo 2^128.
   */
  ghost predicate Means(s: string, v: int) {
    var sign := if s != "" && s[0] == '-' then 1 else 0;
    var radix := if |s| > sign + 1 && s[sign] == '0' && s[sign + 1] == 'x' then 16
                 else if |s| > sign && s[sign] == '0' then 8 else 10;
    var start := if radix == 16 then sign + 2 else if radix == 8 then sign + 1 else sign;
    exists end :: UpTo(s, start, end, radix)
      && v == Wrap(if sign == 1 then -Weighted(s[start..end], radix) else Weighted(s[start..end], radix))
  }

  lemma {:induction false} TakenUpTo(s: string, i: nat, radix: nat) returns (end: nat)
    requires i <= |s|
    ensures UpTo(s, i, end, radix)
    decreases |s| - i
  {
    end := i;
    if i < |s| && Taken(s[i], radix) { end := TakenUpTo(s, i + 1, radix); }
  }

  /** The characters behind the prefix. */
  lemma ReadBehind(s: string, start: nat, end: nat, radix: nat)
    requires radix == 8 || radix == 10 || radix == 16
    requires UpTo(s, start, end, radix)
    ensures ReadFrom(s[start..], radix, 0) == Wrap(Weighted(s[start..end], radix))
  {
    hide Taken, Wrap, ReadFrom;
    var t, k := s[start..], end - start;
    LengthTaken(t, radix, k);
    ReadCounted(t, radix, 0);
    assert t[..k] == s[start..end];
    TakenRead(s[start..end], radix);
  }

  /** Where the sign ends, what radix the prefix announces, and where the digits start. */
  lemma PrefixAt(s: string, sign: nat, radix: nat, start: nat)
    requires sign <= |s|
    requires radix == if |s| > sign + 1 && s[sign] == '0' && s[sign + 1] == 'x' then 16
                      else if |s| > sign && s[sign] == '0' then 8 else 10
    requires start == if radix == 16 then sign + 2 else if radix == 8 then sign + 1 else sign
    ensures start <= |s| && ReadUnsigned(s[sign..]) == ReadFrom(s[start..], radix, 0)
  {
    hide ReadFrom;
    var u := s[sign..];
    assert Prefix(u) == (radix, start - sign);
    assert u[start - sign..] == s[start..];
  }

  lemma ReadMeans(s: string)
    ensures Means(s, Read(s))
  {
    hide UpTo, Wrap, ReadUnsigned, ReadFrom, Weighted;
    var sign := if s != "" && s[0] == '-' then 1 else 0;
    var radix := if |s| > sign + 1 && s[sign] == '0' && s[sign + 1] == 'x' then 16
                 else if |s| > sign && s[sign] == '0' then 8 else 10;
    var start := if radix == 16 then sign + 2 else if radix == 8 then sign + 1 else sign;
    PrefixAt(s, sign, radix, start);
    var end := TakenUpTo(s, start, radix);
    ReadBehind(s, start, end, radix);
    WrapNegated(Weighted(s[start..end], radix));
    assert s[0..] == s;
  }

  lemma WrapNegated(x: int)
    ensures Wrap(0 - Wrap(x)) == Wrap(-x)
  {
    var k := WrapQuotient(x);
    WrapShift(-x, -k);
    assert 0 - Wrap(x) == -x + (-k) * M128;
  }

  lemma DigitTaken(c: char, radix: nat)
    requires radix == 8 || radix == 10 || radix == 16
    requires 0 <= Worth(c) < radix
    ensures Taken(c, radix) && c != '-' && c != 'x'
  {
  }

  /** The prefix announces the radix. */
  lemma Announced(p: string, d: string, radix: nat)
    requires p == if radix == 16 then "0x" else if radix == 8 then "0" else ""
    requires radix == 8 || radix == 10 || radix == 16
    requires d != "" ==> d[0] != 'x' && (radix == 10 ==> d[0] != '0')
    ensures Prefix(p + d) == (radix, |p|) && (p + d)[|p|..] == d
  {
    assert (p + d)[|p|..] == d;
    if d != "" { assert (p + d)[|p|] == d[0]; }
  }

  /**
   * A decimal text without a leading zero, any octal text behind "0" and any hexadecimal one behind "0x" is its weight.
   */
  lemma WeightRead(d: string, radix: nat)
    requires radix == 8 || radix == 10 || radix == 16
    requires forall i :: 0 <= i < |d| ==> 0 <= Worth(d[i]) < radix
    requires radix == 10 && d != "" ==> d[0] != '0'
    ensures var s := (if radix == 16 then "0x" else if radix == 8 then "0" else "") + d;
            Read(s) == Wrap(Weighted(d, radix)) && Read("-" + s) == Wrap(-Weighted(d, radix))
  {
    hide Wrap, ReadFrom, Weighted, Prefix, Taken, Worth;
    var p := if radix == 16 then "0x" else if radix == 8 then "0" else "";
    var s := p + d;
    forall i | 0 <= i < |d| ensures Taken(d[i], radix) && d[i] != '-' && d[i] != 'x' { DigitTaken(d[i], radix); }
    Announced(p, d, radix);
    assert d[0..|d|] == d && d[0..] == d;
    ReadBehind(d, 0, |d|, radix);
    WrapNegated(Weighted(d, radix));
    assert s == "" || s[0] != '-';
    MinusRead(s);
  }
}
