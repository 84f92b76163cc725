/** The text an Int128 prints as and the integer a text is read as (int128.cc, toString and set). */
module Int128Text {
  import opened Options
  import opened Powers
  import opened Int128Words
  import opened Int128Division

  function DigitChar(c: nat): char
    requires c <= 36
  {
    if c > 9 then ('A' as int - 10 + c) as char else ('0' as int + c) as char
  }

  /** Most significant digit first; nothing for zero. */
  function Digits(v: nat, radix: nat): string
    requires 2 <= radix <= 37
  {
    if v == 0 then "" else Digits(v / radix, radix) + [DigitChar(v % radix)]
  }

  /** What toString leaves to print of a magnitude: INT128_MIN, its own magnitude, prints as one zero. */
  function Magnitude(v: Wide, radix: nat): string
    requires 2 <= radix <= 37
  {
    if v < 0 then "0" else Digits(v, radix)
  }

  function Text(v: Wide, radix: nat): string {
    if v == 0 then "0"
    else if radix < 2 || radix > 37 then "(invalid radix)"
    else (if v < 0 then "-" else "") + Magnitude(Wrap(Abs(v)), radix)
  }

  /** The value of one character; the upper letter bounds admit one letter too many. */
  function DigitOf(c: char, radix: nat): Option<nat> {
    var x := c as int;
    if '0' <= c <= '9' && x < '0' as int + radix then Some(x - '0' as int)
    else if 'a' <= c && x <= 'a' as int + radix - 10 then Some(x - 'a' as int + 10)
    else if 'A' <= c && x <= 'A' as int + radix - 10 then Some(x - 'A' as int + 10)
    else None
  }

  /** Reading on from a value until a character is no digit. */
  function ReadFrom(s: string, radix: nat, v: Wide): Wide {
    if s == "" then v
    else
      match DigitOf(s[0], radix)
      case None => v
      case Some(n) => ReadFrom(s[1..], radix, Wrap(Wrap(v * radix) + n))
  }

  /** The radix a prefix announces and where the digits start. */
  function Prefix(s: string): (r: (nat, nat))
    ensures r.1 <= |s|
  {
    if s == "" || s[0] != '0' then (10, 0)
    else if |s| > 1 && s[1] == 'x' then (16, 2)
    else (8, 1)
  }

  function ReadUnsigned(s: string): Wide {
    var (radix, start) := Prefix(s);
    ReadFrom(s[start..], radix, 0)
  }

  function Read(s: string): Wide {
    if s != "" && s[0] == '-' then Wrap(0 - ReadUnsigned(s[1..])) else ReadUnsigned(s)
  }

  /** What is still to be printed of a value the digit loop has reached. */
  function Unprinted(v: Wide, radix: nat): string
    requires 2 <= radix <= 37
  {
    if v == 0 then "" else Magnitude(v, radix)
  }

  lemma TextCases(v: Wide, radix: nat)
    ensures v == 0 ==> Text(v, radix) == "0"
    ensures v != 0 && (radix < 2 || radix > 37) ==> Text(v, radix) == "(invalid radix)"
    ensures v != 0 && 2 <= radix <= 37 ==>
            Text(v, radix) == (if v < 0 then "-" else "") + Magnitude(Wrap(Abs(v)), radix)
  {
  }

  /** One division splits off the last digit of what is still to be printed. */
  lemma LastDigit(v: Wide, radix: nat, q: Wide, r: Wide)
    requires v > 0 || IsMin(v)
    requires 2 <= radix <= 37 && Divided(v, radix, q, r)
    ensures q >= 0 && r % M64 % 0x1_0000_0000 <= 36
    ensures Unprinted(v, radix) == Unprinted(q, radix) + [DigitChar(r % M64 % 0x1_0000_0000)]
  {
    if v > 0 {
      Positive(v, radix, q, r);
      SmallMod(r, M64);
      SmallMod(r, 0x1_0000_0000);
      assert Digits(0, radix) == "";
    } else {
      assert "" + ['0'] == "0";
    }
  }

  lemma Positive(v: Wide, radix: nat, q: Wide, r: Wide)
    requires v > 0 && 2 <= radix <= 37 && Divided(v, radix, q, r)
    ensures q == v / radix >= 0 && 0 <= r == v % radix < radix
  {
    Opposite(q, radix);
    DivModUnique(v, radix, q, r);
  }

  lemma UnprintedShort(v: Wide, radix: nat)
    requires 2 <= radix <= 37
    ensures |Unprinted(v, radix)| <= 127
    ensures v != 0 ==> Unprinted(v, radix) == Magnitude(v, radix)
    ensures Unprinted(0, radix) == ""
  {
    MagnitudeShort(v, radix);
  }

  predicate IsMin(v: Wide) { v == -M127 }

  lemma MagnitudeSign(v: Wide)
    ensures Wrap(Abs(v)) >= 0 || IsMin(Wrap(Abs(v)))
    ensures v != 0 ==> Wrap(Abs(v)) != 0
  {
    if v == -M127 { WrapUnique(M127, -M127, -1); } else { WrapOfSmall(Abs(v)); }
  }

  lemma NotMin(radix: int)
    requires radix >= 0
    ensures radix != -M127
  {
  }

  lemma Append(all: string, front: string, c: char, rest: string)
    requires all == (front + [c]) + rest
    ensures all == front + ([c] + rest)
  {
  }

  lemma ReadCases(s: string)
    ensures s == "" ==> Read(s) == 0
    ensures s != "" && s[0] == '-' ==> Read(s) == Wrap(0 - ReadUnsigned(s[1..]))
    ensures s != "" && s[0] != '-' ==> Read(s) == ReadUnsigned(s) && s[0..] == s
  {
  }

  lemma PrefixRead(s: string, start: nat, radix: nat, i: nat)
    requires start <= i <= |s|
    requires Prefix(s[start..]) == (radix, i - start)
    ensures ReadUnsigned(s[start..]) == ReadFrom(s[i..], radix, 0)
  {
    assert s[start..][i - start..] == s[i..];
  }

  lemma PrefixCases(s: string)
    ensures s == "" || s[0] != '0' ==> Prefix(s) == (10, 0)
    ensures |s| > 1 && s[0] == '0' && s[1] == 'x' ==> Prefix(s) == (16, 2)
    ensures |s| > 0 && s[0] == '0' && (|s| == 1 || s[1] != 'x') ==> Prefix(s) == (8, 1)
  {
  }

  /** The two outcomes at one character, and the end of the text. */
  lemma ReadStep(s: string, i: nat, radix: nat, v: Wide)
    requires i < |s| && radix <= 16
    ensures match DigitOf(s[i], radix)
            case None => ReadFrom(s[i..], radix, v) == v
            case Some(n) =>
              && ReadFrom(s[i..], radix, v) == ReadFrom(s[i + 1..], radix, Wrap(Wrap(v * radix) + n))
              && n <= 64
  {
    assert s[i..][1..] == s[i + 1..];
  }

  lemma ReadEnd(s: string, radix: nat, v: Wide)
    ensures ReadFrom(s[|s|..], radix, v) == v
  {
  }

  // ----- the round trip -----

  predicate AllDigits(s: string, radix: nat) {
    forall i :: 0 <= i < |s| ==> DigitOf(s[i], radix).Some?
  }

  lemma {:induction false} ReadOneMore(s: string, c: char, radix: nat, v: Wide)
    requires AllDigits(s, radix) && DigitOf(c, radix).Some?
    ensures ReadFrom(s + [c], radix, v) == Wrap(Wrap(ReadFrom(s, radix, v) * radix) + DigitOf(c, radix).value)
  {
    hide Wrap, DigitOf;
    if s == "" {
      assert s + [c] == [c] && [c][1..] == "";
      assert ReadFrom("", radix, Wrap(Wrap(v * radix) + DigitOf(c, radix).value)) ==
        Wrap(Wrap(v * radix) + DigitOf(c, radix).value);
    } else {
      assert (s + [c])[1..] == s[1..] + [c] && (s + [c])[0] == s[0];
      ReadOneMore(s[1..], c, radix, Wrap(Wrap(v * radix) + DigitOf(s[0], radix).value));
    }
  }

  /** Reading the digits of a number in the radix they were printed in gives the number. */
  lemma {:induction false} ReadDigits(v: nat, radix: nat)
    requires 2 <= radix <= 36 && v < M127
    ensures AllDigits(Digits(v, radix), radix) && ReadFrom(Digits(v, radix), radix, 0) == v
  {
    hide Wrap;
    if v > 0 {
      QuotientSmaller(v, radix);
      ReadDigits(v / radix, radix);
      assert DigitOf(DigitChar(v % radix), radix) == Some(v % radix);
      ReadOneMore(Digits(v / radix, radix), DigitChar(v % radix), radix, 0);
      WrapOfSmall(v / radix * radix);
      WrapOfSmall(v);
    }
  }

  lemma QuotientSmaller(v: nat, radix: nat)
    requires v > 0 && radix >= 2
    ensures 0 <= v / radix < v && v / radix * radix + v % radix == v && 0 <= v / radix * radix <= v
  {
  }

  /** The digits of a positive number do not start with a zero or a sign, so no prefix is seen in them. */
  lemma {:induction false} NoLeadingZero(v: nat, radix: nat)
    requires 2 <= radix <= 37 && v > 0
    ensures Digits(v, radix) != "" && Digits(v, radix)[0] != '0' && Digits(v, radix)[0] != '-'
  {
    QuotientSmaller(v, radix);
    if v / radix > 0 { NoLeadingZero(v / radix, radix); } else { assert v % radix == v; }
  }

  /** Every number fits the buffer: n binary digits print as at most n digits. */
  lemma {:induction false} DigitsShort(v: nat, radix: nat, n: nat)
    requires 2 <= radix <= 37 && v < Pow2(n)
    ensures |Digits(v, radix)| <= n
  {
    if v > 0 {
      HalfAtMost(v, radix);
      DigitsShort(v / radix, radix, n - 1);
    }
  }

  lemma HalfAtMost(v: nat, radix: nat)
    requires radix >= 2
    ensures 0 <= v / radix <= v / 2
  {
    var q := v / radix;
    MulMono(2, radix, q);
    WholeParts(v, radix);
  }

  lemma MagnitudeShort(v: Wide, radix: nat)
    requires 2 <= radix <= 37
    ensures |Magnitude(v, radix)| <= 127
  {
    if v >= 0 {
      Pow2Words();
      DigitsShort(v, radix, 127);
    }
  }

  /** Printing in decimal and reading back gives the same number, except for INT128_MIN, which reads back as zero. */
  lemma RoundTrip(v: Wide)
    ensures Read(Text(v, 10)) == v <==> v != -M127
    ensures Text(-M127, 10) == "-0"
  {
    WrapUnique(M127, -M127, -1);
    WrapOfSmall(0);
    if v == 0 {
      assert "0"[1..] == "";
    } else if v == -M127 {
      assert "-0"[1..] == "0" && "0"[1..] == "";
    } else {
      WrapOfSmall(Abs(v));
      ReadPrinted(Abs(v));
      var s := Digits(Abs(v), 10);
      assert ("-" + s)[1..] == s && "" + s == s;
      WrapOfSmall(v);
    }
  }

  lemma ReadPrinted(v: nat)
    requires 0 < v < M127
    ensures Digits(v, 10) != "" && Digits(v, 10)[0] != '-' && ReadUnsigned(Digits(v, 10)) == v
  {
    var s := Digits(v, 10);
    NoLeadingZero(v, 10);
    ReadDigits(v, 10);
    assert s[0..] == s;
  }

  // ----- which characters are read -----

  /** The letter after the last digit of the radix, which is read as the radix itself. */
  predicate ExtraLetter(c: char, radix: nat) {
    radix >= 10 && (c as int == 'a' as int + radix - 10 || c as int == 'A' as int + radix - 10)
  }

  /** A digit of the radix. */
  predicate IsDigitOf(c: char, radix: nat) {
    DigitOf(c, radix).Some? && DigitOf(c, radix).value < radix
  }

  /** A character is read that is no digit of the radix exactly if it is that letter; in octal there is none. */
  lemma DigitsExactly(c: char, radix: nat)
    requires radix == 8 || radix == 10 || radix == 16
    ensures (DigitOf(c, radix).Some? <==> IsDigitOf(c, radix)) <==> !ExtraLetter(c, radix)
    ensures ExtraLetter(c, radix) ==> DigitOf(c, radix) == Some(radix)
  {
  }

  /** How many characters are read. */
  function ReadLength(s: string, radix: nat): (k: nat)
    ensures k <= |s|
  {
    if s == "" || DigitOf(s[0], radix).None? then 0 else 1 + ReadLength(s[1..], radix)
  }

  /** How many digits of the radix the text starts with. */
  function DigitsLength(s: string, radix: nat): (k: nat)
    ensures k <= |s| && (k < |s| ==> !IsDigitOf(s[k], radix)) && forall i :: 0 <= i < k ==> IsDigitOf(s[i], radix)
  {
    if s == "" || !IsDigitOf(s[0], radix) then 0 else 1 + DigitsLength(s[1..], radix)
  }

  /** Only the characters counted make the value. */
  lemma {:induction false} ReadCounted(s: string, radix: nat, v: Wide)
    ensures ReadLength(s, radix) <= |s| && ReadFrom(s, radix, v) == ReadFrom(s[..ReadLength(s, radix)], radix, v)
  {
    hide Wrap, DigitOf;
    var k := ReadLength(s, radix);
    if s != "" && DigitOf(s[0], radix).Some? {
      ReadCounted(s[1..], radix, Wrap(Wrap(v * radix) + DigitOf(s[0], radix).value));
      assert s[..k][1..] == s[1..][..k - 1];
    }
  }

  /** Reading stops at the first character that is no digit of the radix if and only if that is not the extra letter. */
  lemma {:induction false} StopsExactly(s: string, radix: nat)
    requires radix == 8 || radix == 10 || radix == 16
    ensures var k := DigitsLength(s, radix);
            ReadLength(s, radix) == k <==> k == |s| || !ExtraLetter(s[k], radix)
  {
    if s != "" {
      DigitsExactly(s[0], radix);
      StopsExactly(s[1..], radix);
    }
  }

  /** The same for a whole text: after the sign and the prefix, reading stops where it should or one letter too late. */
  lemma TextStopsExactly(s: string)
    ensures var u := if s != "" && s[0] == '-' then s[1..] else s;
            var (radix, start) := Prefix(u);
            var k := DigitsLength(u[start..], radix);
            && ReadUnsigned(u) == ReadFrom(u[start..][..ReadLength(u[start..], radix)], radix, 0)
            && (ReadLength(u[start..], radix) == k <==> k == |u[start..]| || !ExtraLetter(u[start..][k], radix))
  {
    var u := if s != "" && s[0] == '-' then s[1..] else s;
    var (radix, start) := Prefix(u);
    StopsExactly(u[start..], radix);
    ReadCounted(u[start..], radix, 0);
  }

  /** A decimal text with the extra letter: 1, and then ten more. */
  lemma ExtraLetterRead()
    ensures Read("1a") == 20 && ExtraLetter('a', 10) && !IsDigitOf('a', 10)
  {
    assert "1a"[1..] == "a" && "a"[1..] == "" && "1a"[0..] == "1a";
    WrapOfSmall(0);
    WrapOfSmall(1);
    WrapOfSmall(10);
    WrapOfSmall(20);
    assert ReadFrom("a", 10, 1) == 20;
    assert ReadFrom("1a", 10, 0) == ReadFrom("a", 10, 1);
  }

  // ----- texts with a prefix -----

  /** Hexadecimal digits behind their prefix read as the number, with a minus as its negative. */
  lemma HexadecimalRead(v: Wide)
    requires v >= 0
    ensures Read("0x" + Digits(v, 16)) == v && Read("-" + ("0x" + Digits(v, 16))) == -v
  {
    hide Digits, ReadFrom, Wrap;
    var h := "0x" + Digits(v, 16);
    assert h[2..] == Digits(v, 16);
    ReadDigits(v, 16);
    MinusRead(h);
    WrapOfSmall(0 - v);
  }

  /** So do octal digits behind a zero. */
  lemma OctalRead(v: Wide)
    requires v >= 0
    ensures Read("0" + Digits(v, 8)) == v && Read("-" + ("0" + Digits(v, 8))) == -v
  {
    hide Digits, ReadFrom, Wrap, Prefix;
    var o := "0" + Digits(v, 8);
    assert o[1..] == Digits(v, 8);
    ReadDigits(v, 8);
    OctalPrefix(v);
    MinusRead(o);
    WrapOfSmall(0 - v);
  }

  lemma MinusRead(u: string)
    ensures Read("-" + u) == Wrap(0 - ReadUnsigned(u))
  {
    assert ("-" + u)[1..] == u;
  }

  lemma OctalPrefix(v: nat)
    ensures Prefix("0" + Digits(v, 8)) == (8, 1)
  {
    if v > 0 {
      AllOctal(v);
      assert ("0" + Digits(v, 8))[1] == Digits(v, 8)[0];
    }
  }

  lemma {:induction false} AllOctal(v: nat)
    requires v > 0
    ensures Digits(v, 8) != "" && 'x' !in Digits(v, 8)
  {
    QuotientSmaller(v, 8);
    if v / 8 > 0 { AllOctal(v / 8); } else { assert Digits(v / 8, 8) == ""; }
  }
}
