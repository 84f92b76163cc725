/**
 * The 128-bit signed integer of two 64-bit halves (int128.h, int128.cc). The compound operators change
 * the object in place and may be handed the object itself as operand; the binary ones work on copies.
 */
module Int128s {
  import opened Options
  import opened Powers
  import opened Int128Words
  import opened Int128Division
  import opened Int128Text
  import opened Int128Numerals

  class Int128 {
    var lo: Word
    var hi: SWord

    /** The integer the two halves stand for. */
    ghost function AsInt(): (v: int)
      reads this
      ensures -M127 <= v < M127
    {
      Value(lo, hi)
    }

    constructor Halves(l: Word, h: SWord)
      ensures lo == l && hi == h && AsInt() == Value(l, h)
    {
      lo, hi := l, h;
    }

    constructor Copy(a: Int128)
      ensures AsInt() == a.AsInt() && lo == a.lo && hi == a.hi
    {
      lo, hi := a.lo, a.hi;
    }

    /** From uint32_t. */
    constructor Small(a: nat)
      requires a < 0x1_0000_0000
      ensures AsInt() == a
    {
      lo, hi := a, 0;
    }

    method Assign(a: Int128)
      modifies this
      ensures AsInt() == old(a.AsInt())
    {
      lo, hi := a.lo, a.hi;
    }

    /** From uint32_t, the high half cleared. */
    method AssignSmall(a: nat)
      requires a < 0x1_0000_0000
      modifies this
      ensures AsInt() == a
    {
      lo, hi := a, 0;
    }

    predicate IsZero()
      reads this
    {
      !(hi != 0 || lo != 0)
    }

    predicate Negative()
      reads this
    {
      LessHalves(lo, hi, 0, 0)
    }

    lemma Signs()
      ensures IsZero() <==> AsInt() == 0
      ensures Negative() <==> AsInt() < 0
    {
    }

    // ----- sums -----

    method Negated() returns (r: Int128)
      ensures fresh(r) && r.AsInt() == Wrap(-AsInt())
    {
      NegatedHalves(lo, hi);
      if lo == 0 {
        r := new Int128.Halves(0, ToSWord(0 - hi));
      } else {
        r := new Int128.Halves(ToWord(0 - lo), -1 - hi);
      }
    }

    method Increment()
      modifies this
      ensures AsInt() == Wrap(old(AsInt()) + 1)
    {
      SumHalves(lo, hi, 1, 0);
      ValueParts(lo, hi);
      lo := ToWord(lo + 1);
      if lo == 0 { hi := ToSWord(hi + 1); }
    }

    method Decrement()
      modifies this
      ensures AsInt() == Wrap(old(AsInt()) - 1)
    {
      BorrowHalves(lo, hi);
      if lo == 0 { hi := ToSWord(hi - 1); }
      lo := ToWord(lo - 1);
    }

    method AddAssign(b: Int128)
      modifies this
      ensures AsInt() == Wrap(old(AsInt()) + old(b.AsInt()))
    {
      SumHalves(lo, hi, b.lo, b.hi);
      var oldLo, oldHi, bHi := lo, hi, b.hi;
      lo := ToWord(lo + b.lo);
      hi := ToSWord(hi + bHi);
      if lo < oldLo { hi := ToSWord(hi + 1); }
    }

    method SubAssign(b: Int128)
      modifies this
      ensures AsInt() == Wrap(old(AsInt()) - old(b.AsInt()))
    {
      var n := b.Negated();
      WrapAbsorbs(-b.AsInt(), AsInt());
      AddAssign(n);
    }

    // ----- products -----

    /** Shift-and-add over the 128 bits of the multiplier. */
    method MulAssign(b: Int128)
      modifies this
      ensures AsInt() == Wrap(old(AsInt()) * old(b.AsInt()))
    {
      hide *;
      ghost var x, y := AsInt(), b.AsInt();
      b.Trivial(x);
      Fits();
      if b.IsZero() {
        AssignSmall(0);
        return;
      }
      if b.lo == 1 && b.hi == 0 { return; }
      var a := new Int128.Copy(this);
      var t := new Int128.Copy(b);
      AssignSmall(0);
      var i := 0;
      ProductStarts(x, y);
      while i < 128
        invariant 0 <= i <= 128
        invariant a.AsInt() == x && t.AsInt() == y / Pow2(i)
        invariant AsInt() == Wrap(x * (y % Pow2(i)))
      {
        MulRound(a, t, i, y);
        i := i + 1;
      }
      ProductEnds(x, y);
    }

    /** Adds the shifted multiplicand if the multiplier's lowest remaining bit is set. */
    method MulRound(a: Int128, t: Int128, i: nat, ghost y: int)
      requires a != this && t != this && a != t
      requires t.AsInt() == y / Pow2(i)
      requires AsInt() == Wrap(a.AsInt() * (y % Pow2(i)))
      modifies this, t
      ensures t.AsInt() == y / Pow2(i + 1)
      ensures AsInt() == Wrap(a.AsInt() * (y % Pow2(i + 1)))
    {
      hide *;
      ghost var x := a.AsInt();
      ProductStep(x, y, i);
      t.LowBit();
      if And(t.lo, 1) != 0 {
        var s := new Int128.Copy(a);
        s.ShlAssign(i);
        AddAssign(s);
      }
      t.ShrAssign(1);
      DivDiv(y, Pow2(i), 2);
      PowStep(i);
    }

    lemma Fits()
      ensures AsInt() == Wrap(AsInt())
    {
      WrapOfSmall(AsInt());
    }

    /** The two multipliers that need no loop. */
    lemma Trivial(x: int)
      ensures IsZero() ==> Wrap(x * AsInt()) == 0
      ensures lo == 1 && hi == 0 ==> x * AsInt() == x
    {
      WrapOfSmall(0);
    }

    lemma LowBit()
      ensures And(lo, 1) != 0 <==> AsInt() % 2 == 1
    {
      BitOfHalves(lo, hi, 0);
    }

    // ----- shifts -----

    method ShlAssign(n: nat)
      modifies this
      ensures AsInt() == Wrap(old(AsInt()) * Pow2(n))
    {
      if n >= 128 {
        ShlAll(lo, hi, n);
        lo, hi := 0, 0;
      } else if n >= 64 {
        ShlWord(lo, hi, n);
        hi := ToSWord(lo * Pow2(n - 64));
        lo := 0;
      } else if n > 0 {
        ShlHalves(lo, hi, n);
        hi := ToSWord(Or(ToWord(hi * Pow2(n)), PushedUp(lo, n)));
        lo := ToWord(lo * Pow2(n));
      } else {
        WrapOfSmall(AsInt());
      }
    }

    method ShrAssign(n: nat)
      modifies this
      ensures AsInt() == old(AsInt()) / Pow2(n)
    {
      hide And, Or, PushedDown;
      if n >= 128 {
        ShrAll(AsInt(), n);
        hi := if hi < 0 then -1 else 0;
        lo := ToWord(hi);
      } else if n >= 64 {
        ShrWord(lo, hi, n);
        lo := ToWord(hi / Pow2(n - 64));
        hi := if hi < 0 then -1 else 0;
      } else if n > 0 {
        ShrHalves(lo, hi, n);
        lo := JoinedLow(lo, hi, n);
        hi := hi / Pow2(n);
      }
    }

    // ----- bits -----

    method GetBit(n: nat) returns (b: bool)
      ensures b <==> Bit(AsInt(), n)
    {
      BitOfHalves(lo, hi, n);
      if n >= 128 {
        b := hi < 0;
      } else if n < 64 {
        b := And(lo, Pow2(n)) != 0;
      } else {
        b := And(ToWord(hi), Pow2(n - 64)) != 0;
      }
    }

    method SetBit(n: nat, val: bool)
      modifies this
      ensures AsInt() == if n < 128 then WithBit(old(AsInt()), n, val) else old(AsInt())
    {
      if n >= 128 { return; }
      if n < 64 {
        LowWithBit(lo, hi, n, val);
        lo := WordWithBit(lo, n, val);
      } else {
        HighWithBit(lo, hi, n, val);
        hi := ToSWord(WordWithBit(ToWord(hi), n - 64, val));
      }
    }

    // ----- division -----

    method LessThan(b: Int128) returns (less: bool)
      ensures less == LessInt(AsInt(), b.AsInt())
    {
      LessIntOfHalves(lo, hi, b.lo, b.hi);
      less := LessHalves(lo, hi, b.lo, b.hi);
    }

    /** r <<= 1, then the lowest bit set if the digit is one. */
    method TakeDigit(digit: bool)
      modifies this
      ensures AsInt() == ShiftIn(old(AsInt()), digit)
    {
      hide Wrap, Bit, And, Or, Value;
      ghost var x := AsInt();
      PowStep(0);
      ShlAssign(1);
      if digit {
        LowWithBit(lo, hi, 0, true);
        One(0);
        lo := Or(lo, 1);
      }
    }

    /** Its absolute value; INT128_MIN stays itself. */
    method Magnitude() returns (r: Int128)
      ensures fresh(r) && r.AsInt() == Wrap(Abs(AsInt()))
    {
      Signs();
      Fits();
      if Negative() { r := Negated(); } else { r := new Int128.Copy(this); }
    }

    /** The leading digits of this, taken into r until they reach the divisor; b is a 32-bit counter. */
    method LeadingDigits(ds: Int128, r: Int128) returns (b: nat)
      requires r != this && r != ds && r.AsInt() == 0
      requires 0 < ds.AsInt() <= AsInt()
      modifies r
      ensures b < 128 && r.AsInt() == AsInt() / Pow2(b)
      ensures ds.AsInt() <= r.AsInt() < 2 * ds.AsInt()
      ensures DivState(r.AsInt(), 0, b) == Leading(AsInt(), ds.AsInt(), 0, 128)
    {
      hide *;
      b := 127;
      ghost var c: nat := 128;
      NoDigits(AsInt());
      LessIntAbove(r.AsInt(), ds.AsInt());
      var less := r.LessThan(ds);
      while less
        invariant c <= 128 && b == if c == 0 then 0xFFFF_FFFF else c - 1
        invariant r.AsInt() == AsInt() / Pow2(c)
        invariant 0 <= r.AsInt() < 2 * ds.AsInt()
        invariant less <==> r.AsInt() < ds.AsInt()
        invariant c == 128 ==> less
        invariant Leading(AsInt(), ds.AsInt(), r.AsInt(), c) == Leading(AsInt(), ds.AsInt(), 0, 128)
        decreases c
      {
        FewerDigits(AsInt(), ds.AsInt(), c, r.AsInt());
        LeadingOn(AsInt(), ds.AsInt(), r.AsInt(), c);
        var digit := GetBit(b);
        b := if b == 0 then 0xFFFF_FFFF else b - 1;
        r.TakeDigit(digit);
        c := c - 1;
        QuotientAtMost(AsInt(), Pow2(c));
        LessIntAbove(r.AsInt(), ds.AsInt());
        less := r.LessThan(ds);
      }
      LeadingOver(AsInt(), ds.AsInt(), r.AsInt(), c);
      b := if b == 0xFFFF_FFFF then 0 else b + 1;
    }

    /** One turn of the division loop. */
    method DivideRound(ds: Int128, r: Int128, q: Int128, b: nat) returns (stop: bool, rest: nat)
      requires r != this && r != ds && q != this && q != ds && q != r
      modifies r, q
      ensures stop == Stops(ds.AsInt(), old(DivState(r.AsInt(), q.AsInt(), b)))
      ensures if stop then r.AsInt() == old(r.AsInt()) && q.AsInt() == old(q.AsInt()) && rest == b
              else DivState(r.AsInt(), q.AsInt(), rest)
                   == NextRound(AsInt(), ds.AsInt(), old(DivState(r.AsInt(), q.AsInt(), b)))
    {
      hide LessInt, ShiftIn, Bit, Wrap, WithBit;
      stop, rest := false, b;
      var less := r.LessThan(ds);
      if less {
        if b == 0 {
          stop := true;
          return;
        }
        rest := b - 1;
        var digit := GetBit(rest);
        r.TakeDigit(digit);
      } else {
        r.SubAssign(ds);
        q.SetBit(b, true);
      }
    }

    /** All turns of the division loop. */
    method DivideAll(ds: Int128, r: Int128, q: Int128, start: nat)
      requires r != this && r != ds && q != this && q != ds && q != r && start < 128
      requires Dividing(AsInt(), ds.AsInt(), DivState(r.AsInt(), q.AsInt(), start), 0)
      modifies r, q
      ensures AsInt() == q.AsInt() * ds.AsInt() + r.AsInt()
      ensures 0 <= r.AsInt() < ds.AsInt() && q.AsInt() >= 0
    {
      hide *;
      var b := start;
      ghost var c: nat := 0;
      while true
        invariant b < 128
        invariant Dividing(AsInt(), ds.AsInt(), DivState(r.AsInt(), q.AsInt(), b), c)
        decreases b, r.AsInt() >= ds.AsInt()
      {
        ghost var s := DivState(r.AsInt(), q.AsInt(), b);
        if s.r >= ds.AsInt() {
          SubtractRound(AsInt(), ds.AsInt(), s, c);
          c := c + 1;
        } else if s.b > 0 {
          ShiftRound(AsInt(), ds.AsInt(), s, c);
          c := 2 * c;
        } else {
          RemainderBounds(AsInt(), ds.AsInt(), s, c);
          LastRound(ds.AsInt(), s);
        }
        var stop;
        stop, b := DivideRound(ds, r, q, b);
        if stop {
          DivisionEnds(AsInt(), ds.AsInt(), s, c);
          return;
        }
      }
    }

    /** The quotient; the remainder goes to an object that may be this one or the divisor. */
    method Div(divisor: Int128, remainder: Int128) returns (q: Int128, trapped: bool)
      requires divisor.AsInt() != -M127
      modifies remainder
      ensures fresh(q)
      ensures trapped <==> old(divisor.AsInt()) == 0
      ensures if trapped then remainder.AsInt() == old(remainder.AsInt())
              else Divided(old(AsInt()), old(divisor.AsInt()), q.AsInt(), remainder.AsInt())
    {
      hide *;
      ghost var a, d := AsInt(), divisor.AsInt();
      q := new Int128.Small(0);
      trapped := divisor.IsZero();
      divisor.Signs();
      Signs();
      if trapped { return; }
      var ds := divisor.Magnitude();
      var dd := this.Magnitude();
      Magnitudes(a, d);
      var below := dd.LessThan(ds);
      LessIntAbove(dd.AsInt(), ds.AsInt());
      if below {
        SmallDivided(a, d);
        remainder.Assign(this);
        return;
      }
      var r := new Int128.Small(0);
      var b := dd.LeadingDigits(ds, r);
      DivisionStarts(dd.AsInt(), ds.AsInt(), r.AsInt(), b);
      dd.DivideAll(ds, r, q, b);
      CorrectedDivided(a, d, q.AsInt(), r.AsInt());
      if divisor.Negative() != Negative() { q := q.Negated(); }
      if Negative() { r := r.Negated(); }
      remainder.Assign(r);
    }

    method DivAssign(b: Int128) returns (trapped: bool)
      requires b.AsInt() != -M127
      modifies this
      ensures trapped <==> old(b.AsInt()) == 0
      ensures !trapped ==> exists r :: Divided(old(AsInt()), old(b.AsInt()), AsInt(), r)
    {
      var dummy := new Int128.Small(0);
      var q;
      q, trapped := Div(b, dummy);
      if !trapped { Assign(q); }
    }

    method ModAssign(b: Int128) returns (trapped: bool)
      requires b.AsInt() != -M127
      modifies this
      ensures trapped <==> old(b.AsInt()) == 0
      ensures !trapped ==> exists q :: Divided(old(AsInt()), old(b.AsInt()), q, AsInt())
    {
      var q;
      q, trapped := Div(b, this);
    }

    // ----- text -----

    lemma Low()
      ensures AsInt() % M64 == lo
    {
    }

    /** Prints into a buffer of 256 characters, from its end. */
    method ToString(radix: nat) returns (s: string)
      requires radix < 0x1_0000_0000
      ensures s == Text(AsInt(), radix)
      ensures 2 <= radix <= 37 ==> Prints(s, radix, AsInt())
      ensures radix < 2 || radix > 37 ==> s == if AsInt() == 0 then "0" else "(invalid radix)"
    {
      hide *;
      if 2 <= radix <= 37 { TextPrints(AsInt(), radix); }
      Signs();
      TextCases(AsInt(), radix);
      if IsZero() { return "0"; }
      if radix < 2 || radix > 37 { return "(invalid radix)"; }
      var sz := new char[256](_ => '\0');
      var ii := this.Magnitude();
      ghost var all := Unprinted(ii.AsInt(), radix);
      UnprintedShort(ii.AsInt(), radix);
      MagnitudeSign(AsInt());
      var r := new Int128.Small(0);
      var aux := new Int128.Small(radix);
      var i := 255;
      assert all + sz[255..255] == all;
      ii.Signs();
      while !ii.IsZero() && i != 0
        invariant 0 < i <= 255 && sz[255] == '\0'
        invariant all == Unprinted(ii.AsInt(), radix) + sz[i..255]
        invariant aux.AsInt() == radix && ii.IsZero() == (ii.AsInt() == 0)
        invariant ii.AsInt() >= 0 || IsMin(ii.AsInt())
        invariant fresh(ii) && fresh(r) && ii != aux && ii != r && r != aux
        decreases i
      {
        ghost var v, rest := ii.AsInt(), sz[i..255];
        NotMin(radix);
        var q, trapped := ii.Div(aux, r);
        LastDigit(v, radix, q.AsInt(), r.AsInt());
        r.Low();
        ii.Assign(q);
        ii.Signs();
        var c := r.lo % 0x1_0000_0000;
        i := i - 1;
        sz[i] := DigitChar(c);
        Append(all, Unprinted(q.AsInt(), radix), DigitChar(c), rest);
        assert sz[i..255] == [sz[i]] + rest;
      }
      if Negative() {
        i := i - 1;
        sz[i] := '-';
      }
      s := sz[i..255];
    }

    /** Reads an optional minus, an optional octal or hexadecimal prefix, and digits up to the first other character. */
    method Set(sz: Option<string>)
      requires sz.Some? ==> '\0' !in sz.value
      modifies this
      ensures AsInt() == if sz.None? then 0 else Read(sz.value)
      ensures sz.Some? ==> Means(sz.value, AsInt())
    {
      hide *;
      AssignSmall(0);
      if sz.None? { return; }
      var s := sz.value;
      ReadMeans(s);
      ReadCases(s);
      if s == "" { return; }
      var radix, i, minus := 10, 0, false;
      if s[i] == '-' {
        i := i + 1;
        minus := true;
      }
      ghost var start := i;
      PrefixCases(s[start..]);
      if i < |s| && s[i] == '0' {
        radix := 8;
        i := i + 1;
        if i < |s| && s[i] == 'x' {
          radix := 16;
          i := i + 1;
        }
      }
      PrefixRead(s, start, radix, i);
      var factor := new Int128.Small(radix);
      while i < |s|
        invariant start <= i <= |s| && factor.AsInt() == radix && factor != this
        invariant ReadUnsigned(s[start..]) == ReadFrom(s[i..], radix, AsInt())
        decreases |s| - i
      {
        ReadStep(s, i, radix, AsInt());
        var digit := DigitOf(s[i], radix);
        if digit.None? { break; }
        MulAssign(factor);
        var n := new Int128.Small(digit.value);
        AddAssign(n);
        i := i + 1;
      }
      if i == |s| { ReadEnd(s, radix, AsInt()); }
      assert AsInt() == ReadUnsigned(s[start..]);
      if minus {
        var zero := new Int128.Small(0);
        zero.SubAssign(this);
        Assign(zero);
      }
    }
  }
}
