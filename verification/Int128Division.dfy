/** The integer arithmetic behind the multiplication and division loops of int128.cc. */
module Int128Division {
  import opened Powers
  import opened Options
  import opened Int128Words

  // ----- the multiplication loop -----

  lemma ProductStep(x: int, y: int, i: nat)
    ensures y % Pow2(i + 1) == y % Pow2(i) + y / Pow2(i) % 2 * Pow2(i)
    ensures y / Pow2(i) % 2 == 1 ==> Wrap(Wrap(x * (y % Pow2(i))) + Wrap(x * Pow2(i))) == Wrap(x * (y % Pow2(i + 1)))
    ensures y / Pow2(i) % 2 == 0 ==> y % Pow2(i + 1) == y % Pow2(i)
  {
    hide Wrap;
    var p := Pow2(i);
    ModSplit(y, p);
    WrapAbsorbs(x * (y % p), Wrap(x * p));
    WrapAbsorbs(x * p, x * (y % p));
    assert x * (y % p + p) == x * (y % p) + x * p;
  }

  /** One more binary digit of a remainder. */
  lemma ModSplit(y: int, p: int)
    requires p > 0
    ensures y % (2 * p) == y % p + y / p % 2 * p
  {
    var c, d := y / p, y % p;
    var e, f := c / 2, c % 2;
    Regrouped(p, c, d, e, f);
    DivModUnique(y, 2 * p, e, d + f * p);
  }

  lemma Regrouped(p: nat, c: int, d: int, e: int, f: int)
    requires c == 2 * e + f && 0 <= f <= 1
    ensures p * c + d == 2 * p * e + (d + f * p) && 0 <= f * p <= p
  {
    assert p * (2 * e) == 2 * p * e;
  }

  lemma PowStep(i: nat)
    ensures Pow2(i + 1) == Pow2(i) * 2 && Pow2(1) == 2
  {
  }

  lemma ProductStarts(x: int, y: int)
    ensures y / Pow2(0) == y && Wrap(x * (y % Pow2(0))) == 0
  {
    WrapOfSmall(0);
  }

  lemma ProductEnds(x: int, y: int)
    ensures Wrap(x * (y % Pow2(128))) == Wrap(x * y)
  {
    Pow2Words();
    var k := y / M128;
    assert x * y == x * (y % M128) + (x * k) * M128 by {
      assert x * (M128 * k + y % M128) == x * (y % M128) + (x * k) * M128;
    }
    WrapShift(x * (y % M128), x * k);
  }

  // ----- the division loop -----

  function Abs(x: int): nat { if x < 0 then -x else x }

  /** Division rounding towards zero: the remainder is smaller than the divisor and has the dividend's sign. */
  predicate Truncated(a: int, d: int, q: int, r: int) {
    a == q * d + r && Abs(r) < Abs(d) && (r == 0 || (r < 0 <==> a < 0))
  }

  lemma TruncatedOnce(a: int, d: int, q: int, r: int, q': int, r': int)
    requires Truncated(a, d, q, r) && Truncated(a, d, q', r')
    ensures q == q' && r == r'
  {
    Opposite(q, d);
    Opposite(q', d);
    if d > 0 { QuotientGap(d, q - q', r' - r); } else { QuotientGap(-d, q' - q, r' - r); }
  }

  lemma Opposite(q: int, d: int)
    ensures q * d == d * q == (-d) * (-q)
  {
  }

  /** operator< on the integers the operands stand for. */
  predicate LessInt(x: int, y: int)
    requires -M127 <= x < M127 && -M127 <= y < M127
  {
    LessHalves(x % M64, x / M64, y % M64, y / M64)
  }

  lemma LessIntOfHalves(alo: Word, ahi: SWord, blo: Word, bhi: SWord)
    ensures LessInt(Value(alo, ahi), Value(blo, bhi)) == LessHalves(alo, ahi, blo, bhi)
  {
    ValueParts(alo, ahi);
    ValueParts(blo, bhi);
  }

  lemma LessIntAbove(x: int, y: int)
    requires -M127 <= x < M127 && -M127 <= y < M127 && (x >= 0 || y >= 0)
    ensures LessInt(x, y) == (x < y)
  {
    LessExactly(x % M64, x / M64, y % M64, y / M64);
  }

  type Wide = v: int | -M127 <= v < M127

  /** The partial remainder, the quotient so far and the number of digits of the dividend still to be taken. */
  datatype DivState = DivState(r: Wide, q: Wide, b: nat)

  /** Taking one more binary digit of the dividend into the remainder. */
  function ShiftIn(r: Wide, digit: bool): Wide {
    WithBit(Wrap(r * 2), 0, digit || Bit(Wrap(r * 2), 0))
  }

  predicate Stops(ds: Wide, s: DivState) { LessInt(s.r, ds) && s.b == 0 }

  function NextRound(dd: Wide, ds: Wide, s: DivState): DivState
    requires !Stops(ds, s)
  {
    if LessInt(s.r, ds) then DivState(ShiftIn(s.r, Bit(dd, s.b - 1)), s.q, s.b - 1)
    else DivState(Wrap(s.r - ds), if s.b < 128 then WithBit(s.q, s.b, true) else s.q, s.b)
  }

  /** Before each round: the digits taken so far are quotient times divisor plus remainder. */
  predicate Dividing(dd: Wide, ds: Wide, s: DivState, c: nat) {
    && 0 <= dd && 0 < ds
    && dd / Pow2(s.b) == c * ds + s.r
    && s.q == c * Pow2(s.b)
    && 0 <= s.r < 2 * ds
    && (s.r >= ds ==> c % 2 == 0)
  }

  lemma ShiftInIs(r: Wide, digit: bool)
    requires 0 <= r && 2 * r + 1 < M127
    ensures ShiftIn(r, digit) == 2 * r + if digit then 1 else 0
  {
    WrapOfSmall(2 * r);
    WrapOfSmall(2 * r + 1);
    assert Pow2(0) == 1;
  }

  lemma ShiftRound(dd: Wide, ds: Wide, s: DivState, c: nat)
    requires Dividing(dd, ds, s, c) && s.r < ds && s.b > 0
    ensures !Stops(ds, s) && Dividing(dd, ds, NextRound(dd, ds, s), 2 * c)
    ensures NextRound(dd, ds, s).b == s.b - 1
  {
    hide Pow2, LessInt, LessHalves, ShiftIn, Wrap, WithBit;
    var p := Pow2(s.b - 1);
    PowStep(s.b - 1);
    LessIntAbove(s.r, ds);
    DivDiv(dd, p, 2);
    QuotientAtMost(dd, p);
    Doubled(c, ds, p);
    ShiftInFits(dd / p, c * ds, s.r);
    ShiftInIs(s.r, Bit(dd, s.b - 1));
  }

  lemma ShiftInFits(x: nat, m: nat, r: nat)
    requires x / 2 == m + r && x < M127
    ensures 2 * r + 1 < M127
  {
  }

  lemma QuotientAtMost(x: nat, p: nat)
    requires p > 0
    ensures 0 <= x / p <= x
  {
    if x / p > 0 { ProductAtLeast(p, x / p); }
  }

  lemma Doubled(c: int, ds: int, p: int)
    ensures c * (p * 2) == 2 * c * p && 2 * c * ds == 2 * (c * ds)
  {
  }

  lemma SubtractRound(dd: Wide, ds: Wide, s: DivState, c: nat)
    requires Dividing(dd, ds, s, c) && s.r >= ds && s.b < 128
    ensures !Stops(ds, s) && Dividing(dd, ds, NextRound(dd, ds, s), c + 1)
    ensures NextRound(dd, ds, s).b == s.b && NextRound(dd, ds, s).r < ds
  {
    hide Pow2, LessInt, LessHalves, Wrap, WithBit;
    var p := Pow2(s.b);
    LessIntAbove(s.r, ds);
    WrapOfSmall(s.r - ds);
    QuotientAtMost(dd, p);
    NextDigit(dd, ds, s, c);
    OneMore(c, ds, p);
  }

  lemma OneMore(c: int, ds: int, p: int)
    ensures (c + 1) * p == c * p + p && (c + 1) * ds == c * ds + ds
  {
  }

  /** The quotient's digit at place b is still clear. */
  lemma NextDigit(dd: Wide, ds: Wide, s: DivState, c: nat)
    requires Dividing(dd, ds, s, c) && s.r >= ds
    ensures WithBit(s.q, s.b, true) == s.q + Pow2(s.b)
  {
    hide Wrap;
    var p := Pow2(s.b);
    DivModUnique(s.q, p, c, 0);
    QuotientFits(dd, ds, s.r, c, p);
    WrapOfSmall(s.q + p);
  }

  lemma QuotientFits(dd: Wide, ds: Wide, r: int, c: nat, p: nat)
    requires p > 0 && 0 < ds <= r && 0 <= dd && dd / p == c * ds + r
    ensures 0 <= c * p + p < M127
  {
    OneMore(c, ds, p);
    ProductAtLeast(ds, c);
    MulMono(c + 1, dd / p, p);
    WholeParts(dd, p);
  }

  lemma MulMono(a: int, b: int, p: nat)
    requires a <= b
    ensures a * p <= b * p
  {
  }

  lemma WholeParts(x: nat, p: nat)
    requires p > 0
    ensures x / p * p <= x
  {
  }

  /** When the loop stops, every digit has been taken. */
  lemma DivisionEnds(dd: Wide, ds: Wide, s: DivState, c: nat)
    requires Dividing(dd, ds, s, c) && Stops(ds, s)
    ensures dd == s.q * ds + s.r && 0 <= s.r < ds && s.q >= 0
  {
    LessIntAbove(s.r, ds);
    assert Pow2(0) == 1;
  }

  lemma RemainderBounds(dd: Wide, ds: Wide, s: DivState, c: nat)
    requires Dividing(dd, ds, s, c)
    ensures 0 <= s.r < 2 * ds
  {
  }

  lemma LastRound(ds: Wide, s: DivState)
    requires 0 <= s.r < ds && s.b == 0
    ensures Stops(ds, s)
  {
    LessIntAbove(s.r, ds);
  }

  lemma SignsCorrected(a: int, d: int, q: int, r: int)
    requires Abs(a) == q * Abs(d) + r && 0 <= r < Abs(d)
    ensures Truncated(a, d, if (d < 0) != (a < 0) then -q else q, if a < 0 then -r else r)
  {
    Opposite(q, d);
    Opposite(-q, d);
  }

  /**
   * The first loop: digits of the dividend are taken while the remainder looks smaller than the divisor; c are left.
   */
  function Leading(dd: Wide, ds: Wide, r: Wide, c: nat): DivState
    decreases c
  {
    if c == 0 || !LessInt(r, ds) then DivState(r, 0, c)
    else Leading(dd, ds, ShiftIn(r, Bit(dd, c - 1)), c - 1)
  }

  lemma LeadingOn(dd: Wide, ds: Wide, r: Wide, c: nat)
    requires c > 0 && 0 <= r < ds
    ensures Leading(dd, ds, r, c) == Leading(dd, ds, ShiftIn(r, Bit(dd, c - 1)), c - 1)
  {
    LessIntAbove(r, ds);
  }

  lemma LeadingOver(dd: Wide, ds: Wide, r: Wide, c: nat)
    requires 0 < ds <= r
    ensures Leading(dd, ds, r, c) == DivState(r, 0, c)
  {
    LessIntAbove(r, ds);
  }

  /** The state of the division of a by d after k turns of the main loop; none once it has returned. */
  function DivAfter(a: Wide, d: Wide, k: nat): Option<DivState> {
    var dd, ds := Wrap(Abs(a)), Wrap(Abs(d));
    if LessInt(dd, ds) then None
    else if k == 0 then Some(Leading(dd, ds, 0, 128))
    else
      match DivAfter(a, d, k - 1)
      case None => None
      case Some(s) => if Stops(ds, s) then None else Some(NextRound(dd, ds, s))
  }

  /**
   * Dividing by INT128_MIN: the dividend never looks smaller, the first loop takes
   * no digit, and the main loop turns for ever between two remainders.
   */
  lemma {:induction false} DivisionByMinNeverReturns(a: Wide, d: Wide, k: nat)
    requires d == -M127
    ensures DivAfter(a, d, k) == Some(DivState(if k % 2 == 0 then 0 else -M127, 0, 128))
    ensures !Stops(Wrap(Abs(d)), DivAfter(a, d, k).value)
  {
    hide Stops, NextRound, LessInt, Wrap, Leading;
    var dd := Wrap(Abs(a));
    MinMagnitudes(a);
    NeverSmaller(dd);
    MinRound(dd, k);
    if k > 0 {
      DivisionByMinNeverReturns(a, d, k - 1);
      MinRound(dd, k - 1);
    }
  }

  lemma MinMagnitudes(a: Wide)
    ensures Wrap(Abs(-M127)) == -M127
    ensures Wrap(Abs(a)) >= 0 || Wrap(Abs(a)) == -M127
  {
    WrapUnique(M127, -M127, -1);
    if a != -M127 { WrapOfSmall(Abs(a)); }
  }

  /** No magnitude looks smaller than INT128_MIN, though some negative numbers would. */
  lemma NeverSmaller(dd: Wide)
    requires dd >= 0 || dd == -M127
    ensures !LessInt(dd, -M127) && Leading(dd, -M127, 0, 128) == DivState(0, 0, 128)
    ensures LessInt(-M127 + M63, -M127)
  {
    assert !LessInt(0, -M127);
  }

  lemma MinRound(dd: Wide, k: nat)
    ensures var s := DivState(if k % 2 == 0 then 0 else -M127, 0, 128);
            !Stops(-M127, s) && NextRound(dd, -M127, s) == DivState(if k % 2 == 0 then -M127 else 0, 0, 128)
  {
    WrapUnique(M127, -M127, -1);
    WrapOfSmall(0);
  }

  /** What div leaves: truncated division, except that INT128_MIN always looks smaller than the divisor. */
  predicate Divided(a: int, d: int, q: int, r: int) {
    if a == -M127 then q == 0 && r == a else Truncated(a, d, q, r)
  }

  /** The result is the truncated quotient and remainder exactly when the dividend is not INT128_MIN. */
  lemma DividedExactly(a: int, d: int, q: int, r: int)
    requires -M127 <= a < M127 && -M127 < d < M127 && Divided(a, d, q, r)
    ensures Truncated(a, d, q, r) <==> a != -M127
  {
  }

  /** Neither operand's magnitude is wrong but that of INT128_MIN. */
  lemma Magnitudes(a: Wide, d: Wide)
    requires d != 0 && d != -M127
    ensures Wrap(Abs(d)) == Abs(d) > 0
    ensures a != -M127 ==> Wrap(Abs(a)) == Abs(a)
    ensures a == -M127 ==> Wrap(Abs(a)) == -M127
  {
    WrapOfSmall(Abs(d));
    if a == -M127 { WrapUnique(M127, -M127, -1); } else { WrapOfSmall(Abs(a)); }
  }

  lemma SmallDivided(a: Wide, d: Wide)
    requires d != 0 && d != -M127 && Wrap(Abs(a)) < Abs(d)
    ensures Divided(a, d, 0, a)
  {
    Magnitudes(a, d);
  }

  lemma CorrectedDivided(a: Wide, d: Wide, q: Wide, r: Wide)
    requires d != 0 && d != -M127 && Wrap(Abs(a)) >= Abs(d)
    requires Wrap(Abs(a)) == q * Abs(d) + r && 0 <= r < Abs(d) && q >= 0
    ensures Divided(a, d, if (d < 0) != (a < 0) then Wrap(-q) else q, if a < 0 then Wrap(-r) else r)
  {
    Magnitudes(a, d);
    WrapOfSmall(-q);
    WrapOfSmall(-r);
    SignsCorrected(a, d, q, r);
  }

  lemma FewerDigits(dd: Wide, ds: Wide, b: nat, r: Wide)
    requires 0 < ds <= dd && dd / Pow2(b) == r < ds
    ensures b > 0 && ShiftIn(r, Bit(dd, b - 1)) == dd / Pow2(b - 1) < 2 * ds
  {
    hide Pow2, ShiftIn;
    if b == 0 { One(dd); }
    var p := Pow2(b - 1);
    PowStep(b - 1);
    DivDiv(dd, p, 2);
    QuotientAtMost(dd, p);
    ShiftInFits(dd / p, 0, r);
    ShiftInIs(r, Bit(dd, b - 1));
  }

  lemma One(x: int)
    ensures x / Pow2(0) == x && Pow2(0) == 1
  {
  }

  lemma NoDigits(x: Wide)
    requires 0 <= x
    ensures x / Pow2(128) == 0
  {
    Pow2Words();
  }

  lemma DivisionStarts(dd: Wide, ds: Wide, r: Wide, b: nat)
    requires 0 < ds <= r < 2 * ds && 0 <= dd && r == dd / Pow2(b)
    ensures Dividing(dd, ds, DivState(r, 0, b), 0)
  {
  }
}
