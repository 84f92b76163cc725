/** 64-bit words, their bits, and the 128-bit value two of them stand for (int128.h, int128.cc). */
module Int128Words {
  import opened Powers

  const M64: int := 0x1_0000_0000_0000_0000
  const M63: int := 0x8000_0000_0000_0000
  const M128: int := 0x1_0000_0000_0000_0000_0000_0000_0000_0000
  const M127: int := 0x8000_0000_0000_0000_0000_0000_0000_0000

  /** uint64_t and int64_t. */
  type Word = w: int | 0 <= w < M64
  type SWord = w: int | -M63 <= w < M63

  /** What converting between the two keeps: the value modulo 2^64. */
  function ToWord(x: int): Word { x % M64 }

  function ToSWord(x: int): (s: SWord)
    ensures s % M64 == x % M64
  {
    var u := x % M64;
    if u < M63 then u else u - M64
  }

  /** The signed value of two halves. */
  function Value(lo: Word, hi: SWord): (v: int)
    ensures -M127 <= v < M127
    ensures v < 0 <==> hi < 0
  {
    hi * M64 + lo
  }

  /** The 128-bit signed number congruent to x. */
  function Wrap(x: int): (v: int)
    ensures -M127 <= v < M127
  {
    (x + M127) % M128 - M127
  }

  lemma WrapUnique(x: int, v: int, k: int)
    requires -M127 <= v < M127 && v == x + k * M128
    ensures Wrap(x) == v
  {
    var y := x + M127;
    assert v + M127 == y + k * M128;
    ModShift(y, k);
  }

  lemma ModShift(y: int, k: int)
    ensures (y + k * M128) % M128 == y % M128
  {
  }

  lemma WrapOfSmall(x: int)
    requires -M127 <= x < M127
    ensures Wrap(x) == x
  {
    WrapUnique(x, x, 0);
  }

  /** Wrapping differs from the number by a multiple of 2^128. */
  lemma WrapQuotient(x: int) returns (k: int)
    ensures Wrap(x) == x + k * M128
  {
    k := -((x + M127) / M128);
  }

  lemma HalvesUnique(lo: Word, hi: SWord, lo': Word, hi': SWord)
    requires Value(lo, hi) == Value(lo', hi')
    ensures lo == lo' && hi == hi'
  {
  }

  lemma Pow2Words()
    ensures Pow2(8) == 256 && Pow2(16) == 0x1_0000 && Pow2(32) == 0x1_0000_0000
    ensures Pow2(64) == M64 && Pow2(128) == M128 && 2 * Pow2(63) == M64 && 2 * Pow2(127) == M128
  {
    assert Pow2(4) == 16;
    Pow2Doubles(4, 16);
    Pow2Doubles(8, 256);
    Pow2Doubles(16, 0x1_0000);
    Pow2Doubles(32, 0x1_0000_0000);
    Pow2Doubles(64, M64);
  }

  // ----- bitwise operations on non-negative numbers -----

  function And(a: nat, b: nat): nat
    decreases a
  {
    if a == 0 then 0 else 2 * And(a / 2, b / 2) + (if a % 2 == 1 && b % 2 == 1 then 1 else 0)
  }

  function Or(a: nat, b: nat): nat
    decreases a + b
  {
    if a == 0 && b == 0 then 0 else 2 * Or(a / 2, b / 2) + (if a % 2 + b % 2 > 0 then 1 else 0)
  }

  /** Bit n of a number; a negative one counts as its two's complement. */
  function Bit(a: int, n: nat): bool { a / Pow2(n) % 2 == 1 }

  /** Masking with 2^n - 1 keeps the low n bits. */
  lemma {:induction false} AndLowMask(a: nat, n: nat)
    ensures And(a, Pow2(n) - 1) == a % Pow2(n)
    decreases n
  {
    if n == 0 {
      AndZero(a);
    } else {
      var p := Pow2(n - 1);
      assert (2 * p - 1) / 2 == p - 1 && (2 * p - 1) % 2 == 1;
      if a != 0 { AndLowMask(a / 2, n - 1); }
      HalfMod(a, p);
    }
  }

  lemma {:induction false} AndZero(a: nat)
    ensures And(a, 0) == 0
  {
    if a != 0 { AndZero(a / 2); }
  }

  lemma HalfMod(a: nat, p: nat)
    requires p > 0
    ensures a % (2 * p) == 2 * (a / 2 % p) + a % 2
  {
    var q, r := a / 2 / p, a / 2 % p;
    assert a / 2 == p * q + r;
    assert a == (2 * p) * q + (2 * r + a % 2) by { assert a == 2 * (a / 2) + a % 2; assert 2 * (p * q) == (2 * p) * q; }
    DivModUnique(a, 2 * p, q, 2 * r + a % 2);
  }

  lemma DivModUnique(a: int, d: int, q: int, r: int)
    requires d > 0 && 0 <= r < d && a == d * q + r
    ensures a / d == q && a % d == r
  {
    QuotientGap(d, a / d - q, r - a % d);
  }

  lemma QuotientGap(d: int, k: int, e: int)
    requires d > 0 && -d < e < d && d * k == e
    ensures k == 0
  {
    if k > 0 { MulGrows(d, k); } else if k < 0 { MulGrows(d, -k); }
  }

  lemma MulGrows(d: int, k: int)
    requires d > 0 && k > 0
    ensures d * k >= d
  {
  }

  lemma AndAllOnes(a: nat, m: nat)
    requires a < Pow2(m)
    ensures And(a, Pow2(m) - Pow2(0)) == a - a % Pow2(0)
  {
    hide And;
    AndLowMask(a, m);
    SmallMod(a, Pow2(m));
    assert Pow2(0) == 1;
  }

  /** One more bit of a number and of the mask. */
  lemma HighStep(a: nat, p: nat, r: nat)
    requires 0 < p <= r && And(a / 2, r - p) == a / 2 - a / 2 % p
    ensures And(a, 2 * r - 2 * p) == a - a % (2 * p)
  {
    hide And;
    AndEven(a, r - p);
    HalfMod(a, p);
    assert 2 * r - 2 * p == 2 * (r - p);
  }

  /** Masking with the complement, 2^m - 2^n, clears the low n bits. */
  lemma {:induction false} AndHighMask(a: nat, n: nat, m: nat)
    requires n <= m && a < Pow2(m)
    ensures Pow2(n) <= Pow2(m) && And(a, Pow2(m) - Pow2(n)) == a - a % Pow2(n)
    decreases n
  {
    hide And, Pow2;
    Pow2Grows(n, m);
    if n == 0 {
      AndAllOnes(a, m);
    } else {
      Pow2Step(n);
      Pow2Step(m);
      Pow2Grows(n - 1, m - 1);
      AndHighMask(a / 2, n - 1, m - 1);
      HighStep(a, Pow2(n - 1), Pow2(m - 1));
    }
  }

  lemma Pow2Step(n: nat)
    requires n > 0
    ensures Pow2(n) == 2 * Pow2(n - 1)
  {
  }

  lemma AndEven(a: nat, c: nat)
    ensures And(a, 2 * c) == 2 * And(a / 2, c)
  {
    DivModUnique(2 * c, 2, c, 0);
  }

  lemma SmallMod(a: nat, d: nat)
    requires a < d
    ensures a % d == a && a / d == 0
  {
    DivModUnique(a, d, 0, a);
  }

  /** Joining numbers without a common bit adds them. */
  lemma {:induction false} OrDisjoint(a: nat, b: nat, n: nat)
    requires b < Pow2(n)
    ensures Or(a * Pow2(n), b) == a * Pow2(n) + b
    decreases n
  {
    if n == 0 {
      OrZero(a);
    } else {
      var p := Pow2(n - 1);
      var x := a * Pow2(n);
      assert x == 2 * (a * p);
      assert x / 2 == a * p && x % 2 == 0;
      OrDisjoint(a, b / 2, n - 1);
    }
  }

  lemma {:induction false} OrZero(a: nat)
    ensures Or(a, 0) == a
  {
    if a != 0 { OrZero(a / 2); }
  }

  lemma {:induction false} OrCommutes(a: nat, b: nat)
    ensures Or(a, b) == Or(b, a)
    decreases a + b
  {
    if a != 0 || b != 0 { OrCommutes(a / 2, b / 2); }
  }

  /** A single bit that is not set yet. */
  lemma {:induction false} OrBit(a: nat, n: nat)
    requires !Bit(a, n)
    ensures Or(a, Pow2(n)) == a + Pow2(n)
    decreases n
  {
    if n == 0 {
      assert a % 2 == 0;
      OrZero(a / 2);
    } else {
      HalfBit(a, n);
      OrBit(a / 2, n - 1);
      assert Pow2(n) / 2 == Pow2(n - 1) && Pow2(n) % 2 == 0;
    }
  }

  lemma HalfBit(a: nat, n: nat)
    requires n > 0
    ensures Bit(a, n) == Bit(a / 2, n - 1)
  {
    DivDiv(a, 2, Pow2(n - 1));
  }

  lemma DivDiv(a: int, c: int, d: int)
    requires c > 0 && d > 0
    ensures c * d > 0 && a / c / d == a / (c * d)
  {
    var q, r := a / c / d, a / c % d;
    var s := a % c;
    assert a / c == d * q + r;
    assert a == c * (a / c) + s;
    assert c * (d * q + r) == (c * d) * q + c * r by { assert c * (d * q) == (c * d) * q; }
    assert 0 <= c * r + s < c * d by { assert c * r <= c * (d - 1); assert c * (d - 1) == c * d - c; }
    DivModUnique(a, c * d, q, c * r + s);
  }

  /** Whether a bit is set can be asked with a mask. */
  lemma {:induction false} AndBit(a: nat, n: nat)
    ensures And(a, Pow2(n)) == if Bit(a, n) then Pow2(n) else 0
    decreases n
  {
    if a == 0 {
      SmallMod(0, Pow2(n));
    } else if n == 0 {
      AndZero(a / 2);
    } else {
      HalfBit(a, n);
      AndBit(a / 2, n - 1);
      assert Pow2(n) / 2 == Pow2(n - 1) && Pow2(n) % 2 == 0;
    }
  }

  /** Clearing one bit of a number below 2^m. */
  lemma {:induction false} AndClearBit(a: nat, n: nat, m: nat)
    requires n < m && a < Pow2(m)
    ensures Pow2(n) < Pow2(m)
    ensures And(a, Pow2(m) - 1 - Pow2(n)) == if Bit(a, n) then a - Pow2(n) else a
    decreases n
  {
    hide Bit, And, Pow2;
    Pow2Grows(n, m);
    if n == 0 {
      ClearLastBit(a, m);
    } else {
      Pow2Halves(m);
      Pow2Halves(n);
      AndClearBit(a / 2, n - 1, m - 1);
      AndOdd(a, Pow2(m - 1) - 1 - Pow2(n - 1));
      HalfBit(a, n);
    }
  }

  lemma Pow2Halves(n: nat)
    requires n > 0
    ensures Pow2(n) == 2 * Pow2(n - 1)
  {
  }

  lemma ClearLastBit(a: nat, m: nat)
    requires 0 < m && a < Pow2(m)
    ensures Pow2(0) == 1 < Pow2(m) && And(a, Pow2(m) - 2) == if Bit(a, 0) then a - 1 else a
  {
    hide And;
    AndEven(a, Pow2(m - 1) - 1);
    AndLowMask(a / 2, m - 1);
    SmallMod(a / 2, Pow2(m - 1));
    LastBit(a, Pow2(m - 1));
  }

  lemma AndOdd(a: nat, c: nat)
    ensures And(a, 2 * c + 1) == 2 * And(a / 2, c) + a % 2
  {
    DivModUnique(2 * c + 1, 2, c, 1);
  }

  // ----- the halves of a 128-bit result -----

  /** Two halves that follow an integer stand for that integer modulo 2^128. */
  lemma HalvesOf(x: int)
    ensures Value(ToWord(x), ToSWord(x / M64)) == Wrap(x)
  {
    var q := x / M64;
    var k := if q % M64 < M63 then -(q / M64) else -(q / M64) - 1;
    assert ToSWord(q) == q + k * M64;
    WrapUnique(x, Value(ToWord(x), ToSWord(q)), k);
  }

  lemma ToSWordAbsorbs(x: int, y: int)
    ensures ToSWord(ToSWord(x) + y) == ToSWord(x + y)
  {
    var k := ToSWord(x) - x;
    assert ToSWord(x) % M64 == x % M64;
  }

  lemma ValueParts(lo: Word, hi: SWord)
    ensures ToWord(Value(lo, hi)) == lo && Value(lo, hi) / M64 == hi && ToSWord(hi) == hi
  {
  }

  // ----- sums -----

  /** Adding the halves with the carry read off the low word. */
  lemma SumHalves(alo: Word, ahi: SWord, blo: Word, bhi: SWord)
    ensures var lo := ToWord(alo + blo);
            var hi := ToSWord(ahi + bhi);
            Value(lo, if lo < alo then ToSWord(hi + 1) else hi) == Wrap(Value(alo, ahi) + Value(blo, bhi))
  {
    var x := Value(alo, ahi) + Value(blo, bhi);
    var carry := (alo + blo) / M64;
    DivModUnique(x, M64, ahi + bhi + carry, alo + blo - carry * M64);
    ToSWordAbsorbs(ahi + bhi, 1);
    HalvesOf(x);
  }

  lemma NegatedLow(lo: Word)
    requires lo > 0
    ensures ToWord(0 - lo) == M64 - lo
  {
    DivModUnique(0 - lo, M64, -1, M64 - lo);
  }

  /** A number that fits a signed word is that word. */
  lemma SWordFits(x: int)
    requires -M63 <= x < M63
    ensures ToSWord(x) == x
  {
    DivModUnique(x, M64, if x < 0 then -1 else 0, if x < 0 then x + M64 else x);
  }

  /** The two branches of unary minus. */
  lemma NegatedHalves(lo: Word, hi: SWord)
    ensures (if lo == 0 then Value(0, ToSWord(0 - hi)) else Value(ToWord(0 - lo), -1 - hi)) == Wrap(-Value(lo, hi))
  {
    hide Wrap;
    var x := -Value(lo, hi);
    HalvesOf(x);
    if lo == 0 {
      DivModUnique(x, M64, 0 - hi, 0);
    } else {
      DivModUnique(x, M64, -1 - hi, M64 - lo);
      NegatedLow(lo);
      SWordFits(-1 - hi);
    }
  }

  /** Taking one off the halves with the borrow read off the low word. */
  lemma BorrowHalves(lo: Word, hi: SWord)
    ensures Value(ToWord(lo - 1), if lo == 0 then ToSWord(hi - 1) else hi) == Wrap(Value(lo, hi) - 1)
  {
    HalvesOf(Value(lo, hi) - 1);
    ValueParts(lo, hi);
    if lo == 0 {
      DivModUnique(Value(lo, hi) - 1, M64, hi - 1, M64 - 1);
    } else {
      DivModUnique(Value(lo, hi) - 1, M64, hi, lo - 1);
    }
  }

  lemma WrapAbsorbs(x: int, y: int)
    ensures Wrap(Wrap(x) + y) == Wrap(x + y)
  {
    var k := WrapQuotient(x);
    var j := WrapQuotient(x + y);
    WrapUnique(Wrap(x) + y, Wrap(x + y), j - k);
  }

  // ----- order -----

  /** operator<: halves that agree in a negative high word are compared by their signed low words. */
  predicate LessHalves(alo: Word, ahi: SWord, blo: Word, bhi: SWord) {
    if ahi == bhi then (if ahi < 0 then ToSWord(alo) < ToSWord(blo) else alo < blo) else ahi < bhi
  }

  /** Where that is not the order of the integers. */
  predicate Misordered(alo: Word, ahi: SWord, blo: Word, bhi: SWord) {
    ahi == bhi && ahi < 0 && (alo < M63) != (blo < M63)
  }

  lemma LessExactly(alo: Word, ahi: SWord, blo: Word, bhi: SWord)
    ensures (LessHalves(alo, ahi, blo, bhi) <==> Value(alo, ahi) < Value(blo, bhi)) <==> !Misordered(alo, ahi, blo, bhi)
  {
  }

  // ----- shifts -----

  /** The bits of a low word that a left shift by n pushes over its top. */
  function PushedUp(lo: Word, n: nat): nat
    requires 0 < n < 64
  {
    MaskFits(n);
    And(lo, M64 - Pow2(64 - n)) / Pow2(64 - n)
  }

  /** The bits of a high word that a right shift by n pushes into the top of the low word. */
  function PushedDown(hi: SWord, n: nat): Word
    requires 0 < n < 64
  {
    ToWord(And(ToWord(hi), Pow2(n) - 1) * Pow2(64 - n))
  }

  lemma MaskFits(n: nat)
    requires 0 < n < 64
    ensures 0 < Pow2(64 - n) <= M64
  {
    Pow2Words();
    Pow2Grows(64 - n, 64);
  }

  lemma PushedUpIs(lo: Word, n: nat)
    requires 0 < n < 64
    ensures PushedUp(lo, n) == lo / Pow2(64 - n) < Pow2(n)
  {
    hide Pow2, And;
    HighBitsKept(lo, n);
    QuotientOfMultiple(lo - lo % Pow2(64 - n), Pow2(64 - n), lo / Pow2(64 - n));
    PowersMeet(n);
    SmallQuotient(lo, Pow2(n), Pow2(64 - n));
  }

  lemma HighBitsKept(lo: Word, n: nat)
    requires 0 < n < 64
    ensures PushedUp(lo, n) == (lo - lo % Pow2(64 - n)) / Pow2(64 - n)
  {
    hide And, Pow2;
    Pow2Words();
    AndHighMask(lo, 64 - n, 64);
  }

  lemma PushedDownIs(hi: SWord, n: nat)
    requires 0 < n < 64
    ensures PushedDown(hi, n) == hi % Pow2(n) * Pow2(64 - n)
  {
    var p, q := Pow2(n), Pow2(64 - n);
    Pow2Words();
    Pow2Sum(n, 64 - n);
    AndLowMask(ToWord(hi), n);
    ModOfWord(hi, p, q);
    SmallProduct(hi % p, p, q);
    SmallMod(hi % p * q, M64);
  }

  /** Shifting left by less than a word: the high bits of the low word move into the high word. */
  lemma ShlHalves(lo: Word, hi: SWord, n: nat)
    requires 0 < n < 64
    ensures Value(ToWord(lo * Pow2(n)), ToSWord(Or(ToWord(hi * Pow2(n)), PushedUp(lo, n)))) ==
            Wrap(Value(lo, hi) * Pow2(n))
  {
    hide *;
    PushedUpIs(lo, n);
    OrShifted(hi, PushedUp(lo, n), n);
    PowersMeet(n);
    ShlValue(lo, hi, Pow2(n), Pow2(64 - n));
  }

  lemma PowersMeet(n: nat)
    requires n < 64
    ensures Pow2(n) * Pow2(64 - n) == M64
  {
    Pow2Words();
    Pow2Sum(n, 64 - n);
  }

  lemma ShlValue(lo: Word, hi: SWord, p: int, q: int)
    requires p > 0 && q > 0 && p * q == M64
    ensures Value(ToWord(lo * p), ToSWord(hi * p + lo / q)) == Wrap(Value(lo, hi) * p)
  {
    var c, d := lo / q, lo % q;
    SplitProduct(lo, p, q);
    SmallProduct(d, q, p);
    Distribute(hi, lo, p);
    DivModUnique(lo * p, M64, c, d * p);
    DivModUnique(Value(lo, hi) * p, M64, hi * p + c, d * p);
    HalvesOf(Value(lo, hi) * p);
  }

  lemma Distribute(hi: int, lo: int, p: int)
    ensures (hi * M64 + lo) * p == M64 * (hi * p) + lo * p
  {
  }

  lemma SplitProduct(x: int, p: int, q: int)
    requires p > 0 && q > 0 && p * q == M64
    ensures x * p == M64 * (x / q) + x % q * p
  {
    var j, k := x / q, x % q;
    assert x == q * j + k;
    assert (q * j + k) * p == (p * q) * j + k * p;
  }

  lemma QuotientOfMultiple(a: int, q: int, c: int)
    requires q > 0 && a == q * c
    ensures a / q == c
  {
    DivModUnique(a, q, c, 0);
  }

  lemma SmallQuotient(a: int, p: int, q: int)
    requires p > 0 && q > 0 && 0 <= a < p * q
    ensures 0 <= a / q < p
  {
    var c := a / q;
    assert a == q * c + a % q;
    if c >= p { SmallProduct(p, c + 1, q); }
  }

  lemma SmallProduct(d: int, q: int, p: int)
    requires p > 0 && 0 <= d < q
    ensures 0 <= d * p < q * p
  {
  }

  /** The shifted high word, joined with fewer than n bits. */
  lemma OrShifted(hi: int, c: nat, n: nat)
    requires n < 64 && c < Pow2(n)
    ensures ToSWord(Or(ToWord(hi * Pow2(n)), c)) == ToSWord(hi * Pow2(n) + c)
  {
    hide *;
    var p, q := Pow2(n), Pow2(64 - n);
    PowersMeet(n);
    SplitProduct(hi, p, q);
    SmallProduct(hi % q, q, p);
    DivModUnique(hi * p, M64, hi / q, hi % q * p);
    ToWordIs(hi * p);
    OrDisjoint(hi % q, c, n);
    ToSWordShift(hi % q * p + c, hi / q);
  }

  lemma ToWordIs(x: int)
    ensures ToWord(x) == x % M64
  {
  }

  lemma ToSWordShift(x: int, j: int)
    ensures ToSWord(x + M64 * j) == ToSWord(x)
  {
  }

  /** Shifting left by a word or more. */
  lemma ShlWord(lo: Word, hi: SWord, n: nat)
    requires 64 <= n
    ensures Value(0, ToSWord(lo * Pow2(n - 64))) == Wrap(Value(lo, hi) * Pow2(n))
  {
    var p := Pow2(n - 64);
    Pow2Words();
    Pow2Sum(n - 64, 64);
    HalvesOf(lo * p * M64);
    DivModUnique(lo * p * M64, M64, lo * p, 0);
    WholeWordProduct(lo, hi, p);
    WrapShift(lo * p * M64, hi * p);
  }

  lemma WholeWordProduct(lo: int, hi: int, p: int)
    ensures (hi * M64 + lo) * (p * M64) == lo * p * M64 + (hi * p) * M128
  {
    assert (hi * M64 + lo) * (p * M64) == lo * p * M64 + (hi * p) * (M64 * M64);
  }

  lemma WrapShift(x: int, k: int)
    ensures Wrap(x + k * M128) == Wrap(x)
  {
    ModShift(x + M127, k);
  }

  lemma ShlAll(lo: Word, hi: SWord, n: nat)
    requires 128 <= n
    ensures Wrap(Value(lo, hi) * Pow2(n)) == 0
  {
    hide Pow2, Value, Wrap;
    Pow2Words();
    Pow2Sum(n - 128, 128);
    Associate(Value(lo, hi), Pow2(n - 128), M128);
    WrapShift(0, Value(lo, hi) * Pow2(n - 128));
    WrapOfSmall(0);
  }

  lemma Associate(x: int, y: int, z: int)
    ensures x * (y * z) == x * y * z
  {
  }

  /** The low word after a right shift by less than a word. */
  function JoinedLow(lo: Word, hi: SWord, n: nat): nat
    requires 0 < n < 64
  {
    hide *;
    Or(lo / Pow2(n), PushedDown(hi, n))
  }

  /** Shifting right by less than a word: the low bits of the high word move into the low word. */
  lemma ShrHalves(lo: Word, hi: SWord, n: nat)
    requires 0 < n < 64
    ensures JoinedLow(lo, hi, n) < M64
    ensures -M63 <= hi / Pow2(n) < M63
    ensures Value(JoinedLow(lo, hi, n), hi / Pow2(n)) == Value(lo, hi) / Pow2(n)
  {
    hide *;
    var p, q := Pow2(n), Pow2(64 - n);
    PowersMeet(n);
    SmallQuotient(lo, q, p);
    JoinedLowIs(lo, hi, n);
    SmallSum(hi % p, p, q, lo / p);
    QuotientShrinks(hi, p);
    ShrValue(lo, hi, p, q);
  }

  lemma JoinedLowIs(lo: Word, hi: SWord, n: nat)
    requires 0 < n < 64 && lo / Pow2(n) < Pow2(64 - n)
    ensures JoinedLow(lo, hi, n) == hi % Pow2(n) * Pow2(64 - n) + lo / Pow2(n)
  {
    hide Pow2, PushedDown, Or;
    var p, q := Pow2(n), Pow2(64 - n);
    PushedDownIs(hi, n);
    OrDisjoint(hi % p, lo / p, 64 - n);
    OrCommutes(lo / p, PushedDown(hi, n));
  }

  lemma ShrValue(lo: Word, hi: SWord, p: int, q: int)
    requires p > 0 && q > 0 && p * q == M64
    requires 0 <= hi % p * q + lo / p < M64 && -M63 <= hi / p < M63
    ensures Value(hi % p * q + lo / p, hi / p) == Value(lo, hi) / p
  {
    var j, k := hi / p, hi % p;
    var c, d := lo / p, lo % p;
    assert hi == p * j + k && lo == p * c + d;
    Regroup(p, q, j, k, c);
    DivModUnique(Value(lo, hi), p, M64 * j + (k * q + c), d);
  }

  lemma Regroup(p: int, q: int, j: int, k: int, c: int)
    requires p * q == M64
    ensures (p * j + k) * M64 + p * c == p * (M64 * j + (k * q + c))
  {
    assert k * M64 == p * (k * q) by { assert k * (p * q) == p * (k * q); }
  }

  lemma SmallSum(k: int, p: int, q: int, c: int)
    requires 0 <= k < p && 0 <= c < q
    ensures 0 <= k * q + c < p * q
  {
    assert k * q <= (p - 1) * q;
  }

  lemma ModOfWord(hi: int, p: int, q: int)
    requires p > 0 && q > 0 && p * q == M64
    ensures ToWord(hi) % p == hi % p
  {
    var j, k := hi / p, hi % p;
    var m := hi / M64;
    assert ToWord(hi) == p * (j - q * m) + k by {
      assert hi == (p * q) * m + ToWord(hi);
      assert (p * q) * m == p * (q * m);
    }
    DivModUnique(ToWord(hi), p, j - q * m, k);
  }

  lemma QuotientShrinks(hi: SWord, p: int)
    requires p > 0
    ensures -M63 <= hi / p < M63
    ensures hi < 0 <==> hi / p < 0
  {
    var j, k := hi / p, hi % p;
    assert hi == p * j + k && 0 <= k < p;
    if j >= 0 { ProductAtLeast(p, j); } else { ProductAtLeast(p, -j - 1); }
  }

  lemma ProductAtLeast(p: int, j: int)
    requires p > 0 && j >= 0
    ensures p * j >= j
  {
  }

  /** Shifting right by a word or more leaves the sign in the high word. */
  lemma ShrWord(lo: Word, hi: SWord, n: nat)
    requires 64 <= n
    ensures Value(ToWord(hi / Pow2(n - 64)), if hi < 0 then -1 else 0) == Value(lo, hi) / Pow2(n)
  {
    hide Pow2, Value;
    Pow2Words();
    Pow2Sum(64, n - 64);
    DivDiv(Value(lo, hi), M64, Pow2(n - 64));
    ValueParts(lo, hi);
    QuotientShrinks(hi, Pow2(n - 64));
    SignExtended(hi / Pow2(n - 64));
  }

  lemma SignExtended(x: SWord)
    ensures Value(ToWord(x), if x < 0 then -1 else 0) == x
  {
  }

  lemma ShrAll(v: int, n: nat)
    requires 128 <= n && -M127 <= v < M127
    ensures v / Pow2(n) == if v < 0 then -1 else 0
  {
    Pow2Words();
    Pow2Grows(128, n);
    if v < 0 { DivModUnique(v, Pow2(n), -1, v + Pow2(n)); } else { SmallMod(v, Pow2(n)); }
  }

  // ----- single bits -----

  lemma BitOfSum(x: int, k: int, n: nat)
    requires n < 64
    ensures Bit(x + k * M64, n) == Bit(x, n)
  {
    hide Pow2;
    Pow2Words();
    Pow2Sum(n, 63 - n);
    EvenQuotient(x, k, Pow2(n), Pow2(63 - n));
  }

  lemma EvenQuotient(x: int, k: int, p: int, q: int)
    requires p > 0 && 2 * (p * q) == M64
    ensures (x + k * M64) / p % 2 == x / p % 2
  {
    var c, d := x / p, x % p;
    assert x == p * c + d;
    assert k * (2 * (p * q)) == p * (2 * (k * q));
    assert p * (c + 2 * (k * q)) == p * c + p * (2 * (k * q));
    DivModUnique(x + k * M64, p, c + 2 * (k * q), d);
  }

  /** Asking one half for a bit asks the 128-bit value. */
  lemma BitOfHalves(lo: Word, hi: SWord, n: nat)
    ensures n < 64 ==> ((And(lo, Pow2(n)) != 0) == Bit(Value(lo, hi), n))
    ensures 64 <= n < 128 ==> ((And(ToWord(hi), Pow2(n - 64)) != 0) == Bit(Value(lo, hi), n))
    ensures 128 <= n ==> (hi < 0) == Bit(Value(lo, hi), n)
  {
    hide And, Or, Pow2;
    if n < 64 {
      AndBit(lo, n);
      BitOfSum(lo, hi, n);
    } else if n < 128 {
      AndBit(ToWord(hi), n - 64);
      BitOfSum(ToWord(hi), hi / M64, n - 64);
      ShrWord(lo, hi, n);
      HighBits(lo, hi, n);
    } else {
      ShrAll(Value(lo, hi), n);
    }
  }

  lemma HighBits(lo: Word, hi: SWord, n: nat)
    requires 64 <= n
    ensures Bit(Value(lo, hi), n) == Bit(hi, n - 64)
  {
    hide Value;
    Pow2Words();
    Pow2Sum(64, n - 64);
    DivDiv(Value(lo, hi), M64, Pow2(n - 64));
    ValueParts(lo, hi);
  }

  /** Joining a bit that is there changes nothing. */
  lemma {:induction false} OrSetBit(a: nat, n: nat)
    requires Bit(a, n)
    ensures Or(a, Pow2(n)) == a
    decreases n
  {
    if n == 0 {
      OrZero(a / 2);
    } else {
      HalfBit(a, n);
      OrSetBit(a / 2, n - 1);
      assert Pow2(n) / 2 == Pow2(n - 1) && Pow2(n) % 2 == 0;
    }
  }

  lemma {:induction false} BitRoom(a: nat, n: nat, m: nat)
    requires n < m && a < Pow2(m)
    ensures if Bit(a, n) then a >= Pow2(n) else a + Pow2(n) < Pow2(m)
    decreases n
  {
    hide Bit;
    if n == 0 {
      LastBit(a, Pow2(m - 1));
    } else {
      HalfBit(a, n);
      BitRoom(a / 2, n - 1, m - 1);
    }
  }

  lemma LastBit(a: nat, r: nat)
    requires a < 2 * r
    ensures Bit(a, 0) == (a % 2 == 1)
    ensures if Bit(a, 0) then a >= 1 else a + 1 < 2 * r
  {
  }

  /** The value with bit n set or cleared. */
  function WithBit(v: int, n: nat, val: bool): int {
    if Bit(v, n) == val then v else if val then Wrap(v + Pow2(n)) else Wrap(v - Pow2(n))
  }

  /** What setting or clearing a bit makes of one word. */
  function WordWithBit(w: Word, n: nat, val: bool): Word
    requires n < 64
  {
    hide *;
    WordBits(w, n);
    if val then Or(w, Pow2(n)) else And(w, M64 - 1 - Pow2(n))
  }

  lemma WordBits(w: Word, n: nat)
    requires n < 64
    ensures Pow2(n) < M64
    ensures Or(w, Pow2(n)) == (if Bit(w, n) then w else w + Pow2(n)) < M64
    ensures And(w, M64 - 1 - Pow2(n)) == (if Bit(w, n) then w - Pow2(n) else w)
    ensures 0 <= And(w, M64 - 1 - Pow2(n)) < M64
  {
    hide And, Or, Bit;
    Pow2Words();
    Pow2Grows(n, 64);
    BitRoom(w, n, 64);
    AndClearBit(w, n, 64);
    if Bit(w, n) { OrSetBit(w, n); } else { OrBit(w, n); }
  }

  lemma LowWithBit(lo: Word, hi: SWord, n: nat, val: bool)
    requires n < 64
    ensures Value(WordWithBit(lo, n, val), hi) == WithBit(Value(lo, hi), n, val)
  {
    hide And, Or, Bit, Pow2;
    WordBits(lo, n);
    BitOfSum(lo, hi, n);
    WrapOfSmall(Value(WordWithBit(lo, n, val), hi));
  }

  lemma HighWithBit(lo: Word, hi: SWord, n: nat, val: bool)
    requires 64 <= n < 128
    ensures Value(lo, ToSWord(WordWithBit(ToWord(hi), n - 64, val))) == WithBit(Value(lo, hi), n, val)
  {
    hide And, Or, Bit, Pow2;
    var k := n - 64;
    WordBits(ToWord(hi), k);
    BitOfSum(ToWord(hi), hi / M64, k);
    HighBits(lo, hi, n);
    Pow2Words();
    Pow2Sum(64, k);
    HighPart(lo, hi, WordWithBit(ToWord(hi), k, val) - ToWord(hi));
  }

  lemma HighPart(lo: Word, hi: SWord, d: int)
    ensures Value(lo, ToSWord(ToWord(hi) + d)) == Wrap(Value(lo, hi) + d * M64)
    ensures ToSWord(ToWord(hi)) == hi
  {
    hide Wrap, ToSWord;
    var x := Value(lo, hi) + d * M64;
    HalvesOf(x);
    SWordFits(hi);
    ToSWordShift(ToWord(hi) + d, hi / M64);
    ToSWordShift(ToWord(hi), hi / M64);
    assert ToWord(hi) + hi / M64 * M64 == hi;
    DivModUnique(x, M64, hi + d, lo);
  }
}
