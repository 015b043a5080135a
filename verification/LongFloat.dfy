/** Conversion of 64-bit integers to single and double precision by words (lib/armeabi.c:202-333). */
module LongFloat {
  import opened Power2
  import opened Words
  import opened Words32
  import opened Rounding
  import opened QuadNarrow
  import opened QuadInteger
  import opened LongConversion

  // ----- the encodings next to an integer

  /** t is the place of the top bit of n. */
  predicate IsTop(n: nat, t: nat) { Pow2(t) <= n < 2 * Pow2(t) }

  /** The fraction of n in the format, cut off. */
  function Fraction(F: Format, n: nat, t: nat): int {
    if t <= F.fracBits then (n - Pow2(t)) * Pow2(F.fracBits - t)
    else (n - Pow2(t)) / Pow2(t - F.fracBits)
  }

  function BiasedExponent(F: Format, t: nat): int { t - Unit(F) - F.fracBits + 1 }

  /** The code the conversions make of the fraction when it is to be incremented or not. Exponent and
      fraction are merged by a bitwise or, so that a carry out of the fraction is lost in an odd
      exponent. */
  function MergedCode(F: Format, f: int, e: int, up: bool): int {
    var p := Pow2(F.fracBits);
    if up && f + 1 == p && e % 2 == 1 then e * p
    else e * p + f + if up then 1 else 0
  }

  predicate IsNarrow(F: Format) { F == Single || F == Double }

  /** An integer of at most 64 bits between two neighbouring encodings. */
  lemma Neighbours(F: Format, n: nat, t: nat)
    requires IsNarrow(F) && IsTop(n, t) && F.fracBits < t < 64
    ensures var k, p := t - F.fracBits, Pow2(F.fracBits);
            var q, c := n / Pow2(k), (BiasedExponent(F, t) - 1) * p + n / Pow2(k);
            && p <= q < 2 * p && 0 <= c && c + 1 <= Infinity(F) && c % 2 == q % 2
            && Fraction(F, n, t) == q - p && c == BiasedExponent(F, t) * p + Fraction(F, n, t)
            && Magnitude(F, c) == (q * Pow2(k)) as real && Magnitude(F, c + 1) == ((q + 1) * Pow2(k)) as real
  {
    FormatConstants();
    hide Pow2, Units, Magnitude, Unit, Infinity;
    var k, p := t - F.fracBits, Pow2(F.fracBits);
    var q, eb := n / Pow2(k), BiasedExponent(F, t) - 1;
    Pow2Add(F.fracBits, k);
    Recompose(n, Pow2(k));
    DivAtLeast(n, Pow2(k), p);
    assert 2 * (p * Pow2(k)) == (2 * p) * Pow2(k);
    DivLess(n, Pow2(k), 2 * p);
    ShiftedDivision(n, p, Pow2(k));
    CodeMagnitude(F, eb, q);
    CodeMagnitude(F, eb, q + 1);
    assert Unit(F) + eb == k;
    IntegerUnits(q, k);
    IntegerUnits(q + 1, k);
    CodeParityAt(eb, p, q, F.fracBits);
    CodeBelowInfinity(F, eb, q);
  }

  lemma IntegerUnits(x: nat, k: nat)
    ensures Units(x, k) == (x * Pow2(k)) as real
  {
    hide Pow2, Units;
    UnitsShift(x, 0, k);
    UnitsOne(x * Pow2(k));
  }

  lemma CodeParityAt(eb: nat, p: nat, q: nat, b: nat)
    requires p == Pow2(b) && b > 0
    ensures (eb * p + q) % 2 == q % 2
  {
    var h := eb * Pow2(b - 1);
    assert eb * p == 2 * h;
  }

  lemma CodeBelowInfinity(F: Format, eb: nat, q: nat)
    requires q < 2 * Pow2(F.fracBits) && eb + 3 <= F.maxExp
    ensures eb * Pow2(F.fracBits) + q + 1 <= Infinity(F)
  {
    hide Pow2;
    var p := Pow2(F.fracBits);
    MulMono(eb + 3, F.maxExp, p);
    assert (eb + 3) * p == eb * p + 3 * p;
  }

  /** Whether the cut-off fraction must be incremented. */
  predicate MustRoundUp(n: nat, k: nat)
    requires k > 0
  {
    n % Pow2(k) > Pow2(k - 1) || (n % Pow2(k) == Pow2(k - 1) && n / Pow2(k) % 2 == 1)
  }

  lemma HalfWay(n: nat, q: nat, p: nat, h: nat, m: nat)
    requires p == 2 * h && n == q * p + m && m < p
    ensures var lo, hi := (q * p) as real, ((q + 1) * p) as real;
            && lo <= n as real <= hi
            && (2.0 * n as real < lo + hi <==> m < h) && (2.0 * n as real > lo + hi <==> m > h)
  {
    assert (q + 1) * p == q * p + p;
    var x := q * p;
  }

  /** The correctly rounded encoding of an integer with lost bits. */
  lemma RoundedInteger(F: Format, n: nat, t: nat)
    requires IsNarrow(F) && IsTop(n, t) && F.fracBits < t < 64
    ensures var k := t - F.fracBits;
            var c := BiasedExponent(F, t) * Pow2(F.fracBits) + Fraction(F, n, t);
            c >= 0 && IsNearestEven(F, if MustRoundUp(n, k) then c + 1 else c, n as real)
  {
    hide Pow2, Units, Magnitude, Unit, Infinity, IsNearestEven, Fraction, BiasedExponent, MustRoundUp;
    Neighbours(F, n, t);
    var k := t - F.fracBits;
    var c := BiasedExponent(F, t) * Pow2(F.fracBits) + Fraction(F, n, t);
    Recompose(n, Pow2(k));
    Pow2Add(k - 1, 1);
    Pow2Small();
    HalfWay(n, n / Pow2(k), Pow2(k), Pow2(k - 1), n % Pow2(k));
    MustRoundUpIs(n, k, c);
    NearestOfTwo(F, c, n as real, if MustRoundUp(n, k) then c + 1 else c);
  }

  lemma MustRoundUpIs(n: nat, k: nat, c: nat)
    requires k > 0 && c % 2 == n / Pow2(k) % 2
    ensures n % Pow2(k) > Pow2(k - 1) ==> MustRoundUp(n, k)
    ensures n % Pow2(k) < Pow2(k - 1) ==> !MustRoundUp(n, k)
    ensures n % Pow2(k) == Pow2(k - 1) ==> (MustRoundUp(n, k) <==> c % 2 == 1)
  {}

  lemma MergedDecides(F: Format, f: int, e: int, up: bool, must: bool)
    requires 0 <= f < Pow2(F.fracBits) && Pow2(F.fracBits) >= 2
    ensures MergedCode(F, f, e, up) == e * Pow2(F.fracBits) + f + (if must then 1 else 0) <==>
              (up <==> must) && !(up && f + 1 == Pow2(F.fracBits) && e % 2 == 1)
    ensures MergedCode(F, f, e, up) >= e * Pow2(F.fracBits)
  {
    hide Pow2;
  }

  /** Exactly when the merged code is right: the fraction is incremented as it must be, and no carry
      is lost. */
  lemma MergedIsNearest(F: Format, n: nat, t: nat, up: bool)
    requires IsNarrow(F) && IsTop(n, t) && F.fracBits < t < 64
    ensures var f, e := Fraction(F, n, t), BiasedExponent(F, t);
            var code := MergedCode(F, f, e, up);
            code >= 0 && (IsNearestEven(F, code, n as real) <==>
              (up <==> MustRoundUp(n, t - F.fracBits)) && !(up && f + 1 == Pow2(F.fracBits) && e % 2 == 1))
  {
    FormatConstants();
    hide Pow2, Units, Magnitude, Infinity, IsNearestEven, Fraction, MustRoundUp, MergedCode;
    Neighbours(F, n, t);
    RoundedInteger(F, n, t);
    var f, e := Fraction(F, n, t), BiasedExponent(F, t);
    MergedDecides(F, f, e, up, MustRoundUp(n, t - F.fracBits));
    MulMono(0, e, Pow2(F.fracBits));
    hide BiasedExponent;
    var c := e * Pow2(F.fracBits) + f;
    var code := MergedCode(F, f, e, up);
    if IsNearestEven(F, code, n as real) {
      NearestIsUnique(F, code, if MustRoundUp(n, t - F.fracBits) then c + 1 else c, n as real);
    }
  }

  /** No encoding lies strictly between c and the real: c is next to it on one side. */
  ghost predicate IsNextTo(F: Format, c: nat, v: real) {
    c <= Infinity(F) && forall d: nat | d <= Infinity(F) ::
      !(Magnitude(F, c) < Magnitude(F, d) < v) && !(v < Magnitude(F, d) < Magnitude(F, c)) &&
      (Magnitude(F, d) == v ==> d == c)
  }

  /** Right or not, the merged code is next to the integer, unless a carry is lost: then it is the
      power of two below it. */
  lemma MergedIsNextTo(F: Format, n: nat, t: nat, up: bool)
    requires IsNarrow(F) && IsTop(n, t) && F.fracBits < t < 64
    requires up ==> n % Pow2(t - F.fracBits) > 0
    ensures var f, e := Fraction(F, n, t), BiasedExponent(F, t);
            var code := MergedCode(F, f, e, up);
            && code >= 0
            && if up && f + 1 == Pow2(F.fracBits) && e % 2 == 1 then code == e * Pow2(F.fracBits)
               else IsNextTo(F, code, n as real)
  {
    FormatConstants();
    hide Pow2, Units, Magnitude, Infinity, IsNextTo, Fraction, MergedCode, IsTop;
    Neighbours(F, n, t);
    var f, e, k := Fraction(F, n, t), BiasedExponent(F, t), t - F.fracBits;
    MergedDecides(F, f, e, up, up);
    MulMono(0, e, Pow2(F.fracBits));
    hide BiasedExponent;
    var c := e * Pow2(F.fracBits) + f;
    Recompose(n, Pow2(k));
    HalfOf(k);
    HalfWay(n, n / Pow2(k), Pow2(k), Pow2(k - 1), n % Pow2(k));
    LostCarry(F, f, e, up);
    if up { NextAbove(F, c, n as real); } else { NextBelow(F, c, n as real); }
  }

  lemma HalfOf(k: nat)
    requires k > 0
    ensures Pow2(k) == 2 * Pow2(k - 1)
  {}

  lemma LostCarry(F: Format, f: int, e: int, up: bool)
    ensures up && f + 1 == Pow2(F.fracBits) && e % 2 == 1 ==> MergedCode(F, f, e, up) == e * Pow2(F.fracBits)
    ensures !(up && f + 1 == Pow2(F.fracBits) && e % 2 == 1) ==>
              MergedCode(F, f, e, up) == e * Pow2(F.fracBits) + f + if up then 1 else 0
  {
    hide Pow2;
  }

  lemma NextBelow(F: Format, c: nat, v: real)
    requires c + 1 <= Infinity(F) && Magnitude(F, c) <= v < Magnitude(F, c + 1)
    ensures IsNextTo(F, c, v)
  {
    hide Magnitude, Infinity;
    forall d: nat | d <= Infinity(F)
      ensures d < c ==> Magnitude(F, d) < Magnitude(F, c)
      ensures d > c ==> Magnitude(F, d) >= Magnitude(F, c + 1)
    {
      if d < c { MagnitudeMono(F, d, c); }
      if d > c + 1 { MagnitudeMono(F, c + 1, d); }
    }
  }

  lemma NextAbove(F: Format, c: nat, v: real)
    requires c + 1 <= Infinity(F) && Magnitude(F, c) < v < Magnitude(F, c + 1)
    ensures IsNextTo(F, c + 1, v)
  {
    hide Magnitude, Infinity;
    forall d: nat | d <= Infinity(F)
      ensures d <= c ==> Magnitude(F, d) <= Magnitude(F, c)
      ensures d > c + 1 ==> Magnitude(F, d) > Magnitude(F, c + 1)
    {
      if d < c { MagnitudeMono(F, d, c); }
      if d > c + 1 { MagnitudeMono(F, c + 1, d); }
    }
  }

  /** An integer without lost bits is encoded exactly. */
  lemma ExactInteger(F: Format, n: nat, t: nat)
    requires IsNarrow(F) && IsTop(n, t) && t <= F.fracBits
    ensures var code := MergedCode(F, Fraction(F, n, t), BiasedExponent(F, t), false);
            code >= 0 && IsNearestEven(F, code, n as real) && 0 <= Fraction(F, n, t) < Pow2(F.fracBits)
  {
    FormatConstants();
    hide Pow2, Units, Magnitude, Unit, Infinity, IsNearestEven;
    var p, s := Pow2(F.fracBits), Pow2(F.fracBits - t);
    var m, eb := n * s, BiasedExponent(F, t) - 1;
    Pow2Add(t, F.fracBits - t);
    MulMono(Pow2(t), n, s);
    ProductBelow(n, 2 * Pow2(t), s);
    assert 2 * Pow2(t) * s == 2 * p;
    assert (n - Pow2(t)) * s == m - p;
    CodeMagnitude(F, eb, m);
    UnitsShift(n, t - F.fracBits, F.fracBits - t);
    UnitsOne(n);
    CodeBelowInfinity(F, eb, m);
    ExactIsNearest(F, eb * p + m);
    assert (eb + 1) * p == eb * p + p;
  }

  // ----- the top bit, by scanning

  lemma {:induction false} AndTopBit(x: nat, s: nat)
    requires x < 2 * Pow2(s)
    ensures BitAnd(x, Pow2(s)) != 0 <==> x >= Pow2(s)
  {
    AndStep(x, Pow2(s));
    if s == 0 {
      assert BitAnd(0, 0) == 0;
    } else {
      DivModUnique(Pow2(s), 2, Pow2(s - 1), 0);
      hide BitAnd;
      AndTopBit(x / 2, s - 1);
    }
  }

  /** Scans down from bit 31 for the first one; the mask ends as zero if there is none. */
  method ScanBits(x: Word32) returns (s: int, p: Word32)
    ensures x == 0 ==> p == 0
    ensures x > 0 ==> 0 <= s <= 31 && p == Pow2(s) && IsTop(x, s)
  {
    hide And32, BitAnd;
    Constants();
    Pow2Small();
    s, p := 31, 0x8000_0000;
    AndIsBitAnd(x, p);
    AndTopBit(x, 31);
    while p != 0 && And32(x, p) == 0
      invariant if p == 0 then x == 0 else 0 <= s <= 31 && p == Pow2(s) && x < 2 * p
      invariant p != 0 ==> (And32(x, p) != 0 <==> x >= p)
      decreases p
    {
      HalfMask(p, s);
      s, p := s - 1, Shr32(p, 1);
      if s >= 0 {
        AndIsBitAnd(x, p);
        AndTopBit(x, s);
      }
    }
  }

  lemma AndIsBitAnd(x: Word32, y: Word32)
    ensures And32(x, y) == BitAnd(x, y)
  {}

  lemma HalfMask(p: Word32, s: nat)
    requires p == Pow2(s)
    ensures Shr32(p, 1) == (if s == 0 then 0 else Pow2(s - 1)) < p
    ensures p == 2 * Shr32(p, 1) || p == 1
  {
    Pow2Small();
  }

  // ----- single precision

  /** Whether the code increments the fraction: it looks at the first lost bit only where a bit of one
      word is lost, and otherwise at a bit that is kept, or at none. */
  predicate IncrementsSingle(n: nat, t: nat) {
    if t <= 23 || t == 54 || t == 55 then false
    else if t < 32 || t > 55 then n / Pow2(t - 24) % 2 == 1
    else n / Pow2(t - 22) % 2 == 1
  }

  /** The exact condition for a correctly rounded single, on the kept part q and the lost part l of a
      number of more than 24 bits. Where all lost bits are in one word, half-way cases below an even
      fraction go wrong; where they spread over both, it is the last bit but one of q that happens to
      decide; and for two widths nothing is ever rounded up. A carry out of the fraction is lost if the
      top bit is even. */
  predicate RoundsSingle(n: nat, t: nat) {
    t <= 23 ||
    (var q, l, half := n / Pow2(t - 23), n % Pow2(t - 23), Pow2(t - 24);
     if t == 54 || t == 55 then l < half || (l == half && q % 2 == 0)
     else if t < 32 || t > 55 then
       && !(l == half && q % 2 == 0)
       && !(l >= half && q == 0xff_ffff && t % 2 == 0)
     else if q / 2 % 2 == 1 then
       && (l > half || (l == half && q % 2 == 1))
       && !(q == 0xff_ffff && t % 2 == 0)
     else l < half || (l == half && q % 2 == 0))
  }

  function SingleCode(n: nat, t: nat): int {
    MergedCode(Single, Fraction(Single, n, t), BiasedExponent(Single, t), IncrementsSingle(n, t))
  }

  lemma SingleCodeIsNearest(n: nat, t: nat)
    requires IsTop(n, t) && t < 64
    ensures SingleCode(n, t) >= 0 && (IsNearestEven(Single, SingleCode(n, t), n as real) <==> RoundsSingle(n, t))
  {
    hide IsNearestEven, MergedCode, Fraction, MustRoundUp, IncrementsSingle, RoundsSingle, Pow2;
    FormatConstants();
    RoundsSingleIs(n, t);
    if t <= 23 {
      NoIncrement(n, t);
      ExactInteger(Single, n, t);
    } else {
      MergedIsNearest(Single, n, t, IncrementsSingle(n, t));
      Neighbours(Single, n, t);
      OddExponent(t);
    }
  }

  /** The code increments exactly if it must, and loses no carry. */
  lemma RoundsSingleIs(n: nat, t: nat)
    ensures RoundsSingle(n, t) <==>
              t <= 23 ||
              ((IncrementsSingle(n, t) <==> MustRoundUp(n, t - 23)) &&
               !(IncrementsSingle(n, t) && n / Pow2(t - 23) == 0xff_ffff && t % 2 == 0))
  {
    hide Pow2;
    if t > 23 {
      HalfOrMore(n, t - 24);
      SecondBit(n, t - 23);
    }
  }

  lemma SecondBit(n: nat, k: nat)
    ensures n / Pow2(k + 1) == n / Pow2(k) / 2
  {
    hide Pow2;
    Pow2Add(k, 1);
    Pow2Small();
    DivDiv(n, Pow2(k), 2);
  }

  lemma NoIncrement(n: nat, t: nat)
    ensures t <= 23 ==> !IncrementsSingle(n, t)
  {}

  lemma OddExponent(t: nat)
    ensures BiasedExponent(Single, t) % 2 == 1 <==> t % 2 == 0
    ensures BiasedExponent(Double, t) % 2 == 1 <==> t % 2 == 0
    ensures BiasedExponent(Single, t) == t + 127 && BiasedExponent(Double, t) == t + 1023
  {
    FormatConstants();
  }

  /** The sign and the magnitude: the two's complement of a negative number. */
  function IsNegative(withSign: bool, v: Word): bool { withSign && v >= W64 / 2 }

  function MagnitudeOfLong(withSign: bool, v: Word): Word {
    if IsNegative(withSign, v) then Plus(W64 - 1 - v, 1) else v
  }

  lemma MagnitudeIsAbs(withSign: bool, v: Word)
    ensures withSign ==>
              MagnitudeOfLong(withSign, v) == Abs(Signed64(v)) && (IsNegative(withSign, v) <==> Signed64(v) < 0)
    ensures !withSign ==> MagnitudeOfLong(withSign, v) == v
  {}

  lemma TopUnique(n: nat, t: nat, u: nat)
    requires IsTop(n, t) && IsTop(n, u)
    ensures t == u
  {
    hide Pow2;
    Pow2Small();
    if t < u { Pow2Mono(t + 1, u); Pow2Add(t, 1); }
    if u < t { Pow2Mono(u + 1, t); Pow2Add(u, 1); }
  }

  /** The fraction and the bit looked at, of a number with a high word. */
  method SingleHigh(high: Word32, low: Word32, s: nat) returns (ret: Word32, flb: Word32)
    requires IsTop(high, s) && s <= 31
    ensures IsTop(Pair(high, low), s + 32) && ret == Fraction(Single, Pair(high, low), s + 32) && ret < Pow2(23)
    ensures flb <= 1 && (flb != 0 <==> IncrementsSingle(Pair(high, low), s + 32))
  {
    hide Pow2, BitAnd, BitOr, Or32, And32, Lsl, Lsr, Fraction, IncrementsSingle, Pair;
    TopOfPair(high, low, s);
    MaskBelow(high, s);
    ret := And32(high, Pow2(s) - 1);
    if s < 23 {
      ret := Lsl(ret, 23 - s);
      ret := Or32(ret, Lsr(low, 32 - (23 - s)));
      flb := And32(Lsr(low, 32 - (23 - s - 1)), 1);
      SpreadFraction(high, low, s);
      SpreadBit(high, low, s);
    } else {
      flb := And32(Lsr(ret, s - 23 - 1), 1);
      ret := Lsr(ret, s - 23);
      HighFraction32(high, low, s);
      HighBit(high, low, s);
    }
  }

  lemma TopOfPair(high: Word32, low: Word32, s: nat)
    requires IsTop(high, s)
    ensures IsTop(Pair(high, low), s + 32)
  {
    hide Pow2;
    Pow2_64();
    Pow2Add(s, 32);
  }

  lemma MaskBelow(x: Word32, s: nat)
    requires IsTop(x, s)
    ensures Pow2(s) - 1 < W32 && And32(x, Pow2(s) - 1) == x - Pow2(s)
  {
    AndMask(x, s);
    DivModUnique(x, Pow2(s), 1, x - Pow2(s));
  }

  lemma LowBitIs(x: Word32)
    ensures And32(x, 1) == x % 2
  {
    Pow2Small();
    AndMask(x, 1);
  }

  lemma FractionIs(n: nat, t: nat)
    ensures t > 23 ==> Fraction(Single, n, t) == (n - Pow2(t)) / Pow2(t - 23)
    ensures t > 52 ==> Fraction(Double, n, t) == (n - Pow2(t)) / Pow2(t - 52)
    ensures t <= 52 ==> Fraction(Double, n, t) == (n - Pow2(t)) * Pow2(52 - t)
  {}

  lemma SplitQuotient(r: int, low: nat, a: nat, b: nat)
    requires b > 0 && a * b == W32
    ensures (r * W32 + low) / b == r * a + low / b
  {
    MulAssoc(r, a, b);
    ShiftedDivision(low, -(r * a), b);
    assert low - (-(r * a)) * b == r * W32 + low;
  }

  /** The fraction of a number whose lost bits are all in the low word. */
  lemma SpreadFraction(high: Word32, low: Word32, s: nat)
    requires IsTop(high, s) && s < 23
    ensures var r: Word32 := high - Pow2(s);
            var ret := Or32(Lsl(r, 23 - s), Lsr(low, 32 - (23 - s)));
            ret == Fraction(Single, Pair(high, low), s + 32) && ret < Pow2(23)
  {
    hide Pow2, BitOr, Or32, Lsl, Lsr, Fraction, Pair;
    var r: Word32 := high - Pow2(s);
    FractionIs(Pair(high, low), s + 32);
    WithoutTop(high, low, s);
    SpreadWords(r, low, s);
    SplitAt(r, low, s);
  }

  lemma SplitAt(r: int, low: nat, s: nat)
    requires s < 23
    ensures (r * W32 + low) / Pow2(9 + s) == r * Pow2(23 - s) + low / Pow2(9 + s)
  {
    hide Pow2;
    Pow2_64();
    Pow2Add(23 - s, 9 + s);
    SplitQuotient(r, low, Pow2(23 - s), Pow2(9 + s));
  }

  lemma WithoutTop(high: Word32, low: Word32, s: nat)
    requires IsTop(high, s)
    ensures Pair(high, low) - Pow2(s + 32) == (high - Pow2(s)) * W32 + low
  {
    hide Pow2;
    Pow2_64();
    Pow2Add(s, 32);
  }

  lemma SpreadWords(r: Word32, low: Word32, s: nat)
    requires r < Pow2(s) && s < 23
    ensures Or32(Lsl(r, 23 - s), Lsr(low, 9 + s)) == r * Pow2(23 - s) + low / Pow2(9 + s) < Pow2(23)
  {
    hide Pow2, BitOr, Or32, Lsl, Lsr;
    var a := Pow2(23 - s);
    Pow2_64();
    Constants();
    Pow2Add(23 - s, 9 + s);
    Pow2Add(s, 23 - s);
    ShiftedOut(r, 23 - s);
    ShiftedOut(low, 9 + s);
    MulMono(r + 1, Pow2(s), a);
    assert (r + 1) * a == r * a + a;
    Shl32Exact(r, 23 - s);
    ShrIs(low, 9 + s);
    DivLess(low, Pow2(9 + s), a);
    OrShifted(r, Lsr(low, 9 + s), 23 - s);
  }

  /** The bit that the code takes for the first lost one. */
  lemma SpreadBit(high: Word32, low: Word32, s: nat)
    requires IsTop(high, s) && s < 23
    ensures And32(Lsr(low, 32 - (23 - s - 1)), 1) == if IncrementsSingle(Pair(high, low), s + 32) then 1 else 0
  {
    hide Pow2, BitOr, BitAnd, And32, Lsr;
    LowBitIs(Lsr(low, 10 + s));
    ShiftedOut(low, 10 + s);
    if s < 22 {
      ShrIs(low, 10 + s);
      LowParity(high, low, 22 - s);
    }
  }

  /** A bit of the low word is that bit of the pair. */
  lemma LowParity(high: Word32, low: Word32, k: nat)
    requires 0 < k <= 32
    ensures Pair(high, low) / Pow2(32 - k) % 2 == low / Pow2(32 - k) % 2
  {
    hide Pow2;
    Pow2_64();
    Pow2Add(1, k - 1);
    Pow2Small();
    Pow2Add(k, 32 - k);
    EvenAbove(high, low, Pow2(k - 1), Pow2(32 - k));
  }

  lemma EvenAbove(high: nat, low: nat, p: nat, b: nat)
    requires b > 0 && 2 * p * b == W32
    ensures (high * W32 + low) / b % 2 == low / b % 2
  {
    var a := high * p;
    assert high * (2 * p * b) == (2 * a) * b;
    assert (2 * a + low / b) * b == (2 * a) * b + low / b * b;
    Recompose(low, b);
    DivModUnique(high * W32 + low, b, 2 * a + low / b, low % b);
    EvenPlus(low / b, a);
  }

  lemma EvenPlus(x: int, y: int)
    ensures (x + 2 * y) % 2 == x % 2 && (x - -(2 * y)) % 2 == x % 2
  {}

  /** The fraction of a number whose lost bits take in the whole low word. */
  lemma HighFraction32(high: Word32, low: Word32, s: nat)
    requires IsTop(high, s) && 23 <= s <= 31
    ensures var r: Word32 := high - Pow2(s);
            Lsr(r, s - 23) == Fraction(Single, Pair(high, low), s + 32) && Lsr(r, s - 23) < Pow2(23)
  {
    hide Pow2, Lsr;
    var r: Word32 := high - Pow2(s);
    Pow2_64();
    Pow2Add(s, 32);
    Pow2Add(32, s - 23);
    Pow2Add(23, s - 23);
    ShiftedOut(r, s - 23);
    ShrIs(r, s - 23);
    DivDiv(Pair(r, low), W32, Pow2(s - 23));
    DivModUnique(Pair(r, low), W32, r, low);
    DivLess(r, Pow2(s - 23), Pow2(23));
  }

  lemma HighBit(high: Word32, low: Word32, s: nat)
    requires IsTop(high, s) && 23 <= s <= 31
    ensures var r: Word32 := high - Pow2(s);
            And32(Lsr(r, s - 23 - 1), 1) == if IncrementsSingle(Pair(high, low), s + 32) then 1 else 0
  {
    hide Pow2, BitAnd, And32, Lsr, IncrementsSingle, Pair;
    var r: Word32 := high - Pow2(s);
    LowBitIs(Lsr(r, s - 24));
    IncrementsIs(Pair(high, low), s + 32);
    if s > 23 {
      BitBelow24(high, s);
      DropLowWord(high, low, s - 24);
    } else {
      ShiftedOut(r, -1);
    }
  }

  lemma IncrementsIs(n: nat, t: nat)
    ensures t > 55 ==> (IncrementsSingle(n, t) <==> n / Pow2(t - 24) % 2 == 1)
    ensures t == 54 || t == 55 ==> !IncrementsSingle(n, t)
  {}

  lemma DropLowWord(high: Word32, low: Word32, k: nat)
    ensures Pair(high, low) / Pow2(32 + k) == high / Pow2(k)
  {
    hide Pow2;
    Pow2_64();
    Pow2Add(32, k);
    DivDiv(Pair(high, low), W32, Pow2(k));
    DivModUnique(Pair(high, low), W32, high, low);
  }

  /** Taking the top bit away leaves the bit 24 places below. */
  lemma BitBelow24(x: Word32, s: nat)
    requires IsTop(x, s) && 24 <= s <= 31
    ensures var r: Word32 := x - Pow2(s); Lsr(r, s - 24) % 2 == x / Pow2(s - 24) % 2
  {
    hide Pow2, Lsr;
    var r: Word32 := x - Pow2(s);
    Constants();
    Pow2Add(24, s - 24);
    Pow2Add(23, 1);
    Pow2Small();
    ShiftedOut(r, s - 24);
    ShrIs(r, s - 24);
    ShiftedDivision(x, 0x100_0000, Pow2(s - 24));
    EvenPlus(x / Pow2(s - 24), -0x80_0000);
  }

  method SingleLow(low: Word32, s: nat) returns (ret: Word32, flb: Word32)
    requires IsTop(low, s) && s <= 31
    ensures ret == Fraction(Single, low, s) && ret < Pow2(23)
    ensures flb <= 1 && (flb != 0 <==> IncrementsSingle(low, s))
  {
    hide Pow2, BitAnd, BitOr, Or32, And32, Lsl, Lsr;
    MaskBelow(low, s);
    ret := And32(low, Pow2(s) - 1);
    Pow2Add(23 - if s <= 23 then s else 23, if s <= 23 then s else 23);
    Constants();
    if s <= 23 {
      ProductBelow(ret, Pow2(s), Pow2(23 - s));
      Shl32Exact(ret, 23 - s);
      ShiftedOut(ret, 23 - s);
      ret := Lsl(ret, 23 - s);
      flb := 0;
    } else {
      Pow2Add(23, s - 23);
      DivLess(ret, Pow2(s - 23), Pow2(23));
      ShiftedOut(ret, s - 23);
      ShrIs(ret, s - 23);
      LowBit24(low, s);
      flb := And32(Lsr(ret, s - 23 - 1), 1);
      ret := Lsr(ret, s - 23);
    }
  }

  lemma LowBit24(low: Word32, s: nat)
    requires IsTop(low, s) && 24 <= s <= 31
    ensures var r: Word32 := low - Pow2(s);
            And32(Lsr(r, s - 24), 1) == if IncrementsSingle(low, s) then 1 else 0
  {
    BitBelow24(low, s);
    hide Pow2, BitAnd, And32, Lsr;
    LowBitIs(Lsr(low - Pow2(s), s - 24));
  }

  /** Increment, exponent and sign, merged. */
  method MergeSingle(f: Word32, flb: Word32, t: nat, sign: nat) returns (ret: Word32)
    requires f < Pow2(23) && flb <= 1 && t < 64 && sign <= 1
    ensures ret == sign * SIGN32 + MergedCode(Single, f, t + 127, flb != 0)
  {
    hide Pow2, BitOr, Or32, Lsl, Lsr;
    Constants();
    ret := f;
    if flb != 0 {
      ret := Plus32(ret, 1);
      DivModUnique(f + 1, W32, 0, f + 1);
    }
    ExponentRoom(t + 127, 23, 8);
    Shl32Exact(t + 127, 23);
    MergeExponent(ret, t + 127, 23, Shl32(t + 127, 23));
    ShiftedOut(t + 127, 23);
    ret := Or32(ret, Lsl(t + 127, 23));
    SignMerge(ret, sign);
    ret := Or32(ret, Lsl(sign, 31));
  }

  lemma ExponentRoom(e: nat, b: nat, w: nat)
    requires e + 2 <= Pow2(w) && b + w == 31
    ensures e * Pow2(b) + 2 * Pow2(b) <= Pow2(31) == SIGN32
  {
    hide Pow2;
    Constants();
    Pow2Add(b, w);
    MulMono(e + 2, Pow2(w), Pow2(b));
    assert (e + 2) * Pow2(b) == e * Pow2(b) + 2 * Pow2(b);
  }

  /** A fraction, perhaps with a carry, and an exponent. */
  lemma MergeExponent(f: Word32, e: nat, b: nat, ep: Word32)
    requires f <= Pow2(b) && ep == e * Pow2(b)
    ensures Or32(f, ep) == if f == Pow2(b) && e % 2 == 1 then ep else ep + f
  {
    hide Pow2, BitOr, Or32;
    if f < Pow2(b) { MergeFraction(f, e, b); } else { MergeCarry(e, b); }
  }

  lemma MergeFraction(f: Word32, e: nat, b: nat)
    requires f < Pow2(b) && e * Pow2(b) < W32
    ensures Or32(f, e * Pow2(b)) == e * Pow2(b) + f
  {
    hide Pow2, BitOr;
    OrDisjoint(e, f, b);
  }

  lemma MergeCarry(e: nat, b: nat)
    requires Pow2(b) < W32 && e * Pow2(b) < W32
    ensures Or32(Pow2(b), e * Pow2(b)) == e * Pow2(b) + if e % 2 == 1 then 0 else Pow2(b)
  {
    hide Pow2, BitOr;
    var p := Pow2(b);
    OrSplit(1, e, 0, 0, b);
    OrCommutes(1, e);
    OrOne(e);
    OrOne(0);
    assert 1 * p + 0 == p && e * p + 0 == e * p;
    assert (e + 1) * p == e * p + p;
  }

  lemma SignMerge(x: Word32, sign: nat)
    requires x < Pow2(31) && sign <= 1
    ensures Or32(x, Lsl(sign, 31)) == sign * SIGN32 + x
  {
    hide Pow2, BitOr;
    Constants();
    ShiftedOut(sign, 31);
    Shl32Exact(sign, 31);
    OrDisjoint(sign, x, 31);
  }

  /** __aeabi_ul2f and __aeabi_l2f: the sign and the merged code of the magnitude. */
  method Xl2f(v: Word, withSign: bool) returns (ret: Word32)
    ensures MagnitudeOfLong(withSign, v) == 0 ==> ret == 0
    ensures forall t: nat :: t < 64 && IsTop(MagnitudeOfLong(withSign, v), t) ==>
              ret == (if IsNegative(withSign, v) then SIGN32 else 0) + SingleCode(MagnitudeOfLong(withSign, v), t)
  {
    hide Pow2, IsTop, MergedCode, Fraction, IncrementsSingle, BiasedExponent;
    var sign := if withSign && v >= W64 / 2 then 1 else 0;
    var n := if withSign && v >= W64 / 2 then Plus(W64 - 1 - v, 1) else v;
    var low, high := n % W32, n / W32;
    TopPositive(n);
    var s, p := ScanBits(high);
    var flb;
    if p != 0 {
      ret, flb := SingleHigh(high, low, s);
      s := s + 32;
    } else {
      s, p := ScanBits(low);
      if p == 0 {
        return 0;
      }
      ret, flb := SingleLow(low, s);
    }
    OddExponent(s);
    forall t: nat | t < 64 && IsTop(n, t) ensures t == s { TopUnique(n, t, s); }
    ret := MergeSingle(ret, flb, s, sign);
  }

  lemma TopPositive(n: nat)
    ensures forall t: nat :: IsTop(n, t) ==> n > 0
  {}

  // ----- double precision

  /** The code rounds half up: it looks at the first lost bit alone. */
  predicate IncrementsDouble(n: nat, t: nat) {
    t > 52 && n / Pow2(t - 53) % 2 == 1
  }

  /** The exact condition for a correctly rounded double: half-way cases below an even fraction go
      wrong, and a carry out of the fraction is lost if the top bit is even. */
  predicate RoundsDouble(n: nat, t: nat) {
    t <= 52 ||
    (var k := t - 52;
     && !(n % Pow2(k) == Pow2(k - 1) && n / Pow2(k) % 2 == 0)
     && !(n % Pow2(k) >= Pow2(k - 1) && n / Pow2(k) == 0x1f_ffff_ffff_ffff && t % 2 == 0))
  }

  function DoubleCode(n: nat, t: nat): int {
    MergedCode(Double, Fraction(Double, n, t), BiasedExponent(Double, t), IncrementsDouble(n, t))
  }

  lemma DoubleCodeIsNearest(n: nat, t: nat)
    requires IsTop(n, t) && t < 64
    ensures DoubleCode(n, t) >= 0 && (IsNearestEven(Double, DoubleCode(n, t), n as real) <==> RoundsDouble(n, t))
  {
    hide IsNearestEven, MergedCode, Fraction, IncrementsDouble, Pow2;
    Constants();
    if t <= 52 {
      NoIncrementDouble(n, t);
      ExactInteger(Double, n, t);
    } else {
      MergedIsNearest(Double, n, t, IncrementsDouble(n, t));
      Neighbours(Double, n, t);
      OddExponent(t);
      FirstLostBit(n, t);
    }
  }

  lemma NoIncrementDouble(n: nat, t: nat)
    ensures t <= 52 ==> !IncrementsDouble(n, t)
  {}

  /** The first lost bit is set if the lost part is at least a half. */
  lemma FirstLostBit(n: nat, t: nat)
    requires t > 52
    ensures IncrementsDouble(n, t) <==> n % Pow2(t - 52) >= Pow2(t - 53)
  {
    HalfOrMore(n, t - 53);
  }

  lemma HalfOrMore(n: nat, k: nat)
    ensures n / Pow2(k) % 2 == 1 <==> n % Pow2(k + 1) >= Pow2(k)
  {
    hide Pow2;
    Pow2Add(k, 1);
    Pow2Small();
    var p, q, m := Pow2(k), n / Pow2(k), n % Pow2(k);
    Recompose(n, p);
    assert q / 2 * (2 * p) + q % 2 * p == q * p by { assert q == q / 2 * 2 + q % 2; }
    DivModUnique(n, 2 * p, q / 2, q % 2 * p + m);
  }

  /** __aeabi_ul2d and __aeabi_l2d */
  method Xl2d(v: Word, withSign: bool) returns (high: Word32, low: Word32)
    ensures MagnitudeOfLong(withSign, v) == 0 ==> Pair(high, low) == 0
    ensures forall t: nat :: t < 64 && IsTop(MagnitudeOfLong(withSign, v), t) ==>
              Pair(high, low) == (if IsNegative(withSign, v) then SIGN64 else 0) +
                                 DoubleCode(MagnitudeOfLong(withSign, v), t)
  {
    hide Pow2, IsTop, MergedCode, Fraction, IncrementsDouble, BiasedExponent, Pair;
    var sign := if withSign && v >= W64 / 2 then 1 else 0;
    var n := if withSign && v >= W64 / 2 then Plus(W64 - 1 - v, 1) else v;
    var nl, nh := n % W32, n / W32;
    WordsOf(n);
    TopPositive(n);
    var s, p := ScanBits(nh);
    if p != 0 {
      high, low := DoubleHigh(nh, nl, s);
      s := s + 32;
    } else {
      s, p := ScanBits(nl);
      if p == 0 {
        return 0, 0;
      }
      high, low := DoubleLow(nl, s);
    }
    OddExponent(s);
    forall t: nat | t < 64 && IsTop(n, t) ensures t == s { TopUnique(n, t, s); }
    high := MergeDouble(high, low, n, s, sign);
  }

  lemma WordsOf(n: Word)
    ensures n / W32 < W32 && Pair(n / W32, n % W32) == n && Pair(0, 0) == 0
  {
    Recompose(n, W32);
  }

  /** The fraction in two words, incremented if the first lost bit is set. */
  function Incremented(n: nat, t: nat): int {
    Fraction(Double, n, t) + if IncrementsDouble(n, t) then 1 else 0
  }

  /** Without lost bits. */
  lemma ShortFraction(nh: Word32, nl: Word32, s: nat)
    requires IsTop(nh, s) && s < 20
    ensures var r: Word32, hs := nh - Pow2(s), 20 - s;
            Pair(Or32(Lsl(r, hs), Lsr(nl, 32 - hs)), Lsl(nl, hs)) == Incremented(Pair(nh, nl), s + 32) < Pow2(52)
  {
    hide Pow2, BitOr, Or32, Lsl, Lsr, Shl32, Shr32, Fraction, IncrementsDouble;
    var r: Word32, hs := nh - Pow2(s), 20 - s;
    FractionIs(Pair(nh, nl), s + 32);
    NoIncrementDouble(Pair(nh, nl), s + 32);
    WithoutTop(nh, nl, s);
    ShiftedOut(r, hs);
    ShiftedOut(nl, hs);
    ShiftedOut(nl, 32 - hs);
    ShiftedWords(r, nl, hs);
    NothingAbove(r, s);
    FractionBound(r, nl, s);
  }

  lemma NothingAbove(r: Word32, s: nat)
    requires r < Pow2(s) && s < 20
    ensures Shr32(r, 12 + s) == 0
  {
    hide Pow2;
    Pow2Mono(s, 12 + s);
    ShrIs(r, 12 + s);
    DivModUnique(r, Pow2(12 + s), 0, r);
  }

  lemma FractionBound(r: Word32, nl: Word32, s: nat)
    requires r < Pow2(s) && s <= 20
    ensures Pair(r, nl) * Pow2(20 - s) < Pow2(52)
  {
    hide Pow2;
    Pow2_64();
    Pow2Add(s, 32);
    Pow2Add(s + 32, 20 - s);
    ProductBelow(Pair(r, nl), Pow2(s + 32), Pow2(20 - s));
  }

  lemma LongFraction(nh: Word32, nl: Word32, s: nat)
    requires IsTop(nh, s) && 20 <= s <= 31
    ensures var r: Word32, hs := nh - Pow2(s), s - 20;
            Pair(Lsr(r, hs), Or32(Lsl(r, 32 - hs), Lsr(nl, hs))) == Fraction(Double, Pair(nh, nl), s + 32) < Pow2(52)
  {
    hide Pow2, BitOr, Or32, Lsl, Lsr, Shl32, Shr32, Fraction;
    var r: Word32, hs := nh - Pow2(s), s - 20;
    FractionIs(Pair(nh, nl), s + 32);
    WithoutTop(nh, nl, s);
    ShiftedOut(r, hs);
    ShiftedOut(r, 32 - hs);
    ShiftedOut(nl, hs);
    FractionBelow52(r, nl, s);
    if hs > 0 {
      UnshiftedWords(r, nl, hs);
    } else {
      Pow2Small();
      Unshifted(r, nl);
    }
  }

  lemma Unshifted(r: Word32, nl: Word32)
    ensures Shr32(r, 0) == r && Shr32(nl, 0) == nl && Or32(0, nl) == nl
  {
    OrWords32(0, nl);
    Or32Zero(nl);
    Pow2Small();
  }

  lemma FractionBelow52(r: Word32, nl: Word32, s: nat)
    requires r < Pow2(s) && 20 <= s <= 31
    ensures Pair(r, nl) / Pow2(s - 20) < Pow2(52)
  {
    hide Pow2;
    Pow2_64();
    Pow2Add(s, 32);
    Pow2Add(52, s - 20);
    DivLess(Pair(r, nl), Pow2(s - 20), Pow2(52));
  }

  lemma LostBit(nh: Word32, nl: Word32, s: nat)
    requires IsTop(nh, s) && 20 <= s <= 31
    ensures And32(Lsr(nl, s - 20 - 1), 1) == if IncrementsDouble(Pair(nh, nl), s + 32) then 1 else 0
  {
    hide Pow2, BitAnd, And32, Lsr;
    LowBitIs(Lsr(nl, s - 21));
    ShiftedOut(nl, s - 21);
    if s > 20 {
      ShrIs(nl, s - 21);
      BitOfLowWord(nh, nl, s - 21);
    }
  }

  lemma BitOfLowWord(nh: Word32, nl: Word32, k: nat)
    requires k < 32
    ensures Pair(nh, nl) / Pow2(k) % 2 == nl / Pow2(k) % 2
  {
    hide Pow2;
    Pow2_64();
    Pow2Add(32 - k, k);
    Pow2Add(31 - k, 1);
    Pow2Small();
    SplitQuotient(nh, nl, Pow2(32 - k), Pow2(k));
    MulAssoc(nh, Pow2(31 - k), 2);
    EvenPlus(nl / Pow2(k), nh * Pow2(31 - k));
  }

  lemma CarryPair(high: Word32, low: Word32)
    requires Pair(high, low) < Pow2(52)
    ensures high + 1 < W32
    ensures Pair(if low == 0xffff_ffff then high + 1 else high,
                 if low == 0xffff_ffff then 0 else low + 1) == Pair(high, low) + 1
  {
    Constants();
  }

  method DoubleHigh(nh: Word32, nl: Word32, s: nat) returns (high: Word32, low: Word32)
    requires IsTop(nh, s) && s <= 31
    ensures IsTop(Pair(nh, nl), s + 32) && Pair(high, low) == Incremented(Pair(nh, nl), s + 32) <= Pow2(52)
  {
    hide Pow2, BitAnd, BitOr, Or32, And32, Lsl, Lsr, Fraction, IncrementsDouble, Pair;
    TopOfPair(nh, nl, s);
    MaskBelow(nh, s);
    WithoutTop(nh, nl, s);
    var tmp := And32(nh, Pow2(s) - 1);
    if s < 20 {
      var highShift := 20 - s;
      high := Lsl(tmp, highShift);
      high := Or32(high, Lsr(nl, 32 - highShift));
      low := Lsl(nl, highShift);
      ShortFraction(nh, nl, s);
    } else {
      var highShift := s - 20;
      high := Lsr(tmp, highShift);
      low := Lsl(tmp, 32 - highShift);
      low := Or32(low, Lsr(nl, highShift));
      LongFraction(nh, nl, s);
      LostBit(nh, nl, s);
      var cut := Pair(high, low);
      if And32(Lsr(nl, highShift - 1), 1) != 0 {
        CarryPair(high, low);
        if low == 0xffff_ffff {
          high := high + 1;
          low := 0;
        } else {
          low := low + 1;
        }
      }
    }
  }

  method DoubleLow(nl: Word32, s: nat) returns (high: Word32, low: Word32)
    requires IsTop(nl, s) && s <= 31
    ensures Pair(high, low) == Incremented(nl, s) <= Pow2(52)
  {
    hide Pow2, BitAnd, BitOr, And32, Lsl, Lsr, Fraction, IncrementsDouble;
    MaskBelow(nl, s);
    FractionIs(nl, s);
    NoIncrementDouble(nl, s);
    var tmp := And32(nl, Pow2(s) - 1);
    LowFraction(tmp, s);
    if s <= 20 {
      high := Lsl(tmp, 20 - s);
      low := 0;
    } else {
      var highShift := s - 20;
      high := Lsr(tmp, highShift);
      low := Lsl(tmp, 32 - highShift);
    }
  }

  lemma LowFraction(r: Word32, s: nat)
    requires r < Pow2(s) && s <= 31
    ensures s <= 20 ==> Pair(Lsl(r, 20 - s), 0) == r * Pow2(52 - s) <= Pow2(52)
    ensures s > 20 ==> Pair(Lsr(r, s - 20), Lsl(r, 52 - s)) == r * Pow2(52 - s) <= Pow2(52)
  {
    hide Pow2, Lsl, Lsr, Shl32, Shr32;
    Pow2_64();
    Pow2Add(s, 52 - s);
    ProductBelow(r, Pow2(s), Pow2(52 - s));
    if s <= 20 {
      Constants();
      Pow2Add(20 - s, 32);
      Pow2Add(s, 20 - s);
      ProductBelow(r, Pow2(s), Pow2(20 - s));
      MulAssoc(r, Pow2(20 - s), W32);
      ShiftedOut(r, 20 - s);
      Shl32Exact(r, 20 - s);
    } else {
      var hs := s - 20;
      Pow2Add(hs, 32 - hs);
      ShiftedOut(r, hs);
      ShiftedOut(r, 52 - s);
      ShrIs(r, hs);
      Shl32Low(r, hs);
      SplitProduct(r, Pow2(hs), Pow2(32 - hs));
    }
  }

  method MergeDouble(high: Word32, low: Word32, ghost n: nat, t: nat, sign: nat) returns (h: Word32)
    requires Pair(high, low) == Incremented(n, t) <= Pow2(52) && IsTop(n, t) && t < 64 && sign <= 1
    ensures Pair(h, low) == sign * SIGN64 + DoubleCode(n, t)
  {
    hide Pow2, BitOr, Or32, Lsl, Lsr, Fraction, IncrementsDouble;
    Constants();
    OddExponent(t);
    FractionBelowOne(n, t);
    ExponentRoom(t + 1023, 20, 11);
    ShiftedOut(t + 1023, 20);
    Shl32Exact(t + 1023, 20);
    MergeExponent(high, t + 1023, 20, Shl32(t + 1023, 20));
    h := Or32(high, Lsl(t + 1023, 20));
    SignMerge(h, sign);
    h := Or32(h, Lsl(sign, 31));
  }

  lemma FractionBelowOne(n: nat, t: nat)
    requires IsTop(n, t) && t < 64
    ensures 0 <= Fraction(Double, n, t) < Pow2(52)
  {
    hide IsNearestEven;
    if t <= 52 { ExactInteger(Double, n, t); } else { Neighbours(Double, n, t); }
  }

  lemma LostAbove(n: nat, t: nat)
    ensures t > 52 && IncrementsDouble(n, t) ==> n % Pow2(t - 52) > 0
    ensures t > 23 && IncrementsSingle(n, t) && !(32 <= t <= 53) ==> n % Pow2(t - 23) > 0
  {
    if t > 52 { FirstLostBit(n, t); }
    if t > 23 { HalfOrMore(n, t - 24); }
  }

  /** Right or not, the single is one of the two next to the integer, but for a lost carry and for
      integers without lost bits of 33 to 54 bits, which may come out one too high. */
  lemma SingleIsNextTo(n: nat, t: nat)
    requires IsTop(n, t) && 23 < t < 64
    ensures SingleCode(n, t) >= 0
    ensures var q, l := n / Pow2(t - 23), n % Pow2(t - 23);
            if q == 0xff_ffff && t % 2 == 0 && IncrementsSingle(n, t) then SingleCode(n, t) == (t + 127) * 0x80_0000
            else (32 <= t <= 53 && l == 0 && q / 2 % 2 == 1) || IsNextTo(Single, SingleCode(n, t), n as real)
  {
    FormatConstants();
    LostAbove(n, t);
    SecondBit(n, t - 23);
    OddExponent(t);
    Neighbours(Single, n, t);
    var up := IncrementsSingle(n, t);
    SingleCodeIsNearest(n, t);
    if up ==> n % Pow2(t - 23) > 0 { MergedIsNextTo(Single, n, t, up); }
    LostCarry(Single, Fraction(Single, n, t), BiasedExponent(Single, t), up);
    hide Pow2, IsNextTo, Fraction, IsTop, MergedCode, BiasedExponent, IsNearestEven, RoundsSingle, Magnitude, Units;
  }

  /** The double always is, but for a lost carry. */
  lemma DoubleIsNextTo(n: nat, t: nat)
    requires IsTop(n, t) && 52 < t < 64
    ensures DoubleCode(n, t) >= 0
    ensures if n / Pow2(t - 52) == 0x1f_ffff_ffff_ffff && t % 2 == 0 && IncrementsDouble(n, t)
            then DoubleCode(n, t) == (t + 1023) * 0x10_0000_0000_0000
            else IsNextTo(Double, DoubleCode(n, t), n as real)
  {
    FormatConstants();
    LostAbove(n, t);
    OddExponent(t);
    Neighbours(Double, n, t);
    MergedIsNextTo(Double, n, t, IncrementsDouble(n, t));
    hide Pow2, IsNextTo, Fraction, IsTop, MergedCode, BiasedExponent, IncrementsDouble, Magnitude, Units;
  }

  lemma BadSingle(n: nat, t: nat, code: nat)
    requires IsTop(n, t) && t < 64 && SingleCode(n, t) == code && !RoundsSingle(n, t)
    ensures !IsNearestEven(Single, code, n as real)
  {
    hide *;
    SingleCodeIsNearest(n, t);
  }

  lemma BadDouble(n: nat, t: nat, code: nat)
    requires IsTop(n, t) && t < 64 && DoubleCode(n, t) == code && !RoundsDouble(n, t)
    ensures !IsNearestEven(Double, code, n as real)
  {
    hide *;
    DoubleCodeIsNearest(n, t);
  }

  lemma Powers()
    ensures Pow2(23) == 0x80_0000 && Pow2(24) == 0x100_0000
    ensures Pow2(30) == 0x4000_0000 && Pow2(31) == 0x8000_0000 && Pow2(32) == 0x1_0000_0000
    ensures Pow2(52) == 0x10_0000_0000_0000 && Pow2(53) == 0x20_0000_0000_0000 && Pow2(54) == 0x40_0000_0000_0000
    ensures Pow2(0) == 1 && Pow2(1) == 2 && Pow2(2) == 4
  {
    Constants();
    Pow2Small();
    Pow2Add(1, 1);
    Pow2Add(23, 1);
    Pow2Add(30, 1);
    Pow2Add(31, 1);
    Pow2Add(52, 1);
    Pow2Add(52, 2);
  }

  /** Half-way cases, carries that are lost, and lost bits in both words: as singles 2^24 + 1 becomes
      2^24 + 2, 2^25 - 1 becomes 2^24 and 2^54 + 2^30 + 1 becomes 2^54; as doubles 2^53 + 1 becomes
      2^53 + 2 and 2^55 - 1 becomes 2^54. */
  lemma BadRoundings()
    ensures SingleCode(0x100_0001, 24) == 0x4b80_0001 && !IsNearestEven(Single, 0x4b80_0001, 0x100_0001 as real)
    ensures SingleCode(0x1ff_ffff, 24) == 0x4b80_0000 && !IsNearestEven(Single, 0x4b80_0000, 0x1ff_ffff as real)
    ensures SingleCode(0x40_0000_4000_0001, 54) == 0x5a80_0000 &&
            !IsNearestEven(Single, 0x5a80_0000, 0x40_0000_4000_0001 as real)
    ensures DoubleCode(0x20_0000_0000_0001, 53) == 0x4340_0000_0000_0001 &&
            !IsNearestEven(Double, 0x4340_0000_0000_0001, 0x20_0000_0000_0001 as real)
    ensures DoubleCode(0x7f_ffff_ffff_ffff, 54) == 0x4350_0000_0000_0000 &&
            !IsNearestEven(Double, 0x4350_0000_0000_0000, 0x7f_ffff_ffff_ffff as real)
  {
    hide IsNearestEven, Pow2;
    Powers();
    BadSingle(0x100_0001, 24, 0x4b80_0001);
    BadSingle(0x1ff_ffff, 24, 0x4b80_0000);
    BadSingle(0x40_0000_4000_0001, 54, 0x5a80_0000);
    BadDouble(0x20_0000_0000_0001, 53, 0x4340_0000_0000_0001);
    BadDouble(0x7f_ffff_ffff_ffff, 54, 0x4350_0000_0000_0000);
  }
}
