/** Division (lib/lib-arm64.c:322-372): 116 steps of restoring division, a sticky remainder,
    and one correct rounding. */
module QuadDiv {
  import opened Power2
  import opened Words
  import opened Rounding
  import opened Sticky
  import opened QuadFormat
  import opened QuadParts
  import opened QuadRound
  import opened QuadNaN
  import opened QuadAdd
  import opened QuadMul

  /** The two-word comparison of the loop. */
  lemma ComparePair(a: U128, b: U128)
    ensures a.x1 > b.x1 || (a.x1 == b.x1 && a.x0 >= b.x0) <==> Nat(a) >= Nat(b)
  {}

  /** The two-word subtraction of the loop, which borrows from the high word first. */
  lemma BorrowPair(a: U128, b: U128)
    requires Nat(a) >= Nat(b)
    ensures Nat(U128(Minus(a.x0, b.x0), Minus(Minus(a.x1, b.x1), if a.x0 < b.x0 then 1 else 0))) == Nat(a) - Nat(b)
  {
    var c := if a.x0 < b.x0 then 1 else 0;
    assert (a.x1 - b.x1 - c) * W64 + (a.x0 - b.x0 + c * W64) == Nat(a) - Nat(b);
    DivModUnique(a.x0 - b.x0, W64, -c, a.x0 - b.x0 + c * W64);
    MinusTwice(a.x1, b.x1, c);
  }

  lemma MinusTwice(x: Word, y: Word, c: Word)
    requires x - y - c >= 0
    ensures Minus(Minus(x, y), c) == x - y - c
  {
    DivModUnique(x - y, W64, 0, x - y);
    DivModUnique(x - y - c, W64, 0, x - y - c);
  }

  lemma DoublePair(a: U128)
    requires Nat(a) < W128 / 2
    ensures Nat(ShlPair(a, 1)) == 2 * Nat(a)
  {
    Pow2Constants();
    hide Pow2;
    ShlPairFits(a, 1);
  }

  lemma SetLowBit(x: U128)
    requires x.x0 % 2 == 0
    ensures Nat(U128(Or(x.x0, 1), x.x1)) == Nat(x) + 1
  {
    OrOne(x.x0);
  }

  /** One step of restoring division keeps the dividend split into quotient and remainder. */
  lemma DivisionStep(a0: int, b: int, x: int, a: int, p: int)
    requires a0 * p == 2 * (b * x) + a
    ensures a0 * (2 * p) == 2 * (b * (2 * x)) + 2 * a
    ensures a0 * (2 * p) == 2 * (b * (2 * x + 1)) + 2 * (a - b)
  {
    assert b * (2 * x) == 2 * (b * x) && b * (2 * x + 1) == 2 * (b * x) + b;
    assert a0 * (2 * p) == 2 * (a0 * p);
  }

  method DivideSignificands(a0: U128, b: U128) returns (x: U128, a: U128)
    requires W128 / 4 <= Nat(a0) < W128 / 2 && W128 / 4 <= Nat(b) < W128 / 2
    ensures Nat(a0) * Pow2(116) == 2 * (Nat(b) * Nat(x)) + Nat(a)
    ensures Nat(a) < 2 * Nat(b)
  {
    hide Nat, Pow2, ShlPair, BitOr, Minus;
    a := a0;
    x := U128(0, 0);
    NatZero(x);
    var i := 0;
    assert Pow2(0) == 1 by { Pow2Small(); }
    while i < 116
      invariant 0 <= i <= 116
      invariant Nat(a0) * Pow2(i) == 2 * (Nat(b) * Nat(x)) + Nat(a)
      invariant Nat(a) < 2 * Nat(b)
      invariant Nat(x) < Pow2(i)
    {
      ghost var x', a' := Nat(x), Nat(a);
      QuotientBound(x, i);
      DoublePair(x);
      x := ShlPair(x, 1);
      DivisionStep(Nat(a0), Nat(b), x', a', Pow2(i));
      EvenPower(i + 1);
      ComparePair(a, b);
      if a.x1 > b.x1 || (a.x1 == b.x1 && a.x0 >= b.x0) {
        BorrowPair(a, b);
        a := U128(Minus(a.x0, b.x0), Minus(Minus(a.x1, b.x1), if a.x0 < b.x0 then 1 else 0));
        NatParity(x);
        SetLowBit(x);
        x := U128(Or(x.x0, 1), x.x1);
      }
      DoublePair(a);
      a := ShlPair(a, 1);
      i := i + 1;
    }
  }

  lemma QuotientBound(x: U128, i: nat)
    requires Nat(x) < Pow2(i) && i < 116
    ensures Nat(x) < W128 / 2
  {
    hide Pow2, Nat;
    Pow2Mono(i, 116);
    Pow2Of116();
  }

  /** With the remainder folded in, the quotient stands for the exact real quotient. */
  lemma QuotientIsSticky(a: nat, b: nat, q: nat, r: nat, f: int, g: int, v: real)
    requires a * Pow2(116) == 2 * (b * q) + r && r < 2 * b
    requires v * Units(b, g) == Units(a, f)
    ensures StickyAt(if r == 0 then q else q + 1 - q % 2, f - g - 115, 0, v)
  {
    hide Units, Pow2;
    var e := f - g - 115;
    UnitsShift(a, f - 116, 116);
    UnitsMul(q, b, e, g);
    UnitsMul(q + 1, b, e, g);
    UnitsDouble(q * b, f - 116);
    UnitsDouble((q + 1) * b, f - 116);
    assert q * b == b * q && (q + 1) * b == b * q + b;
    UnitsMono(2 * (b * q), 2 * (b * q) + r, f - 116);
    UnitsMono(2 * (b * q) + r, 2 * (b * q) + 2 * b, f - 116);
    UnitsMono(0, b, g);
    UnitsNil(g);
    CompareByProduct(Units(q, e), v, Units(b, g));
    CompareByProduct(v, Units(q + 1, e), Units(b, g));
    Pow2Small();
    if r > 0 {
      UnitsMono(2 * (b * q), 2 * (b * q) + r, f - 116);
      Between(q, q + 1 - q % 2, e, v);
    }
  }

  lemma CompareByProduct(x: real, y: real, z: real)
    requires z > 0.0
    ensures x * z < y * z <==> x < y
    ensures x * z == y * z <==> x == y
  {
    if x < y { RealMulMono(x, y, z); }
    if y < x { RealMulMono(y, x, z); }
  }

  lemma QuotientSize(a: nat, b: nat, q: nat, r: nat)
    requires W128 / 4 <= a < W128 / 2 && W128 / 4 <= b < W128 / 2
    requires a * Pow2(116) == 2 * (b * q) + r && r < 2 * b
    ensures P114 <= q < 4 * P114
  {
    Pow2Of116();
    hide Pow2;
    QuotientLower(a, b, q, r);
    QuotientUpper(a, b, q, r);
  }

  lemma QuotientLower(a: nat, b: nat, q: nat, r: nat)
    requires W128 / 4 <= a && b < W128 / 2 && a * (4 * P114) == 2 * (b * q) + r && r < 2 * b
    ensures q >= P114
  {
    assert a * (4 * P114) < 2 * (b * (q + 1)) by { assert b * (q + 1) == b * q + b; }
    MulMono(W128 / 4, a, 4 * P114);
    if q < P114 { MulMono(q + 1, P114, b); }
  }

  lemma QuotientUpper(a: nat, b: nat, q: nat, r: nat)
    requires a < W128 / 2 && W128 / 4 <= b && a * (4 * P114) == 2 * (b * q) + r
    ensures q < 4 * P114
  {
    MulMono(a, W128 / 2 - 1, 4 * P114);
    if q >= 4 * P114 { MulMono(4 * P114, q, b); }
  }

  method DivTf3(fa: U128, fb: U128) returns (fx: U128)
    ensures IsQuotient(fa, fb, fx)
  {
    hide BitOr, BitAnd, Shl, Shr, SignificandWords, Exponent, Pow2, Units, Magnitude, IsNearestEven, RoundedCode;
    var aSgn, aExp, a := Unpack(fa);
    var bSgn, bExp, b := Unpack(fb);
    var found;
    found, fx := DetectNaNs(aSgn, aExp, a, bSgn, bExp, b, fa, fb);
    if found { return; }
    UnpackedMeaning(fa);
    UnpackedMeaning(fb);
    NatZero(a);
    NatZero(b);
    if (aExp == 32767 && bExp == 32767) || (Or(a.x0, a.x1) == 0 && Or(b.x0, b.x1) == 0) {
      return DEFAULT_NAN;
    }
    PackFields(fa);
    PackFields(fb);
    if aExp == 32767 || Or(b.x0, b.x1) == 0 {
      InfiniteWord(Xor(aSgn, bSgn));
      return Infinite(Xor(aSgn, bSgn));
    }
    if Or(a.x0, a.x1) == 0 || bExp == 32767 {
      ZeroWord(Xor(aSgn, bSgn));
      if bExp != 32767 { ZeroQuotient(fa, fb); }
      return Zero(Xor(aSgn, bSgn));
    }
    ZeroMagnitude(fb);
    fx := DivFinite(aSgn, aExp, a, bSgn, bExp, b, fa, fb);
  }

  lemma AbsQuotient(a: U128, b: U128)
    requires IsFinite(a) && IsFinite(b) && !IsZero(b)
    ensures Value(b) != 0.0
    ensures Abs(Value(a) / Value(b)) * Magnitude(Quad, Code(b)) == Magnitude(Quad, Code(a))
  {
    hide Magnitude;
    ZeroMagnitude(a);
    ZeroMagnitude(b);
    QuotientOfSigned(Value(a), Value(b));
  }

  lemma QuotientOfSigned(x: real, y: real)
    requires y != 0.0
    ensures Abs(x / y) * Abs(y) == Abs(x)
  {
    var q := x / y;
    assert q * y == x;
    if y > 0.0 {
      assert q < 0.0 ==> x < 0.0;
      assert q > 0.0 ==> x > 0.0;
    } else {
      assert q < 0.0 ==> x > 0.0;
      assert q > 0.0 ==> x < 0.0;
      assert q * (-y) == -x;
    }
  }

  lemma ZeroQuotient(a: U128, b: U128)
    requires IsZero(a) && IsFinite(b) && !IsZero(b)
    ensures Value(b) != 0.0
    ensures IsNearestEven(Quad, 0, Abs(Value(a) / Value(b)))
  {
    hide Magnitude, IsNearestEven;
    ZeroMagnitude(a);
    ZeroMagnitude(b);
    AbsQuotient(a, b);
    ExactIsNearest(Quad, 0);
    ZeroMagnitude(Pack(0, 0));
    CompareByProduct(Abs(Value(a) / Value(b)), 0.0, Magnitude(Quad, Code(b)));
  }

  lemma HalfSignificand(m: nat, exp: int, exp': int, x: U128)
    requires 0 < m < P113 && exp' <= exp
    requires Nat(x) == m * Pow2(exp - exp') && x.x1 >= W64 / 2
    ensures W128 / 4 <= Nat(ShrPair(x, 1)) < W128 / 2
    ensures Units(m, exp - 16495) == Units(Nat(ShrPair(x, 1)), exp' - 16494)
  {
    hide Pow2, Units, ShrPair;
    NatBound(x);
    NormalisedLow(m, exp - exp', Nat(x));
    UnitsShift(m, exp' - 16495, exp - exp');
    ShrPairIsDiv(x, 1);
    Pow2Small();
    UnitsDouble(Nat(x) / 2, exp' - 16495);
  }

  method DivFinite(aSgn: Word, aExp: int, a: U128, bSgn: Word, bExp: int, b: U128, ghost fa: U128, ghost fb: U128)
    returns (fx: U128)
    requires aSgn == Sign(fa) && aExp == Exponent(fa) && a == SignificandWords(fa) && IsFinite(fa) && !IsZero(fa)
    requires bSgn == Sign(fb) && bExp == Exponent(fb) && b == SignificandWords(fb) && IsFinite(fb) && !IsZero(fb)
    requires Value(fb) != 0.0
    ensures Sign(fx) == Xor(Sign(fa), Sign(fb))
    ensures IsNearestEven(Quad, Code(fx), Abs(Value(fa) / Value(fb)))
  {
    hide Abs, BitOr, SignificandWords, Exponent, Pow2, Units, Magnitude, IsNearestEven, StickyAt, RoundedCode,
         ShrPair, Nat, Value;
    UnpackedMeaning(fa);
    UnpackedMeaning(fb);
    PackFields(fa);
    PackFields(fb);
    AbsQuotient(fa, fb);
    var ae, be, a', b';
    ae, a' := Normalise(aExp, a);
    be, b' := Normalise(bExp, b);
    HalfSignificand(Nat(a), aExp, ae, a');
    HalfSignificand(Nat(b), bExp, be, b');
    fx := RoundQuotient(Xor(aSgn, bSgn), ae - be + 16395, ShrPair(a', 1), ShrPair(b', 1),
                        ae - 16494, be - 16494, Abs(Value(fa) / Value(fb)));
  }

  /** Divides two significands of 127 bits and rounds the quotient. */
  method RoundQuotient(sgn: Word, exp: int, a: U128, b: U128, ghost f: int, ghost g: int,
                       ghost v: real) returns (fx: U128)
    requires sgn <= 1 && exp == f - g + 16395
    requires W128 / 4 <= Nat(a) < W128 / 2 && W128 / 4 <= Nat(b) < W128 / 2
    requires v * Units(Nat(b), g) == Units(Nat(a), f)
    ensures Sign(fx) == sgn && IsNearestEven(Quad, Code(fx), v)
  {
    hide BitOr, Pow2, Units, IsNearestEven, StickyAt, RoundedCode, Nat;
    var x, r := DivideSignificands(a, b);
    QuotientIsSticky(Nat(a), Nat(b), Nat(x), Nat(r), f, g, v);
    QuotientSize(Nat(a), Nat(b), Nat(x), Nat(r));
    NatZero(r);
    StickyMerge(x, NonZero(Or(r.x0, r.x1)));
    x := U128(Or(x.x0, NonZero(Or(r.x0, r.x1))), x.x1);
    ghost var q := Nat(x);
    var e, y := Normalise(exp, x);
    NormalisedSize(y);
    NormalisedRounds(q, exp - e, f - g - 115, v);
    fx := Round(sgn, e, y);
  }

  lemma NormalisedSize(y: U128)
    requires y.x1 >= W64 / 2
    ensures W128 / 2 <= Nat(y) < W128
  {}
}
