/** Addition and subtraction (lib/lib-arm64.c:184-255): for every pair of operands the result
    is the exact real sum or difference, correctly rounded. */
module QuadAdd {
  import opened Power2
  import opened Words
  import opened Rounding
  import opened Sticky
  import opened QuadFormat
  import opened QuadParts
  import opened QuadRound
  import opened QuadNaN

  /** x is exact; y has been shifted right under x, so it may be inexact, but then x is large. */
  ghost predicate Aligned(x: nat, y: nat, e: int, v: real, w: real) {
    && x % 2 == 0 && v == Units(x, e) && StickyAt(y, e, 0, w)
    && x < 2 * P115 && y < 2 * P115
    && (w != Units(y, e) ==> x >= P115 && y < P112)
  }

  /** Shifting the significand of the smaller exponent, three guard bits below it, aligns it. */
  lemma AlignByShift(x: nat, y: nat, d: nat, e: int)
    requires x < P115 / 4 && y < P115 / 4
    requires d > 0 ==> x >= P112
    ensures Aligned(8 * x, StickyShr(8 * y, d), e, Units(8 * x, e), Units(8 * y, e - d))
  {
    hide Units, Pow2, StickyShr, StickyAt;
    StickyExact(8 * y, e - d);
    StickyRight(8 * y, e - d, 0, Units(8 * y, e - d), d);
    ShiftedSmall(y, d, e);
    MakeAligned(x, StickyShr(8 * y, d), e, Units(8 * x, e), Units(8 * y, e - d), d);
  }

  lemma MakeAligned(x: nat, s: nat, e: int, v: real, w: real, d: nat)
    requires x < P115 / 4 && v == Units(8 * x, e) && StickyAt(s, e, 0, w) && s < 2 * P115
    requires w == Units(s, e) || (s < P112 && d >= 4 && x >= P112)
    ensures Aligned(8 * x, s, e, v, w)
  {
    hide Units, StickyAt;
  }

  lemma ShiftedSmall(y: nat, d: nat, e: int)
    requires y < P115 / 4
    ensures StickyShr(8 * y, d) < 2 * P115
    ensures Units(8 * y, e - d) == Units(StickyShr(8 * y, d), e) || (StickyShr(8 * y, d) < P112 && d >= 4)
  {
    hide Units, Pow2, StickyShr;
    var s := StickyShr(8 * y, d);
    if d < 4 {
      SmallShift(y, d);
      UnitsShift(s, e - d, d);
      ShiftBound(8 * y, d, 1);
    } else {
      Sixteenth(d);
      ShiftBound(8 * y, d, 16);
    }
  }

  lemma Sixteenth(d: nat)
    requires d >= 4
    ensures Pow2(d) >= 16
  {
    Pow2Mono(4, d);
  }

  lemma SmallShift(y: nat, d: nat)
    requires d < 4
    ensures StickyShr(8 * y, d) * Pow2(d) == 8 * y
  {
    Pow2Constants();
    hide Pow2;
    if d == 0 {
    } else if d == 1 {
    } else if d == 2 {
    } else {
      assert d == 3;
    }
  }

  lemma ShiftBound(x: nat, d: nat, p: nat)
    requires 0 < p <= Pow2(d) && x < 2 * P115 && (p == 1 || p == 16)
    ensures StickyShr(x, d) < 2 * P115 / p
  {
    DivShrinks(x, p, Pow2(d));
  }

  lemma SumIsSticky(x: nat, y: nat, e: int, v: real, w: real)
    requires Aligned(x, y, e, v, w)
    ensures StickyAt(x + y, e, 0, v + w)
    ensures v + w != Units(x + y, e) ==> x + y >= P114
  {
    hide Units;
    UnitsAdd(x, y, e);
    if w != Units(y, e) {
      UnitsAdd(x, y - 1, e);
      UnitsAdd(x, y + 1, e);
    }
  }

  lemma DifferenceIsSticky(x: nat, y: nat, e: int, v: real, w: real)
    requires Aligned(x, y, e, v, w)
    ensures x >= y ==> StickyAt(x - y, e, 0, v - w) && (v - w != Units(x - y, e) ==> x - y >= P114)
    ensures x < y ==> StickyAt(y - x, e, 0, w - v) && (w - v != Units(y - x, e) ==> y - x >= P114)
    ensures (x > y <==> v > w) && (x < y <==> v < w)
  {
    hide Units;
    UnitsAdd(x, y, e);
    UnitsAdd(y, x, e);
    UnitsMono(x, y, e);
    UnitsMono(y, x, e);
    if w != Units(y, e) {
      assert x > y + 1;
      UnitsAdd(x, y - 1, e);
      UnitsAdd(x, y + 1, e);
      UnitsMono(y + 1, x, e);
    }
  }

  /** A sum or difference that is exact, or of at least 115 bits, rounds correctly once normalised. */
  lemma NormalisedRounds(s: nat, k: nat, e: int, v: real)
    requires W128 / 2 <= s * Pow2(k) < W128
    requires StickyAt(s, e, 0, v) && (v == Units(s, e) || s >= P114)
    ensures IsNearestEven(Quad, RoundedCode(e - k + 16510, s * Pow2(k)), v)
  {
    hide Units, Pow2, RoundedCode, IsNearestEven;
    StickyLeft(s, e, 0, v, k);
    if v == Units(s, e) {
      UnitsShift(s, e - k, k);
      RoundedIsNearest(e - k + 16510, s * Pow2(k), 0, v);
    } else {
      if k >= 14 {
        Pow2Mono(14, k);
        Pow2Of14();
        MulMono(0x4000, Pow2(k), s);
      }
      RoundedIsNearest(e - k + 16510, s * Pow2(k), k, v);
    }
  }

  // ----- two-word arithmetic

  lemma SumWords(a: U128, b: U128)
    requires Nat(a) + Nat(b) < W128
    ensures var x0 := Plus(a.x0, b.x0);
            Nat(U128(x0, Plus(Plus(a.x1, b.x1), if x0 < a.x0 then 1 else 0))) == Nat(a) + Nat(b)
  {}

  /** Subtraction modulo 2^128; the top bit tells the sign. */
  lemma DifferenceWords(a: U128, b: U128)
    requires Nat(a) < W128 / 2 && Nat(b) < W128 / 2
    ensures var x0 := Minus(a.x0, b.x0);
            var x := U128(x0, Minus(Minus(a.x1, b.x1), if x0 > a.x0 then 1 else 0));
            && (Nat(a) >= Nat(b) ==> x.x1 < W64 / 2 && Nat(x) == Nat(a) - Nat(b))
            && (Nat(a) < Nat(b) ==> x.x1 >= W64 / 2 && Nat(x) == W128 + Nat(a) - Nat(b))
  {
    var x0 := Minus(a.x0, b.x0);
    var c := if a.x0 < b.x0 then 1 else 0;
    assert x0 == a.x0 - b.x0 + c * W64 && (x0 > a.x0 <==> c == 1);
    MinusTwice(a.x1, b.x1, c);
    hide Minus;
  }

  lemma MinusTwice(x: Word, y: Word, c: Word)
    requires x < W64 / 2 && y < W64 / 2 && c <= 1
    ensures Minus(Minus(x, y), c) == if x - y - c >= 0 then x - y - c else x - y - c + W64
  {}

  lemma NegPair(x: U128)
    requires Nat(x) > 0
    ensures var x0 := Minus(0, x.x0); Nat(U128(x0, Minus(Minus(0, x.x1), NonZero(x0)))) == W128 - Nat(x)
  {
    var x0 := Minus(0, x.x0);
    assert x0 == if x.x0 == 0 then 0 else W64 - x.x0;
    assert Minus(0, x.x1) == if x.x1 == 0 then 0 else W64 - x.x1;
  }

  // ----- the operation

  /** x, e and s are what the code has before normalising: the sum of two finite numbers,
      not both zero, of signs sa and sb and magnitudes v and w. */
  ghost predicate Totalled(s: nat, x: nat, e: int, sa: nat, sb: nat, v: real, w: real) {
    var t := (if sa == 1 then -v else v) + (if sb == 1 then -w else w);
    && StickyAt(x, e, 0, Abs(t)) && (Abs(t) != Units(x, e) ==> x >= P114)
    && (t < 0.0 ==> s == 1) && (t > 0.0 ==> s == 0) && (t == 0.0 <==> x == 0)
  }

  lemma SignedTotal(x: nat, y: nat, e: int, sa: nat, sb: nat, v: real, w: real)
    requires sa <= 1 && sb <= 1
    requires Aligned(x, y, e, v, w) || Aligned(y, x, e, w, v)
    requires v >= 0.0 && w >= 0.0 && v + w > 0.0
    ensures x + y < W128
    ensures sa == sb ==> Totalled(sa, x + y, e, sa, sb, v, w)
    ensures sa != sb && x >= y ==> Totalled(sa, x - y, e, sa, sb, v, w)
    ensures sa != sb && x < y ==> Totalled(sb, y - x, e, sa, sb, v, w)
  {
    hide Units, StickyAt;
    if Aligned(x, y, e, v, w) {
      SumIsSticky(x, y, e, v, w);
      DifferenceIsSticky(x, y, e, v, w);
    } else {
      SumIsSticky(y, x, e, w, v);
      DifferenceIsSticky(y, x, e, w, v);
    }
    UnitsNil(e);
    assert Aligned(x, y, e, v, w) ==> v == Units(x, e);
    assert Aligned(y, x, e, w, v) ==> w == Units(y, e);
  }

  method Align(aExp: int, a: U128, bExp: int, b: U128) returns (exp: int, x: U128, y: U128)
    requires Nat(a) < P115 / 4 && Nat(b) < P115 / 4
    requires aExp >= 1 && bExp >= 1
    requires (aExp > 1 ==> Nat(a) >= P112) && (bExp > 1 ==> Nat(b) >= P112)
    ensures exp == if aExp <= bExp then bExp else aExp
    ensures var e, v, w := exp - 16498, Units(Nat(a), aExp - 16495), Units(Nat(b), bExp - 16495);
            Aligned(Nat(x), Nat(y), e, v, w) || Aligned(Nat(y), Nat(x), e, w, v)
  {
    hide Units, ShlPair, Aligned, StickyShr;
    GuardShift(a, aExp);
    GuardShift(b, bExp);
    x := ShlPair(a, 3);
    y := ShlPair(b, 3);
    if aExp <= bExp {
      AlignByShift(Nat(b), Nat(a), bExp - aExp, bExp - 16498);
      StickyNone(Nat(x));
      x := StickyShift(bExp - aExp, x);
      exp := bExp;
    } else {
      AlignByShift(Nat(a), Nat(b), aExp - bExp, aExp - 16498);
      y := StickyShift(aExp - bExp, y);
      exp := aExp;
    }
  }

  lemma GuardShift(a: U128, exp: int)
    requires Nat(a) < P115 / 4
    ensures Nat(ShlPair(a, 3)) == 8 * Nat(a)
    ensures Units(Nat(a), exp - 16495) == Units(8 * Nat(a), exp - 16498)
  {
    hide Units, ShlPair, Pow2;
    Pow2Constants();
    ShlPairFits(a, 3);
    UnitsShift(Nat(a), exp - 16498, 3);
  }

  method Combine(aSgn: Word, a: U128, bSgn: Word, b: U128) returns (sgn: Word, x: U128)
    requires aSgn <= 1 && bSgn <= 1
    requires Nat(a) < W128 / 2 && Nat(b) < W128 / 2
    ensures aSgn == bSgn ==> sgn == aSgn && Nat(x) == Nat(a) + Nat(b)
    ensures aSgn != bSgn && Nat(a) >= Nat(b) ==> sgn == aSgn && Nat(x) == Nat(a) - Nat(b)
    ensures aSgn != bSgn && Nat(a) < Nat(b) ==> sgn == bSgn && Nat(x) == Nat(b) - Nat(a)
  {
    sgn := aSgn;
    if aSgn == bSgn {
      SumWords(a, b);
      var x0 := Plus(a.x0, b.x0);
      x := U128(x0, Plus(Plus(a.x1, b.x1), if x0 < a.x0 then 1 else 0));
    } else {
      DifferenceWords(a, b);
      var x0 := Minus(a.x0, b.x0);
      x := U128(x0, Minus(Minus(a.x1, b.x1), if x0 > a.x0 then 1 else 0));
      hide Minus, Pow2;
      Pow2Constants();
      if Shr(x.x1, 63) != 0 {
        sgn := Xor(sgn, 1);
        NegPair(x);
        x0 := Minus(0, x.x0);
        x := U128(x0, Minus(Minus(0, x.x1), NonZero(x0)));
      }
    }
  }

  lemma ZeroSum(a: U128, b: U128)
    requires IsZero(a) && IsZero(b)
    ensures Value(a) + Value(b) == 0.0
    ensures Rounds(Pack(And(Sign(a), Sign(b)), 0), 0.0, if Sign(a) == Sign(b) then Sign(a) else 0)
  {
    ZeroMagnitude(a);
    ZeroMagnitude(b);
    ExactIsNearest(Quad, 0);
  }

  method F3Add(fa: U128, fb: U128, neg: Word) returns (fx: U128)
    requires neg <= 1
    ensures IsSum(fa, fb, neg == 1, fx)
  {
    hide BitOr, BitAnd, Shl, Shr, SignificandWords, Exponent, Pow2, Units, Magnitude, IsNearestEven, StickyAt,
         RoundedCode, Aligned;
    var aSgn, aExp, a := Unpack(fa);
    var bSgn, bExp, b := Unpack(fb);
    var found;
    found, fx := DetectNaNs(aSgn, aExp, a, bSgn, bExp, b, fa, fb);
    if found { return; }
    bSgn := Xor(bSgn, neg);
    UnpackedMeaning(fa);
    UnpackedMeaning(fb);
    ghost var fc := if neg == 1 then Negated(fb) else fb;
    NegatedFields(fb);
    if aExp == 32767 && bExp == 32767 && aSgn != bSgn {
      return DEFAULT_NAN;
    }
    if aExp == 32767 {
      InfiniteWord(aSgn);
      PackFields(fa);
      return Infinite(aSgn);
    }
    if bExp == 32767 {
      InfiniteWord(bSgn);
      PackFields(fc);
      return Infinite(bSgn);
    }
    FourWords(a, b);
    if Or(Or(Or(a.x0, a.x1), b.x0), b.x1) == 0 {
      ZeroSum(fa, fc);
      ZeroWord(And(aSgn, bSgn));
      return Zero(And(aSgn, bSgn));
    }
    fx := AddFinite(aSgn, aExp, a, bSgn, bExp, b, fa, fc);
  }

  lemma NegatedFields(f: U128)
    ensures Sign(Negated(f)) == Xor(Sign(f), 1) && Code(Negated(f)) == Code(f)
    ensures Exponent(Negated(f)) == Exponent(f) && SignificandWords(Negated(f)) == SignificandWords(f)
    ensures Xor(Sign(f), 0) == Sign(f)
  {
    hide Exponent, SignificandWords;
    assert Negated(f).x1 % 0x8000_0000_0000_0000 == f.x1 % 0x8000_0000_0000_0000;
    FieldsBelowSign(f, Negated(f));
  }

  lemma FieldsBelowSign(f: U128, g: U128)
    requires f.x0 == g.x0 && f.x1 % 0x8000_0000_0000_0000 == g.x1 % 0x8000_0000_0000_0000
    ensures Exponent(f) == Exponent(g) && SignificandWords(f) == SignificandWords(g)
  {
    BelowSign(f.x1);
    BelowSign(g.x1);
  }

  lemma BelowSign(w: Word)
    ensures var m := w % 0x8000_0000_0000_0000;
            && w / 0x1_0000_0000_0000 % 0x8000 == m / 0x1_0000_0000_0000
            && w % 0x1_0000_0000_0000 == m % 0x1_0000_0000_0000
  {}

  lemma FourWords(a: U128, b: U128)
    ensures Or(Or(Or(a.x0, a.x1), b.x0), b.x1) == 0 <==> Nat(a) == 0 && Nat(b) == 0
  {
    OrIsZero(a.x0, a.x1);
    OrIsZero(Or(a.x0, a.x1), b.x0);
    OrIsZero(Or(Or(a.x0, a.x1), b.x0), b.x1);
  }

  method AddFinite(aSgn: Word, aExp: int, a: U128, bSgn: Word, bExp: int, b: U128, ghost fa: U128, ghost fb: U128)
    returns (fx: U128)
    requires aSgn == Sign(fa) && aExp == Exponent(fa) && a == SignificandWords(fa) && IsFinite(fa)
    requires bSgn == Sign(fb) && bExp == Exponent(fb) && b == SignificandWords(fb) && IsFinite(fb)
    requires !(IsZero(fa) && IsZero(fb))
    ensures Rounds(fx, Value(fa) + Value(fb), if Sign(fa) == Sign(fb) then Sign(fa) else 0)
  {
    hide BitOr, BitAnd, Shl, Shr, SignificandWords, Exponent, Pow2, Units, Magnitude, IsNearestEven, StickyAt,
         RoundedCode, Aligned;
    UnpackedMeaning(fa);
    UnpackedMeaning(fb);
    ZeroMagnitude(fa);
    ZeroMagnitude(fb);
    PackFields(fa);
    PackFields(fb);
    ghost var v, w := Magnitude(Quad, Code(fa)), Magnitude(Quad, Code(fb));
    var exp, a', b' := Align(aExp, a, bExp, b);
    AlignedSize(Nat(a'), Nat(b'), exp - 16498, v, w);
    var sgn, x := Combine(aSgn, a', bSgn, b');
    SignedTotal(Nat(a'), Nat(b'), exp - 16498, aSgn, bSgn, v, w);
    ghost var s := Nat(x);
    assert Totalled(sgn, s, exp - 16498, aSgn, bSgn, v, w);
    NatZero(x);
    if Or(x.x0, x.x1) == 0 {
      ExactIsNearest(Quad, 0);
      ZeroMagnitude(Pack(0, 0));
      ZeroWord(0);
      return Zero(0);
    }
    ghost var e := exp - 16498;
    ghost var xExp := exp;
    exp, x := Normalise(exp, x);
    NatBound(x);
    NormalisedRounds(s, xExp - exp, e, Abs(Value(fa) + Value(fb)));
    fx := Round(sgn, exp + 12, x);
  }

  lemma AlignedSize(x: nat, y: nat, e: int, v: real, w: real)
    requires Aligned(x, y, e, v, w) || Aligned(y, x, e, w, v)
    ensures x < 2 * P115 && y < 2 * P115
  {}

  /** __addtf3 */
  method AddTf3(a: U128, b: U128) returns (r: U128)
    ensures IsSum(a, b, false, r)
  {
    r := F3Add(a, b, 0);
  }

  /** __subtf3 */
  method SubTf3(a: U128, b: U128) returns (r: U128)
    ensures IsSum(a, b, true, r)
  {
    r := F3Add(a, b, 1);
  }
}
