/** Comparison of binary128 numbers (lib/lib-arm64.c:621-664). */
module QuadCompare {
  import opened Power2
  import opened Words
  import opened Rounding
  import opened QuadFormat

  /** f3_cmp: -1, 0 or 1, and 2 for unordered operands. */
  function Compare(a: U128, b: U128): int {
    var sa, sb := Shr(a.x1, 63), Shr(b.x1, 63);
    if Or(Or(Or(a.x0, Shl(a.x1, 1)), b.x0), Shl(b.x1, 1)) == 0 then 0
    else if (Shr(Shl(a.x1, 1), 49) == 0x7fff && Or(a.x0, Shl(a.x1, 16)) != 0) ||
            (Shr(Shl(b.x1, 1), 49) == 0x7fff && Or(b.x0, Shl(b.x1, 16)) != 0) then 2
    else if sa != sb then sb - sa
    else if a.x1 < b.x1 then Shl(sa, 1) - 1
    else if a.x1 > b.x1 then 1 - Shl(sa, 1)
    else if a.x0 < b.x0 then Shl(sa, 1) - 1
    else if b.x0 < a.x0 then 1 - Shl(sa, 1)
    else 0
  }

  function EqTf2(a: U128, b: U128): int { NonZero(Compare(a, b)) }

  function NeTf2(a: U128, b: U128): int { NonZero(Compare(a, b)) }

  function LtTf2(a: U128, b: U128): int { Compare(a, b) }

  function LeTf2(a: U128, b: U128): int { Compare(a, b) }

  function GtTf2(a: U128, b: U128): int { -Compare(b, a) }

  function GeTf2(a: U128, b: U128): int { -Compare(b, a) }

  /** The word tests, in terms of the encodings. */
  lemma CompareCodes(a: U128, b: U128)
    ensures Sign(a) <= 1 && Sign(b) <= 1
    ensures Compare(a, b) ==
            if IsZero(a) && IsZero(b) then 0
            else if IsNaN(a) || IsNaN(b) then 2
            else if Sign(a) != Sign(b) then Sign(b) - Sign(a)
            else (if Code(a) < Code(b) then -1 else if Code(a) > Code(b) then 1 else 0) * (1 - 2 * Sign(a))
  {
    hide BitOr, Pow2, Shl, Shr;
    NaNWords(a);
    NaNWords(b);
    SignWord(a);
    SignWord(b);
    OrIsZero(a.x0, Shl(a.x1, 1));
    OrIsZero(Or(a.x0, Shl(a.x1, 1)), b.x0);
    OrIsZero(Or(Or(a.x0, Shl(a.x1, 1)), b.x0), Shl(b.x1, 1));
    hide IsNaN;
  }

  lemma SignWord(a: U128)
    ensures Shr(a.x1, 63) == Sign(a) <= 1
    ensures Shl(Shr(a.x1, 63), 1) == 2 * Sign(a)
  {
    Pow2Constants();
  }

  lemma NaNWords(a: U128)
    ensures Shl(a.x1, 1) == 0 <==> a.x1 % 0x8000_0000_0000_0000 == 0
    ensures IsNaN(a) <==> Shr(Shl(a.x1, 1), 49) == 0x7fff && Or(a.x0, Shl(a.x1, 16)) != 0
  {
    hide BitOr, Pow2;
    Pow2Constants();
    Pow2Add(48, 1);
    ShlLow(a.x1, 63);
    ShlLow(a.x1, 48);
    OrIsZero(a.x0, Shl(a.x1, 16));
    var low := a.x1 % 0x8000_0000_0000_0000;
    assert Shr(Shl(a.x1, 1), 49) == low / 0x1_0000_0000_0000;
    hide Shl, Shr;
    DivDiv(a.x1, 0x1_0000_0000_0000, 0x8000);
    FractionAboveInfinity(low, a.x0);
  }

  lemma FractionAboveInfinity(low: nat, x0: Word)
    requires low < 0x8000_0000_0000_0000
    ensures low * W64 + x0 > INF_CODE <==>
            low / 0x1_0000_0000_0000 == 0x7fff && (x0 != 0 || low % 0x1_0000_0000_0000 != 0)
  {}

  lemma CodeOrder(a: U128, b: U128)
    ensures Code(a) < Code(b) <==> Magnitude(Quad, Code(a)) < Magnitude(Quad, Code(b))
    ensures Code(a) == Code(b) <==> Magnitude(Quad, Code(a)) == Magnitude(Quad, Code(b))
    ensures Magnitude(Quad, Code(a)) >= 0.0
    ensures Magnitude(Quad, Code(a)) == 0.0 <==> IsZero(a)
  {
    hide Magnitude;
    if Code(a) < Code(b) { MagnitudeMono(Quad, Code(a), Code(b)); }
    if Code(a) > Code(b) { MagnitudeMono(Quad, Code(b), Code(a)); }
    assert Magnitude(Quad, 0) == 0.0 by { MagnitudeOf(Quad, 0, 0); UnitsNil(Unit(Quad)); }
    if Code(a) > 0 { MagnitudeMono(Quad, 0, Code(a)); }
  }

  /** The comparison is the order of the values, infinities beyond all finite ones and both
      zeros equal; it is 2 exactly on a NaN. */
  lemma CompareIsOrder(a: U128, b: U128)
    ensures Compare(a, b) == 2 <==> IsNaN(a) || IsNaN(b)
    ensures !IsNaN(a) && !IsNaN(b) ==>
            && -1 <= Compare(a, b) <= 1
            && (Compare(a, b) < 0 <==> Value(a) < Value(b))
            && (Compare(a, b) == 0 <==> Value(a) == Value(b))
  {
    hide Magnitude, Compare, Code;
    CompareCodes(a, b);
    CodeOrder(a, b);
    CodeOrder(b, a);
    ZeroIsNumber(a);
    ZeroIsNumber(b);
  }

  lemma ZeroIsNumber(a: U128)
    ensures IsZero(a) ==> !IsNaN(a)
    ensures IsZero(a) <==> Code(a) == 0
  {}

  /** Reflexive, transitive and total on numbers. */
  lemma CompareIsPreorder(a: U128, b: U128, c: U128)
    requires !IsNaN(a) && !IsNaN(b) && !IsNaN(c)
    ensures Compare(a, a) == 0
    ensures Compare(a, b) == -Compare(b, a)
    ensures Compare(a, b) <= 0 && Compare(b, c) <= 0 ==> Compare(a, c) <= 0
    ensures Compare(a, b) < 0 && Compare(b, c) <= 0 ==> Compare(a, c) < 0
  {
    hide Compare, Value, IsNaN;
    CompareIsOrder(a, a);
    CompareIsOrder(a, b);
    CompareIsOrder(b, a);
    CompareIsOrder(b, c);
    CompareIsOrder(a, c);
  }

  /** The comparison predicates of section 5.11: every ordered one is false on a NaN. */
  lemma ComparisonPredicates(a: U128, b: U128)
    ensures var ordered := !IsNaN(a) && !IsNaN(b);
            && (EqTf2(a, b) == 0 <==> ordered && Value(a) == Value(b))
            && (NeTf2(a, b) != 0 <==> !(ordered && Value(a) == Value(b)))
            && (LtTf2(a, b) < 0 <==> ordered && Value(a) < Value(b))
            && (LeTf2(a, b) <= 0 <==> ordered && Value(a) <= Value(b))
            && (GtTf2(a, b) > 0 <==> ordered && Value(a) > Value(b))
            && (GeTf2(a, b) >= 0 <==> ordered && Value(a) >= Value(b))
  {
    hide Compare, Value, IsNaN;
    CompareIsOrder(a, b);
    CompareIsOrder(b, a);
  }
}
