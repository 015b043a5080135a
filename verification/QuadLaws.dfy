/** What correct rounding means for whoever calls the quad arithmetic: each result is determined,
    and the laws of the real operations that survive rounding. */
module QuadLaws {
  import opened Words
  import opened Rounding
  import opened QuadFormat

  // ----- each operation has one result

  lemma RoundsIsUnique(r: U128, r': U128, v: real, z: nat)
    requires Rounds(r, v, z) && Rounds(r', v, z)
    ensures r == r'
  {
    hide IsNearestEven;
    NearestIsUnique(Quad, Code(r), Code(r'), Abs(v));
    PackFields(r);
    PackFields(r');
  }

  lemma SumIsUnique(a: U128, b: U128, neg: bool, r: U128, r': U128)
    requires IsSum(a, b, neg, r) && IsSum(a, b, neg, r')
    ensures r == r'
  {
    hide Rounds, Value, IsNaN, IsInf, PropagatedNaN, Sign, Negated;
    var c := if neg then Negated(b) else b;
    if Rounds(r, Value(a) + Value(c), if Sign(a) == Sign(c) then Sign(a) else 0)
      && Rounds(r', Value(a) + Value(c), if Sign(a) == Sign(c) then Sign(a) else 0) {
      RoundsIsUnique(r, r', Value(a) + Value(c), if Sign(a) == Sign(c) then Sign(a) else 0);
    }
  }

  /** A result of known sign that is infinite, zero or correctly rounded. */
  lemma MagnitudeDecides(r: U128, r': U128, v: real)
    requires Sign(r) == Sign(r')
    ensures IsInf(r) && IsInf(r') ==> r == r'
    ensures IsZero(r) && IsZero(r') ==> r == r'
    ensures IsNearestEven(Quad, Code(r), v) && IsNearestEven(Quad, Code(r'), v) ==> r == r'
  {
    hide IsNearestEven;
    if IsNearestEven(Quad, Code(r), v) && IsNearestEven(Quad, Code(r'), v) {
      NearestIsUnique(Quad, Code(r), Code(r'), v);
    }
    PackFields(r);
    PackFields(r');
  }

  lemma FiniteProduct(a: U128, b: U128, r: U128, v: real)
    requires IsProduct(a, b, r) && IsFinite(a) && IsFinite(b) && v == Abs(Value(a) * Value(b))
    ensures IsNearestEven(Quad, Code(r), v)
  {
    hide IsNearestEven, Value, Magnitude, Code, Sign, PropagatedNaN;
  }

  lemma ProductIsUnique(a: U128, b: U128, r: U128, r': U128)
    requires IsProduct(a, b, r) && IsProduct(a, b, r')
    ensures r == r'
  {
    hide IsNearestEven, Value, Sign, PropagatedNaN, Abs;
    var v := Abs(Value(a) * Value(b));
    if IsFinite(a) && IsFinite(b) {
      FiniteProduct(a, b, r, v);
      FiniteProduct(a, b, r', v);
    }
    if Sign(r) == Sign(r') { MagnitudeDecides(r, r', v); }
  }

  lemma QuotientIsUnique(a: U128, b: U128, r: U128, r': U128)
    requires IsQuotient(a, b, r) && IsQuotient(a, b, r')
    ensures r == r'
  {
    hide IsNearestEven, Value, Code, Sign, PropagatedNaN, Abs;
    ZeroOrNot(b);
    if Sign(r) == Sign(r') {
      MagnitudeDecides(r, r', if Value(b) == 0.0 then 0.0 else Abs(Value(a) / Value(b)));
    }
  }

  lemma ZeroOrNot(b: U128)
    ensures IsFinite(b) && !IsZero(b) ==> Value(b) != 0.0
  {
    hide Magnitude;
    if IsFinite(b) { ZeroMagnitude(b); }
  }

  // ----- NaNs and invalid operations (sections 6.2.3 and 7.2)

  /** r is quiet, and has the sign of c and its payload but for the quiet bit. */
  predicate PassesOn(r: U128, c: U128) {
    && IsNaN(r) && !IsSignalling(r)
    && Sign(r) == Sign(c) && r.x0 == c.x0 && r.x1 % 0x8000_0000_0000 == c.x1 % 0x8000_0000_0000
  }

  /** The first signalling operand goes before the first NaN. */
  predicate PassesFirst(r: U128, a: U128, b: U128) {
    && (IsSignalling(a) ==> PassesOn(r, a))
    && (IsSignalling(b) && !IsSignalling(a) ==> PassesOn(r, b))
    && (!IsSignalling(a) && !IsSignalling(b) && IsNaN(a) ==> PassesOn(r, a))
    && (!IsSignalling(a) && !IsSignalling(b) && !IsNaN(a) && IsNaN(b) ==> PassesOn(r, b))
  }

  /** A quiet NaN with every bit of the fraction set. */
  predicate IsInvalid(r: U128) {
    IsNaN(r) && !IsSignalling(r) && Sign(r) == 0 && r.x0 == W64 - 1 && r.x1 % 0x1_0000_0000_0000 == 0xffff_ffff_ffff
  }

  lemma QuietedPasses(f: U128)
    requires IsNaN(f)
    ensures PassesOn(Quieted(f), f)
  {
    var q := f.x1 / 0x8000_0000_0000;
    assert f.x1 == q * 0x8000_0000_0000 + f.x1 % 0x8000_0000_0000;
  }

  lemma PropagatedPasses(a: U128, b: U128)
    requires IsNaN(a) || IsNaN(b)
    ensures PassesFirst(PropagatedNaN(a, b), a, b)
  {
    if IsNaN(a) { QuietedPasses(a); }
    if IsNaN(b) { QuietedPasses(b); }
    hide PassesOn, IsNaN;
  }

  lemma DefaultIsInvalid()
    ensures IsInvalid(DEFAULT_NAN)
  {}

  lemma NearestIsNumber(c: nat, v: real)
    requires IsNearestEven(Quad, c, v)
    ensures c <= INF_CODE
  {
    InfCodeIsInfinity();
  }

  /** A sum or difference is a NaN exactly if an operand is, or infinities cancel. */
  lemma SumOfNaN(a: U128, b: U128, neg: bool, r: U128)
    requires IsSum(a, b, neg, r)
    ensures IsNaN(a) || IsNaN(b) ==> PassesFirst(r, a, b)
    ensures var invalid := IsInf(a) && IsInf(b) && (Sign(a) == Sign(b) <==> neg);
            && (IsNaN(r) <==> IsNaN(a) || IsNaN(b) || invalid)
            && (invalid ==> IsInvalid(r))
  {
    hide IsNearestEven, Value, PropagatedNaN, PassesFirst, IsInvalid, Abs;
    if IsNaN(a) || IsNaN(b) {
      PropagatedPasses(a, b);
      FirstIsNaN(r, a, b);
    } else {
      DefaultIsInvalid();
      InvalidIsNaN(DEFAULT_NAN);
      NegatedParts(b);
      var c := if neg then Negated(b) else b;
      hide Negated, Code, Sign;
      if IsFinite(a) && IsFinite(b) { NearestIsNumber(Code(r), Abs(Value(a) + Value(c))); }
    }
  }

  lemma NegatedParts(b: U128)
    ensures Code(Negated(b)) == Code(b) && Sign(b) <= 1 && Sign(Negated(b)) == 1 - Sign(b)
  {}

  lemma FirstIsNaN(r: U128, a: U128, b: U128)
    requires PassesFirst(r, a, b) && (IsNaN(a) || IsNaN(b))
    ensures IsNaN(r) && !IsSignalling(r)
  {}

  lemma InvalidIsNaN(r: U128)
    requires IsInvalid(r)
    ensures IsNaN(r)
  {}

  /** A product is a NaN exactly if an operand is, or infinity meets zero. */
  lemma ProductOfNaN(a: U128, b: U128, r: U128)
    requires IsProduct(a, b, r)
    ensures IsNaN(a) || IsNaN(b) ==> PassesFirst(r, a, b)
    ensures var invalid := (IsInf(a) && IsZero(b)) || (IsZero(a) && IsInf(b));
            && (IsNaN(r) <==> IsNaN(a) || IsNaN(b) || invalid)
            && (invalid ==> IsInvalid(r))
  {
    hide IsNearestEven, Value, PropagatedNaN, PassesFirst, IsInvalid, Abs, Sign, Code;
    if IsNaN(a) || IsNaN(b) {
      PropagatedPasses(a, b);
      FirstIsNaN(r, a, b);
    } else {
      DefaultIsInvalid();
      InvalidIsNaN(DEFAULT_NAN);
      if IsFinite(a) && IsFinite(b) {
        FiniteProduct(a, b, r, Abs(Value(a) * Value(b)));
        NearestIsNumber(Code(r), Abs(Value(a) * Value(b)));
      }
    }
  }

  /** A quotient is a NaN exactly if an operand is, or both are infinite, or both zero. */
  lemma QuotientOfNaN(a: U128, b: U128, r: U128)
    requires IsQuotient(a, b, r)
    ensures IsNaN(a) || IsNaN(b) ==> PassesFirst(r, a, b)
    ensures var invalid := (IsInf(a) && IsInf(b)) || (IsZero(a) && IsZero(b));
            && (IsNaN(r) <==> IsNaN(a) || IsNaN(b) || invalid)
            && (invalid ==> IsInvalid(r))
  {
    hide IsNearestEven, Value, PropagatedNaN, PassesFirst, IsInvalid, Abs, Sign, Code;
    if IsNaN(a) || IsNaN(b) {
      PropagatedPasses(a, b);
      FirstIsNaN(r, a, b);
    } else {
      DefaultIsInvalid();
      InvalidIsNaN(DEFAULT_NAN);
      ZeroOrNot(b);
      if IsFinite(a) && IsFinite(b) && !IsZero(b) { NearestIsNumber(Code(r), Abs(Value(a) / Value(b))); }
    }
  }

  // ----- commutation

  lemma SumCommutes(a: U128, b: U128, r: U128)
    requires !IsNaN(a) && !IsNaN(b) && IsSum(a, b, false, r)
    ensures IsSum(b, a, false, r)
  {
    hide Rounds, Value, IsNaN;
    PackFields(a);
    PackFields(b);
  }

  lemma ProductCommutes(a: U128, b: U128, r: U128)
    requires !IsNaN(a) && !IsNaN(b) && IsProduct(a, b, r)
    ensures IsProduct(b, a, r)
  {
    hide IsNearestEven, Value, IsNaN, Code;
  }

  // ----- exact results

  lemma ExactSum(a: U128, v: real, r: U128, z: nat)
    requires IsFinite(a) && !IsZero(a) && v == Value(a) && Rounds(r, v, z)
    ensures r == a
  {
    hide IsNearestEven, Magnitude;
    ZeroMagnitude(a);
    InfCodeIsInfinity();
    PackFields(a);
    ExactIsNearest(Quad, Code(a));
    RoundsIsUnique(r, a, v, z);
  }

  /** A zero of either sign changes no other number. */
  lemma AddingZero(a: U128, b: U128, neg: bool, r: U128)
    requires !IsNaN(a) && !IsZero(a) && IsZero(b) && IsSum(a, b, neg, r)
    ensures r == a
  {
    hide Rounds, Magnitude;
    ZeroMagnitude(b);
    ZeroMagnitude(Negated(b));
    if IsFinite(a) {
      var c := if neg then Negated(b) else b;
      ExactSum(a, Value(a) + Value(c), r, if Sign(a) == Sign(c) then Sign(a) else 0);
    }
  }

  /** x - x is +0. */
  lemma SelfDifference(a: U128, r: U128)
    requires IsFinite(a) && IsSum(a, a, true, r)
    ensures r == Pack(0, 0)
  {
    hide IsNearestEven, Magnitude;
    assert Code(Negated(a)) == Code(a) && Sign(Negated(a)) != Sign(a);
    ZeroMagnitude(Pack(0, 0));
    ExactIsNearest(Quad, 0);
    RoundsIsUnique(r, Pack(0, 0), 0.0, 0);
  }

  // ----- order

  /** Rounding keeps the order of what it rounds. */
  lemma RoundingIsMonotone(F: Format, c: nat, d: nat, v: real, w: real)
    requires IsNearestEven(F, c, v) && IsNearestEven(F, d, w) && v <= w
    ensures c <= d
  {
    hide Magnitude;
    if d < c {
      MagnitudeMono(F, d, c);
      MidpointOnly(Magnitude(F, d), Magnitude(F, c), v, w);
      NearestIsUnique(F, c, d, v);
    }
  }

  lemma MidpointOnly(x: real, y: real, v: real, w: real)
    requires x < y && v <= w && Dist(y, v) <= Dist(x, v) && Dist(x, w) <= Dist(y, w)
    ensures v == w
  {}

  lemma RoundsIsMonotone(r: U128, r': U128, v: real, w: real, z: nat, z': nat)
    requires Rounds(r, v, z) && Rounds(r', w, z') && v <= w
    ensures Value(r) <= Value(r')
  {
    hide IsNearestEven, Magnitude;
    InfCodeIsInfinity();
    NonNegative(r);
    NonNegative(r');
    if w < 0.0 {
      RoundingIsMonotone(Quad, Code(r'), Code(r), Abs(w), Abs(v));
      CodesInOrder(Code(r'), Code(r));
    } else if v >= 0.0 {
      RoundingIsMonotone(Quad, Code(r), Code(r'), Abs(v), Abs(w));
      CodesInOrder(Code(r), Code(r'));
      if v == 0.0 { ZeroRounds(r, v); }
      if w == 0.0 { ZeroRounds(r', w); }
    } else {
      if w == 0.0 { ZeroRounds(r', w); }
    }
  }

  lemma ZeroRounds(r: U128, v: real)
    requires v == 0.0 && IsNearestEven(Quad, Code(r), Abs(v))
    ensures Code(r) == 0 && Value(r) == 0.0
  {
    hide IsNearestEven, Magnitude;
    ZeroMagnitude(Pack(0, 0));
    ExactIsNearest(Quad, 0);
    NearestIsUnique(Quad, Code(r), 0, 0.0);
  }

  lemma NonNegative(r: U128)
    ensures Magnitude(Quad, Code(r)) >= 0.0
  {
    hide Magnitude;
    ZeroMagnitude(Pack(0, 0));
    CodesInOrder(0, Code(r));
  }

  lemma CodesInOrder(c: nat, d: nat)
    requires c <= d
    ensures Magnitude(Quad, c) <= Magnitude(Quad, d)
  {
    hide Magnitude;
    if c < d { MagnitudeMono(Quad, c, d); }
  }

  /** Addition of finite numbers keeps their order. */
  lemma SumIsMonotone(a: U128, a': U128, b: U128, neg: bool, r: U128, r': U128)
    requires IsFinite(a) && IsFinite(a') && IsFinite(b) && Value(a) <= Value(a')
    requires IsSum(a, b, neg, r) && IsSum(a', b, neg, r')
    ensures Value(r) <= Value(r')
  {
    hide Rounds, Magnitude;
    var c := if neg then Negated(b) else b;
    RoundsIsMonotone(r, r', Value(a) + Value(c), Value(a') + Value(c),
                     if Sign(a) == Sign(c) then Sign(a) else 0, if Sign(a') == Sign(c) then Sign(a') else 0);
  }
}
