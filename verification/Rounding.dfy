/** Binary interchange formats and correct rounding (IEEE 754-2008, sections 3.4 and 4.3.1),
    stated over exact real values, and the sticky-bit arithmetic that achieves it. */
module Rounding {
  import opened Power2
  import opened Words

  /** A format is given by its fraction width and its largest biased exponent. */
  datatype Format = Format(fracBits: nat, maxExp: nat)

  const Single := Format(23, 0xff)
  const Double := Format(52, 0x7ff)
  const Quad := Format(112, 0x7fff)

  /** The exponent of the least subnormal. */
  function Unit(F: Format): int {
    1 - F.maxExp / 2 - F.fracBits
  }

  /** The encodings of the non-negative numbers are the naturals below Infinity(F), in order. */
  function Infinity(F: Format): nat {
    F.maxExp * Pow2(F.fracBits)
  }

  /** The exact value that a sign-less encoding stands for. The encoding of infinity stands
      for the power of two that would come next, as section 4.3.1 has it. */
  function Magnitude(F: Format, c: nat): real {
    var e, f := c / Pow2(F.fracBits), c % Pow2(F.fracBits);
    if e == 0 then Units(f, Unit(F)) else Units(Pow2(F.fracBits) + f, Unit(F) + (e - 1))
  }

  function Dist(x: real, y: real): real {
    if x < y then y - x else x - y
  }

  /** c is nearer to v than any other encoding, or ties with one and is the even one. */
  ghost predicate IsNearestEven(F: Format, c: nat, v: real) {
    c <= Infinity(F) &&
    forall d: nat | d <= Infinity(F) && d != c ::
      Dist(Magnitude(F, c), v) < Dist(Magnitude(F, d), v) ||
      (Dist(Magnitude(F, c), v) == Dist(Magnitude(F, d), v) && c % 2 == 0)
  }

  // ----- the order of encodings

  lemma MagnitudeOf(F: Format, e: nat, f: nat)
    requires f < Pow2(F.fracBits)
    ensures e == 0 ==> Magnitude(F, f) == Units(f, Unit(F))
    ensures e > 0 ==> Magnitude(F, e * Pow2(F.fracBits) + f) == Units(Pow2(F.fracBits) + f, Unit(F) + (e - 1))
  {
    hide Pow2, Units;
    DivModUnique(e * Pow2(F.fracBits) + f, Pow2(F.fracBits), e, f);
  }

  /** m units in the last place of the binade eb, in its encoding. */
  lemma CodeMagnitude(F: Format, eb: nat, m: nat)
    requires m <= 2 * Pow2(F.fracBits)
    requires eb > 0 ==> m >= Pow2(F.fracBits)
    ensures Magnitude(F, eb * Pow2(F.fracBits) + m) == Units(m, Unit(F) + eb)
  {
    hide Pow2, Units, Magnitude, Unit;
    var p := Pow2(F.fracBits);
    if m < p {
      MagnitudeOf(F, 0, m);
      assert eb * p + m == m;
    } else if m < 2 * p {
      MagnitudeOf(F, eb + 1, m - p);
      assert eb * p + m == (eb + 1) * p + (m - p);
    } else {
      MagnitudeOf(F, eb + 2, 0);
      assert eb * p + m == (eb + 2) * p + 0;
      UnitsDouble(p, Unit(F) + eb);
    }
  }

  lemma NextMagnitude(F: Format, c: nat)
    ensures Magnitude(F, c) < Magnitude(F, c + 1)
  {
    hide Pow2, Units, Magnitude, Unit;
    var p := Pow2(F.fracBits);
    var e, f := c / p, c % p;
    var eb, m := if e == 0 then 0 else e - 1, if e == 0 then f else p + f;
    Recompose(c, p);
    assert c == eb * p + m by {
      if e > 0 { assert e * p == (e - 1) * p + p; }
    }
    CodeMagnitude(F, eb, m);
    CodeMagnitude(F, eb, m + 1);
    UnitsMono(m, m + 1, Unit(F) + eb);
  }

  lemma {:induction false} MagnitudeMono(F: Format, c: nat, d: nat)
    requires c < d
    ensures Magnitude(F, c) < Magnitude(F, d)
    decreases d
  {
    NextMagnitude(F, d - 1);
    if c == d - 1 {
    } else {
      MagnitudeMono(F, c, d - 1);
    }
  }

  /** A value between two neighbours goes to the nearer one, or to the even one. */
  lemma NearestOfTwo(F: Format, c: nat, v: real, r: nat)
    requires c + 1 <= Infinity(F)
    requires Magnitude(F, c) <= v <= Magnitude(F, c + 1)
    requires 2.0 * v < Magnitude(F, c) + Magnitude(F, c + 1) ==> r == c
    requires 2.0 * v > Magnitude(F, c) + Magnitude(F, c + 1) ==> r == c + 1
    requires 2.0 * v == Magnitude(F, c) + Magnitude(F, c + 1) ==> r == c + c % 2
    ensures IsNearestEven(F, r, v)
  {
    hide Magnitude;
    forall d: nat | d <= Infinity(F) && d != r
      ensures Dist(Magnitude(F, r), v) < Dist(Magnitude(F, d), v) ||
              (Dist(Magnitude(F, r), v) == Dist(Magnitude(F, d), v) && r % 2 == 0)
    {
      NextMagnitude(F, c);
      if d < c { MagnitudeMono(F, d, c); }
      if d > c + 1 { MagnitudeMono(F, c + 1, d); }
    }
  }

  lemma NearestOfLarge(F: Format, v: real)
    requires v >= Magnitude(F, Infinity(F))
    ensures IsNearestEven(F, Infinity(F), v)
  {
    hide Magnitude;
    forall d: nat | d < Infinity(F)
      ensures Dist(Magnitude(F, Infinity(F)), v) < Dist(Magnitude(F, d), v)
    {
      MagnitudeMono(F, d, Infinity(F));
    }
  }

  /** A value that has an encoding is rounded to it. */
  lemma ExactIsNearest(F: Format, c: nat)
    requires c <= Infinity(F)
    ensures IsNearestEven(F, c, Magnitude(F, c))
  {
    hide Magnitude;
    forall d: nat | d <= Infinity(F) && d != c
      ensures Magnitude(F, d) != Magnitude(F, c)
    {
      if d < c { MagnitudeMono(F, d, c); } else { MagnitudeMono(F, c, d); }
    }
  }

  /** Rounding is a function: no value has two nearest-even encodings. */
  lemma NearestIsUnique(F: Format, c: nat, d: nat, v: real)
    requires IsNearestEven(F, c, v) && IsNearestEven(F, d, v)
    ensures c == d
  {
    hide Magnitude;
    if c < d {
      NearestIsUniqueOrdered(F, c, d, v);
    } else if d < c {
      NearestIsUniqueOrdered(F, d, c, v);
    }
  }

  lemma NearestIsUniqueOrdered(F: Format, c: nat, d: nat, v: real)
    requires IsNearestEven(F, c, v) && IsNearestEven(F, d, v)
    ensures !(c < d)
  {
    hide Magnitude;
    if c < d {
      MagnitudeMono(F, c, c + 1);
      MagnitudeMono(F, c, d);
      if c + 1 < d {
        MagnitudeMono(F, c + 1, d);
      }
    }
  }

  /** The bound is midway between the largest number and what infinity stands for. */
  lemma TopIsMidway(F: Format)
    requires F.maxExp >= 2 && F.fracBits >= 1
    ensures Infinity(F) > 0
    ensures Magnitude(F, Infinity(F)) + Magnitude(F, Infinity(F) - 1) ==
            2.0 * Units(4 * Pow2(F.fracBits) - 1, Unit(F) + F.maxExp - 3)
  {
    hide Pow2, Units, Magnitude, Unit;
    var p, eb, x := Pow2(F.fracBits), F.maxExp - 2, Unit(F) + F.maxExp - 3;
    Pow2Mono(0, F.fracBits);
    assert Infinity(F) == eb * p + 2 * p;
    CodeMagnitude(F, eb, 2 * p);
    CodeMagnitude(F, eb, 2 * p - 1);
    hide Infinity;
    UnitsDouble(2 * p, x);
    UnitsDouble(2 * p - 1, x);
    UnitsAdd(4 * p, 4 * p - 2, x);
    UnitsAdd(4 * p - 1, 4 * p - 1, x);
  }

  /** The overflow threshold of section 4.3.1: half a unit beyond the largest finite number. */
  lemma OverflowThreshold(F: Format, v: real)
    requires F.maxExp >= 2 && F.fracBits >= 1
    ensures IsNearestEven(F, Infinity(F), v) <==>
            v >= Units(4 * Pow2(F.fracBits) - 1, Unit(F) + F.maxExp - 3)
  {
    hide Pow2, Units, Magnitude, Unit, Infinity;
    var p, top := Pow2(F.fracBits), Infinity(F);
    InfinityIsEven(F);
    TopIsMidway(F);
    if v >= Units(4 * p - 1, Unit(F) + F.maxExp - 3) {
      if v >= Magnitude(F, top) {
        NearestOfLarge(F, v);
      } else {
        NearestOfTwo(F, top - 1, v, top);
      }
    } else {
      NextMagnitude(F, top - 1);
      assert Dist(Magnitude(F, top), v) > Dist(Magnitude(F, top - 1), v);
    }
  }

  lemma InfinityIsEven(F: Format)
    requires F.fracBits >= 1
    ensures Infinity(F) % 2 == 0
  {
    var q := Pow2(F.fracBits - 1);
    MulAssoc(F.maxExp, 2, q);
    assert Infinity(F) == 2 * (F.maxExp * q);
  }
}
