/** Truncation with a sticky bit: the integer kept says exactly, or by being odd just
    approximately, what was there before. This is what makes two roundings equal one. */
module Sticky {
  import opened Power2
  import opened Words
  import opened Rounding

  /** x / 2^n, made odd when a bit is lost. */
  function StickyShr(x: nat, n: nat): nat {
    DivBound(x, Pow2(n));
    var q := x / Pow2(n);
    if x % Pow2(n) == 0 then q else q + 1 - q % 2
  }

  /** x units of 2^e stand for v: exactly, or as an odd multiple of 2^k that lies
      less than 2^k units from v. */
  ghost predicate StickyAt(x: nat, e: int, k: nat, v: real) {
    v == Units(x, e) ||
    (x % Pow2(k + 1) == Pow2(k) && Units(x - Pow2(k), e) < v < Units(x + Pow2(k), e))
  }

  lemma StickyExact(x: nat, e: int)
    ensures StickyAt(x, e, 0, Units(x, e))
  {}

  /** Shifting by s after shifting by t is shifting by t + s. */
  lemma StickyShrCompose(x: nat, t: nat, s: nat)
    ensures StickyShr(StickyShr(x, t), s) == StickyShr(x, t + s)
  {
    hide Pow2;
    Pow2Add(t, s);
    DivDiv(x, Pow2(t), Pow2(s));
    var q, b := x / Pow2(t), Pow2(s);
    assert x % Pow2(t + s) == 0 <==> q % b == 0 && x % Pow2(t) == 0 by {
      MulPos(Pow2(t), Pow2(s));
      if q % b > 0 { MulPos(q % b, Pow2(t)); }
    }
    if x % Pow2(t) != 0 {
      OddStep(q, s);
    }
  }

  /** Making a number odd first does not change what a sticky shift sees. */
  lemma OddStep(q: nat, s: nat)
    ensures StickyShr(q + 1 - q % 2, s) == q / Pow2(s) + 1 - (q / Pow2(s)) % 2
  {
    var p, y := Pow2(s), q + 1 - q % 2;
    if s > 0 {
      var h := Pow2(s - 1);
      DivDiv(q, 2, h);
      DivDiv(y, 2, h);
      assert y / 2 == q / 2;
    }
  }

  /** A left shift keeps the value and moves the sticky position along. */
  lemma StickyLeft(x: nat, e: int, k: nat, v: real, n: nat)
    requires StickyAt(x, e, k, v)
    ensures StickyAt(x * Pow2(n), e - n, k + n, v)
  {
    hide Pow2, Units;
    UnitsShift(x, e - n, n);
    if v != Units(x, e) {
      UnitsShift(x - Pow2(k), e - n, n);
      UnitsShift(x + Pow2(k), e - n, n);
      StickyLeftInt(x, k, n);
    }
  }

  lemma StickyLeftInt(x: nat, k: nat, n: nat)
    requires x % Pow2(k + 1) == Pow2(k)
    ensures x * Pow2(n) % Pow2(k + n + 1) == Pow2(k + n)
    ensures (x - Pow2(k)) * Pow2(n) == x * Pow2(n) - Pow2(k + n)
    ensures (x + Pow2(k)) * Pow2(n) == x * Pow2(n) + Pow2(k + n)
  {
    hide Pow2;
    Pow2Add(k, n);
    Pow2Add(k + 1, n);
    ModScale(x, Pow2(k + 1), Pow2(n));
  }

  /** A sticky right shift that reaches the sticky position leaves it at the bottom. */
  lemma StickyRight(x: nat, e: int, k: nat, v: real, n: nat)
    requires StickyAt(x, e, k, v) && k <= n
    ensures StickyAt(StickyShr(x, n), e + n, 0, v)
  {
    hide Pow2, Units;
    var p := Pow2(n);
    var q, r := x / p, x % p;
    var s := StickyShr(x, n);
    assert x == q * p + r;
    UnitsShift(q, e, n);
    Pow2Small();
    if r == 0 && v == Units(x, e) {
      assert s == q && q * p == x;
    } else if k < n || v == Units(x, e) {
      UnitsShift(q + 1, e, n);
      assert (q + 1) * p == q * p + p;
      if v == Units(x, e) {
        UnitsMono(q * p, x, e);
        UnitsMono(x, q * p + p, e);
      } else {
        OddInside(x, k, n);
        UnitsMono(q * p, x - Pow2(k), e);
        UnitsMono(x + Pow2(k), q * p + p, e);
      }
      Between(q, s, e + n, v);
    } else {
      OddMultiple(x, k);
      assert s == q && q * p == x;
      UnitsShift(q - 1, e, n);
      UnitsShift(q + 1, e, n);
      assert (q - 1) * p == q * p - p && (q + 1) * p == q * p + p;
    }
  }

  lemma Between(q: nat, s: nat, e: int, v: real)
    requires s == q + 1 - q % 2
    requires Units(q, e) < v < Units(q + 1, e)
    ensures Units(s - 1, e) < v < Units(s + 1, e)
  {
    UnitsMono(s - 1, q, e);
    UnitsMono(q + 1, s + 1, e);
  }

  lemma OddMultiple(x: nat, k: nat)
    requires x % Pow2(k + 1) == Pow2(k)
    ensures x % Pow2(k) == 0 && (x / Pow2(k)) % 2 == 1
  {
    var p := Pow2(k);
    DivDiv(x, p, 2);
    var m := (x / p) % 2;
    assert p == m * p + x % p;
  }

  /** An odd multiple of 2^k stays 2^k away from the multiples of a higher power. */
  lemma OddInside(x: nat, k: nat, n: nat)
    requires x % Pow2(k + 1) == Pow2(k) && k < n
    ensures Pow2(k) <= x % Pow2(n) <= Pow2(n) - Pow2(k)
  {
    hide Pow2;
    OddMultiple(x, k);
    Pow2Add(k, n - k);
    var a, b, y := Pow2(k), Pow2(n - k), x / Pow2(k);
    DivDiv(x, a, b);
    EvenPower(n - k);
    OddMod(y, Pow2(n - k - 1));
    MulMono(1, y % b, a);
    MulMono(y % b, b - 1, a);
    assert (b - 1) * a == a * b - a;
  }

  lemma OddMod(y: nat, h: nat)
    requires y % 2 == 1 && h > 0
    ensures y % (2 * h) >= 1
  {
    DivDiv(y, 2, h);
  }

  lemma EvenPower(n: nat)
    requires n >= 1
    ensures Pow2(n) == 2 * Pow2(n - 1)
  {}

  // ----- rounding off two guard bits

  /** Encodes s / 4 units of the binade eb, rounded on the two low bits of s. */
  function RoundGuarded(F: Format, eb: nat, s: nat): nat {
    var c := eb * Pow2(F.fracBits) + s / 4 + (if s % 4 == 3 || s % 8 == 6 then 1 else 0);
    if c >= Infinity(F) then Infinity(F) else c
  }

  /** Two guard bits, the lower one sticky, are enough for correct rounding. */
  lemma GuardedIsNearest(F: Format, eb: nat, s: nat, v: real)
    requires F.fracBits >= 1
    requires s / 4 < 2 * Pow2(F.fracBits)
    requires eb > 0 ==> s / 4 >= Pow2(F.fracBits)
    requires StickyAt(s, Unit(F) + eb - 2, 0, v)
    ensures IsNearestEven(F, RoundGuarded(F, eb, s), v)
  {
    hide Pow2, Units, Magnitude, Unit, RoundGuarded, IsNearestEven;
    var m := s / 4;
    var e := Unit(F) + eb - 2;
    CodeMagnitude(F, eb, m);
    CodeMagnitude(F, eb, m + 1);
    UnitsQuad(m, e);
    UnitsQuad(m + 1, e);
    Pow2Small();
    GuardPosition(s, e, v);
    ChooseByGuard(F, eb, s, v);
  }

  lemma ChooseByGuard(F: Format, eb: nat, s: nat, v: real)
    requires F.fracBits >= 1
    requires var c := eb * Pow2(F.fracBits) + s / 4; var mid := Magnitude(F, c) + Magnitude(F, c + 1);
             && Magnitude(F, c) <= v <= Magnitude(F, c + 1)
             && (s % 4 < 2 ==> 2.0 * v < mid)
             && (s % 4 == 2 ==> 2.0 * v == mid)
             && (s % 4 == 3 ==> 2.0 * v > mid)
    ensures IsNearestEven(F, RoundGuarded(F, eb, s), v)
  {
    hide Pow2, Units, Magnitude, IsNearestEven;
    var c := eb * Pow2(F.fracBits) + s / 4;
    InfinityIsEven(F);
    hide Infinity;
    if c >= Infinity(F) {
      if c > Infinity(F) { MagnitudeMono(F, Infinity(F), c); }
      NearestOfLarge(F, v);
    } else {
      var r := RoundGuarded(F, eb, s);
      assert r == c + (if s % 4 == 3 || s % 8 == 6 then 1 else 0);
      hide RoundGuarded;
      CodeParity(F, eb, s / 4);
      TieToEven(s);
      NearestOfTwo(F, c, v, r);
    }
  }

  lemma TieToEven(s: nat)
    ensures s % 8 == 6 <==> s % 4 == 2 && (s / 4) % 2 == 1
  {}

  lemma CodeParity(F: Format, eb: nat, m: nat)
    requires F.fracBits >= 1
    ensures (eb * Pow2(F.fracBits) + m) % 2 == m % 2
  {
    var q := Pow2(F.fracBits - 1);
    assert eb * (2 * q) == 2 * (eb * q);
  }

  lemma UnitsQuad(m: int, e: int)
    ensures Units(m, e + 2) == Units(4 * m, e)
  {
    UnitsDouble(m, e + 1);
    UnitsDouble(2 * m, e);
  }

  /** Where v lies among the quarters that s / 4 and its successor delimit. */
  lemma GuardPosition(s: nat, e: int, v: real)
    requires v == Units(s, e) || (s % 2 == 1 && Units(s - 1, e) < v < Units(s + 1, e))
    ensures Units(4 * (s / 4), e) <= v <= Units(4 * (s / 4 + 1), e)
    ensures var mid := Units(4 * (s / 4), e) + Units(4 * (s / 4 + 1), e);
            && (s % 4 < 2 ==> 2.0 * v < mid)
            && (s % 4 == 2 ==> 2.0 * v == mid)
            && (s % 4 == 3 ==> 2.0 * v > mid)
  {
    hide Units;
    var b := 4 * (s / 4);
    UnitsMono(0, 1, e);
    UnitsAdd(0, 0, e);
    UnitsAdd(b, 1, e);
    UnitsAdd(b + 1, 1, e);
    UnitsAdd(b + 2, 1, e);
    UnitsAdd(b + 3, 1, e);
    assert s == b || s == b + 1 || s == b + 2 || s == b + 3;
  }
}
