/** Powers of two, as naturals and as exact reals, with the arithmetic the word-level proofs need. */
module Power2 {

  function Pow2(n: nat): (p: nat)
    ensures p >= 1
  {
    if n == 0 then 1 else 2 * Pow2(n - 1)
  }

  lemma Pow2Small()
    ensures Pow2(0) == 1 && Pow2(1) == 2
  {}

  lemma {:induction false} Pow2Add(a: nat, b: nat)
    ensures Pow2(a + b) == Pow2(a) * Pow2(b)
  {
    if a == 0 {
    } else {
      Pow2Add(a - 1, b);
      assert Pow2(a + b) == 2 * Pow2(a - 1 + b);
      MulAssoc(2, Pow2(a - 1), Pow2(b));
    }
  }

  lemma {:induction false} Pow2Mono(a: nat, b: nat)
    requires a <= b
    ensures Pow2(a) <= Pow2(b)
    decreases b
  {
    if a == b {
    } else {
      Pow2Mono(a, b - 1);
    }
  }

  lemma {:induction false} Pow2StrictMono(a: nat, b: nat)
    requires a < b
    ensures Pow2(a) < Pow2(b)
  {
    Pow2Mono(a + 1, b);
  }

  lemma MulAssoc(x: int, y: int, z: int)
    ensures x * (y * z) == (x * y) * z
  {}

  lemma MulMono(x: int, y: int, z: int)
    requires x <= y && 0 <= z
    ensures x * z <= y * z
  {}

  lemma MulPos(x: int, y: int)
    requires 0 < x && 0 < y
    ensures 0 < x * y
  {}

  lemma DivModUnique(x: int, d: int, q: int, r: int)
    requires 0 < d && 0 <= r < d && x == q * d + r
    ensures x / d == q && x % d == r
  {
    var q', r' := x / d, x % d;
    assert x == d * q' + r';
    assert (q - q') * d == r' - r;
    if q > q' {
      MulMono(1, q - q', d);
    } else if q < q' {
      MulMono(q - q', -1, d);
    }
  }

  lemma ModShift(x: int, y: int, m: int)
    requires m > 0
    ensures (x % m + y) % m == (x + y) % m
  {
    var k, z := x / m, x % m + y;
    assert (z / m + k) * m == z / m * m + k * m;
    DivModUnique(x + y, m, z / m + k, z % m);
  }

  /** A quotient by a product of two factors is a quotient of a quotient. */
  lemma DivDiv(x: nat, a: nat, b: nat)
    requires a > 0 && b > 0
    ensures a * b > 0
    ensures x / (a * b) == (x / a) / b
    ensures x % (a * b) == ((x / a) % b) * a + x % a
  {
    MulPos(a, b);
    var q, r := x / a, x % a;
    var q2, r2 := q / b, q % b;
    assert x == q * a + r && q == q2 * b + r2;
    assert x == q2 * (a * b) + (r2 * a + r) by {
      assert q * a == (q2 * b + r2) * a == (q2 * b) * a + r2 * a;
      assert (q2 * b) * a == q2 * (a * b);
    }
    MulMono(r2, b - 1, a);
    DivModUnique(x, a * b, q2, r2 * a + r);
  }

  /** Scaling the dividend and the divisor alike scales the remainder. */
  lemma ModScale(x: nat, p: nat, r: nat)
    requires p > 0 && r > 0
    ensures p * r > 0
    ensures x * r % (p * r) == x % p * r
    ensures x % p * r == 0 <==> x % p == 0
  {
    var q, m := x / p, x % p;
    MulPos(p, r);
    assert x * r == q * (p * r) + m * r by {
      assert (q * p + m) * r == (q * p) * r + m * r;
      MulAssoc(q, p, r);
    }
    MulMono(m, p - 1, r);
    DivModUnique(x * r, p * r, q, m * r);
    if m > 0 { MulPos(m, r); }
  }

  lemma DivAtLeast(x: nat, d: nat, q: nat)
    requires d > 0 && q * d <= x
    ensures x / d >= q
  {
    if x / d < q { MulMono(x / d + 1, q, d); }
  }

  lemma DivShrinks(x: nat, a: nat, b: nat)
    requires 0 < a <= b
    ensures x / b <= x / a
  {
    MulMono(a, b, x / b);
    DivAtLeast(x, a, x / b);
  }

  lemma DivLess(x: nat, d: nat, q: nat)
    requires d > 0 && x < q * d
    ensures x / d < q
  {
    if x / d >= q { MulMono(q, x / d, d); }
  }

  /** 2 to the power e, exactly, for any integer e. */
  function Exp2(e: int): (r: real)
    ensures r > 0.0
    decreases if e < 0 then -e else e
  {
    if e == 0 then 1.0 else if e > 0 then 2.0 * Exp2(e - 1) else Exp2(e + 1) / 2.0
  }

  lemma Exp2Step(e: int)
    ensures Exp2(e + 1) == 2.0 * Exp2(e)
  {}

  lemma {:induction false} Exp2Shift(e: int, n: nat)
    ensures Exp2(e + n) == Exp2(e) * Pow2(n) as real
  {
    if n == 0 {
    } else {
      Exp2Shift(e, n - 1);
      Exp2Step(e + (n - 1));
      DoubleRight(Exp2(e), Pow2(n - 1), Pow2(n));
    }
  }

  lemma DoubleRight(x: real, p: int, p2: int)
    requires p2 == 2 * p
    ensures x * p2 as real == 2.0 * (x * p as real)
  {
    DoubleFactor(x, p as real, p2 as real);
  }

  lemma DoubleFactor(x: real, y: real, y2: real)
    requires y2 == 2.0 * y
    ensures x * y2 == 2.0 * (x * y)
  {
    assert x * (2.0 * y) == 2.0 * (x * y);
  }

  lemma {:induction false} Exp2Nat(n: nat)
    ensures Exp2(n) == Pow2(n) as real
  {
    if n == 0 {
    } else {
      Exp2Nat(n - 1);
    }
  }

  lemma Exp2Inverse(e: int)
    requires e <= 0
    ensures Exp2(e) * Pow2(-e) as real == 1.0
  {
    Exp2Shift(e, -e);
  }

  lemma Exp2Add(a: int, b: int)
    ensures Exp2(a + b) == Exp2(a) * Exp2(b)
  {
    hide Exp2, Pow2;
    if b >= 0 {
      Exp2Shift(a, b);
      Exp2Nat(b);
    } else {
      Exp2Shift(a + b, -b);
      Exp2Inverse(b);
      CancelFactor(Exp2(a + b), Pow2(-b) as real, Exp2(b), Exp2(a));
    }
  }

  lemma CancelFactor(x: real, y: real, z: real, w: real)
    requires z * y == 1.0 && w == x * y
    ensures x == w * z
  {
    RealMulAssoc(x, y, z);
    assert y * z == 1.0;
  }

  lemma RealMulAssoc(x: real, y: real, z: real)
    ensures x * y * z == x * (y * z) == y * (x * z)
  {}

  lemma RealMulMono(x: real, y: real, z: real)
    requires 0.0 < z
    ensures x < y ==> x * z < y * z
    ensures x <= y ==> x * z <= y * z
  {}

  /** The value of x units of 2^e. */
  function Units(x: int, e: int): real {
    x as real * Exp2(e)
  }

  lemma UnitsNil(e: int)
    ensures Units(0, e) == 0.0
  {}

  lemma UnitsShift(x: int, e: int, n: nat)
    ensures Units(x, e + n) == Units(x * Pow2(n), e)
  {
    hide Pow2, Exp2;
    Exp2Shift(e, n);
    var a, b, u := x as real, Pow2(n) as real, Exp2(e);
    assert (x * Pow2(n)) as real == a * b;
    RealMulAssoc(a, b, u);
    assert u * b == b * u;
  }

  lemma UnitsDouble(x: int, e: int)
    ensures Units(x, e + 1) == Units(2 * x, e)
  {
    assert Pow2(1) == 2;
    UnitsShift(x, e, 1);
  }

  lemma UnitsMono(x: int, y: int, e: int)
    ensures x < y ==> Units(x, e) < Units(y, e)
    ensures x <= y ==> Units(x, e) <= Units(y, e)
  {
    hide Exp2;
    RealMulMono(x as real, y as real, Exp2(e));
  }

  lemma UnitsAdd(x: int, y: int, e: int)
    ensures Units(x + y, e) == Units(x, e) + Units(y, e)
    ensures Units(x - y, e) == Units(x, e) - Units(y, e)
  {
    hide Exp2;
    var a, b, u := x as real, y as real, Exp2(e);
    assert (a + b) * u == a * u + b * u;
    assert (a - b) * u == a * u - b * u;
  }

  lemma UnitsMul(x: int, y: int, e: int, f: int)
    ensures Units(x, e) * Units(y, f) == Units(x * y, e + f)
  {
    hide Exp2;
    Exp2Add(e, f);
    var a, b, u, w := x as real, y as real, Exp2(e), Exp2(f);
    assert (x * y) as real == a * b;
    RealMulAssoc(a * b, u, w);
    FourFactors(a, b, u, w);
  }

  lemma FourFactors(a: real, b: real, u: real, w: real)
    ensures (a * u) * (b * w) == (a * b) * (u * w)
  {
    RealMulAssoc(a, u, b * w);
    RealMulAssoc(u, b, w);
    RealMulAssoc(a, b, u * w);
  }
}
