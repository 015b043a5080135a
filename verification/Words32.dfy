/** Unsigned 32-bit words, in the manner of Words. */
module Words32 {
  import opened Power2
  import opened Words

  const W32: nat := 0x1_0000_0000

  type Word32 = x: int | 0 <= x < 0x1_0000_0000

  function Shl32(x: Word32, n: nat): Word32 { x * Pow2(n) % W32 }

  function Shr32(x: Word32, n: nat): Word32 {
    DivBound(x, Pow2(n));
    x / Pow2(n)
  }

  function Or32(x: Word32, y: Word32): Word32 {
    Pow2_64();
    OrBound(x, y, 32);
    BitOr(x, y)
  }

  function And32(x: Word32, y: Word32): Word32 {
    AndBound(x, y);
    BitAnd(x, y)
  }

  function Plus32(x: Word32, y: Word32): Word32 { (x + y) % W32 }

  function Minus32(x: Word32, y: Word32): Word32 { (x - y) % W32 }

  lemma Shl32Low(x: Word32, n: nat)
    requires n <= 32
    ensures Shl32(x, 32 - n) == x % Pow2(n) * Pow2(32 - n)
    ensures Shl32(x, 32 - n) == 0 <==> x % Pow2(n) == 0
  {
    hide Pow2;
    Pow2_64();
    Pow2Add(n, 32 - n);
    ModScale(x, Pow2(n), Pow2(32 - n));
  }

  lemma Shl32Fits(x: Word32, n: nat)
    requires n <= 32 && x < Pow2(32 - n)
    ensures Shl32(x, n) == x * Pow2(n)
  {
    hide Pow2;
    Pow2_64();
    Pow2Add(32 - n, n);
    ProductBelow(x, Pow2(32 - n), Pow2(n));
    DivModUnique(x * Pow2(n), W32, 0, x * Pow2(n));
  }

  lemma Shl32Exact(x: Word32, n: nat)
    requires n <= 32 && x * Pow2(n) < W32
    ensures Shl32(x, n) == x * Pow2(n)
  {
    MulMono(0, x, Pow2(n));
    DivModUnique(x * Pow2(n), W32, 0, x * Pow2(n));
  }

  lemma Or32Zero(x: Word32)
    ensures Or32(x, 0) == x && Or32(0, x) == x
  {
    OrOne(x);
    OrCommutes(x, 0);
  }

  lemma Shr32Below(x: Word32, n: nat)
    requires n <= 32
    ensures Shr32(x, n) < Pow2(32 - n)
  {
    hide Pow2;
    Pow2_64();
    Pow2Add(32 - n, n);
    DivLess(x, Pow2(n), Pow2(32 - n));
  }

  function Pair(high: Word32, low: Word32): Word { high * 0x1_0000_0000 + low }

  // ----- two-word shifts

  lemma ShlAlgebra32(h: int, l: int, p: int, r: int)
    requires p * r == W32 && r > 0
    ensures h / r * W64 + (h % r * p + l / r) * W32 + l % r * p == (h * W32 + l) * p
  {
    var a, b, c, d := h / r, h % r, l / r, l % r;
    assert h == a * r + b && l == c * r + d;
    assert a * W64 == (a * r) * (p * W32) by { assert a * (p * r) == (a * r) * p; }
    assert c * W32 == (c * r) * p by { assert c * (p * r) == (c * r) * p; }
    assert ((a * r + b) * W32 + (c * r + d)) * p == (a * r) * (p * W32) + (b * p) * W32 + (c * r) * p + d * p;
  }

  /** The three words of a double word shifted left. */
  lemma ShiftedWords(h: Word32, l: Word32, n: nat)
    requires 0 < n < 32
    ensures var h', l' := Or32(Shl32(h, n), Shr32(l, 32 - n)), Shl32(l, n);
            Shr32(h, 32 - n) * W64 + h' * W32 + l' == (h * W32 + l) * Pow2(n)
    ensures Shr32(h, 32 - n) < Pow2(n)
  {
    hide Pow2, BitOr;
    Pow2_64();
    Pow2Add(n, 32 - n);
    Shl32Low(h, 32 - n);
    Shl32Low(l, 32 - n);
    Shr32Below(l, 32 - n);
    Shr32Below(h, 32 - n);
    OrDisjoint(h % Pow2(32 - n), Shr32(l, 32 - n), n);
    ShlAlgebra32(h, l, Pow2(n), Pow2(32 - n));
  }

  /** A double word shifted right. */
  lemma UnshiftedWords(h: Word32, l: Word32, n: nat)
    requires 0 < n < 32
    ensures Pair(Shr32(h, n), Or32(Shl32(h, 32 - n), Shr32(l, n))) == Pair(h, l) / Pow2(n)
  {
    hide Pow2, BitOr;
    Pow2_64();
    Pow2Add(n, 32 - n);
    Shl32Low(h, n);
    Shr32Below(l, n);
    OrDisjoint(h % Pow2(n), Shr32(l, n), 32 - n);
    Words.PairQuotient(h, l, Pow2(n), Pow2(32 - n));
  }

  lemma OrWords32(x: Word32, y: Word32)
    ensures Or32(x, y) == Or32(y, x)
  {
    OrCommutes(x, y);
  }

  lemma Pow2Split(b: nat)
    requires 32 <= b
    ensures Pow2(b) == W32 * Pow2(b - 32)
  {
    hide Pow2;
    Pow2_64();
    Pow2Add(32, b - 32);
  }

  /** A right shift by a word or more. */
  lemma ShrHigh(h: Word32, l: Word32, b: nat)
    requires 32 <= b
    ensures Pair(0, Shr32(h, b - 32)) == Pair(h, l) / Pow2(b)
  {
    hide Pow2;
    Pow2Split(b);
    DivDiv(Pair(h, l), W32, Pow2(b - 32));
    DivModUnique(Pair(h, l), W32, h, l);
  }

  /** A left shift by a word or more. */
  lemma ShlHigh(h: Word32, l: Word32, b: nat)
    requires 32 <= b
    ensures Pair(Shl32(l, b - 32), 0) == Pair(h, l) * Pow2(b) % W64
  {
    hide Pow2;
    Pow2Split(b);
    var p := Pow2(b - 32);
    var y := l * p;
    Recompose(y, W32);
    assert (h * W32 + l) * (W32 * p) == (h * p) * W64 + y * W32;
    MulMono(0, y / W32, 1);
    DivModUnique(Pair(h, l) * Pow2(b), W64, h * p + y / W32, y % W32 * W32);
  }

  /** A left shift by less than a word. */
  lemma ShlWords(h: Word32, l: Word32, b: nat)
    requires 0 < b < 32
    ensures Pair(Or32(Shl32(h, b), Shr32(l, 32 - b)), Shl32(l, b)) == Pair(h, l) * Pow2(b) % W64
  {
    hide Pow2, Or32, Shl32, Shr32;
    ShiftedWords(h, l, b);
    DivModUnique(Pair(h, l) * Pow2(b), W64, Shr32(h, 32 - b),
                 Pair(Or32(Shl32(h, b), Shr32(l, 32 - b)), Shl32(l, b)));
  }

  // ----- two's complement

  function Signed32(x: Word32): int { if x < W32 / 2 then x else x - W32 }

  function Signed64(x: Word): int { if x < W64 / 2 then x else x - W64 }

  /** A right shift of a signed word. */
  function Sar32(x: Word32, n: nat): Word32 { Signed32(x) / Pow2(n) % W32 }

  function Abs(x: int): nat { if x < 0 then -x else x }

  lemma NegateWord(x: Word)
    ensures Abs(Signed64(x)) == if x / W32 >= W32 / 2 then Minus(0, x) else x
    ensures Signed64(x) < 0 <==> x / W32 >= W32 / 2
  {
    var y: int := x;
    if x > 0 { DivModUnique(-y, W64, -1, W64 - y); }
  }

  lemma NegateIs(x: int)
    requires 0 <= x < W64
    ensures Minus(0, x) == -x % W64 && x == x % W64
  {}

  /** The word congruent to x stands for x exactly when x is in range. */
  lemma SignedOf(x: int)
    requires -W64 < x < W64
    ensures Signed64(x % W64) == x <==> -W64 / 2 <= x < W64 / 2
  {
    if x < 0 { DivModUnique(x, W64, -1, x + W64); } else { DivModUnique(x, W64, 0, x); }
  }

  lemma ShiftedDivision(x: int, k: int, p: nat)
    requires p > 0
    ensures (x - k * p) / p == x / p - k
  {
    var q, r := x / p, x % p;
    assert (q - k) * p == q * p - k * p;
    DivModUnique(x - k * p, p, q - k, r);
  }

  /** Rounding a negative number down keeps it negative and brings it no further from zero. */
  lemma FloorBound(y: int, p: nat)
    requires p > 0 && y < 0
    ensures y <= y / p < 0
  {
    var q := y / p;
    Recompose(-y - 1, p);
    DivModUnique(y, p, -1 - (-y - 1) / p, p - 1 - (-y - 1) % p);
    DivBound(-y - 1, p);
  }

  lemma Sar32IsShr(x: Word32, n: nat)
    requires n <= 32
    ensures Signed32(Sar32(x, n)) == Signed32(x) / Pow2(n)
    ensures x < W32 / 2 ==> Sar32(x, n) == Shr32(x, n) && Shr32(x, n) < W32 / 2
    ensures x >= W32 / 2 ==> Sar32(x, n) == Shr32(x, n) + W32 - Pow2(32 - n) && Sar32(x, n) >= W32 / 2
  {
    hide Pow2;
    Pow2_64();
    Pow2Add(n, 32 - n);
    var p, r := Pow2(n), Pow2(32 - n);
    DivBound(x, p);
    if x < W32 / 2 {
      DivModUnique(x / p, W32, 0, x / p);
    } else {
      assert r * p == W32;
      ShiftedDivision(x, r, p);
      var y := Signed32(x);
      var q := y / p;
      assert q == x / p - r;
      Recompose(x, p);
      FloorBound(y, p);
      DivModUnique(q, W32, -1, q + W32);
    }
  }

  /** An arithmetic right shift by less than a word. */
  lemma SarPair(h: Word32, l: Word32, b: nat)
    requires 0 < b < 32
    ensures Signed64(Pair(Sar32(h, b), Or32(Shr32(l, b), Shl32(h, 32 - b)))) == Signed64(Pair(h, l)) / Pow2(b)
  {
    hide Pow2, Or32, Shl32, Shr32, Sar32;
    UnshiftedWords(h, l, b);
    OrWords32(Shr32(l, b), Shl32(h, 32 - b));
    Sar32IsShr(h, b);
    Pow2_64();
    Pow2Add(b, 32 - b);
    ShiftedDivision(Pair(h, l), Pow2(32 - b) * W32, Pow2(b));
    assert (Pow2(32 - b) * W32) * Pow2(b) == W64;
  }

  /** An arithmetic right shift by a word or more. */
  lemma SarHigh(h: Word32, l: Word32, b: nat)
    requires 32 <= b < 64
    ensures Signed64(Pair(Sar32(h, 31), Sar32(h, b - 32))) == Signed64(Pair(h, l)) / Pow2(b)
  {
    hide Pow2, Or32, Shl32, Shr32, Sar32;
    Sar32IsShr(h, b - 32);
    SignFill(h);
    Pow2Split(b);
    ShiftedDivision(Pair(h, l), W32, W32);
    DivModUnique(Signed64(Pair(h, l)), W32, Signed32(h), l);
    FloorDivDiv(Signed64(Pair(h, l)), W32, Pow2(b - 32));
  }

  lemma SignFill(h: Word32)
    ensures Sar32(h, 31) == if h < W32 / 2 then 0 else W32 - 1
  {
    Pow2_64();
    assert Pow2(32) == 2 * Pow2(31);
    if h < W32 / 2 {
      DivModUnique(Signed32(h), W32 / 2, 0, h);
    } else {
      DivModUnique(Signed32(h), W32 / 2, -1, h - W32 / 2);
    }
  }

  /** Rounding down twice. */
  lemma FloorDivDiv(x: int, a: nat, b: nat)
    requires a > 0 && b > 0
    ensures a * b > 0 && x / (a * b) == x / a / b
  {
    MulPos(a, b);
    var k := Abs(x);
    MulMono(1, a * b, k);
    var y := x + k * (a * b);
    ShiftedDivision(y, k, a * b);
    assert k * (a * b) == (k * b) * a;
    ShiftedDivision(y, k * b, a);
    ShiftedDivision(y / a, k, b);
    DivDiv(y, a, b);
  }

  // ----- division as C defines it

  /** Quotient and remainder, rounding towards zero. */
  function TruncQuot(n: int, d: int): int
    requires d != 0
  {
    if (n < 0) == (d < 0) then Abs(n) / Abs(d) else -(Abs(n) / Abs(d))
  }

  function TruncRem(n: int, d: int): int
    requires d != 0
  {
    if n < 0 then -(Abs(n) % Abs(d)) else Abs(n) % Abs(d)
  }

  ghost predicate IsTruncatedDivision(n: int, d: int, q: int, r: int) {
    n == q * d + r && Abs(r) < Abs(d) && (r == 0 || (r < 0 <==> n < 0))
  }

  lemma FlipSigns(q: int, d: int)
    ensures (-q) * (-d) == q * d && (-q) * d == -(q * d) && q * (-d) == -(q * d)
  {}

  /** They are the only pair with n == q*d + r, a remainder smaller than the divisor and of the
      dividend's sign. */
  lemma TruncatedDivision(n: int, d: int, q: int, r: int)
    requires d != 0
    ensures IsTruncatedDivision(n, d, q, r) <==> q == TruncQuot(n, d) && r == TruncRem(n, d)
  {
    Recompose(Abs(n), Abs(d));
    FlipSigns(Abs(n) / Abs(d), Abs(d));
    if IsTruncatedDivision(n, d, q, r) {
      FlipSigns(q, d);
      DivModUnique(Abs(n), Abs(d), if (n < 0) == (d < 0) then q else -q, Abs(r));
    }
  }

  lemma QuotientInRange(n: int, d: int)
    requires d != 0 && -W64 / 2 <= n < W64 / 2
    ensures -W64 / 2 <= TruncQuot(n, d) <= W64 / 2
    ensures TruncQuot(n, d) == W64 / 2 <==> n == -W64 / 2 && d == -1
  {
    DivBound(Abs(n), Abs(d));
    if Abs(d) > 1 && Abs(n) > 0 { DivShrinks(Abs(n), 1, Abs(d)); }
  }
}
