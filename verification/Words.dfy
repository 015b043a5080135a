/** Unsigned 64-bit words and the C operators on them, as naturals: wrap-around and
    truncation are written out, and the bitwise operators work bit by bit. */
module Words {
  import opened Power2

  const W64 := 0x1_0000_0000_0000_0000

  type Word = x: int | 0 <= x < 0x1_0000_0000_0000_0000

  lemma Pow2_64()
    ensures Pow2(32) == 0x1_0000_0000
    ensures Pow2(64) == W64
  {
    assert Pow2(8) == 0x100;
    Pow2Add(8, 8);
    Pow2Add(16, 16);
    Pow2Add(32, 32);
  }

  /** x << n */
  function Shl(x: Word, n: nat): Word {
    x * Pow2(n) % W64
  }

  /** x >> n */
  function Shr(x: Word, n: nat): Word {
    DivBound(x, Pow2(n));
    x / Pow2(n)
  }

  /** x | y, bit by bit */
  function BitOr(x: nat, y: nat): nat {
    if x == 0 then y
    else if y == 0 then x
    else 2 * BitOr(x / 2, y / 2) + (if x % 2 == 1 || y % 2 == 1 then 1 else 0)
  }

  /** x & y, bit by bit */
  function BitAnd(x: nat, y: nat): nat {
    if x == 0 || y == 0 then 0
    else 2 * BitAnd(x / 2, y / 2) + (if x % 2 == 1 && y % 2 == 1 then 1 else 0)
  }

  /** !!x */
  function NonZero(x: int): nat {
    if x == 0 then 0 else 1
  }

  function Plus(x: Word, y: Word): Word { (x + y) % W64 }

  function Minus(x: Word, y: Word): Word { (x - y) % W64 }

  function Times(x: Word, y: Word): Word { x * y % W64 }

  lemma DivBound(x: nat, d: nat)
    requires d >= 1
    ensures 0 <= x / d <= x
  {
    if x / d > x { MulMono(1, d, x / d); }
  }

  lemma {:induction false} OrBound(x: nat, y: nat, n: nat)
    requires x < Pow2(n) && y < Pow2(n)
    ensures BitOr(x, y) < Pow2(n)
  {
    if x == 0 || y == 0 {
    } else {
      OrBound(x / 2, y / 2, n - 1);
    }
  }

  lemma OrWord(x: Word, y: Word)
    ensures BitOr(x, y) < W64
  {
    Pow2_64();
    OrBound(x, y, 64);
  }

  lemma {:induction false} AndBound(x: nat, y: nat)
    ensures BitAnd(x, y) <= x
  {
    if x == 0 || y == 0 {
    } else {
      AndBound(x / 2, y / 2);
    }
  }

  lemma {:induction false} OrIsZero(x: nat, y: nat)
    ensures BitOr(x, y) == 0 <==> x == 0 && y == 0
  {
    if x == 0 || y == 0 {
    } else {
      OrIsZero(x / 2, y / 2);
    }
  }

  lemma {:induction false} OrCommutes(x: nat, y: nat)
    ensures BitOr(x, y) == BitOr(y, x)
  {
    if x == 0 || y == 0 {
    } else {
      OrCommutes(x / 2, y / 2);
    }
  }

  /** Words that overlap in no bit are merged by addition. */
  lemma {:induction false} OrDisjoint(a: nat, l: nat, k: nat)
    requires l < Pow2(k)
    ensures BitOr(a * Pow2(k), l) == a * Pow2(k) + l == BitOr(l, a * Pow2(k))
  {
    var h := a * Pow2(k);
    if k == 0 || h == 0 || l == 0 {
    } else {
      var p := Pow2(k - 1);
      assert h == 2 * (a * p) by { assert a * (2 * p) == 2 * (a * p); }
      OrDisjoint(a, l / 2, k - 1);
    }
  }

  lemma OrOne(x: nat)
    ensures BitOr(x, 1) == x + 1 - x % 2
    ensures BitOr(x, 0) == x
  {
    if x > 0 { assert BitOr(x / 2, 1 / 2) == x / 2; }
  }

  lemma {:induction false} AndMask(x: nat, k: nat)
    ensures BitAnd(x, Pow2(k) - 1) == x % Pow2(k)
  {
    if k == 0 {
    } else {
      AndMask(x / 2, k - 1);
      AndMaskStep(x, Pow2(k - 1));
    }
  }

  lemma AndMaskStep(x: nat, p: nat)
    requires p > 0 && BitAnd(x / 2, p - 1) == x / 2 % p
    ensures BitAnd(x, 2 * p - 1) == x % (2 * p)
  {
    hide BitAnd;
    DivDiv(x, 2, p);
    DivModUnique(2 * p - 1, 2, p - 1, 1);
    AndStep(x, 2 * p - 1);
  }

  lemma AndStep(x: nat, y: nat)
    ensures BitAnd(x, y) == 2 * BitAnd(x / 2, y / 2) + (if x % 2 == 1 && y % 2 == 1 then 1 else 0)
  {}

  /** Bits above and below position k are merged separately. */
  lemma {:induction false} OrSplit(a: nat, b: nat, l: nat, m: nat, k: nat)
    requires l < Pow2(k) && m < Pow2(k)
    ensures BitOr(a * Pow2(k) + l, b * Pow2(k) + m) == BitOr(a, b) * Pow2(k) + BitOr(l, m)
  {
    if k == 0 {
      assert BitOr(l, m) == 0;
    } else {
      OrSplit(a, b, l / 2, m / 2, k - 1);
      OrSplitDouble(a, b, l, m, Pow2(k - 1));
    }
  }

  lemma OrSplitDouble(a: nat, b: nat, l: nat, m: nat, p: nat)
    requires BitOr(a * p + l / 2, b * p + m / 2) == BitOr(a, b) * p + BitOr(l / 2, m / 2)
    ensures BitOr(a * (2 * p) + l, b * (2 * p) + m) == BitOr(a, b) * (2 * p) + BitOr(l, m)
  {
    hide BitOr;
    SplitHalf(a, p);
    SplitHalf(b, p);
    SplitHalf(BitOr(a, b), p);
    OrSplitStep(a * (2 * p) + l, b * (2 * p) + m, l, m, a * p, b * p, BitOr(a, b) * p);
  }

  lemma OrSplitStep(x: nat, y: nat, l: nat, m: nat, x': nat, y': nat, c: nat)
    requires x == 2 * x' + l && y == 2 * y' + m
    requires BitOr(x' + l / 2, y' + m / 2) == c + BitOr(l / 2, m / 2)
    ensures BitOr(x, y) == 2 * c + BitOr(l, m)
  {
    OrStep(x, y);
    OrStep(l, m);
  }

  lemma SplitHalf(a: nat, p: nat)
    ensures a * (2 * p) == 2 * (a * p)
  {}

  /** The low bits of x | y depend on the low bits of x and y. */
  lemma OrLowZero(x: nat, y: nat, k: nat)
    ensures BitOr(x, y) % Pow2(k) == 0 <==> x % Pow2(k) == 0 && y % Pow2(k) == 0
  {
    hide BitOr, Pow2;
    var p := Pow2(k);
    OrSplit(x / p, y / p, x % p, y % p, k);
    OrBound(x % p, y % p, k);
    OrIsZero(x % p, y % p);
    Recompose(x, p);
    Recompose(y, p);
    DivModUnique(BitOr(x, y), p, BitOr(x / p, y / p), BitOr(x % p, y % p));
  }

  lemma Recompose(x: nat, p: nat)
    requires p > 0
    ensures x == x / p * p + x % p
  {}

  lemma OrStep(x: nat, y: nat)
    ensures BitOr(x, y) == 2 * BitOr(x / 2, y / 2) + (if x % 2 == 1 || y % 2 == 1 then 1 else 0)
  {}

  lemma {:induction false} OrOnes(x: nat, n: nat)
    requires x < Pow2(n)
    ensures BitOr(x, Pow2(n) - 1) == Pow2(n) - 1
  {
    if n == 0 || x == 0 {
    } else {
      OrOnes(x / 2, n - 1);
      assert (Pow2(n) - 1) / 2 == Pow2(n - 1) - 1;
    }
  }

  /** The bits that a left shift by 64 - n keeps are the low n bits. */
  lemma ShlLow(x: Word, n: nat)
    requires n <= 64
    ensures Shl(x, 64 - n) == x % Pow2(n) * Pow2(64 - n)
    ensures Shl(x, 64 - n) == 0 <==> x % Pow2(n) == 0
  {
    hide Pow2;
    Pow2_64();
    Pow2Add(n, 64 - n);
    ModScale(x, Pow2(n), Pow2(64 - n));
  }

  /** Nothing is lost by a left shift that fits. */
  lemma ShlFits(x: Word, n: nat)
    requires n <= 64 && x < Pow2(64 - n)
    ensures Shl(x, n) == x * Pow2(n)
  {
    hide Pow2;
    Pow2_64();
    Pow2Add(64 - n, n);
    ProductBelow(x, Pow2(64 - n), Pow2(n));
    DivModUnique(x * Pow2(n), W64, 0, x * Pow2(n));
  }

  lemma ProductBelow(x: nat, r: nat, p: nat)
    requires x < r && p > 0
    ensures 0 <= x * p < r * p
  {
    MulMono(x, r - 1, p);
    MulMono(0, x, p);
    assert (r - 1) * p == r * p - p;
  }

  lemma ShrBelow(x: Word, n: nat)
    requires n <= 64
    ensures Shr(x, n) < Pow2(64 - n)
  {
    Pow2_64();
    Pow2Add(64 - n, n);
    DivLess(x, Pow2(n), Pow2(64 - n));
  }

  // ----- pairs of words

  /** 128 bits as two words, the less significant one first. */
  datatype U128 = U128(x0: Word, x1: Word)

  function Nat(x: U128): nat {
    x.x1 * W64 + x.x0
  }

  const W128: nat := 0x1_0000_0000_0000_0000_0000_0000_0000_0000

  lemma NatBound(x: U128)
    ensures Nat(x) < W128
    ensures Nat(x) / W64 == x.x1 && Nat(x) % W64 == x.x0
  {
    DivModUnique(Nat(x), W64, x.x1, x.x0);
  }

  lemma Pow2_128()
    ensures Pow2(128) == W128
  {
    Pow2Add(64, 64);
    Pow2_64();
  }

  function Or(x: Word, y: Word): Word {
    OrWord(x, y);
    BitOr(x, y)
  }

  function And(x: Word, y: Word): Word {
    AndBound(x, y);
    BitAnd(x, y)
  }

  /** The two-word left shift: x1 << n | x0 >> (64 - n) over x0 << n. */
  function ShlPair(x: U128, n: nat): U128
    requires n <= 64
  {
    U128(Shl(x.x0, n), Or(Shl(x.x1, n), Shr(x.x0, 64 - n)))
  }

  lemma ShlPairFits(x: U128, n: nat)
    requires 0 < n < 64 && x.x1 < Pow2(64 - n)
    ensures Nat(ShlPair(x, n)) == Nat(x) * Pow2(n)
    ensures ShlPair(x, n).x1 >= x.x1 * Pow2(n)
  {
    hide Pow2, BitOr;
    var p, r := Pow2(n), Pow2(64 - n);
    Pow2_64();
    Pow2Add(n, 64 - n);
    ShlFits(x.x1, n);
    ShlLow(x.x0, 64 - n);
    var q, m := x.x0 / r, x.x0 % r;
    ShrBelow(x.x0, 64 - n);
    OrDisjoint(x.x1, q, n);
    ShlAlgebra(x.x1, q, m, p, r);
  }

  lemma ShlAlgebra(a: int, q: int, m: int, p: int, r: int)
    ensures (a * p + q) * (p * r) + m * p == (a * (p * r) + (q * r + m)) * p
  {
    assert q * (p * r) == (q * r) * p;
    assert (a * p) * (p * r) == (a * (p * r)) * p;
  }

  /** The two-word right shift: x0 >> n | x1 << (64 - n) under x1 >> n. */
  function ShrPair(x: U128, n: nat): U128
    requires n <= 64
  {
    U128(Or(Shr(x.x0, n), Shl(x.x1, 64 - n)), Shr(x.x1, n))
  }

  lemma ShrPairIsDiv(x: U128, n: nat)
    requires 0 < n < 64
    ensures Nat(ShrPair(x, n)) == Nat(x) / Pow2(n)
    ensures Nat(x) % Pow2(n) == x.x0 % Pow2(n)
  {
    hide Pow2, BitOr;
    var p, r := Pow2(n), Pow2(64 - n);
    Pow2_64();
    Pow2Add(n, 64 - n);
    ShlLow(x.x1, n);
    ShrBelow(x.x0, n);
    var m1, q0 := x.x1 % p, x.x0 / p;
    OrDisjoint(m1, q0, 64 - n);
    assert Nat(ShrPair(x, n)) == (x.x1 / p) * W64 + (m1 * r + q0);
    PairQuotient(x.x1, x.x0, p, r);
  }

  lemma PairQuotient(x1: nat, x0: nat, p: nat, r: nat)
    requires p > 0
    ensures (x1 * (p * r) + x0) / p == (x1 / p) * (p * r) + (x1 % p * r + x0 / p)
    ensures (x1 * (p * r) + x0) % p == x0 % p
  {
    ShrAlgebra(x1 / p, x1 % p, x0 / p, x0 % p, p, r);
    DivModUnique(x1 * (p * r) + x0, p, (x1 / p) * (p * r) + (x1 % p * r + x0 / p), x0 % p);
  }

  lemma ShrAlgebra(q1: int, m1: int, q0: int, m0: int, p: int, r: int)
    ensures (q1 * (p * r) + (m1 * r + q0)) * p + m0 == (q1 * p + m1) * (p * r) + (q0 * p + m0)
  {
    assert (m1 * r) * p == m1 * (p * r);
    assert (q1 * (p * r)) * p == (q1 * p) * (p * r);
  }
}
