/** 64-bit division and shifts from 32-bit words (lib/libtcc1.c:112-479). */
module Division64 {
  import opened Power2
  import opened Words
  import opened Words32

  // ----- the machine instructions

  /** sub_ddmmss: a 64-bit subtraction on words. */
  method SubPair(ah: Word32, al: Word32, bh: Word32, bl: Word32) returns (sh: Word32, sl: Word32)
    ensures Pair(sh, sl) == Minus(Pair(ah, al), Pair(bh, bl))
  {
    sl := Minus32(al, bl);
    sh := Minus32(Minus32(ah, bh), if al < bl then 1 else 0);
    BorrowWords(ah, al, bh, bl);
  }

  lemma BorrowWords(ah: Word32, al: Word32, bh: Word32, bl: Word32)
    ensures Pair(Minus32(Minus32(ah, bh), if al < bl then 1 else 0), Minus32(al, bl)) ==
            Minus(Pair(ah, al), Pair(bh, bl))
  {
    var c := if al < bl then 1 else 0;
    var sl := al - bl + c * W32;
    var d := ah - bh;
    var e := if d < 0 then d + W32 else d;
    assert Minus32(al, bl) == sl && Minus32(ah, bh) == e;
    var f := if e - c < 0 then e - c + W32 else e - c;
    assert Minus32(e, c) == f;
    var k := (f - (ah - bh - c)) / W32;
    assert f == ah - bh - c + k * W32 && 0 <= k <= 1;
    DivModUnique(Pair(ah, al) - Pair(bh, bl), W64, -k, f * W32 + sl);
  }

  /** umul_ppmm: the double-word product. */
  method MulPair(u: Word32, v: Word32) returns (w1: Word32, w0: Word32)
    ensures Pair(w1, w0) == u * v
  {
    MulMono(0, u, v);
    ProductBelow(u, W32, W32);
    ProductBelow(v, W32, u + 1);
    w1, w0 := u * v / W32, u * v % W32;
  }

  /** udiv_qrnnd: the machine divides two words by one only when the quotient fits a word. */
  method DivPair(n1: Word32, n0: Word32, d: Word32) returns (q: Word32, r: Word32)
    requires n1 < d
    ensures Pair(n1, n0) == q * d + r && r < d
  {
    var n := n1 * W32 + n0;
    ProductBelow(n1, d, W32);
    assert n < d * W32;
    DivLess(n, d, W32);
    DivBound(n, d);
    q, r := n / d, n % d;
  }

  /** The index of the highest bit set. */
  function TopBit(x: nat): (k: nat)
    requires x > 0
    ensures Pow2(k) <= x < 2 * Pow2(k)
  {
    if x == 1 then 0 else 1 + TopBit(x / 2)
  }

  /** count_leading_zeros */
  function CountLeadingZeros(x: Word32): nat
    requires x > 0
  {
    TopBitBelow32(x);
    31 - TopBit(x)
  }

  lemma TopBitBelow32(x: Word32)
    requires x > 0
    ensures TopBit(x) <= 31
  {
    hide Pow2;
    Pow2_64();
    if TopBit(x) > 31 { Pow2Mono(32, TopBit(x)); }
  }

  lemma LeadingZeros(x: Word32)
    requires x > 0
    ensures var c := CountLeadingZeros(x); c <= 31 && W32 / 2 <= x * Pow2(c) < W32
  {
    TopBitBelow32(x);
    var k, c := TopBit(x), CountLeadingZeros(x);
    assert Pow2(32) == 2 * Pow2(31);
    assert c == 31 - k;
    hide Pow2, TopBit;
    Pow2Add(k, c);
    Pow2_64();
    MulMono(Pow2(k), x, Pow2(c));
    ProductBelow(x, 2 * Pow2(k), Pow2(c));
    MulAssoc(2, Pow2(k), Pow2(c));
  }

  // ----- normalisation

  /** Quotient and remainder of scaled operands. */
  lemma ScaledDivision(n: nat, d: nat, s: nat, q: nat, r: nat)
    requires d > 0 && s > 0 && n * s == q * (d * s) + r && r < d * s
    ensures q == n / d && r == n % d * s && r / s == n % d
  {
    MulPos(d, s);
    DivModUnique(n * s, d * s, q, r);
    assert n * s == (n / d) * (d * s) + n % d * s by {
      Recompose(n, d);
      assert ((n / d) * d + n % d) * s == (n / d) * d * s + n % d * s;
      MulAssoc(n / d, d, s);
    }
    ProductBelow(n % d, d, s);
    DivModUnique(n * s, d * s, n / d, n % d * s);
    DivModUnique(r, s, n % d, 0);
  }

  // ----- division by a single word

  /** Two divisions of two words by one make a division of a double word by one. */
  lemma LongDivision(n1: nat, n0: nat, d: nat, q1: nat, r1: nat, q0: nat, r0: nat)
    requires d > 0 && n1 == q1 * d + r1 && r1 * W32 + n0 == q0 * d + r0 && r0 < d
    ensures (q1 * W32 + q0) == (n1 * W32 + n0) / d && r0 == (n1 * W32 + n0) % d
  {
    assert (q1 * d) * W32 == (q1 * W32) * d;
    assert (q1 * W32 + q0) * d == (q1 * W32) * d + q0 * d;
    DivModUnique(n1 * W32 + n0, d, q1 * W32 + q0, r0);
  }

  /** d1 is zero: no normalisation where the instruction needs none. */
  method DivByWord(n1: Word32, n0: Word32, d0: Word32) returns (q1: Word32, q0: Word32, r: Word32)
    requires d0 != 0
    ensures Pair(q1, q0) == Pair(n1, n0) / d0 && r == Pair(n1, n0) % d0
  {
    if d0 > n1 {
      q0, r := DivPair(n1, n0, d0);
      q1 := 0;
      LongDivision(n1, n0, d0, 0, n1, q0, r);
    } else {
      var r1;
      q1, r1 := DivPair(0, n1, d0);
      q0, r := DivPair(r1, n0, d0);
      LongDivision(n1, n0, d0, q1, r1, q0, r);
    }
  }

  /** The same with a normalised divisor (UDIV_NEEDS_NORMALIZATION). */
  method DivByWordNormalised(n1: Word32, n0: Word32, d0: Word32) returns (q1: Word32, q0: Word32, r: Word32)
    requires d0 != 0
    ensures Pair(q1, q0) == Pair(n1, n0) / d0 && r == Pair(n1, n0) % d0
  {
    hide Pow2, CountLeadingZeros;
    var bm := CountLeadingZeros(d0);
    LeadingZeros(d0);
    Pow2Small();
    if d0 > n1 {
      q0, r := NormalisedOnce(n1, n0, d0, bm);
      q1 := 0;
    } else if bm == 0 {
      var r1 := Minus32(n1, d0);
      q1 := 1;
      q0, r := DivPair(r1, n0, d0);
      LongDivision(n1, n0, d0, 1, r1, q0, r);
      ShrIsDiv(r, 0);
      r := Shr32(r, bm);
    } else {
      q1, q0, r := NormalisedTwice(n1, n0, d0, bm);
    }
  }

  method NormalisedOnce(n1: Word32, n0: Word32, d0: Word32, bm: nat) returns (q0: Word32, r: Word32)
    requires bm <= 31 && n1 < d0 && d0 * Pow2(bm) < W32
    ensures q0 == Pair(n1, n0) / d0 && r == Pair(n1, n0) % d0
  {
    hide Pow2, BitOr, Shl32, Shr32, Or32;
    Pow2Small();
    var d, h, l := d0, n1, n0;
    if bm != 0 {
      NormalisedTop(n1, n0, d0, bm);
      d := Shl32(d0, bm);
      h := Or32(Shl32(n1, bm), Shr32(n0, 32 - bm));
      l := Shl32(n0, bm);
    }
    q0, r := DivPair(h, l, d);
    ScaledDivision(Pair(n1, n0), d0, Pow2(bm), q0, r);
    ShrIsDiv(r, bm);
    r := Shr32(r, bm);
  }

  method NormalisedTwice(n1: Word32, n0: Word32, d0: Word32, bm: nat) returns (q1: Word32, q0: Word32, r: Word32)
    requires 0 < bm <= 31 && W32 / 2 <= d0 * Pow2(bm) < W32
    ensures Pair(q1, q0) == Pair(n1, n0) / d0 && r == Pair(n1, n0) % d0
  {
    hide Pow2, BitOr, Shl32, Shr32, Or32;
    var b := 32 - bm;
    var d := Shl32(d0, bm);
    var n2 := Shr32(n1, b);
    var h, l := Or32(Shl32(n1, bm), Shr32(n0, b)), Shl32(n0, bm);
    NormalisedBoth(n1, n0, d0, bm);
    var r1;
    q1, r1 := DivPair(n2, h, d);
    q0, r := DivPair(r1, l, d);
    ThreeWordDivision(n2, h, l, d, q1, r1, q0, r);
    ScaledDivision(Pair(n1, n0), d0, Pow2(bm), Pair(q1, q0), r);
    ShrIsDiv(r, bm);
    r := Shr32(r, bm);
  }

  lemma ShrIsDiv(x: nat, n: nat)
    requires x < W32
    ensures Shr32(x, n) == x / Pow2(n)
  {}

  lemma NormalisedTop(n1: Word32, n0: Word32, d0: Word32, bm: nat)
    requires 0 < bm <= 31 && n1 < d0 && d0 * Pow2(bm) < W32
    ensures var h, l := Or32(Shl32(n1, bm), Shr32(n0, 32 - bm)), Shl32(n0, bm);
            Pair(h, l) == Pair(n1, n0) * Pow2(bm) && Shl32(d0, bm) == d0 * Pow2(bm) && h < Shl32(d0, bm)
  {
    hide Pow2, BitOr, Shr32;
    ShiftedWords(n1, n0, bm);
    Shl32Exact(d0, bm);
    TopWordGone(n1, n0, d0, Pow2(bm), Shr32(n1, 32 - bm), Or32(Shl32(n1, bm), Shr32(n0, 32 - bm)), Shl32(n0, bm));
  }

  lemma TopWordGone(n1: nat, n0: nat, d: nat, s: nat, t: nat, h: nat, l: nat)
    requires n1 < d && n0 < W32 && d * s < W32 && s > 0 && l < W32 && h < W32
    requires t * W64 + h * W32 + l == (n1 * W32 + n0) * s
    ensures t == 0 && h < d * s
  {
    MulMono(n1 + 1, d, s);
    ProductBelow(n0, W32, s);
    assert (n1 * W32 + n0) * s == (n1 * s) * W32 + n0 * s;
    assert (n1 + 1) * s == n1 * s + s;
  }

  lemma NormalisedBoth(n1: Word32, n0: Word32, d0: Word32, bm: nat)
    requires 0 < bm <= 31 && W32 / 2 <= d0 * Pow2(bm) < W32
    ensures var n2, h, l := Shr32(n1, 32 - bm), Or32(Shl32(n1, bm), Shr32(n0, 32 - bm)), Shl32(n0, bm);
            && n2 * W64 + Pair(h, l) == Pair(n1, n0) * Pow2(bm)
            && Shl32(d0, bm) == d0 * Pow2(bm) && n2 < Shl32(d0, bm)
  {
    Pow2_64();
    assert Pow2(32) == 2 * Pow2(31);
    hide Pow2, BitOr, Shr32, Or32, Shl32;
    Pow2Mono(bm, 31);
    ShiftedWords(n1, n0, bm);
    Shl32Exact(d0, bm);
  }

  lemma ThreeWordDivision(n2: nat, h: nat, l: nat, d: nat, q1: nat, r1: nat, q0: nat, r0: nat)
    requires d > 0 && n2 * W32 + h == q1 * d + r1 && r1 * W32 + l == q0 * d + r0
    ensures n2 * W64 + (h * W32 + l) == (q1 * W32 + q0) * d + r0
  {
    assert (q1 * d) * W32 == (q1 * W32) * d;
    assert (q1 * W32 + q0) * d == (q1 * W32) * d + q0 * d;
  }

  // ----- division by two words

  /** The trial quotient, from the top words of a normalised division, is at most one too large:
      its excess over the low words does not exceed the divisor. */
  lemma TrialQuotient(n2: nat, n1: nat, n0: nat, d1: nat, d0: nat, q: nat, t1: nat, s: nat)
    requires W32 / 2 <= d1 < W32 && d0 < W32 && n1 < W32 && n0 < W32
    requires n2 < s && s <= W32 / 2 && (s == W32 / 2 ==> d0 <= W32 / 2) && (s < W32 / 2 ==> s <= W32 / 4)
    requires n2 * W32 + n1 == q * d1 + t1 && t1 < d1
    ensures q * d0 <= d1 * W32 + d0
    ensures n2 * W64 + n1 * W32 + n0 + q * d0 == q * (d1 * W32 + d0) + (t1 * W32 + n0)
    ensures t1 * W32 + n0 < d1 * W32 + d0
  {
    assert q * (d1 * W32 + d0) == (q * d1) * W32 + q * d0;
    ProductBelow(t1, d1, 1);
    TrialBound(n2 * W32 + n1, d1, d0, q, s);
  }

  lemma TrialBound(m: nat, d1: nat, d0: nat, q: nat, s: nat)
    requires W32 / 2 <= d1 && d0 < W32 && q * d1 <= m && m < s * W32
    requires (s == W32 / 2 && d0 <= W32 / 2) || s <= W32 / 4
    ensures q * d0 <= d1 * W32
  {
    MulMono(W32 / 2, d1, W32 / 2);
    MulMono(W32 / 2, d1, d1);
    if s == W32 / 2 {
      MulMono(d0, W32 / 2, s);
    } else {
      MulMono(d0, W32, s);
    }
    CancelTrial(d1, d0, q, s, W32);
  }

  /** From q*d1 < s*w and d0*s <= d1*d1: q*d0*d1 <= d1*d1*w. */
  lemma CancelTrial(d1: nat, d0: nat, q: nat, s: nat, w: nat)
    requires d1 > 0 && q * d1 <= s * w && d0 * s <= d1 * d1
    ensures q * d0 <= d1 * w
  {
    var lhs, rhs := q * d0, d1 * w;
    assert lhs * d1 <= rhs * d1 by {
      MulMono(q * d1, s * w, d0);
      MulMono(d0 * s, d1 * d1, w);
      assert (q * d1) * d0 == lhs * d1;
      assert (s * w) * d0 == (d0 * s) * w;
      assert (d1 * d1) * w == rhs * d1;
    }
    if lhs > rhs { Cancels(lhs, rhs, d1); }
  }

  lemma Cancels(a: nat, b: nat, c: nat)
    requires a > b && c > 0
    ensures a * c > b * c
  {
    MulMono(b + 1, a, c);
    assert (b + 1) * c == b * c + c;
  }

  /** The low word of a divisor shifted left has zeros there. */
  lemma ShiftedLow(d0: Word32, bm: nat)
    requires 0 < bm <= 31
    ensures bm == 31 ==> Shl32(d0, bm) <= W32 / 2
    ensures Pow2(bm) <= W32 / 2 && (bm < 31 ==> Pow2(bm) <= W32 / 4) && (bm == 31 ==> Pow2(bm) == W32 / 2)
  {
    Pow2_64();
    assert Pow2(32) == 2 * Pow2(31) && Pow2(31) == 2 * Pow2(30);
    hide Pow2;
    if bm < 31 { Pow2Mono(bm, 30); }
    if bm == 31 {
      Shl32Low(d0, 1);
      Pow2Small();
    }
  }

  /** A dividend below twice its divisor. */
  lemma QuotientBit(n1: Word32, n0: Word32, d1: Word32, d0: Word32)
    requires d1 > 0 && n1 < 2 * d1
    ensures var n, d := Pair(n1, n0), Pair(d1, d0);
            if n1 > d1 || (n1 == d1 && n0 >= d0) then n / d == 1 && n % d == Minus(n, d) else n / d == 0 && n % d == n
  {
    var n, d := Pair(n1, n0), Pair(d1, d0);
    if n >= d {
      DivModUnique(n, d, 1, n - d);
      DivModUnique(n - d, W64, 0, n - d);
    } else {
      DivModUnique(n, d, 0, n);
    }
  }

  /** 00 = nn / DD, or a quotient of one word found by trial and corrected at most once. */
  method DivByTwoWords(n1: Word32, n0: Word32, d1: Word32, d0: Word32) returns (q: Word32, r1: Word32, r0: Word32)
    requires d1 != 0
    ensures q == Pair(n1, n0) / Pair(d1, d0) && Pair(r1, r0) == Pair(n1, n0) % Pair(d1, d0)
  {
    hide Pow2, Minus, CountLeadingZeros;
    if d1 > n1 {
      QuotientBit(n1, n0, d1, d0);
      return 0, n1, n0;
    }
    var bm := CountLeadingZeros(d1);
    LeadingZeros(d1);
    if bm == 0 {
      Pow2Small();
      QuotientBit(n1, n0, d1, d0);
      if n1 > d1 || n0 >= d0 {
        q := 1;
        r1, r0 := SubPair(n1, n0, d1, d0);
      } else {
        q, r1, r0 := 0, n1, n0;
      }
    } else {
      q, r1, r0 := DivByTrial(n1, n0, d1, d0, bm);
    }
  }

  /** Both operands normalised by the divisor's leading zeros. */
  lemma NormalisedWords(n1: Word32, n0: Word32, d1: Word32, d0: Word32, bm: nat)
    requires 0 < bm <= 31 && W32 / 2 <= d1 * Pow2(bm) < W32
    ensures var e1, e0 := Or32(Shl32(d1, bm), Shr32(d0, 32 - bm)), Shl32(d0, bm);
            Pair(e1, e0) == Pair(d1, d0) * Pow2(bm) && e1 >= W32 / 2
    ensures var n2, h, l := Shr32(n1, 32 - bm), Or32(Shl32(n1, bm), Shr32(n0, 32 - bm)), Shl32(n0, bm);
            n2 * W64 + Pair(h, l) == Pair(n1, n0) * Pow2(bm) && n2 < Pow2(bm)
  {
    hide Pow2, BitOr, Shl32, Shr32;
    ShiftedWords(n1, n0, bm);
    ShiftedWords(d1, d0, bm);
    Pow2_64();
    Pow2Add(bm, 32 - bm);
    NormalisedDivisor(d1, d0, Pow2(bm), Pow2(32 - bm), Shr32(d1, 32 - bm), Or32(Shl32(d1, bm), Shr32(d0, 32 - bm)),
                      Shl32(d0, bm));
  }

  lemma NormalisedDivisor(d1: nat, d0: nat, s: nat, r: nat, t: nat, e1: nat, e0: nat)
    requires W32 / 2 <= d1 * s < W32 && d0 < W32 && e1 < W32 && e0 < W32 && s * r == W32
    requires t * W64 + e1 * W32 + e0 == (d1 * W32 + d0) * s
    ensures t == 0 && W32 / 2 <= e1
  {
    assert (d1 * W32 + d0) * s == (d1 * s) * W32 + d0 * s;
    if d1 >= r { MulMono(r, d1, s); }
    MulMono(d1 + 1, r, s);
    assert (d1 + 1) * s == d1 * s + s;
    ProductBelow(d0, W32, s);
    MulMono(0, d0, s);
  }

  /** What the single correction and the wrapping subtractions leave: m is the trial's product
      with the low divisor word, t the partial remainder, x and y the divisor and dividend. */
  lemma TrialResult(y: nat, x: Word, q: nat, t: Word, m: Word)
    requires y + m == q * x + t && t < x && m <= x
    ensures m <= t ==> y == q * x + Minus(t, m) && Minus(t, m) < x
    ensures m > t ==> q > 0 && y == (q - 1) * x + Minus(t, Minus(m, x)) && Minus(t, Minus(m, x)) < x
  {
    if m <= t {
      DivModUnique(t - m, W64, 0, t - m);
    } else {
      var c := if m == x then 0 else 1;
      DivModUnique(m - x, W64, -c, m - x + c * W64);
      DivModUnique(t - Minus(m, x), W64, -c, t - m + x);
      assert (q - 1) * x == q * x - x;
    }
  }

  /** Comparing double words is comparing their words in order. */
  lemma PairOrder(a1: Word32, a0: Word32, b1: Word32, b0: Word32)
    ensures (a1 > b1 || (a1 == b1 && a0 > b0)) <==> Pair(a1, a0) > Pair(b1, b0)
  {}

  /** The remainder of the scaled pair is in range, and the quotient right. */
  lemma TrialIsDivision(n: nat, d: nat, bm: nat, q: nat, r1: Word32, r0: Word32)
    requires d > 0 && n * Pow2(bm) == q * (d * Pow2(bm)) + Pair(r1, r0) && Pair(r1, r0) < d * Pow2(bm)
    requires 0 < bm < 32
    ensures q == n / d && Pair(Shr32(r1, bm), Or32(Shl32(r1, 32 - bm), Shr32(r0, bm))) == n % d
  {
    hide Pair, Shr32, Or32, Shl32, Pow2;
    ScaledDivision(n, d, Pow2(bm), q, Pair(r1, r0));
    UnshiftedWords(r1, r0, bm);
  }

  method DivByTrial(n1: Word32, n0: Word32, d1: Word32, d0: Word32, bm: nat) returns (q: Word32, r1: Word32, r0: Word32)
    requires 0 < bm <= 31 && W32 / 2 <= d1 * Pow2(bm) < W32
    ensures q == Pair(n1, n0) / Pair(d1, d0) && Pair(r1, r0) == Pair(n1, n0) % Pair(d1, d0)
  {
    hide Pow2, BitOr, Shl32, Shr32, Or32, Minus;
    var b := 32 - bm;
    var e1, e0 := Or32(Shl32(d1, bm), Shr32(d0, b)), Shl32(d0, bm);
    var n2 := Shr32(n1, b);
    var h, l := Or32(Shl32(n1, bm), Shr32(n0, b)), Shl32(n0, bm);
    NormalisedWords(n1, n0, d1, d0, bm);
    ShiftedLow(d0, bm);
    var t1, m1, m0;
    q, t1 := DivPair(n2, h, e1);
    m1, m0 := MulPair(q, e0);
    TrialQuotient(n2, h, l, e1, e0, q, t1, Pow2(bm));
    TrialResult(Pair(n1, n0) * Pow2(bm), Pair(e1, e0), q, Pair(t1, l), Pair(m1, m0));
    PairOrder(m1, m0, t1, l);
    if m1 > t1 || (m1 == t1 && m0 > l) {
      q := q - 1;
      m1, m0 := SubPair(m1, m0, e1, e0);
    }
    r1, r0 := SubPair(t1, l, m1, m0);
    TrialIsDivision(Pair(n1, n0), Pair(d1, d0), bm, q, r1, r0);
    r1, r0 := Shr32(r1, bm), Or32(Shl32(r1, b), Shr32(r0, bm));
  }

  // ----- the whole division

  /** __udivmoddi4 with a divide instruction that needs no normalisation. */
  method UdivModDi4(n: Word, d: Word) returns (q: Word, r: Word)
    requires d != 0
    ensures q == n / d && r == n % d
  {
    hide Pair;
    var n1, n0, d1, d0 := Halves(n, d);
    if d1 == 0 {
      PairZero(d0);
      var q1, q0, r0 := DivByWord(n1, n0, d0);
      q, r := Pair(q1, q0), Pair(0, r0);
      PairZero(r0);
    } else {
      var q0, r1, r0 := DivByTwoWords(n1, n0, d1, d0);
      q, r := Pair(0, q0), Pair(r1, r0);
      PairZero(q0);
    }
  }

  /** __udivmoddi4 under UDIV_NEEDS_NORMALIZATION. */
  method UdivModDi4Normalised(n: Word, d: Word) returns (q: Word, r: Word)
    requires d != 0
    ensures q == n / d && r == n % d
  {
    hide Pair;
    var n1, n0, d1, d0 := Halves(n, d);
    if d1 == 0 {
      PairZero(d0);
      var q1, q0, r0 := DivByWordNormalised(n1, n0, d0);
      q, r := Pair(q1, q0), Pair(0, r0);
      PairZero(r0);
    } else {
      var q0, r1, r0 := DivByTwoWords(n1, n0, d1, d0);
      q, r := Pair(0, q0), Pair(r1, r0);
      PairZero(q0);
    }
  }

  lemma PairZero(x: Word32)
    ensures Pair(0, x) == x
  {}

  method Halves(n: Word, d: Word) returns (n1: Word32, n0: Word32, d1: Word32, d0: Word32)
    ensures Pair(n1, n0) == n && Pair(d1, d0) == d
  {
    n1, n0 := n / W32, n % W32;
    d1, d0 := d / W32, d % W32;
  }

  // ----- signed division

  /** __divdi3 on two's complement words. Only the least integer over -1 has no quotient in range. */
  method DivDi3(u: Word, v: Word) returns (w: Word)
    requires v != 0
    ensures w == TruncQuot(Signed64(u), Signed64(v)) % W64
    ensures Signed64(w) == TruncQuot(Signed64(u), Signed64(v)) <==>
            !(Signed64(u) == -0x8000_0000_0000_0000 && Signed64(v) == -1)
  {
    hide Minus;
    var c, uu, vv := false, u, v;
    if u / W32 >= W32 / 2 {
      c := !c;
      uu := Minus(0, uu);
    }
    if v / W32 >= W32 / 2 {
      c := !c;
      vv := Minus(0, vv);
    }
    NegateWord(u);
    NegateWord(v);
    var r;
    w, r := UdivModDi4(uu, vv);
    QuotientInRange(Signed64(u), Signed64(v));
    var q := w;
    if c {
      w := Minus(0, w);
    }
    NegateIs(q);
    SignedOf(TruncQuot(Signed64(u), Signed64(v)));
  }

  /** __moddi3: the remainder takes the sign of the dividend, and is always in range. */
  method ModDi3(u: Word, v: Word) returns (w: Word)
    requires v != 0
    ensures Signed64(w) == TruncRem(Signed64(u), Signed64(v))
  {
    hide Minus;
    var c, uu, vv := false, u, v;
    if u / W32 >= W32 / 2 {
      c := !c;
      uu := Minus(0, uu);
    }
    if v / W32 >= W32 / 2 {
      vv := Minus(0, vv);
    }
    NegateWord(u);
    NegateWord(v);
    var q;
    q, w := UdivModDi4(uu, vv);
    var r := w;
    if c {
      w := Minus(0, w);
    }
    NegateIs(r);
    SignedOf(TruncRem(Signed64(u), Signed64(v)));
  }

  // ----- shifts by two words (__TINYC__)

  /** __ashrdi3: division rounding down. */
  method AshrDi3(a: Word, b: nat) returns (r: Word)
    requires b < 64
    ensures Signed64(r) == Signed64(a) / Pow2(b)
  {
    hide Pow2, BitOr, Sar32, Shl32, Shr32, Signed64;
    var high, low := a / W32, a % W32;
    if b >= 32 {
      low, high := Sar32(high, b - 32), Sar32(high, 31);
      SarHigh(a / W32, a % W32, b);
    } else if b != 0 {
      low := Or32(Shr32(low, b), Shl32(high, 32 - b));
      high := Sar32(high, b);
      SarPair(a / W32, a % W32, b);
    } else {
      Pow2Small();
    }
    r := Pair(high, low);
  }

  /** __lshrdi3 */
  method LshrDi3(a: Word, b: nat) returns (r: Word)
    requires b < 64
    ensures r == a / Pow2(b)
  {
    hide Pow2, BitOr, Shl32, Shr32;
    var high, low := a / W32, a % W32;
    if b >= 32 {
      ShrHigh(high, low, b);
      low, high := Shr32(high, b - 32), 0;
    } else if b != 0 {
      UnshiftedWords(high, low, b);
      OrWords32(Shr32(low, b), Shl32(high, 32 - b));
      low := Or32(Shr32(low, b), Shl32(high, 32 - b));
      high := Shr32(high, b);
    } else {
      Pow2Small();
    }
    r := Pair(high, low);
  }

  /** __ashldi3 */
  method AshlDi3(a: Word, b: nat) returns (r: Word)
    requires b < 64
    ensures r == a * Pow2(b) % W64
  {
    hide Pow2, BitOr, Shl32, Shr32;
    var high, low := a / W32, a % W32;
    if b >= 32 {
      ShlHigh(high, low, b);
      high, low := Shl32(low, b - 32), 0;
    } else if b != 0 {
      ShlWords(high, low, b);
      high, low := Or32(Shl32(high, b), Shr32(low, 32 - b)), Shl32(low, b);
    } else {
      Pow2Small();
      DivModUnique(a, W64, 0, a);
    }
    r := Pair(high, low);
  }
}
