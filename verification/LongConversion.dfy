/** Conversion of single and double precision numbers to 64-bit integers: by one shift of a
    double word (lib/libtcc1.c:529-583) and by words (lib/armeabi.c:70-199). */
module LongConversion {
  import opened Power2
  import opened Words
  import opened Words32
  import opened Rounding
  import opened QuadNarrow
  import opened QuadInteger

  // ----- what the conversions owe

  /** The number a bit pattern stands for; infinities and NaNs count as numbers beyond the format. */
  function NumberOf(F: Format, signBit: nat, a: nat): real
    requires signBit > 0
  {
    if a / signBit == 0 then Magnitude(F, a % signBit) else -Magnitude(F, a % signBit)
  }

  const SIGN32: nat := 0x8000_0000
  const SIGN64: nat := 0x8000_0000_0000_0000

  /** m * 2^x, rounded down. */
  function Scaled(m: nat, x: int): int {
    if x >= 0 then m * Pow2(x) else m / Pow2(-x)
  }

  /** Truncating a number is shifting its significand. */
  lemma TruncatedMagnitude(F: Format, c: nat)
    requires F.fracBits < -Unit(F)
    ensures var e, f := c / Pow2(F.fracBits), c % Pow2(F.fracBits);
            Truncated(Magnitude(F, c)) == Scaled(Pow2(F.fracBits) + f, Unit(F) + (e - 1))
  {
    hide Pow2, Units;
    var e, f := c / Pow2(F.fracBits), c % Pow2(F.fracBits);
    var m, x := Pow2(F.fracBits) + f, Unit(F) + (e - 1);
    if e == 0 {
      FloorUnits(f, Unit(F));
      Pow2Mono(F.fracBits + 1, -Unit(F));
      Pow2Mono(F.fracBits + 1, -x);
      assert Pow2(F.fracBits + 1) == 2 * Pow2(F.fracBits) by { Pow2Add(F.fracBits, 1); Pow2Small(); }
      DivModUnique(f, Pow2(-Unit(F)), 0, f);
      DivModUnique(m, Pow2(-x), 0, m);
    } else if x >= 0 {
      UnitsShift(m, 0, x);
      UnitsOne(m * Pow2(x));
    } else {
      FloorUnits(m, x);
    }
  }

  lemma ScaledNone(b: nat, f: nat, exp: int)
    requires f < Pow2(b) && exp < 0
    ensures Scaled(Pow2(b) + f, exp - b) == 0
  {
    hide Pow2;
    Pow2Small();
    Pow2Mono(b + 1, b - exp);
    Pow2Add(b, 1);
    DivModUnique(Pow2(b) + f, Pow2(b - exp), 0, Pow2(b) + f);
  }

  lemma ScaledDown(b: nat, f: nat, exp: nat)
    requires f < Pow2(b) && exp <= b
    ensures Scaled(Pow2(b) + f, exp - b) == Pow2(exp) + f / Pow2(b - exp) && 0 <= f / Pow2(b - exp) < Pow2(exp)
  {
    hide Pow2;
    Pow2Add(b - exp, exp);
    var p, q := Pow2(b - exp), Pow2(exp);
    DivLess(f, p, q);
    DivBound(f, p);
    ShiftedDivision(p * q + f, q, p);
    if exp == b { Pow2Small(); }
  }

  lemma ScaledUp(b: nat, f: nat, exp: nat)
    requires f < Pow2(b) && b <= exp
    ensures Scaled(Pow2(b) + f, exp - b) == Pow2(exp) + f * Pow2(exp - b) && f * Pow2(exp - b) < Pow2(exp)
  {
    hide Pow2;
    Pow2Add(b, exp - b);
    var p := Pow2(exp - b);
    ProductBelow(f, Pow2(b), p);
    assert (Pow2(b) + f) * p == Pow2(b) * p + f * p;
  }

  /** The leading one and the fraction, each shifted. */
  lemma ScaledParts(b: nat, f: nat, exp: int)
    requires f < Pow2(b)
    ensures exp < 0 ==> Scaled(Pow2(b) + f, exp - b) == 0
    ensures 0 <= exp <= b ==>
              Scaled(Pow2(b) + f, exp - b) == Pow2(exp) + f / Pow2(b - exp) && 0 <= f / Pow2(b - exp) < Pow2(exp)
    ensures 0 <= exp && b <= exp ==>
              Scaled(Pow2(b) + f, exp - b) == Pow2(exp) + f * Pow2(exp - b) && f * Pow2(exp - b) < Pow2(exp)
  {
    hide Pow2, Scaled;
    if exp < 0 { ScaledNone(b, f, exp); }
    if 0 <= exp <= b { ScaledDown(b, f, exp); }
    if 0 <= exp && b <= exp { ScaledUp(b, f, exp); }
  }

  lemma ScaledRange(b: nat, f: nat, exp: int, k: nat)
    requires f < Pow2(b)
    ensures Scaled(Pow2(b) + f, exp - b) >= 0
    ensures Scaled(Pow2(b) + f, exp - b) < Pow2(k) <==> exp < k
  {
    hide Pow2, Scaled;
    var v := Scaled(Pow2(b) + f, exp - b);
    ScaledParts(b, f, exp);
    if exp >= 0 {
      if exp <= b { ScaledDown(b, f, exp); }
      if exp > b { ScaledUp(b, f, exp); MulMono(0, f, Pow2(exp - b)); }
      assert Pow2(exp) <= v < 2 * Pow2(exp);
      Pow2Small();
      Pow2Add(exp, 1);
      if exp < k { Pow2Mono(exp + 1, k); } else { Pow2Mono(k, exp); }
    }
  }

  // ----- the fields of a number

  lemma Constants()
    ensures Pow2(8) == 0x100 && Pow2(11) == 0x800 && Pow2(20) == 0x10_0000 && Pow2(23) == 0x80_0000 &&
            Pow2(31) == SIGN32
    ensures Pow2(52) == 0x10_0000_0000_0000 && Pow2(63) == SIGN64
  {
    Pow2_64();
    assert Pow2(8) == 0x100;
    Pow2Add(8, 3);
    assert Pow2(3) == 8;
    Pow2Add(8, 12);
    Pow2Add(12, 8);
    assert Pow2(12) == 0x1000;
    Pow2Add(20, 3);
    Pow2Add(23, 8);
    Pow2Add(20, 32);
    assert Pow2(64) == 2 * Pow2(63);
  }

  /** Sign, exponent and fraction of a single precision number. */
  lemma FieldsOfSingle(a: Word32)
    ensures var c := a % SIGN32;
            && Shr32(a, 31) == a / SIGN32 && a / SIGN32 <= 1
            && And32(Shr32(a, 23), 0xff) == c / Pow2(23) && And32(a, 0x7f_ffff) == c % Pow2(23)
            && c / Pow2(23) <= 0xff && c % Pow2(23) < Pow2(23)
  {
    hide Pow2, BitAnd;
    Constants();
    AndMask(Shr32(a, 23), 8);
    AndMask(a, 23);
    SplitSingle(a);
  }

  lemma SplitSingle(a: nat)
    requires a < W32
    ensures a % SIGN32 / 0x80_0000 == a / 0x80_0000 % 0x100 && a % SIGN32 % 0x80_0000 == a % 0x80_0000
  {}

  /** Sign, exponent and fraction of a double precision number. */
  lemma FieldsOfDouble(a: Word)
    ensures var c := a % SIGN64;
            && Shr32(a / W32, 31) == a / SIGN64 && a / SIGN64 <= 1
            && And32(Shr32(a / W32, 20), 0x7ff) == c / Pow2(52) && And32(Sar32(a / W32, 20), 0x7ff) == c / Pow2(52)
            && BitAnd(a, 0xf_ffff_ffff_ffff) == c % Pow2(52)
            && And32(a / W32, 0xf_ffff) * W32 + a % W32 == c % Pow2(52)
            && c / Pow2(52) <= 0x7ff && c % Pow2(52) < Pow2(52)
  {
    hide Pow2, BitAnd, Sar32;
    Constants();
    var h := a / W32;
    Sar32IsShr(h, 20);
    AndMask(Shr32(h, 20), 11);
    AndMask(Sar32(h, 20), 11);
    AndMask(a, 52);
    AndMask(h, 20);
    SplitDouble(a);
    SameField(Shr32(h, 20));
  }

  lemma SameField(x: nat)
    ensures (x + W32 - 0x1000) % 0x800 == x % 0x800
  {}

  lemma SplitDouble(a: nat)
    requires a < W64
    ensures var c, h := a % SIGN64, a / W32;
            && c / 0x10_0000_0000_0000 == h / 0x10_0000 % 0x800 && c % 0x10_0000_0000_0000 == a % 0x10_0000_0000_0000
            && h % 0x10_0000 * W32 + a % W32 == a % 0x10_0000_0000_0000
            && h / SIGN32 == a / SIGN64 && a / SIGN64 <= 1
  {
    var h, l := a / W32, a % W32;
    var s, m := h / SIGN32, h % SIGN32;
    var e, f := m / 0x10_0000, m % 0x10_0000;
    DivModUnique(a, SIGN64, s, m * W32 + l);
    DivModUnique(m * W32 + l, 0x10_0000_0000_0000, e, f * W32 + l);
    DivModUnique(a, 0x10_0000_0000_0000, s * 0x800 + e, f * W32 + l);
    DivModUnique(h, 0x10_0000, s * 0x800 + e, f);
    DivModUnique(s * 0x800 + e, 0x800, s, e);
  }

  lemma TruncatedNumber(F: Format, signBit: nat, a: nat)
    requires signBit > 0
    ensures Truncated(NumberOf(F, signBit, a)) ==
            if a / signBit == 0 then Truncated(Magnitude(F, a % signBit)) else -Truncated(Magnitude(F, a % signBit))
  {
    hide Magnitude;
  }

  // ----- by one shift

  /** A shift of a word that keeps all bits above the point. */
  lemma ShiftIsScaled(l: Word, x: int)
    ensures x >= 0 && Scaled(l, x) < W64 ==> Shl(l, x) == Scaled(l, x)
    ensures x <= 0 ==> Shr(l, -x) == Scaled(l, x)
    ensures x <= 0 && l < W32 ==> Shr32(l, -x) == Scaled(l, x)
  {
    if x >= 0 && Scaled(l, x) < W64 {
      MulMono(0, l, Pow2(x));
      DivModUnique(l * Pow2(x), W64, 0, l * Pow2(x));
    }
    if x == 0 { Pow2Small(); }
  }

  /** __fixunssfdi: the magnitude, truncated and saturated. */
  method FixUnsSfDi(a: Word32) returns (r: Word)
    ensures r == Clamp(Truncated(Magnitude(Single, a % SIGN32)), 0, W64 - 1)
  {
    hide Pow2, And32, BitAnd, BitOr, Magnitude, Scaled, Truncated, Shr32, Shl;
    FieldsOfSingle(a);
    TruncatedMagnitude(Single, a % SIGN32);
    ghost var f, x := a % SIGN32 % Pow2(23), a % SIGN32 / Pow2(23) - 150;
    ScaledRange(23, f, x + 23, 64);
    ScaledParts(23, f, x + 23);
    Constants();
    Pow2_64();
    if a == 0 {
      return 0;
    }
    var exp := And32(Shr32(a, 23), 0xff) - 126 - 24;
    OrDisjoint(1, f, 23);
    OrCommutes(0x80_0000, f);
    var l := BitOr(And32(a, 0x7f_ffff), 0x80_0000);
    assert l == Pow2(23) + f && exp == x;
    ShiftIsScaled(l, x);
    if exp >= 41 {
      r := W64 - 1;
    } else if exp >= 0 {
      r := Shl(l, exp);
    } else if exp >= -23 {
      r := Shr32(l, -exp);
    } else {
      r := 0;
    }
  }

  /** __fixunsdfdi */
  method FixUnsDfDi(a: Word) returns (r: Word)
    ensures r == Clamp(Truncated(Magnitude(Double, a % SIGN64)), 0, W64 - 1)
  {
    hide Pow2, And32, BitAnd, BitOr, Magnitude, Scaled, Truncated, Shr32, Sar32, Shl, Shr;
    FieldsOfDouble(a);
    TruncatedMagnitude(Double, a % SIGN64);
    ghost var f, x := a % SIGN64 % Pow2(52), a % SIGN64 / Pow2(52) - 1075;
    ScaledRange(52, f, x + 52, 64);
    ScaledParts(52, f, x + 52);
    Constants();
    Pow2_64();
    if a == 0 {
      return 0;
    }
    var exp := And32(Sar32(a / W32, 20), 0x7ff) - 1022 - 53;
    OrDisjoint(1, f, 52);
    var l := BitOr(BitAnd(a, 0xf_ffff_ffff_ffff), 0x10_0000_0000_0000);
    assert l == Pow2(52) + f && exp == x;
    ShiftIsScaled(l, x);
    if exp >= 12 {
      r := W64 - 1;
    } else if exp >= 0 {
      r := Shl(l, exp);
    } else if exp >= -52 {
      r := Shr(l, -exp);
    } else {
      r := 0;
    }
  }

  /** Giving a saturated magnitude its sign. */
  lemma SignedResult(t: int, negative: bool, r: Word)
    requires 0 <= t && r == Clamp(t, 0, W64 - 1)
    ensures var v := if negative then -t else t;
            Signed64(if negative then Minus(0, r) else r) == v <==> -W64 / 2 <= v < W64 / 2
  {
    if r > 0 {
      var y: int := r;
      DivModUnique(-y, W64, -1, W64 - y);
    }
  }

  lemma TruncatedZero(F: Format)
    requires F.fracBits < -Unit(F)
    ensures Truncated(Magnitude(F, 0)) == 0
  {
    hide Magnitude, Truncated;
    TruncatedMagnitude(F, 0);
    DivModUnique(0, Pow2(F.fracBits), 0, 0);
    ScaledNone(F.fracBits, 0, Unit(F) - 1 + F.fracBits);
  }

  lemma TruncatedPositive(F: Format, c: nat)
    requires F.fracBits < -Unit(F)
    ensures Truncated(Magnitude(F, c)) >= 0
  {
    hide Pow2, Magnitude, Truncated, Scaled;
    TruncatedMagnitude(F, c);
    var e, f := c / Pow2(F.fracBits), c % Pow2(F.fracBits);
    ScaledRange(F.fracBits, f, Unit(F) + (e - 1) + F.fracBits, 0);
  }

  lemma NegatedTop(q: Word, t: int)
    requires q == Clamp(t, 0, W64 - 1) && t >= W64
    ensures Minus(0, q) == 1
  {}

  lemma ClampedSign(t: int, q: Word)
    requires t >= 0 && q == Clamp(t, 0, W64 - 1)
    ensures q == Clamp(t, 1 - W64, W64 - 1) % W64 && Minus(0, q) == Clamp(-t, 1 - W64, W64 - 1) % W64
  {
    DivModUnique(q, W64, 0, q);
  }

  lemma SignedNumber(F: Format, signBit: nat, a: nat, s: bool, q: Word)
    requires signBit > 0 && a / signBit <= 1 && F.fracBits < -Unit(F)
    requires q == Clamp(Truncated(Magnitude(F, a % signBit)), 0, W64 - 1)
    requires s <==> a / signBit == 0 || a % signBit == 0
    ensures var v := Truncated(NumberOf(F, signBit, a));
            var r := if s then q else Minus(0, q);
            r == Clamp(v, 1 - W64, W64 - 1) % W64 && (Signed64(r) == v <==> -W64 / 2 <= v < W64 / 2)
  {
    hide Magnitude, NumberOf, Truncated, Signed64, Minus, Clamp, Unit;
    TruncatedNumber(F, signBit, a);
    TruncatedZero(F);
    TruncatedPositive(F, a % signBit);
    ClampedSign(Truncated(Magnitude(F, a % signBit)), q);
    SignedResult(Truncated(Magnitude(F, a % signBit)), !s, q);
  }

  lemma FlippedSign(a: nat, signBit: nat)
    requires signBit > 0 && a < 2 * signBit
    ensures (a + signBit) % (2 * signBit) % signBit == a % signBit && a / signBit <= 1
    ensures a / signBit == 0 || a % signBit == 0 <==> a < signBit || a == signBit
  {
    if a < signBit {
      DivModUnique(a, signBit, 0, a);
      DivModUnique(a + signBit, 2 * signBit, 0, a + signBit);
      DivModUnique(a + signBit, signBit, 1, a);
    } else {
      DivModUnique(a, signBit, 1, a - signBit);
      DivModUnique(a + signBit, 2 * signBit, 1, a - signBit);
      DivModUnique(a - signBit, signBit, 0, a - signBit);
    }
  }

  /** Infinities and NaNs count as too large. */
  lemma TruncatedHuge(F: Format, c: nat)
    requires F == Single || F == Double
    requires c >= Infinity(F)
    ensures Truncated(Magnitude(F, c)) >= W64
  {
    hide Pow2, Magnitude, Truncated, Scaled;
    FormatConstants();
    Pow2_64();
    TruncatedMagnitude(F, c);
    DivAtLeast(c, Pow2(F.fracBits), F.maxExp);
    var e, f := c / Pow2(F.fracBits), c % Pow2(F.fracBits);
    ScaledRange(F.fracBits, f, Unit(F) + (e - 1) + F.fracBits, 64);
  }

  /** __fixsfdi: the truncated number exactly where that is in range; 1 for a NaN. */
  method FixSfDi(a: Word32) returns (r: Word)
    ensures a % SIGN32 > Infinity(Single) ==> r == 1
    ensures a % SIGN32 <= Infinity(Single) ==>
            var v := Truncated(NumberOf(Single, SIGN32, a));
            r == Clamp(v, 1 - W64, W64 - 1) % W64 && (Signed64(r) == v <==> -W64 / 2 <= v < W64 / 2)
  {
    hide Magnitude, NumberOf, Truncated, Signed64, Minus, Clamp;
    FormatConstants();
    FlippedSign(a, SIGN32);
    var s := a % SIGN32 <= 0x7f80_0000 && (a < SIGN32 || a == SIGN32);
    var q := FixUnsSfDi(if s then a else (a + SIGN32) % W32);
    r := if s then q else Minus(0, q);
    if a % SIGN32 <= 0x7f80_0000 {
      SignedNumber(Single, SIGN32, a, s, q);
    } else {
      TruncatedHuge(Single, a % SIGN32);
      NegatedTop(q, Truncated(Magnitude(Single, a % SIGN32)));
    }
  }

  /** __fixdfdi */
  method FixDfDi(a: Word) returns (r: Word)
    ensures a % SIGN64 > Infinity(Double) ==> r == 1
    ensures a % SIGN64 <= Infinity(Double) ==>
            var v := Truncated(NumberOf(Double, SIGN64, a));
            r == Clamp(v, 1 - W64, W64 - 1) % W64 && (Signed64(r) == v <==> -W64 / 2 <= v < W64 / 2)
  {
    hide Magnitude, NumberOf, Truncated, Signed64, Minus, Clamp;
    FormatConstants();
    FlippedSign(a, SIGN64);
    var s := a % SIGN64 <= 0x7ff0_0000_0000_0000 && (a < SIGN64 || a == SIGN64);
    var q := FixUnsDfDi(if s then a else (a + SIGN64) % W64);
    r := if s then q else Minus(0, q);
    if a % SIGN64 <= 0x7ff0_0000_0000_0000 {
      SignedNumber(Double, SIGN64, a, s, q);
    } else {
      TruncatedHuge(Double, a % SIGN64);
      NegatedTop(q, Truncated(Magnitude(Double, a % SIGN64)));
    }
  }

  // ----- by words

  /** A shift by a register, as the ARM does it: by the register's low byte, so that a shift of 32
      or more, or by a negative number above -224, leaves nothing. */
  function Lsl(x: Word32, n: int): Word32 { Shl32(x, n % 256) }

  function Lsr(x: Word32, n: int): Word32 { Shr32(x, n % 256) }

  lemma ShiftedOut(x: Word32, n: int)
    ensures 32 <= n % 256 ==> Lsl(x, n) == 0 && Lsr(x, n) == 0
    ensures 0 <= n < 256 ==> Lsl(x, n) == Shl32(x, n) && Lsr(x, n) == Shr32(x, n)
  {
    hide Pow2;
    var k := n % 256;
    if 32 <= k {
      Pow2Split(k);
      assert x * (W32 * Pow2(k - 32)) == (x * Pow2(k - 32)) * W32;
      MulPos(1, Pow2(k - 32));
      DivModUnique(x * Pow2(k), W32, x * Pow2(k - 32), 0);
      DivModUnique(x, Pow2(k), 0, x);
    } else if 0 <= n < 256 {
      assert k == n;
    }
  }

  lemma MergeOne(k: nat, y: Word32)
    requires k < 32 && y < Pow2(k)
    ensures Or32(Lsl(1, k), y) == Pow2(k) + y
  {
    hide Pow2, BitOr;
    Pow2_64();
    ShiftedOut(1, k);
    Pow2StrictMono(k, 32);
    DivModUnique(Pow2(k), W32, 0, Pow2(k));
    OrDisjoint(1, y, k);
  }

  /** The significand of a single precision number of exponent exp, shifted into two words. */
  method SingleWords(f: Word32, exp: int) returns (high: Word32, low: Word32)
    requires f < Pow2(23) && -127 <= exp <= 63
    ensures Pair(high, low) == Scaled(Pow2(23) + f, exp - 23)
  {
    hide Pow2, BitOr, Scaled, Or32, Shl32, Shr32, Lsl, Lsr, Pair;
    ScaledParts(23, f, exp);
    if exp >= 32 {
      high := Lsl(1, exp - 32);
      Pow2Split(exp);
      if exp - 32 >= 23 {
        high := Or32(high, Lsl(f, exp - 55));
        low := 0;
        WholeHigh(f, exp);
      } else {
        var highShift := 23 - (exp - 32);
        high := Or32(high, Lsr(f, highShift));
        low := Lsl(f, 32 - highShift);
        SplitHigh(f, exp);
      }
    } else {
      high := 0;
      low := Lsl(1, exp);
      if exp > 23 {
        low := Or32(low, Lsl(f, exp - 23));
        LowUp(f, exp);
      } else {
        low := Or32(low, Lsr(f, 23 - exp));
        LowDown(f, exp);
      }
    }
  }

  lemma WholeHigh(f: Word32, exp: int)
    requires f < Pow2(23) && 55 <= exp <= 63
    ensures Pair(Or32(Lsl(1, exp - 32), Lsl(f, exp - 55)), 0) == Pow2(exp) + f * Pow2(exp - 23)
  {
    hide Pow2, BitOr, Or32, Shl32, Lsl;
    Pow2_64();
    Pow2Split(exp);
    Pow2Add(exp - 55, 32);
    Pow2Add(23, exp - 55);
    ProductBelow(f, Pow2(23), Pow2(exp - 55));
    Pow2Mono(exp - 32, 31);
    Pow2Mono(31, 32);
    Pow2Mono(23, 32 - (exp - 55));
    Shl32Fits(f, exp - 55);
    ShiftedOut(f, exp - 55);
    MergeOne(exp - 32, Lsl(f, exp - 55));
    assert f * (Pow2(exp - 55) * W32) == (f * Pow2(exp - 55)) * W32;
  }

  lemma SplitHigh(f: Word32, exp: int)
    requires f < Pow2(23) && 32 <= exp < 55
    ensures Pair(Or32(Lsl(1, exp - 32), Lsr(f, 55 - exp)), Lsl(f, exp - 23)) == Pow2(exp) + f * Pow2(exp - 23)
  {
    hide Pow2, BitOr, Or32, Shl32, Shr32, Lsl, Lsr;
    var hs := 55 - exp;
    Pow2_64();
    Pow2Split(exp);
    Pow2Add(hs, 32 - hs);
    Pow2Add(hs, exp - 32);
    DivLess(f, Pow2(hs), Pow2(exp - 32));
    Shl32Low(f, hs);
    ShiftedOut(f, hs);
    ShiftedOut(f, 32 - hs);
    assert Shr32(f, hs) == f / Pow2(hs) by { ShrIs(f, hs); }
    MergeOne(exp - 32, Lsr(f, hs));
    SplitProduct(f, Pow2(hs), Pow2(32 - hs));
  }

  lemma ShrIs(x: Word32, n: nat)
    ensures Shr32(x, n) == x / Pow2(n)
  {}

  lemma SplitProduct(f: nat, p: nat, r: nat)
    requires p > 0 && p * r == W32
    ensures f * r == f / p * W32 + f % p * r
  {
    Recompose(f, p);
    assert (f / p * p + f % p) * r == f / p * (p * r) + f % p * r;
  }

  lemma LowUp(f: Word32, exp: int)
    requires f < Pow2(23) && 23 < exp < 32
    ensures Pair(0, Or32(Lsl(1, exp), Lsl(f, exp - 23))) == Pow2(exp) + f * Pow2(exp - 23)
  {
    hide Pow2, BitOr, Or32, Shl32, Lsl;
    Pow2Add(23, exp - 23);
    ProductBelow(f, Pow2(23), Pow2(exp - 23));
    Pow2Mono(23, 32 - (exp - 23));
    Shl32Fits(f, exp - 23);
    ShiftedOut(f, exp - 23);
    MergeOne(exp, Lsl(f, exp - 23));
  }

  lemma LowDown(f: Word32, exp: int)
    requires f < Pow2(23) && -127 <= exp <= 23
    ensures exp >= 0 ==> Pair(0, Or32(Lsl(1, exp), Lsr(f, 23 - exp))) == Pow2(exp) + f / Pow2(23 - exp)
    ensures exp < 0 ==> Pair(0, Or32(Lsl(1, exp), Lsr(f, 23 - exp))) == 0
  {
    hide Pow2, BitOr, Or32, Shl32, Shr32, Lsl, Lsr;
    ShiftedOut(f, 23 - exp);
    if exp >= 0 {
      Pow2Add(23 - exp, exp);
      DivLess(f, Pow2(23 - exp), Pow2(exp));
      ShrIs(f, 23 - exp);
      MergeOne(exp, Lsr(f, 23 - exp));
    } else {
      ShiftedOut(1, exp);
      Words32Zero();
      ShrIs(f, 23 - exp);
      Pow2Mono(23, 23 - exp);
      DivModUnique(f, Pow2(23 - exp), 0, f);
    }
  }

  lemma Words32Zero()
    ensures Or32(0, 0) == 0
  {}

  function Not32(x: Word32): Word32 { W32 - 1 - x }

  /** The two's complement, word by word. */
  method NegateWords(high: Word32, low: Word32) returns (h: Word32, l: Word32)
    ensures Pair(h, l) == Minus(0, Pair(high, low))
  {
    l := Not32(low);
    h := Not32(high);
    if l == 0xffff_ffff {
      l := 0;
      h := Plus32(h, 1);
    } else {
      l := l + 1;
    }
    NegatedPair(high, low);
  }

  lemma NegateHigh(high: Word32)
    ensures Pair(Plus32(Not32(high), 1), 0) == Minus(0, Pair(high, 0))
  {
    var y: int := Pair(high, 0);
    if high > 0 {
      DivModUnique(-y, W64, -1, W64 - y);
      DivModUnique(W32 - high, W32, 0, W32 - high);
    }
  }

  lemma NegatedPair(high: Word32, low: Word32)
    ensures Pair(if low == 0 then Plus32(Not32(high), 1) else Not32(high), if low == 0 then 0 else Not32(low) + 1)
            == Minus(0, Pair(high, low))
  {
    var y: int := Pair(high, low);
    if low == 0 {
      NegateHigh(high);
    } else {
      DivModUnique(-y, W64, -1, W64 - y);
    }
  }

  /** The integers a conversion accepts: the signed one turns away the least integer. */
  predicate Accepts(withSign: bool, v: int) {
    if withSign then -W64 / 2 < v < W64 / 2 else 0 <= v < W64
  }

  /** Those are the integers that some word stands for. */
  lemma AcceptsRepresentable(withSign: bool, v: int)
    ensures Accepts(withSign, v) || (withSign && v == -0x8000_0000_0000_0000) <==>
              exists r: Word :: StandsFor(withSign, r, v)
  {
    if exists r: Word :: StandsFor(withSign, r, v) {
      var r: Word :| StandsFor(withSign, r, v);
    } else {
      var r := v % W64;
      if withSign && -0x8000_0000_0000_0000 <= v < 0 { DivModUnique(v, W64, -1, v + W64); }
      if 0 <= v < W64 { DivModUnique(v, W64, 0, v); }
      assert !StandsFor(withSign, r, v);
    }
  }

  /** The word stands for the integer. */
  predicate StandsFor(withSign: bool, r: Word, v: int) {
    v == if withSign then Signed64(r) else r
  }

  lemma AcceptedRange(t: int, exp: int, negative: bool)
    requires forall k: nat {:trigger Pow2(k)} :: t < Pow2(k) <==> exp < k
    requires t >= 0
    ensures Accepts(true, if negative then -t else t) <==> exp <= 62
    ensures Accepts(false, if negative then -t else t) <==> !(negative && exp >= 0) && exp <= 63
  {
    hide Pow2;
    Constants();
    Pow2_64();
    Pow2Small();
    assert t < Pow2(0) <==> exp < 0;
    assert t < Pow2(63) <==> exp < 63;
    assert t < Pow2(64) <==> exp < 64;
  }

  /** What the fields say of the number: c is its code, b the width of its fraction. */
  lemma Meaning(F: Format, signBit: nat, a: nat)
    requires signBit > 0 && a / signBit <= 1 && F.fracBits < -Unit(F) && Unit(F) - 1 + F.fracBits == -(F.maxExp / 2)
    ensures var e, f := a % signBit / Pow2(F.fracBits), a % signBit % Pow2(F.fracBits);
            var sign, exp := a / signBit, e - F.maxExp / 2;
            var t := Scaled(Pow2(F.fracBits) + f, exp - F.fracBits);
            var v := Truncated(NumberOf(F, signBit, a));
            && 0 <= t && v == (if sign == 0 then t else -t)
            && (t < W64 / 2 <==> exp < 63) && (t < 1 <==> exp < 0)
            && (Accepts(true, v) <==> exp <= 62) && (Accepts(false, v) <==> !(sign != 0 && exp >= 0) && exp <= 63)
  {
    hide Pow2, Magnitude, NumberOf, Truncated, Scaled, Accepts;
    var c, b := a % signBit, F.fracBits;
    var exp := c / Pow2(b) - F.maxExp / 2;
    TruncatedMagnitude(F, c);
    TruncatedNumber(F, signBit, a);
    var t := Truncated(Magnitude(F, c));
    forall k: nat ensures t < Pow2(k) <==> exp < k { ScaledRange(b, c % Pow2(b), exp, k); }
    ScaledRange(b, c % Pow2(b), exp, 0);
    AcceptedRange(t, exp, a / signBit != 0);
    Constants();
    Pow2Small();
    assert t < Pow2(63) <==> exp < 63;
    assert t < Pow2(0) <==> exp < 0;
  }

  /** With its sign put on, a word stands for the number exactly if it was the magnitude. */
  lemma MagnitudeStandsFor(withSign: bool, t: int, r: Word, exp: int, sign: nat)
    requires 0 <= t && (t < W64 / 2 <==> exp < 63) && (t < 1 <==> exp < 0)
    requires if withSign then exp <= 62 else !(sign != 0 && exp >= 0)
    ensures var w := if withSign && sign != 0 then Minus(0, r) else r;
            StandsFor(withSign, w, if sign == 0 then t else -t) <==> r == t
  {
    var y: int := r;
    if y > 0 { DivModUnique(-y, W64, -1, W64 - y); }
  }

  /** __aeabi_f2ulz and __aeabi_f2lz: the truncated number, whenever the conversion accepts it. */
  method F2xlz(val: Word32, withSign: bool) returns (done: bool, high: Word32, low: Word32)
    ensures done <==> Accepts(withSign, Truncated(NumberOf(Single, SIGN32, val)))
    ensures done ==> StandsFor(withSign, Pair(high, low), Truncated(NumberOf(Single, SIGN32, val)))
  {
    hide Pow2, And32, BitAnd, Magnitude, NumberOf, Truncated, Scaled, Accepts, Pair, Minus, Shr32, StandsFor;
    FieldsOfSingle(val);
    Meaning(Single, SIGN32, val);
    var sign := Shr32(val, 31);
    var exp := And32(Shr32(val, 23), 0xff) - 127;
    if withSign {
      if exp > 62 {
        return false, 0, 0;
      }
    } else if (sign != 0 && exp >= 0) || exp > 63 {
      return false, 0, 0;
    }
    done := true;
    high, low := SingleWords(And32(val, 0x7f_ffff), exp);
    MagnitudeStandsFor(withSign, Pair(high, low), Pair(high, low), exp, sign);
    if withSign && sign != 0 {
      high, low := NegateWords(high, low);
    }
  }

  /** The least integer is a single, but the signed conversion turns it away. */
  lemma LeastRefused()
    ensures Truncated(NumberOf(Single, SIGN32, 0xdf00_0000)) == -0x8000_0000_0000_0000
    ensures !Accepts(true, -0x8000_0000_0000_0000) && Signed64(SIGN64) == -0x8000_0000_0000_0000
  {
    hide Pow2, Magnitude, NumberOf, Truncated;
    Constants();
    FormatConstants();
    Pow2Add(23, 40);
    Meaning(Single, SIGN32, 0xdf00_0000);
    assert 0xdf00_0000 % SIGN32 / Pow2(23) == 190 && 0xdf00_0000 % SIGN32 % Pow2(23) == 0;
  }

  // ----- double precision, by words

  /** Where the word-by-word shift of a double is the shift it means to be. From 2^21 to 2^32 the
      shift amounts are 64 too small and the fraction is lost; below one the leading bit survives
      if the low byte of the exponent is below 32. */
  predicate ShiftsWell(exp: int, f: nat) {
    if exp < 0 then exp % 256 >= 32
    else 20 < exp < 32 ==> f / Pow2(52 - exp) == 0
  }

  /** The magnitude that comes out, of the number with fraction words h and l. */
  function DoubleResult(exp: int, h: Word32, l: Word32): int {
    if exp < 0 then Or32(Lsl(1, exp), Lsr(h, 20 - exp))
    else if 20 < exp < 32 then Pow2(exp)
    else Scaled(Pow2(52) + Pair(h, l), exp - 52)
  }

  lemma ResultIffShiftsWell(exp: int, h: Word32, l: Word32)
    requires h < Pow2(20) && -1023 <= exp <= 63
    ensures DoubleResult(exp, h, l) == Scaled(Pow2(52) + Pair(h, l), exp - 52) <==> ShiftsWell(exp, Pair(h, l))
  {
    hide Pow2, Scaled, Or32, Lsl, Lsr, Pair;
    FractionBelow(h, l);
    ScaledParts(52, Pair(h, l), exp);
    if exp < 0 { ShiftedBelowOne(h, exp, Pair(h, l)); }
  }

  method DoubleWords(h: Word32, l: Word32, exp: int) returns (high: Word32, low: Word32)
    requires h < Pow2(20) && -1023 <= exp <= 63
    ensures Pair(high, low) == DoubleResult(exp, h, l)
  {
    hide Pow2, BitOr, Scaled, Or32, Shl32, Shr32, Lsl, Lsr, ShiftsWell, Pair;
    FractionBelow(h, l);
    ScaledParts(52, Pair(h, l), exp);
    if exp >= 32 {
      high := Lsl(1, exp - 32);
      if exp >= 52 {
        var highShift := exp - 52;
        high := Or32(high, Lsl(h, highShift));
        high := Or32(high, Lsr(l, 32 - highShift));
        low := Lsl(l, highShift);
        ShiftedUp(h, l, exp);
      } else {
        var highShift := 52 - exp;
        high := Or32(high, Lsr(h, highShift));
        low := Lsl(h, 32 - highShift);
        low := Or32(low, Lsr(l, highShift));
        ShiftedDown(h, l, exp);
      }
    } else {
      high := 0;
      low := Lsl(1, exp);
      if exp > 20 {
        var highShift := exp - 52 - 32;
        low := Or32(low, Lsl(h, highShift));
        low := Or32(low, Lsr(l, 32 - highShift));
        FractionLost(h, l, exp);
      } else {
        low := Or32(low, Lsr(h, 20 - exp));
        if exp >= 0 { ShiftedToUnits(h, l, exp); } else { PairOfLow(low); }
      }
    }
  }

  lemma PairOfLow(x: Word32)
    ensures Pair(0, x) == x
  {}

  lemma FractionBelow(h: Word32, l: Word32)
    requires h < Pow2(20)
    ensures Pair(h, l) < Pow2(52)
  {
    hide Pow2;
    Constants();
  }

  /** The high word: the leading one, the high fraction and what the low one pushes up. */
  lemma MergeThree(h: Word32, hs: nat, y: Word32)
    requires h < Pow2(20) && hs <= 11 && y < Pow2(hs)
    ensures Or32(Or32(Lsl(1, 20 + hs), Lsl(h, hs)), y) == (Pow2(20) + h) * Pow2(hs) + y
  {
    hide Pow2, BitOr, Or32, Shl32, Lsl;
    Pow2Add(20, hs);
    ProductBelow(h, Pow2(20), Pow2(hs));
    Pow2Mono(20, 32 - hs);
    Shl32Fits(h, hs);
    ShiftedOut(h, hs);
    MergeOne(20 + hs, Lsl(h, hs));
    assert Or32(Lsl(1, 20 + hs), Lsl(h, hs)) == (Pow2(20) + h) * Pow2(hs);
    OrShifted(Pow2(20) + h, y, hs);
  }

  lemma ShiftedUp(h: Word32, l: Word32, exp: int)
    requires h < Pow2(20) && 52 <= exp <= 63
    ensures var hs := exp - 52; Pair(Or32(Or32(Lsl(1, exp - 32), Lsl(h, hs)), Lsr(l, 32 - hs)), Lsl(l, hs))
                                == Pow2(exp) + Pair(h, l) * Pow2(exp - 52)
    ensures ShiftsWell(exp, Pair(h, l))
  {
    hide Pow2, BitOr, Or32, Shl32, Shr32, Lsl, Lsr;
    var hs := exp - 52;
    Pow2_64();
    Pow2Split(exp);
    Pow2Add(20, hs);
    Pow2Add(hs, 32 - hs);
    ShiftedOut(l, hs);
    ShiftedOut(l, 32 - hs);
    Shl32Low(l, 32 - hs);
    ShrIs(l, 32 - hs);
    DivLess(l, Pow2(32 - hs), Pow2(hs));
    MergeThree(h, hs, Lsr(l, 32 - hs));
    SplitProduct(l, Pow2(32 - hs), Pow2(hs));
    RegroupHigh(Pow2(20), h, l, Pow2(hs));
  }

  lemma RegroupHigh(t: nat, h: nat, l: nat, p: nat)
    ensures (t + h) * p * W32 + l * p == t * p * W32 + (h * W32 + l) * p
  {}

  lemma OrShifted(a: nat, y: Word32, k: nat)
    requires y < Pow2(k) && a * Pow2(k) < W32
    ensures Or32(a * Pow2(k), y) == a * Pow2(k) + y
  {
    OrDisjoint(a, y, k);
  }

  lemma ShiftedDown(h: Word32, l: Word32, exp: int)
    requires h < Pow2(20) && 32 <= exp < 52
    ensures var hs := 52 - exp; Pair(Or32(Lsl(1, exp - 32), Lsr(h, hs)), Or32(Lsl(h, 32 - hs), Lsr(l, hs)))
                                == Pow2(exp) + Pair(h, l) / Pow2(52 - exp)
    ensures ShiftsWell(exp, Pair(h, l))
  {
    hide Pow2, BitOr, Or32, Shl32, Shr32, Lsl, Lsr;
    var hs := 52 - exp;
    Pow2_64();
    Pow2Split(exp);
    Pow2Add(hs, exp - 32);
    DivLess(h, Pow2(hs), Pow2(exp - 32));
    ShiftedOut(h, hs);
    ShiftedOut(h, 32 - hs);
    ShiftedOut(l, hs);
    ShrIs(h, hs);
    MergeOne(exp - 32, Lsr(h, hs));
    UnshiftedWords(h, l, hs);
  }

  lemma FractionLost(h: Word32, l: Word32, exp: int)
    requires h < Pow2(20) && 20 < exp < 32
    ensures var hs := exp - 84; Pair(0, Or32(Or32(Lsl(1, exp), Lsl(h, hs)), Lsr(l, 32 - hs))) == Pow2(exp)
    ensures ShiftsWell(exp, Pair(h, l)) <==> Pair(h, l) / Pow2(52 - exp) == 0
  {
    hide Pow2, BitOr, Or32, Lsl, Lsr;
    ShiftedOut(h, exp - 84);
    ShiftedOut(l, 116 - exp);
    MergeOne(exp, 0);
    Or32Zero(Lsl(1, exp));
  }

  lemma ShiftedToUnits(h: Word32, l: Word32, exp: int)
    requires h < Pow2(20) && 0 <= exp <= 20
    ensures Pair(0, Or32(Lsl(1, exp), Lsr(h, 20 - exp))) == Pow2(exp) + Pair(h, l) / Pow2(52 - exp)
    ensures ShiftsWell(exp, Pair(h, l))
  {
    hide Pow2, BitOr, Or32, Shr32, Lsl, Lsr;
    Pow2Split(52 - exp);
    Pow2Add(20 - exp, exp);
    DivLess(h, Pow2(20 - exp), Pow2(exp));
    ShiftedOut(h, 20 - exp);
    ShrIs(h, 20 - exp);
    MergeOne(exp, Lsr(h, 20 - exp));
    DivDiv(Pair(h, l), W32, Pow2(20 - exp));
    DivModUnique(Pair(h, l), W32, h, l);
  }

  lemma ShiftedBelowOne(h: Word32, exp: int, f: nat)
    requires h < Pow2(20) && -1023 <= exp < 0
    ensures Or32(Lsl(1, exp), Lsr(h, 20 - exp)) == 0 <==> ShiftsWell(exp, f)
  {
    hide Pow2, BitOr, Or32, Shl32, Shr32;
    ShiftedOut(1, exp);
    OrZeroBoth(Lsl(1, exp), Lsr(h, 20 - exp));
    var k := exp % 256;
    if k < 32 {
      Pow2_64();
      Pow2StrictMono(k, 32);
      DivModUnique(Pow2(k), W32, 0, Pow2(k));
      ShlIs(1, k);
    } else {
      var n := (20 - exp) % 256;
      assert n >= 20;
      Pow2Mono(20, n);
      ShrIs(h, n);
      DivModUnique(h, Pow2(n), 0, h);
    }
  }

  lemma ShlIs(x: Word32, n: nat)
    ensures Shl32(x, n) == x * Pow2(n) % W32
  {}

  lemma OrZeroBoth(x: Word32, y: Word32)
    ensures Or32(x, y) == 0 <==> x == 0 && y == 0
  {
    OrIsZero(x, y);
  }

  /** __aeabi_d2ulz and __aeabi_d2lz: what they accept is right exactly where the shift is. */
  method D2xlz(val: Word, withSign: bool) returns (done: bool, high: Word32, low: Word32)
    ensures done <==> Accepts(withSign, Truncated(NumberOf(Double, SIGN64, val)))
    ensures done ==>
              var exp, h := val % SIGN64 / Pow2(52) - 1023, And32(val / W32, 0xf_ffff);
              var result := DoubleResult(exp, h, val % W32);
              && Pair(high, low) == (if withSign && val >= SIGN64 then -result else result) % W64
              && (StandsFor(withSign, Pair(high, low), Truncated(NumberOf(Double, SIGN64, val))) <==>
                    ShiftsWell(exp, val % SIGN64 % Pow2(52)))
  {
    hide Pow2, And32, BitAnd, Magnitude, NumberOf, Truncated, Scaled, Accepts, Pair, Shr32, ShiftsWell, StandsFor,
         DoubleResult;
    HighFraction(val);
    Meaning(Double, SIGN64, val);
    var h, l := val / W32, val % W32;
    var sign := Shr32(h, 31);
    var exp := And32(Shr32(h, 20), 0x7ff) - 1023;
    if withSign {
      if exp > 62 {
        return false, 0, 0;
      }
    } else if (sign != 0 && exp >= 0) || exp > 63 {
      return false, 0, 0;
    }
    done := true;
    high, low := DoubleWords(And32(h, 0xf_ffff), l, exp);
    ResultIffShiftsWell(exp, And32(h, 0xf_ffff), l);
    MagnitudeStandsFor(withSign, Scaled(Pow2(52) + val % SIGN64 % Pow2(52), exp - 52), Pair(high, low), exp, sign);
    NegateIs(Pair(high, low));
    hide Minus;
    if withSign && sign != 0 {
      high, low := NegateWords(high, low);
    }
  }

  lemma HighFraction(val: Word)
    ensures var c, h := val % SIGN64, val / W32;
            && Shr32(h, 31) == val / SIGN64 && val / SIGN64 <= 1 && And32(Shr32(h, 20), 0x7ff) == c / Pow2(52)
            && And32(h, 0xf_ffff) < Pow2(20) && Pair(And32(h, 0xf_ffff), val % W32) == c % Pow2(52)
            && c / Pow2(52) <= 0x7ff
  {
    hide Pow2, BitAnd, Shr32;
    Constants();
    FieldsOfDouble(val);
    AndMask(val / W32, 20);
  }

  /** Below one the exponent is in effect taken modulo 256, and what is then still of 32 bits comes out. */
  lemma BelowOne(exp: int, h: Word32, l: Word32)
    requires h < Pow2(20) && -1023 <= exp < 0
    ensures DoubleResult(exp, h, l) == if exp % 256 < 32 then DoubleResult(exp % 256, h, l) else 0
  {
    hide Pow2, BitOr, Or32, Shl32, Shr32;
    var e := exp % 256;
    assert (20 - exp) % 256 == (20 - e) % 256;
    assert Lsl(1, exp) == Lsl(1, e) && Lsr(h, 20 - exp) == Lsr(h, 20 - e);
    if e <= 20 {
      ShiftedToUnits(h, l, e);
      FractionBelow(h, l);
      ScaledParts(52, Pair(h, l), e);
    } else {
      ShiftedOut(1, exp);
      ShiftedOut(1, e);
      HighGone(h, 20 - e);
      Or32Zero(Lsl(1, e));
      if e < 32 { OneShifted(e); }
    }
  }

  lemma HighGone(h: Word32, n: int)
    requires h < Pow2(20) && n % 256 >= 20
    ensures Lsr(h, n) == 0
  {
    hide Pow2;
    ShiftedOut(h, n);
    var k := n % 256;
    if k < 32 {
      ShiftedOut(h, k);
      ShrIs(h, k);
      Pow2Mono(20, k);
      DivModUnique(h, Pow2(k), 0, h);
    }
  }

  lemma OneShifted(e: nat)
    requires e < 32
    ensures Lsl(1, e) == Pow2(e)
  {
    hide Pow2;
    Pow2_64();
    Pow2StrictMono(e, 32);
    Shl32Exact(1, e);
  }

  /** 2^21 + 1 comes out as 2^21, and zero as two. */
  lemma BadConversions()
    ensures DoubleResult(21, 0, 0x8000_0000) == 0x20_0000 &&
            Scaled(Pow2(52) + Pair(0, 0x8000_0000), 21 - 52) == 0x20_0001
    ensures DoubleResult(-1023, 0, 0) == 2 && Scaled(Pow2(52) + Pair(0, 0), -1023 - 52) == 0
  {
    Constants();
    Pow2Add(20, 11);
    Pow2Add(20, 1);
    Pow2Small();
    ShiftedOut(0, 1043);
    hide Pow2, BitOr;
    ScaledNone(52, 0, -1023);
    assert Lsl(1, -1023) == 2;
    assert Lsr(0, 1043) == 0;
    Or32Zero(2);
  }
}
