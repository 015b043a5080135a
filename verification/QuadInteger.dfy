/** Conversions between binary128 and the four integer types (lib/lib-arm64.c:476-619). */
module QuadInteger {
  import opened Power2
  import opened Words
  import opened Words32
  import opened Rounding
  import opened QuadFormat
  import opened QuadParts
  import opened QuadNarrow
  import opened QuadWiden

  /** Truncation towards zero. */
  function Truncated(v: real): int {
    if v >= 0.0 then v.Floor else -(-v).Floor
  }

  function Clamp(n: int, lo: int, hi: int): int {
    if n < lo then lo else if n > hi then hi else n
  }

  /** What a conversion to the integers lo..hi owes: truncation, saturating beyond them;
      a NaN counts as infinite. */
  function IntegerOf(f: U128, lo: int, hi: int): int {
    if IsNaN(f) then (if Sign(f) == 1 then lo else hi)
    else Clamp(Truncated(Value(f)), lo, hi)
  }

  lemma TruncatedMeaning(v: real)
    ensures var n := Truncated(v);
            && (v >= 0.0 ==> n as real <= v < (n + 1) as real && n >= 0)
            && (v <= 0.0 ==> (n - 1) as real < v <= n as real && n <= 0)
  {}

  /** In range the integer is the one next to the number on the side of zero; beyond, it is a bound. */
  lemma IntegerOfMeaning(f: U128, lo: int, hi: int)
    requires lo <= 0 <= hi
    ensures var n, v := IntegerOf(f, lo, hi), Value(f);
            if IsNaN(f) then n == if Sign(f) == 1 then lo else hi
            else if v <= (lo - 1) as real then n == lo
            else if v >= (hi + 1) as real then n == hi
            else
              && lo <= n <= hi
              && (v >= 0.0 ==> n as real <= v < (n + 1) as real)
              && (v <= 0.0 ==> (n - 1) as real < v <= n as real)
  {
    TruncatedMeaning(Value(f));
    hide Value, Truncated, IsNaN, Sign;
  }

  lemma UnitsOne(q: int)
    ensures Units(q, 0) == q as real
  {}

  /** m units of 2^e, rounded down, is a right shift. */
  lemma FloorUnits(m: nat, e: int)
    requires e <= 0
    ensures 0 <= m / Pow2(-e) <= m
    ensures Units(m, e) >= 0.0 && Units(m, e).Floor == m / Pow2(-e)
  {
    hide Units, Pow2;
    var p := Pow2(-e);
    var q := m / p;
    DivBound(m, p);
    Recompose(m, p);
    UnitsShift(q, e, -e);
    UnitsShift(q + 1, e, -e);
    UnitsOne(q);
    UnitsOne(q + 1);
    assert (q + 1) * p == q * p + p;
    UnitsMono(q * p, m, e);
    UnitsMono(m, (q + 1) * p, e);
    UnitsMono(0, m, e);
    UnitsNil(e);
  }

  lemma UnitsFrom(m: nat, e: int, w: nat)
    requires m >= P112 && e + 112 >= w
    ensures Units(m, e) >= Pow2(w) as real
  {
    hide Units, Pow2;
    UnitsShift(1, e, 112);
    InfCodeIsInfinity();
    UnitsMono(P112, m, e);
    UnitsShift(1, w, e + 112 - w);
    UnitsMono(1, Pow2(e + 112 - w), w);
    UnitsShift(1, 0, w);
    UnitsOne(Pow2(w));
  }

  /** The result of a conversion, from the unpacked number: zero, the shifted significand,
      or a bound. */
  lemma IntegerCases(f: U128, w: nat, lo: int, hi: int)
    requires w <= 64 && hi == Pow2(w) - 1 && (lo == 0 || lo + Pow2(w) == 0)
    ensures var m, exp := Significand(f), Exponent(f);
            && (exp >= 16383 + w ==> IntegerOf(f, lo, hi) == if Sign(f) == 1 then lo else hi)
            && (exp < 16383 + w ==>
                  && 0 <= m / Pow2(16495 - exp) < Pow2(w)
                  && (exp < 16383 ==> m / Pow2(16495 - exp) == 0)
                  && IntegerOf(f, lo, hi) == if Sign(f) == 0 then m / Pow2(16495 - exp)
                                             else if lo == 0 then 0 else -(m / Pow2(16495 - exp)))
  {
    hide Units, Pow2, Magnitude, Significand, Exponent;
    UnpackedMeaning(f);
    PackFields(f);
    var m, exp := Significand(f), Exponent(f);
    if exp >= 16383 + w {
      UnitsFrom(m, exp - 16495, w);
      FloorAtLeast(Units(m, exp - 16495), Pow2(w));
    } else {
      FloorUnits(m, exp - 16495);
      ShiftedRange(m, exp, w);
    }
  }

  lemma FloorAtLeast(v: real, n: nat)
    requires v >= n as real
    ensures v.Floor >= n
  {}

  lemma ShiftedRange(m: nat, exp: int, w: nat)
    requires m < P113 && w <= 64 && exp < 16383 + w
    ensures m / Pow2(16495 - exp) < Pow2(w)
    ensures exp < 16383 ==> m / Pow2(16495 - exp) == 0
  {
    hide Pow2;
    Pow2Of113();
    Pow2Mono(113 - w, 16495 - exp);
    Pow2Add(w, 113 - w);
    MulMono(Pow2(113 - w), Pow2(16495 - exp), Pow2(w));
    DivLess(m, Pow2(16495 - exp), Pow2(w));
    DivBound(m, Pow2(16495 - exp));
    if exp < 16383 {
      Pow2Mono(113, 16495 - exp);
      DivLess(m, Pow2(16495 - exp), 1);
    }
  }

  // ----- to integers

  lemma ShiftHigh(a: U128, k: nat)
    requires k < 64
    ensures Shr(a.x1, k) == Nat(a) / Pow2(64 + k)
  {
    hide Pow2;
    Pow2Add(64, k);
    Pow2_64();
    NatBound(a);
    DivDiv(a.x1 * W64 + a.x0, W64, Pow2(k));
  }

  /** The 64 significant bits of a.x1 << 15 | a.x0 >> 49, shifted on. */
  lemma ShiftMiddle(a: U128, k: nat)
    requires Nat(a) < P113
    ensures Shr(Or(Shl(a.x1, 15), Shr(a.x0, 49)), k) == Nat(a) / Pow2(49 + k)
  {
    hide Pow2, BitOr, Shl, ShrPair;
    HighWordGone(a, 49);
    ShrPairIsDiv(a, 49);
    LowWordOfShift(a);
    Pow2Add(49, k);
    DivDiv(Nat(a), Pow2(49), Pow2(k));
  }

  lemma LowWordOfShift(a: U128)
    ensures Or(Shl(a.x1, 15), Shr(a.x0, 49)) == ShrPair(a, 49).x0
  {
    hide Pow2, Shl, Shr;
    OrCommutes(Shl(a.x1, 15), Shr(a.x0, 49));
  }

  lemma IntegerBounds()
    ensures Pow2(31) == 0x8000_0000 && Pow2(32) == W32 && Pow2(63) == 0x8000_0000_0000_0000 && Pow2(64) == W64
  {
    FormatConstants();
    Pow2Constants();
    Pow2_64();
  }

  method FixTfSi(fa: U128) returns (x: int)
    ensures x == IntegerOf(fa, -0x8000_0000, 0x7fff_ffff)
  {
    hide Pow2, Shr, IntegerOf, SignificandWords, Exponent;
    var sgn, exp, a := Unpack(fa);
    UnpackedMeaning(fa);
    PackFields(fa);
    IntegerBounds();
    IntegerCases(fa, 31, -0x8000_0000, 0x7fff_ffff);
    if exp < 16369 { return 0; }
    if exp > 16413 { return if sgn != 0 then -0x8000_0000 else 0x7fff_ffff; }
    ShiftHigh(a, 16431 - exp);
    x := Shr(a.x1, 16431 - exp);
    x := if sgn != 0 then -x else x;
  }

  method FixTfDi(fa: U128) returns (x: int)
    ensures x == IntegerOf(fa, -0x8000_0000_0000_0000, 0x7fff_ffff_ffff_ffff)
  {
    hide Pow2, Shl, Shr, BitOr, IntegerOf, SignificandWords, Exponent;
    var sgn, exp, a := Unpack(fa);
    UnpackedMeaning(fa);
    PackFields(fa);
    IntegerBounds();
    IntegerCases(fa, 63, -0x8000_0000_0000_0000, 0x7fff_ffff_ffff_ffff);
    if exp < 16383 { return 0; }
    if exp > 16445 { return if sgn != 0 then -0x8000_0000_0000_0000 else 0x7fff_ffff_ffff_ffff; }
    ShiftMiddle(a, 16446 - exp);
    x := Shr(Or(Shl(a.x1, 15), Shr(a.x0, 49)), 16446 - exp);
    x := if sgn != 0 then -x else x;
  }

  method FixUnsTfSi(fa: U128) returns (x: Word32)
    ensures x == IntegerOf(fa, 0, 0xffff_ffff)
  {
    hide Pow2, Shr, IntegerOf, SignificandWords, Exponent;
    var sgn, exp, a := Unpack(fa);
    UnpackedMeaning(fa);
    PackFields(fa);
    IntegerBounds();
    IntegerCases(fa, 32, 0, 0xffff_ffff);
    if sgn != 0 || exp < 16369 { return 0; }
    if exp > 16414 { return 0xffff_ffff; }
    ShiftHigh(a, 16431 - exp);
    x := Shr(a.x1, 16431 - exp);
  }

  method FixUnsTfDi(fa: U128) returns (x: Word)
    ensures x == IntegerOf(fa, 0, 0xffff_ffff_ffff_ffff)
  {
    hide Pow2, Shl, Shr, BitOr, IntegerOf, SignificandWords, Exponent;
    var sgn, exp, a := Unpack(fa);
    UnpackedMeaning(fa);
    PackFields(fa);
    IntegerBounds();
    IntegerCases(fa, 64, 0, 0xffff_ffff_ffff_ffff);
    if sgn != 0 || exp < 16383 { return 0; }
    if exp > 16446 { return 0xffff_ffff_ffff_ffff; }
    ShiftMiddle(a, 16446 - exp);
    x := Shr(Or(Shl(a.x1, 15), Shr(a.x0, 49)), 16446 - exp);
  }

  // ----- from integers

  /** Shifts a non-zero word left until its top bit is set; n counts the shifts. */
  method NormaliseWord(a: Word) returns (mnt: Word, n: nat)
    requires a > 0
    ensures mnt >= 0x8000_0000_0000_0000 && n <= 63 && mnt == a * Pow2(n)
  {
    Pow2Constants();
    hide Pow2, Shl, Shr;
    mnt, n := a, 0;
    var i := 32;
    while i != 0
      invariant i in {0, 1, 2, 4, 8, 16, 32}
      invariant n + (if i == 0 then 0 else 2 * i - 1) <= 63
      invariant mnt == a * Pow2(n)
      invariant mnt >= Pow2(if i == 0 then 63 else 64 - 2 * i)
    {
      if Shr(mnt, 64 - i) == 0 {
        ShiftWord(a, mnt, n, i);
        mnt := Shl(mnt, i);
        n := n + i;
      } else {
        ShrNonZero(mnt, 64 - i);
      }
      i := i / 2;
    }
  }

  lemma ShiftWord(a: nat, m: Word, n: nat, i: nat)
    requires 0 < i <= 32 && m == a * Pow2(n) && Shr(m, 64 - i) == 0 && m >= Pow2(64 - 2 * i)
    ensures Shl(m, i) == a * Pow2(n + i) && Shl(m, i) >= Pow2(64 - i)
  {
    hide Pow2;
    assert m < Pow2(64 - i);
    ShlFits(m, i);
    Pow2Add(n, i);
    MulAssoc(a, Pow2(n), Pow2(i));
    Pow2Add(64 - 2 * i, i);
    MulMono(Pow2(64 - 2 * i), m, Pow2(i));
  }

  method NormaliseWord32(a: Word32) returns (mnt: Word32, n: nat)
    requires a > 0
    ensures mnt >= 0x8000_0000 && n <= 31 && mnt == a * Pow2(n)
  {
    IntegerBounds();
    Pow2Small();
    hide Pow2, Shl32, Shr32;
    mnt, n := a, 0;
    var i := 16;
    while i != 0
      invariant i in {0, 1, 2, 4, 8, 16}
      invariant n + (if i == 0 then 0 else 2 * i - 1) <= 31
      invariant mnt == a * Pow2(n)
      invariant mnt >= Pow2(if i == 0 then 31 else 32 - 2 * i)
    {
      if Shr32(mnt, 32 - i) == 0 {
        ShiftWord32(a, mnt, n, i);
        mnt := Shl32(mnt, i);
        n := n + i;
      } else {
        ShrNonZero32(mnt, 32 - i);
      }
      i := i / 2;
    }
  }

  lemma ShiftWord32(a: nat, m: Word32, n: nat, i: nat)
    requires 0 < i <= 16 && m == a * Pow2(n) && Shr32(m, 32 - i) == 0 && m >= Pow2(32 - 2 * i)
    ensures Shl32(m, i) == a * Pow2(n + i) && Shl32(m, i) >= Pow2(32 - i)
  {
    hide Pow2;
    assert m < Pow2(32 - i);
    Shl32Fits(m, i);
    Pow2Add(n, i);
    MulAssoc(a, Pow2(n), Pow2(i));
    Pow2Add(32 - 2 * i, i);
    MulMono(Pow2(32 - 2 * i), m, Pow2(i));
  }

  lemma ShrNonZero32(x: Word32, n: nat)
    requires Shr32(x, n) != 0
    ensures x >= Pow2(n)
  {
    hide Pow2;
    DivBound(x, Pow2(n));
    if x < Pow2(n) { DivLess(x, Pow2(n), 1); }
  }

  /** A normalised integer as an encoding: its top bit hidden, the others leading the fraction. */
  function IntegerCode(exp: nat, mnt: nat): int {
    exp * P112 + (mnt - W64 / 2) * 0x2_0000_0000_0000
  }

  lemma IntegerValue(a: nat, n: nat, mnt: nat)
    requires mnt == a * Pow2(n) && W64 / 2 <= mnt < W64 && n <= 63
    ensures 0 <= IntegerCode(16446 - n, mnt) < INF_CODE
    ensures Magnitude(Quad, IntegerCode(16446 - n, mnt)) == a as real
  {
    hide Pow2, Units, Magnitude;
    InfCodeIsInfinity();
    assert IntegerCode(16446 - n, mnt) == (16446 - n) * P112 + (mnt - W64 / 2) * 0x2_0000_0000_0000;
    var f := (mnt - W64 / 2) * 0x2_0000_0000_0000;
    MagnitudeOf(Quad, 16446 - n, f);
    assert P112 + f == mnt * Pow2(49) by { Pow2Constants(); EvenPower49(); }
    UnitsShift(mnt, -49 - n, 49);
    UnitsShift(a, 0 - n, n);
    UnitsOne(a);
  }

  lemma EvenPower49()
    ensures Pow2(49) == 0x2_0000_0000_0000
  {
    Pow2Constants();
    assert Pow2(49) == 2 * Pow2(48);
  }

  /** The words that the 64-bit conversions build. */
  lemma Merge64(sgn: nat, exp: nat, mnt: Word)
    requires sgn <= 1 && exp <= 16446 && mnt >= W64 / 2
    ensures 0 <= IntegerCode(exp, mnt) < INF_CODE
    ensures U128(Shl(mnt, 49), Or(Or(Shl(sgn, 63), Shl(exp, 48)), Shr(Shl(mnt, 1), 16))) ==
            Pack(sgn, IntegerCode(exp, mnt))
  {
    hide BitOr, Pow2, Shl, Shr, Pack, IntegerCode;
    SplitCode(exp, mnt);
    var h, l := (mnt - W64 / 2) / 0x8000, (mnt - W64 / 2) % 0x8000;
    FractionWords(mnt);
    MergeHigh(sgn, exp, h);
    PackHigh(sgn, exp, h, l * 0x2_0000_0000_0000);
  }

  lemma SplitCode(exp: nat, mnt: nat)
    requires exp < 0x7fff && W64 / 2 <= mnt < W64
    ensures var h, l := (mnt - W64 / 2) / 0x8000, (mnt - W64 / 2) % 0x8000;
            h < 0x1_0000_0000_0000 && IntegerCode(exp, mnt) == exp * P112 + h * W64 + l * 0x2_0000_0000_0000
  {}

  lemma FractionWords(mnt: Word)
    requires mnt >= W64 / 2
    ensures Shr(Shl(mnt, 1), 16) == (mnt - W64 / 2) / 0x8000
    ensures Shl(mnt, 49) == (mnt - W64 / 2) % 0x8000 * 0x2_0000_0000_0000
  {
    Pow2Constants();
    EvenPower49();
    hide Pow2;
    ShlLow(mnt, 15);
    ShlLow(mnt, 63);
    assert mnt % 0x8000_0000_0000_0000 == mnt - W64 / 2;
  }

  lemma PackHigh(s: nat, e: nat, h: nat, l: Word)
    requires s <= 1 && e < 0x7fff && h < 0x1_0000_0000_0000
    ensures e * P112 + h * W64 + l < INF_CODE
    ensures U128(l, s * 0x8000_0000_0000_0000 + e * 0x1_0000_0000_0000 + h) == Pack(s, e * P112 + h * W64 + l)
  {
    HighWordFields(s, e, h, l);
    PackFields(U128(l, s * 0x8000_0000_0000_0000 + e * 0x1_0000_0000_0000 + h));
  }

  lemma ValueOfPack(sgn: nat, c: nat)
    requires sgn <= 1 && c < INF_CODE
    ensures IsFinite(Pack(sgn, c)) && Sign(Pack(sgn, c)) == sgn
    ensures Value(Pack(sgn, c)) == if sgn == 1 then -Magnitude(Quad, c) else Magnitude(Quad, c)
  {
    hide Magnitude;
  }

  lemma PlusZero()
    ensures IsFinite(U128(0, 0)) && Sign(U128(0, 0)) == 0 && Value(U128(0, 0)) == 0.0
  {
    ZeroMagnitude(U128(0, 0));
  }

  /** The magnitude of a negative number, by unsigned negation. */
  lemma NegativeWord(a: int)
    requires -0x8000_0000_0000_0000 <= a < 0
    ensures a % W64 == a + W64 && Minus(0, a % W64) == -a
    ensures -0x8000_0000 <= a ==> a % W32 == a + W32 && Minus32(0, a % W32) == -a
  {
    DivModUnique(a, W64, -1, a + W64);
    DivModUnique(0 - (a + W64), W64, -1, -a);
    if -0x8000_0000 <= a {
      DivModUnique(a, W32, -1, a + W32);
      DivModUnique(0 - (a + W32), W32, -1, -a);
    }
  }

  method FloatDiTf(a: int) returns (f: U128)
    requires -0x8000_0000_0000_0000 <= a < 0x8000_0000_0000_0000
    ensures IsFinite(f) && Value(f) == a as real && (a == 0 ==> Sign(f) == 0)
  {
    hide BitOr, Shl, Shr, Pow2, Magnitude, IntegerCode, Value, Sign, Code, IsFinite, Minus, Minus32;
    f := U128(0, 0);
    PlusZero();
    if a != 0 {
      var sgn, mnt := 0, a % W64;
      if a < 0 {
        NegativeWord(a);
        sgn := 1;
        mnt := Minus(0, mnt);
      }
      var n;
      mnt, n := NormaliseWord(mnt);
      IntegerValue(if a < 0 then -a else a, n, mnt);
      Merge64(sgn, 16446 - n, mnt);
      ValueOfPack(sgn, IntegerCode(16446 - n, mnt));
      f := U128(Shl(mnt, 49), Or(Or(Shl(sgn, 63), Shl(16446 - n, 48)), Shr(Shl(mnt, 1), 16)));
    }
  }

  method FloatUnDiTf(a: Word) returns (f: U128)
    ensures IsFinite(f) && Value(f) == a as real && Sign(f) == 0
  {
    hide BitOr, Shl, Shr, Pow2, Magnitude, IntegerCode, Value, Sign, Code, IsFinite, Minus, Minus32;
    f := U128(0, 0);
    PlusZero();
    if a != 0 {
      var mnt, n := NormaliseWord(a);
      IntegerValue(a, n, mnt);
      Merge64(0, 16446 - n, mnt);
      ValueOfPack(0, IntegerCode(16446 - n, mnt));
      MergeNoSign(16446 - n, Shr(Shl(mnt, 1), 16));
      f := U128(Shl(mnt, 49), Or(Shl(16446 - n, 48), Shr(Shl(mnt, 1), 16)));
    }
  }

  lemma MergeNoSign(exp: nat, h: Word)
    requires exp < 0x8000
    ensures Or(Or(Shl(0, 63), Shl(exp, 48)), h) == Or(Shl(exp, 48), h)
  {
    assert Shl(0, 63) == 0;
    OrZero(Shl(exp, 48));
  }

  /** The words of the 32-bit conversions are those of the 64-bit ones on a scaled word. */
  lemma Merge32(sgn: nat, exp: nat, mnt: Word32)
    requires sgn <= 1 && exp <= 16414 && mnt >= 0x8000_0000
    ensures 0 <= IntegerCode(exp, mnt * W32) < INF_CODE
    ensures U128(0, Or(Or(Shl(sgn, 63), Shl(exp, 48)), Shl(Shl32(mnt, 1), 16))) ==
            Pack(sgn, IntegerCode(exp, mnt * W32))
  {
    hide BitOr, Pow2, Pack, Shl, Shl32;
    var h := (mnt - 0x8000_0000) * 0x2_0000;
    FractionWords32(mnt);
    assert IntegerCode(exp, mnt * W32) == exp * P112 + h * W64 + 0;
    hide IntegerCode;
    MergeHigh(sgn, exp, h);
    PackHigh(sgn, exp, h, 0);
  }

  lemma FractionWords32(mnt: Word32)
    requires mnt >= 0x8000_0000
    ensures Shl(Shl32(mnt, 1), 16) == (mnt - 0x8000_0000) * 0x2_0000
  {
    Pow2Constants();
    hide Pow2;
    assert Shl32(mnt, 1) == 2 * (mnt - 0x8000_0000);
  }

  lemma ScaleUp(a: nat, n: nat, mnt: Word32)
    requires mnt == a * Pow2(n) && n <= 31
    ensures mnt * W32 == a * Pow2(n + 32)
  {
    hide Pow2;
    Pow2Add(n, 32);
    Pow2_64();
    MulAssoc(a, Pow2(n), W32);
  }

  method FloatSiTf(a: int) returns (f: U128)
    requires -0x8000_0000 <= a < 0x8000_0000
    ensures IsFinite(f) && Value(f) == a as real && (a == 0 ==> Sign(f) == 0)
  {
    hide BitOr, Shl, Shl32, Pow2, Magnitude, IntegerCode, Value, Sign, Code, IsFinite, Minus, Minus32;
    f := U128(0, 0);
    PlusZero();
    if a != 0 {
      var sgn, mnt := 0, a % W32;
      if a < 0 {
        NegativeWord(a);
        sgn := 1;
        mnt := Minus32(0, mnt);
      }
      var n;
      mnt, n := NormaliseWord32(mnt);
      ScaleUp(if a < 0 then -a else a, n, mnt);
      IntegerValue(if a < 0 then -a else a, n + 32, mnt * W32);
      Merge32(sgn, 16414 - n, mnt);
      ValueOfPack(sgn, IntegerCode(16414 - n, mnt * W32));
      f := U128(0, Or(Or(Shl(sgn, 63), Shl(16414 - n, 48)), Shl(Shl32(mnt, 1), 16)));
    }
  }

  method FloatUnSiTf(a: Word32) returns (f: U128)
    ensures IsFinite(f) && Value(f) == a as real && Sign(f) == 0
  {
    hide BitOr, Shl, Shl32, Pow2, Magnitude, IntegerCode, Value, Sign, Code, IsFinite, Minus, Minus32;
    f := U128(0, 0);
    PlusZero();
    if a != 0 {
      var mnt, n := NormaliseWord32(a);
      ScaleUp(a, n, mnt);
      IntegerValue(a, n + 32, mnt * W32);
      Merge32(0, 16414 - n, mnt);
      ValueOfPack(0, IntegerCode(16414 - n, mnt * W32));
      MergeNoSign(16414 - n, Shl(Shl32(mnt, 1), 16));
      f := U128(0, Or(Shl(16414 - n, 48), Shl(Shl32(mnt, 1), 16)));
    }
  }

  /** A number that holds an integer in range converts back to it. */
  lemma IntegerRoundTrip(f: U128, n: int, lo: int, hi: int)
    requires lo <= n <= hi && !IsNaN(f) && Value(f) == n as real
    ensures IntegerOf(f, lo, hi) == n
  {
    hide Value;
  }
}
