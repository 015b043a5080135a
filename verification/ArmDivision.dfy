/** Division by binary digits and the two-word shifts of the ARM runtime
    (lib/armeabi.c:340-489). The 32-bit and the 64-bit division are one macro: here the width is
    given by the modulus n of its unsigned type. */
module ArmDivision {
  import opened Power2
  import opened Words
  import opened Words32

  predicate IsModulus(n: int) { n == W32 || n == W64 }

  /** The number of one bits. */
  function BitCount(x: int): nat {
    if x <= 0 then 0 else x % 2 + BitCount(x / 2)
  }

  lemma BitCountStep(x: nat)
    ensures BitCount(x) == x % 2 + BitCount(x / 2) && BitCount(0) == 0
  {}

  lemma {:induction false} TakeTopBit(x: nat, k: nat)
    requires Pow2(k) <= x < 2 * Pow2(k)
    ensures BitCount(x) == 1 + BitCount(x - Pow2(k))
  {
    hide BitCount;
    BitCountStep(x);
    BitCountStep(x - Pow2(k));
    if k == 0 {
    } else {
      TakeTopBit(x / 2, k - 1);
      var y := x - Pow2(k);
      assert y / 2 == x / 2 - Pow2(k - 1) && y % 2 == x % 2;
    }
  }

  /** The inner loop's condition, all products wrapping. */
  predicate MayDouble(n: int, q: nat, den: nat, num: nat)
    requires n > 0
  {
    2 * q % n * den % n <= num && q * den % n <= (n - 1) / 2
  }

  /** What doubling the step does to the wrapping test of the inner loop: within the first half of
      the range nothing wraps, and beyond it the step is already the largest. */
  lemma DoublingTest(n: int, q: nat, den: int, num: nat)
    requires IsModulus(n) && 0 < den && 0 < q && q * den <= num < n
    ensures q < n && q * den % n == q * den
    ensures MayDouble(n, q, den, num) <==> 2 * (q * den) <= num
    ensures 2 * (q * den) <= num ==> 2 * q % n == 2 * q
  {
    MulMono(1, den, q);
    DivModUnique(q * den, n, 0, q * den);
    if q * den <= (n - 1) / 2 {
      DivModUnique(2 * q, n, 0, 2 * q);
      assert 2 * q * den == 2 * (q * den);
      DivModUnique(2 * q * den, n, 0, 2 * q * den);
    }
  }

  /** Taking q times the divisor away takes q from the quotient. */
  lemma TakeStep(num: nat, den: int, q: nat)
    requires den > 0 && q * den <= num
    ensures (num - q * den) / den == num / den - q && (num - q * den) % den == num % den
    ensures 2 * (q * den) > num ==> num / den < 2 * q
    ensures q <= num / den
  {
    Recompose(num, den);
    assert (num / den - q) * den == num / den * den - q * den;
    DivAtLeast(num, den, q);
    DivModUnique(num - q * den, den, num / den - q, num % den);
    if 2 * (q * den) > num {
      assert (2 * q) * den == 2 * (q * den);
      DivLess(num, den, 2 * q);
    }
  }

  /** The largest power of two whose multiple of the divisor fits. */
  method TopStep(n: int, num: nat, den: nat) returns (q: nat, ghost k: nat)
    requires IsModulus(n) && 0 < den <= num < n
    ensures q == Pow2(k) && q * den <= num < 2 * (q * den)
  {
    hide MayDouble;
    q, k := 1, 0;
    Pow2Small();
    DoublingTest(n, q, den, num);
    while MayDouble(n, q, den, num)
      invariant q == Pow2(k) && 0 < q <= num && q * den <= num
      decreases num - q
    {
      DoublingTest(n, q, den, num);
      MulAssoc(2, q, den);
      MulMono(1, den, 2 * q);
      q, k := 2 * q % n, k + 1;
    }
    DoublingTest(n, q, den, num);
  }

  /** One round: nothing wraps, and the quotient still to find loses its top bit. */
  lemma TakeDigit(n: int, num: nat, den: nat, q: nat, k: nat, quot: nat, num': nat, quot': nat)
    requires IsModulus(n) && 0 < den <= num < n && q == Pow2(k) && q * den <= num < 2 * (q * den)
    requires quot + num / den < n && num' == (num - q * den % n) % n && quot' == (quot + q) % n
    ensures num' < num && num' % den == num % den && quot' + num' / den == quot + num / den
    ensures BitCount(num / den) == 1 + BitCount(num' / den)
  {
    hide Pow2, BitCount, IsModulus;
    DoublingTest(n, q, den, num);
    var p := q * den;
    SmallMod(num - p, n);
    TakeStep(num, den, q);
    var d := num / den;
    TakeTopBit(d, k);
    SmallMod(quot + q, n);
  }

  lemma SmallMod(x: int, n: int)
    requires 0 <= x < n
    ensures x % n == x
  {}

  /** AEABI_UXDIVMOD: each round of the outer loop finds one binary digit of the quotient. */
  method UxDivMod(n: int, numerator: nat, den: nat) returns (quot: nat, rem: nat, ghost rounds: nat)
    requires IsModulus(n) && numerator < n && 0 < den < n
    ensures quot == numerator / den && rem == numerator % den
    ensures rounds == BitCount(quot)
  {
    hide Pow2;
    var num := numerator;
    quot, rounds := 0, 0;
    DivBound(numerator, den);
    while num >= den
      invariant 0 <= num <= numerator
      invariant quot + num / den == numerator / den && num % den == numerator % den
      invariant rounds + BitCount(num / den) == BitCount(numerator / den)
      decreases num
    {
      ghost var k;
      var q;
      q, k := TopStep(n, num, den);
      ghost var num', quot' := num, quot;
      num := (num - q * den % n) % n;
      quot := (quot + q) % n;
      TakeDigit(n, num', den, q, k, quot', num, quot);
      rounds := rounds + 1;
    }
    DivModUnique(num, den, 0, num);
    rem := num;
  }

  // ----- the signed wrappers

  function SignedIn(n: int, x: nat): int { if x < n / 2 then x else x - n }

  /** The magnitude of a signed argument, as an unsigned word. */
  function Magnitude(n: int, x: int): int
    requires n > 0
  {
    if x >= 0 then x else (0 - x) % n
  }

  lemma MagnitudeIsAbs(n: int, x: int)
    requires IsModulus(n) && -n / 2 <= x < n / 2
    ensures Magnitude(n, x) == Abs(x) < n
  {
    if x < 0 { DivModUnique(-x, n, 0, -x); }
  }

  lemma WrapNegation(n: int, x: nat)
    requires IsModulus(n) && x < n
    ensures (0 - x) % n == -(x as int) % n == (if x == 0 then 0 else n - x)
    ensures x % n == x
    ensures x * (n - 1) % n == (0 - x) % n
  {
    DivModUnique(x, n, 0, x);
    var y: int := -(x as int);
    if x > 0 { DivModUnique(y, n, -1, n - x); }
    var w := if x == 0 then 0 else n - x;
    assert x * (n - 1) == x * n - x;
    if x > 0 {
      assert x * n - x == (x - 1) * n + w;
      DivModUnique(x * (n - 1), n, x - 1, w);
    }
  }

  /** The quotient rounded towards zero fits unless the least integer is divided by -1; the
      remainder always fits. */
  lemma QuotientFits(n: int, x: int, y: int)
    requires IsModulus(n) && -n / 2 <= x < n / 2 && y != 0
    ensures SignedIn(n, TruncQuot(x, y) % n) == TruncQuot(x, y) <==> !(x == -n / 2 && y == -1)
    ensures SignedIn(n, TruncRem(x, y) % n) == TruncRem(x, y)
  {
    DivBound(Abs(x), Abs(y));
    if Abs(y) > 1 && Abs(x) > 0 { DivShrinks(Abs(x), 2, Abs(y)); }
    RemainderBelow(Abs(x), Abs(y));
    SignedInWrap(n, TruncQuot(x, y));
    SignedInWrap(n, TruncRem(x, y));
  }

  lemma RemainderBelow(x: nat, y: nat)
    requires y > 0
    ensures x % y <= x && (x > 0 ==> x % y < x || x < y)
  {
    Recompose(x, y);
    if x >= y {
      DivAtLeast(x, y, 1);
      MulMono(1, x / y, y);
    }
  }

  lemma SignedInWrap(n: int, x: int)
    requires IsModulus(n) && -n / 2 <= x <= n / 2
    ensures SignedIn(n, x % n) == if x == n / 2 then -n / 2 else x
  {
    DivModUnique(x, n, if x < 0 then -1 else 0, if x < 0 then x + n else x);
  }

  /** Putting the signs back on an unsigned quotient and remainder. */
  lemma PutSigns(n: int, x: int, y: int, q: nat, r: nat)
    requires IsModulus(n) && -n / 2 <= x < n / 2 && y != 0 && q == Abs(x) / Abs(y) && r == Abs(x) % Abs(y)
    ensures (if (x < 0) != (y < 0) then (0 - q) % n else q) == TruncQuot(x, y) % n
    ensures SignedIn(n, if x < 0 then (0 - r) % n else r) == TruncRem(x, y)
  {
    hide SignedIn;
    DivBound(Abs(x), Abs(y));
    RemainderBelow(Abs(x), Abs(y));
    WrapNegation(n, q);
    WrapNegation(n, r);
    QuotientFits(n, x, y);
  }

  /** __AEABI_XDIVMOD */
  method XDivMod(n: int, numerator: int, denominator: int) returns (quot: nat, rem: nat)
    requires IsModulus(n) && -n / 2 <= numerator < n / 2 && -n / 2 <= denominator < n / 2 && denominator != 0
    ensures quot == TruncQuot(numerator, denominator) % n
    ensures SignedIn(n, quot) == TruncQuot(numerator, denominator) <==> !(numerator == -n / 2 && denominator == -1)
    ensures SignedIn(n, rem) == TruncRem(numerator, denominator)
  {
    hide SignedIn, Magnitude, TruncQuot, TruncRem, IsModulus;
    var num, den := Magnitude(n, numerator), Magnitude(n, denominator);
    MagnitudeIsAbs(n, numerator);
    MagnitudeIsAbs(n, denominator);
    var uquot, urem;
    ghost var rounds;
    uquot, urem, rounds := UxDivMod(n, num, den);
    PutSigns(n, numerator, denominator, uquot, urem);
    QuotientFits(n, numerator, denominator);
    if (numerator < 0) != (denominator < 0) {
      quot := (0 - uquot) % n;
    } else {
      quot := uquot;
    }
    if numerator < 0 {
      rem := (0 - urem) % n;
    } else {
      rem := urem;
    }
  }

  /** __aeabi_idiv negates by a product with -1. */
  method IDiv(numerator: int, denominator: int) returns (quot: Word32)
    requires -0x8000_0000 <= numerator < 0x8000_0000 && -0x8000_0000 <= denominator < 0x8000_0000 && denominator != 0
    ensures quot == TruncQuot(numerator, denominator) % W32
    ensures Signed32(quot) == TruncQuot(numerator, denominator) <==>
            !(numerator == -0x8000_0000 && denominator == -1)
  {
    var num, den := Magnitude(W32, numerator), Magnitude(W32, denominator);
    MagnitudeIsAbs(W32, numerator);
    MagnitudeIsAbs(W32, denominator);
    var uquot, urem;
    ghost var rounds;
    uquot, urem, rounds := UxDivMod(W32, num, den);
    DivBound(num, den);
    WrapNegation(W32, uquot);
    PutSigns(W32, numerator, denominator, uquot, urem);
    QuotientFits(W32, numerator, denominator);
    quot := uquot;
    if (numerator < 0) != (denominator < 0) {
      quot := quot * (W32 - 1) % W32;
    }
  }

  // ----- two-word shifts

  lemma ShiftZero(x: Word32, n: nat)
    ensures Shl32(0, n) == 0 && Shr32(0, n) == 0 && Or32(x, 0) == x && Or32(0, x) == x
  {
    Or32Zero(x);
    DivModUnique(0, Pow2(n), 0, 0);
  }

  /** __aeabi_llsl */
  method Llsl(high: Word32, low: Word32, shift: int) returns (rh: Word32, rl: Word32)
    requires shift < 64
    ensures shift < 0 ==> rh == high && rl == low
    ensures shift >= 0 ==> Pair(rh, rl) == Pair(high, low) * Pow2(shift) % W64
  {
    hide Pow2, Or32, Shl32, Shr32;
    var h, l, s := high, low, shift;
    if s >= 32 {
      ShlHigh(high, low, shift);
      h, l, s := l, 0, s - 32;
      ShiftZero(Shl32(h, s), s);
      ShiftZero(Shl32(h, s), 32 - s);
      if s == 0 { ShlByNone(h); }
    } else if s > 0 {
      ShlWords(high, low, shift);
    } else {
      Pow2Small();
      DivModUnique(Pair(h, l), W64, 0, Pair(h, l));
    }
    if s > 0 {
      return Or32(Shl32(h, s), Shr32(l, 32 - s)), Shl32(l, s);
    }
    return h, l;
  }

  lemma ShlByNone(x: Word32)
    ensures Shl32(x, 0) == x && Shr32(x, 0) == x
  {
    DivModUnique(x, W32, 0, x);
  }

  /** __aeabi_llsr */
  method Llsr(high: Word32, low: Word32, shift: int) returns (rh: Word32, rl: Word32)
    requires shift < 64
    ensures shift < 0 ==> rh == high && rl == low
    ensures shift >= 0 ==> Pair(rh, rl) == Pair(high, low) / Pow2(shift)
  {
    hide Pow2, Or32, Shl32, Shr32;
    var h, l, s := high, low, shift;
    if s >= 32 {
      ShrHigh(high, low, shift);
      h, l, s := 0, h, s - 32;
      ShiftZero(Shr32(l, s), s);
      ShiftZero(Shr32(l, s), 32 - s);
      if s == 0 { ShlByNone(l); }
    } else if s > 0 {
      UnshiftedWords(high, low, shift);
    } else {
      Pow2Small();
    }
    if s > 0 {
      return Shr32(h, s), Or32(Shl32(h, 32 - s), Shr32(l, s));
    }
    return h, l;
  }

  /** __aeabi_lasr */
  method Lasr(high: Word32, low: Word32, shift: int) returns (rh: Word32, rl: Word32)
    requires shift < 64
    ensures shift < 0 ==> rh == high && rl == low
    ensures shift >= 0 ==> Signed64(Pair(rh, rl)) == Signed64(Pair(high, low)) / Pow2(shift)
  {
    hide Pow2, Or32, Shl32, Shr32, Sar32, Signed64;
    var h, l, s := high, low, shift;
    if s >= 32 {
      h, l, s := Sar32(h, 31), h, s - 32;
      SarHigh(high, low, 32);
      SarByNone(high);
      Pow2_64();
      Pow2Split(shift);
      FloorDivDiv(Signed64(Pair(high, low)), W32, Pow2(s));
    }
    Pow2Small();
    if s > 0 {
      SarPair(h, l, s);
      OrWords32(Shl32(h, 32 - s), Shr32(l, s));
      return Sar32(h, s), Or32(Shl32(h, 32 - s), Shr32(l, s));
    }
    return h, l;
  }

  lemma SarByNone(x: Word32)
    ensures Sar32(x, 0) == x
  {
    DivModUnique(Signed32(x), W32, if x < W32 / 2 then 0 else -1, x);
  }
}
