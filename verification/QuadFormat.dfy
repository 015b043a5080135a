/** IEEE 754-2008 binary128 numbers in a pair of words, and what the arithmetic of
    lib/lib-arm64.c owes on them: exact real results, correctly rounded. */
module QuadFormat {
  import opened Power2
  import opened Words
  import opened Rounding

  function Sign(f: U128): nat { f.x1 / 0x8000_0000_0000_0000 }

  /** The encoding without its sign. */
  function Code(f: U128): nat { f.x1 % 0x8000_0000_0000_0000 * W64 + f.x0 }

  const INF_CODE: nat := 0x7fff_0000_0000_0000 * W64

  // Powers of two, by their exponents.
  const P112: nat := 0x1_0000_0000_0000 * W64
  const P113: nat := 2 * P112
  const P114: nat := 4 * P112
  const P115: nat := 8 * P112

  predicate IsNaN(f: U128) { Code(f) > INF_CODE }

  predicate IsInf(f: U128) { Code(f) == INF_CODE }

  predicate IsFinite(f: U128) { Code(f) < INF_CODE }

  predicate IsZero(f: U128) { Code(f) == 0 }

  predicate IsSignalling(f: U128) {
    IsNaN(f) && f.x1 / 0x8000_0000_0000 % 2 == 0
  }

  function Value(f: U128): real {
    if Sign(f) == 1 then -Magnitude(Quad, Code(f)) else Magnitude(Quad, Code(f))
  }

  function Abs(v: real): real { if v < 0.0 then -v else v }

  function Xor(s: nat, t: nat): nat { if s == t then 0 else 1 }

  function Negated(f: U128): U128 {
    if Sign(f) == 1 then f.(x1 := f.x1 - 0x8000_0000_0000_0000) else f.(x1 := f.x1 + 0x8000_0000_0000_0000)
  }

  function Pack(sgn: nat, code: nat): (f: U128)
    requires sgn <= 1 && code < W128 / 2
    ensures Sign(f) == sgn && Code(f) == code
  {
    U128(code % W64, sgn * 0x8000_0000_0000_0000 + code / W64)
  }

  lemma PackFields(f: U128)
    ensures Sign(f) <= 1 && Code(f) < W128 / 2 && f == Pack(Sign(f), Code(f))
  {}

  lemma InfCodeIsInfinity()
    ensures Infinity(Quad) == INF_CODE && Unit(Quad) == -16494
    ensures Pow2(112) == P112
  {
    Pow2Constants();
    Pow2Add(48, 64);
  }

  lemma Pow2Constants()
    ensures Pow2(0) == 1 && Pow2(1) == 2 && Pow2(2) == 4 && Pow2(3) == 8
    ensures Pow2(13) == 0x2000 && Pow2(15) == 0x8000 && Pow2(16) == 0x1_0000
    ensures Pow2(47) == 0x8000_0000_0000
    ensures Pow2(48) == 0x1_0000_0000_0000
    ensures Pow2(61) == 0x2000_0000_0000_0000 && Pow2(62) == 0x4000_0000_0000_0000
    ensures Pow2(63) == 0x8000_0000_0000_0000 && Pow2(64) == W64
  {
    assert Pow2(12) == 0x1000;
    Pow2Add(16, 16);
    Pow2Add(32, 15);
    Pow2Add(48, 13);
    Pow2_64();
  }

  lemma Pow2Of14()
    ensures Pow2(14) == 0x4000
  {}

  // ----- what the operations owe

  /** The NaN with its quiet bit set and everything else kept. */
  function Quieted(f: U128): U128
    requires IsNaN(f)
  {
    if IsSignalling(f) then f.(x1 := f.x1 + 0x8000_0000_0000) else f
  }

  /** The first signalling operand, else the first NaN, made quiet. */
  function PropagatedNaN(a: U128, b: U128): U128
    requires IsNaN(a) || IsNaN(b)
  {
    if IsSignalling(a) then Quieted(a)
    else if IsSignalling(b) then Quieted(b)
    else if IsNaN(a) then a
    else b
  }

  const DEFAULT_NAN := U128(0xffff_ffff_ffff_ffff, 0x7fff_ffff_ffff_ffff)

  /** r is v correctly rounded, a zero result having the given sign. */
  ghost predicate Rounds(r: U128, v: real, zeroSign: nat) {
    && IsNearestEven(Quad, Code(r), Abs(v))
    && Sign(r) == if v < 0.0 then 1 else if v > 0.0 then 0 else zeroSign
  }

  /** Sections 5.4.1, 6.1, 6.2.3 and 6.3: r is a + b, or a - b when neg. */
  ghost predicate IsSum(a: U128, b: U128, neg: bool, r: U128) {
    var c := if neg then Negated(b) else b;
    if IsNaN(a) || IsNaN(b) then r == PropagatedNaN(a, b)
    else if IsInf(a) && IsInf(b) && Sign(a) != Sign(c) then r == DEFAULT_NAN
    else if IsInf(a) then r == a
    else if IsInf(b) then r == c
    else Rounds(r, Value(a) + Value(c), if Sign(a) == Sign(c) then Sign(a) else 0)
  }

  /** r is a * b: the sign is the exclusive or of the signs, even of a zero. */
  ghost predicate IsProduct(a: U128, b: U128, r: U128) {
    if IsNaN(a) || IsNaN(b) then r == PropagatedNaN(a, b)
    else if (IsInf(a) && IsZero(b)) || (IsZero(a) && IsInf(b)) then r == DEFAULT_NAN
    else
      && Sign(r) == Xor(Sign(a), Sign(b))
      && (if IsInf(a) || IsInf(b) then IsInf(r) else IsNearestEven(Quad, Code(r), Abs(Value(a) * Value(b))))
  }

  lemma ZeroMagnitude(f: U128)
    requires IsFinite(f)
    ensures Magnitude(Quad, Code(f)) >= 0.0
    ensures Magnitude(Quad, Code(f)) == 0.0 <==> IsZero(f)
  {
    hide Magnitude, Units, Pow2, Unit, Code;
    MagnitudeOf(Quad, 0, 0);
    UnitsNil(Unit(Quad));
    if Code(f) > 0 { MagnitudeMono(Quad, 0, Code(f)); }
  }

  /** r is a / b. */
  ghost predicate IsQuotient(a: U128, b: U128, r: U128) {
    if IsNaN(a) || IsNaN(b) then r == PropagatedNaN(a, b)
    else if (IsInf(a) && IsInf(b)) || (IsZero(a) && IsZero(b)) then r == DEFAULT_NAN
    else
      && Sign(r) == Xor(Sign(a), Sign(b))
      && (if IsInf(a) || IsZero(b) then IsInf(r)
          else if IsInf(b) then IsZero(r)
          else (ZeroMagnitude(b); IsNearestEven(Quad, Code(r), Abs(Value(a) / Value(b)))))
  }

  // ----- unpacked form

  function Exponent(f: U128): nat {
    var e := f.x1 / 0x1_0000_0000_0000 % 0x8000;
    if e == 0 then 1 else e
  }

  /** The fraction, with the hidden bit of a normal number. */
  function SignificandWords(f: U128): U128 {
    var h := if f.x1 / 0x1_0000_0000_0000 % 0x8000 == 0 then 0 else 0x1_0000_0000_0000;
    U128(f.x0, f.x1 % 0x1_0000_0000_0000 + h)
  }

  function Significand(f: U128): nat { Nat(SignificandWords(f)) }

  /** The significand and exponent give the magnitude; the exponent field shows
      infinities and NaNs, and the fraction tells them apart. */
  lemma UnpackedMeaning(f: U128)
    ensures Magnitude(Quad, Code(f)) == Units(Significand(f), Exponent(f) - 16495)
    ensures 1 <= Exponent(f) <= 32767
    ensures Exponent(f) == 32767 <==> !IsFinite(f)
    ensures IsNaN(f) <==> Exponent(f) == 32767 && (f.x0 != 0 || f.x1 % 0x1_0000_0000_0000 != 0)
    ensures Significand(f) < P113
    ensures Significand(f) == 0 <==> IsZero(f)
    ensures Exponent(f) > 1 ==> Significand(f) >= P112
  {
    InfCodeIsInfinity();
    var e, h := f.x1 / 0x1_0000_0000_0000 % 0x8000, f.x1 % 0x1_0000_0000_0000;
    assert f.x1 % 0x8000_0000_0000_0000 == e * 0x1_0000_0000_0000 + h;
    var frac := h * W64 + f.x0;
    assert Code(f) == e * Pow2(112) + frac;
    hide Pow2, Units, Magnitude;
    MagnitudeOf(Quad, e, frac);
  }
}
