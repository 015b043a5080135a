/** Widening conversions to binary128 (lib/lib-arm64.c:374-411): exact, except that a subnormal
    operand is taken for a normal one. */
module QuadWiden {
  import opened Power2
  import opened Words
  import opened Words32
  import opened Rounding
  import opened QuadFormat
  import opened QuadNarrow

  function ExtendSfTf2(a: Word32): U128 {
    if Shl32(a, 1) == 0 then
      U128(0, Shl(a, 32))
    else if Shr32(Shl32(a, 1), 24) == 255 then
      U128(0, Or(Or(Or(0x7fff_0000_0000_0000, Shl(Shr(a, 31), 63)), Shr(Shl(a, 41), 16)),
                 Shl(NonZero(Shl32(a, 9)), 47)))
    else
      U128(0, Or(Or(Shl(Shr(a, 31), 63), Shl(Plus(And(Shr(a, 23), 255), 16256), 48)), Shr(Shl(a, 41), 16)))
  }

  function ExtendDfTf2(a: Word): U128 {
    if Shl(a, 1) == 0 then
      U128(Shl(a, 60), a)
    else if Shr(Shl(a, 1), 53) == 2047 then
      U128(Shl(a, 60),
           Or(Or(Or(0x7fff_0000_0000_0000, Shl(Shr(a, 63), 63)), Shr(Shl(a, 12), 16)), Shl(NonZero(Shl(a, 12)), 47)))
    else
      U128(Shl(a, 60), Or(Or(Shl(Shr(a, 63), 63), Shl(Plus(And(Shr(a, 52), 2047), 15360), 48)), Shr(Shl(a, 12), 16)))
  }

  // ----- single precision

  lemma SingleAsWords(a: Word32)
    ensures SingleFields(a, a / 0x8000_0000, a / 0x80_0000 % 0x100, a % 0x80_0000)
  {
    FormatConstants();
    Pow2Constants();
    assert Pow2(24) == 0x100_0000 && Pow2(9) == 0x200 && Pow2(8) == 0x100;
    hide BitOr, BitAnd, Pow2, Shl32, Shl, And;
    Shl32Low(a, 31);
    Shl32Low(a, 23);
    ShlLow(a, 23);
    AndMask(Shr(a, 23), 8);
    SingleSplit(a);
  }

  lemma SingleSplit(a: nat)
    requires a < W32
    ensures a == a / 0x8000_0000 * 0x8000_0000 + a / 0x80_0000 % 0x100 * 0x80_0000 + a % 0x80_0000
    ensures a % 0x8000_0000 == a / 0x80_0000 % 0x100 * 0x80_0000 + a % 0x80_0000
    ensures a % 0x8000_0000 * 2 / 0x100_0000 == a / 0x80_0000 % 0x100
  {
    DivDiv(a, 0x80_0000, 0x100);
  }

  /** Sign, exponent field and upper fraction merged into a high word. */
  lemma MergeHigh(s: nat, e: nat, h: nat)
    requires s <= 1 && e < 0x8000 && h < 0x1_0000_0000_0000
    ensures Shl(s, 63) == s * 0x8000_0000_0000_0000 && Shl(e, 48) == e * 0x1_0000_0000_0000
    ensures Or(Or(Shl(s, 63), Shl(e, 48)), h) == s * 0x8000_0000_0000_0000 + e * 0x1_0000_0000_0000 + h
    ensures Or(0x7fff_0000_0000_0000, Shl(s, 63)) == s * 0x8000_0000_0000_0000 + 0x7fff_0000_0000_0000
    ensures Or(Or(0x7fff_0000_0000_0000, Shl(s, 63)), h) == s * 0x8000_0000_0000_0000 + 0x7fff_0000_0000_0000 + h
  {
    Pow2Constants();
    hide BitOr, Pow2;
    assert Shl(s, 63) == s * 0x8000_0000_0000_0000 && Shl(e, 48) == e * 0x1_0000_0000_0000;
    hide Shl;
    OrDisjoint(s, e * 0x1_0000_0000_0000, 63);
    OrDisjoint(s * 0x8000 + e, h, 48);
    OrDisjoint(s, 0x7fff_0000_0000_0000, 63);
    OrDisjoint(s * 0x8000 + 0x7fff, h, 48);
  }

  /** Setting the quiet bit of a NaN. */
  lemma MergeQuietBit(s: nat, h: nat, b: nat)
    requires s <= 1 && h < 0x1_0000_0000_0000 && b <= 1
    ensures var x := s * 0x8000_0000_0000_0000 + 0x7fff_0000_0000_0000 + h;
            && (b == 0 ==> Or(x, Shl(b, 47)) == x)
            && (b == 1 ==> Or(x, Shl(b, 47)) == x - h + h % 0x8000_0000_0000 + 0x8000_0000_0000)
  {
    Pow2Constants();
    hide BitOr, Pow2;
    var x := s * 0x8000_0000_0000_0000 + 0x7fff_0000_0000_0000 + h;
    var t, l := h / 0x8000_0000_0000, h % 0x8000_0000_0000;
    var u := s * 0x1_0000 + 0xfffe + t;
    assert x == u * 0x8000_0000_0000 + l;
    OrSplit(u, b, l, 0, 47);
    OrOne(u);
    OrOne(l);
  }

  lemma HighWordFields(s: nat, e: nat, h: nat, l: Word)
    requires s <= 1 && e < 0x8000 && h < 0x1_0000_0000_0000
    ensures var r := U128(l, s * 0x8000_0000_0000_0000 + e * 0x1_0000_0000_0000 + h);
            && Sign(r) == s && Code(r) == (e * 0x1_0000_0000_0000 + h) * W64 + l
            && (e == 0x7fff && h >= 0x8000_0000_0000 ==> IsNaN(r) && !IsSignalling(r))
            && (e == 0x7fff && h == 0 && l == 0 ==> IsInf(r))
  {
    var x := s * 0x8000_0000_0000_0000 + e * 0x1_0000_0000_0000 + h;
    DivModUnique(x, 0x8000_0000_0000_0000, s, e * 0x1_0000_0000_0000 + h);
    if h >= 0x8000_0000_0000 {
      DivModUnique(x, 0x8000_0000_0000, s * 0x1_0000 + 2 * e + 1, h - 0x8000_0000_0000);
    }
  }

  /** a has sign s, exponent field e and fraction f, as the word operators of the code see it. */
  ghost predicate SingleFields(a: Word32, s: nat, e: nat, f: nat) {
    && s <= 1 && e < 0x100 && f < 0x80_0000
    && a == s * 0x8000_0000 + e * 0x80_0000 + f
    && (Shl32(a, 1) == 0 <==> e == 0 && f == 0)
    && Shr32(Shl32(a, 1), 24) == e
    && (Shl32(a, 9) == 0 <==> f == 0)
    && Shr(a, 31) == s && And(Shr(a, 23), 255) == e && Shr(Shl(a, 41), 16) == f * 0x200_0000
  }

  lemma ExtendSingleZero(a: Word32, s: nat)
    requires SingleFields(a, s, 0, 0)
    ensures Sign(ExtendSfTf2(a)) == s && Code(ExtendSfTf2(a)) == 0
  {
    hide BitOr, BitAnd, Shl32, Shr32, Sign, Code, Shr, Shl, Pow2;
    Pow2_64();
    ShlFits(a, 32);
    HighWordFields(s, 0, 0, 0);
  }

  lemma BelowQuietBit(s: nat, l: nat)
    requires l < 0x8000_0000_0000
    ensures (s * 0x8000_0000_0000_0000 + 0x7fff_8000_0000_0000 + l) % 0x8000_0000_0000 == l
  {
    DivModUnique(s * 0x8000_0000_0000_0000 + 0x7fff_8000_0000_0000 + l, 0x8000_0000_0000, s * 0x1_0000 + 0xffff, l);
  }

  lemma ExtendSingleSpecial(a: Word32, s: nat, f: nat)
    requires SingleFields(a, s, 255, f)
    ensures var r := ExtendSfTf2(a);
            && Sign(r) == s
            && (f == 0 ==> Code(r) == INF_CODE)
            && (f != 0 ==> IsNaN(r) && !IsSignalling(r) && r.x0 == 0)
            && (f != 0 ==> r.x1 % 0x8000_0000_0000 == f % 0x40_0000 * 0x200_0000)
  {
    hide BitOr, BitAnd, Shl32, Shr32, Sign, Code, IsNaN, IsSignalling, Shl, Shr, Pow2;
    var h := f * 0x200_0000;
    BelowQuietBit(s, h % 0x8000_0000_0000);
    DivModUnique(h, 0x8000_0000_0000, f / 0x40_0000, f % 0x40_0000 * 0x200_0000);
    MergeHigh(s, 0x7fff, h);
    MergeQuietBit(s, h, NonZero(Shl32(a, 9)));
    HighWordFields(s, 0x7fff, if f == 0 then h else h % 0x8000_0000_0000 + 0x8000_0000_0000, 0);
  }

  lemma ExtendSingleNumber(a: Word32, s: nat, e: nat, f: nat)
    requires SingleFields(a, s, e, f) && e != 255 && !(e == 0 && f == 0)
    ensures var r := ExtendSfTf2(a);
            Sign(r) == s && Code(r) == (e + 16256) * P112 + f * 0x200_0000 * W64
  {
    hide BitOr, BitAnd, Shl32, Shr32, Sign, Code, Shl, Shr, Pow2;
    MergeHigh(s, e + 16256, f * 0x200_0000);
    HighWordFields(s, e + 16256, f * 0x200_0000, 0);
  }

  /** __extendsftf2 keeps signs, zeros and infinities, quiets NaNs, and keeps the value of a
      finite number if and only if it is not subnormal. */
  lemma ExtendSingle(a: Word32)
    ensures var r, c := ExtendSfTf2(a), a % 0x8000_0000;
            && Sign(r) == a / 0x8000_0000
            && (c == Infinity(Single) ==> IsInf(r))
            && (c > Infinity(Single) ==> IsNaN(r) && !IsSignalling(r))
            && (c < Infinity(Single) ==>
                  && IsFinite(r)
                  && (Magnitude(Quad, Code(r)) == Magnitude(Single, c) <==> !(0 < c < 0x80_0000)))
  {
    SingleAsWords(a);
    SingleSplit(a);
    ExtendSingleFields(a, a / 0x8000_0000, a / 0x80_0000 % 0x100, a % 0x80_0000);
  }

  lemma ExtendSingleValue(e: nat, f: nat)
    requires e < 255 && f < 0x80_0000 && (e > 0 || f > 0)
    ensures (e + 16256) * P112 + f * 0x200_0000 * W64 < Infinity(Quad) && e * 0x80_0000 + f < Infinity(Single)
    ensures Magnitude(Quad, (e + 16256) * P112 + f * 0x200_0000 * W64) == Units(0x80_0000 + f, e - 150)
    ensures Magnitude(Quad, (e + 16256) * P112 + f * 0x200_0000 * W64) == Magnitude(Single, e * 0x80_0000 + f) <==>
              e > 0
  {
    hide Magnitude, Pow2, Units;
    FormatConstants();
    InfCodeIsInfinity();
    MagnitudeOf(Quad, e + 16256, f * 0x200_0000 * W64);
    MagnitudeOf(Single, e, f);
    Rescale(e - 150, 0x80_0000 + f);
    if e == 0 {
      UnitsDouble(f, -150);
      UnitsMono2(0x80_0000 + f, 2 * f, -150);
    }
  }

  lemma ExtendSingleFields(a: Word32, s: nat, e: nat, f: nat)
    requires SingleFields(a, s, e, f)
    ensures var r, c := ExtendSfTf2(a), e * 0x80_0000 + f;
            && Sign(r) == s
            && (c == Infinity(Single) ==> IsInf(r))
            && (c > Infinity(Single) ==> IsNaN(r) && !IsSignalling(r))
            && (c < Infinity(Single) ==>
                  && IsFinite(r)
                  && (Magnitude(Quad, Code(r)) == Magnitude(Single, c) <==> !(0 < c < 0x80_0000)))
  {
    hide ExtendSfTf2, Magnitude, Pow2, IsSignalling, BitOr, BitAnd;
    FormatConstants();
    InfCodeIsInfinity();
    if e == 0 && f == 0 {
      ExtendSingleZero(a, s);
      MagnitudeOf(Quad, 0, 0);
      MagnitudeOf(Single, 0, 0);
      UnitsNil(Unit(Quad));
      UnitsNil(Unit(Single));
    } else if e == 255 {
      ExtendSingleSpecial(a, s, f);
    } else {
      ExtendSingleNumber(a, s, e, f);
      ExtendSingleValue(e, f);
    }
  }

  lemma Rescale(e: int, m: nat)
    ensures Units(m * 0x200_0000 * W64, e - 89) == Units(m, e)
  {
    FormatConstants();
    Pow2_64();
    Pow2Add(25, 64);
    hide Units, Pow2;
    UnitsShift(m, e - 89, 89);
  }

  lemma UnitsMono2(x: int, y: int, e: int)
    ensures Units(x, e) == Units(y, e) <==> x == y
  {
    hide Units;
    UnitsMono(x, y, e);
    UnitsMono(y, x, e);
  }

  /** What the code takes a subnormal for: a number of the least exponent with a hidden bit. */
  lemma SubnormalSingle(a: Word32)
    requires 0 < a % 0x8000_0000 < 0x80_0000
    ensures Magnitude(Quad, Code(ExtendSfTf2(a))) == Units(0x80_0000 + a % 0x8000_0000, -150)
  {
    hide ExtendSfTf2, Magnitude, Units, SingleFields, Sign, Code;
    SingleAsWords(a);
    SubnormalFields(a);
    ExtendSingleNumber(a, a / 0x8000_0000, 0, a % 0x80_0000);
    ExtendSingleValue(0, a % 0x80_0000);
  }

  lemma SubnormalFields(a: nat)
    requires a < W32 && 0 < a % 0x8000_0000 < 0x80_0000
    ensures a / 0x80_0000 % 0x100 == 0 && a % 0x80_0000 == a % 0x8000_0000
  {
    SingleSplit(a);
  }

  lemma SingleNaNFields(a: nat)
    requires a < W32 && a % 0x8000_0000 > 0x7f80_0000
    ensures a / 0x80_0000 % 0x100 == 255 && a % 0x80_0000 > 0 && a % 0x80_0000 % 0x40_0000 == a % 0x40_0000
  {
    SingleSplit(a);
    DivDiv(a, 0x40_0000, 2);
    DivModUnique(a % 0x80_0000, 0x40_0000, a / 0x40_0000 % 2, a % 0x40_0000);
  }

  /** The payload of a NaN is widened below the quiet bit. */
  lemma SinglePayload(a: Word32)
    requires a % 0x8000_0000 > Infinity(Single)
    ensures var r := ExtendSfTf2(a); r.x0 == 0 && r.x1 % 0x8000_0000_0000 == a % 0x40_0000 * 0x200_0000
  {
    hide ExtendSfTf2, SingleFields, IsNaN, IsSignalling, Sign, Code, Infinity;
    FormatConstants();
    SingleAsWords(a);
    SingleNaNFields(a);
    ExtendSingleSpecial(a, a / 0x8000_0000, a % 0x80_0000);
  }

  /** The least single-precision subnormal is not widened to itself. */
  lemma SubnormalIsMisread()
    ensures Magnitude(Quad, Code(ExtendSfTf2(1))) != Magnitude(Single, 1)
  {
    ExtendSingle(1);
    FormatConstants();
  }

  /** Narrowing undoes widening on every zero, normal number and infinity. */
  lemma SingleRoundTrip(a: Word32, x: nat)
    requires var c := a % 0x8000_0000; (c == 0 || c >= 0x80_0000) && c <= Infinity(Single)
    requires IsNarrowed(Single, 0x8000_0000, ExtendSfTf2(a), x)
    ensures x == a
  {
    hide Magnitude, ExtendSfTf2, IsNearestEven;
    ExtendSingle(a);
    var r, c := ExtendSfTf2(a), a % 0x8000_0000;
    var d: nat :| IsNarrowCode(Single, r, d) && d < 0x8000_0000 && x == Sign(r) * 0x8000_0000 + d;
    if c < Infinity(Single) {
      ExactIsNearest(Single, c);
      NearestIsUnique(Single, c, d, Magnitude(Single, c));
    }
  }

  // ----- double precision

  const H52: nat := 0x10_0000_0000_0000

  /** a has sign s, exponent field e and fraction 16 * h + l, as the word operators see it. */
  ghost predicate DoubleFields(a: Word, s: nat, e: nat, h: nat, l: nat) {
    && s <= 1 && e < 0x800 && h < 0x1_0000_0000_0000 && l < 0x10
    && a == s * 0x8000_0000_0000_0000 + e * H52 + h * 0x10 + l
    && (Shl(a, 1) == 0 <==> e == 0 && h == 0 && l == 0)
    && Shr(Shl(a, 1), 53) == e
    && (Shl(a, 12) == 0 <==> h == 0 && l == 0)
    && Shr(a, 63) == s && And(Shr(a, 52), 2047) == e
    && Shr(Shl(a, 12), 16) == h && Shl(a, 60) == l * 0x1000_0000_0000_0000
  }

  lemma DoubleAsWords(a: Word)
    ensures DoubleFields(a, a / 0x8000_0000_0000_0000, a / H52 % 0x800, a % H52 / 0x10, a % 0x10)
  {
    FormatConstants();
    Pow2Constants();
    MoreConstants();
    hide BitOr, BitAnd, Pow2;
    ShlLow(a, 63);
    ShlLow(a, 52);
    ShlLow(a, 4);
    AndMask(Shr(a, 52), 11);
    hide Shl;
    DoubleSplit(a);
  }

  lemma MoreConstants()
    ensures Pow2(4) == 0x10 && Pow2(11) == 0x800 && Pow2(12) == 0x1000
    ensures Pow2(53) == 2 * H52 && Pow2(60) == 0x1000_0000_0000_0000
  {
    Pow2Constants();
    Pow2Add(48, 5);
    Pow2Add(48, 12);
  }

  lemma DoubleSplit(a: nat)
    requires a < W64
    ensures a == a / 0x8000_0000_0000_0000 * 0x8000_0000_0000_0000 + a / H52 % 0x800 * H52 + a % H52
    ensures a % 0x8000_0000_0000_0000 == a / H52 % 0x800 * H52 + a % H52
    ensures a % H52 == a % H52 / 0x10 * 0x10 + a % 0x10
    ensures a % 0x8000_0000_0000_0000 * 2 / (2 * H52) == a / H52 % 0x800
    ensures a % H52 * 0x1000 / 0x1_0000 == a % H52 / 0x10
  {
    DivDiv(a, H52, 0x800);
    DivDiv(a, 0x10, 0x1_0000_0000_0000);
  }

  lemma ExtendDoubleZero(a: Word, s: nat)
    requires DoubleFields(a, s, 0, 0, 0)
    ensures Sign(ExtendDfTf2(a)) == s && Code(ExtendDfTf2(a)) == 0
  {
    hide BitOr, BitAnd, Shl, Sign, Code, Shr, Pow2;
    HighWordFields(s, 0, 0, 0);
  }

  lemma ExtendDoubleSpecial(a: Word, s: nat, h: nat, l: nat)
    requires DoubleFields(a, s, 2047, h, l)
    ensures var r := ExtendDfTf2(a);
            && Sign(r) == s
            && (h == 0 && l == 0 ==> Code(r) == INF_CODE)
            && (h != 0 || l != 0 ==> IsNaN(r) && !IsSignalling(r) && r.x0 == l * 0x1000_0000_0000_0000)
            && (h != 0 || l != 0 ==> r.x1 % 0x8000_0000_0000 == h % 0x8000_0000_0000)
  {
    hide BitOr, BitAnd, Shl, Shr, Sign, Code, IsNaN, IsSignalling, Pow2;
    BelowQuietBit(s, h % 0x8000_0000_0000);
    MergeHigh(s, 0x7fff, h);
    MergeQuietBit(s, h, NonZero(Shl(a, 12)));
    HighWordFields(s, 0x7fff, if h == 0 && l == 0 then h else h % 0x8000_0000_0000 + 0x8000_0000_0000,
                   l * 0x1000_0000_0000_0000);
  }

  lemma ExtendDoubleNumber(a: Word, s: nat, e: nat, h: nat, l: nat)
    requires DoubleFields(a, s, e, h, l) && e != 2047 && !(e == 0 && h == 0 && l == 0)
    ensures var r := ExtendDfTf2(a);
            Sign(r) == s && Code(r) == (e + 15360) * P112 + (h * 0x10 + l) * 0x1000_0000_0000_0000
  {
    hide BitOr, BitAnd, Shl, Shr, Sign, Code, Pow2;
    MergeHigh(s, e + 15360, h);
    HighWordFields(s, e + 15360, h, l * 0x1000_0000_0000_0000);
  }

  lemma RescaleDouble(e: int, m: nat)
    ensures Units(m * 0x1000_0000_0000_0000, e - 60) == Units(m, e)
  {
    MoreConstants();
    hide Units, Pow2;
    UnitsShift(m, e - 60, 60);
  }

  lemma ExtendDoubleValue(e: nat, f: nat)
    requires e < 2047 && f < H52 && (e > 0 || f > 0)
    ensures Magnitude(Quad, (e + 15360) * P112 + f * 0x1000_0000_0000_0000) == Units(H52 + f, e - 1075)
    ensures (e + 15360) * P112 + f * 0x1000_0000_0000_0000 < Infinity(Quad) && e * H52 + f < Infinity(Double)
    ensures Magnitude(Quad, (e + 15360) * P112 + f * 0x1000_0000_0000_0000) == Magnitude(Double, e * H52 + f) <==> e > 0
  {
    hide Magnitude, Pow2;
    FormatConstants();
    InfCodeIsInfinity();
    MagnitudeOf(Quad, e + 15360, f * 0x1000_0000_0000_0000);
    MagnitudeOf(Double, e, f);
    RescaleDouble(e - 1075, H52 + f);
    if e == 0 {
      UnitsDouble(f, -1075);
      hide Units;
      UnitsMono2(H52 + f, 2 * f, -1075);
    }
  }

  lemma ExtendDoubleFields(a: Word, s: nat, e: nat, h: nat, l: nat)
    requires DoubleFields(a, s, e, h, l)
    ensures var r, c := ExtendDfTf2(a), e * H52 + h * 0x10 + l;
            && Sign(r) == s
            && (c == Infinity(Double) ==> IsInf(r))
            && (c > Infinity(Double) ==> IsNaN(r) && !IsSignalling(r))
            && (c < Infinity(Double) ==>
                  && IsFinite(r)
                  && (Magnitude(Quad, Code(r)) == Magnitude(Double, c) <==> !(0 < c < H52)))
  {
    hide ExtendDfTf2, Magnitude, Pow2, IsSignalling, BitOr, BitAnd;
    FormatConstants();
    InfCodeIsInfinity();
    var f := h * 0x10 + l;
    if e == 0 && f == 0 {
      ExtendDoubleZero(a, s);
      MagnitudeOf(Quad, 0, 0);
      MagnitudeOf(Double, 0, 0);
      UnitsNil(Unit(Quad));
      UnitsNil(Unit(Double));
    } else if e == 2047 {
      ExtendDoubleSpecial(a, s, h, l);
    } else {
      ExtendDoubleNumber(a, s, e, h, l);
      ExtendDoubleValue(e, f);
    }
  }

  /** __extenddftf2, likewise. */
  lemma ExtendDouble(a: Word)
    ensures var r, c := ExtendDfTf2(a), a % 0x8000_0000_0000_0000;
            && Sign(r) == a / 0x8000_0000_0000_0000
            && (c == Infinity(Double) ==> IsInf(r))
            && (c > Infinity(Double) ==> IsNaN(r) && !IsSignalling(r))
            && (c < Infinity(Double) ==>
                  && IsFinite(r)
                  && (Magnitude(Quad, Code(r)) == Magnitude(Double, c) <==> !(0 < c < H52)))
  {
    hide ExtendDfTf2, Magnitude, Pow2, IsSignalling, BitOr, BitAnd, Infinity;
    DoubleAsWords(a);
    DoubleSplit(a);
    ExtendDoubleFields(a, a / 0x8000_0000_0000_0000, a / H52 % 0x800, a % H52 / 0x10, a % 0x10);
  }

  lemma SubnormalDoubleFields(a: nat)
    requires a < W64 && 0 < a % 0x8000_0000_0000_0000 < H52
    ensures a / H52 % 0x800 == 0 && a % H52 == a % 0x8000_0000_0000_0000
    ensures a % H52 / 0x10 * 0x10 + a % 0x10 == a % H52
    ensures !(a % H52 / 0x10 == 0 && a % 0x10 == 0)
  {
    DoubleSplit(a);
  }

  lemma SubnormalDoubleAs(a: Word, s: nat, h: nat, l: nat)
    requires DoubleFields(a, s, 0, h, l) && 0 < h * 0x10 + l < H52
    ensures Magnitude(Quad, Code(ExtendDfTf2(a))) == Units(H52 + (h * 0x10 + l), -1075)
  {
    hide ExtendDfTf2, Magnitude, Units, DoubleFields, Sign, Code, Infinity;
    ExtendDoubleNumber(a, s, 0, h, l);
    ExtendDoubleValue(0, h * 0x10 + l);
  }

  lemma SubnormalDouble(a: Word)
    requires 0 < a % 0x8000_0000_0000_0000 < H52
    ensures Magnitude(Quad, Code(ExtendDfTf2(a))) == Units(H52 + a % 0x8000_0000_0000_0000, -1075)
  {
    hide ExtendDfTf2, Magnitude, Units, DoubleFields, Code;
    DoubleAsWords(a);
    SubnormalDoubleFields(a);
    SubnormalDoubleAs(a, a / 0x8000_0000_0000_0000, a % H52 / 0x10, a % 0x10);
  }

  lemma DoubleNaNFields(a: nat)
    requires a < W64 && a % 0x8000_0000_0000_0000 > 0x7ff0_0000_0000_0000
    ensures a / H52 % 0x800 == 2047 && (a % H52 / 0x10 != 0 || a % 0x10 != 0)
  {
    DoubleSplit(a);
  }

  lemma DoublePayload(a: Word)
    requires a % 0x8000_0000_0000_0000 > Infinity(Double)
    ensures var r := ExtendDfTf2(a);
            r.x0 == a % 0x10 * 0x1000_0000_0000_0000 && r.x1 % 0x8000_0000_0000 == a % 0x8_0000_0000_0000 / 0x10
  {
    hide ExtendDfTf2, DoubleFields, IsNaN, IsSignalling, Sign, Code, Infinity;
    FormatConstants();
    DoubleAsWords(a);
    DoubleNaNFields(a);
    ExtendDoubleSpecial(a, a / 0x8000_0000_0000_0000, a % H52 / 0x10, a % 0x10);
    PayloadHalves(a);
  }

  lemma PayloadHalves(a: nat)
    ensures a % H52 / 0x10 % 0x8000_0000_0000 == a % 0x8_0000_0000_0000 / 0x10
  {
    DivDiv(a, 0x8_0000_0000_0000, 2);
    var b, l := a / 0x8_0000_0000_0000 % 2, a % 0x8_0000_0000_0000;
    DivModUnique(a % H52, 0x10, b * 0x8000_0000_0000 + l / 0x10, l % 0x10);
    DivModUnique(b * 0x8000_0000_0000 + l / 0x10, 0x8000_0000_0000, b, l / 0x10);
  }

  /** Nor is the least double-precision subnormal. */
  lemma SubnormalDoubleIsMisread()
    ensures Magnitude(Quad, Code(ExtendDfTf2(1))) != Magnitude(Double, 1)
  {
    hide ExtendDfTf2, Magnitude;
    ExtendDouble(1);
    FormatConstants();
  }

  lemma DoubleRoundTrip(a: Word, x: nat)
    requires var c := a % 0x8000_0000_0000_0000; (c == 0 || c >= H52) && c <= Infinity(Double)
    requires IsNarrowed(Double, 0x8000_0000_0000_0000, ExtendDfTf2(a), x)
    ensures x == a
  {
    hide Magnitude, ExtendDfTf2, IsNearestEven;
    ExtendDouble(a);
    var r, c := ExtendDfTf2(a), a % 0x8000_0000_0000_0000;
    var d: nat :| IsNarrowCode(Double, r, d) && d < 0x8000_0000_0000_0000 && x == Sign(r) * 0x8000_0000_0000_0000 + d;
    if c < Infinity(Double) {
      ExactIsNearest(Double, c);
      NearestIsUnique(Double, c, d, Magnitude(Double, c));
    }
  }
}
