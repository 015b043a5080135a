/** Conversions between binary128 and the two narrower formats (lib/lib-arm64.c:374-474). */
module QuadNarrow {
  import opened Power2
  import opened Words
  import opened Words32
  import opened Rounding
  import opened Sticky
  import opened QuadFormat
  import opened QuadParts
  import opened QuadNaN

  // ----- rounding to a narrower format

  /** The guarded significand of the narrow format: dropping sh bits, and more when the
      result is subnormal. */
  function NarrowSignificand(m: nat, sh: nat, eb: int): nat {
    StickyShr(m, if eb < 0 then sh - eb else sh)
  }

  lemma NarrowIsNearest(F: Format, m: nat, exp: int, sh: nat, eb: int)
    requires F.fracBits >= 1 && F.fracBits + sh == 110
    requires Unit(F) + eb - 2 == exp - 16495 + sh
    requires m < P113 && (eb > 0 ==> m >= P112)
    ensures NarrowSignificand(m, sh, eb) < 8 * Pow2(F.fracBits)
    ensures IsNearestEven(F, RoundGuarded(F, if eb < 0 then 0 else eb, NarrowSignificand(m, sh, eb)),
                          Units(m, exp - 16495))
  {
    hide Pow2, Units, Unit, RoundGuarded, IsNearestEven, StickyAt, StickyShr;
    var n := if eb < 0 then sh - eb else sh;
    var v := Units(m, exp - 16495);
    StickyExact(m, exp - 16495);
    StickyRight(m, exp - 16495, 0, v, n);
    NarrowSize(m, F.fracBits, sh, n);
    GuardedIsNearest(F, if eb < 0 then 0 else eb, StickyShr(m, n), v);
  }

  lemma NarrowSize(m: nat, fb: nat, sh: nat, n: nat)
    requires fb + sh == 110 && sh <= n && m < P113
    ensures StickyShr(m, n) / 4 < 2 * Pow2(fb) && StickyShr(m, n) < 8 * Pow2(fb)
    ensures m >= P112 && n == sh ==> StickyShr(m, n) / 4 >= Pow2(fb)
  {
    hide Pow2;
    Pow2Add(fb, sh);
    Pow2Of110();
    Pow2Mono(sh, n);
    var p, q := Pow2(fb), Pow2(sh);
    DivLess(m, q, 8 * p) by { MulAssoc(8, p, q); }
    DivShrinks(m, q, Pow2(n));
    if m >= P112 { DivAtLeast(m, q, 4 * p) by { MulAssoc(4, p, q); } }
    OddBelow(m / Pow2(n), p);
  }

  lemma OddBelow(q: nat, p: nat)
    requires q < 8 * p
    ensures q + 1 - q % 2 < 8 * p
  {}

  lemma Pow2Of110()
    ensures 8 * Pow2(110) == P113 && 4 * Pow2(110) == P112
  {
    Pow2Constants();
    assert Pow2(112) == 4 * Pow2(110);
    InfCodeIsInfinity();
  }

  /** Less than half the least subnormal rounds to zero. */
  lemma TinyIsZero(F: Format, m: nat, e: int)
    requires m < P113 && e + 113 <= Unit(F) - 1 && F.maxExp >= 1
    ensures IsNearestEven(F, 0, Units(m, e))
  {
    hide Units, Unit, Pow2, IsNearestEven, Magnitude;
    var d := Unit(F) - 1 - e;
    UnitsShift(1, e, d);
    Pow2Mono(113, d);
    assert Pow2(113) == P113 by { Pow2Of113(); }
    UnitsMono(m, Pow2(d), e);
    UnitsMono(0, m, e);
    UnitsNil(e);
    UnitsNil(Unit(F));
    UnitsDouble(1, Unit(F) - 1);
    UnitsAdd(1, 1, Unit(F) - 1);
    CodeMagnitude(F, 0, 0);
    CodeMagnitude(F, 0, 1);
    assert Infinity(F) >= 1;
    NearestOfTwo(F, 0, Units(m, e), 0);
  }

  lemma Pow2Of113()
    ensures Pow2(113) == P113
  {
    InfCodeIsInfinity();
  }

  /** A value of at least 2 to the power emax + 1 rounds to infinity. */
  lemma HugeIsInfinite(F: Format, m: nat, e: int)
    requires m >= P112 && e + 112 >= Unit(F) + F.fracBits + F.maxExp - 1 && F.maxExp >= 2
    ensures IsNearestEven(F, Infinity(F), Units(m, e))
  {
    hide Units, Unit, Pow2, IsNearestEven, Magnitude;
    var p := Pow2(F.fracBits);
    var t := Unit(F) + F.maxExp - 2;
    CodeMagnitude(F, F.maxExp - 2, 2 * p);
    assert (F.maxExp - 2) * p + 2 * p == Infinity(F);
    UnitsShift(1, t, F.fracBits + 1);
    assert Pow2(F.fracBits + 1) == 2 * p by { EvenPower(F.fracBits + 1); }
    UnitsShift(1, t + F.fracBits + 1, e + 112 - (t + F.fracBits + 1));
    UnitsMono(1, Pow2(e + 112 - (t + F.fracBits + 1)), t + F.fracBits + 1);
    UnitsShift(1, e, 112);
    InfCodeIsInfinity();
    UnitsMono(P112, m, e);
    NearestOfLarge(F, Units(m, e));
  }

  /** A NaN encoding with its quiet bit set. */
  ghost predicate IsQuietNaN(F: Format, c: nat)
    requires F.fracBits >= 1
  {
    Infinity(F) + Pow2(F.fracBits - 1) <= c < Infinity(F) + Pow2(F.fracBits)
  }

  /** c encodes the magnitude of f, correctly rounded to the format. */
  ghost predicate IsNarrowCode(F: Format, f: U128, c: nat)
    requires F.fracBits >= 1
  {
    if IsNaN(f) then IsQuietNaN(F, c)
    else if IsInf(f) then c == Infinity(F)
    else IsNearestEven(F, c, Magnitude(Quad, Code(f)))
  }

  /** x, with its sign bit of weight w, is f correctly rounded to the format. */
  ghost predicate IsNarrowed(F: Format, w: nat, f: U128, x: nat)
    requires F.fracBits >= 1
  {
    exists c: nat :: IsNarrowCode(F, f, c) && c < w && x == Sign(f) * w + c
  }

  lemma FormatConstants()
    ensures Unit(Single) == -149 && Infinity(Single) == 0x7f80_0000 && Pow2(23) == 0x80_0000 && Pow2(22) == 0x40_0000
    ensures Unit(Double) == -1074 && Infinity(Double) == 0x7ff0_0000_0000_0000
    ensures Pow2(52) == 0x10_0000_0000_0000 && Pow2(51) == 0x8_0000_0000_0000
    ensures Pow2(31) == 0x8000_0000 && Pow2(25) == 0x200_0000 && Pow2(41) == 0x200_0000_0000
  {
    Pow2Constants();
    assert Pow2(12) == 0x1000;
    Pow2Add(13, 12);
    Pow2Add(16, 15);
    Pow2Add(25, 16);
    Pow2Add(48, 4);
    assert Pow2(23) == 2 * Pow2(22) && Pow2(25) == 4 * Pow2(23) && Pow2(52) == 2 * Pow2(51);
  }

  // ----- to single precision

  lemma SingleGuard(mnt: U128)
    requires Nat(mnt) < P113
    ensures Or(Shr(mnt.x1, 23), NonZero(Or(mnt.x0, Shl(mnt.x1, 41)))) == StickyShr(Nat(mnt), 87)
  {
    hide BitOr, Pow2, Shl;
    Pow2Add(64, 23);
    Pow2_64();
    FormatConstants();
    NatBound(mnt);
    DivDiv(Nat(mnt), W64, 0x80_0000);
    ShlLow(mnt.x1, 23);
    OrIsZero(mnt.x0, Shl(mnt.x1, 41));
    OrOne(Shr(mnt.x1, 23));
    ScaledZero(mnt.x1 % 0x80_0000, mnt.x0);
  }

  lemma ScaledZero(h: nat, l: nat)
    ensures h * W64 + l == 0 <==> h == 0 && l == 0
  {}

  lemma Sticky32(x: Word32, n: nat)
    requires 0 < n < 32
    ensures Or32(Shr32(x, n), NonZero(Shl32(x, 32 - n))) == StickyShr(x, n)
  {
    hide BitOr, Pow2, Shl32;
    Shl32Low(x, n);
    OrOne(Shr32(x, n));
  }

  lemma MergeQuiet32(sgn: nat, payload: nat)
    requires sgn <= 1 && payload < 0x80_0000
    ensures var c := 0x7fc0_0000 + payload % 0x40_0000;
            Or32(Or32(0x7fc0_0000, Shl32(sgn, 31)), payload) == sgn * 0x8000_0000 + c && IsQuietNaN(Single, c)
  {
    FormatConstants();
    hide BitOr, Pow2;
    OrDisjoint(sgn, 0x7fc0_0000, 31);
    var h, t, l := sgn * 0x200 + 0x1ff, payload / 0x40_0000, payload % 0x40_0000;
    OrSplit(h, t, 0, l, 22);
    OrOne(h);
    OrZero(l);
    assert payload == t * 0x40_0000 + l && t <= 1;
  }

  lemma OrZero(x: nat)
    ensures BitOr(0, x) == x
  {}

  /** The upper bits of the payload survive. */
  lemma PayloadOfSingle(sgn: nat, f: U128, m: Word, payload: nat)
    requires m == SignificandWords(f).x1 && payload == Shr(m, 25) % 0x80_0000
    ensures (sgn * 0x8000_0000 + 0x7fc0_0000 + payload % 0x40_0000) % 0x40_0000 == f.x1 / 0x200_0000 % 0x40_0000
  {
    FormatConstants();
    hide Pow2;
    assert m % 0x1_0000_0000_0000 == f.x1 % 0x1_0000_0000_0000;
    hide SignificandWords;
    LowerPayload(m);
    LowerPayload(f.x1);
    DivModUnique(sgn * 0x8000_0000 + 0x7fc0_0000 + payload % 0x40_0000, 0x40_0000, sgn * 0x200 + 0x1ff,
                 payload % 0x40_0000);
  }

  lemma LowerPayload(x: nat)
    ensures x / 0x200_0000 % 0x80_0000 == x % 0x1_0000_0000_0000 / 0x200_0000
    ensures x / 0x200_0000 % 0x40_0000 == x % 0x1_0000_0000_0000 / 0x200_0000 % 0x40_0000
  {
    var q, l := x / 0x1_0000_0000_0000, x % 0x1_0000_0000_0000;
    DivModUnique(x, 0x200_0000, q * 0x80_0000 + l / 0x200_0000, l % 0x200_0000);
    DivModUnique(q * 0x80_0000 + l / 0x200_0000, 0x80_0000, q, l / 0x200_0000);
    DivDiv(x / 0x200_0000, 0x40_0000, 2);
    DivDiv(l / 0x200_0000, 0x40_0000, 2);
  }

  method TruncTfSf2(f: U128) returns (x: Word32)
    ensures IsNarrowed(Single, 0x8000_0000, f, x)
    ensures IsNaN(f) ==> x % 0x40_0000 == f.x1 / 0x200_0000 % 0x40_0000
  {
    hide BitOr, BitAnd, Shl, Shr, Shl32, Shr32, SignificandWords, Exponent, Pow2, Units, Magnitude, IsNearestEven;
    var sgn, exp, mnt := Unpack(f);
    UnpackedMeaning(f);
    PackFields(f);
    FormatConstants();
    NaNTests(f);
    SignBit32(sgn);
    if exp == 32767 && Or(mnt.x0, Shl(mnt.x1, 16)) != 0 {
      AndMask(Shr(mnt.x1, 25), 23);
      MergeQuiet32(sgn, And(Shr(mnt.x1, 25), 0x7f_ffff));
      PayloadOfSingle(sgn, f, mnt.x1, And(Shr(mnt.x1, 25), 0x7f_ffff));
      x := Or32(Or32(0x7fc0_0000, Shl32(sgn, 31)), And(Shr(mnt.x1, 25), 0x7f_ffff));
      NarrowedAs(Single, 0x8000_0000, f, x, 0x7fc0_0000 + And(Shr(mnt.x1, 25), 0x7f_ffff) % 0x40_0000);
    } else if exp > 16510 {
      HugeIsInfinite(Single, Nat(mnt), exp - 16495);
      x := Or32(0x7f80_0000, Shl32(sgn, 31));
      NarrowedAs(Single, 0x8000_0000, f, x, 0x7f80_0000);
    } else if exp < 16233 {
      TinyIsZero(Single, Nat(mnt), exp - 16495);
      x := Shl32(sgn, 31);
      NarrowedAs(Single, 0x8000_0000, f, x, 0);
    } else {
      var eb := exp - 16257;
      NarrowIsNearest(Single, Nat(mnt), exp, 87, eb);
      x := SingleSignificand(mnt, eb);
      ghost var s := x;
      x := RoundSingle(sgn, if eb < 0 then 0 else eb, x);
      NarrowedAs(Single, 0x8000_0000, f, x, RoundGuarded(Single, if eb < 0 then 0 else eb, s));
    }
  }

  lemma SignBit32(sgn: nat)
    requires sgn <= 1
    ensures Shl32(sgn, 31) == sgn * 0x8000_0000
    ensures Or32(0x7f80_0000, Shl32(sgn, 31)) == sgn * 0x8000_0000 + 0x7f80_0000
  {
    FormatConstants();
    hide BitOr, Pow2;
    OrDisjoint(sgn, 0x7f80_0000, 31);
  }

  lemma NarrowedAs(F: Format, w: nat, f: U128, x: nat, c: nat)
    requires F.fracBits >= 1 && c < w && x == Sign(f) * w + c && IsNarrowCode(F, f, c)
    ensures IsNarrowed(F, w, f, x)
  {}

  method SingleSignificand(mnt: U128, eb: int) returns (x: Word32)
    requires Nat(mnt) < P113 && -24 <= eb
    ensures x == NarrowSignificand(Nat(mnt), 87, eb)
  {
    hide BitOr, Shl, Shr, Shl32, Shr32, Pow2, StickyShr;
    SingleGuard(mnt);
    GuardedWidth(mnt);
    x := Or(Shr(mnt.x1, 23), NonZero(Or(mnt.x0, Shl(mnt.x1, 41))));
    if eb < 0 {
      Sticky32(x, -eb);
      StickyShrCompose(Nat(mnt), 87, -eb);
      x := Or32(Shr32(x, -eb), NonZero(Shl32(x, 32 + eb)));
    }
  }

  lemma GuardedWidth(mnt: U128)
    requires Nat(mnt) < P113
    ensures StickyShr(Nat(mnt), 87) < 0x400_0000
  {
    FormatConstants();
    hide Pow2;
    NarrowSize(Nat(mnt), 23, 87, 87);
  }

  method RoundSingle(sgn: Word32, eb: Word32, s: Word32) returns (x: Word32)
    requires sgn <= 1 && eb <= 253 && s < 0x400_0000
    ensures RoundGuarded(Single, eb, s) < 0x8000_0000
    ensures x == sgn * 0x8000_0000 + RoundGuarded(Single, eb, s)
  {
    hide BitOr, BitAnd, Pow2;
    x := s;
    LowBits(s);
    if And(x, 3) == 3 || And(x, 7) == 6 {
      x := Plus32(x, 4);
    }
    PackedSingle(sgn, eb, s, x);
    x := Or32(Plus32(Shr32(x, 2), Shl32(eb, 23)), Shl32(sgn, 31));
  }

  lemma LowBits(s: Word)
    ensures And(s, 3) == s % 4 && And(s, 7) == s % 8
  {
    AndMask(s, 2);
    AndMask(s, 3);
    Pow2Constants();
  }

  lemma PackedSingle(sgn: nat, eb: nat, s: nat, x: Word32)
    requires sgn <= 1 && eb <= 253 && s < 0x400_0000
    requires x == s + (if s % 4 == 3 || s % 8 == 6 then 4 else 0)
    ensures RoundGuarded(Single, eb, s) < 0x8000_0000
    ensures Or32(Plus32(Shr32(x, 2), Shl32(eb, 23)), Shl32(sgn, 31)) == sgn * 0x8000_0000 + RoundGuarded(Single, eb, s)
  {
    FormatConstants();
    Pow2Constants();
    hide BitOr, Pow2;
    var c := eb * 0x80_0000 + x / 4;
    assert Shl32(eb, 23) == eb * 0x80_0000;
    assert x / 4 == s / 4 + (if s % 4 == 3 || s % 8 == 6 then 1 else 0);
    assert c == RoundGuarded(Single, eb, s);
    SignBit32(sgn);
    OrDisjoint(sgn, c, 31);
  }

  // ----- to double precision

  lemma DoubleGuard(mnt: U128)
    requires Nat(mnt) < P113
    ensures Or(Or(Shl(mnt.x1, 6), Shr(mnt.x0, 58)), NonZero(Shl(mnt.x0, 6))) == StickyShr(Nat(mnt), 58)
    ensures StickyShr(Nat(mnt), 58) < 0x80_0000_0000_0000
  {
    hide BitOr, Pow2, Shl, Shr, StickyShr;
    var y := ShrPair(mnt, 58);
    StickyBits(mnt, 58);
    FormatConstants();
    NarrowSize(Nat(mnt), 52, 58, 58);
    ShrPairIsDiv(mnt, 58);
    HighWordGone(mnt, 58);
    OrCommutes(Shl(mnt.x1, 6), Shr(mnt.x0, 58));
  }

  lemma HighWordGone(a: U128, k: nat)
    requires Nat(a) < P113 && 49 <= k < 64
    ensures ShrPair(a, k).x1 == 0
  {
    Pow2Constants();
    Pow2Mono(49, k);
    assert Pow2(49) == 2 * Pow2(48);
    hide Pow2;
    assert a.x1 < Pow2(49);
    DivLess(a.x1, Pow2(k), 1);
  }

  lemma Sticky64(x: Word, n: nat)
    requires 0 < n < 64
    ensures Or(Shr(x, n), NonZero(Shl(x, 64 - n))) == StickyShr(x, n)
  {
    hide BitOr, Pow2, Shl;
    ShlLow(x, n);
    OrOne(Shr(x, n));
  }

  lemma MergeQuiet64(sgn: nat, x1: Word, x0: Word)
    requires sgn <= 1
    ensures var payload := x1 % 0x1_0000_0000_0000 * 0x10 + x0 / 0x1000_0000_0000_0000;
            var c := 0x7ff8_0000_0000_0000 + payload % 0x8_0000_0000_0000;
            && Or(Or(Or(0x7ff8_0000_0000_0000, Shl(sgn, 63)), Shr(Shl(x1, 16), 12)),
                  Shr(x0, 60)) == sgn * 0x8000_0000_0000_0000 + c
            && IsQuietNaN(Double, c)
  {
    hide BitOr, Pow2, Shl, Shr, IsQuietNaN;
    QuietField(sgn);
    PayloadWords(x1, x0);
    var payload := x1 % 0x1_0000_0000_0000 * 0x10 + x0 / 0x1000_0000_0000_0000;
    QuietDouble(payload % 0x8_0000_0000_0000);
    SetTopPayloadBit(sgn * 0x1000 + 0xfff, x1 % 0x1_0000_0000_0000);
    SetLowPayload(sgn * 0x1000 + 0xfff, x1 % 0x1_0000_0000_0000, x0 / 0x1000_0000_0000_0000);
  }

  lemma QuietDouble(l: nat)
    requires l < 0x8_0000_0000_0000
    ensures IsQuietNaN(Double, 0x7ff8_0000_0000_0000 + l)
  {
    FormatConstants();
  }

  lemma QuietField(sgn: nat)
    requires sgn <= 1
    ensures Or(0x7ff8_0000_0000_0000, Shl(sgn, 63)) == (sgn * 0x1000 + 0xfff) * 0x8_0000_0000_0000
  {
    Pow2Constants();
    hide BitOr, Pow2;
    OrDisjoint(sgn, 0x7ff8_0000_0000_0000, 63);
    SignBit64(sgn);
  }

  lemma PayloadWords(x1: Word, x0: Word)
    ensures Shr(Shl(x1, 16), 12) == x1 % 0x1_0000_0000_0000 * 0x10
    ensures Shr(x0, 60) == x0 / 0x1000_0000_0000_0000 < 0x10
  {
    Pow2Constants();
    assert Pow2(12) == 0x1000;
    assert Pow2(60) == 0x1000_0000_0000_0000 by { Pow2Add(48, 12); }
    hide Pow2;
    ShlLow(x1, 48);
  }

  lemma SetTopPayloadBit(h: nat, p1: nat)
    requires h % 2 == 1 && p1 < 0x1_0000_0000_0000
    ensures BitOr(h * 0x8_0000_0000_0000, p1 * 0x10) == h * 0x8_0000_0000_0000 + p1 % 0x8000_0000_0000 * 0x10
  {
    FormatConstants();
    hide BitOr, Pow2;
    var t, l := p1 / 0x8000_0000_0000, p1 % 0x8000_0000_0000;
    assert p1 * 0x10 == t * 0x8_0000_0000_0000 + l * 0x10 && t <= 1;
    OrSplit(h, t, 0, l * 0x10, 51);
    OrOne(h);
    OrZero(l * 0x10);
  }

  lemma SetLowPayload(h: nat, p1: nat, p0: nat)
    requires p1 < 0x1_0000_0000_0000 && p0 < 0x10
    ensures BitOr(h * 0x8_0000_0000_0000 + p1 % 0x8000_0000_0000 * 0x10, p0)
         == h * 0x8_0000_0000_0000 + (p1 * 0x10 + p0) % 0x8_0000_0000_0000
  {
    assert Pow2(4) == 0x10;
    hide BitOr, Pow2;
    var t, l := p1 / 0x8000_0000_0000, p1 % 0x8000_0000_0000;
    OrDisjoint(h * 0x8000_0000_0000 + l, p0, 4);
    DivModUnique(p1 * 0x10 + p0, 0x8_0000_0000_0000, t, l * 0x10 + p0);
  }

  lemma PayloadOfDouble(sgn: nat, f: U128, m: U128, payload: nat)
    requires m == SignificandWords(f) && payload == m.x1 % 0x1_0000_0000_0000 * 0x10 + m.x0 / 0x1000_0000_0000_0000
    ensures (sgn * 0x8000_0000_0000_0000 + 0x7ff8_0000_0000_0000 + payload % 0x8_0000_0000_0000) % 0x8_0000_0000_0000
         == f.x1 % 0x8000_0000_0000 * 0x10 + f.x0 / 0x1000_0000_0000_0000
  {
    assert m.x0 == f.x0 && m.x1 % 0x1_0000_0000_0000 == f.x1 % 0x1_0000_0000_0000;
    hide SignificandWords;
    var h, l := f.x1 % 0x1_0000_0000_0000, f.x0 / 0x1000_0000_0000_0000;
    var q := h / 0x8000_0000_0000;
    DivDiv(f.x1, 0x8000_0000_0000, 2);
    DivModUnique(payload, 0x8_0000_0000_0000, q, h % 0x8000_0000_0000 * 0x10 + l);
    DivModUnique(sgn * 0x8000_0000_0000_0000 + 0x7ff8_0000_0000_0000 + payload % 0x8_0000_0000_0000,
                 0x8_0000_0000_0000, sgn * 0x1000 + 0xfff, payload % 0x8_0000_0000_0000);
  }

  /** What a narrowed NaN is: a quiet NaN of the sign of the operand; and nothing else becomes a NaN. */
  lemma NarrowedSingleNaN(f: U128, x: nat)
    requires IsNarrowed(Single, 0x8000_0000, f, x)
    ensures x / 0x8000_0000 == Sign(f)
    ensures IsNaN(f) ==> 0x7fc0_0000 <= x % 0x8000_0000
    ensures !IsNaN(f) ==> x % 0x8000_0000 <= 0x7f80_0000
    ensures IsInf(f) ==> x % 0x8000_0000 == 0x7f80_0000
  {
    hide Pow2, Magnitude;
    FormatConstants();
  }

  lemma NarrowedDoubleNaN(f: U128, x: nat)
    requires IsNarrowed(Double, 0x8000_0000_0000_0000, f, x)
    ensures x / 0x8000_0000_0000_0000 == Sign(f)
    ensures IsNaN(f) ==> 0x7ff8_0000_0000_0000 <= x % 0x8000_0000_0000_0000
    ensures !IsNaN(f) ==> x % 0x8000_0000_0000_0000 <= 0x7ff0_0000_0000_0000
    ensures IsInf(f) ==> x % 0x8000_0000_0000_0000 == 0x7ff0_0000_0000_0000
  {
    hide Pow2, Magnitude;
    FormatConstants();
  }

  method TruncTfDf2(f: U128) returns (x: Word)
    ensures IsNarrowed(Double, 0x8000_0000_0000_0000, f, x)
    ensures IsNaN(f) ==> x % 0x8_0000_0000_0000 == f.x1 % 0x8000_0000_0000 * 0x10 + f.x0 / 0x1000_0000_0000_0000
  {
    hide BitOr, BitAnd, Shl, Shr, SignificandWords, Exponent, Pow2, Units, Magnitude, IsNearestEven;
    var sgn, exp, mnt := Unpack(f);
    UnpackedMeaning(f);
    PackFields(f);
    FormatConstants();
    NaNTests(f);
    SignBit64(sgn);
    if exp == 32767 && Or(mnt.x0, Shl(mnt.x1, 16)) != 0 {
      MergeQuiet64(sgn, mnt.x1, mnt.x0);
      ghost var payload := mnt.x1 % 0x1_0000_0000_0000 * 0x10 + mnt.x0 / 0x1000_0000_0000_0000;
      PayloadOfDouble(sgn, f, mnt, payload);
      x := Or(Or(Or(0x7ff8_0000_0000_0000, Shl(sgn, 63)), Shr(Shl(mnt.x1, 16), 12)), Shr(mnt.x0, 60));
      NarrowedAs(Double, 0x8000_0000_0000_0000, f, x, 0x7ff8_0000_0000_0000 + payload % 0x8_0000_0000_0000);
    } else if exp > 17406 {
      HugeIsInfinite(Double, Nat(mnt), exp - 16495);
      x := Or(0x7ff0_0000_0000_0000, Shl(sgn, 63));
      NarrowedAs(Double, 0x8000_0000_0000_0000, f, x, 0x7ff0_0000_0000_0000);
    } else if exp < 15308 {
      TinyIsZero(Double, Nat(mnt), exp - 16495);
      x := Shl(sgn, 63);
      NarrowedAs(Double, 0x8000_0000_0000_0000, f, x, 0);
    } else {
      var eb := exp - 15361;
      NarrowIsNearest(Double, Nat(mnt), exp, 58, eb);
      x := DoubleSignificand(mnt, eb);
      ghost var s := x;
      x := RoundDouble(sgn, if eb < 0 then 0 else eb, x);
      NarrowedAs(Double, 0x8000_0000_0000_0000, f, x, RoundGuarded(Double, if eb < 0 then 0 else eb, s));
    }
  }

  lemma SignBit64(sgn: nat)
    requires sgn <= 1
    ensures Shl(sgn, 63) == sgn * 0x8000_0000_0000_0000
    ensures Or(0x7ff0_0000_0000_0000, Shl(sgn, 63)) == sgn * 0x8000_0000_0000_0000 + 0x7ff0_0000_0000_0000
  {
    Pow2Constants();
    hide BitOr, Pow2;
    OrDisjoint(sgn, 0x7ff0_0000_0000_0000, 63);
  }

  method DoubleSignificand(mnt: U128, eb: int) returns (x: Word)
    requires Nat(mnt) < P113 && -53 <= eb
    ensures x == NarrowSignificand(Nat(mnt), 58, eb)
  {
    hide BitOr, Shl, Shr, Pow2, StickyShr;
    DoubleGuard(mnt);
    x := Or(Or(Shl(mnt.x1, 6), Shr(mnt.x0, 58)), NonZero(Shl(mnt.x0, 6)));
    if eb < 0 {
      Sticky64(x, -eb);
      StickyShrCompose(Nat(mnt), 58, -eb);
      x := Or(Shr(x, -eb), NonZero(Shl(x, 64 + eb)));
    }
  }

  method RoundDouble(sgn: Word, eb: Word, s: Word) returns (x: Word)
    requires sgn <= 1 && eb <= 2045 && s < 0x80_0000_0000_0000
    ensures RoundGuarded(Double, eb, s) < 0x8000_0000_0000_0000
    ensures x == sgn * 0x8000_0000_0000_0000 + RoundGuarded(Double, eb, s)
  {
    hide BitOr, BitAnd, Pow2;
    x := s;
    LowBits(s);
    if And(x, 3) == 3 || And(x, 7) == 6 {
      x := Plus(x, 4);
    }
    PackedDouble(sgn, eb, s, x);
    x := Or(Plus(Shr(x, 2), Shl(eb, 52)), Shl(sgn, 63));
  }

  lemma PackedDouble(sgn: nat, eb: nat, s: nat, x: Word)
    requires sgn <= 1 && eb <= 2045 && s < 0x80_0000_0000_0000
    requires x == s + (if s % 4 == 3 || s % 8 == 6 then 4 else 0)
    ensures RoundGuarded(Double, eb, s) < 0x8000_0000_0000_0000
    ensures Or(Plus(Shr(x, 2), Shl(eb, 52)), Shl(sgn, 63)) == sgn * 0x8000_0000_0000_0000 + RoundGuarded(Double, eb, s)
  {
    FormatConstants();
    Pow2Constants();
    hide BitOr, Pow2;
    var c := eb * 0x10_0000_0000_0000 + x / 4;
    assert Shl(eb, 52) == eb * 0x10_0000_0000_0000;
    assert x / 4 == s / 4 + (if s % 4 == 3 || s % 8 == 6 then 1 else 0);
    assert c == RoundGuarded(Double, eb, s);
    SignBit64(sgn);
    OrDisjoint(sgn, c, 63);
  }
}
