/** Rounding a normalised 128-bit significand to a binary128 number (lib/lib-arm64.c:146-182). */
module QuadRound {
  import opened Power2
  import opened Words
  import opened Rounding
  import opened Sticky
  import opened QuadFormat
  import opened QuadParts

  /** The encoding that x, with its top bit set, rounds to: 13 bits go in a normal number,
      more in a subnormal one. */
  function RoundedCode(exp: int, x: nat): nat {
    if exp > 0 then RoundGuarded(Quad, exp - 1, StickyShr(x, 13))
    else RoundGuarded(Quad, 0, StickyShr(x, 14 - exp))
  }

  lemma RoundedCodeParts(exp: int, x: nat)
    ensures var s := if exp > 0 then StickyShr(x, 13) else StickyShr(x, 14 - exp);
            var c := (if exp > 0 then exp - 1 else 0) * P112 + s / 4 + (if s % 4 == 3 || s % 8 == 6 then 1 else 0);
            RoundedCode(exp, x) == if c >= INF_CODE then INF_CODE else c
  {
    InfCodeIsInfinity();
    hide StickyShr, Pow2;
  }

  /** The sticky shift leaves 113 bits and two guard bits, or fewer for a subnormal. */
  lemma ShiftedSize(exp: int, x: nat)
    requires W128 / 2 <= x < W128
    ensures exp > 0 ==> P112 <= StickyShr(x, 13) / 4 < 2 * P112
    ensures exp <= 0 ==> StickyShr(x, 14 - exp) / 4 < P112
  {
    Pow2Constants();
    if exp <= 0 {
      assert Pow2(14) == 2 * Pow2(13);
      Pow2Mono(14, 14 - exp);
      DivShrinks(x, Pow2(14), Pow2(14 - exp));
    }
  }

  /** What f3_round is for: whenever x stands for v, perhaps inexactly but with the sticky
      position among the bits to go, the result is v correctly rounded. */
  lemma RoundedIsNearest(exp: int, x: nat, k: nat, v: real)
    requires W128 / 2 <= x < W128
    requires k <= 13 && StickyAt(x, exp - 16510, k, v)
    ensures IsNearestEven(Quad, RoundedCode(exp, x), v)
  {
    hide StickyAt, StickyShr, RoundGuarded, IsNearestEven, Pow2;
    InfCodeIsInfinity();
    ShiftedSize(exp, x);
    var n := if exp > 0 then 13 else 14 - exp;
    StickyRight(x, exp - 16510, k, v, n);
    GuardedIsNearest(Quad, if exp > 0 then exp - 1 else 0, StickyShr(x, n), v);
  }

  /** Adds one unit in the last place; a carry out of the significand moves to the exponent. */
  method Increment(e: int, y: U128, ghost c: nat) returns (e': int, y': U128)
    requires Carried(e, Nat(y), c)
    ensures Carried(e', Nat(y'), c + 1)
  {
    NatBound(y);
    e', y' := e, U128(Plus(y.x0, 1), y.x1);
    if y'.x0 == 0 {
      y' := U128(y'.x0, Plus(y'.x1, 1));
      assert Nat(y') == Nat(y) + 1;
      if y'.x1 == 0x1_0000_0000_0000 {
        e' := 1;
      } else if y'.x1 == 0x2_0000_0000_0000 {
        e' := e' + 1;
        HalveCarry(y');
        y' := ShrPair(y', 1);
      }
    }
  }

  method Round(sgn: Word, exp: int, x: U128) returns (f: U128)
    requires sgn <= 1 && x.x1 >= 0x8000_0000_0000_0000
    ensures RoundedCode(exp, Nat(x)) <= INF_CODE
    ensures f == Pack(sgn, RoundedCode(exp, Nat(x)))
  {
    hide StickyShr, BitOr, BitAnd, Pow2, RoundedCode;
    NatBound(x);
    ShiftedSize(exp, Nat(x));
    RoundedCodeParts(exp, Nat(x));
    var y: U128;
    var e := exp;
    if exp > 0 {
      y := StickyShift(13, x);
    } else {
      y := StickyShift(14 - exp, x);
      e := 0;
    }
    ghost var s := Nat(y);
    ghost var c := (if exp > 0 then exp - 1 else 0) * P112 + s / 4;
    TieToEven(s);
    GuardBits(y);
    var error := And(y.x0, 3);
    y := ShrPair(y, 2);
    LowBit(y);
    if error == 3 || (error == 2 && And(y.x0, 1) == 1) {
      e, y := Increment(e, y, c);
      c := c + 1;
    }
    hide ShrPair, Nat, ShrPair, Shl, Shr;
    CodeOverflow(e, Nat(y), c);
    if e >= 32767 {
      InfiniteWord(sgn);
      return Infinite(sgn);
    }
    PackWords(sgn, e, y, c);
    f := U128(y.x0, Or(Or(Shr(Shl(y.x1, 16), 16), Shl(e, 48)), Shl(sgn, 63)));
  }

  /** The exponent field e and the significand n encode c. */
  ghost predicate Carried(e: int, n: nat, c: nat) {
    if e == 0 then n == c && n < P112 else e > 0 && P112 <= n < 2 * P112 && c == (e - 1) * P112 + n
  }

  lemma CodeOverflow(e: int, n: nat, c: nat)
    requires Carried(e, n, c)
    ensures e >= 32767 <==> c >= INF_CODE
  {}

  /** f3_infinity */
  function Infinite(sgn: nat): U128
    requires sgn <= 1
  {
    U128(0, Or(Shl(sgn, 63), 0x7fff_0000_0000_0000))
  }

  lemma InfiniteWord(sgn: nat)
    requires sgn <= 1
    ensures Infinite(sgn) == Pack(sgn, INF_CODE)
  {
    Pow2Constants();
    hide Pow2, BitOr;
    OrDisjoint(sgn, 0x7fff_0000_0000_0000, 63);
    assert Shl(sgn, 63) == sgn * 0x8000_0000_0000_0000;
  }

  lemma GuardBits(y: U128)
    ensures And(y.x0, 3) == Nat(y) % 4
    ensures Nat(ShrPair(y, 2)) == Nat(y) / 4
  {
    AndMask(y.x0, 2);
    ShrPairIsDiv(y, 2);
  }

  lemma LowBit(y: U128)
    ensures And(y.x0, 1) == Nat(y) % 2
  {
    AndMask(y.x0, 1);
  }

  lemma HalveCarry(y: U128)
    requires y == U128(0, 0x2_0000_0000_0000)
    ensures Nat(ShrPair(y, 1)) == P112
  {
    ShrPairIsDiv(y, 1);
  }

  /** The top word of a significand with its exponent. */
  lemma CarriedWords(e: int, y: U128, c: nat)
    requires 0 <= e < 32767 && Carried(e, Nat(y), c)
    ensures y.x1 < 0x2_0000_0000_0000 && c == (e * 0x1_0000_0000_0000 + y.x1 % 0x1_0000_0000_0000) * W64 + y.x0
    ensures c < INF_CODE
  {}

  lemma PackHalves(sgn: nat, high: nat, low: Word)
    requires sgn <= 1 && high < 0x8000_0000_0000_0000
    ensures Pack(sgn, high * W64 + low) == U128(low, sgn * 0x8000_0000_0000_0000 + high)
  {
    DivModUnique(high * W64 + low, W64, high, low);
  }

  lemma PackWords(sgn: Word, e: int, y: U128, c: nat)
    requires sgn <= 1 && 0 <= e < 32767 && Carried(e, Nat(y), c)
    ensures c < INF_CODE
    ensures U128(y.x0, Or(Or(Shr(Shl(y.x1, 16), 16), Shl(e, 48)), Shl(sgn, 63))) == Pack(sgn, c)
  {
    CarriedWords(e, y, c);
    MergeFields(sgn, e, y.x1);
    PackHalves(sgn, e * 0x1_0000_0000_0000 + y.x1 % 0x1_0000_0000_0000, y.x0);
    hide BitOr, Pow2, Nat, Carried, Pack, Or, Shl, Shr;
  }

  lemma MergeFields(sgn: Word, e: int, x1: Word)
    requires sgn <= 1 && 0 <= e < 32768
    ensures Or(Or(Shr(Shl(x1, 16), 16), Shl(e, 48)), Shl(sgn, 63))
         == sgn * 0x8000_0000_0000_0000 + e * 0x1_0000_0000_0000 + x1 % 0x1_0000_0000_0000
  {
    Pow2Constants();
    hide BitOr, Pow2;
    ShlLow(x1, 48);
    var h := x1 % 0x1_0000_0000_0000;
    assert Shr(Shl(x1, 16), 16) == h;
    OrDisjoint(e, h, 48);
    OrDisjoint(sgn, e * 0x1_0000_0000_0000 + h, 63);
    assert Shl(e, 48) == e * 0x1_0000_0000_0000;
    assert Shl(sgn, 63) == sgn * 0x8000_0000_0000_0000;
  }
}
