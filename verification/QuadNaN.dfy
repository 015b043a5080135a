/** Special results of the binary128 operations: NaNs, infinities and zeros
    (lib/lib-arm64.c:36-91). */
module QuadNaN {
  import opened Power2
  import opened Words
  import opened Rounding
  import opened QuadFormat

  /** The tests on the unpacked form that pick out NaNs, and signalling ones. */
  lemma NaNTests(f: U128)
    ensures var m := SignificandWords(f);
            && (IsNaN(f) <==> Exponent(f) == 32767 && Or(m.x0, Shl(m.x1, 16)) != 0)
            && (IsSignalling(f) <==> Exponent(f) == 32767 && Or(m.x0, Shl(m.x1, 16)) != 0 && And(Shr(m.x1, 47), 1) == 0)
  {
    hide BitOr, BitAnd, Shl, Shr, Magnitude, Units;
    UnpackedMeaning(f);
    var m := SignificandWords(f);
    assert m.x0 == f.x0 && m.x1 % 0x1_0000_0000_0000 == f.x1 % 0x1_0000_0000_0000;
    hide SignificandWords;
    FractionTests(m);
    QuietBit(f.x1, m.x1);
  }

  lemma FractionTests(m: U128)
    ensures Or(m.x0, Shl(m.x1, 16)) == 0 <==> m.x0 == 0 && m.x1 % 0x1_0000_0000_0000 == 0
    ensures And(Shr(m.x1, 47), 1) == m.x1 / 0x8000_0000_0000 % 2
  {
    hide BitOr, BitAnd, Pow2;
    Pow2Constants();
    ShlLow(m.x1, 48);
    OrIsZero(m.x0, Shl(m.x1, 16));
    AndMask(Shr(m.x1, 47), 1);
  }

  lemma QuietBit(x: nat, y: nat)
    requires x % 0x1_0000_0000_0000 == y % 0x1_0000_0000_0000
    ensures x / 0x8000_0000_0000 % 2 == y / 0x8000_0000_0000 % 2
    ensures x % 0x8000_0000_0000 == y % 0x8000_0000_0000
  {
    DivDiv(x, 0x8000_0000_0000, 2);
    DivDiv(y, 0x8000_0000_0000, 2);
  }

  method ConvertNaN(sgn: Word, mnt: U128, ghost f: U128) returns (r: U128)
    requires IsNaN(f) && sgn == Sign(f) && mnt == SignificandWords(f)
    ensures r == Quieted(f)
  {
    QuietedWord(f);
    r := U128(mnt.x0, Or(Or(mnt.x1, 0x7fff_8000_0000_0000), Shl(sgn, 63)));
  }

  lemma QuietedWord(f: U128)
    requires IsNaN(f)
    ensures Or(Or(SignificandWords(f).x1, 0x7fff_8000_0000_0000), Shl(Sign(f), 63)) == Quieted(f).x1
  {
    hide BitOr, Shl;
    var m := SignificandWords(f).x1;
    assert m < 0x2_0000_0000_0000 && m % 0x1_0000_0000_0000 == f.x1 % 0x1_0000_0000_0000;
    QuietBit(f.x1, m);
    QuietedFields(f);
    hide SignificandWords, Quieted, IsNaN, Sign;
    SetQuietField(m / 0x8000_0000_0000, m % 0x8000_0000_0000, Sign(f));
  }

  lemma QuietedFields(f: U128)
    requires IsNaN(f)
    ensures Sign(f) <= 1
    ensures Quieted(f).x1 == Sign(f) * 0x8000_0000_0000_0000 + 0x7fff_8000_0000_0000 + f.x1 % 0x8000_0000_0000
  {}

  lemma SetQuietField(high: nat, low: nat, sgn: nat)
    requires high < 0x1_0000 && low < 0x8000_0000_0000 && sgn <= 1
    ensures Or(Or(high * 0x8000_0000_0000 + low, 0x7fff_8000_0000_0000), Shl(sgn, 63))
         == sgn * 0x8000_0000_0000_0000 + 0x7fff_8000_0000_0000 + low
  {
    hide BitOr, Pow2;
    Pow2Constants();
    OrSplit(high, 0xffff, low, 0, 47);
    OrOnes(high, 16);
    OrOne(low);
    OrDisjoint(sgn, 0x7fff_8000_0000_0000 + low, 63);
    assert Shl(sgn, 63) == sgn * 0x8000_0000_0000_0000;
  }

  method DetectNaNs(aSgn: Word, aExp: int, a: U128, bSgn: Word, bExp: int, b: U128, ghost fa: U128, ghost fb: U128)
    returns (found: bool, f: U128)
    requires aSgn == Sign(fa) && aExp == Exponent(fa) && a == SignificandWords(fa)
    requires bSgn == Sign(fb) && bExp == Exponent(fb) && b == SignificandWords(fb)
    ensures found <==> IsNaN(fa) || IsNaN(fb)
    ensures found ==> f == PropagatedNaN(fa, fb)
  {
    hide BitOr, BitAnd, Shl, Shr;
    NaNTests(fa);
    NaNTests(fb);
    hide SignificandWords, Exponent, Quieted, IsNaN, IsSignalling;
    f := a;
    found := true;
    if aExp == 32767 && Or(a.x0, Shl(a.x1, 16)) != 0 && And(Shr(a.x1, 47), 1) == 0 {
      f := ConvertNaN(aSgn, a, fa);
    } else if bExp == 32767 && Or(b.x0, Shl(b.x1, 16)) != 0 && And(Shr(b.x1, 47), 1) == 0 {
      f := ConvertNaN(bSgn, b, fb);
    } else if aExp == 32767 && Or(a.x0, Shl(a.x1, 16)) != 0 {
      f := ConvertNaN(aSgn, a, fa);
      QuietStays(fa);
    } else if bExp == 32767 && Or(b.x0, Shl(b.x1, 16)) != 0 {
      f := ConvertNaN(bSgn, b, fb);
      QuietStays(fb);
    } else {
      found := false;
    }
  }

  lemma QuietStays(f: U128)
    requires IsNaN(f)
    ensures !IsSignalling(f) ==> Quieted(f) == f
  {}

  /** f3_zero */
  function Zero(sgn: nat): U128
    requires sgn <= 1
  {
    U128(0, Shl(sgn, 63))
  }

  lemma ZeroWord(sgn: nat)
    requires sgn <= 1
    ensures Zero(sgn) == Pack(sgn, 0)
  {
    Pow2Constants();
  }
}
