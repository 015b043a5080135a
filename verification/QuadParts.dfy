/** The shared steps of the binary128 operations: taking a number apart, normalising,
    shifting with a sticky bit, and rounding to a number (lib/lib-arm64.c:66-182). */
module QuadParts {
  import opened Power2
  import opened Words
  import opened Sticky
  import opened QuadFormat

  method Unpack(f: U128) returns (sgn: Word, exp: int, mnt: U128)
    ensures sgn == Sign(f)
    ensures exp == Exponent(f)
    ensures mnt == SignificandWords(f)
  {
    Pow2Constants();
    sgn := Shr(f.x1, 63);
    AndMask(Shr(f.x1, 48), 15);
    exp := And(Shr(f.x1, 48), 32767);
    ShlLow(f.x1, 48);
    var x1 := Shr(Shl(f.x1, 16), 16);
    assert x1 == f.x1 % 0x1_0000_0000_0000;
    if exp != 0 {
      ShlFits(1, 48);
      OrDisjoint(1, x1, 48);
      x1 := Or(x1, Shl(1, 48));
    } else {
      exp := 1;
    }
    mnt := U128(f.x0, x1);
  }

  lemma NormaliseStep(m: nat, k: nat, x: U128, sh: nat)
    requires 0 < sh <= 32 && Nat(x) == m * Pow2(k)
    requires Shr(x.x1, 64 - sh) == 0 && x.x1 >= Pow2(64 - 2 * sh)
    ensures Nat(ShlPair(x, sh)) == m * Pow2(k + sh)
    ensures ShlPair(x, sh).x1 >= Pow2(64 - sh)
  {
    hide Pow2, ShlPair;
    assert x.x1 < Pow2(64 - sh);
    ShlPairFits(x, sh);
    Pow2Add(k, sh);
    MulAssoc(m, Pow2(k), Pow2(sh));
    Pow2Add(64 - 2 * sh, sh);
    MulMono(Pow2(64 - 2 * sh), x.x1, Pow2(sh));
  }

  /** Shifts left until the top bit is set, and accounts for it in the exponent. */
  method Normalise(exp: int, mnt: U128) returns (exp': int, mnt': U128)
    ensures exp' <= exp && Nat(mnt') == Nat(mnt) * Pow2(exp - exp')
    ensures Nat(mnt) == 0 ==> mnt' == mnt && exp' == exp
    ensures Nat(mnt) > 0 ==> mnt'.x1 >= 0x8000_0000_0000_0000
  {
    exp', mnt' := exp, mnt;
    Pow2Constants();
    hide Pow2, ShlPair, BitOr, Nat;
    NatZero(mnt);
    if Or(mnt.x0, mnt.x1) == 0 {
      return;
    }
    if mnt'.x1 == 0 {
      mnt' := U128(0, mnt'.x0);
      exp' := exp' - 64;
      LowWordUp(mnt);
    }
    var sh := 32;
    while sh != 0
      invariant sh in {0, 1, 2, 4, 8, 16, 32}
      invariant exp' <= exp && Nat(mnt') == Nat(mnt) * Pow2(exp - exp')
      invariant mnt'.x1 >= Pow2(if sh == 0 then 63 else 64 - 2 * sh)
    {
      if Shr(mnt'.x1, 64 - sh) == 0 {
        NormaliseStep(Nat(mnt), exp - exp', mnt', sh);
        mnt' := ShlPair(mnt', sh);
        exp' := exp' - sh;
      } else {
        ShrNonZero(mnt'.x1, 64 - sh);
      }
      sh := sh / 2;
    }
  }

  lemma NatZero(x: U128)
    ensures Or(x.x0, x.x1) == 0 <==> Nat(x) == 0
    ensures Nat(x) == 0 <==> x.x0 == 0 && x.x1 == 0
    ensures Nat(x) == Nat(x) * Pow2(0)
  {
    OrIsZero(x.x0, x.x1);
  }

  lemma LowWordUp(x: U128)
    requires x.x1 == 0
    ensures Nat(U128(0, x.x0)) == Nat(x) * Pow2(64)
  {
    Pow2_64();
  }

  lemma ShrNonZero(x: Word, n: nat)
    requires Shr(x, n) != 0
    ensures x >= Pow2(n)
  {
    hide Pow2;
    DivBound(x, Pow2(n));
    if x < Pow2(n) { DivLess(x, Pow2(n), 1); }
  }

  /** Shifts right, folding every lost bit into the lowest bit kept. */
  method StickyShift(sh: int, x: U128) returns (r: U128)
    ensures Nat(r) == if sh <= 0 then Nat(x) else StickyShr(Nat(x), sh)
  {
    if sh >= 128 {
      OrIsZero(x.x0, x.x1);
      ShiftedOut(x, sh);
      return U128(NonZero(Or(x.x0, x.x1)), 0);
    }
    r := x;
    var n := sh;
    if sh >= 64 {
      r := U128(Or(x.x1, NonZero(x.x0)), 0);
      n := sh - 64;
      StickyWord(x);
      StickyShrCompose(Nat(x), 64, n);
    }
    if n > 0 {
      StickyBits(r, n);
      r := U128(Or(Or(Shr(r.x0, n), Shl(r.x1, 64 - n)), NonZero(Shl(r.x0, 64 - n))), Shr(r.x1, n));
    } else {
      StickyNone(Nat(r));
    }
  }

  lemma StickyNone(x: nat)
    ensures StickyShr(x, 0) == x
  {}

  lemma ShiftedOut(x: U128, sh: nat)
    requires sh >= 128
    ensures StickyShr(Nat(x), sh) == if Nat(x) == 0 then 0 else 1
  {
    hide Pow2;
    Pow2_128();
    Pow2Mono(128, sh);
    NatBound(x);
    DivModUnique(Nat(x), Pow2(sh), 0, Nat(x));
  }

  lemma StickyWord(x: U128)
    ensures Or(x.x1, NonZero(x.x0)) == StickyShr(Nat(x), 64)
  {
    Pow2_64();
    NatBound(x);
    OrOne(x.x1);
  }

  lemma StickyBits(x: U128, n: nat)
    requires 0 < n < 64
    ensures var y := ShrPair(x, n); Nat(U128(Or(y.x0, NonZero(Shl(x.x0, 64 - n))), y.x1)) == StickyShr(Nat(x), n)
  {
    hide Pow2, BitOr, Shl, ShrPair;
    ShrPairIsDiv(x, n);
    ShlLow(x.x0, n);
    StickyMerge(ShrPair(x, n), NonZero(Shl(x.x0, 64 - n)));
  }

  lemma StickyMerge(y: U128, b: Word)
    requires b <= 1
    ensures Nat(U128(Or(y.x0, b), y.x1)) == if b == 0 then Nat(y) else Nat(y) + 1 - Nat(y) % 2
  {
    NatParity(y);
    OrOne(y.x0);
    hide BitOr;
    if b == 0 {
      assert Or(y.x0, b) == y.x0;
    } else {
      assert Or(y.x0, b) == y.x0 + 1 - y.x0 % 2;
    }
  }

  lemma NatParity(y: U128)
    ensures Nat(y) % 2 == y.x0 % 2
  {
    assert Nat(y) == 2 * (y.x1 * 0x8000_0000_0000_0000) + y.x0;
  }
}
