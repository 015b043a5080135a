/** Multiplication (lib/lib-arm64.c:257-320): four-digit schoolbook multiplication in base
    2^30, none of whose sums overflows a word, and one correct rounding. */
module QuadMul {
  import opened Power2
  import opened Words
  import opened Rounding
  import opened Sticky
  import opened QuadFormat
  import opened QuadParts
  import opened QuadRound
  import opened QuadNaN

  const B30: nat := 0x4000_0000
  const B60: nat := B30 * B30
  const B90: nat := B60 * B30

  datatype Digits = Digits(d0: Word, d1: Word, d2: Word, d3: Word)

  predicate InRange(d: Digits) {
    d.d0 < B30 && d.d1 < B30 && d.d2 < B30 && d.d3 < 0x1_0000_0000
  }

  function Number(d: Digits): nat {
    d.d0 + d.d1 * B30 + d.d2 * B60 + d.d3 * B90
  }

  /** The base-2^30 digits of a 128-bit number whose 6 low bits are zero. */
  function ToDigits(a: U128): Digits {
    Digits(Shr(Shl(a.x0, 28), 34),
           Or(Shr(a.x0, 36), Shr(Shl(a.x1, 62), 34)),
           Shr(Shl(a.x1, 32), 34),
           Shr(a.x1, 32))
  }

  lemma MorePowers()
    ensures Pow2(4) == 0x10 && Pow2(6) == 0x40 && Pow2(26) == 0x400_0000 && Pow2(28) == 0x1000_0000
    ensures Pow2(30) == B30 && Pow2(32) == 0x1_0000_0000 && Pow2(34) == 0x4_0000_0000 && Pow2(36) == 0x10_0000_0000
    ensures Pow2(38) == 0x40_0000_0000 && Pow2(60) == B60
  {
    assert Pow2(13) == 0x2000;
    Pow2Add(13, 13);
    Pow2Add(15, 15);
    Pow2Add(30, 4);
    Pow2Add(30, 30);
  }

  lemma DigitWords(a: U128)
    ensures var d := ToDigits(a);
            && d.d0 == a.x0 % 0x10_0000_0000 / 0x40
            && d.d1 == a.x0 / 0x10_0000_0000 + a.x1 % 4 * 0x1000_0000
            && d.d2 == a.x1 % 0x1_0000_0000 / 4
            && d.d3 == a.x1 / 0x1_0000_0000
  {
    hide BitOr, Pow2;
    Pow2Constants();
    MorePowers();
    ShlLow(a.x0, 36);
    ShlLow(a.x1, 2);
    ShlLow(a.x1, 32);
    assert Shr(Shl(a.x1, 62), 34) == a.x1 % 4 * 0x1000_0000;
    OrDisjoint(a.x1 % 4, Shr(a.x0, 36), 28);
  }

  lemma DigitsMeaning(a: U128)
    requires Nat(a) % 0x40 == 0
    ensures InRange(ToDigits(a)) && 0x40 * Number(ToDigits(a)) == Nat(a)
  {
    hide BitOr, Pow2, Shl, Shr;
    DigitWords(a);
    LowSix(a);
    LowDigits(a.x0);
    HighDigits(a.x1);
    var d := ToDigits(a);
    hide ToDigits;
    DigitSum(d, a, a.x0 / 0x10_0000_0000, a.x1 % 4);
  }

  lemma LowSix(a: U128)
    requires Nat(a) % 0x40 == 0
    ensures a.x0 % 0x40 == 0
  {
    DivModUnique(Nat(a), 0x40, a.x1 * 0x400_0000_0000_0000 + a.x0 / 0x40, a.x0 % 0x40);
  }

  lemma DigitSum(d: Digits, a: U128, h: nat, l: nat)
    requires d.d1 == h + l * 0x1000_0000
    requires a.x0 == 0x40 * d.d0 + h * 0x10_0000_0000
    requires a.x1 == d.d3 * 0x1_0000_0000 + d.d2 * 4 + l
    ensures 0x40 * Number(d) == Nat(a)
  {}

  lemma LowDigits(x: Word)
    requires x % 0x40 == 0
    ensures x % 0x10_0000_0000 / 0x40 < B30 && x / 0x10_0000_0000 < 0x1000_0000
    ensures x == 0x40 * (x % 0x10_0000_0000 / 0x40) + x / 0x10_0000_0000 * 0x10_0000_0000
  {
    DivDiv(x, 0x40, 0x4000_0000);
  }

  lemma HighDigits(x: Word)
    ensures x % 0x1_0000_0000 / 4 < B30 && x / 0x1_0000_0000 < 0x1_0000_0000
    ensures x == x / 0x1_0000_0000 * 0x1_0000_0000 + x % 0x1_0000_0000 / 4 * 4 + x % 4
  {
    DivDiv(x, 4, 0x4000_0000);
  }

  lemma MulBelow(x: nat, y: nat, m: nat, n: nat)
    requires x < m && y < n
    ensures 0 <= x * y <= (m - 1) * (n - 1)
  {
    MulMono(x, m - 1, y);
    MulMono(y, n - 1, m - 1);
    MulMono(0, x, y);
  }

  /** Columns of the product before carrying. */
  datatype Columns = Columns(c0: int, c1: int, c2: int, c3: int, c4: int, c5: int, c6: int)

  function Product(a: Digits, b: Digits): Columns {
    Columns(a.d0 * b.d0,
            a.d0 * b.d1 + a.d1 * b.d0,
            a.d0 * b.d2 + a.d1 * b.d1 + a.d2 * b.d0,
            a.d0 * b.d3 + a.d1 * b.d2 + a.d2 * b.d1 + a.d3 * b.d0,
            a.d1 * b.d3 + a.d2 * b.d2 + a.d3 * b.d1,
            a.d2 * b.d3 + a.d3 * b.d2,
            a.d3 * b.d3)
  }

  const B120: nat := B60 * B60
  const B150: nat := B90 * B60
  const B180: nat := B90 * B90

  function Sum(c: Columns): int {
    c.c0 + c.c1 * B30 + c.c2 * B60 + c.c3 * B90 + c.c4 * B120 + c.c5 * B150 + c.c6 * B180
  }

  lemma ProductIsExact(a: Digits, b: Digits)
    ensures Sum(Product(a, b)) == Number(a) * Number(b)
  {
    hide Number;
    RowProduct(a.d0, b);
    RowProduct(a.d1, b);
    RowProduct(a.d2, b);
    RowProduct(a.d3, b);
    FourRows(a, Number(b));
  }

  lemma RowProduct(x: nat, b: Digits)
    ensures x * Number(b) == x * b.d0 + (x * b.d1) * B30 + (x * b.d2) * B60 + (x * b.d3) * B90
  {
    ScaledSum(x, b.d0, b.d1 * B30, b.d2 * B60, b.d3 * B90);
    MulAssoc(x, b.d1, B30);
    MulAssoc(x, b.d2, B60);
    MulAssoc(x, b.d3, B90);
  }

  lemma ScaledSum(x: int, p: int, q: int, r: int, s: int)
    ensures x * (p + q + r + s) == x * p + x * q + x * r + x * s
  {}

  lemma FourRows(a: Digits, n: nat)
    ensures Number(a) * n == a.d0 * n + (a.d1 * n) * B30 + (a.d2 * n) * B60 + (a.d3 * n) * B90
  {
    ScaledSum(n, a.d0, a.d1 * B30, a.d2 * B60, a.d3 * B90);
    assert n * (a.d1 * B30) == (a.d1 * n) * B30;
    assert n * (a.d2 * B60) == (a.d2 * n) * B60;
    assert n * (a.d3 * B90) == (a.d3 * n) * B90;
  }

  /** The seven sums of the code, carries included. */
  function Carried(c: Columns): Columns {
    var x0 := c.c0;
    var x1 := x0 / B30 + c.c1;
    var x2 := x1 / B30 + c.c2;
    var x3 := x2 / B30 + c.c3;
    var x4 := x3 / B30 + c.c4;
    var x5 := x4 / B30 + c.c5;
    Columns(x0, x1, x2, x3, x4, x5, x5 / B30 + c.c6)
  }

  /** Carrying changes no value: the top sum and the low 30 bits of the others spell it. */
  lemma CarryIsExact(c: Columns)
    ensures var x := Carried(c);
            Sum(c) == x.c0 % B30 + x.c1 % B30 * B30 + x.c2 % B30 * B60 + x.c3 % B30 * B90
                    + x.c4 % B30 * B120 + x.c5 % B30 * B150 + x.c6 * B180
  {
    var x := Carried(c);
    CarryLinear(c, x, x.c0 / B30, x.c1 / B30, x.c2 / B30, x.c3 / B30, x.c4 / B30, x.c5 / B30);
  }

  lemma CarryLinear(c: Columns, x: Columns, q0: int, q1: int, q2: int, q3: int, q4: int, q5: int)
    requires x.c0 == c.c0 && x.c1 == q0 + c.c1 && x.c2 == q1 + c.c2 && x.c3 == q2 + c.c3
    requires x.c4 == q3 + c.c4 && x.c5 == q4 + c.c5 && x.c6 == q5 + c.c6
    requires q0 == x.c0 / B30 && q1 == x.c1 / B30 && q2 == x.c2 / B30
    requires q3 == x.c3 / B30 && q4 == x.c4 / B30 && q5 == x.c5 / B30
    ensures Sum(c) == x.c0 % B30 + x.c1 % B30 * B30 + x.c2 % B30 * B60 + x.c3 % B30 * B90
                    + x.c4 % B30 * B120 + x.c5 % B30 * B150 + x.c6 * B180
  {
    Remainder(x.c0);
    Remainder(x.c1);
    Remainder(x.c2);
    Remainder(x.c3);
    Remainder(x.c4);
    Remainder(x.c5);
  }

  lemma Remainder(x: int)
    ensures x % B30 == x - x / B30 * B30
  {}

  const D30: nat := (B30 - 1) * (B30 - 1)
  const D62: nat := (B30 - 1) * 0xffff_ffff

  lemma ColumnBounds(a: Digits, b: Digits)
    requires InRange(a) && InRange(b)
    ensures var c := Product(a, b);
            && 0 <= c.c0 <= D30 && 0 <= c.c1 <= 2 * D30 && 0 <= c.c2 <= 3 * D30 && 0 <= c.c3 <= 2 * D62 + 2 * D30
            && 0 <= c.c4 <= 2 * D62 + D30 && 0 <= c.c5 <= 2 * D62 && 0 <= c.c6
  {
    MulBelow(a.d0, b.d0, B30, B30);
    MulBelow(a.d0, b.d1, B30, B30);
    MulBelow(a.d1, b.d0, B30, B30);
    MulBelow(a.d0, b.d2, B30, B30);
    MulBelow(a.d1, b.d1, B30, B30);
    MulBelow(a.d2, b.d0, B30, B30);
    MulBelow(a.d1, b.d2, B30, B30);
    MulBelow(a.d2, b.d1, B30, B30);
    MulBelow(a.d2, b.d2, B30, B30);
    MulBelow(a.d0, b.d3, B30, 0x1_0000_0000);
    MulBelow(a.d1, b.d3, B30, 0x1_0000_0000);
    MulBelow(a.d2, b.d3, B30, 0x1_0000_0000);
    MulBelow(a.d3, b.d0, 0x1_0000_0000, B30);
    MulBelow(a.d3, b.d1, 0x1_0000_0000, B30);
    MulBelow(a.d3, b.d2, 0x1_0000_0000, B30);
    MulBelow(a.d3, b.d3, 0x1_0000_0000, 0x1_0000_0000);
  }

  lemma CarriedBounds(c: Columns)
    requires 0 <= c.c0 <= D30 && 0 <= c.c1 <= 2 * D30 && 0 <= c.c2 <= 3 * D30 && 0 <= c.c3 <= 2 * D62 + 2 * D30
    requires 0 <= c.c4 <= 2 * D62 + D30 && 0 <= c.c5 <= 2 * D62 && 0 <= c.c6
    ensures var x := Carried(c);
            && x.c0 == c.c0 && 0 <= x.c1 < W64 && 0 <= x.c2 < W64 && 0 <= x.c3 < W64
            && 0 <= x.c4 < W64 && 0 <= x.c5 < W64 && 0 <= x.c6
  {}

  /** No product and no sum of the code exceeds 64 bits. */
  lemma NoOverflow(a: Digits, b: Digits)
    requires InRange(a) && InRange(b)
    ensures var c := Product(a, b); var x := Carried(c);
            && 0 <= x.c0 < W64 && 0 <= x.c1 < W64 && 0 <= x.c2 < W64 && 0 <= x.c3 < W64
            && 0 <= x.c4 < W64 && 0 <= x.c5 < W64 && 0 <= x.c6 < W64
  {
    hide Product, Carried, Sum;
    ColumnBounds(a, b);
    CarriedBounds(Product(a, b));
    ProductIsExact(a, b);
    NumberBound(a);
    NumberBound(b);
    hide Number;
    MulBelow(Number(a), Number(b), 0x1_0000_0000 * B90, 0x1_0000_0000 * B90);
    TopSum(Product(a, b));
  }

  lemma NumberBound(a: Digits)
    requires InRange(a)
    ensures Number(a) < 0x1_0000_0000 * B90
  {}

  lemma TopSum(c: Columns)
    requires Sum(c) < W64 * B180
    ensures Carried(c).c6 < W64
  {
    CarryIsExact(c);
    hide Sum;
  }

  lemma PlusExact(x: Word, y: Word)
    requires x + y < W64
    ensures Plus(x, y) == x + y
  {}

  lemma TimesExact(x: Word, y: Word)
    requires 0 <= x * y < W64
    ensures Times(x, y) == x * y
  {}

  /** The top 128 of 256 bits of the product of two significands, the lowest made sticky. */
  method MultiplyHigh(a: U128, b: U128) returns (y: U128)
    requires Nat(a) % 0x40 == 0 && Nat(b) % 0x40 == 0
    ensures Nat(y) == StickyShr((Nat(a) / 0x40) * (Nat(b) / 0x40), 116)
  {
    hide BitOr, Shl, Shr, Pow2, Nat, Plus, Times, StickyShr;
    DigitsMeaning(a);
    DigitsMeaning(b);
    var p, q := ToDigits(a), ToDigits(b);
    ghost var c := Product(p, q);
    ghost var x := Carried(c);
    NoOverflow(p, q);
    CarriesFit(p, q);
    hide ToDigits, Number;
    var x0 := Times(p.d0, q.d0);
    var x1 := Plus(Plus(Shr(x0, 30), Times(p.d0, q.d1)), Times(p.d1, q.d0));
    var x2 := Plus(Plus(Plus(Shr(x1, 30), Times(p.d0, q.d2)), Times(p.d1, q.d1)), Times(p.d2, q.d0));
    var x3 := Plus(Plus(Plus(Plus(Shr(x2, 30), Times(p.d0, q.d3)), Times(p.d1, q.d2)), Times(p.d2, q.d1)),
                   Times(p.d3, q.d0));
    var x4 := Plus(Plus(Plus(Shr(x3, 30), Times(p.d1, q.d3)), Times(p.d2, q.d2)), Times(p.d3, q.d1));
    var x5 := Plus(Plus(Shr(x4, 30), Times(p.d2, q.d3)), Times(p.d3, q.d2));
    var x6 := Plus(Shr(x5, 30), Times(p.d3, q.d3));
    assert x0 == x.c0 && x1 == x.c1 && x2 == x.c2 && x3 == x.c3 && x4 == x.c4 && x5 == x.c5 && x6 == x.c6;
    hide Product, Carried;
    ProductIsExact(p, q);
    CarryIsExact(c);
    y := U128(Or(Or(Or(Shl(x5, 34), Shr(Shl(x4, 34), 30)), Shr(Shl(x3, 34), 60)),
                 NonZero(Or(Shl(x3, 38), Shl(Or(Or(x2, x1), x0), 34)))), x6);
    AssembleHigh(x0, x1, x2, x3, x4, x5, x6, Sum(c));
  }

  /** One product at a time, each sum of the code is the exact one. */
  lemma CarriesFit(p: Digits, q: Digits)
    requires InRange(p) && InRange(q)
    ensures var c := Product(p, q); var x := Carried(c);
            && 0 <= x.c0 < W64 && 0 <= x.c1 < W64 && 0 <= x.c2 < W64 && 0 <= x.c3 < W64
            && 0 <= x.c4 < W64 && 0 <= x.c5 < W64 && 0 <= x.c6 < W64
            && Times(p.d0, q.d0) == x.c0
            && Plus(Plus(Shr(x.c0, 30), Times(p.d0, q.d1)), Times(p.d1, q.d0)) == x.c1
            && Plus(Plus(Plus(Shr(x.c1, 30), Times(p.d0, q.d2)), Times(p.d1, q.d1)), Times(p.d2, q.d0)) == x.c2
            && Plus(Plus(Plus(Plus(Shr(x.c2, 30), Times(p.d0, q.d3)), Times(p.d1, q.d2)), Times(p.d2, q.d1)),
                    Times(p.d3, q.d0)) == x.c3
            && Plus(Plus(Plus(Shr(x.c3, 30), Times(p.d1, q.d3)), Times(p.d2, q.d2)), Times(p.d3, q.d1)) == x.c4
            && Plus(Plus(Shr(x.c4, 30), Times(p.d2, q.d3)), Times(p.d3, q.d2)) == x.c5
            && Plus(Shr(x.c5, 30), Times(p.d3, q.d3)) == x.c6
  {
    NoOverflow(p, q);
    MorePowers();
    hide Pow2;
    var x := Carried(Product(p, q));
    ColumnsFit(Shr(x.c0, 30), p.d0, q.d1, p.d1, q.d0, 0, 0, 0, 0);
    ColumnsFit(Shr(x.c1, 30), p.d0, q.d2, p.d1, q.d1, p.d2, q.d0, 0, 0);
    ColumnsFit(Shr(x.c2, 30), p.d0, q.d3, p.d1, q.d2, p.d2, q.d1, p.d3, q.d0);
    ColumnsFit(Shr(x.c3, 30), p.d1, q.d3, p.d2, q.d2, p.d3, q.d1, 0, 0);
    ColumnsFit(Shr(x.c4, 30), p.d2, q.d3, p.d3, q.d2, 0, 0, 0, 0);
    ColumnsFit(Shr(x.c5, 30), p.d3, q.d3, 0, 0, 0, 0, 0, 0);
    MulMono(0, p.d0, q.d0);
    TimesExact(p.d0, q.d0);
  }

  lemma ColumnsFit(k: Word, a: Word, b: Word, c: Word, d: Word, e: Word, f: Word, g: Word, h: Word)
    requires k + a * b + c * d + e * f + g * h < W64
    ensures Plus(k, Times(a, b)) == k + a * b
    ensures Plus(Plus(k, Times(a, b)), Times(c, d)) == k + a * b + c * d
    ensures Plus(Plus(Plus(k, Times(a, b)), Times(c, d)), Times(e, f)) == k + a * b + c * d + e * f
    ensures Plus(Plus(Plus(Plus(k, Times(a, b)), Times(c, d)), Times(e, f)),
                 Times(g, h)) == k + a * b + c * d + e * f + g * h
  {
    MulMono(0, a, b);
    MulMono(0, c, d);
    MulMono(0, e, f);
    MulMono(0, g, h);
    TimesExact(a, b);
    TimesExact(c, d);
    TimesExact(e, f);
    TimesExact(g, h);
    hide Times;
    PlusExact(k, a * b);
    PlusExact(k + a * b, c * d);
    PlusExact(k + a * b + c * d, e * f);
    PlusExact(k + a * b + c * d + e * f, g * h);
  }

  /** Putting the top sums together: quotient by 2^116, and a sticky bit for the rest. */
  lemma AssembleHigh(x0: Word, x1: Word, x2: Word, x3: Word, x4: Word, x5: Word, x6: Word, n: nat)
    requires n == x0 % B30 + x1 % B30 * B30 + x2 % B30 * B60 + x3 % B30 * B90
                + x4 % B30 * B120 + x5 % B30 * B150 + x6 * B180
    ensures Nat(U128(Or(Or(Or(Shl(x5, 34), Shr(Shl(x4, 34), 30)), Shr(Shl(x3, 34), 60)),
                        NonZero(Or(Shl(x3, 38), Shl(Or(Or(x2, x1), x0), 34)))), x6)) == StickyShr(n, 116)
  {
    hide BitOr, Shl, Shr, Pow2, StickyShr;
    HighWord(x3, x4, x5);
    LowNonZero(x0, x1, x2, x3);
    var z := Or(Or(Shl(x5, 34), Shr(Shl(x4, 34), 30)), Shr(Shl(x3, 34), 60));
    var b := NonZero(Or(Shl(x3, 38), Shl(Or(Or(x2, x1), x0), 34)));
    StickyMerge(U128(z, x6), b);
    QuotientAndRest(x0, x1, x2, x3, x4, x5, x6, n);
  }

  lemma QuotientAndRest(x0: Word, x1: Word, x2: Word, x3: Word, x4: Word, x5: Word, x6: Word, n: nat)
    requires n == x0 % B30 + x1 % B30 * B30 + x2 % B30 * B60 + x3 % B30 * B90
                + x4 % B30 * B120 + x5 % B30 * B150 + x6 * B180
    ensures var y := x5 % B30 * 0x4_0000_0000 + x4 % B30 * 0x10 + x3 % B30 / 0x400_0000 + x6 * W64;
            var exact := x0 % B30 == 0 && x1 % B30 == 0 && x2 % B30 == 0 && x3 % 0x400_0000 == 0;
            StickyShr(n, 116) == if exact then y else y + 1 - y % 2
  {
    hide StickyShr;
    Low26(x3);
    Split116(x0 % B30, x1 % B30, x2 % B30, x3 % B30, x4 % B30, x5 % B30, x6, n);
  }

  lemma Low26(x: nat)
    ensures x % B30 % 0x400_0000 == x % 0x400_0000
  {}

  lemma Pow2Of116()
    ensures Pow2(116) == B90 * 0x400_0000
  {
    MorePowers();
    Pow2Add(60, 30);
    Pow2Add(90, 26);
  }

  lemma Split116(r0: nat, r1: nat, r2: nat, r3: nat, r4: nat, r5: nat, x6: nat, n: nat)
    requires r0 < B30 && r1 < B30 && r2 < B30 && r3 < B30
    requires n == r0 + r1 * B30 + r2 * B60 + r3 * B90 + r4 * B120 + r5 * B150 + x6 * B180
    ensures var y := r5 * 0x4_0000_0000 + r4 * 0x10 + r3 / 0x400_0000 + x6 * W64;
            var exact := r0 == 0 && r1 == 0 && r2 == 0 && r3 % 0x400_0000 == 0;
            StickyShr(n, 116) == if exact then y else y + 1 - y % 2
  {
    Pow2Of116();
    hide Pow2;
    var t, m := r3 / 0x400_0000, r3 % 0x400_0000;
    assert r3 == t * 0x400_0000 + m;
    var y := r5 * 0x4_0000_0000 + r4 * 0x10 + t + x6 * W64;
    var l := r0 + r1 * B30 + r2 * B60 + m * B90;
    assert n == y * (B90 * 0x400_0000) + l;
    DivModUnique(n, B90 * 0x400_0000, y, l);
  }

  lemma HighWord(x3: Word, x4: Word, x5: Word)
    ensures Or(Or(Shl(x5, 34), Shr(Shl(x4, 34), 30)), Shr(Shl(x3, 34), 60))
         == x5 % B30 * 0x4_0000_0000 + x4 % B30 * 0x10 + x3 % B30 / 0x400_0000
  {
    hide BitOr, Pow2;
    MorePowers();
    ShlLow(x5, 30);
    ShlLow(x4, 30);
    ShlLow(x3, 30);
    var u, v, w := x5 % B30, x4 % B30, x3 % B30 / 0x400_0000;
    assert Shr(Shl(x4, 34), 30) == v * 0x10;
    assert Shr(Shl(x3, 34), 60) == w;
    OrDisjoint(u, v * 0x10, 34);
    OrDisjoint(u * B30 + v, w, 4);
  }

  lemma LowNonZero(x0: Word, x1: Word, x2: Word, x3: Word)
    ensures Or(Shl(x3, 38), Shl(Or(Or(x2, x1), x0), 34)) == 0
       <==> x0 % B30 == 0 && x1 % B30 == 0 && x2 % B30 == 0 && x3 % 0x400_0000 == 0
  {
    hide BitOr, Pow2, Shl;
    MorePowers();
    OrIsZero(Shl(x3, 38), Shl(Or(Or(x2, x1), x0), 34));
    ShlLow(x3, 26);
    ShlLow(Or(Or(x2, x1), x0), 30);
    OrLowZero(Or(x2, x1), x0, 30);
    OrLowZero(x2, x1, 30);
  }

  /** The significand after normalising: as in Normalise, with room for 15 low zeros. */
  lemma NormalisedLow(m: nat, k: nat, x: nat)
    requires 0 < m < P113 && x == m * Pow2(k) && x >= W128 / 2
    ensures x % 0x40 == 0 && x % 2 == 0
  {
    hide Pow2;
    ShiftAtLeast15(m, k);
    Pow2Add(k - 6, 6);
    MorePowers();
    MulAssoc(m, Pow2(k - 6), 0x40);
    ModMultiple(m * Pow2(k - 6), x);
  }

  lemma ModMultiple(t: nat, x: nat)
    requires x == t * 0x40
    ensures x % 0x40 == 0 && x % 2 == 0
  {
    DivModUnique(x, 0x40, t, 0);
    DivModUnique(x, 2, 0x20 * t, 0);
  }

  lemma ShiftAtLeast15(m: nat, k: nat)
    requires 0 < m < P113 && m * Pow2(k) >= W128 / 2
    ensures k >= 15
  {
    hide Pow2;
    if k < 15 {
      Pow2Mono(k, 14);
      Pow2Of14();
      MulMono(Pow2(k), 0x4000, m);
    }
  }

  /** The top half of the product, after at most one more normalising step, rounds correctly. */
  lemma ProductRounds(p: nat, q: nat, e: int, f: int, y: nat, v: real)
    requires W128 / 2 <= 0x40 * p < W128 && W128 / 2 <= 0x40 * q < W128
    requires y == StickyShr(p * q, 116) && y < W128
    requires v == Units(p, e) * Units(q, f)
    ensures y >= W128 / 4
    ensures y >= W128 / 2 ==> IsNearestEven(Quad, RoundedCode(e + f + 116 + 16510, y), v)
    ensures y < W128 / 2 ==> IsNearestEven(Quad, RoundedCode(e + f + 115 + 16510, 2 * y), v)
  {
    hide Units, StickyAt, RoundedCode, IsNearestEven, Pow2;
    UnitsMul(p, q, e, f);
    MulMono(0, p, q);
    StickyExact(p * q, e + f);
    StickyRight(p * q, e + f, 0, v, 116);
    TopBits(p, q);
    if y >= W128 / 2 {
      RoundedIsNearest(e + f + 116 + 16510, y, 0, v);
    } else {
      StickyLeft(y, e + f + 116, 0, v, 1);
      Pow2Small();
      RoundedIsNearest(e + f + 115 + 16510, 2 * y, 1, v);
    }
  }

  lemma TopBits(p: nat, q: nat)
    requires W128 / 2 <= 0x40 * p && W128 / 2 <= 0x40 * q
    ensures StickyShr(p * q, 116) >= W128 / 4
  {
    var h := W128 / 0x80;
    MulMono(h, p, q);
    MulMono(h, q, h);
    assert p * q >= h * h;
    Pow2Of116();
    hide Pow2;
    DivAtLeast(p * q, Pow2(116), W128 / 4);
  }

  method MulTf3(fa: U128, fb: U128) returns (fx: U128)
    ensures IsProduct(fa, fb, fx)
  {
    hide BitOr, BitAnd, Shl, Shr, SignificandWords, Exponent, Pow2, Units, Magnitude, IsNearestEven, RoundedCode;
    var aSgn, aExp, a := Unpack(fa);
    var bSgn, bExp, b := Unpack(fb);
    var found;
    found, fx := DetectNaNs(aSgn, aExp, a, bSgn, bExp, b, fa, fb);
    if found { return; }
    UnpackedMeaning(fa);
    UnpackedMeaning(fb);
    NatZero(a);
    NatZero(b);
    if (aExp == 32767 && Or(b.x0, b.x1) == 0) || (bExp == 32767 && Or(a.x0, a.x1) == 0) {
      return DEFAULT_NAN;
    }
    PackFields(fa);
    PackFields(fb);
    if aExp == 32767 || bExp == 32767 {
      InfiniteWord(Xor(aSgn, bSgn));
      return Infinite(Xor(aSgn, bSgn));
    }
    if Or(a.x0, a.x1) == 0 || Or(b.x0, b.x1) == 0 {
      ZeroProduct(fa, fb);
      ZeroWord(Xor(aSgn, bSgn));
      return Zero(Xor(aSgn, bSgn));
    }
    fx := MulFinite(aSgn, aExp, a, bSgn, bExp, b, fa, fb);
  }

  lemma ZeroProduct(a: U128, b: U128)
    requires IsFinite(a) && IsFinite(b) && (IsZero(a) || IsZero(b))
    ensures IsNearestEven(Quad, 0, Abs(Value(a) * Value(b)))
  {
    hide Magnitude, IsNearestEven;
    ZeroMagnitude(a);
    ZeroMagnitude(b);
    AbsProduct(a, b);
    ExactIsNearest(Quad, 0);
    ZeroMagnitude(Pack(0, 0));
    assert Magnitude(Quad, Code(a)) * Magnitude(Quad, Code(b)) == 0.0;
  }

  lemma AbsProduct(a: U128, b: U128)
    requires IsFinite(a) && IsFinite(b)
    ensures Abs(Value(a) * Value(b)) == Magnitude(Quad, Code(a)) * Magnitude(Quad, Code(b))
  {
    hide Magnitude;
    ZeroMagnitude(a);
    ZeroMagnitude(b);
    var v, w := Magnitude(Quad, Code(a)), Magnitude(Quad, Code(b));
    assert v * w >= 0.0;
    assert (-v) * w == -(v * w) && v * (-w) == -(v * w) && (-v) * (-w) == v * w;
  }

  method MulFinite(aSgn: Word, aExp: int, a: U128, bSgn: Word, bExp: int, b: U128, ghost fa: U128, ghost fb: U128)
    returns (fx: U128)
    requires aSgn == Sign(fa) && aExp == Exponent(fa) && a == SignificandWords(fa) && IsFinite(fa) && !IsZero(fa)
    requires bSgn == Sign(fb) && bExp == Exponent(fb) && b == SignificandWords(fb) && IsFinite(fb) && !IsZero(fb)
    ensures Sign(fx) == Xor(Sign(fa), Sign(fb))
    ensures IsNearestEven(Quad, Code(fx), Abs(Value(fa) * Value(fb)))
  {
    hide Abs, BitOr, BitAnd, Shl, Shr, SignificandWords, Exponent, Pow2, Units, Magnitude, IsNearestEven, StickyAt,
         RoundedCode, StickyShr, Nat, Value;
    UnpackedMeaning(fa);
    UnpackedMeaning(fb);
    PackFields(fa);
    PackFields(fb);
    var ae, be, a', b';
    ae, a' := Normalise(aExp, a);
    be, b' := Normalise(bExp, b);
    NormalisedFactor(Nat(a), aExp, ae, a');
    NormalisedFactor(Nat(b), bExp, be, b');
    SameProduct(fa, fb, Units(Nat(a') / 0x40, ae - 16489), Units(Nat(b') / 0x40, be - 16489));
    var y := MultiplyHigh(a', b');
    fx := RoundProduct(Xor(aSgn, bSgn), ae + be - 16352, y, Nat(a') / 0x40, Nat(b') / 0x40, ae - 16489, be - 16489,
                       Abs(Value(fa) * Value(fb)));
  }

  lemma SameProduct(a: U128, b: U128, v: real, w: real)
    requires IsFinite(a) && IsFinite(b)
    requires v == Magnitude(Quad, Code(a)) && w == Magnitude(Quad, Code(b))
    ensures Abs(Value(a) * Value(b)) == v * w
  {
    hide Value, Magnitude, Abs;
    AbsProduct(a, b);
  }

  /** Renormalises the top half of a product and rounds it. */
  method RoundProduct(sgn: Word, exp: int, y: U128, ghost p: nat, ghost q: nat, ghost e: int, ghost f: int,
                      ghost v: real)
    returns (fx: U128)
    requires sgn <= 1 && exp == e + f + 16626
    requires W128 / 2 <= 0x40 * p < W128 && W128 / 2 <= 0x40 * q < W128
    requires Nat(y) == StickyShr(p * q, 116)
    requires v == Units(p, e) * Units(q, f)
    ensures Sign(fx) == sgn && IsNearestEven(Quad, Code(fx), v)
  {
    hide Units, IsNearestEven, RoundedCode, StickyShr, ShlPair, Shr, Magnitude;
    NatBound(y);
    ProductRounds(p, q, e, f, Nat(y), v);
    if Shr(y.x1, 63) == 0 {
      TopBitClear(y);
      fx := Round(sgn, exp - 1, ShlPair(y, 1));
    } else {
      TopBitSet(y);
      fx := Round(sgn, exp, y);
    }
  }

  lemma NormalisedFactor(m: nat, exp: int, exp': int, x: U128)
    requires 0 < m < P113 && exp' <= exp
    requires Nat(x) == m * Pow2(exp - exp') && x.x1 >= W64 / 2
    ensures Nat(x) % 0x40 == 0 && W128 / 2 <= 0x40 * (Nat(x) / 0x40) < W128
    ensures Units(m, exp - 16495) == Units(Nat(x) / 0x40, exp' - 16489)
  {
    hide Pow2, Units;
    NatBound(x);
    NormalisedLow(m, exp - exp', Nat(x));
    UnitsShift(m, exp' - 16495, exp - exp');
    MorePowers();
    UnitsShift(Nat(x) / 0x40, exp' - 16495, 6);
  }

  lemma TopBitClear(y: U128)
    requires Shr(y.x1, 63) == 0
    ensures Nat(y) < W128 / 2
    ensures Nat(ShlPair(y, 1)) == 2 * Nat(y)
    ensures Nat(y) >= W128 / 4 ==> ShlPair(y, 1).x1 >= W64 / 2
  {
    Pow2Constants();
    hide Pow2;
    ShlPairFits(y, 1);
  }

  lemma TopBitSet(y: U128)
    requires Shr(y.x1, 63) != 0
    ensures y.x1 >= W64 / 2 && Nat(y) >= W128 / 2
  {
    Pow2Constants();
  }
}
