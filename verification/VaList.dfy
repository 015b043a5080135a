/** The cursor over variadic arguments of the System V AMD64 ABI (lib/va_list.c:17-64). */
module VaList {
  import opened Power2
  import opened Words
  import opened Words32

  datatype Kind = GenReg | FloatReg | Stack

  type Positive = x: nat | x > 0 witness 1

  datatype Request = Request(kind: Kind, size: nat, align: Positive)

  /** The offsets into the register save area at reg, and the next place on the stack. */
  datatype Cursor = Cursor(gp: nat, fp: nat, area: nat, reg: nat)

  datatype Slot = Slot(addr: nat, size: nat)

  function RoundUp(x: nat, a: Positive): (y: nat)
    ensures x <= y < x + a && y % a == 0
  {
    Rounding(x, a);
    (x + a - 1) - (x + a - 1) % a
  }

  lemma Rounding(x: nat, a: Positive)
    ensures var y := (x + a - 1) - (x + a - 1) % a; x <= y < x + a && y % a == 0
  {
    Recompose(x + a - 1, a);
    DivModUnique((x + a - 1) - (x + a - 1) % a, a, (x + a - 1) / a, 0);
  }

  // ----- where an argument is, and what is left

  predicate InRegisters(c: Cursor, r: Request) {
    match r.kind
    case GenReg => c.gp + RoundUp(r.size, 8) <= 48
    case FloatReg => c.fp < 176
    case Stack => false
  }

  /** The bytes an argument takes on the stack. */
  function StackSize(r: Request): nat { if r.kind.FloatReg? then 8 else RoundUp(r.size, 8) }

  /** The end of an argument on the stack, not its beginning, is what is aligned. */
  function StackEnd(c: Cursor, r: Request): (e: nat)
    ensures e >= c.area + StackSize(r)
  {
    RoundUp(c.area + StackSize(r), RoundUp(r.align, 8))
  }

  function SlotOf(c: Cursor, r: Request): Slot {
    if !InRegisters(c, r) then Slot(StackEnd(c, r) - StackSize(r), StackSize(r))
    else if r.kind.GenReg? then Slot(c.reg + c.gp, RoundUp(r.size, 8))
    else Slot(c.reg + c.fp, 16)
  }

  function After(c: Cursor, r: Request): Cursor {
    if !InRegisters(c, r) then c.(area := StackEnd(c, r))
    else if r.kind.GenReg? then c.(gp := c.gp + RoundUp(r.size, 8))
    else c.(fp := c.fp + 16)
  }

  /** The six general registers come first in the save area, the eight float registers next, and
      the stack arguments lie above it. */
  predicate Good(c: Cursor) {
    c.gp <= 48 <= c.fp <= 176 && c.fp % 16 == 0 && c.reg + 176 <= c.area
  }

  lemma GoodKept(c: Cursor, r: Request)
    requires Good(c)
    ensures Good(After(c, r)) && After(c, r).reg == c.reg
  {}

  // ----- whole runs

  function Slots(c: Cursor, rs: seq<Request>): (ss: seq<Slot>)
    ensures |ss| == |rs|
    decreases rs
  {
    if rs == [] then [] else [SlotOf(c, rs[0])] + Slots(After(c, rs[0]), rs[1..])
  }

  function AfterAll(c: Cursor, rs: seq<Request>): Cursor
    decreases rs
  {
    if rs == [] then c else AfterAll(After(c, rs[0]), rs[1..])
  }

  predicate Disjoint(s: Slot, s': Slot) {
    s.addr + s.size <= s'.addr || s'.addr + s'.size <= s.addr
  }

  predicate Within(s: Slot, low: nat, high: nat) { low <= s.addr && s.addr + s.size <= high }

  /** What a later slot may use: what the cursor has not passed. */
  predicate Ahead(s: Slot, c: Cursor) {
    || Within(s, c.reg + c.gp, c.reg + 48)
    || Within(s, c.reg + c.fp, c.reg + 176)
    || s.addr >= c.area
  }

  lemma SlotAhead(c: Cursor, r: Request, s: Slot)
    requires Good(c)
    ensures Ahead(SlotOf(c, r), c)
    ensures Ahead(s, After(c, r)) ==> Ahead(s, c) && Disjoint(SlotOf(c, r), s)
  {}

  lemma {:induction false} SlotsAhead(c: Cursor, rs: seq<Request>, k: nat)
    requires Good(c) && k < |rs|
    ensures Ahead(Slots(c, rs)[k], c)
    decreases rs
  {
    hide SlotOf, After, Ahead, Good;
    SlotAhead(c, rs[0], SlotOf(c, rs[0]));
    if k == 0 {
    } else {
      GoodKept(c, rs[0]);
      SlotsAhead(After(c, rs[0]), rs[1..], k - 1);
      SlotAhead(c, rs[0], Slots(c, rs)[k]);
    }
  }

  /** No two places of a run overlap. */
  lemma {:induction false} SlotsDisjoint(c: Cursor, rs: seq<Request>, j: nat, k: nat)
    requires Good(c) && j < k < |rs|
    ensures Disjoint(Slots(c, rs)[j], Slots(c, rs)[k])
    decreases rs
  {
    GoodKept(c, rs[0]);
    var c' := After(c, rs[0]);
    if j == 0 {
      SlotsAhead(c', rs[1..], k - 1);
      SlotAhead(c, rs[0], Slots(c, rs)[k]);
    } else {
      SlotsDisjoint(c', rs[1..], j - 1, k - 1);
    }
  }

  /** The cursor a request of a run meets. */
  lemma {:induction false} SlotInRun(c: Cursor, rs: seq<Request>, k: nat)
    requires Good(c) && k < |rs|
    ensures var d := AfterAll(c, rs[..k]);
            && Good(d) && d.reg == c.reg && d.area >= c.area && Slots(c, rs)[k] == SlotOf(d, rs[k])
    ensures AfterAll(c, rs[..k + 1]) == After(AfterAll(c, rs[..k]), rs[k])
    decreases rs
  {
    GoodKept(c, rs[0]);
    if k > 0 {
      SlotInRun(After(c, rs[0]), rs[1..], k - 1);
      assert rs[..k][1..] == rs[1..][..k - 1] && rs[..k + 1][1..] == rs[1..][..k];
    } else {
      assert rs[..1] == [rs[0]] && rs[..1][1..] == [];
    }
  }

  /** A place in the six general or eight float registers of the save area, or on the stack. */
  ghost predicate InPlace(s: Slot, d: Cursor, r: Request, area: nat) {
    if !InRegisters(d, r) then s.addr >= area
    else if r.kind.GenReg? then Within(s, d.reg, d.reg + 48)
    else Within(s, d.reg + 48, d.reg + 176) && (s.addr - d.reg) % 16 == 0
  }

  lemma SlotInPlace(d: Cursor, r: Request)
    requires Good(d)
    ensures InPlace(SlotOf(d, r), d, r, d.area)
  {}

  /** Each argument of a run has its place. */
  lemma SlotPlace(c: Cursor, rs: seq<Request>, k: nat)
    requires Good(c) && k < |rs|
    ensures InPlace(Slots(c, rs)[k], AfterAll(c, rs[..k]), rs[k], c.area)
  {
    hide Slots, AfterAll, SlotOf, Good;
    SlotInRun(c, rs, k);
    SlotInPlace(AfterAll(c, rs[..k]), rs[k]);
  }

  // ----- whether an argument has room in its place

  /** A float argument gets 16 bytes in a register and 8 on the stack, whatever its size. */
  predicate Fits(c: Cursor, r: Request) {
    r.kind.FloatReg? ==> r.size <= if InRegisters(c, r) then 16 else 8
  }

  lemma RoomIffFits(c: Cursor, r: Request)
    ensures SlotOf(c, r).size >= r.size <==> Fits(c, r)
  {}

  /** The bytes that argument k of a run is read from. */
  function Bytes(c: Cursor, rs: seq<Request>, k: nat): Slot
    requires k < |rs|
  {
    Slot(Slots(c, rs)[k].addr, rs[k].size)
  }

  ghost predicate BytesDisjoint(c: Cursor, rs: seq<Request>) {
    forall j: nat, k: nat :: j < k < |rs| ==> Disjoint(Bytes(c, rs, j), Bytes(c, rs, k))
  }

  ghost predicate AllFit(c: Cursor, rs: seq<Request>) {
    forall k: nat :: k < |rs| ==> Fits(AfterAll(c, rs[..k]), rs[k])
  }

  /** Arguments that fit share no byte. */
  lemma FittingBytes(c: Cursor, rs: seq<Request>)
    requires Good(c) && AllFit(c, rs)
    ensures BytesDisjoint(c, rs)
  {
    hide Slots, AfterAll, SlotOf, Fits, Good;
    forall j: nat, k: nat | j < k < |rs| ensures Disjoint(Bytes(c, rs, j), Bytes(c, rs, k)) {
      SlotInRun(c, rs, j);
      SlotInRun(c, rs, k);
      RoomIffFits(AfterAll(c, rs[..j]), rs[j]);
      RoomIffFits(AfterAll(c, rs[..k]), rs[k]);
      SlotsDisjoint(c, rs, j, k);
    }
  }

  const ONE_MORE := Request(Stack, 8, 8)

  /** Every argument of the run stays clear of those before it and of one more word on the stack. */
  ghost predicate Secure(c: Cursor, rs: seq<Request>) {
    forall k: nat :: k <= |rs| ==> BytesDisjoint(c, rs[..k] + [ONE_MORE])
  }

  /** With float arguments of at most 16 bytes, as the compiler classifies them, a run is secure
      exactly if none of more than 8 bytes comes to lie on the stack. */
  lemma SecureIffFits(c: Cursor, rs: seq<Request>)
    requires Good(c) && forall r :: r in rs && r.kind.FloatReg? ==> r.size <= 16
    ensures Secure(c, rs) <==> AllFit(c, rs)
  {
    hide Slots, AfterAll, SlotOf, Good, Fits, BytesDisjoint;
    if AllFit(c, rs) {
      forall k: nat | k <= |rs| ensures BytesDisjoint(c, rs[..k] + [ONE_MORE]) {
        FitsPrefix(c, rs, k);
        FittingBytes(c, rs[..k] + [ONE_MORE]);
      }
    }
    if !AllFit(c, rs) {
      var k: nat :| k < |rs| && !Fits(AfterAll(c, rs[..k]), rs[k]);
      Overrun(c, rs, k);
    }
  }

  lemma FitsPrefix(c: Cursor, rs: seq<Request>, k: nat)
    requires AllFit(c, rs) && k <= |rs|
    ensures AllFit(c, rs[..k] + [ONE_MORE])
  {
    hide AfterAll;
    var ts := rs[..k] + [ONE_MORE];
    forall i: nat | i < |ts| ensures Fits(AfterAll(c, ts[..i]), ts[i]) {
      if i < k { assert ts[..i] == rs[..i]; }
    }
  }

  /** The next argument on the stack begins inside one that does not fit. */
  lemma StackOverrun(d: Cursor, r: Request)
    requires r.kind.FloatReg? && !InRegisters(d, r) && r.size > 8
    ensures SlotOf(After(d, r), ONE_MORE).addr == SlotOf(d, r).addr + 8
    ensures !Disjoint(Slot(SlotOf(d, r).addr, r.size), Slot(SlotOf(After(d, r), ONE_MORE).addr, 8))
  {
    var e := StackEnd(d, r);
    EightDivides(e, RoundUp(r.align, 8));
    Recompose(e, 8);
    DivModUnique(e + 15, 8, e / 8 + 1, 7);
  }

  lemma EightDivides(e: nat, a: Positive)
    requires e % a == 0 && a % 8 == 0
    ensures e % 8 == 0
  {
    Recompose(e, a);
    Recompose(a, 8);
    assert e / a * (a / 8 * 8) == (e / a * (a / 8)) * 8;
    DivModUnique(e, 8, e / a * (a / 8), 0);
  }

  lemma Overrun(c: Cursor, rs: seq<Request>, k: nat)
    requires Good(c) && k < |rs| && !Fits(AfterAll(c, rs[..k]), rs[k]) && (rs[k].kind.FloatReg? ==> rs[k].size <= 16)
    ensures !BytesDisjoint(c, rs[..k + 1] + [ONE_MORE])
  {
    hide Slots, AfterAll, SlotOf, Good, After, Disjoint;
    var d, ts := AfterAll(c, rs[..k]), rs[..k + 1] + [ONE_MORE];
    assert ts[..k] == rs[..k] && ts[..k + 1] == rs[..k + 1] && ts[k] == rs[k] && ts[k + 1] == ONE_MORE;
    SlotInRun(c, ts, k);
    SlotInRun(c, ts, k + 1);
    StackOverrun(d, rs[k]);
    assert !Disjoint(Bytes(c, ts, k), Bytes(c, ts, k + 1));
  }

  /** A structure of two doubles after the float registers are used up, and the word after it. */
  lemma SharedBytes()
    ensures var c, rs := Cursor(48, 176, 1024, 0), [Request(FloatReg, 16, 8), Request(Stack, 8, 8)];
            Bytes(c, rs, 0) == Slot(1024, 16) && Bytes(c, rs, 1) == Slot(1032, 8) && !BytesDisjoint(c, rs)
  {
    var c, r, s := Cursor(48, 176, 1024, 0), Request(FloatReg, 16, 8), Request(Stack, 8, 8);
    assert [r, s][1..] == [s] && Slots(c, [r, s]) == [SlotOf(c, r), SlotOf(After(c, r), s)];
    assert !Disjoint(Bytes(c, [r, s], 0), Bytes(c, [r, s], 1));
  }

  lemma {:induction false} AreaGrows(c: Cursor, rs: seq<Request>, j: nat, k: nat)
    requires Good(c) && j <= k <= |rs|
    ensures AfterAll(c, rs[..j]).area <= AfterAll(c, rs[..k]).area
    decreases k
  {
    if j == k {
    } else {
      AreaGrows(c, rs, j, k - 1);
      SlotInRun(c, rs, k - 1);
    }
  }

  /** Arguments on the stack come in order. */
  lemma StackInOrder(c: Cursor, rs: seq<Request>, j: nat, k: nat)
    requires Good(c) && j < k < |rs|
    requires !InRegisters(AfterAll(c, rs[..j]), rs[j]) && !InRegisters(AfterAll(c, rs[..k]), rs[k])
    ensures Slots(c, rs)[j].addr + Slots(c, rs)[j].size <= Slots(c, rs)[k].addr
  {
    SlotInRun(c, rs, j);
    SlotInRun(c, rs, k);
    AreaGrows(c, rs, j + 1, k);
  }

  lemma AlignedEnd(area: nat, n: nat, a: Positive)
    ensures var e := RoundUp(area + n, a);
            && ((e - n) % a == 0 <==> n % a == 0)
            && (n % a == 0 ==> e - n == RoundUp(area, a))
  {
    hide RoundUp;
    DifferenceDivides(RoundUp(area + n, a), n, a);
    if n % a == 0 {
      Recompose(n, a);
      ShiftedRounding(area, n / a, a);
    }
  }

  /** An argument on the stack is aligned exactly if its alignment divides its size, and is then
      the first aligned place, as section 3.5.7 of the ABI has it. */
  lemma StackAlignment(c: Cursor, r: Request)
    requires !InRegisters(c, r)
    ensures var a, s := RoundUp(r.align, 8), SlotOf(c, r);
            && (s.addr % a == 0 <==> s.size % a == 0)
            && (s.size % a == 0 ==> s.addr == RoundUp(c.area, a))
    ensures var a, s := RoundUp(r.align, 8), SlotOf(c, r);
            var e := s.addr + s.size;
            After(c, r).area == e && e % a == 0 && c.area + s.size <= e < c.area + s.size + a
  {
    hide RoundUp;
    AlignedEnd(c.area, StackSize(r), RoundUp(r.align, 8));
  }

  lemma DifferenceDivides(e: nat, n: nat, a: Positive)
    requires e % a == 0 && n <= e
    ensures (e - n) % a == 0 <==> n % a == 0
  {
    Recompose(e, a);
    if n % a == 0 {
      Recompose(n, a);
      assert (e / a - n / a) * a == e - n;
      DivModUnique(e - n, a, e / a - n / a, 0);
    }
    if (e - n) % a == 0 {
      Recompose(e - n, a);
      assert (e / a - (e - n) / a) * a == n;
      DivModUnique(n, a, e / a - (e - n) / a, 0);
    }
  }

  lemma ShiftedRounding(x: nat, k: nat, a: Positive)
    ensures RoundUp(x + k * a, a) == RoundUp(x, a) + k * a
  {
    Recompose(x + a - 1, a);
    var q, m := (x + a - 1) / a, (x + a - 1) % a;
    assert (q + k) * a == q * a + k * a;
    DivModUnique(x + k * a + a - 1, a, q + k, m);
  }

  /** A 16-byte-aligned argument of eight bytes is handed out at the wrong place. */
  lemma Misaligned()
    ensures var c, r := Cursor(48, 176, 1024, 0), Request(Stack, 8, 16);
            SlotOf(c, r).addr == 1032 && RoundUp(c.area, 16) == 1024
  {}

  // ----- the code

  predicate IsPow2(x: int) { exists k: nat :: k < 64 && x == Pow2(k) }

  /** x & -2^k clears the low k bits. */
  lemma {:induction false} ClearLow(x: nat, n: nat, k: nat)
    requires k <= n && x < Pow2(n)
    ensures Pow2(n) - Pow2(k) >= 0 && BitAnd(x, Pow2(n) - Pow2(k)) == x - x % Pow2(k)
    decreases k
  {
    Pow2Mono(k, n);
    if k == 0 {
      AndMask(x, n);
      DivModUnique(x, Pow2(n), 0, x);
    } else {
      ClearLow(x / 2, n - 1, k - 1);
      ClearStep(x, Pow2(k - 1), Pow2(n - 1) - Pow2(k - 1));
    }
  }

  lemma ClearStep(x: nat, p: nat, m: nat)
    requires p > 0 && BitAnd(x / 2, m) == x / 2 - x / 2 % p
    ensures BitAnd(x, 2 * m) == x - x % (2 * p)
  {
    hide BitAnd;
    AndStep(x, 2 * m);
    DivModUnique(2 * m, 2, m, 0);
    HalfMod(x, p);
  }

  lemma HalfMod(x: nat, p: nat)
    requires p > 0
    ensures x % (2 * p) == 2 * (x / 2 % p) + x % 2
  {
    var q, r := x / 2 / p, x / 2 % p;
    Recompose(x / 2, p);
    assert q * (2 * p) == 2 * (q * p);
    DivModUnique(x, 2 * p, q, 2 * r + x % 2);
  }

  /** (x + 7) & ~7 on an int. */
  lemma RoundToEight(x: nat)
    requires x <= 0x7fff_fff8
    ensures x + 7 < W32 && And32(x + 7, 0xffff_fff8) == RoundUp(x, 8)
  {
    Pow2_64();
    assert Pow2(3) == 8;
    ClearLow(x + 7, 32, 3);
  }

  predicate Takeable(r: Request) {
    IsPow2(r.align) && r.size <= 0x7fff_fff8 && r.align <= 0x7fff_fff8
  }

  /** A bound on the stack that requests use. */
  function Demand(rs: seq<Request>): nat {
    if rs == [] then 0 else rs[0].size + rs[0].align + 16 + Demand(rs[1..])
  }

  lemma StackEndBound(c: Cursor, r: Request)
    ensures After(c, r).area <= c.area + r.size + r.align + 16
  {}

  class Cursors {
    var gpOffset: Word32
    var fpOffset: Word32
    var overflowArea: Word
    var regSaveArea: Word

    function Now(): Cursor
      reads this
    {
      Cursor(gpOffset, fpOffset, overflowArea, regSaveArea)
    }

    /** __va_start: the offsets are those the function prologue saved below its frame. */
    method VaStart(fp: Word, savedGp: Word32, savedFp: Word32, overflow: Word32)
      requires fp >= 192 && fp + overflow < W64
      requires savedGp <= 48 <= savedFp <= 176 && savedFp % 16 == 0
      modifies this
      ensures Good(Now()) && Now() == Cursor(savedGp, savedFp, fp + overflow, fp - 192)
    {
      gpOffset, fpOffset := savedGp, savedFp;
      overflowArea := fp + overflow;
      regSaveArea := fp - 176 - 16;
    }

    /** __va_arg. Alignments are powers of two, and the stack does not reach the end of memory. */
    method VaArg(argType: Kind, size: nat, align: Positive) returns (p: Word)
      requires Good(Now()) && IsPow2(align) && size <= 0x7fff_fff8 && align <= 0x7fff_fff8
      requires overflowArea + size + align + 16 < W64
      modifies this
      ensures Good(Now()) && Now() == After(old(Now()), Request(argType, size, align))
      ensures p == SlotOf(old(Now()), Request(argType, size, align)).addr
    {
      ghost var c, r := Now(), Request(argType, size, align);
      RoundToEight(size);
      RoundToEight(align);
      GoodKept(c, r);
      var n := And32(size + 7, 0xffff_fff8);
      var a := And32(align + 7, 0xffff_fff8);
      if argType == GenReg && gpOffset + n <= 48 {
        gpOffset := gpOffset + n;
        return regSaveArea + gpOffset - n;
      }
      if argType == FloatReg {
        if fpOffset < 128 + 48 {
          fpOffset := fpOffset + 16;
          return regSaveArea + fpOffset - 16;
        }
        n := 8;
      }
      overflowArea := overflowArea + n;
      AlignMask(overflowArea, align);
      overflowArea := And(overflowArea + a - 1, Minus(0, a));
      p := overflowArea - n;
    }

    /** A run of calls hands out the slots of the specification. */
    method TakeAll(rs: seq<Request>) returns (ps: seq<Word>)
      requires Good(Now()) && (forall r :: r in rs ==> Takeable(r)) && overflowArea + Demand(rs) < W64
      modifies this
      ensures Good(Now()) && Now() == AfterAll(old(Now()), rs)
      ensures |ps| == |rs| && forall k :: 0 <= k < |rs| ==> ps[k] == Slots(old(Now()), rs)[k].addr
      decreases rs
    {
      if rs == [] { return []; }
      var r := rs[0];
      assert r in rs && forall x :: x in rs[1..] ==> x in rs;
      StackEndBound(Now(), r);
      var p := VaArg(r.kind, r.size, r.align);
      ps := TakeAll(rs[1..]);
      ps := [p] + ps;
    }
  }

  /** x & -a for a power of two a. */
  lemma MaskIs(x: Word, a: int, j: nat)
    requires j < 64 && a == Pow2(j) < W64
    ensures And(x, Minus(0, a)) == x - x % a
  {
    hide Pow2, BitAnd;
    Pow2_64();
    DivModUnique(-a, W64, -1, W64 - a);
    ClearLow(x, 64, j);
  }

  /** (area + align - 1) & -align. */
  lemma AlignMask(x: nat, align: Positive)
    requires IsPow2(align) && align <= 0x7fff_fff8 && x + align + 8 < W64
    ensures var a := RoundUp(align, 8); x + a - 1 < W64 && And(x + a - 1, Minus(0, a)) == RoundUp(x, a)
  {
    hide Pow2, And, Minus;
    var k: nat :| k < 64 && align == Pow2(k);
    var j := RoundedPower(align, k);
    MaskIs(x + RoundUp(align, 8) - 1, RoundUp(align, 8), j);
  }

  lemma RoundedPower(align: nat, k: nat) returns (j: nat)
    requires k < 64 && align == Pow2(k) > 0
    ensures j < 64 && RoundUp(align, 8) == Pow2(j)
  {
    hide Pow2;
    Pow2Small();
    if k < 3 {
      j := 3;
      Pow2Add(1, 1);
      Pow2Add(2, 1);
      Pow2Mono(k, 2);
    } else {
      j := k;
      Pow2Add(1, 1);
      Pow2Add(2, 1);
      Pow2Add(3, k - 3);
      DivModUnique(8 * Pow2(k - 3) + 7, 8, Pow2(k - 3), 7);
    }
  }
}
