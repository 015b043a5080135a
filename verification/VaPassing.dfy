/** How variadic arguments are passed (section 3.5.7 of the System V AMD64 ABI; x86_64-gen.c:1431-1481),
    against how the cursor reads them (lib/va_list.c:33-64). */
module VaPassing {
  import opened VaList

  /** The eight-byte pieces of an argument. */
  function Pieces(r: Request): nat { RoundUp(r.size, 8) / 8 }

  function Places(start: nat, stride: nat, n: nat): (ps: seq<nat>)
    ensures |ps| == n && forall k :: 0 <= k < n ==> ps[k] == start + stride * k
  {
    if n == 0 then [] else Places(start, stride, n - 1) + [start + stride * (n - 1)]
  }

  /** Every piece takes a register of its own, unless there are too few for all. */
  predicate PassedInRegisters(c: Cursor, r: Request) {
    match r.kind
    case GenReg => c.gp + 8 * Pieces(r) <= 48
    case FloatReg => c.fp + 16 * Pieces(r) <= 176
    case Stack => false
  }

  /** Where the pieces are passed: a float register is saved in the lower half of 16 bytes, and an
      argument on the stack begins at the first aligned address. */
  function Passed(c: Cursor, r: Request): seq<nat> {
    if !PassedInRegisters(c, r) then Places(RoundUp(c.area, RoundUp(r.align, 8)), 8, Pieces(r))
    else if r.kind.GenReg? then Places(c.reg + c.gp, 8, Pieces(r))
    else Places(c.reg + c.fp, 16, Pieces(r))
  }

  function Rest(c: Cursor, r: Request): Cursor {
    if !PassedInRegisters(c, r) then c.(area := RoundUp(c.area, RoundUp(r.align, 8)) + 8 * Pieces(r))
    else if r.kind.GenReg? then c.(gp := c.gp + 8 * Pieces(r))
    else c.(fp := c.fp + 16 * Pieces(r))
  }

  /** The caller of the cursor reads the argument from its slot upwards. */
  function Read(s: Slot, r: Request): seq<nat> { Places(s.addr, 8, Pieces(r)) }

  // ----- one argument

  /** One float register is enough, and an argument on the stack has an alignment that divides its size. */
  predicate Conforms(c: Cursor, r: Request) {
    && (r.kind.FloatReg? ==> r.size <= 8)
    && (!InRegisters(c, r) ==> RoundUp(r.size, 8) % RoundUp(r.align, 8) == 0)
  }

  ghost predicate StaysInStep(c: Cursor, r: Request) {
    Read(SlotOf(c, r), r) == Passed(c, r) && After(c, r) == Rest(c, r)
  }

  lemma EightPieces(r: Request)
    ensures RoundUp(r.size, 8) == 8 * Pieces(r) && (r.size > 0 ==> Pieces(r) > 0) && (r.size <= 8 <==> Pieces(r) <= 1)
  {}

  /** An end that is aligned lies one argument past an aligned beginning just if it is also a multiple
      of the alignment. */
  lemma AlignedEnds(area: nat, n: nat, a: Positive)
    ensures RoundUp(area + n, a) == RoundUp(area, a) + n <==> n % a == 0
  {
    hide RoundUp;
    AlignedEnd(area, n, a);
    DifferenceDivides(RoundUp(area + n, a), n, a);
  }

  lemma OnStack(c: Cursor, r: Request)
    requires !InRegisters(c, r) && !PassedInRegisters(c, r) && (r.kind.FloatReg? ==> r.size > 0)
    ensures StaysInStep(c, r) <==> Conforms(c, r)
  {
    hide RoundUp;
    EightPieces(r);
    var a := RoundUp(r.align, 8);
    AlignedEnds(c.area, StackSize(r), a);
    if r.kind.FloatReg? && r.size > 8 { TooWide(c, r); }
  }

  /** Were the beginnings the same, the ends would not be. */
  lemma TooWide(c: Cursor, r: Request)
    requires !InRegisters(c, r) && !PassedInRegisters(c, r) && r.kind.FloatReg? && r.size > 8
    ensures !StaysInStep(c, r)
  {
    EightPieces(r);
    hide RoundUp, Pieces;
    var s, p := Read(SlotOf(c, r), r), Passed(c, r);
    assert s == p ==> s[0] == p[0];
  }

  lemma LastRegister(fp: nat)
    requires fp < 176 && fp % 16 == 0
    ensures fp <= 160
  {}

  lemma InRegistersInStep(c: Cursor, r: Request)
    requires Good(c) && InRegisters(c, r) && (r.kind.FloatReg? ==> r.size > 0)
    ensures StaysInStep(c, r) <==> Conforms(c, r)
  {
    hide RoundUp, Pieces;
    EightPieces(r);
    if r.kind.FloatReg? { LastRegister(c.fp); }
    hide Good;
  }

  /** The cursor reads an argument where it was passed, and goes on as the caller did, exactly if the
      argument conforms. */
  lemma InStepIff(c: Cursor, r: Request)
    requires Good(c) && (r.kind.FloatReg? ==> r.size > 0)
    ensures StaysInStep(c, r) <==> Conforms(c, r)
  {
    if InRegisters(c, r) {
      InRegistersInStep(c, r);
    } else {
      NeitherInRegisters(c, r);
      OnStack(c, r);
    }
  }

  lemma NeitherInRegisters(c: Cursor, r: Request)
    requires Good(c) && !InRegisters(c, r) && (r.kind.FloatReg? ==> r.size > 0)
    ensures !PassedInRegisters(c, r)
  {
    hide RoundUp, Pieces;
    EightPieces(r);
  }

  // ----- whole runs

  function RestAll(c: Cursor, rs: seq<Request>): Cursor {
    if rs == [] then c else Rest(RestAll(c, rs[..|rs| - 1]), rs[|rs| - 1])
  }

  /** Every argument of the run is read where it is passed, and the cursor never goes astray. */
  ghost predicate InStep(c: Cursor, rs: seq<Request>) {
    && (forall k: nat :: k < |rs| ==> Read(Slots(c, rs)[k], rs[k]) == Passed(RestAll(c, rs[..k]), rs[k]))
    && (forall k: nat :: k <= |rs| ==> AfterAll(c, rs[..k]) == RestAll(c, rs[..k]))
  }

  lemma RestLast(c: Cursor, rs: seq<Request>, k: nat)
    requires k < |rs|
    ensures RestAll(c, rs[..k + 1]) == Rest(RestAll(c, rs[..k]), rs[k])
  {
    assert rs[..k + 1][..k] == rs[..k];
  }

  lemma {:induction false} SameCursor(c: Cursor, rs: seq<Request>, k: nat)
    requires Good(c) && k <= |rs| && forall i: nat :: i < k && rs[i].kind.FloatReg? ==> rs[i].size > 0
    requires forall i: nat :: i < k ==> Conforms(AfterAll(c, rs[..i]), rs[i])
    ensures AfterAll(c, rs[..k]) == RestAll(c, rs[..k])
  {
    if k == 0 {
    } else {
      hide After, Rest, Conforms, Good, SlotOf, Passed;
      SameCursor(c, rs, k - 1);
      SlotInRun(c, rs, k - 1);
      RestLast(c, rs, k - 1);
      InStepIff(AfterAll(c, rs[..k - 1]), rs[k - 1]);
    }
  }

  lemma InStepConforms(c: Cursor, rs: seq<Request>, k: nat)
    requires Good(c) && k < |rs| && InStep(c, rs) && (rs[k].kind.FloatReg? ==> rs[k].size > 0)
    ensures Conforms(AfterAll(c, rs[..k]), rs[k])
  {
    hide After, Rest, Conforms, Good, SlotOf, Passed, Read;
    assert AfterAll(c, rs[..k]) == RestAll(c, rs[..k]) && AfterAll(c, rs[..k + 1]) == RestAll(c, rs[..k + 1]);
    SlotInRun(c, rs, k);
    RestLast(c, rs, k);
    hide AfterAll, RestAll, Slots;
    InStepIff(AfterAll(c, rs[..k]), rs[k]);
  }

  /** The cursor hands out the arguments of a run where they were passed exactly if each of them conforms. */
  lemma RunInStepIff(c: Cursor, rs: seq<Request>)
    requires Good(c) && forall i: nat :: i < |rs| && rs[i].kind.FloatReg? ==> rs[i].size > 0
    ensures InStep(c, rs) <==> forall k: nat :: k < |rs| ==> Conforms(AfterAll(c, rs[..k]), rs[k])
  {
    hide After, AfterAll, RestAll, Rest, Conforms, Good, SlotOf, Passed, Read, Slots;
    forall k: nat | k < |rs| && InStep(c, rs) ensures Conforms(AfterAll(c, rs[..k]), rs[k]) {
      InStepConforms(c, rs, k);
    }
    if forall k: nat :: k < |rs| ==> Conforms(AfterAll(c, rs[..k]), rs[k]) {
      forall k: nat | k <= |rs| ensures AfterAll(c, rs[..k]) == RestAll(c, rs[..k]) {
        SameCursor(c, rs, k);
      }
      forall k: nat | k < |rs| ensures Read(Slots(c, rs)[k], rs[k]) == Passed(RestAll(c, rs[..k]), rs[k]) {
        SlotInRun(c, rs, k);
        InStepIff(AfterAll(c, rs[..k]), rs[k]);
      }
    }
  }

  /** Two doubles in a structure take two registers, but the cursor passes one: the second double is
      read from the zeroed half of the first place, and the argument after it from the second. */
  lemma OutOfStep()
    ensures var c, r, s := Cursor(48, 48, 1024, 0), Request(FloatReg, 16, 8), Request(FloatReg, 8, 8);
            && Passed(c, r) == [48, 64] && Read(SlotOf(c, r), r) == [48, 56]
            && Passed(Rest(c, r), s) == [80] && Read(SlotOf(After(c, r), s), s) == [64]
  {
  }

  // ----- ordinary arguments

  /** Integers, pointers and doubles, one word each. */
  predicate IsOrdinary(r: Request) { 0 < r.size <= 8 && r.align <= 8 }

  /** How many of the first k arguments are of a kind. */
  function CountOf(rs: seq<Request>, kind: Kind, k: nat): nat
    requires k <= |rs|
  {
    if k == 0 then 0 else CountOf(rs, kind, k - 1) + if rs[k - 1].kind == kind then 1 else 0
  }

  function Min(x: nat, y: nat): nat { if x <= y then x else y }

  /** The registers that are left to a run. */
  function GeneralLeft(c: Cursor): nat
    requires Good(c)
  {
    (48 - c.gp) / 8
  }

  function FloatLeft(c: Cursor): nat
    requires Good(c)
  {
    (176 - c.fp) / 16
  }

  lemma WordRounds(r: Request)
    requires IsOrdinary(r)
    ensures RoundUp(r.size, 8) == 8 && RoundUp(r.align, 8) == 8
  {}

  lemma NextWord(x: nat)
    requires x % 8 == 0
    ensures RoundUp(x + 8, 8) == x + 8
  {}

  lemma OrdinaryStep(c: Cursor, r: Request)
    requires Good(c) && IsOrdinary(r) && c.area % 8 == 0 && c.gp % 8 == 0
    ensures var d := After(c, r);
            && (r.kind.GenReg? && c.gp < 48 ==> SlotOf(c, r).addr == c.reg + c.gp && d == c.(gp := c.gp + 8))
            && (r.kind.FloatReg? && c.fp < 176 ==> SlotOf(c, r).addr == c.reg + c.fp && d == c.(fp := c.fp + 16))
            && (!(r.kind.GenReg? && c.gp < 48) && !(r.kind.FloatReg? && c.fp < 176) ==>
                  SlotOf(c, r).addr == c.area && d == c.(area := c.area + 8))
  {
    hide RoundUp, IsOrdinary;
    WordRounds(r);
    NextWord(c.area);
    assert c.gp < 48 ==> c.gp + 8 <= 48;
  }

  /** The cursor after k ordinary arguments, g of them general and f float ones. */
  function CursorAt(c: Cursor, g: nat, f: nat, k: nat): Cursor
    requires Good(c) && g + f <= k
  {
    var inGeneral, inFloat := Min(g, GeneralLeft(c)), Min(f, FloatLeft(c));
    Cursor(c.gp + 8 * inGeneral, c.fp + 16 * inFloat, c.area + 8 * (k - inGeneral - inFloat), c.reg)
  }

  lemma CursorParts(c: Cursor, g: nat, f: nat, k: nat)
    requires Good(c) && c.gp % 8 == 0 && c.area % 8 == 0 && g + f <= k
    ensures var d := CursorAt(c, g, f, k);
            && Good(d) && d.gp % 8 == 0 && d.area % 8 == 0
            && (if g < GeneralLeft(c) then d.gp == c.gp + 8 * g < 48 else d.gp == 48)
            && (if f < FloatLeft(c) then d.fp == c.fp + 16 * f < 176 else d.fp == 176)
  {}

  lemma CursorStart(c: Cursor)
    requires Good(c)
    ensures CursorAt(c, 0, 0, 0) == c
  {}

  lemma CursorSteps(c: Cursor, g: nat, f: nat, k: nat)
    requires Good(c) && g + f <= k
    ensures var d := CursorAt(c, g, f, k);
            && CursorAt(c, g, f, k + 1) == d.(area := d.area + 8)
            && CursorAt(c, g + 1, f, k + 1) ==
                 (if g < GeneralLeft(c) then d.(gp := d.gp + 8) else d.(area := d.area + 8))
            && CursorAt(c, g, f + 1, k + 1) ==
                 (if f < FloatLeft(c) then d.(fp := d.fp + 16) else d.(area := d.area + 8))
  {
    hide GeneralLeft, FloatLeft;
  }

  lemma {:induction false} CountsBelow(rs: seq<Request>, k: nat)
    requires k <= |rs|
    ensures CountOf(rs, GenReg, k) + CountOf(rs, FloatReg, k) <= k
  {
    if k == 0 {
    } else {
      CountsBelow(rs, k - 1);
    }
  }

  lemma OneMoreOrdinary(c: Cursor, g: nat, f: nat, k: nat, r: Request)
    requires Good(c) && c.gp % 8 == 0 && c.area % 8 == 0 && g + f <= k && IsOrdinary(r)
    ensures After(CursorAt(c, g, f, k), r) ==
            CursorAt(c, g + if r.kind.GenReg? then 1 else 0, f + if r.kind.FloatReg? then 1 else 0, k + 1)
  {
    hide After, SlotOf, IsOrdinary, GeneralLeft, FloatLeft, Good, CursorAt;
    CursorParts(c, g, f, k);
    CursorSteps(c, g, f, k);
    OrdinaryStep(CursorAt(c, g, f, k), r);
  }

  lemma CountNext(rs: seq<Request>, kind: Kind, k: nat)
    requires 0 < k <= |rs|
    ensures CountOf(rs, kind, k) == CountOf(rs, kind, k - 1) + if rs[k - 1].kind == kind then 1 else 0
  {}

  lemma OrdinaryAt(c: Cursor, rs: seq<Request>, k: nat, g: nat, f: nat)
    requires Good(c) && c.gp % 8 == 0 && c.area % 8 == 0 && k < |rs| && IsOrdinary(rs[k]) && g + f <= k
    requires AfterAll(c, rs[..k]) == CursorAt(c, g, f, k)
    ensures AfterAll(c, rs[..k + 1]) ==
            CursorAt(c, g + if rs[k].kind.GenReg? then 1 else 0, f + if rs[k].kind.FloatReg? then 1 else 0, k + 1)
  {
    hide After, SlotOf, IsOrdinary, GeneralLeft, FloatLeft, Good, AfterAll, CursorAt, Slots;
    SlotInRun(c, rs, k);
    OneMoreOrdinary(c, g, f, k, rs[k]);
  }

  lemma {:induction false} AfterOrdinary(c: Cursor, rs: seq<Request>, k: nat)
    requires Good(c) && c.gp % 8 == 0 && c.area % 8 == 0 && k <= |rs| && forall r :: r in rs ==> IsOrdinary(r)
    ensures CountOf(rs, GenReg, k) + CountOf(rs, FloatReg, k) <= k
    ensures AfterAll(c, rs[..k]) == CursorAt(c, CountOf(rs, GenReg, k), CountOf(rs, FloatReg, k), k)
    decreases k
  {
    hide IsOrdinary, Good, CursorAt;
    CountsBelow(rs, k);
    if k == 0 {
      CursorStart(c);
      assert rs[..0] == [];
    } else {
      hide AfterAll;
      AfterOrdinary(c, rs, k - 1);
      CountNext(rs, GenReg, k);
      CountNext(rs, FloatReg, k);
      OrdinaryAt(c, rs, k - 1, CountOf(rs, GenReg, k - 1), CountOf(rs, FloatReg, k - 1));
      hide CountOf;
    }
  }

  /** Ordinary arguments in any mixture: the general ones take the general registers that are left, in
      order, the float ones the float registers, and all others follow each other on the stack. */
  lemma OrdinaryRun(c: Cursor, rs: seq<Request>, k: nat)
    requires Good(c) && c.gp % 8 == 0 && c.area % 8 == 0 && k < |rs| && forall r :: r in rs ==> IsOrdinary(r)
    ensures var g, f := CountOf(rs, GenReg, k), CountOf(rs, FloatReg, k);
            var onStack := k - Min(g, GeneralLeft(c)) - Min(f, FloatLeft(c));
            Slots(c, rs)[k].addr ==
              if rs[k].kind.GenReg? && g < GeneralLeft(c) then c.reg + c.gp + 8 * g
              else if rs[k].kind.FloatReg? && f < FloatLeft(c) then c.reg + c.fp + 16 * f
              else c.area + 8 * onStack
  {
    hide After, SlotOf, IsOrdinary, GeneralLeft, FloatLeft, Good, AfterAll, Slots, CountOf;
    var g, f := CountOf(rs, GenReg, k), CountOf(rs, FloatReg, k);
    AfterOrdinary(c, rs, k);
    SlotInRun(c, rs, k);
    CursorParts(c, g, f, k);
    OrdinaryStep(AfterAll(c, rs[..k]), rs[k]);
  }
}
