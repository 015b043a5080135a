/** How a run of the bounds checker begins (lib/bcheck.c:395-478): which addresses are invalid before
    any region is created, and what becomes of the invalid pointer. */
module Startup {
  import opened Power2
  import opened Words32
  import opened Regions
  import opened Zones
  import opened Worlds

  const LAST_PAGE := PAGES - 1
  const MALLOC_ZONE: Word32 := 0x800_0000

  /** What the first marking leaves, of the page that holds the invalid pointer. */
  function PointerZone(): Zones {
    ZonesAfterMark(Zones({}, {}, {}), FirstWhole(0xfff8_0000), EndWhole(0xfff8_0000, 0x8_0000))
  }

  /** What the second one leaves, of 128 megabytes from brk. */
  function InitialZones(brk: Word32): Zones {
    ZonesAfterMark(PointerZone(), FirstWhole(brk), EndWhole(brk, MALLOC_ZONE))
  }

  function Creations(rs: seq<Region>): (ops: seq<Op>)
    ensures |ops| == |rs| && forall i :: 0 <= i < |rs| ==> ops[i] == New(rs[i].start, rs[i].size)
  {
    seq(|rs|, i requires 0 <= i < |rs| => New(rs[i].start, rs[i].size))
  }

  // ----- the initial flags

  lemma PointerZoneIs()
    ensures PointerZone().own == {} && PointerZone().shut == PointerZone().flagged
    ensures forall g :: g in PointerZone().flagged <==> 0 <= g < GRANULES && g / PAGE == LAST_PAGE
  {
    var lo, hi := FirstWhole(0xfff8_0000), EndWhole(0xfff8_0000, 0x8_0000);
    OwnAfterMark(Zones({}, {}, {}), lo, hi);
    assert PagesOpened(lo, hi) == {};
    LastPageMarked();
    forall g | 0 <= g < GRANULES ensures Marked(lo, hi, g) <==> g / PAGE == LAST_PAGE {
      assert g == GranuleOf(g / PAGE, g % PAGE);
    }
  }

  /** A granule is flagged at first if the second marking marks it, or if it lies in the last page and
      that was not opened by the second marking. */
  lemma InitialFlags(brk: Word32, g: int)
    requires 0 <= g < GRANULES
    ensures var lo, hi := FirstWhole(brk), EndWhole(brk, MALLOC_ZONE);
            g in InitialZones(brk).flagged <==>
              Marked(lo, hi, g) || (g / PAGE == LAST_PAGE && LAST_PAGE !in PagesOpened(lo, hi))
    ensures InitialZones(brk).shut == InitialZones(brk).flagged
  {
    PointerZoneIs();
    hide PointerZone, Marked, PagesOpened, FirstWhole, EndWhole;
    OwnAfterMark(PointerZone(), FirstWhole(brk), EndWhole(brk, MALLOC_ZONE));
  }

  /** The malloc zone ends inside the last page, which is so opened. */
  predicate EndsInLastPage(brk: Word32) { 0xf7f8_0100 <= brk <= 0xf7ff_ffff }

  /** The malloc zone begins inside the last page, past its first granule. */
  predicate BeginsInLastPage(brk: Word32) { 0xfff8_0000 < brk <= 0xffff_ff00 }

  /** The bounds of the malloc zone in granules, which may wrap. */
  lemma ZoneGranules(brk: Word32)
    ensures FirstWhole(brk) == if brk <= 0xffff_ff00 then (brk + GRANULE - 1) / GRANULE else 0
    ensures EndWhole(brk, MALLOC_ZONE) ==
            if brk <= 0xf800_0000 then brk / GRANULE + 0x8_0000 else brk / GRANULE - 0xf8_0000
  {
    DivModUnique(brk + MALLOC_ZONE, GRANULE, brk / GRANULE + 0x8_0000, brk % GRANULE);
    DivModUnique(brk - 0xf800_0000, GRANULE, brk / GRANULE - 0xf8_0000, brk % GRANULE);
  }

  lemma ZoneBounds(brk: Word32)
    ensures var lo, hi := FirstWhole(brk), EndWhole(brk, MALLOC_ZONE);
            && (EndsInLastPage(brk) ==> lo / PAGE < LAST_PAGE == hi / PAGE && hi % PAGE > 0)
            && (BeginsInLastPage(brk) ==> lo / PAGE == LAST_PAGE > hi / PAGE + 1 && lo % PAGE > 0)
            && (!EndsInLastPage(brk) && !BeginsInLastPage(brk) ==> LAST_PAGE !in PagesOpened(lo, hi))
            && !(EndsInLastPage(brk) && BeginsInLastPage(brk))
  {
    ZoneGranules(brk);
    hide FirstWhole, EndWhole;
  }

  lemma LastPageFlags(brk: Word32, g: int)
    requires g / PAGE == LAST_PAGE
    ensures g in InitialZones(brk).flagged <==>
              if EndsInLastPage(brk) then g < EndWhole(brk, MALLOC_ZONE)
              else BeginsInLastPage(brk) ==> FirstWhole(brk) <= g
  {
    InitialFlags(brk, g);
    ZoneBounds(brk);
    hide InitialZones, FirstWhole, EndWhole, EndsInLastPage, BeginsInLastPage;
  }

  /** The granule of the invalid pointer. */
  lemma LastGranule(brk: Word32)
    ensures GRANULES - 1 in InitialZones(brk).flagged <==> !EndsInLastPage(brk)
  {
    LastPageFlags(brk, GRANULES - 1);
    ZoneBounds(brk);
    hide InitialZones, FirstWhole, EndWhole, EndsInLastPage, BeginsInLastPage, PagesOpened;
  }

  lemma InvalidPointerIff(brk: Word32)
    ensures ReadsInvalidAt(InitialZones(brk), {}, INVALID_POINTER) <==> !EndsInLastPage(brk)
  {
    LastGranule(brk);
    InitialFlags(brk, GRANULES - 1);
    hide InitialZones, FirstWhole, EndWhole, EndsInLastPage, PagesOpened, Marked;
  }

  /** The page of the invalid pointer is invalid as a whole unless the malloc zone ends or begins
      inside it. */
  lemma PointerZoneIff(brk: Word32)
    ensures (forall g :: g / PAGE == LAST_PAGE ==> g in InitialZones(brk).flagged) <==>
              !EndsInLastPage(brk) && !BeginsInLastPage(brk)
  {
    hide InitialZones, FirstWhole, EndWhole, EndsInLastPage, BeginsInLastPage, PagesOpened;
    forall g | g / PAGE == LAST_PAGE && !EndsInLastPage(brk) && !BeginsInLastPage(brk)
      ensures g in InitialZones(brk).flagged
    {
      LastPageFlags(brk, g);
    }
    LastGranule(brk);
    LastPageFlags(brk, LAST_PAGE * PAGE);
    ZoneBounds(brk);
  }

  /** The second marking marks the malloc zone, as much of it as is memory, and nothing else. */
  lemma MallocZoneIff(brk: Word32)
    ensures MarksRange(brk, MALLOC_ZONE) <==> brk <= 0xf800_0000 || 0xfff8_0000 < brk <= 0xfff8_00ff
  {
    MarksRangeIffMarkable(brk, MALLOC_ZONE);
    hide MarksRange, Marked;
    ZoneGranules(brk);
    hide FirstWhole, EndWhole;
  }

  /** The granules that initialisation is to flag: the last page, and those inside the malloc zone. */
  predicate ToFlag(brk: Word32, g: int) {
    g / PAGE == LAST_PAGE || (brk <= g * GRANULE && (g + 1) * GRANULE <= brk + MALLOC_ZONE)
  }

  ghost predicate FlagsZones(brk: Word32) {
    forall g :: 0 <= g < GRANULES ==> (g in InitialZones(brk).flagged <==> ToFlag(brk, g))
  }

  /** When it flags exactly those. */
  predicate GoodBreak(brk: Word32) {
    brk < 0xf7f8_0100 || brk == 0xf800_0000 || 0xfff0_0000 < brk < 0xfff0_0100 || brk == 0xfff8_0000
  }

  lemma FlagsZonesIff(brk: Word32)
    ensures FlagsZones(brk) <==> GoodBreak(brk)
  {
    if GoodBreak(brk) {
      forall g | 0 <= g < GRANULES ensures g in InitialZones(brk).flagged <==> ToFlag(brk, g) {
        FlaggedRight(brk, g);
      }
    } else {
      var g := FlaggedWrong(brk);
    }
  }

  lemma FlaggedRight(brk: Word32, g: int)
    requires GoodBreak(brk) && 0 <= g < GRANULES
    ensures g in InitialZones(brk).flagged <==> ToFlag(brk, g)
  {
    InitialFlags(brk, g);
    hide InitialZones;
    if brk <= 0xf800_0000 {
      BeforeLastPage(brk);
      MallocZoneIff(brk);
      hide Marked, PagesOpened, FirstWhole, EndWhole;
      assert brk == 0xf800_0000 && g / PAGE == LAST_PAGE ==> brk <= g * GRANULE;
    } else {
      ZoneGranules(brk);
      hide FirstWhole, EndWhole;
    }
  }

  lemma BeforeLastPage(brk: Word32)
    requires brk < 0xf7f8_0100 || brk == 0xf800_0000
    ensures LAST_PAGE !in PagesOpened(FirstWhole(brk), EndWhole(brk, MALLOC_ZONE))
  {
    ZoneBounds(brk);
  }

  lemma FlaggedWrong(brk: Word32) returns (g: int)
    requires !GoodBreak(brk)
    ensures 0 <= g < GRANULES && !(g in InitialZones(brk).flagged <==> ToFlag(brk, g))
  {
    hide InitialZones, EndWhole, FirstWhole, Marked;
    if EndsInLastPage(brk) || BeginsInLastPage(brk) {
      g := if EndsInLastPage(brk) then GRANULES - 1 else LAST_PAGE * PAGE;
      LastPageFlags(brk, g);
      ZoneBounds(brk);
    } else if brk > 0xffff_ff00 {
      g := 0;
      ZeroMarked(brk);
    } else {
      g := WrapsWrong(brk);
    }
  }

  lemma ZeroMarked(brk: Word32)
    requires brk > 0xffff_ff00
    ensures 0 in InitialZones(brk).flagged
  {
    InitialFlags(brk, 0);
    ZoneGranules(brk);
    hide InitialZones, FirstWhole, EndWhole, PagesOpened;
  }

  lemma WrapsWrong(brk: Word32) returns (g: int)
    requires 0xf800_0000 < brk < 0xfff8_0000 && !GoodBreak(brk)
    ensures 0 <= g < GRANULES && !(g in InitialZones(brk).flagged <==> ToFlag(brk, g))
  {
    ZoneGranules(brk);
    var hi := EndWhole(brk, MALLOC_ZONE);
    g := if hi % PAGE != 0 then hi / PAGE * PAGE else LAST_PAGE * PAGE - 1;
    InitialFlags(brk, g);
    hide InitialZones, FirstWhole, EndWhole, PagesOpened;
  }

  /** With a malloc zone that ends 256 bytes into the last page, the invalid pointer can be moved like
      a valid one; and 16 megabytes below the end of memory a malloc zone is not marked. */
  lemma ExposedPointer()
    ensures var w := World({}, InitialZones(0xf7f8_0200));
            !ReadsInvalidAt(w.zones, {}, INVALID_POINTER) && forall q :: Moved(w, INVALID_POINTER, 16, q) ==> q == 14
    ensures !MarksRange(0xf900_0000, MALLOC_ZONE)
  {
    InvalidPointerIff(0xf7f8_0200);
    MallocZoneIff(0xf900_0000);
    hide InitialZones, ReadsInvalidAt;
  }

  // ----- the invalid pointer in a run

  /** No operation of a run creates a region that reaches into the last page. */
  ghost predicate SparesLastPage(ops: seq<Op>) {
    forall k :: 0 <= k < |ops| && ops[k].New? ==> (ops[k].p + ops[k].size) / GRANULE / PAGE < LAST_PAGE
  }

  /** The invalid pointer is invalid, and no region is in its page. */
  ghost predicate Guarded(w: World) {
    && GRANULES - 1 in w.zones.flagged && GRANULES - 1 in w.zones.shut
    && forall r :: r in w.live ==> (r.start + r.size) / GRANULE / PAGE < LAST_PAGE
  }

  lemma GuardedReads(w: World)
    requires Guarded(w)
    ensures ReadsInvalidAt(w.zones, w.live, INVALID_POINTER) && Outside(w.live, INVALID_POINTER)
  {}

  lemma GuardedStep(w: World, op: Op)
    requires Guarded(w) && (op.New? ==> (op.p + op.size) / GRANULE / PAGE < LAST_PAGE)
    ensures Guarded(Step(w, op))
  {}

  /** What a guarded world answers when the invalid pointer is moved or followed. An access that ends
      with memory, and so wraps to null, passes. */
  ghost predicate StaysInvalid(op: Op, reply: Reply) {
    && (op.Move? && op.p == INVALID_POINTER ==> reply == Pointer(INVALID_POINTER))
    && (op.Access? && op.p == INVALID_POINTER ==>
          reply == Pointer(if Plus32(op.offset, op.n) == 2 then Plus32(op.p, op.offset) else INVALID_POINTER))
  }

  lemma GuardedAnswers(w: World, op: Op, reply: Reply)
    requires Guarded(w) && Answers(w, op, reply)
    ensures StaysInvalid(op, reply)
  {
    GuardedReads(w);
  }

  lemma SparesRest(ops: seq<Op>)
    requires SparesLastPage(ops) && ops != []
    ensures SparesLastPage(ops[1..])
  {
    forall k | 0 <= k < |ops[1..]| && ops[1..][k].New?
      ensures (ops[1..][k].p + ops[1..][k].size) / GRANULE / PAGE < LAST_PAGE
    {
      assert ops[1..][k] == ops[k + 1];
    }
  }

  /** A run that spares the last page leaves the invalid pointer invalid. */
  lemma {:induction false} GuardedRun(w: World, ops: seq<Op>)
    requires Guarded(w) && SparesLastPage(ops)
    ensures Guarded(Final(w, ops))
    decreases ops
  {
    if ops == [] {
    } else {
      SparesRest(ops);
      GuardedStep(w, ops[0]);
      hide Guarded, Step, SparesLastPage;
      GuardedRun(Step(w, ops[0]), ops[1..]);
    }
  }

  /** All along such a run it stays so, whatever is done with it. */
  lemma {:induction false} InvalidStays(w: World, ops: seq<Op>, replies: seq<Reply>)
    requires Guarded(w) && SparesLastPage(ops) && Faithful(w, ops, replies)
    ensures forall k :: 0 <= k < |ops| ==> StaysInvalid(ops[k], replies[k])
    decreases ops
  {
    if ops == [] {
    } else {
      SparesRest(ops);
      GuardedStep(w, ops[0]);
      hide Guarded, Answers, Step, StaysInvalid, SparesLastPage;
      GuardedAnswers(w, ops[0], replies[0]);
      InvalidStays(Step(w, ops[0]), ops[1..], replies[1..]);
      forall k | 0 <= k < |ops| ensures StaysInvalid(ops[k], replies[k]) {
        if k > 0 { assert ops[k] == ops[1..][k - 1] && replies[k] == replies[1..][k - 1]; }
      }
    }
  }

  /** It is invalid from the start exactly if the malloc zone does not end in the last page. */
  lemma GuardedAtFirst(brk: Word32)
    ensures Guarded(World({}, InitialZones(brk))) <==> !EndsInLastPage(brk)
  {
    LastGranule(brk);
    InitialFlags(brk, GRANULES - 1);
    hide InitialZones, FirstWhole, EndWhole, EndsInLastPage, PagesOpened, Marked;
  }
}
