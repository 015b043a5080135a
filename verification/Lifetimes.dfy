/** What a run of the bounds checker leaves, from the operations alone: which regions are live, which
    granules are invalid, and what memory that was freed reads as (lib/bcheck.c:316-339, 497-709). */
module Lifetimes {
  import opened Words32
  import opened Regions
  import opened Zones
  import opened Worlds
  import opened Startup

  // ----- the live regions

  lemma StepSeparate(w: World, op: Op)
    requires Separate(w.live) && Allowed(w, op)
    ensures Separate(Step(w, op).live)
  {
    hide ZonesAfterNew, ZonesAfterDelete, ReadsInvalidAt;
  }

  /** A creation adds its region, a deletion takes away the one that starts at its address. */
  lemma LiveStep(w: World, op: Op, r: Region)
    requires Separate(w.live) && Allowed(w, op)
    ensures r in Step(w, op).live <==>
              if op.New? then r in w.live || r == Region(op.p, op.size)
              else r in w.live && !(op.Delete? && op.p == r.start)
  {
    hide ZonesAfterNew, ZonesAfterDelete, ReadsInvalidAt;
    if op.Delete? && StartsAt(w.live, op.p) {
      var s :| s in w.live && s.start == op.p;
      DeletionOf(w, s);
      if r in w.live && r.start == op.p { ContainingIsUnique(w.live, r, s, op.p); }
    }
  }

  ghost predicate Deletes(ops: seq<Op>, from: nat, p: Word32) {
    exists k :: from <= k < |ops| && ops[k] == Delete(p)
  }

  /** A region is created, and not deleted after. */
  ghost predicate Creates(ops: seq<Op>, r: Region) {
    exists k :: 0 <= k < |ops| && ops[k] == New(r.start, r.size) && !Deletes(ops, k + 1, r.start)
  }

  lemma DeletesRest(ops: seq<Op>, k: nat, p: Word32)
    requires ops != []
    ensures Deletes(ops, k + 1, p) <==> Deletes(ops[1..], k, p)
    ensures Deletes(ops, 0, p) <==> ops[0] == Delete(p) || Deletes(ops[1..], 0, p)
  {
    if i :| k + 1 <= i < |ops| && ops[i] == Delete(p) { assert ops[1..][i - 1] == Delete(p); }
    if i :| k <= i < |ops[1..]| && ops[1..][i] == Delete(p) { assert ops[i + 1] == Delete(p); }
    if i :| 0 <= i < |ops| && ops[i] == Delete(p) { assert i > 0 ==> ops[1..][i - 1] == Delete(p); }
    if i :| 0 <= i < |ops[1..]| && ops[1..][i] == Delete(p) { assert ops[i + 1] == Delete(p); }
  }

  lemma CreatesRest(ops: seq<Op>, r: Region)
    requires ops != []
    ensures Creates(ops, r) <==>
              (ops[0] == New(r.start, r.size) && !Deletes(ops[1..], 0, r.start)) || Creates(ops[1..], r)
  {
    hide Deletes;
    DeletesRest(ops, 0, r.start);
    if k :| 0 <= k < |ops| && ops[k] == New(r.start, r.size) && !Deletes(ops, k + 1, r.start) {
      DeletesRest(ops, k, r.start);
      if k > 0 { assert ops[1..][k - 1] == New(r.start, r.size); DeletesRest(ops, k, r.start); }
    }
    if k :| 0 <= k < |ops[1..]| && ops[1..][k] == New(r.start, r.size) && !Deletes(ops[1..], k + 1, r.start) {
      DeletesRest(ops, k + 1, r.start);
      assert ops[k + 1] == New(r.start, r.size);
    }
  }

  /** After any run a region is live exactly if it was live or has been created, and has not been deleted since. */
  lemma {:induction false} LiveAfterRun(w: World, ops: seq<Op>, r: Region)
    requires Separate(w.live) && Legal(w, ops)
    ensures r in Final(w, ops).live <==> Creates(ops, r) || (r in w.live && !Deletes(ops, 0, r.start))
    decreases ops
  {
    if ops == [] {
    } else {
      StepSeparate(w, ops[0]);
      LiveStep(w, ops[0], r);
      CreatesRest(ops, r);
      DeletesRest(ops, 0, r.start);
      hide Creates, Deletes, Step, Allowed, Separate;
      LiveAfterRun(Step(w, ops[0]), ops[1..], r);
    }
  }

  // ----- the flags

  /** The operation creates a region that touches the page. */
  predicate Spans(op: Op, page: int) {
    op.New? && op.p / GRANULE / PAGE <= page <= (op.p + op.size) / GRANULE / PAGE
  }

  /** Only a creation changes flags: it drops those of the shared pages that it spans. It leaves all
      others alone, those of its own granules in pages that were not shared included. */
  lemma FlagStep(w: World, op: Op, g: int)
    ensures g in Step(w, op).zones.flagged <==>
              g in w.zones.flagged && !(Spans(op, g / PAGE) && g / PAGE !in w.zones.own)
    ensures g / PAGE in Step(w, op).zones.own <==> g / PAGE in w.zones.own || Spans(op, g / PAGE)
  {}

  ghost predicate SpansSome(ops: seq<Op>, page: int) {
    exists k :: 0 <= k < |ops| && Spans(ops[k], page)
  }

  /** Over whole runs: in a page that is not shared no flag ever changes; in one that is shared all of
      them are dropped once a region spans it. */
  lemma {:induction false} FlagsAfterRun(w: World, ops: seq<Op>, g: int)
    ensures g in Final(w, ops).zones.flagged <==>
              g in w.zones.flagged && (g / PAGE in w.zones.own || !SpansSome(ops, g / PAGE))
    ensures g / PAGE in Final(w, ops).zones.own <==> g / PAGE in w.zones.own || SpansSome(ops, g / PAGE)
    decreases ops
  {
    if ops == [] {
    } else {
      FlagStep(w, ops[0], g);
      hide Step, Spans;
      FlagsAfterRun(Step(w, ops[0]), ops[1..], g);
      if k :| 0 <= k < |ops| && Spans(ops[k], g / PAGE) { assert k > 0 ==> Spans(ops[1..][k - 1], g / PAGE); }
      if k :| 0 <= k < |ops[1..]| && Spans(ops[1..][k], g / PAGE) { assert Spans(ops[k + 1], g / PAGE); }
    }
  }

  // ----- what an address outside the live regions reads as

  /** An access through the address is turned away, unless it ends with memory and so wraps to null. */
  ghost predicate TurnedAway(w: World, q: Word32) {
    forall offset: Word32, n: Word32, reply: Reply :: Answers(w, Access(q, offset, n), reply) ==>
      reply == Pointer(if Plus32(Plus32(q, offset), n) == 0 then Plus32(q, offset) else INVALID_POINTER)
  }

  ghost predicate LetThrough(w: World, q: Word32) {
    forall offset: Word32, n: Word32, reply: Reply :: Answers(w, Access(q, offset, n), reply) ==>
      reply == Pointer(Plus32(q, offset))
  }

  lemma InvalidTurnsAway(w: World, q: Word32)
    requires Outside(w.live, q)
    ensures if ReadsInvalidAt(w.zones, w.live, q) then TurnedAway(w, q) else LetThrough(w, q)
  {
    hide ReadsInvalidAt, Outside, Plus32;
  }

  ghost predicate Untouched(live: set<Region>, g: int) {
    forall r :: r in live ==> !Touches(r, g)
  }

  /** Memory that was freed: where the region began in an invalid zone, all its addresses in granules
      that are flagged are invalid from then on, and where it did not, all that no live region's
      granule holds are open. */
  lemma AfterFree(w: World, r: Region, q: Word32)
    requires Separate(w.live) && r in w.live && Contains(r, q)
    ensures var w' := Step(w, Delete(r.start));
            && (r.start / GRANULE in w.zones.flagged && q / GRANULE in w.zones.flagged && Outside(w'.live, q) ==>
                  ReadsInvalidAt(w'.zones, w'.live, q) && TurnedAway(w', q))
            && (r.start / GRANULE !in w.zones.flagged && Untouched(w'.live, q / GRANULE) ==>
                  !ReadsInvalidAt(w'.zones, w'.live, q) && Outside(w'.live, q) && LetThrough(w', q))
  {
    hide TurnedAway, LetThrough;
    DeletionOf(w, r);
    var w' := Step(w, Delete(r.start));
    ContainsTouches(r, q);
    if Untouched(w'.live, q / GRANULE) {
      forall s | s in w'.live ensures !Contains(s, q) {
        if Contains(s, q) { ContainsTouches(s, q); }
      }
    }
    if Outside(w'.live, q) { InvalidTurnsAway(w', q); }
  }

  /** What every address but null reads as after a deletion, from what it read before. */
  lemma DeletionReads(w: World, r: Region, q: Word32)
    requires Separate(w.live) && r in w.live && q > 0
    ensures var w' := Step(w, Delete(r.start));
            ReadsInvalidAt(w'.zones, w'.live, q) <==>
              if !Touches(r, q / GRANULE) then ReadsInvalidAt(w.zones, w.live, q)
              else
                && q / GRANULE in w.zones.flagged
                && (r.start / GRANULE in w.zones.flagged || !Untouched(w'.live, q / GRANULE))
  {
    DeletionOf(w, r);
  }

  /** And after a creation. */
  lemma CreationReads(w: World, p: Word32, size: Word32, q: Word32)
    requires Allowed(w, New(p, size)) && q > 0
    ensures var w', page := Step(w, New(p, size)), q / GRANULE / PAGE;
            ReadsInvalidAt(w'.zones, w'.live, q) <==>
              if Spans(New(p, size), page) && page !in w.zones.own then false
              else if Touches(Region(p, size), q / GRANULE) then q / GRANULE in w.zones.flagged
              else ReadsInvalidAt(w.zones, w.live, q)
  {
  }

  /** A creation in a page that is not shared makes no invalid address valid, but for those that it
      takes into its region. */
  lemma AfterCreation(w: World, p: Word32, size: Word32, q: Word32)
    requires Allowed(w, New(p, size)) && q > 0 && q / GRANULE / PAGE in w.zones.own
    requires ReadsInvalidAt(w.zones, w.live, q)
    ensures var w' := Step(w, New(p, size));
            ReadsInvalidAt(w'.zones, w'.live, q) && (Outside(w'.live, q) ==> TurnedAway(w', q))
  {
    hide TurnedAway, LetThrough;
    var w' := Step(w, New(p, size));
    if Outside(w'.live, q) { InvalidTurnsAway(w', q); }
  }

  // ----- a heap

  /** Every granule of the heap is invalid, in a page that is not shared, and a region that touches
      the heap begins in it. */
  ghost predicate IsHeap(w: World, heap: set<int>) {
    && (forall g :: g in heap ==> g in w.zones.flagged && g in w.zones.shut && g / PAGE in w.zones.own)
    && (forall r, g :: r in w.live && g in heap && Touches(r, g) ==> r.start / GRANULE in heap)
  }

  /** Regions are created in the heap or apart from it. */
  ghost predicate RespectsHeap(op: Op, heap: set<int>) {
    op.New? ==> op.p / GRANULE in heap || forall g :: g in heap ==> !Touches(Region(op.p, op.size), g)
  }

  lemma HeapStep(w: World, op: Op, heap: set<int>)
    requires Separate(w.live) && Allowed(w, op) && IsHeap(w, heap) && RespectsHeap(op, heap)
    ensures IsHeap(Step(w, op), heap)
  {
  }

  /** Use after free, over whole runs: outside the live regions the heap is invalid at all times. */
  lemma {:induction false} HeapIsGuarded(w: World, ops: seq<Op>, heap: set<int>, q: Word32)
    requires Separate(w.live) && Legal(w, ops) && IsHeap(w, heap) && forall op :: op in ops ==> RespectsHeap(op, heap)
    requires q / GRANULE in heap && Outside(Final(w, ops).live, q)
    ensures ReadsInvalidAt(Final(w, ops).zones, Final(w, ops).live, q) && TurnedAway(Final(w, ops), q)
    decreases ops
  {
    hide TurnedAway, LetThrough;
    if ops == [] {
      InvalidTurnsAway(w, q);
    } else {
      assert ops[0] in ops && forall op :: op in ops[1..] ==> op in ops;
      StepSeparate(w, ops[0]);
      HeapStep(w, ops[0], heap);
      hide Step, IsHeap, RespectsHeap, Allowed, Separate;
      HeapIsGuarded(Step(w, ops[0]), ops[1..], heap, q);
    }
  }

  lemma InitiallyOwn(brk: Word32, page: int)
    ensures page in InitialZones(brk).own <==> page in PagesOpened(FirstWhole(brk), EndWhole(brk, MALLOC_ZONE))
  {
    PointerZoneIs();
    hide PointerZone, PagesOpened, FirstWhole, EndWhole;
    OwnAfterMark(PointerZone(), FirstWhole(brk), EndWhole(brk, MALLOC_ZONE));
  }

  /** The part of the malloc zone in its first page, where it begins inside that page, is such a heap
      from the start. */
  lemma HeapAtFirst(brk: Word32)
    requires brk < 0xf7f8_0000 && FirstWhole(brk) % PAGE > 0
    ensures IsHeap(World({}, InitialZones(brk)), Range(FirstWhole(brk), (FirstWhole(brk) / PAGE + 1) * PAGE))
  {
    var lo, hi := FirstWhole(brk), EndWhole(brk, MALLOC_ZONE);
    ZoneGranules(brk);
    hide InitialZones, FirstWhole, EndWhole;
    forall g | lo <= g < (lo / PAGE + 1) * PAGE
      ensures g in InitialZones(brk).flagged && g in InitialZones(brk).shut && g / PAGE in InitialZones(brk).own
    {
      assert g / PAGE == lo / PAGE && lo % PAGE <= g % PAGE && hi / PAGE > lo / PAGE + 1;
      InitialFlags(brk, g);
      InitiallyOwn(brk, g / PAGE);
    }
  }

  /** The full pages of the zone are shared, and the first region in one of them takes the marks of all
      its other granules along: 64 kilobytes above it the memory reads as valid. */
  lemma MarksLost()
    ensures var w := World({}, InitialZones(0x804_a100));
            var w' := Step(w, New(0x808_0010, 16));
            && ReadsInvalidAt(w.zones, w.live, 0x809_0000) && !ReadsInvalidAt(w'.zones, w'.live, 0x809_0000)
            && LetThrough(w', 0x809_0000)
  {
    hide LetThrough, TurnedAway, InitialZones, ZonesAfterNew, Marked, PagesOpened;
    var w, op := World({}, InitialZones(0x804_a100)), New(0x808_0010, 16);
    MarkedBefore();
    CreationReads(w, 0x808_0010, 16, 0x809_0000);
    LiveStep(w, op, Region(0x808_0010, 16));
    InvalidTurnsAway(Step(w, op), 0x809_0000);
  }

  lemma MarkedBefore()
    ensures var z := InitialZones(0x804_a100); 0x80900 in z.flagged && 0x80900 in z.shut && 0x101 !in z.own
  {
    ZoneGranules(0x804_a100);
    InitialFlags(0x804_a100, 0x80900);
    InitiallyOwn(0x804_a100, 0x101);
    hide InitialZones, FirstWhole, EndWhole;
  }
}
