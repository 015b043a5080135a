/** The invalid zones of memory: how an address range is marked, and what becomes of the marks as
    regions come and go (lib/bcheck.c:342-393, 497-709). */
module Zones {
  import opened Power2
  import opened Words32
  import opened Regions

  // ----- marking granules invalid (mark_invalid)

  /** The bounds that the code computes from an address range. */
  function FirstWhole(addr: Word32): nat { Plus32(addr, GRANULE - 1) / GRANULE }

  function EndWhole(addr: Word32, size: Word32): nat {
    var end := Plus32(addr, size);
    if end != 0 then end / GRANULE else GRANULES
  }

  /** Where nothing wraps, they delimit the granules that lie wholly inside the range. */
  lemma WholeGranules(addr: Word32, size: Word32, g: nat)
    requires addr + GRANULE - 1 < W32 && 0 < addr + size <= W32
    ensures FirstWhole(addr) <= g < EndWhole(addr, size) <==> addr <= g * GRANULE && (g + 1) * GRANULE <= addr + size
    ensures FirstWhole(addr) <= EndWhole(addr, size) + 1
  {}

  /** The granules that the code marks, given the bounds lo and hi of the range in granules. */
  predicate Marked(lo: nat, hi: nat, g: int) {
    var firstFull, endFull := (lo + PAGE - 1) / PAGE, hi / PAGE;
    var i, j := lo % PAGE, hi % PAGE;
    if firstFull == endFull then g / PAGE == lo / PAGE && i <= g % PAGE < j
    else
      || (i > 0 && g / PAGE == lo / PAGE && i <= g % PAGE)
      || firstFull <= g / PAGE < endFull
      || (j != 0 && g / PAGE == endFull && g % PAGE < j)
  }

  lemma MarkedParts(lo: nat, hi: nat)
    ensures forall k: int, j: int :: 0 <= j < PAGE ==>
              (Marked(lo, hi, GranuleOf(k, j)) <==>
                if (lo + PAGE - 1) / PAGE == hi / PAGE then k == lo / PAGE && lo % PAGE <= j < hi % PAGE
                else
                  || (lo % PAGE > 0 && k == lo / PAGE && lo % PAGE <= j)
                  || (lo + PAGE - 1) / PAGE <= k < hi / PAGE
                  || (hi % PAGE != 0 && k == hi / PAGE && j < hi % PAGE))
  {
    forall k: int, j: int | 0 <= j < PAGE
      ensures GranuleOf(k, j) / PAGE == k && GranuleOf(k, j) % PAGE == j
    {
      DivModUnique(GranuleOf(k, j), PAGE, k, j);
    }
  }

  lemma MarkBounds(addr: Word32, size: Word32)
    ensures Shr32(Plus32(addr, GRANULE - 1), 8) == FirstWhole(addr) < GRANULES
    ensures EndWhole(addr, size) == if Plus32(addr, size) != 0 then Shr32(Plus32(addr, size), 8) else GRANULES
    ensures EndWhole(addr, size) <= GRANULES
  {
    assert Pow2(8) == 0x100;
  }

  /** The range contains a full page, or starts at a page boundary and does not end before it. */
  predicate MarksWell(lo: nat, hi: nat) {
    (lo + PAGE - 1) / PAGE < hi / PAGE || (lo % PAGE == 0 && lo <= hi)
  }

  /** Exactly then does the code mark the granules from lo to hi. */
  lemma MarkedIsRange(lo: nat, hi: nat)
    requires lo < GRANULES && hi <= GRANULES && lo <= hi + 1
    ensures (forall g :: 0 <= g < GRANULES ==> (Marked(lo, hi, g) <==> lo <= g < hi)) <==> MarksWell(lo, hi)
  {
    if MarksWell(lo, hi) {
      forall g | 0 <= g < GRANULES
        ensures Marked(lo, hi, g) <==> lo <= g < hi
      {
        MarkedRight(lo, hi, g);
      }
    } else {
      var g := MarkedWrong(lo, hi);
    }
  }

  lemma MarkedRight(lo: nat, hi: nat, g: nat)
    requires MarksWell(lo, hi)
    ensures Marked(lo, hi, g) <==> lo <= g < hi
  {}

  lemma MarkedWrong(lo: nat, hi: nat) returns (g: nat)
    requires lo < GRANULES && hi <= GRANULES && lo <= hi + 1 && !MarksWell(lo, hi)
    ensures g < GRANULES && !(Marked(lo, hi, g) <==> lo <= g < hi)
  {
    var i := lo % PAGE;
    var firstFull, endFull := (lo + PAGE - 1) / PAGE, hi / PAGE;
    if i == 0 {
      g := endFull * PAGE;
    } else if firstFull == endFull {
      g := firstFull * PAGE - 1;
    } else if hi >= lo {
      g := lo / PAGE * PAGE + PAGE - 1;
    } else {
      g := lo;
    }
  }

  /** The code marks exactly the granules that lie wholly inside the range that it was given. */
  ghost predicate MarksRange(addr: Word32, size: Word32) {
    forall g :: 0 <= g < GRANULES ==>
      (Marked(FirstWhole(addr), EndWhole(addr, size), g) <==> addr <= g * GRANULE && (g + 1) * GRANULE <= addr + size)
  }

  /** When it does. Rounding the start up wraps in the last 255 bytes of memory; the end wraps
      beyond memory, and is taken for the end of memory when it is zero. */
  predicate Markable(addr: Word32, size: Word32) {
    var lo, hi := FirstWhole(addr), EndWhole(addr, size);
    if addr + GRANULE - 1 >= W32 then hi == 0
    else if addr + size > W32 then lo % PAGE != 0 && lo / PAGE == PAGES - 1 && hi % PAGE == 0
    else addr + size > 0 && MarksWell(lo, hi)
  }

  /** The condition is exact for every address and size. */
  lemma MarksRangeIffMarkable(addr: Word32, size: Word32)
    ensures MarksRange(addr, size) <==> Markable(addr, size)
  {
    var lo, hi := FirstWhole(addr), EndWhole(addr, size);
    if addr + GRANULE - 1 >= W32 {
      MarkedFromZero(addr, size);
    } else if addr + size > W32 {
      MarkedPastEnd(addr, size);
    } else if addr + size == 0 {
      MarkedRight(lo, hi, 77);
    } else {
      MarkedInMemory(addr, size);
    }
  }

  /** Nothing wraps. */
  lemma MarkedInMemory(addr: Word32, size: Word32)
    requires addr + GRANULE - 1 < W32 && 0 < addr + size <= W32
    ensures MarksRange(addr, size) <==> MarksWell(FirstWhole(addr), EndWhole(addr, size))
  {
    hide Marked, MarksWell, FirstWhole, EndWhole;
    var lo, hi := FirstWhole(addr), EndWhole(addr, size);
    BoundsInMemory(addr, size);
    MarkedIsRange(lo, hi);
    forall g | 0 <= g < GRANULES
      ensures (Marked(lo, hi, g) <==> addr <= g * GRANULE && (g + 1) * GRANULE <= addr + size) <==>
                (Marked(lo, hi, g) <==> lo <= g < hi)
    {
      WholeGranules(addr, size, g);
    }
  }

  lemma BoundsInMemory(addr: Word32, size: Word32)
    requires addr + GRANULE - 1 < W32 && 0 < addr + size <= W32
    ensures FirstWhole(addr) < GRANULES && EndWhole(addr, size) <= GRANULES &&
            FirstWhole(addr) <= EndWhole(addr, size) + 1
  {}

  /** The rounded start wraps to zero: the granules from there to the end are marked. */
  lemma MarkedFromZero(addr: Word32, size: Word32)
    requires addr + GRANULE - 1 >= W32
    ensures MarksRange(addr, size) <==> EndWhole(addr, size) == 0
  {
    var hi := EndWhole(addr, size);
    assert FirstWhole(addr) == 0;
    forall g: nat ensures Marked(0, hi, g) <==> 0 <= g < hi {
      MarkedRight(0, hi, g);
    }
    if hi > 0 { assert Marked(0, hi, 0); }
  }

  /** The end wraps: the granules up to the end of memory should be marked. */
  lemma MarkedPastEnd(addr: Word32, size: Word32)
    requires addr + GRANULE - 1 < W32 < addr + size
    ensures MarksRange(addr, size) <==> Markable(addr, size)
  {
    var lo, hi := FirstWhole(addr), EndWhole(addr, size);
    assert 0 < lo < GRANULES && hi <= lo;
    forall g | 0 <= g < GRANULES
      ensures addr <= g * GRANULE && (g + 1) * GRANULE <= addr + size <==> lo <= g
    {}
    if lo % PAGE != 0 && lo / PAGE == PAGES - 1 {
      var g := hi / PAGE * PAGE;
      assert Marked(lo, hi, g) <==> hi % PAGE != 0;
      assert 0 <= g < lo;
    } else {
      assert !Marked(lo, hi, GRANULES - 1);
    }
  }

  /** The last 128 bytes of memory, no bytes at all, a hundred granules inside one page, and a range
      that ends beyond memory. */
  lemma MarkedWrongly()
    ensures !MarksRange(0xffff_ff80, 0x80) && Marked(FirstWhole(0xffff_ff80), EndWhole(0xffff_ff80, 0x80), 77)
    ensures !MarksRange(0, 0) && Marked(FirstWhole(0), EndWhole(0, 0), 77)
    ensures !MarksRange(0x6400, 0x6400) && Marked(FirstWhole(0x6400), EndWhole(0x6400, 0x6400), 77)
    ensures !MarksRange(0xffff_0000, 0x2_0000) && Marked(FirstWhole(0xffff_0000), EndWhole(0xffff_0000, 0x2_0000), 77)
  {
    hide MarksRange;
    MarksRangeIffMarkable(0xffff_ff80, 0x80);
    MarksRangeIffMarkable(0, 0);
    MarksRangeIffMarkable(0x6400, 0x6400);
    MarksRangeIffMarkable(0xffff_0000, 0x2_0000);
  }

  /** The zone of the invalid pointer itself is the last page. */
  lemma LastPageMarked()
    ensures FirstWhole(0xfff8_0000) == 0xff_f800 && EndWhole(0xfff8_0000, 0x8_0000) == GRANULES
    ensures forall k: int, j: int :: 0 <= k < PAGES && 0 <= j < PAGE ==>
              (Marked(0xff_f800, GRANULES, GranuleOf(k, j)) <==> k == PAGES - 1)
  {
    MarkedParts(0xff_f800, GRANULES);
  }

  // ----- what lies outside the regions

  /** The pages that are not shared, the granules whose entries are flagged, and those whose entries
      have size zero when they list no region. */
  datatype Zones = Zones(own: set<int>, flagged: set<int>, shut: set<int>)

  /** The integers from lo up to, but not including, hi. */
  function Range(lo: int, hi: int): (s: set<int>)
    ensures forall x :: x in s <==> lo <= x < hi
    decreases hi - lo
  {
    if lo >= hi then {} else Range(lo, hi - 1) + {hi - 1}
  }

  ghost predicate Zoned(e: Entry, g: int, z: Zones) {
    && (e.isInvalid <==> g in z.flagged)
    && (e.start == 0 ==> e.size == if g in z.shut then INVALID_SIZE else EMPTY_SIZE)
  }

  /** Creating a region gives every page that it spans an entry array of its own, without flags. */
  function ZonesAfterNew(z: Zones, r: Region): Zones {
    var spanned := Range(r.start / GRANULE / PAGE, (r.start + r.size) / GRANULE / PAGE + 1);
    var kept := (s: set<int>) => set g | g in s && (g / PAGE in z.own || g / PAGE !in spanned);
    Zones(z.own + spanned, kept(z.flagged), kept(z.shut))
  }

  /** Deleting it leaves all its granules as its first one is flagged. */
  function ZonesAfterDelete(z: Zones, first: int, last: int): Zones {
    var touched := Range(first, last + 1);
    z.(shut := if first in z.flagged then z.shut + touched else z.shut - touched)
  }

  /** What a page's entry is once the page is no longer shared. */
  function Opened(e: Entry, own: bool): Entry { if own then e else EMPTY_ENTRY }

  lemma NewZoned(e: Entry, i: int, j: int, z: Zones, r: Region, m: nat, n: nat)
    requires 0 <= j < PAGE && Zoned(e, GranuleOf(i, j), z) && r.start > 0
    ensures var spans := r.start / GRANULE / PAGE <= i <= (r.start + r.size) / GRANULE / PAGE;
            Zoned(if spans then AfterNew(Opened(e, i in z.own), GranuleOf(i, j), r, m, n) else e, GranuleOf(i, j),
                  ZonesAfterNew(z, r))
  {
    assert GranuleOf(i, j) / PAGE == i;
  }

  lemma DeleteZoned(e: Entry, g: int, live: set<Region>, z: Zones, r: Region, emptySize: Word32)
    requires Separate(live) && r in live && Represents(e, g, live) && Zoned(e, g, z)
    requires emptySize == if r.start / GRANULE in z.flagged then INVALID_SIZE else EMPTY_SIZE
    ensures Zoned(AfterDelete(e, g, r, emptySize), g,
                  ZonesAfterDelete(z, r.start / GRANULE, (r.start + r.size) / GRANULE))
  {
    hide Deleted;
    var first, last := r.start / GRANULE, (r.start + r.size) / GRANULE;
    if g == first || g == last {
      assert Touches(r, g);
      DeletedLosesOne(e, r, emptySize, live);
      DeletedKeepsFlag(e, r.start, emptySize);
    }
  }

  lemma DeletedKeepsFlag(e: Entry, p: Word32, emptySize: Word32)
    ensures Deleted(e, p, emptySize).isInvalid == e.isInvalid
  {}

  lemma FrontedZoned(e: Entry, g: int, live: set<Region>, z: Zones, p: Word32)
    requires Separate(live) && Represents(e, g, live) && Zoned(e, g, z)
    ensures Zoned(Fronted(e, p), g, z)
  {
    var k := FirstHit(e.next, p);
    if !Hits(e.start, e.size, p) && k < |e.next| {
      var r := e.next[k].region;
      assert Listed(e)[k + 1] == r && r in Listed(e);
      assert Proper(r);
    }
  }

  /** Whether an address outside the live regions reads as invalid: its granule is flagged, and has
      not been left open by the deletion of a region that started in an unflagged one. Null reads
      what its granule's entry holds. */
  ghost predicate ReadsInvalidAt(z: Zones, live: set<Region>, p: Word32) {
    var g := p / GRANULE;
    var touched := exists r :: r in live && Touches(r, g);
    if p == 0 && !touched then g in z.shut
    else g in z.flagged && (touched || g in z.shut)
  }

  lemma ReadsInvalidIs(e: Entry, z: Zones, live: set<Region>, p: Word32)
    requires Represents(e, p / GRANULE, live) && Zoned(e, p / GRANULE, z)
    ensures ReadsInvalid(e, p) <==> ReadsInvalidAt(z, live, p)
  {
    var g := p / GRANULE;
    HeadIsListed(e);
    if e.start == 0 { assert Listed(e) == []; }
  }

  // ----- what marking leaves

  /** An entry of the table before any region is created. */
  predicate Blank(e: Entry) {
    e.start == 0 && e.next == [] && e.size == if e.isInvalid then INVALID_SIZE else EMPTY_SIZE
  }

  /** The pages that marking gives entry arrays of their own, and those that it replaces. */
  function PagesOpened(lo: nat, hi: nat): set<int> {
    if (lo + PAGE - 1) / PAGE == hi / PAGE then {lo / PAGE}
    else (if lo % PAGE > 0 then {lo / PAGE} else {}) + (if hi % PAGE != 0 then {hi / PAGE} else {})
  }

  function PagesFilled(lo: nat, hi: nat): set<int> {
    Range((lo + PAGE - 1) / PAGE, hi / PAGE)
  }

  lemma FilledNotOpened(lo: nat, hi: nat)
    ensures PagesFilled(lo, hi) !! PagesOpened(lo, hi)
  {}

  function ZonesAfterMark(z: Zones, lo: nat, hi: nat): Zones {
    var kept := (s: set<int>) => set g: int | 0 <= g < GRANULES &&
      (Marked(lo, hi, g) || (g in s && (g / PAGE in z.own || g / PAGE !in PagesOpened(lo, hi))));
    Zones(z.own - PagesFilled(lo, hi) + PagesOpened(lo, hi), kept(z.flagged), kept(z.shut))
  }

  lemma BlankIsBare(e: Entry, g: int)
    requires Blank(e)
    ensures Represents(e, g, {}) && Owns(e, g, map[])
  {}

  lemma MarkZoned(e: Entry, e': Entry, i: int, j: int, z: Zones, lo: nat, hi: nat)
    requires 0 <= i < PAGES && 0 <= j < PAGE && z.shut == z.flagged && Zoned(e, GranuleOf(i, j), z) && Blank(e')
    requires e'.isInvalid <==>
             Marked(lo, hi, GranuleOf(i, j)) || (e.isInvalid && (i in z.own || i !in PagesOpened(lo, hi)))
    ensures Zoned(e', GranuleOf(i, j), ZonesAfterMark(z, lo, hi))
  {
    hide Marked, PagesOpened;
    assert GranuleOf(i, j) / PAGE == i && 0 <= GranuleOf(i, j) < GRANULES;
  }

  lemma OwnAfterMark(z: Zones, lo: nat, hi: nat)
    ensures forall p :: p in ZonesAfterMark(z, lo, hi).own <==>
              (p in z.own && p !in PagesFilled(lo, hi)) || p in PagesOpened(lo, hi)
    ensures z.shut == z.flagged ==> ZonesAfterMark(z, lo, hi).shut == ZonesAfterMark(z, lo, hi).flagged
  {}
}
