/** The two-level bounds table (lib/bcheck.c:127-161, 178-243, 298-728): pages of entries,
    shared until they are written, that together represent the set of live regions. */
module BoundsTable {
  import opened Words32
  import opened Regions
  import opened Zones
  import opened Worlds
  import opened Startup

  class Table {
    const t1: array<array<Entry>>
    const emptyT2: array<Entry>
    const invalidT2: array<Entry>
    var nextId: nat
    ghost var live: set<Region>
    ghost var zones: Zones
    ghost var owner: map<nat, int>
    ghost var freed: set<nat>

    ghost function Pages(): set<array<Entry>>
      reads t1
    {
      set i | 0 <= i < t1.Length :: t1[i]
    }

    ghost predicate IsShared(page: array<Entry>) {
      page == emptyT2 || page == invalidT2
    }

    /** The table has its size, only the two shared pages occur twice, and they hold what
        they held at first. */
    ghost predicate Shape()
      reads t1, emptyT2, invalidT2
    {
      && t1.Length == PAGES && emptyT2.Length == PAGE && invalidT2.Length == PAGE && emptyT2 != invalidT2
      && (forall i :: 0 <= i < PAGES ==> t1[i].Length == PAGE)
      && (forall i, k :: 0 <= i < k < PAGES && t1[i] == t1[k] ==> IsShared(t1[i]))
      && (forall j :: 0 <= j < PAGE ==> emptyT2[j] == EMPTY_ENTRY)
      && (forall j :: 0 <= j < PAGE ==> invalidT2[j] == INVALID_ENTRY)
    }

    /** The nodes allocated so far are the listed ones and the freed ones, and none is both. */
    ghost predicate Accounted()
      reads this
    {
      && (forall id: nat :: id < nextId <==> id in owner || id in freed)
      && (forall id :: id in owner ==> id !in freed)
    }

    ghost function Present(): World
      reads this
    {
      World(live, zones)
    }

    /** The table shows a world: its pages are shared where the world says so, and each entry is right. */
    ghost predicate Shows(w: World)
      requires Shape()
      reads `owner, t1, emptyT2, invalidT2, Pages()
    {
      && (forall i :: 0 <= i < PAGES ==> (IsShared(t1[i]) <==> i !in w.zones.own))
      && forall i, j :: 0 <= i < PAGES && 0 <= j < PAGE ==> Right(t1[i][j], GranuleOf(i, j), w, owner)
    }

    ghost predicate Valid()
      reads this, t1, emptyT2, invalidT2, Pages()
    {
      Shape() && Separate(live) && Accounted() && Shows(Present())
    }

    /** The first part of __bound_init: the two shared pages, and a table of empty ones. */
    constructor ()
      ensures Shape() && nextId == 0 && Present() == World({}, Zones({}, {}, {})) && owner == map[] && freed == {}
      ensures fresh(t1) && fresh(emptyT2) && fresh(invalidT2)
      ensures forall k :: 0 <= k < PAGES ==> t1[k] == emptyT2
    {
      var empty := NewPage();
      var page := NewPage();
      var i := 0;
      while i < PAGE
        invariant 0 <= i <= PAGE
        invariant forall j :: 0 <= j < i ==> page[j] == INVALID_ENTRY
        invariant forall j :: 0 <= j < PAGE ==> empty[j] == EMPTY_ENTRY
      {
        page[i] := Entry(0, INVALID_SIZE, [], true);
        i := i + 1;
      }
      t1 := new array<Entry>[PAGES](_ => empty);
      emptyT2 := empty;
      invalidT2 := page;
      nextId := 0;
      live, zones, owner, freed := {}, Zones({}, {}, {}), map[], {};
    }

    /** The rest of it: the page of the invalid pointer and the malloc zone are marked invalid, and the
        static regions are created. */
    method Init(brk: Word32, statics: seq<Region>)
      requires Shape() && nextId == 0 && Present() == World({}, Zones({}, {}, {})) && owner == map[] && freed == {}
      requires forall k :: 0 <= k < PAGES ==> t1[k] == emptyT2
      requires Legal(World({}, InitialZones(brk)), Creations(statics))
      modifies this, t1, emptyT2, invalidT2
      ensures Valid() && Present() == Final(World({}, InitialZones(brk)), Creations(statics)) && freed == {}
      ensures !EndsInLastPage(brk) && SparesLastPage(Creations(statics)) ==> Guarded(Present())
    {
      hide Right, Legal, Final, InitialZones, EndsInLastPage, SparesLastPage, Guarded;
      MarkZones(brk);
      AddStatics(brk, statics);
      GuardedAtFirst(brk);
      if !EndsInLastPage(brk) && SparesLastPage(Creations(statics)) {
        GuardedRun(World({}, InitialZones(brk)), Creations(statics));
      }
    }

    method MarkZones(brk: Word32)
      requires Shape() && live == {} && zones == Zones({}, {}, {}) && owner == map[] && freed == {} && nextId == 0
      requires forall k :: 0 <= k < PAGES ==> t1[k] == emptyT2
      modifies t1, emptyT2, invalidT2, `zones
      ensures Valid() && zones == InitialZones(brk)
      ensures forall k :: 0 <= k < PAGES ==> t1[k] == emptyT2 || t1[k] == invalidT2 || fresh(t1[k])
    {
      MarkInvalid(0xfff8_0000, 0x8_0000);
      MarkInvalid(brk, 0x800_0000);
    }

    method AddStatics(brk: Word32, statics: seq<Region>)
      requires Valid() && freed == {} && Present() == World({}, InitialZones(brk)) &&
               Legal(Present(), Creations(statics))
      modifies this, t1, Pages()
      ensures Valid() && Present() == Final(World({}, InitialZones(brk)), Creations(statics)) && freed == {}
      ensures forall k :: 0 <= k < PAGES ==> t1[k] == old(t1[k]) || fresh(t1[k])
    {
      hide Right, ZonesAfterNew, InitialZones, Separate, Accounted, Shows;
      ghost var all := Final(Present(), Creations(statics));
      var i := 0;
      while i < |statics|
        invariant 0 <= i <= |statics| && Valid() && freed == {}
        invariant Legal(Present(), Creations(statics[i..])) && Final(Present(), Creations(statics[i..])) == all
        invariant forall k :: 0 <= k < PAGES ==> t1[k] == old(t1[k]) || fresh(t1[k])
      {
        assert Creations(statics[i..])[1..] == Creations(statics[i + 1..]);
        NewRegion(statics[i].start, statics[i].size);
        i := i + 1;
      }
    }

    static method NewPage() returns (page: array<Entry>)
      ensures fresh(page) && page.Length == PAGE
      ensures forall j :: 0 <= j < PAGE ==> page[j] == EMPTY_ENTRY
    {
      page := new Entry[PAGE];
      var i := 0;
      while i < PAGE
        invariant 0 <= i <= PAGE
        invariant forall j :: 0 <= j < i ==> page[j] == EMPTY_ENTRY
      {
        page[i] := Entry(0, EMPTY_SIZE, [], false);
        i := i + 1;
      }
    }

    /** bound_new_entry: a node that was never allocated before. */
    method NewNode(r: Region) returns (n: Node)
      modifies `nextId
      ensures n == Node(r, old(nextId)) && nextId == old(nextId) + 1
    {
      n := Node(r, nextId);
      nextId := nextId + 1;
    }

    /** bound_free_entry: only a node that is allocated, and not freed yet, may be freed. */
    ghost method FreeNode(n: Node)
      requires n.id < nextId && n.id !in freed
      modifies `freed
      ensures freed == old(freed) + {n.id}
    {
      freed := freed + {n.id};
    }

    /** The page to write to: a shared page is replaced by an empty one of its own first. */
    method GetPage(i: nat) returns (page: array<Entry>)
      requires Shape() && i < PAGES
      modifies t1
      ensures Shape() && page == t1[i] && !IsShared(page)
      ensures forall k :: 0 <= k < PAGES && k != i ==> t1[k] == old(t1[k])
      ensures !IsShared(old(t1[i])) ==> page == old(t1[i])
      ensures IsShared(old(t1[i])) ==> fresh(page) && forall j :: 0 <= j < PAGE ==> page[j] == EMPTY_ENTRY
    {
      page := t1[i];
      if page == emptyT2 || page == invalidT2 {
        page := NewPage();
        t1[i] := page;
      }
    }

    /** Overwrites the heads of a run of entries. */
    method Fill(page: array<Entry>, lo: nat, hi: nat, start: Word32, size: Word32)
      requires lo <= hi <= page.Length
      modifies page
      ensures forall j :: 0 <= j < page.Length ==>
                page[j] == if lo <= j < hi then old(page[j]).(start := start, size := size) else old(page[j])
    {
      var e := lo;
      while e < hi
        invariant lo <= e <= hi
        invariant forall j :: 0 <= j < page.Length ==>
                    page[j] == if lo <= j < e then old(page[j]).(start := start, size := size) else old(page[j])
      {
        page[e] := page[e].(start := start, size := size);
        e := e + 1;
      }
    }

    method AddRegion(page: array<Entry>, j: nat, start: Word32, size: Word32)
      requires j < page.Length
      modifies page, `nextId
      ensures page[j] == Added(old(page[j]), Region(start, size), old(nextId))
      ensures nextId == old(nextId) + Occupied(old(page[j]))
      ensures forall k :: 0 <= k < page.Length && k != j ==> page[k] == old(page[k])
    {
      var e := page[j];
      if e.start == 0 {
        page[j] := e.(start := start, size := size);
      } else {
        var e1 := NewNode(Region(e.start, e.size));
        page[j] := e.(start := start, size := size, next := [e1] + e.next);
      }
    }

    /** What a granule's entry was before a write, once its page is no longer shared. */
    ghost function Base(page: array<Entry>, e: Entry): Entry { Opened(e, !IsShared(page)) }

    /** A region that ends in the page it starts in. */
    method WriteWithin(i: nat, a: nat, b: nat, start: Word32, size: Word32)
      requires Shape() && i < PAGES && a <= b < PAGE
      modifies t1, Pages(), `nextId
      ensures Shape() && !IsShared(t1[i]) && (t1[i] == old(t1[i]) || fresh(t1[i]))
      ensures forall k :: 0 <= k < PAGES && k != i ==> t1[k] == old(t1[k])
      ensures var m := old(nextId);
              var n := m + Occupied(Base(old(t1[i]), old(t1[i][a])));
              && nextId == n + (if a < b then Occupied(Base(old(t1[i]), old(t1[i][b]))) else 0)
              && forall k, j :: 0 <= k < PAGES && 0 <= j < PAGE ==>
                   t1[k][j] == if k == i then Spread(Base(old(t1[k]), old(t1[k][j])), GranuleOf(k, j),
                                                     GranuleOf(i, a), GranuleOf(i, b),
                                                     Region(start, size), m, n)
                               else old(t1[k][j])
    {
      var page := GetPage(i);
      AddRegion(page, a, start, size);
      if b > a {
        Fill(page, a + 1, b, start, size);
        AddRegion(page, b, start, size);
      }
    }

    /** The first page of a longer region, marked until its end. */
    method WriteHead(i: nat, a: nat, start: Word32, size: Word32, ghost last: int, ghost n: nat)
      requires Shape() && i < PAGES && a < PAGE && GranuleOf(i, PAGE) <= last
      modifies t1, Pages(), `nextId
      ensures Shape() && !IsShared(t1[i]) && (t1[i] == old(t1[i]) || fresh(t1[i]))
      ensures nextId == old(nextId) + Occupied(Base(old(t1[i]), old(t1[i][a])))
      ensures forall k :: 0 <= k < PAGES && k != i ==> t1[k] == old(t1[k])
      ensures forall k, j :: 0 <= k < PAGES && 0 <= j < PAGE ==>
                t1[k][j] == if k == i then Spread(Base(old(t1[k]), old(t1[k][j])), GranuleOf(k, j), GranuleOf(i, a),
                                                  last, Region(start, size), old(nextId), n)
                            else old(t1[k][j])
    {
      var page := GetPage(i);
      AddRegion(page, a, start, size);
      Fill(page, a + 1, PAGE, start, size);
    }

    /** A page in the middle of a longer region. */
    method WriteMiddle(i: nat, start: Word32, size: Word32, ghost first: int, ghost last: int, ghost m: nat,
                       ghost n: nat)
      requires Shape() && i < PAGES && first < GranuleOf(i, 0) && GranuleOf(i, PAGE) <= last
      modifies t1, Pages()
      ensures Shape() && !IsShared(t1[i]) && (t1[i] == old(t1[i]) || fresh(t1[i]))
      ensures forall k :: 0 <= k < PAGES && k != i ==> t1[k] == old(t1[k])
      ensures forall k, j :: 0 <= k < PAGES && 0 <= j < PAGE ==>
                t1[k][j] == if k == i then Spread(Base(old(t1[k]), old(t1[k][j])), GranuleOf(k, j), first, last,
                                                  Region(start, size), m, n)
                            else old(t1[k][j])
    {
      var page := GetPage(i);
      Fill(page, 0, PAGE, start, size);
    }

    /** The last page of a longer region. */
    method WriteTail(i: nat, b: nat, start: Word32, size: Word32, ghost first: int, ghost m: nat)
      requires Shape() && i < PAGES && b < PAGE && first < GranuleOf(i, 0)
      modifies t1, Pages(), `nextId
      ensures Shape() && !IsShared(t1[i]) && (t1[i] == old(t1[i]) || fresh(t1[i]))
      ensures nextId == old(nextId) + Occupied(Base(old(t1[i]), old(t1[i][b])))
      ensures forall k :: 0 <= k < PAGES && k != i ==> t1[k] == old(t1[k])
      ensures forall k, j :: 0 <= k < PAGES && 0 <= j < PAGE ==>
                t1[k][j] == if k == i then Spread(Base(old(t1[k]), old(t1[k][j])), GranuleOf(k, j), first,
                                                  GranuleOf(i, b),
                                                  Region(start, size), m, old(nextId))
                            else old(t1[k][j])
    {
      var page := GetPage(i);
      Fill(page, 0, b, start, size);
      AddRegion(page, b, start, size);
    }

    /** The pages between the first and the last one of a longer region. */
    method WriteMiddles(i0: nat, i1: nat, start: Word32, size: Word32, ghost first: int, ghost last: int, ghost m: nat,
                        ghost n: nat)
      requires Shape() && i0 < i1 < PAGES
      requires forall k: int :: i0 < k < i1 ==> first < GranuleOf(k, 0) && GranuleOf(k, PAGE) <= last
      modifies t1, Pages()
      ensures Shape()
      ensures forall k :: 0 <= k < PAGES && !(i0 < k < i1) ==> t1[k] == old(t1[k])
      ensures forall k :: i0 < k < i1 ==> !IsShared(t1[k]) && (t1[k] == old(t1[k]) || fresh(t1[k]))
      ensures forall k, j :: 0 <= k < PAGES && 0 <= j < PAGE ==>
                t1[k][j] == if i0 < k < i1 then Spread(Base(old(t1[k]), old(t1[k][j])), GranuleOf(k, j), first, last,
                                                       Region(start, size), m, n)
                            else old(t1[k][j])
    {
      hide Spread, Base, IsShared;
      var i := i0 + 1;
      while i < i1
        invariant i0 < i <= i1
        invariant Shape()
        invariant forall k :: 0 <= k < PAGES && !(i0 < k < i) ==> t1[k] == old(t1[k])
        invariant forall k :: i0 < k < i ==> !IsShared(t1[k]) && (t1[k] == old(t1[k]) || fresh(t1[k]))
        invariant forall k, j :: 0 <= k < PAGES && 0 <= j < PAGE ==>
                    t1[k][j] == if i0 < k < i then Spread(Base(old(t1[k]), old(t1[k][j])), GranuleOf(k, j), first,
                                                          last, Region(start, size), m, n)
                                else old(t1[k][j])
      {
        WriteMiddle(i, start, size, first, last, m, n);
        i := i + 1;
      }
    }

    /** A region over several pages, whose first granule takes the nodes from nextId to n. */
    method WriteAcross(a: nat, i0: nat, b: nat, i1: nat, start: Word32, size: Word32, ghost n: nat)
      requires Shape() && i0 < i1 < PAGES && a < PAGE && b < PAGE
      requires n == nextId + Occupied(Base(t1[i0], t1[i0][a]))
      modifies t1, Pages(), `nextId
      ensures Shape() && nextId == n + Occupied(Base(old(t1[i1]), old(t1[i1][b])))
      ensures forall k :: 0 <= k < PAGES ==> t1[k] == old(t1[k]) || fresh(t1[k])
      ensures forall k :: 0 <= k < PAGES ==> (IsShared(t1[k]) <==> IsShared(old(t1[k])) && !(i0 <= k <= i1))
      ensures forall k, j :: 0 <= k < PAGES && 0 <= j < PAGE ==>
                t1[k][j] == if i0 <= k <= i1
                            then Spread(Base(old(t1[k]), old(t1[k][j])), GranuleOf(k, j), GranuleOf(i0, a),
                                        GranuleOf(i1, b),
                                        Region(start, size), old(nextId), n)
                            else old(t1[k][j])
    {
      hide Spread, GranuleOf, Occupied, Base, IsShared;
      ghost var first, last, m := GranuleOf(i0, a), GranuleOf(i1, b), nextId;
      GranuleOrder(i0, a, i1, b);
      forall k: int | i0 < k < i1 ensures first < GranuleOf(k, 0) && GranuleOf(k, PAGE) <= last {
        GranuleOrder(i0, a, k, 0);
        GranuleOrder(k, 0, i1, b);
      }
      WriteHead(i0, a, start, size, last, n);
      WriteMiddles(i0, i1, start, size, first, last, m, n);
      WriteTail(i1, b, start, size, first, m);
      forall k, j | 0 <= k < PAGES && 0 <= j < PAGE
        ensures t1[k][j] == if i0 <= k <= i1
                            then Spread(Base(old(t1[k]), old(t1[k][j])), GranuleOf(k, j), first, last,
                                        Region(start, size), m, n)
                            else old(t1[k][j])
      {
        if k == i0 { } else if i0 < k < i1 { } else { }
      }
    }

    /** The entries that creating a region leaves: exactly those of its granules change, apart
        from pages that stop being shared. Its first granule, a in page i0, takes the nodes from
        nextId to n, and its last one, b in page i1, those from n on. */
    method WriteRegion(start: Word32, size: Word32, ghost i0: nat, ghost a: nat, ghost i1: nat, ghost b: nat,
                       ghost n: nat)
      requires Shape() && start + size < W32 && i0 < PAGES && i1 < PAGES && a < PAGE && b < PAGE
      requires start / GRANULE == GranuleOf(i0, a) && (start + size) / GRANULE == GranuleOf(i1, b)
      requires n == nextId + Occupied(Base(t1[i0], t1[i0][a]))
      modifies t1, Pages(), `nextId
      ensures Shape()
      ensures nextId == n + if (i0, a) == (i1, b) then 0 else Occupied(Base(old(t1[i1]), old(t1[i1][b])))
      ensures forall k :: 0 <= k < PAGES ==> t1[k] == old(t1[k]) || fresh(t1[k])
      ensures forall k :: 0 <= k < PAGES ==> (IsShared(t1[k]) <==> IsShared(old(t1[k])) && !(i0 <= k <= i1))
      ensures forall k, j :: 0 <= k < PAGES && 0 <= j < PAGE ==>
                t1[k][j] == if i0 <= k <= i1
                            then Spread(Base(old(t1[k]), old(t1[k][j])), GranuleOf(k, j), GranuleOf(i0, a),
                                        GranuleOf(i1, b),
                                        Region(start, size), old(nextId), n)
                            else old(t1[k][j])
    {
      var end := Plus32(start, size);
      var t1Start, t1End := Shr32(start, 19), Shr32(end, 19);
      var t2Start, t2End := Slot(start), Slot(end);
      PlacesAre(start, size, i0, a, i1, b);
      hide Spread, Slot, Shr32, Plus32, GranuleOf, Opened, Occupied, Base, IsShared;
      if t1End == t1Start {
        WriteWithin(t1Start, t2Start, t2End, start, size);
      } else {
        WriteAcross(t2Start, t1Start, t2End, t1End, start, size, n);
      }
    }

    /** The places in the table that the code computes. */
    lemma PlacesAre(p: Word32, size: Word32, i0: nat, a: nat, i1: nat, b: nat)
      requires p + size < W32 && a < PAGE && b < PAGE
      requires p / GRANULE == GranuleOf(i0, a) && (p + size) / GRANULE == GranuleOf(i1, b)
      ensures var end := Plus32(p, size); i0 == Shr32(p, 19) && a == Slot(p) && i1 == Shr32(end, 19) && b == Slot(end)
      ensures i0 < i1 || (i0 == i1 && a <= b)
    {
      NoWrap(p, size);
      SlotIsGranule(p);
      SlotIsGranule(Plus32(p, size));
      SamePlace(i0, a, Shr32(p, 19), Slot(p));
      SamePlace(Shr32(p, 19), Slot(p), i0, a);
      SamePlace(i1, b, Shr32(Plus32(p, size), 19), Slot(Plus32(p, size)));
      SamePlace(Shr32(Plus32(p, size), 19), Slot(Plus32(p, size)), i1, b);
      SamePlace(i1, b, i0, a);
    }

    lemma NoWrap(p: Word32, size: Word32)
      requires p + size < W32
      ensures Plus32(p, size) == p + size
    {}

    lemma SamePlace(i: int, a: int, k: int, b: int)
      requires 0 <= a < PAGE && 0 <= b < PAGE
      ensures GranuleOf(i, a) < GranuleOf(k, b) <==> i < k || (i == k && a < b)
    {}

    /** __bound_new_region */
    method NewRegion(p: Word32, size: Word32)
      requires Valid() && Allowed(Present(), New(p, size))
      modifies this, t1, Pages()
      ensures Valid() && Present() == Step(old(Present()), New(p, size))
      ensures freed == old(freed)
      ensures forall k :: 0 <= k < PAGES ==> t1[k] == old(t1[k]) || fresh(t1[k])
    {
      hide Right, ZonesAfterNew;
      ghost var r, w := Region(p, size), Present();
      assert r in live + {r};
      StartsPositive(live + {r}, r);
      ghost var i0, a := PlaceOf(p / GRANULE);
      ghost var i1, b := PlaceOf((p + size) / GRANULE);
      InsertRegion(p, size, w, i0, a, i1, b);
      live, zones := Step(w, New(p, size)).live, Step(w, New(p, size)).zones;
    }

    method InsertRegion(p: Word32, size: Word32, ghost w: World, ghost i0: nat, ghost a: nat, ghost i1: nat,
                        ghost b: nat)
      requires Shape() && Accounted() && Shows(w) && Allowed(w, New(p, size)) && p + size < W32
      requires i0 < PAGES && i1 < PAGES && a < PAGE && b < PAGE
      requires p / GRANULE == GranuleOf(i0, a) && (p + size) / GRANULE == GranuleOf(i1, b)
      modifies t1, Pages(), `nextId, `owner
      ensures Shape() && Accounted() && Shows(Step(w, New(p, size)))
      ensures forall k :: 0 <= k < PAGES ==> t1[k] == old(t1[k]) || fresh(t1[k])
    {
      hide Right, Spread, Opened, Occupied, NewOwner, ZonesAfterNew, GranuleOf, Separate;
      ghost var r, m := Region(p, size), nextId;
      ghost var atFirst, atLast := Occupied(Base(t1[i0], t1[i0][a])), Occupied(Base(t1[i1], t1[i1][b]));
      WriteRegion(p, size, i0, a, i1, b, m + atFirst);
      SameGranule(i0, a, i1, b);
      GranulePages(i0, a);
      GranulePages(i1, b);
      NewAccounted(owner, freed, p / GRANULE, (p + size) / GRANULE, m, atFirst, atLast);
      owner := NewOwner(owner, p / GRANULE, (p + size) / GRANULE, m, m + atFirst, atFirst, atLast);
      ghost var now := Step(w, New(p, size));
      forall i, j | 0 <= i < PAGES && 0 <= j < PAGE
        ensures Right(t1[i][j], GranuleOf(i, j), now, owner)
      {
        assert Right(old(t1[i][j]), GranuleOf(i, j), w, old(owner));
        SameGranule(i, j, i0, a);
        SameGranule(i, j, i1, b);
        SharedIsBare(old(t1[i]), old(t1[i][j]));
        RightAfterNew(old(t1[i][j]), i, j, w, old(owner), r, m, m + atFirst, atFirst, atLast);
      }
      OwnAfterNew(w.zones, r);
      assert forall k :: 0 <= k < PAGES ==> (IsShared(t1[k]) <==> k !in now.zones.own);
    }

    lemma GranulePages(i: nat, j: nat)
      requires j < PAGE
      ensures GranuleOf(i, j) / PAGE == i
    {}

    lemma PlaceOf(g: int) returns (i: nat, j: nat)
      requires 0 <= g < GRANULES
      ensures i < PAGES && j < PAGE && g == GranuleOf(i, j) && i == g / PAGE
    {
      i, j := g / PAGE, g % PAGE;
    }

    lemma SameGranule(i: int, j: int, k: int, l: int)
      requires 0 <= j < PAGE && 0 <= l < PAGE
      ensures GranuleOf(i, j) == GranuleOf(k, l) <==> i == k && j == l
    {}

    lemma SharedIsBare(page: array<Entry>, e: Entry)
      requires IsShared(page) ==> e.start == 0
      ensures Occupied(Base(page, e)) == Occupied(e)
    {}

    // ----- lookups

    /** Searches a list, and swaps the contents of the node that p hits with those of the head. */
    method FindRegion(page: array<Entry>, j: nat, p: Word32) returns (e: Entry)
      requires Shape() && page.Length == PAGE && j < PAGE
      modifies page
      ensures page[j] == Fronted(old(page[j]), p)
      ensures forall k :: 0 <= k < PAGE && k != j ==> page[k] == old(page[k])
      ensures e == Looked(old(page[j]), p)
    {
      hide Hits;
      var e1 := page[j];
      if Hits(e1.start, e1.size, p) { return e1; }
      var k := 0;
      while k < |e1.next|
        invariant 0 <= k <= |e1.next|
        invariant forall i :: 0 <= i < k ==> !Hits(e1.next[i].region.start, e1.next[i].region.size, p)
      {
        var n := e1.next[k];
        if Hits(n.region.start, n.region.size, p) {
          FirstHitIs(e1.next, p, k);
          page[j] := Entry(n.region.start, n.region.size, e1.next[k := Node(Region(e1.start, e1.size), n.id)],
                           e1.isInvalid);
          return page[j];
        }
        k := k + 1;
      }
      FirstHitIs(e1.next, p, k);
      e := if e1.isInvalid then invalidT2[0] else emptyT2[0];
    }

    /** The head check and the search that every operation on a pointer starts with. */
    method Lookup(p: Word32) returns (e: Entry)
      requires Valid()
      modifies Pages()
      ensures Valid()
      ensures forall r :: r in live && Contains(r, p) ==> e.start == r.start && e.size == r.size
      ensures Outside(live, p) ==>
                e.start == 0 && e.size == if ReadsInvalidAt(zones, live, p) then INVALID_SIZE else EMPTY_SIZE
      ensures var i, j := p / GRANULE / PAGE, p / GRANULE % PAGE;
              e.start != 0 || (p == 0 && old(t1[i][j].start) == 0) ==> e == t1[i][j]
      ensures forall i, j :: 0 <= i < PAGES && 0 <= j < PAGE && GranuleOf(i, j) != p / GRANULE ==>
                t1[i][j] == old(t1[i][j])
    {
      SlotIsGranule(p);
      hide Represents, Owns, Zoned, Looked, Fronted, Hits, Contains, Separate, Slot, Shr32, ReadsInvalid,
           ReadsInvalidAt;
      var i, j := Shr32(p, 19), Slot(p);
      LookedIsExact(t1[i][j], live, p);
      RightAfterLookup(t1[i][j], p / GRANULE, Present(), owner, p);
      ReadsInvalidIs(t1[i][j], zones, live, p);
      LookedIsOwn(t1[i][j], p);
      NullHits(t1[i][j]);
      var page := t1[i];
      e := page[j];
      if !Hits(e.start, e.size, p) {
        e := FindRegion(page, j, p);
      }
    }

    lemma NullHits(e: Entry)
      ensures e.start == 0 ==> Hits(e.start, e.size, 0)
    {}

    /** __bound_ptr_add */
    method PtrAdd(p: Word32, offset: Word32) returns (q: Word32)
      requires Valid()
      modifies Pages()
      ensures Valid() && Moved(Present(), p, offset, q)
    {
      hide Right, ReadsInvalidAt;
      var e := Lookup(p);
      var addr := Minus32(p, e.start);
      addr := Plus32(addr, offset);
      AddressMoves(p, e.start, offset);
      forall r | r in live && Contains(r, p)
        ensures Minus32(Plus32(p, offset), r.start) < r.size <==> r.start <= Plus32(p, offset) < r.start + r.size
      {
        WithinRegion(r, Plus32(p, offset));
      }
      if addr >= e.size { return INVALID_POINTER; }
      return Plus32(p, offset);
    }

    /** __bound_ptr_indirN for an access of n bytes. */
    method PtrIndir(p: Word32, offset: Word32, n: Word32) returns (q: Word32)
      requires Valid() && Allowed(Present(), Access(p, offset, n))
      modifies Pages()
      ensures Valid() && Accessed(Present(), p, offset, n, q)
      ensures forall r :: r in live && Contains(r, p) && r.start <= Plus32(p, offset) && Plus32(p, offset) + n < W32 ==>
                q == if Plus32(p, offset) + n <= r.start + r.size then Plus32(p, offset) else INVALID_POINTER
    {
      hide Right, ReadsInvalidAt;
      var e := Lookup(p);
      var addr := Minus32(p, e.start);
      addr := Plus32(addr, Plus32(offset, n));
      AddressMoves(p, e.start, Plus32(offset, n));
      PlusAssociates(p, offset, n);
      ghost var t := Plus32(Plus32(p, offset), n);
      FromNull(t);
      forall r | r in live && Contains(r, p)
        ensures Minus32(t, r.start) <= r.size <==> Contains(r, t)
        ensures r.start <= Plus32(p, offset) && Plus32(p, offset) + n < W32 ==>
                  (Contains(r, t) <==> Plus32(p, offset) + n <= r.start + r.size)
      {
        HitsIsContains(r, t);
        if r.start <= Plus32(p, offset) && Plus32(p, offset) + n < W32 { EndInRegion(r, Plus32(p, offset), n); }
      }
      hide Minus32, Plus32, Contains;
      if addr > e.size { return INVALID_POINTER; }
      return Plus32(p, offset);
    }

    lemma FromNull(t: Word32)
      ensures Minus32(t, 0) == t
    {}

    /** get_region_size */
    method GetRegionSize(p: Word32) returns (size: Word32)
      requires Valid()
      modifies Pages()
      ensures Valid() && HasSize(Present(), p, size)
    {
      hide Right, ReadsInvalidAt, Contains;
      var e := Lookup(p);
      if p > 0 { HeadOfLookup(p, e); } else { NullIsNowhere(live); NullStartsNone(); }
      if e.start != p { return EMPTY_SIZE; }
      return e.size;
    }

    lemma NullStartsNone()
      requires Separate(live)
      ensures !StartsAt(live, 0)
    {
      forall r | r in live ensures r.start > 0 { assert Proper(r); }
    }

    /** A lookup finds p at the start of an entry exactly when a live region starts there. */
    lemma HeadOfLookup(p: Word32, e: Entry)
      requires Separate(live) && p > 0
      requires forall r :: r in live && Contains(r, p) ==> e.start == r.start && e.size == r.size
      requires Outside(live, p) ==> e.start == 0
      ensures e.start == p <==> StartsAt(live, p)
      ensures e.start == p ==> Region(p, e.size) in live
      ensures forall r :: r in live && r.start == p ==> e.size == r.size
    {
      forall r | r in live && r.start == p ensures e.start == p && e.size == r.size { assert Contains(r, p); }
      if e.start == p {
        var r :| r in live && Contains(r, p);
        assert r == Region(p, e.size);
      }
    }

    // ----- deletion

    ghost predicate Unfreed(e: Entry)
      reads this
    {
      forall id :: id in Ids(e.next) ==> id < nextId && id !in freed
    }

    /** delete_region */
    method DeleteEntry(page: array<Entry>, j: nat, p: Word32, emptySize: Word32)
      requires j < page.Length && Unfreed(page[j])
      modifies page, `freed
      ensures page[j] == Deleted(old(page[j]), p, emptySize)
      ensures freed == old(freed) + FreedBy(old(page[j]), p)
      ensures forall k :: 0 <= k < page.Length && k != j ==> page[k] == old(page[k])
    {
      hide Hits;
      var e := page[j];
      if Hits(e.start, e.size, p) {
        if e.next == [] {
          page[j] := e.(start := 0, size := emptySize);
        } else {
          var e1 := e.next[0];
          assert e1 in e.next && e1.id in Ids(e.next);
          page[j] := e.(start := e1.region.start, size := e1.region.size, next := e.next[1..]);
          FreeNode(e1);
        }
      } else {
        var k := 0;
        while k < |e.next| && !Hits(e.next[k].region.start, e.next[k].region.size, p)
          invariant 0 <= k <= |e.next|
          invariant forall i :: 0 <= i < k ==> !Hits(e.next[i].region.start, e.next[i].region.size, p)
        {
          k := k + 1;
        }
        FirstHitIs(e.next, p, k);
        if k < |e.next| {
          assert e.next[k] in e.next && e.next[k].id in Ids(e.next);
          page[j] := e.(next := e.next[..k] + e.next[k + 1..]);
          FreeNode(e.next[k]);
        }
      }
    }

    /** Deletion of a region that ends in the page it starts in. */
    method ClearWithin(i: nat, a: nat, b: nat, p: Word32, emptySize: Word32)
      requires Shape() && i < PAGES && a <= b < PAGE && !IsShared(t1[i])
      requires Unfreed(t1[i][a]) && Unfreed(t1[i][b]) && (a < b ==> Ids(t1[i][a].next) !! Ids(t1[i][b].next))
      modifies Pages(), `freed
      ensures Shape()
      ensures freed == old(freed) + FreedBy(old(t1[i][a]), p) + (if a < b then FreedBy(old(t1[i][b]), p) else {})
      ensures forall k, j :: 0 <= k < PAGES && 0 <= j < PAGE ==>
                t1[k][j] == if k == i then Clear(old(t1[k][j]), GranuleOf(k, j), GranuleOf(i, a), GranuleOf(i, b), p,
                                                 emptySize)
                            else old(t1[k][j])
    {
      hide FreedBy, Ids, Deleted;
      var page := t1[i];
      FreedIds(page[a], p);
      DeleteEntry(page, a, p, emptySize);
      if b > a {
        Fill(page, a + 1, b, 0, emptySize);
        DeleteEntry(page, b, p, emptySize);
      }
    }

    /** The first page of a longer region. */
    method ClearHead(i: nat, a: nat, ghost last: int, p: Word32, emptySize: Word32)
      requires Shape() && i < PAGES && a < PAGE && GranuleOf(i, PAGE) <= last && !IsShared(t1[i]) && Unfreed(t1[i][a])
      modifies Pages(), `freed
      ensures Shape() && freed == old(freed) + FreedBy(old(t1[i][a]), p)
      ensures forall k, j :: 0 <= k < PAGES && 0 <= j < PAGE ==>
                t1[k][j] == if k == i then Clear(old(t1[k][j]), GranuleOf(k, j), GranuleOf(i, a), last, p, emptySize)
                            else old(t1[k][j])
    {
      var page := t1[i];
      DeleteEntry(page, a, p, emptySize);
      Fill(page, a + 1, PAGE, 0, emptySize);
    }

    /** A page in the middle of a longer region. */
    method ClearMiddle(i: nat, ghost first: int, ghost last: int, p: Word32, emptySize: Word32)
      requires Shape() && i < PAGES && first < GranuleOf(i, 0) && GranuleOf(i, PAGE) <= last && !IsShared(t1[i])
      modifies t1, Pages()
      ensures Shape() && forall k :: 0 <= k < PAGES ==> t1[k] == old(t1[k])
      ensures forall k, j :: 0 <= k < PAGES && 0 <= j < PAGE ==>
                t1[k][j] == if k == i then Clear(old(t1[k][j]), GranuleOf(k, j), first, last, p, emptySize)
                            else old(t1[k][j])
    {
      var page := GetPage(i);
      Fill(page, 0, PAGE, 0, emptySize);
    }

    /** The last page of a longer region. */
    method ClearTail(i: nat, b: nat, ghost first: int, p: Word32, emptySize: Word32)
      requires Shape() && i < PAGES && b < PAGE && first < GranuleOf(i, 0) && !IsShared(t1[i]) && Unfreed(t1[i][b])
      modifies t1, Pages(), `freed
      ensures Shape() && forall k :: 0 <= k < PAGES ==> t1[k] == old(t1[k])
      ensures freed == old(freed) + FreedBy(old(t1[i][b]), p)
      ensures forall k, j :: 0 <= k < PAGES && 0 <= j < PAGE ==>
                t1[k][j] == if k == i then Clear(old(t1[k][j]), GranuleOf(k, j), first, GranuleOf(i, b), p, emptySize)
                            else old(t1[k][j])
    {
      var page := GetPage(i);
      Fill(page, 0, b, 0, emptySize);
      DeleteEntry(page, b, p, emptySize);
    }

    method ClearAcross(a: nat, i0: nat, b: nat, i1: nat, p: Word32, emptySize: Word32)
      requires Shape() && i0 < i1 < PAGES && a < PAGE && b < PAGE && forall k :: i0 <= k <= i1 ==> !IsShared(t1[k])
      requires Unfreed(t1[i0][a]) && Unfreed(t1[i1][b]) && Ids(t1[i0][a].next) !! Ids(t1[i1][b].next)
      modifies t1, Pages(), `freed
      ensures Shape() && forall k :: 0 <= k < PAGES ==> t1[k] == old(t1[k])
      ensures freed == old(freed) + FreedBy(old(t1[i0][a]), p) + FreedBy(old(t1[i1][b]), p)
      ensures forall k, j :: 0 <= k < PAGES && 0 <= j < PAGE ==>
                t1[k][j] == if i0 <= k <= i1 then Clear(old(t1[k][j]), GranuleOf(k, j), GranuleOf(i0, a),
                                                        GranuleOf(i1, b), p, emptySize)
                            else old(t1[k][j])
    {
      hide Clear, GranuleOf, FreedBy, Ids;
      ghost var first, last := GranuleOf(i0, a), GranuleOf(i1, b);
      GranuleOrder(i0, a, i1, b);
      FreedIds(t1[i0][a], p);
      ClearHead(i0, a, last, p, emptySize);
      var i := i0 + 1;
      while i < i1
        invariant i0 < i <= i1
        invariant Shape() && freed == old(freed) + FreedBy(old(t1[i0][a]), p)
        invariant forall k :: 0 <= k < PAGES ==> t1[k] == old(t1[k])
        invariant forall k, j :: 0 <= k < PAGES && 0 <= j < PAGE ==>
                    t1[k][j] == if i0 <= k < i then Clear(old(t1[k][j]), GranuleOf(k, j), first, last, p, emptySize)
                                else old(t1[k][j])
      {
        GranuleOrder(i0, a, i, 0);
        GranuleOrder(i, 0, i1, b);
        ClearMiddle(i, first, last, p, emptySize);
        i := i + 1;
      }
      ClearTail(i1, b, first, p, emptySize);
    }

    /** The entries that deleting a region leaves, and the nodes that its first and last one free. */
    method ClearRegion(p: Word32, size: Word32, emptySize: Word32, ghost i0: nat, ghost a: nat, ghost i1: nat,
                       ghost b: nat)
      requires Shape() && p + size < W32 && i0 < PAGES && i1 < PAGES && a < PAGE && b < PAGE
      requires p / GRANULE == GranuleOf(i0, a) && (p + size) / GRANULE == GranuleOf(i1, b)
      requires forall k :: i0 <= k <= i1 ==> !IsShared(t1[k])
      requires Unfreed(t1[i0][a]) && Unfreed(t1[i1][b])
      requires (i0, a) == (i1, b) || Ids(t1[i0][a].next) !! Ids(t1[i1][b].next)
      modifies t1, Pages(), `freed
      ensures Shape() && forall k :: 0 <= k < PAGES ==> t1[k] == old(t1[k])
      ensures freed == old(freed) + FreedBy(old(t1[i0][a]), p) +
                       if (i0, a) == (i1, b) then {} else FreedBy(old(t1[i1][b]), p)
      ensures forall k, j :: 0 <= k < PAGES && 0 <= j < PAGE ==>
                t1[k][j] == if i0 <= k <= i1 then Clear(old(t1[k][j]), GranuleOf(k, j), GranuleOf(i0, a),
                                                        GranuleOf(i1, b), p, emptySize)
                            else old(t1[k][j])
    {
      var end := Plus32(p, size);
      var t1Start, t1End := Shr32(p, 19), Shr32(end, 19);
      var t2Start, t2End := Slot(p), Slot(end);
      PlacesAre(p, size, i0, a, i1, b);
      hide Clear, Slot, Shr32, Plus32, GranuleOf, FreedBy, Ids, Unfreed;
      if t1End == t1Start {
        ClearWithin(t1Start, t2Start, t2End, p, emptySize);
      } else {
        ClearAcross(t2Start, t1Start, t2End, t1End, p, emptySize);
      }
    }

    lemma FreedIds(e: Entry, p: Word32)
      ensures FreedBy(e, p) <= Ids(e.next)
    {
      if e.next != [] { assert e.next[0] in e.next; }
      var k := FirstHit(e.next, p);
      if k < |e.next| { assert e.next[k] in e.next; }
    }

    /** Each page that a live region touches is written, so it is not shared. */
    lemma PagesAreOwn(w: World, r: Region, i0: nat, a: nat, i1: nat, b: nat)
      requires Shape() && Shows(w) && r in w.live && i1 < PAGES && a < PAGE && b < PAGE
      requires r.start / GRANULE == GranuleOf(i0, a) && (r.start + r.size) / GRANULE == GranuleOf(i1, b)
      ensures forall k :: i0 <= k <= i1 ==> !IsShared(t1[k])
    {
      hide Represents, Owns, Zoned;
      forall k | i0 <= k <= i1 ensures !IsShared(t1[k]) {
        var j := if k == i0 then a else 0;
        assert Right(t1[k][j], GranuleOf(k, j), w, owner);
        assert Touches(r, GranuleOf(k, j));
        TouchedHasStart(t1[k][j], GranuleOf(k, j), w.live);
      }
    }

    /** The nodes in the two ends of a live region are allocated, and not shared between them. */
    lemma ReadyToClear(w: World, r: Region, i0: nat, a: nat, i1: nat, b: nat)
      requires Shape() && Accounted() && Shows(w) && r in w.live && i0 <= i1 < PAGES && a < PAGE && b < PAGE
      requires r.start / GRANULE == GranuleOf(i0, a) && (r.start + r.size) / GRANULE == GranuleOf(i1, b)
      ensures forall k :: i0 <= k <= i1 ==> !IsShared(t1[k])
      ensures var ef, el := t1[i0][a], t1[i1][b];
              && Owns(ef, GranuleOf(i0, a), owner) && Owns(el, GranuleOf(i1, b), owner) && Unfreed(ef) && Unfreed(el)
              && ((i0, a) == (i1, b) || Ids(ef.next) !! Ids(el.next))
    {
      PagesAreOwn(w, r, i0, a, i1, b);
      SameGranule(i0, a, i1, b);
      var ef, el := t1[i0][a], t1[i1][b];
      assert Right(ef, GranuleOf(i0, a), w, owner) && Right(el, GranuleOf(i1, b), w, owner);
      hide Represents, Owns, Zoned, GranuleOf, Ids;
      OwnedAreAllocated(ef, GranuleOf(i0, a), owner, freed, nextId);
      OwnedAreAllocated(el, GranuleOf(i1, b), owner, freed, nextId);
      if (i0, a) != (i1, b) { OwnedApart(ef, GranuleOf(i0, a), el, GranuleOf(i1, b), owner); }
    }

    /** What deleting a live region does, by whole entries. */
    method DropRegion(p: Word32, size: Word32, emptySize: Word32, ghost w: World,
                      ghost i0: nat, ghost a: nat, ghost i1: nat, ghost b: nat, ghost gone: set<nat>)
      requires Shape() && Shows(w) && Separate(w.live) && Region(p, size) in w.live && p + size < W32
      requires emptySize == if p / GRANULE in w.zones.flagged then INVALID_SIZE else EMPTY_SIZE
      requires i0 <= i1 < PAGES && a < PAGE && b < PAGE
      requires p / GRANULE == GranuleOf(i0, a) && (p + size) / GRANULE == GranuleOf(i1, b)
      requires (forall k :: i0 <= k <= i1 ==> !IsShared(t1[k])) && Unfreed(t1[i0][a]) && Unfreed(t1[i1][b])
      requires (i0, a) == (i1, b) || Ids(t1[i0][a].next) !! Ids(t1[i1][b].next)
      requires gone == FreedBy(t1[i0][a], p) + if (i0, a) == (i1, b) then {} else FreedBy(t1[i1][b], p)
      modifies t1, Pages(), `freed, `owner
      ensures Shape() && Shows(AfterDeletion(w, p)) && freed == old(freed) + gone && owner == old(owner) - gone
      ensures forall k :: 0 <= k < PAGES ==> t1[k] == old(t1[k])
    {
      ghost var r := Region(p, size);
      hide Right, Clear, GranuleOf, FreedBy, Ids, Separate, AfterDeletion, Unfreed, ZonesAfterDelete;
      SameGranule(i0, a, i1, b);
      ghost var ef, el := t1[i0][a], t1[i1][b];
      assert Right(ef, GranuleOf(i0, a), w, owner) && Right(el, GranuleOf(i1, b), w, owner);
      ClearRegion(p, size, emptySize, i0, a, i1, b);
      owner := owner - gone;
      forall i, j | 0 <= i < PAGES && 0 <= j < PAGE
        ensures Right(t1[i][j], GranuleOf(i, j), AfterDeletion(w, p), owner)
      {
        DroppedEntry(old(t1[i][j]), i, j, w, old(owner), r, emptySize, i0, a, ef, i1, b, el, gone);
      }
      DeletionOf(w, r);
      OwnIsKept(w.zones, p / GRANULE, (p + size) / GRANULE);
    }

    lemma DroppedEntry(e: Entry, i: int, j: int, w: World, o: map<nat, int>, r: Region, emptySize: Word32,
                       i0: nat, a: nat, ef: Entry, i1: nat, b: nat, el: Entry, gone: set<nat>)
      requires 0 <= j < PAGE && a < PAGE && b < PAGE && Separate(w.live) && r in w.live &&
               Right(e, GranuleOf(i, j), w, o)
      requires r.start / GRANULE == GranuleOf(i0, a) && (r.start + r.size) / GRANULE == GranuleOf(i1, b)
      requires emptySize == if r.start / GRANULE in w.zones.flagged then INVALID_SIZE else EMPTY_SIZE
      requires Right(ef, GranuleOf(i0, a), w, o) && Right(el, GranuleOf(i1, b), w, o) &&
               GranuleOf(i0, a) <= GranuleOf(i1, b)
      requires (i == i0 && j == a ==> e == ef) && (i == i1 && j == b ==> e == el)
      requires gone == FreedBy(ef, r.start) + if (i0, a) == (i1, b) then {} else FreedBy(el, r.start)
      ensures Right(if i0 <= i <= i1 then Clear(e, GranuleOf(i, j), GranuleOf(i0, a), GranuleOf(i1, b), r.start,
                                                emptySize) else e,
                    GranuleOf(i, j), AfterDeletion(w, r.start), o - gone)
    {
      SameGranule(i, j, i0, a);
      SameGranule(i, j, i1, b);
      SameGranule(i0, a, i1, b);
      GranulePages(i0, a);
      GranulePages(i1, b);
      hide Represents, Owns, Zoned, Clear, GranuleOf, FreedBy, Ids, Separate, AfterDeletion, ZonesAfterDelete;
      GoneAt(e, GranuleOf(i, j), o, ef, GranuleOf(i0, a), el, GranuleOf(i1, b), r.start, gone);
      RightAfterDelete(e, GranuleOf(i, j), w, o, r, emptySize, gone);
      OutsidePages(e, i, j, r, emptySize);
    }

    lemma OutsidePages(e: Entry, i: int, j: int, r: Region, emptySize: Word32)
      requires 0 <= j < PAGE
      ensures !(r.start / GRANULE / PAGE <= i <= (r.start + r.size) / GRANULE / PAGE) ==>
                AfterDelete(e, GranuleOf(i, j), r, emptySize) == e
    {
      hide GranuleOf;
      if !(r.start / GRANULE / PAGE <= i <= (r.start + r.size) / GRANULE / PAGE) {
        UntouchedPage(r, i, j);
        OutsideIsLeft(e, GranuleOf(i, j), r, 0, 0, emptySize);
      }
    }

    method RemoveRegion(p: Word32, size: Word32, emptySize: Word32)
      requires Valid() && Region(p, size) in live
      requires emptySize == if p / GRANULE in zones.flagged then INVALID_SIZE else EMPTY_SIZE
      modifies this, t1, Pages()
      ensures Valid() && Present() == AfterDeletion(old(Present()), p)
      ensures forall k :: 0 <= k < PAGES ==> t1[k] == old(t1[k])
    {
      hide Right, Owns, Ids, FreedBy, Unfreed, AfterDeletion;
      ghost var r, w := Region(p, size), Present();
      StartsPositive(live, r);
      ghost var i0, a := PlaceOf(p / GRANULE);
      ghost var i1, b := PlaceOf((p + size) / GRANULE);
      ReadyToClear(w, r, i0, a, i1, b);
      ghost var ef, el := t1[i0][a], t1[i1][b];
      ghost var gone := FreedBy(ef, p) + if (i0, a) == (i1, b) then {} else FreedBy(el, p);
      SameGranule(i0, a, i1, b);
      SamePlace(i0, a, i1, b);
      GoneAt(ef, p / GRANULE, owner, ef, p / GRANULE, el, (p + size) / GRANULE, p, gone);
      GoneAccounted(owner, freed, gone, nextId);
      DropRegion(p, size, emptySize, w, i0, a, i1, b, gone);
      live, zones := AfterDeletion(w, p).live, AfterDeletion(w, p).zones;
      DeletionOf(w, r);
    }

    /** Null in an invalid zone: its entry is cleared, even in the shared page, which stays as it is. */
    method ClearNull(emptySize: Word32)
      requires Valid() && t1[0][0].start == 0 && t1[0][0].size == INVALID_SIZE
      requires emptySize == if 0 in zones.flagged then INVALID_SIZE else EMPTY_SIZE
      modifies this, Pages()
      ensures Valid() && live == old(live) && zones == ZonesAfterDelete(old(zones), 0, 0)
    {
      hide Right, Deleted, ZonesAfterDelete, FreedBy;
      ghost var w := Present();
      assert Right(t1[0][0], GranuleOf(0, 0), w, owner);
      RightAfterNull(t1[0][0], 0, w, owner, emptySize);
      NoNodes(t1[0][0], GranuleOf(0, 0), w);
      DeleteEntry(t1[0], 0, 0, emptySize);
      zones := ZonesAfterDelete(zones, 0, 0);
      forall i, j | 0 <= i < PAGES && 0 <= j < PAGE
        ensures Right(t1[i][j], GranuleOf(i, j), Present(), owner)
      {
        assert Right(old(t1[i][j]), GranuleOf(i, j), w, owner);
        RightAfterNull(old(t1[i][j]), GranuleOf(i, j), w, owner, emptySize);
      }
      OwnIsKept(w.zones, 0, 0);
    }

    lemma OwnIsKept(z: Zones, first: int, last: int)
      ensures ZonesAfterDelete(z, first, last).own == z.own
    {}

    lemma NoNodes(e: Entry, g: int, w: World)
      requires Right(e, g, w, owner) && e.start == 0
      ensures Unfreed(e)
    {}

    /** __bound_delete_region: fails, and changes no region, exactly when none starts at p. */
    method DeleteRegion(p: Word32) returns (code: int)
      requires Valid() && Allowed(Present(), Delete(p))
      modifies this, t1, Pages()
      ensures Valid() && Present() == AfterDeletion(old(Present()), p)
      ensures code == if Removes(old(Present()), p) then 0 else -1
      ensures forall k :: 0 <= k < PAGES ==> t1[k] == old(t1[k])
    {
      hide Represents, Owns, Separate, ZonesAfterDelete, ReadsInvalidAt, Contains, Shape;
      NullEntry(p);
      var e := Lookup(p);
      if p > 0 { HeadOfLookup(p, e); } else { NullIsNowhere(live); NullStartsNone(); }
      if e.size == EMPTY_SIZE || p != e.start {
        if p > 0 && p == e.start { StartsPositive(live, Region(p, e.size)); }
        return -1;
      }
      EntryFlag(p);
      var emptySize := if e.isInvalid then INVALID_SIZE else EMPTY_SIZE;
      if p > 0 {
        RemoveRegion(p, e.size, emptySize);
      } else {
        ClearNull(emptySize);
      }
      code := 0;
    }

    lemma NullEntry(p: Word32)
      requires Valid() && Allowed(Present(), Delete(p))
      ensures p == 0 && ReadsInvalidAt(zones, live, 0) ==> t1[0][0].start == 0
    {
      assert Right(t1[0][0], GranuleOf(0, 0), Present(), owner);
      TouchedHasStart(t1[0][0], 0, live);
    }

    lemma EntryFlag(p: Word32)
      requires Valid()
      ensures p / GRANULE / PAGE < PAGES &&
              (t1[p / GRANULE / PAGE][p / GRANULE % PAGE].isInvalid <==> p / GRANULE in zones.flagged)
    {
      ghost var i, j := PlaceOf(p / GRANULE);
      assert Right(t1[i][j], GranuleOf(i, j), Present(), owner);
      SameGranule(i, j, p / GRANULE / PAGE, p / GRANULE % PAGE);
    }

    // ----- invalid zones

    ghost predicate AllBlank()
      requires Shape()
      reads t1, emptyT2, invalidT2, Pages()
    {
      forall k, j :: 0 <= k < PAGES && 0 <= j < PAGE ==> Blank(t1[k][j])
    }

    method MarkRun(page: array<Entry>, lo: nat, hi: nat)
      requires lo <= page.Length && hi <= page.Length
      modifies page
      ensures forall j :: 0 <= j < page.Length ==>
                page[j] == if lo <= j < hi then old(page[j]).(size := INVALID_SIZE, isInvalid := true) else old(page[j])
    {
      var i := lo;
      while i < hi
        invariant lo <= i && (i <= hi || i == lo)
        invariant forall j :: 0 <= j < page.Length ==>
                    page[j] == if lo <= j < i then old(page[j]).(size := INVALID_SIZE, isInvalid := true)
                               else old(page[j])
      {
        page[i] := page[i].(size := INVALID_SIZE, isInvalid := true);
        i := i + 1;
      }
    }

    method MarkPart(i: nat, lo: nat, hi: nat)
      requires Shape() && AllBlank() && i < PAGES && lo <= PAGE && hi <= PAGE
      modifies t1, t1[i]
      ensures Shape() && AllBlank() && !IsShared(t1[i])
      ensures if IsShared(old(t1[i])) then fresh(t1[i]) else t1[i] == old(t1[i])
      ensures forall k :: 0 <= k < PAGES && k != i ==> t1[k] == old(t1[k])
      ensures forall k, j :: 0 <= k < PAGES && 0 <= j < PAGE ==>
                (t1[k][j].isInvalid <==>
                  (k == i && lo <= j < hi) || (old(t1[k][j].isInvalid) && !(k == i && IsShared(old(t1[k])))))
    {
      var page := GetPage(i);
      MarkRun(page, lo, hi);
    }

    method MarkPages(lo: nat, hi: nat)
      requires Shape() && AllBlank() && hi <= PAGES
      modifies t1
      ensures Shape() && AllBlank()
      ensures forall k :: 0 <= k < PAGES ==> t1[k] == if lo <= k < hi then invalidT2 else old(t1[k])
    {
      var i := lo;
      while i < hi
        invariant lo <= i && (i <= hi || i == lo)
        invariant Shape() && AllBlank()
        invariant forall k :: 0 <= k < PAGES ==> t1[k] == if lo <= k < i then invalidT2 else old(t1[k])
      {
        t1[i] := invalidT2;
        i := i + 1;
      }
    }

    /** The granules lo..hi, over several pages or within one that they do not start. */
    method MarkAcross(lo: nat, hi: nat)
      requires Shape() && AllBlank() && lo < GRANULES && hi <= GRANULES && (lo + PAGE - 1) / PAGE != hi / PAGE
      modifies t1, Pages()
      ensures Shape() && AllBlank()
      ensures forall k :: 0 <= k < PAGES ==> t1[k] == old(t1[k]) || t1[k] == invalidT2 || fresh(t1[k])
      ensures forall k :: 0 <= k < PAGES ==>
                (IsShared(t1[k]) <==> k in PagesFilled(lo, hi) || (IsShared(old(t1[k])) && k !in PagesOpened(lo, hi)))
      ensures forall k, j :: 0 <= k < PAGES && 0 <= j < PAGE ==>
                (t1[k][j].isInvalid <==>
                  Marked(lo, hi, GranuleOf(k, j)) ||
                  (old(t1[k][j].isInvalid) && !(IsShared(old(t1[k])) && k in PagesOpened(lo, hi))))
    {
      hide Blank, GranuleOf;
      var i, j := lo % PAGE, hi % PAGE;
      if i > 0 {
        MarkPart(lo / PAGE, i, PAGE);
      }
      MarkPages((lo + PAGE - 1) / PAGE, hi / PAGE);
      if j != 0 {
        MarkPart(hi / PAGE, 0, j);
      }
      MarkedParts(lo, hi);
      hide Marked;
    }

    /** Both cases of mark_invalid. */
    method MarkGranules(lo: nat, hi: nat)
      requires Shape() && AllBlank() && lo < GRANULES && hi <= GRANULES
      modifies t1, Pages()
      ensures Shape() && AllBlank()
      ensures forall k :: 0 <= k < PAGES ==> t1[k] == old(t1[k]) || t1[k] == invalidT2 || fresh(t1[k])
      ensures forall k :: 0 <= k < PAGES ==>
                (IsShared(t1[k]) <==> k in PagesFilled(lo, hi) || (IsShared(old(t1[k])) && k !in PagesOpened(lo, hi)))
      ensures forall k, j :: 0 <= k < PAGES && 0 <= j < PAGE ==>
                (t1[k][j].isInvalid <==>
                  Marked(lo, hi, GranuleOf(k, j)) ||
                  (old(t1[k][j].isInvalid) && !(IsShared(old(t1[k])) && k in PagesOpened(lo, hi))))
    {
      hide Blank, GranuleOf, Marked;
      if (lo + PAGE - 1) / PAGE == hi / PAGE {
        MarkedParts(lo, hi);
        MarkPart(lo / PAGE, lo % PAGE, hi % PAGE);
      } else {
        MarkAcross(lo, hi);
      }
    }

    lemma TableIsBlank()
      requires Valid() && live == {} && zones.shut == zones.flagged
      ensures AllBlank()
    {
      hide Right, Blank;
      forall k, j | 0 <= k < PAGES && 0 <= j < PAGE ensures Blank(t1[k][j]) {
        assert Right(t1[k][j], GranuleOf(k, j), Present(), owner);
        RightIsBlank(t1[k][j], GranuleOf(k, j), Present(), owner);
      }
    }

    /** mark_invalid: flags exactly the granules that Marked gives, and forgets the other flags
        of pages that stop being shared. Used before any region is created. */
    method MarkInvalid(addr: Word32, size: Word32)
      requires Valid() && live == {} && owner == map[] && zones.shut == zones.flagged
      modifies t1, Pages(), `zones
      ensures Valid() && zones == ZonesAfterMark(old(zones), FirstWhole(addr), EndWhole(addr, size))
      ensures zones.shut == zones.flagged
      ensures forall k :: 0 <= k < PAGES ==> t1[k] == old(t1[k]) || t1[k] == invalidT2 || fresh(t1[k])
    {
      MarkBounds(addr, size);
      var end := Plus32(addr, size);
      var t2Start := Shr32(Plus32(addr, GRANULE - 1), 8);
      var t2End := if end != 0 then Shr32(end, 8) else GRANULES;
      hide Right, Blank, GranuleOf, Marked, FirstWhole, EndWhole, ZonesAfterMark, PagesOpened, PagesFilled;
      ghost var w := Present();
      TableIsBlank();
      MarkGranules(t2Start, t2End);
      zones := ZonesAfterMark(zones, t2Start, t2End);
      ghost var now := World({}, zones);
      forall k, j | 0 <= k < PAGES && 0 <= j < PAGE
        ensures Right(t1[k][j], GranuleOf(k, j), now, owner)
      {
        assert Right(old(t1[k][j]), GranuleOf(k, j), w, owner);
        BlankIsRight(old(t1[k][j]), t1[k][j], k, j, w, t2Start, t2End);
      }
      OwnAfterMark(w.zones, t2Start, t2End);
      FilledNotOpened(t2Start, t2End);
      assert forall k :: 0 <= k < PAGES ==> (IsShared(t1[k]) <==> k !in zones.own);
      assert Shows(now);
    }

    // ----- runs

    /** Any run of creations, deletions, lookups, pointer arithmetic and accesses answers as the set
        of live regions and the invalid zones do, and frees each removed node once. */
    method Run(ops: seq<Op>) returns (replies: seq<Reply>)
      requires Valid() && Legal(Present(), ops)
      modifies this, t1, Pages()
      ensures Valid() && Present() == Final(old(Present()), ops)
      ensures Faithful(old(Present()), ops, replies)
      decreases ops
    {
      if ops == [] { return []; }
      ghost var w := Present();
      var reply := Perform(ops[0]);
      replies := Run(ops[1..]);
      replies := [reply] + replies;
    }

    method Perform(op: Op) returns (reply: Reply)
      requires Valid() && Allowed(Present(), op)
      modifies this, t1, Pages()
      ensures Valid() && Present() == Step(old(Present()), op) && Answers(old(Present()), op, reply)
      ensures forall k :: 0 <= k < PAGES ==> t1[k] == old(t1[k]) || fresh(t1[k])
    {
      hide Right, Moved, Accessed, HasSize, ReadsInvalidAt, Shape;
      match op {
        case New(p, size) =>
          NewRegion(p, size);
          reply := Created;
        case Delete(p) =>
          var code := DeleteRegion(p);
          reply := Removed(code);
        case Find(p) =>
          var e := Lookup(p);
          reply := if e.start != 0 then Found(Region(e.start, e.size)) else Nothing;
        case Move(p, offset) =>
          var q := PtrAdd(p, offset);
          reply := Pointer(q);
        case Access(p, offset, n) =>
          var q := PtrIndir(p, offset, n);
          reply := Pointer(q);
        case SizeOf(p) =>
          var size := GetRegionSize(p);
          reply := Size(size);
      }
    }
  }
}
