/** What a run of the bounds checker owes, in terms of the live regions and the invalid zones alone
    (lib/bcheck.c:178-243, 518-728). */
module Worlds {
  import opened Words32
  import opened Regions
  import opened Zones

  datatype World = World(live: set<Region>, zones: Zones)

  datatype Op =
    | New(p: Word32, size: Word32)
    | Delete(p: Word32)
    | Find(p: Word32)
    | Move(p: Word32, offset: Word32)
    | Access(p: Word32, offset: Word32, n: Word32)
    | SizeOf(p: Word32)

  datatype Reply = Created | Removed(code: int) | Found(r: Region) | Nothing | Pointer(q: Word32) | Size(size: Word32)

  /** Regions are created apart from the live ones, and accesses have the sizes that there are
      functions for. Null may be deleted unless a region touches its granule and that is flagged. */
  ghost predicate Allowed(w: World, op: Op) {
    match op
    case New(p, size) => Region(p, size) !in w.live && Separate(w.live + {Region(p, size)})
    case Delete(p) => p > 0 || 0 !in w.zones.flagged || forall r :: r in w.live ==> !Touches(r, 0)
    case Access(_, _, n) => n in {1, 2, 4, 8, 12, 16}
    case _ => true
  }

  ghost predicate StartsAt(live: set<Region>, p: Word32) {
    exists r :: r in live && r.start == p
  }

  ghost predicate Outside(live: set<Region>, p: Word32) {
    forall r :: r in live ==> !Contains(r, p)
  }

  /** Null has no region, but an entry that reads as invalid is cleared in its place. */
  ghost predicate Removes(w: World, p: Word32) {
    StartsAt(w.live, p) || (p == 0 && ReadsInvalidAt(w.zones, w.live, 0))
  }

  ghost function Step(w: World, op: Op): World {
    match op
    case New(p, size) => World(w.live + {Region(p, size)}, ZonesAfterNew(w.zones, Region(p, size)))
    case Delete(p) => AfterDeletion(w, p)
    case _ => w
  }

  ghost function AfterDeletion(w: World, p: Word32): World {
    if StartsAt(w.live, p) then
      var r :| r in w.live && r.start == p;
      World(w.live - {r}, ZonesAfterDelete(w.zones, p / GRANULE, (p + r.size) / GRANULE))
    else if Removes(w, p) then World(w.live, ZonesAfterDelete(w.zones, 0, 0))
    else w
  }

  /** Pointer arithmetic may move a pointer around in its region, and no further. */
  ghost predicate Moved(w: World, p: Word32, offset: Word32, q: Word32) {
    var t := Plus32(p, offset);
    && (forall r :: r in w.live && Contains(r, p) ==>
          q == if r.start <= t < r.start + r.size then t else INVALID_POINTER)
    && (Outside(w.live, p) ==>
          q == if ReadsInvalidAt(w.zones, w.live, p) || t == EMPTY_SIZE then INVALID_POINTER else t)
  }

  /** An access of n bytes must end inside the region. */
  ghost predicate Accessed(w: World, p: Word32, offset: Word32, n: Word32, q: Word32) {
    var t := Plus32(p, offset);
    && (forall r :: r in w.live && Contains(r, p) ==> q == if Contains(r, Plus32(t, n)) then t else INVALID_POINTER)
    && (Outside(w.live, p) ==>
          q == if ReadsInvalidAt(w.zones, w.live, p) && Plus32(t, n) != 0 then INVALID_POINTER else t)
  }

  ghost predicate HasSize(w: World, p: Word32, size: Word32) {
    && (forall r :: r in w.live && r.start == p ==> size == r.size)
    && (!StartsAt(w.live, p) ==> size == if Removes(w, p) then INVALID_SIZE else EMPTY_SIZE)
  }

  ghost predicate Answers(w: World, op: Op, reply: Reply) {
    match op
    case New(p, size) => reply == Created
    case Delete(p) => reply == Removed(if Removes(w, p) then 0 else -1)
    case Find(p) =>
      if Outside(w.live, p) then reply == Nothing
      else reply.Found? && reply.r in w.live && Contains(reply.r, p)
    case Move(p, offset) => reply.Pointer? && Moved(w, p, offset, reply.q)
    case Access(p, offset, n) => reply.Pointer? && Accessed(w, p, offset, n, reply.q)
    case SizeOf(p) => reply.Size? && HasSize(w, p, reply.size)
  }

  ghost predicate Legal(w: World, ops: seq<Op>)
    decreases ops
  {
    ops == [] || (Allowed(w, ops[0]) && Legal(Step(w, ops[0]), ops[1..]))
  }

  ghost function Final(w: World, ops: seq<Op>): World
    decreases ops
  {
    if ops == [] then w else Final(Step(w, ops[0]), ops[1..])
  }

  ghost predicate Faithful(w: World, ops: seq<Op>, replies: seq<Reply>)
    decreases ops
  {
    |replies| == |ops| &&
    (ops == [] || (Answers(w, ops[0], replies[0]) && Faithful(Step(w, ops[0]), ops[1..], replies[1..])))
  }

  /** The region that contains an address is unique. */
  lemma ContainingIsUnique(live: set<Region>, r: Region, s: Region, p: int)
    requires Separate(live) && r in live && s in live && Contains(r, p) && Contains(s, p)
    ensures r == s
  {
    assert r != s ==> Disjoint(r, s);
  }

  /** A deleted region is the one that starts at the address. */
  lemma DeletionOf(w: World, r: Region)
    requires Separate(w.live) && r in w.live
    ensures AfterDeletion(w, r.start) ==
            World(w.live - {r}, ZonesAfterDelete(w.zones, r.start / GRANULE, (r.start + r.size) / GRANULE))
  {
    hide ZonesAfterDelete;
    var s :| s in w.live && s.start == r.start && AfterDeletion(w, r.start) ==
             World(w.live - {s}, ZonesAfterDelete(w.zones, r.start / GRANULE, (r.start + s.size) / GRANULE));
    ContainingIsUnique(w.live, r, s, r.start);
  }

  // ----- an entry in a world

  /** The entry of granule g lists the live regions that touch g, in nodes of its own, and shows
      whether g is invalid. */
  ghost predicate Right(e: Entry, g: int, w: World, owner: map<nat, int>) {
    Represents(e, g, w.live) && Owns(e, g, owner) && Zoned(e, g, w.zones)
  }

  lemma RightAfterNew(e: Entry, i: int, j: int, w: World, owner: map<nat, int>, r: Region, m: nat, n: nat,
                      atFirst: nat, atLast: nat)
    requires Separate(w.live + {r}) && r !in w.live && 0 <= j < PAGE && Right(e, GranuleOf(i, j), w, owner)
    requires i !in w.zones.own ==> e.start == 0
    requires m !in owner && n !in owner && n == m + atFirst
    requires GranuleOf(i, j) == r.start / GRANULE ==> atFirst == Occupied(e)
    requires GranuleOf(i, j) == (r.start + r.size) / GRANULE ==> atLast == Occupied(e)
    ensures var spans := r.start / GRANULE / PAGE <= i <= (r.start + r.size) / GRANULE / PAGE;
            Right(if spans then AfterNew(Opened(e, i in w.zones.own), GranuleOf(i, j), r, m, n) else e, GranuleOf(i, j),
                  Step(w, New(r.start, r.size)),
                  NewOwner(owner, r.start / GRANULE, (r.start + r.size) / GRANULE, m, n, atFirst, atLast))
  {
    hide Represents, Owns, Zoned, AfterNew, GranuleOf, Separate, ZonesAfterNew, NewOwner, Touches;
    var g := GranuleOf(i, j);
    assert r in w.live + {r} && r == Region(r.start, r.size);
    StartsPositive(w.live + {r}, r);
    NewZoned(e, i, j, w.zones, r, m, n);
    if r.start / GRANULE / PAGE <= i <= (r.start + r.size) / GRANULE / PAGE {
      var e0 := Opened(e, i in w.zones.own);
      if i !in w.zones.own {
        EmptyRepresents(e, g, w.live);
        EmptyOwns(e, g, w.live, owner);
      }
      NewIsRepresented(e0, g, w.live, r, m, n);
      NewOwns(e0, g, owner, r, m, n, atFirst, atLast);
    } else {
      UntouchedPage(r, i, j);
      OutsideIsLeft(e, g, r, m, n, EMPTY_SIZE);
      NewIsRepresented(e, g, w.live, r, m, n);
      NewOwns(e, g, owner, r, m, n, atFirst, atLast);
    }
  }

  /** The new nodes are accounted for. */
  lemma NewAccounted(owner: map<nat, int>, freed: set<nat>, first: int, last: int, m: nat, atFirst: nat, atLast: nat)
    requires atFirst <= 1 && atLast <= 1
    requires (forall id: nat :: id < m <==> id in owner || id in freed) && forall id :: id in owner ==> id !in freed
    ensures var o := NewOwner(owner, first, last, m, m + atFirst, atFirst, atLast);
            && (forall id: nat :: id < m + atFirst + (if last != first then atLast else 0) <==> id in o || id in freed)
            && (forall id :: id in o ==> id !in freed)
  {}

  lemma OwnAfterNew(z: Zones, r: Region)
    ensures forall p :: p in ZonesAfterNew(z, r).own <==>
              p in z.own || r.start / GRANULE / PAGE <= p <= (r.start + r.size) / GRANULE / PAGE
  {}

  lemma StartsPositive(live: set<Region>, r: Region)
    requires Separate(live) && r in live
    ensures Proper(r)
  {}

  lemma EmptyOwns(e: Entry, g: int, live: set<Region>, owner: map<nat, int>)
    requires Represents(e, g, live) && Owns(e, g, owner) && e.start == 0
    ensures Owns(EMPTY_ENTRY, g, owner)
  {}

  lemma RightAfterDelete(e: Entry, g: int, w: World, owner: map<nat, int>, r: Region, emptySize: Word32, gone: set<nat>)
    requires Separate(w.live) && r in w.live && Right(e, g, w, owner)
    requires emptySize == if r.start / GRANULE in w.zones.flagged then INVALID_SIZE else EMPTY_SIZE
    requires g == r.start / GRANULE || g == (r.start + r.size) / GRANULE ==> gone * Ids(e.next) == FreedBy(e, r.start)
    requires !(g == r.start / GRANULE || g == (r.start + r.size) / GRANULE) ==> gone * Ids(e.next) == {}
    ensures Right(AfterDelete(e, g, r, emptySize), g, Step(w, Delete(r.start)), owner - gone)
  {
    hide Represents, Owns, Zoned, AfterDelete, Separate, ZonesAfterDelete;
    DeletionOf(w, r);
    DeleteIsRepresented(e, g, w.live, r, emptySize);
    DeleteOwns(e, g, owner, r, emptySize, gone);
    DeleteZoned(e, g, w.live, w.zones, r, emptySize);
  }

  lemma RightAfterLookup(e: Entry, g: int, w: World, owner: map<nat, int>, p: Word32)
    requires Separate(w.live) && Right(e, g, w, owner)
    ensures Right(Fronted(e, p), g, w, owner)
  {
    hide Represents, Owns, Zoned, Fronted, Separate;
    FrontedIsRepresented(e, g, w.live, p);
    FrontedOwns(e, g, owner, p);
    FrontedZoned(e, g, w.live, w.zones, p);
  }

  lemma TouchedHasStart(e: Entry, g: int, live: set<Region>)
    requires Represents(e, g, live)
    ensures e.start != 0 <==> exists r :: r in live && Touches(r, g)
  {
    HeadIsListed(e);
    if e.start == 0 { assert Listed(e) == []; }
  }

  lemma OwnedAreAllocated(e: Entry, g: int, owner: map<nat, int>, freed: set<nat>, nextId: nat)
    requires Owns(e, g, owner) && (forall id :: id in owner ==> id !in freed)
    requires forall id: nat :: id < nextId <==> id in owner || id in freed
    ensures forall id :: id in Ids(e.next) ==> id < nextId && id !in freed
  {
    hide Ids;
  }

  lemma OwnedApart(e: Entry, g: int, e': Entry, g': int, owner: map<nat, int>)
    requires Owns(e, g, owner) && Owns(e', g', owner) && g != g'
    ensures Ids(e.next) !! Ids(e'.next)
  {
    hide Ids;
  }

  /** The entry of null, cleared in its place. */
  lemma RightAfterNull(e: Entry, g: int, w: World, owner: map<nat, int>, emptySize: Word32)
    requires Right(e, g, w, owner) && (g == 0 ==> e.start == 0)
    requires emptySize == if 0 in w.zones.flagged then INVALID_SIZE else EMPTY_SIZE
    ensures Right(if g == 0 then Deleted(e, 0, emptySize) else e, g, World(w.live, ZonesAfterDelete(w.zones, 0, 0)),
                  owner)
    ensures g == 0 ==> FreedBy(e, 0) == {}
    ensures e.isInvalid && g == 0 && e.size == INVALID_SIZE ==> Deleted(e, 0, emptySize) == e
  {
    if g == 0 { assert Listed(Deleted(e, 0, emptySize)) == Listed(e); }
  }

  lemma RightIsBlank(e: Entry, g: int, w: World, owner: map<nat, int>)
    requires w.live == {} && w.zones.shut == w.zones.flagged && Right(e, g, w, owner)
    ensures Blank(e)
  {
    HeadIsListed(e);
  }

  lemma BlankIsRight(e: Entry, e': Entry, i: int, j: int, w: World, lo: nat, hi: nat)
    requires 0 <= i < PAGES && 0 <= j < PAGE && w.live == {} && w.zones.shut == w.zones.flagged
    requires Right(e, GranuleOf(i, j), w, map[]) && Blank(e')
    requires e'.isInvalid <==>
             Marked(lo, hi, GranuleOf(i, j)) || (e.isInvalid && (i in w.zones.own || i !in PagesOpened(lo, hi)))
    ensures Right(e', GranuleOf(i, j), World({}, ZonesAfterMark(w.zones, lo, hi)), map[])
  {
    hide Marked, PagesOpened, Represents, Owns, GranuleOf, Zoned, Blank, ZonesAfterMark;
    BlankIsBare(e', GranuleOf(i, j));
    MarkZoned(e, e', i, j, w.zones, lo, hi);
  }

  lemma GoneAccounted(owner: map<nat, int>, freed: set<nat>, gone: set<nat>, nextId: nat)
    requires gone <= owner.Keys && (forall id :: id in owner ==> id !in freed)
    requires forall id: nat :: id < nextId <==> id in owner || id in freed
    ensures forall id :: id in owner - gone ==> id !in freed + gone
    ensures forall id: nat :: id < nextId <==> id in owner - gone || id in freed + gone
  {}

  /** The allocated nodes are as many as the listed and the freed ones together. */
  lemma NodeBalance(owner: map<nat, int>, freed: set<nat>, nextId: nat)
    requires (forall id :: id in owner ==> id !in freed) &&
             forall id: nat :: id < nextId <==> id in owner || id in freed
    ensures |owner.Keys| + |freed| == nextId
  {
    CountIds(owner.Keys + freed, nextId);
  }

  lemma {:induction false} CountIds(s: set<nat>, n: nat)
    requires forall id: nat :: id < n <==> id in s
    ensures |s| == n
  {
    if n == 0 {
      assert s == {};
    } else {
      CountIds(s - {n - 1}, n - 1);
      assert s == s - {n - 1} + {n - 1};
    }
  }
}
