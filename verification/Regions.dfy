/** Address regions, and the entries of the bounds table that list them granule by granule
    (lib/bcheck.c:65-161, 497-625). All addresses have 32 bits. */
module Regions {
  import opened Power2
  import opened Words
  import opened Words32

  const GRANULE := 0x100
  const PAGE := 0x800
  const PAGES := 0x2000
  const GRANULES := 0x100_0000

  /** The granule of entry j of page i. */
  function GranuleOf(i: int, j: int): int { i * 0x800 + j }

  lemma GranuleOrder(i: int, j: int, k: int, l: int)
    requires i < k && 0 <= j < PAGE && 0 <= l
    ensures GranuleOf(i, j) < GranuleOf(k, 0) && GranuleOf(i, PAGE) <= GranuleOf(k, l)
  {}

  const EMPTY_SIZE: Word32 := 0xffff_ffff
  const INVALID_SIZE: Word32 := 0
  const INVALID_POINTER: Word32 := 0xffff_fffe

  /** A region. Its end counts as inside. */
  datatype Region = Region(start: Word32, size: Word32)

  /** A list node: where it was allocated, and the region that it holds. */
  datatype Node = Node(region: Region, id: nat)

  /** An entry of a page: the head of its list, the nodes of the rest, and a flag. */
  datatype Entry = Entry(start: Word32, size: Word32, next: seq<Node>, isInvalid: bool)

  const EMPTY_ENTRY := Entry(0, EMPTY_SIZE, [], false)
  const INVALID_ENTRY := Entry(0, INVALID_SIZE, [], true)

  /** The test of the code: the distance from the start, modulo 2^32, is within the size. */
  predicate Hits(start: Word32, size: Word32, p: Word32) {
    Minus32(p, start) <= size
  }

  ghost predicate Proper(r: Region) {
    r.start > 0 && r.start + r.size < W32
  }

  ghost predicate Contains(r: Region, p: int) {
    r.start <= p <= r.start + r.size
  }

  ghost predicate Disjoint(r: Region, s: Region) {
    r.start + r.size < s.start || s.start + s.size < r.start
  }

  ghost predicate Touches(r: Region, g: int) {
    r.start / GRANULE <= g <= (r.start + r.size) / GRANULE
  }

  /** The live regions of a run: proper, and pairwise disjoint with their ends. */
  ghost predicate Separate(live: set<Region>) {
    && (forall r :: r in live ==> Proper(r))
    && (forall r, s :: r in live && s in live && r != s ==> Disjoint(r, s))
  }

  function Held(ns: seq<Node>): (s: seq<Region>)
    ensures |s| == |ns| && forall i :: 0 <= i < |ns| ==> s[i] == ns[i].region
  {
    seq(|ns|, i requires 0 <= i < |ns| => ns[i].region)
  }

  function Listed(e: Entry): seq<Region> {
    if e.start == 0 then [] else [Region(e.start, e.size)] + Held(e.next)
  }

  ghost predicate NoDuplicates(s: seq<Region>) {
    forall i, j :: 0 <= i < j < |s| ==> s[i] != s[j]
  }

  /** The entry of granule g lists each live region that touches g, once, and nothing else. */
  ghost predicate Represents(e: Entry, g: int, live: set<Region>) {
    && (forall r :: r in Listed(e) <==> r in live && Touches(r, g))
    && NoDuplicates(Listed(e))
    && (e.start == 0 ==> e.next == [] && (e.size == EMPTY_SIZE || e.size == INVALID_SIZE))
  }

  lemma HitsIsContains(r: Region, p: Word32)
    requires Proper(r)
    ensures Hits(r.start, r.size, p) <==> Contains(r, p)
  {}

  lemma NullIsNowhere(live: set<Region>)
    requires Separate(live)
    ensures forall r :: r in live ==> !Contains(r, 0)
  {
    forall r | r in live ensures !Contains(r, 0) { assert Proper(r); }
  }

  lemma ContainsTouches(r: Region, p: Word32)
    requires Contains(r, p)
    ensures Touches(r, p / GRANULE)
  {}

  /** Moving an address by an offset moves its distance from a start, modulo 2^32. */
  lemma AddressMoves(p: Word32, start: Word32, offset: Word32)
    ensures Plus32(Minus32(p, start), offset) == Minus32(Plus32(p, offset), start)
  {
    var s: int := start;
    ModShift(p - s, offset, W32);
    ModShift(p + offset, -s, W32);
  }

  lemma PlusAssociates(p: Word32, x: Word32, y: Word32)
    ensures Plus32(p, Plus32(x, y)) == Plus32(Plus32(p, x), y)
  {
    ModShift(x + y, p, W32);
    ModShift(p + x, y, W32);
  }

  lemma EndInRegion(r: Region, q: Word32, n: Word32)
    requires r.start <= q && q + n < W32
    ensures Contains(r, Plus32(q, n)) <==> q + n <= r.start + r.size
  {}

  lemma WithinRegion(r: Region, q: Word32)
    requires Proper(r)
    ensures Minus32(q, r.start) < r.size <==> r.start <= q < r.start + r.size
  {}

  // ----- adding a region to an entry (add_region)

  /** An occupied entry moves its head to a new node, of the given address. */
  function Added(e: Entry, r: Region, id: nat): Entry {
    if e.start == 0 then e.(start := r.start, size := r.size)
    else e.(start := r.start, size := r.size, next := [Node(Region(e.start, e.size), id)] + e.next)
  }

  /** The number of nodes that takes. */
  function Occupied(e: Entry): (n: nat)
    ensures n <= 1
  {
    if e.start == 0 then 0 else 1
  }

  /** What creating r does to the entry of granule g, with nodes m and n for its ends. */
  function AfterNew(e: Entry, g: int, r: Region, m: nat, n: nat): Entry {
    Spread(e, g, r.start / GRANULE, (r.start + r.size) / GRANULE, r, m, n)
  }

  function Spread(e: Entry, g: int, first: int, last: int, r: Region, m: nat, n: nat): Entry {
    if g == first then Added(e, r, m)
    else if g == last then Added(e, r, n)
    else if first < g < last then e.(start := r.start, size := r.size)
    else e
  }

  lemma NewIsRepresented(e: Entry, g: int, live: set<Region>, r: Region, m: nat, n: nat)
    requires Separate(live + {r}) && r !in live && Represents(e, g, live)
    ensures Represents(AfterNew(e, g, r, m, n), g, live + {r})
  {
    var first, last := r.start / GRANULE, (r.start + r.size) / GRANULE;
    var e' := AfterNew(e, g, r, m, n);
    assert Proper(r);
    if first < g < last {
      InteriorIsEmpty(e, g, live, r);
    }
    if Touches(r, g) {
      assert Listed(e') == [r] + Listed(e);
    } else {
      assert Listed(e') == Listed(e);
    }
  }

  /** A granule that r does not touch is left alone by its creation and its deletion. */
  lemma OutsideIsLeft(e: Entry, g: int, r: Region, m: nat, n: nat, emptySize: Word32)
    requires !Touches(r, g)
    ensures AfterNew(e, g, r, m, n) == e && AfterDelete(e, g, r, emptySize) == e
  {}

  lemma UntouchedPage(r: Region, i: int, j: int)
    requires 0 <= j < PAGE
    requires !(r.start / GRANULE / PAGE <= i <= (r.start + r.size) / GRANULE / PAGE)
    ensures !Touches(r, GranuleOf(i, j))
  {}

  /** No other live region touches a granule that lies wholly inside r. */
  lemma InteriorIsEmpty(e: Entry, g: int, live: set<Region>, r: Region)
    requires Separate(live + {r}) && r !in live && Represents(e, g, live)
    requires r.start / GRANULE < g < (r.start + r.size) / GRANULE
    ensures e.start == 0
  {
    NoOtherTouches(g, live, r);
    HeadIsListed(e);
  }

  lemma HeadIsListed(e: Entry)
    ensures e.start != 0 ==> Region(e.start, e.size) in Listed(e)
  {
    if e.start != 0 { assert Listed(e)[0] == Region(e.start, e.size); }
  }

  lemma NoOtherTouches(g: int, live: set<Region>, r: Region)
    requires Separate(live + {r})
    requires r.start / GRANULE < g < (r.start + r.size) / GRANULE
    ensures forall s :: s in live && s != r ==> !Touches(s, g)
  {
    forall s | s in live && s != r
      ensures !Touches(s, g)
    {
      assert s in live + {r} && r in live + {r};
      assert Disjoint(r, s);
    }
  }

  // ----- looking a region up (__bound_find_region)

  /** The index of the first node of the list that p hits, or its length. */
  function FirstHit(s: seq<Node>, p: Word32): (k: nat)
    ensures k <= |s|
    ensures k < |s| ==> Hits(s[k].region.start, s[k].region.size, p)
    ensures forall i :: 0 <= i < k ==> !Hits(s[i].region.start, s[i].region.size, p)
  {
    if s == [] then 0
    else if Hits(s[0].region.start, s[0].region.size, p) then 0
    else 1 + FirstHit(s[1..], p)
  }

  /** The contents of the head and of node k change places; the nodes stay where they are. */
  function Swapped(e: Entry, k: nat): Entry
    requires k < |e.next|
  {
    var n := e.next[k];
    Entry(n.region.start, n.region.size, e.next[k := Node(Region(e.start, e.size), n.id)], e.isInvalid)
  }

  /** The entry with the node that p hits swapped into the head. */
  function Fronted(e: Entry, p: Word32): Entry {
    var k := FirstHit(e.next, p);
    if Hits(e.start, e.size, p) || k == |e.next| then e else Swapped(e, k)
  }

  /** Moving to the front changes nothing in what the entry represents. */
  lemma FrontedIsRepresented(e: Entry, g: int, live: set<Region>, p: Word32)
    requires Separate(live) && Represents(e, g, live)
    ensures Represents(Fronted(e, p), g, live)
  {
    hide Touches;
    var k := FirstHit(e.next, p);
    if !Hits(e.start, e.size, p) && k < |e.next| {
      var s := Listed(e);
      assert s[k + 1] == e.next[k].region && s[k + 1] in s && Proper(s[k + 1]);
      SwapKeeps(s, 0, k + 1);
      FrontedIsSwap(e, p, k);
    }
  }

  lemma FrontedIsSwap(e: Entry, p: Word32, k: nat)
    requires k < |e.next| && e.start != 0 && e.next[k].region.start != 0
    ensures var s := Listed(e); Listed(Swapped(e, k)) == s[0 := s[k + 1]][k + 1 := s[0]]
  {}

  lemma SwapKeeps(s: seq<Region>, i: nat, j: nat)
    requires i < j < |s|
    ensures var t := s[i := s[j]][j := s[i]];
            (forall r :: r in t <==> r in s) && (NoDuplicates(s) ==> NoDuplicates(t))
  {
    var t := s[i := s[j]][j := s[i]];
    assert t[i] == s[j] && t[j] == s[i];
    forall r | r in s ensures r in t {
      var k :| 0 <= k < |s| && s[k] == r;
      assert t[k] == r || t[i] == r || t[j] == r;
    }
  }

  /** After a lookup the head is the live region that contains p, if there is one. */
  lemma LookupIsExact(e: Entry, live: set<Region>, p: Word32)
    requires Separate(live) && Represents(e, p / GRANULE, live)
    ensures var h := Fronted(e, p);
            forall r :: r in live && Contains(r, p) ==> r == Region(h.start, h.size) && h.start != 0
    ensures var h := Fronted(e, p);
            h.start != 0 && Hits(h.start, h.size, p) ==>
              Region(h.start, h.size) in live && Contains(Region(h.start, h.size), p)
  {
    var h := Fronted(e, p);
    FrontedIsRepresented(e, p / GRANULE, live, p);
    if h.start != 0 && Hits(h.start, h.size, p) {
      var s := Region(h.start, h.size);
      assert Listed(h)[0] == s;
      HitsIsContains(s, p);
    }
    forall r | r in live && Contains(r, p)
      ensures r == Region(h.start, h.size) && h.start != 0
    {
      ContainsTouches(r, p);
      HitsIsContains(r, p);
      assert r in Listed(e);
      LookupFinds(e, p, r);
      var s := Region(h.start, h.size);
      HeadIsListed(h);
      assert s in live;
      HitsIsContains(s, p);
      assert s != r ==> Disjoint(r, s);
    }
  }

  /** Outside the live regions a lookup reads an empty region that spans memory, or an invalid
      one of size zero. The null pointer meets an entry without regions as it is. */
  predicate ReadsInvalid(e: Entry, p: Word32) {
    if p == 0 && e.start == 0 then e.size == INVALID_SIZE
    else e.isInvalid && !(e.start == 0 && e.size == EMPTY_SIZE)
  }

  function SharedEntry(isInvalid: bool): Entry {
    if isInvalid then INVALID_ENTRY else EMPTY_ENTRY
  }

  /** What the head check and the search of the list yield together. */
  function Looked(e: Entry, p: Word32): Entry {
    var h := Fronted(e, p);
    if Hits(h.start, h.size, p) then h else SharedEntry(h.isInvalid)
  }

  lemma LookedIsExact(e: Entry, live: set<Region>, p: Word32)
    requires Separate(live) && Represents(e, p / GRANULE, live)
    ensures var h := Looked(e, p);
            && (forall r :: r in live && Contains(r, p) ==>
                  h.start == r.start && h.size == r.size && h == Fronted(e, p))
            && ((forall r :: r in live ==> !Contains(r, p)) ==>
                  h.start == 0 && h.size == if ReadsInvalid(e, p) then INVALID_SIZE else EMPTY_SIZE)
  {
    LookupIsExact(e, live, p);
    var f := Fronted(e, p);
    forall r | r in live && Contains(r, p)
      ensures Looked(e, p) == f && f.start == r.start && f.size == r.size
    {
      HitsIsContains(r, p);
    }
    FrontedIsRepresented(e, p / GRANULE, live, p);
    HeadIsListed(f);
    HeadIsListed(e);
    if forall r :: r in live ==> !Contains(r, p) {
      MissedEntry(e, p);
    }
  }

  lemma LookedIsOwn(e: Entry, p: Word32)
    ensures Looked(e, p).start != 0 ==> Looked(e, p) == Fronted(e, p)
    ensures Hits(e.start, e.size, p) ==> Looked(e, p) == e == Fronted(e, p)
    ensures e.start == 0 && e.next == [] ==> Fronted(e, p) == e
  {}

  lemma MissedEntry(e: Entry, p: Word32)
    requires (Fronted(e, p).start != 0 ==> !Hits(Fronted(e, p).start, Fronted(e, p).size, p))
    requires e.start == 0 ==> e.next == [] && (e.size == EMPTY_SIZE || e.size == INVALID_SIZE)
    requires e.start != 0 ==> Fronted(e, p).start != 0
    ensures Looked(e, p).start == 0 && Looked(e, p).size == if ReadsInvalid(e, p) then INVALID_SIZE else EMPTY_SIZE
  {}

  lemma LookupFinds(e: Entry, p: Word32, r: Region)
    requires r in Listed(e) && Hits(r.start, r.size, p) && r.start != 0
    requires forall s :: s in Listed(e) ==> s.start != 0
    ensures var h := Fronted(e, p); h.start != 0 && Hits(h.start, h.size, p)
  {
    hide Hits;
    var k := FirstHit(e.next, p);
    var i :| 0 <= i < |Listed(e)| && Listed(e)[i] == r;
    if i > 0 { assert e.next[i - 1].region == r; }
    if !Hits(e.start, e.size, p) {
      assert Listed(e)[k + 1] == e.next[k].region;
    }
  }

  lemma EmptyRepresents(e: Entry, g: int, live: set<Region>)
    requires Represents(e, g, live) && e.start == 0
    ensures Represents(EMPTY_ENTRY, g, live)
  {
    assert Listed(EMPTY_ENTRY) == Listed(e);
  }

  // ----- deleting a region from an entry (delete_region)

  function Deleted(e: Entry, p: Word32, emptySize: Word32): Entry {
    if Hits(e.start, e.size, p) then
      if e.next == [] then e.(start := 0, size := emptySize)
      else e.(start := e.next[0].region.start, size := e.next[0].region.size, next := e.next[1..])
    else
      var k := FirstHit(e.next, p);
      if k == |e.next| then e else e.(next := e.next[..k] + e.next[k + 1..])
  }

  /** What deleting r does to the entry of granule g. */
  function AfterDelete(e: Entry, g: int, r: Region, emptySize: Word32): Entry {
    Clear(e, g, r.start / GRANULE, (r.start + r.size) / GRANULE, r.start, emptySize)
  }

  function Clear(e: Entry, g: int, first: int, last: int, p: Word32, emptySize: Word32): Entry {
    if g == first || g == last then Deleted(e, p, emptySize)
    else if first < g < last then e.(start := 0, size := emptySize)
    else e
  }

  lemma DeleteIsRepresented(e: Entry, g: int, live: set<Region>, r: Region, emptySize: Word32)
    requires Separate(live) && r in live && Represents(e, g, live)
    requires emptySize == EMPTY_SIZE || emptySize == INVALID_SIZE
    ensures Represents(AfterDelete(e, g, r, emptySize), g, live - {r})
  {
    var first, last := r.start / GRANULE, (r.start + r.size) / GRANULE;
    assert Proper(r);
    if g == first || g == last {
      assert Touches(r, g);
      assert r in Listed(e);
      DeletedLosesOne(e, r, emptySize, live);
    } else if first < g < last {
      assert Touches(r, g);
      assert r in Listed(e);
      OnlyInside(e, g, live, r);
    }
  }

  /** An interior granule of r lists r alone. */
  lemma OnlyInside(e: Entry, g: int, live: set<Region>, r: Region)
    requires Separate(live) && r in live && Represents(e, g, live)
    requires r.start / GRANULE < g < (r.start + r.size) / GRANULE
    ensures Listed(e) == [r]
  {
    assert Touches(r, g);
    assert r in Listed(e);
    forall i | 0 <= i < |Listed(e)|
      ensures Listed(e)[i] == r
    {
      assert Listed(e)[i] in Listed(e);
      assert live + {r} == live;
      NoOtherTouches(g, live, r);
    }
    NoTwo(Listed(e));
  }

  lemma NoTwo(s: seq<Region>)
    requires NoDuplicates(s)
    ensures |s| > 1 ==> s[0] != s[1]
  {}

  lemma DeletedLosesOne(e: Entry, r: Region, emptySize: Word32, live: set<Region>)
    requires Separate(live) && r in live && r in Listed(e)
    requires forall s :: s in Listed(e) ==> s in live
    requires NoDuplicates(Listed(e)) && (emptySize == EMPTY_SIZE || emptySize == INVALID_SIZE)
    ensures var e' := Deleted(e, r.start, emptySize);
            && (forall s :: s in Listed(e') <==> s in Listed(e) && s != r)
            && NoDuplicates(Listed(e'))
            && (e'.start == 0 ==> e'.next == [] && e'.size == emptySize)
  {
    hide Hits, Deleted;
    var s := Listed(e);
    var k :| 0 <= k < |s| && s[k] == r;
    OnlyOneHit(s, r, k, live);
    forall i | 0 <= i < |s| ensures s[i].start != 0 { assert s[i] in s && Proper(s[i]); }
    DeletedIsRemoval(e, r.start, emptySize, k);
    RemoveKeeps(s, k);
  }

  /** Deletion takes the one node that is hit out of the list. */
  lemma DeletedIsRemoval(e: Entry, p: Word32, emptySize: Word32, k: nat)
    requires k < |Listed(e)| && (forall i :: 0 <= i < |Listed(e)| ==> Listed(e)[i].start != 0)
    requires forall i :: 0 <= i < |Listed(e)| ==> (Hits(Listed(e)[i].start, Listed(e)[i].size, p) <==> i == k)
    ensures var e' := Deleted(e, p, emptySize);
            && Listed(e') == Listed(e)[..k] + Listed(e)[k + 1..]
            && (e'.start == 0 ==> e'.next == [] && e'.size == emptySize)
  {
    hide Hits, Deleted;
    var s := Listed(e);
    assert s[0] == Region(e.start, e.size);
    if k == 0 {
      assert e.next != [] ==> s[1] == e.next[0].region;
      HeadRemoved(e, p, emptySize);
    } else {
      FirstInTail(e, p, k);
      TailRemoved(e, p, emptySize, k - 1);
    }
  }

  lemma FirstInTail(e: Entry, p: Word32, k: nat)
    requires e.start != 0 && 0 < k < |Listed(e)|
    requires forall i :: 0 <= i < |Listed(e)| ==> (Hits(Listed(e)[i].start, Listed(e)[i].size, p) <==> i == k)
    ensures FirstHit(e.next, p) == k - 1 && !Hits(e.start, e.size, p)
  {
    hide Hits;
    forall i | 0 <= i < |e.next|
      ensures Hits(e.next[i].region.start, e.next[i].region.size, p) <==> i == k - 1
    {
      assert Listed(e)[i + 1] == e.next[i].region;
    }
    FirstHitIs(e.next, p, k - 1);
    assert Listed(e)[0] == Region(e.start, e.size);
  }

  lemma HeadRemoved(e: Entry, p: Word32, emptySize: Word32)
    requires e.start != 0 && Hits(e.start, e.size, p) && (e.next != [] ==> e.next[0].region.start != 0)
    ensures var e' := Deleted(e, p, emptySize);
            && Listed(e') == Listed(e)[..0] + Listed(e)[1..]
            && (e'.start == 0 ==> e'.next == [] && e'.size == emptySize)
  {
    hide Hits, FirstHit;
    if e.next != [] {
      hide Held;
      assert Held(e.next) == [e.next[0].region] + Held(e.next[1..]);
    }
  }

  lemma TailRemoved(e: Entry, p: Word32, emptySize: Word32, m: nat)
    requires e.start != 0 && !Hits(e.start, e.size, p) && m < |e.next| && FirstHit(e.next, p) == m
    ensures var e' := Deleted(e, p, emptySize);
            Listed(e') == Listed(e)[..m + 1] + Listed(e)[m + 2..] && e'.start != 0
  {
    hide Hits, FirstHit;
    SliceAfterHead(Region(e.start, e.size), Held(e.next), m);
    assert Held(e.next[..m] + e.next[m + 1..]) == Held(e.next)[..m] + Held(e.next)[m + 1..];
  }

  lemma FirstHitIs(s: seq<Node>, p: Word32, k: nat)
    requires k <= |s| && (k < |s| ==> Hits(s[k].region.start, s[k].region.size, p))
    requires forall i :: 0 <= i < k ==> !Hits(s[i].region.start, s[i].region.size, p)
    ensures FirstHit(s, p) == k
  {
    hide Hits;
    var m := FirstHit(s, p);
  }

  lemma SliceAfterHead(h: Region, t: seq<Region>, m: nat)
    requires m < |t|
    ensures var s := [h] + t; s[..m + 1] + s[m + 2..] == [h] + (t[..m] + t[m + 1..])
  {}

  lemma OnlyOneHit(s: seq<Region>, r: Region, k: nat, live: set<Region>)
    requires Separate(live) && k < |s| && s[k] == r && NoDuplicates(s)
    requires forall t :: t in s ==> t in live
    ensures forall i :: 0 <= i < |s| ==> (Hits(s[i].start, s[i].size, r.start) <==> i == k)
  {
    forall i | 0 <= i < |s|
      ensures Hits(s[i].start, s[i].size, r.start) <==> i == k
    {
      assert s[i] in s && s[k] in s;
      HitsIsContains(s[i], r.start);
    }
  }

  lemma RemoveKeeps(s: seq<Region>, k: nat)
    requires k < |s| && NoDuplicates(s)
    ensures var t := s[..k] + s[k + 1..];
            NoDuplicates(t) && (forall r :: r in t <==> r in s && r != s[k])
  {
    var t := s[..k] + s[k + 1..];
    forall r | r in s && r != s[k] ensures r in t {
      var i :| 0 <= i < |s| && s[i] == r;
      assert t[if i < k then i else i - 1] == r;
    }
    forall r | r in t ensures r in s && r != s[k] {
      var i :| 0 <= i < |t| && t[i] == r;
      assert s[if i < k then i else i + 1] == r;
    }
  }

  // ----- how many nodes a list holds

  lemma {:induction false} DistinctCount(s: seq<Region>, t: set<Region>)
    requires NoDuplicates(s) && (forall r :: r in t <==> r in s)
    ensures |t| == |s|
  {
    if s == [] {
      assert t == {};
    } else {
      var n := |s| - 1;
      var u := t - {s[n]};
      assert s == s[..n] + [s[n]];
      DistinctCount(s[..n], u);
    }
  }

  /** A granule has one list node less than live regions that touch it, and none when none does. */
  lemma NodeCount(e: Entry, g: int, live: set<Region>)
    requires Represents(e, g, live)
    ensures var touching := set r | r in live && Touches(r, g);
            |e.next| == if touching == {} then 0 else |touching| - 1
  {
    var touching := set r | r in live && Touches(r, g);
    DistinctCount(Listed(e), touching);
  }

  // ----- where an address is listed

  /** The byte offset of the entry within its page, by masking, over the size of an entry. */
  function Slot(addr: Word32): nat {
    BitAnd(Shr32(addr, 4), 0x7ff0) / 0x10
  }

  lemma SlotIsGranule(addr: Word32)
    ensures Slot(addr) == addr / GRANULE % PAGE
    ensures addr / GRANULE == GranuleOf(Shr32(addr, 19), Slot(addr))
    ensures Shr32(addr, 19) == addr / GRANULE / PAGE < PAGES && Slot(addr) < PAGE
  {
    assert Pow2(4) == 0x10 && Pow2(19) == 0x8_0000;
    hide BitAnd, Pow2;
    MaskedBits(addr / 0x10);
    DivDiv(addr, 0x10, 0x10);
    DivDiv(addr, 0x100, 0x800);
  }

  lemma MaskedBits(x: nat)
    ensures BitAnd(x, 0x7ff0) / 0x10 == x / 0x10 % 0x800
  {
    assert Pow2(11) == 0x800;
    hide BitAnd, Pow2;
    var a, b, c := x / 2, x / 2 / 2, x / 2 / 2 / 2;
    MaskEven(x, 0x3ff8);
    MaskEven(a, 0x1ffc);
    MaskEven(b, 0xffe);
    MaskEven(c, 0x7ff);
    assert c / 2 == x / 0x10;
    AndMask(c / 2, 11);
  }

  lemma MaskEven(x: nat, y: nat)
    ensures BitAnd(x, 2 * y) == 2 * BitAnd(x / 2, y)
  {
    AndStep(x, 2 * y);
    hide BitAnd;
    DivModUnique(2 * y, 2, y, 0);
  }

  // ----- the nodes of a list

  function Ids(ns: seq<Node>): set<nat> { set n | n in ns :: n.id }

  ghost predicate IdsDiffer(ns: seq<Node>) {
    forall i, j :: 0 <= i < j < |ns| ==> ns[i].id != ns[j].id
  }

  /** The list of granule g consists of the nodes that belong to g, each once. */
  ghost predicate Owns(e: Entry, g: int, owner: map<nat, int>) {
    && IdsDiffer(e.next)
    && forall id :: id in Ids(e.next) <==> id in owner && owner[id] == g
  }

  /** The owners once a region's first and last granule have been given nodes, if occupied. */
  function NewOwner(owner: map<nat, int>, first: int, last: int, m: nat, n: nat, atFirst: nat,
                    atLast: nat): map<nat, int> {
    var o := if atFirst > 0 then owner[m := first] else owner;
    if last != first && atLast > 0 then o[n := last] else o
  }

  lemma AddedIds(e: Entry, r: Region, id: nat)
    ensures Ids(Added(e, r, id).next) == Ids(e.next) + if e.start == 0 then {} else {id}
    ensures IdsDiffer(e.next) && id !in Ids(e.next) ==> IdsDiffer(Added(e, r, id).next)
  {
    var ns := Added(e, r, id).next;
    if e.start != 0 {
      assert ns[0].id == id && forall i :: 0 < i < |ns| ==> ns[i] == e.next[i - 1] && ns[i] in e.next;
      forall x | x in Ids(e.next) + {id} ensures x in Ids(ns) {
        if x == id { assert ns[0] in ns; }
      }
    }
  }

  lemma NewOwns(e: Entry, g: int, owner: map<nat, int>, r: Region, m: nat, n: nat, atFirst: nat, atLast: nat)
    requires Owns(e, g, owner) && m !in owner && n !in owner && n == m + atFirst
    requires g == r.start / GRANULE ==> atFirst == Occupied(e)
    requires g == (r.start + r.size) / GRANULE ==> atLast == Occupied(e)
    ensures Owns(AfterNew(e, g, r, m, n), g,
                 NewOwner(owner, r.start / GRANULE, (r.start + r.size) / GRANULE, m, n, atFirst, atLast))
  {
    hide Ids, IdsDiffer, Added;
    AddedIds(e, r, m);
    AddedIds(e, r, n);
  }

  lemma FrontedOwns(e: Entry, g: int, owner: map<nat, int>, p: Word32)
    requires Owns(e, g, owner)
    ensures Owns(Fronted(e, p), g, owner)
  {
    var ns := Fronted(e, p).next;
    assert |ns| == |e.next| && forall i :: 0 <= i < |ns| ==> ns[i].id == e.next[i].id;
    forall id ensures id in Ids(ns) <==> id in Ids(e.next) {
      if id in Ids(ns) {
        var i :| 0 <= i < |ns| && ns[i].id == id;
        assert e.next[i] in e.next;
      }
      if id in Ids(e.next) {
        var i :| 0 <= i < |e.next| && e.next[i].id == id;
        assert ns[i] in ns;
      }
    }
  }

  /** The node that deletion frees, if it frees one: the second when the head is hit, for its
      contents move up, and otherwise the first that is hit. */
  function FreedBy(e: Entry, p: Word32): set<nat> {
    if Hits(e.start, e.size, p) then (if e.next == [] then {} else {e.next[0].id})
    else
      var k := FirstHit(e.next, p);
      if k == |e.next| then {} else {e.next[k].id}
  }

  lemma DropIds(ns: seq<Node>, k: nat)
    requires k < |ns| && IdsDiffer(ns)
    ensures var ms := ns[..k] + ns[k + 1..]; IdsDiffer(ms) && Ids(ms) == Ids(ns) - {ns[k].id}
    ensures ns[k].id in Ids(ns)
  {
    var ms := ns[..k] + ns[k + 1..];
    assert ns[k] in ns;
    forall id | id in Ids(ns) - {ns[k].id} ensures id in Ids(ms) {
      var i :| 0 <= i < |ns| && ns[i].id == id;
      assert ms[if i < k then i else i - 1] in ms;
    }
    forall id | id in Ids(ms) ensures id in Ids(ns) - {ns[k].id} {
      var i :| 0 <= i < |ms| && ms[i].id == id;
      assert ns[if i < k then i else i + 1] in ns;
    }
  }

  lemma DeletedIds(e: Entry, p: Word32, emptySize: Word32)
    requires IdsDiffer(e.next)
    ensures var ns := Deleted(e, p, emptySize).next; IdsDiffer(ns) && Ids(ns) == Ids(e.next) - FreedBy(e, p)
    ensures FreedBy(e, p) <= Ids(e.next)
  {
    hide Hits, IdsDiffer, Ids;
    if Hits(e.start, e.size, p) {
      if e.next != [] {
        DropIds(e.next, 0);
        assert e.next[..0] + e.next[1..] == e.next[1..];
      }
    } else if FirstHit(e.next, p) < |e.next| {
      DropIds(e.next, FirstHit(e.next, p));
    }
  }

  lemma DeleteOwns(e: Entry, g: int, owner: map<nat, int>, r: Region, emptySize: Word32, gone: set<nat>)
    requires Owns(e, g, owner)
    requires g == r.start / GRANULE || g == (r.start + r.size) / GRANULE ==> gone * Ids(e.next) == FreedBy(e, r.start)
    requires !(g == r.start / GRANULE || g == (r.start + r.size) / GRANULE) ==> gone * Ids(e.next) == {}
    ensures Owns(AfterDelete(e, g, r, emptySize), g, owner - gone)
  {
    hide Hits, IdsDiffer, Ids, Deleted, FreedBy;
    DeletedIds(e, r.start, emptySize);
    var e' := AfterDelete(e, g, r, emptySize);
    forall id ensures id in Ids(e'.next) <==> id in owner - gone && (owner - gone)[id] == g {
      assert id in gone * Ids(e.next) <==> id in gone && id in Ids(e.next);
    }
  }

  /** Of the nodes that deleting a region frees, each granule has those that its entry frees. */
  lemma GoneAt(e: Entry, g: int, owner: map<nat, int>, ef: Entry, first: int, el: Entry, last: int, p: Word32,
               gone: set<nat>)
    requires Owns(e, g, owner) && Owns(ef, first, owner) && Owns(el, last, owner) && first <= last
    requires (g == first ==> e == ef) && (g == last ==> e == el)
    requires gone == FreedBy(ef, p) + if first < last then FreedBy(el, p) else {}
    ensures g == first || g == last ==> gone * Ids(e.next) == FreedBy(e, p)
    ensures !(g == first || g == last) ==> gone * Ids(e.next) == {}
    ensures gone <= owner.Keys
  {
    hide Ids, IdsDiffer, FreedBy;
    DeletedIds(ef, p, EMPTY_SIZE);
    DeletedIds(el, p, EMPTY_SIZE);
    forall id ensures id in gone * Ids(e.next) <==> (g == first || g == last) && id in FreedBy(e, p) {
      assert id in gone * Ids(e.next) <==> id in gone && id in Ids(e.next);
      assert id in FreedBy(ef, p) ==> id in Ids(ef.next);
      assert id in FreedBy(el, p) ==> id in Ids(el.next);
    }
    forall id | id in gone ensures id in owner {
      assert id in FreedBy(ef, p) ==> id in Ids(ef.next);
      assert id in FreedBy(el, p) ==> id in Ids(el.next);
    }
  }
}
