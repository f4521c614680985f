/** What a list of records says about pages, and the allocator's own invariant. */
module Buddy {
  import opened Words
  import opened FreeLists

  function Pow2(n: nat): (p: nat)
    ensures p >= 1
  {
    if n == 0 then 1 else 2 * Pow2(n - 1)
  }

  /** A zone under the allocator: managed pages, lists of page frame numbers per
      order and migrate type, and the free count kept per order. */
  type Counts = c: seq<nat> | |c| == MAX_ORDER witness seq(MAX_ORDER, _ => 0)
  datatype Zone = Zone(managed: nat, free: Orders, nrFree: Counts)
  datatype Span = Span(start: nat, end: nat)

  predicate Covers(order: nat, pfn: nat, page: nat) {
    pfn <= page < pfn + Pow2(order)
  }

  /** Blocks double in size with their order: one page at order 0, 1024 at order 10. */
  lemma {:induction false} BlockSizes(order: nat, pfn: nat, page: nat)
    ensures Covers(0, pfn, page) <==> page == pfn
    ensures Covers(order + 1, pfn, page) <==> Covers(order, pfn, page) || Covers(order, pfn + Pow2(order), page)
    ensures Pow2(10) == 1024
  {
    assert Pow2(5) == 32 && Pow2(7) == 4 * Pow2(5) && Pow2(9) == 4 * Pow2(7);
  }

  /** How many blocks of a list, an area, a zone contain a page. */
  function ListCover(order: nat, pfns: seq<u64>, page: nat): nat {
    if pfns == [] then 0
    else ListCover(order, pfns[..|pfns| - 1], page) + if Covers(order, pfns[|pfns| - 1], page) then 1 else 0
  }

  function TypesCover(order: nat, area: Area, j: nat, page: nat): nat
    requires j <= |area|
  {
    if j == 0 then 0 else TypesCover(order, area, j - 1, page) + ListCover(order, area[j - 1], page)
  }

  function OrdersCover(free: Orders, o: nat, page: nat): nat
    requires o <= MAX_ORDER
  {
    if o == 0 then 0 else OrdersCover(free, o - 1, page) + TypesCover(o - 1, free[o - 1], |free[o - 1]|, page)
  }

  function TypesLength(area: Area, j: nat): nat
    requires j <= |area|
  {
    if j == 0 then 0 else TypesLength(area, j - 1) + |area[j - 1]|
  }

  predicate NoLists(free: Orders) {
    forall o :: 0 <= o < MAX_ORDER ==> forall j :: 0 <= j < |free[o]| ==> free[o][j] == []
  }

  predicate Aligned(order: nat, pfns: seq<u64>) {
    forall i :: 0 <= i < |pfns| ==> pfns[i] % Pow2(order) == 0
  }

  /** The buddy allocator's invariant for one zone: blocks are aligned, no page is
      in two blocks, blocks lie in the zone's span, the counts match the lists,
      and only zones with managed pages have free blocks. */
  ghost predicate Consistent(z: Zone, span: Span) {
    && (z.managed == 0 ==> NoLists(z.free))
    && (forall o :: 0 <= o < MAX_ORDER ==> z.nrFree[o] == TypesLength(z.free[o], |z.free[o]|))
    && (forall o :: 0 <= o < MAX_ORDER ==> forall j :: 0 <= j < |z.free[o]| ==> Aligned(o, z.free[o][j]))
    && (forall page: nat :: OrdersCover(z.free, MAX_ORDER, page) <= 1)
    && (forall page: nat :: OrdersCover(z.free, MAX_ORDER, page) > 0 ==> span.start <= page < span.end)
  }

  /** Zones do not overlap and lie in 64-bit physical memory. */
  predicate Separate(spans: seq<Span>) {
    && (forall i :: 0 <= i < |spans| ==> spans[i].end * PAGE_SIZE <= 0x1_0000_0000_0000_0000)
    && (forall i, j :: 0 <= i < j < |spans| ==> spans[i].end <= spans[j].start || spans[j].end <= spans[i].start)
  }

  ghost predicate AllConsistent(zones: seq<Zone>, spans: seq<Span>) {
    |zones| == |spans| && forall i :: 0 <= i < |zones| ==> Consistent(zones[i], spans[i])
  }

  /** Every free block of every zone, in the order of the walk, managed or not. */
  function Blocks(zones: seq<Zone>, n: nat): seq<Record>
    requires n <= |zones|
  {
    if n == 0 then [] else Blocks(zones, n - 1) + OfOrders(zones[n - 1].free, MAX_ORDER)
  }

  /** Pages described by a record. */
  predicate RecordCovers(r: Record, page: nat) {
    Covers(r.order, r.address / PAGE_SIZE, page)
  }

  function Cover(records: seq<Record>, page: nat): nat {
    if records == [] then 0
    else Cover(records[..|records| - 1], page) + if RecordCovers(records[|records| - 1], page) then 1 else 0
  }

  function PagesIn(records: seq<Record>): nat {
    if records == [] then 0 else PagesIn(records[..|records| - 1]) + Pow2(records[|records| - 1].order)
  }

  lemma {:induction false} CoverConcat(a: seq<Record>, b: seq<Record>, page: nat)
    ensures Cover(a + b, page) == Cover(a, page) + Cover(b, page)
    decreases |b|
  {
    if b == [] {
      assert a + b == a;
    } else {
      assert (a + b)[..|a + b| - 1] == a + b[..|b| - 1];
      CoverConcat(a, b[..|b| - 1], page);
    }
  }

  lemma {:induction false} PagesConcat(a: seq<Record>, b: seq<Record>)
    ensures PagesIn(a + b) == PagesIn(a) + PagesIn(b)
    decreases |b|
  {
    if b == [] {
      assert a + b == a;
    } else {
      assert (a + b)[..|a + b| - 1] == a + b[..|b| - 1];
      PagesConcat(a, b[..|b| - 1]);
    }
  }

  /** A page covered twice is exactly a page in two records. */
  ghost predicate PairwiseDisjoint(records: seq<Record>) {
    forall i, j, page: nat :: 0 <= i < j < |records| && RecordCovers(records[i], page) ==>
      !RecordCovers(records[j], page)
  }

  lemma {:induction false} CoveredIffMember(records: seq<Record>, page: nat)
    ensures Cover(records, page) > 0 <==> exists i :: 0 <= i < |records| && RecordCovers(records[i], page)
  {
    if records != [] {
      var front := records[..|records| - 1];
      CoveredIffMember(front, page);
      if exists i :: 0 <= i < |front| && RecordCovers(front[i], page) {
        var i :| 0 <= i < |front| && RecordCovers(front[i], page);
        assert RecordCovers(records[i], page);
      }
    }
  }

  lemma {:induction false} DisjointFromCover(records: seq<Record>)
    requires forall page: nat :: Cover(records, page) <= 1
    ensures PairwiseDisjoint(records)
  {
    if records != [] {
      var front := records[..|records| - 1];
      forall page: nat
        ensures Cover(front, page) <= 1
        ensures RecordCovers(records[|front|], page) ==> Cover(front, page) == 0
      {
        assert Cover(records, page) <= 1;
      }
      DisjointFromCover(front);
      forall i, j, page: nat | 0 <= i < j < |records| && RecordCovers(records[i], page)
        ensures !RecordCovers(records[j], page)
      {
        assert front[i] == records[i];
        CoveredIffMember(front, page);
      }
    }
  }

  /** Addresses do not wrap: every listed block is within 64-bit memory. */
  predicate InRange(pfns: seq<u64>) {
    forall i :: 0 <= i < |pfns| ==> pfns[i] * PAGE_SIZE < 0x1_0000_0000_0000_0000
  }

  lemma {:induction false} ListCovered(order: nat, pfns: seq<u64>, i: nat)
    requires i < |pfns|
    ensures ListCover(order, pfns, pfns[i]) > 0
  {
    if i < |pfns| - 1 {
      ListCovered(order, pfns[..|pfns| - 1], i);
    }
  }

  lemma {:induction false} TypesCovered(order: nat, area: Area, n: nat, j: nat, page: nat)
    requires j < n <= |area|
    ensures TypesCover(order, area, n, page) >= ListCover(order, area[j], page)
  {
    if j < n - 1 {
      TypesCovered(order, area, n - 1, j, page);
    }
  }

  lemma {:induction false} OrdersCovered(free: Orders, n: nat, o: nat, page: nat)
    requires o < n <= MAX_ORDER
    ensures OrdersCover(free, n, page) >= TypesCover(o, free[o], |free[o]|, page)
  {
    if o < n - 1 {
      OrdersCovered(free, n - 1, o, page);
    }
  }

  lemma ListInRange(z: Zone, span: Span, o: nat, j: nat)
    requires Consistent(z, span) && span.end * PAGE_SIZE <= 0x1_0000_0000_0000_0000
    requires o < MAX_ORDER && j < |z.free[o]|
    ensures InRange(z.free[o][j])
  {
    var pfns := z.free[o][j];
    forall i | 0 <= i < |pfns|
      ensures pfns[i] < span.end
    {
      ListCovered(o, pfns, i);
      TypesCovered(o, z.free[o], |z.free[o]|, j, pfns[i]);
      OrdersCovered(z.free, MAX_ORDER, o, pfns[i]);
      assert OrdersCover(z.free, MAX_ORDER, pfns[i]) > 0;
    }
  }

  lemma {:induction false} OfListCover(order: u64, pfns: seq<u64>, page: nat)
    requires InRange(pfns)
    ensures Cover(OfList(order, pfns), page) == ListCover(order, pfns, page)
    decreases |pfns|
  {
    if pfns != [] {
      var n := |pfns| - 1;
      OfListCover(order, pfns[..n], page);
      assert OfList(order, pfns)[..n] == OfList(order, pfns[..n]);
      PfnPhysExact(pfns[n]);
    }
  }

  lemma {:induction false} OfListPages(order: u64, pfns: seq<u64>)
    ensures PagesIn(OfList(order, pfns)) == |pfns| * Pow2(order)
    decreases |pfns|
  {
    if pfns != [] {
      var n := |pfns| - 1;
      OfListPages(order, pfns[..n]);
      assert OfList(order, pfns)[..n] == OfList(order, pfns[..n]);
      Distribute(n, 1, Pow2(order));
    }
  }

  lemma Distribute(a: nat, b: nat, c: nat)
    ensures (a + b) * c == a * c + b * c
  {
  }

  lemma {:induction false} OfTypesCover(order: u64, area: Area, j: nat, page: nat)
    requires j <= |area| && forall t :: 0 <= t < |area| ==> InRange(area[t])
    ensures Cover(OfTypes(order, area, j), page) == TypesCover(order, area, j, page)
  {
    if j > 0 {
      OfTypesCover(order, area, j - 1, page);
      OfListCover(order, area[j - 1], page);
      CoverConcat(OfTypes(order, area, j - 1), OfList(order, area[j - 1]), page);
    }
  }

  lemma {:induction false} OfTypesPages(order: u64, area: Area, j: nat)
    requires j <= |area|
    ensures PagesIn(OfTypes(order, area, j)) == TypesLength(area, j) * Pow2(order)
  {
    if j > 0 {
      OfTypesPages(order, area, j - 1);
      OfListPages(order, area[j - 1]);
      PagesConcat(OfTypes(order, area, j - 1), OfList(order, area[j - 1]));
      Distribute(TypesLength(area, j - 1), |area[j - 1]|, Pow2(order));
    }
  }

  /** Pages the free counts of a zone's first `o` orders promise. */
  function CountedPages(nrFree: Counts, o: nat): nat
    requires o <= MAX_ORDER
  {
    if o == 0 then 0 else CountedPages(nrFree, o - 1) + nrFree[o - 1] * Pow2(o - 1)
  }

  ghost predicate ZoneInRange(free: Orders) {
    forall o :: 0 <= o < |free| ==> forall j :: 0 <= j < |free[o]| ==> InRange(free[o][j])
  }

  lemma ConsistentInRange(z: Zone, span: Span)
    requires Consistent(z, span) && span.end * PAGE_SIZE <= 0x1_0000_0000_0000_0000
    ensures ZoneInRange(z.free)
  {
    forall o, j | 0 <= o < MAX_ORDER && 0 <= j < |z.free[o]|
      ensures InRange(z.free[o][j])
    {
      ListInRange(z, span, o, j);
    }
  }

  lemma OneMoreOrderCover(free: Orders, o: nat, page: nat)
    requires 0 < o <= MAX_ORDER && ZoneInRange(free)
    ensures Cover(OfOrders(free, o), page) ==
      Cover(OfOrders(free, o - 1), page) + TypesCover(o - 1, free[o - 1], |free[o - 1]|, page)
  {
    var area := free[o - 1];
    assert forall t :: 0 <= t < |area| ==> InRange(area[t]);
    hide Cover, TypesCover, InRange, ZoneInRange, OfTypes;
    OfTypesCover(o - 1, area, |area|, page);
    CoverConcat(OfOrders(free, o - 1), OfArea(o - 1, area), page);
  }

  lemma {:induction false} OfOrdersCover(free: Orders, o: nat, page: nat)
    requires o <= MAX_ORDER && ZoneInRange(free)
    ensures Cover(OfOrders(free, o), page) == OrdersCover(free, o, page)
  {
    if o > 0 {
      OfOrdersCover(free, o - 1, page);
      OneMoreOrderCover(free, o, page);
    }
  }

  lemma {:induction false} OfOrdersPages(z: Zone, span: Span, o: nat)
    requires Consistent(z, span) && o <= MAX_ORDER
    ensures PagesIn(OfOrders(z.free, o)) == CountedPages(z.nrFree, o)
  {
    if o > 0 {
      hide PagesIn, OfTypes, Pow2, OrdersCover;
      var area := z.free[o - 1];
      OfOrdersPages(z, span, o - 1);
      OfTypesPages(o - 1, area, |area|);
      PagesConcat(OfOrders(z.free, o - 1), OfArea(o - 1, area));
    }
  }

  function AllCounted(zones: seq<Zone>, n: nat): nat
    requires n <= |zones|
  {
    if n == 0 then 0 else AllCounted(zones, n - 1) + CountedPages(zones[n - 1].nrFree, MAX_ORDER)
  }

  /** A page is free when some list of some zone has a block containing it. */
  ghost predicate IsFree(zones: seq<Zone>, n: nat, page: nat)
    requires n <= |zones|
  {
    exists i :: 0 <= i < n && OrdersCover(zones[i].free, MAX_ORDER, page) > 0
  }

  lemma {:induction false} CoveredInList(order: nat, pfns: seq<u64>, page: nat)
    ensures ListCover(order, pfns, page) > 0 <==> exists i :: 0 <= i < |pfns| && Covers(order, pfns[i], page)
  {
    hide Covers;
    if pfns != [] {
      var n := |pfns| - 1;
      CoveredInList(order, pfns[..n], page);
      if ListCover(order, pfns[..n], page) > 0 {
        var i :| 0 <= i < n && Covers(order, pfns[..n][i], page);
        assert Covers(order, pfns[i], page);
      }
    }
  }

  ghost predicate InSomeList(order: nat, area: Area, j: nat, page: nat)
    requires j <= |area|
  {
    exists t :: 0 <= t < j && ListCover(order, area[t], page) > 0
  }

  lemma {:induction false} CoveredInTypes(order: nat, area: Area, j: nat, page: nat)
    requires j <= |area|
    ensures TypesCover(order, area, j, page) > 0 <==> InSomeList(order, area, j, page)
  {
    hide ListCover;
    if j > 0 {
      CoveredInTypes(order, area, j - 1, page);
      assert InSomeList(order, area, j, page) <==>
        InSomeList(order, area, j - 1, page) || ListCover(order, area[j - 1], page) > 0;
    }
  }

  ghost predicate InSomeOrder(free: Orders, o: nat, page: nat)
    requires o <= MAX_ORDER
  {
    exists t :: 0 <= t < o && TypesCover(t, free[t], |free[t]|, page) > 0
  }

  lemma {:induction false} CoveredInOrders(free: Orders, o: nat, page: nat)
    requires o <= MAX_ORDER
    ensures OrdersCover(free, o, page) > 0 <==> InSomeOrder(free, o, page)
  {
    hide TypesCover;
    if o > 0 {
      CoveredInOrders(free, o - 1, page);
      assert InSomeOrder(free, o, page) <==>
        InSomeOrder(free, o - 1, page) || TypesCover(o - 1, free[o - 1], |free[o - 1]|, page) > 0;
    }
  }

  lemma CoveredInOrder(order: nat, area: Area, page: nat)
    ensures TypesCover(order, area, |area|, page) > 0 <==>
      exists j, i :: 0 <= j < |area| && 0 <= i < |area[j]| && Covers(order, area[j][i], page)
  {
    hide ListCover, TypesCover, Covers;
    CoveredInTypes(order, area, |area|, page);
    forall j | 0 <= j < |area|
      ensures ListCover(order, area[j], page) > 0 <==> exists i :: 0 <= i < |area[j]| && Covers(order, area[j][i], page)
    {
      CoveredInList(order, area[j], page);
    }
  }

  lemma CoveredInZone(free: Orders, page: nat)
    ensures OrdersCover(free, MAX_ORDER, page) > 0 <==> exists o, j, i ::
      0 <= o < MAX_ORDER && 0 <= j < |free[o]| && 0 <= i < |free[o][j]| && Covers(o, free[o][j][i], page)
  {
    hide OrdersCover, TypesCover, Covers;
    CoveredInOrders(free, MAX_ORDER, page);
    forall o | 0 <= o < MAX_ORDER
      ensures TypesCover(o, free[o], |free[o]|, page) > 0 <==>
        exists j, i :: 0 <= j < |free[o]| && 0 <= i < |free[o][j]| && Covers(o, free[o][j][i], page)
    {
      CoveredInOrder(o, free[o], page);
    }
  }

  /** A page is free exactly when it lies in a block of order 0 to 10 of some list. */
  lemma FreeMeansInABlock(zones: seq<Zone>, page: nat)
    ensures IsFree(zones, |zones|, page) <==> exists z, o, j, i ::
      && 0 <= z < |zones| && 0 <= o <= 10 && 0 <= j < |zones[z].free[o]| && 0 <= i < |zones[z].free[o][j]|
      && zones[z].free[o][j][i] <= page < zones[z].free[o][j][i] + Pow2(o)
  {
    hide OrdersCover, Pow2;
    if IsFree(zones, |zones|, page) {
      var z :| 0 <= z < |zones| && OrdersCover(zones[z].free, MAX_ORDER, page) > 0;
      CoveredInZone(zones[z].free, page);
      var o, j, i :| 0 <= o < MAX_ORDER && 0 <= j < |zones[z].free[o]| && 0 <= i < |zones[z].free[o][j]| &&
                     Covers(o, zones[z].free[o][j][i], page);
      assert zones[z].free[o][j][i] <= page < zones[z].free[o][j][i] + Pow2(o);
    }
    forall z, o, j, i |
      && 0 <= z < |zones| && 0 <= o <= 10 && 0 <= j < |zones[z].free[o]| && 0 <= i < |zones[z].free[o][j]|
      && zones[z].free[o][j][i] <= page < zones[z].free[o][j][i] + Pow2(o)
      ensures IsFree(zones, |zones|, page)
    {
      CoveredInZone(zones[z].free, page);
      assert Covers(o, zones[z].free[o][j][i], page);
    }
  }

  /** The invariant can hold of a zone with free pages: one block of order 3. */
  lemma ConsistentExample() returns (z: Zone, span: Span)
    ensures Consistent(z, span) && z.managed == 8 && z.free[3] == [[8]] && IsFree([z], 1, 9) && !IsFree([z], 1, 16)
  {
    z := Zone(8, seq(MAX_ORDER, o => if o == 3 then [[8]] else []), seq(MAX_ORDER, o => if o == 3 then 1 else 0));
    span := Span(8, 16);
    assert Pow2(3) == 8;
    forall page: nat
      ensures OrdersCover(z.free, MAX_ORDER, page) == if 8 <= page < 16 then 1 else 0
    {
      OneBlock(z.free, MAX_ORDER, page);
    }
    forall o | 0 <= o < MAX_ORDER
      ensures z.nrFree[o] == TypesLength(z.free[o], |z.free[o]|)
    {
      assert TypesLength([[8]], 1) == TypesLength([[8]], 0) + 1;
    }
    assert OrdersCover([z][0].free, MAX_ORDER, 9) > 0 && OrdersCover([z][0].free, MAX_ORDER, 16) == 0;
    assert [z][0] == z && Aligned(3, [8]);
  }

  lemma {:induction false} OneBlock(free: Orders, o: nat, page: nat)
    requires o <= MAX_ORDER && forall t :: 0 <= t < MAX_ORDER ==> free[t] == if t == 3 then [[8]] else []
    ensures OrdersCover(free, o, page) == if o > 3 && 8 <= page < 16 then 1 else 0
  {
    assert Pow2(3) == 8;
    if o > 0 {
      OneBlock(free, o - 1, page);
      if o - 1 == 3 {
        assert TypesCover(3, [[8]], 1, page) == TypesCover(3, [[8]], 0, page) + ListCover(3, [8], page);
        assert [8][..0] == [];
        assert ListCover(3, [8], page) == ListCover(3, [8][..0], page) + if Covers(3, 8, page) then 1 else 0;
      }
    }
  }

  lemma OnlyOneZoneCovers(zones: seq<Zone>, spans: seq<Span>, i: nat, j: nat, page: nat)
    requires AllConsistent(zones, spans) && Separate(spans) && i < j < |zones|
    requires OrdersCover(zones[i].free, MAX_ORDER, page) > 0
    ensures OrdersCover(zones[j].free, MAX_ORDER, page) == 0
  {
    assert Consistent(zones[i], spans[i]) && Consistent(zones[j], spans[j]);
    assert spans[i].end <= spans[j].start || spans[j].end <= spans[i].start;
  }

  lemma ZoneCover(z: Zone, span: Span, page: nat)
    requires Consistent(z, span) && span.end * PAGE_SIZE <= 0x1_0000_0000_0000_0000
    ensures Cover(OfOrders(z.free, MAX_ORDER), page) == OrdersCover(z.free, MAX_ORDER, page) <= 1
  {
    ConsistentInRange(z, span);
    OfOrdersCover(z.free, MAX_ORDER, page);
  }

  lemma OneMoreZoneCover(zones: seq<Zone>, spans: seq<Span>, n: nat, page: nat)
    requires AllConsistent(zones, spans) && Separate(spans) && 0 < n <= |zones|
    requires Cover(Blocks(zones, n - 1), page) <= 1
    requires Cover(Blocks(zones, n - 1), page) > 0 <==> IsFree(zones, n - 1, page)
    ensures Cover(Blocks(zones, n), page) <= 1
    ensures Cover(Blocks(zones, n), page) > 0 <==> IsFree(zones, n, page)
  {
    var m := n - 1;
    ZoneCover(zones[m], spans[m], page);
    CoverConcat(Blocks(zones, m), OfOrders(zones[m].free, MAX_ORDER), page);
    if IsFree(zones, m, page) {
      var i :| 0 <= i < m && OrdersCover(zones[i].free, MAX_ORDER, page) > 0;
      OnlyOneZoneCovers(zones, spans, i, m, page);
    }
    FreeInOneMore(zones, n, page);
  }

  lemma NothingBefore(zones: seq<Zone>, page: nat)
    ensures Cover(Blocks(zones, 0), page) == 0 && !IsFree(zones, 0, page)
  {
  }

  lemma {:induction false} BlocksCover(zones: seq<Zone>, spans: seq<Span>, n: nat, page: nat)
    requires AllConsistent(zones, spans) && Separate(spans) && n <= |zones|
    ensures Cover(Blocks(zones, n), page) <= 1
    ensures Cover(Blocks(zones, n), page) > 0 <==> IsFree(zones, n, page)
    decreases n
  {
    hide IsFree, Cover, Blocks, Consistent, Separate;
    if n == 0 {
      NothingBefore(zones, page);
    } else {
      BlocksCover(zones, spans, n - 1, page);
      OneMoreZoneCover(zones, spans, n, page);
    }
  }

  lemma FreeInOneMore(zones: seq<Zone>, n: nat, page: nat)
    requires 0 < n <= |zones|
    ensures IsFree(zones, n, page) <==>
      IsFree(zones, n - 1, page) || OrdersCover(zones[n - 1].free, MAX_ORDER, page) > 0
  {
  }

  lemma {:induction false} BlocksPages(zones: seq<Zone>, spans: seq<Span>, n: nat)
    requires AllConsistent(zones, spans) && n <= |zones|
    ensures PagesIn(Blocks(zones, n)) == AllCounted(zones, n)
  {
    if n > 0 {
      BlocksPages(zones, spans, n - 1);
      OfOrdersPages(zones[n - 1], spans[n - 1], MAX_ORDER);
      PagesConcat(Blocks(zones, n - 1), OfOrders(zones[n - 1].free, MAX_ORDER));
    }
  }

  /** Conservation: under the allocator's invariant the records describe pairwise
      disjoint ranges whose union is exactly the free pages and whose total size
      is the sum of the free counts times their block sizes. */
  lemma RecordsAreTheFreePages(zones: seq<Zone>, spans: seq<Span>)
    requires AllConsistent(zones, spans) && Separate(spans)
    ensures var records := Blocks(zones, |zones|);
      && PairwiseDisjoint(records)
      && (forall page: nat :: IsFree(zones, |zones|, page) <==>
            exists i :: 0 <= i < |records| && RecordCovers(records[i], page))
      && PagesIn(records) == AllCounted(zones, |zones|)
  {
    var records := Blocks(zones, |zones|);
    forall page: nat
      ensures Cover(records, page) <= 1
      ensures IsFree(zones, |zones|, page) <==> exists i :: 0 <= i < |records| && RecordCovers(records[i], page)
    {
      BlocksCover(zones, spans, |zones|, page);
      CoveredIffMember(records, page);
    }
    DisjointFromCover(records);
    BlocksPages(zones, spans, |zones|);
  }

  ghost predicate AlignedRecords(records: seq<Record>) {
    forall i :: 0 <= i < |records| ==>
      records[i].address % PAGE_SIZE == 0 && records[i].address / PAGE_SIZE % Pow2(records[i].order) == 0
  }

  lemma ListAligned(order: u64, pfns: seq<u64>)
    requires InRange(pfns) && Aligned(order, pfns)
    ensures AlignedRecords(OfList(order, pfns))
  {
    hide PfnPhys, Pow2;
    forall i | 0 <= i < |pfns|
      ensures OfList(order, pfns)[i] == Record(PfnPhys(pfns[i]), order)
      ensures PfnPhys(pfns[i]) % PAGE_SIZE == 0 && PfnPhys(pfns[i]) / PAGE_SIZE % Pow2(order) == 0
    {
      PfnPhysExact(pfns[i]);
    }
  }

  lemma {:induction false} TypesAligned(order: u64, area: Area, j: nat)
    requires j <= |area| && forall t :: 0 <= t < |area| ==> InRange(area[t]) && Aligned(order, area[t])
    ensures AlignedRecords(OfTypes(order, area, j))
  {
    if j > 0 {
      TypesAligned(order, area, j - 1);
      ListAligned(order, area[j - 1]);
    }
  }

  lemma {:induction false} OrdersAligned(z: Zone, span: Span, o: nat)
    requires Consistent(z, span) && ZoneInRange(z.free) && o <= MAX_ORDER
    ensures AlignedRecords(OfOrders(z.free, o))
  {
    if o > 0 {
      OrdersAligned(z, span, o - 1);
      TypesAligned(o - 1, z.free[o - 1], |z.free[o - 1]|);
    }
  }

  /** Every reported range starts at a page frame number that is a multiple of the
      block size. */
  lemma {:induction false} RecordsAreAligned(zones: seq<Zone>, spans: seq<Span>, n: nat)
    requires AllConsistent(zones, spans) && Separate(spans) && n <= |zones|
    ensures AlignedRecords(Blocks(zones, n))
  {
    if n > 0 {
      RecordsAreAligned(zones, spans, n - 1);
      ConsistentInRange(zones[n - 1], spans[n - 1]);
      OrdersAligned(zones[n - 1], spans[n - 1], MAX_ORDER);
    }
  }

  function ListsOf(zones: seq<Zone>): (l: seq<ZoneLists>)
    ensures |l| == |zones|
  {
    seq(|zones|, i requires 0 <= i < |zones| => ZoneLists(zones[i].managed, zones[i].free))
  }

  lemma {:induction false} EmptyTypes(order: u64, area: Area, j: nat)
    requires j <= |area| && forall t :: 0 <= t < |area| ==> area[t] == []
    ensures OfTypes(order, area, j) == []
  {
    if j > 0 {
      EmptyTypes(order, area, j - 1);
    }
  }

  lemma {:induction false} EmptyOrders(free: Orders, o: nat)
    requires o <= MAX_ORDER && NoLists(free)
    ensures OfOrders(free, o) == []
  {
    if o > 0 {
      EmptyOrders(free, o - 1);
      EmptyTypes(o - 1, free[o - 1], |free[o - 1]|);
    }
  }

  lemma UnmanagedIsEmpty(z: Zone, span: Span)
    requires Consistent(z, span) && z.managed == 0
    ensures OfOrders(z.free, MAX_ORDER) == []
  {
    EmptyOrders(z.free, MAX_ORDER);
  }

  /** Skipping zones without managed pages loses no free block. */
  lemma {:induction false} SkippingLosesNothing(zones: seq<Zone>, spans: seq<Span>, n: nat)
    requires AllConsistent(zones, spans) && n <= |zones|
    ensures OfZones(ListsOf(zones), n) == Blocks(zones, n)
  {
    hide Consistent, OfOrders;
    if n > 0 {
      SkippingLosesNothing(zones, spans, n - 1);
      if zones[n - 1].managed == 0 {
        UnmanagedIsEmpty(zones[n - 1], spans[n - 1]);
      }
    }
  }
}
