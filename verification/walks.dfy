/** The walk as the code has it against the walk as it is meant
    (shared/driver/driver.c, lines 224-241). */
module Walks {
  import opened Words
  import opened FreeLists
  import opened Snapshot
  import Buddy

  function RecordOf(mem: Memory, order: u64, node: int): Record {
    Record(PfnPhys(mem.pfn(node)), order)
  }

  /** On every ring, the code's records are the meant ones with the first dropped
      and one for the sentinel appended: same number, shifted by one. */
  lemma CodeShiftsByOne(mem: Memory, head: int, nodes: seq<int>, order: u64, written: seq<u64>, meant: seq<u64>)
    requires Shows(mem, AsWritten, head, nodes, written) && Shows(mem, AsMeant, head, nodes, meant)
    ensures OfList(order, written) ==
      if nodes == [] then [] else OfList(order, meant)[1..] + [RecordOf(mem, order, head)]
    ensures |OfList(order, written)| == |OfList(order, meant)| == |nodes|
  {
    if nodes != [] {
      var w, m := OfList(order, written), OfList(order, meant);
      assert forall i :: 0 <= i < |nodes| - 1 ==> w[i] == m[i + 1];
    }
  }

  // All lists the handler visits, as one sequence.

  datatype Listed = Listed(order: u64, head: int, nodes: seq<int>)

  function OfHeads(order: u64, heads: seq<int>, lists: seq<seq<int>>): seq<Listed> {
    seq(|heads|, j requires 0 <= j < |heads| => Listed(order, heads[j], if j < |lists| then lists[j] else []))
  }

  function VisitedOrders(z: Content, o: nat): seq<Listed>
    requires o <= MAX_ORDER
  {
    if o == 0 then []
    else
      VisitedOrders(z, o - 1) +
      if o <= |z.heads| && o <= |z.lists| then OfHeads(o - 1, z.heads[o - 1], z.lists[o - 1]) else []
  }

  function VisitedZone(z: Content): seq<Listed> {
    if z.managed == 0 then [] else VisitedOrders(z, MAX_ORDER)
  }

  function AllVisited(zones: seq<Content>): seq<Listed> {
    if zones == [] then [] else AllVisited(zones[..|zones| - 1]) + VisitedZone(zones[|zones| - 1])
  }

  /** The records a walk makes of one list, and of all. */
  function ReportOf(mem: Memory, walk: Walk, l: Listed): seq<Record> {
    seq(|l.nodes|, i requires 0 <= i < |l.nodes| => RecordOf(mem, l.order, Visited(walk, l.head, l.nodes)[i]))
  }

  function Report(mem: Memory, walk: Walk, ls: seq<Listed>): seq<Record> {
    if ls == [] then [] else Report(mem, walk, ls[..|ls| - 1]) + ReportOf(mem, walk, ls[|ls| - 1])
  }

  lemma {:induction false} ReportConcat(mem: Memory, walk: Walk, a: seq<Listed>, b: seq<Listed>)
    ensures Report(mem, walk, a + b) == Report(mem, walk, a) + Report(mem, walk, b)
    decreases |b|
  {
    if b == [] {
      assert a + b == a;
    } else {
      hide ReportOf;
      var n, c := |b| - 1, a + b;
      ReportConcat(mem, walk, a, b[..n]);
      assert c[..|c| - 1] == a + b[..n] && c[|c| - 1] == b[n];
    }
  }

  lemma {:induction false} AreaIsReport(mem: Memory, walk: Walk, heads: seq<int>, lists: seq<seq<int>>, order: u64,
                                        area: Area, j: nat)
    requires AreaShows(mem, walk, heads, lists, area) && j <= |heads|
    ensures OfTypes(order, area, j) == Report(mem, walk, OfHeads(order, heads, lists)[..j])
  {
    if j > 0 {
      var ls := OfHeads(order, heads, lists);
      AreaIsReport(mem, walk, heads, lists, order, area, j - 1);
      assert ls[..j][..j - 1] == ls[..j - 1];
      assert OfList(order, area[j - 1]) == ReportOf(mem, walk, ls[j - 1]);
    }
  }

  lemma {:induction false} OrdersAreReport(mem: Memory, walk: Walk, z: Content, seen: ZoneLists, o: nat)
    requires ZoneShows(mem, walk, z, seen) && o <= MAX_ORDER
    ensures OfOrders(seen.free, o) == Report(mem, walk, VisitedOrders(z, o))
  {
    if o > 0 {
      var ls := OfHeads(o - 1, z.heads[o - 1], z.lists[o - 1]);
      OrdersAreReport(mem, walk, z, seen, o - 1);
      AreaIsReport(mem, walk, z.heads[o - 1], z.lists[o - 1], o - 1, seen.free[o - 1], |ls|);
      assert ls[..|ls|] == ls;
      ReportConcat(mem, walk, VisitedOrders(z, o - 1), ls);
    }
  }

  ghost predicate WalkSees(mem: Memory, walk: Walk, zones: seq<Content>, seen: seq<ZoneLists>) {
    && |zones| == |seen|
    && forall i :: 0 <= i < |zones| ==> ZoneShows(mem, walk, zones[i], seen[i])
  }

  lemma {:induction false} ZonesOfPrefix(zones: seq<ZoneLists>, n: nat, k: nat)
    requires k <= n <= |zones|
    ensures OfZones(zones[..n], k) == OfZones(zones, k)
  {
    if k > 0 {
      ZonesOfPrefix(zones, n, k - 1);
    }
  }

  /** Flattening is the report on all visited lists, whichever the walk. */
  lemma {:induction false} FlattenIsReport(mem: Memory, walk: Walk, zones: seq<Content>, seen: seq<ZoneLists>)
    requires WalkSees(mem, walk, zones, seen)
    ensures Flatten(seen) == Report(mem, walk, AllVisited(zones))
    decreases |zones|
  {
    if zones != [] {
      var n := |zones| - 1;
      FlattenIsReport(mem, walk, zones[..n], seen[..n]);
      ZonesOfPrefix(seen, n, n);
      ZoneIsReport(mem, walk, zones[n], seen[n]);
      ReportConcat(mem, walk, AllVisited(zones[..n]), VisitedZone(zones[n]));
    }
  }

  lemma ZoneIsReport(mem: Memory, walk: Walk, z: Content, seen: ZoneLists)
    requires ZoneShows(mem, walk, z, seen)
    ensures OfZone(seen) == Report(mem, walk, VisitedZone(z))
  {
    OrdersAreReport(mem, walk, z, seen, MAX_ORDER);
  }

  // What the code leaves out and what it makes up.

  /** The record of a list's first page, and that of its sentinel, if the list is
      not empty. */
  function FirstOf(mem: Memory, l: Listed): multiset<Record> {
    if l.nodes == [] then multiset{} else multiset{RecordOf(mem, l.order, l.nodes[0])}
  }

  function SentinelOf(mem: Memory, l: Listed): multiset<Record> {
    if l.nodes == [] then multiset{} else multiset{RecordOf(mem, l.order, l.head)}
  }

  function Firsts(mem: Memory, ls: seq<Listed>): multiset<Record> {
    if ls == [] then multiset{} else Firsts(mem, ls[..|ls| - 1]) + FirstOf(mem, ls[|ls| - 1])
  }

  function Sentinels(mem: Memory, ls: seq<Listed>): multiset<Record> {
    if ls == [] then multiset{} else Sentinels(mem, ls[..|ls| - 1]) + SentinelOf(mem, ls[|ls| - 1])
  }

  lemma BalanceOfList(mem: Memory, l: Listed)
    ensures multiset(ReportOf(mem, AsWritten, l)) + FirstOf(mem, l) ==
            multiset(ReportOf(mem, AsMeant, l)) + SentinelOf(mem, l)
  {
    if l.nodes != [] {
      var w, m := ReportOf(mem, AsWritten, l), ReportOf(mem, AsMeant, l);
      assert forall i :: 0 <= i < |w| - 1 ==> w[i] == m[i + 1];
      assert w[|w| - 1] == RecordOf(mem, l.order, l.head);
      assert w == m[1..] + [RecordOf(mem, l.order, l.head)];
      assert m == [RecordOf(mem, l.order, l.nodes[0])] + m[1..];
    }
  }

  lemma Sum<T>(a: multiset<T>, b: multiset<T>, c: multiset<T>, d: multiset<T>,
               e: multiset<T>, f: multiset<T>, g: multiset<T>, h: multiset<T>)
    requires a + b == c + d && e + f == g + h
    ensures (a + e) + (b + f) == (c + g) + (d + h)
  {
    assert (a + e) + (b + f) == (a + b) + (e + f);
    assert (c + g) + (d + h) == (c + d) + (g + h);
  }

  /** What the code reports, plus the first page of each visited list, is what is
      meant, plus the sentinel of each. */
  lemma {:induction false} Balance(mem: Memory, ls: seq<Listed>)
    ensures multiset(Report(mem, AsWritten, ls)) + Firsts(mem, ls) ==
            multiset(Report(mem, AsMeant, ls)) + Sentinels(mem, ls)
  {
    if ls != [] {
      var n := |ls| - 1;
      Balance(mem, ls[..n]);
      BalanceOfList(mem, ls[n]);
      Sum(multiset(Report(mem, AsWritten, ls[..n])), Firsts(mem, ls[..n]), multiset(Report(mem, AsMeant, ls[..n])),
          Sentinels(mem, ls[..n]), multiset(ReportOf(mem, AsWritten, ls[n])), FirstOf(mem, ls[n]),
          multiset(ReportOf(mem, AsMeant, ls[n])), SentinelOf(mem, ls[n]));
    }
  }

  /** The whole snapshot, whatever the order of its records: the code reports the
      right ones exactly when the first pages and the sentinels of the visited
      lists have the same records, and as many in any case. */
  lemma {:induction false} CodeIsRightIff(mem: Memory, zones: seq<Content>, written: seq<ZoneLists>,
                                        meant: seq<ZoneLists>)
    requires WalkSees(mem, AsWritten, zones, written) && WalkSees(mem, AsMeant, zones, meant)
    ensures var ls := AllVisited(zones);
      && multiset(Flatten(written)) + Firsts(mem, ls) == multiset(Flatten(meant)) + Sentinels(mem, ls)
      && (multiset(Flatten(written)) == multiset(Flatten(meant)) <==> Firsts(mem, ls) == Sentinels(mem, ls))
    ensures |Flatten(written)| == |Flatten(meant)|
  {
    var ls := AllVisited(zones);
    FlattenIsReport(mem, AsWritten, zones, written);
    FlattenIsReport(mem, AsMeant, zones, meant);
    Balance(mem, ls);
    SameSize(mem, ls);
    Cancel(multiset(Flatten(written)), Firsts(mem, ls), multiset(Flatten(meant)), Sentinels(mem, ls));
  }

  lemma Cancel<T>(a: multiset<T>, b: multiset<T>, c: multiset<T>, d: multiset<T>)
    requires a + b == c + d
    ensures a == c <==> b == d
  {
    forall x
      ensures a[x] + b[x] == c[x] + d[x]
    {
      assert (a + b)[x] == (c + d)[x];
    }
  }

  lemma {:induction false} SameSize(mem: Memory, ls: seq<Listed>)
    ensures |Report(mem, AsWritten, ls)| == |Report(mem, AsMeant, ls)|
  {
    if ls != [] {
      SameSize(mem, ls[..|ls| - 1]);
    }
  }

  lemma {:induction false} EndsOf(mem: Memory, ls: seq<Listed>, k: nat)
    requires k < |ls| && ls[k].nodes != []
    ensures RecordOf(mem, ls[k].order, ls[k].nodes[0]) in Firsts(mem, ls)
    ensures RecordOf(mem, ls[k].order, ls[k].head) in Sentinels(mem, ls)
  {
    if k < |ls| - 1 {
      EndsOf(mem, ls[..|ls| - 1], k);
    }
  }

  lemma {:induction false} FirstsAreMeant(mem: Memory, ls: seq<Listed>, r: Record)
    requires r in Firsts(mem, ls)
    ensures r in Report(mem, AsMeant, ls)
  {
    var n := |ls| - 1;
    if r in Firsts(mem, ls[..n]) {
      FirstsAreMeant(mem, ls[..n], r);
    } else {
      assert ReportOf(mem, AsMeant, ls[n])[0] == r;
    }
  }

  lemma {:induction false} SomeListIsNotEmpty(mem: Memory, ls: seq<Listed>) returns (k: nat)
    requires Report(mem, AsMeant, ls) != []
    ensures k < |ls| && ls[k].nodes != []
  {
    var n := |ls| - 1;
    if ls[n].nodes != [] {
      k := n;
    } else {
      k := SomeListIsNotEmpty(mem, ls[..n]);
    }
  }

  lemma {:induction false} AtMostOnce<T>(s: seq<T>, x: T)
    requires forall i, j :: 0 <= i < j < |s| ==> s[i] != x || s[j] != x
    ensures multiset(s)[x] <= 1
  {
    if s != [] {
      var n := |s| - 1;
      assert s == s[..n] + [s[n]];
      AtMostOnce(s[..n], x);
      if s[n] == x {
        assert x !in s[..n];
      }
    }
  }

  function PageOf(r: Record): nat {
    r.address / PAGE_SIZE
  }

  predicate InSpans(spans: seq<Buddy.Span>, page: nat) {
    exists i :: 0 <= i < |spans| && spans[i].start <= page < spans[i].end
  }

  /** Sentinels lie in the zone structures, not in the pages the allocator manages:
      the page frame computed from one belongs to no zone. */
  ghost predicate SentinelsApart(mem: Memory, ls: seq<Listed>, spans: seq<Buddy.Span>) {
    forall r :: r in Sentinels(mem, ls) ==> !InSpans(spans, PageOf(r))
  }

  lemma FreeIsInSpans(zones: seq<Buddy.Zone>, spans: seq<Buddy.Span>, page: nat)
    requires Buddy.AllConsistent(zones, spans) && Buddy.IsFree(zones, |zones|, page)
    ensures InSpans(spans, page)
  {
    var i :| 0 <= i < |zones| && Buddy.OrdersCover(zones[i].free, MAX_ORDER, page) > 0;
    assert Buddy.Consistent(zones[i], spans[i]);
  }

  lemma BlocksAreFreeAndDistinct(zones: seq<Buddy.Zone>, spans: seq<Buddy.Span>, r: Record)
    requires Buddy.AllConsistent(zones, spans) && Buddy.Separate(spans)
    requires r in Flatten(Buddy.ListsOf(zones))
    ensures InSpans(spans, PageOf(r)) && multiset(Flatten(Buddy.ListsOf(zones)))[r] == 1
  {
    var records := Flatten(Buddy.ListsOf(zones));
    Buddy.SkippingLosesNothing(zones, spans, |zones|);
    Buddy.RecordsAreTheFreePages(zones, spans);
    assert Buddy.RecordCovers(r, PageOf(r));
    FreeIsInSpans(zones, spans, PageOf(r));
    AtMostOnce(records, r);
    assert r in multiset(records);
  }

  /** In terms of pages: under the allocator's invariant, and with sentinels apart
      from its pages, the code leaves out a free block, and reports a block that is
      not free, exactly when anything is free at all. */
  lemma {:induction false} CodeIsWrongIffSomethingIsFree(mem: Memory, contents: seq<Content>, written: seq<ZoneLists>,
                                      zones: seq<Buddy.Zone>, spans: seq<Buddy.Span>)
    requires Buddy.AllConsistent(zones, spans) && Buddy.Separate(spans)
    requires WalkSees(mem, AsWritten, contents, written) && WalkSees(mem, AsMeant, contents, Buddy.ListsOf(zones))
    requires SentinelsApart(mem, AllVisited(contents), spans)
    ensures var free := Flatten(Buddy.ListsOf(zones));
      && ((exists r :: r in free && r !in Flatten(written)) <==> free != [])
      && ((exists r :: r in Flatten(written) && !Buddy.IsFree(zones, |zones|, PageOf(r))) <==> free != [])
  {
    var ls, free := AllVisited(contents), Flatten(Buddy.ListsOf(zones));
    CodeIsRightIff(mem, contents, written, Buddy.ListsOf(zones));
    if free != [] {
      FlattenIsReport(mem, AsMeant, contents, Buddy.ListsOf(zones));
      var k := SomeListIsNotEmpty(mem, ls);
      EndsOf(mem, ls, k);
      var first, sentinel := RecordOf(mem, ls[k].order, ls[k].nodes[0]), RecordOf(mem, ls[k].order, ls[k].head);
      FirstIsLeftOut(mem, contents, written, zones, spans, first);
      SentinelIsReported(mem, contents, written, zones, spans, sentinel);
    }
  }

  lemma {:induction false} FirstIsLeftOut(mem: Memory, contents: seq<Content>, written: seq<ZoneLists>,
                       zones: seq<Buddy.Zone>, spans: seq<Buddy.Span>, r: Record)
    requires Buddy.AllConsistent(zones, spans) && Buddy.Separate(spans)
    requires WalkSees(mem, AsWritten, contents, written) && WalkSees(mem, AsMeant, contents, Buddy.ListsOf(zones))
    requires SentinelsApart(mem, AllVisited(contents), spans)
    requires r in Firsts(mem, AllVisited(contents))
    ensures r in Flatten(Buddy.ListsOf(zones)) && r !in Flatten(written)
  {
    var ls := AllVisited(contents);
    var w, m := multiset(Flatten(written)), multiset(Flatten(Buddy.ListsOf(zones)));
    CodeIsRightIff(mem, contents, written, Buddy.ListsOf(zones));
    FlattenIsReport(mem, AsMeant, contents, Buddy.ListsOf(zones));
    FirstsAreMeant(mem, ls, r);
    BlocksAreFreeAndDistinct(zones, spans, r);
    assert (w + Firsts(mem, ls))[r] == (m + Sentinels(mem, ls))[r];
    assert r !in w;
  }

  lemma {:induction false} SentinelIsReported(mem: Memory, contents: seq<Content>, written: seq<ZoneLists>,
                           zones: seq<Buddy.Zone>, spans: seq<Buddy.Span>, r: Record)
    requires Buddy.AllConsistent(zones, spans) && Buddy.Separate(spans)
    requires WalkSees(mem, AsWritten, contents, written) && WalkSees(mem, AsMeant, contents, Buddy.ListsOf(zones))
    requires SentinelsApart(mem, AllVisited(contents), spans)
    requires r in Sentinels(mem, AllVisited(contents))
    ensures r in Flatten(written) && !Buddy.IsFree(zones, |zones|, PageOf(r))
  {
    var ls := AllVisited(contents);
    var w, m := multiset(Flatten(written)), multiset(Flatten(Buddy.ListsOf(zones)));
    CodeIsRightIff(mem, contents, written, Buddy.ListsOf(zones));
    if Buddy.IsFree(zones, |zones|, PageOf(r)) {
      FreeIsInSpans(zones, spans, PageOf(r));
    }
    if r in Firsts(mem, ls) {
      FlattenIsReport(mem, AsMeant, contents, Buddy.ListsOf(zones));
      FirstsAreMeant(mem, ls, r);
      BlocksAreFreeAndDistinct(zones, spans, r);
    }
    assert (w + Firsts(mem, ls))[r] == (m + Sentinels(mem, ls))[r];
    assert r in w;
  }

  /** A list of one page, sentinel at address 0: the code reports the sentinel's
      frame and misses the page. */
  lemma SentinelReportedExample(mem: Memory)
    requires mem.next == map[0 := 7, 7 := 0] && mem.pfn(0) == 0 && mem.pfn(7) == 5
    ensures Shows(mem, AsWritten, 0, [7], [0]) && Shows(mem, AsMeant, 0, [7], [5])
    ensures OfList(3, [0]) == [Record(0, 3)] && OfList(3, [5]) == [Record(0x5000, 3)]
  {
    assert Ring(mem.next, 0, [7]) by {
      assert RingFrom(mem.next, 0, 0, []);
      assert [7][1..] == [];
    }
    assert Visited(AsWritten, 0, [7]) == [0];
  }
}
