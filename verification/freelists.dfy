/** Free lists, the records that describe them, and the flattening of the former
    into the latter in the order the driver visits them: zone, order, migrate
    type, list position. */
module FreeLists {
  import opened Words

  const MAX_ORDER := 11
  const PAGE_SIZE := 0x1000
  const MIGRATION_BUFFER_SIZE := 4 * 1024 * 1024
  const BUFFER_WORDS := MIGRATION_BUFFER_SIZE / 8

  /** One free block: physical address and order, as two 64-bit words. */
  datatype Record = Record(address: u64, order: u64)

  type Area = seq<seq<u64>>  // page frame numbers, per migrate type

  /** One entry per order. */
  type Orders = f: seq<Area> | |f| == MAX_ORDER witness seq(MAX_ORDER, _ => [])

  /** A zone's lists. Zones without managed pages are not visited. */
  datatype ZoneLists = ZoneLists(managed: nat, free: Orders)

  /** PFN_PHYS, in 64-bit arithmetic. */
  function PfnPhys(pfn: u64): u64 {
    pfn * PAGE_SIZE % 0x1_0000_0000_0000_0000
  }

  lemma PfnPhysExact(pfn: u64)
    requires pfn * PAGE_SIZE < 0x1_0000_0000_0000_0000
    ensures PfnPhys(pfn) == pfn * PAGE_SIZE
    ensures PfnPhys(pfn) % PAGE_SIZE == 0 && PfnPhys(pfn) / PAGE_SIZE == pfn
  {
  }

  function OfList(order: u64, pfns: seq<u64>): (r: seq<Record>)
    ensures |r| == |pfns|
  {
    seq(|pfns|, i requires 0 <= i < |pfns| => Record(PfnPhys(pfns[i]), order))
  }

  function OfTypes(order: u64, area: Area, j: nat): seq<Record>
    requires j <= |area|
  {
    if j == 0 then [] else OfTypes(order, area, j - 1) + OfList(order, area[j - 1])
  }

  function OfArea(order: u64, area: Area): seq<Record> {
    OfTypes(order, area, |area|)
  }

  function OfOrders(free: Orders, o: nat): seq<Record>
    requires o <= MAX_ORDER
  {
    if o == 0 then [] else OfOrders(free, o - 1) + OfArea(o - 1, free[o - 1])
  }

  function OfZone(z: ZoneLists): seq<Record>
  {
    if z.managed == 0 then [] else OfOrders(z.free, MAX_ORDER)
  }

  function OfZones(zones: seq<ZoneLists>, n: nat): seq<Record>
    requires n <= |zones|
  {
    if n == 0 then [] else OfZones(zones, n - 1) + OfZone(zones[n - 1])
  }

  function Flatten(zones: seq<ZoneLists>): seq<Record> {
    OfZones(zones, |zones|)
  }

  lemma {:induction false} TypesGrow(order: u64, area: Area, j: nat, k: nat)
    requires j <= k <= |area|
    ensures |OfTypes(order, area, j)| <= |OfTypes(order, area, k)|
    decreases k
  {
    if j < k {
      TypesGrow(order, area, j, k - 1);
    }
  }

  lemma {:induction false} OrdersGrow(free: Orders, j: nat, k: nat)
    requires j <= k <= MAX_ORDER
    ensures |OfOrders(free, j)| <= |OfOrders(free, k)|
    decreases k
  {
    if j < k {
      OrdersGrow(free, j, k - 1);
    }
  }

  lemma {:induction false} ZonesGrow(zones: seq<ZoneLists>, j: nat, k: nat)
    requires j <= k <= |zones|
    ensures |OfZones(zones, j)| <= |OfZones(zones, k)|
    decreases k
  {
    if j < k {
      ZonesGrow(zones, j, k - 1);
    }
  }

  // Where each block's record comes, and that nothing else comes.

  lemma {:induction false} TypesAt(order: u64, area: Area, n: nat, j: nat, i: nat)
    requires j < n <= |area| && i < |area[j]|
    ensures var at := |OfTypes(order, area, j)| + i;
      at < |OfTypes(order, area, n)| && OfTypes(order, area, n)[at] == Record(PfnPhys(area[j][i]), order)
  {
    if j < n - 1 {
      TypesAt(order, area, n - 1, j, i);
    }
  }

  lemma {:induction false} OrdersAt(free: Orders, n: nat, o: nat, at: nat)
    requires o < n <= MAX_ORDER && at < |OfArea(o, free[o])|
    ensures |OfOrders(free, o)| + at < |OfOrders(free, n)|
    ensures OfOrders(free, n)[|OfOrders(free, o)| + at] == OfArea(o, free[o])[at]
  {
    hide OfArea;
    if o < n - 1 {
      OrdersAt(free, n - 1, o, at);
    }
  }

  lemma {:induction false} ZonesAt(zones: seq<ZoneLists>, n: nat, z: nat, at: nat)
    requires z < n <= |zones| && at < |OfZone(zones[z])|
    ensures |OfZones(zones, z)| + at < |OfZones(zones, n)|
    ensures OfZones(zones, n)[|OfZones(zones, z)| + at] == OfZone(zones[z])[at]
  {
    hide OfZone;
    if z < n - 1 {
      ZonesAt(zones, n - 1, z, at);
    }
  }

  /** Every block of orders 0 to 10 in a zone with managed pages is reported, as its
      physical address, 4096 bytes to a page, and its order, right after everything
      in earlier zones, in lower orders, in earlier lists and earlier in its list. */
  lemma RecordAt(zones: seq<ZoneLists>, z: nat, o: nat, j: nat, i: nat)
    requires z < |zones| && zones[z].managed != 0 && o <= 10 && j < |zones[z].free[o]| && i < |zones[z].free[o][j]|
    ensures var free := zones[z].free;
      var at := |OfZones(zones, z)| + |OfOrders(free, o)| + |OfTypes(o, free[o], j)| + i;
      && at < |Flatten(zones)|
      && Flatten(zones)[at].order == o
      && Flatten(zones)[at].address == (free[o][j][i] as int) * 4096 % 0x1_0000_0000_0000_0000
  {
    hide OfTypes, OfOrders, OfZones;
    var free := zones[z].free;
    TypesAt(o, free[o], |free[o]|, j, i);
    OrdersAt(free, MAX_ORDER, o, |OfTypes(o, free[o], j)| + i);
    ZonesAt(zones, |zones|, z, |OfOrders(free, o)| + |OfTypes(o, free[o], j)| + i);
  }

  /** Lengths add up, so these positions follow one another without gaps. */
  lemma NextPosition(zones: seq<ZoneLists>, z: nat, o: nat, j: nat)
    requires z < |zones| && o <= 10 && j < |zones[z].free[o]|
    ensures |OfTypes(o, zones[z].free[o], 0)| == |OfOrders(zones[z].free, 0)| == |OfZones(zones, 0)| == 0
    ensures var free := zones[z].free;
      && |OfTypes(o, free[o], j + 1)| == |OfTypes(o, free[o], j)| + |free[o][j]|
      && |OfOrders(free, o + 1)| == |OfOrders(free, o)| + |OfTypes(o, free[o], |free[o]|)|
    ensures zones[z].managed == 0 ==> |OfZones(zones, z + 1)| == |OfZones(zones, z)|
    ensures zones[z].managed != 0 ==> |OfZones(zones, z + 1)| == |OfZones(zones, z)| + |OfOrders(zones[z].free, 11)|
  {
  }

  lemma {:induction false} TypesPlace(order: u64, area: Area, n: nat, at: nat) returns (j: nat, i: nat)
    requires n <= |area| && at < |OfTypes(order, area, n)|
    ensures j < n && i < |area[j]| && at == |OfTypes(order, area, j)| + i
  {
    if at < |OfTypes(order, area, n - 1)| {
      j, i := TypesPlace(order, area, n - 1, at);
    } else {
      j, i := n - 1, at - |OfTypes(order, area, n - 1)|;
    }
  }

  lemma {:induction false} OrdersPlace(free: Orders, n: nat, at: nat) returns (o: nat, rest: nat)
    requires n <= MAX_ORDER && at < |OfOrders(free, n)|
    ensures o < n && rest < |OfArea(o, free[o])| && at == |OfOrders(free, o)| + rest
  {
    hide OfArea;
    if at < |OfOrders(free, n - 1)| {
      o, rest := OrdersPlace(free, n - 1, at);
    } else {
      o, rest := n - 1, at - |OfOrders(free, n - 1)|;
    }
  }

  lemma {:induction false} ZonesPlace(zones: seq<ZoneLists>, n: nat, at: nat) returns (z: nat, rest: nat)
    requires n <= |zones| && at < |OfZones(zones, n)|
    ensures z < n && rest < |OfZone(zones[z])| && at == |OfZones(zones, z)| + rest
  {
    hide OfZone;
    if at < |OfZones(zones, n - 1)| {
      z, rest := ZonesPlace(zones, n - 1, at);
    } else {
      z, rest := n - 1, at - |OfZones(zones, n - 1)|;
    }
  }

  /** And every record is the record of such a block. */
  lemma RecordsComeFromBlocks(zones: seq<ZoneLists>, at: nat)
    requires at < |Flatten(zones)|
    ensures exists z, o, j, i ::
      && 0 <= z < |zones| && zones[z].managed != 0 && 0 <= o <= 10
      && 0 <= j < |zones[z].free[o]| && 0 <= i < |zones[z].free[o][j]|
      && Flatten(zones)[at].order == o
      && Flatten(zones)[at].address == (zones[z].free[o][j][i] as int) * 4096 % 0x1_0000_0000_0000_0000
  {
    hide OfTypes, OfOrders, OfZones;
    var z, inZone := ZonesPlace(zones, |zones|, at);
    var o, inOrder := OrdersPlace(zones[z].free, MAX_ORDER, inZone);
    var j, i := TypesPlace(o, zones[z].free[o], |zones[z].free[o]|, inOrder);
    RecordAt(zones, z, o, j, i);
  }

  /** The first `count` words of the buffer are the records, two words each. */
  ghost predicate Stores(buffer: array<u64>, count: nat, records: seq<Record>)
    reads buffer
  {
    && count == 2 * |records| <= buffer.Length
    && forall i :: 0 <= i < |records| ==> buffer[2 * i] == records[i].address && buffer[2 * i + 1] == records[i].order
  }

  function Decode(w: seq<u64>): seq<Record> {
    seq(|w| / 2, i requires 0 <= i < |w| / 2 => Record(w[2 * i], w[2 * i + 1]))
  }

  /** Decoding the pairs recovers the list, and nothing but the list decodes from
      them: the words determine the records. */
  lemma StoresIffDecodes(buffer: array<u64>, count: nat, records: seq<Record>)
    requires count <= buffer.Length && count % 2 == 0
    ensures Stores(buffer, count, records) <==> Decode(buffer[..count]) == records
  {
    var w := buffer[..count];
    assert forall i :: 0 <= i < count / 2 ==> Decode(w)[i] == Record(buffer[2 * i], buffer[2 * i + 1]);
    if Stores(buffer, count, records) {
      assert Decode(w) == records;
    }
  }
}
