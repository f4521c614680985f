/** Writing the guest's free pages for migration
    (shared/driver/driver.c, write_guest_free_pages). */
module Snapshot {
  import opened Words
  import opened FreeLists
  import opened Mailboxes

  /** Kernel memory as the walk sees it: the `next` field at each list node, and
      the page frame number computed from a node's address. */
  datatype Memory = Memory(next: map<int, int>, pfn: int -> u64)

  /** The walk as the code has it takes the successor of the cursor for the page;
      the walk as meant takes the cursor itself. */
  datatype Walk = AsWritten | AsMeant

  /** A circular list: from the sentinel `head`, following `next` meets `nodes` in
      order and then the sentinel again. */
  ghost predicate Ring(next: map<int, int>, head: int, nodes: seq<int>) {
    head in next && RingFrom(next, head, next[head], nodes)
  }

  ghost predicate RingFrom(next: map<int, int>, head: int, at: int, nodes: seq<int>)
    decreases |nodes|
  {
    if nodes == [] then at == head
    else at != head && at == nodes[0] && at in next && RingFrom(next, head, next[at], nodes[1..])
  }

  /** A ring holds one sequence of nodes only. */
  lemma {:induction false} RingIsUnique(next: map<int, int>, head: int, at: int, a: seq<int>, b: seq<int>)
    requires RingFrom(next, head, at, a) && RingFrom(next, head, at, b)
    ensures a == b
    decreases |a|
  {
    if a != [] && b != [] {
      RingIsUnique(next, head, next[at], a[1..], b[1..]);
      assert a == [at] + a[1..] && b == [at] + b[1..];
    }
  }

  /** So no node of a ring is its own successor, and the entry after a node is the
      next node, or the sentinel after the last one. */
  lemma RingStep(next: map<int, int>, head: int, nodes: seq<int>, i: nat)
    requires i < |nodes| && RingFrom(next, head, nodes[i], nodes[i..])
    ensures nodes[i] != head && nodes[i] in next && next[nodes[i]] != nodes[i]
    ensures RingFrom(next, head, next[nodes[i]], nodes[i + 1..])
    ensures next[nodes[i]] == if i + 1 < |nodes| then nodes[i + 1] else head
  {
    assert nodes[i..][1..] == nodes[i + 1..];
    if next[nodes[i]] == nodes[i] {
      RingIsUnique(next, head, nodes[i], nodes[i..], nodes[i + 1..]);
    }
  }

  /** The nodes whose pages a walk reports. */
  function Visited(walk: Walk, head: int, nodes: seq<int>): (v: seq<int>)
    ensures |v| == |nodes|
  {
    if walk == AsMeant || nodes == [] then nodes else nodes[1..] + [head]
  }

  /** The ring at `head` holds `nodes`, and `pfns` are the page frame numbers the
      walk computes from it. */
  ghost predicate Shows(mem: Memory, walk: Walk, head: int, nodes: seq<int>, pfns: seq<u64>) {
    && Ring(mem.next, head, nodes) && |pfns| == |nodes|
    && forall i :: 0 <= i < |pfns| ==> pfns[i] == mem.pfn(Visited(walk, head, nodes)[i])
  }

  /** A zone's fields: managed pages, list sentinels per order and migrate type,
      and what each list holds. */
  datatype Content = Content(managed: nat, heads: seq<seq<int>>, lists: seq<seq<seq<int>>>)

  ghost predicate AreaShows(mem: Memory, walk: Walk, heads: seq<int>, lists: seq<seq<int>>, area: Area) {
    && |heads| == |lists| == |area|
    && forall j :: 0 <= j < |heads| ==> Shows(mem, walk, heads[j], lists[j], area[j])
  }

  /** What a walk sees of a zone. */
  ghost predicate ZoneShows(mem: Memory, walk: Walk, z: Content, seen: ZoneLists) {
    && |z.heads| == |z.lists| == MAX_ORDER && seen.managed == z.managed
    && forall o :: 0 <= o < MAX_ORDER ==> AreaShows(mem, walk, z.heads[o], z.lists[o], seen.free[o])
  }

  class Cpu {
    var irqOn: bool
    ghost var trace: seq<LockEvent>

    constructor (irqOn: bool)
      ensures this.irqOn == irqOn && trace == []
    {
      this.irqOn := irqOn;
      trace := [];
    }
  }

  datatype LockEvent = Acquired(zone: Zone, saved: bool) | Released(zone: Zone, restored: bool)

  class Zone {
    var locked: bool
    var content: Content

    constructor (content: Content)
      ensures this.content == content && !locked
    {
      this.content := content;
      locked := false;
    }

    method LockIrqSave(cpu: Cpu) returns (flags: bool)
      requires !locked
      modifies this`locked, cpu
      ensures locked && !cpu.irqOn && flags == old(cpu.irqOn)
      ensures cpu.trace == old(cpu.trace) + [Acquired(this, flags)]
    {
      flags := cpu.irqOn;
      cpu.irqOn := false;
      locked := true;
      cpu.trace := cpu.trace + [Acquired(this, flags)];
    }

    method UnlockIrqRestore(cpu: Cpu, flags: bool)
      requires locked
      modifies this`locked, cpu
      ensures !locked && cpu.irqOn == flags
      ensures cpu.trace == old(cpu.trace) + [Released(this, flags)]
    {
      locked := false;
      cpu.irqOn := flags;
      cpu.trace := cpu.trace + [Released(this, flags)];
    }
  }

  ghost predicate ZonesShow(mem: Memory, walk: Walk, zones: seq<Zone>, seen: seq<ZoneLists>)
    reads zones
  {
    && |seen| == |zones|
    && forall i :: 0 <= i < |zones| ==> ZoneShows(mem, walk, zones[i].content, seen[i])
  }

  /** `list_first_entry_or_null(tmp, ...)`: the entry after `tmp`, or none when
      `tmp` is alone on its ring. */
  function FirstEntryOrNull(next: map<int, int>, tmp: int): Option<int>
    requires tmp in next
  {
    if next[tmp] != tmp then Some(next[tmp]) else None
  }

  /** The two stores made for a node: address, then order. */
  method StorePair(buffer: array<u64>, count: nat, address: u64, order: u64, ghost done: seq<Record>)
    returns (newCount: nat)
    requires Stores(buffer, count, done) && count + 2 <= buffer.Length
    modifies buffer
    ensures Stores(buffer, newCount, done + [Record(address, order)])
  {
    buffer[count] := address;
    buffer[count + 1] := order;
    newCount := count + 2;
  }

  lemma OneMoreRecord(order: u64, pfns: seq<u64>, k: nat)
    requires k < |pfns|
    ensures OfList(order, pfns)[..k + 1] == OfList(order, pfns)[..k] + [Record(PfnPhys(pfns[k]), order)]
  {
  }

  /** The innermost loop: follow `next` from the sentinel back to it, storing an
      (address, order) pair per node. */
  method WalkList(mem: Memory, walk: Walk, head: int, ghost nodes: seq<int>, order: u64,
                  buffer: array<u64>, count: nat, ghost pfns: seq<u64>, ghost done: seq<Record>)
    returns (newCount: nat, freeAreaPages: nat)
    requires Shows(mem, walk, head, nodes, pfns)
    requires Stores(buffer, count, done) && count + 2 * |pfns| <= buffer.Length
    modifies buffer
    ensures freeAreaPages == |pfns|
    ensures Stores(buffer, newCount, done + OfList(order, pfns))
  {
    freeAreaPages := 0;
    newCount := count;
    ghost var records := done;
    var tmp := mem.next[head];
    while tmp != head
      invariant 0 <= freeAreaPages <= |pfns| && RingFrom(mem.next, head, tmp, nodes[freeAreaPages..])
      invariant records == done + OfList(order, pfns)[..freeAreaPages]
      invariant Stores(buffer, newCount, records)
      decreases |nodes| - freeAreaPages
    {
      RingStep(mem.next, head, nodes, freeAreaPages);
      var page := if walk == AsMeant then Some(tmp) else FirstEntryOrNull(mem.next, tmp);
      if page.None? {
        assert false;
        break;
      }
      assert page.value == Visited(walk, head, nodes)[freeAreaPages];
      OneMoreRecord(order, pfns, freeAreaPages);
      newCount := StorePair(buffer, newCount, PfnPhys(mem.pfn(page.value)), order, records);
      records := records + [Record(PfnPhys(mem.pfn(page.value)), order)];
      freeAreaPages := freeAreaPages + 1;
      tmp := mem.next[tmp];
    }
    assert OfList(order, pfns)[..freeAreaPages] == OfList(order, pfns);
  }

  /** All migrate types of one order. */
  method WalkArea(mem: Memory, walk: Walk, heads: seq<int>, ghost lists: seq<seq<int>>, order: u64,
                  buffer: array<u64>, count: nat, ghost area: Area, ghost done: seq<Record>)
    returns (newCount: nat, freeAreaPages: nat)
    requires AreaShows(mem, walk, heads, lists, area)
    requires Stores(buffer, count, done) && count + 2 * |OfArea(order, area)| <= buffer.Length
    modifies buffer
    ensures freeAreaPages == |OfArea(order, area)|
    ensures Stores(buffer, newCount, done + OfArea(order, area))
  {
    hide Shows, OfList;
    freeAreaPages := 0;
    newCount := count;
    ghost var records := done;
    var j := 0;
    while j != |heads|
      invariant 0 <= j <= |heads|
      invariant freeAreaPages == |OfTypes(order, area, j)|
      invariant records == done + OfTypes(order, area, j)
      invariant Stores(buffer, newCount, records)
    {
      TypesGrow(order, area, j + 1, |area|);
      var pages;
      newCount, pages := WalkList(mem, walk, heads[j], lists[j], order, buffer, newCount, area[j], records);
      records := records + OfList(order, area[j]);
      freeAreaPages := freeAreaPages + pages;
      j := j + 1;
    }
  }

  /** All orders of one zone, unless it has no managed pages. */
  method WalkZone(mem: Memory, walk: Walk, zone: Content, buffer: array<u64>, count: nat, ghost seen: ZoneLists,
                  ghost done: seq<Record>) returns (newCount: nat)
    requires ZoneShows(mem, walk, zone, seen)
    requires Stores(buffer, count, done) && count + 2 * |OfZone(seen)| <= buffer.Length
    modifies buffer
    ensures Stores(buffer, newCount, done + OfZone(seen))
  {
    hide Shows, AreaShows, OfTypes, OfArea;
    newCount := count;
    ghost var records := done;
    if zone.managed == 0 {
      assert done + OfZone(seen) == done;
      return;
    }
    var order := 0;
    while order < MAX_ORDER
      invariant 0 <= order <= MAX_ORDER
      invariant records == done + OfOrders(seen.free, order)
      invariant Stores(buffer, newCount, records)
    {
      OrdersGrow(seen.free, order + 1, MAX_ORDER);
      var pages;
      newCount, pages := WalkArea(mem, walk, zone.heads[order], zone.lists[order], order, buffer, newCount,
                                  seen.free[order], records);
      records := records + OfArea(order, seen.free[order]);
      order := order + 1;
    }
  }

  /** All populated zones. */
  method WalkZones(mem: Memory, walk: Walk, populated: seq<Zone>, buffer: array<u64>, ghost seen: seq<ZoneLists>)
    returns (count: nat)
    requires ZonesShow(mem, walk, populated, seen)
    requires 2 * |Flatten(seen)| <= buffer.Length
    modifies buffer
    ensures Stores(buffer, count, Flatten(seen))
  {
    hide ZoneShows, OfZone;
    count := 0;
    ghost var records := [];
    var i := 0;
    while i < |populated|
      invariant 0 <= i <= |populated|
      invariant records == OfZones(seen, i)
      invariant Stores(buffer, count, records)
    {
      ZonesGrow(seen, i + 1, |seen|);
      count := WalkZone(mem, walk, populated[i].content, buffer, count, seen[i], records);
      records := records + OfZone(seen[i]);
      i := i + 1;
    }
  }

  /** The flags each acquisition saves: the caller's interrupt state first, then
      disabled. */
  function SavedFlags(irqOn: bool, i: nat): bool {
    i == 0 && irqOn
  }

  ghost function Acquisitions(zones: seq<Zone>, irqOn: bool, n: nat): seq<LockEvent>
    requires n <= |zones|
  {
    seq(n, i requires 0 <= i < n => Acquired(zones[i], SavedFlags(irqOn, i)))
  }

  /** The first `n` releases, from the last zone backwards. */
  ghost function Releases(zones: seq<Zone>, irqOn: bool, n: nat): seq<LockEvent>
    requires n <= |zones|
  {
    seq(n, i requires 0 <= i < n => Released(zones[|zones| - 1 - i], SavedFlags(irqOn, |zones| - 1 - i)))
  }

  ghost predicate DistinctZones(zones: seq<Zone>) {
    forall i, j :: 0 <= i < j < |zones| ==> zones[i] != zones[j]
  }

  /** Each release undoes one acquisition, in reverse order, with the flags that
      acquisition saved. */
  lemma ReleasesMirrorAcquisitions(zones: seq<Zone>, irqOn: bool, i: nat)
    requires i < |zones|
    ensures var n := |zones|;
      var a, r := Acquisitions(zones, irqOn, n)[i], Releases(zones, irqOn, n)[n - 1 - i];
      a.Acquired? && r == Released(a.zone, a.saved)
  {
  }

  method LockAll(populated: seq<Zone>, zones: array<Zone?>, flags: array<bool>, cpu: Cpu) returns (k: nat)
    requires DistinctZones(populated) && forall z :: z in populated ==> !z.locked
    requires |populated| <= zones.Length && zones.Length == flags.Length
    modifies zones, flags, cpu, populated`locked
    ensures k == |populated| && forall z :: z in populated ==> z.locked
    ensures forall i :: 0 <= i < k ==> zones[i] == populated[i] && flags[i] == SavedFlags(old(cpu.irqOn), i)
    ensures cpu.irqOn == (k == 0 && old(cpu.irqOn))
    ensures cpu.trace == old(cpu.trace) + Acquisitions(populated, old(cpu.irqOn), |populated|)
  {
    k := 0;
    while k < |populated|
      invariant 0 <= k <= |populated|
      invariant forall i :: 0 <= i < |populated| ==> populated[i].locked == (i < k)
      invariant forall i :: 0 <= i < k ==> zones[i] == populated[i] && flags[i] == SavedFlags(old(cpu.irqOn), i)
      invariant cpu.irqOn == (k == 0 && old(cpu.irqOn))
      invariant cpu.trace == old(cpu.trace) + Acquisitions(populated, old(cpu.irqOn), k)
    {
      zones[k] := populated[k];
      flags[k] := populated[k].LockIrqSave(cpu);
      k := k + 1;
    }
  }

  method UnlockAll(populated: seq<Zone>, zones: array<Zone?>, flags: array<bool>, cpu: Cpu, held: nat,
                   ghost irqOn: bool)
    returns (k: nat)
    requires DistinctZones(populated) && forall z :: z in populated ==> z.locked
    requires held == |populated| <= zones.Length && zones.Length == flags.Length
    requires forall i :: 0 <= i < held ==> zones[i] == populated[i] && flags[i] == SavedFlags(irqOn, i)
    requires cpu.irqOn == (held == 0 && irqOn)
    modifies cpu, populated`locked
    ensures k == 0 && forall z :: z in populated ==> !z.locked
    ensures cpu.irqOn == irqOn
    ensures cpu.trace == old(cpu.trace) + Releases(populated, irqOn, |populated|)
  {
    k := held;
    var visited := 0;
    while visited < |populated|
      invariant 0 <= visited <= |populated| && k == |populated| - visited
      invariant forall i :: 0 <= i < |populated| ==> populated[i].locked == (i < k)
      invariant cpu.irqOn == (k == 0 && irqOn)
      invariant cpu.trace == old(cpu.trace) + Releases(populated, irqOn, visited)
    {
      k := k - 1;
      assert zones[k] == populated[k];
      zones[k].UnlockIrqRestore(cpu, flags[k]);
      visited := visited + 1;
    }
  }

  function High(address: u64): u32 {
    address / 0x1_0000_0000
  }

  function Low(address: u64): u32 {
    address % 0x1_0000_0000
  }

  /** What the handler stores in words 4 to 7: header, address halves, count. */
  function AnnouncedWord(bufferAddress: u64, pairs: u32, p: nat): u32 {
    if p == 0 then HeaderWord(Header(DEFAULT_VERSION, FIRST_ROUND_MIGRATION, 12))
    else if p == 1 then High(bufferAddress)
    else if p == 2 then Low(bufferAddress)
    else pairs
  }

  /** The window with the first `p` of these words stored. */
  function WithAnnouncement(words: seq<u32>, bufferAddress: u64, pairs: u32, p: nat): (w: seq<u32>)
    requires |words| >= WINDOW_WORDS && p <= 4
    ensures |w| == |words|
  {
    seq(|words|, k requires 0 <= k < |words| =>
      if 4 <= k < 4 + p then AnnouncedWord(bufferAddress, pairs, k - 4) else words[k])
  }

  /** Every device write of the handler, in order; the doorbell comes last. */
  function Publication(bufferAddress: u64, pairs: u32, elapsed: u32): seq<Write> {
    [Write(BUF, HeaderWord(Header(DEFAULT_VERSION, FIRST_ROUND_MIGRATION, 12))),
     Write(BUF + HEADER_OFFSET, High(bufferAddress)),
     Write(BUF + 4 + HEADER_OFFSET, Low(bufferAddress)),
     Write(BUF + 8 + HEADER_OFFSET, pairs),
     Write(REG_DOORBELL, elapsed)]
  }

  function Published(words: seq<u32>, bufferAddress: u64, pairs: u32, elapsed: u32): seq<u32>
    requires |words| >= WINDOW_WORDS
  {
    words[4 := HeaderWord(Header(DEFAULT_VERSION, FIRST_ROUND_MIGRATION, 12))]
         [5 := High(bufferAddress)][6 := Low(bufferAddress)][7 := pairs][2 := elapsed]
  }

  lemma ReplayOne(words: seq<u32>, writes: seq<Write>, w: Write)
    ensures Replay(words, writes + [w]) ==
      if w.offset / 4 < |words| then Replay(words, writes)[w.offset / 4 := w.value] else Replay(words, writes)
  {
    assert (writes + [w])[..|writes|] == writes;
  }

  /** The window when the handler is about to ring: header, address halves and count
      stored, everything else as before. */
  function BeforeDoorbell(words: seq<u32>, bufferAddress: u64, pairs: u32): (w: seq<u32>)
    requires |words| >= WINDOW_WORDS
    ensures |w| == |words|
  {
    words[4 := HeaderWord(Header(DEFAULT_VERSION, FIRST_ROUND_MIGRATION, 12))]
         [5 := High(bufferAddress)][6 := Low(bufferAddress)][7 := pairs]
  }

  /** The writes of the handler, one after another, give the published window; the
      one to the doorbell is the fifth and last, and by then everything else is
      stored. */
  lemma PublicationReplays(words: seq<u32>, bufferAddress: u64, pairs: u32, elapsed: u32)
    requires |words| >= WINDOW_WORDS
    ensures var w := Publication(bufferAddress, pairs, elapsed);
      && |w| == 5 && w[4] == Write(8, elapsed) && (forall i :: 0 <= i < 4 ==> w[i].offset == 16 + 4 * i)
      && Replay(words, w[..4]) == BeforeDoorbell(words, bufferAddress, pairs)
      && Replay(words, w) == Published(words, bufferAddress, pairs, elapsed)
  {
    hide High, Low, HeaderWord, Replay;
    var w := Publication(bufferAddress, pairs, elapsed);
    FirstFourReplay(words, bufferAddress, pairs, elapsed);
    ReplayAt(words, w[..4], BeforeDoorbell(words, bufferAddress, pairs), w[4], 2);
    assert w == w[..4] + [w[4]];
  }

  lemma FirstFour<T>(a: T, b: T, c: T, d: T, e: T)
    ensures [a, b, c, d, e][..4] == [] + [a] + [b] + [c] + [d]
  {
  }

  lemma FirstFourReplay(words: seq<u32>, bufferAddress: u64, pairs: u32, elapsed: u32)
    requires |words| >= WINDOW_WORDS
    ensures var w := Publication(bufferAddress, pairs, elapsed);
      Replay(words, w[..4]) == BeforeDoorbell(words, bufferAddress, pairs)
  {
    hide High, Low, HeaderWord, Replay;
    var a := Write(16, HeaderWord(Header(DEFAULT_VERSION, FIRST_ROUND_MIGRATION, 12)));
    var b, c, d := Write(20, High(bufferAddress)), Write(24, Low(bufferAddress)), Write(28, pairs);
    FirstFour(a, b, c, d, Write(REG_DOORBELL, elapsed));
    ReplayFour(words, a, b, c, d);
  }

  /** Writing word `k` after some writes that gave `before`. */
  lemma ReplayAt(words: seq<u32>, writes: seq<Write>, before: seq<u32>, w: Write, k: nat)
    requires k < |words| && w.offset == 4 * k && Replay(words, writes) == before
    ensures Replay(words, writes + [w]) == before[k := w.value]
  {
    hide Replay;
    ReplayOne(words, writes, w);
  }

  lemma ReplayNothing(words: seq<u32>)
    ensures Replay(words, []) == words
  {
  }

  lemma ReplayFour(words: seq<u32>, a: Write, b: Write, c: Write, d: Write)
    requires |words| >= WINDOW_WORDS
    requires a.offset == 16 && b.offset == 20 && c.offset == 24 && d.offset == 28
    ensures Replay(words, [] + [a] + [b] + [c] + [d]) == words[4 := a.value][5 := b.value][6 := c.value][7 := d.value]
  {
    hide Replay;
    ReplayNothing(words);
    var one := words[4 := a.value];
    ReplayAt(words, [], words, a, 4);
    var two := one[5 := b.value];
    ReplayAt(words, [] + [a], one, b, 5);
    var three := two[6 := c.value];
    ReplayAt(words, [] + [a] + [b], two, c, 6);
    ReplayAt(words, [] + [a] + [b] + [c], three, d, 7);
  }

  /** The header and the two address halves as the host puts them together. */
  ghost predicate Announces(w: seq<u32>, address: int, pairs: int) {
    && |w| >= WINDOW_WORDS
    && HeaderOf(w[4]) == Header(1, 20, 12)
    && w[5] as int * 0x1_0000_0000 + w[6] as int == address
    && w[7] as int == pairs
  }

  lemma HalvesAreExact(address: u64, high: u32, low: u32)
    ensures high as int * 0x1_0000_0000 + low as int == address <==>
      high == High(address) && low == Low(address)
  {
  }

  /** The order of the handler's device writes: exactly one goes to the doorbell
      register at offset 8, and when it is due the window already announces the
      buffer and the count, so the host never reads an unfinished message. */
  lemma DoorbellRingsLast(words: seq<u32>, address: u64, pairs: u32, elapsed: u32)
    requires |words| >= WINDOW_WORDS
    ensures var w := Publication(address, pairs, elapsed);
      exists k :: 0 <= k < |w| && w[k] == Write(8, elapsed)
        && (forall i :: 0 <= i < |w| && i != k ==> w[i].offset != 8)
        && Announces(Replay(words, w[..k]), address, pairs)
        && Replay(words, w) == Published(words, address, pairs, elapsed)
  {
    hide Announces, Replay, Publication, Published, BeforeDoorbell;
    PublicationReplays(words, address, pairs, elapsed);
    MessageIsComplete(words, address, pairs);
    var w := Publication(address, pairs, elapsed);
    assert w[4] == Write(8, elapsed) && Announces(Replay(words, w[..4]), address, pairs);
  }

  lemma MessageIsComplete(words: seq<u32>, address: u64, pairs: u32)
    requires |words| >= WINDOW_WORDS
    ensures Announces(BeforeDoorbell(words, address, pairs), address, pairs)
  {
    hide HeaderOf, HeaderWord;
    HeaderRoundTrip(Header(1, 20, 12));
    HalvesAreExact(address, High(address), Low(address));
  }

  /** And the window it leaves announces them still. */
  lemma HandlerAnnounces(words: seq<u32>, address: u64, pairs: u32, elapsed: u32)
    requires |words| >= WINDOW_WORDS
    ensures Announces(Published(words, address, pairs, elapsed), address, pairs)
  {
    HeaderRoundTrip(Header(DEFAULT_VERSION, FIRST_ROUND_MIGRATION, 12));
  }

  method Publish(mailbox: Mailbox, bufferAddress: u64, pairs: u32, elapsed: u32)
    requires mailbox.Valid()
    modifies mailbox
    ensures mailbox.Valid()
    ensures mailbox.writes == old(mailbox.writes) + Publication(bufferAddress, pairs, elapsed)
    ensures mailbox.words == Published(old(mailbox.words), bufferAddress, pairs, elapsed)
  {
    mailbox.Write32(BUF, HeaderWord(Header(DEFAULT_VERSION, FIRST_ROUND_MIGRATION, 12)));
    mailbox.Write32(BUF + HEADER_OFFSET, High(bufferAddress));
    mailbox.Write32(BUF + 4 + HEADER_OFFSET, Low(bufferAddress));
    mailbox.Write32(BUF + 8 + HEADER_OFFSET, pairs);
    mailbox.Write32(REG_DOORBELL, elapsed);
  }

  /** The scratch arrays are sized by the zone count of the last memory node alone,
      though they hold the populated zones of all nodes. */
  predicate ScratchFits(nodes: seq<nat>, populated: seq<Zone>) {
    nodes != [] && |populated| <= nodes[|nodes| - 1]
  }

  /** The whole handler. `nodes` gives each online node's zone count. */
  method WriteGuestFreePages(mem: Memory, walk: Walk, populated: seq<Zone>, nodes: seq<nat>, cpu: Cpu,
                             buffer: array<u64>, bufferAddress: u64, elapsed: u32, mailbox: Mailbox,
                             ghost seen: seq<ZoneLists>)
    requires mailbox.Valid() && buffer.Length == BUFFER_WORDS
    requires DistinctZones(populated) && ScratchFits(nodes, populated)
    requires ZonesShow(mem, walk, populated, seen) && forall z :: z in populated ==> !z.locked
    requires |Flatten(seen)| <= MIGRATION_BUFFER_SIZE / 16
    modifies buffer, mailbox, cpu, populated`locked
    ensures mailbox.Valid()
    ensures cpu.irqOn == old(cpu.irqOn) && forall z :: z in populated ==> !z.locked
    ensures cpu.trace == old(cpu.trace) + Acquisitions(populated, old(cpu.irqOn), |populated|)
                         + Releases(populated, old(cpu.irqOn), |populated|)
    ensures Stores(buffer, 2 * |Flatten(seen)|, Flatten(seen))
    ensures mailbox.writes == old(mailbox.writes) + Publication(bufferAddress, |Flatten(seen)|, elapsed)
    ensures mailbox.words == Published(old(mailbox.words), bufferAddress, |Flatten(seen)|, elapsed)
  {
    hide ZoneShows, Flatten, Acquisitions, Releases, Publication, Published;
    var nrZones := 0;
    for i := 0 to |nodes|
      invariant nrZones == if i == 0 then 0 else nodes[i - 1]
    {
      nrZones := nodes[i];
    }
    var flags := new bool[nrZones];
    var zones := new Zone?[nrZones](_ => null);
    var k := LockAll(populated, zones, flags, cpu);
    var count := WalkZones(mem, walk, populated, buffer, seen);
    Publish(mailbox, bufferAddress, count / 2, elapsed);
    k := UnlockAll(populated, zones, flags, cpu, k, old(cpu.irqOn));
  }
}
