/** The snapshot handler interleaved, one memory access at a time, with page
    allocation on the other processors.

    Allocators take a zone's lock with interrupts saved and disabled, may change
    that zone's lists in any way while they hold it, and leave the zone consistent
    when they release it. Managed-page counts may change without any lock, but a
    zone that has free blocks has managed pages. The host may write any word of
    the window at any time. The handler is entered on a processor whose interrupts
    are enabled; nothing else runs there until it leaves. */
module SnapshotMachine {
  import opened Words
  import opened FreeLists
  import opened Mailboxes
  import opened Buddy
  import Snapshot

  datatype Owner = Nobody | Handler | Allocator(cpu: nat)
  datatype Thread = Quiet | Spinning(zone: nat, saved: bool) | Holding(zone: nat, saved: bool)

  datatype LockStep = Took(zone: nat, saved: bool) | Gave(zone: nat, restored: bool)

  datatype Phase =
    | Off
    | Locking(k: nat)                                    // k locks held
    | Spin(k: nat)                                       // flags saved, waiting for lock k
    | AtZone(z: nat)
    | AtList(z: nat, order: nat, kind: nat, index: nat)  // next list element to read
    | Publishing(p: nat)                                 // p payload words written
    | Unlocking(k: nat)                                  // k locks still held

  /** `over` are the words of the announcement that the host has written since the
      handler stored them, `locks` what the handler did to locks. */
  datatype State = State(
    zones: seq<Zone>, owner: seq<Owner>, thread: seq<Thread>, irqOn: seq<bool>,
    phase: Phase, home: nat, flags: seq<bool>, records: seq<Record>,
    words: seq<u32>, over: map<nat, u32>, locks: seq<LockStep>)

  /** Fixed for a run: processors, zone spans, and the buffer's address. */
  datatype Config = Config(cpus: nat, spans: seq<Span>, address: u64)

  datatype Action =
    // allocator and the rest of the kernel
    | Acquire(cpu: nat, zone: nat)
    | Take(cpu: nat)
    | Change(cpu: nat, content: Zone)
    | Release(cpu: nat)
    | SetIrq(cpu: nat, on: bool)
    | SetManaged(zone: nat, managed: nat)
    // host
    | HostWrite(word: nat, value: u32)
    // handler
    | Enter(cpu: nat)
    | SaveFlags
    | TakeLock
    | StartWalk
    | VisitZone
    | ReadNode
    | NextList
    | NextOrder
    | LeaveZone
    | EndWalk
    | PublishWord
    | RingDoorbell(elapsed: u32)
    | Unlock
    | Leave

  ghost predicate Init(c: Config, s: State) {
    && |s.zones| == |s.owner| == |c.spans| && |s.thread| == |s.irqOn| == c.cpus
    && (forall z :: 0 <= z < |s.owner| ==> s.owner[z] == Nobody)
    && (forall p :: 0 <= p < c.cpus ==> s.thread[p] == Quiet)
    && AllConsistent(s.zones, c.spans)
    && s.phase == Off && |s.words| >= WINDOW_WORDS && s.locks == []
  }

  /** A thread of the processor can run: the handler does not occupy it. */
  predicate Free(s: State, cpu: nat) {
    cpu < |s.thread| && (s.phase == Off || cpu != s.home)
  }

  ghost predicate Enabled(c: Config, s: State, a: Action) {
    match a
    case Acquire(cpu, zone) => Free(s, cpu) && s.thread[cpu] == Quiet && zone < |s.zones|
    case Take(cpu) =>
      && Free(s, cpu) && s.thread[cpu].Spinning?
      && s.thread[cpu].zone < |s.owner| && s.owner[s.thread[cpu].zone] == Nobody
    case Change(cpu, content) => Free(s, cpu) && s.thread[cpu].Holding?
    case Release(cpu) =>
      && Free(s, cpu) && s.thread[cpu].Holding?
      && s.thread[cpu].zone < |s.zones| == |c.spans|
      && Consistent(s.zones[s.thread[cpu].zone], c.spans[s.thread[cpu].zone])
    case SetIrq(cpu, on) => Free(s, cpu) && s.thread[cpu] == Quiet
    case SetManaged(zone, managed) => zone < |s.zones| && (managed == 0 ==> NoLists(s.zones[zone].free))
    case HostWrite(word, _) => word < |s.words|
    case Enter(cpu) => s.phase == Off && cpu < |s.irqOn| && s.irqOn[cpu]
    case SaveFlags => s.phase.Locking? && s.phase.k < |s.zones|
    case TakeLock => s.phase.Spin? && s.phase.k < |s.owner| && s.owner[s.phase.k] == Nobody
    case StartWalk => s.phase == Locking(|s.zones|)
    case VisitZone => s.phase.AtZone? && s.phase.z < |s.zones|
    case ReadNode => InList(s.zones, s.phase) && s.phase.index < |Nodes(s.zones, s.phase)|
    case NextList => InList(s.zones, s.phase) && s.phase.index == |Nodes(s.zones, s.phase)|
    case NextOrder => InArea(s.zones, s.phase) && s.phase.kind == |CurrentArea(s.zones, s.phase)|
    case LeaveZone => s.phase.AtList? && s.phase.order == MAX_ORDER
    case EndWalk => s.phase == AtZone(|s.zones|)
    case PublishWord => s.phase.Publishing? && s.phase.p < 4
    case RingDoorbell(_) => s.phase == Publishing(4)
    case Unlock => s.phase.Unlocking? && s.phase.k > 0
    case Leave => s.phase == Unlocking(0)
  }

  /** The order being walked exists. */
  predicate InArea(zones: seq<Zone>, phase: Phase) {
    phase.AtList? && phase.z < |zones| && phase.order < MAX_ORDER
  }

  function CurrentArea(zones: seq<Zone>, phase: Phase): Area
    requires InArea(zones, phase)
  {
    zones[phase.z].free[phase.order]
  }

  /** The list being walked exists. */
  predicate InList(zones: seq<Zone>, phase: Phase) {
    InArea(zones, phase) && phase.kind < |CurrentArea(zones, phase)|
  }

  function Nodes(zones: seq<Zone>, phase: Phase): seq<u64>
    requires InList(zones, phase)
  {
    CurrentArea(zones, phase)[phase.kind]
  }

  function PublishedWord(address: u64, records: seq<Record>, p: nat): u32 {
    Snapshot.AnnouncedWord(address, Unsigned32(|records|), p)
  }

  /** Sizes that every step needs and keeps. */
  ghost predicate Sized(c: Config, s: State) {
    && |s.zones| == |s.owner| == |c.spans| && |s.thread| == |s.irqOn| == c.cpus
    && |s.words| >= WINDOW_WORDS
    && (forall p :: 0 <= p < c.cpus && !s.thread[p].Quiet? ==> s.thread[p].zone < |s.zones|)
    && (s.phase != Off ==> s.home < c.cpus)
    && (s.phase.Unlocking? ==> s.phase.k <= |s.flags| && s.phase.k <= |s.zones|)
  }

  /** Steps of the allocator, the rest of the kernel and the host. */
  predicate IsKernel(a: Action) {
    a.Acquire? || a.Take? || a.Change? || a.Release? || a.SetIrq? || a.SetManaged? || a.HostWrite?
  }

  /** A word the handler has already stored for the coming announcement. */
  predicate IsAnnounced(phase: Phase, word: nat) {
    phase.Publishing? && 4 <= word < 4 + phase.p
  }

  ghost function Kernel(c: Config, s: State, a: Action): State
    requires Sized(c, s) && IsKernel(a) && Enabled(c, s, a)
  {
    match a
    case Acquire(cpu, zone) =>
      s.(thread := s.thread[cpu := Spinning(zone, s.irqOn[cpu])], irqOn := s.irqOn[cpu := false])
    case Take(cpu) =>
      var z := s.thread[cpu].zone;
      s.(thread := s.thread[cpu := Holding(z, s.thread[cpu].saved)], owner := s.owner[z := Allocator(cpu)])
    case Change(cpu, content) =>
      s.(zones := s.zones[s.thread[cpu].zone := content])
    case Release(cpu) =>
      s.(owner := s.owner[s.thread[cpu].zone := Nobody], irqOn := s.irqOn[cpu := s.thread[cpu].saved],
         thread := s.thread[cpu := Quiet])
    case SetIrq(cpu, on) => s.(irqOn := s.irqOn[cpu := on])
    case SetManaged(zone, managed) => s.(zones := s.zones[zone := s.zones[zone].(managed := managed)])
    case HostWrite(word, value) =>
      s.(words := s.words[word := value], over := if IsAnnounced(s.phase, word) then s.over[word := value] else s.over)
  }

  function FlagAt(flags: seq<bool>, k: nat): bool {
    k < |flags| && flags[k]
  }

  /** Steps of the handler. */
  ghost function Handle(c: Config, s: State, a: Action): State
    requires Sized(c, s) && !IsKernel(a) && Enabled(c, s, a)
  {
    match a
    case Enter(cpu) => s.(phase := Locking(0), home := cpu, irqOn := s.irqOn[cpu := false], flags := [], records := [])
    case SaveFlags =>
      s.(flags := s.flags + [s.irqOn[s.home]], irqOn := s.irqOn[s.home := false], phase := Spin(s.phase.k))
    case TakeLock =>
      s.(owner := s.owner[s.phase.k := Handler], phase := Locking(s.phase.k + 1),
         locks := s.locks + [Took(s.phase.k, FlagAt(s.flags, s.phase.k))])
    case StartWalk => s.(phase := AtZone(0))
    case VisitZone =>
      if s.zones[s.phase.z].managed == 0 then s.(phase := AtZone(s.phase.z + 1))
      else s.(phase := AtList(s.phase.z, 0, 0, 0))
    case ReadNode =>
      var pfn := Nodes(s.zones, s.phase)[s.phase.index];
      s.(records := s.records + [Record(PfnPhys(pfn), s.phase.order)], phase := s.phase.(index := s.phase.index + 1))
    case NextList => s.(phase := s.phase.(kind := s.phase.kind + 1, index := 0))
    case NextOrder => s.(phase := s.phase.(order := s.phase.order + 1, kind := 0, index := 0))
    case LeaveZone => s.(phase := AtZone(s.phase.z + 1))
    case EndWalk => s.(phase := Publishing(0), over := map[])
    case PublishWord =>
      var p := s.phase.p;
      s.(words := s.words[4 + p := PublishedWord(c.address, s.records, p)], phase := Publishing(p + 1))
    case RingDoorbell(elapsed) => s.(words := s.words[2 := elapsed], phase := Unlocking(|s.zones|))
    case Unlock =>
      var k := s.phase.k - 1;
      s.(owner := s.owner[k := Nobody], irqOn := s.irqOn[s.home := s.flags[k]], phase := Unlocking(k),
         locks := s.locks + [Gave(k, s.flags[k])])
    case Leave => s.(irqOn := s.irqOn[s.home := true], phase := Off)
  }

  ghost function Do(c: Config, s: State, a: Action): State
    requires Sized(c, s) && Enabled(c, s, a)
  {
    if IsKernel(a) then Kernel(c, s, a) else Handle(c, s, a)
  }

  /** `s` is reached by `run` from a state in which nobody holds a lock. */
  ghost predicate Reaches(c: Config, run: seq<Action>, s: State) {
    if run == [] then Init(c, s)
    else exists before: State ::
      && Reaches(c, run[..|run| - 1], before)
      && Sized(c, before) && Enabled(c, before, run[|run| - 1])
      && s == Do(c, before, run[|run| - 1])
  }

  /** How many flags have been saved, and whether the handler holds zone `z`, of
      `n` zones. */
  function Saved(phase: Phase, n: nat): nat {
    match phase
    case Off => 0
    case Locking(k) => k
    case Spin(k) => k + 1
    case Unlocking(k) => k
    case _ => n
  }

  predicate HandlerHolds(phase: Phase, n: nat, z: nat) {
    match phase
    case Off => false
    case Locking(k) => z < k
    case Spin(k) => z < k
    case Unlocking(k) => z < k
    case _ => z < n
  }

  /** Threads that hold or want a lock run with interrupts off, and own exactly the
      locks they hold. */
  ghost predicate ThreadInv(thread: seq<Thread>, irqOn: seq<bool>, owner: seq<Owner>) {
    && |thread| == |irqOn|
    && (forall p :: 0 <= p < |thread| && !thread[p].Quiet? ==> thread[p].zone < |owner| && !irqOn[p])
    && (forall p :: 0 <= p < |thread| && thread[p].Holding? ==> owner[thread[p].zone] == Allocator(p))
    && (forall z :: 0 <= z < |owner| && owner[z].Allocator? ==>
          owner[z].cpu < |thread| && thread[owner[z].cpu].Holding? && thread[owner[z].cpu].zone == z)
  }

  ghost predicate HandlerLocks(owner: seq<Owner>, phase: Phase) {
    forall z :: 0 <= z < |owner| ==> (owner[z] == Handler <==> HandlerHolds(phase, |owner|, z))
  }

  /** The handler's processor: nothing else runs there and interrupts stay off, so
      every saved flag says off. */
  ghost predicate HomeInv(thread: seq<Thread>, irqOn: seq<bool>, phase: Phase, home: nat, flags: seq<bool>, n: nat) {
    phase != Off ==>
      && home < |thread| == |irqOn| && thread[home] == Quiet && !irqOn[home]
      && |flags| >= Saved(phase, n)
      && (phase.Locking? || phase.Spin? ==> |flags| == Saved(phase, n) <= n)
      && (phase.Unlocking? ==> phase.k <= n)
      && forall i :: 0 <= i < |flags| ==> !flags[i]
  }

  /** Zones no allocator is working on are consistent. */
  ghost predicate ZoneInv(zones: seq<Zone>, spans: seq<Span>, owner: seq<Owner>) {
    && |zones| == |spans| == |owner|
    && forall z :: 0 <= z < |zones| && !owner[z].Allocator? ==> Consistent(zones[z], spans[z])
  }

  /** The records the walk should have collected at its current position. */
  function Prefix(zones: seq<Zone>, phase: Phase): seq<Record> {
    match phase
    case AtZone(z) => if z <= |zones| then Blocks(zones, z) else []
    case AtList(z, order, kind, index) =>
      if z < |zones| && order <= MAX_ORDER
      then Blocks(zones, z) + ZonePrefix(zones[z].free, order, kind, index)
      else []
    case Publishing(_) => Blocks(zones, |zones|)
    case _ => []
  }

  function ZonePrefix(free: Orders, order: nat, kind: nat, index: nat): seq<Record>
    requires order <= MAX_ORDER
  {
    OfOrders(free, order) + if order < MAX_ORDER then AreaPrefix(order, free[order], kind, index) else []
  }

  function AreaPrefix(order: u64, area: Area, kind: nat, index: nat): seq<Record> {
    if kind < |area| then
      OfTypes(order, area, kind) + if index <= |area[kind]| then OfList(order, area[kind][..index]) else []
    else OfArea(order, area)
  }

  ghost predicate WalkInv(zones: seq<Zone>, phase: Phase, records: seq<Record>) {
    && (phase.AtZone? ==> phase.z <= |zones|)
    && (phase.AtList? ==> phase.z < |zones| && phase.order <= MAX_ORDER)
    && (InArea(zones, phase) ==> phase.kind <= |CurrentArea(zones, phase)|)
    && (InList(zones, phase) ==> phase.index <= |Nodes(zones, phase)|)
    && (phase.Locking? || phase.Spin? ==> records == [])
    && (phase.AtZone? || phase.AtList? || phase.Publishing? ==> records == Prefix(zones, phase))
  }

  ghost predicate WordsInv(address: u64, phase: Phase, records: seq<Record>, words: seq<u32>, over: map<nat, u32>) {
    phase.Publishing? ==>
      && |words| >= WINDOW_WORDS && phase.p <= 4
      && (forall k :: k in over ==> IsAnnounced(phase, k))
      && forall k :: 4 <= k < 4 + phase.p ==>
           words[k] == if k in over then over[k] else PublishedWord(address, records, k - 4)
  }

  ghost predicate Inv(c: Config, s: State) {
    && Sized(c, s)
    && ThreadInv(s.thread, s.irqOn, s.owner)
    && HandlerLocks(s.owner, s.phase)
    && HomeInv(s.thread, s.irqOn, s.phase, s.home, s.flags, |s.zones|)
    && ZoneInv(s.zones, c.spans, s.owner)
    && WalkInv(s.zones, s.phase, s.records)
    && WordsInv(c.address, s.phase, s.records, s.words, s.over)
  }

  // Kernel steps

  lemma AcquireKeeps(c: Config, s: State, cpu: nat, zone: nat)
    requires Inv(c, s) && Enabled(c, s, Acquire(cpu, zone))
    ensures Inv(c, Kernel(c, s, Acquire(cpu, zone)))
  {
  }

  lemma TakeKeeps(c: Config, s: State, cpu: nat)
    requires Inv(c, s) && Enabled(c, s, Take(cpu))
    ensures Inv(c, Kernel(c, s, Take(cpu)))
  {
  }

  lemma ChangeKeeps(c: Config, s: State, cpu: nat, content: Zone)
    requires Inv(c, s) && Enabled(c, s, Change(cpu, content))
    ensures Inv(c, Kernel(c, s, Change(cpu, content)))
  {
    assert !HandlerHolds(s.phase, |s.zones|, s.thread[cpu].zone);
  }

  lemma ReleaseKeeps(c: Config, s: State, cpu: nat)
    requires Inv(c, s) && Enabled(c, s, Release(cpu))
    ensures Inv(c, Kernel(c, s, Release(cpu)))
  {
  }

  lemma SetIrqKeeps(c: Config, s: State, cpu: nat, on: bool)
    requires Inv(c, s) && Enabled(c, s, SetIrq(cpu, on))
    ensures Inv(c, Kernel(c, s, SetIrq(cpu, on)))
  {
  }

  lemma {:induction false} ManagedDoesNotMatter(a: seq<Zone>, b: seq<Zone>, n: nat)
    requires |a| == |b| && n <= |a| && forall z :: 0 <= z < |a| ==> a[z].free == b[z].free
    ensures Blocks(a, n) == Blocks(b, n)
    decreases n
  {
    if n > 0 {
      ManagedDoesNotMatter(a, b, n - 1);
    }
  }

  lemma SameWalk(a: seq<Zone>, b: seq<Zone>, phase: Phase, records: seq<Record>)
    requires |a| == |b| && forall z :: 0 <= z < |a| ==> a[z].free == b[z].free
    requires WalkInv(a, phase, records)
    ensures WalkInv(b, phase, records)
  {
    if phase.AtZone? || phase.AtList? {
      ManagedDoesNotMatter(a, b, phase.z);
    } else {
      ManagedDoesNotMatter(a, b, |a|);
    }
  }

  lemma SetManagedKeeps(c: Config, s: State, zone: nat, managed: nat)
    requires Inv(c, s) && Enabled(c, s, SetManaged(zone, managed))
    ensures Inv(c, Kernel(c, s, SetManaged(zone, managed)))
  {
    SameWalk(s.zones, Kernel(c, s, SetManaged(zone, managed)).zones, s.phase, s.records);
  }

  lemma HostWriteKeeps(c: Config, s: State, word: nat, value: u32)
    requires Inv(c, s) && Enabled(c, s, HostWrite(word, value))
    ensures Inv(c, Kernel(c, s, HostWrite(word, value)))
  {
  }

  lemma KernelKeeps(c: Config, s: State, a: Action)
    requires Inv(c, s) && IsKernel(a) && Enabled(c, s, a)
    ensures Inv(c, Kernel(c, s, a))
  {
    match a
    case Acquire(cpu, zone) => AcquireKeeps(c, s, cpu, zone);
    case Take(cpu) => TakeKeeps(c, s, cpu);
    case Change(cpu, content) => ChangeKeeps(c, s, cpu, content);
    case Release(cpu) => ReleaseKeeps(c, s, cpu);
    case SetIrq(cpu, on) => SetIrqKeeps(c, s, cpu, on);
    case SetManaged(zone, managed) => SetManagedKeeps(c, s, zone, managed);
    case HostWrite(word, value) => HostWriteKeeps(c, s, word, value);
  }

  // Handler steps

  lemma EnterKeeps(c: Config, s: State, cpu: nat)
    requires Inv(c, s) && Enabled(c, s, Enter(cpu))
    ensures Inv(c, Handle(c, s, Enter(cpu)))
  {
  }

  lemma SaveFlagsKeeps(c: Config, s: State)
    requires Inv(c, s) && Enabled(c, s, SaveFlags)
    ensures Inv(c, Handle(c, s, SaveFlags))
  {
  }

  lemma TakeLockKeeps(c: Config, s: State)
    requires Inv(c, s) && Enabled(c, s, TakeLock)
    ensures Inv(c, Handle(c, s, TakeLock))
  {
  }

  lemma StartWalkKeeps(c: Config, s: State)
    requires Inv(c, s) && Enabled(c, s, StartWalk)
    ensures Inv(c, Handle(c, s, StartWalk))
  {
  }

  lemma VisitZoneWalk(zones: seq<Zone>, z: nat, records: seq<Record>)
    requires WalkInv(zones, AtZone(z), records) && z < |zones|
    requires zones[z].managed == 0 ==> NoLists(zones[z].free)
    ensures WalkInv(zones, if zones[z].managed == 0 then AtZone(z + 1) else AtList(z, 0, 0, 0), records)
  {
    hide NoLists;
    if zones[z].managed == 0 {
      EmptyOrders(zones[z].free, MAX_ORDER);
    } else {
      AreaStart(0, zones[z].free[0]);
    }
  }

  lemma HeldHasManagedPages(zones: seq<Zone>, spans: seq<Span>, owner: seq<Owner>, phase: Phase, z: nat)
    requires ZoneInv(zones, spans, owner) && HandlerLocks(owner, phase) && z < |zones|
    requires HandlerHolds(phase, |owner|, z)
    ensures zones[z].managed == 0 ==> NoLists(zones[z].free)
  {
    assert Consistent(zones[z], spans[z]);
  }

  lemma VisitZoneKeeps(c: Config, s: State)
    requires Inv(c, s) && Enabled(c, s, VisitZone)
    ensures Inv(c, Handle(c, s, VisitZone))
  {
    hide ThreadInv, ZoneInv, WalkInv, Consistent, NoLists;
    HeldHasManagedPages(s.zones, c.spans, s.owner, s.phase, s.phase.z);
    VisitZoneWalk(s.zones, s.phase.z, s.records);
  }

  lemma ReadOne(order: u64, area: Area, kind: nat, i: nat)
    requires kind < |area| && i < |area[kind]|
    ensures AreaPrefix(order, area, kind, i + 1) ==
            AreaPrefix(order, area, kind, i) + [Record(PfnPhys(area[kind][i]), order)]
  {
    var list := area[kind];
    assert OfList(order, list[..i + 1]) == OfList(order, list[..i]) + [Record(PfnPhys(list[i]), order)];
  }

  lemma NextKind(order: u64, area: Area, kind: nat)
    requires kind < |area|
    ensures AreaPrefix(order, area, kind + 1, 0) == AreaPrefix(order, area, kind, |area[kind]|)
  {
    var list := area[kind];
    assert list[..|list|] == list;
    if kind + 1 < |area| {
      assert OfTypes(order, area, kind + 1) + OfList(order, area[kind + 1][..0]) == OfTypes(order, area, kind + 1);
    }
  }

  lemma AreaStart(order: u64, area: Area)
    ensures AreaPrefix(order, area, 0, 0) == []
  {
    if area != [] {
      assert OfList(order, area[0][..0]) == [];
    }
  }

  lemma OrderDone(free: Orders, order: nat)
    requires order < MAX_ORDER
    ensures ZonePrefix(free, order + 1, 0, 0) == ZonePrefix(free, order, |free[order]|, 0)
  {
    if order + 1 < MAX_ORDER {
      AreaStart(order + 1, free[order + 1]);
    }
  }

  lemma ReadNodeWalk(zones: seq<Zone>, phase: Phase, records: seq<Record>)
    requires WalkInv(zones, phase, records) && InList(zones, phase) && phase.index < |Nodes(zones, phase)|
    ensures WalkInv(zones, phase.(index := phase.index + 1),
                    records + [Record(PfnPhys(Nodes(zones, phase)[phase.index]), phase.order)])
  {
    var order, kind, i := phase.order, phase.kind, phase.index;
    var area := CurrentArea(zones, phase);
    ReadOne(order, area, kind, i);
    AppendInside(Blocks(zones, phase.z), OfOrders(zones[phase.z].free, order), AreaPrefix(order, area, kind, i),
                 [Record(PfnPhys(area[kind][i]), order)]);
  }

  lemma AppendInside(a: seq<Record>, b: seq<Record>, c: seq<Record>, d: seq<Record>)
    ensures a + (b + (c + d)) == a + (b + c) + d
  {
  }

  lemma ReadNodeKeeps(c: Config, s: State)
    requires Inv(c, s) && Enabled(c, s, ReadNode)
    ensures Inv(c, Handle(c, s, ReadNode))
  {
    hide ThreadInv, ZoneInv, WalkInv, Prefix;
    ReadNodeWalk(s.zones, s.phase, s.records);
  }

  lemma NextListWalk(zones: seq<Zone>, phase: Phase, records: seq<Record>)
    requires WalkInv(zones, phase, records) && InList(zones, phase) && phase.index == |Nodes(zones, phase)|
    ensures WalkInv(zones, phase.(kind := phase.kind + 1, index := 0), records)
  {
    NextKind(phase.order, CurrentArea(zones, phase), phase.kind);
  }

  lemma NextListKeeps(c: Config, s: State)
    requires Inv(c, s) && Enabled(c, s, NextList)
    ensures Inv(c, Handle(c, s, NextList))
  {
    hide ThreadInv, ZoneInv, WalkInv, Prefix;
    NextListWalk(s.zones, s.phase, s.records);
  }

  lemma NextOrderWalk(zones: seq<Zone>, phase: Phase, records: seq<Record>)
    requires WalkInv(zones, phase, records) && InArea(zones, phase) && phase.kind == |CurrentArea(zones, phase)|
    ensures WalkInv(zones, phase.(order := phase.order + 1, kind := 0, index := 0), records)
  {
    OrderDone(zones[phase.z].free, phase.order);
  }

  lemma NextOrderKeeps(c: Config, s: State)
    requires Inv(c, s) && Enabled(c, s, NextOrder)
    ensures Inv(c, Handle(c, s, NextOrder))
  {
    hide ThreadInv, ZoneInv, WalkInv, Prefix;
    NextOrderWalk(s.zones, s.phase, s.records);
  }

  lemma LeaveZoneKeeps(c: Config, s: State)
    requires Inv(c, s) && Enabled(c, s, LeaveZone)
    ensures Inv(c, Handle(c, s, LeaveZone))
  {
    hide ThreadInv;
  }

  lemma EndWalkKeeps(c: Config, s: State)
    requires Inv(c, s) && Enabled(c, s, EndWalk)
    ensures Inv(c, Handle(c, s, EndWalk))
  {
    hide ThreadInv;
  }

  lemma PublishingKeeps(c: Config, s: State)
    requires Inv(c, s) && Enabled(c, s, PublishWord)
    ensures Inv(c, Handle(c, s, PublishWord))
  {
    hide ThreadInv, ZoneInv;
  }

  lemma RingDoorbellKeeps(c: Config, s: State, elapsed: u32)
    requires Inv(c, s) && Enabled(c, s, RingDoorbell(elapsed))
    ensures Inv(c, Handle(c, s, RingDoorbell(elapsed)))
  {
  }

  lemma NothingToWalk(zones: seq<Zone>, phase: Phase, address: u64, records: seq<Record>, words: seq<u32>,
                      over: map<nat, u32>)
    requires phase.Unlocking?
    ensures WalkInv(zones, phase, records) && WordsInv(address, phase, records, words, over)
  {
  }

  lemma UnlockKeeps(c: Config, s: State)
    requires Inv(c, s) && Enabled(c, s, Unlock)
    ensures Inv(c, Handle(c, s, Unlock))
  {
    hide WalkInv, WordsInv, Consistent;
    NothingToWalk(s.zones, Unlocking(s.phase.k - 1), c.address, s.records, s.words, s.over);
  }

  lemma LeaveKeeps(c: Config, s: State)
    requires Inv(c, s) && Enabled(c, s, Leave)
    ensures Inv(c, Handle(c, s, Leave))
  {
  }

  lemma HandlerKeeps(c: Config, s: State, a: Action)
    requires Inv(c, s) && !IsKernel(a) && Enabled(c, s, a)
    ensures Inv(c, Handle(c, s, a))
  {
    match a
    case Enter(cpu) => EnterKeeps(c, s, cpu);
    case SaveFlags => SaveFlagsKeeps(c, s);
    case TakeLock => TakeLockKeeps(c, s);
    case StartWalk => StartWalkKeeps(c, s);
    case VisitZone => VisitZoneKeeps(c, s);
    case ReadNode => ReadNodeKeeps(c, s);
    case NextList => NextListKeeps(c, s);
    case NextOrder => NextOrderKeeps(c, s);
    case LeaveZone => LeaveZoneKeeps(c, s);
    case EndWalk => EndWalkKeeps(c, s);
    case PublishWord => PublishingKeeps(c, s);
    case RingDoorbell(elapsed) => RingDoorbellKeeps(c, s, elapsed);
    case Unlock => UnlockKeeps(c, s);
    case Leave => LeaveKeeps(c, s);
  }

  lemma {:induction false} InvariantHolds(c: Config, run: seq<Action>, s: State)
    requires Reaches(c, run, s)
    ensures Inv(c, s)
  {
    if run != [] {
      var a := run[|run| - 1];
      var before: State :| && Reaches(c, run[..|run| - 1], before) && Sized(c, before) && Enabled(c, before, a)
                           && s == Do(c, before, a);
      InvariantHolds(c, run[..|run| - 1], before);
      if IsKernel(a) {
        KernelKeeps(c, before, a);
      } else {
        HandlerKeeps(c, before, a);
      }
    }
  }
}
