/** What holds at the doorbell, and who can wait for whom, in every interleaving. */
module SnapshotSafety {
  import opened Words
  import opened FreeLists
  import opened Mailboxes
  import opened Buddy
  import opened SnapshotMachine
  import Snapshot

  lemma BlocksAreFlattened(zones: seq<Zone>, spans: seq<Span>)
    requires AllConsistent(zones, spans)
    ensures Blocks(zones, |zones|) == Flatten(ListsOf(zones))
  {
    SkippingLosesNothing(zones, spans, |zones|);
  }

  /** The machine does not hold anyone back: off the handler's processor an
      allocator's step depends on its own position and the locks, whatever the
      handler is doing, and managed counts and the window can change at any time. */
  lemma OthersRunFreely(c: Config, s: State, t: State, a: Action)
    requires IsKernel(a) && s.zones == t.zones && s.owner == t.owner && s.thread == t.thread && |s.words| == |t.words|
    requires a.Acquire? || a.Take? || a.Change? || a.Release? || a.SetIrq? ==>
      (s.phase == Off || a.cpu != s.home) && (t.phase == Off || a.cpu != t.home)
    ensures Enabled(c, s, a) <==> Enabled(c, t, a)
  {
    hide Consistent, NoLists;
  }

  /** Any consistent zones, interrupt states and window contents may come first. */
  lemma AnyStateIsInitial(c: Config, zones: seq<Zone>, irqOn: seq<bool>, words: Window)
    requires AllConsistent(zones, c.spans) && |irqOn| == c.cpus
    ensures Init(c, State(zones, seq(|zones|, _ => Nobody), seq(c.cpus, _ => Quiet), irqOn, Off, 0, [], [], words,
                          map[], []))
  {
  }

  /** Snapshot atomicity: in every interleaving, when the handler is about to ring
      the doorbell the records are the flattening of all zones' free lists in that
      very state, and every zone is then consistent. */
  lemma SnapshotIsAtomic(c: Config, run: seq<Action>, s: State, elapsed: u32)
    requires Reaches(c, run, s) && Enabled(c, s, RingDoorbell(elapsed))
    ensures AllConsistent(s.zones, c.spans)
    ensures s.records == Blocks(s.zones, |s.zones|) == Flatten(ListsOf(s.zones))
  {
    hide Reaches, ThreadInv, HomeInv, WordsInv, Consistent, Flatten;
    InvariantHolds(c, run, s);
    assert forall z :: 0 <= z < |s.zones| ==> HandlerHolds(s.phase, |s.owner|, z);
    BlocksAreFlattened(s.zones, c.spans);
  }

  lemma WordOfHeader(w: u32)
    ensures HeaderWord(HeaderOf(w)) == w
  {
  }

  lemma WordsAnnounce(address: u64, records: seq<Record>, words: seq<u32>, over: map<nat, u32>, elapsed: u32)
    requires WordsInv(address, Publishing(4), records, words, over)
    requires |records| <= MIGRATION_BUFFER_SIZE / 16
    ensures Snapshot.Announces(words[2 := elapsed], address, |records|) <==> Undisturbed(address, records, over)
  {
    HeaderRoundTrip(Header(DEFAULT_VERSION, FIRST_ROUND_MIGRATION, 12));
    WordOfHeader(words[4]);
    hide HeaderWord, HeaderOf;
    Snapshot.HalvesAreExact(address, words[5], words[6]);
    assert forall k :: 4 <= k < 8 ==> words[2 := elapsed][k] == words[k];
  }

  /** Whatever the host wrote over stored words is what the handler had stored. */
  ghost predicate Undisturbed(address: u64, records: seq<Record>, over: map<nat, u32>) {
    forall k :: k in over && 4 <= k < 8 ==> over[k] == PublishedWord(address, records, k - 4)
  }

  /** What the host finds when the doorbell rings: the header, the buffer's address
      in two halves, and the number of records if they fit the buffer, exactly
      when the host itself has not changed a word since the handler stored it. */
  lemma PublishedWordsAreRight(c: Config, run: seq<Action>, s: State, elapsed: u32)
    requires Reaches(c, run, s) && Sized(c, s) && Enabled(c, s, RingDoorbell(elapsed))
    requires |s.records| <= MIGRATION_BUFFER_SIZE / 16
    ensures Snapshot.Announces(Do(c, s, RingDoorbell(elapsed)).words, c.address, |Flatten(ListsOf(s.zones))|)
      <==> Undisturbed(c.address, s.records, s.over)
  {
    InvariantHolds(c, run, s);
    WordsAnnounce(c.address, s.records, s.words, s.over, elapsed);
    SnapshotIsAtomic(c, run, s, elapsed);
  }

  /** Hence at the doorbell the records describe pairwise disjoint, aligned ranges
      whose union is exactly the pages free at that moment, and whose size is the
      total the allocator counts. */
  lemma EveryReportedPageIsFree(c: Config, run: seq<Action>, s: State, elapsed: u32)
    requires Reaches(c, run, s) && Enabled(c, s, RingDoorbell(elapsed)) && Separate(c.spans)
    ensures PairwiseDisjoint(s.records) && AlignedRecords(s.records)
    ensures forall page: nat :: IsFree(s.zones, |s.zones|, page) <==>
      exists i :: 0 <= i < |s.records| && RecordCovers(s.records[i], page)
    ensures PagesIn(s.records) == AllCounted(s.zones, |s.zones|)
  {
    SnapshotIsAtomic(c, run, s, elapsed);
    RecordsAreTheFreePages(s.zones, c.spans);
    RecordsAreAligned(s.zones, c.spans, |s.zones|);
  }

  /** Whenever the handler is not active it holds no lock, and whenever it is, its
      processor runs nothing else and has interrupts off. */
  lemma HandlerLeavesNoLock(c: Config, run: seq<Action>, s: State)
    requires Reaches(c, run, s)
    ensures s.phase == Off ==> forall z :: 0 <= z < |s.owner| ==> s.owner[z] != Handler
    ensures s.phase != Off ==> s.home < |s.thread| == |s.irqOn| && s.thread[s.home] == Quiet && !s.irqOn[s.home]
  {
    InvariantHolds(c, run, s);
  }

  function Tooks(n: nat): seq<LockStep> {
    seq(n, i requires 0 <= i < n => Took(i, false))
  }

  /** The first `m` releases of `n` locks, last lock first. */
  function Gaves(n: nat, m: nat): seq<LockStep>
    requires m <= n
  {
    seq(m, i requires 0 <= i < m => Gave(n - 1 - i, false))
  }

  /** The lock steps of a whole run over `n` zones. */
  function LockSteps(n: nat): (steps: seq<LockStep>)
    ensures forall i :: 0 <= i < |steps| ==> steps[i].zone < n
  {
    Tooks(n) + Gaves(n, n)
  }

  function Rounds(n: nat, r: nat): seq<LockStep> {
    if r == 0 then [] else Rounds(n, r - 1) + LockSteps(n)
  }

  /** The lock steps of the round under way. */
  function StepsSoFar(phase: Phase, n: nat): seq<LockStep> {
    match phase
    case Off => []
    case Locking(k) => Tooks(k)
    case Spin(k) => Tooks(k)
    case Unlocking(k) => Tooks(n) + if k <= n then Gaves(n, n - k) else []
    case _ => Tooks(n)
  }

  lemma OneMoreTook(k: nat)
    ensures Tooks(k + 1) == Tooks(k) + [Took(k, false)]
  {
  }

  lemma OneMoreGave(n: nat, k: nat)
    requires 0 < k <= n
    ensures Gaves(n, n - (k - 1)) == Gaves(n, n - k) + [Gave(k - 1, false)]
  {
  }

  lemma LocksAfterStep(c: Config, s: State, a: Action, r: nat) returns (q: nat)
    requires Inv(c, s) && Enabled(c, s, a) && s.locks == Rounds(|s.zones|, r) + StepsSoFar(s.phase, |s.zones|)
    ensures Do(c, s, a).locks == Rounds(|s.zones|, q) + StepsSoFar(Do(c, s, a).phase, |s.zones|)
  {
    hide ThreadInv, HandlerLocks, ZoneInv, WalkInv, WordsInv, Tooks, Gaves, Rounds;
    var n := |s.zones|;
    q := r;
    if a.TakeLock? {
      OneMoreTook(s.phase.k);
    } else if a.Unlock? {
      OneMoreGave(n, s.phase.k);
    } else if a.Enter? {
      NoStepsYet(n);
    } else if a.RingDoorbell? {
      NoStepsYet(n);
    } else if a.Leave? {
      q := r + 1;
      RoundDone(n, r);
    }
  }

  lemma NoStepsYet(n: nat)
    ensures Tooks(0) == [] && Gaves(n, 0) == []
  {
  }

  lemma RoundDone(n: nat, r: nat)
    ensures Rounds(n, r + 1) == Rounds(n, r) + (Tooks(n) + Gaves(n, n))
  {
  }

  /** Lock discipline over whole runs: in every reachable state, whatever the
      allocators and the host did, the handler's lock steps are whole rounds, each
      taking every lock once in order and giving each back once in reverse with
      the flags it saved, followed by the part of a round that the handler's
      position accounts for. */
  lemma {:induction false} LocksComeInRounds(c: Config, run: seq<Action>, s: State) returns (r: nat)
    requires Reaches(c, run, s)
    ensures s.locks == Rounds(|s.zones|, r) + StepsSoFar(s.phase, |s.zones|)
  {
    if run == [] {
      r := 0;
    } else {
      var n := |run| - 1;
      var before: State :| && Reaches(c, run[..n], before) && Sized(c, before) && Enabled(c, before, run[n])
                           && s == Do(c, before, run[n]);
      r := LocksComeInRounds(c, run[..n], before);
      InvariantHolds(c, run[..n], before);
      r := LocksAfterStep(c, before, run[n], r);
      InvariantHolds(c, run, s);
    }
  }

  datatype Party = TheHandler | Processor(cpu: nat)

  /** `a` wants a lock that `b` holds, or is a lock user whose processor the handler
      has taken over. */
  predicate Waits(s: State, a: Party, b: Party) {
    match a
    case TheHandler => s.phase.Spin? && s.phase.k < |s.owner| && HeldBy(s.owner[s.phase.k], b)
    case Processor(p) =>
      && p < |s.thread|
      && ((s.thread[p].Spinning? && s.thread[p].zone < |s.owner| && HeldBy(s.owner[s.thread[p].zone], b))
          || (!s.thread[p].Quiet? && s.phase != Off && s.home == p && b == TheHandler))
  }

  predicate HeldBy(o: Owner, b: Party) {
    (o == Handler && b == TheHandler) || (o.Allocator? && b == Processor(o.cpu))
  }

  /** The handler never waits for a lock that it or its own processor holds. */
  lemma NeverWaitsForItself(c: Config, run: seq<Action>, s: State)
    requires Reaches(c, run, s) && s.phase.Spin?
    ensures s.phase.k < |s.owner| && s.owner[s.phase.k] != Handler && s.owner[s.phase.k] != Allocator(s.home)
  {
    InvariantHolds(c, run, s);
  }

  /** A processor that the handler waits for holds its lock and waits for nobody. */
  lemma HoldersDoNotWait(c: Config, run: seq<Action>, s: State, b: Party, d: Party)
    requires Reaches(c, run, s) && Waits(s, TheHandler, b)
    ensures b.Processor? && b.cpu != s.home && b.cpu < |s.thread| && s.thread[b.cpu].Holding? && !Waits(s, b, d)
  {
    InvariantHolds(c, run, s);
  }

  lemma WaitersEndAtHolders(c: Config, run: seq<Action>, s: State, p: nat, b: Party, d: Party)
    requires Reaches(c, run, s) && Waits(s, Processor(p), b)
    ensures b != Processor(p) && (b.Processor? ==> !Waits(s, b, d))
  {
    InvariantHolds(c, run, s);
  }

  ghost predicate Chain(s: State, ps: seq<Party>) {
    |ps| >= 2 && forall i :: 0 <= i < |ps| - 1 ==> Waits(s, ps[i], ps[i + 1])
  }

  /** Deadlock freedom: in every reachable state every chain of waiters has at most
      two links and no party occurs in it twice, so there is no cycle. */
  lemma NoCycleOfWaiters(c: Config, run: seq<Action>, s: State, ps: seq<Party>)
    requires Reaches(c, run, s) && Chain(s, ps)
    ensures |ps| <= 3
    ensures forall i, j :: 0 <= i < j < |ps| ==> ps[i] != ps[j]
  {
    assert Waits(s, ps[0], ps[1]);
    if ps[0] == TheHandler {
      if |ps| > 2 {
        assert Waits(s, ps[1], ps[2]);
        HoldersDoNotWait(c, run, s, ps[1], ps[2]);
      } else {
        HoldersDoNotWait(c, run, s, ps[1], TheHandler);
      }
    } else {
      WaitersEndAtHolders(c, run, s, ps[0].cpu, ps[1], TheHandler);
      if |ps| > 2 {
        assert Waits(s, ps[1], ps[2]);
        WaitersEndAtHolders(c, run, s, ps[0].cpu, ps[1], ps[2]);
        ThirdIsNotFirst(c, run, s, ps[0].cpu, ps[2]);
        if |ps| > 3 {
          assert Waits(s, ps[2], ps[3]);
          HoldersDoNotWait(c, run, s, ps[2], ps[3]);
        }
      }
    }
  }

  lemma ThirdIsNotFirst(c: Config, run: seq<Action>, s: State, p: nat, d: Party)
    requires Reaches(c, run, s) && Waits(s, Processor(p), TheHandler) && Waits(s, TheHandler, d)
    ensures d != Processor(p) && d != TheHandler
  {
    InvariantHolds(c, run, s);
  }

  /** The step of the walk that is due at a position. */
  function WalkStep(zones: seq<Zone>, phase: Phase): Action {
    if phase.AtZone? then
      if phase.z < |zones| then VisitZone else EndWalk
    else if !InArea(zones, phase) then LeaveZone
    else if !InList(zones, phase) then NextOrder
    else if phase.index < |Nodes(zones, phase)| then ReadNode
    else NextList
  }

  lemma WalkCanStep(c: Config, s: State)
    requires WalkInv(s.zones, s.phase, s.records) && (s.phase.AtZone? || s.phase.AtList?)
    ensures Enabled(c, s, WalkStep(s.zones, s.phase)) && !IsKernel(WalkStep(s.zones, s.phase))
  {
  }

  /** The handler is never stuck: unless it spins on a lock someone holds, one of
      its own steps is enabled. */
  lemma HandlerCanStep(c: Config, run: seq<Action>, s: State) returns (a: Action)
    requires Reaches(c, run, s) && s.phase != Off
    requires s.phase.Spin? && s.phase.k < |s.owner| ==> s.owner[s.phase.k] == Nobody
    ensures !IsKernel(a) && Enabled(c, s, a)
  {
    hide Reaches, ThreadInv, HandlerLocks, ZoneInv;
    InvariantHolds(c, run, s);
    match s.phase
    case Locking(k) => a := if k < |s.zones| then SaveFlags else StartWalk;
    case Spin(_) => a := TakeLock;
    case Publishing(p) => a := if p < 4 then PublishWord else RingDoorbell(0);
    case Unlocking(k) => a := if k > 0 then Unlock else Leave;
    case _ =>
      a := WalkStep(s.zones, s.phase);
      WalkCanStep(c, s);
  }

  lemma {:induction false} NothingCovered(free: Orders, o: nat, page: nat)
    requires o <= MAX_ORDER && forall i :: 0 <= i < MAX_ORDER ==> free[i] == []
    ensures OrdersCover(free, o, page) == 0
  {
    if o > 0 {
      NothingCovered(free, o - 1, page);
    }
  }

  lemma EmptyZoneIsConsistent(span: Span) returns (z: Zone)
    ensures Consistent(z, span)
  {
    z := Zone(0, seq(MAX_ORDER, _ => []), seq(MAX_ORDER, _ => 0));
    forall page: nat
      ensures OrdersCover(z.free, MAX_ORDER, page) == 0
    {
      NothingCovered(z.free, MAX_ORDER, page);
    }
  }

  lemma Extend(c: Config, run: seq<Action>, s: State, a: Action) returns (t: State)
    requires Reaches(c, run, s) && Sized(c, s) && Enabled(c, s, a)
    ensures t == Do(c, s, a) && Reaches(c, run + [a], t)
  {
    t := Do(c, s, a);
    assert (run + [a])[..|run|] == run;
  }

  /** The state after the holder of zone `k`'s lock empties the zone and releases. */
  lemma HolderReleases(c: Config, s: State, empty: Zone)
    requires Inv(c, s) && s.phase.Spin? && s.phase.k < |s.owner| && s.owner[s.phase.k].Allocator?
    requires Consistent(empty, c.spans[s.phase.k])
    ensures var p := s.owner[s.phase.k].cpu;
      && p != s.home && Enabled(c, s, Change(p, empty))
      && var u := Do(c, s, Change(p, empty));
      && Sized(c, u) && Enabled(c, u, Release(p))
      && var t := Do(c, u, Release(p));
      && t.phase == s.phase && |t.zones| == |s.zones| && t.owner == s.owner[s.phase.k := Nobody]
  {
  }

  /** When the handler does spin on a held lock, the holder is on another processor
      and two of its steps free the lock. */
  lemma SpinningEnds(c: Config, run: seq<Action>, s: State) returns (more: seq<Action>, t: State)
    requires Reaches(c, run, s) && s.phase.Spin? && s.phase.k < |s.owner| && s.owner[s.phase.k] != Nobody
    ensures |more| == 2 && more[0].Change? && more[1].Release? && more[0].cpu == more[1].cpu != s.home
    ensures Reaches(c, run + more, t) && t.phase == s.phase && Enabled(c, t, TakeLock)
    ensures |t.zones| == |s.zones| && |t.owner| == |s.owner|
  {
    hide Reaches, ThreadInv, HandlerLocks, HomeInv, ZoneInv, WalkInv, WordsInv;
    InvariantHolds(c, run, s);
    NeverWaitsForItself(c, run, s);
    var p := s.owner[s.phase.k].cpu;
    var empty := EmptyZoneIsConsistent(c.spans[s.phase.k]);
    HolderReleases(c, s, empty);
    var u := Extend(c, run, s, Change(p, empty));
    t := Extend(c, run + [Change(p, empty)], u, Release(p));
    more := [Change(p, empty), Release(p)];
    assert run + more == run + [Change(p, empty)] + [Release(p)];
  }

  /** How much the handler still has to do before the doorbell. */
  datatype Rank = Rank(stage: nat, zones: nat, orders: nat, kinds: nat, nodes: nat)

  ghost function RankOf(zones: seq<Zone>, owner: seq<Owner>, phase: Phase): Rank {
    var n := |zones|;
    match phase
    case Locking(k) => Rank(3, if k <= n then 2 * (n - k) + 1 else 0, 0, 0, 0)
    case Spin(k) =>
      Rank(3, if k <= n then 2 * (n - k) else 0, if k < |owner| && owner[k] != Nobody then 1 else 0, 0, 0)
    case AtZone(z) => Rank(2, if z <= n then n - z else 0, MAX_ORDER + 2, 0, 0)
    case AtList(z, order, kind, index) =>
      Rank(2, if z <= n then n - z else 0, if order <= MAX_ORDER then MAX_ORDER + 1 - order else 0,
           if InArea(zones, phase) && kind <= |CurrentArea(zones, phase)|
           then |CurrentArea(zones, phase)| - kind else 0,
           if InList(zones, phase) && index <= |Nodes(zones, phase)| then |Nodes(zones, phase)| - index else 0)
    case Publishing(p) => Rank(1, if p <= 4 then 4 - p else 0, 0, 0, 0)
    case _ => Rank(0, 0, 0, 0, 0)
  }

  predicate BeforeDoorbell(phase: Phase) {
    phase != Off && !phase.Unlocking?
  }

  predicate Below(a: Rank, b: Rank) {
    || a.stage < b.stage
    || (a.stage == b.stage &&
        (|| a.zones < b.zones
         || (a.zones == b.zones &&
             (|| a.orders < b.orders
              || (a.orders == b.orders &&
                  (a.kinds < b.kinds || (a.kinds == b.kinds && a.nodes < b.nodes)))))))
  }

  /** The handler's next step before the doorbell, when it is not held up. */
  function NextStep(s: State): Action {
    match s.phase
    case Locking(k) => if k < |s.zones| then SaveFlags else StartWalk
    case Spin(_) => TakeLock
    case Publishing(_) => PublishWord
    case _ => WalkStep(s.zones, s.phase)
  }

  predicate HeldUp(s: State) {
    s.phase.Spin? && s.phase.k < |s.owner| && s.owner[s.phase.k] != Nobody
  }

  lemma StepAdvances(c: Config, s: State)
    requires Inv(c, s) && BeforeDoorbell(s.phase) && s.phase != Publishing(4) && !HeldUp(s)
    requires !s.phase.AtZone? && !s.phase.AtList?
    ensures Enabled(c, s, NextStep(s)) && !IsKernel(NextStep(s))
    ensures var t := Do(c, s, NextStep(s));
      BeforeDoorbell(t.phase) && Below(RankOf(t.zones, t.owner, t.phase), RankOf(s.zones, s.owner, s.phase))
  {
  }

  lemma WalkStepAdvances(c: Config, s: State)
    requires Sized(c, s) && WalkInv(s.zones, s.phase, s.records) && (s.phase.AtZone? || s.phase.AtList?)
    requires Enabled(c, s, NextStep(s)) && !IsKernel(NextStep(s))
    ensures var t := Do(c, s, NextStep(s));
      BeforeDoorbell(t.phase) && Below(RankOf(t.zones, t.owner, t.phase), RankOf(s.zones, s.owner, s.phase))
  {
  }

  /** One handler step, or two steps of the processor it waits for, bring the
      doorbell closer. */
  lemma Advance(c: Config, run: seq<Action>, s: State) returns (more: seq<Action>, t: State)
    requires Reaches(c, run, s) && BeforeDoorbell(s.phase) && s.phase != Publishing(4)
    ensures Reaches(c, run + more, t) && BeforeDoorbell(t.phase)
    ensures Below(RankOf(t.zones, t.owner, t.phase), RankOf(s.zones, s.owner, s.phase))
  {
    hide Reaches, ThreadInv, HandlerLocks, HomeInv, ZoneInv, WalkInv, WordsInv, Do;
    InvariantHolds(c, run, s);
    if HeldUp(s) {
      more, t := SpinningEnds(c, run, s);
    } else {
      if s.phase.AtZone? || s.phase.AtList? {
        WalkCanStep(c, s);
        WalkStepAdvances(c, s);
      } else {
        StepAdvances(c, s);
      }
      more := [NextStep(s)];
      t := Extend(c, run, s, NextStep(s));
    }
  }

  lemma {:induction false} Progress(c: Config, run: seq<Action>, s: State, rank: Rank)
    returns (more: seq<Action>, t: State)
    requires Reaches(c, run, s) && BeforeDoorbell(s.phase) && rank == RankOf(s.zones, s.owner, s.phase)
    ensures Reaches(c, run + more, t) && t.phase == Publishing(4)
    decreases rank.stage, rank.zones, rank.orders, rank.kinds, rank.nodes
  {
    hide Reaches, RankOf;
    if s.phase == Publishing(4) {
      more, t := [], s;
      assert run + [] == run;
    } else {
      var first, u := Advance(c, run, s);
      var rest;
      rest, t := Progress(c, run + first, u, RankOf(u.zones, u.owner, u.phase));
      more := first + rest;
      assert run + more == run + first + rest;
    }
  }

  /** From every reachable state in which the handler is at work, whatever the
      allocators were doing, the doorbell can still be reached. */
  lemma DoorbellIsReachable(c: Config, run: seq<Action>, s: State)
    requires Reaches(c, run, s) && BeforeDoorbell(s.phase)
    ensures exists more, t :: Reaches(c, run + more, t) && t.phase == Publishing(4)
  {
    var more, t := Progress(c, run, s, RankOf(s.zones, s.owner, s.phase));
  }
}
