/** The interleaved handler, left alone, does what the sequential handler's contract
    says (shared/driver/driver.c, write_guest_free_pages). */
module SnapshotSolo {
  import opened Words
  import opened FreeLists
  import opened Mailboxes
  import opened Buddy
  import opened SnapshotMachine
  import opened SnapshotSafety
  import Snapshot

  /** How many locks the handler holds, of `n`, up to the doorbell. */
  function Held(phase: Phase, n: nat): nat {
    match phase
    case Locking(k) => k
    case Spin(k) => k
    case _ => n
  }

  function AnnouncedSoFar(words: seq<u32>, address: u64, records: seq<Record>, p: nat): seq<u32>
    requires |words| >= WINDOW_WORDS && p <= 4
  {
    Snapshot.WithAnnouncement(words, address, Unsigned32(|records|), p)
  }

  ghost predicate NobodyElse(owner: seq<Owner>) {
    forall z :: 0 <= z < |owner| ==> !owner[z].Allocator?
  }

  /** Between entry and doorbell nothing has changed but what the handler's own
      progress accounts for. `s` is the state at entry. */
  ghost predicate Alone(c: Config, s: State, t: State, cpu: nat) {
    var n := |s.zones|;
    && |s.words| >= WINDOW_WORDS && cpu < |s.irqOn|
    && t.zones == s.zones && t.thread == s.thread && t.home == cpu && t.irqOn == s.irqOn[cpu := false]
    && BeforeDoorbell(t.phase) && |t.owner| == |s.owner| && NobodyElse(t.owner)
    && t.locks == s.locks + Tooks(Held(t.phase, n))
    && t.words == (if t.phase.Publishing? && t.phase.p <= 4
                   then AnnouncedSoFar(s.words, c.address, t.records, t.phase.p) else s.words)
  }

  lemma AloneIsNotHeldUp(c: Config, s: State, t: State, cpu: nat)
    requires Alone(c, s, t, cpu) && Inv(c, t)
    ensures !HeldUp(t)
  {
  }

  lemma AloneLocking(c: Config, s: State, t: State, cpu: nat)
    requires Alone(c, s, t, cpu) && Inv(c, t) && (t.phase.Locking? || t.phase.Spin?)
    requires Enabled(c, t, NextStep(t)) && !IsKernel(NextStep(t))
    ensures Alone(c, s, Do(c, t, NextStep(t)), cpu)
  {
  }

  lemma NothingAnnounced(words: seq<u32>, address: u64, records: seq<Record>)
    requires |words| >= WINDOW_WORDS
    ensures AnnouncedSoFar(words, address, records, 0) == words
  {
  }

  lemma OneMoreAnnounced(words: seq<u32>, address: u64, records: seq<Record>, p: nat)
    requires |words| >= WINDOW_WORDS && p < 4
    ensures |AnnouncedSoFar(words, address, records, p)| == |words|
    ensures AnnouncedSoFar(words, address, records, p + 1) ==
      AnnouncedSoFar(words, address, records, p)[4 + p := PublishedWord(address, records, p)]
  {
  }

  lemma AloneWalking(c: Config, s: State, t: State, cpu: nat)
    requires Alone(c, s, t, cpu) && Inv(c, t) && (t.phase.AtZone? || t.phase.AtList?)
    requires Enabled(c, t, NextStep(t)) && !IsKernel(NextStep(t))
    ensures Alone(c, s, Do(c, t, NextStep(t)), cpu)
  {
    hide ThreadInv, HandlerLocks, HomeInv, ZoneInv, WalkInv, WordsInv, AnnouncedSoFar, Tooks;
    NothingAnnounced(s.words, c.address, t.records);
  }

  lemma AlonePublishing(c: Config, s: State, t: State, cpu: nat)
    requires Alone(c, s, t, cpu) && Inv(c, t) && t.phase.Publishing? && t.phase != Publishing(4)
    requires Enabled(c, t, NextStep(t)) && !IsKernel(NextStep(t))
    ensures Alone(c, s, Do(c, t, NextStep(t)), cpu)
  {
    hide ThreadInv, HandlerLocks, HomeInv, ZoneInv, WalkInv, AnnouncedSoFar, Tooks, PublishedWord;
    OneMoreAnnounced(s.words, c.address, t.records, t.phase.p);
  }

  predicate OnlyHandler(run: seq<Action>) {
    forall i :: 0 <= i < |run| ==> !IsKernel(run[i])
  }

  lemma AloneStep(c: Config, run: seq<Action>, s: State, t: State, cpu: nat) returns (next: Action)
    requires Reaches(c, run, t) && Alone(c, s, t, cpu) && t.phase != Publishing(4)
    ensures Sized(c, t) && Enabled(c, t, next) && !IsKernel(next)
    ensures Alone(c, s, Do(c, t, next), cpu)
    ensures var u := Do(c, t, next); Below(RankOf(u.zones, u.owner, u.phase), RankOf(t.zones, t.owner, t.phase))
  {
    InvariantHolds(c, run, t);
    next := NextStep(t);
    AloneIsNotHeldUp(c, s, t, cpu);
    assert BeforeDoorbell(t.phase);
    hide Reaches, Alone, Do, RankOf, ThreadInv, HandlerLocks, HomeInv, ZoneInv, WalkInv, WordsInv;
    if t.phase.AtZone? || t.phase.AtList? {
      WalkCanStep(c, t);
      WalkStepAdvances(c, t);
      AloneWalking(c, s, t, cpu);
    } else {
      StepAdvances(c, t);
      if t.phase.Publishing? {
        AlonePublishing(c, s, t, cpu);
      } else {
        AloneLocking(c, s, t, cpu);
      }
    }
  }

  lemma {:induction false} ToTheDoorbell(c: Config, run: seq<Action>, s: State, t: State, cpu: nat, rank: Rank)
    returns (more: seq<Action>, u: State)
    requires Reaches(c, run, t) && Alone(c, s, t, cpu) && rank == RankOf(t.zones, t.owner, t.phase)
    ensures Reaches(c, run + more, u) && Alone(c, s, u, cpu) && u.phase == Publishing(4) && OnlyHandler(more)
    decreases rank.stage, rank.zones, rank.orders, rank.kinds, rank.nodes
  {
    hide Reaches, Alone, RankOf, Inv, Do, Enabled, NextStep;
    if t.phase == Publishing(4) {
      more, u := [], t;
      assert run + [] == run;
    } else {
      var next := AloneStep(c, run, s, t, cpu);
      var v := Extend(c, run, t, next);
      var rest;
      rest, u := ToTheDoorbell(c, run + [next], s, v, cpu, RankOf(v.zones, v.owner, v.phase));
      more := [next] + rest;
      assert run + more == run + [next] + rest;
    }
  }

  /** After the doorbell, with `k` locks still held. */
  ghost predicate Releasing(c: Config, s: State, t: State, cpu: nat, k: nat, elapsed: u32) {
    var n := |s.zones|;
    && |s.words| >= WINDOW_WORDS && cpu < |s.irqOn| && k <= n
    && t.zones == s.zones && t.thread == s.thread && t.home == cpu && t.irqOn == s.irqOn[cpu := false]
    && t.phase == Unlocking(k) && |t.owner| == n
    && (forall z :: 0 <= z < n ==> t.owner[z] == if z < k then Handler else Nobody)
    && t.locks == s.locks + Tooks(n) + Gaves(n, n - k)
    && |t.records| <= 0xffff_ffff
    && t.records == Flatten(ListsOf(s.zones))
    && t.words == Snapshot.Published(s.words, c.address, |t.records|, elapsed)
  }

  lemma AnnouncedIsPublished(words: seq<u32>, address: u64, records: seq<Record>, elapsed: u32)
    requires |words| >= WINDOW_WORDS && |records| <= MIGRATION_BUFFER_SIZE / 16
    ensures AnnouncedSoFar(words, address, records, 4)[2 := elapsed] ==
      Snapshot.Published(words, address, |records|, elapsed)
  {
  }

  lemma Rings(c: Config, s: State, t: State, cpu: nat, elapsed: u32)
    requires Inv(c, t) && Alone(c, s, t, cpu) && t.phase == Publishing(4)
    requires t.records == Flatten(ListsOf(s.zones)) && |t.records| <= MIGRATION_BUFFER_SIZE / 16
    ensures Enabled(c, t, RingDoorbell(elapsed))
    ensures Releasing(c, s, Do(c, t, RingDoorbell(elapsed)), cpu, |s.zones|, elapsed)
  {
    hide ThreadInv, HomeInv, ZoneInv, WalkInv, WordsInv, AnnouncedSoFar, Snapshot.Published, PublishedWord, Flatten;
    AnnouncedIsPublished(s.words, c.address, t.records, elapsed);
    assert t.locks == t.locks + Gaves(|s.zones|, 0);
    assert forall z :: 0 <= z < |t.owner| ==> HandlerHolds(t.phase, |t.owner|, z);
  }

  lemma OneRelease(c: Config, s: State, t: State, cpu: nat, k: nat, elapsed: u32)
    requires Inv(c, t) && Releasing(c, s, t, cpu, k, elapsed) && k > 0
    ensures Enabled(c, t, Unlock) && Releasing(c, s, Do(c, t, Unlock), cpu, k - 1, elapsed)
  {
    hide ThreadInv, HandlerLocks, ZoneInv, WalkInv, WordsInv, Tooks, Gaves, Snapshot.Published, Flatten;
    OneMoreGave(|s.zones|, k);
  }

  lemma {:induction false} ToTheEnd(c: Config, run: seq<Action>, s: State, t: State, cpu: nat, k: nat, elapsed: u32)
    returns (more: seq<Action>, u: State)
    requires Reaches(c, run, t) && Releasing(c, s, t, cpu, k, elapsed)
    ensures Reaches(c, run + more, u) && Releasing(c, s, u, cpu, 0, elapsed) && OnlyHandler(more)
    decreases k
  {
    hide Reaches, Releasing, Inv, Do, Enabled;
    if k == 0 {
      more, u := [], t;
      assert run + [] == run;
    } else {
      InvariantHolds(c, run, t);
      OneRelease(c, s, t, cpu, k, elapsed);
      InvIsSized(c, t);
      var v := Extend(c, run, t, Unlock);
      var rest;
      rest, u := ToTheEnd(c, run + [Unlock], s, v, cpu, k - 1, elapsed);
      more := [Unlock] + rest;
      assert run + more == run + [Unlock] + rest;
    }
  }

  lemma InvIsSized(c: Config, t: State)
    requires Inv(c, t)
    ensures Sized(c, t)
  {
  }

  lemma Enters(c: Config, run: seq<Action>, s: State, cpu: nat)
    requires Reaches(c, run, s) && s.phase == Off && cpu < |s.irqOn| && s.irqOn[cpu]
    requires forall z :: 0 <= z < |s.owner| ==> s.owner[z] == Nobody
    ensures Sized(c, s) && Enabled(c, s, Enter(cpu)) && Alone(c, s, Do(c, s, Enter(cpu)), cpu)
  {
    InvariantHolds(c, run, s);
    assert s.locks + Tooks(0) == s.locks;
  }

  /** What the sequential handler's contract says of entry state `s` and exit state
      `t`: nothing has changed but the records, the window and the history. */
  ghost predicate Finished(c: Config, s: State, t: State, elapsed: u32) {
    && t.phase == Off && t.zones == s.zones && t.owner == s.owner && t.thread == s.thread && t.irqOn == s.irqOn
    && t.records == Flatten(ListsOf(s.zones)) && |t.records| <= 0xffff_ffff && |s.words| >= WINDOW_WORDS
    && t.words == Snapshot.Published(s.words, c.address, |t.records|, elapsed)
    && t.locks == s.locks + LockSteps(|s.zones|)
  }

  lemma Leaves(c: Config, s: State, t: State, cpu: nat, elapsed: u32)
    requires Inv(c, t) && Releasing(c, s, t, cpu, 0, elapsed)
    requires s.phase == Off && s.irqOn[cpu] && |s.owner| == |s.zones|
    requires forall z :: 0 <= z < |s.owner| ==> s.owner[z] == Nobody
    ensures Enabled(c, t, Leave) && Finished(c, s, Do(c, t, Leave), elapsed)
  {
    hide ThreadInv, HandlerLocks, HomeInv, ZoneInv, WalkInv, WordsInv, Snapshot.Published, Flatten;
  }

  lemma AtDoorbell(c: Config, s: State, t: State, cpu: nat, elapsed: u32)
    requires Alone(c, s, t, cpu) && t.phase == Publishing(4)
    ensures t.zones == s.zones && Enabled(c, t, RingDoorbell(elapsed))
  {
  }

  lemma Doorbell(c: Config, run: seq<Action>, s: State, t: State, cpu: nat, elapsed: u32) returns (u: State)
    requires Reaches(c, run, t) && Alone(c, s, t, cpu) && t.phase == Publishing(4)
    requires |Flatten(ListsOf(s.zones))| <= MIGRATION_BUFFER_SIZE / 16
    ensures Reaches(c, run + [RingDoorbell(elapsed)], u) && Releasing(c, s, u, cpu, |s.zones|, elapsed)
  {
    hide Reaches, Alone, Releasing, Inv, Do, Enabled, Flatten;
    AtDoorbell(c, s, t, cpu, elapsed);
    InvariantHolds(c, run, t);
    InvIsSized(c, t);
    SnapshotIsAtomic(c, run, t, elapsed);
    Rings(c, s, t, cpu, elapsed);
    u := Extend(c, run, t, RingDoorbell(elapsed));
  }

  lemma Exits(c: Config, run: seq<Action>, s: State, t: State, cpu: nat, elapsed: u32) returns (u: State)
    requires Reaches(c, run, t) && Releasing(c, s, t, cpu, 0, elapsed)
    requires s.phase == Off && cpu < |s.irqOn| && s.irqOn[cpu] && |s.owner| == |s.zones|
    requires forall z :: 0 <= z < |s.owner| ==> s.owner[z] == Nobody
    ensures Reaches(c, run + [Leave], u) && Finished(c, s, u, elapsed)
  {
    hide Reaches, Releasing, Inv, Do, Enabled, Finished;
    InvariantHolds(c, run, t);
    InvIsSized(c, t);
    Leaves(c, s, t, cpu, elapsed);
    u := Extend(c, run, t, Leave);
  }

  lemma Joined(run: seq<Action>, a: seq<Action>, b: seq<Action>)
    ensures run + (a + b) == run + a + b
    ensures OnlyHandler(a) && OnlyHandler(b) ==> OnlyHandler(a + b)
  {
  }

  lemma FromEntry(c: Config, run: seq<Action>, s: State, cpu: nat) returns (more: seq<Action>, t: State)
    requires Reaches(c, run, s) && s.phase == Off && cpu < |s.irqOn| && s.irqOn[cpu]
    requires forall z :: 0 <= z < |s.owner| ==> s.owner[z] == Nobody
    ensures Reaches(c, run + more, t) && Alone(c, s, t, cpu) && t.phase == Publishing(4) && OnlyHandler(more)
  {
    Enters(c, run, s, cpu);
    assert OnlyHandler([Enter(cpu)]);
    hide *;
    var a := Extend(c, run, s, Enter(cpu));
    more, t := ToTheDoorbell(c, run + [Enter(cpu)], s, a, cpu, RankOf(a.zones, a.owner, a.phase));
    Joined(run, [Enter(cpu)], more);
    more := [Enter(cpu)] + more;
  }

  lemma ToExit(c: Config, run: seq<Action>, s: State, t: State, cpu: nat, elapsed: u32)
    returns (more: seq<Action>, u: State)
    requires Reaches(c, run, t) && Alone(c, s, t, cpu) && t.phase == Publishing(4)
    requires s.phase == Off && cpu < |s.irqOn| && s.irqOn[cpu] && |s.owner| == |s.zones|
    requires forall z :: 0 <= z < |s.owner| ==> s.owner[z] == Nobody
    requires |Flatten(ListsOf(s.zones))| <= MIGRATION_BUFFER_SIZE / 16
    ensures Reaches(c, run + more, u) && Finished(c, s, u, elapsed) && OnlyHandler(more)
  {
    assert OnlyHandler([RingDoorbell(elapsed)]) && OnlyHandler([Leave]);
    hide *;
    var d := Doorbell(c, run, s, t, cpu, elapsed);
    var e;
    more, e := ToTheEnd(c, run + [RingDoorbell(elapsed)], s, d, cpu, |s.zones|, elapsed);
    u := Exits(c, run + [RingDoorbell(elapsed)] + more, s, e, cpu, elapsed);
    Joined(run, [RingDoorbell(elapsed)], more);
    Joined(run, [RingDoorbell(elapsed)] + more, [Leave]);
    more := [RingDoorbell(elapsed)] + more + [Leave];
  }

  /** From any reachable state in which nobody holds a lock, the handler's own steps
      alone take it from entry to exit, with the effect the sequential handler's
      contract states. */
  lemma HandlerAloneIsSequential(c: Config, run: seq<Action>, s: State, cpu: nat, elapsed: u32)
    requires Reaches(c, run, s) && s.phase == Off && cpu < |s.irqOn| && s.irqOn[cpu]
    requires forall z :: 0 <= z < |s.owner| ==> s.owner[z] == Nobody
    requires |Flatten(ListsOf(s.zones))| <= MIGRATION_BUFFER_SIZE / 16
    ensures exists more, t :: Reaches(c, run + more, t) && OnlyHandler(more) && Finished(c, s, t, elapsed)
  {
    InvariantHolds(c, run, s);
    assert |s.owner| == |s.zones|;
    hide *;
    var first, b := FromEntry(c, run, s, cpu);
    var last, t := ToExit(c, run + first, s, b, cpu, elapsed);
    Joined(run, first, last);
  }

  /** A step on lock `i` as the event of the i-th populated zone. */
  ghost function Named(zones: seq<Snapshot.Zone>, step: LockStep): Snapshot.LockEvent
    requires step.zone < |zones|
  {
    match step
    case Took(zone, saved) => Snapshot.Acquired(zones[zone], saved)
    case Gave(zone, restored) => Snapshot.Released(zones[zone], restored)
  }

  /** And the locks are taken and given back in the same order and with the same
      flags as in that contract, interrupts being off at entry. */
  lemma LockOrderIsSequential(populated: seq<Snapshot.Zone>)
    ensures var n := |populated|; var steps := LockSteps(n);
      seq(|steps|, i requires 0 <= i < |steps| => Named(populated, steps[i])) ==
      Snapshot.Acquisitions(populated, false, n) + Snapshot.Releases(populated, false, n)
  {
    var n := |populated|;
    var steps := LockSteps(n);
    assert |steps| == 2 * n;
  }
}
