/** The append-only log of CPU masks kept in a 64-entry array map, whose slot 0 is
    the counter (bpfProg/myprog.c, bpf_prog1). */
module CpuLog {
  import opened Words

  const MAX_ENTRIES := 64

  type Slots = s: seq<u64> | |s| == MAX_ENTRIES witness seq(MAX_ENTRIES, _ => 0)

  /** Array maps start out zeroed. */
  predicate Zeroed(s: Slots) {
    forall i :: 0 <= i < MAX_ENTRIES ==> s[i] == 0
  }

  /** `bpf_map_update_elem` on an array map: an index past the end is refused. */
  function Update(s: Slots, index: u32, value: u64): Slots {
    if index < MAX_ENTRIES then s[index := value] else s
  }

  function Increment(counter: u64): u64 {
    (counter + 1) % 0x1_0000_0000_0000_0000
  }

  /** The map after one run. */
  function Recorded(s: Slots, mask: u64): Slots {
    if s[0] == MAX_ENTRIES - 1 then s
    else
      var t := s[0 := Increment(s[0])];
      Update(t, Unsigned32(t[0]), mask)
  }

  /** The map after the program ran once per mask, one run after another. */
  function Log(start: Slots, masks: seq<u64>): Slots
    decreases |masks|
  {
    if masks == [] then start else Recorded(Log(start, masks[..|masks| - 1]), masks[|masks| - 1])
  }

  /** The counter is the number of masks up to 63, the slots hold the first 63 in
      order, and the rest are zero. */
  ghost predicate HoldsFirst(s: Slots, masks: seq<u64>) {
    var n := if |masks| < 64 then |masks| else 63;
    && s[0] == n
    && (forall i :: 1 <= i <= n ==> s[i] == masks[i - 1])
    && (forall i :: n < i < 64 ==> s[i] == 0)
  }

  /** One run on any map, slot by slot: a counter of 63 stops it; otherwise the
      counter goes up by one, in 64 bits, and the mask goes to the slot the low 32
      bits of the new counter name, if there is one. */
  lemma RunSlotBySlot(s: Slots, mask: u64)
    ensures s[0] == 63 ==> Recorded(s, mask) == s
    ensures s[0] != 63 ==>
      var c := if s[0] == 0xffff_ffff_ffff_ffff then 0 else s[0] + 1;
      var k := c % 0x1_0000_0000;
      forall i :: 0 <= i < 64 ==> Recorded(s, mask)[i] == if i == k then mask else if i == 0 then c else s[i]
  {
  }

  lemma RecordOneMore(s: Slots, masks: seq<u64>, mask: u64)
    requires HoldsFirst(s, masks)
    ensures HoldsFirst(Recorded(s, mask), masks + [mask])
  {
    var n, t := |masks|, Recorded(s, mask);
    if n < MAX_ENTRIES - 1 {
      assert Increment(s[0]) == Unsigned32(Increment(s[0])) == n + 1;
      assert t == s[0 := n + 1][n + 1 := mask];
    } else {
      assert t == s;
    }
  }

  /** One call. Whatever masks the log held the first 63 of, with the new mask it
      holds the first 63 of the longer list: a full log is left alone, and nothing
      stored is overwritten. */
  method BpfProg1(values: array<u64>, mask: u64, ghost masks: seq<u64>)
    requires values.Length == MAX_ENTRIES
    modifies values
    ensures HoldsFirst(old(values[..]), masks) ==> HoldsFirst(values[..], masks + [mask])
    ensures values[..] == Recorded(old(values[..]), mask)
  {
    if values[0] == MAX_ENTRIES - 1 {
      return;
    }
    values[0] := Increment(values[0]);
    var index := Unsigned32(values[0]);
    if index < MAX_ENTRIES {
      values[index] := mask;
    }
    assert values[..] == Recorded(old(values[..]), mask);
    if HoldsFirst(old(values[..]), masks) {
      RecordOneMore(old(values[..]), masks, mask);
    }
  }

  /** Run sequentially, the log holds the first 63 masks and nothing stored is ever
      overwritten. */
  lemma {:induction false} LogHoldsFirstMasks(start: Slots, masks: seq<u64>)
    requires Zeroed(start)
    ensures HoldsFirst(Log(start, masks), masks)
    decreases |masks|
  {
    if masks != [] {
      var n := |masks| - 1;
      LogHoldsFirstMasks(start, masks[..n]);
      RecordOneMore(Log(start, masks[..n]), masks[..n], masks[n]);
      assert masks == masks[..n] + [masks[n]];
    }
  }

  // The same program on several processors at once, one map access per step.

  /** `ticket` is the caller's place in the order of increments. */
  datatype Pc =
    | Idle
    | Called(mask: u64)
    | Passed(mask: u64)                              // the counter was not at its limit
    | Added(mask: u64, ticket: nat)                  // the atomic increment is done
    | Indexed(mask: u64, ticket: nat, index: u32)    // the counter has been read again

  /** `added` are the masks in the order of their increments, `masks` all masks ever
      passed in, and `stores` the index each ticket's caller made its update with. */
  datatype State = State(slots: Slots, pc: seq<Pc>, added: seq<u64>, masks: set<u64>, stores: map<nat, u32>)

  datatype Action = Call(cpu: nat, mask: u64) | Check(cpu: nat) | Add(cpu: nat) | Reread(cpu: nat) | Store(cpu: nat)

  predicate Enabled(s: State, a: Action) {
    match a
    case Call(p, _) => p < |s.pc| && s.pc[p].Idle?
    case Check(p) => p < |s.pc| && s.pc[p].Called?
    case Add(p) => p < |s.pc| && s.pc[p].Passed?
    case Reread(p) => p < |s.pc| && s.pc[p].Added?
    case Store(p) => p < |s.pc| && s.pc[p].Indexed?
  }

  function Do(s: State, a: Action): State
    requires Enabled(s, a)
  {
    match a
    case Call(p, mask) => s.(pc := s.pc[p := Called(mask)], masks := s.masks + {mask})
    case Check(p) =>
      s.(pc := s.pc[p := if s.slots[0] == MAX_ENTRIES - 1 then Idle else Passed(s.pc[p].mask)])
    case Add(p) =>
      var mask := s.pc[p].mask;
      s.(slots := s.slots[0 := Increment(s.slots[0])], added := s.added + [mask],
         pc := s.pc[p := Added(mask, |s.added| + 1)])
    case Reread(p) => s.(pc := s.pc[p := Indexed(s.pc[p].mask, s.pc[p].ticket, Unsigned32(s.slots[0]))])
    case Store(p) =>
      var c := s.pc[p];
      s.(slots := Update(s.slots, c.index, c.mask), pc := s.pc[p := Idle], stores := s.stores[c.ticket := c.index])
  }

  ghost predicate Init(s: State) {
    Zeroed(s.slots) && s.added == [] && s.masks == {} && s.stores == map[]
    && forall p :: 0 <= p < |s.pc| ==> s.pc[p] == Idle
  }

  function Next(s: Option<State>, a: Action): Option<State> {
    if s.Some? && Enabled(s.value, a) then Some(Do(s.value, a)) else None
  }

  /** The state after `run`, or none when some step of it is not enabled. */
  function Run(s: State, run: seq<Action>): Option<State>
    decreases |run|
  {
    if run == [] then Some(s) else Next(Run(s, run[..|run| - 1]), run[|run| - 1])
  }

  ghost predicate Reaches(from: State, run: seq<Action>, s: State) {
    Init(from) && Run(from, run) == Some(s)
  }

  /** The machine allows every interleaving: what a processor can do next depends on
      its own position alone, it always has something to do, and it leaves the
      others where they are. */
  lemma CallersRunFreely(s: State, t: State, a: Action)
    requires a.cpu < |s.pc| && a.cpu < |t.pc| && s.pc[a.cpu] == t.pc[a.cpu]
    ensures Enabled(s, a) <==> Enabled(t, a)
    ensures exists b: Action :: b.cpu == a.cpu && Enabled(s, b)
    ensures Enabled(s, a) ==> var u := Do(s, a);
      |u.pc| == |s.pc| && forall q :: 0 <= q < |s.pc| && q != a.cpu ==> u.pc[q] == s.pc[q]
  {
    var p := a.cpu;
    assert Enabled(s, Call(p, 0)) || Enabled(s, Check(p)) || Enabled(s, Add(p)) || Enabled(s, Reread(p))
      || Enabled(s, Store(p));
  }

  /** Any number of processors may start. */
  lemma AnyNumberIsInitial(processors: nat)
    ensures Init(State(seq(MAX_ENTRIES, _ => 0), seq(processors, _ => Idle), [], {}, map[]))
  {
  }

  /** Increments beyond which the counter, cut to 32 bits, is no longer their number. */
  const WRAP := 0x1_0000_0000

  predicate InFlight(c: Pc) {
    c.Added? || c.Indexed?
  }

  ghost predicate PcInv(pc: seq<Pc>, added: seq<u64>, masks: set<u64>) {
    forall p :: 0 <= p < |pc| ==>
      && (!pc[p].Idle? ==> pc[p].mask in masks)
      && (InFlight(pc[p]) ==> 1 <= pc[p].ticket <= |added| && pc[p].mask == added[pc[p].ticket - 1])
      && (pc[p].Indexed? ==> pc[p].ticket <= pc[p].index <= |added|)
  }

  ghost predicate StoresInv(stores: map<nat, u32>, adds: nat) {
    forall t :: t in stores ==> 1 <= t <= stores[t] <= adds
  }

  /** A slot some caller stored into holds such a caller's mask; the others are zero. */
  ghost predicate SlotInv(slots: Slots, stores: map<nat, u32>, added: seq<u64>, i: nat)
    requires 1 <= i < MAX_ENTRIES
  {
    || (slots[i] == 0 && forall t :: t in stores ==> stores[t] != i)
    || exists t: nat :: t in stores && stores[t] == i && 1 <= t <= |added| && slots[i] == added[t - 1]
  }

  ghost predicate Carried(pc: seq<Pc>, t: nat) {
    exists p :: 0 <= p < |pc| && InFlight(pc[p]) && pc[p].ticket == t
  }

  /** No ticket is in flight twice, or in flight and stored. */
  ghost predicate Unique(pc: seq<Pc>, stores: map<nat, u32>, adds: nat) {
    && (forall p :: 0 <= p < |pc| && InFlight(pc[p]) ==> pc[p].ticket !in stores && pc[p].ticket <= adds)
    && (forall t :: t in stores ==> t <= adds)
    && (forall p, q :: 0 <= p < q < |pc| && InFlight(pc[p]) && InFlight(pc[q]) ==> pc[p].ticket != pc[q].ticket)
  }

  /** Every ticket handed out is in flight or has been stored. */
  ghost predicate Complete(pc: seq<Pc>, stores: map<nat, u32>, adds: nat) {
    forall t :: 1 <= t <= adds && t !in stores ==> Carried(pc, t)
  }

  ghost predicate Inv(s: State) {
    && s.slots[0] == |s.added|
    && (forall m :: m in s.added ==> m in s.masks)
    && PcInv(s.pc, s.added, s.masks)
    && StoresInv(s.stores, |s.added|)
    && (forall i :: 1 <= i < MAX_ENTRIES ==> SlotInv(s.slots, s.stores, s.added, i))
    && Unique(s.pc, s.stores, |s.added|) && Complete(s.pc, s.stores, |s.added|)
  }

  lemma StoreKeepsSlots(s: State, p: nat)
    requires Inv(s) && Enabled(s, Store(p))
    ensures forall i :: 1 <= i < MAX_ENTRIES ==>
      SlotInv(Do(s, Store(p)).slots, Do(s, Store(p)).stores, s.added, i)
  {
    var c, t := s.pc[p], Do(s, Store(p));
    forall i | 1 <= i < MAX_ENTRIES
      ensures SlotInv(t.slots, t.stores, s.added, i)
    {
      assert SlotInv(s.slots, s.stores, s.added, i);
      if i == c.index {
        assert t.stores[c.ticket] == i;
      } else if !(s.slots[i] == 0 && forall u :: u in s.stores ==> s.stores[u] != i) {
        var u: nat :| u in s.stores && s.stores[u] == i && 1 <= u <= |s.added| && s.slots[i] == s.added[u - 1];
        assert t.stores[u] == i;
      }
    }
  }

  lemma UniqueKeeps(s: State, a: Action)
    requires Unique(s.pc, s.stores, |s.added|) && Enabled(s, a)
    ensures var t := Do(s, a); Unique(t.pc, t.stores, |t.added|)
  {
  }

  lemma CompleteKeeps(s: State, a: Action)
    requires Complete(s.pc, s.stores, |s.added|) && Enabled(s, a)
    ensures var t := Do(s, a); Complete(t.pc, t.stores, |t.added|)
  {
    var t := Do(s, a);
    forall k: nat | 1 <= k <= |t.added| && k !in t.stores
      ensures Carried(t.pc, k)
    {
      if a.Add? && k == |t.added| {
        assert InFlight(t.pc[a.cpu]) && t.pc[a.cpu].ticket == k;
      } else {
        assert k !in s.stores;
        var p :| 0 <= p < |s.pc| && InFlight(s.pc[p]) && s.pc[p].ticket == k;
        assert InFlight(t.pc[p]) && t.pc[p].ticket == k;
      }
    }
  }

  lemma SlotsKeep(s: State, a: Action)
    requires Inv(s) && Enabled(s, a)
    ensures var t := Do(s, a); forall i :: 1 <= i < MAX_ENTRIES ==> SlotInv(t.slots, t.stores, t.added, i)
  {
    if a.Store? {
      StoreKeepsSlots(s, a.cpu);
    } else {
      forall i | 1 <= i < MAX_ENTRIES
        ensures SlotInv(Do(s, a).slots, Do(s, a).stores, Do(s, a).added, i)
      {
        assert SlotInv(s.slots, s.stores, s.added, i);
      }
    }
  }

  lemma StepKeepsInv(s: State, a: Action)
    requires Inv(s) && Enabled(s, a) && |Do(s, a).added| < WRAP
    ensures Inv(Do(s, a))
  {
    hide Unique, Complete, SlotInv;
    UniqueKeeps(s, a);
    CompleteKeeps(s, a);
    SlotsKeep(s, a);
  }

  lemma {:induction false} InvariantHolds(from: State, run: seq<Action>, s: State)
    requires Reaches(from, run, s) && |s.added| < WRAP
    ensures Inv(s)
  {
    if run != [] {
      var n := |run| - 1;
      InvariantHolds(from, run[..n], Run(from, run[..n]).value);
      StepKeepsInv(Run(from, run[..n]).value, run[n]);
    }
  }

  /** Under any interleaving, with fewer than 2^32 increments the counter is their
      number, a slot into which some caller stored holds the mask of one that did,
      whose ticket is at most the slot's number, and every other slot is zero. */
  lemma InterleavedLog(from: State, run: seq<Action>, s: State)
    requires Reaches(from, run, s) && |s.added| < WRAP
    ensures s.slots[0] == |s.added| && forall m :: m in s.added ==> m in s.masks
    ensures forall t :: t in s.stores ==> 1 <= t <= s.stores[t] <= s.slots[0]
    ensures forall i :: 1 <= i < MAX_ENTRIES ==> SlotInv(s.slots, s.stores, s.added, i)
  {
    InvariantHolds(from, run, s);
  }

  /** Some step of the run is taken in a state where `p` holds. */
  ghost predicate Sometime(from: State, run: seq<Action>, p: (State, Action) -> bool) {
    exists k :: 0 <= k < |run| && At(from, run, k, p)
  }

  ghost predicate At(from: State, run: seq<Action>, k: nat, p: (State, Action) -> bool)
    requires k < |run|
  {
    Run(from, run[..k]).Some? && p(Run(from, run[..k]).value, run[k])
  }

  lemma SometimeMore(from: State, run: seq<Action>, p: (State, Action) -> bool)
    requires run != []
    ensures var n := |run| - 1;
      Sometime(from, run, p) <==> Sometime(from, run[..n], p) || At(from, run, n, p)
  {
    var n := |run| - 1;
    forall k | 0 <= k < n
      ensures At(from, run, k, p) <==> At(from, run[..n], k, p)
    {
      assert run[..n][..k] == run[..k];
    }
  }

  /** How many callers are past their check and have not incremented yet. */
  function Passing(pc: seq<Pc>): nat {
    if pc == [] then 0 else Passing(pc[..|pc| - 1]) + if pc[|pc| - 1].Passed? then 1 else 0
  }

  lemma {:induction false} PassingUpdate(pc: seq<Pc>, p: nat, c: Pc)
    requires p < |pc|
    ensures Passing(pc[p := c]) == Passing(pc) - (if pc[p].Passed? then 1 else 0) + (if c.Passed? then 1 else 0)
  {
    var n := |pc| - 1;
    if p < n {
      PassingUpdate(pc[..n], p, c);
      assert pc[p := c][..n] == pc[..n][p := c];
    } else {
      assert pc[p := c][..n] == pc[..n];
    }
  }

  lemma {:induction false} NobodyPassing(pc: seq<Pc>)
    requires forall p :: 0 <= p < |pc| ==> !pc[p].Passed?
    ensures Passing(pc) == 0
  {
    if pc != [] {
      NobodyPassing(pc[..|pc| - 1]);
    }
  }

  /** A check that passes though those past theirs will already fill the log. */
  predicate Crowded(s: State, a: Action) {
    a.Check? && s.slots[0] != MAX_ENTRIES - 1 && s.slots[0] + Passing(s.pc) >= MAX_ENTRIES - 1
  }

  lemma CrowdingStep(s: State, a: Action)
    requires Inv(s) && Enabled(s, a) && |Do(s, a).added| < WRAP
    ensures var t := Do(s, a);
      t.slots[0] + Passing(t.pc) ==
      s.slots[0] + Passing(s.pc) + if a.Check? && s.slots[0] != MAX_ENTRIES - 1 then 1 else 0
  {
    PassingUpdate(s.pc, a.cpu, Do(s, a).pc[a.cpu]);
  }

  lemma {:induction false} CrowdingDecides(from: State, run: seq<Action>, s: State)
    requires Reaches(from, run, s) && |s.added| < WRAP
    ensures s.slots[0] + Passing(s.pc) > MAX_ENTRIES - 1 <==> Sometime(from, run, Crowded)
  {
    if run == [] {
      NobodyPassing(s.pc);
    } else {
      var n := |run| - 1;
      var before := Run(from, run[..n]).value;
      CrowdingDecides(from, run[..n], before);
      InvariantHolds(from, run[..n], before);
      CrowdingStep(before, run[n]);
      SometimeMore(from, run, Crowded);
    }
  }

  /** Exactly when the counter steps over its limit: in a run that ends with no
      caller between its check and its increment, the counter is past 63 iff some
      check passed while the counter and the callers already past theirs made 63. */
  lemma StepsOverExactly(from: State, run: seq<Action>, s: State)
    requires Reaches(from, run, s) && |s.added| < WRAP
    requires forall p :: 0 <= p < |s.pc| ==> !s.pc[p].Passed?
    ensures s.slots[0] > MAX_ENTRIES - 1 <==> Sometime(from, run, Crowded)
  {
    NobodyPassing(s.pc);
    CrowdingDecides(from, run, s);
  }

  /** An increment made while an earlier caller, one the log has room for, has not
      read the counter back. */
  predicate Overtakes(s: State, a: Action) {
    a.Add? && exists p :: 0 <= p < |s.pc| && s.pc[p].Added? && s.pc[p].ticket < MAX_ENTRIES
  }

  /** A caller, if the log has room for it, is where its own ticket says. */
  predicate Straight(c: Pc, adds: nat) {
    && (c.Added? && c.ticket < MAX_ENTRIES ==> c.ticket == adds)
    && (c.Indexed? && c.ticket < MAX_ENTRIES ==> c.ticket == c.index)
  }

  predicate StoredStraight(stores: map<nat, u32>, t: nat) {
    t in stores && t < MAX_ENTRIES ==> stores[t] == t
  }

  ghost predicate InPlace(s: State) {
    && (forall p :: 0 <= p < |s.pc| ==> Straight(s.pc[p], |s.added|))
    && (forall t :: t in s.stores ==> StoredStraight(s.stores, t))
  }

  lemma OvertakenIsAstray(s: State, a: Action)
    requires Inv(s) && Enabled(s, a) && Overtakes(s, a)
    ensures !InPlace(Do(s, a))
  {
    hide Unique, Complete, SlotInv, StoresInv;
    var p :| 0 <= p < |s.pc| && s.pc[p].Added? && s.pc[p].ticket < MAX_ENTRIES;
    assert !Straight(Do(s, a).pc[p], |Do(s, a).added|);
  }

  lemma CallerStaysAstray(s: State, a: Action, p: nat)
    requires Inv(s) && Enabled(s, a) && |Do(s, a).added| < WRAP
    requires p < |s.pc| && !Straight(s.pc[p], |s.added|)
    ensures !InPlace(Do(s, a))
  {
    hide Unique, Complete, SlotInv, StoresInv;
    var t := Do(s, a);
    if a.Store? && a.cpu == p {
      assert !StoredStraight(t.stores, s.pc[p].ticket);
    } else {
      assert !Straight(t.pc[p], |t.added|);
    }
  }

  lemma EntryStaysAstray(s: State, a: Action, k: nat)
    requires Inv(s) && Enabled(s, a) && k in s.stores && !StoredStraight(s.stores, k)
    ensures !InPlace(Do(s, a))
  {
    hide Complete, SlotInv, PcInv, StoresInv;
    assert !StoredStraight(Do(s, a).stores, k);
  }

  lemma AstrayStaysAstray(s: State, a: Action)
    requires Inv(s) && Enabled(s, a) && |Do(s, a).added| < WRAP
    requires !InPlace(s) || Overtakes(s, a)
    ensures !InPlace(Do(s, a))
  {
    if Overtakes(s, a) {
      OvertakenIsAstray(s, a);
    } else if p :| 0 <= p < |s.pc| && !Straight(s.pc[p], |s.added|) {
      CallerStaysAstray(s, a, p);
    } else {
      var k :| k in s.stores && !StoredStraight(s.stores, k);
      EntryStaysAstray(s, a, k);
    }
  }

  lemma InPlaceStep(s: State, a: Action)
    requires Inv(s) && Enabled(s, a) && |Do(s, a).added| < WRAP
    ensures InPlace(Do(s, a)) <==> InPlace(s) && !Overtakes(s, a)
  {
    var t := Do(s, a);
    if InPlace(s) && !Overtakes(s, a) {
      forall p | 0 <= p < |t.pc|
        ensures Straight(t.pc[p], |t.added|)
      {
        assert Straight(s.pc[p], |s.added|);
      }
    } else {
      AstrayStaysAstray(s, a);
    }
  }

  lemma {:induction false} OvertakingDecides(from: State, run: seq<Action>, s: State)
    requires Reaches(from, run, s) && |s.added| < WRAP
    ensures InPlace(s) <==> !Sometime(from, run, Overtakes)
  {
    if run != [] {
      var n := |run| - 1;
      var before := Run(from, run[..n]).value;
      OvertakingDecides(from, run[..n], before);
      InvariantHolds(from, run[..n], before);
      InPlaceStep(before, run[n]);
      SometimeMore(from, run, Overtakes);
    }
  }

  /** Exactly when every mask lands in the slot of its own ticket: in a run that ends
      with nobody between increment and update, each of the first 63 increments was
      followed by an update of the slot it numbered iff no increment fell between
      such an increment and its caller's second read; and then those slots hold
      the masks in the order of the increments. */
  lemma MasksLandExactly(from: State, run: seq<Action>, s: State)
    requires Reaches(from, run, s) && |s.added| < WRAP
    requires forall p :: 0 <= p < |s.pc| ==> !InFlight(s.pc[p])
    ensures (forall t: nat :: 1 <= t <= |s.added| && t < MAX_ENTRIES ==> t in s.stores && s.stores[t] == t)
      <==> !Sometime(from, run, Overtakes)
    ensures !Sometime(from, run, Overtakes) ==>
      forall t: nat :: 1 <= t <= |s.added| && t < MAX_ENTRIES ==> s.slots[t] == s.added[t - 1]
  {
    InvariantHolds(from, run, s);
    OvertakingDecides(from, run, s);
    forall t: nat | 1 <= t <= |s.added|
      ensures t in s.stores
    {
      assert !Carried(s.pc, t);
    }
    if InPlace(s) {
      forall t: nat | 1 <= t <= |s.added| && t < MAX_ENTRIES
        ensures s.stores[t] == t && s.slots[t] == s.added[t - 1]
      {
        assert StoredStraight(s.stores, t) && SlotInv(s.slots, s.stores, s.added, t);
        assert forall u :: u in s.stores && s.stores[u] == t ==> StoredStraight(s.stores, u);
      }
    }
  }

  /** So a run without crowding and overtaking that has come to rest leaves the map
      that running the program once per mask, in the order of the increments,
      would leave. */
  lemma InterleavedIsSequential(from: State, run: seq<Action>, s: State)
    requires Reaches(from, run, s) && |s.added| < WRAP
    requires forall p :: 0 <= p < |s.pc| ==> !s.pc[p].Passed? && !InFlight(s.pc[p])
    requires !Sometime(from, run, Crowded) && !Sometime(from, run, Overtakes)
    ensures s.slots == Log(from.slots, s.added)
  {
    InvariantHolds(from, run, s);
    StepsOverExactly(from, run, s);
    MasksLandExactly(from, run, s);
    forall i | |s.added| < i < MAX_ENTRIES
      ensures s.slots[i] == 0
    {
      assert SlotInv(s.slots, s.stores, s.added, i);
    }
    LogHoldsFirstMasks(from.slots, s.added);
    assert HoldsFirst(s.slots, s.added);
    forall i | 0 <= i < MAX_ENTRIES
      ensures s.slots[i] == Log(from.slots, s.added)[i]
    {
    }
  }

  /** What holds in `t`, reached from a state `s` whose counter is past the limit. */
  ghost predicate Beyond(s: State, t: State) {
    && |t.pc| == |s.pc| && s.slots[0] <= t.slots[0]
    && (forall p :: 0 <= p < |t.pc| && t.pc[p].Indexed? && t.pc[p].index < MAX_ENTRIES ==> t.pc[p] == s.pc[p])
    && (forall i :: 1 <= i < MAX_ENTRIES ==> t.slots[i] == s.slots[i] || UpdateDue(s.pc, i))
  }

  /** Some caller has already read back this slot's number. */
  ghost predicate UpdateDue(pc: seq<Pc>, i: nat) {
    exists p :: 0 <= p < |pc| && pc[p].Indexed? && pc[p].index == i
  }

  lemma NothingYet(s: State)
    ensures Beyond(s, s) && EveryCheckPasses(s, [])
  {
  }

  lemma BeyondStep(s: State, t: State, a: Action)
    requires s.slots[0] >= MAX_ENTRIES && Beyond(s, t) && Inv(t) && Enabled(t, a) && |Do(t, a).added| < WRAP
    ensures Beyond(s, Do(t, a))
    ensures Do(t, a).slots[0] >= MAX_ENTRIES && (a.Check? ==> Do(t, a).pc[a.cpu].Passed?)
  {
    if a.Store? {
      var i := t.pc[a.cpu].index;
      if i < MAX_ENTRIES {
        assert UpdateDue(s.pc, i);
      }
    }
  }

  lemma RunUnfolds(s: State, run: seq<Action>)
    ensures run == [] ==> Run(s, run) == Some(s)
    ensures run != [] ==> Run(s, run) == Next(Run(s, run[..|run| - 1]), run[|run| - 1])
  {
  }

  lemma {:induction false} RunConcat(s: State, a: seq<Action>, b: seq<Action>)
    requires Run(s, a).Some?
    ensures Run(s, a + b) == Run(Run(s, a).value, b)
    decreases |b|
  {
    hide Run, Next;
    RunUnfolds(Run(s, a).value, b);
    if b == [] {
      assert a + b == a;
    } else {
      var n, c := |b| - 1, a + b;
      RunConcat(s, a, b[..n]);
      RunUnfolds(s, c);
      assert c[..|c| - 1] == a + b[..n] && c[|c| - 1] == b[n];
    }
  }

  /** Every check of the run lets its caller pass. */
  ghost predicate EveryCheckPasses(s: State, run: seq<Action>) {
    forall k :: 0 <= k < |run| && run[k].Check? ==> Passes(s, run, k)
  }

  ghost predicate Passes(s: State, run: seq<Action>, k: nat)
    requires k < |run|
  {
    var t := Run(s, run[..k + 1]);
    t.Some? && run[k].cpu < |t.value.pc| && t.value.pc[run[k].cpu].Passed?
  }

  lemma PassesMore(s: State, run: seq<Action>)
    requires run != [] && EveryCheckPasses(s, run[..|run| - 1])
    requires run[|run| - 1].Check? ==> Passes(s, run, |run| - 1)
    ensures EveryCheckPasses(s, run)
  {
    var n := |run| - 1;
    forall k | 0 <= k < n && run[k].Check?
      ensures Passes(s, run, k)
    {
      assert Passes(s, run[..n], k);
      assert run[..n][..k + 1] == run[..k + 1];
    }
  }

  /** The limit is tested for equality, so once the counter is past it, it stops
      nothing for ever: in every continuation all checks pass, the counter stays
      past the limit, and no slot changes except by callers who had already read
      that slot's number. */
  lemma {:induction false} PastTheLimitForEver(from: State, run: seq<Action>, s: State, more: seq<Action>, t: State)
    requires Reaches(from, run, s) && s.slots[0] >= MAX_ENTRIES
    requires Run(s, more) == Some(t) && |t.added| < WRAP
    ensures Inv(t) && Beyond(s, t) && t.slots[0] >= MAX_ENTRIES && EveryCheckPasses(s, more)
    decreases |more|
  {
    hide Inv, Beyond, EveryCheckPasses;
    RunConcat(from, run, more);
    InvariantHolds(from, run + more, t);
    if more != [] {
      var n := |more| - 1;
      var before := Run(s, more[..n]).value;
      PastTheLimitForEver(from, run, s, more[..n], before);
      BeyondStep(s, before, more[n]);
      assert more[..n + 1] == more;
      PassesMore(s, more);
    } else {
      NothingYet(s);
    }
  }

  lemma RunStep(s: State, run: seq<Action>, t: State, a: Action)
    requires Run(s, run) == Some(t) && Enabled(t, a)
    ensures Run(s, run + [a]) == Some(Do(t, a))
  {
    assert (run + [a])[..|run|] == run;
  }

  function CallSteps(p: nat, mask: u64): seq<Action> {
    [Call(p, mask)] + [Check(p)] + [Add(p)] + [Reread(p)] + [Store(p)]
  }

  /** Run alone, a caller that finds room does to the map what one sequential run
      does. */
  lemma UndisturbedCall(s: State, p: nat, mask: u64) returns (t: State)
    requires p < |s.pc| && s.pc[p].Idle? && s.slots[0] != MAX_ENTRIES - 1
    ensures Run(s, CallSteps(p, mask)) == Some(t)
    ensures t.slots == Recorded(s.slots, mask) && t.pc == s.pc && |t.added| == |s.added| + 1
    ensures s.slots[0] < MAX_ENTRIES - 1 ==> t.slots[0] == s.slots[0] + 1
  {
    var run := [Call(p, mask)];
    t := Do(s, run[0]);
    RunStep(s, [], s, run[0]);
    assert [] + run == run;
    hide Run;
    RunStep(s, run, t, Check(p));
    run, t := run + [Check(p)], Do(t, Check(p));
    RunStep(s, run, t, Add(p));
    run, t := run + [Add(p)], Do(t, Add(p));
    RunStep(s, run, t, Reread(p));
    run, t := run + [Reread(p)], Do(t, Reread(p));
    RunStep(s, run, t, Store(p));
    run, t := run + [Store(p)], Do(t, Store(p));
    assert t.pc == s.pc;
  }

  /** `n` calls, one after another, on the first processor. */
  lemma {:induction false} Sequential(from: State, mask: u64, n: nat) returns (run: seq<Action>, s: State)
    requires Init(from) && |from.pc| > 0 && n < MAX_ENTRIES
    ensures Reaches(from, run, s) && s.slots[0] == n && s.pc == from.pc
  {
    if n == 0 {
      run, s := [], from;
    } else {
      hide Run, Recorded;
      var before, t;
      before, t := Sequential(from, mask, n - 1);
      s := UndisturbedCall(t, 0, mask);
      RunConcat(from, before, CallSteps(0, mask));
      run := before + CallSteps(0, mask);
    }
  }

  /** The first two callers pass their checks one after the other and then both
      increment. */
  function OverlapSteps(a: u64, b: u64): seq<Action> {
    [Call(0, a)] + [Call(1, b)] + [Check(0)] + [Check(1)] + [Add(0)] + [Add(1)]
  }

  lemma Overlap(s: State, a: u64, b: u64) returns (t: State)
    requires |s.pc| == 2 && s.pc == [Idle, Idle] && s.slots[0] < MAX_ENTRIES - 1
    ensures Run(s, OverlapSteps(a, b)) == Some(t)
    ensures t == State(s.slots[0 := s.slots[0] + 2], [Added(a, |s.added| + 1), Added(b, |s.added| + 2)],
                       s.added + [a] + [b], s.masks + {a} + {b}, s.stores)
  {
    t := BothPass(s, a, b);
    hide Run;
    var run := [Call(0, a)] + [Call(1, b)] + [Check(0)] + [Check(1)];
    RunStep(s, run, t, Add(0));
    run, t := run + [Add(0)], Do(t, Add(0));
    RunStep(s, run, t, Add(1));
    t := Do(t, Add(1));
  }

  lemma BothPass(s: State, a: u64, b: u64) returns (t: State)
    requires s.pc == [Idle, Idle] && s.slots[0] < MAX_ENTRIES - 1
    ensures Run(s, [Call(0, a)] + [Call(1, b)] + [Check(0)] + [Check(1)]) == Some(t)
    ensures t == s.(pc := [Passed(a), Passed(b)], masks := s.masks + {a} + {b})
  {
    var run := [Call(0, a)];
    t := Do(s, run[0]);
    RunStep(s, [], s, run[0]);
    assert [] + run == run;
    hide Run;
    RunStep(s, run, t, Call(1, b));
    run, t := run + [Call(1, b)], Do(t, Call(1, b));
    assert t.pc == [Called(a), Called(b)];
    RunStep(s, run, t, Check(0));
    run, t := run + [Check(0)], Do(t, Check(0));
    RunStep(s, run, t, Check(1));
    t := Do(t, Check(1));
  }

  /** 62 calls in sequence and two overlapping ones take the counter to 64. */
  lemma SteppedOverExample(from: State, a: u64, b: u64) returns (run: seq<Action>, s: State)
    requires Init(from) && |from.pc| == 2
    ensures Reaches(from, run, s) && s.slots[0] == MAX_ENTRIES && forall p :: 0 <= p < |s.pc| ==> !s.pc[p].Passed?
  {
    var first, t := Sequential(from, a, MAX_ENTRIES - 2);
    assert t.pc == [Idle, Idle];
    s := Overlap(t, a, b);
    run := first + OverlapSteps(a, b);
    RunConcat(from, first, OverlapSteps(a, b));
  }

  /** Two callers can lose a mask: both increment before either reads back, so both
      store into slot 2 and slot 1 stays empty. */
  lemma LostMaskExample(from: State, a: u64, b: u64) returns (run: seq<Action>, s: State)
    requires Init(from) && |from.pc| == 2
    ensures Reaches(from, run, s) && s.pc == [Idle, Idle] && s.added == [a, b]
    ensures s.slots[0] == 2 && s.stores == map[1 := 2, 2 := 2] && s.slots[1] == 0 && s.slots[2] == b
  {
    assert from.pc == [Idle, Idle];
    run := OverlapSteps(a, b);
    s := Overlap(from, a, b);
    hide Run;
    RunStep(from, run, s, Reread(0));
    run, s := run + [Reread(0)], Do(s, Reread(0));
    RunStep(from, run, s, Reread(1));
    run, s := run + [Reread(1)], Do(s, Reread(1));
    RunStep(from, run, s, Store(0));
    run, s := run + [Store(0)], Do(s, Store(0));
    RunStep(from, run, s, Store(1));
    run, s := run + [Store(1)], Do(s, Store(1));
  }
}
