/** From the bytes written into the mailbox to the behaviour of the installed
    program. */
module EndToEnd {
  import opened Words
  import opened Insns
  import opened Relocation
  import opened Interpreter
  import opened Mailboxes
  import opened Loader
  import opened Ownership
  import Injection

  /** Delivering any instruction sequence and setting up with every allocation
      granted installs precisely the relocated sequence when every helper call is
      known, and reports the failure otherwise. */
  lemma DeliveredProgramIsInstalled(l: Layout, words: seq<u32>, p: seq<Insn>, kind: u8, name: string)
    requires |words| >= WINDOW_WORDS && 8 * |p| < 0x1_0000
    ensures var msg := ProgramMessage(p, kind);
      var w := Delivered(words, BUF / 4, msg, PayloadWords(msg));
      OutcomeOf(l, Sent(w), name, Luck(true, true, true)) ==
        if forall i :: 0 <= i < |p| ==> !IsUnknownCall(p[i])
        then Installed(Program("hv-" + name, Relocate(l, p).1))
        else BadCall
  {
    ProgramDelivered(words, p, kind);
    FixupIsExact(l, p);
  }

  /** The program the work function runs after such a delivery behaves, helper
      for helper and step for step, like the program that was sent. */
  lemma SentProgramRuns(env: Env, words: seq<u32>, s: Programs, p: seq<Insn>, kind: u8, name: string)
    requires |words| >= WINDOW_WORDS && 8 * |p| < 0x1_0000
    requires env.layout.Distinct() && forall h: Helper :: env.layout.Near(h)
    requires WellFormed(p) && forall i :: 0 <= i < |p| ==> !IsUnknownCall(p[i])
    ensures var msg := ProgramMessage(p, kind);
      var w := Delivered(words, BUF / 4, msg, PayloadWords(msg));
      var ran := RunOf(After(s, OutcomeOf(env.layout, Sent(w), name, Luck(true, true, true))));
      ran.RanProgram? && SameRuns(env, p, ran.program.insns)
  {
    DeliveredProgramIsInstalled(env.layout, words, p, kind, name);
    WellFormedProgramsKeepTheirMeaning(env, p);
  }

  /** The whole path, interleaved: in every run of interrupts, work, migration
      interrupts and host writes, once everything has settled on a delivered
      program whose words were all fetched in time, the words last loaded install,
      under the name of the injected type, a program that behaves like the one
      delivered. */
  lemma SettledInjectionRunsAsSent(env: Env, run: seq<Injection.Action>, s: Injection.State, before: seq<u32>,
                                   p: seq<Insn>, kind: u8)
    requires Injection.Reaches(run, s) && Injection.Settled(s) && Injection.Granted(s.events)
    requires !s.handler.TypeSet? && Injection.Timely(s.events, s.left)
    requires |before| >= WINDOW_WORDS && 8 * |p| < 0x1_0000
    requires var msg := ProgramMessage(p, kind); s.left == Delivered(before, BUF / 4, msg, PayloadWords(msg))
    requires env.layout.Distinct() && forall h: Helper :: env.layout.Near(h)
    requires WellFormed(p) && forall i :: 0 <= i < |p| ==> !IsUnknownCall(p[i])
    ensures var last := Injection.Last(s.events, Injection.TLoaded);
      && last >= 0 && s.events[last].kind == s.programType && ProgName(ProgType(s.programType)).Some?
      && var name := ProgName(ProgType(s.programType)).value;
         var o := OutcomeOf(env.layout, s.events[last].buffer, name, Luck(true, true, true));
         o.Installed? && o.program.name == "hv-" + name && SameRuns(env, p, o.program.insns)
  {
    Injection.NoLostInjection(run, s);
    Injection.SettledIsRested(run, s);
    Injection.LastLoadIsExact(run, s);
    Injection.LastTypeIsShared(run, s);
    DeliveredProgramIsInstalled(env.layout, before, p, kind, ProgName(ProgType(s.programType)).value);
    WellFormedProgramsKeepTheirMeaning(env, p);
  }

  // Program objects over a whole interleaved run.

  /** How the allocations of the setup that ends at each event turn out. */
  type Fortune = nat -> Luck

  /** How a program loaded under `kind` fares, its buffer having been granted. */
  function LoadOutcome(l: Layout, kind: u8, buffer: seq<u32>, luck: Luck): Outcome {
    var name := ProgName(ProgType(kind));
    OutcomeOf(l, buffer, if name.Some? then name.value else "", luck.(buffer := true))
  }

  /** What one event does to the program objects: the previous program is freed as
      soon as a buffer is granted, the new one installed when it has been read. */
  function EffectOf(l: Layout, s: Programs, e: Injection.Event, luck: Luck): Programs {
    match e
    case Allocated(granted) => if granted then s.FreeCurrent() else s
    case Loaded(kind, buffer) => Install(s, LoadOutcome(l, kind, buffer, luck))
    case _ => s
  }

  function ObjectsAfter(l: Layout, es: seq<Injection.Event>, luck: Fortune): Programs {
    if es == [] then NO_PROGRAMS
    else var n := |es| - 1; EffectOf(l, ObjectsAfter(l, es[..n], luck), es[n], luck(n))
  }

  /** The outcome of the execution that an event ends, if it ends one. */
  function Ended(l: Layout, e: Injection.Event, luck: Luck): seq<Outcome> {
    match e
    case Allocated(granted) => if granted then [] else [NoBuffer]
    case Loaded(kind, buffer) => [LoadOutcome(l, kind, buffer, luck)]
    case _ => []
  }

  /** The outcomes of the executions that have ended. */
  function OutcomesIn(l: Layout, es: seq<Injection.Event>, luck: Fortune): seq<Outcome> {
    if es == [] then [] else var n := |es| - 1; OutcomesIn(l, es[..n], luck) + Ended(l, es[n], luck(n))
  }

  lemma OneMoreEvent(l: Layout, es: seq<Injection.Event>, e: Injection.Event, luck: Fortune)
    ensures ObjectsAfter(l, es + [e], luck) == EffectOf(l, ObjectsAfter(l, es, luck), e, luck(|es|))
    ensures OutcomesIn(l, es + [e], luck) == OutcomesIn(l, es, luck) + Ended(l, e, luck(|es|))
  {
    assert (es + [e])[..|es|] == es;
  }

  /** Before an execution's buffer is granted and after it has ended, the objects
      are those of whole setups; in between, the previous program is freed. */
  ghost predicate Accounted(l: Layout, s: Injection.State, luck: Fortune) {
    var whole := Works(OutcomesIn(l, s.events, luck));
    ObjectsAfter(l, s.events, luck) == if s.worker.Loading? then whole.FreeCurrent() else whole
  }

  lemma WorksMore(os: seq<Outcome>, o: Outcome)
    ensures Works(os + [o]) == After(Works(os), o)
  {
    assert (os + [o])[..|os|] == os;
  }

  lemma LoadOutcomeIsPast(l: Layout, kind: u8, buffer: seq<u32>, luck: Luck)
    ensures !LoadOutcome(l, kind, buffer, luck).NoBuffer?
  {
  }

  lemma StepIsAccounted(l: Layout, s: Injection.State, a: Injection.Action, luck: Fortune)
    requires Injection.Enabled(s, a) && Accounted(l, s, luck)
    ensures Accounted(l, Injection.Do(s, a), luck)
  {
    hide Works, After, Install, LoadOutcome, ObjectsAfter, OutcomesIn;
    var e, t := Injection.EventOf(s, a), Injection.Do(s, a);
    var os := OutcomesIn(l, s.events, luck);
    if e.Some? {
      OneMoreEvent(l, s.events, e.value, luck);
      if a.Finish? {
        var o := LoadOutcome(l, s.worker.kind, s.worker.buffer, luck(|s.events|));
        WorksMore(os, o);
        LoadOutcomeIsPast(l, s.worker.kind, s.worker.buffer, luck(|s.events|));
        InstallIsRest(Works(os), o);
      } else if a == Injection.Allocate(false) {
        WorksMore(os, NoBuffer);
        NoBufferChangesNothing(Works(os));
      } else {
        assert os + [] == os;
      }
    }
  }

  lemma InstallIsRest(s: Programs, o: Outcome)
    requires !o.NoBuffer?
    ensures After(s, o) == Install(s.FreeCurrent(), o)
  {
  }

  lemma NoBufferChangesNothing(s: Programs)
    ensures After(s, NoBuffer) == s
  {
  }

  lemma {:induction false} RunIsAccounted(l: Layout, start: Injection.State, run: seq<Injection.Action>,
                                          s: Injection.State, luck: Fortune)
    requires Injection.Init(start) && Injection.Run(start, run) == Some(s)
    ensures Accounted(l, s, luck)
    decreases |run|
  {
    Injection.RunUnfolds(start, run);
    if run != [] {
      var n := |run| - 1;
      var before := Injection.Run(start, run[..n]);
      assert before.Some? && Injection.Enabled(before.value, run[n]);
      RunIsAccounted(l, start, run[..n], before.value, luck);
      StepIsAccounted(l, before.value, run[n], luck);
    }
  }

  /** Ownership over whole interleaved runs: whenever no program is being read, the
      program objects are exactly those of a sequence of setups with the outcomes
      of the executions that have ended, so all that is proved of such sequences
      holds of every run. */
  lemma ObjectsAreWorks(l: Layout, run: seq<Injection.Action>, s: Injection.State, luck: Fortune)
    requires Injection.Reaches(run, s) && !s.worker.Loading?
    ensures ObjectsAfter(l, s.events, luck) == Works(OutcomesIn(l, s.events, luck))
  {
    var start :| Injection.Init(start) && Injection.Run(start, run) == Some(s);
    RunIsAccounted(l, start, run, s, luck);
  }

  lemma {:induction false} LastOutcomeIsLoaded(l: Layout, es: seq<Injection.Event>, luck: Fortune)
    requires Injection.Last(es, Injection.TLoaded) > Injection.Last(es, Injection.TAllocated)
    ensures var last := Injection.Last(es, Injection.TLoaded); var os := OutcomesIn(l, es, luck);
      os != [] && os[|os| - 1] == LoadOutcome(l, es[last].kind, es[last].buffer, luck(last))
  {
    var n := |es| - 1;
    if !es[n].Loaded? {
      LastOutcomeIsLoaded(l, es[..n], luck);
      assert OutcomesIn(l, es, luck) == OutcomesIn(l, es[..n], luck);
    }
  }

  lemma EndsInstalled(os: seq<Outcome>)
    requires os != [] && os[|os| - 1].Installed?
    ensures RunOf(Works(os)) == RanProgram(os[|os| - 1].program)
  {
    var n := |os| - 1;
    assert os == os[..n] + [os[n]];
    WorksMore(os[..n], os[n]);
  }

  /** And once a run has settled on a delivered program whose words were all fetched
      in time, and its object and runtime were granted, the program that the driver
      runs is that one. */
  lemma SettledRunRunsTheProgramSent(env: Env, run: seq<Injection.Action>, s: Injection.State, before: seq<u32>,
                                     p: seq<Insn>, kind: u8, luck: Fortune)
    requires Injection.Reaches(run, s) && Injection.Settled(s) && Injection.Granted(s.events)
    requires !s.handler.TypeSet? && Injection.Timely(s.events, s.left)
    requires |before| >= WINDOW_WORDS && 8 * |p| < 0x1_0000
    requires var msg := ProgramMessage(p, kind); s.left == Delivered(before, BUF / 4, msg, PayloadWords(msg))
    requires env.layout.Distinct() && forall h: Helper :: env.layout.Near(h)
    requires WellFormed(p) && forall i :: 0 <= i < |p| ==> !IsUnknownCall(p[i])
    requires var last := Injection.Last(s.events, Injection.TLoaded);
      last >= 0 ==> luck(last).prog && luck(last).runtime
    ensures var ran := RunOf(ObjectsAfter(env.layout, s.events, luck));
      && ran.RanProgram? && SameRuns(env, p, ran.program.insns)
      && ProgName(ProgType(s.programType)).Some?
      && ran.program.name == "hv-" + ProgName(ProgType(s.programType)).value
  {
    hide SameRuns, OutcomeOf, WellFormed, Works, ObjectsAfter, OutcomesIn;
    var l, last := env.layout, Injection.Last(s.events, Injection.TLoaded);
    SettledInjectionRunsAsSent(env, run, s, before, p, kind);
    hide Injection.Reaches, Injection.Settled, Injection.Timely, Delivered, ProgramMessage, PayloadWords;
    Injection.NoLostInjection(run, s);
    ObjectsAreWorks(l, run, s, luck);
    LastOutcomeIsLoaded(l, s.events, luck);
    var os := OutcomesIn(l, s.events, luck);
    assert luck(last).(buffer := true) == Luck(true, true, true);
    EndsInstalled(os);
  }

  /** The window after `p` is delivered as the first injection type. */
  function Holding(words: seq<u32>, p: seq<Insn>): seq<u32>
    requires |words| >= WINDOW_WORDS && 8 * |p| < 0x1_0000
  {
    var msg := ProgramMessage(p, PROGRAM_INJECTION);
    Delivered(words, BUF / 4, msg, PayloadWords(msg))
  }

  /** Deliveries that need the success hypothesis of ownership: after any program
      `p` whose helper calls are known, one that calls an unknown helper leaves
      the freed `p` to be run, and the next delivery frees it again; a refused
      program object leaves NULL to be run though the setup returns 0. */
  lemma FailingDeliveries(l: Layout, words: seq<u32>, p: seq<Insn>, q: seq<Insn>, name: string)
    requires |words| >= WINDOW_WORDS && 8 * |p| < 0x1_0000 && 8 * |q| < 0x1_0000
    requires forall i :: 0 <= i < |p| ==> !IsUnknownCall(p[i])
    requires exists i :: 0 <= i < |q| && IsUnknownCall(q[i])
    ensures var good := OutcomeOf(l, Sent(Holding(words, p)), name, Luck(true, true, true));
      var bad := OutcomeOf(l, Sent(Holding(words, q)), name, Luck(true, true, true));
      var refused := OutcomeOf(l, Sent(Holding(words, p)), name, Luck(true, false, true));
      && RunOf(Works([good, bad])) == RanFreed(0)
      && Works([good, bad, good]).frees == [0, 0]
      && RunOf(Works([good, refused])) == RanNull && ReturnOf(refused) == 0
  {
    DeliveredProgramIsInstalled(l, words, p, PROGRAM_INJECTION, name);
    DeliveredProgramIsInstalled(l, words, q, PROGRAM_INJECTION, name);
    var good := Program("hv-" + name, Relocate(l, p).1);
    FailingHistories(good, good);
  }
}
