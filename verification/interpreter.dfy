/** A small eBPF machine with two ways of calling helpers, and the theorem that
    relocation preserves what programs do.

    Control flow, wide loads, helper calls, program-local calls and exit are
    concrete (RFC 9669, sections 3.1, 3.2, 4.3, 4.3.1, 4.3.2). Arithmetic and
    memory instructions, branch conditions and helper results are arbitrary
    functions of the instruction and the registers, so the theorem holds
    whatever they compute. */
module Interpreter {
  import opened Words
  import opened Insns
  import opened Relocation

  type Regs = r: seq<u64> | |r| == 11 witness [0, 0, 0, 0, 0, 0, 0, 0, 0, 0, 0]
  type Memory = map<u64, u8>

  /** `log` records which helpers ran, in order: each helper's only effect in the
      driver is the line it prints. */
  type Saved = s: seq<u64> | |s| == 4 witness [0, 0, 0, 0]
  datatype Frame = Frame(resume: int, saved: Saved)
  datatype Machine =
    | Running(pc: int, regs: Regs, mem: Memory, frames: seq<Frame>, log: seq<Helper>)
    | Exited(result: u64, mem: Memory, log: seq<Helper>)
    | Faulted(log: seq<Helper>)

  datatype Env = Env(
    layout: Layout,
    compute: (Insn, Regs, Memory) -> Option<(Regs, Memory)>,
    taken: (Insn, Regs) -> bool,
    helper: (Helper, Regs) -> u64)

  datatype Calls = ById | ByAddress

  /** The helper a call instruction reaches: by identifier, or by jumping to the
      base plus the sign-extended immediate. */
  function Target(l: Layout, calls: Calls, imm: s32): Option<Helper> {
    match calls
    case ById => HelperOf(imm)
    case ByAddress =>
      var a := (l.base + imm) % 0x1_0000_0000_0000_0000;
      if a == l.test then Some(TestHelper)
      else if a == l.memoryInfo then Some(MemoryInfoHelper)
      else if a == l.maximumOrder then Some(SetMaximumPageOrderHelper)
      else None
  }

  /** The 64-bit constant of a wide load, whose high half is in the next slot. */
  function WideValue(low: Insn, high: Insn): u64 {
    Unsigned32(low.imm) + 0x1_0000_0000 * Unsigned32(high.imm)
  }

  function Step(env: Env, calls: Calls, p: seq<Insn>, m: Machine): Machine {
    if !m.Running? then m
    else if !(0 <= m.pc < |p|) then Faulted(m.log)
    else
      var i := p[m.pc];
      if i.code == LDDW then
        if m.pc + 1 < |p| && i.dst <= 10 then
          m.(pc := m.pc + 2, regs := m.regs[i.dst := WideValue(i, p[m.pc + 1])])
        else Faulted(m.log)
      else if i.code == CALL then
        if IsHelperCall(i) then
          match Target(env.layout, calls, i.imm)
          case Some(h) => m.(pc := m.pc + 1, regs := m.regs[0 := env.helper(h, m.regs)], log := m.log + [h])
          case None => Faulted(m.log)
        else if i.src == 1 then
          m.(pc := m.pc + 1 + i.imm, frames := [Frame(m.pc + 1, m.regs[6..10])] + m.frames)
        else Faulted(m.log)
      else if i.code == EXIT then
        if m.frames == [] then Exited(m.regs[0], m.mem, m.log)
        else m.(pc := m.frames[0].resume,
                regs := m.regs[..6] + m.frames[0].saved + m.regs[10..],
                frames := m.frames[1..])
      else if i.code == 0x05 then m.(pc := m.pc + 1 + i.off)       // JA
      else if i.code == 0x06 then m.(pc := m.pc + 1 + i.imm)       // JA, 32-bit class
      else if i.code % 8 == 5 || i.code % 8 == 6 then              // JMP, JMP32
        m.(pc := m.pc + 1 + if env.taken(i, m.regs) then i.off else 0)
      else
        match env.compute(i, m.regs, m.mem)
        case Some((regs, mem)) => m.(pc := m.pc + 1, regs := regs, mem := mem)
        case None => Faulted(m.log)
  }

  /** Helper calls by their numbers: opcode 0x85 with destination, source and offset 0
      runs the helper its identifier names, puts the result in register 0, and goes
      on with the next instruction. */
  lemma HelperCallStep(env: Env, p: seq<Insn>, m: Machine)
    requires m.Running? && 0 <= m.pc < |p|
    requires p[m.pc].code == 0x85 && p[m.pc].dst == 0 && p[m.pc].src == 0 && p[m.pc].off == 0
    ensures var t := Step(env, ById, p, m); var imm := p[m.pc].imm;
      if 0x4b8f_0000 <= imm <= 0x4b8f_0002 then
        var h := if imm == 0x4b8f_0000 then TestHelper
                 else if imm == 0x4b8f_0001 then MemoryInfoHelper else SetMaximumPageOrderHelper;
        t == Running(m.pc + 1, m.regs[0 := env.helper(h, m.regs)], m.mem, m.frames, m.log + [h])
      else t == Faulted(m.log)
  {
  }

  /** A program-local call (source 1) and the exit that ends it (opcode 0x95): the
      caller goes on after the call with its registers 6 to 9, whatever ran in
      between, and no helper is logged by either. */
  lemma LocalCallReturns(env: Env, calls: Calls, p: seq<Insn>, m: Machine, end: Machine)
    requires m.Running? && 0 <= m.pc < |p| && p[m.pc].code == 0x85 && p[m.pc].src == 1
    requires end.Running? && 0 <= end.pc < |p| && p[end.pc].code == 0x95
    requires Step(env, calls, p, m).Running? && end.frames == Step(env, calls, p, m).frames
    ensures var inside, after := Step(env, calls, p, m), Step(env, calls, p, end);
      && inside.pc == m.pc + 1 + p[m.pc].imm && inside.regs == m.regs && inside.log == m.log
      && after.Running? && after.pc == m.pc + 1 && after.frames == m.frames && after.log == end.log
      && (forall r :: 0 <= r < 11 ==> after.regs[r] == if 6 <= r <= 9 then m.regs[r] else end.regs[r])
  {
  }

  /** A wide load (opcode 0x18) takes its low half from its own immediate and its
      high half from the next slot's, and skips that slot. */
  lemma WideLoadStep(env: Env, calls: Calls, p: seq<Insn>, m: Machine)
    requires m.Running? && 0 <= m.pc && m.pc + 1 < |p| && p[m.pc].code == 0x18 && p[m.pc].dst <= 10
    ensures var t := Step(env, calls, p, m); var low, high := p[m.pc].imm, p[m.pc + 1].imm;
      && t.Running? && t.pc == m.pc + 2
      && t.regs[p[m.pc].dst] % 0x1_0000_0000 == low % 0x1_0000_0000
      && t.regs[p[m.pc].dst] / 0x1_0000_0000 == high % 0x1_0000_0000
      && forall r :: 0 <= r < 11 && r != p[m.pc].dst ==> t.regs[r] == m.regs[r]
  {
  }

  /** Jumps count from the next instruction: opcode 0x05 by its offset, 0x06 by its
      immediate, the others of classes 5 and 6 by their offset if taken. The last
      exit ends the program with register 0. */
  lemma JumpSteps(env: Env, calls: Calls, p: seq<Insn>, m: Machine)
    requires m.Running? && 0 <= m.pc < |p|
    ensures var i, t := p[m.pc], Step(env, calls, p, m);
      && (i.code == 0x05 ==> t == m.(pc := m.pc + 1 + i.off))
      && (i.code == 0x06 ==> t == m.(pc := m.pc + 1 + i.imm))
      && ((i.code % 8 == 5 || i.code % 8 == 6) && i.code !in {0x05, 0x06, 0x85, 0x95} ==>
            t == m.(pc := if env.taken(i, m.regs) then m.pc + 1 + i.off else m.pc + 1))
      && (i.code == 0x95 && m.frames == [] ==> t == Exited(m.regs[0], m.mem, m.log))
  {
  }

  function Run(env: Env, calls: Calls, p: seq<Insn>, m: Machine, n: nat): Machine
    decreases n
  {
    if n == 0 then m else Run(env, calls, p, Step(env, calls, p, m), n - 1)
  }

  /** The second slot of a wide load looks like a helper call whose immediate
      the pass rewrites, so the pass changes a constant. */
  predicate RewritesConstant(l: Layout, p: seq<Insn>, i: nat) {
    && i + 1 < |p| && p[i].code == LDDW && p[i].dst <= 10
    && IsHelperCall(p[i + 1]) && HelperOf(p[i + 1].imm).Some?
    && l.Offset(HelperOf(p[i + 1].imm).value) != p[i + 1].imm
  }

  predicate CallsOutOfReach(l: Layout, p: seq<Insn>, i: nat) {
    i < |p| && IsHelperCall(p[i]) && HelperOf(p[i].imm).Some? && !l.Near(HelperOf(p[i].imm).value)
  }

  /** RFC 9669, section 3.2: the second slot of a wide instruction has opcode 0. */
  predicate WellFormed(p: seq<Insn>) {
    forall i :: 0 <= i < |p| && p[i].code == LDDW ==> i + 1 < |p| && p[i + 1].code == 0
  }

  ghost predicate SameRuns(env: Env, p: seq<Insn>, q: seq<Insn>) {
    forall m: Machine, n: nat :: Run(env, ById, p, m, n) == Run(env, ByAddress, q, m, n)
  }

  lemma NearCallReachesItsHelper(l: Layout, h: Helper)
    requires l.Distinct()
    ensures Target(l, ByAddress, l.Offset(h)) == Some(h) <==> l.Near(h)
  {
    OffsetReachesIffNear(l, h);
  }

  lemma SameStep(env: Env, p: seq<Insn>, q: seq<Insn>, m: Machine)
    requires env.layout.Distinct()
    requires Relocate(env.layout, p) == (0, q)
    requires forall i: nat :: !RewritesConstant(env.layout, p, i)
    requires forall i: nat :: !CallsOutOfReach(env.layout, p, i)
    ensures Step(env, ById, p, m) == Step(env, ByAddress, q, m)
  {
    FixupIsExact(env.layout, p);
    if m.Running? && 0 <= m.pc < |p| {
      var i := p[m.pc];
      assert q[m.pc] == Fixed(env.layout, i) && !IsUnknownCall(i);
      if IsHelperCall(i) {
        assert !CallsOutOfReach(env.layout, p, m.pc);
        NearCallReachesItsHelper(env.layout, HelperOf(i.imm).value);
      } else if i.code == LDDW && m.pc + 1 < |p| {
        assert !RewritesConstant(env.layout, p, m.pc);
        assert q[m.pc + 1] == Fixed(env.layout, p[m.pc + 1]);
      }
    }
  }

  lemma {:induction false} SameRun(env: Env, p: seq<Insn>, q: seq<Insn>, m: Machine, n: nat)
    requires env.layout.Distinct()
    requires Relocate(env.layout, p) == (0, q)
    requires forall i: nat :: !RewritesConstant(env.layout, p, i)
    requires forall i: nat :: !CallsOutOfReach(env.layout, p, i)
    ensures Run(env, ById, p, m, n) == Run(env, ByAddress, q, m, n)
    decreases n
  {
    if n > 0 {
      SameStep(env, p, q, m);
      SameRun(env, p, q, Step(env, ById, p, m), n - 1);
    }
  }

  lemma DifferentStep(env: Env, p: seq<Insn>, q: seq<Insn>, i: nat) returns (m: Machine)
    requires env.layout.Distinct()
    requires Relocate(env.layout, p) == (0, q)
    requires RewritesConstant(env.layout, p, i) || CallsOutOfReach(env.layout, p, i)
    ensures Step(env, ById, p, m) != Step(env, ByAddress, q, m)
  {
    var zero: Regs := [0, 0, 0, 0, 0, 0, 0, 0, 0, 0, 0];
    m := Running(i, zero, map[], [], []);
    FixupIsExact(env.layout, p);
    assert q[i] == Fixed(env.layout, p[i]);
    if RewritesConstant(env.layout, p, i) {
      assert q[i + 1] == Fixed(env.layout, p[i + 1]);
      assert WideValue(p[i], p[i + 1]) != WideValue(q[i], q[i + 1]);
      assert Step(env, ById, p, m).regs[p[i].dst] == WideValue(p[i], p[i + 1]);
      assert Step(env, ByAddress, q, m).regs[p[i].dst] == WideValue(q[i], q[i + 1]);
    } else {
      var h := HelperOf(p[i].imm).value;
      NearCallReachesItsHelper(env.layout, h);
      assert Step(env, ById, p, m).log == [h];
      assert IsHelperCall(q[i]) && q[i].imm == env.layout.Offset(h);
      match Target(env.layout, ByAddress, q[i].imm)
      case Some(g) => assert Step(env, ByAddress, q, m).log == [g];
      case None =>
    }
  }

  /** Relocation preserves meaning, with the exact condition: once the pass has
      succeeded, running the received program with helpers called by id and the
      rewritten one with helpers called at base plus offset agree from every
      state, for every number of steps, if and only if the pass rewrote no wide
      constant and every helper called is within reach of the base. */
  lemma RelocationPreservesMeaning(env: Env, p: seq<Insn>, q: seq<Insn>)
    requires env.layout.Distinct()
    requires Relocate(env.layout, p) == (0, q)
    ensures SameRuns(env, p, q) <==>
      forall i: nat :: !RewritesConstant(env.layout, p, i) && !CallsOutOfReach(env.layout, p, i)
  {
    if forall i: nat :: !RewritesConstant(env.layout, p, i) && !CallsOutOfReach(env.layout, p, i) {
      forall m: Machine, n: nat
        ensures Run(env, ById, p, m, n) == Run(env, ByAddress, q, m, n)
      {
        SameRun(env, p, q, m, n);
      }
    } else {
      var i: nat :| RewritesConstant(env.layout, p, i) || CallsOutOfReach(env.layout, p, i);
      var m := DifferentStep(env, p, q, i);
      assert Run(env, ById, p, m, 1) == Run(env, ById, p, Step(env, ById, p, m), 0);
      assert Run(env, ByAddress, q, m, 1) == Run(env, ByAddress, q, Step(env, ByAddress, q, m), 0);
      assert Run(env, ById, p, m, 1) != Run(env, ByAddress, q, m, 1);
    }
  }

  /** The case the design is for: well-formed programs, helpers near the base. */
  lemma WellFormedProgramsKeepTheirMeaning(env: Env, p: seq<Insn>)
    requires env.layout.Distinct() && forall h: Helper :: env.layout.Near(h)
    requires WellFormed(p)
    requires forall i :: 0 <= i < |p| ==> !IsUnknownCall(p[i])
    ensures Relocate(env.layout, p).0 == 0
    ensures SameRuns(env, p, Relocate(env.layout, p).1)
  {
    FixupIsExact(env.layout, p);
    RelocationPreservesMeaning(env, p, Relocate(env.layout, p).1);
  }

  /** A program the pass accepts and changes: the high half of its constant looks
      like a call to the test helper. */
  lemma RewrittenConstantExample(env: Env)
    requires env.layout.Distinct() && env.layout.Offset(TestHelper) != HELPER_MAGIC
    ensures var p := [Insn(LDDW, 1, 0, 0, 0), Insn(CALL, 0, 0, 0, HELPER_MAGIC), Insn(EXIT, 0, 0, 0, 0)];
      Relocate(env.layout, p).0 == 0 && !SameRuns(env, p, Relocate(env.layout, p).1)
  {
    var p := [Insn(LDDW, 1, 0, 0, 0), Insn(CALL, 0, 0, 0, HELPER_MAGIC), Insn(EXIT, 0, 0, 0, 0)];
    FixupIsExact(env.layout, p);
    RelocationPreservesMeaning(env, p, Relocate(env.layout, p).1);
    assert RewritesConstant(env.layout, p, 0);
  }
}
