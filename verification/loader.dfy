/** Installing the program found in the mailbox
    (shared/driver/driver.c, bpf_programs_setup and bpf_my_prog_alloc). */
module Loader {
  import opened Words
  import opened Insns
  import opened Relocation
  import opened Mailboxes
  import opened FreeLists
  import opened Snapshot

  const ENOMEM := 12
  const PROG_NONE := 0
  const PROG_TEST := 1
  const PROG_GET_MEMORY_INFO := 2
  const PROG_SET_MAXIMUM_PAGE_ORDER := 3

  datatype Program = Program(name: string, insns: seq<Insn>)

  /** The kernel's answers to the requests one setup makes: the instruction
      buffer, the program object, and the choice of a runtime for it. */
  datatype Luck = Luck(buffer: bool, prog: bool, runtime: bool)

  /** Program objects. `current` is the driver's pointer, `live` the objects not
      yet freed, `frees` every call to `bpf_prog_free` in order, and `next` the
      next reference the kernel hands out. */
  datatype Programs = Programs(current: Option<nat>, live: map<nat, Program>, frees: seq<nat>, next: nat) {
    function Free(ref: nat): Programs {
      this.(live := live - {ref}, frees := frees + [ref])
    }

    function FreeCurrent(): Programs {
      if current.Some? then Free(current.value) else this
    }

    function Allocate(p: Program): Programs {
      this.(live := live[next := p], next := next + 1)
    }
  }

  const NO_PROGRAMS := Programs(None, map[], [], 0)

  function ProgName(id: nat): Option<string> {
    if id == PROG_TEST then Some("test")
    else if id == PROG_GET_MEMORY_INFO then Some("get_memory_info")
    else if id == PROG_SET_MAXIMUM_PAGE_ORDER then Some("set_max_page_order")
    else None
  }

  function ProgType(programType: u8): nat {
    if programType == PROGRAM_INJECTION then PROG_TEST
    else if programType == PROGRAM_MEMORY_INFO then PROG_GET_MEMORY_INFO
    else if programType == PROGRAM_SET_MAXIMUM_ORDER then PROG_SET_MAXIMUM_PAGE_ORDER
    else PROG_NONE
  }

  /** The shared type and the pending mark after an interrupt with this status. */
  function TypeAfter(programType: u8, status: u32): u8 {
    if IsInjection(status) then status else programType
  }

  predicate DueAfter(pending: bool, status: u32) {
    pending || IsInjection(status)
  }

  predicate IsInjection(kind: int) {
    kind == PROGRAM_INJECTION || kind == PROGRAM_MEMORY_INFO || kind == PROGRAM_SET_MAXIMUM_ORDER
  }

  /** A program has a name exactly when its type is one of the injection types, and
      programs injected under different types have different names. */
  lemma InjectionsHaveNames(programType: u8, other: u8)
    ensures ProgName(ProgType(programType)).Some? <==> IsInjection(programType)
    ensures ProgType(programType) == PROG_NONE <==> !IsInjection(programType)
    ensures IsInjection(programType) && ProgName(ProgType(programType)) == ProgName(ProgType(other)) ==>
      programType == other
  {
    assert "test"[0] == 't' && "get_memory_info"[0] == 'g' && "set_max_page_order"[0] == 's';
  }

  /** The names by type: what a program injected with status 1, 3 or 4 is called. */
  lemma NamesByType(programType: u8)
    ensures IsInjection(programType) ==> ProgName(ProgType(programType)).Some?
    ensures programType == 1 ==> ProgName(ProgType(programType)) == Some("test")
    ensures programType == 3 ==> ProgName(ProgType(programType)) == Some("get_memory_info")
    ensures programType == 4 ==> ProgName(ProgType(programType)) == Some("set_max_page_order")
    ensures programType != 1 && programType != 3 && programType != 4 ==> ProgName(ProgType(programType)) == None
    ensures IsInjection(programType) <==> programType == 1 || programType == 3 || programType == 4
  {
  }

  /** The dispatch by the status word: 1, 3 and 4 are injections, store themselves as
      the shared type and make an execution due; no other word does either. */
  lemma InjectionsByStatus(programType: u8, pending: bool, status: u32)
    ensures status == 1 || status == 3 || status == 4 ==>
      TypeAfter(programType, status) == status && DueAfter(pending, status)
    ensures status != 1 && status != 3 && status != 4 ==>
      TypeAfter(programType, status) == programType && DueAfter(pending, status) == pending
  {
  }

  /** How a setup ends. */
  datatype Outcome =
    | NoBuffer                    // no instruction buffer
    | BadCall                     // a call to an unknown helper
    | NoProgram                   // no program object
    | NoRuntime(rejected: Program)
    | Installed(program: Program)

  /** The outcome for program words already read from the window. */
  function OutcomeOf(l: Layout, sent: seq<u32>, name: string, luck: Luck): Outcome {
    var (ret, insns) := Relocate(l, Parse(sent));
    if !luck.buffer then NoBuffer
    else if ret != 0 then BadCall
    else if !luck.prog then NoProgram
    else if !luck.runtime then NoRuntime(Program("hv-" + name, insns))
    else Installed(Program("hv-" + name, insns))
  }

  function ReturnOf(o: Outcome): int {
    match o
    case NoBuffer => -ENOMEM
    case BadCall => -EINVAL
    case _ => 0
  }

  /** What the part of a setup after the previous program is freed does. */
  function Install(s: Programs, o: Outcome): Programs {
    match o
    case NoBuffer => s
    case BadCall => s
    case NoProgram => s.(current := None)
    case NoRuntime(p) => s.Allocate(p).Free(s.next).(current := None)
    case Installed(p) => s.Allocate(p).(current := Some(s.next))
  }

  /** The program objects after a setup that ends with `o`. */
  function After(s: Programs, o: Outcome): Programs {
    if o.NoBuffer? then s else Install(s.FreeCurrent(), o)
  }

  /** A setup case by case, by the kernel's answers and the fields of the received
      instructions: the return code, the pointer, what is freed and what is live. */
  lemma SetupByCases(l: Layout, s: Programs, sent: seq<u32>, name: string, luck: Luck)
    ensures var o, p := OutcomeOf(l, sent, name, luck), Parse(sent);
      var t, ret := After(s, o), ReturnOf(o);
      var freed := if s.current.Some? then [s.current.value] else [];
      var known := forall i ::
        0 <= i < |p| && p[i].code == 0x85 && p[i].dst == 0 && p[i].src == 0 && p[i].off == 0 ==>
        0x4b8f_0000 <= p[i].imm <= 0x4b8f_0002;
      if !luck.buffer then ret == -12 && t == s
      else if !known then
        ret == -22 && t.current == s.current && t.frees == s.frees + freed && t.next == s.next
        && t.live == s.live - set r | r in freed
      else if !luck.prog then
        ret == 0 && t.current == None && t.frees == s.frees + freed && t.next == s.next
        && t.live == s.live - set r | r in freed
      else if !luck.runtime then
        ret == 0 && t.current == None && t.frees == s.frees + freed + [s.next] && t.next == s.next + 1
        && s.next !in t.live
      else
        ret == 0 && t.current == Some(s.next) && t.frees == s.frees + freed && t.next == s.next + 1
        && s.next in t.live && t.live[s.next] == Program("hv-" + name, Relocate(l, p).1)
  {
    hide Parse, Relocate;
    CallsByTheirFields(l, Parse(sent));
    if s.current.Some? {
      assert (set r | r in [s.current.value]) == {s.current.value};
    }
  }

  /** With everything granted and every call known, the program received is live
      under the name of its type, and is the current one. */
  lemma GrantedSetup(l: Layout, s: Programs, sent: seq<u32>, programType: u8)
    requires IsInjection(programType) && ProgName(ProgType(programType)).Some?
    ensures var name := ProgName(ProgType(programType)).value;
      var t, p := After(s, OutcomeOf(l, sent, name, Luck(true, true, true))), Parse(sent);
      Relocate(l, p).0 == 0 ==>
        && t.current.Some? && t.current.value in t.live && t.live[t.current.value].insns == Relocate(l, p).1
        && (programType == 1 ==> t.live[t.current.value].name == "hv-test")
        && (programType == 3 ==> t.live[t.current.value].name == "hv-get_memory_info")
        && (programType == 4 ==> t.live[t.current.value].name == "hv-set_max_page_order")
  {
    hide Relocate, Parse;
    assert "hv-" + "test" == "hv-test" && "hv-" + "get_memory_info" == "hv-get_memory_info";
    assert "hv-" + "set_max_page_order" == "hv-set_max_page_order";
  }

  /** What `BPF_PROG_RUN` is handed. */
  datatype Ran = RanProgram(program: Program) | RanFreed(ref: nat) | RanNull

  function RunOf(s: Programs): Ran {
    if s.current.None? then RanNull
    else if s.current.value in s.live then RanProgram(s.live[s.current.value])
    else RanFreed(s.current.value)
  }

  class Driver {
    const layout: Layout
    const mailbox: Mailbox
    var programType: u8
    var flag: bool
    var pending: bool
    var current: Option<nat>
    var live: map<nat, Program>
    var frees: seq<nat>
    var next: nat
    var ran: seq<Ran>

    ghost predicate Valid()
      reads this, mailbox
    {
      mailbox.Valid()
    }

    function State(): Programs
      reads this
    {
      Programs(current, live, frees, next)
    }

    constructor (layout: Layout, mailbox: Mailbox)
      requires mailbox.Valid()
      ensures Valid() && this.layout == layout && this.mailbox == mailbox
      ensures programType == 0 && !flag && !pending && State() == NO_PROGRAMS && ran == []
    {
      this.layout := layout;
      this.mailbox := mailbox;
      programType := 0;
      flag := false;
      pending := false;
      current := None;
      live := map[];
      frees := [];
      next := 0;
      ran := [];
    }

    method BpfProgFree(ref: nat)
      modifies this`live, this`frees
      ensures State() == old(State().Free(ref))
    {
      live := live - {ref};
      frees := frees + [ref];
    }

    method BpfMyProgAlloc(name: string, insns: array<Insn>, count: nat, luck: Luck) returns (prog: Option<nat>)
      requires count <= insns.Length
      modifies this`live, this`frees, this`next
      ensures var p := Program("hv-" + name, insns[..count]);
        State() == if !luck.prog then old(State())
                   else if !luck.runtime then old(State()).Allocate(p).Free(old(next))
                   else old(State()).Allocate(p)
      ensures prog == if luck.prog && luck.runtime then Some(old(next)) else None
    {
      if !luck.prog {
        return None;
      }
      var ref := next;
      next := next + 1;
      live := live[ref := Program("hv-" + name, insns[..count])];
      if !luck.runtime {
        BpfProgFree(ref);
        return None;
      }
      return Some(ref);
    }

    /** Copy the payload window word by word into an instruction buffer. */
    method ReadInsns(programSize: nat) returns (insns: array<Insn>)
      requires Valid() && 8 * programSize < 0x1_0000
      ensures fresh(insns)
      ensures insns[..] == Parse(mailbox.words[5..5 + 2 * programSize])
    {
      var jmax := programSize * 8 / 4;
      var raw := new u32[jmax];
      var j := 0;
      while j < jmax
        invariant 0 <= j <= jmax == 2 * programSize
        invariant raw[..j] == mailbox.words[5..5 + j]
      {
        raw[j] := mailbox.Read32(BUF + HEADER_OFFSET + 4 * j);
        j := j + 1;
      }
      ghost var sent := mailbox.words[5..5 + jmax];
      assert raw[..] == sent;
      insns := new Insn[programSize](i requires 0 <= i < programSize reads raw =>
        FromWords(raw[2 * i], raw[2 * i + 1]));
      assert forall i :: 0 <= i < programSize ==> insns[i] == Parse(sent)[i];
    }

    /** Read the header and the payload words, free the previous program, resolve
        helper calls, and replace the program. */
    method BpfProgramsSetup(programId: nat, luck: Luck) returns (ret: int)
      requires Valid() && ProgName(programId).Some?
      modifies this`current, this`live, this`frees, this`next
      ensures Valid()
      ensures var o := OutcomeOf(layout, Sent(mailbox.words), ProgName(programId).value, luck);
        ret == ReturnOf(o) && State() == After(old(State()), o)
    {
      hide Relocate, Parse, HeaderOf;
      var header := mailbox.Read32(BUF);
      var programSize := HeaderOf(header).length / 8;
      if !luck.buffer {
        return -ENOMEM;
      }
      if current.Some? {
        BpfProgFree(current.value);
      }
      var insns := ReadInsns(programSize);
      assert insns[..] == insns[..programSize] == Parse(Sent(mailbox.words));
      ret := HelperCallsFixup(layout, insns, programSize);
      if ret != 0 {
        return;
      }
      current := BpfMyProgAlloc(ProgName(programId).value, insns, programSize, luck);
      if current.None? {
        return;
      }
      ret := 0;
    }

    /** The work function: set up with the type found now, then run whatever the
        pointer holds, whether or not the setup succeeded. */
    method ExecuteWork(luck: Luck)
      requires Valid() && IsInjection(programType)
      modifies this`current, this`live, this`frees, this`next, this`ran
      ensures Valid()
      ensures var name := ProgName(ProgType(programType)).value;
        State() == After(old(State()), OutcomeOf(layout, Sent(mailbox.words), name, luck))
      ensures ran == old(ran) + [RunOf(State())]
      ensures var p := Parse(Sent(mailbox.words));
        luck == Luck(true, true, true) && Relocate(layout, p).0 == 0 ==>
        && current.Some? && current.value in live
        && live[current.value].insns == Relocate(layout, p).1
        && (programType == 1 ==> live[current.value].name == "hv-test")
        && (programType == 3 ==> live[current.value].name == "hv-get_memory_info")
        && (programType == 4 ==> live[current.value].name == "hv-set_max_page_order")
    {
      hide Relocate, Parse, ProgName, ProgType, OutcomeOf, After;
      NamesByType(programType);
      GrantedSetup(layout, State(), Sent(mailbox.words), programType);
      var ret := BpfProgramsSetup(ProgType(programType), luck);
      ran := ran + [RunOf(State())];
    }

    /** The interrupt handler: read the status register, dispatch, acknowledge. The
        arguments after `ours` are what the migration snapshot works on. */
    method IrqHandler(ours: bool, mem: Memory, walk: Walk, populated: seq<Zone>, nodes: seq<nat>, cpu: Cpu,
                      buffer: array<u64>, bufferAddress: u64, elapsed: u32, ghost seen: seq<ZoneLists>)
      returns (handled: bool)
      requires Valid()
      requires ours && mailbox.words[0] == FIRST_ROUND_MIGRATION_START ==>
        && buffer.Length == BUFFER_WORDS && DistinctZones(populated) && ScratchFits(nodes, populated)
        && ZonesShow(mem, walk, populated, seen) && (forall z :: z in populated ==> !z.locked)
        && |Flatten(seen)| <= MIGRATION_BUFFER_SIZE / 16
      modifies this`programType, this`pending, this`flag, mailbox, buffer, cpu, populated`locked
      ensures Valid() && handled == ours
      ensures cpu.irqOn == old(cpu.irqOn) && forall z :: z in populated ==> z.locked == old(z.locked)
      ensures !ours ==> unchanged(this) && unchanged(mailbox) && unchanged(buffer) && unchanged(cpu)
      ensures ours ==> var status := old(mailbox.words)[0];
        && (status == 1 || status == 3 || status == 4 ==> programType == status && pending)
        && (status != 1 && status != 3 && status != 4 ==> programType == old(programType) && pending == old(pending))
        && (flag <==> old(flag) || status == 22)
        && (status == 5 ==> Announces(mailbox.words, bufferAddress, |Flatten(seen)|))
        && (status != 5 ==> mailbox.words == old(mailbox.words)[1 := status])
        && |mailbox.writes| > 0 && mailbox.writes[|mailbox.writes| - 1] == Write(4, status)
      ensures ours ==> var status := old(mailbox.words)[0];
        && programType == TypeAfter(old(programType), status)
        && pending == DueAfter(old(pending), status)
        && flag == (old(flag) || status == INIT_IRQ)
        && (status == FIRST_ROUND_MIGRATION_START ==> Stores(buffer, 2 * |Flatten(seen)|, Flatten(seen)))
        && (status != FIRST_ROUND_MIGRATION_START ==> unchanged(buffer) && unchanged(cpu))
        && mailbox.writes == old(mailbox.writes)
             + (if status == FIRST_ROUND_MIGRATION_START
                then Publication(bufferAddress, |Flatten(seen)|, elapsed) else [])
             + [Write(REG_LOWER_IRQ, status)]
        && mailbox.words ==
             (if status == FIRST_ROUND_MIGRATION_START
              then Published(old(mailbox.words), bufferAddress, |Flatten(seen)|, elapsed)
              else old(mailbox.words))[1 := status]
    {
      if !ours {
        return false;
      }
      var status := mailbox.Read32(REG_STATUS_IRQ);
      if status == PROGRAM_INJECTION {
        programType := PROGRAM_INJECTION;
        pending := true;
      } else if status == PROGRAM_MEMORY_INFO {
        programType := PROGRAM_MEMORY_INFO;
        pending := true;
      } else if status == PROGRAM_SET_MAXIMUM_ORDER {
        programType := PROGRAM_SET_MAXIMUM_ORDER;
        pending := true;
      } else if status == FIRST_ROUND_MIGRATION_START {
        WriteGuestFreePages(mem, walk, populated, nodes, cpu, buffer, bufferAddress, elapsed, mailbox, seen);
        HandlerAnnounces(old(mailbox.words), bufferAddress, |Flatten(seen)|, elapsed);
      } else if status == FIRST_ROUND_MIGRATION_ENDED {
        // the end of a round asks nothing of the guest
      } else if status == INIT_IRQ {
        flag := true;
      }
      mailbox.Write32(REG_LOWER_IRQ, status);
      return true;
    }
  }
}
