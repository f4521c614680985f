/** The pass that turns abstract helper identifiers into call offsets
    (shared/driver/driver.c, bpfhv_helper_calls_fixup). */
module Relocation {
  import opened Words
  import opened Insns

  const EINVAL := 22
  const HELPER_MAGIC := 0x4b8f_0000

  datatype Helper = TestHelper | MemoryInfoHelper | SetMaximumPageOrderHelper

  /** Where the kernel placed `__bpf_call_base` and the three helpers. */
  datatype Layout = Layout(base: u64, test: u64, memoryInfo: u64, maximumOrder: u64) {
    function Entry(h: Helper): u64 {
      match h
      case TestHelper => test
      case MemoryInfoHelper => memoryInfo
      case SetMaximumPageOrderHelper => maximumOrder
    }

    /** `func - __bpf_call_base`, stored into a signed 32-bit field. */
    function Offset(h: Helper): s32 {
      Signed32(Entry(h) - base)
    }

    /** The distance from the base, as a signed 64-bit number, fits 32 bits. */
    predicate Near(h: Helper) {
      (Entry(h) - base + 0x8000_0000) % 0x1_0000_0000_0000_0000 < 0x1_0000_0000
    }

    /** Functions that differ do not share an entry point. */
    predicate Distinct() {
      test != memoryInfo && test != maximumOrder && memoryInfo != maximumOrder
    }
  }

  function IdOf(h: Helper): s32 {
    match h
    case TestHelper => HELPER_MAGIC
    case MemoryInfoHelper => HELPER_MAGIC + 1
    case SetMaximumPageOrderHelper => HELPER_MAGIC + 2
  }

  function HelperOf(id: s32): (h: Option<Helper>)
    ensures forall g :: h == Some(g) <==> id == IdOf(g)
  {
    if id == HELPER_MAGIC then Some(TestHelper)
    else if id == HELPER_MAGIC + 1 then Some(MemoryInfoHelper)
    else if id == HELPER_MAGIC + 2 then Some(SetMaximumPageOrderHelper)
    else None
  }

  predicate IsHelperCall(i: Insn) {
    i.code == CALL && i.dst == 0 && i.src == 0 && i.off == 0
  }

  predicate IsUnknownCall(i: Insn) {
    IsHelperCall(i) && HelperOf(i.imm) == None
  }

  function Fixed(l: Layout, i: Insn): Insn {
    if IsHelperCall(i) && HelperOf(i.imm).Some? then i.(imm := l.Offset(HelperOf(i.imm).value)) else i
  }

  /** The result of the pass and what it leaves in the buffer, by recursion on
      the program. The lemmas below say what it amounts to. */
  function Relocate(l: Layout, p: seq<Insn>): (r: (int, seq<Insn>))
    ensures |r.1| == |p|
  {
    if p == [] then (0, [])
    else if IsUnknownCall(p[0]) then (-EINVAL, p)
    else
      var rest := Relocate(l, p[1..]);
      (rest.0, [Fixed(l, p[0])] + rest.1)
  }

  /** Everything before `k` is resolved and nothing from `k` on is touched. */
  ghost predicate ResolvedUpTo(l: Layout, p: seq<Insn>, q: seq<Insn>, k: nat) {
    && |q| == |p| && k <= |p|
    && (forall i :: 0 <= i < k ==> !IsUnknownCall(p[i]) && q[i] == Fixed(l, p[i]))
    && (forall i :: k <= i < |p| ==> q[i] == p[i])
  }

  lemma {:induction false} RelocateStops(l: Layout, p: seq<Insn>, k: nat)
    requires k <= |p|
    requires forall i :: 0 <= i < k ==> !IsUnknownCall(p[i])
    requires k == |p| || IsUnknownCall(p[k])
    ensures Relocate(l, p).0 == if k == |p| then 0 else -EINVAL
    ensures ResolvedUpTo(l, p, Relocate(l, p).1, k)
  {
    if k > 0 {
      RelocateStops(l, p[1..], k - 1);
      var q := Relocate(l, p).1;
      var rest := Relocate(l, p[1..]).1;
      assert forall i :: 0 < i < |p| ==> p[i] == p[1..][i - 1] && q[i] == rest[i - 1];
    }
  }

  /** The in-place loop. */
  method HelperCallsFixup(l: Layout, insns: array<Insn>, count: nat) returns (ret: int)
    requires count <= insns.Length
    modifies insns
    ensures ret == 0 || ret == -EINVAL
    ensures (ret, insns[..count]) == Relocate(l, old(insns[..count]))
    ensures insns[count..] == old(insns[count..])
  {
    ghost var p := insns[..count];
    var i := 0;
    while i < count
      invariant 0 <= i <= count
      invariant ResolvedUpTo(l, p, insns[..count], i)
      invariant insns[count..] == old(insns[count..])
    {
      var insn := insns[i];
      assert insn == insns[..count][i] == p[i];
      if !(insn.code == CALL && insn.dst == 0 && insn.src == 0 && insn.off == 0) {
        i := i + 1;
        continue;
      }
      var func: Helper;
      if insn.imm == HELPER_MAGIC {
        func := TestHelper;
      } else if insn.imm == HELPER_MAGIC + 1 {
        func := MemoryInfoHelper;
      } else if insn.imm == HELPER_MAGIC + 2 {
        func := SetMaximumPageOrderHelper;
      } else {
        RelocateStops(l, p, i);
        SamePrefix(l, p, insns[..count], Relocate(l, p).1, i);
        return -EINVAL;
      }
      insns[i] := insn.(imm := l.Offset(func));
      assert insns[..count][i] == Fixed(l, p[i]);
      i := i + 1;
    }
    RelocateStops(l, p, count);
    SamePrefix(l, p, insns[..count], Relocate(l, p).1, count);
    return 0;
  }

  lemma SamePrefix(l: Layout, p: seq<Insn>, q: seq<Insn>, r: seq<Insn>, k: nat)
    requires ResolvedUpTo(l, p, q, k) && ResolvedUpTo(l, p, r, k)
    ensures q == r
  {
    assert forall i :: 0 <= i < |p| ==> q[i] == r[i];
  }

  /** Exactness on both outcomes: success means that every matching call names
      a known helper; failure leaves precisely the calls before the first
      unknown one resolved and the rest as received. */
  lemma {:induction false} FixupIsExact(l: Layout, p: seq<Insn>)
    ensures Relocate(l, p).0 == 0 <==> forall i :: 0 <= i < |p| ==> !IsUnknownCall(p[i])
    ensures Relocate(l, p).0 == 0 ==> ResolvedUpTo(l, p, Relocate(l, p).1, |p|)
    ensures Relocate(l, p).0 != 0 ==>
      && Relocate(l, p).0 == -EINVAL
      && exists k: nat :: k < |p| && IsUnknownCall(p[k]) && ResolvedUpTo(l, p, Relocate(l, p).1, k)
  {
    if exists k :: 0 <= k < |p| && IsUnknownCall(p[k]) {
      var k := FirstUnknown(p);
      RelocateStops(l, p, k);
    } else {
      RelocateStops(l, p, |p|);
    }
  }

  lemma FirstUnknown(p: seq<Insn>) returns (k: nat)
    requires exists j :: 0 <= j < |p| && IsUnknownCall(p[j])
    ensures k < |p| && IsUnknownCall(p[k]) && forall i :: 0 <= i < k ==> !IsUnknownCall(p[i])
  {
    k := 0;
    while !IsUnknownCall(p[k])
      invariant k < |p| && exists j :: k <= j < |p| && IsUnknownCall(p[j])
      invariant forall i :: 0 <= i < k ==> !IsUnknownCall(p[i])
      decreases |p| - k
    {
      k := k + 1;
    }
  }

  /** On either outcome only the immediate field of matching calls can differ:
      program-local calls (src_reg 1), wide-immediate second slots (opcode 0) and
      every other instruction come out as they went in. */
  lemma {:induction false} OnlyImmediatesOfCallsChange(l: Layout, p: seq<Insn>)
    ensures |Relocate(l, p).1| == |p|
    ensures forall i :: 0 <= i < |p| ==>
      Relocate(l, p).1[i] == p[i] ||
      (IsHelperCall(p[i]) && Relocate(l, p).1[i] == p[i].(imm := Relocate(l, p).1[i].imm))
  {
    FixupIsExact(l, p);
  }

  lemma UnknownByFields(i: Insn)
    ensures IsHelperCall(i) <==> i.code == 0x85 && i.dst == 0 && i.src == 0 && i.off == 0
    ensures IsUnknownCall(i) <==> IsHelperCall(i) && !(0x4b8f_0000 <= i.imm <= 0x4b8f_0002)
  {
  }

  /** The pass by the fields of the instructions and the numbers of the protocol. An
      instruction with opcode 0x85 and destination, source and offset 0 asks for a
      helper; the pass succeeds iff all that do carry one of the three identifiers.
      Every other instruction comes out as it went in. */
  lemma {:induction false} CallsByTheirFields(l: Layout, p: seq<Insn>)
    ensures Relocate(l, p).0 == 0 <==> forall i ::
      0 <= i < |p| && p[i].code == 0x85 && p[i].dst == 0 && p[i].src == 0 && p[i].off == 0 ==>
      0x4b8f_0000 <= p[i].imm <= 0x4b8f_0002
    ensures Relocate(l, p).0 != 0 ==> Relocate(l, p).0 == -22
    ensures |Relocate(l, p).1| == |p| && forall i ::
      0 <= i < |p| && (p[i].code != 0x85 || p[i].dst != 0 || p[i].src != 0 || p[i].off != 0) ==>
      Relocate(l, p).1[i] == p[i]
  {
    hide Relocate;
    forall i | 0 <= i < |p|
      ensures IsHelperCall(p[i]) <==> p[i].code == 0x85 && p[i].dst == 0 && p[i].src == 0 && p[i].off == 0
      ensures IsUnknownCall(p[i]) <==> IsHelperCall(p[i]) && !(0x4b8f_0000 <= p[i].imm <= 0x4b8f_0002)
    {
      UnknownByFields(p[i]);
    }
    FixupIsExact(l, p);
    OnlyImmediatesOfCallsChange(l, p);
  }

  /** So a program without such instructions, with program-local calls for instance,
      is accepted and left alone. */
  lemma {:induction false} OtherProgramsPass(l: Layout, p: seq<Insn>)
    requires forall i :: 0 <= i < |p| ==> p[i].code != 0x85 || p[i].dst != 0 || p[i].src != 0 || p[i].off != 0
    ensures Relocate(l, p) == (0, p)
  {
    hide Relocate;
    CallsByTheirFields(l, p);
    assert Relocate(l, p).1 == p;
  }

  /** What the pass writes, likewise: a request before the first one for a helper
      that does not exist gets the distance from the base to the helper it names,
      the first identifier being the test helper's, the second the memory
      information helper's, the third the page order helper's. */
  lemma {:induction false} OffsetsByIdentifier(l: Layout, p: seq<Insn>, i: nat)
    requires i < |p| && p[i].code == 0x85 && p[i].dst == 0 && p[i].src == 0 && p[i].off == 0
    requires forall k :: 0 <= k <= i && p[k].code == 0x85 && p[k].dst == 0 && p[k].src == 0 && p[k].off == 0 ==>
      0x4b8f_0000 <= p[k].imm <= 0x4b8f_0002
    ensures |Relocate(l, p).1| == |p|
    ensures var imm := Relocate(l, p).1[i].imm;
      && Relocate(l, p).1[i] == p[i].(imm := imm)
      && (p[i].imm == 0x4b8f_0000 ==> (imm - (l.test - l.base)) % 0x1_0000_0000 == 0)
      && (p[i].imm == 0x4b8f_0001 ==> (imm - (l.memoryInfo - l.base)) % 0x1_0000_0000 == 0)
      && (p[i].imm == 0x4b8f_0002 ==> (imm - (l.maximumOrder - l.base)) % 0x1_0000_0000 == 0)
  {
    hide Signed32, Relocate, IsUnknownCall, IsHelperCall;
    forall k | 0 <= k <= i
      ensures !IsUnknownCall(p[k])
    {
      UnknownByFields(p[k]);
    }
    UnknownByFields(p[i]);
    var k := ResolvedPast(l, p, i);
    SignedIsCongruent(l.test - l.base);
    SignedIsCongruent(l.memoryInfo - l.base);
    SignedIsCongruent(l.maximumOrder - l.base);
  }

  /** And from the first such request on nothing changes. */
  lemma {:induction false} NothingChangesAfter(l: Layout, p: seq<Insn>, k: nat, i: nat)
    requires k <= i < |p| && p[k].code == 0x85 && p[k].dst == 0 && p[k].src == 0 && p[k].off == 0
    requires !(0x4b8f_0000 <= p[k].imm <= 0x4b8f_0002)
    ensures |Relocate(l, p).1| == |p| && Relocate(l, p).1[i] == p[i]
  {
    hide Relocate;
    UnknownByFields(p[k]);
    FixupIsExact(l, p);
  }

  lemma {:induction false} ResolvedPast(l: Layout, p: seq<Insn>, i: nat) returns (k: nat)
    requires i < |p| && forall j :: 0 <= j <= i ==> !IsUnknownCall(p[j])
    ensures i < k && ResolvedUpTo(l, p, Relocate(l, p).1, k)
  {
    if exists j :: 0 <= j < |p| && IsUnknownCall(p[j]) {
      k := FirstUnknown(p);
      RelocateStops(l, p, k);
    } else {
      k := |p|;
      RelocateStops(l, p, k);
    }
  }

  lemma SignedIsCongruent(d: int)
    ensures (Signed32(d) - d) % 0x1_0000_0000 == 0
  {
    var q := (d + 0x8000_0000) / 0x1_0000_0000;
    assert Signed32(d) - d == -q * 0x1_0000_0000;
  }

  /** Running the pass over its own output succeeds exactly when every offset it
      wrote happens to be a helper id. */
  lemma {:induction false} SecondRunExact(l: Layout, p: seq<Insn>)
    requires Relocate(l, p).0 == 0
    ensures var q := Relocate(l, p).1;
      Relocate(l, q).0 == 0 <==>
      forall i :: 0 <= i < |p| && IsHelperCall(p[i]) ==> HelperOf(Fixed(l, p[i]).imm).Some?
  {
    var q := Relocate(l, p).1;
    FixupIsExact(l, p);
    FixupIsExact(l, q);
    forall i | 0 <= i < |p|
      ensures IsUnknownCall(q[i]) <==>
        IsHelperCall(p[i]) && HelperOf(Fixed(l, p[i]).imm).None?
    {
      assert !IsUnknownCall(p[i]) && q[i] == Fixed(l, p[i]);
    }
  }

  /** Hence, when no offset falls in the id range, the pass runs once only: a
      second run succeeds iff there is no helper call, and changes nothing then. */
  lemma {:induction false} RunsOnceOnly(l: Layout, p: seq<Insn>)
    requires Relocate(l, p).0 == 0
    requires forall h: Helper :: HelperOf(l.Offset(h)).None?
    ensures var q := Relocate(l, p).1;
      && (Relocate(l, q).0 == 0 <==> forall i :: 0 <= i < |p| ==> !IsHelperCall(p[i]))
      && (Relocate(l, q).0 == 0 ==> Relocate(l, q).1 == q == p)
  {
    var q := Relocate(l, p).1;
    SecondRunExact(l, p);
    FixupIsExact(l, p);
    FixupIsExact(l, q);
    if forall i :: 0 <= i < |p| ==> !IsHelperCall(p[i]) {
      assert forall i :: 0 <= i < |p| ==> q[i] == p[i];
      assert forall i :: 0 <= i < |p| ==> Relocate(l, q).1[i] == q[i];
    }
  }

  /** Adding the stored 32-bit offset to the base reaches the helper exactly when
      the helper lies within the signed 32-bit range around the base. */
  lemma OffsetReachesIffNear(l: Layout, h: Helper)
    ensures (l.base + l.Offset(h)) % 0x1_0000_0000_0000_0000 == l.Entry(h) <==> l.Near(h)
  {
    var entry: int, base: int := l.Entry(h), l.base;
    OffsetReaches(base, entry - base, Shortest(entry - base));
    ShortestIsCongruent(entry - base);
  }

  /** The representative of a distance modulo 2^64 that lies in [-2^31, 2^64 - 2^31). */
  function Shortest(d: int): int
    requires -0x1_0000_0000_0000_0000 < d < 0x1_0000_0000_0000_0000
  {
    if d < -0x8000_0000 then d + 0x1_0000_0000_0000_0000
    else if d >= 0x1_0000_0000_0000_0000 - 0x8000_0000 then d - 0x1_0000_0000_0000_0000
    else d
  }

  lemma ShortestIsCongruent(d: int)
    requires -0x1_0000_0000_0000_0000 < d < 0x1_0000_0000_0000_0000
    ensures (d + 0x8000_0000) % 0x1_0000_0000_0000_0000 == Shortest(d) + 0x8000_0000
    ensures Signed32(d) == Signed32(Shortest(d))
  {
  }

  /** Adding a 32-bit offset `o` to the base reaches `base + d` iff `o` is the
      shortest distance itself. */
  lemma OffsetReaches(base: int, d: int, s: int)
    requires 0 <= base < 0x1_0000_0000_0000_0000 && 0 <= base + d < 0x1_0000_0000_0000_0000
    requires -0x1_0000_0000_0000_0000 < d < 0x1_0000_0000_0000_0000 && s == Shortest(d)
    ensures (base + Signed32(s)) % 0x1_0000_0000_0000_0000 == base + d <==> s < 0x8000_0000
  {
    var sum: int := base + Signed32(s);
    assert sum % 0x1_0000_0000_0000_0000 ==
      if sum < 0 then sum + 0x1_0000_0000_0000_0000
      else if sum >= 0x1_0000_0000_0000_0000 then sum - 0x1_0000_0000_0000_0000
      else sum;
    if s < 0x8000_0000 {
      assert Signed32(s) == s;
    }
  }
}
