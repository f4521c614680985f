/** Who owns which program object over any run of setups, whatever each setup's
    outcome (shared/driver/driver.c, bpf_programs_setup and execute_work). */
module Ownership {
  import opened Words
  import opened Loader

  /** The program objects after a sequence of setups on a freshly probed device. */
  function Works(os: seq<Outcome>): Programs {
    if os == [] then NO_PROGRAMS else After(Works(os[..|os| - 1]), os[|os| - 1])
  }

  /** The last setup that got as far as freeing the previous program. */
  function LastPast(os: seq<Outcome>): Option<Outcome> {
    if os == [] then None
    else if os[|os| - 1] != NoBuffer then Some(os[|os| - 1])
    else LastPast(os[..|os| - 1])
  }

  /** The last setup that assigned the driver's pointer. */
  function LastAssigned(os: seq<Outcome>): Option<Outcome> {
    if os == [] then None
    else if os[|os| - 1] != NoBuffer && os[|os| - 1] != BadCall then Some(os[|os| - 1])
    else LastAssigned(os[..|os| - 1])
  }

  predicate PointsSomewhere(os: seq<Outcome>) {
    LastAssigned(os).Some? && LastAssigned(os).value.Installed?
  }

  /** The driver still refers to a program that is already freed. */
  predicate Dangling(os: seq<Outcome>) {
    LastPast(os) == Some(BadCall) && PointsSomewhere(os)
  }

  predicate Owning(os: seq<Outcome>) {
    LastPast(os).Some? && LastPast(os).value.Installed?
  }

  function Objects(os: seq<Outcome>): nat {
    if os == [] then 0
    else Objects(os[..|os| - 1]) + if os[|os| - 1].Installed? || os[|os| - 1].NoRuntime? then 1 else 0
  }

  lemma {:induction false} OwningPointsToTheSame(os: seq<Outcome>)
    ensures Owning(os) ==> LastAssigned(os) == LastPast(os)
    ensures LastPast(os).Some? && LastPast(os).value != BadCall ==> LastAssigned(os) == LastPast(os)
    ensures LastPast(os).None? ==> LastAssigned(os).None?
  {
    if os != [] && os[|os| - 1] == NoBuffer {
      OwningPointsToTheSame(os[..|os| - 1]);
    }
  }

  /** Exact pointer and heap state after any sequence of outcomes: the pointer is
      set iff the last assignment was an installation; the only object that can be
      live is the one it names, and it is live iff the last setup that got past
      its buffer allocation installed it; otherwise nothing is live. */
  lemma {:induction false} StateIsExact(os: seq<Outcome>)
    ensures var s := Works(os);
      && s.next == Objects(os)
      && (s.current.Some? <==> PointsSomewhere(os))
      && (s.current.Some? ==> s.current.value < s.next)
      && s.live == (if Owning(os) && s.current.Some? then map[s.current.value := LastPast(os).value.program] else map[])
      && (Owning(os) ==> s.current.Some?)
  {
    if os != [] {
      StateIsExact(os[..|os| - 1]);
      OwningPointsToTheSame(os);
      OwningPointsToTheSame(os[..|os| - 1]);
    }
  }

  /** What `BPF_PROG_RUN` is handed after each work item, on every path: the
      program installed last iff no later setup freed it, an already freed one
      iff a setup failed at relocation since, and NULL otherwise. */
  lemma {:induction false} RunIsExact(os: seq<Outcome>)
    ensures forall p :: RunOf(Works(os)) == RanProgram(p) <==> LastPast(os) == Some(Installed(p))
    ensures RunOf(Works(os)).RanFreed? <==> Dangling(os)
    ensures RunOf(Works(os)).RanNull? <==> !PointsSomewhere(os)
  {
    StateIsExact(os);
    OwningPointsToTheSame(os);
  }

  ghost predicate NoDuplicates(s: seq<nat>) {
    forall i, j :: 0 <= i < j < |s| ==> s[i] != s[j]
  }

  /** Nothing leaks on any path: every object ever handed out is live or has been
      freed, never both, and only handed-out objects are freed. */
  lemma {:induction false} NothingLeaks(os: seq<Outcome>)
    ensures var s := Works(os);
      && (forall r: nat :: r < s.next <==> r in s.live || r in s.frees)
      && (forall r :: r in s.live ==> r !in s.frees)
  {
    if os != [] {
      var before := os[..|os| - 1];
      NothingLeaks(before);
      StateIsExact(before);
      var s, f, t := Works(before), Works(before).FreeCurrent(), Works(os);
      assert forall r :: r in f.frees <==> r in s.frees || s.current == Some(r);
      assert forall r: nat :: r < f.next <==> r in f.live || r in f.frees;
      match os[|os| - 1]
      case NoBuffer =>
      case BadCall =>
      case NoProgram =>
      case NoRuntime(p) =>
        assert forall r :: r in t.frees <==> r in f.frees || r == s.next;
      case Installed(p) =>
        assert forall r :: r in t.live <==> r in f.live || r == s.next;
    }
  }

  /** Some setup freed a program while the pointer was dangling. */
  ghost predicate FreesTwice(os: seq<Outcome>) {
    exists k :: 0 <= k < |os| && os[k] != NoBuffer && Dangling(os[..k])
  }

  lemma AppendDistinct(s: seq<nat>, r: nat)
    ensures NoDuplicates(s + [r]) <==> NoDuplicates(s) && r !in s
  {
    var t := s + [r];
    if NoDuplicates(t) {
      assert forall i :: 0 <= i < |s| ==> s[i] == t[i] != t[|s|];
      assert forall i, j :: 0 <= i < j < |s| ==> s[i] == t[i] && s[j] == t[j];
    }
  }

  /** Exactly when a program is freed twice: iff a setup that reaches the free
      follows a relocation failure that left the pointer on a freed program. */
  lemma {:induction false} FreedOnceIffNeverDangling(os: seq<Outcome>)
    ensures NoDuplicates(Works(os).frees) <==> !FreesTwice(os)
  {
    if os != [] {
      var n := |os| - 1;
      var before := os[..n];
      FreedOnceIffNeverDangling(before);
      LastStepFreesTwice(os);
      NothingLeaks(before);
      RunIsExact(before);
      StateIsExact(before);
      var s := Works(before);
      if os[n] != NoBuffer {
        if s.current.Some? {
          AppendDistinct(s.frees, s.current.value);
        }
        if os[n].NoRuntime? {
          AppendDistinct(s.FreeCurrent().frees, s.next);
        }
      }
    }
  }

  lemma LastStepFreesTwice(os: seq<Outcome>)
    requires os != []
    ensures var n := |os| - 1;
      FreesTwice(os) <==> FreesTwice(os[..n]) || (os[n] != NoBuffer && Dangling(os[..n]))
  {
    var n := |os| - 1;
    assert forall k :: 0 <= k < n ==> os[..n][..k] == os[..k] && os[..n][k] == os[k];
    if FreesTwice(os[..n]) {
      var k :| 0 <= k < n && os[..n][k] != NoBuffer && Dangling(os[..n][..k]);
      assert os[k] != NoBuffer && Dangling(os[..k]);
    }
    if FreesTwice(os) {
      var k :| 0 <= k < |os| && os[k] != NoBuffer && Dangling(os[..k]);
      assert k < n ==> os[..n][k] != NoBuffer && Dangling(os[..n][..k]);
    }
  }

  /** When every setup succeeds, after each one exactly one program is live, the
      pointer names it, it is the one run, and every earlier program has been
      freed exactly once, in order. */
  lemma {:induction false} SuccessfulRunsOwnOneProgram(os: seq<Outcome>)
    requires os != [] && forall i :: 0 <= i < |os| ==> os[i].Installed?
    ensures var s, n := Works(os), |os|;
      && s.current == Some(n - 1)
      && s.live == map[n - 1 := os[n - 1].program]
      && s.frees == seq(n - 1, i => i)
      && RunOf(s) == RanProgram(os[n - 1].program)
  {
    var n := |os|;
    var before := os[..n - 1];
    if n == 1 {
      assert Works(before) == NO_PROGRAMS;
    } else {
      SuccessfulRunsOwnOneProgram(before);
      ObjectsOfSuccesses(before);
      StateIsExact(before);
      assert Works(os) == After(Works(before), os[n - 1]);
      hide Works, Objects;
      assert Works(os).frees == seq(n - 2, i => i) + [n - 2] == seq(n - 1, i => i);
    }
  }

  lemma {:induction false} ObjectsOfSuccesses(os: seq<Outcome>)
    requires forall i :: 0 <= i < |os| ==> os[i].Installed?
    ensures Objects(os) == |os|
  {
    if os != [] {
      ObjectsOfSuccesses(os[..|os| - 1]);
    }
  }

  /** Three concrete histories that need the success hypothesis. */
  lemma FailingHistories(p: Program, q: Program)
    ensures RunOf(Works([Installed(p), BadCall])) == RanFreed(0)
    ensures Works([Installed(p), BadCall, Installed(q)]).frees == [0, 0]
    ensures RunOf(Works([Installed(p), NoProgram])) == RanNull && ReturnOf(NoProgram) == 0
  {
    var a := [Installed(p)];
    var b := [Installed(p), BadCall];
    var c := [Installed(p), BadCall, Installed(q)];
    var d := [Installed(p), NoProgram];
    assert a[..0] == [] && b[..1] == a && c[..2] == b && d[..1] == a;
    assert Works(a) == After(NO_PROGRAMS, Installed(p));
    assert Works(b) == After(Works(a), BadCall);
    assert Works(c) == After(Works(b), Installed(q));
    assert Works(d) == After(Works(a), NoProgram);
  }
}
