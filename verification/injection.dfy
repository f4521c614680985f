/** Interrupts, the work item and the host, interleaved step by step
    (shared/driver/driver.c, irq_handler, execute_work and bpf_programs_setup).

    The interrupt line is masked while it is served, so one handler runs at a
    time; a work item never runs concurrently with itself and its pending mark is
    cleared before it runs. Every other interleaving is allowed: a new interrupt
    may be served, and the host may rewrite the mailbox, between any two steps of
    the work function. A migration interrupt writes the same window that programs
    are loaded from. */
module Injection {
  import opened Words
  import opened Mailboxes
  import opened Loader
  import Snapshot

  datatype Handler =
    | Idle
    | Serving(status: u32)
    | TypeSet(kind: u8)
    | Publishing(address: u64, pairs: u32, p: nat)  // p words of the snapshot's message are stored
    | Acking(ack: u32)

  datatype Worker =
    | Waiting
    | Begun
    | Typed(kind: u8)                                // program_type has been read
    | Sized(kind: u8, size: nat)                      // the header has been read
    | Loading(kind: u8, size: nat, buffer: seq<u32>)  // the buffer has been granted

  /** Observable history, oldest first. */
  datatype Event =
    | HostWrote
    | Overwrote(word: nat, value: u32)      // the handler stored a word of its own message
    | Scheduled(kind: u8)                   // schedule_work on behalf of one interrupt
    | Began                                 // one execution of the work function starts
    | Read(kind: u8)                        // it reads program_type
    | Fetched(word: nat)                    // it reads a word of the message
    | Allocated(granted: bool)              // it asks for the instruction buffer
    | Loaded(kind: u8, buffer: seq<u32>)    // it has all program words

  /** `left` is the window as the host last left it. */
  datatype State = State(
    mail: Window, left: Window, programType: u8, pending: bool,
    handler: Handler, worker: Worker, events: seq<Event>)

  datatype Action =
    | HostWrites(words: Window)
    | Interrupt(status: u32)
    | SetType
    | Schedule
    | StartMigration(address: u64, pairs: u32)
    | StoreWord
    | RingDoorbell(elapsed: u32)
    | Ignore
    | Acknowledge
    | Begin
    | ReadType
    | ReadHeader
    | Allocate(granted: bool)
    | ReadWord
    | Finish

  ghost predicate Init(s: State) {
    s == State(s.mail, s.mail, 0, false, Idle, Waiting, [])
  }

  predicate Enabled(s: State, a: Action) {
    match a
    case HostWrites(words) => |words| == |s.mail|
    case Interrupt(_) => s.handler.Idle?
    case SetType => s.handler.Serving? && IsInjection(s.handler.status)
    case Schedule => s.handler.TypeSet?
    case StartMigration(_, _) => s.handler == Serving(FIRST_ROUND_MIGRATION_START)
    case StoreWord => s.handler.Publishing? && s.handler.p < 4
    case RingDoorbell(_) => s.handler.Publishing? && s.handler.p == 4
    case Ignore =>
      s.handler.Serving? && !IsInjection(s.handler.status) && s.handler.status != FIRST_ROUND_MIGRATION_START
    case Acknowledge => s.handler.Acking?
    case Begin => s.pending && s.worker.Waiting?
    case ReadType => s.worker.Begun?
    case ReadHeader => s.worker.Typed?
    case Allocate(_) => s.worker.Sized?
    case ReadWord => s.worker.Loading? && |s.worker.buffer| < s.worker.size && 5 + |s.worker.buffer| < |s.mail|
    case Finish => s.worker.Loading? && |s.worker.buffer| == s.worker.size
  }

  /** What a step leaves in the history, if anything. */
  function EventOf(s: State, a: Action): Option<Event>
    requires Enabled(s, a)
  {
    match a
    case HostWrites(_) => Some(HostWrote)
    case Schedule => Some(Scheduled(s.handler.kind))
    case StoreWord => Some(Overwrote(4 + s.handler.p, ToStore(s.handler)))
    case Begin => Some(Began)
    case ReadType => Some(Read(s.programType))
    case ReadHeader => Some(Fetched(4))
    case Allocate(granted) => Some(Allocated(granted))
    case ReadWord => Some(Fetched(5 + |s.worker.buffer|))
    case Finish => Some(Loaded(s.worker.kind, s.worker.buffer))
    case _ => None
  }

  function ToStore(handler: Handler): u32
    requires handler.Publishing?
  {
    Snapshot.AnnouncedWord(handler.address, handler.pairs, handler.p)
  }

  /** What a step does apart from the history. */
  function Effect(s: State, a: Action): State
    requires Enabled(s, a)
  {
    match a
    case HostWrites(words) => s.(mail := words, left := words)
    case Interrupt(status) => s.(handler := Serving(status))
    case SetType => s.(programType := s.handler.status, handler := TypeSet(s.handler.status))
    case Schedule => s.(pending := true, handler := Acking(s.handler.kind))
    case StartMigration(address, pairs) => s.(handler := Publishing(address, pairs, 0))
    case StoreWord =>
      var p := s.handler.p;
      s.(mail := s.mail[4 + p := ToStore(s.handler)], handler := s.handler.(p := p + 1))
    case RingDoorbell(elapsed) => s.(mail := s.mail[2 := elapsed], handler := Acking(FIRST_ROUND_MIGRATION_START))
    case Ignore => s.(handler := Acking(s.handler.status))
    case Acknowledge => s.(mail := s.mail[1 := s.handler.ack], handler := Idle)
    case Begin => s.(pending := false, worker := Begun)
    case ReadType => s.(worker := Typed(s.programType))
    case ReadHeader => s.(worker := Sized(s.worker.kind, |Sent(s.mail)|))
    case Allocate(granted) =>
      s.(worker := if granted then Loading(s.worker.kind, s.worker.size, []) else Waiting)
    case ReadWord => s.(worker := s.worker.(buffer := s.worker.buffer + [s.mail[5 + |s.worker.buffer|]]))
    case Finish => s.(worker := Waiting)
  }

  function Do(s: State, a: Action): State
    requires Enabled(s, a)
  {
    var e := EventOf(s, a);
    Effect(s, a).(events := if e.Some? then s.events + [e.value] else s.events)
  }

  function Next(s: Option<State>, a: Action): Option<State> {
    if s.Some? && Enabled(s.value, a) then Some(Do(s.value, a)) else None
  }

  /** The state after `run`, or none when some step of it is not enabled. */
  function Run(s: State, run: seq<Action>): Option<State>
    decreases |run|
  {
    if run == [] then Some(s) else Next(Run(s, run[..|run| - 1]), run[|run| - 1])
  }

  /** `s` is reached from a freshly probed device by `run`. */
  ghost predicate Reaches(run: seq<Action>, s: State) {
    exists start :: Init(start) && Run(start, run) == Some(s)
  }

  predicate IsHandlerStep(a: Action) {
    a.Interrupt? || a.SetType? || a.Schedule? || a.StartMigration? || a.StoreWord? || a.RingDoorbell? || a.Ignore?
    || a.Acknowledge?
  }

  /** The machine allows every interleaving: whether a step can be taken depends on
      the handler alone, or on the worker and the pending mark, or for the host on
      nothing; and it touches nothing that belongs to another party. */
  lemma NoHiddenSynchronization(s: State, t: State, a: Action)
    requires |s.mail| == |t.mail|
    ensures a.HostWrites? ==> (Enabled(s, a) <==> Enabled(t, a))
    ensures IsHandlerStep(a) && s.handler == t.handler ==> (Enabled(s, a) <==> Enabled(t, a))
    ensures !a.HostWrites? && !IsHandlerStep(a) && s.worker == t.worker && s.pending == t.pending ==>
      (Enabled(s, a) <==> Enabled(t, a))
    ensures a.HostWrites? && |a.words| == |s.mail| ==>
      Enabled(s, a) && Do(s, a) == s.(mail := a.words, left := a.words, events := s.events + [HostWrote])
    ensures Enabled(s, a) && IsHandlerStep(a) ==>
      Do(s, a).worker == s.worker && Do(s, a).left == s.left && s.events <= Do(s, a).events
    ensures Enabled(s, a) && !IsHandlerStep(a) && !a.HostWrites? ==> var u := Do(s, a);
      u.handler == s.handler && u.mail == s.mail && u.left == s.left && u.programType == s.programType
      && s.events <= u.events
  {
    hide Sent, ToStore, IsInjection;
  }

  /** A freshly probed device may hold anything in its window. */
  lemma AnyWindowIsInitial(words: Window)
    ensures Init(State(words, words, 0, false, Idle, Waiting, []))
  {
  }

  datatype Tag = TWrote | TOverwrote | TScheduled | TBegan | TRead | TFetched | TAllocated | TLoaded

  function TagOf(e: Event): Tag {
    match e
    case HostWrote => TWrote
    case Overwrote(_, _) => TOverwrote
    case Scheduled(_) => TScheduled
    case Began => TBegan
    case Read(_) => TRead
    case Fetched(_) => TFetched
    case Allocated(_) => TAllocated
    case Loaded(_, _) => TLoaded
  }

  /** Position of the last event of a kind, or -1. */
  function Last(es: seq<Event>, t: Tag): (i: int)
    ensures -1 <= i < |es|
    ensures i >= 0 ==> TagOf(es[i]) == t
  {
    if es == [] then -1
    else if TagOf(es[|es| - 1]) == t then |es| - 1
    else Last(es[..|es| - 1], t)
  }

  lemma {:induction false} LastIsLast(es: seq<Event>, t: Tag)
    ensures forall j :: Last(es, t) < j < |es| ==> TagOf(es[j]) != t
  {
    if es != [] && TagOf(es[|es| - 1]) != t {
      LastIsLast(es[..|es| - 1], t);
    }
  }

  function Count(es: seq<Event>, t: Tag): nat {
    if es == [] then 0 else Count(es[..|es| - 1], t) + if TagOf(es[|es| - 1]) == t then 1 else 0
  }

  lemma Append(es: seq<Event>, e: Event, t: Tag)
    ensures Last(es + [e], t) == if t == TagOf(e) then |es| else Last(es, t)
    ensures Count(es + [e], t) == Count(es, t) + if t == TagOf(e) then 1 else 0
  {
    assert (es + [e])[..|es|] == es;
  }

  /** What the handler stored in a word since the host last wrote, if anything. */
  function Over(es: seq<Event>, word: nat): Option<u32> {
    if es == [] then None
    else
      var n := |es| - 1;
      match es[n]
      case HostWrote => None
      case Overwrote(k, value) => if k == word then Some(value) else Over(es[..n], word)
      case _ => Over(es[..n], word)
  }

  lemma OverAppend(es: seq<Event>, e: Event, word: nat)
    ensures Over(es + [e], word) ==
      if e.HostWrote? then None
      else if e.Overwrote? && e.word == word then Some(e.value)
      else Over(es, word)
  {
    assert (es + [e])[..|es|] == es;
  }

  /** A fetch of `word` now comes too late: the handler has replaced what the host
      left there. For the header only the announced length matters. */
  predicate Late(es: seq<Event>, left: Window, word: nat) {
    && word < |left|
    && Over(es, word).Some?
    && var value := Over(es, word).value;
       if word == 4 then InsnCount(value) != InsnCount(left[4]) else value != left[word]
  }

  /** No fetch of the last execution came too late. */
  ghost predicate Timely(es: seq<Event>, left: Window) {
    forall i :: Last(es, TBegan) < i < |es| && es[i].Fetched? ==> !Late(es[..i], left, es[i].word)
  }

  lemma TimelyAppend(es: seq<Event>, e: Event, left: Window)
    ensures Timely(es + [e], left) <==> e.Began? || (Timely(es, left) && (e.Fetched? ==> !Late(es, left, e.word)))
  {
    var more := es + [e];
    Append(es, e, TBegan);
    assert forall i :: 0 <= i <= |es| ==> more[..i] == es[..i];
    if !e.Began? && Timely(more, left) {
      forall i | Last(es, TBegan) < i < |es| && es[i].Fetched?
        ensures !Late(es[..i], left, es[i].word)
      {
        assert more[i] == es[i];
      }
      if e.Fetched? {
        assert more[|es|] == e;
      }
    }
  }

  /** The last event of each kind, with what it carries, and two counts. */
  datatype Marks = Marks(
    wrote: int, began: int, scheduled: int, scheduledKind: u8, read: int, readKind: u8, asked: int, granted: bool,
    fetched: int, word: nat, loaded: int, loadedKind: u8, buffer: seq<u32>, begins: nat, schedules: nat)
  {
    function Add(e: Event, at: nat): Marks {
      match e
      case HostWrote => this.(wrote := at)
      case Scheduled(kind) => this.(scheduled := at, scheduledKind := kind, schedules := schedules + 1)
      case Began => this.(began := at, begins := begins + 1)
      case Read(kind) => this.(read := at, readKind := kind)
      case Allocated(granted) => this.(asked := at, granted := granted)
      case Fetched(word) => this.(fetched := at, word := word)
      case Loaded(kind, buffer) => this.(loaded := at, loadedKind := kind, buffer := buffer)
      case _ => this
    }

    function At(t: Tag): int {
      match t
      case TWrote => wrote
      case TScheduled => scheduled
      case TBegan => began
      case TRead => read
      case TFetched => fetched
      case TAllocated => asked
      case TLoaded => loaded
      case _ => -1
    }

    function Carried(t: Tag): Event {
      match t
      case TScheduled => Scheduled(scheduledKind)
      case TRead => Read(readKind)
      case TFetched => Fetched(word)
      case TAllocated => Allocated(granted)
      case TLoaded => Loaded(loadedKind, buffer)
      case TBegan => Began
      case _ => HostWrote
    }

    predicate Below(at: nat) {
      && -1 <= wrote < at && -1 <= began < at && -1 <= scheduled < at
      && -1 <= read < at && -1 <= asked < at && -1 <= fetched < at && -1 <= loaded < at
    }
  }

  /** The marks after a step. */
  function Marked(m: Marks, e: Option<Event>, at: nat): Marks {
    if e.Some? then m.Add(e.value, at) else m
  }

  function MarksOf(es: seq<Event>): (m: Marks)
    ensures m.Below(|es|)
  {
    if es == [] then Marks(-1, -1, -1, 0, -1, 0, -1, false, -1, 0, -1, 0, [], 0, 0)
    else var n := |es| - 1; MarksOf(es[..n]).Add(es[n], n)
  }

  lemma MarksAfter(s: State, a: Action)
    requires Enabled(s, a)
    ensures MarksOf(Do(s, a).events) == Marked(MarksOf(s.events), EventOf(s, a), |s.events|)
  {
    var e := EventOf(s, a);
    if e.Some? {
      assert (s.events + [e.value])[..|s.events|] == s.events;
    }
  }

  lemma MarkStep(m: Marks, e: Event, at: nat, t: Tag)
    requires t != TOverwrote
    ensures m.Add(e, at).At(t) == if TagOf(e) == t then at else m.At(t)
    ensures TagOf(e) == t ==> m.Add(e, at).Carried(t) == e
    ensures TagOf(e) != t ==> m.Add(e, at).Carried(t) == m.Carried(t)
  {
  }

  /** A mark is the position of the last event of its kind, and carries what that
      event says. */
  lemma {:induction false} MarkIsLast(es: seq<Event>, t: Tag)
    requires t != TOverwrote
    ensures MarksOf(es).At(t) == Last(es, t)
    ensures Last(es, t) >= 0 ==> es[Last(es, t)] == MarksOf(es).Carried(t)
  {
    if es != [] {
      var n := |es| - 1;
      MarkIsLast(es[..n], t);
      MarkStep(MarksOf(es[..n]), es[n], n, t);
      hide Marks.Add, Marks.At, Marks.Carried, TagOf;
    }
  }

  lemma {:induction false} MarksCount(es: seq<Event>)
    ensures MarksOf(es).begins == Count(es, TBegan) && MarksOf(es).schedules == Count(es, TScheduled)
  {
    if es != [] {
      MarksCount(es[..|es| - 1]);
    }
  }

  /** An execution is due exactly when an interrupt was scheduled after the last
      execution began. */
  predicate PendingInv(pending: bool, worker: Worker, m: Marks) {
    && (pending <==> m.scheduled > m.began)
    && (!pending && m.scheduled >= 0 ==> m.began > m.scheduled)
    && (m.began >= 0 || !worker.Waiting? ==> m.scheduled >= 0 && m.began >= 0)
    && m.begins + (if pending then 1 else 0) <= m.schedules
  }

  /** The history of the current or last execution agrees with the worker. */
  predicate WorkerInv(worker: Worker, m: Marks) {
    && (m.began < 0 ==> m.read < 0)
    && (worker.Begun? ==> m.began > m.read)
    && (!worker.Waiting? ==> m.began > m.loaded)
    && (worker.Typed? || worker.Sized? || worker.Loading? ==> m.read > m.began >= 0 && m.readKind == worker.kind)
    && (worker.Loading? ==> m.asked > m.read && m.granted)
    && (worker.Waiting? && m.loaded > m.asked ==> m.loaded > m.fetched)
    && (worker.Waiting? && m.began >= 0 ==>
          && m.asked > m.read > m.began
          && (m.granted <==> m.loaded > m.asked)
          && (m.granted ==> m.loadedKind == m.readKind))
  }

  /** The shared type is the one of the last scheduled interrupt, unless the
      handler is between storing it and scheduling; and the last read saw one of
      the two, unless another execution is due. */
  predicate TypeInv(programType: u8, pending: bool, handler: Handler, worker: Worker, m: Marks) {
    && (handler.TypeSet? ==> handler.kind == programType)
    && (handler.TypeSet? || m.scheduled >= 0 ==> IsInjection(programType))
    && (!handler.TypeSet? && m.scheduled >= 0 ==> m.scheduledKind == programType)
    && (!pending && !worker.Begun? && m.read >= 0 && m.scheduled >= 0 ==>
          m.readKind == m.scheduledKind || (handler.TypeSet? && m.readKind == programType))
    && (worker.Typed? || worker.Sized? || worker.Loading? ==> IsInjection(worker.kind))
  }

  /** The window is what the host left, except for what the handler stored since. */
  predicate MailInv(s: State) {
    && |s.left| == |s.mail|
    && (s.handler.Publishing? ==> s.handler.p <= 4)
    && forall k :: 4 <= k < |s.mail| ==>
         s.mail[k] == if Over(s.events, k).Some? then Over(s.events, k).value else s.left[k]
  }

  /** The execution has what the host left so far. */
  predicate HasRight(worker: Worker, left: Window) {
    match worker
    case Sized(_, size) => size == |Sent(left)|
    case Loading(_, size, buffer) => size == |Sent(left)| && |buffer| <= size && buffer == Sent(left)[..|buffer|]
    case _ => true
  }

  predicate LoadInv(worker: Worker, m: Marks, left: Window, timely: bool) {
    && (worker.Sized? || worker.Loading? ==> worker.size < WINDOW_WORDS - 5)
    && (worker.Loading? ==> |worker.buffer| <= worker.size)
    && (m.began > m.wrote && !worker.Waiting? ==> (HasRight(worker, left) <==> timely))
    && (m.began > m.wrote && worker.Waiting? && m.loaded > m.began ==> (m.buffer == Sent(left) <==> timely))
  }

  ghost predicate Inv(s: State) {
    var m := MarksOf(s.events);
    && PendingInv(s.pending, s.worker, m) && WorkerInv(s.worker, m)
    && TypeInv(s.programType, s.pending, s.handler, s.worker, m)
    && MailInv(s) && LoadInv(s.worker, m, s.left, Timely(s.events, s.left))
  }

  lemma MailKeeps(s: State, a: Action)
    requires MailInv(s) && Enabled(s, a)
    ensures MailInv(Do(s, a))
  {
    if EventOf(s, a).Some? {
      forall k: nat { OverAppend(s.events, EventOf(s, a).value, k); }
    }
  }

  lemma PendingKeeps(s: State, a: Action, m: Marks, at: nat)
    requires PendingInv(s.pending, s.worker, m) && m.Below(at) && Enabled(s, a)
    ensures var t := Effect(s, a); PendingInv(t.pending, t.worker, Marked(m, EventOf(s, a), at))
  {
    hide Sent, ToStore, IsInjection;
  }

  lemma WorkerKeeps(s: State, a: Action, m: Marks, at: nat)
    requires PendingInv(s.pending, s.worker, m) && WorkerInv(s.worker, m) && m.Below(at) && Enabled(s, a)
    ensures WorkerInv(Effect(s, a).worker, Marked(m, EventOf(s, a), at))
  {
    hide Sent, ToStore, IsInjection;
  }

  lemma TypeKeeps(s: State, a: Action, m: Marks, at: nat)
    requires PendingInv(s.pending, s.worker, m) && WorkerInv(s.worker, m) && m.Below(at) && Enabled(s, a)
    requires TypeInv(s.programType, s.pending, s.handler, s.worker, m)
    ensures var t := Effect(s, a);
      TypeInv(t.programType, t.pending, t.handler, t.worker, Marked(m, EventOf(s, a), at))
  {
    hide Sent, ToStore, IsInjection;
  }

  /** Fetching the header finds the host's announcement unless it comes too late. */
  lemma HeaderFetch(s: State)
    requires MailInv(s) && s.worker.Typed?
    ensures |Sent(s.mail)| == |Sent(s.left)| <==> !Late(s.events, s.left, 4)
    ensures |Sent(s.mail)| < WINDOW_WORDS - 5
  {
  }

  /** One more word keeps the buffer right unless it comes too late. */
  lemma WordFetch(s: State)
    requires MailInv(s) && Enabled(s, ReadWord) && s.worker.size < WINDOW_WORDS - 5
    ensures HasRight(Do(s, ReadWord).worker, s.left) <==>
      HasRight(s.worker, s.left) && !Late(s.events, s.left, 5 + |s.worker.buffer|)
  {
    var n := |s.worker.buffer|;
    var more := s.worker.buffer + [s.mail[5 + n]];
    assert more[..n] == s.worker.buffer && more[n] == s.mail[5 + n];
    if s.worker.size == |Sent(s.left)| {
      assert Sent(s.left)[n] == s.left[5 + n];
      assert Sent(s.left)[..n + 1] == Sent(s.left)[..n] + [s.left[5 + n]];
      assert Sent(s.left)[..n + 1][..n] == Sent(s.left)[..n];
    }
  }

  /** The word a step fetches, if any. */
  function Fetch(s: State, a: Action): Option<nat>
    requires Enabled(s, a)
  {
    if a.ReadHeader? then Some(4) else if a.ReadWord? then Some(5 + |s.worker.buffer|) else None
  }

  lemma TimelyAfter(s: State, a: Action)
    requires Enabled(s, a) && !a.HostWrites?
    ensures Do(s, a).left == s.left
    ensures Timely(Do(s, a).events, s.left) <==>
      a.Begin? || (Timely(s.events, s.left) && (Fetch(s, a).Some? ==> !Late(s.events, s.left, Fetch(s, a).value)))
  {
    if EventOf(s, a).Some? {
      TimelyAppend(s.events, EventOf(s, a).value, s.left);
    }
  }

  /** `timely` and `after` are whether all fetches were timely before and after
      the step. */
  lemma FetchKeeps(s: State, a: Action, m: Marks, at: nat, timely: bool, after: bool)
    requires LoadInv(s.worker, m, s.left, timely) && MailInv(s) && Enabled(s, a) && Fetch(s, a).Some?
    requires after == (timely && !Late(s.events, s.left, Fetch(s, a).value))
    ensures LoadInv(Effect(s, a).worker, Marked(m, EventOf(s, a), at), s.left, after)
  {
    hide Sent, ToStore, IsInjection, Late;
    if a.ReadHeader? {
      HeaderFetch(s);
    } else {
      WordFetch(s);
    }
  }

  lemma OtherKeeps(s: State, a: Action, m: Marks, at: nat, timely: bool, after: bool)
    requires LoadInv(s.worker, m, s.left, timely) && WorkerInv(s.worker, m) && m.Below(at)
    requires Enabled(s, a) && Fetch(s, a).None?
    requires !a.HostWrites? ==> after == (a.Begin? || timely)
    ensures var t := Effect(s, a); LoadInv(t.worker, Marked(m, EventOf(s, a), at), t.left, after)
  {
    hide Sent, ToStore, IsInjection, Late;
    if s.worker.Loading? {
      assert s.worker.buffer == s.worker.buffer[..|s.worker.buffer|];
    }
  }

  lemma LoadKeeps(s: State, a: Action)
    requires Inv(s) && Enabled(s, a)
    ensures var t := Do(s, a);
      LoadInv(t.worker, Marked(MarksOf(s.events), EventOf(s, a), |s.events|), t.left, Timely(t.events, t.left))
  {
    hide PendingInv, WorkerInv, TypeInv, MailInv, LoadInv, Timely, Late, MarksOf;
    var m, after := MarksOf(s.events), Timely(Do(s, a).events, Do(s, a).left);
    if !a.HostWrites? {
      TimelyAfter(s, a);
    }
    if Fetch(s, a).Some? {
      FetchKeeps(s, a, m, |s.events|, Timely(s.events, s.left), after);
    } else {
      OtherKeeps(s, a, m, |s.events|, Timely(s.events, s.left), after);
    }
  }

  lemma StepKeepsInv(s: State, a: Action)
    requires Inv(s) && Enabled(s, a)
    ensures Inv(Do(s, a))
  {
    hide PendingInv, WorkerInv, TypeInv, MailInv, LoadInv, Timely, Effect, MarksOf, Marked;
    var m := MarksOf(s.events);
    MarksAfter(s, a);
    MailKeeps(s, a);
    PendingKeeps(s, a, m, |s.events|);
    WorkerKeeps(s, a, m, |s.events|);
    TypeKeeps(s, a, m, |s.events|);
    LoadKeeps(s, a);
  }

  lemma {:induction false} InvariantHolds(start: State, run: seq<Action>, s: State)
    requires Init(start) && Run(start, run) == Some(s)
    ensures Inv(s)
  {
    if run != [] {
      var n := |run| - 1;
      InvariantHolds(start, run[..n], Run(start, run[..n]).value);
      StepKeepsInv(Run(start, run[..n]).value, run[n]);
    }
  }

  /** The marks are the positions that `Last` finds. */
  predicate Places(es: seq<Event>, m: Marks) {
    && m.wrote == Last(es, TWrote) && m.scheduled == Last(es, TScheduled) && m.began == Last(es, TBegan)
    && m.read == Last(es, TRead) && m.asked == Last(es, TAllocated) && m.loaded == Last(es, TLoaded)
    && m.fetched == Last(es, TFetched)
  }

  lemma MarksPlace(es: seq<Event>)
    ensures Places(es, MarksOf(es))
  {
    hide Last, MarksOf;
    MarkIsLast(es, TWrote);
    MarkIsLast(es, TScheduled);
    MarkIsLast(es, TBegan);
    MarkIsLast(es, TRead);
    MarkIsLast(es, TAllocated);
    MarkIsLast(es, TLoaded);
    MarkIsLast(es, TFetched);
  }

  lemma Reached(run: seq<Action>, s: State)
    requires Reaches(run, s)
    ensures Inv(s) && Places(s.events, MarksOf(s.events))
  {
    hide Inv, Run, Places;
    var start :| Init(start) && Run(start, run) == Some(s);
    InvariantHolds(start, run, s);
    MarksPlace(s.events);
  }

  /** No injection is lost, in any run, whatever coalescing happened: when the work
      item is neither pending nor running, the last execution began after the last
      injection interrupt scheduled it and read that interrupt's type, or, while
      the handler has stored the next type and not yet scheduled it, that next
      type; and it loaded a program under the type it read iff it was granted an
      instruction buffer. */
  lemma NoLostInjection(run: seq<Action>, s: State)
    requires Reaches(run, s) && !s.pending && s.worker.Waiting?
    ensures var es := s.events; var last := Last(es, TScheduled);
      last >= 0 ==>
        && last < Last(es, TBegan) < Last(es, TRead) < Last(es, TAllocated)
        && (es[Last(es, TRead)] == Read(es[last].kind)
            || (s.handler.TypeSet? && es[Last(es, TRead)] == Read(s.handler.kind)))
        && (es[Last(es, TAllocated)].granted <==> Last(es, TLoaded) > Last(es, TAllocated))
        && (es[Last(es, TAllocated)].granted ==> es[Last(es, TLoaded)].kind == es[Last(es, TRead)].kind)
  {
    hide MailInv, LoadInv, Timely;
    Reached(run, s);
    MarkIsLast(s.events, TScheduled);
    MarkIsLast(s.events, TRead);
    MarkIsLast(s.events, TAllocated);
    MarkIsLast(s.events, TLoaded);
  }

  /** The host has been silent since the last injection interrupt, and the work
      item has nothing left to do. */
  ghost predicate Settled(s: State) {
    !s.pending && s.worker.Waiting? && Last(s.events, TScheduled) > Last(s.events, TWrote)
  }

  /** The last execution was granted its instruction buffer. */
  ghost predicate Granted(es: seq<Event>) {
    Last(es, TAllocated) >= 0 && es[Last(es, TAllocated)].granted
  }

  /** The work function is not running, and the host has been silent since its last
      execution began. */
  ghost predicate Rested(s: State) {
    s.worker.Waiting? && Last(s.events, TBegan) > Last(s.events, TWrote)
  }

  lemma SettledIsRested(run: seq<Action>, s: State)
    requires Reaches(run, s) && Settled(s)
    ensures Rested(s)
  {
    hide MailInv, LoadInv, TypeInv, Timely;
    Reached(run, s);
  }

  /** Exactly when the program the host left is the one loaded last: in every run
      in which the host has been silent since the last execution began and a buffer
      was granted, the words last loaded are the host's iff no word was fetched
      after a migration interrupt had replaced it. */
  lemma LastLoadIsExact(run: seq<Action>, s: State)
    requires Reaches(run, s) && Rested(s) && Granted(s.events)
    ensures var last := Last(s.events, TLoaded);
      && last > Last(s.events, TBegan)
      && (s.events[last].buffer == Sent(s.left) <==> Timely(s.events, s.left))
  {
    hide MailInv, TypeInv, Timely;
    Reached(run, s);
    MarkIsLast(s.events, TAllocated);
    MarkIsLast(s.events, TLoaded);
  }

  lemma FetchesPrecedeLoad(run: seq<Action>, s: State)
    requires Reaches(run, s) && Rested(s) && Granted(s.events)
    ensures forall i :: 0 <= i < |s.events| && s.events[i].Fetched? ==> i < Last(s.events, TLoaded)
  {
    hide MailInv, LoadInv, TypeInv, Timely;
    Reached(run, s);
    MarkIsLast(s.events, TAllocated);
    LastIsLast(s.events, TFetched);
  }

  /** Once settled, and unless the next type has already been stored, the program
      was loaded under the type that is still shared, an injection type. */
  lemma LastTypeIsShared(run: seq<Action>, s: State)
    requires Reaches(run, s) && Settled(s) && Granted(s.events) && !s.handler.TypeSet?
    ensures Last(s.events, TLoaded) >= 0 && s.events[Last(s.events, TLoaded)].kind == s.programType
    ensures ProgName(ProgType(s.programType)).Some?
  {
    hide MailInv, LoadInv, Timely;
    Reached(run, s);
    MarkIsLast(s.events, TAllocated);
    MarkIsLast(s.events, TLoaded);
    InjectionsHaveNames(s.programType, s.programType);
  }

  /** No migration interrupt stored into the window after the host's last write
      and before position `end`. */
  ghost predicate Untouched(es: seq<Event>, end: int) {
    forall i :: Last(es, TWrote) < i < end && i < |es| ==> !es[i].Overwrote?
  }

  lemma {:induction false} UntouchedIsNotOver(es: seq<Event>, n: nat, word: nat)
    requires Last(es, TWrote) < n <= |es| && Untouched(es, n)
    ensures Over(es[..n], word).None?
  {
    if n > 0 {
      assert es[..n][..n - 1] == es[..n - 1] && es[..n][n - 1] == es[n - 1];
      if Last(es, TWrote) < n - 1 {
        UntouchedIsNotOver(es, n - 1, word);
      }
    }
  }

  /** So if no migration interrupt interfered either, the words last loaded are
      the program the host left, whole. */
  lemma LastInjectionIsLoadedWhole(run: seq<Action>, s: State)
    requires Reaches(run, s) && Rested(s) && Granted(s.events)
    requires Untouched(s.events, Last(s.events, TLoaded))
    ensures Last(s.events, TLoaded) >= 0 && s.events[Last(s.events, TLoaded)].buffer == Sent(s.left)
  {
    var es := s.events;
    LastLoadIsExact(run, s);
    FetchesPrecedeLoad(run, s);
    forall i | Last(es, TBegan) < i < |es| && es[i].Fetched?
      ensures !Late(es[..i], s.left, es[i].word)
    {
      UntouchedIsNotOver(es, i, es[i].word);
    }
  }

  /** Coming too late means finding something else in the window than the host left
      there. */
  lemma LateIffReplaced(run: seq<Action>, s: State, word: nat)
    requires Reaches(run, s) && 4 <= word < |s.left|
    ensures |s.mail| == |s.left|
    ensures Late(s.events, s.left, word) <==>
      if word == 4 then InsnCount(s.mail[4]) != InsnCount(s.left[4]) else s.mail[word] != s.left[word]
  {
    hide PendingInv, WorkerInv, TypeInv, LoadInv, Timely;
    Reached(run, s);
  }

  /** A migration interrupt stored `word` between the host's last write and
      position `n`. */
  ghost predicate StoredBefore(es: seq<Event>, n: int, word: nat) {
    exists j :: Last(es, TWrote) < j < n && j < |es| && es[j].Overwrote? && es[j].word == word
  }

  /** Every word that migration interrupts stored since the host's last write
      differs from what the host left, the header in the count it announces. */
  ghost predicate StoresDiffer(es: seq<Event>, left: Window) {
    forall j :: Last(es, TWrote) < j < |es| && es[j].Overwrote? ==>
      && es[j].word < |left|
      && if es[j].word == 4 then InsnCount(es[j].value) != InsnCount(left[4]) else es[j].value != left[es[j].word]
  }

  lemma {:induction false} LateIffStored(es: seq<Event>, left: Window, n: nat, word: nat)
    requires Last(es, TWrote) < n <= |es| && StoresDiffer(es, left)
    ensures Late(es[..n], left, word) <==> StoredBefore(es, n, word)
  {
    if n > 0 {
      var e, before := es[n - 1], es[..n - 1];
      assert es[..n] == before + [e];
      OverAppend(before, e, word);
      if Last(es, TWrote) < n - 1 {
        LateIffStored(es, left, n - 1, word);
        LastIsLast(es, TWrote);
        assert TagOf(e) != TWrote;
        assert StoredBefore(es, n, word) <==> StoredBefore(es, n - 1, word) || (e.Overwrote? && e.word == word) by {
          assert e == es[n - 1];
        }
      }
    }
  }

  /** Every fetch of the last execution precedes the migration stores of its word. */
  ghost predicate InOrder(es: seq<Event>) {
    forall i :: Last(es, TBegan) < i < |es| && es[i].Fetched? ==> !StoredBefore(es, i, es[i].word)
  }

  /** The condition in terms of order alone: if the stored message differs in every
      word from what the host left, the words last loaded are the host's iff each
      was fetched before it was stored over. */
  lemma OrderDecides(run: seq<Action>, s: State)
    requires Reaches(run, s) && Rested(s) && Granted(s.events) && StoresDiffer(s.events, s.left)
    ensures Last(s.events, TLoaded) >= 0
    ensures s.events[Last(s.events, TLoaded)].buffer == Sent(s.left) <==> InOrder(s.events)
  {
    var es := s.events;
    LastLoadIsExact(run, s);
    forall i | Last(es, TBegan) < i < |es| && es[i].Fetched?
      ensures Late(es[..i], s.left, es[i].word) <==> StoredBefore(es, i, es[i].word)
    {
      LateIffStored(es, s.left, i, es[i].word);
    }
  }

  lemma HandlerCanStep(s: State) returns (a: Action)
    requires !s.handler.Idle? && (s.handler.Publishing? ==> s.handler.p <= 4)
    ensures IsHandlerStep(a) && Enabled(s, a)
  {
    hide IsInjection;
    match s.handler
    case Serving(status) =>
      a := if IsInjection(status) then SetType
           else if status == FIRST_ROUND_MIGRATION_START then StartMigration(0, 0) else Ignore;
    case TypeSet(_) => a := Schedule;
    case Publishing(_, _, p) => a := if p < 4 then StoreWord else RingDoorbell(0);
    case _ => a := Acknowledge;
  }

  lemma WorkerCanStep(s: State) returns (a: Action)
    requires !s.worker.Waiting?
    requires s.worker.Loading? ==> |s.worker.buffer| <= s.worker.size < WINDOW_WORDS - 5
    ensures !IsHandlerStep(a) && !a.HostWrites? && Enabled(s, a)
  {
    match s.worker
    case Begun => a := ReadType;
    case Typed(_) => a := ReadHeader;
    case Sized(_, _) => a := Allocate(true);
    case Loading(_, size, buffer) => a := if |buffer| < size then ReadWord else Finish;
  }

  /** Nobody is ever stuck: an idle handler takes any interrupt, one at work has a
      step of its own to take, due work can begin, and work under way has a step. */
  lemma NobodyIsStuck(run: seq<Action>, s: State)
    requires Reaches(run, s)
    ensures s.handler.Idle? ==> forall status: u32 :: Enabled(s, Interrupt(status))
    ensures !s.handler.Idle? ==> exists a :: IsHandlerStep(a) && Enabled(s, a)
    ensures s.worker.Waiting? && s.pending ==> Enabled(s, Begin)
    ensures !s.worker.Waiting? ==> exists a :: !IsHandlerStep(a) && !a.HostWrites? && Enabled(s, a)
  {
    hide Reaches, PendingInv, WorkerInv, TypeInv, Timely, HasRight, Places;
    Reached(run, s);
    if !s.handler.Idle? {
      var a := HandlerCanStep(s);
    }
    if !s.worker.Waiting? {
      var b := WorkerCanStep(s);
    }
  }

  /** Executions begun never exceed injection interrupts. */
  lemma ExecutionsNeverExceedInterrupts(run: seq<Action>, s: State)
    requires Reaches(run, s)
    ensures Count(s.events, TBegan) + (if s.pending then 1 else 0) <= Count(s.events, TScheduled)
  {
    Reached(run, s);
    MarksCount(s.events);
  }

  /** Whenever the work item is pending or running, the program type is one of the
      three injection types, so the program identifier is never NONE and the
      program always has a name. The type already read has one too. */
  lemma DispatchIsDefined(run: seq<Action>, s: State)
    requires Reaches(run, s)
    requires s.pending || !s.worker.Waiting?
    ensures ProgType(s.programType) != PROG_NONE && ProgName(ProgType(s.programType)).Some?
    ensures s.worker.Typed? || s.worker.Sized? || s.worker.Loading? ==> ProgName(ProgType(s.worker.kind)).Some?
  {
    Reached(run, s);
    InjectionsHaveNames(s.programType, s.programType);
  }

  lemma RunUnfolds(s: State, run: seq<Action>)
    ensures run == [] ==> Run(s, run) == Some(s)
    ensures run != [] ==> Run(s, run) == Next(Run(s, run[..|run| - 1]), run[|run| - 1])
  {
  }

  lemma {:induction false} RunConcat(s: State, a: seq<Action>, b: seq<Action>)
    requires Run(s, a).Some?
    ensures Run(s, a + b) == Run(Run(s, a).value, b)
    decreases |b|
  {
    hide Run, Next;
    RunUnfolds(Run(s, a).value, b);
    if b == [] {
      assert a + b == a;
    } else {
      var n, c := |b| - 1, a + b;
      RunConcat(s, a, b[..n]);
      RunUnfolds(s, c);
      assert c[..|c| - 1] == a + b[..n] && c[|c| - 1] == b[n];
    }
  }

  lemma RunStep(s: State, run: seq<Action>, t: State, a: Action)
    requires Run(s, run) == Some(t) && Enabled(t, a)
    ensures Run(s, run + [a]) == Some(Do(t, a))
  {
    assert (run + [a])[..|run|] == run;
  }

  lemma RunOne(s: State, a: Action)
    requires Enabled(s, a)
    ensures Run(s, [a]) == Some(Do(s, a))
  {
    RunStep(s, [], s, a);
    assert [] + [a] == [a];
  }

  function StoreSteps(n: nat): seq<Action> {
    seq(n, _ => StoreWord)
  }

  function WordSteps(n: nat): seq<Action> {
    seq(n, _ => ReadWord)
  }

  function HandlingSteps(status: u32, address: u64, pairs: u32, elapsed: u32): seq<Action> {
    if IsInjection(status) then [SetType] + [Schedule]
    else if status == FIRST_ROUND_MIGRATION_START then
      [StartMigration(address, pairs)] + StoreSteps(4) + [RingDoorbell(elapsed)]
    else [Ignore]
  }

  /** What an interrupt handler does, from entry to return. The arguments after
      the status are what a migration interrupt publishes. */
  function InterruptSteps(status: u32, address: u64, pairs: u32, elapsed: u32): seq<Action> {
    [Interrupt(status)] + HandlingSteps(status, address, pairs, elapsed) + [Acknowledge]
  }

  function StoreEvents(address: u64, pairs: u32, n: nat): seq<Event> {
    seq(n, p requires 0 <= p < n => Overwrote(4 + p, Snapshot.AnnouncedWord(address, pairs, p)))
  }

  function EventsAfter(status: u32, address: u64, pairs: u32): seq<Event> {
    if IsInjection(status) then [Scheduled(status)]
    else if status == FIRST_ROUND_MIGRATION_START then StoreEvents(address, pairs, 4)
    else []
  }

  /** `n` words of the message stored since `s`. */
  function WithStores(s: State, address: u64, pairs: u32, n: nat): State
    requires n <= 4
  {
    s.(mail := Snapshot.WithAnnouncement(s.mail, address, pairs, n), handler := Publishing(address, pairs, n),
       events := s.events + StoreEvents(address, pairs, n))
  }

  lemma OneMoreStore(s: State, address: u64, pairs: u32, n: nat)
    requires n < 4
    ensures var t := WithStores(s, address, pairs, n);
      Enabled(t, StoreWord) && Do(t, StoreWord) == WithStores(s, address, pairs, n + 1)
  {
    var t := WithStores(s, address, pairs, n);
    assert Do(t, StoreWord).events == s.events + StoreEvents(address, pairs, n + 1);
    assert Do(t, StoreWord).mail == Snapshot.WithAnnouncement(s.mail, address, pairs, n + 1);
  }

  lemma {:induction false} UndisturbedStores(s: State, address: u64, pairs: u32, n: nat)
    requires s.handler == Publishing(address, pairs, 0) && n <= 4
    ensures Run(s, StoreSteps(n)) == Some(WithStores(s, address, pairs, n))
  {
    if n == 0 {
      assert s.events + StoreEvents(address, pairs, 0) == s.events;
      assert Snapshot.WithAnnouncement(s.mail, address, pairs, 0) == s.mail;
    } else {
      hide WithStores, Run, Enabled, Do;
      UndisturbedStores(s, address, pairs, n - 1);
      OneMoreStore(s, address, pairs, n - 1);
      RunStep(s, StoreSteps(n - 1), WithStores(s, address, pairs, n - 1), StoreWord);
      assert StoreSteps(n) == StoreSteps(n - 1) + [StoreWord];
    }
  }

  lemma UndisturbedHandling(s: State, status: u32, address: u64, pairs: u32, elapsed: u32)
    requires s.handler == Serving(status)
    ensures Run(s, HandlingSteps(status, address, pairs, elapsed)) ==
      Some(s.(mail := if status == FIRST_ROUND_MIGRATION_START
                      then Snapshot.Published(s.mail, address, pairs, elapsed) else s.mail,
              programType := TypeAfter(s.programType, status), pending := DueAfter(s.pending, status),
              handler := Acking(status), events := s.events + EventsAfter(status, address, pairs)))
  {
    hide Run;
    if IsInjection(status) {
      RunOne(s, SetType);
      RunStep(s, [SetType], Do(s, SetType), Schedule);
    } else if status == FIRST_ROUND_MIGRATION_START {
      var first := [StartMigration(address, pairs)];
      var t := Do(s, first[0]);
      RunOne(s, first[0]);
      UndisturbedStores(t, address, pairs, 4);
      RunConcat(s, first, StoreSteps(4));
      var u := Run(t, StoreSteps(4)).value;
      RunStep(s, first + StoreSteps(4), u, RingDoorbell(elapsed));
      assert Do(u, RingDoorbell(elapsed)).mail == Snapshot.Published(s.mail, address, pairs, elapsed);
    } else {
      RunOne(s, Ignore);
      assert s.events + [] == s.events;
    }
  }

  /** The state after an interrupt as the sequential handler's contract gives it. */
  function Served(s: State, status: u32, address: u64, pairs: u32, elapsed: u32): State {
    var mail := if status == FIRST_ROUND_MIGRATION_START
                then Snapshot.Published(s.mail, address, pairs, elapsed) else s.mail;
    s.(mail := mail[1 := status], programType := TypeAfter(s.programType, status),
       pending := DueAfter(s.pending, status), events := s.events + EventsAfter(status, address, pairs))
  }

  /** Served without interruption, an interrupt does to the shared type, the
      pending mark and the window what the handler's own contract says. */
  lemma UndisturbedInterrupt(s: State, status: u32, address: u64, pairs: u32, elapsed: u32)
    requires s.handler.Idle?
    ensures Run(s, InterruptSteps(status, address, pairs, elapsed)) == Some(Served(s, status, address, pairs, elapsed))
  {
    hide Run;
    var middle := HandlingSteps(status, address, pairs, elapsed);
    var t := Do(s, Interrupt(status));
    RunOne(s, Interrupt(status));
    UndisturbedHandling(t, status, address, pairs, elapsed);
    RunConcat(s, [Interrupt(status)], middle);
    RunStep(s, [Interrupt(status)] + middle, Run(t, middle).value, Acknowledge);
  }

  /** The same by the status word: 1, 3 and 4 schedule an execution under that type,
      5 announces the snapshot, and every other word is only acknowledged. */
  lemma InterruptByStatus(s: State, status: u32, address: u64, pairs: u32, elapsed: u32)
    requires s.handler.Idle?
    ensures Run(s, InterruptSteps(status, address, pairs, elapsed)).Some?
    ensures var t := Run(s, InterruptSteps(status, address, pairs, elapsed)).value;
      && t.handler.Idle? && t.worker == s.worker && t.left == s.left && t.mail[1] == status
      && (status == 1 || status == 3 || status == 4 ==>
            t.programType == status && t.pending && t.events == s.events + [Scheduled(status)])
      && (status != 1 && status != 3 && status != 4 ==> t.programType == s.programType && t.pending == s.pending)
      && (status == 5 ==>
            && Snapshot.Announces(t.mail, address, pairs) && t.mail[2] == elapsed
            && |t.events| == |s.events| + 4 && forall i :: |s.events| <= i < |t.events| ==> t.events[i].Overwrote?)
      && (status != 5 ==> t.mail == s.mail[1 := status])
      && (status != 1 && status != 3 && status != 4 && status != 5 ==> t.events == s.events)
  {
    hide Run, InterruptSteps, HeaderOf;
    UndisturbedInterrupt(s, status, address, pairs, elapsed);
    Snapshot.HandlerAnnounces(s.mail, address, pairs, elapsed);
  }

  /** The steps of an execution up to its first program word. */
  const OPENING := [Begin] + [ReadType] + [ReadHeader] + [Allocate(true)]

  function Opened(s: State): State {
    s.(pending := false, worker := Loading(s.programType, |Sent(s.mail)|, []),
       events := s.events + [Began] + [Read(s.programType)] + [Fetched(4)] + [Allocated(true)])
  }

  lemma UndisturbedOpening(s: State)
    requires s.pending && s.worker.Waiting?
    ensures Run(s, OPENING) == Some(Opened(s))
  {
    hide Run;
    var a := Do(s, Begin);
    var b := Do(a, ReadType);
    var c := Do(b, ReadHeader);
    RunOne(s, Begin);
    RunStep(s, [Begin], a, ReadType);
    RunStep(s, [Begin] + [ReadType], b, ReadHeader);
    RunStep(s, [Begin] + [ReadType] + [ReadHeader], c, Allocate(true));
  }

  function FetchEvents(n: nat): seq<Event> {
    seq(n, i requires 0 <= i < n => Fetched(5 + i))
  }

  /** `n` more words than `s` in the buffer. */
  function WithWords(s: State, n: nat): State
    requires s.worker.Loading? && 5 + n <= |s.mail|
  {
    s.(worker := s.worker.(buffer := s.mail[5..5 + n]), events := s.events + FetchEvents(n))
  }

  lemma OneMoreWord(s: State, n: nat)
    requires s.worker.Loading? && n < s.worker.size && 5 + n < |s.mail|
    ensures Enabled(WithWords(s, n), ReadWord) && Do(WithWords(s, n), ReadWord) == WithWords(s, n + 1)
  {
    assert Do(WithWords(s, n), ReadWord).events == s.events + FetchEvents(n + 1);
    assert Do(WithWords(s, n), ReadWord).worker.buffer == s.mail[5..5 + (n + 1)];
  }

  /** The reading steps, uninterrupted, load what is in the window. */
  lemma {:induction false} UndisturbedLoad(s: State, n: nat)
    requires s.worker.Loading? && s.worker.buffer == [] && n <= s.worker.size && 5 + n <= |s.mail|
    ensures Run(s, WordSteps(n)) == Some(WithWords(s, n))
  {
    if n == 0 {
      assert WithWords(s, 0).events == s.events && s.mail[5..5] == [];
    } else {
      hide WithWords, Run, Enabled, Do;
      UndisturbedLoad(s, n - 1);
      OneMoreWord(s, n - 1);
      RunStep(s, WordSteps(n - 1), WithWords(s, n - 1), ReadWord);
      assert WordSteps(n) == WordSteps(n - 1) + [ReadWord];
    }
  }

  function DeliverySteps(words: Window): seq<Action> {
    [HostWrites(words)] + InterruptSteps(PROGRAM_INJECTION, 0, 0, 0)
  }

  /** A program sent on a freshly probed device, before any execution. */
  lemma Delivery(start: State, words: Window) returns (t: State)
    requires Init(start) && |words| == |start.mail|
    ensures Run(start, DeliverySteps(words)) == Some(t)
    ensures t.mail == words[1 := PROGRAM_INJECTION] && t.left == words && t.programType == PROGRAM_INJECTION
    ensures t.pending && t.handler.Idle? && t.worker.Waiting?
  {
    hide Run;
    t := Do(start, HostWrites(words));
    RunOne(start, HostWrites(words));
    UndisturbedInterrupt(t, PROGRAM_INJECTION, 0, 0, 0);
    RunConcat(start, [HostWrites(words)], InterruptSteps(PROGRAM_INJECTION, 0, 0, 0));
    t := Served(t, PROGRAM_INJECTION, 0, 0, 0);
  }

  /** `run` ends with the work item at rest, the host's last message being `words`
      and the words last loaded `buffer`. */
  ghost predicate EndsLoading(start: State, run: seq<Action>, words: Window, buffer: seq<u32>) {
    && Run(start, run).Some?
    && var t := Run(start, run).value;
    && t.left == words && !t.pending && t.worker.Waiting? && t.events != []
    && t.events[|t.events| - 1] == Loaded(PROGRAM_INJECTION, buffer)
  }

  function MigrationSteps(address: u64, pairs: u32, elapsed: u32): seq<Action> {
    InterruptSteps(FIRST_ROUND_MIGRATION_START, address, pairs, elapsed)
  }

  /** A migration interrupt served between the injection and its execution: whatever
      the host sent, the program loaded is the buffer's address. */
  lemma StaleProgramExample(start: State, words: Window, address: u64, pairs: u32, elapsed: u32)
    requires Init(start) && |words| == |start.mail|
    ensures EndsLoading(start,
      DeliverySteps(words) + MigrationSteps(address, pairs, elapsed) + OPENING + WordSteps(2) + [Finish],
      words, [Snapshot.High(address), Snapshot.Low(address)])
  {
    hide Run;
    var s := Delivery(start, words);
    var run, more := DeliverySteps(words), MigrationSteps(address, pairs, elapsed);
    UndisturbedInterrupt(s, FIRST_ROUND_MIGRATION_START, address, pairs, elapsed);
    RunConcat(start, run, more);
    run, s := run + more, Served(s, FIRST_ROUND_MIGRATION_START, address, pairs, elapsed);
    HeaderRoundTrip(Header(DEFAULT_VERSION, FIRST_ROUND_MIGRATION, 12));
    assert |Sent(s.mail)| == 2;
    UndisturbedOpening(s);
    RunConcat(start, run, OPENING);
    run, s := run + OPENING, Opened(s);
    UndisturbedLoad(s, 2);
    RunConcat(start, run, WordSteps(2));
    assert s.mail[5..7] == [Snapshot.High(address), Snapshot.Low(address)];
    RunStep(start, run + WordSteps(2), Run(s, WordSteps(2)).value, Finish);
  }

  /** One served while a one-instruction program is being read: half of what is
      loaded is the host's, half the buffer's address. */
  lemma TornProgramExample(start: State, words: Window, address: u64, pairs: u32, elapsed: u32)
    requires Init(start) && |words| == |start.mail| && |Sent(words)| == 2
    ensures EndsLoading(start,
      DeliverySteps(words) + OPENING + WordSteps(1) + MigrationSteps(address, pairs, elapsed) + [ReadWord] + [Finish],
      words, [words[5], Snapshot.Low(address)])
  {
    hide Run;
    var s := Delivery(start, words);
    var run, more := DeliverySteps(words), MigrationSteps(address, pairs, elapsed);
    UndisturbedOpening(s);
    RunConcat(start, run, OPENING);
    run, s := run + OPENING, Opened(s);
    UndisturbedLoad(s, 1);
    RunConcat(start, run, WordSteps(1));
    run, s := run + WordSteps(1), Run(s, WordSteps(1)).value;
    UndisturbedInterrupt(s, FIRST_ROUND_MIGRATION_START, address, pairs, elapsed);
    RunConcat(start, run, more);
    run, s := run + more, Served(s, FIRST_ROUND_MIGRATION_START, address, pairs, elapsed);
    RunStep(start, run, s, ReadWord);
    run, s := run + [ReadWord], Do(s, ReadWord);
    assert s.worker.buffer == [words[5], Snapshot.Low(address)];
    RunStep(start, run, s, Finish);
  }

  /** One served after the last word has been fetched does no harm, though it falls
      before the end of the load: only the order of each word's fetch and store
      counts. */
  lemma LateStoreExample(start: State, words: Window, address: u64, pairs: u32, elapsed: u32)
    requires Init(start) && |words| == |start.mail|
    ensures EndsLoading(start,
      DeliverySteps(words) + OPENING + WordSteps(|Sent(words)|) + MigrationSteps(address, pairs, elapsed) + [Finish],
      words, Sent(words))
  {
    hide Run;
    var n := |Sent(words)|;
    var s := Delivery(start, words);
    var run, more := DeliverySteps(words), MigrationSteps(address, pairs, elapsed);
    UndisturbedOpening(s);
    RunConcat(start, run, OPENING);
    run, s := run + OPENING, Opened(s);
    UndisturbedLoad(s, n);
    RunConcat(start, run, WordSteps(n));
    run, s := run + WordSteps(n), Run(s, WordSteps(n)).value;
    assert s.worker.buffer == Sent(words);
    UndisturbedInterrupt(s, FIRST_ROUND_MIGRATION_START, address, pairs, elapsed);
    RunConcat(start, run, more);
    run, s := run + more, Served(s, FIRST_ROUND_MIGRATION_START, address, pairs, elapsed);
    RunStep(start, run, s, Finish);
  }
}
