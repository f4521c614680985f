# Verified model of the guest driver

The driver in `shared/driver/driver.c` lets a host inject eBPF programs into a
guest kernel through a device window, and hands the host the guest's free pages
when a migration starts. This project models the driver's logic, the small
logging program in `bpfProg/myprog.c`, and the section scan that builds a message
on the host side (`host_interface/bpf_injection_msg.h`), and proves what they
promise, for all inputs and all interleavings.

`dafny verify dfyconfig.toml` checks everything.

## Layout

| file | what it holds |
|---|---|
| words.dfy, insn.dfy | fixed-width integers, little-endian packing, instructions as two words |
| relocation.dfy | the in-place pass that resolves helper calls, and what it does on both outcomes |
| interpreter.dfy | an eBPF machine with calls by id and by address; relocation preserves meaning |
| mailbox.dfy | the device window, the message format, `mywrite`, the wire round trip |
| loader.dfy | class `Driver`: program setup, the work function, the interrupt handler |
| ownership.dfy | program objects over any sequence of setup outcomes |
| injection.dfy | interrupts, work item, migration stores and host writes as an interleaved transition system |
| endtoend.dfy | from the bytes sent to the behaviour of the installed program |
| freelists.dfy | free lists, records, and the flattening order |
| snapshot.dfy | the migration handler as loops over rings, zones and lock flags |
| walks.dfy | the list walk as written against the walk as meant |
| buddy.dfy | the allocator's invariant and what records say about pages |
| snapshotmachine.dfy, snapshotsafety.dfy | the handler interleaved with allocators and the host: atomicity, deadlock, progress |
| snapshotsolo.dfy | the interleaved handler left alone does what the sequential handler's contract says |
| cpulog.dfy | the 64-entry log, sequential and interleaved |
| sections.dfy | the scan over object-file sections |

## How to read the model

The imperative parts of the source are methods with loops over arrays and objects,
each proved against a specification function; the lemmas say what those functions
amount to. Concurrency is modelled by transition systems whose steps are single
shared accesses; `Reaches(run, s)` means that the action sequence `run` leads to
state `s`, and theorems are stated for every `run`.

A memory zone appears in four forms. `Snapshot.Zone` is the object with a lock,
`Snapshot.Content` its list heads and nodes in memory, `ZoneLists` the page frame
numbers a walk computes from them, and `Buddy.Zone` those numbers with the free
counts. `ZonesShow` ties the first to the third, `ZoneShows` the second to the
third, `Buddy.ListsOf` the fourth to the third.

Environment answers are inputs. `Luck` says which of the three allocations of one
setup succeed. `Layout` says where the kernel placed `__bpf_call_base` and the
three helpers. `elapsed`, the buffer's physical address, the kernel's list memory
and the interrupt status register are arguments or window words.

The interpreter keeps calls, jumps, wide loads and exit concrete as RFC 9669
describes them (sections 3.1, 3.2, 4.3, 4.3.1, 4.3.2). A call with source register 0 and
a non-zero reserved field faults in both semantics. Arithmetic, memory access,
branch conditions and helper results are arbitrary functions, so the theorem
covers any choice of them.

### Where the code does not do what it is for

Each of these keeps the code as it is, gives a concrete input, and states exactly
when the code meets the property.

- **The list walk.** `list_first_entry_or_null(tmp, ...)` (line 225) is the entry
  *after* `tmp`. On every non-empty list the code therefore reports each node's
  successor: the first block is missing and the list head is reported as a page
  (`Walks.CodeShiftsByOne`, `Walks.SentinelReportedExample`). Over the whole
  snapshot, the code's records and the lists' first blocks together are the right
  records and the list heads together, so they are the right ones, in any order,
  if and only if first blocks and list heads have the same records
  (`Walks.CodeIsRightIff`). List heads lie outside the pages the allocator
  manages, so a free block is left out, and one that is not free reported, if and
  only if anything is free (`Walks.CodeIsWrongIffSomethingIsFree`). `Snapshot`
  carries both walks; the page-level and atomicity theorems are about the walk
  that reports `tmp`.
- **One window for two purposes.** A migration interrupt writes the window that the
  work function loads programs from. One served between an injection interrupt
  and its execution makes the worker load the buffer's address as a program, one
  served during the load tears the program (`Injection.StaleProgramExample`,
  `Injection.TornProgramExample`). With the host silent, the words last loaded are
  the host's if and only if no word was fetched after a migration interrupt had
  last stored another value in it (`Injection.LastLoadIsExact`), which for a
  message that differs from the host's in every word is a matter of order alone
  (`Injection.OrderDecides`); a store that comes after the fetch of its word does
  no harm (`Injection.LateStoreExample`).
- **Relocation and wide constants.** The pass does not skip the second slot of a
  wide load. Meaning is preserved if and only if no such slot is rewritten and
  every called helper lies within a signed 32-bit distance of the base
  (`Interpreter.RelocationPreservesMeaning`, `Interpreter.RewrittenConstantExample`).
- **Setup failures.** The previous program is freed before relocation can fail, a
  refused program object leaves the return value at 0, and the work function runs
  the pointer regardless. `Ownership.RunIsExact` and
  `Ownership.FreedOnceIffNeverDangling` say exactly when a freed program or NULL
  is run and when a program is freed twice; `EndToEnd.FailingDeliveries` shows it
  on delivered programs.
- **Section choice.** The requested section name is compared but not used; the
  last eligible section wins (`Sections.RequestedOnlyIfLast`,
  `Sections.WrongSectionExample`). A section of 65536 bytes or more overruns its
  buffer (`Sections.PrepareMessage`, `overrun`).
- **The log's limit.** The counter is compared for equality with 63, so interleaved
  increments can step over it (`CpuLog.SteppedOverExample`). They do if and only
  if some check passes while the counter and the callers already past theirs make
  63 (`CpuLog.StepsOverExactly`), and from then on the limit never stops anyone
  (`CpuLog.PastTheLimitForEver`).
- **Lost masks.** Two callers can store into one slot (`CpuLog.LostMaskExample`).
  Each of the first 63 masks lands in its own slot if and only if no increment
  falls between such a caller's increment and its second read of the counter
  (`CpuLog.MasksLandExactly`).

### Hypotheses

- The snapshot's records fit the 4 MiB buffer (262144 records) and the populated
  zones fit scratch arrays sized by the last memory node's zone count
  (`Snapshot.ScratchFits`); the source checks neither. Its two scratch allocations
  succeed; the source does not look.
- Zones do not overlap and lie in 64-bit physical memory (`Buddy.Separate`).
- `Snapshot.WriteGuestFreePages` is the handler when no zone lock is contended;
  `SnapshotMachine` is the handler under contention.
- An allocator holds at most one zone lock, keeps interrupts disabled on its
  processor while it waits for or holds it, and leaves the zone consistent when it
  releases. A zone with free blocks has managed pages. The set of populated zones
  is fixed while the handler runs.
- The host may write the window at any time. What it then finds at the doorbell is
  right if and only if it has not itself changed a word after the handler stored
  it (`SnapshotSafety.PublishedWordsAreRight`).
- The log theorems are about runs with fewer than 2^32 increments.
- The interrupt line is masked while it is served. A work item never runs
  concurrently with itself, and its pending mark is cleared before it runs.
- A program is set up only with an identifier that has a name:
  `Injection.DispatchIsDefined` proves this of every reachable state.

## Model

| member | source | states |
|---|---|---|
| Insns.InsnRoundTrip | shared/driver/driver.c:479-485 | an instruction written as two words and read back as a struct keeps every field |
| Insns.BytesByTheirFields | shared/driver/driver.c:479-485 | the eight bytes of an instruction: opcode, registers with the source in the high half, offset and immediate, low bytes first |
| Insns.ProgramRoundTrip | shared/driver/driver.c:479-485 | reading the words of a program gives back that program |
| Insns.ParseIsFaithful | shared/driver/driver.c:479-485 | conversely, every even word buffer is exactly the words of the program read from it |
| Relocation.HelperOf | shared/driver/driver.h:32-37 | an immediate names a helper iff it is that helper's identifier |
| Relocation.HelperCallsFixup | shared/driver/driver.c:344-388 | the in-place loop leaves in the first `count` slots, and returns, what the specification says; later slots are untouched |
| Relocation.FixupIsExact | shared/driver/driver.c:353-387 | success iff every matching call names a known helper; on failure exactly the part before the first unknown call is resolved |
| Relocation.OnlyImmediatesOfCallsChange | shared/driver/driver.c:358-384 | on either outcome length and order are kept and only immediates of matching calls differ |
| Relocation.CallsByTheirFields | shared/driver/driver.c:358-387 | by field values: the pass succeeds iff every instruction with code 0x85 and destination, source and offset 0 has an immediate in 0x4b8f0000..0x4b8f0002, fails with -22, and leaves all other instructions alone |
| Relocation.OtherProgramsPass | shared/driver/driver.c:358-364 | a program without such instructions is accepted unchanged |
| Relocation.OffsetsByIdentifier | shared/driver/driver.c:366-384 | each request before the first unknown one gets the distance from the base to the helper its number names |
| Relocation.NothingChangesAfter | shared/driver/driver.c:379-380 | from the first unknown request on nothing changes |
| Relocation.SecondRunExact | shared/driver/driver.c:353-387 | a second pass succeeds iff every written offset is itself a helper identifier |
| Relocation.RunsOnceOnly | shared/driver/driver.c:353-387 | if no offset is an identifier, a second pass succeeds iff there was no helper call, and then changes nothing |
| Relocation.OffsetReachesIffNear | shared/driver/driver.c:384 | base plus stored offset is the helper's address iff the helper is within a signed 32-bit distance |
| Interpreter.NearCallReachesItsHelper | shared/driver/driver.c:384 | calling at base plus offset runs the named helper iff it is in reach |
| Interpreter.HelperCallStep | shared/driver/driver.h:32-37 | a call by identifier runs the helper of that number, sets register 0 and goes on |
| Interpreter.LocalCallReturns | shared/driver/driver.c:358-364 | a program-local call and its exit bring back the caller's registers 6 to 9 and log no helper |
| Interpreter.WideLoadStep | shared/driver/driver.c:358-364 | a wide load takes its high half from the next slot and skips it |
| Interpreter.JumpSteps | shared/driver/driver.c:358-364 | jumps count from the next instruction, and the last exit yields register 0 |
| Interpreter.RelocationPreservesMeaning | shared/driver/driver.c:344-388 | from all states and for all step counts, the program with calls by id and the rewritten one with calls by address agree, iff no wide constant is rewritten and every called helper is in reach |
| Interpreter.WellFormedProgramsKeepTheirMeaning | shared/driver/driver.c:344-388 | for well-formed programs with known calls and near helpers the pass succeeds and preserves every run |
| Interpreter.RewrittenConstantExample | shared/driver/driver.c:358-384 | a concrete accepted program whose constant the pass changes |
| Mailboxes.HeaderRoundTrip | shared/driver/bpf_injection_msg.h:37-41 | version, type and length survive the packing into one word |
| Mailboxes.HeaderBytes | shared/driver/bpf_injection_msg.h:37-41 | the header's bytes are version, type, and the length low byte first |
| Mailboxes.Mailbox.MyWrite | shared/driver/driver.c:118-140 | the window after a delivery, the exact sequence of device writes, and the byte count returned; no payload when the length is not a multiple of 4 |
| Mailboxes.DeliveryReplays | shared/driver/driver.c:124-134 | replaying that sequence of writes on the old window gives the delivered window |
| Mailboxes.DeliveryStaysInWindow | shared/driver/driver.c:124-134 | every write of a delivery lies in the payload window, never in the registers below it nor past the room for a 16-bit length |
| Mailboxes.WholePayloadDelivered | shared/driver/driver.c:124-134 | with a length divisible by 4 every payload word is in the window, the last included; otherwise only the header word changes |
| Mailboxes.WireRoundTrip | shared/driver/driver.c:461-485 | after a delivery the header reads back, the loader's words serialize to the longest 8-byte-aligned prefix of the payload, and everything outside header and payload is unchanged |
| Mailboxes.ProgramDelivered | shared/driver/driver.c:461-485 | delivering a serialized program makes exactly that program readable |
| Mailboxes.ProgramBytes | shared/driver/driver.c:479-485 | the payload bytes of a program are its instructions' bytes in order |
| Loader.InjectionsHaveNames | shared/driver/driver.c:327-342 | a program type has a name iff it is one of the three injection types, and distinct types have distinct names |
| Loader.NamesByType | shared/driver/driver.c:327-342 | types 1, 3 and 4 are called test, get_memory_info and set_max_page_order, and no other type has a name |
| Loader.InjectionsByStatus | shared/driver/driver.c:566-584 | status words 1, 3 and 4 store themselves as the type and make an execution due, no other word does |
| Loader.SetupByCases | shared/driver/driver.c:467-514 | return code, pointer, frees and live objects by the kernel's answers and the received instructions' fields |
| Loader.GrantedSetup | shared/driver/driver.c:431-502 | with everything granted the program is live as hv-test, hv-get_memory_info or hv-set_max_page_order by its type |
| Loader.Driver.constructor | shared/driver/driver.c:684-690 | the state after probing: type 0, nothing pending, no program |
| Loader.Driver.BpfMyProgAlloc | shared/driver/driver.c:403-446 | the object created, or none; a rejected runtime frees the new object |
| Loader.Driver.ReadInsns | shared/driver/driver.c:479-485 | the buffer read word by word holds the instructions in the payload window |
| Loader.Driver.BpfProgramsSetup | shared/driver/driver.c:448-515 | return code and program objects after a setup, for each of its outcomes |
| Loader.Driver.ExecuteWork | shared/driver/driver.c:535-549 | the setup uses the type found now, and what is run is whatever the pointer then holds |
| Loader.Driver.IrqHandler | shared/driver/driver.c:551-616 | type, pending mark, wake-up flag, device writes with the acknowledgement last, and the snapshot, per status value; nothing happens for another device |
| Ownership.StateIsExact | shared/driver/driver.c:467-514 | after any outcomes: the pointer is set iff the last assignment installed; at most the pointed-to object is live, iff the last setup past its buffer installed it |
| Ownership.RunIsExact | shared/driver/driver.c:541-546 | exactly when a work item runs which program, a freed one, or NULL |
| Ownership.NothingLeaks | shared/driver/driver.c:403-514 | on every path each object handed out is live or freed, never both |
| Ownership.FreedOnceIffNeverDangling | shared/driver/driver.c:475-495 | no program is freed twice iff no setup past its buffer follows a relocation failure that left the pointer dangling |
| Ownership.SuccessfulRunsOwnOneProgram | shared/driver/driver.c:475-514 | if all setups succeed, exactly the last program is live and run, and the earlier ones were freed once each in order |
| EndToEnd.DeliveredProgramIsInstalled | shared/driver/driver.c:461-506 | a delivered program with granted allocations is installed as its relocation iff all its helper calls are known |
| EndToEnd.SentProgramRuns | shared/driver/driver.c:461-546 | the program then run behaves like the one sent |
| EndToEnd.SettledInjectionRunsAsSent | shared/driver/driver.c:461-584 | in every run, once settled on a delivered program whose words were all fetched in time, the words last loaded install, under the injected type's name, a program that behaves like it |
| EndToEnd.ObjectsAreWorks | shared/driver/driver.c:475-546 | in every interleaved run, whenever no program is being read, the program objects are those of setups with the outcomes of the executions that have ended |
| EndToEnd.SettledRunRunsTheProgramSent | shared/driver/driver.c:461-584 | so once such a run has settled with its object and runtime granted, the program the driver runs has the injected type's name and behaves like the one delivered |
| EndToEnd.FailingDeliveries | shared/driver/driver.c:475-506 | delivered programs that lead to a freed program run, a double free, and NULL run after a return of 0 |
| Injection.LastIsLast | shared/driver/driver.c:566-584 | the position the history theorems speak of is that of the last event of its kind |
| Injection.NoHiddenSynchronization | shared/driver/driver.c:535-616 | every interleaving is allowed: each party's steps depend on and touch only what is its own |
| Injection.AnyWindowIsInitial | shared/driver/driver.c:684-690 | a freshly probed device may hold any window contents |
| Injection.NobodyIsStuck | shared/driver/driver.c:535-616 | in every reachable state an idle handler takes any interrupt, and work due or under way has a step |
| Injection.NoLostInjection | shared/driver/driver.c:535-584 | when the work item is idle, the last execution began after the last injection interrupt scheduled it and read that interrupt's type, or the next one's if the handler has stored it but not scheduled it yet; it loaded a program under that type iff the instruction buffer was granted |
| Injection.LastLoadIsExact | shared/driver/driver.c:461-485 | if the host has been silent since the last execution began, the words last loaded are the host's iff no word was fetched after a migration interrupt had replaced it |
| Injection.LateIffReplaced | shared/driver/driver.c:267-270 | in every reachable state a fetch would come too late iff the window no longer holds what the host left there |
| Injection.OrderDecides | shared/driver/driver.c:461-485 | where the stored message differs from the host's in every word, the words last loaded are the host's iff each was fetched before it was stored over |
| Injection.LastInjectionIsLoadedWhole | shared/driver/driver.c:461-584 | if neither the host nor a migration interrupt has written since, the words last loaded are exactly the program the host left |
| Injection.StaleProgramExample | shared/driver/driver.c:267-270 | whatever program was sent, a migration interrupt before its execution makes the buffer's address the program loaded |
| Injection.TornProgramExample | shared/driver/driver.c:267-270 | one during the load leaves half of each |
| Injection.LateStoreExample | shared/driver/driver.c:267-270 | one after the last fetch leaves the program whole |
| Injection.ExecutionsNeverExceedInterrupts | shared/driver/driver.c:535-584 | executions begun, plus one if pending, never exceed injection interrupts |
| Injection.DispatchIsDefined | shared/driver/driver.c:517-533 | while the work item is pending or running the program identifier is not NONE and has a name |
| Injection.UndisturbedInterrupt | shared/driver/driver.c:564-612 | the handler's steps, uninterrupted, do to the type, the pending mark and the window what its sequential contract states, migration stores and acknowledgement included |
| Injection.InterruptByStatus | shared/driver/driver.c:564-612 | the same by the status word: 1, 3 and 4 schedule, 5 announces the snapshot, others are only acknowledged |
| Injection.UndisturbedLoad | shared/driver/driver.c:479-485 | the loading steps, uninterrupted, load the words in the window |
| FreeLists.StoresIffDecodes | shared/driver/driver.c:236-239 | the first `count` words are the records iff decoding them in pairs gives the records |
| FreeLists.RecordAt | shared/driver/driver.c:187-246 | every block of orders 0 to 10 in a zone with managed pages is reported as page number times 4096 and order, right after all earlier zones, orders, lists and nodes |
| FreeLists.NextPosition | shared/driver/driver.c:187-246 | these positions follow one another without gaps |
| FreeLists.RecordsComeFromBlocks | shared/driver/driver.c:187-246 | every record is that of such a block |
| Snapshot.RingStep | shared/driver/driver.c:224-230 | on a ring with a sentinel no node is its own successor, so the NULL branch is dead |
| Snapshot.WalkList | shared/driver/driver.c:224-240 | one list appends its (address, order) pairs in ring order; the page count equals the list length |
| Snapshot.WalkArea | shared/driver/driver.c:215-244 | all types of an order append their lists in type order; the page count is their total length |
| Snapshot.WalkZone | shared/driver/driver.c:202-246 | all orders in order, nothing for a zone without managed pages |
| Snapshot.WalkZones | shared/driver/driver.c:187-246 | the buffer's first `count` words are exactly the flattening of all visited lists |
| Snapshot.LockAll | shared/driver/driver.c:176-184 | every zone is locked once in order, with its own saved flags, interrupts off after the first |
| Snapshot.UnlockAll | shared/driver/driver.c:276-282 | every zone is unlocked once in reverse, `k` ends at 0 and the interrupt state is restored |
| Snapshot.ReleasesMirrorAcquisitions | shared/driver/driver.c:176-184 | each release undoes one acquisition, in reverse order, with the flags that acquisition saved |
| Snapshot.Publish | shared/driver/driver.c:248-272 | header, address halves and count are written in order, the doorbell last |
| Snapshot.PublicationReplays | shared/driver/driver.c:267-272 | the five writes, one after another, give the published window, the one to the doorbell being the last |
| Snapshot.DoorbellRingsLast | shared/driver/driver.c:267-272 | exactly one write goes to the doorbell, and the window is complete before it |
| Snapshot.WriteGuestFreePages | shared/driver/driver.c:142-287 | the whole handler: buffer contents, device writes, lock events, no lock held and interrupts as before |
| Walks.CodeShiftsByOne | shared/driver/driver.c:224-240 | the code's records of a list are the meant ones without the first and with the sentinel's appended |
| Walks.CodeIsRightIff | shared/driver/driver.c:187-246 | the two walks report equally many records; the code's records plus the lists' first pages are the meant records plus the sentinels, and so right in any order iff those are the same |
| Walks.CodeIsWrongIffSomethingIsFree | shared/driver/driver.c:187-246 | under the allocator's invariant, with sentinels outside its pages, the code omits a free block and reports one that is not free iff anything is free |
| Walks.SentinelReportedExample | shared/driver/driver.c:224-238 | a one-page list for which the code reports the sentinel |
| Buddy.SkippingLosesNothing | shared/driver/driver.c:208-211 | under the allocator's invariant, skipping unmanaged zones omits no free block |
| Buddy.FreeMeansInABlock | shared/driver/driver.c:208-244 | a page is free iff it lies in a block of order 0 to 10 of some list |
| Buddy.BlockSizes | shared/driver/driver.c:236-239 | blocks double in size with their order |
| Buddy.RecordsAreTheFreePages | shared/driver/driver.c:208-244 | the records are pairwise disjoint, their union is exactly the free pages, and their total is the sum of free counts times block sizes |
| Buddy.RecordsAreAligned | shared/driver/driver.c:231-239 | every reported range starts at a multiple of its size |
| SnapshotMachine.InvariantHolds | shared/driver/driver.c:176-282 | in every interleaving: lock ownership, interrupt state, zone consistency, and records equal to the walk's prefix of the current lists |
| SnapshotSafety.OthersRunFreely | shared/driver/driver.c:176-282 | off the handler's processor an allocator's step depends on its own position and the locks only |
| SnapshotSafety.AnyStateIsInitial | shared/driver/driver.c:176-282 | any consistent zones, interrupt states and window contents may come first |
| SnapshotSafety.SnapshotIsAtomic | shared/driver/driver.c:176-282 | in every interleaving, at the doorbell the records are the flattening of all zones' lists in that state |
| SnapshotSafety.PublishedWordsAreRight | shared/driver/driver.c:248-272 | at the doorbell the window holds the header, the buffer's address in halves and the number of records iff the host has not changed one of these words since it was stored |
| Snapshot.HandlerAnnounces | shared/driver/driver.c:248-272 | the sequential handler publishes a window with the same meaning |
| SnapshotSafety.EveryReportedPageIsFree | shared/driver/driver.c:187-272 | at the doorbell the reported ranges are disjoint, aligned and exactly the pages free at that moment |
| SnapshotSafety.HandlerLeavesNoLock | shared/driver/driver.c:276-282 | outside the handler no lock is left held by it; inside, its processor has interrupts off and runs nothing else |
| SnapshotSafety.LocksComeInRounds | shared/driver/driver.c:176-282 | in every reachable state the handler's lock steps are whole rounds, each lock taken once in order and given back once in reverse with the flags saved, then the part its position accounts for |
| SnapshotSafety.NeverWaitsForItself | shared/driver/driver.c:176-184 | the handler never waits for a lock that it or its own processor holds |
| SnapshotSafety.HoldersDoNotWait | shared/driver/driver.c:176-184 | whoever the handler waits for is on another processor and waits for nobody |
| SnapshotSafety.NoCycleOfWaiters | shared/driver/driver.c:176-282 | in every reachable state every chain of waiters has at most two links and no repetition |
| SnapshotSafety.HandlerCanStep | shared/driver/driver.c:176-282 | unless it spins on a held lock the handler always has an enabled step |
| SnapshotSafety.SpinningEnds | shared/driver/driver.c:182 | a held lock the handler spins on is freed by two steps of its holder |
| SnapshotSafety.DoorbellIsReachable | shared/driver/driver.c:176-272 | from every reachable state with the handler at work the doorbell can be reached |
| SnapshotSolo.HandlerAloneIsSequential | shared/driver/driver.c:142-287 | from any state without held locks the handler's steps alone end with the records, the window, the lists, the owners and the interrupt state that the sequential contract states |
| SnapshotSolo.LockOrderIsSequential | shared/driver/driver.c:176-282 | and with the same acquisitions and releases, in the same order and with the same flags |
| CpuLog.BpfProg1 | bpfProg/myprog.c:65-92 | if the map held the first 63 of the masks so far, after the call it holds the first 63 of them and the new one, in order, nothing overwritten |
| CpuLog.LogHoldsFirstMasks | bpfProg/myprog.c:80-90 | after n sequential calls the counter is min(n, 63) and the slots hold the first masks in order, never overwritten |
| CpuLog.RunSlotBySlot | bpfProg/myprog.c:80-90 | one run on any map, slot by slot |
| CpuLog.CallersRunFreely | bpfProg/myprog.c:80-90 | every interleaving is allowed: a caller's next step depends on its own position alone |
| CpuLog.InterleavedLog | bpfProg/myprog.c:80-90 | under any interleaving the counter is the number of increments, a slot stored into holds the mask of a caller that stored there and whose ticket is at most the slot's number, and the others are zero |
| CpuLog.StepsOverExactly | bpfProg/myprog.c:84-87 | the counter ends past 63 iff some check passed while the counter and the callers past theirs made 63 |
| CpuLog.SteppedOverExample | bpfProg/myprog.c:84-87 | 62 calls in sequence and two overlapping ones take the counter to 64 |
| CpuLog.MasksLandExactly | bpfProg/myprog.c:87-90 | each of the first 63 increments is followed by a store into the slot it numbers iff no increment falls between such an increment and its caller's second read; then the slots hold the masks in order |
| CpuLog.InterleavedIsSequential | bpfProg/myprog.c:80-90 | with neither of the two races, the map is the one sequential runs would leave, in the order of the increments |
| CpuLog.UndisturbedCall | bpfProg/myprog.c:80-90 | a caller left alone does what one sequential run does |
| CpuLog.PastTheLimitForEver | bpfProg/myprog.c:84-90 | in every continuation of a run past 63 all checks pass, the counter stays past it, and only slots whose number had already been read back change |
| CpuLog.LostMaskExample | bpfProg/myprog.c:87-90 | two callers whose first mask is lost |
| Sections.PrepareMessage | host_interface/bpf_injection_msg.h:82-188 | the header fields, the payload of the last eligible section through a 16-bit length, none if there is none, and exactly when the copy overruns its buffer |
| Sections.SentByItsFields | host_interface/bpf_injection_msg.h:118-147 | what is sent comes from the last section that is found, has a header, is PROGBITS, is named, has a size and exactly one data block, and something is sent iff there is one |
| Sections.FailingOneTestIsFailingAll | host_interface/bpf_injection_msg.h:124-147 | a section failing any one of these tests might as well not be there |
| Sections.LengthGoesThroughSixteenBits | host_interface/bpf_injection_msg.h:168-169 | a copy's length is its block's modulo 65536 |
| Sections.FittingSectionIsExact | host_interface/bpf_injection_msg.h:168-175 | the copy has the section's bytes and length iff its size fits 16 bits |
| Sections.RequestedOnlyIfLast | host_interface/bpf_injection_msg.h:118-179 | an eligible section is the one sent iff no eligible section follows it, whatever name was requested |
| Sections.OnlyEligibleIsSent | host_interface/bpf_injection_msg.h:118-179 | if the requested section is the only eligible one, it is the one sent |
| Sections.WrongSectionExample | host_interface/bpf_injection_msg.h:163-166 | a file for which another section than the requested one is sent |

## Left out

- Snapshot.WriteGuestFreePages: does not model waiting for a contended lock; SnapshotMachine does, step by step, and SnapshotSolo ties the two.
- Snapshot.LockAll: likewise starts with no zone lock held.
- Loader.Driver.IrqHandler: likewise, when the status starts a migration.
- SnapshotSafety.SnapshotIsAtomic: is about the walk that reports the cursor's own page; Walks relates the walk in the code to it.
- SnapshotSafety.EveryReportedPageIsFree: likewise.
- SnapshotMachine.InvariantHolds: likewise.
- Buddy.RecordsAreTheFreePages: likewise.
- Buddy.RecordsAreAligned: likewise.
- SnapshotSolo.HandlerAloneIsSequential: likewise.
- Loader.Driver.ExecuteWork: records that a freed program or NULL would be run instead of modelling what the kernel does then.
- Loader.Driver.BpfMyProgAlloc: does not model the truncation of the name to the kernel's field width, nor reference count and load time.
- Sections.PrepareMessage: does not model a failing malloc, and keeps the bytes that fit when a copy overruns its buffer.
- CpuLog.InterleavedLog: is stated while the counter is below 2^32; after a wrap the index can be 0.
- The seqlock loop on a zone's span (its results are only printed), timing, and all printing.
- PCI probing and removal, device registration, module entry and exit, beyond the initial values set at probe.
- Memory hot-plug changing the set of populated zones while the handler runs.
- `bpf_prog_select_runtime`: a success or a failure that keeps the instructions' meaning.
- The bodies of the three helpers, which only print: they are distinct calls recorded in the machine's log.
- The individual arithmetic, memory and branch instructions of eBPF: arbitrary functions, which makes the relocation theorem more general.
- libelf, the device emulator and the host's migration code, sockets and command-line programs on the host.
- The experiment scripts, plots and memory fillers.
