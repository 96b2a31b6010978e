# Verified model of the remote memory debugger

A remote memory debugger has three layers: an engine on the Android device that reads memory, walks ELF
tables and keeps hardware breakpoints; a service in the desktop client that checks, repeats and reconciles
what the device answers; and an HTTP front through which other programs use the service. This project models
the algorithms and protocols of those layers in Dafny and proves what each is for. `dafny verify
dfyconfig.toml` checks everything.

| file | what it models |
|---|---|
| `Basics.dfy`, `Text.dfy` | options, word limits, little-endian words, remainders, the string operations that parsers share |
| `PerfRing.dfy`, `PerfRuns.dfy` | the perf ring consumer: records in a circular buffer, the bounded queue of hits, runs over many rings |
| `BreakpointBooks.dfy`, `KernelBreakpoints.dfy` | process-wide breakpoints over one driver slot per thread, against changing thread sets and a driver that may refuse: who owns which slot, and the operations |
| `DriverHits.dfy` | draining a breakpoint's events from the kernel |
| `PrefixRead.dfy` | the page-chunked read of the longest readable prefix |
| `GnuHash.dfy` | counting symbols by the chain of the largest GNU-hash bucket |
| `PhysicalRuns.dfy` | the physically present runs of a process's maps |
| `PtraceMemory.dfy` | word-wise reads and writes with a read-modify-write tail |
| `TargetSeqlock.dfy` | the target snapshot: a mutex, an odd/even revision, a lock-free reader, as interleaved atomic steps |
| `ServiceContext.dfy`, `MemReads.dfy` | captured contexts, the checks around device calls, reads, batches, module pages, pointer chains |
| `BatchMatcher.dfy` | reconciling a batch reply by greedy best fit |
| `ModuleNames.dfy` | grouping modules and resolving names and bases |
| `MemWrites.dfy` | writes, breakpoint and UXN mutations, and what "retryable" is worth |
| `HitCounters.dfy` | cumulative hit counters |
| `SymbolTable.dfy` | loading symbols page by page |
| `HttpHead.dfy`, `HttpFraming.dfy` | the request head (RFC 9110, RFC 9112) and the receive loop |
| `IpcQueue.dfy` | accept queue, worker pool and stop, as interleaved atomic steps |

Devices, drivers, sockets and clocks are parameters or small classes whose contracts allow every behaviour the
code has to cope with: a driver may refuse any call, the kernel may return events in any portions, another
thread may act between any two atomic steps. Integers are unbounded, so where a wrap-around of the original can
be met it is written out: 32-bit sequence numbers and hash indices, 64-bit totals and addresses.

Where the code and its own promises part, the model follows the code and the theorem says exactly when the
promise holds:

- `AndroidMemKernel::Read` promises to zero what it did not read, but returns early, with the buffer untouched,
  for address 0 or without a process handle (`PrefixRead.Read`, with `PrefixRead.NullAddressKeepsTheBuffer` as the instance).
- `uxnNativeFailure` calls a time-out answer retryable although the device may have acted
  (`MemWrites.RetryableMayHaveChangedIff`, with `MemWrites.TimeOutMayHaveChanged` as the instance), so that a client
  which repeats retryable calls gets its effect at most once exactly if at most one of them reached the device
  (`MemWrites.AtMostOneEffectIff`, with `MemWrites.TwoTimeOuts` as the instance).
- `WriteMemory` of the tracer does not look at whether the last word could be peeked, so a refused peek fills
  the bytes behind the data with 0xFF (`PtraceMemory.WriteFrame`, with `PtraceMemory.RefusedPeekOverwrites` as the instance).
- `KernelHwBreakpoint` does not look at what the driver answers to remove, enable and disable, and its 32-bit
  sequence number may come round to a handle still in use. `leaked` is exactly the live slots that no entry owns
  and `stale` exactly the owned slots switched otherwise than their entry says; every operation states what it
  adds to either, a whole rescan included (`BreakpointBooks.PassExact`), and ownership and agreement hold if and
  only if they are empty
  (`KernelBreakpoints.KernelHwBreakpoint.ExactOwnership`, with the instances `KernelBreakpoints.RefusedRemoval`,
  `KernelBreakpoints.RefusedSwitch` and `KernelBreakpoints.NumberComesRound`).
- `PerfHwBreakpoint` unmaps the ring of a thread that is gone without draining it, so the records waiting in it
  are lost, and only those (`PerfRuns.RunAgrees`, with `PerfRuns.CloseLoses` as the instance).
- `GetGnuHashSymCount` takes a last bucket that starts at symbol 0 for an empty table
  (`GnuHash.CountsEverySymbol`, with `GnuHash.FirstSymbolIsMissed` as the instance), and its chain walk has no bound (`GnuHash.WalkDivergesIff`).
- The 413 exit that `HandleClient` has after its receive loop is dead code. The status of a request that is not
  dispatched depends on how it is cut into pieces exactly if its blank line begins late and its head deserves
  another answer than 400 (`HttpFraming.SameForEverySplitIff`, with `HttpFraming.TwoAnswers` as the instance);
  dispatch never does (`HttpFraming.DispatchIsOfStream`).

## Model

| member | source | states |
|---|---|---|
| `BatchMatcher.ExchangeKeepsPairing` | gui/mem/MemService.cpp:957-976 | exchange argument: redirecting a block to a fitting request no larger than its own, and its user to the freed one, keeps a pairing and all earlier choices |
| `BatchMatcher.BestFit` | gui/mem/MemService.cpp:958-968 | the inner scan finds the smallest unmarked request of the address that is large enough, or none exactly when none fits |
| `BatchMatcher.BestFitKeepsExplanation` | gui/mem/MemService.cpp:957-976 | if some pairing extends the choices so far, one extends them with the best fit of the next block |
| `BatchMatcher.InjectiveIsOnto` | gui/mem/MemService.cpp:955-976 | as many blocks as requests, no request twice: every request is used |
| `BatchMatcher.MatchBlocks` | gui/mem/MemService.cpp:955-976 | the greedy loop accepts exactly the replies that some pairing explains, for blocks in any order, and its marks are then a bijection |
| `PerfRing.CopyRing` | engine/android/PerfHwBreakpoint.hpp:335-343 | for every size, offset and length the copy is the bytes met going round the end of the buffer |
| `PerfRing.ConsumeRingLocked` | engine/android/PerfHwBreakpoint.hpp:346-402 | on any buffer contents: the records between tail and head, stopping at a zero size, are applied to queue and total, and the cursor is published |
| `PerfRing.PerfEntry.ReadHwBpInfo` | engine/android/PerfHwBreakpoint.hpp:158-168 | hands over the pending hits in order, empties the queue, keeps and reports the cumulative total |
| `PerfRing.DigestOfRecord` | engine/android/PerfHwBreakpoint.hpp:358-394 | every field of a record, whichever of them straddle the wrap, is the field that was encoded |
| `PerfRing.SampleIsReported` | engine/android/PerfHwBreakpoint.hpp:358-386 | the hit queued for a well-formed sample, wherever the ring wraps, has the sample's own thread, general registers, stack pointer and program counter, and the breakpoint's address; the oldest pending hit gives way at 100000 |
| `PerfRing.ParseRefinesStream` | engine/android/PerfHwBreakpoint.hpp:346-402 | for every list of well-formed records, ring size and wrap position, parsing the circular buffer gives what the linear stream means and ends at the head |
| `PerfRuns.DepositHolds` | engine/android/PerfHwBreakpoint.hpp:346-350 | a record written in front of the head, without passing the cursor handed back, leaves all unread bytes in place |
| `PerfRuns.AccountAllIsLast` | engine/android/PerfHwBreakpoint.hpp:378-394 | from any state, the queue reports, field by field and in order, the last 100000 of the samples, and the total grows by samples plus lost counts, modulo 2^64 |
| `PerfRuns.InitialAgrees` | engine/android/PerfHwBreakpoint.hpp:189-202 | before any ring is opened the engine agrees with the empty journal |
| `PerfRuns.StepAgrees` | engine/android/PerfHwBreakpoint.hpp:346-427 | opening, closing, producing into and draining a ring, and reading: each keeps engine and reference journal in agreement |
| `PerfRuns.StepBalances` | engine/android/PerfHwBreakpoint.hpp:405-430 | each step keeps every stored record in one place: consumed, waiting in an open ring, or lost with a closed one |
| `PerfRuns.RunAgrees` | engine/android/PerfHwBreakpoint.hpp:158-168 | over every run on rings that come and go: the pending hits report, one by one with their own thread and registers, the newest 100000 samples consumed since the last read, the total is samples plus losses of the records consumed, and of each ring exactly the records waiting when it is closed are lost |
| `PerfRuns.CloseLoses` | engine/android/PerfHwBreakpoint.hpp:424-430 | the instance: a sample waiting when its thread's ring is closed is neither queued nor counted |
| `KernelBreakpoints.KernelHwBreakpoint.InstallForTid` | engine/android/KernelHwBreakpoint.hpp:218-277 | a plain install on that thread, at that address, with that length and kind, and a forced one of the same exactly if the plain one is refused and forcing is asked for; a failure leaves the driver as it was, a success adds one fresh slot for that site |
| `KernelBreakpoints.KernelHwBreakpoint.AddProcessHwBp` | engine/android/KernelHwBreakpoint.hpp:46-100 | asks the driver for every scanned thread and no other, at the address with length and kind, by force where allowed and refused; a failed add leaves nothing installed; a success owns exactly the new slots, and slots and failures partition the scanned threads; slots leak only when the 32-bit number comes round to a live handle |
| `KernelBreakpoints.KernelHwBreakpoint.DelProcessHwBp` | engine/android/KernelHwBreakpoint.hpp:102-115 | frees exactly the entry's own slots, except those the driver refuses to give up, which are leaked; stale loses the entry's slots |
| `KernelBreakpoints.KernelHwBreakpoint.SetEnabled` | engine/android/KernelHwBreakpoint.hpp:117-141 | suspend and resume switch exactly the entry's slots and no other; of these exactly those become stale that stood otherwise and that the driver refused |
| `KernelBreakpoints.KernelHwBreakpoint.InstallMissing` | engine/android/KernelHwBreakpoint.hpp:316-338 | every missing thread, and no other, is tried as the entry says; a granted slot watches the very thread it is recorded for, at the entry's address with its length and kind; the granted slots are fresh, all others untouched, and a granted slot stands otherwise than a suspended entry only if the driver does not always comply |
| `KernelBreakpoints.KernelHwBreakpoint.RescanEntry` | engine/android/KernelHwBreakpoint.hpp:307-355 | one entry against one scan: kept threads keep their slots, granted ones gain one, vanished ones give theirs up unless refused, no other slot is touched; leaked gains exactly the refused removals, stale exactly the granted slots that stand wrongly; a settled entry that is granted nothing stays as it is with all books |
| `KernelBreakpoints.KernelHwBreakpoint.RescanAll` | engine/android/KernelHwBreakpoint.hpp:307-355 | a whole pass: the answers to the installs, asked on exactly the scanned threads without a slot at their entry's address, and the refused removals, all of vanished threads' slots, fix entries, driver slots, leaked and stale; every entry is settled against its own scan with kept threads' handles, and each thread's slot watches that thread |
| `BreakpointBooks.ScanningOneMore` | engine/android/KernelHwBreakpoint.hpp:307-355 | one entry more keeps this description of the pass, even when the driver gives out again the handle of a slot it has just taken back |
| `BreakpointBooks.PassExact` | engine/android/KernelHwBreakpoint.hpp:307-355 | of a whole pass: each newly leaked slot belonged to a thread that vanished, each granted slot now belongs to a scanned thread that had none; nothing leaks if no thread vanished, nothing is granted if every scanned thread has a slot |
| `BreakpointBooks.PassStays` | engine/android/KernelHwBreakpoint.hpp:307-355 | a pass over settled entries gives up nothing, and changes no book exactly if nothing is granted |
| `BreakpointBooks.PassTwice` | engine/android/KernelHwBreakpoint.hpp:307-355 | two passes over the same threads: the second asks for just the installs the first was refused, gives up nothing, and changes no book exactly if it is refused all of them again |
| `KernelBreakpoints.RescanTwice` | engine/android/KernelHwBreakpoint.hpp:307-355 | convergence of the code's passes: the second changes neither entries, driver nor books exactly if the installs refused in the first are refused again, so always with a driver that grants every install |
| `KernelBreakpoints.KernelHwBreakpoint.Shutdown` | engine/android/KernelHwBreakpoint.hpp:199-214 | all entries gone and every owned slot given up except those whose removal the driver was asked for and refused, which are leaked besides those leaked before |
| `KernelBreakpoints.KernelHwBreakpoint.ExactOwnership` | engine/android/KernelHwBreakpoint.hpp:46-141 | in every reachable state: sub-handles are live, one-to-one, and each watches its own thread at its entry's address, with its length and kind; the live slots are exactly them iff leaked is empty, all are switched as their entries say iff stale is empty, and both are empty for a complying driver before the number wraps; until then leaked is exactly the slots whose removal the driver refused |
| `KernelBreakpoints.RefusedRemoval` | engine/android/KernelHwBreakpoint.hpp:102-115 | the instance of a leak: a refused removal leaves a live slot and no entry |
| `KernelBreakpoints.RefusedSwitch` | engine/android/KernelHwBreakpoint.hpp:117-128 | the instance of disagreement: a refused switch leaves a suspended entry with a slot that is on |
| `KernelBreakpoints.NumberComesRound` | engine/android/KernelHwBreakpoint.hpp:88-89 | the instance with a complying driver: after 2^32 additions the next one meets a handle in use and its slots are leaked |
| `BreakpointBooks.RescanPartitions` | engine/android/KernelHwBreakpoint.hpp:307-355 | after a rescan slots and logged failures partition the scanned threads and nothing else of the entry changed |
| `BreakpointBooks.RescanConverges` | engine/android/KernelHwBreakpoint.hpp:307-355 | a second rescan of the same threads with the same refusals leaves the entry as it is |
| `BreakpointBooks.SettledStays` | engine/android/KernelHwBreakpoint.hpp:307-355 | a settled entry scanned again with every install refused keeps its slots and marks and gives none up |
| `BreakpointBooks.DeleteKeeps` | engine/android/KernelHwBreakpoint.hpp:102-115 | dropping an entry and the slots given up keeps ownership, accounting and switch state |
| `BreakpointBooks.SwitchKeeps` | engine/android/KernelHwBreakpoint.hpp:117-141 | switching one entry's slots keeps ownership, and stale is exact again with those of its slots that stand otherwise |
| `BreakpointBooks.GrowKeeps` | engine/android/KernelHwBreakpoint.hpp:316-338 | new slots for one entry keep ownership one-to-one and everything accounted for, and stale is exact with those that stand wrongly |
| `BreakpointBooks.ShrinkKeeps` | engine/android/KernelHwBreakpoint.hpp:339-355 | giving up slots of vanished threads keeps ownership one-to-one and everything accounted for |
| `TargetSeqlock.InitInv` | gui/gui/AppContext.h:51-53 | the invariant holds at the start, with no target, handle 0 and revision 0 |
| `TargetSeqlock.StepKeepsInv` | gui/gui/AppContext.cpp:29-94 | every atomic action of every thread keeps the invariant: the mutex holder is unique, what it read is current, the revision is odd exactly during a mutation |
| `TargetSeqlock.OddGuardNeverFires` | gui/gui/AppContext.cpp:58-64 | whoever holds the mutex in beginTargetMutation sees an even revision, so the guard is dead |
| `TargetSeqlock.RunKeepsInv` | gui/gui/AppContext.cpp:29-94 | the invariant holds at every instant of every interleaving |
| `TargetSeqlock.RunGrows` | gui/gui/AppContext.cpp:29-76 | along a run revisions never fall, published pairs are never rewritten, and no pair moves under an even revision |
| `TargetSeqlock.FrozenBetween` | gui/gui/AppContext.cpp:96-116 | the same even revision at two instants means that revision and pair stood at every instant between |
| `TargetSeqlock.MatchIsStable` | gui/gui/AppContext.cpp:96-116 | a lock-free match, each of its four loads at its own instant, means the expected pair was published under that revision and stood from first load to last |
| `TargetSeqlock.StableIsMatched` | gui/gui/AppContext.cpp:96-116 | and a pair that stands throughout is matched |
| `TargetSeqlock.AtMostOneGrant` | gui/gui/AppContext.cpp:55-76 | of all mutations begun with the same expected snapshot at most one is granted |
| `TargetSeqlock.SnapshotsArePublished` | gui/gui/AppContext.cpp:85-94 | every snapshot handed out is a pair published under its own even revision |
| `TargetSeqlock.OneDestructorCloses` | gui/gui/AppContext.cpp:18-53 | however often a mutation object is moved, exactly the owning one closes it, raising the revision by two in all |
| `TargetSeqlock.OneAtATime` | gui/gui/AppContext.cpp:55-94 | while one thread holds the mutex no other takes a step |
| `TargetSeqlock.BeginOutcome` | gui/gui/AppContext.cpp:55-76 | a mutation is granted exactly if the caller expects nothing or just the live pair, revision and generation; a refusal leaves everything as it was |
| `TargetSeqlock.SnapOutcome` | gui/gui/AppContext.cpp:85-94 | a snapshot is the live pair and revision with the caller's generation, and taking it changes nothing |
| `TargetSeqlock.MoveHandsOver` | gui/gui/AppContext.cpp:18-35 | moving hands the mutation to the new object alone; an object without it publishes and closes nothing |
| `TargetSeqlock.PublishOutcome` | gui/gui/AppContext.cpp:29-53 | publication and destructor leave the process and handle asked for live, published under the previous revision plus two |
| `TargetSeqlock.PublicationTakesEffect` | gui/gui/AppContext.cpp:29-53 | in every interleaving, from the first store of a publication to the destructor that closes the mutation: the pair asked for is live and published, unless another publication came in between |
| `TargetSeqlock.PublishedAsAsked` | gui/gui/AppContext.cpp:29-53 | over every run each published pair is (0, 0) or what the last publication before it asked for |
| `ServiceContext.ValidateContext` | gui/mem/MemService.cpp:301-351 | nothing to object exactly when not given up, of the captured generation, and with the connection and the captured, attached target as far as required; each error code exactly for its own cause; exactly what reconnecting or waiting can cure is retryable |
| `ServiceContext.Sandwich` | gui/mem/MemService.cpp:301-351 | two checks a context passes in a run of target mutations and reconnects enclose an interval in which its target and generation were the live ones at every instant |
| `ServiceContext.BracketedIsCurrent` | gui/mem/MemService.cpp:301-351 | so at the instant of any device call between the checks of a successful operation the context's target and generation were current |
| `MemReads.ReadMemory` | gui/mem/MemService.cpp:883-918 | success exactly for a range within limits, a context that stands on both sides and a non-empty reply no longer than asked; then the block is the reply, bracketed |
| `MemReads.CheckItems` | gui/mem/MemService.cpp:928-943 | the running total refuses exactly the batches that are empty, too many, out of range or too large together |
| `MemReads.ReadMemoryBatch` | gui/mem/MemService.cpp:920-986 | the outcome for every input: success exactly when limits, both contexts and explainability hold, with the backend's blocks unchanged and in order, labelled with the context's target; otherwise the error of the first condition that fails |
| `MemReads.ListModules` | gui/mem/MemService.cpp:689-742 | the outcome for every input: that slice of the matching modules when request, all three contexts and module list are valid, otherwise the error of the first that is not |
| `MemReads.FilteredInOrder` | gui/mem/MemService.cpp:717-724 | the matching modules are those whose lower-cased name contains the filter, each once and in the list's order |
| `MemReads.PagesTile` | gui/mem/MemService.cpp:723-733 | following the next offsets from the start gives the whole list without gap or overlap, for every page size |
| `MemReads.DecodePointer` | gui/mem/MemService.cpp:51-61 | eight bytes give their little-endian word, any other number nothing |
| `MemReads.FollowChain` | gui/mem/MemService.cpp:823-864 | hop after hop gives the end of the only chain, and fails exactly when there is no chain |
| `MemReads.ChainUnique` | gui/mem/MemService.cpp:823-864 | from one start there is at most one pointer chain |
| `MemReads.ResolvePointer` | gui/mem/MemService.cpp:782-881 | the outcome for every input: success, with the end of the only chain from the resolved module's base and bracketed, exactly for a valid request, standing contexts, a valid module list, a module to start from and a chain; otherwise the error of the first that is missing |
| `ModuleNames.ValidateModules` | gui/mem/MemService.cpp:63-82 | accepts exactly the lists within the count, entry and total name limits |
| `ModuleNames.GroupModules` | gui/mem/MemService.cpp:89-104 | one group per lower-cased name, represented by its lowest module, the first of equals |
| `ModuleNames.ResolveByName` | gui/mem/MemService.cpp:106-150 | resolves exactly when one name answers in the best tier that has an answer (full name, last path part, substring), to the lowest module of that name |
| `ModuleNames.ResolvesUnique` | gui/mem/MemService.cpp:106-150 | a query resolves to at most one module |
| `ModuleNames.ResolveByBase` | gui/mem/MemService.cpp:152-172 | any piece's base leads to the module that stands for the first piece's name |
| `ModuleNames.NameAndBaseAgree` | gui/mem/MemService.cpp:106-172 | asking by full name, for a name that is not blank and has no blanks around it, resolves, to the module that asking by base gives and to no other |
| `ModuleNames.BaseNameLowers` | gui/mem/MemService.cpp:38-41 | taking the last path part and lower-casing commute |
| `ModuleNames.BaseNameOf` | gui/mem/MemService.cpp:38-41 | what follows a directory is the last part of the path |
| `ModuleNames.TrimAsciiPadded` | gui/mem/MemService.cpp:16-27 | blanks around a query are taken away and nothing else |
| `MemWrites.WriteMemory` | gui/mem/MemService.cpp:988-1052 | retryable only if the device call was not made or not started; success only for all bytes written with the context standing on both sides; partial and unconfirmed writes are final errors |
| `MemWrites.MutateBreakpoint` | gui/mem/MemService.cpp:1054-1129 | retryable only if not issued or neither started nor answered; an applied mutation is success or completion-unknown |
| `MemWrites.NativeFailure` | gui/mem/MemService.cpp:181-216 | of all Linux error codes only a time-out is retryable |
| `MemWrites.ReplyError` | gui/mem/MemService.cpp:219-271 | no objection exactly for an answered, applied request without error code; retryable only if nothing was sent or on a time-out answer |
| `MemWrites.UxnCall` | gui/mem/MemService.cpp:1300-1508 | success exactly when entry checks, reply, match and final check all pass; retryable after the device call only if it was not started or answered with a time-out |
| `MemWrites.SetBreakpoint` | gui/mem/MemService.cpp:1131-1140 | exactly the accesses 1 to 4 with 1, 2, 4 or 8 bytes are passed on, execution with 4 bytes only |
| `MemWrites.EntryError` | gui/mem/MemService.cpp:1300-1320 | no objection exactly if the context stands, the device is in kernel mode and under the lock the context stands again |
| `MemWrites.InstallUxn` | gui/mem/MemService.cpp:1300-1340 | success exactly for an aligned address with all checks passed and an answer for this process and address, without flags, in a slot below 16, which is returned |
| `MemWrites.RemoveUxn` | gui/mem/MemService.cpp:1341-1373 | success exactly for an aligned address with all checks passed and an applied request |
| `MemWrites.ResumeUxn` | gui/mem/MemService.cpp:1414-1446 | success exactly for a slot below 16 with all checks passed and an applied request |
| `MemWrites.ClearUxn` | gui/mem/MemService.cpp:1486-1508 | success exactly for an applied request in kernel mode on a connection that stands; no target is needed |
| `MemWrites.RetryableMayHaveChangedIff` | gui/mem/MemService.cpp:181-271 | of retryable results, exactly the UXN requests answered with ETIMEDOUT may have changed the device |
| `MemWrites.TimeOutMayHaveChanged` | gui/mem/MemService.cpp:181-216 | the counterexample: a resume answered with ETIMEDOUT is retryable whether or not the device acted |
| `MemWrites.AtMostOneEffectIff` | gui/mem/MemService.cpp:181-271 | for every run of re-issued calls: no honest device can cause the effect twice exactly if at most one call of the run was issued and started; of the repeated calls those are the ones answered with ETIMEDOUT |
| `MemWrites.TwoTimeOuts` | gui/mem/MemService.cpp:181-216 | the counterexample: a resume answered with ETIMEDOUT and issued again takes effect twice |
| `MemWrites.AtMostOneEffect` | gui/mem/MemService.cpp:181-271 | the corollary when nothing that timed out was applied: at most one effect over the run, exactly one if it ends in success, none if it gives up on a retryable error |
| `HitCounters.MemService.BreakpointHits` | gui/mem/MemService.cpp:1168-1223 | the state is the specified step; on success returned plus dropped is the total minus the last one passed on, or the whole total after a regression or a change of target; a failure says which condition failed |
| `HitCounters.MemService.MutateBreakpoint` | gui/mem/MemService.cpp:1054-1129 | the counters change as specified: cleared for a new target, the address forgotten on a successful set or remove |
| `HitCounters.StepConserves` | gui/mem/MemService.cpp:1168-1223 | each call: new latest total plus forgotten total is old latest plus what the caller was told |
| `HitCounters.HitsAreConserved` | gui/mem/MemService.cpp:1168-1223 | over every run, failures, other breakpoints and targets included: hits told to callers are the last total plus the totals forgotten on the way |
| `HitCounters.SumIsLastTotal` | gui/mem/MemService.cpp:1168-1223 | calls for one target whose breakpoint the counters do not know, without a successful set or remove and with totals that do not fall: returned plus dropped over all successful calls is the last reported total |
| `HitCounters.OthersDoNotMatter` | gui/mem/MemService.cpp:1180-1184 | counters of another target make no difference to what a run for this one credits and reports |
| `DriverHits.HitReader.ReadHardwareBreakpointInfo` | engine/android/AndroidKernelDriver.cpp:418-460 | takes the first events of the queue, passes on exactly their hits in order, adds their number to the 64-bit total; after full reads the queue is empty or 4096 events were taken |
| `DriverHits.HitsArriveOnce` | engine/android/AndroidKernelDriver.cpp:418-460 | over every run no hit is lost, repeated or reordered between kernel and callers, and the total is their number modulo 2^64 |
| `DriverHits.HitsAreReported` | engine/android/AndroidKernelDriver.cpp:439-447 | each hit event is passed on once, in its place, as an item with its own thread, address, time and registers, and nothing else is |
| `SymbolTable.FullByCount` | gui/mem/MemService.cpp:1584-1588 | pages no longer than asked for bring in the full count exactly if every one of them is full |
| `SymbolTable.AppendPage` | gui/mem/MemService.cpp:1572-1582 | appends a page exactly when all names fit one by one and together |
| `SymbolTable.LoadPages` | gui/mem/MemService.cpp:1554-1588 | the loop with its single final count check succeeds exactly when every page is full and all names fit |
| `SymbolTable.PagesAreTheList` | engine/ceserver/api.cpp:1453-1464 | full pages that are first parts of the slices of one list join up to the list |
| `SymbolTable.TableIsTheList` | engine/ceserver/api.cpp:1453-1464 | full pages served from one list join up to that list, without gap or duplicate |
| `SymbolTable.LoadSymbolTable` | gui/mem/MemService.cpp:1510-1594 | success means bracketed checks, the module the base stands for, and a complete table of the initialised count, which is the engine's list if the backend serves one list of that count; with standing contexts and valid modules it fails only if there is no such module with a complete table |
| `Text.TrimOptionalWhitespace` | gui/ipc/IpcHttpRequest.cpp:40-52 | the two index loops compute the bare value |
| `Text.TrimPadded` | gui/ipc/IpcHttpRequest.cpp:40-52 | blanks around a bare value are removed and nothing else |
| `HttpHead.ParseLine` | gui/ipc/IpcHttpRequest.cpp:85-121 | one line is accepted exactly as section 5 of RFC 9112 and section 5.6.2 of RFC 9110 allow it, giving the lower-cased name and bare value |
| `HttpHead.ParseHeaders` | gui/ipc/IpcHttpRequest.cpp:74-126 | the loop over lines computes the reference parse of the block |
| `HttpHead.ParseRendered` | gui/ipc/IpcHttpRequest.cpp:74-126 | round trip: a rendered block of legal fields with distinct case-folded names parses to exactly their map |
| `HttpHead.AcceptedIsRendered` | gui/ipc/IpcHttpRequest.cpp:74-126 | converse: whatever is accepted is a rendering of legal fields with distinct names, and the result is their map |
| `HttpHead.ParseContentLength` | gui/ipc/IpcHttpRequest.cpp:128-142 | succeeds exactly for a non-empty all-digit string of value at most SIZE_MAX, with that value |
| `HttpHead.DecimalOfDigits` | gui/ipc/IpcHttpRequest.cpp:128-142 | the digits of a number read back as that number |
| `HttpHead.RequestLineParses` | gui/ipc/IpcHttpRequest.cpp:54-72 | three words with single spaces and a known version parse to themselves |
| `HttpHead.RequestLineIsRendered` | gui/ipc/IpcHttpRequest.cpp:54-72 | and every accepted request line is of that form |
| `HttpHead.ValidateRequestHead` | gui/ipc/IpcHttpRequest.cpp:170-226 | the early returns compute the reference verdict, and acceptance means head plus 4 plus length is within the limit |
| `HttpHead.RootIff` | gui/ipc/IpcHttpRequest.cpp:163-166 | the path is the root exactly for a slash alone or followed by a query |
| `HttpHead.JsonIff` | gui/ipc/IpcHttpRequest.cpp:156-161 | the content type is JSON exactly for application/json in any case, with blanks around it, alone or before a semicolon |
| `HttpHead.FieldMapHolds` | gui/ipc/IpcHttpRequest.cpp:74-126 | the map of legal fields holds their values under their case-folded names and nothing else |
| `HttpHead.FieldsVerdict` | gui/ipc/IpcHttpRequest.cpp:192-224 | legal fields get one status for the first condition that fails: 400 for a transfer encoding or no readable length, 415 without JSON, 403 with an origin, 413 if head and body are too long, and are accepted with their length otherwise |
| `HttpHead.NoLineVerdict` | gui/ipc/IpcHttpRequest.cpp:172-183 | 413 for a head over the limit, 400 for one within it that has no well-formed request line |
| `HttpHead.HeadVerdict` | gui/ipc/IpcHttpRequest.cpp:170-226 | the verdict on every head with a request line: 404 for another target, 405 for another method, 400 for anything but legal fields with distinct names, else what the fields give |
| `HttpHead.AcceptedIff` | gui/ipc/IpcHttpRequest.cpp:170-226 | accepted with a length exactly if it is a POST to the root with legal distinct fields that give this length and JSON, no transfer encoding and no origin, head and body within the limit |
| `HttpFraming.BlankLineOfPrefix` | gui/ipc/IpcServer.cpp:515-525 | the first blank line of what was received is the first of the whole stream |
| `HttpFraming.AcceptedPrefixDecides` | gui/ipc/IpcServer.cpp:502-571 | once a head is accepted, dispatch and body are settled by it, and the limit cannot be exceeded |
| `HttpFraming.HandleClient` | gui/ipc/IpcServer.cpp:502-571 | for every sequence of non-empty pieces the answer is fixed: 400 if after some piece the limit is exceeded with no blank line yet, otherwise that of the whole stream; the 413 exit is dead |
| `HttpFraming.DispatchIsOfStream` | gui/ipc/IpcServer.cpp:502-571 | dispatch and the dispatched body are those of the stream for every split |
| `HttpFraming.SameForEverySplitIff` | gui/ipc/IpcServer.cpp:529-532 | the answer is the same for every split exactly if there is no head, or head plus 3 is within the limit, or the head validates to 400 |
| `HttpFraming.TwoAnswers` | gui/ipc/IpcServer.cpp:529-532 | the instance: a head one byte too long is answered 413 in one piece and 400 when cut inside its blank line |
| `HttpFraming.Answer` | gui/ipc/IpcServer.cpp:550-571 | the decisions after the loop are those of the whole stream, or 400 when the loop gave up |
| `IpcQueue.RunBalances` | gui/ipc/IpcServer.cpp:378-479 | every step of acceptor, workers and stopper moves a socket from one place to one place |
| `IpcQueue.RunKeepsControl` | gui/ipc/IpcServer.cpp:378-479 | in every reachable state the flags agree with how far the stop has come and the queue holds at most 64 |
| `IpcQueue.EachSocketInOnePlace` | gui/ipc/IpcServer.cpp:378-479 | in every interleaving each accepted socket is in exactly one of hand, queue, worker, drained batch, or closed once |
| `IpcQueue.StopClosesEverySocketOnce` | gui/ipc/IpcServer.cpp:378-407 | after the stop every accepted socket has been closed exactly once |
| `IpcQueue.FirstComeFirstServed` | gui/ipc/IpcServer.cpp:446-479 | in every interleaving sockets are handed to workers in the order in which they were queued, and only the stop takes any out of the queue |
| `IpcQueue.EverySocketHasItsFate` | gui/ipc/IpcServer.cpp:432-479 | an accepted socket that is neither on its way, queued, handed to a worker nor drained was turned away at an instant when 64 were waiting or the stop had begun |
| `IpcQueue.ConnectedIsQueued` | gui/ipc/IpcServer.cpp:432-465 | before the stop a client that connects while fewer than 64 wait is queued by the acceptor's next steps, and the acceptor accepts again |
| `IpcQueue.AcceptorStays` | gui/ipc/IpcServer.cpp:432-465 | before the stop the acceptor leaves only if accept fails, and each of its steps changes something |
| `IpcQueue.QueuedIsServed` | gui/ipc/IpcServer.cpp:446-479 | while no stop has begun, every queued socket reaches a worker within two rounds per socket in the queue and one more in which some one worker gets its turn |
| `IpcQueue.StepsRunOut` | gui/ipc/IpcServer.cpp:378-479 | once the stop has begun, every step of any thread lowers a bound on what is left, or changes nothing |
| `IpcQueue.FairMoves` | gui/ipc/IpcServer.cpp:378-479 | no deadlock: unless the stop has returned, a round in which every thread gets its turn changes something |
| `IpcQueue.StopReturns` | gui/ipc/IpcServer.cpp:378-479 | from any reachable state in which the stop has begun, 139 plus twice the workers fair rounds end in a stopped server, every accepted socket closed once, and nothing changes it any more |
| `PrefixRead.PrefixSplits` | engine/android/AndroidMemKernel.hpp:103-135 | the longest readable prefix may be found page by page |
| `PrefixRead.ReadChunk` | engine/android/AndroidMemKernel.hpp:103-135 | one driver read inside one page either continues the prefix or ends it |
| `PrefixRead.Read` | engine/android/AndroidMemKernel.hpp:92-143 | the result is the length of the longest readable prefix, the buffer holds it, the rest is zero exactly when the address and handle are set or the buffer was zero already |
| `PrefixRead.NullAddressKeepsTheBuffer` | engine/android/AndroidMemKernel.hpp:92-101 | the instance: address 0 leaves a non-zero buffer as it was, against the promise of zeroes |
| `PrefixRead.ClearRest` | engine/common/IMemoryOp.hpp:24-29 | everything after the prefix is zeroed, the prefix and what lies behind the range stay |
| `GnuHash.GetGnuHashSymCount` | engine/android/AndroidElfScanner.hpp:340-381 | the two loops compute the reference answer for any memory |
| `GnuHash.WalkDivergesIff` | engine/android/AndroidElfScanner.hpp:369-378 | the chain walk never ends exactly when all 2^32 chain words can be read and none has its low bit set |
| `GnuHash.LargestIsLast` | engine/android/AndroidElfScanner.hpp:360-366 | the largest bucket word is the start of the last bucket that holds a symbol |
| `GnuHash.CountsEverySymbol` | engine/android/AndroidElfScanner.hpp:340-381 | on every well-formed table the walk ends with symoffset plus all symbols, modulo 2^32, unless the last bucket with symbols starts at index 0 |
| `GnuHash.CountsLaidOutTable` | engine/android/AndroidElfScanner.hpp:340-381 | the same for every table that lies in memory byte by byte as the format has it: header, bloom words, buckets, chain |
| `GnuHash.UnreadableIsZero` | engine/android/AndroidElfScanner.hpp:340-358 | the answer is 0 where a byte of the header or of a bucket cannot be read |
| `GnuHash.FirstSymbolIsMissed` | engine/android/AndroidElfScanner.hpp:365 | the instance: a well-formed table whose one symbol is at index 0 is counted as 0 |
| `PhysicalRuns.ExtractRuns` | engine/android/AndroidKernelDriver.cpp:190-212 | for any map entry and page predicate: ascending regions with holes between, holding exactly the addresses whose page is present; the overflow guard cuts nothing short |
| `PhysicalRuns.RunsAreMaximal` | engine/android/AndroidKernelDriver.cpp:190-212 | all addresses of a region are present and it can be extended on neither side |
| `PhysicalRuns.RunsUnique` | engine/android/AndroidKernelDriver.cpp:190-212 | there is exactly one such list |
| `PhysicalRuns.QueryMaps` | engine/android/AndroidKernelDriver.cpp:163-216 | every entry contributes, in order, itself or its physical runs; false and nothing without handle, driver or maps |
| `PhysicalRuns.Convert` | engine/android/AndroidKernelDriver.cpp:584-605 | a region has its entry's range, empty if inverted, its rights, its kind and its name, cut to 4095 characters |
| `PhysicalRuns.RegionsAscend` | engine/android/AndroidKernelDriver.cpp:183-213 | from maps in order without overlap come regions in order without overlap |
| `PhysicalRuns.RegionsCoverPresentPages` | engine/android/AndroidKernelDriver.cpp:183-213 | the regions of all entries hold exactly the mapped addresses whose page is present |
| `PtraceMemory.ReadMemory` | engine/android/AndroidTracer.hpp:159-194 | succeeds exactly when every word can be peeked; the buffer then holds the range, after a failure the whole words before the refused one |
| `PtraceMemory.WriteMemory` | engine/android/AndroidTracer.hpp:196-230 | succeeds exactly when every word can be poked; memory is as the reference says, success or not |
| `PtraceMemory.WriteFrame` | engine/android/AndroidTracer.hpp:196-230 | after success the range holds the data, and all other bytes are unchanged exactly if the data fill whole words, the last word could be peeked, or its tail was 0xFF |
| `PtraceMemory.RefusedPeekOverwrites` | engine/android/AndroidTracer.hpp:221-226 | the instance: a one-byte write whose peek is refused turns the next byte into 0xFF |
| `PtraceMemory.FailedWrite` | engine/android/AndroidTracer.hpp:206-214 | a failure has written the whole words before the refused one and nothing else |
| `PtraceMemory.WrittenIsRead` | engine/android/AndroidTracer.hpp:159-230 | what was written is what a successful read of the range brings back |

## Left out

- MemWrites.AtMostOneEffect: assumes that a UXN request answered with ETIMEDOUT was not applied, because without that the claim is false of the code; MemWrites.AtMostOneEffectIff assumes nothing.
- IpcQueue.QueuedIsServed: counts turns, and assumes that a handler returns once its turn comes.
- IpcQueue.StopReturns: assumes that a handler returns once its turn comes, and that `accept` does once the stop has begun, with an error or a new connection.
- PerfRing.ParseRefinesStream: the positions `head` and `tail` of a ring are unbounded; their wrap after 2^64 bytes is not modelled.
- GnuHash.GetGnuHashSymCount: an endless walk is reported as a result instead of being modelled as non-termination, because it is recognised when all 2^32 indices have been tried.
- PhysicalRuns.RegionsAscend: asks for maps in order without overlap, because the driver's list is passed on as it comes.
- TargetSeqlock.MatchIsStable: assumes sequential consistency; the weaker orders of the C++ atomics are not modelled, nor the wrap of the 64-bit revision.
- ServiceContext.Sandwich: assumes that the backend's snapshots come from the locked `snapshotTarget` and that generations do not go back or wrap.
- DriverHits.HitReader.ReadHardwareBreakpointInfo: one handle at a time; the map over handles only keeps them apart.
- PerfRing.ConsumeRingLocked: samples with an ABI of 0, which lack the register block, are not among the well-formed records, because the code then reads the bytes that follow; the method's contract still covers them as buffer contents.
- Hit time stamps of the perf consumer: a clock value with no property.
- Sockets, ioctl, ptrace, perf and /proc calls themselves: replaced by the contracts of abstract drivers.
- SystemMemService, the socket client and ScopedThread: not part of this model.
- `AndroidMemorySys::Read`: its multi-page loop compares an unsigned result with zero and does not meet the prefix contract.
- `CApi::SetBreakpoint` replacing a breakpoint in kernel mode: it passes a logical handle to the raw driver; ownership is claimed at engine level only.
- `initializeDriver`: it returns a retryable error after the driver was accepted, so it is outside the retry theorem.
- Kernel hit totals summed over live threads: they can fall when a thread exits, so no monotonicity is claimed.
- `waitUxnBreakpoint` and `queryUxnBreakpointStatus`: they change nothing; their checks are those of the mutations.
- `listProcesses`, `openProcess`, `listSymbols`, `resolveSymbol`, `breakpointSlots`: more instances of the checks and pages modelled here.
- `ensureSymbolListCached`: its target check and its insert are not atomic.
- Error texts and JSON bodies of responses: only codes, statuses and retryability are modelled.
- The selected process name and the module cache that `publish` also updates: they are not part of a snapshot.
- Memory exhaustion: allocations are taken to succeed.
- User interface, renderers, configuration, logging, crash handlers, Lua bindings and command dispatch: no deep invariant.
