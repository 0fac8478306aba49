# TrainOS kernel: a verified model

TrainOS is a RISC-V microkernel. This project models the parts of it that carry the most state and
branching, and proves what they keep over all inputs and all runs. One module follows one component.

- **Kernel extensions** (`ControlFlow`, `ExtensionIsa`, `ExtensionVerifier`, `ExtensionMachine`, `ExtensionLaws`,
  `ExtensionTable`): the bytecode verifier is proved sound, exact and tight for the interpreter. The
  verifier's worklist is related to reachability in the program's control-flow graph, for every program; the
  interpreter and the table of extensions are then safe over every run, and instructions do what their names say.
- **IOMMU page tables** (`PageTable`, `Iommu`, `Sv39Walk`): the three-level walk over raw 64-bit entries refines a
  map from pages to mappings per root, with all tables a forest of distinct frames, and the hardware follows it.
- **Block I/O** (`DeadlineScheduler`, `Merge`): the deadline scheduler loses nothing and bounds the waiting of
  writes and of reads; merging keeps the sectors covered.
- **Ciphers** (`Sm3`, `Sm4`): streaming SM3 and HMAC equal their one-shot definitions; SM4 and its counter mode
  round-trip, for any S-box and any compression function.
- **AI subsystem** (`Bitmap`, `KvCache`, `AiScheduler`): the page cache's bitmap, reference counts and LRU
  eviction; the GPU slot table against the workload states.
- **IPC** (`IpcEndpoint`): send and receive as atomic steps, with no lost wakeup, FIFO order and conservation.
- **Framebuffer line** (`DrawLine`, `LineEnds`) and **wire protocol** (`WireProtocol`, `ProcessList`).

`Basics` holds the value types shared by all. Objects the kernel updates in place are classes whose methods
are proved against pure step functions (`Apply`, `After`, `Run`); the theorems about runs are about those
functions. `dafny verify dfyconfig.toml` checks the whole project.

## What turned out false, and when it holds

Each of these has a lemma with the exact condition, and a concrete input where one helps.

- A conditional jump of offset 8 pushes the same successor twice, and the program is refused although every
  path is legal (`TwinProgramRefused`, `AcceptsWithoutTwins`, `VerifyBytecode`).
- A dequeue whose expiry scan does not stop at the head drops requests; this needs ticks that go back
  (`DequeueLosesNothingIff`, `BackwardTicksLoseARead`). Late reads can starve writes
  (`ExpiredReadsStarveWrites`), each costing at most 17 dequeues (`WritesLeaveInTime`).
- `RvIommu::map` reports true when tables could not be allocated, and `mapped_pages` counts attempts. Every page
  is mapped iff the tables the range lacks before the call are no more than the free pages (`MapRange`,
  `ShareRegion`, `EnclaveTable`; `MapWithoutStock` has none). A misaligned pair of addresses is mapped with the
  wrong offset (`RangeTranslates`). A write-only mapping faults (`HardwareFollowsViews`). A 2 MiB leaf of a shared
  process table is taken for a table, so the walk agrees with the hardware, and an unmap takes effect, iff the
  middle entry is a pointer (`WalkAgreesIff`, `UnmapTakesEffectIff`).
- A page with more than ten holders is freed with references still held (`FreedWithLostLeft`,
  `EleventhHolderLosesPage`).
- `alloc_pages` that fails has taken all free pages and gives none back (`AllocTakesSmallest`,
  `FailedAllocKeepsPage`).
- A second receiver on an endpoint overwrites the first registration (`LosesNoWaiterIff`,
  `SecondReceiverStrandsFirst`). A message taken with no current thread is lost, so the counters balance only with
  the dropped ones (`StepKeepsBalance`, `ReceiveWithoutThreadDrops`). Killing a registered thread leaves it
  registered, and the next send makes it Ready (`KillKeepsConsistentIff`, `SendRevivesKilled`).
- `gpu_register` wipes the slots of an id already in use (`RegisterAgreesIff`, `LateRegisterWipesSlots`).
- `merge_requests` keeps meaning iff no 32-bit count overflows and nothing lies beyond 128 requests
  (`MergingPreservesCoverIff`).
- `draw_line` reaches its exit without overflow iff the endpoints are on the same side of 2^31 on each axis and
  no value of the first max(abs dx, abs dy) turns overflows (`ArrivesCleanlyIff`). That second condition is a bound
  on the length only up to 715827882, where it holds of all lines (`NoOverflow`); beyond, it is what the walk itself
  computes, turn by turn. Across 2^31 the loop goes the wrong way. Without overflow checks it then ends iff both
  axes straddle, or only one moves, or 2 dx dy is near enough to a multiple of 2^32 gcd(dx, dy) (`LoopEndsIff`).
  Horizontal lines come round (`ComesRound`), and some sloped ones (`SlopedLineComesRound`); short sloped lines and
  diagonals that straddle on one axis are drawn for ever (`ShortLineNeverEnds`, `DiagonalNeverEnds`,
  `DrawnForEver`). A line longer than 715827882 may leave its way at once (`LongLineGoesAstray`).
- `write_proclist_resp` with no entries and fewer than 4 bytes panics (`WriteProclistResp`).

## How machine details are modelled

- Shifts and masks of page-table entries, addresses and bitmap words are written as division, remainder and
  binary digits; `|` of disjoint fields as a sum. SM3 and SM4 use bit-vectors.
- Register arithmetic of extensions wraps at 64 bits, the counter of counter mode at 32, merged counts at 32 and
  their ends at 64. The line's 32-bit loop is modelled twice: stopping where a checked build stops, and wrapping.
  Ticks, queue indices, message counters and operation counters are unbounded.
- Ticks, the current thread and the choice of steps are parameters, so theorems hold for all of them.
- The hardware's page-table walk is that of supervisor accesses with SUM and MXR clear, on hardware that faults on
  a clear A or D bit instead of setting it.
- The page allocator is a list of distinct free frames; it may run out at any point.
- Array and slice panics are modelled as outcomes where the source can reach them.

## Model

| member | source | states |
|---|---|---|
| ControlFlow.ClosedContainsReachable | kernel/src/extension/mod.rs:137-286 | a set of instructions holding the entry and closed under successors holds every instruction some path reaches |
| ControlFlow.HighestFirstUnique | kernel/src/extension/mod.rs:137-139 | the order in which a stack of pending instructions is drained (always the highest pending pc) is determined by the graph alone |
| ControlFlow.ListedAreReachable | kernel/src/extension/mod.rs:137-281 | every instruction the walk visits is reachable from the entry |
| ControlFlow.PopExtendsListing | kernel/src/extension/mod.rs:137-148 | while the pending stack is strictly ascending, a pop yields an instruction not seen before and higher than all others pending |
| ControlFlow.CleanStep | kernel/src/extension/mod.rs:137-281 | one step of the walk keeps the stack ascending, free of duplicates and equal to the discovered-but-unvisited set, unless it met a conditional jump of offset 8 whose target was not yet visited |
| ControlFlow.DoomedStep | kernel/src/extension/mod.rs:137-281 | once a duplicate is pending it stays pending, whatever is popped and pushed, so such a walk cannot end in acceptance |
| ControlFlow.WalkStep | kernel/src/extension/mod.rs:137-281 | the walk invariant (clean, or doomed by an early twin) survives every step on every graph |
| ControlFlow.RevisitNeedsTwin | kernel/src/extension/mod.rs:145-147 | popping an instruction already visited happens only after a conditional jump of offset 8 was met early |
| ControlFlow.BadPopRejects | kernel/src/extension/mod.rs:159-281 | an instruction refused by its opcode check is reachable, so the program really is unacceptable |
| ControlFlow.FullStackNeedsTwin | kernel/src/extension/mod.rs:283-285 | 64 pending entries need a duplicate: an ascending stack of 64 slots would hold every instruction, visited ones included |
| ControlFlow.EmptyStackAccepts | kernel/src/extension/mod.rs:137-286 | when the walk runs dry it has visited every reachable instruction, none of them bad |
| ExtensionIsa.SuccsAreForward | kernel/src/extension/mod.rs:164-281 | the successors the verifier follows are aligned slots inside the program, strictly ahead |
| ExtensionIsa.AcceptsWithoutTwins | kernel/src/extension/mod.rs:115-293 | verifier exactness: without a reachable conditional jump of offset 8, acceptable means exactly legal length, every reachable instruction passes, last slot is RET |
| ExtensionVerifier.PushListOrder | kernel/src/extension/mod.rs:160-276 | what an iteration pushes is exactly its unvisited successors, in ascending order except for the twin case, where the same pc is pushed twice |
| ExtensionVerifier.PushesMatchGraph | kernel/src/extension/mod.rs:150-276 | the pushes made from the raw bytes are the edges of the control-flow graph |
| ExtensionVerifier.PushSuccessors | kernel/src/extension/mod.rs:160-276 | writes to the 64-entry stack stay in range and append the unvisited fall-through and target |
| ExtensionVerifier.Visit | kernel/src/extension/mod.rs:137-286 | one loop iteration either refuses, and then the program is not acceptable, or keeps the walk invariant and marks one more slot |
| ExtensionVerifier.VerifyBytecode | kernel/src/extension/mod.rs:115-294 | for every input the loop terminates and accepts if and only if the program is acceptable; back-edge and too-complex rejections occur only for twins; the pc-out-of-bounds rejection never; the length rejections exactly for illegal lengths |
| ExtensionMachine.CheckedInstIsSafe | kernel/src/extension/mod.rs:343-430 | an instruction that passed its checks ends in Ok or a stack over- or underflow, or moves to one of its graph successors; it never indexes registers or scratch out of range |
| ExtensionMachine.StepIsSafe | kernel/src/extension/mod.rs:323-431 | one instruction of an accepted program costs one cycle and moves the pc strictly forward to a reachable slot |
| ExtensionMachine.RunIsSafe | kernel/src/extension/mod.rs:323-434 | verifier soundness: from every reachable state an accepted program stops benignly within one cycle per slot |
| ExtensionMachine.VerifiedProgramsAreSafe | kernel/src/extension/mod.rs:305-434 | for every hook type, context and scratch content an accepted program never times out or panics and ends within bc_len/8, at most 64, cycles |
| ExtensionMachine.ExecuteInst | kernel/src/extension/mod.rs:343-430 | the in-place execution of an instruction on the register, stack and scratch arrays refines the pure semantics |
| ExtensionMachine.Loop | kernel/src/extension/mod.rs:323-434 | the interpreter loop computes the run of the pure machine, result and scratch content |
| ExtensionMachine.Interpret | kernel/src/extension/mod.rs:305-434 | booting and looping is the run from the boot state (hook type and context in registers 30 and 31 and in scratch) |
| ExtensionMachine.TwinProgramRefused | kernel/src/extension/mod.rs:184-208 | the program JE +8; RET is refused although every reachable instruction passes and it ends with RET: the twin condition is not redundant |
| ExtensionMachine.UnderflowProgramAccepted | kernel/src/extension/mod.rs:270-276 | POP; RET is accepted and underflows: the stack errors left open by soundness do occur |
| ExtensionLaws.ChecksAreTight | kernel/src/extension/mod.rs:159-281 | an instruction passes the verifier's checks iff in every state the machine ends benignly, goes on at the next slot or, for a jump, at an aligned slot strictly ahead inside the program: nothing is refused that cannot go wrong |
| ExtensionLaws.FaultTellsWhy | kernel/src/extension/mod.rs:164-281 | each refusal names what the machine would do wrong or the field out of range |
| ExtensionLaws.EdgesAreMoves | kernel/src/extension/mod.rs:164-276 | the successors the verifier follows are exactly the moves the machine can make to a slot of the program |
| ExtensionLaws.AcceptsIffProper | kernel/src/extension/mod.rs:115-294 | so, without a reachable conditional jump of offset 8, exactly the programs of legal length that end with RET and whose reachable instructions are proper in every state are accepted |
| ExtensionLaws.AddThenSub | kernel/src/extension/mod.rs:348-355 | ADD d, a, b then SUB d, d, b leaves what a held, whatever wraps, and touches nothing else |
| ExtensionLaws.MovesThenArithmetic | kernel/src/extension/mod.rs:344-355 | after two MOVs, ADD gives the sum of the immediates and SUB the first less the second |
| ExtensionLaws.StoreThenLoad | kernel/src/extension/mod.rs:393-411 | STORE then LOAD at one offset copies the register; the bytes are the word's, least significant first, and no other byte changes |
| ExtensionLaws.LoadReads | kernel/src/extension/mod.rs:393-402 | LOAD gives the little-endian number at its offset and changes only its register |
| ExtensionLaws.PushThenPop | kernel/src/extension/mod.rs:412-425 | PUSH then POP copies a register and keeps the stack below; on a full stack PUSH overflows |
| ExtensionLaws.LastInFirstOut | kernel/src/extension/mod.rs:412-425 | two pushes and two pops return the words in reverse |
| ExtensionLaws.PopNeedsWord | kernel/src/extension/mod.rs:419-421 | POP underflows iff the stack is empty |
| ExtensionLaws.CompareThenJump | kernel/src/extension/mod.rs:356-392 | after CMP, JE jumps iff the registers are equal, JNE iff they are not, JMP always |
| ExtensionLaws.RetStops | kernel/src/extension/mod.rs:426-434 | RET and only RET ends a run Ok |
| ExtensionLaws.BootLayout | kernel/src/extension/mod.rs:306-319 | at boot scratch starts with the two context words, registers 30 and 31 hold hook type and first context word, all else is zero |
| ExtensionLaws.FetchReads | kernel/src/extension/mod.rs:331-339 | the fields of an instruction are its first four bytes and the little-endian number in the last four |
| ExtensionLaws.OffsetIsSigned | kernel/src/extension/mod.rs:340-340 | jump offsets are the immediate in two's complement |
| ExtensionLaws.LoopTimesOut | kernel/src/extension/mod.rs:324-326 | a jump to itself is stopped after exactly 1000 cycles |
| ExtensionLaws.StraightIsAccepted | kernel/src/extension/mod.rs:115-294 | a program without conditional jumps whose every slot passes, and that ends with RET, is accepted |
| ExtensionLaws.MoveProgramAccepted | kernel/src/extension/mod.rs:210-217 | such as MOV r0, 7; RET, given in bytes |
| ExtensionTable.ApplyKeepsVerified | kernel/src/extension/mod.rs:440-485 | each of register, unregister, run_hook and execute_single keeps every slot holding an accepted program |
| ExtensionTable.RunsStayVerified | kernel/src/extension/mod.rs:440-618 | the same over every run from boot |
| ExtensionTable.NoRunTimesOut | kernel/src/extension/mod.rs:440-618 | over every run of register, unregister and hooks with any contexts, no extension times out or panics and each run takes at most 64 cycles |
| ExtensionTable.DisabledOnlyByStackError | kernel/src/extension/mod.rs:534-618 | an active extension becomes inactive only by unregister or by its own stack over- or underflow |
| ExtensionTable.InstalledIs | kernel/src/extension/mod.rs:447-470 | a registered slot holds owner, hook, program, cleared scratch and the name cut to 15 bytes and zero-ended |
| ExtensionTable.SlotStep | kernel/src/extension/mod.rs:534-618 | a hook runs exactly the active extensions of its type, a single execution the one it names; scratch is what the program leaves, and the slot stays active iff it ended Ok |
| ExtensionTable.RegisteredRuns | kernel/src/extension/mod.rs:440-586 | an extension registered for a hook runs its program from cleared scratch when that hook is raised and at no other, and not after it is unregistered |
| ExtensionTable.ExecuteExtension | kernel/src/extension/mod.rs:305-434 | executing an extension returns the run's result and stores only its scratch |
| ExtensionTable.Registry.RegisterExtension | kernel/src/extension/mod.rs:440-474 | an id is returned iff the program is acceptable and a slot is free; the slot then runs exactly that program |
| ExtensionTable.Registry.UnregisterExtension | kernel/src/extension/mod.rs:477-485 | only the active flag of that slot changes; true iff it was active |
| ExtensionTable.Registry.Hook | kernel/src/extension/mod.rs:534-586 | exactly the active extensions of that hook run, each once, and every other slot is untouched |
| ExtensionTable.Registry.Single | kernel/src/extension/mod.rs:592-618 | true iff the extension ran Ok and is still active; no other slot changes |
| PageTable.PointerDecodes | kernel/src/device/iommu.rs:505-511 | a non-leaf entry written for a frame is valid, not a leaf and points back to that frame |
| PageTable.LeafDecodes | kernel/src/device/iommu.rs:535-545 | a leaf entry gives back frame, read and write bits, and never grants execution |
| PageTable.SplitInjective | kernel/src/device/iommu.rs:490-492 | two page numbers below 2^27 take the same path through the table iff they are equal |
| PageTable.SplitIgnoresHighBits | kernel/src/device/iommu.rs:490-492 | address bits from 39 up do not take part in the walk |
| PageTable.RepresentsUnique | kernel/src/device/iommu.rs:489-528 | a table stands for one map from pages to mappings only |
| PageTable.BuiltIs | kernel/src/device/iommu.rs:496-526 | the tables the walk to a page has to allocate are those of its middle and low table not built under the root: none, one or two |
| PageTable.WalkEnds | kernel/src/device/iommu.rs:489-528 | the walk ends at the low table tagged for that page, at the page's own index |
| PageTable.WalkFinds | kernel/src/device/iommu.rs:489-528 | and finds it iff both tables are built |
| PageTable.LinkKeepsForest | kernel/src/device/iommu.rs:502-506 | hanging a fresh zeroed table into an invalid slot keeps all tables a forest of distinct pages |
| PageTable.LinkKeepsMappings | kernel/src/device/iommu.rs:502-506 | and changes no mapping of any root |
| PageTable.LinkBuilds | kernel/src/device/iommu.rs:502-506 | and adds exactly its own place to the tables built under the root |
| PageTable.WriteKeepsForest | kernel/src/device/iommu.rs:545 | writing a leaf entry keeps the forest |
| PageTable.WriteKeepsPaths | kernel/src/device/iommu.rs:545-554 | and leaves the set of tables built under every root as it is |
| PageTable.WriteChangesOne | kernel/src/device/iommu.rs:545-554 | writing a leaf entry changes the mapping of exactly one page of exactly one root |
| PageTable.WriteRefines | kernel/src/device/iommu.rs:545-554 | so the maps all roots stand for change in one place |
| Iommu.Machine.constructor | kernel/src/device/iommu.rs:429-441 | from a stock of distinct spare frames and no table, the invariant holds |
| Iommu.Machine.AllocPage | kernel/src/device/iommu.rs:502-502 | hands out the next free frame, never one in use |
| Iommu.Machine.Descend | kernel/src/device/iommu.rs:497-512 | following a slot returns its table, hanging a zeroed one from the next free page if allowed; exactly that table is added under the root, and no mapping changes; it fails exactly when the slot is invalid and no page may or can be allocated |
| Iommu.Machine.WalkPt | kernel/src/device/iommu.rs:489-528 | the walk adds only tables on the way to its page, each from the next free page, and changes no mapping; it finds the low table iff both tables are built in the end, and a failing walk has used up the stock; its result is that of the walk without allocation on the memory it leaves |
| Iommu.Machine.MapPte | kernel/src/device/iommu.rs:531-547 | for every 64-bit physical address, map changes exactly one page of one root to (pa >> 12, r, w), succeeding iff the free pages before the call cover the missing tables, and then exactly those pages are taken; a failed attempt changes no mapping |
| Iommu.Machine.UnmapPte | kernel/src/device/iommu.rs:550-556 | unmap removes exactly one page of one root and allocates nothing |
| Iommu.Machine.NewDedicated | kernel/src/device/iommu.rs:429-441 | a new root maps nothing, has no tables under it and is distinct from all tables in use |
| Iommu.Machine.ShareLoop | kernel/src/device/iommu.rs:458-471 | whatever the range, the pages mapped are exactly those whose tables exist in the end, in turn and linearly; tables are added only on the way to the pages, one free page each, and all that are needed unless the stock ran out; the counter counts attempts |
| Iommu.Machine.ShareRegion | kernel/src/device/iommu.rs:449-472 | every page of the region is mapped iff the free pages before the call cover the tables the region lacked then, and the stock goes down by exactly that number, or to nothing; mapped pages are linear, other roots keep their maps; without read and write permission nothing changes |
| Iommu.Machine.MapLoop | kernel/src/device/iommu.rs:262-271 | the loop over single-page regions serves a range as one region of that length would |
| Iommu.Machine.MapRange | kernel/src/device/iommu.rs:254-276 | the same for a range: the result is always true, every page is mapped iff the tables the range lacked before the call are no more than the free pages then, and exactly those pages are taken |
| Iommu.Machine.UnmapRange | kernel/src/device/iommu.rs:295-304 | exactly the pages of the range are removed from that root, whatever the range (from 2^39 on addresses come round to the lowest pages) |
| Iommu.Machine.EnclaveTable | kernel/src/device/iommu.rs:691-700 | the enclave's table is a new root, made iff a frame is free; all its pages are mapped, each to itself (below 2^39) and nothing else, iff the free pages cover the root and every table on the way to the enclave, and exactly those pages are taken; every other root keeps its map |
| Iommu.MapWithoutStock | kernel/src/device/iommu.rs:262-276 | a run where map reports true and nothing is mapped: one free page, used for the root |
| Iommu.ServedAll | kernel/src/device/iommu.rs:458-471 | the condition itself: of a served range every page is mapped iff the tables lacking at the start are no more than the free pages, and what is left of the stock |
| Iommu.OneMore | kernel/src/device/iommu.rs:265-271 | serving a range and then one more page is serving the longer range, in tables, stock and mappings |
| Iommu.WaysCount | kernel/src/device/iommu.rs:458-471 | below 2^39 a range goes through one low table for each 2 MiB it touches and one middle table for each 1 GiB |
| Iommu.WaysBounded | kernel/src/device/iommu.rs:458-471 | and never needs more than two tables a page |
| Iommu.OverlayIsLinear | kernel/src/device/iommu.rs:458-471 | below 2^39 mapping in turn maps exactly the pages done, linearly, and leaves every other page |
| Iommu.OverlayIsIdentity | kernel/src/device/iommu.rs:696-697 | and an enclave's pages each to itself |
| Iommu.NewRootRefines | kernel/src/device/iommu.rs:429-441 | adding a root leaves all existing maps as they are |
| Iommu.RangeTranslates | kernel/src/device/iommu.rs:236-276 | after a complete mapping every address of the range goes to hpa + (a - iova) iff iova and hpa have the same page offset |
| Iommu.FlagsAre | kernel/src/device/iommu.rs:255-256 | bit 0 of the flags grants reading, bit 1 writing, no other bit anything |
| Iommu.AlignedRangeIsExact | kernel/src/device/iommu.rs:262-263 | for an aligned range the pages handled are exactly those of its addresses |
| Iommu.RangeUntranslated | kernel/src/device/iommu.rs:284-304 | after unmapping an aligned range exactly its addresses are untranslated, all others go where they did |
| Iommu.EnclaveIsIsolated | kernel/src/device/iommu.rs:691-700 | an aligned enclave's addresses go to themselves and no other address goes anywhere |
| Sv39Walk.LeafEnds | kernel/src/device/iommu.rs:535-545 | a leaf the kernel writes ends the hardware walk iff it grants reading, and faults iff it does not or its frame is not below 2^56 bytes; it lets a load through iff it grants reading, a store iff it grants writing, a fetch never |
| Sv39Walk.PointerGoesOn | kernel/src/device/iommu.rs:505-511 | an upper entry the kernel writes sets no bit reserved in a pointer, and the hardware walk goes on through it |
| Sv39Walk.KernelWords | kernel/src/device/iommu.rs:535-545 | the words written for frame 0x80000: 0x200000C7, 0x200000C3 read-only, 0x20000001 as a pointer |
| Sv39Walk.HardwareFollowsViews | kernel/src/device/iommu.rs:489-556 | for every root, page and access, the address translation of section 4.3.2 of the RISC-V Privileged Architecture, version 1.12, by hardware that faults on a clear A or D bit: a load reaches the recorded frame iff the map grants reading and the frame is below 2^56 bytes, a store iff it also grants writing, a fetch never |
| Sv39Walk.WalkAgreesIff | kernel/src/device/iommu.rs:514-527 | on any memory, below a good top entry, the walk ends at the entry the hardware reads last iff the middle entry is a pointer with no reserved bit (or a leaf mapping its own table at its own index) |
| Sv39Walk.SuperpageTakenForTable | kernel/src/device/iommu.rs:514-527 | under a 2 MiB leaf the walk ends in the first frame the hardware maps for data |
| Sv39Walk.UnmapTakesEffectIff | kernel/src/device/iommu.rs:550-556 | unmapping a page the hardware translates makes it fault iff both upper entries are pointers; a 1 GiB leaf is left alone, a 2 MiB leaf stays mapped and a word of the memory it maps is zeroed |
| Sv39Walk.WalkShared | kernel/src/device/iommu.rs:489-528 | the walk without allocation, as coded, is that function of any memory, not only of tables built here |
| Sv39Walk.UnmapShared | kernel/src/device/iommu.rs:550-556 | the unmap, as coded, on any memory |
| DeadlineScheduler.FirstExpired | kernel/src/device/sched.rs:132-143 | the first entry past its deadline, or the length |
| DeadlineScheduler.DequeueLosesNothingIff | kernel/src/device/sched.rs:130-155 | a dequeue drops no request iff the expiry scan, in the queue where it stops, stops at the head |
| DeadlineScheduler.BackwardTicksLoseARead | kernel/src/device/sched.rs:112-143 | with enqueue ticks that go back a queued read is dropped |
| DeadlineScheduler.SortedStopsAtHead | kernel/src/device/sched.rs:132-155 | with sorted deadlines the scan stops at the head or finds nothing |
| DeadlineScheduler.EnqueueKeepsLossless | kernel/src/device/sched.rs:112-128 | an accepted request is appended to its direction, nothing else moves |
| DeadlineScheduler.DequeueKeepsLossless | kernel/src/device/sched.rs:130-181 | a dispatched request is the oldest undispatched one of its direction |
| DeadlineScheduler.RunsLoseNothing | kernel/src/device/sched.rs:112-185 | over every run with non-decreasing enqueue ticks: deadlines stay sorted, each direction is dispatched in exact FIFO order with none dropped or duplicated, count is accepted minus dispatched |
| DeadlineScheduler.RunsReturnInOrder | kernel/src/device/sched.rs:112-181 | of each direction, the requests the dequeues returned followed by those queued are the requests accepted, in order |
| DeadlineScheduler.CalmDequeue | kernel/src/device/sched.rs:157-177 | while a write waits, a dequeue that dispatches no late read takes a write or raises the starvation counter, still below 16 |
| DeadlineScheduler.WritesLeaveInTime | kernel/src/device/sched.rs:130-181 | bounded waiting on every run with non-decreasing enqueue ticks: k queued writes leave within 17 dequeues for each of them and for each late read dispatched meanwhile |
| DeadlineScheduler.WritesWaitAtMost | kernel/src/device/sched.rs:130-181 | bounded waiting: while no queued read is late, the k-th queued write leaves within 17k dequeues, whatever is enqueued meanwhile |
| DeadlineScheduler.ReadFirst | kernel/src/device/sched.rs:157-171 | with a read queued, a write that is not late goes only when the counter has reached 16; otherwise the read goes and the counter rises unless the read was late |
| DeadlineScheduler.WritesHeldBack | kernel/src/device/sched.rs:157-181 | on every run with a read queued at each dequeue, writes that are not late get at most every seventeenth dequeue |
| DeadlineScheduler.ReadsGoFirst | kernel/src/device/sched.rs:157-171 | and none of them before the counter has reached its limit |
| DeadlineScheduler.ReadsLeaveInTime | kernel/src/device/sched.rs:130-181 | bounded waiting of reads on every run with non-decreasing enqueue ticks: k reads leave within 17 k / 16 dequeues, plus the counter and the late writes |
| DeadlineScheduler.LateFrom | kernel/src/device/sched.rs:112-128 | a read is late from 50 ticks after it was enqueued on, a write from 500 |
| DeadlineScheduler.ExpiredReadsStarveWrites | kernel/src/device/sched.rs:131-143 | with late reads the bound fails for every n: a write can be passed over n times |
| DeadlineScheduler.Ring.Push | kernel/src/device/sched.rs:112-126 | the ring with free-running indices is a bounded FIFO: a push appends unless 256 are held |
| DeadlineScheduler.Ring.Scan | kernel/src/device/sched.rs:132-143 | the scan over ring slots finds the first expired entry |
| DeadlineScheduler.Ring.TakeAt | kernel/src/device/sched.rs:136-140 | taking entry k leaves the entries after it |
| DeadlineScheduler.Scheduler.Enqueue | kernel/src/device/sched.rs:112-128 | the rings stand for the two queues: the request goes to the end of its direction with its deadline, or is refused at 256 |
| DeadlineScheduler.Scheduler.Pick | kernel/src/device/sched.rs:130-181 | the branch structure chooses late read, late write, forced write, read, write, in that order |
| DeadlineScheduler.Scheduler.Dequeue | kernel/src/device/sched.rs:130-181 | the rings stand for the two queues: the chosen request is returned, and exactly it and what the scan skipped are gone |
| DeadlineScheduler.Scheduler.PendingCount | kernel/src/device/sched.rs:183-185 | count is the number of queued requests |
| Sm3.FoldAppend | kernel/src/crypto/sm.rs:28-42 | folding compression over whole blocks may be cut between any two blocks |
| Sm3.AbsorbBlock | kernel/src/crypto/sm.rs:35-39 | completing a block keeps the relation between message, chain and buffered rest |
| Sm3.AbsorbPart | kernel/src/crypto/sm.rs:41-41 | so does buffering less than a block |
| Sm3.Hasher.TopUp | kernel/src/crypto/sm.rs:31-36 | filling a partly filled buffer absorbs a prefix of the data |
| Sm3.Hasher.Update | kernel/src/crypto/sm.rs:28-42 | whatever was buffered, an update appends the data to the absorbed message |
| Sm3.Hasher.CloseBlock | kernel/src/crypto/sm.rs:51-52 | zero-fills to byte 56, puts the length and compresses that block |
| Sm3.Hasher.PadAndCompress | kernel/src/crypto/sm.rs:45-52 | the last one or two blocks are the rest, 0x80, zeros and the length |
| Sm3.PadTail | kernel/src/crypto/sm.rs:44-52 | those blocks complete the fold over the message padded as in section 5.2 of GB/T 32905-2016, in one block or two |
| Sm3.PaddedIs | kernel/src/crypto/sm.rs:44-52 | the padded message is the message, 0x80, zeros, and in the last eight bytes, read big-endian, its length in bits modulo 2^64 |
| Sm3.ChainBytesAt | kernel/src/crypto/sm.rs:53-56 | word i of the digest is word i of the chain, big-endian |
| Sm3.Hasher.Finalize | kernel/src/crypto/sm.rs:44-56 | the digest is the fold of compression over the padded message |
| Sm3.HashChunks | kernel/src/crypto/sm.rs:26-58 | every split of a message into updates gives the digest of the whole |
| Sm3.KeyBlock | kernel/src/crypto/sm.rs:61-63 | the key block is the key, hashed if over 64 bytes, zero-filled |
| Sm3.BlockKeyIs | kernel/src/crypto/sm.rs:61-63 | a key of at most 64 bytes is used as it is, a longer one by its digest, zeros following |
| Sm3.InnerOuter | kernel/src/crypto/sm.rs:64-65 | the two loops give the key block xored with 0x36 and with 0x5C |
| Sm3.Hmac | kernel/src/crypto/sm.rs:60-68 | hmac is the nested form of section 2 of RFC 2104 |
| Sm4.PackInverse | kernel/src/crypto/sm.rs:129-143 | words and big-endian bytes are inverse to each other |
| Sm4.RoundUndone | kernel/src/crypto/sm.rs:139-142 | a round between two reversals of the state undoes itself, for any round function |
| Sm4.RoundsUndone | kernel/src/crypto/sm.rs:137-155 | running all rounds with the keys reversed undoes them, for any round function and number of keys |
| Sm4.CryptUndone | kernel/src/crypto/sm.rs:137-155 | block round trip in both directions, whatever the S-box |
| Sm4.CryptRecurrence | kernel/src/crypto/sm.rs:137-145 | encryption is the recurrence of section 7.1 of GB/T 32907-2016 over the block's four words, and outputs the last four in reverse |
| Sm4.RecursMeans | kernel/src/crypto/sm.rs:139-142 | the recurrence in full: X[i+4] = X[i] ^ T(X[i+1] ^ X[i+2] ^ X[i+3] ^ rk[i]) |
| Sm4.ExpandKey | kernel/src/crypto/sm.rs:128-135 | the 32 round keys satisfy the key-schedule recurrence from the masked key |
| Sm4.ScheduleMeans | kernel/src/crypto/sm.rs:128-135 | the schedule in full, and the masked words give the key back under the family constants |
| Sm4.EncryptBlock | kernel/src/crypto/sm.rs:137-145 | the loop computes the 32 rounds and the final reversal |
| Sm4.DecryptBlock | kernel/src/crypto/sm.rs:147-155 | decryption is the two-sided inverse of encryption (section 7 of GB/T 32907-2016) |
| Sm4.CtrInvolution | kernel/src/crypto/sm.rs:157-168 | counter mode is its own inverse for data of any length |
| Sm4.CtrPrefix | kernel/src/crypto/sm.rs:157-168 | encrypting a prefix gives the prefix of the ciphertext |
| Sm4.CounterBlocks | kernel/src/crypto/sm.rs:157-168 | the counter blocks end in the big-endian words 1, 2, ..., and 0 after 2^32 - 1 |
| Sm4.EncryptCtr | kernel/src/crypto/sm.rs:157-168 | the chunk loop produces data xor keystream, the counter starting at 1 and wrapping at 32 bits |
| Bitmap.OrBitDigits | kernel/src/ai/kvcache.rs:24-24 | setting a bit changes that binary digit only |
| Bitmap.ClearBitDigits | kernel/src/ai/kvcache.rs:14-14 | clearing a bit changes that binary digit only |
| Bitmap.FlatUpdate | kernel/src/ai/kvcache.rs:10-25 | changing one bit of one word changes one flag of the 1024 |
| Bitmap.TrailingZeros | kernel/src/ai/kvcache.rs:13-13 | the position found is set and no lower bit is |
| Bitmap.Alloc | kernel/src/ai/kvcache.rs:10-19 | takes the lowest flagged page and clears its flag only; None iff no flag is set |
| Bitmap.Free | kernel/src/ai/kvcache.rs:21-25 | sets that page's flag only; beyond 1023 nothing changes |
| Bitmap.FreeCount | kernel/src/ai/kvcache.rs:27-31 | the popcount over words is the number of flags set |
| KvCache.PagesNeeded | kernel/src/ai/kvcache.rs:74-74 | at least one page, and the least number covering the tokens |
| KvCache.AllocTakesSmallest | kernel/src/ai/kvcache.rs:73-86 | an allocation takes the smallest free pages in ascending order, as many as needed or all; when there are too few it fails and leaves no page free |
| KvCache.FailedAllocKeepsPage | kernel/src/ai/kvcache.rs:73-86 | in a table of one page: an allocation of two fails and keeps the one |
| KvCache.AllocatedOnce | kernel/src/ai/kvcache.rs:73-100 | a page just taken is dirty, accessed now, and has one reference, which the first free drops |
| KvCache.ApplyKeepsWellFormed | kernel/src/ai/kvcache.rs:73-161 | alloc, free, share, evict and page_in keep: allocated pages are below total with 1 to 10 references, others have none |
| KvCache.RunsStayWellFormed | kernel/src/ai/kvcache.rs:56-161 | the same over every run, with allocated plus free pages always the total |
| KvCache.FindLruFinds | kernel/src/ai/kvcache.rs:133-144 | the page found is evictable and least recently used, the first of equals; None iff none is evictable |
| KvCache.RefCountIs | kernel/src/ai/kvcache.rs:88-112 | from a fresh page on, over every sequence of shares and frees: it is allocated while the references held exceed those lost to saturation, and its count is the difference |
| KvCache.FreedWithLostLeft | kernel/src/ai/kvcache.rs:88-112 | dropping references one by one frees the page with exactly the lost ones still held: at its last reference iff no more than ten were ever held |
| KvCache.EleventhHolderLosesPage | kernel/src/ai/kvcache.rs:88-112 | at eleven holders: when ten have released the page it is free, and one still holds it |
| KvCache.FreeAllCounts | kernel/src/ai/kvcache.rs:88-100 | for a list of any length: a page loses one reference for each time it is listed, and at zero is cleared; no other field changes |
| KvCache.ShareAllCounts | kernel/src/ai/kvcache.rs:102-112 | for a list of any length: a page gains one reference for each time it is listed before the first unallocated page, up to ten; the call fails iff there is such a page |
| KvCache.EvictsOldest | kernel/src/ai/kvcache.rs:114-131 | evict_lru(n) evicts exactly min(n, evictable) distinct pages with one reference; all else is unchanged, and none left evictable is older than one evicted |
| KvCache.EvictionIs | kernel/src/ai/kvcache.rs:114-144 | a page is evicted only with exactly one reference, and loses references, GPU address and dirty mark; with more rounds than pages every such page is |
| KvCache.PageInIs | kernel/src/ai/kvcache.rs:157-161 | paging in marks an allocated page clean and accessed now and changes no other; it is then not the one evicted while an older page can be |
| KvCache.MirrorCounts | kernel/src/ai/kvcache.rs:177-179 | when bits mirror entries the popcount is the number of free pages |
| KvCache.KvPageTable.constructor | kernel/src/ai/kvcache.rs:56-71 | bits are set exactly below min(total, 1024) and no page is allocated |
| KvCache.KvPageTable.TakePage | kernel/src/ai/kvcache.rs:77-82 | takes the first free page |
| KvCache.KvPageTable.AllocPages | kernel/src/ai/kvcache.rs:73-86 | returns the ceil(tokens/64) (at least 1) smallest free pages, None iff fewer are free |
| KvCache.KvPageTable.ReleasePages | kernel/src/ai/kvcache.rs:88-100 | drops a reference from each page listed, freeing at zero; bits and entries stay in step |
| KvCache.KvPageTable.SharePages | kernel/src/ai/kvcache.rs:102-112 | adds a reference, saturating at 10, up to the first unallocated page; false iff there is one |
| KvCache.KvPageTable.FindLruEvictable | kernel/src/ai/kvcache.rs:133-144 | the scan with its tick sentinel finds the LRU page |
| KvCache.KvPageTable.EvictLru | kernel/src/ai/kvcache.rs:114-131 | the count returned is min(target, evictable pages) |
| KvCache.KvPageTable.MovePageIn | kernel/src/ai/kvcache.rs:157-161 | refreshes tick and dirty flag of an allocated page only |
| KvCache.KvPageTable.AllocatedPageCount | kernel/src/ai/kvcache.rs:177-179 | the popcount-based count equals the number of allocated entries |
| IpcEndpoint.QueueIsFifo | kernel/src/ipc/endpoint.rs:24-44 | the compacting vector is a FIFO and never exceeds twice the live items plus 64 |
| IpcEndpoint.StepKeepsConsistent | kernel/src/ipc/endpoint.rs:68-139 | each step keeps: a registered receiver is a Waiting thread with that endpoint as target and the queue is empty; effective priority is never below base |
| IpcEndpoint.RegisteredOnce | kernel/src/invariant.rs:77-95 | no thread is registered at two endpoints |
| IpcEndpoint.LosesNoWaiterIff | kernel/src/ipc/endpoint.rs:128-137 | a step leaves every waiting thread registered iff it does not block on an endpoint that already has a registered receiver |
| IpcEndpoint.StepKeepsFifo | kernel/src/ipc/endpoint.rs:80-82 | what was taken from an endpoint, followed by its queue, is what was sent to it |
| IpcEndpoint.StepKeepsBalance | kernel/src/ipc/endpoint.rs:81-127 | sends equal receives plus dropped plus queued, after each step |
| IpcEndpoint.RunsStayConsistent | kernel/src/ipc/endpoint.rs:68-139 | over every interleaving: consistency, prefix order per endpoint, and conservation of messages |
| IpcEndpoint.NothingDropped | kernel/src/ipc/endpoint.rs:120-127 | a run in which every recv has a current thread drops no message |
| IpcEndpoint.CountersBalance | kernel/src/ipc/endpoint.rs:81-127 | so from boot, in every such run, SEND_COUNT is RECV_COUNT plus all queued messages |
| IpcEndpoint.StepKeepsGiven | kernel/src/ipc/endpoint.rs:113-127 | what receives returned from an endpoint stays what was taken out of it, without the dropped |
| IpcEndpoint.RunsGive | kernel/src/ipc/endpoint.rs:113-127 | over every run that holds at every endpoint, and RECV_COUNT is the number of messages returned |
| IpcEndpoint.ReceivedInOrder | kernel/src/ipc/endpoint.rs:68-139 | from boot, the messages returned from an endpoint are those of the first messages sent to it, in order, without the ones taken with no thread; exactly the first ones if every recv has a thread |
| IpcEndpoint.ResultsAreTrue | kernel/src/ipc/endpoint.rs:68-139 | the result of a send or receive tells what it did to the tables and counters |
| IpcEndpoint.PriorityIsInherited | kernel/src/ipc/endpoint.rs:68-127 | a send raises the woken receiver to the sender's priority if that is higher and touches no other; a receive that returns a message puts the receiver back to its base |
| IpcEndpoint.NoLostWakeup | kernel/src/ipc/endpoint.rs:68-139 | with one receiver per endpoint, in every state of every run a thread waiting on an endpoint is registered there and no message is queued |
| IpcEndpoint.SecondReceiverStrandsFirst | kernel/src/ipc/endpoint.rs:128-137 | a run from boot with two receivers on endpoint 1 ends with a thread waiting there while two messages are queued |
| IpcEndpoint.ReceiveWithoutThreadDrops | kernel/src/ipc/endpoint.rs:113-127 | a run from boot where the one message sent is taken with no current thread and lost |
| IpcEndpoint.KillKeepsConsistentIff | kernel/src/syscall/proc.rs:385-391 | killing a process keeps the tables consistent iff its thread is registered at no endpoint |
| IpcEndpoint.SendRevivesKilled | kernel/src/ipc/endpoint.rs:87-96 | the next send to the endpoint where a killed thread is registered makes it Ready |
| IpcEndpoint.BootIsConsistent | kernel/src/ipc/mod.rs:11-14 | the invariants hold at boot |
| IpcEndpoint.Kernel.Create | kernel/src/ipc/mod.rs:30-43 | a new endpoint takes an id not in use; no other changes |
| IpcEndpoint.Kernel.PopFront | kernel/src/ipc/endpoint.rs:28-40 | returns the oldest message and compacts the vector |
| IpcEndpoint.Kernel.Send | kernel/src/ipc/endpoint.rs:68-109 | the table refines the send step: queue, count, wake with inherited priority; error iff the endpoint does not exist |
| IpcEndpoint.Kernel.Recv | kernel/src/ipc/endpoint.rs:113-139 | the table refines the receive step, with its five outcomes |
| AiScheduler.SlotsCountRunning | kernel/src/ai/mod.rs:374-385 | when slots and states agree, taken slots number the RUNNING workloads of that GPU, at most 4, and a slot is free iff fewer than 4 run |
| AiScheduler.StartRunning | kernel/src/ai/mod.rs:411-422 | starting a workload puts its index into a free slot, keeping agreement |
| AiScheduler.StopRunning | kernel/src/ai/mod.rs:438-447 | stopping one clears its slot if it had one, keeping agreement |
| AiScheduler.Best | kernel/src/ai/mod.rs:387-409 | the choice is eligible with highest priority, then earliest tick, then lowest index; None iff none is eligible |
| AiScheduler.ChoiceIsUnique | kernel/src/ai/mod.rs:387-409 | that description determines the choice |
| AiScheduler.ChoiceMeans | kernel/src/ai/mod.rs:387-409 | in full: the choice waits or was preempted, its GPU runs fewer than four, and it comes first by priority, tick and index |
| AiScheduler.RegisterAgreesIff | kernel/src/ai/mod.rs:141-168 | registering a device keeps agreement iff the table is full or nothing runs on the new id |
| AiScheduler.ApplyKeepsAgreement | kernel/src/ai/mod.rs:318-557 | submit, schedule, complete, preempt, the preemption scan and advance keep slots and states in agreement |
| AiScheduler.RunsStayInAgreement | kernel/src/ai/mod.rs:374-516 | over every run that registers GPUs before use: at most 4 RUNNING workloads per GPU, the slots holding exactly their indices, each once |
| AiScheduler.ApplyKeepsLimit | kernel/src/ai/mod.rs:374-557 | every operation, registration included, keeps at most 4 RUNNING workloads per GPU, whether or not slots and states agree |
| AiScheduler.RunsKeepLimit | kernel/src/ai/mod.rs:374-557 | the same over every run |
| AiScheduler.BootAgrees | kernel/src/ai/mod.rs:75-95 | the agreement and the limit hold of the empty tables |
| AiScheduler.LateRegisterWipesSlots | kernel/src/ai/mod.rs:147-160 | a run that registers an id already in use leaves a RUNNING workload in no slot |
| AiScheduler.SweepIsSimultaneous | kernel/src/ai/mod.rs:483-500 | the scan that preempts while walking equals preempting all expired workloads at once |
| AiScheduler.PreemptedIff | kernel/src/ai/mod.rs:483-500 | in full: a workload is preempted by the scan iff it runs, has done 1000 operations or more, and another waits for its GPU |
| AiScheduler.WorkloadStep | kernel/src/ai/mod.rs:374-557 | of a workload each operation changes only its state (COMPLETED or FAILED as reported, PREEMPTED if it ran, RUNNING if chosen) and, while it runs, its operation count |
| AiScheduler.DeviceStep | kernel/src/ai/mod.rs:431-456 | a GPU's count rises exactly when one of its workloads completes or fails, by what that one has done |
| AiScheduler.SubmitQueues | kernel/src/ai/mod.rs:318-339 | a new workload is QUEUED at the end with nothing done and priority clamped to 3 |
| AiScheduler.RegisterIs | kernel/src/ai/mod.rs:141-168 | a new device is active with four free slots and nothing completed |
| AiScheduler.RunsKeepIdentity | kernel/src/ai/mod.rs:318-557 | over every run a workload keeps owner, GPU, priority, batch and tick, and its operations never go down |
| AiScheduler.Tables.Register | kernel/src/ai/mod.rs:141-168 | only the new device entry and the count change; the id returned is the old count, None iff four exist |
| AiScheduler.Tables.Submit | kernel/src/ai/mod.rs:318-339 | appends one QUEUED workload with priority at most 3; None and unchanged iff 16 exist |
| AiScheduler.Tables.CountPerGpu | kernel/src/ai/mod.rs:377-385 | one pass counts the RUNNING workloads of all four GPUs |
| AiScheduler.Tables.Pick | kernel/src/ai/mod.rs:387-409 | the scan returns the unique best choice |
| AiScheduler.Tables.ReplaceSlot | kernel/src/ai/mod.rs:416-421 | only the first matching slot of that device changes |
| AiScheduler.Tables.Schedule | kernel/src/ai/mod.rs:374-428 | returns the unique best eligible workload, sets it RUNNING and puts it in the first free slot of its GPU |
| AiScheduler.Tables.Complete | kernel/src/ai/mod.rs:431-456 | whatever its state, the workload ends COMPLETED or FAILED in no slot, and its operations are added to its GPU |
| AiScheduler.Tables.Preempt | kernel/src/ai/mod.rs:459-479 | true iff it was RUNNING; it then is PREEMPTED and in no slot, everything else unchanged |
| AiScheduler.Tables.Pending | kernel/src/ai/mod.rs:490-492 | true iff another workload is QUEUED for the same GPU |
| AiScheduler.Tables.CheckPreemption | kernel/src/ai/mod.rs:483-500 | the nested scan over changing arrays computes the sweep that SweepIsSimultaneous describes |
| AiScheduler.Tables.ActiveWorkloads | kernel/src/ai/mod.rs:503-516 | for a registered GPU the scan equals the number of taken slots |
| AiScheduler.Tables.AdvanceOps | kernel/src/ai/mod.rs:551-557 | only the operation count of a RUNNING workload changes |
| DrawLine.WalkStaysClose | kernel/src/device/framebuffer.rs:203-220 | every point of the walk is within half a pixel of the ideal line: the minor axis is at the ideal value rounded, a half upwards |
| DrawLine.WalkArrives | kernel/src/device/framebuffer.rs:203-220 | in unbounded arithmetic the walk stays in the rectangle of the endpoints and is at the far corner exactly after max(abs dx, abs dy) steps |
| DrawLine.WalkMeetsTarget | kernel/src/device/framebuffer.rs:195-219 | in unbounded arithmetic, with both coordinates of each axis on the same side of 2^31, the endpoint is met first after exactly max(abs dx, abs dy) steps |
| DrawLine.WalkMissesTarget | kernel/src/device/framebuffer.rs:199-200 | in unbounded arithmetic, otherwise never: the unsigned comparison picks the wrong direction |
| DrawLine.ReachesFirstAt | kernel/src/device/framebuffer.rs:195-220 | the 32-bit loop meets (x1, y1) first after exactly max(abs dx, abs dy) turns, each point within half a pixel, for all endpoints on the same side of 2^31 and at most 715827882 apart |
| DrawLine.NoOverflow | kernel/src/device/framebuffer.rs:195-219 | between points on the same side of 2^31, with max(abs dx, abs dy) at most 715827882, no value computed on the way overflows 32 bits |
| DrawLine.CleanIsShort | kernel/src/device/framebuffer.rs:203-220 | no line goes on for 2^32 turns without an overflow |
| DrawLine.ArrivesCleanlyIff | kernel/src/device/framebuffer.rs:195-220 | for every pair of endpoints: the loop stands on its exit before anything overflows iff the coordinates are on the same side of 2^31 on each axis and no value of the first max(abs dx, abs dy) turns overflows |
| DrawLine.LoopIsWalk | kernel/src/device/framebuffer.rs:195-220 | until something overflows the 32-bit loop is at the points of the walk |
| DrawLine.LoopWraps | kernel/src/device/framebuffer.rs:195-220 | for every pair of endpoints at most 715827882 apart on each axis, however long the 32-bit loop goes on: the error term never overflows, and the point is the point of the walk with each coordinate wrapped |
| DrawLine.StandsOnTargetIff | kernel/src/device/framebuffer.rs:216-216 | so the exit is met in turn k iff the walk is at the endpoint up to multiples of 2^32 |
| DrawLine.ComesRound | kernel/src/device/framebuffer.rs:195-220 | a horizontal line across 2^31 goes the wrong way and meets its endpoint first after 2^32 - abs dx turns |
| DrawLine.LongLineGoesAstray | kernel/src/device/framebuffer.rs:217-219 | a line of length 2^31 - 1 leaves its way in the first turn, its doubled error having wrapped |
| LineEnds.LoopEndsIff | kernel/src/device/framebuffer.rs:203-220 | for every pair of endpoints at most 715827882 apart on each axis, the loop without overflow checks ever meets its exit iff neither axis or both straddle 2^31, or the line is horizontal or vertical, or some multiple of 2^32 gcd(dx, dy) lies within half its length of 2 dx dy |
| LineEnds.AtTargetIs | kernel/src/device/framebuffer.rs:216-216 | it stands on the endpoint iff each axis has its length to go, or behind it, up to multiples of 2^32 |
| LineEnds.LandsIfMeets | kernel/src/device/framebuffer.rs:203-220 | a line straddling on one axis only that stands on its endpoint satisfies the gcd condition |
| LineEnds.MeetsIfLands | kernel/src/device/framebuffer.rs:203-220 | and under that condition there is a turn in which it does |
| LineEnds.ShortLineNeverEnds | kernel/src/device/framebuffer.rs:203-220 | no sloped line straddling on one axis only, with 4 dx dy plus its length below 2^33, is ever finished |
| LineEnds.DiagonalNeverEnds | kernel/src/device/framebuffer.rs:203-220 | nor is any diagonal straddling on one axis only |
| LineEnds.DrawnForEver | kernel/src/device/framebuffer.rs:203-220 | from (5, 0) to (0xFFFFFFFB, 10) the loop never ends |
| LineEnds.SlopedLineComesRound | kernel/src/device/framebuffer.rs:203-220 | a sloped line that straddles on one axis and does come round |
| DrawLine.Framebuffer.Plot | kernel/src/device/framebuffer.rs:204-215 | a point off the screen changes nothing, one on it changes its word only |
| DrawLine.Framebuffer.PaintLoop | kernel/src/device/framebuffer.rs:203-220 | for every pair of endpoints the loop ends on the endpoint or in the turn that overflows, having painted exactly the on-screen points so far |
| DrawLine.Framebuffer.DrawLine | kernel/src/device/framebuffer.rs:192-221 | for every pair of endpoints: draws exactly the on-screen points of the line iff the endpoints are on the same side of 2^31 and nothing overflows on the way; otherwise the points up to the overflow, where the outcome is reported |
| DrawLine.Advance | kernel/src/device/framebuffer.rs:217-219 | one turn of the loop is one step of the walk, and reports whether a value computed in it overflows |
| Merge.PassesSort | kernel/src/device/merge.rs:47-59 | after i passes the i largest sectors are in place, after all the list is ascending |
| Merge.PassesKeepSum | kernel/src/device/merge.rs:47-59 | sorting keeps every sum over the requests |
| Merge.PassesPermute | kernel/src/device/merge.rs:47-59 | so sorting permutes them |
| Merge.PassesStable | kernel/src/device/merge.rs:47-59 | and is stable: requests at one sector keep their order |
| Merge.AbutsIsReal | kernel/src/device/merge.rs:67-69 | a 64-bit end that wraps never meets a later sector: requests merge only if they really touch |
| Merge.CoalesceIsMerged | kernel/src/device/merge.rs:62-78 | the merged list is ascending and no two neighbours could still be merged |
| Merge.CoalesceStarts | kernel/src/device/merge.rs:62-78 | each merged request is a request taken in with its count grown |
| Merge.MergedStarts | kernel/src/device/merge.rs:31-90 | so it starts at the sector and buffer of one of the first 128 requests given, and has its direction |
| Merge.AddCovers | kernel/src/device/merge.rs:69-76 | adding a request adds what it covers, unless the 32-bit count overflows |
| Merge.OverflowLoses | kernel/src/device/merge.rs:72-72 | if a count overflows some covered sector is lost |
| Merge.MergingPreservesCoverIff | kernel/src/device/merge.rs:31-90 | the covered multiset of (sector, direction) pairs is kept iff no merged count overflows and every request beyond the 128th is empty |
| Merge.SmallBatchesKeepTheirMeaning | kernel/src/device/merge.rs:31-90 | up to 128 requests of fewer than 2^32 sectors in all keep their meaning |
| Merge.LongRunsOverflow | kernel/src/device/merge.rs:72-72 | two touching requests of 2^31 sectors merge to an empty one |
| Merge.BubblePass | kernel/src/device/merge.rs:49-57 | one in-place pass is the pass on values |
| Merge.BubbleSort | kernel/src/device/merge.rs:46-59 | in place: ascending by sector, a permutation, and nothing beyond count touched |
| Merge.CoalesceInPlace | kernel/src/device/merge.rs:61-80 | the in-place walk with its write index yields the merged list |
| Merge.MergeRequests | kernel/src/device/merge.rs:31-90 | the array holds the merged list and then only empty requests, so it covers the same |
| WireProtocol.ParseIsInverse | kernel/src/distributed/protocol.rs:51-328 | for every packet type, a parser returns a packet iff the buffer begins with its encoding: round trip, and nothing else is accepted |
| WireProtocol.ParsedIsCarried | kernel/src/distributed/protocol.rs:83-328 | whatever a parser returns is a packet its layout can carry |
| WireProtocol.ParsersExclusive | kernel/src/distributed/protocol.rs:83-328 | no buffer is accepted by two different parsers |
| WireProtocol.HandleAt | kernel/src/distributed/protocol.rs:245-252 | each handle of an allocation response can be read back from its four bytes |
| WireProtocol.WritePing | kernel/src/distributed/protocol.rs:51-64 | puts at the front exactly the 6 bytes its parser inverts and leaves the rest; a shorter buffer is untouched and None returned |
| WireProtocol.WritePong | kernel/src/distributed/protocol.rs:67-80 | a PONG, told apart from a PING by its magic, is put at the front of a buffer of at least 6 bytes; a shorter one is untouched |
| WireProtocol.WriteData | kernel/src/distributed/protocol.rs:112-133 | puts exactly the bytes its parser inverts at the front; None and untouched iff the payload is over 59 bytes or does not fit |
| WireProtocol.WriteCap | kernel/src/distributed/protocol.rs:157-181 | the 73 bytes carry all five fields back to the parser; None and untouched iff the buffer is shorter |
| WireProtocol.WriteMemAllocReq | kernel/src/distributed/protocol.rs:204-214 | the 4 bytes carry both fields back to the parser; None and untouched iff the buffer is shorter |
| WireProtocol.WriteHandles | kernel/src/distributed/protocol.rs:245-252 | the loop writes the handles and nothing else |
| WireProtocol.WriteMemAllocResp | kernel/src/distributed/protocol.rs:231-254 | header and handles written in two pieces are one packet; None and untouched iff over 16 handles or too short |
| WireProtocol.WriteMemFree | kernel/src/distributed/protocol.rs:274-288 | the 7 bytes carry requester and handle back to the parser; None and untouched iff the buffer is shorter |
| WireProtocol.WriteProclistReq | kernel/src/distributed/protocol.rs:307-316 | the 3 bytes carry the requester back to the parser; None and untouched iff the buffer is shorter |
| WireProtocol.WrittenIsRead | kernel/src/distributed/protocol.rs:51-328 | what a writer left in a buffer its own parser reads back and no other accepts |
| ProcessList.EntryExact | kernel/src/distributed/protocol.rs:340-354 | an entry is read at a position iff its encoding is there, and the position moves by its size |
| ProcessList.EntriesExact | kernel/src/distributed/protocol.rs:388-409 | a sequence of entries is read iff their encodings follow one another there |
| ProcessList.RespExact | kernel/src/distributed/protocol.rs:376-411 | a response parses to a list iff the buffer begins with its header and encodings and there is room for it |
| ProcessList.ListRoundTrip | kernel/src/distributed/protocol.rs:332-411 | a list of up to 64 processes comes back in order, names cut to 48 bytes, whatever follows in the buffer |
| ProcessList.ShownTrimmed | kernel/src/distributed/protocol.rs:399-407 | the name stored, up to its length, is the name sent |
| ProcessList.RespExclusive | kernel/src/distributed/protocol.rs:376-383 | a response is accepted by no other parser |
| ProcessList.WriteEntry | kernel/src/distributed/protocol.rs:341-353 | one entry is written, nothing else |
| ProcessList.WriteEntries | kernel/src/distributed/protocol.rs:339-355 | entries are written from position 4 until one does not fit |
| ProcessList.WriteProclistResp | kernel/src/distributed/protocol.rs:332-363 | written whole iff it fits; if not, exactly the entries before the first that does not fit are in the buffer and the header is not; an empty list on a buffer under 4 bytes panics |
| ProcessList.ReadEntry | kernel/src/distributed/protocol.rs:390-408 | positions never pass the buffer; malformed iff the entry does not fit |
| ProcessList.ReadEntries | kernel/src/distributed/protocol.rs:388-409 | entries are stored in order until one is malformed; other places keep their content |
| ProcessList.ParseProclistResp | kernel/src/distributed/protocol.rs:376-411 | the count is returned iff all entries are well formed; those before a malformed one are stored all the same |

## Left out

- Context table, registers, TLB invalidation, MMIO, interrupts between harts and console output: hardware effects around the modelled state.
- Hook calls made from inside `send`: extensions are modelled on their own.
- SM3 compression and the SM4 S-box transforms are arbitrary functions of the right type; agreement with the standards' round constants is not claimed. SM4 CBC has no decryptor and is left out.
- `NoopScheduler`, `writeback_dirty`, `dirty_page_count`, `utilization`, `gpu_submit_command`, interrupts, GART and utilization of GPUs, `ai_submit_with_data` beyond what `ai_submit` does, and the listing functions: each is one loop or one assignment over tables that are modelled here, and no result above depends on it.
- Sign extension of addresses above bit 38, and allocation inside a page table shared with a process: the forest of tables is proved for tables the IOMMU code builds itself, and the walk and unmap on any memory in `Sv39Walk`.
- Framebuffer memory other than one word per pixel; `draw_line` only.
- Iommu.Machine.ShareRegion: requires the physical addresses to fit 64 bits, and computes the end of the range without 64-bit wrap-around.
- Iommu.Machine.ShareLoop: the same bound.
- Iommu.Machine.UnmapRange: the end of the range is computed without 64-bit wrap-around, which only a range reaching 2^64 would meet.
- Iommu.Machine.MapRange: takes the root instead of a context id; the same bound.
- Iommu.Machine.MapLoop: the same bound.
- Iommu.Machine.EnclaveTable: the enclave lies below 2^64, and the context is not registered.
- DrawLine.Framebuffer.DrawLine: stops where a value overflows 32 bits, as a build with overflow checks does. A build without them goes on and may never end: LoopWraps says where it is in every turn and LoopEndsIff whether it ends, for endpoints up to 715827882 apart; beyond, only LongLineGoesAstray. What it paints after the overflow is not stated.
- IpcEndpoint.Kernel.Send: requires the receiver registered at the endpoint to be a thread of the table, because the source follows a raw pointer to it; this holds in every state reached by sends, receives, dispatch, preemption, spawning and creation, and after a kill.
- Merge.MergeRequests: counts wrap as in a build without overflow checks; a build with them stops instead.
- ExtensionTable.Registry.Hook: printing of names and errors is not modelled.
- Priority inheritance is modelled as the change of a thread's priority; how the thread scheduler uses it is not.
