# DoomV: the shortcuts and what they must equal

DoomV is a RISC-V emulator. Its speed comes from shortcuts -- batched steps, skipped interrupt checks,
cached translations, decoded PMP regions, cached code pages -- and each claims to be exactly equal to a slow,
simple definition that is also in the repository. This project models both sides and proves the equalities,
together with the smaller pieces built the same way: the lock-step demultiplexer, the interrupt
controllers, the device-tree edits and the debugger's packets.

`dafny verify dfyconfig.toml` checks everything. Machine words are natural numbers with their wrap-around
written out; a flag is the parity of a quotient.

## The parts

- **Registers, interrupts.** `Registers` has the register file with its two generations; `Interrupts` the
  decision a check makes, as a function of everything that bumps the event counter and of mtime, and the
  deadline up to which it stands. `InterruptSpec` says which interrupt that is, cause by cause and by the mode each
  is for.
- **The stepping engine.** `Engine` defines a step, `EngineProofs` shows when skipping the check is
  invisible, `ClockWrap` what happens when mtime comes round, `FastRun` is run_fast and when it is that many
  steps, `TickCount` how far its count of ticks falls behind, `CounterLaw` what steps and runs of them do to
  minstret, mcycle and mtime, and `DoomSystem` is the object, proved equal to both in every state. An instruction
  run_fast takes by itself is an abstract function on registers, pc and RAM; every other step is an opaque transition
  of the whole machine.
- **Several harts.** `Waits` and `Rounds` have WFI and WRS inside one step and a round at a time, and the
  shortcut for waiting harts; `RoundSpec` what a wait and a round do to the clock; `Reservations` the count
  of LR reservations and the stores that end them.
- **PMP.** `Pmp` has the emulator's check, `PmpShifts` how an address reads under a grain, `PmpLocks` the writes
  and locks, `PmpSpec` the architecture's check (section 3.7.1 of the RISC-V Privileged Architecture 1.12) and for
  which accesses the two agree, `PmpUnit` the object with its decoded cache.
- **Translation.** `PageTables` is the Sv39/48/57 walk with Svadu, Svpbmt and Svnapot (sections 4.3.2 and 4.4
  to 4.6), `Translate` the privilege, the pointer mask and the cache keys, `Tlb` what a hit promises and what
  keeps the promise, `Mmu` the object with a TLB for each hart, `Fetch` and `FetchUnit` the code-page cache over
  it, `DataCache` and `DataUnit` the caches of loads and stores, `DataFences` what an address fence does for
  these, `GdbWalk` the debugger's own walk. What all of these must equal is itself held against the architecture:
  `WalkSpec` for the walk, `TranslateSpec` for what is walked and as whom, `AccessSpec` for the fetch, load or
  store that comes of it. Each hart has a *debt*, no part of the machine: the addresses whose
  leaves have been edited since it last fenced them, or everything, after a PMP CSR write or an edit of unknown
  extent. Stores run it up, an address fence pays for its address, a full flush for all; whatever happens in
  between, an entry is right or came from a leaf over an address still owed, so that a hart that owes nothing
  translates, fetches, loads and stores as if it had no caches. The data caches keep a debt of their own, for with
  pointer masking on an address fence does not pay it.
- **The rest.** `Lockstep` and `LockstepQueue`, with `LockstepSpec` for what a trace says by position; `Imsic`,
  `Aplic`, `AplicUnit` and `AplicEvents` (RISC-V AIA 1.0); `Fdt`, `FdtTree` and `FdtPatch`, with `FdtFormat` for
  the format byte by byte (Devicetree Specification, chapter 5);
  `GdbPacket`. `Bits` and `BitFlags` have single bits, by which the laws name registers and entries.

Files named after an object hold a class proved against functions on values; the lemmas about those
functions are the results. A law about a rule of the hardware -- what an entry permits, which interrupt comes
first, when a counter runs -- is stated over the bits of registers, entries and bytes by number, and names none of the
functions the model computes the rule with.

## What the contracts rest on

- `EngineProofs.EventContract` and `Rounds.SlotContract` are what src/event_gen.hpp asks of all code outside the
  engine: nothing an interrupt decision reads changes without a bump of the event counter. Of the APLIC's
  register writes, `AplicEvents.ContractExactly` says which keep it.
- `CounterLaw.CountersAlone` is a machine whose instructions and traps write no counter themselves; the laws over
  runs are about these, `CounterLaw.StepCounts` about any.
- An instruction that run_fast takes touches nothing but registers, pc, RAM and the history
  (src/doom_system.cpp:590-608).

## Where the code and its claims part

- **run_fast at the end of time.** A deadline of 2^64-1 stands for "none ahead", but it is also a value mtime
  can have, and run_fast sets no limit for it. `FastRun.RunIsStepsExactly` says when a run is still its steps --
  unless one of them would have taken an interrupt at that value, or there are so many that the 32-bit
  accumulator of milliseconds overruns -- and `FastRun.LastTickIsMissed` has an input.
- **htimedelta at the end of time.** With htimedelta in play the deadline is the next tick, except at 2^64-1: the
  next tick is at 0, which is not ahead, and the deadline recorded is 2^64-1 itself. A guest timer that comes due
  as mtime comes round -- which it does when software writes it near its end -- is then not looked at for a
  whole round of the clock. `ClockWrap.OffsetIsMissed` has an input for every htimedelta but 0; with that one
  `EngineProofs.OrdinarySkippingIsInvisible` asks nothing of the run, unless M-mode has delegated its own timer
  away, which mideleg permits and `ClockWrap.DelegationIsMissed` has an input for. `ClockWrap.IdleForeverExactly`
  says exactly when an idling hart misses something. The bound wait_slot keeps has no such fault
  (`Interrupts.WaitUntilIsDeadline`).
- **clock_ticks.** clock_tick counts ticks in `clock_ticks`, run_fast's added-up ticks do not.
  `TickCount.RunFastFallsBehind` says by how much. It is a stamp for logs, and no instruction reads it.
- **Reservations.** A step that acquires a reservation while exactly one other hart holds one is counted as
  that hart itself, so a store it makes (an A bit set by its walk) ends nothing.
  `Reservations.SafeUnlessItSlipsThrough` says exactly when.
- **PMP checks** look at an access's first and last byte. `PmpSpec.CheckIsSpecExactly` says for which accesses
  that is the architecture's check, at every grain.
- **PMP locks.** With a grain, an address reads differently in NAPOT mode and out of it, so a locked TOR entry's
  region moves with the mode of an unlocked entry before it. `PmpLocks.LockHoldsExactly` says exactly when; with
  grain 0, never.
- **A and D of ill-formed entries.** The walk sets A and D before it looks at a leaf's reserved bits and alignment,
  where steps 3 and 6 of section 4.3.2 refuse the entry first. `WalkSpec.FaultWritesExactly` says exactly when a walk
  faults and has yet written, `WalkSpec.MisalignedIsMarked` has an input.
- **Interrupts behind one that is held back.** A check looks at the uppermost cause pending and enabled and at no
  other, so an undelegated interrupt may wait in M-mode behind a delegated one, which M-mode never takes.
  `InterruptSpec.PassedOverExactly` says exactly when, `InterruptSpec.PassedOverIsSo` has an input.
- **Data caches under pointer masking.** The load and store caches file a page under the address the program used,
  tag and all. fence_page is given the address without its tag, which is how software names a page to SFENCE.VMA,
  and leaves an entry made through a tagged pointer. `DataFences.FenceIsEnoughExactly` says that masking is exactly
  what it takes, and `DataFences.StaleLoad` has a load answered from a page that is no longer mapped.
- **APLIC.** Writes of domaincfg, sourcecfg and target return before the event counter is bumped, though the
  wire to a hart depends on all three. `Aplic.AnnouncedExactly` has both halves, and
  `AplicEvents.SkippingIsSafeExactly` what follows for the engine: an interrupt let through is not taken when due.
- **Device trees.** fdt_set_memory_size rewrites the first reg inside the memory node, which may be a child's.
  `FdtTree.OwnRegExactly` says when it is the node's own, `FdtTree.WrongRegSet` has a tree where it is not.

## Model

| member | source | states |
|---|---|---|
| Registers.RegisterFile.WriteCsr | src/registers.cpp:43-98 | The object after a CSR write is the specified register file: the value stored, and each generation bumped exactly when the write can change a decision keyed on it |
| Registers.RegisterFile.SetPriv | src/registers.cpp:35-39 | A change of privilege moves the event counter and not stateGen |
| Registers.RegisterFile.SetVirt | src/registers.hpp:125 | A change of V moves both generations |
| Registers.RegisterFile.CsrAdd | src/registers.hpp:132-134 | A counter's own increment wraps at 64 bits and moves no generation |
| Registers.GenerationsOnlyGrow | src/registers.hpp:95-112 | Over any run of CSR writes, privilege and V changes and counter increments neither generation goes back |
| Registers.SameStateGenSameState | src/registers.cpp:43-98 | Over any run, an unmoved stateGen means every CSR outside the exempt list, V, and every keyed mstatus bit are what they were |
| Registers.SameEventGenSameEvents | src/registers.cpp:35-98 | Over any run, an unmoved event counter means privilege, V, mstatus, stimecmp and every non-exempt CSR are what they were |
| Interrupts.PendingUntilDeadline | src/extensions/ext_zicsr.cpp:238-300 | Until the deadline no bit of mip changes by the passage of time alone, with mtime + htimedelta wrapping |
| Interrupts.SameUntilDeadline | src/doom_system.cpp:551-581 | Until the deadline a check takes the same interrupt, a waiting hart wakes or not alike, and both deadlines recompute to themselves |
| Interrupts.DeadlineIsNearest | src/doom_system.cpp:570-580 | At every mtime the deadline is no nearer than it must be: the next tick with htimedelta in play, else the least compare value ahead, else the last value of mtime, which is its own deadline |
| Interrupts.LastValueIsADeadline | src/doom_system.cpp:570-580 | Counterexample to reading a deadline of 2^64-1 as none: a tick before that value a check of this hart finds nothing until then, and at it the check takes an interrupt |
| Interrupts.WaitUntilIsDeadline | src/doom_system.cpp:259-269 | The bound wait_slot keeps for a waiting hart is the interrupt deadline, exactly but at the last value of mtime with htimedelta in play: the bound is then the next tick, 0, and the deadline is not |
| Interrupts.NotTakenBefore | src/extensions/ext_zicsr.cpp:1793-1865 | With no htimedelta in play, and no timer that hides another interrupt, what a check does not take at some time it would have taken at no time before |
| Interrupts.UsualIsOrdinary | src/extensions/ext_zicsr.cpp:2470-2480 | No timer hides another unless M-mode delegates its own: with the hypervisor's fixed delegation bits the other orders are harmless |
| Interrupts.DecisionReadsOnlyEvents | src/extensions/ext_zicsr.cpp:1793-1865 | The decision, the wake-up and both deadlines read nothing but what bumps the event counter, and mtime |
| InterruptSpec.PendsIsPending | src/extensions/ext_zicsr.cpp:238-300 | Bit by bit, what mip holds: the lines, the timers against mtime and htimedelta, the software-writable bits, and the guest externals of hgeip |
| InterruptSpec.TakenExactly | src/extensions/ext_zicsr.cpp:1793-1860 | A check takes interrupt b if and only if b is one of the ten causes, pending and enabled, the hart's mode, V and that mode's enable let it through (M, HS or VS, by mideleg and hideleg), and none of the causes above it, listed cause by cause, is pending and enabled |
| InterruptSpec.WakesExactly | src/extensions/ext_zicsr.cpp:1862-1865 | A waiting hart wakes if and only if some cause is pending and enabled, let through or not |
| InterruptSpec.PassedOverExactly | src/extensions/ext_zicsr.cpp:1793-1860 | The hart takes nothing while something could be taken exactly if the uppermost cause pending and enabled is one its mode holds back |
| InterruptSpec.PassedOverIsSo | src/extensions/ext_zicsr.cpp:1793-1860 | An input: in M-mode with interrupts on, a delegated external interrupt hides an undelegated software one, which the architecture takes |
| InterruptSpec.StepTakesExactly | src/doom_system.cpp:551-581 | A step enters the trap of the interrupt that is due, and executes if none is, whether it looked or went by a check that stands |
| EngineProofs.SkipOneStep | src/doom_system.cpp:551-581 | One step that skips the interrupt check while its cache stands is the step that makes the check; and it leaves a cache that stands exactly unless it takes mtime past its last value, without an event, to something to take before the deadline |
| EngineProofs.SkippingIsInvisible | src/doom_system.cpp:551-581 | Over every run none of whose steps does that, the machine that skips the check is, step for step, the machine that makes it before every step |
| EngineProofs.OrdinarySkippingIsInvisible | src/doom_system.cpp:551-581 | With htimedelta 0 and no timer that hides another interrupt, it is over every run of any length, from any clock, however often the clock comes round |
| ClockWrap.IdleForeverExactly | src/doom_system.cpp:562-581 | From any clock, an idling hart takes its interrupts when they are due, for ever, exactly if it takes one at the last value of mtime or has none to take at any value |
| ClockWrap.OrdinaryRoundIsQuiet | src/doom_system.cpp:562-581 | Which is so with htimedelta 0 and no timer that hides another interrupt |
| ClockWrap.AsleepIsQuiet | src/doom_system.cpp:259-269 | and with htimedelta 0 where a wait at the last value of mtime would go on: nothing is then to be taken at any value |
| ClockWrap.OffsetIsMissed | src/doom_system.cpp:570-580 | Counterexample for every htimedelta but 0: at the last value of mtime the deadline recorded is that value and not the tick after it, so a guest timer due at 0 is missed, two steps on |
| ClockWrap.DelegationIsMissed | src/extensions/ext_zicsr.cpp:1793-1865 | Counterexample without htimedelta: M-mode's timer, delegated away, hides a software interrupt until the clock comes round and it goes |
| FastRun.BulkInputsOnce | src/doom_system.cpp:845-859 | The counters of j + 1 steps of a run are those of j steps with one more step counted, for minstret and for mcycle's ticks |
| FastRun.StepExtendsRun | src/doom_system.cpp:614-868 | Inside a run of simple instructions the definition of a step gives exactly the next element of the added-up run |
| FastRun.RunLimitIsExact | src/doom_system.cpp:643-650 | Step j of a run sees mtime short of the deadline exactly when j is below 2*d - tick_phase, which is therefore the largest safe run |
| FastRun.RunIsStepsExactly | src/doom_system.cpp:643-861 | A run of simple instructions, bookkeeping added up, is as many steps exactly if none of them would have taken an interrupt at the last value mtime has, and its length does not overrun the 32-bit milliseconds accumulator |
| FastRun.RunFastIsSteps | src/doom_system.cpp:590-868 | run_fast(n), for every n, is n steps -- registers, pc, RAM, history ring, step count, counters, clock, milliseconds and the interrupt cache -- wherever every run of it does neither |
| FastRun.QuietIsClean | src/doom_system.cpp:643-650 | None does for n up to 2^32 - 1200 if no step starts at the last value of mtime with something to take there: the clock may reach it, and pass it |
| FastRun.RunFastIsAlwaysSteps | src/doom_system.cpp:551-868 | Batched runs and skipped checks together: run_fast(n) leaves the machine that n steps with every check made leave |
| FastRun.OrdinaryRunFast | src/doom_system.cpp:551-868 | and does so, the clock coming round or not, with htimedelta 0 and no timer that hides another interrupt, if no step starts at the last value of mtime with something to take |
| FastRun.LastTickIsMissed | src/doom_system.cpp:643-650 | Counterexample: a tick short of 2^64-1 with a timer interrupt due there, all contracts kept, run_fast(2) and two steps end apart |
| TickCount.RunFastFallsBehind | src/doom_system.cpp:845-859 | clock_ticks after run_fast(n) falls short of its value after n steps by exactly the ticks inside the runs |
| TickCount.OneTickUncounted | src/doom_system.cpp:877-888 | A run of two instructions that ends in the state two steps end in, and has counted one tick fewer |
| DoomSystem.System.StepInstructions | src/memory.hpp:389-397 | The subtracting loop, on its 32-bit sum, leaves the quotient in the millisecond counter and the remainder in the accumulator |
| DoomSystem.System.InterruptMayBeDue | src/doom_system.cpp:562-581 | Answers whether the cache has lapsed; if so the key is the event counter and the deadline is recomputed |
| DoomSystem.System.ClockTick | src/doom_system.cpp:877-888 | mtime and, where it counts, mcycle advance by one, and the tick is counted |
| DoomSystem.System.EndStep | src/doom_system.cpp:911-927 | minstret for a committed step that counts, and a clock tick every second step |
| DoomSystem.System.Step | src/doom_system.cpp:870-875 | The object's step is the defined step |
| DoomSystem.System.TakeRun | src/doom_system.cpp:668-839 | The loop over instructions, with only the core and the history ring written, is the specified run |
| DoomSystem.System.AddUp | src/doom_system.cpp:845-859 | The bookkeeping of `done` steps at once, at the widths of the code: steps, milliseconds, minstret, mcycle, mtime and tick phase |
| DoomSystem.System.StepsUntilDeadline | src/doom_system.cpp:643-650 | The limit is the budget or, where less, the run limit; there is none for a deadline of 2^64-1 |
| DoomSystem.System.SimpleRun | src/doom_system.cpp:668-861 | A run with its bookkeeping is the specified run, whatever the clock |
| DoomSystem.System.Pass | src/doom_system.cpp:614-868 | One pass is the specified pass: a step taken the ordinary way, or a run and the step that ended it |
| DoomSystem.System.RunFast | src/doom_system.cpp:590-868 | The object's run_fast is the specified one in every state and for every 64-bit budget; it is n calls of Step wherever no run misses an interrupt at 2^64-1 or overruns 32 bits, and clock_ticks is short by the ticks of its runs |
| CounterLaw.CountsAreRuns | src/doom_system.cpp:529-549 | minstret runs exactly if bit 2 of mcountinhibit and minstretcfg's bit for the hart's mode (62 M, 61 S, 60 U, 59 VS, 58 VU) are clear, mcycle by bit 0 and mcyclecfg |
| CounterLaw.StepCounts | src/doom_system.cpp:911-927 | Whatever a step's instruction did to the counters itself, a step that counts then adds one to minstret if it committed and minstret ran as it began, and, when its tick is due, one to mtime and to mcycle if that runs |
| CounterLaw.StepLaw | src/doom_system.cpp:551-927 | Where no instruction writes a counter: what one step adds to minstret, mcycle and mtime, by those bits |
| CounterLaw.RunLaw | src/doom_system.cpp:870-875 | Over any run minstret is ahead by the steps that committed while it ran, mcycle by the ticks while it ran |
| CounterLaw.RunFastLaw | src/doom_system.cpp:590-868 | And over run_fast, of any budget, wherever it is its steps |
| CounterLaw.SimpleRunLaw | src/doom_system.cpp:590-868 | n simple instructions add n to minstret, half as many ticks to mtime, and those to mcycle, unless stopped by those bits; and every 1200 are a millisecond |
| CounterLaw.SimpleStepRecords | src/doom_system.cpp:668-839 | A simple instruction leaves its own effect, and itself at its own address as the newest of the 4096 in the history ring |
| Waits.SingleHart.RunWait | src/doom_system.cpp:929-978 | The wait inside one step ends at its first look that finds a reason: a WRS with no reservation at its first look and with no trap; any wait with something pending and enabled with none; any other when the ten ticks are up (with -cycle-clock after one look and no ticks), with no trap, 2 or 22 by kind, mode, V, mstatus.TW and hstatus.VTW |
| Waits.EndsAtFirstReason | src/doom_system.cpp:929-978 | A wait ends at the first look with something pending and enabled, and else, but for a WRS without its reservation, which ends at its first look, at the eleventh |
| RoundSpec.WaitLaw | src/doom_system.cpp:929-978 | At look k mtime has moved by min(k + 1, 10), and mcycle by as many if it runs, while minstret and all an interrupt decision reads stand |
| Waits.EqualKeyEqualEnables | src/doom_system.cpp:541-549 | Over any run of CSR operations and extension changes, counter enables decided under an equal key are what the registers say now |
| Rounds.Machine.WaitSlot | src/doom_system.cpp:226-284 | One round of a wait is one look: it completes the instruction if something is pending and enabled or a WRS holds no reservation, goes on with one round less while rounds remain, and else completes or traps by kind, mode, V, TW and VTW; what it records keeps every sleeping hart asleep |
| Rounds.Machine.HartSlot | src/doom_system.cpp:134-138 | A selected hart's slot is the defined slot, whichever opaque step it takes |
| Rounds.Machine.TickAllHarts | src/doom_system.cpp:195-207 | One tick: mcycle of every hart that counts it, mtime once, wrapping; every recorded look that stands still does |
| Rounds.Machine.RunRound | src/doom_system.cpp:105-147 | With the waiting-hart shortcut or without it a round leaves the defined world, for any number of harts and any clock |
| RoundSpec.RoundLaw | src/doom_system.cpp:113-147 | By what each hart's slot left: a round in which some hart completed a step is half a tick, one out of which every hart came waiting is a tick, and no round ticks twice; a tick adds one to mtime, and to mcycle of the harts whose mcycle runs |
| Rounds.Machine.RunRounds | src/doom_system.cpp:105-147 | And so do any number of rounds |
| Rounds.LookedAtLast | src/doom_system.cpp:259-269 | A look made at the last value of mtime that finds nothing is good after the clock has come round: no waiting hart oversleeps |
| Rounds.TogetherUntilFirstEnd | src/doom_system.cpp:226-284 | Harts that enter their waits together see, look by look, the clocks and counters each would see in a run_wait of its own, until the first look that ends one |
| Rounds.FirstEndIsRunWaits | src/doom_system.cpp:226-284 | The first wait to end ends in the round, and with the completion or trap, that run_wait ends it with |
| Rounds.FirstEndFromBegin | src/doom_system.cpp:226-284 | From the round in which all harts enter their waits: a wait ends within MAX_WAIT_TICKS rounds, and the first to end does so in the round, at the clock and with the completion or trap that it would have ended with alone, inside its step |
| Reservations.Harts.StoreByOtherHart | src/riscv_core.hpp:58-69 | A stored byte ends a reservation exactly when it lies in its aligned eight bytes |
| Reservations.Harts.StoresSeen | src/doom_system.cpp:174-187 | Every watched byte ends every other hart's reservation it hits, and the count follows |
| Reservations.Harts.HartSlot | src/doom_system.cpp:149-172 | At every slot boundary `reserved` is the number of harts holding a reservation, and the reservations are those of the specified slot |
| Reservations.SafeUnlessItSlipsThrough | src/doom_system.cpp:149-193 | Whatever a step stores, no other hart keeps a reservation on a byte of it -- exactly unless the step acquires a reservation while exactly one other hart holds one |
| Reservations.SurvivesIffUnhit | src/doom_system.cpp:149-193 | Over any run of other harts' slots with no such step, a reservation survives exactly if none of them stored in its set |
| Reservations.HeldIffUnwritten | src/riscv_core.hpp:58-69 | A reservation outlasts a run of other harts' slots, none of which slips through, exactly if none of them wrote a byte of its aligned doubleword |
| Pmp.NapotBlock | src/pmp.cpp:61-75 | Trailing ones name the aligned block: NAPOT matching by bits is membership of [lo, hi) |
| Pmp.DecodeIsMatch | src/pmp.cpp:43-77 | A decoded region holds exactly the granules from below to the address, the one granule, or the NAPOT block, and is whole granules |
| PmpSpec.CheckIsSpec | src/pmp.cpp:211-239 | On an access of at most two four-byte granules the first-and-last-byte check is the architecture's, in every configuration and with any grain: the lowest entry matching any byte must match all and then decides, by its own bits for loads, stores and fetches, in M-mode only if locked; no entry leaves M-mode free |
| PmpSpec.SelectsIsMatches | src/pmp.cpp:43-139 | What the architecture's entry matches and allows, by the bits of its configuration byte (0 for loads, 1 for stores, 2 for fetches, 3 and 4 for the mode, 7 for binding M-mode), is what the emulator's does |
| PmpSpec.CfgWritten | src/pmp.cpp:149-187 | Bit by bit, what a pmpcfg write makes of every entry: bits 5 and 6 read zero, W needs R, NA4 under a grain is OFF, and locked and absent entries keep theirs |
| PmpSpec.AddrWritten | src/pmp.cpp:189-209 | Bit by bit, what a pmpaddr write stores, and when it is refused: the entry locked, or the next one locked and TOR |
| PmpSpec.BottomIsFloor | src/pmp.cpp:20-30 | A TOR bottom read from a NAPOT entry is the architecture's for every granule that entry does not itself match |
| PmpSpec.ReachableIsLegal | src/pmp.cpp:149-209 | Every configuration that writes lead to from reset has short addresses, unusable entries off, and no NA4 with a grain |
| PmpSpec.CheckIsSpecOnBlocks | src/pmp.cpp:211-239 | In those configurations the check is the architecture's on every access of at most two blocks of 2^(G+2) bytes |
| PmpSpec.ThreeBlocksDisagree | src/pmp.cpp:224-232 | Counterexample for every access of more, at any grain: two writes from reset put one region strictly inside it, which the check passes over |
| PmpSpec.AlignedTouchesTwoGranules | src/pmp.cpp:211-239 | Every naturally aligned access of 1, 2, 4 or 8 bytes is one |
| PmpSpec.CheckIsSpecExactly | src/pmp.cpp:211-239 | Over all configurations that writes reach, at any grain, the check is the architecture's exactly for accesses of at most two blocks, or if no entry is usable |
| Pmp.PagePermitsMeansCheck | src/pmp.cpp:241-258 | A page-wide yes is a yes for every access inside the page, aligned or not |
| PmpSpec.PageIsSpec | src/pmp.cpp:241-258 | The page-wide answer is the architecture's check of an access to every byte of the page, in every configuration |
| PmpLocks.WriteCfgEntry | src/pmp.cpp:149-187 | A pmpcfg write gives each of its eight entries its own legalised byte, locked and unusable ones none, and the others nothing |
| PmpLocks.LockHolds | src/pmp.cpp:149-209 | Under any sequence of writes a locked entry keeps its permissions and its region, TOR bottoms included, unless its bottom is movable; with grain 0 none is |
| PmpLocks.MovableMovesRegion | src/pmp.cpp:20-30 | Counterexample for every movable entry with a region: turning the previous entry's NAPOT mode on or off changes how its address reads, and so the region the locked entry matches |
| PmpLocks.LockHoldsExactly | src/pmp.cpp:149-209 | What a locked entry permits, and where, no sequence of writes ever changes -- exactly if its bottom is not movable or its region is empty |
| PmpLocks.WritesKeepLegalAddrs | src/pmp.cpp:205-209 | No write puts more bits in a pmpaddr than regions can be decoded from |
| PmpLocks.LegalAddrsDecode | src/pmp.cpp:20-75 | A configuration of legal addresses is one the check can be compared with the architecture on, whatever the grain |
| PmpUnit.Unit.RebuildCache | src/pmp.cpp:109-119 | The decoded regions and the list of enabled entries are those of this hart's CSRs |
| PmpUnit.Unit.Check | src/pmp.cpp:211-239 | The check through the decoded cache is the check on the CSRs, whatever was written and whichever hart it was built for |
| PmpUnit.Unit.PagePermits | src/pmp.cpp:241-258 | The page-wide answer through the cache is the one on the CSRs |
| PmpUnit.Unit.WriteCfg | src/pmp.cpp:149-187 | The word composed byte by byte is the specified one, and the cache is stale or right |
| PmpUnit.Unit.WriteAddr | src/pmp.cpp:189-209 | A pmpaddr write under the lock rules, with the cache stale or right |
| PmpUnit.Unit.WriteOtherCsr | src/pmp.cpp:80-107 | No other CSR write, by any hart, can make the cache wrong |
| PageTables.SamePageSameWalk | src/mmu.cpp:762-1131 | Two addresses of one page are answered alike but for their low twelve bits, at any level and for Svnapot pages |
| PageTables.SetADKeeps | src/mmu.cpp:988-1054 | Setting A and D changes no other bit of an entry |
| PageTables.WalkOnlySetsAD | src/mmu.cpp:988-1054 | A walk changes memory in no way but A and D of leaves |
| PageTables.LeafAfterAD | src/mmu.cpp:808-904 | The walk to a leaf is the same walk, to the same leaf, after anyone's updates of A and D |
| PageTables.UpdatesKeepTranslations | src/mmu.cpp:988-1054 | A translation that needed no update is not changed by any walker's update |
| PageTables.WalkAgain | src/mmu.cpp:988-1131 | The walk after a walk that succeeded gives the same address with nothing more to set |
| PageTables.UnreadWordSameWalk | src/mmu.cpp:808-904 | A store to a word the descent does not read leaves the translation alone |
| WalkSpec.WalkIsArchitecture | src/mmu.cpp:762-1131 | For every access type but the shadow stack's, a walk succeeds if and only if the address is canonical, the path of pointer entries reaches a leaf PMP lets it read, the leaf's bits, SUM, MXR and the mode permit the access (U in U-mode; in S-mode no U page fetched, and loaded or stored only with SUM), A and D are set or may be, and the entry is well formed; it gives the address the leaf's bits spell, and else the cause by access type |
| WalkSpec.PathExists | src/mmu.cpp:808-904 | Every virtual address leads through such a path |
| WalkSpec.PathUnique | src/mmu.cpp:808-904 | The entries a virtual address leads through are determined: one path, one end |
| WalkSpec.FaultWritesExactly | src/mmu.cpp:988-1131 | A walk that faults has written memory exactly if it set A or D of a leaf that it then refused as ill formed, which the architecture refuses first |
| WalkSpec.MisalignedIsMarked | src/mmu.cpp:988-1131 | An input: a misaligned superpage gets its A bit and a page fault |
| WalkSpec.ShadowStackFaults | src/mmu.cpp:736-1131 | A shadow-stack access, the extension being off, faults and writes nothing |
| Translate.SameDataKeySameTranslation | src/registers.hpp:106-112 | Equal data keys at two moments of a run mean equal answers to every load, store and AMO over the same page tables |
| Translate.SameFetchKeySameTranslation | src/registers.hpp:106-112 | Equal fetch keys mean equal answers to every fetch, whatever SUM and MXR have become |
| Translate.SameGenerationSameState | src/registers.hpp:95-112 | A sum of counters that only grow is equal only if each is, so an equal sum means the same state |
| TranslateSpec.TranslationIsArchitecture | src/mmu.cpp:585-760 | A translation is none in M-mode and under Bare, and else the walk of the masked address at the privilege that acts: MPRV and MPP for loads and stores, SUM and MXR of mstatus, the mask width of the mode's register, and the fault's cause with the address given |
| Tlb.TlbKeyInjective | src/mmu.cpp:235-243 | Outside M-mode a key names its page, privilege, access type, SUM and MXR, and is never the empty key; M-mode keys would collide with S-mode ones |
| Tlb.GoodAfterUpdates | src/mmu.cpp:189-217 | Updates of A and D, anywhere, leave every hit right or over an address whose fence is owed |
| Tlb.GoodAfterInsert | src/mmu.cpp:1145-1161 | Keeping a walk that set nothing, with the leaf's level on record, leaves every hit so, the slot it overwrites included |
| Tlb.FencedOff | src/mmu.cpp:468-487 | After an address fence, whichever way it goes and whatever has been stored to the page tables since, a live entry was live before and came from no leaf of any size whose page holds the address |
| Tlb.OneEntryIsEditedOver | src/mmu.cpp:468-487 | Rewriting one entry read only on the way to a leaf over an address changes no other leaf's translations |
| Tlb.GoodAfterFence | src/mmu.cpp:468-487 | An address fence pays what is owed for the address, and everything if it flushed everything: every hit left is right or over an address still owed |
| Tlb.GoodAfterStore | src/mmu.cpp:189-217 | After stores to the page tables every hit is right or over an address a fence is now owed for |
| Tlb.OwesOnlyOutstanding | src/extensions/ext_zicsr.cpp:1905-1916 | Over any run of stores, address fences and flushes in any order, a hart owes nothing but addresses edited over since it last fenced them |
| Mmu.Harts.constructor | src/mmu.cpp:433-447 | An empty TLB for each hart, all of them right |
| Mmu.Harts.SelectHart | src/mmu.cpp:449-458 | Selecting a hart changes no hart's TLB: interleaved harts are independent |
| Mmu.Harts.Descend | src/mmu.cpp:808-904 | The loop over levels finds the specified leaf or stops for the specified reason |
| Mmu.Harts.FullWalk | src/mmu.cpp:762-1131 | The walk with its updates in place is the specified walk: cause or address, and the page tables left behind |
| Mmu.Harts.Translate | src/mmu.cpp:639-1162 | The answer and the page tables left behind are those of the translation with no TLB whenever page tables have no part, the lookup misses, or no fence is owed that could touch an entry for the address; and no hart's TLB goes wrong by it |
| Mmu.Harts.FenceAll | src/mmu.cpp:460-466 | A full fence settles all the hart owes, and touches no other hart |
| Mmu.Harts.WriteCsr | src/registers.cpp:43-98 | A CSR write leaves every TLB right; a PMP CSR, which the walk reads and which flushes nothing, leaves the hart owing everything |
| Mmu.Harts.WriteSatp | src/extensions/ext_zicsr.cpp:560-610 | satp rewritten with its own value does nothing; else a flush, and the write if the mode is one this machine has |
| Mmu.SatpKept | src/extensions/ext_zicsr.cpp:574-605 | Bit by bit, what satp keeps: mode, as many ASID bits from 44 and frame bits from 0 as are implemented |
| Mmu.Harts.WriteEnvcfg | src/extensions/ext_zicsr.cpp:2396-2404 | Writes of menvcfg and senvcfg flush, and leave nothing owed |
| Mmu.Harts.Store | src/mmu.cpp:189-217 | After stores each hart owes what it did if no translation of its changed, the addresses edited over if only theirs did, else everything |
| Mmu.Harts.FlushPage | src/mmu.cpp:475-487 | The four-slot loop, or the flush: no live entry is left from a leaf over the address whatever was stored since, the hart has paid for it, or for all, and other harts keep all of theirs |
| Fetch.HitIsFullFetch | src/doom_system.cpp:980-1020 | A halfword the cache answers is the one translation, PMP and read16 answer, from RAM, with no fault and no update of a page table |
| Fetch.WordHitIsFullFetch | src/doom_system.cpp:1022-1067 | Four bytes read at once are the instruction the two halfword fetches give |
| AccessSpec.FetchedExactly | src/extensions/ext_zicsr.cpp:1434-1540 | A halfword is fetched if and only if its page, and the next one if it straddles, translate, something answers there and the architecture's PMP check allows it at the hart's own privilege; else the trap and the address it names |
| AccessSpec.InstructionExactly | src/doom_system.cpp:1044-1067 | An instruction is that halfword alone unless its bits 0 and 1 are both set; then its upper half is the next halfword, or that one's trap |
| AccessSpec.HalfBits | src/memory.cpp:535-560 | A halfword is the byte at its address, and above it the next |
| AccessSpec.BackedExactly | src/memory.cpp:535-560 | What answers is RAM, all of the access in it, or one window of a device |
| Fetch.CacheAfterInsert | src/doom_system.cpp:1011-1018 | A page may be kept even when walking to it set A, and when a TLB entry over an owed address led to it |
| Fetch.CacheAfterFence | src/extensions/ext_zicsr.cpp:1250-1261 | Where the TLB kept its generation, dropping the one page pays for the address |
| Fetch.DroppedPageIsGone | src/extensions/ext_zicsr.cpp:1250-1261 | and leaves no page that came from a leaf of any size over it, whatever was stored since |
| Fetch.CacheAfterStore | src/doom_system.cpp:980-992 | Stores leave every page right or over an address a fence is now owed for, whatever they do to the code |
| FetchUnit.Fetcher.Fetch16 | src/doom_system.cpp:980-1020 | fetch16 is the full path -- same halfword or same trap, same page tables after -- wherever page tables have no part or no fence is owed that could touch an entry for the address |
| FetchUnit.Fetcher.FetchInstr | src/doom_system.cpp:1044-1067 | fetch_instr likewise: the same instruction, or the same trap and address |
| FetchUnit.Fetcher.WriteCsr | src/doom_system.cpp:980-992 | CSR writes by any hart leave the cache right |
| FetchUnit.Fetcher.SetPriv | src/registers.hpp:99-108 | Privilege is in the key: entries of every privilege stay right |
| FetchUnit.Fetcher.Translate | src/mmu.cpp:639-1162 | Translations by any hart leave the cache right |
| FetchUnit.Fetcher.Store | src/doom_system.cpp:980-992 | Stores by any hart leave the cache right, or over addresses whose fence is owed |
| FetchUnit.Fetcher.FencePage | src/extensions/ext_zicsr.cpp:1252-1261 | fence_page by any hart keeps the cache right; by this one it leaves no page from a leaf over the address, and pays for it |
| DataCache.HitIsFullAccess | src/extensions/ext_zicsr.cpp:1307-1319 | A load or store a cache answers goes to the address pointer masking, translation and PMP would send it to, with no fault, no update of a page table and no store the host looks at its port for |
| AccessSpec.AccessedExactly | src/extensions/ext_zicsr.cpp:1297-1540 | A load or store in one page goes through if and only if it translates, something answers there and the architecture's PMP check allows it in the mode MPRV and MPP give; else the trap: misaligned, page fault or access fault |
| AccessSpec.PortExactly | src/extensions/ext_zicsr.cpp:1359-1400 | The host looks at its port after exactly the stores that write the high half of the port's doubleword |
| DataCache.GoodAfterInsert | src/extensions/ext_zicsr.cpp:1268-1287 | A page may be kept, under the page of the unmasked address, even when walking to it set D, and when a TLB entry over an owed address led to it |
| DataCache.GoodAfterStore | src/extensions/ext_zicsr.cpp:1359-1400 | Stores, to anything, leave every entry right or over an address a fence is now owed for |
| DataCache.DroppedPageIsGone | src/extensions/ext_zicsr.cpp:1252-1261 | Where pointer masking is off for U and S, dropping the one page leaves no entry that came from a leaf over the address, whatever was stored since |
| DataCache.GoodAfterFence | src/extensions/ext_zicsr.cpp:1252-1261 | and pays for the address; with masking on, it does not |
| DataFences.FenceIsEnoughExactly | src/extensions/ext_zicsr.cpp:1252-1261 | Over all caches, edits and addresses, a fence of the address of an edit leaves every entry right exactly where pointer masking is off for U and for S |
| DataFences.StaleLoad | src/extensions/ext_zicsr.cpp:1252-1261 | Counterexample: a load through a tagged pointer, its leaf cleared, the address fenced; the cache answers the next load, which should take a page fault |
| DataUnit.DataCaches.Access | src/extensions/ext_zicsr.cpp:1297-1400 | load_virtual and store_virtual in one page are the full path -- same address or same trap, same page tables after -- wherever page tables have no part or the caches owe no fence that could touch the entry |
| DataUnit.DataCaches.FencePage | src/extensions/ext_zicsr.cpp:1252-1261 | fence_page by any hart keeps both caches right; by this one it pays for the address if pointer masking is off for U and S, and for all if everything was flushed |
| DataUnit.DataCaches.WriteCsr | src/registers.cpp:43-98 | CSR writes by any hart leave both caches right: SUM and MXR are in the key, MPRV, the masks and PMP move its generation |
| DataUnit.DataCaches.StoreAny | src/extensions/ext_zicsr.cpp:1359-1400 | Stores by any hart leave both caches right, or over addresses whose fence is owed |
| DataUnit.DataCaches.Translate | src/mmu.cpp:639-1162 | Translations by any hart leave both caches right |
| GdbWalk.GdbTranslate | src/gdb_target.cpp:246-286 | The read-only loop down the levels is the specified look, from satp, or for a guest with a bare second stage from vsatp |
| GdbWalk.SameLeafSeen | src/gdb_target.cpp:262-276 | The guest's descent and the debugger's meet the same leaf |
| GdbWalk.DebuggerSeesTranslation | src/gdb_target.cpp:246-286 | Wherever the guest's own access goes, the debugger sees it, before the access sets A and D and after |
| GdbWalk.GuestSeenAsHost | src/gdb_target.cpp:277-285 | A guest with a bare second stage is seen as a host whose satp is its vsatp, and no other guest is |
| Lockstep.OrderCounts | src/lockstep.cpp:325-351 | A hart's entries in the order are its finished records plus its record in progress |
| Lockstep.FinishedSlot | src/lockstep.cpp:408-439 | finish turns the record in progress into one finished step or two, of that hart only |
| Lockstep.FinishedOrder | src/lockstep.cpp:426-433 | The second step's entry goes right after the first's, past the hart's older ones |
| Lockstep.TakenSlot | src/lockstep.cpp:353-359 | Taking a hart's earliest record erases its earliest entry |
| Lockstep.EndedByLine | src/lockstep.cpp:460-530 | A line that begins a record ends the hart's last one with what it says by then |
| Lockstep.GrownByLine | src/lockstep.cpp:540-583 | Any other line loses and reorders no step |
| LockstepQueue.Demux.InsertInOrder | src/lockstep.cpp:426-433 | The scan for the record's own entry inserts where the specification does |
| LockstepQueue.Demux.ReadLine | src/lockstep.cpp:443-584 | One line, of whichever hart is marked, leaves the steps still to come unchanged |
| LockstepQueue.Demux.NextSail | src/lockstep.cpp:441-589 | Reads until a record is finished, at the end of the trace every record; false only when nothing is left in progress |
| LockstepQueue.Demux.NextHart | src/lockstep.cpp:361-371 | Names the hart of the earliest record begun, once it is finished; none only when no step is left |
| LockstepQueue.Demux.Next | src/lockstep.cpp:382-396 | Hands out a hart's earliest step |
| LockstepQueue.Demux.PushBack | src/lockstep.cpp:398-402 | A step pushed back is the next step again |
| LockstepQueue.Demux.NextInOrder | src/lockstep.cpp:361-396 | One step following the order is the first of those still to come |
| LockstepQueue.Demux.Run | src/lockstep.cpp:1320-1340 | Followed to the end, the interleaved trace gives every step exactly once, in the order the records began, split fetch faults right after their instruction |
| LockstepSpec.StepsAreSaid | src/lockstep.cpp:404-589 | The steps are those the trace says by position: where each record begins, whose lines are its, and what these say -- writes and stores before the trap, CSRs and the last epc after it, the last stamp before it -- an instruction and a fetch fault at another address being two |
| LockstepQueue.Demux.constructor | src/lockstep.cpp:300-351 | What a fresh demultiplexer will hand out is the steps the trace says |
| Imsic.TopIsLeast | src/imsic.cpp:40-61 | The top is the least pending, enabled, unmasked identity; 0 says none is, or delivery is off |
| Imsic.TopIsLeastSignalled | src/imsic.cpp:40-61 | The top is id if and only if delivery is on, id of 1 to 2047 has its bits of eip and eie set, no threshold of 1 to id masks it, and no lesser one is so |
| Imsic.ClaimTakesFirst | src/imsic.cpp:68-74 | A claim takes the first audible identity and leaves the rest |
| Imsic.ClaimingDrains | src/imsic.cpp:68-74 | Repeated claims give every audible identity once, in strictly increasing order, and then none |
| Imsic.SetPendingHears | src/imsic.cpp:76-81 | Making an identity pending makes it heard if enabled and unmasked, and changes no other |
| Imsic.WrittenByRegister | src/imsic.cpp:31-38 | What an indirect write to each register number makes of delivery, threshold and every pending and enable bit |
| Imsic.InterruptFile.Refresh | src/imsic.cpp:48-61 | The nested scan with whole-word skips leaves the cached top right |
| Imsic.InterruptFile.Claim | src/imsic.cpp:68-74 | The specified claim, with the cached top right |
| Imsic.InterruptFile.SetPending | src/imsic.cpp:76-81 | The specified pending bit, with the cached top right |
| Imsic.InterruptFile.WriteIndirect | src/imsic.cpp:31-38 | A write through the indirect window, with the cached top right |
| Aplic.TopIsTop | src/aplic.cpp:44-56 | topi is the waiting source of least (priority, number), priority 0 standing for 1 |
| Aplic.TopiIsLeastSignalled | src/aplic.cpp:44-56 | topi reads source n at priority p if and only if n is pending, enabled and active, its target's hart and low byte say so, no threshold masks it, and no source of a lower (priority, number) is so |
| Aplic.LineExactly | src/aplic.cpp:58-62 | The wire is up if and only if domaincfg has IE and not DM, idelivery is set, and topi is not 0 or iforce is set |
| Aplic.ClaimTakesTop | src/aplic.cpp:75-85 | A claim stops the top source waiting, for any hart, and no other |
| Aplic.ClaimingDrains | src/aplic.cpp:75-85 | Repeated claims take exactly the waiting sources, each once, best rank first |
| Aplic.ClaimsDoNotInterfere | src/aplic.cpp:75-85 | A claim by one hart takes nothing of another's |
| Aplic.WriteBits | src/aplic.cpp:104-165 | A write of any value to any address sets or clears the pending and enable bits of just the sources it names, by the addresses of the register map, a source set pending by number only if active in direct mode, and never makes source 0 pending or enabled |
| Aplic.ConfigWritten | src/aplic.cpp:104-119 | Bit by bit, and by address, what a write makes of domaincfg, of every sourcecfg and of every target |
| Aplic.DeliveryWritten | src/aplic.cpp:124-133 | And of every hart's idelivery, iforce and ithreshold |
| Aplic.AnnouncedExactly | src/aplic.cpp:104-144 | The writes that can move a hart's wire with no bump of the event counter are exactly those of domaincfg, sourcecfg and target |
| AplicEvents.ContractExactly | src/event_gen.hpp:4-20 | A step that writes a register keeps the engine's event contract, whatever the value, exactly if it is none of those three |
| AplicEvents.PokeIsMissed | src/aplic.cpp:104-144 | Counterexample for each of the three: the write lets a source through, and the next step, which should trap, does not |
| AplicEvents.SkippingIsSafeExactly | src/doom_system.cpp:551-581 | Skipping checks shows in no run of such steps, from any state with a good check and htimedelta 0, exactly if the register is none of the three |
| AplicUnit.Controller.TopiNow | src/aplic.cpp:44-56 | The scan with a running best is topi |
| AplicUnit.Controller.Line | src/aplic.cpp:58-62 | The wire to a hart |
| AplicUnit.Controller.ReadClaimi | src/aplic.cpp:64-87 | Reading claimi answers topi and claims |
| AplicUnit.Controller.AssertSource | src/aplic.cpp:146-165 | In direct mode the source goes pending; else its identity goes pending in its hart's file and in no other |
| AplicUnit.ReachedExactly | src/aplic.cpp:146-165 | A source's message makes one identity pending in one file, by bits 10 to 0 and 18 and up of its target, exactly if the source is active and domaincfg has DM and IE |
| AplicUnit.Controller.Write32 | src/aplic.cpp:104-144 | Every register write leaves the specified domain and bumps the event counter exactly where the specification says |
| Fdt.TreeIsUnique | src/fdt_patch.cpp:59-98 | A structure block says one tree at most |
| FdtFormat.WrittenTree | src/fdt_patch.cpp:20-29 | A tree written out byte by byte as the Devicetree Specification has it is the tree the tokens say |
| FdtFormat.HeaderExactly | src/fdt_patch.cpp:38-50 | The header is accepted exactly if the magic bytes are there, the blob holds the total and the total the structure block |
| Fdt.BlankedScan | src/fdt_patch.cpp:129-136 | Turning a span of tokens into NOPs takes just those tokens out |
| Fdt.RewrittenScan | src/fdt_patch.cpp:80-89 | Rewriting a value of the same length changes just that value |
| FdtTree.FindInTree | src/fdt_patch.cpp:112-138 | The depth-counting search finds exactly the first child of the root of that name |
| FdtFormat.ChildIsNamed | src/fdt_patch.cpp:112-138 | There is a node to remove exactly if a child of the root has the name |
| FdtFormat.FirstRemoved | src/fdt_patch.cpp:112-138 | What is left is every child but the first of the name, in order |
| FdtTree.RegInTree | src/fdt_patch.cpp:55-98 | The search for reg finds the first one inside the first root-level memory node that has one inside, if its value is sixteen bytes, and nothing otherwise |
| FdtFormat.FirstTarget | src/fdt_patch.cpp:55-98 | The node patched is the first memory node among the root's children with a reg inside, and the others are untouched |
| FdtFormat.FirstRegExactly | src/fdt_patch.cpp:80-89 | In it the value replaced is the first reg's in the order of the tokens, however deep |
| FdtFormat.MemoryExactly | src/fdt_patch.cpp:55-70 | A memory node is one whose name starts with the seven bytes of memory@ |
| FdtFormat.RegExactly | src/fdt_patch.cpp:72-89 | A reg is a property whose name, in the strings block, is those three bytes |
| FdtTree.OwnRegExactly | src/fdt_patch.cpp:80-89 | Over the whole tree, what the edit sets is a memory node's own reg and nothing else, for every value, exactly if in the first memory node with a reg inside no child with one comes first |
| FdtTree.WrongRegSet | src/fdt_patch.cpp:64-89 | Counterexample: a memory node with a bank before its own reg has the bank's set and its own left |
| FdtTree.PropertiesFirstIsOwn | src/fdt_patch.cpp:80-89 | It is, for a node that has one and whose properties come before its children |
| FdtPatch.WalkToNode | src/fdt_patch.cpp:110-150 | The pointer walk, with its 32-bit padding arithmetic, stops where the search over tokens does |
| FdtPatch.WalkToReg | src/fdt_patch.cpp:47-99 | Likewise for the memory node's reg |
| FdtPatch.RemoveNode | src/fdt_patch.cpp:102-151 | On any blob no byte changes but those of one span of words in the structure block, turned into NOPs, and on failure none. A well-formed blob then says the tree without the first such child |
| FdtPatch.SetMemorySize | src/fdt_patch.cpp:38-100 | On any blob no byte changes but sixteen in the structure block, which become base and size, big-endian, and on failure none. On a blob that says a tree it succeeds exactly if the tree has such a reg of sixteen bytes, and those are they |
| FdtFormat.Be64IsBig | src/fdt_patch.cpp:31-34 | Eight bytes written are the value, big-endian, modulo 2^64 |
| GdbPacket.UnescapeEscape | src/gdb_server.cpp:100-104 | Unescaping undoes escaping |
| GdbPacket.EscapedByByte | src/gdb_server.cpp:117-131 | A byte goes as itself, but for # $ * and }, which go as } and the byte with bit 5 the other way |
| GdbPacket.AnyEscapingReadsBack | src/gdb_server.cpp:100-104 | Whichever bytes the sender chose to escape, the payload reads back |
| GdbPacket.FramedExactly | src/gdb_server.cpp:117-139 | A frame is $, the payload escaped with no $ # or * left in it, # and the low byte of the sum in two lower-case hexadecimal digits |
| GdbPacket.SumAdds | src/gdb_server.cpp:91-94 | The checksum is the sum of the bytes |
| GdbPacket.DigitsRead | src/gdb_server.cpp:89 | Two hexadecimal digits of either case read as the number they write |
| GdbPacket.ChunksDoNotMatter | src/gdb_server.cpp:75-106 | However the bytes are cut into reads the parser ends alike |
| GdbPacket.FramedIsComplete | src/gdb_server.cpp:75-106 | A frame round any bytes but # is always one complete packet, Ctrl-C bytes inside it included |
| GdbPacket.RoundTrip | src/gdb_server.cpp:117-139 | A reply printed and parsed back is the reply, queued once, acknowledged, with no interrupt raised |
| GdbPacket.WireRoundTrip | src/gdb_server.cpp:75-139 | Any packets with acknowledgements and noise between them, in any chunks, queue exactly their payloads in order, with one + each, and raise an interrupt exactly if a Ctrl-C comes between packets |
| GdbPacket.OneBadByteIsRefused | src/gdb_server.cpp:84-97 | A frame with one byte of its body changed is refused, queues nothing, and the next packet starts afresh |
| GdbPacket.Server.HandleBytes | src/gdb_server.cpp:75-106 | The loop over a read's bytes is the byte-at-a-time parser |
| GdbPacket.Server.NextPacket | src/gdb_server.cpp:108-115 | Takes the oldest payload |
| GdbPacket.Send | src/gdb_server.cpp:117-139 | The loop that builds a frame builds the specified frame |

## Left out

- EngineProofs.SkippingIsInvisible: is over steps that keep the event contract, and asks of each that it take the clock past 2^64-1 quietly; `EngineProofs.SkipOneStep` is exact for a step, `ClockWrap.IdleForeverExactly` for an idling hart, and over other runs a cache that has gone wrong may be mended by the next event before it shows.
- FastRun.RunFastIsSteps: `FastRun.RunIsStepsExactly` is an equivalence for each run, while two whole run_fasts that miss something could still end alike by chance.
- Mmu.Harts.Descend: page tables are in RAM; tables in device memory are left out.
- Mmu.Harts.FullWalk: the single stage only; the guest's second stage and the branches of Zicfiss, which is off, are left out.
- Mmu.Harts.Translate: hlv, hsv, MPV and V = 1 accesses are left out with the second stage.
- Mmu.Harts.WriteEnvcfg: takes the value as legalised (reserved CBIE and PMM encodings, absent fields); the legalisation is left out.
- Mmu.Harts.Store: what a store edits over is the caller's to say, and saying less than it edits leaves the hart owing everything.
- AccessSpec.AccessedExactly: its PMP part is about accesses that touch at most two granules, as aligned ones do; what the check makes of the others `PmpSpec.CheckIsSpecExactly` says.
- CounterLaw.RunFastLaw: is about runs that are their steps, as `FastRun.QuietIsClean` has it; the added-up counters of any run are `DoomSystem.System.AddUp`.
- FetchUnit.Fetcher.Fetch16: nothing is said of an address whose fence is owed; the hart may answer from what it held, as the architecture allows.
- Tlb.FencedOff: a Svnapot leaf counts as the 4 KB page of the address used, as in the code; each of its sixteen pages is fenced by itself.
- FdtPatch.RemoveNode: a header whose offset and length wrap at 32 bits is excluded: past the checks, such a walk leaves the blob.
- FdtPatch.SetMemorySize: the same.
- FdtPatch.WalkToNode: bytes past the blob read as zero where the code's strlen would run on.
- LockstepQueue.Demux.ReadLine: parsing text into lines (hexadecimal, names, malformed lines) is left out; a line comes as what it says, and a line the code skips is `Other`.
- LockstepQueue.Demux.NextSail: the same.
- GdbWalk.DebuggerSeesTranslation: is about addresses outside a guest, whose own translations are left out.
- TickCount.RunFastFallsBehind: clock_ticks is unbounded where the code's wraps at 64 bits.
- DataUnit.DataCaches.Access: says where an access goes, not the bytes it moves: on a hit as on the full path they are copied to or from that address, and the host's counters of framebuffer stores are left out.
- DataUnit.DataCaches.FencePage: with pointer masking on, the address stays owed though an entry under it alone may be gone.
- Changes of the extension set while caches are live: the epoch is in the keys, and the objects are over a fixed set.
- Loads and stores that straddle a page boundary, which use neither data cache; fetches that do are modelled.
- Instruction semantics, the timer and the decoder: abstract functions with the contracts above.
- -cycle-clock other than in `Waits.SingleHart.RunWait`, cosim and lock-step tracing inside a round, the debugger's halts other than as a flag, and record/replay.
- Device reads by a fetch: the halfword a device gives is a function of its address, without side effects.
- Wrap-around of the generation counters at 64 bits: they are unbounded.
- Sockets, threads, files, the window and the dashboard, host audio and GPU, option parsing and the Python scripts.
- DoomSystem::run_fast's inlined fetch and data-cache tests: part of the abstract simple instruction.
