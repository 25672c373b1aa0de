# A RISC-V machine inside PostgreSQL, modelled in Dafny

The repository runs an RV64 machine inside a database worker: an interpreter, two translators of guest
code, an Sv39 MMU with a TLB, a virtio disk, an interrupt controller, write-back persistence of the disk
and a mailbox between client backends and the worker. Most of its design promises that a fast form does
what a simple form does. This project models those parts and proves the promises.

| files | what they model |
|---|---|
| `Wrappers`, `Words`, `BitWords`, `Memory`, `Xor` | optional values, C integers, bit tests, little-endian memory, two's-complement XOR |
| `MulDiv`, `Interp`, `Hart` | the M extension; `rv64_step`: a step as a function, and the fields updated in place |
| `Ir`, `Emit`, `Jit`, `RunLoop` | the SLJIT code as a small machine, its emission per instruction, the block compiler, the run loop with its block cache |
| `Sv39`, `Tlb`, `Mmu` | page tables and the walk, the TLB and its invariant, translation and the load and store paths over RAM and TLB arrays |
| `System`, `Bus` | the MMU as the memory of interpreter, blocks and run loop; UART, timer, interrupt controller and virtio registers below it |
| `Traps`, `Plic`, `Board` | traps, returns and interrupt delivery; claims; the two wired together |
| `Virtio`, `VirtioRings`, `VirtioDisk` | the block device over RAM and disk arrays, its rings, its data path |
| `Persist`, `DiskReports` | dirty bitmap, flush, overlay at boot; the device and the bitmap together |
| `Mailbox` | client and worker with their latches, as a state machine over interleaved steps |
| `RiscvImm`, `MipsImm` | constant synthesis of two code generators |
| `Arm64` | the older ARM64 emitter: constants and the patched branch tail, on encoded words |
| `Find` | the search loop of `vm_find` |

`dafny verify dfyconfig.toml` checks everything.

Where code that works in place is modelled, a class holds its fields and arrays, and each method's contract
equates the new state with a specification function of the old one (`Interp.Step`, `Sv39.TranslateSpec`,
`Mmu.LoadSpec`, `Virtio.Notify`, `Persist.Flush`, `Traps.Check`, ...); the promises are then lemmas about those
functions. Memory below the block compiler, and devices below the MMU, are arbitrary values with arbitrary
load and store functions. `System` puts the MMU under the interpreter and the run loop. The run loop can attempt
a faulting access up to three times: in the block it is met in, in the block that starts at its pc, and in the
interpreter. `System` shows when the repetitions do no harm, and `Bus` that the devices of this machine never stand
in the way: what reacts to an access lies far from the end of a page.

## What turned out not to hold

Each of these has a lemma with a concrete case and one with the exact condition; the main results are stated
under that condition.

* The block compiler never looks at the M extension and emits the base operation of the same funct3, so MUL adds
  (`Jit.MultiplicationDiverges`). `Emit.OpSimulates` and `Emit.Op32Simulates`: block and interpreter agree exactly
  on operands with equal results. `Emit.WordsThatAgree`: for all registers, exactly where rd is x0 or the operands
  that matter are.
* LBU, LHU and LWU keep all bits a device returns in the interpreter, but are masked in a block
  (`Jit.WideByteLoadDiverges`; the timer answers so, `Bus.TimeIsWide`). `Emit.LoadSimulates`: they agree exactly if
  the load faults, has no destination, or the value fits. On this machine LWU always does (`Bus.LwuInScope`).
* A block that is cut because it has recorded more than 60 exits, and runs to its end, leaves the pc of its last
  instruction (`Jit.CutBlockLeavesStalePc`). `Jit.CompileBlock` states when and what; the run loop requires it of
  no pc on its path.
* The inline load and store paths do not test for M-mode (`Mmu.MachineModeReadsAnotherPage`). `Mmu.MachineModeLoad`
  and `Mmu.MachineModeStore`: there they are right exactly when the cached frame is the addressed page itself.
* A flush stores blocks under VM 1 whichever VM was booted, and a boot reads the rows of its own VM
  (`Persist.VmTwoLosesItsWrite`). `Persist.RebootFinds`, `Persist.OnlyVmOneRestores` and, for VM 1 after
  another VM's flushes, `Persist.VmOneFinds` say what each VM finds. The other results on persistence are about VM 1.
* A driver reset clears the dirty callback, so that what the guest writes afterwards is not marked dirty
  (`DiskReports.ResetLosesWrites`, for any queue and request). `DiskReports.TrackedUnlessReset`: the callback is set
  exactly as long as no store has been a reset; until then nothing changes unreported (`DiskReports.RunReports`).
* A command posted after HALT is dropped, with result code 0, if the worker has not left yet
  (`Mailbox.DroppedAfterHalt`). `Mailbox.ExecutedUnlessAfterHalt`: a call is executed exactly if no earlier command
  was HALT.

With compressed instructions the RISC-V constant loader cannot aim C.LUI at x2; `RiscvImm.LoadEncodable` says for
which constants that matters. The wire to S-mode also follows source 0, which no claim returns
(`Plic.SourceZeroAlone`), but no run of the board makes that source pending (`Plic.OnlyDevicesPend`), so there SEIP
always means that a claim returns a source (`Board.SeipAlwaysMeansClaimable`).

## Model

| member | source | states |
|---|---|---|
| `RunLoop.Runner.RunTurns` | extension/rv64_cpu.c:1566-1644 | However the turns of the run loop are divided between translated blocks and `rv64_step`, the guest is on the path of pure interpretation, traps included, and the counters advance by the instructions completed; every turn makes progress. Asked of the places that so many turns can reach, and of no others |
| `RunLoop.Runner.JitExec` | extension/rv64_sljit.c:687-710 | A call returns how many instructions completed and leaves the CPU in the state of that many interpreter steps (plus the effect of a faulting attempt), whether the block came from the cache or was compiled; only a cut block that runs to its end leaves the pc of its last instruction |
| `RunLoop.Runner.FindBlock` | extension/rv64_sljit.c:687-701 | The block used for a pc was compiled for that very pc, and the cache keeps only blocks that agree with the interpreter, cut ones up to the stale pc |
| `RunLoop.Runner.Interpret` | extension/rv64_cpu.c:1632-1637 | The fallback turn: the in-place step of `Hart.Cpu`, and the trap where it raises |
| `RunLoop.BlockFollows` | extension/rv64_cpu.c:1620-1629 | From any place of the path, also one where a fault is pending, a translated run stays on the path |
| `RunLoop.PathContinues` | extension/rv64_cpu.c:1620-1629 | A translated run that completes k instructions moves along the path by them, and by a trap that the floating-point helper has delivered |
| `RunLoop.StoppedRun` | extension/rv64_cpu.c:1620-1633 | Entering a block at an instruction that has just faulted completes nothing and changes nothing, so the loop falls back to `rv64_step` |
| `RunLoop.StepFollows` | extension/rv64_cpu.c:1632-1637 | The interpreter step after a block completes, or takes the trap that pure interpretation takes there |
| `System.MmuPathInScope` | extension/rv64_cpu.c:50-187 | Over the MMU and devices that are quiet and steady at page ends the run loop needs no stability assumption: it asks nothing of the loads on its path, and of page-crossing stores that they do not edit page tables |
| `System.MmuFaultIsStable` | extension/rv64_cpu.c:50-187 | The fault of any load, and of such a store, repeated at once, is the same fault with no further effect |
| `System.WithinPageIsStable` | extension/rv64_cpu.c:107-114 | Within a page a fault has no effect at all, whatever RAM and devices hold |
| `System.CrossingLoadIsStable` | extension/rv64_cpu.c:94-106 | The fault of a page-crossing load is met again with no further effect, whatever RAM and device pages it reads |
| `System.CrossingStoreIsStable` | extension/rv64_cpu.c:170-179 | The fault of a page-crossing store that does not edit page tables is met again with no further effect, whatever RAM and device pages it writes |
| `System.LoadAgain` | extension/rv64_cpu.c:94-106 | The byte loop of a load run again after its fault: same fault code, nothing changes |
| `System.StoreAgain` | extension/rv64_cpu.c:170-179 | The byte loop of a store run again after its fault: same result, nothing changes |
| `System.TranslationSettles` | extension/rv64_mmu.c:205-230 | After a translation the page translates to the same frame with no more effect |
| `System.TouchKeepsSettled` | extension/rv64_mmu.c:205-210 | Translating any other address keeps such pages that way |
| `System.LoadOnNewPage` | extension/rv64_cpu.c:94-106 | Once the byte loop of a load is on its second page, it faults at once or not at all |
| `System.NewPage` | extension/rv64_cpu.c:170-179 | The same for the byte loop of a store |
| `System.FaultingTail` | extension/rv64_cpu.c:170-179 | The rest of a store that ends in a fault leaves every byte stored on the first page as stored, in RAM and in devices |
| `System.DeviceIsReadTwice` | extension/rv64_cpu.c:94-106 | For arbitrary devices and any size: the fault of a load that begins on a device page is stable if and only if reading the same device bytes again leaves the devices alone |
| `Bus.BusPathInScope` | extension/rv64_bus.c:250-368 | On the devices of this machine the run loop asks nothing of the loads on its path, and of page-crossing stores only that their RAM bytes do not edit page tables |
| `Bus.BusFaultIsStable` | extension/rv64_bus.c:250-368 | There the fault of every load, and of every such store, is met again with no further effect |
| `Bus.EdgesAreQuiet` | extension/rv64_bus.c:250-303 | No read in the last seven bytes of a page changes a device |
| `Bus.EdgesAreSteady` | extension/rv64_bus.c:305-368 | A byte stored in the last seven bytes of a page leaves RAM alone, and storing it again has no effect, whatever has been stored to other such bytes in between |
| `Bus.EdgeStore` | extension/rv64_bus.c:305-368 | What such a store does: the upper half of mtime, or a line that is raised, or nothing |
| `Bus.RamBytesSuffice` | extension/rv64_cpu.c:170-179 | The device bytes of a page-crossing store never reach RAM, so only its RAM bytes can edit page tables |
| `Bus.OnlyFourReadsAct` | extension/rv64_bus.c:28-217 | A read changes a device at four addresses only: receive buffer, interrupt identification, and the two claims |
| `Bus.OnlyNotifyReachesRam` | extension/rv64_bus.c:305-368 | A store to a device changes RAM only by notifying a queue |
| `Bus.WordLoadFits` | extension/rv64_bus.c:250-303 | A four-byte load answers with at most 32 bits, wherever it is served |
| `Bus.LwuInScope` | extension/rv64_sljit.c:577-596 | So LWU is always in scope of the block compiler on this machine |
| `Bus.TimeIsWide` | extension/rv64_bus.c:118-136 | A one-byte load of mtime answers with more than a byte |
| `Jit.CompileBlock` | extension/rv64_sljit.c:390-682 | The compiled block covers exactly the instructions up to the first untranslatable one, block end or limit, and for every guest that enters at its pc, running it returns the number of completed instructions with the registers, memory and pc of that many interpreter steps; a block cut by the exit limit and run to its end leaves the pc of its last instruction instead of the next one |
| `Jit.Translate` | extension/rv64_sljit.c:412-657 | Appending one instruction (code, counter increment, pc update, exit bookkeeping) extends the agreement with the interpreter by one step |
| `Jit.Finish` | extension/rv64_sljit.c:659-666 | Setting every recorded jump to the epilogue makes early exits return the number of completed instructions, with the pc at the one that did not |
| `Jit.Grows` | extension/rv64_sljit.c:577-657 | For all guests: if the code so far agrees with n steps, the code with the next instruction agrees with n + 1 |
| `Jit.ChunkRuns` | extension/rv64_sljit.c:648-656 | The code of one instruction, counter and pc update included, does one interpreter step, or jumps out with the counter unchanged and the state of the faulting attempt |
| `Jit.Finishes` | extension/rv64_sljit.c:659-666 | The epilogue turns running and jumping machines alike into returned ones with the right count |
| `Jit.Leftovers` | extension/rv64_sljit.c:444-466 | What an instruction that turns out to be untranslatable has already emitted changes nothing a guest can see |
| `Jit.InterpreterRaisesTheTrap` | extension/rv64_sljit.c:664-666 | After an early exit, one interpreter step from the state left behind raises the very trap of the stopped run, if the access at which it stopped faults again |
| `Jit.RaisesAgain` | extension/rv64_cpu.c:1103-1104 | One step of that: the repeated instruction raises the same cause and value in the same state |
| `Jit.MultiplicationDiverges` | extension/rv64_sljit.c:444-465 | A concrete guest on which MUL is translated as an addition |
| `Jit.WideByteLoadDiverges` | extension/rv64_cpu.c:1105-1111 | A concrete device answer on which LBU keeps more than a byte in the interpreter and one byte in the block |
| `Jit.CutBlockLeavesStalePc` | extension/rv64_sljit.c:595-609 | A concrete block of 61 loads, compiled with the default limit, that completes and leaves the pc of its last instruction |
| `Jit.LoadsBlockLength` | extension/rv64_sljit.c:409-412 | Code that is nothing but loads is cut after exactly 61 instructions |
| `Emit.InsnSimulatesExactly` | extension/rv64_sljit.c:434-628 | For every supported legal instruction the emitted operations do the interpreter's step, retire or fault, if and only if the instruction is in scope |
| `Emit.OpSimulates` | extension/rv64_sljit.c:444-466 | Register arithmetic: translated and interpreted step agree exactly on the operands with equal results, which outside the M extension is all of them |
| `Emit.Op32Simulates` | extension/rv64_sljit.c:490-502 | The same for the 32-bit register forms, whatever the undefined upper half of the result |
| `Emit.LoadSimulates` | extension/rv64_sljit.c:577-596 | Loads: the block does the interpreter's step if and only if the load faults, has no destination, or answers with a value that fits its width |
| `Emit.WordsThatAgree` | extension/rv64_sljit.c:444-466 | Which OP words of the M extension are translated correctly for all registers: a condition on rd, rs1, rs2 and funct3 only, necessary and sufficient |
| `Emit.WordsThatAgree32` | extension/rv64_sljit.c:490-502 | The same for the OP-32 words that are translated |
| `MulDiv.SignedHalves` | extension/rv64_cpu.c:1165-1166 | MULH and MUL are the halves of the signed product |
| `MulDiv.UnsignedHalves` | extension/rv64_cpu.c:1165-1168 | MULHU and MUL are the halves of the unsigned product |
| `MulDiv.DivRem` | extension/rv64_cpu.c:1169-1171 | DIV and REM of a defined division: quotient times divisor plus a smaller remainder with the sign of the dividend |
| `Emit.OpImmSimulates` | extension/rv64_sljit.c:467-489 | Immediate arithmetic, with the sign extension done on 32 bits |
| `Emit.OpImm32Simulates` | extension/rv64_sljit.c:503-515 | 32-bit immediate forms |
| `Emit.JalSimulates` | extension/rv64_sljit.c:526-535 | JAL: link register and target |
| `Emit.JalrSimulates` | extension/rv64_sljit.c:536-546 | JALR: the target is computed before the link register is written |
| `Emit.BranchSimulates` | extension/rv64_sljit.c:547-576 | Conditional branches: two forward jumps leave the interpreter's next pc |
| `Emit.StoreSimulates` | extension/rv64_sljit.c:597-610 | Stores and their fault exit |
| `Emit.FpSimulates` | extension/rv64_sljit.c:611-627 | Floating-point helper call: pc synchronised before, exit on failure |
| `Emit.SameImmI` | extension/rv64_sljit.c:467-468 | The compiler's 32-bit arithmetic shift decodes the same I-immediate as the interpreter's flip-and-subtract |
| `Emit.SameImmS` | extension/rv64_sljit.c:597-601 | The same S-immediate |
| `Emit.SameOffJ` | extension/rv64_sljit.c:526-529 | The same jump offset |
| `Emit.SameOffB` | extension/rv64_sljit.c:547-550 | The same branch offset |
| `Emit.JunkIsHidden` | extension/sljit_src/sljitLir.h:1234-1387 | A 32-bit operation's unspecified upper bits disappear in the sign extension that follows |
| `Ir.JumpPassesThrough` | extension/sljit_src/sljitLir.h:1234-1387 | A pending forward jump skips code that does not hold its label |
| `Ir.ExecAppend` | extension/sljit_src/sljitLir.h:1234-1387 | Running two pieces of code is running one after the other |
| `Ir.LinkingElsewhere` | extension/rv64_sljit.c:659-662 | Setting labels that a piece of code does not contain does not change what it does |
| `Hart.Cpu.Step` | extension/rv64_cpu.c:1002-1448 | `rv64_step` with registers, pc and memory changed in place does exactly the specified step: retire, trap cause and value, and the whole state |
| `Hart.Cpu.Dispatch` | extension/rv64_cpu.c:1043-1442 | Every opcode of the integer part updates registers, next pc and memory as specified |
| `Hart.Cpu.Branch` | extension/rv64_cpu.c:1070-1086 | A branch changes the next pc exactly when taken; the two missing conditions trap |
| `Hart.Cpu.Load` | extension/rv64_cpu.c:1088-1113 | A load writes the extended value, or traps with the memory's fault |
| `Hart.Cpu.Store` | extension/rv64_cpu.c:1115-1131 | A store writes memory, or traps |
| `Mmu.Machine.Translate` | extension/rv64_mmu.c:44-259 | With a coherent TLB the result, the fault code and the RAM afterwards are those of the walk without TLB, the TLB stays coherent, and a fault changes neither RAM nor TLB |
| `Mmu.Machine.Lookup` | extension/rv64_mmu.c:60-110 | A hit needs tag, permission, privilege and, for a write, the dirty flag |
| `Mmu.Machine.FindEntry` | extension/rv64_mmu.c:134-160 | The three-level loop finds the leaf that the tables hold |
| `Mmu.Machine.Miss` | extension/rv64_mmu.c:112-259 | After a failed lookup: the walk, with its A/D write and the new TLB entry |
| `Mmu.Machine.Install` | extension/rv64_mmu.c:205-251 | A and D bits in RAM, the address, the TLB slot; coherence survives |
| `Mmu.Machine.Load` | extension/rv64_cpu.c:50-114 | Value, fault and RAM are those of translation without TLB followed by the bus, for sizes 1, 2, 4 and 8, page-crossing ones included, except on an inline hit in M-mode; an inline hit reads the cached frame and changes nothing, in every mode |
| `Mmu.Machine.Store` | extension/rv64_cpu.c:120-187 | The same for stores, with an inline hit writing the cached frame, and a device free to write RAM; the TLB stays coherent when no page-table entry changes |
| `Mmu.Machine.InlineLoad` | extension/rv64_cpu.c:57-88 | The inline test: tag, permission, privilege, host pointer, no page crossing |
| `Mmu.Machine.SlowLoad` | extension/rv64_cpu.c:91-114 | The slow path, in every mode |
| `Mmu.Machine.SlowStore` | extension/rv64_cpu.c:167-187 | The slow path of stores, in every mode |
| `Mmu.Machine.LoadAcross` | extension/rv64_cpu.c:94-106 | Each byte of a page-crossing load has its own translation |
| `Mmu.Machine.StoreAcross` | extension/rv64_cpu.c:170-179 | Each byte of a page-crossing store has its own translation; bytes before a fault stay written |
| `Mmu.Machine.WriteSatp` | extension/rv64_cpu.c:356-369 | Unsupported modes read back as Bare, and every write empties the TLB, so that Bare mode never sees an entry |
| `Mmu.Machine.Flush` | extension/rv64_mmu.c:22-32 | An empty TLB, coherent with any tables |
| `Mmu.FastPathIsTranslation` | extension/rv64_cpu.c:57-88 | On a hit, host pointer plus page offset is the RAM byte that the walk finds |
| `Mmu.FastLoadIsSpec` | extension/rv64_cpu.c:57-88 | The inline load equals translation and bus |
| `Mmu.FastStoreIsSpec` | extension/rv64_cpu.c:143-164 | The inline store equals translation and bus |
| `Mmu.MachineModeLoad` | extension/rv64_cpu.c:57-88 | In M-mode the inline load gives the bus's answer for all devices and all other contents of RAM if and only if the cached frame is the addressed page itself |
| `Mmu.MachineModeStore` | extension/rv64_cpu.c:143-164 | The same for the inline store |
| `Mmu.MachineModeReadsAnotherPage` | extension/rv64_cpu.c:57-88 | A concrete gigapage entry, installed in S-mode and hit in M-mode, where a load of address 0 reads the start of RAM |
| `Mmu.CoherenceTransfers` | extension/rv64_mmu.c:205-210 | Coherence depends on the leaf entries of the tables only |
| `Tlb.HitIsWalk` | extension/rv64_mmu.c:65-107 | A hit on a coherent entry is what the whole walk would answer, which would leave RAM alone |
| `Tlb.WalkKeepsCoherence` | extension/rv64_mmu.c:205-247 | The walk's A/D write and the slot it fills leave every entry coherent, shared and aliased tables included |
| `Tlb.TouchingKeepsEntry` | extension/rv64_mmu.c:205-210 | Setting A and D in one leaf keeps any coherent entry coherent |
| `Tlb.FilledIsCoherent` | extension/rv64_mmu.c:232-247 | The installed entry agrees with the tables as the walk leaves them |
| `Tlb.WalkAddressIs` | extension/rv64_mmu.c:212-230 | The or-ed address of the three page sizes is frame times 4096 plus offset |
| `Tlb.HitAddressIs` | extension/rv64_mmu.c:99-105 | A hit's or-ed offset repeats bits of the cached frame and adds the page offset only |
| `Sv39.TouchingKeepsLeaves` | extension/rv64_mmu.c:205-210 | Writing A/D into one aligned leaf entry changes no page's leaf except for those bits in that entry |
| `Sv39.TouchedKeeps` | extension/rv64_mmu.c:206-208 | Setting A and D preserves all other fields of an entry |
| `Sv39.LeafIsAligned` | extension/rv64_mmu.c:137-160 | Every leaf the walk finds stands at an aligned address |
| `Memory.ReadBack` | extension/rv64_bus.c:250-262 | A little-endian store is read back |
| `Traps.SupervisorTrapReturns` | extension/rv64_cpu.c:430-477 | A trap to S-mode, any number of machine-level traps with their MRETs during its handler, then SRET: pc, privilege and SIE are those of the interruption, and mstatus differs only in the previous-state fields the returns overwrite |
| `Traps.HandlerKeepsState` | extension/rv64_cpu.c:455-477 | Induction over the handler's run: what SRET needs is untouched by nested machine-level traps |
| `Traps.MachineTrapIsTransparent` | extension/rv64_cpu.c:1337-1351 | One machine-level trap and its MRET resume S-mode at the same pc |
| `Traps.EnterLeaveM` | extension/rv64_cpu.c:461-469 | MRET undoes the mstatus changes of a trap to M-mode |
| `Traps.EnterLeaveS` | extension/rv64_cpu.c:436-446 | SRET undoes the mstatus changes of a trap to S-mode |
| `Traps.TakenWhereItGoes` | extension/rv64_cpu.c:554-575 | The take test of an interrupt and the target that `trap` picks always agree |
| `Traps.DeliveryLowersRank` | extension/rv64_cpu.c:496-583 | A delivery strictly lowers the number of further deliveries possible |
| `Traps.AtMostTwoDeliveries` | extension/rv64_cpu.c:496-583 | From any state at most two interrupts are delivered before an instruction runs |
| `Traps.Cpu.CheckInterrupts` | extension/rv64_cpu.c:496-583 | Delivers the first row of the table that is pending, enabled and deliverable, and nothing otherwise |
| `Traps.Cpu.Trap` | extension/rv64_cpu.c:388-478 | Delegation, saved pc, cause, value, mstatus, privilege and vector |
| `Traps.Cpu.MachineReturn` | extension/rv64_cpu.c:1337-1351 | MRET, or an illegal-instruction trap below M-mode |
| `Traps.Cpu.SupervisorReturn` | extension/rv64_cpu.c:1353-1365 | SRET, or an illegal-instruction trap in U-mode |
| `Traps.Cpu.Take` | extension/rv64_cpu.c:558-572 | The take test for one row |
| `Plic.Controller.Claim` | extension/rv64_bus.c:202-214 | A claim returns the lowest pending and enabled source, clears its pending bit and records it; 0 changes nothing |
| `Plic.Controller.ExternalPending` | extension/rv64_cpu.c:513-524 | The word-wise test is set intersection |
| `Plic.SeipMeansClaim` | extension/rv64_cpu.c:513-524 | On any two sets of sources: the wire is raised exactly when a claim would return non-zero, if and only if source 0 is not the only one pending and enabled |
| `Plic.SourceZeroAlone` | extension/rv64_cpu.c:513-524 | The excepted case |
| `Plic.OnlyDevicesPend` | extension/rv64_bus.c:322-382 | Whatever is raised by the three devices, claimed and enabled, source 0 is never pending |
| `Board.Board.CheckInterrupts` | extension/rv64_cpu.c:496-583 | `check_interrupts` over the controller's registers: SEIP is set if and only if a context-1 claim would return a source, and the first deliverable interrupt is taken |
| `Board.SeipAlwaysMeansClaimable` | extension/rv64_cpu.c:513-524 | After any run of the interrupt lines |
| `Plic.Controller.Raise` | extension/rv64_bus.c:322-382 | Raising a line adds one pending source |
| `Plic.ClaimIsLeast` | extension/rv64_bus.c:202-214 | A claim is the least ready source and removes just that one |
| `Plic.ClaimsAscend` | extension/rv64_bus.c:202-214 | Repeated claims return ready sources in ascending order, then zeros |
| `Plic.ClaimsAreComplete` | extension/rv64_bus.c:202-214 | Enough claims return every ready source |
| `Plic.ClaimsLeaveTheRest` | extension/rv64_bus.c:202-214 | Afterwards claims return 0, and exactly the sources that are not enabled are still pending |
| `Virtio.Device.ProcessQueue` | extension/rv64_virtio.c:64-233 | The nested loops over RAM, disk and rings, changed in place, end and leave exactly the specified state |
| `Virtio.Device.HandleRequest` | extension/rv64_virtio.c:91-227 | One chain, its status byte and its used element |
| `Virtio.Device.WalkChain` | extension/rv64_virtio.c:91-183 | The descriptor loop, at most queue-size descriptors long |
| `Virtio.Device.Transfer` | extension/rv64_virtio.c:128-178 | One data segment: bytes, sector, count, dirty notification, status |
| `Virtio.Device.FindLast` | extension/rv64_virtio.c:186-197 | The second walk to the status descriptor, unreadable descriptors included |
| `Virtio.Device.AddUsed` | extension/rv64_virtio.c:207-225 | The used element and the 16-bit used index |
| `Virtio.PendingDrops` | extension/rv64_virtio.c:80-228 | The measure: entries still to be consumed, modulo 2^16 |
| `VirtioRings.NotifyDrains` | extension/rv64_virtio.c:64-233 | One notification of a well-formed queue consumes all available entries, advances the used index by their number modulo 2^16, raises the interrupt if there were any, and leaves each head in the used ring in order when they fit |
| `VirtioRings.ConsumeDrains` | extension/rv64_virtio.c:80-228 | The queue loop, by induction over the pending entries |
| `VirtioRings.IterationIs` | extension/rv64_virtio.c:80-228 | One iteration adds its element at the used index and leaves table and available ring alone |
| `VirtioRings.ChainKeeps` | extension/rv64_virtio.c:91-183 | A chain of any shape, cyclic ones included, writes neither table nor rings |
| `VirtioRings.FillKeepsOrder` | extension/rv64_virtio.c:207-225 | Up to a ring's worth of completions keep their elements, across the wrap of the index |
| `VirtioRings.UsedAdvances` | extension/rv64_virtio.c:207-225 | On bytes: the index grows by one and one slot changes |
| `VirtioDisk.WriteThenRead` | extension/rv64_virtio.c:128-178 | Sectors written through one segmentation read back the same through any other, for any later request on any queue; the rest of the disk is unchanged |
| `VirtioDisk.WriteRequest` | extension/rv64_virtio.c:149-170 | A write that fits puts the segments' bytes on consecutive sectors, reports each range, its status byte reads OK, and the byte count is the sum of the lengths |
| `VirtioDisk.ReadRequest` | extension/rv64_virtio.c:131-148 | A read that fits delivers the sectors into the segments, unharmed by status byte and used ring, its status byte reads OK, and the byte count is the sum of the lengths |
| `VirtioDisk.StatusByteExact` | extension/rv64_virtio.c:185-199 | The driver finds status OK after a read or write if and only if every data segment lay on the disk and in RAM |
| `VirtioDisk.StatusExact` | extension/rv64_virtio.c:128-178 | The same inside the descriptor loop |
| `VirtioDisk.OtherTypes` | extension/rv64_virtio.c:171-177 | FLUSH and unsupported requests change neither RAM nor disk; an unsupported one that carries data reports so |
| `VirtioDisk.ChainServes` | extension/rv64_virtio.c:91-183 | Re-reading the descriptor table after every transfer makes no difference on a well-formed queue |
| `VirtioDisk.WriteServed` | extension/rv64_virtio.c:149-170 | All data segments of a write |
| `VirtioDisk.ReadServed` | extension/rv64_virtio.c:131-148 | All data segments of a read |
| `VirtioDisk.GatherScatter` | extension/rv64_virtio.c:35-53 | Bytes spread over disjoint buffers are collected again unchanged |
| `VirtioDisk.StatusArrives` | extension/rv64_virtio.c:185-199 | The status byte is in its buffer when the driver looks |
| `VirtioDisk.LastVisited` | extension/rv64_virtio.c:186-197 | The second walk ends at the descriptor where the first one ended |
| `Persist.NothingIsLost` | extension/rv64_pgext.c:324-377 | After any run of guest writes, flush ticks and restarts, ceil(d/256) flushes empty the bitmap, and the next boot rebuilds the disk byte for byte |
| `Persist.RunKeeps` | extension/rv64_pgext.c:267-275 | Over any such run every clean block equals its stored copy |
| `Persist.WriteKeeps` | extension/rv64_pgext.c:267-275 | A write that reports the ranges it touched keeps that invariant |
| `Persist.FlushKeeps` | extension/rv64_pgext.c:324-377 | A flush keeps it |
| `Persist.FlushReduces` | extension/rv64_pgext.c:344-370 | A flush reduces d dirty blocks by the smaller of d and 256 |
| `Persist.FlushesReduce` | extension/rv64_pgext.c:344-370 | k flushes without writes reduce them by the smaller of d and 256 k |
| `Persist.BootKeeps` | extension/rv64_pgext.c:1359-1391 | Boot establishes the invariant again with an empty bitmap |
| `Persist.OverlayIs` | extension/rv64_pgext.c:1365-1391 | The overlay gives every block its table row, or the image where there is none, in any row order |
| `Persist.CleanBootRestores` | extension/rv64_pgext.c:1365-1391 | With nothing dirty, boot restores the disk |
| `Persist.CrashKeepsCleanBlocks` | extension/rv64_pgext.c:1365-1391 | Without a final flush, boot still restores every clean block |
| `Persist.MarkAllIs` | extension/rv64_pgext.c:267-275 | A block is dirty after the callback exactly if it was before or a range touches it |
| `Persist.RangeMeetsBlock` | extension/rv64_pgext.c:271-273 | The block interval of the callback is the set of blocks that the range touches |
| `Persist.DirtyAfter` | extension/rv64_pgext.c:76-81 | The bitmap macros set, clear and read one bit each |
| `Persist.Worker.FlushDirtyBlocks` | extension/rv64_pgext.c:324-377 | The flush loop over bitmap and table in place |
| `Persist.Worker.DirtyCallback` | extension/rv64_pgext.c:267-275 | The callback's loop over the bitmap |
| `Persist.Worker.OverlayBlocks` | extension/rv64_pgext.c:1365-1391 | The overlay loop over the disk in place |
| `Persist.RebootFinds` | extension/rv64_pgext.c:358-362 | After a full flush a reboot of VM 1 finds the disk it left, and a reboot of any other VM the disk that its previous boot found |
| `Persist.OnlyVmOneRestores` | extension/rv64_pgext.c:358-362 | So a reboot restores the guest's disk if and only if the VM is number 1 or the guest left the disk as it was |
| `Persist.VmTwoLosesItsWrite` | extension/rv64_pgext.c:358-362 | A concrete write of VM 2 that is stored under VM 1 and lost to VM 2 |
| `Persist.VmOneFinds` | extension/rv64_pgext.c:358-362 | After any number of flushes of any VM, with a disk of any size, a boot of VM 1 finds, byte for byte, the flushed blocks of that disk where they fit, and everything else as it would have found it before |
| `Persist.FlushesMove` | extension/rv64_pgext.c:344-370 | Flushes change the row of a block exactly if they clean it, and then to the block on the disk |
| `Persist.BootFinds` | extension/rv64_pgext.c:1365-1391 | Each byte after a boot, also from rows that do not fit the image |
| `Persist.RowOrderIsIrrelevant` | extension/rv64_pgext.c:1365-1391 | Two boots from the same rows, in whatever order, give the same disk |
| `DiskReports.NotifyKeepsBitmap` | extension/rv64_virtio.c:149-170 | A queue notification followed through the callback keeps every clean block equal to its stored copy |
| `DiskReports.NotifyReports` | extension/rv64_virtio.c:149-170 | No disk byte changes unreported, whatever the driver puts in the rings |
| `DiskReports.RunReports` | extension/rv64_virtio.c:297-397 | Over any run of register stores after which the callback is still set, every disk byte that changed has been reported |
| `DiskReports.RunKeepsBitmap` | extension/rv64_virtio.c:297-397 | Such a run, followed through the callback, keeps every clean block equal to its stored copy |
| `DiskReports.TrackedUnlessReset` | extension/rv64_virtio.c:341-356 | After any run of register stores the callback is still set if and only if it was and no store was a driver reset |
| `DiskReports.ResetSilences` | extension/rv64_virtio.c:341-356 | From then on no run of register stores reports anything |
| `DiskReports.ResetLosesWrites` | extension/rv64_virtio.c:341-356 | A driver that resets the device, sets up the same queue and notifies gets the disk and RAM it would have got without the reset, and nothing is reported |
| `Mailbox.ExactlyOnce` | extension/rv64_pgext.c:1416-1456 | In every interleaving: when a call is back and the worker has not left, all posted commands were executed exactly once and in order, the client reads its own result and the snapshot is the CPU its command left |
| `Mailbox.AtMostOnePending` | extension/rv64_pgext.c:1421-1426 | At any moment the executed commands are the posted ones, except possibly the last |
| `Mailbox.ExecutedUnlessAfterHalt` | extension/rv64_pgext.c:483-544 | Unless termination was asked for, a call that comes back was executed if and only if no earlier command was HALT |
| `Mailbox.DroppedAfterHalt` | extension/rv64_pgext.c:483-544 | A concrete run in which the command after HALT is dropped, and its call returns with result code 0 |
| `Mailbox.DroppedMeansGone` | extension/rv64_pgext.c:1435-1448 | A call that comes back without having been executed finds the worker gone |
| `Mailbox.TerminationCanWait` | extension/rv64_pgext.c:409-411 | A concrete run in which a termination request arrives between the test and the reset of the latch, and the worker blocks |
| `Mailbox.NoLostWakeUp` | extension/rv64_pgext.c:409-535 | A blocked worker with a clear latch faces a command only while the client is about to set that latch; the client's side likewise; the two never wait for each other |
| `Mailbox.CallEnds` | extension/rv64_pgext.c:1430-1451 | In any order of moves a call is back after a bounded number of them, without time-outs |
| `Mailbox.RankBound` | extension/rv64_pgext.c:1430-1451 | The rank is at most 57, so a call takes at most 58 moves once its command is posted |
| `Mailbox.RunKeeps` | extension/rv64_pgext.c:409-544 | The invariant of cell, latches and histories holds after every interleaving |
| `Mailbox.RunReplayed` | extension/rv64_pgext.c:428-458 | The worker's CPU is that of the executed commands run one after the other |
| `Mailbox.WorkerKeeps` | extension/rv64_pgext.c:409-544 | Every step of the worker |
| `Mailbox.ClientKeeps` | extension/rv64_pgext.c:1416-1456 | Every step of the client |
| `RiscvImm.LoadCorrect` | extension/sljit_src/sljitNativeRISCV_64.c:66-194 | For every signed 64-bit constant the emitted instructions are encodable and leave it in the destination (with compressed instructions, and C.LUI among them, not in the stack pointer); besides it at most the temporary changes, and only outside the short forms |
| `RiscvImm.LoadEncodable` | extension/sljit_src/sljitNativeRISCV_64.c:66-194 | That exception is exact: the code is encodable if and only if no C.LUI has x2 as its destination, a condition on register and constant |
| `RiscvImm.Load32Correct` | extension/sljit_src/sljitNativeRISCV_64.c:27-64 | The 32-bit loader, both instruction lengths |
| `RiscvImm.Load44Correct` | extension/sljit_src/sljitNativeRISCV_64.c:113-128 | Upper part, shift by 12, XORI |
| `RiscvImm.Load64Correct` | extension/sljit_src/sljitNativeRISCV_64.c:130-194 | Two interleaved halves glued by XOR, the upper one inverted when the lower one is negative |
| `RiscvImm.LoadShifted` | extension/sljit_src/sljitNativeRISCV_64.c:79-109 | Stripping, loading the odd part and shifting back |
| `RiscvImm.StripKeeps` | extension/sljit_src/sljitNativeRISCV_64.c:81-101 | The loop and the three tests remove every trailing zero bit and record how many |
| `RiscvImm.LowPartNonzero` | extension/sljit_src/sljitNativeRISCV_64.c:113-127 | The assertion before XORI on the 44-bit path never fails |
| `RiscvImm.Compiler.LoadImmediate` | extension/sljit_src/sljitNativeRISCV_64.c:66-194 | The emitter appends exactly that code |
| `RiscvImm.Compiler.LoadImmediate32` | extension/sljit_src/sljitNativeRISCV_64.c:27-64 | The 32-bit emitter appends exactly that code |
| `RiscvImm.Compiler.StripZeros` | extension/sljit_src/sljitNativeRISCV_64.c:81-101 | The stripping loop computes the stripped constant |
| `Xor.XorSplit` | extension/sljit_src/sljitNativeRISCV_64.c:126-193 | XOR of a shifted number and a small one is concatenation, inverted above a negative small one |
| `MipsImm.Compiler.LoadImmediate` | extension/sljit_src/sljitNativeMIPS_64.c:46-136 | For every signed 64-bit constant: at most six encodable instructions that leave it in the destination whatever the registers held, and change nothing else |
| `MipsImm.Normalise` | extension/sljit_src/sljitNativeMIPS_64.c:65-91 | The first normalisation ends with the bits 01 on top and 0 < shift <= 32, having shifted by 32 - shift |
| `MipsImm.NormaliseLow` | extension/sljit_src/sljitNativeMIPS_64.c:109-128 | The second normalisation ends with a one on top |
| `MipsImm.Middle` | extension/sljit_src/sljitNativeMIPS_64.c:109-131 | 0 < shift2 <= 16, and the sixteen bits inserted are the constant's |
| `MipsImm.Compiler.LoadWide` | extension/sljit_src/sljitNativeMIPS_64.c:65-107 | Constants of more than 32 bits, inverted negatives included |
| `MipsImm.Compiler.LoadDouble` | extension/sljit_src/sljitNativeMIPS_64.c:109-135 | The double-shift case |
| `MipsImm.Halves` | extension/sljit_src/sljitNativeMIPS_64.c:93-98 | The upper half of the normalised constant is the constant shifted right |
| `Find.VmFind` | extension/rv64_pgext.c:2328-2361 | The lowest address in the range at which the whole pattern is readable and matches, or nothing exactly when there is none; the loop with its backing up terminates |
| `Find.Unreadable` | extension/rv64_pgext.c:2342-2345 | An unreadable byte rules out every match that covers it |
| `Arm64.BranchAgrees` | extension/rv64_jit.c:720-789 | Executed on the CPU structure, the branch tail reaches the epilogue at the interpreter's next state |
| `Arm64.TailReaches` | extension/rv64_jit.c:720-789 | Both paths of the encoded tail store the right pc and reach the epilogue, wherever it is |
| `Arm64.Emitter.FinishBranch` | extension/rv64_jit.c:1541-1577 | After emission with a placeholder target and patching in place, the words are those of the tail aimed at the real epilogue, and the epilogue and earlier code are intact |
| `Arm64.Emitter.Branch` | extension/rv64_jit.c:720-789 | The emitted words, with the conditional jump filled in afterwards; a missing condition leaves the operands only |
| `Arm64.Emitter.PatchJumps` | extension/rv64_jit.c:1566-1577 | The loop changes exactly the jumps to the placeholder |
| `Arm64.PatchRetargets` | extension/rv64_jit.c:1566-1577 | On encoded words no other instruction is mistaken for such a jump |
| `Arm64.TailRetargets` | extension/rv64_jit.c:1553-1577 | Redirecting a tail aimed at the placeholder gives the tail aimed at the epilogue |
| `Arm64.MovCodeMoves` | extension/rv64_jit.c:49-67 | One to four words materialise any 64-bit constant and change nothing else |
| `Arm64.Emitter.MovImm64` | extension/rv64_jit.c:49-67 | The emitting loop produces these words |
| `Arm64.RoundTrip` | extension/rv64_jit.c:76-142 | The processor reads back every encoded instruction |
| `Arm64.CondIsTaken` | extension/rv64_jit.c:736-747 | The condition codes decide on the flags as the interpreter's comparisons do |

## Left out

- RunLoop.Runner.RunTurns: covers the stretch between two interrupt checks; at the places it can reach no block is cut by the exit limit, which leaves a stale pc, the two executors agree on the instruction, and a faulting access faults again, which `Bus` proves of this machine except for page-crossing stores into page tables.
- System.StoreAgain: not for stores whose bytes edit the page tables they are translated by.
- System.CrossingStoreIsStable: the same for page-crossing stores into the page tables.
- System.MmuFaultIsStable: the same for page-crossing stores into the page tables.
- System.MmuPathInScope: the same for page-crossing stores into the page tables.
- Bus.BusFaultIsStable: the same for page-crossing stores into the page tables.
- Bus.BusPathInScope: the same for page-crossing stores into the page tables.
- Bus: the devices are values, not fields updated in place, since the MMU takes them as a parameter.
- Mmu.Machine.Load: on an inline hit in M-mode it is the cached frame that is read; when that is the addressed page is said by `Mmu.MachineModeLoad`.
- Mmu.Machine.Store: the same for M-mode; a page-crossing store must keep its bytes out of the page tables, because later bytes are translated after earlier ones are written, from the TLB or from the tables.
- Mmu.Machine.SlowStore: the same for page-crossing stores into the page tables.
- Mmu.Machine.StoreAcross: the same for page-crossing stores into the page tables.
- VirtioDisk.WriteThenRead: segments of whole sectors, because the device advances by whole sectors only; ring and buffers laid out as the driver promises.
- Persist.NothingIsLost: VM 1, and a dirty callback that is installed throughout, hence no driver reset.
- Mailbox.ExactlyOnce: one client, and a worker that is not killed.
- Expansion of compressed instructions: interpreter and block compiler expand with the same case table; a fetch yields the expanded word.
- Atomics, FENCE and SYSTEM instructions in `Interp`: no translated block contains them, and the run loop stops there; likewise the signed divisions that C leaves undefined.
- Floating point: one opaque helper shared by both executors, which leaves x0 alone.
- Self-modifying code and changes of the address space: what is fetched at a pc does not change during a run, so cached blocks never become stale; flushes of the block cache are not modelled.
- What a trap does, in the run loop: any function that leaves the registers alone; `Traps` has the real one.
- WFI, clocks and the periodic interrupt check of the run loop.
- Profiling counters, watchpoints, breakpoints, sampling and logs.
- Page tables outside RAM, and RAM sizes that are not a multiple of 4096.
- Edits of page tables without a flush; `Mmu.Machine.Store` says when a store keeps the TLB coherent.
- MPP with the reserved value 2; CSRs other than those that traps, returns and interrupt checks use.
- PLIC priorities and thresholds: stored, never consulted by a claim.
- Wrap-around of a guest address plus a length, and of a disk offset plus a length, at 2^64: sums are unbounded there.
- Queue selections from 2^31 on, whose index is negative in C, and notifications of a queue of size 0, where C divides by zero: both are without effect in `Bus`.
- Statistics of the block device; what the network device does with its queues, which is a parameter of `Bus`.
- A dirty callback that is not set, in `Virtio`: it records every range that would be passed; `Bus` has the callback.
- UART input, and interrupts that devices raise outside a store.
- Queue sizes that do not divide 2^16: the ring results need slots that stay consecutive across the wrap.
- Failures of the database during a flush or a boot, and a bitmap that could not be allocated.
- Death of the worker process, several clients at once, and the command SAVE, which no client sends.
- The partial snapshot that a STEP publishes before it completes, and the debug fields that frontends edit in it.
- Page-table and TLB side effects of the loads in `vm_find`: a load is a function of its address.
- Code-buffer exhaustion and load and store emission in the older ARM64 emitter; a branch with a condition that does not exist, whose block would leave the pc unset.
- Allocation, printing and argument checks of the code generators.
