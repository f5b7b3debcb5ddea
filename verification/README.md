# ZX32: proofs about the functional machine, its firmware and its tools

This project models the ZX32 functional simulator, the assembler and loaders around it,
the M-mode SBI firmware with its shared-memory rings, the HDMI text console of the
processing-system launcher, and the AXI4 master bridge, and proves what they promise.

The models keep the form of their sources.  Objects whose methods update their fields
(the hart, the paged memory, the virtio device, the firmware's hart, the two-pass
assembler, the console, the bridge, the launcher) are classes whose methods are proved
against specification functions; the properties are proved about those functions, and
where the subject is a protocol or a run, over every interleaving and every run.

- `Words`, `Bits`, `Counters`: fixed-width words, their bits, and free-running counters.  A
  mask or a shift is `%` or `/` by a power of two, an `or` of disjoint fields is a sum, and
  every other and, or, xor is made bit by bit.
- `FlatMemory`, `PagedMemory`: memory as 2^32 bytes, and the sparse pages that refine it.
- `Sv32`, `Tlb`, `TlbRuns`: translation without a TLB and its agreement with section 4.3.2
  of the RISC-V Privileged Architecture manual (20211203); cached translations; whole runs.
- `Privileged`, `Isa`, `Reference`: traps, instructions, and the hart without caches, whose
  `StepOf` and `RunOf` are the specification of the step function and the run loop.
- `Instructions`, `Execution`: what the mnemonics mean, by relations that do not mention how
  they are computed, and one step of that hart for every kind of instruction.
- `Cpu`: the simulated hart with its TLBs, last-hit slots and decode cache, in place.
- `Departures`: concrete runs of that hart, from reset, on which it departs from what its
  callers would expect.
- `VirtioModel`, `VirtioQueue`, `VirtioRequests`, `VirtioDriver`, `Virtio`: the split queue
  (sections 2.6 and 5.2.6 of VIRTIO 1.1): chains and buffers, the rings over whole
  notifications, requests, the driver's bytes, the device in place.
- `OutputRing`, `InputRing`, `FirmwareRings`: the two console rings as interleaved
  single-word accesses, and the firmware's own accesses as steps of them.
- `ConsoleRings`: the simulator's own end of the same rings, on its memory.
- `Firmware`, `SbiCalls`: the SBI handler, instruction by instruction where registers matter,
  and its calls as a supervisor sees them (RISC-V SBI specification 0.2).
- `Encoding`, `Assembler`: encoders against the decoder, `li` against the hart, two passes.
- `Elf`, `ElfFiles`: packer and both loaders on its files, and both loaders on any file
  (System V ABI, chapters 4 and 5).
- `Toolchain`, `Programs`: the chain from a source program through assembler, packer and
  loader to the hart that runs it.
- `Screen`, `ControlSequences`, `Console`: the text console as a function of its bytes, what
  each byte sequence does to its rows (ECMA-48 sections 8.3.26, 8.3.38, 8.3.39, 8.3.41 and
  8.3.64), and the console in place with its packed display words.
- `AxiBridge`: the bridge, clock by clock (section A3.2.1 of ARM IHI 0022).

## Results that read differently from the obvious claim

Each has a lemma with the exact condition or a concrete input.

- TLB keys assume privilege 0 or 1, but `mret` can install 2, where a fetch and a load share
  a key.  The answer is then right if and only if the leaf permits the request:
  `Tlb.EntryAnswers`, `Cpu.Cpu.Translate`; a run where it is wrong:
  `Departures.LoadAfterFetch`.
- A trap or return made by an instruction is lost if and only if its target is that
  instruction: `Reference.RedirectReaches`; a run: `Departures.EcallAtItsOwnVector`.
- Signed REM is a floored remainder, RISC-V's if and only if the signs agree or the division
  is exact: `Isa.RemainderInstruction`; a pair: `Isa.RemainderDiffers`.
- `li` of 0xFFFFFFFF is sized as two words and emits one, and an unaligned `.org` puts the
  passes out of step: `Assembler.ItemAgrees`, `Assembler.LiMinusOneDisagrees`,
  `Assembler.PaddingReaches`.
- Ring order across the 16-bit wrap needs a queue size that divides 2^16:
  `VirtioQueue.RingOrder`.
- The SBI probe answers 0 for four extensions that are served: `SbiCalls.ProbeAnswers`.
- An early RLAST cuts a burst short and the bridge answers with the beat it carried:
  `AxiBridge.ReadAnswer`.
- The launcher's loader refuses an unaligned load address that the packer and the
  simulator accept: `Elf.LauncherAccepts`.

## Model

| member | source | states |
|---|---|---|
| `Toolchain.BranchReachesLabel` | tools/zx32sim/cpu.py:543-561 | a taken branch to a label (beqz and bnez included), assembled, packed, loaded at any address and executed by the hart, lands where that label's words begin, whenever the label is in reach |
| `Toolchain.JumpReachesLabel` | tools/zx32sim/cpu.py:536-538 | the same for jumps, which also link |
| `Toolchain.LoadedWord` | tools/zx32sim/main.py:346-349 | word k of the image is in the hart's memory at load + 4k after packing and loading |
| `Toolchain.BranchExecutes` | tools/zx32sim/cpu.py:543-561 | a taken branch moves pc by its immediate and changes nothing else but time |
| `Toolchain.JumpExecutes` | tools/zx32sim/cpu.py:536-538 | a jump moves pc by its immediate and links |
| `Cpu.Cpu.Run` | tools/zx32sim/cpu.py:778-790 | the step limit is never overrun and reaching it is the only way to report it; over every run on which no step starts while a table entry in use is stale, nor is refused a translation in privilege 2, the hart with its TLBs, last-hit slots and decode cache ends in exactly the state, memory and reason of the hart that has none |
| `Cpu.Cpu.Step` | tools/zx32sim/cpu.py:512-660 | one step of the cached hart is one step of the cache-free one while the TLBs are backed, in every privilege, unless that step is in privilege 2 and faults; time strictly increases when it goes on; a page fault or an interrupt leaves the registers alone and is exactly the trap; the TLBs stay backed unless a store changed an entry in use |
| `Cpu.Cpu.Execute` | tools/zx32sim/cpu.py:531-655 | an instruction does to memory, registers, CSRs, timer and time what the cache-free hart does; x0 may be dirty until the commit |
| `Cpu.Cpu.ExecRegister` | tools/zx32sim/cpu.py:532-638 | register instructions in place: result, next pc and illegal encodings are those of the cache-free hart, with nothing else touched; what they compute is `Execution.RegisterRuns` and the rows after it |
| `Cpu.Cpu.ExecMemory` | tools/zx32sim/cpu.py:562-587 | loads and stores: the address, the translation, the device or memory access, faults and misalignment; a fault leaves the registers alone |
| `Cpu.Cpu.ExecAmo` | tools/zx32sim/cpu.py:692-726 | an AMO is a translated load, the operation, and a separately translated store of the old value combined with rs2; the register is written only if both are done |
| `Cpu.Cpu.ExecSystem` | tools/zx32sim/cpu.py:728-776 | every SYSTEM instruction: traps, returns, WFI, fence and CSR access, with the pc that `step` sees afterwards |
| `Cpu.Cpu.ExecCsr` | tools/zx32sim/cpu.py:754-776 | csrrw, csrrs, csrrc and their immediate forms: old value to rd, new value to the CSR, no write when the source field is zero |
| `Cpu.Cpu.FetchInstruction` | tools/zx32sim/cpu.py:516-522 | the word at the translated pc, with the accessed bit set by the fetch kept |
| `Cpu.Cpu.Commit` | tools/zx32sim/cpu.py:649-660 | trap, stop or advance; x0 is cleared and time goes on only where the source does it |
| `Cpu.Cpu.Decode` | tools/zx32sim/cpu.py:102-142 | the decode cache always answers as direct decoding |
| `Reference.RedirectReaches` | tools/zx32sim/cpu.py:645-646 | after a fetched ecall, ebreak, mret or sret with no interrupt due, the next pc is the target of the trap or return if and only if that target is not the instruction itself; privilege and CSRs change in either case |
| `Departures.EcallAtItsOwnVector` | tools/zx32sim/cpu.py:645-646 | run from reset over an ecall at address 0, where mtvec points: the trap is recorded, and the hart goes on at 4 |
| `Reference.StepTakesTime` | tools/zx32sim/cpu.py:512-660 | every step that reports running has strictly increased the step count |
| `Reference.ZeroStaysZero` | tools/zx32sim/cpu.py:657-660 | x0 is zero after every step if it was before |
| `Reference.FaultKeepsRegisters` | tools/zx32sim/cpu.py:649-652 | a page fault inside an instruction can only come from a load, a store or an AMO, and leaves registers, CSRs, time and timer as they were |
| `Reference.SleepIsSafe` | tools/zx32sim/cpu.py:501-510 | WFI sleeps if and only if a deadline is set and more than a step ahead, as is the end of the run, the timer interrupt of the level is enabled and the other line is quiet; it lands one step before whichever is first, skips no step at which an interrupt would have been taken, and the deadline is due on the next |
| `Instructions.OperationComputes` | tools/zx32sim/cpu.py:610-636 | for each of the eighteen register mnemonics and all operands, the result is what the mnemonic says: congruent sums, differences and products, high halves of 64-bit products, bit by bit for the logic and the shifts, orders, quotients that truncate, and remainders, the signed one with the sign of the divisor |
| `Instructions.OnlyOperations` | tools/zx32sim/cpu.py:610-636 | every other pair of function codes is illegal |
| `Instructions.ComputesOne` | tools/zx32sim/cpu.py:663-690 | what a mnemonic says leaves one result |
| `Instructions.ImmediateIsOperation` | tools/zx32sim/cpu.py:588-609 | a register-immediate instruction is the register instruction on the sign-extended immediate, or on the shift amount |
| `Instructions.ImmediateComputes` | tools/zx32sim/cpu.py:588-609 | what each immediate mnemonic computes |
| `Instructions.OnlyImmediates` | tools/zx32sim/cpu.py:588-609 | and which of its encodings are illegal |
| `Instructions.BranchTakes` | tools/zx32sim/cpu.py:543-561 | the six branches are three pairs of opposites over equality and the two orders; every other function code is illegal |
| `Execution.RegisterRuns` | tools/zx32sim/cpu.py:610-636 | a fetched register instruction leaves the mnemonic's result in rd, goes on four further and changes nothing else but time |
| `Execution.ImmediateRuns` | tools/zx32sim/cpu.py:588-609 | the same for the immediate forms |
| `Execution.IllegalStops` | tools/zx32sim/cpu.py:588-636 | function codes that name nothing stop the run with nothing changed |
| `Execution.UnknownStops` | tools/zx32sim/cpu.py:647-648 | so do opcodes the hart does not have |
| `Execution.UpperRuns` | tools/zx32sim/cpu.py:532-535 | lui and auipc |
| `Execution.JumpRuns` | tools/zx32sim/cpu.py:536-542 | jal and jalr link; a jalr lands on the even address at or just below its sum |
| `Execution.BranchRuns` | tools/zx32sim/cpu.py:543-561 | branches, taken or not, by pairs |
| `Execution.LoadRuns` | tools/zx32sim/cpu.py:562-576 | a load from RAM: cause 13 and the address on a fault, illegal when misaligned, else the bytes at the translated address, sign- or zero-extended |
| `Execution.StoreRuns` | tools/zx32sim/cpu.py:578-587 | a store to RAM: cause 15 and the address on a fault, illegal when misaligned, else the low bytes least significant first and no other byte |
| `Execution.TimerWindow` | tools/zx32sim/cpu.py:299-369 | the timer's words are the halves of the step count and of the deadline, and a store replaces one half |
| `Execution.DeviceWindows` | tools/zx32sim/cpu.py:291-370 | which accesses of the console and timer windows are illegal, what the console's two words read, and that stores to the timer change no memory and only its two upper words |
| `Execution.AmoRuns` | tools/zx32sim/cpu.py:692-726 | lr, sc and the nine AMOs: what each leaves in memory, minima and maxima by both orders, and in rd; nothing is written to rd before everything is done |
| `Execution.CsrRuns` | tools/zx32sim/cpu.py:754-776 | the six CSR instructions: old value to rd, the operand, its bits set or its bits cleared in the CSR, and no write from x0 or 0 |
| `Execution.PutMeans` | tools/zx32sim/cpu.py:274-287 | a CSR write changes that CSR alone, none of the unprivileged counters, and forgets the translations in use exactly for sstatus, satp and mstatus |
| `Execution.CounterReads` | tools/zx32sim/cpu.py:255-272 | the counter pairs are the 64-bit step count and other CSRs read as stored |
| `Execution.PendingReads` | tools/zx32sim/cpu.py:255-272 | the two lines in mip, and in sip only where delegated, bit by bit |
| `Execution.EcallRuns` | tools/zx32sim/cpu.py:728-734 | an ecall: the level it goes to by its own bit of medeleg, its cause, epc and vector |
| `Execution.NothingDue` | tools/zx32sim/cpu.py:444-461 | a step executes an instruction exactly when no interrupt is due, the timer's line being raised from a nonzero deadline on |
| `Execution.InterruptRuns` | tools/zx32sim/cpu.py:444-461 | a step on which an interrupt is due takes it: level, cause, epc, vector, and memory and registers as they were |
| `Execution.FetchFaultRuns` | tools/zx32sim/cpu.py:516-522 | a fetch that faults is the trap with cause 12 and the pc |
| `Execution.WaitsRun` | tools/zx32sim/cpu.py:728-753 | wfi stops or sleeps, sfence.vma empties the TLBs, fences go on |
| `Cpu.Cpu.FastForwardWfi` | tools/zx32sim/cpu.py:501-510 | moves time to the step count at which WFI resumes, or not at all |
| `Cpu.Cpu.CheckInterrupt` | tools/zx32sim/cpu.py:444-461 | an interrupt is taken exactly when one is pending and enabled, and is then the trap with that cause |
| `Cpu.Cpu.Load` | tools/zx32sim/cpu.py:291-335 | translate, then read RAM, the console window or the timer; the TLBs stay backed |
| `Cpu.Cpu.LoadPhysical` | tools/zx32sim/cpu.py:293-335 | which physical loads are illegal and what the others return |
| `Cpu.Cpu.Store` | tools/zx32sim/cpu.py:337-379 | translate, mark, then write RAM or the timer; the TLBs stay backed unless an entry in use was changed beyond A and D |
| `Cpu.Cpu.StoreTracked` | tools/zx32sim/cpu.py:352-378 | the write itself, and whether it made an entry in use stale |
| `Cpu.Cpu.StorePhysical` | tools/zx32sim/cpu.py:352-378 | which physical stores are illegal and what the others change |
| `Cpu.Cpu.constructor` | tools/zx32sim/cpu.py:61-100 | the whole reset state: pc 0, M-mode, the CSR file, zeroed registers, no limit, and empty TLBs |
| `Cpu.Cpu.Translate` | tools/zx32sim/cpu.py:147-207 | in every privilege, through either dictionary or either last-hit slot, or by walking: while the TLBs are backed, memory, the entries in use and the keys entered are those of a fresh walk, and the answer is the fresh one if and only if nothing was found or the access is permitted at the leaf, which outside privilege 2 is always; a fault changes neither memory nor TLB |
| `Cpu.Cpu.Lookup` | tools/zx32sim/cpu.py:153-168 | the slots and dictionaries together answer as the dictionaries |
| `Cpu.Cpu.WalkTables` | tools/zx32sim/cpu.py:170-198 | the two reads of the walk reach the leaf or the fault that the walk function names |
| `Cpu.Cpu.WalkAndFill` | tools/zx32sim/cpu.py:170-207 | a miss answers, marks and fills so that the TLBs stay backed |
| `Cpu.Cpu.CsrWrite` | tools/zx32sim/cpu.py:274-287 | a write of satp, sstatus or mstatus re-establishes the TLB invariant, every other write keeps it; the three shadow copies follow |
| `TlbRuns.Run` | tools/zx32sim/cpu.py:147-287 | over every disciplined mixture of translations, CSR writes, fences, traps, returns and outside stores, in every privilege, from any backed state: memory and state equal those of the machine that walks every time, and so does each answer if and only if the request was not found under a key entered before or is permitted |
| `Tlb.KeysCollide` | tools/zx32sim/cpu.py:153-161 | two lookups share a key if and only if they are of the same page, access and privilege, or are confused through privilege 2 |
| `Departures.ReservedPrivilegeDiffers` | tools/zx32sim/cpu.py:153-161 | on an execute-only page in privilege 2 a fetch is answered, the load after it refused, and the load has the key under which the fetch was entered |
| `Departures.LoadAfterFetch` | tools/zx32sim/cpu.py:147-207 | the hart run on that input, from reset through mret: the load is answered although the tables refuse it |
| `Tlb.HitIsWalk` | tools/zx32sim/cpu.py:153-168 | a backed entry answers as the walk, and the walk would write nothing |
| `Tlb.HitIsFresh` | tools/zx32sim/cpu.py:153-168 | a hit, in either dictionary and any privilege, is the fresh walk if and only if the access is permitted at the leaf |
| `Tlb.EntryAnswers` | tools/zx32sim/cpu.py:153-207 | after a miss by one access, a request under the key it entered, for either page size and any privilege up to 2, gets the fresh answer if and only if the leaf permits that request; below privilege 2 it always does |
| `Tlb.BacksPage` | tools/zx32sim/cpu.py:187-207 | what is right for one address is right for its whole page or superpage, and for the other access of a shared key |
| `Tlb.BacksKept` | tools/zx32sim/cpu.py:147-207 | an entry stays right while the table entries it came from keep everything but A and D |
| `Tlb.Insert` | tools/zx32sim/cpu.py:183-207 | filling after a walk keeps every cached translation right, the new one included: a cached store key implies the leaf has A and D |
| `Sv32.AdBits` | tools/zx32sim/cpu.py:224-225 | setting A and D touches those two bits, only sets them, and is idempotent |
| `Sv32.CoreDetermines` | tools/zx32sim/cpu.py:216-246 | validity, leafness, frame and every permission check depend on the entry without A and D |
| `Sv32.MarkingKeeps` | tools/zx32sim/cpu.py:199-202 | marking any aligned word keeps every table entry up to A and D, whoever reads it |
| `Sv32.MarkingChangesNoTranslation` | tools/zx32sim/cpu.py:199-202 | setting A and D anywhere changes no translation of any address, even when tables map themselves or one word serves both levels |
| `Sv32.AfterKeeps` | tools/zx32sim/cpu.py:147-207 | a translation changes no other translation |
| `Sv32.TranslateTwice` | tools/zx32sim/cpu.py:147-207 | translating again answers the same and writes nothing |
| `Sv32.AfterMarks` | tools/zx32sim/cpu.py:199-202 | the leaf reached has A set, and D if the access was a store |
| `Sv32.FreshMeetsStandard` | tools/zx32sim/cpu.py:147-246 | for every satp and privilege: in M-mode, or with MODE 0, the address is physical and memory stays; in U and S mode the outcome, its cause 12, 13 or 15 and the A and D bits left in memory are those of the algorithm of section 4.3.2 of the RISC-V Privileged Architecture manual, with physical addresses cut to 32 bits; the reserved privilege has the rights of both modes |
| `Cpu.Cpu.Trap` | tools/zx32sim/cpu.py:381-418 | the trap in place, by delegation, to S or to M; where it goes and what it records is `Privileged.TrapSaves` |
| `Cpu.Cpu.Mret` | tools/zx32sim/cpu.py:420-430 | the return from M |
| `Cpu.Cpu.Sret` | tools/zx32sim/cpu.py:432-442 | the return from S |
| `Privileged.TrapSaves` | tools/zx32sim/cpu.py:381-418 | what a trap does, by level: privilege, the aligned vector it goes to, epc, cause and tval, the three fields of its status word, and no other bit and no other CSR |
| `Privileged.DelegatedCauses` | tools/zx32sim/cpu.py:381-391 | which traps are delegated, by the numbers of their causes: never from M, and below it by the cause's own bit of medeleg or mideleg |
| `Privileged.Returns` | tools/zx32sim/cpu.py:420-442 | where mret and sret go, with which privilege, the enable bits they restore, and no other bit and no other CSR |
| `Privileged.MachineTrapReturns` | tools/zx32sim/cpu.py:381-430 | trap to M, any CSR writes by the handler that spare mstatus and mepc, then mret: pc, privilege and MIE are as before |
| `Privileged.HandlerPreserves` | tools/zx32sim/cpu.py:381-430 | so does any number of them |
| `Privileged.DelegatedTrapReturns` | tools/zx32sim/cpu.py:381-442 | a delegated trap, then any number of excursions to M and back, then sret restores pc, privilege and SIE |
| `Privileged.TrapNeverLowers` | tools/zx32sim/cpu.py:381-418 | a trap never lowers privilege and lands in S or M |
| `Privileged.InterruptTarget` | tools/zx32sim/cpu.py:444-461 | every supervisor interrupt taken is delegated and no machine interrupt is |
| `Privileged.InterruptRule` | tools/zx32sim/cpu.py:444-461 | an interrupt is taken if and only if one is due: its line raised, its own bit enabled and delegated or not, and its level not held back; the timer's comes first |
| `Privileged.NoSecondInterrupt` | tools/zx32sim/cpu.py:444-461 | after an interrupt is taken no other is, whatever the lines and the other CSRs do, until privilege or an enable bit changes |
| `Isa.SextMeaning` | tools/zx32sim/memory.py:124-128 | sign extension gives the one representative in the signed range |
| `Isa.Fields` | tools/zx32sim/cpu.py:102-142 | the six fields of the R format make up the word |
| `Isa.Immediates` | tools/zx32sim/cpu.py:102-142 | the range of each immediate and where each of its slices stands in the word |
| `Isa.RemainderAgrees` | tools/zx32sim/cpu.py:686 | floored and truncated remainder agree if and only if the signs agree or the division is exact, so signed REM meets RISC-V only there |
| `Isa.RemainderInstruction` | tools/zx32sim/cpu.py:686 | the REM instruction on two words: by zero and on overflow it is as RISC-V has it, and otherwise if and only if the signs agree or the division is exact |
| `Isa.RemainderDiffers` | tools/zx32sim/cpu.py:686 | -7 rem 2 is 1 and not -1 |
| `PagedMemory.Memory.Touch` | tools/zx32sim/memory.py:14-20 | allocating a page changes what no address reads |
| `PagedMemory.Memory.Load` | tools/zx32sim/memory.py:22-32 | a bulk load of any length, across pages and the 2^32 wrap, is the byte-by-byte store of the flat memory |
| `PagedMemory.Memory.ReadBytes` | tools/zx32sim/memory.py:34-46 | a bulk read is the flat bytes, absent pages reading as zero |
| `PagedMemory.Memory.ReadU16` | tools/zx32sim/memory.py:55-63 | the flat halfword, within a page or across two |
| `PagedMemory.Memory.ReadU32` | tools/zx32sim/memory.py:65-78 | the flat word, within a page or across two |
| `PagedMemory.Memory.WriteU8` | tools/zx32sim/memory.py:80-87 | the flat byte store, every other byte unchanged |
| `PagedMemory.Memory.WriteU16` | tools/zx32sim/memory.py:89-102 | the flat halfword store, within a page or across two |
| `PagedMemory.Memory.WriteU32` | tools/zx32sim/memory.py:104-121 | the flat word store, within a page or across two |
| `FlatMemory.WordOfWithWord` | tools/zx32sim/memory.py:65-121 | a word stored is read back, at any alignment and across the wrap |
| `FlatMemory.WordFrame` | tools/zx32sim/memory.py:65-121 | a store to one aligned word leaves every other aligned word alone |
| `Virtio.BlockDevice.ReadChain` | tools/zx32sim/virtio.py:272-287 | the loop collects exactly the chain of the descriptor table; which bytes that table is made of is `VirtioDriver.ListTaken` |
| `Virtio.BlockDevice.WriteToDescs` | tools/zx32sim/virtio.py:339-350 | scatter over the writable descriptors |
| `Virtio.BlockDevice.GatherFrom` | tools/zx32sim/virtio.py:331-333 | the bytes of the readable descriptors in order |
| `Virtio.BlockDevice.ExecuteRequest` | tools/zx32sim/virtio.py:301-336 | status, length, image and memory of any request, with its error cases |
| `Virtio.BlockDevice.TransferData` | tools/zx32sim/virtio.py:316-336 | reads and writes of the image, with the range and read-only errors |
| `Virtio.BlockDevice.PushUsedElement` | tools/zx32sim/virtio.py:352-357 | one element and the index of the used ring |
| `Virtio.BlockDevice.ProcessChain` | tools/zx32sim/virtio.py:289-299 | one chain served and recorded |
| `Virtio.BlockDevice.Notify` | tools/zx32sim/virtio.py:247-259 | while the driver's index, read again after each chain, is not reached, one more head is served in ring order: memory, image and indices are those of the requests served, and the loop ends exactly when it catches up |
| `VirtioModel.ChainShape` | tools/zx32sim/virtio.py:272-287 | a chain has distinct in-range indices, follows its links, and stops only where a descriptor ends it, its link leaves the table or returns to one visited, whatever cycles the table holds |
| `VirtioModel.ScatterFrame` | tools/zx32sim/virtio.py:339-350 | scatter changes no byte outside the descriptors |
| `VirtioModel.ScatterGather` | tools/zx32sim/virtio.py:339-350 | what is scattered over disjoint buffers is gathered back |
| `VirtioModel.ImageKept` | tools/zx32sim/virtio.py:316-336 | the image keeps its length and every byte outside the sectors written, and a read-only image never changes |
| `VirtioModel.OutThenIn` | tools/zx32sim/virtio.py:301-350 | writing sectors out and reading them back returns the same bytes, for any two splittings into disjoint buffers, whatever happens to memory in between |
| `VirtioRequests.OutThenInServed` | tools/zx32sim/virtio.py:289-357 | the same of two requests served from the queue: after header, status byte and used element the reader finds the written bytes in its buffers, both status bytes are 0, and its used element carries its head and length |
| `VirtioRequests.ServedImage` | tools/zx32sim/virtio.py:289-336 | over any number of requests the image keeps its length and every byte that none of them writes, and a read-only image keeps every byte |
| `VirtioRequests.ProcessTransfers` | tools/zx32sim/virtio.py:289-357 | a well-formed transfer is performed, its status stored, its head and length recorded |
| `VirtioDriver.DescRead` | tools/zx32sim/virtio.py:261-270 | sixteen bytes in the table (le64, le32, le16, le16) are read as a descriptor if and only if they are its bytes |
| `VirtioDriver.EntryEnds` | tools/zx32sim/virtio.py:272-287 | a descriptor without NEXT, or with INDIRECT, is taken by itself |
| `VirtioDriver.ListTaken` | tools/zx32sim/virtio.py:247-299 | a list of buffers laid out by its driver in bytes, NEXT being 1 and WRITE 2, with its head and the index in the available ring, is exactly the chain the device takes next |
| `VirtioDriver.PostedTaken` | tools/zx32sim/virtio.py:247-299 | the driver's stores, one descriptor after the other, lay it out so, when table and available ring do not overlap |
| `VirtioDriver.DriverRoundTrip` | tools/zx32sim/virtio.py:289-357 | write and read from the driver's bytes to the driver's bytes: the image holds the buffers' contents at 512 times the sector and is otherwise as before, the reader's buffers hold the same, both status bytes are 0, and the used element and index are there to read |
| `VirtioDriver.Answers` | tools/zx32sim/virtio.py:301-336 | every other answer by the standard's numbers: which requests get status 0, 1 or 2, and that none of them changes the image |
| `VirtioDriver.IdentityRead` | tools/zx32sim/virtio.py:311-314 | twenty writable bytes hold the identification afterwards |
| `VirtioQueue.ServeKeepsRings` | tools/zx32sim/virtio.py:289-336 | serving a request whose buffers avoid the rings leaves descriptor table, available ring and used ring alone |
| `VirtioQueue.PushEffect` | tools/zx32sim/virtio.py:352-357 | exactly one used element and the index change |
| `VirtioQueue.ProcessStep` | tools/zx32sim/virtio.py:289-299 | one head served: its used element carries its index and length, the other elements and all rings stay |
| `VirtioQueue.ServedIndices` | tools/zx32sim/virtio.py:247-259 | after n heads both indices have moved by n mod 2^16 and the tables are as before |
| `VirtioQueue.NotificationEnds` | tools/zx32sim/virtio.py:247-259 | when the buffers of the pending chains avoid the rings it catches up after exactly (avail.idx - last) mod 2^16 chains, with the driver's index where it was and used.idx moved by that number |
| `VirtioQueue.UsedRingRecords` | tools/zx32sim/virtio.py:247-299 | the used ring holds one element for each head served, in the order of the available ring, each with its own length |
| `VirtioQueue.RingOrder` | tools/zx32sim/virtio.py:255-258 | consecutive indices use consecutive slots, the 16-bit wrap included, if and only if the queue size divides 2^16 |
| `OutputRing.NothingLost` | hw_bringup/ps_linux_boot.c:1595-1728 | in every interleaving of single-word accesses the ring never holds more than 256 bytes, is never skipped, and what was consumed is a prefix, in order, of what was produced |
| `OutputRing.ProducerKeeps` | hw_bringup/programs/linux_boot_firmware.zx32.s:216-230 | each access of putchar keeps the ring invariant |
| `OutputRing.ConsumerKeeps` | hw_bringup/ps_linux_boot.c:1615-1728 | each access of the launcher keeps the ring invariant |
| `OutputRing.Gap` | hw_bringup/programs/linux_boot_firmware.zx32.s:217-221 | the 32-bit difference of the counters is the true distance, across wrap |
| `OutputRing.NoStandoff` | hw_bringup/programs/linux_boot_firmware.zx32.s:216-221 | when the launcher has caught up, putchar finds room |
| `FirmwareRings.PutcharProduces` | hw_bringup/programs/linux_boot_firmware.zx32.s:209-230 | the accesses of one putchar, polling included, are in order producer steps that produce its byte |
| `InputRing.NothingLost` | hw_bringup/ps_linux_boot.c:1733-1751 | the same for the 128-byte input ring |
| `InputRing.PatchedCell` | hw_bringup/ps_linux_boot.c:1744-1748 | masking and or-ing a byte into its word changes that byte alone |
| `InputRing.ProducerKeeps` | hw_bringup/ps_linux_boot.c:1735-1751 | each access of the launcher's pump keeps the invariant |
| `InputRing.ConsumerKeeps` | hw_bringup/programs/linux_boot_firmware.zx32.s:232-245 | each access of getchar keeps it |
| `InputRing.EmptyIsEmpty` | hw_bringup/programs/linux_boot_firmware.zx32.s:236-238 | getchar finds the ring empty exactly when everything produced was consumed |
| `FirmwareRings.GetcharConsumes` | hw_bringup/programs/linux_boot_firmware.zx32.s:232-247 | the accesses of one getchar are consumer steps that find the ring empty or consume the byte it returns |
| `ConsoleRings.WriteConsoleInput` | tools/zx32sim/main.py:139-159 | all of the data or, when it does not fit, none: what is pending afterwards is what was pending followed by the data |
| `ConsoleRings.QueueAppends` | tools/zx32sim/main.py:152-159 | storing behind the total and then advancing it appends to what is pending, across both wraps |
| `ConsoleRings.DrainConsoleRing` | tools/zx32sim/main.py:124-136 | returns everything pending in order and leaves the ring empty; an overrun ring yields its size |
| `ConsoleRings.ReadConsoleRing` | tools/zx32sim/main.py:111-121 | the total and the last bytes, at most a ring's worth, taking nothing |
| `Firmware.Add64` | hw_bringup/programs/linux_boot_firmware.zx32.s:173-181 | a 64-bit sum in 32-bit words with an unsigned carry |
| `Firmware.Sub64` | hw_bringup/programs/linux_boot_firmware.zx32.s:161-164 | a 64-bit difference with an unsigned borrow |
| `Firmware.Hart.ReadMtime` | hw_bringup/programs/linux_boot_firmware.zx32.s:144-150 | the high-low-high loop ends with a value the clock really showed during it |
| `Firmware.Hart.ReadRdtime` | hw_bringup/programs/linux_boot_firmware.zx32.s:152-156 | the same for the time CSR |
| `Firmware.Hart.FixOffset` | hw_bringup/programs/linux_boot_firmware.zx32.s:158-168 | the offset is the difference of the two clocks, fixed on the first call |
| `Firmware.Hart.ChooseDeadline` | hw_bringup/programs/linux_boot_firmware.zx32.s:170-202 | the later of request plus offset and now plus 0x10000 |
| `Firmware.Hart.SetDeadline` | hw_bringup/programs/linux_boot_firmware.zx32.s:187-202 | the three stores leave the deadline set, and every value in between is in the last 2^32 ticks |
| `Firmware.NoSpuriousInterrupt` | hw_bringup/programs/linux_boot_firmware.zx32.s:187-202 | while the clock is below those ticks, the timer line is raised by none of the values in between, and by the complete deadline exactly when it is due |
| `Firmware.Hart.ProgramTimer` | hw_bringup/programs/linux_boot_firmware.zx32.s:137-207 | mtimecmp becomes max(request + offset, mtime + 0x10000) modulo 2^64, despite 32-bit carries and borrows |
| `Firmware.Hart.ConsolePutchar` | hw_bringup/programs/linux_boot_firmware.zx32.s:209-230 | waits until the ring has room, then stores one byte and publishes it; every other byte of the ring stays; its shared accesses, in order |
| `Firmware.Hart.ConsoleGetchar` | hw_bringup/programs/linux_boot_firmware.zx32.s:232-256 | the next ring byte, else the mailbox, else -1; the words it changes and its shared accesses, in order |
| `Firmware.Hart.Enter` | hw_bringup/programs/linux_boot_firmware.zx32.s:23-53 | entry: registers saved, cause and pc recorded, nothing else in scratch touched |
| `Firmware.Hart.FixedCall` | hw_bringup/programs/linux_boot_firmware.zx32.s:69-128 | the base, debug and unsupported calls answer by table |
| `SbiCalls.BaseAnswers` | hw_bringup/programs/linux_boot_firmware.zx32.s:69-128 | the base extension by function number: specification 0.2, the implementation and its version, the probe, the machine registers, and -2 beyond |
| `SbiCalls.ProbeAnswers` | hw_bringup/programs/linux_boot_firmware.zx32.s:69-128 | the probe says 1 for exactly the extensions that answer, but for the three legacy calls and the debug call, and exactly which calls are refused |
| `SbiCalls.CallsEnd` | hw_bringup/programs/linux_boot_firmware.zx32.s:54-67 | a reset never returns, a putchar only once there is room, everything else does |
| `SbiCalls.TimerCallDoes` | hw_bringup/programs/linux_boot_firmware.zx32.s:137-207 | set_timer from the caller's view: the difference of the clocks is kept by the first call, and the deadline is the request moved by it, or 0x10000 ticks from now |
| `SbiCalls.CallsDo` | hw_bringup/programs/linux_boot_firmware.zx32.s:209-285 | putchar, getchar and the rest from the caller's view: answers, ring bytes and counters, and what stays |
| `Firmware.Hart.Dispatch` | hw_bringup/programs/linux_boot_firmware.zx32.s:54-67 | each extension goes to its own handler, whose effect is the one named, and no handler touches the save area |
| `Firmware.Hart.ReturnSbi` | hw_bringup/programs/linux_boot_firmware.zx32.s:287-301 | mepc is four further and every saved register is back |
| `Firmware.Hart.MTrap` | hw_bringup/programs/linux_boot_firmware.zx32.s:23-301 | every SBI call that returns resumes at mepc + 4 with mscratch restored and every register but a0 and a1 unchanged, on every dispatch path, and has exactly the effect of its call |
| `Firmware.EffectRespects` | hw_bringup/programs/linux_boot_firmware.zx32.s:54-301 | the effect of a call does not depend on the registers and words that entry and return use |
| `Encoding.DecodeR` | tools/zx32asm.py:174-176 | decode inverts the R encoder |
| `Encoding.DecodeI` | tools/zx32asm.py:178-181 | decode inverts the I encoder; the immediate comes back if and only if it fits 12 signed bits |
| `Encoding.DecodeS` | tools/zx32asm.py:183-186 | the same for S |
| `Encoding.DecodeB` | tools/zx32asm.py:188-202 | odd offsets are refused; an even one comes back if and only if it fits 13 signed bits |
| `Encoding.DecodeU` | tools/zx32asm.py:204-206 | decode inverts the U encoder |
| `Encoding.DecodeJ` | tools/zx32asm.py:208-220 | odd offsets are refused; an even one comes back if and only if it fits 21 signed bits |
| `Encoding.DecodeAmo` | tools/zx32asm.py:226-235 | decode inverts the AMO encoder |
| `Encoding.LiLoads` | tools/zx32asm.py:332-339 | executing the one or two words of `li` leaves rd at the immediate modulo 2^32, for every integer, and changes nothing else but pc and time |
| `Assembler.PassesAgree` | tools/zx32asm.py:302-317 | for every program that assembles, the two passes agree at every item if and only if every item agrees |
| `Assembler.ItemAgrees` | tools/zx32asm.py:282-300 | one item keeps the passes in step if and only if its size is its word count: an aligned `.org`, or an `li` whose 12-bit fit is the same before and after 32-bit normalisation |
| `Assembler.LabelsAreRight` | tools/zx32asm.py:601-621 | in an agreeing program every label is four times the number of words emitted before it |
| `Assembler.BranchLands` | tools/zx32asm.py:327-330 | a branch to a label, decoded from the image, lands where the label's words begin if and only if it is in reach |
| `Assembler.BranchByLands` | tools/zx32asm.py:380-387 | the same for beqz and bnez |
| `Assembler.JumpLands` | tools/zx32asm.py:327-330 | the same for jumps |
| `Programs.ItemDecodes` | tools/zx32asm.py:319-455 | an instruction item is one word, which decodes to the registers, function codes and immediate written, the immediate if and only if it fits |
| `Programs.DataEmitted` | tools/zx32asm.py:353-358 | `.word` emits its operands in order modulo 2^32 if and only if all are known, `.zero` zeroes for its bytes and at most three more |
| `Programs.RegisterAssembled` | tools/zx32asm.py:601-621 | `op rd, rs1, rs2`, assembled, loaded and executed, leaves in rd what op says of rs1 and rs2 |
| `Programs.ImmediateAssembled` | tools/zx32asm.py:601-621 | the same with an immediate that fits |
| `Programs.StoreAssembled` | tools/zx32asm.py:601-621 | a store writes the low bytes of rs2 at rs1 plus the immediate |
| `Programs.LoadAssembled` | tools/zx32asm.py:601-621 | a load puts into rd what stands at rs1 plus the immediate |
| `Assembler.LiDisagreement` | tools/zx32asm.py:298-299 | which immediates are sized differently by the two passes |
| `Assembler.LiMinusOneDisagrees` | tools/zx32asm.py:298-299 | `li` of 0xFFFFFFFF is sized as two words and emits one |
| `Assembler.PaddingReaches` | tools/zx32asm.py:614-616 | padding stops at or just beyond a `.org` target, and on it if and only if it is word-aligned |
| `Assembler.TwoPass.FirstPass` | tools/zx32asm.py:302-317 | the first pass succeeds exactly on programs with a layout and builds their table |
| `Assembler.TwoPass.Assemble` | tools/zx32asm.py:601-621 | the second pass emits the words of the table, or the first error stops it |
| `Elf.BuildElf` | tools/zx32elf.py:27-65 | the file, for addresses and sizes that fit 32 bits; anything else is an error |
| `Elf.LoadElf` | tools/zx32sim/elf.py:25-66 | the simulator's loader: the loadable segments, or the first of six faults |
| `Elf.SimulatorAccepts` | tools/zx32sim/elf.py:25-66 | it reads back entry, address and text of every packed file |
| `Elf.WordsInMemory` | tools/zx32sim/main.py:346-349 | loading the segment puts words[i] at addr + 4i and changes nothing else |
| `Elf.Launcher.LoadIntoImem` | hw_bringup/ps_uart_probe_common.c:27-105 | the launcher's loader: the window, the word count and the entry, or one of eleven codes with the outputs untouched |
| `Elf.LauncherAccepts` | hw_bringup/ps_uart_probe_common.c:27-105 | it accepts a packed file if and only if the load address is word-aligned; the words then stand in order from that address and nothing else in the window has changed; otherwise the code is -9 and nothing is written |
| `Elf.LoadersAgree` | hw_bringup/ps_uart_probe_common.c:71-105 | from one file both loaders recover the same entry and put the same word at the same offset |
| `ElfFiles.EntryRead` | tools/zx32sim/elf.py:55-58 | twenty-four bytes are read as a program header if and only if they are its bytes, in the order of the format |
| `ElfFiles.SimulatorReads` | tools/zx32sim/elf.py:25-66 | on any file with any program headers, written down in bytes: the entry point and the loadable segments in order, or which of two faults |
| `ElfFiles.SimulatorRefuses` | tools/zx32sim/elf.py:27-50 | which files are refused by their first bytes |
| `ElfFiles.LauncherReads` | hw_bringup/ps_uart_probe_common.c:27-105 | the launcher takes such a file if and only if every loadable segment is of whole words with no more file than memory; the window then holds each segment at its physical address, zeroes after it, and the later of two that overlap |
| `ElfFiles.FirstRefusal` | hw_bringup/ps_uart_probe_common.c:71-89 | the first segment not taken decides between -9, -10 and -11, and what stood before it is written |
| `ElfFiles.LauncherRefuses` | hw_bringup/ps_uart_probe_common.c:42-69 | a bad file header is refused with the number of its first failing check |
| `Screen.InsertThenDelete` | hw_bringup/ps_linux_boot.c:323-379 | inserting n cells and deleting n restores the row but for its last n cells, and every other row |
| `Screen.DeleteThenInsert` | hw_bringup/ps_linux_boot.c:323-379 | deleting first loses the n cells at the cursor instead |
| `Screen.InsertedRows` | hw_bringup/ps_linux_boot.c:323-350 | ICH by rows: what stood before the cursor, n blanks, the rest but its last n cells; every other row kept |
| `Screen.DeletedRows` | hw_bringup/ps_linux_boot.c:352-379 | DCH by rows: the n cells at the cursor drop out and n blanks come in at the end |
| `Screen.ScrolledRows` | hw_bringup/ps_linux_boot.c:232-249 | every row is the next one, the last is blank |
| `Screen.FilledRows` | hw_bringup/ps_linux_boot.c:274-299 | erasing to, from and around the cursor, by rows |
| `Screen.TabStops` | hw_bringup/ps_linux_boot.c:636-640 | the tab loop ends, at the next multiple of eight columns or at the start of the next row |
| `Screen.FeedKeeps` | hw_bringup/ps_linux_boot.c:623-658 | so does every byte in every parser state |
| `Screen.Shown` | hw_bringup/ps_linux_boot.c:623-658 | and every stream of bytes |
| `Screen.ShownConcat` | hw_bringup/ps_linux_boot.c:660-666 | a stream can be fed in pieces |
| `Screen.DigitsRead` | hw_bringup/ps_linux_boot.c:598-602 | the parser reads every 32-bit number back from its decimal digits |
| `Screen.ControlSequence` | hw_bringup/ps_linux_boot.c:576-621 | a sequence of one parameter, sent as bytes, does its action with that parameter and leaves the parser ready for text |
| `ControlSequences.SequenceDoes` | hw_bringup/ps_linux_boot.c:576-621 | a sequence with any list of parameters, sent as bytes, does its final byte's action on the first four of them and leaves the parser ready |
| `ControlSequences.EraseDisplaySent` | hw_bringup/ps_linux_boot.c:502-513 | ED by rows: from the cursor to the end, or from the start to the cursor; the cursor's row is prefix and blanks, or blanks and suffix; cursor and pen stay |
| `ControlSequences.ClearScreenSent` | hw_bringup/ps_linux_boot.c:502-513 | with 2 or 3 the whole screen, the cursor home and the pen reset |
| `ControlSequences.EraseLineSent` | hw_bringup/ps_linux_boot.c:514-526 | EL by rows: only the cursor's row, from, to or around the cursor |
| `ControlSequences.EraseCharactersSent` | hw_bringup/ps_linux_boot.c:381-398 | ECH by rows, none when column and count wrap |
| `ControlSequences.InsertCellsSent` | hw_bringup/ps_linux_boot.c:323-350 | ICH by rows, no more than is left of the row |
| `ControlSequences.DeleteCellsSent` | hw_bringup/ps_linux_boot.c:352-379 | DCH by rows, no more than is left of the row |
| `ControlSequences.MovementSent` | hw_bringup/ps_linux_boot.c:533-567 | the ten movements as clamped arithmetic on row and column, and nothing else changed |
| `ControlSequences.PenSent` | hw_bringup/ps_linux_boot.c:457-489 | SGR changes the pen and nothing else, by its first four parameters in order |
| `ControlSequences.OthersSent` | hw_bringup/ps_linux_boot.c:491-574 | a final byte with no action changes nothing |
| `ControlSequences.TextShown` | hw_bringup/ps_linux_boot.c:649-657 | a byte of text changes the cursor's cell and no other, then wraps, and scrolls at the bottom |
| `ControlSequences.LineFeedShown` | hw_bringup/ps_linux_boot.c:251-258 | a line feed: the next row, or every row up by one and a blank one |
| `ControlSequences.BacksShown` | hw_bringup/ps_linux_boot.c:629-648 | carriage return and the two erasing backspaces |
| `ControlSequences.TabShown` | hw_bringup/ps_linux_boot.c:636-640 | a tab is one to eight blanks, up to the next multiple of eight columns |
| `ControlSequences.SkippedBytes` | hw_bringup/ps_linux_boot.c:576-621 | which bytes around and inside sequences show nothing |
| `Screen.InsertThenDeleteSent` | hw_bringup/ps_linux_boot.c:499-532 | inserting and deleting n cells by byte sequences changes only the last cells of the row |
| `Console.HdmiConsole.DisplayShowsText` | hw_bringup/ps_linux_boot.c:193-203 | the byte the display reads for a cell is the shadow's character |
| `Console.HdmiConsole.DisplayShowsAttr` | hw_bringup/ps_linux_boot.c:182-191 | the nibble it reads is the shadow's attribute |
| `Console.HdmiConsole.WriteWords` | hw_bringup/ps_linux_boot.c:205-210 | rewriting the words of a changed range brings the whole display in step |
| `Console.HdmiConsole.Init` | hw_bringup/ps_linux_boot.c:751-767 | from here on the display agrees with the shadow |
| `Console.HdmiConsole.Scroll` | hw_bringup/ps_linux_boot.c:232-249 | the scroll in place |
| `Console.HdmiConsole.ClearCellRange` | hw_bringup/ps_linux_boot.c:274-299 | a range blanked, with the clamps, and the display in step |
| `Console.HdmiConsole.InsertCells` | hw_bringup/ps_linux_boot.c:323-350 | ICH in place is the row function, and the display is in step |
| `Console.HdmiConsole.DeleteCells` | hw_bringup/ps_linux_boot.c:352-379 | DCH in place is the row function, and the display is in step |
| `Console.HdmiConsole.EraseCells` | hw_bringup/ps_linux_boot.c:381-398 | the erase, including a count that wraps |
| `Console.HdmiConsole.ApplyCsi` | hw_bringup/ps_linux_boot.c:491-574 | the action of every final byte in place; what those actions do on the screen, row by row, is `ControlSequences` |
| `Console.HdmiConsole.ConsumeAnsi` | hw_bringup/ps_linux_boot.c:576-621 | the parser takes exactly the bytes of sequences |
| `Console.HdmiConsole.Putc1` | hw_bringup/ps_linux_boot.c:623-658 | one byte: the screen becomes what the screen function says and the display shows it |
| `Console.HdmiConsole.PutTab` | hw_bringup/ps_linux_boot.c:636-640 | the tab loop, which ends |
| `Console.HdmiConsole.Puts` | hw_bringup/ps_linux_boot.c:660-666 | after any stream of bytes the cursor is on the grid, attributes are below 16 and the display agrees with the shadow |
| `AxiBridge.Bridge.Combine` | rtl/bus/axi4_master_bridge.sv:102-163 | the combinational block: every output and the next state |
| `AxiBridge.Bridge.Clock` | rtl/bus/axi4_master_bridge.sv:165-200 | one rising edge: outputs of the old registers, and every new register |
| `AxiBridge.ValidHolds` | rtl/bus/axi4_master_bridge.sv:122-147 | a VALID that has not met its READY stays, with its payload, whatever comes next |
| `AxiBridge.ValidDoesNotWait` | rtl/bus/axi4_master_bridge.sv:122-147 | no VALID depends on a READY of the same cycle |
| `AxiBridge.EveryRun` | rtl/bus/axi4_master_bridge.sv:85-200 | the invariant of every run from reset, against every slave |
| `AxiBridge.OneHandshakeEach` | rtl/bus/axi4_master_bridge.sv:122-163 | when idle, every write taken has made exactly one AW, one W and one B handshake and every read exactly one AR, and all are answered |
| `AxiBridge.OneOutstanding` | rtl/bus/axi4_master_bridge.sv:116-163 | at most one request is outstanding, and no channel runs ahead of it |
| `AxiBridge.OffersTheRequest` | rtl/bus/axi4_master_bridge.sv:102-184 | what a channel offers is the request in hand: the address as far from the bus base as the request is from the processor's, data and strobes as given, and a burst length one less than the beats wanted |
| `AxiBridge.ReadAnswer` | rtl/bus/axi4_master_bridge.sv:107-198 | a read is answered with the data of its last beat; beats are numbered 0, 1, ... in order; all wanted beats came if and only if RLAST was on none before the last |

## Left out

- Cpu.Cpu.Run: agreement with the cache-free hart is claimed while no step starts with a table entry in use changed and not yet flushed, and no step in privilege 2 is refused a translation; otherwise the simulator may answer from its TLB, in the first case as hardware may.
- TlbRuns.Run: the first condition, stated over events; stores by devices and other masters are events there.
- Cpu.Cpu.Load: the block device, virtio and PLIC windows are not dispatched to; the external interrupt line is an input of the hart.
- Cpu.Cpu.LoadPhysical: the same windows are absent.
- Cpu.Cpu.Store: the same; tracing output is left out.
- Cpu.Cpu.StoreTracked: the same windows are absent.
- Cpu.Cpu.StorePhysical: the same windows are absent.
- Cpu.Cpu.ExecAmo: no reservations: SC always succeeds, as in the source.
- Execution.LoadRuns: for addresses outside the console and timer windows, which are `Execution.DeviceWindows` and `Execution.TimerWindow`.
- Execution.StoreRuns: the same.
- Execution.AmoRuns: the same, for both of its addresses.
- Instructions.OperationComputes: the division goes through binary floating point in the source, which for 32-bit operands truncates to the exact quotient; the model divides exactly.
- Programs.RegisterAssembled: for M-mode, where addresses are not translated, as are the rows after it.
- Privileged.InterruptTarget: machine interrupts are not taken below M-mode and sstatus and mstatus are separate registers, as in the source; neither is claimed to follow the standard.
- Virtio.BlockDevice.Notify: its precondition is that the loop ends, which buffers overlapping the rings can prevent; the register file, feature negotiation and reset are not modelled.
- VirtioModel.OutThenIn: for buffers of the reading request whose addresses do not overlap, which the driver owes.
- VirtioRequests.OutThenInServed: the same, with the status byte and the rings among the places that do not overlap.
- VirtioDriver.DriverRoundTrip: the same.
- Firmware.Hart.ConsolePutchar: the waiting loop runs over a finite list of heads it observes; a consumer that never advances leaves it waiting.
- Firmware.Hart.MTrap: ends before mret itself, so pc, privilege and mstatus are not in its state; the registers no instruction of the handler names are not fields; the fail and reset loops end the model there.
- FirmwareRings.PutcharProduces: the launcher's moves between two accesses appear as the head word that the later access reads.
- OutputRing.NothingLost: the diagnostics the launcher prints for certain lines, and the console it prints them on, are left out; word accesses are sequentially consistent.
- InputRing.NothingLost: the one-byte mailbox beside the ring is left out: its byte can be overtaken by ring bytes.
- ConsoleRings.DrainConsoleRing: yields bytes; their rendering as text is left out.
- Assembler.PassesAgree: starts from parsed items with name labels; text lexing and numeral labels are left out, and the instructions that are always one word and use no label are one kind of item.
- Toolchain.BranchReachesLabel: for M-mode, where addresses are not translated.
- Elf.BuildElf: the command line around it is left out.
- ElfFiles.LauncherReads: for files whose loadable segments lie inside them; one that does not has code -10 unless its end wraps at 2^32, where the source reads through wrapped addresses.
- Elf.Launcher.LoadIntoImem: the file is read through 32-bit pointers into a flat memory, so reads past its end are defined by that memory and not by the file.
- Console.HdmiConsole.PutTab: the LCD copy of each blank is left out, as is the whole LCD console, whose last attribute word would read past its 1020 cells.
- Console.HdmiConsole.Init: font upload, mode registers and the hardware clear are left out.
- AxiBridge.Bridge.Clock: reset happens before the first cycle only; the constant outputs (sizes, bursts, protection) and response codes, which the bridge ignores, are not fields.
- The core, caches, prefetch and GPU sources are not part of this model, nor are userspace tools, scripts, fonts and the smaller register blocks.
