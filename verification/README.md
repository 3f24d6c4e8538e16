# A verified model of vemu

vemu is an RV64IMA interpreter with a permission-tracking memory, a memoising decoder, a trap and interrupt state machine
and a small fuzzing harness. This project models those parts in Dafny and proves that the C++ way of computing (casts,
masks, caches, `pc -= 4` before the loop's `pc += 4`) agrees with the mathematics of the RISC-V Unprivileged ISA
(20191213) and Privileged ISA (v1.12), and that whole runs keep the invariants the emulator relies on.

`dafny verify dfyconfig.toml` checks everything.

## How it is built

| modules | what they hold |
|---|---|
| `Bits`, `Words` | binary digits of numbers; C++ integer types as ranges of integers, conversions as reductions modulo 2^width |
| `Names`, `Alu`, `MulDivLaws`, `Atomics` | instruction names; every integer, M and atomic operation twice, as the ISA defines it and as the source computes it |
| `DecodeTables`, `Decoder`, `Encoding` | the opcode and function tables, the decoder object with its two caches, and the encodings it must invert |
| `Memory`, `MemoryRuns`, `Snapshots`, `Mmu` | RAM as a value, theorems about runs of its operations and about resets, and the MMU object whose loops refine it |
| `Privileged`, `Interrupts`, `PrivilegedIsa` | trap, MRET and SRET; interrupt selection and taking; and the Privileged ISA stated digit by digit, with the exact conditions under which the code meets it |
| `RegisterFile`, `Isa`, `IsaExceptions`, `Refinement`, `Runs`, `Emulator` | the register file; one step of the machine; the exceptions the manuals prescribe; the proof that the source's values are the architectural ones; whole runs; the emulator object up to its run loop |
| `AccessLaws`, `ComputeLaws`, `SystemLaws`, `InterruptLaws` | what one step does, mnemonic by mnemonic, in plain numbers: sizes, bytes, CSR addresses, causes and digits are written out and not taken from the model |
| `Stack`, `FileReads`, `Process` | the initial stack; the READ call; the object part that builds arguments and answers brk and READ |
| `Mutation`, `Random`, `HarnessLaws` | the fuzzer's mutation history and its xorshift generator; what memory operations, brk, mutation and the generator do to single bytes, places and digits |

Objects that the source updates in place are classes (`MMU`, `InstructionDecoder`, `RegFile`, `VEmu`, `Guest`, `FileInfo`,
`Generator`). Each of their methods is proved to compute a function of the old state, and the theorems are about those
functions. `Guest` is the part of the emulator object that the fuzzing build uses; `VEmu` is the default build.

The central result is `Emulator.VEmu.Run`. Any number of iterations of the run loop (UART event, interrupt check, taking an
interrupt, fetch, cached decode, execute, trap, `pc += 4`) takes the object from the view it has to `Runs.Cycles` of that
view, where an iteration is `Isa.Step` after `Interrupts.Begin`. `Isa.Step` covers every instruction but the floating-point
ones: RV64I and RV64M in exact arithmetic on unsigned 64-bit words, loads and stores, all of RV64A, the CSR instructions,
environment calls, breakpoints, illegal instructions, and the trap entry and return they lead to. `Runs.EncodedStep` ties it
to the instruction encodings, `Runs.GuestRunIsMemoryRun` to the memory theorems, `Runs.ExceptionThenSret` and
`Runs.ExceptionThenMret` to the trap theorems. Where the step is the emulator's own, `PrivilegedIsa` and `IsaExceptions`
state the manuals independently and prove exactly when the two agree.

## Where the code departs from its evident intent

The model follows the code. Each departure is part of the step or has a lemma that says exactly when it matters.

- A store marks only the block of its first byte dirty: `Snapshots.ResetAfterOneStoreExactly` says when a reset still
  restores the snapshot, `Snapshots.StraddlingStoreBreaksReset` gives a store after which it does not. `write_from` marks
  no block, so the bytes READ delivers are not restored: `Snapshots.ResetAfterWriteExactly`,
  `Snapshots.ResetAfterReadExactly`, `Snapshots.WriteBreaksReset`. For whole runs, `Snapshots.ResetAfterRunExactly`.
- A reset leaves permissions and allocation pointer as the run left them. They are the snapshot's exactly under the
  conditions of `Snapshots.PermissionsAfterRunExactly` and `Snapshots.PointerAfterRunExactly`, for every run;
  `Snapshots.StoreLosesPermissions` and `Snapshots.ResetLosesPermissionsAndPointer` are runs after which they are not.
- LB, LH and LW drop the fault of their access and sign-extend what rd held: `Runs.LoadFaultsReportedExactly`,
  `Runs.SignedLoadHidesFault`. LR.W extends with zeros: `Runs.LoadReservedMeetsIsaExactly`. SC always succeeds.
- MRET compares the two digits of MPP with 0x11, so returning to machine mode aborts: `Privileged.MretAbortsExactly`,
  `Privileged.TrapInMachineModeNeverReturns`.
- MRET and SRET test no mode and do not clear MPRV: `PrivilegedIsa.MretFollowsIsaExactly` and
  `PrivilegedIsa.SretFollowsIsaExactly` say when they are the prescribed returns, `PrivilegedIsa.MretInUserMode` and
  `PrivilegedIsa.SretInUserMode` are cases in which they are not.
- SSTATUS is stored apart from MSTATUS instead of being a view of it, so delegated traps and SRET leave SIE, SPIE and SPP
  in MSTATUS alone: part of `PrivilegedIsa.SupervisorEntryExactly` and `PrivilegedIsa.SretFollowsIsaExactly`, with a failing
  state in `PrivilegedIsa.MstatusMissesEntry`.
- Control transfers to an address that is not a multiple of four raise nothing, a misaligned AMO reports a load, and CSR
  instructions check neither privilege nor read-only numbers. `IsaExceptions.RaisesAsPrescribedExactly` lists all the families
  for which another exception, or none, is raised; `IsaExceptions.JumpToSix`, `IsaExceptions.AmoReportsLoad` and
  `IsaExceptions.UserWritesMstatus` are members of three.
- The masks `~1U` and `~(1U << k)` are 32 bits wide. They clear the upper half of the saved pc, of the handler address and
  of the status registers on a trap: `PrivilegedIsa.MachineEntryExactly` and `PrivilegedIsa.SupervisorEntryExactly` say
  when a trap is the prescribed one, `PrivilegedIsa.HighPcIsLost` is one that is not.
- Taking an interrupt sets pc four below the handler just before a fetch: `Interrupts.InterruptMissesHandler`.
- CSRRC, CSRRCI and writes to SIE negate logically: `PrivilegedIsa.LogicalClearExactly`, `PrivilegedIsa.SieWriteExactly`,
  with failing inputs in `PrivilegedIsa.LogicalClearFails` and `PrivilegedIsa.SieWriteLosesEnables`.
- Division by zero also sets digit 3 of FFLAGS: `Runs.FlagsMeetIsaExactly`, `Runs.DivisionSetsFlag`.
- `RS3_MASK` lacks a bit: `DecodeTables.Rs3DropsItsLowestBit`. Two instructions have no printable name, so decoding them
  throws: `DecodeTables.ThrowsExactly`. FSQRT.S decodes but has no method: `DecodeTables.OnlySquareRootLacksHandler`,
  `DecodeTables.SquareRootDecodes`.
- READ leaves A0 alone when nothing is read, at the end of the file or with count 0, so that it answers with the
  descriptor: `FileReads.AnswersCountExactly`, `FileReads.EndOfFileAnswersDescriptor`.
- A mutated byte is never 0xFF: part of the invariant `Mutation.Remembers`.

## Model

| member | source | states |
|---|---|---|
| `Alu.OpRefinesIsa` | src/VEmu.cpp:1151-1622 | for all operands, each of the 28 register-register methods of RV64I and RV64M computes, through casts and 128-bit products, the word the ISA defines on unsigned words |
| `Alu.OpImmRefinesIsa` | src/VEmu.cpp:505-689 | each immediate method equals its register form applied to the sign-extended immediate |
| `MulDivLaws.ProductRecombines` | src/VEmu.cpp:1281-1356 | MUL as low half with MULH, MULHU or MULHSU as high half gives the exact signed, unsigned or mixed 128-bit product (section 7.1 of the Unprivileged ISA) |
| `MulDivLaws.SignedDivisionLaw` | src/VEmu.cpp:1358-1467 | DIV and REM: dividend = quotient * divisor + remainder modulo 2^64 for every divisor, exact except for the one overflow; bound and sign of the remainder; values for divisor zero (section 7.2) |
| `MulDivLaws.SignedDivisionLawW` | src/VEmu.cpp:1401-1511 | the same law for DIVW and REMW in 32-bit arithmetic |
| `MulDivLaws.UnsignedDivisionLaw` | src/VEmu.cpp:1380-1487 | DIVU and REMU: exact division with a remainder below the divisor; all ones and the dividend for divisor zero |
| `MulDivLaws.UnsignedDivisionLawW` | src/VEmu.cpp:1426-1533 | the same for DIVUW and REMUW |
| `MulDivLaws.WordResultsAreSignExtended` | src/VEmu.cpp:1163-1598 | every 32-bit instruction leaves a sign-extended 32-bit value |
| `Atomics.AmoWRefines` | src/VEmu.cpp:1751-2036 | the datum each of the nine 32-bit atomics stores has the word of section 8.4 in its low half, with the right signedness |
| `Atomics.AmoDRefines` | src/VEmu.cpp:2038-2310 | the same for the nine 64-bit atomics |
| `Decoder.InstructionDecoder.constructor` | src/InstructionDecoder.cpp:10-55 | the caches start with the fixed MRET and SRET entries and are truthful |
| `Decoder.InstructionDecoder.InstrType` | src/InstructionDecoder.cpp:599-648 | the cached type of an opcode is the one the tables give, whatever was looked up before |
| `Decoder.InstructionDecoder.GetFields` | src/InstructionDecoder.cpp:656-685 | fields and immediate are those of the word's format |
| `Decoder.InstructionDecoder.SearchR` | src/InstructionDecoder.cpp:735-848 | the table search for R words, floating-point ones included, finds the listed instruction or throws |
| `Decoder.InstructionDecoder.Search` | src/InstructionDecoder.cpp:850-929 | the table searches of the other formats find the listed instruction |
| `Decoder.InstructionDecoder.Decode` | src/InstructionDecoder.cpp:57-83 | the answer equals the stateless decoder's for every cache content reachable by decoding; both caches stay truthful and old entries stay |
| `DecodeTables.RRowIsListed` | src/InstructionDecoder.cpp:735-757 | among the rows of the R tables exactly the listed name matches, so map order is irrelevant |
| `DecodeTables.IRowIsListed` | src/InstructionDecoder.cpp:863-885 | the same for I rows, shifts with their funct6 or funct7 and ECALL/EBREAK included |
| `DecodeTables.BRowIsListed` | src/InstructionDecoder.cpp:887-896 | the same for branch rows |
| `DecodeTables.SRowIsListed` | src/InstructionDecoder.cpp:898-907 | the same for store rows |
| `DecodeTables.FpRowIsListed` | src/InstructionDecoder.cpp:772-784 | the same for floating-point rows with funct3 |
| `DecodeTables.ThrowsExactly` | src/InstructionDecoder.cpp:712-715 | decoding throws exactly for the words of FNMADD.S and FCVT.S.L |
| `DecodeTables.Rs3DropsItsLowestBit` | src/InstructionDecoder.cpp:960-963 | the third source register is extracted rightly exactly when its lowest bit is clear |
| `DecodeTables.OnlySquareRootLacksHandler` | src/VEmu.cpp:111-244 | among all names exactly FSQRT.S is missing from the function table |
| `DecodeTables.SquareRootDecodes` | src/InstructionDecoder.cpp:786-835 | though the decoder answers with it |
| `Encoding.EncodeDecode` | src/InstructionDecoder.cpp:863-1063 | encoding any well-formed I, S, B, U, J, integer R, atomic (any aq and rl) or CSR instruction and decoding it gives back name, registers and sign-extended immediate |
| `Encoding.UnpackB` | src/InstructionDecoder.cpp:1023-1034 | the branch offset is unscrambled and sign-extended from its packed places |
| `Encoding.UnpackJ` | src/InstructionDecoder.cpp:1041-1053 | the jump offset is unscrambled and sign-extended from its packed places |
| `Encoding.UnpackR4` | src/InstructionDecoder.cpp:931-968 | the fields of the format with three source registers, the third without its lowest bit |
| `Memory.OrBytesIsLe` | src/MMU.cpp:179-227 | or-ing shifted bytes together is the little-endian number, at any width |
| `Memory.ShiftBytesIsLeBytes` | src/MMU.cpp:229-267 | shifting and masking a datum gives its base-256 digits |
| `Memory.LoadAfterStore` | src/MMU.cpp:107-154 | after a store of any width, a load of any width at any overlapping, misaligned or disjoint address reads the little-endian number of a flat byte map |
| `Memory.StoreThenLoad` | src/MMU.cpp:58-154 | loading what was stored gives it back modulo its width, and is permitted exactly when each byte was readable or raw |
| `Mmu.MMU.constructor` | src/MMU.cpp:5-10 | a fresh memory permits nothing and allocates from 0x10000 |
| `Mmu.MMU.Copy` | include/MMU.h:18-25 | a snapshot equals its original and shares no buffer with it, buffers having their full size |
| `Mmu.MMU.SetPerms` | src/MMU.cpp:12-17 | the range gets the permissions, nothing else changes |
| `Mmu.MMU.Allocate` | src/MMU.cpp:19-26 | the old pointer is returned, the region becomes raw and writable |
| `Mmu.MMU.ResetTo` | src/MMU.cpp:28-37 | over the dirty blocks in any order, exactly their bytes come back and the dirty set empties |
| `Mmu.MMU.LoadFile` | src/MMU.cpp:39-56 | the loop over segments refines the run of segment loads |
| `Mmu.MMU.LoadSegment` | src/MMU.cpp:41-54 | a segment's bytes are cut or zero-padded to its memory size, its permissions set, the pointer raised |
| `Mmu.MMU.WriteFrom` | src/MMU.cpp:58-77 | the bytes are written, and exactly the raw ones among them become readable |
| `Mmu.MMU.ReadTo` | src/MMU.cpp:79-105 | bytes and status; a raw byte outranks an unreadable one |
| `Mmu.MMU.Load` | src/MMU.cpp:107-129 | the little-endian number of the bytes, with their status |
| `Mmu.MMU.Store` | src/MMU.cpp:131-154 | the low bytes are written and the first byte's block is marked dirty |
| `Mmu.MMU.ReadString` | src/MMU.cpp:156-165 | the bytes up to and including the first NUL; the distance to it is the measure |
| `Mmu.MMU.LoadInsn` | src/MMU.cpp:167-177 | the little-endian word, whatever the permissions |
| `MemoryRuns.StepTracked` | src/MMU.cpp:12-77 | every operation keeps: RAW and READ never coexist, and a readable byte holds what was last written to it |
| `MemoryRuns.LoadTrackedExactly` | src/MMU.cpp:39-56 | loading a segment keeps it if and only if the segment is empty or its permissions are not both RAW and READ |
| `MemoryRuns.ReadsReturnLastWrites` | src/MMU.cpp:19-105 | over every run from a fresh memory, a read is normal exactly when all bytes are READ, and then returns the last bytes written since allocation |
| `Snapshots.StoreKeepsDirty` | src/MMU.cpp:131-154 | a store inside one block keeps: every byte that differs from the snapshot lies in a dirty block |
| `Snapshots.ResetRestoresSnapshot` | src/MMU.cpp:28-37 | after any run of block-local stores, a reset restores every byte and empties the dirty set |
| `Snapshots.ResetAfterOneStoreExactly` | src/MMU.cpp:150-151 | after one store of any kind the reset restores the snapshot if and only if the store stays in its block, the next block was dirty, or the spilled bytes are unchanged |
| `Snapshots.StraddlingStoreBreaksReset` | src/MMU.cpp:150-151 | a store across a block boundary that a reset does not undo |
| `Snapshots.ResetAfterWriteExactly` | src/MMU.cpp:58-77 | after one `write_from` the reset restores the snapshot if and only if every written byte is in an already dirty block or unchanged |
| `Snapshots.ResetAfterReadExactly` | src/VEmu.cpp:853-853 | the same for the buffer that READ writes |
| `Snapshots.WriteBreaksReset` | src/MMU.cpp:58-77 | a write that a reset does not undo |
| `Snapshots.ResetAfterRunExactly` | src/MMU.cpp:28-37 | after any run of loads, allocations, writes and stores the bytes come back if and only if every byte outside the dirty and marked blocks was never written or was last written with its old value |
| `Snapshots.PermissionsAfterRunExactly` | src/MMU.cpp:28-37 | after any run of loads, allocations, writes and stores the permissions are the snapshot's if and only if, at every byte, the permissions last given to it (or its own), changed as by a write if it was written since, are |
| `Snapshots.PermissionsAfterWritesExactly` | src/MMU.cpp:28-37 | for runs of writes and stores alone: if and only if no raw byte was written |
| `Snapshots.PointerAfterRunExactly` | src/MMU.cpp:28-37 | after any run the allocation pointer is the snapshot's if and only if nothing was allocated, nor loaded above it |
| `Snapshots.StoreLosesPermissions` | src/MMU.cpp:71-74 | a store into allocated raw memory whose permissions a reset leaves changed |
| `Snapshots.ResetLosesPermissionsAndPointer` | src/MMU.cpp:19-37 | an allocation and a store after which a reset restores every byte, but neither permissions nor pointer |
| `MemoryRuns.RoundUpIsLeastMultiple` | src/MMU.cpp:52-54 | the mask gives the least multiple of 64 KiB at or above the segment's end |
| `MemoryRuns.AllocationsAreDisjoint` | src/MMU.cpp:19-56 | whatever allocations and brk calls follow a load, their regions lie in RAM, disjoint from each other and from every segment |
| `MemoryRuns.BrkMovesTheBreak` | src/VEmu.cpp:699-708 | a granted nonzero brk returns its argument and makes it the allocation pointer |
| `MemoryRuns.BrkRefusedExactly` | src/VEmu.cpp:701-704 | a nonzero brk is refused exactly when it is below the allocation pointer, or at least 2^63 and so far above it that the signed difference wraps around |
| `MemoryRuns.BrkIsAllocation` | src/VEmu.cpp:699-708 | as a memory operation brk is an allocation or nothing |
| `Privileged.TrapSstatusBits` | src/VEmu.cpp:2484-2500 | SSTATUS after a delegated trap, bit by bit: SPIE takes SIE, SIE clears, SPP records the mode, the upper half is lost (section 3.1.6.1 of the Privileged ISA) |
| `Privileged.TrapMstatusBits` | src/VEmu.cpp:2517-2540 | the same for MSTATUS and MPIE, MIE, MPP |
| `Privileged.SretSstatusBits` | src/VEmu.cpp:2357-2370 | SSTATUS after SRET, bit by bit |
| `Privileged.MretMstatusBits` | src/VEmu.cpp:2327-2341 | MSTATUS after MRET, bit by bit |
| `Privileged.TrapThenSret` | src/VEmu.cpp:2346-2373 | a delegated trap, any handler that keeps the saved context, then SRET: mode and interrupt enable return, and the pc if and only if it is even and below 2^32 |
| `Privileged.TrapThenMret` | src/VEmu.cpp:2312-2344 | the same for an undelegated trap from user or supervisor mode and MRET |
| `Privileged.NestedTrapsReturn` | src/VEmu.cpp:2449-2546 | an undelegated trap inside a delegated handler: both returns restore their contexts in order |
| `Privileged.MretAbortsExactly` | src/VEmu.cpp:2316-2325 | MRET reaches its assertion if and only if the upper bit of MPP is set |
| `Privileged.TrapInMachineModeNeverReturns` | src/VEmu.cpp:2316-2325 | so the MRET after a trap taken in machine mode always aborts |
| `PrivilegedIsa.MachineEntryExactly` | src/VEmu.cpp:2501-2541 | an undelegated trap is the one section 3.1.6.1 prescribes, stated independently, if and only if pc is even, the vector register has a defined mode, and pc, vector register and MSTATUS are below 2^32 |
| `PrivilegedIsa.SupervisorEntryExactly` | src/VEmu.cpp:2463-2500 | a delegated trap is the prescribed one, with SSTATUS as the view of MSTATUS that section 4.1.1 makes it, if and only if the same holds of the supervisor registers and MSTATUS already reads as it should afterwards |
| `PrivilegedIsa.HighPcIsLost` | src/VEmu.cpp:2509-2509 | a trap above 2^32 that is not the prescribed one |
| `PrivilegedIsa.MstatusMissesEntry` | src/VEmu.cpp:2484-2500 | a delegated trap that leaves SIE set in MSTATUS |
| `PrivilegedIsa.MretFollowsIsaExactly` | src/VEmu.cpp:2312-2344 | MRET is the prescribed return if and only if it is executed in machine mode, MPP names another mode and MPRV is clear |
| `PrivilegedIsa.MretInUserMode` | src/VEmu.cpp:2312-2344 | a state in user mode whose MRET returns |
| `PrivilegedIsa.SretFollowsIsaExactly` | src/VEmu.cpp:2346-2373 | SRET is the prescribed return if and only if it is legal in its mode and MSTATUS already has SIE and SPIE set and SPP and MPRV clear |
| `PrivilegedIsa.SretInUserMode` | src/VEmu.cpp:2346-2373 | a state in user mode whose SRET enters supervisor mode |
| `PrivilegedIsa.SieWriteExactly` | src/VEmu.cpp:352-354 | a write to SIE is the masked write if and only if MIDELEG is 0 and MIE at most 1, or MIDELEG is nonzero and covers MIE |
| `PrivilegedIsa.SieWriteLosesEnables` | src/VEmu.cpp:352-354 | a write to SIE that loses an enable bit |
| `PrivilegedIsa.LogicalClearExactly` | src/VEmu.cpp:936-1003 | CSRRC and CSRRCI clear the operand's digits if and only if the operand is 0 and the CSR at most 1, or the operand is nonzero and covers the CSR |
| `PrivilegedIsa.LogicalClearFails` | src/VEmu.cpp:936-1003 | operands for which they do not |
| `IsaExceptions.RaisesAsPrescribedExactly` | src/VEmu.cpp:331-334 | each instruction raises the exception the manuals prescribe if and only if it is not a transfer to a misaligned target, a forbidden CSR access, a return its mode may not execute, a misaligned AMO, or a sign-extending load that faults |
| `IsaExceptions.JumpToSix` | src/VEmu.cpp:1624-1637 | a JAL to address 6 that raises nothing |
| `IsaExceptions.AmoReportsLoad` | src/VEmu.cpp:1788-1790 | a misaligned AMO that reports a load |
| `IsaExceptions.UserWritesMstatus` | src/VEmu.cpp:902-917 | a CSRRW to MSTATUS in user mode that raises nothing |
| `Interrupts.CheckTakes` | src/VEmu.cpp:2411-2438 | a call that delivers an interrupt removes that one from the enabled pending set and nothing else |
| `Interrupts.DrainDeliversAllInOrder` | src/VEmu.cpp:2392-2438 | with interrupts enabled, repeated calls deliver the whole enabled pending set in priority order, then none (section 3.1.9) |
| `Interrupts.ListedOnce` | src/VEmu.cpp:2418-2438 | that list has exactly the members of the set, strictly ordered, so none twice |
| `Interrupts.ClaimAddsSupervisorExternal` | src/VEmu.cpp:2404-2409 | a UART event adds the supervisor external interrupt to the enabled pending set if it is enabled, and nothing else |
| `Interrupts.InterruptVector` | src/VEmu.cpp:2633-2634 | four times the cause, which has digit 63 set, is four times its code: the vectored address of section 3.1.7 |
| `Interrupts.InterruptMissesHandler` | src/VEmu.cpp:2633-2635 | the fetch after taking an interrupt is at the handler's address less four, never at the handler |
| `Interrupts.InterruptThenSret` | src/VEmu.cpp:2614-2665 | an interrupt taken to supervisor mode, any handler, SRET: mode and interrupt enable return, and the pc if and only if it could be saved |
| `Interrupts.InterruptThenMret` | src/VEmu.cpp:2666-2710 | the same for machine mode and MRET |
| `RegisterFile.RegFile.StoreReg` | src/RegFile.cpp:5-10 | the register takes the value; x0 stays zero |
| `Refinement.RegsRefine` | src/VEmu.cpp:505-1678 | the registers the computing methods leave are the architectural ones, read as unsigned words |
| `Refinement.PcRefines` | src/VEmu.cpp:1005-1101 | pc left four short, plus four, is the architectural next address, for branches, jumps and all others |
| `Refinement.JalrRefines` | src/VEmu.cpp:1639-1655 | JALR's masked 64-bit sum, four short, plus four, is the even target |
| `Refinement.LoadRegsRefine` | src/VEmu.cpp:380-503 | the registers after each load, faulting or not, are those of the step |
| `Refinement.StoreRefines` | src/VEmu.cpp:1103-1149 | masking the datum before the store changes nothing of what is stored |
| `Emulator.VEmu.constructor` | src/VEmu.cpp:19-36 | the initial state |
| `Emulator.VEmu.Compute` | src/VEmu.cpp:505-1678 | the computing methods take the object to the architectural registers, pc and CSRs |
| `Emulator.VEmu.ExecBranch` | src/VEmu.cpp:1005-1101 | a taken branch leaves pc four short of its target, an untaken one leaves it alone |
| `Emulator.VEmu.ExecJump` | src/VEmu.cpp:1624-1655 | link and target, with the base read before rd is written |
| `Emulator.VEmu.LoadUnsigned` | src/VEmu.cpp:405-503 | value and exception of the zero-extending loads; a fault leaves rd alone |
| `Emulator.VEmu.LoadSigned` | src/VEmu.cpp:380-437 | the sign-extending loads drop the fault and extend whatever rd holds |
| `Emulator.VEmu.ExecStore` | src/VEmu.cpp:1103-1149 | memory becomes the step's memory, nothing else changes |
| `Emulator.VEmu.ExecAmo` | src/VEmu.cpp:1751-2310 | an aligned readable atomic stores op(old, rs2) and puts the sign-extended old value in rd, even if rd is rs1 or rs2; a misaligned or unreadable one changes nothing and raises |
| `Emulator.VEmu.ExecLr` | src/VEmu.cpp:1680-1717 | LR.W and LR.D: exceptions, and the loaded value without sign extension |
| `Emulator.VEmu.ExecSc` | src/VEmu.cpp:1719-1749 | SC.W and SC.D: the aligned store always happens and rd gets 0 |
| `Emulator.VEmu.ExecCsr` | src/VEmu.cpp:902-1003 | the six CSR instructions: old value to rd, new value written, also when rd is rs1 |
| `Emulator.VEmu.StoreCsr` | src/VEmu.cpp:350-358 | the CSR array after a write; a write to SIE changes MIE as `PrivilegedIsa.SieWriteExactly` describes |
| `Emulator.VEmu.Trap` | src/VEmu.cpp:2449-2546 | the sequence of CSR updates is the trap function of the old state |
| `Emulator.VEmu.ExecMret` | src/VEmu.cpp:2312-2344 | the sequence of updates is the MRET function |
| `Emulator.VEmu.ExecSret` | src/VEmu.cpp:2346-2373 | the sequence of updates is the SRET function |
| `Emulator.VEmu.CheckPendingInterrupt` | src/VEmu.cpp:2392-2438 | with or without a UART event, the first enabled pending interrupt is selected and its bit cleared |
| `Emulator.VEmu.ExecTakeInterrupt` | src/VEmu.cpp:2614-2710 | the sequence of updates is the interrupt function, for either outcome of the undefined shift |
| `Emulator.VEmu.ExecSystem` | src/VEmu.cpp:883-900 | ECALL, EBREAK, MRET, SRET and illegal words have the step's effect |
| `Emulator.VEmu.Execute` | src/VEmu.cpp:331-332 | the dispatched method has the step's effect, with the exception it returns |
| `Emulator.VEmu.ExecuteAndAdvance` | src/VEmu.cpp:331-338 | execute, trap on an exception, stop on a fatal one, otherwise `pc += 4`: the outcome of one step, and whether the emulator stops |
| `Emulator.VEmu.Iterate` | src/VEmu.cpp:304-337 | one loop iteration: take the interrupt that is due, then one step of the fetched, decoded instruction, and whether it stops the emulator |
| `Emulator.VEmu.Run` | src/VEmu.cpp:302-339 | any number of iterations is that many cycles of the machine, whatever the caches hold and whatever interrupts arrive, ending early exactly on a fatal exception |
| `Runs.EncodedStep` | src/VEmu.cpp:321-332 | a machine at the encoding of an instruction fetches that instruction with its own operands |
| `Runs.ResetUndoesGuestRun` | src/MMU.cpp:28-37 | in the default build: snapshot, any guest run whose plain stores stay in a block, reset: every byte is back; atomics need no condition |
| `Runs.GuestRunIsMemoryRun` | src/VEmu.cpp:302-339 | a guest run acts on memory as the run of its stores, so the memory theorems hold while the guest executes |
| `Runs.ResetAfterGuestRunExactly` | src/MMU.cpp:28-37 | after any guest run at all, the exact condition under which a reset restores the snapshot's bytes |
| `Runs.StoreThenLoadStep` | src/VEmu.cpp:374-503 | a store step and a load step of the same width and address: sign or zero extension of what was stored, granted exactly when each byte was readable or raw |
| `Runs.LoadFaultsReportedExactly` | src/VEmu.cpp:380-503 | a load reports the fault of its access exactly when it is zero-extending or there is none |
| `Runs.SignedLoadHidesFault` | src/VEmu.cpp:380-390 | a state in which LB reads forbidden memory without an exception |
| `Runs.LoadReservedMeetsIsaExactly` | src/VEmu.cpp:1695-1695 | LR.W leaves the sign-extended word if and only if it is below 2^31 |
| `Runs.FlagsMeetIsaExactly` | src/VEmu.cpp:1367-1438 | the CSRs are untouched, as the ISA prescribes, if and only if there is no division by zero or digit 3 of FFLAGS was set |
| `Runs.DivisionSetsFlag` | src/VEmu.cpp:1367-1367 | a division that changes FFLAGS |
| `Runs.ExceptionThenSret` | src/VEmu.cpp:333-334 | any instruction whose exception is delegated, any handler, SRET: back in its mode, at the same instruction if and only if its address could be saved |
| `Runs.ExceptionThenMret` | src/VEmu.cpp:333-334 | the same for exceptions that are not delegated, and MRET |
| `AccessLaws.SBLaw` | src/VEmu.cpp:1103-1113 | after SB only the byte at rs1 plus the immediate changes, to rs2 modulo 256; raw becomes readable; pc moves on by four; nothing else changes |
| `AccessLaws.SHLaw` | src/VEmu.cpp:1115-1125 | SH replaces exactly two bytes by the base-256 digits of rs2 |
| `AccessLaws.SWLaw` | src/VEmu.cpp:1127-1137 | SW exactly four |
| `AccessLaws.SDLaw` | src/VEmu.cpp:1139-1149 | SD exactly eight |
| `AccessLaws.LBULaw` | src/VEmu.cpp:405-425 | LBU leaves exactly one byte in rd, if it may be read |
| `AccessLaws.LHULaw` | src/VEmu.cpp:439-459 | LHU the number of exactly two |
| `AccessLaws.LWULaw` | src/VEmu.cpp:483-503 | LWU the number of exactly four |
| `AccessLaws.LDLaw` | src/VEmu.cpp:461-481 | LD the number of exactly eight |
| `AccessLaws.LBLaw` | src/VEmu.cpp:380-390 | LB leaves v, or v + 2^64 - 256 from 128 on, where v is the byte, or the low byte of rd if it may not be read |
| `AccessLaws.LHLaw` | src/VEmu.cpp:427-437 | the same with two bytes |
| `AccessLaws.LWLaw` | src/VEmu.cpp:392-403 | the same with four |
| `AccessLaws.AmoWordLaw` | src/VEmu.cpp:1751-2036 | each of the nine 32-bit atomics, by name: exactly four bytes change, rd receives the old number with its sign |
| `AccessLaws.AmoDoubleLaw` | src/VEmu.cpp:2038-2310 | each of the nine 64-bit ones: exactly eight |
| `AccessLaws.LrWordLaw` | src/VEmu.cpp:1680-1698 | LR.W leaves the number of four bytes |
| `AccessLaws.LrDoubleLaw` | src/VEmu.cpp:1700-1717 | LR.D of eight |
| `AccessLaws.ScWordLaw` | src/VEmu.cpp:1719-1733 | SC.W replaces exactly four bytes and rd becomes 0 |
| `AccessLaws.ScDoubleLaw` | src/VEmu.cpp:1735-1749 | SC.D exactly eight |
| `ComputeLaws.RegisterLaw` | src/VEmu.cpp:1151-1622 | a register-register instruction sets rd to its result and moves pc on by four, and nothing else |
| `ComputeLaws.SllwLaw` | src/VEmu.cpp:1220-1240 | SLLW multiplies the lower half by a power of two, with the sign of the lower half of the product |
| `ComputeLaws.SrlwLaw` | src/VEmu.cpp:1549-1566 | SRLW divides the lower half |
| `ComputeLaws.SrawLaw` | src/VEmu.cpp:1582-1598 | SRAW divides the signed lower half, rounding down |
| `ComputeLaws.BitwiseLaw` | src/VEmu.cpp:1269-1622 | XOR, OR and AND digit by digit |
| `ComputeLaws.DivideByZeroLaw` | src/VEmu.cpp:1358-1447 | a division by zero also sets digit 3 of CSR 1 |
| `ComputeLaws.ImmediateLaw` | src/VEmu.cpp:505-689 | each immediate instruction, by name, computes its register form on the signed immediate modulo 2^64 |
| `ComputeLaws.LuiLaw` | src/VEmu.cpp:1657-1666 | LUI leaves the signed immediate modulo 2^64 |
| `ComputeLaws.AuipcLaw` | src/VEmu.cpp:1668-1678 | AUIPC leaves pc plus the signed immediate |
| `ComputeLaws.JalLaw` | src/VEmu.cpp:1624-1637 | JAL links pc plus four and goes to pc plus its offset |
| `ComputeLaws.JalrLaw` | src/VEmu.cpp:1639-1655 | JALR goes to rs1 plus its offset, made even |
| `ComputeLaws.BranchLaw` | src/VEmu.cpp:1005-1101 | each of the six branches goes to pc plus its offset exactly if its comparison holds |
| `SystemLaws.CsrWriteLaw` | src/VEmu.cpp:902-969 | after CSRRW a CSR other than SIE is rs1, after CSRRWI the number rs1; rd receives the old value; nothing else changes |
| `SystemLaws.CsrSetLaw` | src/VEmu.cpp:919-934 | after CSRRS a digit is set if and only if it was, or is in rs1 |
| `SystemLaws.CsrSetImmediateLaw` | src/VEmu.cpp:971-986 | the same for CSRRSI and the number rs1 |
| `SystemLaws.CsrClearLaw` | src/VEmu.cpp:936-1003 | after CSRRC and CSRRCI the CSR is 0, or its digit 0 if the operand is 0 |
| `SystemLaws.SieReadLaw` | src/VEmu.cpp:341-348 | reading SIE gives the digits that MIE and MIDELEG share |
| `SystemLaws.SieWriteLaw` | src/VEmu.cpp:350-358 | writing SIE leaves in MIE the delegated digits of the value, and digit 0 of MIE if nothing is delegated; no other CSR changes |
| `SystemLaws.SieStep` | src/VEmu.cpp:902-1003 | the CSR instructions on SIE read and write it so |
| `SystemLaws.IllegalLaw` | src/VEmu.cpp:2375-2384 | an illegal word traps with cause 2 |
| `SystemLaws.BreakpointLaw` | src/VEmu.cpp:900-900 | EBREAK with cause 3 |
| `SystemLaws.EnvironmentCallLaw` | src/VEmu.cpp:883-898 | ECALL with cause 8, 9 or 11 by mode, to supervisor mode exactly if the mode was not machine and that digit of MEDELEG is set |
| `SystemLaws.MisalignedAtomicLaw` | src/VEmu.cpp:1680-2310 | a misaligned AMO or LR with cause 4 |
| `SystemLaws.MisalignedStoreConditionalLaw` | src/VEmu.cpp:1719-1749 | a misaligned SC with cause 6, and the emulator stops for that alone |
| `SystemLaws.LoadFaultLaw` | src/VEmu.cpp:405-503 | a zero-extending load of bytes one of which is raw traps with cause 254, and otherwise with 253 if one may not be read |
| `SystemLaws.AtomicFaultLaw` | src/VEmu.cpp:1680-2310 | the same for LR and the AMOs |
| `SystemLaws.ReturnWords` | src/InstructionDecoder.cpp:10-49 | 0x30200073 decodes to MRET and 0x10200073 to SRET, with the listed fields |
| `SystemLaws.UnlistedWord` | src/InstructionDecoder.cpp:57-83 | a word of an unlisted opcode is illegal and has no fields |
| `SystemLaws.MretWordStep` | src/VEmu.cpp:2312-2344 | a machine at the word of MRET continues at MEPC, in user mode if MPP is 0 and in supervisor mode if it is 1 |
| `SystemLaws.SretWordStep` | src/VEmu.cpp:2346-2373 | a machine at the word of SRET continues at SEPC in the mode SPP names |
| `SystemLaws.ModelledNames` | include/defs.h:97-227 | the instructions that `Execute` covers are all but those of the floating-point names |
| `SystemLaws.CoveredLoadStore` | src/MMU.cpp:58-82 | a load or store is covered exactly when its bytes lie in RAM and those of a store are writable, as the assertions demand |
| `SystemLaws.CoveredAtomic` | src/VEmu.cpp:1680-2310 | an atomic is covered exactly when it is misaligned, or its bytes lie in RAM and are writable where it writes |
| `SystemLaws.CoveredOthers` | src/VEmu.cpp:2312-2325 | every other modelled instruction is covered, except MRET with the upper digit of MPP set |
| `InterruptLaws.InterruptTakenLaw` | src/VEmu.cpp:310-314 | in an iteration with interrupts enabled, the first of 11, 3, 7, 9, 1 and 5 set in MIE and MIP (9 also on a UART event) is cleared in MIP, 2^63 plus it is the cause, pc is saved, and mode and pc are those of its handler, less four |
| `InterruptLaws.NothingTakenLaw` | src/VEmu.cpp:2392-2438 | otherwise the hart is unchanged but for digit 9 of MIP on a UART event |
| `HarnessLaws.WriteLaw` | src/MMU.cpp:58-77 | `write_from` replaces exactly its bytes and marks no block |
| `HarnessLaws.AllocateLaw` | src/MMU.cpp:19-26 | exactly the allocated bytes become writable and raw, and neither readable nor executable |
| `HarnessLaws.SegmentLaw` | src/MMU.cpp:39-51 | byte by byte, a loaded segment holds its file's bytes and then zeros, with its own permissions |
| `HarnessLaws.SegmentPointerLaw` | src/MMU.cpp:52-54 | the pointer is at least the segment's end rounded up to 64 KiB |
| `HarnessLaws.FileLaw` | src/MMU.cpp:39-56 | after loading a file every byte and its permissions are those of the last segment that covers it, or as before |
| `HarnessLaws.GrabLaw` | src/MMU.cpp:19-26 | a request of the emulator itself hands out the region at the pointer and allocates it |
| `HarnessLaws.BrkRegionLaw` | src/VEmu.cpp:699-708 | a granted brk hands out exactly what lies between the old break and the new one |
| `HarnessLaws.BrkZeroLaw` | src/VEmu.cpp:701-707 | brk of zero answers the break and changes nothing |
| `HarnessLaws.BrkRefusedLaw` | src/VEmu.cpp:703-704 | a brk below the break answers minus one and changes nothing |
| `HarnessLaws.MutationLaw` | src/util.cpp:77-85 | a mutation changes exactly the byte that two random numbers choose, to a third modulo 255, and records its first value |
| `HarnessLaws.NextLaw` | src/util.cpp:48-53 | each digit of the generator's next state from the digits of its state |
| `Stack.PushWord` | src/VEmu.cpp:93-98 | a push keeps every word and string laid out so far |
| `Stack.AddText` | src/VEmu.cpp:100-107 | allocating a buffer and writing a string keeps them too |
| `Stack.FinishedStack` | src/VEmu.cpp:47-65 | the finished layout is argc, the argument pointers in order, then three zero words, from sp up |
| `Process.Guest.PushToStack` | src/VEmu.cpp:93-98 | sp moves down eight and the word is stored there |
| `Process.Guest.BuildArguments` | src/VEmu.cpp:38-66 | for any argument list that fits, construction leaves argc, argv and the zero words above sp, each pointer leading to its string and NUL; no other register changes |
| `Process.Guest.ReadArgument` | src/MMU.cpp:156-165 | following the i-th pointer reads the i-th argument and its NUL |
| `Process.Guest.Brk` | src/VEmu.cpp:699-708 | memory and A0 after brk; a refused one changes only A0 |
| `Process.Guest.Read` | src/VEmu.cpp:839-858 | buffer, file position and A0 after READ on the first handle with the descriptor |
| `FileReads.ReadsAreSequential` | src/VEmu.cpp:839-858 | over any run of READ calls the position is the start plus all counts, never past the end, and the delivered buffers concatenate to the file bytes in between |
| `FileReads.CopiesFileExactly` | src/VEmu.cpp:846-852 | the bytes to copy lie in the file if and only if the position does and position plus count does not wrap around |
| `FileReads.AnswersCountExactly` | src/VEmu.cpp:846-855 | A0 is the number of bytes delivered if and only if there was something to deliver or A0 was 0 |
| `FileReads.EndOfFileAnswersDescriptor` | src/VEmu.cpp:848-849 | at the end of its file descriptor 3 is answered with 3 |
| `Mutation.FileInfo.PushMutate` | src/util.cpp:75-86 | the loop refines the mutation function on any random stream |
| `Mutation.FileInfo.PopMutate` | src/util.cpp:88-95 | every recorded byte is put back, in any order of the history |
| `Mutation.StepRemembers` | src/util.cpp:77-85 | each mutation keeps: the history holds the original byte of every touched place, however often it was overwritten |
| `Mutation.PopUndoesPushes` | src/util.cpp:75-95 | for every random stream and any number of calls sharing a history, popping restores every byte |
| `Random.Generator.GenRand` | src/util.cpp:46-55 | new seed and returned value |
| `Random.NextIsBijective` | src/util.cpp:49-52 | the state update has a two-sided inverse and fixes zero |
| `Random.OutputDeterminesState` | src/util.cpp:54-54 | the odd multiplier is inverted modulo 2^64, so outputs determine states |
| `Random.NeverZero` | src/util.cpp:45-55 | from a nonzero seed no state and no output is ever zero |
| `Random.OutputsRepeatWithStates` | src/util.cpp:45-55 | outputs repeat exactly when states do, and then the run has returned to its seed |

## Left out

- Floating-point instructions: they rest on SoftFloat and the host's `float`; only their decoding is modelled.
- UART, CLINT, PLIC and bus routing: every access goes to the MMU, as it does for addresses outside the device ranges. A UART event is a parameter of each iteration; claiming it at the PLIC is not part of this model.
- Reservations: the emulator keeps none for LR and SC, and neither does the model.
- Host system calls, ELF reading, directory iteration, printing, and the corpus and thread classes.
- Instruction fetch faults: fetching four bytes must stay in RAM.
- Failed assertions: they are preconditions, as are addresses whose sum with a length wraps around 2^64.
- MMU buffers: the source only reserves its vectors, so that its accesses, and its copy constructor, have no defined meaning; the model gives the buffers their full size.
- Mmu.MMU.ResetTo: requires that every dirty block lies wholly in RAM, because `reset_to` copies whole blocks.
- CSR numbers: every number from 0 to 4095 names a register.
- Shifts by 64 or more are undefined in C++: for `take_interrupt` the outcome is a parameter; for the causes 253 and 254 in `trap` the model shifts everything out.
- Random numbers are a parameter of the mutation functions; `Random` models the generator apart.
- Emulator.VEmu.Execute: does not cover the floating-point instructions, which rest on code that is not shown.
- Emulator.VEmu.ExecuteAndAdvance: does not cover the floating-point instructions.
- Emulator.VEmu.Iterate: does not cover the floating-point instructions.
- Emulator.VEmu.Run: does not cover the floating-point instructions; the source loops until the guest exits, the model any given number of times.
- Process.Guest.Read: requires a position in the file and a sum of position and count that does not wrap around; otherwise the source reads past its buffer.
- Runs.ResetUndoesGuestRun: the default build makes no system calls; what READ writes in the fuzzing build is subject to `Snapshots.ResetAfterReadExactly`.
