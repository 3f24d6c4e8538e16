/** One step of the machine on unsigned 64-bit registers. Values, addresses and the targets of control flow are
    stated as the Unprivileged ISA describes them. Traps, returns and CSR writes are those of `Privileged`,
    which `PrivilegedIsa` compares with the Privileged ISA; the exceptions raised are the emulator's, which
    `IsaExceptions` compares with both manuals. */
module Isa {
  import opened Bits
  import opened Words
  import opened Names
  import opened Alu
  import opened DecodeTables
  import opened Memory
  import opened Privileged
  import opened Atomics

  /** Architectural state: x0..x31, mode, pc and CSRs, memory. */
  datatype State = State(x: seq<U64>, hart: Hart, mem: Mem) {
    predicate Valid() { |x| == 32 && x[0] == 0 && hart.Valid() && mem.Valid() }
  }

  predicate IsBranch(n: IName) { BEQ <= n <= BGEU }

  /** RV64I without loads, stores and system instructions, and RV64M. */
  predicate IsCompute(n: IName) {
    IsRegOp(n) || IsImmOp(n) || IsBranch(n) || JAL <= n <= AUIPC || n == FENCE || n == FENCEI
  }

  predicate RegisterFields(f: Fields) { 0 <= f.rd < 32 && 0 <= f.rs1 < 32 && 0 <= f.rs2 < 32 }

  /** Writing x0 has no effect. */
  function WriteX(x: seq<U64>, rd: int, v: U64): (r: seq<U64>)
    requires |x| == 32 && 0 <= rd < 32
    ensures |r| == 32
  {
    if rd == 0 then x else x[rd := v]
  }

  function Plus4(pc: U64): U64 { U64Of(pc + 4) }

  /** The immediate as a 64-bit word. */
  function Imm(f: Fields): U64 { Sext32(f.imm) }

  function BranchTaken(n: IName, a: U64, b: U64): bool
    requires IsBranch(n)
  {
    match n
    case BEQ => a == b
    case BNE => a != b
    case BLT => I64Of(a) < I64Of(b)
    case BGE => I64Of(a) >= I64Of(b)
    case BLTU => a < b
    case _ => a >= b
  }

  /** The sum with its lowest digit cleared. */
  function JalrTarget(a: U64, imm: U64): U64 {
    var t := U64Of(a + imm);
    t - t % 2
  }

  /** The address after this instruction. */
  function NextPc(s: State, n: IName, f: Fields): U64
    requires s.Valid() && RegisterFields(f)
  {
    var pc := s.hart.pc;
    if IsBranch(n) && BranchTaken(n, s.x[f.rs1], s.x[f.rs2]) then U64Of(pc + Imm(f))
    else if n == JAL then U64Of(pc + Imm(f))
    else if n == JALR then JalrTarget(s.x[f.rs1], Imm(f))
    else Plus4(pc)
  }

  /** The registers after this instruction. */
  function NextX(s: State, n: IName, f: Fields): (r: seq<U64>)
    requires s.Valid() && RegisterFields(f) && IsCompute(n)
    ensures |r| == 32
  {
    if IsRegOp(n) then WriteX(s.x, f.rd, IsaOp(n, s.x[f.rs1], s.x[f.rs2]))
    else if IsImmOp(n) then WriteX(s.x, f.rd, IsaOp(RegForm(n), s.x[f.rs1], Imm(f)))
    else if n == JAL || n == JALR then WriteX(s.x, f.rd, Plus4(s.hart.pc))
    else if n == LUI then WriteX(s.x, f.rd, Imm(f))
    else if n == AUIPC then WriteX(s.x, f.rd, U64Of(s.hart.pc + Imm(f)))
    else s.x
  }

  /** A division whose divisor word is zero. */
  predicate DividesByZero(n: IName, b: U64) {
    (n in {DIV, DIVU} && b == 0) || (n in {DIVW, DIVUW} && U32Of(b) == 0)
  }

  /** The emulator, unlike the ISA, records division by zero in digit 3 of FFLAGS. */
  function NextCsrs(s: State, n: IName, f: Fields): (r: seq<U64>)
    requires s.Valid() && RegisterFields(f)
    ensures |r| == 4096
  {
    if DividesByZero(n, s.x[f.rs2]) then s.hart.csrs[FFLAGS := SetBit(s.hart.csrs[FFLAGS], 3)] else s.hart.csrs
  }

  // ----- loads, stores and atomics -----

  predicate IsSignedLoad(n: IName) { LB <= n <= LW }

  predicate IsUnsignedLoad(n: IName) { LBU <= n <= LWU }

  predicate IsLoad(n: IName) { IsSignedLoad(n) || IsUnsignedLoad(n) }

  predicate IsStore(n: IName) { SB <= n <= SD }

  predicate IsLr(n: IName) { n == LRW || n == LRD }

  predicate IsSc(n: IName) { n == SCW || n == SCD }

  predicate IsAtomicW(n: IName) { LRW <= n <= AMOMAXUW }

  /** RV64A: the read-modify-write operations, load-reserved and store-conditional. */
  predicate IsAtomic(n: IName) { LRW <= n <= AMOMAXUD }

  predicate IsMemory(n: IName) { IsLoad(n) || IsStore(n) || IsAtomic(n) }

  /** The number of bytes an instruction accesses. */
  function Width(n: IName): (w: nat)
    ensures w in {1, 2, 4, 8}
  {
    if n in {LB, LBU, SB} then 1
    else if n in {LH, LHU, SH} then 2
    else if n in {LW, LWU, SW} || IsAtomicW(n) then 4
    else 8
  }

  /** A loaded number as a register receives it. */
  function Extend(n: IName, v: U64): U64 {
    if n == LB then U64Of(I8Of(v)) else if n == LH then U64Of(I16Of(v)) else if n == LW then U64Of(I32Of(v)) else v
  }

  /** The effective address. */
  function Address(s: State, n: IName, f: Fields): U64
    requires s.Valid() && RegisterFields(f)
  {
    if IsAtomic(n) then s.x[f.rs1] else U64Of(s.x[f.rs1] + Imm(f))
  }

  predicate Misaligned(s: State, n: IName, f: Fields)
    requires s.Valid() && RegisterFields(f)
  {
    IsAtomic(n) && Address(s, n, f) % Width(n) != 0
  }

  /** The access lies in RAM, as the MMU asserts; a misaligned atomic makes none. */
  predicate Addressable(s: State, n: IName, f: Fields)
    requires s.Valid() && RegisterFields(f)
  {
    IsMemory(n) && !Misaligned(s, n, f) ==> s.mem.InRam(Address(s, n, f), Width(n))
  }

  /** What reading the accessed bytes reports. */
  ghost function Access(s: State, n: IName, f: Fields): ReadStatus
    requires s.Valid() && RegisterFields(f) && IsMemory(n) && Addressable(s, n, f) && !Misaligned(s, n, f)
  {
    Status(s.mem, Address(s, n, f), Width(n))
  }

  /** The number held by the accessed bytes. */
  function Held(s: State, n: IName, f: Fields): (v: U64)
    requires s.Valid() && RegisterFields(f) && IsMemory(n) && Addressable(s, n, f) && !Misaligned(s, n, f)
    ensures Width(n) == 4 ==> v < 0x1_0000_0000
  {
    HeldFits(Bytes(s.mem, Address(s, n, f), Width(n)));
    Le(Bytes(s.mem, Address(s, n, f), Width(n)))
  }

  datatype Exception =
    | NormalReturn | InstructionAddressMisaligned | IllegalInstruction | Breakpoint | LoadAddressMisaligned
    | StoreAddressMisaligned | EnvironmentCall(from: Mode) | NoReadPermission | UninitializedAccess

  function Code(e: Exception): nat {
    match e
    case InstructionAddressMisaligned => 0
    case IllegalInstruction => 2
    case Breakpoint => 3
    case LoadAddressMisaligned => 4
    case StoreAddressMisaligned => 6
    case EnvironmentCall(from) => if from == User then 8 else if from == Supervisor then 9 else 11
    case NoReadPermission => 253
    case UninitializedAccess => 254
    case NormalReturn => 255
  }

  /** After such an exception the emulator stops: of the modelled ones, that of a misaligned store-conditional. */
  predicate Fatal(e: Exception) { e == StoreAddressMisaligned }

  function OfStatus(st: ReadStatus): Exception {
    match st
    case Normal => NormalReturn
    case NoPermission => NoReadPermission
    case Uninitialized => UninitializedAccess
  }

  // ----- CSR instructions -----

  predicate IsCsr(n: IName) { CSRRW <= n <= CSRRCI }

  function CsrIndex(f: Fields): int { f.imm % 4096 }

  /** rs1, or its number in the immediate forms. */
  function CsrOperand(s: State, n: IName, f: Fields): U64
    requires s.Valid() && RegisterFields(f)
  {
    if n <= CSRRC then s.x[f.rs1] else f.rs1
  }

  /** Write, set or clear; clearing negates its operand logically, unlike the ISA. */
  function CsrNew(n: IName, v: U64, operand: U64): U64
    requires IsCsr(n)
  {
    BitwiseBound64(v, operand);
    if n == CSRRW || n == CSRRWI then operand
    else if n == CSRRS || n == CSRRSI then Or(v, operand)
    else LogicalClear(v, operand)
  }

  function CsrsWritten(s: State, n: IName, f: Fields): (r: seq<U64>)
    requires s.Valid() && RegisterFields(f) && IsCsr(n)
    ensures |r| == 4096
  {
    var a := CsrIndex(f);
    StoreCsr(s.hart.csrs, a, CsrNew(n, LoadCsr(s.hart.csrs, a), CsrOperand(s, n, f)))
  }

  // ----- one step of any modelled instruction -----

  /** All but the floating-point instructions. */
  predicate IsModelled(n: IName) { IsCompute(n) || IsMemory(n) || IsCsr(n) || IsSystem(n) }

  predicate IsSystem(n: IName) { n == ECALL || n == EBREAK || n == MRET || n == SRET || n == XXX }

  /** The exception an instruction raises. The emulator's sign-extending loads never report the fault of their
      access. */
  ghost function Raised(s: State, n: IName, f: Fields): Exception
    requires s.Valid() && RegisterFields(f) && Addressable(s, n, f)
  {
    if n == XXX then IllegalInstruction
    else if n == EBREAK then Breakpoint
    else if n == ECALL then EnvironmentCall(s.hart.mode)
    else if Misaligned(s, n, f) then (if IsSc(n) then StoreAddressMisaligned else LoadAddressMisaligned)
    else if IsAmo(n) || IsLr(n) || IsUnsignedLoad(n) then OfStatus(Access(s, n, f))
    else NormalReturn
  }

  /** The instruction writes memory. */
  ghost predicate Stores(s: State, n: IName, f: Fields)
    requires s.Valid() && RegisterFields(f) && Addressable(s, n, f)
  {
    IsStore(n) || ((IsAmo(n) || IsSc(n)) && Raised(s, n, f) == NormalReturn)
  }

  /** The step runs into no assertion of the emulator: accesses lie in RAM, written bytes are writable, and MRET
      does not return to machine mode. */
  ghost predicate Permitted(s: State, n: IName, f: Fields)
    requires s.Valid() && RegisterFields(f)
  {
    && IsModelled(n) && Addressable(s, n, f)
    && (Stores(s, n, f) ==> Writable(s.mem, Address(s, n, f), Width(n)))
    && (n == MRET ==> Mret(s.hart).Returned?)
  }

  /** The number an instruction stores. */
  function Datum(s: State, n: IName, f: Fields): U64
    requires s.Valid() && RegisterFields(f) && IsMemory(n) && Addressable(s, n, f) && !Misaligned(s, n, f)
  {
    if IsAmoW(n) then IsaAmoW(n, Held(s, n, f), U32Of(s.x[f.rs2]))
    else if IsAmoD(n) then IsaAmoD(n, Held(s, n, f), s.x[f.rs2])
    else s.x[f.rs2]
  }

  ghost function NextMem(s: State, n: IName, f: Fields): (m: Mem)
    requires s.Valid() && RegisterFields(f) && Permitted(s, n, f)
    ensures m.Valid() && |m.ram| == |s.mem.ram|
  {
    if Stores(s, n, f) then Store(s.mem, Address(s, n, f), Datum(s, n, f), Width(n)) else s.mem
  }

  /** What a completed load or atomic leaves in rd. A sign-extending load whose access faults extends what rd held,
      LR.W extends with zeros, and SC always reports success. */
  ghost function Loaded(s: State, n: IName, f: Fields): U64
    requires s.Valid() && RegisterFields(f) && IsMemory(n) && Addressable(s, n, f) && !Misaligned(s, n, f)
  {
    if IsSignedLoad(n) && Access(s, n, f) != Normal then Extend(n, s.x[f.rd])
    else if IsAmoW(n) then U64Of(I32Of(Held(s, n, f)))
    else if IsSc(n) then 0
    else Extend(n, Held(s, n, f))
  }

  function Arrive(h: Hart): Hart { h.(pc := Plus4(h.pc)) }

  /** The registers after a step. */
  ghost function StepX(s: State, n: IName, f: Fields): (r: seq<U64>)
    requires s.Valid() && RegisterFields(f) && Permitted(s, n, f)
    ensures |r| == 32 && r[0] == 0
  {
    if IsCompute(n) then NextX(s, n, f)
    else if IsCsr(n) then WriteX(s.x, f.rd, LoadCsr(s.hart.csrs, CsrIndex(f)))
    else if (IsLoad(n) || IsAtomic(n)) && Raised(s, n, f) == NormalReturn then WriteX(s.x, f.rd, Loaded(s, n, f))
    else s.x
  }

  /** Mode, pc and CSRs after an instruction that raises nothing. */
  function NormalHart(s: State, n: IName, f: Fields): (r: Hart)
    requires s.Valid() && RegisterFields(f) && (n == MRET ==> Mret(s.hart).Returned?)
    ensures r.Valid()
  {
    if IsCompute(n) then Hart(s.hart.mode, NextPc(s, n, f), NextCsrs(s, n, f))
    else if IsCsr(n) then Hart(s.hart.mode, Plus4(s.hart.pc), CsrsWritten(s, n, f))
    else if n == MRET then Arrive(Mret(s.hart).h)
    else if n == SRET then Arrive(Sret(s.hart))
    else Arrive(s.hart)
  }

  /** Mode, pc and CSRs after a step: an exception goes to its handler. */
  ghost function StepHart(s: State, n: IName, f: Fields): (r: Hart)
    requires s.Valid() && RegisterFields(f) && Permitted(s, n, f)
    ensures r.Valid()
  {
    if Raised(s, n, f) != NormalReturn then Arrive(Trap(s.hart, Code(Raised(s, n, f)))) else NormalHart(s, n, f)
  }

  /** What an instruction method does: it returns the exception, and leaves pc four short unless it raised one. */
  ghost predicate Effect(s: State, n: IName, f: Fields, e: Exception, t: State)
    requires s.Valid() && RegisterFields(f) && Permitted(s, n, f)
  {
    && e == Raised(s, n, f)
    && t.x == StepX(s, n, f) && t.mem == NextMem(s, n, f)
    && (if e == NormalReturn then Arrive(t.hart) == NormalHart(s, n, f) else t.hart == s.hart)
  }

  /** One step of the machine. */
  ghost function Step(s: State, n: IName, f: Fields): (r: State)
    requires s.Valid() && RegisterFields(f) && Permitted(s, n, f)
    ensures r.Valid() && |r.mem.ram| == |s.mem.ram|
  {
    State(StepX(s, n, f), StepHart(s, n, f), NextMem(s, n, f))
  }

  /** What is left of the step when its exception stops the emulator: the trap is taken, but pc is not advanced. */
  ghost function Outcome(s: State, n: IName, f: Fields): (r: State)
    requires s.Valid() && RegisterFields(f) && Permitted(s, n, f)
    ensures r.Valid() && |r.mem.ram| == |s.mem.ram|
    ensures !Fatal(Raised(s, n, f)) ==> r == Step(s, n, f)
  {
    var e := Raised(s, n, f);
    State(StepX(s, n, f), if Fatal(e) then Trap(s.hart, Code(e)) else StepHart(s, n, f), NextMem(s, n, f))
  }
}
