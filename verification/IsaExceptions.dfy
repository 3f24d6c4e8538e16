/** The exceptions that the manuals prescribe, and exactly when the emulator raises the same. */
module IsaExceptions {
  import opened Words
  import opened Names
  import opened DecodeTables
  import opened Memory
  import opened Privileged
  import opened PrivilegedIsa
  import opened Atomics
  import opened Isa

  /** The instruction transfers control: a jump, or a branch that is taken. */
  predicate Transfers(s: State, n: IName, f: Fields)
    requires s.Valid() && RegisterFields(f)
  {
    n == JAL || n == JALR || (IsBranch(n) && BranchTaken(n, s.x[f.rs1], s.x[f.rs2]))
  }

  /** Section 2.5 of the Unprivileged ISA: without compressed instructions a target must be a multiple of four. */
  predicate MisalignedTransfer(s: State, n: IName, f: Fields)
    requires s.Valid() && RegisterFields(f)
  {
    Transfers(s, n, f) && NextPc(s, n, f) % 4 != 0
  }

  function Level(mode: Mode): int {
    match mode
    case User => 0
    case Supervisor => 1
    case Machine => 3
  }

  /** CSRRW and CSRRWI always write; the others when rs1 or the immediate in its place is not zero. */
  predicate WritesCsr(n: IName, f: Fields) { n == CSRRW || n == CSRRWI || f.rs1 != 0 }

  /** Section 2.1 of the Privileged ISA: digits 9 and 8 of a CSR number give the lowest mode that may access it, and
      digits 11 and 10, both set, make it read-only. */
  predicate CsrForbidden(s: State, n: IName, f: Fields)
    requires s.Valid()
  {
    && IsCsr(n)
    && (Level(s.hart.mode) < CsrIndex(f) / 256 % 4 || (CsrIndex(f) / 1024 == 3 && WritesCsr(n, f)))
  }

  /** Section 3.3.2 of the Privileged ISA. */
  predicate ReturnForbidden(s: State, n: IName)
    requires s.Valid()
  {
    (n == MRET && s.hart.mode != Machine) || (n == SRET && !MaySret(s.hart))
  }

  /** The exception the manuals prescribe, with the emulator's own codes for memory that may not be read. A
      misaligned AMO counts as a store (section 8.4 of the Unprivileged ISA). */
  ghost function Prescribed(s: State, n: IName, f: Fields): Exception
    requires s.Valid() && RegisterFields(f) && Addressable(s, n, f)
  {
    if n == XXX || CsrForbidden(s, n, f) || ReturnForbidden(s, n) then IllegalInstruction
    else if n == EBREAK then Breakpoint
    else if n == ECALL then EnvironmentCall(s.hart.mode)
    else if MisalignedTransfer(s, n, f) then InstructionAddressMisaligned
    else if Misaligned(s, n, f) then (if IsLr(n) then LoadAddressMisaligned else StoreAddressMisaligned)
    else if IsLoad(n) || IsLr(n) || IsAmo(n) then OfStatus(Access(s, n, f))
    else NormalReturn
  }

  /** The families of instructions for which the emulator raises something else, or nothing. */
  ghost predicate Missed(s: State, n: IName, f: Fields)
    requires s.Valid() && RegisterFields(f) && Addressable(s, n, f)
  {
    || MisalignedTransfer(s, n, f)
    || CsrForbidden(s, n, f)
    || ReturnForbidden(s, n)
    || (IsAmo(n) && Misaligned(s, n, f))
    || (IsSignedLoad(n) && Access(s, n, f) != Normal)
  }

  /** The emulator raises the prescribed exception exactly outside those families. */
  lemma RaisesAsPrescribedExactly(s: State, n: IName, f: Fields)
    requires s.Valid() && RegisterFields(f) && Addressable(s, n, f)
    ensures Raised(s, n, f) == Prescribed(s, n, f) <==> !Missed(s, n, f)
  {
    if IsMemory(n) {
      assert !IsCsr(n) && !IsBranch(n) && !IsSystem(n);
    } else if IsCsr(n) || IsBranch(n) {
      assert !IsSystem(n);
    }
  }

  // ----- one witness of each family -----

  /** A state of any mode, all registers but x0 holding `v`, and memory of 64 bytes without permissions. */
  lemma SomeState(mode: Mode, v: U64) returns (s: State)
    ensures s.Valid() && s.hart.mode == mode && s.hart.pc == 0 && s.x[1] == v
    ensures |s.mem.ram| == 64 && forall i :: 0 <= i < 64 ==> s.mem.perms[i] == NONE
  {
    s := State(seq(32, i => if i == 0 then 0 else v), Hart(mode, 0, seq(4096, _ => 0)),
               Mem(seq(64, _ => 0), seq(64, _ => NONE), {}, 0x1_0000));
  }

  /** JAL from 0 to 6. */
  lemma JumpToSix()
    ensures exists s: State, f: Fields ::
      && s.Valid() && RegisterFields(f) && Addressable(s, JAL, f)
      && NextPc(s, JAL, f) == 6 && Raised(s, JAL, f) == NormalReturn
      && Prescribed(s, JAL, f) == InstructionAddressMisaligned
  {
    var s := SomeState(User, 0);
    var f := NO_FIELDS.(imm := 6);
    assert NextPc(s, JAL, f) == 6;
    assert RegisterFields(f) && Addressable(s, JAL, f) && Raised(s, JAL, f) == NormalReturn;
  }

  /** AMOADD.W at address 1 reports a load. */
  lemma AmoReportsLoad()
    ensures exists s: State, f: Fields ::
      && s.Valid() && RegisterFields(f) && Addressable(s, AMOADDW, f)
      && Raised(s, AMOADDW, f) == LoadAddressMisaligned && Prescribed(s, AMOADDW, f) == StoreAddressMisaligned
  {
    var s := SomeState(User, 1);
    var f := NO_FIELDS.(rs1 := 1);
    assert RegisterFields(f) && Address(s, AMOADDW, f) == 1 && Misaligned(s, AMOADDW, f);
    assert Raised(s, AMOADDW, f) == LoadAddressMisaligned;
  }

  /** CSRRW writes MSTATUS in user mode. */
  lemma UserWritesMstatus()
    ensures exists s: State, f: Fields ::
      && s.Valid() && RegisterFields(f) && Addressable(s, CSRRW, f) && s.hart.mode == User && CsrIndex(f) == MSTATUS
      && Raised(s, CSRRW, f) == NormalReturn && Prescribed(s, CSRRW, f) == IllegalInstruction
  {
    var s := SomeState(User, 0);
    var f := NO_FIELDS.(imm := 0x300);
    assert CsrIndex(f) == MSTATUS && CsrForbidden(s, CSRRW, f);
    assert RegisterFields(f) && Addressable(s, CSRRW, f) && Raised(s, CSRRW, f) == NormalReturn;
  }
}
