/** What CSR instructions, exceptions, MRET and SRET do in a step, in plain numbers: CSR addresses, causes and
    digits are spelled out here and not taken from the model. */
module SystemLaws {
  import opened Bits
  import opened Words
  import opened Names
  import opened Alu
  import opened DecodeTables
  import opened Memory
  import opened Privileged
  import opened Atomics
  import opened Isa
  import Runs
  import AccessLaws
  import Refinement

  // ----- CSR instructions -----

  /** rd receives `was` and CSR `a` becomes `v`; nothing else changes but pc. */
  predicate CsrStep(s: State, r: State, rd: int, a: int, was: int, v: int) {
    && |s.x| == 32 && |s.hart.csrs| == 4096 && 0 <= rd < 32 && 0 <= a < 4096
    && 0 <= was < 0x1_0000_0000_0000_0000 && 0 <= v < 0x1_0000_0000_0000_0000
    && r.mem == s.mem && r.x == (if rd == 0 then s.x else s.x[rd := was])
    && r.hart == Hart(s.hart.mode, (s.hart.pc + 4) % 0x1_0000_0000_0000_0000, s.hart.csrs[a := v])
  }

  /** Every CSR but SIE, number 0x104, is an ordinary register. */
  lemma CsrOutcome(s: State, n: IName, f: Fields, a: int)
    requires s.Valid() && RegisterFields(f) && Permitted(s, n, f) && IsCsr(n) && a == f.imm % 4096 && a != 0x104
    ensures var was := s.hart.csrs[a];
      CsrStep(s, Outcome(s, n, f), f.rd, a, was, CsrNew(n, was, CsrOperand(s, n, f)))
  {
    assert !IsCompute(n) && !IsMemory(n) && !IsSystem(n) && !Stores(s, n, f);
  }

  /** CSRRW and CSRRWI write rs1, or its number. */
  lemma CsrWriteLaw(s: State, f: Fields, a: int)
    requires s.Valid() && RegisterFields(f) && a == f.imm % 4096 && a != 0x104
    ensures Permitted(s, CSRRW, f) ==> CsrStep(s, Outcome(s, CSRRW, f), f.rd, a, s.hart.csrs[a], s.x[f.rs1])
    ensures Permitted(s, CSRRWI, f) ==> CsrStep(s, Outcome(s, CSRRWI, f), f.rd, a, s.hart.csrs[a], f.rs1)
  {
    if Permitted(s, CSRRW, f) { CsrOutcome(s, CSRRW, f, a); }
    if Permitted(s, CSRRWI, f) { CsrOutcome(s, CSRRWI, f, a); }
  }

  /** `v` has the digits of `x` and those of `y`. */
  ghost predicate Union(v: int, x: nat, y: nat) { v >= 0 && forall j: nat :: Bit(v, j) <==> Bit(x, j) || Bit(y, j) }

  lemma OrIsUnion(x: nat, y: nat)
    ensures Union(Or(x, y), x, y)
  {
    forall j: nat ensures Bit(Or(x, y), j) <==> Bit(x, j) || Bit(y, j) { OrBit(x, y, j); }
  }

  /** CSRRS sets the digits of rs1. */
  lemma CsrSetLaw(s: State, f: Fields, a: int)
    requires s.Valid() && RegisterFields(f) && a == f.imm % 4096 && a != 0x104 && Permitted(s, CSRRS, f)
    ensures var r := Outcome(s, CSRRS, f);
      |r.hart.csrs| == 4096 && Union(r.hart.csrs[a], s.hart.csrs[a], s.x[f.rs1])
      && CsrStep(s, r, f.rd, a, s.hart.csrs[a], r.hart.csrs[a])
  {
    CsrOutcome(s, CSRRS, f, a);
    OrIsUnion(s.hart.csrs[a], s.x[f.rs1]);
  }

  /** CSRRSI sets the digits of the number rs1. */
  lemma CsrSetImmediateLaw(s: State, f: Fields, a: int)
    requires s.Valid() && RegisterFields(f) && a == f.imm % 4096 && a != 0x104 && Permitted(s, CSRRSI, f)
    ensures var r := Outcome(s, CSRRSI, f);
      |r.hart.csrs| == 4096 && Union(r.hart.csrs[a], s.hart.csrs[a], f.rs1)
      && CsrStep(s, r, f.rd, a, s.hart.csrs[a], r.hart.csrs[a])
  {
    CsrOutcome(s, CSRRSI, f, a);
    OrIsUnion(s.hart.csrs[a], f.rs1);
  }

  /** CSRRC and CSRRCI clear everything, or, with operand zero, everything but digit 0. */
  lemma CsrClearLaw(s: State, f: Fields, a: int)
    requires s.Valid() && RegisterFields(f) && a == f.imm % 4096 && a != 0x104
    ensures Permitted(s, CSRRC, f) ==> CsrStep(s, Outcome(s, CSRRC, f), f.rd, a, s.hart.csrs[a],
                                               if s.x[f.rs1] == 0 then s.hart.csrs[a] % 2 else 0)
    ensures Permitted(s, CSRRCI, f) ==> CsrStep(s, Outcome(s, CSRRCI, f), f.rd, a, s.hart.csrs[a],
                                                if f.rs1 == 0 then s.hart.csrs[a] % 2 else 0)
  {
    AndOne(s.hart.csrs[a]);
    if Permitted(s, CSRRC, f) { CsrOutcome(s, CSRRC, f, a); }
    if Permitted(s, CSRRCI, f) { CsrOutcome(s, CSRRCI, f, a); }
  }

  /** Reading SIE gives the digits that MIE, 0x304, and MIDELEG, 0x303, share. */
  lemma SieReadLaw(c: seq<U64>)
    requires |c| == 4096
    ensures forall j: nat :: Bit(LoadCsr(c, 0x104), j) <==> Bit(c[0x304], j) && Bit(c[0x303], j)
  {
    forall j: nat ensures Bit(LoadCsr(c, 0x104), j) <==> Bit(c[0x304], j) && Bit(c[0x303], j) {
      AndBit(c[0x304], c[0x303], j);
    }
  }

  /** Writing SIE changes MIE alone: the delegated digits of the value, and digit 0 of MIE if nothing is
      delegated. */
  lemma SieWriteLaw(c: seq<U64>, v: U64)
    requires |c| == 4096
    ensures var r := StoreCsr(c, 0x104, v);
      && (forall a :: 0 <= a < 4096 && a != 0x304 ==> r[a] == c[a])
      && forall j: nat :: Bit(r[0x304], j) <==>
           (Bit(v, j) && Bit(c[0x303], j)) || (j == 0 && c[0x303] == 0 && Bit(c[0x304], 0))
  {
    var r := StoreCsr(c, 0x104, v);
    var kept := And(c[0x304], if c[0x303] == 0 then 1 else 0);
    forall j: nat ensures Bit(r[0x304], j) <==>
      (Bit(v, j) && Bit(c[0x303], j)) || (j == 0 && c[0x303] == 0 && Bit(c[0x304], 0))
    {
      OrBit(kept, And(v, c[0x303]), j);
      AndBit(v, c[0x303], j);
      AndBit(c[0x304], if c[0x303] == 0 then 1 else 0, j);
      ZeroBit(j);
      OneBit(j);
    }
  }

  lemma OneBit(j: nat)
    ensures Bit(1, j) <==> j == 0
  {
    if j > 0 { ZeroBit(j - 1); }
  }

  /** The CSR instructions on SIE itself read it so and write it so. */
  lemma SieStep(s: State, n: IName, f: Fields)
    requires s.Valid() && RegisterFields(f) && Permitted(s, n, f) && IsCsr(n) && f.imm % 4096 == 0x104
    ensures var r := Outcome(s, n, f); var was := LoadCsr(s.hart.csrs, 0x104);
      && r.mem == s.mem && r.x == (if f.rd == 0 then s.x else s.x[f.rd := was])
      && r.hart.csrs == StoreCsr(s.hart.csrs, 0x104, CsrNew(n, was, CsrOperand(s, n, f)))
  {
    assert !IsCompute(n) && !IsMemory(n) && !IsSystem(n) && !Stores(s, n, f);
  }

  // ----- exceptions -----

  /** The lower half of a word, made even. */
  function EvenHalf(x: int): int { x % 0x1_0000_0000 - x % 2 }

  /** The trap goes to supervisor mode. */
  predicate Delegates(s: State, cause: nat)
    requires s.Valid()
  {
    s.hart.mode != Machine && Bit(s.hart.csrs[0x302], cause)
  }

  /** The state after a trap with this cause: registers and memory as before, the cause, a zero value and the
      saved pc in the CSRs of the mode entered, which is supervisor mode exactly if the mode was not machine and
      the cause's digit of MEDELEG is set; pc at the handler, or four below it when the emulator stops. */
  predicate Traps(s: State, r: State, cause: nat, stops: bool)
    requires s.Valid() && |r.hart.csrs| == 4096
  {
    && r.x == s.x && r.mem == s.mem
    && if Delegates(s, cause) then
         && r.hart.mode == Supervisor && r.hart.csrs[0x142] == cause && r.hart.csrs[0x143] == 0
         && r.hart.csrs[0x141] == EvenHalf(s.hart.pc)
         && r.hart.pc == (EvenHalf(s.hart.csrs[0x105]) - if stops then 4 else 0) % 0x1_0000_0000_0000_0000
         && (forall a :: 0 <= a < 4096 && a !in {0x100, 0x141, 0x142, 0x143} ==> r.hart.csrs[a] == s.hart.csrs[a])
       else
         && r.hart.mode == Machine && r.hart.csrs[0x342] == cause && r.hart.csrs[0x343] == 0
         && r.hart.csrs[0x341] == EvenHalf(s.hart.pc)
         && r.hart.pc == (EvenHalf(s.hart.csrs[0x305]) - if stops then 4 else 0) % 0x1_0000_0000_0000_0000
         && (forall a :: 0 <= a < 4096 && a !in {0x300, 0x341, 0x342, 0x343} ==> r.hart.csrs[a] == s.hart.csrs[a])
  }

  lemma EvenHalves(h: Hart)
    requires h.Valid()
    ensures EvenLow(h.pc) == EvenHalf(h.pc)
    ensures EvenLow(h.csrs[0x105]) == EvenHalf(h.csrs[0x105]) && EvenLow(h.csrs[0x305]) == EvenHalf(h.csrs[0x305])
  {
    EvenLow32(h.pc);
    EvenLow32(h.csrs[0x105]);
    EvenLow32(h.csrs[0x305]);
  }

  lemma SupervisorTrap(h: Hart, cause: nat, t: Hart)
    requires h.Valid() && cause < 256 && Delegated(h, cause) && t == Trap(h, cause)
    requires EvenLow(h.pc) == EvenHalf(h.pc) && EvenLow(h.csrs[0x105]) == EvenHalf(h.csrs[0x105])
    ensures t.mode == Supervisor && t.csrs[0x142] == cause && t.csrs[0x143] == 0 && t.csrs[0x141] == EvenHalf(h.pc)
    ensures t.pc == Minus4(EvenHalf(h.csrs[0x105]))
    ensures forall a :: 0 <= a < 4096 && a !in {0x100, 0x141, 0x142, 0x143} ==> t.csrs[a] == h.csrs[a]
  {
    assert t == TrapToSupervisor(h, cause);
  }

  lemma MachineTrap(h: Hart, cause: nat, t: Hart)
    requires h.Valid() && cause < 256 && !Delegated(h, cause) && t == Trap(h, cause)
    requires EvenLow(h.pc) == EvenHalf(h.pc) && EvenLow(h.csrs[0x305]) == EvenHalf(h.csrs[0x305])
    ensures t.mode == Machine && t.csrs[0x342] == cause && t.csrs[0x343] == 0 && t.csrs[0x341] == EvenHalf(h.pc)
    ensures t.pc == Minus4(EvenHalf(h.csrs[0x305]))
    ensures forall a :: 0 <= a < 4096 && a !in {0x300, 0x341, 0x342, 0x343} ==> t.csrs[a] == h.csrs[a]
  {
    assert t == TrapToMachine(h, cause);
  }

  lemma EvenHalfFits(x: U64)
    ensures 0 <= EvenHalf(x) < 0x1_0000_0000
  {
    EvenLow32(x);
  }

  lemma TrapLaw(h: Hart, cause: nat, stops: bool, s: State, r: State)
    requires s.Valid() && cause < 256 && h == s.hart && r.x == s.x && r.mem == s.mem
    requires r.hart == if stops then Trap(h, cause) else Arrive(Trap(h, cause))
    ensures Traps(s, r, cause, stops)
  {
    var t := Trap(h, cause);
    EvenHalves(h);
    EvenHalfFits(h.csrs[0x105]); EvenHalfFits(h.csrs[0x305]);
    if Delegated(h, cause) {
      SupervisorTrap(h, cause, t);
      Handlers(EvenHalf(h.csrs[0x105]));
    } else {
      MachineTrap(h, cause, t);
      Handlers(EvenHalf(h.csrs[0x305]));
    }
  }

  lemma Handlers(x: U64)
    ensures Plus4(Minus4(x)) == x == x % 0x1_0000_0000_0000_0000
    ensures Minus4(x) == (x - 4) % 0x1_0000_0000_0000_0000
  {
    HandlerMinus(x);
    HandlerPlus(x);
  }

  lemma HandlerMinus(x: U64)
    ensures Minus4(x) == (x - 4) % 0x1_0000_0000_0000_0000
  {
  }

  lemma HandlerPlus(x: U64)
    ensures Plus4(Minus4(x)) == x == x % 0x1_0000_0000_0000_0000
  {
    Refinement.Advance(x);
    AlreadySmall(x);
  }

  lemma AlreadySmall(x: U64)
    ensures x % 0x1_0000_0000_0000_0000 == x
  {
  }

  lemma RaisedTraps(s: State, n: IName, f: Fields, e: Exception)
    requires s.Valid() && RegisterFields(f) && Permitted(s, n, f) && e == Raised(s, n, f) && e != NormalReturn
    ensures Traps(s, Outcome(s, n, f), Code(e), Fatal(e))
  {
    RaisedOutcome(s, n, f);
    TrapLaw(s.hart, Code(e), Fatal(e), s, Outcome(s, n, f));
  }

  lemma RaisedOutcome(s: State, n: IName, f: Fields)
    requires s.Valid() && RegisterFields(f) && Permitted(s, n, f) && Raised(s, n, f) != NormalReturn
    ensures var e, r := Raised(s, n, f), Outcome(s, n, f);
      && r.x == s.x && r.mem == s.mem
      && r.hart == if Fatal(e) then Trap(s.hart, Code(e)) else Arrive(Trap(s.hart, Code(e)))
  {
    assert !IsCompute(n) && !IsCsr(n) && !Stores(s, n, f);
  }

  /** An illegal word has cause 2. */
  lemma IllegalLaw(s: State, f: Fields)
    requires s.Valid() && RegisterFields(f)
    ensures Permitted(s, XXX, f) && Traps(s, Outcome(s, XXX, f), 2, false)
  {
    RaisedTraps(s, XXX, f, IllegalInstruction);
  }

  /** EBREAK has cause 3. */
  lemma BreakpointLaw(s: State, f: Fields)
    requires s.Valid() && RegisterFields(f)
    ensures Permitted(s, EBREAK, f) && Traps(s, Outcome(s, EBREAK, f), 3, false)
  {
    RaisedTraps(s, EBREAK, f, Breakpoint);
  }

  /** ECALL has cause 8, 9 or 11 by the mode it comes from. */
  lemma EnvironmentCallLaw(s: State, f: Fields)
    requires s.Valid() && RegisterFields(f)
    ensures Permitted(s, ECALL, f)
    ensures Traps(s, Outcome(s, ECALL, f),
                  if s.hart.mode == User then 8 else if s.hart.mode == Supervisor then 9 else 11, false)
  {
    RaisedTraps(s, ECALL, f, EnvironmentCall(s.hart.mode));
  }

  /** A misaligned AMO or LR has cause 4. */
  lemma MisalignedAtomicLaw(s: State, n: IName, f: Fields, k: int)
    requires s.Valid() && RegisterFields(f) && Permitted(s, n, f) && k > 0 && s.x[f.rs1] % k != 0
    requires (k == 4 && n in {LRW, AMOSWAPW, AMOADDW, AMOXORW, AMOANDW, AMOORW, AMOMINW, AMOMAXW, AMOMINUW, AMOMAXUW})
          || (k == 8 && n in {LRD, AMOSWAPD, AMOADDD, AMOXORD, AMOANDD, AMOORD, AMOMIND, AMOMAXD, AMOMINUD, AMOMAXUD})
    ensures Traps(s, Outcome(s, n, f), 4, false)
  {
    assert Misaligned(s, n, f);
    RaisedTraps(s, n, f, LoadAddressMisaligned);
  }

  /** A misaligned SC has cause 6, and it is what stops the emulator; nothing else does. */
  lemma MisalignedStoreConditionalLaw(s: State, n: IName, f: Fields)
    requires s.Valid() && RegisterFields(f) && Permitted(s, n, f)
    ensures Fatal(Raised(s, n, f)) <==> (n == SCW && s.x[f.rs1] % 4 != 0) || (n == SCD && s.x[f.rs1] % 8 != 0)
    ensures Fatal(Raised(s, n, f)) ==> Traps(s, Outcome(s, n, f), 6, true)
  {
    if Fatal(Raised(s, n, f)) { RaisedTraps(s, n, f, StoreAddressMisaligned); }
    else if n == SCW || n == SCD { assert !Misaligned(s, n, f); }
  }

  /** A byte among the `k` from `a` is raw; none is, but one may not be read. */
  ghost predicate SomeRaw(m: Mem, a: int, k: int) {
    |m.ram| == |m.perms| && 0 <= a && a + k <= |m.ram| && exists i :: a <= i < a + k && m.perms[i].raw
  }

  ghost predicate SomeUnreadable(m: Mem, a: int, k: int) {
    |m.ram| == |m.perms| && 0 <= a && a + k <= |m.ram| && exists i :: a <= i < a + k && !m.perms[i].read
  }

  lemma StatusLaw(m: Mem, a: int, k: int)
    requires m.Valid() && m.InRam(a, k)
    ensures Status(m, a, k) == Uninitialized <==> SomeRaw(m, a, k)
    ensures Status(m, a, k) == NoPermission <==> !SomeRaw(m, a, k) && SomeUnreadable(m, a, k)
  {
    if SomeRaw(m, a, k) {
      var i :| a <= i < a + k && m.perms[i].raw;
      assert Covers(a, k, i);
    }
    if SomeUnreadable(m, a, k) {
      var i :| a <= i < a + k && !m.perms[i].read;
      assert Covers(a, k, i);
    }
  }

  /** A zero-extending load, LR or AMO of `k` bytes at `a` has cause 254 if one of them is raw, and otherwise
      253 if one may not be read. */
  lemma FaultLaw(s: State, n: IName, f: Fields, a: int, k: int)
    requires s.Valid() && RegisterFields(f) && Permitted(s, n, f)
    requires IsUnsignedLoad(n) || ((IsLr(n) || IsAmo(n)) && !Misaligned(s, n, f))
    requires a == Address(s, n, f) && k == Width(n)
    ensures s.mem.InRam(a, k)
    ensures SomeRaw(s.mem, a, k) ==> Traps(s, Outcome(s, n, f), 254, false)
    ensures !SomeRaw(s.mem, a, k) && SomeUnreadable(s.mem, a, k) ==> Traps(s, Outcome(s, n, f), 253, false)
  {
    StatusLaw(s.mem, a, k);
    assert Raised(s, n, f) == OfStatus(Access(s, n, f));
    if Raised(s, n, f) != NormalReturn { RaisedTraps(s, n, f, Raised(s, n, f)); }
  }

  lemma LoadFaultLaw(s: State, n: IName, f: Fields, a: int, k: int)
    requires s.Valid() && RegisterFields(f) && Permitted(s, n, f) && a == AccessLaws.Base(s, f)
    requires (n == LBU && k == 1) || (n == LHU && k == 2) || (n == LWU && k == 4) || (n == LD && k == 8)
    ensures SomeRaw(s.mem, a, k) ==> Traps(s, Outcome(s, n, f), 254, false)
    ensures !SomeRaw(s.mem, a, k) && SomeUnreadable(s.mem, a, k) ==> Traps(s, Outcome(s, n, f), 253, false)
  {
    AccessLaws.BaseIsAddress(s, n, f);
    FaultLaw(s, n, f, a, k);
  }

  lemma AtomicFaultLaw(s: State, n: IName, f: Fields, k: int)
    requires s.Valid() && RegisterFields(f) && Permitted(s, n, f) && k > 0 && s.x[f.rs1] % k == 0
    requires (k == 4 && n in {LRW, AMOSWAPW, AMOADDW, AMOXORW, AMOANDW, AMOORW, AMOMINW, AMOMAXW, AMOMINUW, AMOMAXUW})
          || (k == 8 && n in {LRD, AMOSWAPD, AMOADDD, AMOXORD, AMOANDD, AMOORD, AMOMIND, AMOMAXD, AMOMINUD, AMOMAXUD})
    ensures SomeRaw(s.mem, s.x[f.rs1], k) ==> Traps(s, Outcome(s, n, f), 254, false)
    ensures !SomeRaw(s.mem, s.x[f.rs1], k) && SomeUnreadable(s.mem, s.x[f.rs1], k) ==>
      Traps(s, Outcome(s, n, f), 253, false)
  {
    assert !Misaligned(s, n, f);
    FaultLaw(s, n, f, s.x[f.rs1], k);
  }

  // ----- MRET and SRET -----

  /** The two words that no table lists. */
  lemma ReturnWords()
    ensures Reference(0x3020_0073) == Ok(Instruction(R, MRET, Fields(0x73, 0, 0, 0, 2, 0x18, 0, 0, 0, 0, 0, 0)))
    ensures Reference(0x1020_0073) == Ok(Instruction(R, SRET, Fields(0x73, 0, 0, 0, 2, 0x08, 0, 0, 0, 0, 0, 0)))
  {
  }

  /** A word of an opcode that no table lists is illegal, and has no fields. */
  lemma UnlistedWord(w: bv32)
    requires TypeOfOpcode(Opcode(w) as int) == WRONG
    ensures DecodeWord(w) == Ok(Instruction(WRONG, XXX, Fields(0, 0, 0, 0, 0, 0, 0, 0, 0, 0, 0, 0)))
  {
  }

  /** A machine at the word of MRET continues at MEPC, 0x341: in user mode if digits 11 and 12 of MSTATUS,
      0x300, are clear, and in supervisor mode if only digit 11 is set. */
  lemma MretWordStep(s: State, ins: Instruction)
    requires s.Valid() && s.hart.pc + 4 <= |s.mem.ram| && Runs.Fetched(s) == 0x3020_0073 && Runs.Fetches(s, ins)
    requires !Bit(s.hart.csrs[0x300], 12)
    ensures Runs.CanStep(s, ins)
    ensures var r := Outcome(s, ins.name, ins.f);
      && r.x == s.x && r.mem == s.mem && r.hart.pc == s.hart.csrs[0x341]
      && r.hart.mode == if Bit(s.hart.csrs[0x300], 11) then Supervisor else User
  {
    ReturnWords();
    MretStep(s, ins.f);
  }

  lemma MretStep(s: State, f: Fields)
    requires s.Valid() && RegisterFields(f) && !Bit(s.hart.csrs[0x300], 12)
    ensures Permitted(s, MRET, f)
    ensures var r := Outcome(s, MRET, f);
      && r.x == s.x && r.mem == s.mem && r.hart.pc == s.hart.csrs[0x341]
      && r.hart.mode == if Bit(s.hart.csrs[0x300], 11) then Supervisor else User
  {
    MretAbortsExactly(s.hart);
    MppField(s.hart.csrs[0x300]);
    Handlers(s.hart.csrs[0x341]);
    Refinement.ReturnPlain(s, MRET, f);
    Refinement.ReturnHart(s, MRET, f);
  }

  /** A machine at the word of SRET continues at SEPC, 0x141, in the mode that digit 8 of SSTATUS, 0x100, names. */
  lemma SretWordStep(s: State, ins: Instruction)
    requires s.Valid() && s.hart.pc + 4 <= |s.mem.ram| && Runs.Fetched(s) == 0x1020_0073 && Runs.Fetches(s, ins)
    ensures Runs.CanStep(s, ins)
    ensures var r := Outcome(s, ins.name, ins.f);
      && r.x == s.x && r.mem == s.mem && r.hart.pc == s.hart.csrs[0x141]
      && r.hart.mode == if Bit(s.hart.csrs[0x100], 8) then Supervisor else User
  {
    ReturnWords();
    SretStep(s, ins.f);
  }

  lemma SretStep(s: State, f: Fields)
    requires s.Valid() && RegisterFields(f)
    ensures Permitted(s, SRET, f)
    ensures var r := Outcome(s, SRET, f);
      && r.x == s.x && r.mem == s.mem && r.hart.pc == s.hart.csrs[0x141]
      && r.hart.mode == if Bit(s.hart.csrs[0x100], 8) then Supervisor else User
  {
    TestBit(s.hart.csrs[0x100], 8);
    Handlers(s.hart.csrs[0x141]);
    Refinement.ReturnPlain(s, SRET, f);
    Refinement.ReturnHart(s, SRET, f);
  }

  // ----- what is modelled -----

  /** The modelled names are all but those of the floating-point instructions. */
  lemma ModelledNames(n: IName)
    ensures IsModelled(n) <==> !(96 <= n as int <= 125)
  {
  }

  /** The `k` bytes from `a` lie in RAM, as the MMU asserts, and if `write` all of them are writable. */
  ghost predicate Reachable(m: Mem, a: int, k: int, write: bool) {
    |m.ram| == |m.perms| && 0 <= a && a + k < |m.ram| && (write ==> forall i :: a <= i < a + k ==> m.perms[i].write)
  }

  lemma WritableLaw(m: Mem, a: int, k: int)
    requires m.Valid() && m.InRam(a, k)
    ensures Writable(m, a, k) <==> Reachable(m, a, k, true)
  {
    if Reachable(m, a, k, true) {
      forall i | Covers(a, k, i) ensures m.perms[i].write {}
    } else {
      var i :| a <= i < a + k && !m.perms[i].write;
      assert Covers(a, k, i);
    }
  }

  /** Loads and stores are covered exactly when their bytes lie in RAM, and those of a store are writable. */
  lemma CoveredLoadStore(s: State, n: IName, f: Fields, k: int)
    requires s.Valid() && RegisterFields(f)
    requires || (n in {LB, LBU, SB} && k == 1) || (n in {LH, LHU, SH} && k == 2)
             || (n in {LW, LWU, SW} && k == 4) || (n in {LD, SD} && k == 8)
    ensures Permitted(s, n, f) <==> Reachable(s.mem, AccessLaws.Base(s, f), k, n in {SB, SH, SW, SD})
  {
    AccessLaws.BaseIsAddress(s, n, f);
    assert Width(n) == k && !IsAtomic(n) && !IsSystem(n);
    if s.mem.InRam(AccessLaws.Base(s, f), k) { WritableLaw(s.mem, AccessLaws.Base(s, f), k); }
  }

  /** An atomic is covered exactly when it is misaligned, or its bytes lie in RAM and are writable; LR needs no
      writable bytes, nor does an AMO whose bytes may not be read. */
  lemma CoveredAtomic(s: State, n: IName, f: Fields, k: int)
    requires s.Valid() && RegisterFields(f) && LRW <= n <= AMOMAXUD && k == if n <= AMOMAXUW then 4 else 8
    ensures Permitted(s, n, f) <==>
      || s.x[f.rs1] % k != 0
      || Reachable(s.mem, s.x[f.rs1], k,
                   n in {SCW, SCD} || (n !in {LRW, LRD} && AccessLaws.MayRead(s.mem, s.x[f.rs1], k)))
  {
    assert Width(n) == k && IsAtomic(n) && !IsSystem(n) && !IsStore(n) && !IsLoad(n);
    if s.x[f.rs1] % k == 0 && s.mem.InRam(s.x[f.rs1], k) {
      WritableLaw(s.mem, s.x[f.rs1], k);
      AccessLaws.NormalIsMayRead(s.mem, s.x[f.rs1], k);
    }
  }

  /** Every other modelled instruction is covered, but for an MRET with digit 12 of MSTATUS set. */
  lemma CoveredOthers(s: State, n: IName, f: Fields)
    requires s.Valid() && RegisterFields(f) && IsModelled(n) && !(0 <= n as int <= 6) && !(37 <= n as int <= 40)
    requires !(72 <= n as int <= 93)
    ensures Permitted(s, n, f) <==> !(n == MRET && Bit(s.hart.csrs[0x300], 12))
  {
    MretAbortsExactly(s.hart);
    assert !IsMemory(n);
  }
}
