/** The emulator object: instruction methods that update registers, CSRs, pc and memory in place, and the
    iteration of the run loop. */
module Emulator {
  import opened Bits
  import opened Words
  import opened Names
  import opened Alu
  import opened DecodeTables
  import opened Decoder
  import opened RegisterFile
  import opened Memory
  import opened Mmu
  import opened Privileged
  import opened Interrupts
  import opened Atomics
  import opened Isa
  import opened Refinement
  import opened Runs

  class VEmu {
    const iregs: RegFile
    const csrs: array<U64>
    const mmu: MMU
    const decoder: InstructionDecoder
    var pc: U64
    var mode: Mode

    ghost predicate Valid()
      reads this, iregs, iregs.data, csrs, mmu, mmu.ram, mmu.perms, decoder
    {
      iregs.Valid() && csrs.Length == 4096 && mmu.Valid() && decoder.Valid()
    }

    /** The architectural state that the object's fields represent. */
    ghost function View(): State
      reads this, iregs, iregs.data, csrs, mmu, mmu.ram, mmu.perms
    {
      State(Unsigned(iregs.data[..]), Hart(mode, pc, csrs[..]), mmu.View())
    }

    /** A fresh emulator: zeroed registers and CSRs except MISA, user mode, no accessible memory. */
    constructor (startPc: U64, memSize: int)
      requires 0 <= memSize <= 0x8000_0000_0000_0000
      ensures Valid() && fresh(iregs) && fresh(iregs.data) && fresh(csrs) && fresh(mmu) && fresh(decoder)
      ensures fresh(mmu.ram) && fresh(mmu.perms)
      ensures pc == startPc && mode == User && mmu.ram.Length == memSize && mmu.allocPtr == 0x1_0000
      ensures forall i :: 0 <= i < 32 ==> iregs.data[i] == 0
      ensures forall i :: 0 <= i < memSize ==> mmu.perms[i] == NONE
      ensures forall a :: 0 <= a < 4096 ==> csrs[a] == if a == 0x301 then 0x14_1121 else 0
    {
      iregs := new RegFile();
      csrs := new U64[4096](a => if a == MISA then 0x14_1121 else 0);
      mmu := new MMU(memSize);
      decoder := new InstructionDecoder();
      pc := startPc;
      mode := User;
    }

    /** The register values as the emulator stores them. */
    ghost function Regs(): (r: seq<I64>)
      reads iregs.data
    {
      iregs.data[..]
    }

    // ----- register and control-flow instructions -----

    /** The register-register methods; a zero divisor also raises a bit in FFLAGS. */
    method ExecRegOp(n: IName, f: Fields)
      requires Valid() && IsRegOp(n) && RegisterFields(f)
      modifies iregs.data, csrs
      ensures Valid() && Regs() == Stored(old(Regs()), f.rd, OpResult(n, old(Regs()[f.rs1]), old(Regs()[f.rs2])))
      ensures csrs[..] == CodeCsrs(old(Regs()), old(csrs[..]), n, f)
    {
      var x := iregs.LoadReg(f.rs1);
      var y := iregs.LoadReg(f.rs2);
      if RaisesDivideByZero(n, x, y) { csrs[FFLAGS] := RaiseFlag(csrs[FFLAGS]); }
      iregs.StoreReg(f.rd, OpResult(n, x, y));
    }

    method ExecImmOp(n: IName, f: Fields)
      requires Valid() && IsImmOp(n) && RegisterFields(f)
      modifies iregs.data
      ensures Valid() && Regs() == Stored(old(Regs()), f.rd, OpImmResult(n, old(Regs()[f.rs1]), f.imm))
    {
      var x := iregs.LoadReg(f.rs1);
      iregs.StoreReg(f.rd, OpImmResult(n, x, f.imm));
    }

    /** A taken branch leaves pc four short of its target. */
    method ExecBranch(n: IName, f: Fields)
      requires Valid() && IsBranch(n) && RegisterFields(f)
      modifies this`pc
      ensures Valid() && pc == CodePc(Regs(), old(pc), n, f)
    {
      var x := iregs.LoadReg(f.rs1);
      var y := iregs.LoadReg(f.rs2);
      if BranchCondition(n, x, y) {
        pc := PlusImm(pc, f);
        pc := Minus4(pc);
      }
    }

    /** JAL and JALR; JALR reads its base before rd is written, so rd may be the base. */
    method ExecJump(n: IName, f: Fields)
      requires Valid() && n in {JAL, JALR} && RegisterFields(f)
      modifies this`pc, iregs.data
      ensures Valid() && Regs() == Stored(old(Regs()), f.rd, Link(old(pc)))
      ensures n == JAL ==> pc == Minus4(PlusImm(old(pc), f))
      ensures n == JALR ==> pc == JalrPc(old(Regs()[f.rs1]), f)
    {
      var rs1Val := iregs.LoadReg(f.rs1);
      iregs.StoreReg(f.rd, Link(pc));
      if n == JAL {
        pc := PlusImm(pc, f);
      } else {
        pc := PlusImm(rs1Val, f);
        pc := And(pc, Not64(1));
      }
      pc := Minus4(pc);
    }

    method ExecUpper(n: IName, f: Fields)
      requires Valid() && n in {LUI, AUIPC} && RegisterFields(f)
      modifies iregs.data
      ensures Valid() && Regs() == Stored(old(Regs()), f.rd, UpperResult(n, pc, f))
    {
      iregs.StoreReg(f.rd, UpperResult(n, pc, f));
    }

    /** The instructions that touch neither memory nor the privilege mode, in architectural terms; pc is four
        short. */
    method Compute(n: IName, f: Fields)
      requires Valid() && IsCompute(n) && RegisterFields(f)
      modifies this`pc, iregs.data, csrs
      ensures Valid() && mode == old(mode)
      ensures View().x == NextX(old(View()), n, f)
      ensures Plus4(pc) == NextPc(old(View()), n, f) && csrs[..] == NextCsrs(old(View()), n, f)
    {
      ghost var s, regs, c := View(), Regs(), csrs[..];
      ComputeValues(n, f);
      RegsRefine(regs, s.hart.pc, n, f, s);
      PcRefines(regs, s.hart.pc, n, f, s);
      CsrsRefine(regs, n, f, s);
    }

    /** The same, in the values of the source. */
    method ComputeValues(n: IName, f: Fields)
      requires Valid() && IsCompute(n) && RegisterFields(f)
      modifies this`pc, iregs.data, csrs
      ensures Valid() && mode == old(mode) && Regs() == CodeRegs(old(Regs()), old(pc), n, f)
      ensures pc == CodePc(old(Regs()), old(pc), n, f) && csrs[..] == CodeCsrs(old(Regs()), old(csrs[..]), n, f)
    {
      if IsRegOp(n) { ExecRegOp(n, f); }
      else if IsImmOp(n) { ExecImmOp(n, f); }
      else if IsBranch(n) { ExecBranch(n, f); }
      else if n == JAL || n == JALR { ExecJump(n, f); }
      else if n == LUI || n == AUIPC { ExecUpper(n, f); }
    }

    // ----- loads, stores and atomics -----

    /** LBU, LHU, LWU and LD; LD converts all eight bytes to a signed value. */
    method LoadUnsigned(w: nat, f: Fields) returns (e: Exception)
      requires Valid() && RegisterFields(f) && w in {1, 2, 4, 8}
      requires mmu.View().InRam(PlusImm(Regs()[f.rs1], f), w)
      modifies iregs.data
      ensures Valid() && Regs() == UnsignedLoadRegs(old(Regs()), mmu.View(), w, f)
      ensures e == OfStatus(Status(mmu.View(), PlusImm(old(Regs()[f.rs1]), f), w))
    {
      var base := iregs.LoadReg(f.rs1);
      var v, st := mmu.Load(PlusImm(base, f), w);
      if st != Normal { return OfStatus(st); }
      iregs.StoreReg(f.rd, I64Of(v));
      e := NormalReturn;
    }

    /** LB, LH and LW: the unsigned load, whose fault is dropped, and then rd extended from its own low bytes. */
    method LoadSigned(w: nat, f: Fields)
      requires Valid() && RegisterFields(f) && w in {1, 2, 4}
      requires mmu.View().InRam(PlusImm(Regs()[f.rs1], f), w)
      modifies iregs.data
      ensures Valid() && Regs() == SignedLoadRegs(old(Regs()), mmu.View(), w, f)
    {
      var e := LoadUnsigned(w, f);
      var x := iregs.LoadReg(f.rd);
      iregs.StoreReg(f.rd, SignPart(w, x));
    }

    /** Loads, in architectural terms. */
    method ExecLoad(n: IName, f: Fields) returns (e: Exception)
      requires Valid() && IsLoad(n) && RegisterFields(f) && Permitted(View(), n, f)
      modifies iregs.data
      ensures Valid() && Effect(old(View()), n, f, e, View())
    {
      ghost var s, regs := View(), Regs();
      LoadAddress(regs, n, f, s);
      if IsSignedLoad(n) {
        LoadSigned(Width(n), f);
        e := NormalReturn;
        SignedLoadEffect(regs, n, f, s, View());
      } else {
        e := LoadUnsigned(Width(n), f);
        UnsignedLoadEffect(regs, n, f, s, View());
      }
    }

    /** SB, SH, SW and SD mask their datum before the store. */
    method ExecStore(n: IName, f: Fields)
      requires Valid() && IsStore(n) && RegisterFields(f) && Permitted(View(), n, f)
      modifies mmu`dirty, mmu.ram, mmu.perms
      ensures Valid() && Effect(old(View()), n, f, NormalReturn, View())
    {
      ghost var s, regs := View(), Regs();
      var base := iregs.LoadReg(f.rs1);
      var y := iregs.LoadReg(f.rs2);
      var addr, data := PlusImm(base, f), LowBytes(U64Of(y), Width(n));
      StorePlan(regs, n, f, s, addr, data);
      mmu.Store(addr, data, Width(n));
      assert View() == s.(mem := mmu.View());
      StoreEffect(s, n, f, View());
    }

    /** The eighteen atomics: load, combine, store, then rd, which may be rs1 or rs2. */
    method ExecAmo(n: IName, f: Fields) returns (e: Exception)
      requires Valid() && IsAmo(n) && RegisterFields(f) && Permitted(View(), n, f)
      modifies iregs.data, mmu`dirty, mmu.ram, mmu.perms
      ensures Valid() && Effect(old(View()), n, f, e, View())
    {
      ghost var s := View();
      var addr, v;
      addr, v, e := AtomicAccess(n, f);
      if e != NormalReturn {
        ExceptionEffect(s, n, f);
        return;
      }
      CompleteAmo(n, f, addr, v);
      AmoEffect(s, n, f, View());
    }

    /** The alignment test and the load that AMOs and LR begin with. */
    method AtomicAccess(n: IName, f: Fields) returns (addr: U64, v: U64, e: Exception)
      requires Valid() && (IsAmo(n) || IsLr(n)) && RegisterFields(f) && Addressable(View(), n, f)
      ensures addr == Address(View(), n, f) && e == Raised(View(), n, f)
      ensures e == NormalReturn ==> !Misaligned(View(), n, f) && v == Held(View(), n, f)
    {
      var x := iregs.LoadReg(f.rs1);
      addr, v := U64Of(x), 0;
      if addr % Width(n) != 0 { return addr, v, LoadAddressMisaligned; }
      var st;
      v, st := mmu.Load(addr, Width(n));
      e := OfStatus(st);
    }

    /** The rest of an atomic, once its access was granted. */
    method CompleteAmo(n: IName, f: Fields, addr: U64, v: U64)
      requires Valid() && IsAmo(n) && RegisterFields(f) && Addressable(View(), n, f) && !Misaligned(View(), n, f)
      requires addr == Address(View(), n, f) && v == Held(View(), n, f) && Writable(mmu.View(), addr, Width(n))
      modifies iregs.data, mmu`dirty, mmu.ram, mmu.perms
      ensures Valid() && mmu.View() == Memory.Store(old(mmu.View()), addr, Datum(old(View()), n, f), Width(n))
      ensures View().x == WriteX(old(View()).x, f.rd, Loaded(old(View()), n, f))
    {
      ghost var s, regs := View(), Regs();
      var y := iregs.LoadReg(f.rs2);
      AmoStoreRefines(regs, n, f, s);
      mmu.Store(addr, AmoDatum(n, v, y), Width(n));
      AmoRegsRefine(regs, n, f, s);
      iregs.StoreReg(f.rd, AmoOld(n, v));
    }

    /** LR.W and LR.D load without extending the sign, and reserve nothing. */
    method ExecLr(n: IName, f: Fields) returns (e: Exception)
      requires Valid() && IsLr(n) && RegisterFields(f) && Permitted(View(), n, f)
      modifies iregs.data
      ensures Valid() && Effect(old(View()), n, f, e, View())
    {
      ghost var s, regs := View(), Regs();
      var addr, v;
      addr, v, e := AtomicAccess(n, f);
      if e != NormalReturn {
        ExceptionEffect(s, n, f);
        return;
      }
      iregs.StoreReg(f.rd, I64Of(v));
      LrEffect(regs, n, f, s, View());
    }

    /** SC.W and SC.D always store and report success. */
    method ExecSc(n: IName, f: Fields) returns (e: Exception)
      requires Valid() && IsSc(n) && RegisterFields(f) && Permitted(View(), n, f)
      modifies iregs.data, mmu`dirty, mmu.ram, mmu.perms
      ensures Valid() && Effect(old(View()), n, f, e, View())
    {
      ghost var s, regs := View(), Regs();
      var addr;
      addr, e := ScAddress(n, f);
      if e != NormalReturn {
        ExceptionEffect(s, n, f);
        return;
      }
      var y := iregs.LoadReg(f.rs2);
      CompleteSc(n, f, addr, U64Of(y));
      ScEffect(regs, n, f, s, View());
    }

    method ScAddress(n: IName, f: Fields) returns (addr: U64, e: Exception)
      requires Valid() && IsSc(n) && RegisterFields(f) && Permitted(View(), n, f)
      ensures addr == Address(View(), n, f) && e == Raised(View(), n, f)
      ensures e == NormalReturn ==> !Misaligned(View(), n, f) && mmu.View().InRam(addr, Width(n))
      ensures e == NormalReturn ==> Writable(mmu.View(), addr, Width(n))
    {
      var x := iregs.LoadReg(f.rs1);
      addr := U64Of(x);
      e := if addr % Width(n) != 0 then StoreAddressMisaligned else NormalReturn;
    }

    method CompleteSc(n: IName, f: Fields, addr: U64, y: U64)
      requires Valid() && RegisterFields(f) && mmu.View().InRam(addr, Width(n)) && Writable(mmu.View(), addr, Width(n))
      modifies iregs.data, mmu`dirty, mmu.ram, mmu.perms
      ensures Valid() && mmu.View() == Memory.Store(old(mmu.View()), addr, y, Width(n))
      ensures Regs() == Stored(old(Regs()), f.rd, 0)
    {
      mmu.Store(addr, y, Width(n));
      iregs.StoreReg(f.rd, 0);
    }

    // ----- CSRs, traps and returns -----

    ghost function HartView(): Hart
      reads this, csrs
    {
      Hart(mode, pc, csrs[..])
    }

    /** Reading SIE reads the delegated part of MIE. */
    function Csr(a: int): (v: U64)
      requires csrs.Length == 4096 && 0 <= a < 4096
      reads csrs
      ensures v == LoadCsr(csrs[..], a)
    {
      if a == SIE then And(csrs[MIE], csrs[MIDELEG]) else csrs[a]
    }

    method StoreCsr(a: int, v: U64)
      requires csrs.Length == 4096 && 0 <= a < 4096
      modifies csrs
      ensures a == SIE ==> csrs[..] == Privileged.StoreCsr(old(csrs[..]), a, v)
      ensures a != SIE ==> csrs[..] == old(csrs[..])[a := v]
    {
      if a == SIE {
        BitwiseBound64(And(csrs[MIE], if csrs[MIDELEG] == 0 then 1 else 0), And(v, csrs[MIDELEG]));
        csrs[MIE] := And(csrs[MIE], if csrs[MIDELEG] == 0 then 1 else 0);
        csrs[MIE] := Or(csrs[MIE], And(v, csrs[MIDELEG]));
      } else {
        csrs[a] := v;
      }
    }

    /** The six CSR instructions: the old value is read first and goes to rd last. */
    method ExecCsr(n: IName, f: Fields)
      requires Valid() && IsCsr(n) && RegisterFields(f) && Permitted(View(), n, f)
      modifies iregs.data, csrs
      ensures Valid() && Effect(old(View()), n, f, NormalReturn, View())
    {
      ghost var s, regs := View(), Regs();
      var x := iregs.LoadReg(f.rs1);
      var operand := if n <= CSRRC then U64Of(x) else f.rs1;
      var a := f.imm % 4096;
      var v := Csr(a);
      StoreCsr(a, CsrNew(n, v, operand));
      iregs.StoreReg(f.rd, I64Of(v));
      CsrEffect(regs, n, f, s, View());
    }

    /** The updates of SSTATUS on a trap, one after another. */
    method EnterSstatus(prev: Mode)
      requires csrs.Length == 4096
      modifies csrs
      ensures csrs[..] == old(csrs[..])[SSTATUS := TrapSstatus(old(csrs[SSTATUS]), prev)]
    {
      SaveSie();
      if prev == User { StoreCsr(SSTATUS, Clear32(Csr(SSTATUS), 8)); }
      else { StoreCsr(SSTATUS, SetBit(Csr(SSTATUS), 8)); }
    }

    method SaveSie()
      requires csrs.Length == 4096
      modifies csrs
      ensures csrs[..] == old(csrs[..])[SSTATUS := WithSpie(old(csrs[SSTATUS]))]
    {
      if And(Shr(Csr(SSTATUS), 1), 1) != 0 { StoreCsr(SSTATUS, SetBit(Csr(SSTATUS), 5)); }
      else { StoreCsr(SSTATUS, Clear32(Csr(SSTATUS), 5)); }
      StoreCsr(SSTATUS, Clear32(Csr(SSTATUS), 1));
    }

    method SaveMie()
      requires csrs.Length == 4096
      modifies csrs
      ensures csrs[..] == old(csrs[..])[MSTATUS := WithMpie(old(csrs[MSTATUS]))]
    {
      if And(Shr(Csr(MSTATUS), 3), 1) == 1 { StoreCsr(MSTATUS, SetBit(Csr(MSTATUS), 7)); }
      else { StoreCsr(MSTATUS, Clear32(Csr(MSTATUS), 7)); }
      StoreCsr(MSTATUS, Clear32(Csr(MSTATUS), 3));
    }

    method EnterMstatus(prev: Mode)
      requires csrs.Length == 4096
      modifies csrs
      ensures csrs[..] == old(csrs[..])[MSTATUS := TrapMstatus(old(csrs[MSTATUS]), prev)]
    {
      SaveMie();
      SavePrivilege(prev);
    }

    method SavePrivilege(prev: Mode)
      requires csrs.Length == 4096
      modifies csrs
      ensures csrs[..] == old(csrs[..])[MSTATUS := WithMpp(old(csrs[MSTATUS]), prev)]
    {
      match prev {
        case User => StoreCsr(MSTATUS, And(Csr(MSTATUS), Complement32(MppMask())));
        case Supervisor =>
          StoreCsr(MSTATUS, Clear32(Csr(MSTATUS), 12));
          StoreCsr(MSTATUS, SetBit(Csr(MSTATUS), 11));
        case Machine => StoreCsr(MSTATUS, SetBit(SetBit(Csr(MSTATUS), 11), 12));
      }
    }

    /** The four CSR updates of a trap or interrupt taken to supervisor mode. */
    method SaveSupervisorContext(epc: U64, cause: U64, prev: Mode)
      requires csrs.Length == 4096
      modifies csrs
      ensures csrs[..] == old(csrs[..])[SEPC := EvenLow(epc)][SCAUSE := cause][STVAL := 0]
                          [SSTATUS := TrapSstatus(old(csrs[SSTATUS]), prev)]
    {
      StoreCsr(SEPC, EvenLow(epc));
      StoreCsr(SCAUSE, cause);
      StoreCsr(STVAL, 0);
      EnterSstatus(prev);
    }

    method SaveMachineContext(epc: U64, cause: U64, prev: Mode)
      requires csrs.Length == 4096
      modifies csrs
      ensures csrs[..] == old(csrs[..])[MEPC := EvenLow(epc)][MCAUSE := cause][MTVAL := 0]
                          [MSTATUS := TrapMstatus(old(csrs[MSTATUS]), prev)]
    {
      StoreCsr(MEPC, EvenLow(epc));
      StoreCsr(MCAUSE, cause);
      StoreCsr(MTVAL, 0);
      EnterMstatus(prev);
    }

    method Trap(cause: nat)
      requires csrs.Length == 4096 && cause < 256
      modifies this`pc, this`mode, csrs
      ensures HartView() == Privileged.Trap(old(HartView()), cause)
    {
      var exceptionPc, prev := pc, mode;
      TestBit(Csr(MEDELEG), cause);
      var delegated := And(Shr(Csr(MEDELEG), cause), 1) != 0;
      if (prev == User || prev == Supervisor) && delegated {
        mode := Supervisor;
        pc := EvenLow(Csr(STVEC));
        pc := Minus4(pc);
        SaveSupervisorContext(exceptionPc, cause, prev);
      } else {
        mode := Machine;
        pc := EvenLow(Csr(MTVEC));
        pc := Minus4(pc);
        SaveMachineContext(exceptionPc, cause, prev);
      }
    }

    method ExecSret()
      requires csrs.Length == 4096
      modifies this`pc, this`mode, csrs
      ensures HartView() == Privileged.Sret(old(HartView()))
    {
      pc := Minus4(Csr(SEPC));
      mode := if And(Shr(Csr(SSTATUS), 8), 1) == 0 then User else Supervisor;
      LeaveSstatus();
    }

    method LeaveSstatus()
      requires csrs.Length == 4096
      modifies csrs
      ensures csrs[..] == old(csrs[..])[SSTATUS := SretSstatus(old(csrs[SSTATUS]))]
    {
      if And(Shr(Csr(SSTATUS), 5), 1) != 0 { StoreCsr(SSTATUS, SetBit(Csr(SSTATUS), 1)); }
      else { StoreCsr(SSTATUS, Clear64(Csr(SSTATUS), 1)); }
      StoreCsr(SSTATUS, SetBit(Csr(SSTATUS), 5));
      StoreCsr(SSTATUS, Clear64(Csr(SSTATUS), 8));
    }

    /** The comparison with 0x11 never holds of a two-digit field; the final `else` of the source aborts. */
    method ExecMret()
      requires csrs.Length == 4096 && Privileged.Mret(HartView()).Returned?
      modifies this`pc, this`mode, csrs
      ensures Privileged.Mret(old(HartView())) == Returned(HartView())
    {
      ghost var h := HartView();
      MretIs(h);
      pc := Minus4(Csr(MEPC));
      var mb := And(Shr(Csr(MSTATUS), 11), 3);
      mode := if mb == 0x00 then User else if mb == 0x01 then Supervisor else Machine;
      LeaveMstatus();
      assert HartView() == Privileged.Mret(h).h;
    }

    method LeaveMstatus()
      requires csrs.Length == 4096
      modifies csrs
      ensures csrs[..] == old(csrs[..])[MSTATUS := MretMstatus(old(csrs[MSTATUS]))]
    {
      if And(Shr(Csr(MSTATUS), 7), 1) != 0 { StoreCsr(MSTATUS, SetBit(Csr(MSTATUS), 3)); }
      else { StoreCsr(MSTATUS, Clear64(Csr(MSTATUS), 3)); }
      StoreCsr(MSTATUS, SetBit(Csr(MSTATUS), 7));
      StoreCsr(MSTATUS, And(Csr(MSTATUS), Complement64(MppMask())));
    }

    /** The check for a UART event, then the chain of tests. */
    method CheckPendingInterrupt(uart: bool) returns (i: Selected)
      requires csrs.Length == 4096
      modifies csrs
      ensures (i, HartView()) == Check(Claim(old(HartView()), uart))
    {
      if mode == Machine {
        if And(Shr(Csr(MSTATUS), 3), 1) == 0 { return NoInterrupt; }
      } else if mode == Supervisor {
        if And(Shr(Csr(SSTATUS), 1), 1) == 0 { return NoInterrupt; }
      }
      if uart { StoreCsr(MIP, SetBit(Csr(MIP), 9)); }
      i := SelectPending();
    }

    method SelectPending() returns (i: Selected)
      requires csrs.Length == 4096 && Interruptible(HartView())
      modifies csrs
      ensures (i, HartView()) == Check(old(HartView()))
    {
      var k := 0;
      while k < 6
        invariant 0 <= k <= 6 && csrs[..] == old(csrs[..])
        invariant FirstOf(PendingSet(HartView()), k) == FirstOf(PendingSet(HartView()), 0)
      {
        var p := Position(ByPriority(k));
        if And(And(Csr(MIE), Csr(MIP)), Pow2(p)) != 0 {
          assert Pending(HartView(), ByPriority(k));
          i := Take(ByPriority(k));
          StoreCsr(MIP, Clear32(Csr(MIP), p));
          return;
        }
        assert !Pending(HartView(), ByPriority(k));
        k := k + 1;
      }
      i := NoInterrupt;
    }

    /** `take_interrupt`; `shifted` is the digit that its undefined shift of MEDELEG produces. */
    method ExecTakeInterrupt(i: Interrupt, shifted: bool)
      requires csrs.Length == 4096
      modifies this`pc, this`mode, csrs
      ensures HartView() == TakeInterrupt(old(HartView()), i, shifted)
    {
      var currentPc, prev, cause := pc, mode, InterruptCause(i);
      if (prev == User || prev == Supervisor) && shifted {
        mode := Supervisor;
        pc := InterruptTarget(Csr(STVEC), i);
        pc := Minus4(pc);
        SaveSupervisorContext(currentPc, cause, prev);
      } else {
        mode := Machine;
        pc := InterruptTarget(Csr(MTVEC), i);
        pc := Minus4(pc);
        SaveMachineContext(currentPc, cause, prev);
      }
    }

    /** The head of an iteration: check, and take what is due. */
    method BeginIteration(uart: bool, shifted: bool)
      requires csrs.Length == 4096
      modifies this`pc, this`mode, csrs
      ensures HartView() == Begin(old(HartView()), uart, shifted)
    {
      var i := CheckPendingInterrupt(uart);
      if i.Take? { ExecTakeInterrupt(i.i, shifted); }
    }

    // ----- the run loop -----

    /** The entry of the function table for this name. */
    method Execute(n: IName, f: Fields) returns (e: Exception)
      requires Valid() && RegisterFields(f) && Permitted(View(), n, f)
      modifies this`pc, this`mode, iregs.data, csrs, mmu`dirty, mmu.ram, mmu.perms
      ensures Valid() && Effect(old(View()), n, f, e, View())
    {
      if IsCompute(n) { Compute(n, f); e := NormalReturn; }
      else if IsMemory(n) { e := ExecMemory(n, f); }
      else if IsCsr(n) { ExecCsr(n, f); e := NormalReturn; }
      else { e := ExecSystem(n, f); }
    }

    method ExecMemory(n: IName, f: Fields) returns (e: Exception)
      requires Valid() && RegisterFields(f) && Permitted(View(), n, f) && IsMemory(n)
      modifies iregs.data, mmu`dirty, mmu.ram, mmu.perms
      ensures Valid() && Effect(old(View()), n, f, e, View())
    {
      if IsLoad(n) { e := ExecLoad(n, f); }
      else if IsStore(n) { ExecStore(n, f); e := NormalReturn; }
      else if IsLr(n) { e := ExecLr(n, f); }
      else if IsSc(n) { e := ExecSc(n, f); }
      else { e := ExecAmo(n, f); }
    }

    method ExecSystem(n: IName, f: Fields) returns (e: Exception)
      requires Valid() && RegisterFields(f) && Permitted(View(), n, f) && IsSystem(n)
      modifies this`pc, this`mode, csrs
      ensures Valid() && Effect(old(View()), n, f, e, View())
    {
      if n == MRET || n == SRET { ExecReturn(n, f); return NormalReturn; }
      e := if n == ECALL then EnvironmentCall(mode) else if n == EBREAK then Breakpoint else IllegalInstruction;
      ExceptionEffect(View(), n, f);
    }

    method ExecReturn(n: IName, f: Fields)
      requires Valid() && RegisterFields(f) && Permitted(View(), n, f) && (n == MRET || n == SRET)
      modifies this`pc, this`mode, csrs
      ensures Valid() && Effect(old(View()), n, f, NormalReturn, View())
    {
      ghost var s := View();
      if n == MRET {
        ExecMret();
      } else {
        ExecSret();
      }
      ReturnHart(s, n, f);
      ReturnEffect(s, n, f, HartView());
      assert View() == s.(hart := HartView());
    }

    /** Execute, trap on an exception, stop on a fatal one, and otherwise add four to pc. */
    method ExecuteAndAdvance(n: IName, f: Fields) returns (stopped: bool)
      requires Valid() && RegisterFields(f) && Permitted(View(), n, f)
      modifies this`pc, this`mode, iregs.data, csrs, mmu`dirty, mmu.ram, mmu.perms
      ensures Valid() && View() == Outcome(old(View()), n, f) && stopped == Fatal(Raised(old(View()), n, f))
    {
      ghost var s := View();
      var e := Execute(n, f);
      ghost var t := View();
      stopped := Finish(e);
      EffectThenAdvance(s, n, f, e, t);
      assert View() == t.(hart := HartView());
    }

    method Finish(e: Exception) returns (stopped: bool)
      requires csrs.Length == 4096
      modifies this`pc, this`mode, csrs
      ensures HartView() == Finished(old(HartView()), e) && stopped == Fatal(e)
    {
      if e != NormalReturn { Trap(Code(e)); }
      if Fatal(e) { return true; }
      pc := Plus4(pc);
      stopped := false;
    }

    /** Fetch and cached decode change nothing but the decoder's caches. */
    method FetchDecode(ghost ins: Instruction) returns (d: Instruction)
      requires Valid() && Fetches(View(), ins)
      modifies decoder
      ensures Valid() && d == ins && View() == old(View())
    {
      var w := mmu.LoadInsn(pc);
      assert w == Fetched(View());
      d := DecodeTo(w, ins);
    }

    method DecodeTo(w: U32, ghost ins: Instruction) returns (d: Instruction)
      requires decoder.Valid() && Reference(w) == Ok(ins)
      modifies decoder
      ensures decoder.Valid() && d == ins
    {
      var r := decoder.Decode(w);
      d := r.ins;
    }

    /** One iteration of the loop in `run`. */
    method Iterate(turn: Turn) returns (stopped: bool)
      requires Valid() && CanStep(Started(View(), turn), turn.ins) && Fetches(Started(View(), turn), turn.ins)
      modifies this`pc, this`mode, iregs.data, csrs, mmu`dirty, mmu.ram, mmu.perms, decoder
      ensures Valid() && View() == Cycle(old(View()), turn) && stopped == Halts(Started(old(View()), turn), turn.ins)
    {
      ghost var s := Started(View(), turn);
      BeginIteration(turn.uart, turn.shifted);
      assert View() == s;
      var d := FetchDecode(turn.ins);
      stopped := ExecuteAndAdvance(d.name, d.f);
    }

    /** As many iterations of `run` as there are turns, or until a fatal exception: the machine ends where the
        architecture does, whatever the decoder's caches held. Of a turn the loop uses only what the environment
        decides. */
    method Run(turns: seq<Turn>) returns (stopped: bool)
      requires Valid() && CanRun(View(), turns) && Follows(View(), turns)
      modifies this`pc, this`mode, iregs.data, csrs, mmu`dirty, mmu.ram, mmu.perms, decoder
      ensures Valid() && View() == Cycles(old(View()), turns) && stopped == Stops(old(View()), turns)
    {
      stopped := false;
      var k := 0;
      while k < |turns| && !stopped
        invariant 0 <= k <= |turns| && Valid() && (stopped ==> k == |turns|)
        invariant CanRun(View(), turns[k..]) && Follows(View(), turns[k..])
        invariant Cycles(View(), turns[k..]) == Cycles(old(View()), turns)
        invariant Stops(old(View()), turns) <==> stopped || Stops(View(), turns[k..])
      {
        assert turns[k..][0] == turns[k] && turns[k..][1..] == turns[k + 1..];
        stopped := Iterate(turns[k]);
        k := k + 1;
      }
      assert turns[k..] == [];
    }
  }
}
