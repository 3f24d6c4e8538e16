/** Trap entry, trap return and CSR writes as the Privileged ISA prescribes them, digit by digit and without
    masks; and exactly when the emulator does the same. */
module PrivilegedIsa {
  import opened Bits
  import opened Words
  import opened Alu
  import opened Privileged

  // ----- trap entry -----

  /** Sections 3.1.6.1 and 3.1.7: MPIE takes MIE, MIE is cleared, MPP records the mode and all other digits stay. */
  ghost predicate EntersMstatus(s: U64, from: Mode, r: U64) {
    forall j: nat :: Bit(r, j) <==>
      if j == 7 then Bit(s, 3) else if j == 3 then false
      else if j == 11 then from != User else if j == 12 then from == Machine else Bit(s, j)
  }

  /** The same for a trap to supervisor mode: SPIE takes SIE, SIE is cleared, SPP records the mode. Section
      4.1.1 makes SSTATUS a view of MSTATUS, so both registers change in this way. */
  ghost predicate EntersSstatus(s: U64, from: Mode, r: U64) {
    forall j: nat :: Bit(r, j) <==>
      if j == 5 then Bit(s, 1) else if j == 1 then false else if j == 8 then from == Supervisor else Bit(s, j)
  }

  /** The base of a trap vector register, whose two lowest digits hold the mode. */
  function VectorBase(tvec: U64): U64 { tvec - tvec % 4 }

  /** All CSRs but those listed are as before. */
  predicate OthersKept(before: seq<U64>, after: seq<U64>, changed: set<int>) {
    |before| == |after| == 4096 && forall a :: 0 <= a < 4096 && a !in changed ==> after[a] == before[a]
  }

  ghost predicate EntersMachine(h: Hart, cause: nat, r: Hart)
    requires h.Valid() && r.Valid()
  {
    && r.mode == Machine && r.pc == VectorBase(h.csrs[MTVEC])
    && r.csrs[MEPC] == h.pc && r.csrs[MCAUSE] == cause && r.csrs[MTVAL] == 0
    && EntersMstatus(h.csrs[MSTATUS], h.mode, r.csrs[MSTATUS])
    && OthersKept(h.csrs, r.csrs, {MEPC, MCAUSE, MTVAL, MSTATUS})
  }

  ghost predicate EntersSupervisor(h: Hart, cause: nat, r: Hart)
    requires h.Valid() && r.Valid()
  {
    && r.mode == Supervisor && r.pc == VectorBase(h.csrs[STVEC])
    && r.csrs[SEPC] == h.pc && r.csrs[SCAUSE] == cause && r.csrs[STVAL] == 0
    && EntersSstatus(h.csrs[SSTATUS], h.mode, r.csrs[SSTATUS])
    && EntersSstatus(h.csrs[MSTATUS], h.mode, r.csrs[MSTATUS])
    && OthersKept(h.csrs, r.csrs, {SEPC, SCAUSE, STVAL, SSTATUS, MSTATUS})
  }

  /** The trap as the next fetch finds it: the run loop has added four to pc. */
  function Trapped(h: Hart, cause: nat): (r: Hart)
    requires h.Valid() && cause < 256
    ensures r.Valid()
  {
    var t := Trap(h, cause);
    t.(pc := U64Of(t.pc + 4))
  }

  /** What 32-bit masks do not harm. */
  predicate LowHalf(x: U64) { x < 0x1_0000_0000 }

  /** A vector register whose mode digits are direct or vectored and whose base is below 2^32. */
  predicate PlainVector(tvec: U64) { LowHalf(tvec) && tvec % 4 < 2 }

  lemma SavedVector(tvec: U64)
    ensures U64Of(Minus4(EvenLow(tvec)) + 4) == VectorBase(tvec) <==> PlainVector(tvec)
  {
    EvenLow32(tvec);
    MinusPlus(EvenLow(tvec));
    EvenLowIsBase(tvec, EvenLow(tvec));
  }

  lemma EvenLowIsBase(tvec: U64, e: int)
    requires e == U32Of(tvec) - tvec % 2
    ensures e == VectorBase(tvec) <==> PlainVector(tvec)
  {
    if LowHalf(tvec) { Parity(tvec); }
  }

  lemma Parity(x: nat)
    ensures x % 2 == x % 4 <==> x % 4 < 2
  {
    var q, r := x / 4, x % 4;
    assert x == r + 2 * (2 * q);
    ModShift(r, 2 * q, 2);
  }

  lemma SavedEpc(pc: U64)
    ensures EvenLow(pc) == pc <==> SavablePc(pc)
  {
    EvenLow32(pc);
    EvenLowIsSame(pc, EvenLow(pc));
  }

  lemma UpperHalf(s: U64)
    ensures (forall j: nat :: j >= 32 ==> !Bit(s, j)) <==> LowHalf(s)
  {
    Pow2Values();
    if LowHalf(s) {
      forall j: nat | j >= 32 ensures !Bit(s, j) {
        if j > 32 { Pow2Below(32, j); }
        BitSmall(s, j);
      }
    } else {
      HighDigit(s, 32);
    }
  }

  /** A number of more than n digits has one at place n or above. */
  lemma {:induction false} HighDigit(x: nat, n: nat)
    requires x >= Pow2(n)
    ensures exists j: nat :: j >= n && Bit(x, j)
    decreases x
  {
    if n > 0 {
      HighDigit(x / 2, n - 1);
      var j: nat :| j >= n - 1 && Bit(x / 2, j);
      assert Bit(x, j + 1);
    } else if x % 2 == 1 {
      assert Bit(x, 0);
    } else {
      HighDigit(x / 2, 0);
      var j: nat :| j >= 0 && Bit(x / 2, j);
      assert Bit(x, j + 1);
    }
  }

  lemma MstatusEntryExactly(s: U64, from: Mode)
    ensures EntersMstatus(s, from, TrapMstatus(s, from)) <==> LowHalf(s)
  {
    TrapMstatusBits(s, from);
    MstatusOfBits(s, from, TrapMstatus(s, from));
  }

  lemma MstatusOfBits(s: U64, from: Mode, r: U64)
    requires forall j: nat :: Bit(r, j) <==>
      if j == 7 then Bit(s, 3) else if j == 3 then false
      else if j == 11 then from != User else if j == 12 then from == Machine else j < 32 && Bit(s, j)
    ensures EntersMstatus(s, from, r) <==> LowHalf(s)
  {
    UpperHalf(s);
    if EntersMstatus(s, from, r) {
      forall j: nat | j >= 32 ensures !Bit(s, j) { assert !Bit(r, j); }
    } else if LowHalf(s) {
      forall j: nat ensures Bit(r, j) <==>
        if j == 7 then Bit(s, 3) else if j == 3 then false
        else if j == 11 then from != User else if j == 12 then from == Machine else Bit(s, j)
      {
        if j >= 32 { assert !Bit(s, j); }
      }
    }
  }

  lemma SstatusEntryExactly(s: U64, from: Mode)
    requires from != Machine
    ensures EntersSstatus(s, from, TrapSstatus(s, from)) <==> LowHalf(s)
  {
    TrapSstatusBits(s, from);
    SstatusOfBits(s, from, TrapSstatus(s, from));
  }

  lemma SstatusOfBits(s: U64, from: Mode, r: U64)
    requires forall j: nat :: Bit(r, j) <==>
      if j == 5 then Bit(s, 1) else if j == 1 then false else if j == 8 then from == Supervisor else j < 32 && Bit(s, j)
    ensures EntersSstatus(s, from, r) <==> LowHalf(s)
  {
    UpperHalf(s);
    if EntersSstatus(s, from, r) {
      forall j: nat | j >= 32 ensures !Bit(s, j) { assert !Bit(r, j); }
    } else if LowHalf(s) {
      forall j: nat ensures Bit(r, j) <==>
        if j == 5 then Bit(s, 1) else if j == 1 then false else if j == 8 then from == Supervisor else Bit(s, j)
      {
        if j >= 32 { assert !Bit(s, j); }
      }
    }
  }

  /** The emulator stores SSTATUS apart and leaves MSTATUS alone: right exactly when MSTATUS already reads as it
      should afterwards. */
  predicate AlreadyEntered(m: U64, from: Mode) { !Bit(m, 1) && !Bit(m, 5) && (Bit(m, 8) <==> from == Supervisor) }

  lemma KeptOnEntry(m: U64, from: Mode)
    ensures EntersSstatus(m, from, m) <==> AlreadyEntered(m, from)
  {
    if EntersSstatus(m, from, m) {
      assert Bit(m, 1) <==> false;
      assert Bit(m, 5) <==> Bit(m, 1);
      assert Bit(m, 8) <==> from == Supervisor;
    }
  }

  lemma MachineFields(h: Hart, cause: nat, r: Hart)
    requires h.Valid() && cause < 256 && !Delegated(h, cause) && r == Trapped(h, cause)
    ensures r.mode == Machine && r.pc == U64Of(Minus4(EvenLow(h.csrs[MTVEC])) + 4)
    ensures r.csrs[MEPC] == EvenLow(h.pc) && r.csrs[MCAUSE] == cause && r.csrs[MTVAL] == 0
    ensures r.csrs[MSTATUS] == TrapMstatus(h.csrs[MSTATUS], h.mode)
    ensures OthersKept(h.csrs, r.csrs, {MEPC, MCAUSE, MTVAL, MSTATUS})
  {
  }

  lemma MachineEntryFrom(h: Hart, cause: nat, r: Hart, status: U64)
    requires h.Valid() && r.Valid() && r.mode == Machine && r.pc == U64Of(Minus4(EvenLow(h.csrs[MTVEC])) + 4)
    requires r.csrs[MEPC] == EvenLow(h.pc) && r.csrs[MCAUSE] == cause && r.csrs[MTVAL] == 0
    requires r.csrs[MSTATUS] == status && OthersKept(h.csrs, r.csrs, {MEPC, MCAUSE, MTVAL, MSTATUS})
    requires EntersMstatus(h.csrs[MSTATUS], h.mode, status) <==> LowHalf(h.csrs[MSTATUS])
    ensures EntersMachine(h, cause, r) <==>
      SavablePc(h.pc) && PlainVector(h.csrs[MTVEC]) && LowHalf(h.csrs[MSTATUS])
  {
    SavedEpc(h.pc);
    SavedVector(h.csrs[MTVEC]);
  }

  /** An undelegated trap is the prescribed one exactly when pc is even, the vector register is plain, and pc,
      vector and MSTATUS fit in 32 digits. */
  lemma MachineEntryExactly(h: Hart, cause: nat)
    requires h.Valid() && cause < 256 && !Delegated(h, cause)
    ensures EntersMachine(h, cause, Trapped(h, cause)) <==>
      SavablePc(h.pc) && PlainVector(h.csrs[MTVEC]) && LowHalf(h.csrs[MSTATUS])
  {
    var r := Trapped(h, cause);
    MachineFields(h, cause, r);
    MstatusEntryExactly(h.csrs[MSTATUS], h.mode);
    MachineEntryFrom(h, cause, r, TrapMstatus(h.csrs[MSTATUS], h.mode));
  }

  lemma SupervisorFields(h: Hart, cause: nat, r: Hart)
    requires h.Valid() && cause < 256 && Delegated(h, cause) && r == Trapped(h, cause)
    ensures r.mode == Supervisor && r.pc == U64Of(Minus4(EvenLow(h.csrs[STVEC])) + 4)
    ensures r.csrs[SEPC] == EvenLow(h.pc) && r.csrs[SCAUSE] == cause && r.csrs[STVAL] == 0
    ensures r.csrs[SSTATUS] == TrapSstatus(h.csrs[SSTATUS], h.mode) && r.csrs[MSTATUS] == h.csrs[MSTATUS]
    ensures OthersKept(h.csrs, r.csrs, {SEPC, SCAUSE, STVAL, SSTATUS, MSTATUS})
  {
  }

  lemma SupervisorEntryFrom(h: Hart, cause: nat, r: Hart, status: U64)
    requires h.Valid() && r.Valid() && r.mode == Supervisor && r.pc == U64Of(Minus4(EvenLow(h.csrs[STVEC])) + 4)
    requires r.csrs[SEPC] == EvenLow(h.pc) && r.csrs[SCAUSE] == cause && r.csrs[STVAL] == 0
    requires r.csrs[SSTATUS] == status && r.csrs[MSTATUS] == h.csrs[MSTATUS]
    requires OthersKept(h.csrs, r.csrs, {SEPC, SCAUSE, STVAL, SSTATUS, MSTATUS})
    requires EntersSstatus(h.csrs[SSTATUS], h.mode, status) <==> LowHalf(h.csrs[SSTATUS])
    ensures EntersSupervisor(h, cause, r) <==>
      && SavablePc(h.pc) && PlainVector(h.csrs[STVEC]) && LowHalf(h.csrs[SSTATUS])
      && AlreadyEntered(h.csrs[MSTATUS], h.mode)
  {
    SavedEpc(h.pc);
    SavedVector(h.csrs[STVEC]);
    KeptOnEntry(h.csrs[MSTATUS], h.mode);
  }

  /** A delegated trap is the prescribed one exactly when the same holds of the supervisor registers and
      MSTATUS, which the emulator leaves alone, already reads as it should. */
  lemma SupervisorEntryExactly(h: Hart, cause: nat)
    requires h.Valid() && cause < 256 && Delegated(h, cause)
    ensures EntersSupervisor(h, cause, Trapped(h, cause)) <==>
      && SavablePc(h.pc) && PlainVector(h.csrs[STVEC]) && LowHalf(h.csrs[SSTATUS])
      && AlreadyEntered(h.csrs[MSTATUS], h.mode)
  {
    var r := Trapped(h, cause);
    SupervisorFields(h, cause, r);
    SstatusEntryExactly(h.csrs[SSTATUS], h.mode);
    SupervisorEntryFrom(h, cause, r, TrapSstatus(h.csrs[SSTATUS], h.mode));
  }

  /** A state with the given registers; the other CSRs are zero. */
  lemma SomeHart(mode: Mode, pc: U64, mstatus: U64, sstatus: U64, medeleg: U64) returns (h: Hart)
    ensures h.Valid() && h.mode == mode && h.pc == pc && h.csrs[MSTATUS] == mstatus && h.csrs[SSTATUS] == sstatus
    ensures h.csrs[MEDELEG] == medeleg
  {
    h := Hart(mode, pc, seq(4096, _ => 0)[MSTATUS := mstatus][SSTATUS := sstatus][MEDELEG := medeleg]);
  }

  /** A trap at an address above 2^32 that saves another address. */
  lemma HighPcIsLost()
    ensures exists h: Hart :: h.Valid() && !Delegated(h, 2) && !EntersMachine(h, 2, Trapped(h, 2))
  {
    var h := SomeHart(Machine, 0x1_0000_0000, 0, 0, 0);
    MachineEntryExactly(h, 2);
    assert h.Valid() && !Delegated(h, 2);
  }

  /** A delegated trap that leaves SIE set in MSTATUS. */
  lemma MstatusMissesEntry()
    ensures exists h: Hart :: h.Valid() && Delegated(h, 0) && !EntersSupervisor(h, 0, Trapped(h, 0))
  {
    var h := SomeHart(User, 0, 2, 0, 1);
    assert Bit(2, 1) by { assert Bit(1, 0); }
    assert Bit(1, 0);
    SupervisorEntryExactly(h, 0);
    assert h.Valid() && Delegated(h, 0);
  }

  // ----- trap return -----

  /** A return as the next fetch finds it. */
  function Arrived(h: Hart): Hart { h.(pc := U64Of(h.pc + 4)) }

  /** Section 3.1.6.1: MIE takes MPIE, MPIE is set, MPP is cleared, and so is MPRV unless MPP named machine mode. */
  ghost predicate LeavesMstatus(s: U64, r: U64) {
    forall j: nat :: Bit(r, j) <==>
      if j == 3 then Bit(s, 7) else if j == 7 then true else if j == 11 || j == 12 then false
      else if j == 17 && !Bit(s, 12) then false else Bit(s, j)
  }

  /** SIE takes SPIE, SPIE is set and SPP cleared. */
  ghost predicate LeavesSstatus(s: U64, r: U64) {
    forall j: nat :: Bit(r, j) <==>
      if j == 1 then Bit(s, 5) else if j == 5 then true else if j == 8 then false else Bit(s, j)
  }

  /** The same digits of MSTATUS, of which SSTATUS is a view, and MPRV cleared. */
  ghost predicate LeavesView(m: U64, r: U64) {
    forall j: nat :: Bit(r, j) <==>
      if j == 1 then Bit(m, 5) else if j == 5 then true else if j == 8 || j == 17 then false else Bit(m, j)
  }

  /** Section 3.3.2: a legal MRET, and what it does. */
  ghost predicate LeavesMachine(h: Hart, r: Hart)
    requires h.Valid() && r.Valid()
  {
    var s := h.csrs[MSTATUS];
    && h.mode == Machine
    && r.mode == (if Bit(s, 12) then Machine else if Bit(s, 11) then Supervisor else User)
    && r.pc == h.csrs[MEPC] && LeavesMstatus(s, r.csrs[MSTATUS])
    && OthersKept(h.csrs, r.csrs, {MSTATUS})
  }

  /** SRET is legal in machine mode, and in supervisor mode unless TSR is set. */
  predicate MaySret(h: Hart)
    requires h.Valid()
  {
    h.mode == Machine || (h.mode == Supervisor && !Bit(h.csrs[MSTATUS], 22))
  }

  ghost predicate LeavesSupervisor(h: Hart, r: Hart)
    requires h.Valid() && r.Valid()
  {
    && MaySret(h)
    && r.mode == (if Bit(h.csrs[SSTATUS], 8) then Supervisor else User)
    && r.pc == h.csrs[SEPC] && LeavesSstatus(h.csrs[SSTATUS], r.csrs[SSTATUS])
    && LeavesView(h.csrs[MSTATUS], r.csrs[MSTATUS])
    && OthersKept(h.csrs, r.csrs, {SSTATUS, MSTATUS})
  }

  lemma MstatusReturnExactly(s: U64, r: U64)
    requires !Bit(s, 12)
    requires forall j: nat :: Bit(r, j) <==>
      if j == 3 then Bit(s, 7) else if j == 7 then true else if j == 11 || j == 12 then false else Bit(s, j)
    ensures LeavesMstatus(s, r) <==> !Bit(s, 17)
  {
    if LeavesMstatus(s, r) { assert Bit(r, 17) <==> Bit(s, 17); }
  }

  lemma KeptOnReturn(m: U64)
    ensures LeavesView(m, m) <==> Bit(m, 1) && Bit(m, 5) && !Bit(m, 8) && !Bit(m, 17)
  {
    if LeavesView(m, m) {
      assert Bit(m, 5) <==> true;
      assert Bit(m, 1) <==> Bit(m, 5);
      assert Bit(m, 8) <==> false;
      assert Bit(m, 17) <==> false;
    }
  }

  lemma MretFields(h: Hart)
    requires h.Valid() && !Bit(h.csrs[MSTATUS], 12)
    ensures Mret(h).Returned?
    ensures var r := Arrived(Mret(h).h);
      && r.mode == (if Bit(h.csrs[MSTATUS], 11) then Supervisor else User) && r.pc == h.csrs[MEPC]
      && r.csrs == h.csrs[MSTATUS := MretMstatus(h.csrs[MSTATUS])]
  {
    MretAbortsExactly(h);
    MppField(h.csrs[MSTATUS]);
    MinusPlus(h.csrs[MEPC]);
  }

  /** MRET is the prescribed return exactly in machine mode, with MPP naming another mode and MPRV clear: it
      never tests the mode, never clears MPRV, and aborts for machine mode. */
  lemma MretFollowsIsaExactly(h: Hart)
    requires h.Valid()
    ensures Mret(h).Returned? && LeavesMachine(h, Arrived(Mret(h).h)) <==>
      h.mode == Machine && !Bit(h.csrs[MSTATUS], 12) && !Bit(h.csrs[MSTATUS], 17)
  {
    var s := h.csrs[MSTATUS];
    MretAbortsExactly(h);
    if !Bit(s, 12) {
      MretFields(h);
      MretMstatusBits(s);
      MstatusReturnExactly(s, MretMstatus(s));
    }
  }

  lemma SretFields(h: Hart)
    requires h.Valid()
    ensures var r := Arrived(Sret(h));
      && r.mode == (if Bit(h.csrs[SSTATUS], 8) then Supervisor else User) && r.pc == h.csrs[SEPC]
      && r.csrs == h.csrs[SSTATUS := SretSstatus(h.csrs[SSTATUS])]
  {
    TestBit(h.csrs[SSTATUS], 8);
    MinusPlus(h.csrs[SEPC]);
  }

  /** SRET is the prescribed return exactly where it is legal and MSTATUS, which it leaves alone, already has
      SIE and SPIE set and SPP and MPRV clear. */
  lemma SretFollowsIsaExactly(h: Hart)
    requires h.Valid()
    ensures LeavesSupervisor(h, Arrived(Sret(h))) <==>
      && MaySret(h)
      && Bit(h.csrs[MSTATUS], 1) && Bit(h.csrs[MSTATUS], 5) && !Bit(h.csrs[MSTATUS], 8) && !Bit(h.csrs[MSTATUS], 17)
  {
    SretFields(h);
    SretSstatusBits(h.csrs[SSTATUS]);
    KeptOnReturn(h.csrs[MSTATUS]);
  }

  /** MRET in user mode returns, though it should raise an exception. */
  lemma MretInUserMode()
    ensures exists h: Hart :: h.Valid() && h.mode == User && Mret(h).Returned? && !LeavesMachine(h, Arrived(Mret(h).h))
  {
    var h := SomeHart(User, 0, 0, 0, 0);
    ZeroBit(12);
    MretAbortsExactly(h);
    MretFollowsIsaExactly(h);
  }

  /** SRET in user mode enters supervisor mode. */
  lemma SretInUserMode()
    ensures exists h: Hart :: h.Valid() && h.mode == User && Sret(h).mode == Supervisor && !MaySret(h)
  {
    var h := SomeHart(User, 0, 0, Pow2(8), 0);
    Pow2Bit(8, 8);
    SretFields(h);
    assert h.Valid() && !MaySret(h);
  }

  // ----- CSR writes -----

  /** What a write of `v` to SIE should leave in MIE: the delegated digits of `v`, the other digits kept. */
  function MaskedWrite(mie: U64, mideleg: U64, v: U64): nat { Or(And(mie, Not64(mideleg)), And(v, mideleg)) }

  lemma AndAll(x: U64)
    ensures And(x, 0xFFFF_FFFF_FFFF_FFFF) == x && And(x, 0) == 0
  {
    Pow2Values();
    AndLow(x, 64);
    LowSmall(x, 64);
  }

  lemma AndSmall(x: U64)
    ensures And(x, 1) == x <==> x <= 1
  {
    AndOne(x);
  }

  lemma OrZero(x: nat)
    ensures Or(0, x) == x && Or(x, 0) == x
  {
  }

  /** A write to SIE is the masked write exactly when the logical negation does no harm: MIDELEG is zero and MIE
      at most one, or MIDELEG is nonzero and covers MIE. */
  lemma SieWriteExactly(c: seq<U64>, v: U64)
    requires |c| == 4096
    ensures StoreCsr(c, SIE, v)[MIE] == MaskedWrite(c[MIE], c[MIDELEG], v) <==>
      if c[MIDELEG] == 0 then c[MIE] <= 1 else And(c[MIE], Not64(c[MIDELEG])) == 0
  {
    var mie, d := c[MIE], c[MIDELEG];
    AndAll(mie); AndAll(v);
    if d == 0 {
      AndSmall(mie);
      OrZero(mie); OrZero(And(mie, 1));
    } else {
      OrZero(And(v, d));
      OrDisjointZero(And(mie, Not64(d)), v, d, mie);
    }
  }

  lemma OrDisjointZero(k: nat, v: U64, d: U64, mie: U64)
    requires k == And(mie, Not64(d))
    ensures Or(k, And(v, d)) == And(v, d) <==> k == 0
  {
    if Or(k, And(v, d)) == And(v, d) {
      forall j: nat ensures Bit(k, j) <==> Bit(0, j) {
        OrBit(k, And(v, d), j); AndBit(v, d, j); AndBit(mie, Not64(d), j); ZeroBit(j);
        NotBit(d, j);
      }
      SameBits(k, 0);
    } else {
      OrZero(And(v, d));
    }
  }

  lemma NotBit(d: U64, j: nat)
    ensures Bit(Not64(d), j) <==> j < 64 && !Bit(d, j)
  {
    Pow2Values();
    ComplementBit(d, 64, j);
  }

  /** A write to SIE that loses an undelegated enable. */
  lemma SieWriteLosesEnables()
    ensures exists c: seq<U64>, v: U64 ::
      |c| == 4096 && StoreCsr(c, SIE, v)[MIE] != MaskedWrite(c[MIE], c[MIDELEG], v)
  {
    var c: seq<U64> := seq(4096, a => if a == MIE then 2 else 0);
    SieWriteExactly(c, 0);
  }

  /** The logical negation of CSRRC and CSRRCI clears the digits of `y` exactly when y is zero and x at most
      one, or y covers x. */
  lemma LogicalClearExactly(x: U64, y: U64)
    ensures LogicalClear(x, y) == And(x, Not64(y)) <==> if y == 0 then x <= 1 else And(x, Not64(y)) == 0
  {
    AndAll(x);
    if y == 0 { AndSmall(x); }
  }

  /** Clearing digit 0 of 2 gives 0 where it should give 2. */
  lemma LogicalClearFails()
    ensures exists x: U64, y: U64 :: LogicalClear(x, y) != And(x, Not64(y))
  {
    AndAll(2);
    LogicalClearExactly(2, 0);
  }
}
