/** Privilege modes, traps and returns from traps, on the state they touch. */
module Privileged {
  import opened Bits
  import opened Words
  import opened Alu

  datatype Mode = User | Supervisor | Machine

  const FFLAGS: int := 0x001
  const SSTATUS: int := 0x100
  const SIE: int := 0x104
  const STVEC: int := 0x105
  const SEPC: int := 0x141
  const SCAUSE: int := 0x142
  const STVAL: int := 0x143
  const MSTATUS: int := 0x300
  const MISA: int := 0x301
  const MEDELEG: int := 0x302
  const MIDELEG: int := 0x303
  const MIE: int := 0x304
  const MTVEC: int := 0x305
  const MEPC: int := 0x341
  const MCAUSE: int := 0x342
  const MTVAL: int := 0x343
  const MIP: int := 0x344

  /** The part of the emulator that traps and returns read and write. */
  datatype Hart = Hart(mode: Mode, pc: U64, csrs: seq<U64>) {
    predicate Valid() { |csrs| == 4096 }
  }

  // ----- masks -----

  function SetBit(x: U64, k: nat): U64
    requires k < 64
  {
    SetFits(x, k);
    Or(x, Pow2(k))
  }

  /** `x & ~(1U << k)`: the 32-bit complement clears the upper half too. */
  function Clear32(x: U64, k: nat): U64
    requires k < 32
  {
    And(x, Complement32(Pow2(k)))
  }

  /** `x & ~(1 << k)`: the complement of a signed constant has all upper digits set. */
  function Clear64(x: U64, k: nat): U64
    requires k < 32
  {
    And(x, Complement64(Pow2(k)))
  }

  function Complement32(y: nat): nat { if y <= 0xFFFF_FFFF then 0xFFFF_FFFF - y else 0 }

  function Complement64(y: nat): nat { if y <= 0xFFFF_FFFF_FFFF_FFFF then 0xFFFF_FFFF_FFFF_FFFF - y else 0 }

  /** `x & ~1U` */
  function EvenLow(x: U64): U64 { And(x, Complement32(1)) }

  /** The `pc -= 4` that the run loop's `pc += 4` undoes. */
  function Minus4(x: int): U64 { U64Of(x - 4) }

  /** Both digits of MPP. */
  function MppMask(): nat { Pow2(11) + Pow2(12) }

  lemma SetFits(x: U64, k: nat)
    requires k < 64
    ensures Or(x, Pow2(k)) < 0x1_0000_0000_0000_0000
  {
    Pow2Values();
    Pow2Below(k, 64);
    BitwiseBound(x, Pow2(k), 64);
  }

  // ----- what the masks do, digit by digit -----

  lemma SetBits(x: U64, k: nat)
    requires k < 64
    ensures forall j: nat :: Bit(SetBit(x, k), j) <==> j == k || Bit(x, j)
  {
    forall j: nat ensures Bit(SetBit(x, k), j) <==> j == k || Bit(x, j) {
      OrBit(x, Pow2(k), j);
      Pow2Bit(k, j);
    }
  }

  lemma Clear32Bits(x: U64, k: nat)
    requires k < 32
    ensures forall j: nat :: Bit(Clear32(x, k), j) <==> j < 32 && j != k && Bit(x, j)
  {
    forall j: nat ensures Bit(Clear32(x, k), j) <==> j < 32 && j != k && Bit(x, j) {
      AndBit(x, Complement32(Pow2(k)), j);
      Complement32Bit(Pow2(k), k, j);
      Pow2Bit(k, j);
    }
  }

  lemma Clear64Bits(x: U64, k: nat)
    requires k < 32
    ensures forall j: nat :: Bit(Clear64(x, k), j) <==> j < 64 && j != k && Bit(x, j)
  {
    forall j: nat ensures Bit(Clear64(x, k), j) <==> j < 64 && j != k && Bit(x, j) {
      AndBit(x, Complement64(Pow2(k)), j);
      Complement64Bit(Pow2(k), k, j);
      Pow2Bit(k, j);
    }
  }

  lemma Complement32Bit(y: nat, k: nat, j: nat)
    requires k < 32 && y < 2 * Pow2(k)
    ensures Bit(Complement32(y), j) <==> j < 32 && !Bit(y, j)
  {
    Pow2Values();
    Pow2Below(k, 32);
    ComplementBit(y, 32, j);
  }

  lemma Complement64Bit(y: nat, k: nat, j: nat)
    requires k < 64 && y < 2 * Pow2(k)
    ensures Bit(Complement64(y), j) <==> j < 64 && !Bit(y, j)
  {
    Pow2Values();
    Pow2Below(k, 64);
    ComplementBit(y, 64, j);
  }

  lemma {:induction false} TwoBits(k: nat, j: nat)
    ensures Bit(Pow2(k) + Pow2(k + 1), j) <==> j == k || j == k + 1
    decreases k
  {
    if k == 0 {
      Three(j);
    } else {
      var h := Pow2(k - 1) + Pow2(k);
      assert Pow2(k) + Pow2(k + 1) == 2 * h;
      DoubleBit(h, j);
      if j != 0 { TwoBits(k - 1, j - 1); }
    }
  }

  lemma DoubleBit(h: nat, j: nat)
    ensures Bit(2 * h, j) <==> j > 0 && Bit(h, j - 1)
  {
    Halve(h);
  }

  lemma Three(j: nat)
    ensures Bit(3, j) <==> j <= 1
  {
    if j > 1 { ZeroBit(j - 2); assert Bit(3, j) <==> Bit(1, j - 1); }
  }

  lemma MppBit(j: nat)
    ensures Bit(MppMask(), j) <==> j == 11 || j == 12
    ensures MppMask() < 2 * Pow2(12)
  {
    TwoBits(11, j);
  }

  lemma ClearMpp32Bits(x: U64)
    ensures forall j: nat :: Bit(And(x, Complement32(MppMask())), j) <==> j < 32 && j != 11 && j != 12 && Bit(x, j)
  {
    forall j: nat
      ensures Bit(And(x, Complement32(MppMask())), j) <==> j < 32 && j != 11 && j != 12 && Bit(x, j)
    {
      AndBit(x, Complement32(MppMask()), j);
      MppBit(j);
      Complement32Bit(MppMask(), 12, j);
    }
  }

  lemma ClearMpp64Bits(x: U64)
    ensures forall j: nat :: Bit(And(x, Complement64(MppMask())), j) <==> j < 64 && j != 11 && j != 12 && Bit(x, j)
  {
    forall j: nat
      ensures Bit(And(x, Complement64(MppMask())), j) <==> j < 64 && j != 11 && j != 12 && Bit(x, j)
    {
      AndBit(x, Complement64(MppMask()), j);
      MppBit(j);
      Complement64Bit(MppMask(), 12, j);
    }
  }

  /** `x & ~1U` keeps the lower half, made even. */
  lemma EvenLow32(x: U64)
    ensures EvenLow(x) == U32Of(x) - x % 2
  {
    Pow2Values();
    assert Complement32(1) == Pow2(32) - Pow2(1);
    AndHigh(x, 1, 32);
    LowIsMod(x, 1);
    LowIsMod(x, 32);
  }

  // ----- CSR access -----

  /** Reading SIE reads the delegated part of MIE. */
  function LoadCsr(c: seq<U64>, a: int): U64
    requires |c| == 4096 && 0 <= a < 4096
  {
    if a == SIE then And(c[MIE], c[MIDELEG]) else c[a]
  }

  /** Writing SIE goes through MIE and MIDELEG; the source negates MIDELEG logically. */
  function StoreCsr(c: seq<U64>, a: int, v: U64): (r: seq<U64>)
    requires |c| == 4096 && 0 <= a < 4096
    ensures |r| == 4096
  {
    if a == SIE then
      var kept := And(c[MIE], if c[MIDELEG] == 0 then 1 else 0);
      BitwiseBound64(kept, And(v, c[MIDELEG]));
      c[MIE := Or(kept, And(v, c[MIDELEG]))]
    else c[a := v]
  }

  /** `x & !y` with a logical negation, as CSRRC and CSRRCI compute it. */
  function LogicalClear(x: U64, y: U64): U64 { And(x, if y == 0 then 1 else 0) }

  // ----- taking a trap -----

  predicate Delegated(h: Hart, cause: nat)
    requires h.Valid()
  {
    h.mode != Machine && Bit(h.csrs[MEDELEG], cause)
  }

  /** SSTATUS after a trap into supervisor mode, in the order the source updates it. */
  function TrapSstatus(s: U64, from: Mode): U64 {
    WithSpp(WithSpie(s), from)
  }

  function WithSpie(s: U64): U64 {
    Clear32(if And(Shr(s, 1), 1) != 0 then SetBit(s, 5) else Clear32(s, 5), 1)
  }

  function WithSpp(s: U64, from: Mode): U64 { if from == User then Clear32(s, 8) else SetBit(s, 8) }

  /** MSTATUS after a trap into machine mode. */
  function TrapMstatus(s: U64, from: Mode): U64 {
    WithMpp(WithMpie(s), from)
  }

  function WithMpie(s: U64): U64 {
    Clear32(if And(Shr(s, 3), 1) == 1 then SetBit(s, 7) else Clear32(s, 7), 3)
  }

  /** MPP records the mode: 0, 1 or 3. */
  function WithMpp(s: U64, from: Mode): U64 {
    match from
    case User => And(s, Complement32(MppMask()))
    case Supervisor => SetBit(Clear32(s, 12), 11)
    case Machine => SetBit(SetBit(s, 11), 12)
  }

  /** A trap into supervisor mode; pc is left four below the handler, because the run loop adds four. */
  function TrapToSupervisor(h: Hart, cause: nat): (r: Hart)
    requires h.Valid() && cause < 256
    ensures r.Valid()
  {
    Hart(Supervisor, Minus4(EvenLow(h.csrs[STVEC])),
         h.csrs[SEPC := EvenLow(h.pc)][SCAUSE := cause][STVAL := 0][SSTATUS := TrapSstatus(h.csrs[SSTATUS], h.mode)])
  }

  function TrapToMachine(h: Hart, cause: nat): (r: Hart)
    requires h.Valid() && cause < 256
    ensures r.Valid()
  {
    Hart(Machine, Minus4(EvenLow(h.csrs[MTVEC])),
         h.csrs[MEPC := EvenLow(h.pc)][MCAUSE := cause][MTVAL := 0][MSTATUS := TrapMstatus(h.csrs[MSTATUS], h.mode)])
  }

  function Trap(h: Hart, cause: nat): (r: Hart)
    requires h.Valid() && cause < 256
    ensures r.Valid()
  {
    if Delegated(h, cause) then TrapToSupervisor(h, cause) else TrapToMachine(h, cause)
  }

  /** Section 3.1.6.1 of the Privileged ISA on SSTATUS: SPIE takes SIE, SIE is cleared, SPP records the mode; the
      other lower digits stay and the upper half is lost to the 32-bit masks. */
  lemma TrapSstatusBits(s: U64, from: Mode)
    requires from != Machine
    ensures forall j: nat :: Bit(TrapSstatus(s, from), j) <==>
      if j == 5 then Bit(s, 1) else if j == 1 then false else if j == 8 then from == Supervisor else j < 32 && Bit(s, j)
  {
    TestBit(s, 1);
    SetBits(s, 5); Clear32Bits(s, 5);
    var s1 := if Bit(s, 1) then SetBit(s, 5) else Clear32(s, 5);
    Clear32Bits(s1, 1);
    SetBits(Clear32(s1, 1), 8);
    Clear32Bits(Clear32(s1, 1), 8);
  }

  /** The same on MSTATUS: MPIE takes MIE, MIE is cleared, MPP records the mode. */
  lemma TrapMstatusBits(s: U64, from: Mode)
    ensures forall j: nat :: Bit(TrapMstatus(s, from), j) <==>
      if j == 7 then Bit(s, 3) else if j == 3 then false
      else if j == 11 then from != User else if j == 12 then from == Machine else j < 32 && Bit(s, j)
  {
    TestBit(s, 3);
    SetBits(s, 7); Clear32Bits(s, 7);
    var s1 := if Bit(s, 3) then SetBit(s, 7) else Clear32(s, 7);
    Clear32Bits(s1, 3);
    var s2 := Clear32(s1, 3);
    ClearMpp32Bits(s2);
    Clear32Bits(s2, 12); SetBits(Clear32(s2, 12), 11);
    SetBits(s2, 11); SetBits(SetBit(s2, 11), 12);
  }

  // ----- returning -----

  function SretSstatus(s: U64): U64 {
    var s1 := if And(Shr(s, 5), 1) != 0 then SetBit(s, 1) else Clear64(s, 1);
    Clear64(SetBit(s1, 5), 8)
  }

  function MretMstatus(s: U64): U64 {
    var s1 := if And(Shr(s, 7), 1) != 0 then SetBit(s, 3) else Clear64(s, 3);
    And(SetBit(s1, 7), Complement64(MppMask()))
  }

  function Sret(h: Hart): (r: Hart)
    requires h.Valid()
    ensures r.Valid()
  {
    Hart(if And(Shr(h.csrs[SSTATUS], 8), 1) == 0 then User else Supervisor,
         Minus4(h.csrs[SEPC]),
         h.csrs[SSTATUS := SretSstatus(h.csrs[SSTATUS])])
  }

  datatype Return = Returned(h: Hart) | Aborted

  /** `MRET`: the test for machine mode compares a two-digit field with 0x11, so MPP 2 and 3 hit the assertion. */
  function Mret(h: Hart): Return
    requires h.Valid()
  {
    var mb := And(Shr(h.csrs[MSTATUS], 11), 3);
    if mb == 0x00 || mb == 0x01 || mb == 0x11 then
      Returned(Hart(if mb == 0x00 then User else if mb == 0x01 then Supervisor else Machine,
                    Minus4(h.csrs[MEPC]),
                    h.csrs[MSTATUS := MretMstatus(h.csrs[MSTATUS])]))
    else Aborted
  }

  lemma MretIs(h: Hart)
    requires h.Valid() && Mret(h).Returned?
    ensures var mb := And(Shr(h.csrs[MSTATUS], 11), 3);
      Mret(h).h == Hart(if mb == 0x00 then User else if mb == 0x01 then Supervisor else Machine,
                        Minus4(h.csrs[MEPC]), h.csrs[MSTATUS := MretMstatus(h.csrs[MSTATUS])])
  {
  }

  lemma SretSstatusBits(s: U64)
    ensures forall j: nat :: Bit(SretSstatus(s), j) <==>
      if j == 1 then Bit(s, 5) else if j == 5 then true else if j == 8 then false else Bit(s, j)
  {
    TestBit(s, 5);
    SetBits(s, 1); Clear64Bits(s, 1);
    var s1 := if Bit(s, 5) then SetBit(s, 1) else Clear64(s, 1);
    SetBits(s1, 5);
    Clear64Bits(SetBit(s1, 5), 8);
    NoHighBits(s);
  }

  lemma MretMstatusBits(s: U64)
    ensures forall j: nat :: Bit(MretMstatus(s), j) <==>
      if j == 3 then Bit(s, 7) else if j == 7 then true else if j == 11 || j == 12 then false else Bit(s, j)
  {
    TestBit(s, 7);
    SetBits(s, 3); Clear64Bits(s, 3);
    var s1 := if Bit(s, 7) then SetBit(s, 3) else Clear64(s, 3);
    SetBits(s1, 7);
    ClearMpp64Bits(SetBit(s1, 7));
    NoHighBits(s);
  }

  /** The two digits of MPP as a number. */
  lemma MppField(s: U64)
    ensures And(Shr(s, 11), 3) == (if Bit(s, 11) then 1 else 0) + (if Bit(s, 12) then 2 else 0)
  {
    ShrBit(s, 11, 0);
    ShrBit(s, 11, 1);
    AndThree(Shr(s, 11));
  }

  lemma AndThree(y: nat)
    ensures And(y, 3) == (if Bit(y, 0) then 1 else 0) + (if Bit(y, 1) then 2 else 0)
  {
    assert And(y / 2, 1) == y / 2 % 2;
  }

  // ----- a trap and its return -----

  /** The saved pc comes back exactly when it was even and below 2^32. */
  predicate SavablePc(pc: U64) { pc % 2 == 0 && pc < 0x1_0000_0000 }

  lemma SavedPc(pc: U64)
    ensures U64Of(Minus4(EvenLow(pc)) + 4) == pc <==> SavablePc(pc)
  {
    EvenLow32(pc);
    MinusPlus(EvenLow(pc));
    EvenLowIsSame(pc, EvenLow(pc));
  }

  lemma MinusPlus(x: U64)
    ensures U64Of(Minus4(x) + 4) == x
  {
  }

  lemma EvenLowIsSame(pc: U64, e: int)
    requires e == U32Of(pc) - pc % 2
    ensures e == pc <==> SavablePc(pc)
  {
  }

  /** `q` is any state the handler may have reached without touching the saved context. */
  predicate HandlerOf(q: Hart, t: Hart, epc: int, status: int)
    requires q.Valid() && t.Valid() && 0 <= epc < 4096 && 0 <= status < 4096
  {
    q.csrs[epc] == t.csrs[epc] && q.csrs[status] == t.csrs[status]
  }

  lemma SretUndoesStatus(s: U64, from: Mode)
    requires from != Machine
    ensures And(Shr(TrapSstatus(s, from), 8), 1) == 0 <==> from == User
    ensures Bit(SretSstatus(TrapSstatus(s, from)), 1) <==> Bit(s, 1)
  {
    var t := TrapSstatus(s, from);
    TrapSstatusBits(s, from);
    TestBit(t, 8);
    SretSstatusBits(t);
  }

  lemma MretUndoesStatus(s: U64, from: Mode)
    requires from != Machine
    ensures And(Shr(TrapMstatus(s, from), 11), 3) == if from == User then 0 else 1
    ensures Bit(MretMstatus(TrapMstatus(s, from)), 3) <==> Bit(s, 3)
  {
    var t := TrapMstatus(s, from);
    TrapMstatusBits(s, from);
    MppField(t);
    MretMstatusBits(t);
  }

  /** What a return restores from a context saved in mode `from` at `pc`, with status `s`. */
  predicate Resumes(r: Hart, from: Mode, pc: U64) {
    r.mode == from && (U64Of(r.pc + 4) == pc <==> SavablePc(pc))
  }

  lemma ResumeAt(r: Hart, from: Mode, pc: U64)
    requires r.mode == from && r.pc == Minus4(EvenLow(pc))
    ensures Resumes(r, from, pc)
  {
    SavedPc(pc);
  }

  lemma SretResumes(q: Hart, s: U64, from: Mode, pc: U64)
    requires q.Valid() && from != Machine
    requires q.csrs[SSTATUS] == TrapSstatus(s, from) && q.csrs[SEPC] == EvenLow(pc)
    ensures Resumes(Sret(q), from, pc) && (Bit(Sret(q).csrs[SSTATUS], 1) <==> Bit(s, 1))
  {
    SretUndoesStatus(s, from);
    ResumeAt(Sret(q), from, pc);
  }

  /** A delegated trap, any handler, then SRET: mode and interrupt enable come back, and the pc exactly when it
      could be saved. */
  lemma TrapThenSret(h: Hart, cause: nat, q: Hart)
    requires h.Valid() && q.Valid() && cause < 256 && Delegated(h, cause)
    requires HandlerOf(q, Trap(h, cause), SEPC, SSTATUS)
    ensures Resumes(Sret(q), h.mode, h.pc)
    ensures Bit(Sret(q).csrs[SSTATUS], 1) <==> Bit(h.csrs[SSTATUS], 1)
  {
    SretResumes(q, h.csrs[SSTATUS], h.mode, h.pc);
  }

  /** MRET of a state whose MPP field reads 0 or 1. */
  lemma MretOf(q: Hart, mb: nat)
    requires q.Valid() && mb <= 1 && And(Shr(q.csrs[MSTATUS], 11), 3) == mb
    ensures Mret(q) == Returned(Hart(if mb == 0 then User else Supervisor, Minus4(q.csrs[MEPC]),
                                     q.csrs[MSTATUS := MretMstatus(q.csrs[MSTATUS])]))
  {
  }

  lemma MretResumes(q: Hart, s: U64, from: Mode, pc: U64)
    requires q.Valid() && from != Machine
    requires q.csrs[MSTATUS] == TrapMstatus(s, from) && q.csrs[MEPC] == EvenLow(pc)
    ensures Mret(q).Returned? && Resumes(Mret(q).h, from, pc)
    ensures Bit(Mret(q).h.csrs[MSTATUS], 3) <==> Bit(s, 3)
  {
    MretUndoesStatus(s, from);
    MretOf(q, if from == User then 0 else 1);
    ResumeAt(Mret(q).h, from, pc);
  }

  /** An undelegated trap from user or supervisor mode, any handler, then MRET. */
  lemma TrapThenMret(h: Hart, cause: nat, q: Hart)
    requires h.Valid() && q.Valid() && cause < 256 && !Delegated(h, cause) && h.mode != Machine
    requires HandlerOf(q, Trap(h, cause), MEPC, MSTATUS)
    ensures Mret(q).Returned? && Resumes(Mret(q).h, h.mode, h.pc)
    ensures Bit(Mret(q).h.csrs[MSTATUS], 3) <==> Bit(h.csrs[MSTATUS], 3)
  {
    MretResumes(q, h.csrs[MSTATUS], h.mode, h.pc);
  }

  /** MRET aborts exactly when the upper digit of MPP is set; so a trap taken in machine mode never returns. */
  lemma MretAbortsExactly(h: Hart)
    requires h.Valid()
    ensures Mret(h).Aborted? <==> Bit(h.csrs[MSTATUS], 12)
  {
    MppField(h.csrs[MSTATUS]);
  }

  lemma TrapInMachineModeNeverReturns(h: Hart, cause: nat, q: Hart)
    requires h.Valid() && q.Valid() && cause < 256 && h.mode == Machine
    requires HandlerOf(q, Trap(h, cause), MEPC, MSTATUS)
    ensures Mret(q).Aborted?
  {
    TrapMstatusBits(h.csrs[MSTATUS], Machine);
    MretAbortsExactly(q);
  }

  /** A trap to machine mode and its return leave the supervisor's saved context alone. */
  lemma InnerTrapKeepsContext(q1: Hart, c2: nat, q2: Hart)
    requires q1.Valid() && q2.Valid() && c2 < 256 && !Delegated(q1, c2) && Mret(q2).Returned?
    requires HandlerOf(q2, Trap(q1, c2), SEPC, SSTATUS)
    ensures HandlerOf(Mret(q2).h, q1, SEPC, SSTATUS)
  {
  }

  /** An undelegated trap inside the handler of a delegated one, both returning in order: the inner return
      resumes the outer handler, and the outer return resumes the program. `q1`, `q2` and `q3` are the handlers'
      states just before the inner trap, before MRET and before SRET. */
  lemma NestedTrapsReturn(h: Hart, c1: nat, q1: Hart, c2: nat, q2: Hart, q3: Hart)
    requires h.Valid() && q1.Valid() && q2.Valid() && q3.Valid() && c1 < 256 && c2 < 256
    requires Delegated(h, c1) && HandlerOf(q1, Trap(h, c1), SEPC, SSTATUS) && q1.mode == Supervisor
    requires !Delegated(q1, c2)
    requires HandlerOf(q2, Trap(q1, c2), MEPC, MSTATUS) && HandlerOf(q2, Trap(q1, c2), SEPC, SSTATUS)
    requires Mret(q2).Returned? ==> HandlerOf(q3, Mret(q2).h, SEPC, SSTATUS)
    ensures Mret(q2).Returned? && Resumes(Mret(q2).h, Supervisor, q1.pc)
    ensures Resumes(Sret(q3), h.mode, h.pc)
    ensures Bit(Sret(q3).csrs[SSTATUS], 1) <==> Bit(h.csrs[SSTATUS], 1)
  {
    TrapThenMret(q1, c2, q2);
    InnerTrapKeepsContext(q1, c2, q2);
    TrapThenSret(h, c1, q3);
  }
}
