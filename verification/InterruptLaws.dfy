/** What the head of an iteration does about interrupts, in plain numbers: CSR addresses, digits and causes are
    spelled out here and not taken from the model. */
module InterruptLaws {
  import opened Bits
  import opened Words
  import opened Memory
  import opened Privileged
  import opened Interrupts
  import opened Isa
  import opened Runs
  import opened SystemLaws

  /** User mode is always interruptible, supervisor mode by digit 1 of SSTATUS, machine mode by digit 3 of
      MSTATUS. */
  predicate Enabled(h: Hart)
    requires h.Valid()
  {
    h.mode == User || (h.mode == Supervisor && Bit(h.csrs[0x100], 1)) || (h.mode == Machine && Bit(h.csrs[0x300], 3))
  }

  /** Digit `d` is set in MIE and in MIP; a UART event sets digit 9 of MIP. */
  predicate Waiting(h: Hart, uart: bool, d: nat)
    requires h.Valid()
  {
    Bit(h.csrs[0x304], d) && (Bit(h.csrs[0x344], d) || (d == 9 && uart))
  }

  /** `d` is the first of 11, 3, 7, 9, 1 and 5 that waits. */
  predicate First(h: Hart, uart: bool, d: nat)
    requires h.Valid()
  {
    Waiting(h, uart, d) &&
    (d == 11
     || (!Waiting(h, uart, 11) && (d == 3
     || (!Waiting(h, uart, 3) && (d == 7
     || (!Waiting(h, uart, 7) && (d == 9
     || (!Waiting(h, uart, 9) && (d == 1
     || (!Waiting(h, uart, 1) && d == 5))))))))))
  }

  predicate NoneWaits(h: Hart, uart: bool)
    requires h.Valid()
  {
    && !Waiting(h, uart, 11) && !Waiting(h, uart, 3) && !Waiting(h, uart, 7)
    && !Waiting(h, uart, 9) && !Waiting(h, uart, 1) && !Waiting(h, uart, 5)
  }

  /** The fetch address after an interrupt: four below the base, or below the vector, of the handler. */
  function BelowHandler(tvec: int, d: nat): int {
    (EvenHalf(tvec) + (if tvec % 2 == 1 then 4 * d else 0) - 4) % 0x1_0000_0000_0000_0000
  }

  /** MIP, 0x344, lost digit `d`, its upper half, and gained digit 9 on a UART event. */
  ghost predicate Cleared(was: nat, mip: int, uart: bool, d: nat) {
    mip >= 0 && forall j: nat :: Bit(mip, j) <==> j != d && j < 32 && (Bit(was, j) || (j == 9 && uart))
  }

  // ----- the selection -----

  lemma EnabledIsInterruptible(h: Hart)
    requires h.Valid()
    ensures Enabled(h) <==> Interruptible(h)
  {
    TestBit(h.csrs[0x300], 3);
    TestBit(h.csrs[0x100], 1);
  }

  lemma WaitingIsPending(h: Hart, uart: bool, i: Interrupt, d: nat)
    requires h.Valid() && Enabled(h) && d == Digit(i)
    ensures i in PendingSet(Claim(h, uart)) <==> Waiting(h, uart, d)
  {
    EnabledIsInterruptible(h);
    PendingBits(Claim(h, uart), i);
    SetBits(h.csrs[0x344], 9);
  }

  /** The interrupt numbers of the manual. */
  function Digit(i: Interrupt): nat {
    match i
    case MachineExternal => 11
    case MachineSoftware => 3
    case MachineTimer => 7
    case SupervisorExternal => 9
    case SupervisorSoftware => 1
    case SupervisorTimer => 5
  }

  lemma ChainOf(s: set<Interrupt>)
    ensures FirstOf(s, 0) ==
      if MachineExternal in s then Take(MachineExternal)
      else if MachineSoftware in s then Take(MachineSoftware)
      else if MachineTimer in s then Take(MachineTimer)
      else if SupervisorExternal in s then Take(SupervisorExternal)
      else if SupervisorSoftware in s then Take(SupervisorSoftware)
      else if SupervisorTimer in s then Take(SupervisorTimer)
      else NoInterrupt
  {
    assert FirstOf(s, 6) == NoInterrupt;
    assert FirstOf(s, 5) == if SupervisorTimer in s then Take(SupervisorTimer) else FirstOf(s, 6);
    assert FirstOf(s, 4) == if SupervisorSoftware in s then Take(SupervisorSoftware) else FirstOf(s, 5);
    assert FirstOf(s, 3) == if SupervisorExternal in s then Take(SupervisorExternal) else FirstOf(s, 4);
    assert FirstOf(s, 2) == if MachineTimer in s then Take(MachineTimer) else FirstOf(s, 3);
    assert FirstOf(s, 1) == if MachineSoftware in s then Take(MachineSoftware) else FirstOf(s, 2);
  }

  lemma AllPending(h: Hart, uart: bool)
    requires h.Valid() && Enabled(h)
    ensures forall i: Interrupt :: i in PendingSet(Claim(h, uart)) <==> Waiting(h, uart, Digit(i))
  {
    forall i: Interrupt ensures i in PendingSet(Claim(h, uart)) <==> Waiting(h, uart, Digit(i)) {
      WaitingIsPending(h, uart, i, Digit(i));
    }
  }

  lemma Selects(h: Hart, uart: bool, d: nat)
    requires h.Valid() && Enabled(h) && First(h, uart, d)
    ensures var c := Check(Claim(h, uart));
      && c.0.Take? && Digit(c.0.i) == d
      && c.1 == Claim(h, uart).(csrs := Claim(h, uart).csrs[0x344 := Clear32(Claim(h, uart).csrs[0x344], d)])
  {
    EnabledIsInterruptible(h);
    AllPending(h, uart);
    ChainOf(PendingSet(Claim(h, uart)));
    assert Interruptible(Claim(h, uart));
  }

  lemma SelectsNone(h: Hart, uart: bool)
    requires h.Valid() && Enabled(h) && NoneWaits(h, uart)
    ensures Check(Claim(h, uart)) == (NoInterrupt, Claim(h, uart))
  {
    EnabledIsInterruptible(h);
    AllPending(h, uart);
    ChainOf(PendingSet(Claim(h, uart)));
  }

  lemma ClearedMip(h: Hart, uart: bool, d: nat)
    requires h.Valid() && Enabled(h) && d < 32
    ensures Cleared(h.csrs[0x344], Clear32(Claim(h, uart).csrs[0x344], d), uart, d)
  {
    EnabledIsInterruptible(h);
    SetBits(h.csrs[0x344], 9);
    Clear32Bits(Claim(h, uart).csrs[0x344], d);
  }

  // ----- the laws -----

  /** The state after an interrupt with digit `d` of which `g` is the state with MIP updated. */
  predicate ToSupervisor(g: Hart, r: Hart, d: nat)
    requires g.Valid() && r.Valid()
  {
    && r.mode == Supervisor && r.csrs[0x142] == 0x8000_0000_0000_0000 + d && r.csrs[0x143] == 0
    && r.csrs[0x141] == EvenHalf(g.pc) && r.pc == BelowHandler(g.csrs[0x105], d)
    && forall a :: 0 <= a < 4096 && a !in {0x100, 0x141, 0x142, 0x143, 0x344} ==> r.csrs[a] == g.csrs[a]
  }

  predicate ToMachine(g: Hart, r: Hart, d: nat)
    requires g.Valid() && r.Valid()
  {
    && r.mode == Machine && r.csrs[0x342] == 0x8000_0000_0000_0000 + d && r.csrs[0x343] == 0
    && r.csrs[0x341] == EvenHalf(g.pc) && r.pc == BelowHandler(g.csrs[0x305], d)
    && forall a :: 0 <= a < 4096 && a !in {0x300, 0x341, 0x342, 0x343, 0x344} ==> r.csrs[a] == g.csrs[a]
  }

  /** With interrupts enabled, the first waiting one is taken: its digit of MIP is cleared, 2^63 plus the digit is the
      cause, and pc is saved. It goes to supervisor mode exactly if the mode was not machine and the undefined shift
      comes out set. */
  lemma InterruptTakenLaw(s: State, turn: Turn, d: nat)
    requires s.Valid() && Enabled(s.hart) && First(s.hart, turn.uart, d)
    ensures var h, r := s.hart, Started(s, turn).hart;
      && Cleared(h.csrs[0x344], r.csrs[0x344], turn.uart, d)
      && if h.mode != Machine && turn.shifted then ToSupervisor(h, r, d) else ToMachine(h, r, d)
  {
    Selects(s.hart, turn.uart, d);
    ClearedMip(s.hart, turn.uart, d);
    var c := Check(Claim(s.hart, turn.uart));
    assert Started(s, turn).hart == TakeInterrupt(c.1, c.0.i, turn.shifted);
    if s.hart.mode != Machine && turn.shifted { SupervisorInterrupt(c.1, c.0.i, d); }
    else { MachineInterrupt(c.1, c.0.i, d, turn.shifted); }
  }

  lemma SupervisorInterrupt(g: Hart, i: Interrupt, d: nat)
    requires g.Valid() && g.mode != Machine && d == Digit(i)
    ensures var r := TakeInterrupt(g, i, true); ToSupervisor(g, r, d) && r.csrs[0x344] == g.csrs[0x344]
  {
    EvenLow32(g.pc);
    Below(g.csrs[0x105], i, d);
  }

  lemma MachineInterrupt(g: Hart, i: Interrupt, d: nat, shifted: bool)
    requires g.Valid() && (g.mode == Machine || !shifted) && d == Digit(i)
    ensures var r := TakeInterrupt(g, i, shifted); ToMachine(g, r, d) && r.csrs[0x344] == g.csrs[0x344]
  {
    EvenLow32(g.pc);
    Below(g.csrs[0x305], i, d);
  }

  lemma Below(tvec: U64, i: Interrupt, d: nat)
    requires d == Digit(i)
    ensures Minus4(InterruptTarget(tvec, i)) == BelowHandler(tvec, d)
  {
    InterruptVector(tvec, i);
    EvenLow32(tvec);
  }

  /** Otherwise the hart is unchanged, but for digit 9 of MIP on a UART event in an interruptible mode. */
  lemma NothingTakenLaw(s: State, turn: Turn)
    requires s.Valid() && (Enabled(s.hart) ==> NoneWaits(s.hart, turn.uart))
    ensures var h, r := s.hart, Started(s, turn).hart;
      && r.mode == h.mode && r.pc == h.pc
      && (forall a :: 0 <= a < 4096 && a != 0x344 ==> r.csrs[a] == h.csrs[a])
      && forall j: nat :: Bit(r.csrs[0x344], j) <==> Bit(h.csrs[0x344], j) || (j == 9 && turn.uart && Enabled(h))
  {
    EnabledIsInterruptible(s.hart);
    SetBits(s.hart.csrs[0x344], 9);
    if Enabled(s.hart) { SelectsNone(s.hart, turn.uart); }
  }
}
