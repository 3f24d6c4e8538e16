/** Interrupts: which pending one the run loop selects, and what taking it does. */
module Interrupts {
  import opened Bits
  import opened Words
  import opened Privileged

  // ----- selection -----

  datatype Interrupt = MachineExternal | MachineSoftware | MachineTimer
                     | SupervisorExternal | SupervisorSoftware | SupervisorTimer

  /** The order in which the source tests them. */
  function ByPriority(k: nat): Interrupt
    requires k < 6
  {
    if k == 0 then MachineExternal else if k == 1 then MachineSoftware else if k == 2 then MachineTimer
    else if k == 3 then SupervisorExternal else if k == 4 then SupervisorSoftware else SupervisorTimer
  }

  function Rank(i: Interrupt): (k: nat)
    ensures k < 6 && ByPriority(k) == i
  {
    match i
    case MachineExternal => 0 case MachineSoftware => 1 case MachineTimer => 2
    case SupervisorExternal => 3 case SupervisorSoftware => 4 case SupervisorTimer => 5
  }

  function Position(i: Interrupt): nat {
    match i
    case MachineExternal => 11 case MachineSoftware => 3 case MachineTimer => 7
    case SupervisorExternal => 9 case SupervisorSoftware => 1 case SupervisorTimer => 5
  }

  /** The enable bit of the current mode; user mode is always interruptible. */
  predicate Interruptible(h: Hart)
    requires h.Valid()
  {
    match h.mode
    case Machine => And(Shr(h.csrs[MSTATUS], 3), 1) != 0
    case Supervisor => And(Shr(h.csrs[SSTATUS], 1), 1) != 0
    case User => true
  }

  /** Enabled and pending. */
  predicate Pending(h: Hart, i: Interrupt)
    requires h.Valid()
  {
    And(And(h.csrs[MIE], h.csrs[MIP]), Pow2(Position(i))) != 0
  }

  /** The interrupts that are enabled and pending. */
  function PendingSet(h: Hart): set<Interrupt>
    requires h.Valid()
  {
    set i: Interrupt | Pending(h, i)
  }

  datatype Selected = NoInterrupt | Take(i: Interrupt)

  /** The chain of tests in `check_pending_interrupt`, from the k-th on. */
  function FirstOf(s: set<Interrupt>, k: nat): Selected
    requires k <= 6
    decreases 6 - k
  {
    if k == 6 then NoInterrupt else if ByPriority(k) in s then Take(ByPriority(k)) else FirstOf(s, k + 1)
  }

  /** `check_pending_interrupt` when the UART raises nothing: the answer, and the state with that bit of MIP
      cleared. */
  function Check(h: Hart): (r: (Selected, Hart))
    requires h.Valid()
    ensures r.1.Valid()
  {
    var s := if Interruptible(h) then FirstOf(PendingSet(h), 0) else NoInterrupt;
    match s
    case NoInterrupt => (s, h)
    case Take(i) => (s, h.(csrs := h.csrs[MIP := Clear32(h.csrs[MIP], Position(i))]))
  }

  lemma AndPow2(z: nat, k: nat)
    ensures And(z, Pow2(k)) != 0 <==> Bit(z, k)
  {
    AndBit(z, Pow2(k), k);
    Pow2Bit(k, k);
    ZeroBit(k);
    if !Bit(z, k) {
      forall j: nat ensures Bit(And(z, Pow2(k)), j) <==> Bit(0, j) {
        AndBit(z, Pow2(k), j); Pow2Bit(k, j); ZeroBit(j);
      }
      SameBits(And(z, Pow2(k)), 0);
    }
  }

  lemma PendingBits(h: Hart, i: Interrupt)
    requires h.Valid()
    ensures Pending(h, i) <==> Bit(h.csrs[MIE], Position(i)) && Bit(h.csrs[MIP], Position(i))
  {
    AndPow2(And(h.csrs[MIE], h.csrs[MIP]), Position(i));
    AndBit(h.csrs[MIE], h.csrs[MIP], Position(i));
  }

  /** A call that delivers an interrupt removes that one from the pending set and nothing else. */
  lemma CheckTakes(h: Hart)
    requires h.Valid() && Check(h).0.Take?
    ensures PendingSet(Check(h).1) == PendingSet(h) - {Check(h).0.i}
    ensures Interruptible(Check(h).1) <==> Interruptible(h)
  {
    var i, g := Check(h).0.i, Check(h).1;
    Clear32Bits(h.csrs[MIP], Position(i));
    forall j: Interrupt ensures Pending(g, j) <==> Pending(h, j) && j != i {
      PendingBits(h, j);
      PendingBits(g, j);
    }
  }

  /** The members of `s` in priority order, from the k-th on. */
  function InOrder(s: set<Interrupt>, k: nat): seq<Interrupt>
    requires k <= 6
    decreases 6 - k
  {
    if k == 6 then [] else (if ByPriority(k) in s then [ByPriority(k)] else []) + InOrder(s, k + 1)
  }

  lemma {:induction false} LaterUnaffected(s: set<Interrupt>, i: Interrupt, k: nat)
    requires Rank(i) < k <= 6
    ensures InOrder(s - {i}, k) == InOrder(s, k)
    decreases 6 - k
  {
    if k < 6 { LaterUnaffected(s, i, k + 1); }
  }

  lemma {:induction false} FirstIsHead(s: set<Interrupt>, k: nat)
    requires k <= 6
    ensures match FirstOf(s, k)
      case NoInterrupt => InOrder(s, k) == []
      case Take(i) => InOrder(s, k) == [i] + InOrder(s - {i}, k)
    decreases 6 - k
  {
    if k < 6 {
      if ByPriority(k) in s { LaterUnaffected(s, ByPriority(k), k + 1); }
      else { FirstIsHead(s, k + 1); }
    }
  }

  /** The interrupts that repeated calls of `check_pending_interrupt` return before one returns none. */
  function Drain(h: Hart): seq<Interrupt>
    requires h.Valid()
    decreases |InOrder(PendingSet(h), 0)|
  {
    match Check(h).0
    case NoInterrupt => []
    case Take(i) =>
      CheckTakes(h);
      FirstIsHead(PendingSet(h), 0);
      [i] + Drain(Check(h).1)
  }

  /** With interrupts enabled, repeated calls deliver every enabled pending interrupt, in the priority order of
      section 3.1.9 of the Privileged ISA, and then report none. */
  lemma {:induction false} DrainDeliversAllInOrder(h: Hart)
    requires h.Valid() && Interruptible(h)
    ensures Drain(h) == InOrder(PendingSet(h), 0)
    decreases |InOrder(PendingSet(h), 0)|
  {
    FirstIsHead(PendingSet(h), 0);
    if Check(h).0.Take? {
      CheckTakes(h);
      DrainDeliversAllInOrder(Check(h).1);
    }
  }

  lemma {:induction false} ListedExactly(s: set<Interrupt>, k: nat, i: Interrupt)
    requires k <= 6
    ensures i in InOrder(s, k) <==> k <= Rank(i) && i in s
    decreases 6 - k
  {
    if k < 6 { ListedExactly(s, k + 1, i); }
  }

  lemma {:induction false} ListedInOrder(s: set<Interrupt>, k: nat)
    requires k <= 6
    ensures forall x, y :: 0 <= x < y < |InOrder(s, k)| ==> Rank(InOrder(s, k)[x]) < Rank(InOrder(s, k)[y])
    decreases 6 - k
  {
    if k < 6 {
      var rest := InOrder(s, k + 1);
      ListedInOrder(s, k + 1);
      forall x | 0 <= x < |rest| ensures k < Rank(rest[x]) {
        assert rest[x] in rest;
        ListedExactly(s, k + 1, rest[x]);
      }
    }
  }

  /** Being listed is being a member, and the list is strictly ordered by priority: nothing is delivered twice. */
  lemma ListedOnce(s: set<Interrupt>, k: nat)
    requires k <= 6
    ensures forall i: Interrupt :: i in InOrder(s, k) <==> k <= Rank(i) && i in s
    ensures forall x, y :: 0 <= x < y < |InOrder(s, k)| ==> Rank(InOrder(s, k)[x]) < Rank(InOrder(s, k)[y])
  {
    forall i: Interrupt ensures i in InOrder(s, k) <==> k <= Rank(i) && i in s { ListedExactly(s, k, i); }
    ListedInOrder(s, k);
  }

  // ----- UART events and taking an interrupt -----

  /** A UART event found by the check sets SEIP. */
  function Claim(h: Hart, uart: bool): (r: Hart)
    requires h.Valid()
    ensures r.Valid()
  {
    if uart && Interruptible(h) then h.(csrs := h.csrs[MIP := SetBit(h.csrs[MIP], 9)]) else h
  }

  /** The event adds the supervisor external interrupt to the pending set, if that one is enabled, and nothing
      else. */
  lemma ClaimAddsSupervisorExternal(h: Hart)
    requires h.Valid() && Interruptible(h)
    ensures Interruptible(Claim(h, true))
    ensures PendingSet(Claim(h, true)) == PendingSet(h) + if Bit(h.csrs[MIE], 9) then {SupervisorExternal} else {}
  {
    var g := Claim(h, true);
    SetBits(h.csrs[MIP], 9);
    forall i: Interrupt
      ensures Pending(g, i) <==> Pending(h, i) || (i == SupervisorExternal && Bit(h.csrs[MIE], 9))
    {
      PendingBits(h, i);
      PendingBits(g, i);
    }
  }

  /** The cause of an interrupt: its code with digit 63 set. */
  function InterruptCause(i: Interrupt): U64 { 0x8000_0000_0000_0000 + Position(i) }

  /** The handler: the base, or in vectored mode four times the cause above it, modulo 2^64. */
  function InterruptTarget(tvec: U64, i: Interrupt): U64 {
    U64Of(EvenLow(tvec) + if And(tvec, 1) != 0 then U64Of(4 * InterruptCause(i)) else 0)
  }

  /** Multiplying by four drops digit 63: a vector is four times the code above the base. */
  lemma InterruptVector(tvec: U64, i: Interrupt)
    ensures InterruptTarget(tvec, i) == EvenLow(tvec) + if tvec % 2 == 1 then 4 * Position(i) else 0
  {
    AndOne(tvec);
    EvenLow32(tvec);
    VectorOffset(Position(i));
    SmallSum(EvenLow(tvec), 4 * Position(i));
  }

  lemma VectorOffset(p: int)
    requires 0 <= p < 64
    ensures U64Of(4 * (0x8000_0000_0000_0000 + p)) == 4 * p
  {
  }

  lemma SmallSum(e: int, d: int)
    requires 0 <= e < 0x1_0000_0000 && 0 <= d < 256
    ensures U64Of(e + d) == e + d && U64Of(e) == e
  {
  }

  predicate InterruptDelegated(h: Hart, shifted: bool) { h.mode != Machine && shifted }

  /** `take_interrupt`. It shifts MEDELEG by the whole cause, which C++ leaves undefined; `shifted` is what
      comes out. */
  function TakeInterrupt(h: Hart, i: Interrupt, shifted: bool): (r: Hart)
    requires h.Valid()
    ensures r.Valid()
  {
    if InterruptDelegated(h, shifted) then TakeToSupervisor(h, i) else TakeToMachine(h, i)
  }

  function TakeToSupervisor(h: Hart, i: Interrupt): (r: Hart)
    requires h.Valid()
    ensures r.Valid()
  {
    var c1 := h.csrs[SEPC := EvenLow(h.pc)];
    var c2 := c1[SCAUSE := InterruptCause(i)];
    var c3 := c2[STVAL := 0];
    Hart(Supervisor, Minus4(InterruptTarget(h.csrs[STVEC], i)), c3[SSTATUS := TrapSstatus(h.csrs[SSTATUS], h.mode)])
  }

  function TakeToMachine(h: Hart, i: Interrupt): (r: Hart)
    requires h.Valid()
    ensures r.Valid()
  {
    var c1 := h.csrs[MEPC := EvenLow(h.pc)];
    var c2 := c1[MCAUSE := InterruptCause(i)];
    var c3 := c2[MTVAL := 0];
    Hart(Machine, Minus4(InterruptTarget(h.csrs[MTVEC], i)), c3[MSTATUS := TrapMstatus(h.csrs[MSTATUS], h.mode)])
  }

  /** The instruction fetched after taking an interrupt is never the handler's first: it lies four bytes below. */
  lemma InterruptMissesHandler(h: Hart, i: Interrupt, shifted: bool)
    requires h.Valid()
    ensures var target := InterruptTarget(if InterruptDelegated(h, shifted) then h.csrs[STVEC] else h.csrs[MTVEC], i);
      var pc := TakeInterrupt(h, i, shifted).pc;
      pc != target && U64Of(pc + 4) == target
  {
    var target := InterruptTarget(if InterruptDelegated(h, shifted) then h.csrs[STVEC] else h.csrs[MTVEC], i);
    MinusPlus(target);
    NotItself(target);
  }

  lemma NotItself(x: U64)
    ensures Minus4(x) != x
  {
  }

  /** A delegated interrupt, any handler, then SRET. */
  lemma InterruptThenSret(h: Hart, i: Interrupt, shifted: bool, q: Hart)
    requires h.Valid() && q.Valid() && InterruptDelegated(h, shifted)
    requires HandlerOf(q, TakeInterrupt(h, i, shifted), SEPC, SSTATUS)
    ensures Resumes(Sret(q), h.mode, h.pc)
    ensures Bit(Sret(q).csrs[SSTATUS], 1) <==> Bit(h.csrs[SSTATUS], 1)
  {
    SretResumes(q, h.csrs[SSTATUS], h.mode, h.pc);
  }

  /** An interrupt taken to machine mode from user or supervisor mode, any handler, then MRET. */
  lemma InterruptThenMret(h: Hart, i: Interrupt, shifted: bool, q: Hart)
    requires h.Valid() && q.Valid() && !InterruptDelegated(h, shifted) && h.mode != Machine
    requires HandlerOf(q, TakeInterrupt(h, i, shifted), MEPC, MSTATUS)
    ensures Mret(q).Returned? && Resumes(Mret(q).h, h.mode, h.pc)
    ensures Bit(Mret(q).h.csrs[MSTATUS], 3) <==> Bit(h.csrs[MSTATUS], 3)
  {
    MretResumes(q, h.csrs[MSTATUS], h.mode, h.pc);
  }

  /** What an iteration of the run loop does before it fetches. */
  function Begin(h: Hart, uart: bool, shifted: bool): (r: Hart)
    requires h.Valid()
    ensures r.Valid()
  {
    var (i, g) := Check(Claim(h, uart));
    match i
    case NoInterrupt => g
    case Take(i) => TakeInterrupt(g, i, shifted)
  }
}
