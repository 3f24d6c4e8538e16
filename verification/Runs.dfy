/** Whole runs of the machine: take what interrupt is due, fetch, decode and step, over and over; and what a run
    of guest instructions does to memory. The runs are those of the default build; the fuzzing build adds system
    calls, whose memory operations `Snapshots` and `MemoryRuns` cover. */
module Runs {
  import opened Bits
  import opened Words
  import opened Names
  import opened DecodeTables
  import opened Encoding
  import opened Memory
  import opened MemoryRuns
  import opened Snapshots
  import opened Privileged
  import opened Interrupts
  import opened Atomics
  import opened Isa
  import Alu

  /** What decides an iteration besides the state: the instruction fetched, whether the UART has an event, and
      what the undefined shift of `take_interrupt` produces. */
  datatype Turn = Turn(ins: Instruction, uart: bool, shifted: bool)

  /** The state in which the instruction is fetched: an interrupt that is due has been taken. */
  function Started(s: State, turn: Turn): (r: State)
    requires s.Valid()
    ensures r.Valid() && r.x == s.x && r.mem == s.mem
  {
    s.(hart := Begin(s.hart, turn.uart, turn.shifted))
  }

  /** The instruction's step is covered and runs into no assertion. */
  ghost predicate CanStep(s: State, ins: Instruction) {
    s.Valid() && RegisterFields(ins.f) && Permitted(s, ins.name, ins.f)
  }

  /** The instruction stops the emulator. */
  ghost predicate Halts(s: State, ins: Instruction)
    requires CanStep(s, ins)
  {
    Fatal(Raised(s, ins.name, ins.f))
  }

  /** One iteration: take what is due, then step. */
  ghost function Cycle(s: State, turn: Turn): (r: State)
    requires s.Valid() && CanStep(Started(s, turn), turn.ins)
    ensures r.Valid() && |r.mem.ram| == |s.mem.ram|
  {
    Outcome(Started(s, turn), turn.ins.name, turn.ins.f)
  }

  /** Every turn can be taken, and none follows one that stops the emulator. */
  ghost predicate CanRun(s: State, turns: seq<Turn>)
    decreases |turns|
  {
    s.Valid() && (turns == [] ||
      (&& CanStep(Started(s, turns[0]), turns[0].ins)
       && (Halts(Started(s, turns[0]), turns[0].ins) ==> |turns| == 1)
       && CanRun(Cycle(s, turns[0]), turns[1..])))
  }

  /** The last turn stops the emulator. */
  ghost predicate Stops(s: State, turns: seq<Turn>)
    requires CanRun(s, turns)
    decreases |turns|
  {
    turns != [] && (Halts(Started(s, turns[0]), turns[0].ins) || Stops(Cycle(s, turns[0]), turns[1..]))
  }

  /** The state after a sequence of iterations. */
  ghost function Cycles(s: State, turns: seq<Turn>): (r: State)
    requires CanRun(s, turns)
    ensures r.Valid() && |r.mem.ram| == |s.mem.ram|
    decreases |turns|
  {
    if turns == [] then s else Cycles(Cycle(s, turns[0]), turns[1..])
  }

  /** The four bytes at pc. */
  function Fetched(s: State): U32
    requires s.Valid() && s.hart.pc + 4 <= |s.mem.ram|
  {
    var bs := s.mem.ram[s.hart.pc..s.hart.pc + 4];
    HeldFits(bs);
    Le(bs)
  }

  /** The word at pc decodes to the instruction. */
  predicate Fetches(s: State, ins: Instruction) {
    s.Valid() && s.hart.pc + 4 <= |s.mem.ram| && Reference(Fetched(s)) == Ok(ins)
  }

  /** Each instruction is the one the machine fetches when its turn comes. */
  ghost predicate Follows(s: State, turns: seq<Turn>)
    requires CanRun(s, turns)
    decreases |turns|
  {
    turns == [] || (Fetches(Started(s, turns[0]), turns[0].ins) && Follows(Cycle(s, turns[0]), turns[1..]))
  }

  /** The machine that fetches the encoding of an instruction steps by that instruction on its own operands. */
  lemma EncodedStep(s: State, a: Asm, f: Fields)
    requires s.Valid() && s.hart.pc + 4 <= |s.mem.ram| && WellFormed(a)
    requires Fetched(s) == Encode(a) as int && f == FieldsOf(Format(a), Encode(a))
    ensures Fetches(s, Instruction(TypeOfOpcode(Opcode(Encode(a)) as int), a.n, f)) && Operands(f, a)
  {
    EncodeDecode(a, Encode(a), f);
  }

  // ----- guest stores and snapshots -----

  /** A plain store does not cross a block boundary. */
  predicate BlockLocal(s: State, ins: Instruction)
    requires s.Valid() && RegisterFields(ins.f)
  {
    IsStore(ins.name) ==> Address(s, ins.name, ins.f) % 4096 + Width(ins.name) <= 4096
  }

  ghost predicate BlockLocalRun(s: State, turns: seq<Turn>)
    requires CanRun(s, turns)
    decreases |turns|
  {
    turns == [] || (BlockLocal(Started(s, turns[0]), turns[0].ins) && BlockLocalRun(Cycle(s, turns[0]), turns[1..]))
  }

  /** An aligned access never crosses a block boundary. */
  lemma AlignedIsLocal(a: int, w: nat)
    requires w in {1, 2, 4, 8} && 0 <= a && a % w == 0
    ensures a % 4096 + w <= 4096
  {
    if w == 2 { InBlock(a, 2, 2048); } else if w == 4 { InBlock(a, 4, 1024); } else if w == 8 { InBlock(a, 8, 512); }
  }

  lemma InBlock(a: int, w: int, k: int)
    requires w > 0 && w * k == 4096 && 0 <= a && a % w == 0
    ensures a % 4096 + w <= 4096
  {
    var q, r := a / 4096, a % 4096;
    assert a == r + w * (k * q) by { assert (w * k) * q == w * (k * q); }
    ModShift(r, k * q, w);
    var c := r / w;
    assert r == w * c;
    if c >= k { MulMono(w, k, c); }
    MulMono(w, c + 1, k);
    assert w * (c + 1) == w * c + w;
  }

  lemma StepKeepsDirty(s: State, ins: Instruction, snap: Mem)
    requires CanStep(s, ins) && BlockLocal(s, ins) && DirtyCovers(s.mem, snap)
    ensures DirtyCovers(Outcome(s, ins.name, ins.f).mem, snap)
  {
    var n, f := ins.name, ins.f;
    if Stores(s, n, f) {
      if IsAtomic(n) { AlignedIsLocal(Address(s, n, f), Width(n)); }
      StoreKeepsDirty(s.mem, snap, Request(Address(s, n, f), Datum(s, n, f), Width(n)));
    }
  }

  lemma {:induction false} RunKeepsDirtyBlocks(s: State, turns: seq<Turn>, snap: Mem)
    requires CanRun(s, turns) && BlockLocalRun(s, turns) && DirtyCovers(s.mem, snap)
    ensures DirtyCovers(Cycles(s, turns).mem, snap)
    decreases |turns|
  {
    if turns != [] {
      StepKeepsDirty(Started(s, turns[0]), turns[0].ins, snap);
      RunKeepsDirtyBlocks(Cycle(s, turns[0]), turns[1..], snap);
    }
  }

  /** Snapshot the memory, run any guest instructions whose plain stores stay inside a block, and reset: every
      byte is back, and no block is dirty. Atomics need no such condition. */
  lemma ResetUndoesGuestRun(s: State, turns: seq<Turn>)
    requires CanRun(s, turns) && BlockLocalRun(s, turns)
    ensures var m := Cycles(s, turns).mem;
      ResetTo(m, s.mem).ram == s.mem.ram && ResetTo(m, s.mem).dirty == {}
  {
    RunKeepsDirtyBlocks(s, turns, s.mem);
    var m := Cycles(s, turns).mem;
    assert ResetTo(m, s.mem).ram == s.mem.ram;
  }

  // ----- guest runs as memory runs -----

  /** The memory operations of one instruction: none, or one store. */
  ghost function MemoryOps(s: State, ins: Instruction): seq<Op>
    requires CanStep(s, ins)
  {
    if Stores(s, ins.name, ins.f)
    then [StoreAt(Address(s, ins.name, ins.f), Datum(s, ins.name, ins.f), Width(ins.name))]
    else []
  }

  lemma StepOps(s: State, ins: Instruction, ops: seq<Op>)
    requires CanStep(s, ins) && ops == MemoryOps(s, ins)
    ensures ops == [] ==> Outcome(s, ins.name, ins.f).mem == s.mem
    ensures ops != [] ==>
      |ops| == 1 && Enabled(s.mem, ops[0]) && Apply(s.mem, ops[0]) == Outcome(s, ins.name, ins.f).mem
  {
  }

  lemma ExecOne(m: Mem, ops: seq<Op>, next: Mem, rest: seq<Op>)
    requires m.Valid() && next.Valid() && EnabledRun(next, rest)
    requires if ops == [] then next == m else |ops| == 1 && Enabled(m, ops[0]) && Apply(m, ops[0]) == next
    ensures EnabledRun(m, ops + rest) && Exec(m, ops + rest) == Exec(next, rest)
  {
    if ops == [] { assert ops + rest == rest; } else { assert (ops + rest)[1..] == rest; }
  }

  /** The memory operations of a guest run. */
  ghost function GuestOps(s: State, turns: seq<Turn>): seq<Op>
    requires CanRun(s, turns)
    decreases |turns|
  {
    if turns == [] then []
    else MemoryOps(Started(s, turns[0]), turns[0].ins) + GuestOps(Cycle(s, turns[0]), turns[1..])
  }

  /** A guest run acts on memory as a run of stores, so what is proved of memory runs holds while the guest
      executes. */
  lemma {:induction false} GuestRunIsMemoryRun(s: State, turns: seq<Turn>)
    requires CanRun(s, turns)
    ensures EnabledRun(s.mem, GuestOps(s, turns)) && Exec(s.mem, GuestOps(s, turns)) == Cycles(s, turns).mem
    decreases |turns|
  {
    if turns != [] {
      var b, r := Started(s, turns[0]), Cycle(s, turns[0]);
      GuestRunIsMemoryRun(r, turns[1..]);
      StepOps(b, turns[0].ins, MemoryOps(b, turns[0].ins));
      ExecOne(s.mem, MemoryOps(b, turns[0].ins), r.mem, GuestOps(r, turns[1..]));
    }
  }

  /** In particular, for any guest run whatever, a reset restores the snapshot's bytes exactly when every byte
      outside the dirty blocks was never stored to, or was last stored with the value it had. */
  lemma ResetAfterGuestRunExactly(s: State, turns: seq<Turn>, ops: seq<Op>, t: seq<Trace>)
    requires CanRun(s, turns) && ops == GuestOps(s, turns) && EnabledRun(s.mem, ops)
    requires t == WrittenBy(s.mem, ops, NothingWritten(s.mem))
    ensures ResetTo(Cycles(s, turns).mem, s.mem).ram == s.mem.ram <==>
      forall i :: 0 <= i < |s.mem.ram| ==>
        i / 4096 in s.mem.dirty + Marked(ops) || t[i] == Blank || t[i] == Holds(s.mem.ram[i])
  {
    GuestRunIsMemoryRun(s, turns);
    ResetAfterRunExactly(s.mem, ops, t);
  }

  // ----- a store, then a load of the same bytes -----

  /** A load of the width and address of the store before it gives the low part of what was stored, extended as the
      load prescribes; its access is granted exactly when every stored byte was readable or raw before. */
  lemma StoreThenLoadStep(s: State, sn: IName, sf: Fields, ln: IName, lf: Fields)
    requires s.Valid() && RegisterFields(sf) && RegisterFields(lf) && IsStore(sn) && Permitted(s, sn, sf)
    requires IsLoad(ln) && Width(ln) == Width(sn) && Address(Step(s, sn, sf), ln, lf) == Address(s, sn, sf)
    ensures var t := Step(s, sn, sf);
      && Addressable(t, ln, lf)
      && (Access(t, ln, lf) == Normal <==>
            forall i :: Covers(Address(s, sn, sf), Width(sn), i) ==> s.mem.perms[i].read || s.mem.perms[i].raw)
      && (Access(t, ln, lf) == Normal ==> Loaded(t, ln, lf) == Extend(ln, Low(s.x[sf.rs2], 8 * Width(sn))))
  {
    var t, a, w := Step(s, sn, sf), Address(s, sn, sf), Width(sn);
    StoredMemory(s, sn, sf);
    StoreThenLoad(s.mem, a, s.x[sf.rs2], w);
    OrBytesIsLe(Bytes(t.mem, a, w));
    LoadOf(t, ln, lf, Low(s.x[sf.rs2], 8 * w));
  }

  lemma StoredMemory(s: State, n: IName, f: Fields)
    requires s.Valid() && RegisterFields(f) && IsStore(n) && Permitted(s, n, f)
    ensures Step(s, n, f).mem == Memory.Store(s.mem, Address(s, n, f), s.x[f.rs2], Width(n))
  {
  }

  lemma LoadOf(t: State, n: IName, f: Fields, v: U64)
    requires t.Valid() && RegisterFields(f) && IsLoad(n) && t.mem.InRam(Address(t, n, f), Width(n))
    requires Le(Bytes(t.mem, Address(t, n, f), Width(n))) == v
    ensures Addressable(t, n, f) && Access(t, n, f) == Status(t.mem, Address(t, n, f), Width(n))
    ensures Access(t, n, f) == Normal ==> Loaded(t, n, f) == Extend(n, v)
  {
  }

  // ----- faults and traps -----

  /** A load reports the fault of its access exactly when it is a zero-extending one or there is none to report. */
  lemma LoadFaultsReportedExactly(s: State, n: IName, f: Fields)
    requires s.Valid() && RegisterFields(f) && IsLoad(n) && Addressable(s, n, f)
    ensures Raised(s, n, f) == OfStatus(Access(s, n, f)) <==> IsUnsignedLoad(n) || Access(s, n, f) == Normal
  {
  }

  /** A sign-extending load from memory that may not be read completes as if nothing had happened. */
  lemma SignedLoadHidesFault()
    ensures exists s: State, f: Fields ::
      && s.Valid() && RegisterFields(f) && Addressable(s, LB, f)
      && Access(s, LB, f) == NoPermission && Raised(s, LB, f) == NormalReturn
  {
    var m := Mem(seq(16, _ => 0), seq(16, _ => NONE), {}, 0);
    var s := State(seq(32, _ => 0), Hart(User, 0, seq(4096, _ => 0)), m);
    var f := NO_FIELDS;
    assert Address(s, LB, f) == 0;
    assert Covers(0, 1, 0) && !m.perms[0].read;
    assert s.Valid() && RegisterFields(f) && Addressable(s, LB, f);
  }

  /** LR.W leaves the prescribed sign-extended word exactly when the word is not negative. */
  lemma LoadReservedMeetsIsaExactly(s: State, f: Fields)
    requires s.Valid() && RegisterFields(f) && Addressable(s, LRW, f) && !Misaligned(s, LRW, f)
    ensures Loaded(s, LRW, f) == Alu.Sext32(Held(s, LRW, f)) <==> Held(s, LRW, f) < 0x8000_0000
  {
  }

  /** The CSRs after a computing instruction are untouched, as the ISA prescribes, exactly when it does not
      divide by zero or digit 3 of FFLAGS was set already. */
  lemma FlagsMeetIsaExactly(s: State, n: IName, f: Fields)
    requires s.Valid() && RegisterFields(f)
    ensures NextCsrs(s, n, f) == s.hart.csrs <==> !DividesByZero(n, s.x[f.rs2]) || Bit(s.hart.csrs[FFLAGS], 3)
  {
    var v := s.hart.csrs[FFLAGS];
    SetBits(v, 3);
    if Bit(v, 3) { SameBits(SetBit(v, 3), v); }
  }

  /** A division by zero that changes FFLAGS. */
  lemma DivisionSetsFlag()
    ensures exists s: State, f: Fields ::
      && s.Valid() && RegisterFields(f) && DividesByZero(DIV, s.x[f.rs2]) && NextCsrs(s, DIV, f) != s.hart.csrs
  {
    var m := Mem([], [], {}, 0);
    var s := State(seq(32, _ => 0), Hart(User, 0, seq(4096, _ => 0)), m);
    FlagsMeetIsaExactly(s, DIV, NO_FIELDS);
    ZeroBit(3);
    assert s.Valid() && RegisterFields(NO_FIELDS) && DividesByZero(DIV, s.x[NO_FIELDS.rs2]);
  }

  lemma ArriveFromSret(h: Hart, cause: nat, q: Hart)
    requires h.Valid() && q.Valid() && cause < 256 && Delegated(h, cause)
    requires HandlerOf(q, Arrive(Trap(h, cause)), SEPC, SSTATUS)
    ensures Arrive(Sret(q)).mode == h.mode && (Arrive(Sret(q)).pc == h.pc <==> SavablePc(h.pc))
    ensures Bit(Arrive(Sret(q)).csrs[SSTATUS], 1) <==> Bit(h.csrs[SSTATUS], 1)
  {
    TrapThenSret(h, cause, q);
  }

  lemma ArriveFromMret(h: Hart, cause: nat, q: Hart)
    requires h.Valid() && q.Valid() && cause < 256 && !Delegated(h, cause) && h.mode != Machine
    requires HandlerOf(q, Arrive(Trap(h, cause)), MEPC, MSTATUS)
    ensures Mret(q).Returned?
    ensures Arrive(Mret(q).h).mode == h.mode && (Arrive(Mret(q).h).pc == h.pc <==> SavablePc(h.pc))
    ensures Bit(Arrive(Mret(q).h).csrs[MSTATUS], 3) <==> Bit(h.csrs[MSTATUS], 3)
  {
    TrapThenMret(h, cause, q);
  }

  lemma TrappedHart(s: State, n: IName, f: Fields)
    requires s.Valid() && RegisterFields(f) && Permitted(s, n, f) && Raised(s, n, f) != NormalReturn
    ensures StepHart(s, n, f) == Arrive(Trap(s.hart, Code(Raised(s, n, f))))
  {
  }

  /** Any instruction that raises a delegated exception, any handler, then SRET: the program resumes in its mode
      with its interrupt enable, and at that same instruction exactly when the emulator could save its address.
      */
  lemma ExceptionThenSret(s: State, n: IName, f: Fields, q: Hart)
    requires s.Valid() && q.Valid() && RegisterFields(f) && Permitted(s, n, f)
    requires Raised(s, n, f) != NormalReturn && Delegated(s.hart, Code(Raised(s, n, f)))
    requires HandlerOf(q, StepHart(s, n, f), SEPC, SSTATUS)
    ensures Arrive(Sret(q)).mode == s.hart.mode && (Arrive(Sret(q)).pc == s.hart.pc <==> SavablePc(s.hart.pc))
    ensures Bit(Arrive(Sret(q)).csrs[SSTATUS], 1) <==> Bit(s.hart.csrs[SSTATUS], 1)
  {
    TrappedHart(s, n, f);
    ArriveFromSret(s.hart, Code(Raised(s, n, f)), q);
  }

  /** The same for an exception that is not delegated, and MRET, which then does not abort. */
  lemma ExceptionThenMret(s: State, n: IName, f: Fields, q: Hart)
    requires s.Valid() && q.Valid() && RegisterFields(f) && Permitted(s, n, f)
    requires Raised(s, n, f) != NormalReturn && !Delegated(s.hart, Code(Raised(s, n, f))) && s.hart.mode != Machine
    requires HandlerOf(q, StepHart(s, n, f), MEPC, MSTATUS)
    ensures Mret(q).Returned?
    ensures Arrive(Mret(q).h).mode == s.hart.mode && (Arrive(Mret(q).h).pc == s.hart.pc <==> SavablePc(s.hart.pc))
    ensures Bit(Arrive(Mret(q).h).csrs[MSTATUS], 3) <==> Bit(s.hart.csrs[MSTATUS], 3)
  {
    TrappedHart(s, n, f);
    ArriveFromMret(s.hart, Code(Raised(s, n, f)), q);
  }
}
