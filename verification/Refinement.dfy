/** The values the emulator's instruction methods compute, in the casts and masks of the source, and the proof that
    they are the architectural ones. */
module Refinement {
  import opened Bits
  import opened Words
  import opened Names
  import opened Alu
  import opened DecodeTables
  import opened RegisterFile
  import opened Memory
  import opened Privileged
  import opened Atomics
  import opened Isa

  // ----- the new values, as the methods compute them -----

  function RaiseFlag(v: U64): U64 { BitwiseBound64(v, 8); Or(v, 0x8) }

  function UpperResult(n: IName, pc: U64, f: Fields): I64 {
    if n == LUI then I32Of(f.imm) else I64Of(PlusImm(pc, f))
  }

  function JalrPc(x: I64, f: Fields): U64 { Minus4(And(PlusImm(x, f), Not64(1))) }

  function CodeRegs(regs: seq<I64>, pc: U64, n: IName, f: Fields): (r: seq<I64>)
    requires |regs| == 32 && RegisterFields(f)
    ensures |r| == 32
  {
    if IsRegOp(n) then Stored(regs, f.rd, OpResult(n, regs[f.rs1], regs[f.rs2]))
    else if IsImmOp(n) then Stored(regs, f.rd, OpImmResult(n, regs[f.rs1], f.imm))
    else if n == JAL || n == JALR then Stored(regs, f.rd, Link(pc))
    else if n == LUI || n == AUIPC then Stored(regs, f.rd, UpperResult(n, pc, f))
    else regs
  }

  /** pc before the run loop adds four. */
  function CodePc(regs: seq<I64>, pc: U64, n: IName, f: Fields): U64
    requires |regs| == 32 && RegisterFields(f)
  {
    if IsBranch(n) && BranchCondition(n, regs[f.rs1], regs[f.rs2]) then Minus4(PlusImm(pc, f))
    else if n == JAL then Minus4(PlusImm(pc, f))
    else if n == JALR then JalrPc(regs[f.rs1], f)
    else pc
  }

  function CodeCsrs(regs: seq<I64>, c: seq<U64>, n: IName, f: Fields): (r: seq<U64>)
    requires |regs| == 32 && RegisterFields(f) && |c| == 4096
    ensures |r| == 4096
  {
    if RaisesDivideByZero(n, regs[f.rs1], regs[f.rs2]) then c[FFLAGS := RaiseFlag(c[FFLAGS])] else c
  }

  // ----- the comparisons and casts of these methods -----

  /** The conditions of the branch methods, on register values. */
  function BranchCondition(n: IName, x: I64, y: I64): bool
    requires IsBranch(n)
  {
    match n
    case BEQ => x == y
    case BNE => x != y
    case BLT => x < y
    case BGE => x >= y
    case BLTU => U64Of(x) < U64Of(y)
    case _ => U64Of(x) >= U64Of(y)
  }

  lemma BranchWords(n: IName, x: I64, y: I64)
    requires IsBranch(n)
    ensures BranchCondition(n, x, y) == BranchTaken(n, U64Of(x), U64Of(y))
  {
    I64RoundTrip(x); I64RoundTrip(y);
  }

  lemma DivisorWord(n: IName, x: I64, y: I64)
    ensures RaisesDivideByZero(n, x, y) <==> DividesByZero(n, U64Of(y))
  {
    Low32(y);
  }

  /** `pc + 4` as the link register receives it. */
  function Link(pc: U64): I64 { I64Of(Plus4(pc)) }

  /** A 64-bit sum with the immediate converted to `int64_t`. */
  function PlusImm(a: int, f: Fields): U64 { U64Of(a + I32Of(f.imm)) }

  lemma LinkWord(pc: U64)
    ensures U64Of(Link(pc)) == Plus4(pc)
  {
  }

  /** Adding the immediate as a signed or as an unsigned 64-bit word is the same modulo 2^64. */
  lemma PcPlus(pc: U64, f: Fields)
    ensures PlusImm(pc, f) == U64Of(pc + Imm(f))
  {
    SextOfU32(f.imm);
    AddMod(pc, pc, I32Of(f.imm), Imm(f), 0x1_0000_0000_0000_0000);
  }

  lemma RegPlus(x: I64, f: Fields)
    ensures PlusImm(x, f) == U64Of(U64Of(x) + Imm(f))
  {
    SextOfU32(f.imm);
    AddMod(x, U64Of(x), I32Of(f.imm), Imm(f), 0x1_0000_0000_0000_0000);
  }

  lemma UpperWord(pc: U64, f: Fields)
    ensures U64Of(I32Of(f.imm)) == Imm(f) && U64Of(I64Of(PlusImm(pc, f))) == U64Of(pc + Imm(f))
  {
    SextOfU32(f.imm);
    PcPlus(pc, f);
    WordRoundTrip(PlusImm(pc, f));
  }

  lemma ClearLowest(t: U64)
    ensures And(t, Not64(1)) == t - t % 2
  {
    Pow2Values();
    assert Not64(1) == Pow2(64) - Pow2(1);
    LowSmall(t, 64);
    AndHigh(t, 1, 64);
    assert Low(t, 1) == t % 2;
  }

  // ----- they are the architectural ones -----

  lemma RegsRefine(regs: seq<I64>, pc: U64, n: IName, f: Fields, s: State)
    requires |regs| == 32 && RegisterFields(f) && IsCompute(n) && s.Valid() && s.x == Unsigned(regs) && s.hart.pc == pc
    ensures Unsigned(CodeRegs(regs, pc, n, f)) == NextX(s, n, f)
  {
    if IsRegOp(n) {
      OpRefinesIsa(n, regs[f.rs1], regs[f.rs2]);
      StoredUnsigned(regs, f.rd, OpResult(n, regs[f.rs1], regs[f.rs2]));
    } else if IsImmOp(n) {
      OpImmRefinesIsa(n, regs[f.rs1], f.imm);
      StoredUnsigned(regs, f.rd, OpImmResult(n, regs[f.rs1], f.imm));
    } else {
      UpperWord(pc, f);
      LinkWord(pc);
      StoredUnsigned(regs, f.rd, Link(pc));
      StoredUnsigned(regs, f.rd, UpperResult(n, pc, f));
    }
  }

  lemma PcRefines(regs: seq<I64>, pc: U64, n: IName, f: Fields, s: State)
    requires |regs| == 32 && RegisterFields(f) && s.Valid() && s.x == Unsigned(regs) && s.hart.pc == pc
    ensures Plus4(CodePc(regs, pc, n, f)) == NextPc(s, n, f)
  {
    if IsBranch(n) {
      BranchPcRefines(regs, pc, n, f, s);
    } else if n == JALR {
      JalrRefines(regs[f.rs1], f);
    } else if n == JAL {
      RelativePc(pc, f);
    }
  }

  lemma BranchPcRefines(regs: seq<I64>, pc: U64, n: IName, f: Fields, s: State)
    requires |regs| == 32 && RegisterFields(f) && s.Valid() && s.x == Unsigned(regs) && s.hart.pc == pc && IsBranch(n)
    ensures Plus4(CodePc(regs, pc, n, f)) == NextPc(s, n, f)
  {
    BranchWords(n, regs[f.rs1], regs[f.rs2]);
    if BranchCondition(n, regs[f.rs1], regs[f.rs2]) {
      assert CodePc(regs, pc, n, f) == Minus4(PlusImm(pc, f));
      assert NextPc(s, n, f) == U64Of(pc + Imm(f));
      RelativePc(pc, f);
    } else {
      assert NextPc(s, n, f) == Plus4(pc);
    }
  }

  lemma Advance(u: U64)
    ensures Plus4(Minus4(u)) == u
  {
    MinusPlus(u);
  }

  lemma RelativePc(pc: U64, f: Fields)
    ensures Plus4(Minus4(PlusImm(pc, f))) == U64Of(pc + Imm(f))
  {
    PcPlus(pc, f);
    Advance(PlusImm(pc, f));
  }

  lemma JalrRefines(x: I64, f: Fields)
    ensures Plus4(JalrPc(x, f)) == JalrTarget(U64Of(x), Imm(f))
  {
    var t := PlusImm(x, f);
    RegPlus(x, f);
    assert JalrTarget(U64Of(x), Imm(f)) == t - t % 2;
    ClearLowest(t);
    Advance(And(t, Not64(1)));
  }

  lemma CsrsRefine(regs: seq<I64>, n: IName, f: Fields, s: State)
    requires |regs| == 32 && RegisterFields(f) && s.Valid() && s.x == Unsigned(regs)
    ensures CodeCsrs(regs, s.hart.csrs, n, f) == NextCsrs(s, n, f)
  {
    DivisorWord(n, regs[f.rs1], regs[f.rs2]);
    assert Pow2(3) == 8;
  }

  // ----- loads, stores and atomics -----

  /** The registers after LBU, LHU, LWU or LD; a fault leaves rd alone. */
  ghost function UnsignedLoadRegs(regs: seq<I64>, m: Mem, w: nat, f: Fields): (r: seq<I64>)
    requires |regs| == 32 && RegisterFields(f) && m.Valid() && m.InRam(PlusImm(regs[f.rs1], f), w)
    ensures |r| == 32
  {
    var a := PlusImm(regs[f.rs1], f);
    if Status(m, a, w) == Normal then Stored(regs, f.rd, I64Of(Le(Bytes(m, a, w)))) else regs
  }

  /** The registers after LB, LH or LW, which extend whatever rd then holds. */
  ghost function SignedLoadRegs(regs: seq<I64>, m: Mem, w: nat, f: Fields): (r: seq<I64>)
    requires |regs| == 32 && RegisterFields(f) && m.Valid() && m.InRam(PlusImm(regs[f.rs1], f), w)
    ensures |r| == 32
  {
    var r := UnsignedLoadRegs(regs, m, w, f);
    Stored(r, f.rd, SignPart(w, r[f.rd]))
  }

  /** `x & mask` for the low `w` bytes. */
  function LowBytes(x: U64, w: nat): U64 {
    if w == 1 then And(x, 0xFF) else if w == 2 then And(x, 0xFFFF) else if w == 4 then And(x, 0xFFFF_FFFF) else x
  }

  function SignPart(w: nat, x: I64): I64 {
    var u := LowBytes(U64Of(x), w);
    if w == 1 then I8Of(u) else if w == 2 then I16Of(u) else I32Of(u)
  }

  lemma LowBytesIsLow(x: U64, w: nat)
    requires w in {1, 2, 4, 8}
    ensures LowBytes(x, w) == Low(x, 8 * w)
  {
    Pow2Values();
    if w == 8 { LowSmall(x, 64); } else { AndLow(x, 8 * w); }
  }

  lemma LowBytesIsMod(x: U64)
    ensures LowBytes(x, 1) == x % 0x100 && LowBytes(x, 2) == x % 0x1_0000 && LowBytes(x, 4) == U32Of(x)
  {
    LowBytesIsLow(x, 1); LowBytesIsLow(x, 2); LowBytesIsLow(x, 4);
    LowIsMod(x, 8); LowIsMod(x, 16); LowIsMod(x, 32);
    Pow2Values();
  }

  lemma SignPartWord(n: IName, x: I64)
    requires IsSignedLoad(n)
    ensures U64Of(SignPart(Width(n), x)) == Extend(n, U64Of(x))
  {
    var u := U64Of(x);
    LowBytesIsMod(u);
    NarrowTwice(u);
  }

  lemma NarrowTwice(u: int)
    ensures I8Of(u % 0x100) == I8Of(u) && I16Of(u % 0x1_0000) == I16Of(u) && I32Of(U32Of(u)) == I32Of(u)
  {
  }

  lemma LoadRegsRefine(regs: seq<I64>, n: IName, f: Fields, s: State)
    requires |regs| == 32 && RegisterFields(f) && s.Valid() && s.x == Unsigned(regs)
    requires IsLoad(n) && s.mem.InRam(PlusImm(regs[f.rs1], f), Width(n)) && Addressable(s, n, f)
    ensures PlusImm(regs[f.rs1], f) == Address(s, n, f)
    ensures IsUnsignedLoad(n) && Access(s, n, f) == Normal ==>
      Unsigned(UnsignedLoadRegs(regs, s.mem, Width(n), f)) == WriteX(s.x, f.rd, Loaded(s, n, f))
    ensures IsUnsignedLoad(n) && Access(s, n, f) != Normal ==> UnsignedLoadRegs(regs, s.mem, Width(n), f) == regs
    ensures IsSignedLoad(n) ==> Unsigned(SignedLoadRegs(regs, s.mem, Width(n), f)) == WriteX(s.x, f.rd, Loaded(s, n, f))
  {
    RegPlus(regs[f.rs1], f);
    var v := Held(s, n, f);
    WordRoundTrip(v);
    var r := UnsignedLoadRegs(regs, s.mem, Width(n), f);
    StoredUnsigned(regs, f.rd, I64Of(v));
    if IsSignedLoad(n) {
      SignPartWord(n, r[f.rd]);
      StoredUnsigned(r, f.rd, SignPart(Width(n), r[f.rd]));
    }
  }

  /** A masked datum has the same low bytes. */
  lemma {:induction false} LeBytesOfLow(d: nat, n: nat)
    ensures LeBytes(Low(d, 8 * n), n) == LeBytes(d, n)
    decreases n
  {
    if n != 0 {
      LowByte(d, 8 * (n - 1));
      LeBytesOfLow(d / 256, n - 1);
      SplitByte(d % 256, Low(d / 256, 8 * (n - 1)), Low(d, 8 * n));
    }
  }

  lemma SplitByte(b: Byte, h: int, x: int)
    requires x == b + 256 * h
    ensures x % 256 == b && x / 256 == h
  {
  }

  lemma StoreMasked(m: Mem, a: int, d: U64, w: nat)
    requires w in {1, 2, 4, 8} && m.Valid() && m.InRam(a, w) && Writable(m, a, w)
    ensures Store(m, a, LowBytes(d, w), w) == Store(m, a, d, w)
  {
    LowBytesIsLow(d, w);
    LeBytesOfLow(d, w);
  }

  lemma StoreRefines(regs: seq<I64>, n: IName, f: Fields, s: State)
    requires |regs| == 32 && RegisterFields(f) && s.Valid() && s.x == Unsigned(regs) && IsStore(n)
    requires Addressable(s, n, f) && Writable(s.mem, Address(s, n, f), Width(n))
    ensures PlusImm(regs[f.rs1], f) == Address(s, n, f)
    ensures Store(s.mem, Address(s, n, f), LowBytes(U64Of(regs[f.rs2]), Width(n)), Width(n))
         == Store(s.mem, Address(s, n, f), s.x[f.rs2], Width(n))
  {
    RegPlus(regs[f.rs1], f);
    StoreMasked(s.mem, Address(s, n, f), s.x[f.rs2], Width(n));
  }

  /** The address and the masked datum of a store are good for the MMU, and lead to the step's memory. */
  lemma StorePlan(regs: seq<I64>, n: IName, f: Fields, s: State, a: U64, d: U64)
    requires |regs| == 32 && RegisterFields(f) && s.Valid() && s.x == Unsigned(regs) && IsStore(n) && Permitted(s, n, f)
    requires a == PlusImm(regs[f.rs1], f) && d == LowBytes(U64Of(regs[f.rs2]), Width(n))
    ensures s.mem.InRam(a, Width(n)) && Writable(s.mem, a, Width(n)) && Store(s.mem, a, d, Width(n)) == NextMem(s, n, f)
  {
    assert Stores(s, n, f) && !IsAtomic(n);
    StoreRefines(regs, n, f, s);
  }

  /** What the atomic methods give to the store. */
  function AmoDatum(n: IName, v: U64, y: I64): U64
    requires IsAmo(n) && (IsAmoW(n) ==> v < 0x1_0000_0000)
  {
    if IsAmoW(n) then AmoWResult(n, v, y) else AmoDResult(n, v, y)
  }

  /** What the atomic methods give to rd. */
  function AmoOld(n: IName, v: U64): I64 { if IsAmoW(n) then I32Of(v) else I64Of(v) }

  lemma AmoStoreRefines(regs: seq<I64>, n: IName, f: Fields, s: State)
    requires |regs| == 32 && RegisterFields(f) && s.Valid() && s.x == Unsigned(regs) && IsAmo(n)
    requires Addressable(s, n, f) && !Misaligned(s, n, f) && Writable(s.mem, Address(s, n, f), Width(n))
    ensures Store(s.mem, Address(s, n, f), AmoDatum(n, Held(s, n, f), regs[f.rs2]), Width(n))
         == Store(s.mem, Address(s, n, f), Datum(s, n, f), Width(n))
  {
    var v, y := Held(s, n, f), regs[f.rs2];
    if IsAmoW(n) {
      AmoWRefines(n, v, y);
      Low32(y);
      SameLowWord(AmoDatum(n, v, y), Datum(s, n, f));
    } else {
      AmoDRefines(n, v, y);
    }
  }

  lemma SameLowWord(d: U64, e: U32)
    requires U32Of(d) == e
    ensures LeBytes(d, 4) == LeBytes(e, 4)
  {
    LowIsMod(d, 32);
    Pow2Values();
    LeBytesOfLow(d, 4);
  }

  lemma AmoRegsRefine(regs: seq<I64>, n: IName, f: Fields, s: State)
    requires |regs| == 32 && RegisterFields(f) && s.Valid() && s.x == Unsigned(regs) && IsAmo(n)
    requires Addressable(s, n, f) && !Misaligned(s, n, f)
    ensures Unsigned(Stored(regs, f.rd, AmoOld(n, Held(s, n, f)))) == WriteX(s.x, f.rd, Loaded(s, n, f))
  {
    WordRoundTrip(Held(s, n, f));
    StoredUnsigned(regs, f.rd, AmoOld(n, Held(s, n, f)));
  }

  // ----- the effects of the instruction methods -----

  function Finished(h: Hart, e: Exception): Hart
    requires h.Valid()
  {
    if e == NormalReturn then Arrive(h) else if Fatal(e) then Trap(h, Code(e)) else Arrive(Trap(h, Code(e)))
  }

  /** After a method's effect, the trap if it raised one, and four added to pc unless it was fatal, the step is
      done. */
  lemma EffectThenAdvance(s: State, n: IName, f: Fields, e: Exception, t: State)
    requires s.Valid() && RegisterFields(f) && Permitted(s, n, f) && Effect(s, n, f, e, t) && t.hart.Valid()
    ensures t.(hart := Finished(t.hart, e)) == Outcome(s, n, f)
  {
  }

  /** A return changes neither registers nor memory. */
  lemma ReturnPlain(s: State, n: IName, f: Fields)
    requires s.Valid() && RegisterFields(f) && Permitted(s, n, f) && (n == MRET || n == SRET)
    ensures Raised(s, n, f) == NormalReturn && StepX(s, n, f) == s.x && NextMem(s, n, f) == s.mem
  {
  }

  lemma ReturnHart(s: State, n: IName, f: Fields)
    requires s.Valid() && RegisterFields(f) && (n == MRET || n == SRET) && (n == MRET ==> Mret(s.hart).Returned?)
    ensures n == MRET ==> NormalHart(s, n, f) == Arrive(Mret(s.hart).h)
    ensures n == SRET ==> NormalHart(s, n, f) == Arrive(Sret(s.hart))
  {
  }

  lemma ReturnEffect(s: State, n: IName, f: Fields, h: Hart)
    requires s.Valid() && RegisterFields(f) && Permitted(s, n, f) && (n == MRET || n == SRET)
    requires Arrive(h) == NormalHart(s, n, f)
    ensures Effect(s, n, f, NormalReturn, s.(hart := h))
  {
    ReturnPlain(s, n, f);
  }

  lemma CsrEffect(regs: seq<I64>, n: IName, f: Fields, s: State, t: State)
    requires |regs| == 32 && s.Valid() && RegisterFields(f) && Permitted(s, n, f) && IsCsr(n) && s.x == Unsigned(regs)
    requires t.hart == Hart(s.hart.mode, s.hart.pc, CsrsWritten(s, n, f)) && t.mem == s.mem
    requires t.x == Unsigned(Stored(regs, f.rd, I64Of(LoadCsr(s.hart.csrs, CsrIndex(f)))))
    ensures Effect(s, n, f, NormalReturn, t)
  {
    WordRoundTrip(LoadCsr(s.hart.csrs, CsrIndex(f)));
    StoredUnsigned(regs, f.rd, I64Of(LoadCsr(s.hart.csrs, CsrIndex(f))));
    assert !IsCompute(n) && !Stores(s, n, f);
  }

  lemma LrEffect(regs: seq<I64>, n: IName, f: Fields, s: State, t: State)
    requires |regs| == 32 && s.Valid() && RegisterFields(f) && Permitted(s, n, f) && IsLr(n) && s.x == Unsigned(regs)
    requires t.hart == s.hart && t.mem == s.mem && Raised(s, n, f) == NormalReturn && !Misaligned(s, n, f)
    requires t.x == Unsigned(Stored(regs, f.rd, I64Of(Held(s, n, f))))
    ensures Effect(s, n, f, NormalReturn, t)
  {
    WordRoundTrip(Held(s, n, f));
    StoredUnsigned(regs, f.rd, I64Of(Held(s, n, f)));
    assert !IsCompute(n) && !Stores(s, n, f);
  }

  lemma ScEffect(regs: seq<I64>, n: IName, f: Fields, s: State, t: State)
    requires |regs| == 32 && s.Valid() && RegisterFields(f) && Permitted(s, n, f) && IsSc(n) && s.x == Unsigned(regs)
    requires t.hart == s.hart && !Misaligned(s, n, f) && t.x == Unsigned(Stored(regs, f.rd, 0))
    requires t.mem == Store(s.mem, Address(s, n, f), s.x[f.rs2], Width(n))
    ensures Effect(s, n, f, NormalReturn, t)
  {
    StoredUnsigned(regs, f.rd, 0);
    assert !IsCompute(n) && Stores(s, n, f);
  }

  lemma ExceptionEffect(s: State, n: IName, f: Fields)
    requires s.Valid() && RegisterFields(f) && Permitted(s, n, f) && Raised(s, n, f) != NormalReturn
    ensures Effect(s, n, f, Raised(s, n, f), s)
  {
  }

  lemma LoadEffect(s: State, n: IName, f: Fields, t: State)
    requires s.Valid() && RegisterFields(f) && Permitted(s, n, f) && IsLoad(n)
    requires t.hart == s.hart && t.mem == s.mem
    requires t.x == if Raised(s, n, f) == NormalReturn then WriteX(s.x, f.rd, Loaded(s, n, f)) else s.x
    ensures Effect(s, n, f, Raised(s, n, f), t)
  {
    assert !IsCompute(n) && !Stores(s, n, f);
  }

  lemma LoadAddress(regs: seq<I64>, n: IName, f: Fields, s: State)
    requires |regs| == 32 && RegisterFields(f) && s.Valid() && s.x == Unsigned(regs)
    requires IsLoad(n) && Addressable(s, n, f)
    ensures PlusImm(regs[f.rs1], f) == Address(s, n, f) && s.mem.InRam(PlusImm(regs[f.rs1], f), Width(n))
  {
    RegPlus(regs[f.rs1], f);
  }

  lemma UnsignedLoadEffect(regs: seq<I64>, n: IName, f: Fields, s: State, t: State)
    requires |regs| == 32 && RegisterFields(f) && s.Valid() && s.x == Unsigned(regs)
    requires IsUnsignedLoad(n) && Permitted(s, n, f) && s.mem.InRam(PlusImm(regs[f.rs1], f), Width(n))
    requires t.hart == s.hart && t.mem == s.mem && t.x == Unsigned(UnsignedLoadRegs(regs, s.mem, Width(n), f))
    ensures Effect(s, n, f, OfStatus(Status(s.mem, PlusImm(regs[f.rs1], f), Width(n))), t)
  {
    LoadRegsRefine(regs, n, f, s);
    LoadEffect(s, n, f, t);
  }

  lemma SignedLoadEffect(regs: seq<I64>, n: IName, f: Fields, s: State, t: State)
    requires |regs| == 32 && RegisterFields(f) && s.Valid() && s.x == Unsigned(regs)
    requires IsSignedLoad(n) && Permitted(s, n, f) && s.mem.InRam(PlusImm(regs[f.rs1], f), Width(n))
    requires t.hart == s.hart && t.mem == s.mem && t.x == Unsigned(SignedLoadRegs(regs, s.mem, Width(n), f))
    ensures Effect(s, n, f, NormalReturn, t)
  {
    LoadRegsRefine(regs, n, f, s);
    LoadEffect(s, n, f, t);
  }

  lemma StoreEffect(s: State, n: IName, f: Fields, t: State)
    requires s.Valid() && RegisterFields(f) && Permitted(s, n, f) && IsStore(n)
    requires t.hart == s.hart && t.x == s.x
    requires t.mem == NextMem(s, n, f)
    ensures Effect(s, n, f, NormalReturn, t)
  {
    assert !IsCompute(n) && !IsCsr(n) && !IsAtomic(n) && !IsLoad(n);
    assert Raised(s, n, f) == NormalReturn;
    assert StepX(s, n, f) == s.x && NormalHart(s, n, f) == Arrive(s.hart);
  }

  lemma AmoEffect(s: State, n: IName, f: Fields, t: State)
    requires s.Valid() && RegisterFields(f) && Permitted(s, n, f) && IsAmo(n) && Raised(s, n, f) == NormalReturn
    requires t.hart == s.hart && t.x == WriteX(s.x, f.rd, Loaded(s, n, f))
    requires t.mem == Store(s.mem, Address(s, n, f), Datum(s, n, f), Width(n))
    ensures Effect(s, n, f, NormalReturn, t)
  {
    assert !IsCompute(n) && Stores(s, n, f);
  }
}
