/** What each computing instruction does in a step, mnemonic by mnemonic and in plain arithmetic. */
module ComputeLaws {
  import opened Bits
  import opened Words
  import opened Names
  import opened Alu
  import opened DecodeTables
  import opened Memory
  import opened Privileged
  import opened Isa

  function Signed(a: U64): int { if a < 0x8000_0000_0000_0000 then a else a - 0x1_0000_0000_0000_0000 }

  /** The lower half of a number, read as a signed 32-bit number. */
  function SignedLow(a: int): int {
    var u := a % 0x1_0000_0000;
    if u < 0x8000_0000 then u else u - 0x1_0000_0000
  }

  /** The signed immediate. */
  function Offset(f: Fields): int { if f.imm < 0x8000_0000 then f.imm else f.imm - 0x1_0000_0000 }

  // ----- results -----

  lemma AddLaw(a: U64, b: U64)
    ensures IsaOp(ADD, a, b) == (a + b) % 0x1_0000_0000_0000_0000
  {
  }

  lemma SubLaw(a: U64, b: U64)
    ensures IsaOp(SUB, a, b) == (a - b) % 0x1_0000_0000_0000_0000
  {
  }

  lemma SltLaw(a: U64, b: U64)
    ensures IsaOp(SLT, a, b) == (if Signed(a) < Signed(b) then 1 else 0)
  {
    SignedReading(a); SignedReading(b);
  }

  lemma SltuLaw(a: U64, b: U64)
    ensures IsaOp(SLTU, a, b) == (if a < b then 1 else 0)
  {
  }

  lemma SignedReading(a: U64)
    ensures I64Of(a) == Signed(a)
  {
  }

  lemma BitwiseLaw(a: U64, b: U64, j: nat)
    ensures Bit(IsaOp(XOR, a, b), j) <==> Bit(a, j) != Bit(b, j)
    ensures Bit(IsaOp(OR, a, b), j) <==> Bit(a, j) || Bit(b, j)
    ensures Bit(IsaOp(AND, a, b), j) <==> Bit(a, j) && Bit(b, j)
  {
    XorBit(a, b, j);
    OrBit(a, b, j);
    AndBit(a, b, j);
  }

  lemma SllLaw(a: U64, b: U64)
    ensures IsaOp(SLL, a, b) == a * Pow2(b % 64) % 0x1_0000_0000_0000_0000
  {
    assert IsaOp(SLL, a, b) == IsaSll(a, b);
  }

  lemma SrlLaw(a: U64, b: U64)
    ensures IsaOp(SRL, a, b) == a / Pow2(b % 64)
  {
    assert IsaOp(SRL, a, b) == IsaSrl(a, b);
  }

  lemma SraLaw(a: U64, b: U64)
    ensures IsaOp(SRA, a, b) == Signed(a) / Pow2(b % 64) % 0x1_0000_0000_0000_0000
  {
    SignedReading(a);
    assert IsaOp(SRA, a, b) == IsaSra(a, b);
  }

  lemma WordLaw(a: U64, b: U64)
    ensures IsaOp(ADDW, a, b) == SignedLow(a + b) % 0x1_0000_0000_0000_0000
    ensures IsaOp(SUBW, a, b) == SignedLow(a - b) % 0x1_0000_0000_0000_0000
  {
  }

  lemma SllwLaw(a: U64, b: U64)
    ensures IsaOp(SLLW, a, b) == SignedLow(a * Pow2(b % 32)) % 0x1_0000_0000_0000_0000
  {
    assert IsaOp(SLLW, a, b) == IsaSllw(a, b);
    SignedWord(a * Pow2(b % 32));
  }

  lemma SrlwLaw(a: U64, b: U64)
    ensures IsaOp(SRLW, a, b) == SignedLow(a % 0x1_0000_0000 / Pow2(b % 32)) % 0x1_0000_0000_0000_0000
  {
    assert IsaOp(SRLW, a, b) == IsaSrlw(a, b);
    SrlwValue(a % 0x1_0000_0000, Pow2(b % 32));
  }

  lemma SrlwValue(u: U32, p: nat)
    requires p > 0
    ensures 0 <= u / p < 0x1_0000_0000 && Sext32(u / p) == SignedLow(u / p) % 0x1_0000_0000_0000_0000
  {
    DivAtMost(u, p);
    SignedWord(u / p);
  }

  lemma SrawLaw(a: U64, b: U64)
    ensures IsaOp(SRAW, a, b) == SignedLow(a) / Pow2(b % 32) % 0x1_0000_0000_0000_0000
  {
    assert IsaOp(SRAW, a, b) == IsaSraw(a, b);
    SignedWord(a);
  }

  lemma SignedWord(x: int)
    ensures Sext32(U32Of(x)) == SignedLow(x) % 0x1_0000_0000_0000_0000 && I32Of(x) == SignedLow(x)
  {
  }

  // ----- steps -----

  /** rd receives `v`, pc becomes `pc`, and nothing else changes. */
  predicate Results(s: State, r: State, rd: int, v: int, pc: int) {
    && |s.x| == 32 && 0 <= rd < 32 && 0 <= v < 0x1_0000_0000_0000_0000 && 0 <= pc < 0x1_0000_0000_0000_0000
    && r.mem == s.mem && r.x == (if rd == 0 then s.x else s.x[rd := v])
    && r.hart == Hart(s.hart.mode, pc, s.hart.csrs)
  }

  function Next(s: State): int { (s.hart.pc + 4) % 0x1_0000_0000_0000_0000 }

  lemma ComputeStep(s: State, n: IName, f: Fields)
    requires s.Valid() && RegisterFields(f) && IsCompute(n)
    ensures Permitted(s, n, f)
    ensures Outcome(s, n, f) == State(NextX(s, n, f), Hart(s.hart.mode, NextPc(s, n, f), NextCsrs(s, n, f)), s.mem)
  {
    assert !IsMemory(n) && !IsSystem(n) && !IsCsr(n);
    assert Raised(s, n, f) == NormalReturn && !Stores(s, n, f);
  }

  /** A register-register instruction other than a division by zero. */
  lemma RegisterLaw(s: State, n: IName, f: Fields)
    requires s.Valid() && RegisterFields(f) && IsRegOp(n)
    requires n in {DIV, DIVU} ==> s.x[f.rs2] != 0
    requires n in {DIVW, DIVUW} ==> s.x[f.rs2] % 0x1_0000_0000 != 0
    ensures Permitted(s, n, f)
    ensures Results(s, Outcome(s, n, f), f.rd, IsaOp(n, s.x[f.rs1], s.x[f.rs2]), Next(s))
  {
    ComputeStep(s, n, f);
  }

  /** A division by zero also sets digit 3 of CSR 1. */
  lemma DivideByZeroLaw(s: State, n: IName, f: Fields)
    requires s.Valid() && RegisterFields(f)
    requires (n in {DIV, DIVU} && s.x[f.rs2] == 0) || (n in {DIVW, DIVUW} && s.x[f.rs2] % 0x1_0000_0000 == 0)
    ensures Permitted(s, n, f)
    ensures var r := Outcome(s, n, f);
      && r.mem == s.mem && r.hart.mode == s.hart.mode && r.hart.pc == Next(s)
      && r.x == (if f.rd == 0 then s.x else s.x[f.rd := IsaOp(n, s.x[f.rs1], s.x[f.rs2])])
      && (forall a :: 0 <= a < 4096 && a != 1 ==> r.hart.csrs[a] == s.hart.csrs[a])
      && forall j: nat :: Bit(r.hart.csrs[1], j) <==> j == 3 || Bit(s.hart.csrs[1], j)
  {
    ComputeStep(s, n, f);
    SetBits(s.hart.csrs[1], 3);
  }

  predicate ImmediateOf(n: IName, m: IName) {
    || (n == ADDI && m == ADD) || (n == ADDIW && m == ADDW) || (n == SLTI && m == SLT) || (n == SLTIU && m == SLTU)
    || (n == XORI && m == XOR) || (n == ORI && m == OR) || (n == ANDI && m == AND)
    || (n == SLLI && m == SLL) || (n == SRLI && m == SRL) || (n == SRAI && m == SRA)
    || (n == SLLIW && m == SLLW) || (n == SRLIW && m == SRLW) || (n == SRAIW && m == SRAW)
  }

  lemma ImmediateForm(n: IName, m: IName)
    requires ImmediateOf(n, m)
    ensures IsImmOp(n) && RegForm(n) == m && IsRegOp(m)
  {
  }

  /** An immediate instruction computes its register form on the immediate as a 64-bit word. */
  lemma ImmediateLaw(s: State, n: IName, f: Fields, m: IName, b: U64)
    requires s.Valid() && RegisterFields(f) && ImmediateOf(n, m) && b == Offset(f) % 0x1_0000_0000_0000_0000
    ensures Permitted(s, n, f) && IsRegOp(m)
    ensures Results(s, Outcome(s, n, f), f.rd, IsaOp(m, s.x[f.rs1], b), Next(s))
  {
    ImmediateForm(n, m);
    ImmediateStep(s, n, f, m);
    ImmediateWord(f);
  }

  lemma ImmediateWord(f: Fields)
    ensures Imm(f) == Offset(f) % 0x1_0000_0000_0000_0000
  {
  }

  lemma ImmediateStep(s: State, n: IName, f: Fields, m: IName)
    requires s.Valid() && RegisterFields(f) && IsImmOp(n) && RegForm(n) == m
    ensures Permitted(s, n, f)
    ensures Results(s, Outcome(s, n, f), f.rd, IsaOp(m, s.x[f.rs1], Imm(f)), Next(s))
  {
    ComputeStep(s, n, f);
    assert !IsRegOp(n) && !IsBranch(n);
  }

  lemma TargetLaw(x: U64, f: Fields)
    ensures U64Of(x + Imm(f)) == (x + Offset(f)) % 0x1_0000_0000_0000_0000
  {
  }

  lemma LuiLaw(s: State, f: Fields)
    requires s.Valid() && RegisterFields(f)
    ensures Permitted(s, LUI, f)
    ensures Results(s, Outcome(s, LUI, f), f.rd, Offset(f) % 0x1_0000_0000_0000_0000, Next(s))
  {
    ComputeStep(s, LUI, f);
  }

  lemma AuipcLaw(s: State, f: Fields)
    requires s.Valid() && RegisterFields(f)
    ensures Permitted(s, AUIPC, f)
    ensures Results(s, Outcome(s, AUIPC, f), f.rd, (s.hart.pc + Offset(f)) % 0x1_0000_0000_0000_0000, Next(s))
  {
    ComputeStep(s, AUIPC, f);
    TargetLaw(s.hart.pc, f);
  }

  /** JAL links the next address and goes to pc plus its offset. */
  lemma JalLaw(s: State, f: Fields)
    requires s.Valid() && RegisterFields(f)
    ensures Permitted(s, JAL, f)
    ensures Results(s, Outcome(s, JAL, f), f.rd, Next(s), (s.hart.pc + Offset(f)) % 0x1_0000_0000_0000_0000)
  {
    ComputeStep(s, JAL, f);
    TargetLaw(s.hart.pc, f);
  }

  /** JALR goes to rs1 plus its offset, made even; rs1 is read before rd is written. */
  lemma JalrLaw(s: State, f: Fields, t: U64)
    requires s.Valid() && RegisterFields(f) && t == (s.x[f.rs1] + Offset(f)) % 0x1_0000_0000_0000_0000
    ensures Permitted(s, JALR, f)
    ensures Results(s, Outcome(s, JALR, f), f.rd, Next(s), t - t % 2)
  {
    EvenTarget(s.x[f.rs1], f, t);
    JalrStep(s, JALR, f, t - t % 2);
  }

  lemma JalrStep(s: State, n: IName, f: Fields, target: U64)
    requires s.Valid() && RegisterFields(f) && n == JALR && target == JalrTarget(s.x[f.rs1], Imm(f))
    ensures Permitted(s, n, f)
    ensures Results(s, Outcome(s, n, f), f.rd, Next(s), target)
  {
    ComputeStep(s, n, f);
    assert NextPc(s, n, f) == target;
    assert NextX(s, n, f) == WriteX(s.x, f.rd, Plus4(s.hart.pc));
    assert NextCsrs(s, n, f) == s.hart.csrs;
  }

  lemma EvenTarget(x: U64, f: Fields, t: U64)
    requires t == (x + Offset(f)) % 0x1_0000_0000_0000_0000
    ensures JalrTarget(x, Imm(f)) == t - t % 2
  {
    TargetLaw(x, f);
  }

  /** The comparisons of the six branches. */
  predicate Taken(n: IName, a: U64, b: U64) {
    || (n == BEQ && a == b) || (n == BNE && a != b)
    || (n == BLT && Signed(a) < Signed(b)) || (n == BGE && Signed(a) >= Signed(b))
    || (n == BLTU && a < b) || (n == BGEU && a >= b)
  }

  lemma TakenLaw(n: IName, a: U64, b: U64)
    requires n in {BEQ, BNE, BLT, BGE, BLTU, BGEU}
    ensures IsBranch(n) && (BranchTaken(n, a, b) <==> Taken(n, a, b))
  {
    SignedReading(a); SignedReading(b);
  }

  /** A branch goes to pc plus its offset if its comparison holds, and otherwise on. */
  lemma BranchLaw(s: State, n: IName, f: Fields, target: U64)
    requires s.Valid() && RegisterFields(f) && n in {BEQ, BNE, BLT, BGE, BLTU, BGEU}
    requires target == (s.hart.pc + Offset(f)) % 0x1_0000_0000_0000_0000
    ensures Permitted(s, n, f)
    ensures Results(s, Outcome(s, n, f), 0, 0, if Taken(n, s.x[f.rs1], s.x[f.rs2]) then target else Next(s))
  {
    TakenLaw(n, s.x[f.rs1], s.x[f.rs2]);
    TargetLaw(s.hart.pc, f);
    BranchStep(s, n, f, target);
  }

  lemma BranchStep(s: State, n: IName, f: Fields, target: U64)
    requires s.Valid() && RegisterFields(f) && IsBranch(n) && target == U64Of(s.hart.pc + Imm(f))
    ensures Permitted(s, n, f)
    ensures Results(s, Outcome(s, n, f), 0, 0, if BranchTaken(n, s.x[f.rs1], s.x[f.rs2]) then target else Next(s))
  {
    ComputeStep(s, n, f);
    assert !IsRegOp(n) && !IsImmOp(n) && !DividesByZero(n, s.x[f.rs2]);
    if BranchTaken(n, s.x[f.rs1], s.x[f.rs2]) { assert NextPc(s, n, f) == target; }
    else { assert NextPc(s, n, f) == Plus4(s.hart.pc); }
  }

  lemma FenceLaw(s: State, n: IName, f: Fields)
    requires s.Valid() && RegisterFields(f) && (n == FENCE || n == FENCEI)
    ensures Permitted(s, n, f) && Results(s, Outcome(s, n, f), 0, 0, Next(s))
  {
    ComputeStep(s, n, f);
  }
}
