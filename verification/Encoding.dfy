/** Instruction encodings of sections 2.2 and 2.3 of the Unprivileged ISA, and the round trip
    through the decoder. */
module Encoding {
  import opened Names
  import opened Words
  import opened DecodeTables

  /** An instruction by format: its name, its operation codes and its operands. `f7` of an atomic carries the
      ordering bits aq and rl, `imm` of a shift its funct6 or funct7; branch and jump offsets count from
      digit 0, which must be clear. */
  datatype Asm =
    | RegReg(n: IName, f7: bv7, f3: bv3, op: bv7, rd: bv5, rs1: bv5, rs2: bv5)
    | Immed(n: IName, f3: bv3, op: bv7, rd: bv5, rs1: bv5, imm: bv12)
    | Store(n: IName, f3: bv3, op: bv7, rs1: bv5, rs2: bv5, imm: bv12)
    | Branch(n: IName, f3: bv3, op: bv7, rs1: bv5, rs2: bv5, offset: bv13)
    | Upper(n: IName, op: bv7, rd: bv5, imm20: bv20)
    | Jump(n: IName, op: bv7, rd: bv5, target: bv21)

  /** The operation codes are those of the name's rows. */
  predicate WellFormed(a: Asm) {
    match a
    case RegReg(n, f7, f3, op, _, _, _) =>
      && RFunct3(n) == f3 as int && ROpcode(n) == op as int && op != 0x53
      && (RFunct7(n) == f7 as int || (op == 0x2F && RFunct7(n) == ClearLow2(f7 as int)))
    case Immed(n, f3, op, _, _, imm) =>
      && IFunct3(n) == f3 as int && IOpcode(n) == op as int
      && (if IsShift64(n) then IFunct6(n) == (imm >> 6) as bv6 as int
          else if IsShift32(n) then IFunct7(n) == (imm >> 5) as bv7 as int
          else (n == ECALL ==> imm == 0) && (n == EBREAK ==> imm == 1))
    case Store(n, f3, op, _, _, _) => SFunct3(n) == f3 as int && SOpcode(n) == op as int
    case Branch(n, f3, op, _, _, o) => BFunct3(n) == f3 as int && BOpcode(n) == op as int && o & 1 == 0
    case Upper(n, op, _, _) => UOpcode(n) == op as int
    case Jump(n, op, _, o) => JOpcode(n) == op as int && o & 1 == 0
  }

  // ----- packing -----

  function PackR(f7: bv7, rs2: bv5, rs1: bv5, f3: bv3, rd: bv5, op: bv7): bv32 {
    ((f7 as bv32) << 25) | ((rs2 as bv32) << 20) | ((rs1 as bv32) << 15)
    | ((f3 as bv32) << 12) | ((rd as bv32) << 7) | (op as bv32)
  }

  function PackI(imm: bv12, rs1: bv5, f3: bv3, rd: bv5, op: bv7): bv32 {
    ((imm as bv32) << 20) | ((rs1 as bv32) << 15) | ((f3 as bv32) << 12) | ((rd as bv32) << 7) | (op as bv32)
  }

  /** imm[11:5] goes above rs2, imm[4:0] in place of rd. */
  function PackS(imm: bv12, rs2: bv5, rs1: bv5, f3: bv3, op: bv7): bv32 {
    (((imm >> 5) as bv32) << 25) | ((rs2 as bv32) << 20) | ((rs1 as bv32) << 15)
    | ((f3 as bv32) << 12) | (((imm & 0x1F) as bv32) << 7) | (op as bv32)
  }

  /** imm[12|10:5] goes above rs2, imm[4:1|11] in place of rd. */
  function PackB(o: bv13, rs2: bv5, rs1: bv5, f3: bv3, op: bv7): bv32 {
    (((o >> 12) as bv32) << 31) | ((((o >> 5) & 0x3F) as bv32) << 25) | ((rs2 as bv32) << 20)
    | ((rs1 as bv32) << 15) | ((f3 as bv32) << 12) | ((((o >> 1) & 0xF) as bv32) << 8)
    | ((((o >> 11) & 1) as bv32) << 7) | (op as bv32)
  }

  function PackU(imm: bv20, rd: bv5, op: bv7): bv32 {
    ((imm as bv32) << 12) | ((rd as bv32) << 7) | (op as bv32)
  }

  /** imm[20|10:1|11|19:12]. */
  function PackJ(o: bv21, rd: bv5, op: bv7): bv32 {
    (((o >> 20) as bv32) << 31) | ((((o >> 1) & 0x3FF) as bv32) << 21) | ((((o >> 11) & 1) as bv32) << 20)
    | ((((o >> 12) & 0xFF) as bv32) << 12) | ((rd as bv32) << 7) | (op as bv32)
  }

  // ----- sign extension of immediates -----

  function Sext12(i: bv12): bv32 { if i & 0x800 != 0 then (i as bv32) | 0xFFFF_F000 else i as bv32 }
  function Sext13(i: bv13): bv32 { if i & 0x1000 != 0 then (i as bv32) | 0xFFFF_E000 else i as bv32 }
  function Sext21(i: bv21): bv32 { if i & 0x10_0000 != 0 then (i as bv32) | 0xFFE0_0000 else i as bv32 }

  // ----- unpacking what was packed -----

  lemma UnpackR(f7: bv7, rs2: bv5, rs1: bv5, f3: bv3, rd: bv5, op: bv7)
    ensures var w := PackR(f7, rs2, rs1, f3, rd, op);
      Funct7(w) == f7 && Rs2(w) == rs2 && Rs1(w) == rs1 && Funct3(w) == f3 && Rd(w) == rd && Opcode(w) == op
  {
  }

  /** The format with three source registers; the third loses its lowest digit. */
  function PackR4(rs3: bv5, f2: bv2, rs2: bv5, rs1: bv5, f3: bv3, rd: bv5, op: bv7): bv32 {
    ((rs3 as bv32) << 27) | ((f2 as bv32) << 25) | ((rs2 as bv32) << 20) | ((rs1 as bv32) << 15)
    | ((f3 as bv32) << 12) | ((rd as bv32) << 7) | (op as bv32)
  }

  lemma UnpackR4(rs3: bv5, f2: bv2, rs2: bv5, rs1: bv5, f3: bv3, rd: bv5, op: bv7)
    ensures var w := PackR4(rs3, f2, rs2, rs1, f3, rd, op);
      && Rs3(w) == rs3 & 0x1E && Funct2(w) == f2 && Rs2(w) == rs2 && Rs1(w) == rs1
      && Funct3(w) == f3 && Rd(w) == rd && Opcode(w) == op
  {
  }

  lemma UnpackI(imm: bv12, rs1: bv5, f3: bv3, rd: bv5, op: bv7)
    ensures var w := PackI(imm, rs1, f3, rd, op);
      && ImmI(w) == Sext12(imm) && Rs1(w) == rs1 && Funct3(w) == f3 && Rd(w) == rd && Opcode(w) == op
      && Funct7(w) == (imm >> 5) as bv7 && Funct6(w) == (imm >> 6) as bv6
      && Shamt64(w) == (imm & 0x3F) as bv6 && Shamt32(w) == (imm & 0x1F) as bv5
  {
  }

  lemma UnpackS(imm: bv12, rs2: bv5, rs1: bv5, f3: bv3, op: bv7)
    ensures var w := PackS(imm, rs2, rs1, f3, op);
      ImmS(w) == Sext12(imm) && Rs2(w) == rs2 && Rs1(w) == rs1 && Funct3(w) == f3 && Opcode(w) == op
  {
  }

  lemma UnpackB(o: bv13, rs2: bv5, rs1: bv5, f3: bv3, op: bv7)
    requires o & 1 == 0
    ensures var w := PackB(o, rs2, rs1, f3, op);
      ImmB(w) == Sext13(o) && Rs2(w) == rs2 && Rs1(w) == rs1 && Funct3(w) == f3 && Opcode(w) == op
  {
  }

  lemma UnpackU(imm: bv20, rd: bv5, op: bv7)
    ensures var w := PackU(imm, rd, op); ImmU(w) == (imm as bv32) << 12 && Rd(w) == rd && Opcode(w) == op
  {
  }

  lemma UnpackJ(o: bv21, rd: bv5, op: bv7)
    requires o & 1 == 0
    ensures var w := PackJ(o, rd, op); ImmJ(w) == Sext21(o) && Rd(w) == rd && Opcode(w) == op
  {
    if o & 0x10_0000 != 0 { UnpackJBack(o, rd, op); } else { UnpackJForth(o, rd, op); }
    UnpackJFields(o, rd, op);
  }

  lemma UnpackJBack(o: bv21, rd: bv5, op: bv7)
    requires o & 1 == 0 && o & 0x10_0000 != 0
    ensures ImmJ(PackJ(o, rd, op)) == (o as bv32) | 0xFFE0_0000
  {
  }

  lemma UnpackJForth(o: bv21, rd: bv5, op: bv7)
    requires o & 1 == 0 && o & 0x10_0000 == 0
    ensures ImmJ(PackJ(o, rd, op)) == o as bv32
  {
  }

  lemma UnpackJFields(o: bv21, rd: bv5, op: bv7)
    ensures Rd(PackJ(o, rd, op)) == rd && Opcode(PackJ(o, rd, op)) == op
  {
  }

  // ----- encoding -----

  function Encode(a: Asm): bv32 {
    match a
    case RegReg(_, f7, f3, op, rd, rs1, rs2) => PackR(f7, rs2, rs1, f3, rd, op)
    case Immed(_, f3, op, rd, rs1, imm) => PackI(imm, rs1, f3, rd, op)
    case Store(_, f3, op, rs1, rs2, imm) => PackS(imm, rs2, rs1, f3, op)
    case Branch(_, f3, op, rs1, rs2, o) => PackB(o, rs2, rs1, f3, op)
    case Upper(_, op, rd, imm) => PackU(imm, rd, op)
    case Jump(_, op, rd, o) => PackJ(o, rd, op)
  }

  function Format(a: Asm): InstrType {
    match a
    case RegReg(_, _, _, _, _, _, _) => R
    case Immed(_, _, _, _, _, _) => I
    case Store(_, _, _, _, _, _) => S
    case Branch(_, _, _, _, _, _) => B
    case Upper(_, _, _, _) => U
    case Jump(_, _, _, _) => J
  }

  /** The operands the emulator's methods read, immediates sign-extended to 32 bits. */
  predicate Operands(f: Fields, a: Asm) {
    match a
    case RegReg(_, _, _, _, rd, rs1, rs2) => f.rd == rd as int && f.rs1 == rs1 as int && f.rs2 == rs2 as int
    case Immed(_, _, _, rd, rs1, imm) => f.rd == rd as int && f.rs1 == rs1 as int && f.imm == Sext12(imm) as int
    case Store(_, _, _, rs1, rs2, imm) => f.rs1 == rs1 as int && f.rs2 == rs2 as int && f.imm == Sext12(imm) as int
    case Branch(_, _, _, rs1, rs2, o) => f.rs1 == rs1 as int && f.rs2 == rs2 as int && f.imm == Sext13(o) as int
    case Upper(_, _, rd, imm) => f.rd == rd as int && f.imm == ((imm as bv32) << 12) as int
    case Jump(_, _, rd, o) => f.rd == rd as int && f.imm == Sext21(o) as int
  }

  // ----- the fields of a packed word, as numbers -----

  lemma FieldsR(f7: bv7, rs2: bv5, rs1: bv5, f3: bv3, rd: bv5, op: bv7, f: Fields)
    requires f == FieldsOf(R, PackR(f7, rs2, rs1, f3, rd, op))
    ensures f.funct7 == f7 as int && f.rs2 == rs2 as int && f.rs1 == rs1 as int
    ensures f.funct3 == f3 as int && f.rd == rd as int && f.opcode == op as int
  {
    UnpackR(f7, rs2, rs1, f3, rd, op);
  }

  lemma FieldsI(imm: bv12, rs1: bv5, f3: bv3, rd: bv5, op: bv7, f: Fields)
    requires f == FieldsOf(I, PackI(imm, rs1, f3, rd, op))
    ensures f.imm == Sext12(imm) as int && f.rs1 == rs1 as int && f.funct3 == f3 as int && f.rd == rd as int
    ensures f.opcode == op as int && f.funct7 == (imm >> 5) as bv7 as int && f.funct6 == (imm >> 6) as bv6 as int
  {
    UnpackI(imm, rs1, f3, rd, op);
  }

  lemma FieldsS(imm: bv12, rs2: bv5, rs1: bv5, f3: bv3, op: bv7, f: Fields)
    requires f == FieldsOf(S, PackS(imm, rs2, rs1, f3, op))
    ensures f.imm == Sext12(imm) as int && f.rs1 == rs1 as int && f.rs2 == rs2 as int
    ensures f.funct3 == f3 as int && f.opcode == op as int
  {
    UnpackS(imm, rs2, rs1, f3, op);
  }

  lemma FieldsB(o: bv13, rs2: bv5, rs1: bv5, f3: bv3, op: bv7, f: Fields)
    requires o & 1 == 0 && f == FieldsOf(B, PackB(o, rs2, rs1, f3, op))
    ensures f.imm == Sext13(o) as int && f.rs1 == rs1 as int && f.rs2 == rs2 as int
    ensures f.funct3 == f3 as int && f.opcode == op as int
  {
    UnpackB(o, rs2, rs1, f3, op);
  }

  lemma FieldsU(imm: bv20, rd: bv5, op: bv7, f: Fields)
    requires f == FieldsOf(U, PackU(imm, rd, op))
    ensures f.imm == ((imm as bv32) << 12) as int && f.rd == rd as int && f.opcode == op as int
  {
    UnpackU(imm, rd, op);
  }

  lemma FieldsJ(o: bv21, rd: bv5, op: bv7, f: Fields)
    requires o & 1 == 0 && f == FieldsOf(J, PackJ(o, rd, op))
    ensures f.imm == Sext21(o) as int && f.rd == rd as int && f.opcode == op as int
  {
    UnpackJ(o, rd, op);
  }

  // ----- the round trip -----

  lemma CastBack(w: bv32)
    ensures (w as int) as bv32 == w
  {
  }

  lemma WordIs(w: bv32, c: bv32)
    ensures w as int == c as int ==> w == c
  {
    CastBack(w); CastBack(c);
  }

  /** Only SYSTEM words with funct3 = 0 and an immediate above 1 can be one of the two fixed words. */
  predicate Unfixed(w: bv32) { Opcode(w) != 0x73 || Funct3(w) != 0 || ImmI(w) == 0 || ImmI(w) == 1 }

  lemma NotFixed(w: bv32)
    requires Unfixed(w)
    ensures w != 0x3020_0073 && w != 0x1020_0073
  {
  }

  /** The fixed entries apart, the reference decoder is the listing. */
  lemma ReferenceIsListing(w: bv32)
    requires w != 0x3020_0073 && w != 0x1020_0073
    ensures Reference(w as int) == DecodeWord(w)
  {
    WordIs(w, 0x3020_0073); WordIs(w, 0x1020_0073);
    CastBack(w);
  }

  // A row that matches is what the listing answers, format by format.

  lemma IRowIsAnswer(n: IName, f: Fields)
    requires InRange(f) && TypeOfOpcode(f.opcode) == I && HasString(n) && IMatches(n, f)
    ensures Listed(I, f) == Ok(Instruction(I, n, f))
  {
    IRowIsListed(n, f);
  }

  lemma RRowIsAnswer(n: IName, f: Fields)
    requires InRange(f) && TypeOfOpcode(f.opcode) == R && HasString(n) && f.opcode != 0x53 && RMatches(n, f)
    ensures Listed(R, f) == Ok(Instruction(R, n, f))
  {
    RRowIsListed(n, f);
  }

  lemma SRowIsAnswer(n: IName, f: Fields)
    requires InRange(f) && TypeOfOpcode(f.opcode) == S && HasString(n) && SMatches(n, f)
    ensures Listed(S, f) == Ok(Instruction(S, n, f))
  {
    SRowIsListed(n, f);
  }

  lemma BRowIsAnswer(n: IName, f: Fields)
    requires InRange(f) && TypeOfOpcode(f.opcode) == B && HasString(n) && BMatches(n, f)
    ensures Listed(B, f) == Ok(Instruction(B, n, f))
  {
    BRowIsListed(n, f);
  }

  lemma URowIsAnswer(n: IName, f: Fields)
    requires TypeOfOpcode(f.opcode) == U && HasString(n) && UOpcode(n) == f.opcode
    ensures Listed(U, f) == Ok(Instruction(U, n, f))
  {
    UJRowIsListed(n, f);
  }

  lemma JRowIsAnswer(n: IName, f: Fields)
    requires TypeOfOpcode(f.opcode) == J && HasString(n) && JOpcode(n) == f.opcode
    ensures Listed(J, f) == Ok(Instruction(J, n, f))
  {
    UJRowIsListed(n, f);
  }

  /** Decoding `w` gives instruction `n` with fields `f`. */
  predicate DecodesTo(w: bv32, n: IName, f: Fields) {
    Reference(w as int) == Ok(Instruction(TypeOfOpcode(Opcode(w) as int), n, f))
  }

  lemma Answer(w: bv32, t: InstrType, n: IName, f: Fields)
    requires w != 0x3020_0073 && w != 0x1020_0073
    requires t == TypeOfOpcode(Opcode(w) as int) && f == FieldsOf(t, w)
    requires Listed(t, f) == Ok(Instruction(t, n, f))
    ensures DecodesTo(w, n, f)
  {
    ReferenceIsListing(w);
  }

  lemma NotSystem(w: bv32)
    requires Opcode(w) as int != 0x73
    ensures w != 0x3020_0073 && w != 0x1020_0073
  {
  }

  lemma RegRegOf(n: IName, f7: bv7, f3: bv3, op: bv7, rd: bv5, rs1: bv5, rs2: bv5, a: Asm, f: Fields)
    requires a == Asm.RegReg(n, f7, f3, op, rd, rs1, rs2) && WellFormed(a)
    requires f.funct7 == f7 as int && f.rs2 == rs2 as int && f.rs1 == rs1 as int
    requires f.funct3 == f3 as int && f.rd == rd as int && f.opcode == op as int
    ensures RMatches(n, f) && Operands(f, a) && f.opcode == ROpcode(n) != 0x53
  {
  }

  lemma RegRegFrom(n: IName, f7: bv7, f3: bv3, op: bv7, rd: bv5, rs1: bv5, rs2: bv5, a: Asm, f: Fields)
    requires a == Asm.RegReg(n, f7, f3, op, rd, rs1, rs2) && WellFormed(a)
    requires f == FieldsOf(R, PackR(f7, rs2, rs1, f3, rd, op))
    ensures RMatches(n, f) && Operands(f, a) && f.opcode == ROpcode(n) != 0x53
  {
    FieldsR(f7, rs2, rs1, f3, rd, op, f);
    RegRegOf(n, f7, f3, op, rd, rs1, rs2, a, f);
  }

  lemma RegRegMatches(a: Asm, w: bv32, f: Fields)
    requires a.RegReg? && WellFormed(a) && w == PackR(a.f7, a.rs2, a.rs1, a.f3, a.rd, a.op) && f == FieldsOf(R, w)
    ensures RMatches(a.n, f) && Operands(f, a) && f.opcode == ROpcode(a.n) != 0x53
  {
    RegRegFrom(a.n, a.f7, a.f3, a.op, a.rd, a.rs1, a.rs2, a, f);
  }

  lemma RegRegType(n: IName, op: int)
    requires ROpcode(n) == op && 0 <= op < 0x80 && op != 0x53
    ensures TypeOfOpcode(op) == R && HasString(n) && op != 0x73
  {
    ROpcodes(op);
  }

  lemma RegRegListed(a: Asm, w: bv32, f: Fields)
    requires a.RegReg? && WellFormed(a) && w == PackR(a.f7, a.rs2, a.rs1, a.f3, a.rd, a.op) && f == FieldsOf(R, w)
    ensures Listed(R, f) == Ok(Instruction(R, a.n, f)) && Operands(f, a)
    ensures TypeOfOpcode(f.opcode) == R && f.opcode != 0x73
  {
    RegRegMatches(a, w, f);
    FieldsInRange(R, w);
    RegRegType(a.n, f.opcode);
    RRowIsAnswer(a.n, f);
  }

  lemma RegRegRoundTrip(a: Asm, w: bv32, f: Fields)
    requires a.RegReg? && WellFormed(a) && w == PackR(a.f7, a.rs2, a.rs1, a.f3, a.rd, a.op) && f == FieldsOf(R, w)
    ensures DecodesTo(w, a.n, f) && Operands(f, a)
  {
    RegRegListed(a, w, f);
    NotSystem(w);
    Answer(w, R, a.n, f);
  }

  lemma ImmedOf(n: IName, f3: bv3, op: bv7, rd: bv5, rs1: bv5, imm: bv12, a: Asm, f: Fields)
    requires a == Asm.Immed(n, f3, op, rd, rs1, imm) && WellFormed(a)
    requires f.imm == Sext12(imm) as int && f.rs1 == rs1 as int && f.funct3 == f3 as int && f.rd == rd as int
    requires f.opcode == op as int && f.funct7 == (imm >> 5) as bv7 as int && f.funct6 == (imm >> 6) as bv6 as int
    ensures IMatches(n, f) && Operands(f, a) && f.opcode == IOpcode(n)
  {
  }

  lemma ImmedFrom(n: IName, f3: bv3, op: bv7, rd: bv5, rs1: bv5, imm: bv12, a: Asm, f: Fields)
    requires a == Asm.Immed(n, f3, op, rd, rs1, imm) && WellFormed(a) && f == FieldsOf(I, PackI(imm, rs1, f3, rd, op))
    ensures IMatches(n, f) && Operands(f, a) && f.opcode == IOpcode(n)
  {
    FieldsI(imm, rs1, f3, rd, op, f);
    ImmedOf(n, f3, op, rd, rs1, imm, a, f);
  }

  lemma ImmedMatches(a: Asm, w: bv32, f: Fields)
    requires a.Immed? && WellFormed(a) && w == PackI(a.imm, a.rs1, a.f3, a.rd, a.op) && f == FieldsOf(I, w)
    ensures IMatches(a.n, f) && Operands(f, a) && f.opcode == IOpcode(a.n)
  {
    ImmedFrom(a.n, a.f3, a.op, a.rd, a.rs1, a.imm, a, f);
  }

  lemma ImmedType(n: IName, op: int)
    requires IOpcode(n) == op && 0 <= op < 0x80
    ensures TypeOfOpcode(op) == I && HasString(n)
  {
    IOpcodes(op);
  }

  lemma ImmedListed(a: Asm, w: bv32, f: Fields)
    requires a.Immed? && WellFormed(a) && w == PackI(a.imm, a.rs1, a.f3, a.rd, a.op) && f == FieldsOf(I, w)
    ensures Listed(I, f) == Ok(Instruction(I, a.n, f)) && Operands(f, a)
    ensures TypeOfOpcode(f.opcode) == I
  {
    ImmedMatches(a, w, f);
    FieldsInRange(I, w);
    ImmedType(a.n, f.opcode);
    IRowIsAnswer(a.n, f);
  }

  lemma ImmedNotFixed(a: Asm, w: bv32)
    requires a.Immed? && WellFormed(a) && w == PackI(a.imm, a.rs1, a.f3, a.rd, a.op)
    ensures w != 0x3020_0073 && w != 0x1020_0073
  {
    UnpackI(a.imm, a.rs1, a.f3, a.rd, a.op);
    SystemWord(a.n, a.f3, a.op);
    NotFixed(w);
  }

  lemma ImmedRoundTrip(a: Asm, w: bv32, f: Fields)
    requires a.Immed? && WellFormed(a) && w == PackI(a.imm, a.rs1, a.f3, a.rd, a.op) && f == FieldsOf(I, w)
    ensures DecodesTo(w, a.n, f) && Operands(f, a)
  {
    ImmedListed(a, w, f);
    ImmedNotFixed(a, w);
    Answer(w, I, a.n, f);
  }

  lemma SystemWord(n: IName, f3: bv3, op: bv7)
    requires IFunct3(n) == f3 as int && IOpcode(n) == op as int
    ensures op == 0x73 && f3 == 0 ==> n == ECALL || n == EBREAK
  {
  }

  lemma StoreOf(n: IName, f3: bv3, op: bv7, rs1: bv5, rs2: bv5, imm: bv12, a: Asm, f: Fields)
    requires a == Asm.Store(n, f3, op, rs1, rs2, imm) && WellFormed(a)
    requires f.imm == Sext12(imm) as int && f.rs1 == rs1 as int && f.rs2 == rs2 as int
    requires f.funct3 == f3 as int && f.opcode == op as int
    ensures SMatches(n, f) && Operands(f, a)
  {
  }

  lemma StoreFrom(n: IName, f3: bv3, op: bv7, rs1: bv5, rs2: bv5, imm: bv12, a: Asm, f: Fields)
    requires a == Asm.Store(n, f3, op, rs1, rs2, imm) && WellFormed(a) && f == FieldsOf(S, PackS(imm, rs2, rs1, f3, op))
    ensures SMatches(n, f) && Operands(f, a)
  {
    FieldsS(imm, rs2, rs1, f3, op, f);
    StoreOf(n, f3, op, rs1, rs2, imm, a, f);
  }

  lemma StoreMatches(a: Asm, w: bv32, f: Fields)
    requires a.Store? && WellFormed(a) && w == PackS(a.imm, a.rs2, a.rs1, a.f3, a.op) && f == FieldsOf(S, w)
    ensures SMatches(a.n, f) && Operands(f, a)
  {
    StoreFrom(a.n, a.f3, a.op, a.rs1, a.rs2, a.imm, a, f);
  }

  lemma StoreType(n: IName, op: int)
    requires SOpcode(n) == op && 0 <= op < 0x80
    ensures TypeOfOpcode(op) == S && HasString(n) && op != 0x73
  {
    SBUJOpcodes(op);
  }

  lemma StoreListed(a: Asm, w: bv32, f: Fields)
    requires a.Store? && WellFormed(a) && w == PackS(a.imm, a.rs2, a.rs1, a.f3, a.op) && f == FieldsOf(S, w)
    ensures Listed(S, f) == Ok(Instruction(S, a.n, f)) && Operands(f, a)
    ensures TypeOfOpcode(f.opcode) == S && f.opcode != 0x73
  {
    StoreMatches(a, w, f);
    FieldsInRange(S, w);
    StoreType(a.n, f.opcode);
    SRowIsAnswer(a.n, f);
  }

  lemma StoreRoundTrip(a: Asm, w: bv32, f: Fields)
    requires a.Store? && WellFormed(a) && w == PackS(a.imm, a.rs2, a.rs1, a.f3, a.op) && f == FieldsOf(S, w)
    ensures DecodesTo(w, a.n, f) && Operands(f, a)
  {
    StoreListed(a, w, f);
    NotSystem(w);
    Answer(w, S, a.n, f);
  }

  lemma BranchOf(n: IName, f3: bv3, op: bv7, rs1: bv5, rs2: bv5, o: bv13, a: Asm, f: Fields)
    requires a == Asm.Branch(n, f3, op, rs1, rs2, o) && WellFormed(a)
    requires f.imm == Sext13(o) as int && f.rs1 == rs1 as int && f.rs2 == rs2 as int
    requires f.funct3 == f3 as int && f.opcode == op as int
    ensures BMatches(n, f) && Operands(f, a)
  {
  }

  lemma BranchFrom(n: IName, f3: bv3, op: bv7, rs1: bv5, rs2: bv5, o: bv13, a: Asm, f: Fields)
    requires a == Asm.Branch(n, f3, op, rs1, rs2, o) && WellFormed(a)
    requires o & 1 == 0 && f == FieldsOf(B, PackB(o, rs2, rs1, f3, op))
    ensures BMatches(n, f) && Operands(f, a)
  {
    FieldsB(o, rs2, rs1, f3, op, f);
    BranchOf(n, f3, op, rs1, rs2, o, a, f);
  }

  lemma BranchMatches(a: Asm, w: bv32, f: Fields)
    requires a.Branch? && WellFormed(a) && w == PackB(a.offset, a.rs2, a.rs1, a.f3, a.op) && f == FieldsOf(B, w)
    ensures BMatches(a.n, f) && Operands(f, a)
  {
    BranchFrom(a.n, a.f3, a.op, a.rs1, a.rs2, a.offset, a, f);
  }

  lemma BranchType(n: IName, op: int)
    requires BOpcode(n) == op && 0 <= op < 0x80
    ensures TypeOfOpcode(op) == B && HasString(n) && op != 0x73
  {
    SBUJOpcodes(op);
  }

  lemma BranchListed(a: Asm, w: bv32, f: Fields)
    requires a.Branch? && WellFormed(a) && w == PackB(a.offset, a.rs2, a.rs1, a.f3, a.op) && f == FieldsOf(B, w)
    ensures Listed(B, f) == Ok(Instruction(B, a.n, f)) && Operands(f, a)
    ensures TypeOfOpcode(f.opcode) == B && f.opcode != 0x73
  {
    BranchMatches(a, w, f);
    FieldsInRange(B, w);
    BranchType(a.n, f.opcode);
    BRowIsAnswer(a.n, f);
  }

  lemma BranchRoundTrip(a: Asm, w: bv32, f: Fields)
    requires a.Branch? && WellFormed(a) && w == PackB(a.offset, a.rs2, a.rs1, a.f3, a.op) && f == FieldsOf(B, w)
    ensures DecodesTo(w, a.n, f) && Operands(f, a)
  {
    BranchListed(a, w, f);
    NotSystem(w);
    Answer(w, B, a.n, f);
  }

  lemma UpperOf(n: IName, op: bv7, rd: bv5, imm: bv20, a: Asm, f: Fields)
    requires a == Asm.Upper(n, op, rd, imm) && WellFormed(a)
    requires f.imm == ((imm as bv32) << 12) as int && f.rd == rd as int && f.opcode == op as int
    ensures UOpcode(n) == f.opcode && Operands(f, a)
  {
  }

  lemma UpperFrom(n: IName, op: bv7, rd: bv5, imm: bv20, a: Asm, f: Fields)
    requires a == Asm.Upper(n, op, rd, imm) && WellFormed(a) && f == FieldsOf(U, PackU(imm, rd, op))
    ensures UOpcode(n) == f.opcode && Operands(f, a)
  {
    FieldsU(imm, rd, op, f);
    UpperOf(n, op, rd, imm, a, f);
  }

  lemma UpperMatches(a: Asm, w: bv32, f: Fields)
    requires a.Upper? && WellFormed(a) && w == PackU(a.imm20, a.rd, a.op) && f == FieldsOf(U, w)
    ensures UOpcode(a.n) == f.opcode && Operands(f, a)
  {
    UpperFrom(a.n, a.op, a.rd, a.imm20, a, f);
  }

  lemma UpperType(n: IName, op: int)
    requires UOpcode(n) == op && 0 <= op < 0x80
    ensures TypeOfOpcode(op) == U && HasString(n) && op != 0x73
  {
    SBUJOpcodes(op);
  }

  lemma UpperListed(a: Asm, w: bv32, f: Fields)
    requires a.Upper? && WellFormed(a) && w == PackU(a.imm20, a.rd, a.op) && f == FieldsOf(U, w)
    ensures Listed(U, f) == Ok(Instruction(U, a.n, f)) && Operands(f, a)
    ensures TypeOfOpcode(f.opcode) == U && f.opcode != 0x73
  {
    UpperMatches(a, w, f);
    FieldsInRange(U, w);
    UpperType(a.n, f.opcode);
    URowIsAnswer(a.n, f);
  }

  lemma UpperRoundTrip(a: Asm, w: bv32, f: Fields)
    requires a.Upper? && WellFormed(a) && w == PackU(a.imm20, a.rd, a.op) && f == FieldsOf(U, w)
    ensures DecodesTo(w, a.n, f) && Operands(f, a)
  {
    UpperListed(a, w, f);
    NotSystem(w);
    Answer(w, U, a.n, f);
  }

  lemma JumpOf(n: IName, op: bv7, rd: bv5, o: bv21, a: Asm, f: Fields)
    requires a == Asm.Jump(n, op, rd, o) && WellFormed(a)
    requires f.imm == Sext21(o) as int && f.rd == rd as int && f.opcode == op as int
    ensures JOpcode(n) == f.opcode && Operands(f, a)
  {
  }

  lemma JumpFrom(n: IName, op: bv7, rd: bv5, o: bv21, a: Asm, f: Fields)
    requires a == Asm.Jump(n, op, rd, o) && WellFormed(a) && f == FieldsOf(J, PackJ(o, rd, op)) && o & 1 == 0
    ensures JOpcode(n) == f.opcode && Operands(f, a)
  {
    FieldsJ(o, rd, op, f);
    JumpOf(n, op, rd, o, a, f);
  }

  lemma JumpMatches(a: Asm, w: bv32, f: Fields)
    requires a.Jump? && WellFormed(a) && w == PackJ(a.target, a.rd, a.op) && f == FieldsOf(J, w)
    ensures JOpcode(a.n) == f.opcode && Operands(f, a)
  {
    JumpFrom(a.n, a.op, a.rd, a.target, a, f);
  }

  lemma JumpType(n: IName, op: int)
    requires JOpcode(n) == op && 0 <= op < 0x80
    ensures TypeOfOpcode(op) == J && HasString(n) && op != 0x73
  {
    SBUJOpcodes(op);
  }

  lemma JumpListed(a: Asm, w: bv32, f: Fields)
    requires a.Jump? && WellFormed(a) && w == PackJ(a.target, a.rd, a.op) && f == FieldsOf(J, w)
    ensures Listed(J, f) == Ok(Instruction(J, a.n, f)) && Operands(f, a)
    ensures TypeOfOpcode(f.opcode) == J && f.opcode != 0x73
  {
    JumpMatches(a, w, f);
    FieldsInRange(J, w);
    JumpType(a.n, f.opcode);
    JRowIsAnswer(a.n, f);
  }

  lemma JumpRoundTrip(a: Asm, w: bv32, f: Fields)
    requires a.Jump? && WellFormed(a) && w == PackJ(a.target, a.rd, a.op) && f == FieldsOf(J, w)
    ensures DecodesTo(w, a.n, f) && Operands(f, a)
  {
    JumpListed(a, w, f);
    NotSystem(w);
    Answer(w, J, a.n, f);
  }

  /** Encoding and decoding any well-formed instruction gives back its name and operands, whatever
      was decoded before (the answer of `InstructionDecoder.Decode` is `Reference`). */
  lemma EncodeDecode(a: Asm, w: bv32, f: Fields)
    requires WellFormed(a) && w == Encode(a) && f == FieldsOf(Format(a), w)
    ensures DecodesTo(w, a.n, f) && Operands(f, a)
  {
    if a.RegReg? { RegRegRoundTrip(a, w, f); }
    else if a.Immed? { ImmedRoundTrip(a, w, f); }
    else if a.Store? { StoreRoundTrip(a, w, f); }
    else if a.Branch? { BranchRoundTrip(a, w, f); }
    else if a.Upper? { UpperRoundTrip(a, w, f); }
    else { JumpRoundTrip(a, w, f); }
  }
}
