/** The decoder's tables and bit-field extraction, transcribed, and beside them the instruction
    listing of the ISA read in the opposite direction: from opcode and function fields to a name. */
module DecodeTables {
  import opened Names
  import opened Words

  datatype InstrType = R | R4 | I | S | B | U | J | WRONG

  datatype Fields = Fields(
    opcode: int, rd: int, funct3: int, rs1: int, rs2: int, funct7: int, shamt32: int, shamt64: int,
    funct6: int, imm: U32, funct2: int, rs3: int)

  datatype Instruction = Instruction(t: InstrType, name: IName, f: Fields)

  /** A decoded instruction, or the exception that looking up a missing printable name throws. */
  datatype Decoded = Ok(ins: Instruction) | Throws

  const NO_FIELDS := Fields(0, 0, 0, 0, 0, 0, 0, 0, 0, 0, 0, 0)

  // ----- the tables of the source; 0xFF marks a name without a row -----

  /** `i_opcodes` */
  function IOpcode(n: IName): int {
    match n
    case LB | LH | LW | LBU | LHU | LD | LWU => 0x03
    case ADDI | SLTI | SLTIU | XORI | ORI | ANDI | SLLI | SRLI | SRAI => 0x13
    case ADDIW | SLLIW | SRLIW | SRAIW => 0x1B
    case FENCE | FENCEI => 0x0F
    case ECALL | EBREAK | CSRRW | CSRRS | CSRRC | CSRRWI | CSRRSI | CSRRCI => 0x73
    case JALR => 0x67
    case FLW => 0x07
    case _ => 0xFF
  }

  /** `r_opcodes` */
  function ROpcode(n: IName): int {
    match n
    case ADDW | SUBW | SLLW | SRLW | SRAW | MULW | DIVW | DIVUW | REMW | REMUW => 0x3B
    case ADD | SUB | SLL | SLT | SLTU | XOR | SRL | SRA | OR | AND | MUL | MULH | MULHSU | MULHU | DIV |
         DIVU | REM | REMU => 0x33
    case LRW | SCW | AMOSWAPW | AMOADDW | AMOXORW | AMOANDW | AMOORW | AMOMINW | AMOMAXW | AMOMINUW |
         AMOMAXUW | LRD | SCD | AMOSWAPD | AMOADDD | AMOXORD | AMOANDD | AMOORD | AMOMIND | AMOMAXD |
         AMOMINUD | AMOMAXUD => 0x2F
    case FADDS | FSUBS | FMULS | FDIVS | FSQRTS | FSGNJS | FSGNJNS | FSGNJXS | FMINS | FMAXS | FCVTWS |
         FCVTWUS | FMVXW | FEQS | FLTS | FLES | FCLASSS | FCVTSW | FCVTSWU | FMVWX | FCVTLS | FCVTLUS |
         FCVTSLU => 0x53
    case _ => 0xFF
  }

  /** `r4_opcodes` */
  function R4Opcode(n: IName): int {
    match n
    case FMADDS => 0x43
    case FMSUBS => 0x47
    case FNMSUBS => 0x4B
    case FNMADDS => 0x4F
    case _ => 0xFF
  }

  /** `b_opcodes` */
  function BOpcode(n: IName): int {
    match n
    case BEQ | BNE | BLT | BGE | BLTU | BGEU => 0x63
    case _ => 0xFF
  }

  /** `s_opcodes` */
  function SOpcode(n: IName): int {
    match n
    case SB | SH | SW | SD => 0x23
    case FSW => 0x27
    case _ => 0xFF
  }

  /** `j_opcodes` */
  function JOpcode(n: IName): int {
    match n
    case JAL => 0x6F
    case _ => 0xFF
  }

  /** `u_opcodes` */
  function UOpcode(n: IName): int {
    match n
    case LUI => 0x37
    case AUIPC => 0x17
    case _ => 0xFF
  }

  /** `i_funct3` */
  function IFunct3(n: IName): int {
    match n
    case LB | ADDI | ADDIW | FENCE | ECALL | EBREAK | JALR => 0x00
    case LH | SLLI | SLLIW | FENCEI | CSRRW => 0x01
    case LW | SLTI | CSRRS | FLW => 0x02
    case LBU | XORI => 0x04
    case LHU | SRLI | SRAI | SRLIW | SRAIW | CSRRWI => 0x05
    case LD | SLTIU | CSRRC => 0x03
    case LWU | ORI | CSRRSI => 0x06
    case ANDI | CSRRCI => 0x07
    case _ => 0xFF
  }

  /** `r_funct3` */
  function RFunct3(n: IName): int {
    match n
    case ADDW | ADD | SUB | SUBW | MUL | MULW | FSGNJS | FMINS | FMVXW | FLES | FMVWX => 0x00
    case SLL | SLLW | MULH | FSGNJNS | FMAXS | FLTS | FCLASSS => 0x01
    case SLT | MULHSU | LRW | SCW | AMOSWAPW | AMOADDW | AMOXORW | AMOANDW | AMOORW | AMOMINW |
         AMOMAXW | AMOMINUW | AMOMAXUW | FSGNJXS | FEQS => 0x02
    case SLTU | MULHU | LRD | SCD | AMOSWAPD | AMOADDD | AMOXORD | AMOANDD | AMOORD | AMOMIND |
         AMOMAXD | AMOMINUD | AMOMAXUD => 0x03
    case XOR | DIV | DIVW => 0x04
    case SRL | SRLW | SRA | SRAW | DIVU | DIVUW => 0x05
    case OR | REM | REMW => 0x06
    case AND | REMU | REMUW => 0x07
    case _ => 0xFF
  }

  /** `r4_funct2` */
  function R4Funct2(n: IName): int {
    match n
    case FMADDS | FMSUBS | FNMSUBS | FNMADDS => 0x00
    case _ => 0xFF
  }

  /** `b_funct3` */
  function BFunct3(n: IName): int {
    match n
    case BEQ => 0x00
    case BNE => 0x01
    case BLT => 0x04
    case BGE => 0x05
    case BLTU => 0x06
    case BGEU => 0x07
    case _ => 0xFF
  }

  /** `s_funct3` */
  function SFunct3(n: IName): int {
    match n
    case SB => 0x00
    case SH => 0x01
    case SW | FSW => 0x02
    case SD => 0x03
    case _ => 0xFF
  }

  /** `r_funct7`; for the atomics the two lowest bits are aq and rl */
  function RFunct7(n: IName): int {
    match n
    case ADDW | ADD | SLL | SLLW | SLT | SLTU | XOR | SRL | SRLW | OR | AND | AMOADDW | AMOADDD | FADDS => 0x00
    case SUB | SUBW | SRA | SRAW | AMOORW | AMOORD => 0x20
    case MUL | MULH | MULHSU | MULHU | DIV | DIVU | REM | REMU | MULW | DIVW | DIVUW | REMW | REMUW => 0x01
    case LRW | LRD | FMULS => 0x08
    case SCW | SCD | FDIVS => 0x0C
    case AMOSWAPW | AMOSWAPD | FSUBS => 0x04
    case AMOXORW | AMOXORD | FSGNJS | FSGNJNS | FSGNJXS => 0x10
    case AMOANDW | AMOANDD => 0x30
    case AMOMINW | AMOMIND => 0x40
    case AMOMAXW | AMOMAXD | FEQS | FLTS | FLES => 0x50
    case AMOMINUW | AMOMINUD | FCVTWS | FCVTWUS | FCVTLS | FCVTLUS => 0x60
    case AMOMAXUW | AMOMAXUD | FMVXW | FCLASSS => 0x70
    case FSQRTS => 0x2C
    case FMINS | FMAXS => 0x14
    case FCVTSW | FCVTSWU | FCVTSLU => 0x68
    case FMVWX => 0x78
    case _ => 0xFF
  }

  /** `i_funct7` */
  function IFunct7(n: IName): int {
    match n
    case SLLI | SRLI | SLLIW | SRLIW => 0x00
    case SRAI | SRAIW => 0x20
    case _ => 0xFF
  }

  /** `i_funct6` */
  function IFunct6(n: IName): int {
    match n
    case SLLI | SRLI => 0x00
    case SRAI => 0x10
    case _ => 0xFF
  }

  /** Whether `inst_string_names` has a row: two names are missing from it. */
  predicate HasString(n: IName) { n != FNMADDS && n != FCVTSL }

  function Named(t: InstrType, n: IName, f: Fields): Decoded {
    if HasString(n) then Ok(Instruction(t, n, f)) else Throws
  }

  predicate IsShift32(n: IName) { n == SLLIW || n == SRLIW || n == SRAIW }

  predicate IsShift64(n: IName) { n == SLLI || n == SRLI || n == SRAI }

  // ----- bit fields and immediates of the source -----

  function Opcode(w: bv32): bv7 { (w & 0x0000_007F) as bv7 }
  function Funct3(w: bv32): bv3 { ((w & 0x0000_7000) >> 12) as bv3 }
  function Funct7(w: bv32): bv7 { ((w & 0xFE00_0000) >> 25) as bv7 }
  function Funct6(w: bv32): bv6 { ((w & 0xFC00_0000) >> 26) as bv6 }
  function Funct2(w: bv32): bv2 { ((w & 0x0600_0000) >> 25) as bv2 }
  function Rd(w: bv32): bv5 { ((w & 0x0000_0F80) >> 7) as bv5 }
  function Rs1(w: bv32): bv5 { ((w & 0x000F_8000) >> 15) as bv5 }
  function Rs2(w: bv32): bv5 { ((w & 0x01F0_0000) >> 20) as bv5 }
  function Rs3(w: bv32): bv5 { ((w & 0xF100_0000) >> 27) as bv5 }
  function Shamt32(w: bv32): bv5 { ((w & 0x01F0_0000) >> 20) as bv5 }
  function Shamt64(w: bv32): bv6 { ((w & 0x03F0_0000) >> 20) as bv6 }

  /** `>>` on `int32_t`: copies of the sign digit come in from the left. */
  function Sar(x: bv32, k: bv32): bv32
    requires k < 32
  {
    if x & 0x8000_0000 != 0 then !((!x) >> k) else x >> k
  }

  function ImmI(w: bv32): bv32 { Sar(w & 0xFFF0_0000, 20) }

  function ImmS(w: bv32): bv32 {
    var imm := (Rd(w) as bv32) | ((w & 0xFE00_0000) >> 20);
    Sar(imm << 20, 20)
  }

  function ImmB(w: bv32): bv32 {
    var imm := (((w & 0x0000_0F00) >> 7) & 0x0000_001E) | (((w & 0x7E00_0000) >> 20) & 0x0000_07E0)
             | (((w & 0x0000_0080) << 4) & 0x0000_0800) | (((w & 0x8000_0000) >> 19) & 0xFFFF_F000);
    Sar(imm << 19, 19)
  }

  function ImmU(w: bv32): bv32 { w & 0xFFFF_F000 }

  function ImmJ(w: bv32): bv32 {
    var imm := (((w & 0x01E0_0000) >> 20) & 0x0000_001E) | (((w & 0x7E00_0000) >> 20) & 0x0000_07E0)
             | (((w & 0x0010_0000) >> 9) & 0x0000_0800) | ((w & 0x000F_F000) & 0x000F_F000)
             | (((w & 0x8000_0000) >> 11) & 0xFFF0_0000);
    Sar(imm << 11, 11)
  }

  function Immediate(t: InstrType, w: bv32): bv32 {
    match t
    case WRONG | R | R4 => 0
    case I => ImmI(w)
    case J => ImmJ(w)
    case B => ImmB(w)
    case S => ImmS(w)
    case U => ImmU(w)
  }

  function FieldsOf(t: InstrType, w: bv32): Fields {
    Fields(Opcode(w) as int, Rd(w) as int, Funct3(w) as int, Rs1(w) as int, Rs2(w) as int, Funct7(w) as int,
           Shamt32(w) as int, Shamt64(w) as int, Funct6(w) as int, Immediate(t, w) as int,
           Funct2(w) as int, Rs3(w) as int)
  }

  /** `x & ~0b11`. */
  function ClearLow2(x: int): int { x - x % 4 }

  // ----- when a table row matches -----

  /** The test of `decode_r`: exact function fields, or for the atomics any aq and rl bits. */
  predicate RMatches(n: IName, f: Fields) {
    && RFunct3(n) == f.funct3 && ROpcode(n) == f.opcode
    && (RFunct7(n) == f.funct7 || (f.opcode == 0x2F && RFunct7(n) == ClearLow2(f.funct7)))
  }

  /** The test of `decode_fp_with_f3`. */
  predicate FpMatches(n: IName, f: Fields) {
    RFunct3(n) == f.funct3 && ROpcode(n) == f.opcode && RFunct7(n) == f.funct7
  }

  /** The test of the search loop in `decode_fp_without_f3`. */
  predicate FpMatchesF7(n: IName, f: Fields) {
    RFunct7(n) == f.funct7 && ROpcode(n) == f.opcode
  }

  predicate R4Matches(n: IName, f: Fields) {
    R4Funct2(n) == f.funct2 && R4Opcode(n) == f.opcode
  }

  /** The test of `decode_i`: shifts also compare funct7 or funct6, ECALL and EBREAK the immediate. */
  predicate IMatches(n: IName, f: Fields) {
    && IFunct3(n) == f.funct3 && IOpcode(n) == f.opcode
    && (if IsShift32(n) then IFunct7(n) == f.funct7
        else if IsShift64(n) then IFunct6(n) == f.funct6
        else (n == ECALL && f.imm == 0) || (n == EBREAK && f.imm == 1) || (n != EBREAK && n != ECALL))
  }

  predicate BMatches(n: IName, f: Fields) { BFunct3(n) == f.funct3 && BOpcode(n) == f.opcode }

  predicate SMatches(n: IName, f: Fields) { SFunct3(n) == f.funct3 && SOpcode(n) == f.opcode }

  // ----- the listing of the ISA, from fields to names -----

  /** The instruction format that a base opcode selects. */
  function TypeOfOpcode(op: int): InstrType {
    if op in {0x03, 0x13, 0x1B, 0x67, 0x0F, 0x73, 0x07} then I
    else if op == 0x6F then J
    else if op in {0x23, 0x27} then S
    else if op == 0x63 then B
    else if op in {0x33, 0x3B, 0x2F, 0x53} then R
    else if op in {0x43, 0x47, 0x4B, 0x4F} then R4
    else if op in {0x37, 0x17} then U
    else WRONG
  }

  function ListI(f: Fields): IName {
    var f3 := f.funct3;
    if f.opcode == 0x03 then
      if f3 == 0 then LB else if f3 == 1 then LH else if f3 == 2 then LW else if f3 == 3 then LD
      else if f3 == 4 then LBU else if f3 == 5 then LHU else if f3 == 6 then LWU else XXX
    else if f.opcode == 0x13 then
      if f3 == 0 then ADDI else if f3 == 2 then SLTI else if f3 == 3 then SLTIU else if f3 == 4 then XORI
      else if f3 == 6 then ORI else if f3 == 7 then ANDI
      else if f3 == 1 then (if f.funct6 == 0 then SLLI else XXX)
      else if f.funct6 == 0 then SRLI else if f.funct6 == 0x10 then SRAI else XXX
    else if f.opcode == 0x1B then
      if f3 == 0 then ADDIW else if f3 == 1 then (if f.funct7 == 0 then SLLIW else XXX)
      else if f3 == 5 then (if f.funct7 == 0 then SRLIW else if f.funct7 == 0x20 then SRAIW else XXX) else XXX
    else if f.opcode == 0x67 then (if f3 == 0 then JALR else XXX)
    else if f.opcode == 0x0F then (if f3 == 0 then FENCE else if f3 == 1 then FENCEI else XXX)
    else if f.opcode == 0x07 then (if f3 == 2 then FLW else XXX)
    else if f.opcode == 0x73 then
      if f3 == 0 then (if f.imm == 0 then ECALL else if f.imm == 1 then EBREAK else XXX)
      else if f3 == 1 then CSRRW else if f3 == 2 then CSRRS else if f3 == 3 then CSRRC
      else if f3 == 5 then CSRRWI else if f3 == 6 then CSRRSI else if f3 == 7 then CSRRCI else XXX
    else XXX
  }

  /** RV64I and RV64M register-register instructions. */
  function ListOp(op: int, f3: int, f7: int): IName {
    if op == 0x33 && f7 == 0 then
      if f3 == 0 then ADD else if f3 == 1 then SLL else if f3 == 2 then SLT else if f3 == 3 then SLTU
      else if f3 == 4 then XOR else if f3 == 5 then SRL else if f3 == 6 then OR else AND
    else if op == 0x33 && f7 == 1 then
      if f3 == 0 then MUL else if f3 == 1 then MULH else if f3 == 2 then MULHSU else if f3 == 3 then MULHU
      else if f3 == 4 then DIV else if f3 == 5 then DIVU else if f3 == 6 then REM else REMU
    else if op == 0x33 && f7 == 0x20 then (if f3 == 0 then SUB else if f3 == 5 then SRA else XXX)
    else if op == 0x3B && f7 == 0 then
      if f3 == 0 then ADDW else if f3 == 1 then SLLW else if f3 == 5 then SRLW else XXX
    else if op == 0x3B && f7 == 1 then
      if f3 == 0 then MULW else if f3 == 4 then DIVW else if f3 == 5 then DIVUW
      else if f3 == 6 then REMW else if f3 == 7 then REMUW else XXX
    else if op == 0x3B && f7 == 0x20 then (if f3 == 0 then SUBW else if f3 == 5 then SRAW else XXX)
    else XXX
  }

  /** Atomics: funct5 is the upper part of funct7, above aq and rl. */
  function ListAmo(f3: int, f5: int): IName {
    if f3 == 2 then
      if f5 == 0x08 then LRW else if f5 == 0x0C then SCW else if f5 == 0x04 then AMOSWAPW
      else if f5 == 0x00 then AMOADDW else if f5 == 0x10 then AMOXORW else if f5 == 0x30 then AMOANDW
      else if f5 == 0x20 then AMOORW else if f5 == 0x40 then AMOMINW else if f5 == 0x50 then AMOMAXW
      else if f5 == 0x60 then AMOMINUW else if f5 == 0x70 then AMOMAXUW else XXX
    else if f3 == 3 then
      if f5 == 0x08 then LRD else if f5 == 0x0C then SCD else if f5 == 0x04 then AMOSWAPD
      else if f5 == 0x00 then AMOADDD else if f5 == 0x10 then AMOXORD else if f5 == 0x30 then AMOANDD
      else if f5 == 0x20 then AMOORD else if f5 == 0x40 then AMOMIND else if f5 == 0x50 then AMOMAXD
      else if f5 == 0x60 then AMOMINUD else if f5 == 0x70 then AMOMAXUD else XXX
    else XXX
  }

  function ListR(f: Fields): IName {
    if f.opcode == 0x2F then ListAmo(f.funct3, ClearLow2(f.funct7)) else ListOp(f.opcode, f.funct3, f.funct7)
  }

  /** Single-precision instructions that funct3 distinguishes. */
  function ListFp(f: Fields): IName {
    var f3, f7 := f.funct3, f.funct7;
    if f7 == 0x10 then (if f3 == 0 then FSGNJS else if f3 == 1 then FSGNJNS else if f3 == 2 then FSGNJXS else XXX)
    else if f7 == 0x14 then (if f3 == 0 then FMINS else if f3 == 1 then FMAXS else XXX)
    else if f7 == 0x70 then (if f3 == 0 then FMVXW else if f3 == 1 then FCLASSS else XXX)
    else if f7 == 0x50 then (if f3 == 2 then FEQS else if f3 == 1 then FLTS else if f3 == 0 then FLES else XXX)
    else if f7 == 0x78 && f3 == 0 then FMVWX
    else XXX
  }

  /** funct7 values whose funct3 is a rounding mode. */
  predicate IgnoresFunct3(f7: int) { f7 in {0x00, 0x04, 0x08, 0x0C, 0x2C, 0x60, 0x68} }

  /** Single-precision instructions whose funct3 is a rounding mode. */
  function ListFpRounded(f: Fields): IName {
    var f7, rs2 := f.funct7, f.rs2;
    if f7 == 0x60 then
      if rs2 == 0 then FCVTWS else if rs2 == 1 then FCVTWUS else if rs2 == 2 then FCVTLS
      else if rs2 == 3 then FCVTLUS else XXX
    else if f7 == 0x68 then
      if rs2 == 0 then FCVTSW else if rs2 == 1 then FCVTSWU else if rs2 == 2 then FCVTSL
      else if rs2 == 3 then FCVTSLU else XXX
    else if f7 == 0x00 then FADDS else if f7 == 0x04 then FSUBS else if f7 == 0x08 then FMULS
    else if f7 == 0x0C then FDIVS else FSQRTS
  }

  function ListR4(f: Fields): IName {
    if f.funct2 != 0 then XXX
    else if f.opcode == 0x43 then FMADDS else if f.opcode == 0x47 then FMSUBS
    else if f.opcode == 0x4B then FNMSUBS else FNMADDS
  }

  function ListB(f: Fields): IName {
    var f3 := f.funct3;
    if f3 == 0 then BEQ else if f3 == 1 then BNE else if f3 == 4 then BLT
    else if f3 == 5 then BGE else if f3 == 6 then BLTU else if f3 == 7 then BGEU else XXX
  }

  function ListS(f: Fields): IName {
    var f3 := f.funct3;
    if f.opcode == 0x27 then (if f3 == 2 then FSW else XXX)
    else if f3 == 0 then SB else if f3 == 1 then SH else if f3 == 2 then SW else if f3 == 3 then SD else XXX
  }

  /** What a search that found nothing returns; otherwise the named instruction. */
  function Found(t: InstrType, n: IName, f: Fields): Decoded {
    if n == XXX then Ok(Instruction(WRONG, XXX, f)) else Named(t, n, f)
  }

  function ListUJ(f: Fields): IName {
    if f.opcode == 0x37 then LUI else if f.opcode == 0x17 then AUIPC else if f.opcode == 0x6F then JAL else XXX
  }

  /** The instruction that format and fields select. */
  function Listed(t: InstrType, f: Fields): Decoded {
    match t
    case I => Found(I, ListI(f), f)
    case R =>
      if f.opcode != 0x53 then Found(R, ListR(f), f)
      else if IgnoresFunct3(f.funct7) then Named(R, ListFpRounded(f), f)
      else Found(R, ListFp(f), f)
    case R4 => Found(R4, ListR4(f), f)
    case S => Found(S, ListS(f), f)
    case B => Found(B, ListB(f), f)
    case U | J => Found(t, ListUJ(f), f)
    case WRONG => Ok(Instruction(WRONG, XXX, NO_FIELDS))
  }

  /** The stateless decoder. */
  function DecodeWord(w: bv32): Decoded {
    var t := TypeOfOpcode(Opcode(w) as int);
    Listed(t, FieldsOf(t, w))
  }

  const MRET_WORD: int := 0x3020_0073
  const SRET_WORD: int := 0x1020_0073
  const MRET_INSTRUCTION := Instruction(R, MRET, NO_FIELDS.(opcode := 0x73, rs2 := 2, funct7 := 0x18))
  const SRET_INSTRUCTION := Instruction(R, SRET, NO_FIELDS.(opcode := 0x73, rs2 := 2, funct7 := 0x08))

  /** What decoding a word means, whatever was decoded before: two words are fixed, the rest are listed. */
  function Reference(inst: U32): Decoded {
    if inst == MRET_WORD then Ok(MRET_INSTRUCTION)
    else if inst == SRET_WORD then Ok(SRET_INSTRUCTION)
    else DecodeWord(inst as bv32)
  }

  // ----- the tables agree with the listing, so at most one row matches -----

  /** Function fields extracted from a word fit their widths. */
  predicate InRange(f: Fields) {
    0 <= f.funct3 < 0x08 && 0 <= f.funct7 < 0x80 && 0 <= f.funct6 < 0x40 && 0 <= f.funct2 < 0x04
  }

  lemma RRowIsListed(n: IName, f: Fields)
    requires InRange(f) && f.opcode in {0x33, 0x3B, 0x2F}
    ensures RMatches(n, f) <==> n == ListR(f) && n != XXX
  {
    if f.opcode == 0x2F { AmoRowIsListed(n, f); }
    else if f.opcode == 0x3B { OpWRowIsListed(n, f); }
    else { OpRowIsListed(n, f); }
  }

  lemma OpRowIsListed(n: IName, f: Fields)
    requires InRange(f) && f.opcode == 0x33
    ensures RMatches(n, f) <==> n == ListOp(f.opcode, f.funct3, f.funct7) && n != XXX
  {
    if n == ListOp(f.opcode, f.funct3, f.funct7) && n != XXX { assert RMatches(n, f); }
  }

  lemma OpWRowIsListed(n: IName, f: Fields)
    requires InRange(f) && f.opcode == 0x3B
    ensures RMatches(n, f) <==> n == ListOp(f.opcode, f.funct3, f.funct7) && n != XXX
  {
  }

  lemma AmoRowIsListed(n: IName, f: Fields)
    requires InRange(f) && f.opcode == 0x2F
    ensures RMatches(n, f) <==> n == ListAmo(f.funct3, ClearLow2(f.funct7)) && n != XXX
  {
    AmoRow(n, f.funct3, ClearLow2(f.funct7));
    AmoFunct7(n);
  }

  lemma AmoFunct7(n: IName)
    ensures ROpcode(n) == 0x2F ==> RFunct7(n) % 4 == 0
  {
  }

  lemma AmoRow(n: IName, f3: int, f5: int)
    requires 0 <= f3 < 8 && 0 <= f5 < 0x80
    ensures RFunct3(n) == f3 && ROpcode(n) == 0x2F && RFunct7(n) == f5 <==> n == ListAmo(f3, f5) && n != XXX
  {
    if n == ListAmo(f3, f5) && n != XXX { assert RFunct3(n) == f3 && ROpcode(n) == 0x2F && RFunct7(n) == f5; }
  }

  lemma FpRowIsListed(n: IName, f: Fields)
    requires InRange(f) && f.opcode == 0x53 && !IgnoresFunct3(f.funct7)
    ensures FpMatches(n, f) <==> n == ListFp(f) && n != XXX
  {
    if n == ListFp(f) && n != XXX { assert FpMatches(n, f); }
  }

  lemma FpRoundedRowIsListed(n: IName, f: Fields)
    requires InRange(f) && f.opcode == 0x53
    requires IgnoresFunct3(f.funct7) && f.funct7 != 0x60 && f.funct7 != 0x68
    ensures FpMatchesF7(n, f) <==> n == ListFpRounded(f)
  {
  }

  lemma R4RowIsListed(n: IName, f: Fields)
    requires InRange(f) && TypeOfOpcode(f.opcode) == R4
    ensures R4Matches(n, f) <==> n == ListR4(f) && n != XXX
  {
  }

  lemma IRowIsListed(n: IName, f: Fields)
    requires InRange(f) && TypeOfOpcode(f.opcode) == I
    ensures IMatches(n, f) <==> n == ListI(f) && n != XXX
  {
  }

  lemma BRowIsListed(n: IName, f: Fields)
    requires InRange(f) && f.opcode == 0x63
    ensures BMatches(n, f) <==> n == ListB(f) && n != XXX
  {
  }

  lemma SRowIsListed(n: IName, f: Fields)
    requires InRange(f) && TypeOfOpcode(f.opcode) == S
    ensures SMatches(n, f) <==> n == ListS(f) && n != XXX
  {
  }

  lemma UJRowIsListed(n: IName, f: Fields)
    requires TypeOfOpcode(f.opcode) in {U, J}
    ensures (UOpcode(n) == f.opcode || JOpcode(n) == f.opcode) <==> n == ListUJ(f)
  {
  }

  lemma FieldsInRange(t: InstrType, w: bv32)
    ensures InRange(FieldsOf(t, w)) && 0 <= FieldsOf(t, w).opcode < 0x80
  {
  }

  // ----- the opcode tables -----

  lemma IOpcodes(op: int)
    requires 0 <= op < 0x80
    ensures (exists n: IName :: IOpcode(n) == op) <==> TypeOfOpcode(op) == I
  {
    assert IOpcode(LB) == 0x03 && IOpcode(ADDI) == 0x13 && IOpcode(ADDIW) == 0x1B && IOpcode(JALR) == 0x67;
    assert IOpcode(FENCE) == 0x0F && IOpcode(ECALL) == 0x73 && IOpcode(FLW) == 0x07;
  }

  lemma ROpcodes(op: int)
    requires 0 <= op < 0x80
    ensures (exists n: IName :: ROpcode(n) == op) <==> TypeOfOpcode(op) == R
  {
    assert ROpcode(ADD) == 0x33 && ROpcode(ADDW) == 0x3B && ROpcode(LRW) == 0x2F && ROpcode(FADDS) == 0x53;
  }

  lemma R4Opcodes(op: int)
    requires 0 <= op < 0x80
    ensures (exists n: IName :: R4Opcode(n) == op) <==> TypeOfOpcode(op) == R4
  {
    assert R4Opcode(FMADDS) == 0x43 && R4Opcode(FMSUBS) == 0x47;
    assert R4Opcode(FNMSUBS) == 0x4B && R4Opcode(FNMADDS) == 0x4F;
  }

  lemma SBUJOpcodes(op: int)
    requires 0 <= op < 0x80
    ensures (exists n: IName :: SOpcode(n) == op) <==> TypeOfOpcode(op) == S
    ensures (exists n: IName :: BOpcode(n) == op) <==> TypeOfOpcode(op) == B
    ensures (exists n: IName :: UOpcode(n) == op) <==> TypeOfOpcode(op) == U
    ensures (exists n: IName :: JOpcode(n) == op) <==> TypeOfOpcode(op) == J
  {
    assert SOpcode(SB) == 0x23 && SOpcode(FSW) == 0x27 && BOpcode(BEQ) == 0x63;
    assert UOpcode(LUI) == 0x37 && UOpcode(AUIPC) == 0x17 && JOpcode(JAL) == 0x6F;
  }

  // ----- where the decoder departs from the listing -----

  /** Decoding throws exactly for the two listed instructions that have no printable name:
      FNMADD.S and FCVT.S.L. */
  lemma ThrowsExactly(t: InstrType, f: Fields)
    requires InRange(f) && t == TypeOfOpcode(f.opcode)
    ensures Listed(t, f).Throws? <==>
      (f.opcode == 0x4F && f.funct2 == 0) || (f.opcode == 0x53 && f.funct7 == 0x68 && f.rs2 == 2)
  {
    if f.opcode == 0x53 { FpThrows(f); }
    else if f.opcode == 0x2F { AmoNeverThrows(f); }
    else if t == R { RegNeverThrows(f); }
    else if t == R4 { FusedThrows(f); }
    else { OthersNeverThrow(t, f); }
  }

  lemma FpThrows(f: Fields)
    requires InRange(f) && f.opcode == 0x53
    ensures Listed(R, f).Throws? <==> f.funct7 == 0x68 && f.rs2 == 2
  {
  }

  lemma AmoNeverThrows(f: Fields)
    requires InRange(f) && f.opcode == 0x2F
    ensures Listed(R, f).Ok?
  {
    AmoRowIsListed(ListR(f), f);
  }

  lemma RegNeverThrows(f: Fields)
    requires InRange(f) && TypeOfOpcode(f.opcode) == R && f.opcode != 0x53 && f.opcode != 0x2F
    ensures Listed(R, f).Ok?
  {
  }

  lemma FusedThrows(f: Fields)
    requires InRange(f) && TypeOfOpcode(f.opcode) == R4
    ensures Listed(R4, f).Throws? <==> f.opcode == 0x4F && f.funct2 == 0
  {
  }

  lemma OthersNeverThrow(t: InstrType, f: Fields)
    requires InRange(f) && t == TypeOfOpcode(f.opcode) && t != R && t != R4
    ensures Listed(t, f).Ok? && f.opcode != 0x4F
  {
  }

  /** `RS3_MASK` omits a digit of the field: the third source register is right exactly when it is even. */
  lemma Rs3DropsItsLowestBit(w: bv32)
    ensures Rs3(w) == (w >> 27) as bv5 <==> w & 0x0800_0000 == 0
  {
  }

  // ----- handlers -----

  /** The names in the function table of `init_func_map`. */
  predicate HasHandler(n: IName) {
    match n
    case LB | LH | LW | LBU | LHU | LD | LWU | ADDI | ADDIW | SLTI | SLTIU | XORI | ORI | OR | ANDI | AND |
         SLLI | SRLI | SRA | SRAI | SLLIW | SRLIW | SRAIW | SRAW | SRLW | FENCE | FENCEI | ECALL | EBREAK |
         CSRRW | CSRRS | CSRRC | CSRRWI | CSRRSI | CSRRCI | BEQ | BNE | BLT | BGE | BLTU | BGEU | SB | SH |
         SW | SD | ADD | ADDW | SUB | SUBW | SLL | SLLW | SLT | SLTU | XOR | SRL | LUI | AUIPC | JAL | JALR |
         MUL | MULH | MULHSU | MULHU | DIV | DIVU | REM | REMU | MULW | DIVW | DIVUW | REMW | REMUW |
         AMOSWAPW | AMOADDW | AMOXORW | AMOANDW | AMOORW | AMOMINW | AMOMAXW | AMOMINUW | AMOMAXUW | LRW |
         SCW | AMOSWAPD | AMOADDD | AMOXORD | AMOANDD | AMOORD | AMOMIND | AMOMAXD | AMOMINUD | AMOMAXUD |
         LRD | SCD | MRET | SRET | FLW | FSW | FMADDS | FMSUBS | FNMSUBS | FNMADDS | FADDS | FSUBS | FMULS |
         FDIVS | FSGNJS | FSGNJNS | FSGNJXS | FMINS | FMAXS | FCVTWS | FCVTWUS | FMVXW | FEQS | FLTS | FLES |
         FCVTSW | FCVTSWU | FMVWX | FCVTLS | FCVTLUS | FCVTSL | FCVTSLU | FCLASSS | XXX => true
    case _ => false
  }

  /** Only FSQRT.S has no method to dispatch to. */
  lemma OnlySquareRootLacksHandler(n: IName)
    ensures HasHandler(n) <==> n != FSQRTS
  {
  }

  /** Yet it decodes. */
  lemma SquareRootDecodes()
    ensures exists f: Fields :: InRange(f) && Listed(TypeOfOpcode(f.opcode), f) == Ok(Instruction(R, FSQRTS, f))
  {
    var f := NO_FIELDS.(opcode := 0x53, funct7 := 0x2C);
    assert InRange(f) && TypeOfOpcode(f.opcode) == R;
    assert Listed(R, f) == Ok(Instruction(R, FSQRTS, f));
  }
}
