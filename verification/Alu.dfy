/** The integer and M-extension instructions, twice: as the ISA defines them on unsigned
    64-bit words, and as the emulator computes them on `int64_t` registers through casts,
    masks and 128-bit products. `OpRefinesIsa` and `OpImmRefinesIsa` tie the two. */
module Alu {
  import opened Bits
  import opened Words
  import opened Names

  /** Register-register instructions of RV64I. */
  predicate IsBaseOp(n: IName) {
    n == ADDW || ADD <= n <= AND
  }

  /** Instructions of RV64M. */
  predicate IsMulOp(n: IName) {
    MUL <= n <= REMUW
  }

  predicate IsRegOp(n: IName) { IsBaseOp(n) || IsMulOp(n) }

  /** Register-immediate instructions. */
  predicate IsImmOp(n: IName) {
    ADDI <= n <= SRAIW && n != ADDW
  }

  /** The register-register instruction that an immediate form abbreviates. */
  function RegForm(n: IName): (r: IName)
    requires IsImmOp(n)
    ensures IsBaseOp(r)
  {
    match n
    case ADDI => ADD case ADDIW => ADDW case SLTI => SLT case SLTIU => SLTU
    case XORI => XOR case ORI => OR case ANDI => AND
    case SLLI => SLL case SRLI => SRL case SRAI => SRA
    case SLLIW => SLLW case SRLIW => SRLW case _ => SRAW
  }

  // ----- the ISA: unsigned words -----

  /** The 64-bit word whose low half is `w` and whose upper 32 digits all repeat digit 31. */
  function Sext32(w: U32): U64 {
    if w < 0x8000_0000 then w else w + 0xFFFF_FFFF_0000_0000
  }

  /** Division rounding toward zero, from magnitudes and signs. */
  function Quot(x: int, y: int): int
    requires y != 0
  {
    var q := Abs(x) / Abs(y);
    if (x < 0) == (y < 0) then q else -q
  }

  function Abs(x: int): nat { if x < 0 then -x else x }

  function IsaAdd(a: U64, b: U64): U64 { U64Of(a + b) }
  function IsaSub(a: U64, b: U64): U64 { U64Of(a - b) }
  function IsaSlt(a: U64, b: U64): U64 { if I64Of(a) < I64Of(b) then 1 else 0 }
  function IsaSltu(a: U64, b: U64): U64 { if a < b then 1 else 0 }
  function IsaXor(a: U64, b: U64): U64 { BitwiseBound64(a, b); Xor(a, b) }
  function IsaOr(a: U64, b: U64): U64 { BitwiseBound64(a, b); Or(a, b) }
  function IsaAnd(a: U64, b: U64): U64 { And(a, b) }
  function IsaSll(a: U64, b: U64): U64 { U64Of(a * Pow2(b % 64)) }
  function IsaSrl(a: U64, b: U64): U64 { DivAtMost(a, Pow2(b % 64)); a / Pow2(b % 64) }
  function IsaSra(a: U64, b: U64): U64 { U64Of(I64Of(a) / Pow2(b % 64)) }
  function IsaAddw(a: U64, b: U64): U64 { Sext32(U32Of(a + b)) }
  function IsaSubw(a: U64, b: U64): U64 { Sext32(U32Of(a - b)) }
  function IsaSllw(a: U64, b: U64): U64 { Sext32(U32Of(a * Pow2(b % 32))) }
  function IsaSrlw(a: U64, b: U64): U64 { DivAtMost(U32Of(a), Pow2(b % 32)); Sext32(U32Of(a) / Pow2(b % 32)) }
  function IsaSraw(a: U64, b: U64): U64 { U64Of(I32Of(a) / Pow2(b % 32)) }

  function IsaMul(a: U64, b: U64): U64 { U64Of(a * b) }
  function IsaMulh(a: U64, b: U64): U64 { U64Of(Hi64(I64Of(a) * I64Of(b))) }
  function IsaMulhu(a: U64, b: U64): U64 { MulHighBound(a, b); Hi64(a * b) }
  function IsaMulhsu(a: U64, b: U64): U64 { U64Of(Hi64(I64Of(a) * b)) }
  function IsaMulw(a: U64, b: U64): U64 { Sext32(U32Of(a * b)) }

  /** Division by zero yields all ones, remainder by zero the dividend; the one signed overflow
      needs no case of its own, because the quotient 2^63 wraps to the dividend. */
  function IsaDiv(a: U64, b: U64): U64 {
    if b == 0 then 0xFFFF_FFFF_FFFF_FFFF else U64Of(Quot(I64Of(a), I64Of(b)))
  }
  function IsaRem(a: U64, b: U64): U64 {
    if b == 0 then a else U64Of(I64Of(a) - I64Of(b) * Quot(I64Of(a), I64Of(b)))
  }
  function IsaDivu(a: U64, b: U64): U64 { if b == 0 then 0xFFFF_FFFF_FFFF_FFFF else DivAtMost(a, b); a / b }
  function IsaRemu(a: U64, b: U64): U64 { if b == 0 then a else a % b }
  function IsaDivw(c: U32, d: U32): U64 {
    if d == 0 then 0xFFFF_FFFF_FFFF_FFFF else Sext32(U32Of(Quot(I32Of(c), I32Of(d))))
  }
  function IsaRemw(c: U32, d: U32): U64 {
    if d == 0 then Sext32(c) else Sext32(U32Of(I32Of(c) - I32Of(d) * Quot(I32Of(c), I32Of(d))))
  }
  function IsaDivuw(c: U32, d: U32): U64 {
    if d == 0 then 0xFFFF_FFFF_FFFF_FFFF else DivAtMost(c, d); Sext32(c / d)
  }
  function IsaRemuw(c: U32, d: U32): U64 { if d == 0 then Sext32(c) else Sext32(c % d) }

  function IsaBaseOp(n: IName, a: U64, b: U64): U64
    requires IsBaseOp(n)
  {
    match n
    case ADD => IsaAdd(a, b) case SUB => IsaSub(a, b) case SLT => IsaSlt(a, b) case SLTU => IsaSltu(a, b)
    case XOR => IsaXor(a, b) case OR => IsaOr(a, b) case AND => IsaAnd(a, b)
    case SLL => IsaSll(a, b) case SRL => IsaSrl(a, b) case SRA => IsaSra(a, b)
    case ADDW => IsaAddw(a, b) case SUBW => IsaSubw(a, b)
    case SLLW => IsaSllw(a, b) case SRLW => IsaSrlw(a, b) case _ => IsaSraw(a, b)
  }

  function IsaMulOp(n: IName, a: U64, b: U64): U64
    requires IsMulOp(n)
  {
    match n
    case MUL => IsaMul(a, b) case MULH => IsaMulh(a, b) case MULHU => IsaMulhu(a, b)
    case MULHSU => IsaMulhsu(a, b) case MULW => IsaMulw(a, b)
    case DIV => IsaDiv(a, b) case DIVU => IsaDivu(a, b) case REM => IsaRem(a, b) case REMU => IsaRemu(a, b)
    case DIVW => IsaDivw(U32Of(a), U32Of(b)) case DIVUW => IsaDivuw(U32Of(a), U32Of(b))
    case REMW => IsaRemw(U32Of(a), U32Of(b)) case _ => IsaRemuw(U32Of(a), U32Of(b))
  }

  /** The word an instruction leaves in rd, for source words `a` and `b`. */
  function IsaOp(n: IName, a: U64, b: U64): U64
    requires IsRegOp(n)
  {
    if IsBaseOp(n) then IsaBaseOp(n, a, b) else IsaMulOp(n, a, b)
  }

  // ----- the emulator: signed registers and casts -----

  function AddResult(x: I64, y: I64): I64 { I64Of(x + y) }
  function SubResult(x: I64, y: I64): I64 { I64Of(x - y) }
  function SltResult(x: I64, y: I64): I64 { if x < y then 1 else 0 }
  function SltuResult(x: I64, y: I64): I64 { if U64Of(x) < U64Of(y) then 1 else 0 }
  function XorResult(x: I64, y: I64): I64 { I64Of(Xor(U64Of(x), U64Of(y))) }
  function OrResult(x: I64, y: I64): I64 { I64Of(Or(U64Of(x), U64Of(y))) }
  function AndResult(x: I64, y: I64): I64 { I64Of(And(U64Of(x), U64Of(y))) }
  function SllResult(x: I64, s: nat): I64 { I64Of(U64Of(U64Of(x) * Pow2(And(s, 0x3F)))) }
  function SrlResult(x: I64, s: nat): I64 { I64Of(U64Of(x) / Pow2(And(s, 0x3F))) }
  function SraResult(x: I64, s: nat): I64 { ShiftRange(x, And(s, 0x3F)); x / Pow2(And(s, 0x3F)) }
  function AddwResult(x: I64, y: I64): I64 { I32Of(I32Of(x) + I32Of(y)) }
  function SubwResult(x: I64, y: I64): I64 { I32Of(I32Of(x) - I32Of(y)) }
  function AddiwResult(x: I64, i: I64): I64 { I32Of(And(U64Of(I64Of(x + i)), 0xFFFF_FFFF)) }
  function SllwResult(x: I64, s: nat): I64 { I32Of(U32Of(U32Of(x) * Pow2(And(s, 0x1F)))) }
  function SrlwResult(x: I64, s: nat): I64 { I32Of(U32Of(x) / Pow2(And(s, 0x1F))) }
  function SrawResult(x: I64, s: nat): I64 { ShiftRange(I32Of(x), And(s, 0x1F)); I32Of(x) / Pow2(And(s, 0x1F)) }

  function MulResult(x: I64, y: I64): I64 { I64Of(x * y) }
  function MulhResult(x: I64, y: I64): I64 { I64Of(Hi64(x * y)) }
  function MulhuResult(x: I64, y: I64): I64 { I64Of(Hi64(U64Of(x) * U64Of(y))) }
  function MulhsuResult(x: I64, y: I64): I64 { I64Of(Hi64(U128Of(U128Of(x) * U64Of(y)))) }
  function MulwResult(x: I64, y: I64): I64 {
    I32Of(I32Of(And(U64Of(x), 0xFFFF_FFFF)) * I32Of(And(U64Of(y), 0xFFFF_FFFF)))
  }
  function DivResult(x: I64, y: I64): I64 {
    if y == 0 then I64Of(0xFFFF_FFFF_FFFF_FFFF)
    else if x == -0x8000_0000_0000_0000 && y == -1 then x
    else CDivRange(x, y); CDiv(x, y)
  }
  function RemResult(x: I64, y: I64): I64 {
    if y == 0 then x
    else if x == -0x8000_0000_0000_0000 && y == -1 then 0
    else CRemRange(x, y); CRem(x, y)
  }
  function DivuResult(x: I64, y: I64): I64 {
    if y == 0 then I64Of(0xFFFF_FFFF_FFFF_FFFF) else I64Of(U64Of(x) / U64Of(y))
  }
  function RemuResult(x: I64, y: I64): I64 { if y == 0 then x else I64Of(U64Of(x) % U64Of(y)) }
  function DivwResult(x: I32, y: I32): I64 {
    if y == 0 then I64Of(0xFFFF_FFFF_FFFF_FFFF)
    else if y == -1 && x == -0x8000_0000 then x
    else CDivRange(x, y); CDiv(x, y)
  }
  function RemwResult(x: I32, y: I32): I64 {
    if y == 0 then x
    else if y == -1 && x == -0x8000_0000 then 0
    else CRemRange(x, y); CRem(x, y)
  }
  function DivuwResult(x: U32, y: U32): I64 {
    if y == 0 then I64Of(0xFFFF_FFFF_FFFF_FFFF) else I32Of(x / y)
  }
  function RemuwResult(x: U32, y: U32): I64 { if y == 0 then I32Of(x) else I32Of(x % y) }

  function BaseOpResult(n: IName, x: I64, y: I64): I64
    requires IsBaseOp(n)
  {
    match n
    case ADD => AddResult(x, y) case SUB => SubResult(x, y) case SLT => SltResult(x, y) case SLTU => SltuResult(x, y)
    case XOR => XorResult(x, y) case OR => OrResult(x, y) case AND => AndResult(x, y)
    case SLL => SllResult(x, U64Of(y)) case SRL => SrlResult(x, U64Of(y)) case SRA => SraResult(x, U64Of(y))
    case ADDW => AddwResult(x, y) case SUBW => SubwResult(x, y)
    case SLLW => SllwResult(x, U64Of(y)) case SRLW => SrlwResult(x, U64Of(y)) case _ => SrawResult(x, U64Of(y))
  }

  function MulOpResult(n: IName, x: I64, y: I64): I64
    requires IsMulOp(n)
  {
    match n
    case MUL => MulResult(x, y) case MULH => MulhResult(x, y) case MULHU => MulhuResult(x, y)
    case MULHSU => MulhsuResult(x, y) case MULW => MulwResult(x, y)
    case DIV => DivResult(x, y) case DIVU => DivuResult(x, y) case REM => RemResult(x, y) case REMU => RemuResult(x, y)
    case DIVW => DivwResult(I32Of(x), I32Of(y)) case DIVUW => DivuwResult(U32Of(x), U32Of(y))
    case REMW => RemwResult(I32Of(x), I32Of(y)) case _ => RemuwResult(U32Of(x), U32Of(y))
  }

  /** `res` of the register-register methods, on register values `x` and `y`. */
  function OpResult(n: IName, x: I64, y: I64): I64
    requires IsRegOp(n)
  {
    if IsBaseOp(n) then BaseOpResult(n, x, y) else MulOpResult(n, x, y)
  }

  /** `res` of the register-immediate methods; `imm` is the decoder's 32-bit immediate.
      ADDIW adds in 64 bits and masks, where ADDW adds in 32; shifts mask the immediate itself. */
  function OpImmResult(n: IName, x: I64, imm: U32): I64
    requires IsImmOp(n)
  {
    var i: I64 := I32Of(imm);
    match n
    case ADDI => AddResult(x, i) case SLTI => SltResult(x, i) case SLTIU => SltuResult(x, i)
    case ADDIW => AddiwResult(x, i)
    case XORI => XorResult(x, i) case ORI => OrResult(x, i) case ANDI => AndResult(x, i)
    case SLLI => SllResult(x, imm) case SRLI => SrlResult(x, imm) case SRAI => SraResult(x, imm)
    case SLLIW => SllwResult(x, imm) case SRLIW => SrlwResult(x, imm) case _ => SrawResult(x, imm)
  }

  /** Whether the method also raises the divide-by-zero bit in FFLAGS. */
  predicate RaisesDivideByZero(n: IName, x: I64, y: I64) {
    (n in {DIV, DIVU} && y == 0) || (n == DIVW && I32Of(y) == 0) || (n == DIVUW && U32Of(y) == 0)
  }

  // ----- ranges -----

  lemma BitwiseBound64(a: U64, b: U64)
    ensures Xor(a, b) < 0x1_0000_0000_0000_0000 && Or(a, b) < 0x1_0000_0000_0000_0000
  {
    Pow2Values();
    BitwiseBound(a, b, 64);
  }

  lemma MulHighBound(a: U64, b: U64)
    ensures 0 <= Hi64(a * b) < 0x1_0000_0000_0000_0000
  {
    MulMono(a, 0, b);
    MulMono(a, b, 0xFFFF_FFFF_FFFF_FFFF);
  }

  lemma DivAtMost(a: int, b: int)
    requires a >= 0 && b > 0
    ensures 0 <= a / b <= a
  {
    var q := a / b;
    assert a == b * q + a % b;
    if q < 0 { MulAtLeast(b, -q); }
    if q > 0 { MulAtLeast(q, b); }
  }

  lemma ShiftRange(x: int, s: nat)
    ensures x >= 0 ==> 0 <= x / Pow2(s) <= x
    ensures x < 0 ==> x <= x / Pow2(s) < 0
  {
    var p := Pow2(s);
    if x >= 0 { DivAtMost(x, p); }
    else {
      var y := -x - 1;
      DivAtMost(y, p);
      assert y == p * (y / p) + y % p;
      assert x == p * (-(y / p) - 1) + (p - 1 - y % p);
      DivModUnique(x, p, -(y / p) - 1, p - 1 - y % p);
    }
  }

  lemma HalfAtMost(m: int, d: int)
    requires m > 0 && d > 1
    ensures m / d < m
  {
    var q := m / d;
    assert m == d * q + m % d;
    if q > 0 { MulAtLeast(q, d - 1); assert d * q == q * (d - 1) + q; }
  }

  /** C++ division rounds toward zero and stays within the dividend's magnitude. */
  lemma CDivRange(x: int, y: int)
    requires y != 0
    ensures CDiv(x, y) == Quot(x, y)
    ensures Abs(Quot(x, y)) <= Abs(x)
    ensures Abs(y) > 1 && x != 0 ==> Abs(Quot(x, y)) < Abs(x)
    ensures if (x < 0) == (y < 0) then Quot(x, y) >= 0 else Quot(x, y) <= 0
  {
    var m: int, d: int := Abs(x), Abs(y);
    DivAtMost(m, d);
    if d > 1 && m > 0 { HalfAtMost(m, d); }
    if y < 0 { DivByNegative(m, d); }
  }

  lemma DivByNegative(m: int, d: int)
    requires m >= 0 && d > 0
    ensures m / (-d) == -(m / d)
  {
    var q := m / d;
    assert m == d * q + m % d;
    assert (-d) * (-q) == d * q;
    NegDivUnique(m, -d, -q, m % d);
  }

  lemma NegDivUnique(x: int, y: int, q: int, r: int)
    requires y < 0 <= r < -y && x == y * q + r
    ensures x / y == q
  {
    var q', r' := x / y, x % y;
    assert x == y * q' + r';
    if q > q' { MulAtLeast(-y, q - q'); }
    if q < q' { MulAtLeast(-y, q' - q); }
    assert (-y) * (q - q') == r - r';
  }

  /** C++ remainder is smaller than the divisor and carries the dividend's sign. */
  lemma CRemRange(x: int, y: int)
    requires y != 0
    ensures CRem(x, y) == x - y * Quot(x, y)
    ensures CRem(x, y) == if x < 0 then -(Abs(x) % Abs(y)) else Abs(x) % Abs(y)
    ensures Abs(CRem(x, y)) < Abs(y) && Abs(CRem(x, y)) <= Abs(x)
    ensures CRem(x, y) != 0 ==> (CRem(x, y) < 0 <==> x < 0)
  {
    var m: int, d: int := Abs(x), Abs(y);
    CDivRange(x, y);
    QuotTimes(x, y, d, m / d);
    ModAtMost(m, d);
  }

  lemma ModAtMost(m: int, d: int)
    requires m >= 0 && d > 0
    ensures m == d * (m / d) + m % d && 0 <= m % d <= m && m % d < d
  {
    DivAtMost(m, d);
    MulMono(d, 0, m / d);
  }

  lemma QuotTimes(x: int, y: int, d: int, k: int)
    requires y != 0 && d == Abs(y) && k == Abs(x) / d
    ensures y * Quot(x, y) == if x < 0 then -(d * k) else d * k
  {
    assert (-d) * k == -(d * k) == d * (-k);
    assert (-d) * (-k) == d * k;
  }

  // ----- the emulator computes what the ISA says -----

  lemma LowMasks(u: nat)
    ensures And(u, 0x3F) == u % 64 && And(u, 0x1F) == u % 32 && And(u, 0xFFFF_FFFF) == U32Of(u)
  {
    Pow2Values();
    assert Pow2(5) == 32 && Pow2(6) == 64;
    AndLow(u, 5); AndLow(u, 6); AndLow(u, 32);
    LowIsMod(u, 5); LowIsMod(u, 6); LowIsMod(u, 32);
  }

  /** A 32-bit result converted to `int64_t` is the sign-extended word. */
  lemma SextOfI32(x: int)
    ensures U64Of(I32Of(x)) == Sext32(U32Of(x))
  {
  }

  lemma AddRefines(x: I64, y: I64)
    ensures U64Of(AddResult(x, y)) == IsaAdd(U64Of(x), U64Of(y))
    ensures U64Of(SubResult(x, y)) == IsaSub(U64Of(x), U64Of(y))
  {
    AddMod(x, U64Of(x), y, U64Of(y), 0x1_0000_0000_0000_0000);
    U64OfI64(x + y);
    U64OfI64(x - y);
  }

  lemma SltRefines(x: I64, y: I64)
    ensures U64Of(SltResult(x, y)) == IsaSlt(U64Of(x), U64Of(y))
    ensures U64Of(SltuResult(x, y)) == IsaSltu(U64Of(x), U64Of(y))
  {
    I64RoundTrip(x); I64RoundTrip(y);
  }

  lemma WordRoundTrip(r: U64)
    ensures U64Of(I64Of(r)) == r
  {
  }

  lemma BitwiseRefines(x: I64, y: I64)
    ensures U64Of(XorResult(x, y)) == IsaXor(U64Of(x), U64Of(y))
    ensures U64Of(OrResult(x, y)) == IsaOr(U64Of(x), U64Of(y))
    ensures U64Of(AndResult(x, y)) == IsaAnd(U64Of(x), U64Of(y))
  {
    var a, b := U64Of(x), U64Of(y);
    BitwiseBound64(a, b);
    WordRoundTrip(Xor(a, b)); WordRoundTrip(Or(a, b)); WordRoundTrip(And(a, b));
  }

  lemma ShiftRefines(x: I64, b: U64)
    ensures U64Of(SllResult(x, b)) == IsaSll(U64Of(x), b)
    ensures U64Of(SrlResult(x, b)) == IsaSrl(U64Of(x), b)
    ensures U64Of(SraResult(x, b)) == IsaSra(U64Of(x), b)
  {
    var a: int, p: int := U64Of(x), Pow2(b % 64);
    LowMasks(b);
    I64RoundTrip(x);
    U64OfI64(a * p); U64OfI64(U64Of(a * p));
    DivAtMost(a, p); WordRoundTrip(a / p);
  }

  lemma AddwRefines(x: I64, y: I64, a: U64, b: U64)
    requires U32Of(a) == U32Of(x) && U32Of(b) == U32Of(y)
    ensures U64Of(AddwResult(x, y)) == IsaAddw(a, b)
    ensures U64Of(SubwResult(x, y)) == IsaSubw(a, b)
  {
    var c: int, d: int := I32Of(x), I32Of(y);
    U32OfI32(x); U32OfI32(y);
    AddMod(c, a, d, b, 0x1_0000_0000);
    SextOfI32(c + d); SextOfI32(c - d);
  }

  lemma SllwRefines(x: I64, a: U64, b: U64)
    requires U32Of(a) == U32Of(x)
    ensures U64Of(SllwResult(x, b)) == IsaSllw(a, b)
  {
    var c: int, p: int := U32Of(x), Pow2(b % 32);
    LowMasks(b);
    U32OfI32(x);
    MulMod(c, a, p, p, 0x1_0000_0000);
    U32OfI32(c * p);
    SextOfI32(c * p);
  }

  lemma SrlwBy(x: I64, p: nat)
    requires p > 0
    ensures 0 <= U32Of(x) / p < 0x1_0000_0000 && U64Of(I32Of(U32Of(x) / p)) == Sext32(U32Of(x) / p)
  {
    DivAtMost(U32Of(x), p);
    SextOfI32(U32Of(x) / p);
  }

  lemma SrwRefines(x: I64, a: U64, b: U64)
    requires U32Of(a) == U32Of(x)
    ensures U64Of(SrlwResult(x, b)) == IsaSrlw(a, b)
    ensures U64Of(SrawResult(x, b)) == IsaSraw(a, b)
  {
    LowMasks(b);
    SrlwBy(x, Pow2(b % 32));
    assert I32Of(x) == I32Of(a);
  }

  lemma MulRefines(x: I64, y: I64)
    ensures U64Of(MulResult(x, y)) == IsaMul(U64Of(x), U64Of(y))
  {
    MulMod(x, U64Of(x), y, U64Of(y), 0x1_0000_0000_0000_0000);
    U64OfI64(x * y);
  }

  lemma MulhRefines(x: I64, y: I64)
    ensures U64Of(MulhResult(x, y)) == IsaMulh(U64Of(x), U64Of(y))
    ensures U64Of(MulhuResult(x, y)) == IsaMulhu(U64Of(x), U64Of(y))
    ensures U64Of(MulhsuResult(x, y)) == IsaMulhsu(U64Of(x), U64Of(y))
  {
    var a: int, b: int := U64Of(x), U64Of(y);
    I64RoundTrip(x); I64RoundTrip(y);
    U64OfI64(Hi64(x * y));
    MulHighBound(a, b); WordRoundTrip(Hi64(a * b));
    U64OfI64(Hi64(U128Of(U128Of(x) * b))); HighHalf(x, b);
  }

  /** Sign-extending one factor to 128 bits and multiplying unsigned leaves the signed product's
      high half: the wrap-around costs a multiple of 2^64 there. */
  lemma HighHalf(x: I64, b: U64)
    ensures U64Of(Hi64(U128Of(U128Of(x) * b))) == U64Of(Hi64(x * b))
  {
    MulMod(U128Of(x), x, b, b, 0x1_0000_0000_0000_0000_0000_0000_0000_0000);
    HighHalfOf(x * b);
  }

  lemma HighHalfOf(p: int)
    ensures U64Of(Hi64(U128Of(p))) == U64Of(Hi64(p))
  {
    var q, r := p / 0x1_0000_0000_0000_0000_0000_0000_0000_0000, U128Of(p);
    var h, l := Hi64(r), U64Of(r);
    var k := 0x1_0000_0000_0000_0000 * q + h;
    assert p == 0x1_0000_0000_0000_0000 * k + l;
    DivModUnique(p, 0x1_0000_0000_0000_0000, k, l);
    ModShift(h, q, 0x1_0000_0000_0000_0000);
  }

  lemma MulwRefines(x: I64, y: I64)
    ensures U64Of(MulwResult(x, y)) == IsaMulw(U64Of(x), U64Of(y))
  {
    var a: int, b: int := U64Of(x), U64Of(y);
    LowMasks(a); LowMasks(b);
    U32OfI32(a); U32OfI32(b);
    var c: int, d: int := I32Of(a), I32Of(b);
    MulMod(c, a, d, b, 0x1_0000_0000);
    SextOfI32(c * d);
  }

  /** The code's special case is the one quotient outside the type: it wraps. */
  lemma DivIsQuot(x: I64, y: I64)
    requires y != 0
    ensures DivResult(x, y) == I64Of(Quot(x, y))
  {
    CDivRange(x, y);
    if x == -0x8000_0000_0000_0000 && y == -1 { assert Quot(x, y) == 0x8000_0000_0000_0000; }
    else { SmallSigned(CDiv(x, y)); }
  }

  lemma DivwIsQuot(x: I32, y: I32)
    requires y != 0
    ensures DivwResult(x, y) == I32Of(Quot(x, y))
  {
    CDivRange(x, y);
    if x == -0x8000_0000 && y == -1 { assert Quot(x, y) == 0x8000_0000; }
    else { SmallSigned32(CDiv(x, y)); }
  }

  lemma RemIsRem(x: I64, y: I64)
    requires y != 0
    ensures RemResult(x, y) == x - y * Quot(x, y)
  {
    CRemRange(x, y);
    if y == -1 { assert Quot(x, y) + x == 0; }
  }

  lemma RemwIsRem(x: I32, y: I32)
    requires y != 0
    ensures RemwResult(x, y) == x - y * Quot(x, y)
    ensures -0x8000_0000 <= RemwResult(x, y) < 0x8000_0000
  {
    CRemRange(x, y);
    if y == -1 { assert Quot(x, y) + x == 0; }
  }

  /** The branches of the code are the cases of section 7.2 of the Unprivileged ISA. */
  lemma DivRefines(x: I64, y: I64)
    ensures U64Of(DivResult(x, y)) == IsaDiv(U64Of(x), U64Of(y))
  {
    I64RoundTrip(x); I64RoundTrip(y);
    if y != 0 { DivIsQuot(x, y); U64OfI64(Quot(x, y)); }
  }

  lemma RemRefines(x: I64, y: I64)
    ensures U64Of(RemResult(x, y)) == IsaRem(U64Of(x), U64Of(y))
  {
    I64RoundTrip(x); I64RoundTrip(y);
    if y != 0 { RemIsRem(x, y); }
  }

  lemma DivuRefines(x: I64, y: I64)
    ensures U64Of(DivuResult(x, y)) == IsaDivu(U64Of(x), U64Of(y))
    ensures U64Of(RemuResult(x, y)) == IsaRemu(U64Of(x), U64Of(y))
  {
    var a: int, b: int := U64Of(x), U64Of(y);
    if b != 0 { DivAtMost(a, b); WordRoundTrip(a / b); WordRoundTrip(a % b); }
  }

  lemma DivwRefines(c: U32, d: U32)
    ensures U64Of(DivwResult(I32Of(c), I32Of(d))) == IsaDivw(c, d)
  {
    var x, y := I32Of(c), I32Of(d);
    if d != 0 { DivwIsQuot(x, y); SextOfI32(Quot(x, y)); }
  }

  lemma RemwRefines(c: U32, d: U32)
    ensures U64Of(RemwResult(I32Of(c), I32Of(d))) == IsaRemw(c, d)
  {
    var x, y := I32Of(c), I32Of(d);
    SextOfI32(c);
    if d != 0 {
      RemwIsRem(x, y);
      SmallSext(RemwResult(x, y));
    }
  }

  lemma DivuwRefines(c: U32, d: U32)
    ensures U64Of(DivuwResult(c, d)) == IsaDivuw(c, d)
    ensures U64Of(RemuwResult(c, d)) == IsaRemuw(c, d)
  {
    SextOfU32(c);
    if d != 0 { DivAtMost(c, d); SextOfU32(c / d); SextOfU32(c % d); }
  }

  lemma SmallSext(r: I32) ensures U64Of(r) == Sext32(U32Of(r)) {}

  lemma SextOfU32(w: U32) ensures U64Of(I32Of(w)) == Sext32(w) {}

  lemma BaseOpRefines(n: IName, x: I64, y: I64)
    requires IsBaseOp(n)
    ensures U64Of(BaseOpResult(n, x, y)) == IsaBaseOp(n, U64Of(x), U64Of(y))
  {
    var a, b := U64Of(x), U64Of(y);
    match n
    case ADD | SUB => AddRefines(x, y);
    case SLT | SLTU => SltRefines(x, y);
    case XOR | OR | AND => BitwiseRefines(x, y);
    case SLL | SRL | SRA => ShiftRefines(x, b);
    case ADDW | SUBW => Low32(x); Low32(y); AddwRefines(x, y, a, b);
    case SLLW => Low32(x); SllwRefines(x, a, b);
    case _ => Low32(x); SrwRefines(x, a, b);
  }

  lemma MulOpRefines(n: IName, x: I64, y: I64)
    requires IsMulOp(n)
    ensures U64Of(MulOpResult(n, x, y)) == IsaMulOp(n, U64Of(x), U64Of(y))
  {
    match n
    case MUL => MulRefines(x, y);
    case MULH | MULHU | MULHSU => MulhRefines(x, y);
    case MULW => MulwRefines(x, y);
    case DIV => DivRefines(x, y);
    case REM => RemRefines(x, y);
    case DIVU | REMU => DivuRefines(x, y);
    case DIVW => Low32(x); Low32(y); U32OfI32(x); U32OfI32(y); DivwRefines(U32Of(x), U32Of(y));
    case REMW => Low32(x); Low32(y); U32OfI32(x); U32OfI32(y); RemwRefines(U32Of(x), U32Of(y));
    case _ => Low32(x); Low32(y); DivuwRefines(U32Of(x), U32Of(y));
  }

  /** Every register-register method leaves in rd the word the ISA prescribes. */
  lemma OpRefinesIsa(n: IName, x: I64, y: I64)
    requires IsRegOp(n)
    ensures U64Of(OpResult(n, x, y)) == IsaOp(n, U64Of(x), U64Of(y))
  {
    if IsBaseOp(n) { BaseOpRefines(n, x, y); } else { MulOpRefines(n, x, y); }
  }

  /** Every register-immediate method is its register form on the sign-extended immediate. */
  lemma OpImmRefinesIsa(n: IName, x: I64, imm: U32)
    requires IsImmOp(n)
    ensures U64Of(OpImmResult(n, x, imm)) == IsaOp(RegForm(n), U64Of(x), Sext32(imm))
  {
    if n in {SLLI, SRLI, SRAI, SLLIW, SRLIW, SRAIW} { ShiftImmRefines(n, x, imm); }
    else if n == ADDIW { AddiwRefines(x, imm); }
    else { ArithImmRefines(n, x, imm); }
  }

  lemma ArithImmRefines(n: IName, x: I64, imm: U32)
    requires n in {ADDI, SLTI, SLTIU, XORI, ORI, ANDI}
    ensures U64Of(OpImmResult(n, x, imm)) == IsaBaseOp(RegForm(n), U64Of(x), Sext32(imm))
  {
    var i := I32Of(imm);
    SextOfU32(imm);
    match n
    case ADDI => AddRefines(x, i);
    case SLTI | SLTIU => SltRefines(x, i);
    case _ => BitwiseRefines(x, i);
  }

  lemma AddiwRefines(x: I64, imm: U32)
    ensures U64Of(AddiwResult(x, I32Of(imm))) == IsaAddw(U64Of(x), Sext32(imm))
  {
    var i := I32Of(imm);
    SextOfU32(imm);
    AddwWhole(x, i);
    AddiwIsAddw(x, i);
  }

  lemma AddwWhole(x: I64, y: I64)
    ensures U64Of(AddwResult(x, y)) == IsaAddw(U64Of(x), U64Of(y))
  {
    Low32(x); Low32(y);
    AddwRefines(x, y, U64Of(x), U64Of(y));
  }

  lemma ShiftImmRefines(n: IName, x: I64, imm: U32)
    requires n in {SLLI, SRLI, SRAI, SLLIW, SRLIW, SRAIW}
    ensures U64Of(OpImmResult(n, x, imm)) == IsaBaseOp(RegForm(n), U64Of(x), Sext32(imm))
  {
    SextLow(imm);
    match n
    case SLLI | SRLI | SRAI => ShiftRefines(x, imm);
    case SLLIW => Low32(x); SllwRefines(x, U64Of(x), imm);
    case _ => Low32(x); SrwRefines(x, U64Of(x), imm);
  }

  lemma SextLow(imm: U32)
    ensures Sext32(imm) % 64 == imm % 64 && Sext32(imm) % 32 == imm % 32
  {
  }

  lemma AddiwIsAddw(x: I64, i: I64)
    ensures AddiwResult(x, i) == AddwResult(x, i)
  {
    var u := U64Of(I64Of(x + i));
    Mask32(u);
    AddiwSum(x, i);
    U32OfI32(u);
  }

  lemma Mask32(u: nat)
    ensures And(u, 0xFFFF_FFFF) == U32Of(u)
  {
    LowMasks(u);
  }

  lemma AddiwSum(x: I64, i: I64)
    ensures U32Of(U64Of(I64Of(x + i))) == U32Of(I32Of(x) + I32Of(i))
  {
    U64OfI64(x + i);
    Low32(x + i);
    U32OfI32(x); U32OfI32(i);
    AddMod(I32Of(x), x, I32Of(i), i, 0x1_0000_0000);
  }
}
