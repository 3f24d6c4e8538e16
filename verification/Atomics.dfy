/** The eighteen atomic memory operations: the value the ISA puts in memory, and the value the emulator's
    methods hand to the store. */
module Atomics {
  import opened Bits
  import opened Words
  import opened Names
  import opened Alu

  predicate IsAmoW(n: IName) {
    AMOSWAPW <= n <= AMOMAXUW
  }

  predicate IsAmoD(n: IName) {
    AMOSWAPD <= n <= AMOMAXUD
  }

  predicate IsAmo(n: IName) { IsAmoW(n) || IsAmoD(n) }

  // ----- the ISA -----

  /** The new 32-bit word, from the old word `a` and the low word `b` of rs2. */
  function IsaAmoW(n: IName, a: U32, b: U32): (r: U32)
    requires IsAmoW(n)
  {
    BitwiseBound32(a, b);
    match n
    case AMOSWAPW => b
    case AMOADDW => U32Of(a + b)
    case AMOXORW => Xor(a, b)
    case AMOANDW => And(a, b)
    case AMOORW => Or(a, b)
    case AMOMINW => if Sign32(a) < Sign32(b) then a else b
    case AMOMAXW => if Sign32(a) > Sign32(b) then a else b
    case AMOMINUW => if a < b then a else b
    case _ => if a > b then a else b
  }

  /** The new 64-bit word. */
  function IsaAmoD(n: IName, a: U64, b: U64): (r: U64)
    requires IsAmoD(n)
  {
    BitwiseBound64(a, b);
    match n
    case AMOSWAPD => b
    case AMOADDD => U64Of(a + b)
    case AMOXORD => Xor(a, b)
    case AMOANDD => And(a, b)
    case AMOORD => Or(a, b)
    case AMOMIND => if Sign64(a) < Sign64(b) then a else b
    case AMOMAXD => if Sign64(a) > Sign64(b) then a else b
    case AMOMINUD => if a < b then a else b
    case _ => if a > b then a else b
  }

  // ----- the emulator -----

  /** The 64-bit datum given to a 32-bit store: `v` is what was loaded, `y` the value of rs2. */
  function AmoWResult(n: IName, v: U32, y: I64): U64
    requires IsAmoW(n)
  {
    var tmp: I32, src: I32 := I32Of(v), I32Of(U64Of(y));
    match n
    case AMOSWAPW => U64Of(src)
    case AMOADDW => U32Of(I32Of(tmp + src))
    case AMOXORW => U32Of(U64Of(I32Of(Xor(U32Of(tmp), U32Of(src)))))
    case AMOANDW => U32Of(U64Of(I32Of(And(U32Of(tmp), U32Of(src)))))
    case AMOORW => U32Of(U64Of(I32Of(Or(U32Of(tmp), U32Of(src)))))
    case AMOMINW => if tmp < src then U32Of(tmp) else U32Of(src)
    case AMOMAXW => if tmp > src then U32Of(tmp) else U32Of(src)
    case AMOMINUW => if U32Of(v) < U32Of(y) then U32Of(v) else U32Of(y)
    case _ => if U32Of(v) > U32Of(y) then U32Of(v) else U32Of(y)
  }

  function AmoDResult(n: IName, v: U64, y: I64): U64
    requires IsAmoD(n)
  {
    var tmp: I64 := I64Of(v);
    BitwiseBound64(v, U64Of(y));
    match n
    case AMOSWAPD => U64Of(y)
    case AMOADDD => U64Of(I64Of(tmp + y))
    case AMOXORD => Xor(v, U64Of(y))
    case AMOANDD => And(v, U64Of(y))
    case AMOORD => Or(v, U64Of(y))
    case AMOMIND => if tmp < y then U64Of(tmp) else U64Of(y)
    case AMOMAXD => if tmp > y then U64Of(tmp) else U64Of(y)
    case AMOMINUD => if v < U64Of(y) then v else U64Of(y)
    case _ => if v > U64Of(y) then v else U64Of(y)
  }

  lemma BitwiseBound32(a: U32, b: U32)
    ensures Xor(a, b) < 0x1_0000_0000 && Or(a, b) < 0x1_0000_0000
  {
    Pow2Values();
    BitwiseBound(a, b, 32);
  }

  lemma SmallWord(v: U32)
    ensures U32Of(v) == v && U32Of(I32Of(v)) == v && U32Of(U64Of(I32Of(v))) == v
  {
    U32OfI32(v);
    Low32(I32Of(v));
  }

  /** The stored datum has the prescribed word in its low half. */
  lemma AmoWRefines(n: IName, v: U32, y: I64)
    requires IsAmoW(n)
    ensures U32Of(AmoWResult(n, v, y)) == IsaAmoW(n, v, U32Of(y))
  {
    if n <= AMOADDW { AmoSumRefines(n, v, y); }
    else if n <= AMOORW { AmoBitsRefine(n, v, y); }
    else { AmoOrderRefines(n, v, y); }
  }

  lemma AmoSumRefines(n: IName, v: U32, y: I64)
    requires n == AMOSWAPW || n == AMOADDW
    ensures U32Of(AmoWResult(n, v, y)) == IsaAmoW(n, v, U32Of(y))
  {
    var b: U32 := U32Of(y);
    Low32(y); U32OfI32(y);
    SmallWord(b);
    if n == AMOADDW { AmoAddW(v, b); }
  }

  lemma AmoBitsRefine(n: IName, v: U32, y: I64)
    requires AMOXORW <= n <= AMOORW
    ensures U32Of(AmoWResult(n, v, y)) == IsaAmoW(n, v, U32Of(y))
  {
    var b: U32 := U32Of(y);
    Low32(y); U32OfI32(y);
    SmallWord(v); SmallWord(b);
    BitwiseBound32(v, b);
    if n == AMOXORW { SmallWord(Xor(v, b)); }
    else if n == AMOANDW { SmallWord(And(v, b)); }
    else { SmallWord(Or(v, b)); }
  }

  lemma AmoOrderRefines(n: IName, v: U32, y: I64)
    requires AMOMINW <= n <= AMOMAXUW
    ensures U32Of(AmoWResult(n, v, y)) == IsaAmoW(n, v, U32Of(y))
  {
    var b: U32 := U32Of(y);
    Low32(y); U32OfI32(y);
    SmallWord(v); SmallWord(b);
  }

  lemma AmoAddW(v: U32, b: U32)
    ensures U32Of(U32Of(I32Of(I32Of(v) + I32Of(b)))) == U32Of(v + b)
  {
    U32OfI32(v); U32OfI32(b);
    U32OfI32(I32Of(v) + I32Of(b));
    AddMod(I32Of(v), v, I32Of(b), b, 0x1_0000_0000);
  }

  lemma AmoDRefines(n: IName, v: U64, y: I64)
    requires IsAmoD(n)
    ensures AmoDResult(n, v, y) == IsaAmoD(n, v, U64Of(y))
  {
    if n == AMOADDD { AmoAddD(v, y); }
    else if n >= AMOMINUD { AmoUnsignedD(n, v, y); }
    else if n >= AMOMIND { AmoSignedD(n, v, y); }
  }

  lemma AmoAddD(v: U64, y: I64)
    ensures U64Of(I64Of(I64Of(v) + y)) == U64Of(v + U64Of(y))
  {
    I64RoundTrip(y);
    U64OfI64(v);
    AddMod(I64Of(v), v, y, U64Of(y), 0x1_0000_0000_0000_0000);
    U64OfI64(I64Of(v) + y);
    U64OfI64(y);
  }

  lemma AmoSignedD(n: IName, v: U64, y: I64)
    requires n == AMOMIND || n == AMOMAXD
    ensures AmoDResult(n, v, y) == IsaAmoD(n, v, U64Of(y))
  {
    I64RoundTrip(y);
    WordRoundTrip(v);
    SignedWord(v); SignedWord(U64Of(y));
  }

  /** For a word already in range, both readings are the same. */
  lemma SignedWord(u: U64)
    ensures I64Of(u) == Sign64(u)
  {
  }

  lemma AmoUnsignedD(n: IName, v: U64, y: I64)
    requires n == AMOMINUD || n == AMOMAXUD
    ensures AmoDResult(n, v, y) == IsaAmoD(n, v, U64Of(y))
  {
  }
}
