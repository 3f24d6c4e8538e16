/** What each load, store and atomic does to registers and memory, mnemonic by mnemonic and in plain numbers: sizes,
    addresses and bytes are spelled out here and not taken from the model. */
module AccessLaws {
  import opened Bits
  import opened Words
  import opened Names
  import opened DecodeTables
  import opened Memory
  import opened Privileged
  import opened Atomics
  import opened Isa

  /** rs1 plus the signed immediate, modulo 2^64. */
  function Base(s: State, f: Fields): int
    requires s.Valid() && RegisterFields(f)
  {
    (s.x[f.rs1] + (if f.imm < 0x8000_0000 then f.imm else f.imm - 0x1_0000_0000)) % 0x1_0000_0000_0000_0000
  }

  /** pc moves on by four and nothing else of the hart changes. */
  predicate Advanced(s: State, r: State)
    requires s.Valid()
  {
    r.hart == Hart(s.hart.mode, (s.hart.pc + 4) % 0x1_0000_0000_0000_0000, s.hart.csrs)
  }

  function Touched(p: Perm): Perm { if p.raw then Perm(p.exec, p.write, true, false) else p }

  /** The bytes from `a` on became `bs`; raw ones among them became readable, and their block is marked. */
  ghost predicate Replaced(m: Mem, r: Mem, a: int, bs: seq<int>) {
    && |r.ram| == |m.ram| == |m.perms| == |r.perms| && 0 <= a && a + |bs| < |m.ram|
    && (forall i :: 0 <= i < |m.ram| ==> r.ram[i] == (if a <= i < a + |bs| then bs[i - a] else m.ram[i]))
    && (forall i :: 0 <= i < |m.ram| ==> r.perms[i] == (if a <= i < a + |bs| then Touched(m.perms[i]) else m.perms[i]))
    && r.dirty == m.dirty + {a / 4096} && r.allocPtr == m.allocPtr
  }

  ghost predicate MayRead(m: Mem, a: int, k: int) {
    && |m.ram| == |m.perms| && 0 <= a && a + k < |m.ram|
    && forall i :: a <= i < a + k ==> m.perms[i].read && !m.perms[i].raw
  }

  predicate SetsOnly(s: State, r: State, rd: int, v: int) {
    |s.x| == 32 && 0 <= rd < 32 && 0 <= v < 0x1_0000_0000_0000_0000 && r.x == if rd == 0 then s.x else s.x[rd := v]
  }

  // ----- numbers of two, four and eight bytes -----

  function Two(m: Mem, a: int): int
    requires 0 <= a && a + 1 < |m.ram|
  {
    var low: int, high: int := m.ram[a], m.ram[a + 1];
    low + 0x100 * high
  }

  function Four(m: Mem, a: int): int
    requires 0 <= a && a + 3 < |m.ram|
  {
    Two(m, a) + 0x1_0000 * Two(m, a + 2)
  }

  function Eight(m: Mem, a: int): int
    requires 0 <= a && a + 7 < |m.ram|
  {
    Four(m, a) + 0x1_0000_0000 * Four(m, a + 4)
  }

  function TwoBytes(d: nat): seq<int> { [d % 256, d / 256 % 256] }

  function FourBytes(d: nat): seq<int> { TwoBytes(d) + TwoBytes(d / 0x1_0000) }

  function EightBytes(d: nat): seq<int> { FourBytes(d) + FourBytes(d / 0x1_0000_0000) }

  lemma LeAppendTwo(d: nat, n: nat)
    ensures LeBytes(d, n + 2) == TwoBytes(d) + LeBytes(d / 0x1_0000, n)
  {
    TwoDivisions(d);
    assert LeBytes(d, n + 2) == [d % 256] + LeBytes(d / 256, n + 1);
    assert LeBytes(d / 256, n + 1) == [d / 256 % 256] + LeBytes(d / 256 / 256, n);
  }

  lemma TwoDivisions(d: nat)
    ensures d / 256 / 256 == d / 0x1_0000 && d / 0x1_0000 / 0x1_0000 == d / 0x1_0000_0000
  {
  }

  lemma LeAppendFour(d: nat, n: nat)
    ensures LeBytes(d, n + 4) == FourBytes(d) + LeBytes(d / 0x1_0000_0000, n)
  {
    TwoDivisions(d);
    LeAppendTwo(d, n + 2);
    LeAppendTwo(d / 0x1_0000, n);
  }

  lemma OneByteList(d: nat)
    ensures LeBytes(d, 1) == [d % 256]
  {
    assert LeBytes(d, 1) == [d % 256] + LeBytes(d / 256, 0);
  }

  lemma TwoByteList(d: nat)
    ensures LeBytes(d, 2) == TwoBytes(d)
  {
    LeAppendTwo(d, 0);
  }

  lemma FourByteList(d: nat)
    ensures LeBytes(d, 4) == FourBytes(d)
  {
    LeAppendFour(d, 0);
  }

  lemma EightByteList(d: nat)
    ensures LeBytes(d, 8) == EightBytes(d)
  {
    LeAppendFour(d, 4);
    FourByteList(d / 0x1_0000_0000);
  }

  lemma LeOne(b: seq<Byte>)
    requires |b| == 1
    ensures Le(b) == b[0]
  {
    assert b[1..] == [];
  }

  lemma LePair(b: seq<Byte>)
    requires |b| >= 2
    ensures Le(b) == b[0] + 0x100 * b[1] + 0x1_0000 * Le(b[2..])
  {
    assert b[1..][1..] == b[2..];
  }

  lemma LeQuad(b: seq<Byte>)
    requires |b| >= 4
    ensures Le(b) == b[0] + 0x100 * b[1] + 0x1_0000 * (b[2] + 0x100 * b[3]) + 0x1_0000_0000 * Le(b[4..])
  {
    LePair(b);
    LePair(b[2..]);
    assert b[2..][2..] == b[4..];
  }

  lemma HeldOne(m: Mem, a: int)
    requires m.Valid() && m.InRam(a, 1)
    ensures Le(Bytes(m, a, 1)) == m.ram[a]
  {
    LeOne(Bytes(m, a, 1));
  }

  lemma HeldTwo(m: Mem, a: int)
    requires m.Valid() && m.InRam(a, 2)
    ensures Le(Bytes(m, a, 2)) == Two(m, a)
  {
    LePair(Bytes(m, a, 2));
  }

  lemma HeldFour(m: Mem, a: int)
    requires m.Valid() && m.InRam(a, 4)
    ensures Le(Bytes(m, a, 4)) == Four(m, a)
  {
    LeQuad(Bytes(m, a, 4));
  }

  lemma HeldEight(m: Mem, a: int)
    requires m.Valid() && m.InRam(a, 8)
    ensures Le(Bytes(m, a, 8)) == Eight(m, a)
  {
    var b := Bytes(m, a, 8);
    LeQuad(b);
    LeQuad(b[4..]);
  }

  // ----- stores -----

  lemma BaseIsAddress(s: State, n: IName, f: Fields)
    requires s.Valid() && RegisterFields(f) && (IsLoad(n) || IsStore(n))
    ensures Address(s, n, f) == Base(s, f)
  {
  }

  lemma ReplacedBy(m: Mem, a: int, d: nat, n: nat)
    requires m.Valid() && m.InRam(a, n) && Writable(m, a, n)
    ensures Replaced(m, Store(m, a, d, n), a, LeBytes(d, n))
  {
    var r := Store(m, a, d, n);
    forall i | 0 <= i < |m.ram| ensures r.ram[i] == if a <= i < a + n then LeBytes(d, n)[i - a] else m.ram[i] {
      WriteFromAt(m, LeBytes(d, n), a, i);
    }
  }

  lemma StoreStep(s: State, n: IName, f: Fields, w: nat)
    requires s.Valid() && IsStore(n) && RegisterFields(f) && Permitted(s, n, f) && w == Width(n)
    ensures var r := Outcome(s, n, f);
      r.x == s.x && Advanced(s, r) && Replaced(s.mem, r.mem, Base(s, f), LeBytes(s.x[f.rs2], w))
  {
    BaseIsAddress(s, n, f);
    assert !IsCompute(n) && !IsCsr(n) && !IsSystem(n) && !IsAtomic(n);
    assert Stores(s, n, f) && !Fatal(Raised(s, n, f));
    ReplacedBy(s.mem, Address(s, n, f), s.x[f.rs2], w);
  }

  /** SB replaces one byte. */
  lemma SBLaw(s: State, f: Fields)
    requires s.Valid() && RegisterFields(f) && Permitted(s, SB, f)
    ensures var r := Outcome(s, SB, f);
      r.x == s.x && Advanced(s, r) && Replaced(s.mem, r.mem, Base(s, f), [s.x[f.rs2] % 256])
  {
    OneByteList(s.x[f.rs2]);
    StoreStep(s, SB, f, 1);
  }

  lemma SHLaw(s: State, f: Fields)
    requires s.Valid() && RegisterFields(f) && Permitted(s, SH, f)
    ensures var r := Outcome(s, SH, f);
      r.x == s.x && Advanced(s, r) && Replaced(s.mem, r.mem, Base(s, f), TwoBytes(s.x[f.rs2]))
  {
    TwoByteList(s.x[f.rs2]);
    StoreStep(s, SH, f, 2);
  }

  lemma SWLaw(s: State, f: Fields)
    requires s.Valid() && RegisterFields(f) && Permitted(s, SW, f)
    ensures var r := Outcome(s, SW, f);
      r.x == s.x && Advanced(s, r) && Replaced(s.mem, r.mem, Base(s, f), FourBytes(s.x[f.rs2]))
  {
    FourByteList(s.x[f.rs2]);
    StoreStep(s, SW, f, 4);
  }

  lemma SDLaw(s: State, f: Fields)
    requires s.Valid() && RegisterFields(f) && Permitted(s, SD, f)
    ensures var r := Outcome(s, SD, f);
      r.x == s.x && Advanced(s, r) && Replaced(s.mem, r.mem, Base(s, f), EightBytes(s.x[f.rs2]))
  {
    EightByteList(s.x[f.rs2]);
    StoreStep(s, SD, f, 8);
  }

  // ----- loads -----

  lemma NormalIsMayRead(m: Mem, a: int, k: int)
    requires m.Valid() && m.InRam(a, k)
    ensures Status(m, a, k) == Normal <==> MayRead(m, a, k)
  {
    if MayRead(m, a, k) {
      forall i | Covers(a, k, i) ensures m.perms[i].read && !m.perms[i].raw {}
    } else {
      var i :| a <= i < a + k && !(m.perms[i].read && !m.perms[i].raw);
      assert Covers(a, k, i);
    }
  }

  /** rd receives `v` if every one of the `k` bytes may be read. */
  ghost predicate Loads(s: State, n: IName, f: Fields, k: int, v: int)
    requires s.Valid() && RegisterFields(f) && Permitted(s, n, f)
  {
    var r := Outcome(s, n, f);
    MayRead(s.mem, Base(s, f), k) ==> Advanced(s, r) && r.mem == s.mem && SetsOnly(s, r, f.rd, v)
  }

  lemma LoadStep(s: State, n: IName, f: Fields, k: nat, v: U64)
    requires s.Valid() && IsLoad(n) && RegisterFields(f) && Permitted(s, n, f) && k == Width(n)
    requires v == Extend(n, Held(s, n, f))
    ensures s.mem.InRam(Base(s, f), k) && Loads(s, n, f, k, v)
  {
    BaseIsAddress(s, n, f);
    NormalIsMayRead(s.mem, Base(s, f), k);
    assert !IsCompute(n) && !IsCsr(n) && !IsSystem(n) && !IsAtomic(n) && !Stores(s, n, f);
  }

  /** LBU leaves one byte. */
  lemma LBULaw(s: State, f: Fields)
    requires s.Valid() && RegisterFields(f) && Permitted(s, LBU, f)
    ensures s.mem.InRam(Base(s, f), 1) && Loads(s, LBU, f, 1, s.mem.ram[Base(s, f)])
  {
    LoadStep(s, LBU, f, 1, Held(s, LBU, f));
    BaseIsAddress(s, LBU, f);
    HeldOne(s.mem, Base(s, f));
  }

  /** LHU the number of two bytes. */
  lemma LHULaw(s: State, f: Fields)
    requires s.Valid() && RegisterFields(f) && Permitted(s, LHU, f)
    ensures s.mem.InRam(Base(s, f), 2) && Loads(s, LHU, f, 2, Two(s.mem, Base(s, f)))
  {
    LoadStep(s, LHU, f, 2, Held(s, LHU, f));
    BaseIsAddress(s, LHU, f);
    HeldTwo(s.mem, Base(s, f));
  }

  /** LWU the number of four. */
  lemma LWULaw(s: State, f: Fields)
    requires s.Valid() && RegisterFields(f) && Permitted(s, LWU, f)
    ensures s.mem.InRam(Base(s, f), 4) && Loads(s, LWU, f, 4, Four(s.mem, Base(s, f)))
  {
    LoadStep(s, LWU, f, 4, Held(s, LWU, f));
    BaseIsAddress(s, LWU, f);
    HeldFour(s.mem, Base(s, f));
  }

  /** LD the number of eight. */
  lemma LDLaw(s: State, f: Fields)
    requires s.Valid() && RegisterFields(f) && Permitted(s, LD, f)
    ensures s.mem.InRam(Base(s, f), 8) && Loads(s, LD, f, 8, Eight(s.mem, Base(s, f)))
  {
    LoadStep(s, LD, f, 8, Held(s, LD, f));
    BaseIsAddress(s, LD, f);
    HeldEight(s.mem, Base(s, f));
  }

  /** The 64-bit word that repeats the sign of a number of one, two or four bytes. */
  function SignByte(v: int): int { if v < 0x80 then v else v + 0x1_0000_0000_0000_0000 - 0x100 }

  function SignHalf(v: int): int { if v < 0x8000 then v else v + 0x1_0000_0000_0000_0000 - 0x1_0000 }

  function SignWord(v: int): int { if v < 0x8000_0000 then v else v + 0x1_0000_0000_0000_0000 - 0x1_0000_0000 }

  lemma ExtendByte(v: U64)
    ensures Extend(LB, v) == SignByte(v % 0x100)
  {
  }

  lemma ExtendHalf(v: U64)
    ensures Extend(LH, v) == SignHalf(v % 0x1_0000)
  {
  }

  lemma ExtendWord(v: U64)
    ensures Extend(LW, v) == SignWord(v % 0x1_0000_0000)
  {
  }

  /** A sign-extending load: from memory if it may be read, and otherwise from what rd held. */
  ghost predicate LoadsSigned(s: State, n: IName, f: Fields, k: int, v: int, held: int)
    requires s.Valid() && RegisterFields(f) && Permitted(s, n, f)
  {
    var r := Outcome(s, n, f);
    && Advanced(s, r) && r.mem == s.mem
    && SetsOnly(s, r, f.rd, if MayRead(s.mem, Base(s, f), k) then v else held)
  }

  lemma SignedLoadStep(s: State, n: IName, f: Fields, k: nat, v: U64, held: U64)
    requires s.Valid() && IsSignedLoad(n) && RegisterFields(f) && Permitted(s, n, f) && k == Width(n)
    requires v == Extend(n, Held(s, n, f)) && held == Extend(n, s.x[f.rd])
    ensures s.mem.InRam(Base(s, f), k) && LoadsSigned(s, n, f, k, v, held)
  {
    BaseIsAddress(s, n, f);
    NormalIsMayRead(s.mem, Base(s, f), k);
    SignedLoadOutcome(s, n, f);
    assert Loaded(s, n, f) == if Access(s, n, f) == Normal then v else held;
  }

  lemma SignedLoadOutcome(s: State, n: IName, f: Fields)
    requires s.Valid() && IsSignedLoad(n) && RegisterFields(f) && Permitted(s, n, f)
    ensures var r := Outcome(s, n, f); Advanced(s, r) && r.mem == s.mem && r.x == WriteX(s.x, f.rd, Loaded(s, n, f))
  {
    assert !IsCompute(n) && !IsCsr(n) && !IsSystem(n) && !IsAtomic(n) && !Stores(s, n, f);
  }

  lemma LBLaw(s: State, f: Fields)
    requires s.Valid() && RegisterFields(f) && Permitted(s, LB, f)
    ensures s.mem.InRam(Base(s, f), 1)
    ensures LoadsSigned(s, LB, f, 1, SignByte(s.mem.ram[Base(s, f)]), SignByte(s.x[f.rd] % 0x100))
  {
    var v := Held(s, LB, f);
    SignedLoadStep(s, LB, f, 1, Extend(LB, v), Extend(LB, s.x[f.rd]));
    BaseIsAddress(s, LB, f);
    HeldOne(s.mem, Base(s, f));
    LBValues(v, s.x[f.rd], s.mem.ram[Base(s, f)]);
  }

  lemma LBValues(v: U64, x: U64, n: int)
    requires v == n && 0 <= n < 0x100
    ensures Extend(LB, v) == SignByte(n) && Extend(LB, x) == SignByte(x % 0x100)
  {
    ExtendByte(v);
    ExtendByte(x);
  }

  lemma LHLaw(s: State, f: Fields)
    requires s.Valid() && RegisterFields(f) && Permitted(s, LH, f)
    ensures s.mem.InRam(Base(s, f), 2)
    ensures LoadsSigned(s, LH, f, 2, SignHalf(Two(s.mem, Base(s, f))), SignHalf(s.x[f.rd] % 0x1_0000))
  {
    var v := Held(s, LH, f);
    SignedLoadStep(s, LH, f, 2, Extend(LH, v), Extend(LH, s.x[f.rd]));
    BaseIsAddress(s, LH, f);
    HeldTwo(s.mem, Base(s, f));
    LHValues(v, s.x[f.rd], Two(s.mem, Base(s, f)));
  }

  lemma LHValues(v: U64, x: U64, n: int)
    requires v == n && 0 <= n < 0x1_0000
    ensures Extend(LH, v) == SignHalf(n) && Extend(LH, x) == SignHalf(x % 0x1_0000)
  {
    ExtendHalf(v);
    ExtendHalf(x);
  }

  lemma LWLaw(s: State, f: Fields)
    requires s.Valid() && RegisterFields(f) && Permitted(s, LW, f)
    ensures s.mem.InRam(Base(s, f), 4)
    ensures LoadsSigned(s, LW, f, 4, SignWord(Four(s.mem, Base(s, f))), SignWord(s.x[f.rd] % 0x1_0000_0000))
  {
    var v := Held(s, LW, f);
    SignedLoadStep(s, LW, f, 4, Extend(LW, v), Extend(LW, s.x[f.rd]));
    BaseIsAddress(s, LW, f);
    HeldFour(s.mem, Base(s, f));
    LWValues(v, s.x[f.rd], Four(s.mem, Base(s, f)));
  }

  lemma LWValues(v: U64, x: U64, n: int)
    requires v == n && 0 <= n < 0x1_0000_0000
    ensures Extend(LW, v) == SignWord(n) && Extend(LW, x) == SignWord(x % 0x1_0000_0000)
  {
    ExtendWord(v);
    ExtendWord(x);
  }

  // ----- atomics -----

  /** An aligned atomic on `k` bytes that may be read: they become `bs`, and rd receives `v`. */
  ghost predicate Swaps(s: State, n: IName, f: Fields, k: int, bs: seq<int>, v: int)
    requires s.Valid() && RegisterFields(f) && Permitted(s, n, f) && k > 0
  {
    var r := Outcome(s, n, f);
    s.x[f.rs1] % k == 0 && MayRead(s.mem, s.x[f.rs1], k) ==>
      Advanced(s, r) && SetsOnly(s, r, f.rd, v) && Replaced(s.mem, r.mem, s.x[f.rs1], bs)
  }

  lemma AmoStep(s: State, n: IName, f: Fields, k: nat)
    requires s.Valid() && IsAmo(n) && RegisterFields(f) && Permitted(s, n, f) && k == Width(n)
    requires s.x[f.rs1] % k == 0 && MayRead(s.mem, s.x[f.rs1], k)
    ensures !Misaligned(s, n, f) && Swaps(s, n, f, k, LeBytes(Datum(s, n, f), k), Loaded(s, n, f))
  {
    NormalIsMayRead(s.mem, s.x[f.rs1], k);
    assert !IsCompute(n) && !IsCsr(n) && !IsSystem(n) && !IsLoad(n) && !IsStore(n);
    assert !Misaligned(s, n, f) && Raised(s, n, f) == NormalReturn && Stores(s, n, f);
    ReplacedBy(s.mem, s.x[f.rs1], Datum(s, n, f), k);
  }

  /** The 32-bit atomics work on four bytes, with the operation of `Atomics.IsaAmoW`. */
  lemma AmoWordLaw(s: State, n: IName, f: Fields, v: U32)
    requires n in {AMOSWAPW, AMOADDW, AMOXORW, AMOANDW, AMOORW, AMOMINW, AMOMAXW, AMOMINUW, AMOMAXUW}
    requires s.Valid() && RegisterFields(f) && Permitted(s, n, f)
    requires s.x[f.rs1] % 4 == 0 && MayRead(s.mem, s.x[f.rs1], 4) && v == Four(s.mem, s.x[f.rs1])
    ensures Swaps(s, n, f, 4, FourBytes(IsaAmoW(n, v, s.x[f.rs2] % 0x1_0000_0000)), SignWord(v))
  {
    AmoStep(s, n, f, 4);
    HeldFour(s.mem, s.x[f.rs1]);
    AmoWordValues(s, n, f, v);
    FourByteList(Datum(s, n, f));
  }

  lemma AmoWordValues(s: State, n: IName, f: Fields, v: U32)
    requires s.Valid() && IsAmoW(n) && RegisterFields(f) && Addressable(s, n, f) && !Misaligned(s, n, f)
    requires Held(s, n, f) == v
    ensures Datum(s, n, f) == IsaAmoW(n, v, s.x[f.rs2] % 0x1_0000_0000) && Loaded(s, n, f) == SignWord(v)
  {
    SignOfWord(v);
  }

  lemma SignOfWord(v: U32)
    ensures U64Of(I32Of(v)) == SignWord(v)
  {
  }

  /** The 64-bit ones on eight. */
  lemma AmoDoubleLaw(s: State, n: IName, f: Fields, v: U64)
    requires n in {AMOSWAPD, AMOADDD, AMOXORD, AMOANDD, AMOORD, AMOMIND, AMOMAXD, AMOMINUD, AMOMAXUD}
    requires s.Valid() && RegisterFields(f) && Permitted(s, n, f)
    requires s.x[f.rs1] % 8 == 0 && MayRead(s.mem, s.x[f.rs1], 8) && v == Eight(s.mem, s.x[f.rs1])
    ensures Swaps(s, n, f, 8, EightBytes(IsaAmoD(n, v, s.x[f.rs2])), v)
  {
    AmoStep(s, n, f, 8);
    HeldEight(s.mem, s.x[f.rs1]);
    AmoDoubleValues(s, n, f, v);
    EightByteList(Datum(s, n, f));
  }

  lemma AmoDoubleValues(s: State, n: IName, f: Fields, v: U64)
    requires s.Valid() && IsAmoD(n) && RegisterFields(f) && Addressable(s, n, f) && !Misaligned(s, n, f)
    requires Held(s, n, f) == v
    ensures Datum(s, n, f) == IsaAmoD(n, v, s.x[f.rs2]) && Loaded(s, n, f) == v
  {
  }

  lemma LrStep(s: State, n: IName, f: Fields, k: nat)
    requires s.Valid() && IsLr(n) && RegisterFields(f) && Permitted(s, n, f) && k == Width(n)
    requires s.x[f.rs1] % k == 0 && MayRead(s.mem, s.x[f.rs1], k)
    ensures !Misaligned(s, n, f)
    ensures var r := Outcome(s, n, f); Advanced(s, r) && r.mem == s.mem && SetsOnly(s, r, f.rd, Held(s, n, f))
  {
    NormalIsMayRead(s.mem, s.x[f.rs1], k);
    assert !IsCompute(n) && !IsCsr(n) && !IsSystem(n) && !IsLoad(n) && !IsStore(n) && !IsAmo(n);
    assert !Misaligned(s, n, f) && Raised(s, n, f) == NormalReturn && !Stores(s, n, f);
  }

  /** LR.W loads four bytes without extending the sign. */
  lemma LrWordLaw(s: State, f: Fields)
    requires s.Valid() && RegisterFields(f) && Permitted(s, LRW, f)
    requires s.x[f.rs1] % 4 == 0 && MayRead(s.mem, s.x[f.rs1], 4)
    ensures var r := Outcome(s, LRW, f);
      Advanced(s, r) && r.mem == s.mem && SetsOnly(s, r, f.rd, Four(s.mem, s.x[f.rs1]))
  {
    LrStep(s, LRW, f, 4);
    HeldFour(s.mem, s.x[f.rs1]);
  }

  /** LR.D loads eight. */
  lemma LrDoubleLaw(s: State, f: Fields)
    requires s.Valid() && RegisterFields(f) && Permitted(s, LRD, f)
    requires s.x[f.rs1] % 8 == 0 && MayRead(s.mem, s.x[f.rs1], 8)
    ensures var r := Outcome(s, LRD, f);
      Advanced(s, r) && r.mem == s.mem && SetsOnly(s, r, f.rd, Eight(s.mem, s.x[f.rs1]))
  {
    LrStep(s, LRD, f, 8);
    HeldEight(s.mem, s.x[f.rs1]);
  }

  lemma ScStep(s: State, n: IName, f: Fields, k: nat)
    requires s.Valid() && IsSc(n) && RegisterFields(f) && Permitted(s, n, f) && k == Width(n) && s.x[f.rs1] % k == 0
    ensures var r := Outcome(s, n, f);
      && Advanced(s, r) && SetsOnly(s, r, f.rd, 0)
      && Replaced(s.mem, r.mem, s.x[f.rs1], LeBytes(s.x[f.rs2], k))
  {
    assert !IsCompute(n) && !IsCsr(n) && !IsSystem(n) && !IsLoad(n) && !IsStore(n) && !IsAmo(n) && !IsLr(n);
    assert !Misaligned(s, n, f) && Raised(s, n, f) == NormalReturn && Stores(s, n, f);
    ReplacedBy(s.mem, s.x[f.rs1], s.x[f.rs2], k);
  }

  /** SC.W stores four bytes and reports success. */
  lemma ScWordLaw(s: State, f: Fields)
    requires s.Valid() && RegisterFields(f) && Permitted(s, SCW, f) && s.x[f.rs1] % 4 == 0
    ensures var r := Outcome(s, SCW, f);
      && Advanced(s, r) && SetsOnly(s, r, f.rd, 0)
      && Replaced(s.mem, r.mem, s.x[f.rs1], FourBytes(s.x[f.rs2]))
  {
    FourByteList(s.x[f.rs2]);
    ScStep(s, SCW, f, 4);
  }

  /** SC.D stores eight. */
  lemma ScDoubleLaw(s: State, f: Fields)
    requires s.Valid() && RegisterFields(f) && Permitted(s, SCD, f) && s.x[f.rs1] % 8 == 0
    ensures var r := Outcome(s, SCD, f);
      && Advanced(s, r) && SetsOnly(s, r, f.rd, 0)
      && Replaced(s.mem, r.mem, s.x[f.rs1], EightBytes(s.x[f.rs2]))
  {
    EightByteList(s.x[f.rs2]);
    ScStep(s, SCD, f, 8);
  }
}
