/** The memoising decoder: two caches in front of linear searches through the tables. */
module Decoder {
  import opened Names
  import opened DecodeTables
  import opened Words

  /** A `std::map` search: rows are visited in the order of the enumeration. */
  method OpcodeInTable(table: IName -> int, op: int) returns (found: bool)
    ensures found <==> exists n: IName :: table(n) == op
  {
    var c := 0;
    while c < 127
      invariant 0 <= c <= 127
      invariant forall n: IName :: n as int < c ==> table(n) != op
    {
      if table(c as IName) == op { return true; }
      c := c + 1;
    }
    return false;
  }

  /** The first name whose row matches, or XXX. */
  method FirstMatch(matches: IName -> bool) returns (r: IName)
    ensures matches(r) || (r == XXX && forall n: IName :: !matches(n))
  {
    var c := 0;
    while c < 127
      invariant 0 <= c <= 127
      invariant forall n: IName :: n as int < c ==> !matches(n)
    {
      if matches(c as IName) { return c as IName; }
      c := c + 1;
    }
    return XXX;
  }

  class InstructionDecoder {
    var instrCache: map<U32, Instruction>
    var typeCache: map<int, InstrType>

    /** Every cached opcode type is the listed one. */
    ghost predicate TypesTruthful()
      reads this`typeCache
    {
      forall op :: op in typeCache ==> typeCache[op] == TypeOfOpcode(op)
    }

    /** Every cached instruction is what the stateless decoder answers. */
    ghost predicate InstructionsTruthful()
      reads this`instrCache
    {
      forall w :: w in instrCache ==> Reference(w) == Ok(instrCache[w])
    }

    ghost predicate Valid()
      reads this
    {
      TypesTruthful() && InstructionsTruthful() && MRET_WORD in instrCache && SRET_WORD in instrCache
    }

    constructor ()
      ensures Valid()
      ensures instrCache.Keys == {MRET_WORD, SRET_WORD} && typeCache == map[]
    {
      instrCache := map[MRET_WORD := MRET_INSTRUCTION][SRET_WORD := SRET_INSTRUCTION];
      typeCache := map[];
      assert MRET_WORD != SRET_WORD;
    }

    method InstrType(op: int) returns (t: InstrType)
      requires TypesTruthful() && 0 <= op < 0x80
      modifies this`typeCache
      ensures TypesTruthful()
      ensures t == TypeOfOpcode(op)
      ensures op in typeCache && old(typeCache.Keys) <= typeCache.Keys
    {
      if op in typeCache { return typeCache[op]; }
      IOpcodes(op); ROpcodes(op); R4Opcodes(op); SBUJOpcodes(op);
      t := WRONG;
      var found := OpcodeInTable(IOpcode, op);
      if found { t := I; }
      else {
        found := OpcodeInTable(JOpcode, op);
        if found { t := J; }
        else {
          found := OpcodeInTable(SOpcode, op);
          if found { t := S; }
          else {
            found := OpcodeInTable(BOpcode, op);
            if found { t := B; }
            else {
              found := OpcodeInTable(ROpcode, op);
              if found { t := R; }
              else {
                found := OpcodeInTable(R4Opcode, op);
                if found { t := R4; }
                else {
                  found := OpcodeInTable(UOpcode, op);
                  if found { t := U; }
                }
              }
            }
          }
        }
      }
      typeCache := typeCache[op := t];
    }

    /** `get_fields`: the immediate's format comes from the cached opcode type. */
    method GetFields(w: bv32) returns (f: Fields)
      requires TypesTruthful()
      modifies this`typeCache
      ensures TypesTruthful()
      ensures f == FieldsOf(TypeOfOpcode(Opcode(w) as int), w) && InRange(f)
    {
      var t := InstrType(Opcode(w) as int);
      f := FieldsOf(t, w);
      FieldsInRange(t, w);
    }

    /** `decode_r` with `decode_fp` and its two variants. */
    method SearchR(f: Fields) returns (r: Decoded)
      requires InRange(f) && TypeOfOpcode(f.opcode) == R
      ensures r == Listed(R, f)
    {
      var n: IName;
      if f.opcode != 0x53 {
        var row := (n: IName) => RMatches(n, f);
        n := FirstMatch(row);
        RRowIsListed(n, f); RRowIsListed(ListR(f), f); assert row(ListR(f)) == RMatches(ListR(f), f);
        r := Found(R, n, f);
      } else if !IgnoresFunct3(f.funct7) {
        var row := (n: IName) => FpMatches(n, f);
        n := FirstMatch(row);
        FpRowIsListed(n, f); FpRowIsListed(ListFp(f), f); assert row(ListFp(f)) == FpMatches(ListFp(f), f);
        r := Found(R, n, f);
      } else {
        if f.funct7 == 0x60 {
          n := if f.rs2 == 0 then FCVTWS else if f.rs2 == 1 then FCVTWUS
               else if f.rs2 == 2 then FCVTLS else if f.rs2 == 3 then FCVTLUS else XXX;
        } else if f.funct7 == 0x68 {
          n := if f.rs2 == 0 then FCVTSW else if f.rs2 == 1 then FCVTSWU
               else if f.rs2 == 2 then FCVTSL else if f.rs2 == 3 then FCVTSLU else XXX;
        } else {
          var row := (n: IName) => FpMatchesF7(n, f);
          n := FirstMatch(row);
          FpRoundedRowIsListed(n, f); FpRoundedRowIsListed(ListFpRounded(f), f);
          assert row(ListFpRounded(f)) == FpMatchesF7(ListFpRounded(f), f);
        }
        r := Named(R, n, f);
      }
    }

    /** The searches of the other formats. */
    method Search(t: InstrType, f: Fields) returns (r: Decoded)
      requires InRange(f) && TypeOfOpcode(f.opcode) == t && t != WRONG && t != R
      ensures r == Listed(t, f)
    {
      var n: IName;
      match t {
        case I =>
          var row := (n: IName) => IMatches(n, f);
          n := FirstMatch(row);
          IRowIsListed(n, f); IRowIsListed(ListI(f), f); assert row(ListI(f)) == IMatches(ListI(f), f);
        case B =>
          var row := (n: IName) => BMatches(n, f);
          n := FirstMatch(row);
          BRowIsListed(n, f); BRowIsListed(ListB(f), f); assert row(ListB(f)) == BMatches(ListB(f), f);
        case S =>
          var row := (n: IName) => SMatches(n, f);
          n := FirstMatch(row);
          SRowIsListed(n, f); SRowIsListed(ListS(f), f); assert row(ListS(f)) == SMatches(ListS(f), f);
        case R4 =>
          var row := (n: IName) => R4Matches(n, f);
          n := FirstMatch(row);
          R4RowIsListed(n, f); R4RowIsListed(ListR4(f), f); assert row(ListR4(f)) == R4Matches(ListR4(f), f);
        case U =>
          var row := (n: IName) => UOpcode(n) == f.opcode;
          n := FirstMatch(row);
          UJRowIsListed(n, f); UJRowIsListed(ListUJ(f), f); assert row(ListUJ(f));
        case J =>
          var row := (n: IName) => JOpcode(n) == f.opcode;
          n := FirstMatch(row);
          UJRowIsListed(n, f); UJRowIsListed(ListUJ(f), f); assert row(ListUJ(f));
      }
      r := Found(t, n, f);
    }

    /** The `switch` of `decode`, for a word that is not cached. */
    method DecodeUncached(w: bv32) returns (r: Decoded)
      requires TypesTruthful()
      modifies this`typeCache
      ensures TypesTruthful()
      ensures r == DecodeWord(w)
    {
      var t := InstrType(Opcode(w) as int);
      if t == WRONG {
        r := Ok(Instruction(WRONG, XXX, NO_FIELDS));
      } else {
        var f := GetFields(w);
        if t == R { r := SearchR(f); } else { r := Search(t, f); }
        assert r == Listed(t, f);
      }
    }

    /** Decoding never depends on what was decoded before, and keeps the caches truthful. */
    method Decode(inst: U32) returns (r: Decoded)
      requires Valid()
      modifies this
      ensures Valid()
      ensures r == Reference(inst)
      ensures old(instrCache.Keys) <= instrCache.Keys <= old(instrCache.Keys) + {inst}
      ensures forall v :: v in old(instrCache) ==> instrCache[v] == old(instrCache)[v]
    {
      if inst in instrCache { return Ok(instrCache[inst]); }
      r := DecodeUncached(inst as bv32);
      if r.Ok? && TypeOfOpcode(Opcode(inst as bv32) as int) != WRONG {
        instrCache := instrCache[inst := r.ins];
      }
    }
  }
}
