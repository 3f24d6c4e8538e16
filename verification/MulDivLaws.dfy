/** Laws that tie the M-extension instructions to one another, stated on the register values
    the emulator's methods leave behind. */
module MulDivLaws {
  import opened Bits
  import opened Words
  import opened Names
  import opened Alu

  lemma Recombine(p: int)
    ensures p == Hi64(p) * 0x1_0000_0000_0000_0000 + U64Of(p)
  {
  }

  lemma SignedHigh(x: I64, y: int)
    requires -0x8000_0000_0000_0000 <= y < 0x1_0000_0000_0000_0000
    ensures -0x8000_0000_0000_0000 <= Hi64(x * y) < 0x8000_0000_0000_0000
  {
    var h := 0x8000_0000_0000_0000;
    assert x * y == y * x;
    if y >= 0 {
      MulMono(y, x, h - 1); MulMono(y, -h, x);
    } else {
      MulMono(-y, x, h - 1); MulMono(-y, -h, x);
      assert (-y) * x == -(y * x);
    }
  }

  /** The low half of the product does not depend on how the factors' signs are read. */
  lemma LowHalves(x: I64, y: I64)
    ensures U64Of(x * y) == U64Of(U64Of(x) * U64Of(y)) == U64Of(x * U64Of(y)) == U64Of(OpResult(MUL, x, y))
  {
    var a: int, b: int := U64Of(x), U64Of(y);
    MulMod(x, a, y, b, 0x1_0000_0000_0000_0000);
    MulMod(x, x, y, b, 0x1_0000_0000_0000_0000);
    U64OfI64(x * y);
  }

  /** MUL gives the low and MULH, MULHU, MULHSU the high half of the exact 128-bit signed,
      unsigned and mixed product (section 7.1 of the Unprivileged ISA). */
  lemma ProductRecombines(x: I64, y: I64)
    ensures x * y == OpResult(MULH, x, y) * 0x1_0000_0000_0000_0000 + U64Of(OpResult(MUL, x, y))
    ensures U64Of(x) * U64Of(y) == U64Of(OpResult(MULHU, x, y)) * 0x1_0000_0000_0000_0000 + U64Of(OpResult(MUL, x, y))
    ensures x * U64Of(y) == OpResult(MULHSU, x, y) * 0x1_0000_0000_0000_0000 + U64Of(OpResult(MUL, x, y))
  {
    var a: int, b: int := U64Of(x), U64Of(y);
    LowHalves(x, y);
    Recombine(x * y); Recombine(a * b); Recombine(x * b);
    SignedHigh(x, y); SmallSigned(Hi64(x * y));
    MulHighBound(a, b); WordRoundTrip(Hi64(a * b));
    SignedHigh(x, b); HighHalf(x, b); SmallSigned(Hi64(x * b));
  }

  /** DIV and REM: dividend = quotient * divisor + remainder in 64-bit arithmetic, for every divisor.
      A nonzero divisor bounds the remainder, which takes the dividend's sign; the equation is then exact
      except for the one overflowing quotient. */
  lemma SignedDivisionLaw(x: I64, y: I64)
    ensures var q, r := OpResult(DIV, x, y), OpResult(REM, x, y);
      && I64Of(q * y + r) == x
      && (y != 0 ==> Abs(r) < Abs(y) && (r != 0 ==> (r < 0 <==> x < 0)))
      && (y != 0 && !(x == -0x8000_0000_0000_0000 && y == -1) ==> q * y + r == x)
      && (y == 0 ==> q == -1 && r == x)
  {
    DivRemValues(x, y);
    var q, r := OpResult(DIV, x, y), OpResult(REM, x, y);
    if y == 0 {
      SmallSigned(x);
    } else if x == -0x8000_0000_0000_0000 && y == -1 {
      assert q * y + r == 0x8000_0000_0000_0000;
    } else {
      ExactDivision(x, y);
      SmallSigned(x);
    }
  }

  lemma DivRemValues(x: I64, y: I64)
    ensures y == 0 ==> OpResult(DIV, x, y) == -1 && OpResult(REM, x, y) == x
    ensures y == -1 && x == -0x8000_0000_0000_0000 ==> OpResult(DIV, x, y) == x && OpResult(REM, x, y) == 0
    ensures y != 0 && !(y == -1 && x == -0x8000_0000_0000_0000) ==>
      OpResult(DIV, x, y) == CDiv(x, y) && OpResult(REM, x, y) == CRem(x, y)
  {
  }

  lemma ExactDivision(x: int, y: int)
    requires y != 0
    ensures CDiv(x, y) * y + CRem(x, y) == x
    ensures Abs(CRem(x, y)) < Abs(y) && (CRem(x, y) != 0 ==> (CRem(x, y) < 0 <==> x < 0))
  {
    CRemRange(x, y);
    Commute(CDiv(x, y), y);
  }

  lemma Commute(a: int, b: int)
    ensures a * b == b * a
  {
  }

  /** DIVW and REMW: the same law in 32-bit arithmetic, on results already sign-extended. */
  lemma SignedDivisionLawW(x: I64, y: I64)
    ensures var c: int, d: int := I32Of(x), I32Of(y);
      var q, r := OpResult(DIVW, x, y), OpResult(REMW, x, y);
      && I32Of(q * d + r) == c
      && (d != 0 ==> Abs(r) < Abs(d) && (r != 0 ==> (r < 0 <==> c < 0)))
      && (d != 0 && !(c == -0x8000_0000 && d == -1) ==> q * d + r == c)
      && (d == 0 ==> q == -1 && r == c)
  {
    var c: int, d: int := I32Of(x), I32Of(y);
    DivRemValuesW(x, y);
    var q, r := OpResult(DIVW, x, y), OpResult(REMW, x, y);
    if d == 0 {
      SmallSigned32(c);
    } else if c == -0x8000_0000 && d == -1 {
      assert q * d + r == 0x8000_0000;
    } else {
      ExactDivision(c, d);
      SmallSigned32(c);
    }
  }

  lemma DivRemValuesW(x: I64, y: I64)
    ensures var c: int, d: int := I32Of(x), I32Of(y);
      && (d == 0 ==> OpResult(DIVW, x, y) == -1 && OpResult(REMW, x, y) == c)
      && (d == -1 && c == -0x8000_0000 ==> OpResult(DIVW, x, y) == c && OpResult(REMW, x, y) == 0)
      && (d != 0 && !(d == -1 && c == -0x8000_0000) ==>
            OpResult(DIVW, x, y) == CDiv(c, d) && OpResult(REMW, x, y) == CRem(c, d))
  {
  }

  lemma EuclidLaw(a: int, b: int)
    requires a >= 0 && b >= 0
    ensures b != 0 ==> (a / b) * b + a % b == a && 0 <= a % b < b
  {
    if b != 0 { ModAtMost(a, b); assert (a / b) * b == b * (a / b); }
  }

  lemma SmallCast(w: U32)
    ensures U32Of(I32Of(w)) == w
  {
  }

  /** DIVU and REMU: exact for a nonzero divisor, and all ones with the dividend for divisor zero. */
  lemma UnsignedDivisionLaw(x: I64, y: I64)
    ensures var a: int, b: int := U64Of(x), U64Of(y);
      var q: int, r: int := U64Of(OpResult(DIVU, x, y)), U64Of(OpResult(REMU, x, y));
      && U64Of(q * b + r) == a
      && (b != 0 ==> q * b + r == a && r < b)
      && (b == 0 ==> q == 0xFFFF_FFFF_FFFF_FFFF && r == a)
  {
    var a: int, b: int := U64Of(x), U64Of(y);
    DivuRefines(x, y);
    EuclidLaw(a, b);
    U64OfI64(x);
  }

  lemma DivuwValues(c: U32, d: U32)
    ensures U32Of(DivuwResult(c, d)) == if d == 0 then 0xFFFF_FFFF else c / d
    ensures U32Of(RemuwResult(c, d)) == if d == 0 then c else c % d
  {
    SmallCast(c);
    if d != 0 { DivAtMost(c, d); SmallCast(c / d); SmallCast(c % d); }
  }

  /** DIVUW and REMUW, read back as unsigned 32-bit words. */
  lemma UnsignedDivisionLawW(x: I64, y: I64)
    ensures var c: int, d: int := U32Of(x), U32Of(y);
      var q: int, r: int := U32Of(OpResult(DIVUW, x, y)), U32Of(OpResult(REMUW, x, y));
      && U32Of(q * d + r) == c
      && (d != 0 ==> q * d + r == c && r < d)
      && (d == 0 ==> q == 0xFFFF_FFFF && r == c)
  {
    var c: int, d: int := U32Of(x), U32Of(y);
    DivuwValues(c, d);
    EuclidLaw(c, d);
    U32OfI32(x);
  }

  /** Every 32-bit instruction leaves a sign-extended 32-bit value in its register. */
  lemma WordResultsAreSignExtended(n: IName, x: I64, y: I64)
    requires n in {ADDW, SUBW, MULW, SLLW, SRLW, SRAW, DIVW, DIVUW, REMW, REMUW}
    ensures -0x8000_0000 <= OpResult(n, x, y) < 0x8000_0000
  {
    var c, d := I32Of(x), I32Of(y);
    match n
    case SRAW => ShiftRange(c, And(U64Of(y), 0x1F));
    case DIVW => if d != 0 { DivwIsQuot(c, d); }
    case REMW => if d != 0 { RemwIsRem(c, d); }
    case _ =>
  }
}
