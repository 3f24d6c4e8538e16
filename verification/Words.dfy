/** Machine words. A C++ integer of a fixed width is the mathematical integer it denotes;
    a conversion to a width reduces modulo 2^width into that type's range. */
module Words {
  import opened Bits

  type Byte = x: int | 0 <= x < 0x100
  type U32 = x: int | 0 <= x < 0x1_0000_0000
  type U64 = x: int | 0 <= x < 0x1_0000_0000_0000_0000
  type I32 = x: int | -0x8000_0000 <= x < 0x8000_0000
  type I64 = x: int | -0x8000_0000_0000_0000 <= x < 0x8000_0000_0000_0000

  function U32Of(x: int): U32 { x % 0x1_0000_0000 }

  function U64Of(x: int): U64 { x % 0x1_0000_0000_0000_0000 }

  function U128Of(x: int): nat { x % 0x1_0000_0000_0000_0000_0000_0000_0000_0000 }

  /** `~x` on 64-bit words. */
  function Not64(x: U64): U64 { 0xFFFF_FFFF_FFFF_FFFF - x }

  /** The part of a product above its low 64 binary digits: `>> 64`. */
  function Hi64(x: int): int { x / 0x1_0000_0000_0000_0000 }

  function I8Of(x: int): int { var u := x % 0x100; if u < 0x80 then u else u - 0x100 }

  function I16Of(x: int): int { var u := x % 0x1_0000; if u < 0x8000 then u else u - 0x1_0000 }

  /** The signed reading of an unsigned word. */
  function Sign32(u: U32): I32 { if u < 0x8000_0000 then u else u - 0x1_0000_0000 }

  function Sign64(u: U64): I64 { if u < 0x8000_0000_0000_0000 then u else u - 0x1_0000_0000_0000_0000 }

  function I32Of(x: int): I32 { Sign32(U32Of(x)) }

  function I64Of(x: int): I64 { Sign64(U64Of(x)) }

  /** C++ signed division: the quotient is truncated toward zero. */
  function CDiv(x: int, y: int): int
    requires y != 0
  {
    if x >= 0 then x / y else -((-x) / y)
  }

  /** C++ signed remainder: what truncated division leaves over. */
  function CRem(x: int, y: int): int
    requires y != 0
  {
    x - y * CDiv(x, y)
  }

  // ----- congruences -----

  lemma MulModLeft(a: int, b: int, c: int, m: int)
    requires m > 0 && a % m == b % m
    ensures (a * c) % m == (b * c) % m
  {
    var i := a / m - b / m;
    assert a == m * (a / m) + a % m;
    assert b == m * (b / m) + b % m;
    assert a == b + m * i;
    assert (m * i) * c == m * (i * c);
    assert a * c == b * c + m * (i * c);
    ModShift(b * c, i * c, m);
  }

  lemma MulMod(a: int, b: int, c: int, d: int, m: int)
    requires m > 0 && a % m == b % m && c % m == d % m
    ensures (a * c) % m == (b * d) % m
  {
    MulModLeft(a, b, c, m);
    MulModLeft(c, d, b, m);
    assert b * c == c * b && b * d == d * b;
  }

  lemma ModShift(x: int, k: int, m: int)
    requires m > 0
    ensures (x + m * k) % m == x % m
  {
    assert x + m * k == m * (x / m + k) + x % m;
    DivModUnique(x + m * k, m, x / m + k, x % m);
  }

  lemma ModSplit(a: int, b: int, m: int)
    requires m > 0 && a % m == b % m
    ensures a == b + m * (a / m - b / m)
  {
    assert a == m * (a / m) + a % m && b == m * (b / m) + b % m;
  }

  lemma AddMod(a: int, b: int, c: int, d: int, m: int)
    requires m > 0 && a % m == b % m && c % m == d % m
    ensures (a + c) % m == (b + d) % m && (a - c) % m == (b - d) % m
  {
    ModSplit(a, b, m);
    ModSplit(c, d, m);
    AddShifted(a, b, c, d, m, a / m - b / m, c / m - d / m);
  }

  lemma AddShifted(a: int, b: int, c: int, d: int, m: int, i: int, j: int)
    requires m > 0 && a == b + m * i && c == d + m * j
    ensures (a + c) % m == (b + d) % m && (a - c) % m == (b - d) % m
  {
    assert a + c == b + d + m * (i + j) by { Factor(m, i, j); }
    SameMod(a + c, b + d, i + j, m);
    assert a - c == b - d + m * (i - j) by { Factor(m, i, j); }
    SameMod(a - c, b - d, i - j, m);
  }

  lemma SameMod(x: int, y: int, k: int, m: int)
    requires m > 0 && x == y + m * k
    ensures x % m == y % m
  {
    ModShift(y, k, m);
  }

  lemma Factor(m: int, i: int, j: int)
    ensures m * (i + j) == m * i + m * j && m * (i - j) == m * i - m * j
  {
  }

  // ----- conversions compose -----

  /** Narrowing twice is narrowing once. */
  lemma Low32(x: int)
    ensures U32Of(U64Of(x)) == U32Of(x)
  {
    var q, r := x / 0x1_0000_0000_0000_0000, U64Of(x);
    assert x == r + 0x1_0000_0000 * (0x1_0000_0000 * q);
    ModShift(r, 0x1_0000_0000 * q, 0x1_0000_0000);
  }

  lemma SmallSigned(q: I64) ensures I64Of(q) == q {}

  lemma SmallSigned32(q: I32) ensures I32Of(q) == q {}

  lemma I64RoundTrip(x: I64)
    ensures I64Of(U64Of(x)) == x
  {
  }

  lemma U64OfI64(p: int)
    ensures U64Of(I64Of(p)) == U64Of(p) && U64Of(U64Of(p)) == U64Of(p)
  {
  }

  lemma U32OfI32(x: int)
    ensures U32Of(I32Of(x)) == U32Of(x) && U32Of(U32Of(x)) == U32Of(x)
    ensures I32Of(U32Of(x)) == I32Of(x) && I32Of(I32Of(x)) == I32Of(x)
  {
  }

  lemma NoHighBits(s: U64)
    ensures forall j: nat :: j >= 64 ==> !Bit(s, j)
  {
    forall j: nat | j >= 64 ensures !Bit(s, j) {
      Pow2Values();
      if j > 64 { Pow2Below(64, j); }
      BitSmall(s, j);
    }
  }
}
