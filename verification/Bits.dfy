/** Bit-level reading of natural numbers: the C++ operators `&`, `|`, `^`, `<<` and `>>`
    on unsigned words, given by their meaning on binary digits. */
module Bits {

  function Pow2(k: nat): (r: nat)
    ensures r >= 1
  {
    if k == 0 then 1 else 2 * Pow2(k - 1)
  }

  /** Binary digit `k` of `x`. */
  predicate Bit(x: nat, k: nat)
    decreases k, x
  {
    if k == 0 then x % 2 == 1 else Bit(x / 2, k - 1)
  }

  /** `x >> k`. */
  function Shr(x: nat, k: nat): (r: nat)
    ensures r <= x
    decreases k, x
  {
    if k == 0 then x else Shr(x / 2, k - 1)
  }

  function And(x: nat, y: nat): (r: nat)
    ensures r <= x && r <= y
  {
    if x == 0 || y == 0 then 0
    else (if x % 2 == 1 && y % 2 == 1 then 1 else 0) + 2 * And(x / 2, y / 2)
  }

  function Or(x: nat, y: nat): (r: nat)
    ensures x <= r && y <= r
    decreases x + y
  {
    if x == 0 then y else if y == 0 then x
    else (if x % 2 == 1 || y % 2 == 1 then 1 else 0) + 2 * Or(x / 2, y / 2)
  }

  function Xor(x: nat, y: nat): (r: nat)
    ensures r <= x + y
    decreases x + y
  {
    if x == 0 then y else if y == 0 then x
    else (if x % 2 != y % 2 then 1 else 0) + 2 * Xor(x / 2, y / 2)
  }

  // ----- the digits of the three operators -----

  lemma {:induction false} ZeroBit(k: nat)
    ensures !Bit(0, k)
    decreases k
  {
    if k != 0 { ZeroBit(k - 1); }
  }

  lemma {:induction false} AndBit(x: nat, y: nat, k: nat)
    ensures Bit(And(x, y), k) <==> Bit(x, k) && Bit(y, k)
    decreases k
  {
    ZeroBit(k);
    if x != 0 && y != 0 && k != 0 { AndBit(x / 2, y / 2, k - 1); }
  }

  lemma {:induction false} OrBit(x: nat, y: nat, k: nat)
    ensures Bit(Or(x, y), k) <==> Bit(x, k) || Bit(y, k)
    decreases k
  {
    ZeroBit(k);
    if x != 0 && y != 0 && k != 0 { OrBit(x / 2, y / 2, k - 1); }
  }

  lemma {:induction false} XorBit(x: nat, y: nat, k: nat)
    ensures Bit(Xor(x, y), k) <==> Bit(x, k) != Bit(y, k)
    decreases k
  {
    ZeroBit(k);
    if x != 0 && y != 0 && k != 0 { XorBit(x / 2, y / 2, k - 1); }
  }

  /** A number is determined by its digits. */
  lemma {:induction false} SameBits(x: nat, y: nat)
    requires forall k: nat :: Bit(x, k) <==> Bit(y, k)
    ensures x == y
    decreases x + y
  {
    if x + y != 0 {
      assert Bit(x, 0) <==> Bit(y, 0);
      forall k: nat ensures Bit(x / 2, k) <==> Bit(y / 2, k) {
        assert Bit(x, k + 1) <==> Bit(y, k + 1);
      }
      SameBits(x / 2, y / 2);
    }
  }

  // ----- division by powers of two -----

  lemma MulAtLeast(m: int, d: int)
    requires m > 0 && d > 0
    ensures m * d >= m
  {
    assert m * d == m * (d - 1) + m;
  }

  lemma DivModUnique(x: int, m: int, q: int, r: int)
    requires 0 <= r < m && x == m * q + r
    ensures x / m == q && x % m == r
  {
    var q', r' := x / m, x % m;
    assert x == m * q' + r';
    if q > q' { MulAtLeast(m, q - q'); }
    if q < q' { MulAtLeast(m, q' - q); }
    assert m * (q - q') == r' - r;
  }

  lemma DivDiv(x: nat, a: nat, b: nat)
    requires a > 0 && b > 0
    ensures a * b > 0 && x / (a * b) == (x / a) / b
  {
    var q, r := x / a, x % a;
    var q2, r2 := q / b, q % b;
    assert q == b * q2 + r2;
    assert a * q == a * (b * q2) + a * r2;
    assert a * (b * q2) == (a * b) * q2;
    assert a * b == a * (b - 1) + a;
    MulMono(a, r2, b - 1);
    DivModUnique(x, a * b, q2, a * r2 + r);
  }

  lemma MulMono(a: nat, x: int, y: int)
    requires x <= y
    ensures a * x <= a * y
  {
  }

  lemma Pow2Byte(k: nat)
    ensures Pow2(k + 8) == 0x100 * Pow2(k)
  {
    assert Pow2(k + 4) == 2 * Pow2(k + 3) == 4 * Pow2(k + 2) == 8 * Pow2(k + 1) == 16 * Pow2(k);
    assert Pow2(k + 8) == 2 * Pow2(k + 7) == 4 * Pow2(k + 6) == 8 * Pow2(k + 5) == 16 * Pow2(k + 4);
  }

  lemma Pow2Values()
    ensures Pow2(1) == 2 && Pow2(2) == 4 && Pow2(3) == 8
    ensures Pow2(8) == 0x100 && Pow2(16) == 0x1_0000 && Pow2(24) == 0x100_0000
    ensures Pow2(32) == 0x1_0000_0000 && Pow2(40) == 0x100_0000_0000
    ensures Pow2(48) == 0x1_0000_0000_0000 && Pow2(56) == 0x100_0000_0000_0000
    ensures Pow2(63) == 0x8000_0000_0000_0000 && Pow2(64) == 0x1_0000_0000_0000_0000
  {
    Pow2Byte(0); Pow2Byte(8); Pow2Byte(16); Pow2Byte(24);
    Pow2Byte(32); Pow2Byte(40); Pow2Byte(48); Pow2Byte(56);
    assert Pow2(64) == 2 * Pow2(63);
  }

  /** Shifting right by `k` is division by 2^k. */
  lemma {:induction false} ShrIsDiv(x: nat, k: nat)
    ensures Shr(x, k) == x / Pow2(k)
    decreases k
  {
    if k != 0 {
      ShrIsDiv(x / 2, k - 1);
      DivDiv(x, 2, Pow2(k - 1));
    }
  }

  /** Shifting right by `k` moves digit `k + j` to place `j`. */
  lemma {:induction false} ShrBit(x: nat, k: nat, j: nat)
    ensures Bit(Shr(x, k), j) <==> Bit(x, k + j)
    decreases k
  {
    if k != 0 { ShrBit(x / 2, k - 1, j); }
  }

  // ----- masks -----

  /** The lowest `k` digits of `x`. */
  function Low(x: nat, k: nat): (r: nat)
    ensures r <= x
    decreases k, x
  {
    if k == 0 then 0 else x % 2 + 2 * Low(x / 2, k - 1)
  }

  lemma ModStep(x: nat, p: nat)
    requires p > 0
    ensures x % (2 * p) == x % 2 + 2 * ((x / 2) % p)
  {
    var q := x / 2;
    var d, r := q / p, q % p;
    assert q == p * d + r;
    assert 2 * (p * d) == (2 * p) * d;
    DivModUnique(x, 2 * p, d, x % 2 + 2 * r);
  }

  /** The lowest `k` digits are the remainder modulo 2^k. */
  lemma {:induction false} LowIsMod(x: nat, k: nat)
    ensures Low(x, k) == x % Pow2(k)
    decreases k
  {
    if k != 0 {
      LowIsMod(x / 2, k - 1);
      ModStep(x, Pow2(k - 1));
    }
  }

  lemma {:induction false} LowSmall(x: nat, k: nat)
    requires x < Pow2(k)
    ensures Low(x, k) == x
    decreases k
  {
    if k != 0 { LowSmall(x / 2, k - 1); }
  }

  lemma {:induction false} LowZero(k: nat)
    ensures Low(0, k) == 0
  {
    if k != 0 { LowZero(k - 1); }
  }

  /** Masking with `k` ones keeps the lowest `k` digits. */
  lemma {:induction false} AndLow(x: nat, k: nat)
    ensures And(x, Pow2(k) - 1) == Low(x, k)
    decreases k
  {
    LowZero(k);
    if k != 0 && x != 0 { AndLow(x / 2, k - 1); }
  }

  lemma AndDouble(x: nat, y: nat)
    ensures And(x, 2 * y) == 2 * And(x / 2, y)
  {
    if x != 0 && y != 0 {
      Halve(y);
      assert And(x, 2 * y) == 2 * And(x / 2, (2 * y) / 2);
    }
  }

  lemma Halve(y: nat)
    ensures (2 * y) / 2 == y && (2 * y) % 2 == 0
  {
  }

  lemma LowDifference(x: nat, k: nat, n: nat, r: int)
    requires 0 < k <= n && r == Low(x / 2, n - 1) - Low(x / 2, k - 1)
    ensures 2 * r == Low(x, n) - Low(x, k)
  {
  }

  lemma AndHighStep(x: nat, k: nat, n: nat, d: nat)
    requires 0 < k <= n && And(x / 2, d) == Low(x / 2, n - 1) - Low(x / 2, k - 1)
    ensures And(x, 2 * d) == Low(x, n) - Low(x, k)
  {
    AndDouble(x, d);
    LowDifference(x, k, n, And(x / 2, d));
  }

  /** Masking with ones at places k .. n-1 drops the lowest `k` of the lowest `n` digits. */
  lemma {:induction false} AndHigh(x: nat, k: nat, n: nat)
    requires k <= n
    ensures Pow2(k) <= Pow2(n) && And(x, Pow2(n) - Pow2(k)) == Low(x, n) - Low(x, k)
    decreases n
  {
    if k == 0 {
      AndLow(x, n);
    } else {
      AndHigh(x / 2, k - 1, n - 1);
      var d := Pow2(n - 1) - Pow2(k - 1);
      AndHighStep(x, k, n, d);
      assert Pow2(n) - Pow2(k) == 2 * d;
    }
  }

  /** Or-ing in a multiple of 2^k above a smaller number adds it. */
  lemma {:induction false} OrDisjoint(x: nat, y: nat, k: nat)
    requires x < Pow2(k)
    ensures Or(x, y * Pow2(k)) == x + y * Pow2(k)
  {
    if k != 0 && x != 0 && y != 0 {
      var z := y * Pow2(k - 1);
      assert y * Pow2(k) == 2 * z;
      assert z > 0;
      OrDisjoint(x / 2, y, k - 1);
    }
  }

  /** Both operands fit in `n` digits, so does the result. */
  lemma {:induction false} BitwiseBound(x: nat, y: nat, n: nat)
    requires x < Pow2(n) && y < Pow2(n)
    ensures And(x, y) < Pow2(n) && Or(x, y) < Pow2(n) && Xor(x, y) < Pow2(n)
  {
    if x != 0 && y != 0 { BitwiseBound(x / 2, y / 2, n - 1); }
  }

  // ----- single digits -----

  lemma {:induction false} Pow2Bit(k: nat, j: nat)
    ensures Bit(Pow2(k), j) <==> j == k
    decreases k
  {
    if k == 0 {
      if j != 0 { ZeroBit(j - 1); }
    } else if j != 0 {
      Pow2Bit(k - 1, j - 1);
    }
  }

  /** The digits of the `n`-digit complement of `y`. */
  lemma {:induction false} ComplementBit(y: nat, n: nat, j: nat)
    requires y < Pow2(n)
    ensures Bit(Pow2(n) - 1 - y, j) <==> j < n && !Bit(y, j)
    decreases n
  {
    if n == 0 {
      ZeroBit(j);
    } else if j != 0 {
      HalfComplement(y, Pow2(n - 1));
      ComplementBit(y / 2, n - 1, j - 1);
    } else {
      HalfComplement(y, Pow2(n - 1));
    }
  }

  lemma HalfComplement(y: nat, p: nat)
    requires y < 2 * p
    ensures (2 * p - 1 - y) / 2 == p - 1 - y / 2 && (2 * p - 1 - y) % 2 == 1 - y % 2
  {
  }

  /** `(x >> k) & 1` tests digit `k`. */
  lemma TestBit(x: nat, k: nat)
    ensures And(Shr(x, k), 1) == if Bit(x, k) then 1 else 0
  {
    ShrBit(x, k, 0);
    AndOne(Shr(x, k));
  }

  lemma AndOne(y: nat)
    ensures And(y, 1) == y % 2
  {
  }

  lemma {:induction false} BitSmall(x: nat, k: nat)
    requires x < Pow2(k)
    ensures !Bit(x, k)
    decreases k
  {
    if k != 0 { BitSmall(x / 2, k - 1); }
  }

  lemma {:induction false} Pow2Below(k: nat, n: nat)
    requires k < n
    ensures 2 * Pow2(k) <= Pow2(n)
    decreases n
  {
    if k + 1 < n { Pow2Below(k, n - 1); }
  }
}
