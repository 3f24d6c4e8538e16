/** The xorshift generator behind mutation and corpus selection. */
module Random {
  import opened Bits
  import opened Words

  /** `x ^ (x >> k)` */
  function MixRight(x: U64, k: nat): (r: U64) {
    XorFits(x, Shr(x, k));
    Xor(x, Shr(x, k))
  }

  /** `x << 25` */
  function Shl25(x: U64): U64 { U64Of(x * 0x200_0000) }

  /** `x ^ (x << 25)` */
  function MixLeft(x: U64): (r: U64) {
    XorFits(x, Shl25(x));
    Xor(x, Shl25(x))
  }

  /** The state update of `gen_rand`. */
  function Next(s: U64): U64 { MixRight(MixLeft(MixRight(s, 12)), 27) }

  /** The value returned for a state: its product with an odd constant. */
  function Output(s: U64): U64 { U64Of(s * 0x2545_F491_4F6C_DD1D) }

  class Generator {
    var seed: U64

    constructor ()
      ensures seed == 123456789
    {
      seed := 123456789;
    }

    method GenRand() returns (r: U64)
      modifies this
      ensures seed == Next(old(seed)) && r == Output(seed)
    {
      var x := seed;
      x := MixRight(x, 12);
      x := MixLeft(x);
      x := MixRight(x, 27);
      seed := x;
      r := Output(x);
    }
  }

  lemma XorFits(x: U64, y: U64)
    ensures Xor(x, y) < 0x1_0000_0000_0000_0000
  {
    Pow2Values();
    BitwiseBound(x, y, 64);
  }

  // ----- exclusive or, digit by digit -----

  lemma XorCancel(x: nat, y: nat)
    ensures Xor(Xor(x, y), y) == x
  {
    forall j: nat ensures Bit(Xor(Xor(x, y), y), j) <==> Bit(x, j) {
      XorBit(x, y, j);
      XorBit(Xor(x, y), y, j);
    }
    SameBits(Xor(Xor(x, y), y), x);
  }

  lemma ShrXor(x: nat, y: nat, k: nat)
    ensures Shr(Xor(x, y), k) == Xor(Shr(x, k), Shr(y, k))
  {
    forall j: nat ensures Bit(Shr(Xor(x, y), k), j) <==> Bit(Xor(Shr(x, k), Shr(y, k)), j) {
      ShrBit(Xor(x, y), k, j);
      XorBit(x, y, k + j);
      ShrBit(x, k, j);
      ShrBit(y, k, j);
      XorBit(Shr(x, k), Shr(y, k), j);
    }
    SameBits(Shr(Xor(x, y), k), Xor(Shr(x, k), Shr(y, k)));
  }

  /** (y ^ u) ^ ((u ^ v) ^ v) == y */
  lemma XorFour(y: nat, u: nat, v: nat)
    ensures Xor(Xor(y, u), Xor(Xor(u, v), v)) == y
  {
    XorCancel(u, v);
    XorCancel(y, u);
  }

  // ----- the right shifts -----

  lemma {:induction false} ShrShrinks(y: nat, k: nat)
    requires k > 0 && y > 0
    ensures Shr(y, k) < y
  {
    if k > 1 && y / 2 > 0 { ShrShrinks(y / 2, k - 1); }
  }

  /** The inverse of `x ^ (x >> k)`: y ^ (y >> k) ^ (y >> 2k) ^ ... */
  function UndoRight(y: U64, k: nat): (x: U64)
    requires k > 0
    decreases y
  {
    if y == 0 then 0 else
      ShrShrinks(y, k);
      XorFits(y, UndoRight(Shr(y, k), k));
      Xor(y, UndoRight(Shr(y, k), k))
  }

  lemma {:induction false} ShrZero(k: nat)
    ensures Shr(0, k) == 0
  {
    if k != 0 { ShrZero(k - 1); }
  }

  lemma {:induction false} UndoMixRight(x: U64, k: nat)
    requires k > 0
    ensures UndoRight(MixRight(x, k), k) == x
    decreases x
  {
    var y := MixRight(x, k);
    if x == 0 {
      ShrZero(k);
    } else {
      ShrShrinks(x, k);
      ShrXor(x, Shr(x, k), k);
      UndoMixRight(Shr(x, k), k);
      XorCancel(x, Shr(x, k));
      assert Shr(y, k) == MixRight(Shr(x, k), k);
      MixNonzero(x, k);
    }
  }

  lemma MixNonzero(x: U64, k: nat)
    requires x > 0 && k > 0
    ensures MixRight(x, k) != 0
  {
    ShrShrinks(x, k);
    XorZero(x, Shr(x, k));
  }

  lemma XorZero(x: nat, y: nat)
    ensures Xor(x, y) == 0 ==> x == y
  {
    if Xor(x, y) == 0 {
      forall j: nat ensures Bit(x, j) <==> Bit(y, j) {
        XorBit(x, y, j);
        ZeroBit(j);
      }
      SameBits(x, y);
    }
  }

  lemma {:induction false} MixUndoRight(y: U64, k: nat)
    requires k > 0
    ensures MixRight(UndoRight(y, k), k) == y
    decreases y
  {
    if y == 0 {
      ShrZero(k);
    } else {
      ShrShrinks(y, k);
      var u := UndoRight(Shr(y, k), k);
      MixUndoRight(Shr(y, k), k);
      ShrXor(y, u, k);
      XorFour(y, u, Shr(u, k));
    }
  }

  // ----- the left shift -----

  lemma {:induction false} ShlBit(x: nat, k: nat, j: nat)
    ensures Bit(x * Pow2(k), j) <==> k <= j && Bit(x, j - k)
    decreases k
  {
    if k != 0 {
      var h := x * Pow2(k - 1);
      assert x * Pow2(k) == 2 * h;
      if j != 0 { ShlBit(x, k - 1, j - 1); }
    }
  }

  lemma {:induction false} LowBit(x: nat, n: nat, j: nat)
    ensures Bit(Low(x, n), j) <==> j < n && Bit(x, j)
    decreases n
  {
    if n == 0 { ZeroBit(j); } else if j != 0 { LowBit(x / 2, n - 1, j - 1); }
  }

  lemma Shl25Bit(x: U64, j: nat)
    ensures Bit(Shl25(x), j) <==> 25 <= j < 64 && Bit(x, j - 25)
  {
    Pow2Of25();
    Pow2Values();
    ShlBit(x, 25, j);
    LowBit(x * Pow2(25), 64, j);
    LowIsMod(x * Pow2(25), 64);
  }

  lemma Pow2Of25()
    ensures Pow2(25) == 0x200_0000
  {
    Pow2Values();
    assert Pow2(25) == 2 * Pow2(24);
  }

  /** The inverse of `x ^ (x << 25)`; a third shift would leave nothing. */
  function UndoLeft(y: U64): (x: U64) {
    XorFits(y, Shl25(y));
    XorFits(Xor(y, Shl25(y)), Shl25(Shl25(y)));
    Xor(Xor(y, Shl25(y)), Shl25(Shl25(y)))
  }

  lemma MixLeftBit(x: U64, j: nat)
    ensures Bit(MixLeft(x), j) <==> (Bit(x, j) != (25 <= j < 64 && Bit(x, j - 25)))
  {
    XorBit(x, Shl25(x), j);
    Shl25Bit(x, j);
  }

  lemma UndoLeftBit(y: U64, j: nat)
    ensures Bit(UndoLeft(y), j) <==>
      ((Bit(y, j) != (25 <= j < 64 && Bit(y, j - 25))) != (50 <= j < 64 && Bit(y, j - 50)))
  {
    XorBit(y, Shl25(y), j);
    XorBit(Xor(y, Shl25(y)), Shl25(Shl25(y)), j);
    Shl25Bit(y, j);
    Shl25Bit(Shl25(y), j);
    if j >= 25 { Shl25Bit(y, j - 25); }
  }

  lemma UndoMixLeft(x: U64)
    ensures UndoLeft(MixLeft(x)) == x
  {
    forall j: nat ensures Bit(UndoLeft(MixLeft(x)), j) <==> Bit(x, j) {
      UndoLeftBit(MixLeft(x), j);
      MixLeftBit(x, j);
      if j >= 25 { MixLeftBit(x, j - 25); }
      if j >= 50 { MixLeftBit(x, j - 50); }
    }
    SameBits(UndoLeft(MixLeft(x)), x);
  }

  lemma MixUndoLeft(y: U64)
    ensures MixLeft(UndoLeft(y)) == y
  {
    forall j: nat ensures Bit(MixLeft(UndoLeft(y)), j) <==> Bit(y, j) {
      MixLeftBit(UndoLeft(y), j);
      UndoLeftBit(y, j);
      if j >= 25 { UndoLeftBit(y, j - 25); }
    }
    SameBits(MixLeft(UndoLeft(y)), y);
  }

  // ----- the generator -----

  /** The inverse of the state update. */
  function Previous(y: U64): U64 { UndoRight(UndoLeft(UndoRight(y, 27)), 12) }

  lemma NextThenPrevious(x: U64)
    ensures Previous(Next(x)) == x
  {
    UndoMixRight(x, 12);
    UndoMixLeft(MixRight(x, 12));
    UndoMixRight(MixLeft(MixRight(x, 12)), 27);
  }

  lemma PreviousThenNext(y: U64)
    ensures Next(Previous(y)) == y
  {
    MixUndoRight(y, 27);
    MixUndoLeft(UndoRight(y, 27));
    MixUndoRight(UndoLeft(UndoRight(y, 27)), 12);
  }

  lemma NextOfZero(z: U64)
    requires z == 0
    ensures Next(z) == z
  {
    MixZero(z, 12);
    MixZero(z, 27);
    assert Shl25(z) == 0;
  }

  lemma MixZero(z: U64, k: nat)
    requires z == 0
    ensures MixRight(z, k) == z
  {
    ShrZero(k);
  }

  /** The update is a bijection on 64-bit words, and fixes zero. */
  lemma NextIsBijective(x: U64)
    ensures Previous(Next(x)) == x && Next(Previous(x)) == x && (x == 0 ==> Next(x) == x)
  {
    NextThenPrevious(x);
    PreviousThenNext(x);
    if x == 0 { NextOfZero(x); }
  }

  /** The odd multiplier has an inverse modulo 2^64, so the output determines the state. */
  lemma OutputDeterminesState(s: U64)
    ensures U64Of(Output(s) * 0x5907_1D96_D81E_CD35) == s
  {
    var p := s * 0x2545_F491_4F6C_DD1D;
    U64OfI64(p);
    MulMod(U64Of(p), p, 0x5907_1D96_D81E_CD35, 0x5907_1D96_D81E_CD35, 0x1_0000_0000_0000_0000);
    var c := 0x2545_F491_4F6C_DD1D * 0x5907_1D96_D81E_CD35;
    assert p * 0x5907_1D96_D81E_CD35 == s * c;
    assert c % 0x1_0000_0000_0000_0000 == 1;
    MulMod(c, 1, s, s, 0x1_0000_0000_0000_0000);
  }

  lemma OutputOfNonzero(s: U64)
    requires s != 0
    ensures Output(s) != 0
  {
    OutputDeterminesState(s);
  }

  /** The state after `k` calls, for any state update. */
  function StateAfter(next: U64 -> U64, seed: U64, k: nat): U64
    decreases k
  {
    if k == 0 then seed else next(StateAfter(next, seed, k - 1))
  }

  /** The update is injective and fixes zero. */
  ghost predicate Reversible(next: U64 -> U64) {
    next(0) == 0 && forall x: U64, y: U64 :: next(x) == next(y) ==> x == y
  }

  lemma NextIsReversible()
    ensures Reversible(Next)
  {
    NextIsBijective(0);
    forall x: U64, y: U64 | Next(x) == Next(y) ensures x == y {
      NextIsBijective(x);
      NextIsBijective(y);
    }
  }

  lemma {:induction false} ReversibleNeverZero(next: U64 -> U64, seed: U64, k: nat)
    requires Reversible(next) && seed != 0
    ensures StateAfter(next, seed, k) != 0
    decreases k
  {
    if k != 0 { ReversibleNeverZero(next, seed, k - 1); }
  }

  lemma {:induction false} ReversibleCycles(next: U64 -> U64, seed: U64, i: nat, j: nat)
    requires Reversible(next) && i <= j && StateAfter(next, seed, i) == StateAfter(next, seed, j)
    ensures StateAfter(next, seed, j - i) == seed
    decreases i
  {
    if i != 0 { ReversibleCycles(next, seed, i - 1, j - 1); }
  }

  /** From a nonzero seed no state and no output is ever zero. */
  lemma NeverZero(seed: U64, k: nat)
    requires seed != 0
    ensures StateAfter(Next, seed, k) != 0 && Output(StateAfter(Next, seed, k)) != 0
  {
    NextIsReversible();
    ReversibleNeverZero(Next, seed, k);
    OutputOfNonzero(StateAfter(Next, seed, k));
  }

  /** Two calls return the same value exactly when they leave the same state, and then the run has already come
      back to its seed: there is no tail before the cycle. */
  lemma OutputsRepeatWithStates(seed: U64, i: nat, j: nat)
    requires i <= j
    ensures Output(StateAfter(Next, seed, i)) == Output(StateAfter(Next, seed, j)) <==>
      StateAfter(Next, seed, i) == StateAfter(Next, seed, j)
    ensures StateAfter(Next, seed, i) == StateAfter(Next, seed, j) ==> StateAfter(Next, seed, j - i) == seed
  {
    OutputDeterminesState(StateAfter(Next, seed, i));
    OutputDeterminesState(StateAfter(Next, seed, j));
    if StateAfter(Next, seed, i) == StateAfter(Next, seed, j) {
      NextIsReversible();
      ReversibleCycles(Next, seed, i, j);
    }
  }
}
