/** The integer register file: signed 64-bit values, with x0 hard-wired to zero. */
module RegisterFile {
  import opened Words

  /** The same registers read as unsigned words. */
  ghost function Unsigned(regs: seq<I64>): (x: seq<U64>)
    ensures |x| == |regs|
  {
    seq(|regs|, i requires 0 <= i < |regs| => U64Of(regs[i]))
  }

  class RegFile {
    const data: array<I64>

    ghost predicate Valid()
      reads this, data
    {
      data.Length == 32 && data[0] == 0
    }

    constructor ()
      ensures Valid() && fresh(data)
      ensures forall i :: 0 <= i < 32 ==> data[i] == 0
    {
      data := new I64[32](_ => 0);
    }

    method LoadReg(idx: int) returns (v: I64)
      requires Valid() && 0 <= idx < 32
      ensures v == data[idx]
    {
      v := data[idx];
    }

    method StoreReg(idx: int, value: I64)
      requires Valid() && 0 <= idx < 32
      modifies data
      ensures Valid()
      ensures data[..] == Stored(old(data[..]), idx, value)
    {
      if idx == 0 { return; }
      data[idx] := value;
    }
  }

  /** Register contents after a write; x0 ignores it. */
  function Stored(regs: seq<I64>, idx: int, value: I64): (r: seq<I64>)
    requires |regs| == 32 && 0 <= idx < 32
    ensures |r| == 32
  {
    if idx == 0 then regs else regs[idx := value]
  }

  lemma StoredUnsigned(regs: seq<I64>, idx: int, value: I64)
    requires |regs| == 32 && 0 <= idx < 32
    ensures Unsigned(Stored(regs, idx, value)) ==
      if idx == 0 then Unsigned(regs) else Unsigned(regs)[idx := U64Of(value)]
  {
  }
}
