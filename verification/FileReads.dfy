/** The READ system call on an open file, and runs of it. */
module FileReads {
  import opened Words
  import opened Memory

  /** An entry of the file table; the length of the file is that of its data. */
  datatype Handle = Handle(fd: I64, data: seq<Byte>, idx: int)

  /** The number of bytes a call reads: what is asked for, or what is left. */
  function ReadCount(len: int, idx: int, count: U64): U64 {
    if U64Of(idx + count) >= len then U64Of(len - idx) else count
  }

  datatype Call = Call(buf: U64, count: U64)

  /** Guest memory and the file position. */
  datatype Reader = Reader(m: Mem, idx: int)

  /** The bytes to copy lie in the file, and the buffer takes them. */
  ghost predicate Allowed(data: seq<Byte>, r: Reader, c: Call) {
    && r.m.Valid() && 0 <= r.idx < 0x1_0000_0000_0000_0000 && |data| < 0x1_0000_0000_0000_0000
    && var n := ReadCount(|data|, r.idx, c.count);
       r.idx + n <= |data| && (n > 0 ==> r.m.InRam(c.buf, n) && Writable(r.m, c.buf, n))
  }

  /** The source copies bytes of the file only, exactly when the position lies in it and position plus count
      does not wrap around; otherwise it reads past its buffer, which has no defined meaning. */
  lemma CopiesFileExactly(len: U64, idx: U64, count: U64)
    ensures idx + ReadCount(len, idx, count) <= len <==> idx <= len && idx + count < 0x1_0000_0000_0000_0000
  {
  }

  lemma CountIsMinimum(len: int, idx: int, count: U64)
    requires 0 <= idx <= len && idx + count < 0x1_0000_0000_0000_0000
    ensures ReadCount(len, idx, count) == if count < len - idx then count else len - idx
  {
  }

  /** What the call does; at the end of the file it does nothing. */
  ghost function Read(data: seq<Byte>, r: Reader, c: Call): (s: Reader)
    requires Allowed(data, r, c)
    ensures s.m.Valid() && |s.m.ram| == |r.m.ram|
  {
    var n := ReadCount(|data|, r.idx, c.count);
    if n == 0 then r else Reader(WriteFrom(r.m, data[r.idx..r.idx + n], c.buf), r.idx + n)
  }

  /** The bytes that guest memory holds in the buffer right after the call. */
  ghost function Delivered(data: seq<Byte>, r: Reader, c: Call): (bs: seq<Byte>)
    requires Allowed(data, r, c)
  {
    var n := ReadCount(|data|, r.idx, c.count);
    if n == 0 then [] else Bytes(Read(data, r, c).m, c.buf, n)
  }

  ghost predicate AllowedRun(data: seq<Byte>, r: Reader, cs: seq<Call>)
    decreases |cs|
  {
    cs == [] || (Allowed(data, r, cs[0]) && AllowedRun(data, Read(data, r, cs[0]), cs[1..]))
  }

  ghost function ReadRun(data: seq<Byte>, r: Reader, cs: seq<Call>): (s: Reader)
    requires AllowedRun(data, r, cs)
    decreases |cs|
  {
    if cs == [] then r else ReadRun(data, Read(data, r, cs[0]), cs[1..])
  }

  ghost function DeliveredRun(data: seq<Byte>, r: Reader, cs: seq<Call>): (bs: seq<Byte>)
    requires AllowedRun(data, r, cs)
    decreases |cs|
  {
    if cs == [] then [] else Delivered(data, r, cs[0]) + DeliveredRun(data, Read(data, r, cs[0]), cs[1..])
  }

  function Asked(cs: seq<Call>): (n: nat)
    decreases |cs|
  {
    if cs == [] then 0 else cs[0].count + Asked(cs[1..])
  }

  lemma DeliveredOnce(data: seq<Byte>, r: Reader, c: Call)
    requires Allowed(data, r, c)
    ensures var s := Read(data, r, c);
      && Delivered(data, r, c) == data[r.idx..s.idx]
      && s.idx == if r.idx + c.count < |data| then r.idx + c.count else |data|
  {
    CopiesFileExactly(|data|, r.idx, c.count);
    CountIsMinimum(|data|, r.idx, c.count);
  }

  // ----- the answer -----

  /** A0 after the call: the count, unless nothing was read; then what A0 held, the descriptor. */
  function ReadAnswer(len: int, idx: int, count: U64, a0: I64): I64 {
    var n := ReadCount(len, idx, count);
    if n == 0 then a0 else I64Of(n)
  }

  /** The call answers with the number of bytes it delivered exactly when there was something to deliver, or the
      descriptor happens to be zero. */
  lemma AnswersCountExactly(data: seq<Byte>, r: Reader, c: Call, a0: I64)
    requires Allowed(data, r, c)
    ensures ReadAnswer(|data|, r.idx, c.count, a0) == |Delivered(data, r, c)| <==>
      (r.idx < |data| && c.count > 0) || a0 == 0
  {
    CopiesFileExactly(|data|, r.idx, c.count);
    CountIsMinimum(|data|, r.idx, c.count);
  }

  /** Reading descriptor 3 at the end of its file answers 3, having delivered nothing. */
  lemma EndOfFileAnswersDescriptor()
    ensures exists data: seq<Byte>, r: Reader, c: Call ::
      Allowed(data, r, c) && Delivered(data, r, c) == [] && ReadAnswer(|data|, r.idx, c.count, 3) == 3
  {
    var data: seq<Byte> := [10, 20];
    var r, c := Reader(Mem([], [], {}, 0), 2), Call(0, 100);
    assert ReadCount(2, 2, 100) == 0;
    assert Allowed(data, r, c) && Delivered(data, r, c) == [];
  }

  lemma JoinSlices(data: seq<Byte>, i: int, j: int, k: int)
    requires 0 <= i <= j <= k <= |data|
    ensures data[i..j] + data[j..k] == data[i..k]
  {
  }

  /** Sequential calls deliver the file: the position ends where all the counts together lead, never past the
      end, and the delivered buffers concatenate to the bytes in between. */
  lemma {:induction false} ReadsAreSequential(data: seq<Byte>, r: Reader, cs: seq<Call>)
    requires AllowedRun(data, r, cs) && 0 <= r.idx <= |data|
    ensures var s := ReadRun(data, r, cs);
      && s.idx == (if r.idx + Asked(cs) < |data| then r.idx + Asked(cs) else |data|)
      && DeliveredRun(data, r, cs) == data[r.idx..s.idx]
    decreases |cs|
  {
    if cs != [] {
      var t := Read(data, r, cs[0]);
      DeliveredOnce(data, r, cs[0]);
      ReadsAreSequential(data, t, cs[1..]);
      JoinSlices(data, r.idx, t.idx, ReadRun(data, t, cs[1..]).idx);
    }
  }
}
