/** What every run of MMU operations keeps: initialisation tracking and allocation. */
module MemoryRuns {
  import opened Bits
  import opened Words
  import opened Memory

  // ----- initialisation tracking -----

  datatype Op =
    | Alloc(size: int)
    | Load(seg: Segment)
    | Write(buf: seq<Byte>, addr: int)
    | StoreAt(addr: int, data: nat, width: nat)

  /** The assertions the source makes before the operation. */
  ghost predicate Enabled(m: Mem, op: Op)
    requires m.Valid()
  {
    match op
    case Alloc(size) => m.InRam(m.allocPtr, size)
    case Load(s) => m.InRam(s.start, s.memSize) && RoundUp(s.start + s.memSize) < 0x8000_0000_0000_0000
    case Write(buf, addr) => m.InRam(addr, |buf|) && Writable(m, addr, |buf|)
    case StoreAt(addr, _, n) => m.InRam(addr, n) && Writable(m, addr, n)
  }

  function Apply(m: Mem, op: Op): (r: Mem)
    requires m.Valid() && Enabled(m, op)
    ensures r.Valid() && |r.ram| == |m.ram|
  {
    match op
    case Alloc(size) => Allocate(m, size)
    case Load(s) => LoadSegment(m, s)
    case Write(buf, addr) => WriteFrom(m, buf, addr)
    case StoreAt(addr, data, n) => Store(m, addr, data, n)
  }

  /** A record kept beside the memory and independent of permissions: the last value written to a byte,
      if it was written since it was last handed out by the allocator. */
  datatype Trace = Blank | Holds(b: Byte)

  function Note(m: Mem, op: Op, t: seq<Trace>): (r: seq<Trace>)
    requires m.Valid() && Enabled(m, op) && |t| == |m.ram|
    ensures |r| == |t|
  {
    seq(|t|, i requires 0 <= i < |t| =>
      match op
      case Alloc(size) => if Covers(m.allocPtr, size, i) then Blank else t[i]
      case Load(s) => if Covers(s.start, s.memSize, i) then Holds(Image(s)[i - s.start]) else t[i]
      case Write(buf, addr) => if Covers(addr, |buf|, i) then Holds(buf[i - addr]) else t[i]
      case StoreAt(addr, data, n) => if Covers(addr, n, i) then Holds(LeBytes(data, n)[i - addr]) else t[i])
  }

  /** RAW and READ never coexist, and a readable byte holds what was last written to it. */
  ghost predicate Tracked(m: Mem, t: seq<Trace>) {
    && |m.ram| == |m.perms| == |t|
    && forall i :: 0 <= i < |m.ram| ==>
         !(m.perms[i].raw && m.perms[i].read) && (m.perms[i].read ==> t[i] == Holds(m.ram[i]))
  }

  /** A segment does not ask for bytes that are both raw and readable. */
  predicate Trackable(op: Op) { op.Load? ==> !(op.seg.perms.raw && op.seg.perms.read) || op.seg.memSize == 0 }

  lemma StepTracked(m: Mem, op: Op, t: seq<Trace>)
    requires m.Valid() && Enabled(m, op) && Tracked(m, t) && Trackable(op)
    ensures Tracked(Apply(m, op), Note(m, op, t))
  {
    var r, u := Apply(m, op), Note(m, op, t);
    forall i | 0 <= i < |r.ram|
      ensures !(r.perms[i].raw && r.perms[i].read) && (r.perms[i].read ==> u[i] == Holds(r.ram[i]))
    {
      match op
      case Alloc(size) =>
      case Load(s) => WriteFromAt(SetPerms(m, s.start, s.memSize, WRITE_ONLY), Image(s), s.start, i);
      case Write(buf, addr) => WriteFromAt(m, buf, addr, i);
      case StoreAt(addr, data, n) => WriteFromAt(m, LeBytes(data, n), addr, i);
    }
  }

  /** Loading keeps the invariant exactly when the segment is such a one. */
  lemma LoadTrackedExactly(m: Mem, s: Segment, t: seq<Trace>)
    requires m.Valid() && Enabled(m, Load(s)) && Tracked(m, t)
    ensures Tracked(Apply(m, Load(s)), Note(m, Load(s), t)) <==> Trackable(Load(s))
  {
    if Trackable(Load(s)) {
      StepTracked(m, Load(s), t);
    } else {
      var p := Apply(m, Load(s)).perms[s.start];
      assert p == s.perms;
    }
  }

  ghost predicate EnabledRun(m: Mem, ops: seq<Op>)
    requires m.Valid()
    decreases |ops|
  {
    ops == [] || (Enabled(m, ops[0]) && EnabledRun(Apply(m, ops[0]), ops[1..]))
  }

  function Exec(m: Mem, ops: seq<Op>): (r: Mem)
    requires m.Valid() && EnabledRun(m, ops)
    ensures r.Valid() && |r.ram| == |m.ram|
    decreases |ops|
  {
    if ops == [] then m else Exec(Apply(m, ops[0]), ops[1..])
  }

  function ExecTrace(m: Mem, ops: seq<Op>, t: seq<Trace>): (r: seq<Trace>)
    requires m.Valid() && EnabledRun(m, ops) && |t| == |m.ram|
    ensures |r| == |t|
    decreases |ops|
  {
    if ops == [] then t else ExecTrace(Apply(m, ops[0]), ops[1..], Note(m, ops[0], t))
  }

  lemma {:induction false} RunTracked(m: Mem, ops: seq<Op>, t: seq<Trace>)
    requires m.Valid() && EnabledRun(m, ops) && Tracked(m, t) && forall k :: 0 <= k < |ops| ==> Trackable(ops[k])
    ensures Tracked(Exec(m, ops), ExecTrace(m, ops, t))
    decreases |ops|
  {
    if ops != [] {
      StepTracked(m, ops[0], t);
      RunTracked(Apply(m, ops[0]), ops[1..], Note(m, ops[0], t));
    }
  }

  /** From a fresh memory, after any run: a read is permitted exactly when every byte has its READ bit, and it then
      returns the bytes last written; a byte never written since it was allocated is never readable. */
  lemma ReadsReturnLastWrites(m: Mem, ops: seq<Op>, addr: int, len: nat)
    requires m.Valid() && (forall i :: 0 <= i < |m.perms| ==> m.perms[i] == NONE) && EnabledRun(m, ops)
    requires m.InRam(addr, len) && forall k :: 0 <= k < |ops| ==> Trackable(ops[k])
    ensures var r := Exec(m, ops);
      var t := ExecTrace(m, ops, seq(|m.ram|, _ => Blank));
      && (Status(r, addr, len) == Normal <==> forall i :: Covers(addr, len, i) ==> r.perms[i].read)
      && (Status(r, addr, len) == Normal ==>
            forall k :: 0 <= k < len ==> t[addr + k] == Holds(Bytes(r, addr, len)[k]))
  {
    var blank := seq(|m.ram|, _ => Blank);
    RunTracked(m, ops, blank);
    var r, t := Exec(m, ops), ExecTrace(m, ops, blank);
    if Status(r, addr, len) == Normal {
      forall k | 0 <= k < len ensures t[addr + k] == Holds(Bytes(r, addr, len)[k]) {
        assert Covers(addr, len, addr + k);
      }
    }
  }

  // ----- allocation -----

  /** The mask rounds up to the least multiple of 64 KiB. */
  lemma RoundUpIsLeastMultiple(x: nat)
    requires x + 0xFFFF < 0x1_0000_0000_0000_0000
    ensures RoundUp(x) % 0x1_0000 == 0 && x <= RoundUp(x) < x + 0x1_0000
  {
    MaskDown(x + 0xFFFF);
    RoundDown(x + 0xFFFF, RoundUp(x));
  }

  lemma RoundDown(y: int, r: int)
    requires r == y - y % 0x1_0000
    ensures r % 0x1_0000 == 0 && y - 0x1_0000 < r <= y
  {
    assert r == 0x1_0000 * (y / 0x1_0000);
  }

  lemma MaskDown(y: U64)
    ensures And(y, Not64(0xFFFF)) == y - y % 0x1_0000
  {
    Low16(y);
    Pow2Values();
    assert Not64(0xFFFF) == Pow2(64) - Pow2(16);
    LowSmall(y, 64);
    AndHigh(y, 16, 64);
  }

  lemma Low16(y: nat)
    ensures Low(y, 16) == y % 0x1_0000
  {
    Pow2Values();
    LowIsMod(y, 16);
  }

  /** `load_file`, one segment after another. */
  ghost predicate Loadable(m: Mem, segs: seq<Segment>)
    requires m.Valid()
    decreases |segs|
  {
    segs == [] || (Enabled(m, Load(segs[0])) && Loadable(Apply(m, Load(segs[0])), segs[1..]))
  }

  function LoadFile(m: Mem, segs: seq<Segment>): (r: Mem)
    requires m.Valid() && Loadable(m, segs)
    ensures r.Valid() && |r.ram| == |m.ram|
    decreases |segs|
  {
    if segs == [] then m else LoadFile(LoadSegment(m, segs[0]), segs[1..])
  }

  lemma {:induction false} LoadFileAllocatesAbove(m: Mem, segs: seq<Segment>)
    requires m.Valid() && Loadable(m, segs)
    ensures m.allocPtr <= LoadFile(m, segs).allocPtr
    ensures forall k :: 0 <= k < |segs| ==> segs[k].start + segs[k].memSize <= LoadFile(m, segs).allocPtr
    decreases |segs|
  {
    if segs != [] {
      RoundUpIsLeastMultiple(segs[0].start + segs[0].memSize);
      LoadFileAllocatesAbove(LoadSegment(m, segs[0]), segs[1..]);
    }
  }

  /** Calls that hand out memory after loading: the emulator's own, and the guest's brk. */
  datatype Call = Grab(size: int) | Brk(addr: U64)

  /** `increment` of the brk call. */
  function Increment(m: Mem, addr: U64): I64 { IncrementFrom(m.allocPtr, addr) }

  function IncrementFrom(pointer: int, addr: U64): I64 {
    if addr == 0 then 0 else I64Of(I64Of(addr) - I64Of(pointer))
  }

  datatype Region = Region(base: int, size: int)

  /** The region a call hands out; a refused brk hands out nothing. */
  function Handed(m: Mem, q: Call): Region {
    match q
    case Grab(size) => Region(m.allocPtr, size)
    case Brk(addr) => Region(m.allocPtr, if Increment(m, addr) < 0 then 0 else Increment(m, addr))
  }

  /** The call does not run into an assertion of the source. */
  predicate Granted(m: Mem, q: Call) { m.InRam(Handed(m, q).base, Handed(m, q).size) }

  function After(m: Mem, q: Call): (r: Mem)
    requires m.Valid() && Granted(m, q)
    ensures r.Valid() && |r.ram| == |m.ram|
  {
    if q.Brk? && Increment(m, q.addr) < 0 then m else Allocate(m, Handed(m, q).size)
  }

  predicate GrantedRun(m: Mem, qs: seq<Call>)
    requires m.Valid()
    decreases |qs|
  {
    qs == [] || (Granted(m, qs[0]) && GrantedRun(After(m, qs[0]), qs[1..]))
  }

  function Regions(m: Mem, qs: seq<Call>): (rs: seq<Region>)
    requires m.Valid() && GrantedRun(m, qs)
    ensures |rs| == |qs|
    decreases |qs|
  {
    if qs == [] then [] else [Handed(m, qs[0])] + Regions(After(m, qs[0]), qs[1..])
  }

  /** No byte lies in both regions. */
  predicate Disjoint(a: Region, b: Region) {
    a.base + a.size <= b.base || b.base + b.size <= a.base
  }

  /** Every region starts at or above `from` and ends inside a RAM of `size` bytes; no two overlap. */
  ghost predicate Stacked(rs: seq<Region>, from: int, size: int) {
    && (forall j :: 0 <= j < |rs| ==> from <= rs[j].base && 0 <= rs[j].size && rs[j].base + rs[j].size < size)
    && (forall i, j :: 0 <= i < j < |rs| ==> Disjoint(rs[i], rs[j]))
  }

  lemma {:induction false} RegionsGrowUpward(m: Mem, qs: seq<Call>)
    requires m.Valid() && GrantedRun(m, qs)
    ensures Stacked(Regions(m, qs), m.allocPtr, |m.ram|)
    decreases |qs|
  {
    if qs != [] {
      var n := After(m, qs[0]);
      RegionsGrowUpward(n, qs[1..]);
      StackOne(Handed(m, qs[0]), Regions(n, qs[1..]), m.allocPtr, n.allocPtr, |m.ram|);
    }
  }

  lemma StackOne(r: Region, rs: seq<Region>, from: int, next: int, size: int)
    requires Stacked(rs, next, size) && from <= next && from == r.base
    requires 0 <= r.size && r.base + r.size < size && r.base + r.size <= next
    ensures Stacked([r] + rs, from, size)
  {
  }

  /** After loading a file, whatever allocations and brk calls follow, the regions handed out lie in RAM and are
      disjoint from each other and from every segment. */
  lemma AllocationsAreDisjoint(m: Mem, segs: seq<Segment>, qs: seq<Call>, rs: seq<Region>)
    requires m.Valid() && Loadable(m, segs) && GrantedRun(LoadFile(m, segs), qs) && rs == Regions(LoadFile(m, segs), qs)
    ensures forall j :: 0 <= j < |rs| ==> m.InRam(rs[j].base, rs[j].size)
    ensures forall i, j :: 0 <= i < j < |rs| ==> Disjoint(rs[i], rs[j])
    ensures forall k, j :: 0 <= k < |segs| && 0 <= j < |rs| ==> Disjoint(Region(segs[k].start, segs[k].memSize), rs[j])
  {
    LoadFileAllocatesAbove(m, segs);
    RegionsGrowUpward(LoadFile(m, segs), qs);
  }

  /** What brk returns in A0. */
  function BrkAnswer(m: Mem, addr: U64): I64 {
    if Increment(m, addr) < 0 then -1 else I64Of(m.allocPtr + Increment(m, addr))
  }

  /** A brk that is neither refused nor aborted returns its argument and makes it the allocation pointer. */
  lemma BrkMovesTheBreak(m: Mem, addr: U64)
    requires m.Valid() && addr != 0 && Increment(m, addr) >= 0 && Granted(m, Brk(addr))
    ensures After(m, Brk(addr)).allocPtr == addr == BrkAnswer(m, addr) >= m.allocPtr
  {
    BreakDistance(m.allocPtr, addr, Increment(m, addr));
  }

  lemma BreakDistance(p: int, addr: int, inc: int)
    requires 0 <= p < 0x8000_0000_0000_0000 && 0 <= addr < 0x1_0000_0000_0000_0000
    requires inc == I64Of(I64Of(addr) - I64Of(p)) && 0 <= p + inc < 0x8000_0000_0000_0000
    ensures p + inc == addr == I64Of(p + inc)
  {
    SmallSigned(p);
    SmallSigned(p + inc);
    if addr < 0x8000_0000_0000_0000 {
      SmallSigned(addr);
      SmallSigned(addr - p);
    } else {
      HighBreak(p, addr, inc);
    }
  }

  lemma HighBreak(p: int, addr: int, inc: int)
    requires 0 <= p < 0x8000_0000_0000_0000 <= addr < 0x1_0000_0000_0000_0000 && inc == I64Of(Sign64(addr) - p)
    ensures inc < -p || p + inc >= 0x8000_0000_0000_0000
  {
  }

  /** A nonzero brk is refused exactly when it lies below the break, or so far above it that the signed difference
      wraps around. */
  lemma BrkRefusedExactly(m: Mem, addr: U64)
    requires m.Valid() && addr != 0
    ensures Increment(m, addr) < 0 <==>
      if addr < 0x8000_0000_0000_0000 then addr < m.allocPtr else m.allocPtr <= addr - 0x8000_0000_0000_0000
  {
  }

  /** In terms of memory operations, brk allocates, or does nothing. */
  lemma BrkIsAllocation(m: Mem, addr: U64)
    requires m.Valid() && Granted(m, Brk(addr))
    ensures Increment(m, addr) < 0 ==> After(m, Brk(addr)) == m
    ensures Increment(m, addr) >= 0 ==>
      Enabled(m, Alloc(Increment(m, addr))) && After(m, Brk(addr)) == Apply(m, Alloc(Increment(m, addr)))
  {
  }
}
