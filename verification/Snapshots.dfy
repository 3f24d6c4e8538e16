/** Snapshots: what `reset_to` gives back after stores, after writes that mark no block, and after whole runs. */
module Snapshots {
  import opened Bits
  import opened Words
  import opened Memory
  import opened MemoryRuns
  import FileReads

  // ----- runs of block-local stores -----

  datatype Request = Request(addr: int, data: nat, width: nat)

  /** The store is legal and stays inside one block. */
  ghost predicate Local(m: Mem, q: Request)
    requires m.Valid()
  {
    m.InRam(q.addr, q.width) && Writable(m, q.addr, q.width) && q.addr % 4096 + q.width <= 4096
  }

  ghost predicate LocalRun(m: Mem, qs: seq<Request>)
    requires m.Valid()
    decreases |qs|
  {
    qs == [] || (Local(m, qs[0]) && LocalRun(Store(m, qs[0].addr, qs[0].data, qs[0].width), qs[1..]))
  }

  function StoreAll(m: Mem, qs: seq<Request>): (r: Mem)
    requires m.Valid() && LocalRun(m, qs)
    ensures r.Valid() && |r.ram| == |m.ram|
    decreases |qs|
  {
    if qs == [] then m else StoreAll(Store(m, qs[0].addr, qs[0].data, qs[0].width), qs[1..])
  }

  /** Every byte that differs from the snapshot lies in a dirty block. */
  ghost predicate DirtyCovers(m: Mem, snap: Mem) {
    |m.ram| == |snap.ram| && forall i :: 0 <= i < |m.ram| && m.ram[i] != snap.ram[i] ==> i / 4096 in m.dirty
  }

  lemma SameBlock(addr: int, width: nat, i: int)
    requires 0 <= addr && addr % 4096 + width <= 4096 && Covers(addr, width, i)
    ensures i / 4096 == addr / 4096
  {
  }

  lemma StoreKeepsDirty(m: Mem, snap: Mem, q: Request)
    requires m.Valid() && DirtyCovers(m, snap) && Local(m, q)
    ensures DirtyCovers(Store(m, q.addr, q.data, q.width), snap)
  {
    var r := Store(m, q.addr, q.data, q.width);
    forall i | 0 <= i < |r.ram| && r.ram[i] != snap.ram[i] ensures i / 4096 in r.dirty {
      WriteFromAt(m, LeBytes(q.data, q.width), q.addr, i);
      if Covers(q.addr, q.width, i) { SameBlock(q.addr, q.width, i); }
    }
  }

  lemma {:induction false} RunKeepsDirty(m: Mem, snap: Mem, qs: seq<Request>)
    requires m.Valid() && DirtyCovers(m, snap) && LocalRun(m, qs)
    ensures DirtyCovers(StoreAll(m, qs), snap)
    decreases |qs|
  {
    if qs != [] {
      StoreKeepsDirty(m, snap, qs[0]);
      RunKeepsDirty(Store(m, qs[0].addr, qs[0].data, qs[0].width), snap, qs[1..]);
    }
  }

  /** Copying a memory, running any block-local stores on the copy and resetting it gives back every byte and an
      empty dirty set. */
  lemma ResetRestoresSnapshot(snap: Mem, qs: seq<Request>)
    requires snap.Valid() && LocalRun(snap, qs)
    ensures var m := StoreAll(snap, qs);
      ResetTo(m, snap) == Mem(snap.ram, m.perms, {}, m.allocPtr)
  {
    RunKeepsDirty(snap, snap, qs);
    var m := StoreAll(snap, qs);
    assert ResetTo(m, snap).ram == snap.ram;
  }

  /** The bytes of a store that spill into the block after the one it marks. */
  predicate Spills(addr: int, width: int, i: int) { Covers(addr, width, i) && i / 4096 != addr / 4096 }

  lemma ResetByte(snap: Mem, addr: int, data: nat, width: nat, i: int)
    requires snap.Valid() && snap.InRam(addr, width) && Writable(snap, addr, width) && 0 <= i < |snap.ram|
    ensures ResetTo(Store(snap, addr, data, width), snap).ram[i] == snap.ram[i] <==>
      !Spills(addr, width, i) || i / 4096 in snap.dirty || LeBytes(data, width)[i - addr] == snap.ram[i]
  {
    WriteFromAt(snap, LeBytes(data, width), addr, i);
  }

  /** The spilled bytes happen to be unchanged. */
  ghost predicate SpillsNothingNew(snap: Mem, addr: int, data: nat, width: nat) {
    forall i :: Spills(addr, width, i) && 0 <= i < |snap.ram| ==> LeBytes(data, width)[i - addr] == snap.ram[i]
  }

  lemma SpillIsNextBlock(addr: int, width: nat, i: int)
    requires 0 <= addr && width <= 4096 && Spills(addr, width, i)
    ensures i / 4096 == addr / 4096 + 1 && addr % 4096 + width > 4096
  {
  }

  lemma ResetFails(snap: Mem, addr: int, data: nat, width: nat, i: int)
    requires snap.Valid() && snap.InRam(addr, width) && Writable(snap, addr, width) && width <= 4096
    requires 0 <= i < |snap.ram| && ResetTo(Store(snap, addr, data, width), snap).ram[i] != snap.ram[i]
    ensures addr % 4096 + width > 4096 && addr / 4096 + 1 !in snap.dirty && !SpillsNothingNew(snap, addr, data, width)
  {
    ResetByte(snap, addr, data, width, i);
    SpillIsNextBlock(addr, width, i);
  }

  lemma ResetWorks(snap: Mem, addr: int, data: nat, width: nat)
    requires snap.Valid() && snap.InRam(addr, width) && Writable(snap, addr, width) && width <= 4096
    requires ResetTo(Store(snap, addr, data, width), snap).ram == snap.ram && addr / 4096 + 1 !in snap.dirty
    ensures SpillsNothingNew(snap, addr, data, width)
  {
    forall i | Spills(addr, width, i) && 0 <= i < |snap.ram| ensures LeBytes(data, width)[i - addr] == snap.ram[i] {
      ResetByte(snap, addr, data, width, i);
      SpillIsNextBlock(addr, width, i);
    }
  }

  /** One store of any kind, then a reset: the snapshot comes back exactly when the store stays in its block, or the
      next block was already dirty, or the spilled bytes happen to be unchanged. */
  lemma ResetAfterOneStoreExactly(snap: Mem, addr: int, data: nat, width: nat)
    requires snap.Valid() && snap.InRam(addr, width) && Writable(snap, addr, width) && width <= 4096
    ensures ResetTo(Store(snap, addr, data, width), snap).ram == snap.ram <==>
      || addr % 4096 + width <= 4096
      || addr / 4096 + 1 in snap.dirty
      || SpillsNothingNew(snap, addr, data, width)
  {
    var r := ResetTo(Store(snap, addr, data, width), snap).ram;
    if r == snap.ram {
      if addr / 4096 + 1 !in snap.dirty { ResetWorks(snap, addr, data, width); }
    } else {
      assert |r| == |snap.ram|;
      var i :| 0 <= i < |snap.ram| && r[i] != snap.ram[i];
      ResetFails(snap, addr, data, width, i);
    }
  }

  /** A store across a block boundary after which the reset does not restore the snapshot. */
  lemma StraddlingStoreBreaksReset()
    ensures exists snap: Mem, addr: int, data: nat, width: nat ::
      && snap.Valid() && snap.InRam(addr, width) && Writable(snap, addr, width)
      && WholeBlocks(Store(snap, addr, data, width)) && snap.allocPtr >= 0x1_0000
      && ResetTo(Store(snap, addr, data, width), snap).ram != snap.ram
  {
    var snap := SomeMemory(WRITE_ONLY);
    ResetAfterOneStoreExactly(snap, 4095, 0x100, 2);
    assert LeBytes(0x100, 2) == [0, 1];
    assert Spills(4095, 2, 4096) && LeBytes(0x100, 2)[4096 - 4095] == 1;
    assert !SpillsNothingNew(snap, 4095, 0x100, 2);
    assert snap.Valid() && snap.InRam(4095, 2) && Writable(snap, 4095, 2);
    assert Store(snap, 4095, 0x100, 2).dirty == {0};
  }

  // ----- writes that mark no block -----

  /** One `write_from`, then a reset: the snapshot comes back exactly when every written byte lies in a block
      that was already dirty or is unchanged. */
  lemma ResetAfterWriteExactly(snap: Mem, buf: seq<Byte>, addr: int)
    requires snap.Valid() && snap.InRam(addr, |buf|) && Writable(snap, addr, |buf|)
    ensures ResetTo(WriteFrom(snap, buf, addr), snap).ram == snap.ram <==>
      forall i :: Covers(addr, |buf|, i) ==> i / 4096 in snap.dirty || buf[i - addr] == snap.ram[i]
  {
    var r := ResetTo(WriteFrom(snap, buf, addr), snap).ram;
    forall i | 0 <= i < |snap.ram|
      ensures r[i] == snap.ram[i] <==>
        (Covers(addr, |buf|, i) ==> i / 4096 in snap.dirty || buf[i - addr] == snap.ram[i])
    {
      WriteFromAt(snap, buf, addr, i);
    }
    if forall i :: Covers(addr, |buf|, i) ==> i / 4096 in snap.dirty || buf[i - addr] == snap.ram[i] {
      assert r == snap.ram;
    }
  }

  /** The same for the READ call, which writes its buffer this way. */
  lemma ResetAfterReadExactly(snap: Mem, data: seq<Byte>, idx: int, c: FileReads.Call, n: int)
    requires FileReads.Allowed(data, FileReads.Reader(snap, idx), c) && n == FileReads.ReadCount(|data|, idx, c.count)
    ensures ResetTo(FileReads.Read(data, FileReads.Reader(snap, idx), c).m, snap).ram == snap.ram <==>
      forall i :: Covers(c.buf, n, i) ==> i / 4096 in snap.dirty || data[idx + (i - c.buf)] == snap.ram[i]
  {
    if n == 0 {
      assert ResetTo(snap, snap).ram == snap.ram;
    } else {
      ResetAfterWriteExactly(snap, data[idx..idx + n], c.buf);
    }
  }

  /** A write after which the reset does not restore the snapshot. */
  lemma WriteBreaksReset()
    ensures exists snap: Mem, buf: seq<Byte>, addr: int ::
      && snap.Valid() && snap.InRam(addr, |buf|) && Writable(snap, addr, |buf|)
      && WholeBlocks(WriteFrom(snap, buf, addr)) && snap.allocPtr >= 0x1_0000
      && ResetTo(WriteFrom(snap, buf, addr), snap).ram != snap.ram
  {
    var snap := SomeMemory(WRITE_ONLY);
    var buf: seq<Byte> := [1];
    ResetAfterWriteExactly(snap, buf, 0);
    assert Covers(0, 1, 0) && buf[0] != snap.ram[0];
    assert snap.Valid() && snap.InRam(0, |buf|) && Writable(snap, 0, |buf|);
  }

  // ----- whole runs -----

  /** The last byte written to each place, if any; unlike initialisation tracking this is not forgotten by
      allocation. */
  function NoteWrite(m: Mem, op: Op, t: seq<Trace>): (r: seq<Trace>)
    requires m.Valid() && Enabled(m, op) && |t| == |m.ram|
    ensures |r| == |t|
  {
    if op.Alloc? then t else Note(m, op, t)
  }

  function WrittenBy(m: Mem, ops: seq<Op>, t: seq<Trace>): (r: seq<Trace>)
    requires m.Valid() && EnabledRun(m, ops) && |t| == |m.ram|
    ensures |r| == |t|
    decreases |ops|
  {
    if ops == [] then t else WrittenBy(Apply(m, ops[0]), ops[1..], NoteWrite(m, ops[0], t))
  }

  function NothingWritten(m: Mem): (t: seq<Trace>)
    ensures |t| == |m.ram|
  {
    seq(|m.ram|, _ => Blank)
  }

  /** The blocks that the stores of a run mark. */
  function Marked(ops: seq<Op>): set<int>
    decreases |ops|
  {
    if ops == [] then {}
    else (if ops[0].StoreAt? then {ops[0].addr / 4096} else {}) + Marked(ops[1..])
  }

  /** The trace tells how the memory differs from the snapshot. */
  ghost predicate Explains(m: Mem, snap: Mem, t: seq<Trace>) {
    && |m.ram| == |snap.ram| == |t|
    && forall i :: 0 <= i < |m.ram| ==> m.ram[i] == if t[i].Holds? then t[i].b else snap.ram[i]
  }

  lemma StepExplains(m: Mem, op: Op, snap: Mem, t: seq<Trace>)
    requires m.Valid() && Enabled(m, op) && Explains(m, snap, t)
    ensures Explains(Apply(m, op), snap, NoteWrite(m, op, t))
  {
    var r, u := Apply(m, op), NoteWrite(m, op, t);
    forall i | 0 <= i < |r.ram| ensures r.ram[i] == if u[i].Holds? then u[i].b else snap.ram[i] {
      match op
      case Alloc(size) =>
      case Load(s) => WriteFromAt(SetPerms(m, s.start, s.memSize, WRITE_ONLY), Image(s), s.start, i);
      case Write(buf, addr) => WriteFromAt(m, buf, addr, i);
      case StoreAt(addr, data, n) => WriteFromAt(m, LeBytes(data, n), addr, i);
    }
  }

  lemma {:induction false} RunExplains(m: Mem, ops: seq<Op>, snap: Mem, t: seq<Trace>)
    requires m.Valid() && EnabledRun(m, ops) && Explains(m, snap, t)
    ensures Explains(Exec(m, ops), snap, WrittenBy(m, ops, t))
    decreases |ops|
  {
    if ops != [] {
      StepExplains(m, ops[0], snap, t);
      RunExplains(Apply(m, ops[0]), ops[1..], snap, NoteWrite(m, ops[0], t));
    }
  }

  lemma {:induction false} RunMarks(m: Mem, ops: seq<Op>)
    requires m.Valid() && EnabledRun(m, ops)
    ensures Exec(m, ops).dirty == m.dirty + Marked(ops)
    decreases |ops|
  {
    if ops != [] { RunMarks(Apply(m, ops[0]), ops[1..]); }
  }

  /** Any run of loads, allocations, writes and stores, then a reset: the snapshot's bytes come back exactly
      when every byte outside the blocks that were dirty or that a store marked was never written, or was last
      written with the value it had. */
  lemma ResetAfterRunExactly(snap: Mem, ops: seq<Op>, t: seq<Trace>)
    requires snap.Valid() && EnabledRun(snap, ops) && t == WrittenBy(snap, ops, NothingWritten(snap))
    ensures ResetTo(Exec(snap, ops), snap).ram == snap.ram <==>
      forall i :: 0 <= i < |snap.ram| ==>
        i / 4096 in snap.dirty + Marked(ops) || t[i] == Blank || t[i] == Holds(snap.ram[i])
  {
    RunExplains(snap, ops, snap, NothingWritten(snap));
    RunMarks(snap, ops);
    var r := ResetTo(Exec(snap, ops), snap).ram;
    forall i | 0 <= i < |snap.ram|
      ensures r[i] == snap.ram[i] <==>
        i / 4096 in snap.dirty + Marked(ops) || t[i] == Blank || t[i] == Holds(snap.ram[i])
    {
    }
  }

  // ----- permissions and the allocation pointer -----

  predicate IsWrite(op: Op) { op.Write? || op.StoreAt? }

  /** A written byte has had its permissions updated, once or more often. */
  ghost predicate ExplainsPerms(m: Mem, snap: Mem, t: seq<Trace>) {
    && |m.perms| == |snap.perms| == |t|
    && forall i :: 0 <= i < |m.perms| ==>
         m.perms[i] == if t[i].Holds? then Memory.Written(snap.perms[i]) else snap.perms[i]
  }

  lemma {:induction false} RunExplainsPerms(m: Mem, ops: seq<Op>, snap: Mem, t: seq<Trace>)
    requires m.Valid() && EnabledRun(m, ops) && |t| == |m.ram| && ExplainsPerms(m, snap, t)
    requires forall k :: 0 <= k < |ops| ==> IsWrite(ops[k])
    ensures ExplainsPerms(Exec(m, ops), snap, WrittenBy(m, ops, t))
    decreases |ops|
  {
    if ops != [] { RunExplainsPerms(Apply(m, ops[0]), ops[1..], snap, NoteWrite(m, ops[0], t)); }
  }

  /** After a run of writes and stores alone, the permissions are the snapshot's exactly when no raw byte was
      written. */
  lemma PermissionsAfterWritesExactly(snap: Mem, ops: seq<Op>, t: seq<Trace>)
    requires snap.Valid() && EnabledRun(snap, ops) && forall k :: 0 <= k < |ops| ==> IsWrite(ops[k])
    requires t == WrittenBy(snap, ops, NothingWritten(snap))
    ensures ResetTo(Exec(snap, ops), snap).perms == snap.perms <==>
      forall i :: 0 <= i < |snap.ram| && t[i].Holds? ==> !snap.perms[i].raw
  {
    RunExplainsPerms(snap, ops, snap, NothingWritten(snap));
    var p := ResetTo(Exec(snap, ops), snap).perms;
    forall i | 0 <= i < |snap.ram| ensures p[i] == snap.perms[i] <==> (t[i].Holds? ==> !snap.perms[i].raw) {}
  }

  /** Where the permissions of a byte come from: the snapshot, or the last allocation or load; and whether the
      byte was written since. */
  datatype Base = Original | Given(p: Perm)
  datatype PermNote = PermNote(base: Base, written: bool)

  function NotePerms(m: Mem, op: Op, t: seq<PermNote>): (r: seq<PermNote>)
    requires m.Valid() && Enabled(m, op) && |t| == |m.ram|
    ensures |r| == |t|
  {
    seq(|t|, i requires 0 <= i < |t| =>
      match op
      case Alloc(size) => if Covers(m.allocPtr, size, i) then PermNote(Given(RAW_WRITE), false) else t[i]
      case Load(s) => if Covers(s.start, s.memSize, i) then PermNote(Given(s.perms), false) else t[i]
      case Write(buf, addr) => if Covers(addr, |buf|, i) then t[i].(written := true) else t[i]
      case StoreAt(addr, _, n) => if Covers(addr, n, i) then t[i].(written := true) else t[i])
  }

  function PermsBy(m: Mem, ops: seq<Op>, t: seq<PermNote>): (r: seq<PermNote>)
    requires m.Valid() && EnabledRun(m, ops) && |t| == |m.ram|
    ensures |r| == |t|
    decreases |ops|
  {
    if ops == [] then t else PermsBy(Apply(m, ops[0]), ops[1..], NotePerms(m, ops[0], t))
  }

  function NothingGiven(m: Mem): (t: seq<PermNote>)
    ensures |t| == |m.ram|
  {
    seq(|m.ram|, _ => PermNote(Original, false))
  }

  /** The permissions that a note describes, for a byte that started with `p`. */
  function Resulting(n: PermNote, p: Perm): Perm {
    var b := if n.base.Given? then n.base.p else p;
    if n.written then Memory.Written(b) else b
  }

  ghost predicate NotesPerms(m: Mem, snap: Mem, t: seq<PermNote>) {
    && |m.perms| == |snap.perms| == |t|
    && forall i :: 0 <= i < |m.perms| ==> m.perms[i] == Resulting(t[i], snap.perms[i])
  }

  lemma StepNotesPerms(m: Mem, op: Op, snap: Mem, t: seq<PermNote>)
    requires m.Valid() && Enabled(m, op) && NotesPerms(m, snap, t)
    ensures NotesPerms(Apply(m, op), snap, NotePerms(m, op, t))
  {
  }

  lemma {:induction false} RunNotesPerms(m: Mem, ops: seq<Op>, snap: Mem, t: seq<PermNote>)
    requires m.Valid() && EnabledRun(m, ops) && NotesPerms(m, snap, t)
    ensures NotesPerms(Exec(m, ops), snap, PermsBy(m, ops, t))
    decreases |ops|
  {
    if ops != [] {
      StepNotesPerms(m, ops[0], snap, t);
      RunNotesPerms(Apply(m, ops[0]), ops[1..], snap, NotePerms(m, ops[0], t));
    }
  }

  /** A reset leaves permissions alone. After any run of loads, allocations, writes and stores they are the
      snapshot's exactly when, at every byte, the permissions last given to it, or its own, changed as by a
      write if it was written since, are those of the snapshot. */
  lemma PermissionsAfterRunExactly(snap: Mem, ops: seq<Op>, t: seq<PermNote>)
    requires snap.Valid() && EnabledRun(snap, ops) && t == PermsBy(snap, ops, NothingGiven(snap))
    ensures ResetTo(Exec(snap, ops), snap).perms == snap.perms <==>
      forall i :: 0 <= i < |snap.ram| ==> Resulting(t[i], snap.perms[i]) == snap.perms[i]
  {
    RunNotesPerms(snap, ops, snap, NothingGiven(snap));
    var p := ResetTo(Exec(snap, ops), snap).perms;
    forall i | 0 <= i < |snap.ram| ensures p[i] == Resulting(t[i], snap.perms[i]) {}
  }

  /** The operation does not raise an allocation pointer that stands at `p`. */
  predicate KeepsPointer(op: Op, p: int) {
    match op
    case Alloc(size) => size == 0
    case Load(s) => s.start + s.memSize >= 0 && RoundUp(s.start + s.memSize) <= p
    case _ => true
  }

  lemma {:induction false} PointerGrows(m: Mem, ops: seq<Op>)
    requires m.Valid() && EnabledRun(m, ops)
    ensures m.allocPtr <= Exec(m, ops).allocPtr
    decreases |ops|
  {
    if ops != [] { PointerGrows(Apply(m, ops[0]), ops[1..]); }
  }

  lemma {:induction false} PointerAfterRun(m: Mem, ops: seq<Op>)
    requires m.Valid() && EnabledRun(m, ops)
    ensures Exec(m, ops).allocPtr == m.allocPtr <==> forall k :: 0 <= k < |ops| ==> KeepsPointer(ops[k], m.allocPtr)
    decreases |ops|
  {
    if ops != [] {
      var r := Apply(m, ops[0]);
      PointerAfterRun(r, ops[1..]);
      PointerGrows(r, ops[1..]);
      assert r.allocPtr == m.allocPtr <==> KeepsPointer(ops[0], m.allocPtr);
      assert forall k :: 0 < k < |ops| ==> ops[k] == ops[1..][k - 1];
      assert forall k :: 0 <= k < |ops| - 1 ==> ops[1..][k] == ops[k + 1];
    }
  }

  /** A reset leaves the allocation pointer alone. After any run it is the snapshot's exactly when the run allocated
      nothing and loaded nothing above it. */
  lemma PointerAfterRunExactly(snap: Mem, ops: seq<Op>)
    requires snap.Valid() && EnabledRun(snap, ops)
    ensures ResetTo(Exec(snap, ops), snap).allocPtr == snap.allocPtr <==>
      forall k :: 0 <= k < |ops| ==> KeepsPointer(ops[k], snap.allocPtr)
  {
    PointerAfterRun(snap, ops);
  }

  lemma ExecSingle(m: Mem, op: Op)
    requires m.Valid() && Enabled(m, op)
    ensures EnabledRun(m, [op]) && Exec(m, [op]) == Apply(m, op)
  {
    assert [op][1..] == [];
  }

  /** A memory of 32 blocks as a program starts with it: clean, and allocating from 0x10000. */
  lemma SomeMemory(p: Perm) returns (m: Mem)
    ensures m.Valid() && |m.ram| == 0x2_0000 && m.dirty == {} && m.allocPtr == 0x1_0000
    ensures forall i :: 0 <= i < 0x2_0000 ==> m.perms[i] == p && m.ram[i] == 0
  {
    m := Mem(seq(0x2_0000, _ => 0), seq(0x2_0000, _ => p), {}, 0x1_0000);
  }

  /** An allocation and a store into it: the reset restores every byte, but neither permissions nor pointer. */
  lemma ResetLosesPermissionsAndPointer()
    ensures exists snap: Mem, ops: seq<Op> ::
      && snap.Valid() && EnabledRun(snap, ops) && WholeBlocks(Exec(snap, ops)) && snap.allocPtr == 0x1_0000
      && ResetTo(Exec(snap, ops), snap).ram == snap.ram
      && ResetTo(Exec(snap, ops), snap).perms != snap.perms
      && ResetTo(Exec(snap, ops), snap).allocPtr != snap.allocPtr
  {
    var snap := SomeMemory(NONE);
    var store := StoreAt(0x1_0000, 7, 1);
    var ops := [Alloc(1), store];
    var a := Allocate(snap, 1);
    assert ops[1..] == [store];
    assert Enabled(snap, ops[0]) && Apply(snap, ops[0]) == a;
    assert Enabled(a, store);
    ExecSingle(a, store);
    var r := Apply(a, store);
    assert EnabledRun(snap, ops) && Exec(snap, ops) == r;
    assert r.dirty == {16} && WholeBlocks(r);
    assert r.perms[0x1_0000].read && !snap.perms[0x1_0000].read;
    assert r.allocPtr == 0x1_0001;
    StoreResets(snap, a, 0x1_0000, 7, 1);
  }

  lemma StoreResets(snap: Mem, a: Mem, addr: int, data: nat, width: nat)
    requires snap.Valid() && a.Valid() && a.ram == snap.ram && a.InRam(addr, width) && Writable(a, addr, width)
    requires 0 <= addr && addr % 4096 + width <= 4096
    ensures ResetTo(Store(a, addr, data, width), snap).ram == snap.ram
  {
    StoreKeepsDirty(a, snap, Request(addr, data, width));
    var r := Store(a, addr, data, width);
    assert ResetTo(r, snap).ram == snap.ram;
  }

  /** A store into a raw byte, after which its permissions do not come back. */
  lemma StoreLosesPermissions()
    ensures exists snap: Mem, addr: int, data: nat, width: nat ::
      && snap.Valid() && snap.InRam(addr, width) && Writable(snap, addr, width)
      && WholeBlocks(Store(snap, addr, data, width)) && snap.allocPtr >= 0x1_0000
      && ResetTo(Store(snap, addr, data, width), snap).perms != snap.perms
  {
    var m := SomeMemory(NONE);
    var snap := Allocate(m, 4096);
    assert snap.InRam(0x1_0000, 1) && Writable(snap, 0x1_0000, 1);
    var r := Store(snap, 0x1_0000, 7, 1);
    assert r.dirty == {16} && WholeBlocks(r);
    assert r.perms[0x1_0000].read && !snap.perms[0x1_0000].read;
  }
}
