/** The MMU object: loops over its byte and permission buffers, each proved to do what `Memory` says. */
module Mmu {
  import opened Bits
  import opened Words
  import opened Memory
  import MemoryRuns

  class MMU {
    const ram: array<Byte>
    const perms: array<Perm>
    var dirty: set<int>
    var allocPtr: int

    ghost predicate Valid()
      reads this, ram, perms
    {
      View().Valid()
    }

    ghost function View(): Mem
      reads this, ram, perms
    {
      Mem(ram[..], perms[..], dirty, allocPtr)
    }

    constructor (ramSize: int)
      requires 0 <= ramSize <= 0x8000_0000_0000_0000
      ensures Valid() && fresh(ram) && fresh(perms)
      ensures |View().ram| == ramSize && dirty == {} && allocPtr == 0x1_0000
      ensures forall i :: 0 <= i < ramSize ==> View().perms[i] == Perm(false, false, false, false)
    {
      ram := new Byte[ramSize](_ => 0);
      perms := new Perm[ramSize](_ => NONE);
      dirty := {};
      allocPtr := 0x1_0000;
    }

    /** The snapshot: a copy shares no storage with its original and starts with the same dirty blocks. */
    constructor Copy(other: MMU)
      requires other.Valid()
      ensures Valid() && fresh(ram) && fresh(perms)
      ensures View() == old(other.View())
    {
      var n := other.ram.Length;
      ram := new Byte[n](i requires 0 <= i < n && n == other.ram.Length reads other.ram => other.ram[i]);
      perms := new Perm[n](i requires 0 <= i < n && n == other.perms.Length reads other.perms => other.perms[i]);
      dirty := other.dirty;
      allocPtr := other.allocPtr;
      new;
      assert ram[..] == other.ram[..];
      assert perms[..] == other.perms[..];
    }

    method SetPerms(addr: int, size: int, p: Perm)
      requires Valid() && View().InRam(addr, size)
      modifies perms
      ensures Valid() && View() == Memory.SetPerms(old(View()), addr, size, p)
    {
      var i := addr;
      while i < addr + size
        invariant addr <= i <= addr + size
        invariant forall k :: 0 <= k < perms.Length ==>
          perms[k] == if addr <= k < i then p else old(perms[k])
      {
        perms[i] := p;
        i := i + 1;
      }
      assert perms[..] == Memory.SetPerms(old(View()), addr, size, p).perms;
    }

    method Allocate(size: int) returns (base: int)
      requires Valid() && View().InRam(allocPtr, size)
      modifies this`allocPtr, perms
      ensures Valid() && View() == Memory.Allocate(old(View()), size)
      ensures base == old(allocPtr)
    {
      base := allocPtr;
      allocPtr := allocPtr + size;
      SetPerms(base, size, RAW_WRITE);
    }

    /** `write_from`; its final assertion that every byte is writable is the caller's duty. */
    method WriteFrom(buf: seq<Byte>, addr: int)
      requires Valid() && View().InRam(addr, |buf|) && Writable(View(), addr, |buf|)
      modifies ram, perms
      ensures Valid() && View() == Memory.WriteFrom(old(View()), buf, addr)
    {
      var canWriteAll := true;
      var i := addr;
      while i < addr + |buf|
        invariant addr <= i <= addr + |buf|
        invariant canWriteAll
      {
        assert Covers(addr, |buf|, i);
        canWriteAll := canWriteAll && perms[i].write;
        i := i + 1;
      }
      assert canWriteAll;

      i := addr;
      while i < addr + |buf|
        invariant addr <= i <= addr + |buf|
        invariant forall k :: 0 <= k < ram.Length ==>
          ram[k] == if addr <= k < i then buf[k - addr] else old(ram[k])
        invariant forall k :: 0 <= k < perms.Length ==>
          perms[k] == if addr <= k < i then Written(old(perms[k])) else old(perms[k])
      {
        ram[i] := buf[i - addr];
        if perms[i].raw {
          perms[i] := perms[i].(read := true);
          perms[i] := perms[i].(raw := false);
        }
        i := i + 1;
      }
      ghost var r := Memory.WriteFrom(old(View()), buf, addr);
      assert ram[..] == r.ram;
      assert perms[..] == r.perms;
    }

    method ReadTo(addr: int, len: int) returns (bs: seq<Byte>, st: ReadStatus)
      requires Valid() && View().InRam(addr, len)
      ensures bs == Bytes(View(), addr, len) && st == Status(View(), addr, len)
    {
      var canReadAll, hasRaw := true, false;
      var i := addr;
      while i < addr + len
        invariant addr <= i <= addr + len
        invariant canReadAll <==> forall k :: addr <= k < i ==> perms[k].read
        invariant hasRaw <==> exists k :: addr <= k < i && perms[k].raw
      {
        canReadAll := canReadAll && perms[i].read;
        hasRaw := hasRaw || perms[i].raw;
        i := i + 1;
      }
      st := Normal;
      if !canReadAll { st := NoPermission; }
      if hasRaw { st := Uninitialized; }
      StatusOf(View(), addr, len, canReadAll, hasRaw);

      bs := [];
      i := addr;
      while i < addr + len
        invariant addr <= i <= addr + len
        invariant bs == ram[addr..i]
      {
        bs := bs + [ram[i]];
        i := i + 1;
      }
    }

    /** `load`: the bytes or-ed together, with the status of reading them. */
    method Load(addr: int, width: nat) returns (v: U64, st: ReadStatus)
      requires Valid() && width in {1, 2, 4, 8} && View().InRam(addr, width)
      ensures v == Le(Bytes(View(), addr, width)) && st == Status(View(), addr, width)
    {
      var bs;
      bs, st := ReadTo(addr, width);
      OrBytesIsLe(bs);
      HeldFits(bs);
      v := OrBytes(bs);
    }

    /** `store`: the low bytes of the datum, and the block of the first byte marked dirty. */
    method Store(addr: int, data: U64, width: nat)
      requires Valid() && width in {1, 2, 4, 8} && View().InRam(addr, width) && Writable(View(), addr, width)
      modifies this`dirty, ram, perms
      ensures Valid() && View() == Memory.Store(old(View()), addr, data, width)
    {
      ShiftBytesIsLeBytes(data, width);
      WriteFrom(ShiftBytes(data, width), addr);
      dirty := dirty + {addr / 4096};
    }

    /** Instruction fetch reads four bytes and checks no permission. */
    method LoadInsn(addr: int) returns (w: U32)
      requires Valid() && 0 <= addr && addr + 4 <= |View().ram|
      ensures w == Le(View().ram[addr..addr + 4])
    {
      var bs := [ram[addr], ram[addr + 1], ram[addr + 2], ram[addr + 3]];
      assert bs == ram[addr..addr + 4];
      OrBytesIsLe(bs);
      HeldFits(bs);
      w := OrBytes(bs);
    }

    /** `reset_to`, over the dirty blocks in any order. */
    method ResetTo(other: MMU)
      requires Valid() && other.Valid() && other.ram != ram && ram.Length == other.ram.Length
      requires forall b :: b in dirty ==> 0 <= b && b * 4096 + 4096 <= ram.Length
      modifies this`dirty, ram
      ensures Valid() && View() == Memory.ResetTo(old(View()), other.View())
    {
      var todo := dirty;
      while todo != {}
        invariant todo <= dirty && dirty == old(dirty)
        invariant forall i :: 0 <= i < ram.Length ==>
          ram[i] == if i / 4096 in dirty - todo then other.ram[i] else old(ram[i])
      {
        SomeElement(todo);
        var blk :| blk in todo;
        ghost var before := ram[..];
        var i := blk * 4096;
        while i < blk * 4096 + 4096
          invariant blk * 4096 <= i <= blk * 4096 + 4096 && dirty == old(dirty)
          invariant forall k :: 0 <= k < ram.Length ==>
            ram[k] == if blk * 4096 <= k < i then other.ram[k] else before[k]
        {
          ram[i] := other.ram[i];
          i := i + 1;
        }
        forall k | 0 <= k < ram.Length
          ensures ram[k] == if k / 4096 in dirty - (todo - {blk}) then other.ram[k] else old(ram[k])
        {
          BlockOf(k, blk);
        }
        todo := todo - {blk};
      }
      dirty := {};
      assert ram[..] == Memory.ResetTo(old(View()), other.View()).ram;
    }

    /** `load_file`. */
    method LoadFile(segs: seq<Segment>)
      requires Valid() && MemoryRuns.Loadable(View(), segs)
      modifies this`allocPtr, ram, perms
      ensures Valid() && View() == MemoryRuns.LoadFile(old(View()), segs)
    {
      var k := 0;
      while k < |segs|
        invariant 0 <= k <= |segs| && Valid()
        invariant MemoryRuns.Loadable(View(), segs[k..])
        invariant MemoryRuns.LoadFile(View(), segs[k..]) == MemoryRuns.LoadFile(old(View()), segs)
      {
        var s := segs[k];
        assert segs[k..][0] == s && segs[k..][1..] == segs[k + 1..];
        LoadSegment(s);
        k := k + 1;
      }
      assert segs[k..] == [];
    }

    method LoadSegment(s: Segment)
      requires Valid() && MemoryRuns.Enabled(View(), MemoryRuns.Load(s))
      modifies this`allocPtr, ram, perms
      ensures Valid() && View() == Memory.LoadSegment(old(View()), s)
    {
      SetPerms(s.start, s.memSize, WRITE_ONLY);
      var data := s.data;
      if |data| < s.memSize { data := data + seq(s.memSize - |data|, _ => 0); }
      if |data| > s.memSize { data := data[..s.memSize]; }
      assert data == Image(s);
      WriteFrom(data, s.start);
      SetPerms(s.start, s.memSize, s.perms);
      var top := RoundUp(s.start + s.memSize);
      if allocPtr < top { allocPtr := top; }
    }

    /** `_read_null_terminated_string`: the bytes up to and including the first NUL, which must lie before the
        end of RAM. */
    method ReadString(addr: int, ghost nul: int) returns (s: seq<Byte>)
      requires Valid() && 0 <= addr <= nul && nul + 1 < ram.Length
      requires ram[nul] == 0 && forall i :: addr <= i < nul ==> ram[i] != 0
      ensures s == View().ram[addr..nul + 1]
    {
      s := [];
      var readChar: Byte := 0x20;
      var a := addr;
      while readChar != 0
        invariant addr <= a <= nul + 1
        invariant s == ram[addr..a]
        invariant readChar == 0 <==> a == nul + 1
        decreases nul + 1 - a
      {
        var bs, st := ReadTo(a, 1);
        readChar := bs[0];
        a := a + 1;
        s := s + [readChar];
      }
    }
  }

  lemma StatusOf(m: Mem, addr: int, len: int, canReadAll: bool, hasRaw: bool)
    requires m.Valid() && m.InRam(addr, len)
    requires canReadAll <==> forall k :: addr <= k < addr + len ==> m.perms[k].read
    requires hasRaw <==> exists k :: addr <= k < addr + len && m.perms[k].raw
    ensures Status(m, addr, len) == if hasRaw then Uninitialized else if !canReadAll then NoPermission else Normal
  {
    assert hasRaw <==> exists k :: Covers(addr, len, k) && m.perms[k].raw;
    assert !canReadAll <==> exists k :: Covers(addr, len, k) && !m.perms[k].read;
  }

  lemma SomeElement(s: set<int>)
    ensures s == {} || exists b :: b in s
  {
    if forall b :: b !in s { assert s == {}; }
  }

  lemma BlockOf(k: int, blk: int)
    requires 0 <= k && 0 <= blk
    ensures k / 4096 == blk <==> blk * 4096 <= k < blk * 4096 + 4096
  {
  }
}
