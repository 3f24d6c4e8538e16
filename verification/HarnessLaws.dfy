/** What memory operations, system calls, mutation and the generator do to single bytes, places and digits, in plain
    numbers. */
module HarnessLaws {
  import opened Bits
  import opened Words
  import opened Memory
  import opened MemoryRuns
  import AccessLaws
  import Mutation
  import Random

  // ----- memory operations -----

  /** A written buffer lies where it was written, and raw bytes under it became readable. */
  lemma WriteLaw(m: Mem, buf: seq<Byte>, addr: int)
    requires m.Valid() && m.InRam(addr, |buf|) && Writable(m, addr, |buf|)
    ensures var r := WriteFrom(m, buf, addr);
      && r.dirty == m.dirty
      && AccessLaws.Replaced(m, r.(dirty := m.dirty + {addr / 4096}), addr, buf)
  {
    var r := WriteFrom(m, buf, addr);
    forall i | 0 <= i < |m.ram| ensures r.ram[i] == if addr <= i < addr + |buf| then buf[i - addr] else m.ram[i] {
      WriteFromAt(m, buf, addr, i);
    }
  }

  /** Allocation makes its bytes raw and writable and nothing more, keeps their contents, and moves the pointer. */
  lemma AllocateLaw(m: Mem, size: int, i: int)
    requires m.Valid() && m.InRam(m.allocPtr, size) && 0 <= i < |m.ram|
    ensures var r := Allocate(m, size);
      && r.ram == m.ram && r.dirty == m.dirty && r.allocPtr == m.allocPtr + size && |r.perms| == |m.perms|
      && r.perms[i] == if m.allocPtr <= i < m.allocPtr + size then Perm(false, true, false, true) else m.perms[i]
  {
  }

  /** A loaded segment holds its file's bytes and then zeros, with its own permissions; the allocation pointer is at
      least the next multiple of 64 KiB. */
  lemma SegmentLaw(m: Mem, s: Segment, i: int)
    requires m.Valid() && m.InRam(s.start, s.memSize) && 0 <= i < |m.ram|
    ensures var r := LoadSegment(m, s); var k := i - s.start;
      && |r.ram| == |m.ram| && |r.perms| == |m.perms| && r.dirty == m.dirty
      && (0 <= k < s.memSize ==> r.ram[i] == (if k < |s.data| then s.data[k] else 0) && r.perms[i] == s.perms)
      && (k < 0 || s.memSize <= k ==> r.ram[i] == m.ram[i] && r.perms[i] == m.perms[i])
  {
    WriteFromAt(SetPerms(m, s.start, s.memSize, WRITE_ONLY), Image(s), s.start, i);
  }

  lemma SegmentPointerLaw(m: Mem, s: Segment)
    requires m.Valid() && m.InRam(s.start, s.memSize)
    ensures var top := (s.start + s.memSize + 0xFFFF) / 0x1_0000 * 0x1_0000;
      LoadSegment(m, s).allocPtr == if m.allocPtr < top then top else m.allocPtr
  {
    var x := s.start + s.memSize;
    RoundUpIsLeastMultiple(x);
    UpToMultiple(x, RoundUp(x));
  }

  lemma UpToMultiple(x: nat, r: int)
    requires r % 0x1_0000 == 0 && x <= r < x + 0x1_0000
    ensures r == (x + 0xFFFF) / 0x1_0000 * 0x1_0000
  {
  }

  /** The segment covers byte `i`. */
  predicate Holds(s: Segment, i: int) { s.start <= i < s.start + s.memSize }

  /** After loading a file a byte is what the last segment that covers it put there, and a byte that none covers
      is as before. */
  lemma {:induction false} FileLaw(m: Mem, segs: seq<Segment>, i: int, k: int)
    requires m.Valid() && Loadable(m, segs) && 0 <= i < |m.ram| && -1 <= k < |segs|
    requires k >= 0 ==> Holds(segs[k], i)
    requires forall j :: k < j < |segs| ==> !Holds(segs[j], i)
    ensures var r := LoadFile(m, segs);
      && |r.ram| == |m.ram| && |r.perms| == |m.perms| && r.dirty == m.dirty
      && (k < 0 ==> r.ram[i] == m.ram[i] && r.perms[i] == m.perms[i])
      && (k >= 0 ==> var s := segs[k];
            r.perms[i] == s.perms && r.ram[i] == if i - s.start < |s.data| then s.data[i - s.start] else 0)
    decreases |segs|
  {
    if segs != [] {
      SegmentLaw(m, segs[0], i);
      FileLaw(LoadSegment(m, segs[0]), segs[1..], i, if k <= 0 then -1 else k - 1);
    }
  }

  // ----- brk -----

  /** A request of the emulator itself is an allocation at the pointer. */
  lemma GrabLaw(m: Mem, size: int)
    requires m.Valid() && m.InRam(m.allocPtr, size)
    ensures Granted(m, Grab(size)) && Handed(m, Grab(size)) == Region(m.allocPtr, size)
    ensures After(m, Grab(size)) == Allocate(m, size)
  {
  }

  /** A granted nonzero brk hands out what lies between the old break and the new one. */
  lemma BrkRegionLaw(m: Mem, addr: U64)
    requires m.Valid() && Granted(m, Brk(addr)) && m.allocPtr <= addr < 0x8000_0000_0000_0000 && addr != 0
    ensures Handed(m, Brk(addr)) == Region(m.allocPtr, addr - m.allocPtr)
    ensures After(m, Brk(addr)) == Allocate(m, addr - m.allocPtr)
  {
    BrkRefusedExactly(m, addr);
    BrkMovesTheBreak(m, addr);
  }

  /** brk of zero answers the break and changes nothing. */
  lemma BrkZeroLaw(m: Mem)
    requires m.Valid() && m.InRam(m.allocPtr, 0)
    ensures Granted(m, Brk(0)) && After(m, Brk(0)) == m && BrkAnswer(m, 0) == m.allocPtr
  {
    var r := Allocate(m, 0);
    assert r.perms == m.perms;
    SmallSigned(m.allocPtr);
  }

  /** A refused brk answers minus one and changes nothing. */
  lemma BrkRefusedLaw(m: Mem, addr: U64)
    requires m.Valid() && Granted(m, Brk(addr)) && 0 < addr < m.allocPtr
    ensures After(m, Brk(addr)) == m && BrkAnswer(m, addr) == -1
  {
    BrkRefusedExactly(m, addr);
  }

  // ----- mutation -----

  /** Each mutation draws three numbers: the segment, the byte in it, and the value, below 255. The first
      mutation of a place records its byte. */
  lemma MutationLaw(file: Mutation.File, h: Mutation.History, n: nat, rand: nat -> U64, pos: nat, seg: int, at: int,
                    next: Mutation.File, g: Mutation.History)
    requires |file| > 0 && (forall s :: 0 <= s < |file| ==> |file[s]| > 0)
    requires n > 0 && Mutation.SameShape(file, next)
    requires seg == rand(pos) % |file| && at == rand(pos + 1) % |file[seg]|
    requires forall s, b :: 0 <= s < |file| && 0 <= b < |file[s]| ==>
      next[s][b] == if s == seg && b == at then rand(pos + 2) % 255 else file[s][b]
    requires g == if Mutation.Place(seg, at) in h then h else h[Mutation.Place(seg, at) := file[seg][at]]
    ensures Mutation.Mutable(next)
    ensures Mutation.Push(file, h, n, rand, pos) == Mutation.Push(next, g, n - 1, rand, pos + 3)
  {
    var p := Mutation.Place(seg, at);
    var put := Mutation.Put(file, p, rand(pos + 2) % 255);
    assert Mutation.Chosen(file, rand, pos) == p;
    Mutation.PushOne(file, h, n, rand, pos);
    forall s | 0 <= s < |file| ensures put[s] == next[s] {
      assert forall b :: 0 <= b < |file[s]| ==> put[s][b] == next[s][b];
    }
    assert put == next;
  }

  // ----- the generator -----

  /** Digit `j` of the state after `s ^= s >> 12`, and then after `s ^= s << 25`. */
  predicate After12(s: nat, j: nat) { Bit(s, j) != Bit(s, j + 12) }

  predicate After25(s: nat, j: nat) { After12(s, j) != (25 <= j < 64 && After12(s, j - 25)) }

  lemma MixRightBit(x: U64, k: nat, j: nat)
    ensures Bit(Random.MixRight(x, k), j) <==> Bit(x, j) != Bit(x, j + k)
  {
    XorBit(x, Shr(x, k), j);
    ShrBit(x, k, j);
  }

  lemma NextLaw(s: U64, j: nat)
    ensures Bit(Random.Next(s), j) <==> After25(s, j) != After25(s, j + 27)
  {
    var x := Random.MixRight(s, 12);
    MixedBit(s, x, j);
    MixedBit(s, x, j + 27);
    MixRightBit(Random.MixLeft(x), 27, j);
  }

  lemma MixedBit(s: U64, x: U64, j: nat)
    requires x == Random.MixRight(s, 12)
    ensures Bit(Random.MixLeft(x), j) <==> After25(s, j)
  {
    Random.MixLeftBit(x, j);
    MixRightBit(s, 12, j);
    if 25 <= j < 64 { MixRightBit(s, 12, j - 25); }
  }
}
