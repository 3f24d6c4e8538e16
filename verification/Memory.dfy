/** The emulator's RAM as a value: bytes, one permission record a byte, the bump allocator and the set of
    dirty blocks; and what every operation of the MMU does to it. */
module Memory {
  import opened Bits
  import opened Words

  /** PERM_EXEC, PERM_WRITE, PERM_READ and PERM_RAW: raw memory may be written but not yet read. */
  datatype Perm = Perm(exec: bool, write: bool, read: bool, raw: bool)

  const NONE := Perm(false, false, false, false)
  const WRITE_ONLY := Perm(false, true, false, false)
  const RAW_WRITE := Perm(false, true, false, true)

  datatype ReadStatus = Normal | NoPermission | Uninitialized

  datatype Mem = Mem(ram: seq<Byte>, perms: seq<Perm>, dirty: set<int>, allocPtr: int) {
    predicate Valid() {
      |ram| == |perms| <= 0x8000_0000_0000_0000 && 0 <= allocPtr < 0x8000_0000_0000_0000
    }

    predicate InRam(addr: int, len: int) { 0 <= addr && 0 <= len && addr + len < |ram| }
  }

  // ----- little-endian numbers -----

  /** The number whose base-256 digits are `bs`, least significant first. */
  function Le(bs: seq<Byte>): (r: nat) {
    if bs == [] then 0 else bs[0] + 256 * Le(bs[1..])
  }

  /** The lowest `n` base-256 digits of `data`. */
  function LeBytes(data: nat, n: nat): (bs: seq<Byte>)
    ensures |bs| == n
  {
    if n == 0 then [] else [data % 256] + LeBytes(data / 256, n - 1)
  }

  /** `res |= b << 8k` for each byte in turn, as the load helpers do. */
  function OrBytes(bs: seq<Byte>): nat {
    if bs == [] then 0
    else Or(OrBytes(bs[..|bs| - 1]), bs[|bs| - 1] * Pow2(8 * (|bs| - 1)))
  }

  /** `(data >> 8k) & 0xFF` for each k, as the store helpers do. */
  function ShiftBytes(data: nat, n: nat): (bs: seq<Byte>)
    ensures |bs| == n
  {
    seq(n, k requires 0 <= k < n => And(Shr(data, 8 * k), 0xFF))
  }

  lemma {:induction false} LeBound(bs: seq<Byte>)
    ensures Le(bs) < Pow2(8 * |bs|)
  {
    if bs != [] {
      LeBound(bs[1..]);
      Pow2Byte(8 * (|bs| - 1));
    }
  }

  lemma HeldFits(bs: seq<Byte>)
    requires |bs| in {1, 2, 4, 8}
    ensures Le(bs) < 0x1_0000_0000_0000_0000 && (|bs| == 4 ==> Le(bs) < 0x1_0000_0000)
  {
    LeBound(bs);
    Pow2Values();
  }

  lemma {:induction false} LeAppend(bs: seq<Byte>, b: Byte)
    ensures Le(bs + [b]) == Le(bs) + b * Pow2(8 * |bs|)
  {
    if bs == [] {
      assert bs + [b] == [b];
    } else {
      assert (bs + [b])[1..] == bs[1..] + [b];
      LeAppend(bs[1..], b);
      Pow2Byte(8 * (|bs| - 1));
      assert b * Pow2(8 * |bs|) == 256 * (b * Pow2(8 * (|bs| - 1)));
    }
  }

  /** Or-ing shifted bytes together adds them up. */
  lemma {:induction false} OrBytesIsLe(bs: seq<Byte>)
    ensures OrBytes(bs) == Le(bs)
  {
    if bs != [] {
      var init, last := bs[..|bs| - 1], bs[|bs| - 1];
      assert bs == init + [last];
      OrBytesIsLe(init);
      LeBound(init);
      LeAppend(init, last);
      OrDisjoint(Le(init), last, 8 * |init|);
    }
  }

  lemma {:induction false} ShrSplit(x: nat, j: nat, k: nat)
    ensures Shr(x, j + k) == Shr(Shr(x, j), k)
    decreases j
  {
    if j != 0 { ShrSplit(x / 2, j - 1, k); }
  }

  lemma ShrByte(x: nat)
    ensures Shr(x, 8) == x / 256
  {
    ShrIsDiv(x, 8);
    Pow2Values();
  }

  lemma ByteMask(x: nat)
    ensures And(x, 0xFF) == x % 256
  {
    Pow2Values();
    AndLow(x, 8);
    LowIsMod(x, 8);
  }

  lemma {:induction false} LeBytesAt(data: nat, n: nat, k: nat)
    requires k < n
    ensures LeBytes(data, n)[k] == And(Shr(data, 8 * k), 0xFF)
    decreases k
  {
    if k == 0 {
      ByteMask(data);
    } else {
      LeBytesAt(data / 256, n - 1, k - 1);
      ShrByte(data);
      ShrSplit(data, 8, 8 * (k - 1));
    }
  }

  lemma ShiftBytesIsLeBytes(data: nat, n: nat)
    ensures ShiftBytes(data, n) == LeBytes(data, n)
  {
    forall k | 0 <= k < n ensures ShiftBytes(data, n)[k] == LeBytes(data, n)[k] { LeBytesAt(data, n, k); }
  }

  /** Reading back the bytes of a number gives the number modulo 256^n. */
  lemma {:induction false} LeRoundTrip(data: nat, n: nat)
    ensures Le(LeBytes(data, n)) == Low(data, 8 * n)
    decreases n
  {
    if n != 0 {
      LeRoundTrip(data / 256, n - 1);
      LowByte(data, 8 * (n - 1));
    }
  }

  lemma {:induction false} LowSplit(x: nat, j: nat, k: nat)
    ensures Low(x, j + k) == Low(x, j) + Pow2(j) * Low(Shr(x, j), k)
    decreases j
  {
    if j != 0 {
      LowSplit(x / 2, j - 1, k);
      DoubleProduct(Pow2(j - 1), Low(Shr(x, j), k));
    }
  }

  lemma DoubleProduct(p: int, l: int)
    ensures 2 * (p * l) == (2 * p) * l
  {
  }

  lemma LowByte(x: nat, k: nat)
    ensures Low(x, k + 8) == x % 256 + 256 * Low(x / 256, k)
  {
    LowSplit(x, 8, k);
    LowIsMod(x, 8);
    ShrByte(x);
    Pow2Values();
  }

  // ----- the operations -----

  /** What writing a byte does to its permissions: raw becomes readable. */
  function Written(p: Perm): Perm {
    if p.raw then p.(read := true, raw := false) else p
  }

  /** Byte `i` lies in the `len` bytes from `addr`. */
  predicate Covers(addr: int, len: int, i: int) { addr <= i < addr + len }

  function SetPerms(m: Mem, addr: int, size: int, p: Perm): Mem
    requires m.Valid() && m.InRam(addr, size)
  {
    m.(perms := seq(|m.perms|, i requires 0 <= i < |m.perms| => if Covers(addr, size, i) then p else m.perms[i]))
  }

  ghost predicate Writable(m: Mem, addr: int, len: int)
    requires m.Valid() && m.InRam(addr, len)
  {
    forall i :: Covers(addr, len, i) ==> m.perms[i].write
  }

  /** `write_from`; the source aborts unless every byte is writable. */
  function WriteFrom(m: Mem, buf: seq<Byte>, addr: int): Mem
    requires m.Valid() && m.InRam(addr, |buf|) && Writable(m, addr, |buf|)
  {
    m.(ram := m.ram[..addr] + buf + m.ram[addr + |buf|..],
       perms := seq(|m.perms|, i requires 0 <= i < |m.perms| =>
         if Covers(addr, |buf|, i) then Written(m.perms[i]) else m.perms[i]))
  }

  /** The status of `read_to`: a raw byte outranks an unreadable one. */
  ghost function Status(m: Mem, addr: int, len: int): ReadStatus
    requires m.Valid() && m.InRam(addr, len)
  {
    if exists i :: Covers(addr, len, i) && m.perms[i].raw then Uninitialized
    else if exists i :: Covers(addr, len, i) && !m.perms[i].read then NoPermission
    else Normal
  }

  function Bytes(m: Mem, addr: int, len: int): (bs: seq<Byte>)
    requires m.Valid() && m.InRam(addr, len)
    ensures |bs| == len
  {
    m.ram[addr..addr + len]
  }

  /** A store of `n` bytes marks the block of its first byte dirty; a block is 4096 bytes. */
  function Store(m: Mem, addr: int, data: nat, n: nat): Mem
    requires m.Valid() && m.InRam(addr, n) && Writable(m, addr, n)
  {
    WriteFrom(m, LeBytes(data, n), addr).(dirty := m.dirty + {addr / 4096})
  }

  /** `allocate` also returns the old allocation pointer. */
  function Allocate(m: Mem, size: int): Mem
    requires m.Valid() && m.InRam(m.allocPtr, size)
  {
    SetPerms(m, m.allocPtr, size, RAW_WRITE).(allocPtr := m.allocPtr + size)
  }

  datatype Segment = Segment(perms: Perm, start: int, memSize: int, data: seq<Byte>)

  /** The file's bytes, cut or padded with zeros to the segment's size in memory. */
  function Image(s: Segment): (bs: seq<Byte>)
    requires s.memSize >= 0
    ensures |bs| == s.memSize
  {
    seq(s.memSize, i requires 0 <= i < s.memSize => if i < |s.data| then s.data[i] else 0)
  }

  /** `(x + 0xFFFF) & ~0xFFFF` */
  function RoundUp(x: nat): nat { And(x + 0xFFFF, Not64(0xFFFF)) }

  function LoadSegment(m: Mem, s: Segment): Mem
    requires m.Valid() && m.InRam(s.start, s.memSize)
  {
    var m1 := SetPerms(m, s.start, s.memSize, WRITE_ONLY);
    var m2 := WriteFrom(m1, Image(s), s.start);
    var m3 := SetPerms(m2, s.start, s.memSize, s.perms);
    var top := RoundUp(s.start + s.memSize);
    m3.(allocPtr := if m.allocPtr < top then top else m.allocPtr)
  }

  /** Every dirty block lies wholly in RAM; `reset_to` copies whole blocks. */
  ghost predicate WholeBlocks(m: Mem) { forall b :: b in m.dirty ==> 0 <= b && b * 4096 + 4096 <= |m.ram| }

  /** `reset_to` copies back the dirty blocks and nothing else. */
  function ResetTo(m: Mem, snap: Mem): Mem
    requires m.Valid() && snap.Valid() && |m.ram| == |snap.ram|
  {
    m.(ram := seq(|m.ram|, i requires 0 <= i < |m.ram| => if i / 4096 in m.dirty then snap.ram[i] else m.ram[i]),
       dirty := {})
  }

  lemma WriteFromAt(m: Mem, buf: seq<Byte>, addr: int, i: int)
    requires m.Valid() && m.InRam(addr, |buf|) && Writable(m, addr, |buf|) && 0 <= i < |m.ram|
    ensures WriteFrom(m, buf, addr).Valid()
    ensures WriteFrom(m, buf, addr).ram[i] == if Covers(addr, |buf|, i) then buf[i - addr] else m.ram[i]
  {
  }

  // ----- loads after stores -----

  /** The `k` bytes from `b` once `data` has replaced the `n` bytes from `a`. */
  function Overlay(m: Mem, a: int, data: nat, n: nat, b: int, k: nat): (bs: seq<Byte>)
    requires m.InRam(b, k)
    ensures |bs| == k
  {
    seq(k, i requires 0 <= i < k => if Covers(a, n, b + i) then LeBytes(data, n)[b + i - a] else m.ram[b + i])
  }

  /** A load of any width, at any offset from a store of any width, reads the little-endian number of a flat
      byte map in which the store replaced its own bytes. */
  lemma LoadAfterStore(m: Mem, a: int, data: nat, n: nat, b: int, k: nat)
    requires m.Valid() && m.InRam(a, n) && Writable(m, a, n) && m.InRam(b, k)
    ensures var s := Store(m, a, data, n);
      s.Valid() && s.InRam(b, k) && OrBytes(Bytes(s, b, k)) == Le(Overlay(m, a, data, n, b, k))
  {
    OrBytesIsLe(Bytes(Store(m, a, data, n), b, k));
    BytesAfterStore(m, a, data, n, b, k);
  }

  lemma BytesAfterStore(m: Mem, a: int, data: nat, n: nat, b: int, k: nat)
    requires m.Valid() && m.InRam(a, n) && Writable(m, a, n) && m.InRam(b, k)
    ensures var s := Store(m, a, data, n);
      s.Valid() && s.InRam(b, k) && Bytes(s, b, k) == Overlay(m, a, data, n, b, k)
  {
    var s, o := Store(m, a, data, n), Overlay(m, a, data, n, b, k);
    forall i | 0 <= i < k ensures Bytes(s, b, k)[i] == o[i] {
      WriteFromAt(m, LeBytes(data, n), a, b + i);
    }
  }

  /** Loading what was just stored at the same address and width gives it back modulo its width, and is
      permitted exactly when every stored byte was readable or raw before. */
  lemma StoreThenLoad(m: Mem, a: int, data: nat, n: nat)
    requires m.Valid() && m.InRam(a, n) && Writable(m, a, n)
    ensures var s := Store(m, a, data, n);
      && s.Valid() && s.InRam(a, n)
      && OrBytes(Bytes(s, a, n)) == Low(data, 8 * n)
      && (Status(s, a, n) == Normal <==> forall i :: Covers(a, n, i) ==> m.perms[i].read || m.perms[i].raw)
  {
    var s := Store(m, a, data, n);
    assert Bytes(s, a, n) == LeBytes(data, n);
    OrBytesIsLe(LeBytes(data, n));
    LeRoundTrip(data, n);
    forall i | Covers(a, n, i) ensures s.perms[i] == Written(m.perms[i]) {}
  }
}
