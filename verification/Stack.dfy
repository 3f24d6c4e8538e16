/** The initial stack: argument strings in buffers of their own, and above sp the words that point to them. */
module Stack {
  import opened Bits
  import opened Words
  import opened Memory

  /** The bytes of a C string, without its NUL. */
  type Text = seq<Byte>

  /** The memory holds these bytes from `a` on, and they may be read. */
  ghost predicate Holds(m: Mem, a: int, bs: seq<Byte>) {
    && m.Valid() && m.InRam(a, |bs|)
    && forall i :: Covers(a, |bs|, i) ==> m.ram[i] == bs[i - a] && m.perms[i].read && !m.perms[i].raw
  }

  /** Allocated and never written. */
  ghost predicate Blank(m: Mem, a: int, len: int) {
    m.Valid() && m.InRam(a, len) && forall i :: Covers(a, len, i) ==> m.perms[i] == RAW_WRITE
  }

  /** The stack ends where the string buffers begin. */
  function Top(base: int): int { base + 0x10_0000 }

  /** The address of word `k` of `n` pushed words, the last one pushed being word 0. */
  function Slot(base: int, n: int, k: int): int { Top(base) - 8 * (n - k) }

  /** The address of the j-th string buffer. */
  function Buffer(base: int, j: int): int { Top(base) + 256 * j }

  /** Eight bytes. */
  type Word = w: seq<Byte> | |w| == 8 witness [0, 0, 0, 0, 0, 0, 0, 0]

  /** A stack at `base` holding `words` from sp up, and the strings written so far. */
  ghost predicate Layout(m: Mem, base: int, texts: seq<Text>, words: seq<Word>) {
    && m.Valid() && 0 <= base && 8 * |words| <= 0x10_0000
    && m.allocPtr == Buffer(base, |texts|) < |m.ram|
    && Blank(m, base, 0x10_0000 - 8 * |words|)
    && (forall k :: 0 <= k < |words| ==> Holds(m, Slot(base, |words|, k), words[k]))
    && (forall j :: 0 <= j < |texts| ==> |texts[j]| < 256 && Holds(m, Buffer(base, j), texts[j] + [0]))
  }

  // ----- the three operations keep the layout -----

  lemma StartLayout(m: Mem)
    requires m.Valid() && m.InRam(m.allocPtr, 0x10_0000)
    ensures Layout(Allocate(m, 0x10_0000), m.allocPtr, [], [])
  {
  }

  /** The next slot, as the 64-bit arithmetic on sp computes it. */
  lemma SlotFits(m: Mem, base: int, texts: seq<Text>, words: seq<Word>)
    requires Layout(m, base, texts, words) && 8 * (|words| + 1) <= 0x10_0000
    ensures var a := Slot(base, |words|, -1); U64Of(Slot(base, |words|, 0) - 8) == a && I64Of(a) == a
  {
  }

  lemma WriteHolds(m: Mem, a: int, bs: seq<Byte>)
    requires Blank(m, a, |bs|)
    ensures Writable(m, a, |bs|) && Holds(WriteFrom(m, bs, a), a, bs)
  {
    var r := WriteFrom(m, bs, a);
    forall i | Covers(a, |bs|, i) ensures r.ram[i] == bs[i - a] && r.perms[i].read && !r.perms[i].raw {
      WriteFromAt(m, bs, a, i);
    }
  }

  lemma WriteKeeps(m: Mem, a: int, bs: seq<Byte>, b: int, cs: seq<Byte>)
    requires m.Valid() && m.InRam(a, |bs|) && Writable(m, a, |bs|) && Holds(m, b, cs)
    requires a + |bs| <= b || b + |cs| <= a
    ensures Holds(WriteFrom(m, bs, a), b, cs)
  {
    var r := WriteFrom(m, bs, a);
    forall i | Covers(b, |cs|, i) ensures r.ram[i] == cs[i - b] && r.perms[i].read && !r.perms[i].raw {
      WriteFromAt(m, bs, a, i);
    }
  }

  /** What a store of these eight bytes leaves; its dirty block does not matter here. */
  ghost function WithWord(m: Mem, a: int, w: Word, dirty: set<int>): Mem
    requires m.Valid() && m.InRam(a, 8) && Writable(m, a, 8)
  {
    WriteFrom(m, w, a).(dirty := dirty)
  }

  lemma PushWord(m: Mem, base: int, texts: seq<Text>, words: seq<Word>, w: Word, dirty: set<int>)
    requires Layout(m, base, texts, words) && 8 * (|words| + 1) <= 0x10_0000
    ensures var a := Slot(base, |words|, -1);
      m.InRam(a, 8) && Writable(m, a, 8) && Layout(WithWord(m, a, w, dirty), base, texts, [w] + words)
  {
    var a, ws := Slot(base, |words|, -1), [w] + words;
    assert Blank(m, a, 8);
    WriteHolds(m, a, w);
    var r := WithWord(m, a, w, dirty);
    forall k | 0 <= k < |ws| ensures Holds(r, Slot(base, |ws|, k), ws[k]) {
      if k > 0 {
        assert ws[k] == words[k - 1] && Slot(base, |ws|, k) == Slot(base, |words|, k - 1);
        WriteKeeps(m, a, w, Slot(base, |words|, k - 1), words[k - 1]);
      }
    }
    forall j | 0 <= j < |texts| ensures Holds(r, Buffer(base, j), texts[j] + [0]) {
      WriteKeeps(m, a, w, Buffer(base, j), texts[j] + [0]);
    }
  }

  lemma AddText(m: Mem, base: int, texts: seq<Text>, words: seq<Word>, t: Text)
    requires Layout(m, base, texts, words) && |t| < 256 && m.InRam(m.allocPtr, 256)
    ensures var a, bs := Allocate(m, 256), t + [0];
      && a.Valid() && a.InRam(m.allocPtr, |bs|) && Writable(a, m.allocPtr, |bs|)
      && Layout(WriteFrom(a, bs, m.allocPtr), base, texts + [t], words)
  {
    var a, bs, p, us := Allocate(m, 256), t + [0], m.allocPtr, texts + [t];
    assert Blank(a, p, |bs|);
    WriteHolds(a, p, bs);
    var r := WriteFrom(a, bs, p);
    forall k | 0 <= k < |words| ensures Holds(r, Slot(base, |words|, k), words[k]) {
      assert Holds(a, Slot(base, |words|, k), words[k]);
      WriteKeeps(a, p, bs, Slot(base, |words|, k), words[k]);
    }
    forall j | 0 <= j < |us| ensures |us[j]| < 256 && Holds(r, Buffer(base, j), us[j] + [0]) {
      if j < |texts| {
        assert us[j] == texts[j] && Holds(a, Buffer(base, j), texts[j] + [0]);
        WriteKeeps(a, p, bs, Buffer(base, j), texts[j] + [0]);
      }
    }
  }

  // ----- the finished stack, as the program finds it -----

  /** The eight bytes at `a` may be read and hold `v`. */
  ghost predicate WordIs(m: Mem, a: int, v: int) {
    m.Valid() && m.InRam(a, 8) && Status(m, a, 8) == Normal && Le(Bytes(m, a, 8)) == v
  }

  /** The word at `a` points to this string and its NUL. */
  ghost predicate Points(m: Mem, a: int, t: Text) {
    m.Valid() && m.InRam(a, 8) && Status(m, a, 8) == Normal && Holds(m, Le(Bytes(m, a, 8)), t + [0])
  }

  /** The address of the k-th word from sp up. */
  function Up(sp: int, k: int): int { sp + 8 * k }

  /** From sp up: argc, the arguments in order, three zero words. */
  ghost predicate ProgramStart(m: Mem, sp: int, argv: seq<Text>) {
    && WordIs(m, sp, |argv|)
    && (forall i :: 0 <= i < |argv| ==> Points(m, Up(sp, i + 1), argv[i]))
    && WordIs(m, Up(sp, |argv| + 1), 0) && WordIs(m, Up(sp, |argv| + 2), 0) && WordIs(m, Up(sp, |argv| + 3), 0)
  }

  /** A number as the eight bytes that a store writes. */
  function Stored(v: nat): Word { LeBytes(v, 8) }

  lemma HeldWord(m: Mem, a: int, v: U64)
    requires Holds(m, a, Stored(v))
    ensures WordIs(m, a, v)
  {
    assert Bytes(m, a, 8) == LeBytes(v, 8);
    LeRoundTrip(v, 8);
    Pow2Values();
    LowSmall(v, 64);
  }

  /** The strings written while pushing the last `k` arguments, last argument first. */
  function Backwards(args: seq<Text>, k: nat): (r: seq<Text>)
    requires k <= |args|
    ensures |r| == k
  {
    seq(k, j requires 0 <= j < k => args[|args| - 1 - j])
  }

  /** Word `i` of the pointers pushed for the last `k` arguments, in argument order, and the zero words above
      them. */
  function Target(base: nat, k: nat, i: nat): nat { if i < k then Buffer(base, k - 1 - i) else 0 }

  function Vector(base: nat, k: nat): (r: seq<Word>)
    ensures |r| == k + 3
  {
    seq(k + 3, i requires 0 <= i < k + 3 => Stored(Target(base, k, i)))
  }

  lemma OneMoreArgument(args: seq<Text>, base: nat, k: nat)
    requires k < |args|
    ensures Backwards(args, k + 1) == Backwards(args, k) + [args[|args| - 1 - k]]
  {
  }

  lemma OneMorePointer(base: nat, k: nat)
    ensures Vector(base, k + 1) == [Stored(Buffer(base, k))] + Vector(base, k)
  {
  }

  /** The layout that construction ends with: argv[0] is one more string and pointer, and argc lies on top. */
  ghost predicate Finished(m: Mem, base: nat, name: Text, args: seq<Text>) {
    Layout(m, base, Backwards(args, |args|) + [name], [Stored(|args| + 1)] + Vector(base, |args| + 1))
  }

  /** The words of a finished stack, one by one. */
  lemma FinishedWord(base: nat, n: nat, k: nat)
    requires k < n + 5
    ensures ([Stored(n + 1)] + Vector(base, n + 1))[k] ==
      if k == 0 then Stored(n + 1) else Stored(Target(base, n + 1, k - 1))
  {
  }

  lemma FinishedSlot(m: Mem, base: nat, name: Text, args: seq<Text>, k: nat, v: U64)
    requires Finished(m, base, name, args) && k < |args| + 5
    requires v == if k == 0 then |args| + 1 else Target(base, |args| + 1, k - 1)
    ensures WordIs(m, Up(Slot(base, |args| + 5, 0), k), v)
  {
    FinishedWord(base, |args|, k);
    assert Slot(base, |args| + 5, k) == Up(Slot(base, |args| + 5, 0), k);
    HeldWord(m, Slot(base, |args| + 5, k), v);
  }

  lemma FinishedText(m: Mem, base: nat, name: Text, args: seq<Text>, i: nat)
    requires Finished(m, base, name, args) && i <= |args|
    ensures Buffer(base, |args| - i) < 0x1_0000_0000_0000_0000
    ensures Holds(m, Buffer(base, |args| - i), ([name] + args)[i] + [0])
  {
    var texts := Backwards(args, |args|) + [name];
    assert texts[|args| - i] == ([name] + args)[i];
  }

  lemma ArgumentPoints(m: Mem, base: nat, name: Text, args: seq<Text>, i: nat)
    requires Finished(m, base, name, args) && i <= |args|
    ensures Points(m, Up(Slot(base, |args| + 5, 0), i + 1), ([name] + args)[i])
  {
    FinishedText(m, base, name, args, i);
    FinishedSlot(m, base, name, args, i + 1, Buffer(base, |args| - i));
  }

  lemma ArgumentsPoint(m: Mem, base: nat, name: Text, args: seq<Text>, sp: int, argv: seq<Text>)
    requires Finished(m, base, name, args) && sp == Slot(base, |args| + 5, 0) && argv == [name] + args
    ensures forall i :: 0 <= i < |argv| ==> Points(m, Up(sp, i + 1), argv[i])
  {
    forall i | 0 <= i < |argv| ensures Points(m, Up(sp, i + 1), argv[i]) {
      ArgumentPoints(m, base, name, args, i);
    }
  }

  lemma FinishedStack(m: Mem, base: nat, name: Text, args: seq<Text>)
    requires Finished(m, base, name, args)
    ensures ProgramStart(m, Slot(base, |args| + 5, 0), [name] + args)
  {
    var n, sp := |args|, Slot(base, |args| + 5, 0);
    ArgumentsPoint(m, base, name, args, sp, [name] + args);
    FinishedSlot(m, base, name, args, 0, n + 1);
    assert Up(sp, 0) == sp;
    FinishedSlot(m, base, name, args, n + 2, 0);
    FinishedSlot(m, base, name, args, n + 3, 0);
    FinishedSlot(m, base, name, args, n + 4, 0);
  }

  ghost predicate NulFree(t: Text) { forall i :: 0 <= i < |t| ==> t[i] != 0 }

  /** Where reading a held string stops, and what it has then read. */
  lemma StringEnds(m: Mem, p: int, t: Text)
    requires Holds(m, p, t + [0]) && NulFree(t)
    ensures m.ram[p + |t|] == 0 && forall i :: p <= i < p + |t| ==> m.ram[i] != 0
    ensures m.ram[p..p + |t| + 1] == t + [0]
  {
    assert Covers(p, |t| + 1, p + |t|);
    forall i | p <= i < p + |t| ensures m.ram[i] != 0 { assert Covers(p, |t| + 1, i); }
  }
}
