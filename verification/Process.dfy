/** The side of the emulator object that the fuzzing harness uses: building the program's stack, and the system
    calls that allocate memory and read files. */
module Process {
  import opened Words
  import opened RegisterFile
  import opened Memory
  import opened Mmu
  import MemoryRuns
  import Stack
  import FileReads

  /** `sp - 8` as a 64-bit address. */
  function Below(sp: int): U64 { U64Of(sp - 8) }

  /** Only sp changed. */
  ghost predicate OnlySp(before: seq<I64>, after: seq<I64>) {
    |before| == |after| == 32 && forall r :: 0 <= r < 32 && r != 2 ==> after[r] == before[r]
  }

  class Guest {
    const iregs: RegFile
    const mmu: MMU
    var fileTable: seq<FileReads.Handle>

    constructor (iregs: RegFile, mmu: MMU)
      ensures this.iregs == iregs && this.mmu == mmu && fileTable == []
    {
      this.iregs := iregs;
      this.mmu := mmu;
      fileTable := [];
    }

    ghost predicate Valid()
      reads iregs, iregs.data, mmu, mmu.ram, mmu.perms
    {
      iregs.Valid() && mmu.Valid()
    }

    ghost function Regs(): (r: seq<I64>)
      reads iregs.data
    {
      iregs.data[..]
    }

    // ----- the initial stack -----

    method PushToStack(data: U64)
      requires Valid() && mmu.View().InRam(Below(Regs()[2]), 8) && Writable(mmu.View(), Below(Regs()[2]), 8)
      modifies iregs.data, mmu`dirty, mmu.ram, mmu.perms
      ensures Valid() && mmu.View() == Memory.Store(old(mmu.View()), Below(old(Regs()[2])), data, 8)
      ensures Regs() == Stored(old(Regs()), 2, I64Of(Below(old(Regs()[2]))))
    {
      var x := iregs.LoadReg(2);
      var sp := Below(x);
      mmu.Store(sp, data, 8);
      iregs.StoreReg(2, I64Of(sp));
    }

    /** A laid-out stack whose lowest word is at sp. */
    ghost predicate Laid(base: nat, texts: seq<Stack.Text>, words: seq<Stack.Word>)
      reads iregs, iregs.data, mmu, mmu.ram, mmu.perms
    {
      Valid() && Stack.Layout(mmu.View(), base, texts, words) && Regs()[2] == Stack.Slot(base, |words|, 0)
    }

    method PushLaid(ghost base: nat, ghost texts: seq<Stack.Text>, ghost words: seq<Stack.Word>, v: U64)
      requires Laid(base, texts, words) && 8 * (|words| + 1) <= 0x10_0000
      modifies iregs.data, mmu`dirty, mmu.ram, mmu.perms
      ensures Laid(base, texts, [Stack.Stored(v)] + words) && OnlySp(old(Regs()), Regs())
    {
      ghost var m := mmu.View();
      ghost var a := Stack.Slot(base, |words|, -1);
      Stack.SlotFits(m, base, texts, words);
      Stack.PushWord(m, base, texts, words, Stack.Stored(v), m.dirty + {a / 4096});
      PushToStack(v);
    }

    /** Allocate a buffer and write a string and its NUL to it. */
    method WriteTextLaid(ghost base: nat, ghost texts: seq<Stack.Text>, ghost words: seq<Stack.Word>, t: Stack.Text)
      returns (p: U64)
      requires Laid(base, texts, words) && |t| < 256 && mmu.View().InRam(mmu.allocPtr, 256)
      modifies mmu`allocPtr, mmu.ram, mmu.perms
      ensures Laid(base, texts + [t], words) && p == Stack.Buffer(base, |texts|)
    {
      Stack.AddText(mmu.View(), base, texts, words, t);
      p := mmu.Allocate(256);
      mmu.WriteFrom(t + [0], p);
    }

    method AllocateStack() returns (base: nat)
      requires Valid() && mmu.View().InRam(mmu.allocPtr, 0x10_0000)
      modifies iregs.data, mmu`allocPtr, mmu.perms
      ensures Laid(base, [], []) && OnlySp(old(Regs()), Regs()) && base == old(mmu.allocPtr)
    {
      Stack.StartLayout(mmu.View());
      base := mmu.Allocate(0x10_0000);
      iregs.StoreReg(2, base + 0x10_0000);
    }

    /** The stack and the three zero words at its top. */
    method StartStack() returns (base: nat)
      requires Valid() && mmu.View().InRam(mmu.allocPtr, 0x10_0000)
      modifies iregs.data, mmu`dirty, mmu`allocPtr, mmu.ram, mmu.perms
      ensures Laid(base, [], Stack.Vector(base, 0)) && OnlySp(old(Regs()), Regs()) && base == old(mmu.allocPtr)
    {
      base := AllocateStack();
      PushLaid(base, [], [], 0);
      PushLaid(base, [], [Stack.Stored(0)], 0);
      PushLaid(base, [], [Stack.Stored(0), Stack.Stored(0)], 0);
      assert [Stack.Stored(0)] + [Stack.Stored(0), Stack.Stored(0)] == Stack.Vector(base, 0);
    }

    /** The argument strings, last one first, each with a pointer pushed. */
    method PushArguments(base: nat, args: seq<Stack.Text>)
      requires Laid(base, [], Stack.Vector(base, 0)) && forall i :: 0 <= i < |args| ==> |args[i]| < 256
      requires 8 * (|args| + 3) <= 0x10_0000 && mmu.View().InRam(base, 0x10_0000 + 256 * |args|)
      modifies iregs.data, mmu`dirty, mmu`allocPtr, mmu.ram, mmu.perms
      ensures Laid(base, Stack.Backwards(args, |args|), Stack.Vector(base, |args|)) && OnlySp(old(Regs()), Regs())
    {
      var n, k := |args|, 0;
      while k < n
        invariant 0 <= k <= n && OnlySp(old(Regs()), Regs())
        invariant Laid(base, Stack.Backwards(args, k), Stack.Vector(base, k))
      {
        Stack.OneMoreArgument(args, base, k);
        Stack.OneMorePointer(base, k);
        var p := WriteTextLaid(base, Stack.Backwards(args, k), Stack.Vector(base, k), args[n - 1 - k]);
        PushLaid(base, Stack.Backwards(args, k + 1), Stack.Vector(base, k), p);
        k := k + 1;
      }
    }

    /** The part of construction that follows `load_file`: the stack, the argument strings and the words that
        point to them. Strings are shorter than their buffers, and everything fits in the stack and in RAM. */
    method BuildArguments(name: Stack.Text, args: seq<Stack.Text>)
      requires Valid() && |name| < 256 && (forall i :: 0 <= i < |args| ==> |args[i]| < 256)
      requires 8 * (|args| + 5) <= 0x10_0000 && mmu.View().InRam(mmu.allocPtr, 0x10_0000 + 256 * (|args| + 1))
      modifies iregs.data, mmu`dirty, mmu`allocPtr, mmu.ram, mmu.perms
      ensures Valid() && Stack.ProgramStart(mmu.View(), Regs()[2], [name] + args)
      ensures Regs()[2] == old(mmu.allocPtr) + 0x10_0000 - 8 * (|args| + 5) && OnlySp(old(Regs()), Regs())
    {
      var base := StartStack();
      PushArguments(base, args);
      FinishArguments(base, name, args);
      Stack.FinishedStack(mmu.View(), base, name, args);
    }

    /** argv[0] and argc. */
    method FinishArguments(base: nat, name: Stack.Text, args: seq<Stack.Text>)
      requires Laid(base, Stack.Backwards(args, |args|), Stack.Vector(base, |args|)) && |name| < 256
      requires 8 * (|args| + 5) <= 0x10_0000 && mmu.View().InRam(mmu.allocPtr, 256)
      modifies iregs.data, mmu`dirty, mmu`allocPtr, mmu.ram, mmu.perms
      ensures Valid() && Stack.Finished(mmu.View(), base, name, args) && Regs()[2] == Stack.Slot(base, |args| + 5, 0)
      ensures OnlySp(old(Regs()), Regs())
    {
      var n := |args|;
      Stack.OneMorePointer(base, n);
      var argv0 := WriteTextLaid(base, Stack.Backwards(args, n), Stack.Vector(base, n), name);
      PushLaid(base, Stack.Backwards(args, n) + [name], Stack.Vector(base, n), argv0);
      PushLaid(base, Stack.Backwards(args, n) + [name], Stack.Vector(base, n + 1), n + 1);
    }

    /** Following the i-th pointer reads the i-th argument and its NUL. */
    method ReadArgument(sp: int, i: nat, ghost argv: seq<Stack.Text>) returns (s: seq<Byte>)
      requires Valid() && Stack.ProgramStart(mmu.View(), sp, argv) && i < |argv| && Stack.NulFree(argv[i])
      ensures s == argv[i] + [0]
    {
      ghost var t := argv[i];
      assert Stack.Points(mmu.View(), Stack.Up(sp, i + 1), t);
      var p, st := mmu.Load(Stack.Up(sp, i + 1), 8);
      Stack.StringEnds(mmu.View(), p, t);
      s := mmu.ReadString(p, p + |t|);
    }

    // ----- system calls of the fuzzing build -----

    /** brk: the answer in A0, and the region from the old break to the new one. */
    method Brk()
      requires Valid() && MemoryRuns.Granted(mmu.View(), MemoryRuns.Brk(U64Of(Regs()[10])))
      modifies iregs.data, mmu`allocPtr, mmu.perms
      ensures Valid()
      ensures mmu.View() == MemoryRuns.After(old(mmu.View()), MemoryRuns.Brk(U64Of(old(Regs()[10]))))
      ensures Regs() == Stored(old(Regs()), 10, MemoryRuns.BrkAnswer(old(mmu.View()), U64Of(old(Regs()[10]))))
    {
      var x := iregs.LoadReg(10);
      var addr := U64Of(x);
      var increment := MemoryRuns.IncrementFrom(mmu.allocPtr, addr);
      if increment < 0 {
        iregs.StoreReg(10, -1);
      } else {
        var retBase := mmu.Allocate(increment);
        iregs.StoreReg(10, I64Of(retBase + increment));
      }
    }

    /** The file position that READ uses: handle `k` is the first with the descriptor in A0. */
    ghost function ReaderAt(k: nat): FileReads.Reader
      requires k < |fileTable|
      reads this, mmu, mmu.ram, mmu.perms
    {
      FileReads.Reader(mmu.View(), fileTable[k].idx)
    }

    /** The buffer in A1 and the count in A2. */
    ghost function ReadCall(): FileReads.Call
      requires iregs.data.Length == 32
      reads iregs.data
    {
      FileReads.Call(U64Of(Regs()[11]), U64Of(Regs()[12]))
    }

    method FindHandle(fd: I64, ghost k: nat) returns (j: nat)
      requires k < |fileTable| && fileTable[k].fd == fd && forall j :: 0 <= j < k ==> fileTable[j].fd != fd
      ensures j == k
    {
      j := 0;
      while fileTable[j].fd != fd
        invariant j <= k
        decreases k - j
      {
        j := j + 1;
      }
    }

    /** READ: the bytes go to the buffer and their number to A0; when there are none A0 keeps the descriptor. */
    method Read(ghost k: nat)
      requires Valid() && k < |fileTable| && fileTable[k].fd == Regs()[10]
      requires forall j :: 0 <= j < k ==> fileTable[j].fd != Regs()[10]
      requires FileReads.Allowed(fileTable[k].data, ReaderAt(k), ReadCall())
      modifies this`fileTable, iregs.data, mmu.ram, mmu.perms
      ensures Valid() && |fileTable| == |old(fileTable)|
      ensures ReaderAt(k) == FileReads.Read(old(fileTable[k].data), old(ReaderAt(k)), old(ReadCall()))
      ensures fileTable == old(fileTable)[k := old(fileTable[k]).(idx := fileTable[k].idx)]
      ensures Regs() == Stored(old(Regs()), 10, FileReads.ReadAnswer(|old(fileTable[k].data)|, old(fileTable[k].idx),
                                                                     old(ReadCall()).count, old(Regs()[10])))
    {
      var fd := iregs.LoadReg(10);
      var buf := iregs.LoadReg(11);
      var count := iregs.LoadReg(12);
      var j := FindHandle(fd, k);
      var fh := fileTable[j];
      var n := FileReads.ReadCount(|fh.data|, fh.idx, U64Of(count));
      if n == 0 { return; }
      fileTable := fileTable[j := fh.(idx := fh.idx + n)];
      mmu.WriteFrom(fh.data[fh.idx..fh.idx + n], U64Of(buf));
      iregs.StoreReg(10, I64Of(n));
    }
  }
}
