/** The fuzzer's mutation of a loaded file, with the history that undoes it. */
module Mutation {
  import opened Words

  /** The bytes of each segment. */
  type File = seq<seq<Byte>>

  datatype Place = Place(seg: int, at: int)

  /** The original byte of every place that was ever overwritten. */
  type History = map<Place, Byte>

  predicate InFile(file: File, p: Place) { 0 <= p.seg < |file| && 0 <= p.at < |file[p.seg]| }

  /** Every random choice finds a segment and a byte. */
  ghost predicate Mutable(file: File) { |file| > 0 && forall s :: 0 <= s < |file| ==> |file[s]| > 0 }

  function Put(file: File, p: Place, v: Byte): (r: File)
    requires InFile(file, p)
    ensures |r| == |file| && forall s :: 0 <= s < |file| ==> |r[s]| == |file[s]|
  {
    var bytes: seq<Byte> := file[p.seg][p.at := v];
    file[p.seg := bytes]
  }

  /** The first overwriting of a place records its byte; later ones record nothing. */
  function Recorded(file: File, h: History, p: Place): History
    requires InFile(file, p)
  {
    if p in h then h else h[p := file[p.seg][p.at]]
  }

  /** Three random numbers choose the segment, the byte and its new value. */
  function Chosen(file: File, rand: nat -> U64, pos: nat): (p: Place)
    requires Mutable(file)
    ensures InFile(file, p)
  {
    var seg := rand(pos) % |file|;
    Place(seg, rand(pos + 1) % |file[seg]|)
  }

  datatype Pushed = Pushed(file: File, h: History, pos: nat)

  /** `push_mutate` on the random numbers from `pos` on. */
  ghost function Push(file: File, h: History, n: nat, rand: nat -> U64, pos: nat): (r: Pushed)
    requires Mutable(file)
    ensures Mutable(r.file)
    decreases n
  {
    if n == 0 then Pushed(file, h, pos) else
      var p := Chosen(file, rand, pos);
      Push(Put(file, p, rand(pos + 2) % 255), Recorded(file, h, p), n - 1, rand, pos + 3)
  }

  lemma PushOne(file: File, h: History, n: nat, rand: nat -> U64, pos: nat)
    requires Mutable(file) && n > 0
    ensures var p := Chosen(file, rand, pos);
      var next := Put(file, p, rand(pos + 2) % 255);
      Mutable(next) && Push(file, h, n, rand, pos) == Push(next, Recorded(file, h, p), n - 1, rand, pos + 3)
  {
  }

  /** `pop_mutate` puts every recorded byte back. */
  function Pop(file: File, h: History): (r: File)
    ensures |r| == |file|
  {
    seq(|file|, s requires 0 <= s < |file| =>
      seq(|file[s]|, b requires 0 <= b < |file[s]| => if Place(s, b) in h then h[Place(s, b)] else file[s][b]))
  }

  // ----- undoing -----

  predicate SameShape(a: File, b: File) { |a| == |b| && forall s :: 0 <= s < |a| ==> |a[s]| == |b[s]| }

  /** The history holds the original byte of each touched place, every other place is untouched, and a touched place
      never holds 0xFF. */
  ghost predicate Remembers(h: History, original: File, now: File) {
    && SameShape(original, now)
    && (forall p :: p in h ==> InFile(original, p) && h[p] == original[p.seg][p.at] && now[p.seg][p.at] < 255)
    && (forall p :: InFile(original, p) && p !in h ==> now[p.seg][p.at] == original[p.seg][p.at])
  }

  lemma StepRemembers(h: History, original: File, now: File, p: Place, v: Byte)
    requires Remembers(h, original, now) && InFile(now, p) && v < 255
    ensures Remembers(Recorded(now, h, p), original, Put(now, p, v))
  {
  }

  lemma {:induction false} PushRemembers(h: History, original: File, now: File, n: nat, rand: nat -> U64, pos: nat)
    requires Mutable(now) && Remembers(h, original, now)
    ensures var r := Push(now, h, n, rand, pos); Remembers(r.h, original, r.file)
    decreases n
  {
    if n != 0 {
      var p := Chosen(now, rand, pos);
      StepRemembers(h, original, now, p, rand(pos + 2) % 255);
      PushRemembers(Recorded(now, h, p), original, Put(now, p, rand(pos + 2) % 255), n - 1, rand, pos + 3);
    }
  }

  /** Any number of `push_mutate` calls that share one history. */
  ghost function PushAll(file: File, h: History, ns: seq<nat>, rand: nat -> U64, pos: nat): (r: Pushed)
    requires Mutable(file)
    ensures Mutable(r.file)
    decreases |ns|
  {
    if ns == [] then Pushed(file, h, pos) else
      var r := Push(file, h, ns[0], rand, pos);
      PushAll(r.file, r.h, ns[1..], rand, r.pos)
  }

  lemma {:induction false} PushAllRemembers(h: History, original: File, now: File, ns: seq<nat>,
                                            rand: nat -> U64, pos: nat)
    requires Mutable(now) && Remembers(h, original, now)
    ensures var r := PushAll(now, h, ns, rand, pos); Remembers(r.h, original, r.file)
    decreases |ns|
  {
    if ns != [] {
      PushRemembers(h, original, now, ns[0], rand, pos);
      var r := Push(now, h, ns[0], rand, pos);
      PushAllRemembers(r.h, original, r.file, ns[1..], rand, r.pos);
    }
  }

  /** For every random stream and every number of calls and bytes, popping restores the file. */
  lemma PopUndoesPushes(file: File, ns: seq<nat>, rand: nat -> U64, pos: nat)
    requires Mutable(file)
    ensures var r := PushAll(file, map[], ns, rand, pos);
      Pop(r.file, r.h) == file && forall p :: p in r.h ==> InFile(r.file, p)
  {
    PushAllRemembers(map[], file, file, ns, rand, pos);
    var r := PushAll(file, map[], ns, rand, pos);
    forall s | 0 <= s < |file| ensures Pop(r.file, r.h)[s] == file[s] {
      forall b | 0 <= b < |file[s]| ensures Pop(r.file, r.h)[s][b] == file[s][b] {
        assert InFile(file, Place(s, b));
      }
    }
  }

  /** A file held in memory: one buffer a segment, none shared. */
  class FileInfo {
    const segments: seq<array<Byte>>

    constructor (segments: seq<array<Byte>>)
      ensures this.segments == segments
    {
      this.segments := segments;
    }

    ghost function Buffers(): set<array<Byte>> { set a | a in segments }

    ghost predicate Valid() {
      forall i, j :: 0 <= i < j < |segments| ==> segments[i] != segments[j]
    }

    ghost function Contents(): (f: File)
      reads Buffers()
      ensures |f| == |segments| && forall i :: 0 <= i < |f| ==> f[i] == segments[i][..]
    {
      seq(|segments|, i requires 0 <= i < |segments| reads Buffers() => segments[i][..])
    }

    method SetByte(p: Place, v: Byte)
      requires Valid() && InFile(Contents(), p)
      modifies Buffers()
      ensures Contents() == Put(old(Contents()), p, v)
    {
      segments[p.seg][p.at] := v;
      forall i | 0 <= i < |segments| ensures Contents()[i] == Put(old(Contents()), p, v)[i] {}
    }

    method PushMutate(nBytes: nat, history: History, rand: nat -> U64, pos: nat) returns (h: History, next: nat)
      requires Valid() && Mutable(Contents())
      modifies Buffers()
      ensures Pushed(Contents(), h, next) == Push(old(Contents()), history, nBytes, rand, pos)
    {
      h, next := history, pos;
      var n := nBytes;
      while n > 0
        invariant Mutable(Contents())
        invariant Push(Contents(), h, n, rand, next) == Push(old(Contents()), history, nBytes, rand, pos)
      {
        PushOne(Contents(), h, n, rand, next);
        h := MutateOne(h, rand, next);
        next := next + 3;
        n := n - 1;
      }
    }

    method MutateOne(history: History, rand: nat -> U64, pos: nat) returns (h: History)
      requires Valid() && Mutable(Contents())
      modifies Buffers()
      ensures var p := Chosen(old(Contents()), rand, pos);
        && Contents() == Put(old(Contents()), p, rand(pos + 2) % 255)
        && h == Recorded(old(Contents()), history, p)
    {
      ghost var c := Chosen(Contents(), rand, pos);
      var seg := rand(pos) % |segments|;
      assert Contents()[seg] == segments[seg][..];
      var p := Place(seg, rand(pos + 1) % segments[seg].Length);
      assert p == c;
      h := history;
      if p !in h { h := h[p := segments[p.seg][p.at]]; }
      SetByte(p, rand(pos + 2) % 255);
    }

    /** `pop_mutate`, visiting the recorded places in any order. */
    method PopMutate(history: History)
      requires Valid() && forall p :: p in history ==> InFile(Contents(), p)
      modifies Buffers()
      ensures Contents() == Pop(old(Contents()), history)
    {
      var todo := history.Keys;
      while todo != {}
        invariant todo <= history.Keys && PartlyPopped(old(Contents()), history, todo, Contents())
      {
        var p :| p in todo;
        PopOne(old(Contents()), history, todo, Contents(), p);
        SetByte(p, history[p]);
        todo := todo - {p};
      }
      PopIs(old(Contents()), history, Contents());
    }
  }

  /** The recorded places outside `todo` are restored, all others as before. */
  ghost predicate PartlyPopped(before: File, h: History, todo: set<Place>, now: File) {
    && SameShape(now, before)
    && forall p :: InFile(before, p) ==>
         now[p.seg][p.at] == if p in h && p !in todo then h[p] else before[p.seg][p.at]
  }

  lemma PopOne(before: File, h: History, todo: set<Place>, now: File, p: Place)
    requires PartlyPopped(before, h, todo, now) && p in todo && p in h && InFile(before, p)
    ensures InFile(now, p) && PartlyPopped(before, h, todo - {p}, Put(now, p, h[p]))
  {
  }

  lemma PopIs(before: File, h: History, now: File)
    requires PartlyPopped(before, h, {}, now)
    ensures now == Pop(before, h)
  {
    forall s | 0 <= s < |now| ensures now[s] == Pop(before, h)[s] {
      forall b | 0 <= b < |now[s]| ensures now[s][b] == Pop(before, h)[s][b] {
        assert InFile(before, Place(s, b));
      }
    }
  }
}
