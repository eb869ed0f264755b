/** The pipe of kernel/pipe.c. The pipe's lock is held from `acquire`, or from waking up in `sleep`, to the next
    `sleep` or `release`; such a section is one step of the model, and sections of any number of readers and
    writers interleave. */
module Pipe {
  const PIPESIZE: nat := 512
  const WORD: nat := 0x1_0000_0000

  type Byte = x: int | 0 <= x < 256

  // ----- What a section does -----

  /** `ins` is every byte ever inserted, of which the first `rem` are removed; `readers` and `writers` sleep on
      `nread` and `nwrite`. */
  datatype View = View(ins: seq<Byte>, rem: nat, readopen: bool, writeopen: bool, readers: set<nat>, writers: set<nat>)

  datatype Outcome = Returns(r: int) | Sleeps(i: nat)

  /** Arithmetic on 32-bit counters. */
  function Wrap(x: nat): nat {
    x % WORD
  }

  /** The place of a byte in the ring. */
  function Ring(x: nat): (k: nat)
    ensures k < PIPESIZE
  {
    x % PIPESIZE
  }

  function Min(a: nat, b: nat): nat {
    if a < b then a else b
  }

  predicate Sound(v: View) {
    v.rem <= |v.ins| <= v.rem + PIPESIZE
  }

  /** How many bytes a section of `pipewrite` inserts: until it has its `n`, sees itself killed after `kill`
      bytes or the read end closed, finds the pipe full, or faults at the end of `src`. */
  function Inserts(v: View, src: seq<Byte>, n: nat, kill: nat): nat
    requires Sound(v)
  {
    Min(Min(n, if v.readopen then kill else 0), Min(v.rem + PIPESIZE - |v.ins|, |src|))
  }

  /** A section that stops because it is killed, or the read end is closed, wakes nobody. */
  function WriteSection(v: View, p: nat, src: seq<Byte>, n: nat, kill: nat): (View, Outcome)
    requires Sound(v)
  {
    var j := Inserts(v, src, n, kill);
    var v' := v.(ins := v.ins + src[..j]);
    if j < n && (!v.readopen || j == kill) then (v', Returns(-1))
    else if j < n && |v'.ins| == v.rem + PIPESIZE then (v'.(readers := {}, writers := v.writers + {p}), Sleeps(j))
    else (v'.(readers := {}), Returns(j))
  }

  /** A section of `piperead`: `room` bytes can be stored. The byte whose copy faults is gone from the pipe. */
  function ReadSection(v: View, p: nat, n: nat, room: nat, killed: bool): (View, Outcome)
    requires Sound(v)
  {
    var avail := |v.ins| - v.rem;
    if avail == 0 && v.writeopen then
      if killed then (v, Returns(-1)) else (v.(readers := v.readers + {p}), Sleeps(0))
    else
      (v.(rem := v.rem + Min(Min(n, avail), room + 1), writers := {}), Returns(Min(Min(n, avail), room)))
  }

  function CloseSection(v: View, writable: bool): View {
    if writable then v.(writeopen := false, readers := {}) else v.(readopen := false, writers := {})
  }

  // ----- What a section reports -----

  /** A section of `pipewrite` takes in a part of `src`, as much as it can: it stops where it has its `n`, where it
      sees itself killed or the read end closed, at a full pipe, or at the end of what can be read. It reports -1
      exactly in the second case, and then wakes nobody; otherwise it reports how much it took in and wakes readers. */
  ghost predicate WriteReports(v: View, v': View, out: Outcome, p: nat, src: seq<Byte>, n: nat, kill: nat) {
    |v.ins| <= |v'.ins| && var j := |v'.ins| - |v.ins|;
    && j <= n && j <= |src| && v'.ins == v.ins + src[..j] && v'.rem == v.rem && |v'.ins| <= v.rem + PIPESIZE
    && j <= kill && (!v.readopen ==> j == 0)
    && var gone, full := !v.readopen || j == kill, |v'.ins| == v.rem + PIPESIZE;
    && (j == n || gone || full || j == |src|)
    && (out == Returns(-1) <==> j < n && gone)
    && (out == Returns(-1) ==> v'.readers == v.readers && v'.writers == v.writers)
    && (out.Sleeps? <==> j < n && !gone && full)
    && (out.Sleeps? ==> out.i == j && v'.readers == {} && v'.writers == v.writers + {p})
    && (out.Returns? && out.r != -1 ==> out.r == j && v'.readers == {} && v'.writers == v.writers)
    && v'.readopen == v.readopen && v'.writeopen == v.writeopen
  }

  /** A section of `piperead` on an empty pipe with a writer left sleeps, or reports -1 if it is killed. Otherwise it
      reports the number of bytes it delivers, as many as asked for, there and storable, and wakes writers; it takes
      out one byte more exactly when storing that one fails. */
  ghost predicate ReadReports(v: View, v': View, out: Outcome, got: seq<Byte>, lost: seq<Byte>,
                              p: nat, n: nat, room: nat, killed: bool) {
    && v'.ins == v.ins && v.rem <= v'.rem <= |v.ins| && v.ins[v.rem..v'.rem] == got + lost
    && var empty := v.rem == |v.ins| && v.writeopen;
    && (out == Returns(-1) <==> empty && killed) && (out.Sleeps? <==> empty && !killed)
    && (empty ==> got == lost == [] && v'.writers == v.writers)
    && v'.readers == (if out.Sleeps? then v.readers + {p} else v.readers)
    && (!empty ==>
          && out == Returns(|got|) && v'.writers == {} && |got| <= n && |got| <= room
          && (|got| == n || |got| == room || v'.rem == |v.ins|)
          && |lost| == if room < n && room < |v.ins| - v.rem then 1 else 0)
    && v'.readopen == v.readopen && v'.writeopen == v.writeopen
  }

  lemma WriteSectionReports(v: View, p: nat, src: seq<Byte>, n: nat, kill: nat)
    requires Sound(v)
    ensures var r := WriteSection(v, p, src, n, kill); WriteReports(v, r.0, r.1, p, src, n, kill)
  {
    var j := Inserts(v, src, n, kill);
    assert |v.ins + src[..j]| == |v.ins| + j;
  }

  lemma ReadSectionReports(v: View, p: nat, n: nat, room: nat, killed: bool)
    requires Sound(v)
    ensures var r, a := ReadSection(v, p, n, room, killed), Act.Read(p, n, room, killed);
            ReadReports(v, r.0, r.1, Got(v, a), Lost(v, a), p, n, room, killed)
  {
  }

  class Pipe {
    const data: array<Byte>
    var nread: nat
    var nwrite: nat
    var readopen: bool
    var writeopen: bool
    var readers: set<nat>
    var writers: set<nat>
    ghost var ins: seq<Byte>
    ghost var rem: nat

    ghost function Abs(): View
      reads this
    {
      View(ins, rem, readopen, writeopen, readers, writers)
    }

    /** The counters are the true counts modulo the word size, and the ring holds the bytes in transit. */
    ghost predicate Valid()
      reads this, data
    {
      && data.Length == PIPESIZE && Sound(Abs()) && nwrite == Wrap(|ins|) && nread == Wrap(rem)
      && forall k :: rem <= k < |ins| ==> data[Ring(k)] == ins[k]
    }

    constructor ()
      ensures Valid() && Abs() == View([], 0, true, true, {}, {}) && fresh(data)
    {
      data := new Byte[PIPESIZE](_ => 0);
      nread, nwrite, readopen, writeopen, readers, writers := 0, 0, true, true, {}, {};
      ins, rem := [], 0;
    }

    /** `pipewrite` from the head of its loop with the lock held, `n` bytes still to write. */
    method Write(p: nat, src: seq<Byte>, n: nat, kill: nat) returns (out: Outcome)
      requires Valid()
      modifies this, data
      ensures Valid() && (Abs(), out) == WriteSection(old(Abs()), p, src, n, kill)
      ensures WriteReports(old(Abs()), Abs(), out, p, src, n, kill)
    {
      hide Wrap, Ring, WriteReports, WriteSection;
      WriteSectionReports(Abs(), p, src, n, kill);
      out := WriteLoop(p, src, n, kill);
    }

    /** Its loop and what follows it. */
    method WriteLoop(p: nat, src: seq<Byte>, n: nat, kill: nat) returns (out: Outcome)
      requires Valid()
      modifies this, data
      ensures Valid() && (Abs(), out) == WriteSection(old(Abs()), p, src, n, kill)
    {
      hide Wrap, Ring;
      ghost var v := Abs();
      var i := 0;
      while i < n
        invariant Valid() && i <= Inserts(v, src, n, kill) && i <= |src| && Abs() == v.(ins := v.ins + src[..i])
      {
        if !readopen || i == kill {
          return Returns(-1);
        }
        if nwrite == Wrap(nread + PIPESIZE) {
          FullTest(|ins|, rem);
          readers := {};
          writers := writers + {p};
          return Sleeps(i);
        }
        FullTest(|ins|, rem);
        if i == |src| {
          break;
        }
        Insert(src[i]);
        assert src[..i + 1] == src[..i] + [src[i]];
        i := i + 1;
      }
      readers := {};
      return Returns(i);
    }

    method Insert(ch: Byte)
      requires Valid() && |ins| < rem + PIPESIZE
      modifies `nwrite, `ins, data
      ensures Valid() && ins == old(ins) + [ch]
    {
      hide Wrap, Ring;
      RingIndex(|ins|);
      forall k | rem <= k < |ins| ensures Ring(k) != Ring(|ins|) {
        DistinctSlots(k, |ins|);
      }
      data[Ring(nwrite)] := ch;
      nwrite := Wrap(nwrite + 1);
      ins := ins + [ch];
    }

    method Remove() returns (ch: Byte)
      requires Valid() && rem < |ins|
      modifies `nread, `rem
      ensures Valid() && rem == old(rem) + 1 && ch == ins[old(rem)]
    {
      RingIndex(rem);
      ch := data[Ring(nread)];
      nread, rem := Wrap(nread + 1), rem + 1;
    }

    /** `piperead` from the head of its first loop with the lock held. It delivers `got`; `lost` is taken out of the
        pipe and delivered to nobody. */
    method Read(p: nat, n: nat, room: nat, killed: bool) returns (out: Outcome, got: seq<Byte>, ghost lost: seq<Byte>)
      requires Valid()
      modifies `nread, `rem, `readers, `writers
      ensures Valid() && (Abs(), out) == ReadSection(old(Abs()), p, n, room, killed)
      ensures ReadReports(old(Abs()), Abs(), out, got, lost, p, n, room, killed)
      ensures got == Got(old(Abs()), Act.Read(p, n, room, killed))
              && lost == Lost(old(Abs()), Act.Read(p, n, room, killed))
    {
      hide Wrap, Ring, ReadReports;
      got, lost := [], [];
      ReadSectionReports(Abs(), p, n, room, killed);
      EmptyTest(|ins|, rem);
      if nread == nwrite && writeopen {
        if killed {
          return Returns(-1), [], [];
        }
        readers := readers + {p};
        return Sleeps(0), [], [];
      }
      var i;
      i, got, lost := CopyOut(n, room);
      writers := {};
      out := Returns(i);
    }

    /** The copying loop of `piperead`. */
    method CopyOut(n: nat, room: nat) returns (i: nat, got: seq<Byte>, ghost lost: seq<Byte>)
      requires Valid()
      modifies `nread, `rem
      ensures Valid() && i == Min(Min(n, |ins| - old(rem)), room) && got == ins[old(rem)..old(rem) + i]
      ensures rem == old(rem) + Min(Min(n, |ins| - old(rem)), room + 1) && lost == ins[old(rem) + i..rem]
    {
      hide Wrap, Ring;
      i, got, lost := 0, [], [];
      while i < n
        invariant Valid() && 0 <= i <= n && i <= room && rem == old(rem) + i && got == ins[old(rem)..rem] && lost == []
      {
        EmptyTest(|ins|, rem);
        if nread == nwrite {
          break;
        }
        var ch := Remove();
        if i == room {
          lost := [ch];
          break;
        }
        got := got + [ch];
        i := i + 1;
      }
    }

    /** `pipeclose`; the pipe is freed when both ends are closed. */
    method Close(writable: bool) returns (freed: bool)
      requires Valid()
      modifies `readopen, `writeopen, `readers, `writers
      ensures Valid() && Abs() == CloseSection(old(Abs()), writable) && freed == (!readopen && !writeopen)
    {
      if writable {
        writeopen, readers := false, {};
      } else {
        readopen, writers := false, {};
      }
      freed := !readopen && !writeopen;
    }
  }

  // ----- Counters that wrap -----

  lemma SameWrap(a: nat, b: nat)
    requires a <= b < a + WORD && Wrap(a) == Wrap(b)
    ensures a == b
  {
    var qa, qb := a / WORD, b / WORD;
    assert a == WORD * qa + Wrap(a) && b == WORD * qb + Wrap(b);
  }

  lemma WrapAdd(a: nat, x: nat)
    ensures Wrap(Wrap(a) + x) == Wrap(a + x)
  {
    var q := a / WORD;
    assert a == WORD * q + Wrap(a);
    var r := (Wrap(a) + x) / WORD;
    assert Wrap(a) + x == WORD * r + Wrap(Wrap(a) + x);
    assert a + x == WORD * (q + r) + Wrap(Wrap(a) + x);
  }

  /** The full test compares wrapped counters. */
  lemma FullTest(w: nat, r: nat)
    requires r <= w <= r + PIPESIZE
    ensures Wrap(w) == Wrap(Wrap(r) + PIPESIZE) <==> w == r + PIPESIZE
  {
    hide Wrap;
    WrapAdd(r, PIPESIZE);
    if Wrap(w) == Wrap(r + PIPESIZE) {
      SameWrap(w, r + PIPESIZE);
    }
  }

  lemma EmptyTest(w: nat, r: nat)
    requires r <= w <= r + PIPESIZE
    ensures Wrap(r) == Wrap(w) <==> w == r
  {
    hide Wrap;
    if Wrap(r) == Wrap(w) {
      SameWrap(r, w);
    }
  }

  /** The ring index of a wrapped counter is that of the true count, because the ring size divides 2^32. */
  lemma RingIndex(x: nat)
    ensures Ring(Wrap(x)) == Ring(x) && Wrap(Wrap(x) + 1) == Wrap(x + 1)
  {
    WrapAdd(x, 1);
    var q := x / WORD;
    assert x == PIPESIZE * (0x80_0000 * q) + Wrap(x);
  }

  lemma DistinctSlots(k: nat, w: nat)
    requires k < w < k + PIPESIZE
    ensures Ring(k) != Ring(w)
  {
  }

  // ----- Runs -----

  datatype Act =
    | Write(p: nat, src: seq<Byte>, n: nat, kill: nat) | Read(p: nat, n: nat, room: nat, killed: bool)
    | Close(writable: bool) | Kill(p: nat)

  /** One section; `kill` on a sleeping process takes it off its channel. */
  function Step(v: View, a: Act): View
    requires Sound(v)
  {
    match a
    case Write(p, src, n, kill) => WriteSection(v, p, src, n, kill).0
    case Read(p, n, room, killed) => ReadSection(v, p, n, room, killed).0
    case Close(writable) => CloseSection(v, writable)
    case Kill(p) => v.(readers := v.readers - {p}, writers := v.writers - {p})
  }

  lemma StepSound(v: View, a: Act)
    requires Sound(v)
    ensures Sound(Step(v, a)) && v.ins <= Step(v, a).ins && v.rem <= Step(v, a).rem
  {
  }

  const OPEN := View([], 0, true, true, {}, {})

  ghost predicate Follows(v: View, a: Act, v': View) {
    Sound(v) && v' == Step(v, a)
  }

  ghost predicate IsRun(vs: seq<View>, acts: seq<Act>) {
    |vs| == |acts| + 1 && vs[0] == OPEN && forall k :: 0 <= k < |acts| ==> Follows(vs[k], acts[k], vs[k + 1])
  }

  /** What a section takes from its source into the pipe. */
  function Put(v: View, a: Act): seq<Byte>
    requires Sound(v)
  {
    if a.Write? then a.src[..Inserts(v, a.src, a.n, a.kill)] else []
  }

  /** What a section delivers to its caller. */
  function Got(v: View, a: Act): seq<Byte>
    requires Sound(v)
  {
    if a.Read? && (v.rem < |v.ins| || !v.writeopen) then v.ins[v.rem..v.rem + Min(Min(a.n, |v.ins| - v.rem), a.room)]
    else []
  }

  /** The byte whose copy faults. */
  function Lost(v: View, a: Act): (lost: seq<Byte>)
    requires Sound(v)
    ensures |lost| <= 1
  {
    if a.Read? && a.room < Min(a.n, |v.ins| - v.rem) then v.ins[v.rem + a.room..v.rem + a.room + 1] else []
  }

  /** Everything the first `k` sections took in. */
  ghost function AllPut(vs: seq<View>, acts: seq<Act>, k: nat): seq<Byte>
    requires IsRun(vs, acts) && k <= |acts|
  {
    if k == 0 then []
    else
      assert Follows(vs[k - 1], acts[k - 1], vs[k - 1 + 1]);
      AllPut(vs, acts, k - 1) + Put(vs[k - 1], acts[k - 1])
  }

  /** Everything the first `k` sections delivered or lost, in that order. */
  ghost function AllOut(vs: seq<View>, acts: seq<Act>, k: nat): seq<Byte>
    requires IsRun(vs, acts) && k <= |acts|
  {
    if k == 0 then []
    else
      assert Follows(vs[k - 1], acts[k - 1], vs[k - 1 + 1]);
      AllOut(vs, acts, k - 1) + Got(vs[k - 1], acts[k - 1]) + Lost(vs[k - 1], acts[k - 1])
  }

  lemma WriteBytes(v: View, a: Act)
    requires Sound(v) && a.Write?
    ensures Step(v, a).ins == v.ins + Put(v, a) && Step(v, a).rem == v.rem
  {
  }

  lemma ReadBytes(v: View, a: Act)
    requires Sound(v) && a.Read?
    ensures Step(v, a).ins == v.ins && Step(v, a).rem == v.rem + |Got(v, a)| + |Lost(v, a)| <= |v.ins|
    ensures Got(v, a) + Lost(v, a) == v.ins[v.rem..Step(v, a).rem]
  {
  }

  /** A section moves its bytes: those it takes in behind the others, those it takes out from the front. */
  lemma StepBytes(v: View, a: Act)
    requires Sound(v)
    ensures Step(v, a).ins == v.ins + Put(v, a) && Step(v, a).rem <= |Step(v, a).ins|
    ensures v.ins[..v.rem] + Got(v, a) + Lost(v, a) == Step(v, a).ins[..Step(v, a).rem]
  {
    if a.Write? {
      WriteBytes(v, a);
      assert Got(v, a) == Lost(v, a) == [];
    } else if a.Read? {
      ReadBytes(v, a);
      hide Step, Got, Lost;
      var v' := Step(v, a);
      assert v.ins[..v.rem] + v.ins[v.rem..v'.rem] == v.ins[..v'.rem];
      assert v.ins[..v.rem] + Got(v, a) + Lost(v, a) == v.ins[..v.rem] + (Got(v, a) + Lost(v, a));
    }
  }

  /** First in, first out: whatever sections run, what the reads delivered, with the bytes lost to faults put back
      where they were taken out, is a prefix of what the writes took in, and at most a pipeful is in transit. */
  lemma {:induction false} Fifo(vs: seq<View>, acts: seq<Act>, k: nat)
    requires IsRun(vs, acts) && k <= |acts|
    ensures Sound(vs[k]) && AllPut(vs, acts, k) == vs[k].ins && AllOut(vs, acts, k) == vs[k].ins[..vs[k].rem]
    ensures AllOut(vs, acts, k) <= AllPut(vs, acts, k) && |AllPut(vs, acts, k)| <= |AllOut(vs, acts, k)| + PIPESIZE
    decreases k
  {
    hide Step, Put, Got, Lost;
    if k > 0 {
      Fifo(vs, acts, k - 1);
      assert Follows(vs[k - 1], acts[k - 1], vs[k - 1 + 1]);
      StepSound(vs[k - 1], acts[k - 1]);
      StepBytes(vs[k - 1], acts[k - 1]);
    }
  }

  /** What was inserted or removed before stays so. */
  lemma {:induction false} NothingUndone(vs: seq<View>, acts: seq<Act>, j: nat, k: nat)
    requires IsRun(vs, acts) && j <= k < |vs|
    ensures Sound(vs[j]) && Sound(vs[k]) && vs[j].ins <= vs[k].ins && vs[j].rem <= vs[k].rem
    ensures vs[j].ins[..vs[j].rem] <= vs[k].ins[..vs[k].rem] <= vs[k].ins
    decreases k
  {
    if k > 0 {
      assert Follows(vs[k - 1], acts[k - 1], vs[k]);
      StepSound(vs[k - 1], acts[k - 1]);
      if j < k {
        NothingUndone(vs, acts, j, k - 1);
      }
    }
  }

  /** Whoever sleeps has reason to: a reader an empty pipe with a writer left, a writer a full one with a reader. */
  predicate Calm(v: View) {
    && (v.readers != {} ==> |v.ins| == v.rem && v.writeopen)
    && (v.writers != {} ==> |v.ins| == v.rem + PIPESIZE && v.readopen)
  }

  /** A writer that puts something in, then sees itself killed, and so leaves sleeping readers asleep. */
  predicate Forgets(v: View, a: Act)
    requires Sound(v)
  {
    a.Write? && v.readopen && v.readers != {} && 0 < a.kill < a.n && a.kill <= |a.src| && a.kill <= PIPESIZE
  }

  /** Every section keeps the calm, except exactly that one. */
  lemma CalmKeptUnlessForgotten(v: View, a: Act)
    requires Sound(v) && Calm(v)
    ensures Calm(Step(v, a)) <==> !Forgets(v, a)
  {
  }

  /** In every run without such a section, whenever the lock is free: a sleeping reader means an empty pipe whose
      write end is open, a sleeping writer a full one whose read end is open. */
  lemma {:induction false} SleepersHaveReason(vs: seq<View>, acts: seq<Act>, k: nat)
    requires IsRun(vs, acts) && k < |vs|
    requires forall j :: 0 <= j < k ==> Sound(vs[j]) && !Forgets(vs[j], acts[j])
    ensures Calm(vs[k])
    decreases k
  {
    if k > 0 {
      SleepersHaveReason(vs, acts, k - 1);
      assert Follows(vs[k - 1], acts[k - 1], vs[k]);
      CalmKeptUnlessForgotten(vs[k - 1], acts[k - 1]);
    }
  }

  /** The exception is real: a reader sleeps, a writer inserts one byte and is killed before its second; the reader
      sleeps on, with a byte in the pipe. */
  lemma ForgottenReader() returns (vs: seq<View>, acts: seq<Act>)
    ensures IsRun(vs, acts) && |vs| == 3 && vs[2].readers == {1} && |vs[2].ins| > vs[2].rem && vs[2].writeopen
  {
    acts := [Read(1, 1, 1, false), Write(2, [7, 7], 2, 1)];
    var v1 := Step(OPEN, acts[0]);
    var v2 := Step(v1, acts[1]);
    vs := [OPEN, v1, v2];
    assert Inserts(v1, [7, 7], 2, 1) == 1;
    assert v1.readers == {1};
  }
}
