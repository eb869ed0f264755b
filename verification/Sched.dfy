/** The FCFS and priority scans of `scheduler` in kernel/proc.c, for any number of CPUs over one process table.
    A CPU keeps the lock of its best candidate while it takes the lock of the next slot. */
module Sched {
  datatype Alg = Fcfs | Pbs

  datatype Status = Runnable | Running | Other

  /** `raw` is the creation time (FCFS) or the priority before clamping; `owner` is the CPU that holds the
      slot's lock, or -1. */
  datatype Slot = Slot(status: Status, raw: int, owner: int)

  /** A dynamic priority lies in 0..100; a creation time is compared as it is. */
  function Key(alg: Alg, raw: int): int {
    if alg == Fcfs then raw else if raw < 0 then 0 else if raw > 100 then 100 else raw
  }

  datatype Seen = Idle | Ready(key: int)

  /** Where a CPU is. In a scan, `i` is the next slot, `best` the candidate or -1, `min` its key, and `seen` what
      it found in the slots it passed. */
  datatype Cpu =
    | Resting
    | Before(i: nat, best: int, min: int, seen: seq<Seen>)  // about to take the lock of slot i
    | Holding(i: nat, best: int, min: int, seen: seq<Seen>) // has it
    | Switched(p: nat, seen: seq<Seen>)                     // in process p, which still holds its own lock
    | Runs(p: nat)
    | Back(p: nat)                                          // p has switched back, holding its own lock

  datatype State = State(slots: seq<Slot>, cpus: seq<Cpu>)

  /** The initial value of `min_dynamic_priority`; FCFS never looks at its own. */
  function Start(alg: Alg): int {
    if alg == Fcfs then 0 else 500
  }

  /** The test on a runnable slot: FCFS takes the first it meets, and then a smaller key; the priority scan
      relies on the large initial minimum. */
  predicate Beats(alg: Alg, best: int, min: int, key: int) {
    if alg == Fcfs then best == -1 || min > key else min > key
  }

  function Found(alg: Alg, slot: Slot): Seen {
    if slot.status == Runnable then Ready(Key(alg, slot.raw)) else Idle
  }

  datatype Step =
    | Begin(c: nat) | Take(c: nat) | Judge(c: nat) | Finish(c: nat)
    | ProcRelease(c: nat) | ProcReturns(c: nat, status: Status) | Release(c: nat)
    | Touch(c: nat, i: nat, slot: Slot)

  predicate Enabled(s: State, a: Step) {
    && a.c < |s.cpus|
    && var cpu := s.cpus[a.c];
       match a
       case Begin(c) => cpu.Resting?
       case Take(c) => cpu.Before? && cpu.i < |s.slots| && s.slots[cpu.i].owner == -1
       case Judge(c) => cpu.Holding? && cpu.i < |s.slots| && cpu.best < |s.slots|
       case Finish(c) => cpu.Before? && cpu.i == |s.slots| && cpu.best < |s.slots|
       case ProcRelease(c) => cpu.Switched? && cpu.p < |s.slots|
       case ProcReturns(c, st) => cpu.Runs? && cpu.p < |s.slots| && s.slots[cpu.p].owner == -1 && st != Running
       case Release(c) => cpu.Back? && cpu.p < |s.slots|
       // a process (wakeup, kill, fork, set_priority) or the timer (update_time) changes a slot under its lock;
       // of one that is running, only what the key is made of
       case Touch(c, i, slot) =>
         && Holds(cpu) == {} && i < |s.slots| && s.slots[i].owner == -1 && slot.owner == -1
         && if s.slots[i].status == Running then slot == s.slots[i].(raw := slot.raw) else slot.status != Running
  }

  function Own(s: State, i: nat, owner: int): State
    requires i < |s.slots|
  {
    s.(slots := s.slots[i := s.slots[i].(owner := owner)])
  }

  function At(s: State, c: nat, cpu: Cpu): State
    requires c < |s.cpus|
  {
    s.(cpus := s.cpus[c := cpu])
  }

  function Next(alg: Alg, s: State, a: Step): State
    requires Enabled(s, a)
  {
    var cpu := s.cpus[a.c];
    match a
    case Begin(c) => At(s, c, Before(0, -1, Start(alg), []))
    case Take(c) => At(Own(s, cpu.i, c), c, Holding(cpu.i, cpu.best, cpu.min, cpu.seen))
    case Judge(c) =>
      var slot := s.slots[cpu.i];
      var key := Key(alg, slot.raw);
      if slot.status == Runnable && Beats(alg, cpu.best, cpu.min, key) then
        At(if cpu.best >= 0 then Own(s, cpu.best, -1) else s, c, Before(cpu.i + 1, cpu.i, key, cpu.seen + [Ready(key)]))
      else
        At(Own(s, cpu.i, -1), c,
           Before(cpu.i + 1, cpu.best, cpu.min, cpu.seen + [Found(alg, slot)]))
    case Finish(c) =>
      if cpu.best < 0 then At(s, c, Resting)
      else At(s.(slots := s.slots[cpu.best := s.slots[cpu.best].(status := Running)]), c, Switched(cpu.best, cpu.seen))
    case ProcRelease(c) => At(Own(s, cpu.p, -1), c, Runs(cpu.p))
    case ProcReturns(c, st) => At(s.(slots := s.slots[cpu.p := s.slots[cpu.p].(status := st, owner := c)]), c,
        Back(cpu.p))
    case Release(c) => At(Own(s, cpu.p, -1), c, Resting)
    case Touch(c, i, slot) => s.(slots := s.slots[i := slot])
  }

  // ----- Invariant -----

  /** The locks a CPU holds. */
  function Holds(cpu: Cpu): set<int> {
    match cpu
    case Resting => {}
    case Before(_, best, _, _) => if best == -1 then {} else {best}
    case Holding(i, best, _, _) => if best == -1 then {i} else {best, i}
    case Switched(p, _) => {p}
    case Runs(_) => {}
    case Back(p) => {p}
  }

  /** `best` is the first of the slots seen with the least key, or -1 when none was runnable. */
  predicate FirstLeast(seen: seq<Seen>, best: int, min: int) {
    if best == -1 then forall j :: 0 <= j < |seen| ==> seen[j] == Idle
    else
      && 0 <= best < |seen| && seen[best] == Ready(min)
      && forall j :: 0 <= j < |seen| && seen[j].Ready? ==> min <= seen[j].key && (j < best ==> min < seen[j].key)
  }

  /** A CPU in a scan: its candidate comes before the next slot and is still as it was found. */
  ghost predicate ScanOk(alg: Alg, s: State, cpu: Cpu) {
    && (cpu.Before? || cpu.Holding? ==>
          && cpu.i <= |s.slots| && |cpu.seen| == cpu.i && -1 <= cpu.best < cpu.i
              && FirstLeast(cpu.seen, cpu.best, cpu.min)
          && (if cpu.best == -1 then cpu.min == Start(alg)
              else s.slots[cpu.best].status == Runnable && Key(alg, s.slots[cpu.best].raw) == cpu.min))
    && (cpu.Holding? ==> cpu.i < |s.slots|)
    && (cpu.Switched? ==>
          && cpu.p < |s.slots| == |cpu.seen| && s.slots[cpu.p].status == Running
          && FirstLeast(cpu.seen, cpu.p, Key(alg, s.slots[cpu.p].raw)))
    && (cpu.Runs? ==> cpu.p < |s.slots| && s.slots[cpu.p].status == Running)
    && (cpu.Back? ==> cpu.p < |s.slots| && s.slots[cpu.p].status != Running)
  }

  ghost predicate LocksOk(s: State, c: nat, i: nat)
    requires c < |s.cpus| && i < |s.slots|
  {
    s.slots[i].owner == c <==> i in Holds(s.cpus[c])
  }

  ghost predicate Inv(alg: Alg, s: State) {
    && (forall c :: 0 <= c < |s.cpus| ==> ScanOk(alg, s, s.cpus[c]))
    && (forall c, i :: 0 <= c < |s.cpus| && 0 <= i < |s.slots| ==> LocksOk(s, c, i))
    && (forall c, d :: 0 <= c < |s.cpus| && 0 <= d < |s.cpus| && c != d ==> Apart(s.cpus[c], s.cpus[d]))
    && (forall i :: 0 <= i < |s.slots| ==> -1 <= s.slots[i].owner < |s.cpus|)
  }

  /** No process runs on two CPUs. */
  predicate Apart(x: Cpu, y: Cpu) {
    (x.Switched? || x.Runs?) && (y.Switched? || y.Runs?) ==> x.p != y.p
  }

  // ----- Every step keeps it -----

  /** A slot whose lock another CPU holds does not change, and a running process stays so. */
  lemma HeldUnchanged(alg: Alg, s: State, a: Step, d: nat, i: nat)
    requires Inv(alg, s) && Enabled(s, a) && d < |s.cpus| && d != a.c && i < |s.slots|
    ensures var s' := Next(alg, s, a);
            && |s'.cpus| == |s.cpus| && |s'.slots| == |s.slots| && s'.cpus[d] == s.cpus[d]
            && (i in Holds(s.cpus[d]) ==> s'.slots[i] == s.slots[i])
            && (s.cpus[d] == Runs(i) ==> s'.slots[i].status == s.slots[i].status)
  {
    assert ScanOk(alg, s, s.cpus[a.c]) && ScanOk(alg, s, s.cpus[d]) && LocksOk(s, d, i) && LocksOk(s, a.c, i);
    assert Apart(s.cpus[a.c], s.cpus[d]);
  }

  lemma OtherScanKept(alg: Alg, s: State, a: Step, d: nat)
    requires Inv(alg, s) && Enabled(s, a) && d < |s.cpus| && d != a.c
    ensures |Next(alg, s, a).cpus| == |s.cpus| && ScanOk(alg, Next(alg, s, a), Next(alg, s, a).cpus[d])
  {
    hide Next, Enabled, FirstLeast;
    var cpu := s.cpus[d];
    assert ScanOk(alg, s, cpu);
    if |s.slots| > 0 {
      var i := match cpu case Before(_, best, _, _) => best case Holding(_, best, _, _) => best
                         case Switched(p, _) => p case Runs(p) => p case Back(p) => p case Resting => 0;
      HeldUnchanged(alg, s, a, d, if i < 0 then 0 else i);
    } else {
      NoSlots(alg, s, a, d);
    }
  }

  lemma NoSlots(alg: Alg, s: State, a: Step, d: nat)
    requires Inv(alg, s) && Enabled(s, a) && d < |s.cpus| && d != a.c && |s.slots| == 0
    ensures var s' := Next(alg, s, a); |s'.cpus| == |s.cpus| && s'.cpus[d] == s.cpus[d] && |s'.slots| == 0
  {
  }

  /** One slot more: the scan's update of its candidate. */
  lemma LeastExtends(alg: Alg, seen: seq<Seen>, best: int, min: int, x: Seen)
    requires -1 <= best < |seen| && FirstLeast(seen, best, min) && (best == -1 ==> min == Start(alg))
    requires x.Ready? && alg == Pbs ==> x.key <= 100
    ensures if x.Ready? && Beats(alg, best, min, x.key) then FirstLeast(seen + [x], |seen|, x.key)
            else FirstLeast(seen + [x], best, min)
  {
  }

  lemma OwnScanKept(alg: Alg, s: State, a: Step)
    requires Inv(alg, s) && Enabled(s, a)
    ensures |Next(alg, s, a).cpus| == |s.cpus| && ScanOk(alg, Next(alg, s, a), Next(alg, s, a).cpus[a.c])
  {
    hide FirstLeast, Beats;
    var cpu := s.cpus[a.c];
    assert ScanOk(alg, s, cpu);
    if a.Judge? {
      LeastExtends(alg, cpu.seen, cpu.best, cpu.min, Found(alg, s.slots[cpu.i]));
    }
    NothingSeen(Start(alg));
  }

  lemma NothingSeen(min: int)
    ensures FirstLeast([], -1, min)
  {
  }

  lemma LocksKept(alg: Alg, s: State, a: Step, d: nat, i: nat)
    requires Inv(alg, s) && Enabled(s, a) && d < |s.cpus| && i < |s.slots|
    ensures var s' := Next(alg, s, a);
            |s'.cpus| == |s.cpus| && |s'.slots| == |s.slots| && LocksOk(s', d, i) && -1 <= s'.slots[i].owner < |s.cpus|
  {
    if a.Judge? {
      JudgeKeepsLocks(alg, s, a, d, i);
    } else {
      assert ScanOk(alg, s, s.cpus[a.c]) && ScanOk(alg, s, s.cpus[d]) && LocksOk(s, d, i) && LocksOk(s, a.c, i);
    }
  }

  /** Judging a slot releases the loser's lock and keeps the winner's. */
  lemma JudgeKeepsLocks(alg: Alg, s: State, a: Step, d: nat, i: nat)
    requires Inv(alg, s) && Enabled(s, a) && a.Judge? && d < |s.cpus| && i < |s.slots|
    ensures var s' := Next(alg, s, a);
            |s'.cpus| == |s.cpus| && |s'.slots| == |s.slots| && LocksOk(s', d, i) && -1 <= s'.slots[i].owner < |s.cpus|
  {
    hide Key, Beats, FirstLeast;
    assert ScanOk(alg, s, s.cpus[a.c]) && LocksOk(s, d, i) && LocksOk(s, a.c, i);
  }

  lemma ApartKept(alg: Alg, s: State, a: Step, d: nat)
    requires Inv(alg, s) && Enabled(s, a) && d < |s.cpus| && d != a.c
    ensures var s' := Next(alg, s, a);
            |s'.cpus| == |s.cpus| && s'.cpus[d] == s.cpus[d] && Apart(s'.cpus[a.c], s'.cpus[d])
  {
    assert ScanOk(alg, s, s.cpus[a.c]) && ScanOk(alg, s, s.cpus[d]) && Apart(s.cpus[a.c], s.cpus[d]);
  }

  lemma NextKeepsInv(alg: Alg, s: State, a: Step)
    requires Inv(alg, s) && Enabled(s, a)
    ensures Inv(alg, Next(alg, s, a))
  {
    hide Next, Enabled, ScanOk, LocksOk, Apart;
    var s' := Next(alg, s, a);
    OwnScanKept(alg, s, a);
    SlotCount(alg, s, a);
    forall d | 0 <= d < |s.cpus| ensures ScanOk(alg, s', s'.cpus[d]) {
      if d != a.c {
        OtherScanKept(alg, s, a, d);
      }
    }
    forall d, i | 0 <= d < |s.cpus| && 0 <= i < |s.slots| ensures LocksOk(s', d, i) {
      LocksKept(alg, s, a, d, i);
    }
    forall i | 0 <= i < |s.slots| ensures -1 <= s'.slots[i].owner < |s.cpus| {
      LocksKept(alg, s, a, a.c, i);
    }
    forall d, e | 0 <= d < |s.cpus| && 0 <= e < |s.cpus| && d != e ensures Apart(s'.cpus[d], s'.cpus[e]) {
      BothApart(alg, s, a, d, e);
    }
  }

  lemma SlotCount(alg: Alg, s: State, a: Step)
    requires Enabled(s, a)
    ensures |Next(alg, s, a).slots| == |s.slots| && a.c < |s.cpus|
  {
  }

  lemma BothApart(alg: Alg, s: State, a: Step, d: nat, e: nat)
    requires Inv(alg, s) && Enabled(s, a) && d < |s.cpus| && e < |s.cpus| && d != e
    ensures var s' := Next(alg, s, a); |s'.cpus| == |s.cpus| && Apart(s'.cpus[d], s'.cpus[e])
  {
    hide Next, Enabled, ScanOk, LocksOk;
    assert Apart(s.cpus[d], s.cpus[e]);
    if d != a.c {
      ApartKept(alg, s, a, d);
    }
    if e != a.c {
      ApartKept(alg, s, a, e);
    }
  }

  // ----- Whole runs -----

  ghost predicate Init(s: State) {
    && (forall c :: 0 <= c < |s.cpus| ==> s.cpus[c] == Resting)
    && (forall i :: 0 <= i < |s.slots| ==> s.slots[i].owner == -1 && s.slots[i].status != Running)
  }

  predicate Moves(alg: Alg, s: State, a: Step, s': State) {
    Enabled(s, a) && s' == Next(alg, s, a)
  }

  ghost predicate IsRun(alg: Alg, ss: seq<State>, acts: seq<Step>) {
    |ss| == |acts| + 1 && Init(ss[0]) && forall k :: 0 <= k < |acts| ==> Moves(alg, ss[k], acts[k], ss[k + 1])
  }

  lemma {:induction false} RunKeepsInv(alg: Alg, ss: seq<State>, acts: seq<Step>, k: nat)
    requires IsRun(alg, ss, acts) && k < |ss|
    ensures Inv(alg, ss[k])
    decreases k
  {
    if k > 0 {
      RunKeepsInv(alg, ss, acts, k - 1);
      assert Moves(alg, ss[k - 1], acts[k - 1], ss[k]);
      NextKeepsInv(alg, ss[k - 1], acts[k - 1]);
    }
  }

  /** A scan about to take the lock of slot `i` holds at most one lock, that of a lower slot. */
  lemma TakesLocksUpwards(alg: Alg, ss: seq<State>, acts: seq<Step>, k: nat, c: nat, j: nat)
    requires IsRun(alg, ss, acts) && k < |ss| && c < |ss[k].cpus| && j < |ss[k].slots|
    requires ss[k].cpus[c].Before? && ss[k].slots[j].owner == c
    ensures j == ss[k].cpus[c].best < ss[k].cpus[c].i
  {
    RunKeepsInv(alg, ss, acts, k);
    assert LocksOk(ss[k], c, j) && ScanOk(alg, ss[k], ss[k].cpus[c]);
  }

  /** CPU `c` waits for a lock that CPU `d` holds. */
  predicate WaitsFor(s: State, c: nat, d: nat) {
    c < |s.cpus| && s.cpus[c].Before? && s.cpus[c].i < |s.slots| && s.slots[s.cpus[c].i].owner == d
  }

  predicate Stuck(s: State, c: nat) {
    c < |s.cpus| && s.cpus[c].Before? && s.cpus[c].i < |s.slots| && s.slots[s.cpus[c].i].owner != -1
  }

  /** CPUs each waiting for the next. */
  ghost predicate WaitChain(s: State, chain: seq<nat>) {
    && 0 < |chain| && (forall k :: 0 <= k < |chain| ==> chain[k] < |s.cpus|)
    && forall k, l :: 0 <= k && l == k + 1 < |chain| ==> WaitsFor(s, chain[k], chain[l])
  }

  /** From every CPU the chain of lock waits ends at one that can go on: scans never deadlock. */
  lemma {:induction false} WaitsEnd(alg: Alg, s: State, c: nat) returns (chain: seq<nat>)
    requires Inv(alg, s) && c < |s.cpus|
    ensures WaitChain(s, chain) && chain[0] == c && !Stuck(s, chain[|chain| - 1])
    decreases |s.slots| - (if s.cpus[c].Before? then s.cpus[c].i else |s.slots|)
  {
    assert ScanOk(alg, s, s.cpus[c]);
    chain := [c];
    if Stuck(s, c) {
      var i := s.cpus[c].i;
      var d := s.slots[i].owner;
      assert LocksOk(s, d, i) && LocksOk(s, c, i) && ScanOk(alg, s, s.cpus[d]);
      if Stuck(s, d) {
        var rest := WaitsEnd(alg, s, d);
        chain := [c] + rest;
      } else {
        chain := [c, d];
      }
    }
  }

  /** A CPU that is in the scheduler and not stuck has a step of its own to make. */
  lemma NotStuckCanGo(alg: Alg, s: State, c: nat)
    requires Inv(alg, s) && c < |s.cpus| && !Stuck(s, c) && !s.cpus[c].Runs?
    ensures exists a: Step :: a.c == c && Enabled(s, a)
  {
    assert ScanOk(alg, s, s.cpus[c]);
    var a := match s.cpus[c]
      case Resting => Begin(c)
      case Before(i, _, _, _) => if i < |s.slots| then Take(c) else Finish(c)
      case Holding(_, _, _, _) => Judge(c)
      case Switched(_, _) => ProcRelease(c)
      case Back(_) => Release(c)
      case Runs(p) => Begin(c);
    assert Enabled(s, a);
  }

  /** At the switch the CPU holds exactly the chosen lock, and the choice is the first slot with the least key
      among those that were runnable when the scan passed them. */
  lemma SwitchesToFirstLeast(alg: Alg, ss: seq<State>, acts: seq<Step>, k: nat, c: nat)
    requires IsRun(alg, ss, acts) && k < |ss| && c < |ss[k].cpus| && ss[k].cpus[c].Switched?
    ensures var s, cpu := ss[k], ss[k].cpus[c];
            && cpu.p < |s.slots| == |cpu.seen| && FirstLeast(cpu.seen, cpu.p, Key(alg, s.slots[cpu.p].raw))
            && forall i :: 0 <= i < |s.slots| ==> (s.slots[i].owner == c <==> i == cpu.p)
  {
    RunKeepsInv(alg, ss, acts, k);
    var s := ss[k];
    assert ScanOk(alg, s, s.cpus[c]);
    forall i | 0 <= i < |s.slots| ensures s.slots[i].owner == c <==> i == s.cpus[c].p {
      assert LocksOk(s, c, i);
    }
  }

  function SeenOf(cpu: Cpu): seq<Seen> {
    if cpu.Before? || cpu.Holding? || cpu.Switched? then cpu.seen else []
  }

  lemma SeenStep(alg: Alg, s: State, a: Step, c: nat)
    requires Inv(alg, s) && Enabled(s, a) && c < |s.cpus|
    ensures |Next(alg, s, a).cpus| == |s.cpus|
    ensures var was, now := SeenOf(s.cpus[c]), SeenOf(Next(alg, s, a).cpus[c]);
            if a == Judge(c) then |was| == s.cpus[c].i && now == was + [Found(alg, s.slots[|was|])]
                else now == was || now == []
    ensures a == Begin(c) ==> SeenOf(Next(alg, s, a).cpus[c]) == []
  {
    assert ScanOk(alg, s, s.cpus[c]);
  }

  /** An entry of `seen` is new, or was there before the step. */
  lemma SeenBefore(alg: Alg, s: State, a: Step, c: nat, j: nat)
    requires Inv(alg, s) && Enabled(s, a) && c < |s.cpus| && |Next(alg, s, a).cpus| == |s.cpus|
    requires j < |SeenOf(Next(alg, s, a).cpus[c])|
    ensures a != Begin(c) && (a == Judge(c) ==> s.cpus[c].Holding?)
    ensures var was, now := SeenOf(s.cpus[c]), SeenOf(Next(alg, s, a).cpus[c]);
            if a == Judge(c) && j == s.cpus[c].i
            then j < |s.slots| && s.slots[j].owner == c && now[j] == Found(alg, s.slots[j])
            else j < |was| && now[j] == was[j]
  {
    hide Next, ScanOk, Apart, Key;
    SeenStep(alg, s, a, c);
    if a == Judge(c) {
      assert LocksOk(s, c, s.cpus[c].i);
    }
  }

  /** What a scan has in `seen` is what each slot was when this CPU held its lock during this same scan. */
  lemma {:induction false} SeenIsHistory(alg: Alg, ss: seq<State>, acts: seq<Step>, k: nat, c: nat, j: nat)
    returns (m: nat)
    requires IsRun(alg, ss, acts) && k < |ss| && c < |ss[k].cpus| && j < |SeenOf(ss[k].cpus[c])|
    ensures m < k && acts[m] == Judge(c) && c < |ss[m].cpus| && ss[m].cpus[c].Holding?
            && ss[m].cpus[c].i == j < |ss[m].slots|
    ensures SeenOf(ss[k].cpus[c])[j] == Found(alg, ss[m].slots[j]) && ss[m].slots[j].owner == c
    ensures forall n :: m <= n < k ==> acts[n] != Begin(c)
    decreases k
  {
    hide Next, Enabled, ScanOk, Apart, Key, Found;
    if k == 0 {
      assert false;
    } else {
      RunKeepsInv(alg, ss, acts, k - 1);
      assert Moves(alg, ss[k - 1], acts[k - 1], ss[k]);
      hide Inv;
      SameCpus(alg, ss[k - 1], acts[k - 1]);
      SeenBefore(alg, ss[k - 1], acts[k - 1], c, j);
      if acts[k - 1] == Judge(c) && j == ss[k - 1].cpus[c].i {
        m := k - 1;
      } else {
        m := SeenIsHistory(alg, ss, acts, k - 1, c, j);
      }
    }
  }

  lemma SameCpus(alg: Alg, s: State, a: Step)
    requires Enabled(s, a)
    ensures |Next(alg, s, a).cpus| == |s.cpus|
  {
  }

  /** No process runs on two CPUs at once. */
  lemma RunsOnOneCpu(alg: Alg, ss: seq<State>, acts: seq<Step>, k: nat, c: nat, d: nat)
    requires IsRun(alg, ss, acts) && k < |ss| && c < |ss[k].cpus| && d < |ss[k].cpus| && c != d
    requires (ss[k].cpus[c].Runs? || ss[k].cpus[c].Switched?) && (ss[k].cpus[d].Runs? || ss[k].cpus[d].Switched?)
    ensures ss[k].cpus[c].p != ss[k].cpus[d].p
  {
    RunKeepsInv(alg, ss, acts, k);
    assert Apart(ss[k].cpus[c], ss[k].cpus[d]);
  }

  /** CPU `c` is in process `i`. */
  predicate Has(cpu: Cpu, i: nat) {
    (cpu.Runs? || cpu.Switched?) && cpu.p == i
  }

  ghost predicate OnSomeCpu(s: State, i: nat) {
    exists c :: 0 <= c < |s.cpus| && Has(s.cpus[c], i)
  }

  lemma StaysOnCpu(alg: Alg, s: State, a: Step, i: nat)
    requires Inv(alg, s) && Enabled(s, a) && i < |s.slots| && (s.slots[i].status == Running ==> OnSomeCpu(s, i))
    ensures var s' := Next(alg, s, a);
            |s'.slots| == |s.slots| && (s'.slots[i].status == Running ==> OnSomeCpu(s', i))
  {
    var s' := Next(alg, s, a);
    assert ScanOk(alg, s, s.cpus[a.c]);
    if s.slots[i].status == Running {
      var d :| 0 <= d < |s.cpus| && Has(s.cpus[d], i);
      if s'.slots[i].status == Running {
        assert Has(s'.cpus[d], i);
      }
    } else if a.Finish? {
      assert s.cpus[a.c].best == i ==> Has(s'.cpus[a.c], i);
    }
  }

  /** In every run a process is RUNNING exactly while some CPU is in it. */
  lemma {:induction false} RunningMeansOnCpu(alg: Alg, ss: seq<State>, acts: seq<Step>, k: nat, i: nat)
    requires IsRun(alg, ss, acts) && k < |ss| && i < |ss[k].slots|
    ensures ss[k].slots[i].status == Running <==> OnSomeCpu(ss[k], i)
    decreases k
  {
    hide Next, Enabled;
    RunKeepsInv(alg, ss, acts, k);
    if OnSomeCpu(ss[k], i) {
      var c :| 0 <= c < |ss[k].cpus| && Has(ss[k].cpus[c], i);
      assert ScanOk(alg, ss[k], ss[k].cpus[c]);
    }
    if k > 0 {
      RunKeepsInv(alg, ss, acts, k - 1);
      assert Moves(alg, ss[k - 1], acts[k - 1], ss[k]);
      SlotCount(alg, ss[k - 1], acts[k - 1]);
      RunningMeansOnCpu(alg, ss, acts, k - 1, i);
      StaysOnCpu(alg, ss[k - 1], acts[k - 1], i);
    }
  }

  /** The lock of slot `i` is never taken by a CPU that already has it: `acquire` cannot panic in a scan. */
  lemma NeverTakesTwice(alg: Alg, ss: seq<State>, acts: seq<Step>, k: nat, c: nat)
    requires IsRun(alg, ss, acts) && k < |ss| && Stuck(ss[k], c)
    ensures ss[k].slots[ss[k].cpus[c].i].owner != c
  {
    RunKeepsInv(alg, ss, acts, k);
    var i := ss[k].cpus[c].i;
    assert ScanOk(alg, ss[k], ss[k].cpus[c]) && LocksOk(ss[k], c, i);
  }

  /** In every run a CPU that has passed all slots switches to a process if and only if it found one runnable; that
      process is Running then, was Runnable until then, and is the first with the least key. With none it rests. */
  lemma FinishSwitchesIffReady(alg: Alg, ss: seq<State>, acts: seq<Step>, k: nat, c: nat)
    requires IsRun(alg, ss, acts) && k < |acts| && acts[k] == Finish(c)
    ensures c < |ss[k].cpus| && c < |ss[k + 1].cpus| && ss[k].cpus[c].Before?
    ensures var seen, cpu := ss[k].cpus[c].seen, ss[k + 1].cpus[c];
            && |seen| == |ss[k].slots| == |ss[k + 1].slots|
            && (cpu.Switched? <==> exists j :: 0 <= j < |seen| && seen[j].Ready?)
            && (cpu.Switched? ==>
                  && cpu.p < |seen| && cpu.seen == seen && seen[cpu.p].Ready?
                      && FirstLeast(seen, cpu.p, seen[cpu.p].key)
                  && ss[k].slots[cpu.p].status == Runnable && ss[k + 1].slots[cpu.p].status == Running
                  && ss[k + 1].slots[cpu.p].owner == c)
            && (!cpu.Switched? ==> cpu == Resting && ss[k + 1].slots == ss[k].slots)
  {
    RunKeepsInv(alg, ss, acts, k);
    RunKeepsInv(alg, ss, acts, k + 1);
    assert Moves(alg, ss[k], acts[k], ss[k + 1]);
    assert ScanOk(alg, ss[k], ss[k].cpus[c]);
    var cpu := ss[k + 1].cpus[c];
    if cpu.Switched? {
      assert ScanOk(alg, ss[k + 1], cpu) && LocksOk(ss[k + 1], c, cpu.p);
    }
  }

  /** A dynamic priority is brought into 0..100 without changing which of two comes first; a creation time is kept. */
  lemma KeyClamps(raw: int, raw': int)
    ensures 0 <= Key(Pbs, raw) <= 100 && (0 <= raw <= 100 ==> Key(Pbs, raw) == raw) && Key(Fcfs, raw) == raw
    ensures raw <= raw' ==> Key(Pbs, raw) <= Key(Pbs, raw')
  {
  }

  // ----- What a step does -----

  /** A process starts to run only when a CPU ends its scan on it, and stops only when it returns to the scheduler, in
      the state it has set; else its slot changes only by a change made under its lock. */
  lemma SlotMoves(alg: Alg, s: State, a: Step, i: nat)
    requires Inv(alg, s) && Enabled(s, a) && i < |s.slots|
    ensures |Next(alg, s, a).slots| == |s.slots|
    ensures var x, y, cpu := s.slots[i], Next(alg, s, a).slots[i], s.cpus[a.c];
            && (if a.Finish? && cpu.best == i then x.status == Runnable && y.status == Running
                else if a.ProcReturns? && cpu.p == i then x.status == Running && y.status == a.status
                else if a.Touch? && a.i == i then y == a.slot
                else y.status == x.status)
            && (!(a.Touch? && a.i == i) ==> y.raw == x.raw)
  {
    assert ScanOk(alg, s, s.cpus[a.c]);
  }

  /** How many steps a CPU has left before it switches, runs or rests, at most. */
  function Left(s: State, c: nat): nat
    requires c < |s.cpus|
  {
    var n := |s.slots|;
    match s.cpus[c]
    case Before(i, _, _, _) => (if i < n then 2 * (n - i) else 0) + 2
    case Holding(i, _, _, _) => (if i < n then 2 * (n - i) else 2) + 1
    case Switched(_, _) => 1
    case Back(_) => 1
    case _ => 0
  }

  /** A scan takes two steps for each slot; its end, and the release of a lock after it, one more each. */
  lemma ScansComeToAnEnd(alg: Alg, s: State, a: Step)
    requires Inv(alg, s) && Enabled(s, a) && !a.Touch?
    ensures |Next(alg, s, a).cpus| == |s.cpus|
    ensures var before, after := Left(s, a.c), Left(Next(alg, s, a), a.c);
            if a.Begin? then after == 2 * |s.slots| + 2
            else if a.ProcReturns? then before == 0 && after == 1
            else after < before
  {
    assert ScanOk(alg, s, s.cpus[a.c]);
  }
}
