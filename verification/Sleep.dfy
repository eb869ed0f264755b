/** `sleep`, `wakeup` and `kill` of kernel/proc.c as the interleaved steps of any number of processes. A
    process takes one lock or writes one field at a time. */
module Sleep {
  /** A wait channel, with the lock that protects its condition. */
  datatype Chan = Chan(lk: nat, id: nat)

  datatype Waiting = None | On(c: Chan)

  datatype Status = Runnable | Running | Sleeping

  /** Where a process is. `Elsewhere` is any other code; the next six follow `sleep` up to the switch. */
  datatype Pc =
    | Elsewhere
    | Tested(c: Chan)      // holds c.lk and has found its condition false
    | OwnTaken(c: Chan)    // p->lock taken
    | LetGo(c: Chan)       // c.lk released
    | ChanSet(c: Chan)     // p->chan set
    | Asleep(c: Chan)      // p->state set, not switched out yet
    | Off(c: Chan)         // switched out; the scheduler has released p->lock
    | Back(c: Chan)        // switched in, holding p->lock
    | Tidied(c: Chan)      // p->chan cleared
    | Retake(c: Chan)      // p->lock released
    | Waking(c: Chan, i: nat)   // in wakeup(c), before slot i
    | WakingAt(c: Chan, i: nat) // holding the lock of slot i
    | Killing(i: nat)           // in kill, before slot i
    | KillingAt(i: nat)

  datatype Proc = Proc(pc: Pc, status: Status, chan: Waiting, seen: nat)

  /** `lks` and `own` say who holds which condition lock and which process lock. `epoch` counts the wakeups
      issued on a channel; a process has in `seen` the count when it last tested its condition. */
  datatype State = State(procs: seq<Proc>, lks: map<nat, nat>, own: map<nat, nat>, epoch: map<Chan, nat>)

  function Epoch(s: State, c: Chan): nat {
    if c in s.epoch then s.epoch[c] else 0
  }

  /** Steps of process `p`; `Dispatch` and `Preempt` are the scheduler's. */
  datatype Step =
    | Acquire(p: nat, l: nat) | Release(p: nat, l: nat)
    | Test(p: nat, c: Chan) | Advance(p: nat)
    | Wakeup(p: nat, c: Chan) | Kill(p: nat) | Hit(p: nat)
    | Dispatch(p: nat) | Preempt(p: nat)

  function Put(s: State, p: nat, pr: Proc): State
    requires p < |s.procs|
  {
    s.(procs := s.procs[p := pr])
  }

  /** The next step of a process inside `sleep`, `wakeup` or `kill` is possible. */
  predicate CanAdvance(s: State, p: nat)
    requires p < |s.procs|
  {
    match s.procs[p].pc
    case Elsewhere => false
    case Tested(c) => p !in s.own
    case Off(c) => false
    case Retake(c) => c.lk !in s.lks
    case Waking(c, i) => i < |s.procs| && i != p ==> i !in s.own
    case WakingAt(c, i) => i < |s.procs|
    case Killing(i) => i < |s.procs| ==> i !in s.own
    case _ => true
  }

  /** `acquire`, test, set, `release` of one slot in `wakeup` and in `kill`. */
  function Roused(s: State, i: nat, wake: bool): State
    requires i < |s.procs|
  {
    var s' := s.(own := s.own - {i});
    if wake && s.procs[i].status == Sleeping then Put(s', i, s.procs[i].(status := Runnable)) else s'
  }

  function Advanced(s: State, p: nat): State
    requires p < |s.procs| && CanAdvance(s, p)
  {
    var pr := s.procs[p];
    match pr.pc
    case Tested(c) => Put(s, p, pr.(pc := OwnTaken(c))).(own := s.own[p := p])
    case OwnTaken(c) => Put(s, p, pr.(pc := LetGo(c))).(lks := s.lks - {c.lk})
    case LetGo(c) => Put(s, p, pr.(pc := ChanSet(c), chan := On(c)))
    case ChanSet(c) => Put(s, p, pr.(pc := Asleep(c), status := Sleeping))
    case Asleep(c) => Put(s, p, pr.(pc := Off(c))).(own := s.own - {p})
    case Back(c) => Put(s, p, pr.(pc := Tidied(c), chan := None))
    case Tidied(c) => Put(s, p, pr.(pc := Retake(c))).(own := s.own - {p})
    case Retake(c) => Put(s, p, pr.(pc := Elsewhere)).(lks := s.lks[c.lk := p])
    case Waking(c, i) =>
      if i >= |s.procs| then Put(s, p, pr.(pc := Elsewhere))
      else if i == p then Put(s, p, pr.(pc := Waking(c, i + 1)))
      else Put(s, p, pr.(pc := WakingAt(c, i))).(own := s.own[i := p])
    case WakingAt(c, i) => Roused(Put(s, p, pr.(pc := Waking(c, i + 1))), i, s.procs[i].chan == On(c))
    case Killing(i) =>
      if i >= |s.procs| then Put(s, p, pr.(pc := Elsewhere))
          else Put(s, p, pr.(pc := KillingAt(i))).(own := s.own[i := p])
    case KillingAt(i) => Put(s, p, pr.(pc := Killing(i + 1))).(own := s.own - {i})
    case _ => s
  }

  /** Only a process that is running steps. `Test` and `Wakeup` are made holding the channel's lock: the caller
      of `wakeup` changes the condition and wakes its channel in one critical section. `Hit` is `kill` finding
      its victim. */
  predicate Enabled(s: State, a: Step) {
    && a.p < |s.procs|
    && var pr := s.procs[a.p];
       match a
       case Acquire(p, l) => pr.status == Running && pr.pc == Elsewhere && l !in s.lks
       case Release(p, l) => pr.status == Running && pr.pc == Elsewhere && l in s.lks && s.lks[l] == p
       case Test(p, c) => pr.status == Running && pr.pc == Elsewhere && c.lk in s.lks && s.lks[c.lk] == p
       case Advance(p) => (pr.status == Running || pr.pc.Asleep?) && CanAdvance(s, p)
       case Wakeup(p, c) => pr.status == Running && pr.pc == Elsewhere && c.lk in s.lks && s.lks[c.lk] == p
       case Kill(p) => pr.status == Running && pr.pc == Elsewhere
       case Hit(p) => pr.status == Running && pr.pc.KillingAt? && pr.pc.i < |s.procs|
       case Dispatch(p) => pr.status == Runnable && p !in s.own && (pr.pc.Off? || pr.pc == Elsewhere)
       case Preempt(p) => pr.status == Running && pr.pc == Elsewhere && p !in s.own
  }

  function Next(s: State, a: Step): State
    requires Enabled(s, a)
  {
    var pr := s.procs[a.p];
    match a
    case Acquire(p, l) => s.(lks := s.lks[l := p])
    case Release(p, l) => s.(lks := s.lks - {l})
    case Test(p, c) => Put(s, p, pr.(pc := Tested(c), seen := Epoch(s, c)))
    case Advance(p) => Advanced(s, p)
    case Wakeup(p, c) => Put(s, p, pr.(pc := Waking(c, 0))).(epoch := s.epoch[c := Epoch(s, c) + 1])
    case Kill(p) => Put(s, p, pr.(pc := Killing(0)))
    case Hit(p) => Roused(Put(s, p, pr.(pc := Elsewhere)), pr.pc.i, true)
    case Dispatch(p) =>
      if pr.pc.Off? then Put(s, p, pr.(pc := Back(pr.pc.c), status := Running)).(own := s.own[p := p])
      else Put(s, p, pr.(status := Running))
    case Preempt(p) => Put(s, p, pr.(status := Runnable))
  }

  // ----- Invariant -----

  predicate HoldsLk(pc: Pc) {
    pc.Tested? || pc.OwnTaken? || pc.Waking? || pc.WakingAt?
  }

  predicate HoldsOwn(pc: Pc) {
    pc.OwnTaken? || pc.LetGo? || pc.ChanSet? || pc.Asleep? || pc.Back? || pc.Tidied?
  }

  predicate HoldsOther(pc: Pc) {
    pc.WakingAt? || pc.KillingAt?
  }

  /** Process `p` holds the locks its place says. */
  ghost predicate Locks(s: State, p: nat)
    requires p < |s.procs|
  {
    var pc := s.procs[p].pc;
    && (HoldsLk(pc) ==> pc.c.lk in s.lks && s.lks[pc.c.lk] == p)
    && (HoldsOwn(pc) ==> p in s.own && s.own[p] == p)
    && (HoldsOther(pc) ==> pc.i < |s.procs| && pc.i in s.own && s.own[pc.i] == p)
  }

  /** Its fields are what its place says. */
  predicate Fields(pr: Proc) {
    && (pr.pc.ChanSet? || pr.pc.Asleep? || pr.pc.Off? ==> pr.chan == On(pr.pc.c))
    && match pr.status
       case Sleeping => pr.pc.Asleep? || pr.pc.Off?
       case Runnable => pr.pc.Off? || pr.pc.Elsewhere?
       case Running => !pr.pc.Asleep? && !pr.pc.Off?
  }

  /** `pc` is in a wakeup of `c` that has not passed slot `p` yet. */
  predicate Covers(pc: Pc, c: Chan, p: nat) {
    (pc.Waking? || pc.WakingAt?) && pc.c == c && pc.i <= p
  }

  ghost predicate Coming(s: State, c: Chan, p: nat) {
    exists q :: 0 <= q < |s.procs| && Covers(s.procs[q].pc, c, p)
  }

  /** On the way into sleep, or asleep. */
  predicate Committed(pr: Proc) {
    pr.pc.LetGo? || pr.pc.ChanSet? || pr.pc.Asleep? || (pr.pc.Off? && pr.status == Sleeping)
  }

  /** From its test until it is woken, either no wakeup has been issued or one is still on its way to `p`. */
  ghost predicate Watched(s: State, p: nat)
    requires p < |s.procs|
  {
    var pr := s.procs[p];
    && (pr.pc.Tested? || pr.pc.OwnTaken? ==> pr.seen == Epoch(s, pr.pc.c))
    && (Committed(pr) ==> pr.seen == Epoch(s, pr.pc.c) || Coming(s, pr.pc.c, p))
  }

  ghost predicate Inv(s: State) {
    forall p :: 0 <= p < |s.procs| ==> Locks(s, p) && Fields(s.procs[p]) && Watched(s, p)
  }

  function Init(n: nat): State {
    State(seq(n, _ => Proc(Elsewhere, Runnable, None, 0)), map[], map[], map[])
  }

  lemma InitInv(n: nat)
    ensures Inv(Init(n))
  {
  }

  // ----- Every step keeps it -----

  /** What a step of `a.p` can do to another process: rouse it, when it is switched out. */
  lemma OthersChange(s: State, a: Step, q: nat)
    requires Inv(s) && Enabled(s, a) && q < |s.procs| && q != a.p
    ensures var s' := Next(s, a);
            && |s'.procs| == |s.procs| && Fields(s'.procs[q])
            && (s'.procs[q] == s.procs[q] || (s.procs[q].pc.Off? && s'.procs[q] == s.procs[q].(status := Runnable)))
  {
    hide Watched;
    assert Locks(s, a.p) && Locks(s, q) && Fields(s.procs[q]);
  }

  lemma OwnFieldsKept(s: State, a: Step)
    requires Inv(s) && Enabled(s, a)
    ensures |Next(s, a).procs| == |s.procs| && Fields(Next(s, a).procs[a.p])
  {
    hide Watched, Locks;
    assert Fields(s.procs[a.p]);
    OwnChange(s, a);
    if a.Advance? && !Scanning(s.procs[a.p].pc) {
      SleepKeepsFields(s, a.p);
    }
  }

  lemma SleepKeepsFields(s: State, p: nat)
    requires p < |s.procs| && Fields(s.procs[p]) && Enabled(s, Advance(p)) && !Scanning(s.procs[p].pc)
    ensures |Advanced(s, p).procs| == |s.procs| && Fields(Advanced(s, p).procs[p])
  {
    SleepChange(s, p);
  }

  /** One step of `sleep`, as the process's own record shows it. */
  function Later(pr: Proc): Proc {
    match pr.pc
    case Tested(c) => pr.(pc := OwnTaken(c))
    case OwnTaken(c) => pr.(pc := LetGo(c))
    case LetGo(c) => pr.(pc := ChanSet(c), chan := On(c))
    case ChanSet(c) => pr.(pc := Asleep(c), status := Sleeping)
    case Asleep(c) => pr.(pc := Off(c))
    case Back(c) => pr.(pc := Tidied(c), chan := None)
    case Tidied(c) => pr.(pc := Retake(c))
    case Retake(c) => pr.(pc := Elsewhere)
    case _ => pr
  }

  lemma SleepChange(s: State, p: nat)
    requires p < |s.procs| && Enabled(s, Advance(p)) && !Scanning(s.procs[p].pc)
    ensures |Advanced(s, p).procs| == |s.procs| && Advanced(s, p).procs[p] == Later(s.procs[p])
  {
  }

  /** What a step does to the process that makes it, the steps of `sleep` apart. */
  lemma OwnChange(s: State, a: Step)
    requires Enabled(s, a) && Fields(s.procs[a.p])
    ensures |Next(s, a).procs| == |s.procs|
    ensures var pr, pr' := s.procs[a.p], Next(s, a).procs[a.p];
            if a.Advance? && !Scanning(pr.pc) then true
            else if a.Test? then pr' == pr.(pc := Tested(a.c), seen := Epoch(s, a.c))
            else if a.Preempt? then pr' == pr.(status := Runnable) && pr.pc.Elsewhere?
            else if a.Dispatch? then pr'.status == Running && (pr'.pc.Back? || pr'.pc.Elsewhere?)
            else pr'.status == Running == pr.status && (Scanning(pr'.pc) || pr'.pc.Elsewhere?)
  {
    if a.Advance? && Scanning(s.procs[a.p].pc) {
      ScanChange(s, a.p);
    }
  }

  lemma ScanChange(s: State, p: nat)
    requires Enabled(s, Advance(p)) && Scanning(s.procs[p].pc)
    ensures |Advanced(s, p).procs| == |s.procs|
    ensures var pr' := Advanced(s, p).procs[p]; pr'.status == Running && (Scanning(pr'.pc) || pr'.pc.Elsewhere?)
  {
  }

  predicate Scanning(pc: Pc) {
    pc.Waking? || pc.WakingAt? || pc.Killing? || pc.KillingAt?
  }

  lemma LocksKeptInSleep(s: State, p: nat, q: nat)
    requires Inv(s) && Enabled(s, Advance(p)) && !Scanning(s.procs[p].pc) && q < |s.procs|
    ensures |Advanced(s, p).procs| == |s.procs| && Locks(Advanced(s, p), q)
  {
    hide Watched, Fields;
    assert Locks(s, p) && Locks(s, q);
  }

  lemma LocksKeptInScan(s: State, p: nat, q: nat)
    requires Inv(s) && Enabled(s, Advance(p)) && Scanning(s.procs[p].pc) && q < |s.procs|
    ensures |Advanced(s, p).procs| == |s.procs| && Locks(Advanced(s, p), q)
  {
    hide Watched, Fields;
    assert Locks(s, p) && Locks(s, q);
  }

  lemma LocksKept(s: State, a: Step, q: nat)
    requires Inv(s) && Enabled(s, a) && q < |s.procs|
    ensures |Next(s, a).procs| == |s.procs| && Locks(Next(s, a), q)
  {
    if a.Advance? {
      if Scanning(s.procs[a.p].pc) {
        LocksKeptInScan(s, a.p, q);
      } else {
        LocksKeptInSleep(s, a.p, q);
      }
    } else {
      OtherKeepsLocks(s, a, q);
    }
  }

  lemma OtherKeepsLocks(s: State, a: Step, q: nat)
    requires Inv(s) && Enabled(s, a) && !a.Advance? && q < |s.procs|
    ensures |Next(s, a).procs| == |s.procs| && Locks(Next(s, a), q)
  {
    hide Watched, Advanced;
    if a.Hit? {
      HitKeepsLocks(s, a, q);
    } else {
      assert Locks(s, a.p) && Locks(s, q) && Fields(s.procs[a.p]);
    }
  }

  lemma HitKeepsLocks(s: State, a: Step, q: nat)
    requires Inv(s) && Enabled(s, a) && a.Hit? && q < |s.procs|
    ensures |Next(s, a).procs| == |s.procs| && Locks(Next(s, a), q)
  {
    hide Watched, Advanced;
    assert Locks(s, a.p) && Locks(s, q);
  }

  /** A wakeup on its way stays so until it has dealt with slot `p`. */
  lemma ComingKept(s: State, a: Step, c: Chan, p: nat)
    requires Inv(s) && Enabled(s, a) && p < |s.procs| && Coming(s, c, p)
    ensures Coming(Next(s, a), c, p) || (a.Advance? && s.procs[a.p].pc == WakingAt(c, p))
            || (a.p == p && Scanning(s.procs[p].pc))
  {
    var q :| 0 <= q < |s.procs| && Covers(s.procs[q].pc, c, p);
    var s' := Next(s, a);
    if q != a.p {
      OthersChange(s, a, q);
      assert Covers(s'.procs[q].pc, c, p);
    } else if q != p {
      CoverMoves(s, a, c, p);
    }
  }

  lemma CoverMoves(s: State, a: Step, c: Chan, p: nat)
    requires Inv(s) && Enabled(s, a) && p < |s.procs| && Covers(s.procs[a.p].pc, c, p) && a.p != p
    ensures Coming(Next(s, a), c, p) || (a.Advance? && s.procs[a.p].pc == WakingAt(c, p))
  {
    hide Watched;
    var s' := Next(s, a);
    assert Locks(s, a.p) && Fields(s.procs[a.p]);
    assert Covers(s'.procs[a.p].pc, c, p) || s.procs[a.p].pc == WakingAt(c, p);
  }

  lemma EpochKept(s: State, a: Step, c: Chan)
    requires Inv(s) && Enabled(s, a) && !(a.Wakeup? && a.c == c)
    ensures Epoch(Next(s, a), c) == Epoch(s, c)
  {
  }

  lemma OwnWatchKept(s: State, a: Step)
    requires Inv(s) && Enabled(s, a)
    ensures |Next(s, a).procs| == |s.procs| && Watched(Next(s, a), a.p)
  {
    assert Watched(s, a.p) && Fields(s.procs[a.p]);
    var s' := Next(s, a);
    var pr, pr' := s.procs[a.p], s'.procs[a.p];
    OwnPath(s, a);
    if pr'.pc.Tested? || pr'.pc.OwnTaken? || Committed(pr') {
      var c := pr'.pc.c;
      EpochKept(s, a, c);
      if Coming(s, c, a.p) {
        ComingKept(s, a, c, a.p);
      }
    }
  }

  /** How a process gets to be tested or committed. */
  lemma OwnPath(s: State, a: Step)
    requires Inv(s) && Enabled(s, a)
    ensures |Next(s, a).procs| == |s.procs|
    ensures var pr, pr' := s.procs[a.p], Next(s, a).procs[a.p];
            && (pr'.pc.Tested? ==> a == Test(a.p, pr'.pc.c) && pr'.seen == Epoch(s, pr'.pc.c))
            && (pr'.pc.OwnTaken? || Committed(pr') ==>
                  (pr.pc.Tested? || pr.pc.OwnTaken? || Committed(pr)) && pr.pc.c == pr'.pc.c && pr.seen == pr'.seen
                      && a.Advance?)
  {
    hide Watched, Locks;
    assert Fields(s.procs[a.p]);
    OwnChange(s, a);
    if a.Advance? && !Scanning(s.procs[a.p].pc) {
      SleepPath(s, a.p);
    }
  }

  lemma SleepPath(s: State, p: nat)
    requires Enabled(s, Advance(p)) && Fields(s.procs[p]) && !Scanning(s.procs[p].pc)
    ensures |Advanced(s, p).procs| == |s.procs|
    ensures var pr, pr' := s.procs[p], Advanced(s, p).procs[p];
            && !pr'.pc.Tested?
            && (pr'.pc.OwnTaken? || Committed(pr') ==>
                  (pr.pc.Tested? || pr.pc.OwnTaken? || Committed(pr)) && pr.pc.c == pr'.pc.c && pr.seen == pr'.seen)
  {
    SleepChange(s, p);
  }

  lemma OtherWatchKept(s: State, a: Step, q: nat)
    requires Inv(s) && Enabled(s, a) && q < |s.procs| && q != a.p
    ensures |Next(s, a).procs| == |s.procs| && Watched(Next(s, a), q)
  {
    assert Watched(s, q) && Locks(s, q) && Locks(s, a.p);
    OthersChange(s, a, q);
    var s', pr := Next(s, a), s.procs[q];
    if s'.procs[q] == pr && (pr.pc.Tested? || pr.pc.OwnTaken? || Committed(pr)) {
      var c := pr.pc.c;
      if a == Wakeup(a.p, c) {
        assert Covers(s'.procs[a.p].pc, c, q);
      } else {
        EpochKept(s, a, c);
        if Coming(s, c, q) {
          ComingKept(s, a, c, q);
          if a.Advance? && s.procs[a.p].pc == WakingAt(c, q) && Committed(pr) {
            WakeReaches(s, a.p, q, c);
          }
        }
      }
    }
  }

  /** The wakeup that reaches slot `q` finds it asleep and rouses it. */
  lemma WakeReaches(s: State, p: nat, q: nat, c: Chan)
    requires Inv(s) && Enabled(s, Advance(p)) && q < |s.procs| && q != p
    requires s.procs[p].pc == WakingAt(c, q) && Committed(s.procs[q]) && s.procs[q].pc.c == c
    ensures Advanced(s, p).procs[q] == s.procs[q].(status := Runnable)
  {
    assert Locks(s, p) && Locks(s, q) && Fields(s.procs[q]);
  }

  lemma NextKeepsInv(s: State, a: Step)
    requires Inv(s) && Enabled(s, a)
    ensures Inv(Next(s, a))
  {
    hide Enabled, Next, Locks, Fields, Watched;
    OwnFieldsKept(s, a);
    forall q | 0 <= q < |s.procs|
      ensures Locks(Next(s, a), q) && Fields(Next(s, a).procs[q]) && Watched(Next(s, a), q)
    {
      LocksKept(s, a, q);
      if q == a.p {
        OwnWatchKept(s, a);
      } else {
        OtherWatchKept(s, a, q);
        OthersChange(s, a, q);
      }
    }
  }

  // ----- Whole runs -----

  predicate Moves(s: State, a: Step, s': State) {
    Enabled(s, a) && s' == Next(s, a)
  }

  /** From the start, one step after another. */
  ghost predicate IsRun(ss: seq<State>, acts: seq<Step>, n: nat) {
    |ss| == |acts| + 1 && ss[0] == Init(n) && forall k :: 0 <= k < |acts| ==> Moves(ss[k], acts[k], ss[k + 1])
  }

  lemma {:induction false} RunKeepsInv(ss: seq<State>, acts: seq<Step>, n: nat, k: nat)
    requires IsRun(ss, acts, n) && k < |ss|
    ensures Inv(ss[k])
    decreases k
  {
    if k == 0 {
      InitInv(n);
    } else {
      RunKeepsInv(ss, acts, n, k - 1);
      assert Moves(ss[k - 1], acts[k - 1], ss[k]);
      NextKeepsInv(ss[k - 1], acts[k - 1]);
    }
  }

  /** No lost wakeup: in every state of every run, while the lock of `c` is free, a process asleep on `c` has
      tested its condition after the last wakeup issued on `c`. */
  lemma NoLostWakeup(ss: seq<State>, acts: seq<Step>, n: nat, k: nat, p: nat, c: Chan)
    requires IsRun(ss, acts, n) && k < |ss| && p < |ss[k].procs|
    requires c.lk !in ss[k].lks && ss[k].procs[p].status == Sleeping && ss[k].procs[p].chan == On(c)
    ensures ss[k].procs[p].seen == Epoch(ss[k], c)
  {
    RunKeepsInv(ss, acts, n, k);
    var s := ss[k];
    assert Fields(s.procs[p]) && Watched(s, p);
    forall q | 0 <= q < |s.procs| ensures !Covers(s.procs[q].pc, c, p) {
      assert Locks(s, q);
    }
  }

  /** A process that calls `sched` from `sleep` holds its own lock and is not running: those panics are out of
      reach. */
  lemma SwitchesHoldingItsLock(ss: seq<State>, acts: seq<Step>, n: nat, k: nat, p: nat)
    requires IsRun(ss, acts, n) && k < |ss| && p < |ss[k].procs| && ss[k].procs[p].pc.Asleep?
    ensures p in ss[k].own && ss[k].own[p] == p && ss[k].procs[p].status == Sleeping
  {
    RunKeepsInv(ss, acts, n, k);
    assert Fields(ss[k].procs[p]) && Locks(ss[k], p);
  }

  // ----- Who wakes whom -----

  /** The step is a wakeup of the channel that `q` sleeps on, or a kill, at slot `q`. */
  predicate Wakes(s: State, a: Step, q: nat)
    requires q < |s.procs|
  {
    && a.p < |s.procs|
    && var pc := s.procs[a.p].pc;
       || (a.Advance? && pc.WakingAt? && pc.i == q && s.procs[q].chan == On(pc.c))
       || (a.Hit? && pc.KillingAt? && pc.i == q)
  }

  /** A step rouses a sleeping process if and only if it is a wakeup of its channel or a kill that has come to its
      slot; sleepers on other channels sleep on. A process falls asleep only by its own step. */
  lemma AsleepUntilWoken(s: State, a: Step, q: nat)
    requires Inv(s) && Enabled(s, a) && q < |s.procs|
    ensures |Next(s, a).procs| == |s.procs|
    ensures var pr, pr' := s.procs[q], Next(s, a).procs[q];
            && (pr.status == Sleeping ==>
                  && (pr'.status == if Wakes(s, a, q) then Runnable else Sleeping)
                  && pr'.chan == pr.chan && pr'.seen == pr.seen && (pr'.pc == pr.pc || pr'.pc == Off(pr.pc.c)))
            && (pr.status != Sleeping && pr'.status == Sleeping ==>
                  a == Advance(q) && pr.pc.ChanSet? && pr'.pc == Asleep(pr.pc.c) && pr'.chan == On(pr.pc.c))
  {
    hide Watched;
    assert Locks(s, a.p) && Locks(s, q) && Fields(s.procs[q]) && Fields(s.procs[a.p]);
    if a == Advance(q) {
      if Scanning(s.procs[q].pc) {
        ScanChange(s, q);
      } else {
        SleepChange(s, q);
      }
    }
  }

  /** In every run, a process asleep at moment `j` and not at moment `k` was woken by a wakeup of its channel or by a
      kill in between. */
  lemma {:induction false} NoSpuriousWakeup(ss: seq<State>, acts: seq<Step>, n: nat, j: nat, k: nat, q: nat)
    requires IsRun(ss, acts, n) && j <= k < |ss| && q < |ss[j].procs| && ss[j].procs[q].status == Sleeping
    requires forall i :: j <= i < k ==> q < |ss[i].procs| && !Wakes(ss[i], acts[i], q)
    ensures q < |ss[k].procs| && ss[k].procs[q].status == Sleeping && ss[k].procs[q].chan == ss[j].procs[q].chan
    decreases k
  {
    hide Next, Enabled, Wakes;
    if j < k {
      NoSpuriousWakeup(ss, acts, n, j, k - 1, q);
      RunKeepsInv(ss, acts, n, k - 1);
      assert Moves(ss[k - 1], acts[k - 1], ss[k]);
      AsleepUntilWoken(ss[k - 1], acts[k - 1], q);
    }
  }

  // ----- Who holds what -----

  /** Between releasing the condition lock and taking it again. */
  predicate AwayFromLk(pc: Pc) {
    pc.LetGo? || pc.ChanSet? || pc.Asleep? || pc.Off? || pc.Back? || pc.Tidied? || pc.Retake?
  }

  ghost predicate Away(s: State, p: nat)
    requires p < |s.procs|
  {
    var pc := s.procs[p].pc;
    AwayFromLk(pc) ==> !(pc.c.lk in s.lks && s.lks[pc.c.lk] == p)
  }

  /** A process lock that is held is held by a process whose place says so. */
  ghost predicate Held(s: State, i: nat) {
    i in s.own ==>
      && s.own[i] < |s.procs|
      && var pc := s.procs[s.own[i]].pc;
         (s.own[i] == i && HoldsOwn(pc)) || (HoldsOther(pc) && pc.i == i)
  }

  ghost predicate LocksExact(s: State) {
    (forall i: nat :: Held(s, i)) && forall p :: 0 <= p < |s.procs| ==> Away(s, p)
  }

  lemma HeldKept(s: State, a: Step, i: nat)
    requires Inv(s) && Enabled(s, a) && Held(s, i)
    ensures Held(Next(s, a), i)
  {
    hide Watched;
    assert Locks(s, a.p) && Fields(s.procs[a.p]);
    if i in s.own && s.own[i] != a.p {
      OthersChange(s, a, s.own[i]);
    }
    if a.Advance? {
      HeldAdvanced(s, a.p, i);
    }
  }

  lemma HeldAdvanced(s: State, p: nat, i: nat)
    requires Inv(s) && Enabled(s, Advance(p)) && Held(s, i)
    ensures Held(Advanced(s, p), i)
  {
    hide Watched;
    assert Locks(s, p) && Fields(s.procs[p]);
    if i in s.own && s.own[i] != p {
      OthersChange(s, Advance(p), s.own[i]);
      assert Locks(s, s.own[i]);
    }
  }

  lemma AwayKept(s: State, a: Step, q: nat)
    requires Inv(s) && Enabled(s, a) && q < |s.procs| && Away(s, q)
    ensures |Next(s, a).procs| == |s.procs| && Away(Next(s, a), q)
  {
    hide Watched;
    assert Locks(s, a.p) && Fields(s.procs[a.p]);
    if q != a.p {
      OthersChange(s, a, q);
    }
  }

  lemma {:induction false} RunKeepsLocksExact(ss: seq<State>, acts: seq<Step>, n: nat, k: nat)
    requires IsRun(ss, acts, n) && k < |ss|
    ensures LocksExact(ss[k])
    decreases k
  {
    hide Next, Enabled, Held, Away;
    if k == 0 {
      NothingHeld(n);
    } else {
      RunKeepsLocksExact(ss, acts, n, k - 1);
      RunKeepsInv(ss, acts, n, k - 1);
      var s, a := ss[k - 1], acts[k - 1];
      assert Moves(s, a, ss[k]);
      OwnFieldsKept(s, a);
      forall i: nat ensures Held(ss[k], i) {
        HeldKept(s, a, i);
      }
      forall p | 0 <= p < |ss[k].procs| ensures Away(ss[k], p) {
        AwayKept(s, a, p);
      }
    }
  }

  lemma NothingHeld(n: nat)
    ensures LocksExact(Init(n))
  {
  }

  /** In every run, a process in `sleep` holds the condition lock exactly up to the moment it lets go, while it is away
      it does not, and it comes back holding it, running, with its channel cleared. */
  lemma SleepReturnsHolding(ss: seq<State>, acts: seq<Step>, n: nat, k: nat, p: nat)
    requires IsRun(ss, acts, n) && k < |acts| && p < |ss[k].procs| && acts[k] == Advance(p)
    ensures p < |ss[k + 1].procs|
    ensures ss[k].procs[p].pc.Retake? ==>
              var c, s', pr' := ss[k].procs[p].pc.c, ss[k + 1], ss[k + 1].procs[p];
              && !(c.lk in ss[k].lks && ss[k].lks[c.lk] == p)
              && pr'.pc == Elsewhere && pr'.status == Running && c.lk in s'.lks && s'.lks[c.lk] == p
    ensures ss[k].procs[p].pc.OwnTaken? ==>
              var c, s' := ss[k].procs[p].pc.c, ss[k + 1];
              && c.lk in ss[k].lks && ss[k].lks[c.lk] == p && c.lk !in s'.lks && p in s'.own && s'.own[p] == p
    ensures ss[k].procs[p].pc.Tidied? ==> ss[k].procs[p].status == Running && p !in ss[k + 1].own
    ensures ss[k].procs[p].pc.Back? ==> ss[k + 1].procs[p].chan == None
  {
    RunKeepsInv(ss, acts, n, k);
    RunKeepsLocksExact(ss, acts, n, k);
    assert Moves(ss[k], acts[k], ss[k + 1]);
    assert Locks(ss[k], p) && Fields(ss[k].procs[p]) && Away(ss[k], p);
    if !Scanning(ss[k].procs[p].pc) {
      SleepChange(ss[k], p);
    } else {
      ScanChange(ss[k], p);
    }
  }

  // ----- Progress -----

  /** How many steps a process has left in the part of `sleep`, `wakeup` or `kill` it is in, at most. */
  function Left(s: State, p: nat): nat
    requires p < |s.procs|
  {
    var n := |s.procs|;
    match s.procs[p].pc
    case Tested(_) => 5
    case OwnTaken(_) => 4
    case LetGo(_) => 3
    case ChanSet(_) => 2
    case Asleep(_) => 1
    case Back(_) => 3
    case Tidied(_) => 2
    case Retake(_) => 1
    case Waking(_, i) => (if i < n then 2 * (n - i) else 0) + 1
    case WakingAt(_, i) => if i < n then 2 * (n - i) else 2
    case Killing(i) => (if i < n then 2 * (n - i) else 0) + 1
    case KillingAt(i) => if i < n then 2 * (n - i) else 2
    case _ => 0
  }

  /** A wakeup and a kill look at every slot, and every step brings the process nearer the end of its call. */
  lemma StepsComeToAnEnd(s: State, a: Step)
    requires Inv(s) && Enabled(s, a)
    ensures |Next(s, a).procs| == |s.procs|
    ensures var before, after := Left(s, a.p), Left(Next(s, a), a.p);
            && (a.Wakeup? || a.Kill? ==> after == 2 * |s.procs| + 1)
            && (a.Test? ==> after == 5) && (a.Advance? || a.Hit? ==> after < before)
            && (a.Dispatch? && s.procs[a.p].pc.Off? ==> after == 3)
  {
    hide Watched, Advanced;
    assert Locks(s, a.p) && Fields(s.procs[a.p]);
    if a.Advance? {
      AdvanceEnds(s, a.p);
    }
  }

  lemma AdvanceEnds(s: State, p: nat)
    requires Inv(s) && Enabled(s, Advance(p))
    ensures |Advanced(s, p).procs| == |s.procs| && Left(Advanced(s, p), p) < Left(s, p)
  {
    hide Watched;
    assert Locks(s, p) && Fields(s.procs[p]);
    if !Scanning(s.procs[p].pc) {
      SleepChange(s, p);
    }
  }

  /** A condition lock is taken only when it is free and given up only by its holder: by `acquire` and `release`, and
      by `sleep`, which lets go of it and takes it again. */
  lemma LkMoves(s: State, a: Step, l: nat)
    requires Inv(s) && Enabled(s, a)
    ensures var s', pc := Next(s, a), s.procs[a.p].pc;
            var takes := a == Acquire(a.p, l) || (a.Advance? && pc.Retake? && pc.c.lk == l);
            var drops := a == Release(a.p, l) || (a.Advance? && pc.OwnTaken? && pc.c.lk == l);
            && (takes ==> l !in s.lks && l in s'.lks && s'.lks[l] == a.p)
            && (drops ==> l in s.lks && s.lks[l] == a.p && l !in s'.lks)
            && (!takes && !drops ==> (l in s'.lks <==> l in s.lks) && (l in s.lks ==> s'.lks[l] == s.lks[l]))
  {
    hide Watched, Fields;
    assert Locks(s, a.p);
  }

  /** In every run, a process inside `sleep`, `wakeup` or `kill` that is not switched out can make its next step, or
      waits for the lock of a process whose holder can. (`sleep` taking its condition lock again may wait for any
      code that holds it.) */
  lemma NobodyStuck(ss: seq<State>, acts: seq<Step>, n: nat, k: nat, p: nat) returns (q: nat)
    requires IsRun(ss, acts, n) && k < |ss| && p < |ss[k].procs|
    requires var pc := ss[k].procs[p].pc; !pc.Elsewhere? && !pc.Off? && !pc.Retake?
    ensures q < |ss[k].procs| && Enabled(ss[k], Advance(q))
    ensures q == p || exists i: nat :: i in ss[k].own && ss[k].own[i] == q
  {
    var s := ss[k];
    RunKeepsInv(ss, acts, n, k);
    RunKeepsLocksExact(ss, acts, n, k);
    var pc := s.procs[p].pc;
    assert Locks(s, p) && Fields(s.procs[p]);
    if CanAdvance(s, p) {
      q := p;
    } else {
      var i: nat := if pc.Tested? then p else pc.i;
      assert i in s.own && Held(s, i);
      q := s.own[i];
      assert Locks(s, q) && Fields(s.procs[q]);
    }
  }

  /** A running process takes any lock that is free, tests and wakes under the lock it holds, and may kill; one that is
      runnable is dispatched once its lock is free. */
  lemma CallsAreOpen(s: State, p: nat, c: Chan)
    requires Inv(s) && p < |s.procs|
    ensures var pr := s.procs[p]; pr.status == Running && pr.pc == Elsewhere ==>
              && (Enabled(s, Acquire(p, c.lk)) <==> c.lk !in s.lks) && Enabled(s, Kill(p))
              && (Enabled(s, Test(p, c)) <==> c.lk in s.lks && s.lks[c.lk] == p)
              && (Enabled(s, Wakeup(p, c)) <==> c.lk in s.lks && s.lks[c.lk] == p)
              && (Enabled(s, Release(p, c.lk)) <==> c.lk in s.lks && s.lks[c.lk] == p)
    ensures s.procs[p].status == Runnable ==> (Enabled(s, Dispatch(p)) <==> p !in s.own)
  {
    hide Watched, Locks;
    assert Fields(s.procs[p]);
  }
}
