/** `fork`, `exit`, `reparent`, `wait` and `waitx` of kernel/proc.c over the process table, as interleaved steps
    under `wait_lock` and the process locks. Slot 0 is init. */
module ExitWait {
  const INIT: nat := 0

  datatype Status = Unused | Used | Awake | Sleeping | Zombie

  /** Where the process in a slot is. Those marked * hold wait_lock. */
  datatype Pc =
    | Outside
    | Embryo(forker: nat)           // allocated by a fork that has not finished
    | Forking(c: nat)               // child allocated, parent field not set
    | Forked(c: nat)                // parent set, child not runnable yet
    | Reparenting(i: nat)           // * in exit, before slot i
    | Handed(i: nat)                // * slot i given to init, which is not woken yet
    | Notifying                     // * about to wake the parent
    | Marking                       // * parent woken
    | Gone                          // zombie, still on its kernel stack, holding its own lock
    | Off                           // switched out for the last time
    | Scanning(i: nat, kids: bool)  // * in wait, before slot i
    | Deciding(kids: bool)          // * scan finished without a zombie
    | Drowsy                        // * about to sleep
    | Dozing                        // holds its own lock, wait_lock released
    | Dreaming                      // switched out in sleep

  datatype Proc = Proc(status: Status, pc: Pc, parent: int, pid: nat, killed: bool)

  /** `lock` is the holder of wait_lock, or -1. `exited` and `reaped` record the pids that became zombies and
      those that a wait returned. */
  datatype State = State(procs: seq<Proc>, lock: int, nextpid: nat, exited: set<nat>, reaped: seq<nat>)

  const VACANT := Proc(Unused, Outside, -1, 0, false)

  predicate HoldsWaitLock(pc: Pc) {
    pc.Reparenting? || pc.Handed? || pc.Notifying? || pc.Marking? || pc.Scanning? || pc.Deciding?
    || pc.Drowsy?
  }

  /** The slot's own lock is free as far as this protocol goes. */
  predicate OwnLockFree(pc: Pc) {
    !pc.Gone? && !pc.Dozing?
  }

  datatype Step =
    | Allocate(p: nat, c: nat) | ForkFails(p: nat) | SetParent(p: nat) | Start(p: nat)
    | Exit(p: nat) | Hand(p: nat) | WakeInit(p: nat) | Notify(p: nat) | Die(p: nat) | SwitchOut(p: nat)
    | Wait(p: nat) | Scan(p: nat) | Reap(p: nat) | CopyFails(p: nat) | GiveUp(p: nat) | Stay(p: nat)
    | Doze(p: nat) | Sleep(p: nat) | Kill(p: nat)

  function Put(s: State, p: nat, pr: Proc): State
    requires p < |s.procs|
  {
    s.(procs := s.procs[p := pr])
  }

  function At(s: State, p: nat, pc: Pc): State
    requires p < |s.procs|
  {
    Put(s, p, s.procs[p].(pc := pc))
  }

  /** `wakeup(&proc[q])`: nobody but `q` sleeps on that channel. */
  function Roused(s: State, q: nat): State
    requires q < |s.procs|
  {
    if s.procs[q].status == Sleeping then Put(s, q, s.procs[q].(status := Awake)) else s
  }

  /** In a scan, slot `i` is a child of `p`. */
  predicate ChildAt(s: State, p: nat, i: nat) {
    i < |s.procs| && s.procs[i].parent == p
  }

  predicate Enabled(s: State, a: Step) {
    && a.p < |s.procs|
    && var pr := s.procs[a.p];
       match a
       case Allocate(p, c) => pr.status == Awake && pr.pc == Outside && c < |s.procs| && s.procs[c].status == Unused
       case ForkFails(p) => pr.pc.Forking? && pr.pc.c < |s.procs|
       case SetParent(p) => pr.pc.Forking? && pr.pc.c < |s.procs| && s.lock == -1
       case Start(p) => pr.pc.Forked? && pr.pc.c < |s.procs|
       case Exit(p) => p != INIT && pr.status == Awake && pr.pc == Outside && s.lock == -1
       case Hand(p) => pr.pc.Reparenting?
       case WakeInit(p) => pr.pc.Handed? && OwnLockFree(s.procs[INIT].pc)
       case Notify(p) => pr.pc.Notifying? && 0 <= pr.parent < |s.procs| && OwnLockFree(s.procs[pr.parent].pc)
       case Die(p) => pr.pc.Marking?
       case SwitchOut(p) => pr.pc.Gone?
       case Wait(p) => (pr.pc == Outside || pr.pc == Dreaming) && pr.status == Awake && s.lock == -1
       case Scan(p) =>
         && pr.pc.Scanning?
         && (ChildAt(s, p, pr.pc.i) ==> OwnLockFree(s.procs[pr.pc.i].pc) && s.procs[pr.pc.i].status != Zombie)
       case Reap(p) => pr.pc.Scanning? && ChildAt(s, p, pr.pc.i) && OwnLockFree(s.procs[pr.pc.i].pc)
           && s.procs[pr.pc.i].status == Zombie
       case CopyFails(p) => pr.pc.Scanning? && ChildAt(s, p, pr.pc.i) && OwnLockFree(s.procs[pr.pc.i].pc)
           && s.procs[pr.pc.i].status == Zombie
       case GiveUp(p) => pr.pc.Deciding? && (!pr.pc.kids || pr.killed)
       case Stay(p) => pr.pc == Deciding(true) && !pr.killed
       case Doze(p) => pr.pc.Drowsy?
       case Sleep(p) => pr.pc.Dozing?
       case Kill(p) => pr.status != Unused && OwnLockFree(pr.pc)
  }

  function Next(s: State, a: Step): State
    requires Enabled(s, a)
  {
    var pr := s.procs[a.p];
    match a
    case Allocate(p, c) =>
      Put(At(s, p, Forking(c)), c, Proc(Used, Embryo(p), -1, s.nextpid, false)).(nextpid := s.nextpid + 1)
    case ForkFails(p) => Put(At(s, p, Outside), pr.pc.c, VACANT)
    case SetParent(p) => Put(At(s, p, Forked(pr.pc.c)), pr.pc.c, s.procs[pr.pc.c].(parent := p))
    case Start(p) => Put(At(s, p, Outside), pr.pc.c, s.procs[pr.pc.c].(status := Awake, pc := Outside))
    case Exit(p) => At(s, p, Reparenting(0)).(lock := p)
    case Hand(p) =>
      var i := pr.pc.i;
      if i >= |s.procs| then At(s, p, Notifying)
      else if s.procs[i].parent == p then Put(At(s, p, Handed(i)), i, At(s, p, Handed(i)).procs[i].(parent := INIT))
      else At(s, p, Reparenting(i + 1))
    case WakeInit(p) => Roused(At(s, p, Reparenting(pr.pc.i + 1)), INIT)
    case Notify(p) => Roused(At(s, p, Marking), pr.parent)
    case Die(p) => Put(s, p, pr.(status := Zombie, pc := Gone)).(lock := -1, exited := s.exited + {pr.pid})
    case SwitchOut(p) => At(s, p, Off)
    case Wait(p) => At(s, p, Scanning(0, false)).(lock := p)
    case Scan(p) =>
      var i := pr.pc.i;
      if i >= |s.procs| then At(s, p, Deciding(pr.pc.kids))
          else At(s, p, Scanning(i + 1, pr.pc.kids || s.procs[i].parent == p))
    case Reap(p) =>
      Put(At(s, p, Outside), pr.pc.i, VACANT).(lock := -1, reaped := s.reaped + [s.procs[pr.pc.i].pid])
    case CopyFails(p) => At(s, p, Outside).(lock := -1)
    case GiveUp(p) => At(s, p, Outside).(lock := -1)
    case Stay(p) => At(s, p, Drowsy)
    case Doze(p) => At(s, p, Dozing).(lock := -1)
    case Sleep(p) => Put(s, p, pr.(status := Sleeping, pc := Dreaming))
    case Kill(p) => Put(s, p, pr.(killed := true, status := if pr.status == Sleeping then Awake else pr.status))
  }

  // ----- Invariant -----

  predicate Alive(pr: Proc) {
    pr.status == Awake || pr.status == Sleeping
  }

  /** Status and place of one slot agree. */
  predicate Fits(pr: Proc) {
    match pr.pc
    case Outside => pr.status == Awake || pr == VACANT
    case Embryo(_) => pr.status == Used
    case Gone => pr.status == Zombie
    case Off => pr.status == Zombie
    case Dreaming => Alive(pr)
    case _ => pr.status == Awake
  }

  /** Slot `p` on its own: locks, forks in progress, and its parent, which is alive. */
  ghost predicate SlotOk(s: State, p: nat)
    requires p < |s.procs|
  {
    var pr := s.procs[p];
    && Fits(pr)
    && (HoldsWaitLock(pr.pc) <==> s.lock == p)
    && (pr.pc.Forking? ==> pr.pc.c < |s.procs| && s.procs[pr.pc.c].pc == Embryo(p) && s.procs[pr.pc.c].parent == -1)
    && (pr.pc.Forked? ==> pr.pc.c < |s.procs| && s.procs[pr.pc.c].pc == Embryo(p) && s.procs[pr.pc.c].parent == p)
    && (if pr.parent == -1 then p == INIT || !(Alive(pr) || pr.status == Zombie)
        else 0 <= pr.parent < |s.procs| && Alive(s.procs[pr.parent]))
    && (p == INIT ==> pr.parent == -1 && Alive(pr) && !Leaving(pr.pc))
    && (pr.pc.Marking? ==> pr.parent != -1 && WideAwake(s.procs[pr.parent]))
  }

  predicate Leaving(pc: Pc) {
    pc.Reparenting? || pc.Handed? || pc.Notifying? || pc.Marking?
  }

  predicate WideAwake(pr: Proc) {
    pr.status != Sleeping && !pr.pc.Dozing?
  }

  /** An exiting process `p` has given away the children it has passed; a waiting one has found no zombie in
      the slots it has passed, and none at all when it goes to sleep, but for one just handed to init. */
  ghost predicate PairOk(s: State, p: nat, c: nat)
    requires p < |s.procs| && c < |s.procs|
  {
    var pr := s.procs[p];
    s.procs[c].parent == p ==>
      && (pr.pc.Reparenting? ==> pr.pc.i <= c) && (pr.pc.Handed? ==> pr.pc.i < c) && !pr.pc.Notifying?
          && !pr.pc.Marking?
      && (s.procs[c].status == Zombie ==>
            && (pr.pc.Scanning? ==> pr.pc.i <= c) && !pr.pc.Deciding? && !pr.pc.Drowsy?
            && (WideAwake(pr) || (p == INIT && 0 <= s.lock < |s.procs| && s.procs[s.lock].pc == Handed(c))))
  }

  ghost predicate Inv(s: State) {
    && 0 < |s.procs| && -1 <= s.lock < |s.procs|
    && (forall p :: 0 <= p < |s.procs| ==> SlotOk(s, p))
    && (forall p, c :: 0 <= p < |s.procs| && 0 <= c < |s.procs| ==> PairOk(s, p, c))
  }

  lemma ExitKeepsSlot(s: State, a: Step, q: nat)
    requires Inv(s) && Enabled(s, a) && q < |s.procs| && (a.Exit? || a.Die? || a.SwitchOut?)
    ensures |Next(s, a).procs| == |s.procs| && SlotOk(Next(s, a), q)
  {
    assert SlotOk(s, a.p) && SlotOk(s, q) && SlotOk(s, INIT);
    assert PairOk(s, a.p, q);
  }

  lemma ExitKeepsPair(s: State, a: Step, q: nat, c: nat)
    requires Inv(s) && Enabled(s, a) && q < |s.procs| && c < |s.procs| && (a.Exit? || a.Die? || a.SwitchOut?)
    ensures |Next(s, a).procs| == |s.procs| && PairOk(Next(s, a), q, c)
  {
    assert SlotOk(s, a.p) && SlotOk(s, q) && SlotOk(s, c) && PairOk(s, q, c);
  }

  lemma WaitKeepsSlot(s: State, a: Step, q: nat)
    requires Inv(s) && Enabled(s, a) && q < |s.procs| && (a.Wait? || a.Scan? || a.CopyFails? || a.GiveUp?)
    ensures |Next(s, a).procs| == |s.procs| && SlotOk(Next(s, a), q)
  {
    hide PairOk;
    assert SlotOk(s, a.p) && SlotOk(s, q) && SlotOk(s, INIT);
  }

  lemma WaitKeepsPair(s: State, a: Step, q: nat, c: nat)
    requires Inv(s) && Enabled(s, a) && q < |s.procs| && c < |s.procs|
             && (a.Wait? || a.Scan? || a.CopyFails? || a.GiveUp?)
    ensures |Next(s, a).procs| == |s.procs| && PairOk(Next(s, a), q, c)
  {
    assert SlotOk(s, a.p) && SlotOk(s, q) && SlotOk(s, c) && PairOk(s, q, c);
  }

  lemma SleepKeepsSlot(s: State, a: Step, q: nat)
    requires Inv(s) && Enabled(s, a) && q < |s.procs| && (a.Stay? || a.Doze? || a.Sleep?)
    ensures |Next(s, a).procs| == |s.procs| && SlotOk(Next(s, a), q)
  {
    hide PairOk;
    assert SlotOk(s, a.p) && SlotOk(s, q) && SlotOk(s, INIT);
  }

  lemma SleepKeepsPair(s: State, a: Step, q: nat, c: nat)
    requires Inv(s) && Enabled(s, a) && q < |s.procs| && c < |s.procs| && (a.Stay? || a.Doze? || a.Sleep?)
    ensures |Next(s, a).procs| == |s.procs| && PairOk(Next(s, a), q, c)
  {
    assert SlotOk(s, a.p) && SlotOk(s, q) && SlotOk(s, c) && PairOk(s, q, c);
  }

  lemma KillKeepsSlot(s: State, a: Step, q: nat)
    requires Inv(s) && Enabled(s, a) && q < |s.procs| && a.Kill?
    ensures |Next(s, a).procs| == |s.procs| && SlotOk(Next(s, a), q)
  {
    hide PairOk;
    assert SlotOk(s, a.p) && SlotOk(s, q) && SlotOk(s, INIT);
  }

  lemma KillKeepsPair(s: State, a: Step, q: nat, c: nat)
    requires Inv(s) && Enabled(s, a) && q < |s.procs| && c < |s.procs| && a.Kill?
    ensures |Next(s, a).procs| == |s.procs| && PairOk(Next(s, a), q, c)
  {
    assert SlotOk(s, a.p) && SlotOk(s, q) && SlotOk(s, c) && PairOk(s, q, c);
  }

  lemma AllocateKeepsSlot(s: State, a: Step, q: nat)
    requires Inv(s) && Enabled(s, a) && q < |s.procs| && (a.Allocate?)
    ensures |Next(s, a).procs| == |s.procs| && SlotOk(Next(s, a), q)
  {
    hide PairOk;
    assert SlotOk(s, a.p) && SlotOk(s, q) && SlotOk(s, INIT);
    assert SlotOk(s, a.c);
  }

  lemma AllocateKeepsPair(s: State, a: Step, q: nat, c: nat)
    requires Inv(s) && Enabled(s, a) && q < |s.procs| && c < |s.procs| && (a.Allocate?)
    ensures |Next(s, a).procs| == |s.procs| && PairOk(Next(s, a), q, c)
  {
    assert SlotOk(s, a.p) && SlotOk(s, q) && SlotOk(s, c) && PairOk(s, q, c) && SlotOk(s, a.c);
    assert s.lock != -1 ==> SlotOk(s, s.lock);
  }

  lemma ForkFailsKeepsSlot(s: State, a: Step, q: nat)
    requires Inv(s) && Enabled(s, a) && q < |s.procs| && (a.ForkFails?)
    ensures |Next(s, a).procs| == |s.procs| && SlotOk(Next(s, a), q)
  {
    hide PairOk;
    assert SlotOk(s, a.p) && SlotOk(s, q) && SlotOk(s, INIT);
    assert SlotOk(s, s.procs[a.p].pc.c);
  }

  lemma ForkFailsKeepsPair(s: State, a: Step, q: nat, c: nat)
    requires Inv(s) && Enabled(s, a) && q < |s.procs| && c < |s.procs| && (a.ForkFails?)
    ensures |Next(s, a).procs| == |s.procs| && PairOk(Next(s, a), q, c)
  {
    assert SlotOk(s, a.p) && SlotOk(s, q) && SlotOk(s, c) && PairOk(s, q, c);
  }

  lemma SetParentKeepsSlot(s: State, a: Step, q: nat)
    requires Inv(s) && Enabled(s, a) && q < |s.procs| && (a.SetParent? || a.Start?)
    ensures |Next(s, a).procs| == |s.procs| && SlotOk(Next(s, a), q)
  {
    hide PairOk;
    assert SlotOk(s, a.p) && SlotOk(s, q) && SlotOk(s, INIT);
    assert SlotOk(s, s.procs[a.p].pc.c);
  }

  lemma SetParentKeepsPair(s: State, a: Step, q: nat, c: nat)
    requires Inv(s) && Enabled(s, a) && q < |s.procs| && c < |s.procs| && (a.SetParent? || a.Start?)
    ensures |Next(s, a).procs| == |s.procs| && PairOk(Next(s, a), q, c)
  {
    assert SlotOk(s, a.p) && SlotOk(s, q) && SlotOk(s, c) && PairOk(s, q, c);
  }

  lemma HandKeepsSlot(s: State, a: Step, q: nat)
    requires Inv(s) && Enabled(s, a) && q < |s.procs| && (a.Hand?)
    ensures |Next(s, a).procs| == |s.procs| && SlotOk(Next(s, a), q)
  {
    assert SlotOk(s, a.p) && SlotOk(s, q) && SlotOk(s, INIT);
    assert PairOk(s, a.p, q);
  }

  lemma HandKeepsPair(s: State, a: Step, q: nat, c: nat)
    requires Inv(s) && Enabled(s, a) && q < |s.procs| && c < |s.procs| && (a.Hand?)
    ensures |Next(s, a).procs| == |s.procs| && PairOk(Next(s, a), q, c)
  {
    assert SlotOk(s, a.p) && SlotOk(s, q) && SlotOk(s, c) && PairOk(s, q, c);
  }

  lemma WakeKeepsSlot(s: State, a: Step, q: nat)
    requires Inv(s) && Enabled(s, a) && q < |s.procs| && (a.WakeInit? || a.Notify?)
    ensures |Next(s, a).procs| == |s.procs| && SlotOk(Next(s, a), q)
  {
    assert SlotOk(s, a.p) && SlotOk(s, q) && SlotOk(s, INIT);
    assert PairOk(s, a.p, q);
  }

  lemma WakeKeepsPair(s: State, a: Step, q: nat, c: nat)
    requires Inv(s) && Enabled(s, a) && q < |s.procs| && c < |s.procs| && (a.WakeInit? || a.Notify?)
    ensures |Next(s, a).procs| == |s.procs| && PairOk(Next(s, a), q, c)
  {
    assert SlotOk(s, a.p) && SlotOk(s, q) && SlotOk(s, c) && PairOk(s, q, c);
  }

  lemma ReapKeepsSlot(s: State, a: Step, q: nat)
    requires Inv(s) && Enabled(s, a) && q < |s.procs| && (a.Reap?)
    ensures |Next(s, a).procs| == |s.procs| && SlotOk(Next(s, a), q)
  {
    hide PairOk;
    assert SlotOk(s, a.p) && SlotOk(s, q) && SlotOk(s, INIT);
    assert SlotOk(s, s.procs[a.p].pc.i);
  }

  lemma ReapKeepsPair(s: State, a: Step, q: nat, c: nat)
    requires Inv(s) && Enabled(s, a) && q < |s.procs| && c < |s.procs| && (a.Reap?)
    ensures |Next(s, a).procs| == |s.procs| && PairOk(Next(s, a), q, c)
  {
    assert SlotOk(s, a.p) && SlotOk(s, q) && SlotOk(s, c) && PairOk(s, q, c);
  }

  lemma NextKeepsInv(s: State, a: Step)
    requires Inv(s) && Enabled(s, a)
    ensures Inv(Next(s, a))
  {
    hide Enabled, Next, SlotOk, PairOk;
    LockRange(s, a);
    forall q | 0 <= q < |s.procs| ensures SlotOk(Next(s, a), q) {
      SlotKept(s, a, q);
    }
    forall q, c | 0 <= q < |s.procs| && 0 <= c < |s.procs| ensures PairOk(Next(s, a), q, c) {
      PairKept(s, a, q, c);
    }
  }

  lemma LockRange(s: State, a: Step)
    requires Inv(s) && Enabled(s, a)
    ensures |Next(s, a).procs| == |s.procs| && -1 <= Next(s, a).lock < |s.procs|
  {
    hide SlotOk, PairOk;
  }

  lemma SlotKept(s: State, a: Step, q: nat)
    requires Inv(s) && Enabled(s, a) && q < |s.procs|
    ensures |Next(s, a).procs| == |s.procs| && SlotOk(Next(s, a), q)
  {
    hide Inv, Enabled, Next, SlotOk;
    match a {
      case Allocate(_, _) => AllocateKeepsSlot(s, a, q);
      case ForkFails(_) => ForkFailsKeepsSlot(s, a, q);
      case SetParent(_) => SetParentKeepsSlot(s, a, q);
      case Start(_) => SetParentKeepsSlot(s, a, q);
      case Hand(_) => HandKeepsSlot(s, a, q);
      case WakeInit(_) => WakeKeepsSlot(s, a, q);
      case Notify(_) => WakeKeepsSlot(s, a, q);
      case Reap(_) => ReapKeepsSlot(s, a, q);
      case Stay(_) => SleepKeepsSlot(s, a, q);
      case Doze(_) => SleepKeepsSlot(s, a, q);
      case Sleep(_) => SleepKeepsSlot(s, a, q);
      case Kill(_) => KillKeepsSlot(s, a, q);
      case Exit(_) => ExitKeepsSlot(s, a, q);
      case Die(_) => ExitKeepsSlot(s, a, q);
      case SwitchOut(_) => ExitKeepsSlot(s, a, q);
      case _ => WaitKeepsSlot(s, a, q);
    }
  }

  lemma PairKept(s: State, a: Step, q: nat, c: nat)
    requires Inv(s) && Enabled(s, a) && q < |s.procs| && c < |s.procs|
    ensures |Next(s, a).procs| == |s.procs| && PairOk(Next(s, a), q, c)
  {
    hide Inv, Enabled, Next, PairOk;
    match a {
      case Allocate(_, _) => AllocateKeepsPair(s, a, q, c);
      case ForkFails(_) => ForkFailsKeepsPair(s, a, q, c);
      case SetParent(_) => SetParentKeepsPair(s, a, q, c);
      case Start(_) => SetParentKeepsPair(s, a, q, c);
      case Hand(_) => HandKeepsPair(s, a, q, c);
      case WakeInit(_) => WakeKeepsPair(s, a, q, c);
      case Notify(_) => WakeKeepsPair(s, a, q, c);
      case Reap(_) => ReapKeepsPair(s, a, q, c);
      case Stay(_) => SleepKeepsPair(s, a, q, c);
      case Doze(_) => SleepKeepsPair(s, a, q, c);
      case Sleep(_) => SleepKeepsPair(s, a, q, c);
      case Kill(_) => KillKeepsPair(s, a, q, c);
      case Exit(_) => ExitKeepsPair(s, a, q, c);
      case Die(_) => ExitKeepsPair(s, a, q, c);
      case SwitchOut(_) => ExitKeepsPair(s, a, q, c);
      case _ => WaitKeepsPair(s, a, q, c);
    }
  }

  // ----- Pids -----

  /** A slot in use has a pid that was not reaped; it has exited exactly when the slot is a zombie. */
  ghost predicate PidOk(s: State, p: nat)
    requires p < |s.procs|
  {
    var pr := s.procs[p];
    pr.status != Unused ==> pr.pid < s.nextpid && pr.pid !in s.reaped && (pr.status == Zombie <==> pr.pid in s.exited)
  }

  ghost predicate PidsDiffer(s: State, p: nat, q: nat)
    requires p < |s.procs| && q < |s.procs|
  {
    p != q && s.procs[p].status != Unused && s.procs[q].status != Unused ==> s.procs[p].pid != s.procs[q].pid
  }

  /** The pid has been reaped, or its zombie is still in the table. */
  ghost predicate Accounted(s: State, x: nat) {
    x < s.nextpid
        && (x in s.reaped || exists p :: 0 <= p < |s.procs| && s.procs[p].status == Zombie && s.procs[p].pid == x)
  }

  ghost predicate PidInv(s: State) {
    && (forall p :: 0 <= p < |s.procs| ==> PidOk(s, p))
    && (forall p, q :: 0 <= p < |s.procs| && 0 <= q < |s.procs| ==> PidsDiffer(s, p, q))
    && (forall x :: x in s.exited ==> Accounted(s, x))
    && (forall x :: x in s.reaped ==> x in s.exited)
    && (forall i, j :: 0 <= i < j < |s.reaped| ==> s.reaped[i] != s.reaped[j])
  }

  /** What `PidInv` looks at in a slot. */
  function Key(pr: Proc): (bool, bool, nat) {
    (pr.status == Unused, pr.status == Zombie, pr.pid)
  }

  predicate Quiet(a: Step) {
    !a.Allocate? && !a.ForkFails? && !a.Die? && !a.Reap?
  }

  lemma QuietKeys(s: State, a: Step, q: nat)
    requires Inv(s) && Enabled(s, a) && Quiet(a) && q < |s.procs|
    ensures var s' := Next(s, a);
            && |s'.procs| == |s.procs| && Key(s'.procs[q]) == Key(s.procs[q])
            && s'.nextpid == s.nextpid && s'.exited == s.exited && s'.reaped == s.reaped
  {
    hide PairOk;
    assert SlotOk(s, a.p) && SlotOk(s, q);
  }

  lemma QuietKeepsPids(s: State, a: Step)
    requires Inv(s) && PidInv(s) && Enabled(s, a) && Quiet(a)
    ensures PidInv(Next(s, a))
  {
    hide Enabled, Next, SlotOk, PairOk, Quiet;
    var s' := Next(s, a);
    QuietKeys(s, a, 0);
    forall q | 0 <= q < |s.procs| ensures Key(s'.procs[q]) == Key(s.procs[q]) {
      QuietKeys(s, a, q);
    }
    SameKeys(s, s');
  }

  lemma SameKeys(s: State, s': State)
    requires PidInv(s) && |s'.procs| == |s.procs| && forall q :: 0 <= q < |s.procs| ==>
               Key(s'.procs[q]) == Key(s.procs[q])
    requires s'.nextpid == s.nextpid && s'.exited == s.exited && s'.reaped == s.reaped
    ensures PidInv(s')
  {
    forall p | 0 <= p < |s.procs| ensures PidOk(s', p) {
      assert PidOk(s, p);
    }
    forall p, q | 0 <= p < |s.procs| && 0 <= q < |s.procs| ensures PidsDiffer(s', p, q) {
      assert PidsDiffer(s, p, q);
    }
    forall x | x in s.exited ensures Accounted(s', x) {
      assert Accounted(s, x);
    }
  }

  /** A slot whose process changes its key: what is left to show. */
  lemma OneKey(s: State, s': State, c: nat)
    requires PidInv(s) && c < |s.procs| == |s'.procs| && s.nextpid <= s'.nextpid && s.exited <= s'.exited
             && s.reaped <= s'.reaped
    requires forall q :: 0 <= q < |s.procs| && q != c ==> Key(s'.procs[q]) == Key(s.procs[q])
    requires forall x :: x in s'.exited && x !in s.exited ==>
               x == s.procs[c].pid && s.procs[c].status != Unused && Accounted(s', x)
    requires s'.reaped == s.reaped || (s.procs[c].status == Zombie && s'.reaped == s.reaped + [s.procs[c].pid])
    requires s.procs[c].status == Zombie ==> s'.reaped != s.reaped
    requires PidOk(s', c)
             && (s'.procs[c].status != Unused ==>
                   s'.procs[c].pid == if s.procs[c].status == Unused then s.nextpid else s.procs[c].pid)
    ensures PidInv(s')
  {
    assert PidOk(s, c);
    forall p | 0 <= p < |s.procs| ensures PidOk(s', p) {
      assert PidOk(s, p) && PidsDiffer(s, p, c);
    }
    forall p, q | 0 <= p < |s.procs| && 0 <= q < |s.procs| ensures PidsDiffer(s', p, q) {
      assert PidsDiffer(s, p, q) && PidOk(s, p) && PidOk(s, q);
    }
    forall x | x in s'.exited ensures Accounted(s', x) {
      if x in s.exited {
        assert Accounted(s, x);
        AccountedKept(s, s', c, x);
      }
    }
  }

  lemma AccountedKept(s: State, s': State, c: nat, x: nat)
    requires c < |s.procs| == |s'.procs| && s.nextpid <= s'.nextpid && s.reaped <= s'.reaped && Accounted(s, x)
    requires forall q :: 0 <= q < |s.procs| && q != c ==> Key(s'.procs[q]) == Key(s.procs[q])
    requires s.procs[c].status == Zombie ==> s'.reaped == s.reaped + [s.procs[c].pid]
    ensures Accounted(s', x)
  {
    if x !in s.reaped {
      var p :| 0 <= p < |s.procs| && s.procs[p].status == Zombie && s.procs[p].pid == x;
      if p != c {
        assert s'.procs[p].status == Zombie && s'.procs[p].pid == x;
      } else {
        assert s'.reaped[|s.reaped|] == x;
      }
    }
  }

  lemma LoudKeepsPids(s: State, a: Step)
    requires Inv(s) && PidInv(s) && Enabled(s, a) && !Quiet(a)
    ensures PidInv(Next(s, a))
  {
    hide PairOk;
    var s' := Next(s, a);
    var pr := s.procs[a.p];
    var c := match a case Allocate(_, c) => c case ForkFails(_) => pr.pc.c case Reap(_) => pr.pc.i case _ => a.p;
    assert SlotOk(s, a.p) && SlotOk(s, c) && PidOk(s, c);
    assert a.Die? ==> s'.procs[a.p].status == Zombie && s'.procs[a.p].pid == pr.pid;
    FreshPid(s);
    OneKey(s, s', c);
  }

  lemma FreshPid(s: State)
    requires PidInv(s)
    ensures s.nextpid !in s.exited && s.nextpid !in s.reaped
  {
    assert s.nextpid in s.exited ==> Accounted(s, s.nextpid);
  }

  // ----- Whole runs -----

  /** After `userinit`: init is there and nobody else. */
  function Start0(n: nat): State
    requires 0 < n
  {
    State(seq(n, i => if i == INIT then Proc(Awake, Outside, -1, 1, false) else VACANT), -1, 2, {}, [])
  }

  predicate Moves(s: State, a: Step, s': State) {
    Enabled(s, a) && s' == Next(s, a)
  }

  ghost predicate IsRun(ss: seq<State>, acts: seq<Step>, n: nat) {
    0 < n && |ss| == |acts| + 1 && ss[0] == Start0(n) && forall k :: 0 <= k < |acts| ==>
          Moves(ss[k], acts[k], ss[k + 1])
  }

  lemma {:induction false} RunKeepsInv(ss: seq<State>, acts: seq<Step>, n: nat, k: nat)
    requires IsRun(ss, acts, n) && k < |ss|
    ensures Inv(ss[k]) && PidInv(ss[k])
    decreases k
  {
    if k > 0 {
      RunKeepsInv(ss, acts, n, k - 1);
      assert Moves(ss[k - 1], acts[k - 1], ss[k]);
      NextKeepsInv(ss[k - 1], acts[k - 1]);
      if Quiet(acts[k - 1]) {
        QuietKeepsPids(ss[k - 1], acts[k - 1]);
      } else {
        LoudKeepsPids(ss[k - 1], acts[k - 1]);
      }
    }
  }

  /** Whenever wait_lock is free, nobody asleep in `wait` has a zombie child. */
  lemma NoSleeperHasZombie(ss: seq<State>, acts: seq<Step>, n: nat, k: nat, p: nat, c: nat)
    requires IsRun(ss, acts, n) && k < |ss| && p < |ss[k].procs| && c < |ss[k].procs| && ss[k].lock == -1
    requires ss[k].procs[p].status == Sleeping && ss[k].procs[c].parent == p
    ensures ss[k].procs[c].status != Zombie
  {
    RunKeepsInv(ss, acts, n, k);
    assert PairOk(ss[k], p, c);
  }

  /** In every state, every process but init, dead or alive, has a living parent. */
  lemma ParentsLive(ss: seq<State>, acts: seq<Step>, n: nat, k: nat, c: nat)
    requires IsRun(ss, acts, n) && k < |ss| && c < |ss[k].procs| && c != INIT
    requires Alive(ss[k].procs[c]) || ss[k].procs[c].status == Zombie
    ensures 0 <= ss[k].procs[c].parent < |ss[k].procs| && Alive(ss[k].procs[ss[k].procs[c].parent])
  {
    RunKeepsInv(ss, acts, n, k);
    assert SlotOk(ss[k], c);
  }

  /** No pid is returned by two waits, only pids that exited are, and one that exited and was not returned is
      still in its slot. */
  lemma ReapedExactlyOnce(ss: seq<State>, acts: seq<Step>, n: nat, k: nat)
    requires IsRun(ss, acts, n) && k < |ss|
    ensures forall i, j :: 0 <= i < j < |ss[k].reaped| ==> ss[k].reaped[i] != ss[k].reaped[j]
    ensures forall x :: x in ss[k].reaped ==> x in ss[k].exited
    ensures forall x :: x in ss[k].exited && x !in ss[k].reaped ==>
              exists p :: 0 <= p < |ss[k].procs| && ss[k].procs[p].status == Zombie && ss[k].procs[p].pid == x
  {
    RunKeepsInv(ss, acts, n, k);
    forall x | x in ss[k].exited ensures Accounted(ss[k], x) {
    }
  }

  /** `freeproc` never takes a slot whose process is still on its kernel stack, and only its parent frees it. */
  lemma ReapsOnlySwitchedOut(ss: seq<State>, acts: seq<Step>, n: nat, k: nat)
    requires IsRun(ss, acts, n) && k < |acts| && acts[k].Reap?
    ensures var s, p := ss[k], acts[k].p;
            p < |s.procs| && s.procs[p].pc.Scanning? && var c := s.procs[p].pc.i;
            c < |s.procs| && c != p && s.procs[c].pc == Off && s.procs[c].parent == p && s.lock == p
  {
    RunKeepsInv(ss, acts, n, k);
    assert Moves(ss[k], acts[k], ss[k + 1]);
    assert SlotOk(ss[k], acts[k].p) && SlotOk(ss[k], ss[k].procs[acts[k].p].pc.i);
  }

  // ----- What a scan decides -----

  ghost predicate HasChild(s: State, p: nat, below: nat) {
    exists c :: 0 <= c < below && c < |s.procs| && s.procs[c].parent == p
  }

  /** `kids` says whether one of the slots passed is a child. */
  ghost predicate KidsOk(s: State, p: nat)
    requires p < |s.procs|
  {
    var pc := s.procs[p].pc;
    && (pc.Scanning? ==> (pc.kids <==> HasChild(s, p, pc.i)))
    && (pc.Deciding? ==> (pc.kids <==> HasChild(s, p, |s.procs|)))
  }

  /** While a process holds wait_lock, no other changes who is whose parent. */
  lemma ParentsHeld(s: State, a: Step, q: nat, c: nat)
    requires Inv(s) && Enabled(s, a) && s.lock == q && q < |s.procs| && q != a.p && c < |s.procs|
    ensures var s' := Next(s, a);
            |s'.procs| == |s.procs| && s'.procs[c].parent == s.procs[c].parent && s'.procs[q].pc == s.procs[q].pc
  {
    hide PairOk;
    assert SlotOk(s, a.p) && SlotOk(s, q) && SlotOk(s, c);
    if a.ForkFails? || a.Start? {
      assert SlotOk(s, s.procs[a.p].pc.c);
    }
  }

  lemma KidsKept(s: State, a: Step, q: nat)
    requires Inv(s) && Enabled(s, a) && q < |s.procs| && KidsOk(s, q)
    ensures |Next(s, a).procs| == |s.procs| && KidsOk(Next(s, a), q)
  {
    hide PairOk;
    var s' := Next(s, a);
    assert SlotOk(s, q) && SlotOk(s, a.p);
    if q == a.p {
      OwnKidsKept(s, a);
    } else if s.lock == q {
      ParentsHeld(s, a, q, q);
      forall c | 0 <= c < |s.procs| ensures s'.procs[c].parent == s.procs[c].parent {
        ParentsHeld(s, a, q, c);
      }
      SameKids(s, s', q);
    } else {
      NoScanElsewhere(s, a, q);
    }
  }

  lemma SameKids(s: State, s': State, q: nat)
    requires |s'.procs| == |s.procs| && q < |s.procs| && s'.procs[q].pc == s.procs[q].pc && KidsOk(s, q)
    requires forall c :: 0 <= c < |s.procs| ==> s'.procs[c].parent == s.procs[c].parent
    ensures KidsOk(s', q)
  {
  }

  lemma NoScanElsewhere(s: State, a: Step, q: nat)
    requires Inv(s) && Enabled(s, a) && q < |s.procs| && q != a.p && s.lock != q
    ensures |Next(s, a).procs| == |s.procs| && KidsOk(Next(s, a), q)
  {
    hide PairOk, HasChild;
    assert SlotOk(s, q) && SlotOk(s, a.p);
  }

  lemma OwnKidsKept(s: State, a: Step)
    requires Inv(s) && Enabled(s, a) && KidsOk(s, a.p)
    ensures |Next(s, a).procs| == |s.procs| && KidsOk(Next(s, a), a.p)
  {
    hide PairOk, SlotOk, HasChild;
    var s', pc := Next(s, a), s.procs[a.p].pc;
    if a.Scan? {
      ScanKeepsKids(s, a);
    } else if a.Kill? {
      assert forall c :: 0 <= c < |s.procs| ==> s'.procs[c].parent == s.procs[c].parent;
      SameKids(s, s', a.p);
    } else if a.Wait? {
      NoKidYet(s', a.p);
    } else {
      assert SlotOk(s, a.p);
      NotScanning(s, a);
    }
  }

  lemma NoKidYet(s: State, p: nat)
    ensures !HasChild(s, p, 0)
  {
  }

  lemma NotScanning(s: State, a: Step)
    requires a.p < |s.procs| && SlotOk(s, a.p) && Enabled(s, a) && !a.Scan? && !a.Kill? && !a.Wait?
    ensures |Next(s, a).procs| == |s.procs|
    ensures var pc := Next(s, a).procs[a.p].pc; !pc.Scanning? && !pc.Deciding?
  {
  }

  lemma ScanKeepsKids(s: State, a: Step)
    requires Enabled(s, a) && a.Scan? && KidsOk(s, a.p)
    ensures |Next(s, a).procs| == |s.procs| && KidsOk(Next(s, a), a.p)
  {
    var s', i := Next(s, a), s.procs[a.p].pc.i;
    assert forall c :: 0 <= c < |s.procs| ==> s'.procs[c].parent == s.procs[c].parent;
    if i < |s.procs| {
      OneMoreKid(s, s', a.p, i);
    } else {
      assert HasChild(s, a.p, i) <==> HasChild(s', a.p, |s.procs|);
    }
  }

  lemma OneMoreKid(s: State, s': State, p: nat, i: nat)
    requires |s'.procs| == |s.procs| && i < |s.procs|
    requires forall c :: 0 <= c < |s.procs| ==> s'.procs[c].parent == s.procs[c].parent
    ensures HasChild(s', p, i + 1) <==> HasChild(s, p, i) || s.procs[i].parent == p
  {
    if HasChild(s, p, i) {
      var c :| 0 <= c < i && s.procs[c].parent == p;
      assert s'.procs[c].parent == p;
    }
    if s.procs[i].parent == p {
      assert s'.procs[i].parent == p;
    }
  }

  lemma {:induction false} RunKeepsKids(ss: seq<State>, acts: seq<Step>, n: nat, k: nat, p: nat)
    requires IsRun(ss, acts, n) && k < |ss| && p < |ss[k].procs|
    ensures KidsOk(ss[k], p)
    decreases k
  {
    hide KidsOk, Next, Enabled;
    if k == 0 {
      NobodyScans(n, p);
    } else {
      RunKeepsInv(ss, acts, n, k - 1);
      assert Moves(ss[k - 1], acts[k - 1], ss[k]);
      LockRange(ss[k - 1], acts[k - 1]);
      RunKeepsKids(ss, acts, n, k - 1, p);
      KidsKept(ss[k - 1], acts[k - 1], p);
    }
  }

  lemma NobodyScans(n: nat, p: nat)
    requires 0 < n && p < n
    ensures KidsOk(Start0(n), p)
  {
  }

  /** In every run, a scan that ends without a zombie knows whether the process has children: `wait` then returns -1
      exactly if it has none or is killed, and goes on to sleep exactly if it has one, none of them a zombie. */
  lemma WaitDecidesRight(ss: seq<State>, acts: seq<Step>, n: nat, k: nat, p: nat)
    requires IsRun(ss, acts, n) && k < |ss| && p < |ss[k].procs| && ss[k].procs[p].pc.Deciding?
    ensures ss[k].procs[p].pc.kids <==> exists c :: 0 <= c < |ss[k].procs| && ss[k].procs[c].parent == p
    ensures forall c :: 0 <= c < |ss[k].procs| && ss[k].procs[c].parent == p ==> ss[k].procs[c].status != Zombie
    ensures Enabled(ss[k], GiveUp(p)) <==> !HasChild(ss[k], p, |ss[k].procs|) || ss[k].procs[p].killed
    ensures Enabled(ss[k], Stay(p)) <==> HasChild(ss[k], p, |ss[k].procs|) && !ss[k].procs[p].killed
  {
    RunKeepsInv(ss, acts, n, k);
    RunKeepsKids(ss, acts, n, k, p);
    forall c | 0 <= c < |ss[k].procs| && ss[k].procs[c].parent == p ensures ss[k].procs[c].status != Zombie {
      assert PairOk(ss[k], p, c);
    }
  }

  // ----- Progress -----

  /** How many steps the process in slot `p` has left in `fork`, `exit` or `wait`, at most. */
  function Left(s: State, p: nat): nat
    requires p < |s.procs|
  {
    var n := |s.procs|;
    match s.procs[p].pc
    case Forking(_) => 2
    case Forked(_) => 1
    case Reparenting(i) => (if i < n then 2 * (n - i) else 0) + 4
    case Handed(i) => (if i < n then 2 * (n - i) else 2) + 3
    case Notifying => 3
    case Marking => 2
    case Gone => 1
    case Scanning(i, _) => (if i < n then n - i else 0) + 4
    case Deciding(_) => 3
    case Drowsy => 2
    case Dozing => 1
    case _ => 0
  }

  /** Every step but the first of a call brings the process nearer the end of it. */
  lemma StepsComeToAnEnd(s: State, a: Step)
    requires Inv(s) && Enabled(s, a) && !a.Allocate? && !a.Exit? && !a.Wait? && !a.Kill?
    ensures |Next(s, a).procs| == |s.procs| && Left(Next(s, a), a.p) < Left(s, a.p)
  {
    hide PairOk;
    assert SlotOk(s, a.p);
    if a.ForkFails? || a.Start? || a.SetParent? {
      assert SlotOk(s, s.procs[a.p].pc.c);
    }
  }

  /** Process `p` is at a slot whose lock is held by the process in it. */
  predicate Blocks(s: State, p: nat, q: nat)
    requires p < |s.procs| && q < |s.procs|
  {
    var pr := s.procs[p];
    && !OwnLockFree(s.procs[q].pc)
    && ((pr.pc.Handed? && q == INIT) || (pr.pc.Notifying? && pr.parent == q) || (pr.pc.Scanning? && pr.pc.i == q))
  }

  /** A process that holds wait_lock or its own lock has a step to make, or one that it waits for has: nobody is
      stuck inside `fork`, `exit` or `wait`. */
  lemma NobodyStuck(s: State, p: nat) returns (q: nat, a: Step)
    requires Inv(s) && p < |s.procs|
    requires var pc := s.procs[p].pc; HoldsWaitLock(pc) || pc.Gone? || pc.Dozing? || pc.Forked?
    ensures q < |s.procs| && a.p == q && Enabled(s, a) && (q == p || Blocks(s, p, q))
  {
    hide PairOk;
    assert SlotOk(s, p) && SlotOk(s, INIT);
    var pr := s.procs[p];
    q := match pr.pc
      case Handed(_) => if OwnLockFree(s.procs[INIT].pc) then p else INIT
      case Notifying => if OwnLockFree(s.procs[pr.parent].pc) then p else pr.parent
      case Scanning(i, _) => if ChildAt(s, p, i) && !OwnLockFree(s.procs[i].pc) then i else p
      case _ => p;
    var pc := s.procs[q].pc;
    a := match pc
      case Forked(_) => Start(q)
      case Reparenting(_) => Hand(q)
      case Handed(_) => WakeInit(q)
      case Notifying => Notify(q)
      case Marking => Die(q)
      case Gone => SwitchOut(q)
      case Scanning(i, _) => if ChildAt(s, q, i) && s.procs[i].status == Zombie then Reap(q) else Scan(q)
      case Deciding(kids) => if kids && !s.procs[q].killed then Stay(q) else GiveUp(q)
      case Drowsy => Doze(q)
      case _ => Sleep(q);
  }

  // ----- What a step does to a slot -----

  /** The step wakes process `q`: the exit of a child, a child handed to init, or a kill. */
  predicate Wakes(s: State, a: Step, q: nat)
    requires a.p < |s.procs|
  {
    a == Kill(q) || (a.Notify? && s.procs[a.p].parent == q) || (a.WakeInit? && q == INIT)
  }

  /** A process falls asleep only by its own step and wakes exactly when it is woken; it becomes a zombie only by its
      own exit and leaves the table only when it is reaped, or when the fork that made it fails. */
  lemma StatusMoves(s: State, a: Step, q: nat)
    requires Inv(s) && Enabled(s, a) && q < |s.procs|
    ensures |Next(s, a).procs| == |s.procs|
    ensures var x, y, pc := s.procs[q].status, Next(s, a).procs[q].status, s.procs[a.p].pc;
            && (x != Sleeping && y == Sleeping <==> a == Sleep(q))
            && (x == Sleeping ==> y == if Wakes(s, a, q) then Awake else Sleeping)
            && (x != Zombie && y == Zombie <==> a == Die(q))
            && (x == Zombie ==> y == if a.Reap? && pc.i == q then Unused else Zombie)
            && (x == Unused ==> y == if a.Allocate? && a.c == q then Used else Unused)
            && (x == Used ==>
                  y == if a.ForkFails? && pc.c == q then Unused else if a.Start? && pc.c == q then Awake else Used)
            && (x == Awake && y != Awake <==> a == Sleep(q) || a == Die(q))
    ensures Next(s, a).procs[q].status != Unused ==>
              (Next(s, a).procs[q].killed <==> s.procs[q].killed || a == Kill(q))
  {
    hide PairOk;
    assert SlotOk(s, a.p) && SlotOk(s, q) && SlotOk(s, INIT);
    if a.ForkFails? || a.Start? || a.SetParent? {
      assert SlotOk(s, s.procs[a.p].pc.c);
    }
  }

  /** A process that is awake outside these calls can fork into any free slot, and exit or wait once wait_lock is free;
      init never exits. One woken from its sleep in `wait` goes on with it. */
  lemma CallsAreOpen(s: State, p: nat)
    requires Inv(s) && p < |s.procs| && s.procs[p].status == Awake
    ensures s.procs[p].pc == Outside ==> forall c :: 0 <= c < |s.procs| ==>
              (Enabled(s, Allocate(p, c)) <==> s.procs[c].status == Unused)
    ensures s.procs[p].pc == Outside ==> (Enabled(s, Exit(p)) <==> p != INIT && s.lock == -1)
    ensures s.procs[p].pc == Outside || s.procs[p].pc == Dreaming ==> (Enabled(s, Wait(p)) <==> s.lock == -1)
  {
  }
}
