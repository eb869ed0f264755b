/** Copy-on-write memory (kernel/vm.c, kernel/kalloc.c, kernel/trap.c) as interleaved steps of any
    number of processes, and its refinement of eager copying.

    Frames are the pages `kinit` hands to the allocator, numbered from 0. A user page is a key
    (process, virtual page number); the user part of all page tables together is one map from keys to
    entries. Each step is one critical section or one write of a page-table entry; `kfree` is two steps
    because it drops `kmem.lock` in between. Entries are changed only by the kernel thread that works on
    that table, and nothing runs in user mode on a table that is being built or torn down. */
module Cow {
  import opened Common

  const PGSIZE: nat := 4096

  type Page = p: seq<nat> | |p| == PGSIZE witness Filled(0)
  type Key = (nat, nat)

  datatype Pte = Pte(frame: nat, r: bool, w: bool, x: bool, u: bool)

  function Filled(b: nat): (p: seq<nat>)
    ensures |p| == PGSIZE
  {
    seq(PGSIZE, _ => b)
  }

  /** `limbo` holds frames whose count has reached zero in a `kfree` that has not yet linked them into
      the free list. `kernel` holds frames a kernel thread owns directly: page-table pages, stacks,
      pipes, or a page about to be mapped. `owed` counts references in the hands of a kernel thread that
      is about to map or drop them, `leaked` those that nothing holds any more. `stale` holds the entries
      whose reference `uvmunmap` has dropped and which it has not cleared yet: they are still valid in
      the table, and `pt` has the others. */
  datatype Vm = Vm(refcnt: seq<int>, free: seq<nat>, limbo: set<nat>, mem: seq<Page>, pt: map<Key, Pte>,
                   kernel: set<nat>, owed: multiset<nat>, leaked: multiset<nat>, stale: map<Key, Pte>)

  // ----- Steps -----

  datatype Step =
    | Kalloc                                  // kalloc
    | KfreeKernel(g: nat)                     // kfree, first section, of a kernel frame
    | KfreeLink(f: nat)                       // kfree, second section
    | Inc(p: nat, v: nat)                     // uvmcopy: the parent's write bit goes, increse
    | MapShared(p: nat, c: nat, v: nat)       // uvmcopy: mappages enters the page in the child
    | MapFails(f: nat)                        // uvmcopy: mappages fails
    | CowFault(k: Key, g: nat)                // cowfault, after its kalloc returned g, up to its kfree
    | KfreeOwed(f: nat)                       // kfree, first section, of the page cowfault replaced
    | MapZeroed(k: Key, g: nat, w: bool, x: bool) // one page of uvmalloc, after its kalloc returned g
    | Store(k: Key, off: nat, bs: seq<nat>)   // a user store, or one page's share of copyout
    | Unmap(k: Key)                           // uvmunmap with do_free: kfree, first section
    | Clear(k: Key)                           // uvmunmap: the entry is cleared

  /** `page` with `bs` written at offset `off`. */
  function Splice(page: Page, off: nat, bs: seq<nat>): (r: Page)
    requires off + |bs| <= PGSIZE
    ensures forall i :: 0 <= i < PGSIZE ==> r[i] == if off <= i < off + |bs| then bs[i - off] else page[i]
  {
    page[..off] + bs + page[off + |bs|..]
  }

  /** The first section of `kfree`. */
  function Dec(s: Vm, f: nat): Vm
    requires f < |s.refcnt|
  {
    s.(refcnt := s.refcnt[f := s.refcnt[f] - 1],
       limbo := if s.refcnt[f] == 1 then s.limbo + {f} else s.limbo)
  }

  predicate Enabled(s: Vm, a: Step) {
    match a
    case Kalloc => s.free != [] && s.free[0] < |s.refcnt| && s.free[0] < |s.mem|
    case KfreeKernel(g) => g in s.kernel && g < |s.refcnt|
    case KfreeLink(f) => f in s.limbo && f < |s.mem|
    case Inc(p, v) => (p, v) in s.pt && s.pt[(p, v)].frame < |s.refcnt|
    case MapShared(p, c, v) =>
      (p, v) in s.pt && !s.pt[(p, v)].w && (c, v) !in s.pt && (c, v) !in s.stale && s.pt[(p, v)].frame in s.owed
    case MapFails(f) => f in s.owed
    case CowFault(k, g) => k in s.pt && s.pt[k].u && g in s.kernel && g < |s.mem| && s.pt[k].frame < |s.mem|
    case KfreeOwed(f) => f in s.owed && f < |s.refcnt|
    case MapZeroed(k, g, _, _) => k !in s.pt && k !in s.stale && g in s.kernel && g < |s.mem|
    case Store(k, off, bs) => k in s.pt && s.pt[k].u && s.pt[k].w && s.pt[k].frame < |s.mem| && off + |bs| <= PGSIZE
    case Unmap(k) => k in s.pt && s.pt[k].frame < |s.refcnt|
    case Clear(k) => k in s.stale
  }

  function Next(s: Vm, a: Step): Vm
    requires Enabled(s, a)
  {
    match a
    case Kalloc =>
      s.(refcnt := s.refcnt[s.free[0] := 1], free := s.free[1..], kernel := s.kernel + {s.free[0]},
         mem := s.mem[s.free[0] := Filled(5)])
    case KfreeKernel(g) => Dec(s, g).(kernel := s.kernel - {g})
    case KfreeLink(f) => s.(limbo := s.limbo - {f}, free := [f] + s.free, mem := s.mem[f := Filled(1)])
    case Inc(p, v) =>
      var e := s.pt[(p, v)].(w := false);
      s.(refcnt := s.refcnt[e.frame := s.refcnt[e.frame] + 1], pt := s.pt[(p, v) := e],
         owed := s.owed + multiset{e.frame})
    case MapShared(p, c, v) =>
      s.(pt := s.pt[(c, v) := s.pt[(p, v)]], owed := s.owed - multiset{s.pt[(p, v)].frame})
    case MapFails(f) => s.(owed := s.owed - multiset{f}, leaked := s.leaked + multiset{f})
    case CowFault(k, g) =>
      s.(mem := s.mem[g := s.mem[s.pt[k].frame]], kernel := s.kernel - {g},
          pt := s.pt[k := Pte(g, true, true, true, true)],
         owed := s.owed + multiset{s.pt[k].frame})
    case KfreeOwed(f) => Dec(s, f).(owed := s.owed - multiset{f})
    case MapZeroed(k, g, w, x) =>
      s.(mem := s.mem[g := Filled(0)], kernel := s.kernel - {g}, pt := s.pt[k := Pte(g, true, w, x, true)])
    case Store(k, off, bs) =>
      var f := s.pt[k].frame;
      s.(mem := s.mem[f := Splice(s.mem[f], off, bs)])
    case Unmap(k) => Dec(s, s.pt[k].frame).(pt := s.pt - {k}, stale := s.stale[k := s.pt[k]])
    case Clear(k) => s.(stale := s.stale - {k})
  }

  // ----- Eager copying -----

  /** What every process sees: the contents of its pages. */
  function Contents(s: Vm): map<Key, Page>
    requires forall k :: k in s.pt ==> s.pt[k].frame < |s.mem|
  {
    map k | k in s.pt :: s.mem[s.pt[k].frame]
  }

  /** The same steps on a machine where every process has its own copy of every page. */
  function Eager(m: map<Key, Page>, a: Step): map<Key, Page> {
    match a
    case MapShared(p, c, v) => if (p, v) in m then m[(c, v) := m[(p, v)]] else m
    case MapZeroed(k, _, _, _) => m[k := Filled(0)]
    case Store(k, off, bs) => if k in m && off + |bs| <= PGSIZE then m[k := Splice(m[k], off, bs)] else m
    case Unmap(k) => m - {k}
    case _ => m
  }

  // ----- Invariant -----

  function Mappings(pt: map<Key, Pte>, f: int): set<Key> {
    set k | k in pt && pt[k].frame == f
  }

  function Owned(kernel: set<nat>, f: int): nat {
    if f in kernel then 1 else 0
  }

  ghost predicate InRange(s: Vm) {
    && |s.refcnt| == |s.mem|
    && (forall k :: k in s.pt ==> s.pt[k].frame < |s.mem|)
    && (forall f :: f in s.free || f in s.limbo || f in s.kernel || f in s.owed || f in s.leaked ==> f < |s.mem|)
  }

  /** Every reference is counted. */
  ghost predicate Counted(refcnt: seq<int>, pt: map<Key, Pte>, kernel: set<nat>, owed: multiset<nat>,
                          leaked: multiset<nat>) {
    forall f :: 0 <= f < |refcnt| ==> refcnt[f] == |Mappings(pt, f)| + Owned(kernel, f) + owed[f] + leaked[f]
  }

  /** The unreferenced frames are exactly those on the free list or on their way there. */
  ghost predicate FreeExact(refcnt: seq<int>, free: seq<nat>, limbo: set<nat>) {
    && Distinct(free)
    && (forall f :: f in limbo ==> f !in free)
    && forall f :: 0 <= f < |refcnt| ==> (refcnt[f] == 0 <==> f in free || f in limbo)
  }

  /** A frame mapped writable is mapped once. */
  ghost predicate WritablePrivate(pt: map<Key, Pte>) {
    forall k, j :: k in pt && j in pt && pt[k].w && pt[j].frame == pt[k].frame ==> j == k
  }

  ghost predicate KernelPrivate(refcnt: seq<int>, kernel: set<nat>) {
    forall g :: g in kernel && g < |refcnt| ==> refcnt[g] == 1
  }

  ghost predicate Inv(s: Vm) {
    && InRange(s)
    && Counted(s.refcnt, s.pt, s.kernel, s.owed, s.leaked)
    && FreeExact(s.refcnt, s.free, s.limbo)
    && WritablePrivate(s.pt)
    && KernelPrivate(s.refcnt, s.kernel)
    && forall k :: k in s.stale ==> k !in s.pt
  }

  // ----- Counting mappings -----

  lemma Added(pt: map<Key, Pte>, k: Key, e: Pte, f: int)
    requires k !in pt
    ensures |Mappings(pt[k := e], f)| == |Mappings(pt, f)| + if e.frame == f then 1 else 0
  {
    var was, now := Mappings(pt, f), Mappings(pt[k := e], f);
    if e.frame == f {
      assert now == was + {k} && k !in was;
    } else {
      assert now == was;
    }
  }

  lemma Removed(pt: map<Key, Pte>, k: Key, f: int)
    requires k in pt
    ensures |Mappings(pt, f)| == |Mappings(pt - {k}, f)| + if pt[k].frame == f then 1 else 0
  {
    Added(pt - {k}, k, pt[k], f);
    assert (pt - {k})[k := pt[k]] == pt;
  }

  lemma SameFrame(pt: map<Key, Pte>, k: Key, e: Pte, f: int)
    requires k in pt && e.frame == pt[k].frame
    ensures Mappings(pt[k := e], f) == Mappings(pt, f)
  {
  }

  /** A mapped frame is counted, is not owned by the kernel and is neither free nor in limbo. */
  lemma MappedIsLive(s: Vm, k: Key)
    requires Inv(s) && k in s.pt
    ensures s.pt[k].frame < |s.refcnt| == |s.mem|
    ensures s.refcnt[s.pt[k].frame] >= 1 && s.pt[k].frame !in s.kernel
    ensures s.pt[k].frame !in s.free && s.pt[k].frame !in s.limbo
  {
    var f := s.pt[k].frame;
    assert k in Mappings(s.pt, f);
    assert |Mappings(s.pt, f)| >= 1;
  }

  /** A kernel-owned frame is mapped nowhere. */
  lemma KernelIsUnmapped(s: Vm, g: nat)
    requires Inv(s) && g in s.kernel
    ensures g < |s.refcnt| == |s.mem|
    ensures Mappings(s.pt, g) == {} && s.owed[g] == s.leaked[g] == 0 && s.refcnt[g] == 1
    ensures forall k :: k in s.pt ==> s.pt[k].frame != g
  {
    assert |Mappings(s.pt, g)| == 0;
    forall k | k in s.pt ensures s.pt[k].frame != g { assert k !in Mappings(s.pt, g); }
  }

  /** The panics of `kalloc`, `kfree` and `increse` cannot happen. */
  lemma NoPanic(s: Vm)
    requires Inv(s)
    ensures |s.refcnt| == |s.mem| && (s.free != [] ==> s.free[0] < |s.refcnt| && s.refcnt[s.free[0]] == 0)
    ensures forall k :: k in s.pt ==> s.refcnt[s.pt[k].frame] >= 1
    ensures forall g :: g in s.kernel || g in s.owed ==> g < |s.refcnt| && s.refcnt[g] >= 1
  {
    forall k | k in s.pt ensures s.refcnt[s.pt[k].frame] >= 1 { MappedIsLive(s, k); }
    if s.free != [] { assert s.free[0] in s.free; }
  }

  // ----- Each step keeps the invariant -----

  lemma DecKeepsFree(s: Vm, f: nat)
    requires FreeExact(s.refcnt, s.free, s.limbo) && f < |s.refcnt| && s.refcnt[f] >= 1
    ensures FreeExact(Dec(s, f).refcnt, s.free, Dec(s, f).limbo)
  {
  }

  lemma KallocKeepsInv(s: Vm)
    requires Inv(s) && Enabled(s, Kalloc)
    ensures Inv(Next(s, Kalloc))
  {
    var g, s' := s.free[0], Next(s, Kalloc);
    assert s.free == [g] + s'.free;
    assert g !in s'.free;
  }

  lemma KfreeKernelKeepsInv(s: Vm, g: nat)
    requires Inv(s) && Enabled(s, KfreeKernel(g))
    ensures Inv(Next(s, KfreeKernel(g)))
  {
    KernelIsUnmapped(s, g);
    DecKeepsFree(s, g);
  }

  lemma KfreeLinkKeepsInv(s: Vm, f: nat)
    requires Inv(s) && Enabled(s, KfreeLink(f))
    ensures Inv(Next(s, KfreeLink(f)))
  {
  }

  /** One more reference to a live frame, either as a mapping or leaked. */
  lemma IncKeepsFree(s: Vm, f: nat)
    requires Inv(s) && f < |s.refcnt| && s.refcnt[f] >= 1 && f !in s.kernel
    ensures FreeExact(s.refcnt[f := s.refcnt[f] + 1], s.free, s.limbo)
    ensures KernelPrivate(s.refcnt[f := s.refcnt[f] + 1], s.kernel)
  {
  }

  lemma IncKeepsInv(s: Vm, p: nat, v: nat)
    requires Inv(s) && Enabled(s, Inc(p, v))
    ensures Inv(Next(s, Inc(p, v)))
  {
    var e := s.pt[(p, v)].(w := false);
    MappedIsLive(s, (p, v));
    IncKeepsFree(s, e.frame);
    forall f | 0 <= f < |s.refcnt| ensures Mappings(s.pt[(p, v) := e], f) == Mappings(s.pt, f) {
      SameFrame(s.pt, (p, v), e, f);
    }
  }

  lemma MapSharedKeepsInv(s: Vm, p: nat, c: nat, v: nat)
    requires Inv(s) && Enabled(s, MapShared(p, c, v))
    ensures Inv(Next(s, MapShared(p, c, v)))
  {
    var e, s' := s.pt[(p, v)], Next(s, MapShared(p, c, v));
    forall f | 0 <= f < |s.refcnt| ensures |Mappings(s'.pt, f)| == |Mappings(s.pt, f)| + if f == e.frame then 1 else 0 {
      Added(s.pt, (c, v), e, f);
    }
  }

  lemma CowFaultKeepsInv(s: Vm, k: Key, g: nat)
    requires Inv(s) && Enabled(s, CowFault(k, g))
    ensures Inv(Next(s, CowFault(k, g)))
  {
    var s' := Next(s, CowFault(k, g));
    var e := s'.pt[k];
    MappedIsLive(s, k);
    KernelIsUnmapped(s, g);
    forall f | 0 <= f < |s.refcnt|
      ensures |Mappings(s'.pt, f)| == |Mappings(s.pt, f)|
              + (if f == g then 1 else 0) - (if f == s.pt[k].frame then 1 else 0)
    {
      Removed(s.pt, k, f);
      Added(s.pt - {k}, k, e, f);
      assert (s.pt - {k})[k := e] == s'.pt;
    }
  }

  lemma KfreeOwedKeepsInv(s: Vm, f: nat)
    requires Inv(s) && Enabled(s, KfreeOwed(f))
    ensures Inv(Next(s, KfreeOwed(f)))
  {
    assert f !in s.kernel;
    DecKeepsFree(s, f);
  }

  lemma MapZeroedKeepsInv(s: Vm, k: Key, g: nat, w: bool, x: bool)
    requires Inv(s) && Enabled(s, MapZeroed(k, g, w, x))
    ensures Inv(Next(s, MapZeroed(k, g, w, x)))
  {
    var s' := Next(s, MapZeroed(k, g, w, x));
    KernelIsUnmapped(s, g);
    forall f | 0 <= f < |s.refcnt| ensures |Mappings(s'.pt, f)| == |Mappings(s.pt, f)| + if f == g then 1 else 0 {
      Added(s.pt, k, s'.pt[k], f);
    }
  }

  lemma UnmapKeepsInv(s: Vm, k: Key)
    requires Inv(s) && Enabled(s, Unmap(k))
    ensures Inv(Next(s, Unmap(k)))
  {
    MappedIsLive(s, k);
    DecKeepsFree(s, s.pt[k].frame);
    forall f | 0 <= f < |s.refcnt|
      ensures |Mappings(s.pt, f)| == |Mappings(s.pt - {k}, f)| + if f == s.pt[k].frame then 1 else 0
    {
      Removed(s.pt, k, f);
    }
  }

  lemma StepKeepsInv(s: Vm, a: Step)
    requires Inv(s) && Enabled(s, a)
    ensures Inv(Next(s, a))
  {
    hide FreeExact, WritablePrivate, KernelPrivate;
    match a
    case Kalloc => KallocKeepsInv(s);
    case KfreeKernel(g) => KfreeKernelKeepsInv(s, g);
    case KfreeLink(f) => KfreeLinkKeepsInv(s, f);
    case Inc(p, v) => IncKeepsInv(s, p, v);
    case MapShared(p, c, v) => MapSharedKeepsInv(s, p, c, v);
    case MapFails(f) =>
    case CowFault(k, g) => CowFaultKeepsInv(s, k, g);
    case KfreeOwed(f) => KfreeOwedKeepsInv(s, f);
    case MapZeroed(k, g, w, x) => MapZeroedKeepsInv(s, k, g, w, x);
    case Store(k, off, bs) =>
    case Unmap(k) => UnmapKeepsInv(s, k);
    case Clear(k) =>
  }

  // ----- Refinement -----

  /** Changing a frame that is mapped nowhere changes nothing any process sees. */
  lemma UnseenFrame(s: Vm, s': Vm, f: nat)
    requires Inv(s) && f < |s.mem| && (f in s.free || f in s.limbo || f in s.kernel)
    requires s'.pt == s.pt && |s'.mem| == |s.mem| && forall i :: 0 <= i < |s.mem| && i != f ==> s'.mem[i] == s.mem[i]
    ensures Contents(s') == Contents(s)
  {
    forall k | k in s.pt ensures s.pt[k].frame != f { MappedIsLive(s, k); }
  }

  lemma CowFaultUnseen(s: Vm, k: Key, g: nat)
    requires Inv(s) && Enabled(s, CowFault(k, g)) && Inv(Next(s, CowFault(k, g)))
    ensures Contents(Next(s, CowFault(k, g))) == Contents(s)
  {
    hide Counted, FreeExact, WritablePrivate, KernelPrivate;
    KernelIsUnmapped(s, g);
  }

  lemma MapZeroedSeen(s: Vm, k: Key, g: nat, w: bool, x: bool)
    requires Inv(s) && Enabled(s, MapZeroed(k, g, w, x)) && Inv(Next(s, MapZeroed(k, g, w, x)))
    ensures Contents(Next(s, MapZeroed(k, g, w, x))) == Contents(s)[k := Filled(0)]
  {
    hide Counted, FreeExact, WritablePrivate, KernelPrivate;
    KernelIsUnmapped(s, g);
  }

  /** A store reaches the storing process and nobody else. */
  lemma StoreSeen(s: Vm, k: Key, off: nat, bs: seq<nat>)
    requires Inv(s) && Enabled(s, Store(k, off, bs)) && Inv(Next(s, Store(k, off, bs)))
    ensures Contents(Next(s, Store(k, off, bs))) == Contents(s)[k := Splice(Contents(s)[k], off, bs)]
  {
    hide Counted, FreeExact, KernelPrivate, Splice;
    var f := s.pt[k].frame;
    assert forall j :: j in s.pt && j != k ==> s.pt[j].frame != f;
  }

  /** The child's page starts as the parent's. */
  lemma SharedSeen(s: Vm, p: nat, c: nat, v: nat)
    requires Inv(s) && Enabled(s, MapShared(p, c, v)) && Inv(Next(s, MapShared(p, c, v)))
    ensures Contents(Next(s, MapShared(p, c, v))) == Contents(s)[(c, v) := Contents(s)[(p, v)]]
  {
    hide Counted, FreeExact, WritablePrivate, KernelPrivate;
  }

  /** Steps that leave memory alone and change at most flags or remove a page. */
  lemma OthersSeen(s: Vm, a: Step)
    requires Inv(s) && Enabled(s, a) && Inv(Next(s, a))
    requires a.KfreeKernel? || a.Inc? || a.MapFails? || a.KfreeOwed? || a.Unmap? || a.Clear?
    ensures Contents(Next(s, a)) == if a.Unmap? then Contents(s) - {a.k} else Contents(s)
  {
    hide Counted, FreeExact, WritablePrivate, KernelPrivate;
    var s' := Next(s, a);
    assert s'.mem == s.mem && forall k :: k in s'.pt ==> k in s.pt && s'.pt[k].frame == s.pt[k].frame;
  }

  /** Every step does to what processes see exactly what eager copying does. */
  lemma StepRefinesEager(s: Vm, a: Step)
    requires Inv(s) && Enabled(s, a) && Inv(Next(s, a))
    ensures Contents(Next(s, a)) == Eager(Contents(s), a)
  {
    hide Counted, FreeExact, WritablePrivate, KernelPrivate, Splice;
    match a
    case Kalloc => assert s.free[0] in s.free; UnseenFrame(s, Next(s, a), s.free[0]);
    case KfreeLink(f) => UnseenFrame(s, Next(s, a), f);
    case CowFault(k, g) => CowFaultUnseen(s, k, g);
    case MapZeroed(k, g, w, x) => MapZeroedSeen(s, k, g, w, x);
    case Store(k, off, bs) => StoreSeen(s, k, off, bs);
    case MapShared(p, c, v) => SharedSeen(s, p, c, v);
    case _ => OthersSeen(s, a);
  }

  /** A finite interleaving: `ss[i]` goes to `ss[i + 1]` by `acts[i]`. */
  ghost predicate IsRun(ss: seq<Vm>, acts: seq<Step>) {
    && |ss| == |acts| + 1
    && Inv(ss[0])
    && forall i :: 0 <= i < |acts| ==> Moves(ss[i], acts[i], ss[i + 1])
  }

  ghost predicate Moves(s: Vm, a: Step, s': Vm) {
    Enabled(s, a) && s' == Next(s, a)
  }

  function EagerRun(m: map<Key, Page>, acts: seq<Step>): map<Key, Page> {
    if acts == [] then m else Eager(EagerRun(m, acts[..|acts| - 1]), acts[|acts| - 1])
  }

  /** Over every run, each process reads at each address what it would read had fork copied every page. */
  lemma {:induction false} CowRefinesEager(ss: seq<Vm>, acts: seq<Step>, n: nat)
    requires IsRun(ss, acts) && n < |ss|
    ensures Inv(ss[n]) && Contents(ss[n]) == EagerRun(Contents(ss[0]), acts[..n])
  {
    hide Inv, Next, Enabled, Eager, Contents;
    if n == 0 {
      assert acts[..0] == [];
    } else {
      CowRefinesEager(ss, acts, n - 1);
      assert Moves(ss[n - 1], acts[n - 1], ss[n - 1 + 1]);
      StepKeepsInv(ss[n - 1], acts[n - 1]);
      StepRefinesEager(ss[n - 1], acts[n - 1]);
      assert acts[..n][..n - 1] == acts[..n - 1];
    }
  }

  // ----- Frame accounting -----

  /** References something still holds. */
  function Live(s: Vm, f: nat): nat {
    |Mappings(s.pt, f)| + Owned(s.kernel, f) + s.owed[f]
  }

  /** Over every run, a count is never below the number of live references, and exceeds it by the number
      of forks that failed on that very frame. */
  lemma {:induction false} CountsExceedByFailedForks(ss: seq<Vm>, acts: seq<Step>, n: nat, f: nat)
    requires IsRun(ss, acts) && n < |ss| && f < |ss[0].refcnt|
    ensures Inv(ss[n]) && f < |ss[n].refcnt|
    ensures ss[n].refcnt[f] - Live(ss[n], f) == ss[0].refcnt[f] - Live(ss[0], f) + FailedForks(acts[..n], f)
  {
    hide Inv, Next, Enabled;
    if n > 0 {
      CountsExceedByFailedForks(ss, acts, n - 1, f);
      assert Moves(ss[n - 1], acts[n - 1], ss[n - 1 + 1]);
      StepKeepsInv(ss[n - 1], acts[n - 1]);
      ExcessStep(ss[n - 1], acts[n - 1], f);
      assert acts[..n][..n - 1] == acts[..n - 1];
    }
  }

  /** One step changes the excess of a count over the live references only if it is a failed fork. */
  lemma ExcessStep(s: Vm, a: Step, f: nat)
    requires Inv(s) && Enabled(s, a) && Inv(Next(s, a)) && f < |s.refcnt|
    ensures var s' := Next(s, a);
            && f < |s'.refcnt|
            && s'.refcnt[f] - Live(s', f) == s.refcnt[f] - Live(s, f) +
               if a == MapFails(f) then 1 else 0
  {
    assert Next(s, a).leaked == if a.MapFails? then s.leaked + multiset{a.f} else s.leaked;
  }

  function FailedForks(acts: seq<Step>, f: nat): nat {
    if acts == [] then 0 else FailedForks(acts[..|acts| - 1], f) + if acts[|acts| - 1] == MapFails(f) then 1 else 0
  }

  // ----- Entries being torn down -----

  /** The entries that are valid in some page table. */
  function Valid(s: Vm): map<Key, Pte> {
    s.pt + s.stale
  }

  /** A frame on the free list, or on its way there, is listed once, and the only entries still naming it are
      those `uvmunmap` has yet to clear: it is mapped nowhere if and only if there is none. */
  lemma FreeIsUnmapped(s: Vm, f: nat)
    requires Inv(s) && (f in s.free || f in s.limbo)
    ensures Mappings(s.pt, f) == {} && f !in s.kernel && multiset(s.free)[f] + multiset(s.limbo)[f] == 1
    ensures Mappings(Valid(s), f) == Mappings(s.stale, f)
    ensures Mappings(Valid(s), f) == {} <==> forall k :: k in s.stale ==> s.stale[k].frame != f
  {
    assert |Mappings(s.pt, f)| == 0;
    DistinctOnce(s.free, f);
    forall k | k in Valid(s) && Valid(s)[k].frame == f ensures k in s.stale {
      assert k in s.pt ==> k in Mappings(s.pt, f);
    }
    assert Mappings(s.stale, f) == {} ==>
             forall k :: k in s.stale && s.stale[k].frame == f ==> k in Mappings(s.stale, f);
  }

  /** The window is real: `uvmunmap` calls `kfree` before it clears the entry, so after any unmapping of a
      frame's last reference the frame is on the free list, and then in a new owner's hands, with the entry
      still valid. */
  lemma FreedBeforeCleared(s: Vm, k: Key)
    requires Inv(s) && k in s.pt && s.refcnt[s.pt[k].frame] == 1
    ensures var f := s.pt[k].frame;
            && Enabled(s, Unmap(k)) && var s1 := Next(s, Unmap(k));
            && Enabled(s1, KfreeLink(f)) && var s2 := Next(s1, KfreeLink(f));
            && s2.free[0] == f && k in Mappings(Valid(s2), f)
            && Enabled(s2, Kalloc) && var s3 := Next(s2, Kalloc);
            && f in s3.kernel && k in Mappings(Valid(s3), f) && Inv(s3)
  {
    hide Counted, FreeExact, WritablePrivate, KernelPrivate;
    var f := s.pt[k].frame;
    MappedIsLive(s, k);
    StepKeepsInv(s, Unmap(k));
    var s1 := Next(s, Unmap(k));
    StepKeepsInv(s1, KfreeLink(f));
    var s2 := Next(s1, KfreeLink(f));
    assert s2.free == [f] + s.free && s2.stale[k].frame == f;
    StepKeepsInv(s2, Kalloc);
  }

  lemma {:induction false} DistinctOnce(q: seq<nat>, f: nat)
    requires Distinct(q)
    ensures multiset(q)[f] == if f in q then 1 else 0
  {
    if q != [] {
      assert q == q[..|q| - 1] + [q[|q| - 1]];
      DistinctOnce(q[..|q| - 1], f);
    }
  }
}
