/** The copy-on-write code itself: `kalloc`, `kfree`, `increse` (kernel/kalloc.c), `uvmcopy`, `uvmunmap`,
    `uvmalloc`, `uvmdealloc`, `copyout` (kernel/vm.c) and `cowfault` (kernel/trap.c), run by one thread at
    a time. The state is that of module Cow; the loops are proved against what processes see of it.

    Page-table pages come off the same free list as user pages. Of the trees this module keeps which table
    pages there are; module PageTable has their entries. */
module UserMemory {
  import opened Common
  import opened Cow

  const MAXVA: nat := 0x40_0000_0000 // 1 << (9 + 9 + 9 + 12 - 1)

  /** A table page below the root of process `p`: at level 1 one for each 2^18 virtual pages, at level 0 one
      for each 512. */
  datatype Tab = Tab(p: nat, level: nat, i: nat)

  /** The table pages on the way to a page's entry. */
  function Path(k: Key): set<Tab> {
    {Upper(k), Lower(k)}
  }

  /** How many of them are not there. */
  function Lacks(tabs: map<Tab, nat>, k: Key): nat {
    |Path(k) - tabs.Keys|
  }

  /** The reference that the entry for `k` holds. */
  ghost function Ref(m: map<Key, Pte>, k: Key): multiset<nat> {
    if k in m then multiset{m[k].frame} else multiset{}
  }

  function Upper(k: Key): (t: Tab)
    ensures t.level == 1
  {
    Tab(k.0, 1, k.1 / 0x4_0000)
  }

  function Lower(k: Key): (t: Tab)
    ensures t.level == 0
  {
    Tab(k.0, 0, k.1 / 0x200)
  }

  /** Those for virtual pages `lo..hi` of process `p`. */
  function Paths(p: nat, lo: nat, hi: nat): set<Tab> {
    if hi <= lo then {} else Paths(p, lo, hi - 1) + Path((p, hi - 1))
  }

  /** How many of them are missing. */
  function Missing(tabs: map<Tab, nat>, p: nat, lo: nat, hi: nat): nat {
    |Paths(p, lo, hi) - tabs.Keys|
  }

  /** Table pages are distinct frames of the kernel, and every mapped page has its own. */
  ghost predicate TablesOk(tabs: map<Tab, nat>, kernel: set<nat>, keys: set<Key>) {
    && (forall t :: t in tabs ==> tabs[t] in kernel)
    && (forall t, u :: t in tabs && u in tabs && tabs[t] == tabs[u] ==> t == u)
    && (forall k :: k in keys ==> Path(k) <= tabs.Keys)
  }

  lemma PathsNext(p: nat, lo: nat, hi: nat)
    requires lo <= hi
    ensures Paths(p, lo, hi + 1) == Paths(p, lo, hi) + Path((p, hi))
  {
  }

  lemma MissingSplit(keys: set<Tab>, some: set<Tab>, more: set<Tab>)
    ensures |some + more - keys| == |some - keys| + |more - (keys + some)|
    ensures |some - keys| <= |some + more - keys|
  {
    assert some + more - keys == (some - keys) + (more - (keys + some));
  }

  lemma MissingNext(tabs: map<Tab, nat>, tabs': map<Tab, nat>, p: nat, lo: nat, hi: nat)
    requires lo <= hi && tabs'.Keys == tabs.Keys + Paths(p, lo, hi)
    ensures Missing(tabs, p, lo, hi + 1) == Missing(tabs, p, lo, hi) + Lacks(tabs', (p, hi))
    ensures tabs'.Keys + Path((p, hi)) == tabs.Keys + Paths(p, lo, hi + 1)
  {
    hide Path, Paths;
    PathsNext(p, lo, hi);
    MissingSplit(tabs.Keys, Paths(p, lo, hi), Path((p, hi)));
  }

  lemma MissingMore(tabs: map<Tab, nat>, p: nat, lo: nat, hi: nat)
    requires lo <= hi
    ensures Missing(tabs, p, lo, hi) <= Missing(tabs, p, lo, hi + 1)
  {
    hide Path, Paths;
    PathsNext(p, lo, hi);
    MissingSplit(tabs.Keys, Paths(p, lo, hi), Path((p, hi)));
  }

  lemma {:induction false} MissingGrows(tabs: map<Tab, nat>, p: nat, lo: nat, hi: nat, hi': nat)
    requires lo <= hi <= hi'
    ensures Missing(tabs, p, lo, hi) <= Missing(tabs, p, lo, hi')
    decreases hi'
  {
    hide Missing;
    if hi < hi' {
      MissingGrows(tabs, p, lo, hi, hi' - 1);
      MissingMore(tabs, p, lo, hi' - 1);
    }
  }

  lemma NoTables()
    ensures TablesOk(map[], {}, {})
  {
  }

  lemma TablesWithout(tabs: map<Tab, nat>, kernel: set<nat>, keys: set<Key>, keys': set<Key>)
    requires TablesOk(tabs, kernel, keys) && keys' <= keys
    ensures TablesOk(tabs, kernel, keys')
  {
    hide Path;
  }

  lemma TablesMore(tabs: map<Tab, nat>, kernel: set<nat>, keys: set<Key>, t: Tab, g: nat)
    requires TablesOk(tabs, kernel, keys) && t !in tabs && g !in kernel
    ensures TablesOk(tabs[t := g], kernel + {g}, keys)
  {
    hide Path;
  }

  lemma TablesKey(tabs: map<Tab, nat>, kernel: set<nat>, keys: set<Key>, k: Key)
    requires TablesOk(tabs, kernel, keys) && Path(k) <= tabs.Keys
    ensures TablesOk(tabs, kernel, keys + {k})
  {
    hide Path;
  }

  /** `free` pages suffice for pages `lo..hi` of process `p` and the tables they lack. */
  predicate Grown(tabs: map<Tab, nat>, free: nat, p: nat, lo: nat, hi: nat) {
    hi - lo + Missing(tabs, p, lo, hi) <= free
  }

  /** After growing by pages `lo..v`: their tables are there, and `free` pages are left of `free0`. */
  ghost predicate GrownTo(t0: map<Tab, nat>, free0: nat, p: nat, lo: nat, v: nat, tabs: map<Tab, nat>, free: nat) {
    lo <= v && tabs.Keys == t0.Keys + Paths(p, lo, v) && free == free0 - (v - lo) - Missing(t0, p, lo, v)
  }

  lemma GrownStart(t0: map<Tab, nat>, free0: nat, p: nat, lo: nat)
    ensures GrownTo(t0, free0, p, lo, lo, t0, free0)
  {
    NoneMissing(t0, p, lo);
  }

  lemma GrownStep(t0: map<Tab, nat>, free0: nat, p: nat, lo: nat, v: nat, tabs: map<Tab, nat>, free: nat)
    requires GrownTo(t0, free0, p, lo, v, tabs, free)
    ensures Grown(t0, free0, p, lo, v)
    ensures 1 + Lacks(tabs, (p, v)) <= free <==> Grown(t0, free0, p, lo, v + 1)
  {
    hide Path, Paths, Missing;
    MissingNext(t0, tabs, p, lo, v);
  }

  lemma GrownNext(t0: map<Tab, nat>, free0: nat, p: nat, lo: nat, v: nat, tabs: map<Tab, nat>, free: nat,
                  tabs': map<Tab, nat>, free': nat)
    requires GrownTo(t0, free0, p, lo, v, tabs, free)
    requires tabs'.Keys == tabs.Keys + Path((p, v)) && free' == free - 1 - Lacks(tabs, (p, v))
    ensures GrownTo(t0, free0, p, lo, v + 1, tabs', free')
  {
    hide Path, Paths, Missing;
    MissingNext(t0, tabs, p, lo, v);
  }

  lemma NoneMissing(tabs: map<Tab, nat>, p: nat, lo: nat)
    ensures Missing(tabs, p, lo, lo) == 0 && tabs.Keys + Paths(p, lo, lo) == tabs.Keys
  {
    assert Paths(p, lo, lo) - tabs.Keys == {};
  }

  /** The two table pages of a path are different ones. */
  lemma PathCard(k: Key, keys: set<Tab>)
    ensures |Path(k) - keys| == (if Upper(k) in keys then 0 else 1) + (if Lower(k) in keys then 0 else 1)
  {
    assert Path(k) - keys == (if Upper(k) in keys then {} else {Upper(k)})
           + (if Lower(k) in keys then {} else {Lower(k)});
  }

  /** Table pages were only added, in frames the kernel did not own before. */
  ghost predicate Extends(tabs: map<Tab, nat>, kernel: set<nat>, tabs': map<Tab, nat>, kernel': set<nat>) {
    && kernel <= kernel'
    && (forall t :: t in tabs ==> t in tabs' && tabs'[t] == tabs[t])
    && (forall t :: t in tabs' && t !in tabs ==> tabs'[t] !in kernel)
  }

  lemma ExtendsOn(t0: map<Tab, nat>, k0: set<nat>, t1: map<Tab, nat>, k1: set<nat>, t2: map<Tab, nat>, k2: set<nat>)
    requires Extends(t0, k0, t1, k1) && Extends(t1, k1, t2, k2)
    ensures Extends(t0, k0, t2, k2)
  {
  }

  lemma TablesKernel(tabs: map<Tab, nat>, kernel: set<nat>, keys: set<Key>, g: nat)
    requires TablesOk(tabs, kernel, keys)
    ensures TablesOk(tabs, kernel + {g}, keys)
  {
    hide Path;
  }

  /** A frame the kernel holds for something else can leave it. */
  lemma TablesGive(tabs0: map<Tab, nat>, kernel0: set<nat>, keys0: set<Key>, g: nat, tabs: map<Tab, nat>,
                   kernel: set<nat>, keys: set<Key>)
    requires TablesOk(tabs0, kernel0, keys0) && g !in kernel0 && Extends(tabs0, kernel0 + {g}, tabs, kernel)
    requires TablesOk(tabs, kernel, keys)
    ensures TablesOk(tabs, kernel - {g}, keys)
  {
    hide Path;
  }

  lemma OwnedStill(tabs0: map<Tab, nat>, kernel0: set<nat>, g: nat, tabs: map<Tab, nat>, kernel: set<nat>)
    requires Extends(tabs0, kernel0 + {g}, tabs, kernel)
    ensures g in kernel
  {
  }

  lemma PathAdded(k: Key, keys: set<Tab>)
    ensures Upper(k) != Lower(k) && keys + {Upper(k)} + {Lower(k)} == keys + Path(k)
  {
  }

  /** Frames counted down from the last one, none referenced. */
  lemma AllFree(s: Vm, n: nat)
    requires |s.refcnt| == |s.mem| == n && (forall f :: 0 <= f < n ==> s.refcnt[f] == 0)
    requires s.free == seq(n, i requires 0 <= i < n => n - 1 - i) && s.limbo == {} && s.pt == map[] && s.stale == map[]
    requires s.kernel == {} && s.owed == s.leaked == multiset{}
    ensures Inv(s)
  {
    forall f | 0 <= f < n ensures f in s.free && Mappings(s.pt, f) == {} {
      assert s.free[n - 1 - f] == f;
    }
  }

  function PgRoundUp(sz: nat): nat {
    (sz + PGSIZE - 1) / PGSIZE * PGSIZE
  }

  function Pages(sz: nat): nat {
    (sz + PGSIZE - 1) / PGSIZE
  }

  lemma PagesOf(a: nat, v: nat)
    requires a == v * PGSIZE
    ensures Pages(a) == v
  {
  }

  lemma PagesAbove(a: nat, v: nat, sz: nat)
    requires a == v * PGSIZE
    ensures a < sz <==> v < Pages(sz)
  {
  }

  lemma PagesOrder(oldsz: nat, newsz: nat)
    requires oldsz <= newsz
    ensures Pages(oldsz) <= Pages(newsz) && PgRoundUp(oldsz) == Pages(oldsz) * PGSIZE
  {
  }

  /** Pages `0..n` of process `c` as copies of those of process `p`. */
  ghost function Copies(m: map<Key, Page>, p: nat, c: nat, n: nat): map<Key, Page> {
    map v: nat | v < n && (p, v) in m :: (c, v) := m[(p, v)]
  }

  /** Virtual pages `lo..hi` of process `p`. */
  ghost function Range(p: nat, lo: nat, hi: nat): set<Key> {
    set i: nat | lo <= i < hi :: (p, i)
  }

  lemma RangeGrows<T>(m: map<Key, T>, p: nat, lo: nat, hi: nat)
    requires lo <= hi
    ensures m - Range(p, lo, hi) - {(p, hi)} == m - Range(p, lo, hi + 1)
  {
  }

  lemma RangeEmpty<T>(m: map<Key, T>, p: nat, lo: nat)
    ensures m - Range(p, lo, lo) == m
  {
  }

  lemma CopiesGrow(m: map<Key, Page>, p: nat, c: nat, n: nat)
    requires forall v :: 0 <= v <= n ==> (p, v) in m
    ensures (m + Copies(m, p, c, n))[(c, n) := m[(p, n)]] == m + Copies(m, p, c, n + 1)
    ensures (p, n) in m + Copies(m, p, c, n) && (m + Copies(m, p, c, n))[(p, n)] == m[(p, n)]
    ensures (c, n) !in m ==> (c, n) !in m + Copies(m, p, c, n)
  {
  }

  lemma CopiesNone(m: map<Key, Page>, p: nat, c: nat)
    ensures m + Copies(m, p, c, 0) == m
  {
  }

  /** Taking back what fork copied. */
  lemma CopiesUndone(m: map<Key, Page>, p: nat, c: nat, n: nat)
    requires forall v :: 0 <= v < n ==> (p, v) in m && (c, v) !in m
    ensures m + Copies(m, p, c, n) - Range(c, 0, n) == m
    ensures forall v :: 0 <= v < n ==> (c, v) in m + Copies(m, p, c, n)
  {
  }

  /** Pages `lo..hi` of process `p`, all zero. */
  ghost function Zeroes(p: nat, lo: nat, hi: nat): map<Key, Page> {
    map v: nat | lo <= v < hi :: (p, v) := Filled(0)
  }

  lemma ZeroesGrow(m: map<Key, Page>, p: nat, lo: nat, hi: nat)
    requires lo <= hi && forall v :: lo <= v <= hi ==> (p, v) !in m
    ensures (m + Zeroes(p, lo, hi))[(p, hi) := Filled(0)] == m + Zeroes(p, lo, hi + 1)
    ensures (p, hi) !in m + Zeroes(p, lo, hi)
    ensures forall v :: lo <= v < hi ==> (p, v) in m + Zeroes(p, lo, hi)
    ensures m + Zeroes(p, lo, hi) - Range(p, lo, hi) == m
  {
  }

  lemma ZeroesNone(m: map<Key, Page>, p: nat, lo: nat)
    ensures m + Zeroes(p, lo, lo) == m
  {
  }

  /** `m'` is `m` with `bytes` written at address `a` of process `p`: those bytes and no others, of that
      process and no other. */
  ghost predicate Wrote(m: map<Key, Page>, p: nat, a: nat, bytes: seq<nat>, m': map<Key, Page>) {
    && m'.Keys == m.Keys
    && (forall k :: k in m && k.0 != p ==> m'[k] == m[k])
    && (forall v, off :: (p, v) in m && 0 <= off < PGSIZE ==>
          m'[(p, v)][off] == ByteAfter(m[(p, v)][off], v * PGSIZE + off, a, bytes))
  }

  function ByteAfter(was: nat, addr: nat, a: nat, bytes: seq<nat>): nat {
    if a <= addr < a + |bytes| then bytes[addr - a] else was
  }

  lemma WroteNothing(m: map<Key, Page>, p: nat, a: nat)
    ensures Wrote(m, p, a, [], m)
  {
  }

  /** One more page of `copyout`. */
  lemma WroteMore(m0: map<Key, Page>, p: nat, a: nat, done: seq<nat>, m: map<Key, Page>, v: nat, off: nat, bs: seq<nat>)
    requires Wrote(m0, p, a, done, m) && (p, v) in m && off + |bs| <= PGSIZE && a + |done| == v * PGSIZE + off
    ensures Wrote(m0, p, a, done + bs, m[(p, v) := Splice(m[(p, v)], off, bs)])
  {
    var m' := m[(p, v) := Splice(m[(p, v)], off, bs)];
    forall u, i | (p, u) in m0 && 0 <= i < PGSIZE
      ensures m'[(p, u)][i] == ByteAfter(m0[(p, u)][i], u * PGSIZE + i, a, done + bs)
    {
      assert m[(p, u)][i] == ByteAfter(m0[(p, u)][i], u * PGSIZE + i, a, done);
    }
  }

  lemma StepOutcome(s: Vm, a: Step)
    requires Inv(s) && Enabled(s, a)
    ensures Inv(Next(s, a)) && Contents(Next(s, a)) == Eager(Contents(s), a)
  {
    StepKeepsInv(s, a);
    StepRefinesEager(s, a);
  }

  /** `kalloc` gives the kernel a frame it did not own. */
  lemma KallocOwns(s: Vm)
    requires Inv(s) && Enabled(s, Cow.Kalloc)
    ensures s.free[0] !in s.kernel
  {
    assert s.free[0] in s.free;
  }

  // ----- Permissions -----

  /** A user entry that can be read, with the write and the execute bit of `xperm`. */
  predicate Gives(e: Pte, xperm: (bool, bool)) {
    e.r && e.u && e.w == xperm.0 && e.x == xperm.1
  }

  /** Pages `lo..hi` of process `p` are new, open to the user for reading, with those write and execute bits; every
      other entry is as before. */
  ghost predicate NewEntries(m: map<Key, Pte>, m': map<Key, Pte>, p: nat, lo: nat, hi: nat, w: bool, x: bool) {
    && m'.Keys == m.Keys + Range(p, lo, hi) && (forall k :: k in m ==> m'[k] == m[k])
    && forall k: Key :: k in Range(p, lo, hi) ==> m'[k].r && m'[k].u && m'[k].w == w && m'[k].x == x
  }

  lemma NewEntriesNone(m: map<Key, Pte>, p: nat, lo: nat, w: bool, x: bool)
    ensures NewEntries(m, m, p, lo, lo, w, x)
  {
  }

  lemma NewEntriesNext(m: map<Key, Pte>, m1: map<Key, Pte>, p: nat, lo: nat, hi: nat, w: bool, x: bool, e: Pte)
    requires NewEntries(m, m1, p, lo, hi, w, x) && lo <= hi && (p, hi) !in m && e.r && e.u && e.w == w && e.x == x
    ensures NewEntries(m, m1[(p, hi) := e], p, lo, hi + 1, w, x)
  {
    assert Range(p, lo, hi + 1) == Range(p, lo, hi) + {(p, hi)};
    assert (p, hi) !in Range(p, lo, hi);
  }

  lemma NewEntriesUndone(m: map<Key, Pte>, m': map<Key, Pte>, p: nat, lo: nat, hi: nat, w: bool, x: bool)
    requires NewEntries(m, m', p, lo, hi, w, x) && forall k: Key :: k in Range(p, lo, hi) ==> k !in m
    ensures m' - Range(p, lo, hi) == m
  {
  }

  function ReadOnly(e: Pte): Pte {
    Pte(e.frame, e.r, false, e.x, e.u)
  }

  /** Pages `0..n` of process `c` are new, with the parent's entries less the write bit; the parent's first `ro`
      entries have lost it; every other entry is as before. */
  ghost predicate ForkEntries(m: map<Key, Pte>, m': map<Key, Pte>, p: nat, c: nat, n: nat, ro: nat) {
    && m'.Keys == m.Keys + Range(c, 0, n)
    && (forall k: Key :: k in m ==> m'[k] == if k.0 == p && k.1 < ro then ReadOnly(m[k]) else m[k])
    && (forall k: Key :: k in Range(c, 0, n) ==> (p, k.1) in m && m'[k] == ReadOnly(m[(p, k.1)]))
  }

  lemma ForkNone(m: map<Key, Pte>, p: nat, c: nat)
    ensures ForkEntries(m, m, p, c, 0, 0)
  {
  }

  lemma ForkProtects(m: map<Key, Pte>, m1: map<Key, Pte>, p: nat, c: nat, n: nat)
    requires ForkEntries(m, m1, p, c, n, n) && (p, n) in m && p != c
    ensures (p, n) in m1 && m1[(p, n)] == m[(p, n)]
    ensures ForkEntries(m, m1[(p, n) := ReadOnly(m[(p, n)])], p, c, n, n + 1)
  {
  }

  lemma ForkShares(m: map<Key, Pte>, m1: map<Key, Pte>, p: nat, c: nat, n: nat)
    requires ForkEntries(m, m1, p, c, n, n + 1) && (p, n) in m && (c, n) !in m
    ensures ForkEntries(m, m1[(c, n) := ReadOnly(m[(p, n)])], p, c, n + 1, n + 1)
  {
    assert Range(c, 0, n + 1) == Range(c, 0, n) + {(c, n)};
    assert (c, n) !in Range(c, 0, n);
  }

  lemma ForkUndone(m: map<Key, Pte>, m': map<Key, Pte>, p: nat, c: nat, n: nat, ro: nat)
    requires ForkEntries(m, m', p, c, n, ro) && forall k :: k in Range(c, 0, n) ==> k !in m
    ensures ForkEntries(m, m' - Range(c, 0, n), p, c, 0, ro)
  {
  }

  lemma ForkFrame(m: map<Key, Pte>, m': map<Key, Pte>, p: nat, c: nat, n: nat, ro: nat, v: nat)
    requires ForkEntries(m, m', p, c, n, ro) && (p, v) in m
    ensures (p, v) in m' && m'[(p, v)].frame == m[(p, v)].frame
    ensures n <= v && (c, v) !in m ==> (c, v) !in m'
  {
  }

  lemma OutsideRange(m: map<Key, Pte>, p: nat, lo: nat, hi: nat)
    requires forall v :: lo <= v < hi ==> (p, v) !in m
    ensures forall k :: k in Range(p, lo, hi) ==> k !in m
  {
  }

  /** Address `va` is in a user page of process `p`. */
  ghost predicate Writable(m: map<Key, Pte>, p: nat, va: nat) {
    va / PGSIZE * PGSIZE < MAXVA && (p, va / PGSIZE) in m && m[(p, va / PGSIZE)].u
  }

  /** The same pages, and the same of them open to the user. */
  ghost predicate SameUser(m: map<Key, Pte>, m': map<Key, Pte>) {
    m'.Keys == m.Keys && forall k :: k in m ==> m'[k].u == m[k].u
  }

  lemma SameUserStep(m: map<Key, Pte>, m1: map<Key, Pte>, m2: map<Key, Pte>, k: Key)
    requires SameUser(m, m1) && k in m1 && m1[k].u && k in m2 && m2[k].u && m2 == m1[k := m2[k]]
    ensures SameUser(m, m2)
  {
  }

  lemma PageOf(m: map<Key, Pte>, m': map<Key, Pte>, p: nat, va: nat)
    requires SameUser(m, m')
    ensures var va0 := va / PGSIZE * PGSIZE;
            && va0 / PGSIZE == va / PGSIZE
            && (Writable(m, p, va) <==> va0 < MAXVA && (p, va0 / PGSIZE) in m' && m'[(p, va0 / PGSIZE)].u)
  {
  }

  ghost predicate AllWritable(m: map<Key, Pte>, p: nat, lo: nat, hi: nat) {
    forall va :: lo <= va < hi ==> Writable(m, p, va)
  }

  lemma NothingWritable(m: map<Key, Pte>, p: nat, va: nat)
    ensures AllWritable(m, p, va, va) && SameUser(m, m)
  {
  }

  lemma WritableNext(m: map<Key, Pte>, p: nat, lo: nat, va: nat, n: nat)
    requires AllWritable(m, p, lo, va) && Writable(m, p, va) && va % PGSIZE + n <= PGSIZE
    ensures AllWritable(m, p, lo, va + n)
  {
    forall a | va <= a < va + n ensures Writable(m, p, a) {
      SamePage(va, a);
    }
  }

  lemma SamePage(va: nat, a: nat)
    requires va <= a && va % PGSIZE + (a - va) < PGSIZE
    ensures a / PGSIZE == va / PGSIZE
  {
    assert a == va / PGSIZE * PGSIZE + (va % PGSIZE + (a - va));
  }

  class Kernel {
    var refcnt: seq<int>
    var freelist: seq<nat>
    var mem: seq<Page>
    var pt: map<Key, Pte>
    var tabs: map<Tab, nat>
    ghost var kernel: set<nat>
    ghost var owed: multiset<nat>
    ghost var leaked: multiset<nat>

    ghost function View(): Vm
      reads this
    {
      Vm(refcnt, freelist, {}, mem, pt, kernel, owed, leaked, map[])
    }

    ghost predicate Valid()
      reads this
    {
      Inv(View()) && TablesOk(tabs, kernel, pt.Keys)
    }

    ghost function Seen(): (m: map<Key, Page>)
      reads this
      requires Inv(View())
      ensures m.Keys == pt.Keys
    {
      Contents(View())
    }

    /** `kinit`: `freerange` gives every frame one reference and frees it, so the last one is first. */
    constructor (n: nat)
      ensures Valid() && pt == map[] && tabs == map[] && kernel == {} && owed == leaked == multiset{}
      ensures freelist == seq(n, i requires 0 <= i < n => n - 1 - i)
    {
      hide Inv, TablesOk;
      refcnt, freelist, mem := seq(n, _ => 0), [], seq(n, _ => Filled(0));
      pt, tabs, kernel, owed, leaked := map[], map[], {}, multiset{}, multiset{};
      new;
      for f := 0 to n
        invariant |refcnt| == |mem| == n && pt == map[] && tabs == map[] && kernel == {} && owed == leaked == multiset{}
        invariant forall i :: 0 <= i < n ==> refcnt[i] == 0
        invariant freelist == seq(f, i requires 0 <= i < f => f - 1 - i)
      {
        refcnt := refcnt[f := 1];
        Kfree(f);
      }
      AllFree(View(), n);
      NoTables();
      assert pt.Keys == {};
    }

    method Kalloc() returns (r: Option<nat>)
      requires Inv(View())
      modifies this`refcnt, this`freelist, this`mem, this`kernel
      ensures Inv(View()) && Seen() == old(Seen())
      ensures r.None? <==> old(freelist) == []
      ensures r.None? ==> View() == old(View())
      ensures r.Some? ==> Enabled(old(View()), Cow.Kalloc) && View() == Next(old(View()), Cow.Kalloc)
      ensures r.Some? ==> r.value == old(freelist)[0] && freelist == old(freelist)[1..]
      ensures r.Some? ==> r.value !in old(kernel) && kernel == old(kernel) + {r.value}
      ensures r.Some? ==> refcnt == old(refcnt)[r.value := 1] && mem == old(mem)[r.value := Filled(5)]
    {
      if freelist == [] {
        return None;
      }
      ghost var s := View();
      NoPanic(s);
      KallocOwns(s);
      var f := freelist[0];
      assert refcnt[f] == 0; // "refcnt kalloc" is not reached
      refcnt := refcnt[f := 1];
      freelist := freelist[1..];
      mem := mem[f := Filled(5)];
      kernel := kernel + {f};
      StepKeepsInv(s, Cow.Kalloc);
      StepRefinesEager(s, Cow.Kalloc);
      r := Some(f);
    }

    /** The caller drops one reference to `f`; the two sections run one after the other. */
    method Kfree(f: nat)
      requires f < |refcnt| == |mem| && refcnt[f] >= 1
      modifies this`refcnt, this`freelist, this`mem
      ensures refcnt == old(refcnt)[f := old(refcnt)[f] - 1]
      ensures freelist == if old(refcnt)[f] == 1 then [f] + old(freelist) else old(freelist)
      ensures mem == if old(refcnt)[f] == 1 then old(mem)[f := Filled(1)] else old(mem)
    {
      refcnt := refcnt[f := refcnt[f] - 1];
      var tmp := refcnt[f];
      if tmp > 0 {
        return;
      }
      mem := mem[f := Filled(1)];
      freelist := [f] + freelist;
    }
 
    /** One turn of `uvmunmap` with `do_free` set. */
    method UnmapPage(k: Key)
      requires Valid() && k in pt
      modifies this`refcnt, this`freelist, this`mem, this`pt
      ensures Valid() && Seen() == old(Seen()) - {k}
      ensures pt == old(pt) - {k}
    {
      hide Inv, Contents, TablesOk;
      ghost var s := View();
      var f := pt[k].frame;
      MappedIsLive(s, k);
      StepOutcome(s, Unmap(k));
      ghost var s1 := Next(s, Unmap(k));
      Kfree(f); // "kfree panic" is not reached
      ghost var s2 := s1;
      if f in s1.limbo {
        StepOutcome(s1, KfreeLink(f));
        s2 := Next(s1, KfreeLink(f));
      }
      StepOutcome(s2, Clear(k));
      pt := pt - {k};
      TablesWithout(tabs, kernel, old(pt).Keys, pt.Keys);
      assert s2.stale - {k} == map[];
      assert View() == Next(s2, Clear(k));
    }

    /** `uvmunmap` from virtual page `v` on; all the pages are mapped. */
    method Uvmunmap(p: nat, v: nat, npages: nat)
      requires Valid() && forall i :: v <= i < v + npages ==> (p, i) in pt
      modifies this`refcnt, this`freelist, this`mem, this`pt
      ensures Valid() && Seen() == old(Seen()) - Range(p, v, v + npages)
      ensures pt == old(pt) - Range(p, v, v + npages)
    {
      hide Inv, Contents, TablesOk;
      var a := v;
      RangeEmpty(Seen(), p, v);
      RangeEmpty(pt, p, v);
      while a < v + npages
        invariant v <= a <= v + npages && Valid()
        invariant Seen() == old(Seen()) - Range(p, v, a)
        invariant pt == old(pt) - Range(p, v, a)
      {
        assert (p, a) !in Range(p, v, a);
        UnmapPage((p, a));
        RangeGrows(old(Seen()), p, v, a);
        RangeGrows(old(pt), p, v, a);
        a := a + 1;
      }
    }

    /** The walk in `mappages`: adds the table pages on the way to `k` that are missing, or runs out. */
    method AddTables(k: Key) returns (ok: bool)
      requires Valid()
      modifies this`refcnt, this`freelist, this`mem, this`kernel, this`tabs
      ensures Valid() && Seen() == old(Seen()) && Extends(old(tabs), old(kernel), tabs, kernel)
      ensures ok <==> Lacks(old(tabs), k) <= |old(freelist)|
      ensures ok ==> tabs.Keys == old(tabs).Keys + Path(k) && |freelist| == |old(freelist)| - Lacks(old(tabs), k)
      ensures !ok ==> freelist == []
    {
      hide Inv, Contents, TablesOk, Upper, Lower, Path, Extends;
      PathCard(k, tabs.Keys);
      PathAdded(k, tabs.Keys);
      ok := AddTable(Upper(k));
      if ok {
        ghost var t1, k1 := tabs, kernel;
        assert Lower(k) in tabs <==> Lower(k) in old(tabs);
        ok := AddTable(Lower(k));
        ExtendsOn(old(tabs), old(kernel), t1, k1, tabs, kernel);
      }
    }

    method AddTable(t: Tab) returns (ok: bool)
      requires Valid()
      modifies this`refcnt, this`freelist, this`mem, this`kernel, this`tabs
      ensures Valid() && Seen() == old(Seen()) && Extends(old(tabs), old(kernel), tabs, kernel)
      ensures ok <==> t in old(tabs) || old(freelist) != []
      ensures if ok then tabs.Keys == old(tabs).Keys + {t} else tabs == old(tabs) && freelist == []
      ensures ok ==> |freelist| == |old(freelist)| - if t in old(tabs) then 0 else 1
    {
      hide Inv, Contents, TablesOk;
      if t in tabs {
        return true;
      }
      var g := Kalloc();
      if g.None? {
        return false;
      }
      TablesMore(tabs, old(kernel), pt.Keys, t, g.value);
      tabs := tabs[t := g.value];
      ok := true;
    }

    /** One page of fork: the parent's entry loses its write bit, the count goes up, and `mappages` enters
        the page in the child's table unless it finds no page for a table. */
    method SharePage(p: nat, c: nat, v: nat) returns (ok: bool)
      requires Valid() && (p, v) in pt && (c, v) !in pt && owed == multiset{}
      modifies this
      ensures Valid() && owed == multiset{}
      ensures ok <==> Lacks(old(tabs), (c, v)) <= |old(freelist)|
      ensures Seen() == if ok then old(Seen())[(c, v) := old(Seen())[(p, v)]] else old(Seen())
      ensures leaked == if ok then old(leaked) else old(leaked) + Ref(old(pt), (p, v))
      ensures ok ==> tabs.Keys == old(tabs).Keys + Path((c, v))
                     && |freelist| == |old(freelist)| - Lacks(old(tabs), (c, v))
      ensures var e := ReadOnly(old(pt)[(p, v)]);
              pt == if ok then old(pt)[(p, v) := e][(c, v) := e] else old(pt)[(p, v) := e]
    {
      hide Inv, Contents, TablesOk, Path, Lacks;
      var e := TakeRef(p, v);
      assert pt.Keys == old(pt).Keys;
      ok := AddTables((c, v));
      MapChild(p, c, v, e, ok);
    }

    /** The parent's entry loses its write bit and `increse` counts one more reference. */
    method TakeRef(p: nat, v: nat) returns (e: Pte)
      requires Valid() && (p, v) in pt
      modifies this`refcnt, this`pt, this`owed
      ensures Valid() && Seen() == old(Seen()) && owed == old(owed) + multiset{e.frame}
      ensures e == ReadOnly(old(pt)[(p, v)]) && pt == old(pt)[(p, v) := e]
    {
      hide Inv, Contents, TablesOk;
      ghost var s := View();
      MappedIsLive(s, (p, v)); // "increase ref cnt" is not reached
      StepOutcome(s, Inc(p, v));
      e := pt[(p, v)].(w := false);
      pt := pt[(p, v) := e];
      refcnt := refcnt[e.frame := refcnt[e.frame] + 1];
      owed := owed + multiset{e.frame};
      assert View() == Next(s, Inc(p, v)) && pt.Keys == old(pt).Keys;
    }

    /** The end of `mappages`, or its failure. */
    method MapChild(p: nat, c: nat, v: nat, e: Pte, ok: bool)
      requires Valid() && (p, v) in pt && pt[(p, v)] == e && !e.w && (c, v) !in pt && e.frame in owed
      requires ok ==> Path((c, v)) <= tabs.Keys
      modifies this`pt, this`owed, this`leaked
      ensures Valid() && owed == old(owed) - multiset{e.frame}
      ensures Seen() == if ok then old(Seen())[(c, v) := old(Seen())[(p, v)]] else old(Seen())
      ensures leaked == if ok then old(leaked) else old(leaked) + multiset{e.frame}
      ensures pt == if ok then old(pt)[(c, v) := e] else old(pt)
    {
      hide Inv, Contents, TablesOk, Path;
      ghost var s := View();
      ghost var step := if ok then MapShared(p, c, v) else MapFails(e.frame);
      StepOutcome(s, step);
      if ok {
        TablesKey(tabs, kernel, pt.Keys, (c, v));
        pt := pt[(c, v) := e];
        assert pt.Keys == old(pt).Keys + {(c, v)};
      } else {
        leaked := leaked + multiset{e.frame};
      }
      owed := owed - multiset{e.frame};
      assert View() == Next(s, step);
    }

    /** The loop of `uvmcopy`, up to its end or to the failure on virtual page `v`. */
    method SharePages(p: nat, c: nat, sz: nat) returns (ok: bool, v: nat)
      requires Valid() && sz <= MAXVA && owed == multiset{}
      requires forall v :: 0 <= v < Pages(sz) ==> (p, v) in pt && (c, v) !in pt
      modifies this
      ensures Valid() && owed == multiset{} && v <= Pages(sz) && Missing(old(tabs), c, 0, v) <= |old(freelist)|
      ensures if ok then v == Pages(sz) else v < Pages(sz) && |old(freelist)| < Missing(old(tabs), c, 0, v + 1)
      ensures Seen() == old(Seen()) + Copies(old(Seen()), p, c, v)
      ensures leaked == if ok then old(leaked) else old(leaked) + Ref(old(pt), (p, v))
      ensures ForkEntries(old(pt), pt, p, c, v, if ok then v else v + 1)
    {
      hide Inv, Contents, Copies, TablesOk, Missing, Path, Lacks, ForkEntries, ReadOnly;
      var i := 0;
      v := 0;
      ghost var m, t0 := Seen(), tabs;
      ForkNone(pt, p, c);
      CopiesNone(m, p, c);
      NoneMissing(t0, c, 0);
      while i < sz
        invariant i == v * PGSIZE && v <= Pages(sz)
        invariant Valid() && leaked == old(leaked) && owed == multiset{}
        invariant Seen() == m + Copies(m, p, c, v)
        invariant ForkEntries(old(pt), pt, p, c, v, v)
        invariant tabs.Keys == t0.Keys + Paths(c, 0, v) && |freelist| == |old(freelist)| - Missing(t0, c, 0, v)
        decreases sz - i
      {
        CopiesGrow(m, p, c, v);
        MissingNext(t0, tabs, c, 0, v);
        ForkFrame(old(pt), pt, p, c, v, v, v);
        ForkProtects(old(pt), pt, p, c, v);
        ghost var pt1 := pt[(p, v) := ReadOnly(old(pt)[(p, v)])];
        var mapped := SharePage(p, c, v);
        if !mapped {
          return false, v;
        }
        ForkShares(old(pt), pt1, p, c, v);
        i, v := i + PGSIZE, v + 1;
      }
      ok := true;
    }

    /** `uvmcopy`. It succeeds exactly when the free list has a page for every table page the child lacks, and
        then the child sees a copy of the parent's memory. On failure the pages already shared are taken back,
        and the reference to the first page that could not be mapped is lost. Nobody else sees a difference. */
    method Uvmcopy(p: nat, c: nat, sz: nat) returns (ok: bool, ghost v: nat)
      requires Valid() && sz <= MAXVA && owed == multiset{}
      requires forall v :: 0 <= v < Pages(sz) ==> (p, v) in pt && (c, v) !in pt
      modifies this
      ensures Valid() && owed == multiset{}
      ensures ok <==> Missing(old(tabs), c, 0, Pages(sz)) <= |old(freelist)|
      ensures ok ==> Seen() == old(Seen()) + Copies(old(Seen()), p, c, Pages(sz)) && leaked == old(leaked)
      ensures !ok ==> v < Pages(sz) && Missing(old(tabs), c, 0, v) <= |old(freelist)| < Missing(old(tabs), c, 0, v + 1)
      ensures !ok ==> Seen() == old(Seen()) && leaked == old(leaked) + Ref(old(pt), (p, v))
      ensures ForkEntries(old(pt), pt, p, c, if ok then Pages(sz) else 0, if ok then Pages(sz) else v + 1)
    {
      hide Inv, Contents, Copies, TablesOk, Missing, ForkEntries;
      var i;
      ok, i := SharePages(p, c, sz);
      v := i;
      if !ok {
        MissingGrows(old(tabs), c, 0, i + 1, Pages(sz));
        CopiesUndone(old(Seen()), p, c, i);
        OutsideRange(old(pt), c, 0, i);
        ForkUndone(old(pt), pt, p, c, i, i + 1);
        Uvmunmap(c, 0, i);
      }
    }

    /** `kfree` of a frame the kernel owns. */
    method KfreeOwned(g: nat)
      requires Inv(View()) && g in kernel
      modifies this`refcnt, this`freelist, this`mem, this`kernel
      ensures Inv(View()) && Seen() == old(Seen()) && kernel == old(kernel) - {g}
    {
      hide Inv, Contents;
      ghost var s := View();
      KernelIsUnmapped(s, g);
      StepOutcome(s, KfreeKernel(g));
      ghost var s1 := Next(s, KfreeKernel(g));
      StepOutcome(s1, KfreeLink(g));
      Kfree(g);
      kernel := kernel - {g};
      assert View() == Next(s1, KfreeLink(g));
    }

    /** `cowfault`: a private copy of one page, made even if the page was private already. */
    method Cowfault(p: nat, va: nat) returns (ok: bool)
      requires Valid()
      modifies this`refcnt, this`freelist, this`mem, this`pt, this`kernel, this`owed
      ensures Valid() && owed == old(owed) && Seen() == old(Seen()) && kernel == old(kernel)
      ensures ok <==> va < MAXVA && (p, va / PGSIZE) in old(pt) && old(pt)[(p, va / PGSIZE)].u && old(freelist) != []
      ensures ok ==> var k := (p, va / PGSIZE); k in pt && pt == old(pt)[k := Pte(pt[k].frame, true, true, true, true)]
      ensures !ok ==> View() == old(View())
    {
      hide Inv, Contents, TablesOk;
      if va >= MAXVA {
        return false;
      }
      var k := (p, va / PGSIZE);
      if k !in pt || !pt[k].u {
        return false;
      }
      var pa1 := pt[k].frame;
      var pa2 := Kalloc();
      if pa2.None? {
        return false;
      }
      ok := true;
      Remap(k, pa1, pa2.value);
      assert kernel == old(kernel) && pt.Keys == old(pt).Keys;
    }

    /** The part of `cowfault` after its allocation. */
    method Remap(k: Key, pa1: nat, pa2: nat)
      requires Inv(View()) && k in pt && pt[k].u && pt[k].frame == pa1 && pa2 in kernel
      modifies this`refcnt, this`freelist, this`mem, this`pt, this`kernel, this`owed
      ensures owed == old(owed)
      ensures Inv(View()) && Seen() == old(Seen()) && kernel == old(kernel) - {pa2}
      ensures pt == old(pt)[k := Pte(pa2, true, true, true, true)]
    {
      hide Inv, Contents;
      ghost var s := View();
      MappedIsLive(s, k);
      KernelIsUnmapped(s, pa2);
      StepOutcome(s, CowFault(k, pa2));
      ghost var s1 := Next(s, CowFault(k, pa2));
      mem := mem[pa2 := mem[pa1]];
      pt := pt[k := Pte(pa2, true, true, true, true)];
      kernel := kernel - {pa2};
      owed := owed + multiset{pa1};
      assert View() == s1;
      DropOwed(pa1);
      assert owed == old(owed);
    }

    /** `kfree` of the page that `cowfault` replaced. */
    method DropOwed(f: nat)
      requires Inv(View()) && f in owed
      modifies this`refcnt, this`freelist, this`mem, this`owed
      ensures Inv(View()) && Seen() == old(Seen()) && owed == old(owed) - multiset{f}
    {
      hide Inv, Contents;
      ghost var s := View();
      NoPanic(s);
      StepOutcome(s, KfreeOwed(f));
      ghost var s1 := Next(s, KfreeOwed(f));
      Kfree(f); // "kfree panic" is not reached
      owed := owed - multiset{f};
      if f in s1.limbo {
        StepOutcome(s1, KfreeLink(f));
        assert View() == Next(s1, KfreeLink(f));
      } else {
        assert View() == s1;
      }
    }

    /** One page's share of `copyout` after `cowfault`: `memmove` into the page. */
    method WritePage(k: Key, off: nat, bs: seq<nat>)
      requires Valid() && k in pt && pt[k].w && pt[k].u && off + |bs| <= PGSIZE
      modifies this`mem
      ensures Valid() && Seen() == old(Seen())[k := Splice(old(Seen())[k], off, bs)]
    {
      hide Inv, Contents, TablesOk;
      ghost var s := View();
      MappedIsLive(s, k);
      StepOutcome(s, Store(k, off, bs));
      mem := mem[pt[k].frame := Splice(mem[pt[k].frame], off, bs)];
      assert View() == Next(s, Store(k, off, bs));
    }

    /** `copyout`. On success exactly the bytes `src` are in place; on failure those before the first page that the
        process may not have or that no frame is left for. */
    method Copyout(p: nat, dstva: nat, src: seq<nat>) returns (ok: bool, ghost done: nat)
      requires Valid()
      modifies this`refcnt, this`freelist, this`mem, this`pt, this`kernel, this`owed
      ensures Valid() && owed == old(owed) && done <= |src| && (ok <==> done == |src|)
      ensures Wrote(old(Seen()), p, dstva, src[..done], Seen())
      ensures !ok ==> (done == 0 || (dstva + done) % PGSIZE == 0)
                      && (!Writable(old(pt), p, dstva + done) || freelist == [])
      ensures AllWritable(old(pt), p, dstva, dstva + done)
    {
      hide Inv, Contents, TablesOk, Wrote, Splice, Writable, AllWritable, SameUser;
      done := 0;
      NothingWritable(pt, p, dstva);
      WroteNothing(Seen(), p, dstva);
      assert src[..0] == [];
      var len, dst, from := |src|, dstva, 0;
      while len > 0
        invariant Valid() && owed == old(owed) && 0 <= from && 0 <= len && from + len == |src| && done == from
        invariant len > 0 ==> dst == dstva + from
        invariant Wrote(old(Seen()), p, dstva, src[..from], Seen()) && SameUser(old(pt), pt)
        invariant from == 0 || len == 0 || (dstva + from) % PGSIZE == 0
        invariant AllWritable(old(pt), p, dstva, dstva + from)
      {
        var va0 := dst / PGSIZE * PGSIZE;
        PageOf(old(pt), pt, p, dst);
        if va0 > MAXVA {
          return false, done;
        }
        ghost var pt1 := pt;
        var faulted := Cowfault(p, va0);
        if !faulted {
          return false, done;
        }
        var n := PGSIZE - (dst - va0);
        if n > len {
          n := len;
        }
        var v, bs := dst / PGSIZE, src[from..from + n];
        assert va0 / PGSIZE == v;
        SameUserStep(old(pt), pt1, pt, (p, v));
        WritableNext(old(pt), p, dstva, dst, n);
        WroteMore(old(Seen()), p, dstva, src[..from], Seen(), v, dst - va0, bs);
        assert src[..from + n] == src[..from] + bs;
        WritePage((p, v), dst - va0, bs);
        len, from, done := len - n, from + n, from + n;
        dst := va0 + PGSIZE;
      }
      ok := true;
    }
 
    /** One page of `uvmalloc`: allocate, clear, map. */
    method AllocPage(k: Key, xperm: (bool, bool)) returns (ok: bool)
      requires Valid() && k !in pt
      modifies this`refcnt, this`freelist, this`mem, this`pt, this`kernel, this`tabs
      ensures Valid() && (ok <==> 1 + Lacks(old(tabs), k) <= |old(freelist)|)
      ensures Seen() == if ok then old(Seen())[k := Filled(0)] else old(Seen())
      ensures ok ==> tabs.Keys == old(tabs).Keys + Path(k) && |freelist| == |old(freelist)| - 1 - Lacks(old(tabs), k)
      ensures if ok then k in pt && pt == old(pt)[k := pt[k]] && Gives(pt[k], xperm) else pt == old(pt)
    {
      hide Inv, Contents, TablesOk, Path, Lacks, Extends;
      var g := Kalloc();
      if g.None? {
        return false;
      }
      TablesKernel(tabs, kernel - {g.value}, pt.Keys, g.value);
      assert kernel - {g.value} == old(kernel);
      ok := AddTables(k);
      TablesGive(old(tabs), old(kernel), pt.Keys, g.value, tabs, kernel, pt.Keys);
      OwnedStill(old(tabs), old(kernel), g.value, tabs, kernel);
      if ok {
        TablesKey(tabs, kernel - {g.value}, pt.Keys, k);
        MapNew(k, g.value, xperm);
        assert pt.Keys == old(pt).Keys + {k};
      } else {
        KfreeOwned(g.value);
      }
    }

    /** The rest of `uvmalloc` for one page whose tables are there. */
    method MapNew(k: Key, g: nat, xperm: (bool, bool))
      requires Inv(View()) && k !in pt && g in kernel
      modifies this`mem, this`pt, this`kernel
      ensures Inv(View()) && Seen() == old(Seen())[k := Filled(0)]
      ensures kernel == old(kernel) - {g} && k in pt && pt == old(pt)[k := pt[k]] && Gives(pt[k], xperm)
    {
      hide Inv, Contents;
      ghost var s := View();
      ghost var step := MapZeroed(k, g, xperm.0, xperm.1);
      KernelIsUnmapped(s, g);
      StepOutcome(s, step);
      mem := mem[g := Filled(0)];
      pt := pt[k := Pte(g, true, xperm.0, xperm.1, true)];
      kernel := kernel - {g};
      assert View() == Next(s, step);
    }

    /** `uvmdealloc`: returns the new size. */
    method Uvmdealloc(p: nat, oldsz: nat, newsz: nat) returns (sz: nat)
      requires Valid() && forall v :: Pages(newsz) <= v < Pages(oldsz) ==> (p, v) in pt
      modifies this`refcnt, this`freelist, this`mem, this`pt
      ensures Valid() && sz == if newsz < oldsz then newsz else oldsz
      ensures Seen() == old(Seen()) - Range(p, Pages(sz), Pages(oldsz))
      ensures pt == old(pt) - Range(p, Pages(sz), Pages(oldsz))
    {
      hide Inv, Contents, TablesOk;
      RangeEmpty(pt, p, Pages(oldsz));
      if newsz >= oldsz {
        RangeEmpty(Seen(), p, Pages(oldsz));
        return oldsz;
      }
      if PgRoundUp(newsz) < PgRoundUp(oldsz) {
        var npages := (PgRoundUp(oldsz) - PgRoundUp(newsz)) / PGSIZE;
        Uvmunmap(p, PgRoundUp(newsz) / PGSIZE, npages);
      } else {
        assert Pages(newsz) == Pages(oldsz);
        RangeEmpty(Seen(), p, Pages(oldsz));
      }
      sz := newsz;
    }

    /** `uvmalloc`. It succeeds exactly when the free list has a page for each new page and for each table page
        they lack; the new pages then read as zero. On failure (0) nothing any process sees has changed. */
    method Uvmalloc(p: nat, oldsz: nat, newsz: nat, xperm: (bool, bool)) returns (r: nat, ok: bool)
      requires Valid() && newsz <= MAXVA && forall v :: Pages(oldsz) <= v < Pages(newsz) ==> (p, v) !in pt
      modifies this`refcnt, this`freelist, this`mem, this`pt, this`kernel, this`tabs
      ensures Valid()
      ensures newsz < oldsz ==> ok && r == oldsz && Seen() == old(Seen())
      ensures newsz >= oldsz ==>
                var lo, hi := Pages(oldsz), Pages(newsz);
                && (ok <==> Grown(old(tabs), |old(freelist)|, p, lo, hi))
                && (ok ==> r == newsz && Seen() == old(Seen()) + Zeroes(p, lo, hi))
      ensures !ok ==> r == 0 && Seen() == old(Seen()) && pt == old(pt)
      ensures ok ==> NewEntries(old(pt), pt, p, Pages(oldsz), if newsz < oldsz then Pages(oldsz) else Pages(newsz),
                                xperm.0, xperm.1)
    {
      hide Inv, Contents, TablesOk, Zeroes, Range, Missing, Pages, PgRoundUp, NewEntries;
      NewEntriesNone(pt, p, Pages(oldsz), xperm.0, xperm.1);
      if newsz < oldsz {
        return oldsz, true;
      }
      var lo := Pages(oldsz);
      ghost var hi := Pages(newsz);
      PagesOrder(oldsz, newsz);
      var base := PgRoundUp(oldsz);
      var a, v := GrowPages(p, base, newsz, xperm, lo);
      if a < newsz {
        MissingGrows(old(tabs), p, lo, v + 1, hi);
        PagesOf(a, v);
        PagesOf(base, lo);
        ZeroesGrow(old(Seen()), p, lo, v);
        OutsideRange(old(pt), p, lo, v);
        NewEntriesUndone(old(pt), pt, p, lo, v, xperm.0, xperm.1);
        var sz := Uvmdealloc(p, a, base);
        return 0, false;
      }
      return newsz, true;
    }

    /** The loop of `uvmalloc` from page boundary `base`, up to its end or to the page it fails on. */
    method GrowPages(p: nat, base: nat, newsz: nat, xperm: (bool, bool), lo: nat) returns (a: nat, v: nat)
      requires Valid() && base == lo * PGSIZE && newsz <= MAXVA && lo <= Pages(newsz)
      requires forall v :: lo <= v < Pages(newsz) ==> (p, v) !in pt
      modifies this`refcnt, this`freelist, this`mem, this`pt, this`kernel, this`tabs
      ensures Valid() && Seen() == old(Seen()) + Zeroes(p, lo, v) && lo <= v <= Pages(newsz) && a == v * PGSIZE
      ensures Grown(old(tabs), |old(freelist)|, p, lo, v)
      ensures if a < newsz then v < Pages(newsz) && !Grown(old(tabs), |old(freelist)|, p, lo, v + 1)
              else v == Pages(newsz)
      ensures NewEntries(old(pt), pt, p, lo, v, xperm.0, xperm.1)
    {
      hide Inv, Contents, TablesOk, Zeroes, Pages, Path, Lacks, Grown, GrownTo, NewEntries;
      NewEntriesNone(pt, p, lo, xperm.0, xperm.1);
      a := base;
      v := lo;
      ghost var m, t0, free0 := Seen(), tabs, |freelist|;
      ZeroesNone(m, p, lo);
      GrownStart(t0, free0, p, lo);
      while a < newsz
        invariant a == v * PGSIZE && lo <= v <= Pages(newsz) && Valid()
        invariant Seen() == m + Zeroes(p, lo, v) && GrownTo(t0, free0, p, lo, v, tabs, |freelist|)
        invariant NewEntries(old(pt), pt, p, lo, v, xperm.0, xperm.1)
        decreases newsz - a
      {
        PagesAbove(a, v, newsz);
        ZeroesGrow(m, p, lo, v);
        GrownStep(t0, free0, p, lo, v, tabs, |freelist|);
        ghost var t, free, pt1 := tabs, |freelist|, pt;
        var mapped := AllocPage((p, v), xperm);
        if !mapped {
          return;
        }
        GrownNext(t0, free0, p, lo, v, t, free, tabs, |freelist|);
        NewEntriesNext(old(pt), pt1, p, lo, v, xperm.0, xperm.1, pt[(p, v)]);
        a, v := a + PGSIZE, v + 1;
      }
      PagesAbove(a, v, newsz);
      GrownStep(t0, free0, p, lo, v, tabs, |freelist|);
    }
  }
}
