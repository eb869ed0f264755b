/** The three-level Sv39 page table of kernel/vm.c: table pages linked by frame number, and the flat map
    from virtual pages to entries that they stand for. */
module PageTable {
  import opened Common

  const PGSIZE: nat := 4096
  const ENTRIES: nat := 512
  const MAXVA: nat := 0x40_0000_0000
  const MAXVPN: nat := MAXVA / PGSIZE

  /** A page-table entry: the valid bit, the permission bits and the physical page number. */
  datatype Pte = Pte(v: bool, r: bool, w: bool, x: bool, u: bool, ppn: nat)

  const NONE := Pte(false, false, false, false, false, 0)

  datatype Perm = Perm(r: bool, w: bool, x: bool, u: bool)

  type Table = seq<Pte>
  type Memory = map<nat, Table>

  function Blank(): (t: Table)
    ensures |t| == ENTRIES && forall i :: 0 <= i < ENTRIES ==> t[i] == NONE
  {
    seq(ENTRIES, _ => NONE)
  }

  /** `PX(level, va)` for the virtual page number `vpn`. */
  function Px(level: nat, vpn: nat): (i: nat)
    requires level <= 2
    ensures i < ENTRIES
  {
    if level == 0 then vpn % ENTRIES
    else if level == 1 then vpn / ENTRIES % ENTRIES
    else vpn / ENTRIES / ENTRIES % ENTRIES
  }

  lemma PxInjective(a: nat, b: nat)
    requires a < MAXVPN && b < MAXVPN
    requires Px(0, a) == Px(0, b) && Px(1, a) == Px(1, b) && Px(2, a) == Px(2, b)
    ensures a == b
  {
  }

  /** The three indices are the digits of the page number. */
  lemma PxDigits(vpn: nat)
    requires vpn < MAXVPN
    ensures vpn == (Px(2, vpn) * ENTRIES + Px(1, vpn)) * ENTRIES + Px(0, vpn)
  {
    assert vpn == vpn / ENTRIES * ENTRIES + vpn % ENTRIES;
    assert vpn / ENTRIES == vpn / ENTRIES / ENTRIES * ENTRIES + vpn / ENTRIES % ENTRIES;
  }

  lemma PxOf(k: nat, i: nat, j: nat) returns (a: nat)
    requires k < ENTRIES / 2 && i < ENTRIES && j < ENTRIES
    ensures a < MAXVPN && Px(0, a) == j && Px(1, a) == i && Px(2, a) == k
  {
    a := (k * ENTRIES + i) * ENTRIES + j;
    assert a / ENTRIES == k * ENTRIES + i;
  }

  // ----- Table pages form a tree -----

  predicate IsTable(t: Memory, f: nat) {
    f in t && |t[f]| == ENTRIES
  }

  /** Entry `i` of table page `f` points to a table page. */
  predicate Points(t: Memory, lvl: map<nat, nat>, f: nat, i: int) {
    IsTable(t, f) && f in lvl && lvl[f] > 0 && 0 <= i < ENTRIES && t[f][i].v
  }

  /** Every table page has a level; only the root is at level 2; pointers go down one level, carry no
      permission, and no two of them lead to the same page. */
  ghost predicate Tree(t: Memory, root: nat, lvl: map<nat, nat>) {
    && root in t && lvl.Keys == t.Keys && lvl[root] == 2
    && (forall f :: f in t ==> |t[f]| == ENTRIES && lvl[f] <= 2 && (lvl[f] == 2 ==> f == root))
    && (forall f, i :: Points(t, lvl, f, i) ==> PointsDown(t, lvl, f, i))
    && (forall f, i, g, j :: Points(t, lvl, f, i) && Points(t, lvl, g, j) && t[f][i].ppn == t[g][j].ppn ==>
          f == g && i == j)
  }

  ghost predicate PointsDown(t: Memory, lvl: map<nat, nat>, f: nat, i: int)
    requires Points(t, lvl, f, i)
  {
    var e := t[f][i];
    e.ppn in t && e.ppn in lvl && lvl[e.ppn] == lvl[f] - 1 && !e.r && !e.w && !e.x
  }

  /** `walk` refuses addresses from MAXVA on, so the upper half of the root stays empty. */
  ghost predicate LowHalf(t: Memory, root: nat) {
    IsTable(t, root) && forall i :: ENTRIES / 2 <= i < ENTRIES ==> !t[root][i].v
  }

  /** Every table page but the root is pointed to. */
  ghost predicate Connected(t: Memory, root: nat, lvl: map<nat, nat>) {
    forall g :: g in t && g != root ==> HasParent(t, lvl, g)
  }

  ghost predicate HasParent(t: Memory, lvl: map<nat, nat>, g: nat) {
    exists f, i :: Points(t, lvl, f, i) && t[f][i].ppn == g
  }

  // ----- The flat map -----

  /** The next table page on the path, if entry `i` of `f` is valid. */
  function Down(t: Memory, f: nat, i: nat): Option<nat> {
    if IsTable(t, f) && i < ENTRIES && t[f][i].v then Some(t[f][i].ppn) else None
  }

  /** The level-0 table page of a virtual page. */
  function Bottom(t: Memory, root: nat, vpn: nat): Option<nat> {
    match Down(t, root, Px(2, vpn))
    case None => None
    case Some(f) => Down(t, f, Px(1, vpn))
  }

  /** The entry of a virtual page; an invalid one if there is no table page for it. */
  function Flat(t: Memory, root: nat, vpn: nat): Pte {
    match Bottom(t, root, vpn)
    case None => NONE
    case Some(f) => if IsTable(t, f) then t[f][Px(0, vpn)] else NONE
  }

  /** The flat maps agree except on pages `lo..hi`. */
  ghost predicate SameOutside(t: Memory, t': Memory, root: nat, lo: nat, hi: nat) {
    forall a :: 0 <= a < MAXVPN && !(lo <= a < hi) ==> Flat(t', root, a) == Flat(t, root, a)
  }

  /** A level-0 table page serves one aligned group of virtual pages. */
  lemma BottomInjective(t: Memory, root: nat, lvl: map<nat, nat>, a: nat, b: nat)
    requires Tree(t, root, lvl) && a < MAXVPN && b < MAXVPN
    requires Bottom(t, root, a).Some? && Bottom(t, root, a) == Bottom(t, root, b) && Px(0, a) == Px(0, b)
    ensures a == b
  {
    var fa, fb := t[root][Px(2, a)].ppn, t[root][Px(2, b)].ppn;
    assert Points(t, lvl, root, Px(2, a)) && Points(t, lvl, root, Px(2, b));
    assert Points(t, lvl, fa, Px(1, a)) && Points(t, lvl, fb, Px(1, b));
    PxInjective(a, b);
  }

  /** Where a path ends. */
  lemma BottomLevel(t: Memory, root: nat, lvl: map<nat, nat>, a: nat)
    requires Tree(t, root, lvl) && Bottom(t, root, a).Some?
    ensures IsTable(t, Bottom(t, root, a).value) && lvl[Bottom(t, root, a).value] == 0
  {
    var f := t[root][Px(2, a)].ppn;
    assert Points(t, lvl, root, Px(2, a));
    assert Points(t, lvl, f, Px(1, a));
  }

  /** Setting a level-0 entry changes the flat map at one virtual page and the tree not at all. */
  lemma SetLeaf(t: Memory, root: nat, lvl: map<nat, nat>, a: nat, f: nat, e: Pte)
    requires Tree(t, root, lvl) && a < MAXVPN && Bottom(t, root, a) == Some(f)
    ensures IsTable(t, f)
    ensures var t' := t[f := t[f][Px(0, a) := e]];
            && Tree(t', root, lvl) && (Connected(t, root, lvl) ==> Connected(t', root, lvl))
            && (LowHalf(t, root) ==> LowHalf(t', root))
            && Flat(t', root, a) == e && SameOutside(t, t', root, a, a + 1)
  {
    BottomLevel(t, root, lvl, a);
    var t' := t[f := t[f][Px(0, a) := e]];
    assert forall g, i :: Points(t', lvl, g, i) ==> Points(t, lvl, g, i) && t'[g][i] == t[g][i];
    assert forall g, i :: Points(t, lvl, g, i) ==> Points(t', lvl, g, i) && t'[g][i] == t[g][i];
    forall b | 0 <= b < MAXVPN ensures Bottom(t', root, b) == Bottom(t, root, b) {
      if Down(t, root, Px(2, b)).Some? { assert Points(t, lvl, root, Px(2, b)); }
    }
    forall b | 0 <= b < MAXVPN && b != a ensures Flat(t', root, b) == Flat(t, root, b) {
      if Bottom(t, root, b) == Some(f) && Px(0, b) == Px(0, a) { BottomInjective(t, root, lvl, a, b); }
    }
  }

  /** `t` with a blank page `g` linked in below entry `i` of `f`. */
  function Linked(t: Memory, f: nat, i: nat, g: nat): Memory
    requires IsTable(t, f) && i < ENTRIES
  {
    t[f := t[f][i := Pte(true, false, false, false, false, g)]][g := Blank()]
  }

  /** The pointers after linking are the old ones and the new one. */
  lemma LinkedPoints(t: Memory, root: nat, lvl: map<nat, nat>, f: nat, i: nat, g: nat, h: nat, j: int)
    requires Tree(t, root, lvl) && f in t && lvl[f] > 0 && i < ENTRIES && !t[f][i].v && g !in t
    ensures var t', lvl' := Linked(t, f, i, g), lvl[g := lvl[f] - 1];
            && (Points(t', lvl', h, j) <==> Points(t, lvl, h, j) || (h == f && j == i))
            && (Points(t, lvl, h, j) ==> t'[h][j] == t[h][j] && (h != f || j != i))
  {
  }

  lemma LinkedTree(t: Memory, root: nat, lvl: map<nat, nat>, f: nat, i: nat, g: nat)
    requires Tree(t, root, lvl) && f in t && lvl[f] > 0 && i < ENTRIES && !t[f][i].v && g !in t
    ensures Tree(Linked(t, f, i, g), root, lvl[g := lvl[f] - 1])
  {
    var t', lvl' := Linked(t, f, i, g), lvl[g := lvl[f] - 1];
    forall h, j | Points(t', lvl', h, j) ensures PointsDown(t', lvl', h, j) {
      LinkedPoints(t, root, lvl, f, i, g, h, j);
    }
    forall h, j, h2, j2 | Points(t', lvl', h, j) && Points(t', lvl', h2, j2) && t'[h][j].ppn == t'[h2][j2].ppn
      ensures h == h2 && j == j2
    {
      LinkedPoints(t, root, lvl, f, i, g, h, j);
      LinkedPoints(t, root, lvl, f, i, g, h2, j2);
    }
  }

  lemma LinkedConnected(t: Memory, root: nat, lvl: map<nat, nat>, f: nat, i: nat, g: nat)
    requires Tree(t, root, lvl) && f in t && lvl[f] > 0 && i < ENTRIES && !t[f][i].v && g !in t
    requires Connected(t, root, lvl)
    ensures Connected(Linked(t, f, i, g), root, lvl[g := lvl[f] - 1])
  {
    var t', lvl' := Linked(t, f, i, g), lvl[g := lvl[f] - 1];
    forall h | h in t' && h != root ensures HasParent(t', lvl', h) {
      if h == g {
        LinkedPoints(t, root, lvl, f, i, g, f, i);
        assert Points(t', lvl', f, i) && t'[f][i].ppn == g;
      } else {
        assert HasParent(t, lvl, h);
        var p, j :| Points(t, lvl, p, j) && t[p][j].ppn == h;
        LinkedPoints(t, root, lvl, f, i, g, p, j);
        assert Points(t', lvl', p, j) && t'[p][j].ppn == h;
      }
    }
  }

  /** Linking a blank page below an invalid entry leaves the flat map alone. */
  lemma LinkedFlat(t: Memory, root: nat, lvl: map<nat, nat>, f: nat, i: nat, g: nat)
    requires Tree(t, root, lvl) && f in t && lvl[f] > 0 && i < ENTRIES && !t[f][i].v && g !in t
    ensures SameOutside(t, Linked(t, f, i, g), root, 0, 0)
  {
    var t' := Linked(t, f, i, g);
    forall a | 0 <= a < MAXVPN ensures Flat(t', root, a) == Flat(t, root, a) {
      if Down(t, root, Px(2, a)).Some? {
        assert Points(t, lvl, root, Px(2, a));
        var h := t[root][Px(2, a)].ppn;
        assert PointsDown(t, lvl, root, Px(2, a));
        if Down(t, h, Px(1, a)).Some? {
          assert Points(t, lvl, h, Px(1, a));
          assert PointsDown(t, lvl, h, Px(1, a));
        }
      }
    }
  }

  lemma SameOutsideTrans(t: Memory, t': Memory, t'': Memory, root: nat, lo: nat, mid: nat, hi: nat)
    requires lo <= mid <= hi && SameOutside(t, t', root, lo, mid) && SameOutside(t', t'', root, mid, hi)
    ensures SameOutside(t, t'', root, lo, hi)
  {
  }

  function Entry(ppn: nat, perm: Perm): Pte {
    Pte(true, perm.r, perm.w, perm.x, perm.u, ppn)
  }

  /** `n` pages from `lo` on are mapped to consecutive frames with those permissions, and nothing else changed. */
  ghost predicate MapsRange(t: Memory, t': Memory, root: nat, lo: nat, n: nat, ppn: nat, perm: Perm) {
    && SameOutside(t, t', root, lo, lo + n)
    && (n > 0 ==> lo + n <= MAXVPN)
    && forall b :: lo <= b < lo + n ==> Flat(t', root, b) == Pte(true, perm.r, perm.w, perm.x, perm.u, ppn + (b - lo))
  }

  /** `n` pages from `lo` on are unmapped and nothing else changed. */
  ghost predicate ClearsRange(t: Memory, t': Memory, root: nat, lo: nat, n: nat) {
    && SameOutside(t, t', root, lo, lo + n)
    && (n > 0 ==> lo + n <= MAXVPN)
    && forall b :: lo <= b < lo + n ==> Flat(t', root, b) == NONE
  }

  lemma TreeStep(t: Memory, root: nat, lvl: map<nat, nat>, f: nat, i: nat)
    requires Tree(t, root, lvl) && f in t && i < ENTRIES
    ensures IsTable(t, f) && IsTable(t, root) && f in lvl && lvl[root] == 2
    ensures lvl[f] > 0 && t[f][i].v ==> t[f][i].ppn in t && t[f][i].ppn in lvl && lvl[t[f][i].ppn] == lvl[f] - 1
  {
    if lvl[f] > 0 && t[f][i].v { assert Points(t, lvl, f, i) && PointsDown(t, lvl, f, i); }
  }

  lemma TreeRoot(t: Memory, root: nat, lvl: map<nat, nat>)
    requires Tree(t, root, lvl)
    ensures root in t && root in lvl && lvl[root] == 2
  {
  }

  lemma SameOutsideRefl(t: Memory, root: nat)
    ensures SameOutside(t, t, root, 0, 0)
  {
  }

  lemma MapsNone(t: Memory, root: nat, lo: nat, ppn: nat, perm: Perm)
    ensures MapsRange(t, t, root, lo, 0, ppn, perm)
  {
  }

  /** One more page mapped: `walk` may add table pages in between. */
  lemma MapsMore(t0: Memory, t: Memory, t2: Memory, root: nat, lo: nat, n: nat, ppn: nat, perm: Perm)
    requires MapsRange(t0, t, root, lo, n, ppn, perm)
    requires SameOutside(t, t2, root, lo + n, lo + n + 1) && lo + n < MAXVPN
    requires Flat(t2, root, lo + n) == Entry(ppn + n, perm)
    ensures MapsRange(t0, t2, root, lo, n + 1, ppn, perm)
  {
  }

  lemma ClearsNone(t: Memory, root: nat, lo: nat)
    ensures ClearsRange(t, t, root, lo, 0)
  {
  }

  lemma ClearsMore(t0: Memory, t: Memory, t2: Memory, root: nat, lo: nat, n: nat)
    requires ClearsRange(t0, t, root, lo, n) && SameOutside(t, t2, root, lo + n, lo + n + 1)
    requires lo + n < MAXVPN && Flat(t2, root, lo + n) == NONE
    ensures ClearsRange(t0, t2, root, lo, n + 1)
  {
  }

  lemma MapsThenSame(t0: Memory, t: Memory, t1: Memory, root: nat, lo: nat, n: nat, ppn: nat, perm: Perm)
    requires MapsRange(t0, t, root, lo, n, ppn, perm) && SameOutside(t, t1, root, 0, 0)
    ensures MapsRange(t0, t1, root, lo, n, ppn, perm)
  {
  }

  // ----- What a walk adds -----

  /** How many table pages are missing on the way to a virtual page. */
  function Lack(t: Memory, root: nat, vpn: nat): nat {
    if Down(t, root, Px(2, vpn)).None? then 2 else if Bottom(t, root, vpn).None? then 1 else 0
  }

  /** The same from table page `f` of that level on. */
  function LackFrom(t: Memory, root: nat, f: nat, level: nat, vpn: nat): nat {
    if level == 0 then 0
    else if level == 1 then (if Down(t, f, Px(1, vpn)).None? then 1 else 0)
    else Lack(t, root, vpn)
  }

  /** `walk` has come down to page `f` of that level. */
  predicate Stands(t: Memory, root: nat, lvl: map<nat, nat>, f: nat, level: nat, vpn: nat) {
    && f in t && f in lvl && lvl[f] == level && (level == 2 ==> f == root)
    && (level == 1 ==> Down(t, root, Px(2, vpn)) == Some(f)) && (level == 0 ==> Bottom(t, root, vpn) == Some(f))
  }

  lemma StandsAtRoot(t: Memory, root: nat, lvl: map<nat, nat>, vpn: nat)
    requires Tree(t, root, lvl)
    ensures Stands(t, root, lvl, root, 2, vpn) && LackFrom(t, root, root, 2, vpn) == Lack(t, root, vpn)
  {
  }

  lemma WalkFails(t: Memory, root: nat, lvl: map<nat, nat>, f: nat, level: nat, vpn: nat)
    requires 0 < level <= 2 && Stands(t, root, lvl, f, level, vpn) && Down(t, f, Px(level, vpn)).None?
    ensures Bottom(t, root, vpn).None? && 0 < LackFrom(t, root, f, level, vpn)
  {
  }

  lemma WalkEnds(t: Memory, root: nat, lvl: map<nat, nat>, f: nat, vpn: nat)
    requires Stands(t, root, lvl, f, 0, vpn)
    ensures Bottom(t, root, vpn) == Some(f) && LackFrom(t, root, f, 0, vpn) == 0
  {
  }

  lemma TopHalf(vpn: nat)
    requires vpn < MAXVPN
    ensures Px(2, vpn) < ENTRIES / 2
  {
  }

  /** Page `w` has its upper, and its lower, table page if it had before or shares that of `vpn`, which was added. */
  predicate Opens(t: Memory, t': Memory, root: nat, vpn: nat, upper: bool, lower: bool, w: nat) {
    && (Down(t', root, Px(2, w)).Some? <==> Down(t, root, Px(2, w)).Some? || (upper && Px(2, w) == Px(2, vpn)))
    && (Bottom(t', root, w).Some? <==>
          Bottom(t, root, w).Some? || (lower && Px(2, w) == Px(2, vpn) && Px(1, w) == Px(1, vpn)))
  }

  ghost predicate AllOpen(t: Memory, t': Memory, root: nat, vpn: nat, upper: bool, lower: bool) {
    forall w: nat :: Opens(t, t', root, vpn, upper, lower, w)
  }

  lemma OpensNone(t: Memory, root: nat, vpn: nat)
    ensures AllOpen(t, t, root, vpn, false, false)
  {
  }

  /** A table page that is there already. */
  lemma OpensThere(t0: Memory, t: Memory, root: nat, vpn: nat)
    ensures AllOpen(t0, t, root, vpn, false, false) && Down(t, root, Px(2, vpn)).Some? ==>
              AllOpen(t0, t, root, vpn, true, false)
    ensures AllOpen(t0, t, root, vpn, true, false) && Bottom(t, root, vpn).Some? ==>
              AllOpen(t0, t, root, vpn, true, true)
  {
    hide Px;
    if AllOpen(t0, t, root, vpn, false, false) && Down(t, root, Px(2, vpn)).Some? {
      forall w: nat ensures Opens(t0, t, root, vpn, true, false, w) {
        assert Opens(t0, t, root, vpn, false, false, w);
      }
    }
    if AllOpen(t0, t, root, vpn, true, false) && Bottom(t, root, vpn).Some? {
      forall w: nat ensures Opens(t0, t, root, vpn, true, true, w) {
        assert Opens(t0, t, root, vpn, true, false, w);
      }
    }
  }

  /** A new upper table page. */
  lemma OpensUpper(t0: Memory, t: Memory, root: nat, lvl: map<nat, nat>, vpn: nat, g: nat)
    requires AllOpen(t0, t, root, vpn, false, false) && Tree(t, root, lvl) && !t[root][Px(2, vpn)].v && g !in t
    ensures AllOpen(t0, Linked(t, root, Px(2, vpn), g), root, vpn, true, false)
  {
    hide Px;
    var t' := Linked(t, root, Px(2, vpn), g);
    forall w: nat ensures Opens(t0, t', root, vpn, true, false, w) {
      assert Opens(t0, t, root, vpn, false, false, w);
      assert Points(t, lvl, root, Px(2, w)) ==> PointsDown(t, lvl, root, Px(2, w));
    }
  }

  /** A new lower table page. */
  lemma OpensLower(t0: Memory, t: Memory, root: nat, lvl: map<nat, nat>, vpn: nat, f: nat, g: nat)
    requires AllOpen(t0, t, root, vpn, true, false) && Tree(t, root, lvl) && g !in t
    requires Down(t, root, Px(2, vpn)) == Some(f) && IsTable(t, f) && f != root && !t[f][Px(1, vpn)].v
    ensures AllOpen(t0, Linked(t, f, Px(1, vpn), g), root, vpn, true, true)
  {
    hide Px;
    var t' := Linked(t, f, Px(1, vpn), g);
    assert Points(t, lvl, root, Px(2, vpn));
    forall w: nat ensures Opens(t0, t', root, vpn, true, true, w) {
      assert Opens(t0, t, root, vpn, true, false, w);
      assert Points(t, lvl, root, Px(2, w)) ==> PointsDown(t, lvl, root, Px(2, w));
    }
  }

  datatype MapResult = Mapped | NoMemory | Panic

  class Pagetable {
    const root: nat
    var tables: Memory
    var supply: seq<nat>         // what kalloc hands out next
    ghost var lvl: map<nat, nat>
    ghost var released: seq<nat> // what was passed to kfree

    ghost predicate Valid()
      reads this
    {
      && Tree(tables, root, lvl) && Connected(tables, root, lvl) && LowHalf(tables, root)
      && Distinct(supply) && forall i :: 0 <= i < |supply| ==> supply[i] !in tables
    }

    /** `uvmcreate` with a frame to spare. */
    constructor (supply: seq<nat>)
      requires supply != [] && Distinct(supply)
      ensures Valid() && tables == map[supply[0] := Blank()] && root == supply[0] && released == []
      ensures this.supply == supply[1..]
      ensures forall a :: 0 <= a < MAXVPN ==> Flat(tables, root, a) == NONE
    {
      root := supply[0];
      tables := map[supply[0] := Blank()];
      this.supply := supply[1..];
      lvl := map[supply[0] := 2];
      released := [];
    }

    /** `walk`: the table page and index of the entry for `va`. Table pages are added if `alloc`, which
        changes no lookup; `None` means a page is missing and may not or cannot be added. It takes exactly the
        missing pages, and fails exactly when there are too few. */
    method Walk(va: nat, alloc: bool) returns (r: Option<(nat, nat)>)
      requires Valid() && va < MAXVA
      modifies this`tables, this`supply, this`lvl
      ensures Valid() && SameOutside(old(tables), tables, root, 0, 0)
      ensures r.Some? ==> Bottom(tables, root, va / PGSIZE) == Some(r.value.0) && r.value.1 == Px(0, va / PGSIZE)
      ensures r.None? ==> Bottom(tables, root, va / PGSIZE).None? && (!alloc || supply == [])
      ensures !alloc ==> tables == old(tables) && supply == old(supply) && lvl == old(lvl)
      ensures r.Some? <==> Lack(old(tables), root, va / PGSIZE) <= if alloc then |old(supply)| else 0
      ensures r.Some? ==> supply == old(supply)[Lack(old(tables), root, va / PGSIZE)..]
      ensures r.Some? ==> AllOpen(old(tables), tables, root, va / PGSIZE, true, true)
    {
      hide Tree, Connected, SameOutside, AllOpen, Px, Lack, LackFrom, Stands;
      var vpn := va / PGSIZE;
      var f, level := root, 2;
      ghost var lack := Lack(tables, root, vpn);
      StandsAtRoot(tables, root, lvl, vpn);
      SameOutsideRefl(tables, root);
      OpensNone(tables, root, vpn);
      while level > 0
        invariant 0 <= level <= 2 && Valid() && SameOutside(old(tables), tables, root, 0, 0)
        invariant Stands(tables, root, lvl, f, level, vpn)
        invariant !alloc ==> tables == old(tables) && supply == old(supply) && lvl == old(lvl)
        invariant LackFrom(tables, root, f, level, vpn) <= lack
                  && |supply| == |old(supply)| - (lack - LackFrom(tables, root, f, level, vpn))
        invariant supply == old(supply)[lack - LackFrom(tables, root, f, level, vpn)..]
        invariant AllOpen(old(tables), tables, root, vpn, level < 2, level < 1)
      {
        ghost var t := tables;
        var g := Descend(f, level, vpn, alloc, old(tables));
        if g.None? {
          WalkFails(tables, root, lvl, f, level, vpn);
          return None;
        }
        SameOutsideTrans(old(tables), t, tables, root, 0, 0, 0);
        f, level := g.value, level - 1;
      }
      WalkEnds(tables, root, lvl, f, vpn);
      r := Some((f, Px(0, vpn)));
    }

    /** One level of `walk`. */
    method Descend(f: nat, level: nat, vpn: nat, alloc: bool, ghost t0: Memory) returns (r: Option<nat>)
      requires Valid() && 0 < level <= 2 && vpn < MAXVPN && Stands(tables, root, lvl, f, level, vpn)
      requires AllOpen(t0, tables, root, vpn, level < 2, false)
      modifies this`tables, this`supply, this`lvl
      ensures Valid() && SameOutside(old(tables), tables, root, 0, 0)
      ensures r.None? <==> Down(old(tables), f, Px(level, vpn)).None? && (!alloc || old(supply) == [])
      ensures r.None? || !alloc ==> tables == old(tables) && supply == old(supply) && lvl == old(lvl)
      ensures r.Some? ==>
                var took := if Down(old(tables), f, Px(level, vpn)).None? then 1 else 0;
                && Stands(tables, root, lvl, r.value, level - 1, vpn) && took <= |old(supply)|
                    && supply == old(supply)[took..]
                && LackFrom(tables, root, r.value, level - 1, vpn) == LackFrom(old(tables), root, f, level, vpn) - took
                && AllOpen(t0, tables, root, vpn, true, level < 2)
    {
      hide Tree, Connected, SameOutside, AllOpen, Px;
      var i := Px(level, vpn);
      TreeStep(tables, root, lvl, f, i);
      SameOutsideRefl(tables, root);
      OpensThere(t0, tables, root, vpn);
      if tables[f][i].v {
        r := Some(tables[f][i].ppn);
      } else {
        if !alloc || supply == [] {
          return None;
        }
        ghost var t, l0 := tables, lvl;
        TopHalf(vpn);
        var g := AddTable(f, i, level);
        if level == 2 {
          OpensUpper(t0, t, root, l0, vpn, g);
        } else {
          OpensLower(t0, t, root, l0, vpn, f, g);
        }
        r := Some(g);
      }
    }

    /** The allocating branch of `walk`. */
    method AddTable(f: nat, i: nat, ghost level: nat) returns (g: nat)
      requires Valid() && f in tables && lvl[f] == level > 0 && i < ENTRIES && !tables[f][i].v && supply != []
      requires f == root ==> i < ENTRIES / 2
      modifies this`tables, this`supply, this`lvl
      ensures Valid() && SameOutside(old(tables), tables, root, 0, 0)
      ensures g !in old(tables) && tables == Linked(old(tables), f, i, g) && g in lvl && lvl[g] == level - 1
      ensures supply == old(supply)[1..]
    {
      hide Tree, Connected, SameOutside;
      TreeStep(tables, root, lvl, f, i);
      g := supply[0];
      LinkedTree(tables, root, lvl, f, i, g);
      LinkedConnected(tables, root, lvl, f, i, g);
      LinkedFlat(tables, root, lvl, f, i, g);
      supply := supply[1..];
      lvl := lvl[g := level - 1];
      tables := tables[f := tables[f][i := Pte(true, false, false, false, false, g)]][g := Blank()];
    }
 
    /** Writing the entry that `walk` returned for `vpn`. */
    method SetEntry(vpn: nat, f: nat, e: Pte)
      requires Valid() && vpn < MAXVPN && Bottom(tables, root, vpn) == Some(f)
      modifies this`tables
      ensures Valid() && Flat(tables, root, vpn) == e && SameOutside(old(tables), tables, root, vpn, vpn + 1)
      ensures tables.Keys == old(tables).Keys
    {
      hide Tree, Connected, SameOutside, Flat;
      SetLeaf(tables, root, lvl, vpn, f, e);
      tables := tables[f := tables[f][Px(0, vpn) := e]];
    }

    /** One page of `mappages`. */
    method MapPage(a: nat, e: Pte) returns (r: MapResult)
      requires Valid()
      modifies this`tables, this`supply, this`lvl
      ensures Valid()
      ensures r == Mapped ==>
                a < MAXVPN && SameOutside(old(tables), tables, root, a, a + 1) && Flat(tables, root, a) == e
      ensures r == Mapped ==> !Flat(old(tables), root, a).v
      ensures r != Mapped ==> SameOutside(old(tables), tables, root, 0, 0)
      ensures r == NoMemory ==> a < MAXVPN && supply == [] && Bottom(tables, root, a).None?
      ensures r == Panic <==> a >= MAXVPN || Flat(old(tables), root, a).v
    {
      hide Tree, Connected, SameOutside, Flat, Bottom, AllOpen, Lack;
      SameOutsideRefl(tables, root);
      if a >= MAXVPN {
        return Panic;
      }
      ghost var t0 := tables;
      var slot := Walk(a * PGSIZE, true);
      SameAt(t0, tables, root, a);
      if slot.None? {
        NoBottom(tables, root, a);
        return NoMemory;
      }
      SlotEntry(tables, root, lvl, a, slot.value.0);
      if tables[slot.value.0][slot.value.1].v {
        return Panic;
      }
      ghost var t1 := tables;
      SetEntry(a, slot.value.0, e);
      SameThrough(t0, t1, tables, root, a);
      r := Mapped;
    }

    /** `mappages`: the first `n` pages of the range are mapped, all of them unless it fails, and every
        other virtual page keeps its entry. It fails at the first page that is mapped already or too high, or for
        which a table page is missing. */
    method Mappages(va: nat, size: nat, pa: nat, perm: Perm) returns (r: MapResult, ghost n: nat)
      requires Valid()
      modifies this`tables, this`supply, this`lvl
      ensures Valid() && MapsRange(old(tables), tables, root, va / PGSIZE, n, pa / PGSIZE, perm)
      ensures r == Mapped ==> size > 0 && n == (va + size - 1) / PGSIZE - va / PGSIZE + 1
      ensures r != Mapped ==> if size == 0 then n == 0 else va / PGSIZE + n <= (va + size - 1) / PGSIZE
      ensures r == NoMemory ==> supply == [] && Bottom(tables, root, va / PGSIZE + n).None?
      ensures r == Panic ==> size == 0 || va / PGSIZE + n >= MAXVPN || Flat(old(tables), root, va / PGSIZE + n).v
      ensures NoneMapped(old(tables), root, va / PGSIZE, n)
    {
      hide Tree, Connected, SameOutside, MapsRange, Flat, Bottom, NoneMapped;
      ghost var lo, ppn := va / PGSIZE, pa / PGSIZE;
      n := 0;
      MapsNone(tables, root, lo, ppn, perm);
      NoneMappedYet(tables, root, lo);
      if size == 0 {
        return Panic, 0;
      }
      var a, last, p := va / PGSIZE, (va + size - 1) / PGSIZE, pa / PGSIZE;
      while true
        invariant Valid() && a == lo + n && a <= last && p == ppn + n
        invariant MapsRange(old(tables), tables, root, lo, n, ppn, perm) && NoneMapped(old(tables), root, lo, n)
        decreases last - a
      {
        ghost var t := tables;
        MapsKeeps(old(tables), t, root, lo, n, ppn, perm);
        r := MapPage(a, Entry(p, perm));
        if r != Mapped {
          MapsThenSame(old(tables), t, tables, root, lo, n, ppn, perm);
          return;
        }
        MapsMore(old(tables), t, tables, root, lo, n, ppn, perm);
        NoneMappedNext(old(tables), root, lo, n);
        n := n + 1;
        if a == last {
          return Mapped, n;
        }
        a, p := a + 1, p + 1;
      }
    }

    /** One page of `uvmunmap`. */
    method UnmapPage(a: nat) returns (panic: bool, ppn: nat)
      requires Valid()
      modifies this`tables, this`supply, this`lvl
      ensures Valid() && tables.Keys == old(tables).Keys && supply == old(supply) && lvl == old(lvl)
      ensures panic <==> a >= MAXVPN || Unmappable(old(tables), root, a)
      ensures panic ==> tables == old(tables)
      ensures !panic ==> ppn == Flat(old(tables), root, a).ppn && Flat(tables, root, a) == NONE
      ensures !panic ==> SameOutside(old(tables), tables, root, a, a + 1)
    {
      hide Tree, Connected, SameOutside, Flat, Bottom, AllOpen, Lack;
      if a >= MAXVPN {
        return true, 0;
      }
      var slot := Walk(a * PGSIZE, false);
      if slot.None? {
        NoBottom(tables, root, a);
        return true, 0;
      }
      SlotEntry(tables, root, lvl, a, slot.value.0);
      var e := tables[slot.value.0][slot.value.1];
      if !IsLeaf(e) {
        return true, 0;
      }
      SetEntry(a, slot.value.0, NONE);
      return false, e.ppn;
    }

    /** `uvmunmap`: the first `n` pages are unmapped, all of them unless it panics, which it does at the first page
        that is no leaf. The frames passed to `kfree` are those the entries named, in order. */
    method Uvmunmap(va: nat, npages: nat, doFree: bool) returns (panic: bool, ghost n: nat)
      requires Valid()
      modifies this`tables, this`released, this`supply, this`lvl
      ensures Valid() && ClearsRange(old(tables), tables, root, va / PGSIZE, n)
      ensures n <= npages && (!panic ==> n == npages && va % PGSIZE == 0)
      ensures panic ==> va % PGSIZE != 0 || va / PGSIZE + n >= MAXVPN || Unmappable(old(tables), root, va / PGSIZE + n)
      ensures AllLeaves(old(tables), root, va / PGSIZE, n)
      ensures released == old(released) + if doFree then Frames(old(tables), root, va / PGSIZE, n) else []
      ensures tables.Keys == old(tables).Keys && supply == old(supply) && lvl == old(lvl)
    {
      hide Tree, Connected, SameOutside, ClearsRange, Flat, Bottom, Frames, AllLeaves, Unmappable;
      var lo := va / PGSIZE;
      n := 0;
      ClearsNone(tables, root, lo);
      FramesNone(tables, root, lo);
      if va % PGSIZE != 0 {
        return true, 0;
      }
      var a := va / PGSIZE;
      while a < lo + npages
        invariant Valid() && lo <= a <= lo + npages && n == a - lo
        invariant ClearsRange(old(tables), tables, root, lo, n) && AllLeaves(old(tables), root, lo, n)
        invariant released == old(released) + if doFree then Frames(old(tables), root, lo, n) else []
        invariant tables.Keys == old(tables).Keys && supply == old(supply) && lvl == old(lvl)
      {
        ClearsKeeps(old(tables), tables, root, lo, n);
        ghost var t := tables;
        var ppn;
        panic, ppn := UnmapPage(a);
        if panic {
          return;
        }
        if doFree {
          released := released + [ppn];
        }
        ClearsMore(old(tables), t, tables, root, lo, n);
        FramesNext(old(tables), root, lo, n);
        n := n + 1;
        a := a + 1;
      }
      panic := false;
    }

    /** `freewalk`: every table page at and below `f` is freed exactly once, children first, and the panic
        is not reached. */
    method Freewalk(f: nat, ghost l: nat)
      requires Freeable(tables, f, l) && Distinct(PostOrder(tables, f, l))
      modifies this`tables, this`released
      ensures released == old(released) + PostOrder(old(tables), f, l)
      ensures tables == old(tables) - Elems(PostOrder(old(tables), f, l))
      decreases l
    {
      ghost var t := tables;
      for i := 0 to ENTRIES
        invariant f in tables && |tables[f]| == ENTRIES && forall j :: i <= j < ENTRIES ==> tables[f][j] == t[f][j]
        invariant released == old(released) + KidsOf(t, f, l, i)
        invariant tables - {f} == t - Elems(KidsOf(t, f, l, i)) - {f}
      {
        var pte := tables[f][i];
        if pte.v && !pte.r && !pte.w && !pte.x {
          assert pte == t[f][i];
          FreeChild(f, l, i, t);
        } else if pte.v {
          assert false; // "freewalk: leaf"
        }
      }
      released := released + [f];
      tables := tables - {f};
    }

    /** One turn of the loop of `freewalk`. */
    method FreeChild(f: nat, ghost l: nat, i: nat, ghost t: Memory)
      requires Freeable(t, f, l) && Distinct(PostOrder(t, f, l)) && i < ENTRIES && t[f][i].v
      requires f in tables && |tables[f]| == ENTRIES && forall j :: i <= j < ENTRIES ==> tables[f][j] == t[f][j]
      requires l > 0 && tables - {f} == t - Elems(Kids(t, f, l, i)) - {f}
      modifies this`tables, this`released
      ensures f in tables && |tables[f]| == ENTRIES && forall j :: i < j < ENTRIES ==> tables[f][j] == t[f][j]
      ensures released == old(released) + PostOrder(t, t[f][i].ppn, l - 1)
      ensures tables - {f} == t - Elems(Kids(t, f, l, i + 1)) - {f}
      decreases l, 0
    {
      hide PostOrder, Kids, Freeable, Distinct;
      FreeableChild(t, f, l, i);
      ghost var kid := PostOrder(t, t[f][i].ppn, l - 1);
      ghost var before, gone := tables, Elems(Kids(t, f, l, i));
      ChildSeparate(t, f, l, i);
      forall g | g in kid && g in t ensures g in tables && tables[g] == t[g] {
        assert g in t - gone - {f};
        assert g in tables - {f};
      }
      PostOrderFrame(t, tables, t[f][i].ppn, l - 1);
      Freewalk(tables[f][i].ppn, l - 1);
      tables := tables[f := tables[f][i := NONE]];
      assert tables - {f} == before - {f} - Elems(kid);
      MinusUnion(t, gone, Elems(kid), f);
    }

    /** `freewalk` of the root once all leaves are removed: every table page goes back exactly once. */
    method FreeAll()
      requires Valid() && forall a :: 0 <= a < MAXVPN ==> !Flat(tables, root, a).v
      modifies this`tables, this`released
      ensures tables == map[]
      ensures exists q :: released == old(released) + q && Distinct(q) && Elems(q) == old(tables).Keys
    {
      UnmappedNoLeaves(tables, root, lvl);
      TreeFreeable(tables, root, lvl, root);
      ListedOnce(tables, root, lvl, root);
      ghost var q := PostOrder(tables, root, 2);
      forall g ensures g in q <==> g in tables {
        if g in q { ListLevels(tables, root, lvl, root, g); }
        if g in tables { AllListed(tables, root, lvl, g); }
      }
      Freewalk(root, 2);
    }
  }

  ghost function KidsOf(t: Memory, f: nat, l: nat, n: nat): seq<nat>
    requires IsTable(t, f) && n <= ENTRIES
  {
    if l == 0 then [] else Kids(t, f, l, n)
  }

  /** What `uvmunmap` accepts: a valid entry with some other flag set. */
  predicate IsLeaf(e: Pte) {
    e.v && (e.r || e.w || e.x || e.u)
  }

  /** The page has no entry, or one without a permission: not a leaf. */
  predicate Unmappable(t: Memory, root: nat, vpn: nat) {
    var e := Flat(t, root, vpn);
    !e.v || !(e.r || e.w || e.x || e.u)
  }

  lemma SlotEntry(t: Memory, root: nat, lvl: map<nat, nat>, a: nat, f: nat)
    requires Tree(t, root, lvl) && Bottom(t, root, a) == Some(f)
    ensures IsTable(t, f) && t[f][Px(0, a)] == Flat(t, root, a)
  {
    BottomLevel(t, root, lvl, a);
  }

  lemma NoBottom(t: Memory, root: nat, a: nat)
    requires Bottom(t, root, a).None?
    ensures Flat(t, root, a) == NONE
  {
  }

  lemma ClearsKeeps(t0: Memory, t: Memory, root: nat, lo: nat, n: nat)
    requires ClearsRange(t0, t, root, lo, n)
    ensures lo + n < MAXVPN ==> Flat(t, root, lo + n) == Flat(t0, root, lo + n)
    ensures lo + n < MAXVPN ==> (Unmappable(t, root, lo + n) <==> Unmappable(t0, root, lo + n))
  {
  }

  lemma MapsKeeps(t0: Memory, t: Memory, root: nat, lo: nat, n: nat, ppn: nat, perm: Perm)
    requires MapsRange(t0, t, root, lo, n, ppn, perm)
    ensures lo + n < MAXVPN ==> Flat(t, root, lo + n) == Flat(t0, root, lo + n)
  {
  }

  /** The frames that `n` entries from `lo` on name. */
  ghost function Frames(t: Memory, root: nat, lo: nat, n: nat): seq<nat> {
    if n == 0 then [] else Frames(t, root, lo, n - 1) + [Flat(t, root, lo + n - 1).ppn]
  }

  ghost predicate AllLeaves(t: Memory, root: nat, lo: nat, n: nat) {
    forall b :: lo <= b < lo + n ==> !Unmappable(t, root, b)
  }

  ghost predicate NoneMapped(t: Memory, root: nat, lo: nat, n: nat) {
    forall b :: lo <= b < lo + n ==> !Flat(t, root, b).v
  }

  lemma NoneMappedYet(t: Memory, root: nat, lo: nat)
    ensures NoneMapped(t, root, lo, 0)
  {
  }

  lemma NoneMappedNext(t: Memory, root: nat, lo: nat, n: nat)
    requires NoneMapped(t, root, lo, n) && !Flat(t, root, lo + n).v
    ensures NoneMapped(t, root, lo, n + 1)
  {
  }

  lemma FramesNone(t: Memory, root: nat, lo: nat)
    ensures Frames(t, root, lo, 0) == [] && AllLeaves(t, root, lo, 0)
  {
  }

  lemma FramesNext(t: Memory, root: nat, lo: nat, n: nat)
    requires AllLeaves(t, root, lo, n) && !Unmappable(t, root, lo + n)
    ensures Frames(t, root, lo, n + 1) == Frames(t, root, lo, n) + [Flat(t, root, lo + n).ppn]
    ensures AllLeaves(t, root, lo, n + 1)
  {
    hide Flat;
  }

  lemma SameAt(t: Memory, t': Memory, root: nat, a: nat)
    requires SameOutside(t, t', root, 0, 0) && a < MAXVPN
    ensures Flat(t', root, a) == Flat(t, root, a)
  {
  }

  lemma SameThrough(t: Memory, t1: Memory, t2: Memory, root: nat, a: nat)
    requires SameOutside(t, t1, root, 0, 0) && SameOutside(t1, t2, root, a, a + 1)
    ensures SameOutside(t, t2, root, a, a + 1)
  {
  }

  // ----- Freeing the tree -----

  /** The table pages at and below `f` at level `l`, in the order `freewalk` frees them. */
  ghost function PostOrder(t: Memory, f: nat, l: nat): seq<nat>
    decreases l
  {
    (if l == 0 || !IsTable(t, f) then [] else Kids(t, f, l, |t[f]|)) + [f]
  }

  /** Those below the first `n` entries of `f`. */
  ghost function Kids(t: Memory, f: nat, l: nat, n: nat): seq<nat>
    requires l > 0 && IsTable(t, f) && n <= ENTRIES
    decreases l, 0, n
  {
    if n == 0 then []
    else Kids(t, f, l, n - 1) + if t[f][n - 1].v then PostOrder(t, t[f][n - 1].ppn, l - 1) else []
  }

  /** What `freewalk` meets: pointers above, nothing at the bottom. */
  ghost predicate Freeable(t: Memory, f: nat, l: nat)
    decreases l
  {
    && IsTable(t, f)
    && forall i :: 0 <= i < ENTRIES && t[f][i].v ==>
         l > 0 && !t[f][i].r && !t[f][i].w && !t[f][i].x && Freeable(t, t[f][i].ppn, l - 1)
  }

  /** Every page in a child's list is in the parent's. */
  lemma {:induction false} KidIn(t: Memory, f: nat, l: nat, n: nat, i: nat, g: nat)
    requires l > 0 && IsTable(t, f) && i < n <= ENTRIES && t[f][i].v && g in PostOrder(t, t[f][i].ppn, l - 1)
    ensures g in Kids(t, f, l, n)
  {
    if i < n - 1 {
      KidIn(t, f, l, n - 1, i, g);
    }
  }

  /** Every page in the parent's list but itself is in a child's. */
  lemma {:induction false} InKid(t: Memory, f: nat, l: nat, n: nat, g: nat) returns (i: nat)
    requires l > 0 && IsTable(t, f) && n <= ENTRIES && g in Kids(t, f, l, n)
    ensures i < n && t[f][i].v && g in PostOrder(t, t[f][i].ppn, l - 1)
  {
    if g in Kids(t, f, l, n - 1) {
      i := InKid(t, f, l, n - 1, g);
    } else {
      i := n - 1;
    }
  }

  /** A listed page is the first one or is in a child's list. */
  lemma Listed(t: Memory, f: nat, l: nat, g: nat) returns (i: nat)
    requires g in PostOrder(t, f, l) && g != f
    ensures l > 0 && IsTable(t, f) && i < ENTRIES && t[f][i].v && g in PostOrder(t, t[f][i].ppn, l - 1)
  {
    i := InKid(t, f, l, |t[f]|, g);
  }

  lemma FreeableChild(t: Memory, f: nat, l: nat, i: nat)
    requires Freeable(t, f, l) && l > 0 && i < ENTRIES && t[f][i].v
    ensures IsTable(t, f) && Freeable(t, t[f][i].ppn, l - 1)
    ensures Elems(Kids(t, f, l, i + 1)) == Elems(Kids(t, f, l, i)) + Elems(PostOrder(t, t[f][i].ppn, l - 1))
  {
    assert Kids(t, f, l, i + 1) == Kids(t, f, l, i) + PostOrder(t, t[f][i].ppn, l - 1);
  }

  lemma MinusUnion(t: Memory, a: set<nat>, b: set<nat>, f: nat)
    ensures t - (a + b) - {f} == t - a - {f} - b
  {
  }

  /** The lists depend on the pages they name only. */
  lemma {:induction false} PostOrderFrame(t: Memory, t': Memory, f: nat, l: nat)
    requires Freeable(t, f, l) && forall g :: g in PostOrder(t, f, l) && g in t ==> g in t' && t'[g] == t[g]
    ensures PostOrder(t', f, l) == PostOrder(t, f, l) && Freeable(t', f, l)
    decreases l, ENTRIES + 1
  {
    assert f in PostOrder(t, f, l);
    if l > 0 {
      KidsFrame(t, t', f, l, |t[f]|);
    }
  }

  lemma {:induction false} KidsFrame(t: Memory, t': Memory, f: nat, l: nat, n: nat)
    requires l > 0 && n <= ENTRIES && Freeable(t, f, l) && IsTable(t', f) && t'[f] == t[f]
    requires forall g :: g in Kids(t, f, l, n) && g in t ==> g in t' && t'[g] == t[g]
    ensures Kids(t', f, l, n) == Kids(t, f, l, n)
    ensures forall i :: 0 <= i < n && t[f][i].v ==> Freeable(t', t[f][i].ppn, l - 1)
    decreases l, n
  {
    if n > 0 {
      KidsFrame(t, t', f, l, n - 1);
      if t[f][n - 1].v {
        PostOrderFrame(t, t', t[f][n - 1].ppn, l - 1);
      }
    }
  }

  lemma {:induction false} KidsPrefix(t: Memory, f: nat, l: nat, n: nat, m: nat)
    requires l > 0 && IsTable(t, f) && n <= m <= ENTRIES
    ensures Kids(t, f, l, n) <= Kids(t, f, l, m)
    decreases m
  {
    if n < m {
      KidsPrefix(t, f, l, n, m - 1);
    }
  }

  /** In a list without repetition, a child's list is separate from what comes before it and from `f`. */
  lemma ChildSeparate(t: Memory, f: nat, l: nat, i: nat)
    requires l > 0 && IsTable(t, f) && i < ENTRIES && t[f][i].v && Distinct(PostOrder(t, f, l))
    ensures var kid := PostOrder(t, t[f][i].ppn, l - 1);
            Distinct(kid) && f !in kid && forall g :: g in kid ==> g !in Kids(t, f, l, i)
  {
    var before, kid, all := Kids(t, f, l, i), PostOrder(t, t[f][i].ppn, l - 1), PostOrder(t, f, l);
    KidsPrefix(t, f, l, i + 1, |t[f]|);
    assert before + kid <= all;
    forall j | 0 <= j < |kid| ensures kid[j] == all[|before| + j] {}
    forall j | 0 <= j < |before| ensures before[j] == all[j] {}
    assert all[|all| - 1] == f && |before| + |kid| < |all|;
  }

  // ----- The tree invariant makes a table freeable -----

  ghost predicate NoLeaves(t: Memory, lvl: map<nat, nat>)
    requires lvl.Keys == t.Keys
  {
    forall f, i :: f in t && lvl[f] == 0 && 0 <= i < |t[f]| ==> !t[f][i].v
  }

  /** Every level-0 entry is the entry of some virtual page. */
  lemma EntryOf(t: Memory, root: nat, lvl: map<nat, nat>, f: nat, j: nat) returns (a: nat)
    requires Tree(t, root, lvl) && Connected(t, root, lvl) && LowHalf(t, root) && f in t && lvl[f] == 0 && j < ENTRIES
    ensures a < MAXVPN && Flat(t, root, a) == t[f][j]
  {
    assert HasParent(t, lvl, f);
    var g, i :| Points(t, lvl, g, i) && t[g][i].ppn == f;
    assert PointsDown(t, lvl, g, i);
    assert HasParent(t, lvl, g);
    var r, k :| Points(t, lvl, r, k) && t[r][k].ppn == g;
    assert PointsDown(t, lvl, r, k) && r == root && k < ENTRIES / 2;
    a := PxOf(k, i, j);
    hide Tree, Connected;
    assert Bottom(t, root, a) == Some(f);
  }

  lemma UnmappedNoLeaves(t: Memory, root: nat, lvl: map<nat, nat>)
    requires Tree(t, root, lvl) && Connected(t, root, lvl) && LowHalf(t, root)
    requires forall a :: 0 <= a < MAXVPN ==> !Flat(t, root, a).v
    ensures NoLeaves(t, lvl)
  {
    hide Connected, LowHalf;
    forall f, j | f in t && lvl[f] == 0 && 0 <= j < |t[f]| ensures !t[f][j].v {
      var a := EntryOf(t, root, lvl, f, j);
    }
  }

  lemma {:induction false} TreeFreeable(t: Memory, root: nat, lvl: map<nat, nat>, f: nat)
    requires Tree(t, root, lvl) && f in t && NoLeaves(t, lvl)
    ensures Freeable(t, f, lvl[f])
    decreases lvl[f]
  {
    forall i | 0 <= i < ENTRIES && t[f][i].v
      ensures lvl[f] > 0 && !t[f][i].r && !t[f][i].w && !t[f][i].x && Freeable(t, t[f][i].ppn, lvl[f] - 1)
    {
      assert Points(t, lvl, f, i) && PointsDown(t, lvl, f, i);
      TreeFreeable(t, root, lvl, t[f][i].ppn);
    }
  }

  lemma Pointer(t: Memory, root: nat, lvl: map<nat, nat>, f: nat, i: nat)
    requires Tree(t, root, lvl) && f in t && lvl[f] > 0 && i < ENTRIES && t[f][i].v
    ensures Points(t, lvl, f, i) && t[f][i].ppn in t && t[f][i].ppn in lvl && lvl[t[f][i].ppn] == lvl[f] - 1
  {
    assert Points(t, lvl, f, i) && PointsDown(t, lvl, f, i);
  }

  lemma OnePointer(t: Memory, root: nat, lvl: map<nat, nat>, f: nat, i: nat, g: nat, j: nat)
    requires Tree(t, root, lvl) && Points(t, lvl, f, i) && Points(t, lvl, g, j) && t[f][i].ppn == t[g][j].ppn
    ensures f == g && i == j
  {
  }

  lemma {:induction false} ListLevels(t: Memory, root: nat, lvl: map<nat, nat>, f: nat, g: nat)
    requires Tree(t, root, lvl) && f in t && f in lvl && g in PostOrder(t, f, lvl[f])
    ensures g in t && g in lvl && lvl[g] <= lvl[f] && (lvl[g] == lvl[f] ==> g == f)
    decreases lvl[f]
  {
    hide Tree, Points, PostOrder, Kids;
    if g != f {
      var i := Listed(t, f, lvl[f], g);
      Pointer(t, root, lvl, f, i);
      ListLevels(t, root, lvl, t[f][i].ppn, g);
    }
  }

  /** Every listed page but the first is pointed to from a listed page. */
  lemma {:induction false} ParentListed(t: Memory, root: nat, lvl: map<nat, nat>, f: nat, g: nat)
    returns (p: nat, i: nat)
    requires Tree(t, root, lvl) && f in t && f in lvl && g in PostOrder(t, f, lvl[f]) && g != f
    ensures Points(t, lvl, p, i) && t[p][i].ppn == g && p in PostOrder(t, f, lvl[f])
    decreases lvl[f]
  {
    hide Tree, Points;
    var j := Listed(t, f, lvl[f], g);
    Pointer(t, root, lvl, f, j);
    if t[f][j].ppn == g {
      p, i := f, j;
    } else {
      p, i := ParentListed(t, root, lvl, t[f][j].ppn, g);
      KidIn(t, f, lvl[f], |t[f]|, j, p);
    }
  }

  /** Two pages of the same level have no page below both. */
  lemma {:induction false} NoSharing(t: Memory, root: nat, lvl: map<nat, nat>, a: nat, b: nat, g: nat)
    requires Tree(t, root, lvl) && a in t && b in t && a in lvl && b in lvl && lvl[a] == lvl[b]
    requires g in PostOrder(t, a, lvl[a]) && g in PostOrder(t, b, lvl[b])
    ensures a == b
    decreases if g in lvl && lvl[g] <= lvl[a] then lvl[a] - lvl[g] else 0
  {
    hide Tree;
    ListLevels(t, root, lvl, a, g);
    ListLevels(t, root, lvl, b, g);
    if lvl[g] < lvl[a] {
      var p, i := ParentListed(t, root, lvl, a, g);
      var q, j := ParentListed(t, root, lvl, b, g);
      OnePointer(t, root, lvl, p, i, q, j);
      ListLevels(t, root, lvl, a, p);
      Pointer(t, root, lvl, p, i);
      NoSharing(t, root, lvl, a, b, p);
    }
  }

  lemma DistinctConcat(a: seq<nat>, b: seq<nat>)
    requires Distinct(a) && Distinct(b) && forall g :: g in a ==> g !in b
    ensures Distinct(a + b)
  {
    forall i, j | 0 <= i < j < |a + b| ensures (a + b)[i] != (a + b)[j] {
      if i < |a| <= j {
        assert a[i] in a && b[j - |a|] in b;
      }
    }
  }

  lemma DistinctOne(f: nat)
    ensures Distinct([f])
  {
  }

  lemma DistinctNone()
    ensures Distinct([])
  {
  }

  lemma PostOrderIs(t: Memory, f: nat, l: nat)
    requires IsTable(t, f)
    ensures PostOrder(t, f, l) == if l == 0 then [f] else Kids(t, f, l, |t[f]|) + [f]
  {
  }

  /** A page is not below itself. */
  lemma NotBelowItself(t: Memory, root: nat, lvl: map<nat, nat>, f: nat, g: nat)
    requires Tree(t, root, lvl) && IsTable(t, f) && f in lvl && lvl[f] > 0 && g in Kids(t, f, lvl[f], |t[f]|)
    ensures g != f
  {
    hide Tree, PostOrder, Kids, Points;
    var i := InKid(t, f, lvl[f], |t[f]|, g);
    Pointer(t, root, lvl, f, i);
    ListLevels(t, root, lvl, t[f][i].ppn, g);
  }

  lemma {:induction false} ListedOnce(t: Memory, root: nat, lvl: map<nat, nat>, f: nat)
    requires Tree(t, root, lvl) && f in t && f in lvl
    ensures Distinct(PostOrder(t, f, lvl[f]))
    decreases lvl[f], 1, 0
  {
    hide Tree, Distinct, Points, PostOrder, Kids;
    TreeStep(t, root, lvl, f, 0);
    DistinctOne(f);
    PostOrderIs(t, f, lvl[f]);
    if lvl[f] > 0 {
      var kids := Kids(t, f, lvl[f], |t[f]|);
      KidsListedOnce(t, root, lvl, f, |t[f]|);
      forall g | g in kids ensures g != f {
        NotBelowItself(t, root, lvl, f, g);
      }
      DistinctConcat(kids, [f]);
    }
  }

  /** The list of entry `n` has nothing in common with those before it. */
  lemma KidsApart(t: Memory, root: nat, lvl: map<nat, nat>, f: nat, n: nat, g: nat)
    requires Tree(t, root, lvl) && IsTable(t, f) && f in lvl && lvl[f] > 0 && n < ENTRIES && t[f][n].v
    requires g in Kids(t, f, lvl[f], n)
    ensures g !in PostOrder(t, t[f][n].ppn, lvl[f] - 1)
  {
    hide Tree, PostOrder, Kids;
    var i := InKid(t, f, lvl[f], n, g);
    Pointer(t, root, lvl, f, i);
    Pointer(t, root, lvl, f, n);
    if g in PostOrder(t, t[f][n].ppn, lvl[f] - 1) {
      NoSharing(t, root, lvl, t[f][n].ppn, t[f][i].ppn, g);
      OnePointer(t, root, lvl, f, i, f, n);
    }
  }

  lemma {:induction false} KidsListedOnce(t: Memory, root: nat, lvl: map<nat, nat>, f: nat, n: nat)
    requires Tree(t, root, lvl) && IsTable(t, f) && f in lvl && lvl[f] > 0 && n <= ENTRIES
    ensures Distinct(Kids(t, f, lvl[f], n))
    decreases lvl[f], 0, n
  {
    hide Tree, Distinct;
    if n > 0 {
      KidsListedOnce(t, root, lvl, f, n - 1);
      if t[f][n - 1].v {
        Pointer(t, root, lvl, f, n - 1);
        var c := t[f][n - 1].ppn;
        ListedOnce(t, root, lvl, c);
        var before, kid := Kids(t, f, lvl[f], n - 1), PostOrder(t, c, lvl[c]);
        forall g | g in before ensures g !in kid {
          KidsApart(t, root, lvl, f, n - 1, g);
        }
        DistinctConcat(before, kid);
      } else {
        assert Kids(t, f, lvl[f], n) == Kids(t, f, lvl[f], n - 1);
      }
    } else {
      DistinctNone();
    }
  }

  lemma {:induction false} AllListed(t: Memory, root: nat, lvl: map<nat, nat>, g: nat)
    requires Tree(t, root, lvl) && Connected(t, root, lvl) && g in t
    ensures g in PostOrder(t, root, 2)
  {
    if g != root {
      assert HasParent(t, lvl, g);
      var f, i :| Points(t, lvl, f, i) && t[f][i].ppn == g;
      assert PointsDown(t, lvl, f, i);
      if f == root {
        assert g in PostOrder(t, g, 1);
        KidIn(t, root, 2, |t[root]|, i, g);
      } else {
        assert HasParent(t, lvl, f);
        var r, j :| Points(t, lvl, r, j) && t[r][j].ppn == f;
        assert PointsDown(t, lvl, r, j) && r == root;
        assert g in PostOrder(t, g, 0);
        KidIn(t, f, 1, |t[f]|, i, g);
        KidIn(t, root, 2, |t[root]|, j, g);
      }
    }
  }
}
