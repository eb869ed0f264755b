/** The table pages that UserMemory counts are those of the tree in PageTable: `walk` takes from the free list what
    UserMemory charges for it. */
module Tables {
  import P = PageTable
  import U = UserMemory

  /** Table page `x` is in the tree of its process. */
  predicate InTree(t: P.Memory, root: nat, x: U.Tab) {
    if x.level == 1 then x.i < P.ENTRIES / 2 && P.Down(t, root, x.i).Some?
    else x.level == 0 && x.i < P.MAXVPN / P.ENTRIES && P.Bottom(t, root, x.i * P.ENTRIES).Some?
  }

  /** The tree has the table pages that `tabs` has for process `p`. */
  ghost predicate Same(t: P.Memory, root: nat, tabs: map<U.Tab, nat>, p: nat) {
    forall x: U.Tab :: x.p == p ==> (x in tabs <==> InTree(t, root, x))
  }

  lemma Indices(v: nat)
    requires v < P.MAXVPN
    ensures v / 0x4_0000 == P.Px(2, v) < P.ENTRIES / 2 && v / 0x200 < P.MAXVPN / P.ENTRIES
    ensures P.Px(2, v / 0x200 * P.ENTRIES) == P.Px(2, v) && P.Px(1, v / 0x200 * P.ENTRIES) == P.Px(1, v)
  {
    assert v / 0x200 * P.ENTRIES / P.ENTRIES == v / 0x200;
  }

  /** Two groups of pages share a table page only if they are the same. */
  lemma SameGroup(v: nat, k: nat)
    requires v < P.MAXVPN && k < P.MAXVPN / P.ENTRIES
    ensures P.Px(2, k * P.ENTRIES) == P.Px(2, v) && P.Px(1, k * P.ENTRIES) == P.Px(1, v) <==> k == v / 0x200
  {
    Indices(v);
    assert k * P.ENTRIES / P.ENTRIES == k;
    if P.Px(2, k * P.ENTRIES) == P.Px(2, v) && P.Px(1, k * P.ENTRIES) == P.Px(1, v) {
      assert k == P.Px(2, k * P.ENTRIES) * P.ENTRIES + P.Px(1, k * P.ENTRIES);
      assert v / 0x200 == P.Px(2, v) * P.ENTRIES + P.Px(1, v);
    }
  }

  lemma PathInTree(t: P.Memory, root: nat, p: nat, v: nat)
    requires v < P.MAXVPN
    ensures InTree(t, root, U.Upper((p, v))) <==> P.Down(t, root, P.Px(2, v)).Some?
    ensures InTree(t, root, U.Lower((p, v))) <==> P.Bottom(t, root, v).Some?
  {
    hide P.Px;
    Indices(v);
  }

  /** What a walk of the tree has to add is what UserMemory finds missing. */
  lemma WalkCosts(t: P.Memory, root: nat, tabs: map<U.Tab, nat>, p: nat, v: nat)
    requires v < P.MAXVPN && Same(t, root, tabs, p)
    ensures P.Lack(t, root, v) == U.Lacks(tabs, (p, v))
  {
    hide P.Px;
    PathInTree(t, root, p, v);
    U.PathCard((p, v), tabs.Keys);
    assert U.Upper((p, v)) in tabs <==> InTree(t, root, U.Upper((p, v)));
    assert U.Lower((p, v)) in tabs <==> InTree(t, root, U.Lower((p, v)));
  }

  /** After it the two agree again. */
  lemma WalkAdds(t: P.Memory, t': P.Memory, root: nat, tabs: map<U.Tab, nat>, tabs': map<U.Tab, nat>, p: nat, v: nat)
    requires v < P.MAXVPN && Same(t, root, tabs, p) && P.AllOpen(t, t', root, v, true, true)
    requires tabs'.Keys == tabs.Keys + U.Path((p, v))
    ensures Same(t', root, tabs', p)
  {
    forall x: U.Tab | x.p == p ensures x in tabs' <==> InTree(t', root, x) {
      AddsOne(t, t', root, p, v, x);
    }
  }

  lemma AddsOne(t: P.Memory, t': P.Memory, root: nat, p: nat, v: nat, x: U.Tab)
    requires v < P.MAXVPN && P.AllOpen(t, t', root, v, true, true) && x.p == p
    ensures InTree(t', root, x) <==> InTree(t, root, x) || x in U.Path((p, v))
  {
    Indices(v);
    if x.level == 1 && x.i < P.ENTRIES / 2 {
      var w := x.i * 0x4_0000;
      Indices(w);
      hide P.Px;
      assert P.Opens(t, t', root, v, true, true, w);
    } else if x.level == 0 && x.i < P.MAXVPN / P.ENTRIES {
      var w := x.i * P.ENTRIES;
      SameGroup(v, x.i);
      hide P.Px;
      assert P.Opens(t, t', root, v, true, true, w);
    }
  }
}
