/** The Kernighan and Ritchie allocator of user/umalloc.c. Addresses count units of one header (16 bytes). */
module Umalloc {
  const HEADER: nat := 16
  const CHUNK: nat := 4096 // least number of units asked of sbrk

  /** What sbrk answers, an address or -1. */
  datatype Grant = Refused | At(g: nat)

  /** What a unit is: not granted by sbrk, on the free list, or part of the block handed out at `h`. */
  datatype Tag = Outside | Free | Used(h: nat)

  /** The headers in memory, and as history what each unit is used for. `nodes` are the headers on the free list. */
  datatype Heap = Heap(base: nat, limit: nat, ptr: map<nat, nat>, size: map<nat, nat>,
                       nodes: set<nat>, used: map<nat, nat>, tag: nat -> Tag)

  predicate HasHeader(m: Heap, x: nat) {
    x in m.ptr && x in m.size
  }

  /** Where the gap after a free block ends: at the next block, or at the end of memory for the last. */
  function Fence(m: Heap, x: nat): nat
    requires HasHeader(m, x)
  {
    if x < m.ptr[x] then m.ptr[x] else m.limit
  }

  /** Node `x` leads to the next node upwards, or the last one back to base; its units are free, and those up
      to the next node, at least one, are not. */
  ghost predicate NodeOk(m: Heap, x: nat) {
    && HasHeader(m, x) && m.ptr[x] in m.nodes && m.base <= x && (x != m.base ==> 0 < m.size[x])
    && (if x < m.ptr[x] then x + m.size[x] < m.ptr[x] else m.ptr[x] == m.base && x + m.size[x] <= m.limit)
    && (forall z :: z in m.nodes ==> z <= x || Fence(m, x) <= z)
    && (forall u :: x <= u < x + m.size[x] ==> m.tag(u) == Free)
    && (forall u :: x + m.size[x] <= u < Fence(m, x) ==> m.tag(u) != Free)
  }

  /** A block handed out keeps its size in its header, and its units are its own. */
  ghost predicate UsedOk(m: Heap, h: nat)
    requires h in m.used
  {
    && 0 < m.used[h] && h in m.size && m.size[h] == m.used[h] && m.base < h && h + m.used[h] <= m.limit
    && forall u :: h <= u < h + m.used[h] ==> m.tag(u) == Used(h)
  }

  ghost predicate Inv(m: Heap) {
    && m.limit <= m.base + 0x1_0000_0000 && m.base < m.limit
    && m.base in m.nodes && m.base in m.size && m.size[m.base] == 0
    && (forall x {:trigger NodeOk(m, x)} :: x in m.nodes ==> NodeOk(m, x))
    && (forall h {:trigger UsedOk(m, h)} :: h in m.used ==> UsedOk(m, h))
    && (forall u {:trigger TagOk(m, u)} :: 0 <= u ==> TagOk(m, u))
  }

  ghost predicate TagOk(m: Heap, u: nat) {
    && (m.tag(u) != Outside ==> m.base < u < m.limit)
    && (m.tag(u).Used? ==> m.tag(u).h in m.used && m.tag(u).h <= u < m.tag(u).h + m.used[m.tag(u).h])
  }

  /** Units `lo..hi` become `t`. */
  ghost function Retag(tag: nat -> Tag, lo: nat, hi: nat, t: Tag): nat -> Tag {
    (u: nat) => if lo <= u < hi then t else tag(u)
  }

  // ----- free -----

  /** The free node a block at `bp` belongs after. */
  predicate Precedes(m: Heap, p: nat, bp: nat) {
    p in m.nodes && HasHeader(m, p) && p < bp < Fence(m, p)
  }

  /** The stores of `free` once `p` is found. */
  function Linked(m: Heap, bp: nat, p: nat): Heap
    requires HasHeader(m, p) && HasHeader(m, m.ptr[p]) && bp in m.size
  {
    var q := m.ptr[p];
    var m1 := if bp + m.size[bp] == q then
                m.(size := m.size[bp := m.size[bp] + m.size[q]], ptr := m.ptr[bp := m.ptr[q]],
                   nodes := m.nodes - {q} + {bp})
              else m.(ptr := m.ptr[bp := q], nodes := m.nodes + {bp});
    if p + m.size[p] == bp then
      m1.(size := m1.size[p := m1.size[p] + m1.size[bp]], ptr := m1.ptr[p := m1.ptr[bp]], nodes := m1.nodes - {bp})
    else m1.(ptr := m1.ptr[p := bp])
  }

  ghost function Freed(m: Heap, bp: nat, p: nat): Heap
    requires HasHeader(m, p) && HasHeader(m, m.ptr[p]) && bp in m.size && bp in m.used
  {
    Linked(m, bp, p).(tag := Retag(m.tag, bp, bp + m.used[bp], Free), used := m.used - {bp})
  }

  /** A block handed out lies inside one gap. */
  lemma InGap(m: Heap, bp: nat, p: nat)
    requires Inv(m) && bp in m.used && Precedes(m, p, bp)
    ensures p + m.size[p] <= bp && bp + m.used[bp] <= Fence(m, p) && bp !in m.nodes
  {
    assert NodeOk(m, p) && UsedOk(m, bp) && NodeOk(m, m.ptr[p]);
    assert m.tag(bp) == Used(bp) && m.tag(bp + m.used[bp] - 1) == Used(bp);
    assert bp in m.nodes ==> NodeOk(m, bp);
    assert p < m.ptr[p] ==> m.tag(m.ptr[p]) == Free;
  }

  /** Where the list goes, and how long the joined block is, after a block at `bp` that may touch the next. */
  function After(m: Heap, bp: nat, p: nat): nat
    requires HasHeader(m, p) && HasHeader(m, m.ptr[p]) && bp in m.size
  {
    if bp + m.size[bp] == m.ptr[p] then m.ptr[m.ptr[p]] else m.ptr[p]
  }

  function Joined(m: Heap, bp: nat, p: nat): nat
    requires HasHeader(m, p) && HasHeader(m, m.ptr[p]) && bp in m.size
  {
    if bp + m.size[bp] == m.ptr[p] then m.size[bp] + m.size[m.ptr[p]] else m.size[bp]
  }

  ghost predicate CanFree(m: Heap, bp: nat, p: nat) {
    Inv(m) && bp in m.used && Precedes(m, p, bp) && HasHeader(m, m.ptr[p]) && bp in m.size
  }

  lemma FreedFields(m: Heap, bp: nat, p: nat)
    requires CanFree(m, bp, p)
    ensures var m', q := Freed(m, bp, p), m.ptr[p];
            && bp != p && bp != q
            && (if p + m.size[p] == bp then m'.nodes == (if bp + m.size[bp] == q then m.nodes - {q} else m.nodes)
                else m'.nodes == (if bp + m.size[bp] == q then m.nodes - {q} + {bp} else m.nodes + {bp}))
            && (if p + m.size[p] == bp then m'.ptr[p] == After(m, bp, p) && m'.size[p] == m.size[p] + Joined(m, bp, p)
                else
                  && m'.ptr[p] == bp && m'.size[p] == m.size[p]
                  && m'.ptr[bp] == After(m, bp, p) && m'.size[bp] == Joined(m, bp, p))
            && (forall x :: x in m.nodes && x != p ==>
                  HasHeader(m', x) && HasHeader(m, x) && m'.ptr[x] == m.ptr[x] && m'.size[x] == m.size[x])
            && HasHeader(m', p) && HasHeader(m', bp)
  {
    InGap(m, bp, p);
    assert NodeOk(m, p) && UsedOk(m, bp);
    forall x | x in m.nodes ensures HasHeader(m, x) {
      assert NodeOk(m, x);
    }
  }

  lemma FreedFrame(m: Heap, bp: nat, p: nat)
    requires CanFree(m, bp, p)
    ensures var m' := Freed(m, bp, p);
            && m'.base == m.base && m'.limit == m.limit && m'.used == m.used - {bp} && m.used[bp] == m.size[bp]
            && forall u :: 0 <= u ==> m'.tag(u) == if bp <= u < bp + m.size[bp] then Free else m.tag(u)
  {
    assert UsedOk(m, bp);
  }

  lemma FreedOther(m: Heap, bp: nat, p: nat, x: nat)
    requires CanFree(m, bp, p) && x in m.nodes && x != p && x in Freed(m, bp, p).nodes
    ensures NodeOk(Freed(m, bp, p), x)
  {
    hide Freed, After, Joined;
    InGap(m, bp, p);
    FreedFields(m, bp, p);
    FreedFrame(m, bp, p);
    assert NodeOk(m, p) && NodeOk(m, x) && NodeOk(m, m.ptr[p]);
  }

  lemma FreedBlock(m: Heap, bp: nat, p: nat)
    requires CanFree(m, bp, p) && bp in Freed(m, bp, p).nodes
    ensures NodeOk(Freed(m, bp, p), bp)
  {
    hide Freed, Linked, TagOk, Retag;
    InGap(m, bp, p);
    FreedFields(m, bp, p);
    FreedFrame(m, bp, p);
    var q := m.ptr[p];
    assert NodeOk(m, p) && NodeOk(m, q) && NodeOk(m, m.ptr[q]) && UsedOk(m, bp);
  }

  lemma FreedPrev(m: Heap, bp: nat, p: nat)
    requires CanFree(m, bp, p)
    ensures p in Freed(m, bp, p).nodes && NodeOk(Freed(m, bp, p), p)
  {
    hide Freed, Linked, TagOk, Retag;
    InGap(m, bp, p);
    FreedFields(m, bp, p);
    FreedFrame(m, bp, p);
    var q := m.ptr[p];
    assert NodeOk(m, p) && NodeOk(m, q) && NodeOk(m, m.ptr[q]) && UsedOk(m, bp);
  }

  lemma FreedUsed(m: Heap, bp: nat, p: nat, h: nat)
    requires CanFree(m, bp, p)
    requires h in m.used && h != bp
    ensures UsedOk(Freed(m, bp, p), h)
  {
    assert UsedOk(m, h) && UsedOk(m, bp) && NodeOk(m, p);
    assert m.tag(h) == Used(h) && m.tag(bp) == Used(bp);
    assert p != m.base ==> m.tag(p) == Free;
  }

  lemma FreedTag(m: Heap, bp: nat, p: nat, u: nat)
    requires CanFree(m, bp, p)
    ensures TagOk(Freed(m, bp, p), u)
  {
    assert TagOk(m, u) && UsedOk(m, bp);
  }

  /** `free` keeps the list in address order with one wrap, joined where blocks touch, and exact. */
  lemma FreedKeepsInv(m: Heap, bp: nat, p: nat)
    requires CanFree(m, bp, p)
    ensures Inv(Freed(m, bp, p)) && p in Freed(m, bp, p).nodes
  {
    hide Freed, NodeOk, UsedOk, TagOk, After, Joined;
    var m' := Freed(m, bp, p);
    FreedFields(m, bp, p);
    FreedFrame(m, bp, p);
    FreedPrev(m, bp, p);
    FreedBase(m, bp, p);
    forall x | x in m'.nodes ensures NodeOk(m', x) {
      if x == bp {
        FreedBlock(m, bp, p);
      } else if x != p {
        FreedOther(m, bp, p, x);
      }
    }
    forall h | h in m'.used ensures UsedOk(m', h) {
      FreedUsed(m, bp, p, h);
    }
    forall u | 0 <= u ensures TagOk(m', u) {
      FreedTag(m, bp, p, u);
    }
  }

  lemma FreedBase(m: Heap, bp: nat, p: nat)
    requires CanFree(m, bp, p)
    ensures var m' := Freed(m, bp, p); m.base in m'.nodes && m.base in m'.size && m'.size[m.base] == 0
  {
    hide Freed;
    FreedFields(m, bp, p);
    InGap(m, bp, p);
    assert NodeOk(m, p) && NodeOk(m, m.base) && UsedOk(m, bp);
  }

  lemma LinkedFrame(m: Heap, bp: nat, p: nat)
    requires CanFree(m, bp, p)
    ensures var m1 := Linked(m, bp, p); m1.base == m.base && m1.limit == m.limit && m1.used == m.used
  {
  }

  lemma FreedHeaders(m: Heap, bp: nat, p: nat)
    requires CanFree(m, bp, p)
    ensures HasHeader(m, p) && HasHeader(m, m.ptr[p]) && bp != p && bp != m.ptr[p] && m.base <= p
    ensures bp + m.size[bp] == m.ptr[p] ==> p != m.ptr[p]
  {
    InGap(m, bp, p);
    assert NodeOk(m, p) && UsedOk(m, bp);
  }

  /** The freed units are all in one block, at `p` or at `bp`. */
  lemma FreedHolds(m: Heap, bp: nat, p: nat)
    requires CanFree(m, bp, p)
    ensures var m', z := Freed(m, bp, p), if p + m.size[p] == bp then p else bp;
            z in m'.nodes && z in m'.size && z <= bp && bp + m.used[bp] <= z + m'.size[z]
  {
    hide Freed;
    InGap(m, bp, p);
    FreedFields(m, bp, p);
    FreedFrame(m, bp, p);
  }

  // ----- malloc -----

  predicate CanTake(m: Heap, prev: nat, p: nat, n: nat) {
    && prev in m.nodes && p in m.nodes && HasHeader(m, prev) && HasHeader(m, p) && m.ptr[prev] == p
    && 0 < n <= m.size[p]
  }

  /** The header a request for `n` units is given from free block `p`: all of it, or its tail. */
  function Given(m: Heap, p: nat, n: nat): nat
    requires HasHeader(m, p) && n <= m.size[p]
  {
    p + m.size[p] - n
  }

  ghost function Taken(m: Heap, prev: nat, p: nat, n: nat): Heap
    requires CanTake(m, prev, p, n)
  {
    var h := Given(m, p, n);
    var m1 := if m.size[p] == n then m.(ptr := m.ptr[prev := m.ptr[p]], nodes := m.nodes - {p})
              else m.(size := m.size[p := m.size[p] - n][h := n]);
    m1.(used := m.used[h := n], tag := Retag(m.tag, h, h + n, Used(h)))
  }

  lemma WholeTakenFields(m: Heap, prev: nat, p: nat, n: nat)
    requires Inv(m) && CanTake(m, prev, p, n) && m.size[p] == n
    ensures var m' := Taken(m, prev, p, n);
            && m'.base == m.base && m'.limit == m.limit && m'.size == m.size && m'.nodes == m.nodes - {p}
            && m'.ptr == m.ptr[prev := m.ptr[p]]
            && forall u :: 0 <= u ==> m'.tag(u) == if p <= u < p + n then Used(p) else m.tag(u)
  {
  }

  lemma WholeTakenNode(m: Heap, prev: nat, p: nat, n: nat, x: nat)
    requires Inv(m) && CanTake(m, prev, p, n) && m.size[p] == n && x in m.nodes && x != p
    ensures NodeOk(Taken(m, prev, p, n), x)
  {
    hide Taken;
    WholeTakenFields(m, prev, p, n);
    assert NodeOk(m, prev) && NodeOk(m, p) && NodeOk(m, x) && NodeOk(m, m.ptr[p]);
  }

  lemma TailTakenNode(m: Heap, prev: nat, p: nat, n: nat, x: nat)
    requires Inv(m) && CanTake(m, prev, p, n) && m.size[p] != n && x in m.nodes
    ensures NodeOk(Taken(m, prev, p, n), x)
  {
    assert NodeOk(m, p) && NodeOk(m, x);
    var m', h := Taken(m, prev, p, n), Given(m, p, n);
    assert m'.ptr == m.ptr && m'.nodes == m.nodes && Fence(m', x) == Fence(m, x);
    assert h != x by {
      assert m.base <= p < h;
    }
  }

  lemma TakenUsed(m: Heap, prev: nat, p: nat, n: nat, h: nat)
    requires Inv(m) && CanTake(m, prev, p, n) && h in Taken(m, prev, p, n).used
    ensures UsedOk(Taken(m, prev, p, n), h)
  {
    assert NodeOk(m, p) && NodeOk(m, m.base);
    assert h in m.used ==> UsedOk(m, h) && m.tag(h) == Used(h);
    assert m.tag(p) == Free && m.tag(Given(m, p, n)) == Free && TagOk(m, p + m.size[p] - 1);
  }

  lemma TakenTag(m: Heap, prev: nat, p: nat, n: nat, u: nat)
    requires Inv(m) && CanTake(m, prev, p, n)
    ensures TagOk(Taken(m, prev, p, n), u)
  {
    assert NodeOk(m, p) && TagOk(m, u) && TagOk(m, p);
    assert m.tag(Given(m, p, n)) == Free;
    assert Given(m, p, n) in m.used ==> UsedOk(m, Given(m, p, n));
  }

  lemma TakenKeepsInv(m: Heap, prev: nat, p: nat, n: nat)
    requires Inv(m) && CanTake(m, prev, p, n)
    ensures Inv(Taken(m, prev, p, n)) && prev in Taken(m, prev, p, n).nodes
  {
    hide NodeOk, UsedOk, TagOk;
    var m' := Taken(m, prev, p, n);
    TakenBase(m, prev, p, n);
    forall x | x in m'.nodes ensures NodeOk(m', x) {
      if m.size[p] == n {
        WholeTakenNode(m, prev, p, n, x);
      } else {
        TailTakenNode(m, prev, p, n, x);
      }
    }
    forall h | h in m'.used ensures UsedOk(m', h) {
      TakenUsed(m, prev, p, n, h);
    }
    forall u | 0 <= u ensures TagOk(m', u) {
      TakenTag(m, prev, p, n, u);
    }
  }

  lemma TakenBase(m: Heap, prev: nat, p: nat, n: nat)
    requires Inv(m) && CanTake(m, prev, p, n)
    ensures var m' := Taken(m, prev, p, n);
            m.base in m'.nodes && m.base in m'.size && m'.size[m.base] == 0 && prev in m'.nodes
  {
    assert NodeOk(m, prev) && NodeOk(m, p);
  }

  // ----- morecore -----

  /** `n` fresh units at `g`, in the shape of a block handed out. */
  ghost function Granted(m: Heap, g: nat, n: nat): Heap {
    m.(size := m.size[g := n], used := m.used[g := n], tag := Retag(m.tag, g, g + n, Used(g)))
  }

  ghost predicate Fresh(m: Heap, g: nat, n: nat) {
    0 < n && m.base < g && g + n <= m.limit && forall u :: g <= u < g + n ==> m.tag(u) == Outside
  }

  lemma GrantedKeepsInv(m: Heap, g: nat, n: nat)
    requires Inv(m) && Fresh(m, g, n)
    ensures Inv(Granted(m, g, n))
  {
    hide NodeOk, UsedOk, TagOk;
    var m' := Granted(m, g, n);
    forall x | x in m.nodes ensures NodeOk(m', x) && x != g {
      GrantedNode(m, g, n, x);
    }
    forall h | h in m'.used ensures UsedOk(m', h) {
      GrantedUsed(m, g, n, h);
    }
    forall u | 0 <= u ensures TagOk(m', u) {
      GrantedTag(m, g, n, u);
    }
  }

  lemma GrantedNode(m: Heap, g: nat, n: nat, x: nat)
    requires Inv(m) && Fresh(m, g, n) && x in m.nodes
    ensures NodeOk(Granted(m, g, n), x) && x != g
  {
    assert NodeOk(m, x);
    assert m.tag(g) == Outside;
    assert x != m.base ==> m.tag(x) == Free;
  }

  lemma GrantedUsed(m: Heap, g: nat, n: nat, h: nat)
    requires Inv(m) && Fresh(m, g, n) && (h in m.used || h == g)
    ensures UsedOk(Granted(m, g, n), h)
  {
    assert h in m.used ==> UsedOk(m, h) && m.tag(h) == Used(h);
  }

  lemma GrantedTag(m: Heap, g: nat, n: nat, u: nat)
    requires Inv(m) && Fresh(m, g, n)
    ensures TagOk(Granted(m, g, n), u)
  {
    assert TagOk(m, u) && m.tag(g) == Outside;
    assert g in m.used ==> UsedOk(m, g);
  }

  lemma NotHandedOut(m: Heap, g: nat, n: nat)
    requires Inv(m) && Fresh(m, g, n)
    ensures g !in m.used
  {
    assert m.tag(g) == Outside;
    assert g in m.used ==> UsedOk(m, g);
  }

  lemma FirstCall(m: Heap)
    requires m.base < m.limit <= m.base + 0x1_0000_0000 && m.nodes == {m.base} && HasHeader(m, m.base)
    requires m.ptr[m.base] == m.base && m.size[m.base] == 0 && m.used == map[] && forall u: nat :: m.tag(u) == Outside
    ensures Inv(m)
  {
    assert NodeOk(m, m.base);
  }

  // ----- The search -----

  /** The free blocks between `f` and `p`, going round, are too small. */
  ghost predicate Passed(m: Heap, f: nat, p: nat, n: nat) {
    forall z :: z in m.nodes && z in m.size && (if p > f then f < z < p else z > f || z < p) ==> m.size[z] < n
  }

  ghost predicate AllSmall(m: Heap, n: nat) {
    forall z :: z in m.nodes && z in m.size ==> m.size[z] < n
  }

  lemma NodesInRange(m: Heap)
    requires Inv(m)
    ensures forall z :: z in m.nodes ==> m.base <= z < m.limit
  {
    forall z | z in m.nodes ensures m.base <= z < m.limit {
      assert NodeOk(m, z) && TagOk(m, z);
      assert z != m.base ==> m.tag(z) == Free;
    }
  }

  lemma FreeNotUsed(m: Heap, h: nat)
    requires Inv(m) && m.tag(h) == Free
    ensures h !in m.used
  {
    assert h in m.used ==> UsedOk(m, h);
  }

  lemma SearchStart(m: Heap, f: nat, n: nat)
    requires Inv(m) && f in m.nodes
    ensures HasHeader(m, f) && m.ptr[f] in m.nodes && HasHeader(m, m.ptr[f]) && m.ptr[f] < m.limit
            && Passed(m, f, m.ptr[f], n)
  {
    assert NodeOk(m, f) && NodeOk(m, m.ptr[f]);
    NodesInRange(m);
  }

  lemma SearchStep(m: Heap, f: nat, p: nat, n: nat)
    requires Inv(m) && f in m.nodes && p in m.nodes && p != f && Passed(m, f, p, n) && p in m.size && m.size[p] < n
    ensures HasHeader(m, p) && m.ptr[p] in m.nodes && HasHeader(m, m.ptr[p]) && m.ptr[p] < m.limit
            && Passed(m, f, m.ptr[p], n)
    ensures if p > f then p < m.ptr[p] || m.ptr[p] <= f else p < m.ptr[p] <= f
  {
    assert NodeOk(m, p) && NodeOk(m, m.ptr[p]);
    NodesInRange(m);
  }

  /** Once round, no free block is large enough. */
  lemma SearchEnd(m: Heap, f: nat, n: nat)
    requires Passed(m, f, f, n) && f in m.size && m.size[f] < n
    ensures AllSmall(m, n)
  {
  }

  lemma BigIsBig(m: Heap, big: nat, n: nat)
    ensures big in m.nodes && big in m.size && n <= m.size[big] ==> !AllSmall(m, n)
  {
  }

  lemma FitsFirst(m: Heap, f: nat, p: nat, n: nat)
    requires p in m.nodes && p in m.size && n <= m.size[p] && Passed(m, f, p, n)
    ensures FirstFit(m, f, p + m.size[p] - n, n)
  {
    hide Passed;
  }

  lemma FreshKept(m: Heap, m': Heap, grant: Grant, n: nat)
    requires m'.base == m.base && m'.limit == m.limit && m'.tag == m.tag
    ensures grant.At? && Fresh(m, grant.g, Ask(n)) ==> Fresh(m', grant.g, Ask(n))
  {
  }

  lemma TakenLimits(m: Heap, prev: nat, p: nat, n: nat)
    requires Inv(m) && CanTake(m, prev, p, n)
    ensures var m' := Taken(m, prev, p, n); m'.base == m.base && m'.limit == m.limit
  {
  }

  /** What a unit is after sbrk answered `got`, when it was asked for `n` units or more. */
  ghost function Grown(tag: nat -> Tag, got: Grant, n: nat, u: nat): Tag {
    if got.At? && got.g <= u < got.g + Ask(n) then Free else tag(u)
  }

  /** The only change is that granted units are free. */
  ghost predicate AllGrown(tag0: nat -> Tag, tag: nat -> Tag, n: nat, got: Grant) {
    forall u :: 0 <= u ==> tag(u) == Grown(tag0, got, n, u)
  }

  /** What a successful call does: `n` free units, of those there were or those granted, are now block `h`, and all
      other units are as before, or granted and free. */
  ghost predicate Handed(used0: map<nat, nat>, tag0: nat -> Tag, used: map<nat, nat>, tag: nat -> Tag, h: nat, n: nat,
                         got: Grant) {
    && h !in used0 && used == used0[h := n]
    && (forall u :: h <= u < h + n ==> Grown(tag0, got, n, u) == Free && tag(u) == Used(h))
    && (forall u :: 0 <= u && !(h <= u < h + n) ==> tag(u) == Grown(tag0, got, n, u))
  }

  /** Block `h` of `n` units is the end of the first free block from `f` on, round the ring, that is large enough. */
  ghost predicate FirstFit(m: Heap, f: nat, h: nat, n: nat) {
    exists x :: x in m.nodes && x in m.size && n <= m.size[x] && h + n == x + m.size[x] && Passed(m, f, x, n)
  }

  lemma HandedFrom(m: Heap, prev: nat, p: nat, n: nat, used0: map<nat, nat>, tag0: nat -> Tag, got: Grant)
    requires Inv(m) && CanTake(m, prev, p, n) && m.used == used0 && AllGrown(tag0, m.tag, n, got)
    ensures var m' := Taken(m, prev, p, n); Handed(used0, tag0, m'.used, m'.tag, Given(m, p, n), n, got)
  {
    hide Taken, Inv, Grown;
    TakenEffect(m, prev, p, n);
  }

  lemma NoneGrown(tag: nat -> Tag, n: nat)
    ensures AllGrown(tag, tag, n, Refused)
  {
  }

  // ----- What sbrk granted -----

  ghost function Span(lo: nat, hi: nat): (s: set<nat>)
    ensures forall u :: u in s <==> lo <= u < hi
    decreases hi
  {
    if hi <= lo then {} else Span(lo, hi - 1) + {hi - 1}
  }

  /** The units of an answer to a request for `n` units. */
  ghost function Extent(got: Grant, n: nat): set<nat> {
    if got.At? then Span(got.g, got.g + Ask(n)) else {}
  }

  lemma NothingGranted(n: nat)
    ensures Extent(Refused, n) == {}
  {
  }

  /** Every unit granted is free or handed out, and no other is. */
  ghost predicate Accounts(tag: nat -> Tag, granted: set<nat>) {
    forall u: nat :: tag(u) != Outside <==> u in granted
  }

  lemma AccountsGranted(tag0: nat -> Tag, tag: nat -> Tag, n: nat, got: Grant, granted: set<nat>, t: Tag)
    requires Accounts(tag0, granted) && got.At? && t != Outside && tag == Retag(tag0, got.g, got.g + Ask(n), t)
    ensures Accounts(tag, granted + Extent(got, n))
  {
    hide Span;
  }

  lemma AccountsTaken(tag0: nat -> Tag, tag: nat -> Tag, lo: nat, hi: nat, t: Tag, granted: set<nat>)
    requires Accounts(tag0, granted) && t != Outside && forall u :: lo <= u < hi ==> tag0(u) == Free && tag(u) == t
    requires forall u :: 0 <= u && !(lo <= u < hi) ==> tag(u) == tag0(u)
    ensures Accounts(tag, granted)
  {
  }

  lemma UsedTags(m: Heap, h: nat)
    requires Inv(m) && h in m.used
    ensures forall u :: h <= u < h + m.used[h] ==> m.tag(u) == Used(h)
  {
    assert UsedOk(m, h);
  }

  lemma TakenEffect(m: Heap, prev: nat, p: nat, n: nat)
    requires Inv(m) && CanTake(m, prev, p, n)
    ensures var m', h := Taken(m, prev, p, n), Given(m, p, n);
            && h !in m.used && m'.used == m.used[h := n] && m'.base == m.base && m'.limit == m.limit
            && (forall u :: h <= u < h + n ==> m.tag(u) == Free && m'.tag(u) == Used(h))
            && (forall u :: 0 <= u && !(h <= u < h + n) ==> m'.tag(u) == m.tag(u))
  {
    assert NodeOk(m, p);
    var h := Given(m, p, n);
    assert m.tag(h) == Free;
    FreeNotUsed(m, h);
  }

  lemma AccountsFreed(tag0: nat -> Tag, tag: nat -> Tag, lo: nat, hi: nat, granted: set<nat>)
    requires Accounts(tag0, granted) && forall u :: lo <= u < hi ==> tag0(u) != Outside
    requires forall u :: 0 <= u ==> tag(u) == if lo <= u < hi then Free else tag0(u)
    ensures Accounts(tag, granted)
  {
  }

  // ----- Consequences -----

  ghost predicate InFree(m: Heap, u: nat) {
    exists x :: x in m.nodes && x in m.size && x <= u < x + m.size[x]
  }

  ghost predicate InUsed(m: Heap, u: nat) {
    exists h :: h in m.used && h <= u < h + m.used[h]
  }

  /** The units sbrk granted are exactly those of the free blocks and those of the blocks handed out, and no unit is
      in both. */
  lemma EveryUnitAccounted(m: Heap, granted: set<nat>, u: nat)
    requires Inv(m) && Accounts(m.tag, granted)
    ensures u in granted <==> InFree(m, u) || InUsed(m, u)
    ensures !(InFree(m, u) && InUsed(m, u))
  {
    hide Inv, NodeOk, UsedOk, TagOk;
    BlocksDisjoint(m, u);
    match m.tag(u)
    case Free =>
      var x := NodeBelow(m, u);
      FreeIsListed(m, u, x);
    case Used(h) => assert h in m.used && h <= u < h + m.used[h];
    case Outside =>
  }

  /** The last node at or below a unit. */
  lemma NodeBelow(m: Heap, u: nat) returns (x: nat)
    requires Inv(m) && m.tag(u) == Free
    ensures x in m.nodes && x <= u && forall z :: z in m.nodes && z <= u ==> z <= x
  {
    assert TagOk(m, u);
    x := Highest(m.nodes, m.base, u);
  }

  lemma {:induction false} Highest(s: set<nat>, lo: nat, u: nat) returns (x: nat)
    requires lo in s && lo <= u
    ensures x in s && x <= u && forall z :: z in s && z <= u ==> z <= x
    decreases u - lo
  {
    if y :| y in s && lo < y <= u {
      x := Highest(s, y, u);
    } else {
      x := lo;
    }
  }

  /** Blocks handed out, and free blocks, are pairwise disjoint. */
  lemma BlocksDisjoint(m: Heap, u: nat)
    requires Inv(m)
    ensures forall h :: h in m.used && h <= u < h + m.used[h] ==> m.tag(u) == Used(h)
    ensures forall x :: x in m.nodes && x in m.size && x <= u < x + m.size[x] ==> m.tag(u) == Free
    ensures m.tag(u).Used? ==> m.tag(u).h in m.used && m.tag(u).h <= u < m.tag(u).h + m.used[m.tag(u).h]
  {
    assert TagOk(m, u);
    forall h | h in m.used ensures UsedOk(m, h) {
    }
    forall x | x in m.nodes ensures NodeOk(m, x) {
    }
  }

  /** A free unit is in a block on the list: the one below it nearest to it. */
  lemma FreeIsListed(m: Heap, u: nat, x: nat)
    requires Inv(m) && m.tag(u) == Free && x in m.nodes && x <= u && forall z :: z in m.nodes && z <= u ==> z <= x
    ensures HasHeader(m, x) && x <= u < x + m.size[x]
  {
    assert NodeOk(m, x) && TagOk(m, u);
    assert x < m.ptr[x] ==> u < m.ptr[x];
  }

  /** No two free blocks touch. */
  lemma FreeBlocksApart(m: Heap, x: nat, y: nat)
    requires Inv(m) && x in m.nodes && y in m.nodes && x < y
    ensures HasHeader(m, x) && x + m.size[x] < y
  {
    assert NodeOk(m, x) && NodeOk(m, y) && TagOk(m, y) && m.tag(y) == Free;
  }

  // ----- The program -----

  function AsInt32(x: nat): int {
    var y := x % 0x1_0000_0000; if y < 0x8000_0000 then y else y - 0x1_0000_0000
  }

  /** sbrk takes an int: the size `morecore` passes survives exactly when it asks for less than 2^27 units. */
  lemma SbrkGetsTheSize(nu: nat)
    requires nu < 0x1_0000_0000
    ensures AsInt32(nu * HEADER) == nu * HEADER <==> nu < 0x800_0000
    ensures 0x800_0000 <= nu ==> AsInt32(nu * HEADER) < nu * HEADER
  {
  }

  function Units(nbytes: nat): nat {
    (nbytes + HEADER - 1) / HEADER + 1
  }

  function Ask(nunits: nat): nat {
    if nunits < CHUNK then CHUNK else nunits
  }

  lemma UnitsBound(nbytes: nat)
    requires nbytes < 0x1_0000_0000
    ensures 0 < Units(nbytes) < 0x8000_0000 && HEADER * (Units(nbytes) - 2) < nbytes <= HEADER * (Units(nbytes) - 1)
  {
  }

  lemma AskArrives(nunits: nat)
    requires nunits < 0x8000_0000
    ensures Arrives(nunits) <==> nunits < 0x800_0000
  {
    hide AsInt32;
    SbrkGetsTheSize(Ask(nunits));
  }

  /** `morecore` gets as much memory as it takes sbrk to have granted. */
  predicate Arrives(nunits: nat) {
    AsInt32(Ask(nunits) * HEADER) == Ask(nunits) * HEADER
  }

  class Allocator {
    const base: nat
    const limit: nat
    var ptr: map<nat, nat>
    var size: map<nat, nat>
    var freep: nat
    ghost var nodes: set<nat>
    ghost var used: map<nat, nat>
    ghost var tag: nat -> Tag
    ghost var granted: set<nat> // the units sbrk has granted

    ghost function H(): Heap
      reads this
    {
      Heap(base, limit, ptr, size, nodes, used, tag)
    }

    /** Before the first call the list does not exist and nothing is handed out. */
    ghost predicate Valid()
      reads this
    {
      && 0 < base < limit <= base + 0x1_0000_0000 && Accounts(tag, granted)
      && if freep == 0 then used == map[] && nodes == {} && granted == {} else Inv(H()) && freep in nodes
    }

    /** `limit` bounds the addresses sbrk can grant; `base` lies below them. */
    constructor (base: nat, limit: nat)
      requires 0 < base < limit <= base + 0x1_0000_0000
      ensures Valid() && freep == 0 && this.base == base && this.limit == limit && granted == {}
    {
      this.base, this.limit, ptr, size, freep := base, limit, map[], map[], 0;
      nodes, used, tag, granted := {}, map[], _ => Outside, {};
    }

    /** The search loop of `free`. */
    method Find(bp: nat) returns (p: nat)
      requires Valid() && freep != 0 && bp in used
      ensures CanFree(H(), bp, p)
    {
      ghost var m := H();
      assert UsedOk(m, bp) && m.tag(bp) == Used(bp);
      p := freep;
      assert NodeOk(m, p) && TagOk(m, p);
      while !(bp > p && bp < ptr[p])
        invariant p in nodes && NodeOk(m, p) && p < limit
        decreases if p > bp then 1 else 0, limit - p
      {
        if p >= ptr[p] && (bp > p || bp < ptr[p]) {
          break;
        }
        assert bp in nodes ==> NodeOk(m, bp);
        p := ptr[p];
        assert NodeOk(m, p) && TagOk(m, p);
      }
      assert NodeOk(m, ptr[p]);
    }

    /** The stores of `free`. */
    method Link(bp: nat, p: nat)
      requires CanFree(H(), bp, p)
      modifies `ptr, `size
      ensures ptr == Linked(old(H()), bp, p).ptr && size == Linked(old(H()), bp, p).size
    {
      hide NodeOk, UsedOk, TagOk;
      FreedHeaders(H(), bp, p);
      var q := ptr[p];
      if bp + size[bp] == q {
        size := size[bp := size[bp] + size[q]];
        ptr := ptr[bp := ptr[q]];
      } else {
        ptr := ptr[bp := q];
      }
      if p + size[p] == bp {
        size := size[p := size[p] + size[bp]];
        ptr := ptr[p := ptr[bp]];
      } else {
        ptr := ptr[p := bp];
      }
    }

    /** `free`: the block's units go back to the list, in a free block `z` that holds them all. */
    method Free(bp: nat) returns (ghost z: nat)
      requires Valid() && freep != 0 && bp in used
      modifies `ptr, `size, `freep, `nodes, `used, `tag
      ensures Valid() && freep != 0 && used == old(used) - {bp}
      ensures forall u :: 0 <= u ==> tag(u) == if bp <= u < bp + old(used)[bp] then Tag.Free else old(tag)(u)
      ensures z in nodes && z in size && z <= bp && bp + old(used)[bp] <= z + size[z]
    {
      hide NodeOk, UsedOk, TagOk, Linked, Accounts;
      ghost var m := H();
      assert forall u :: bp <= u < bp + m.used[bp] ==> m.tag(u) == Used(bp) by { UsedTags(m, bp); }
      var p: nat := Find(bp);
      FreedHeaders(m, bp, p);
      z := if p + size[p] == bp then p else bp;
      ghost var m' := Freed(m, bp, p);
      LinkedFrame(m, bp, p);
      Link(bp, p);
      nodes, used, tag, freep := m'.nodes, m'.used, m'.tag, p;
      assert H() == m';
      FreedFrame(m, bp, p);
      FreedKeepsInv(m, bp, p);
      FreedHolds(m, bp, p);
      AccountsFreed(m.tag, tag, bp, bp + m.used[bp], granted);
    }

    /** `morecore`: `grant` is what sbrk answers. On success a free block of at least `nunits` is on the list. With
        `overrun` sbrk was asked for less than the size that goes on the list, and the model stops there. */
    method Morecore(nunits: nat, grant: Grant) returns (r: nat, ghost z: nat, ghost overrun: bool)
      requires Valid() && freep != 0
      requires grant.At? && Arrives(nunits) ==> Fresh(H(), grant.g, Ask(nunits))
      modifies `ptr, `size, `freep, `nodes, `used, `tag, `granted
      ensures Valid() && freep != 0 && used == old(used) && (overrun <==> grant.At? && !Arrives(nunits))
      ensures grant == Refused || overrun ==>
                r == 0 && H() == old(H()) && freep == old(freep) && granted == old(granted)
      ensures grant.At? && !overrun ==>
                && r == freep && z in nodes && z in size && nunits <= size[z]
                && AllGrown(old(tag), tag, nunits, grant) && granted == old(granted) + Extent(grant, nunits)
    {
      hide NodeOk, UsedOk, TagOk, Accounts, Span, AsInt32;
      if grant == Refused || !Arrives(nunits) {
        return 0, 0, grant.At?;
      }
      var nu, hp := Ask(nunits), grant.g;
      ghost var m := H();
      NotHandedOut(m, hp, nu);
      GrantedKeepsInv(m, hp, nu);
      size := size[hp := nu];
      used, tag := used[hp := nu], Retag(tag, hp, hp + nu, Used(hp));
      granted := granted + Extent(grant, nunits);
      assert H() == Granted(m, hp, nu);
      AccountsGranted(m.tag, tag, nunits, grant, old(granted), Used(hp));
      z := Free(hp);
      assert used == old(used);
      r, overrun := freep, false;
    }

    /** What `malloc` does to the block it finds. */
    method Take(prevp: nat, p0: nat, nunits: nat) returns (p: nat)
      requires CanTake(H(), prevp, p0, nunits)
      modifies `ptr, `size, `freep
      ensures ptr == Taken(old(H()), prevp, p0, nunits).ptr && size == Taken(old(H()), prevp, p0, nunits).size
      ensures p == Given(old(H()), p0, nunits) && freep == prevp
    {
      p := p0;
      if size[p] == nunits {
        ptr := ptr[prevp := ptr[p]];
      } else {
        size := size[p := size[p] - nunits];
        p := p + size[p];
        size := size[p := nunits];
      }
      freep := prevp;
    }

    /** The same, seen from the start of the call. */
    method HandOut(prevp: nat, p0: nat, nunits: nat, ghost used0: map<nat, nat>, ghost tag0: nat -> Tag,
                   ghost got: Grant)
      returns (p: nat)
      requires Valid() && freep != 0 && CanTake(H(), prevp, p0, nunits) && used == used0
               && AllGrown(tag0, tag, nunits, got)
      modifies `ptr, `size, `freep, `nodes, `used, `tag
      ensures Valid() && freep != 0 && Handed(used0, tag0, used, tag, p, nunits, got)
      ensures p + nunits == p0 + old(size)[p0]
    {
      hide NodeOk, UsedOk, TagOk, Inv, Taken, AllGrown, Handed, Accounts;
      ghost var m := H();
      TakenKeepsInv(m, prevp, p0, nunits);
      HandedFrom(m, prevp, p0, nunits, used0, tag0, got);
      TakenLimits(m, prevp, p0, nunits);
      TakenEffect(m, prevp, p0, nunits);
      NodesInRange(m);
      p := Take(prevp, p0, nunits);
      ghost var m' := Taken(m, prevp, p0, nunits);
      nodes, used, tag := m'.nodes, m'.used, m'.tag;
      AccountsTaken(m.tag, tag, p, p + nunits, Used(p), granted);
      assert H() == m';
    }

    /** The first call makes `base` the whole list. */
    method Prepare(ghost n: nat) returns (prevp: nat)
      requires Valid() && 0 < n
      modifies `ptr, `size, `freep, `nodes
      ensures Valid() && freep != 0 && prevp == freep && (AllSmall(H(), n) <==> AllSmall(old(H()), n))
      ensures if old(freep) == 0 then AllSmall(H(), n) else H() == old(H()) && freep == old(freep)
    {
      prevp := freep;
      if prevp == 0 {
        freep, prevp := base, base;
        ptr, size := ptr[base := base], size[base := 0];
        nodes := {base};
        assert forall u: nat :: tag(u) == Outside;
        FirstCall(H());
      }
    }

    /** The loop of `malloc`. */
    method Search(nunits: nat, grant: Grant) returns (r: nat, ghost called: bool, ghost overrun: bool)
      requires Valid() && freep != 0 && 0 < nunits
      requires grant.At? && Arrives(nunits) ==> Fresh(H(), grant.g, Ask(nunits))
      modifies this
      ensures Valid() && freep != 0
      ensures called <==> AllSmall(old(H()), nunits)
      ensures overrun <==> called && grant.At? && !Arrives(nunits)
      ensures r == 0 <==> called && (grant == Refused || overrun)
      ensures r == 0 ==> used == old(used) && tag == old(tag) && granted == old(granted)
      ensures !called ==> 0 < r && FirstFit(old(H()), old(freep), r - 1, nunits)
      ensures r != 0 ==>
                var got := if called then grant else Refused;
                Handed(old(used), old(tag), used, tag, r - 1, nunits, got)
                    && granted == old(granted) + Extent(got, nunits)
    {
      hide NodeOk, UsedOk, TagOk, Inv, Taken, Passed, AllSmall, AllGrown, Handed, Fresh, Accounts, Arrives, Extent, Ask,
           FirstFit;
      ghost var m0, got, big := H(), Refused, 0;
      called, overrun := false, false;
      var prevp := freep;
      SearchStart(m0, freep, nunits);
      NoneGrown(tag, nunits);
      NothingGranted(nunits);
      var p := ptr[prevp];
      while true
        invariant Valid() && freep != 0 && used == old(used) && prevp in nodes && p in nodes && p < limit && !overrun
        invariant HasHeader(H(), prevp) && HasHeader(H(), p) && ptr[prevp] == p && Passed(H(), freep, p, nunits)
        invariant if called then got == grant && got.At? && big in nodes && big in size && nunits <= size[big]
                  else got == Refused && H() == m0 && freep == old(freep)
        invariant called ==> Arrives(nunits) && AllSmall(m0, nunits)
        invariant AllGrown(old(tag), tag, nunits, got) && granted == old(granted) + Extent(got, nunits)
        decreases if called then 0 else 1, if p > freep then 1 else 0, limit - p
      {
        if size[p] >= nunits {
          BigIsBig(H(), p, nunits);
          FitsFirst(H(), freep, p, nunits);
          r := HandOut(prevp, p, nunits, old(used), old(tag), got);
          r := r + 1;
          return;
        }
        if p == freep {
          SearchEnd(H(), freep, nunits);
          BigIsBig(H(), big, nunits);
          assert !called;
          p, big, overrun := Morecore(nunits, grant);
          called, got := true, grant;
          if p == 0 {
            return 0, called, overrun;
          }
          SearchStart(H(), freep, nunits);
        } else {
          SearchStep(H(), freep, p, nunits);
        }
        prevp, p := p, ptr[p];
      }
    }

    /** `malloc`: first fit from `freep`. `called` says that it asked sbrk, once, which it does exactly when no free
        block is large enough. It returns 0 exactly when sbrk is asked and refuses (or see `overrun` in `Morecore`). */
    method Malloc(nbytes: nat, grant: Grant) returns (r: nat, ghost called: bool, ghost overrun: bool)
      requires Valid() && nbytes < 0x1_0000_0000
      requires grant.At? && Units(nbytes) < 0x800_0000 ==> Fresh(H(), grant.g, Ask(Units(nbytes)))
      modifies this
      ensures Valid() && freep != 0 && HEADER * (Units(nbytes) - 2) < nbytes <= HEADER * (Units(nbytes) - 1)
      ensures called <==> AllSmall(old(H()), Units(nbytes))
      ensures !called ==> 0 < r && FirstFit(old(H()), old(freep), r - 1, Units(nbytes))
      ensures overrun <==> called && grant.At? && 0x800_0000 <= Units(nbytes)
      ensures r == 0 <==> called && (grant == Refused || overrun)
      ensures r == 0 ==> used == old(used) && tag == old(tag) && granted == old(granted)
      ensures r != 0 ==>
                var got := if called then grant else Refused;
                && Handed(old(used), old(tag), used, tag, r - 1, Units(nbytes), got)
                && granted == old(granted) + Extent(got, Units(nbytes))
    {
      hide Inv, AllSmall, Handed, Fresh, Accounts, Arrives, Extent, Units, Ask, FirstFit;
      var nunits := Units(nbytes);
      UnitsBound(nbytes);
      AskArrives(nunits);
      var prevp := Prepare(nunits);
      FreshKept(old(H()), H(), grant, nunits);
      r, called, overrun := Search(nunits, grant);
    }
  }
}
