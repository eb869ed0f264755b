/** The buffer cache of kernel/bio.c: reference-counted buffers on a doubly linked ring in
    most-recently-used order. Buffers are numbered; the ring's sentinel `bcache.head` is number
    `bufs.Length`. Each method is the part of its C function that runs under `bcache.lock`. */
module Bcache {
  import opened Common
  import opened Wal

  datatype Buf = Buf(dev: nat, blockno: nat, valid: bool, refcnt: int, data: Block)

  /** The buffers, and their numbers from most to least recently used. */
  datatype Cache = Cache(bufs: seq<Buf>, order: seq<nat>)

  /** A buffer in static storage. */
  function Zeroed(): Buf {
    Buf(0, 0, false, 0, seq(WORDS, _ => 0))
  }

  ghost predicate WellFormed(c: Cache) {
    && |c.order| == |c.bufs|
    && Distinct(c.order)
    && (forall k :: 0 <= k < |c.order| ==> c.order[k] < |c.bufs|)
    && (forall i :: 0 <= i < |c.bufs| ==> i in c.order)
  }

  predicate Holds(b: Buf, dev: nat, blockno: nat) {
    b.dev == dev && b.blockno == blockno
  }

  /** `order[k]` is the most recently used buffer of the block. */
  ghost predicate Hit(c: Cache, dev: nat, blockno: nat, k: int)
    requires WellFormed(c)
  {
    && 0 <= k < |c.order|
    && Holds(c.bufs[c.order[k]], dev, blockno)
    && forall j :: 0 <= j < k ==> !Holds(c.bufs[c.order[j]], dev, blockno)
  }

  ghost predicate Cached(c: Cache, dev: nat, blockno: nat) {
    exists i :: 0 <= i < |c.bufs| && Holds(c.bufs[i], dev, blockno)
  }

  /** `order[k]` is the least recently used buffer that nobody refers to. */
  ghost predicate Victim(c: Cache, k: int)
    requires WellFormed(c)
  {
    && 0 <= k < |c.order|
    && c.bufs[c.order[k]].refcnt == 0
    && forall j :: k < j < |c.order| ==> c.bufs[c.order[j]].refcnt != 0
  }

  ghost predicate Exhausted(c: Cache) {
    forall i :: 0 <= i < |c.bufs| ==> c.bufs[i].refcnt != 0
  }

  /** What `bget` may do: share the cached buffer, recycle the victim, or panic. */
  ghost predicate Gets(c: Cache, dev: nat, blockno: nat, r: Option<nat>, c': Cache)
    requires WellFormed(c)
  {
    && c'.order == c.order
    && match r
       case None => !Cached(c, dev, blockno) && Exhausted(c) && c' == c
       case Some(i) =>
         && i < |c.bufs|
         && ((&& (exists k :: Hit(c, dev, blockno, k) && c.order[k] == i)
              && c'.bufs == c.bufs[i := c.bufs[i].(refcnt := c.bufs[i].refcnt + 1)])
             || (&& !Cached(c, dev, blockno)
                 && (exists k :: Victim(c, k) && c.order[k] == i)
                 && c'.bufs == c.bufs[i := Buf(dev, blockno, false, 1, c.bufs[i].data)]))
  }

  /** Moving entry `k` of the ring to the front. */
  function ToFront(order: seq<nat>, k: nat): (r: seq<nat>)
    requires k < |order|
    ensures |r| == |order|
    ensures r[0] == order[k]
    ensures forall j :: 0 < j <= k ==> r[j] == order[j - 1]
    ensures forall j :: k < j < |order| ==> r[j] == order[j]
  {
    [order[k]] + order[..k] + order[k + 1..]
  }

  /** What `brelse` does to the reference count and the ring. */
  ghost predicate Releases(c: Cache, i: nat, c': Cache)
    requires WellFormed(c) && i < |c.bufs|
  {
    && c'.bufs == c.bufs[i := c.bufs[i].(refcnt := c.bufs[i].refcnt - 1)]
    && (if c.bufs[i].refcnt == 1
        then exists k :: 0 <= k < |c.order| && c.order[k] == i && c'.order == ToFront(c.order, k)
        else c'.order == c.order)
  }

  /** Keeping the ring a permutation through a move to the front. */
  lemma ToFrontWellFormed(c: Cache, k: nat)
    requires WellFormed(c) && k < |c.order|
    ensures WellFormed(c.(order := ToFront(c.order, k)))
  {
    var r := ToFront(c.order, k);
    forall i, j | 0 <= i < j < |r| ensures r[i] != r[j] {
      var i' := if i == 0 then k else if i <= k then i - 1 else i;
      var j' := if j <= k then j - 1 else j;
      assert r[i] == c.order[i'] && r[j] == c.order[j'] && i' != j';
    }
    forall i | 0 <= i < |c.bufs| ensures i in r {
      assert i in c.order;
      var j :| 0 <= j < |c.order| && c.order[j] == i;
      assert r[if j == k then 0 else if j < k then j + 1 else j] == i;
    }
  }

  /** `bget` finds the block, or a buffer for it. */
  lemma GetSomething(c: Cache, dev: nat, blockno: nat) returns (i: nat, c': Cache)
    requires WellFormed(c) && (Cached(c, dev, blockno) || !Exhausted(c))
    ensures Gets(c, dev, blockno, Some(i), c')
  {
    if Cached(c, dev, blockno) {
      var j :| 0 <= j < |c.bufs| && Holds(c.bufs[j], dev, blockno);
      var k := FirstHit(c, dev, blockno, PlaceOf(c, j));
      i := c.order[k];
      c' := c.(bufs := c.bufs[i := c.bufs[i].(refcnt := c.bufs[i].refcnt + 1)]);
    } else {
      var j :| 0 <= j < |c.bufs| && c.bufs[j].refcnt == 0;
      var k := LastFree(c, PlaceOf(c, j));
      i := c.order[k];
      c' := c.(bufs := c.bufs[i := Buf(dev, blockno, false, 1, c.bufs[i].data)]);
    }
  }

  lemma {:induction false} FirstHit(c: Cache, dev: nat, blockno: nat, k0: nat) returns (k: nat)
    requires WellFormed(c) && k0 < |c.order| && Holds(c.bufs[c.order[k0]], dev, blockno)
    ensures Hit(c, dev, blockno, k)
    decreases k0
  {
    if j :| 0 <= j < k0 && Holds(c.bufs[c.order[j]], dev, blockno) {
      k := FirstHit(c, dev, blockno, j);
    } else {
      k := k0;
    }
  }

  lemma {:induction false} LastFree(c: Cache, k0: nat) returns (k: nat)
    requires WellFormed(c) && k0 < |c.order| && c.bufs[c.order[k0]].refcnt == 0
    ensures Victim(c, k)
    decreases |c.order| - k0
  {
    if j :| k0 < j < |c.order| && c.bufs[c.order[j]].refcnt == 0 {
      k := LastFree(c, j);
    } else {
      k := k0;
    }
  }

  // ----- Least recently used -----

  datatype Use = Get(dev: nat, blockno: nat, r: Option<nat>) | Release(i: nat) | Pin(i: nat) | Unpin(i: nat)

  function Counted(c: Cache, i: nat, d: int): Cache
    requires i < |c.bufs|
  {
    c.(bufs := c.bufs[i := c.bufs[i].(refcnt := c.bufs[i].refcnt + d)])
  }

  ghost predicate Uses(c: Cache, u: Use, c': Cache) {
    && WellFormed(c)
    && match u
       case Get(dev, blockno, r) => Gets(c, dev, blockno, r, c')
       case Release(i) => i < |c.bufs| && Releases(c, i, c')
       case Pin(i) => i < |c.bufs| && c' == Counted(c, i, 1)
       case Unpin(i) => i < |c.bufs| && c' == Counted(c, i, -1)
  }

  ghost predicate IsRun(cs: seq<Cache>, us: seq<Use>) {
    |cs| == |us| + 1 && forall k :: 0 <= k < |us| ==> Uses(cs[k], us[k], cs[k + 1])
  }

  /** The use is a `brelse` of the last reference to buffer `i`. */
  predicate Frees(c: Cache, u: Use, i: nat) {
    u == Release(i) && i < |c.bufs| && c.bufs[i].refcnt == 1
  }

  /** Buffer `i` comes before buffer `j` on the ring. */
  ghost predicate Ahead(c: Cache, i: nat, j: nat) {
    exists x, y :: 0 <= x < y < |c.order| && c.order[x] == i && c.order[y] == j
  }

  lemma AheadAt(c: Cache, x: nat, y: nat)
    requires x < y < |c.order|
    ensures Ahead(c, c.order[x], c.order[y])
  {
  }

  /** Moving entry `k` to the front brings it ahead of the others and leaves their order alone. */
  lemma AheadMoved(c: Cache, k: nat, x: nat, y: nat)
    requires k < |c.order| && x < |c.order| && y < |c.order| && y != k && x != y && (x == k || x < y)
    ensures Ahead(c.(order := ToFront(c.order, k)), c.order[x], c.order[y])
  {
    hide Ahead;
    AheadAt(c.(order := ToFront(c.order, k)),
            if x == k then 0 else if x < k then x + 1 else x, if y < k then y + 1 else y);
  }

  /** The buffer just freed is ahead of all others, and no use but freeing `j` brings `j` ahead of `i`. */
  lemma AheadStep(c: Cache, u: Use, c': Cache, i: nat, j: nat)
    requires Uses(c, u, c') && i < |c.bufs| && j < |c.bufs| && i != j
    requires Frees(c, u, i) || (Ahead(c, i, j) && !Frees(c, u, j))
    ensures Ahead(c', i, j)
  {
    if u.Release? && c.bufs[u.i].refcnt == 1 {
      var k :| 0 <= k < |c.order| && c.order[k] == u.i && c'.order == ToFront(c.order, k);
      AheadRelease(c, k, i, j);
      hide Ahead, ToFront;
      OnlyOrder(c.(order := c'.order), c', i, j);
    } else {
      assert c'.order == c.order;
    }
  }

  lemma OnlyOrder(c: Cache, c': Cache, i: nat, j: nat)
    requires c'.order == c.order && Ahead(c, i, j)
    ensures Ahead(c', i, j)
  {
  }

  lemma AheadRelease(c: Cache, k: nat, i: nat, j: nat)
    requires WellFormed(c) && i < |c.bufs| && j < |c.bufs| && i != j && k < |c.order|
    requires c.order[k] == i || (Ahead(c, i, j) && c.order[k] != j)
    ensures Ahead(c.(order := ToFront(c.order, k)), i, j)
  {
    hide ToFront;
    if c.order[k] == i {
      AheadMoved(c, k, k, PlaceOf(c, j));
    } else {
      var x, y :| 0 <= x < y < |c.order| && c.order[x] == i && c.order[y] == j;
      AheadMoved(c, k, x, y);
    }
  }

  function PlaceOf(c: Cache, i: nat): (k: nat)
    requires WellFormed(c) && i < |c.bufs|
    ensures k < |c.order| && c.order[k] == i
  {
    assert i in c.order;
    var k :| 0 <= k < |c.order| && c.order[k] == i;
    k
  }

  lemma SameBuffers(c: Cache, u: Use, c': Cache)
    requires Uses(c, u, c')
    ensures |c'.bufs| == |c.bufs|
  {
  }

  /** Of two buffers, the one freed later is ahead. */
  lemma {:induction false} FreedLaterIsAhead(cs: seq<Cache>, us: seq<Use>, t: nat, n: nat, i: nat, j: nat)
    requires IsRun(cs, us) && t < n <= |us| && Frees(cs[t], us[t], i) && j < |cs[t].bufs| && i != j
    requires forall v :: t < v < n ==> !Frees(cs[v], us[v], j)
    ensures |cs[n].bufs| == |cs[t].bufs| && Ahead(cs[n], i, j)
    decreases n
  {
    hide Uses, Ahead;
    assert Uses(cs[n - 1], us[n - 1], cs[n - 1 + 1]);
    if t < n - 1 {
      FreedLaterIsAhead(cs, us, t, n - 1, i, j);
    }
    SameBuffers(cs[n - 1], us[n - 1], cs[n]);
    AheadStep(cs[n - 1], us[n - 1], cs[n], i, j);
  }

  /** In every run, the buffer that `bget` takes over is the one freed longest ago: every other buffer that nobody
      refers to has been freed since. */
  lemma RecyclesLeastRecentlyUsed(cs: seq<Cache>, us: seq<Use>, t: nat, n: nat, i: nat, j: nat)
    requires IsRun(cs, us) && t < n < |us| && Frees(cs[t], us[t], i) && i != j
    requires us[n].Get? && us[n].r == Some(i) && !Cached(cs[n], us[n].dev, us[n].blockno)
    requires j < |cs[n].bufs| && cs[n].bufs[j].refcnt == 0 && |cs[t].bufs| == |cs[n].bufs|
    ensures exists v :: t < v < n && Frees(cs[v], us[v], j)
  {
    assert Uses(cs[n], us[n], cs[n + 1]);
    VictimIsLast(cs[n], us[n], cs[n + 1], i, j);
    if forall v :: t < v < n ==> !Frees(cs[v], us[v], j) {
      FreedLaterIsAhead(cs, us, t, n, i, j);
    }
  }

  lemma VictimIsLast(c: Cache, u: Use, c': Cache, i: nat, j: nat)
    requires Uses(c, u, c') && u.Get? && u.r == Some(i) && !Cached(c, u.dev, u.blockno)
    requires j < |c.bufs| && c.bufs[j].refcnt == 0 && i != j
    ensures !Ahead(c, i, j)
  {
    var dev, blockno := u.dev, u.blockno;
    assert forall k :: 0 <= k < |c.order| ==> !Holds(c.bufs[c.order[k]], dev, blockno);
    var k :| Victim(c, k) && c.order[k] == i;
    forall x, y | 0 <= x < y < |c.order| && c.order[x] == i ensures c.order[y] != j {
      assert x == k;
    }
  }

  class Ring {
    const bufs: array<Buf>
    const next: array<nat>
    const prev: array<nat>
    ghost var order: seq<nat>

    ghost function View(): Cache
      reads this, bufs
    {
      Cache(bufs[..], order)
    }

    /** The `k`th element of the ring, counting from the sentinel at -1 round to the sentinel. */
    ghost function At(k: int): nat
      reads this
      requires -1 <= k <= |order|
    {
      if 0 <= k < |order| then order[k] else bufs.Length
    }

    ghost predicate Linked()
      reads this, next, prev
    {
      && next.Length == prev.Length == bufs.Length + 1
      && next != prev
      && Distinct(order)
      && (forall k :: 0 <= k < |order| ==> order[k] < bufs.Length)
      && (forall i, j :: -1 <= i && j == i + 1 && j <= |order| ==>
            next[At(i)] == At(j) && prev[At(j)] == At(i))
    }

    ghost predicate Valid()
      reads this, bufs, next, prev
    {
      && WellFormed(View())
      && Linked()
    }

    /** `binit`: every buffer is linked in behind the sentinel, so the last one is first. */
    constructor (n: nat)
      ensures Valid() && fresh(bufs) && fresh(next) && fresh(prev)
      ensures View() == Cache(seq(n, _ => Zeroed()), seq(n, i requires 0 <= i < n => n - 1 - i))
    {
      bufs := new Buf[n](_ => Zeroed());
      next := new nat[n + 1](_ => n);
      prev := new nat[n + 1](_ => n);
      order := [];
      new;
      for b := 0 to n
        invariant Linked() && bufs.Length == n
        invariant order == seq(b, i requires 0 <= i < b => b - 1 - i)
        invariant forall i :: 0 <= i < n ==> bufs[i] == Zeroed()
      {
        PushFront(b);
      }
      forall i | 0 <= i < n ensures i in order {
        assert order[n - 1 - i] == i;
      }
    }

    /** The first loop of `bget`, towards the least recently used. */
    method FindCached(dev: nat, blockno: nat) returns (r: Option<nat>)
      requires Valid()
      ensures r.None? <==> !Cached(View(), dev, blockno)
      ensures r.Some? ==> exists k :: Hit(View(), dev, blockno, k) && order[k] == r.value
    {
      ghost var k := 0;
      assert next[At(-1)] == At(0);
      var b := next[bufs.Length];
      while b != bufs.Length
        invariant 0 <= k <= |order| && b == At(k)
        invariant forall j :: 0 <= j < k ==> !Holds(bufs[order[j]], dev, blockno)
        decreases |order| - k
      {
        if Holds(bufs[b], dev, blockno) {
          assert Hit(View(), dev, blockno, k);
          return Some(b);
        }
        assert next[At(k)] == At(k + 1);
        b := next[b];
        k := k + 1;
      }
      forall i | 0 <= i < bufs.Length ensures !Holds(bufs[i], dev, blockno) {
        assert i in order;
      }
      r := None;
    }

    /** The second loop of `bget`, from the least recently used. */
    method FindVictim() returns (r: Option<nat>)
      requires Valid()
      ensures r.None? <==> Exhausted(View())
      ensures r.Some? ==> exists k :: Victim(View(), k) && order[k] == r.value
    {
      ghost var k := |order| - 1;
      assert prev[At(|order|)] == At(|order| - 1);
      var b := prev[bufs.Length];
      while b != bufs.Length
        invariant -1 <= k < |order| && b == At(k)
        invariant forall j :: k < j < |order| ==> bufs[order[j]].refcnt != 0
        decreases k + 1
      {
        if bufs[b].refcnt == 0 {
          assert Victim(View(), k);
          return Some(b);
        }
        assert prev[At(k)] == At(k - 1);
        b := prev[b];
        k := k - 1;
      }
      forall i | 0 <= i < bufs.Length ensures bufs[i].refcnt != 0 {
        assert i in order;
      }
      r := None;
    }

    /** `bget` up to the release of `bcache.lock`; `None` is its panic. */
    method Bget(dev: nat, blockno: nat) returns (r: Option<nat>)
      requires Valid()
      modifies bufs
      ensures Valid()
      ensures Gets(old(View()), dev, blockno, r, View())
    {
      var hit := FindCached(dev, blockno);
      if hit.Some? {
        var b := hit.value;
        bufs[b] := bufs[b].(refcnt := bufs[b].refcnt + 1);
        return hit;
      }
      r := FindVictim();
      if r.Some? {
        var b := r.value;
        bufs[b] := Buf(dev, blockno, false, 1, bufs[b].data);
      }
    }

    /** `brelse` after the sleep lock is released. */
    method Brelse(b: nat)
      requires Valid() && b < bufs.Length
      modifies this, bufs, next, prev
      ensures Valid()
      ensures Releases(old(View()), b, View())
    {
      ghost var c := View();
      bufs[b] := bufs[b].(refcnt := bufs[b].refcnt - 1);
      if bufs[b].refcnt == 0 {
        assert b in order;
        ghost var k :| 0 <= k < |order| && order[k] == b;
        ToFrontWellFormed(c, k);
        MoveToFront(b, k);
      }
    }

    /** Taking `b` off the ring. */
    method Unlink(b: nat, ghost k: nat)
      requires Linked() && k < |order| && order[k] == b
      modifies this`order, next, prev
      ensures Linked() && order == old(order)[..k] + old(order)[k + 1..]
    {
      assert next[At(k)] == At(k + 1) && prev[At(k)] == At(k - 1);
      prev[next[b]] := prev[b];
      next[prev[b]] := next[b];
      order := order[..k] + order[k + 1..];
      assert forall m :: 0 <= m < |order| ==> order[m] < bufs.Length;
      forall i, j | -1 <= i && j == i + 1 && j <= |order|
        ensures next[At(i)] == At(j) && prev[At(j)] == At(i)
      {
        var i', j' := if i < k then i else i + 1, if j < k then j else j + 1;
        assert At(i) == old(At(i')) && At(j) == old(At(j'));
        if i != k - 1 {
          assert old(next[At(i')] == At(j') && prev[At(j')] == At(i'));
        }
      }
    }

    /** Putting `b` behind the sentinel. */
    method PushFront(b: nat)
      requires Linked() && b < bufs.Length && b !in order
      modifies this`order, next, prev
      ensures Linked() && order == [b] + old(order)
    {
      var head := bufs.Length;
      assert next[At(-1)] == At(0);
      next[b] := next[head];
      prev[b] := head;
      prev[next[head]] := b;
      next[head] := b;
      order := [b] + order;
      forall i, j | -1 <= i && j == i + 1 && j <= |order|
        ensures next[At(i)] == At(j) && prev[At(j)] == At(i)
      {
        if i >= 1 {
          assert old(next[At(i - 1)] == At(j - 1) && prev[At(j - 1)] == At(i - 1));
        }
      }
    }

    method MoveToFront(b: nat, ghost k: nat)
      requires Linked() && k < |order| && order[k] == b
      modifies this`order, next, prev
      ensures Linked() && order == ToFront(old(order), k)
    {
      Unlink(b, k);
      PushFront(b);
    }

    method Bpin(b: nat)
      requires Valid() && b < bufs.Length
      modifies bufs
      ensures Valid()
      ensures View() == old(View()).(bufs := old(bufs[..])[b := old(bufs[b]).(refcnt := old(bufs[b]).refcnt + 1)])
    {
      bufs[b] := bufs[b].(refcnt := bufs[b].refcnt + 1);
    }

    method Bunpin(b: nat)
      requires Valid() && b < bufs.Length
      modifies bufs
      ensures Valid()
      ensures View() == old(View()).(bufs := old(bufs[..])[b := old(bufs[b]).(refcnt := old(bufs[b]).refcnt - 1)])
    {
      bufs[b] := bufs[b].(refcnt := bufs[b].refcnt - 1);
    }
  }
}
