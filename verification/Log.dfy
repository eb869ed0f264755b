/** The redo log of kernel/log.c as it runs: the in-memory header, the disk, and the block writes in
    the order they are issued. The buffer cache appears through `cached`, the contents of the buffers
    that `log_write` has pinned; `bread` of any other block sees the disk. Blocking in `begin_op` is
    one pass of its loop that reports whether the caller must sleep. */
module Log {
  import opened Common
  import opened LogSpace
  import opened Wal

  /** The pinned buffers after those of the blocks in `t` are released. */
  ghost function Unpinned(cached: map<nat, Block>, t: seq<nat>): map<nat, Block> {
    map b | b in cached && b !in t :: cached[b]
  }

  lemma Concat4<T>(x: seq<T>, a: seq<T>, b: seq<T>, c: seq<T>, d: seq<T>)
    ensures x + a + b + c + d == x + (a + b + c + d)
  {
  }

  /** The four stages of `commit` put together. */
  lemma CommitComposes(l: Layout, d: Disk, t: seq<nat>, vals: seq<Block>, e1: Disk, e2: Disk)
    requires Fits(l, d) && |t| <= LOGSIZE && |vals| == |t|
    requires e1 == Apply(d, SlotWrites(l, vals))[l.start := Head(d[l.start], t)]
    requires e2 == Apply(e1, InstallWrites(t, vals)) && e2[l.start] == e1[l.start]
    ensures e1 == CommitPoint(l, d, t, vals)
    ensures Apply(d, CommitWrites(l, d[l.start], t, vals)) == e2[l.start := Head(e2[l.start], [])]
  {
    var a := SlotWrites(l, vals) + HeadWrites(l, d[l.start], t);
    ApplyOne(d, SlotWrites(l, vals), Write(l.start, Head(d[l.start], t)));
    ApplyConcat(d, a, InstallWrites(t, vals));
    ApplyOne(d, a + InstallWrites(t, vals), Write(l.start, Head(Head(d[l.start], t), [])));
  }

  /** Installing every logged block gives the state the transaction aims for. */
  lemma {:induction false} InstallUpdates(l: Layout, d: Disk, t: seq<nat>, vals: seq<Block>, k: nat)
    requires |vals| == |t| && Distinct(t) && k <= |t|
    requires forall i :: 0 <= i < |t| ==> t[i] < |d| && |vals[i]| == WORDS
    ensures Updated(l, d, t[..k], vals[..k], Apply(d, InstallWrites(t, vals)[..k]))
  {
    if k > 0 {
      InstallUpdates(l, d, t, vals, k - 1);
      var ws := InstallWrites(t, vals);
      assert ws[..k][..k - 1] == ws[..k - 1];
      assert t[..k] == t[..k - 1] + [t[k - 1]];
    }
  }

  /** What a completed `commit` leaves. */
  lemma CommitOutcome(l: Layout, d: Disk, t: seq<nat>, vals: seq<Block>)
    requires Clear(l, d) && Loggable(l, |d|, t) && |vals| == |t|
    requires forall i :: 0 <= i < |t| ==> |vals[i]| == WORDS
    ensures Slots(l, CommitPoint(l, d, t, vals), |t|) == vals
    ensures var f := Apply(d, CommitWrites(l, d[l.start], t, vals));
            Clear(l, f) && Updated(l, d, t, vals, f)
  {
    var s' := Apply(d, InstallWrites(t, vals));
    var ws := CommitWrites(l, d[l.start], t, vals);
    InstallUpdates(l, d, t, vals, |t|);
    assert InstallWrites(t, vals)[..|t|] == InstallWrites(t, vals) && t[..|t|] == t && vals[..|t|] == vals;
    AtCommitPoint(l, d, d, t, vals, s');
    CommitPrefix(l, d, d, t, vals, s', |ws|);
    assert ws[..|ws|] == ws;
    SameHome(l, d, t, vals, s', Apply(d, ws));
  }

  lemma SameHome(l: Layout, d: Disk, t: seq<nat>, vals: seq<Block>, s': Disk, f: Disk)
    requires Clear(l, f) && Recovers(l, f, s') && Updated(l, d, t, vals, s') && Loggable(l, |d|, t)
    ensures Updated(l, d, t, vals, f)
  {
    assert Targets(f[l.start]) == [];
    forall i | 0 <= i < |t| ensures f[t[i]] == vals[i] { assert Home(l, |d|, t[i]); }
  }

  /** The state a disk with a sound log stands for: some `s` with `Recovers(l, d, s)`. */
  ghost function Standing(l: Layout, d: Disk): (s: Disk)
    requires Sound(l, d)
    ensures Recovers(l, d, s)
  {
    var t := Targets(d[l.start]);
    InstallUpdates(l, d, t, Slots(l, d, |t|), |t|);
    var ws := InstallWrites(t, Slots(l, d, |t|));
    assert ws[..|t|] == ws && t[..|t|] == t;
    Apply(d, ws)
  }

  class Log {
    const layout: Layout
    var disk: Disk
    var n: nat              // log.lh.n
    var block: seq<nat>     // log.lh.block[LOGSIZE]
    var outstanding: int
    var committing: bool
    var cached: map<nat, Block>
    ghost var issued: seq<Write>

    ghost predicate Valid()
      reads this
    {
      && Fits(layout, disk)
      && |block| == LOGSIZE && n <= LOGSIZE
      && Loggable(layout, |disk|, block[..n])
      && (forall i :: 0 <= i < n ==> block[i] in cached && |cached[block[i]]| == WORDS)
      && (forall b :: b in cached ==> Home(layout, |disk|, b) && b in block[..n])
    }

    ghost function View(): Header
      reads this
      requires n <= |block|
    {
      Header(block[..n], outstanding, committing)
    }

    /** The new contents of the logged blocks, in log order. */
    ghost function Values(): seq<Block>
      reads this
      requires Valid()
    {
      seq(n, i requires 0 <= i < n && Valid() reads this => cached[block[i]])
    }

    /** What `bread` returns. */
    function Bread(b: nat): Block
      reads this
      requires b < |disk|
    {
      if b in cached then cached[b] else disk[b]
    }

    /** Booting on a disk whose log may hold a committed transaction. */
    constructor (layout: Layout, disk: Disk)
      requires Fits(layout, disk)
      ensures Valid() && this.layout == layout && this.disk == disk
      ensures View() == INIT.log && issued == [] && cached == map[]
    {
      this.layout := layout;
      this.disk := disk;
      n := 0;
      block := seq(LOGSIZE, _ => 0);
      outstanding := 0;
      committing := false;
      cached := map[];
      issued := [];
    }

    method Bwrite(a: nat, data: Block)
      requires a < |disk|
      modifies this`disk, this`issued
      ensures issued == old(issued) + [Write(a, data)]
      ensures disk == old(disk)[a := data]
    {
      disk := disk[a := data];
      issued := issued + [Write(a, data)];
    }

    method BeginOp() returns (ok: bool)
      requires Valid()
      modifies this`outstanding
      ensures Valid()
      ensures ok == MayBegin(old(View()))
      ensures View() == if ok then Begun(old(View())) else old(View())
      ensures ok <==> !old(committing) && n + (old(outstanding) + 1) * MAXOPBLOCKS <= LOGSIZE
      ensures outstanding == old(outstanding) + if ok then 1 else 0
    {
      if committing {
        ok := false;
      } else if n + (outstanding + 1) * MAXOPBLOCKS > LOGSIZE {
        ok := false;
      } else {
        outstanding := outstanding + 1;
        ok := true;
      }
    }

    /** The first critical section of `end_op`. */
    method EndOp() returns (panic: bool, doCommit: bool)
      requires Valid()
      modifies this`outstanding, this`committing
      ensures Valid()
      ensures panic == old(committing)
      ensures !panic ==> View() == Ended(old(View())) && outstanding == old(outstanding) - 1
      ensures !panic ==> (doCommit <==> old(outstanding) == 1) && (committing <==> doCommit)
    {
      doCommit := false;
      outstanding := outstanding - 1;
      panic := committing;
      if panic {
        return;
      }
      if outstanding == 0 {
        doCommit := true;
        committing := true;
      }
    }

    /** The caller has put `data` into its buffer of block `b`. */
    method LogWrite(b: nat, data: Block) returns (panic: bool)
      requires Valid() && Home(layout, |disk|, b) && |data| == WORDS
      modifies this`block, this`n, this`cached
      ensures Valid()
      ensures panic == LogWritePanics(old(View()), layout.size)
      ensures panic ==> View() == old(View()) && cached == old(cached)
      ensures !panic ==> View() == Logged(old(View()), b) && cached == old(cached)[b := data]
      ensures panic <==> old(n) >= LOGSIZE || old(n) >= layout.size - 1 || outstanding < 1
      ensures !panic ==> block[..n] == old(block[..n]) + if b in old(block[..n]) then [] else [b]
    {
      panic := n >= LOGSIZE || n >= layout.size - 1 || outstanding < 1;
      if panic {
        return;
      }
      var i := 0;
      while i < n
        invariant 0 <= i <= n
        invariant b !in block[..i]
      {
        if block[i] == b { // log absorption
          break;
        }
        i := i + 1;
      }
      block := block[i := b];
      cached := cached[b := data];
      if i == n {
        n := n + 1;
        assert block[..n] == old(block[..n]) + [b];
      } else {
        assert block == old(block);
      }
    }

    method WriteLog()
      requires Valid()
      modifies this`disk, this`issued
      ensures Valid() && Values() == old(Values())
      ensures issued == old(issued) + SlotWrites(layout, old(Values()))
      ensures disk == Apply(old(disk), SlotWrites(layout, old(Values())))
      ensures disk[layout.start] == old(disk)[layout.start]
    {
      hide Apply, Distinct;
      ghost var ws := SlotWrites(layout, Values());
      ApplyNone(disk);
      assert ws[..0] == [];
      for tail := 0 to n
        invariant Valid() && Values() == old(Values())
        invariant issued == old(issued) + ws[..tail]
        invariant disk == Apply(old(disk), ws[..tail])
        invariant disk[layout.start] == old(disk)[layout.start]
      {
        assert Home(layout, |disk|, block[tail]);
        var from := Bread(block[tail]);
        ApplyOne(old(disk), ws[..tail], ws[tail]);
        assert ws[..tail + 1] == ws[..tail] + [ws[tail]];
        Bwrite(layout.start + tail + 1, from);
      }
      assert ws[..n] == ws;
    }

    method WriteHead()
      requires Valid()
      modifies this`disk, this`issued
      ensures Valid()
      ensures issued == old(issued) + HeadWrites(layout, old(disk)[layout.start], block[..n])
      ensures disk == old(disk)[layout.start := Head(old(disk)[layout.start], block[..n])]
    {
      var hb := disk[layout.start];
      hb := hb[0 := n];
      for i := 0 to n
        invariant |hb| == WORDS && hb[0] == n
        invariant forall j :: 1 <= j <= i ==> hb[j] == block[j - 1]
        invariant forall j :: i < j < WORDS && 0 < j ==> hb[j] == disk[layout.start][j]
      {
        hb := hb[1 + i := block[i]];
      }
      assert hb == Head(disk[layout.start], block[..n]);
      Bwrite(layout.start, hb);
    }

    method InstallTrans(recovering: bool)
      requires Fits(layout, disk) && |block| == LOGSIZE && n <= LOGSIZE
      requires Loggable(layout, |disk|, block[..n])
      requires forall b :: b in cached ==> Home(layout, |disk|, b)
      modifies this`disk, this`issued, this`cached
      ensures var ws := InstallWrites(block[..n], Slots(layout, old(disk), n));
              issued == old(issued) + ws && disk == Apply(old(disk), ws)
      ensures cached == if recovering then old(cached) else Unpinned(old(cached), block[..n])
      ensures Fits(layout, disk) && forall a :: InLog(layout, a) ==> disk[a] == old(disk)[a]
    {
      hide Apply, Distinct;
      ghost var ws := InstallWrites(block[..n], Slots(layout, disk, n));
      ApplyNone(disk);
      assert ws[..0] == [];
      assert Unpinned(cached, block[..0]) == cached;
      for tail := 0 to n
        invariant Fits(layout, disk) && |disk| == |old(disk)|
        invariant issued == old(issued) + ws[..tail] && disk == Apply(old(disk), ws[..tail])
        invariant forall a :: InLog(layout, a) ==> disk[a] == old(disk)[a]
        invariant cached == if recovering then old(cached) else Unpinned(old(cached), block[..tail])
      {
        assert Home(layout, |old(disk)|, block[..n][tail]);
        assert InLog(layout, layout.start + tail + 1) && !Home(layout, |old(disk)|, layout.start + tail + 1);
        var lbuf := Bread(layout.start + tail + 1);
        ApplyOne(old(disk), ws[..tail], ws[tail]);
        assert ws[..tail + 1] == ws[..tail] + [ws[tail]];
        Bwrite(block[tail], lbuf);
        if !recovering {
          assert block[..tail + 1] == block[..tail] + [block[tail]];
          cached := cached - {block[tail]}; // bunpin
        }
      }
      assert ws[..n] == ws;
    }

    /** The body of `commit` for a nonempty transaction. */
    method CommitLogged()
      requires Valid() && Clear(layout, disk)
      modifies this`disk, this`issued, this`n, this`cached
      ensures Valid() && Clear(layout, disk) && n == 0 && cached == map[]
      ensures var t, vals := old(block[..n]), old(Values());
              var ws := CommitWrites(layout, old(disk)[layout.start], t, vals);
              && issued == old(issued) + ws && disk == Apply(old(disk), ws)
              && Updated(layout, old(disk), t, vals, disk)
    {
      hide Apply, Distinct, Updated, SlotWrites, InstallWrites;
      ghost var t, vals, d := block[..n], Values(), disk;
      CommitOutcome(layout, d, t, vals);
      WriteLog();
      WriteHead();
      ghost var e1 := disk;
      assert e1 == CommitPoint(layout, d, t, vals) by {
        ApplyOne(d, SlotWrites(layout, vals), Write(layout.start, Head(d[layout.start], t)));
      }
      InstallTrans(false);
      CommitComposes(layout, d, t, vals, e1, disk);
      n := 0;
      WriteHead();
      Concat4(old(issued), SlotWrites(layout, vals), HeadWrites(layout, d[layout.start], t),
              InstallWrites(t, vals), HeadWrites(layout, Head(d[layout.start], t), []));
    }

    /** The second half of `end_op`: all writes of the transaction, then an empty log. */
    method Commit()
      requires Valid() && Clear(layout, disk)
      modifies this`disk, this`issued, this`n, this`cached
      ensures Valid() && Clear(layout, disk) && n == 0 && cached == map[]
      ensures var t, vals := old(block[..n]), old(Values());
              var ws := if t == [] then [] else CommitWrites(layout, old(disk)[layout.start], t, vals);
              && issued == old(issued) + ws && disk == Apply(old(disk), ws)
              && Updated(layout, old(disk), t, vals, disk)
    {
      if n > 0 {
        CommitLogged();
      }
    }

    method ReadHead()
      requires Sound(layout, disk) && |block| == LOGSIZE && cached == map[]
      modifies this`n, this`block
      ensures |block| == LOGSIZE && n <= LOGSIZE && block[..n] == Targets(disk[layout.start])
    {
      var lh := disk[layout.start];
      n := lh[0];
      for i := 0 to n
        invariant n == lh[0] && |block| == LOGSIZE
        invariant forall j :: 0 <= j < i ==> block[j] == lh[1 + j]
      {
        block := block[i := lh[1 + i]];
      }
    }

    /** Boot: bring a committed transaction home and empty the log. */
    method RecoverFromLog()
      requires Sound(layout, disk) && |block| == LOGSIZE && cached == map[]
      modifies this`disk, this`issued, this`n, this`block, this`cached
      ensures Valid() && n == 0 && cached == map[]
      ensures issued == old(issued) + RecoveryWrites(layout, old(disk))
      ensures disk == Recovered(layout, old(disk)) && Clear(layout, disk)
    {
      hide Apply, Distinct, InstallWrites;
      ghost var d, t := disk, Targets(disk[layout.start]);
      ghost var ws := InstallWrites(t, Slots(layout, d, |t|));
      RecoveryEnd(layout, d, Standing(layout, d));
      ReadHead();
      InstallTrans(true);
      ApplyOne(d, ws, Write(layout.start, Head(d[layout.start], [])));
      n := 0;
      WriteHead();
      assert issued == old(issued) + (ws + HeadWrites(layout, d[layout.start], []));
    }
  }
}
