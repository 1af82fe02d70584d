/** What clients of the log see, through crashes.  Operations change blocks and log a copy of each as it is then;
    their calls interleave in any way, and the machine crashes any number of times.  The view is the contents of the
    blocks as the running system has them.  Recovery always gives the view of the last commit, a moment at which no
    operation was outstanding. */
module CrashViews {
  import opened RedoLog
  import opened GroupCommit
  import opened LogSpace
  import opened FsTrace

  /** The log and the view: what each block of the disk would hold if all that has been logged were on it. */
  datatype Fsys = Fsys(log: Sys, view: seq<Cell>)

  // How a block stores its part of the view.
  type Encoding = (nat, Cell) -> Block

  // Every home block of disk d holds its part of the view.
  ghost predicate HoldsView(g: Geometry, enc: Encoding, d: Disk, view: seq<Cell>) {
    |d| == |view| == g.nblocks && forall b :: 0 <= b < |d| && g.Home(b) ==> d[b] == enc(b, view[b])
  }

  // ------------------------------------------------------------------------- steps

  // An outstanding operation changes block b and logs it.
  ghost predicate Touch(g: Geometry, enc: Encoding, x: Fsys, y: Fsys, j: nat, b: nat, cell: Cell) {
    b < |x.view| && y.view == x.view[b := cell] && LogWrite(g, x.log, y.log, j, b, enc(b, cell))
  }

  // The log does something else, or nothing.
  ghost predicate Quiet(g: Geometry, x: Fsys, y: Fsys) {
    && y.view == x.view
    && (|| y.log == x.log
        || (exists id: nat :: BeginOp(g, x.log, y.log, id))
        || (exists j: nat :: EndOp(g, x.log, y.log, j))
        || CommitStep(g, x.log, y.log)
        || CommitDone(g, x.log, y.log)
        || RecoverStep(g, x.log, y.log)
        || RecoverDone(g, x.log, y.log))
  }

  // A crash: the system comes up with what recovery makes of the disk.
  ghost predicate Restart(g: Geometry, enc: Encoding, x: Fsys, y: Fsys) {
    Crash(x.log, y.log) && GoodDisk(g, x.log.disk) && HoldsView(g, enc, Recovered(g, x.log.disk), y.view)
  }

  ghost predicate FsNext(g: Geometry, enc: Encoding, x: Fsys, y: Fsys) {
    || (exists j: nat, b: nat, cell: Cell :: Touch(g, enc, x, y, j, b, cell))
    || Quiet(g, x, y)
    || Restart(g, enc, x, y)
  }

  ghost predicate IsFsRun(g: Geometry, enc: Encoding, d: Disk, xs: seq<Fsys>) {
    && GoodDisk(g, d) && |xs| > 0
    && xs[0].log == Boot(d) && HoldsView(g, enc, Recovered(g, d), xs[0].view)
    && forall i :: 0 < i < |xs| ==> FsNext(g, enc, xs[i - 1], xs[i])
  }

  // --------------------------------------------------------------------- invariant

  ghost predicate ViewInv(g: Geometry, enc: Encoding, d: Disk, x: Fsys) {
    && Inv(g, d, x.log)
    && HoldsView(g, enc, ApplyRecs(Recovered(g, x.log.disk), x.log.txn), x.view)
  }

  lemma LogInv(g: Geometry, enc: Encoding, d: Disk, x: Fsys, y: Fsys)
    requires Inv(g, d, x.log) && FsNext(g, enc, x, y)
    ensures Inv(g, d, y.log) && (y.log == x.log || Next(g, x.log, y.log))
  {
    hide BeginOp;
    hide LogWrite;
    hide EndOp;
    hide CommitStep;
    hide CommitDone;
    hide Crash;
    hide RecoverStep;
    hide RecoverDone;
    hide DiskInv;
    hide OpInv;
    hide SpaceInv;
    hide HoldsView;
    if y.log != x.log {
      if j: nat, b: nat, cell: Cell :| Touch(g, enc, x, y, j, b, cell) {
        assert LogWrite(g, x.log, y.log, j, b, enc(b, cell));
      }
      assert Next(g, x.log, y.log);
      DiskInvNext(g, d, x.log, y.log);
      OpInvNext(g, d, x.log, y.log);
      SpaceInvNext(g, x.log, y.log);
    }
  }

  // The header of the open transaction reaches the disk.
  ghost predicate Commits(s: Sys, s': Sys) {
    s'.closed == s.closed + [Txn(s.txn, true)]
  }

  // What a step does to the result of recovery: a commit applies the open transaction, other steps do nothing.
  lemma RecoveredStep(g: Geometry, d: Disk, s: Sys, s': Sys)
    requires Inv(g, d, s) && Inv(g, d, s') && (s' == s || Next(g, s, s'))
    ensures GoodDisk(g, s.disk) && GoodDisk(g, s'.disk)
    ensures HomeEqual(g, Recovered(g, s'.disk),
                      if Commits(s, s') then ApplyRecs(Recovered(g, s.disk), s.txn) else Recovered(g, s.disk))
    ensures if Commits(s, s') then s'.txn == [] && s.active == []
            else s'.txn == s.txn || Crash(s, s') || exists r :: s'.txn == s.txn + [r]
  {
    hide Recovered;
    hide Committed;
    hide ApplyRecs;
    hide TxnWrites;
    hide HeaderBlocks;
    hide CommitAt;
    hide Buffered;
    hide RecoveryWrites;
    hide OpInv;
    hide SpaceInv;
    var e := Recovered(g, d);
    if Commits(s, s') {
      assert s'.closed[|s.closed|].committed && CommitStep(g, s, s');
      CommittedSnoc(e, s.closed, Txn(s.txn, true));
      ApplyRecsHome(g, Recovered(g, s.disk), Committed(e, s.closed), s.txn);
    } else if Crash(s, s') && s.txn != [] {
      CommittedSnoc(e, s.closed, Txn(s.txn, false));
    }
  }

  lemma HoldsHome(g: Geometry, enc: Encoding, d: Disk, e: Disk, view: seq<Cell>)
    requires HomeEqual(g, d, e) && HoldsView(g, enc, d, view)
    ensures HoldsView(g, enc, e, view)
  {
  }

  lemma TouchView(g: Geometry, enc: Encoding, d: Disk, txn: seq<Rec>, r: Rec, view: seq<Cell>, cell: Cell)
    requires HoldsView(g, enc, ApplyRecs(d, txn), view) && r.bn < |view| && r.data == enc(r.bn, cell)
    ensures HoldsView(g, enc, ApplyRecs(d, txn + [r]), view[r.bn := cell])
  {
    assert (txn + [r])[..|txn|] == txn;
  }

  /** Every step keeps the invariant: the committed disk with the open transaction on top is the view. */
  lemma ViewStep(g: Geometry, enc: Encoding, d: Disk, x: Fsys, y: Fsys)
    requires ViewInv(g, enc, d, x) && FsNext(g, enc, x, y)
    ensures ViewInv(g, enc, d, y)
  {
    hide BeginOp;
    hide EndOp;
    hide CommitStep;
    hide CommitDone;
    hide RecoverStep;
    hide RecoverDone;
    hide DiskInv;
    hide OpInv;
    hide SpaceInv;
    hide HoldsView;
    hide Recovered;
    hide ApplyRecs;
    LogInv(g, enc, d, x, y);
    RecoveredStep(g, d, x.log, y.log);
    var e := Recovered(g, x.log.disk);
    if j: nat, b: nat, cell: Cell :| Touch(g, enc, x, y, j, b, cell) {
      TouchView(g, enc, e, x.log.txn, Rec(x.log.active[j].id, b, enc(b, cell)), x.view, cell);
    } else if Restart(g, enc, x, y) {
      NoRecs(e);
    } else {
      QuietTxn(g, x, y);
      if Commits(x.log, y.log) {
        NoRecs(Recovered(g, y.log.disk));
        HoldsHome(g, enc, ApplyRecs(e, x.log.txn), Recovered(g, y.log.disk), x.view);
      } else {
        ApplyRecsHome(g, e, Recovered(g, y.log.disk), x.log.txn);
        HoldsHome(g, enc, ApplyRecs(e, x.log.txn), ApplyRecs(Recovered(g, y.log.disk), x.log.txn), x.view);
      }
    }
  }

  lemma NoRecs(d: Disk)
    ensures ApplyRecs(d, []) == d
  {
  }

  lemma QuietTxn(g: Geometry, x: Fsys, y: Fsys)
    requires Quiet(g, x, y)
    ensures y.log.txn == x.log.txn || Commits(x.log, y.log)
  {
  }

  // What recovery gives after a step: the view before it if it committed, otherwise what it gave before.
  lemma CommittedViewStep(g: Geometry, enc: Encoding, d: Disk, x: Fsys, y: Fsys, view: seq<Cell>)
    requires ViewInv(g, enc, d, x) && FsNext(g, enc, x, y) && HoldsView(g, enc, Recovered(g, x.log.disk), view)
    ensures Inv(g, d, y.log)
    ensures HoldsView(g, enc, Recovered(g, y.log.disk), if Commits(x.log, y.log) then x.view else view)
    ensures Commits(x.log, y.log) ==> x.log.active == []
  {
    hide FsNext;
    hide DiskInv;
    hide OpInv;
    hide SpaceInv;
    hide HoldsView;
    hide Recovered;
    hide ApplyRecs;
    LogInv(g, enc, d, x, y);
    RecoveredStep(g, d, x.log, y.log);
    var e, e' := Recovered(g, x.log.disk), Recovered(g, y.log.disk);
    if Commits(x.log, y.log) {
      HoldsHome(g, enc, ApplyRecs(e, x.log.txn), e', x.view);
    } else {
      HoldsHome(g, enc, e, e', view);
    }
  }

  // ----------------------------------------------------------------------- theorems

  // The last state up to i whose step to the next one was a commit, or the first state.
  ghost function LastCommit(xs: seq<Fsys>, i: nat): (h: nat)
    requires i < |xs|
    ensures h <= i
  {
    if i == 0 then 0 else if Commits(xs[i - 1].log, xs[i].log) then i - 1 else LastCommit(xs, i - 1)
  }

  /** Recovery from any point of any run, however the operations interleaved and however often the machine crashed
      before, gives the view at the last commit, when no operation was outstanding. */
  lemma {:induction false} LastCommitSurvives(g: Geometry, enc: Encoding, d: Disk, xs: seq<Fsys>, i: nat)
    requires IsFsRun(g, enc, d, xs) && i < |xs|
    ensures ViewInv(g, enc, d, xs[i])
    ensures HoldsView(g, enc, Recovered(g, xs[i].log.disk), xs[LastCommit(xs, i)].view)
    ensures xs[LastCommit(xs, i)].log.active == []
  {
    hide FsNext;
    hide HoldsView;
    hide Recovered;
    hide ApplyRecs;
    hide Inv;
    if i == 0 {
      BootInv(g, d);
      NoRecs(Recovered(g, d));
    } else {
      LastCommitSurvives(g, enc, d, xs, i - 1);
      ViewStep(g, enc, d, xs[i - 1], xs[i]);
      CommittedViewStep(g, enc, d, xs[i - 1], xs[i], xs[LastCommit(xs, i - 1)].view);
    }
  }

  /** What has been committed stays committed. */
  lemma {:induction false} CommitsStay(xs: seq<Fsys>, i: nat, k: nat)
    requires i <= k < |xs|
    ensures LastCommit(xs, i) <= LastCommit(xs, k)
  {
    if i < k {
      CommitsStay(xs, i, k - 1);
    }
  }

  /** The log of a run is, at every point, in a state that the log alone can reach. */
  lemma {:induction false} LogReachable(g: Geometry, enc: Encoding, d: Disk, xs: seq<Fsys>, i: nat)
    requires IsFsRun(g, enc, d, xs) && i < |xs|
    ensures Reachable(g, d, xs[i].log)
  {
    hide FsNext;
    hide Next;
    hide HoldsView;
    hide Inv;
    if i == 0 {
      assert IsRun(g, d, [Boot(d)]);
    } else {
      LogReachable(g, enc, d, xs, i - 1);
      LastCommitSurvives(g, enc, d, xs, i - 1);
      LogInv(g, enc, d, xs[i - 1], xs[i]);
      if xs[i].log != xs[i - 1].log {
        ReachStep(g, d, xs[i - 1].log, xs[i].log);
      }
    }
  }
}
