/** The methods of LogLayer are steps of the state machine of GroupCommit: what GroupCommit proves of every
    run holds of the code.  A commit or a recovery of the code is a run of single block writes, so every
    disk that a crash can find in the code is the disk of a state of the machine. */
module LogRefines {
  import opened RedoLog
  import opened GroupCommit
  import opened LogLayer

  // The state of the code is that of the machine.
  ghost predicate Same(log: Log, s: Sys)
    reads log, log.lhBlock
  {
    && log.Valid()
    && s.disk == log.disk && s.lh == log.Lh() && s.cache == log.cache && |s.active| == log.outstanding
    && s.phase.Committing? == log.committing
  }

  /** begin_op that admits its caller is a BeginOp step; otherwise nothing happens. */
  method Begin(log: Log, ghost s: Sys, ghost id: nat) returns (admitted: bool, ghost s': Sys)
    requires Same(log, s) && !s.phase.Recovering? && id !in s.seen
    modifies log`outstanding
    ensures Same(log, s') && if admitted then BeginOp(log.g, s, s', id) else s' == s
  {
    admitted := log.BeginOp();
    s' := if admitted then s.(active := s.active + [Op(id, 0)], seen := s.seen + {id}) else s;
  }

  /** log_write within the quota is a LogWrite step, or its panic. */
  method Write(log: Log, ghost s: Sys, ghost j: nat, bn: nat, data: Block) returns (panicked: bool, ghost s': Sys)
    requires Same(log, s) && log.g.Home(bn) && j < |s.active| && (bn in s.lh || s.active[j].used < log.g.maxOp)
    modifies log, log.lhBlock
    ensures Same(log, s') && if panicked then s' == s else GroupCommit.LogWrite(log.g, s, s', j, bn, data)
    ensures panicked <==> LogWritePanics(log.g, |s.lh|, |s.active|)
  {
    panicked := log.LogWrite(bn, data);
    ghost var o := s.active[j];
    s' := if panicked then s else s.(
      lh := Absorb(s.lh, bn),
      cache := s.cache[bn := data],
      active := s.active[j := if bn in s.lh then o else Op(o.id, o.used + 1)],
      txn := s.txn + [Rec(o.id, bn, data)],
      history := s.history + [Rec(o.id, bn, data)]);
  }

  /** end_op is an EndOp step; the last operation out enters the commit. */
  method End(log: Log, ghost s: Sys, ghost j: nat) returns (doCommit: bool, ghost s': Sys)
    requires Same(log, s) && s.phase.Running? && j < |s.active|
    modifies log`outstanding, log`committing
    ensures Same(log, s') && GroupCommit.EndOp(log.g, s, s', j)
    ensures doCommit <==> s'.phase == Committing(s'.disk, 0)
  {
    var panicked;
    panicked, doCommit := log.EndOp();
    ghost var rest := s.active[..j] + s.active[j + 1..];
    s' := s.(active := rest, phase := if rest == [] then Committing(s.disk, 0) else s.phase);
  }

  // The machine after k block writes of the commit that starts in s.
  ghost function CommitState(g: Geometry, s: Sys, k: nat): Sys
    requires CommitReady(g, s) && k <= |TxnWrites(g, s)|
  {
    CommitWritesInRange(g, s.phase.base[g.start], s.lh, Contents(s.lh, s.cache));
    var t := s.(disk := Apply(s.phase.base, TxnWrites(g, s)[..k]), phase := Committing(s.phase.base, k));
    if k > |s.lh| then t.(closed := s.closed + [Txn(s.txn, true)], txn := []) else t
  }

  lemma CommitStateStep(g: Geometry, s: Sys, k: nat)
    requires CommitReady(g, s) && k < |TxnWrites(g, s)|
    ensures CommitStep(g, CommitState(g, s, k), CommitState(g, s, k + 1))
  {
    hide Apply;
    hide CommitWrites;
    CommitWritesInRange(g, s.phase.base[g.start], s.lh, Contents(s.lh, s.cache));
    ApplySnoc(s.phase.base, TxnWrites(g, s), k);
  }

  // All states of that commit, and the one after it.
  ghost function CommitRun(g: Geometry, s: Sys): (run: seq<Sys>)
    requires CommitReady(g, s)
    ensures |run| == |TxnWrites(g, s)| + 2
  {
    var n := |TxnWrites(g, s)|;
    seq(n + 1, k requires 0 <= k <= n => CommitState(g, s, k))
    + [CommitState(g, s, n).(phase := Running, lh := [], cache := map[])]
  }

  // A stretch of a run of the machine.
  ghost predicate Steps(g: Geometry, run: seq<Sys>) {
    forall i :: 0 < i < |run| ==> Next(g, run[i - 1], run[i])
  }

  lemma CommitRunSteps(g: Geometry, s: Sys)
    requires CommitReady(g, s) && s.phase == Committing(s.disk, 0)
    ensures Steps(g, CommitRun(g, s)) && CommitRun(g, s)[0] == s
  {
    hide CommitState;
    hide CommitStep;
    hide CommitDone;
    hide CommitReady;
    hide TxnWrites;
    var n, run := |TxnWrites(g, s)|, CommitRun(g, s);
    forall i | 0 < i < |run|
      ensures Next(g, run[i - 1], run[i])
    {
      if i <= n {
        CommitStateStep(g, s, i - 1);
      } else {
        CommitStateDone(g, s);
      }
    }
    CommitStateFirst(g, s);
  }

  lemma CommitStateFirst(g: Geometry, s: Sys)
    requires CommitReady(g, s) && s.phase == Committing(s.disk, 0)
    ensures CommitState(g, s, 0) == s
  {
    hide Apply;
    hide CommitWrites;
    ApplyNone(s.phase.base, TxnWrites(g, s)[..0]);
  }

  lemma CommitStateDone(g: Geometry, s: Sys)
    requires CommitReady(g, s)
    ensures var t := CommitState(g, s, |TxnWrites(g, s)|);
            CommitDone(g, t, t.(phase := Running, lh := [], cache := map[]))
  {
    hide Apply;
    hide CommitWrites;
  }

  /** commit() and the end of end_op: a run of one CommitStep for each block write and then CommitDone.  State
      number i of it has the disk of the code after i block writes. */
  method CommitAll(log: Log, ghost s: Sys) returns (ghost run: seq<Sys>)
    requires Same(log, s) && s.phase == Committing(s.disk, 0)
    requires GoodDisk(log.g, log.disk) && log.disk[log.g.start][0] == 0
    modifies log`disk, log`writes, log`lhN, log`cache, log`committing
    ensures |run| >= 2 && Same(log, run[|run| - 1]) && run[|run| - 1].phase == Running
    ensures run[0] == s && Steps(log.g, run)
    ensures old(log.writes) <= log.writes && |run| == |log.writes| - |old(log.writes)| + 2
    ensures forall i :: 0 <= i <= |log.writes| - |old(log.writes)| ==>
              DiskAfter(run[i].disk, old(log.disk), log.writes[|old(log.writes)|..], i)
  {
    hide Apply;
    hide CommitWrites;
    hide Steps;
    ghost var g := log.g;
    run := CommitRun(g, s);
    CommitRunSteps(g, s);
    ghost var ws := TxnWrites(g, s);
    CommitWritesInRange(g, log.disk[g.start], s.lh, Contents(s.lh, s.cache));
    log.Commit();
    log.CommitFinished();
    assert log.writes[|old(log.writes)|..] == ws;
  }

  // d is what the first i of the writes make of d0.
  ghost predicate DiskAfter(d: Disk, d0: Disk, ws: seq<RedoLog.Write>, i: int) {
    && 0 <= i <= |ws| && (forall j :: 0 <= j < |ws| ==> ws[j].bn < |d0|)
    && d == Apply(d0, ws[..i])
  }

  // The machine after k block writes of the recovery that starts in s.
  ghost function RecoveryState(g: Geometry, s: Sys, k: nat): Sys
    requires s.phase.Recovering? && GoodDisk(g, s.phase.base) && k <= |RecoveryWrites(g, s.phase.base)|
    requires var ws := RecoveryWrites(g, s.phase.base);
             forall i :: 0 <= i < |ws| ==> ws[i].bn < |s.phase.base|
  {
    s.(disk := Apply(s.phase.base, RecoveryWrites(g, s.phase.base)[..k]), phase := Recovering(s.phase.base, k))
  }

  lemma RecoveryStateStep(g: Geometry, s: Sys, k: nat)
    requires s.phase.Recovering? && GoodDisk(g, s.phase.base) && k < |RecoveryWrites(g, s.phase.base)|
    requires var ws := RecoveryWrites(g, s.phase.base);
             forall i :: 0 <= i < |ws| ==> ws[i].bn < |s.phase.base|
    ensures RecoverStep(g, RecoveryState(g, s, k), RecoveryState(g, s, k + 1))
  {
    hide Apply;
    hide RecoveryWrites;
    ApplySnoc(s.phase.base, RecoveryWrites(g, s.phase.base), k);
  }

  /** recover_from_log: a run of one RecoverStep for each block write and then RecoverDone. */
  method RecoverAll(log: Log, ghost s: Sys) returns (ghost run: seq<Sys>)
    requires Same(log, s) && s.phase == Recovering(s.disk, 0) && s.active == [] && s.lh == [] && s.cache == map[]
    requires GoodDisk(log.g, log.disk)
    modifies log`disk, log`writes, log`lhN, log.lhBlock
    ensures |run| >= 2 && Same(log, run[|run| - 1]) && run[|run| - 1].phase == Running
    ensures run[0] == s && Steps(log.g, run)
    ensures old(log.writes) <= log.writes && |run| == |log.writes| - |old(log.writes)| + 2
    ensures forall i :: 0 <= i <= |log.writes| - |old(log.writes)| ==>
              DiskAfter(run[i].disk, old(log.disk), log.writes[|old(log.writes)|..], i)
  {
    hide Apply;
    hide RecoveryWrites;
    hide RecoverStep;
    ghost var g, d := log.g, log.disk;
    ghost var ws := RecoveryWrites(g, d);
    RecoveryInRange(g, d);
    ghost var n := |ws|;
    ghost var last := RecoveryState(g, s, n).(phase := Running);
    run := seq(n + 1, k requires 0 <= k <= n => RecoveryState(g, s, k)) + [last];
    forall i | 0 < i < |run|
      ensures Next(g, run[i - 1], run[i])
    {
      if i <= n {
        RecoveryStateStep(g, s, i - 1);
      } else {
        assert RecoverDone(g, run[i - 1], run[i]);
      }
    }
    ApplyNone(d, ws[..0]);
    log.RecoverFromLog();
    assert log.writes[|old(log.writes)|..] == ws;
    assert ws[..n] == ws;
  }

  lemma RecoveryInRange(g: Geometry, d: Disk)
    requires GoodDisk(g, d)
    ensures forall i :: 0 <= i < |RecoveryWrites(g, d)| ==> RecoveryWrites(g, d)[i].bn < |d|
    ensures Recovered(g, d) == Apply(d, RecoveryWrites(g, d))
  {
    hide Apply;
  }
}
