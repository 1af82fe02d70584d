/** Group commit (log.c) as a state machine: operations begin, log blocks and end in any
    interleaving; the last one to end commits, one block write per step; a crash may come between any
    two steps, inside recovery too. */
module GroupCommit {
  import opened RedoLog

  /** One call of log_write: operation `op` logged `data` as the new contents of block `bn`. */
  datatype Rec = Rec(op: nat, bn: nat, data: Block)

  /** A transaction that is over: its header reached the disk, or a crash lost it. */
  datatype Txn = Txn(recs: seq<Rec>, committed: bool)

  /** An outstanding operation and the number of blocks it has added to the header. */
  datatype Op = Op(id: nat, used: nat)

  /** `base` is the disk when the commit or the recovery began, `k` the block writes done since. */
  datatype Phase = Running | Committing(base: Disk, k: nat) | Recovering(base: Disk, k: nat)

  /** disk; the in-memory header lh; the contents of the pinned (B_DIRTY) buffers; log.outstanding is
      |active| and log.committing is phase.Committing?.  The last four fields record the run: closed
      transactions, the open one, every record ever logged, every operation ever admitted. */
  datatype Sys = Sys(
    disk: Disk,
    lh: seq<nat>,
    cache: map<nat, Block>,
    active: seq<Op>,
    phase: Phase,
    closed: seq<Txn>,
    txn: seq<Rec>,
    history: seq<Rec>,
    seen: set<nat>)

  // ------------------------------------------------------------------- steps

  function Absorb(lh: seq<nat>, bn: nat): seq<nat> {
    if bn in lh then lh else lh + [bn]
  }

  predicate Admits(g: Geometry, lh: nat, outstanding: nat) {
    lh + (outstanding + 1) * g.maxOp <= g.logSize
  }

  // The two panics at the head of log_write.
  predicate LogWritePanics(g: Geometry, lh: nat, outstanding: nat) {
    lh >= g.logSize || lh + 1 >= g.size || outstanding < 1
  }

  function Contents(lh: seq<nat>, cache: map<nat, Block>): (r: seq<Block>)
    requires forall i :: 0 <= i < |lh| ==> lh[i] in cache
    ensures |r| == |lh|
  {
    seq(|lh|, i requires 0 <= i < |lh| => cache[lh[i]])
  }

  ghost predicate BeginOp(g: Geometry, s: Sys, s': Sys, id: nat) {
    && s.phase.Running?
    && Admits(g, |s.lh|, |s.active|)
    && id !in s.seen
    && s' == s.(active := s.active + [Op(id, 0)], seen := s.seen + {id})
  }

  // An operation may log any home block, but adds at most MAXOPBLOCKS to the header.
  ghost predicate LogWrite(g: Geometry, s: Sys, s': Sys, j: nat, bn: nat, data: Block) {
    && j < |s.active|
    && g.Home(bn)
    && !LogWritePanics(g, |s.lh|, |s.active|)
    && (bn in s.lh || s.active[j].used < g.maxOp)
    && var o := s.active[j];
       s' == s.(
         lh := Absorb(s.lh, bn),
         cache := s.cache[bn := data],
         active := s.active[j := if bn in s.lh then o else Op(o.id, o.used + 1)],
         txn := s.txn + [Rec(o.id, bn, data)],
         history := s.history + [Rec(o.id, bn, data)])
  }

  ghost predicate EndOp(g: Geometry, s: Sys, s': Sys, j: nat) {
    && j < |s.active|
    && var rest := s.active[..j] + s.active[j + 1..];
       s' == s.(active := rest, phase := if rest == [] then Committing(s.disk, 0) else s.phase)
  }

  ghost predicate CommitReady(g: Geometry, s: Sys) {
    && s.phase.Committing?
    && g.Valid()
    && |s.phase.base| == g.nblocks
    && GoodBlocks(g, s.lh)
    && (forall i :: 0 <= i < |s.lh| ==> s.lh[i] in s.cache)
  }

  ghost function TxnWrites(g: Geometry, s: Sys): seq<Write>
    requires CommitReady(g, s)
  {
    CommitWrites(g, s.phase.base[g.start], s.lh, Contents(s.lh, s.cache))
  }

  // One block write of commit().  Write number |lh| is the header: the transaction is committed.
  ghost predicate CommitStep(g: Geometry, s: Sys, s': Sys) {
    && CommitReady(g, s)
    && s.phase.k < |TxnWrites(g, s)|
    && var w := TxnWrites(g, s)[s.phase.k];
       && w.bn < |s.disk|
       && var t := s.(disk := s.disk[w.bn := w.data], phase := Committing(s.phase.base, s.phase.k + 1));
          s' == if s.phase.k == |s.lh| then t.(closed := s.closed + [Txn(s.txn, true)], txn := []) else t
  }

  ghost predicate CommitDone(g: Geometry, s: Sys, s': Sys) {
    && CommitReady(g, s)
    && s.phase.k == |TxnWrites(g, s)|
    && s' == s.(phase := Running, lh := [], cache := map[])
  }

  ghost predicate Crash(s: Sys, s': Sys) {
    s' == s.(
      lh := [], cache := map[], active := [], phase := Recovering(s.disk, 0), txn := [],
      closed := if s.txn == [] then s.closed else s.closed + [Txn(s.txn, false)])
  }

  ghost predicate RecoverStep(g: Geometry, s: Sys, s': Sys) {
    && s.phase.Recovering?
    && GoodDisk(g, s.phase.base)
    && s.phase.k < |RecoveryWrites(g, s.phase.base)|
    && var w := RecoveryWrites(g, s.phase.base)[s.phase.k];
       && w.bn < |s.disk|
       && s' == s.(disk := s.disk[w.bn := w.data], phase := Recovering(s.phase.base, s.phase.k + 1))
  }

  ghost predicate RecoverDone(g: Geometry, s: Sys, s': Sys) {
    && s.phase.Recovering?
    && GoodDisk(g, s.phase.base)
    && s.phase.k == |RecoveryWrites(g, s.phase.base)|
    && s' == s.(phase := Running)
  }

  // The machine boots with a disk d and recovers from the log.
  function Boot(d: Disk): Sys {
    Sys(d, [], map[], [], Recovering(d, 0), [], [], [], {})
  }

  ghost predicate Next(g: Geometry, s: Sys, s': Sys) {
    || (exists id: nat :: BeginOp(g, s, s', id))
    || (exists j: nat, bn: nat, data: Block :: LogWrite(g, s, s', j, bn, data))
    || (exists j: nat :: EndOp(g, s, s', j))
    || CommitStep(g, s, s')
    || CommitDone(g, s, s')
    || Crash(s, s')
    || RecoverStep(g, s, s')
    || RecoverDone(g, s, s')
  }

  ghost predicate IsRun(g: Geometry, d: Disk, run: seq<Sys>) {
    && GoodDisk(g, d)
    && |run| >= 1
    && run[0] == Boot(d)
    && forall i :: 0 < i < |run| ==> Next(g, run[i - 1], run[i])
  }

  // -------------------------------------------------- what the run has committed

  ghost function ApplyRecs(d: Disk, recs: seq<Rec>): (r: Disk)
    ensures |r| == |d|
  {
    if recs == [] then d
    else
      var r := recs[|recs| - 1];
      var e := ApplyRecs(d, recs[..|recs| - 1]);
      if r.bn < |e| then e[r.bn := r.data] else e
  }

  // The disk after all committed transactions, in order.
  ghost function Committed(d: Disk, closed: seq<Txn>): (r: Disk)
    ensures |r| == |d|
  {
    if closed == [] then d
    else
      var t := closed[|closed| - 1];
      var e := Committed(d, closed[..|closed| - 1]);
      if t.committed then ApplyRecs(e, t.recs) else e
  }

  ghost function Flat(closed: seq<Txn>): seq<Rec> {
    if closed == [] then [] else Flat(closed[..|closed| - 1]) + closed[|closed| - 1].recs
  }

  lemma {:induction false} ApplyRecsHome(g: Geometry, d: Disk, e: Disk, recs: seq<Rec>)
    requires HomeEqual(g, d, e)
    ensures HomeEqual(g, ApplyRecs(d, recs), ApplyRecs(e, recs))
  {
    if recs != [] {
      ApplyRecsHome(g, d, e, recs[..|recs| - 1]);
    }
  }

  // ------------------------------------------------------- the disk invariant

  // The pinned buffers hold exactly what the open transaction makes of disk d.
  ghost predicate Buffered(d: Disk, txn: seq<Rec>, cache: map<nat, Block>) {
    forall b :: 0 <= b < |d| ==> ApplyRecs(d, txn)[b] == if b in cache then cache[b] else d[b]
  }

  ghost predicate Matches(lh: seq<nat>, cache: map<nat, Block>) {
    && (forall i :: 0 <= i < |lh| ==> lh[i] in cache)
    && (forall b :: b in cache ==> b in lh)
  }

  ghost predicate PhaseInv(g: Geometry, s: Sys)
    requires GoodDisk(g, s.disk) && GoodBlocks(g, s.lh) && Matches(s.lh, s.cache)
  {
    match s.phase
    case Running =>
      && s.disk[g.start][0] == 0
      && Buffered(s.disk, s.txn, s.cache)
    case Committing(base, k) =>
      && s.active == []
      && GoodDisk(g, base) && base[g.start][0] == 0
      && var contents := Contents(s.lh, s.cache);
         && k <= |CommitWrites(g, base[g.start], s.lh, contents)|
         && s.disk == CommitAt(g, base, s.lh, contents, k)
         && (k <= |s.lh| ==> Buffered(base, s.txn, s.cache))
         && (k > |s.lh| ==> s.txn == [])
    case Recovering(base, k) =>
      && s.lh == [] && s.active == [] && s.txn == []
      && GoodDisk(g, base)
      && k <= |RecoveryWrites(g, base)|
      && s.disk == Apply(base, RecoveryWrites(g, base)[..k])
  }

  ghost predicate DiskInv(g: Geometry, d: Disk, s: Sys)
    requires GoodDisk(g, d)
  {
    && GoodDisk(g, s.disk)
    && GoodBlocks(g, s.lh)
    && Matches(s.lh, s.cache)
    && HomeEqual(g, Recovered(g, s.disk), Committed(Recovered(g, d), s.closed))
    && PhaseInv(g, s)
  }

  lemma DiskInvBegin(g: Geometry, d: Disk, s: Sys, s': Sys, id: nat)
    requires GoodDisk(g, d) && DiskInv(g, d, s) && BeginOp(g, s, s', id)
    ensures DiskInv(g, d, s')
  {
    hide Apply;
    hide Recovered;
    hide Committed;
    hide Buffered;
  }

  lemma BufferedSnoc(d: Disk, txn: seq<Rec>, cache: map<nat, Block>, r: Rec)
    requires Buffered(d, txn, cache)
    ensures Buffered(d, txn + [r], cache[r.bn := r.data])
  {
    assert (txn + [r])[..|txn|] == txn;
  }

  lemma DiskInvLogWrite(g: Geometry, d: Disk, s: Sys, s': Sys, j: nat, bn: nat, data: Block)
    requires GoodDisk(g, d) && DiskInv(g, d, s) && LogWrite(g, s, s', j, bn, data)
    ensures DiskInv(g, d, s')
  {
    hide Apply;
    hide Recovered;
    hide Committed;
    hide ApplyRecs;
    hide Buffered;
    BufferedSnoc(s.disk, s.txn, s.cache, Rec(s.active[j].id, bn, data));
  }

  lemma DiskInvEnd(g: Geometry, d: Disk, s: Sys, s': Sys, j: nat)
    requires GoodDisk(g, d) && DiskInv(g, d, s) && EndOp(g, s, s', j)
    ensures DiskInv(g, d, s')
  {
    var contents := Contents(s.lh, s.cache);
    CommitWritesInRange(g, s.disk[g.start], s.lh, contents);
    assert CommitWrites(g, s.disk[g.start], s.lh, contents)[..0] == [];
  }

  // Committing the open transaction is applying its records.
  lemma CommitIsApply(g: Geometry, base: Disk, e: Disk, s: Sys, before: Disk)
    requires |base| == g.nblocks && GoodBlocks(g, s.lh) && Matches(s.lh, s.cache)
    requires Buffered(base, s.txn, s.cache)
    requires HomeEqual(g, base, before)
    requires AllNew(g, base, s.lh, Contents(s.lh, s.cache), e)
    ensures HomeEqual(g, e, ApplyRecs(before, s.txn))
  {
    ApplyRecsHome(g, base, before, s.txn);
    forall b | 0 <= b < g.nblocks && g.Home(b)
      ensures e[b] == ApplyRecs(base, s.txn)[b]
    {
      if b in s.lh {
        var i :| 0 <= i < |s.lh| && s.lh[i] == b;
      }
    }
  }

  lemma AllNewUnique(g: Geometry, base: Disk, bs: seq<nat>, contents: seq<Block>, e: Disk, f: Disk)
    requires |bs| == |contents| && GoodBlocks(g, bs)
    requires AllNew(g, base, bs, contents, e) && AllNew(g, base, bs, contents, f)
    ensures HomeEqual(g, e, f)
  {
    forall b | 0 <= b < g.nblocks && g.Home(b) ensures e[b] == f[b] {
      if b in bs {
        var i :| 0 <= i < |bs| && bs[i] == b;
      }
    }
  }

  lemma CommitAtSnoc(g: Geometry, base: Disk, bs: seq<nat>, contents: seq<Block>, k: nat)
    requires g.Valid() && |base| == g.nblocks
    requires GoodBlocks(g, bs) && |contents| == |bs|
    requires k < |CommitWrites(g, base[g.start], bs, contents)|
    ensures var w := CommitWrites(g, base[g.start], bs, contents)[k];
            && w.bn < g.nblocks
            && CommitAt(g, base, bs, contents, k + 1) == CommitAt(g, base, bs, contents, k)[w.bn := w.data]
  {
    CommitWritesInRange(g, base[g.start], bs, contents);
    ApplySnoc(base, CommitWrites(g, base[g.start], bs, contents), k);
  }

  // Only the header write changes what recovery makes of the home blocks.
  lemma CommitStepNeutral(g: Geometry, base: Disk, bs: seq<nat>, contents: seq<Block>, k: nat)
    requires GoodDisk(g, base) && base[g.start][0] == 0
    requires GoodBlocks(g, bs) && |contents| == |bs|
    requires k < |CommitWrites(g, base[g.start], bs, contents)| && k != |bs|
    ensures GoodDisk(g, CommitAt(g, base, bs, contents, k))
    ensures GoodDisk(g, CommitAt(g, base, bs, contents, k + 1))
    ensures HomeEqual(g, Recovered(g, CommitAt(g, base, bs, contents, k)),
                         Recovered(g, CommitAt(g, base, bs, contents, k + 1)))
  {
    hide Apply;
    hide CommitWrites;
    hide Recovered;
    hide CommitAt;
    hide AllNew;
    CommitCrash(g, base, bs, contents, k);
    CommitCrash(g, base, bs, contents, k + 1);
    if k > |bs| {
      AllNewUnique(g, base, bs, contents,
                   Recovered(g, CommitAt(g, base, bs, contents, k)),
                   Recovered(g, CommitAt(g, base, bs, contents, k + 1)));
    }
  }

  // What recovery makes of the disk before and after one block write of the commit.
  lemma CommitStepRecovery(g: Geometry, s: Sys, before: Disk)
    requires GoodDisk(g, s.disk) && GoodBlocks(g, s.lh) && Matches(s.lh, s.cache) && PhaseInv(g, s)
    requires s.phase.Committing? && s.phase.k < |TxnWrites(g, s)|
    requires HomeEqual(g, Recovered(g, s.disk), before)
    ensures var e := CommitAt(g, s.phase.base, s.lh, Contents(s.lh, s.cache), s.phase.k + 1);
            && GoodDisk(g, e)
            && HomeEqual(g, Recovered(g, e), if s.phase.k == |s.lh| then ApplyRecs(before, s.txn) else before)
  {
    hide Apply;
    hide CommitWrites;
    hide CommitAt;
    hide Recovered;
    hide ApplyRecs;
    hide HeaderBlocks;
    var base, k := s.phase.base, s.phase.k;
    var contents := Contents(s.lh, s.cache);
    if k == |s.lh| {
      CommitCrash(g, base, s.lh, contents, k);
      CommitCrash(g, base, s.lh, contents, k + 1);
      CommitIsApply(g, base, Recovered(g, CommitAt(g, base, s.lh, contents, k + 1)), s, before);
    } else {
      CommitStepNeutral(g, base, s.lh, contents, k);
    }
  }

  lemma CommitStepPhase(g: Geometry, s: Sys, s': Sys)
    requires GoodDisk(g, s.disk) && GoodBlocks(g, s.lh) && Matches(s.lh, s.cache) && PhaseInv(g, s)
    requires CommitStep(g, s, s') && GoodDisk(g, s'.disk)
    ensures PhaseInv(g, s')
  {
    hide Apply;
    hide CommitWrites;
    hide CommitAt;
    hide Buffered;
    hide HeaderBlocks;
    CommitAtSnoc(g, s.phase.base, s.lh, Contents(s.lh, s.cache), s.phase.k);
  }

  lemma CommittedSnoc(d: Disk, closed: seq<Txn>, t: Txn)
    ensures Committed(d, closed + [t])
            == if t.committed then ApplyRecs(Committed(d, closed), t.recs) else Committed(d, closed)
  {
    assert (closed + [t])[..|closed|] == closed;
  }

  lemma DiskInvCommitStep(g: Geometry, d: Disk, s: Sys, s': Sys)
    requires GoodDisk(g, d) && DiskInv(g, d, s) && CommitStep(g, s, s')
    ensures DiskInv(g, d, s')
  {
    hide Apply;
    hide CommitWrites;
    hide CommitAt;
    hide Buffered;
    hide Recovered;
    hide Committed;
    hide HeaderBlocks;
    hide ApplyRecs;
    var before := Committed(Recovered(g, d), s.closed);
    var e := CommitAt(g, s.phase.base, s.lh, Contents(s.lh, s.cache), s.phase.k + 1);
    CommittedSnoc(Recovered(g, d), s.closed, Txn(s.txn, true));
    assert GoodDisk(g, e) && HomeEqual(g, Recovered(g, e), Committed(Recovered(g, d), s'.closed)) by {
      CommitStepRecovery(g, s, before);
    }
    assert s'.disk == e by {
      CommitAtSnoc(g, s.phase.base, s.lh, Contents(s.lh, s.cache), s.phase.k);
    }
    CommitStepPhase(g, s, s');
  }

  lemma DiskInvCommitDone(g: Geometry, d: Disk, s: Sys, s': Sys)
    requires GoodDisk(g, d) && DiskInv(g, d, s) && CommitDone(g, s, s')
    ensures DiskInv(g, d, s')
  {
    var base := s.phase.base;
    var contents := Contents(s.lh, s.cache);
    var ws := TxnWrites(g, s);
    CommitWritesInRange(g, base[g.start], s.lh, contents);
    if s.lh == [] {
      assert s.disk == base;
    } else {
      CommitPointHeader(g, base, ws, s.lh, contents, |ws|);
    }
  }

  lemma DiskInvCrash(g: Geometry, d: Disk, s: Sys, s': Sys)
    requires GoodDisk(g, d) && DiskInv(g, d, s) && Crash(s, s')
    ensures DiskInv(g, d, s')
  {
    hide Apply;
    hide Recovered;
    hide Committed;
    hide RecoveryWrites;
    hide CommitWrites;
    hide CommitAt;
    hide Buffered;
    hide HeaderBlocks;
    CommittedSnoc(Recovered(g, d), s.closed, Txn(s.txn, false));
    RecoveryBegins(g, s.disk);
  }

  // No write of the recovery has been done.
  lemma RecoveryBegins(g: Geometry, d: Disk)
    requires GoodDisk(g, d)
    ensures Apply(d, RecoveryWrites(g, d)[..0]) == d
  {
    hide RecoveryWrites;
    ApplyNone(d, RecoveryWrites(g, d)[..0]);
  }

  lemma DiskInvRecoverStep(g: Geometry, d: Disk, s: Sys, s': Sys)
    requires GoodDisk(g, d) && DiskInv(g, d, s) && RecoverStep(g, s, s')
    ensures DiskInv(g, d, s')
  {
    hide Committed;
    hide Recovered;
    var base, k := s.phase.base, s.phase.k;
    RecoveryRestarts(g, base, k);
    RecoveryRestarts(g, base, k + 1);
    ApplySnoc(base, RecoveryWrites(g, base), k);
  }

  lemma DiskInvRecoverDone(g: Geometry, d: Disk, s: Sys, s': Sys)
    requires GoodDisk(g, d) && DiskInv(g, d, s) && RecoverDone(g, s, s')
    ensures DiskInv(g, d, s')
  {
    RestartGood(g, s.phase.base, s.phase.k);
  }

  lemma DiskInvNext(g: Geometry, d: Disk, s: Sys, s': Sys)
    requires GoodDisk(g, d) && DiskInv(g, d, s) && Next(g, s, s')
    ensures DiskInv(g, d, s')
  {
    if id: nat :| BeginOp(g, s, s', id) {
      DiskInvBegin(g, d, s, s', id);
    } else if j: nat, bn: nat, data: Block :| LogWrite(g, s, s', j, bn, data) {
      DiskInvLogWrite(g, d, s, s', j, bn, data);
    } else if j: nat :| EndOp(g, s, s', j) {
      DiskInvEnd(g, d, s, s', j);
    } else if CommitStep(g, s, s') {
      DiskInvCommitStep(g, d, s, s');
    } else if CommitDone(g, s, s') {
      DiskInvCommitDone(g, d, s, s');
    } else if Crash(s, s') {
      DiskInvCrash(g, d, s, s');
    } else if RecoverStep(g, s, s') {
      DiskInvRecoverStep(g, d, s, s');
    } else {
      DiskInvRecoverDone(g, d, s, s');
    }
  }

  // -------------------------------------------------- the operation invariant

  ghost predicate DistinctOps(a: seq<Rec>, b: seq<Rec>) {
    forall i, j :: 0 <= i < |a| && 0 <= j < |b| ==> a[i].op != b[j].op
  }

  ghost predicate OpInv(s: Sys) {
    && s.history == Flat(s.closed) + s.txn
    && (forall i :: 0 <= i < |s.history| ==> s.history[i].op in s.seen)
    && (forall j :: 0 <= j < |s.active| ==> s.active[j].id in s.seen)
    && (forall i, j :: 0 <= i < j < |s.active| ==> s.active[i].id != s.active[j].id)
    && (forall i, j :: 0 <= i < |s.active| && 0 <= j < |Flat(s.closed)| ==> s.active[i].id != Flat(s.closed)[j].op)
    && DistinctOps(Flat(s.closed), s.txn)
    && (forall i, j :: 0 <= i < j < |s.closed| ==> DistinctOps(s.closed[i].recs, s.closed[j].recs))
  }

  lemma {:induction false} InFlat(closed: seq<Txn>, i: nat, m: nat)
    requires i < |closed| && m < |closed[i].recs|
    ensures closed[i].recs[m] in Flat(closed)
  {
    if i == |closed| - 1 {
      assert Flat(closed)[|Flat(closed[..i])| + m] == closed[i].recs[m];
    } else {
      InFlat(closed[..|closed| - 1], i, m);
    }
  }

  // Closing the open transaction when no operation is outstanding.
  lemma OpInvClose(s: Sys, s': Sys, committed: bool)
    requires OpInv(s)
    requires s'.closed == s.closed + [Txn(s.txn, committed)] && s'.txn == []
    requires s'.history == s.history && s'.seen == s.seen && s'.active == []
    ensures OpInv(s')
  {
    assert s'.closed[..|s.closed|] == s.closed;
    forall i, j | 0 <= i < j < |s'.closed|
      ensures DistinctOps(s'.closed[i].recs, s'.closed[j].recs)
    {
      if j == |s.closed| {
        forall m, n | 0 <= m < |s.closed[i].recs| && 0 <= n < |s.txn|
          ensures s.closed[i].recs[m].op != s.txn[n].op
        {
          InFlat(s.closed, i, m);
        }
      }
    }
  }

  lemma OpInvBegin(g: Geometry, s: Sys, s': Sys, id: nat)
    requires OpInv(s) && BeginOp(g, s, s', id)
    ensures OpInv(s')
  {
    assert forall j :: 0 <= j < |Flat(s.closed)| ==> s.history[j] == Flat(s.closed)[j];
  }

  lemma OpInvLogWrite(g: Geometry, s: Sys, s': Sys, j: nat, bn: nat, data: Block)
    requires OpInv(s) && LogWrite(g, s, s', j, bn, data)
    ensures OpInv(s')
  {
    assert s'.history == Flat(s.closed) + s'.txn;
    assert forall i :: 0 <= i < |s.active| ==> s'.active[i].id == s.active[i].id;
  }

  lemma OpInvEnd(g: Geometry, s: Sys, s': Sys, j: nat)
    requires OpInv(s) && EndOp(g, s, s', j)
    ensures OpInv(s')
  {
    assert forall i :: 0 <= i < |s'.active| ==> s'.active[i] == s.active[if i < j then i else i + 1];
  }

  // Steps that touch neither the records nor the operations, except to forget all operations.
  lemma OpInvQuiet(s: Sys, s': Sys)
    requires OpInv(s)
    requires s'.closed == s.closed && s'.txn == s.txn && s'.history == s.history && s'.seen == s.seen
    requires s'.active == s.active || s'.active == []
    ensures OpInv(s')
  {
  }

  lemma OpInvNext(g: Geometry, d: Disk, s: Sys, s': Sys)
    requires GoodDisk(g, d) && DiskInv(g, d, s) && Next(g, s, s')
    requires OpInv(s)
    ensures OpInv(s')
  {
    if id: nat :| BeginOp(g, s, s', id) {
      OpInvBegin(g, s, s', id);
    } else if j: nat, bn: nat, data: Block :| LogWrite(g, s, s', j, bn, data) {
      OpInvLogWrite(g, s, s', j, bn, data);
    } else if j: nat :| EndOp(g, s, s', j) {
      OpInvEnd(g, s, s', j);
    } else if CommitStep(g, s, s') && s.phase.k == |s.lh| {
      OpInvClose(s, s', true);
    } else if Crash(s, s') && s.txn != [] {
      OpInvClose(s, s', false);
    } else {
      OpInvQuiet(s, s');
    }
  }

  // ------------------------------------------------------ the space invariant

  // The blocks that the outstanding operations may still add to the header.
  ghost function Reserve(g: Geometry, active: seq<Op>): int {
    if active == [] then 0 else g.maxOp - active[0].used + Reserve(g, active[1..])
  }

  ghost predicate SpaceInv(g: Geometry, s: Sys) {
    && (forall j :: 0 <= j < |s.active| ==> s.active[j].used <= g.maxOp)
    && |s.lh| + Reserve(g, s.active) <= g.logSize
  }

  lemma {:induction false} ReserveConcat(g: Geometry, a: seq<Op>, b: seq<Op>)
    ensures Reserve(g, a + b) == Reserve(g, a) + Reserve(g, b)
  {
    if a == [] {
      assert a + b == b;
    } else {
      assert (a + b)[1..] == a[1..] + b;
      ReserveConcat(g, a[1..], b);
    }
  }

  lemma ReserveAt(g: Geometry, a: seq<Op>, j: nat)
    requires j < |a|
    ensures Reserve(g, a) == Reserve(g, a[..j]) + g.maxOp - a[j].used + Reserve(g, a[j + 1..])
    ensures Reserve(g, a[..j] + a[j + 1..]) == Reserve(g, a[..j]) + Reserve(g, a[j + 1..])
  {
    assert a == a[..j] + a[j..];
    ReserveConcat(g, a[..j], a[j..]);
    ReserveConcat(g, a[..j], a[j + 1..]);
  }

  lemma {:induction false} ReserveBounds(g: Geometry, a: seq<Op>)
    requires forall j :: 0 <= j < |a| ==> a[j].used <= g.maxOp
    ensures 0 <= Reserve(g, a) <= |a| * g.maxOp
  {
    if a != [] {
      ReserveBounds(g, a[1..]);
    }
  }

  lemma SpaceInvBegin(g: Geometry, s: Sys, s': Sys, id: nat)
    requires SpaceInv(g, s) && BeginOp(g, s, s', id)
    ensures SpaceInv(g, s')
  {
    ReserveConcat(g, s.active, [Op(id, 0)]);
    ReserveBounds(g, s.active);
  }

  lemma SpaceInvLogWrite(g: Geometry, s: Sys, s': Sys, j: nat, bn: nat, data: Block)
    requires SpaceInv(g, s) && LogWrite(g, s, s', j, bn, data)
    ensures SpaceInv(g, s')
  {
    ReserveAt(g, s.active, j);
    ReserveAt(g, s'.active, j);
    assert s'.active[..j] == s.active[..j] && s'.active[j + 1..] == s.active[j + 1..];
  }

  lemma SpaceInvEnd(g: Geometry, s: Sys, s': Sys, j: nat)
    requires SpaceInv(g, s) && EndOp(g, s, s', j)
    ensures SpaceInv(g, s')
  {
    ReserveAt(g, s.active, j);
  }

  lemma SpaceInvNext(g: Geometry, s: Sys, s': Sys)
    requires SpaceInv(g, s) && Next(g, s, s')
    ensures SpaceInv(g, s')
  {
    hide BeginOp;
    hide LogWrite;
    hide EndOp;
    if id: nat :| BeginOp(g, s, s', id) {
      SpaceInvBegin(g, s, s', id);
    } else if j: nat, bn: nat, data: Block :| LogWrite(g, s, s', j, bn, data) {
      SpaceInvLogWrite(g, s, s', j, bn, data);
    } else if j: nat :| EndOp(g, s, s', j) {
      SpaceInvEnd(g, s, s', j);
    } else {
      ReserveBounds(g, s.active);
    }
  }

  // --------------------------------------------------------- theorems over runs

  ghost predicate Inv(g: Geometry, d: Disk, s: Sys) {
    GoodDisk(g, d) && DiskInv(g, d, s) && OpInv(s) && SpaceInv(g, s)
  }

  lemma BootInv(g: Geometry, d: Disk)
    requires GoodDisk(g, d)
    ensures Inv(g, d, Boot(d))
  {
    assert RecoveryWrites(g, d)[..0] == [];
  }

  /** Every state of every run satisfies the invariant. */
  lemma {:induction false} RunInv(g: Geometry, d: Disk, run: seq<Sys>, i: nat)
    requires IsRun(g, d, run) && i < |run|
    ensures Inv(g, d, run[i])
  {
    if i == 0 {
      BootInv(g, d);
    } else {
      RunInv(g, d, run, i - 1);
      DiskInvNext(g, d, run[i - 1], run[i]);
      OpInvNext(g, d, run[i - 1], run[i]);
      SpaceInvNext(g, run[i - 1], run[i]);
    }
  }

  lemma {:induction false} ClosedGrows(g: Geometry, d: Disk, run: seq<Sys>, i: nat, j: nat)
    requires IsRun(g, d, run) && i <= j < |run|
    ensures run[i].closed <= run[j].closed
  {
    if i < j {
      ClosedGrows(g, d, run, i, j - 1);
      assert Next(g, run[j - 1], run[j]);
    }
  }

  /** Recovery from any point i of any run gives, on every home block, the state after a prefix of the
      transactions the run commits: those whose header had reached the disk by then. */
  lemma RecoveryGivesPrefix(g: Geometry, d: Disk, run: seq<Sys>, i: nat)
    requires IsRun(g, d, run) && i < |run|
    ensures GoodDisk(g, run[i].disk)
    ensures run[i].closed <= run[|run| - 1].closed
    ensures HomeEqual(g, Recovered(g, run[i].disk),
                         Committed(Recovered(g, d), run[|run| - 1].closed[..|run[i].closed|]))
  {
    hide Next;
    hide Committed;
    hide Recovered;
    hide PhaseInv;
    hide OpInv;
    hide SpaceInv;
    RunInv(g, d, run, i);
    ClosedGrows(g, d, run, i, |run| - 1);
    assert run[|run| - 1].closed[..|run[i].closed|] == run[i].closed;
  }

  /** While a commit or a recovery is under way no operation is outstanding, none is admitted and none
      logs. */
  lemma QuietCommit(g: Geometry, d: Disk, run: seq<Sys>, i: nat, s': Sys)
    requires IsRun(g, d, run) && i < |run| && !run[i].phase.Running?
    ensures run[i].active == []
    ensures forall id: nat :: !BeginOp(g, run[i], s', id)
    ensures forall j: nat, bn: nat, data: Block :: !LogWrite(g, run[i], s', j, bn, data)
  {
    RunInv(g, d, run, i);
  }

  /** Each operation's writes fall in exactly one transaction: everything ever logged is, in order, the
      closed transactions followed by the open one, and no operation has records in two of them. */
  lemma OneTransactionPerOp(g: Geometry, d: Disk, run: seq<Sys>, i: nat)
    requires IsRun(g, d, run) && i < |run|
    ensures run[i].history == Flat(run[i].closed) + run[i].txn
    ensures forall a, b :: 0 <= a < b < |run[i].closed| ==>
              DistinctOps(run[i].closed[a].recs, run[i].closed[b].recs)
    ensures DistinctOps(Flat(run[i].closed), run[i].txn)
    ensures forall a, b :: 0 <= a < |run[i].active| && 0 <= b < |Flat(run[i].closed)| ==>
              run[i].active[a].id != Flat(run[i].closed)[b].op
  {
    RunInv(g, d, run, i);
  }

  // Block b is installed: the header on disk d names it and e holds the logged copy.
  ghost predicate Installed(g: Geometry, d: Disk, b: nat, e: Block)
    requires GoodDisk(g, d)
  {
    var bs := HeaderBlocks(d[g.start]);
    exists i :: 0 <= i < |bs| && bs[i] == b && e == d[g.start + 1 + i]
  }

  lemma CommitInstalls(g: Geometry, base: Disk, bs: seq<nat>, contents: seq<Block>, k: nat)
    requires g.Valid() && |base| == g.nblocks && GoodBlocks(g, bs) && |contents| == |bs|
    requires k < |CommitWrites(g, base[g.start], bs, contents)|
    requires GoodDisk(g, CommitAt(g, base, bs, contents, k))
    requires g.Home(CommitWrites(g, base[g.start], bs, contents)[k].bn)
    ensures var w := CommitWrites(g, base[g.start], bs, contents)[k];
            Installed(g, CommitAt(g, base, bs, contents, k), w.bn, w.data)
  {
    hide Apply;
    hide CommitWrites;
    hide GoodDisk;
    var n := |bs|;
    var ws := CommitWrites(g, base[g.start], bs, contents);
    CommitWritesAt(g, base[g.start], bs, contents);
    assert n + 1 <= k < 2 * n + 1;
    var i := k - n - 1;
    CommitPointHeader(g, base, ws, bs, contents, k);
    CommitPointLog(g, base, ws, bs, contents, k, i);
    assert HeaderBlocks(CommitAt(g, base, bs, contents, k)[g.start])[i] == ws[k].bn;
  }

  lemma RecoveryInstalls(g: Geometry, s: Sys, s': Sys, b: nat)
    requires GoodDisk(g, s.disk) && GoodBlocks(g, s.lh) && Matches(s.lh, s.cache) && PhaseInv(g, s)
    requires RecoverStep(g, s, s') && g.Home(b) && s'.disk[b] != s.disk[b]
    ensures Installed(g, s.disk, b, s'.disk[b])
  {
    hide Apply;
    var base, k := s.phase.base, s.phase.k;
    RestartGood(g, base, k);
    RecoveryPoint(g, base, k, g.start + 1 + k);
    assert HeaderBlocks(s.disk[g.start])[k] == b;
  }

  lemma StepInstalls(g: Geometry, d: Disk, s: Sys, s': Sys, b: nat)
    requires GoodDisk(g, d) && DiskInv(g, d, s) && Next(g, s, s')
    requires g.Home(b) && |s'.disk| == g.nblocks && s'.disk[b] != s.disk[b]
    ensures Installed(g, s.disk, b, s'.disk[b])
  {
    if CommitStep(g, s, s') {
      CommitInstalls(g, s.phase.base, s.lh, Contents(s.lh, s.cache), s.phase.k);
    } else {
      assert RecoverStep(g, s, s');
      RecoveryInstalls(g, s, s', b);
    }
  }

  /** A home block changes only when it is installed from the log under a committed header. */
  lemma HomeChange(g: Geometry, d: Disk, run: seq<Sys>, i: nat, b: nat)
    requires IsRun(g, d, run) && 0 < i < |run| && g.Home(b)
    ensures GoodDisk(g, run[i - 1].disk) && GoodDisk(g, run[i].disk)
    ensures run[i].disk[b] != run[i - 1].disk[b] ==> Installed(g, run[i - 1].disk, b, run[i].disk[b])
  {
    RunInv(g, d, run, i - 1);
    RunInv(g, d, run, i);
    if run[i].disk[b] != run[i - 1].disk[b] {
      StepInstalls(g, d, run[i - 1], run[i], b);
    }
  }
}
