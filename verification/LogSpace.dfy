/** When log_write's "too big a transaction" panic can and cannot happen (log.c, param.h, mkfs.c). */
module LogSpace {
  import opened RedoLog
  import opened GroupCommit

  /** In every state of every run the header holds distinct blocks and, together with the quotas the
      outstanding operations have left, fits LOGSIZE. */
  lemma LogFits(g: Geometry, d: Disk, run: seq<Sys>, i: nat)
    requires IsRun(g, d, run) && i < |run|
    ensures forall a, b :: 0 <= a < b < |run[i].lh| ==> run[i].lh[a] != run[i].lh[b]
    ensures 0 <= Reserve(g, run[i].active)
    ensures |run[i].lh| + Reserve(g, run[i].active) <= g.logSize
  {
    RunInv(g, d, run, i);
    ReserveBounds(g, run[i].active);
  }

  lemma ReserveAtLeast(g: Geometry, a: seq<Op>, j: nat)
    requires j < |a| && forall i :: 0 <= i < |a| ==> a[i].used <= g.maxOp
    ensures Reserve(g, a) >= g.maxOp - a[j].used
  {
    ReserveAt(g, a, j);
    ReserveBounds(g, a[..j]);
    ReserveBounds(g, a[j + 1..]);
  }

  /** An operation that has not used up its quota panics in log_write exactly when the log area is
      full, and never when log.size > LOGSIZE. */
  lemma QuotaPanics(g: Geometry, d: Disk, run: seq<Sys>, i: nat, j: nat)
    requires IsRun(g, d, run) && i < |run| && j < |run[i].active|
    requires run[i].active[j].used < g.maxOp
    ensures LogWritePanics(g, |run[i].lh|, |run[i].active|) <==> |run[i].lh| + 1 == g.size
    ensures g.size > g.logSize ==> !LogWritePanics(g, |run[i].lh|, |run[i].active|)
  {
    hide Next;
    hide OpInv;
    hide IsRun;
    RunInv(g, d, run, i);
    ReserveAtLeast(g, run[i].active, j);
  }

  ghost predicate Reachable(g: Geometry, d: Disk, s: Sys) {
    exists run :: IsRun(g, d, run) && run[|run| - 1] == s
  }

  lemma ReachStep(g: Geometry, d: Disk, s: Sys, s': Sys)
    requires Reachable(g, d, s) && Next(g, s, s')
    ensures Reachable(g, d, s')
  {
    var run :| IsRun(g, d, run) && run[|run| - 1] == s;
    assert IsRun(g, d, run + [s']);
  }

  function Idle(d: Disk): Sys {
    Sys(d, [], map[], [], Running, [], [], [], {})
  }

  lemma BootReaches(g: Geometry, d: Disk)
    requires GoodDisk(g, d) && d[g.start][0] == 0
    ensures Reachable(g, d, Idle(d))
  {
    var s := Boot(d);
    assert IsRun(g, d, [s]);
    var w := RecoveryWrites(g, d)[0];
    assert w.data == d[g.start];
    var s1 := s.(phase := Recovering(d, 1));
    assert s1.disk == d[w.bn := w.data];
    assert RecoverStep(g, s, s1);
    ReachStep(g, d, s, s1);
    assert RecoverDone(g, s1, Idle(d));
    ReachStep(g, d, s1, Idle(d));
  }

  // Operation j logs the fresh block bn.
  lemma LogOne(g: Geometry, d: Disk, s: Sys, j: nat, bn: nat) returns (t: Sys)
    requires Reachable(g, d, s) && j < |s.active| && s.active[j].used < g.maxOp
    requires g.Home(bn) && bn !in s.lh && |s.lh| < g.logSize && |s.lh| + 1 < g.size
    ensures Reachable(g, d, t) && t.lh == s.lh + [bn] && t.phase == s.phase && t.seen == s.seen
    ensures t.active == s.active[j := Op(s.active[j].id, s.active[j].used + 1)]
  {
    hide Reachable;
    var data: Block := seq(BLOCK_WORDS, _ => 0);
    var o := s.active[j];
    t := s.(
      lh := Absorb(s.lh, bn),
      cache := s.cache[bn := data],
      active := s.active[j := Op(o.id, o.used + 1)],
      txn := s.txn + [Rec(o.id, bn, data)],
      history := s.history + [Rec(o.id, bn, data)]);
    assert LogWrite(g, s, t, j, bn, data);
    ReachStep(g, d, s, t);
  }

  // Operation j logs the fresh blocks bs one after the other.
  lemma {:induction false} LogMany(g: Geometry, d: Disk, s: Sys, j: nat, bs: seq<nat>) returns (t: Sys)
    requires Reachable(g, d, s) && j < |s.active|
    requires GoodBlocks(g, s.lh + bs)
    requires s.active[j].used + |bs| <= g.maxOp
    ensures Reachable(g, d, t) && t.lh == s.lh + bs && t.phase == s.phase && t.seen == s.seen
    ensures t.active == s.active[j := Op(s.active[j].id, s.active[j].used + |bs|)]
    decreases |bs|
  {
    hide Reachable;
    hide GoodBlocks;
    if bs == [] {
      t := s;
      assert s.lh + bs == s.lh;
    } else {
      NextBlock(g, s.lh, bs);
      var u := LogOne(g, d, s, j, bs[0]);
      assert u.lh + bs[1..] == s.lh + bs;
      t := LogMany(g, d, u, j, bs[1..]);
    }
  }

  lemma NextBlock(g: Geometry, lh: seq<nat>, bs: seq<nat>)
    requires GoodBlocks(g, lh + bs) && bs != []
    ensures g.Home(bs[0]) && bs[0] !in lh && |lh| < g.logSize && |lh| + 1 < g.size
  {
    assert (lh + bs)[|lh|] == bs[0];
    assert forall i :: 0 <= i < |lh| ==> (lh + bs)[i] == lh[i];
  }

  lemma GoodPrefix(g: Geometry, bs: seq<nat>, k: nat)
    requires GoodBlocks(g, bs) && k <= |bs|
    ensures GoodBlocks(g, bs[..k])
  {
  }

  // One operation, number 0, has begun and logged nothing; others have come and gone and left bs in the log.
  ghost predicate Waits(g: Geometry, d: Disk, s: Sys, bs: seq<nat>, next: nat) {
    && Reachable(g, d, s) && s.phase == Running && s.lh == bs && s.active == [Op(0, 0)]
    && forall id :: id in s.seen ==> id < next
  }

  lemma OneBegins(g: Geometry, d: Disk) returns (s: Sys)
    requires GoodDisk(g, d) && d[g.start][0] == 0
    ensures Waits(g, d, s, [], 1)
  {
    hide HeaderBlocks;
    BootReaches(g, d);
    s := Idle(d).(active := [Op(0, 0)], seen := {0});
    assert BeginOp(g, Idle(d), s, 0);
    ReachStep(g, d, Idle(d), s);
  }

  // While operation 0 waits, another begins, logs bs and ends.
  lemma Passes(g: Geometry, d: Disk, s: Sys, lh: seq<nat>, bs: seq<nat>, next: nat) returns (t: Sys)
    requires GoodDisk(g, d) && Waits(g, d, s, lh, next) && GoodBlocks(g, lh + bs)
    requires |lh| + 2 * g.maxOp <= g.logSize && |bs| <= g.maxOp
    ensures Waits(g, d, t, lh + bs, next + 1)
  {
    hide GoodDisk;
    hide GoodBlocks;
    hide Reachable;
    var s1 := s.(active := s.active + [Op(next, 0)], seen := s.seen + {next});
    assert BeginOp(g, s, s1, next);
    ReachStep(g, d, s, s1);
    var s2 := LogMany(g, d, s1, 1, bs);
    t := s2.(active := [Op(0, 0)]);
    assert s2.active[..1] + s2.active[2..] == [Op(0, 0)];
    assert EndOp(g, s2, t, 1);
    ReachStep(g, d, s2, t);
  }

  // Others leave the blocks bs one at a time.
  lemma {:induction false} PassMany(g: Geometry, d: Disk, s: Sys, lh: seq<nat>, bs: seq<nat>, next: nat)
    returns (t: Sys, next': nat)
    requires GoodDisk(g, d) && Waits(g, d, s, lh, next) && GoodBlocks(g, lh + bs) && 1 <= g.maxOp
    requires |lh| + |bs| + 2 * g.maxOp <= g.logSize + 1
    ensures Waits(g, d, t, lh + bs, next')
    decreases |bs|
  {
    hide GoodDisk;
    hide Waits;
    if bs == [] {
      assert lh + bs == lh;
      return s, next;
    }
    assert (lh + bs)[..|lh| + 1] == lh + [bs[0]];
    GoodPrefix(g, lh + bs, |lh| + 1);
    var u := Passes(g, d, s, lh, [bs[0]], next);
    assert lh + bs == (lh + [bs[0]]) + bs[1..];
    t, next' := PassMany(g, d, u, lh + [bs[0]], bs[1..], next + 1);
  }

  // All of the log but one quota can be filled while operation 0 waits.
  lemma FillAround(g: Geometry, d: Disk, bs: seq<nat>) returns (t: Sys, next: nat)
    requires GoodDisk(g, d) && d[g.start][0] == 0 && 1 <= g.maxOp && 2 * g.maxOp <= g.logSize
    requires GoodBlocks(g, bs) && |bs| + g.maxOp <= g.logSize
    ensures Waits(g, d, t, bs, next)
  {
    hide GoodDisk;
    hide Waits;
    var s := OneBegins(g, d);
    var n := if |bs| > g.maxOp then |bs| - g.maxOp else 0;
    GoodPrefix(g, bs, n);
    assert [] + bs[..n] == bs[..n] && bs[..n] + bs[n..] == bs;
    t, next := PassMany(g, d, s, [], bs[..n], 1);
    t := Passes(g, d, t, bs[..n], bs[n..], next);
    next := next + 1;
  }

  // Operation 0 then logs the last blocks itself.
  lemma FillLog(g: Geometry, d: Disk, bs: seq<nat>, own: nat) returns (t: Sys)
    requires GoodDisk(g, d) && d[g.start][0] == 0 && 1 <= g.maxOp && GoodBlocks(g, bs) && own <= |bs| && own <= g.maxOp
    requires own == |bs| || (2 * g.maxOp <= g.logSize && |bs| - own + g.maxOp <= g.logSize)
    ensures Reachable(g, d, t) && t.lh == bs && t.active == [Op(0, own)]
  {
    hide GoodDisk;
    var n, s, next := |bs| - own, Idle(d), 0;
    GoodPrefix(g, bs, n);
    assert bs[..n] + bs[n..] == bs;
    if own == |bs| {
      s := OneBegins(g, d);
      assert bs[..n] == [];
    } else {
      s, next := FillAround(g, d, bs[..n]);
    }
    t := LogMany(g, d, s, 0, bs[n..]);
  }

  // A state of some run in which an operation within its quota is about to panic.
  ghost predicate CanPanic(g: Geometry, d: Disk) {
    exists s: Sys, j: nat :: CallPanics(g, d, s, j)
  }

  ghost predicate CallPanics(g: Geometry, d: Disk, s: Sys, j: nat) {
    && Reachable(g, d, s)
    && j < |s.active|
    && s.active[j].used < g.maxOp
    && LogWritePanics(g, |s.lh|, |s.active|)
  }

  // With room for the quota of one operation only, there is never more than one, and the log has its blocks.
  ghost predicate Single(s: Sys) {
    && |s.active| <= 1
    && (s.active == [] && !s.phase.Committing? ==> s.lh == [])
    && (|s.active| == 1 ==> s.phase == Running && |s.lh| <= s.active[0].used)
  }

  lemma SingleNext(g: Geometry, s: Sys, s': Sys)
    requires g.logSize < 2 * g.maxOp && Single(s) && Next(g, s, s')
    ensures Single(s')
  {
    hide TxnWrites;
    hide RecoveryWrites;
    hide GoodDisk;
    hide GoodBlocks;
    if id: nat :| BeginOp(g, s, s', id) {
      assert s.active == [];
    } else if j: nat, bn: nat, data: Block :| LogWrite(g, s, s', j, bn, data) {
      assert j == 0;
    } else if j: nat :| EndOp(g, s, s', j) {
      assert s.active[..j] + s.active[j + 1..] == [];
    }
  }

  lemma {:induction false} RunSingle(g: Geometry, d: Disk, run: seq<Sys>, i: nat)
    requires IsRun(g, d, run) && i < |run| && g.logSize < 2 * g.maxOp
    ensures Single(run[i])
  {
    hide Next;
    hide Single;
    if i == 0 {
      SingleBoot(d);
    } else {
      RunSingle(g, d, run, i - 1);
      SingleNext(g, run[i - 1], run[i]);
    }
  }

  lemma SingleBoot(d: Disk)
    ensures Single(Boot(d))
  {
  }

  // The largest log area that can overflow: LOGSIZE blocks if two quotas fit it, otherwise one quota.
  function Overflows(g: Geometry): nat {
    if 2 * g.maxOp <= g.logSize then g.logSize else g.maxOp
  }

  /** Operations within their quotas can panic in log_write if and only if log.size is at most LOGSIZE (or,
      if LOGSIZE does not even hold two quotas, at most MAXOPBLOCKS); mkfs makes log.size equal to LOGSIZE.
      `bs` is any choice of distinct home blocks, enough to fill the log. */
  lemma PanicIffSmallLog(g: Geometry, d: Disk, bs: seq<nat>)
    requires GoodDisk(g, d) && d[g.start][0] == 0
    requires |bs| == g.logSize && forall i :: 0 <= i < |bs| ==> g.Home(bs[i])
    requires forall i, j :: 0 <= i < j < |bs| ==> bs[i] != bs[j]
    ensures CanPanic(g, d) <==> g.size <= Overflows(g)
  {
    hide Reachable;
    hide IsRun;
    if g.size <= Overflows(g) {
      var n := g.size - 1;
      var own := if n < g.maxOp then n else g.maxOp - 1;
      var s := FillLog(g, d, bs[..n], own);
      assert CallPanics(g, d, s, 0);
    }
    if CanPanic(g, d) {
      var s: Sys, j: nat :| CallPanics(g, d, s, j);
      PanicBound(g, d, s, j);
    }
  }

  lemma PanicBound(g: Geometry, d: Disk, s: Sys, j: nat)
    requires CallPanics(g, d, s, j)
    ensures g.size <= Overflows(g)
  {
    hide Next;
    var run :| IsRun(g, d, run) && run[|run| - 1] == s;
    QuotaPanics(g, d, run, |run| - 1, j);
    if g.logSize < 2 * g.maxOp {
      RunSingle(g, d, run, |run| - 1);
    }
  }

  /** The panic test comes before absorption.  Even with log.size > LOGSIZE, an operation that has used its
      quota and logs a block that is in the header already panics once the log is full, which the others can
      have done while it waited: the quota must not be used up before the last call, counting absorbed
      calls. */
  lemma AbsorbedWritePanics(g: Geometry, d: Disk, bs: seq<nat>) returns (s: Sys)
    requires GoodDisk(g, d) && d[g.start][0] == 0 && 2 * g.maxOp <= g.logSize < g.size
    requires GoodBlocks(g, bs) && |bs| == g.logSize
    ensures Reachable(g, d, s) && s.active == [Op(0, g.maxOp)] && bs[0] in s.lh
    ensures LogWritePanics(g, |s.lh|, |s.active|)
  {
    s := FillLog(g, d, bs, g.maxOp);
  }

  // ------------------------------------------- operations that count their blocks

  // The distinct blocks that operation id has logged in the open transaction.
  ghost function OpBlocks(txn: seq<Rec>, id: nat): set<nat> {
    set i | 0 <= i < |txn| && txn[i].op == id :: txn[i].bn
  }

  ghost predicate CountInv(s: Sys) {
    && (forall i :: 0 <= i < |s.txn| ==> s.txn[i].bn in s.lh)
    && (forall j :: 0 <= j < |s.active| ==> s.active[j].used <= |OpBlocks(s.txn, s.active[j].id)|)
  }

  lemma OpBlocksSnoc(txn: seq<Rec>, r: Rec, id: nat)
    ensures OpBlocks(txn + [r], id) == if r.op == id then OpBlocks(txn, id) + {r.bn} else OpBlocks(txn, id)
  {
    forall b | b in OpBlocks(txn, id) ensures b in OpBlocks(txn + [r], id) {
      var i :| 0 <= i < |txn| && txn[i].op == id && txn[i].bn == b;
      assert (txn + [r])[i] == txn[i];
    }
    assert (txn + [r])[|txn|] == r;
  }

  lemma CountInvLogWrite(g: Geometry, s: Sys, s': Sys, j: nat, bn: nat, data: Block)
    requires CountInv(s) && OpInv(s) && LogWrite(g, s, s', j, bn, data)
    ensures CountInv(s')
  {
    hide OpBlocks;
    var r := Rec(s.active[j].id, bn, data);
    forall i | 0 <= i < |s'.txn| ensures s'.txn[i].bn in s'.lh {
      assert i < |s.txn| ==> s'.txn[i] == s.txn[i];
      assert bn in s'.lh && forall b :: b in s.lh ==> b in s'.lh;
    }
    forall k | 0 <= k < |s.active| ensures s'.active[k].used <= |OpBlocks(s'.txn, s'.active[k].id)| {
      OpBlocksSnoc(s.txn, r, s.active[k].id);
      if bn !in s.lh {
        OpBlocksLogged(s, s.active[k].id, bn);
      }
    }
  }

  lemma OpBlocksLogged(s: Sys, id: nat, bn: nat)
    requires CountInv(s) && bn !in s.lh
    ensures bn !in OpBlocks(s.txn, id)
  {
  }

  lemma CountInvEnd(g: Geometry, s: Sys, s': Sys, j: nat)
    requires CountInv(s) && EndOp(g, s, s', j)
    ensures CountInv(s')
  {
    hide OpBlocks;
    assert forall i :: 0 <= i < |s'.active| ==> s'.active[i] == s.active[if i < j then i else i + 1];
  }

  lemma FirstLogged(s: Sys)
    requires CountInv(s)
    ensures s.txn != [] ==> s.txn[0].bn in s.lh
  {
  }

  // When a commit is done the open transaction is empty, and so is the header.
  lemma CountInvCommitDone(g: Geometry, d: Disk, s: Sys, s': Sys)
    requires CountInv(s) && GoodDisk(g, d) && DiskInv(g, d, s) && CommitDone(g, s, s')
    ensures CountInv(s')
  {
    hide OpBlocks;
    hide Recovered;
    hide Committed;
    FirstLogged(s);
  }

  // The other steps keep the header, the open transaction and the operations, or forget them.
  lemma CountInvQuiet(s: Sys, s': Sys)
    requires CountInv(s)
    requires (s'.lh == s.lh && s'.txn == s.txn) || s'.txn == []
    requires s'.active == []
             || (s'.active == s.active && s'.txn == s.txn)
             || exists id :: s'.active == s.active + [Op(id, 0)] && s'.txn == s.txn
    ensures CountInv(s')
  {
    hide OpBlocks;
  }

  lemma CountInvNext(g: Geometry, d: Disk, s: Sys, s': Sys)
    requires CountInv(s) && GoodDisk(g, d) && DiskInv(g, d, s) && OpInv(s) && Next(g, s, s')
    ensures CountInv(s')
  {
    hide CountInv;
    hide OpInv;
    hide LogWrite;
    hide EndOp;
    hide CommitDone;
    hide Recovered;
    hide Committed;
    hide CommitAt;
    if j: nat, bn: nat, data: Block :| LogWrite(g, s, s', j, bn, data) {
      CountInvLogWrite(g, s, s', j, bn, data);
    } else if j: nat :| EndOp(g, s, s', j) {
      CountInvEnd(g, s, s', j);
    } else if CommitDone(g, s, s') {
      CountInvCommitDone(g, d, s, s');
    } else {
      CountInvQuiet(s, s');
    }
  }

  lemma {:induction false} RunCounts(g: Geometry, d: Disk, run: seq<Sys>, i: nat)
    requires IsRun(g, d, run) && i < |run|
    ensures CountInv(run[i])
  {
    hide Next;
    hide DiskInv;
    hide OpInv;
    hide SpaceInv;
    if i > 0 {
      RunCounts(g, d, run, i - 1);
      RunInv(g, d, run, i - 1);
      CountInvNext(g, d, run[i - 1], run[i]);
    }
  }

  /** An operation that has logged fewer than MAXOPBLOCKS distinct blocks when it calls log_write, which
      is what every chunk of filewrite does, never panics in it if log.size > LOGSIZE, whatever the
      other operations do. */
  lemma CountedOpNeverPanics(g: Geometry, d: Disk, run: seq<Sys>, i: nat, j: nat)
    requires IsRun(g, d, run) && i < |run| && j < |run[i].active| && g.size > g.logSize
    requires |OpBlocks(run[i].txn, run[i].active[j].id)| < g.maxOp
    ensures !LogWritePanics(g, |run[i].lh|, |run[i].active|)
  {
    hide Next;
    RunCounts(g, d, run, i);
    QuotaPanics(g, d, run, i, j);
  }
}
