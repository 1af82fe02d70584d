/** The on-disk redo log of log.c as data: block writes, what recovery makes of a disk, and the
    effect of a crash between any two block writes of a commit or of a recovery.

    A disk is a sequence of blocks and every block write is atomic (memide.c is the specification of
    the device).  A block is its sequence of 32-bit words; the log header keeps its count in word 0
    and the home block numbers in the words that follow. */
module RedoLog {
  const BLOCK_WORDS: nat := 128

  type Block = b: seq<nat> | |b| == BLOCK_WORDS witness seq(BLOCK_WORDS, _ => 0)
  type Disk = seq<Block>

  /** log.start, log.size, the number of disk blocks, LOGSIZE and MAXOPBLOCKS. */
  datatype Geometry = Geometry(start: nat, size: nat, nblocks: nat, logSize: nat, maxOp: nat) {
    // The header fits a block (initlog panics otherwise) and the log lies on the disk.
    predicate Valid() {
      && 1 + logSize < BLOCK_WORDS
      && 1 <= size
      && start + size <= nblocks
      && 1 <= maxOp <= logSize
    }

    predicate Home(b: nat) {
      b < nblocks && !(start <= b < start + size)
    }
  }

  datatype Write = Write(bn: nat, data: Block)

  // A list of home blocks that one transaction may hold.
  ghost predicate GoodBlocks(g: Geometry, bs: seq<nat>) {
    && |bs| <= g.logSize
    && |bs| < g.size
    && (forall i :: 0 <= i < |bs| ==> g.Home(bs[i]))
    && (forall i, j :: 0 <= i < j < |bs| ==> bs[i] != bs[j])
  }

  function HeaderBlocks(h: Block): seq<nat>
    requires h[0] < BLOCK_WORDS
  {
    h[1..1 + h[0]]
  }

  // A disk whose header, committed or clear, is one that write_head wrote.
  ghost predicate GoodDisk(g: Geometry, d: Disk) {
    && g.Valid()
    && |d| == g.nblocks
    && d[g.start][0] <= g.logSize
    && GoodBlocks(g, HeaderBlocks(d[g.start]))
  }

  // The image that mkfs starts from has an empty log.
  function ZeroDisk(g: Geometry): (d: Disk)
    requires g.Valid()
    ensures GoodDisk(g, d) && d[g.start][0] == 0
  {
    var zero: Block := seq(BLOCK_WORDS, _ => 0);
    seq(g.nblocks, _ => zero)
  }

  // write_head: only the count and the first |bs| entries change.
  function WriteHead(h: Block, bs: seq<nat>): (r: Block)
    requires |bs| + 1 < BLOCK_WORDS
    ensures r[0] == |bs| && HeaderBlocks(r) == bs
  {
    [|bs|] + bs + h[1 + |bs|..]
  }

  function Apply(d: Disk, ws: seq<Write>): (r: Disk)
    requires forall i :: 0 <= i < |ws| ==> ws[i].bn < |d|
    ensures |r| == |d|
  {
    if ws == [] then d
    else Apply(d, ws[..|ws| - 1])[ws[|ws| - 1].bn := ws[|ws| - 1].data]
  }

  lemma {:induction false} Untouched(d: Disk, ws: seq<Write>, b: nat)
    requires forall i :: 0 <= i < |ws| ==> ws[i].bn < |d|
    requires b < |d|
    requires forall i :: 0 <= i < |ws| ==> ws[i].bn != b
    ensures Apply(d, ws)[b] == d[b]
  {
    if ws != [] {
      Untouched(d, ws[..|ws| - 1], b);
    }
  }

  lemma {:induction false} LastWriteWins(d: Disk, ws: seq<Write>, i: nat)
    requires forall j :: 0 <= j < |ws| ==> ws[j].bn < |d|
    requires i < |ws|
    requires forall j :: i < j < |ws| ==> ws[j].bn != ws[i].bn
    ensures Apply(d, ws)[ws[i].bn] == ws[i].data
  {
    if i < |ws| - 1 {
      LastWriteWins(d, ws[..|ws| - 1], i);
    }
  }

  lemma ApplyNone(d: Disk, ws: seq<Write>)
    requires ws == []
    ensures Apply(d, ws) == d
  {
  }

  lemma ApplyOne(d: Disk, w: Write)
    requires w.bn < |d|
    ensures Apply(d, [w]) == d[w.bn := w.data]
  {
    assert [w][..0] == [];
  }

  lemma ApplySnoc(d: Disk, ws: seq<Write>, k: nat)
    requires k < |ws|
    requires forall j :: 0 <= j < |ws| ==> ws[j].bn < |d|
    ensures Apply(d, ws[..k + 1]) == Apply(d, ws[..k])[ws[k].bn := ws[k].data]
  {
    assert ws[..k + 1][..k] == ws[..k];
  }

  // ---------------------------------------------------------------- recovery

  // The writes of install_trans for the blocks bs, read from the log area of d.
  function InstallWrites(g: Geometry, d: Disk, bs: seq<nat>): (ws: seq<Write>)
    requires g.start + 1 + |bs| <= |d|
    ensures |ws| == |bs| && forall i :: 0 <= i < |bs| ==> ws[i] == Write(bs[i], d[g.start + 1 + i])
  {
    seq(|bs|, i requires 0 <= i < |bs| => Write(bs[i], d[g.start + 1 + i]))
  }

  // The writes of recover_from_log.
  function RecoveryWrites(g: Geometry, d: Disk): (ws: seq<Write>)
    requires g.Valid() && |d| == g.nblocks
    requires d[g.start][0] <= g.logSize && d[g.start][0] < g.size
    ensures |ws| == d[g.start][0] + 1
  {
    InstallWrites(g, d, HeaderBlocks(d[g.start])) + [Write(g.start, WriteHead(d[g.start], []))]
  }

  ghost function Recovered(g: Geometry, d: Disk): (r: Disk)
    requires GoodDisk(g, d)
    ensures |r| == g.nblocks
  {
    Apply(d, RecoveryWrites(g, d))
  }

  // What a recovery stopped after k block writes leaves on the disk.
  lemma RecoveryPoint(g: Geometry, d: Disk, k: nat, b: nat)
    requires GoodDisk(g, d)
    requires k <= d[g.start][0] + 1 && b < g.nblocks
    ensures var n := d[g.start][0];
            var bs := HeaderBlocks(d[g.start]);
            var x := Apply(d, RecoveryWrites(g, d)[..k])[b];
            && (b == g.start ==> x == if k <= n then d[b] else WriteHead(d[b], []))
            && (b != g.start && b !in bs[..if k <= n then k else n] ==> x == d[b])
            && (forall i :: 0 <= i < k && i < n && bs[i] == b ==> x == d[g.start + 1 + i])
  {
    hide Apply;
    var n := d[g.start][0];
    var bs := HeaderBlocks(d[g.start]);
    var ws := RecoveryWrites(g, d)[..k];
    if b == g.start {
      if k <= n {
        Untouched(d, ws, b);
      } else {
        LastWriteWins(d, ws, n);
      }
    } else if b !in bs[..if k <= n then k else n] {
      assert forall i :: 0 <= i < k && i < n ==> bs[..if k <= n then k else n][i] == bs[i];
      Untouched(d, ws, b);
    }
    forall i | 0 <= i < k && i < n && bs[i] == b
      ensures Apply(d, ws)[b] == d[g.start + 1 + i]
    {
      LastWriteWins(d, ws, i);
    }
  }

  // The meaning of recovery, block by block.
  lemma RecoveredAt(g: Geometry, d: Disk, b: nat)
    requires GoodDisk(g, d) && b < g.nblocks
    ensures var bs := HeaderBlocks(d[g.start]);
            && (b == g.start ==> Recovered(g, d)[b] == WriteHead(d[b], []))
            && (b != g.start && b !in bs ==> Recovered(g, d)[b] == d[b])
            && (forall i :: 0 <= i < |bs| && bs[i] == b ==> Recovered(g, d)[b] == d[g.start + 1 + i])
  {
    hide Apply;
    var n := d[g.start][0];
    assert RecoveryWrites(g, d)[..n + 1] == RecoveryWrites(g, d);
    assert HeaderBlocks(d[g.start])[..n] == HeaderBlocks(d[g.start]);
    RecoveryPoint(g, d, n + 1, b);
  }

  lemma RestartGood(g: Geometry, d: Disk, k: nat)
    requires GoodDisk(g, d) && k <= |RecoveryWrites(g, d)|
    ensures var e := Apply(d, RecoveryWrites(g, d)[..k]);
            && GoodDisk(g, e)
            && e[g.start] == if k <= d[g.start][0] then d[g.start] else WriteHead(d[g.start], [])
  {
    hide Apply;
    RecoveryPoint(g, d, k, g.start);
  }

  lemma RestartAt(g: Geometry, d: Disk, k: nat, e: Disk, b: nat)
    requires GoodDisk(g, d) && k <= |RecoveryWrites(g, d)| && b < g.nblocks
    requires e == Apply(d, RecoveryWrites(g, d)[..k]) && GoodDisk(g, e)
    requires e[g.start] == if k <= d[g.start][0] then d[g.start] else WriteHead(d[g.start], [])
    ensures Recovered(g, e)[b] == Recovered(g, d)[b]
  {
    hide Apply;
    hide Recovered;
    hide RecoveryWrites;
    hide InstallWrites;
    var bs := HeaderBlocks(d[g.start]);
    RecoveredAt(g, e, b);
    RecoveredAt(g, d, b);
    RecoveryPoint(g, d, k, b);
    if i :| 0 <= i < |bs| && bs[i] == b {
      RecoveryPoint(g, d, k, g.start + 1 + i);
    }
  }

  /** A recovery interrupted after any number of its block writes leaves a disk from which recovery
      yields the same result. */
  lemma RecoveryRestarts(g: Geometry, d: Disk, k: nat)
    requires GoodDisk(g, d) && k <= |RecoveryWrites(g, d)|
    ensures GoodDisk(g, Apply(d, RecoveryWrites(g, d)[..k]))
    ensures Recovered(g, Apply(d, RecoveryWrites(g, d)[..k])) == Recovered(g, d)
  {
    hide Apply;
    hide Recovered;
    var e := Apply(d, RecoveryWrites(g, d)[..k]);
    RestartGood(g, d, k);
    forall b | 0 <= b < g.nblocks
      ensures Recovered(g, e)[b] == Recovered(g, d)[b]
    {
      RestartAt(g, d, k, e, b);
    }
  }

  // Each disk of the chain is the previous one after a recovery that crashed at some write.
  ghost predicate CrashChain(g: Geometry, ds: seq<Disk>) {
    && |ds| >= 1
    && GoodDisk(g, ds[0])
    && forall i :: 0 < i < |ds| ==> CrashedRecovery(g, ds[i - 1], ds[i])
  }

  ghost predicate CrashedRecovery(g: Geometry, d: Disk, e: Disk) {
    && GoodDisk(g, d)
    && exists k: nat :: k <= |RecoveryWrites(g, d)| && e == Apply(d, RecoveryWrites(g, d)[..k])
  }

  /** Any number of crashes inside recovery: a completed recovery of the last disk gives what an
      undisturbed recovery of the first would have given. */
  lemma {:induction false} CrashedRecoveries(g: Geometry, ds: seq<Disk>)
    requires CrashChain(g, ds)
    ensures GoodDisk(g, ds[|ds| - 1])
    ensures Recovered(g, ds[|ds| - 1]) == Recovered(g, ds[0])
  {
    if |ds| > 1 {
      var d, e := ds[|ds| - 2], ds[|ds| - 1];
      assert CrashedRecovery(g, d, e);
      var k: nat :| k <= |RecoveryWrites(g, d)| && e == Apply(d, RecoveryWrites(g, d)[..k]);
      CrashedRecoveries(g, ds[..|ds| - 1]);
      RecoveryRestarts(g, d, k);
    }
  }

  // ------------------------------------------------------------------ commit

  function LogWrites(g: Geometry, contents: seq<Block>): (ws: seq<Write>)
    ensures |ws| == |contents| && forall i :: 0 <= i < |contents| ==> ws[i] == Write(g.start + 1 + i, contents[i])
  {
    seq(|contents|, i requires 0 <= i < |contents| => Write(g.start + 1 + i, contents[i]))
  }

  function HomeWrites(bs: seq<nat>, contents: seq<Block>): (ws: seq<Write>)
    requires |bs| == |contents|
    ensures |ws| == |bs| && forall i :: 0 <= i < |bs| ==> ws[i] == Write(bs[i], contents[i])
  {
    seq(|bs|, i requires 0 <= i < |bs| => Write(bs[i], contents[i]))
  }

  // The writes of commit() for a header naming bs whose cached contents are `contents`:
  // write_log, write_head (write number |bs|, the commit point), install_trans, write_head.
  function CommitWrites(g: Geometry, h: Block, bs: seq<nat>, contents: seq<Block>): (ws: seq<Write>)
    requires |bs| == |contents| && |bs| + 1 < BLOCK_WORDS
    ensures |ws| == if bs == [] then 0 else 2 * |bs| + 2
  {
    if bs == [] then []
    else LogWrites(g, contents) + [Write(g.start, WriteHead(h, bs))]
         + HomeWrites(bs, contents) + [Write(g.start, WriteHead(WriteHead(h, bs), []))]
  }

  // The four stretches of a commit, write by write.
  lemma CommitWritesAt(g: Geometry, h: Block, bs: seq<nat>, contents: seq<Block>)
    requires g.Valid() && GoodBlocks(g, bs) && |bs| == |contents| && bs != []
    ensures var n, ws := |bs|, CommitWrites(g, h, bs, contents);
            && (forall i :: 0 <= i < n ==> ws[i] == Write(g.start + 1 + i, contents[i]))
            && ws[n] == Write(g.start, WriteHead(h, bs))
            && (forall i :: n + 1 <= i < 2 * n + 1 ==> ws[i] == Write(bs[i - n - 1], contents[i - n - 1]))
            && ws[2 * n + 1] == Write(g.start, WriteHead(WriteHead(h, bs), []))
            && (forall i :: 0 <= i < |ws| ==> ws[i].bn < g.nblocks)
  {
    hide WriteHead;
  }

  lemma CommitWritesInRange(g: Geometry, h: Block, bs: seq<nat>, contents: seq<Block>)
    requires g.Valid() && GoodBlocks(g, bs) && |bs| == |contents|
    ensures forall i :: 0 <= i < |CommitWrites(g, h, bs, contents)| ==>
              CommitWrites(g, h, bs, contents)[i].bn < g.nblocks
  {
    if bs != [] {
      CommitWritesAt(g, h, bs, contents);
    }
  }

  // The header block of a commit stopped after k block writes.
  lemma CommitPointHeader(g: Geometry, d: Disk, ws: seq<Write>, bs: seq<nat>, contents: seq<Block>, k: nat)
    requires g.Valid() && |d| == g.nblocks
    requires GoodBlocks(g, bs) && |contents| == |bs| && bs != []
    requires k <= 2 * |bs| + 2 && ws == CommitWrites(g, d[g.start], bs, contents)
    requires forall i :: 0 <= i < |ws| ==> ws[i].bn < |d|
    ensures var n, h := |bs|, d[g.start];
            Apply(d, ws[..k])[g.start]
            == if k <= n then h else if k <= 2 * n + 1 then WriteHead(h, bs) else WriteHead(WriteHead(h, bs), [])
  {
    hide Apply;
    hide CommitWrites;
    hide LogWrites;
    hide HomeWrites;
    hide WriteHead;
    CommitWritesAt(g, d[g.start], bs, contents);
    var n := |bs|;
    if k <= n {
      Untouched(d, ws[..k], g.start);
    } else if k <= 2 * n + 1 {
      LastWriteWins(d, ws[..k], n);
    } else {
      LastWriteWins(d, ws[..k], 2 * n + 1);
    }
  }

  // Its log area, once write_log is done.
  lemma CommitPointLog(g: Geometry, d: Disk, ws: seq<Write>, bs: seq<nat>, contents: seq<Block>, k: nat, i: nat)
    requires g.Valid() && |d| == g.nblocks
    requires GoodBlocks(g, bs) && |contents| == |bs| && bs != []
    requires |bs| < k <= 2 * |bs| + 2 && i < |bs| && ws == CommitWrites(g, d[g.start], bs, contents)
    requires forall i :: 0 <= i < |ws| ==> ws[i].bn < |d|
    ensures Apply(d, ws[..k])[g.start + 1 + i] == contents[i]
  {
    hide Apply;
    hide CommitWrites;
    hide LogWrites;
    hide HomeWrites;
    hide WriteHead;
    CommitWritesAt(g, d[g.start], bs, contents);
    LastWriteWins(d, ws[..k], i);
  }

  // Its home blocks: untouched before the header write, or if they are not in the transaction.
  lemma CommitPointOld(g: Geometry, d: Disk, ws: seq<Write>, bs: seq<nat>, contents: seq<Block>, k: nat, b: nat)
    requires g.Valid() && |d| == g.nblocks
    requires GoodBlocks(g, bs) && |contents| == |bs| && bs != []
    requires k <= 2 * |bs| + 2 && g.Home(b) && ws == CommitWrites(g, d[g.start], bs, contents)
    requires forall i :: 0 <= i < |ws| ==> ws[i].bn < |d|
    requires k <= |bs| || b !in bs
    ensures Apply(d, ws[..k])[b] == d[b]
  {
    hide Apply;
    hide CommitWrites;
    hide LogWrites;
    hide HomeWrites;
    hide WriteHead;
    CommitWritesAt(g, d[g.start], bs, contents);
    Untouched(d, ws[..k], b);
  }

  // Its home blocks at the end.
  lemma CommitPointNew(g: Geometry, d: Disk, ws: seq<Write>, bs: seq<nat>, contents: seq<Block>, i: nat)
    requires g.Valid() && |d| == g.nblocks
    requires GoodBlocks(g, bs) && |contents| == |bs| && i < |bs|
    requires ws == CommitWrites(g, d[g.start], bs, contents)
    requires forall j :: 0 <= j < |ws| ==> ws[j].bn < |d|
    ensures |ws| == 2 * |bs| + 2 && Apply(d, ws)[bs[i]] == contents[i]
  {
    hide Apply;
    hide CommitWrites;
    hide LogWrites;
    hide HomeWrites;
    hide WriteHead;
    CommitWritesAt(g, d[g.start], bs, contents);
    assert ws[|bs| + 1 + i] == Write(bs[i], contents[i]);
    LastWriteWins(d, ws, |bs| + 1 + i);
  }

  lemma CommitPointHome(g: Geometry, d: Disk, ws: seq<Write>, bs: seq<nat>, contents: seq<Block>, k: nat, b: nat)
    requires g.Valid() && |d| == g.nblocks
    requires GoodBlocks(g, bs) && |contents| == |bs| && bs != []
    requires k <= 2 * |bs| + 2 && g.Home(b) && ws == CommitWrites(g, d[g.start], bs, contents)
    requires forall i :: 0 <= i < |ws| ==> ws[i].bn < |d|
    ensures k <= |bs| || b !in bs ==> Apply(d, ws[..k])[b] == d[b]
    ensures k == 2 * |bs| + 2 ==> forall i :: 0 <= i < |bs| && bs[i] == b ==> Apply(d, ws[..k])[b] == contents[i]
  {
    hide Apply;
    hide CommitWrites;
    hide GoodBlocks;
    if k <= |bs| || b !in bs {
      CommitPointOld(g, d, ws, bs, contents, k, b);
    }
    if k == 2 * |bs| + 2 {
      forall i | 0 <= i < |bs| && bs[i] == b
        ensures Apply(d, ws[..k])[b] == contents[i]
      {
        CommitPointNew(g, d, ws, bs, contents, i);
        assert ws[..k] == ws;
      }
    }
  }

  ghost predicate HomeEqual(g: Geometry, d: Disk, e: Disk) {
    && |d| == |e| == g.nblocks
    && forall b :: 0 <= b < g.nblocks && g.Home(b) ==> d[b] == e[b]
  }

  // All home blocks new: the transaction's blocks hold its contents, the others are as in d.
  ghost predicate AllNew(g: Geometry, d: Disk, bs: seq<nat>, contents: seq<Block>, e: Disk)
    requires |bs| == |contents|
  {
    && |d| == |e| == g.nblocks
    && (forall b :: 0 <= b < g.nblocks && g.Home(b) && b !in bs ==> e[b] == d[b])
    && (forall i :: 0 <= i < |bs| && bs[i] < |e| ==> e[bs[i]] == contents[i])
  }

  // The disk of a commit stopped after k block writes.
  ghost function CommitAt(g: Geometry, d: Disk, bs: seq<nat>, contents: seq<Block>, k: nat): Disk
    requires g.Valid() && |d| == g.nblocks
    requires GoodBlocks(g, bs) && |contents| == |bs|
    requires k <= |CommitWrites(g, d[g.start], bs, contents)|
  {
    CommitWritesInRange(g, d[g.start], bs, contents);
    Apply(d, CommitWrites(g, d[g.start], bs, contents)[..k])
  }

  /** Crash atomicity: stop a commit after any number k of its block writes and recover.  The home
      blocks are all old when the header write (write number |bs|) was not reached, and all new when
      it was. */
  lemma CommitCrash(g: Geometry, d: Disk, bs: seq<nat>, contents: seq<Block>, k: nat)
    requires GoodDisk(g, d) && d[g.start][0] == 0
    requires GoodBlocks(g, bs) && |contents| == |bs|
    requires k <= |CommitWrites(g, d[g.start], bs, contents)|
    ensures var e := CommitAt(g, d, bs, contents, k);
            && GoodDisk(g, e)
            && (k <= |bs| ==> HomeEqual(g, d, Recovered(g, e)))
            && (k > |bs| ==> AllNew(g, d, bs, contents, Recovered(g, e)))
  {
    hide Apply;
    hide CommitWrites;
    hide Recovered;
    var n := |bs|;
    var e := CommitAt(g, d, bs, contents, k);
    if bs == [] {
      ApplyNone(d, CommitWrites(g, d[g.start], bs, contents)[..k]);
      forall b | 0 <= b < g.nblocks && g.Home(b) ensures Recovered(g, e)[b] == d[b] {
        RecoveredAt(g, e, b);
      }
    } else {
      var ws := CommitWrites(g, d[g.start], bs, contents);
      CommitWritesInRange(g, d[g.start], bs, contents);
      CommitPointHeader(g, d, ws, bs, contents, k);
      assert HeaderBlocks(e[g.start]) == if n < k <= 2 * n + 1 then bs else [];
      forall b | 0 <= b < g.nblocks && g.Home(b) && (k <= n || b !in bs)
        ensures Recovered(g, e)[b] == d[b]
      {
        RecoveredAt(g, e, b);
        CommitPointHome(g, d, ws, bs, contents, k, b);
      }
      if k > n {
        forall i | 0 <= i < n ensures Recovered(g, e)[bs[i]] == contents[i] {
          RecoveredAt(g, e, bs[i]);
          CommitPointHome(g, d, ws, bs, contents, k, bs[i]);
          CommitPointLog(g, d, ws, bs, contents, k, i);
        }
      }
    }
  }

  /** The whole story: a commit crashes at write k, then recovery itself crashes any number of times,
      then one recovery completes.  All home blocks are new exactly when the header write reached the
      disk, and all old otherwise. */
  lemma CrashAtomicity(g: Geometry, d: Disk, bs: seq<nat>, contents: seq<Block>, k: nat, ds: seq<Disk>)
    requires GoodDisk(g, d) && d[g.start][0] == 0
    requires GoodBlocks(g, bs) && |contents| == |bs|
    requires k <= |CommitWrites(g, d[g.start], bs, contents)|
    requires CrashChain(g, ds) && ds[0] == CommitAt(g, d, bs, contents, k)
    ensures GoodDisk(g, ds[|ds| - 1])
    ensures k <= |bs| ==> HomeEqual(g, d, Recovered(g, ds[|ds| - 1]))
    ensures k > |bs| ==> AllNew(g, d, bs, contents, Recovered(g, ds[|ds| - 1]))
  {
    CrashedRecoveries(g, ds);
    CommitCrash(g, d, bs, contents, k);
  }
}
