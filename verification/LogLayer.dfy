/** log.c as it runs: the global `log`, the pinned buffers and the disk, updated in place.  A method
    models one region executed under log.lock, or commit() and recover_from_log(), which run alone.
    `writes` records every block write, so that a crash can be put between any two of them. */
module LogLayer {
  import opened RedoLog
  import opened GroupCommit
  import Seqs

  lemma {:induction false} ApplyConcat(d: Disk, a: seq<Write>, b: seq<Write>)
    requires forall i :: 0 <= i < |a| ==> a[i].bn < |d|
    requires forall i :: 0 <= i < |b| ==> b[i].bn < |d|
    ensures Apply(d, a + b) == Apply(Apply(d, a), b)
  {
    if b == [] {
      assert a + b == a;
    } else {
      ApplyConcat(d, a, b[..|b| - 1]);
      assert (a + b)[..|a + b| - 1] == a + b[..|b| - 1];
    }
  }

  // install_trans reads back from the log area what write_log put there.
  lemma InstallLogged(g: Geometry, d0: Disk, bs: seq<nat>, contents: seq<Block>, d: Disk)
    requires g.Valid() && |d0| == |d| == g.nblocks && |contents| == |bs| < g.size
    requires forall b :: g.start < b <= g.start + |bs| ==> d[b] == Apply(d0, LogWrites(g, contents))[b]
    ensures InstallWrites(g, d, bs) == HomeWrites(bs, contents)
  {
    hide Apply;
    forall i | 0 <= i < |bs| ensures d[g.start + 1 + i] == contents[i] {
      LastWriteWins(d0, LogWrites(g, contents), i);
    }
  }

  // The disks between the four parts of commit(), and the writes they add up to.
  lemma CommitPhases(g: Geometry, d0: Disk, bs: seq<nat>, contents: seq<Block>, d1: Disk, d2: Disk, d3: Disk, d4: Disk)
    requires g.Valid() && |d0| == g.nblocks && GoodBlocks(g, bs) && |contents| == |bs| && bs != []
    requires d1 == Apply(d0, LogWrites(g, contents))
    requires d2 == d1[g.start := WriteHead(d1[g.start], bs)]
    requires d3 == Apply(d2, InstallWrites(g, d2, bs))
    requires d4 == d3[g.start := WriteHead(d3[g.start], [])]
    ensures var ws := CommitWrites(g, d0[g.start], bs, contents);
            && d4 == CommitAt(g, d0, bs, contents, |ws|)
            && ws == LogWrites(g, contents) + [Write(g.start, WriteHead(d1[g.start], bs))]
                     + InstallWrites(g, d2, bs) + [Write(g.start, WriteHead(d3[g.start], []))]
  {
    hide Apply;
    hide InstallWrites;
    hide LogWrites;
    hide HomeWrites;
    var h, p1, p3 := d0[g.start], LogWrites(g, contents), HomeWrites(bs, contents);
    var p2 := [Write(g.start, WriteHead(h, bs))];
    var p4 := [Write(g.start, WriteHead(WriteHead(h, bs), []))];
    Untouched(d0, p1, g.start);
    ApplyConcat(d0, p1, p2);
    ApplyOne(d1, p2[0]);
    InstallLogged(g, d0, bs, contents, d2);
    ApplyConcat(d0, p1 + p2, p3);
    Untouched(d2, p3, g.start);
    ApplyConcat(d0, p1 + p2 + p3, p4);
    ApplyOne(d3, p4[0]);
    var ws := CommitWrites(g, h, bs, contents);
    assert ws[..|ws|] == ws == p1 + p2 + p3 + p4;
  }

  // The disk after a completed commit.
  lemma CommitResult(g: Geometry, d: Disk, bs: seq<nat>, contents: seq<Block>)
    requires GoodDisk(g, d) && d[g.start][0] == 0 && GoodBlocks(g, bs) && |contents| == |bs|
    ensures var e := CommitAt(g, d, bs, contents, |CommitWrites(g, d[g.start], bs, contents)|);
            && GoodDisk(g, e) && e[g.start][0] == 0
            && AllNew(g, d, bs, contents, e)
  {
    hide Apply;
    hide CommitWrites;
    var ws := CommitWrites(g, d[g.start], bs, contents);
    CommitWritesInRange(g, d[g.start], bs, contents);
    if bs == [] {
      ApplyNone(d, ws[..|ws|]);
    } else {
      CommitPointHeader(g, d, ws, bs, contents, |ws|);
      forall b | 0 <= b < g.nblocks && g.Home(b)
        ensures b !in bs ==> CommitAt(g, d, bs, contents, |ws|)[b] == d[b]
        ensures forall i :: 0 <= i < |bs| && bs[i] == b ==> CommitAt(g, d, bs, contents, |ws|)[b] == contents[i]
      {
        CommitPointHome(g, d, ws, bs, contents, |ws|, b);
      }
    }
  }

  class Log {
    const g: Geometry
    var disk: Disk
    var lhN: nat
    var lhBlock: array<nat>
    var outstanding: nat
    var committing: bool
    var cache: map<nat, Block>
    ghost var writes: seq<Write>

    // Shape only; enough for recovery, which runs before the header has been read.
    ghost predicate Shape()
      reads this, lhBlock
    {
      && g.Valid()
      && |disk| == g.nblocks
      && lhBlock.Length == g.logSize
      && lhN <= g.logSize
    }

    ghost predicate Valid()
      reads this, lhBlock
    {
      && Shape()
      && GoodBlocks(g, Lh())
      && Matches(Lh(), cache)
    }

    ghost function Lh(): seq<nat>
      requires Shape()
      reads this, lhBlock
    {
      lhBlock[..lhN]
    }

    // initlog, up to the call of recover_from_log.
    constructor (g: Geometry, disk: Disk)
      requires g.Valid() && |disk| == g.nblocks
      ensures Valid() && Lh() == [] && this.g == g && this.disk == disk
      ensures outstanding == 0 && !committing && cache == map[] && writes == [] && fresh(lhBlock)
    {
      this.g, this.disk := g, disk;
      lhN, outstanding, committing := 0, 0, false;
      lhBlock := new nat[g.logSize];
      cache, writes := map[], [];
    }

    // One turn of begin_op's loop: the caller is admitted, or goes to sleep on &log.
    method BeginOp() returns (admitted: bool)
      requires Valid()
      modifies this`outstanding
      ensures Valid()
      ensures admitted == (!committing && Admits(g, |Lh()|, old(outstanding)))
      ensures outstanding == old(outstanding) + if admitted then 1 else 0
    {
      if committing {
        admitted := false;
      } else if lhN + (outstanding + 1) * g.maxOp > g.logSize {
        admitted := false;
      } else {
        outstanding := outstanding + 1;
        admitted := true;
      }
    }

    method LogWrite(bn: nat, data: Block) returns (panicked: bool)
      requires Valid() && g.Home(bn)
      modifies this, lhBlock
      ensures Valid()
      ensures panicked == LogWritePanics(g, |old(Lh())|, outstanding)
      ensures panicked ==> Lh() == old(Lh()) && cache == old(cache)
      ensures !panicked ==> Lh() == Absorb(old(Lh()), bn) && cache == old(cache)[bn := data]
      ensures unchanged(this`disk, this`outstanding, this`committing, this`writes, this`lhBlock)
    {
      panicked := lhN >= g.logSize || lhN >= g.size - 1 || outstanding < 1;
      if panicked {
        return;
      }
      var i := 0;
      while i < lhN && lhBlock[i] != bn
        invariant 0 <= i <= lhN
        invariant forall j :: 0 <= j < i ==> lhBlock[j] != bn
      {
        i := i + 1;
      }
      ghost var before := Lh();
      lhBlock[i] := bn;
      if i == lhN {
        lhN := lhN + 1;
      } else {
        assert before[i] == bn;
      }
      cache := cache[bn := data];
      assert Lh() == Absorb(before, bn);
    }

    // end_op up to the release of log.lock; commit follows when it returns true.
    method EndOp() returns (panicked: bool, doCommit: bool)
      requires Valid() && outstanding >= 1
      modifies this`outstanding, this`committing
      ensures Valid()
      ensures outstanding == old(outstanding) - 1
      ensures panicked == old(committing)
      ensures doCommit == (!panicked && outstanding == 0)
      ensures committing == (old(committing) || doCommit)
    {
      panicked, doCommit := false, false;
      outstanding := outstanding - 1;
      if committing {
        panicked := true;
        return;
      }
      if outstanding == 0 {
        doCommit := true;
        committing := true;
      }
    }

    method BWrite(bn: nat, data: Block)
      requires bn < |disk|
      modifies this`disk, this`writes
      ensures disk == old(disk)[bn := data]
      ensures writes == old(writes) + [Write(bn, data)]
    {
      disk := disk[bn := data];
      writes := writes + [Write(bn, data)];
    }

    method WriteLog()
      requires Valid()
      modifies this`disk, this`writes
      ensures Valid()
      ensures var ws := LogWrites(g, Contents(Lh(), cache));
              && (forall i :: 0 <= i < |ws| ==> ws[i].bn < |old(disk)|)
              && disk == Apply(old(disk), ws)
              && writes == old(writes) + ws
    {
      hide Apply;
      ghost var d0, bs := disk, Lh();
      ghost var ws := LogWrites(g, Contents(bs, cache));
      var tail := 0;
      ApplyNone(d0, ws[..0]);
      while tail < lhN
        invariant 0 <= tail <= lhN && Shape()
        invariant disk == Apply(d0, ws[..tail])
        invariant writes == old(writes) + ws[..tail]
      {
        assert lhBlock[tail] == bs[tail];
        BWrite(g.start + tail + 1, cache[lhBlock[tail]]);
        ApplySnoc(d0, ws, tail);
        Seqs.AppendTakeSnoc(old(writes), ws, tail);
        tail := tail + 1;
      }
      assert ws[..tail] == ws;
    }

    method WriteHeader()
      requires Valid()
      modifies this`disk, this`writes
      ensures Valid()
      ensures disk == old(disk)[g.start := WriteHead(old(disk)[g.start], Lh())]
      ensures writes == old(writes) + [Write(g.start, WriteHead(old(disk)[g.start], Lh()))]
    {
      var hb := disk[g.start];
      var h := hb[0 := lhN];
      var i := 0;
      while i < lhN
        invariant 0 <= i <= lhN && |h| == BLOCK_WORDS
        invariant h == [lhN] + lhBlock[..i] + hb[1 + i..]
      {
        h := h[1 + i := lhBlock[i]];
        i := i + 1;
      }
      BWrite(g.start, h);
    }

    method InstallTrans()
      requires Shape() && GoodBlocks(g, Lh())
      modifies this`disk, this`writes
      ensures Shape()
      ensures var ws := InstallWrites(g, old(disk), Lh());
              && (forall i :: 0 <= i < |ws| ==> ws[i].bn < |old(disk)|)
              && disk == Apply(old(disk), ws)
              && writes == old(writes) + ws
    {
      hide Apply;
      ghost var ws := InstallWrites(g, disk, Lh());
      var tail := 0;
      ApplyNone(disk, ws[..0]);
      while tail < lhN
        invariant 0 <= tail <= lhN && Shape()
        invariant disk == Apply(old(disk), ws[..tail])
        invariant writes == old(writes) + ws[..tail]
      {
        Untouched(old(disk), ws[..tail], g.start + tail + 1);
        assert lhBlock[tail] == Lh()[tail];
        BWrite(lhBlock[tail], disk[g.start + tail + 1]);
        ApplySnoc(old(disk), ws, tail);
        Seqs.AppendTakeSnoc(old(writes), ws, tail);
        tail := tail + 1;
      }
      assert ws[..tail] == ws;
    }

    method ReadHead()
      requires Shape() && GoodDisk(g, disk)
      modifies this`lhN, lhBlock
      ensures Shape() && Lh() == HeaderBlocks(disk[g.start])
    {
      var h := disk[g.start];
      lhN := h[0];
      var i := 0;
      while i < lhN
        invariant 0 <= i <= lhN == h[0] && h == disk[g.start]
        invariant lhBlock[..i] == h[1..1 + i]
      {
        lhBlock[i] := h[1 + i];
        i := i + 1;
      }
    }

    method RecoverFromLog()
      requires Shape() && GoodDisk(g, disk) && cache == map[]
      modifies this`disk, this`writes, this`lhN, lhBlock
      ensures Valid() && Lh() == [] && cache == map[]
      ensures writes == old(writes) + RecoveryWrites(g, old(disk))
      ensures disk == Recovered(g, old(disk))
      ensures GoodDisk(g, disk) && disk[g.start][0] == 0
    {
      hide Apply;
      hide InstallWrites;
      hide WriteHead;
      ReadHead();
      InstallTrans();
      lhN := 0;
      ghost var ws := InstallWrites(g, old(disk), HeaderBlocks(old(disk)[g.start]));
      Untouched(old(disk), ws, g.start);
      WriteHeader();
      ghost var w := Write(g.start, WriteHead(old(disk)[g.start], []));
      ApplyConcat(old(disk), ws, [w]);
      ApplyOne(Apply(old(disk), ws), w);
    }

    // The body of commit() for a header that is not empty.
    method WriteTransaction()
      requires Valid() && lhN > 0
      modifies this`disk, this`writes, this`lhN, this`cache
      ensures Valid() && Lh() == [] && cache == map[]
      ensures var bs, contents := old(Lh()), Contents(old(Lh()), old(cache));
              var ws := CommitWrites(g, old(disk)[g.start], bs, contents);
              writes == old(writes) + ws && disk == CommitAt(g, old(disk), bs, contents, |ws|)
    {
      hide Apply;
      hide CommitWrites;
      hide InstallWrites;
      hide LogWrites;
      hide WriteHead;
      hide CommitAt;
      ghost var bs, contents := Lh(), Contents(Lh(), cache);
      ghost var d0, w0 := disk, writes;
      WriteLog();
      ghost var d1 := disk;
      WriteHeader();
      ghost var d2 := disk;
      InstallTrans();
      ghost var d3 := disk;
      lhN := 0;
      cache := map[];
      WriteHeader();
      CommitPhases(g, d0, bs, contents, d1, d2, d3, disk);
      Seqs.Assoc4(w0, LogWrites(g, contents), [Write(g.start, WriteHead(d1[g.start], bs))],
                  InstallWrites(g, d2, bs), [Write(g.start, WriteHead(d3[g.start], []))]);
    }

    method Commit()
      requires Valid() && GoodDisk(g, disk) && disk[g.start][0] == 0
      modifies this`disk, this`writes, this`lhN, this`cache
      ensures Valid() && Lh() == [] && cache == map[]
      ensures var bs, contents := old(Lh()), Contents(old(Lh()), old(cache));
              var ws := CommitWrites(g, old(disk)[g.start], bs, contents);
              && writes == old(writes) + ws
              && disk == CommitAt(g, old(disk), bs, contents, |ws|)
              && GoodDisk(g, disk) && disk[g.start][0] == 0
              && AllNew(g, old(disk), bs, contents, disk)
    {
      CommitResult(g, disk, Lh(), Contents(Lh(), cache));
      if lhN > 0 {
        WriteTransaction();
      }
    }

    // The tail of end_op after commit() returned.
    method CommitFinished()
      requires Valid()
      modifies this`committing
      ensures Valid() && !committing
    {
      committing := false;
    }
  }
}
