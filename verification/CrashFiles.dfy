/** The file system over the log, through crashes.  The operations of FsLayer, one after the other, issue their
    log_write calls among the steps of the log; other operations may be outstanding, commits group them, and the
    machine crashes any number of times.  Recovery always gives the files as they were between two operations. */
module CrashFiles {
  import opened RedoLog
  import opened GroupCommit
  import opened LogSpace
  import opened FsImage
  import opened FsFiles
  import opened FsTrace
  import opened FileLayer
  import opened CrashViews
  import opened Seqs

  // The view of an image.
  ghost function Cells(g: Geometry, sb: Super, m: Img): (v: seq<Cell>)
    ensures |v| == g.nblocks && forall b :: 0 <= b < |v| ==> v[b] == CellOf(sb, m, b)
  {
    seq(g.nblocks, b requires 0 <= b => CellOf(sb, m, b))
  }

  ghost predicate HoldsImage(g: Geometry, sb: Super, enc: Encoding, d: Disk, m: Img) {
    HoldsView(g, enc, d, Cells(g, sb, m))
  }

  // ------------------------------------------------------------------- replaying copies

  ghost function PutCell(view: seq<Cell>, c: Copy): (v: seq<Cell>)
    ensures |v| == |view|
  {
    if c.bn < |view| then view[c.bn := c.cell] else view
  }

  // The view after the copies.
  ghost function Replay(view: seq<Cell>, copies: seq<Copy>): (v: seq<Cell>)
    ensures |v| == |view|
    decreases |copies|
  {
    if copies == [] then view else Replay(PutCell(view, copies[0]), copies[1..])
  }

  lemma {:induction false} ReplayAt(view: seq<Cell>, copies: seq<Copy>, b: nat)
    requires b < |view|
    ensures Replay(view, copies)[b] == Last(copies, b, view[b])
    decreases |copies|
  {
    if copies != [] {
      var c, rest := copies[0], copies[1..];
      ReplayAt(PutCell(view, c), rest, b);
      assert [c] + rest == copies && [c][..0] == [];
      LastConcat([c], rest, b, view[b]);
      assert Last([c][..0], b, view[b]) == view[b];
    }
  }

  /** Applying what an operation logged to the view before it gives the view after it. */
  lemma OpReplay(g: Geometry, sb: Super, m: Img, t: Trace)
    requires LoggedSince(sb, Trace(m, [], []), t)
    ensures Replay(Cells(g, sb, m), t.copies) == Cells(g, sb, t.m)
  {
    hide CellOf;
    hide Replay;
    hide Last;
    assert t.copies[0..] == t.copies;
    forall b | 0 <= b < g.nblocks
      ensures Replay(Cells(g, sb, m), t.copies)[b] == Cells(g, sb, t.m)[b]
    {
      ReplayAt(Cells(g, sb, m), t.copies, b);
    }
  }

  // ---------------------------------------------------------------------- the machine

  /** The log and the view; the operation at work, `cur`, with what it logs, t, of which n copies are logged. */
  datatype State = State(base: Fsys, cur: nat, t: Trace, n: nat)

  ghost predicate Outstanding(s: Sys, id: nat) {
    exists j :: 0 <= j < |s.active| && s.active[j].id == id
  }

  ghost predicate Busy(x: State) {
    x.n < |x.t.copies|
  }

  // No operation is in the middle of its calls.
  ghost predicate Between(x: State) {
    x.n == |x.t.copies|
  }

  // An operation that has logged nothing begins to, from the image at hand.
  ghost predicate Start(sb: Super, x: State, y: State) {
    && Between(x) && y.base == x.base && y.n == 0
    && OpBlocks(x.base.log.txn, y.cur) == {}
    && LoggedSince(sb, Trace(x.t.m, [], []), y.t) && Sound(sb, y.t.m)
  }

  ghost predicate WriteNext(g: Geometry, enc: Encoding, x: State, y: State, j: nat) {
    && Busy(x) && y == x.(base := y.base, n := x.n + 1)
    && j < |x.base.log.active| && x.base.log.active[j].id == x.cur
    && Touch(g, enc, x.base, y.base, j, x.t.copies[x.n].bn, x.t.copies[x.n].cell)
  }

  ghost predicate Wait(g: Geometry, x: State, y: State) {
    Quiet(g, x.base, y.base) && y == x.(base := y.base)
  }

  // A crash: the file system comes up with an image that the recovered disk holds.
  ghost predicate Reboot(g: Geometry, sb: Super, enc: Encoding, x: State, y: State) {
    Restart(g, enc, x.base, y.base) && Between(y) && Sound(sb, y.t.m) && y.base.view == Cells(g, sb, y.t.m)
  }

  // An operation in the middle of its calls is outstanding: end_op comes after its last log_write.
  ghost predicate StateNext(g: Geometry, sb: Super, enc: Encoding, x: State, y: State) {
    && (Start(sb, x, y) || (exists j: nat :: WriteNext(g, enc, x, y, j)) || Wait(g, x, y) || Reboot(g, sb, enc, x, y))
    && (Busy(y) ==> Outstanding(y.base.log, y.cur))
  }

  ghost predicate IsFileRun(g: Geometry, sb: Super, enc: Encoding, d: Disk, xs: seq<State>) {
    && GoodDisk(g, d) && |xs| > 0
    && xs[0].base.log == Boot(d) && Between(xs[0]) && Sound(sb, xs[0].t.m)
    && xs[0].base.view == Cells(g, sb, xs[0].t.m) && HoldsImage(g, sb, enc, Recovered(g, d), xs[0].t.m)
    && forall i :: 0 < i < |xs| ==> StateNext(g, sb, enc, xs[i - 1], xs[i])
  }

  // ------------------------------------------------------------------------ invariant

  // With what is left to log, the view is that of the image after the operation.
  ghost predicate StateInv(g: Geometry, sb: Super, x: State) {
    && x.n <= |x.t.copies|
    && Replay(x.base.view, x.t.copies[x.n..]) == Cells(g, sb, x.t.m)
    && Sound(sb, x.t.m)
    && (Busy(x) ==> Outstanding(x.base.log, x.cur))
  }

  lemma NothingLeft(x: State)
    requires Between(x)
    ensures Replay(x.base.view, x.t.copies[x.n..]) == x.base.view
  {
  }

  lemma StateStep(g: Geometry, sb: Super, enc: Encoding, x: State, y: State)
    requires StateInv(g, sb, x) && StateNext(g, sb, enc, x, y)
    ensures StateInv(g, sb, y)
  {
    hide LoggedSince;
    hide Sound;
    hide Cells;
    hide Outstanding;
    if Start(sb, x, y) {
      NothingLeft(x);
      OpReplay(g, sb, x.t.m, y.t);
      assert y.t.copies[0..] == y.t.copies;
    } else if j: nat :| WriteNext(g, enc, x, y, j) {
      assert x.t.copies[x.n..][0] == x.t.copies[x.n] && x.t.copies[x.n..][1..] == y.t.copies[y.n..];
    } else if Reboot(g, sb, enc, x, y) {
      NothingLeft(y);
    } else {
      assert Wait(g, x, y);
    }
  }

  // ------------------------------------------------------------------------- theorems

  ghost function Bases(xs: seq<State>): (bs: seq<Fsys>)
    ensures |bs| == |xs| && forall i :: 0 <= i < |xs| ==> bs[i] == xs[i].base
  {
    seq(|xs|, i requires 0 <= i < |xs| => xs[i].base)
  }

  lemma BaseStep(g: Geometry, sb: Super, enc: Encoding, x: State, y: State)
    requires StateNext(g, sb, enc, x, y)
    ensures FsNext(g, enc, x.base, y.base)
  {
    hide LoggedSince;
    hide Sound;
    hide Cells;
    hide Touch;
    hide Restart;
    if j: nat :| WriteNext(g, enc, x, y, j) {
      assert Touch(g, enc, x.base, y.base, j, x.t.copies[x.n].bn, x.t.copies[x.n].cell);
    }
  }

  lemma BaseRun(g: Geometry, sb: Super, enc: Encoding, d: Disk, xs: seq<State>)
    requires IsFileRun(g, sb, enc, d, xs)
    ensures IsFsRun(g, enc, d, Bases(xs))
  {
    hide FsNext;
    hide StateNext;
    hide HoldsView;
    hide Cells;
    hide Sound;
    forall i | 0 < i < |xs| ensures FsNext(g, enc, Bases(xs)[i - 1], Bases(xs)[i]) {
      BaseStep(g, sb, enc, xs[i - 1], xs[i]);
    }
  }

  lemma {:induction false} RunStates(g: Geometry, sb: Super, enc: Encoding, d: Disk, xs: seq<State>, i: nat)
    requires IsFileRun(g, sb, enc, d, xs) && i < |xs|
    ensures StateInv(g, sb, xs[i])
  {
    hide StateNext;
    hide HoldsView;
    hide Cells;
    hide Sound;
    hide Replay;
    if i == 0 {
      NothingLeft(xs[0]);
    } else {
      RunStates(g, sb, enc, d, xs, i - 1);
      StateStep(g, sb, enc, xs[i - 1], xs[i]);
    }
  }

  /** Crash safety of files: recovery from any point of any run, with any number of crashes before, gives the image
      that the file system had at the last commit, which was between two operations. */
  lemma FilesSurvive(g: Geometry, sb: Super, enc: Encoding, d: Disk, xs: seq<State>, i: nat)
    requires IsFileRun(g, sb, enc, d, xs) && i < |xs|
    ensures GoodDisk(g, xs[i].base.log.disk)
    ensures var h := LastCommit(Bases(xs), i);
            && Between(xs[h]) && Sound(sb, xs[h].t.m)
            && HoldsImage(g, sb, enc, Recovered(g, xs[i].base.log.disk), xs[h].t.m)
  {
    hide IsFileRun;
    hide IsFsRun;
    hide HoldsView;
    hide Cells;
    hide Sound;
    hide Recovered;
    hide Replay;
    hide PhaseInv;
    hide OpInv;
    hide SpaceInv;
    var h := LastCommit(Bases(xs), i);
    BaseRun(g, sb, enc, d, xs);
    LastCommitSurvives(g, enc, d, Bases(xs), i);
    RunStates(g, sb, enc, d, xs, h);
    NothingLeft(xs[h]);
  }

  // -------------------------------------------------------- the disk decides the files

  // Every inode block and every data block lies outside the log.
  ghost predicate Outside(g: Geometry, sb: Super, m: Img) {
    && (forall b: nat :: sb.nmeta <= b < sb.size ==> g.Home(b))
    && (forall i: nat :: i < |m.dinodes| ==> g.Home(sb.IBlock(i)))
  }

  // Blocks that hold the two images alike hold the same.
  ghost predicate TellsApart(g: Geometry, sb: Super, enc: Encoding, m: Img, m': Img) {
    forall b: nat :: g.Home(b) && enc(b, CellOf(sb, m, b)) == enc(b, CellOf(sb, m', b)) ==>
      CellOf(sb, m, b) == CellOf(sb, m', b)
  }

  lemma SameNode(sb: Super, m: Img, m': Img, i: nat)
    requires i < |m.dinodes| == |m'.dinodes| && CellOf(sb, m, sb.IBlock(i)) == CellOf(sb, m', sb.IBlock(i))
    ensures m.dinodes[i] == m'.dinodes[i]
  {
    var b := sb.IBlock(i);
    var lo := (b - sb.inodestart) * IPB;
    assert NodesIn(sb, m.dinodes, b)[i - lo] == m.dinodes[i];
    assert NodesIn(sb, m'.dinodes, b)[i - lo] == m'.dinodes[i];
  }

  // The contents of a file depend on its inode and on the data blocks.
  lemma SameContent(sb: Super, m: Img, owner: map<nat, Slot>, m': Img, owner': map<nat, Slot>, i: nat)
    requires Good(sb, m, owner) && Good(sb, m', owner') && m'.inodes == m.inodes && i < |m.inodes|
    requires forall b :: sb.nmeta <= b < sb.size ==> m'.data[b] == m.data[b]
    ensures FileMapped(m, i, m.inodes[i].size) && FileMapped(m', i, m.inodes[i].size)
    ensures Content(m', i) == Content(m, i)
  {
    hide OwnersName;
    hide BitsTell;
    hide Word;
    forall p | 0 <= p < m.inodes[i].size
      ensures ByteAt(m', i, p) == ByteAt(m, i, p)
    {
      var s := FileSlot(i, p / BSIZE);
      assert IsSlot(m, s) && IsSlot(m, Indirect(i));
      assert Addr(m', s) == Addr(m, s);
    }
  }

  /** The files are what the home blocks say: two file systems that the same disk holds have the same inodes and
      the same contents. */
  lemma SameFiles(g: Geometry, sb: Super, enc: Encoding, d: Disk, m: Img, owner: map<nat, Slot>, m': Img,
                  owner': map<nat, Slot>)
    requires Good(sb, m, owner) && Good(sb, m', owner') && |m.inodes| == |m'.inodes| && Outside(g, sb, m)
    requires HoldsImage(g, sb, enc, d, m) && HoldsImage(g, sb, enc, d, m') && TellsApart(g, sb, enc, m, m')
    ensures m'.inodes == m.inodes
    ensures forall i :: 0 <= i < |m.inodes| ==> Content(m', i) == Content(m, i)
  {
    hide SlotsOwn;
    hide OwnersName;
    hide BitsTell;
    hide Content;
    forall i | 0 <= i < |m.inodes| ensures m'.dinodes[i] == m.dinodes[i] {
      SameNode(sb, m, m', i);
    }
    assert m'.inodes == m.inodes;
    forall b | sb.nmeta <= b < sb.size ensures m'.data[b] == m.data[b] {
      assert CellOf(sb, m, b) == CellOf(sb, m', b);
    }
    forall i | 0 <= i < |m.inodes| ensures Content(m', i) == Content(m, i) {
      SameContent(sb, m, owner, m', owner', i);
    }
  }

  // Nothing of src has been written yet.
  lemma NothingWritten(sb: Super, m: Img, f: nat, off: nat, src: seq<byte>)
    requires Sound(sb, m) && f < |m.inodes|
    ensures PartWritten(sb, m, m, f, off, src)
  {
    hide Content;
    hide Overlay;
    hide Owned;
    var owner :| Good(sb, m, owner);
    if off <= m.inodes[f].size {
      OverlayNone(Content(m, f), off, src);
    }
    assert Progress(m, m, f, off, src, 0);
  }

  // What a disk shows of a write.
  lemma SamePart(g: Geometry, sb: Super, enc: Encoding, d: Disk, m: Img, m': Img, m0: Img, f: nat,
                 off: nat, src: seq<byte>)
    requires PartWritten(sb, m0, m, f, off, src) && Sound(sb, m') && |m.inodes| == |m'.inodes| && Outside(g, sb, m)
    requires HoldsImage(g, sb, enc, d, m) && HoldsImage(g, sb, enc, d, m') && TellsApart(g, sb, enc, m, m')
    ensures PartWritten(sb, m0, m', f, off, src)
  {
    hide HoldsImage;
    hide Outside;
    hide TellsApart;
    hide Owned;
    hide Content;
    hide Overlay;
    hide Transferred;
    var k :| Progress(m0, m, f, off, src, k);
    var owner :| Good(sb, m, owner);
    var owner' :| Good(sb, m', owner');
    SameFiles(g, sb, enc, d, m, owner, m', owner');
    assert Progress(m0, m', f, off, src, k);
  }

  // Image m is m0 or the image after one of the operations.
  ghost predicate OneOf(m0: Img, ops: seq<Trace>, m: Img) {
    m == m0 || exists n :: 0 <= n < |ops| && m == ops[n].m
  }

  /** A write through filewrite: while the images of the run since state a are those of its chunks, recovery finds the
      old contents overlaid with a prefix of src and every other file as it was, in whatever file system m' the
      recovered disk holds.  (With its last commit before a, recovery gives an earlier image, by FilesSurvive.) */
  lemma WriteSurvives(g: Geometry, sb: Super, enc: Encoding, d: Disk, xs: seq<State>, a: nat, i: nat,
                      ops: seq<Trace>, f: nat, off: nat, src: seq<byte>, m': Img)
    requires IsFileRun(g, sb, enc, d, xs) && i < |xs| && a <= LastCommit(Bases(xs), i)
    requires f < |xs[a].t.m.inodes| && forall k :: a <= k <= i ==> OneOf(xs[a].t.m, ops, xs[k].t.m)
    requires forall n :: 0 <= n < |ops| ==> PartWritten(sb, xs[a].t.m, ops[n].m, f, off, src)
    requires var m := xs[LastCommit(Bases(xs), i)].t.m;
             Outside(g, sb, m) && TellsApart(g, sb, enc, m, m') && |m.inodes| == |m'.inodes|
    ensures GoodDisk(g, xs[i].base.log.disk)
    ensures Sound(sb, m') && HoldsImage(g, sb, enc, Recovered(g, xs[i].base.log.disk), m') ==>
              PartWritten(sb, xs[a].t.m, m', f, off, src)
  {
    hide IsFileRun;
    hide HoldsImage;
    hide Recovered;
    hide PartWritten;
    hide Sound;
    hide Outside;
    hide TellsApart;
    hide Cells;
    hide Replay;
    hide LastCommit;
    var h := LastCommit(Bases(xs), i);
    FilesSurvive(g, sb, enc, d, xs, i);
    RunStates(g, sb, enc, d, xs, a);
    NothingWritten(sb, xs[a].t.m, f, off, src);
    assert OneOf(xs[a].t.m, ops, xs[h].t.m);
    if Sound(sb, m') && HoldsImage(g, sb, enc, Recovered(g, xs[i].base.log.disk), m') {
      SamePart(g, sb, enc, Recovered(g, xs[i].base.log.disk), xs[h].t.m, m', xs[a].t.m, f, off, src);
    }
  }

  // ------------------------------------------------------------- the quota in the run

  /** An operation within its quota never panics in log_write and never adds more than MAXOPBLOCKS blocks: `calls`
      are its calls, and those it has made are among the first n. */
  lemma QuotaNeverPanics(g: Geometry, d: Disk, run: seq<Sys>, i: nat, j: nat, calls: seq<nat>, n: nat)
    requires IsRun(g, d, run) && i < |run| && j < |run[i].active| && g.size > g.logSize
    requires WithinQuota([], calls, g.maxOp) && n < |calls|
    requires OpBlocks(run[i].txn, run[i].active[j].id) <= Elems(calls[..n])
    ensures !LogWritePanics(g, |run[i].lh|, |run[i].active|) && run[i].active[j].used < g.maxOp
  {
    hide Next;
    hide OpBlocks;
    assert calls[0..n] == calls[..n];
    SubsetCard(OpBlocks(run[i].txn, run[i].active[j].id), Elems(calls[..n]));
    CountedOpNeverPanics(g, d, run, i, j);
    RunCounts(g, d, run, i);
  }

  // What the operation at work has logged in the open transaction is among its first n copies.
  ghost predicate CallsInv(x: State) {
    Busy(x) ==> forall b :: b in OpBlocks(x.base.log.txn, x.cur) ==> exists k :: 0 <= k < x.n && x.t.copies[k].bn == b
  }

  lemma CallsStep(g: Geometry, sb: Super, enc: Encoding, x: State, y: State)
    requires CallsInv(x) && StateNext(g, sb, enc, x, y)
    ensures CallsInv(y)
  {
    hide LoggedSince;
    hide Sound;
    hide Cells;
    hide CommitReady;
    hide TxnWrites;
    if j: nat :| WriteNext(g, enc, x, y, j) {
      OpBlocksSnoc(x.base.log.txn, y.base.log.txn[|x.base.log.txn|], x.cur);
    }
  }

  lemma {:induction false} RunCalls(g: Geometry, sb: Super, enc: Encoding, d: Disk, xs: seq<State>, i: nat)
    requires IsFileRun(g, sb, enc, d, xs) && i < |xs|
    ensures CallsInv(xs[i])
  {
    hide StateNext;
    hide HoldsView;
    hide Cells;
    hide Sound;
    if i > 0 {
      RunCalls(g, sb, enc, d, xs, i - 1);
      CallsStep(g, sb, enc, xs[i - 1], xs[i]);
    }
  }

  /** The next log_write of the operation at work, for instance of a chunk of filewrite: if its calls keep within the
      quota and log.size > LOGSIZE, the call does not panic, whatever other operations are outstanding. */
  lemma NextCallFits(g: Geometry, sb: Super, enc: Encoding, d: Disk, xs: seq<State>, i: nat, j: nat)
    requires IsFileRun(g, sb, enc, d, xs) && i < |xs| && Busy(xs[i]) && g.size > g.logSize
    requires j < |xs[i].base.log.active| && xs[i].base.log.active[j].id == xs[i].cur
    requires Aligned(xs[i].t) && WithinQuota([], xs[i].t.calls, g.maxOp)
    ensures var s := xs[i].base.log;
            !LogWritePanics(g, |s.lh|, |s.active|) && s.active[j].used < g.maxOp
  {
    hide IsFileRun;
    hide IsFsRun;
    hide Next;
    hide WithinQuota;
    var x := xs[i];
    BaseRun(g, sb, enc, d, xs);
    LogReachable(g, enc, d, Bases(xs), i);
    RunCalls(g, sb, enc, d, xs, i);
    forall b | b in OpBlocks(x.base.log.txn, x.cur) ensures b in Elems(x.t.calls[..x.n]) {
      var k :| 0 <= k < x.n && x.t.copies[k].bn == b;
      assert x.t.calls[..x.n][k] == b;
    }
    var run :| IsRun(g, d, run) && run[|run| - 1] == x.base.log;
    QuotaNeverPanics(g, d, run, |run| - 1, j, x.t.calls, x.n);
  }
}
