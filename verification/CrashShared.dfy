/** Concurrent writes and truncations over the log, through crashes: the actions of SharedFiles, each logging the block
    that it changes, among the steps of the log, with any number of crashes.  Recovery gives every file as the
    operations finished by the last commit have left it: whole operations, all or none of each. */
module CrashShared {
  import opened RedoLog
  import opened GroupCommit
  import opened FsImage
  import opened FsFiles
  import opened FsTrace
  import opened SharedFiles
  import opened CrashViews
  import opened CrashFiles

  /** The log with the view, and the file system with the operations under way. */
  datatype World = World(base: Fsys, core: Core)

  // ------------------------------------------------------------------------------ steps

  ghost predicate LogsCell(g: Geometry, sb: Super, enc: Encoding, x: World, y: World, p: nat, j: nat, b: nat) {
    && j < |x.base.log.active| && x.base.log.active[j].id == p
    && Touch(g, enc, x.base, y.base, j, b, CellOf(sb, y.core.m, b))
  }

  // Process p takes an action and logs the block that it changes, if it changes one.
  ghost predicate Acts(g: Geometry, sb: Super, enc: Encoding, x: World, y: World, p: nat, a: Action) {
    && Shape(sb, x.core.m) && Outstanding(x.base.log, p)
    && Enabled(sb, x.core, p, a) && y.core == AfterAction(sb, x.core, p, a)
    && if Logged(sb, x.core, p, a) == {} then y.base == x.base
       else exists j: nat, b: nat :: b in Logged(sb, x.core, p, a) && LogsCell(g, sb, enc, x, y, p, j, b)
  }

  // The log takes a step of its own; an operation with a locked inode is still outstanding.
  ghost predicate LogSteps(g: Geometry, x: World, y: World) {
    Quiet(g, x.base, y.base) && y.core == x.core && forall p :: p in y.core.jobs ==> Outstanding(y.base.log, p)
  }

  // A crash: the file system comes up with an image that the recovered disk holds.
  ghost predicate Reboots(g: Geometry, sb: Super, enc: Encoding, x: World, y: World) {
    Restart(g, enc, x.base, y.base) && Starts(g, sb, y)
  }

  ghost predicate Starts(g: Geometry, sb: Super, x: World) {
    && x.core.held == map[] && x.core.jobs == map[]
    && Good(sb, x.core.m, x.core.owner) && |x.core.files| == |x.core.m.inodes|
    && (forall i :: 0 <= i < |x.core.files| ==> x.core.files[i] == Content(x.core.m, i))
    && x.base.view == Cells(g, sb, x.core.m)
  }

  ghost predicate WorldNext(g: Geometry, sb: Super, enc: Encoding, x: World, y: World) {
    || (exists p: nat, a: Action :: Acts(g, sb, enc, x, y, p, a))
    || LogSteps(g, x, y)
    || Reboots(g, sb, enc, x, y)
  }

  ghost predicate IsWorldRun(g: Geometry, sb: Super, enc: Encoding, d: Disk, xs: seq<World>) {
    && GoodDisk(g, d) && |xs| > 0
    && xs[0].base.log == Boot(d) && Starts(g, sb, xs[0]) && HoldsImage(g, sb, enc, Recovered(g, d), xs[0].core.m)
    && forall i :: 0 < i < |xs| ==> WorldNext(g, sb, enc, xs[i - 1], xs[i])
  }

  // -------------------------------------------------------------------------- invariant

  ghost predicate WorldInv(g: Geometry, sb: Super, x: World) {
    && CoreInv(sb, x.core)
    && x.base.view == Cells(g, sb, x.core.m)
    && (forall p :: p in x.core.jobs ==> Outstanding(x.base.log, p))
  }

  lemma StartsInv(g: Geometry, sb: Super, x: World)
    requires Starts(g, sb, x)
    ensures WorldInv(g, sb, x)
  {
    hide Good;
    hide Cells;
    StartOk(sb, x.core.m, x.core.owner, x.core.files);
    assert x.core == Core(x.core.m, x.core.owner, map[], map[], x.core.files);
  }

  // After an action the view is that of the new image.
  lemma ActsView(g: Geometry, sb: Super, enc: Encoding, x: World, y: World, p: nat, a: Action)
    requires WorldInv(g, sb, x) && Acts(g, sb, enc, x, y, p, a)
    ensures y.base.view == Cells(g, sb, y.core.m)
  {
    hide CellOf;
    hide AfterAction;
    hide Enabled;
    hide Logged;
    hide GroupCommit.LogWrite;
    hide CoreInv;
    var bs := Logged(sb, x.core, p, a);
    OneLogged(sb, x.core, p, a);
    forall b | 0 <= b < g.nblocks ensures y.base.view[b] == Cells(g, sb, y.core.m)[b] {
      if b !in bs {
        ActionCells(sb, x.core, p, a, b);
      }
    }
  }

  lemma OneLogged(sb: Super, c: Core, p: nat, a: Action)
    requires Shape(sb, c.m) && Enabled(sb, c, p, a)
    ensures forall b, e :: b in Logged(sb, c, p, a) && e in Logged(sb, c, p, a) ==> b == e
  {
    hide Addr;
    hide InUse;
  }

  lemma StaysOutstanding(g: Geometry, enc: Encoding, x: Fsys, y: Fsys, j: nat, b: nat, cell: Cell, id: nat)
    requires Touch(g, enc, x, y, j, b, cell) && Outstanding(x.log, id)
    ensures Outstanding(y.log, id)
  {
    var k :| 0 <= k < |x.log.active| && x.log.active[k].id == id;
    assert y.log.active[k].id == id;
  }

  lemma ActsOutstanding(g: Geometry, sb: Super, enc: Encoding, x: World, y: World, p: nat, a: Action, id: nat)
    requires Acts(g, sb, enc, x, y, p, a) && Outstanding(x.base.log, id)
    ensures Outstanding(y.base.log, id)
  {
    hide Outstanding;
    hide Touch;
    hide CellOf;
    hide AfterAction;
    hide Enabled;
    hide Logged;
    if Logged(sb, x.core, p, a) != {} {
      var j: nat, b: nat :| b in Logged(sb, x.core, p, a) && LogsCell(g, sb, enc, x, y, p, j, b);
      StaysOutstanding(g, enc, x.base, y.base, j, b, CellOf(sb, y.core.m, b), id);
    }
  }

  // An action adds no operation but that of the process that takes it.
  lemma ActsJobs(sb: Super, c: Core, p: nat, a: Action, q: nat)
    requires Shape(sb, c.m) && Enabled(sb, c, p, a) && q in AfterAction(sb, c, p, a).jobs
    ensures q == p || q in c.jobs
  {
    hide Addr;
    hide InUse;
  }

  lemma WorldStep(g: Geometry, sb: Super, enc: Encoding, x: World, y: World)
    requires WorldInv(g, sb, x) && WorldNext(g, sb, enc, x, y)
    ensures WorldInv(g, sb, y)
  {
    hide Acts;
    hide CoreInv;
    hide Cells;
    hide Restart;
    hide Outstanding;
    hide Starts;
    if p: nat, a: Action :| Acts(g, sb, enc, x, y, p, a) {
      ActsInv(g, sb, enc, x, y, p, a);
    } else if Reboots(g, sb, enc, x, y) {
      StartsInv(g, sb, y);
    }
  }

  lemma ActsInv(g: Geometry, sb: Super, enc: Encoding, x: World, y: World, p: nat, a: Action)
    requires WorldInv(g, sb, x) && Acts(g, sb, enc, x, y, p, a)
    ensures WorldInv(g, sb, y)
  {
    hide CoreInv;
    hide Cells;
    hide Outstanding;
    hide AfterAction;
    hide Enabled;
    hide Logged;
    hide LogsCell;
    ActionInv(sb, x.core, p, a);
    ActsView(g, sb, enc, x, y, p, a);
    forall q | q in y.core.jobs ensures Outstanding(y.base.log, q) {
      ActsJobs(sb, x.core, p, a, q);
      ActsOutstanding(g, sb, enc, x, y, p, a, q);
    }
  }

  // --------------------------------------------------------------------------- theorems

  ghost function BasesOf(xs: seq<World>): (bs: seq<Fsys>)
    ensures |bs| == |xs| && forall i :: 0 <= i < |xs| ==> bs[i] == xs[i].base
  {
    seq(|xs|, i requires 0 <= i < |xs| => xs[i].base)
  }

  lemma WorldBase(g: Geometry, sb: Super, enc: Encoding, x: World, y: World)
    requires WorldNext(g, sb, enc, x, y)
    ensures FsNext(g, enc, x.base, y.base)
  {
    hide CellOf;
    hide AfterAction;
    hide Enabled;
    hide Logged;
    hide Starts;
    hide Touch;
    hide Restart;
    if p: nat, a: Action :| Acts(g, sb, enc, x, y, p, a) {
      if Logged(sb, x.core, p, a) == {} {
        assert Quiet(g, x.base, y.base);
      } else {
        var j: nat, b: nat :| b in Logged(sb, x.core, p, a) && LogsCell(g, sb, enc, x, y, p, j, b);
        assert Touch(g, enc, x.base, y.base, j, b, CellOf(sb, y.core.m, b));
      }
    }
  }

  lemma WorldRunBase(g: Geometry, sb: Super, enc: Encoding, d: Disk, xs: seq<World>)
    requires IsWorldRun(g, sb, enc, d, xs)
    ensures IsFsRun(g, enc, d, BasesOf(xs))
  {
    hide FsNext;
    hide WorldNext;
    hide HoldsView;
    hide Cells;
    hide Good;
    hide Content;
    forall i | 0 < i < |xs| ensures FsNext(g, enc, BasesOf(xs)[i - 1], BasesOf(xs)[i]) {
      WorldBase(g, sb, enc, xs[i - 1], xs[i]);
    }
  }

  lemma {:induction false} RunWorlds(g: Geometry, sb: Super, enc: Encoding, d: Disk, xs: seq<World>, i: nat)
    requires IsWorldRun(g, sb, enc, d, xs) && i < |xs|
    ensures WorldInv(g, sb, xs[i])
  {
    hide WorldNext;
    hide HoldsView;
    hide Starts;
    hide WorldInv;
    if i == 0 {
      StartsInv(g, sb, xs[0]);
    } else {
      RunWorlds(g, sb, enc, d, xs, i - 1);
      WorldStep(g, sb, enc, xs[i - 1], xs[i]);
    }
  }

  /** Crash safety with concurrent operations: at every point of every run, recovery gives a disk that holds a good
      image in which every file is what the operations finished by the last commit made of it, each of them whole; at
      that commit no operation was under way. */
  lemma SharedFilesSurvive(g: Geometry, sb: Super, enc: Encoding, d: Disk, xs: seq<World>, i: nat)
    requires IsWorldRun(g, sb, enc, d, xs) && i < |xs|
    ensures GoodDisk(g, xs[i].base.log.disk)
    ensures var c := xs[LastCommit(BasesOf(xs), i)].core;
            && c.jobs == map[] && Good(sb, c.m, c.owner) && |c.files| == |c.m.inodes|
            && HoldsImage(g, sb, enc, Recovered(g, xs[i].base.log.disk), c.m)
            && forall k :: 0 <= k < |c.files| ==> Content(c.m, k) == c.files[k]
  {
    hide IsWorldRun;
    hide IsFsRun;
    hide HoldsView;
    hide Cells;
    hide Recovered;
    hide CoreInv;
    hide Good;
    hide Content;
    hide PhaseInv;
    hide OpInv;
    hide SpaceInv;
    hide LastCommit;
    var h := LastCommit(BasesOf(xs), i);
    WorldRunBase(g, sb, enc, d, xs);
    LastCommitSurvives(g, enc, d, BasesOf(xs), i);
    RunWorlds(g, sb, enc, d, xs, h);
    var c := xs[h].core;
    assert forall p :: p !in c.jobs;
    assert c.jobs == map[];
    AtRest(sb, c);
  }

  /** After a crash the files are those of the last commit. */
  lemma RebootFiles(g: Geometry, sb: Super, enc: Encoding, d: Disk, xs: seq<World>, i: nat)
    requires IsWorldRun(g, sb, enc, d, xs) && 0 < i < |xs| && Reboots(g, sb, enc, xs[i - 1], xs[i])
    requires var c := xs[LastCommit(BasesOf(xs), i - 1)].core;
             Outside(g, sb, c.m) && TellsApart(g, sb, enc, c.m, xs[i].core.m) && |c.m.inodes| == |xs[i].core.m.inodes|
    ensures xs[i].core.files == xs[LastCommit(BasesOf(xs), i - 1)].core.files
  {
    hide IsWorldRun;
    hide Cells;
    hide HoldsView;
    hide Recovered;
    hide Good;
    hide Content;
    hide Outside;
    hide TellsApart;
    hide LastCommit;
    var c, e := xs[LastCommit(BasesOf(xs), i - 1)].core, xs[i].core;
    SharedFilesSurvive(g, sb, enc, d, xs, i - 1);
    SameFiles(g, sb, enc, Recovered(g, xs[i - 1].base.log.disk), c.m, c.owner, e.m, e.owner);
    assert e.files == c.files;
  }

  /** After a crash the file system can always come up: with the image of the last commit. */
  lemma CanReboot(g: Geometry, sb: Super, enc: Encoding, d: Disk, xs: seq<World>, i: nat) returns (y: World)
    requires IsWorldRun(g, sb, enc, d, xs) && i < |xs|
    ensures Reboots(g, sb, enc, xs[i], y)
  {
    hide IsWorldRun;
    hide Cells;
    hide HoldsView;
    hide Recovered;
    hide Good;
    hide Content;
    hide LastCommit;
    SharedFilesSurvive(g, sb, enc, d, xs, i);
    var s, c := xs[i].base.log, xs[LastCommit(BasesOf(xs), i)].core;
    var t := s.(
      lh := [], cache := map[], active := [], phase := Recovering(s.disk, 0), txn := [],
      closed := if s.txn == [] then s.closed else s.closed + [Txn(s.txn, false)]);
    y := World(Fsys(t, Cells(g, sb, c.m)), Core(c.m, c.owner, map[], map[], c.files));
  }
}
