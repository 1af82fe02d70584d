/** The scheduler's search of proc_MLFQ.c, one visited slot at a time.  Between two dispatches the table
    lock is held, so the search sees one fixed table.  It moves by jumps: back to level 0 when a process
    at a higher queue is runnable, back to slot 0 of the level when an earlier slot has higher priority. */
module MlfqScan {
  import opened MlfqTable

  // About to visit slot p at a level; p == number of slots means the end of the pass.
  datatype Pos = Pos(level: nat, slot: nat)

  datatype Act = Go(pos: Pos) | Run(slot: nat) | Done

  // Some process is runnable below (that is, in a queue served before) a level.
  predicate Waiting(ps: seq<Proc>, level: nat) {
    exists l :: 0 <= l < level && Count(ps, l) > 0
  }

  function Step(ps: seq<Proc>, k: nat, pos: Pos): Act {
    var Pos(level, slot) := pos;
    if level >= k then Done
    else if slot >= |ps| then Go(if Count(ps, level) > 0 then Pos(level, 0) else Pos(level + 1, 0))
    else if Waiting(ps, level) then Go(Pos(0, 0))
    else if !At(ps[slot], level) then Go(Pos(level, slot + 1))
    else
      var above := First(ps, Above(level, ps[slot].priority));
      if above == |ps| then Run(slot) else Go(if above < slot then Pos(level, 0) else Pos(level, slot + 1))
  }

  // n visits from a position, or fewer if the search ends.
  function Steps(ps: seq<Proc>, k: nat, pos: Pos, n: nat): Act
    decreases n
  {
    if n == 0 then Go(pos)
    else
      var a := Step(ps, k, pos);
      if a.Go? then Steps(ps, k, a.pos, n - 1) else a
  }

  // Lowest level and, at that level, highest priority of all runnable processes.
  ghost predicate Best(ps: seq<Proc>, slot: nat)
    requires slot < |ps|
  {
    && ps[slot].state == RUNNABLE
    && forall i :: 0 <= i < |ps| && ps[i].state == RUNNABLE ==>
         ps[slot].level < ps[i].level || (ps[slot].level == ps[i].level && ps[i].priority <= ps[slot].priority)
  }

  /** Wherever the search stands, and whatever happened to the table before, a process it picks has the
      lowest level of all runnable processes and the highest priority at that level. */
  lemma PickIsBest(ps: seq<Proc>, k: nat, pos: Pos)
    requires Step(ps, k, pos).Run?
    ensures pos.slot < |ps| && Step(ps, k, pos).slot == pos.slot && pos.level == ps[pos.slot].level
    ensures Best(ps, pos.slot)
  {
    var Pos(level, slot) := pos;
    forall i | 0 <= i < |ps| && ps[i].state == RUNNABLE
      ensures level <= ps[i].level && (ps[i].level == level ==> ps[i].priority <= ps[slot].priority)
    {
      assert At(ps[i], ps[i].level);
      assert Count(ps, ps[i].level) > 0;
      assert !Is(ps[i], Above(level, ps[slot].priority));
    }
  }

  // ---------------------------------------------------------------- where the search leads

  lemma {:induction false} StepsAdd(ps: seq<Proc>, k: nat, pos: Pos, a: nat, b: nat)
    requires Steps(ps, k, pos, a).Go?
    ensures Steps(ps, k, pos, a + b) == Steps(ps, k, Steps(ps, k, pos, a).pos, b)
    decreases a
  {
    if a > 0 {
      StepsAdd(ps, k, Step(ps, k, pos).pos, a - 1, b);
    }
  }

  // A search that is still going after n visits was still going before.
  lemma {:induction false} StepsPrefix(ps: seq<Proc>, k: nat, pos: Pos, a: nat, n: nat)
    requires a <= n && Steps(ps, k, pos, n).Go?
    ensures Steps(ps, k, pos, a).Go?
    decreases a
  {
    if a > 0 {
      StepsPrefix(ps, k, Step(ps, k, pos).pos, a - 1, n - 1);
    }
  }

  lemma {:induction false} SameEnd(ps: seq<Proc>, k: nat, pos: Pos, a: nat, b: nat)
    requires !Steps(ps, k, pos, a).Go? && !Steps(ps, k, pos, b).Go?
    ensures Steps(ps, k, pos, a) == Steps(ps, k, pos, b)
    decreases a
  {
    var s := Step(ps, k, pos);
    if s.Go? {
      SameEnd(ps, k, s.pos, a - 1, b - 1);
    }
  }

  // After some visits the search does a: it is at a position, or has picked, or is over.
  ghost predicate Reaches(ps: seq<Proc>, k: nat, pos: Pos, a: Act) {
    exists n: nat :: Steps(ps, k, pos, n) == a
  }

  // It goes on for ever.
  ghost predicate Spins(ps: seq<Proc>, k: nat, pos: Pos) {
    forall n: nat :: Steps(ps, k, pos, n).Go?
  }

  lemma ReachesNow(ps: seq<Proc>, k: nat, pos: Pos)
    ensures Reaches(ps, k, pos, Go(pos))
  {
    assert Steps(ps, k, pos, 0) == Go(pos);
  }

  lemma ReachesStep(ps: seq<Proc>, k: nat, pos: Pos)
    ensures Reaches(ps, k, pos, Step(ps, k, pos))
  {
    hide Step;
    var a := Step(ps, k, pos);
    if a.Go? {
      assert Steps(ps, k, a.pos, 0) == a;
    }
    assert Steps(ps, k, pos, 1) == a;
  }

  lemma ReachesThen(ps: seq<Proc>, k: nat, pos: Pos, pos': Pos, a: Act)
    requires Reaches(ps, k, pos, Go(pos')) && Reaches(ps, k, pos', a)
    ensures Reaches(ps, k, pos, a)
  {
    hide Steps;
    var m: nat :| Steps(ps, k, pos, m) == Go(pos');
    var n: nat :| Steps(ps, k, pos', n) == a;
    StepsAdd(ps, k, pos, m, n);
    assert Steps(ps, k, pos, m + n) == a;
  }

  // The first visit decides as the rest of the search does.
  lemma StepThen(ps: seq<Proc>, k: nat, pos: Pos, a: Act)
    requires Step(ps, k, pos).Go? && Reaches(ps, k, Step(ps, k, pos).pos, a)
    ensures Reaches(ps, k, pos, a)
  {
    hide Reaches;
    hide Step;
    ReachesStep(ps, k, pos);
    ReachesThen(ps, k, pos, Step(ps, k, pos).pos, a);
  }

  lemma SpinsThen(ps: seq<Proc>, k: nat, pos: Pos, pos': Pos)
    requires Reaches(ps, k, pos, Go(pos')) && Spins(ps, k, pos')
    ensures Spins(ps, k, pos)
  {
    hide Steps;
    var m: nat :| Steps(ps, k, pos, m) == Go(pos');
    forall n: nat
      ensures Steps(ps, k, pos, n).Go?
    {
      StepsAdd(ps, k, pos, m, n);
      StepsPrefix(ps, k, pos, n, m + n);
    }
  }

  // A search that comes back to where it was never ends.
  lemma {:induction false} Circle(ps: seq<Proc>, k: nat, pos: Pos, c: nat, n: nat)
    requires c > 0 && Steps(ps, k, pos, c) == Go(pos)
    ensures Steps(ps, k, pos, n).Go?
    decreases n
  {
    hide Steps;
    if n <= c {
      StepsPrefix(ps, k, pos, n, c);
    } else {
      Circle(ps, k, pos, c, n - c);
      StepsAdd(ps, k, pos, c, n - c);
    }
  }

  lemma StepCircles(ps: seq<Proc>, k: nat, pos: Pos, pos': Pos)
    requires Reaches(ps, k, pos, Go(pos')) && Step(ps, k, pos') == Go(pos)
    ensures Spins(ps, k, pos)
  {
    hide Step;
    var m: nat :| Steps(ps, k, pos, m) == Go(pos');
    StepsAdd(ps, k, pos, m, 1);
    assert Steps(ps, k, pos, 0) == Go(pos);
    assert Steps(ps, k, pos', 1) == Go(pos);
    forall n: nat
      ensures Steps(ps, k, pos, n).Go?
    {
      Circle(ps, k, pos, m + 1, n);
    }
  }

  // A search has one end, or none.
  lemma OneEnd(ps: seq<Proc>, k: nat, pos: Pos, a: Act, b: Act)
    requires Reaches(ps, k, pos, a) && !a.Go?
    ensures !Spins(ps, k, pos) && (Reaches(ps, k, pos, b) && !b.Go? ==> a == b)
  {
    hide Steps;
    var m: nat :| Steps(ps, k, pos, m) == a;
    if Reaches(ps, k, pos, b) && !b.Go? {
      var n: nat :| Steps(ps, k, pos, n) == b;
      SameEnd(ps, k, pos, m, n);
    }
  }

  // ---------------------------------------------------------------- passes over one level

  // At slot i, a process of the level, the pass goes on: a later slot is above it and no earlier one.
  ghost predicate Passed(ps: seq<Proc>, level: nat, i: nat)
    requires i < |ps|
  {
    At(ps[i], level) ==> i <= First(ps, Above(level, ps[i].priority)) < |ps|
  }

  // A pass over the slots up to `to` that neither picks nor jumps.
  lemma {:induction false} Pass(ps: seq<Proc>, k: nat, level: nat, slot: nat, to: nat)
    requires level < k && slot <= to <= |ps| && !Waiting(ps, level)
    requires forall i :: slot <= i < to ==> Passed(ps, level, i)
    ensures Reaches(ps, k, Pos(level, slot), Go(Pos(level, to)))
    decreases |ps| - slot
  {
    hide Reaches;
    hide Waiting;
    if slot == to {
      ReachesNow(ps, k, Pos(level, slot));
    } else {
      assert Passed(ps, level, slot);
      Pass(ps, k, level, slot + 1, to);
      StepThen(ps, k, Pos(level, slot), Go(Pos(level, to)));
    }
  }

  // Over a level with nothing runnable, from any slot.
  lemma PassEmpty(ps: seq<Proc>, k: nat, level: nat, slot: nat)
    requires level < k && !Waiting(ps, level) && Count(ps, level) == 0
    ensures Reaches(ps, k, Pos(level, slot), Go(Pos(level + 1, 0)))
  {
    hide Reaches;
    hide Waiting;
    if slot < |ps| {
      Pass(ps, k, level, slot, |ps|);
      ReachesStep(ps, k, Pos(level, |ps|));
      ReachesThen(ps, k, Pos(level, slot), Pos(level, |ps|), Go(Pos(level + 1, 0)));
    } else {
      ReachesStep(ps, k, Pos(level, slot));
    }
  }

  // From any slot of a level up to the start of level l, when nothing is runnable before l.
  lemma {:induction false} Climb(ps: seq<Proc>, k: nat, pos: Pos, l: nat)
    requires pos.level < l <= k && !Waiting(ps, l)
    ensures Reaches(ps, k, pos, Go(Pos(l, 0)))
    decreases l - pos.level
  {
    hide Reaches;
    assert Count(ps, pos.level) == 0 && !Waiting(ps, pos.level);
    PassEmpty(ps, k, pos.level, pos.slot);
    if pos.level + 1 < l {
      Climb(ps, k, Pos(pos.level + 1, 0), l);
      ReachesThen(ps, k, pos, Pos(pos.level + 1, 0), Go(Pos(l, 0)));
    }
  }

  lemma ToStart(ps: seq<Proc>, k: nat, l: nat)
    requires l <= k && !Waiting(ps, l)
    ensures Reaches(ps, k, Pos(0, 0), Go(Pos(l, 0)))
  {
    hide Reaches;
    if l == 0 {
      ReachesNow(ps, k, Pos(0, 0));
    } else {
      Climb(ps, k, Pos(0, 0), l);
    }
  }

  /** With nothing runnable the search ends without a pick, wherever it stands. */
  lemma NothingToRun(ps: seq<Proc>, k: nat, pos: Pos)
    requires !Waiting(ps, k)
    ensures Reaches(ps, k, pos, Done)
  {
    hide Reaches;
    hide Waiting;
    ReachesStep(ps, k, Pos(k, 0));
    if pos.level < k {
      Climb(ps, k, pos, k);
      ReachesThen(ps, k, pos, Pos(k, 0), Done);
    } else {
      ReachesStep(ps, k, pos);
    }
  }

  // ---------------------------------------------------------------- exactly when the search ends

  // m is the first slot with the highest priority at a level.
  ghost predicate FirstMax(ps: seq<Proc>, level: nat, m: nat) {
    && m < |ps| && At(ps[m], level)
    && (forall i :: 0 <= i < |ps| && At(ps[i], level) ==> ps[i].priority <= ps[m].priority)
    && (forall i :: 0 <= i < m && At(ps[i], level) ==> ps[i].priority < ps[m].priority)
  }

  // Priorities of the runnable processes at a level do not decrease in table order below slot m.
  ghost predicate Rising(ps: seq<Proc>, level: nat, m: nat)
    requires m <= |ps|
  {
    forall i, j :: 0 <= i < j < m && At(ps[i], level) && At(ps[j], level) ==> ps[i].priority <= ps[j].priority
  }

  // From slot `from` on, the pass over a level comes to a highest process, in slot j, without going back.
  ghost predicate Ahead(ps: seq<Proc>, level: nat, from: nat, j: nat) {
    && from <= j < |ps| && At(ps[j], level)
    && First(ps, Above(level, ps[j].priority)) == |ps|
    && forall i :: from <= i < j ==> Passed(ps, level, i)
  }

  ghost predicate HasAhead(ps: seq<Proc>, level: nat, from: nat) {
    exists j: nat :: Ahead(ps, level, from, j)
  }

  // The search is over before it visits another slot: past the last level, or about to be.
  predicate RunsOut(ps: seq<Proc>, k: nat, pos: Pos) {
    pos.level >= k || (pos.level + 1 == k && pos.slot >= |ps| && Count(ps, pos.level) == 0)
  }

  lemma RunsOutEnds(ps: seq<Proc>, k: nat, pos: Pos)
    requires RunsOut(ps, k, pos)
    ensures Reaches(ps, k, pos, Done)
  {
    hide Reaches;
    ReachesStep(ps, k, pos);
    if pos.level < k {
      ReachesStep(ps, k, Pos(k, 0));
      ReachesThen(ps, k, pos, Pos(k, 0), Done);
    }
  }

  lemma AheadPicks(ps: seq<Proc>, k: nat, level: nat, from: nat, j: nat)
    requires level < k && !Waiting(ps, level) && Ahead(ps, level, from, j)
    ensures Reaches(ps, k, Pos(level, from), Run(j))
  {
    hide Reaches;
    Pass(ps, k, level, from, j);
    ReachesStep(ps, k, Pos(level, j));
    ReachesThen(ps, k, Pos(level, from), Pos(level, j), Run(j));
  }

  // Without a highest process ahead, the pass comes back to the first slot of the level.
  lemma {:induction false} ComesBack(ps: seq<Proc>, k: nat, level: nat, slot: nat)
    requires level < k && !Waiting(ps, level) && Count(ps, level) > 0
    requires !HasAhead(ps, level, slot)
    ensures Reaches(ps, k, Pos(level, slot), Go(Pos(level, 0)))
    decreases |ps| - slot
  {
    hide Reaches;
    hide Waiting;
    hide HasAhead;
    ReachesStep(ps, k, Pos(level, slot));
    if slot < |ps| {
      AheadHere(ps, level, slot);
      if Passed(ps, level, slot) {
        ComesBack(ps, k, level, slot + 1);
        StepThen(ps, k, Pos(level, slot), Go(Pos(level, 0)));
      }
    }
  }

  // A highest process is ahead of its own slot, and of a slot before that the pass leaves behind.
  lemma AheadHere(ps: seq<Proc>, level: nat, slot: nat)
    requires slot < |ps|
    ensures At(ps[slot], level) && First(ps, Above(level, ps[slot].priority)) == |ps| ==> HasAhead(ps, level, slot)
    ensures Passed(ps, level, slot) && HasAhead(ps, level, slot + 1) ==> HasAhead(ps, level, slot)
  {
    if At(ps[slot], level) && First(ps, Above(level, ps[slot].priority)) == |ps| {
      assert Ahead(ps, level, slot, slot);
    }
    if Passed(ps, level, slot) && HasAhead(ps, level, slot + 1) {
      var j: nat :| Ahead(ps, level, slot + 1, j);
      assert Ahead(ps, level, slot, j);
    }
  }

  // From a level beyond one with a runnable process the search goes back to the beginning.
  lemma GoesBack(ps: seq<Proc>, k: nat, pos: Pos)
    requires pos.level < k && Waiting(ps, pos.level) && |ps| > 0 && !RunsOut(ps, k, pos)
    ensures Reaches(ps, k, pos, Go(Pos(0, 0)))
  {
    hide Reaches;
    ReachesStep(ps, k, pos);
    if pos.slot >= |ps| {
      var next := Step(ps, k, pos).pos;
      assert Waiting(ps, next.level);
      ReachesStep(ps, k, next);
      ReachesThen(ps, k, pos, next, Go(Pos(0, 0)));
    }
  }

  // Unless it runs out or has a pick ahead, the search comes to the start of the lowest level.
  lemma Resumes(ps: seq<Proc>, k: nat, pos: Pos, level: nat)
    requires level < k && !Waiting(ps, level) && Count(ps, level) > 0 && |ps| > 0 && !RunsOut(ps, k, pos)
    requires pos.level == level ==> !HasAhead(ps, level, pos.slot)
    ensures Reaches(ps, k, pos, Go(Pos(level, 0)))
  {
    hide Reaches;
    if pos.level < level {
      Climb(ps, k, pos, level);
    } else if pos.level == level {
      ComesBack(ps, k, level, pos.slot);
    } else {
      GoesBack(ps, k, pos);
      ToStart(ps, k, level);
      ReachesThen(ps, k, pos, Pos(0, 0), Go(Pos(level, 0)));
    }
  }

  // Among slots below m that rise, no earlier one is above a later one.
  lemma RisingPasses(ps: seq<Proc>, level: nat, m: nat, to: nat)
    requires FirstMax(ps, level, m) && to <= m && Rising(ps, level, to)
    ensures forall i :: 0 <= i < to ==> Passed(ps, level, i)
  {
    forall i | 0 <= i < to && At(ps[i], level)
      ensures i <= First(ps, Above(level, ps[i].priority)) < |ps|
    {
      var w := Above(level, ps[i].priority);
      assert Is(ps[m], w);
      assert Is(ps[First(ps, w)], w);
    }
  }

  /** If priorities rise up to the first highest one, the search picks that process from the start of the
      level. */
  lemma RisingPicks(ps: seq<Proc>, k: nat, level: nat, m: nat)
    requires level < k && !Waiting(ps, level) && FirstMax(ps, level, m) && Rising(ps, level, m)
    ensures Reaches(ps, k, Pos(level, 0), Run(m))
  {
    hide Reaches;
    RisingPasses(ps, level, m, m);
    assert First(ps, Above(level, ps[m].priority)) == |ps|;
    AheadPicks(ps, k, level, 0, m);
  }

  // The first slot at which priorities fall below an earlier one.
  lemma {:induction false} FirstFall(ps: seq<Proc>, level: nat, m: nat) returns (v: nat, u: nat)
    requires m <= |ps| && !Rising(ps, level, m)
    ensures u < v < m && At(ps[u], level) && At(ps[v], level) && ps[u].priority > ps[v].priority
    ensures Rising(ps, level, v)
  {
    if m > 0 && !Rising(ps, level, m - 1) {
      v, u := FirstFall(ps, level, m - 1);
    } else {
      var i, j :| 0 <= i < j < m && At(ps[i], level) && At(ps[j], level) && ps[i].priority > ps[j].priority;
      v, u := j, i;
    }
  }

  lemma FallStep(ps: seq<Proc>, k: nat, level: nat, u: nat, v: nat)
    requires level < k && !Waiting(ps, level) && u < v < |ps|
    requires At(ps[u], level) && At(ps[v], level) && ps[u].priority > ps[v].priority
    ensures Step(ps, k, Pos(level, v)) == Go(Pos(level, 0))
  {
    assert Is(ps[u], Above(level, ps[v].priority));
  }

  /** If they do not, it goes round for ever without a pick. */
  lemma FallSpins(ps: seq<Proc>, k: nat, level: nat, m: nat)
    requires level < k && !Waiting(ps, level) && FirstMax(ps, level, m) && !Rising(ps, level, m)
    ensures Spins(ps, k, Pos(level, 0))
  {
    hide Reaches;
    hide Spins;
    hide Waiting;
    hide Rising;
    var v, u := FirstFall(ps, level, m);
    RisingPasses(ps, level, m, v);
    Pass(ps, k, level, 0, v);
    FallStep(ps, k, level, u, v);
    StepCircles(ps, k, Pos(level, 0), Pos(level, v));
  }

  // The exact condition: out of levels, a pick ahead, or rising priorities.
  ghost predicate EndsHere(ps: seq<Proc>, k: nat, pos: Pos, level: nat, m: nat)
    requires m <= |ps|
  {
    RunsOut(ps, k, pos) || PickAhead(ps, pos, level) || Rising(ps, level, m)
  }

  ghost predicate PickAhead(ps: seq<Proc>, pos: Pos, level: nat) {
    pos.level == level && HasAhead(ps, level, pos.slot)
  }

  // The process that is picked, if any is.
  ghost predicate Picked(ps: seq<Proc>, pos: Pos, level: nat, m: nat, j: nat)
    requires m <= |ps|
  {
    if PickAhead(ps, pos, level) then Ahead(ps, level, pos.slot, j) else Rising(ps, level, m) && j == m
  }

  // What the search does, wherever it stands: it is over, picks ahead, picks the first highest, or spins.
  lemma Outcome(ps: seq<Proc>, k: nat, pos: Pos, level: nat, m: nat)
    requires level < k && !Waiting(ps, level) && FirstMax(ps, level, m)
    ensures RunsOut(ps, k, pos) ==> Reaches(ps, k, pos, Done)
    ensures !RunsOut(ps, k, pos) ==> forall j: nat :: Picked(ps, pos, level, m, j) ==> Reaches(ps, k, pos, Run(j))
    ensures !EndsHere(ps, k, pos, level, m) ==> Spins(ps, k, pos)
  {
    hide Reaches;
    hide Spins;
    hide Waiting;
    hide Rising;
    hide Ahead;
    hide HasAhead;
    hide Step;
    if RunsOut(ps, k, pos) {
      RunsOutEnds(ps, k, pos);
    } else if PickAhead(ps, pos, level) {
      forall j: nat | Ahead(ps, level, pos.slot, j)
        ensures Reaches(ps, k, pos, Run(j))
      {
        AheadPicks(ps, k, level, pos.slot, j);
      }
    } else {
      Resumes(ps, k, pos, level);
      if Rising(ps, level, m) {
        RisingPicks(ps, k, level, m);
        ReachesThen(ps, k, pos, Pos(level, 0), Run(m));
      } else {
        FallSpins(ps, k, level, m);
        SpinsThen(ps, k, pos, Pos(level, 0));
      }
    }
  }

  /** Wherever the search stands on a table with something runnable, at the start or after a dispatch: it
      ends if and only if it has run out of levels, or its pass over the lowest level with a runnable process
      comes to a highest one without going back, or the priorities there do not decrease in table order up to
      the first highest one.  In the first case it ends without a pick; in the second it picks the highest
      process ahead, in the third the first highest one. */
  lemma EndsIff(ps: seq<Proc>, k: nat, pos: Pos, level: nat, m: nat)
    requires level < k && !Waiting(ps, level) && FirstMax(ps, level, m)
    ensures !Spins(ps, k, pos) <==> EndsHere(ps, k, pos, level, m)
    ensures Reaches(ps, k, pos, Done) <==> RunsOut(ps, k, pos)
    ensures forall j: nat :: Reaches(ps, k, pos, Run(j)) <==> !RunsOut(ps, k, pos) && Picked(ps, pos, level, m, j)
  {
    hide Reaches;
    hide Spins;
    hide Waiting;
    hide Rising;
    hide Ahead;
    hide RunsOut;
    Outcome(ps, k, pos, level, m);
    if RunsOut(ps, k, pos) {
      EndIs(ps, k, pos, Done);
    } else if PickAhead(ps, pos, level) {
      var j: nat :| Ahead(ps, level, pos.slot, j);
      EndIs(ps, k, pos, Run(j));
      OneAhead(ps, level, pos.slot, j);
    } else if Rising(ps, level, m) {
      EndIs(ps, k, pos, Run(m));
    } else {
      NoEnd(ps, k, pos);
    }
  }

  lemma EndIs(ps: seq<Proc>, k: nat, pos: Pos, a: Act)
    requires Reaches(ps, k, pos, a) && !a.Go?
    ensures !Spins(ps, k, pos) && (Reaches(ps, k, pos, Done) <==> a == Done)
    ensures forall j: nat :: Reaches(ps, k, pos, Run(j)) <==> a == Run(j)
  {
    hide Reaches;
    hide Spins;
    OneEnd(ps, k, pos, a, Done);
    forall j: nat
      ensures Reaches(ps, k, pos, Run(j)) <==> a == Run(j)
    {
      OneEnd(ps, k, pos, a, Run(j));
    }
  }

  lemma NoEnd(ps: seq<Proc>, k: nat, pos: Pos)
    requires Spins(ps, k, pos)
    ensures !Reaches(ps, k, pos, Done) && forall j: nat :: !Reaches(ps, k, pos, Run(j))
  {
  }

  // The highest process ahead is one slot.
  lemma OneAhead(ps: seq<Proc>, level: nat, from: nat, j: nat)
    requires Ahead(ps, level, from, j)
    ensures forall i: nat :: Ahead(ps, level, from, i) <==> i == j
  {
    forall i: nat | Ahead(ps, level, from, i)
      ensures i == j
    {
      var passed, passed' := Passed(ps, level, i), Passed(ps, level, j);
    }
  }

  // With something runnable there is a lowest level, and a first highest process at it.
  lemma {:induction false} Lowest(ps: seq<Proc>, k: nat) returns (level: nat, m: nat)
    requires Waiting(ps, k)
    ensures level < k && !Waiting(ps, level) && FirstMax(ps, level, m)
  {
    if k > 0 && Waiting(ps, k - 1) {
      level, m := Lowest(ps, k - 1);
    } else {
      level := k - 1;
      m := HasFirstMax(ps, level);
    }
  }

  lemma HasFirstMax(ps: seq<Proc>, level: nat) returns (m: nat)
    requires Count(ps, level) > 0
    ensures FirstMax(ps, level, m)
  {
    m := |ps|;
    var n := 0;
    while n < |ps|
      invariant 0 <= n <= |ps| && (m < n || m == |ps|)
      invariant m == |ps| ==> forall i :: 0 <= i < n ==> !At(ps[i], level)
      invariant m < |ps| ==> At(ps[m], level)
      invariant m < |ps| ==> forall i :: 0 <= i < n && At(ps[i], level) ==> ps[i].priority <= ps[m].priority
      invariant m < |ps| ==> forall i :: 0 <= i < m && At(ps[i], level) ==> ps[i].priority < ps[m].priority
    {
      if At(ps[n], level) && (m == |ps| || ps[n].priority > ps[m].priority) {
        m := n;
      }
      n := n + 1;
    }
  }

  /** The same without naming the lowest level: the search ends from a position if and only if nothing is
      runnable, or the condition holds of the lowest level and its first highest process. */
  lemma SearchEnds(ps: seq<Proc>, k: nat, pos: Pos)
    ensures !Spins(ps, k, pos) <==>
              !Waiting(ps, k) ||
              exists level: nat, m: nat :: IsLowest(ps, k, level, m) && EndsHere(ps, k, pos, level, m)
  {
    hide Reaches;
    hide Spins;
    hide Waiting;
    if !Waiting(ps, k) {
      NothingToRun(ps, k, pos);
      OneEnd(ps, k, pos, Done, Done);
    } else {
      forall level: nat, m: nat | IsLowest(ps, k, level, m)
        ensures !Spins(ps, k, pos) <==> EndsHere(ps, k, pos, level, m)
      {
        EndsIff(ps, k, pos, level, m);
      }
      var level, m := Lowest(ps, k);
      assert IsLowest(ps, k, level, m);
    }
  }

  ghost predicate IsLowest(ps: seq<Proc>, k: nat, level: nat, m: nat) {
    level < k && !Waiting(ps, level) && FirstMax(ps, level, m)
  }

  /** Three runnable processes of one level with priorities 1, 0, 2: the search never ends from its start, but
      ends with the third one where it resumes after a dispatch of the second. */
  lemma SpinExample(p: Proc, k: nat)
    requires k > 0 && At(p, 0)
    ensures var ps := [p.(priority := 1), p.(priority := 0), p.(priority := 2)];
            Spins(ps, k, Pos(0, 0)) && Reaches(ps, k, Pos(0, 2), Run(2))
  {
    hide Reaches;
    hide Spins;
    var ps := [p.(priority := 1), p.(priority := 0), p.(priority := 2)];
    assert At(ps[0], 0) && At(ps[1], 0) && At(ps[2], 0);
    FallSpins(ps, k, 0, 2);
    assert First(ps, Above(0, 2)) == |ps|;
    AheadPicks(ps, k, 0, 2, 2);
  }
}
