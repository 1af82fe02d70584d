/** proc_MLFQ.c as it runs: the process table, numproc and heads updated in place, each method one stretch
    with the table lock held.  Valid() says, in every state between two such stretches, that numproc[l] is
    the number of RUNNABLE processes at level l, and that every process's level and extime are the closed
    form of the ticks charged to it since its last reset, of which there are at most a hundred, also while
    the timer interrupt is between its steps. */
module Mlfq {
  import opened MlfqTable
  import opened MlfqScan

  const WORD := 0x1_0000_0000

  // Clocks show the ticks charged since the last reset, at most b of them.
  ghost predicate Clocked(k: nat, ps: seq<Proc>, charged: seq<nat>, b: nat) {
    && |charged| == |ps|
    && forall i :: 0 <= i < |ps| && ps[i].state != UNUSED ==> OnTime(k, ps[i], charged[i], b)
  }

  ghost predicate OnTime(k: nat, p: Proc, n: nat, b: nat) {
    n <= b && Clock(p.level, p.extime) == After(k, n)
  }

  ghost predicate Ok(k: nat, ps: seq<Proc>, numproc: seq<int>, charged: seq<nat>, b: nat) {
    && k > 0 && |numproc| == k
    && Counted(ps, numproc)
    && Clocked(k, ps, charged, b)
  }

  // Replacing one process: the counters follow, and its clock is on time.
  lemma Replace(k: nat, ps: seq<Proc>, numproc: seq<int>, charged: seq<nat>, b: nat, i: nat, q: Proc,
          numproc': seq<int>, n: nat)
    requires Ok(k, ps, numproc, charged, b) && i < |ps| && |numproc'| == k && q.level < k
    requires forall l :: 0 <= l < k ==> numproc'[l] == numproc[l] - One(ps[i], l) + One(q, l)
    requires q.state != UNUSED ==> OnTime(k, q, n, b)
    ensures Ok(k, ps[i := q], numproc', charged[i := n], b)
  {
    hide Counted;
    hide OnTime;
    hide One;
    CountedShape(ps, numproc);
    CountedUpdate(ps, numproc, i, q, numproc');
  }

  lemma CountedShape(ps: seq<Proc>, numproc: seq<int>)
    requires Counted(ps, numproc)
    ensures forall i :: 0 <= i < |ps| ==> ps[i].level < |numproc|
  {
  }

  // A change that keeps a process's level, extime and use.
  lemma Keep(k: nat, ps: seq<Proc>, numproc: seq<int>, charged: seq<nat>, b: nat, i: nat, q: Proc, numproc': seq<int>)
    requires Ok(k, ps, numproc, charged, b) && i < |ps| && |numproc'| == k
    requires q.level == ps[i].level && q.extime == ps[i].extime && (ps[i].state == UNUSED ==> q.state == UNUSED)
    requires forall l :: 0 <= l < k ==> numproc'[l] == numproc[l] - One(ps[i], l) + One(q, l)
    ensures Ok(k, ps[i := q], numproc', charged, b)
  {
    hide Counted;
    hide One;
    CountedShape(ps, numproc);
    Replace(k, ps, numproc, charged, b, i, q, numproc', charged[i]);
    assert charged[i := charged[i]] == charged;
  }

  /** While at most a hundred ticks are charged between resets, no process passes level 7. */
  lemma NeverPastSeven(k: nat, ps: seq<Proc>, numproc: seq<int>, charged: seq<nat>, b: nat)
    requires Ok(k, ps, numproc, charged, b) && b <= 100
    ensures forall i :: 0 <= i < |ps| && ps[i].state != UNUSED ==> ps[i].level <= 7
  {
    hide After;
    forall i | 0 <= i < |ps| && ps[i].state != UNUSED
      ensures ps[i].level <= 7
    {
      assert OnTime(k, ps[i], charged[i], b);
      LevelSeven(k, charged[i]);
    }
  }

  // The timer interrupt of CPU 0 gives up the table lock between its steps: not running, the tick counted,
  // the tick charged.
  datatype Handler = Out | TickCounted | TickCharged

  // How many ticks a process can have been charged since the last boost.
  ghost predicate Counting(ticks: nat, handler: Handler, bound: nat) {
    match handler
    case Out => bound == ticks % 100
    case TickCounted => bound <= 99 && (ticks % 100 != 0 ==> bound + 1 == ticks % 100)
    case TickCharged => bound <= 100 && (ticks % 100 != 0 ==> bound == ticks % 100)
  }

  datatype WaitResult = Reaped(pid: nat) | NoChild | Asleep

  class Table {
    const k: nat                 // number of levels, MLFQ_K
    var procs: seq<Proc>
    var heads: seq<int>          // slot last dispatched at each level, or -1
    var numproc: seq<int>
    var nextpid: nat
    var ticks: nat
    var handler: Handler         // where the timer interrupt is
    ghost var charged: seq<nat>  // ticks charged to each slot since its last reset
    ghost var bound: nat         // no more than this many

    ghost predicate Tabled(b: nat)
      reads this
    {
      Ok(k, procs, numproc, charged, b) && |heads| == k
    }

    ghost predicate Valid()
      reads this
    {
      Tabled(bound) && ticks < WORD && Counting(ticks, handler, bound)
    }

    constructor (n: nat, levels: nat)
      requires levels > 0
      ensures Valid() && k == levels && |procs| == n && forall i :: 0 <= i < n ==> procs[i].state == UNUSED
    {
      k := levels;
      procs := seq(n, i => Proc(UNUSED, 0, -1, Null, false, 0, 0, 0));
      heads := seq(levels, i => -1);
      numproc := seq(levels, i => 0);
      nextpid, ticks, handler, bound := 1, 0, Out, 0;
      charged := seq(n, i => 0);
    }

    /** allocproc: the first unused slot becomes a process at level 0 with a fresh clock; the number of
        slots is returned when there is none. */
    method AllocProc() returns (slot: nat)
      requires Valid()
      modifies this`procs, this`nextpid, this`charged
      ensures Valid() && slot == First(old(procs), Free)
      ensures slot == |old(procs)| ==> procs == old(procs) && nextpid == old(nextpid)
      ensures slot < |old(procs)| ==> nextpid == old(nextpid) + 1 && procs == old(procs)[slot :=
                old(procs)[slot].(state := EMBRYO, pid := old(nextpid), priority := 0, extime := 0, level := 0)]
    {
      hide Ok;
      slot := 0;
      while slot < |procs|
        invariant slot <= |procs| && forall i :: 0 <= i < slot ==> !Is(procs[i], Free)
      {
        if procs[slot].state == UNUSED {
          break;
        }
        slot := slot + 1;
      }
      FirstIs(procs, Free, slot);
      if slot < |procs| {
        var q := procs[slot].(state := EMBRYO, pid := nextpid, priority := 0, extime := 0, level := 0);
        Shape(bound);
        Replace(k, procs, numproc, charged, bound, slot, q, numproc, 0);
        procs := procs[slot := q];
        nextpid := nextpid + 1;
        charged := charged[slot := 0];
      }
    }

    lemma Shape(b: nat)
      requires Tabled(b)
      ensures k > 0 && |numproc| == k && |charged| == |procs| && forall i :: 0 <= i < |procs| ==> procs[i].level < k
    {
    }

    // Set one process, with the counter of its level adjusted by n.
    method Set(slot: nat, q: Proc, n: int, ghost b: nat)
      requires Tabled(b) && slot < |procs| && q.level == procs[slot].level && q.extime == procs[slot].extime
      requires procs[slot].state == UNUSED ==> q.state == UNUSED
      requires n == One(q, q.level) - One(procs[slot], q.level)
      modifies this`procs, this`numproc
      ensures Tabled(b) && procs == old(procs)[slot := q]
    {
      hide Ok;
      Shape(b);
      var numproc' := Bump(numproc, q.level, n);
      Keep(k, procs, numproc, charged, b, slot, q, numproc');
      procs := procs[slot := q];
      numproc := numproc';
    }

    /** fork and allocproc giving up on a half-made process. */
    method Abandon(slot: nat)
      requires Valid() && slot < |procs| && procs[slot].state == EMBRYO
      modifies this`procs, this`numproc
      ensures Valid() && procs == old(procs)[slot := old(procs)[slot].(state := UNUSED)]
    {
      Set(slot, procs[slot].(state := UNUSED), 0, bound);
    }

    /** The end of fork and userinit: the new process can run. */
    method Ready(slot: nat, parent: int)
      requires Valid() && slot < |procs| && procs[slot].state == EMBRYO
      modifies this`procs, this`numproc
      ensures Valid() && procs == old(procs)[slot := old(procs)[slot].(state := RUNNABLE, parent := parent)]
    {
      Set(slot, procs[slot].(state := RUNNABLE, parent := parent), 1, bound);
    }

    /** wakeup1: every process asleep on c, and no other, can run. */
    method Wakeup1(c: Chan, ghost b: nat)
      requires Tabled(b)
      modifies this`procs, this`numproc
      ensures Tabled(b) && procs == Woken(old(procs), c)
    {
      hide Ok;
      var i := 0;
      while i < |procs|
        invariant 0 <= i <= |procs| == |old(procs)| && Tabled(b)
        invariant forall j :: 0 <= j < |procs| ==> procs[j] == if j < i then Wake(old(procs)[j], c) else old(procs)[j]
      {
        if procs[i].state == SLEEPING && procs[i].chan == c {
          Set(i, procs[i].(state := RUNNABLE), 1, b);
        }
        i := i + 1;
      }
    }

    /** exit: see Exited; init itself must not exit. */
    method Exit(cur: nat, init: nat) returns (panicked: bool)
      requires Valid() && cur < |procs| && procs[cur].state == RUNNING && init < |procs|
      modifies this`procs, this`numproc
      ensures Valid() && (panicked <==> cur == init)
      ensures procs == if panicked then old(procs) else Exited(old(procs), cur, init)
    {
      hide Ok;
      panicked := cur == init;
      if panicked {
        return;
      }
      ghost var ps0 := procs;
      var chan := ParentChan(procs[cur]);
      Wakeup1(chan, bound);
      ghost var ps1 := procs;
      var i := 0;
      assert Adopted(ps1, cur, init, 0) == ps1;
      while i < |procs|
        invariant 0 <= i <= |procs| == |ps0| && Valid()
        invariant procs == Adopted(if ZombieChild(ps0, cur, i) then Woken(ps1, OfProc(init)) else ps1, cur, init, i)
      {
        if procs[i].parent == cur {
          var zombie := procs[i].state == ZOMBIE;
          Set(i, procs[i].(parent := init), 0, bound);
          if zombie {
            Wakeup1(OfProc(init), bound);
          }
        }
        AdoptNext(ps0, ps1, cur, init, i, chan);
        i := i + 1;
      }
      assert procs[cur].state == RUNNING;
      Set(cur, procs[cur].(state := ZOMBIE), 0, bound);
    }

    /** One round of wait: the first zombie child is reaped; with no children, or when killed, there is
        nothing to wait for; otherwise the process sleeps on its own slot. */
    method Wait(cur: nat) returns (r: WaitResult)
      requires Valid() && cur < |procs| && procs[cur].state == RUNNING
      modifies this`procs, this`numproc
      ensures Valid()
      ensures var z := First(old(procs), ZombieOf(cur));
              if z < |old(procs)|
              then r == Reaped(old(procs)[z].pid)
                && procs == old(procs)[z := old(procs)[z].(pid := 0, parent := -1, killed := false, state := UNUSED)]
              else if old(procs)[cur].killed || forall i :: 0 <= i < |old(procs)| ==> old(procs)[i].parent != cur
              then r == NoChild && procs == old(procs)
              else r == Asleep && procs == old(procs)[cur := old(procs)[cur].(state := SLEEPING, chan := OfProc(cur))]
    {
      hide Ok;
      var havekids, i := false, 0;
      while i < |procs|
        invariant 0 <= i <= |procs| && forall j :: 0 <= j < i ==> !Is(procs[j], ZombieOf(cur))
        invariant havekids <==> exists j :: 0 <= j < i && procs[j].parent == cur
      {
        if procs[i].parent == cur {
          havekids := true;
          if procs[i].state == ZOMBIE {
            FirstIs(procs, ZombieOf(cur), i);
            var pid := procs[i].pid;
            Set(i, procs[i].(pid := 0, parent := -1, killed := false, state := UNUSED), 0, bound);
            return Reaped(pid);
          }
        }
        i := i + 1;
      }
      FirstIs(procs, ZombieOf(cur), i);
      if !havekids || procs[cur].killed {
        return NoChild;
      }
      Sleep(cur, OfProc(cur));
      r := Asleep;
    }

    /** sleep, up to the switch. */
    method Sleep(cur: nat, c: Chan)
      requires Valid() && cur < |procs| && procs[cur].state == RUNNING
      modifies this`procs, this`numproc
      ensures Valid() && procs == old(procs)[cur := old(procs)[cur].(state := SLEEPING, chan := c)]
    {
      Set(cur, procs[cur].(chan := c, state := SLEEPING), 0, bound);
    }

    /** sleep, after the switch back. */
    method Unsleep(cur: nat)
      requires Valid() && cur < |procs| && procs[cur].state == RUNNING
      modifies this`procs, this`numproc
      ensures Valid() && procs == old(procs)[cur := old(procs)[cur].(chan := Null)]
    {
      Set(cur, procs[cur].(chan := Null), 0, bound);
    }

    /** yield, up to the switch. */
    method Yield(cur: nat)
      requires Valid() && cur < |procs| && procs[cur].state == RUNNING
      modifies this`procs, this`numproc
      ensures Valid() && procs == old(procs)[cur := old(procs)[cur].(state := RUNNABLE)]
    {
      Set(cur, procs[cur].(state := RUNNABLE), 1, bound);
    }

    /** kill: the first slot with that pid is marked, and woken if it sleeps. */
    method Kill(pid: nat) returns (found: bool)
      requires Valid()
      modifies this`procs, this`numproc
      ensures Valid()
      ensures var i := First(old(procs), WithPid(pid));
              && (found <==> i < |old(procs)|) && (!found ==> procs == old(procs))
              && (found ==> var p := old(procs)[i].(killed := true);
                            procs == old(procs)[i := if p.state == SLEEPING then p.(state := RUNNABLE) else p])
    {
      hide Ok;
      var i := 0;
      while i < |procs|
        invariant 0 <= i <= |procs| && forall j :: 0 <= j < i ==> !Is(procs[j], WithPid(pid))
      {
        if procs[i].pid == pid {
          FirstIs(procs, WithPid(pid), i);
          var p := procs[i].(killed := true);
          if p.state == SLEEPING {
            Set(i, p.(state := RUNNABLE), 1, bound);
          } else {
            Set(i, p, 0, bound);
          }
          return true;
        }
        i := i + 1;
      }
      FirstIs(procs, WithPid(pid), i);
      found := false;
    }

    /** setpriority: -2 for a priority outside 0..10, -1 when the caller has no such child. */
    method SetPriority(cur: nat, pid: nat, priority: int) returns (r: int)
      requires Valid()
      modifies this`procs, this`numproc
      ensures Valid()
      ensures var i := First(old(procs), ChildPid(cur, pid));
              if priority < 0 || priority > 10 then r == -2 && procs == old(procs)
              else if i == |old(procs)| then r == -1 && procs == old(procs)
              else r == 0 && procs == old(procs)[i := old(procs)[i].(priority := priority)]
    {
      hide Ok;
      if priority < 0 || priority > 10 {
        return -2;
      }
      var i := 0;
      while i < |procs|
        invariant 0 <= i <= |procs| && forall j :: 0 <= j < i ==> !Is(procs[j], ChildPid(cur, pid))
      {
        if procs[i].state != UNUSED && procs[i].parent == cur && procs[i].pid == pid {
          FirstIs(procs, ChildPid(cur, pid), i);
          Set(i, procs[i].(priority := priority), 0, bound);
          return 0;
        }
        i := i + 1;
      }
      FirstIs(procs, ChildPid(cur, pid), i);
      r := -1;
    }

    // Give a process a new clock, moving its count from one level to the other if it can run.
    method Reset(slot: nat, level: nat, extime: int, ghost n: nat, ghost b: nat)
      requires Tabled(b) && slot < |procs| && procs[slot].state != UNUSED && level < k
      requires n <= b && Clock(level, extime) == After(k, n)
      modifies this`procs, this`numproc, this`charged
      ensures Tabled(b) && charged == old(charged)[slot := n]
      ensures procs == old(procs)[slot := old(procs)[slot].(level := level, extime := extime)]
    {
      hide Ok;
      Shape(b);
      var p := procs[slot];
      var q := p.(level := level, extime := extime);
      var numproc' := numproc;
      if p.state == RUNNABLE {
        numproc' := Bump(numproc', p.level, -1);
        numproc' := Bump(numproc', level, 1);
      }
      Replace(k, procs, numproc, charged, b, slot, q, numproc', n);
      procs := procs[slot := q];
      numproc := numproc';
      charged := charged[slot := n];
    }

    /** degrade: one tick is charged to the running process.  It panics if the process is not the one last
        dispatched at its level. */
    method Degrade(cur: int, ghost b: nat) returns (panicked: bool)
      requires Tabled(b) && cur < |procs| && (cur >= 0 ==> procs[cur].state != UNUSED)
      modifies this`procs, this`numproc, this`heads, this`charged
      ensures cur < 0 ==> !panicked && Tabled(b) && procs == old(procs) && charged == old(charged)
      ensures cur >= 0 ==> old(procs)[cur].level < |old(heads)|
      ensures cur >= 0 ==> (panicked <==> old(heads)[old(procs)[cur].level] != cur)
      ensures panicked ==> procs == old(procs)[cur := old(procs)[cur].(extime := old(procs)[cur].extime + 1)]
      ensures cur >= 0 && !panicked ==> Tabled(b + 1) && charged == old(charged)[cur := old(charged)[cur] + 1]
      ensures cur >= 0 && !panicked ==> var p := old(procs)[cur]; var c := Charge(k, Clock(p.level, p.extime));
              procs == old(procs)[cur := p.(level := c.level, extime := c.extime)]
      ensures cur >= 0 && !panicked ==>
              var p := old(procs)[cur];
              heads == if p.extime + 1 >= Quantum(p.level) then old(heads)[p.level := -1] else old(heads)
    {
      hide Ok;
      Shape(b);
      if cur < 0 {
        return false;
      }
      var p := procs[cur];
      if heads[p.level] != cur {
        procs := procs[cur := p.(extime := p.extime + 1)];
        return true;
      }
      ghost var n := charged[cur] + 1;
      Later(k, procs, numproc, charged, b, cur);
      if p.extime + 1 >= Quantum(p.level) {
        heads := heads[p.level := -1];
        if p.level == k - 1 {
          Reset(cur, p.level, -1, n, b + 1);
        } else {
          Reset(cur, p.level + 1, 0, n, b + 1);
        }
      } else {
        Reset(cur, p.level, p.extime + 1, n, b + 1);
      }
      panicked := false;
    }

    /** boost: every process goes back to level 0 with a fresh clock. */
    method Boost(ghost b: nat)
      requires Tabled(b)
      modifies this`procs, this`numproc, this`charged
      ensures Tabled(0) && |procs| == |old(procs)|
      ensures forall i :: 0 <= i < |procs| ==> procs[i] == Boosted(old(procs)[i])
    {
      hide Ok;
      Shape(b);
      var i := 0;
      while i < |procs|
        invariant 0 <= i <= |procs| == |old(procs)| == |charged| && Tabled(b)
        invariant forall j :: 0 <= j < |procs| ==> procs[j] == if j < i then Boosted(old(procs)[j]) else old(procs)[j]
        invariant forall j :: 0 <= j < i && procs[j].state != UNUSED ==> charged[j] == 0
      {
        if procs[i].state != UNUSED {
          Reset(i, 0, 0, 0, b);
        }
        i := i + 1;
      }
      AllFresh(k, procs, numproc, charged, b);
    }

    /** rst: the caller goes back to level 0 with a fresh clock. */
    method Rst(cur: nat)
      requires Valid() && cur < |procs| && procs[cur].state != UNUSED
      modifies this`procs, this`numproc, this`charged
      ensures Valid() && procs == old(procs)[cur := Boosted(old(procs)[cur])]
    {
      hide Ok;
      Shape(bound);
      Reset(cur, 0, 0, 0, bound);
    }

    /** The timer interrupt counts a tick; the table is not touched. */
    method CountTick()
      requires Valid() && handler == Out
      modifies this`ticks, this`handler
      ensures Valid() && handler == TickCounted && ticks == (old(ticks) + 1) % WORD
    {
      hide Ok;
      ticks := (ticks + 1) % WORD;
      handler := TickCounted;
    }

    /** It then charges the tick to the running process, whatever happened to the table in between. */
    method ChargeTick(cur: int) returns (panicked: bool)
      requires Valid() && handler == TickCounted && cur < |procs| && (cur >= 0 ==> procs[cur].state == RUNNING)
      modifies this`procs, this`numproc, this`heads, this`charged, this`bound, this`handler
      ensures !panicked ==> Valid() && handler == TickCharged && |procs| == |old(procs)|
      ensures !panicked ==> forall i :: 0 <= i < |procs| ==>
                procs[i] == if i == cur then Ticked(k, old(procs)[i]) else old(procs)[i]
    {
      hide Ok;
      panicked := Degrade(cur, bound);
      if !panicked {
        if cur < 0 {
          Loosen(k, procs, numproc, charged, bound);
        }
        bound, handler := bound + 1, TickCharged;
      }
    }

    /** And every hundredth tick, and on the wrap of the counter, it boosts everything. */
    method BoostTick()
      requires Valid() && handler == TickCharged
      modifies this`procs, this`numproc, this`charged, this`bound, this`handler
      ensures Valid() && handler == Out && |procs| == |old(procs)|
      ensures forall i :: 0 <= i < |procs| ==>
                procs[i] == if ticks % 100 == 0 then Boosted(old(procs)[i]) else old(procs)[i]
    {
      hide Ok;
      if ticks % 100 == 0 {
        Boost(bound);
        bound := 0;
      }
      handler := Out;
    }

    /** The whole timer interrupt when nothing comes in between: a tick charged, a boost if it is time, and
        the sleepers on the clock woken. */
    method Timer(cur: int, clock: Chan) returns (panicked: bool)
      requires Valid() && handler == Out && cur < |procs| && (cur >= 0 ==> procs[cur].state == RUNNING)
      modifies this`procs, this`numproc, this`heads, this`charged, this`ticks, this`bound, this`handler
      ensures !panicked ==> Valid() && handler == Out && ticks == (old(ticks) + 1) % WORD && |procs| == |old(procs)|
      ensures !panicked ==> forall i :: 0 <= i < |procs| ==>
                var p := if i == cur then Ticked(k, old(procs)[i]) else old(procs)[i];
                procs[i] == Wake(if ticks % 100 == 0 then Boosted(p) else p, clock)
    {
      hide Ok;
      CountTick();
      panicked := ChargeTick(cur);
      if !panicked {
        BoostTick();
        Wakeup1(clock, bound);
      }
    }

    /** In every state, between any two steps of any process and of the timer interrupt, no process is past
        level 7. */
    lemma AtMostSeven()
      requires Valid()
      ensures forall i :: 0 <= i < |procs| && procs[i].state != UNUSED ==> procs[i].level <= 7
    {
      NeverPastSeven(k, procs, numproc, charged, bound);
    }

    /** One visit of the scheduler's search, on the counters instead of the table where the source does. */
    method Visit(pos: Pos) returns (a: Act)
      requires Valid()
      ensures a == Step(procs, k, pos)
    {
      hide Clocked;
      hide Count;
      hide First;
      var Pos(level, slot) := pos;
      if level >= k {
        return Done;
      }
      if slot >= |procs| {
        return Go(if numproc[level] > 0 then Pos(level, 0) else Pos(level + 1, 0));
      }
      var i := 0;
      while i < level
        invariant 0 <= i <= level && forall l :: 0 <= l < i ==> Count(procs, l) == 0
      {
        if numproc[i] > 0 {
          assert Waiting(procs, level);
          return Go(Pos(0, 0));
        }
        i := i + 1;
      }
      assert !Waiting(procs, level);
      var p := procs[slot];
      if p.state != RUNNABLE || p.level != level {
        return Go(Pos(level, slot + 1));
      }
      var w := Above(level, p.priority);
      var p1 := |procs|;
      if numproc[level] > 1 {
        p1 := 0;
        while p1 < |procs|
          invariant 0 <= p1 <= |procs| && forall j :: 0 <= j < p1 ==> !Is(procs[j], w)
        {
          if procs[p1].state == RUNNABLE && procs[p1].level == level && procs[p1].priority > p.priority {
            break;
          }
          p1 := p1 + 1;
        }
      } else {
        OnlyOne(procs, level, slot);
      }
      FirstIs(procs, w, p1);
      return if p1 == |procs| then Run(slot) else Go(if p1 < slot then Pos(level, 0) else Pos(level, slot + 1));
    }

    /** Dispatch of the process that the search picked: it is the best of all runnable ones. */
    method Dispatch(slot: nat, ghost pos: Pos)
      requires Valid() && Step(procs, k, pos) == Run(slot)
      modifies this`procs, this`numproc, this`heads
      ensures Valid() && slot < |old(procs)| && Best(old(procs), slot)
      ensures procs == old(procs)[slot := old(procs)[slot].(state := RUNNING)]
      ensures heads == old(heads)[old(procs)[slot].level := slot]
    {
      hide Ok;
      PickIsBest(procs, k, pos);
      Shape(bound);
      heads := heads[procs[slot].level := slot];
      Set(slot, procs[slot].(state := RUNNING), -1, bound);
    }
  }

  // A process with one tick charged.
  function Ticked(k: nat, p: Proc): Proc {
    var c := Charge(k, Clock(p.level, p.extime));
    p.(level := c.level, extime := c.extime)
  }

  // The clock of a process after the tick about to be charged.
  lemma Later(k: nat, ps: seq<Proc>, numproc: seq<int>, charged: seq<nat>, b: nat, i: nat)
    requires Ok(k, ps, numproc, charged, b) && i < |ps| && ps[i].state != UNUSED
    ensures charged[i] + 1 <= b + 1 && After(k, charged[i] + 1) == Charge(k, Clock(ps[i].level, ps[i].extime))
    ensures Ok(k, ps, numproc, charged, b + 1)
  {
    hide Counted;
    assert OnTime(k, ps[i], charged[i], b);
    Loosen(k, ps, numproc, charged, b);
  }

  lemma Loosen(k: nat, ps: seq<Proc>, numproc: seq<int>, charged: seq<nat>, b: nat)
    requires Ok(k, ps, numproc, charged, b)
    ensures Ok(k, ps, numproc, charged, b + 1)
  {
    hide Counted;
    hide After;
    forall i | 0 <= i < |ps| && ps[i].state != UNUSED
      ensures OnTime(k, ps[i], charged[i], b + 1)
    {
      assert OnTime(k, ps[i], charged[i], b);
    }
  }

  lemma AllFresh(k: nat, ps: seq<Proc>, numproc: seq<int>, charged: seq<nat>, b: nat)
    requires Ok(k, ps, numproc, charged, b)
    requires forall i :: 0 <= i < |ps| && ps[i].state != UNUSED ==> charged[i] == 0
    ensures Ok(k, ps, numproc, charged, 0)
  {
    hide Counted;
    hide After;
    forall i | 0 <= i < |ps| && ps[i].state != UNUSED
      ensures OnTime(k, ps[i], charged[i], 0)
    {
      assert OnTime(k, ps[i], charged[i], b);
    }
  }

  // The only runnable process at its level is above no other.
  lemma OnlyOne(ps: seq<Proc>, level: nat, slot: nat)
    requires Count(ps, level) <= 1 && slot < |ps| && At(ps[slot], level)
    ensures forall j :: 0 <= j < |ps| ==> !Is(ps[j], Above(level, ps[slot].priority))
  {
    hide Count;
    forall j | 0 <= j < |ps|
      ensures !Is(ps[j], Above(level, ps[slot].priority))
    {
      if At(ps[j], level) {
        CountOne(ps, level, slot, j);
      }
    }
  }

  // One step of exit's pass over the children.
  lemma AdoptNext(ps0: seq<Proc>, ps1: seq<Proc>, cur: nat, init: nat, i: nat, c: Chan)
    requires ps1 == Woken(ps0, c) && i < |ps0|
    ensures var z, z' := ZombieChild(ps0, cur, i), ZombieChild(ps0, cur, i + 1);
            var a := Adopted(if z then Woken(ps1, OfProc(init)) else ps1, cur, init, i);
            var b := if a[i].parent == cur then a[i := a[i].(parent := init)] else a;
            Adopted(if z' then Woken(ps1, OfProc(init)) else ps1, cur, init, i + 1)
            == if a[i].parent == cur && a[i].state == ZOMBIE then Woken(b, OfProc(init)) else b
  {
    assert ZombieChild(ps0, cur, i + 1) <==>
           ZombieChild(ps0, cur, i) || (ps0[i].parent == cur && ps0[i].state == ZOMBIE);
  }
}
