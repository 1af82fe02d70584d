/** The scheduler of proc_multiLevel.c on one CPU: processes with an even pid in round robin, and only when
    none of them is runnable the one with the smallest odd pid.  The table may change in any way while a
    process runs and while the lock is free between two rounds; during a search it is fixed. */
module Multilevel {
  datatype State = RUNNABLE | RUNNING | OTHER

  datatype Proc = Proc(pid: nat, state: State)

  // Where the scheduler continues: at a slot of the round-robin pass, or in the odd-pid loop.
  datatype Pos = Even(slot: nat) | Odd

  datatype Act = Run(slot: nat) | Release

  predicate IsEven(p: Proc) {
    p.pid % 2 == 0 && p.state == RUNNABLE
  }

  predicate IsOdd(p: Proc) {
    p.pid % 2 != 0 && p.state == RUNNABLE
  }

  // First runnable even pid from a slot on, or the number of slots.
  function FirstEven(ps: seq<Proc>, from: nat): (k: nat)
    requires from <= |ps|
    ensures from <= k <= |ps| && (k < |ps| ==> IsEven(ps[k])) && forall i :: from <= i < k ==> !IsEven(ps[i])
    decreases |ps| - from
  {
    if from == |ps| || IsEven(ps[from]) then from else FirstEven(ps, from + 1)
  }

  // First slot, up to n, with the smallest runnable odd pid, or n if there is none.
  ghost predicate IsLeastOdd(ps: seq<Proc>, n: nat, k: nat) {
    && k <= n <= |ps|
    && (k < n ==> IsOdd(ps[k]))
    && (forall i :: 0 <= i < n && IsOdd(ps[i]) ==>
          k < n && (ps[k].pid < ps[i].pid || (ps[k].pid == ps[i].pid && k <= i)))
  }

  // The round-robin pass has a runnable even pid ahead of it.
  predicate Ahead(ps: seq<Proc>, pos: Pos) {
    pos.Even? && pos.slot <= |ps| && FirstEven(ps, pos.slot) < |ps|
  }

  /** What a search started at pos does on a fixed table. */
  ghost predicate Picks(ps: seq<Proc>, pos: Pos, a: Act, pos': Pos) {
    var from := if Ahead(ps, pos) then pos.slot else 0;
    var q := FirstEven(ps, from);
    if q < |ps| then a == Run(q) && pos' == Even(q + 1)
    else if a.Run? then pos' == Odd && a.slot < |ps| && IsLeastOdd(ps, |ps|, a.slot)
    else pos' == Even(0) && IsLeastOdd(ps, |ps|, |ps|)
  }

  /** A process with an odd pid is picked only if no even pid is runnable, and it is the smallest odd one. */
  lemma OddPick(ps: seq<Proc>, pos: Pos, a: Act, pos': Pos)
    requires Picks(ps, pos, a, pos') && a.Run? && a.slot < |ps| && ps[a.slot].pid % 2 != 0
    ensures ps[a.slot].state == RUNNABLE
    ensures forall i :: 0 <= i < |ps| && ps[i].state == RUNNABLE ==> ps[i].pid % 2 != 0 && ps[a.slot].pid <= ps[i].pid
  {
    forall i | 0 <= i < |ps| && ps[i].state == RUNNABLE
      ensures ps[i].pid % 2 != 0 && ps[a.slot].pid <= ps[i].pid
    {
      assert !IsEven(ps[i]);
      assert IsOdd(ps[i]);
    }
  }

  /** The lock is given up only with nothing runnable. */
  lemma ReleaseIdle(ps: seq<Proc>, pos: Pos, pos': Pos)
    requires Picks(ps, pos, Release, pos')
    ensures forall i :: 0 <= i < |ps| ==> ps[i].state != RUNNABLE
  {
    forall i | 0 <= i < |ps|
      ensures ps[i].state != RUNNABLE
    {
      assert !IsEven(ps[i]);
      assert !IsOdd(ps[i]);
    }
  }

  // ---------------------------------------------------------------- runs

  // The searches of one CPU, on the table each of them found.
  datatype Search = Search(ps: seq<Proc>, pos: Pos, act: Act, next: Pos)

  ghost predicate IsRun(run: seq<Search>, n: nat) {
    && (forall t :: 0 <= t < |run| ==> |run[t].ps| == n && Picks(run[t].ps, run[t].pos, run[t].act, run[t].next))
    && (forall t :: 0 < t < |run| ==> run[t].pos == run[t - 1].next)
  }

  // After slot i has run, and as long as slot j waits, the round-robin pass is past i or not past j.
  ghost predicate Between(pos: Pos, i: nat, j: nat) {
    pos.Even? && (if i < j then i < pos.slot <= j else i < pos.slot || pos.slot <= j)
  }

  lemma BetweenStep(ps: seq<Proc>, pos: Pos, a: Act, pos': Pos, i: nat, j: nat)
    requires Picks(ps, pos, a, pos') && Between(pos, i, j) && i != j && i < |ps| && j < |ps| && IsEven(ps[j])
    ensures a.Run? && a.slot != i && (a.slot != j ==> Between(pos', i, j))
  {
    if pos.slot <= |ps| {
      var q := FirstEven(ps, pos.slot);
      assert pos.slot <= j ==> q <= j;
    }
    assert FirstEven(ps, 0) <= j;
  }

  lemma {:induction false} StaysBetween(run: seq<Search>, n: nat, s: nat, t: nat, i: nat, j: nat)
    requires IsRun(run, n) && s < t < |run| && i < n && j < n && i != j
    requires run[s].act == Run(i) && IsEven(run[s].ps[i])
    requires forall u :: s < u < t ==> IsEven(run[u].ps[j]) && run[u].act != Run(j)
    ensures Between(run[t].pos, i, j)
    decreases t
  {
    if t > s + 1 {
      StaysBetween(run, n, s, t - 1, i, j);
      var u := run[t - 1];
      BetweenStep(u.ps, u.pos, u.act, u.next, i, j);
    }
  }

  /** Round robin: between two dispatches of an even pid in slot i, every other even pid that is runnable at
      each search after the first of them is dispatched too. */
  lemma RoundRobin(run: seq<Search>, n: nat, s: nat, e: nat, i: nat, j: nat)
    requires IsRun(run, n) && s < e < |run| && i < n && j < n && i != j
    requires run[s].act == Run(i) && IsEven(run[s].ps[i]) && run[e].act == Run(i)
    requires forall u :: s < u <= e ==> IsEven(run[u].ps[j])
    ensures exists u :: s < u < e && run[u].act == Run(j)
  {
    if forall u :: s < u < e ==> run[u].act != Run(j) {
      StaysBetween(run, n, s, e, i, j);
      var u := run[e];
      BetweenStep(u.ps, u.pos, u.act, u.next, i, j);
    }
  }

  // ---------------------------------------------------------------- the scheduler as it runs

  class Cpu {
    var procs: seq<Proc>
    var pos: Pos

    /** From where the scheduler stands to its next dispatch (the slot), or to the point where it gives up
        the lock (the number of slots). */
    method Next() returns (slot: nat)
      requires pos.Even? ==> pos.slot <= |procs|
      modifies this
      ensures |procs| == |old(procs)| && (pos.Even? ==> pos.slot <= |procs|)
      ensures slot < |procs| ==> Picks(old(procs), old(pos), Run(slot), pos)
      ensures slot < |procs| ==> procs == old(procs)[slot := old(procs)[slot].(state := RUNNING)]
      ensures slot >= |procs| ==> Picks(old(procs), old(pos), Release, pos) && procs == old(procs)
    {
      var again := true;
      slot := |procs|;
      while again
        invariant procs == old(procs) && (pos.Even? ==> pos.slot <= |procs|)
        invariant pos != old(pos) ==> !Ahead(procs, old(pos))
        invariant again && pos != old(pos) ==> pos == Even(0) && Ahead(procs, pos)
        invariant !again ==> pos == Odd && FirstEven(procs, 0) == |procs| && IsLeastOdd(procs, |procs|, slot)
        decreases again, pos == old(pos)
      {
        if pos.Even? {
          var p := pos.slot;
          ghost var from := p;
          while p < |procs|
            invariant from <= p <= |procs| && FirstEven(procs, from) == FirstEven(procs, p)
          {
            if procs[p].pid % 2 == 0 && procs[p].state == RUNNABLE {
              procs := procs[p := procs[p].(state := RUNNING)];
              pos := Even(p + 1);
              return p;
            }
            p := p + 1;
          }
        }
        var found;
        slot, found := ScanOdd(procs);
        pos := Odd;
        again := false;
        if found {
          pos := Even(0);
          again := true;
        }
      }
      if slot == |procs| {
        pos := Even(0);
        return;
      }
      procs := procs[slot := procs[slot].(state := RUNNING)];
    }
  }

  /** The pass that looks for the smallest odd pid; it stops at a runnable even pid. */
  method ScanOdd(ps: seq<Proc>) returns (p: nat, evenFound: bool)
    ensures evenFound <==> FirstEven(ps, 0) < |ps|
    ensures !evenFound ==> p <= |ps| && IsLeastOdd(ps, |ps|, p)
  {
    var tmp, p1 := 0, 0;
    p := |ps|;
    while p1 < |ps|
      invariant 0 <= p1 <= |ps| && FirstEven(ps, 0) == FirstEven(ps, p1)
      invariant tmp == 0 <==> p == |ps|
      invariant tmp != 0 ==> p < p1 && tmp == ps[p].pid
      invariant IsLeastOdd(ps, p1, if tmp == 0 then p1 else p)
    {
      if ps[p1].state == RUNNABLE {
        if ps[p1].pid % 2 != 0 {
          if tmp == 0 || tmp > ps[p1].pid {
            tmp, p := ps[p1].pid, p1;
          }
        } else {
          return p, true;
        }
      }
      p1 := p1 + 1;
    }
    evenFound := false;
  }
}
