/** The process table of proc_MLFQ.c as values: what each operation does to the processes, how many are
    runnable at each level, and the clock that moves a process down the levels. */
module MlfqTable {
  datatype State = UNUSED | EMBRYO | SLEEPING | RUNNABLE | RUNNING | ZOMBIE

  // A sleep channel is an address: a process slot (wait), something else, or null.
  datatype Chan = Null | OfProc(slot: nat) | Other(id: nat)

  // parent is a slot number, or -1 for none.
  datatype Proc = Proc(
    state: State,
    pid: nat,
    parent: int,
    chan: Chan,
    killed: bool,
    priority: int,
    level: nat,
    extime: int)

  // ---------------------------------------------------------------- counting

  predicate At(p: Proc, level: nat) {
    p.state == RUNNABLE && p.level == level
  }

  function One(p: Proc, level: nat): nat {
    if At(p, level) then 1 else 0
  }

  // Number of RUNNABLE processes at a level.
  function Count(ps: seq<Proc>, level: nat): (n: nat)
    ensures n == 0 <==> forall i :: 0 <= i < |ps| ==> !At(ps[i], level)
  {
    if ps == [] then 0
    else
      assert forall i :: 0 <= i < |ps| ==> ps[i] == if i == 0 then ps[0] else ps[1..][i - 1];
      One(ps[0], level) + Count(ps[1..], level)
  }

  lemma {:induction false} CountUpdate(ps: seq<Proc>, i: nat, q: Proc, level: nat)
    requires i < |ps|
    ensures Count(ps[i := q], level) == Count(ps, level) - One(ps[i], level) + One(q, level)
  {
    if i == 0 {
      assert ps[0 := q][1..] == ps[1..];
    } else {
      assert ps[i := q][1..] == ps[1..][i - 1 := q];
      CountUpdate(ps[1..], i - 1, q, level);
    }
  }

  // With at most one runnable process at a level, a second slot there is the same slot.
  lemma {:induction false} CountOne(ps: seq<Proc>, level: nat, i: nat, j: nat)
    requires Count(ps, level) <= 1 && i < |ps| && j < |ps| && At(ps[i], level) && At(ps[j], level)
    ensures i == j
  {
    var q := ps[i].(state := RUNNING);
    CountUpdate(ps, i, q, level);
    assert !At(ps[i := q][j], level);
  }

  /** numproc agrees with the table: at each level it is the number of RUNNABLE processes there. */
  ghost predicate Counted(ps: seq<Proc>, numproc: seq<int>) {
    && (forall i :: 0 <= i < |ps| ==> ps[i].level < |numproc|)
    && (forall l :: 0 <= l < |numproc| ==> numproc[l] == Count(ps, l))
  }

  function Bump(numproc: seq<int>, level: nat, n: int): (r: seq<int>)
    requires level < |numproc|
  {
    numproc[level := numproc[level] + n]
  }

  // Replacing one process keeps the counters right if they are adjusted for what it was and what it is.
  lemma CountedUpdate(ps: seq<Proc>, numproc: seq<int>, i: nat, q: Proc, numproc': seq<int>)
    requires Counted(ps, numproc) && i < |ps| && |numproc'| == |numproc| && q.level < |numproc|
    requires forall l :: 0 <= l < |numproc| ==> numproc'[l] == numproc[l] - One(ps[i], l) + One(q, l)
    ensures Counted(ps[i := q], numproc')
  {
    hide Count;
    hide One;
    forall l | 0 <= l < |numproc|
      ensures numproc'[l] == Count(ps[i := q], l)
    {
      CountUpdate(ps, i, q, l);
    }
  }

  // ---------------------------------------------------------------- what the operations do

  // wakeup1 on one process.
  function Wake(p: Proc, c: Chan): Proc {
    if p.state == SLEEPING && p.chan == c then p.(state := RUNNABLE) else p
  }

  function Woken(ps: seq<Proc>, c: Chan): (r: seq<Proc>)
    ensures |r| == |ps| && forall i :: 0 <= i < |ps| ==> r[i] == Wake(ps[i], c)
  {
    seq(|ps|, i requires 0 <= i < |ps| => Wake(ps[i], c))
  }

  // boost on one process: everything but an unused slot goes to level 0 with a fresh quantum.
  function Boosted(p: Proc): Proc {
    if p.state == UNUSED then p else p.(level := 0, extime := 0)
  }

  // The children of cur, among the first n slots, go to init.
  function Adopted(ps: seq<Proc>, cur: nat, init: nat, n: nat): (r: seq<Proc>)
    ensures |r| == |ps| && forall i :: 0 <= i < |ps| ==> r[i] == Adopt(ps[i], i < n, cur, init)
  {
    seq(|ps|, i requires 0 <= i < |ps| => Adopt(ps[i], i < n, cur, init))
  }

  function Adopt(p: Proc, yes: bool, cur: nat, init: nat): Proc {
    if yes && p.parent == cur then p.(parent := init) else p
  }

  function ParentChan(p: Proc): Chan {
    if p.parent < 0 then Null else OfProc(p.parent)
  }

  // Some child of cur, among the first n slots, is a zombie.
  predicate ZombieChild(ps: seq<Proc>, cur: nat, n: nat)
    requires n <= |ps|
  {
    exists i :: 0 <= i < n && ps[i].parent == cur && ps[i].state == ZOMBIE
  }

  // Everything exit does to the table: the parent is woken, children go to init, which is woken if one of
  // them is a zombie, and the process becomes a zombie.
  function Exited(ps: seq<Proc>, cur: nat, init: nat): seq<Proc>
    requires cur < |ps|
  {
    var woken := Woken(ps, ParentChan(ps[cur]));
    var adopted := Adopted(if ZombieChild(ps, cur, |ps|) then Woken(woken, OfProc(init)) else woken, cur, init, |ps|);
    adopted[cur := adopted[cur].(state := ZOMBIE)]
  }

  // First slot with a property of the given kind, or |ps|.
  datatype Want =
    | Free
    | WithPid(pid: nat)
    | ZombieOf(cur: nat)
    | ChildPid(cur: nat, pid: nat)
    | Above(level: nat, priority: int)

  predicate Is(p: Proc, w: Want) {
    match w
    case Free => p.state == UNUSED
    case WithPid(pid) => p.pid == pid
    case ZombieOf(cur) => p.parent == cur && p.state == ZOMBIE
    case ChildPid(cur, pid) => p.state != UNUSED && p.parent == cur && p.pid == pid
    case Above(level, priority) => At(p, level) && p.priority > priority
  }

  function First(ps: seq<Proc>, w: Want): (k: nat)
    ensures k <= |ps| && (k < |ps| ==> Is(ps[k], w)) && forall i :: 0 <= i < k ==> !Is(ps[i], w)
  {
    if ps == [] || Is(ps[0], w) then 0
    else
      var k := First(ps[1..], w);
      assert forall i :: 0 < i < |ps| ==> ps[i] == ps[1..][i - 1];
      k + 1
  }

  lemma FirstIs(ps: seq<Proc>, w: Want, k: nat)
    requires k <= |ps| && (k < |ps| ==> Is(ps[k], w)) && forall i :: 0 <= i < k ==> !Is(ps[i], w)
    ensures First(ps, w) == k
  {
  }

  // ---------------------------------------------------------------- the clock

  datatype Clock = Clock(level: nat, extime: int)

  function Quantum(level: nat): nat {
    4 * level + 2
  }

  // degrade: one tick charged to a process.
  function Charge(k: nat, c: Clock): Clock {
    if c.extime + 1 < Quantum(c.level) then Clock(c.level, c.extime + 1)
    else if c.level == k - 1 then Clock(c.level, -1)
    else Clock(c.level + 1, 0)
  }

  // The clock after n charged ticks from a reset.
  function After(k: nat, n: nat): Clock {
    if n == 0 then Clock(0, 0) else Charge(k, After(k, n - 1))
  }

  // Time on the clock of the bottom level, m ticks after reaching it: it restarts from -1 on each expiry.
  function BottomTime(q: nat, m: nat): int {
    if m < q then m else (m - q) % (q + 1) - 1
  }

  // Ticks needed to reach a level.
  function Need(level: nat): nat {
    if level == 0 then 0 else Need(level - 1) + Quantum(level - 1)
  }

  lemma {:induction false} NeedSquare(level: nat)
    ensures Need(level) == 2 * level * level
  {
    if level > 0 {
      NeedSquare(level - 1);
    }
  }

  lemma {:induction false} NeedGrows(a: nat, b: nat)
    requires a < b
    ensures Need(a + 1) <= Need(b)
  {
    if a + 1 < b {
      NeedGrows(a, b - 1);
    }
  }

  /** Closed form: after n ticks the level is the largest L up to the bottom one with 2*L*L <= n; above the
      bottom the clock shows n - 2*L*L, at the bottom it cycles through -1 .. quantum - 1. */
  lemma ClosedForm(k: nat, n: nat)
    requires k > 0
    ensures var L := After(k, n).level;
            && L <= k - 1 && 2 * L * L <= n && (L < k - 1 ==> n < 2 * (L + 1) * (L + 1))
            && After(k, n).extime == if L < k - 1 then n - 2 * L * L else BottomTime(Quantum(L), n - 2 * L * L)
  {
    hide After;
    hide Need;
    hide BottomTime;
    NeedForm(k, n);
    NeedSquare(After(k, n).level);
    NeedSquare(After(k, n).level + 1);
  }

  lemma {:induction false} NeedForm(k: nat, n: nat)
    requires k > 0
    ensures var L := After(k, n).level;
            && L <= k - 1 && Need(L) <= n && (L < k - 1 ==> n < Need(L + 1))
            && After(k, n).extime == if L < k - 1 then n - Need(L) else BottomTime(Quantum(L), n - Need(L))
  {
    hide BottomTime;
    if n == 0 {
      BottomStep(Quantum(0), 0);
    } else {
      NeedForm(k, n - 1);
      var L := After(k, n - 1).level;
      if L == k - 1 {
        BottomStep(Quantum(L), n - 1 - Need(L));
      } else if After(k, n).level == k - 1 {
        BottomStep(Quantum(L + 1), 0);
      }
    }
  }

  lemma BottomStep(q: nat, m: nat)
    requires q > 0
    ensures BottomTime(q, 0) == 0
    ensures BottomTime(q, m + 1) == if BottomTime(q, m) + 1 < q then BottomTime(q, m) + 1 else -1
  {
    if m == q - 1 {
      ModUnique(0, q + 1, 0, 0);
    } else if m >= q {
      CycleStep(m - q, q + 1);
    }
  }

  lemma CycleStep(x: nat, q: nat)
    requires q > 1
    ensures (x + 1) % q == if x % q == q - 1 then 0 else x % q + 1
    ensures 0 <= x % q < q
  {
    var d := x / q;
    assert x == d * q + x % q;
    if x % q == q - 1 {
      assert x + 1 == (d + 1) * q;
      ModUnique(x + 1, q, d + 1, 0);
    } else {
      ModUnique(x + 1, q, d, x % q + 1);
    }
  }

  lemma ModUnique(x: nat, q: nat, d: nat, r: nat)
    requires q > 0 && r < q && x == d * q + r
    ensures x % q == r
  {
    var e := x / q;
    assert x == e * q + x % q;
    if e > d {
      MulStep(d, e, q);
    } else if e < d {
      MulStep(e, d, q);
    }
  }

  lemma {:induction false} MulStep(a: nat, b: nat, q: nat)
    requires a < b
    ensures a * q + q <= b * q
  {
    if a + 1 < b {
      MulStep(a, b - 1, q);
    }
  }

  // The level is determined by that property.
  lemma LevelIs(k: nat, n: nat, L: nat)
    requires k > 0 && L <= k - 1 && 2 * L * L <= n && (L < k - 1 ==> n < 2 * (L + 1) * (L + 1))
    ensures After(k, n).level == L
  {
    hide After;
    hide Need;
    hide BottomTime;
    NeedForm(k, n);
    NeedSquare(L);
    NeedSquare(L + 1);
    var M := After(k, n).level;
    if M < L {
      NeedGrows(M, L);
    } else if L < M {
      NeedGrows(L, M);
    }
  }

  /** A hundred ticks do not take a process past level 7, whatever the number of levels. */
  lemma LevelSeven(k: nat, n: nat)
    requires k > 0 && n <= 100
    ensures After(k, n).level <= 7
  {
    hide After;
    hide Need;
    NeedForm(k, n);
    var L := After(k, n).level;
    NeedSquare(8);
    if L > 8 {
      NeedGrows(7, L);
    }
  }
}
