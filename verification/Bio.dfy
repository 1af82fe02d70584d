/** bio.c over a disk that reads and writes whole blocks (memide.c).  Each method is one step that other
    processes cannot interrupt, so a client's bread is Get, Acquire, ReadIn, its brelse is Release, DropRef,
    and the steps of different processes mix freely.  To clients the cache and the disk look like one array
    of blocks, the view; the disk itself changes only by a write of a buffer that is locked. */
module Bio {
  import opened BufRing

  type Block = seq<nat>

  const DISK := 1                // the only device there is

  // holder is the process that has the sleep lock, or -1.  dev 0 marks a buffer never used so far.
  datatype Buf = Buf(dev: nat, blockno: nat, valid: bool, dirty: bool, refcnt: int, holder: int, data: Block)

  // How far a process is with a buffer: it has a reference, the lock too, the reference only again.
  datatype Phase = Waiting | Holding | Dropping

  datatype Ref = Ref(phase: Phase, blockno: nat)

  function Put(users: seq<map<nat, Ref>>, b: nat, pid: nat, r: Ref): seq<map<nat, Ref>>
    requires b < |users|
  {
    var u: map<nat, Ref> := users[b][pid := r];
    users[b := u]
  }

  predicate Same(b: Buf, dev: nat, blockno: nat) {
    b.dev == dev && b.blockno == blockno
  }

  // Not referenced and not waiting for its log to commit.
  predicate Idle(b: Buf) {
    b.refcnt == 0 && !b.dirty
  }

  // The holder of the lock is the one process in that phase.
  ghost predicate HolderOk(users: map<nat, Ref>, holder: int) {
    && (holder >= 0 ==> holder in users && users[holder].phase == Holding)
    && (forall p :: p in users && users[p].phase == Holding ==> p == holder)
  }

  ghost predicate BufOk(b: Buf, users: map<nat, Ref>, disk: seq<Block>, view: seq<Block>) {
    && |view| == |disk|
    && (if b.dev == 0 then !b.valid && users == map[] else b.dev == DISK && b.blockno < |disk|)
    && b.refcnt == |users|
    && b.holder >= -1
    && (forall p :: p in users ==> users[p].blockno == b.blockno)
    && HolderOk(users, b.holder)
    && (b.dirty ==> b.valid)
    && (b.valid ==> b.data == view[b.blockno])
    && (b.valid && !b.dirty && b.holder == -1 ==> b.data == disk[b.blockno])
  }

  // Block k is in the cache.
  ghost predicate Cached(bufs: seq<Buf>, k: nat) {
    exists i :: 0 <= i < |bufs| && bufs[i].valid && bufs[i].blockno == k
  }

  ghost predicate Unique(bufs: seq<Buf>) {
    forall i, j :: 0 <= i < j < |bufs| && bufs[i].dev != 0 ==> !Same(bufs[j], bufs[i].dev, bufs[i].blockno)
  }

  ghost predicate CacheOk(bufs: seq<Buf>, users: seq<map<nat, Ref>>, disk: seq<Block>, view: seq<Block>) {
    && |users| == |bufs| && |view| == |disk|
    && (forall i :: 0 <= i < |bufs| ==> BufOk(bufs[i], users[i], disk, view))
    && Unique(bufs)
    && (forall k :: 0 <= k < |disk| && view[k] != disk[k] ==> Cached(bufs, k))
  }

  /** A buffer that is valid, clean and not locked equals its disk block. */
  lemma AgreesWithDisk(bufs: seq<Buf>, users: seq<map<nat, Ref>>, disk: seq<Block>, view: seq<Block>, i: nat)
    requires CacheOk(bufs, users, disk, view) && i < |bufs| && bufs[i].valid && !bufs[i].dirty && bufs[i].holder == -1
    ensures bufs[i].blockno < |disk| && bufs[i].data == disk[bufs[i].blockno] == view[bufs[i].blockno]
  {
    assert BufOk(bufs[i], users[i], disk, view);
  }

  /** Two buffers in use are for different blocks. */
  lemma OneBufferPerBlock(bufs: seq<Buf>, users: seq<map<nat, Ref>>, disk: seq<Block>, view: seq<Block>, i: nat, j: nat)
    requires CacheOk(bufs, users, disk, view) && i < |bufs| && j < |bufs| && i != j
    requires bufs[i].dev != 0 && bufs[j].dev != 0
    ensures bufs[i].dev == bufs[j].dev && bufs[i].blockno != bufs[j].blockno
  {
    assert BufOk(bufs[i], users[i], disk, view) && BufOk(bufs[j], users[j], disk, view);
    if i < j {
      assert !Same(bufs[j], bufs[i].dev, bufs[i].blockno);
    } else {
      assert !Same(bufs[i], bufs[j].dev, bufs[j].blockno);
    }
  }

  // A step on one buffer that keeps its block, its contents as seen by clients, and the disk.
  lemma StepBuf(bufs: seq<Buf>, users: seq<map<nat, Ref>>, disk: seq<Block>, view: seq<Block>, i: nat, b: Buf,
          u: map<nat, Ref>)
    requires CacheOk(bufs, users, disk, view) && i < |bufs| && BufOk(b, u, disk, view)
    requires Same(b, bufs[i].dev, bufs[i].blockno) && (bufs[i].valid ==> b.valid)
    ensures CacheOk(bufs[i := b], users[i := u], disk, view)
  {
    hide BufOk;
    forall k | 0 <= k < |disk| && view[k] != disk[k]
      ensures Cached(bufs[i := b], k)
    {
      var j :| 0 <= j < |bufs| && bufs[j].valid && bufs[j].blockno == k;
      assert bufs[i := b][j].valid && bufs[i := b][j].blockno == k;
    }
  }

  // The lock holder changes the buffer, the client's view and perhaps the disk at its own block only.
  lemma StepBlock(bufs: seq<Buf>, users: seq<map<nat, Ref>>, disk: seq<Block>, view: seq<Block>, i: nat, b: Buf,
          disk': seq<Block>, view': seq<Block>)
    requires CacheOk(bufs, users, disk, view) && i < |bufs| && bufs[i].dev != 0 && b.valid && b.blockno < |disk|
    requires Same(b, bufs[i].dev, bufs[i].blockno) && BufOk(b, users[i], disk', view')
    requires |disk'| == |disk| == |view|
    requires forall k :: 0 <= k < |disk| && k != b.blockno ==> disk'[k] == disk[k] && view'[k] == view[k]
    ensures CacheOk(bufs[i := b], users, disk', view')
  {
    var bufs' := bufs[i := b];
    forall j | 0 <= j < |bufs|
      ensures BufOk(bufs'[j], users[j], disk', view')
    {
      if j != i {
        assert BufOk(bufs[j], users[j], disk, view);
        if bufs[j].dev != 0 {
          OneBufferPerBlock(bufs, users, disk, view, i, j);
        }
      }
    }
    forall k | 0 <= k < |disk| && view'[k] != disk'[k]
      ensures Cached(bufs', k)
    {
      if k == b.blockno {
        assert bufs'[i].valid && bufs'[i].blockno == k;
      } else {
        var j :| 0 <= j < |bufs| && bufs[j].valid && bufs[j].blockno == k;
        assert bufs'[j].valid && bufs'[j].blockno == k;
      }
    }
  }

  // A buffer that is not in use holds nothing that the disk does not hold: it can take another block.
  lemma Recycle(bufs: seq<Buf>, users: seq<map<nat, Ref>>, disk: seq<Block>, view: seq<Block>, i: nat, b: Buf,
          u: map<nat, Ref>)
    requires CacheOk(bufs, users, disk, view) && i < |bufs| && Idle(bufs[i]) && BufOk(b, u, disk, view) && !b.valid
    requires forall j :: 0 <= j < |bufs| ==> !Same(bufs[j], b.dev, b.blockno)
    ensures users[i] == map[] && CacheOk(bufs[i := b], users[i := u], disk, view)
  {
    var bufs' := bufs[i := b];
    assert BufOk(bufs[i], users[i], disk, view);
    NoUsers(users[i], bufs[i].holder);
    forall k | 0 <= k < |disk| && view[k] != disk[k]
      ensures Cached(bufs', k)
    {
      var j :| 0 <= j < |bufs| && bufs[j].valid && bufs[j].blockno == k;
      assert bufs'[j].valid && bufs'[j].blockno == k;
    }
  }

  lemma NoUsers(users: map<nat, Ref>, holder: int)
    requires |users| == 0 && holder >= -1 && HolderOk(users, holder)
    ensures users == map[] && holder == -1
  {
    assert users.Keys == {};
  }

  class Cache {
    const n: nat                 // NBUF
    var bufs: seq<Buf>
    var next: seq<nat>
    var prev: seq<nat>
    var disk: seq<Block>
    ghost var ring: seq<nat>
    ghost var users: seq<map<nat, Ref>>
    ghost var view: seq<Block>   // the blocks as clients see them

    ghost predicate RingOk()
      reads this`next, this`prev, this`ring
    {
      Ring(next, prev, ring, n) && forall b :: 0 <= b < n ==> b in ring
    }

    ghost predicate Valid()
      reads this
    {
      RingOk() && |bufs| == n && CacheOk(bufs, users, disk, view)
    }

    /** binit: every buffer is on the ring; the view is the disk. */
    constructor (nbuf: nat, image: seq<Block>)
      ensures Valid() && n == nbuf && disk == image && view == image
    {
      n := nbuf;
      bufs := seq(nbuf, i => Buf(0, 0, false, false, 0, -1, []));
      disk, view := image, image;
      users := seq(nbuf, i => map[]);
      var nx: seq<nat>, pv: seq<nat> := seq(nbuf + 1, i => nbuf), seq(nbuf + 1, i => nbuf);
      ghost var rg: seq<nat> := [];
      var b := 0;
      while b < nbuf
        invariant 0 <= b <= nbuf && Ring(nx, pv, rg, nbuf)
        invariant forall c :: c in rg <==> 0 <= c < b
      {
        Pushed(nx, pv, rg, nbuf, b);
        var first := nx[nbuf];
        nx, pv := nx[b := first], pv[b := nbuf];
        pv := pv[first := b];
        nx := nx[nbuf := b];
        rg := [b] + rg;
        b := b + 1;
      }
      next, prev, ring := nx, pv, rg;
    }

    /** bget up to the wait for the lock: the buffer that has the block, or else the least recently used
        idle buffer, which takes the block; a panic only if the block is not cached and no buffer is idle.
        A buffer that is referenced, locked or dirty is never taken from its block. */
    method Get(pid: nat, blockno: nat) returns (b: nat, panicked: bool)
      requires Valid() && blockno < |disk|
      requires forall i :: 0 <= i < n && Same(bufs[i], DISK, blockno) ==> pid !in users[i]
      modifies this`bufs, this`users
      ensures Valid()
      ensures panicked ==> bufs == old(bufs) && users == old(users)
      ensures panicked <==> forall i :: 0 <= i < n ==> !Same(old(bufs)[i], DISK, blockno) && !Idle(old(bufs)[i])
      ensures !panicked ==> b < n && Same(bufs[b], DISK, blockno)
      ensures !panicked ==> users == Put(old(users), b, pid, Ref(Waiting, blockno))
      ensures !panicked ==> forall i :: 0 <= i < n && i != b ==> bufs[i] == old(bufs)[i]
      ensures !panicked ==> Same(old(bufs)[b], DISK, blockno) ||
                            (Idle(old(bufs)[b]) && old(users)[b] == map[] && old(bufs)[b].holder == -1)
      ensures !panicked && !Same(old(bufs)[b], DISK, blockno) ==> LeastRecent(old(bufs), ring, b)
      ensures !panicked ==> var was := old(bufs)[b];
                bufs[b] == if Same(was, DISK, blockno) then was.(refcnt := was.refcnt + 1)
                           else Buf(DISK, blockno, false, false, 1, -1, was.data)
    {
      hide CacheOk;
      Shape();
      var found;
      b, found := Lookup(blockno);
      panicked := false;
      if found {
        AddRef(pid, b);
        return;
      }
      b, found := FindIdle();
      if !found {
        return n, true;
      }
      ghost var fresh' := Buf(DISK, blockno, false, false, 1, -1, bufs[b].data);
      ghost var u := map[pid := Ref(Waiting, blockno)];
      assert BufOk(fresh', u, disk, view);
      Recycle(bufs, users, disk, view, b, fresh', u);
      NoHolder(b);
      bufs := bufs[b := Buf(DISK, blockno, false, false, 1, bufs[b].holder, bufs[b].data)];
      users := users[b := u];
    }

    lemma Shape()
      requires Valid()
      ensures |bufs| == |users| == n && |view| == |disk| && |next| == |prev| == n + 1
    {
    }

    lemma NoHolder(b: nat)
      requires Valid() && b < n && Idle(bufs[b])
      ensures bufs[b].holder == -1
    {
      assert BufOk(bufs[b], users[b], disk, view);
      NoUsers(users[b], bufs[b].holder);
    }

    // The first pass of bget, from the most recently used buffer.
    method Lookup(blockno: nat) returns (b: nat, found: bool)
      requires RingOk() && |bufs| == n
      ensures found ==> b < n && Same(bufs[b], DISK, blockno)
      ensures !found ==> forall i :: 0 <= i < n ==> !Same(bufs[i], DISK, blockno)
    {
      hide Ring;
      hide Nth;
      ghost var k := 1;
      Along(next, prev, ring, n, 0);
      b := next[n];
      while b != n
        invariant 1 <= k <= |ring| + 1 && b == Nth(ring, n, k) && b <= n && (b == n <==> k == |ring| + 1)
        invariant forall j :: 0 <= j < k - 1 ==> !Same(bufs[ring[j]], DISK, blockno)
        decreases |ring| + 1 - k
      {
        if bufs[b].dev == DISK && bufs[b].blockno == blockno {
          return b, true;
        }
        Along(next, prev, ring, n, k);
        OnRing(ring, n, k);
        b := next[b];
        k := k + 1;
      }
      forall i | 0 <= i < n
        ensures !Same(bufs[i], DISK, blockno)
      {
        assert i in ring;
      }
      found := false;
    }

    // The second pass of bget, from the least recently used buffer.
    method FindIdle() returns (b: nat, found: bool)
      requires RingOk() && |bufs| == n
      ensures found ==> b < n && Idle(bufs[b]) && LeastRecent(bufs, ring, b)
      ensures !found ==> forall i :: 0 <= i < n ==> !Idle(bufs[i])
    {
      hide LeastRecent;
      hide Ring;
      hide Nth;
      ghost var k := |ring|;
      Along(next, prev, ring, n, k);
      b := prev[n];
      while b != n
        invariant 0 <= k <= |ring| && b == Nth(ring, n, k) && b <= n && (b == n <==> k == 0)
        invariant forall j :: k <= j < |ring| ==> !Idle(bufs[ring[j]])
        decreases k
      {
        if bufs[b].refcnt == 0 && !bufs[b].dirty {
          OnRing(ring, n, k);
          LastIdle(bufs, ring, k - 1);
          return b, true;
        }
        Along(next, prev, ring, n, k - 1);
        OnRing(ring, n, k);
        b := prev[b];
        k := k - 1;
      }
      forall i | 0 <= i < n
        ensures !Idle(bufs[i])
      {
        assert i in ring;
      }
      found := false;
    }

    // One more reference.
    method AddRef(pid: nat, b: nat)
      requires Valid() && b < n && pid !in users[b] && bufs[b].dev == DISK
      modifies this`bufs, this`users
      ensures Valid() && users == Put(old(users), b, pid, Ref(Waiting, old(bufs)[b].blockno))
      ensures bufs == old(bufs)[b := old(bufs)[b].(refcnt := old(bufs)[b].refcnt + 1)]
    {
      hide Unique;
      var buf := bufs[b].(refcnt := bufs[b].refcnt + 1);
      ghost var u := users[b][pid := Ref(Waiting, buf.blockno)];
      assert BufOk(bufs[b], users[b], disk, view);
      assert u.Keys == users[b].Keys + {pid};
      assert BufOk(buf, u, disk, view);
      StepBuf(bufs, users, disk, view, b, buf, u);
      bufs, users := bufs[b := buf], users[b := u];
    }

    // A process that has a reference moves on to another phase of using the buffer.
    ghost method MoveOn(pid: nat, b: nat, phase: Phase, buf: Buf)
      requires Valid() && b < n && pid in users[b]
      requires Same(buf, bufs[b].dev, bufs[b].blockno) && (bufs[b].valid ==> buf.valid)
      requires BufOk(buf, users[b][pid := Ref(phase, bufs[b].blockno)], disk, view)
      modifies this`users
      ensures users == Put(old(users), b, pid, Ref(phase, bufs[b].blockno))
      ensures CacheOk(bufs[b := buf], users, disk, view)
    {
      hide BufOk;
      ghost var u := users[b][pid := Ref(phase, bufs[b].blockno)];
      StepBuf(bufs, users, disk, view, b, buf, u);
      users := users[b := u];
    }

    /** acquiresleep: get the lock, or (false) go on waiting for it. */
    method Acquire(pid: nat, b: nat) returns (got: bool)
      requires Valid() && b < n && pid in users[b] && users[b][pid].phase == Waiting
      modifies this`bufs, this`users
      ensures Valid() && (got <==> old(bufs)[b].holder == -1)
      ensures !got ==> bufs == old(bufs) && users == old(users)
      ensures got ==> bufs == old(bufs)[b := old(bufs)[b].(holder := pid)]
      ensures got ==> users == Put(old(users), b, pid, Ref(Holding, old(users)[b][pid].blockno))
    {
      hide Unique;
      assert BufOk(bufs[b], users[b], disk, view);
      got := bufs[b].holder == -1;
      if got {
        var buf := bufs[b].(holder := pid);
        assert users[b][pid := Ref(Holding, buf.blockno)].Keys == users[b].Keys;
        MoveOn(pid, b, Holding, buf);
        bufs := bufs[b := buf];
      }
    }

    /** iderw: write a dirty buffer, read one that is not valid. */
    method IdeRw(pid: nat, b: nat) returns (panicked: bool)
      requires Valid() && b < n
      modifies this`bufs, this`disk
      ensures panicked <==> old(bufs)[b].holder != pid || (old(bufs)[b].valid && !old(bufs)[b].dirty)
      ensures panicked ==> bufs == old(bufs) && disk == old(disk)
      ensures !panicked ==> Valid() && old(bufs)[b].blockno < |old(disk)|
      ensures !panicked && old(bufs)[b].dirty ==> disk == old(disk)[old(bufs)[b].blockno := old(bufs)[b].data]
      ensures !panicked && old(bufs)[b].dirty ==> bufs == old(bufs)[b := old(bufs)[b].(dirty := false)]
      ensures !panicked && !old(bufs)[b].dirty ==> disk == old(disk)
      ensures !panicked && !old(bufs)[b].dirty ==>
                bufs == old(bufs)[b := old(bufs)[b].(valid := true, data := old(disk)[old(bufs)[b].blockno])]
    {
      hide Unique;
      hide RingOk;
      assert BufOk(bufs[b], users[b], disk, view);
      assert bufs[b].holder == pid ==> pid in users[b];
      panicked := bufs[b].holder != pid || (bufs[b].valid && !bufs[b].dirty) || bufs[b].dev != DISK ||
                  bufs[b].blockno >= |disk|;
      if panicked {
        return;
      }
      var buf, image := bufs[b], disk;
      if buf.dirty {
        buf := buf.(dirty := false);
        image := disk[buf.blockno := buf.data];
      } else {
        buf := buf.(data := disk[buf.blockno]);
        NotCached(bufs, users, disk, view, b);
      }
      buf := buf.(valid := true);
      assert BufOk(buf, users[b], image, view);
      StepBlock(bufs, users, disk, view, b, buf, image, view);
      bufs, disk := bufs[b := buf], image;
    }

    /** The end of bread: the buffer holds the block as clients see it, the one that was asked for. */
    method ReadIn(pid: nat, b: nat)
      requires Valid() && b < n && bufs[b].holder == pid
      modifies this`bufs, this`disk
      ensures Valid() && disk == old(disk) && pid in users[b]
      ensures bufs[b].valid && users[b][pid].blockno < |view| && bufs[b].data == view[users[b][pid].blockno]
      ensures Same(bufs[b], DISK, users[b][pid].blockno)
      ensures bufs == old(bufs)[b := old(bufs)[b].(valid := true, data := bufs[b].data)]
    {
      hide Unique;
      hide RingOk;
      assert BufOk(bufs[b], users[b], disk, view);
      if !bufs[b].valid {
        var panicked := IdeRw(pid, b);
      }
      assert BufOk(bufs[b], users[b], disk, view);
    }

    /** The lock holder changes the data, which every client sees from now on; the disk stays. */
    method Modify(pid: nat, b: nat, data: Block)
      requires Valid() && b < n && bufs[b].holder == pid && bufs[b].valid
      modifies this`bufs, this`view
      ensures Valid() && bufs[b].blockno < |old(view)| && view == old(view)[bufs[b].blockno := data]
      ensures bufs == old(bufs)[b := old(bufs)[b].(data := data)]
    {
      hide Unique;
      hide RingOk;
      assert BufOk(bufs[b], users[b], disk, view);
      var buf := bufs[b].(data := data);
      ghost var view' := view[buf.blockno := data];
      assert BufOk(buf, users[b], disk, view');
      StepBlock(bufs, users, disk, view, b, buf, disk, view');
      bufs, view := bufs[b := buf], view';
    }

    /** log_write's mark on the buffer: it stays in the cache until a write. */
    method MarkDirty(pid: nat, b: nat)
      requires Valid() && b < n && bufs[b].holder == pid && bufs[b].valid
      modifies this`bufs
      ensures Valid() && bufs == old(bufs)[b := old(bufs)[b].(dirty := true)]
    {
      hide Unique;
      hide RingOk;
      assert BufOk(bufs[b], users[b], disk, view);
      var buf := bufs[b].(dirty := true);
      assert BufOk(buf, users[b], disk, view);
      StepBuf(bufs, users, disk, view, b, buf, users[b]);
      assert users[b := users[b]] == users;
      bufs := bufs[b := buf];
    }

    /** bwrite: the block goes to disk as clients see it; nothing else on the disk changes. */
    method BWrite(pid: nat, b: nat) returns (panicked: bool)
      requires Valid() && b < n && bufs[b].valid
      modifies this`bufs, this`disk
      ensures Valid() && (panicked <==> old(bufs)[b].holder != pid)
      ensures panicked ==> bufs == old(bufs) && disk == old(disk)
      ensures !panicked ==> bufs[b].blockno < |view| == |old(disk)|
      ensures !panicked ==> disk == old(disk)[bufs[b].blockno := view[bufs[b].blockno]]
      ensures !panicked ==> bufs == old(bufs)[b := old(bufs)[b].(dirty := false)]
    {
      hide CacheOk;
      hide RingOk;
      Shape();
      panicked := bufs[b].holder != pid;
      if !panicked {
        MarkDirty(pid, b);
        var p := IdeRw(pid, b);
        InView(b);
      }
    }

    lemma InView(b: nat)
      requires Valid() && b < n && bufs[b].valid
      ensures bufs[b].blockno < |view| && bufs[b].data == view[bufs[b].blockno]
    {
      assert BufOk(bufs[b], users[b], disk, view);
    }

    /** brelse up to the release of the lock, by a client that has written back or marked what it changed. */
    method Release(pid: nat, b: nat) returns (panicked: bool)
      requires Valid() && b < n
      requires bufs[b].holder == pid && bufs[b].valid && !bufs[b].dirty ==>
                 bufs[b].blockno < |disk| && bufs[b].data == disk[bufs[b].blockno]
      modifies this`bufs, this`users
      ensures Valid() && (panicked <==> old(bufs)[b].holder != pid)
      ensures panicked ==> bufs == old(bufs) && users == old(users)
      ensures !panicked ==> bufs == old(bufs)[b := old(bufs)[b].(holder := -1)] && pid in old(users)[b]
      ensures !panicked ==> users == Put(old(users), b, pid, Ref(Dropping, old(users)[b][pid].blockno))
    {
      hide Unique;
      assert BufOk(bufs[b], users[b], disk, view);
      panicked := bufs[b].holder != pid;
      if !panicked {
        var buf := bufs[b].(holder := -1);
        assert users[b][pid := Ref(Dropping, buf.blockno)].Keys == users[b].Keys;
        MoveOn(pid, b, Dropping, buf);
        bufs := bufs[b := buf];
      }
    }

    /** The end of brelse: the reference goes, and with the last one the buffer moves to the front. */
    method DropRef(pid: nat, b: nat)
      requires Valid() && b < n && pid in users[b] && users[b][pid].phase == Dropping
      modifies this`bufs, this`users, this`next, this`prev, this`ring
      ensures Valid() && users == old(users)[b := old(users)[b] - {pid}]
      ensures bufs == old(bufs)[b := old(bufs)[b].(refcnt := old(bufs)[b].refcnt - 1)]
      ensures bufs[b].refcnt > 0 ==> ring == old(ring)
      ensures bufs[b].refcnt == 0 ==>
                exists j :: 0 <= j < |old(ring)| && old(ring)[j] == b && ring == [b] + Without(old(ring), j)
    {
      hide Unique;
      hide Ring;
      assert BufOk(bufs[b], users[b], disk, view);
      var buf := bufs[b].(refcnt := bufs[b].refcnt - 1);
      ghost var u := users[b] - {pid};
      assert u.Keys == users[b].Keys - {pid};
      assert BufOk(buf, u, disk, view);
      StepBuf(bufs, users, disk, view, b, buf, u);
      bufs, users := bufs[b := buf], users[b := u];
      if buf.refcnt == 0 {
        MoveToFront(b);
      }
    }

    // Take the buffer out of the ring and put it in front.
    method MoveToFront(b: nat)
      requires RingOk() && b < n
      modifies this`next, this`prev, this`ring
      ensures RingOk()
      ensures exists j :: 0 <= j < |old(ring)| && old(ring)[j] == b && ring == [b] + Without(old(ring), j)
    {
      assert b in ring;
      ghost var j :| 0 <= j < |ring| && ring[j] == b;
      InRing(ring, n, j);
      Unlinked(next, prev, ring, n, j);
      Pushed(next[prev[b] := next[b]], prev[next[b] := prev[b]], Without(ring, j), n, b);
      StillIn(ring, n, j);
      prev := prev[next[b] := prev[b]];
      next := next[prev[b] := next[b]];
      next := next[b := next[n]];
      prev := prev[b := n];
      prev := prev[next[n] := b];
      next := next[n := b];
      ring := [b] + Without(ring, j);
    }
  }

  // Of the idle buffers, b is last on the ring.
  ghost predicate LeastRecent(bufs: seq<Buf>, ring: seq<nat>, b: nat) {
    exists k :: 0 <= k < |ring| && ring[k] == b &&
                forall j :: k < j < |ring| && ring[j] < |bufs| ==> !Idle(bufs[ring[j]])
  }

  lemma OnRing(ring: seq<nat>, n: nat, k: nat)
    requires 1 <= k <= |ring|
    ensures Nth(ring, n, k) == ring[k - 1]
  {
  }

  lemma LastIdle(bufs: seq<Buf>, ring: seq<nat>, k: nat)
    requires k < |ring| && forall j :: k < j < |ring| && ring[j] < |bufs| ==> !Idle(bufs[ring[j]])
    ensures LeastRecent(bufs, ring, ring[k])
  {
  }

  lemma InRing(ring: seq<nat>, n: nat, j: nat)
    requires Apart(ring, n) && j < |ring|
    ensures ring[j] !in Without(ring, j)
  {
  }

  lemma StillIn(ring: seq<nat>, n: nat, j: nat)
    requires j < |ring| && forall b :: 0 <= b < n ==> b in ring
    ensures forall b :: 0 <= b < n ==> b in [ring[j]] + Without(ring, j)
  {
    forall b | 0 <= b < n
      ensures b in [ring[j]] + Without(ring, j)
    {
      assert b in ring;
      var i :| 0 <= i < |ring| && ring[i] == b;
      if i != j {
        assert Without(ring, j)[if i < j then i else i - 1] == b;
      }
    }
  }

  // A block whose only buffer is not valid is, for clients, what the disk has.
  lemma NotCached(bufs: seq<Buf>, users: seq<map<nat, Ref>>, disk: seq<Block>, view: seq<Block>, i: nat)
    requires CacheOk(bufs, users, disk, view) && i < |bufs| && bufs[i].dev != 0 && !bufs[i].valid
    ensures bufs[i].blockno < |disk| && view[bufs[i].blockno] == disk[bufs[i].blockno]
  {
    assert BufOk(bufs[i], users[i], disk, view);
    var k := bufs[i].blockno;
    forall j | 0 <= j < |bufs| && bufs[j].valid
      ensures bufs[j].blockno != k
    {
      assert BufOk(bufs[j], users[j], disk, view);
      OneBufferPerBlock(bufs, users, disk, view, i, j);
    }
  }
}
