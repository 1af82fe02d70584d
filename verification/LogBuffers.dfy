/** The log over the buffer cache: what LogLayer keeps as the contents of pinned buffers is the dirty part of the
    cache of Bio.  bread, brelse, log_write and the writes of a commit keep the two together, so what a commit reads
    from the cache is what was logged, and what it leaves on the disk is what LogLayer says. */
module LogBuffers {
  import opened RedoLog
  import opened GroupCommit
  import opened LogSpace
  import opened Bio
  import opened LogLayer

  // Blocks with the contents that were logged.
  type PinMap = map<nat, RedoLog.Block>

  /** The dirty buffers are those of the blocks in `pinned`; one that is not locked holds what was logged. */
  ghost predicate Pins(bufs: seq<Buf>, pinned: PinMap) {
    && (forall i :: 0 <= i < |bufs| && bufs[i].dirty ==> bufs[i].dev == DISK && bufs[i].blockno in pinned)
    && (forall i :: 0 <= i < |bufs| && bufs[i].dirty && bufs[i].holder == -1 ==>
          bufs[i].data == pinned[bufs[i].blockno])
    && (forall b :: b in pinned ==> Dirty(bufs, b))
  }

  ghost predicate Dirty(bufs: seq<Buf>, b: nat) {
    exists i :: 0 <= i < |bufs| && Same(bufs[i], DISK, b) && bufs[i].dirty
  }

  ghost predicate Unlocked(bufs: seq<Buf>, b: nat) {
    forall i :: 0 <= i < |bufs| && Same(bufs[i], DISK, b) ==> bufs[i].holder == -1
  }

  /** To clients a block that nobody has locked is what was logged last, or what the disk has. */
  lemma ViewIsLog(bufs: seq<Buf>, users: seq<map<nat, Ref>>, disk: seq<Bio.Block>, view: seq<Bio.Block>,
                  pinned: PinMap, b: nat)
    requires CacheOk(bufs, users, disk, view) && Pins(bufs, pinned) && b < |disk| && Unlocked(bufs, b)
    ensures view[b] == if b in pinned then pinned[b] else disk[b]
  {
    if b in pinned {
      var i :| 0 <= i < |bufs| && Same(bufs[i], DISK, b) && bufs[i].dirty;
      assert BufOk(bufs[i], users[i], disk, view);
    } else {
      forall i | 0 <= i < |bufs| && bufs[i].valid && bufs[i].blockno == b ensures view[b] == disk[b] {
        assert BufOk(bufs[i], users[i], disk, view);
      }
    }
  }

  // A change of one buffer that leaves a dirty one in place, and its contents too when it is unlocked.
  ghost predicate Harmless(old': Buf, b: Buf, pinned: PinMap) {
    && b.dirty == old'.dirty
    && (b.dirty ==> Same(b, old'.dev, old'.blockno))
    && (b.dirty && b.holder == -1 ==>
          (old'.holder == -1 && b.data == old'.data) || (b.blockno in pinned && b.data == pinned[b.blockno]))
  }

  lemma PinsStep(bufs: seq<Buf>, i: nat, b: Buf, pinned: PinMap)
    requires Pins(bufs, pinned) && i < |bufs| && Harmless(bufs[i], b, pinned)
    ensures Pins(bufs[i := b], pinned)
  {
    forall k | k in pinned ensures Dirty(bufs[i := b], k) {
      var j :| 0 <= j < |bufs| && Same(bufs[j], DISK, k) && bufs[j].dirty;
      assert Same(bufs[i := b][j], DISK, k) && bufs[i := b][j].dirty;
    }
  }

  // The buffer is marked: its block and contents are pinned.
  lemma PinsMore(bufs: seq<Buf>, i: nat, data: RedoLog.Block, pinned: PinMap)
    requires Pins(bufs, pinned) && Unique(bufs) && i < |bufs| && bufs[i].dev == DISK && bufs[i].data == data
    ensures Pins(bufs[i := bufs[i].(dirty := true)], pinned[bufs[i].blockno := data])
  {
    var bufs', pinned' := bufs[i := bufs[i].(dirty := true)], pinned[bufs[i].blockno := data];
    forall k | k in pinned' ensures Dirty(bufs', k) {
      if k == bufs[i].blockno {
        assert Same(bufs'[i], DISK, k);
      } else {
        var j :| 0 <= j < |bufs| && Same(bufs[j], DISK, k) && bufs[j].dirty;
        assert Same(bufs'[j], DISK, k) && bufs'[j].dirty;
      }
    }
    forall j | 0 <= j < |bufs'| && bufs'[j].dirty && j != i ensures bufs[j].blockno != bufs[i].blockno {
      assert !Same(bufs[if j < i then i else j], DISK, bufs[if j < i then j else i].blockno);
    }
  }

  // The buffer is written: its block is pinned no more.
  lemma PinsLess(bufs: seq<Buf>, i: nat, pinned: PinMap)
    requires Pins(bufs, pinned) && Unique(bufs) && i < |bufs| && bufs[i].dev == DISK
    ensures Pins(bufs[i := bufs[i].(dirty := false)], pinned - {bufs[i].blockno})
  {
    var bufs' := bufs[i := bufs[i].(dirty := false)];
    forall k | k in pinned - {bufs[i].blockno} ensures Dirty(bufs', k) {
      var j :| 0 <= j < |bufs| && Same(bufs[j], DISK, k) && bufs[j].dirty;
      assert Same(bufs'[j], DISK, k) && bufs'[j].dirty;
    }
    forall j | 0 <= j < |bufs'| && bufs'[j].dirty ensures bufs'[j].blockno != bufs[i].blockno {
      assert !Same(bufs[if j < i then i else j], DISK, bufs[if j < i then j else i].blockno);
    }
  }

  // ------------------------------------------------------------------- cache and log

  /** The cache and the log have the same disk, and the pinned buffers of the log are the dirty ones of the cache. */
  ghost predicate Joined(c: Cache, log: Log)
    reads c, log, log.lhBlock
  {
    c.Valid() && log.Valid() && c.disk == log.disk && Pins(c.bufs, log.cache)
  }

  /** log_write on a locked buffer: the block is logged with what the buffer holds, and the buffer stays. */
  method LogWrite(c: Cache, log: Log, pid: nat, b: nat) returns (panicked: bool)
    requires Joined(c, log) && b < c.n && c.bufs[b].holder == pid && c.bufs[b].valid
    requires log.g.Home(c.bufs[b].blockno) && |c.bufs[b].data| == RedoLog.BLOCK_WORDS
    modifies c`bufs, log, log.lhBlock
    ensures Joined(c, log)
    ensures panicked <==> GroupCommit.LogWritePanics(log.g, |old(log.Lh())|, old(log.outstanding))
    ensures panicked ==> c.bufs == old(c.bufs) && log.cache == old(log.cache)
    ensures !panicked ==> log.cache == old(log.cache)[old(c.bufs)[b].blockno := old(c.bufs)[b].data]
    ensures !panicked ==> c.bufs == old(c.bufs)[b := old(c.bufs)[b].(dirty := true)]
  {
    hide BufOk;
    panicked := log.LogWrite(c.bufs[b].blockno, c.bufs[b].data);
    if !panicked {
      InUseBuffer(c, pid, b);
      PinsMore(c.bufs, b, c.bufs[b].data, old(log.cache));
      c.MarkDirty(pid, b);
    }
  }

  lemma InUseBuffer(c: Cache, pid: nat, b: nat)
    requires c.Valid() && b < c.n && c.bufs[b].holder == pid
    ensures c.bufs[b].dev == DISK && Unique(c.bufs)
  {
    assert BufOk(c.bufs[b], c.users[b], c.disk, c.view);
  }

  // ------------------------------------------------------------- commit through the cache

  // Nobody uses buffer i.
  ghost predicate Free(c: Cache, i: nat)
    requires i < |c.bufs| && i < |c.users|
    reads c`bufs, c`users
  {
    c.bufs[i].holder == -1 && c.bufs[i].refcnt == 0 && c.users[i] == map[]
  }

  // Nobody uses a buffer other than those in `but`.
  ghost predicate Calm(c: Cache, but: set<nat>)
    reads c`bufs, c`users
  {
    |c.bufs| == |c.users| == c.n && forall i :: 0 <= i < c.n && i !in but ==> Free(c, i)
  }

  /** bread of a block that nobody uses: its buffer holds what was logged last, if the block is pinned, and what the
      disk has otherwise; no pinned buffer is given up for it. */
  method Bread(c: Cache, pid: nat, blockno: nat, ghost but: set<nat>, ghost pinned: PinMap)
    returns (b: nat, panicked: bool)
    requires c.Valid() && Calm(c, but) && Pins(c.bufs, pinned) && blockno < |c.disk|
    requires forall i :: i in but && i < c.n ==> !Same(c.bufs[i], DISK, blockno) && c.bufs[i].refcnt != 0
    modifies c
    ensures c.Valid() && Pins(c.bufs, pinned) && c.disk == old(c.disk) && c.view == old(c.view)
    ensures panicked ==> c.bufs == old(c.bufs) && c.users == old(c.users)
    ensures panicked <==> forall i :: 0 <= i < c.n ==> !Same(old(c.bufs)[i], DISK, blockno) && !Bio.Idle(old(c.bufs)[i])
    ensures !panicked ==> b < c.n && b !in but && Calm(c, but + {b}) && Held(c, pid, b, blockno)
    ensures !panicked ==> forall i :: 0 <= i < c.n && i != b ==>
              c.bufs[i] == old(c.bufs)[i] && c.users[i] == old(c.users)[i]
    ensures !panicked ==> c.bufs[b].data == if blockno in pinned then pinned[blockno] else c.disk[blockno]
    ensures !panicked ==> c.bufs[b].dirty == (blockno in pinned)
  {
    hide BufOk;
    hide CacheOk;
    hide Pins;
    c.Shape();
    ViewIsLog(c.bufs, c.users, c.disk, c.view, pinned, blockno);
    b, panicked := c.Get(pid, blockno);
    if panicked {
      return;
    }
    assert c.bufs == old(c.bufs)[b := c.bufs[b]];
    PinsStep(old(c.bufs), b, c.bufs[b], pinned);
    ghost var bufs1 := c.bufs;
    var got := c.Acquire(pid, b);
    PinsStep(bufs1, b, c.bufs[b], pinned);
    ghost var bufs2 := c.bufs;
    c.ReadIn(pid, b);
    PinsStep(bufs2, b, c.bufs[b], pinned);
    DirtyIff(c, b, blockno, pinned);
  }

  // The process has buffer b locked for this block.
  ghost predicate Held(c: Cache, pid: nat, b: nat, blockno: nat)
    reads c`bufs, c`users
  {
    && b < |c.bufs| && b < |c.users| && Same(c.bufs[b], DISK, blockno) && c.bufs[b].holder == pid && c.bufs[b].valid
    && c.bufs[b].refcnt == 1 && c.users[b] == map[pid := Ref(Holding, blockno)]
  }

  lemma OneBuffer(bufs: seq<Buf>, i: nat, j: nat, blockno: nat)
    requires Unique(bufs) && i < |bufs| && j < |bufs| && Same(bufs[i], DISK, blockno) && Same(bufs[j], DISK, blockno)
    ensures i == j
  {
  }

  lemma DirtyIff(c: Cache, b: nat, blockno: nat, pinned: PinMap)
    requires c.Valid() && b < c.n && Same(c.bufs[b], DISK, blockno) && Pins(c.bufs, pinned)
    ensures c.bufs[b].dirty == (blockno in pinned)
  {
    hide BufOk;
    if blockno in pinned {
      var i :| 0 <= i < |c.bufs| && Same(c.bufs[i], DISK, blockno) && c.bufs[i].dirty;
      OneBuffer(c.bufs, i, b, blockno);
    }
  }

  /** brelse of a buffer whose contents are on the disk or pinned. */
  method Brelse(c: Cache, pid: nat, b: nat, ghost blockno: nat, ghost but: set<nat>, ghost pinned: PinMap)
    requires c.Valid() && Calm(c, but) && b in but && Held(c, pid, b, blockno) && Pins(c.bufs, pinned)
    requires blockno < |c.disk|
    requires c.bufs[b].data == if c.bufs[b].dirty && blockno in pinned then pinned[blockno] else c.disk[blockno]
    modifies c
    ensures c.Valid() && Calm(c, but - {b}) && Pins(c.bufs, pinned) && c.disk == old(c.disk)
    ensures forall i :: 0 <= i < c.n && i != b ==> c.bufs[i] == old(c.bufs)[i] && c.users[i] == old(c.users)[i]
  {
    hide BufOk;
    hide CacheOk;
    c.Shape();
    var p := c.Release(pid, b);
    PinsStep(old(c.bufs), b, c.bufs[b], pinned);
    ghost var bufs1 := c.bufs;
    c.Shape();
    c.DropRef(pid, b);
    PinsStep(bufs1, b, c.bufs[b], pinned);
    assert c.users[b] == map[];
  }

  // ----------------------------------------------------------------- how many are dirty

  ghost function DirtyBlocks(bufs: seq<Buf>): set<nat> {
    if bufs == [] then {}
    else
      var b := bufs[|bufs| - 1];
      DirtyBlocks(bufs[..|bufs| - 1]) + if b.dirty then {b.blockno} else {}
  }

  lemma {:induction false} DirtyMember(bufs: seq<Buf>, k: nat)
    ensures k in DirtyBlocks(bufs) <==> exists i :: 0 <= i < |bufs| && bufs[i].dirty && bufs[i].blockno == k
  {
    if bufs != [] {
      var n := |bufs| - 1;
      DirtyMember(bufs[..n], k);
      if k in DirtyBlocks(bufs[..n]) {
        var i :| 0 <= i < n && bufs[..n][i].dirty && bufs[..n][i].blockno == k;
        assert bufs[i].dirty && bufs[i].blockno == k;
      }
      if i :| 0 <= i < n && bufs[i].dirty && bufs[i].blockno == k {
        assert bufs[..n][i].dirty && bufs[..n][i].blockno == k;
      }
    }
  }

  lemma UniquePrefix(bufs: seq<Buf>, n: nat)
    requires Unique(bufs) && n < |bufs|
    ensures Unique(bufs[..n])
    ensures forall i :: 0 <= i < n && bufs[i].dev != 0 ==> !Same(bufs[n], bufs[i].dev, bufs[i].blockno)
  {
  }

  // Dirty buffers are for different blocks, so there are as many dirty blocks as buffers only if all are dirty.
  lemma {:induction false} DirtyCount(bufs: seq<Buf>)
    requires Unique(bufs) && forall i :: 0 <= i < |bufs| && bufs[i].dirty ==> bufs[i].dev == DISK
    ensures |DirtyBlocks(bufs)| <= |bufs|
    ensures |DirtyBlocks(bufs)| == |bufs| <==> forall i :: 0 <= i < |bufs| ==> bufs[i].dirty
  {
    hide Unique;
    if bufs != [] {
      var n := |bufs| - 1;
      UniquePrefix(bufs, n);
      DirtyCount(bufs[..n]);
      if bufs[n].dirty {
        DirtyMember(bufs[..n], bufs[n].blockno);
      }
    }
  }

  /** With nobody using the cache, bread of a block that is not pinned panics for want of a buffer if and only if every
      buffer is pinned. */
  lemma NoRoomIff(c: Cache, blockno: nat, pinned: PinMap)
    requires c.Valid() && Calm(c, {}) && Pins(c.bufs, pinned) && blockno !in pinned
    ensures |pinned| <= c.n
    ensures (forall i :: 0 <= i < c.n ==> !Same(c.bufs[i], DISK, blockno) && !Bio.Idle(c.bufs[i])) <==> |pinned| == c.n
  {
    hide BufOk;
    DirtyCount(c.bufs);
    forall k ensures k in DirtyBlocks(c.bufs) <==> k in pinned.Keys {
      DirtyMember(c.bufs, k);
      if k in pinned {
        assert Dirty(c.bufs, k);
      }
    }
    assert DirtyBlocks(c.bufs) == pinned.Keys && |pinned.Keys| == |pinned|;
    forall i | 0 <= i < c.n
      ensures !Same(c.bufs[i], DISK, blockno) && !Bio.Idle(c.bufs[i]) ==> c.bufs[i].dirty
      ensures c.bufs[i].dirty ==> !Same(c.bufs[i], DISK, blockno) && !Bio.Idle(c.bufs[i])
    {
      assert Free(c, i);
    }
  }

  // -------------------------------------------------------------------- block by block

  // New data into a locked buffer and to the disk.  The block is pinned no more, if it was.
  method WriteOut(c: Cache, pid: nat, b: nat, data: RedoLog.Block, ghost at: nat, ghost but: set<nat>,
                  ghost pinned: PinMap)
    requires c.Valid() && Calm(c, but) && b in but && Held(c, pid, b, at) && Pins(c.bufs, pinned) && at < |c.disk|
    modifies c
    ensures c.Valid() && Calm(c, but) && Held(c, pid, b, at) && Pins(c.bufs, pinned - {at})
    ensures c.disk == old(c.disk)[at := data] && c.bufs[b].data == data && !c.bufs[b].dirty
    ensures c.users == old(c.users) && forall i :: 0 <= i < c.n && i != b ==> c.bufs[i] == old(c.bufs)[i]
  {
    hide BufOk;
    hide CacheOk;
    c.Shape();
    c.Modify(pid, b, data);
    PinsStep(old(c.bufs), b, c.bufs[b], pinned);
    InUseBuffer(c, pid, b);
    PinsLess(c.bufs, b, pinned);
    var panicked := c.BWrite(pid, b);
  }

  // The body of write_log's loop: a pinned block goes to its log block.
  method ToLog(c: Cache, pid: nat, at: nat, home: nat, ghost pinned: PinMap) returns (ok: bool)
    requires c.Valid() && Calm(c, {}) && Pins(c.bufs, pinned)
    requires home in pinned && at !in pinned && at < |c.disk| && home < |c.disk|
    modifies c
    ensures ok <==> |pinned| < c.n
    ensures ok ==> c.Valid() && Calm(c, {}) && Pins(c.bufs, pinned) && c.disk == old(c.disk)[at := pinned[home]]
  {
    hide BufOk;
    hide CacheOk;
    hide Pins;
    NoRoomIff(c, at, pinned);
    var to, panicked := Bread(c, pid, at, {}, pinned);
    if panicked {
      return false;
    }
    PinnedCached(c.bufs, pinned, home);
    var from;
    from, panicked := Bread(c, pid, home, {to}, pinned);
    assert {to} + {from} == {to, from} && pinned - {at} == pinned;
    WriteOut(c, pid, to, c.bufs[from].data, at, {to, from}, pinned);
    Brelse(c, pid, from, home, {to, from}, pinned);
    assert {to, from} - {from} == {to};
    Brelse(c, pid, to, at, {to}, pinned);
    assert {to} - {to} == {};
    ok := true;
  }

  lemma PinnedCached(bufs: seq<Buf>, pinned: PinMap, b: nat)
    requires Pins(bufs, pinned) && b in pinned
    ensures exists i :: 0 <= i < |bufs| && Same(bufs[i], DISK, b)
  {
    assert Dirty(bufs, b);
  }

  // The body of install_trans's loop: the log block goes home, and the home block is pinned no more.
  method ToHome(c: Cache, pid: nat, at: nat, home: nat, ghost pinned: PinMap) returns (ok: bool)
    requires c.Valid() && Calm(c, {}) && Pins(c.bufs, pinned)
    requires home in pinned && at !in pinned && at < |c.disk| && home < |c.disk| && |c.disk[at]| == BLOCK_WORDS
    modifies c
    ensures ok <==> |pinned| < c.n
    ensures ok ==> c.Valid() && Calm(c, {}) && Pins(c.bufs, pinned - {home})
    ensures ok ==> c.disk == old(c.disk)[home := old(c.disk)[at]]
  {
    hide BufOk;
    hide CacheOk;
    hide Pins;
    NoRoomIff(c, at, pinned);
    var l, panicked := Bread(c, pid, at, {}, pinned);
    if panicked {
      return false;
    }
    PinnedCached(c.bufs, pinned, home);
    var b;
    b, panicked := Bread(c, pid, home, {l}, pinned);
    assert {l} + {b} == {l, b};
    WriteOut(c, pid, b, c.bufs[l].data, home, {l, b}, pinned);
    Brelse(c, pid, l, at, {l, b}, pinned - {home});
    assert {l, b} - {l} == {b};
    Brelse(c, pid, b, home, {b}, pinned - {home});
    assert {b} - {b} == {};
    ok := true;
  }

  // The count and the entries in the data of the header block.
  method HeaderData(hb: RedoLog.Block, bs: seq<nat>) returns (h: RedoLog.Block)
    requires |bs| + 1 < BLOCK_WORDS
    ensures h == WriteHead(hb, bs)
  {
    h := hb[0 := |bs|];
    var i := 0;
    while i < |bs|
      invariant 0 <= i <= |bs| && h == [|bs|] + bs[..i] + hb[1 + i..]
    {
      h := h[1 + i := bs[i]];
      i := i + 1;
    }
  }

  // write_head: count and entries into the header block.
  method PutHeader(c: Cache, pid: nat, at: nat, bs: seq<nat>, ghost pinned: PinMap) returns (ok: bool)
    requires c.Valid() && Calm(c, {}) && Pins(c.bufs, pinned) && at !in pinned && at < |c.disk|
    requires |c.disk[at]| == RedoLog.BLOCK_WORDS && |bs| + 1 < RedoLog.BLOCK_WORDS
    modifies c
    ensures ok <==> |pinned| < c.n
    ensures ok ==> c.Valid() && Calm(c, {}) && Pins(c.bufs, pinned)
    ensures ok ==> c.disk == old(c.disk)[at := RedoLog.WriteHead(old(c.disk)[at], bs)]
  {
    hide BufOk;
    hide CacheOk;
    hide Pins;
    NoRoomIff(c, at, pinned);
    var b, panicked := Bread(c, pid, at, {}, pinned);
    if panicked {
      return false;
    }
    var h := HeaderData(c.bufs[b].data, bs);
    assert {} + {b} == {b} && pinned - {at} == pinned;
    WriteOut(c, pid, b, h, at, {b}, pinned);
    Brelse(c, pid, b, at, {b}, pinned);
    assert {b} - {b} == {};
    ok := true;
  }

  // ------------------------------------------------------------------------- the commit

  // The pinned blocks are those of the header.
  ghost predicate Names(g: Geometry, bs: seq<nat>, pinned: PinMap) {
    g.Valid() && GoodBlocks(g, bs) && Matches(bs, pinned)
  }

  ghost function Elements(bs: seq<nat>): set<nat> {
    set b | b in bs
  }

  lemma {:induction false} ElementsCount(bs: seq<nat>)
    requires forall i, j :: 0 <= i < j < |bs| ==> bs[i] != bs[j]
    ensures |Elements(bs)| == |bs|
  {
    if bs != [] {
      var n := |bs| - 1;
      ElementsCount(bs[..n]);
      assert bs == bs[..n] + [bs[n]];
      assert Elements(bs) == Elements(bs[..n]) + {bs[n]};
    }
  }

  lemma NamesCount(g: Geometry, bs: seq<nat>, pinned: PinMap)
    requires Names(g, bs, pinned)
    ensures |pinned| == |bs| && |bs| + 1 < BLOCK_WORDS && g.start < g.nblocks && g.start !in pinned
  {
    ElementsCount(bs);
    assert pinned.Keys == Elements(bs);
  }

  method WriteLog(c: Cache, g: Geometry, pid: nat, bs: seq<nat>, ghost d: Disk, ghost pinned: PinMap)
    returns (ok: bool)
    requires c.Valid() && Calm(c, {}) && Pins(c.bufs, pinned) && Names(g, bs, pinned) && c.disk == d && |d| == g.nblocks
    requires bs != []
    modifies c
    ensures ok <==> |bs| < c.n
    ensures ok ==> c.Valid() && Calm(c, {}) && Pins(c.bufs, pinned)
    ensures ok ==> var ws := LogWrites(g, Contents(bs, pinned));
              (forall i :: 0 <= i < |ws| ==> ws[i].bn < |d|) && c.disk == Apply(d, ws)
  {
    hide Apply;
    hide Calm;
    hide Pins;
    hide CacheOk;
    hide BufOk;
    ghost var ws := LogWrites(g, Contents(bs, pinned));
    NamesCount(g, bs, pinned);
    ApplyNone(d, ws[..0]);
    var tail := 0;
    while tail < |bs|
      invariant 0 <= tail <= |bs| && (tail > 0 ==> |bs| < c.n)
      invariant c.Valid() && Calm(c, {}) && Pins(c.bufs, pinned)
      invariant c.disk == Apply(d, ws[..tail])
    {
      ok := ToLog(c, pid, g.start + tail + 1, bs[tail], pinned);
      if !ok {
        return;
      }
      ApplySnoc(d, ws, tail);
      tail := tail + 1;
    }
    assert ws[..tail] == ws;
    ok := true;
  }

  // The blocks that are left to install.
  ghost function Rest(bs: seq<nat>, pinned: PinMap, k: nat): PinMap
    requires k <= |bs|
  {
    pinned - Elements(bs[..k])
  }

  lemma RestStep(g: Geometry, bs: seq<nat>, pinned: PinMap, k: nat)
    requires Names(g, bs, pinned) && k < |bs|
    ensures bs[k] in Rest(bs, pinned, k) && Rest(bs, pinned, k + 1) == Rest(bs, pinned, k) - {bs[k]}
    ensures |Rest(bs, pinned, k)| <= |pinned| && forall b :: b in Rest(bs, pinned, k) ==> b in pinned
  {
    hide Elements;
    NotBefore(bs, k);
    OneMore(bs, k);
    SmallerMap(Rest(bs, pinned, k), pinned);
  }

  lemma OneMore(bs: seq<nat>, k: nat)
    requires k < |bs|
    ensures Elements(bs[..k + 1]) == Elements(bs[..k]) + {bs[k]}
  {
    assert bs[..k + 1] == bs[..k] + [bs[k]];
  }

  lemma NotBefore(bs: seq<nat>, k: nat)
    requires k < |bs| && forall i, j :: 0 <= i < j < |bs| ==> bs[i] != bs[j]
    ensures bs[k] !in Elements(bs[..k])
  {
  }

  lemma {:induction false} SmallerMap(a: PinMap, b: PinMap)
    requires a.Keys <= b.Keys
    ensures |a| <= |b|
    decreases |b|
  {
    if k :| k in a {
      assert |a - {k}| == |a| - 1 && |b - {k}| == |b| - 1 by {
        assert (a - {k}).Keys == a.Keys - {k} && (b - {k}).Keys == b.Keys - {k};
      }
      SmallerMap(a - {k}, b - {k});
    }
  }

  method InstallTrans(c: Cache, g: Geometry, pid: nat, bs: seq<nat>, ghost d: Disk, ghost pinned: PinMap)
    requires c.Valid() && Calm(c, {}) && Pins(c.bufs, pinned) && Names(g, bs, pinned) && c.disk == d && |d| == g.nblocks
    requires |bs| < c.n
    modifies c
    ensures c.Valid() && Calm(c, {}) && Pins(c.bufs, map[])
    ensures g.start + 1 + |bs| <= |d|
    ensures var ws := InstallWrites(g, d, bs);
            (forall i :: 0 <= i < |ws| ==> ws[i].bn < |d|) && c.disk == Apply(d, ws)
  {
    hide Apply;
    hide Calm;
    hide Pins;
    hide CacheOk;
    hide BufOk;
    hide Rest;
    hide Names;
    hide InstallWrites;
    NamesCount(g, bs, pinned);
    InstallRange(g, d, bs, pinned);
    ghost var ws := InstallWrites(g, d, bs);
    ApplyNone(d, ws[..0]);
    RestEnds(g, bs, pinned);
    var tail := 0;
    while tail < |bs|
      invariant 0 <= tail <= |bs|
      invariant c.Valid() && Calm(c, {}) && Pins(c.bufs, Rest(bs, pinned, tail))
      invariant c.disk == Apply(d, ws[..tail])
    {
      RestStep(g, bs, pinned, tail);
      InstallNext(g, d, bs, pinned, tail);
      var ok := ToHome(c, pid, g.start + tail + 1, bs[tail], Rest(bs, pinned, tail));
      tail := tail + 1;
    }
    assert ws[..tail] == ws;
  }

  lemma InstallRange(g: Geometry, d: Disk, bs: seq<nat>, pinned: PinMap)
    requires Names(g, bs, pinned) && |d| == g.nblocks
    ensures g.start + 1 + |bs| <= |d|
    ensures var ws := InstallWrites(g, d, bs);
            |ws| == |bs| && forall i :: 0 <= i < |ws| ==> ws[i].bn < |d|
  {
  }

  // One write of install_trans: the log block is as it was.
  lemma InstallNext(g: Geometry, d: Disk, bs: seq<nat>, pinned: PinMap, k: nat)
    requires Names(g, bs, pinned) && |d| == g.nblocks && k < |bs| && g.start + 1 + |bs| <= |d|
    requires forall i :: 0 <= i < |bs| ==> InstallWrites(g, d, bs)[i].bn < |d|
    ensures bs[k] < |d| && g.start + k + 1 < |d| && g.start + k + 1 !in pinned
    ensures var ws := InstallWrites(g, d, bs);
            && Apply(d, ws[..k])[g.start + k + 1] == d[g.start + k + 1]
            && Apply(d, ws[..k + 1]) == Apply(d, ws[..k])[bs[k] := d[g.start + k + 1]]
  {
    hide Apply;
    hide Names;
    HomeBlocks(g, bs, pinned);
    var ws := InstallWrites(g, d, bs);
    RedoLog.Untouched(d, ws[..k], g.start + k + 1);
    ApplySnoc(d, ws, k);
  }

  lemma HomeBlocks(g: Geometry, bs: seq<nat>, pinned: PinMap)
    requires Names(g, bs, pinned)
    ensures g.Valid() && |bs| < g.size && forall i :: 0 <= i < |bs| ==> g.Home(bs[i])
    ensures forall b :: b in pinned ==> g.Home(b)
  {
  }

  lemma RestEnds(g: Geometry, bs: seq<nat>, pinned: PinMap)
    requires Names(g, bs, pinned)
    ensures Rest(bs, pinned, 0) == pinned && Rest(bs, pinned, |bs|) == map[]
  {
    assert Elements(bs[..0]) == {} && bs[..|bs|] == bs;
    assert Rest(bs, pinned, |bs|).Keys == {};
  }

  /** commit() through the buffer cache, with no other process at the cache: it leaves exactly the disk that the commit
      of LogLayer leaves, block by block what was logged, and no buffer pinned; it panics for want of a buffer if and
      only if the log names as many blocks as the cache has buffers. */
  method Commit(c: Cache, g: Geometry, pid: nat, bs: seq<nat>, ghost d: Disk, ghost pinned: PinMap)
    returns (ok: bool)
    requires c.Valid() && Calm(c, {}) && Pins(c.bufs, pinned) && Names(g, bs, pinned) && c.disk == d && |d| == g.nblocks
    modifies c
    ensures ok <==> bs == [] || |bs| < c.n
    ensures ok ==> c.Valid() && Calm(c, {}) && Pins(c.bufs, map[])
    ensures ok ==> var contents := Contents(bs, pinned);
              c.disk == CommitAt(g, d, bs, contents, |CommitWrites(g, d[g.start], bs, contents)|)
  {
    hide Apply;
    hide Calm;
    hide Pins;
    hide CacheOk;
    hide BufOk;
    hide CommitWrites;
    hide CommitAt;
    hide InstallWrites;
    hide LogWrites;
    hide Contents;
    hide WriteHead;
    hide GoodBlocks;
    NamesCount(g, bs, pinned);
    if bs == [] {
      assert pinned.Keys == {};
      assert pinned == map[];
      EmptyCommit(g, d, pinned);
      return true;
    }
    ok := WriteLog(c, g, pid, bs, d, pinned);
    if !ok {
      return;
    }
    ghost var d1: Disk := Apply(d, LogWrites(g, Contents(bs, pinned)));
    ok := PutHeader(c, pid, g.start, bs, pinned);
    ghost var d2: Disk := d1[g.start := WriteHead(d1[g.start], bs)];
    InstallTrans(c, g, pid, bs, d2, pinned);
    ghost var d3: Disk := Apply(d2, InstallWrites(g, d2, bs));
    ok := PutHeader(c, pid, g.start, [], map[]);
    CommitPhases(g, d, bs, Contents(bs, pinned), d1, d2, d3, d3[g.start := WriteHead(d3[g.start], [])]);
  }

  lemma EmptyCommit(g: Geometry, d: Disk, pinned: PinMap)
    requires g.Valid() && |d| == g.nblocks && pinned == map[]
    ensures var n := |CommitWrites(g, d[g.start], [], Contents([], pinned))|;
            n == 0 && CommitAt(g, d, [], Contents([], pinned), n) == d
  {
  }

  // A commit can begin that needs more buffers than there are.
  ghost predicate CanRunShort(g: Geometry, d: Disk, nbuf: nat) {
    exists s :: Reachable(g, d, s) && s.phase.Committing? && s.lh != [] && |s.lh| >= nbuf
  }

  /** Operations within their quotas meet neither panic, that of log_write nor that of bget in the commit, if and only
      if log.size and NBUF both exceed LOGSIZE.  (param.h makes NBUF equal to LOGSIZE, and mkfs log.size too.)
      `bs` is any choice of distinct home blocks, enough to fill the log. */
  lemma SafeIff(g: Geometry, d: Disk, bs: seq<nat>, nbuf: nat)
    requires GoodDisk(g, d) && d[g.start][0] == 0 && 2 * g.maxOp <= g.logSize
    requires |bs| == g.logSize && forall i :: 0 <= i < |bs| ==> g.Home(bs[i])
    requires forall i, j :: 0 <= i < j < |bs| ==> bs[i] != bs[j]
    ensures !CanPanic(g, d) && !CanRunShort(g, d, nbuf) <==> g.size > g.logSize && nbuf > g.logSize
  {
    hide Reachable;
    hide CanPanic;
    PanicIffSmallLog(g, d, bs);
    if g.size > g.logSize {
      var s := FullCommit(g, d, bs);
      assert nbuf <= g.logSize ==> CanRunShort(g, d, nbuf);
    }
    forall s | Reachable(g, d, s) ensures |s.lh| <= g.logSize {
      NeverMore(g, d, s);
    }
  }

  lemma NeverMore(g: Geometry, d: Disk, s: Sys)
    requires Reachable(g, d, s)
    ensures |s.lh| <= g.logSize
  {
    hide Next;
    var run :| IsRun(g, d, run) && run[|run| - 1] == s;
    LogFits(g, d, run, |run| - 1);
  }

  // With log.size > LOGSIZE the log can be full when the commit begins.
  lemma FullCommit(g: Geometry, d: Disk, bs: seq<nat>) returns (s: Sys)
    requires GoodDisk(g, d) && d[g.start][0] == 0 && 2 * g.maxOp <= g.logSize < g.size
    requires GoodBlocks(g, bs) && |bs| == g.logSize
    ensures Reachable(g, d, s) && s.phase.Committing? && s.lh == bs
  {
    hide Reachable;
    var t := FillLog(g, d, bs, g.maxOp);
    s := t.(active := [], phase := Committing(t.disk, 0));
    assert t.active[..0] + t.active[1..] == [];
    assert EndOp(g, t, s, 0);
    ReachStep(g, d, t, s);
  }
}
