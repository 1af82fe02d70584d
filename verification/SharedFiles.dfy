/** writei and itrunc by several processes at once (fs.c under the inode locks): every step that changes a block, an
    inode or the bitmap is one action, and the actions of different processes mix in any way.  No block ever gets into
    two files, and each file changes as if each operation took place at once, when its inode is unlocked. */
module SharedFiles {
  import opened FsImage
  import opened FsFiles
  import opened FsLayer
  import opened FsTrace
  import opened Seqs

  // A block in the hands of a process: from balloc, not named by a slot yet (`clean` once it is zeroed), or no longer
  // named and about to be freed.
  datatype Hold = Hold(job: nat, clean: bool)

  // What a process does under an inode lock: write src at off, of which tot bytes are copied, or truncate.
  datatype Task = Write(off: nat, src: seq<byte>, tot: nat) | Trunc

  /** An operation under way on a locked inode: the contents of the file when it began, what it does, and whether the
      inode is up to date on disk again. */
  datatype Job = Job(inum: nat, was: seq<byte>, task: Task, done: bool)

  /** The image; who owns and who holds each block; the operations under way; the files as the finished ones have
      left them. */
  datatype Core = Core(m: Img, owner: map<nat, Slot>, held: map<nat, Hold>, jobs: map<nat, Job>, files: seq<seq<byte>>)

  // The bitmap marks the metadata, the owned blocks and the held ones.
  ghost predicate BitsHold(sb: Super, m: Img, owner: map<nat, Slot>, held: map<nat, Hold>)
    requires Shape(sb, m)
  {
    && (forall b :: 0 <= b < sb.size ==> (InUse(m.bitmap, b) <==> b < sb.nmeta || b in owner || b in held))
    && (forall b :: b in held ==> sb.nmeta <= b < sb.size && b !in owner)
    && (forall b :: b in held && held[b].clean ==> m.data[b] == Zero())
  }

  ghost predicate Shared(sb: Super, m: Img, owner: map<nat, Slot>, held: map<nat, Hold>) {
    Shape(sb, m) && SlotsOwn(sb, m, owner) && OwnersName(sb, m, owner) && BitsHold(sb, m, owner, held)
  }

  // ------------------------------------------------------------------------ addresses

  function Link(m: Img, s: Slot, r: u32): Img
    requires IsSlot(m, s) && |m.inodes[s.inum].addrs| == NDIRECT + 1
    requires s.Entry? ==> m.inodes[s.inum].addrs[NDIRECT] < |m.data|
  {
    match s
    case Direct(i, k) => SetAddr(m, i, k, r)
    case Indirect(i) => SetAddr(m, i, NDIRECT, r)
    case Entry(i, j) => SetEntry(m, m.inodes[i].addrs[NDIRECT], j, r)
  }

  lemma IndirectBlock(sb: Super, m: Img, owner: map<nat, Slot>, i: nat)
    requires Shape(sb, m) && SlotsOwn(sb, m, owner) && i < |m.inodes| && m.inodes[i].addrs[NDIRECT] != 0
    ensures var a := m.inodes[i].addrs[NDIRECT];
            sb.nmeta <= a < sb.size && a in owner && owner[a] == Indirect(i)
  {
    assert IsSlot(m, Indirect(i)) && Addr(m, Indirect(i)) == m.inodes[i].addrs[NDIRECT];
  }

  // New bytes in a block that is not an indirect block change no address.
  lemma DataAddr(sb: Super, m: Img, owner: map<nat, Slot>, b: nat, blk: Blk, t: Slot)
    requires Shape(sb, m) && SlotsOwn(sb, m, owner) && b < |m.data| && (b !in owner || !owner[b].Indirect?)
    requires IsSlot(m, t)
    ensures Addr(m.(data := m.data[b := blk]), t) == Addr(m, t)
  {
    if t.Entry? && m.inodes[t.inum].addrs[NDIRECT] != 0 {
      IndirectBlock(sb, m, owner, t.inum);
    }
  }

  // Linking a block to slot s changes what s names, and nothing else.
  lemma LinkAddr(sb: Super, m: Img, owner: map<nat, Slot>, s: Slot, r: u32, t: Slot)
    requires Shape(sb, m) && SlotsOwn(sb, m, owner) && IsSlot(m, s) && IsSlot(m, t) && Addr(m, s) == 0
    requires r !in owner && 0 < r < sb.size && m.data[r] == Zero()
    requires s.Entry? ==> m.inodes[s.inum].addrs[NDIRECT] != 0
    ensures s.Entry? ==> m.inodes[s.inum].addrs[NDIRECT] < sb.size
    ensures Shape(sb, Link(m, s, r)) && IsSlot(Link(m, s, r), t)
    ensures Addr(Link(m, s, r), t) == if s == t then r else Addr(m, t)
  {
    hide Word;
    if s.Entry? {
      IndirectBlock(sb, m, owner, s.inum);
      LinkEntryAddr(sb, m, owner, s, r, t);
    } else if t.Entry? {
      if s == Indirect(t.inum) {
        ZeroWords(t.j);
      }
    }
  }

  lemma LinkEntryAddr(sb: Super, m: Img, owner: map<nat, Slot>, s: Slot, r: u32, t: Slot)
    requires Shape(sb, m) && SlotsOwn(sb, m, owner) && IsSlot(m, s) && IsSlot(m, t) && s.Entry?
    requires 0 < m.inodes[s.inum].addrs[NDIRECT] < sb.size
    ensures Addr(Link(m, s, r), t) == if s == t then r else Addr(m, t)
  {
    hide Word;
    IndirectBlock(sb, m, owner, s.inum);
    if t.Entry? && m.inodes[t.inum].addrs[NDIRECT] != 0 {
      IndirectBlock(sb, m, owner, t.inum);
      WordUpdates(m.data[m.inodes[s.inum].addrs[NDIRECT]], s.j, r, t.j);
    }
  }

  // ------------------------------------------------------------------- sharing is kept

  lemma MarkShared(sb: Super, m: Img, owner: map<nat, Slot>, held: map<nat, Hold>, r: nat, p: nat)
    requires Shared(sb, m, owner, held) && r < sb.size && !InUse(m.bitmap, r)
    ensures Shared(sb, m.(bitmap := SetBit(m.bitmap, r)), owner, held[r := Hold(p, false)])
  {
    hide InUse;
    var m' := m.(bitmap := SetBit(m.bitmap, r));
    forall t | IsSlot(m, t) ensures Addr(m', t) == Addr(m, t) {
    }
    forall b | 0 <= b < sb.size
      ensures InUse(m'.bitmap, b) <==> b < sb.nmeta || b in owner || b in held[r := Hold(p, false)]
    {
      SetBitAt(m.bitmap, r, b);
    }
  }

  // Any bytes may go into a block that is held, or owned by a slot of a file.
  lemma DataShared(sb: Super, m: Img, owner: map<nat, Slot>, held: map<nat, Hold>, held': map<nat, Hold>, b: nat,
                   blk: Blk)
    requires Shared(sb, m, owner, held) && b < sb.size && (b !in owner || !owner[b].Indirect?)
    requires held'.Keys == held.Keys
    requires forall r :: r in held' && held'[r].clean ==> if r == b then blk == Zero() else held[r].clean
    ensures Shared(sb, m.(data := m.data[b := blk]), owner, held')
  {
    hide InUse;
    hide Addr;
    var m' := m.(data := m.data[b := blk]);
    assert forall r :: r in held' <==> r in held;
    forall t | IsSlot(m, t) ensures Addr(m', t) == Addr(m, t) {
      DataAddr(sb, m, owner, b, blk, t);
    }
  }

  lemma LinkShared(sb: Super, m: Img, owner: map<nat, Slot>, held: map<nat, Hold>, s: Slot, r: nat)
    requires Shared(sb, m, owner, held) && IsSlot(m, s) && Addr(m, s) == 0 && r in held && held[r].clean
    requires s.Entry? ==> m.inodes[s.inum].addrs[NDIRECT] != 0
    ensures s.Entry? ==> m.inodes[s.inum].addrs[NDIRECT] < sb.size
    ensures Shared(sb, Link(m, s, r), owner[r := s], held - {r})
  {
    hide InUse;
    hide Addr;
    LinkAddr(sb, m, owner, s, r, s);
    var m', owner' := Link(m, s, r), owner[r := s];
    forall t | IsSlot(m', t) && Addr(m', t) != 0
      ensures sb.nmeta <= Addr(m', t) < sb.size && Addr(m', t) in owner' && owner'[Addr(m', t)] == t
    {
      LinkAddr(sb, m, owner, s, r, t);
    }
    forall b | b in owner' ensures b != 0 && IsSlot(m', owner'[b]) && Addr(m', owner'[b]) == b {
      LinkAddr(sb, m, owner, s, r, owner'[b]);
    }
    LinkBits(sb, m, owner, held, s, r);
  }

  lemma LinkBits(sb: Super, m: Img, owner: map<nat, Slot>, held: map<nat, Hold>, s: Slot, r: nat)
    requires Shared(sb, m, owner, held) && IsSlot(m, s) && r in held
    requires s.Entry? ==> 0 < m.inodes[s.inum].addrs[NDIRECT] < sb.size
    requires Shape(sb, Link(m, s, r))
    ensures BitsHold(sb, Link(m, s, r), owner[r := s], held - {r})
  {
    hide InUse;
    hide Word;
    if s.Entry? {
      IndirectBlock(sb, m, owner, s.inum);
    }
  }

  lemma ResizeShared(sb: Super, m: Img, owner: map<nat, Slot>, held: map<nat, Hold>, i: nat, end: u32)
    requires Shared(sb, m, owner, held) && i < |m.inodes|
    ensures Shared(sb, Resize(m, i, end), owner, held)
  {
    hide InUse;
    var m' := Resize(m, i, end);
    forall t | IsSlot(m, t) ensures IsSlot(m', t) && Addr(m', t) == Addr(m, t) {
    }
  }

  // Blocks that no slot names any more are in the hands of the process that dropped them.
  ghost function Dropped(owner: map<nat, Slot>, s: Slot): set<nat> {
    set b | b in owner && (owner[b] == s || (s.Indirect? && owner[b].Entry? && owner[b].inum == s.inum))
  }

  ghost function Holding(held: map<nat, Hold>, bs: set<nat>, p: nat): (h: map<nat, Hold>)
    ensures forall b :: b in h <==> b in held || b in bs
    ensures forall b :: b in h ==> h[b] == if b in bs then Hold(p, false) else held[b]
  {
    map b | b in held.Keys + bs :: if b in bs then Hold(p, false) else held[b]
  }

  function Cut(m: Img, s: Slot): Img
    requires IsSlot(m, s) && |m.inodes[s.inum].addrs| == NDIRECT + 1 && !s.Entry?
  {
    SetAddr(m, s.inum, if s.Direct? then s.k else NDIRECT, 0)
  }

  lemma CutAddr(sb: Super, m: Img, owner: map<nat, Slot>, s: Slot, t: Slot)
    requires Shape(sb, m) && IsSlot(m, s) && IsSlot(m, t) && !s.Entry?
    ensures Shape(sb, Cut(m, s)) && IsSlot(Cut(m, s), t)
    ensures Addr(Cut(m, s), t) == if t == s || (s.Indirect? && t.Entry? && t.inum == s.inum) then 0 else Addr(m, t)
  {
    hide Word;
  }

  lemma CutShared(sb: Super, m: Img, owner: map<nat, Slot>, held: map<nat, Hold>, s: Slot, p: nat)
    requires Shared(sb, m, owner, held) && IsSlot(m, s) && !s.Entry?
    ensures Shared(sb, Cut(m, s), owner - Dropped(owner, s), Holding(held, Dropped(owner, s), p))
  {
    hide InUse;
    hide Addr;
    hide BitsHold;
    CutAddr(sb, m, owner, s, s);
    var m', out := Cut(m, s), Dropped(owner, s);
    forall t | IsSlot(m', t) && Addr(m', t) != 0
      ensures sb.nmeta <= Addr(m', t) < sb.size && Addr(m', t) in owner - out && (owner - out)[Addr(m', t)] == t
    {
      assert IsSlot(m, t);
      CutAddr(sb, m, owner, s, t);
    }
    forall b | b in owner - out
      ensures b != 0 && IsSlot(m', (owner - out)[b]) && Addr(m', (owner - out)[b]) == b
    {
      CutAddr(sb, m, owner, s, owner[b]);
    }
    CutBits(sb, m, owner, held, s, p);
  }

  lemma CutBits(sb: Super, m: Img, owner: map<nat, Slot>, held: map<nat, Hold>, s: Slot, p: nat)
    requires Shared(sb, m, owner, held) && IsSlot(m, s) && !s.Entry? && Shape(sb, Cut(m, s))
    ensures BitsHold(sb, Cut(m, s), owner - Dropped(owner, s), Holding(held, Dropped(owner, s), p))
  {
    hide InUse;
    hide Addr;
    forall b | b in Dropped(owner, s) ensures sb.nmeta <= b < sb.size {
      assert Addr(m, owner[b]) == b;
    }
  }

  /** The block that bfree gets is marked, so bfree does not panic; afterwards it is free. */
  lemma FreeShared(sb: Super, m: Img, owner: map<nat, Slot>, held: map<nat, Hold>, r: nat)
    requires Shared(sb, m, owner, held) && r in held
    ensures r < sb.size && InUse(m.bitmap, r)
    ensures Shared(sb, m.(bitmap := ClearBit(m.bitmap, r)), owner, held - {r})
  {
    hide InUse;
    var m' := m.(bitmap := ClearBit(m.bitmap, r));
    forall t | IsSlot(m, t) ensures Addr(m', t) == Addr(m, t) {
    }
    forall b | 0 <= b < sb.size
      ensures InUse(m'.bitmap, b) <==> b < sb.nmeta || b in owner || b in held - {r}
    {
      ClearBitAt(m.bitmap, r, b);
    }
  }

  // ------------------------------------------------------------------ other files stay

  // Inode i, in memory and on disk, and the blocks that its slots name are as they were.
  ghost predicate Untouched(sb: Super, m: Img, m': Img, i: nat)
    requires Shape(sb, m) && Shape(sb, m')
  {
    && i < |m.inodes| == |m'.inodes|
    && m'.inodes[i] == m.inodes[i] && m'.dinodes[i] == m.dinodes[i]
    && forall s: Slot :: IsSlot(m, s) && s.inum == i && 0 < Addr(m, s) < sb.size ==>
         m'.data[Addr(m, s)] == m.data[Addr(m, s)]
  }

  lemma UntouchedAddr(sb: Super, m: Img, m': Img, i: nat, s: Slot)
    requires Shape(sb, m) && Shape(sb, m') && Untouched(sb, m, m', i) && IsSlot(m, s) && s.inum == i
    ensures IsSlot(m', s) && Addr(m', s) == Addr(m, s)
  {
    hide Word;
    if s.Entry? {
      assert IsSlot(m, Indirect(i));
    }
  }

  // Only inode i, its copy on disk and block b differ, and b is not a block of another file.
  ghost predicate Local(sb: Super, m: Img, owner: map<nat, Slot>, m': Img, i: nat, b: nat)
    requires Shape(sb, m) && Shape(sb, m')
  {
    && |m'.inodes| == |m.inodes|
    && (forall k :: 0 <= k < |m.inodes| && k != i ==> m'.inodes[k] == m.inodes[k] && m'.dinodes[k] == m.dinodes[k])
    && (forall c :: 0 <= c < sb.size && c != b ==> m'.data[c] == m.data[c])
    && (b in owner ==> owner[b].inum == i)
  }

  lemma OthersUntouched(sb: Super, m: Img, owner: map<nat, Slot>, m': Img, i: nat, b: nat, k: nat)
    requires Shape(sb, m) && Shape(sb, m') && SlotsOwn(sb, m, owner) && Local(sb, m, owner, m', i, b)
    requires k < |m.inodes| && k != i
    ensures Untouched(sb, m, m', k)
  {
    hide Addr;
  }

  // -------------------------------------------------------------------------- the files

  // Inode i at rest: mapped, the same on disk, with the contents c.
  ghost predicate Settled(sb: Super, m: Img, i: nat, c: seq<byte>)
    requires Shape(sb, m) && i < |m.inodes|
  {
    FileMapped(m, i, m.inodes[i].size) && m.dinodes[i] == m.inodes[i] && Content(m, i) == c
  }

  lemma SettledStays(sb: Super, m: Img, m': Img, i: nat, c: seq<byte>)
    requires Shape(sb, m) && Shape(sb, m') && Untouched(sb, m, m', i) && Settled(sb, m, i, c)
    ensures Settled(sb, m', i, c)
  {
    hide Addr;
    forall bn | 0 <= bn < MAXFILE ensures Addr(m', FileSlot(i, bn)) == Addr(m, FileSlot(i, bn)) {
      UntouchedAddr(sb, m, m', i, FileSlot(i, bn));
    }
    forall p | 0 <= p < m.inodes[i].size ensures ByteAt(m', i, p) == ByteAt(m, i, p) {
      SameByte(sb, m, m', i, p);
    }
    assert Content(m', i) == Content(m, i);
  }

  lemma SameByte(sb: Super, m: Img, m': Img, i: nat, p: nat)
    requires Shape(sb, m) && Shape(sb, m') && Untouched(sb, m, m', i) && p < MAXFILE * BSIZE
    requires Addr(m, FileSlot(i, p / BSIZE)) != 0
    ensures Addr(m', FileSlot(i, p / BSIZE)) == Addr(m, FileSlot(i, p / BSIZE)) && ByteAt(m', i, p) == ByteAt(m, i, p)
  {
    hide Addr;
    assert IsSlot(m, FileSlot(i, p / BSIZE));
    UntouchedAddr(sb, m, m', i, FileSlot(i, p / BSIZE));
  }

  // Byte p of the file that a write has got to.
  ghost predicate Reached(job: Job, p: nat)
    requires job.task.Write?
  {
    p < |job.was| || job.task.off <= p < job.task.off + job.task.tot
  }

  ghost function Expected(job: Job, p: nat): byte
    requires job.task.Write? && job.task.tot <= |job.task.src| && Reached(job, p)
  {
    if job.task.off <= p < job.task.off + job.task.tot then job.task.src[p - job.task.off] else job.was[p]
  }

  // A write under way: what it has copied is in place over what the file was.
  ghost predicate Copied(sb: Super, m: Img, job: Job)
    requires Shape(sb, m) && job.inum < |m.inodes| && job.task.Write?
  {
    var Write(off, src, tot) := job.task;
    && m.inodes[job.inum].size == |job.was| && off <= |job.was| <= MAXFILE * BSIZE
    && tot <= |src| && off + |src| <= MAXFILE * BSIZE
    && (forall p: nat :: p < MAXFILE * BSIZE && Reached(job, p) ==>
          Addr(m, FileSlot(job.inum, p / BSIZE)) != 0 && ByteAt(m, job.inum, p) == Expected(job, p))
    && (m.dinodes[job.inum] == m.inodes[job.inum] || off + |src| > |job.was|)
  }

  // What the file is to be.
  ghost function Goal(job: Job): seq<byte>
    requires job.task.Write? ==> job.task.off <= |job.was|
  {
    if job.task.Write? then Overlay(job.was, job.task.off, job.task.src) else []
  }

  ghost predicate JobOk(sb: Super, m: Img, job: Job)
    requires Shape(sb, m)
  {
    && job.inum < |m.inodes|
    && (job.task.Write? ==> job.task.off <= |job.was| && (job.done ==> job.task.tot == |job.task.src|))
    && if job.done then Settled(sb, m, job.inum, Goal(job)) else job.task.Write? ==> Copied(sb, m, job)
  }

  lemma JobStays(sb: Super, m: Img, m': Img, job: Job)
    requires Shape(sb, m) && Shape(sb, m') && JobOk(sb, m, job) && Untouched(sb, m, m', job.inum)
    ensures JobOk(sb, m', job)
  {
    hide Addr;
    hide Overlay;
    hide ByteAt;
    if job.done {
      SettledStays(sb, m, m', job.inum, Goal(job));
    } else if job.task.Write? {
      forall p: nat | p < MAXFILE * BSIZE && Reached(job, p)
        ensures Addr(m', FileSlot(job.inum, p / BSIZE)) != 0 && ByteAt(m', job.inum, p) == Expected(job, p)
      {
        SameByte(sb, m, m', job.inum, p);
      }
    }
  }

  // ----------------------------------------------------------------- progress of a write

  // The slot at the position of the write.
  function At(job: Job): Slot
    requires job.task.Write?
  {
    FileSlot(job.inum, (job.task.off + job.task.tot) / BSIZE)
  }

  // The slot that the write needs next: that one, or the indirect block on the way to it.
  ghost function NextSlot(m: Img, job: Job): (s: Slot)
    requires job.task.Write? && job.inum < |m.inodes| && |m.inodes[job.inum].addrs| == NDIRECT + 1
    requires job.task.off + job.task.tot < MAXFILE * BSIZE
    ensures IsSlot(m, s) && IsSlot(m, At(job)) && s.inum == job.inum
    ensures Addr(m, s) == 0 ==> Addr(m, At(job)) == 0
    ensures s.Entry? ==> m.inodes[job.inum].addrs[NDIRECT] != 0
    ensures Addr(m, s) != 0 ==> s.Indirect? || s == At(job)
  {
    if At(job).Entry? && m.inodes[job.inum].addrs[NDIRECT] == 0 then Indirect(job.inum) else At(job)
  }

  // A write that has to allocate has come to the end of the file.
  lemma NeedsBeyond(sb: Super, m: Img, job: Job)
    requires Shape(sb, m) && job.inum < |m.inodes| && job.task.Write? && Copied(sb, m, job)
    requires job.task.tot < |job.task.src| && Addr(m, NextSlot(m, job)) == 0
    ensures job.task.off + job.task.tot >= |job.was|
  {
    hide ByteAt;
    assert Addr(m, FileSlot(job.inum, (job.task.off + job.task.tot) / BSIZE)) == 0;
  }

  lemma LinkByte(sb: Super, m: Img, owner: map<nat, Slot>, s: Slot, r: u32, i: nat, p: nat)
    requires Shape(sb, m) && SlotsOwn(sb, m, owner) && IsSlot(m, s) && Addr(m, s) == 0
    requires r !in owner && 0 < r < sb.size && m.data[r] == Zero()
    requires s.Entry? ==> m.inodes[s.inum].addrs[NDIRECT] != 0
    requires i < |m.inodes| && p < MAXFILE * BSIZE && Addr(m, FileSlot(i, p / BSIZE)) != 0
    ensures s.Entry? ==> m.inodes[s.inum].addrs[NDIRECT] < sb.size
    ensures Shape(sb, Link(m, s, r)) && |Link(m, s, r).inodes| == |m.inodes|
    ensures Addr(Link(m, s, r), FileSlot(i, p / BSIZE)) == Addr(m, FileSlot(i, p / BSIZE))
    ensures ByteAt(Link(m, s, r), i, p) == ByteAt(m, i, p)
  {
    hide Word;
    var t := FileSlot(i, p / BSIZE);
    assert IsSlot(m, t);
    LinkAddr(sb, m, owner, s, r, t);
    if s.Entry? {
      IndirectBlock(sb, m, owner, s.inum);
    }
  }

  lemma LinkCopied(sb: Super, m: Img, owner: map<nat, Slot>, job: Job, r: u32)
    requires Shape(sb, m) && SlotsOwn(sb, m, owner) && job.inum < |m.inodes| && job.task.Write? && Copied(sb, m, job)
    requires job.task.tot < |job.task.src| && Addr(m, NextSlot(m, job)) == 0
    requires r !in owner && 0 < r < sb.size && m.data[r] == Zero()
    ensures var s := NextSlot(m, job);
            && (s.Entry? ==> m.inodes[s.inum].addrs[NDIRECT] < sb.size)
            && Shape(sb, Link(m, s, r)) && Copied(sb, Link(m, s, r), job)
  {
    hide Addr;
    hide ByteAt;
    hide SlotsOwn;
    hide NextSlot;
    var s := NextSlot(m, job);
    NeedsBeyond(sb, m, job);
    LinkAddr(sb, m, owner, s, r, s);
    var m' := Link(m, s, r);
    forall p: nat | p < MAXFILE * BSIZE && Reached(job, p)
      ensures Addr(m', FileSlot(job.inum, p / BSIZE)) != 0 && ByteAt(m', job.inum, p) == Expected(job, p)
    {
      LinkByte(sb, m, owner, s, r, job.inum, p);
    }
  }

  // One turn of the copy loop.
  ghost function Advance(job: Job): Job
    requires job.task.Write? && job.task.tot <= |job.task.src|
  {
    var Write(off, src, tot) := job.task;
    job.(task := Write(off, src, tot + ChunkLength(|src|, off + tot, tot)))
  }

  ghost function Chunk(job: Job): (c: seq<byte>)
    requires job.task.Write? && job.task.tot <= |job.task.src|
    ensures (job.task.off + job.task.tot) % BSIZE + |c| <= BSIZE
  {
    var Write(off, src, tot) := job.task;
    src[tot..tot + ChunkLength(|src|, off + tot, tot)]
  }

  // A block's worth of bytes can go to that slot.
  ghost predicate CanCopy(sb: Super, m: Img, job: Job)
    requires Shape(sb, m)
  {
    && job.task.Write? && job.inum < |m.inodes| && job.task.tot < |job.task.src|
    && job.task.off + |job.task.src| <= MAXFILE * BSIZE
    && 0 < Addr(m, At(job)) < sb.size
  }

  ghost function CopyImg(sb: Super, m: Img, job: Job): (m': Img)
    requires Shape(sb, m) && CanCopy(sb, m, job)
    ensures Shape(sb, m') && |m'.inodes| == |m.inodes|
  {
    PutBytes(m, Addr(m, At(job)), (job.task.off + job.task.tot) % BSIZE, Chunk(job))
  }

  lemma CopyByte(sb: Super, m: Img, owner: map<nat, Slot>, job: Job, p: nat)
    requires Shape(sb, m) && SlotsOwn(sb, m, owner) && CanCopy(sb, m, job) && Copied(sb, m, job)
    requires p < MAXFILE * BSIZE && Reached(Advance(job), p)
    ensures Addr(CopyImg(sb, m, job), FileSlot(job.inum, p / BSIZE)) != 0
    ensures ByteAt(CopyImg(sb, m, job), job.inum, p) == Expected(Advance(job), p)
  {
    hide Addr;
    var pos, s, t := job.task.off + job.task.tot, At(job), FileSlot(job.inum, p / BSIZE);
    assert IsSlot(m, s) && IsSlot(m, t);
    var a, len := Addr(m, s), ChunkLength(|job.task.src|, pos, job.task.tot);
    DataAddr(sb, m, owner, a, Splice(m.data[a], pos % BSIZE, Chunk(job)), t);
    if pos <= p < pos + len {
      assert p / BSIZE == pos / BSIZE && p % BSIZE == pos % BSIZE + (p - pos);
    } else {
      assert Reached(job, p);
      KeptByte(sb, m, owner, job.inum, pos, len, p);
    }
  }

  // A byte outside the chunk lies in another block, or in the same block before or after the chunk.
  lemma KeptByte(sb: Super, m: Img, owner: map<nat, Slot>, i: nat, pos: nat, len: nat, p: nat)
    requires Shape(sb, m) && SlotsOwn(sb, m, owner) && i < |m.inodes|
    requires pos < MAXFILE * BSIZE && p < MAXFILE * BSIZE && pos % BSIZE + len <= BSIZE && !(pos <= p < pos + len)
    requires Addr(m, FileSlot(i, pos / BSIZE)) != 0 && Addr(m, FileSlot(i, p / BSIZE)) != 0
    ensures Addr(m, FileSlot(i, p / BSIZE)) == Addr(m, FileSlot(i, pos / BSIZE)) ==>
              p % BSIZE < pos % BSIZE || pos % BSIZE + len <= p % BSIZE
  {
    hide Addr;
    var s, t := FileSlot(i, pos / BSIZE), FileSlot(i, p / BSIZE);
    assert IsSlot(m, s) && IsSlot(m, t);
    if s == t {
      assert p / BSIZE == pos / BSIZE;
    }
  }

  lemma CopyCopied(sb: Super, m: Img, owner: map<nat, Slot>, job: Job)
    requires Shape(sb, m) && SlotsOwn(sb, m, owner) && CanCopy(sb, m, job) && Copied(sb, m, job)
    ensures Addr(m, At(job)) in owner && owner[Addr(m, At(job))] == At(job)
    ensures Copied(sb, CopyImg(sb, m, job), Advance(job))
  {
    hide ByteAt;
    hide Addr;
    hide Splice;
    assert IsSlot(m, At(job));
    var m' := CopyImg(sb, m, job);
    forall p: nat | p < MAXFILE * BSIZE && Reached(Advance(job), p)
      ensures Addr(m', FileSlot(job.inum, p / BSIZE)) != 0 && ByteAt(m', job.inum, p) == Expected(Advance(job), p)
    {
      CopyByte(sb, m, owner, job, p);
    }
  }

  // All bytes are copied: with the new size in the inode, the file is what the write is to make of it.
  lemma WriteSettles(sb: Super, m: Img, m': Img, job: Job)
    requires Shape(sb, m) && Shape(sb, m') && job.inum < |m.inodes| == |m'.inodes|
    requires job.task.Write? && Copied(sb, m, job) && job.task.tot == |job.task.src|
    requires m'.data == m.data && m'.inodes[job.inum].addrs == m.inodes[job.inum].addrs
    requires m'.dinodes[job.inum] == m'.inodes[job.inum]
    requires var end := job.task.off + |job.task.src|;
             m'.inodes[job.inum].size == if end > |job.was| then end else |job.was|
    ensures Settled(sb, m', job.inum, Goal(job))
  {
    hide Word;
    var i, size := job.inum, m'.inodes[job.inum].size;
    forall t | IsSlot(m, t) && t.inum == i ensures Addr(m', t) == Addr(m, t) {
    }
    forall p: nat | p < size ensures Addr(m', FileSlot(i, p / BSIZE)) != 0 && ByteAt(m', i, p) == Goal(job)[p] {
      assert Reached(job, p);
      assert IsSlot(m, FileSlot(i, p / BSIZE));
    }
    forall bn | 0 <= bn < MAXFILE && bn * BSIZE < size ensures Addr(m', FileSlot(i, bn)) != 0 {
      assert bn * BSIZE / BSIZE == bn;
    }
    assert Content(m', i) == Goal(job);
  }

  // An inode without blocks and of size 0 is an empty file.
  lemma TruncSettles(sb: Super, m: Img, i: nat)
    requires Shape(sb, m) && i < |m.inodes| && m.inodes[i].size == 0 && m.dinodes[i] == m.inodes[i]
    ensures Settled(sb, m, i, [])
  {
  }

  // --------------------------------------------------------------------------- actions

  /** What a process does in one step: lock an inode; balloc's mark on block r and its bzero; a block into slot s; a
      block's worth of bytes; a slot emptied, with the blocks behind it; bfree of block r; iupdate; unlock.  The
      addresses in a locked inode are its holder's business alone, so it makes no difference to others that itrunc
      empties a slot only after bfree. */
  datatype Action =
    | Lock(job: Job)
    | Mark(r: nat)
    | Clean(r: nat)
    | Attach(s: Slot, r: nat)
    | CopyBytes
    | Detach(s: Slot)
    | Release(r: nat)
    | Update
    | Unlock

  ghost predicate Fresh(c: Core, job: Job) {
    && job.inum < |c.m.inodes| && job.inum < |c.files| && job.was == c.files[job.inum] && !job.done
    && (forall q :: q in c.jobs ==> c.jobs[q].inum != job.inum)
    && (job.task.Write? ==>
          job.task.tot == 0 && job.task.off <= |job.was| && job.task.off + |job.task.src| <= MAXFILE * BSIZE)
  }

  ghost predicate Writing(c: Core, p: nat) {
    && p in c.jobs && c.jobs[p].task.Write? && !c.jobs[p].done && c.jobs[p].inum < |c.m.inodes|
    && c.jobs[p].task.tot < |c.jobs[p].task.src| && c.jobs[p].task.off + |c.jobs[p].task.src| <= MAXFILE * BSIZE
  }

  ghost predicate HoldsNone(held: map<nat, Hold>, p: nat) {
    forall r :: r in held ==> held[r].job != p
  }

  // The conditions under which process p takes the step.
  ghost predicate Enabled(sb: Super, c: Core, p: nat, a: Action)
    requires Shape(sb, c.m)
  {
    match a
    case Lock(job) => p !in c.jobs && Fresh(c, job)
    case Mark(r) =>
      && Writing(c, p) && r < sb.size && !InUse(c.m.bitmap, r)
      && HoldsNone(c.held, p) && Addr(c.m, NextSlot(c.m, c.jobs[p])) == 0
    case Clean(r) => Writing(c, p) && r < sb.size && r in c.held && c.held[r].job == p
    case Attach(s, r) =>
      && Writing(c, p) && r < sb.size && r in c.held && c.held[r] == Hold(p, true)
      && s == NextSlot(c.m, c.jobs[p]) && Addr(c.m, s) == 0
      && (s.Entry? ==> c.m.inodes[s.inum].addrs[NDIRECT] < sb.size)
    case CopyBytes => Writing(c, p) && CanCopy(sb, c.m, c.jobs[p])
    case Detach(s) =>
      && p in c.jobs && c.jobs[p].task.Trunc? && !c.jobs[p].done && s.inum == c.jobs[p].inum
      && IsSlot(c.m, s) && !s.Entry? && Addr(c.m, s) != 0
    case Release(r) => p in c.jobs && c.jobs[p].task.Trunc? && r < sb.size && r in c.held && c.held[r].job == p
    case Update =>
      && p in c.jobs && !c.jobs[p].done && c.jobs[p].inum < |c.m.inodes|
      && if c.jobs[p].task.Write?
         then var Write(off, src, tot) := c.jobs[p].task;
              tot == |src| && off + |src| <= MAXFILE * BSIZE && off + |src| > c.m.inodes[c.jobs[p].inum].size
         else forall k :: 0 <= k <= NDIRECT ==> c.m.inodes[c.jobs[p].inum].addrs[k] == 0
    case Unlock =>
      && p in c.jobs && c.jobs[p].inum < |c.files| && HoldsNone(c.held, p)
      && var job := c.jobs[p];
         if job.task.Write?
         then job.task.off <= |job.was| && job.task.tot == |job.task.src|
              && (job.done || job.task.off + |job.task.src| <= |job.was|)
         else job.done
  }

  // The state after the step.
  ghost function AfterAction(sb: Super, c: Core, p: nat, a: Action): Core
    requires Shape(sb, c.m) && Enabled(sb, c, p, a)
  {
    match a
    case Lock(job) => c.(jobs := c.jobs[p := job])
    case Mark(r) => c.(m := c.m.(bitmap := SetBit(c.m.bitmap, r)), held := c.held[r := Hold(p, false)])
    case Clean(r) => c.(m := c.m.(data := c.m.data[r := Zero()]), held := c.held[r := Hold(p, true)])
    case Attach(s, r) => c.(m := Link(c.m, s, r), owner := c.owner[r := s], held := c.held - {r})
    case CopyBytes => c.(m := CopyImg(sb, c.m, c.jobs[p]), jobs := c.jobs[p := Advance(c.jobs[p])])
    case Detach(s) =>
      c.(m := Cut(c.m, s), owner := c.owner - Dropped(c.owner, s), held := Holding(c.held, Dropped(c.owner, s), p))
    case Release(r) => c.(m := c.m.(bitmap := ClearBit(c.m.bitmap, r)), held := c.held - {r})
    case Update =>
      var job := c.jobs[p];
      c.(m := Resize(c.m, job.inum, if job.task.Write? then job.task.off + |job.task.src| else 0),
         jobs := c.jobs[p := job.(done := true)])
    case Unlock => c.(jobs := c.jobs - {p}, files := c.files[c.jobs[p].inum := Goal(c.jobs[p])])
  }

  // ------------------------------------------------------------------------- invariant

  ghost predicate Locked(c: Core, i: nat) {
    exists p :: p in c.jobs && c.jobs[p].inum == i
  }

  ghost predicate JobsOk(sb: Super, c: Core)
    requires Shape(sb, c.m)
  {
    && (forall p :: p in c.jobs ==>
          JobOk(sb, c.m, c.jobs[p]) && c.jobs[p].inum < |c.files| && c.files[c.jobs[p].inum] == c.jobs[p].was)
    && (forall p, q :: p in c.jobs && q in c.jobs && p != q ==> c.jobs[p].inum != c.jobs[q].inum)
    && (forall r :: r in c.held ==> c.held[r].job in c.jobs)
  }

  // A write holds a block only while it needs one, and then only one.
  ghost predicate HoldOk(sb: Super, m: Img, held: map<nat, Hold>, p: nat, job: Job)
    requires Shape(sb, m)
  {
    && (forall r, e :: r in held && e in held && held[r].job == p && held[e].job == p ==> r == e)
    && (HoldsNone(held, p) || (Needy(sb, m, job) && Addr(m, NextSlot(m, job)) == 0))
  }

  ghost predicate Needy(sb: Super, m: Img, job: Job) {
    && job.task.Write? && !job.done && job.inum < |m.inodes| && job.task.tot < |job.task.src|
    && job.task.off + |job.task.src| <= MAXFILE * BSIZE
  }

  ghost predicate HoldsOk(sb: Super, c: Core)
    requires Shape(sb, c.m)
  {
    forall p :: p in c.jobs && c.jobs[p].task.Write? ==> HoldOk(sb, c.m, c.held, p, c.jobs[p])
  }

  lemma HoldStays(sb: Super, m: Img, m': Img, held: map<nat, Hold>, held': map<nat, Hold>, p: nat, q: nat, job: Job)
    requires Shape(sb, m) && Shape(sb, m') && HoldOk(sb, m, held, q, job) && Untouched(sb, m, m', job.inum) && q != p
    requires OnlyHolds(held, held', p)
    ensures HoldOk(sb, m', held', q, job)
  {
    hide Addr;
    if !HoldsNone(held, q) {
      var i := job.inum;
      UntouchedAddr(sb, m, m', i, At(job));
      UntouchedAddr(sb, m, m', i, NextSlot(m, job));
    }
  }

  // Only blocks in the hands of p come and go.
  ghost predicate OnlyHolds(held: map<nat, Hold>, held': map<nat, Hold>, p: nat) {
    && (forall r :: r in held && held[r].job != p ==> r in held' && held'[r] == held[r])
    && (forall r :: r in held' && held'[r].job != p ==> r in held && held[r] == held'[r])
  }

  ghost predicate FilesOk(sb: Super, c: Core)
    requires Shape(sb, c.m) && |c.files| == |c.m.inodes|
  {
    forall i :: 0 <= i < |c.files| && !Locked(c, i) ==> Settled(sb, c.m, i, c.files[i])
  }

  /** The invariant: blocks are owned by one slot or held by one process, operations under way are where they should be,
      and every file that is not locked has the contents that the finished operations gave it. */
  ghost predicate CoreInv(sb: Super, c: Core) {
    && Shared(sb, c.m, c.owner, c.held)
    && |c.files| == |c.m.inodes|
    && JobsOk(sb, c)
    && HoldsOk(sb, c)
    && FilesOk(sb, c)
  }

  // A step of p within its own inode and blocks.
  ghost predicate OwnStep(sb: Super, c: Core, c': Core, p: nat, job: Job, b: nat) {
    && CoreInv(sb, c) && p in c.jobs && job.inum == c.jobs[p].inum && job.was == c.jobs[p].was
    && Shared(sb, c'.m, c'.owner, c'.held) && Local(sb, c.m, c.owner, c'.m, job.inum, b)
    && c'.files == c.files && c'.jobs == c.jobs[p := job] && JobOk(sb, c'.m, job)
    && OnlyHolds(c.held, c'.held, p) && (job.task.Write? ==> HoldOk(sb, c'.m, c'.held, p, job))
  }

  // It leaves the operations of others alone.
  lemma OtherJob(sb: Super, c: Core, c': Core, p: nat, job: Job, b: nat, q: nat)
    requires OwnStep(sb, c, c', p, job, b) && q in c.jobs && q != p
    ensures JobOk(sb, c'.m, c.jobs[q])
    ensures c.jobs[q].task.Write? ==> HoldOk(sb, c'.m, c'.held, q, c.jobs[q])
  {
    hide OwnersName;
    hide BitsHold;
    hide JobOk;
    hide HoldOk;
    hide FilesOk;
    OthersUntouched(sb, c.m, c.owner, c'.m, job.inum, b, InumOf(sb, c, q));
    JobStays(sb, c.m, c'.m, c.jobs[q]);
    if c.jobs[q].task.Write? {
      HoldStays(sb, c.m, c'.m, c.held, c'.held, p, q, c.jobs[q]);
    }
  }

  ghost function InumOf(sb: Super, c: Core, q: nat): (i: nat)
    requires CoreInv(sb, c) && q in c.jobs
    ensures i == c.jobs[q].inum < |c.m.inodes| && JobOk(sb, c.m, c.jobs[q])
  {
    InumInRange(sb, c, q);
    c.jobs[q].inum
  }

  // And the files that nobody has locked.
  lemma OtherFile(sb: Super, c: Core, c': Core, p: nat, job: Job, b: nat, i: nat)
    requires OwnStep(sb, c, c', p, job, b) && i < |c.files| && !Locked(c', i)
    ensures Settled(sb, c'.m, i, c.files[i])
  {
    hide OwnersName;
    hide BitsHold;
    hide JobsOk;
    hide HoldsOk;
    hide Settled;
    hide Locked;
    UnlockedBefore(c, c', p, job, i);
    OthersUntouched(sb, c.m, c.owner, c'.m, job.inum, b, i);
    SettledStays(sb, c.m, c'.m, i, c.files[i]);
  }

  lemma StepInv(sb: Super, c: Core, c': Core, p: nat, job: Job, b: nat)
    requires OwnStep(sb, c, c', p, job, b)
    ensures CoreInv(sb, c')
  {
    hide SlotsOwn;
    hide OwnersName;
    hide BitsHold;
    hide Settled;
    hide JobOk;
    hide HoldOk;
    hide Locked;
    hide FilesOk;
    assert |c'.m.inodes| == |c.m.inodes|;
    forall q | q in c.jobs && q != p
      ensures JobOk(sb, c'.m, c.jobs[q]) && (c.jobs[q].task.Write? ==> HoldOk(sb, c'.m, c'.held, q, c.jobs[q]))
    {
      OtherJob(sb, c, c', p, job, b, q);
    }
    StepFiles(sb, c, c', p, job, b);
  }

  lemma StepFiles(sb: Super, c: Core, c': Core, p: nat, job: Job, b: nat)
    requires OwnStep(sb, c, c', p, job, b) && |c'.m.inodes| == |c.m.inodes|
    ensures |c'.files| == |c'.m.inodes| && FilesOk(sb, c')
  {
    hide OwnersName;
    hide SlotsOwn;
    hide BitsHold;
    hide JobsOk;
    hide HoldsOk;
    hide Settled;
    hide Locked;
    hide Local;
    forall i | 0 <= i < |c'.files| && !Locked(c', i) ensures Settled(sb, c'.m, i, c'.files[i]) {
      OtherFile(sb, c, c', p, job, b, i);
    }
  }

  lemma InumInRange(sb: Super, c: Core, q: nat)
    requires CoreInv(sb, c) && q in c.jobs
    ensures JobOk(sb, c.m, c.jobs[q]) && c.jobs[q].inum < |c.m.inodes|
  {
  }

  lemma UnlockedBefore(c: Core, c': Core, p: nat, job: Job, i: nat)
    requires p in c.jobs && c'.jobs == c.jobs[p := job] && job.inum == c.jobs[p].inum && !Locked(c', i)
    ensures !Locked(c, i) && i != job.inum
  {
    assert c'.jobs[p].inum == job.inum;
    forall q | q in c.jobs ensures c.jobs[q].inum != i {
      assert q in c'.jobs;
    }
  }

  // --------------------------------------------------------------- every action keeps it

  lemma NoBlockZero(sb: Super, c: Core)
    requires Shared(sb, c.m, c.owner, c.held)
    ensures 0 !in c.owner
  {
  }

  // Held blocks are marked and not owned.
  lemma NotHeld(sb: Super, c: Core)
    requires Shared(sb, c.m, c.owner, c.held)
    ensures forall r :: r in c.held ==> r !in c.owner && r < sb.size && InUse(c.m.bitmap, r)
  {
    hide InUse;
  }

  // Bits alone: no file notices.
  lemma BitsInv(sb: Super, c: Core, p: nat, bitmap: seq<MapBlk>, held: map<nat, Hold>)
    requires CoreInv(sb, c) && p in c.jobs && Shared(sb, c.m.(bitmap := bitmap), c.owner, held)
    requires OnlyHolds(c.held, held, p)
    requires c.jobs[p].task.Write? ==> HoldOk(sb, c.m.(bitmap := bitmap), held, p, c.jobs[p])
    ensures CoreInv(sb, c.(m := c.m.(bitmap := bitmap), held := held))
  {
    hide SlotsOwn;
    hide BitsHold;
    hide FilesOk;
    var c' := c.(m := c.m.(bitmap := bitmap), held := held);
    InumInRange(sb, c, p);
    NoBlockZero(sb, c);
    assert c'.jobs == c.jobs[p := c.jobs[p]];
    JobStays(sb, c.m, c'.m, c.jobs[p]);
    StepInv(sb, c, c', p, c.jobs[p], 0);
  }

  lemma MarkInv(sb: Super, c: Core, p: nat, r: nat)
    requires CoreInv(sb, c) && Enabled(sb, c, p, Mark(r))
    ensures CoreInv(sb, AfterAction(sb, c, p, Mark(r)))
  {
    hide SlotsOwn;
    hide OwnersName;
    hide BitsHold;
    hide InUse;
    hide FilesOk;
    hide JobOk;
    MarkShared(sb, c.m, c.owner, c.held, r, p);
    NotHeld(sb, c);
    BitsInv(sb, c, p, SetBit(c.m.bitmap, r), c.held[r := Hold(p, false)]);
  }

  lemma ReleaseInv(sb: Super, c: Core, p: nat, r: nat)
    requires CoreInv(sb, c) && Enabled(sb, c, p, Release(r))
    ensures CoreInv(sb, AfterAction(sb, c, p, Release(r)))
  {
    hide SlotsOwn;
    hide OwnersName;
    hide BitsHold;
    hide InUse;
    hide FilesOk;
    hide JobOk;
    FreeShared(sb, c.m, c.owner, c.held, r);
    BitsInv(sb, c, p, ClearBit(c.m.bitmap, r), c.held - {r});
  }

  lemma CleanHold(sb: Super, m: Img, m': Img, held: map<nat, Hold>, r: nat, p: nat, job: Job)
    requires Shape(sb, m) && Shape(sb, m') && HoldOk(sb, m, held, p, job) && Untouched(sb, m, m', job.inum)
    requires r in held && held[r].job == p
    ensures HoldOk(sb, m', held[r := Hold(p, true)], p, job)
  {
    hide Addr;
    UntouchedAddr(sb, m, m', job.inum, At(job));
    UntouchedAddr(sb, m, m', job.inum, NextSlot(m, job));
  }

  lemma CleanInv(sb: Super, c: Core, p: nat, r: nat)
    requires CoreInv(sb, c) && Enabled(sb, c, p, Clean(r))
    ensures CoreInv(sb, AfterAction(sb, c, p, Clean(r)))
  {
    hide SlotsOwn;
    hide OwnersName;
    hide FilesOk;
    hide JobOk;
    hide InUse;
    hide Zero;
    hide HoldOk;
    hide Addr;
    var c' := AfterAction(sb, c, p, Clean(r));
    DataShared(sb, c.m, c.owner, c.held, c'.held, r, Zero());
    InumInRange(sb, c, p);
    OthersUntouched(sb, c.m, c.owner, c'.m, |c.m.inodes|, r, c.jobs[p].inum);
    JobStays(sb, c.m, c'.m, c.jobs[p]);
    CleanHold(sb, c.m, c'.m, c.held, r, p, c.jobs[p]);
    assert c'.jobs == c.jobs[p := c.jobs[p]];
    StepInv(sb, c, c', p, c.jobs[p], r);
  }

  // The one block that the process held is now named by a slot.
  lemma AttachHold(sb: Super, m: Img, m': Img, held: map<nat, Hold>, r: nat, p: nat, job: Job)
    requires Shape(sb, m) && Shape(sb, m') && HoldOk(sb, m, held, p, job) && r in held && held[r].job == p
    ensures HoldOk(sb, m', held - {r}, p, job) && OnlyHolds(held, held - {r}, p)
  {
    hide NextSlot;
    hide Addr;
    assert HoldsNone(held - {r}, p);
  }

  // Linking changes the inode, or its indirect block.
  lemma AttachLocal(sb: Super, c: Core, s: Slot, r: nat) returns (b: nat)
    requires Shared(sb, c.m, c.owner, c.held) && IsSlot(c.m, s) && r in c.held
    requires s.Entry? ==> 0 < c.m.inodes[s.inum].addrs[NDIRECT] < sb.size
    requires Shape(sb, Link(c.m, s, r))
    ensures Local(sb, c.m, c.owner, Link(c.m, s, r), s.inum, b)
  {
    hide OwnersName;
    hide BitsHold;
    NoBlockZero(sb, c);
    b := if s.Entry? then c.m.inodes[s.inum].addrs[NDIRECT] else 0;
    if s.Entry? {
      IndirectBlock(sb, c.m, c.owner, s.inum);
    }
  }

  lemma AttachInv(sb: Super, c: Core, p: nat, s: Slot, r: nat)
    requires CoreInv(sb, c) && Enabled(sb, c, p, Attach(s, r))
    ensures CoreInv(sb, AfterAction(sb, c, p, Attach(s, r)))
  {
    hide SlotsOwn;
    hide OwnersName;
    hide FilesOk;
    hide InUse;
    hide Addr;
    hide Copied;
    hide Settled;
    hide HoldOk;
    hide NextSlot;
    hide Link;
    hide Zero;
    var c', job := AfterAction(sb, c, p, Attach(s, r)), c.jobs[p];
    InumInRange(sb, c, p);
    LinkShared(sb, c.m, c.owner, c.held, s, r);
    LinkCopied(sb, c.m, c.owner, job, r);
    AttachHold(sb, c.m, c'.m, c.held, r, p, job);
    var b := AttachLocal(sb, c, s, r);
    assert c'.jobs == c.jobs[p := job];
    StepInv(sb, c, c', p, job, b);
  }

  lemma CopyInv(sb: Super, c: Core, p: nat)
    requires CoreInv(sb, c) && Enabled(sb, c, p, CopyBytes)
    ensures CoreInv(sb, AfterAction(sb, c, p, CopyBytes))
  {
    hide SlotsOwn;
    hide OwnersName;
    hide FilesOk;
    hide InUse;
    hide Addr;
    hide Copied;
    hide Settled;
    hide Splice;
    var c', job := AfterAction(sb, c, p, CopyBytes), c.jobs[p];
    var a := Addr(c.m, At(job));
    InumInRange(sb, c, p);
    CopyCopied(sb, c.m, c.owner, job);
    DataShared(sb, c.m, c.owner, c.held, c.held, a, c'.m.data[a]);
    StepInv(sb, c, c', p, Advance(job), a);
  }

  lemma DetachInv(sb: Super, c: Core, p: nat, s: Slot)
    requires CoreInv(sb, c) && Enabled(sb, c, p, Detach(s))
    ensures CoreInv(sb, AfterAction(sb, c, p, Detach(s)))
  {
    hide SlotsOwn;
    hide BitsHold;
    hide FilesOk;
    hide Addr;
    hide Settled;
    var c' := AfterAction(sb, c, p, Detach(s));
    InumInRange(sb, c, p);
    CutShared(sb, c.m, c.owner, c.held, s, p);
    NoBlockZero(sb, c);
    NotHeld(sb, c);
    assert c'.jobs == c.jobs[p := c.jobs[p]];
    StepInv(sb, c, c', p, c.jobs[p], 0);
  }

  lemma UpdateInv(sb: Super, c: Core, p: nat)
    requires CoreInv(sb, c) && Enabled(sb, c, p, Update)
    ensures CoreInv(sb, AfterAction(sb, c, p, Update))
  {
    hide SlotsOwn;
    hide OwnersName;
    hide BitsHold;
    hide FilesOk;
    hide Addr;
    hide Settled;
    hide Overlay;
    var c', job := AfterAction(sb, c, p, Update), c.jobs[p];
    InumInRange(sb, c, p);
    ResizeShared(sb, c.m, c.owner, c.held, job.inum, c'.m.inodes[job.inum].size);
    NoBlockZero(sb, c);
    if job.task.Write? {
      WriteSettles(sb, c.m, c'.m, job);
    } else {
      TruncSettles(sb, c'.m, job.inum);
    }
    StepInv(sb, c, c', p, job.(done := true), 0);
  }

  // A write begins: nothing is copied yet.
  lemma LockOk(sb: Super, c: Core, job: Job)
    requires CoreInv(sb, c) && Fresh(c, job)
    ensures JobOk(sb, c.m, job) && !Locked(c, job.inum)
  {
    hide SlotsOwn;
    hide OwnersName;
    hide BitsHold;
    hide JobsOk;
    hide Addr;
    assert Settled(sb, c.m, job.inum, c.files[job.inum]);
    if job.task.Write? {
      forall p: nat | p < MAXFILE * BSIZE && Reached(job, p)
        ensures Addr(c.m, FileSlot(job.inum, p / BSIZE)) != 0 && ByteAt(c.m, job.inum, p) == Expected(job, p)
      {
        assert p / BSIZE * BSIZE < c.m.inodes[job.inum].size;
        assert Content(c.m, job.inum)[p] == job.was[p];
      }
    }
  }

  lemma FewerLocked(c: Core, c': Core, p: nat, i: nat)
    requires p !in c.jobs && p in c'.jobs && c'.jobs == c.jobs[p := c'.jobs[p]] && !Locked(c', i)
    ensures !Locked(c, i)
  {
    forall q | q in c.jobs ensures c.jobs[q].inum != i {
      assert q in c'.jobs && c'.jobs[q] == c.jobs[q];
    }
  }

  lemma LockInv(sb: Super, c: Core, p: nat, job: Job)
    requires CoreInv(sb, c) && Enabled(sb, c, p, Lock(job))
    ensures CoreInv(sb, AfterAction(sb, c, p, Lock(job)))
  {
    hide SlotsOwn;
    hide OwnersName;
    hide BitsHold;
    hide JobOk;
    hide Settled;
    hide Locked;
    var c' := AfterAction(sb, c, p, Lock(job));
    LockOk(sb, c, job);
    forall i | 0 <= i < |c.files| && !Locked(c', i) ensures Settled(sb, c.m, i, c.files[i]) {
      FewerLocked(c, c', p, i);
    }
  }

  lemma UnlockInv(sb: Super, c: Core, p: nat)
    requires CoreInv(sb, c) && Enabled(sb, c, p, Unlock)
    ensures CoreInv(sb, AfterAction(sb, c, p, Unlock))
  {
    hide SlotsOwn;
    hide OwnersName;
    hide BitsHold;
    hide Addr;
    hide Settled;
    hide Overlay;
    hide Locked;
    hide HoldOk;
    var c', job := AfterAction(sb, c, p, Unlock), c.jobs[p];
    InumInRange(sb, c, p);
    if !job.done {
      WriteSettles(sb, c.m, c.m, job);
    }
    forall i | 0 <= i < |c'.files| && !Locked(c', i) ensures Settled(sb, c'.m, i, c'.files[i]) {
      OneUnlocked(c, p, i, c');
    }
  }

  lemma OneUnlocked(c: Core, p: nat, i: nat, c': Core)
    requires p in c.jobs && c'.jobs == c.jobs - {p} && !Locked(c', i)
    ensures i == c.jobs[p].inum || !Locked(c, i)
  {
    forall q | q in c.jobs && q != p ensures c.jobs[q].inum != i {
      assert q in c'.jobs && c'.jobs[q] == c.jobs[q];
    }
  }

  /** Every action of every process keeps the invariant. */
  lemma ActionInv(sb: Super, c: Core, p: nat, a: Action)
    requires CoreInv(sb, c) && Enabled(sb, c, p, a)
    ensures CoreInv(sb, AfterAction(sb, c, p, a))
  {
    hide AfterAction;
    hide Shared;
    hide JobsOk;
    hide FilesOk;
    match a
    case Lock(job) => LockInv(sb, c, p, job);
    case Mark(r) => MarkInv(sb, c, p, r);
    case Clean(r) => CleanInv(sb, c, p, r);
    case Attach(s, r) => AttachInv(sb, c, p, s, r);
    case CopyBytes => CopyInv(sb, c, p);
    case Detach(s) => DetachInv(sb, c, p, s);
    case Release(r) => ReleaseInv(sb, c, p, r);
    case Update => UpdateInv(sb, c, p);
    case Unlock => UnlockInv(sb, c, p);
  }

  /** Between operations the image is a good one and its files are those that the finished operations made. */
  lemma AtRest(sb: Super, c: Core)
    requires CoreInv(sb, c) && c.jobs == map[]
    ensures Good(sb, c.m, c.owner) && |c.files| == |c.m.inodes|
    ensures forall i :: 0 <= i < |c.files| ==> Content(c.m, i) == c.files[i]
  {
    hide SlotsOwn;
    hide OwnersName;
    hide Content;
    forall i | 0 <= i < |c.files|
      ensures FileMapped(c.m, i, c.m.inodes[i].size) && c.m.dinodes[i] == c.m.inodes[i] && Content(c.m, i) == c.files[i]
    {
      assert !Locked(c, i);
      assert Settled(sb, c.m, i, c.files[i]);
    }
    assert c.held.Keys == {};
    assert c.m.dinodes == c.m.inodes;
    assert BitsTell(sb, c.m, c.owner);
  }

  /** An image between operations, with its contents as the files, is a state from which to start. */
  lemma StartOk(sb: Super, m: Img, owner: map<nat, Slot>, files: seq<seq<byte>>)
    requires Good(sb, m, owner) && |files| == |m.inodes|
    requires forall i :: 0 <= i < |files| ==> files[i] == Content(m, i)
    ensures CoreInv(sb, Core(m, owner, map[], map[], files))
  {
    hide SlotsOwn;
    hide OwnersName;
    hide Content;
  }

  // -------------------------------------------------------------------------- progress

  // A write that needs a block when there is none: balloc panics.
  ghost predicate Stuck(sb: Super, c: Core, p: nat)
    requires Shape(sb, c.m)
  {
    && Writing(c, p) && Addr(c.m, NextSlot(c.m, c.jobs[p])) == 0 && HoldsNone(c.held, p)
    && Full(sb, c.m.bitmap)
  }

  /** No deadlock: an operation under way can take an action if and only if it is not a write that needs a block when
      the bitmap is full. */
  lemma Progress(sb: Super, c: Core, p: nat)
    requires CoreInv(sb, c) && p in c.jobs
    ensures (exists a :: Enabled(sb, c, p, a)) <==> !Stuck(sb, c, p)
  {
    hide Enabled;
    hide SlotsOwn;
    hide OwnersName;
    hide BitsHold;
    hide JobsOk;
    hide HoldsOk;
    hide FilesOk;
    hide Stuck;
    if Stuck(sb, c, p) {
      forall a ensures !Enabled(sb, c, p, a) {
        NoAction(sb, c, p, a);
      }
    } else if Writing(c, p) {
      var a := WriteProgress(sb, c, p);
    } else if c.jobs[p].task.Write? {
      var a := EndProgress(sb, c, p);
    } else {
      var a := TruncProgress(sb, c, p);
    }
  }

  lemma NoAction(sb: Super, c: Core, p: nat, a: Action)
    requires CoreInv(sb, c) && Stuck(sb, c, p)
    ensures !Enabled(sb, c, p, a)
  {
    hide SlotsOwn;
    hide OwnersName;
    hide FilesOk;
    hide InUse;
    hide Settled;
    hide Copied;
    hide Addr;
    hide NextSlot;
  }

  lemma WriteProgress(sb: Super, c: Core, p: nat) returns (a: Action)
    requires CoreInv(sb, c) && Writing(c, p) && !Stuck(sb, c, p)
    ensures Enabled(sb, c, p, a)
  {
    hide OwnersName;
    hide FilesOk;
    hide InUse;
    hide Copied;
    hide Settled;
    hide Word;
    InumInRange(sb, c, p);
    var s := NextSlot(c.m, c.jobs[p]);
    if Addr(c.m, s) != 0 {
      assert s == At(c.jobs[p]);
      a := CopyBytes;
    } else if HoldsNone(c.held, p) {
      var r: nat :| r < sb.size && !InUse(c.m.bitmap, r);
      a := Mark(r);
    } else {
      var r :| r in c.held && c.held[r].job == p;
      if s.Entry? {
        IndirectBlock(sb, c.m, c.owner, s.inum);
      }
      a := if c.held[r].clean then Attach(s, r) else Clean(r);
    }
  }

  // All bytes are copied.
  lemma EndProgress(sb: Super, c: Core, p: nat) returns (a: Action)
    requires CoreInv(sb, c) && p in c.jobs && c.jobs[p].task.Write? && !Writing(c, p)
    ensures Enabled(sb, c, p, a)
  {
    hide SlotsOwn;
    hide OwnersName;
    hide BitsHold;
    hide FilesOk;
    hide Settled;
    hide Addr;
    InumInRange(sb, c, p);
    var job := c.jobs[p];
    a := if !job.done && job.task.off + |job.task.src| > |job.was| then Update else Unlock;
  }

  lemma TruncProgress(sb: Super, c: Core, p: nat) returns (a: Action)
    requires CoreInv(sb, c) && p in c.jobs && c.jobs[p].task.Trunc?
    ensures Enabled(sb, c, p, a)
  {
    hide SlotsOwn;
    hide OwnersName;
    hide FilesOk;
    hide InUse;
    hide Settled;
    hide Word;
    InumInRange(sb, c, p);
    var job := c.jobs[p];
    if !job.done {
      var i := job.inum;
      if k :| 0 <= k < NDIRECT && c.m.inodes[i].addrs[k] != 0 {
        a := Detach(Direct(i, k));
      } else if c.m.inodes[i].addrs[NDIRECT] != 0 {
        a := Detach(Indirect(i));
      } else {
        assert forall k :: 0 <= k <= NDIRECT ==> c.m.inodes[i].addrs[k] == 0;
        a := Update;
      }
    } else if HoldsNone(c.held, p) {
      a := Unlock;
    } else {
      NotHeld(sb, c);
      var r :| r in c.held && c.held[r].job == p;
      a := Release(r);
    }
  }

  /** Taken one after the other, the actions of an allocation fill the slot as bmap does (FsImage.Fill). */
  lemma AllocationFills(sb: Super, c: Core, p: nat, r: nat)
    requires CoreInv(sb, c) && Enabled(sb, c, p, Mark(r))
    ensures var c1, s := AfterAction(sb, c, p, Mark(r)), NextSlot(c.m, c.jobs[p]);
            && Enabled(sb, c1, p, Clean(r))
            && var c2 := AfterAction(sb, c1, p, Clean(r));
               && Shape(sb, c2.m) && Enabled(sb, c2, p, Attach(s, r))
               && var c3 := AfterAction(sb, c2, p, Attach(s, r));
                  c3.m == Fill(c.m, s, r) && c3.owner == c.owner[r := s] && c3.held == c.held
  {
    hide OwnersName;
    hide FilesOk;
    hide InUse;
    hide Settled;
    hide Copied;
    hide Word;
    hide BitsHold;
    hide HoldOk;
    hide JobOk;
    InumInRange(sb, c, p);
    var s := NextSlot(c.m, c.jobs[p]);
    var c1 := AfterAction(sb, c, p, Mark(r));
    var c2 := AfterAction(sb, c1, p, Clean(r));
    FreeBlock(sb, c, r);
    if At(c.jobs[p]).Entry? && c.m.inodes[s.inum].addrs[NDIRECT] != 0 {
      IndirectBlock(sb, c.m, c.owner, s.inum);
    }
    assert NextSlot(c2.m, c2.jobs[p]) == s && Addr(c2.m, s) == 0;
  }

  // A block whose bit is clear is neither owned nor held.
  lemma FreeBlock(sb: Super, c: Core, r: nat)
    requires Shared(sb, c.m, c.owner, c.held) && r < sb.size && !InUse(c.m.bitmap, r)
    ensures r >= sb.nmeta && r !in c.owner && r !in c.held
  {
    hide InUse;
  }

  // ------------------------------------------------------------------------ what is logged

  // The block that an action changes and logs, if any.
  ghost function Logged(sb: Super, c: Core, p: nat, a: Action): set<nat>
    requires Shape(sb, c.m) && Enabled(sb, c, p, a)
  {
    match a
    case Mark(r) => {sb.BBlock(r)}
    case Clean(r) => {r}
    case Attach(s, r) => if s.Entry? then {c.m.inodes[s.inum].addrs[NDIRECT] as nat} else {}
    case CopyBytes => {Addr(c.m, At(c.jobs[p])) as nat}
    case Release(r) => {sb.BBlock(r)}
    case Update => {sb.IBlock(c.jobs[p].inum)}
    case _ => {}
  }

  /** An action changes no block of the disk but the one that it logs. */
  lemma ActionCells(sb: Super, c: Core, p: nat, a: Action, b: nat)
    requires CoreInv(sb, c) && Enabled(sb, c, p, a) && b !in Logged(sb, c, p, a)
    ensures CellOf(sb, AfterAction(sb, c, p, a).m, b) == CellOf(sb, c.m, b)
  {
    hide CellOf;
    hide SlotsOwn;
    hide OwnersName;
    hide BitsHold;
    hide JobsOk;
    hide FilesOk;
    hide Addr;
    hide InUse;
    hide Splice;
    var m, m' := c.m, AfterAction(sb, c, p, a).m;
    match a
    case Mark(r) => BitsCell(sb, m, m', r / BPB);
    case Clean(r) => DataCell(sb, m, m', r);
    case Attach(s, r) =>
      if s.Entry? {
        DataCell(sb, m, m', m.inodes[s.inum].addrs[NDIRECT]);
      } else {
        MemoryCells(sb, m, m', b);
      }
    case CopyBytes => DataCell(sb, m, m', Addr(m, At(c.jobs[p])));
    case Detach(s) => MemoryCells(sb, m, m', b);
    case Release(r) => BitsCell(sb, m, m', r / BPB);
    case Update => NodeCell(sb, m, m', c.jobs[p].inum);
    case _ =>
  }

  // Changes of the inodes in memory change no block.
  lemma MemoryCells(sb: Super, m: Img, m': Img, b: nat)
    requires m'.bitmap == m.bitmap && m'.data == m.data && m'.dinodes == m.dinodes
    ensures CellOf(sb, m', b) == CellOf(sb, m, b)
  {
  }
}
