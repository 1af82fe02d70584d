/** fs.c as it runs: balloc, bfree, bmap, itrunc, readi, writei and cleari over the blocks and inodes
    they update in place.  `calls` records the argument of every log_write; panics are results. */
module FsLayer {
  import opened FsImage
  import opened FsFiles
  import opened FsTrace
  import opened Seqs

  /** What readi, writei and cleari give back: a count, -1, the device driver's business, or a panic. */
  datatype Outcome = Count(n: nat) | Error | Device | Panic

  /** What a write has logged: data blocks, bitmap blocks, turns of the loop, data blocks allocated, and
      whether the indirect block was allocated (0 or 1). */
  datatype Tally = Tally(data: set<nat>, bits: set<nat>, turns: nat, newData: nat, ind: nat) {

    ghost predicate Ok(a0: nat, a: nat, off0: nat, tot: nat, n: nat) {
      && |data| <= turns
      && |bits| <= newData + ind
      && ind <= 1 && (ind == 1 ==> a0 == 0 && a != 0)
      && (a0 != 0 ==> a == a0)
      && newData <= turns
      && (turns == 0 ==> tot == 0)
      && (turns > 0 && off0 % BSIZE != 0 ==> newData < turns)
      && (turns > 0 ==> (turns - 1) * BSIZE < n + off0 % BSIZE)
      && (turns > 0 && tot < n ==> off0 + tot == (off0 / BSIZE + turns) * BSIZE)
    }

    ghost predicate Covers(before: seq<nat>, calls: seq<nat>, a: nat) {
      && before <= calls
      && forall k :: |before| <= k < |calls| ==> calls[k] in data || calls[k] in bits || (a != 0 && calls[k] == a)
    }

    ghost function Next(addr: nat, bm: set<nat>, isFresh: bool, newInd: bool): Tally {
      Tally(data + {addr}, bits + bm, turns + 1, newData + (if isFresh then 1 else 0), ind + (if newInd then 1 else 0))
    }
  }

  lemma TallyNext(c: Tally, a0: nat, a: nat, a': nat, off0: nat, tot: nat, n: nat, len: nat,
                  addr: nat, bm: set<nat>, isFresh: bool, newInd: bool)
    requires c.Ok(a0, a, off0, tot, n) && tot < n
    requires len == if n - tot < BSIZE - (off0 + tot) % BSIZE then n - tot else BSIZE - (off0 + tot) % BSIZE
    requires |bm| <= (if isFresh then 1 else 0) + (if newInd then 1 else 0)
    requires if newInd then a == 0 && a' != 0 else a' == a
    requires off0 % BSIZE != 0 && tot == 0 ==> !isFresh
    ensures c.Next(addr, bm, isFresh, newInd).Ok(a0, a', off0, tot + len, n)
  {
  }

  lemma TallyBound(c: Tally, a0: nat, a: nat, off0: nat, n: nat)
    requires c.Ok(a0, a, off0, n, n) && n <= 3 * BSIZE
    ensures |c.data + c.bits + {a}| <= 9
  {
    assert |c.data + c.bits| <= |c.data| + |c.bits|;
  }

  // A write that starts inside a block starts in a mapped block.
  lemma FirstBlockMapped(sb: Super, m0: Img, m: Img, i: nat, off: nat, src: seq<byte>)
    requires Written(sb, m0, m, i, off, src, 0) && FileMapped(m0, i, m0.inodes[i].size) && off <= m0.inodes[i].size
    requires off < MAXFILE * BSIZE
    ensures off % BSIZE != 0 ==> Addr(m, FileSlot(i, off / BSIZE)) != 0
  {
    if off % BSIZE != 0 {
      assert IsSlot(m0, FileSlot(i, off / BSIZE));
      assert off / BSIZE * BSIZE < m0.inodes[i].size;
    }
  }

  // What bmap logs: the block it maps, bitmap blocks bm, and the indirect block a when it is used.
  ghost predicate MapCalls(before: seq<nat>, calls: seq<nat>, addr: nat, bm: set<nat>, ind: bool, a: nat) {
    && before <= calls
    && forall k :: |before| <= k < |calls| ==> calls[k] == addr || calls[k] in bm || (ind && calls[k] == a)
  }

  /** A write under way: the image and the calls when it began, and its arguments. */
  datatype WriteJob = WriteJob(m0: Img, c0: seq<nat>, i: nat, off: nat, src: seq<byte>)

  // The invariant of the copy loop: tot bytes are in place.
  ghost predicate Copying(sb: Super, w: WriteJob, m: Img, owner: map<nat, Slot>, calls: seq<nat>, tot: nat,
          count: Tally) {
    && Owned(sb, m, owner)
    && Written(sb, w.m0, m, w.i, w.off, w.src, tot)
    && FileMapped(w.m0, w.i, w.m0.inodes[w.i].size) && w.off <= w.m0.inodes[w.i].size
    && count.Ok(w.m0.inodes[w.i].addrs[NDIRECT], m.inodes[w.i].addrs[NDIRECT], w.off, tot, |w.src|)
    && count.Covers(w.c0, calls, m.inodes[w.i].addrs[NDIRECT])
  }

  lemma CoversNext(count: Tally, c0: seq<nat>, c: seq<nat>, c1: seq<nat>, a: nat, a': nat, addr: nat, bm: set<nat>,
                   ind: bool, newData: bool, newInd: bool)
    requires count.Covers(c0, c, a) && MapCalls(c, c1, addr, bm, ind, a')
    requires a != 0 ==> a' == a
    requires ind ==> a' != 0
    ensures count.Next(addr, bm, newData, newInd).Covers(c0, c1 + [addr], a')
  {
  }

  // bmap took m, c to m1, c1, mapping block bn of file i at `addr` and logging bitmap blocks bm.
  ghost predicate MapStep(sb: Super, m: Img, c: seq<nat>, m1: Img, owner1: map<nat, Slot>, c1: seq<nat>,
                          i: nat, bn: nat, addr: nat, bm: set<nat>) {
    && BMapped(sb, m, m1, owner1, i, bn)
    && addr == Addr(m1, FileSlot(i, bn)) < sb.size
    && var a, a' := m.inodes[i].addrs[NDIRECT], m1.inodes[i].addrs[NDIRECT];
       && MapCalls(c, c1, addr, bm, bn >= NDIRECT, a')
       && (Addr(m, FileSlot(i, bn)) != 0 ==> c1 == c)
       && |bm| <= (if Addr(m, FileSlot(i, bn)) == 0 then 1 else 0) + (if bn >= NDIRECT && a == 0 then 1 else 0)
       && (bn < NDIRECT || a != 0 ==> a' == a)
       && (bn >= NDIRECT ==> a' != 0)
  }

  function ChunkLength(n: nat, off: nat, tot: nat): nat
    requires tot <= n
  {
    if n - tot < BSIZE - off % BSIZE then n - tot else BSIZE - off % BSIZE
  }

  lemma CountStep(sb: Super, w: WriteJob, m: Img, owner: map<nat, Slot>, c: seq<nat>, m1: Img,
                  owner1: map<nat, Slot>, c1: seq<nat>, tot: nat, count: Tally, addr: nat, bm: set<nat>)
    returns (count': Tally)
    requires Copying(sb, w, m, owner, c, tot, count)
    requires tot < |w.src| && MapStep(sb, m, c, m1, owner1, c1, w.i, (w.off + tot) / BSIZE, addr, bm)
    ensures var len := ChunkLength(|w.src|, w.off + tot, tot);
            && count'.Ok(w.m0.inodes[w.i].addrs[NDIRECT], m1.inodes[w.i].addrs[NDIRECT], w.off, tot + len, |w.src|)
            && count'.Covers(w.c0, c1 + [addr], m1.inodes[w.i].addrs[NDIRECT])
  {
    hide Word;
    hide MappingKept;
    hide FileMapped;
    hide SlotsOwn;
    hide OwnersName;
    hide BitsTell;
    hide BytesKept;
    hide BytesCopied;
    hide Keeps;
    hide MapCalls;
    var bn, a, a' := (w.off + tot) / BSIZE, m.inodes[w.i].addrs[NDIRECT], m1.inodes[w.i].addrs[NDIRECT];
    var len := ChunkLength(|w.src|, w.off + tot, tot);
    var newData, newInd := Addr(m, FileSlot(w.i, bn)) == 0, bn >= NDIRECT && a == 0;
    if tot == 0 {
      FirstBlockMapped(sb, w.m0, m, w.i, w.off, w.src);
    }
    count' := count.Next(addr, bm, newData, newInd);
    TallyNext(count, w.m0.inodes[w.i].addrs[NDIRECT], a, a', w.off, tot, |w.src|, len, addr, bm, newData, newInd);
    CoversNext(count, w.c0, c, c1, a, a', addr, bm, bn >= NDIRECT, newData, newInd);
  }

  // One turn of the copy loop.
  lemma CopyStep(sb: Super, w: WriteJob, m: Img, owner: map<nat, Slot>, c: seq<nat>, m1: Img, owner1: map<nat, Slot>,
                 c1: seq<nat>, tot: nat, count: Tally, addr: nat, bm: set<nat>) returns (count': Tally)
    requires Copying(sb, w, m, owner, c, tot, count) && tot < |w.src|
    requires MapStep(sb, m, c, m1, owner1, c1, w.i, (w.off + tot) / BSIZE, addr, bm)
    ensures var len := ChunkLength(|w.src|, w.off + tot, tot);
            && addr < |m1.data|
            && Copying(sb, w, PutBytes(m1, addr, (w.off + tot) % BSIZE, w.src[tot..tot + len]), owner1,
                       c1 + [addr], tot + len, count')
  {
    hide SlotsOwn;
    hide OwnersName;
    hide BitsTell;
    hide OnlyAddrs;
    hide MappingKept;
    hide BytesKept;
    hide BytesCopied;
    hide Keeps;
    hide Addr;
    count' := CountStep(sb, w, m, owner, c, m1, owner1, c1, tot, count, addr, bm);
    WrittenStep(sb, w.m0, m, m1, owner1, w.i, w.off, w.src, tot, ChunkLength(|w.src|, w.off + tot, tot));
  }

  // The bytes of one block's worth of a file.
  lemma ReadAddr(sb: Super, m: Img, owner: map<nat, Slot>, i: nat, bn: nat)
    requires Good(sb, m, owner) && i < |m.inodes| && bn * BSIZE < m.inodes[i].size
    ensures FileMapped(m, i, m.inodes[i].size) && bn < MAXFILE && 0 < Addr(m, FileSlot(i, bn)) < sb.size
  {
    hide OwnersName;
    hide BitsTell;
    assert FileMapped(m, i, m.inodes[i].size);
    assert IsSlot(m, FileSlot(i, bn));
  }

  lemma ReadChunk(sb: Super, m: Img, owner: map<nat, Slot>, i: nat, off: nat, len: nat)
    requires Good(sb, m, owner) && i < |m.inodes| && 0 < len && off + len <= m.inodes[i].size
    requires off % BSIZE + len <= BSIZE
    ensures off / BSIZE < MAXFILE && 0 < Addr(m, FileSlot(i, off / BSIZE)) < sb.size
    ensures FileMapped(m, i, m.inodes[i].size)
    ensures m.data[Addr(m, FileSlot(i, off / BSIZE))][off % BSIZE..off % BSIZE + len] == Content(m, i)[off..off + len]
  {
    hide Addr;
    hide SlotsOwn;
    hide OwnersName;
    hide BitsTell;
    var bn, o := off / BSIZE, off % BSIZE;
    ReadAddr(sb, m, owner, i, bn);
    var a := Addr(m, FileSlot(i, bn));
    forall p | off <= p < off + len
      ensures Content(m, i)[p] == m.data[a][p - off + o]
    {
      assert p / BSIZE == bn && p % BSIZE == p - off + o;
    }
  }

  lemma NoBits(bits: seq<MapBlk>)
    requires forall k :: 0 <= k < |bits| ==> forall o :: 0 <= o < BSIZE ==> bits[k][o] == 0
    ensures forall c: nat :: c / BPB < |bits| ==> !InUse(bits, c)
  {
    forall c: nat | c / BPB < |bits| ensures !InUse(bits, c) {
      ClearByte(c % 8);
    }
  }

  lemma ClearByte(k: nat)
    requires k < 8
    ensures !Bit(0, k)
  {
  }

  lemma BitIndex(b: nat, bi: nat)
    requires b % BPB == 0 && bi < BPB
    ensures (b + bi) / BPB == b / BPB && (b + bi) % BPB == bi && (b + bi) % 8 == bi % 8
  {
  }

  // No block is left.
  ghost predicate Full(sb: Super, bitmap: seq<MapBlk>) {
    forall b :: 0 <= b < sb.size ==> b / BPB < |bitmap| && InUse(bitmap, b)
  }

  class Fs {
    const sb: Super
    var bitmap: seq<MapBlk>
    var data: seq<Blk>
    var inodes: seq<Inode>
    var dinodes: seq<Inode>
    ghost var owner: map<nat, Slot>
    ghost var calls: seq<nat>
    ghost var copies: seq<Copy>   // what those calls logged

    ghost function Snap(): Img
      reads this
    {
      Img(bitmap, data, inodes, dinodes)
    }

    ghost function Tr(): Trace
      reads this
    {
      Trace(Snap(), copies, calls)
    }

    ghost predicate Valid()
      reads this
    {
      Good(sb, Snap(), owner)
    }

    /** A file system with empty inodes: the bits of the metadata blocks are set, as mkfs leaves them. */
    constructor (sb: Super, ninodes: nat)
      requires sb.Valid()
      ensures Valid() && this.sb == sb && calls == [] && copies == [] && owner == map[] && |inodes| == ninodes
      ensures forall i :: 0 <= i < ninodes ==> inodes[i].size == 0
    {
      var ino := Inode(File, 0, seq(NDIRECT + 1, _ => 0));
      var bits: seq<MapBlk> := seq(sb.size / BPB + 1, _ => seq(BSIZE, _ => 0));
      var b := 0;
      NoBits(bits);
      while b < sb.nmeta
        invariant 0 <= b <= sb.nmeta && |bits| == sb.size / BPB + 1
        invariant forall c :: 0 <= c < sb.size ==> (InUse(bits, c) <==> c < b)
      {
        forall c | 0 <= c < sb.size
          ensures InUse(SetBit(bits, b), c) <==> c < b + 1
        {
          SetBitAt(bits, b, c);
        }
        bits := SetBit(bits, b);
        b := b + 1;
      }
      this.sb := sb;
      bitmap := bits;
      data := seq(sb.size, _ => Zero());
      inodes := seq(ninodes, _ => ino);
      dinodes := seq(ninodes, _ => ino);
      owner, calls, copies := map[], [], [];
    }

    // begin_op: a new operation has logged nothing.
    method BeginOp()
      modifies this`calls, this`copies
      ensures calls == [] && copies == []
    {
      calls, copies := [], [];
    }

    // ------------------------------------------------------------ allocation

    method BZero(b: nat)
      requires b < |data|
      modifies this`data, this`calls, this`copies
      ensures data == old(data)[b := Zero()] && calls == old(calls) + [b]
      ensures LoggedSince(sb, old(Tr()), Tr())
    {
      hide CellOf;
      ghost var t := Tr();
      data := data[b := Zero()];
      DataCell(sb, t.m, Snap(), b);
      LoggedOne(sb, t, Snap(), b);
      calls, copies := calls + [b], copies + [Copy(b, CellOf(sb, Snap(), b))];
    }

    // Set bit bi of the bitmap block that starts with the bit of block b.
    method MarkInUse(b: nat, bi: nat)
      requires b % BPB == 0 && bi < BPB && b / BPB < |bitmap|
      requires (b + bi) / BPB == b / BPB
      modifies this`bitmap, this`calls, this`copies
      ensures bitmap == SetBit(old(bitmap), b + bi) && calls == old(calls) + [sb.BBlock(b + bi)]
      ensures LoggedSince(sb, old(Tr()), Tr())
    {
      hide CellOf;
      hide On;
      ghost var t := Tr();
      BitIndex(b, bi);
      bitmap := bitmap[b / BPB := bitmap[b / BPB][bi / 8 := On(bitmap[b / BPB][bi / 8], bi % 8)]];
      BitsCell(sb, t.m, Snap(), b / BPB);
      LoggedOne(sb, t, Snap(), sb.BBlock(b));
      calls, copies := calls + [sb.BBlock(b)], copies + [Copy(sb.BBlock(b), CellOf(sb, Snap(), sb.BBlock(b)))];
    }

    /** Take the first block that the bitmap calls free; panic if there is none. */
    method BAlloc() returns (ok: bool, r: nat)
      requires Shape(sb, Snap())
      modifies this`bitmap, this`data, this`calls, this`copies
      ensures ok ==> r < sb.size && !InUse(old(bitmap), r) && forall b :: 0 <= b < r ==> InUse(old(bitmap), b)
      ensures ok ==> Snap() == Take(old(Snap()), r) && calls == old(calls) + [sb.BBlock(r), r]
      ensures !ok ==> Snap() == old(Snap()) && calls == old(calls) && Full(sb, bitmap)
      ensures LoggedSince(sb, old(Tr()), Tr())
    {
      hide LoggedSince;
      ghost var t := Tr();
      LoggedNothing(sb, t, t.m);
      var b := 0;
      while b < sb.size
        invariant 0 <= b && b % BPB == 0
        invariant Snap() == old(Snap()) && calls == old(calls) && copies == old(copies)
        invariant forall c :: 0 <= c < b && c < sb.size ==> InUse(bitmap, c)
      {
        var bi := 0;
        while bi < BPB && b + bi < sb.size
          invariant 0 <= bi <= BPB
          invariant Snap() == old(Snap()) && calls == old(calls) && copies == old(copies)
          invariant forall c :: 0 <= c < b + bi && c < sb.size ==> InUse(bitmap, c)
        {
          BitIndex(b, bi);
          if !Bit(bitmap[b / BPB][bi / 8], bi % 8) {
            MarkInUse(b, bi);
            ghost var t1 := Tr();
            BZero(b + bi);
            LoggedThen(sb, t, t1, Tr());
            ok, r := true, b + bi;
            return;
          }
          bi := bi + 1;
        }
        b := b + BPB;
      }
      ok, r := false, 0;
    }

    /** Clear the bit of block b; panic if it is clear already. */
    method BFree(b: nat) returns (panicked: bool)
      requires b / BPB < |bitmap|
      modifies this`bitmap, this`calls, this`copies
      ensures panicked == !InUse(old(bitmap), b)
      ensures panicked ==> bitmap == old(bitmap) && calls == old(calls)
      ensures !panicked ==> bitmap == ClearBit(old(bitmap), b) && calls == old(calls) + [sb.BBlock(b)]
      ensures LoggedSince(sb, old(Tr()), Tr())
    {
      hide CellOf;
      hide Off;
      ghost var t := Tr();
      LoggedNothing(sb, t, t.m);
      var bi := b % BPB;
      BitIndex(b - bi, bi);
      panicked := !Bit(bitmap[b / BPB][bi / 8], bi % 8);
      if !panicked {
        bitmap := bitmap[b / BPB := bitmap[b / BPB][bi / 8 := Off(bitmap[b / BPB][bi / 8], bi % 8)]];
        BitsCell(sb, t.m, Snap(), b / BPB);
        LoggedOne(sb, t, Snap(), sb.BBlock(b));
        calls, copies := calls + [sb.BBlock(b)], copies + [Copy(sb.BBlock(b), CellOf(sb, Snap(), sb.BBlock(b)))];
      }
    }

    // Allocate a block into the empty slot of an inode address.
    method FillAddress(i: nat, k: nat) returns (ok: bool, r: nat)
      requires Owned(sb, Snap(), owner) && i < |inodes| && k <= NDIRECT && inodes[i].addrs[k] == 0
      modifies this`bitmap, this`data, this`inodes, this`calls, this`copies, this`owner
      ensures ok ==> var s := if k < NDIRECT then Direct(i, k) else Indirect(i);
                && CanFill(sb, old(Snap()), old(owner), s, r)
                && Snap() == Fill(old(Snap()), s, r) && owner == old(owner)[r := s]
                && Owned(sb, Snap(), owner)
                && inodes[i].addrs[k] == r != 0
                && calls == old(calls) + [sb.BBlock(r), r]
      ensures !ok ==> Full(sb, bitmap)
      ensures LoggedSince(sb, old(Tr()), Tr())
    {
      hide Full;
      hide LoggedSince;
      hide SlotsOwn;
      hide OwnersName;
      ghost var t := Tr();
      ghost var m0, o0 := Snap(), owner;
      ghost var s := if k < NDIRECT then Direct(i, k) else Indirect(i);
      ok, r := BAlloc();
      if ok {
        assert CanFill(sb, m0, o0, s, r);
        FillShape(sb, m0, o0, s, r);
        ghost var t1 := Tr();
        inodes := inodes[i := inodes[i].(addrs := inodes[i].addrs[k := r])];
        LoggedNothing(sb, t1, Snap());
        LoggedThen(sb, t, t1, Tr());
        owner := owner[r := s];
        FillOwned(sb, m0, o0, s, r);
      }
    }

    // Allocate a block into an empty entry of an existing indirect block.
    method FillIndirect(i: nat, j: nat) returns (ok: bool, r: nat)
      requires Owned(sb, Snap(), owner) && i < |inodes| && j < NINDIRECT
      requires inodes[i].addrs[NDIRECT] != 0 && Addr(Snap(), Entry(i, j)) == 0
      modifies this`bitmap, this`data, this`calls, this`copies, this`owner
      ensures ok ==> CanFill(sb, old(Snap()), old(owner), Entry(i, j), r)
      ensures ok ==> old(inodes)[i].addrs[NDIRECT] < sb.size
      ensures ok ==> Snap() == Fill(old(Snap()), Entry(i, j), r) && owner == old(owner)[r := Entry(i, j)]
      ensures ok ==> Owned(sb, Snap(), owner)
      ensures ok ==> calls == old(calls) + [sb.BBlock(r), r, inodes[i].addrs[NDIRECT]]
      ensures !ok ==> Full(sb, bitmap)
      ensures LoggedSince(sb, old(Tr()), Tr())
    {
      hide Full;
      hide LoggedSince;
      hide CellOf;
      hide OwnersName;
      ghost var t := Tr();
      ghost var m0, o0, s := Snap(), owner, Entry(i, j);
      var a := inodes[i].addrs[NDIRECT];
      IndirectOwned(sb, m0, o0, i);
      ok, r := BAlloc();
      if ok {
        assert CanFill(sb, m0, o0, s, r);
        FillShape(sb, m0, o0, s, r);
        ghost var t1 := Tr();
        data := data[a := SetWord(data[a], j, r)];
        DataCell(sb, t1.m, Snap(), a);
        LoggedOne(sb, t1, Snap(), a);
        calls, copies := calls + [a], copies + [Copy(a, CellOf(sb, Snap(), a))];
        LoggedThen(sb, t, t1, Tr());
        owner := owner[r := s];
        FillOwned(sb, m0, o0, s, r);
      }
    }

    method BMapDirect(i: nat, bn: nat) returns (ok: bool, addr: nat, ghost bm: set<nat>)
      requires Owned(sb, Snap(), owner) && i < |inodes| && bn < NDIRECT
      modifies this`bitmap, this`data, this`inodes, this`calls, this`copies, this`owner
      ensures ok ==> BMapped(sb, old(Snap()), Snap(), owner, i, bn)
      ensures ok ==> addr == Addr(Snap(), FileSlot(i, bn)) && addr < sb.size
      ensures ok ==> MapCalls(old(calls), calls, addr, bm, false, 0)
      ensures old(Addr(Snap(), FileSlot(i, bn))) != 0 ==> ok && calls == old(calls) && copies == old(copies)
      ensures ok ==> |bm| <= if old(Addr(Snap(), FileSlot(i, bn))) == 0 then 1 else 0
      ensures ok ==> inodes[i].addrs[NDIRECT] == old(inodes)[i].addrs[NDIRECT]
      ensures !ok ==> Full(sb, bitmap)
      ensures LoggedSince(sb, old(Tr()), Tr())
    {
      hide Full;
      hide LoggedSince;
      hide SlotsOwn;
      hide OwnersName;
      hide BitsTell;
      hide BMapped;
      LoggedNothing(sb, Tr(), Snap());
      ghost var m0, o0 := Snap(), owner;
      bm := {};
      ok := true;
      addr := inodes[i].addrs[bn];
      if addr == 0 {
        ok, addr := FillAddress(i, bn);
        if ok {
          bm := {sb.BBlock(addr)};
          FilledMapped(sb, m0, o0, i, bn, addr);
        }
      } else {
        AlreadyMapped(sb, m0, o0, i, bn);
      }
    }

    // The indirect block of inode i, allocated if necessary.
    method LoadIndirect(i: nat, ghost t: Slot) returns (ok: bool, a: nat, ghost bm: set<nat>)
      requires Owned(sb, Snap(), owner) && i < |inodes| && IsSlot(Snap(), t) && !t.Indirect?
      modifies this`bitmap, this`data, this`inodes, this`calls, this`copies, this`owner
      ensures ok ==> Owned(sb, Snap(), owner) && Keeps(sb, old(Snap()), Snap(), {Indirect(i)})
      ensures ok ==> OnlyAddrs(old(Snap()), Snap(), i) && IsSlot(Snap(), t) && Addr(Snap(), t) == old(Addr(Snap(), t))
      ensures ok ==> a == inodes[i].addrs[NDIRECT] && 0 < a < sb.size
      ensures ok ==> MapCalls(old(calls), calls, a, bm, false, 0)
      ensures ok ==> |bm| <= if old(inodes)[i].addrs[NDIRECT] == 0 then 1 else 0
      ensures old(inodes)[i].addrs[NDIRECT] != 0 ==> ok && Tr() == old(Tr())
      ensures !ok ==> Full(sb, bitmap)
      ensures LoggedSince(sb, old(Tr()), Tr())
    {
      hide Full;
      hide LoggedSince;
      hide OwnersName;
      hide BitsTell;
      hide InUse;
      LoggedNothing(sb, Tr(), Snap());
      ghost var m0, o0 := Snap(), owner;
      bm := {};
      ok := true;
      a := inodes[i].addrs[NDIRECT];
      if a == 0 {
        ok, a := FillAddress(i, NDIRECT);
        if ok {
          bm := {sb.BBlock(a)};
          FillKeeps(sb, m0, o0, Indirect(i), a);
          FillAddr(sb, m0, o0, Indirect(i), a, t);
        }
      }
      if ok {
        IndirectOwned(sb, Snap(), owner, i);
      }
    }

    // Entry j of the indirect block a, allocated if necessary.
    method LoadEntry(i: nat, j: nat, a: nat) returns (ok: bool, addr: nat, ghost bm: set<nat>)
      requires Owned(sb, Snap(), owner) && i < |inodes| && j < NINDIRECT
      requires a == inodes[i].addrs[NDIRECT] && 0 < a < sb.size
      modifies this`bitmap, this`data, this`inodes, this`calls, this`copies, this`owner
      ensures ok ==> BMapped(sb, old(Snap()), Snap(), owner, i, NDIRECT + j)
      ensures ok ==> addr == Addr(Snap(), Entry(i, j)) && addr < sb.size
      ensures ok ==> MapCalls(old(calls), calls, addr, bm, true, a)
      ensures old(Addr(Snap(), Entry(i, j))) != 0 ==> ok && calls == old(calls) && copies == old(copies)
      ensures ok ==> |bm| <= if old(Addr(Snap(), Entry(i, j))) == 0 then 1 else 0
      ensures ok ==> inodes[i].addrs[NDIRECT] == a
      ensures !ok ==> Full(sb, bitmap)
      ensures LoggedSince(sb, old(Tr()), Tr())
    {
      hide Full;
      hide LoggedSince;
      hide Word;
      hide SlotsOwn;
      hide OwnersName;
      hide BitsTell;
      hide BMapped;
      hide Fill;
      LoggedNothing(sb, Tr(), Snap());
      ghost var m0, o0 := Snap(), owner;
      bm := {};
      ok := true;
      addr := Word(data[a], j);
      if addr == 0 {
        ok, addr := FillIndirect(i, j);
        if ok {
          bm := {sb.BBlock(addr)};
          FilledMapped(sb, m0, o0, i, NDIRECT + j, addr);
        }
      } else {
        AlreadyMapped(sb, m0, o0, i, NDIRECT + j);
      }
    }

    /** The address of block bn of inode i, allocated if necessary.  `bm` are the bitmap blocks that
        allocation logged. */
    method BMap(i: nat, bn: nat) returns (ok: bool, addr: nat, ghost bm: set<nat>)
      requires Owned(sb, Snap(), owner) && i < |inodes| && bn < MAXFILE
      modifies this`bitmap, this`data, this`inodes, this`calls, this`copies, this`owner
      ensures ok ==> MapStep(sb, old(Snap()), old(calls), Snap(), owner, calls, i, bn, addr, bm)
      ensures old(Addr(Snap(), FileSlot(i, bn))) != 0 ==> ok && copies == old(copies)
      ensures !ok ==> Full(sb, bitmap)
      ensures LoggedSince(sb, old(Tr()), Tr())
    {
      hide Full;
      hide LoggedSince;
      hide SlotsOwn;
      hide OwnersName;
      hide BitsTell;
      hide Keeps;
      hide InUse;
      ghost var t := Tr();
      if bn < NDIRECT {
        ok, addr, bm := BMapDirect(i, bn);
        return;
      }
      ghost var m0 := Snap();
      ok, addr, bm := LoadIndirect(i, FileSlot(i, bn));
      if !ok {
        return;
      }
      ghost var m1, bm1, t1 := Snap(), bm, Tr();
      ok, addr, bm := LoadEntry(i, bn - NDIRECT, addr);
      LoggedThen(sb, t, t1, Tr());
      bm := bm + bm1;
      if ok && m0 != m1 {
        KeepsTwice(sb, m0, m1, Snap(), i, FileSlot(i, bn));
      }
    }

    // ------------------------------------------------------- reading and writing

    // bread(bmap(..)), memmove, log_write: one block's worth of bytes.
    method CopyBlock(ghost w: WriteJob, src: seq<byte>, i: nat, off: nat, tot: nat, ghost count: Tally)
      returns (ok: bool, len: nat, ghost count': Tally)
      requires Copying(sb, w, Snap(), owner, calls, tot, count)
      requires w.src == src && w.i == i && off == w.off + tot && tot < |src|
      modifies this`bitmap, this`data, this`inodes, this`calls, this`copies, this`owner
      ensures ok ==> 0 < len && tot + len <= |src| && Copying(sb, w, Snap(), owner, calls, tot + len, count')
      ensures !ok ==> Full(sb, bitmap)
      ensures LoggedSince(sb, old(Tr()), Tr())
    {
      hide Full;
      hide LoggedSince;
      hide CellOf;
      hide SlotsOwn;
      hide OwnersName;
      hide BitsTell;
      hide MappingKept;
      hide BytesKept;
      hide BytesCopied;
      hide Keeps;
      hide Addr;
      hide MapCalls;
      ghost var t := Tr();
      ghost var m, o, c := Snap(), owner, calls;
      var addr;
      ghost var bm;
      ok, addr, bm := BMap(i, off / BSIZE);
      len := ChunkLength(|src|, off, tot);
      count' := count;
      if ok {
        count' := CopyStep(sb, w, m, o, c, Snap(), owner, calls, tot, count, addr, bm);
        ghost var t1 := Tr();
        data := data[addr := Splice(data[addr], off % BSIZE, src[tot..tot + len])];
        DataCell(sb, t1.m, Snap(), addr);
        LoggedOne(sb, t1, Snap(), addr);
        calls, copies := calls + [addr], copies + [Copy(addr, CellOf(sb, Snap(), addr))];
        LoggedThen(sb, t, t1, Tr());
      }
    }

    /** The copy loop of writei.  `used` holds every block it logs: at most nine for a chunk of at most
        three blocks, because a write that starts inside a block finds that block mapped. */
    method CopyIn(i: nat, off0: nat, src: seq<byte>) returns (ok: bool, ghost used: set<nat>)
      requires Valid() && i < |inodes| && off0 <= inodes[i].size && off0 + |src| <= MAXFILE * BSIZE
      modifies this`bitmap, this`data, this`inodes, this`calls, this`copies, this`owner
      ensures ok ==> Owned(sb, Snap(), owner) && Written(sb, old(Snap()), Snap(), i, off0, src, |src|)
      ensures ok ==> old(calls) <= calls && forall k :: |old(calls)| <= k < |calls| ==> calls[k] in used
      ensures ok && |src| <= 3 * BSIZE ==> |used| <= 9
      ensures !ok ==> Full(sb, bitmap)
      ensures LoggedSince(sb, old(Tr()), Tr())
    {
      hide Full;
      hide LoggedSince;
      hide SlotsOwn;
      hide OwnersName;
      hide BitsTell;
      hide Keeps;
      ghost var t := Tr();
      LoggedNothing(sb, t, t.m);
      ghost var w, count := WriteJob(Snap(), calls, i, off0, src), Tally({}, {}, 0, 0, 0);
      var off, tot := off0, 0;
      assert src[..0] == [];
      ok, used := true, {};
      while tot < |src|
        invariant 0 <= tot <= |src| && off == off0 + tot && ok
        invariant Copying(sb, w, Snap(), owner, calls, tot, count)
        invariant LoggedSince(sb, t, Tr())
      {
        var len;
        ghost var t1 := Tr();
        ok, len, count := CopyBlock(w, src, i, off, tot, count);
        LoggedThen(sb, t, t1, Tr());
        if !ok {
          return;
        }
        tot, off := tot + len, off + len;
      }
      used := count.data + count.bits + {inodes[i].addrs[NDIRECT]};
      if |src| <= 3 * BSIZE {
        TallyBound(count, w.m0.inodes[i].addrs[NDIRECT], inodes[i].addrs[NDIRECT], off0, |src|);
      }
    }

    /** Write src at off.  On success the file is its old contents overlaid with src, every other file
        is unchanged and the inode on disk is the one in memory; a chunk of at most three blocks keeps
        within MAXOPBLOCKS = 10.  Errors change nothing. */
    method WriteI(i: nat, src: seq<byte>, off: u32) returns (r: Outcome)
      requires Valid() && i < |inodes| && |src| < UINT
      modifies this
      ensures r.Device? <==> old(inodes)[i].kind == Dev
      ensures r.Error? <==> old(inodes)[i].kind != Dev && (off > old(inodes)[i].size || off + |src| > MAXFILE * BSIZE)
      ensures r.Device? || r.Error? ==> Valid() && Snap() == old(Snap()) && calls == old(calls)
      ensures r.Count? ==> r.n == |src| && Valid() && |inodes| == |old(inodes)| && inodes[i].kind == old(inodes)[i].kind
      ensures r.Count? ==> Content(Snap(), i) == Overlay(old(Content(Snap(), i)), off, src)
      ensures r.Count? ==> forall j :: 0 <= j < |inodes| && j != i ==>
                inodes[j] == old(inodes)[j] && Content(Snap(), j) == old(Content(Snap(), j))
      ensures r.Count? && |src| <= 3 * BSIZE ==> WithinQuota(old(calls), calls, 10)
      ensures r.Panic? ==> Full(sb, bitmap)
      ensures LoggedSince(sb, old(Tr()), Tr())
    {
      hide Full;
      hide LoggedSince;
      hide Owned;
      hide MappingKept;
      hide BytesKept;
      hide BytesCopied;
      hide Overlay;
      hide Content;
      ghost var t := Tr();
      LoggedNothing(sb, t, t.m);
      ghost var m0, o0, c0 := Snap(), owner, calls;
      var n := |src|;
      if inodes[i].kind == Dev {
        return Device;
      }
      if off > inodes[i].size || (off + n) % UINT < off {
        return Error;
      }
      if (off + n) % UINT > MAXFILE * BSIZE {
        return Error;
      }
      var ok;
      ghost var used;
      ok, used := CopyIn(i, off, src);
      if !ok {
        return Panic;
      }
      WriteRefinesOverlay(sb, m0, o0, Snap(), owner, i, off, src);
      if n > 0 && off + n > inodes[i].size {
        ghost var t1 := Tr();
        inodes := inodes[i := inodes[i].(size := off + n)];
        LoggedNothing(sb, t1, Snap());
        ghost var t2 := Tr();
        IUpdate(i);
        LoggedThen(sb, t1, t2, Tr());
        LoggedThen(sb, t, t1, Tr());
      }
      if n <= 3 * BSIZE {
        QuotaFromSet(c0, calls, used, 10);
      }
      return Count(n);
    }

    // bread(bmap(..)), memmove: one block's worth of bytes.
    method ReadBlock(i: nat, off: nat, len: nat) returns (bytes: seq<byte>)
      requires Valid() && i < |inodes| && 0 < len && off + len <= inodes[i].size && off % BSIZE + len <= BSIZE
      modifies this`bitmap, this`data, this`inodes, this`calls, this`copies, this`owner
      ensures Valid() && Tr() == old(Tr())
      ensures bytes == Content(Snap(), i)[off..off + len]
    {
      hide Owned;
      hide LoggedSince;
      hide Content;
      hide Addr;
      hide Full;
      hide MapCalls;
      hide Keeps;
      hide Synced;
      ReadChunk(sb, Snap(), owner, i, off, len);
      var ok, addr;
      ghost var bm;
      ok, addr, bm := BMap(i, off / BSIZE);
      bytes := data[addr][off % BSIZE..off % BSIZE + len];
    }

    /** Read n bytes at off: the slice of the file's contents that exists.  Every block below the size is
        mapped, so reading allocates nothing and changes nothing. */
    method ReadI(i: nat, off0: u32, n0: u32) returns (r: Outcome, dst: seq<byte>)
      requires Valid() && i < |inodes|
      modifies this`bitmap, this`data, this`inodes, this`calls, this`copies, this`owner
      ensures Valid() && Tr() == old(Tr())
      ensures r.Device? <==> inodes[i].kind == Dev
      ensures r.Error? <==> inodes[i].kind != Dev && (off0 > inodes[i].size || off0 + n0 >= UINT)
      ensures !r.Panic?
      ensures r.Count? ==> var end := if off0 + n0 > inodes[i].size then inodes[i].size else off0 + n0;
                r.n == end - off0 && dst == Content(Snap(), i)[off0..end]
    {
      hide Owned;
      hide LoggedSince;
      hide Content;
      hide Addr;
      dst := [];
      if inodes[i].kind == Dev {
        return Device, [];
      }
      if off0 > inodes[i].size || (off0 + n0) % UINT < off0 {
        return Error, [];
      }
      var n := if (off0 + n0) % UINT > inodes[i].size then inodes[i].size - off0 else n0;
      ghost var m0, c0, d0 := Snap(), calls, copies;
      assert FileMapped(m0, i, m0.inodes[i].size);
      var tot, off := 0, off0;
      while tot < n
        invariant 0 <= tot <= n && off == off0 + tot
        invariant Snap() == m0 && calls == c0 && copies == d0 && Valid()
        invariant dst == Content(m0, i)[off0..off]
      {
        var len := ChunkLength(n, off, tot);
        var bytes := ReadBlock(i, off, len);
        dst := dst + bytes;
        Seqs.SliceChain(Content(m0, i), off0, off, off + len);
        tot, off := tot + len, off + len;
      }
      return Count(n), dst;
    }

    /** Zero the contents of file i; its size stays. */
    method ClearI(i: nat) returns (r: Outcome)
      requires Valid() && i < |inodes|
      modifies this
      ensures r.Error? <==> old(inodes)[i].kind == Dev
      ensures r.Error? ==> Valid() && Snap() == old(Snap())
      ensures r.Count? ==> Valid() && |inodes| == |old(inodes)|
      ensures r.Count? ==> Content(Snap(), i) == seq(|old(Content(Snap(), i))|, _ => 0)
      ensures r.Count? ==> forall j :: 0 <= j < |inodes| && j != i ==> Content(Snap(), j) == old(Content(Snap(), j))
      ensures r.Panic? ==> Full(sb, bitmap)
      ensures LoggedSince(sb, old(Tr()), Tr())
    {
      hide Full;
      hide LoggedSince;
      hide Owned;
      hide MappingKept;
      hide BytesKept;
      hide BytesCopied;
      hide Content;
      ghost var t := Tr();
      LoggedNothing(sb, t, t.m);
      ghost var m0, o0 := Snap(), owner;
      if inodes[i].kind == Dev {
        return Error;
      }
      assert FileMapped(m0, i, m0.inodes[i].size);
      var zeros: seq<byte> := seq(inodes[i].size, _ => 0);
      var ok;
      ghost var used;
      ok, used := CopyIn(i, 0, zeros);
      if !ok {
        return Panic;
      }
      WriteRefinesOverlay(sb, m0, o0, Snap(), owner, i, 0, zeros);
      assert Overlay(Content(m0, i), 0, zeros) == zeros;
      ghost var t1 := Tr();
      IUpdate(i);
      LoggedThen(sb, t, t1, Tr());
      assert dinodes == m0.dinodes;
      return Count(0);
    }

    // ------------------------------------------------------------ truncation

    // bfree of the block b that slot s named in m0.
    method FreeBlock(ghost m0: Img, ghost gone: set<Slot>, ghost s: Slot, b: nat) returns (panicked: bool)
      requires Owned(sb, m0, owner) && Freed(sb, m0, owner, bitmap, gone)
      requires IsSlot(m0, s) && b == Addr(m0, s) != 0 && s !in gone
      modifies this`bitmap, this`calls, this`copies
      ensures !panicked && Freed(sb, m0, owner, bitmap, gone + {s})
      ensures LoggedSince(sb, old(Tr()), Tr())
    {
      hide LoggedSince;
      hide SlotsOwn;
      hide OwnersName;
      hide BitsTell;
      hide Addr;
      FreeOne(sb, m0, owner, bitmap, gone, s);
      panicked := BFree(b);
    }

    // Free the direct blocks of inode i and zero their addresses.
    method FreeDirect(i: nat) returns (panicked: bool, ghost gone: set<Slot>)
      requires Valid() && i < |inodes|
      modifies this`bitmap, this`inodes, this`calls, this`copies
      ensures !panicked
      ensures Freed(sb, old(Snap()), owner, bitmap, gone)
      ensures forall s :: s in gone ==> s.Direct? && s.inum == i
      ensures forall k :: 0 <= k < NDIRECT && old(inodes)[i].addrs[k] != 0 ==> Direct(i, k) in gone
      ensures |inodes| == |old(inodes)| && |inodes[i].addrs| == NDIRECT + 1
      ensures forall k :: 0 <= k < NDIRECT ==> inodes[i].addrs[k] == 0
      ensures inodes[i].addrs[NDIRECT] == old(inodes)[i].addrs[NDIRECT]
      ensures inodes == old(inodes)[i := old(inodes)[i].(addrs := inodes[i].addrs)]
      ensures LoggedSince(sb, old(Tr()), Tr())
    {
      hide LoggedSince;
      hide SlotsOwn;
      hide OwnersName;
      hide BitsTell;
      hide Mapped;
      hide InUse;
      ghost var t := Tr();
      LoggedNothing(sb, t, t.m);
      ghost var m0 := Snap();
      gone := {};
      panicked := false;
      var k := 0;
      while k < NDIRECT
        invariant 0 <= k <= NDIRECT && !panicked
        invariant Freed(sb, m0, owner, bitmap, gone) && LoggedSince(sb, t, Tr())
        invariant forall s :: s in gone ==> s.Direct? && s.inum == i && s.k < k
        invariant forall h :: 0 <= h < k && m0.inodes[i].addrs[h] != 0 ==> Direct(i, h) in gone
        invariant |inodes| == |m0.inodes| && |inodes[i].addrs| == NDIRECT + 1
        invariant forall h :: 0 <= h < k ==> inodes[i].addrs[h] == 0
        invariant forall h :: k <= h <= NDIRECT ==> inodes[i].addrs[h] == m0.inodes[i].addrs[h]
        invariant inodes == m0.inodes[i := m0.inodes[i].(addrs := inodes[i].addrs)]
      {
        if inodes[i].addrs[k] != 0 {
          assert IsSlot(m0, Direct(i, k));
          ghost var t1 := Tr();
          panicked := FreeBlock(m0, gone, Direct(i, k), inodes[i].addrs[k]);
          LoggedThen(sb, t, t1, Tr());
          if panicked {
            return;
          }
          ghost var t2 := Tr();
          gone := gone + {Direct(i, k)};
          inodes := inodes[i := inodes[i].(addrs := inodes[i].addrs[k := 0])];
          LoggedNothing(sb, t2, Snap());
          LoggedThen(sb, t, t2, Tr());
        }
        k := k + 1;
      }
    }

    // Free the blocks that the entries of indirect block a name.
    method FreeEntries(ghost m0: Img, i: nat, a: nat, ghost gone0: set<Slot>)
      returns (panicked: bool, ghost gone: set<Slot>)
      requires Owned(sb, m0, owner) && i < |m0.inodes| && data == m0.data
      requires a == m0.inodes[i].addrs[NDIRECT] != 0 && a < |data|
      requires Freed(sb, m0, owner, bitmap, gone0) && forall s :: s in gone0 ==> s.Direct?
      modifies this`bitmap, this`calls, this`copies
      ensures !panicked
      ensures Freed(sb, m0, owner, bitmap, gone)
      ensures gone0 <= gone && forall s :: s in gone ==> s in gone0 || (s.Entry? && s.inum == i)
      ensures forall j :: 0 <= j < NINDIRECT && Addr(m0, Entry(i, j)) != 0 ==> Entry(i, j) in gone
      ensures LoggedSince(sb, old(Tr()), Tr())
    {
      hide LoggedSince;
      hide Freed;
      hide SlotsOwn;
      hide OwnersName;
      hide BitsTell;
      hide InUse;
      ghost var t := Tr();
      LoggedNothing(sb, t, t.m);
      gone := gone0;
      panicked := false;
      var j := 0;
      while j < NINDIRECT
        invariant 0 <= j <= NINDIRECT && !panicked
        invariant Freed(sb, m0, owner, bitmap, gone) && gone0 <= gone && LoggedSince(sb, t, Tr())
        invariant forall s :: s in gone ==> s in gone0 || (s.Entry? && s.inum == i && s.j < j)
        invariant forall h :: 0 <= h < j && Addr(m0, Entry(i, h)) != 0 ==> Entry(i, h) in gone
      {
        assert IsSlot(m0, Entry(i, j)) && Addr(m0, Entry(i, j)) == Word(data[a], j);
        if Word(data[a], j) != 0 {
          ghost var t1 := Tr();
          panicked := FreeBlock(m0, gone, Entry(i, j), Word(data[a], j));
          LoggedThen(sb, t, t1, Tr());
          if panicked {
            return;
          }
          gone := gone + {Entry(i, j)};
        }
        j := j + 1;
      }
    }

    // Free the blocks of the entries of indirect block a, then a itself.
    method FreeIndirect(ghost m0: Img, i: nat, a: nat, ghost gone0: set<Slot>)
      returns (panicked: bool, ghost gone: set<Slot>)
      requires Owned(sb, m0, owner) && i < |m0.inodes| && data == m0.data
      requires a == m0.inodes[i].addrs[NDIRECT] != 0
      requires Freed(sb, m0, owner, bitmap, gone0) && forall s :: s in gone0 ==> s.Direct? && s.inum == i
      modifies this`bitmap, this`calls, this`copies
      ensures !panicked
      ensures Freed(sb, m0, owner, bitmap, gone)
      ensures gone0 <= gone && Indirect(i) in gone && forall s :: s in gone ==> s.inum == i
      ensures forall j :: 0 <= j < NINDIRECT && Addr(m0, Entry(i, j)) != 0 ==> Entry(i, j) in gone
      ensures LoggedSince(sb, old(Tr()), Tr())
    {
      hide LoggedSince;
      hide Freed;
      hide SlotsOwn;
      hide OwnersName;
      hide BitsTell;
      hide InUse;
      ghost var t := Tr();
      IndirectOwned(sb, m0, owner, i);
      panicked, gone := FreeEntries(m0, i, a, gone0);
      assert IsSlot(m0, Indirect(i));
      ghost var t1 := Tr();
      panicked := FreeBlock(m0, gone, Indirect(i), a);
      LoggedThen(sb, t, t1, Tr());
      gone := gone + {Indirect(i)};
    }

    method IUpdate(i: nat)
      requires i < |inodes| == |dinodes|
      modifies this`dinodes, this`calls, this`copies
      ensures dinodes == old(dinodes)[i := inodes[i]] && calls == old(calls) + [sb.IBlock(i)]
      ensures LoggedSince(sb, old(Tr()), Tr())
    {
      hide CellOf;
      ghost var t := Tr();
      dinodes := dinodes[i := inodes[i]];
      NodeCell(sb, t.m, Snap(), i);
      LoggedOne(sb, t, Snap(), sb.IBlock(i));
      calls, copies := calls + [sb.IBlock(i)], copies + [Copy(sb.IBlock(i), CellOf(sb, Snap(), sb.IBlock(i)))];
    }

    /** Discard the contents of inode i.  No call of bfree panics: the bits of the blocks it owns are
        set, and after it exactly those are clear. */
    method ITrunc(i: nat) returns (panicked: bool)
      requires Valid() && i < |inodes|
      modifies this
      ensures !panicked
      ensures Truncated(sb, old(Snap()), old(owner), i, Snap()) && owner == Disown(old(owner), i)
      ensures Valid()
      ensures Content(Snap(), i) == []
      ensures forall j :: 0 <= j < |inodes| && j != i ==> Content(Snap(), j) == old(Content(Snap(), j))
      ensures LoggedSince(sb, old(Tr()), Tr())
    {
      hide LoggedSince;
      hide Word;
      hide Addr;
      hide InUse;
      hide SlotsOwn;
      hide OwnersName;
      hide BitsTell;
      hide Freed;
      hide Mapped;
      hide Synced;
      ghost var t := Tr();
      ghost var m0, o0 := Snap(), owner;
      ghost var gone;
      panicked, gone := FreeDirect(i);
      var a := inodes[i].addrs[NDIRECT];
      ghost var t1 := Tr();
      if a != 0 {
        panicked, gone := FreeIndirect(m0, i, a, gone);
        LoggedThen(sb, t, t1, Tr());
        t1 := Tr();
        inodes := inodes[i := inodes[i].(addrs := inodes[i].addrs[NDIRECT := 0])];
      }
      inodes := inodes[i := inodes[i].(size := 0)];
      LoggedNothing(sb, t1, Snap());
      ghost var t2 := Tr();
      IUpdate(i);
      LoggedThen(sb, t1, t2, Tr());
      LoggedThen(sb, t, t1, Tr());
      owner := Disown(o0, i);
      assert inodes[i].addrs == seq(NDIRECT + 1, _ => 0);
      AllGone(sb, m0, o0, i, bitmap, gone);
      TruncKeepsOthers(sb, m0, o0, i, Snap());
    }
  }

  // Every slot of inode i that named a block is gone, and no other.
  lemma AllGone(sb: Super, m: Img, owner: map<nat, Slot>, i: nat, bitmap: seq<MapBlk>, gone: set<Slot>)
    requires Owned(sb, m, owner) && i < |m.inodes| && Freed(sb, m, owner, bitmap, gone)
    requires forall s :: s in gone ==> s.inum == i
    requires forall k :: 0 <= k < NDIRECT && m.inodes[i].addrs[k] != 0 ==> Direct(i, k) in gone
    requires m.inodes[i].addrs[NDIRECT] != 0 ==>
               Indirect(i) in gone &&
               forall j :: 0 <= j < NINDIRECT && Addr(m, Entry(i, j)) != 0 ==> Entry(i, j) in gone
    ensures Covers(bitmap, sb.size)
    ensures forall b :: 0 <= b < sb.size ==>
              (InUse(bitmap, b) <==> InUse(m.bitmap, b) && !(b in owner && owner[b].inum == i))
  {
    forall b | b in owner && owner[b].inum == i ensures owner[b] in gone {
      assert IsSlot(m, owner[b]) && Addr(m, owner[b]) == b;
    }
  }
}
