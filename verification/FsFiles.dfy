/** What allocation, byte copies and truncation do to the files of a file-system image. */
module FsFiles {
  import opened FsImage
  import opened Seqs

  // ------------------------------------------------------ allocation keeps files

  // m' names, for every file slot outside x, the block m names, and keeps the bytes of every block
  // that m has mapped.
  ghost predicate Keeps(sb: Super, m: Img, m': Img, x: set<Slot>)
    requires Shape(sb, m) && Shape(sb, m')
  {
    && |m'.inodes| == |m.inodes|
    && (forall t: Slot :: IsSlot(m, t) && !t.Indirect? && t !in x ==> Addr(m', t) == Addr(m, t))
    && (forall t: Slot :: IsSlot(m, t) && !t.Indirect? && Addr(m, t) != 0 ==>
          t !in x && Addr(m, t) < sb.size && m'.data[Addr(m, t)] == m.data[Addr(m, t)])
  }

  // Only the addresses of inode i differ.
  ghost predicate OnlyAddrs(m: Img, m': Img, i: nat)
    requires i < |m.inodes|
  {
    && |m'.inodes| == |m.inodes|
    && m'.dinodes == m.dinodes
    && (forall j :: 0 <= j < |m.inodes| && j != i ==> m'.inodes[j] == m.inodes[j])
    && m'.inodes[i] == m.inodes[i].(addrs := m'.inodes[i].addrs)
  }

  lemma FillData(sb: Super, m: Img, owner: map<nat, Slot>, s: Slot, r: nat, t: Slot)
    requires CanFill(sb, m, owner, s, r) && IsSlot(m, t) && !t.Indirect? && Addr(m, t) != 0
    ensures s.Entry? ==> m.inodes[s.inum].addrs[NDIRECT] < sb.size
    ensures t != s && Addr(m, t) < sb.size
    ensures Fill(m, s, r).data[Addr(m, t)] == m.data[Addr(m, t)]
  {
    hide Word;
    hide InUse;
    hide OwnersName;
    FillShape(sb, m, owner, s, r);
    if s.Entry? {
      IndirectOwned(sb, m, owner, s.inum);
    }
  }

  lemma FillKeeps(sb: Super, m: Img, owner: map<nat, Slot>, s: Slot, r: nat)
    requires CanFill(sb, m, owner, s, r)
    ensures s.Entry? ==> m.inodes[s.inum].addrs[NDIRECT] < sb.size
    ensures Shape(sb, Fill(m, s, r))
    ensures Keeps(sb, m, Fill(m, s, r), {s})
    ensures OnlyAddrs(m, Fill(m, s, r), s.inum)
  {
    hide Word;
    hide InUse;
    hide SlotsOwn;
    hide OwnersName;
    FillShape(sb, m, owner, s, r);
    var m' := Fill(m, s, r);
    forall t: Slot | IsSlot(m, t) && !t.Indirect? && t != s ensures Addr(m', t) == Addr(m, t) {
      FillAddr(sb, m, owner, s, r, t);
    }
    forall t: Slot | IsSlot(m, t) && !t.Indirect? && Addr(m, t) != 0
      ensures t != s && Addr(m, t) < sb.size && m'.data[Addr(m, t)] == m.data[Addr(m, t)]
    {
      FillData(sb, m, owner, s, r, t);
    }
  }

  // Allocating the indirect block and then one of its entries.
  lemma KeepsTwice(sb: Super, m: Img, m1: Img, m2: Img, i: nat, x: Slot)
    requires i < |m.inodes| && Shape(sb, m) && Shape(sb, m1) && Shape(sb, m2)
    requires Keeps(sb, m, m1, {Indirect(i)}) && Keeps(sb, m1, m2, {x})
    requires OnlyAddrs(m, m1, i) && OnlyAddrs(m1, m2, i)
    ensures Keeps(sb, m, m2, {x}) && OnlyAddrs(m, m2, i)
  {
    forall t: Slot | IsSlot(m, t) && !t.Indirect?
      ensures t != x ==> Addr(m2, t) == Addr(m, t)
      ensures Addr(m, t) != 0 ==> t != x && m2.data[Addr(m, t)] == m.data[Addr(m, t)]
    {
      assert IsSlot(m1, t);
      assert t !in {Indirect(i)};
    }
  }

  // ------------------------------------------------------- bytes into a block

  function Splice(b: Blk, o: nat, bytes: seq<byte>): Blk
    requires o + |bytes| <= BSIZE
  {
    b[..o] + bytes + b[o + |bytes|..]
  }

  function PutBytes(m: Img, a: nat, o: nat, bytes: seq<byte>): Img
    requires a < |m.data| && o + |bytes| <= BSIZE
  {
    m.(data := m.data[a := Splice(m.data[a], o, bytes)])
  }

  // Bytes copied into a file's data block change no address and no bit.
  lemma PutAddr(sb: Super, m: Img, owner: map<nat, Slot>, s: Slot, o: nat, bytes: seq<byte>, t: Slot)
    requires Owned(sb, m, owner) && IsSlot(m, s) && !s.Indirect? && Addr(m, s) != 0
    requires o + |bytes| <= BSIZE && IsSlot(m, t)
    ensures Addr(m, s) < sb.size
    ensures Addr(PutBytes(m, Addr(m, s), o, bytes), t) == Addr(m, t)
  {
    if t.Entry? && m.inodes[t.inum].addrs[NDIRECT] != 0 {
      IndirectOwned(sb, m, owner, t.inum);
    }
  }

  lemma PutOwned(sb: Super, m: Img, owner: map<nat, Slot>, s: Slot, o: nat, bytes: seq<byte>)
    requires Owned(sb, m, owner) && IsSlot(m, s) && !s.Indirect? && Addr(m, s) != 0
    requires o + |bytes| <= BSIZE
    ensures Addr(m, s) < sb.size
    ensures Owned(sb, PutBytes(m, Addr(m, s), o, bytes), owner)
  {
    assert Addr(m, s) < sb.size;
    var m' := PutBytes(m, Addr(m, s), o, bytes);
    assert Shape(sb, m');
    forall t | IsSlot(m', t) && Addr(m', t) != 0
      ensures sb.nmeta <= Addr(m', t) < sb.size && Addr(m', t) in owner && owner[Addr(m', t)] == t
    {
      assert IsSlot(m, t);
      PutAddr(sb, m, owner, s, o, bytes, t);
    }
    forall b | b in owner ensures b != 0 && IsSlot(m', owner[b]) && Addr(m', owner[b]) == b {
      PutAddr(sb, m, owner, s, o, bytes, owner[b]);
    }
  }

  // ------------------------------------------------------ progress of a write

  // `tot` bytes of src have been copied into file i at `off`; the rest of every file is as in m0.
  ghost predicate Written(sb: Super, m0: Img, m: Img, i: nat, off: nat, src: seq<byte>, tot: nat) {
    && Shape(sb, m0) && Shape(sb, m) && i < |m0.inodes| && tot <= |src| && off + |src| <= MAXFILE * BSIZE
    && OnlyAddrs(m0, m, i)
    && MappingKept(sb, m0, m)
    && BytesKept(sb, m0, m, i, off, off + tot)
    && BytesCopied(sb, m, i, off, src[..tot])
    && (off + tot <= m0.inodes[i].size ==> m.inodes[i] == m0.inodes[i])
  }

  ghost predicate MappingKept(sb: Super, m0: Img, m: Img)
    requires Shape(sb, m0) && Shape(sb, m) && |m.inodes| == |m0.inodes|
  {
    forall t: Slot :: IsSlot(m0, t) && !t.Indirect? && Addr(m0, t) != 0 ==> Addr(m, t) == Addr(m0, t)
  }

  ghost predicate BytesKept(sb: Super, m0: Img, m: Img, i: nat, lo: nat, hi: nat)
    requires Shape(sb, m0) && Shape(sb, m) && |m.inodes| == |m0.inodes|
  {
    forall j, p | 0 <= j < |m0.inodes| && 0 <= p < MAXFILE * BSIZE :: ByteKept(sb, m0, m, i, lo, hi, j, p)
  }

  ghost predicate ByteKept(sb: Super, m0: Img, m: Img, i: nat, lo: nat, hi: nat, j: nat, p: nat)
    requires Shape(sb, m0) && Shape(sb, m) && |m.inodes| == |m0.inodes|
    requires j < |m0.inodes| && p < MAXFILE * BSIZE
  {
    Addr(m0, FileSlot(j, p / BSIZE)) != 0 && !(j == i && lo <= p < hi) ==> ByteAt(m, j, p) == ByteAt(m0, j, p)
  }

  ghost predicate BytesCopied(sb: Super, m: Img, i: nat, off: nat, src: seq<byte>)
    requires Shape(sb, m) && i < |m.inodes| && off + |src| <= MAXFILE * BSIZE
  {
    forall p :: off <= p < off + |src| ==> Addr(m, FileSlot(i, p / BSIZE)) != 0 && ByteAt(m, i, p) == src[p - off]
  }

  // bmap takes m to m1: block bn of file i is mapped, and nothing else about files has changed.
  ghost predicate BMapped(sb: Super, m: Img, m1: Img, owner1: map<nat, Slot>, i: nat, bn: nat) {
    && Shape(sb, m) && Owned(sb, m1, owner1) && i < |m.inodes| && bn < MAXFILE
    && OnlyAddrs(m, m1, i)
    && Keeps(sb, m, m1, if Addr(m, FileSlot(i, bn)) == 0 then {FileSlot(i, bn)} else {})
    && (Addr(m, FileSlot(i, bn)) != 0 ==> m1 == m)
    && Addr(m1, FileSlot(i, bn)) != 0
  }

  lemma AlreadyMapped(sb: Super, m: Img, owner: map<nat, Slot>, i: nat, bn: nat)
    requires Owned(sb, m, owner) && i < |m.inodes| && bn < MAXFILE && Addr(m, FileSlot(i, bn)) != 0
    ensures BMapped(sb, m, m, owner, i, bn) && Addr(m, FileSlot(i, bn)) < sb.size
  {
    hide OwnersName;
    hide BitsTell;
    assert IsSlot(m, FileSlot(i, bn));
  }

  lemma FilledMapped(sb: Super, m: Img, owner: map<nat, Slot>, i: nat, bn: nat, r: nat)
    requires bn < MAXFILE && CanFill(sb, m, owner, FileSlot(i, bn), r)
    ensures bn >= NDIRECT ==> m.inodes[i].addrs[NDIRECT] < sb.size
    ensures BMapped(sb, m, Fill(m, FileSlot(i, bn), r), owner[r := FileSlot(i, bn)], i, bn)
    ensures Addr(Fill(m, FileSlot(i, bn), r), FileSlot(i, bn)) == r
  {
    hide SlotsOwn;
    hide OwnersName;
    hide InUse;
    var s := FileSlot(i, bn);
    FillShape(sb, m, owner, s, r);
    FillKeeps(sb, m, owner, s, r);
    FillOwned(sb, m, owner, s, r);
    FillAddr(sb, m, owner, s, r, s);
  }

  // One turn of the copy loop: bmap takes m to m1, then `chunk` goes into block bn of file i.
  ghost predicate Turn(sb: Super, m: Img, m1: Img, owner1: map<nat, Slot>, i: nat, bn: nat, o: nat, chunk: seq<byte>) {
    BMapped(sb, m, m1, owner1, i, bn) && o + |chunk| <= BSIZE
  }

  ghost function After(sb: Super, m: Img, m1: Img, owner1: map<nat, Slot>, i: nat, bn: nat, o: nat,
          chunk: seq<byte>): (m2: Img)
    requires Turn(sb, m, m1, owner1, i, bn, o, chunk)
    ensures Shape(sb, m2)
  {
    PutOwned(sb, m1, owner1, FileSlot(i, bn), o, chunk);
    PutBytes(m1, Addr(m1, FileSlot(i, bn)), o, chunk)
  }

  // What a turn does to a byte of a mapped block.
  lemma TurnByte(sb: Super, m: Img, m1: Img, owner1: map<nat, Slot>, i: nat, bn: nat, o: nat, chunk: seq<byte>,
          j: nat, p: nat)
    requires Turn(sb, m, m1, owner1, i, bn, o, chunk)
    requires j < |m.inodes| && p < MAXFILE * BSIZE && Addr(m, FileSlot(j, p / BSIZE)) != 0
    requires !(j == i && bn * BSIZE + o <= p < bn * BSIZE + o + |chunk|)
    ensures Addr(After(sb, m, m1, owner1, i, bn, o, chunk), FileSlot(j, p / BSIZE)) == Addr(m, FileSlot(j, p / BSIZE))
    ensures ByteAt(After(sb, m, m1, owner1, i, bn, o, chunk), j, p) == ByteAt(m, j, p)
  {
    hide OwnersName;
    hide BitsTell;
    var s, t := FileSlot(i, bn), FileSlot(j, p / BSIZE);
    assert IsSlot(m, t) && IsSlot(m1, t) && IsSlot(m1, s) && IsSlot(m, s);
    PutAddr(sb, m1, owner1, s, o, chunk, t);
    assert Addr(m1, t) == Addr(m, t);
    if t != s {
      assert owner1[Addr(m1, t)] == t && owner1[Addr(m1, s)] == s;
    }
  }

  lemma TurnCopies(sb: Super, m: Img, m1: Img, owner1: map<nat, Slot>, i: nat, bn: nat, o: nat, chunk: seq<byte>,
          p: nat)
    requires Turn(sb, m, m1, owner1, i, bn, o, chunk)
    requires bn * BSIZE + o <= p < bn * BSIZE + o + |chunk|
    ensures p / BSIZE == bn
    ensures Addr(After(sb, m, m1, owner1, i, bn, o, chunk), FileSlot(i, bn)) != 0
    ensures ByteAt(After(sb, m, m1, owner1, i, bn, o, chunk), i, p) == chunk[p - bn * BSIZE - o]
  {
    hide SlotsOwn;
    hide OwnersName;
    hide BitsTell;
    hide Keeps;
    hide Addr;
    hide InUse;
    var s := FileSlot(i, bn);
    assert p / BSIZE == bn && p % BSIZE == p - bn * BSIZE;
    assert IsSlot(m1, s);
    PutAddr(sb, m1, owner1, s, o, chunk, s);
  }

  lemma TurnMapping(sb: Super, m: Img, m1: Img, owner1: map<nat, Slot>, i: nat, bn: nat, o: nat, chunk: seq<byte>)
    requires Turn(sb, m, m1, owner1, i, bn, o, chunk)
    ensures MappingKept(sb, m, After(sb, m, m1, owner1, i, bn, o, chunk))
  {
    forall t: Slot | IsSlot(m, t) && !t.Indirect? && Addr(m, t) != 0
      ensures Addr(After(sb, m, m1, owner1, i, bn, o, chunk), t) == Addr(m, t)
    {
      assert IsSlot(m1, t) && IsSlot(m1, FileSlot(i, bn));
      PutAddr(sb, m1, owner1, FileSlot(i, bn), o, chunk, t);
    }
  }

  // A turn of the loop at position off + tot of the file.
  ghost predicate NextTurn(sb: Super, m0: Img, m: Img, m1: Img, owner1: map<nat, Slot>, i: nat, off: nat,
          src: seq<byte>, tot: nat, len: nat) {
    && Written(sb, m0, m, i, off, src, tot)
    && 0 < len && tot + len <= |src|
    && FileMapped(m0, i, m0.inodes[i].size) && off <= m0.inodes[i].size
    && Turn(sb, m, m1, owner1, i, (off + tot) / BSIZE, (off + tot) % BSIZE, src[tot..tot + len])
  }

  ghost function Result(sb: Super, m0: Img, m: Img, m1: Img, owner1: map<nat, Slot>, i: nat, off: nat,
          src: seq<byte>, tot: nat, len: nat): (m2: Img)
    requires NextTurn(sb, m0, m, m1, owner1, i, off, src, tot, len)
    ensures Shape(sb, m2)
  {
    After(sb, m, m1, owner1, i, (off + tot) / BSIZE, (off + tot) % BSIZE, src[tot..tot + len])
  }

  lemma StepBytesKept(sb: Super, m0: Img, m: Img, m1: Img, owner1: map<nat, Slot>, i: nat, off: nat, src: seq<byte>,
          tot: nat, len: nat)
    requires NextTurn(sb, m0, m, m1, owner1, i, off, src, tot, len)
    ensures BytesKept(sb, m0, Result(sb, m0, m, m1, owner1, i, off, src, tot, len), i, off, off + tot + len)
  {
    hide SlotsOwn;
    hide OwnersName;
    hide BitsTell;
    hide Keeps;
    hide BytesCopied;
    var m2 := Result(sb, m0, m, m1, owner1, i, off, src, tot, len);
    var hi := off + tot + len;
    forall j, p | 0 <= j < |m0.inodes| && 0 <= p < MAXFILE * BSIZE
      ensures ByteKept(sb, m0, m2, i, off, hi, j, p)
    {
      var t := FileSlot(j, p / BSIZE);
      if Addr(m0, t) != 0 && !(j == i && off <= p < hi) {
        assert IsSlot(m0, t);
        assert ByteKept(sb, m0, m, i, off, off + tot, j, p);
        TurnByte(sb, m, m1, owner1, i, (off + tot) / BSIZE, (off + tot) % BSIZE, src[tot..tot + len], j, p);
      }
    }
  }

  lemma StepBytesCopied(sb: Super, m0: Img, m: Img, m1: Img, owner1: map<nat, Slot>, i: nat, off: nat,
          src: seq<byte>, tot: nat, len: nat)
    requires NextTurn(sb, m0, m, m1, owner1, i, off, src, tot, len)
    ensures BytesCopied(sb, Result(sb, m0, m, m1, owner1, i, off, src, tot, len), i, off, src[..tot + len])
  {
    hide SlotsOwn;
    hide OwnersName;
    hide BitsTell;
    hide Keeps;
    hide BytesKept;
    var m2 := Result(sb, m0, m, m1, owner1, i, off, src, tot, len);
    var bn, o, chunk := (off + tot) / BSIZE, (off + tot) % BSIZE, src[tot..tot + len];
    forall p | off <= p < off + tot + len
      ensures Addr(m2, FileSlot(i, p / BSIZE)) != 0 && ByteAt(m2, i, p) == src[..tot + len][p - off]
    {
      if p < off + tot {
        assert ByteAt(m, i, p) == src[..tot][p - off];
        TurnByte(sb, m, m1, owner1, i, bn, o, chunk, i, p);
      } else {
        TurnCopies(sb, m, m1, owner1, i, bn, o, chunk, p);
      }
    }
  }

  /** One turn of the copy loop of writei extends what has been written. */
  lemma WrittenStep(sb: Super, m0: Img, m: Img, m1: Img, owner1: map<nat, Slot>, i: nat, off: nat, src: seq<byte>,
          tot: nat, len: nat)
    requires NextTurn(sb, m0, m, m1, owner1, i, off, src, tot, len)
    ensures Written(sb, m0, Result(sb, m0, m, m1, owner1, i, off, src, tot, len), i, off, src, tot + len)
    ensures Owned(sb, Result(sb, m0, m, m1, owner1, i, off, src, tot, len), owner1)
  {
    var m2 := Result(sb, m0, m, m1, owner1, i, off, src, tot, len);
    var bn, o, chunk := (off + tot) / BSIZE, (off + tot) % BSIZE, src[tot..tot + len];
    StepBytesKept(sb, m0, m, m1, owner1, i, off, src, tot, len);
    StepBytesCopied(sb, m0, m, m1, owner1, i, off, src, tot, len);
    TurnMapping(sb, m, m1, owner1, i, bn, o, chunk);
    PutOwned(sb, m1, owner1, FileSlot(i, bn), o, chunk);
    assert MappingKept(sb, m0, m2);
    if off + tot + len <= m0.inodes[i].size {
      assert bn * BSIZE < m0.inodes[i].size;
      assert IsSlot(m0, FileSlot(i, bn));
    }
  }

  // ------------------------------------------------------------ a whole write

  // writei's tail: the size grows to `end`, and iupdate copies the inode to disk.
  function Resize(m: Img, i: nat, end: u32): Img
    requires i < |m.inodes| == |m.dinodes|
  {
    var ino := m.inodes[i].(size := end);
    m.(inodes := m.inodes[i := ino], dinodes := m.dinodes[i := ino])
  }

  ghost predicate Synced(m: Img) {
    m.dinodes == m.inodes
  }

  /** The invariant of the file system between operations. */
  ghost predicate Good(sb: Super, m: Img, owner: map<nat, Slot>) {
    Owned(sb, m, owner) && Mapped(m) && Synced(m)
  }

  // Some assignment of owners makes the image a good one.
  ghost predicate Sound(sb: Super, m: Img) {
    exists owner :: Good(sb, m, owner)
  }

  // The image after the copy loop and the tail of writei.
  ghost function Finish(m0: Img, m: Img, i: nat, end: nat): Img
    requires i < |m0.inodes| && i < |m.inodes| == |m.dinodes| && end < UINT
  {
    if end > m0.inodes[i].size then Resize(m, i, end) else m
  }

  lemma FinishAddr(m0: Img, m: Img, i: nat, end: nat, t: Slot)
    requires i < |m0.inodes| && i < |m.inodes| == |m.dinodes| && end < UINT
    requires IsSlot(m, t) && |m.inodes[t.inum].addrs| == NDIRECT + 1
    ensures IsSlot(Finish(m0, m, i, end), t) && |Finish(m0, m, i, end).inodes[t.inum].addrs| == NDIRECT + 1
    ensures Addr(Finish(m0, m, i, end), t) == Addr(m, t)
  {
  }

  lemma FinishOwned(sb: Super, m0: Img, m: Img, owner: map<nat, Slot>, i: nat, end: nat)
    requires Owned(sb, m, owner) && i < |m0.inodes| && i < |m.inodes| && end < UINT
    ensures Owned(sb, Finish(m0, m, i, end), owner)
  {
    var m' := Finish(m0, m, i, end);
    assert Shape(sb, m');
    forall t | IsSlot(m', t) && Addr(m', t) != 0
      ensures sb.nmeta <= Addr(m', t) < sb.size && Addr(m', t) in owner && owner[Addr(m', t)] == t
    {
      assert IsSlot(m, t);
      FinishAddr(m0, m, i, end, t);
    }
    forall b | b in owner ensures b != 0 && IsSlot(m', owner[b]) && Addr(m', owner[b]) == b {
      FinishAddr(m0, m, i, end, owner[b]);
    }
  }

  lemma FinishMapped(sb: Super, m0: Img, m: Img, i: nat, off: nat, src: seq<byte>)
    requires Written(sb, m0, m, i, off, src, |src|) && Mapped(m0) && off <= m0.inodes[i].size
    ensures Mapped(Finish(m0, m, i, off + |src|))
  {
    hide Word;
    hide BytesKept;
    var end := off + |src|;
    var m' := Finish(m0, m, i, end);
    forall j | 0 <= j < |m'.inodes| ensures FileMapped(m', j, m'.inodes[j].size) {
      assert FileMapped(m0, j, m0.inodes[j].size);
      forall bn | 0 <= bn < MAXFILE && bn * BSIZE < m'.inodes[j].size
        ensures Addr(m', FileSlot(j, bn)) != 0
      {
        FinishAddr(m0, m, i, end, FileSlot(j, bn));
        assert IsSlot(m0, FileSlot(j, bn));
        if bn * BSIZE >= m0.inodes[j].size {
          assert ByteAt(m, i, bn * BSIZE) == src[..|src|][bn * BSIZE - off];
          assert bn * BSIZE / BSIZE == bn;
        }
      }
    }
  }

  // Reading file j through the finished image.
  lemma FinishByte(sb: Super, m0: Img, m: Img, i: nat, off: nat, src: seq<byte>, j: nat, p: nat)
    requires Written(sb, m0, m, i, off, src, |src|) && Mapped(m0) && off <= m0.inodes[i].size
    requires j < |m0.inodes| && p < Finish(m0, m, i, off + |src|).inodes[j].size <= MAXFILE * BSIZE
    ensures |Finish(m0, m, i, off + |src|).inodes[j].addrs| == NDIRECT + 1
    ensures j == i && off <= p < off + |src| ==> ByteAt(Finish(m0, m, i, off + |src|), j, p) == src[p - off]
    ensures !(j == i && off <= p < off + |src|) ==>
              p < m0.inodes[j].size && ByteAt(Finish(m0, m, i, off + |src|), j, p) == ByteAt(m0, j, p)
  {
    var end := off + |src|;
    FinishAddr(m0, m, i, end, FileSlot(j, p / BSIZE));
    assert FileMapped(m0, j, m0.inodes[j].size);
    assert ByteAt(Finish(m0, m, i, end), j, p) == ByteAt(m, j, p);
    if j == i && off <= p < end {
      assert ByteAt(m, i, p) == src[..|src|][p - off];
    } else {
      assert p / BSIZE * BSIZE < m0.inodes[j].size;
      assert ByteKept(sb, m0, m, i, off, end, j, p);
    }
  }

  lemma FinishContent(sb: Super, m0: Img, m: Img, i: nat, off: nat, src: seq<byte>)
    requires Written(sb, m0, m, i, off, src, |src|) && Mapped(m0) && off <= m0.inodes[i].size
    ensures FileMapped(m0, i, m0.inodes[i].size)
    ensures Finish(m0, m, i, off + |src|).inodes[i].size <= MAXFILE * BSIZE
    ensures Content(Finish(m0, m, i, off + |src|), i) == Overlay(Content(m0, i), off, src)
  {
    hide Addr;
    hide BytesKept;
    hide BytesCopied;
    hide MappingKept;
    var m' := Finish(m0, m, i, off + |src|);
    forall p | 0 <= p < m'.inodes[i].size
      ensures Content(m', i)[p] == Overlay(Content(m0, i), off, src)[p]
    {
      FinishByte(sb, m0, m, i, off, src, i, p);
    }
  }

  lemma FinishOther(sb: Super, m0: Img, m: Img, i: nat, off: nat, src: seq<byte>, j: nat)
    requires Written(sb, m0, m, i, off, src, |src|) && Mapped(m0) && off <= m0.inodes[i].size
    requires j < |m0.inodes| && j != i
    ensures FileMapped(m0, j, m0.inodes[j].size)
    ensures Finish(m0, m, i, off + |src|).inodes[j] == m0.inodes[j]
    ensures Content(Finish(m0, m, i, off + |src|), j) == Content(m0, j)
  {
    hide Addr;
    hide BytesKept;
    hide BytesCopied;
    hide MappingKept;
    var m' := Finish(m0, m, i, off + |src|);
    forall p | 0 <= p < m'.inodes[j].size ensures Content(m', j)[p] == Content(m0, j)[p] {
      FinishByte(sb, m0, m, i, off, src, j, p);
    }
  }

  /** writei refines an overlay on a flat byte sequence: file i becomes its old contents overlaid with
      src at off, every other file is unchanged, and the invariant is kept, in particular the inode on
      disk equals the one in memory. */
  lemma WriteRefinesOverlay(sb: Super, m0: Img, owner0: map<nat, Slot>, m: Img, owner: map<nat, Slot>, i: nat,
          off: nat, src: seq<byte>)
    requires Good(sb, m0, owner0) && Owned(sb, m, owner)
    requires Written(sb, m0, m, i, off, src, |src|) && off <= m0.inodes[i].size
    ensures var m' := Finish(m0, m, i, off + |src|);
            && Good(sb, m', owner)
            && |m'.inodes| == |m0.inodes|
            && Content(m', i) == Overlay(Content(m0, i), off, src)
            && (forall j :: 0 <= j < |m0.inodes| && j != i ==>
                  m'.inodes[j] == m0.inodes[j] && Content(m', j) == Content(m0, j))
  {
    FinishOwned(sb, m0, m, owner, i, off + |src|);
    FinishMapped(sb, m0, m, i, off, src);
    FinishContent(sb, m0, m, i, off, src);
    forall j | 0 <= j < |m0.inodes| && j != i
      ensures Finish(m0, m, i, off + |src|).inodes[j] == m0.inodes[j]
      ensures FileMapped(m0, j, m0.inodes[j].size)
      ensures Content(Finish(m0, m, i, off + |src|), j) == Content(m0, j)
    {
      FinishOther(sb, m0, m, i, off, src, j);
    }
  }

  // -------------------------------------------------------------- truncation

  // itrunc's result: all addresses of inode i are 0, its size is 0, and the blocks it owned are free.
  ghost predicate Truncated(sb: Super, m: Img, owner: map<nat, Slot>, i: nat, m': Img)
    requires Owned(sb, m, owner)
  {
    && Shape(sb, m') && |m'.inodes| == |m.inodes| && i < |m.inodes|
    && m'.data == m.data
    && m'.inodes == m.inodes[i := m.inodes[i].(size := 0, addrs := seq(NDIRECT + 1, _ => 0))]
    && m'.dinodes == m.dinodes[i := m'.inodes[i]]
    && (forall b :: 0 <= b < sb.size ==>
          (InUse(m'.bitmap, b) <==> InUse(m.bitmap, b) && !(b in owner && owner[b].inum == i)))
  }

  ghost function Disown(owner: map<nat, Slot>, i: nat): map<nat, Slot> {
    map b | b in owner && owner[b].inum != i :: owner[b]
  }

  lemma TruncOwned(sb: Super, m: Img, owner: map<nat, Slot>, i: nat, m': Img)
    requires Owned(sb, m, owner) && Truncated(sb, m, owner, i, m')
    ensures Owned(sb, m', Disown(owner, i))
  {
    var owner' := Disown(owner, i);
    forall t | IsSlot(m', t) && Addr(m', t) != 0
      ensures sb.nmeta <= Addr(m', t) < sb.size && Addr(m', t) in owner' && owner'[Addr(m', t)] == t
    {
      assert IsSlot(m, t) && Addr(m, t) == Addr(m', t);
    }
    forall b | b in owner' ensures b != 0 && IsSlot(m', owner'[b]) && Addr(m', owner'[b]) == b {
      assert Addr(m', owner[b]) == Addr(m, owner[b]);
    }
    forall b | 0 <= b < sb.size ensures InUse(m'.bitmap, b) <==> b < sb.nmeta || b in owner' {
      if b in owner {
        assert IsSlot(m, owner[b]) && Addr(m, owner[b]) == b;
      }
    }
  }

  /** Truncation frees exactly what the inode owned, empties the file and leaves every other file as it
      was. */
  lemma TruncKeepsOthers(sb: Super, m: Img, owner: map<nat, Slot>, i: nat, m': Img)
    requires Good(sb, m, owner) && Truncated(sb, m, owner, i, m')
    ensures Good(sb, m', Disown(owner, i))
    ensures Content(m', i) == []
    ensures forall j :: 0 <= j < |m.inodes| && j != i ==> Content(m', j) == Content(m, j)
  {
    hide Word;
    hide SlotsOwn;
    hide OwnersName;
    hide BitsTell;
    hide InUse;
    TruncOwned(sb, m, owner, i, m');
    forall j | 0 <= j < |m'.inodes| ensures FileMapped(m', j, m'.inodes[j].size) {
      assert FileMapped(m, j, m.inodes[j].size);
      forall bn | 0 <= bn < MAXFILE && bn * BSIZE < m'.inodes[j].size ensures Addr(m', FileSlot(j, bn)) != 0 {
        assert Addr(m', FileSlot(j, bn)) == Addr(m, FileSlot(j, bn));
      }
    }
    forall j | 0 <= j < |m.inodes| && j != i ensures Content(m', j) == Content(m, j) {
      forall p | 0 <= p < m.inodes[j].size ensures Content(m', j)[p] == Content(m, j)[p] {
        assert Addr(m', FileSlot(j, p / BSIZE)) == Addr(m, FileSlot(j, p / BSIZE));
      }
    }
  }

  // The bitmap after the blocks of the slots in `gone` have been freed.
  ghost predicate Freed(sb: Super, m: Img, owner: map<nat, Slot>, bitmap: seq<MapBlk>, gone: set<Slot>)
    requires Shape(sb, m)
  {
    && Covers(bitmap, sb.size)
    && forall b :: 0 <= b < sb.size ==>
         (InUse(bitmap, b) <==> InUse(m.bitmap, b) && !(b in owner && owner[b] in gone))
  }

  // Freeing one more slot finds its bit set, so bfree does not panic.
  lemma FreeOne(sb: Super, m: Img, owner: map<nat, Slot>, bitmap: seq<MapBlk>, gone: set<Slot>, s: Slot)
    requires Owned(sb, m, owner) && Freed(sb, m, owner, bitmap, gone)
    requires IsSlot(m, s) && Addr(m, s) != 0 && s !in gone
    ensures Addr(m, s) < sb.size && InUse(bitmap, Addr(m, s))
    ensures Freed(sb, m, owner, ClearBit(bitmap, Addr(m, s)), gone + {s})
  {
    var a := Addr(m, s);
    assert InUse(m.bitmap, a);
    forall b | 0 <= b < sb.size
      ensures InUse(ClearBit(bitmap, a), b) <==> InUse(m.bitmap, b) && !(b in owner && owner[b] in gone + {s})
    {
      ClearBitAt(bitmap, a, b);
    }
  }

  // ---------------------------------------------------------- log_write quota

  ghost function Elems(s: seq<nat>): set<nat> {
    set x | x in s
  }

  /** Between `before` and `calls`, every call of log_write came when fewer than q distinct blocks had
      been logged. */
  ghost predicate WithinQuota(before: seq<nat>, calls: seq<nat>, q: nat) {
    && before <= calls
    && forall k :: |before| <= k < |calls| ==> |Elems(calls[|before|..k])| < q
  }

  lemma SubsetCard(a: set<nat>, b: set<nat>)
    requires a <= b
    ensures |a| <= |b|
  {
    if a != b {
      var x :| x in b && x !in a;
      SubsetCard(a, b - {x});
    }
  }

  // All calls but the last log blocks of a set with fewer than q elements.
  lemma QuotaFromSet(before: seq<nat>, calls: seq<nat>, used: set<nat>, q: nat)
    requires before <= calls && |used| < q
    requires forall k :: |before| <= k < |calls| - 1 ==> calls[k] in used
    ensures WithinQuota(before, calls, q)
  {
    forall k | |before| <= k < |calls| ensures |Elems(calls[|before|..k])| < q {
      assert forall x :: x in calls[|before|..k] ==> x in used;
      SubsetCard(Elems(calls[|before|..k]), used);
    }
  }
}
