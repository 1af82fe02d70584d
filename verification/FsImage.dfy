/** The state that fs.c keeps on disk and in the inode cache, as values: bitmap blocks, data blocks,
    inodes.  Every block is named by at most one inode slot, and its bitmap bit says whether it is. */
module FsImage {
  const BSIZE: nat := 512
  const BPB: nat := 4096        // bitmap bits per block
  const NDIRECT: nat := 7
  const NINDIRECT: nat := 128
  const MAXFILE: nat := NDIRECT + NINDIRECT
  const IPB: nat := 8           // inodes per block
  const UINT: nat := 0x1_0000_0000

  type byte = x: int | 0 <= x < 256
  type u32 = x: int | 0 <= x < UINT
  type Blk = b: seq<byte> | |b| == BSIZE witness seq(BSIZE, _ => 0)
  type MapBlk = b: seq<bv8> | |b| == BSIZE witness seq(BSIZE, _ => 0)

  datatype Kind = Free | Dir | File | Dev

  /** The part of an inode that concerns its contents. */
  datatype Inode = Inode(kind: Kind, size: u32, addrs: seq<u32>)

  /** sb.size, sb.inodestart, sb.bmapstart, and the number of blocks before the data blocks. */
  datatype Super = Super(size: nat, inodestart: nat, bmapstart: nat, nmeta: nat) {
    predicate Valid() {
      0 < nmeta <= size < UINT
    }

    function BBlock(b: nat): nat {
      b / BPB + bmapstart
    }

    function IBlock(i: nat): nat {
      i / IPB + inodestart
    }
  }

  /** The file system: bitmap blocks, all blocks by number, in-memory inodes, inodes on disk. */
  datatype Img = Img(bitmap: seq<MapBlk>, data: seq<Blk>, inodes: seq<Inode>, dinodes: seq<Inode>)

  // ------------------------------------------------------------------ bitmap

  function Mask(k: nat): bv8
    requires k < 8
  {
    if k == 0 then 1 else if k == 1 then 2 else if k == 2 then 4 else if k == 3 then 8
    else if k == 4 then 16 else if k == 5 then 32 else if k == 6 then 64 else 128
  }

  predicate Bit(x: bv8, k: nat)
    requires k < 8
  {
    x & Mask(k) != 0
  }

  function On(x: bv8, k: nat): bv8
    requires k < 8
  {
    x | Mask(k)
  }

  function Off(x: bv8, k: nat): bv8
    requires k < 8
  {
    x & !Mask(k)
  }

  lemma MaskOn(x: bv8, k: nat, j: nat)
    requires k < 8 && j < 8
    ensures Bit(On(x, k), j) <==> (k == j || Bit(x, j))
  {
  }

  lemma MaskOff(x: bv8, k: nat, j: nat)
    requires k < 8 && j < 8
    ensures Bit(Off(x, k), j) <==> (k != j && Bit(x, j))
  {
  }

  lemma MaskBits(x: bv8, k: nat, j: nat)
    requires k < 8 && j < 8
    ensures Bit(On(x, k), j) <==> (k == j || Bit(x, j))
    ensures Bit(Off(x, k), j) <==> (k != j && Bit(x, j))
  {
    hide Bit;
    hide On;
    hide Off;
    MaskOn(x, k, j);
    MaskOff(x, k, j);
  }

  ghost predicate Covers(bitmap: seq<MapBlk>, size: nat) {
    size <= |bitmap| * BPB
  }

  predicate InUse(bitmap: seq<MapBlk>, b: nat)
    requires b / BPB < |bitmap|
  {
    Bit(bitmap[b / BPB][b % BPB / 8], b % 8)
  }

  function SetBit(bitmap: seq<MapBlk>, b: nat): seq<MapBlk>
    requires b / BPB < |bitmap|
  {
    bitmap[b / BPB := bitmap[b / BPB][b % BPB / 8 := On(bitmap[b / BPB][b % BPB / 8], b % 8)]]
  }

  function ClearBit(bitmap: seq<MapBlk>, b: nat): seq<MapBlk>
    requires b / BPB < |bitmap|
  {
    bitmap[b / BPB := bitmap[b / BPB][b % BPB / 8 := Off(bitmap[b / BPB][b % BPB / 8], b % 8)]]
  }

  // Two blocks share a byte and a bit of the bitmap only if they are the same.
  lemma BitPosition(b: nat, c: nat)
    requires b / BPB == c / BPB && b % BPB / 8 == c % BPB / 8 && b % 8 == c % 8
    ensures b == c
  {
    Eighths(b);
    Eighths(c);
  }

  lemma Eighths(b: nat)
    ensures b == b / BPB * BPB + b % BPB / 8 * 8 + b % 8
  {
    var r := b % BPB;
    assert b == b / BPB * BPB + r && r == r / 8 * 8 + r % 8;
    assert r % 8 == b % 8;
  }

  lemma SetBitAt(bitmap: seq<MapBlk>, b: nat, c: nat)
    requires b / BPB < |bitmap| && c / BPB < |bitmap|
    ensures InUse(SetBit(bitmap, b), c) <==> (b == c || InUse(bitmap, c))
  {
    if b / BPB == c / BPB && b % BPB / 8 == c % BPB / 8 {
      var x := bitmap[b / BPB][b % BPB / 8];
      assert SetBit(bitmap, b)[c / BPB][c % BPB / 8] == On(x, b % 8);
      MaskBits(x, b % 8, c % 8);
      if b % 8 == c % 8 {
        BitPosition(b, c);
      }
    }
  }

  lemma ClearBitAt(bitmap: seq<MapBlk>, b: nat, c: nat)
    requires b / BPB < |bitmap| && c / BPB < |bitmap|
    ensures InUse(ClearBit(bitmap, b), c) <==> (b != c && InUse(bitmap, c))
  {
    if b / BPB == c / BPB && b % BPB / 8 == c % BPB / 8 {
      var x := bitmap[b / BPB][b % BPB / 8];
      assert ClearBit(bitmap, b)[c / BPB][c % BPB / 8] == Off(x, b % 8);
      MaskBits(x, b % 8, c % 8);
      if b % 8 == c % 8 {
        BitPosition(b, c);
      }
    }
  }

  // --------------------------------------------------------- words of a block

  // Entry j of an indirect block: a little-endian 32-bit word.
  function Word(b: Blk, j: nat): u32
    requires j < NINDIRECT
  {
    LittleEndian(b[4 * j], b[4 * j + 1], b[4 * j + 2], b[4 * j + 3])
  }

  function LittleEndian(b0: int, b1: int, b2: int, b3: int): int {
    b0 + 0x100 * b1 + 0x1_0000 * b2 + 0x100_0000 * b3
  }

  function SetWord(b: Blk, j: nat, w: u32): Blk
    requires j < NINDIRECT
  {
    b[4 * j := w % 0x100][4 * j + 1 := w / 0x100 % 0x100]
     [4 * j + 2 := w / 0x1_0000 % 0x100][4 * j + 3 := w / 0x100_0000]
  }

  lemma SplitWord(w: u32)
    ensures w == w % 0x100 + 0x100 * (w / 0x100 % 0x100) + 0x1_0000 * (w / 0x1_0000 % 0x100)
                 + 0x100_0000 * (w / 0x100_0000)
  {
  }

  lemma WordUpdates(b: Blk, j: nat, w: u32, i: nat)
    requires i < NINDIRECT && j < NINDIRECT
    ensures Word(SetWord(b, j, w), i) == if i == j then w else Word(b, i)
  {
    SplitWord(w);
  }

  function Zero(): (b: Blk)
    ensures forall i :: 0 <= i < BSIZE ==> b[i] == 0
  {
    seq(BSIZE, _ => 0)
  }

  lemma ZeroWords(j: nat)
    requires j < NINDIRECT
    ensures Word(Zero(), j) == 0
  {
  }

  // ------------------------------------------------------------------- slots

  /** A place that names a block: a direct address, the address of the indirect block, or an entry of
      the indirect block. */
  datatype Slot = Direct(inum: nat, k: nat) | Indirect(inum: nat) | Entry(inum: nat, j: nat)

  ghost predicate Shape(sb: Super, m: Img) {
    && sb.Valid()
    && Covers(m.bitmap, sb.size)
    && |m.data| == sb.size
    && |m.dinodes| == |m.inodes|
    && (forall i :: 0 <= i < |m.inodes| ==> |m.inodes[i].addrs| == NDIRECT + 1)
  }

  predicate IsSlot(m: Img, s: Slot) {
    && s.inum < |m.inodes|
    && match s
       case Direct(_, k) => k < NDIRECT
       case Indirect(_) => true
       case Entry(_, j) => j < NINDIRECT
  }

  // The block that slot s names; 0 for none.
  function Addr(m: Img, s: Slot): u32
    requires IsSlot(m, s) && |m.inodes[s.inum].addrs| == NDIRECT + 1
  {
    match s
    case Direct(i, k) => m.inodes[i].addrs[k]
    case Indirect(i) => m.inodes[i].addrs[NDIRECT]
    case Entry(i, j) =>
      var a := m.inodes[i].addrs[NDIRECT];
      if a == 0 || a >= |m.data| then 0 else Word(m.data[a], j)
  }

  // The slot of block number bn of a file.
  function FileSlot(i: nat, bn: nat): Slot {
    if bn < NDIRECT then Direct(i, bn) else Entry(i, bn - NDIRECT)
  }

  // What every slot names is the data block it owns, and it alone.
  ghost predicate SlotsOwn(sb: Super, m: Img, owner: map<nat, Slot>)
    requires Shape(sb, m)
  {
    forall s: Slot :: IsSlot(m, s) && Addr(m, s) != 0 ==>
      sb.nmeta <= Addr(m, s) < sb.size && Addr(m, s) in owner && owner[Addr(m, s)] == s
  }

  ghost predicate OwnersName(sb: Super, m: Img, owner: map<nat, Slot>)
    requires Shape(sb, m)
  {
    forall b :: b in owner ==> b != 0 && IsSlot(m, owner[b]) && Addr(m, owner[b]) == b
  }

  ghost predicate BitsTell(sb: Super, m: Img, owner: map<nat, Slot>)
    requires Shape(sb, m)
  {
    forall b :: 0 <= b < sb.size ==> (InUse(m.bitmap, b) <==> b < sb.nmeta || b in owner)
  }

  /** `owner` is the ownership of m: slots and owned blocks correspond one to one, and the bitmap
      marks the metadata and the owned blocks. */
  ghost predicate Owned(sb: Super, m: Img, owner: map<nat, Slot>) {
    && Shape(sb, m)
    && SlotsOwn(sb, m, owner)
    && OwnersName(sb, m, owner)
    && BitsTell(sb, m, owner)
  }

  /** Ownership without the map: a bitmap bit is set if and only if its block is metadata or is named
      by exactly one slot. */
  lemma BitIffOneSlot(sb: Super, m: Img, owner: map<nat, Slot>, b: nat)
    requires Owned(sb, m, owner) && b < sb.size
    ensures InUse(m.bitmap, b) <==> (b < sb.nmeta || exists s :: IsSlot(m, s) && Addr(m, s) == b)
    ensures b != 0 ==> forall s, t :: IsSlot(m, s) && IsSlot(m, t) && Addr(m, s) == Addr(m, t) == b ==> s == t
    ensures forall s :: IsSlot(m, s) && Addr(m, s) == b && b != 0 ==> b >= sb.nmeta
  {
    if b in owner {
      assert IsSlot(m, owner[b]) && Addr(m, owner[b]) == b;
    }
  }

  // ------------------------------------------------- allocating into an empty slot

  // balloc takes block r: mark it and zero it.
  function Take(m: Img, r: nat): Img
    requires r / BPB < |m.bitmap| && r < |m.data|
  {
    m.(bitmap := SetBit(m.bitmap, r), data := m.data[r := Zero()])
  }

  function SetAddr(m: Img, i: nat, k: nat, a: u32): Img
    requires i < |m.inodes| && k < |m.inodes[i].addrs|
  {
    m.(inodes := m.inodes[i := m.inodes[i].(addrs := m.inodes[i].addrs[k := a])])
  }

  function SetEntry(m: Img, blk: nat, j: nat, a: u32): Img
    requires blk < |m.data| && j < NINDIRECT
  {
    m.(data := m.data[blk := SetWord(m.data[blk], j, a)])
  }

  function Fill(m: Img, s: Slot, r: nat): Img
    requires IsSlot(m, s) && |m.inodes[s.inum].addrs| == NDIRECT + 1
    requires r / BPB < |m.bitmap| && r < |m.data| < UINT
    requires s.Entry? ==> m.inodes[s.inum].addrs[NDIRECT] < |m.data|
  {
    match s
    case Direct(i, k) => SetAddr(Take(m, r), i, k, r)
    case Indirect(i) => SetAddr(Take(m, r), i, NDIRECT, r)
    case Entry(i, j) => SetEntry(Take(m, r), m.inodes[i].addrs[NDIRECT], j, r)
  }

  // Slot s is empty, can be filled, and block r is free.
  ghost predicate CanFill(sb: Super, m: Img, owner: map<nat, Slot>, s: Slot, r: nat) {
    && Owned(sb, m, owner)
    && IsSlot(m, s) && Addr(m, s) == 0
    && r < sb.size && !InUse(m.bitmap, r)
    && (s.Entry? ==> Addr(m, Indirect(s.inum)) != 0)
  }

  lemma FillShape(sb: Super, m: Img, owner: map<nat, Slot>, s: Slot, r: nat)
    requires CanFill(sb, m, owner, s, r)
    ensures s.Entry? ==> sb.nmeta <= m.inodes[s.inum].addrs[NDIRECT] < sb.size && m.inodes[s.inum].addrs[NDIRECT] != r
    ensures r >= sb.nmeta && r !in owner
    ensures Shape(sb, Fill(m, s, r)) && |Fill(m, s, r).inodes| == |m.inodes|
  {
    if s.Entry? {
      assert IsSlot(m, Indirect(s.inum));
    }
  }

  lemma IndirectOwned(sb: Super, m: Img, owner: map<nat, Slot>, i: nat)
    requires Owned(sb, m, owner) && i < |m.inodes| && m.inodes[i].addrs[NDIRECT] != 0
    ensures var a := m.inodes[i].addrs[NDIRECT];
            sb.nmeta <= a < sb.size && a in owner && owner[a] == Indirect(i)
  {
    assert IsSlot(m, Indirect(i)) && Addr(m, Indirect(i)) == m.inodes[i].addrs[NDIRECT];
  }

  // Filling an address of an inode changes what that slot names, and nothing else.
  lemma FillInodeAddr(sb: Super, m: Img, owner: map<nat, Slot>, s: Slot, r: nat, t: Slot)
    requires CanFill(sb, m, owner, s, r) && !s.Entry?
    requires r !in owner && Shape(sb, Fill(m, s, r))
    requires IsSlot(m, t)
    ensures Addr(Fill(m, s, r), t) == if s == t then r else Addr(m, t)
  {
    hide Word;
    hide InUse;
    hide OwnersName;
    hide BitsTell;
    var m' := Fill(m, s, r);
    assert m'.data == m.data[r := Zero()];
    match t
    case Direct(i, k) =>
    case Indirect(i) =>
    case Entry(i, j) =>
      var a := m.inodes[i].addrs[NDIRECT];
      if s == Indirect(i) {
        assert m'.inodes[i].addrs[NDIRECT] == r;
        ZeroWords(j);
      } else {
        assert m'.inodes[i].addrs[NDIRECT] == a;
        if a != 0 {
          IndirectOwned(sb, m, owner, i);
          assert m'.data[a] == m.data[a];
        }
      }
  }

  lemma FillEntryAddr(sb: Super, m: Img, owner: map<nat, Slot>, s: Slot, r: nat, t: Slot)
    requires CanFill(sb, m, owner, s, r) && s.Entry?
    requires r !in owner && m.inodes[s.inum].addrs[NDIRECT] < sb.size && Shape(sb, Fill(m, s, r))
    requires IsSlot(m, t)
    ensures Addr(Fill(m, s, r), t) == if s == t then r else Addr(m, t)
  {
    hide Word;
    hide InUse;
    hide OwnersName;
    hide BitsTell;
    var blk := m.inodes[s.inum].addrs[NDIRECT];
    IndirectOwned(sb, m, owner, s.inum);
    if t.Entry? && m.inodes[t.inum].addrs[NDIRECT] != 0 {
      IndirectOwned(sb, m, owner, t.inum);
      WordUpdates(m.data[blk], s.j, r, t.j);
    }
  }

  // Filling s changes what s names, and nothing else.
  lemma FillAddr(sb: Super, m: Img, owner: map<nat, Slot>, s: Slot, r: nat, t: Slot)
    requires CanFill(sb, m, owner, s, r) && IsSlot(m, t)
    ensures s.Entry? ==> m.inodes[s.inum].addrs[NDIRECT] < sb.size
    ensures IsSlot(Fill(m, s, r), t) && |Fill(m, s, r).inodes[t.inum].addrs| == NDIRECT + 1
    ensures Addr(Fill(m, s, r), t) == if s == t then r else Addr(m, t)
  {
    FillShape(sb, m, owner, s, r);
    if s.Entry? {
      FillEntryAddr(sb, m, owner, s, r, t);
    } else {
      FillInodeAddr(sb, m, owner, s, r, t);
    }
  }

  lemma FillBits(sb: Super, m: Img, owner: map<nat, Slot>, s: Slot, r: nat, b: nat)
    requires CanFill(sb, m, owner, s, r)
    requires Shape(sb, Fill(m, s, r)) && b < sb.size
    ensures InUse(Fill(m, s, r).bitmap, b) <==> (b == r || InUse(m.bitmap, b))
  {
    SetBitAt(m.bitmap, r, b);
  }

  /** Filling an empty slot with a free block keeps ownership: the block is now owned by that slot. */
  lemma FillOwned(sb: Super, m: Img, owner: map<nat, Slot>, s: Slot, r: nat)
    requires CanFill(sb, m, owner, s, r)
    ensures Owned(sb, Fill(m, s, r), owner[r := s])
  {
    hide Addr;
    hide InUse;
    FillShape(sb, m, owner, s, r);
    var m', owner' := Fill(m, s, r), owner[r := s];
    forall t | IsSlot(m', t) && Addr(m', t) != 0
      ensures sb.nmeta <= Addr(m', t) < sb.size && Addr(m', t) in owner' && owner'[Addr(m', t)] == t
    {
      assert IsSlot(m, t);
      FillAddr(sb, m, owner, s, r, t);
    }
    forall b | b in owner'
      ensures b != 0 && IsSlot(m', owner'[b]) && Addr(m', owner'[b]) == b
    {
      FillAddr(sb, m, owner, s, r, owner'[b]);
    }
    forall b | 0 <= b < sb.size
      ensures InUse(m'.bitmap, b) <==> b < sb.nmeta || b in owner'
    {
      FillBits(sb, m, owner, s, r, b);
    }
  }

  // ---------------------------------------------------------- file contents

  // Every block below the size of every file is mapped; files do not exceed MAXFILE blocks.
  ghost predicate Mapped(m: Img) {
    forall i :: 0 <= i < |m.inodes| ==> FileMapped(m, i, m.inodes[i].size)
  }

  ghost predicate FileMapped(m: Img, i: nat, size: nat)
    requires i < |m.inodes|
  {
    && |m.inodes[i].addrs| == NDIRECT + 1
    && size <= MAXFILE * BSIZE
    && forall bn :: 0 <= bn < MAXFILE && bn * BSIZE < size ==> Addr(m, FileSlot(i, bn)) != 0
  }

  // Byte p of file i, read through the slot of its block.
  ghost function ByteAt(m: Img, i: nat, p: nat): byte
    requires i < |m.inodes| && |m.inodes[i].addrs| == NDIRECT + 1 && p < MAXFILE * BSIZE
  {
    BlockByte(m.data, Addr(m, FileSlot(i, p / BSIZE)), p % BSIZE)
  }

  ghost function BlockByte(data: seq<Blk>, a: nat, o: nat): byte
    requires o < BSIZE
  {
    if a < |data| then data[a][o] else 0
  }

  /** The contents of file i: a flat sequence of bytes. */
  ghost function Content(m: Img, i: nat): (r: seq<byte>)
    requires i < |m.inodes| && |m.inodes[i].addrs| == NDIRECT + 1 && m.inodes[i].size <= MAXFILE * BSIZE
    ensures |r| == m.inodes[i].size
  {
    seq(m.inodes[i].size, p requires 0 <= p < m.inodes[i].size => ByteAt(m, i, p))
  }
}
