/** What a file-system operation puts into the log: a copy of each block that it changes, taken by log_write
    after the change.  So the last copies of an operation, over the blocks as they were before it, are the
    blocks as they are after it. */
module FsTrace {
  import opened FsImage

  // What a block of the disk holds of an image: bitmap bytes, inodes, data bytes, each where it applies.
  datatype Cell = Cell(bits: seq<MapBlk>, nodes: seq<Inode>, bytes: seq<Blk>)

  ghost function CellOf(sb: Super, m: Img, b: nat): Cell {
    Cell(
      if sb.bmapstart <= b < sb.bmapstart + |m.bitmap| then [m.bitmap[b - sb.bmapstart]] else [],
      NodesIn(sb, m.dinodes, b),
      if sb.nmeta <= b < |m.data| then [m.data[b]] else [])
  }

  // The inodes of inode block b.
  ghost function NodesIn(sb: Super, dinodes: seq<Inode>, b: nat): seq<Inode> {
    var lo := (b - sb.inodestart) * IPB;
    if 0 <= lo < |dinodes| then dinodes[lo..if lo + IPB <= |dinodes| then lo + IPB else |dinodes|] else []
  }

  // One log_write: block bn as it is then.
  datatype Copy = Copy(bn: nat, cell: Cell)

  // An image, the copies logged so far, and the block numbers of the calls.
  datatype Trace = Trace(m: Img, copies: seq<Copy>, calls: seq<nat>)

  // Block b after the copies, if it was `cell` before them.
  ghost function Last(copies: seq<Copy>, b: nat, cell: Cell): Cell {
    if copies == [] then cell
    else
      var c := copies[|copies| - 1];
      if c.bn == b then c.cell else Last(copies[..|copies| - 1], b, cell)
  }

  // The copies are those of the calls.
  ghost predicate Aligned(t: Trace) {
    |t.copies| == |t.calls| && forall k :: 0 <= k < |t.calls| ==> t.copies[k].bn == t.calls[k]
  }

  /** Between t and t' every block that changed was logged, and its last copy is what it holds now. */
  ghost predicate LoggedSince(sb: Super, t: Trace, t': Trace) {
    && t.copies <= t'.copies && t.calls <= t'.calls
    && (Aligned(t) ==> Aligned(t'))
    && forall b: nat :: CellOf(sb, t'.m, b) == Last(t'.copies[|t.copies|..], b, CellOf(sb, t.m, b))
  }

  lemma {:induction false} LastConcat(a: seq<Copy>, c: seq<Copy>, b: nat, cell: Cell)
    ensures Last(a + c, b, cell) == Last(c, b, Last(a, b, cell))
    decreases |c|
  {
    if c == [] {
      assert a + c == a;
    } else {
      assert (a + c)[..|a + c| - 1] == a + c[..|c| - 1];
      LastConcat(a, c[..|c| - 1], b, cell);
    }
  }

  lemma LoggedThen(sb: Super, t: Trace, t1: Trace, t2: Trace)
    requires LoggedSince(sb, t, t1) && LoggedSince(sb, t1, t2)
    ensures LoggedSince(sb, t, t2)
  {
    hide CellOf;
    hide Last;
    hide Aligned;
    var n, n1 := |t.copies|, |t1.copies|;
    assert t2.copies[n..] == t1.copies[n..] + t2.copies[n1..];
    forall b: nat
      ensures CellOf(sb, t2.m, b) == Last(t2.copies[n..], b, CellOf(sb, t.m, b))
    {
      LastConcat(t1.copies[n..], t2.copies[n1..], b, CellOf(sb, t.m, b));
    }
  }

  // Nothing has been logged, and no block has changed.
  lemma LoggedNothing(sb: Super, t: Trace, m: Img)
    requires m.bitmap == t.m.bitmap && m.data == t.m.data && m.dinodes == t.m.dinodes
    ensures LoggedSince(sb, t, t.(m := m))
  {
    hide NodesIn;
    assert t.copies[|t.copies|..] == [];
  }

  // Block b has changed and then been logged.
  ghost function WithCopy(sb: Super, t: Trace, m: Img, b: nat): Trace {
    Trace(m, t.copies + [Copy(b, CellOf(sb, m, b))], t.calls + [b])
  }

  lemma LoggedOne(sb: Super, t: Trace, m: Img, b: nat)
    requires forall c: nat :: c != b ==> CellOf(sb, m, c) == CellOf(sb, t.m, c)
    ensures LoggedSince(sb, t, WithCopy(sb, t, m, b))
  {
    hide CellOf;
    var t' := WithCopy(sb, t, m, b);
    var new' := t'.copies[|t.copies|..];
    assert new' == [Copy(b, CellOf(sb, m, b))] && new'[..0] == [];
    forall c: nat
      ensures CellOf(sb, m, c) == Last(new', c, CellOf(sb, t.m, c))
    {
      assert Last(new'[..0], c, CellOf(sb, t.m, c)) == CellOf(sb, t.m, c);
    }
  }

  // A change of one data block, one bitmap block or one inode is a change of one cell.
  lemma DataCell(sb: Super, m: Img, m': Img, b: nat)
    requires b < |m.data| && m'.bitmap == m.bitmap && m'.dinodes == m.dinodes
    requires |m'.data| == |m.data| && forall c :: 0 <= c < |m.data| && c != b ==> m'.data[c] == m.data[c]
    ensures forall c: nat :: c != b ==> CellOf(sb, m', c) == CellOf(sb, m, c)
  {
    hide NodesIn;
  }

  lemma BitsCell(sb: Super, m: Img, m': Img, k: nat)
    requires k < |m.bitmap| && m'.data == m.data && m'.dinodes == m.dinodes
    requires |m'.bitmap| == |m.bitmap| && forall c :: 0 <= c < |m.bitmap| && c != k ==> m'.bitmap[c] == m.bitmap[c]
    ensures forall c: nat :: c != sb.bmapstart + k ==> CellOf(sb, m', c) == CellOf(sb, m, c)
  {
    hide NodesIn;
  }

  lemma NodeCell(sb: Super, m: Img, m': Img, i: nat)
    requires i < |m.dinodes| && m'.data == m.data && m'.bitmap == m.bitmap
    requires |m'.dinodes| == |m.dinodes| && forall j :: 0 <= j < |m.dinodes| && j != i ==> m'.dinodes[j] == m.dinodes[j]
    ensures forall c: nat :: c != sb.IBlock(i) ==> CellOf(sb, m', c) == CellOf(sb, m, c)
  {
    forall c: nat | c != sb.IBlock(i)
      ensures NodesIn(sb, m'.dinodes, c) == NodesIn(sb, m.dinodes, c)
    {
      var lo := (c - sb.inodestart) * IPB;
      assert !(0 <= lo <= i < lo + IPB);
    }
  }

  // ------------------------------------------------------- operation after operation

  // The image after the first k operations.
  ghost function ImageAfter(m: Img, ops: seq<Trace>, k: nat): Img
    requires k <= |ops|
  {
    if k == 0 then m else ops[k - 1].m
  }

  /** A sequence of operations that begin with image m, each with nothing logged yet. */
  ghost predicate Chain(sb: Super, m: Img, ops: seq<Trace>) {
    forall k :: 0 <= k < |ops| ==> LoggedSince(sb, Trace(ImageAfter(m, ops, k), [], []), ops[k])
  }

  lemma ChainNone(sb: Super, m: Img)
    ensures Chain(sb, m, [])
  {
  }

  lemma ChainSnoc(sb: Super, m: Img, ops: seq<Trace>, t: Trace)
    requires Chain(sb, m, ops) && LoggedSince(sb, Trace(ImageAfter(m, ops, |ops|), [], []), t)
    ensures Chain(sb, m, ops + [t])
  {
    hide LoggedSince;
    forall k | 0 <= k < |ops| + 1
      ensures LoggedSince(sb, Trace(ImageAfter(m, ops + [t], k), [], []), (ops + [t])[k])
    {
      assert ImageAfter(m, ops + [t], k) == ImageAfter(m, ops, k);
    }
  }
}
