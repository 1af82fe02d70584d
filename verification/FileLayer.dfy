/** filewrite (file.c) on an inode: a write cut into chunks, each one file-system operation that keeps
    within the log's quota. */
module FileLayer {
  import opened FsImage
  import opened FsFiles
  import opened FsLayer
  import opened FsTrace
  import opened Seqs

  const MAXOPBLOCKS: nat := 10
  const CHUNK: nat := (MAXOPBLOCKS - 1 - 1 - 2) / 2 * 512

  lemma OverlayChain(c: seq<byte>, off: nat, src: seq<byte>, a: nat, b: nat)
    requires off <= |c| && a <= b <= |src|
    ensures off + a <= |Overlay(c, off, src[..a])|
    ensures Overlay(Overlay(c, off, src[..a]), off + a, src[a..b]) == Overlay(c, off, src[..b])
  {
  }

  lemma OverlayNone(c: seq<byte>, off: nat, src: seq<byte>)
    requires off <= |c|
    ensures Overlay(c, off, src[..0]) == c
  {
  }

  // How many bytes of an n-byte write at off the loop transfers: chunk by chunk until one does not fit.
  function Transferred(off: nat, n: nat, done: nat): (w: nat)
    requires done <= n
    ensures done <= w <= n
    ensures w < n ==> off + w + (if n - w > CHUNK then CHUNK else n - w) > MAXFILE * BSIZE
    ensures w > done ==> off + w <= MAXFILE * BSIZE
    decreases n - done
  {
    var n1 := if n - done > CHUNK then CHUNK else n - done;
    if n1 == 0 || off + done + n1 > MAXFILE * BSIZE then done else Transferred(off, n, done + n1)
  }

  // k bytes of the write have been transferred since image m0.
  ghost predicate Progress(m0: Img, m: Img, i: nat, off: nat, src: seq<byte>, k: nat) {
    && i < |m0.inodes| == |m.inodes| && k <= |src|
    && Mapped(m0) && Mapped(m)
    && m.inodes[i].kind == m0.inodes[i].kind
    && OthersKept(m0, m, i)
    && if off > m0.inodes[i].size
       then k == 0 && Content(m, i) == Content(m0, i)
       else Content(m, i) == Overlay(Content(m0, i), off, src[..k])
            && Transferred(off, |src|, 0) == Transferred(off, |src|, k)
  }

  // A file system between two operations, with some prefix of src written.
  ghost predicate PartWritten(sb: Super, m0: Img, m: Img, i: nat, off: nat, src: seq<byte>) {
    Sound(sb, m) && exists k :: Progress(m0, m, i, off, src, k)
  }

  ghost predicate OthersKept(m0: Img, m: Img, i: nat)
    requires |m0.inodes| == |m.inodes| && Mapped(m0) && Mapped(m)
  {
    forall j :: 0 <= j < |m0.inodes| && j != i ==> Content(m, j) == Content(m0, j)
  }

  lemma ProgressStep(m0: Img, m: Img, m': Img, i: nat, off: nat, src: seq<byte>, k: nat, n1: nat)
    requires Progress(m0, m, i, off, src, k) && off <= m0.inodes[i].size
    requires 0 < n1 && n1 == if |src| - k > CHUNK then CHUNK else |src| - k
    requires off + k <= m.inodes[i].size && off + k + n1 <= MAXFILE * BSIZE
    requires |m'.inodes| == |m.inodes| && Mapped(m') && m'.inodes[i].kind == m.inodes[i].kind && OthersKept(m, m', i)
    requires Content(m', i) == Overlay(Content(m, i), off + k, src[k..k + n1])
    ensures Progress(m0, m', i, off, src, k + n1)
  {
    hide Content;
    hide Overlay;
    OverlayChain(Content(m0, i), off, src, k, k + n1);
  }

  // One chunk: begin_op, writei, end_op.
  method WriteChunk(fs: Fs, ghost m0: Img, i: nat, ghost off: nat, src: seq<byte>, k: nat, at: u32)
    returns (r: Outcome, n1: nat)
    requires fs.Valid() && Progress(m0, fs.Snap(), i, off, src, k) && at == off + k && k < |src|
    requires m0.inodes[i].kind != Dev && |src| < 0x8000_0000
    modifies fs
    ensures r.Panic? || r.Error? || (r.Count? && 0 < n1 && k + n1 <= |src|)
    ensures !r.Panic? ==> fs.Valid() && WithinQuota([], fs.calls, MAXOPBLOCKS)
    ensures r.Count? ==> off <= m0.inodes[i].size && off + k + n1 <= MAXFILE * BSIZE
    ensures r.Count? ==> Progress(m0, fs.Snap(), i, off, src, k + n1)
    ensures r.Error? ==> Progress(m0, fs.Snap(), i, off, src, k)
    ensures r.Error? && off <= m0.inodes[i].size ==> Transferred(off, |src|, k) == k < |src|
    ensures r.Panic? ==> Full(fs.sb, fs.bitmap)
    ensures LoggedSince(fs.sb, Trace(old(fs.Snap()), [], []), fs.Tr())
  {
    hide Full;
    hide LoggedSince;
    hide Owned;
    hide Content;
    hide Overlay;
    n1 := |src| - k;
    if n1 > CHUNK {
      n1 := CHUNK;
    }
    ghost var m := fs.Snap();
    OverlayReach(m0, m, i, off, src, k);
    fs.BeginOp();
    r := fs.WriteI(i, src[k..k + n1], at);
    if r.Count? {
      ProgressStep(m0, m, fs.Snap(), i, off, src, k, n1);
    }
  }

  // The position reached lies within the file, unless the write started beyond its end.
  lemma OverlayReach(m0: Img, m: Img, i: nat, off: nat, src: seq<byte>, k: nat)
    requires Progress(m0, m, i, off, src, k)
    ensures off <= m0.inodes[i].size <==> off + k <= m.inodes[i].size
  {
  }

  /** Write src to inode i at the file offset off.  A write that starts beyond the end of the file fails
      and changes nothing; otherwise the chunks that fit below MAXFILE blocks are written, the offset
      advances by as much, and the result says whether that was everything.  `ops` are the chunks: each
      logs every block that it changes, every log_write comes with fewer than MAXOPBLOCKS distinct blocks
      logged, and each leaves the file with a prefix of src written. */
  method FileWrite(fs: Fs, i: nat, off: u32, src: seq<byte>)
    returns (r: Outcome, off': nat, ghost ops: seq<Trace>)
    requires fs.Valid() && i < |fs.inodes| && fs.inodes[i].kind != Dev && |src| < 0x8000_0000
    modifies fs
    ensures !r.Panic? ==> fs.Valid() && |fs.inodes| == |old(fs.inodes)|
    ensures !r.Panic? ==> forall k :: 0 <= k < |ops| ==> WithinQuota([], ops[k].calls, MAXOPBLOCKS)
    ensures Chain(fs.sb, old(fs.Snap()), ops)
    ensures !r.Panic? ==> fs.Snap() == ImageAfter(old(fs.Snap()), ops, |ops|)
    ensures forall k :: 0 <= k < |ops| ==> PartWritten(fs.sb, old(fs.Snap()), ops[k].m, i, off, src)
    ensures !r.Panic? ==> forall j :: 0 <= j < |fs.inodes| && j != i ==>
              Content(fs.Snap(), j) == old(Content(fs.Snap(), j))
    ensures !r.Panic? && off > old(fs.inodes)[i].size ==>
              off' == off && Content(fs.Snap(), i) == old(Content(fs.Snap(), i))
    ensures !r.Panic? && off <= old(fs.inodes)[i].size ==>
              var w := Transferred(off, |src|, 0);
              off' == off + w && Content(fs.Snap(), i) == Overlay(old(Content(fs.Snap(), i)), off, src[..w])
    ensures if r.Panic? then Full(fs.sb, fs.bitmap) else r == if off' == off + |src| then Count(|src|) else Error
  {
    hide Transferred;
    hide Full;
    hide Content;
    hide Overlay;
    hide Owned;
    hide WithinQuota;
    hide Chain;
    var n, k := |src|, 0;
    off', ops := off, [];
    ghost var m0 := fs.Snap();
    ChainNone(fs.sb, m0);
    if off <= fs.inodes[i].size {
      OverlayNone(Content(m0, i), off, src);
    }
    while k < n
      invariant 0 <= k <= n && off' == off + k
      invariant fs.Valid() && Progress(m0, fs.Snap(), i, off, src, k)
      invariant forall h :: 0 <= h < |ops| ==> WithinQuota([], ops[h].calls, MAXOPBLOCKS)
      invariant forall h :: 0 <= h < |ops| ==> PartWritten(fs.sb, m0, ops[h].m, i, off, src)
      invariant Chain(fs.sb, m0, ops) && fs.Snap() == ImageAfter(m0, ops, |ops|)
      invariant off' == off || off' <= MAXFILE * BSIZE
    {
      var n1;
      r, n1 := WriteChunk(fs, m0, i, off, src, k, off');
      if r.Panic? {
        return;
      }
      ChainSnoc(fs.sb, m0, ops, fs.Tr());
      ops := ops + [fs.Tr()];
      if r.Error? {
        break;
      }
      k, off' := k + n1, off' + n1;
    }
    r := if k == n then Count(n) else Error;
  }
}
