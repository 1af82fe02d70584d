/** What several modules use of sequences. */
module Seqs {
  // The sequence c with src written over it from off on, longer if need be: what a write does to a file.
  function Overlay<T>(c: seq<T>, off: nat, src: seq<T>): (r: seq<T>)
    requires off <= |c|
    ensures |r| == if off + |src| > |c| then off + |src| else |c|
  {
    c[..off] + src + if off + |src| <= |c| then c[off + |src|..] else []
  }

  lemma AppendTakeSnoc<T>(w: seq<T>, s: seq<T>, k: nat)
    requires k < |s|
    ensures w + s[..k] + [s[k]] == w + s[..k + 1]
  {
  }

  lemma SliceChain<T>(s: seq<T>, a: nat, b: nat, c: nat)
    requires a <= b <= c <= |s|
    ensures s[a..b] + s[b..c] == s[a..c]
  {
  }

  lemma Assoc4<T>(w: seq<T>, a: seq<T>, b: seq<T>, c: seq<T>, d: seq<T>)
    ensures w + a + b + c + d == w + (a + b + c + d)
  {
  }
}
