/** Strings in rows of MAX_LEN + 1 characters, and the functions of string.c that handle them. */
module UserRows {
  import opened UserFile

  // The string in a row: the characters before the first NUL.
  function Str(row: string): string {
    row[..Until(row, NUL)]
  }

  predicate IsRow(row: string) {
    |row| == MAX_LEN + 1 && Until(row, NUL) <= MAX_LEN
  }

  predicate IsZero(row: string) {
    |row| == MAX_LEN + 1 && forall i :: 0 <= i < |row| ==> row[i] == NUL
  }

  // A string in memory has its NUL.
  predicate Ended(b: string) {
    Until(b, NUL) < |b|
  }

  lemma StrIs(row: string, w: string)
    requires NUL !in w && |w| < |row| && row[..|w|] == w && row[|w|] == NUL
    ensures Str(row) == w && Until(row, NUL) == |w|
  {
    hide Until;
    assert forall i :: 0 <= i < |w| ==> row[i] == w[i];
    UntilIs(row, NUL, |w|);
  }

  lemma StrNoNul(row: string)
    ensures NUL !in Str(row) && |Str(row)| == Until(row, NUL)
  {
  }

  // What strncpy leaves in s: n characters, padded with NULs after the end of t.
  function Copied(s: string, t: string, n: nat): string
    requires n <= |s|
  {
    var len := Until(t, NUL);
    (if n <= len then t[..n] else t[..len] + Zeros(n - len)) + s[n..]
  }

  method StrNCpy(s: string, t: string, n: nat) returns (r: string)
    requires n <= |s| && (Ended(t) || n <= |t|)
    ensures r == Copied(s, t, n)
  {
    hide Until;
    ghost var len := Until(t, NUL);
    r := s;
    var i, more := 0, true;
    while i < n && more
      invariant 0 <= i <= n && |r| == |s| && (more ==> i <= len) && (!more ==> i == len + 1)
      invariant forall k :: 0 <= k < |r| ==> r[k] == if k < i then (if k < len then t[k] else NUL) else s[k]
      decreases n - i
    {
      r := r[i := t[i]];
      more := t[i] != NUL;
      i := i + 1;
    }
    while i < n
      invariant 0 <= i <= n && |r| == |s| && (i < n ==> i >= len)
      invariant forall k :: 0 <= k < |r| ==> r[k] == if k < i then (if k < len then t[k] else NUL) else s[k]
    {
      r := r[i := NUL];
      i := i + 1;
    }
  }

  /** equals: the two strings are the same. */
  method Equals(a: string, b: string) returns (yes: bool)
    requires Ended(a) && Ended(b)
    ensures yes <==> Str(a) == Str(b)
  {
    hide Until;
    var la, lb := Until(a, NUL), Until(b, NUL);
    if la != lb {
      StrNoNul(a);
      StrNoNul(b);
      return false;
    }
    var n := 0;
    while n < la && a[n] != NUL && a[n] == b[n]
      invariant 0 <= n <= la && forall i :: 0 <= i < n ==> a[i] == b[i]
    {
      n := n + 1;
    }
    yes := n == la;
    if n < la {
      assert Str(a)[n] != Str(b)[n];
    }
  }

  // A string over a row that may hold a longer one.
  method CopyRow(dst: string, src: string) returns (r: string)
    requires IsRow(dst) && IsRow(src)
    ensures IsRow(r) && Str(r) == Str(src)
  {
    hide Until;
    StrNoNul(src);
    var len := Until(src, NUL);
    r := StrNCpy(dst, src, len);
    r := r[len := NUL];
    StrIs(r, Str(src));
  }

  /** strncpy of a whole string leaves out the NUL: the row holds that string exactly if it had a NUL there
      already, as a clear row has. */
  lemma IntoRow(row: string, w: string)
    requires |row| == MAX_LEN + 1 && Ended(w) && Until(w, NUL) <= MAX_LEN
    ensures Str(Copied(row, w, Until(w, NUL))) == Str(w) <==> row[Until(w, NUL)] == NUL
    ensures row[Until(w, NUL)] == NUL ==> IsRow(Copied(row, w, Until(w, NUL)))
  {
    hide Until;
    StrNoNul(w);
    var n, r := Until(w, NUL), Copied(row, w, Until(w, NUL));
    assert r[..n] == Str(w) && r[n] == row[n];
    if row[n] == NUL {
      StrIs(r, Str(w));
    } else {
      StrNoNul(r);
      assert forall i :: 0 <= i < n ==> r[i] == Str(w)[i];
      assert Until(r, NUL) != n;
    }
  }
}
