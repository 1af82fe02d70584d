/** The account file: users written as name-password/ one after the other, and read back. */
module UserFile {
  const NUL: char := 0 as char
  const MAX_USER := 10
  const MAX_LEN := 15
  const BUF_LEN := (MAX_LEN * 2 + 2) * MAX_USER + 1

  datatype Entry = Entry(name: string, pw: string)

  // First position of c, or the length.
  function Until(t: string, c: char): (n: nat)
    ensures n <= |t| && (n < |t| ==> t[n] == c) && forall i :: 0 <= i < n ==> t[i] != c
  {
    if t == [] || t[0] == c then 0
    else
      var n := Until(t[1..], c);
      assert forall i :: 0 < i < |t| ==> t[i] == t[1..][i - 1];
      n + 1
  }

  lemma UntilIs(t: string, c: char, n: nat)
    requires n <= |t| && (n < |t| ==> t[n] == c) && forall i :: 0 <= i < n ==> t[i] != c
    ensures Until(t, c) == n
  {
  }

  function Encode1(e: Entry): string {
    e.name + "-" + e.pw + "/"
  }

  function Encode(es: seq<Entry>): string {
    if es == [] then "" else Encode1(es[0]) + Encode(es[1..])
  }

  // How loadUsers cuts the text: a name up to '-', a password up to '/', at most max times.
  function Decode(t: string, max: nat): (es: seq<Entry>)
    ensures |es| <= max
    decreases max
  {
    var i := Until(t, '-');
    if max == 0 || i == |t| then []
    else
      var j := Until(t[i + 1..], '/');
      if j == |t| - i - 1 then []
      else [Entry(t[..i], t[i + 1..][..j])] + Decode(t[i + 1..][j + 1..], max - 1)
  }

  // The separators are where loadUsers expects them.
  predicate Clean(e: Entry) {
    '-' !in e.name && '/' !in e.pw
  }

  predicate AllClean(es: seq<Entry>) {
    forall i :: 0 <= i < |es| ==> Clean(es[i])
  }

  // ---------------------------------------------------------------- reading back what was written

  lemma {:induction false} EncodeSnoc(es: seq<Entry>, e: Entry)
    ensures Encode(es + [e]) == Encode(es) + Encode1(e)
  {
    if es == [] {
      assert [e][1..] == [] && es + [e] == [e];
      assert Encode1(e) + "" == Encode1(e);
    } else {
      EncodeSnoc(es[1..], e);
      assert (es + [e])[1..] == es[1..] + [e];
      assert Encode1(es[0]) + (Encode(es[1..]) + Encode1(e)) == Encode1(es[0]) + Encode(es[1..]) + Encode1(e);
    }
  }

  lemma Nest(e: Entry, rest: string)
    ensures Encode1(e) + rest == e.name + ("-" + (e.pw + ("/" + rest)))
  {
  }

  // Where a separator is found: at its place, or earlier if it occurs in the field before it.
  lemma CutAt(a: string, c: char, b: string)
    ensures var t := a + ([c] + b);
            && |t| == |a| + 1 + |b| && t[..|a|] == a && t[|a| + 1..] == b
            && (if c in a then Until(t, c) < |a| else Until(t, c) == |a|)
  {
    hide Until;
    var t := a + ([c] + b);
    assert forall k :: 0 <= k < |a| ==> t[k] == a[k];
    assert t[|a|] == c;
    if c in a {
      var k :| 0 <= k < |a| && a[k] == c;
      assert t[k] == c;
    } else {
      UntilIs(t, c, |a|);
    }
  }

  // The first entry of an encoded text, cut as loadUsers does.
  lemma FirstCut(e: Entry, rest: string, max: nat)
    requires max > 0 && Clean(e)
    ensures Decode(Encode1(e) + rest, max) == [e] + Decode(rest, max - 1)
  {
    hide Decode;
    hide Until;
    hide Encode1;
    Nest(e, rest);
    var u, t := e.pw + ("/" + rest), Encode1(e) + rest;
    CutAt(e.name, '-', u);
    CutAt(e.pw, '/', rest);
    DecodeFirst(t, max, e.name, u, e.pw, rest);
  }

  // One turn of Decode on a text whose first two separators are known.
  lemma DecodeFirst(t: string, max: nat, name: string, u: string, pw: string, rest: string)
    requires max > 0 && |t| == |name| + 1 + |u| && Until(t, '-') == |name|
    requires t[..|name|] == name && t[|name| + 1..] == u
    requires |u| == |pw| + 1 + |rest| && Until(u, '/') == |pw| && u[..|pw|] == pw && u[|pw| + 1..] == rest
    ensures Decode(t, max) == [Entry(name, pw)] + Decode(rest, max - 1)
  {
    hide Until;
  }

  // A separator inside the first entry spoils it.
  lemma FirstSpoilt(e: Entry, rest: string, max: nat)
    requires !Clean(e)
    ensures var d := Decode(Encode1(e) + rest, max); d == [] || d[0] != e
  {
    hide Until;
    hide Encode1;
    Nest(e, rest);
    CutAt(e.name, '-', e.pw + ("/" + rest));
    CutAt(e.pw, '/', rest);
    var t := Encode1(e) + rest;
    var d, i := Decode(t, max), Until(t, '-');
    assert d != [] ==> |d[0].name| == i && |d[0].pw| == Until(t[i + 1..], '/');
  }

  /** Reading back what was written gives the same users exactly if no name has '-' and no password '/'. */
  lemma {:induction false} DecodeEncode(es: seq<Entry>, max: nat)
    requires |es| <= max
    ensures Decode(Encode(es), max) == es <==> AllClean(es)
    decreases max
  {
    hide Clean;
    hide Decode;
    if es == [] {
      DecodeNone(max);
    } else {
      var e, rest := es[0], es[1..];
      DecodeEncode(rest, max - 1);
      assert es == [e] + rest;
      AllCleanCons(e, rest);
      if Clean(e) {
        FirstCut(e, Encode(rest), max);
        Tails(e, Decode(Encode(rest), max - 1), rest);
      } else {
        FirstSpoilt(e, Encode(rest), max);
      }
    }
  }

  lemma DecodeNone(max: nat)
    ensures Decode("", max) == []
  {
  }

  lemma AllCleanCons(e: Entry, rest: seq<Entry>)
    ensures AllClean([e] + rest) <==> Clean(e) && AllClean(rest)
  {
    assert ([e] + rest)[0] == e;
    assert forall i :: 0 <= i < |rest| ==> ([e] + rest)[i + 1] == rest[i];
  }

  lemma Tails(e: Entry, a: seq<Entry>, b: seq<Entry>)
    ensures [e] + a == [e] + b <==> a == b
  {
    assert ([e] + a)[1..] == a && ([e] + b)[1..] == b;
  }

  // Every field that loadUsers meets fits in a row.
  predicate Short(t: string, max: nat)
    decreases max
  {
    var i := Until(t, '-');
    max == 0 || (i <= MAX_LEN && (i == |t| ||
      var u := t[i + 1..];
      var j := Until(u, '/');
      j <= MAX_LEN && (j == |u| || Short(u[j + 1..], max - 1))))
  }

  lemma ShortCut(e: Entry, rest: string, max: nat)
    requires max > 0 && Clean(e)
    ensures Short(Encode1(e) + rest, max) <==> |e.name| <= MAX_LEN && |e.pw| <= MAX_LEN && Short(rest, max - 1)
  {
    hide Until;
    hide Encode1;
    Nest(e, rest);
    CutAt(e.name, '-', e.pw + ("/" + rest));
    CutAt(e.pw, '/', rest);
  }

  lemma ShortNone(max: nat)
    ensures Short("", max)
  {
  }

  /** What flushUsers writes can be read. */
  lemma {:induction false} ShortEncode(es: seq<Entry>, max: nat)
    requires AllClean(es) && |es| <= max && forall i :: 0 <= i < |es| ==> Field(es[i].name) && Field(es[i].pw)
    ensures Short(Encode(es), max)
    decreases max
  {
    hide Clean;
    hide Short;
    hide Encode1;
    if es == [] {
      ShortNone(max);
    } else {
      assert Clean(es[0]);
      ShortEncode(es[1..], max - 1);
      ShortCut(es[0], Encode(es[1..]), max);
    }
  }

  // ---------------------------------------------------------------- the file

  function Zeros(n: nat): (r: string)
    ensures |r| == n && forall i :: 0 <= i < n ==> r[i] == NUL
  {
    seq(n, i => NUL)
  }

  // What flushUsers leaves: the users, then zeros up to the length the file had before.
  function Image(old': string, es: seq<Entry>): string {
    var t := Encode(es);
    t + Zeros(if |old'| > |t| then |old'| - |t| else 0)
  }

  // What loadUsers sees of a file: up to the first NUL of the first BUF_LEN bytes.
  function Seen(file: string): string {
    var buf := file[..if |file| < BUF_LEN then |file| else BUF_LEN];
    buf[..Until(buf, NUL)]
  }

  function Loaded(file: string): seq<Entry> {
    if |file| > 6 then Decode(Seen(file), MAX_USER) else []
  }

  predicate Field(w: string) {
    |w| <= MAX_LEN && NUL !in w
  }

  predicate Storable(es: seq<Entry>) {
    |es| <= MAX_USER && forall i :: 0 <= i < |es| ==> Field(es[i].name) && Field(es[i].pw)
  }

  lemma {:induction false} EncodeSize(es: seq<Entry>)
    requires forall i :: 0 <= i < |es| ==> Field(es[i].name) && Field(es[i].pw)
    ensures |Encode(es)| <= (MAX_LEN * 2 + 2) * |es| && NUL !in Encode(es)
  {
    if es != [] {
      EncodeSize(es[1..]);
    }
  }

  lemma SeenImage(old': string, es: seq<Entry>)
    requires Storable(es)
    ensures Seen(Image(old', es)) == Encode(es)
  {
    hide Until;
    hide Encode;
    EncodeSize(es);
    var t, file := Encode(es), Image(old', es);
    var buf := file[..if |file| < BUF_LEN then |file| else BUF_LEN];
    assert forall i :: 0 <= i < |t| ==> buf[i] == t[i];
    assert |buf| > |t| ==> buf[|t|] == NUL;
    UntilIs(buf, NUL, |t|);
    assert buf[..|t|] == t;
  }

  /** loadUsers after flushUsers gives the users back, whatever the file held before, exactly if there are
      none or the file is longer than six bytes and the separators occur in no name and no password. */
  lemma LoadFlush(old': string, es: seq<Entry>)
    requires Storable(es)
    ensures Loaded(Image(old', es)) == es <==> es == [] || (|Image(old', es)| > 6 && AllClean(es))
  {
    hide Decode;
    hide Encode;
    hide Seen;
    hide AllClean;
    SeenImage(old', es);
    DecodeEncode(es, MAX_USER);
    if es == [] {
      NoneClean();
    }
  }

  lemma NoneClean()
    ensures AllClean([])
  {
  }

  /** With root first and a password of at least two characters, the file is long enough. */
  lemma RootIsLong(old': string, es: seq<Entry>)
    requires es != [] && es[0].name == "root" && |es[0].pw| >= 2
    ensures |Image(old', es)| > 6
  {
  }

  /** A name with '-' does not survive. */
  lemma DashLost(old': string)
    ensures var es := [Entry("root", "0000"), Entry("a-b", "xy")];
            Loaded(Image(old', es)) != es
  {
    var es := [Entry("root", "0000"), Entry("a-b", "xy")];
    assert "a-b"[1] == '-';
    assert !Clean(es[1]);
    LoadFlush(old', es);
  }
}
