/** The account part of sysfile.c: a table of MAX_USER rows of MAX_LEN + 1 characters, strings ended by NUL,
    copied with strncpy, and the file that mirrors it. */
module Users {
  import opened Seqs
  import opened UserFile
  import opened UserRows
  import opened UserLoad

  function EntriesOf(names: seq<string>, pws: seq<string>, cnt: nat): (es: seq<Entry>)
    requires cnt <= |names| && cnt <= |pws|
    ensures |es| == cnt && forall i :: 0 <= i < cnt ==> es[i] == Entry(Str(names[i]), Str(pws[i]))
  {
    seq(cnt, i requires 0 <= i < cnt => Entry(Str(names[i]), Str(pws[i])))
  }

  predicate Distinct(es: seq<Entry>) {
    forall i, j :: 0 <= i < j < |es| ==> es[i].name != es[j].name
  }

  // Rows below cnt hold strings, the others are all NUL.
  predicate Shaped(names: seq<string>, pws: seq<string>, cnt: nat) {
    && |names| == |pws| == MAX_USER && cnt <= MAX_USER
    && (forall i :: 0 <= i < cnt ==> IsRow(names[i]) && IsRow(pws[i]))
    && (forall i :: cnt <= i < MAX_USER ==> IsZero(names[i]) && IsZero(pws[i]))
  }

  lemma ShapedStorable(names: seq<string>, pws: seq<string>, cnt: nat)
    requires Shaped(names, pws, cnt)
    ensures Storable(EntriesOf(names, pws, cnt))
  {
    forall i | 0 <= i < cnt
      ensures Field(Str(names[i])) && Field(Str(pws[i]))
    {
      StrNoNul(names[i]);
      StrNoNul(pws[i]);
    }
  }

  lemma OverlayStep(t: string, z: nat, line: string)
    ensures Overlay(t + Zeros(z), |t|, line) == t + line + Zeros(if z > |line| then z - |line| else 0)
  {
  }

  // Writing one more user at the end of those written.
  lemma ImageSnoc(old': string, es: seq<Entry>, e: Entry)
    ensures var off := |Encode(es)|;
            && off <= |Image(old', es)| && off + |Encode1(e)| == |Encode(es + [e])|
            && Overlay(Image(old', es), off, Encode1(e)) == Image(old', es + [e])
  {
    hide Encode;
    hide Encode1;
    var t := Encode(es);
    EncodeSnoc(es, e);
    OverlayStep(t, if |old'| > |t| then |old'| - |t| else 0, Encode1(e));
  }

  lemma ImageNone(old': string)
    ensures Image(old', []) == Zeros(|old'|) && Encode([]) == ""
  {
  }

  class Table {
    var names: seq<string>
    var pws: seq<string>
    var cnt: nat
    var file: string

    ghost predicate Valid()
      reads this
    {
      Shaped(names, pws, cnt) && Distinct(EntriesOf(names, pws, cnt))
    }

    ghost function Entries(): seq<Entry>
      requires Shaped(names, pws, cnt)
      reads this
    {
      EntriesOf(names, pws, cnt)
    }

    constructor (passwd: string)
      ensures Valid() && Entries() == [] && file == passwd
    {
      names, pws := seq(MAX_USER, i => Zeros(MAX_LEN + 1)), seq(MAX_USER, i => Zeros(MAX_LEN + 1));
      cnt, file := 0, passwd;
    }

    /** loadUsers on a clear table: the users of the file, if no field is too long for a row.  The rows after
        them stay clear exactly if there are no such rows, or the text is whole users, or all that follows
        them is one separator. */
    method LoadUsers()
      requires Shaped(names, pws, 0) && (|file| > 6 ==> Short(Seen(file), MAX_USER))
      modifies this`names, this`pws, this`cnt
      ensures |names| == |pws| == MAX_USER && cnt <= MAX_USER && EntriesOf(names, pws, cnt) == Loaded(file)
      ensures Shaped(names, pws, cnt) <==> |file| <= 6 || cnt == MAX_USER || Whole(Seen(file), Loaded(file))
    {
      hide Until;
      hide Seen;
      hide Decode;
      hide Encode;
      hide Short;
      hide Rows;
      hide Reading;
      hide IsRow;
      hide IsZero;
      hide Str;
      hide Whole;
      var n := if |file| < BUF_LEN then |file| else BUF_LEN;
      var idx := 0;
      RowsClear(names, pws);
      if n > 6 {
        var buf := file[..n] + Zeros(BUF_LEN - n);
        Buffered(file, n);
        ghost var t := Seen(file);
        ghost var done: seq<Entry>, name, pw := [], "", "";
        ReadNothing(t);
        var inPw, offset, i := false, 0, 0;
        assert t[0..] == t;
        while i < BUF_LEN
          invariant 0 <= i <= |t| && idx == |done| <= MAX_USER && |names| == |pws| == MAX_USER
          invariant Reading(t, done, inPw, name, pw, t[i..]) && Rows(names, pws, done, name, pw)
          invariant offset == |if inPw then pw else name| && (inPw ==> idx < MAX_USER) && (!inPw ==> pw == "")
        {
          if idx == MAX_USER || buf[i] == NUL {
            break;
          }
          ghost var rest := t[i..];
          assert rest[0] == buf[i] == t[i] && rest[1..] == t[i + 1..];
          if !inPw {
            if buf[i] != '-' {
              ReadName(t, done, name, rest);
              RowsName(names, pws, done, name, pw, buf[i]);
              names := names[idx := names[idx][offset := buf[i]]];
              name, offset := name + [buf[i]], offset + 1;
            } else {
              ReadDash(t, done, name, rest);
              inPw, offset := true, 0;
            }
          } else {
            if buf[i] != '/' {
              ReadPw(t, done, name, pw, rest);
              RowsPw(names, pws, done, name, pw, buf[i]);
              pws := pws[idx := pws[idx][offset := buf[i]]];
              pw, offset := pw + [buf[i]], offset + 1;
            } else {
              ReadSlash(t, done, name, pw, rest);
              RowsNext(names, pws, done, name, pw);
              done, name, pw := done + [Entry(name, pw)], "", "";
              inPw, offset, idx := false, 0, idx + 1;
            }
          }
          i := i + 1;
        }
        ReadAll(t, done, inPw, name, pw, t[i..]);
        RowsRead(names, pws, done, name, pw);
        assert EntriesOf(names, pws, idx) == done;
      }
      cnt := idx;
    }

    /** flushUsers: the file is the users of the table and then zeros; it does not get shorter. */
    method FlushUsers(canOpen: bool) returns (r: int)
      requires Shaped(names, pws, cnt)
      modifies this`file
      ensures r == if canOpen then 0 else -1
      ensures file == if canOpen then Image(old(file), Entries()) else old(file)
    {
      hide Shaped;
      hide Str;
      hide Image;
      hide Encode;
      hide Overlay;
      if !canOpen {
        return -1;
      }
      ghost var es := Entries();
      ShapedSizes();
      ImageNone(file);
      file := Zeros(|file|);
      var off, i := 0, 0;
      assert es[..0] == [];
      while i < cnt
        invariant 0 <= i <= cnt && file == Image(old(file), es[..i]) && off == |Encode(es[..i])|
      {
        var line := Str(names[i]) + "-" + Str(pws[i]) + "/";
        assert es[..i + 1] == es[..i] + [es[i]];
        ImageSnoc(old(file), es[..i], es[i]);
        assert line == Encode1(es[i]);
        file := Overlay(file, off, line);
        off := off + |line|;
        i := i + 1;
      }
      assert es[..i] == es;
      r := 0;
    }

    lemma ShapedSizes()
      requires Shaped(names, pws, cnt)
      ensures |names| == |pws| == MAX_USER && cnt <= MAX_USER
    {
    }

    // The search for a user by name.
    method Find(username: string) returns (i: nat)
      requires Shaped(names, pws, cnt) && Ended(username)
      ensures i == IndexOf(Entries(), Str(username))
    {
      hide Until;
      hide Str;
      ghost var es := Entries();
      i := 0;
      while i < cnt
        invariant 0 <= i <= cnt && forall j :: 0 <= j < i ==> es[j].name != Str(username)
      {
        var same := Equals(names[i], username);
        if same {
          break;
        }
        i := i + 1;
      }
      IndexIs(es, Str(username), i);
    }

    /** addUser up to the making of the home directory: the new user is last, or is refused and nothing changes.
        If the file cannot be opened the result is -1 too, but the user stays in the table. */
    method AddUser(username: string, password: string, canOpen: bool) returns (r: int)
      requires Valid() && Ended(username) && Ended(password)
      modifies this
      ensures Valid()
      ensures !MayAdd(old(Entries()), Str(username), Str(password)) ==>
                r == -1 && Entries() == old(Entries()) && file == old(file)
      ensures MayAdd(old(Entries()), Str(username), Str(password)) ==>
                Entries() == old(Entries()) + [Entry(Str(username), Str(password))]
      ensures MayAdd(old(Entries()), Str(username), Str(password)) ==>
                r == (if canOpen then 0 else -1) && file == if canOpen then Image(old(file), Entries()) else old(file)
    {
      hide Until;
      hide Shaped;
      hide EntriesOf;
      hide Str;
      ghost var es := Entries();
      ShapedSizes();
      StrNoNul(username);
      StrNoNul(password);
      if cnt == MAX_USER {
        return -1;
      }
      var unlen, pwlen := Until(username, NUL), Until(password, NUL);
      if unlen < 2 || unlen > MAX_LEN || pwlen < 2 || pwlen > MAX_LEN {
        return -1;
      }
      var i := Find(username);
      if i < cnt {
        return -1;
      }
      RowIsZero(names, pws, cnt);
      var name := StrNCpy(names[cnt], username, unlen);
      var pw := StrNCpy(pws[cnt], password, pwlen);
      IntoRow(names[cnt], username);
      IntoRow(pws[cnt], password);
      OneMore(names, pws, cnt, name, pw);
      names := names[cnt := name];
      pws := pws[cnt := pw];
      cnt := cnt + 1;
      r := FlushUsers(canOpen);
    }

    /** deleteUser: the user goes and those after it move up; not the first one, which is root. */
    method DeleteUser(username: string, canOpen: bool) returns (r: int)
      requires Valid() && Ended(username)
      modifies this
      ensures Valid()
      ensures var k := IndexOf(old(Entries()), Str(username));
              if k == 0 || k == |old(Entries())| then r == -1 && Entries() == old(Entries()) && file == old(file)
              else Entries() == Without(old(Entries()), k) && r == (if canOpen then 0 else -1)
                   && file == if canOpen then Image(old(file), Entries()) else old(file)
    {
      hide Until;
      hide Str;
      hide Shaped;
      var found := Find(username);
      if found == 0 || found == cnt {
        return -1;
      }
      Shift(found);
      r := FlushUsers(canOpen);
    }

    // The rows after `found` move up by one, and the last row is cleared.
    method Shift(found: nat)
      requires Shaped(names, pws, cnt) && found < cnt
      modifies this`names, this`pws, this`cnt
      ensures Shaped(names, pws, cnt) && Entries() == Without(old(Entries()), found)
    {
      hide Until;
      hide Str;
      hide Moved;
      ghost var names0, pws0 := names, pws;
      NoneMoved(names0, found);
      NoneMoved(pws0, found);
      var i := found + 1;
      while i < cnt
        invariant found < i <= cnt == old(cnt) && |names| == |pws| == MAX_USER
        invariant Moved(names0, names, found, i) && Moved(pws0, pws, found, i)
      {
        MovedNext(names0, names, found, i);
        MovedNext(pws0, pws, found, i);
        var name := CopyRow(names[i - 1], names[i]);
        var pw := CopyRow(pws[i - 1], pws[i]);
        MoveOne(names0, names, found, i, name);
        MoveOne(pws0, pws, found, i, pw);
        names := names[i - 1 := name];
        pws := pws[i - 1 := pw];
        i := i + 1;
      }
      AllMoved(names0, pws0, names, pws, found, cnt);
      cnt := cnt - 1;
      names := names[cnt := Zeros(MAX_LEN + 1)];
      pws := pws[cnt := Zeros(MAX_LEN + 1)];
    }
  }

  // addUser accepts.
  predicate MayAdd(es: seq<Entry>, u: string, p: string) {
    |es| < MAX_USER && 2 <= |u| <= MAX_LEN && 2 <= |p| <= MAX_LEN && IndexOf(es, u) == |es|
  }

  function Without(es: seq<Entry>, k: nat): (r: seq<Entry>)
    requires k < |es|
    ensures |r| == |es| - 1 && (Distinct(es) ==> Distinct(r))
  {
    var r := es[..k] + es[k + 1..];
    assert forall i :: 0 <= i < |r| ==> r[i] == es[if i < k then i else i + 1];
    r
  }

  lemma RowIsZero(names: seq<string>, pws: seq<string>, cnt: nat)
    requires Shaped(names, pws, cnt) && cnt < MAX_USER
    ensures |names| == |pws| == MAX_USER && IsZero(names[cnt]) && IsZero(pws[cnt])
  {
  }

  lemma OneMore(names: seq<string>, pws: seq<string>, cnt: nat, name: string, pw: string)
    requires Shaped(names, pws, cnt) && cnt < MAX_USER && IsRow(name) && IsRow(pw)
    requires Distinct(EntriesOf(names, pws, cnt)) && IndexOf(EntriesOf(names, pws, cnt), Str(name)) == cnt
    ensures |names| == |pws| == MAX_USER && Shaped(names[cnt := name], pws[cnt := pw], cnt + 1)
    ensures var es := EntriesOf(names[cnt := name], pws[cnt := pw], cnt + 1);
            Distinct(es) && es == EntriesOf(names, pws, cnt) + [Entry(Str(name), Str(pw))]
  {
    hide Str;
    hide IsRow;
    hide IsZero;
  }

  // Rows from `found` on, up to row i, hold the string of the row after them.
  ghost predicate Moved(rows0: seq<string>, rows: seq<string>, found: nat, i: nat) {
    && |rows| == |rows0| && found < i <= |rows0|
    && (forall k :: 0 <= k < |rows| && !(found <= k < i - 1) ==> rows[k] == rows0[k])
    && (forall k :: found <= k < i - 1 ==> IsRow(rows[k]) && Str(rows[k]) == Str(rows0[k + 1]))
  }

  lemma NoneMoved(rows: seq<string>, found: nat)
    requires found < |rows|
    ensures Moved(rows, rows, found, found + 1)
  {
  }

  // The row to move and the one it moves to are still as they were.
  lemma MovedNext(rows0: seq<string>, rows: seq<string>, found: nat, i: nat)
    requires Moved(rows0, rows, found, i) && i < |rows0|
    ensures |rows| == |rows0| && rows[i - 1] == rows0[i - 1] && rows[i] == rows0[i]
  {
  }

  lemma MoveOne(rows0: seq<string>, rows: seq<string>, found: nat, i: nat, row: string)
    requires Moved(rows0, rows, found, i) && i < |rows0| && IsRow(row) && Str(row) == Str(rows0[i])
    ensures |rows| == |rows0| && Moved(rows0, rows[i - 1 := row], found, i + 1)
  {
    hide Str;
    hide IsRow;
  }

  lemma RowsMoved(rows0: seq<string>, rows: seq<string>, found: nat, cnt: nat)
    requires Moved(rows0, rows, found, cnt) && cnt <= |rows0| == MAX_USER
    requires forall i :: 0 <= i < cnt ==> IsRow(rows0[i])
    requires forall i :: cnt <= i < MAX_USER ==> IsZero(rows0[i])
    ensures |rows| == MAX_USER && IsZero(Zeros(MAX_LEN + 1))
    ensures forall i :: 0 <= i < cnt - 1 ==>
              IsRow(rows[i]) && Str(rows[i]) == Str(rows0[if i < found then i else i + 1])
    ensures forall i :: cnt <= i < MAX_USER ==> IsZero(rows[i])
  {
    hide Str;
    hide IsRow;
  }

  lemma AllMoved(names0: seq<string>, pws0: seq<string>, names: seq<string>, pws: seq<string>, found: nat, cnt: nat)
    requires Shaped(names0, pws0, cnt) && found < cnt
    requires Moved(names0, names, found, cnt) && Moved(pws0, pws, found, cnt)
    ensures |names| == |pws| == MAX_USER
    ensures var n, p := names[cnt - 1 := Zeros(MAX_LEN + 1)], pws[cnt - 1 := Zeros(MAX_LEN + 1)];
            Shaped(n, p, cnt - 1) && EntriesOf(n, p, cnt - 1) == Without(EntriesOf(names0, pws0, cnt), found)
  {
    hide Str;
    hide IsRow;
    hide IsZero;
    hide Moved;
    RowsMoved(names0, names, found, cnt);
    RowsMoved(pws0, pws, found, cnt);
    var n, p := names[cnt - 1 := Zeros(MAX_LEN + 1)], pws[cnt - 1 := Zeros(MAX_LEN + 1)];
    var es, es' := EntriesOf(names0, pws0, cnt), EntriesOf(n, p, cnt - 1);
    assert forall i :: 0 <= i < cnt - 1 ==> es'[i] == es[if i < found then i else i + 1];
  }

  // First user of that name, or the number of users.
  function IndexOf(es: seq<Entry>, name: string): (k: nat)
    ensures k <= |es| && (k < |es| ==> es[k].name == name) && forall i :: 0 <= i < k ==> es[i].name != name
  {
    if es == [] || es[0].name == name then 0
    else
      var k := IndexOf(es[1..], name);
      assert forall i :: 0 < i < |es| ==> es[i] == es[1..][i - 1];
      k + 1
  }

  lemma IndexIs(es: seq<Entry>, name: string, k: nat)
    requires k <= |es| && (k < |es| ==> es[k].name == name) && forall i :: 0 <= i < k ==> es[i].name != name
    ensures IndexOf(es, name) == k
  {
  }

  /** A flush, and a load into a clear table at the next start: the same users in the same order. */
  method Restart(t: Table) returns (u: Table)
    requires t.Valid() && t.cnt > 0 && AllClean(t.Entries())
    requires t.Entries()[0].name == "root" && |t.Entries()[0].pw| >= 2
    modifies t`file
    ensures u.Valid() && u.Entries() == old(t.Entries())
  {
    hide Encode;
    hide Decode;
    hide Seen;
    hide Shaped;
    hide EntriesOf;
    ghost var es, before := t.Entries(), t.file;
    var r := t.FlushUsers(true);
    ShapedStorable(t.names, t.pws, t.cnt);
    SeenImage(before, es);
    ShortEncode(es, MAX_USER);
    RootIsLong(before, es);
    LoadFlush(before, es);
    u := new Table(t.file);
    CntZero(u);
    u.LoadUsers();
  }

  lemma CntZero(u: Table)
    requires u.Valid() && u.Entries() == []
    ensures u.cnt == 0
  {
  }
}
