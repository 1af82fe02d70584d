/** loadUsers reads the text of the file character by character into the rows of a cleared table. */
module UserLoad {
  import opened UserFile
  import opened UserRows

  // A row that holds a piece of text and nothing else.
  predicate Holds(row: string, piece: string) {
    && |row| == MAX_LEN + 1 && |piece| <= MAX_LEN && NUL !in piece
    && row == piece + Zeros(MAX_LEN + 1 - |piece|)
  }

  lemma HoldsNone(row: string)
    ensures IsZero(row) <==> Holds(row, "")
  {
    if IsZero(row) {
      assert row == Zeros(MAX_LEN + 1);
    }
  }

  lemma HoldsMore(row: string, piece: string, c: char)
    requires Holds(row, piece) && |piece| < MAX_LEN && c != NUL
    ensures Holds(row[|piece| := c], piece + [c])
  {
    assert row[|piece| := c] == (piece + [c]) + Zeros(MAX_LEN - |piece|);
  }

  lemma HoldsRow(row: string, piece: string)
    requires Holds(row, piece)
    ensures IsRow(row) && Str(row) == piece
  {
    StrIs(row, piece);
  }

  // The rows of the users read so far, the row being read, and the clear rows after it.
  ghost predicate Rows(names: seq<string>, pws: seq<string>, done: seq<Entry>, name: string, pw: string) {
    && |names| == |pws| == MAX_USER && |done| <= MAX_USER
    && (forall k :: 0 <= k < |done| ==> Holds(names[k], done[k].name) && Holds(pws[k], done[k].pw))
    && (|done| < MAX_USER ==> Holds(names[|done|], name) && Holds(pws[|done|], pw))
    && (forall k :: |done| < k < MAX_USER ==> Holds(names[k], "") && Holds(pws[k], ""))
  }

  // The text from the current user on: a piece of the name, after '-' a piece of the password, the rest.
  function Tail(inPw: bool, name: string, pw: string, rest: string): string {
    if inPw then name + ("-" + (pw + rest)) else name + rest
  }

  // Of the text t the users `done` have been read, and part of the next one.
  ghost predicate Reading(t: string, done: seq<Entry>, inPw: bool, name: string, pw: string, rest: string) {
    && |done| <= MAX_USER
    && '-' !in name && '/' !in pw && (!inPw ==> pw == "") && (|done| == MAX_USER ==> !inPw && name == "")
    && Encode(done) + Tail(inPw, name, pw, rest) == t
    && Decode(t, MAX_USER) == done + Decode(Tail(inPw, name, pw, rest), MAX_USER - |done|)
    && Short(Tail(inPw, name, pw, rest), MAX_USER - |done|)
  }

  lemma ReadNothing(t: string)
    requires Short(t, MAX_USER)
    ensures Reading(t, [], false, "", "", t)
  {
    assert "" + t == t;
  }

  // One more character of the name.
  lemma ReadName(t: string, done: seq<Entry>, name: string, rest: string)
    requires Reading(t, done, false, name, "", rest) && |done| < MAX_USER && rest != [] && rest[0] != '-'
    ensures |name| < MAX_LEN && Reading(t, done, false, name + [rest[0]], "", rest[1..])
  {
    hide Until;
    hide Decode;
    hide Encode;
    var whole := name + rest;
    assert whole == (name + [rest[0]]) + rest[1..];
    assert forall k :: 0 <= k <= |name| ==> whole[k] != '-';
    assert Until(whole, '-') > |name|;
  }

  // The '-' after the name.
  lemma ReadDash(t: string, done: seq<Entry>, name: string, rest: string)
    requires Reading(t, done, false, name, "", rest) && |done| < MAX_USER && rest != [] && rest[0] == '-'
    ensures Reading(t, done, true, name, "", rest[1..])
  {
    hide Until;
    hide Decode;
    hide Encode;
    hide Short;
    assert name + rest == name + ("-" + ("" + rest[1..]));
  }

  // One more character of the password.
  lemma ReadPw(t: string, done: seq<Entry>, name: string, pw: string, rest: string)
    requires Reading(t, done, true, name, pw, rest) && rest != [] && rest[0] != '/'
    ensures |pw| < MAX_LEN && Reading(t, done, true, name, pw + [rest[0]], rest[1..])
  {
    hide Until;
    hide Decode;
    hide Encode;
    var u := pw + rest;
    assert u == (pw + [rest[0]]) + rest[1..];
    CutAt(name, '-', u);
    assert forall k :: 0 <= k <= |pw| ==> u[k] != '/';
    assert Until(u, '/') > |pw|;
  }

  // The '/' after the password.
  lemma ReadSlash(t: string, done: seq<Entry>, name: string, pw: string, rest: string)
    requires Reading(t, done, true, name, pw, rest) && rest != [] && rest[0] == '/'
    ensures Reading(t, done + [Entry(name, pw)], false, "", "", rest[1..])
  {
    hide Until;
    hide Decode;
    hide Encode;
    hide Encode1;
    hide Short;
    hide Tail;
    var e, r, max := Entry(name, pw), rest[1..], MAX_USER - |done|;
    TailSlash(name, pw, rest);
    FirstCut(e, r, max);
    ShortCut(e, r, max);
    EncodeSnoc(done, e);
    Assoc(Encode(done), Encode1(e), r);
    Assoc(done, [e], Decode(r, max - 1));
  }

  lemma TailSlash(name: string, pw: string, rest: string)
    requires rest != [] && rest[0] == '/'
    ensures Tail(true, name, pw, rest) == Encode1(Entry(name, pw)) + rest[1..]
    ensures Tail(false, "", "", rest[1..]) == rest[1..]
  {
    Nest(Entry(name, pw), rest[1..]);
    assert rest == "/" + rest[1..];
  }

  lemma Assoc<T>(a: seq<T>, b: seq<T>, c: seq<T>)
    ensures a + (b + c) == (a + b) + c
  {
  }

  // At the end, or with the table full, the users read are all there are.
  lemma ReadAll(t: string, done: seq<Entry>, inPw: bool, name: string, pw: string, rest: string)
    requires Reading(t, done, inPw, name, pw, rest) && (rest == [] || |done| == MAX_USER)
    ensures Decode(t, MAX_USER) == done
    ensures |done| < MAX_USER ==> (name == "" && pw == "" <==> Whole(t, done))
  {
    hide Until;
    hide Encode;
    hide Short;
    var tail := Tail(inPw, name, pw, rest);
    if |done| < MAX_USER {
      if inPw {
        assert pw + rest == pw;
        CutAt(name, '-', pw);
        UntilIs(pw, '/', |pw|);
      } else {
        assert tail == name;
        UntilIs(name, '-', |name|);
      }
    }
    assert Decode(tail, MAX_USER - |done|) == [];
    TailIs(inPw, name, pw, Encode(done));
  }

  // The text is the users and nothing more, or a separator with nothing around it.
  predicate Whole(t: string, es: seq<Entry>) {
    t == Encode(es) || t == Encode(es) + "-"
  }

  lemma TailIs(inPw: bool, name: string, pw: string, e: string)
    requires '-' !in name && (!inPw ==> pw == "")
    ensures var t := e + Tail(inPw, name, pw, ""); name == "" && pw == "" <==> t == e || t == e + "-"
  {
    var tail := Tail(inPw, name, pw, "");
    var t := e + tail;
    assert t[|e|..] == tail && (e + "-")[|e|..] == "-";
    assert e + "" == e;
    if name != "" {
      assert tail[0] == name[0];
    }
  }

  lemma RowSize(row: string, piece: string)
    requires Holds(row, piece)
    ensures |row| == MAX_LEN + 1
  {
  }

  // ---------------------------------------------------------------- the rows

  lemma RowsName(names: seq<string>, pws: seq<string>, done: seq<Entry>, name: string, pw: string, c: char)
    requires Rows(names, pws, done, name, pw) && |done| < MAX_USER && |name| < MAX_LEN && c != NUL
    ensures |names[|done|]| == MAX_LEN + 1
    ensures Rows(names[|done| := names[|done|][|name| := c]], pws, done, name + [c], pw)
  {
    hide Holds;
    assert Holds(names[|done|], name);
    HoldsMore(names[|done|], name, c);
    RowSize(names[|done|], name);
  }

  lemma RowsPw(names: seq<string>, pws: seq<string>, done: seq<Entry>, name: string, pw: string, c: char)
    requires Rows(names, pws, done, name, pw) && |done| < MAX_USER && |pw| < MAX_LEN && c != NUL
    ensures |pws[|done|]| == MAX_LEN + 1 && Rows(names, pws[|done| := pws[|done|][|pw| := c]], done, name, pw + [c])
  {
    hide Holds;
    assert Holds(pws[|done|], pw);
    HoldsMore(pws[|done|], pw, c);
    RowSize(pws[|done|], pw);
  }

  lemma RowsNext(names: seq<string>, pws: seq<string>, done: seq<Entry>, name: string, pw: string)
    requires Rows(names, pws, done, name, pw) && |done| < MAX_USER
    ensures Rows(names, pws, done + [Entry(name, pw)], "", "")
  {
    hide Holds;
  }

  lemma RowsClear(names: seq<string>, pws: seq<string>)
    requires |names| == |pws| == MAX_USER && forall i :: 0 <= i < MAX_USER ==> IsZero(names[i]) && IsZero(pws[i])
    ensures Rows(names, pws, [], "", "")
  {
    hide Holds;
    forall k | 0 <= k < MAX_USER
      ensures Holds(names[k], "") && Holds(pws[k], "")
    {
      HoldsNone(names[k]);
      HoldsNone(pws[k]);
    }
  }

  lemma RowsRead(names: seq<string>, pws: seq<string>, done: seq<Entry>, name: string, pw: string)
    requires Rows(names, pws, done, name, pw)
    ensures forall k :: 0 <= k < |done| ==> IsRow(names[k]) && IsRow(pws[k])
    ensures forall k :: 0 <= k < |done| ==> Entry(Str(names[k]), Str(pws[k])) == done[k]
    ensures |done| < MAX_USER ==> (IsZero(names[|done|]) && IsZero(pws[|done|]) <==> name == "" && pw == "")
    ensures forall k :: |done| < k < MAX_USER ==> IsZero(names[k]) && IsZero(pws[k])
  {
    hide Holds;
    hide IsRow;
    hide Str;
    hide IsZero;
    forall k | 0 <= k < |done|
      ensures IsRow(names[k]) && IsRow(pws[k]) && Entry(Str(names[k]), Str(pws[k])) == done[k]
    {
      HoldsRow(names[k], done[k].name);
      HoldsRow(pws[k], done[k].pw);
    }
    forall k | |done| < k < MAX_USER
      ensures IsZero(names[k]) && IsZero(pws[k])
    {
      HoldsNone(names[k]);
      HoldsNone(pws[k]);
    }
    if |done| < MAX_USER {
      HoldsZero(names[|done|], name);
      HoldsZero(pws[|done|], pw);
    }
  }

  lemma HoldsZero(row: string, piece: string)
    requires Holds(row, piece)
    ensures IsZero(row) <==> piece == ""
  {
    if piece != "" {
      assert row[0] == piece[0];
    }
  }

  // The buffer that loadUsers reads into has the text, and a NUL after it if there is room.
  lemma Buffered(file: string, n: nat)
    requires n == if |file| < BUF_LEN then |file| else BUF_LEN
    ensures var buf, t := file[..n] + Zeros(BUF_LEN - n), Seen(file);
            && |buf| == BUF_LEN && |t| <= BUF_LEN && t == buf[..|t|] && NUL !in t && (|t| < BUF_LEN ==> buf[|t|] == NUL)
  {
    hide Until;
    var buf, t := file[..n] + Zeros(BUF_LEN - n), Seen(file);
    assert forall i :: 0 <= i < |t| ==> buf[i] == t[i];
  }
}
