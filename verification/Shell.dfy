/** The parser of sh.c as it runs: a cursor over the line, recursive descent, and NULs written into the
    buffer at the end so that every word becomes a string. */
module Shell {
  import opened ShellLex
  import opened ShellParse

  datatype Out = Good(cmd: Cmd<Word>, ps: nat) | Bad(why: Failure)

  // A method's answer at a cursor is the grammar's answer on the tokens from there.
  ghost predicate Matches(s: string, out: Out, r: Parsed)
    requires NoNul(s)
  {
    if r.Ok? then out.Good? && out.cmd == r.cmd && out.ps <= |s| && Tokens(s, out.ps) == r.rest else out == Bad(r.why)
  }

  lemma SkipTwice(s: string, i: nat)
    requires NoNul(s) && i <= |s|
    ensures Skip(s, Skip(s, i)) == Skip(s, i) && Tokens(s, Skip(s, i)) == Tokens(s, i)
  {
  }

  // The first character of the next token tells its kind.
  lemma FirstChar(s: string, i: nat)
    requires NoNul(s) && i <= |s|
    ensures var j := Skip(s, i);
            Kind(Tokens(s, i)) == (if j == |s| then NUL else if !IsSymbol(s[j]) then 'a'
                                   else if s[j] == '>' && j + 1 < |s| && s[j + 1] == '>' then '+' else s[j])
  {
    hide Skip;
    hide WordEnd;
  }

  method SkipSpaces(s: string, i: nat) returns (j: nat)
    requires i <= |s|
    ensures j == Skip(s, i)
  {
    j := i;
    while j < |s| && IsSpace(s[j])
      invariant i <= j <= |s| && Skip(s, i) == Skip(s, j)
    {
      j := j + 1;
    }
  }

  // The token at q: its kind and its end.
  method ScanToken(s: string, q: nat) returns (ret: char, eq: nat)
    requires NoNul(s) && q <= |s| && (q < |s| ==> !IsSpace(s[q]))
    ensures q <= eq <= |s|
    ensures if q == |s| then ret == NUL && eq == q else Next(s, q) == Tok(ret, Word(s[q..eq], q, eq))
  {
    ret := if q < |s| then s[q] else NUL;
    eq := q;
    if q == |s| {
    } else if ret in "|();&<" {
      eq := q + 1;
    } else if ret == '>' {
      eq := q + 1;
      if eq < |s| && s[eq] == '>' {
        ret, eq := '+', eq + 1;
      }
    } else {
      ret := 'a';
      while eq < |s| && !IsSpace(s[eq]) && !IsSymbol(s[eq])
        invariant q <= eq <= |s| && WordEnd(s, q) == WordEnd(s, eq)
      {
        eq := eq + 1;
      }
    }
  }

  /** gettoken: the kind and the ends of the next token, NUL at the end of the line, and the cursor moved to
      the token after it. */
  method GetToken(s: string, ps: nat) returns (ret: char, q: nat, eq: nat, ps': nat)
    requires NoNul(s) && ps <= |s|
    ensures ps <= q <= eq <= ps' <= |s|
    ensures ret == Kind(Tokens(s, ps))
    ensures var ts := Tokens(s, ps);
            if ts == [] then q == |s| && Tokens(s, ps') == []
            else ts[0].word == Word(s[q..eq], q, eq) && Tokens(s, ps') == ts[1..]
  {
    hide TokensOk;
    hide NoNul;
    hide Next;
    hide Skip;
    q := SkipSpaces(s, ps);
    ret, eq := ScanToken(s, q);
    ps' := SkipSpaces(s, eq);
    SkipTwice(s, eq);
    if q < |s| {
      assert Tokens(s, ps) == [Next(s, q)] + Tokens(s, eq);
    } else {
      AtEnd(s, ps);
      AtEnd(s, eq);
      SkipTwice(s, ps);
    }
  }

  /** peek: is the next character one of toks?  The cursor moves over white space only. */
  method Peek(s: string, ps: nat, toks: string) returns (yes: bool, ps': nat)
    requires NoNul(s) && ps <= |s|
    ensures ps <= ps' <= |s| && ps' == Skip(s, ps) && Tokens(s, ps') == Tokens(s, ps)
    ensures yes <==> ps' < |s| && s[ps'] in toks
  {
    hide Tokens;
    ps' := SkipSpaces(s, ps);
    SkipTwice(s, ps);
    yes := ps' < |s| && s[ps'] in toks;
  }

  // peek for one symbol other than '>'.
  method PeekOne(s: string, ps: nat, c: char) returns (yes: bool, ps': nat)
    requires NoNul(s) && ps <= |s| && IsSymbol(c) && c != '>'
    ensures ps <= ps' <= |s| && Tokens(s, ps') == Tokens(s, ps)
    ensures yes <==> Kind(Tokens(s, ps)) == c
  {
    hide Tokens;
    yes, ps' := Peek(s, ps, [c]);
    FirstChar(s, ps);
  }

  /** parseredirs: the redirections at the cursor, in order. */
  method ParseRedirs(s: string, ps: nat) returns (ok: bool, arrows: seq<Arrow<Word>>, ps': nat)
    requires NoNul(s) && ps <= |s|
    ensures var a := Redirs(s, Tokens(s, ps));
            && (ok <==> a.Got?) && ps' <= |s|
            && (ok ==> arrows == a.arrows && Tokens(s, ps') == a.rest)
  {
    hide Tokens;
    hide TokensOk;
    hide WordOk;
    hide Redirs;
    hide JoinArrows;
    arrows, ps' := [], ps;
    JoinNone(s, Tokens(s, ps), []);
    ghost var whole := Redirs(s, Tokens(s, ps));
    while true
      invariant ps' <= |s|
      invariant JoinArrows(arrows, Redirs(s, Tokens(s, ps'))) == whole
      decreases |Tokens(s, ps')|
    {
      ghost var ts := Tokens(s, ps');
      var more;
      FirstChar(s, ps');
      more, ps' := Peek(s, ps', "<>");
      if !more {
        JoinNone(s, ts, arrows);
        break;
      }
      var tok, q, eq;
      tok, q, eq, ps' := GetToken(s, ps');
      var kind;
      kind, q, eq, ps' := GetToken(s, ps');
      JoinStep(s, ts, arrows);
      if kind != 'a' {
        return false, arrows, ps';
      }
      assert ts[1..][1..] == ts[2..];
      arrows := arrows + [Arrow(Word(s[q..eq], q, eq), if tok == '<' then Read else Write)];
    }
    ok := true;
  }

  ghost function JoinArrows(arrows: seq<Arrow<Word>>, a: Arrows): Arrows {
    if a.NoFile? then a else Got(arrows + a.arrows, a.rest)
  }

  lemma JoinNone(s: string, ts: seq<Tok>, arrows: seq<Arrow<Word>>)
    requires TokensOk(s, ts)
    ensures arrows == [] ==> JoinArrows(arrows, Redirs(s, ts)) == Redirs(s, ts)
    ensures !IsArrow(Kind(ts)) ==> JoinArrows(arrows, Redirs(s, ts)) == Got(arrows, ts)
  {
    assert arrows + [] == arrows;
    if arrows == [] && Redirs(s, ts).Got? {
      assert arrows + Redirs(s, ts).arrows == Redirs(s, ts).arrows;
    }
  }

  lemma JoinStep(s: string, ts: seq<Tok>, arrows: seq<Arrow<Word>>)
    requires TokensOk(s, ts) && IsArrow(Kind(ts))
    ensures Kind(ts[1..]) != 'a' ==> JoinArrows(arrows, Redirs(s, ts)) == NoFile
    ensures Kind(ts[1..]) == 'a' ==> TokensOk(s, ts[2..])
    ensures Kind(ts[1..]) == 'a' ==>
              var a := Arrow(ts[1].word, if ts[0].kind == '<' then Read else Write);
              JoinArrows(arrows, Redirs(s, ts)) == JoinArrows(arrows + [a], Redirs(s, ts[2..]))
  {
    if Kind(ts[1..]) == 'a' {
      var a, r := Arrow(ts[1].word, if ts[0].kind == '<' then Read else Write), Redirs(s, ts[2..]);
      if r.Got? {
        assert arrows + ([a] + r.arrows) == arrows + [a] + r.arrows;
      }
    }
  }

  // Redirections read ahead.
  lemma ExecRedirs(s: string, argv: seq<Word>, arrows: seq<Arrow<Word>>, ts: seq<Tok>)
    requires TokensOk(s, ts) && CmdOk(s, Exec(argv)) && ArrowsOk(s, arrows) && Redirs(s, ts).Got?
    ensures var a := Redirs(s, ts);
            && ArrowsOk(s, arrows + a.arrows)
            && ExecRest(s, argv, arrows, ts) == ExecRest(s, argv, arrows + a.arrows, a.rest)
  {
    hide TokensOk;
    var a := Redirs(s, ts);
    assert Redirs(s, a.rest) == Got([], a.rest);
    assert arrows + a.arrows + [] == arrows + a.arrows;
  }

  /** parseexec */
  method ParseExecAt(s: string, ps: nat) returns (out: Out)
    requires NoNul(s) && ps <= |s|
    ensures Matches(s, out, ParseExec(s, Tokens(s, ps)))
    decreases |Tokens(s, ps)|, 1
  {
    hide Tokens;
    hide ExecRest;
    var block, at := PeekOne(s, ps, '(');
    if block {
      out := ParseBlockAt(s, at);
      return;
    }
    out := ParseWords(s, at);
  }

  // The words and redirections of a simple command.
  method ParseWords(s: string, ps: nat) returns (out: Out)
    requires NoNul(s) && ps <= |s|
    ensures Matches(s, out, ExecRest(s, [], [], Tokens(s, ps)))
  {
    hide Tokens;
    hide TokensOk;
    hide WordOk;
    hide Redirs;
    ghost var whole := ExecRest(s, [], [], Tokens(s, ps));
    var ok, arrows, at := ParseRedirs(s, ps);
    var argv: seq<Word> := [];
    if !ok {
      return Bad(MissingFile);
    }
    ExecRedirs(s, [], [], Tokens(s, ps));
    assert [] + arrows == arrows;
    while true
      invariant 0 <= at <= |s| && |argv| < MAXARGS && !IsArrow(Kind(Tokens(s, at)))
      invariant CmdOk(s, Exec(argv)) && ArrowsOk(s, arrows) && ExecRest(s, argv, arrows, Tokens(s, at)) == whole
      decreases |Tokens(s, at)|
    {
      ghost var ts := Tokens(s, at);
      NoRedirs(s, ts, arrows);
      FirstChar(s, at);
      var stop;
      stop, at := Peek(s, at, "|)&;");
      if stop {
        break;
      }
      var tok, q, eq;
      ghost var before := at;
      tok, q, eq, at := GetToken(s, at);
      if tok == NUL {
        break;
      }
      if tok != 'a' {
        return Bad(Syntax);
      }
      assert WordOk(s, ts[0].word) by { FirstOk(s, ts); }
      argv := argv + [Word(s[q..eq], q, eq)];
      if |argv| >= MAXARGS {
        return Bad(TooManyArgs);
      }
      var more;
      ghost var ts1 := Tokens(s, at);
      ok, more, at := ParseRedirs(s, at);
      if !ok {
        FailRedirs(s, argv, arrows, ts1);
        return Bad(MissingFile);
      }
      ExecRedirs(s, argv, arrows, ts1);
      arrows := arrows + more;
    }
    out := Good(Wrap(Exec(argv), arrows), at);
  }

  lemma NoRedirs(s: string, ts: seq<Tok>, arrows: seq<Arrow<Word>>)
    requires TokensOk(s, ts) && !IsArrow(Kind(ts))
    ensures Redirs(s, ts) == Got([], ts) && arrows + Redirs(s, ts).arrows == arrows
  {
  }

  lemma FirstOk(s: string, ts: seq<Tok>)
    requires TokensOk(s, ts) && ts != [] && ts[0].kind == 'a'
    ensures WordOk(s, ts[0].word)
  {
  }

  lemma FailRedirs(s: string, argv: seq<Word>, arrows: seq<Arrow<Word>>, ts: seq<Tok>)
    requires TokensOk(s, ts) && CmdOk(s, Exec(argv)) && ArrowsOk(s, arrows) && Redirs(s, ts).NoFile?
    ensures ExecRest(s, argv, arrows, ts) == Fail(MissingFile)
  {
  }

  /** parseblock */
  method ParseBlockAt(s: string, ps: nat) returns (out: Out)
    requires NoNul(s) && ps <= |s| && Kind(Tokens(s, ps)) == '('
    ensures Matches(s, out, ParseBlock(s, Tokens(s, ps)))
    decreases |Tokens(s, ps)|, 0
  {
    hide Tokens;
    hide TokensOk;
    hide ParseLine;
    hide Redirs;
    var tok, q, eq, at := GetToken(s, ps);
    out := ParseLineAt(s, at);
    if out.Bad? {
      return;
    }
    var close;
    close, at := PeekOne(s, out.ps, ')');
    if !close {
      return Bad(MissingParen);
    }
    tok, q, eq, at := GetToken(s, at);
    var ok, arrows;
    ok, arrows, at := ParseRedirs(s, at);
    if !ok {
      return Bad(MissingFile);
    }
    out := Good(Wrap(out.cmd, arrows), at);
  }

  /** parsepipe */
  method ParsePipeAt(s: string, ps: nat) returns (out: Out)
    requires NoNul(s) && ps <= |s|
    ensures Matches(s, out, ParsePipe(s, Tokens(s, ps)))
    decreases |Tokens(s, ps)|, 2
  {
    hide Tokens;
    hide TokensOk;
    hide ParseExec;
    out := ParseExecAt(s, ps);
    if out.Bad? {
      return;
    }
    var pipe, at := PeekOne(s, out.ps, '|');
    if pipe {
      var tok, q, eq;
      tok, q, eq, at := GetToken(s, at);
      var right := ParsePipeAt(s, at);
      if right.Bad? {
        return right;
      }
      out := Good(Pipe(out.cmd, right.cmd), right.ps);
    }
  }

  /** parseline */
  method ParseLineAt(s: string, ps: nat) returns (out: Out)
    requires NoNul(s) && ps <= |s|
    ensures Matches(s, out, ParseLine(s, Tokens(s, ps)))
    decreases |Tokens(s, ps)|, 3
  {
    hide Tokens;
    hide TokensOk;
    hide ParsePipe;
    out := ParsePipeAt(s, ps);
    if out.Bad? {
      return;
    }
    ghost var p := ParsePipe(s, Tokens(s, ps));
    ghost var l := Amps(s, p.cmd, p.rest);
    var cmd, at := out.cmd, out.ps;
    while true
      invariant 0 <= at <= |s| && CmdOk(s, cmd) && Amps(s, cmd, Tokens(s, at)) == l
      invariant |Tokens(s, at)| <= |Tokens(s, ps)|
      decreases |Tokens(s, at)|
    {
      var amp;
      amp, at := PeekOne(s, at, '&');
      if !amp {
        break;
      }
      var tok, q, eq;
      tok, q, eq, at := GetToken(s, at);
      cmd := Back(cmd);
    }
    var semi;
    semi, at := PeekOne(s, at, ';');
    out := Good(cmd, at);
    if semi {
      var tok, q, eq;
      tok, q, eq, at := GetToken(s, at);
      var right := ParseLineAt(s, at);
      if right.Bad? {
        return right;
      }
      out := Good(List(cmd, right.cmd), right.ps);
    }
  }

  // ---------------------------------------------------------------- nulterminate

  // Some word of the tree ends at i.
  predicate EndsAt(c: Cmd<Word>, i: nat) {
    match c
    case Exec(argv) => exists j :: 0 <= j < |argv| && argv[j].eq == i
    case Redir(c', file, mode) => EndsAt(c', i) || file.eq == i
    case Pipe(l, r) => EndsAt(l, i) || EndsAt(r, i)
    case List(l, r) => EndsAt(l, i) || EndsAt(r, i)
    case Back(c') => EndsAt(c', i)
  }

  // The string at a position of a buffer: the characters up to the first NUL.
  function CString(b: string, i: nat): string
    decreases |b| - i
  {
    if i >= |b| || b[i] == NUL then "" else [b[i]] + CString(b, i + 1)
  }

  // Every word of the tree, read as a string from its place in the buffer, is that word.
  predicate ReadBack(b: string, c: Cmd<Word>) {
    match c
    case Exec(argv) => forall j :: 0 <= j < |argv| ==> CString(b, argv[j].q) == argv[j].text
    case Redir(c', file, mode) => ReadBack(b, c') && CString(b, file.q) == file.text
    case Pipe(l, r) => ReadBack(b, l) && ReadBack(b, r)
    case List(l, r) => ReadBack(b, l) && ReadBack(b, r)
    case Back(c') => ReadBack(b, c')
  }

  lemma {:induction false} EndsApart(s: string, c: Cmd<Word>, i: nat)
    requires CmdOk(s, c) && EndsAt(c, i)
    ensures i <= |s| && (i < |s| ==> !IsPlain(s[i]))
  {
    match c
    case Exec(argv) =>
      var j :| 0 <= j < |argv| && argv[j].eq == i;
      assert WordOk(s, argv[j]);
    case Redir(c', file, mode) =>
      if EndsAt(c', i) {
        EndsApart(s, c', i);
      }
    case Pipe(l, r) =>
      if EndsAt(l, i) {
        EndsApart(s, l, i);
      } else {
        EndsApart(s, r, i);
      }
    case List(l, r) =>
      if EndsAt(l, i) {
        EndsApart(s, l, i);
      } else {
        EndsApart(s, r, i);
      }
    case Back(c') =>
      EndsApart(s, c', i);
  }

  lemma {:induction false} StringIs(b: string, i: nat, w: string)
    requires i + |w| < |b| && b[i..i + |w|] == w && b[i + |w|] == NUL && forall k :: 0 <= k < |w| ==> w[k] != NUL
    ensures CString(b, i) == w
    decreases |w|
  {
    if w != [] {
      assert b[i] == b[i..i + |w|][0];
      assert b[i + 1..i + |w|] == w[1..];
      StringIs(b, i + 1, w[1..]);
    }
  }

  lemma NoNulInWord(s: string, w: Word)
    requires WordOk(s, w)
    ensures forall k :: 0 <= k < |w.text| ==> w.text[k] != NUL
  {
    assert forall k :: 0 <= k < |w.text| ==> w.text[k] == s[w.q + k];
  }

  // Plain characters untouched, and a NUL where the word ends.
  lemma WordReadsBack(s: string, b: string, w: Word)
    requires WordOk(s, w) && |b| > |s| && b[w.eq] == NUL
    requires forall i :: 0 <= i < |s| && IsPlain(s[i]) ==> b[i] == s[i]
    ensures CString(b, w.q) == w.text
  {
    hide IsPlain;
    assert forall k :: w.q <= k < w.eq ==> b[k] == s[k];
    assert b[w.q..w.eq] == w.text;
    NoNulInWord(s, w);
    StringIs(b, w.q, w.text);
  }

  lemma {:induction false} TreeReadsBack(s: string, b: string, c: Cmd<Word>)
    requires CmdOk(s, c) && |b| > |s|
    requires forall i :: 0 <= i < |b| && EndsAt(c, i) ==> b[i] == NUL
    requires forall i :: 0 <= i < |s| && IsPlain(s[i]) ==> b[i] == s[i]
    ensures ReadBack(b, c)
  {
    hide IsPlain;
    match c
    case Exec(argv) =>
      forall j | 0 <= j < |argv|
        ensures CString(b, argv[j].q) == argv[j].text
      {
        assert EndsAt(c, argv[j].eq);
        WordReadsBack(s, b, argv[j]);
      }
    case Redir(c', file, mode) =>
      assert EndsAt(c, file.eq);
      WordReadsBack(s, b, file);
      Ends(s, b, c, c');
      TreeReadsBack(s, b, c');
    case Pipe(l, r) =>
      Ends(s, b, c, l);
      Ends(s, b, c, r);
      TreeReadsBack(s, b, l);
      TreeReadsBack(s, b, r);
    case List(l, r) =>
      Ends(s, b, c, l);
      Ends(s, b, c, r);
      TreeReadsBack(s, b, l);
      TreeReadsBack(s, b, r);
    case Back(c') =>
      Ends(s, b, c, c');
      TreeReadsBack(s, b, c');
  }

  // What ends in a subtree ends in the tree.
  lemma Ends(s: string, b: string, c: Cmd<Word>, sub: Cmd<Word>)
    requires forall i :: 0 <= i < |b| && EndsAt(c, i) ==> b[i] == NUL
    requires match c case Exec(_) => false case Redir(c', _, _) => sub == c' case Pipe(l, r) => sub == l || sub == r
               case List(l, r) => sub == l || sub == r case Back(c') => sub == c'
    ensures forall i :: 0 <= i < |b| && EndsAt(sub, i) ==> b[i] == NUL
  {
    forall i | 0 <= i < |b| && EndsAt(sub, i)
      ensures b[i] == NUL
    {
      assert EndsAt(c, i);
    }
  }

  /** nulterminate: a NUL where each word of the tree ends, and no other change. */
  method NulTerminate(c: Cmd<Word>, buf: array<char>)
    requires forall i: nat :: EndsAt(c, i) ==> i < buf.Length
    modifies buf
    ensures forall i :: 0 <= i < buf.Length ==> buf[i] == if EndsAt(c, i) then NUL else old(buf[i])
    decreases c
  {
    match c
    case Exec(argv) =>
      var i := 0;
      while i < |argv|
        invariant 0 <= i <= |argv|
        invariant forall k :: 0 <= k < buf.Length ==>
                    buf[k] == if exists j :: 0 <= j < i && argv[j].eq == k then NUL else old(buf[k])
      {
        assert EndsAt(c, argv[i].eq);
        buf[argv[i].eq] := NUL;
        i := i + 1;
      }
    case Redir(c', file, mode) =>
      Inside(c, c', buf.Length);
      NulTerminate(c', buf);
      assert EndsAt(c, file.eq);
      buf[file.eq] := NUL;
    case Pipe(l, r) =>
      Inside(c, l, buf.Length);
      Inside(c, r, buf.Length);
      NulTerminate(l, buf);
      NulTerminate(r, buf);
    case List(l, r) =>
      Inside(c, l, buf.Length);
      Inside(c, r, buf.Length);
      NulTerminate(l, buf);
      NulTerminate(r, buf);
    case Back(c') =>
      Inside(c, c', buf.Length);
      NulTerminate(c', buf);
  }

  lemma Inside(c: Cmd<Word>, sub: Cmd<Word>, n: nat)
    requires forall i: nat :: EndsAt(c, i) ==> i < n
    requires match c case Exec(_) => false case Redir(c', _, _) => sub == c' case Pipe(l, r) => sub == l || sub == r
               case List(l, r) => sub == l || sub == r case Back(c') => sub == c'
    ensures forall i: nat :: EndsAt(sub, i) ==> i < n
  {
    forall i: nat | EndsAt(sub, i)
      ensures i < n
    {
      assert EndsAt(c, i);
    }
  }

  /** parsecmd on a buffer with a line and its NUL: the grammar's answer on the line; on success every word
      of the tree is a string in the buffer, on failure the buffer is as it was. */
  method ParseCmd(buf: array<char>, ghost n: nat) returns (out: Out)
    requires n < buf.Length && buf[n] == NUL && NoNul(buf[..n])
    modifies buf
    ensures NoNul(old(buf[..n]))
    ensures var r := Parse(old(buf[..n]));
            if r.Ok? then out.Good? && out.cmd == r.cmd && ReadBack(buf[..], out.cmd)
            else out == Bad(r.why) && buf[..] == old(buf[..])
  {
    hide Tokens;
    hide TokensOk;
    hide ParseLine;
    assert forall i :: 0 <= i < n ==> buf[..n][i] == buf[i];
    var es := 0;
    while buf[es] != NUL
      invariant 0 <= es <= n
      decreases n - es
    {
      es := es + 1;
    }
    var s := buf[..es];
    out := ParseLineAt(s, 0);
    if out.Bad? {
      return;
    }
    var any, at := Peek(s, out.ps, "");
    FirstChar(s, out.ps);
    AtEnd(s, out.ps);
    if at != |s| {
      return Bad(Leftovers);
    }
    forall i: nat | EndsAt(out.cmd, i)
      ensures i <= |s| && (i < |s| ==> !IsPlain(s[i]))
    {
      EndsApart(s, out.cmd, i);
    }
    NulTerminate(out.cmd, buf);
    TreeReadsBack(s, buf[..], out.cmd);
  }

  lemma AtEnd(s: string, i: nat)
    requires NoNul(s) && i <= |s|
    ensures Tokens(s, i) == [] <==> Skip(s, i) == |s|
  {
  }
}
