/** Printing a command tree and parsing the text gives the tree back. */
module ShellPrint {
  import opened ShellLex
  import opened ShellParse

  lemma Peel(ts: seq<Tok>, x: Sym, tail: seq<Sym>)
    requires Plain(ts) == [x] + tail
    ensures ts != [] && ts[0].kind == x.kind && ts[0].word.text == x.text && Plain(ts[1..]) == tail
  {
    assert Plain(ts)[0] == x;
    assert forall i :: 0 <= i < |tail| ==> Plain(ts)[i + 1] == tail[i];
  }

  // What comes next is nothing, or a token that ends the construct.
  predicate Stops(k: seq<Sym>, level: nat) {
    k == [] || match level
      case 0 => EndsExec(k[0].kind)
      case 1 => k[0].kind == ')' || k[0].kind == '&' || k[0].kind == ';'
      case _ => k[0].kind == ')'
  }

  ghost predicate Reads(r: Parsed, c: Cmd<string>, k: seq<Sym>) {
    r.Ok? && Strip(r.cmd) == c && Plain(r.rest) == k
  }

  lemma KindOf(ts: seq<Tok>, k: seq<Sym>)
    requires Plain(ts) == k
    ensures Kind(ts) == if k == [] then NUL else k[0].kind
  {
  }

  // ---------------------------------------------------------------- redirections and '&'

  lemma {:induction false} WrapSnoc<W>(c: Cmd<W>, arrows: seq<Arrow<W>>, a: Arrow<W>)
    ensures Wrap(c, arrows + [a]) == Redir(Wrap(c, arrows), a.file, a.mode)
    decreases |arrows|
  {
    if arrows == [] {
      assert [a][1..] == [];
      assert arrows + [a] == [a];
    } else {
      assert (arrows + [a])[1..] == arrows[1..] + [a];
      WrapSnoc(Redir(c, arrows[0].file, arrows[0].mode), arrows[1..], a);
    }
  }

  lemma {:induction false} BaseWrap(c: Cmd<string>)
    ensures Wrap(Base(c), ArrowsOf(c)) == c
  {
    if c.Redir? {
      BaseWrap(c.cmd);
      WrapSnoc(Base(c.cmd), ArrowsOf(c.cmd), Arrow(c.file, c.mode));
    }
  }

  lemma {:induction false} StripWrap(c: Cmd<Word>, arrows: seq<Arrow<Word>>)
    ensures Strip(Wrap(c, arrows)) == Wrap(Strip(c), Files(arrows))
    decreases |arrows|
  {
    if arrows != [] {
      assert Files(arrows)[1..] == Files(arrows[1..]);
      StripWrap(Redir(c, arrows[0].file, arrows[0].mode), arrows[1..]);
    }
  }

  lemma {:induction false} CoreBacks(c: Cmd<string>)
    ensures Backs(Core(c), Depth(c)) == c
  {
    if c.Back? {
      CoreBacks(c.cmd);
      BacksOuter(Core(c), Depth(c.cmd));
    }
  }

  lemma {:induction false} BacksOuter<W>(c: Cmd<W>, n: nat)
    ensures Backs(c, n + 1) == Back(Backs(c, n))
    decreases n
  {
    if n > 0 {
      BacksOuter(Back(c), n - 1);
    }
  }

  lemma {:induction false} RedirsReads(s: string, arrows: seq<Arrow<string>>, ts: seq<Tok>, k: seq<Sym>)
    requires TokensOk(s, ts) && Plain(ts) == ArrowSyms(arrows, k) && (k == [] || !IsArrow(k[0].kind))
    ensures var r := Redirs(s, ts); r.Got? && Files(r.arrows) == arrows && Plain(r.rest) == k
    decreases |arrows|
  {
    hide TokensOk;
    hide WordOk;
    KindOf(ts, ArrowSyms(arrows, k));
    if arrows != [] {
      var tail := [Sym('a', arrows[0].file)] + ArrowSyms(arrows[1..], k);
      Peel(ts, Op(if arrows[0].mode == Read then '<' else '>'), tail);
      Peel(ts[1..], tail[0], ArrowSyms(arrows[1..], k));
      assert ts[1..][1..] == ts[2..];
      TokensDrop(s, ts, 2);
      RedirsReads(s, arrows[1..], ts[2..], k);
    }
  }

  lemma TokensDrop(s: string, ts: seq<Tok>, n: nat)
    requires TokensOk(s, ts) && n <= |ts|
    ensures TokensOk(s, ts[n..])
    ensures n > 0 && ts[0].kind == 'a' ==> WordOk(s, ts[0].word)
  {
  }

  lemma {:induction false} AmpsReads(s: string, c: Cmd<Word>, n: nat, ts: seq<Tok>, k: seq<Sym>)
    requires TokensOk(s, ts) && CmdOk(s, c) && Plain(ts) == AmpSyms(n, k) && (k == [] || k[0].kind != '&')
    ensures Reads(Amps(s, c, ts), Backs(Strip(c), n), k)
    decreases n
  {
    hide TokensOk;
    KindOf(ts, AmpSyms(n, k));
    if n > 0 {
      Peel(ts, Op('&'), AmpSyms(n - 1, k));
      TokensDrop(s, ts, 1);
      AmpsReads(s, Back(c), n - 1, ts[1..], k);
    }
  }

  lemma NoArrow(s: string, ts: seq<Tok>)
    requires TokensOk(s, ts) && !IsArrow(Kind(ts))
    ensures Redirs(s, ts) == Got([], ts)
  {
  }

  // ---------------------------------------------------------------- simple commands

  lemma {:induction false} ExecReads(s: string, argv: seq<Word>, args: seq<string>, arrows: seq<Arrow<string>>,
          ts: seq<Tok>, k: seq<Sym>)
    requires TokensOk(s, ts) && CmdOk(s, Exec(argv)) && Plain(ts) == ArgSyms(args, ArrowSyms(arrows, k))
    requires Stops(k, 0) && |argv| + |args| < MAXARGS
    ensures Reads(ExecRest(s, argv, [], ts), Wrap(Exec(Texts(argv) + args), arrows), k)
    decreases |args|
  {
    hide ArrowSyms;
    hide Redirs;
    hide TokensOk;
    hide WordOk;
    hide Wrap;
    if args == [] {
      RedirsReads(s, arrows, ts, k);
      var a := Redirs(s, ts);
      KindOf(a.rest, k);
      assert [] + a.arrows == a.arrows;
      StripWrap(Exec(argv), a.arrows);
      assert Texts(argv) + args == Texts(argv);
    } else {
      KindOf(ts, ArgSyms(args, ArrowSyms(arrows, k)));
      Peel(ts, Sym('a', args[0]), ArgSyms(args[1..], ArrowSyms(arrows, k)));
      TokensDrop(s, ts, 1);
      var w := ts[0].word;
      assert Texts(argv + [w]) == Texts(argv) + [args[0]];
      assert Texts(argv + [w]) + args[1..] == Texts(argv) + args;
      ExecReads(s, argv + [w], args[1..], arrows, ts[1..], k);
      NoArrow(s, ts);
      var none: seq<Arrow<Word>> := [];
      assert none + none == none;
    }
  }

  // ---------------------------------------------------------------- the levels of the grammar

  lemma {:induction false} ReadsE(s: string, c: Cmd<string>, ts: seq<Tok>, k: seq<Sym>)
    requires TokensOk(s, ts) && Fits(c) && Plain(ts) == SymsE(c, k) && Stops(k, 0)
    ensures Reads(ParseExec(s, ts), c, k)
    decreases Size(c), Rank(c, 0)
  {
    hide TokensOk;
    hide ExecRest;
    hide Redirs;
    hide Fits;
    var b, arrows := Base(c), ArrowsOf(c);
    BaseWrap(c);
    if b.Exec? {
      FitsExec(b);
      NotBlock(ts, b.argv, arrows, k);
      assert [] + b.argv == b.argv;
      ExecReads(s, [], b.argv, arrows, ts, k);
    } else {
      var k' := ArrowSyms(arrows, k);
      Peel(ts, Op('('), SymsL(b, [Op(')')] + k'));
      TokensDrop(s, ts, 1);
      ReadsL(s, b, ts[1..], [Op(')')] + k');
      BlockReads(s, c, ts, k);
    }
  }

  lemma FitsExec(b: Cmd<string>)
    requires Fits(b) && b.Exec?
    ensures |b.argv| < MAXARGS
  {
  }

  lemma NotBlock(ts: seq<Tok>, args: seq<string>, arrows: seq<Arrow<string>>, k: seq<Sym>)
    requires Plain(ts) == ArgSyms(args, ArrowSyms(arrows, k)) && Stops(k, 0)
    ensures Kind(ts) != '('
  {
    KindOf(ts, ArgSyms(args, ArrowSyms(arrows, k)));
  }

  // The rest of a block, once the line in it has been read.
  lemma BlockReads(s: string, c: Cmd<string>, ts: seq<Tok>, k: seq<Sym>)
    requires TokensOk(s, ts) && ts != [] && Kind(ts) == '(' && Stops(k, 0)
    requires Reads(ParseLine(s, ts[1..]), Base(c), [Op(')')] + ArrowSyms(ArrowsOf(c), k))
    ensures Reads(ParseExec(s, ts), c, k)
  {
    hide TokensOk;
    hide ParseLine;
    hide Redirs;
    hide Wrap;
    TokensDrop(s, ts, 1);
    var r := ParseLine(s, ts[1..]);
    Peel(r.rest, Op(')'), ArrowSyms(ArrowsOf(c), k));
    TokensDrop(s, r.rest, 1);
    RedirsReads(s, ArrowsOf(c), r.rest[1..], k);
    StripWrap(r.cmd, Redirs(s, r.rest[1..]).arrows);
    BaseWrap(c);
  }

  lemma {:induction false} ReadsP(s: string, c: Cmd<string>, ts: seq<Tok>, k: seq<Sym>)
    requires TokensOk(s, ts) && Fits(c) && Plain(ts) == SymsP(c, k) && Stops(k, 1)
    ensures Reads(ParsePipe(s, ts), c, k)
    decreases Size(c), Rank(c, 1)
  {
    hide TokensOk;
    hide ParseExec;
    hide SymsE;
    if c.Pipe? {
      var k' := [Op('|')] + SymsP(c.right, k);
      ReadsE(s, c.left, ts, k');
      var l := ParseExec(s, ts);
      Peel(l.rest, Op('|'), SymsP(c.right, k));
      TokensDrop(s, l.rest, 1);
      ReadsP(s, c.right, l.rest[1..], k);
    } else {
      ReadsE(s, c, ts, k);
      KindOf(ParseExec(s, ts).rest, k);
    }
  }

  // parsepipe and the '&' loop.
  lemma {:induction false} ReadsB(s: string, c: Cmd<string>, ts: seq<Tok>, k: seq<Sym>)
    requires TokensOk(s, ts) && Fits(c) && Plain(ts) == SymsB(c, k) && (k == [] || k[0].kind == ')' || k[0].kind == ';')
    ensures var p := ParsePipe(s, ts); p.Ok? && Reads(Amps(s, p.cmd, p.rest), c, k)
    decreases Size(c), Rank(c, 2)
  {
    hide TokensOk;
    hide ParsePipe;
    hide SymsP;
    var k' := AmpSyms(Depth(c), k);
    ReadsP(s, Core(c), ts, k');
    var p := ParsePipe(s, ts);
    AmpsReads(s, p.cmd, Depth(c), p.rest, k);
    CoreBacks(c);
  }

  lemma {:induction false} ReadsL(s: string, c: Cmd<string>, ts: seq<Tok>, k: seq<Sym>)
    requires TokensOk(s, ts) && Fits(c) && Plain(ts) == SymsL(c, k) && Stops(k, 2)
    ensures Reads(ParseLine(s, ts), c, k)
    decreases Size(c), Rank(c, 3)
  {
    hide TokensOk;
    hide ParsePipe;
    hide Amps;
    hide SymsB;
    if c.List? {
      var k' := [Op(';')] + SymsL(c.right, k);
      ReadsB(s, c.left, ts, k');
      var p := ParsePipe(s, ts);
      var l := Amps(s, p.cmd, p.rest);
      Peel(l.rest, Op(';'), SymsL(c.right, k));
      TokensDrop(s, l.rest, 1);
      ReadsL(s, c.right, l.rest[1..], k);
    } else {
      ReadsB(s, c, ts, k);
      var p := ParsePipe(s, ts);
      KindOf(Amps(s, p.cmd, p.rest).rest, k);
    }
  }

  /** Parsing the printed form of a tree gives the tree. */
  lemma PrintParse(c: Cmd<string>)
    requires Fits(c)
    ensures NoNul(Print(c)) && Parse(Print(c)).Ok? && Strip(Parse(Print(c)).cmd) == c
  {
    hide ParseLine;
    hide Tokens;
    hide Fits;
    var s, syms := Print(c), SymsL(c, []);
    SpellableL(c, []);
    SpellNoNul(syms);
    assert s[0..] == s;
    LexSpell(s, 0, syms);
    ReadsL(s, c, Tokens(s, 0), []);
    assert |Plain(ParseLine(s, Tokens(s, 0)).rest)| == 0;
  }
}
