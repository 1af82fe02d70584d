/** The grammar of sh.c over tokens, and a printer for command trees that the grammar reads back. */
module ShellParse {
  import opened ShellLex

  const MAXARGS := 10

  datatype Mode = Read | Write

  datatype Cmd<W> =
    | Exec(argv: seq<W>)
    | Redir(cmd: Cmd<W>, file: W, mode: Mode)
    | Pipe(left: Cmd<W>, right: Cmd<W>)
    | List(left: Cmd<W>, right: Cmd<W>)
    | Back(cmd: Cmd<W>)

  datatype Failure = MissingFile | Syntax | MissingParen | TooManyArgs | Leftovers

  datatype Parsed = Ok(cmd: Cmd<Word>, rest: seq<Tok>) | Fail(why: Failure)

  datatype Arrow<W> = Arrow(file: W, mode: Mode)

  datatype Arrows = Got(arrows: seq<Arrow<Word>>, rest: seq<Tok>) | NoFile

  function Kind(ts: seq<Tok>): char {
    if ts == [] then NUL else ts[0].kind
  }

  predicate IsArrow(k: char) {
    k == '<' || k == '>' || k == '+'
  }

  // Where the words of a simple command end.
  predicate EndsExec(k: char) {
    k == NUL || k == '|' || k == ')' || k == '&' || k == ';'
  }

  // The redirections of a command, the last one outermost.
  function Wrap<W>(c: Cmd<W>, arrows: seq<Arrow<W>>): Cmd<W>
    decreases |arrows|
  {
    if arrows == [] then c else Wrap(Redir(c, arrows[0].file, arrows[0].mode), arrows[1..])
  }

  // Every word of a tree is a word of the line.
  predicate CmdOk(s: string, c: Cmd<Word>) {
    match c
    case Exec(argv) => forall i :: 0 <= i < |argv| ==> WordOk(s, argv[i])
    case Redir(c', file, mode) => CmdOk(s, c') && WordOk(s, file)
    case Pipe(l, r) => CmdOk(s, l) && CmdOk(s, r)
    case List(l, r) => CmdOk(s, l) && CmdOk(s, r)
    case Back(c') => CmdOk(s, c')
  }

  predicate ArrowsOk(s: string, arrows: seq<Arrow<Word>>) {
    forall i :: 0 <= i < |arrows| ==> WordOk(s, arrows[i].file)
  }

  lemma {:induction false} WrapOk(s: string, c: Cmd<Word>, arrows: seq<Arrow<Word>>)
    requires CmdOk(s, c) && ArrowsOk(s, arrows)
    ensures CmdOk(s, Wrap(c, arrows))
    decreases |arrows|
  {
    if arrows != [] {
      WrapOk(s, Redir(c, arrows[0].file, arrows[0].mode), arrows[1..]);
    }
  }

  ghost predicate ParsedOk(s: string, n: nat, r: Parsed) {
    r.Ok? ==> CmdOk(s, r.cmd) && TokensOk(s, r.rest) && |r.rest| <= n
  }

  // parseredirs
  function Redirs(s: string, ts: seq<Tok>): (r: Arrows)
    requires TokensOk(s, ts)
    ensures r.Got? ==> ArrowsOk(s, r.arrows) && TokensOk(s, r.rest) && |r.rest| <= |ts| && !IsArrow(Kind(r.rest))
    decreases |ts|
  {
    if !IsArrow(Kind(ts)) then Got([], ts)
    else if |ts| < 2 || ts[1].kind != 'a' then NoFile
    else
      var r := Redirs(s, ts[2..]);
      if r.NoFile? then NoFile
      else Got([Arrow(ts[1].word, if ts[0].kind == '<' then Read else Write)] + r.arrows, r.rest)
  }

  // parseexec without a block, with some words and redirections already read.
  function ExecRest(s: string, argv: seq<Word>, arrows: seq<Arrow<Word>>, ts: seq<Tok>): (r: Parsed)
    requires TokensOk(s, ts) && CmdOk(s, Exec(argv)) && ArrowsOk(s, arrows)
    ensures ParsedOk(s, |ts|, r)
    decreases |ts|
  {
    var a := Redirs(s, ts);
    if a.NoFile? then Fail(MissingFile)
    else if EndsExec(Kind(a.rest)) then
      WrapOk(s, Exec(argv), arrows + a.arrows);
      Ok(Wrap(Exec(argv), arrows + a.arrows), a.rest)
    else if Kind(a.rest) != 'a' then Fail(Syntax)
    else if |argv| + 1 >= MAXARGS then Fail(TooManyArgs)
    else ExecRest(s, argv + [a.rest[0].word], arrows + a.arrows, a.rest[1..])
  }

  function ParseBlock(s: string, ts: seq<Tok>): (r: Parsed)
    requires TokensOk(s, ts) && ts != []
    ensures ParsedOk(s, |ts|, r)
    decreases |ts|, 0
  {
    var r := ParseLine(s, ts[1..]);
    if r.Fail? then r
    else if Kind(r.rest) != ')' then Fail(MissingParen)
    else
      var a := Redirs(s, r.rest[1..]);
      if a.NoFile? then Fail(MissingFile)
      else
        WrapOk(s, r.cmd, a.arrows);
        Ok(Wrap(r.cmd, a.arrows), a.rest)
  }

  function ParseExec(s: string, ts: seq<Tok>): (r: Parsed)
    requires TokensOk(s, ts)
    ensures ParsedOk(s, |ts|, r)
    decreases |ts|, 1
  {
    if Kind(ts) == '(' then ParseBlock(s, ts) else ExecRest(s, [], [], ts)
  }

  function ParsePipe(s: string, ts: seq<Tok>): (r: Parsed)
    requires TokensOk(s, ts)
    ensures ParsedOk(s, |ts|, r)
    decreases |ts|, 2
  {
    var l := ParseExec(s, ts);
    if l.Fail? || Kind(l.rest) != '|' then l
    else
      var r := ParsePipe(s, l.rest[1..]);
      if r.Fail? then r else Ok(Pipe(l.cmd, r.cmd), r.rest)
  }

  // The loop over '&'.
  function Amps(s: string, c: Cmd<Word>, ts: seq<Tok>): (r: Parsed)
    requires TokensOk(s, ts) && CmdOk(s, c)
    ensures r.Ok? && ParsedOk(s, |ts|, r) && Kind(r.rest) != '&'
    decreases |ts|
  {
    if Kind(ts) == '&' then Amps(s, Back(c), ts[1..]) else Ok(c, ts)
  }

  function ParseLine(s: string, ts: seq<Tok>): (r: Parsed)
    requires TokensOk(s, ts)
    ensures ParsedOk(s, |ts|, r)
    decreases |ts|, 3
  {
    var p := ParsePipe(s, ts);
    if p.Fail? then p
    else
      var l := Amps(s, p.cmd, p.rest);
      if Kind(l.rest) != ';' then l
      else
        var r := ParseLine(s, l.rest[1..]);
        if r.Fail? then r else Ok(List(l.cmd, r.cmd), r.rest)
  }

  /** A line: one parseline, and nothing left over. */
  function Parse(s: string): (r: Parsed)
    requires NoNul(s)
    ensures r.Ok? ==> CmdOk(s, r.cmd)
  {
    var r := ParseLine(s, Tokens(s, 0));
    if r.Ok? && r.rest != [] then Fail(Leftovers) else r
  }

  // ---------------------------------------------------------------- printing

  // The tree without the places of its words.
  function Strip(c: Cmd<Word>): Cmd<string> {
    match c
    case Exec(argv) => Exec(Texts(argv))
    case Redir(c', file, mode) => Redir(Strip(c'), file.text, mode)
    case Pipe(l, r) => Pipe(Strip(l), Strip(r))
    case List(l, r) => List(Strip(l), Strip(r))
    case Back(c') => Back(Strip(c'))
  }

  function Texts(ws: seq<Word>): (r: seq<string>)
    ensures |r| == |ws| && forall i :: 0 <= i < |ws| ==> r[i] == ws[i].text
  {
    seq(|ws|, i requires 0 <= i < |ws| => ws[i].text)
  }

  function Files(arrows: seq<Arrow<Word>>): (r: seq<Arrow<string>>)
    ensures |r| == |arrows| && forall i :: 0 <= i < |arrows| ==> r[i] == Arrow(arrows[i].file.text, arrows[i].mode)
  {
    seq(|arrows|, i requires 0 <= i < |arrows| => Arrow(arrows[i].file.text, arrows[i].mode))
  }

  /** The trees that can be written: words of plain characters, at most nine to a command. */
  predicate Fits(c: Cmd<string>) {
    match c
    case Exec(argv) => |argv| < MAXARGS && forall i :: 0 <= i < |argv| ==> IsText(argv[i])
    case Redir(c', file, mode) => Fits(c') && IsText(file)
    case Pipe(l, r) => Fits(l) && Fits(r)
    case List(l, r) => Fits(l) && Fits(r)
    case Back(c') => Fits(c')
  }

  function Size<W>(c: Cmd<W>): nat {
    match c
    case Exec(argv) => 1
    case Redir(c', file, mode) => Size(c') + 1
    case Pipe(l, r) => Size(l) + Size(r) + 1
    case List(l, r) => Size(l) + Size(r) + 1
    case Back(c') => Size(c') + 1
  }

  // The command inside all redirections, and they.
  function Base(c: Cmd<string>): (b: Cmd<string>)
    ensures Size(b) <= Size(c) && !b.Redir? && (c.Redir? ==> Size(b) < Size(c))
    ensures (!c.Redir? ==> b == c) && (Fits(c) ==> Fits(b))
  {
    if c.Redir? then Base(c.cmd) else c
  }

  function ArrowsOf(c: Cmd<string>): (r: seq<Arrow<string>>)
    ensures Fits(c) ==> forall i :: 0 <= i < |r| ==> IsText(r[i].file)
  {
    if c.Redir? then ArrowsOf(c.cmd) + [Arrow(c.file, c.mode)] else []
  }

  // The command inside all '&', and how many.
  function Core(c: Cmd<string>): (b: Cmd<string>)
    ensures Size(b) <= Size(c) && !b.Back? && (c.Back? ==> Size(b) < Size(c))
    ensures (!c.Back? ==> b == c) && (Fits(c) ==> Fits(b))
  {
    if c.Back? then Core(c.cmd) else c
  }

  function Depth(c: Cmd<string>): nat {
    if c.Back? then Depth(c.cmd) + 1 else 0
  }

  function Backs<W>(c: Cmd<W>, n: nat): Cmd<W>
    decreases n
  {
    if n == 0 then c else Backs(Back(c), n - 1)
  }

  function Op(k: char): Sym {
    Sym(k, [k])
  }

  function ArgSyms(args: seq<string>, k: seq<Sym>): seq<Sym> {
    if args == [] then k else [Sym('a', args[0])] + ArgSyms(args[1..], k)
  }

  function ArrowSyms(arrows: seq<Arrow<string>>, k: seq<Sym>): seq<Sym> {
    if arrows == [] then k
    else [Op(if arrows[0].mode == Read then '<' else '>')] + ([Sym('a', arrows[0].file)] + ArrowSyms(arrows[1..], k))
  }

  function AmpSyms(n: nat, k: seq<Sym>): seq<Sym> {
    if n == 0 then k else [Op('&')] + AmpSyms(n - 1, k)
  }

  // Order in which the four levels of the grammar lead to each other for one tree.
  function Rank(c: Cmd<string>, level: nat): nat {
    (level + 4 - (if c.List? then 3 else if c.Back? then 2 else if c.Pipe? then 1 else 0)) % 4
  }

  // The tokens of a tree followed by k, at each level of the grammar: parentheses go where the tree needs
  // them.
  function SymsE(c: Cmd<string>, k: seq<Sym>): seq<Sym>
    decreases Size(c), Rank(c, 0)
  {
    var b := Base(c);
    var k' := ArrowSyms(ArrowsOf(c), k);
    if b.Exec? then ArgSyms(b.argv, k') else [Op('(')] + SymsL(b, [Op(')')] + k')
  }

  function SymsP(c: Cmd<string>, k: seq<Sym>): seq<Sym>
    decreases Size(c), Rank(c, 1)
  {
    if c.Pipe? then SymsE(c.left, [Op('|')] + SymsP(c.right, k)) else SymsE(c, k)
  }

  function SymsB(c: Cmd<string>, k: seq<Sym>): seq<Sym>
    decreases Size(c), Rank(c, 2)
  {
    SymsP(Core(c), AmpSyms(Depth(c), k))
  }

  function SymsL(c: Cmd<string>, k: seq<Sym>): seq<Sym>
    decreases Size(c), Rank(c, 3)
  {
    if c.List? then SymsB(c.left, [Op(';')] + SymsL(c.right, k)) else SymsB(c, k)
  }

  function Print(c: Cmd<string>): string {
    Spell(SymsL(c, []))
  }

  predicate AllSpellable(ts: seq<Sym>) {
    forall i :: 0 <= i < |ts| ==> Spellable(ts[i])
  }

  lemma {:induction false} ArgSpellable(args: seq<string>, k: seq<Sym>)
    requires AllSpellable(k) && forall i :: 0 <= i < |args| ==> IsText(args[i])
    ensures AllSpellable(ArgSyms(args, k))
  {
    if args != [] {
      ArgSpellable(args[1..], k);
    }
  }

  lemma {:induction false} ArrowSpellable(arrows: seq<Arrow<string>>, k: seq<Sym>)
    requires AllSpellable(k) && forall i :: 0 <= i < |arrows| ==> IsText(arrows[i].file)
    ensures AllSpellable(ArrowSyms(arrows, k))
  {
    if arrows != [] {
      ArrowSpellable(arrows[1..], k);
    }
  }

  lemma {:induction false} AmpSpellable(n: nat, k: seq<Sym>)
    requires AllSpellable(k)
    ensures AllSpellable(AmpSyms(n, k))
  {
    if n > 0 {
      AmpSpellable(n - 1, k);
    }
  }

  lemma {:induction false} SpellableE(c: Cmd<string>, k: seq<Sym>)
    requires Fits(c) && AllSpellable(k)
    ensures AllSpellable(SymsE(c, k))
    decreases Size(c), Rank(c, 0)
  {
    var b := Base(c);
    ArrowSpellable(ArrowsOf(c), k);
    var k' := ArrowSyms(ArrowsOf(c), k);
    if b.Exec? {
      ArgSpellable(b.argv, k');
    } else {
      SpellableL(b, [Op(')')] + k');
    }
  }

  lemma {:induction false} SpellableP(c: Cmd<string>, k: seq<Sym>)
    requires Fits(c) && AllSpellable(k)
    ensures AllSpellable(SymsP(c, k))
    decreases Size(c), Rank(c, 1)
  {
    if c.Pipe? {
      SpellableP(c.right, k);
      SpellableE(c.left, [Op('|')] + SymsP(c.right, k));
    } else {
      SpellableE(c, k);
    }
  }

  lemma {:induction false} SpellableB(c: Cmd<string>, k: seq<Sym>)
    requires Fits(c) && AllSpellable(k)
    ensures AllSpellable(SymsB(c, k))
    decreases Size(c), Rank(c, 2)
  {
    AmpSpellable(Depth(c), k);
    SpellableP(Core(c), AmpSyms(Depth(c), k));
  }

  lemma {:induction false} SpellableL(c: Cmd<string>, k: seq<Sym>)
    requires Fits(c) && AllSpellable(k)
    ensures AllSpellable(SymsL(c, k))
    decreases Size(c), Rank(c, 3)
  {
    if c.List? {
      SpellableL(c.right, k);
      SpellableB(c.left, [Op(';')] + SymsL(c.right, k));
    } else {
      SpellableB(c, k);
    }
  }
}
