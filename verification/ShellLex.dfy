/** The tokens of a command line, as gettoken and peek of sh.c cut them.  The line is the text before its
    terminating NUL, so no character of it is NUL. */
module ShellLex {
  const NUL: char := 0 as char

  // A token of characters: where it starts, the position after its end, and what it says.
  datatype Word = Word(text: string, q: nat, eq: nat)

  // kind is the symbol, '+' for ">>", 'a' for a word.
  datatype Tok = Tok(kind: char, word: Word)

  predicate IsSpace(c: char) {
    c == ' ' || c == '\t' || c == '\r' || c == '\n' || c == 11 as char
  }

  predicate IsSymbol(c: char) {
    c in "<|>&;()"
  }

  predicate IsPlain(c: char) {
    !IsSpace(c) && !IsSymbol(c) && c != NUL
  }

  predicate NoNul(s: string) {
    forall i :: 0 <= i < |s| ==> s[i] != NUL
  }

  // First position from i on that is not white space.
  function Skip(s: string, i: nat): (r: nat)
    requires i <= |s|
    ensures i <= r <= |s| && (forall k :: i <= k < r ==> IsSpace(s[k])) && (r < |s| ==> !IsSpace(s[r]))
    decreases |s| - i
  {
    if i < |s| && IsSpace(s[i]) then Skip(s, i + 1) else i
  }

  // First position from i on that does not belong to a word.
  function WordEnd(s: string, i: nat): (r: nat)
    requires i <= |s|
    ensures i <= r <= |s| && (forall k :: i <= k < r ==> IsPlain(s[k])) && (r < |s| ==> !IsPlain(s[r]))
    decreases |s| - i
  {
    if i < |s| && IsPlain(s[i]) then WordEnd(s, i + 1) else i
  }

  // The token that starts at i, where there is neither white space nor the end.
  function Next(s: string, i: nat): (t: Tok)
    requires NoNul(s) && i < |s| && !IsSpace(s[i])
    ensures t.word.q == i < t.word.eq <= |s|
  {
    if IsSymbol(s[i]) then
      if s[i] == '>' && i + 1 < |s| && s[i + 1] == '>' then Tok('+', Word(s[i..i + 2], i, i + 2))
      else Tok(s[i], Word(s[i..i + 1], i, i + 1))
    else Tok('a', Word(s[i..WordEnd(s, i)], i, WordEnd(s, i)))
  }

  function Tokens(s: string, i: nat): (ts: seq<Tok>)
    requires NoNul(s) && i <= |s|
    ensures TokensOk(s, ts)
    decreases |s| - i
  {
    var j := Skip(s, i);
    if j == |s| then [] else
      var t := Next(s, j);
      [t] + Tokens(s, t.word.eq)
  }

  /** A word's characters are those between its ends, none of them a delimiter, and a delimiter or the end
      of the line follows. */
  predicate WordOk(s: string, w: Word) {
    && w.q < w.eq <= |s| && w.text == s[w.q..w.eq]
    && (forall k :: w.q <= k < w.eq ==> IsPlain(s[k]))
    && (w.eq < |s| ==> !IsPlain(s[w.eq]))
  }

  predicate TokensOk(s: string, ts: seq<Tok>) {
    forall i :: 0 <= i < |ts| && ts[i].kind == 'a' ==> WordOk(s, ts[i].word)
  }

  // ---------------------------------------------------------------- spelling tokens

  // A token without its place.
  datatype Sym = Sym(kind: char, text: string)

  function Plain(ts: seq<Tok>): (r: seq<Sym>)
    ensures |r| == |ts| && forall i :: 0 <= i < |ts| ==> r[i] == Sym(ts[i].kind, ts[i].word.text)
  {
    seq(|ts|, i requires 0 <= i < |ts| => Sym(ts[i].kind, ts[i].word.text))
  }

  predicate IsText(w: string) {
    w != [] && forall i :: 0 <= i < |w| ==> IsPlain(w[i])
  }

  predicate Spellable(t: Sym) {
    if t.kind == 'a' then IsText(t.text) else IsSymbol(t.kind) && t.text == [t.kind]
  }

  // Each token after one space.
  function Spell(ts: seq<Sym>): string {
    if ts == [] then "" else " " + ts[0].text + Spell(ts[1..])
  }

  lemma SkipSpace(s: string, i: nat)
    requires i + 1 < |s| && s[i] == ' ' && !IsSpace(s[i + 1])
    ensures Skip(s, i) == i + 1
  {
  }

  lemma WordEndIs(s: string, i: nat, j: nat)
    requires i <= j <= |s| && (forall k :: i <= k < j ==> IsPlain(s[k])) && (j < |s| ==> !IsPlain(s[j]))
    ensures WordEnd(s, i) == j
  {
  }

  lemma Pieces(s: string, i: nat, w: string, tail: string)
    requires i <= |s| && s[i..] == " " + w + tail
    ensures |s| == i + 1 + |w| + |tail| && s[i] == ' '
    ensures s[i + 1..i + 1 + |w|] == w && s[i + 1 + |w|..] == tail
    ensures forall k :: 0 <= k < |w| ==> s[i + 1 + k] == w[k]
    ensures tail != [] ==> s[i + 1 + |w|] == tail[0]
  {
    forall k | 0 <= k < |s| - i
      ensures s[i + k] == (" " + w + tail)[k]
    {
      assert s[i..][k] == s[i + k];
    }
  }

  // A spelled token is read back, up to where the next one starts.
  lemma NextSpelled(s: string, i: nat, t: Sym, tail: string)
    requires NoNul(s) && i <= |s| && s[i..] == " " + t.text + tail && Spellable(t) && (tail != [] ==> tail[0] == ' ')
    ensures Skip(s, i) == i + 1 < |s| && !IsSpace(s[i + 1])
    ensures Next(s, i + 1) == Tok(t.kind, Word(t.text, i + 1, i + 1 + |t.text|)) && s[i + 1 + |t.text|..] == tail
  {
    hide NoNul;
    hide Skip;
    hide WordEnd;
    var w := t.text;
    Pieces(s, i, w, tail);
    assert s[i + 1] == w[0];
    SkipSpace(s, i);
    if t.kind == 'a' {
      forall k | i + 1 <= k < i + 1 + |w|
        ensures IsPlain(s[k])
      {
        assert s[k] == w[k - i - 1];
      }
      WordEndIs(s, i + 1, i + 1 + |w|);
    }
  }

  lemma {:induction false} SpellNoNul(ts: seq<Sym>)
    requires forall i :: 0 <= i < |ts| ==> Spellable(ts[i])
    ensures NoNul(Spell(ts)) && (ts != [] ==> Spell(ts) != [] && Spell(ts)[0] == ' ')
  {
    if ts != [] {
      SpellNoNul(ts[1..]);
    }
  }

  lemma TokensCons(s: string, i: nat, j: nat)
    requires NoNul(s) && i <= |s| && j == Skip(s, i) < |s|
    ensures Plain(Tokens(s, i)) == [Sym(Next(s, j).kind, Next(s, j).word.text)] + Plain(Tokens(s, Next(s, j).word.eq))
  {
    hide Next;
    hide Skip;
    hide TokensOk;
    assert Tokens(s, i) == [Next(s, j)] + Tokens(s, Next(s, j).word.eq);
  }

  /** Reading back what was spelled gives the same tokens. */
  lemma {:induction false} LexSpell(s: string, i: nat, ts: seq<Sym>)
    requires NoNul(s) && i <= |s| && s[i..] == Spell(ts) && forall k :: 0 <= k < |ts| ==> Spellable(ts[k])
    ensures Plain(Tokens(s, i)) == ts
    decreases |ts|
  {
    hide TokensOk;
    hide Next;
    hide NoNul;
    hide Skip;
    hide Spellable;
    if ts == [] {
      assert i == |s|;
      assert Skip(s, i) == |s|;
      assert Tokens(s, i) == [];
    } else {
      SpellNoNul(ts[1..]);
      NextSpelled(s, i, ts[0], Spell(ts[1..]));
      LexSpell(s, i + 1 + |ts[0].text|, ts[1..]);
      TokensCons(s, i, i + 1);
    }
  }
}
