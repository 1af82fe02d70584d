/** The matcher of grep.c against a meaning of patterns that does not mention how they are matched: a pattern
    is a sequence of items, and a string is in its language if it can be cut into one part for each item.
    Strings are the characters before the terminating NUL. */
module Grep {
  // One character, or any number of them; '.' stands for any character.
  datatype Item = One(c: char) | Many(c: char)

  // atEnd: the pattern ends in '$'.
  datatype Pattern = Pattern(items: seq<Item>, atEnd: bool)

  // How the source reads a pattern: a character followed by '*', a '$' at the very end, anything else.
  function Compile(re: string): Pattern {
    if re == [] then Pattern([], false)
    else if |re| >= 2 && re[1] == '*' then
      var p := Compile(re[2..]);
      Pattern([Many(re[0])] + p.items, p.atEnd)
    else if re == "$" then Pattern([], true)
    else
      var p := Compile(re[1..]);
      Pattern([One(re[0])] + p.items, p.atEnd)
  }

  predicate Fits(c: char, x: char) {
    c == '.' || c == x
  }

  predicate PartOk(item: Item, part: string) {
    match item
    case One(c) => |part| == 1 && Fits(c, part[0])
    case Many(c) => forall i :: 0 <= i < |part| ==> Fits(c, part[i])
  }

  function Join(parts: seq<string>): string {
    if parts == [] then "" else parts[0] + Join(parts[1..])
  }

  ghost predicate Cut(items: seq<Item>, parts: seq<string>, w: string) {
    |parts| == |items| && Join(parts) == w && forall i :: 0 <= i < |items| ==> PartOk(items[i], parts[i])
  }

  /** The language of a sequence of items. */
  ghost predicate InLanguage(items: seq<Item>, w: string) {
    exists parts :: Cut(items, parts, w)
  }

  // The first n characters are in the language, and they are all of the text if the pattern says so.
  ghost predicate Takes(p: Pattern, text: string, n: nat) {
    n <= |text| && InLanguage(p.items, text[..n]) && (p.atEnd ==> n == |text|)
  }

  /** A prefix of the text is in the language of the pattern. */
  ghost predicate PrefixMatches(p: Pattern, text: string) {
    exists n: nat :: Takes(p, text, n)
  }

  /** A substring of the text, or with '^' a prefix, is in the language. */
  ghost predicate TextMatches(re: string, text: string) {
    if re != [] && re[0] == '^' then PrefixMatches(Compile(re[1..]), text)
    else exists i :: 0 <= i <= |text| && PrefixMatches(Compile(re), text[i..])
  }

  // ---------------------------------------------------------------- the first item

  lemma NoItems(text: string)
    ensures PrefixMatches(Pattern([], false), text)
    ensures PrefixMatches(Pattern([], true), text) <==> text == []
  {
    assert Cut([], [], "") && text[..0] == "";
    assert Takes(Pattern([], false), text, 0);
    forall n: nat | Takes(Pattern([], true), text, n)
      ensures text == []
    {
      var parts :| Cut([], parts, text[..n]);
      assert text[..n] == text;
    }
    if text == [] {
      assert Takes(Pattern([], true), text, 0);
    }
  }

  // A part for the first item, and the rest of the pattern after it.
  lemma Before(item: Item, p: Pattern, text: string, k: nat)
    requires k <= |text| && PartOk(item, text[..k]) && PrefixMatches(p, text[k..])
    ensures PrefixMatches(Pattern([item] + p.items, p.atEnd), text)
  {
    hide PartOk;
    var n: nat :| Takes(p, text[k..], n);
    var parts :| Cut(p.items, parts, text[k..][..n]);
    assert text[..k + n] == text[..k] + text[k..][..n];
    assert Cut([item] + p.items, [text[..k]] + parts, text[..k + n]);
    assert Takes(Pattern([item] + p.items, p.atEnd), text, k + n);
  }

  lemma After(item: Item, p: Pattern, text: string) returns (k: nat)
    requires PrefixMatches(Pattern([item] + p.items, p.atEnd), text)
    ensures k <= |text| && PartOk(item, text[..k]) && PrefixMatches(p, text[k..])
  {
    hide PartOk;
    var whole := Pattern([item] + p.items, p.atEnd);
    var n: nat :| Takes(whole, text, n);
    var parts :| Cut(whole.items, parts, text[..n]);
    k := |parts[0]|;
    assert text[..n] == parts[0] + Join(parts[1..]);
    assert text[..k] == text[..n][..k] == parts[0];
    assert text[k..][..n - k] == text[..n][k..] == Join(parts[1..]);
    assert forall i :: 0 <= i < |p.items| ==> p.items[i] == whole.items[i + 1];
    assert Cut(p.items, parts[1..], text[k..][..n - k]);
    assert Takes(p, text[k..], n - k);
  }

  lemma FirstOne(c: char, p: Pattern, text: string)
    ensures PrefixMatches(Pattern([One(c)] + p.items, p.atEnd), text)
       <==> text != [] && Fits(c, text[0]) && PrefixMatches(p, text[1..])
  {
    hide PrefixMatches;
    if text != [] && Fits(c, text[0]) && PrefixMatches(p, text[1..]) {
      Before(One(c), p, text, 1);
    }
    if PrefixMatches(Pattern([One(c)] + p.items, p.atEnd), text) {
      var k := After(One(c), p, text);
    }
  }

  lemma FirstMany(c: char, p: Pattern, text: string)
    ensures PrefixMatches(Pattern([Many(c)] + p.items, p.atEnd), text)
       <==> exists k :: 0 <= k <= |text| && PartOk(Many(c), text[..k]) && PrefixMatches(p, text[k..])
  {
    hide PrefixMatches;
    hide PartOk;
    if k :| 0 <= k <= |text| && PartOk(Many(c), text[..k]) && PrefixMatches(p, text[k..]) {
      Before(Many(c), p, text, k);
    }
    if PrefixMatches(Pattern([Many(c)] + p.items, p.atEnd), text) {
      var k := After(Many(c), p, text);
    }
  }

  // ---------------------------------------------------------------- the matcher as it runs

  /** matchhere */
  method MatchHere(re: string, text: string) returns (yes: bool)
    ensures yes <==> PrefixMatches(Compile(re), text)
    decreases |re|, 0
  {
    hide PrefixMatches;
    if |re| == 0 {
      NoItems(text);
      return true;
    }
    if |re| >= 2 && re[1] == '*' {
      yes := MatchStar(re[0], re[2..], text);
      return;
    }
    if re[0] == '$' && |re| == 1 {
      NoItems(text);
      return text == [];
    }
    FirstOne(re[0], Compile(re[1..]), text);
    if text != [] && (re[0] == '.' || re[0] == text[0]) {
      yes := MatchHere(re[1..], text[1..]);
      return;
    }
    yes := false;
  }

  /** matchstar */
  method MatchStar(c: char, re: string, text: string) returns (yes: bool)
    ensures yes <==> PrefixMatches(Pattern([Many(c)] + Compile(re).items, Compile(re).atEnd), text)
    decreases |re|, 1
  {
    hide PrefixMatches;
    hide Compile;
    FirstMany(c, Compile(re), text);
    var k := 0;
    while true
      invariant 0 <= k <= |text| && PartOk(Many(c), text[..k])
      invariant forall j :: 0 <= j < k ==> !PrefixMatches(Compile(re), text[j..])
      decreases |text| - k
    {
      var here := MatchHere(re, text[k..]);
      if here {
        return true;
      }
      if k == |text| || !(text[k] == c || c == '.') {
        NoLonger(c, text, k);
        return false;
      }
      k := k + 1;
    }
    yes := false;
  }

  // Once a character does not fit, no longer part does.
  lemma NoLonger(c: char, text: string, k: nat)
    requires k <= |text| && (k < |text| ==> !Fits(c, text[k]))
    ensures forall j :: k < j <= |text| ==> !PartOk(Many(c), text[..j])
  {
    forall j | k < j <= |text|
      ensures !PartOk(Many(c), text[..j])
    {
      assert text[..j][k] == text[k];
    }
  }

  /** match: yes exactly if a substring of the text (a prefix, after '^') is in the language. */
  method Match(re: string, text: string) returns (yes: bool)
    ensures yes <==> TextMatches(re, text)
  {
    hide PrefixMatches;
    hide Compile;
    if re != [] && re[0] == '^' {
      yes := MatchHere(re[1..], text);
      return;
    }
    var i := 0;
    while true
      invariant 0 <= i <= |text| && forall j :: 0 <= j < i ==> !PrefixMatches(Compile(re), text[j..])
      decreases |text| - i
    {
      var here := MatchHere(re, text[i..]);
      if here {
        return true;
      }
      if i == |text| {
        return false;
      }
      i := i + 1;
    }
    yes := false;
  }
}
