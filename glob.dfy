/** Whole-string shell-style matching as Python 2's `fnmatch.fnmatch` does it
    on POSIX: the pattern is translated into a sequence of tokens (Python
    translates it into a regular expression with `.` matching every
    character), and the name must match the tokens from its first character
    to its last. Matching is case-sensitive, `*` and `?` also match `/`.
    Names are sequences of characters, where Python 2 matches byte strings
    one byte at a time: the two agree on ASCII names. */
module Glob {

  /** One unit of a translated pattern. */
  datatype Token =
    | Literal(c: char)                          // an ordinary character, matched exactly
    | AnyChar                                   // `?`
    | AnyString                                 // `*`
    | CharSet(negated: bool, items: string)     // `[...]` or `[!...]`

  /** Membership in the items of a bracket expression, read left to right:
      `x-y` is the range from x to y when a character follows the dash,
      anything else stands for itself. */
  predicate InItems(c: char, items: string)
    decreases |items|
  {
    if items == [] then false
    else if |items| >= 3 && items[1] == '-' then
      (items[0] <= c <= items[2]) || InItems(c, items[3..])
    else
      c == items[0] || InItems(c, items[1..])
  }

  /** Whether a single-character token accepts the character `c`. */
  predicate Accepts(t: Token, c: char)
    requires !t.AnyString?
  {
    match t
    case Literal(l) => c == l
    case AnyChar => true
    case CharSet(neg, items) => InItems(c, items) != neg
  }

  /** Index of the first `]` at or after `j`, or `|pat|` if there is none. */
  function FirstClose(pat: string, j: nat): (k: nat)
    requires j <= |pat|
    ensures j <= k <= |pat|
    ensures k < |pat| ==> pat[k] == ']'
    ensures forall i :: j <= i < k ==> pat[i] != ']'
    decreases |pat| - j
  {
    if j == |pat| || pat[j] == ']' then j else FirstClose(pat, j + 1)
  }

  /** Where the bracket expression opened by `pat[0] == '['` closes: a `!`
      right after the bracket, and then a `]` right after that, belong to
      the set; the set ends at the next `]`. `|pat|` means unclosed. */
  function SetEnd(pat: string): (k: nat)
    requires |pat| > 0 && pat[0] == '['
    ensures 1 <= k <= |pat|
    ensures k < |pat| ==> pat[k] == ']'
  {
    var i := if 1 < |pat| && pat[1] == '!' then 2 else 1;
    var j := if i < |pat| && pat[i] == ']' then i + 1 else i;
    FirstClose(pat, j)
  }

  /** The token for the text between the brackets; a leading `!` negates. */
  function SetToken(stuff: string): Token
  {
    if |stuff| > 0 && stuff[0] == '!' then CharSet(true, stuff[1..]) else CharSet(false, stuff)
  }

  /** `fnmatch.translate`: `*`, `?`, a closed bracket expression, and every
      other character (an unclosed `[` included) as a literal. */
  function Translate(pat: string): seq<Token>
    decreases |pat|
  {
    if pat == [] then []
    else if pat[0] == '*' then [AnyString] + Translate(pat[1..])
    else if pat[0] == '?' then [AnyChar] + Translate(pat[1..])
    else if pat[0] == '[' then
      var k := SetEnd(pat);
      if k == |pat| then [Literal('[')] + Translate(pat[1..])
      else [SetToken(pat[1..k])] + Translate(pat[k + 1..])
    else [Literal(pat[0])] + Translate(pat[1..])
  }

  /** Reference meaning of a token sequence: `*` consumes some prefix of the
      name (possibly empty), every other token exactly one character. */
  ghost predicate Matches(toks: seq<Token>, s: string)
    decreases |toks|
  {
    if toks == [] then s == []
    else if toks[0].AnyString? then exists k :: 0 <= k <= |s| && Matches(toks[1..], s[k..])
    else |s| > 0 && Accepts(toks[0], s[0]) && Matches(toks[1..], s[1..])
  }

  /** Backtracking matcher: `*` either stops here or swallows one more
      character. */
  predicate MatchTokens(toks: seq<Token>, s: string)
    decreases |s|, |toks|
  {
    if toks == [] then s == []
    else if toks[0].AnyString? then MatchTokens(toks[1..], s) || (|s| > 0 && MatchTokens(toks, s[1..]))
    else |s| > 0 && Accepts(toks[0], s[0]) && MatchTokens(toks[1..], s[1..])
  }

  /** `fnmatch.fnmatch(name, pat)` on POSIX (no case folding). */
  function Fnmatch(name: string, pat: string): (r: bool)
    ensures r <==> Matches(Translate(pat), name)
  {
    MatchTokensAgrees(Translate(pat), name);
    MatchTokens(Translate(pat), name)
  }

  /** A leading `*` either matches nothing or swallows the first character. */
  lemma StarUnfold(toks: seq<Token>, s: string)
    requires toks != [] && toks[0].AnyString?
    ensures Matches(toks, s) <==> Matches(toks[1..], s) || (|s| > 0 && Matches(toks, s[1..]))
  {
    if Matches(toks, s) {
      var k :| 0 <= k <= |s| && Matches(toks[1..], s[k..]);
      if k > 0 {
        assert s[1..][k - 1..] == s[k..];
      }
    }
    if |s| > 0 && Matches(toks, s[1..]) {
      var k :| 0 <= k <= |s| - 1 && Matches(toks[1..], s[1..][k..]);
      assert s[1..][k..] == s[k + 1..];
    }
    if Matches(toks[1..], s) {
      assert s[0..] == s;
    }
  }

  /** The backtracking matcher computes exactly the reference meaning. */
  lemma {:induction false} MatchTokensAgrees(toks: seq<Token>, s: string)
    ensures MatchTokens(toks, s) == Matches(toks, s)
    decreases |s|, |toks|
  {
    if toks == [] {
    } else if toks[0].AnyString? {
      MatchTokensAgrees(toks[1..], s);
      if |s| > 0 {
        MatchTokensAgrees(toks, s[1..]);
      }
      StarUnfold(toks, s);
    } else if |s| > 0 {
      MatchTokensAgrees(toks[1..], s[1..]);
    }
  }

  /** Appending a character other than `]` cannot close a bracket that was
      open; an already closed bracket keeps its place. */
  lemma {:induction false} FirstCloseSnoc(p: string, c: char, j: nat)
    requires j <= |p| && c != ']'
    ensures FirstClose(p + [c], j) == if FirstClose(p, j) < |p| then FirstClose(p, j) else |p| + 1
    decreases |p| - j
  {
    var q := p + [c];
    if j == |p| {
      assert q[j] == c;
      assert FirstClose(q, j + 1) == j + 1;
    } else {
      assert q[j] == p[j];
      if p[j] != ']' {
        FirstCloseSnoc(p, c, j + 1);
      }
    }
  }

  lemma SetEndSnoc(p: string, c: char)
    requires |p| > 0 && p[0] == '[' && c != ']'
    ensures SetEnd(p + [c]) == if SetEnd(p) < |p| then SetEnd(p) else |p| + 1
  {
    var q := p + [c];
    var i := if 1 < |p| && p[1] == '!' then 2 else 1;
    var j := if i < |p| && p[i] == ']' then i + 1 else i;
    var iq := if 1 < |q| && q[1] == '!' then 2 else 1;
    var jq := if iq < |q| && q[iq] == ']' then iq + 1 else iq;
    if |p| == 1 && c == '!' {
      assert iq == 2 && jq == 2 && j == 1;
      assert FirstClose(q, 2) == 2;
      assert FirstClose(p, 1) == 1;
    } else {
      assert iq == i;
      assert jq == j;
      FirstCloseSnoc(p, c, j);
    }
  }

  /** A trailing character that is not `*`, `?` or `]` is translated into a
      trailing literal. */
  lemma {:induction false} TranslateSnoc(p: string, c: char)
    requires c != '*' && c != '?' && c != ']'
    ensures Translate(p + [c]) == Translate(p) + [Literal(c)]
    decreases |p|
  {
    var q := p + [c];
    if p == [] {
      assert q == [c];
      if c == '[' {
        assert SetEnd(q) == 1;
      }
      assert q[1..] == [];
    } else if p[0] == '*' || p[0] == '?' || p[0] != '[' {
      assert q[1..] == p[1..] + [c];
      TranslateSnoc(p[1..], c);
    } else {
      SetEndSnoc(p, c);
      var k := SetEnd(p);
      if k < |p| {
        assert q[1..k] == p[1..k];
        assert q[k + 1..] == p[k + 1..] + [c];
        TranslateSnoc(p[k + 1..], c);
      } else {
        assert q[1..] == p[1..] + [c];
        TranslateSnoc(p[1..], c);
      }
    }
  }

  /** Whatever matches a token sequence ending in a literal ends with it. */
  lemma {:induction false} MatchesLastLiteral(toks: seq<Token>, c: char, s: string)
    requires Matches(toks + [Literal(c)], s)
    ensures |s| > 0 && s[|s| - 1] == c
    decreases |toks|
  {
    var all := toks + [Literal(c)];
    if toks == [] {
      assert all[1..] == [];
    } else if toks[0].AnyString? {
      assert all[1..] == toks[1..] + [Literal(c)];
      var k :| 0 <= k <= |s| && Matches(all[1..], s[k..]);
      MatchesLastLiteral(toks[1..], c, s[k..]);
    } else {
      assert all[1..] == toks[1..] + [Literal(c)];
      MatchesLastLiteral(toks[1..], c, s[1..]);
    }
  }

  /** A pattern ending in a character other than `*`, `?` and `]` matches
      only names ending in that same character. In particular a pattern
      ending in `/` matches only names ending in `/`, and a pattern ending
      in an ordinary character never matches a name ending in `/`. */
  lemma FnmatchLastChar(name: string, pat: string)
    requires |pat| > 0
    requires pat[|pat| - 1] != '*' && pat[|pat| - 1] != '?' && pat[|pat| - 1] != ']'
    requires Fnmatch(name, pat)
    ensures |name| > 0 && name[|name| - 1] == pat[|pat| - 1]
  {
    var p, c := pat[..|pat| - 1], pat[|pat| - 1];
    assert pat == p + [c];
    TranslateSnoc(p, c);
    MatchesLastLiteral(Translate(p), c, name);
  }

  /** A pattern with no `*`, `?` or `[` matches exactly itself (no case
      folding). */
  lemma {:induction false} LiteralPattern(name: string, pat: string)
    requires forall i :: 0 <= i < |pat| ==> pat[i] != '*' && pat[i] != '?' && pat[i] != '['
    ensures Fnmatch(name, pat) <==> name == pat
    decreases |pat|
  {
    if pat != [] {
      LiteralPattern(if |name| > 0 then name[1..] else name, pat[1..]);
      var toks := Translate(pat);
      assert toks == [Literal(pat[0])] + Translate(pat[1..]);
      assert toks[1..] == Translate(pat[1..]);
      if name == pat {
        assert name[1..] == pat[1..];
      }
      if |name| > 0 && name[0] == pat[0] && name[1..] == pat[1..] {
        assert name == [name[0]] + name[1..];
        assert pat == [pat[0]] + pat[1..];
      }
    }
  }

  /** `*` alone matches every name, those containing `/` included. */
  lemma StarMatchesAll(name: string)
    ensures Fnmatch(name, "*")
  {
    var toks := Translate("*");
    assert toks == [AnyString];
    assert name[|name|..] == [];
    assert Matches(toks[1..], name[|name|..]);
  }
}
