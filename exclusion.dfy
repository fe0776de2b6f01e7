/** The user's ignore rules (`output_ignore`) and the test of whether one
    entry of the output tree is protected by them. */
module Exclusion {
  import opened Paths
  import opened Glob

  /** A pattern with a leading `/` is anchored at the output directory. */
  predicate Anchored(pattern: string)
  {
    IsAbsolute(pattern)
  }

  /** One rule against one entry: an anchored rule compares the full path
      `join(root, path)` with `join(outputDir, pattern[1:])`, any other rule
      compares the bare `path` with the pattern. */
  predicate RuleMatches(outputDir: string, root: string, path: string, pattern: string)
  {
    if Anchored(pattern) then Fnmatch(Join(root, path), Join(outputDir, pattern[1..]))
    else Fnmatch(path, pattern)
  }

  /** `excluded(conf, root, path, excl_files)`: the rules are tried in order
      and the first one that matches ends the search. The entry is excluded
      exactly when some rule matches it; no rules exclude nothing. */
  function Excluded(outputDir: string, root: string, path: string, patterns: seq<string>): (r: bool)
    ensures r <==> exists i :: 0 <= i < |patterns| && RuleMatches(outputDir, root, path, patterns[i])
    ensures patterns == [] ==> !r
    decreases |patterns|
  {
    if patterns == [] then false
    else if RuleMatches(outputDir, root, path, patterns[0]) then true
    else
      var rest := Excluded(outputDir, root, path, patterns[1..]);
      assert forall i :: 1 <= i < |patterns| ==> patterns[i] == patterns[1..][i - 1];
      rest
  }

  /** Rules combine by disjunction: concatenating two rule lists excludes
      what either list excludes, and nothing more. */
  lemma ExcludedConcat(outputDir: string, root: string, path: string, a: seq<string>, b: seq<string>)
    ensures Excluded(outputDir, root, path, a + b) <==>
            Excluded(outputDir, root, path, a) || Excluded(outputDir, root, path, b)
  {
    ConcatSplits(outputDir, root, path, a, b);
    ConcatKeepsLeft(outputDir, root, path, a, b);
    ConcatKeepsRight(outputDir, root, path, a, b);
  }

  lemma ConcatSplits(outputDir: string, root: string, path: string, a: seq<string>, b: seq<string>)
    ensures Excluded(outputDir, root, path, a + b) ==>
            Excluded(outputDir, root, path, a) || Excluded(outputDir, root, path, b)
  {
    var ab := a + b;
    if Excluded(outputDir, root, path, ab) {
      var i :| 0 <= i < |ab| && RuleMatches(outputDir, root, path, ab[i]);
      if i >= |a| {
        assert ab[i] == b[i - |a|];
      } else {
        assert ab[i] == a[i];
      }
    }
  }

  lemma ConcatKeepsLeft(outputDir: string, root: string, path: string, a: seq<string>, b: seq<string>)
    ensures Excluded(outputDir, root, path, a) ==> Excluded(outputDir, root, path, a + b)
  {
    if Excluded(outputDir, root, path, a) {
      var i :| 0 <= i < |a| && RuleMatches(outputDir, root, path, a[i]);
      assert (a + b)[i] == a[i];
    }
  }

  lemma ConcatKeepsRight(outputDir: string, root: string, path: string, a: seq<string>, b: seq<string>)
    ensures Excluded(outputDir, root, path, b) ==> Excluded(outputDir, root, path, a + b)
  {
    if Excluded(outputDir, root, path, b) {
      var i :| 0 <= i < |b| && RuleMatches(outputDir, root, path, b[i]);
      assert (a + b)[|a| + i] == b[i];
    }
  }

  /** A rule whose pattern ends in `/` never matches a file name: files are
      tested by their bare name, directories as `name + "/"`. */
  lemma DirRuleSkipsFiles(outputDir: string, root: string, name: string, pattern: string)
    requires IsName(name)
    requires |pattern| > 0 && pattern[|pattern| - 1] == '/'
    ensures !RuleMatches(outputDir, root, name, pattern)
  {
    assert name[|name| - 1] in name;
    if Anchored(pattern) {
      var full := Join(root, name);
      JoinLast(root, name);
      var target := Join(outputDir, pattern[1..]);
      if Fnmatch(full, target) {
        if |pattern| > 1 {
          if IsAbsolute(pattern[1..]) {
            assert target == pattern[1..];
          } else {
            JoinLast(outputDir, pattern[1..]);
          }
          FnmatchLastChar(full, target);
        } else if outputDir != "" {
          assert target[|target| - 1] == '/';
          FnmatchLastChar(full, target);
        }
      }
    } else if Fnmatch(name, pattern) {
      FnmatchLastChar(name, pattern);
    }
  }

  /** A rule whose pattern ends in an ordinary character (not `*`, `?`,
      `]` or `/`) never matches a directory, which is tested as
      `name + "/"`: `*.bak` does not protect a directory called `x.bak`. */
  lemma PlainRuleSkipsDirs(outputDir: string, root: string, name: string, pattern: string)
    requires IsName(name)
    requires |pattern| > 0
    requires pattern[|pattern| - 1] !in "*?]/"
    ensures !RuleMatches(outputDir, root, name + "/", pattern)
  {
    var entry := name + "/";
    if Anchored(pattern) {
      var full := Join(root, entry);
      JoinLast(root, entry);
      var target := Join(outputDir, pattern[1..]);
      if Fnmatch(full, target) {
        assert |pattern| > 1;
        if IsAbsolute(pattern[1..]) {
          assert target == pattern[1..];
        } else {
          JoinLast(outputDir, pattern[1..]);
        }
        FnmatchLastChar(full, target);
      }
    } else if Fnmatch(entry, pattern) {
      FnmatchLastChar(entry, pattern);
    }
  }
}
