/** A worked example: output directory `out` holding `a.html` (tracked),
    `b.html`, `d.bak` and `old/c.html`, with the single rule `*.bak`. */
module Scenario {
  import opened Paths
  import opened Glob
  import opened Exclusion
  import opened FileTree
  import opened CleanSpec

  const A: Path := ["a.html"]
  const B: Path := ["b.html"]
  const C: Path := ["old", "c.html"]
  const D: Path := ["d.bak"]
  const Old: Path := ["old"]

  const Before: Tree := Tree({A, B, C, D}, {[], Old})
  const Rules: Conf := Conf("out", ["*.bak"])
  const Tracked: set<string> := {"out/a.html"}

  /** Which entries the rule protects: only `d.bak`. */
  lemma ScenarioExclusions()
    ensures !FileExcluded(Rules, A) && !FileExcluded(Rules, B) && !FileExcluded(Rules, C)
    ensures FileExcluded(Rules, D)
    ensures !DirExcluded(Rules, Old)
  {
    HtmlNotExcluded(A, "a.html");
    HtmlNotExcluded(B, "b.html");
    HtmlNotExcluded(C, "c.html");
    BakExcluded();
    OldNotExcluded();
  }

  /** `*.bak` does not match a name ending in `l`. */
  lemma HtmlNotExcluded(f: Path, name: string)
    requires f in {A, B, C} && name == Last(f)
    ensures !FileExcluded(Rules, f)
  {
    assert name[|name| - 1] == 'l';
    if Fnmatch(name, "*.bak") {
      FnmatchLastChar(name, "*.bak");
    }
    assert !RuleMatches(Rules.outputDir, Location(Rules, Parent(f)), name, "*.bak");
    assert Rules.outputIgnore == ["*.bak"];
  }

  lemma BakExcluded()
    ensures FileExcluded(Rules, D)
  {
    var toks := Translate("*.bak");
    assert toks == [AnyString] + Translate(".bak");
    LiteralPattern(".bak", ".bak");
    assert "d.bak"[1..] == ".bak";
    assert Matches(toks[1..], "d.bak"[1..]);
    assert Fnmatch("d.bak", "*.bak");
    assert RuleMatches(Rules.outputDir, Location(Rules, []), "d.bak", Rules.outputIgnore[0]);
  }

  lemma OldNotExcluded()
    ensures !DirExcluded(Rules, Old)
  {
    PlainRuleSkipsDirs("out", "out", "old", "*.bak");
    assert Rules.outputIgnore == ["*.bak"];
    assert Location(Rules, []) == "out";
  }

  /** Without `force`: `b.html` and `old/c.html` are announced and deleted,
      `a.html` (tracked) and `d.bak` (excluded) stay, and `old/`, now
      empty, is pruned. */
  lemma ScenarioPlain()
    ensures CleanRun(Before, Rules, Tracked, false, false).reported == {"out/b.html", "out/old/c.html"}
    ensures CleanRun(Before, Rules, Tracked, false, false).tree == Tree({A, D}, {[]})
  {
    ScenarioRun(false);
  }

  /** With `force`, `a.html` goes too; `d.bak` is still protected. */
  lemma ScenarioForce()
    ensures CleanRun(Before, Rules, Tracked, true, false).reported ==
            {"out/a.html", "out/b.html", "out/old/c.html"}
    ensures CleanRun(Before, Rules, Tracked, true, false).tree == Tree({D}, {[]})
  {
    ScenarioRun(true);
  }

  lemma ScenarioRun(force: bool)
    ensures CleanRun(Before, Rules, Tracked, force, false).reported ==
            if force then {"out/a.html", "out/b.html", "out/old/c.html"}
            else {"out/b.html", "out/old/c.html"}
    ensures CleanRun(Before, Rules, Tracked, force, false).tree ==
            Tree(if force then {D} else {A, D}, {[]})
  {
    ScenarioPass(force);
    var t1 := Tree(if force then {D} else {A, D}, {[], Old});
    OldPrunedAfter(t1);
  }

  /** The removal pass of a real (not dry) run, with or without `force`. */
  lemma ScenarioPass(force: bool)
    ensures RemovalPass(Before, Rules, Tracked, force, false).tree ==
            Tree(if force then {D} else {A, D}, {[], Old})
    ensures RemovalPass(Before, Rules, Tracked, force, false).reported ==
            if force then {"out/a.html", "out/b.html", "out/old/c.html"}
            else {"out/b.html", "out/old/c.html"}
  {
    var gone := RemovedFiles(Before, Rules, Tracked, force);
    ScenarioRemoved(force);
    Remaining(gone, force);
    Announced(gone, force);
  }

  lemma Remaining(gone: set<Path>, force: bool)
    requires gone == if force then {A, B, C} else {B, C}
    ensures Before.files - gone == if force then {D} else {A, D}
  {
  }

  lemma Announced(gone: set<Path>, force: bool)
    requires gone == if force then {A, B, C} else {B, C}
    ensures Reported(Rules, gone) ==
            if force then {"out/a.html", "out/b.html", "out/old/c.html"}
            else {"out/b.html", "out/old/c.html"}
  {
    ScenarioLocations();
  }

  lemma ScenarioRemoved(force: bool)
    ensures RemovedFiles(Before, Rules, Tracked, force) == if force then {A, B, C} else {B, C}
  {
    var gone := RemovedFiles(Before, Rules, Tracked, force);
    GoneFromBefore(force);
    BakKept(force);
    HtmlGone(A, force);
    HtmlGone(B, force);
    HtmlGone(C, force);
    assert B != A && C != A;
    SetOfFacts(gone, force);
  }

  lemma SetOfFacts(gone: set<Path>, force: bool)
    requires gone <= Before.files && D !in gone
    requires (A in gone <==> force) && B in gone && C in gone
    ensures gone == if force then {A, B, C} else {B, C}
  {
  }

  lemma GoneFromBefore(force: bool)
    ensures RemovedFiles(Before, Rules, Tracked, force) <= Before.files
  {
  }

  /** `d.bak` is protected by `*.bak`, with or without `force`. */
  lemma BakKept(force: bool)
    ensures D !in RemovedFiles(Before, Rules, Tracked, force)
  {
    BakExcluded();
  }

  /** An `.html` file is removed unless it is tracked and `force` is off. */
  lemma HtmlGone(f: Path, force: bool)
    requires f in {A, B, C}
    ensures f in RemovedFiles(Before, Rules, Tracked, force) <==> force || f != A
  {
    ScenarioVisible();
    ScenarioLocations();
    HtmlNotExcluded(f, Last(f));
    assert Parent(f) in VisibleDirs(Before, Rules) by {
      assert Parent(C) == Old;
    }
    assert Location(Rules, f) in Tracked <==> f == A;
  }

  /** Once `old/c.html` is gone, `old/` is the only empty directory. */
  lemma OldPrunedAfter(t1: Tree)
    requires t1.dirs == {[], Old} && C !in t1.files && D in t1.files
    requires t1.files <= {A, B, D}
    ensures Prune(t1) == Tree(t1.files, {[]})
  {
    assert IsEmpty(t1, Old);
    assert !IsEmpty(t1, []) by { assert ChildOf(D, []); }
    assert EmptyDirs(t1) == {Old};
  }

  /** A dry run announces the same two paths and leaves every file and
      directory in place (`old/` is not empty, so it is not pruned). */
  lemma ScenarioDryRun()
    ensures CleanRun(Before, Rules, Tracked, false, true).reported == {"out/b.html", "out/old/c.html"}
    ensures CleanRun(Before, Rules, Tracked, false, true).tree == Before
  {
    ScenarioPlain();
    DryRunSymmetry(Before, Rules, Tracked, false);
    assert !IsEmpty(Before, Old) by { assert ChildOf(C, Old); }
    assert !IsEmpty(Before, []) by { assert ChildOf(A, []); }
    assert EmptyDirs(Before) == {};
  }

  lemma ScenarioVisible()
    ensures VisibleDirs(Before, Rules) == {[], Old}
  {
    var vis := VisibleDirs(Before, Rules);
    OldNotExcluded();
    assert Old[..1] == Old;
    assert Visible(Before, Rules, Old);
    assert Visible(Before, Rules, []);
    assert vis <= Before.dirs;
    BothDirs(vis);
  }

  lemma BothDirs(vis: set<Path>)
    requires vis <= {[], Old} && [] in vis && Old in vis
    ensures vis == {[], Old}
  {
  }

  lemma ScenarioLocations()
    ensures Location(Rules, A) == "out/a.html"
    ensures Location(Rules, B) == "out/b.html"
    ensures Location(Rules, C) == "out/old/c.html"
    ensures Location(Rules, D) == "out/d.bak"
  {
    TopLocation(A, "a.html");
    TopLocation(B, "b.html");
    TopLocation(D, "d.bak");
    OldCLocation();
  }

  /** An entry directly in `out` is at `out/<name>`. */
  lemma TopLocation(p: Path, name: string)
    requires p == [name] && IsName(name)
    ensures Location(Rules, p) == "out/" + name
  {
    assert Parent(p) == [] && Last(p) == name;
    assert Location(Rules, p) == Join(PathString("out", []), name);
    JoinDirPart("out", name);
    assert DirPart("out") == "out/";
  }

  lemma OldCLocation()
    ensures Location(Rules, C) == "out/old/c.html"
  {
    TopLocation(Old, "old");
    assert "out/" + "old" == "out/old";
    assert Parent(C) == Old && Last(C) == "c.html";
    assert Location(Rules, C) == Join("out/old", "c.html");
    JoinDirPart("out/old", "c.html");
    assert DirPart("out/old") == "out/old/";
    OldCString();
  }

  lemma OldCString()
    ensures "out/old/" + "c.html" == "out/old/c.html"
  {
    var s := "out/old/" + "c.html";
    assert |s| == 14;
    assert forall i :: 0 <= i < 14 ==> s[i] == "out/old/c.html"[i];
  }
}
