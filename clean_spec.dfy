/** What one `clean` run does to the output tree, stated as functions of the
    tree before the run: which files the first walk removes and reports,
    and which directories the second walk removes. */
module CleanSpec {
  import opened Paths
  import opened Exclusion
  import opened FileTree

  /** The two configuration entries the task reads. */
  datatype Conf = Conf(outputDir: string, outputIgnore: seq<string>)

  /** The result of a pass: the tree afterwards and the paths announced
      through `event.remove`. */
  datatype Outcome = Outcome(tree: Tree, reported: set<string>)

  /** The string path of an entry, as the walk builds it. */
  function Location(conf: Conf, p: Path): string
  {
    PathString(conf.outputDir, p)
  }

  /** A file is protected when its bare name is excluded in its directory. */
  predicate FileExcluded(conf: Conf, f: Path)
    requires f != []
  {
    Excluded(conf.outputDir, Location(conf, Parent(f)), Last(f), conf.outputIgnore)
  }

  /** A directory is pruned from the walk when `name + "/"` is excluded in
      its parent. */
  predicate DirExcluded(conf: Conf, c: Path)
    requires c != []
  {
    Excluded(conf.outputDir, Location(conf, Parent(c)), Last(c) + "/", conf.outputIgnore)
  }

  /** The first walk enters `d` exactly when `d` exists and neither `d` nor
      any directory above it (below the output directory) was pruned. */
  ghost predicate Visible(t: Tree, conf: Conf, d: Path)
  {
    d in t.dirs && forall k :: 0 < k <= |d| ==> !DirExcluded(conf, d[..k])
  }

  ghost function VisibleDirs(t: Tree, conf: Conf): set<Path>
  {
    set d | d in t.dirs && Visible(t, conf, d)
  }

  /** The files of directory `d` that are not excluded. */
  ghost function FoundFiles(t: Tree, conf: Conf, d: Path): set<Path>
  {
    set f | f in t.files && ChildOf(f, d) && !FileExcluded(conf, f)
  }

  /** The paths announced for a set of files. */
  ghost function Reported(conf: Conf, fs: set<Path>): set<string>
  {
    set f | f in fs :: Location(conf, f)
  }

  /** `found` of directory `d`: the joined paths of its files that are not
      excluded. */
  ghost function Found(t: Tree, conf: Conf, d: Path): set<string>
  {
    Reported(conf, FoundFiles(t, conf, d))
  }

  /** The files the first walk removes: non-excluded files of visited
      directories that are untracked, or all of them with `force`. */
  ghost function RemovedFiles(t: Tree, conf: Conf, tracked: set<string>, force: bool): set<Path>
  {
    set f | f in t.files && f != [] && Parent(f) in VisibleDirs(t, conf) && !FileExcluded(conf, f)
                            && (force || Location(conf, f) !in tracked)
  }

  /** The part of the announcements that comes from directory `d`. */
  ghost function ReportedIn(t: Tree, conf: Conf, tracked: set<string>, force: bool, d: Path): set<string>
  {
    set f | f in RemovedFiles(t, conf, tracked, force) && ChildOf(f, d) :: Location(conf, f)
  }

  /** `os.walk` yields nothing for a top it cannot list; an empty
      `output_dir` is such a top (listing `""` fails). */
  predicate Listable(conf: Conf)
  {
    conf.outputDir != ""
  }

  /** The first walk over a listable output directory: every removed file
      is announced; it is deleted only when this is not a dry run. */
  ghost function RemovalPass(t: Tree, conf: Conf, tracked: set<string>, force: bool, dryrun: bool): Outcome
  {
    var gone := RemovedFiles(t, conf, tracked, force);
    Outcome(if dryrun then t else Tree(t.files - gone, t.dirs), Reported(conf, gone))
  }

  /** Directories below the output directory with nothing inside. */
  ghost function EmptyDirs(t: Tree): set<Path>
  {
    set d | d in t.dirs && d != [] && IsEmpty(t, d)
  }

  /** The second walk: every directory below the output directory that is
      empty when the walk starts is removed; nothing else changes. */
  ghost function Prune(t: Tree): Tree
  {
    Tree(t.files, t.dirs - EmptyDirs(t))
  }

  /** The whole task after the silent compile: removal pass, then prune.
      When the output directory cannot be listed, neither walk yields a
      directory, so nothing is removed or announced. */
  ghost function CleanRun(t: Tree, conf: Conf, tracked: set<string>, force: bool, dryrun: bool): Outcome
  {
    if !Listable(conf) then Outcome(t, {})
    else
      var first := RemovalPass(t, conf, tracked, force, dryrun);
      Outcome(Prune(first.tree), first.reported)
  }

  // ----- helpers -----

  lemma ReportedUnion(conf: Conf, a: set<Path>, b: set<Path>)
    ensures Reported(conf, a + b) == Reported(conf, a) + Reported(conf, b)
  {
  }

  lemma ReportedMono(conf: Conf, a: set<Path>, b: set<Path>)
    requires a <= b
    ensures Reported(conf, a) <= Reported(conf, b)
  {
  }

  /** The visited directories contain the output directory and the parent
      of each of their members. */
  lemma VisibleDirsClosed(t: Tree, conf: Conf)
    requires WellFormed(t)
    ensures [] in VisibleDirs(t, conf)
    ensures PrefixClosed(VisibleDirs(t, conf))
  {
    var vis := VisibleDirs(t, conf);
    forall x | x in vis && x != []
      ensures Parent(x) in vis
    {
      var p := Parent(x);
      forall k | 0 < k <= |p|
        ensures !DirExcluded(conf, p[..k])
      {
        assert p[..k] == x[..k];
      }
    }
  }

  /** Which directories the walk enters depends on the directories alone. */
  lemma VisibleDirsOfDirs(t: Tree, t': Tree, conf: Conf)
    requires t.dirs == t'.dirs
    ensures VisibleDirs(t, conf) == VisibleDirs(t', conf)
  {
  }

  /** The subdirectories of a visited directory that the walk keeps are
      exactly the visited ones. */
  lemma KeptChildren(t: Tree, conf: Conf, d: Path)
    requires d in VisibleDirs(t, conf)
    ensures ChildrenIn(VisibleDirs(t, conf), d) ==
            set c | c in t.dirs && ChildOf(c, d) && !DirExcluded(conf, c)
  {
    var vis := VisibleDirs(t, conf);
    var kept := set c | c in t.dirs && ChildOf(c, d) && !DirExcluded(conf, c);
    forall c | c in kept
      ensures c in vis
    {
      ChildVisible(t, conf, d, c);
    }
    forall c | c in ChildrenIn(vis, d)
      ensures c in kept
    {
      assert c[..|c|] == c;
    }
  }

  lemma ChildVisible(t: Tree, conf: Conf, d: Path, c: Path)
    requires Visible(t, conf, d)
    requires c in t.dirs && ChildOf(c, d) && !DirExcluded(conf, c)
    ensures Visible(t, conf, c)
  {
    forall k | 0 < k <= |c|
      ensures !DirExcluded(conf, c[..k])
    {
      if k < |c| {
        assert c[..k] == d[..k];
      } else {
        assert c[..k] == c;
      }
    }
  }

  // ----- properties -----

  /** Within one directory, found paths and found files correspond one to
      one: a path is found exactly when it is the path of a found file. */
  lemma FoundPath(t: Tree, conf: Conf, d: Path, f: Path)
    requires WellFormed(t)
    requires f in t.files && ChildOf(f, d)
    ensures Location(conf, f) in Found(t, conf, d) <==> !FileExcluded(conf, f)
  {
    if Location(conf, f) in Found(t, conf, d) {
      var g :| g in FoundFiles(t, conf, d) && Location(conf, g) == Location(conf, f);
      SameDirSamePath(t, conf, d, f, g);
    }
  }

  /** Two files of one directory with the same joined path are the same. */
  lemma SameDirSamePath(t: Tree, conf: Conf, d: Path, f: Path, g: Path)
    requires WellFormed(t)
    requires f in t.files && ChildOf(f, d) && g in t.files && ChildOf(g, d)
    requires Location(conf, f) == Location(conf, g)
    ensures f == g
  {
    assert IsName(Last(f)) && IsName(Last(g));
    SiblingsSamePath(conf, f, g);
  }

  /** Two entries of one directory, both properly named, with the same joined
      path are the same. */
  lemma SiblingsSamePath(conf: Conf, f: Path, g: Path)
    requires f != [] && g != [] && Parent(f) == Parent(g)
    requires IsName(Last(f)) && IsName(Last(g))
    requires Location(conf, f) == Location(conf, g)
    ensures f == g
  {
    var top := Location(conf, Parent(f));
    assert Location(conf, f) == Join(top, Last(f));
    assert Location(conf, g) == Join(top, Last(g));
    NamesJoinInjective(top, Last(f), Last(g));
    SameParentSameLast(f, g);
  }

  lemma NamesJoinInjective(top: string, a: string, b: string)
    requires IsName(a) && IsName(b) && Join(top, a) == Join(top, b)
    ensures a == b
  {
    assert !IsAbsolute(a) && !IsAbsolute(b);
    JoinInjective(top, a, b);
  }

  lemma SameParentSameLast(f: Path, g: Path)
    requires f != [] && g != [] && Parent(f) == Parent(g) && Last(f) == Last(g)
    ensures f == g
  {
    assert f == Parent(f) + [Last(f)];
    assert g == Parent(g) + [Last(g)];
  }

  /** Without `force`, a visited directory announces exactly its found paths
      that are not tracked; with `force`, exactly all of its found paths,
      that is the untracked ones together with the tracked ones. A
      directory the walk does not enter announces nothing. */
  lemma ReportedPerDirectory(t: Tree, conf: Conf, tracked: set<string>, d: Path)
    ensures d in VisibleDirs(t, conf) ==>
              ReportedIn(t, conf, tracked, false, d) == Found(t, conf, d) - tracked
    ensures d in VisibleDirs(t, conf) ==>
              ReportedIn(t, conf, tracked, true, d) ==
              (Found(t, conf, d) - tracked) + (Found(t, conf, d) * tracked)
    ensures d !in VisibleDirs(t, conf) ==>
              ReportedIn(t, conf, tracked, false, d) == {} && ReportedIn(t, conf, tracked, true, d) == {}
  {
    if d in VisibleDirs(t, conf) {
      var found := Found(t, conf, d);
      forall s | s in found
        ensures s in ReportedIn(t, conf, tracked, true, d)
        ensures s !in tracked ==> s in ReportedIn(t, conf, tracked, false, d)
      {
        var f :| f in FoundFiles(t, conf, d) && Location(conf, f) == s;
        assert f in RemovedFiles(t, conf, tracked, true);
        if s !in tracked {
          assert f in RemovedFiles(t, conf, tracked, false);
        }
      }
      forall s | s in ReportedIn(t, conf, tracked, true, d)
        ensures s in found
      {
        var f :| f in RemovedFiles(t, conf, tracked, true) && ChildOf(f, d) && Location(conf, f) == s;
        assert f in FoundFiles(t, conf, d);
      }
      forall s | s in ReportedIn(t, conf, tracked, false, d)
        ensures s in found && s !in tracked
      {
        var f :| f in RemovedFiles(t, conf, tracked, false) && ChildOf(f, d) && Location(conf, f) == s;
        assert f in FoundFiles(t, conf, d);
      }
    } else {
      assert forall f :: f in RemovedFiles(t, conf, tracked, true) ==> !ChildOf(f, d);
      assert forall f :: f in RemovedFiles(t, conf, tracked, false) ==> !ChildOf(f, d);
    }
  }

  /** `force` removes everything the plain run removes, and the extra files
      are exactly the non-excluded tracked files of visited directories. */
  lemma ForceSuperset(t: Tree, conf: Conf, tracked: set<string>)
    ensures RemovedFiles(t, conf, tracked, false) <= RemovedFiles(t, conf, tracked, true)
    ensures RemovedFiles(t, conf, tracked, true) - RemovedFiles(t, conf, tracked, false) ==
            set f | f in t.files && f != [] && Parent(f) in VisibleDirs(t, conf) && !FileExcluded(conf, f)
                    && Location(conf, f) in tracked
    ensures RemovalPass(t, conf, tracked, false, false).reported <=
            RemovalPass(t, conf, tracked, true, false).reported
  {
    ReportedMono(conf, RemovedFiles(t, conf, tracked, false), RemovedFiles(t, conf, tracked, true));
  }

  /** A file whose name is excluded in its directory is neither removed nor
      announced, and is still there after the whole run, whatever `force`
      and `dryrun` are. */
  lemma ExclusionWins(t: Tree, conf: Conf, tracked: set<string>, force: bool, dryrun: bool, f: Path)
    requires WellFormed(t)
    requires f in t.files && f != [] && FileExcluded(conf, f)
    ensures f !in RemovedFiles(t, conf, tracked, force)
    ensures f in CleanRun(t, conf, tracked, force, dryrun).tree.files
    ensures Location(conf, f) !in CleanRun(t, conf, tracked, force, dryrun).reported
  {
    KeptNotReported(t, conf, tracked, force, f);
  }

  /** The path of a file the first walk keeps is never announced: the
      announcements are the paths of removed files, and in a well-formed
      tree distinct files have distinct paths. */
  lemma KeptNotReported(t: Tree, conf: Conf, tracked: set<string>, force: bool, f: Path)
    requires WellFormed(t)
    requires f in t.files && f !in RemovedFiles(t, conf, tracked, force)
    ensures Location(conf, f) !in Reported(conf, RemovedFiles(t, conf, tracked, force))
  {
    FileNames(t, f);
    forall g | g in RemovedFiles(t, conf, tracked, force)
      ensures Location(conf, g) != Location(conf, f)
    {
      FileNames(t, g);
      PathStringInjective(conf.outputDir, g, f);
    }
  }

  /** Nothing at or below a directory whose `name + "/"` is excluded is
      visited: no directory there is entered, and no file there is removed
      or announced; every such file survives the run. */
  lemma ExcludedSubtreeUntouched(t: Tree, conf: Conf, tracked: set<string>, force: bool, dryrun: bool,
                                 p: Path, k: nat)
    requires WellFormed(t)
    requires 0 < k <= |p| && DirExcluded(conf, p[..k])
    ensures p !in VisibleDirs(t, conf)
    ensures p in t.files && k < |p| ==>
              && p !in RemovedFiles(t, conf, tracked, force)
              && p in CleanRun(t, conf, tracked, force, dryrun).tree.files
              && Location(conf, p) !in CleanRun(t, conf, tracked, force, dryrun).reported
  {
    if p in t.files && k < |p| {
      var d := Parent(p);
      assert d[..k] == p[..k];
      assert d !in VisibleDirs(t, conf);
      KeptNotReported(t, conf, tracked, force, p);
    }
  }

  /** A dry run announces the same paths as the real run, deletes no file,
      and announces exactly the paths of the files the real run deletes. */
  lemma DryRunSymmetry(t: Tree, conf: Conf, tracked: set<string>, force: bool)
    ensures RemovalPass(t, conf, tracked, force, true).reported ==
            RemovalPass(t, conf, tracked, force, false).reported
    ensures CleanRun(t, conf, tracked, force, true).tree.files == t.files
    ensures CleanRun(t, conf, tracked, force, true).reported ==
            Reported(conf, t.files - CleanRun(t, conf, tracked, force, false).tree.files)
  {
    var gone := RemovedFiles(t, conf, tracked, force);
    assert t.files - (t.files - gone) == gone;
  }

  /** The second walk is gated neither by `dryrun` nor by the exclusion
      rules: a directory below the output directory that is empty before
      the run is gone after it, excluded or not, dry run or not. */
  lemma EmptyDirsAlwaysPruned(t: Tree, conf: Conf, tracked: set<string>, force: bool, dryrun: bool, d: Path)
    requires Listable(conf)
    requires d in t.dirs && d != [] && IsEmpty(t, d)
    ensures d !in CleanRun(t, conf, tracked, force, dryrun).tree.dirs
  {
    var first := RemovalPass(t, conf, tracked, force, dryrun).tree;
    assert first.files <= t.files && first.dirs == t.dirs;
    assert d in EmptyDirs(first);
  }

  /** The second walk removes exactly the empty directories below the output
      directory: no file, no non-empty directory and never the output
      directory itself. */
  lemma PruneRemovesOnlyEmpty(t: Tree, d: Path)
    ensures Prune(t).files == t.files
    ensures Prune(t).dirs <= t.dirs
    ensures d in t.dirs ==> (d !in Prune(t).dirs <==> d != [] && IsEmpty(t, d))
  {
  }

  /** Pruning keeps the tree one a filesystem can hold: a removed directory
      had nothing inside, so no remaining entry loses its parent. */
  lemma PrunePreservesWellFormed(t: Tree)
    requires WellFormed(t)
    ensures WellFormed(Prune(t))
  {
    var p := Prune(t);
    forall x | x in p.dirs && x != []
      ensures Parent(x) in p.dirs
    {
      assert ChildOf(x, Parent(x));
      assert !IsEmpty(t, Parent(x));
    }
    forall f | f in p.files
      ensures Parent(f) in p.dirs
    {
      assert ChildOf(f, Parent(f));
      assert !IsEmpty(t, Parent(f));
    }
  }

  /** Removing files keeps the tree well formed. */
  lemma RemovalPassPreservesWellFormed(t: Tree, conf: Conf, tracked: set<string>, force: bool, dryrun: bool)
    requires WellFormed(t)
    ensures WellFormed(RemovalPass(t, conf, tracked, force, dryrun).tree)
    ensures WellFormed(CleanRun(t, conf, tracked, force, dryrun).tree)
  {
    PrunePreservesWellFormed(RemovalPass(t, conf, tracked, force, dryrun).tree);
  }

  /** Running the task a second time, with the same tracked set and flags,
      after a real run announces nothing: every file the first run kept is
      excluded, lies in a pruned directory or (without `force`) is tracked. */
  lemma SecondRunReportsNothing(t: Tree, conf: Conf, tracked: set<string>, force: bool, dryrun: bool)
    ensures RemovalPass(RemovalPass(t, conf, tracked, force, false).tree, conf, tracked, force, dryrun).reported == {}
    ensures CleanRun(CleanRun(t, conf, tracked, force, false).tree, conf, tracked, force, dryrun).reported == {}
  {
    var t1 := RemovalPass(t, conf, tracked, force, false).tree;
    SecondPassEmpty(t, t1, conf, tracked, force);
    if Listable(conf) {
      var t2 := CleanRun(t, conf, tracked, force, false).tree;
      assert t2 == Prune(t1);
      SecondPassEmpty(t, t2, conf, tracked, force);
    }
  }

  lemma SecondPassEmpty(t: Tree, t': Tree, conf: Conf, tracked: set<string>, force: bool)
    requires t'.files == t.files - RemovedFiles(t, conf, tracked, force)
    requires t'.dirs <= t.dirs
    ensures RemovedFiles(t', conf, tracked, force) == {}
  {
    forall f | f in t'.files
      ensures f !in RemovedFiles(t', conf, tracked, force)
    {
      if f != [] && Parent(f) in VisibleDirs(t', conf) {
        assert Parent(f) in VisibleDirs(t, conf);
      }
    }
  }
}
