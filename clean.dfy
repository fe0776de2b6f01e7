/** The `clean` task as it runs: the global `tracked` accumulator, and the
    two top-down walks over the output directory that remove abandoned
    files and then empty directories. */
module CleanTask {
  import opened Exclusion
  import opened FileTree
  import opened CleanSpec

  /** The module-level `tracked` set that the compile's `create`, `update`,
      `skip` and `identical` events fill through `track`. */
  class Tracker {
    var tracked: set<string>

    constructor ()
      ensures tracked == {}
    {
      tracked := {};
    }

    /** `track(path)`: records `path`; recording a path again changes
        nothing. */
    method Track(path: string)
      modifies this
      ensures tracked == old(tracked) + {path}
      ensures path in old(tracked) ==> tracked == old(tracked)
    {
      tracked := tracked + {path};
    }
  }

  /** The output directory on disk. */
  class OutputTree {
    var files: set<Path>
    var dirs: set<Path>

    ghost predicate Valid()
      reads this
    {
      WellFormed(Snapshot())
    }

    function Snapshot(): Tree
      reads this
    {
      Tree(files, dirs)
    }

    constructor (t: Tree)
      requires WellFormed(t)
      ensures Valid() && Snapshot() == t
    {
      files, dirs := t.files, t.dirs;
    }

    /** `os.remove(p)`. */
    method Remove(f: Path)
      requires f in files
      modifies this
      ensures files == old(files) - {f}
      ensures dirs == old(dirs)
    {
      files := files - {f};
    }

    /** `os.rmdir(p)`: fails (the `OSError` the task ignores) unless the
        directory exists and is empty. */
    method Rmdir(d: Path) returns (ok: bool)
      requires d != []
      modifies this
      ensures ok <==> d in old(dirs) && IsEmpty(old(Snapshot()), d)
      ensures files == old(files)
      ensures dirs == if ok then old(dirs) - {d} else old(dirs)
    {
      ok := d in dirs && IsEmpty(Snapshot(), d);
      if ok {
        dirs := dirs - {d};
      }
    }

    /** One `for p in ...: if not dryrun: os.remove(p); event.remove(p)`
        loop: every file of `batch` is announced, and deleted unless this
        is a dry run. */
    method RemoveEach(conf: Conf, batch: set<Path>, dryrun: bool) returns (announced: set<string>)
      requires batch <= files
      modifies this
      ensures dirs == old(dirs)
      ensures files == if dryrun then old(files) else old(files) - batch
      ensures announced == Reported(conf, batch)
    {
      var rest := batch;
      announced := {};
      while rest != {}
        invariant rest <= batch
        invariant dirs == old(dirs)
        invariant files == if dryrun then old(files) else old(files) - (batch - rest)
        invariant announced == Reported(conf, batch - rest)
        decreases rest
      {
        var f :| f in rest;
        if !dryrun {
          Remove(f);
        }
        announced := announced + {Location(conf, f)};
        ReportedUnion(conf, batch - rest, {f});
        assert batch - (rest - {f}) == (batch - rest) + {f};
        rest := rest - {f};
      }
    }

    /** The body of the first walk for one directory `d`: `found` is the
        set of its non-excluded files; `found - tracked` (and with `force`
        also `found & tracked`) are announced and, unless this is a dry run,
        deleted. */
    method CleanDirectory(conf: Conf, tracked: set<string>, force: bool, dryrun: bool, d: Path)
      returns (announced: set<string>)
      modifies this
      ensures dirs == old(dirs)
      ensures announced == Reported(conf, DoomedIn(old(files), conf, tracked, force, d))
      ensures files == if dryrun then old(files) else old(files) - DoomedIn(old(files), conf, tracked, force, d)
    {
      var root := Location(conf, d);
      var found := set f | f in files && ChildOf(f, d)
                           && !Excluded(conf.outputDir, root, Last(f), conf.outputIgnore);
      var untracked := set f | f in found && Location(conf, f) !in tracked;
      announced := RemoveEach(conf, untracked, dryrun);
      if force {
        var more := RemoveEach(conf, found - untracked, dryrun);
        ReportedUnion(conf, untracked, found - untracked);
        assert untracked + (found - untracked) == found;
        announced := announced + more;
      }
    }

    /** `for dir in dirs[:]: if excluded(..., dir + '/', ...): dirs.remove(dir)`:
        the subdirectories of `d` the walk goes on to enter are exactly the
        visible directories directly inside `d`. */
    method KeptSubdirs(conf: Conf, d: Path) returns (kept: set<Path>)
      requires d in VisibleDirs(Snapshot(), conf)
      ensures kept == ChildrenIn(VisibleDirs(Snapshot(), conf), d)
    {
      var root := Location(conf, d);
      kept := set c | c in dirs && ChildOf(c, d)
                      && !Excluded(conf.outputDir, root, Last(c) + "/", conf.outputIgnore);
      KeptChildren(Snapshot(), conf, d);
    }

    /** The first walk over a listable output directory: in every directory
        it enters, the non-excluded files are `found`; the untracked ones
        (with `force` all of them) are announced and, unless this is a dry
        run, deleted; subdirectories whose `name + "/"` is excluded are not
        entered. `walked` is the set of directories entered. */
    method RemoveAbandoned(conf: Conf, tracked: set<string>, force: bool, dryrun: bool)
      returns (reported: set<string>, ghost walked: set<Path>)
      requires Valid() && Listable(conf)
      modifies this
      ensures Valid()
      ensures Snapshot() == RemovalPass(old(Snapshot()), conf, tracked, force, dryrun).tree
      ensures reported == RemovalPass(old(Snapshot()), conf, tracked, force, dryrun).reported
      ensures walked == VisibleDirs(old(Snapshot()), conf)
    {
      ghost var t0 := Snapshot();
      ghost var all := VisibleDirs(t0, conf);
      ghost var gone := RemovedFiles(t0, conf, tracked, force);
      VisibleDirsClosed(t0, conf);
      WalkStart(all);
      var pending: set<Path> := {[]};
      walked := {};
      reported := {};
      while pending != {}
        invariant dirs == t0.dirs
        invariant WalkInv(all, walked, pending)
        invariant files == if dryrun then t0.files else t0.files - GoneUnder(gone, walked)
        invariant reported == Reported(conf, GoneUnder(gone, walked))
        decreases all - walked
      {
        var d :| d in pending;
        WalkStep(all, walked, pending, d);
        DirectoryStep(t0, conf, tracked, force, dryrun, walked, d, files);
        var announced := CleanDirectory(conf, tracked, force, dryrun, d);
        reported := reported + announced;
        VisibleDirsOfDirs(t0, Snapshot(), conf);
        var kept := KeptSubdirs(conf, d);
        pending := pending - {d} + kept;
        walked := walked + {d};
      }
      WalkEnd(all, walked);
      GoneUnderAll(t0, conf, tracked, force);
      RemovalPassPreservesWellFormed(t0, conf, tracked, force, dryrun);
    }

    /** One `for p in (join(root, k) for k in dirs)` loop: `os.rmdir` is
        tried on every subdirectory of `d` listed in `batch`, failures
        are ignored; exactly the ones that were empty go. */
    method RmdirEach(d: Path, batch: set<Path>)
      requires forall c :: c in batch ==> ChildOf(c, d)
      modifies this
      ensures files == old(files)
      ensures dirs == old(dirs) - set c | c in batch && c in old(dirs) && IsEmpty(old(Snapshot()), c)
    {
      ghost var t0 := Snapshot();
      var rest := batch;
      while rest != {}
        invariant rest <= batch
        invariant files == t0.files
        invariant dirs == t0.dirs - set c | c in batch - rest && c in t0.dirs && IsEmpty(t0, c)
        decreases rest
      {
        var c :| c in rest;
        SiblingsKeepEmptiness(t0, Snapshot(), d, batch, c);
        var _ := Rmdir(c);
        rest := rest - {c};
      }
    }

    /** The second walk's step at directory `d`: if `d` can still be
        listed, `os.rmdir` is tried on each of its subdirectories, which
        are then returned to be walked; a removed `d` yields nothing. */
    method PruneVisit(d: Path, ghost t0: Tree, ghost walked: set<Path>) returns (subdirs: set<Path>)
      requires d in t0.dirs && d !in walked
      requires forall v :: v in walked && v != [] ==> Parent(v) in walked
      requires files == t0.files
      requires dirs == t0.dirs - PrunedUnder(EmptyDirs(t0), walked)
      modifies this
      ensures files == t0.files
      ensures subdirs == ChildrenIn(t0.dirs, d)
      ensures dirs == t0.dirs - PrunedUnder(EmptyDirs(t0), walked + {d})
    {
      if d in dirs {
        subdirs := set c | c in dirs && ChildOf(c, d);
        PruneHere(t0, walked, d, Snapshot(), subdirs);
        RmdirEach(d, subdirs);
      } else {
        RemovedHasNoChildren(t0, walked, d);
        subdirs := {};
        assert PrunedUnder(EmptyDirs(t0), walked + {d}) == PrunedUnder(EmptyDirs(t0), walked);
      }
    }

    /** The second walk: it enters every directory still present, tries to
        remove each of its subdirectories, and then descends into them;
        a directory removed meanwhile can no longer be listed and is
        skipped. Neither `dryrun` nor the exclusion rules are consulted. */
    method PruneEmpty()
      requires Valid()
      modifies this
      ensures Valid()
      ensures Snapshot() == Prune(old(Snapshot()))
    {
      ghost var t0 := Snapshot();
      ghost var all := t0.dirs;
      ghost var empty := EmptyDirs(t0);
      WalkStart(all);
      var pending: set<Path> := {[]};
      ghost var walked: set<Path> := {};
      while pending != {}
        invariant files == t0.files
        invariant WalkInv(all, walked, pending)
        invariant dirs == t0.dirs - PrunedUnder(empty, walked)
        decreases all - walked
      {
        var d :| d in pending;
        WalkStep(all, walked, pending, d);
        var subdirs := PruneVisit(d, t0, walked);
        pending := pending - {d} + subdirs;
        walked := walked + {d};
      }
      WalkEnd(all, walked);
      assert PrunedUnder(empty, all) == empty;
      PrunePreservesWellFormed(t0);
    }
  }

  /** The task after the silent compile, with the `tracked` set it produced:
      the removal walk, then the directory walk. An empty `output_dir`
      cannot be listed, so both walks yield nothing. */
  method Run(fs: OutputTree, conf: Conf, tracked: set<string>, force: bool, dryrun: bool)
    returns (reported: set<string>)
    requires fs.Valid()
    modifies fs
    ensures fs.Valid()
    ensures fs.Snapshot() == CleanRun(old(fs.Snapshot()), conf, tracked, force, dryrun).tree
    ensures reported == CleanRun(old(fs.Snapshot()), conf, tracked, force, dryrun).reported
  {
    if conf.outputDir == "" {
      reported := {};
    } else {
      ghost var walked;
      reported, walked := fs.RemoveAbandoned(conf, tracked, force, dryrun);
      fs.PruneEmpty();
    }
  }

  // ----- proof helpers for the walks -----

  /** Files to be removed whose directory has been visited. */
  ghost function GoneUnder(gone: set<Path>, walked: set<Path>): set<Path>
  {
    set f | f in gone && f != [] && Parent(f) in walked
  }

  /** Empty directories whose parent has been visited. */
  ghost function PrunedUnder(empty: set<Path>, walked: set<Path>): set<Path>
  {
    set c | c in empty && c != [] && Parent(c) in walked
  }

  lemma GoneUnderAll(t: Tree, conf: Conf, tracked: set<string>, force: bool)
    ensures GoneUnder(RemovedFiles(t, conf, tracked, force), VisibleDirs(t, conf)) ==
            RemovedFiles(t, conf, tracked, force)
  {
  }

  /** What one directory's step removes: its non-excluded files that are
      untracked, or all of them with `force`. */
  ghost function DoomedIn(files: set<Path>, conf: Conf, tracked: set<string>, force: bool, d: Path): set<Path>
  {
    set f | f in files && ChildOf(f, d) && !FileExcluded(conf, f) && (force || Location(conf, f) !in tracked)
  }

  /** In a directory `d` the first walk enters, the files on disk are those
      of the original tree, so the files its step removes are exactly the
      removed files of `d`, and none of them was removed before. */
  lemma DirectoryStep(t0: Tree, conf: Conf, tracked: set<string>, force: bool, dryrun: bool,
                      walked: set<Path>, d: Path, files: set<Path>)
    requires d !in walked
    requires d in VisibleDirs(t0, conf)
    requires files == if dryrun then t0.files
                      else t0.files - GoneUnder(RemovedFiles(t0, conf, tracked, force), walked)
    ensures var gone := RemovedFiles(t0, conf, tracked, force);
            var doomed := DoomedIn(files, conf, tracked, force, d);
            && GoneUnder(gone, walked + {d}) == GoneUnder(gone, walked) + doomed
            && Reported(conf, GoneUnder(gone, walked + {d})) ==
               Reported(conf, GoneUnder(gone, walked)) + Reported(conf, doomed)
            && (!dryrun ==> files - doomed == t0.files - GoneUnder(gone, walked + {d}))
  {
    var gone := RemovedFiles(t0, conf, tracked, force);
    var doomed := DoomedIn(files, conf, tracked, force, d);
    forall f | f in t0.files && ChildOf(f, d)
      ensures f in files
    {
      assert f !in GoneUnder(gone, walked);
    }
    assert GoneUnder(gone, walked + {d}) == GoneUnder(gone, walked) + doomed;
    ReportedUnion(conf, GoneUnder(gone, walked), doomed);
  }

  /** `os.rmdir` on a subdirectory of `d` succeeds or fails as it would
      have before any sibling of it was removed. */
  lemma SiblingsKeepEmptiness(t0: Tree, now: Tree, d: Path, batch: set<Path>, c: Path)
    requires forall x :: x in batch ==> ChildOf(x, d)
    requires c in batch
    requires now.files == t0.files
    requires now.dirs <= t0.dirs && t0.dirs - now.dirs <= batch
    ensures IsEmpty(now, c) <==> IsEmpty(t0, c)
  {
    forall x | x in t0.dirs && x !in now.dirs
      ensures !ChildOf(x, c)
    {
      assert ChildOf(x, d);
    }
  }

  /** When the second walk enters a directory `d` still present, none of
      its subdirectories has been removed yet, and each of them is empty
      now exactly when it was empty before the walk. */
  lemma PruneHere(t0: Tree, walked: set<Path>, d: Path, now: Tree, subdirs: set<Path>)
    requires d in t0.dirs && d !in walked
    requires forall v :: v in walked && v != [] ==> Parent(v) in walked
    requires now.files == t0.files
    requires now.dirs == t0.dirs - PrunedUnder(EmptyDirs(t0), walked)
    requires subdirs == set c | c in now.dirs && ChildOf(c, d)
    ensures subdirs == ChildrenIn(t0.dirs, d)
    ensures forall c :: c in subdirs ==> c in now.dirs && (IsEmpty(now, c) <==> IsEmpty(t0, c))
    ensures now.dirs - (set c | c in subdirs && c in now.dirs && IsEmpty(now, c)) ==
            t0.dirs - PrunedUnder(EmptyDirs(t0), walked + {d})
  {
    forall c | c in ChildrenIn(t0.dirs, d)
      ensures c in now.dirs
    {
      assert Parent(c) == d;
    }
    forall c | c in subdirs
      ensures IsEmpty(now, c) <==> IsEmpty(t0, c)
    {
      assert c !in walked;
      forall x | x in t0.dirs && x !in now.dirs
        ensures !ChildOf(x, c)
      {
        assert x in PrunedUnder(EmptyDirs(t0), walked);
      }
    }
  }

  /** A directory the second walk removed had nothing inside, so nothing is
      queued below it. */
  lemma RemovedHasNoChildren(t0: Tree, walked: set<Path>, d: Path)
    requires d in t0.dirs
    requires d in PrunedUnder(EmptyDirs(t0), walked)
    ensures ChildrenIn(t0.dirs, d) == {}
  {
    assert IsEmpty(t0, d);
  }
}
