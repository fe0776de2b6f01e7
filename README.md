# acrylamid `clean` task — a Dafny model

Acrylamid's `clean` task (`acrylamid clean`, alias `rm`) removes abandoned
files from a blog's output directory. A silent compile pass fills a
module-level `tracked` set through the `track` event callback. Two top-down
walks over the output directory follow it:

1. **The removal walk.** In every directory it enters, the walk computes
   `found`: the joined paths of the files that are not excluded by the
   `output_ignore` rules. Paths in `found - tracked` are announced through
   `event.remove` and, unless `--dry-run` is set, deleted. With `--force`
   the paths in `found & tracked` go the same way. A subdirectory whose
   `name + "/"` is excluded is not entered.
2. **The prune walk.** In every directory still present, `os.rmdir` is tried
   on each subdirectory, and failures are ignored.

The exclusion test `excluded` follows git-like rules. A pattern with a
leading `/` is anchored at the output directory and compared with the full
joined path. Any other pattern is compared with the bare entry name.
Directories are tested as `name + "/"`, so a pattern ending in `/` only
matches directories.

## Files

- `paths.dfy` (module `Paths`): `os.path.join` as POSIX Python 2 defines it,
  and what an entry name is.
- `glob.dfy` (module `Glob`): `fnmatch.fnmatch`, in the form of a
  translation into tokens (`*`, `?`, `[...]`, `[!...]`, literals). It has a
  backtracking matcher, proved equal to a declarative reference semantics.
- `exclusion.dfy` (module `Exclusion`): `excluded`.
- `tree.dfy` (module `FileTree`): the output directory as a set of file paths
  and a set of directory paths. A path is the sequence of names below the
  output directory. The module also holds the bookkeeping of a top-down walk,
  which both walks share.
- `clean_spec.dfy` (module `CleanSpec`): what one run does, as functions of
  the starting tree, together with the properties of those functions:
  - `RemovalPass` is the first walk;
  - `Prune` is the second walk;
  - `CleanRun` is the two walks in sequence.
- `clean.dfy` (module `CleanTask`): the task as it runs.
  - `Tracker` is the `tracked` accumulator.
  - `OutputTree` is the output directory on disk, with `os.remove` and
    `os.rmdir` and the two walks as loops.
  - `Run` is the body of `run` after the compile.
  - Each method is proved to leave exactly the state the matching spec
    function describes.
- `scenario.dfy` (module `Scenario`): a worked example.
  - The output directory holds `a.html` (tracked), `b.html`, `d.bak` and
    `old/c.html`, with the single rule `*.bak`.
  - The example is computed for a plain run, a forced run and a dry run.

The walks are modelled as worklists over sets: the result does not depend on
the order in which `os.walk` lists siblings. A file is removed by its path in
the tree. Comparisons with `tracked` and the announcements use the joined
string, as the source does. Within one directory, the joined string and the
file determine each other (`CleanSpec.FoundPath`).

## Model

| member | source | states |
|---|---|---|
| Paths.Join | acrylamid/tasks/clean.py:42 | `join(a, b)`: an absolute `b` is the result; otherwise the result starts with `a` and ends with `b`, with one separator inserted between them exactly when `a` is non-empty and does not already end in `/` |
| Paths.JoinNames | acrylamid/tasks/clean.py:82-83 | two joins of proper entry names that give the same path join the same name onto directories that agree up to a trailing separator |
| Paths.JoinInjective | acrylamid/tasks/clean.py:83 | joining two different relative names onto the same root gives two different paths |
| Glob.Fnmatch | acrylamid/tasks/clean.py:44 | the backtracking matcher accepts a name exactly when the name is in the language of the translated pattern (the reference semantics `Matches`) |
| Glob.MatchTokensAgrees | acrylamid/tasks/clean.py:44 | for every token sequence and every string, the executable matcher and the reference semantics agree |
| Glob.FnmatchLastChar | acrylamid/tasks/clean.py:44 | a pattern ending in an ordinary character (not `*`, `?`, `]`) matches only names ending in that character |
| Glob.LiteralPattern | acrylamid/tasks/clean.py:44 | a pattern without `*`, `?` or `[` matches exactly the name equal to it |
| Glob.StarMatchesAll | acrylamid/tasks/clean.py:44 | the pattern `*` matches every name, including ones containing `/` |
| FileTree.PathStringInjective | acrylamid/tasks/clean.py:82-83 | below one output directory, distinct paths made of proper entry names have distinct joined path strings |
| Exclusion.Excluded | acrylamid/tasks/clean.py:30-47 | an entry is excluded if and only if some rule matches it: anchored rules on the joined full path against `join(output_dir, pattern[1:])`, other rules on the bare name; an empty rule list excludes nothing |
| Exclusion.ExcludedConcat | acrylamid/tasks/clean.py:40-47 | the rule list is a disjunction: `a + b` excludes exactly what `a` or `b` excludes |
| Exclusion.DirRuleSkipsFiles | acrylamid/tasks/clean.py:83-84 | a rule ending in `/` never excludes a file, whichever form the rule has |
| Exclusion.PlainRuleSkipsDirs | acrylamid/tasks/clean.py:98-100 | a rule ending in an ordinary character never excludes a directory, which is tested as `name + "/"` |
| CleanSpec.FoundPath | acrylamid/tasks/clean.py:83-84 | a file's joined path is in its directory's `found` set if and only if the file is not excluded |
| CleanSpec.ReportedPerDirectory | acrylamid/tasks/clean.py:83-95 | a directory the walk enters announces exactly `found - tracked` without force, and `(found - tracked) + (found & tracked)` with force; a directory it does not enter announces nothing |
| CleanSpec.ForceSuperset | acrylamid/tasks/clean.py:91-95 | force removes a superset of what a plain run removes; the extra files are exactly the non-excluded tracked files of entered directories; the announcements grow the same way |
| CleanSpec.ExclusionWins | acrylamid/tasks/clean.py:83-84 | an excluded file is never removed, its path is never announced, and it is still there after the run, for every value of `force` and `dryrun` |
| CleanSpec.KeptNotReported | acrylamid/tasks/clean.py:86-95 | the path of a file the first walk keeps is not among the announced paths |
| CleanSpec.ExcludedSubtreeUntouched | acrylamid/tasks/clean.py:97-100 | no directory at or below an excluded directory is entered, and no file below it is removed or announced; every such file survives the run |
| CleanSpec.DryRunSymmetry | acrylamid/tasks/clean.py:86-95 | a dry run announces the same paths as a real run and keeps every file; its announcements are exactly the paths of the files the real run deletes |
| CleanSpec.EmptyDirsAlwaysPruned | acrylamid/tasks/clean.py:102-108 | when the output directory can be listed, a directory below it that is empty before the run is gone after it, whether or not it is excluded and whether or not the run is a dry run |
| CleanSpec.PruneRemovesOnlyEmpty | acrylamid/tasks/clean.py:102-108 | the prune walk removes no file, never the output directory, and a directory exactly when it was empty |
| CleanSpec.PrunePreservesWellFormed | acrylamid/tasks/clean.py:102-108 | pruning never leaves an entry without its parent directory |
| CleanSpec.RemovalPassPreservesWellFormed | acrylamid/tasks/clean.py:81-108 | both walks keep the tree one a filesystem can hold |
| CleanSpec.SecondRunReportsNothing | acrylamid/tasks/clean.py:81-108 | a second run with the same `tracked` set and flags, after a real run, announces nothing |
| CleanTask.Tracker.constructor | acrylamid/tasks/clean.py:15 | `tracked` starts empty |
| CleanTask.Tracker.Track | acrylamid/tasks/clean.py:25-27 | `track(path)` adds `path` to `tracked`; tracking a path again changes nothing |
| CleanTask.OutputTree.Remove | acrylamid/tasks/clean.py:88 | `os.remove` of a present file takes exactly that file away and leaves the directories alone |
| CleanTask.OutputTree.Rmdir | acrylamid/tasks/clean.py:105-108 | `os.rmdir` succeeds exactly on an existing empty directory and removes only it; on failure nothing changes |
| CleanTask.OutputTree.RemoveEach | acrylamid/tasks/clean.py:86-89 | every file of the batch is announced; all of them are deleted unless this is a dry run |
| CleanTask.OutputTree.CleanDirectory | acrylamid/tasks/clean.py:83-95 | one directory's step announces its non-excluded untracked files (all non-excluded files with force) and deletes them unless this is a dry run |
| CleanTask.OutputTree.KeptSubdirs | acrylamid/tasks/clean.py:98-100 | in a directory the walk enters, the subdirectories kept for the walk are exactly the visible directories directly inside it (`VisibleDirs`: no directory on the way down has an excluded `name + "/"`) |
| CleanTask.OutputTree.RemoveAbandoned | acrylamid/tasks/clean.py:81-100 | the first walk over a listable output directory leaves the tree and the announcements that `RemovalPass` describes and enters exactly the visible directories |
| CleanTask.OutputTree.RmdirEach | acrylamid/tasks/clean.py:104-108 | trying `os.rmdir` on each subdirectory in turn removes exactly the ones that were empty beforehand; removing a sibling never changes whether another one is empty |
| CleanTask.OutputTree.PruneVisit | acrylamid/tasks/clean.py:103-108 | one step of the second walk: a directory still present has its empty subdirectories removed and all of them queued; a removed directory yields nothing |
| CleanTask.OutputTree.PruneEmpty | acrylamid/tasks/clean.py:102-108 | the second walk removes exactly the directories below the output directory that are empty when it starts (`Prune`) |
| CleanTask.Run | acrylamid/tasks/clean.py:81-108 | the task after the compile leaves the tree and the announcements that `CleanRun` describes; an empty `output_dir`, which `os.walk` cannot list, changes and announces nothing |
| Scenario.ScenarioExclusions | acrylamid/tasks/clean.py:40-47 | in the example, `*.bak` protects `d.bak` and nothing else, and `old/` is entered |
| Scenario.ScenarioPlain | acrylamid/tasks/clean.py:81-108 | a plain run announces and deletes `b.html` and `old/c.html`, keeps `a.html` and `d.bak`, and prunes the emptied `old/` |
| Scenario.ScenarioForce | acrylamid/tasks/clean.py:91-95 | with force, `a.html` goes as well, and `d.bak` is still kept |
| Scenario.ScenarioDryRun | acrylamid/tasks/clean.py:86-89 | a dry run announces the same two paths and leaves the tree exactly as it was |

## Left out

- The compile step and the event bus (lines 73-77, 89). `commands.compile`,
  `event.register` and `event.remove` are not part of this model. The
  `tracked` set the compile produces is an input of `Run`, and the
  `event.remove` notifications are the `reported` set.
- Logging and option handling (lines 17-22, 50, 66-71, 79). The verbosity
  changes, `env.options.ignore` and argument parsing have no effect on what
  is removed; `force` and `dryrun` are parameters.
- Input/output. The disk is the `OutputTree` object: an in-memory set of file
  paths and a set of directory paths, with no symlinks, no special files and
  no other process changing it during a run.
- A missing output directory. A well-formed tree always holds its root, so
  the model assumes the output directory exists and is a directory. When it
  is missing, `os.walk` cannot list it and the source removes nothing. The
  empty `output_dir`, which cannot be listed either, is modelled: `Run` and
  `CleanRun` then change and announce nothing.
- `os.remove` errors. The source does not catch them. `Remove` and
  `RemoveEach` require the files to be present, and every caller removes only
  files it has just listed, so the model meets no error there.
- `os.rmdir` errors other than "not empty" and "no such directory". Every
  failure is modelled as the ignored `OSError`.
- Walk order. `os.walk` returns siblings in directory order; the model visits
  them in an unspecified order, and every property holds for every order,
  since a walk's result does not depend on it.
- The order and multiplicity of `event.remove` calls. The model keeps the set
  of announced paths. A path is announced at most once per run anyway,
  because `found - tracked` and `found & tracked` are disjoint.
- Glob.Fnmatch: a reversed range inside a bracket expression (`z-a`) adds
  no characters to the set here, so `[z-ab]` matches `b` and `[!z-a]`
  matches every character. Python 2's regular-expression compiler rejects
  such a pattern with `re.error`, which escapes `fnmatch`, `excluded` and
  `run`: the source aborts the task (before anything is removed, when the
  offending rule is tried on the first entry), while the model goes on.
- Glob.Fnmatch: names and patterns are sequences of characters. Python 2
  paths are byte strings, so there `?` and a bracket item match one byte,
  and `?.html` does not match a UTF-8 encoded `é.html`, while here it does.
  The model agrees with the source on ASCII names.
- `os.path.normcase` is the identity on POSIX and is not modelled.
- Glob.Fnmatch: the pattern cache of `fnmatch` is not modelled. It has no
  effect on results.
- The prune walk runs on a dry run too, as the source does (lines 102-108 are
  not guarded by `dryrun`). A dry run can therefore remove directories that
  were already empty. This follows the code rather than a reading of
  `--dry-run` as "no change at all".
- The prune walk is top-down and best effort. A directory that becomes empty
  only because its own empty subdirectories were removed stays, and
  `PruneEmpty` states exactly that.
