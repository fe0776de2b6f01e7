/** The output directory as an in-memory tree: a set of file paths and a set
    of directory paths, each path the sequence of entry names below the
    output directory (the output directory itself is `[]`). */
module FileTree {
  import opened Paths

  type Path = seq<string>

  function Parent(p: Path): Path
    requires p != []
  {
    p[..|p| - 1]
  }

  function Last(p: Path): string
    requires p != []
  {
    p[|p| - 1]
  }

  /** `c` is an entry directly inside directory `d`. */
  predicate ChildOf(c: Path, d: Path)
  {
    c != [] && Parent(c) == d
  }

  datatype Tree = Tree(files: set<Path>, dirs: set<Path>)

  /** Every non-root member has its parent directory in the set. */
  ghost predicate PrefixClosed(s: set<Path>)
  {
    forall x :: x in s && x != [] ==> Parent(x) in s
  }

  /** A tree a real filesystem can hold: the root exists, every entry lies
      in an existing directory and has a proper name, and no path is both a
      file and a directory. */
  ghost predicate WellFormed(t: Tree)
  {
    && [] in t.dirs
    && t.files !! t.dirs
    && PrefixClosed(t.dirs)
    && (forall d :: d in t.dirs && d != [] ==> IsName(Last(d)))
    && (forall f :: f in t.files ==> f != [] && Parent(f) in t.dirs && IsName(Last(f)))
  }

  /** The string `os.walk` yields for a directory (or joins for a file):
      the output directory, then one `os.path.join` per name. */
  function PathString(top: string, p: Path): string
    decreases |p|
  {
    if p == [] then top else Join(PathString(top, Parent(p)), Last(p))
  }

  /** Every component of `p` is a proper entry name. */
  predicate AllNames(p: Path)
  {
    forall i :: 0 <= i < |p| ==> IsName(p[i])
  }

  /** In a well-formed tree, every directory and every file is reached
      through proper names only. */
  lemma {:induction false} DirNames(t: Tree, d: Path)
    requires WellFormed(t) && d in t.dirs
    ensures AllNames(d)
    decreases |d|
  {
    if d != [] {
      DirNames(t, Parent(d));
      assert d == Parent(d) + [Last(d)];
    }
  }

  lemma FileNames(t: Tree, f: Path)
    requires WellFormed(t) && f in t.files
    ensures AllNames(f)
  {
    DirNames(t, Parent(f));
    assert f == Parent(f) + [Last(f)];
  }

  /** Each name adds at least one character, and a path string below the
      top never ends with a separator. */
  lemma {:induction false} PathStringShape(top: string, p: Path)
    requires AllNames(p)
    ensures |PathString(top, p)| >= |top| + |p|
    ensures p != [] ==> PathString(top, p)[|PathString(top, p)| - 1] != '/'
    decreases |p|
  {
    if p != [] {
      var b := Last(p);
      assert IsName(b) && b[0] in b && b[|b| - 1] in b;
      PathStringShape(top, Parent(p));
      JoinLast(PathString(top, Parent(p)), b);
    }
  }

  /** A path string is never another path string with a separator added:
      only the top itself can end with one, and it is the shortest. */
  lemma NoTrailingSlashVariant(top: string, p: Path, q: Path)
    requires AllNames(p) && AllNames(q)
    ensures PathString(top, p) + "/" != PathString(top, q)
  {
    var x1, x2 := PathString(top, p), PathString(top, q);
    PathStringShape(top, p);
    PathStringShape(top, q);
  }

  /** Below one top, paths of proper names have distinct path strings. */
  lemma {:induction false} PathStringInjective(top: string, p: Path, q: Path)
    requires AllNames(p) && AllNames(q)
    ensures PathString(top, p) == PathString(top, q) ==> p == q
    decreases |p| + |q|
  {
    if p == [] || q == [] {
      PathStringShape(top, p);
      PathStringShape(top, q);
    } else if PathString(top, p) == PathString(top, q) {
      PathStringStep(top, p, q);
      AllNamesParent(p);
      AllNamesParent(q);
      PathStringInjective(top, Parent(p), Parent(q));
      ParentAndLast(p);
      ParentAndLast(q);
    }
  }

  lemma ParentAndLast(p: Path)
    requires p != []
    ensures p == Parent(p) + [Last(p)]
  {
  }

  /** Equal path strings of non-empty paths end in the same name and come
      from equal path strings of the parents. */
  lemma PathStringStep(top: string, p: Path, q: Path)
    requires AllNames(p) && AllNames(q) && p != [] && q != []
    requires PathString(top, p) == PathString(top, q)
    ensures Last(p) == Last(q)
    ensures PathString(top, Parent(p)) == PathString(top, Parent(q))
  {
    var x1, x2 := PathString(top, Parent(p)), PathString(top, Parent(q));
    var b1, b2 := Last(p), Last(q);
    assert IsName(b1) && IsName(b2);
    assert Join(x1, b1) == Join(x2, b2);
    AllNamesParent(p);
    AllNamesParent(q);
    JoinNames(x1, b1, x2, b2);
    NoTrailingSlashVariant(top, Parent(p), Parent(q));
    NoTrailingSlashVariant(top, Parent(q), Parent(p));
  }

  lemma AllNamesParent(p: Path)
    requires AllNames(p) && p != []
    ensures AllNames(Parent(p))
  {
  }

  /** `os.rmdir` succeeds on `d` exactly when nothing lies directly in it. */
  predicate IsEmpty(t: Tree, d: Path)
  {
    && (forall f :: f in t.files ==> !ChildOf(f, d))
    && (forall c :: c in t.dirs ==> !ChildOf(c, d))
  }

  /** Members of `s` directly inside `d`. */
  function ChildrenIn(s: set<Path>, d: Path): set<Path>
  {
    set c | c in s && ChildOf(c, d)
  }

  lemma {:induction false} AncestorIn(s: set<Path>, x: Path, k: nat)
    requires PrefixClosed(s) && x in s && k <= |x|
    ensures x[..k] in s
    decreases |x| - k
  {
    if k < |x| {
      AncestorIn(s, x, k + 1);
      assert Parent(x[..k + 1]) == x[..k];
    } else {
      assert x[..k] == x;
    }
  }

  /** Every directory of `all` is visited or lies at or below a pending
      one. */
  ghost predicate Covered(all: set<Path>, walked: set<Path>, pending: set<Path>)
  {
    forall x :: x in all ==> x in walked || exists k :: 0 <= k <= |x| && x[..k] in pending
  }

  /** The bookkeeping of a top-down walk over the directories `all`:
      `walked` have been visited, `pending` are still to visit, a directory
      is visited or queued only after its parent was visited, and nothing
      of `all` is missed. */
  ghost predicate WalkInv(all: set<Path>, walked: set<Path>, pending: set<Path>)
  {
    && walked <= all
    && pending <= all
    && walked !! pending
    && (forall v :: v in walked && v != [] ==> Parent(v) in walked)
    && (forall v :: v in pending && v != [] ==> Parent(v) in walked)
    && Covered(all, walked, pending)
  }

  /** The walk starts at the root. */
  lemma WalkStart(all: set<Path>)
    requires [] in all
    ensures WalkInv(all, {}, {[]})
  {
    forall x | x in all
      ensures exists k :: 0 <= k <= |x| && x[..k] in {[]}
    {
      assert x[..0] == [];
    }
  }

  lemma CoveredStep(all: set<Path>, walked: set<Path>, pending: set<Path>, d: Path)
    requires PrefixClosed(all)
    requires Covered(all, walked, pending)
    requires d in pending
    ensures Covered(all, walked + {d}, pending - {d} + ChildrenIn(all, d))
  {
    var walked', pending' := walked + {d}, pending - {d} + ChildrenIn(all, d);
    forall x | x in all && x !in walked'
      ensures exists k :: 0 <= k <= |x| && x[..k] in pending'
    {
      var k :| 0 <= k <= |x| && x[..k] in pending;
      assert x[..|x|] == x;
      if x[..k] == d {
        assert k < |x|;
        AncestorIn(all, x, k + 1);
        assert Parent(x[..k + 1]) == x[..k];
        assert x[..k + 1] in pending';
      } else {
        assert x[..k] in pending';
      }
    }
  }

  /** Visiting a pending directory `d` and queueing all of its
      subdirectories in `all` keeps the walk's bookkeeping; `d` had not
      been visited before. */
  lemma WalkStep(all: set<Path>, walked: set<Path>, pending: set<Path>, d: Path)
    requires PrefixClosed(all)
    requires WalkInv(all, walked, pending)
    requires d in pending
    ensures d in all && d !in walked
    ensures WalkInv(all, walked + {d}, pending - {d} + ChildrenIn(all, d))
  {
    var walked', kids := walked + {d}, ChildrenIn(all, d);
    var pending' := pending - {d} + kids;
    forall c | c in kids
      ensures c in all && c !in walked' && Parent(c) in walked'
    {
      assert ChildOf(c, d);
    }
    forall v | v in pending' && v != []
      ensures Parent(v) in walked'
    {
      if v !in kids {
        assert v in pending;
      }
    }
    forall v | v in walked' && v != []
      ensures Parent(v) in walked'
    {
      if v != d {
        assert v in walked;
      }
    }
    assert walked' !! pending';
    CoveredStep(all, walked, pending, d);
  }

  /** When nothing is pending, the walk has visited every directory of
      `all`. */
  lemma WalkEnd(all: set<Path>, walked: set<Path>)
    requires WalkInv(all, walked, {})
    ensures walked == all
  {
  }
}
