/** Path strings as Python's posixpath treats them. */
module Paths {

  /** True if `s` is an absolute path (starts with the separator). */
  predicate IsAbsolute(s: string)
  {
    |s| > 0 && s[0] == '/'
  }

  /** A single directory entry name as `os.listdir` returns it:
      non-empty, no separator, and neither `.` nor `..`. */
  predicate IsName(n: string)
  {
    n != [] && '/' !in n && n != "." && n != ".."
  }

  /** `os.path.join(a, b)` for two arguments (posixpath): an absolute `b`
      replaces `a`; otherwise one separator is inserted unless `a` is empty
      or already ends with one. */
  function Join(a: string, b: string): (r: string)
    ensures IsAbsolute(b) ==> r == b
    ensures !IsAbsolute(b) ==> |a| <= |r| && r[..|a|] == a
    ensures !IsAbsolute(b) ==> |b| <= |r| && r[|r| - |b|..] == b
    ensures !IsAbsolute(b) ==> |r| == |a| + |b| || (|r| == |a| + |b| + 1 && r[|a|] == '/')
    ensures !IsAbsolute(b) && a != [] ==> r[|r| - |b| - 1] == '/'
    ensures !IsAbsolute(b) ==> (|r| == |a| + |b| + 1 <==> a != "" && a[|a| - 1] != '/')
  {
    if IsAbsolute(b) then b
    else if a == "" || a[|a| - 1] == '/' then a + b
    else a + "/" + b
  }

  /** Joining different relative names onto the same directory never gives
      the same path: within one directory, a name and its joined path
      determine each other. */
  lemma JoinInjective(a: string, b1: string, b2: string)
    requires !IsAbsolute(b1) && !IsAbsolute(b2)
    requires Join(a, b1) == Join(a, b2)
    ensures b1 == b2
  {
    var r := Join(a, b1);
    if a == "" || a[|a| - 1] == '/' {
      assert r == a + b1 && r == a + b2;
      assert b1 == r[|a|..] == b2;
    } else {
      assert r == a + "/" + b1 && r == a + "/" + b2;
      assert b1 == r[|a| + 1..] == b2;
    }
  }

  /** The joined path ends with the last character of a non-empty relative
      second argument. */
  lemma JoinLast(a: string, b: string)
    requires b != [] && !IsAbsolute(b)
    ensures Join(a, b) != [] && Join(a, b)[|Join(a, b)| - 1] == b[|b| - 1]
  {
    var r := Join(a, b);
    assert r[|r| - |b|..][|b| - 1] == b[|b| - 1];
  }

  /** A joined name contains a separator exactly when the directory it is
      joined onto is not empty. */
  lemma JoinNameSlash(a: string, b: string)
    requires IsName(b)
    ensures '/' in Join(a, b) <==> a != ""
  {
    var r := Join(a, b);
    assert b[0] in b;
    if a != "" {
      assert r[|r| - |b| - 1] == '/';
    } else {
      assert r == b;
    }
  }

  /** The directory part of a join: `a` itself when it already ends with a
      separator, `a + "/"` otherwise. */
  function DirPart(a: string): (d: string)
    requires a != ""
    ensures d != "" && d[|d| - 1] == '/'
    ensures d == a || d == a + "/"
  {
    if a[|a| - 1] == '/' then a else a + "/"
  }

  lemma JoinDirPart(a: string, b: string)
    requires a != "" && IsName(b)
    ensures Join(a, b) == DirPart(a) + b
  {
    assert b[0] in b;
  }

  /** A string ending in `/` followed by a name without `/` splits in one
      way only. */
  lemma SlashSplit(d1: string, b1: string, d2: string, b2: string)
    requires d1 != "" && d1[|d1| - 1] == '/' && '/' !in b1
    requires d2 != "" && d2[|d2| - 1] == '/' && '/' !in b2
    requires d1 + b1 == d2 + b2
    ensures d1 == d2 && b1 == b2
  {
    var r := d1 + b1;
    assert forall i :: |d1| <= i < |r| ==> r[i] == b1[i - |d1|];
    assert forall i :: |d2| <= i < |r| ==> r[i] == b2[i - |d2|];
    assert r[|d1| - 1] == '/' && r[|d2| - 1] == '/';
    assert |d1| == |d2|;
    assert d1 == r[..|d1|] == d2;
    assert b1 == r[|d1|..] == b2;
  }

  /** Directories with the same directory part agree up to a trailing
      separator. */
  lemma DirPartAgree(a1: string, a2: string)
    requires a1 != "" && a2 != "" && DirPart(a1) == DirPart(a2)
    ensures a1 == a2 || a1 + "/" == a2 || a2 + "/" == a1
  {
    if DirPart(a1) == a1 + "/" && DirPart(a2) == a2 + "/" {
      assert a1 == (a1 + "/")[..|a1|] == (a2 + "/")[..|a2|] == a2;
    }
  }

  /** Two joins of proper names that give the same path join the same name,
      onto directories that agree up to a trailing separator. */
  lemma JoinNames(a1: string, b1: string, a2: string, b2: string)
    requires IsName(b1) && IsName(b2)
    requires Join(a1, b1) == Join(a2, b2)
    ensures b1 == b2
    ensures a1 == a2 || a1 + "/" == a2 || a2 + "/" == a1
  {
    JoinNameSlash(a1, b1);
    JoinNameSlash(a2, b2);
    if a1 == "" {
      JoinOntoEmpty(b1);
      JoinOntoEmpty(b2);
    } else {
      JoinDirPart(a1, b1);
      JoinDirPart(a2, b2);
      SlashSplit(DirPart(a1), b1, DirPart(a2), b2);
      DirPartAgree(a1, a2);
    }
  }

  lemma JoinOntoEmpty(b: string)
    requires IsName(b)
    ensures Join("", b) == b
  {
    assert b[0] in b;
  }
}
