/** POSIX path handling as Python's posixpath does it: join, basename,
    dirname and splitext, plus the "is inside" relation that recursive
    deletion removes. */
module Paths {
  import opened Strings

  type Path = string

  predicate IsPrefix(a: string, b: string) {
    |a| <= |b| && b[..|a|] == a
  }

  /** The index of the last occurrence of c in s, or -1. */
  function LastIndex(s: string, c: char): (r: int)
    ensures -1 <= r < |s|
    ensures r >= 0 ==> s[r] == c
    ensures forall k :: r < k < |s| ==> s[k] != c
  {
    if s == [] then -1
    else if s[|s| - 1] == c then |s| - 1
    else LastIndex(s[..|s| - 1], c)
  }

  /** The directory written so that a name can follow it directly. */
  function DirPrefix(p: Path): (r: Path)
    ensures IsPrefix(p, r)
    ensures r == [] || r[|r| - 1] == '/'
  {
    if p == [] || p[|p| - 1] == '/' then p else p + "/"
  }

  /** os.path.join(a, b). */
  function Join(a: Path, b: string): (r: Path)
    ensures b != [] && b[0] == '/' ==> r == b
    ensures !(b != [] && b[0] == '/') ==> r == DirPrefix(a) + b
  {
    if b != [] && b[0] == '/' then b else DirPrefix(a) + b
  }

  /** os.path.join(root, f) for each name of a listing. */
  function JoinAll(root: Path, names: seq<string>): (r: seq<Path>)
    ensures |r| == |names|
    ensures forall i :: 0 <= i < |names| ==> r[i] == Join(root, names[i])
  {
    if names == [] then []
    else JoinAll(root, names[..|names| - 1]) + [Join(root, names[|names| - 1])]
  }

  /** A name that os.listdir can return: non-empty and without a separator. */
  predicate IsName(n: string) {
    n != [] && '/' !in n
  }

  /** k is p itself or lies somewhere inside the directory p. */
  predicate Under(k: Path, p: Path) {
    k == p || (IsPrefix(DirPrefix(p), k) && |k| > |DirPrefix(p)|)
  }

  lemma UnderLonger(k: Path, p: Path)
    requires Under(k, p) && k != p
    ensures |k| > |p|
  {
  }

  lemma UnderTrans(a: Path, b: Path, c: Path)
    requires Under(a, b) && Under(b, c)
    ensures Under(a, c)
  {
    if a != b && b != c {
      var db, dc := DirPrefix(b), DirPrefix(c);
      assert a[..|dc|] == a[..|db|][..|dc|] == db[..|dc|] == b[..|dc|] == dc;
    }
  }

  /** Everything inside a child of p is inside p. */
  lemma {:induction false} UnderJoin(k: Path, p: Path, n: string)
    requires IsName(n) && Under(k, Join(p, n))
    ensures Under(k, p) && k != p
  {
    var q := Join(p, n);
    assert q == DirPrefix(p) + n;
    if k != q {
      assert DirPrefix(q) == q + "/";
      assert k[..|DirPrefix(p)|] == q[..|DirPrefix(p)|];
    }
  }

  /** A path strictly inside d + b, written as d + a, continues b with a separator. */
  lemma InsideChild(d: Path, a: string, b: string)
    requires b != [] && b[|b| - 1] != '/'
    requires Under(d + a, d + b) && d + a != d + b
    ensures |a| > |b| && a[|b|] == '/' && '/' in a
  {
    var ka, kb := d + a, d + b;
    assert DirPrefix(kb) == kb + "/";
    assert ka[|kb|] == (kb + "/")[|kb|];
    assert ka[|kb|] == a[|b|];
    assert a[|b|] in a;
  }

  /** Two different children of one directory have disjoint contents. */
  lemma SiblingsDisjoint(p: Path, a: string, b: string)
    requires IsName(a) && IsName(b) && a != b
    ensures !Under(Join(p, a), Join(p, b))
  {
    var d := DirPrefix(p);
    assert Join(p, a) == d + a && Join(p, b) == d + b;
    assert b[|b| - 1] in b;
    assert (d + a)[|d|..] == a && (d + b)[|d|..] == b;
    if d + a != d + b && Under(d + a, d + b) {
      InsideChild(d, a, b);
    }
  }

  /** A child lies inside its parent. */
  lemma ChildUnder(p: Path, n: string)
    requires IsName(n)
    ensures Under(Join(p, n), p) && Join(p, n) != p
  {
    UnderJoin(Join(p, n), p, n);
  }

  /** Nothing lies inside two different children of one directory. */
  lemma DisjointSubtrees(p: Path, a: string, b: string, k: Path)
    requires IsName(a) && IsName(b) && a != b && Under(k, Join(p, a))
    ensures !Under(k, Join(p, b))
  {
    var d := DirPrefix(p);
    var ka, kb := Join(p, a), Join(p, b);
    assert ka == d + a && kb == d + b;
    assert a[|a| - 1] in a && b[|b| - 1] in b;
    assert DirPrefix(ka) == ka + "/" && DirPrefix(kb) == kb + "/";
    if Under(k, kb) {
      var s := k[|d|..];
      assert InChild(s, a) by { ChildSegment(k, d, a); }
      assert InChild(s, b) by { ChildSegment(k, d, b); }
      SameSegment(s, a, b);
    }
  }

  /** s is the name n itself or continues it with a separator. */
  predicate InChild(s: string, n: string) {
    s == n || (|s| > |n| && s[..|n|] == n && s[|n|] == '/')
  }

  lemma ChildSegment(k: Path, d: Path, n: string)
    requires IsName(n) && (d == [] || d[|d| - 1] == '/')
    requires Under(k, d + n)
    ensures |k| >= |d| && InChild(k[|d|..], n)
  {
    var q := d + n;
    assert n[|n| - 1] in n;
    assert DirPrefix(q) == q + "/";
    if k != q {
      assert k[..|q| + 1] == q + "/";
      assert k[|d|..][..|n|] == k[|d|..|q|] == q[|d|..] == n;
      assert k[|d|..][|n|] == k[|q|] == '/';
    } else {
      assert k[|d|..] == n;
    }
  }

  lemma SameSegment(s: string, a: string, b: string)
    requires IsName(a) && IsName(b) && InChild(s, a) && InChild(s, b)
    ensures a == b
  {
    if |a| < |b| {
      assert false;
    } else if |b| < |a| {
      assert false;
    }
  }

  /** os.path.basename(p): what follows the last separator. */
  function Basename(p: Path): (r: string)
    ensures '/' !in r
    ensures |r| <= |p| && r == p[|p| - |r|..]
  {
    p[LastIndex(p, '/') + 1..]
  }

  function RStripSlashes(s: string): (r: string)
    ensures IsPrefix(r, s)
  {
    if s != [] && s[|s| - 1] == '/' then RStripSlashes(s[..|s| - 1]) else s
  }

  /** os.path.dirname(p): what precedes the last separator, trailing separators
      dropped unless the head is all separators. */
  function Dirname(p: Path): (r: Path)
    ensures |r| <= |p|
  {
    var head := p[..LastIndex(p, '/') + 1];
    var stripped := RStripSlashes(head);
    if head != [] && stripped != [] then stripped else head
  }

  /** os.path.splitext(p): (root, ext) with root + ext == p, where ext is the
      last dot and what follows it, provided the dot is in the last component
      and that component does not consist of dots up to it. */
  function SplitExt(p: Path): (r: (Path, string))
    ensures r.0 + r.1 == p
    ensures r.1 == [] || (r.1[0] == '.' && '/' !in r.1 && '.' !in r.1[1..])
    ensures r.1 != [] ==> exists k :: |p| - |r.1| > k > LastIndex(p, '/') && p[k] != '.'
    ensures r.1 != [] <==> LastIndex(p, '.') > LastIndex(p, '/')
                           && exists k :: LastIndex(p, '/') < k < LastIndex(p, '.') && p[k] != '.'
    ensures r.1 != [] ==> |r.0| == LastIndex(p, '.')
  {
    var sepIndex := LastIndex(p, '/');
    var dotIndex := LastIndex(p, '.');
    if dotIndex > sepIndex && exists k :: sepIndex < k < dotIndex && p[k] != '.' then
      assert p[dotIndex..][1..] == p[dotIndex + 1..];
      (p[..dotIndex], p[dotIndex..])
    else
      (p, "")
  }

  /** The extension part of a file name, os.path.splitext(name)[1]. */
  function Extension(name: string): string {
    SplitExt(name).1
  }
}
