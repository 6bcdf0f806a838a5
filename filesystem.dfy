/** The filesystem as the engine sees it, and the two primitives every action
    path shares (FileManager.py:2153-2185): delete with a boolean result, and
    the collision-free destination name. */
module FileSystem {
  import opened Strings
  import opened Paths

  datatype Kind = File | Directory

  /** What os.stat and open() report for one entry. `readable` is false when
      opening the file for reading fails; `locked` is true when removing it
      (to the trash or for good) fails. */
  datatype Node = Node(kind: Kind, size: nat, mtime: int, content: seq<bv8>, readable: bool, locked: bool)

  /** Every existing path with its entry: os.path.exists(p) is `p in fs`. */
  type FS = map<Path, Node>

  /** One (root, dirs, files) triple produced by os.walk. */
  datatype Listing = Listing(root: Path, dirs: seq<string>, files: seq<string>)

  /** What is left after p and everything inside it are removed. */
  function RemoveTree(fs: FS, p: Path): (r: FS)
    ensures forall k :: k in r <==> k in fs && !Under(k, p)
    ensures forall k :: k in r ==> r[k] == fs[k]
  {
    map k | k in fs && !Under(k, p) :: fs[k]
  }

  /** safe_delete(path) (FileManager.py:2153-2172): with a trash facility,
      send2trash moves the entry (fails when it is missing or cannot be
      moved); without one, a missing path counts as already deleted and an
      existing one is removed with everything inside it. Failures never
      escape: the result is a boolean, and a failed delete changes nothing. */
  function SafeDelete(fs: FS, p: Path, hasTrash: bool): (r: (bool, FS))
    ensures r.0 <==> (p in fs && !fs[p].locked) || (!hasTrash && p !in fs)
    ensures r.0 && p in fs ==> r.1 == RemoveTree(fs, p)
    ensures p !in fs || !r.0 ==> r.1 == fs
    ensures p in fs ==> (p !in r.1 <==> r.0)
  {
    if p !in fs then (!hasTrash, fs)
    else if fs[p].locked then (false, fs)
    else (true, RemoveTree(fs, p))
  }

  /** Deleting never adds or alters an entry: it only removes p's subtree. */
  lemma SafeDeleteOnlyRemoves(fs: FS, p: Path, hasTrash: bool)
    ensures SafeDelete(fs, p, hasTrash).1.Keys <= fs.Keys
    ensures forall k :: k in fs && !Under(k, p) ==> k in SafeDelete(fs, p, hasTrash).1
  {
  }

  // ---------------------------------------------------------------------
  // get_unique_filename (FileManager.py:2174-2185)
  // ---------------------------------------------------------------------

  /** The i-th alternative name: "base (i)ext". */
  function Candidate(path: Path, i: nat): Path {
    var (base, ext) := SplitExt(path);
    base + " (" + NatToString(i) + ")" + ext
  }

  /** Different counters give different names. */
  lemma CandidateInjective(path: Path, i: nat, j: nat)
    requires Candidate(path, i) == Candidate(path, j)
    ensures i == j
  {
    var (base, ext) := SplitExt(path);
    var si, sj := NatToString(i), NatToString(j);
    var ci, cj := base + " (" + si + ")" + ext, base + " (" + sj + ")" + ext;
    assert |si| == |sj|;
    assert ci[|base| + 2..|base| + 2 + |si|] == si;
    assert cj[|base| + 2..|base| + 2 + |sj|] == sj;
    NatToStringInjective(i, j);
  }

  /** r is what get_unique_filename(path) returns on fs: path itself when it
      is free, otherwise the first free "base (i)ext" counting from 1. */
  ghost predicate IsUniqueName(fs: FS, path: Path, r: Path) {
    if path !in fs then r == path
    else exists i: nat :: UniqueAt(fs, path, r, i)
  }

  ghost predicate UniqueAt(fs: FS, path: Path, r: Path, i: nat) {
    && i >= 1 && r == Candidate(path, i) && r !in fs
    && forall j: nat :: 1 <= j < i ==> Candidate(path, j) in fs
  }

  method GetUniqueFilename(fs: FS, path: Path) returns (r: Path)
    ensures r !in fs
    ensures path !in fs ==> r == path
    ensures path in fs ==> exists i: nat :: i >= 1 && r == Candidate(path, i)
                                            && forall j: nat :: 1 <= j < i ==> Candidate(path, j) in fs
  {
    if path !in fs {
      return path;
    }
    var i: nat := 1;
    ghost var taken: set<Path> := {};
    while true
      invariant i >= 1
      invariant forall j: nat :: 1 <= j < i ==> Candidate(path, j) in fs
      invariant taken == set j: nat | 1 <= j < i :: Candidate(path, j)
      invariant taken <= fs.Keys && |taken| == i - 1
      decreases |fs.Keys| - |taken|
    {
      var newPath := Candidate(path, i);
      if newPath !in fs {
        return newPath;
      }
      forall j: nat | 1 <= j < i ensures Candidate(path, j) != newPath {
        if Candidate(path, j) == newPath { CandidateInjective(path, j, i); }
      }
      assert newPath !in taken;
      assert taken + {newPath} == set j: nat | 1 <= j < i + 1 :: Candidate(path, j);
      taken := taken + {newPath};
      i := i + 1;
      assert taken <= fs.Keys;
      assert |taken| <= |fs.Keys| by { SubsetCard(taken, fs.Keys); }
    }
  }

  lemma SubsetCard<T>(a: set<T>, b: set<T>)
    requires a <= b
    ensures |a| <= |b|
  {
    assert b == a + (b - a);
  }

  /** Two calls on an unchanged filesystem give the same answer. */
  lemma UniqueNameDeterministic(fs: FS, path: Path, r1: Path, r2: Path)
    requires IsUniqueName(fs, path, r1) && IsUniqueName(fs, path, r2)
    ensures r1 == r2
  {
    if path in fs {
      var i1: nat :| UniqueAt(fs, path, r1, i1);
      var i2: nat :| UniqueAt(fs, path, r2, i2);
      assert i1 < i2 ==> Candidate(path, i1) in fs;
      assert i2 < i1 ==> Candidate(path, i2) in fs;
    }
  }

  /** Creating the suggested file and asking again yields a later counter. */
  lemma UniqueNameAfterCreate(fs: FS, path: Path, r1: Path, n: Node, r2: Path)
    requires IsUniqueName(fs, path, r1) && IsUniqueName(fs[r1 := n], path, r2)
    ensures r2 != r1
    ensures exists k: nat :: k >= 1 && r2 == Candidate(path, k)
                             && (path !in fs || exists i: nat :: 1 <= i < k && r1 == Candidate(path, i))
  {
    var fs2 := fs[r1 := n];
    if path !in fs {
      assert path in fs2;
      var k: nat :| UniqueAt(fs2, path, r2, k);
    } else {
      var i: nat :| UniqueAt(fs, path, r1, i);
      var k: nat :| UniqueAt(fs2, path, r2, k);
      assert k < i ==> Candidate(path, k) in fs;
      assert 1 <= i < k && r1 == Candidate(path, i);
    }
  }
}
