/** Python's list.sort(key=..., reverse=...) is a stable sort; reverse=True
    keeps equal elements in their original order too. Every such call in the
    engine is modelled as SortBy with a comparison `le` that says "a may come
    before b": key(a) <= key(b), or key(a) >= key(b) for reverse=True. */
module Sorting {

  ghost predicate TotalPreorder<T(!new)>(le: (T, T) -> bool) {
    && (forall a, b :: le(a, b) || le(b, a))
    && (forall a, b, c :: le(a, b) && le(b, c) ==> le(a, c))
  }

  ghost predicate SortedBy<T>(s: seq<T>, le: (T, T) -> bool) {
    forall i, j :: 0 <= i < j < |s| ==> le(s[i], s[j])
  }

  /** Puts x before the first element it may precede, so that x stays ahead of
      every element it ties with. */
  function Insert<T>(x: T, s: seq<T>, le: (T, T) -> bool): (r: seq<T>)
    ensures |r| == |s| + 1
    ensures multiset(r) == multiset(s) + multiset{x}
  {
    if s == [] || le(x, s[0]) then [x] + s
    else
      assert s == [s[0]] + s[1..];
      [s[0]] + Insert(x, s[1..], le)
  }

  /** Insertion sort: stable, like the library sort it stands for. */
  function SortBy<T>(xs: seq<T>, le: (T, T) -> bool): (r: seq<T>)
    ensures |r| == |xs|
    ensures multiset(r) == multiset(xs)
  {
    if xs == [] then []
    else
      assert xs == [xs[0]] + xs[1..];
      Insert(xs[0], SortBy(xs[1..], le), le)
  }

  lemma {:induction false} InsertSorted<T(!new)>(x: T, s: seq<T>, le: (T, T) -> bool)
    requires TotalPreorder(le) && SortedBy(s, le)
    ensures SortedBy(Insert(x, s, le), le)
  {
    if s != [] && !le(x, s[0]) {
      InsertSorted(x, s[1..], le);
      var r := Insert(x, s, le);
      var t := Insert(x, s[1..], le);
      assert r == [s[0]] + t;
      forall j | 1 <= j < |r| ensures le(r[0], r[j]) {
        assert r[j] in multiset(t);
        assert r[j] in multiset(s[1..]) + multiset{x};
        if r[j] == x {
          assert le(s[0], x);
        } else {
          assert r[j] in s[1..];
          var k :| 0 <= k < |s[1..]| && s[1..][k] == r[j];
          assert s[k + 1] == r[j];
        }
      }
    }
  }

  /** The sorted order is sorted and is a permutation of the input. */
  lemma {:induction false} SortBySorted<T(!new)>(xs: seq<T>, le: (T, T) -> bool)
    requires TotalPreorder(le)
    ensures SortedBy(SortBy(xs, le), le)
    ensures multiset(SortBy(xs, le)) == multiset(xs)
  {
    if xs != [] {
      SortBySorted(xs[1..], le);
      InsertSorted(xs[0], SortBy(xs[1..], le), le);
    }
  }

  /** The index of the first element that may precede every element. */
  function FirstLeast<T>(xs: seq<T>, le: (T, T) -> bool): (k: nat)
    requires xs != []
    ensures k < |xs|
  {
    if |xs| == 1 then 0
    else
      var k := FirstLeast(xs[1..], le);
      if le(xs[0], xs[1 + k]) then 0 else 1 + k
  }

  /** FirstLeast is a least element, and every element before it is strictly
      greater than it: ties are decided by original position. */
  lemma {:induction false} FirstLeastSpec<T(!new)>(xs: seq<T>, le: (T, T) -> bool)
    requires xs != [] && TotalPreorder(le)
    ensures forall j :: 0 <= j < |xs| ==> le(xs[FirstLeast(xs, le)], xs[j])
    ensures forall j :: 0 <= j < FirstLeast(xs, le) ==> !le(xs[j], xs[FirstLeast(xs, le)])
  {
    if |xs| > 1 {
      FirstLeastSpec(xs[1..], le);
      var k := FirstLeast(xs[1..], le);
      if le(xs[0], xs[1 + k]) {
        forall j | 0 <= j < |xs| ensures le(xs[0], xs[j]) {
          if j > 0 { assert xs[j] == xs[1..][j - 1]; }
        }
      } else {
        forall j | 0 <= j < |xs| ensures le(xs[1 + k], xs[j]) {
          if j > 0 { assert xs[j] == xs[1..][j - 1]; }
        }
        forall j | 0 <= j < 1 + k ensures !le(xs[j], xs[1 + k]) {
          if j > 0 { assert xs[j] == xs[1..][j - 1]; }
        }
      }
    }
  }

  lemma {:induction false} InsertHead<T>(x: T, s: seq<T>, le: (T, T) -> bool)
    ensures Insert(x, s, le)[0] == if s == [] || le(x, s[0]) then x else s[0]
  {
  }

  /** The element a stable sort puts first is the first least element. */
  lemma {:induction false} SortByHead<T(!new)>(xs: seq<T>, le: (T, T) -> bool)
    requires xs != []
    ensures SortBy(xs, le)[0] == xs[FirstLeast(xs, le)]
  {
    if |xs| > 1 {
      SortByHead(xs[1..], le);
      InsertHead(xs[0], SortBy(xs[1..], le), le);
    }
  }
}
