/** The duplicate scan's dictionaries of lists (`files_by_size`,
    `files_by_mod_time`, `hashes`): a Python dict keeps its keys in insertion
    order, and `d[k].append(p)` / `d[k] = [p]` adds p to k's list. Modelled as
    a sequence of groups with distinct keys. */
module Groups {
  import opened Paths

  datatype Option<T> = None | Some(value: T)

  datatype Group<K> = Group(key: K, members: seq<Path>)

  function KeysOf<K(==)>(gs: seq<Group<K>>): set<K> {
    if gs == [] then {} else {gs[0].key} + KeysOf(gs[1..])
  }

  predicate DistinctKeys<K(==)>(gs: seq<Group<K>>) {
    gs == [] || (gs[0].key !in KeysOf(gs[1..]) && DistinctKeys(gs[1..]))
  }

  /** d.get(k, []) */
  function Lookup<K(==)>(gs: seq<Group<K>>, k: K): seq<Path> {
    if gs == [] then []
    else if gs[0].key == k then gs[0].members
    else Lookup(gs[1..], k)
  }

  /** All members of all groups, group after group. */
  function AllMembers<K>(gs: seq<Group<K>>): seq<Path> {
    if gs == [] then [] else gs[0].members + AllMembers(gs[1..])
  }

  /** `if k in d: d[k].append(p) else: d[k] = [p]` */
  function AddTo<K(==)>(gs: seq<Group<K>>, k: K, p: Path): seq<Group<K>> {
    if gs == [] then [Group(k, [p])]
    else if gs[0].key == k then [Group(k, gs[0].members + [p])] + gs[1..]
    else [gs[0]] + AddTo(gs[1..], k, p)
  }

  /** The dict built by adding the pairs one by one, in order. */
  function GroupPairs<K(==)>(items: seq<(K, Path)>): seq<Group<K>> {
    if items == [] then []
    else
      var last := items[|items| - 1];
      AddTo(GroupPairs(items[..|items| - 1]), last.0, last.1)
  }

  /** The paths paired with key k, in order. */
  function WithKey<K(==)>(items: seq<(K, Path)>, k: K): seq<Path> {
    if items == [] then []
    else
      var last := items[|items| - 1];
      WithKey(items[..|items| - 1], k) + (if last.0 == k then [last.1] else [])
  }

  function ItemPaths<K>(items: seq<(K, Path)>): (r: seq<Path>)
    ensures |r| == |items|
    ensures forall i :: 0 <= i < |items| ==> r[i] == items[i].1
  {
    if items == [] then [] else ItemPaths(items[..|items| - 1]) + [items[|items| - 1].1]
  }

  lemma {:induction false} AddToSpec<K>(gs: seq<Group<K>>, k: K, p: Path)
    requires DistinctKeys(gs)
    ensures DistinctKeys(AddTo(gs, k, p))
    ensures KeysOf(AddTo(gs, k, p)) == KeysOf(gs) + {k}
    ensures forall k' :: Lookup(AddTo(gs, k, p), k') == if k' == k then Lookup(gs, k) + [p] else Lookup(gs, k')
    ensures multiset(AllMembers(AddTo(gs, k, p))) == multiset(AllMembers(gs)) + multiset{p}
  {
    if gs != [] && gs[0].key != k {
      AddToSpec(gs[1..], k, p);
      var r := AddTo(gs, k, p);
      assert r[1..] == AddTo(gs[1..], k, p);
    } else if gs != [] {
      var r := AddTo(gs, k, p);
      assert r[1..] == gs[1..];
    }
  }

  /** Grouping keeps keys distinct and files each path under its own key, in
      order: the list for k is exactly the paths paired with k. */
  lemma {:induction false} GroupPairsSpec<K>(items: seq<(K, Path)>)
    ensures DistinctKeys(GroupPairs(items))
    ensures forall k :: Lookup(GroupPairs(items), k) == WithKey(items, k)
    ensures multiset(AllMembers(GroupPairs(items))) == multiset(ItemPaths(items))
  {
    if items != [] {
      var init := items[..|items| - 1];
      var last := items[|items| - 1];
      GroupPairsSpec(init);
      AddToSpec(GroupPairs(init), last.0, last.1);
    }
  }

  lemma {:induction false} LookupOfMember<K>(gs: seq<Group<K>>, g: Group<K>)
    requires DistinctKeys(gs) && g in gs
    ensures Lookup(gs, g.key) == g.members
  {
    if gs[0] != g {
      LookupOfMember(gs[1..], g);
      KeysOfContains(gs[1..], g);
    }
  }

  lemma {:induction false} KeysOfContains<K>(gs: seq<Group<K>>, g: Group<K>)
    requires g in gs
    ensures g.key in KeysOf(gs)
  {
    if gs[0] != g { KeysOfContains(gs[1..], g); }
  }

  lemma {:induction false} LookupHasGroup<K>(gs: seq<Group<K>>, k: K)
    requires Lookup(gs, k) != []
    ensures exists g :: g in gs && g.key == k && g.members == Lookup(gs, k)
  {
    if gs[0].key != k {
      LookupHasGroup(gs[1..], k);
      var g :| g in gs[1..] && g.key == k && g.members == Lookup(gs[1..], k);
      assert g in gs;
    }
  }

  lemma {:induction false} WithKeyContains<K>(items: seq<(K, Path)>, k: K, x: Path)
    ensures x in WithKey(items, k) <==> (k, x) in items
  {
    if items != [] {
      var init := items[..|items| - 1];
      WithKeyContains(init, k, x);
      assert items == init + [items[|items| - 1]];
    }
  }

  /** Every member of a group was paired with that group's key. */
  lemma GroupMember<K>(items: seq<(K, Path)>, g: Group<K>, x: Path)
    requires g in GroupPairs(items) && x in g.members
    ensures (g.key, x) in items
  {
    GroupPairsSpec(items);
    LookupOfMember(GroupPairs(items), g);
    WithKeyContains(items, g.key, x);
  }

  /** Two different paths paired with one key end up in one group of two or more. */
  lemma SharedGroup<K>(items: seq<(K, Path)>, k: K, x: Path, y: Path)
    requires (k, x) in items && (k, y) in items && x != y
    ensures exists g :: g in GroupPairs(items) && g.key == k && x in g.members && y in g.members
                        && |g.members| > 1
  {
    GroupPairsSpec(items);
    WithKeyContains(items, k, x);
    WithKeyContains(items, k, y);
    LookupHasGroup(GroupPairs(items), k);
    var g :| g in GroupPairs(items) && g.key == k && g.members == Lookup(GroupPairs(items), k);
    TwoMembers(g.members, x, y);
  }

  lemma TwoMembers(s: seq<Path>, x: Path, y: Path)
    requires x in s && y in s && x != y
    ensures |s| > 1
  {
  }

  lemma {:induction false} AllMembersAppend<K>(a: seq<Group<K>>, b: seq<Group<K>>)
    ensures AllMembers(a + b) == AllMembers(a) + AllMembers(b)
  {
    if a != [] {
      assert (a + b)[0] == a[0] && (a + b)[1..] == a[1..] + b;
      AllMembersAppend(a[1..], b);
    } else {
      assert a + b == b;
    }
  }

  lemma {:induction false} ItemPathsAppend<K>(a: seq<(K, Path)>, b: seq<(K, Path)>)
    ensures ItemPaths(a + b) == ItemPaths(a) + ItemPaths(b)
  {
    assert |ItemPaths(a + b)| == |ItemPaths(a) + ItemPaths(b)|;
    forall i | 0 <= i < |a + b| ensures ItemPaths(a + b)[i] == (ItemPaths(a) + ItemPaths(b))[i] {
      if i < |a| { assert (a + b)[i] == a[i]; } else { assert (a + b)[i] == b[i - |a|]; }
    }
  }
}
