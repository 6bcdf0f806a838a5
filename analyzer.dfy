/** analyzer_scan_logic (FileManager.py:1633-1717): walk the source directory
    bottom-up, total each folder's size and item count from its own files and
    its subfolders' stored totals, and list every folder (and, if asked,
    every file) that passes the filters. */
module Analyzer {
  import opened Strings
  import opened Paths
  import opened Groups
  import opened Messages
  import opened Cancellation

  /** A file name os.walk lists, with what os.path.getsize answers for it:
      None when the call raises and the file is skipped. */
  datatype FileEntry = FileEntry(name: string, size: Option<nat>)

  /** One (root, dirs, files) triple of os.walk(source, topdown=False). */
  datatype Visit = Visit(root: Path, dirs: seq<string>, files: seq<FileEntry>)

  // ---------------------------------------------------------------------
  // check_filters (FileManager.py:1641-1656)
  // ---------------------------------------------------------------------

  /** One filter: absent, "greater than" a limit, or "less than" it. Sizes are
      in whole bytes. */
  datatype Bound = Unset | GreaterThan(limit: int) | LessThan(limit: int)

  /** filters['size'] and filters['items']. */
  datatype Filters = Filters(size: Bound, items: Bound)

  const NoFilters := Filters(Unset, Unset)

  /** check_filters(item_size, item_count, is_file): each filter that is set
      must hold strictly, and the item filter is not applied to files. */
  function CheckFilters(f: Filters, itemSize: int, itemCount: int, isFile: bool): (ok: bool)
    ensures ok <==> (f.size.GreaterThan? ==> itemSize > f.size.limit)
                    && (f.size.LessThan? ==> itemSize < f.size.limit)
                    && (!isFile && f.items.GreaterThan? ==> itemCount > f.items.limit)
                    && (!isFile && f.items.LessThan? ==> itemCount < f.items.limit)
    ensures f == NoFilters ==> ok
  {
    if f.size.GreaterThan? && !(itemSize > f.size.limit) then false
    else if f.size.LessThan? && !(itemSize < f.size.limit) then false
    else if !isFile && f.items.GreaterThan? && !(itemCount > f.items.limit) then false
    else if !isFile && f.items.LessThan? && !(itemCount < f.items.limit) then false
    else true
  }

  /** For a file only the size filter counts: the verdict is the one a
      folder with no item filter would get, whatever its count. */
  lemma FileIgnoresItems(f: Filters, itemSize: int, itemCount: int, anyCount: int)
    ensures CheckFilters(f, itemSize, itemCount, true) == CheckFilters(Filters(f.size, Unset), itemSize, anyCount, false)
  {
  }

  // ---------------------------------------------------------------------
  // One visit
  // ---------------------------------------------------------------------

  /** folder_data's record: bytes and files below a folder. */
  datatype Totals = Totals(size: nat, items: nat)

  const Zero := Totals(0, 0)

  function Plus(a: Totals, b: Totals): Totals {
    Totals(a.size + b.size, a.items + b.items)
  }

  type FolderData = map<Path, Totals>

  /** file_size_total and file_count: the files getsize answered for. */
  function FilesTotals(files: seq<FileEntry>): Totals {
    if files == [] then Zero
    else
      var f := files[|files| - 1];
      Plus(FilesTotals(files[..|files| - 1]), if f.size.Some? then Totals(f.size.value, 1) else Zero)
  }

  /** folder_data.get(join(root, d)) for each d in dirs, a missing entry
      counting as zero. */
  function SubdirTotals(data: FolderData, root: Path, dirs: seq<string>): Totals {
    if dirs == [] then Zero
    else
      var p := Join(root, dirs[|dirs| - 1]);
      Plus(SubdirTotals(data, root, dirs[..|dirs| - 1]), if p in data then data[p] else Zero)
  }

  /** my_size and my_items. */
  function VisitTotals(data: FolderData, v: Visit): Totals {
    Plus(FilesTotals(v.files), SubdirTotals(data, v.root, v.dirs))
  }

  /** The rows of the files of one folder that pass the filters. */
  function FileRows(root: Path, files: seq<FileEntry>, filters: Filters): seq<Row> {
    if files == [] then []
    else
      var f := files[|files| - 1];
      FileRows(root, files[..|files| - 1], filters)
      + (if f.size.Some? && CheckFilters(filters, f.size.value, 1, true)
         then [AnalyzerFileRow(f.name, root, f.size.value)] else [])
  }

  /** The row of a folder: its name, its parent, and its totals. */
  function FolderRow(root: Path, t: Totals): Row {
    AnalyzerFolderRow(Basename(root), Dirname(root), t.size, t.items)
  }

  /** The rows one visit adds: its matching files when files are included,
      then the folder itself unless it is the source folder or fails the
      filters. */
  function RowsFor(root: Path, files: seq<FileEntry>, t: Totals, source: Path, includeFiles: bool,
                   filters: Filters): seq<Row>
  {
    (if includeFiles then FileRows(root, files, filters) else [])
    + (if root != source && CheckFilters(filters, t.size, t.items, false) then [FolderRow(root, t)] else [])
  }

  function VisitRows(data: FolderData, v: Visit, source: Path, includeFiles: bool, filters: Filters): seq<Row> {
    RowsFor(v.root, v.files, VisitTotals(data, v), source, includeFiles, filters)
  }

  // ---------------------------------------------------------------------
  // The walk, as folder_data and the rows after each visit
  // ---------------------------------------------------------------------

  /** What a visit records for its folder, and what it lists, given
      folder_data before it. The folds below take them as parameters, so
      that what holds of every fold is proved once for any visit rule. */
  type TotalsOf = (FolderData, Visit) -> Totals
  type RowsOf = (FolderData, Visit) -> seq<Row>

  /** The worker's rule for totals: my_size and my_items. */
  const Tallied: TotalsOf := (d: FolderData, v: Visit) => VisitTotals(d, v)

  /** The worker's rule for rows. */
  function Listed(source: Path, includeFiles: bool, filters: Filters): RowsOf {
    (d: FolderData, v: Visit) => VisitRows(d, v, source, includeFiles, filters)
  }

  /** folder_data after the visits, starting from d0. */
  function Aggregate(d0: FolderData, walk: seq<Visit>, totalsOf: TotalsOf): FolderData {
    if walk == [] then d0
    else
      var d := Aggregate(d0, walk[..|walk| - 1], totalsOf);
      var v := walk[|walk| - 1];
      d[v.root := totalsOf(d, v)]
  }

  /** All rows the visits add, in order. */
  function WalkRows(d0: FolderData, walk: seq<Visit>, totalsOf: TotalsOf, rowsOf: RowsOf): seq<Row> {
    if walk == [] then []
    else
      var init := walk[..|walk| - 1];
      WalkRows(d0, init, totalsOf, rowsOf) + rowsOf(Aggregate(d0, init, totalsOf), walk[|walk| - 1])
  }

  lemma {:induction false} AggregateAppend(d0: FolderData, a: seq<Visit>, b: seq<Visit>, totalsOf: TotalsOf)
    ensures Aggregate(d0, a + b, totalsOf) == Aggregate(Aggregate(d0, a, totalsOf), b, totalsOf)
  {
    if b == [] {
      assert a + b == a;
    } else {
      assert (a + b)[..|a + b| - 1] == a + b[..|b| - 1];
      AggregateAppend(d0, a, b[..|b| - 1], totalsOf);
    }
  }

  lemma {:induction false} WalkRowsAppend(d0: FolderData, a: seq<Visit>, b: seq<Visit>, totalsOf: TotalsOf,
                                          rowsOf: RowsOf)
    ensures WalkRows(d0, a + b, totalsOf, rowsOf)
            == WalkRows(d0, a, totalsOf, rowsOf) + WalkRows(Aggregate(d0, a, totalsOf), b, totalsOf, rowsOf)
  {
    if b == [] {
      assert a + b == a;
    } else {
      var b' := b[..|b| - 1];
      assert (a + b)[..|a + b| - 1] == a + b';
      WalkRowsAppend(d0, a, b', totalsOf, rowsOf);
      AggregateAppend(d0, a, b', totalsOf);
    }
  }

  /** A single visit records its totals and lists its rows. */
  lemma OneVisit(d: FolderData, v: Visit, totalsOf: TotalsOf, rowsOf: RowsOf)
    ensures Aggregate(d, [v], totalsOf) == d[v.root := totalsOf(d, v)]
    ensures WalkRows(d, [v], totalsOf, rowsOf) == rowsOf(d, v)
  {
    assert [v][..0] == [];
  }

  // ---------------------------------------------------------------------
  // The directory tree, and the recursive totals it defines
  // ---------------------------------------------------------------------

  /** A directory os.walk enters, with its files and its subdirectory entries
      in listing order, or a subdirectory it lists but does not enter (a
      symbolic link, or one it cannot read). */
  datatype Tree = Dir(name: string, files: seq<FileEntry>, entries: seq<Tree>) | Unwalked(name: string)

  function Names(es: seq<Tree>): (r: seq<string>)
    ensures |r| == |es|
    ensures forall i :: 0 <= i < |es| ==> r[i] == es[i].name
  {
    if es == [] then [] else Names(es[..|es| - 1]) + [es[|es| - 1].name]
  }

  /** Entry names are real names, distinct within their directory. */
  predicate WellFormed(t: Tree)
    decreases t
  {
    t.Dir? ==>
      && (forall i :: 0 <= i < |t.entries| ==> IsName(t.entries[i].name))
      && (forall i, j :: 0 <= i < j < |t.entries| ==> t.entries[i].name != t.entries[j].name)
      && forall i :: 0 <= i < |t.entries| ==> WellFormed(t.entries[i])
  }

  /** A folder's size is its own files plus its subfolders' sizes, and so is
      its item count; a folder never entered counts as nothing. */
  function Agg(t: Tree): Totals
    decreases t
  {
    match t
    case Unwalked(_) => Zero
    case Dir(_, files, es) => Plus(FilesTotals(files), AggAll(es))
  }

  function AggAll(es: seq<Tree>): Totals
    decreases es
  {
    if es == [] then Zero else Plus(AggAll(es[..|es| - 1]), Agg(es[|es| - 1]))
  }

  /** os.walk(p, topdown=False): every subdirectory's walk, in order, then p. */
  function PostOrder(t: Tree, p: Path): seq<Visit>
    decreases t
  {
    match t
    case Unwalked(_) => []
    case Dir(_, files, es) => PostOrderAll(es, p) + [Visit(p, Names(es), files)]
  }

  function PostOrderAll(es: seq<Tree>, p: Path): seq<Visit>
    decreases es
  {
    if es == [] then []
    else PostOrderAll(es[..|es| - 1], p) + PostOrder(es[|es| - 1], Join(p, es[|es| - 1].name))
  }

  /** The rows a recursive definition lists for the tree at p: the
      subfolders' rows, then the folder's files, then the folder itself with
      its recursive totals, skipped for the source folder. */
  function TreeRows(t: Tree, p: Path, source: Path, includeFiles: bool, filters: Filters): seq<Row>
    decreases t
  {
    match t
    case Unwalked(_) => []
    case Dir(_, files, es) =>
      EntriesRows(es, p, source, includeFiles, filters) + RowsFor(p, files, Agg(t), source, includeFiles, filters)
  }

  function EntriesRows(es: seq<Tree>, p: Path, source: Path, includeFiles: bool, filters: Filters): seq<Row>
    decreases es
  {
    if es == [] then []
    else
      var e := es[|es| - 1];
      EntriesRows(es[..|es| - 1], p, source, includeFiles, filters) + TreeRows(e, Join(p, e.name), source, includeFiles, filters)
  }

  // ---------------------------------------------------------------------
  // The loop agrees with the recursive definition
  // ---------------------------------------------------------------------

  /** No recorded folder lies inside p. */
  predicate Fresh(d: FolderData, p: Path) {
    forall k :: k in d ==> !Under(k, p)
  }

  /** k lies inside the entry of es it belongs to. */
  predicate InEntry(k: Path, p: Path, es: seq<Tree>) {
    exists i :: 0 <= i < |es| && es[i].Dir? && Under(k, Join(p, es[i].name))
  }

  predicate EntryNames(es: seq<Tree>) {
    && (forall i :: 0 <= i < |es| ==> IsName(es[i].name))
    && (forall i, j :: 0 <= i < j < |es| ==> es[i].name != es[j].name)
  }

  /** A visit that is not of folder k leaves k's record as it was. */
  lemma {:induction false} AggregateFrame(d0: FolderData, w: seq<Visit>, totalsOf: TotalsOf, k: Path)
    requires forall i :: 0 <= i < |w| ==> w[i].root != k
    ensures k in Aggregate(d0, w, totalsOf) <==> k in d0
    ensures k in d0 ==> Aggregate(d0, w, totalsOf)[k] == d0[k]
  {
    if w != [] {
      var init := w[..|w| - 1];
      assert forall i :: 0 <= i < |init| ==> init[i] == w[i];
      AggregateFrame(d0, init, totalsOf, k);
    }
  }

  /** Every record the visits add is of a folder one of them visits. */
  lemma {:induction false} AggregateWrites(d0: FolderData, w: seq<Visit>, totalsOf: TotalsOf, k: Path)
    requires k in Aggregate(d0, w, totalsOf) && k !in d0
    ensures exists i :: 0 <= i < |w| && w[i].root == k
  {
    var init := w[..|w| - 1];
    if k != w[|w| - 1].root {
      AggregateWrites(d0, init, totalsOf, k);
      var i :| 0 <= i < |init| && init[i].root == k;
      assert w[i] == init[i];
    }
  }

  /** Every folder the walk of the tree at p visits lies inside p. */
  lemma {:induction false} TreeRoots(t: Tree, p: Path)
    requires WellFormed(t)
    ensures forall n :: 0 <= n < |PostOrder(t, p)| ==> Under(PostOrder(t, p)[n].root, p)
    decreases t, 1
  {
    if t.Dir? {
      var es := t.entries;
      var inner := PostOrderAll(es, p);
      EntriesRoots(es, p);
      forall n | 0 <= n < |PostOrder(t, p)| ensures Under(PostOrder(t, p)[n].root, p) {
        if n < |inner| {
          assert PostOrder(t, p)[n] == inner[n];
          EntryUnder(inner[n].root, p, es);
        }
      }
    }
  }

  /** Every folder the walks of a directory's entries visit lies inside an
      entry that is walked. */
  lemma {:induction false} EntriesRoots(es: seq<Tree>, p: Path)
    requires EntryNames(es) && forall i :: 0 <= i < |es| ==> WellFormed(es[i])
    ensures forall n :: 0 <= n < |PostOrderAll(es, p)| ==> InEntry(PostOrderAll(es, p)[n].root, p, es)
    decreases es, 0
  {
    if es != [] {
      var init, e := es[..|es| - 1], es[|es| - 1];
      var q := Join(p, e.name);
      var a: seq<Visit>, b: seq<Visit> := PostOrderAll(init, p), PostOrder(e, q);
      assert forall i :: 0 <= i < |init| ==> init[i] == es[i];
      EntriesRoots(init, p);
      TreeRoots(e, q);
      forall n | 0 <= n < |a + b| ensures InEntry((a + b)[n].root, p, es) {
        if n < |a| {
          assert (a + b)[n] == a[n];
          var j :| 0 <= j < |init| && init[j].Dir? && Under(a[n].root, Join(p, init[j].name));
          assert es[j] == init[j];
        } else {
          assert (a + b)[n] == b[n - |a|];
          assert es[|es| - 1] == e && e.Dir?;
        }
      }
    }
  }

  /** Walking the tree at p keeps every earlier record outside p, writes only
      p and folders inside it, and records p. */
  lemma TreeKeys(t: Tree, p: Path, d0: FolderData, totalsOf: TotalsOf)
    requires t.Dir? && WellFormed(t) && Fresh(d0, p)
    ensures var d := Aggregate(d0, PostOrder(t, p), totalsOf);
            && p in d
            && (forall k :: k in d0 ==> k in d && d[k] == d0[k])
            && (forall k :: k in d ==> k in d0 || Under(k, p))
  {
    var w := PostOrder(t, p);
    var inner := PostOrderAll(t.entries, p);
    var v := Visit(p, Names(t.entries), t.files);
    TreeRoots(t, p);
    assert w == inner + [v];
    AggregateAppend(d0, inner, [v], totalsOf);
    OneVisit(Aggregate(d0, inner, totalsOf), v, totalsOf, Listed(p, false, NoFilters));
    forall k | k in d0 ensures k in Aggregate(d0, w, totalsOf) && Aggregate(d0, w, totalsOf)[k] == d0[k] {
      AggregateFrame(d0, w, totalsOf, k);
    }
    forall k | k in Aggregate(d0, w, totalsOf) ensures k in d0 || Under(k, p) {
      if k !in d0 {
        AggregateWrites(d0, w, totalsOf, k);
      }
    }
  }

  /** The walks of a directory's entries keep every earlier record outside
      the directory and write only inside walked entries. */
  lemma EntriesKeys(es: seq<Tree>, p: Path, d0: FolderData, totalsOf: TotalsOf)
    requires EntryNames(es) && (forall i :: 0 <= i < |es| ==> WellFormed(es[i])) && Fresh(d0, p)
    ensures var d := Aggregate(d0, PostOrderAll(es, p), totalsOf);
            && (forall k :: k in d0 ==> k in d && d[k] == d0[k])
            && (forall k :: k in d ==> k in d0 || InEntry(k, p, es))
  {
    var w := PostOrderAll(es, p);
    EntriesRoots(es, p);
    forall k | k in d0 ensures k in Aggregate(d0, w, totalsOf) && Aggregate(d0, w, totalsOf)[k] == d0[k] {
      forall n | 0 <= n < |w| ensures w[n].root != k {
        EntryUnder(w[n].root, p, es);
      }
      AggregateFrame(d0, w, totalsOf, k);
    }
    forall k | k in Aggregate(d0, w, totalsOf) ensures k in d0 || InEntry(k, p, es) {
      if k !in d0 {
        AggregateWrites(d0, w, totalsOf, k);
      }
    }
  }

  /** The walks of a directory's entries never record an entry they do not
      enter. */
  lemma EntriesUnwalked(es: seq<Tree>, p: Path, d0: FolderData, totalsOf: TotalsOf)
    requires EntryNames(es) && (forall i :: 0 <= i < |es| ==> WellFormed(es[i])) && Fresh(d0, p)
    ensures var d := Aggregate(d0, PostOrderAll(es, p), totalsOf);
            forall i :: 0 <= i < |es| && es[i].Unwalked? ==> Join(p, es[i].name) !in d
  {
    var w := PostOrderAll(es, p);
    EntriesRoots(es, p);
    forall i | 0 <= i < |es| && es[i].Unwalked? ensures Join(p, es[i].name) !in Aggregate(d0, w, totalsOf) {
      var r := Join(p, es[i].name);
      ChildUnder(p, es[i].name);
      if r in Aggregate(d0, w, totalsOf) {
        AggregateWrites(d0, w, totalsOf, r);
        var n :| 0 <= n < |w| && w[n].root == r;
        var j :| 0 <= j < |es| && es[j].Dir? && Under(r, Join(p, es[j].name));
        DisjointSubtrees(p, es[j].name, es[i].name, r);
      }
    }
  }

  /** After the walks of all entries but the last, nothing recorded lies
      inside the last one. */
  lemma FreshLast(es: seq<Tree>, p: Path, d0: FolderData, totalsOf: TotalsOf)
    requires es != [] && EntryNames(es) && (forall i :: 0 <= i < |es| ==> WellFormed(es[i])) && Fresh(d0, p)
    ensures var init := es[..|es| - 1];
            && EntryNames(init) && (forall i :: 0 <= i < |init| ==> WellFormed(init[i]))
            && Fresh(Aggregate(d0, PostOrderAll(init, p), totalsOf), Join(p, es[|es| - 1].name))
            && PostOrderAll(es, p) == PostOrderAll(init, p) + PostOrder(es[|es| - 1], Join(p, es[|es| - 1].name))
  {
    var init, e := es[..|es| - 1], es[|es| - 1];
    var q := Join(p, e.name);
    assert forall i :: 0 <= i < |init| ==> init[i] == es[i];
    EntriesKeys(init, p, d0, totalsOf);
    var d1 := Aggregate(d0, PostOrderAll(init, p), totalsOf);
    forall k | k in d1 ensures !Under(k, q) {
      if k in d0 {
        if Under(k, q) { UnderJoin(k, p, e.name); }
      } else {
        var i :| 0 <= i < |init| && init[i].Dir? && Under(k, Join(p, init[i].name));
        DisjointSubtrees(p, init[i].name, e.name, k);
      }
    }
  }

  /** Walking the tree at p from a table with nothing inside p records p's
      recursive totals. */
  lemma {:induction false} TreeValue(t: Tree, p: Path, d0: FolderData)
    requires t.Dir? && WellFormed(t) && Fresh(d0, p)
    ensures var d := Aggregate(d0, PostOrder(t, p), Tallied);
            p in d && d[p] == Agg(t)
    decreases t, 1
  {
    var es := t.entries;
    var inner := PostOrderAll(es, p);
    var v := Visit(p, Names(es), t.files);
    EntriesValues(es, p, d0);
    EntriesUnwalked(es, p, d0, Tallied);
    var d := Aggregate(d0, inner, Tallied);
    SubdirsMatch(d, p, es, |es|);
    assert Names(es)[..|es|] == Names(es) && es[..|es|] == es;
    ClosingVisit(d, t, p, p, false, NoFilters);
    assert PostOrder(t, p) == inner + [v];
    AggregateAppend(d0, inner, [v], Tallied);
  }

  /** The walks of a directory's entries record every entered entry with its
      recursive totals. */
  lemma {:induction false} EntriesValues(es: seq<Tree>, p: Path, d0: FolderData)
    requires EntryNames(es) && (forall i :: 0 <= i < |es| ==> WellFormed(es[i])) && Fresh(d0, p)
    ensures var d := Aggregate(d0, PostOrderAll(es, p), Tallied);
            forall i :: 0 <= i < |es| && es[i].Dir? ==> Join(p, es[i].name) in d && d[Join(p, es[i].name)] == Agg(es[i])
    decreases es, 0
  {
    if es != [] {
      var init, e := es[..|es| - 1], es[|es| - 1];
      var q := Join(p, e.name);
      var w := PostOrder(e, q);
      FreshLast(es, p, d0, Tallied);
      EntriesValues(init, p, d0);
      var d1 := Aggregate(d0, PostOrderAll(init, p), Tallied);
      AggregateAppend(d0, PostOrderAll(init, p), w, Tallied);
      var d := Aggregate(d0, PostOrderAll(es, p), Tallied);
      assert d == Aggregate(d1, w, Tallied);
      if e.Dir? {
        TreeKeys(e, q, d1, Tallied);
        TreeValue(e, q, d1);
      } else {
        assert w == [];
      }
      assert forall i :: 0 <= i < |init| ==> init[i] == es[i];
      ValuesKept(es, p, d1, d);
    }
  }

  /** The entries before the last keep the totals recorded for them, and the
      last adds its own. */
  lemma ValuesKept(es: seq<Tree>, p: Path, d1: FolderData, d: FolderData)
    requires es != []
    requires forall i :: 0 <= i < |es| - 1 && es[i].Dir? ==> Join(p, es[i].name) in d1 && d1[Join(p, es[i].name)] == Agg(es[i])
    requires forall k :: k in d1 ==> k in d && d[k] == d1[k]
    requires es[|es| - 1].Dir? ==> Join(p, es[|es| - 1].name) in d && d[Join(p, es[|es| - 1].name)] == Agg(es[|es| - 1])
    ensures forall i :: 0 <= i < |es| && es[i].Dir? ==> Join(p, es[i].name) in d && d[Join(p, es[i].name)] == Agg(es[i])
  {
  }

  /** Walking the tree at p from a table with nothing inside p lists exactly
      the recursive definition's rows. */
  lemma {:induction false} TreeListing(t: Tree, p: Path, d0: FolderData, source: Path, includeFiles: bool,
                                       filters: Filters)
    requires t.Dir? && WellFormed(t) && Fresh(d0, p)
    ensures WalkRows(d0, PostOrder(t, p), Tallied, Listed(source, includeFiles, filters))
            == TreeRows(t, p, source, includeFiles, filters)
    decreases t, 1
  {
    var es := t.entries;
    var inner := PostOrderAll(es, p);
    var v := Visit(p, Names(es), t.files);
    EntriesListing(es, p, d0, source, includeFiles, filters);
    EntriesValues(es, p, d0);
    EntriesUnwalked(es, p, d0, Tallied);
    var d := Aggregate(d0, inner, Tallied);
    SubdirsMatch(d, p, es, |es|);
    assert Names(es)[..|es|] == Names(es) && es[..|es|] == es;
    ClosingVisit(d, t, p, source, includeFiles, filters);
    assert PostOrder(t, p) == inner + [v];
    WalkRowsAppend(d0, inner, [v], Tallied, Listed(source, includeFiles, filters));
  }

  /** The walks of a directory's entries list exactly the entries' rows. */
  lemma {:induction false} EntriesListing(es: seq<Tree>, p: Path, d0: FolderData, source: Path, includeFiles: bool,
                                          filters: Filters)
    requires EntryNames(es) && (forall i :: 0 <= i < |es| ==> WellFormed(es[i])) && Fresh(d0, p)
    ensures WalkRows(d0, PostOrderAll(es, p), Tallied, Listed(source, includeFiles, filters))
            == EntriesRows(es, p, source, includeFiles, filters)
    decreases es, 0
  {
    if es != [] {
      var init, e := es[..|es| - 1], es[|es| - 1];
      var q := Join(p, e.name);
      var w := PostOrder(e, q);
      FreshLast(es, p, d0, Tallied);
      EntriesListing(init, p, d0, source, includeFiles, filters);
      var d1 := Aggregate(d0, PostOrderAll(init, p), Tallied);
      WalkRowsAppend(d0, PostOrderAll(init, p), w, Tallied, Listed(source, includeFiles, filters));
      if e.Dir? {
        TreeListing(e, q, d1, source, includeFiles, filters);
      } else {
        assert w == [];
      }
    }
  }

  /** The directory's own visit, once its subfolders are recorded. */
  lemma ClosingVisit(d: FolderData, t: Tree, p: Path, source: Path, includeFiles: bool, filters: Filters)
    requires t.Dir? && SubdirTotals(d, p, Names(t.entries)) == AggAll(t.entries)
    ensures var v := Visit(p, Names(t.entries), t.files);
            && Aggregate(d, [v], Tallied) == d[p := Agg(t)]
            && WalkRows(d, [v], Tallied, Listed(source, includeFiles, filters))
               == RowsFor(p, t.files, Agg(t), source, includeFiles, filters)
  {
    OneVisit(d, Visit(p, Names(t.entries), t.files), Tallied, Listed(source, includeFiles, filters));
  }

  /** Whatever lies inside an entry lies inside the directory. */
  lemma EntryUnder(k: Path, p: Path, es: seq<Tree>)
    requires EntryNames(es) && InEntry(k, p, es)
    ensures Under(k, p)
  {
    var i :| 0 <= i < |es| && es[i].Dir? && Under(k, Join(p, es[i].name));
    UnderJoin(k, p, es[i].name);
  }

  /** Once every entered subfolder is recorded with its recursive totals and
      no unentered one is, the visit's subfolder sum is the recursive one. */
  lemma {:induction false} SubdirsMatch(d: FolderData, p: Path, es: seq<Tree>, n: nat)
    requires n <= |es|
    requires forall i :: 0 <= i < |es| && es[i].Dir? ==> Join(p, es[i].name) in d && d[Join(p, es[i].name)] == Agg(es[i])
    requires forall i :: 0 <= i < |es| && es[i].Unwalked? ==> Join(p, es[i].name) !in d
    ensures SubdirTotals(d, p, Names(es)[..n]) == AggAll(es[..n])
  {
    if n > 0 {
      SubdirsMatch(d, p, es, n - 1);
      assert Names(es)[..n][..n - 1] == Names(es)[..n - 1];
      assert es[..n][..n - 1] == es[..n - 1];
    }
  }

  /** The aggregation the loop computes is the recursive one: after walking a
      well-formed tree the source folder holds its recursive totals, and the
      rows listed are exactly the recursive definition's, so every folder
      other than the source shows its own recursive totals and appears
      exactly when check_filters accepts them. */
  lemma SourceTotals(t: Tree, source: Path, includeFiles: bool, filters: Filters)
    requires t.Dir? && WellFormed(t)
    ensures source in Aggregate(map[], PostOrder(t, source), Tallied)
    ensures Aggregate(map[], PostOrder(t, source), Tallied)[source] == Agg(t)
    ensures WalkRows(map[], PostOrder(t, source), Tallied, Listed(source, includeFiles, filters))
            == TreeRows(t, source, source, includeFiles, filters)
  {
    TreeValue(t, source, map[]);
    TreeListing(t, source, map[], source, includeFiles, filters);
  }

  /** A visit lists at most one folder, its own, with the totals it just
      computed: exactly when it is not the source folder and check_filters
      accepts those totals. */
  lemma VisitListsFolder(d: FolderData, v: Visit, source: Path, includeFiles: bool, filters: Filters)
    ensures var rows := VisitRows(d, v, source, includeFiles, filters);
            var t := VisitTotals(d, v);
            && ((exists r :: r in rows && r.AnalyzerFolderRow?) <==> v.root != source && CheckFilters(filters, t.size, t.items, false))
            && (forall r :: r in rows && r.AnalyzerFolderRow? ==> r == FolderRow(v.root, t))
  {
    FileRowsAreFiles(v.root, v.files, filters);
    var t := VisitTotals(d, v);
    var rows := VisitRows(d, v, source, includeFiles, filters);
    if v.root != source && CheckFilters(filters, t.size, t.items, false) {
      assert rows[|rows| - 1] == FolderRow(v.root, t);
    }
  }

  lemma {:induction false} FileRowsAreFiles(root: Path, files: seq<FileEntry>, filters: Filters)
    ensures forall r :: r in FileRows(root, files, filters) ==> r.AnalyzerFileRow? && r.folder == root
  {
    if files != [] {
      FileRowsAreFiles(root, files[..|files| - 1], filters);
    }
  }

  // ---------------------------------------------------------------------
  // The worker and its queue
  // ---------------------------------------------------------------------

  /** The number of pending rows that triggers an analyzer_results_batch. */
  const AnalyzerBatchRows: nat := 100

  /** The worker's state between visits: folder_data, the messages sent,
      results_batch and total_items_found. */
  datatype ScanState = ScanState(data: FolderData, sent: seq<Msg>, pending: seq<Row>, found: nat)

  function Scanning(root: Path): Msg {
    Status("Scanning: " + root)
  }

  /** One visit: announce it, add its rows, record its totals, and send the
      pending rows once there are 100 or more. */
  function Step(st: ScanState, v: Visit, totalsOf: TotalsOf, rowsOf: RowsOf): ScanState {
    var rows := rowsOf(st.data, v);
    var data := st.data[v.root := totalsOf(st.data, v)];
    var sent := st.sent + [Scanning(v.root)];
    var pending := st.pending + rows;
    if |pending| >= AnalyzerBatchRows then ScanState(data, sent + [ResultsBatch(AnalyzerView, pending)], [], st.found + |rows|)
    else ScanState(data, sent, pending, st.found + |rows|)
  }

  function Scan(walk: seq<Visit>, totalsOf: TotalsOf, rowsOf: RowsOf): ScanState {
    if walk == [] then ScanState(map[], [], [], 0)
    else Step(Scan(walk[..|walk| - 1], totalsOf, rowsOf), walk[|walk| - 1], totalsOf, rowsOf)
  }

  function FoundMessage(n: nat): Msg {
    PreviewDone(AnalyzerView, Plain("Scan complete. Found " + NatToString(n) + " matching items."), n)
  }

  /** What the worker sends after its loop: "cancelled" when a check saw the
      flag; otherwise the last, partial batch if any, then analyzer_scan_done. */
  function Finish(st: ScanState, cancelled: bool): seq<Msg> {
    if cancelled then st.sent + [Cancelled]
    else st.sent + (if st.pending == [] then [] else [ResultsBatch(AnalyzerView, st.pending)]) + [FoundMessage(st.found)]
  }

  /** Everything analyzer_scan_logic puts on the queue. The flag is checked
      before each visit (checks 0 .. |walk|-1). */
  function AnalyzerMessages(walk: seq<Visit>, source: Path, includeFiles: bool, filters: Filters,
                            cancel: CancelSchedule): seq<Msg>
  {
    var n := ChecksPassed(cancel, 0, |walk|);
    Finish(Scan(walk[..n], Tallied, Listed(source, includeFiles, filters)), n < |walk|)
  }

  /** The inner loop over one folder's files: the totals of those getsize
      answered for, and the rows of those that pass the filters. */
  method ScanFiles(root: Path, files: seq<FileEntry>, includeFiles: bool, filters: Filters)
    returns (fileTotals: Totals, rows: seq<Row>)
    ensures fileTotals == FilesTotals(files)
    ensures rows == if includeFiles then FileRows(root, files, filters) else []
  {
    var fileSizeTotal: nat, fileCount: nat := 0, 0;
    rows := [];
    for j := 0 to |files|
      invariant fileSizeTotal == FilesTotals(files[..j]).size && fileCount == FilesTotals(files[..j]).items
      invariant rows == if includeFiles then FileRows(root, files[..j], filters) else []
    {
      var f := files[j];
      assert files[..j + 1][..j] == files[..j];
      assert FilesTotals(files[..j + 1]) == Plus(FilesTotals(files[..j]), if f.size.Some? then Totals(f.size.value, 1) else Zero);
      assert FileRows(root, files[..j + 1], filters)
               == FileRows(root, files[..j], filters)
                  + (if f.size.Some? && CheckFilters(filters, f.size.value, 1, true)
                     then [AnalyzerFileRow(f.name, root, f.size.value)] else []);
      if f.size.Some? {
        var size := f.size.value;
        fileSizeTotal := fileSizeTotal + size;
        fileCount := fileCount + 1;
        if includeFiles && CheckFilters(filters, size, 1, true) {
          rows := rows + [AnalyzerFileRow(f.name, root, size)];
        }
      }
    }
    assert files[..|files|] == files;
    fileTotals := Totals(fileSizeTotal, fileCount);
  }

  /** One more subfolder name in SubdirTotals. */
  lemma SubdirStep(data: FolderData, root: Path, dirs: seq<string>, j: nat)
    requires j < |dirs|
    ensures var p := Join(root, dirs[j]);
            SubdirTotals(data, root, dirs[..j + 1])
            == Plus(SubdirTotals(data, root, dirs[..j]), if p in data then data[p] else Zero)
  {
    assert dirs[..j + 1][..j] == dirs[..j];
  }

  /** The inner loop over the subfolder names: the sum of their recorded
      totals, a folder not recorded counting as zero. */
  method SumSubdirs(data: FolderData, root: Path, dirs: seq<string>) returns (sub: Totals)
    ensures sub == SubdirTotals(data, root, dirs)
  {
    var subSize: nat, subItems: nat := 0, 0;
    for j := 0 to |dirs|
      invariant subSize == SubdirTotals(data, root, dirs[..j]).size && subItems == SubdirTotals(data, root, dirs[..j]).items
    {
      var p := Join(root, dirs[j]);
      SubdirStep(data, root, dirs, j);
      if p in data {
        subSize := subSize + data[p].size;
        subItems := subItems + data[p].items;
      }
    }
    assert dirs[..|dirs|] == dirs;
    sub := Totals(subSize, subItems);
  }

  /** The body of the walk loop for one visit: the folder's totals and the
      rows it adds. */
  method VisitFolder(data: FolderData, v: Visit, source: Path, includeFiles: bool, filters: Filters)
    returns (mine: Totals, rows: seq<Row>)
    ensures mine == Tallied(data, v)
    ensures rows == Listed(source, includeFiles, filters)(data, v)
  {
    var own, fileRows := ScanFiles(v.root, v.files, includeFiles, filters);
    var sub := SumSubdirs(data, v.root, v.dirs);
    mine := Plus(own, sub);
    rows := fileRows;
    if v.root != source && CheckFilters(filters, mine.size, mine.items, false) {
      rows := rows + [FolderRow(v.root, mine)];
    }
  }

  /** One more visit, field by field. */
  lemma ScanStep(walk: seq<Visit>, i: nat, totalsOf: TotalsOf, rowsOf: RowsOf)
    requires i < |walk|
    ensures var st := Scan(walk[..i], totalsOf, rowsOf);
            var st' := Scan(walk[..i + 1], totalsOf, rowsOf);
            var v := walk[i];
            var pending := st.pending + rowsOf(st.data, v);
            && st'.data == st.data[v.root := totalsOf(st.data, v)]
            && st'.found == st.found + |rowsOf(st.data, v)|
            && st'.sent == st.sent + [Scanning(v.root)]
                           + (if |pending| >= AnalyzerBatchRows then [ResultsBatch(AnalyzerView, pending)] else [])
            && st'.pending == if |pending| >= AnalyzerBatchRows then [] else pending
  {
    assert walk[..i + 1][..i] == walk[..i];
  }

  /** analyzer_scan_logic. */
  method AnalyzerScanLogic(walk: seq<Visit>, source: Path, includeFiles: bool, filters: Filters, cancel: CancelSchedule)
    returns (msgs: seq<Msg>)
    ensures msgs == AnalyzerMessages(walk, source, includeFiles, filters, cancel)
  {
    var folderData: FolderData := map[];
    var resultsBatch: seq<Row> := [];
    var totalItemsFound: nat := 0;
    msgs := [];
    for i := 0 to |walk|
      invariant !SeenBefore(cancel, i)
      invariant folderData == Scan(walk[..i], Tallied, Listed(source, includeFiles, filters)).data
      invariant msgs == Scan(walk[..i], Tallied, Listed(source, includeFiles, filters)).sent
      invariant resultsBatch == Scan(walk[..i], Tallied, Listed(source, includeFiles, filters)).pending
      invariant totalItemsFound == Scan(walk[..i], Tallied, Listed(source, includeFiles, filters)).found
    {
      if SeenAt(cancel, i) {
        msgs := msgs + [Cancelled];
        return;
      }
      ScanStep(walk, i, Tallied, Listed(source, includeFiles, filters));
      var v := walk[i];
      msgs := msgs + [Scanning(v.root)];
      var mine, rows := VisitFolder(folderData, v, source, includeFiles, filters);
      folderData := folderData[v.root := mine];
      resultsBatch := resultsBatch + rows;
      totalItemsFound := totalItemsFound + |rows|;
      if |resultsBatch| >= AnalyzerBatchRows {
        msgs := msgs + [ResultsBatch(AnalyzerView, resultsBatch)];
        resultsBatch := [];
      }
    }
    assert walk[..|walk|] == walk;
    if resultsBatch != [] {
      msgs := msgs + [ResultsBatch(AnalyzerView, resultsBatch)];
    }
    msgs := msgs + [FoundMessage(totalItemsFound)];
  }

  // ---------------------------------------------------------------------
  // What the queue carries
  // ---------------------------------------------------------------------

  /** The loop's folder_data is the aggregation of the visits so far. */
  lemma {:induction false} ScanData(walk: seq<Visit>, totalsOf: TotalsOf, rowsOf: RowsOf)
    ensures Scan(walk, totalsOf, rowsOf).data == Aggregate(map[], walk, totalsOf)
  {
    if walk != [] {
      ScanData(walk[..|walk| - 1], totalsOf, rowsOf);
    }
  }

  /** What the loop has sent is status lines and batches only. */
  lemma {:induction false} ScanQuiet(walk: seq<Visit>, totalsOf: TotalsOf, rowsOf: RowsOf)
    ensures NoTerminal(Scan(walk, totalsOf, rowsOf).sent)
  {
    if walk != [] {
      var init := walk[..|walk| - 1];
      var v := walk[|walk| - 1];
      ScanQuiet(init, totalsOf, rowsOf);
      var st0 := Scan(init, totalsOf, rowsOf);
      var sent := st0.sent + [Scanning(v.root)];
      NoTerminalConcat(st0.sent, [Scanning(v.root)]);
      var pending := st0.pending + rowsOf(st0.data, v);
      if |pending| >= AnalyzerBatchRows {
        NoTerminalConcat(sent, [ResultsBatch(AnalyzerView, pending)]);
      }
    }
  }

  /** The rows sent plus those pending are all rows so far, and the count is
      their number. */
  lemma {:induction false} ScanRows(walk: seq<Visit>, totalsOf: TotalsOf, rowsOf: RowsOf)
    ensures var st := Scan(walk, totalsOf, rowsOf);
            && BatchRows(st.sent, AnalyzerView) + st.pending == WalkRows(map[], walk, totalsOf, rowsOf)
            && st.found == |WalkRows(map[], walk, totalsOf, rowsOf)|
  {
    if walk != [] {
      var init := walk[..|walk| - 1];
      var v := walk[|walk| - 1];
      ScanRows(init, totalsOf, rowsOf);
      ScanData(init, totalsOf, rowsOf);
      var st0 := Scan(init, totalsOf, rowsOf);
      var st := Scan(walk, totalsOf, rowsOf);
      var rows := rowsOf(st0.data, v);
      var before := BatchRows(st0.sent, AnalyzerView);
      assert st == Step(st0, v, totalsOf, rowsOf);
      assert WalkRows(map[], walk, totalsOf, rowsOf) == before + st0.pending + rows;
      var sent := st0.sent + [Scanning(v.root)];
      BatchRowsAppend(st0.sent, [Scanning(v.root)], AnalyzerView);
      assert BatchRows([Scanning(v.root)], AnalyzerView) == [] by { assert [Scanning(v.root)][..0] == []; }
      assert BatchRows(sent, AnalyzerView) == before;
      var pending := st0.pending + rows;
      ConcatAssoc(before, st0.pending, rows);
      if |pending| >= AnalyzerBatchRows {
        var b := [ResultsBatch(AnalyzerView, pending)];
        assert st.sent == sent + b && st.pending == [];
        BatchRowsAppend(sent, b, AnalyzerView);
        assert BatchRows(b, AnalyzerView) == pending by { assert b[..0] == []; }
      } else {
        assert st.sent == sent && st.pending == pending;
      }
    }
  }

  /** The loop's state after the visits: folder_data is the aggregation, the
      rows sent plus those pending are all rows so far, the count is their
      number, and what was sent is status lines and batches only. */
  lemma ScanInvariant(walk: seq<Visit>, totalsOf: TotalsOf, rowsOf: RowsOf)
    ensures var st := Scan(walk, totalsOf, rowsOf);
            && st.data == Aggregate(map[], walk, totalsOf)
            && BatchRows(st.sent, AnalyzerView) + st.pending == WalkRows(map[], walk, totalsOf, rowsOf)
            && st.found == |WalkRows(map[], walk, totalsOf, rowsOf)|
            && NoTerminal(st.sent)
  {
    ScanData(walk, totalsOf, rowsOf);
    ScanRows(walk, totalsOf, rowsOf);
    ScanQuiet(walk, totalsOf, rowsOf);
  }

  /** After the loop: one terminal message, the last; "cancelled" exactly when
      the loop was stopped; otherwise every row, in order, and their count. */
  lemma FinishEnds(walk: seq<Visit>, totalsOf: TotalsOf, rowsOf: RowsOf, cancelled: bool)
    ensures var msgs := Finish(Scan(walk, totalsOf, rowsOf), cancelled);
            && EndsOnce(msgs)
            && (msgs[|msgs| - 1] == Cancelled <==> cancelled)
            && (!cancelled ==>
                  var rows := WalkRows(map[], walk, totalsOf, rowsOf);
                  BatchRows(msgs, AnalyzerView) == rows && msgs[|msgs| - 1] == FoundMessage(|rows|))
  {
    var st := Scan(walk, totalsOf, rowsOf);
    ScanInvariant(walk, totalsOf, rowsOf);
    if cancelled {
      EndsOnceWith(st.sent, Cancelled);
    } else {
      var tail := if st.pending == [] then [] else [ResultsBatch(AnalyzerView, st.pending)];
      var last := FoundMessage(st.found);
      NoTerminalConcat(st.sent, tail);
      EndsOnceWith(st.sent + tail, last);
      BatchRowsAppend(st.sent, tail, AnalyzerView);
      BatchRowsAppend(st.sent + tail, [last], AnalyzerView);
      assert BatchRows([last], AnalyzerView) == [] by { assert [last][..0] == []; }
      assert BatchRows(tail, AnalyzerView) == st.pending by {
        if tail != [] { assert tail[..0] == []; }
      }
    }
  }

  /** Exactly one terminal message, the last: "cancelled" exactly when a
      check saw the flag, and otherwise analyzer_scan_done with the number of
      rows listed; a scan that runs to the end delivers every row, in order. */
  lemma AnalyzerEnds(walk: seq<Visit>, source: Path, includeFiles: bool, filters: Filters, cancel: CancelSchedule)
    ensures var msgs := AnalyzerMessages(walk, source, includeFiles, filters, cancel);
            && EndsOnce(msgs)
            && (msgs[|msgs| - 1] == Cancelled <==> SeenBefore(cancel, |walk|))
            && (!SeenBefore(cancel, |walk|) ==>
                  var rows := WalkRows(map[], walk, Tallied, Listed(source, includeFiles, filters));
                  BatchRows(msgs, AnalyzerView) == rows && msgs[|msgs| - 1] == FoundMessage(|rows|))
  {
    var n := ChecksPassed(cancel, 0, |walk|);
    FinishEnds(walk[..n], Tallied, Listed(source, includeFiles, filters), n < |walk|);
    if n == |walk| {
      assert walk[..n] == walk;
    }
  }
}
