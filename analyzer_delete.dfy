/** The analyzer's delete action: start_analyzer_delete orders the selected
    rows' paths deepest first (FileManager.py:1729-1739), and
    analyzer_delete_logic (FileManager.py:1746-1785) deletes them one by one,
    skipping a path that is already gone. */
module AnalyzerDelete {
  import opened Strings
  import opened Paths
  import opened Sorting
  import opened FileSystem
  import opened Messages
  import opened Cancellation
  import opened Deletion

  // ---------------------------------------------------------------------
  // The plan (FileManager.py:1729-1739)
  // ---------------------------------------------------------------------

  /** os.path.join(path, name) for a row of the analyzer tree. */
  function RowPath(r: Row): Path {
    match r
    case AnalyzerFileRow(name, folder, _) => Join(folder, name)
    case AnalyzerFolderRow(name, parent, _, _) => Join(parent, name)
    case DupeRow(_, path, _, _) => path
  }

  function RowPaths(rows: seq<Row>): (r: seq<Path>)
    ensures |r| == |rows|
    ensures forall i :: 0 <= i < |rows| ==> r[i] == RowPath(rows[i])
  {
    if rows == [] then [] else RowPaths(rows[..|rows| - 1]) + [RowPath(rows[|rows| - 1])]
  }

  /** plan.sort(key=len, reverse=True): a may come before b when it is at
      least as long. */
  function Deeper(): (Path, Path) -> bool {
    (a: Path, b: Path) => |a| >= |b|
  }

  /** The selected rows' paths, longest first, ties in selection order. */
  function DeletionPlan(selected: seq<Row>): seq<Path> {
    SortBy(RowPaths(selected), Deeper())
  }

  /** No path comes after a longer one. */
  predicate DeepestFirst(plan: seq<Path>) {
    forall i, j :: 0 <= i < j < |plan| ==> |plan[i]| >= |plan[j]|
  }

  /** The plan holds every selected path, as many times as it was selected,
      longest first; so whatever lies inside a folder of the plan comes
      before that folder. */
  lemma PlanOrder(selected: seq<Row>)
    ensures multiset(DeletionPlan(selected)) == multiset(RowPaths(selected))
    ensures DeepestFirst(DeletionPlan(selected))
    ensures var plan := DeletionPlan(selected);
            forall i, j :: 0 <= i < |plan| && 0 <= j < |plan| && Under(plan[i], plan[j]) && plan[i] != plan[j] ==> i < j
  {
    var le := Deeper();
    assert TotalPreorder(le);
    SortBySorted(RowPaths(selected), le);
    var plan := DeletionPlan(selected);
    forall i, j | 0 <= i < |plan| && 0 <= j < |plan| && Under(plan[i], plan[j]) && plan[i] != plan[j]
      ensures i < j
    {
      UnderLonger(plan[i], plan[j]);
    }
  }

  // ---------------------------------------------------------------------
  // analyzer_delete_logic (FileManager.py:1746-1785)
  // ---------------------------------------------------------------------

  /** One turn for the i-th path (counting from 1): announce it, and unless
      it no longer exists, safe_delete it and count the outcome. */
  function PlanStep(t: Tally, i: nat, total: nat, p: Path, hasTrash: bool): Tally {
    if p in t.fs then DeleteStep(t, i, total, p, hasTrash)
    else Tally(t.deleted, t.failed, t.statuses + [DeletingStatus(i, total, p)], t.fs)
  }

  /** The loop over all of `plan`, out of `total`. */
  function PlanDeleteAll(plan: seq<Path>, total: nat, fs: FS, hasTrash: bool): Tally {
    if plan == [] then Tally(0, 0, [], fs)
    else PlanStep(PlanDeleteAll(plan[..|plan| - 1], total, fs, hasTrash), |plan|, total, plan[|plan| - 1], hasTrash)
  }

  function AnalyzerDeleteSummary(deleted: nat, failed: nat): string {
    "Delete complete. " + NatToString(deleted) + " items deleted."
    + (if failed > 0 then " Failed to delete " + NatToString(failed) + " items (see console)." else "")
  }

  /** Everything analyzer_delete_logic puts on the queue, and the filesystem
      it leaves. The flag is checked before each path (checks 0 ..); the
      rows go out with "remove_finder_items", and "analyzer_action_done" ends
      the task (its count, a placeholder 0, is not modelled). */
  function AnalyzerDeleteRun(plan: seq<Path>, iids: seq<Iid>, fs: FS, hasTrash: bool, cancel: CancelSchedule): Run {
    var n := ChecksPassed(cancel, 0, |plan|);
    var t := PlanDeleteAll(plan[..n], |plan|, fs, hasTrash);
    if n < |plan| then Run(t.statuses + [Cancelled], t.fs)
    else Run(t.statuses + [RemoveItems(FinderView, iids),
                           ActionDone(AnalyzerView, Plain(AnalyzerDeleteSummary(t.deleted, t.failed)))], t.fs)
  }

  method AnalyzerDeleteLogic(plan: seq<Path>, iids: seq<Iid>, fs: FS, hasTrash: bool, cancel: CancelSchedule)
    returns (msgs: seq<Msg>, fs': FS)
    ensures Run(msgs, fs') == AnalyzerDeleteRun(plan, iids, fs, hasTrash, cancel)
  {
    var processedCount, failedCount := 0, 0;
    var statuses: seq<Msg> := [];
    var current := fs;
    var totalCount := |plan|;
    for i := 0 to |plan|
      invariant !SeenBefore(cancel, i)
      invariant processedCount == PlanDeleteAll(plan[..i], totalCount, fs, hasTrash).deleted
      invariant failedCount == PlanDeleteAll(plan[..i], totalCount, fs, hasTrash).failed
      invariant statuses == PlanDeleteAll(plan[..i], totalCount, fs, hasTrash).statuses
      invariant current == PlanDeleteAll(plan[..i], totalCount, fs, hasTrash).fs
    {
      if SeenAt(cancel, i) {
        AnalyzerDeleteStopped(plan, iids, fs, hasTrash, cancel, i);
        return statuses + [Cancelled], current;
      }
      var path := plan[i];
      PlanDeleteStep(plan, i, totalCount, fs, hasTrash);
      statuses := statuses + [DeletingStatus(i + 1, totalCount, path)];
      if path !in current {
        continue;
      }
      var (ok, after) := SafeDelete(current, path, hasTrash);
      current := after;
      if ok {
        processedCount := processedCount + 1;
      } else {
        failedCount := failedCount + 1;
      }
    }
    AnalyzerDeleteFinished(plan, iids, fs, hasTrash, cancel);
    msgs := statuses + [RemoveItems(FinderView, iids),
                        ActionDone(AnalyzerView, Plain(AnalyzerDeleteSummary(processedCount, failedCount)))];
    fs' := current;
  }

  /** One more turn of the loop over a prefix of the plan. */
  lemma PlanDeleteStep(plan: seq<Path>, i: nat, total: nat, fs: FS, hasTrash: bool)
    requires i < |plan|
    ensures PlanDeleteAll(plan[..i + 1], total, fs, hasTrash)
            == PlanStep(PlanDeleteAll(plan[..i], total, fs, hasTrash), i + 1, total, plan[i], hasTrash)
  {
    assert plan[..i + 1][..i] == plan[..i];
  }

  /** The run stopped by the check before path i. */
  lemma AnalyzerDeleteStopped(plan: seq<Path>, iids: seq<Iid>, fs: FS, hasTrash: bool, cancel: CancelSchedule, i: nat)
    requires i < |plan| && SeenAt(cancel, i) && (i > 0 ==> !SeenBefore(cancel, i))
    ensures var t := PlanDeleteAll(plan[..i], |plan|, fs, hasTrash);
            AnalyzerDeleteRun(plan, iids, fs, hasTrash, cancel) == Run(t.statuses + [Cancelled], t.fs)
  {
    ChecksPassedAt(cancel, 0, |plan|, i);
  }

  /** The run that got past every check. */
  lemma AnalyzerDeleteFinished(plan: seq<Path>, iids: seq<Iid>, fs: FS, hasTrash: bool, cancel: CancelSchedule)
    requires !SeenBefore(cancel, |plan|)
    ensures var t := PlanDeleteAll(plan, |plan|, fs, hasTrash);
            AnalyzerDeleteRun(plan, iids, fs, hasTrash, cancel)
            == Run(t.statuses + [RemoveItems(FinderView, iids),
                                 ActionDone(AnalyzerView, Plain(AnalyzerDeleteSummary(t.deleted, t.failed)))], t.fs)
  {
    assert plan[..|plan|] == plan;
  }

  // ---------------------------------------------------------------------
  // Properties
  // ---------------------------------------------------------------------

  /** How many paths of the plan exist before the task starts. */
  function PresentCount(plan: seq<Path>, fs: FS): (n: nat)
    ensures n <= |plan|
  {
    if plan == [] then 0
    else PresentCount(plan[..|plan| - 1], fs) + (if plan[|plan| - 1] in fs then 1 else 0)
  }

  /** Each turn adds its path's status line, whether or not the path exists. */
  lemma PlanStepStatuses(t: Tally, i: nat, total: nat, p: Path, hasTrash: bool)
    ensures PlanStep(t, i, total, p, hasTrash).statuses == t.statuses + [DeletingStatus(i, total, p)]
  {
  }

  /** Every path gets its status line, in plan order. */
  lemma {:induction false} PlanDeleteStatuses(plan: seq<Path>, total: nat, fs: FS, hasTrash: bool)
    ensures var t := PlanDeleteAll(plan, total, fs, hasTrash);
            && |t.statuses| == |plan|
            && (forall i :: 0 <= i < |plan| ==> t.statuses[i] == DeletingStatus(i + 1, total, plan[i]))
  {
    if plan != [] {
      var init := plan[..|plan| - 1];
      PlanDeleteStatuses(init, total, fs, hasTrash);
      var t0 := PlanDeleteAll(init, total, fs, hasTrash);
      var t := PlanDeleteAll(plan, total, fs, hasTrash);
      PlanStepStatuses(t0, |plan|, total, plan[|plan| - 1], hasTrash);
      forall i | 0 <= i < |init| ensures t.statuses[i] == DeletingStatus(i + 1, total, plan[i]) {
        assert t.statuses[i] == t0.statuses[i] && plan[i] == init[i];
      }
    }
  }

  /** The deletes only ever remove entries. */
  lemma {:induction false} PlanDeleteShrinks(plan: seq<Path>, total: nat, fs: FS, hasTrash: bool)
    ensures PlanDeleteAll(plan, total, fs, hasTrash).fs.Keys <= fs.Keys
  {
    if plan != [] {
      var init := plan[..|plan| - 1];
      PlanDeleteShrinks(init, total, fs, hasTrash);
      SafeDeleteOnlyRemoves(PlanDeleteAll(init, total, fs, hasTrash).fs, plan[|plan| - 1], hasTrash);
    }
  }

  /** An entry outside every path of the plan is left as it was. */
  lemma {:induction false} PlanDeleteKeeps(plan: seq<Path>, total: nat, fs: FS, hasTrash: bool, k: Path)
    requires k in fs && forall i :: 0 <= i < |plan| ==> !Under(k, plan[i])
    ensures k in PlanDeleteAll(plan, total, fs, hasTrash).fs
    ensures PlanDeleteAll(plan, total, fs, hasTrash).fs[k] == fs[k]
  {
    if plan != [] {
      var init, p := plan[..|plan| - 1], plan[|plan| - 1];
      assert forall i :: 0 <= i < |init| ==> init[i] == plan[i];
      PlanDeleteKeeps(init, total, fs, hasTrash, k);
      assert !Under(k, p);
      SafeDeleteOnlyRemoves(PlanDeleteAll(init, total, fs, hasTrash).fs, p, hasTrash);
    }
  }

  /** Every path gets its status line, and the deletes only ever remove
      entries; an entry outside every path of the plan is left as it was. */
  lemma PlanDeleteFrame(plan: seq<Path>, total: nat, fs: FS, hasTrash: bool)
    ensures var t := PlanDeleteAll(plan, total, fs, hasTrash);
            && |t.statuses| == |plan|
            && (forall i :: 0 <= i < |plan| ==> t.statuses[i] == DeletingStatus(i + 1, total, plan[i]))
            && t.fs.Keys <= fs.Keys
            && (forall k :: k in fs && (forall i :: 0 <= i < |plan| ==> !Under(k, plan[i])) ==> k in t.fs && t.fs[k] == fs[k])
  {
    PlanDeleteStatuses(plan, total, fs, hasTrash);
    PlanDeleteShrinks(plan, total, fs, hasTrash);
    forall k | k in fs && (forall i :: 0 <= i < |plan| ==> !Under(k, plan[i]))
      ensures k in PlanDeleteAll(plan, total, fs, hasTrash).fs && PlanDeleteAll(plan, total, fs, hasTrash).fs[k] == fs[k]
    {
      PlanDeleteKeeps(plan, total, fs, hasTrash, k);
    }
  }

  /** A deepest-first plan of distinct paths never skips a path because of an
      earlier delete: exactly the paths that existed at the start are
      counted, each as deleted or as failed. */
  lemma {:induction false} PlanDeleteCounts(plan: seq<Path>, total: nat, fs: FS, hasTrash: bool)
    requires DeepestFirst(plan)
    requires forall i, j :: 0 <= i < j < |plan| ==> plan[i] != plan[j]
    ensures var t := PlanDeleteAll(plan, total, fs, hasTrash);
            t.deleted + t.failed == PresentCount(plan, fs)
  {
    if plan != [] {
      var init, p := plan[..|plan| - 1], plan[|plan| - 1];
      assert forall i :: 0 <= i < |init| ==> init[i] == plan[i];
      PlanDeleteCounts(init, total, fs, hasTrash);
      PlanDeleteFrame(init, total, fs, hasTrash);
      var t0 := PlanDeleteAll(init, total, fs, hasTrash);
      forall i | 0 <= i < |init| ensures !Under(p, init[i]) {
        if Under(p, init[i]) {
          assert p != init[i];
          UnderLonger(p, init[i]);
        }
      }
      assert p in t0.fs <==> p in fs;
    }
  }

  /** One terminal message, the last: "cancelled" exactly when a check saw
      the flag, and then no row left the tree; otherwise the selected rows
      leave the tree just before "analyzer_action_done". */
  lemma AnalyzerDeleteEnds(plan: seq<Path>, iids: seq<Iid>, fs: FS, hasTrash: bool, cancel: CancelSchedule)
    ensures var msgs := AnalyzerDeleteRun(plan, iids, fs, hasTrash, cancel).msgs;
            && EndsOnce(msgs)
            && (msgs[|msgs| - 1] == Cancelled <==> plan != [] && SeenBefore(cancel, |plan|))
            && (msgs[|msgs| - 1] == Cancelled ==> forall i :: 0 <= i < |msgs| ==> !msgs[i].RemoveItems?)
            && (msgs[|msgs| - 1] != Cancelled ==>
                  msgs[|msgs| - 2] == RemoveItems(FinderView, iids) && msgs[|msgs| - 1].ActionDone?)
  {
    var n := ChecksPassed(cancel, 0, |plan|);
    var t := PlanDeleteAll(plan[..n], |plan|, fs, hasTrash);
    PlanStatuses(plan[..n], |plan|, fs, hasTrash);
    if n < |plan| {
      EndsCancelled(t.statuses);
    } else {
      EndsFinished(t.statuses, RemoveItems(FinderView, iids),
                   ActionDone(AnalyzerView, Plain(AnalyzerDeleteSummary(t.deleted, t.failed))));
    }
  }

  /** Status lines and then "cancelled": ends once, and nothing is removed. */
  lemma EndsCancelled(statuses: seq<Msg>)
    requires AllStatus(statuses)
    ensures var msgs := statuses + [Cancelled];
            && EndsOnce(msgs) && msgs[|msgs| - 1] == Cancelled
            && forall i :: 0 <= i < |msgs| ==> !msgs[i].RemoveItems?
  {
    var msgs := statuses + [Cancelled];
    assert NoTerminal(statuses);
    EndsOnceWith(statuses, Cancelled);
    forall i | 0 <= i < |msgs| ensures !msgs[i].RemoveItems? {
      if i < |statuses| { assert msgs[i] == statuses[i]; }
    }
  }

  /** Status lines, a removal and then the summary: ends once, with the
      removal just before the summary. */
  lemma EndsFinished(statuses: seq<Msg>, removal: Msg, done: Msg)
    requires AllStatus(statuses) && removal.RemoveItems? && done.ActionDone? && done.view == AnalyzerView
    ensures var msgs := statuses + [removal, done];
            && EndsOnce(msgs) && msgs[|msgs| - 2] == removal && msgs[|msgs| - 1] == done
  {
    assert NoTerminal(statuses);
    assert NoTerminal([removal]);
    NoTerminalConcat(statuses, [removal]);
    EndsOnceWith(statuses + [removal], done);
    assert statuses + [removal, done] == (statuses + [removal]) + [done];
  }

  /** The loop sends status lines only. */
  lemma PlanStatuses(plan: seq<Path>, total: nat, fs: FS, hasTrash: bool)
    ensures AllStatus(PlanDeleteAll(plan, total, fs, hasTrash).statuses)
  {
    PlanDeleteFrame(plan, total, fs, hasTrash);
  }

  /** A run that is not cancelled, of a deepest-first plan of distinct
      paths, accounts for every path that existed at the start. */
  lemma AnalyzerDeleteCounts(plan: seq<Path>, iids: seq<Iid>, fs: FS, hasTrash: bool, cancel: CancelSchedule)
    requires DeepestFirst(plan)
    requires forall i, j :: 0 <= i < j < |plan| ==> plan[i] != plan[j]
    requires !SeenBefore(cancel, |plan|)
    ensures var t := PlanDeleteAll(plan, |plan|, fs, hasTrash);
            && t.deleted + t.failed == PresentCount(plan, fs)
            && AnalyzerDeleteRun(plan, iids, fs, hasTrash, cancel)
               == Run(t.statuses + [RemoveItems(FinderView, iids),
                                    ActionDone(AnalyzerView, Plain(AnalyzerDeleteSummary(t.deleted, t.failed)))], t.fs)
  {
    assert plan[..|plan|] == plan;
    PlanDeleteCounts(plan, |plan|, fs, hasTrash);
  }
}
