/** auto_delete_logic (FileManager.py:952-1008): per duplicate set, rank the
    files by the chosen strategy, keep the first and mark the rest; then
    delete the marked paths, drop every marked row from the tree, and
    report the counts. generic_delete_logic (FileManager.py:1827-1858)
    deletes a given selection with the same loop. */
module Retention {
  import opened Strings
  import opened Paths
  import opened Sorting
  import opened FileSystem
  import opened Messages
  import opened Cancellation
  import opened Deletion

  /** One row of a set, as start_auto_delete reads it back from the tree. */
  datatype Entry = Entry(iid: Iid, path: Path, mtime: int)

  /** The three values of the strategy radio buttons. */
  datatype Strategy = KeepNewest | KeepOldest | KeepFirstFound

  predicate NewerFirst(a: Entry, b: Entry) { a.mtime >= b.mtime }
  predicate OlderFirst(a: Entry, b: Entry) { a.mtime <= b.mtime }
  predicate PathFirst(a: Entry, b: Entry) { LexLe(a.path, b.path) }

  /** The sort each strategy applies: key mtime with reverse=True, key mtime,
      or key path. */
  function Order(s: Strategy): (Entry, Entry) -> bool {
    match s
    case KeepNewest => NewerFirst
    case KeepOldest => OlderFirst
    case KeepFirstFound => PathFirst
  }

  lemma OrderTotal(s: Strategy)
    ensures TotalPreorder(Order(s))
  {
    if s == KeepFirstFound {
      forall a: Entry, b: Entry ensures PathFirst(a, b) || PathFirst(b, a) {
        LexLeTotal(a.path, b.path);
      }
      forall a: Entry, b: Entry, c: Entry | PathFirst(a, b) && PathFirst(b, c) ensures PathFirst(a, c) {
        LexLeTrans(a.path, b.path, c.path);
      }
    }
  }

  /** `files` after files.sort(...). */
  function Ranked(files: seq<Entry>, s: Strategy): seq<Entry> {
    SortBy(files, Order(s))
  }

  /** The file a set keeps: index 0 after the sort. */
  function Survivor(files: seq<Entry>, s: Strategy): Entry
    requires files != []
  {
    Ranked(files, s)[0]
  }

  /** files[1:], the members marked for deletion. */
  function SetMarked(files: seq<Entry>, s: Strategy): seq<Entry> {
    if files == [] then [] else Ranked(files, s)[1..]
  }

  /** The entries behind files_to_delete and iids_to_remove, set after set. */
  function Marked(sets: seq<seq<Entry>>, s: Strategy): seq<Entry> {
    if sets == [] then [] else Marked(sets[..|sets| - 1], s) + SetMarked(sets[|sets| - 1], s)
  }

  function PathsOf(es: seq<Entry>): (r: seq<Path>)
    ensures |r| == |es|
    ensures forall i :: 0 <= i < |es| ==> r[i] == es[i].path
  {
    if es == [] then [] else PathsOf(es[..|es| - 1]) + [es[|es| - 1].path]
  }

  function IidsOf(es: seq<Entry>): (r: seq<Iid>)
    ensures |r| == |es|
    ensures forall i :: 0 <= i < |es| ==> r[i] == es[i].iid
  {
    if es == [] then [] else IidsOf(es[..|es| - 1]) + [es[|es| - 1].iid]
  }

  /** Reference count: every non-empty set gives up all members but one. */
  function ExtraMembers(sets: seq<seq<Entry>>): nat {
    if sets == [] then 0
    else
      var last := sets[|sets| - 1];
      ExtraMembers(sets[..|sets| - 1]) + (if last == [] then 0 else |last| - 1)
  }

  // ---------------------------------------------------------------------
  // Which file survives
  // ---------------------------------------------------------------------

  /** The survivor is a member, extremal for the strategy, and the earliest
      listed of the members that tie with it: everything listed before it is
      strictly worse (a stable sort keeps ties in their original order). */
  lemma SurvivorSpec(files: seq<Entry>, s: Strategy)
    requires files != []
    ensures var k := FirstLeast(files, Order(s));
            && Survivor(files, s) == files[k]
            && (s == KeepNewest ==>
                  (forall f :: f in files ==> f.mtime <= files[k].mtime)
                  && forall j :: 0 <= j < k ==> files[j].mtime < files[k].mtime)
            && (s == KeepOldest ==>
                  (forall f :: f in files ==> f.mtime >= files[k].mtime)
                  && forall j :: 0 <= j < k ==> files[j].mtime > files[k].mtime)
            && (s == KeepFirstFound ==>
                  (forall f :: f in files ==> LexLe(files[k].path, f.path))
                  && forall j :: 0 <= j < k ==> !LexLe(files[j].path, files[k].path))
  {
    OrderTotal(s);
    SortByHead(files, Order(s));
    FirstLeastSpec(files, Order(s));
    var k := FirstLeast(files, Order(s));
    forall f | f in files ensures Order(s)(files[k], f) {
      var j :| 0 <= j < |files| && files[j] == f;
    }
  }

  /** A set is split into its survivor and exactly |set| - 1 marked members. */
  lemma SetMarkedSpec(files: seq<Entry>, s: Strategy)
    requires files != []
    ensures |SetMarked(files, s)| == |files| - 1
    ensures multiset(SetMarked(files, s)) + multiset{Survivor(files, s)} == multiset(files)
  {
    var r := Ranked(files, s);
    assert r == [r[0]] + r[1..];
  }

  /** Over all sets, sum of (|set| - 1) entries are marked. */
  lemma {:induction false} MarkedCount(sets: seq<seq<Entry>>, s: Strategy)
    ensures |Marked(sets, s)| == ExtraMembers(sets)
  {
    if sets != [] {
      var last := sets[|sets| - 1];
      MarkedCount(sets[..|sets| - 1], s);
      if last != [] {
        SetMarkedSpec(last, s);
      }
    }
  }

  /** The marked entries are the sets' members less one survivor per
      non-empty set. */
  lemma {:induction false} MarkedPartition(sets: seq<seq<Entry>>, s: Strategy)
    ensures multiset(Marked(sets, s)) + multiset(Survivors(sets, s)) == multiset(Flatten(sets))
  {
    if sets != [] {
      var init, last := sets[..|sets| - 1], sets[|sets| - 1];
      MarkedPartition(init, s);
      if last != [] {
        SetMarkedSpec(last, s);
      } else {
        assert Marked(sets, s) == Marked(init, s) + [];
      }
    }
  }

  /** The file kept from each non-empty set, set after set. */
  function Survivors(sets: seq<seq<Entry>>, s: Strategy): seq<Entry> {
    if sets == [] then []
    else
      var last := sets[|sets| - 1];
      Survivors(sets[..|sets| - 1], s) + (if last == [] then [] else [Survivor(last, s)])
  }

  // ---------------------------------------------------------------------
  // The delete phase both tasks end with
  // ---------------------------------------------------------------------

  /** auto_delete_logic, or generic_delete_logic on a selection. */
  datatype Task = AutoDelete | SelectedDelete

  function AutoDeleteSummary(deleted: nat, failed: nat): string {
    "Auto-delete complete. Deleted " + NatToString(deleted) + " files."
    + (if failed > 0 then " Failed to delete " + NatToString(failed) + " files (see console for errors)." else "")
  }

  function SelectedDeleteSummary(deleted: nat, failed: nat): string {
    "Delete complete. Deleted " + NatToString(deleted) + " files."
    + (if failed > 0 then " Failed to delete " + NatToString(failed) + " files (see console)." else "")
  }

  /** After a loop that ran to the end: the rows come out of the tree, then
      the summary ends the task ("done", or "dupe_action_done" with count 0). */
  function Closing(task: Task, iids: seq<Iid>, deleted: nat, failed: nat): (r: seq<Msg>)
    ensures |r| == 2 && r[0] == RemoveItems(DupeView, iids) && r[1].IsTerminal()
  {
    [RemoveItems(DupeView, iids),
     match task
     case AutoDelete => Done(AutoDeleteSummary(deleted, failed))
     case SelectedDelete => ActionDone(DupeView, Plain(SelectedDeleteSummary(deleted, failed)))]
  }

  /** The delete loop over `paths`, whose checks are number polled .., then
      "cancelled" or the closing messages. */
  function DeletePhase(task: Task, paths: seq<Path>, iids: seq<Iid>, polled: nat, fs: FS, hasTrash: bool,
                       cancel: CancelSchedule): Run
  {
    var n := ChecksPassed(cancel, polled, |paths|);
    var t := DeleteAll(paths[..n], |paths|, fs, hasTrash);
    if n < |paths| then Run(t.statuses + [Cancelled], t.fs)
    else Run(t.statuses + Closing(task, iids, t.deleted, t.failed), t.fs)
  }

  /** One terminal message, the last; it is "cancelled" exactly when a check
      saw the flag, and then no row left the tree. */
  lemma DeletePhaseEnds(task: Task, paths: seq<Path>, iids: seq<Iid>, polled: nat, fs: FS, hasTrash: bool,
                        cancel: CancelSchedule)
    ensures var msgs := DeletePhase(task, paths, iids, polled, fs, hasTrash, cancel).msgs;
            && EndsOnce(msgs)
            && (msgs[|msgs| - 1] == Cancelled <==> paths != [] && SeenBefore(cancel, polled + |paths|))
            && (msgs[|msgs| - 1] == Cancelled ==> forall i :: 0 <= i < |msgs| ==> !msgs[i].RemoveItems?)
  {
    var n := ChecksPassed(cancel, polled, |paths|);
    var t := DeleteAll(paths[..n], |paths|, fs, hasTrash);
    DeleteAllStatuses(paths[..n], |paths|, fs, hasTrash);
    StatusesNoRows(t.statuses, DupeView);
    var c := Closing(task, iids, t.deleted, t.failed);
    if n < |paths| {
      EndsOnceWith(t.statuses, Cancelled);
    } else {
      var head := t.statuses + [c[0]];
      assert NoTerminal([c[0]]);
      NoTerminalConcat(t.statuses, [c[0]]);
      EndsOnceWith(head, c[1]);
      assert t.statuses + c == head + [c[1]];
    }
  }

  /** A loop that nobody stops tries every path once, and the counts in the
      summary add up to their number. */
  lemma DeletePhaseComplete(task: Task, paths: seq<Path>, iids: seq<Iid>, polled: nat, fs: FS, hasTrash: bool,
                            cancel: CancelSchedule)
    requires !SeenBefore(cancel, polled + |paths|)
    ensures var t := DeleteAll(paths, |paths|, fs, hasTrash);
            && t.deleted + t.failed == |paths|
            && DeletePhase(task, paths, iids, polled, fs, hasTrash, cancel)
               == Run(t.statuses + Closing(task, iids, t.deleted, t.failed), t.fs)
  {
    assert paths[..|paths|] == paths;
    DeleteAllCounts(paths, |paths|, fs, hasTrash);
  }

  /** Deleting only removes, and only inside the paths it was given. */
  lemma DeletePhaseKeeps(task: Task, paths: seq<Path>, iids: seq<Iid>, polled: nat, fs: FS, hasTrash: bool,
                         cancel: CancelSchedule, k: Path)
    ensures var r := DeletePhase(task, paths, iids, polled, fs, hasTrash, cancel);
            && r.fs.Keys <= fs.Keys
            && (k in fs && (forall p :: p in paths ==> !Under(k, p)) ==> k in r.fs && r.fs[k] == fs[k])
  {
    var n := ChecksPassed(cancel, polled, |paths|);
    var ps := paths[..n];
    DeleteAllCounts(ps, |paths|, fs, hasTrash);
    if k in fs && (forall p :: p in paths ==> !Under(k, p)) {
      assert forall p :: p in ps ==> p in paths;
      DeleteAllKeeps(ps, |paths|, fs, hasTrash, k);
    }
  }

  // ---------------------------------------------------------------------
  // auto_delete_logic (FileManager.py:952-1008)
  // ---------------------------------------------------------------------

  const NothingToDelete := Done("Auto-delete complete. No files needed deletion.")

  /** Everything auto_delete_logic puts on the queue, and the filesystem it
      leaves. The flag is checked once per set (checks 0 .. |sets|-1), then
      once per marked path. */
  function AutoDeleteRun(sets: seq<seq<Entry>>, s: Strategy, fs: FS, hasTrash: bool, cancel: CancelSchedule): Run {
    AfterPlanning(|sets|, Marked(sets, s), fs, hasTrash, cancel)
  }

  /** One of the checks, one per set and then one per marked path, sees the
      flag. */
  predicate AutoDeleteStopped(sets: seq<seq<Entry>>, s: Strategy, cancel: CancelSchedule) {
    SeenBefore(cancel, |sets| + |Marked(sets, s)|)
  }

  /** The run once planning has made `polled` checks and marked `marked`. */
  function AfterPlanning(polled: nat, marked: seq<Entry>, fs: FS, hasTrash: bool, cancel: CancelSchedule): Run {
    if SeenBefore(cancel, polled) then Run([Cancelled], fs)
    else if marked == [] then Run([NothingToDelete], fs)
    else DeletePhase(AutoDelete, PathsOf(marked), IidsOf(marked), polled, fs, hasTrash, cancel)
  }

  lemma AfterPlanningEnds(polled: nat, marked: seq<Entry>, fs: FS, hasTrash: bool, cancel: CancelSchedule)
    ensures var msgs := AfterPlanning(polled, marked, fs, hasTrash, cancel).msgs;
            && EndsOnce(msgs)
            && (msgs[|msgs| - 1] == Cancelled <==> SeenBefore(cancel, polled + |marked|))
            && (msgs[|msgs| - 1] == Cancelled ==> forall i :: 0 <= i < |msgs| ==> !msgs[i].RemoveItems?)
  {
    if !SeenBefore(cancel, polled) && marked != [] {
      DeletePhaseEnds(AutoDelete, PathsOf(marked), IidsOf(marked), polled, fs, hasTrash, cancel);
    } else {
      var msgs := AfterPlanning(polled, marked, fs, hasTrash, cancel).msgs;
      assert msgs[..0] == [];
    }
  }

  lemma PathsOfAppend(a: seq<Entry>, b: seq<Entry>)
    ensures PathsOf(a + b) == PathsOf(a) + PathsOf(b)
  {
    assert |PathsOf(a + b)| == |PathsOf(a) + PathsOf(b)|;
    forall i | 0 <= i < |a + b| ensures PathsOf(a + b)[i] == (PathsOf(a) + PathsOf(b))[i] {
      if i < |a| { assert (a + b)[i] == a[i]; } else { assert (a + b)[i] == b[i - |a|]; }
    }
  }

  lemma IidsOfAppend(a: seq<Entry>, b: seq<Entry>)
    ensures IidsOf(a + b) == IidsOf(a) + IidsOf(b)
  {
    assert |IidsOf(a + b)| == |IidsOf(a) + IidsOf(b)|;
    forall i | 0 <= i < |a + b| ensures IidsOf(a + b)[i] == (IidsOf(a) + IidsOf(b))[i] {
      if i < |a| { assert (a + b)[i] == a[i]; } else { assert (a + b)[i] == b[i - |a|]; }
    }
  }

  /** One more set adds its marked members after the earlier ones. */
  lemma MarkedStep(sets: seq<seq<Entry>>, s: Strategy, i: nat)
    requires i < |sets|
    ensures Marked(sets[..i + 1], s) == Marked(sets[..i], s) + SetMarked(sets[i], s)
  {
    assert sets[..i + 1][..i] == sets[..i];
  }

  /** The same, for the two lists the planning loop extends. */
  lemma MarkedLists(sets: seq<seq<Entry>>, s: Strategy, i: nat)
    requires i < |sets|
    ensures PathsOf(Marked(sets[..i + 1], s)) == PathsOf(Marked(sets[..i], s)) + PathsOf(SetMarked(sets[i], s))
    ensures IidsOf(Marked(sets[..i + 1], s)) == IidsOf(Marked(sets[..i], s)) + IidsOf(SetMarked(sets[i], s))
  {
    MarkedStep(sets, s, i);
    PathsOfAppend(Marked(sets[..i], s), SetMarked(sets[i], s));
    IidsOfAppend(Marked(sets[..i], s), SetMarked(sets[i], s));
  }

  /** The planning loop: one check per set; an empty set is skipped after its
      check; otherwise the set is sorted in place and files[1:] extends both
      lists. */
  method MarkForDeletion(sets: seq<seq<Entry>>, s: Strategy, cancel: CancelSchedule)
    returns (filesToDelete: seq<Path>, iidsToRemove: seq<Iid>, cancelled: bool)
    ensures cancelled <==> SeenBefore(cancel, |sets|)
    ensures !cancelled ==> filesToDelete == PathsOf(Marked(sets, s)) && iidsToRemove == IidsOf(Marked(sets, s))
  {
    filesToDelete, iidsToRemove := [], [];
    for i := 0 to |sets|
      invariant !SeenBefore(cancel, i)
      invariant filesToDelete == PathsOf(Marked(sets[..i], s)) && iidsToRemove == IidsOf(Marked(sets[..i], s))
    {
      if SeenAt(cancel, i) {
        return [], [], true;
      }
      MarkedLists(sets, s, i);
      var files := sets[i];
      if files == [] {
        continue;
      }
      files := SortBy(files, Order(s));
      assert files[1..] == SetMarked(sets[i], s);
      filesToDelete := filesToDelete + PathsOf(files[1..]);
      iidsToRemove := iidsToRemove + IidsOf(files[1..]);
    }
    assert sets[..|sets|] == sets;
    cancelled := false;
  }

  /** auto_delete_logic. */
  method AutoDeleteLogic(sets: seq<seq<Entry>>, s: Strategy, fs: FS, hasTrash: bool, cancel: CancelSchedule)
    returns (msgs: seq<Msg>, fs': FS)
    ensures Run(msgs, fs') == AutoDeleteRun(sets, s, fs, hasTrash, cancel)
  {
    var filesToDelete, iidsToRemove, cancelled := MarkForDeletion(sets, s, cancel);
    if cancelled {
      return [Cancelled], fs;
    }
    if filesToDelete == [] {
      return [NothingToDelete], fs;
    }
    var t;
    t, cancelled := DeleteLoop(filesToDelete, fs, hasTrash, |sets|, cancel);
    if cancelled {
      return t.statuses + [Cancelled], t.fs;
    }
    msgs := t.statuses + Closing(AutoDelete, iidsToRemove, t.deleted, t.failed);
    fs' := t.fs;
  }

  /** Exactly one terminal message, the last: "cancelled" exactly when one of
      the checks sees the flag, and a cancelled run takes no row from the
      tree. */
  lemma AutoDeleteEnds(sets: seq<seq<Entry>>, s: Strategy, fs: FS, hasTrash: bool, cancel: CancelSchedule)
    ensures var msgs := AutoDeleteRun(sets, s, fs, hasTrash, cancel).msgs;
            && EndsOnce(msgs)
            && (msgs[|msgs| - 1] == Cancelled <==> AutoDeleteStopped(sets, s, cancel))
            && (msgs[|msgs| - 1] == Cancelled ==> forall i :: 0 <= i < |msgs| ==> !msgs[i].RemoveItems?)
  {
    AfterPlanningEnds(|sets|, Marked(sets, s), fs, hasTrash, cancel);
  }

  /** A run nobody stops tries every marked path once: the counts in the
      summary add up to sum of (|set| - 1) over the non-empty sets, and every
      marked row leaves the tree, whether or not its delete succeeded. */
  lemma AutoDeleteCounts(sets: seq<seq<Entry>>, s: Strategy, fs: FS, hasTrash: bool, cancel: CancelSchedule)
    requires !AutoDeleteStopped(sets, s, cancel) && Marked(sets, s) != []
    ensures var t := DeleteAll(PathsOf(Marked(sets, s)), |Marked(sets, s)|, fs, hasTrash);
            && t.deleted + t.failed == ExtraMembers(sets)
            && AutoDeleteRun(sets, s, fs, hasTrash, cancel)
               == Run(t.statuses + Closing(AutoDelete, IidsOf(Marked(sets, s)), t.deleted, t.failed), t.fs)
            && |IidsOf(Marked(sets, s))| == ExtraMembers(sets)
  {
    var marked := Marked(sets, s);
    MarkedCount(sets, s);
    DeletePhaseComplete(AutoDelete, PathsOf(marked), IidsOf(marked), |sets|, fs, hasTrash, cancel);
  }

  /** Entries not inside any marked path, the survivors among them, are left
      untouched, and nothing is ever added. */
  lemma AutoDeleteKeeps(sets: seq<seq<Entry>>, s: Strategy, fs: FS, hasTrash: bool, cancel: CancelSchedule, k: Path)
    ensures var r := AutoDeleteRun(sets, s, fs, hasTrash, cancel);
            && r.fs.Keys <= fs.Keys
            && (k in fs && (forall e :: e in Marked(sets, s) ==> !Under(k, e.path)) ==> k in r.fs && r.fs[k] == fs[k])
  {
    var marked := Marked(sets, s);
    if !SeenBefore(cancel, |sets|) && marked != [] {
      var ps := PathsOf(marked);
      if k in fs && (forall e :: e in marked ==> !Under(k, e.path)) {
        forall p | p in ps ensures !Under(k, p) {
          var j :| 0 <= j < |ps| && ps[j] == p;
          assert marked[j] in marked;
        }
      }
      DeletePhaseKeeps(AutoDelete, ps, IidsOf(marked), |sets|, fs, hasTrash, cancel, k);
    }
  }

  // ---------------------------------------------------------------------
  // generic_delete_logic (FileManager.py:1827-1858)
  // ---------------------------------------------------------------------

  /** The selected paths go through the shared loop (checks 0 ..); the
      selected rows leave the tree and "dupe_action_done" ends the task. */
  method GenericDeleteLogic(paths: seq<Path>, iids: seq<Iid>, fs: FS, hasTrash: bool, cancel: CancelSchedule)
    returns (msgs: seq<Msg>, fs': FS)
    ensures Run(msgs, fs') == DeletePhase(SelectedDelete, paths, iids, 0, fs, hasTrash, cancel)
  {
    var t, cancelled := DeleteLoop(paths, fs, hasTrash, 0, cancel);
    if cancelled {
      return t.statuses + [Cancelled], t.fs;
    }
    msgs := t.statuses + Closing(SelectedDelete, iids, t.deleted, t.failed);
    fs' := t.fs;
  }
}
