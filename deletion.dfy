/** The delete loop shared by auto_delete_logic (FileManager.py:983-995) and
    generic_delete_logic (FileManager.py:1835-1845): for each path, check the
    cancel flag, report progress, then safe_delete it and count the outcome. */
module Deletion {
  import opened Strings
  import opened Paths
  import opened FileSystem
  import opened Messages
  import opened Cancellation

  /** The loop's state: the counters, the status lines sent, and the
      filesystem as the deletes so far have left it. */
  datatype Tally = Tally(deleted: nat, failed: nat, statuses: seq<Msg>, fs: FS)

  /** What an action task leaves behind: the messages it put on the queue,
      in order, and the filesystem after its deletes. */
  datatype Run = Run(msgs: seq<Msg>, fs: FS)

  /** f"Deleting {i}/{total}: {basename}" for the i-th path, counting from 1. */
  function DeletingStatus(i: nat, total: nat, p: Path): Msg {
    Status("Deleting " + NatToString(i) + "/" + NatToString(total) + ": " + Basename(p))
  }

  /** One turn of the loop for the i-th path (counting from 1). */
  function DeleteStep(t: Tally, i: nat, total: nat, p: Path, hasTrash: bool): Tally {
    var (ok, fs') := SafeDelete(t.fs, p, hasTrash);
    Tally(t.deleted + (if ok then 1 else 0), t.failed + (if ok then 0 else 1),
          t.statuses + [DeletingStatus(i, total, p)], fs')
  }

  /** The loop over all of `paths`, out of `total`. */
  function DeleteAll(paths: seq<Path>, total: nat, fs: FS, hasTrash: bool): Tally {
    if paths == [] then Tally(0, 0, [], fs)
    else DeleteStep(DeleteAll(paths[..|paths| - 1], total, fs, hasTrash), |paths|, total, paths[|paths| - 1], hasTrash)
  }

  /** The loop, stopped at the first check that sees the flag. Its checks are
      number polled .. polled+|paths|-1. */
  method DeleteLoop(paths: seq<Path>, fs: FS, hasTrash: bool, polled: nat, cancel: CancelSchedule)
    returns (t: Tally, cancelled: bool)
    ensures cancelled <==> ChecksPassed(cancel, polled, |paths|) < |paths|
    ensures t == DeleteAll(paths[..ChecksPassed(cancel, polled, |paths|)], |paths|, fs, hasTrash)
  {
    var deletedCount, failedCount := 0, 0;
    var statuses: seq<Msg> := [];
    var current := fs;
    var total := |paths|;
    for i := 0 to |paths|
      invariant i > 0 ==> !SeenBefore(cancel, polled + i)
      invariant Tally(deletedCount, failedCount, statuses, current) == DeleteAll(paths[..i], total, fs, hasTrash)
    {
      if SeenAt(cancel, polled + i) {
        ChecksPassedAt(cancel, polled, |paths|, i);
        return Tally(deletedCount, failedCount, statuses, current), true;
      }
      DeleteAllStep(paths, i, total, fs, hasTrash);
      ghost var before := Tally(deletedCount, failedCount, statuses, current);
      statuses := statuses + [DeletingStatus(i + 1, total, paths[i])];
      var (ok, after) := SafeDelete(current, paths[i], hasTrash);
      current := after;
      if ok {
        deletedCount := deletedCount + 1;
      } else {
        failedCount := failedCount + 1;
      }
      assert Tally(deletedCount, failedCount, statuses, current) == DeleteStep(before, i + 1, total, paths[i], hasTrash);
    }
    assert paths[..|paths|] == paths;
    t, cancelled := Tally(deletedCount, failedCount, statuses, current), false;
  }

  /** One more turn of the loop over a prefix. */
  lemma DeleteAllStep(paths: seq<Path>, i: nat, total: nat, fs: FS, hasTrash: bool)
    requires i < |paths|
    ensures DeleteAll(paths[..i + 1], total, fs, hasTrash)
            == DeleteStep(DeleteAll(paths[..i], total, fs, hasTrash), i + 1, total, paths[i], hasTrash)
  {
    assert paths[..i + 1][..i] == paths[..i];
  }

  /** Every path is counted once, as deleted or as failed, with one status
      line each, naming it; the deletes only ever remove entries. */
  lemma {:induction false} DeleteAllCounts(paths: seq<Path>, total: nat, fs: FS, hasTrash: bool)
    ensures var t := DeleteAll(paths, total, fs, hasTrash);
            && t.deleted + t.failed == |paths|
            && |t.statuses| == |paths|
            && (forall i :: 0 <= i < |paths| ==> t.statuses[i] == DeletingStatus(i + 1, total, paths[i]))
            && t.fs.Keys <= fs.Keys
  {
    if paths != [] {
      var init := paths[..|paths| - 1];
      DeleteAllCounts(init, total, fs, hasTrash);
      var t0 := DeleteAll(init, total, fs, hasTrash);
      SafeDeleteOnlyRemoves(t0.fs, paths[|paths| - 1], hasTrash);
      var t := DeleteAll(paths, total, fs, hasTrash);
      forall i | 0 <= i < |paths| ensures t.statuses[i] == DeletingStatus(i + 1, total, paths[i]) {
        if i < |init| { assert t.statuses[i] == t0.statuses[i] && paths[i] == init[i]; }
      }
    }
  }

  /** When no delete failed, none of the paths exists any more. */
  lemma {:induction false} DeleteAllGone(paths: seq<Path>, total: nat, fs: FS, hasTrash: bool)
    requires DeleteAll(paths, total, fs, hasTrash).failed == 0
    ensures forall p :: p in paths ==> p !in DeleteAll(paths, total, fs, hasTrash).fs
  {
    if paths != [] {
      var init := paths[..|paths| - 1];
      var last := paths[|paths| - 1];
      var t0 := DeleteAll(init, total, fs, hasTrash);
      DeleteAllGone(init, total, fs, hasTrash);
      SafeDeleteOnlyRemoves(t0.fs, last, hasTrash);
      forall p | p in paths ensures p !in DeleteAll(paths, total, fs, hasTrash).fs {
        if p != last {
          assert p in init by { assert paths == init + [last]; }
        }
      }
    }
  }

  /** Entries not inside any listed path are left exactly as they were. */
  lemma {:induction false} DeleteAllKeeps(paths: seq<Path>, total: nat, fs: FS, hasTrash: bool, k: Path)
    requires k in fs && forall p :: p in paths ==> !Under(k, p)
    ensures k in DeleteAll(paths, total, fs, hasTrash).fs
    ensures DeleteAll(paths, total, fs, hasTrash).fs[k] == fs[k]
  {
    if paths != [] {
      var init := paths[..|paths| - 1];
      assert forall p :: p in init ==> p in paths;
      DeleteAllKeeps(init, total, fs, hasTrash, k);
      SafeDeleteOnlyRemoves(DeleteAll(init, total, fs, hasTrash).fs, paths[|paths| - 1], hasTrash);
    }
  }

  /** The loop's status lines are status lines only. */
  lemma DeleteAllStatuses(paths: seq<Path>, total: nat, fs: FS, hasTrash: bool)
    ensures AllStatus(DeleteAll(paths, total, fs, hasTrash).statuses)
  {
    DeleteAllCounts(paths, total, fs, hasTrash);
  }
}
