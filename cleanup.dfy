/** delete_empty_folders_logic (FileManager.py:1019-1079): walk the source
    folder bottom-up and delete every folder below it that holds nothing but
    junk files, deleting the junk first. */
module Cleanup {
  import opened Strings
  import opened Paths
  import opened FileSystem
  import opened Messages
  import opened Cancellation
  import opened Deletion

  /** JUNK_FILES (FileManager.py:27), compared with the lower-cased name. */
  const JunkFiles: set<string> := {".ds_store", "thumbs.db", "desktop.ini"}

  predicate IsJunk(name: string) {
    Lower(name) in JunkFiles
  }

  /** os.listdir(root) during the walk: the names os.walk listed for root
      (folders, then files) that still exist, earlier visits having deleted
      some of its subfolders. */
  function ListDir(fs: FS, l: Listing): (r: seq<string>)
    ensures forall n :: n in r <==> n in l.dirs + l.files && Join(l.root, n) in fs
  {
    PresentNames(fs, l.root, l.dirs + l.files)
  }

  function PresentNames(fs: FS, root: Path, names: seq<string>): (r: seq<string>)
    ensures forall n :: n in r <==> n in names && Join(root, n) in fs
  {
    if names == [] then []
    else
      var n := names[|names| - 1];
      PresentNames(fs, root, names[..|names| - 1]) + (if Join(root, n) in fs then [n] else [])
  }

  /** The first loop, which stops at the first name that is not junk: the
      folder counts as empty when it reaches the end. */
  function AllJunk(names: seq<string>): bool {
    forall i :: 0 <= i < |names| ==> IsJunk(names[i])
  }

  /** junk_in_folder: the junk names joined to the folder, in listing order. */
  function JunkPaths(root: Path, names: seq<string>): (r: seq<Path>)
    ensures |r| <= |names|
  {
    if names == [] then []
    else
      var n := names[|names| - 1];
      JunkPaths(root, names[..|names| - 1]) + (if IsJunk(n) then [Join(root, n)] else [])
  }

  /** The second loop: safe_delete each junk path until one fails. The result
      is how many were deleted, whether all were, and the filesystem after. */
  function DeleteJunk(fs: FS, junk: seq<Path>, hasTrash: bool): (r: (nat, bool, FS))
    ensures r.0 <= |junk|
  {
    if junk == [] then (0, true, fs)
    else
      var (n, ok, fs1) := DeleteJunk(fs, junk[..|junk| - 1], hasTrash);
      if !ok then (n, false, fs1)
      else
        var (ok2, fs2) := SafeDelete(fs1, junk[|junk| - 1], hasTrash);
        (if ok2 then n + 1 else n, ok2, fs2)
  }

  /** What one visit does to its folder: whether it was found empty, how
      many junk files went, whether the folder went, and the filesystem
      after. A folder listdir cannot read is left alone. */
  datatype Outcome = Outcome(found: bool, files: nat, folder: bool, fs: FS)

  function Clean(fs: FS, l: Listing, hasTrash: bool): Outcome {
    if l.root !in fs || fs[l.root].kind != Directory || !fs[l.root].readable then Outcome(false, 0, false, fs)
    else
      var names := ListDir(fs, l);
      if !AllJunk(names) then Outcome(false, 0, false, fs)
      else
        var (n, ok, fs1) := DeleteJunk(fs, JunkPaths(l.root, names), hasTrash);
        if !ok then Outcome(true, n, false, fs1)
        else
          var (ok2, fs2) := SafeDelete(fs1, l.root, hasTrash);
          Outcome(true, n, ok2, fs2)
  }

  /** The worker's counters, the status lines it sent, and the filesystem. */
  datatype Sweep = Sweep(folders: nat, files: nat, statuses: seq<Msg>, fs: FS)

  function FoundEmpty(root: Path): Msg {
    Status("Found empty folder: " + root)
  }

  /** One visit: the source folder is skipped; otherwise a folder found empty
      is announced and the counters take its outcome. */
  function Visit(s: Sweep, l: Listing, source: Path, hasTrash: bool): Sweep {
    if l.root == source then s
    else
      var o := Clean(s.fs, l, hasTrash);
      Sweep(s.folders + (if o.folder then 1 else 0), s.files + o.files,
            s.statuses + (if o.found then [FoundEmpty(l.root)] else []), o.fs)
  }

  function SweepAll(walk: seq<Listing>, source: Path, fs: FS, hasTrash: bool): Sweep {
    if walk == [] then Sweep(0, 0, [], fs)
    else Visit(SweepAll(walk[..|walk| - 1], source, fs, hasTrash), walk[|walk| - 1], source, hasTrash)
  }

  /** One more visit of the walk. */
  lemma SweepStep(walk: seq<Listing>, i: nat, source: Path, fs: FS, hasTrash: bool)
    requires i < |walk|
    ensures SweepAll(walk[..i + 1], source, fs, hasTrash)
            == Visit(SweepAll(walk[..i], source, fs, hasTrash), walk[i], source, hasTrash)
  {
    assert walk[..i + 1][..i] == walk[..i];
  }

  function CleanupSummary(folders: nat, files: nat): string {
    "Empty folder cleanup complete. Deleted " + NatToString(folders) + " folders"
    + (if files > 0 then " and " + NatToString(files) + " hidden/junk files." else "")
  }

  /** Everything the worker puts on the queue, and the filesystem it leaves.
      The flag is checked before each visit (checks 0 .. |walk|-1). */
  function CleanupRun(walk: seq<Listing>, source: Path, fs: FS, hasTrash: bool, cancel: CancelSchedule): Run {
    var n := ChecksPassed(cancel, 0, |walk|);
    var s := SweepAll(walk[..n], source, fs, hasTrash);
    if n < |walk| then Run(s.statuses + [Cancelled], s.fs)
    else Run(s.statuses + [Done(CleanupSummary(s.folders, s.files))], s.fs)
  }

  // ---------------------------------------------------------------------
  // The loops
  // ---------------------------------------------------------------------

  /** The first inner loop: is the folder empty but for junk, and which
      junk paths does it hold. */
  method ScanFolder(root: Path, names: seq<string>) returns (isEmpty: bool, junkInFolder: seq<Path>)
    ensures isEmpty == AllJunk(names)
    ensures isEmpty ==> junkInFolder == JunkPaths(root, names)
  {
    isEmpty := true;
    junkInFolder := [];
    for i := 0 to |names|
      invariant forall j :: 0 <= j < i ==> IsJunk(names[j])
      invariant junkInFolder == JunkPaths(root, names[..i])
    {
      assert names[..i + 1][..i] == names[..i];
      assert JunkPaths(root, names[..i + 1])
             == JunkPaths(root, names[..i]) + (if IsJunk(names[i]) then [Join(root, names[i])] else []);
      if IsJunk(names[i]) {
        junkInFolder := junkInFolder + [Join(root, names[i])];
      } else {
        isEmpty := false;
        assert !AllJunk(names) by { assert !IsJunk(names[i]); }
        return;
      }
    }
    assert names[..|names|] == names;
  }

  /** The second inner loop: delete the junk paths, stopping at the first
      failure. */
  method RemoveJunk(fs: FS, junk: seq<Path>, hasTrash: bool) returns (deleted: nat, ok: bool, fs': FS)
    ensures (deleted, ok, fs') == DeleteJunk(fs, junk, hasTrash)
  {
    deleted, ok, fs' := 0, true, fs;
    for i := 0 to |junk|
      invariant DeleteJunk(fs, junk[..i], hasTrash).1
      invariant deleted == DeleteJunk(fs, junk[..i], hasTrash).0
      invariant fs' == DeleteJunk(fs, junk[..i], hasTrash).2
    {
      assert junk[..i + 1][..i] == junk[..i];
      var (done, after) := SafeDelete(fs', junk[i], hasTrash);
      fs' := after;
      if done {
        deleted := deleted + 1;
      } else {
        ok := false;
        DeleteJunkStops(fs, junk, hasTrash, i + 1);
        return;
      }
    }
    assert junk[..|junk|] == junk;
  }

  /** Once a junk delete fails the loop is over: the later paths are not
      tried. */
  lemma {:induction false} DeleteJunkStops(fs: FS, junk: seq<Path>, hasTrash: bool, k: nat)
    requires k <= |junk| && !DeleteJunk(fs, junk[..k], hasTrash).1
    ensures DeleteJunk(fs, junk, hasTrash) == DeleteJunk(fs, junk[..k], hasTrash)
    decreases |junk| - k
  {
    if k < |junk| {
      var j := junk[..k + 1];
      assert j[..k] == junk[..k];
      DeleteJunkStops(fs, junk, hasTrash, k + 1);
    } else {
      assert junk[..k] == junk;
    }
  }

  /** The body of the walk loop for a folder other than the source. */
  method CleanFolder(fs: FS, l: Listing, hasTrash: bool) returns (found: bool, files: nat, folder: bool, fs': FS)
    ensures found == Clean(fs, l, hasTrash).found && files == Clean(fs, l, hasTrash).files
    ensures folder == Clean(fs, l, hasTrash).folder && fs' == Clean(fs, l, hasTrash).fs
  {
    found, files, folder, fs' := false, 0, false, fs;
    if l.root !in fs || fs[l.root].kind != Directory || !fs[l.root].readable {
      return;
    }
    var isEmpty, junkInFolder := ScanFolder(l.root, ListDir(fs, l));
    if isEmpty {
      found := true;
      var allGone;
      files, allGone, fs' := RemoveJunk(fs, junkInFolder, hasTrash);
      if allGone {
        var (ok, rest) := SafeDelete(fs', l.root, hasTrash);
        folder, fs' := ok, rest;
      }
    }
  }

  method DeleteEmptyFoldersLogic(walk: seq<Listing>, source: Path, fs: FS, hasTrash: bool, cancel: CancelSchedule)
    returns (msgs: seq<Msg>, fs': FS)
    ensures Run(msgs, fs') == CleanupRun(walk, source, fs, hasTrash, cancel)
  {
    var deletedFolders: nat, deletedFiles: nat := 0, 0;
    var statuses: seq<Msg> := [];
    fs' := fs;
    for i := 0 to |walk|
      invariant !SeenBefore(cancel, i)
      invariant deletedFolders == SweepAll(walk[..i], source, fs, hasTrash).folders
      invariant deletedFiles == SweepAll(walk[..i], source, fs, hasTrash).files
      invariant statuses == SweepAll(walk[..i], source, fs, hasTrash).statuses
      invariant fs' == SweepAll(walk[..i], source, fs, hasTrash).fs
    {
      if SeenAt(cancel, i) {
        CleanupRunStopped(walk, source, fs, hasTrash, cancel, i);
        msgs := statuses + [Cancelled];
        return;
      }
      var l := walk[i];
      SweepStep(walk, i, source, fs, hasTrash);
      if l.root == source {
        continue;
      }
      var found, n, folder, after := CleanFolder(fs', l, hasTrash);
      if found {
        statuses := statuses + [FoundEmpty(l.root)];
      }
      deletedFiles := deletedFiles + n;
      if folder {
        deletedFolders := deletedFolders + 1;
      }
      fs' := after;
    }
    CleanupRunFinished(walk, source, fs, hasTrash, cancel);
    msgs := statuses + [Done(CleanupSummary(deletedFolders, deletedFiles))];
  }

  /** The run stopped by the check before visit i. */
  lemma CleanupRunStopped(walk: seq<Listing>, source: Path, fs: FS, hasTrash: bool, cancel: CancelSchedule, i: nat)
    requires i < |walk| && SeenAt(cancel, i) && (i > 0 ==> !SeenBefore(cancel, i))
    ensures var s := SweepAll(walk[..i], source, fs, hasTrash);
            CleanupRun(walk, source, fs, hasTrash, cancel) == Run(s.statuses + [Cancelled], s.fs)
  {
    ChecksPassedAt(cancel, 0, |walk|, i);
  }

  /** The run that got past every check. */
  lemma CleanupRunFinished(walk: seq<Listing>, source: Path, fs: FS, hasTrash: bool, cancel: CancelSchedule)
    requires !SeenBefore(cancel, |walk|)
    ensures var s := SweepAll(walk, source, fs, hasTrash);
            CleanupRun(walk, source, fs, hasTrash, cancel) == Run(s.statuses + [Done(CleanupSummary(s.folders, s.files))], s.fs)
  {
    assert walk[..|walk|] == walk;
  }

  // ---------------------------------------------------------------------
  // Properties
  // ---------------------------------------------------------------------

  /** os.listdir answers real names: non-empty, without a separator. */
  predicate NamesOk(l: Listing) {
    forall n :: n in l.dirs + l.files ==> IsName(n)
  }

  /** Every name of an all-junk listing is junk, and so are the others'. */
  lemma AllJunkInit(names: seq<string>)
    requires names != [] && AllJunk(names)
    ensures AllJunk(names[..|names| - 1]) && IsJunk(names[|names| - 1])
  {
    var init := names[..|names| - 1];
    forall i | 0 <= i < |init| ensures IsJunk(init[i]) { assert init[i] == names[i]; }
  }

  /** When every name is junk, junk_in_folder holds all of them, joined to
      the folder, in order. */
  lemma {:induction false} JunkPathsAll(root: Path, names: seq<string>)
    requires AllJunk(names)
    ensures JunkPaths(root, names) == JoinAll(root, names)
    ensures |JunkPaths(root, names)| == |names|
    ensures forall i :: 0 <= i < |names| ==> JunkPaths(root, names)[i] == Join(root, names[i])
  {
    if names != [] {
      AllJunkInit(names);
      JunkPathsAll(root, names[..|names| - 1]);
    }
  }

  /** A path outside the folder lies inside none of its junk paths. */
  lemma {:induction false} JunkPathsOutside(root: Path, names: seq<string>, k: Path)
    requires forall n :: n in names ==> IsName(n)
    requires !Under(k, root)
    ensures forall i :: 0 <= i < |JunkPaths(root, names)| ==> !Under(k, JunkPaths(root, names)[i])
  {
    if names != [] {
      var init, n := names[..|names| - 1], names[|names| - 1];
      assert forall m :: m in init ==> m in names;
      JunkPathsOutside(root, init, k);
      if Under(k, Join(root, n)) {
        UnderJoin(k, root, n);
      }
    }
  }

  /** Deleting junk only removes entries, and only inside the junk paths. */
  lemma {:induction false} DeleteJunkFrame(fs: FS, junk: seq<Path>, hasTrash: bool)
    ensures var fs' := DeleteJunk(fs, junk, hasTrash).2;
            && fs'.Keys <= fs.Keys
            && forall k :: k in fs && (forall i :: 0 <= i < |junk| ==> !Under(k, junk[i])) ==> k in fs' && fs'[k] == fs[k]
  {
    if junk != [] {
      var init := junk[..|junk| - 1];
      DeleteJunkFrame(fs, init, hasTrash);
      var fs1 := DeleteJunk(fs, init, hasTrash).2;
      SafeDeleteOnlyRemoves(fs1, junk[|junk| - 1], hasTrash);
      forall k | k in fs && (forall i :: 0 <= i < |junk| ==> !Under(k, junk[i]))
        ensures k in DeleteJunk(fs, junk, hasTrash).2 && DeleteJunk(fs, junk, hasTrash).2[k] == fs[k]
      {
        assert forall i :: 0 <= i < |init| ==> init[i] == junk[i];
        assert !Under(k, junk[|junk| - 1]);
      }
    }
  }

  /** When every junk path exists, none can be removed (locked), and none
      lies inside another, all of them go and all are counted. */
  lemma {:induction false} DeleteJunkAll(fs: FS, junk: seq<Path>, hasTrash: bool)
    requires forall i :: 0 <= i < |junk| ==> junk[i] in fs && !fs[junk[i]].locked
    requires forall i, j :: 0 <= i < |junk| && 0 <= j < |junk| && i != j ==> !Under(junk[i], junk[j])
    ensures var r := DeleteJunk(fs, junk, hasTrash);
            r.1 && r.0 == |junk| && forall i :: 0 <= i < |junk| ==> junk[i] !in r.2
  {
    if junk != [] {
      var init, p := junk[..|junk| - 1], junk[|junk| - 1];
      assert forall i :: 0 <= i < |init| ==> init[i] == junk[i];
      DeleteJunkAll(fs, init, hasTrash);
      var r1 := DeleteJunk(fs, init, hasTrash);
      DeleteJunkAllLast(fs, junk, hasTrash, r1);
    }
  }

  /** The inductive step of DeleteJunkAll: the last junk path, untouched by
      the earlier deletions, goes as well. */
  lemma DeleteJunkAllLast(fs: FS, junk: seq<Path>, hasTrash: bool, r1: (nat, bool, FS))
    requires junk != [] && r1 == DeleteJunk(fs, junk[..|junk| - 1], hasTrash)
    requires junk[|junk| - 1] in fs && !fs[junk[|junk| - 1]].locked
    requires forall i :: 0 <= i < |junk| - 1 ==> !Under(junk[|junk| - 1], junk[i])
    requires r1.1 && r1.0 == |junk| - 1 && forall i :: 0 <= i < |junk| - 1 ==> junk[i] !in r1.2
    ensures var r := DeleteJunk(fs, junk, hasTrash);
            r.1 && r.0 == |junk| && forall i :: 0 <= i < |junk| ==> junk[i] !in r.2
  {
    var init, p := junk[..|junk| - 1], junk[|junk| - 1];
    assert forall i :: 0 <= i < |init| ==> init[i] == junk[i];
    DeleteJunkFrame(fs, init, hasTrash);
    assert p in r1.2 && r1.2[p] == fs[p];
    var d := SafeDelete(r1.2, p, hasTrash);
    SafeDeleteOnlyRemoves(r1.2, p, hasTrash);
    assert DeleteJunk(fs, junk, hasTrash) == (r1.0 + 1, true, d.1);
  }

  /** A visit changes nothing outside its folder; inside, it only removes. */
  lemma CleanFrame(fs: FS, l: Listing, hasTrash: bool)
    requires NamesOk(l)
    ensures var o := Clean(fs, l, hasTrash);
            && o.fs.Keys <= fs.Keys
            && forall k :: k in fs && !Under(k, l.root) ==> k in o.fs && o.fs[k] == fs[k]
  {
    if l.root in fs && fs[l.root].kind == Directory && fs[l.root].readable {
      var names := ListDir(fs, l);
      if AllJunk(names) {
        var junk := JunkPaths(l.root, names);
        DeleteJunkFrame(fs, junk, hasTrash);
        var fs1 := DeleteJunk(fs, junk, hasTrash).2;
        SafeDeleteOnlyRemoves(fs1, l.root, hasTrash);
        assert forall n :: n in names ==> IsName(n);
        forall k | k in fs && !Under(k, l.root) ensures forall i :: 0 <= i < |junk| ==> !Under(k, junk[i]) {
          JunkPathsOutside(l.root, names, k);
        }
      }
    }
  }

  /** A folder that holds only junk, where nothing is locked, goes
      completely: it is announced, every junk file is deleted and counted,
      and the folder is deleted and counted. */
  lemma CleanEmpty(fs: FS, l: Listing, hasTrash: bool)
    requires l.root in fs && fs[l.root].kind == Directory && fs[l.root].readable && !fs[l.root].locked
    requires NamesOk(l)
    requires var names := ListDir(fs, l);
             && AllJunk(names)
             && (forall i, j :: 0 <= i < j < |names| ==> names[i] != names[j])
             && (forall i :: 0 <= i < |names| ==> !fs[Join(l.root, names[i])].locked)
    ensures var o := Clean(fs, l, hasTrash);
            o.found && o.files == |ListDir(fs, l)| && o.folder && l.root !in o.fs
  {
    var names := ListDir(fs, l);
    var junk := JunkPaths(l.root, names);
    JunkPathsAll(l.root, names);
    forall i, j | 0 <= i < |junk| && 0 <= j < |junk| && i != j ensures !Under(junk[i], junk[j]) {
      SiblingsDisjoint(l.root, names[i], names[j]);
    }
    assert forall i :: 0 <= i < |junk| ==> junk[i] in fs by {
      forall i | 0 <= i < |junk| ensures junk[i] in fs { assert names[i] in names; }
    }
    DeleteJunkAll(fs, junk, hasTrash);
    DeleteJunkFrame(fs, junk, hasTrash);
    forall i | 0 <= i < |junk| ensures !Under(l.root, junk[i]) {
      assert names[i] in names;
      ChildUnder(l.root, names[i]);
      UnderLonger(junk[i], l.root);
      if Under(l.root, junk[i]) { UnderLonger(l.root, junk[i]); }
    }
  }

  /** A folder holding anything that is not junk is left exactly as it was. */
  lemma {:induction false} CleanKeepsUsed(fs: FS, l: Listing, hasTrash: bool, i: nat)
    requires i < |ListDir(fs, l)| && !IsJunk(ListDir(fs, l)[i])
    ensures Clean(fs, l, hasTrash) == Outcome(false, 0, false, fs)
  {
  }

  /** The whole walk changes nothing outside the folders it visits, other
      than the source; inside them it only removes. */
  lemma {:induction false} SweepFrame(walk: seq<Listing>, source: Path, fs: FS, hasTrash: bool)
    requires forall i :: 0 <= i < |walk| ==> NamesOk(walk[i])
    ensures var fs' := SweepAll(walk, source, fs, hasTrash).fs;
            && fs'.Keys <= fs.Keys
            && forall k :: k in fs && (forall i :: 0 <= i < |walk| && walk[i].root != source ==> !Under(k, walk[i].root))
                           ==> k in fs' && fs'[k] == fs[k]
  {
    if walk != [] {
      var init, l := walk[..|walk| - 1], walk[|walk| - 1];
      assert forall i :: 0 <= i < |init| ==> init[i] == walk[i];
      SweepFrame(init, source, fs, hasTrash);
      var s := SweepAll(init, source, fs, hasTrash);
      if l.root != source {
        CleanFrame(s.fs, l, hasTrash);
      }
    }
  }

  /** The source folder itself is never deleted: every folder the walk
      visits lies inside it, and each visit only removes inside its own,
      other, folder. */
  lemma SourceKept(walk: seq<Listing>, source: Path, fs: FS, hasTrash: bool, cancel: CancelSchedule)
    requires source in fs
    requires forall i :: 0 <= i < |walk| ==> NamesOk(walk[i]) && Under(walk[i].root, source)
    ensures var fs' := CleanupRun(walk, source, fs, hasTrash, cancel).fs;
            fs'.Keys <= fs.Keys && source in fs' && fs'[source] == fs[source]
  {
    var w := walk[..ChecksPassed(cancel, 0, |walk|)];
    assert forall i :: 0 <= i < |w| ==> w[i] == walk[i];
    SweepFrame(w, source, fs, hasTrash);
    forall i | 0 <= i < |w| && w[i].root != source ensures !Under(source, w[i].root) {
      UnderLonger(w[i].root, source);
      if Under(source, w[i].root) { UnderLonger(source, w[i].root); }
    }
  }

  lemma {:induction false} SweepStatuses(walk: seq<Listing>, source: Path, fs: FS, hasTrash: bool)
    ensures AllStatus(SweepAll(walk, source, fs, hasTrash).statuses)
  {
    if walk != [] {
      var init := walk[..|walk| - 1];
      SweepStatuses(init, source, fs, hasTrash);
      var s := SweepAll(init, source, fs, hasTrash);
      AllStatusConcat(s.statuses, [FoundEmpty(walk[|walk| - 1].root)]);
    }
  }

  /** One terminal message, the last: "cancelled" exactly when a check saw
      the flag, otherwise "done" with the two counts. */
  lemma CleanupEnds(walk: seq<Listing>, source: Path, fs: FS, hasTrash: bool, cancel: CancelSchedule)
    ensures var msgs := CleanupRun(walk, source, fs, hasTrash, cancel).msgs;
            && EndsOnce(msgs)
            && (msgs[|msgs| - 1] == Cancelled <==> SeenBefore(cancel, |walk|))
            && (!SeenBefore(cancel, |walk|) ==>
                  var s := SweepAll(walk, source, fs, hasTrash);
                  msgs[|msgs| - 1] == Done(CleanupSummary(s.folders, s.files)))
  {
    var n := ChecksPassed(cancel, 0, |walk|);
    var s := SweepAll(walk[..n], source, fs, hasTrash);
    SweepStatuses(walk[..n], source, fs, hasTrash);
    StatusesNoRows(s.statuses, AnalyzerView);
    if n < |walk| {
      EndsOnceWith(s.statuses, Cancelled);
    } else {
      assert walk[..n] == walk;
      EndsOnceWith(s.statuses, Done(CleanupSummary(s.folders, s.files)));
    }
  }
}
