/** scan_logic (FileManager.py:789-922) as the loops it runs. Each method is
    proved to compute the function of module Duplicates that specifies it,
    so everything proved there holds of what the worker puts on the queue. */
module DuplicateScan {
  import opened Strings
  import opened Paths
  import opened Sorting
  import opened Groups
  import opened FileSystem
  import opened Messages
  import opened Cancellation
  import opened Duplicates

  lemma JoinAllStep(root: Path, names: seq<string>, j: nat)
    requires j < |names|
    ensures JoinAll(root, names[..j + 1]) == JoinAll(root, names[..j]) + [Join(root, names[j])]
  {
    assert names[..j + 1][..j] == names[..j];
  }

  lemma WalkFilesStep(walk: seq<Listing>, i: nat)
    requires i < |walk|
    ensures WalkFiles(walk[..i + 1]) == WalkFiles(walk[..i]) + JoinAll(walk[i].root, walk[i].files)
  {
    assert walk[..i + 1][..i] == walk[..i];
  }

  lemma SizeItemsStep(ps: seq<Path>, p: Path, fs: FS)
    ensures SizeItems(ps + [p], fs) == SizeItems(ps, fs) + (if p in fs && fs[p].size >= 1 then [(fs[p].size, p)] else [])
  {
    assert (ps + [p])[..|ps|] == ps;
  }

  lemma KeyItemsStep<K>(ps: seq<Path>, key: Path -> Option<K>, j: nat)
    requires j < |ps|
    ensures KeyItems(ps[..j + 1], key) == KeyItems(ps[..j], key) + (if key(ps[j]).Some? then [(key(ps[j]).value, ps[j])] else [])
  {
    assert ps[..j + 1][..j] == ps[..j];
  }

  lemma GroupPairsStep<K>(items: seq<(K, Path)>, k: K, p: Path)
    ensures GroupPairs(items + [(k, p)]) == AddTo(GroupPairs(items), k, p)
  {
    assert (items + [(k, p)])[..|items|] == items;
  }

  // ---------------------------------------------------------------------
  // Pass 1 (FileManager.py:798-818)
  // ---------------------------------------------------------------------

  /** The walk loop: checks the flag once per listing (checks 0 ..), files
      every non-empty file under its size, and keeps the sizes shared by two
      or more files. */
  method SizePass(walk: seq<Listing>, fs: FS, cancel: CancelSchedule) returns (groups: seq<Group<nat>>, cancelled: bool)
    ensures cancelled <==> SeenBefore(cancel, |walk|)
    ensures !cancelled ==> groups == SizeGroups(WalkFiles(walk), fs)
  {
    var bySize: seq<Group<nat>> := [];
    for i := 0 to |walk|
      invariant !SeenBefore(cancel, i)
      invariant bySize == GroupPairs(SizeItems(WalkFiles(walk[..i]), fs))
    {
      if SeenAt(cancel, i) {
        return [], true;
      }
      var root, files := walk[i].root, walk[i].files;
      ghost var before := WalkFiles(walk[..i]);
      assert before + JoinAll(root, files[..0]) == before by { assert files[..0] == []; }
      for j := 0 to |files|
        invariant bySize == GroupPairs(SizeItems(before + JoinAll(root, files[..j]), fs))
      {
        var path := Join(root, files[j]);
        ghost var seen := before + JoinAll(root, files[..j]);
        JoinAllStep(root, files, j);
        assert before + JoinAll(root, files[..j + 1]) == seen + [path];
        SizeItemsStep(seen, path, fs);
        // os.path.getsize raises for a missing path; empty files are skipped
        if path in fs && fs[path].size >= 1 {
          GroupPairsStep(SizeItems(seen, fs), fs[path].size, path);
          bySize := AddTo(bySize, fs[path].size, path);
        } else {
          assert SizeItems(seen, fs) + [] == SizeItems(seen, fs);
        }
      }
      assert files[..|files|] == files;
      WalkFilesStep(walk, i);
    }
    assert walk[..|walk|] == walk;
    groups := MultiGroups(bySize);
    cancelled := false;
  }

  // ---------------------------------------------------------------------
  // Passes 2 and 3 (FileManager.py:826-878)
  // ---------------------------------------------------------------------

  /** The inner loop of either pass: the dict cleared, then each path filed
      under its key, or skipped when the key cannot be computed. */
  method GroupByKey<K(==)>(paths: seq<Path>, key: Path -> Option<K>) returns (d: seq<Group<K>>)
    ensures d == GroupPairs(KeyItems(paths, key))
  {
    d := [];
    for j := 0 to |paths|
      invariant d == GroupPairs(KeyItems(paths[..j], key))
    {
      KeyItemsStep(paths, key, j);
      var k := key(paths[j]);
      if k.Some? {
        GroupPairsStep(KeyItems(paths[..j], key), k.value, paths[j]);
        d := AddTo(d, k.value, paths[j]);
      } else {
        assert KeyItems(paths[..j], key) + [] == KeyItems(paths[..j], key);
      }
    }
    assert paths[..|paths|] == paths;
  }

  /** `for _, dupe_paths in d.items(): if len(dupe_paths) > 1: acc.append(dupe_paths)` */
  method AppendMulti<K>(acc: seq<seq<Path>>, d: seq<Group<K>>) returns (r: seq<seq<Path>>)
    ensures r == acc + MultiSets(d)
  {
    r := acc;
    for k := 0 to |d|
      invariant r == acc + MultiSets(d[..k])
    {
      assert d[..k + 1][..k] == d[..k];
      if |d[k].members| > 1 {
        ConcatAssoc(acc, MultiSets(d[..k]), [d[k].members]);
        r := r + [d[k].members];
      } else {
        assert MultiSets(d[..k + 1]) == MultiSets(d[..k]) + [];
      }
    }
    assert d[..|d|] == d;
  }

  lemma SubSetsStep<K>(groups: seq<Group<nat>>, key: Path -> Option<K>, g: nat)
    requires g < |groups|
    ensures SubSets(groups[..g + 1], key) == SubSets(groups[..g], key) + MultiSets(GroupPairs(KeyItems(groups[g].members, key)))
  {
    assert groups[..g + 1][..g] == groups[..g];
  }

  /** The modification-time pass: one check per size group (checks polled ..). */
  method FastPass(groups: seq<Group<nat>>, fs: FS, polled: nat, cancel: CancelSchedule)
    returns (sets: seq<seq<Path>>, cancelled: bool)
    ensures cancelled <==> |groups| > 0 && SeenBefore(cancel, polled + |groups|)
    ensures !cancelled ==> sets == FastSets(groups, fs)
  {
    sets := [];
    for g := 0 to |groups|
      invariant g > 0 ==> !SeenBefore(cancel, polled + g)
      invariant sets == FastSets(groups[..g], fs)
    {
      if SeenAt(cancel, polled + g) {
        return [], true;
      }
      var byTime := GroupByKey(groups[g].members, MtimeKey(fs));
      SubSetsStep(groups, MtimeKey(fs), g);
      sets := AppendMulti(sets, byTime);
    }
    assert groups[..|groups|] == groups;
    cancelled := false;
  }

  /** The hashing pass: like the fast pass, with a progress line after every
      tenth group checked. */
  method HashPass(groups: seq<Group<nat>>, fs: FS, hash: seq<bv8> -> string, polled: nat, cancel: CancelSchedule)
    returns (sets: seq<seq<Path>>, progress: seq<Msg>, cancelled: bool)
    ensures cancelled <==> |groups| > 0 && SeenBefore(cancel, polled + |groups|)
    ensures !cancelled ==> sets == HashSets(groups, fs, hash)
    ensures progress == Progress(ChecksPassed(cancel, polled, |groups|), |groups|)
  {
    sets, progress := [], [];
    var checkedCount := 0;
    for g := 0 to |groups|
      invariant g > 0 ==> !SeenBefore(cancel, polled + g)
      invariant checkedCount == g
      invariant sets == HashSets(groups[..g], fs, hash)
      invariant progress == Progress(g, |groups|)
    {
      if SeenAt(cancel, polled + g) {
        return [], progress, true;
      }
      checkedCount := checkedCount + 1;
      progress := progress + ProgressLine(checkedCount, |groups|);
      var byDigest := GroupByKey(groups[g].members, DigestKey(fs, hash));
      SubSetsStep(groups, DigestKey(fs, hash), g);
      sets := AppendMulti(sets, byDigest);
    }
    assert groups[..|groups|] == groups;
    cancelled := false;
  }

  // ---------------------------------------------------------------------
  // Results (FileManager.py:880-911)
  // ---------------------------------------------------------------------

  /** files_with_info: os.stat of every member that still exists. */
  method StatSet(s: seq<Path>, fs: FS) returns (infos: seq<FileInfo>)
    ensures infos == Infos(s, fs)
  {
    infos := [];
    for j := 0 to |s|
      invariant infos == Infos(s[..j], fs)
    {
      assert s[..j + 1][..j] == s[..j];
      if s[j] in fs {
        infos := infos + [FileInfo(s[j], fs[s[j]].size, fs[s[j]].mtime)];
      }
    }
    assert s[..|s|] == s;
  }

  /** results_batch.append for every file of one set. */
  method AppendRows(pending: seq<Row>, setNo: nat, infos: seq<FileInfo>) returns (r: seq<Row>)
    ensures r == pending + SetRows(setNo, infos)
  {
    r := pending;
    for k := 0 to |infos|
      invariant r == pending + SetRows(setNo, infos[..k])
    {
      assert infos[..k + 1][..k] == infos[..k];
      ConcatAssoc(pending, SetRows(setNo, infos[..k]), [DupeRow(setNo, infos[k].path, infos[k].size, infos[k].mtime)]);
      r := r + [DupeRow(setNo, infos[k].path, infos[k].size, infos[k].mtime)];
    }
    assert infos[..|infos|] == infos;
  }

  lemma BatchMsgsStep(v: View, batches: seq<seq<Row>>, b: seq<Row>)
    ensures BatchMsgs(v, batches + [b]) == BatchMsgs(v, batches) + [ResultsBatch(v, b)]
  {
    assert (batches + [b])[..|batches|] == batches;
  }

  lemma StatablePrefix(sets: seq<seq<Path>>, fs: FS, i: nat)
    requires Statable(sets, fs) && i <= |sets|
    ensures Statable(sets[..i], fs)
  {
  }

  /** The result loop's state after the first i sets. */
  function EmitUpTo(sets: seq<seq<Path>>, fs: FS, i: nat): Emission
    requires Statable(sets, fs) && i <= |sets|
  {
    StatablePrefix(sets, fs, i);
    Emit(sets[..i], fs)
  }

  lemma EmitStep(sets: seq<seq<Path>>, fs: FS, i: nat)
    requires Statable(sets, fs) && i < |sets|
    ensures SortedInfos(sets[i], fs) != []
    ensures EmitUpTo(sets, fs, i + 1) == EmitSet(EmitUpTo(sets, fs, i), i + 1, SortedInfos(sets[i], fs))
  {
    assert sets[..i + 1][..i] == sets[..i];
    StatablePrefix(sets, fs, i + 1);
    InfosLength(sets, i, fs);
  }

  /** The result stage up to its last message, and the wasted space it adds up. */
  method ResultStage(sets: seq<seq<Path>>, fs: FS) returns (msgs: seq<Msg>, wasted: nat)
    requires Statable(sets, fs)
    ensures msgs == Results(sets, fs)
    ensures wasted == Emit(sets, fs).wasted
  {
    var head := [Populating];
    msgs, wasted := head, 0;
    var pending: seq<Row> := [];
    for i := 0 to |sets|
      invariant pending == EmitUpTo(sets, fs, i).pending
      invariant wasted == EmitUpTo(sets, fs, i).wasted
      invariant msgs == head + BatchMsgs(DupeView, EmitUpTo(sets, fs, i).batches)
    {
      EmitStep(sets, fs, i);
      ghost var e := EmitUpTo(sets, fs, i);
      var infos := StatSet(sets[i], fs);
      infos := SortBy(infos, ByPath);
      msgs, pending, wasted := ResultStep(head, msgs, pending, wasted, i + 1, infos, e);
    }
    ResultsEnd(sets, fs);
    if pending != [] {
      msgs := msgs + [ResultsBatch(DupeView, pending)];
    }
  }

  /** Results, read off the loop's final state. */
  lemma ResultsEnd(sets: seq<seq<Path>>, fs: FS)
    requires Statable(sets, fs)
    ensures var e := EmitUpTo(sets, fs, |sets|);
            && Results(sets, fs) == [Populating] + BatchMsgs(DupeView, e.batches)
                                    + (if e.pending == [] then [] else [ResultsBatch(DupeView, e.pending)])
            && Emit(sets, fs).wasted == e.wasted
  {
    assert sets[..|sets|] == sets;
    var e := Emit(sets, fs);
    var head := [Populating];
    if e.pending != [] {
      BatchMsgsStep(DupeView, e.batches, e.pending);
      ConcatAssoc(head, BatchMsgs(DupeView, e.batches), [ResultsBatch(DupeView, e.pending)]);
    } else {
      assert e.batches + [] == e.batches;
      assert head + BatchMsgs(DupeView, e.batches) + [] == head + BatchMsgs(DupeView, e.batches);
    }
  }

  /** One turn of the result loop: count the set's copies beyond the first,
      queue its rows, and send the pending rows once there are 100 or more. */
  method ResultStep(ghost head: seq<Msg>, msgs: seq<Msg>, pending: seq<Row>, wasted: nat, setNo: nat, infos: seq<FileInfo>,
                    ghost e: Emission)
    returns (msgs': seq<Msg>, pending': seq<Row>, wasted': nat)
    requires infos != [] && pending == e.pending && wasted == e.wasted
    requires msgs == head + BatchMsgs(DupeView, e.batches)
    ensures pending' == EmitSet(e, setNo, infos).pending
    ensures wasted' == EmitSet(e, setNo, infos).wasted
    ensures msgs' == head + BatchMsgs(DupeView, EmitSet(e, setNo, infos).batches)
  {
    wasted' := wasted + ExtraCopies(infos[0].size, |infos|);
    pending' := AppendRows(pending, setNo, infos);
    msgs' := msgs;
    if |pending'| >= ResultsBatchRows {
      BatchMsgsStep(DupeView, e.batches, pending');
      ConcatAssoc(head, BatchMsgs(DupeView, e.batches), [ResultsBatch(DupeView, pending')]);
      msgs' := msgs + [ResultsBatch(DupeView, pending')];
      pending' := [];
    }
  }

  // ---------------------------------------------------------------------
  // The worker
  // ---------------------------------------------------------------------

  /** scan_logic: everything it puts on the queue. */
  method ScanLogic(walk: seq<Listing>, fs: FS, useHash: bool, hash: seq<bv8> -> string, cancel: CancelSchedule)
    returns (msgs: seq<Msg>)
    ensures msgs == ScanMessages(walk, fs, useHash, hash, cancel)
  {
    msgs := [Scanning];
    var groups, cancelled := SizePass(walk, fs, cancel);
    if cancelled {
      EndCancelled(walk, fs, useHash, hash, cancel);
      msgs := msgs + [Cancelled];
      return;
    }
    if groups == [] {
      EndNoGroups(walk, fs, useHash, hash, cancel);
      msgs := msgs + [NoCandidates];
      return;
    }
    var rest := CompareAndReport(walk, fs, groups, useHash, hash, cancel);
    msgs := msgs + rest;
  }

  /** The rest of scan_logic once pass 1 has found size groups: pass 2 or 3
      and the result stage. */
  method CompareAndReport(walk: seq<Listing>, fs: FS, groups: seq<Group<nat>>, useHash: bool, hash: seq<bv8> -> string,
                          cancel: CancelSchedule)
    returns (msgs: seq<Msg>)
    requires !SeenBefore(cancel, |walk|) && groups == SizeGroups(WalkFiles(walk), fs) && groups != []
    ensures [Scanning] + msgs == ScanMessages(walk, fs, useHash, hash, cancel)
  {
    ghost var start := [Scanning];
    LeadShape(|walk|, |groups|, useHash, cancel);
    msgs := [Comparing];
    var statuses, sets, cancelled := SecondPass(groups, fs, useHash, hash, |walk|, cancel);
    assert start + [Comparing] == [Scanning, Comparing];
    ConcatAssoc(start, [Comparing], statuses);
    msgs := msgs + statuses;
    assert start + msgs == ScanLead(walk, fs, useHash, cancel);
    if cancelled {
      EndCancelled(walk, fs, useHash, hash, cancel);
      ConcatAssoc(start, msgs, [Cancelled]);
      msgs := msgs + [Cancelled];
      return;
    }
    EndReport(walk, fs, useHash, hash, cancel);
    var results, wasted := ResultStage(sets, fs);
    var last := [PreviewDone(DupeView, ScanStats(|sets|, wasted), |sets|)];
    ConcatAssoc(start, msgs, results);
    ConcatAssoc(start, msgs + results, last);
    msgs := msgs + results + last;
  }

  lemma EndCancelled(walk: seq<Listing>, fs: FS, useHash: bool, hash: seq<bv8> -> string, cancel: CancelSchedule)
    requires SeenBefore(cancel, |walk|) || !ScanRuns(walk, fs, cancel)
    ensures ScanMessages(walk, fs, useHash, hash, cancel) == ScanLead(walk, fs, useHash, cancel) + [Cancelled]
  {
    assert ScanLead(walk, fs, useHash, cancel) + [] == ScanLead(walk, fs, useHash, cancel);
  }

  lemma EndNoGroups(walk: seq<Listing>, fs: FS, useHash: bool, hash: seq<bv8> -> string, cancel: CancelSchedule)
    requires !SeenBefore(cancel, |walk|) && SizeGroups(WalkFiles(walk), fs) == []
    ensures ScanMessages(walk, fs, useHash, hash, cancel)
            == [Scanning, NoCandidates]
  {
    var groups := SizeGroups(WalkFiles(walk), fs);
    assert |groups| == 0;
    assert ScanRuns(walk, fs, cancel);
    var lead := ScanLead(walk, fs, useHash, cancel);
    var tail := ScanTail(walk, fs, useHash, hash, cancel);
    var last := ScanLast(walk, fs, useHash, hash, cancel);
    assert lead == [Scanning];
    assert tail == [];
    assert last == NoCandidates;
    assert ScanMessages(walk, fs, useHash, hash, cancel) == lead + tail + [last];
    assert lead + tail + [last] == [Scanning, NoCandidates];
  }

  lemma EndReport(walk: seq<Listing>, fs: FS, useHash: bool, hash: seq<bv8> -> string, cancel: CancelSchedule)
    requires ScanRuns(walk, fs, cancel) && SizeGroups(WalkFiles(walk), fs) != []
    ensures var sets := FinalSets(WalkFiles(walk), fs, useHash, hash);
            && Statable(sets, fs)
            && ScanMessages(walk, fs, useHash, hash, cancel)
               == ScanLead(walk, fs, useHash, cancel) + Results(sets, fs)
                  + [PreviewDone(DupeView, ScanStats(|sets|, Emit(sets, fs).wasted), |sets|)]
  {
    FinalSetsStatable(WalkFiles(walk), fs, useHash, hash);
  }

  lemma LeadShape(walked: nat, groups: nat, useHash: bool, cancel: CancelSchedule)
    requires !SeenBefore(cancel, walked) && groups > 0
    ensures LeadFor(walked, groups, useHash, cancel)
            == [Scanning, Comparing]
               + if !useHash then []
                 else [Hashing(groups)]
                      + Progress(ChecksPassed(cancel, walked, groups), groups)
  {
  }

  /** The second pass in the chosen mode, with the status lines it sends
      after "Comparing modification times...". */
  method SecondPass(groups: seq<Group<nat>>, fs: FS, useHash: bool, hash: seq<bv8> -> string, polled: nat,
                    cancel: CancelSchedule)
    returns (statuses: seq<Msg>, sets: seq<seq<Path>>, cancelled: bool)
    ensures cancelled <==> |groups| > 0 && SeenBefore(cancel, polled + |groups|)
    ensures !cancelled ==> sets == if useHash then HashSets(groups, fs, hash) else FastSets(groups, fs)
    ensures statuses == if !useHash then []
                        else [Hashing(|groups|)]
                             + Progress(ChecksPassed(cancel, polled, |groups|), |groups|)
  {
    if !useHash {
      statuses := [];
      sets, cancelled := FastPass(groups, fs, polled, cancel);
    } else {
      var progress;
      sets, progress, cancelled := HashPass(groups, fs, hash, polled, cancel);
      statuses := [Hashing(|groups|)] + progress;
    }
  }
}
