/** The duplicate finder of scan_logic (FileManager.py:789-922) as functions
    of the walked paths and the filesystem: pass 1 groups files by size, pass
    2 (fast) sub-groups each size group by modification time or pass 3
    (accurate) by content digest, and the result stage reports every set
    sorted by path, in batches. The loops that compute these are in module
    DuplicateScan. */
module Duplicates {
  import opened Strings
  import opened Paths
  import opened Sorting
  import opened Groups
  import opened FileSystem
  import opened Messages
  import opened Cancellation

  // ---------------------------------------------------------------------
  // Pass 1: group by size (FileManager.py:798-818)
  // ---------------------------------------------------------------------

  /** Every file path the walk reports, in walk order. */
  function WalkFiles(walk: seq<Listing>): seq<Path> {
    if walk == [] then []
    else
      var last := walk[|walk| - 1];
      WalkFiles(walk[..|walk| - 1]) + JoinAll(last.root, last.files)
  }

  /** The (size, path) pairs filed under files_by_size: paths whose size can
      be read and is at least one byte. */
  function SizeItems(ps: seq<Path>, fs: FS): seq<(nat, Path)> {
    if ps == [] then []
    else
      var p := ps[|ps| - 1];
      SizeItems(ps[..|ps| - 1], fs) + (if p in fs && fs[p].size >= 1 then [(fs[p].size, p)] else [])
  }

  /** The groups holding more than one path, in key order. */
  function MultiGroups<K>(gs: seq<Group<K>>): seq<Group<K>> {
    if gs == [] then []
    else (if |gs[0].members| > 1 then [gs[0]] else []) + MultiGroups(gs[1..])
  }

  /** groups_to_check. */
  function SizeGroups(ps: seq<Path>, fs: FS): seq<Group<nat>> {
    MultiGroups(GroupPairs(SizeItems(ps, fs)))
  }

  // ---------------------------------------------------------------------
  // Passes 2 and 3: sub-group each size group (FileManager.py:826-878)
  // ---------------------------------------------------------------------

  /** The (key, path) pairs of one size group; a path whose key cannot be
      computed (the read raises) is skipped. */
  function KeyItems<K>(ps: seq<Path>, key: Path -> Option<K>): seq<(K, Path)> {
    if ps == [] then []
    else
      var p := ps[|ps| - 1];
      KeyItems(ps[..|ps| - 1], key) + (if key(p).Some? then [(key(p).value, p)] else [])
  }

  /** The lists of more than one path, in key order: what the loop over
      d.items() appends. */
  function MultiSets<K>(gs: seq<Group<K>>): seq<seq<Path>> {
    if gs == [] then []
    else
      var last := gs[|gs| - 1];
      MultiSets(gs[..|gs| - 1]) + (if |last.members| > 1 then [last.members] else [])
  }

  /** Every size group sub-grouped by key, keeping the lists of two or more. */
  function SubSets<K(==)>(groups: seq<Group<nat>>, key: Path -> Option<K>): seq<seq<Path>> {
    if groups == [] then []
    else
      var last := groups[|groups| - 1];
      SubSets(groups[..|groups| - 1], key) + MultiSets(GroupPairs(KeyItems(last.members, key)))
  }

  /** os.path.getmtime. */
  function MtimeKey(fs: FS): Path -> Option<int> {
    p => if p in fs then Some(fs[p].mtime) else None
  }

  /** hash_file: the digest of the content, or an error when the file cannot
      be read. The digest function itself is a parameter. */
  function DigestKey(fs: FS, hash: seq<bv8> -> string): Path -> Option<string> {
    p => if p in fs && fs[p].readable then Some(hash(fs[p].content)) else None
  }

  /** final_dupe_sets in fast mode. */
  function FastSets(groups: seq<Group<nat>>, fs: FS): seq<seq<Path>> {
    SubSets(groups, MtimeKey(fs))
  }

  /** final_dupe_sets in hash mode. */
  function HashSets(groups: seq<Group<nat>>, fs: FS, hash: seq<bv8> -> string): seq<seq<Path>> {
    SubSets(groups, DigestKey(fs, hash))
  }

  // ---------------------------------------------------------------------
  // Results (FileManager.py:880-911)
  // ---------------------------------------------------------------------

  /** (path, st_size, st_mtime) as os.stat reports it. */
  datatype FileInfo = FileInfo(path: Path, size: nat, mtime: int)

  /** files_with_info: the members that can be stat-ed, in set order. */
  function Infos(s: seq<Path>, fs: FS): seq<FileInfo> {
    if s == [] then []
    else
      var p := s[|s| - 1];
      Infos(s[..|s| - 1], fs) + (if p in fs then [FileInfo(p, fs[p].size, fs[p].mtime)] else [])
  }

  /** One FileInfo per member, when every member exists. */
  function StatAll(s: seq<Path>, fs: FS): (r: seq<FileInfo>)
    requires forall p :: p in s ==> p in fs
    ensures |r| == |s|
    ensures forall j :: 0 <= j < |s| ==> r[j] == FileInfo(s[j], fs[s[j]].size, fs[s[j]].mtime)
  {
    if s == [] then []
    else
      var p := s[|s| - 1];
      assert forall q :: q in s[..|s| - 1] ==> q in s;
      StatAll(s[..|s| - 1], fs) + [FileInfo(p, fs[p].size, fs[p].mtime)]
  }

  predicate ByPath(a: FileInfo, b: FileInfo) {
    LexLe(a.path, b.path)
  }

  /** files_with_info.sort(key=lambda x: x[0]). */
  function SortedInfos(s: seq<Path>, fs: FS): seq<FileInfo> {
    SortBy(Infos(s, fs), ByPath)
  }

  /** The rows of one set, labelled "Set <setNo>". */
  function SetRows(setNo: nat, infos: seq<FileInfo>): (r: seq<Row>)
    ensures |r| == |infos|
    ensures forall i :: 0 <= i < |r| ==> r[i] == DupeRow(setNo, infos[i].path, infos[i].size, infos[i].mtime)
  {
    if infos == [] then []
    else
      var f := infos[|infos| - 1];
      SetRows(setNo, infos[..|infos| - 1]) + [DupeRow(setNo, f.path, f.size, f.mtime)]
  }

  /** Every set has a member and every member exists: the result stage can
      read files_with_info[0]. */
  predicate Statable(sets: seq<seq<Path>>, fs: FS) {
    && (forall i :: 0 <= i < |sets| ==> sets[i] != [])
    && (forall i, p :: 0 <= i < |sets| && p in sets[i] ==> p in fs)
  }

  /** The number of pending rows that triggers a dupe_results_batch. */
  const ResultsBatchRows: nat := 100

  /** The bytes taken by the copies of a file of `size` bytes beyond the first
      of `count`. */
  function ExtraCopies(size: nat, count: nat): nat
    requires count >= 1
  {
    size * (count - 1)
  }

  /** The state of the result loop after some sets: batches sent, rows
      pending, bytes counted as wasted. */
  datatype Emission = Emission(batches: seq<seq<Row>>, pending: seq<Row>, wasted: nat)

  /** One turn of the result loop: count the set's extra copies, queue its
      rows, and send the pending rows once there are 100 or more. */
  function EmitSet(e: Emission, setNo: nat, infos: seq<FileInfo>): Emission
    requires infos != []
  {
    var wasted := e.wasted + ExtraCopies(infos[0].size, |infos|);
    var pending := e.pending + SetRows(setNo, infos);
    if |pending| >= ResultsBatchRows then Emission(e.batches + [pending], [], wasted)
    else Emission(e.batches, pending, wasted)
  }

  /** The result loop over the first |sets| sets. */
  function Emit(sets: seq<seq<Path>>, fs: FS): Emission
    requires Statable(sets, fs)
  {
    if sets == [] then Emission([], [], 0)
    else
      var n := |sets|;
      InfosLength(sets, n - 1, fs);
      EmitSet(Emit(sets[..n - 1], fs), n, SortedInfos(sets[n - 1], fs))
  }

  /** Every batch sent, the final partial one included. */
  function ScanBatches(sets: seq<seq<Path>>, fs: FS): seq<seq<Row>>
    requires Statable(sets, fs)
  {
    var e := Emit(sets, fs);
    e.batches + (if e.pending == [] then [] else [e.pending])
  }

  /** The rows of all sets, set after set, each set sorted by path. */
  function AllRows(sets: seq<seq<Path>>, fs: FS): seq<Row> {
    if sets == [] then []
    else AllRows(sets[..|sets| - 1], fs) + SetRows(|sets|, SortedInfos(sets[|sets| - 1], fs))
  }

  /** Reference definition of the wasted space: for each set, its common size
      times the number of extra copies. */
  function WastedSpace(sets: seq<seq<Path>>, fs: FS): nat
    requires Statable(sets, fs)
  {
    if sets == [] then 0
    else
      var s := sets[|sets| - 1];
      WastedSpace(sets[..|sets| - 1], fs) + ExtraCopies(fs[s[0]].size, |s|)
  }

  // ---------------------------------------------------------------------
  // The whole task, as the messages it puts on the queue
  // ---------------------------------------------------------------------

  // The fixed messages of the task.
  const Scanning := Status("Scanning files and grouping by size...")
  const Comparing := Status("Comparing modification times...")
  const Populating := Status("Scan complete. Populating results...")
  const NoCandidates := PreviewDone(DupeView, Plain("Scan complete. No potential duplicates found."), 0)

  function Hashing(groups: nat): Msg {
    Status("Hashing " + NatToString(groups) + " potential groups...")
  }

  /** The "Hashing group c/total..." updates for the first n groups. */
  function Progress(n: nat, total: nat): seq<Msg> {
    if n == 0 then [] else Progress(n - 1, total) + ProgressLine(n, total)
  }

  /** What the pass puts once its counter reaches `checked`. */
  function ProgressLine(checked: nat, total: nat): seq<Msg> {
    if checked % 10 == 0 then [Status("Hashing group " + NatToString(checked) + "/" + NatToString(total) + "...")] else []
  }

  /** The result stage for the final sets, up to its last message. */
  function Results(sets: seq<seq<Path>>, fs: FS): seq<Msg>
    requires Statable(sets, fs)
  {
    [Populating] + BatchMsgs(DupeView, ScanBatches(sets, fs))
  }

  /** dupe_scan_done with the number of sets and the wasted bytes. */
  function Summary(sets: seq<seq<Path>>, fs: FS): Msg
    requires Statable(sets, fs)
  {
    PreviewDone(DupeView, ScanStats(|sets|, Emit(sets, fs).wasted), |sets|)
  }

  /** The final sets of the chosen mode. */
  function FinalSets(ps: seq<Path>, fs: FS, useHash: bool, hash: seq<bv8> -> string): seq<seq<Path>> {
    if useHash then HashSets(SizeGroups(ps, fs), fs, hash) else FastSets(SizeGroups(ps, fs), fs)
  }

  /** The scan gets past every cancel check: once per walked directory
      (checks 0 .. |walk|-1), then once per size group (checks |walk| ..). */
  predicate ScanRuns(walk: seq<Listing>, fs: FS, cancel: CancelSchedule) {
    !SeenBefore(cancel, |walk| + |SizeGroups(WalkFiles(walk), fs)|)
  }

  /** The status lines scan_logic sends before its result stage, given the
      number of walked directories and of size groups: the pass headings and,
      when hashing, one progress line per ten groups checked. */
  function LeadFor(walked: nat, groups: nat, useHash: bool, cancel: CancelSchedule): seq<Msg> {
    var start := [Scanning];
    if SeenBefore(cancel, walked) || groups == 0 then start
    else
      var compare := start + [Comparing];
      if !useHash then compare
      else
        compare + [Hashing(groups)]
        + Progress(ChecksPassed(cancel, walked, groups), groups)
  }

  function ScanLead(walk: seq<Listing>, fs: FS, useHash: bool, cancel: CancelSchedule): seq<Msg> {
    LeadFor(|walk|, |SizeGroups(WalkFiles(walk), fs)|, useHash, cancel)
  }

  /** The result stage's status line and batches, reached when the scan runs
      to the end with some size group. */
  function ScanTail(walk: seq<Listing>, fs: FS, useHash: bool, hash: seq<bv8> -> string, cancel: CancelSchedule): seq<Msg> {
    var ps := WalkFiles(walk);
    FinalSetsStatable(ps, fs, useHash, hash);
    if ScanRuns(walk, fs, cancel) && SizeGroups(ps, fs) != [] then Results(FinalSets(ps, fs, useHash, hash), fs)
    else []
  }

  /** The terminal message. Without size groups the group checks are never
      made, so the scan is cancelled exactly when a walk check sees the flag. */
  function ScanLast(walk: seq<Listing>, fs: FS, useHash: bool, hash: seq<bv8> -> string, cancel: CancelSchedule): Msg {
    var ps := WalkFiles(walk);
    FinalSetsStatable(ps, fs, useHash, hash);
    if !ScanRuns(walk, fs, cancel) then Cancelled
    else if SizeGroups(ps, fs) == [] then NoCandidates
    else Summary(FinalSets(ps, fs, useHash, hash), fs)
  }

  /** Everything scan_logic puts on the queue, in order. */
  function ScanMessages(walk: seq<Listing>, fs: FS, useHash: bool, hash: seq<bv8> -> string,
                        cancel: CancelSchedule): seq<Msg>
  {
    ScanLead(walk, fs, useHash, cancel) + ScanTail(walk, fs, useHash, hash, cancel) + [ScanLast(walk, fs, useHash, hash, cancel)]
  }

  // ---------------------------------------------------------------------
  // Membership of the intermediate lists
  // ---------------------------------------------------------------------

  lemma {:induction false} SizeItemsMember(ps: seq<Path>, fs: FS, s: nat, p: Path)
    ensures (s, p) in SizeItems(ps, fs) <==> p in ps && p in fs && fs[p].size >= 1 && s == fs[p].size
  {
    if ps != [] {
      SizeItemsMember(ps[..|ps| - 1], fs, s, p);
      assert ps == ps[..|ps| - 1] + [ps[|ps| - 1]];
    }
  }

  lemma {:induction false} KeyItemsMember<K>(ps: seq<Path>, key: Path -> Option<K>, k: K, p: Path)
    ensures (k, p) in KeyItems(ps, key) <==> p in ps && key(p) == Some(k)
  {
    if ps != [] {
      KeyItemsMember(ps[..|ps| - 1], key, k, p);
      assert ps == ps[..|ps| - 1] + [ps[|ps| - 1]];
    }
  }

  lemma {:induction false} MultiGroupsMember<K>(gs: seq<Group<K>>, g: Group<K>)
    ensures g in MultiGroups(gs) <==> g in gs && |g.members| > 1
  {
    if gs != [] {
      MultiGroupsMember(gs[1..], g);
      assert gs == [gs[0]] + gs[1..];
    }
  }

  lemma {:induction false} MultiSetsWitness<K>(gs: seq<Group<K>>, s: seq<Path>)
    requires s in MultiSets(gs)
    ensures exists h :: h in gs && |h.members| > 1 && h.members == s
  {
    var init, last := gs[..|gs| - 1], gs[|gs| - 1];
    assert gs == init + [last];
    var tail := if |last.members| > 1 then [last.members] else [];
    assert MultiSets(gs) == MultiSets(init) + tail;
    if s in MultiSets(init) {
      MultiSetsWitness(init, s);
      var h :| h in init && |h.members| > 1 && h.members == s;
      assert h in gs;
    } else {
      assert s in tail;
      assert last in gs;
    }
  }

  lemma {:induction false} InMultiSets<K>(gs: seq<Group<K>>, h: Group<K>)
    requires h in gs && |h.members| > 1
    ensures h.members in MultiSets(gs)
  {
    var init, last := gs[..|gs| - 1], gs[|gs| - 1];
    assert gs == init + [last];
    var tail := if |last.members| > 1 then [last.members] else [];
    assert MultiSets(gs) == MultiSets(init) + tail;
    if h != last {
      assert h in init;
      InMultiSets(init, h);
    }
  }

  lemma {:induction false} SubSetsWitness<K>(groups: seq<Group<nat>>, key: Path -> Option<K>, s: seq<Path>)
    requires s in SubSets(groups, key)
    ensures exists g, h :: g in groups && h in GroupPairs(KeyItems(g.members, key)) && |h.members| > 1 && h.members == s
  {
    var init, last := groups[..|groups| - 1], groups[|groups| - 1];
    assert groups == init + [last];
    var sub := GroupPairs(KeyItems(last.members, key));
    assert SubSets(groups, key) == SubSets(init, key) + MultiSets(sub);
    if s in SubSets(init, key) {
      SubSetsWitness(init, key, s);
      var g, h :| g in init && h in GroupPairs(KeyItems(g.members, key)) && |h.members| > 1 && h.members == s;
      assert g in groups;
    } else {
      MultiSetsWitness(sub, s);
      var h :| h in sub && |h.members| > 1 && h.members == s;
      assert last in groups;
    }
  }

  lemma {:induction false} InSubSets<K>(groups: seq<Group<nat>>, key: Path -> Option<K>, g: Group<nat>, h: Group<K>)
    requires g in groups && h in GroupPairs(KeyItems(g.members, key)) && |h.members| > 1
    ensures h.members in SubSets(groups, key)
  {
    var init, last := groups[..|groups| - 1], groups[|groups| - 1];
    assert groups == init + [last];
    var sub := GroupPairs(KeyItems(last.members, key));
    assert SubSets(groups, key) == SubSets(init, key) + MultiSets(sub);
    if g == last {
      InMultiSets(sub, h);
    } else {
      assert g in init;
      InSubSets(init, key, g, h);
    }
  }

  /** Two different members of one group with the same key share a sub-set. */
  lemma SubSetShared<K>(groups: seq<Group<nat>>, key: Path -> Option<K>, g: Group<nat>, p: Path, q: Path, k: K)
    requires g in groups && p in g.members && q in g.members && p != q
    requires key(p) == Some(k) && key(q) == Some(k)
    ensures exists s :: s in SubSets(groups, key) && p in s && q in s
  {
    var items := KeyItems(g.members, key);
    KeyItemsMember(g.members, key, k, p);
    KeyItemsMember(g.members, key, k, q);
    SharedGroup(items, k, p, q);
    var h :| h in GroupPairs(items) && h.key == k && p in h.members && q in h.members && |h.members| > 1;
    InSubSets(groups, key, g, h);
  }

  /** Every path of s is a member of g whose key is k. */
  ghost predicate FromGroup<K>(s: seq<Path>, g: Group<nat>, key: Path -> Option<K>, k: K) {
    forall p :: p in s ==> p in g.members && key(p) == Some(k)
  }

  /** Every member of a sub-set comes from one group and carries the same key. */
  lemma SubSetShape<K>(groups: seq<Group<nat>>, key: Path -> Option<K>, s: seq<Path>) returns (g: Group<nat>, k: K)
    requires s in SubSets(groups, key)
    ensures |s| > 1
    ensures g in groups && FromGroup(s, g, key, k)
  {
    SubSetsWitness(groups, key, s);
    var h;
    g, h :| g in groups && h in GroupPairs(KeyItems(g.members, key)) && |h.members| > 1 && h.members == s;
    forall p | p in s
      ensures p in g.members && key(p) == Some(h.key)
    {
      SubGroupMember(g, key, h, p);
    }
    k := h.key;
  }

  lemma SubGroupMember<K>(g: Group<nat>, key: Path -> Option<K>, h: Group<K>, p: Path)
    requires h in GroupPairs(KeyItems(g.members, key)) && p in h.members
    ensures p in g.members && key(p) == Some(h.key)
  {
    GroupMember(KeyItems(g.members, key), h, p);
    KeyItemsMember(g.members, key, h.key, p);
  }

  // ---------------------------------------------------------------------
  // Pass 1
  // ---------------------------------------------------------------------

  /** A size group that survives has two or more members, each a walked,
      existing file whose size is the group's key, at least one byte. */
  lemma SizeGroupMember(ps: seq<Path>, fs: FS, g: Group<nat>, p: Path)
    requires g in SizeGroups(ps, fs) && p in g.members
    ensures |g.members| > 1
    ensures p in ps && p in fs && fs[p].size >= 1 && fs[p].size == g.key
  {
    MultiGroupsMember(GroupPairs(SizeItems(ps, fs)), g);
    GroupMember(SizeItems(ps, fs), g, p);
    SizeItemsMember(ps, fs, g.key, p);
  }

  /** Two different walked files of one size of at least one byte share a
      surviving size group. */
  lemma SizeGroupShared(ps: seq<Path>, fs: FS, p: Path, q: Path)
    requires p in ps && q in ps && p != q && p in fs && q in fs
    requires fs[p].size >= 1 && fs[p].size == fs[q].size
    ensures exists g :: g in SizeGroups(ps, fs) && p in g.members && q in g.members
  {
    var items := SizeItems(ps, fs);
    SizeItemsMember(ps, fs, fs[p].size, p);
    SizeItemsMember(ps, fs, fs[p].size, q);
    SharedGroup(items, fs[p].size, p, q);
    var g :| g in GroupPairs(items) && g.key == fs[p].size && p in g.members && q in g.members && |g.members| > 1;
    MultiGroupsMember(GroupPairs(items), g);
  }

  // ---------------------------------------------------------------------
  // The final sets
  // ---------------------------------------------------------------------

  /** A fast-mode set: two or more walked, existing files sharing one size
      of at least one byte and one modification time. */
  lemma FastSetShape(ps: seq<Path>, fs: FS, s: seq<Path>)
    requires s in FastSets(SizeGroups(ps, fs), fs)
    ensures |s| >= 2 && s[0] in fs
    ensures forall p :: p in s ==> p in ps && p in fs && fs[p].size >= 1
                                   && fs[p].size == fs[s[0]].size && fs[p].mtime == fs[s[0]].mtime
  {
    var key := MtimeKey(fs);
    var g, k := SubSetShape(SizeGroups(ps, fs), key, s);
    forall p | p in s
      ensures p in ps && p in fs && fs[p].size >= 1 && s[0] in fs
              && fs[p].size == fs[s[0]].size && fs[p].mtime == fs[s[0]].mtime
    {
      SizeGroupMember(ps, fs, g, p);
      SizeGroupMember(ps, fs, g, s[0]);
    }
  }

  /** A hash-mode set: two or more walked, existing, readable files sharing
      one size of at least one byte and one content digest. */
  lemma HashSetShape(ps: seq<Path>, fs: FS, hash: seq<bv8> -> string, s: seq<Path>)
    requires s in HashSets(SizeGroups(ps, fs), fs, hash)
    ensures |s| >= 2 && s[0] in fs
    ensures forall p :: p in s ==> p in ps && p in fs && fs[p].size >= 1 && fs[p].readable
                                   && fs[p].size == fs[s[0]].size && hash(fs[p].content) == hash(fs[s[0]].content)
  {
    var key := DigestKey(fs, hash);
    var g, k := SubSetShape(SizeGroups(ps, fs), key, s);
    forall p | p in s
      ensures p in ps && p in fs && fs[p].size >= 1 && fs[p].readable && s[0] in fs
              && fs[p].size == fs[s[0]].size && hash(fs[p].content) == hash(fs[s[0]].content)
    {
      SizeGroupMember(ps, fs, g, p);
      SizeGroupMember(ps, fs, g, s[0]);
    }
  }

  /** Fast mode puts two different paths in one set exactly when both are
      walked, existing files of the same non-zero size and the same mtime. */
  lemma FastSameSet(ps: seq<Path>, fs: FS, p: Path, q: Path)
    requires p != q
    ensures (exists s :: s in FastSets(SizeGroups(ps, fs), fs) && p in s && q in s)
            <==> (p in ps && q in ps && p in fs && q in fs && fs[p].size >= 1
                  && fs[p].size == fs[q].size && fs[p].mtime == fs[q].mtime)
  {
    if exists s :: s in FastSets(SizeGroups(ps, fs), fs) && p in s && q in s {
      var s :| s in FastSets(SizeGroups(ps, fs), fs) && p in s && q in s;
      FastSetShape(ps, fs, s);
    }
    if p in ps && q in ps && p in fs && q in fs && fs[p].size >= 1
       && fs[p].size == fs[q].size && fs[p].mtime == fs[q].mtime {
      SizeGroupShared(ps, fs, p, q);
      var g :| g in SizeGroups(ps, fs) && p in g.members && q in g.members;
      SubSetShared(SizeGroups(ps, fs), MtimeKey(fs), g, p, q, fs[p].mtime);
    }
  }

  /** Hash mode puts two different paths in one set exactly when both are
      walked, existing, readable files of the same non-zero size and digest. */
  lemma HashSameSet(ps: seq<Path>, fs: FS, hash: seq<bv8> -> string, p: Path, q: Path)
    requires p != q
    ensures (exists s :: s in HashSets(SizeGroups(ps, fs), fs, hash) && p in s && q in s)
            <==> (p in ps && q in ps && p in fs && q in fs && fs[p].size >= 1 && fs[p].readable && fs[q].readable
                  && fs[p].size == fs[q].size && hash(fs[p].content) == hash(fs[q].content))
  {
    if exists s :: s in HashSets(SizeGroups(ps, fs), fs, hash) && p in s && q in s {
      var s :| s in HashSets(SizeGroups(ps, fs), fs, hash) && p in s && q in s;
      HashSetShape(ps, fs, hash, s);
    }
    if p in ps && q in ps && p in fs && q in fs && fs[p].size >= 1 && fs[p].readable && fs[q].readable
       && fs[p].size == fs[q].size && hash(fs[p].content) == hash(fs[q].content) {
      SizeGroupShared(ps, fs, p, q);
      var g :| g in SizeGroups(ps, fs) && p in g.members && q in g.members;
      SubSetShared(SizeGroups(ps, fs), DigestKey(fs, hash), g, p, q, hash(fs[p].content));
    }
  }

  /** With a digest that never collides, hash mode groups exactly the
      readable files with identical content (equal content implies equal size). */
  lemma HashSetsExactContent(ps: seq<Path>, fs: FS, hash: seq<bv8> -> string, p: Path, q: Path)
    requires p != q
    requires forall a, b :: hash(a) == hash(b) ==> a == b
    ensures (exists s :: s in HashSets(SizeGroups(ps, fs), fs, hash) && p in s && q in s)
            <==> (p in ps && q in ps && p in fs && q in fs && fs[p].size >= 1 && fs[p].readable && fs[q].readable
                  && fs[p].size == fs[q].size && fs[p].content == fs[q].content)
  {
    HashSameSet(ps, fs, hash, p, q);
  }

  /** The final sets of either mode can be reported. */
  lemma FinalSetsStatable(ps: seq<Path>, fs: FS, useHash: bool, hash: seq<bv8> -> string)
    ensures Statable(FastSets(SizeGroups(ps, fs), fs), fs)
    ensures Statable(HashSets(SizeGroups(ps, fs), fs, hash), fs)
    ensures Statable(FinalSets(ps, fs, useHash, hash), fs)
  {
    var fast := FastSets(SizeGroups(ps, fs), fs);
    var hashed := HashSets(SizeGroups(ps, fs), fs, hash);
    forall i | 0 <= i < |fast| ensures fast[i] != [] && forall p :: p in fast[i] ==> p in fs {
      FastSetShape(ps, fs, fast[i]);
    }
    forall i | 0 <= i < |hashed| ensures hashed[i] != [] && forall p :: p in hashed[i] ==> p in fs {
      HashSetShape(ps, fs, hash, hashed[i]);
    }
  }

  /** Within a final set, every member has the size of the first. */
  lemma FinalSetsSameSize(ps: seq<Path>, fs: FS, useHash: bool, hash: seq<bv8> -> string)
    ensures forall i, p :: 0 <= i < |FinalSets(ps, fs, useHash, hash)| && p in FinalSets(ps, fs, useHash, hash)[i]
              ==> p in fs && FinalSets(ps, fs, useHash, hash)[i][0] in fs
                  && fs[p].size == fs[FinalSets(ps, fs, useHash, hash)[i][0]].size
  {
    var sets := FinalSets(ps, fs, useHash, hash);
    forall i, p | 0 <= i < |sets| && p in sets[i]
      ensures p in fs && sets[i][0] in fs && fs[p].size == fs[sets[i][0]].size
    {
      if useHash { HashSetShape(ps, fs, hash, sets[i]); } else { FastSetShape(ps, fs, sets[i]); }
    }
  }

  // ---------------------------------------------------------------------
  // No path is reported twice
  // ---------------------------------------------------------------------

  predicate Once(s: seq<Path>) {
    forall p :: p in s ==> multiset(s)[p] <= 1
  }

  lemma {:induction false} SizeItemsSub(ps: seq<Path>, fs: FS)
    ensures multiset(ItemPaths(SizeItems(ps, fs))) <= multiset(ps)
  {
    if ps != [] {
      var init, p := ps[..|ps| - 1], ps[|ps| - 1];
      assert ps == init + [p];
      SizeItemsSub(init, fs);
      var extra := if p in fs && fs[p].size >= 1 then [(fs[p].size, p)] else [];
      assert SizeItems(ps, fs) == SizeItems(init, fs) + extra;
      ItemPathsAppend(SizeItems(init, fs), extra);
      ItemsSubStep(ItemPaths(SizeItems(init, fs)), ItemPaths(extra), init, p);
    }
  }

  lemma {:induction false} KeyItemsSub<K>(ps: seq<Path>, key: Path -> Option<K>)
    ensures multiset(ItemPaths(KeyItems(ps, key))) <= multiset(ps)
  {
    if ps != [] {
      var init, p := ps[..|ps| - 1], ps[|ps| - 1];
      assert ps == init + [p];
      KeyItemsSub(init, key);
      var extra := if key(p).Some? then [(key(p).value, p)] else [];
      assert KeyItems(ps, key) == KeyItems(init, key) + extra;
      ItemPathsAppend(KeyItems(init, key), extra);
      ItemsSubStep(ItemPaths(KeyItems(init, key)), ItemPaths(extra), init, p);
    }
  }

  lemma ItemsSubStep(a: seq<Path>, b: seq<Path>, init: seq<Path>, p: Path)
    requires multiset(a) <= multiset(init) && (b == [] || b == [p])
    ensures multiset(a + b) <= multiset(init + [p])
  {
  }

  lemma {:induction false} MultiGroupsSub<K>(gs: seq<Group<K>>)
    ensures multiset(AllMembers(MultiGroups(gs))) <= multiset(AllMembers(gs))
  {
    if gs != [] {
      MultiGroupsSub(gs[1..]);
      var head := if |gs[0].members| > 1 then [gs[0]] else [];
      AllMembersAppend(head, MultiGroups(gs[1..]));
    }
  }

  lemma {:induction false} MultiSetsSub<K>(gs: seq<Group<K>>)
    ensures multiset(Flatten(MultiSets(gs))) <= multiset(AllMembers(gs))
  {
    if gs != [] {
      var init, last := gs[..|gs| - 1], gs[|gs| - 1];
      assert gs == init + [last];
      MultiSetsSub(init);
      var tail := if |last.members| > 1 then [last.members] else [];
      assert MultiSets(gs) == MultiSets(init) + tail;
      FlattenAppend(MultiSets(init), tail);
      assert Flatten(tail) == if |last.members| > 1 then last.members else [] by {
        if tail != [] { assert tail[..0] == []; }
      }
      AllMembersAppend(init, [last]);
      assert AllMembers([last]) == last.members;
    }
  }

  lemma {:induction false} SubSetsSub<K>(groups: seq<Group<nat>>, key: Path -> Option<K>)
    ensures multiset(Flatten(SubSets(groups, key))) <= multiset(AllMembers(groups))
  {
    if groups != [] {
      var init, last := groups[..|groups| - 1], groups[|groups| - 1];
      assert groups == init + [last];
      SubSetsSub(init, key);
      var sub := GroupPairs(KeyItems(last.members, key));
      assert SubSets(groups, key) == SubSets(init, key) + MultiSets(sub);
      FlattenAppend(SubSets(init, key), MultiSets(sub));
      MultiSetsSub(sub);
      GroupPairsSpec(KeyItems(last.members, key));
      KeyItemsSub(last.members, key);
      assert multiset(Flatten(MultiSets(sub))) <= multiset(last.members);
      AllMembersAppend(init, [last]);
      assert AllMembers([last]) == last.members;
    }
  }

  /** When the walk lists each path once, no path appears in two final sets,
      nor twice in one. */
  lemma ScanSetsOnce<K>(ps: seq<Path>, fs: FS, key: Path -> Option<K>)
    requires Once(ps)
    ensures Once(Flatten(SubSets(SizeGroups(ps, fs), key)))
  {
    SubSetsSub(SizeGroups(ps, fs), key);
    MultiGroupsSub(GroupPairs(SizeItems(ps, fs)));
    GroupPairsSpec(SizeItems(ps, fs));
    SizeItemsSub(ps, fs);
  }

  /** Both modes: a path is in at most one final set. */
  lemma FinalSetsOnce(ps: seq<Path>, fs: FS, useHash: bool, hash: seq<bv8> -> string)
    requires Once(ps)
    ensures Once(Flatten(FinalSets(ps, fs, useHash, hash)))
  {
    if useHash { ScanSetsOnce(ps, fs, DigestKey(fs, hash)); } else { ScanSetsOnce(ps, fs, MtimeKey(fs)); }
  }

  // ---------------------------------------------------------------------
  // The result stage
  // ---------------------------------------------------------------------

  /** Every member of a reportable set can be stat-ed. */
  lemma InfosLength(sets: seq<seq<Path>>, i: nat, fs: FS)
    requires Statable(sets, fs) && i < |sets|
    ensures |SortedInfos(sets[i], fs)| == |sets[i]| > 0
  {
    InfosAll(sets[i], fs);
  }

  /** Stat-ing an existing set keeps every member, in order. */
  lemma {:induction false} InfosAll(s: seq<Path>, fs: FS)
    requires forall p :: p in s ==> p in fs
    ensures Infos(s, fs) == StatAll(s, fs)
    ensures |Infos(s, fs)| == |s|
    ensures forall j :: 0 <= j < |s| ==> Infos(s, fs)[j] == FileInfo(s[j], fs[s[j]].size, fs[s[j]].mtime)
  {
    if s != [] {
      var init := s[..|s| - 1];
      assert forall p :: p in init ==> p in s;
      InfosAll(init, fs);
      assert s[|s| - 1] in s;
    }
  }

  lemma ByPathOrder()
    ensures TotalPreorder(ByPath)
  {
    forall a: FileInfo, b: FileInfo ensures ByPath(a, b) || ByPath(b, a) {
      LexLeTotal(a.path, b.path);
    }
    forall a: FileInfo, b: FileInfo, c: FileInfo | ByPath(a, b) && ByPath(b, c) ensures ByPath(a, c) {
      LexLeTrans(a.path, b.path, c.path);
    }
  }

  /** The rows of set i come in ascending path order. */
  lemma SetRowsOrdered(sets: seq<seq<Path>>, fs: FS, i: nat)
    requires i < |sets|
    ensures var rows := SetRows(i + 1, SortedInfos(sets[i], fs));
            forall a, b :: 0 <= a < b < |rows| ==> LexLe(rows[a].path, rows[b].path)
  {
    ByPathOrder();
    SortBySorted(Infos(sets[i], fs), ByPath);
  }

  /** The rows of set i: one per member, labelled i+1, each with the
      member's own size and mtime. */
  lemma SetRowsMembers(sets: seq<seq<Path>>, fs: FS, i: nat)
    requires Statable(sets, fs) && i < |sets|
    ensures var rows := SetRows(i + 1, SortedInfos(sets[i], fs));
            && |rows| == |sets[i]|
            && (forall k :: 0 <= k < |rows| ==>
                  (rows[k].path in sets[i] && rows[k].path in fs
                   && rows[k] == DupeRow(i + 1, rows[k].path, fs[rows[k].path].size, fs[rows[k].path].mtime)))
            && (forall p :: p in sets[i] ==> exists k :: 0 <= k < |rows| && rows[k].path == p)
  {
    var s := sets[i];
    InfosAll(s, fs);
    var infos := Infos(s, fs);
    var sorted := SortedInfos(s, fs);
    var rows := SetRows(i + 1, sorted);
    forall k | 0 <= k < |rows|
      ensures rows[k].path in s && rows[k].path in fs
              && rows[k] == DupeRow(i + 1, rows[k].path, fs[rows[k].path].size, fs[rows[k].path].mtime)
    {
      var j := SortedSource(s, fs, k);
      assert s[j] in s;
    }
    forall p | p in s ensures exists k :: 0 <= k < |rows| && rows[k].path == p {
      var j :| 0 <= j < |s| && s[j] == p;
      var k := SortedTarget(s, fs, j);
      assert rows[k].path == p;
    }
  }

  /** Where the k-th sorted entry came from. */
  lemma SortedSource(s: seq<Path>, fs: FS, k: nat) returns (j: nat)
    requires |Infos(s, fs)| == |s| && k < |s|
    ensures j < |s| && SortedInfos(s, fs)[k] == Infos(s, fs)[j]
  {
    var infos, sorted := Infos(s, fs), SortedInfos(s, fs);
    assert sorted[k] in multiset(infos) by { assert sorted[k] in multiset(sorted); }
    j :| 0 <= j < |infos| && infos[j] == sorted[k];
  }

  /** Where the j-th entry went in the sorted order. */
  lemma SortedTarget(s: seq<Path>, fs: FS, j: nat) returns (k: nat)
    requires |Infos(s, fs)| == |s| && j < |s|
    ensures k < |s| && SortedInfos(s, fs)[k] == Infos(s, fs)[j]
  {
    var infos, sorted := Infos(s, fs), SortedInfos(s, fs);
    assert infos[j] in multiset(sorted) by { assert infos[j] in multiset(infos); }
    k :| 0 <= k < |sorted| && sorted[k] == infos[j];
  }

  /** The result loop's invariant: the batches sent and the rows pending are
      all rows so far, every batch sent holds at least 100 rows, and fewer
      than 100 are pending. */
  lemma {:induction false} EmitInvariant(sets: seq<seq<Path>>, fs: FS)
    requires Statable(sets, fs)
    ensures Flatten(Emit(sets, fs).batches) + Emit(sets, fs).pending == AllRows(sets, fs)
    ensures forall b :: b in Emit(sets, fs).batches ==> |b| >= ResultsBatchRows
    ensures |Emit(sets, fs).pending| < ResultsBatchRows
  {
    if sets != [] {
      var n := |sets|;
      var prefix := sets[..n - 1];
      EmitInvariant(prefix, fs);
      InfosLength(sets, n - 1, fs);
      EmitSetInvariant(Emit(prefix, fs), n, SortedInfos(sets[n - 1], fs));
      assert AllRows(sets, fs) == AllRows(prefix, fs) + SetRows(n, SortedInfos(sets[n - 1], fs));
    }
  }

  /** One turn keeps the invariant: the set's rows are appended to what has
      been sent or is pending. */
  lemma EmitSetInvariant(e: Emission, setNo: nat, infos: seq<FileInfo>)
    requires infos != []
    requires forall b :: b in e.batches ==> |b| >= ResultsBatchRows
    requires |e.pending| < ResultsBatchRows
    ensures Flatten(EmitSet(e, setNo, infos).batches) + EmitSet(e, setNo, infos).pending
            == Flatten(e.batches) + e.pending + SetRows(setNo, infos)
    ensures forall b :: b in EmitSet(e, setNo, infos).batches ==> |b| >= ResultsBatchRows
    ensures |EmitSet(e, setNo, infos).pending| < ResultsBatchRows
  {
    var rows := SetRows(setNo, infos);
    var pending := e.pending + rows;
    ConcatAssoc(Flatten(e.batches), e.pending, rows);
    if |pending| >= ResultsBatchRows {
      FlattenAppend(e.batches, [pending]);
      assert Flatten([pending]) == pending by { assert [pending][..0] == []; }
    }
  }

  /** The batches deliver all rows in order; each is non-empty, and all but
      the last hold at least 100 rows. */
  lemma ScanBatchesSpec(sets: seq<seq<Path>>, fs: FS)
    requires Statable(sets, fs)
    ensures Flatten(ScanBatches(sets, fs)) == AllRows(sets, fs)
    ensures forall i :: 0 <= i < |ScanBatches(sets, fs)| ==> ScanBatches(sets, fs)[i] != []
    ensures forall i :: 0 <= i < |ScanBatches(sets, fs)| - 1 ==> |ScanBatches(sets, fs)[i]| >= ResultsBatchRows
  {
    var e := Emit(sets, fs);
    EmitInvariant(sets, fs);
    var tail := if e.pending == [] then [] else [e.pending];
    FlattenAppend(e.batches, tail);
    assert tail != [] ==> Flatten(tail) == e.pending;
    var all := ScanBatches(sets, fs);
    forall i | 0 <= i < |all| ensures all[i] != [] {
      if i < |e.batches| { assert all[i] in e.batches; }
    }
    forall i | 0 <= i < |all| - 1 ensures |all[i]| >= ResultsBatchRows {
      assert all[i] in e.batches;
    }
  }

  /** Every member of s exists and has the size of the first. */
  predicate SameSize(s: seq<Path>, fs: FS) {
    s != [] && s[0] in fs && forall p :: p in s ==> p in fs && fs[p].size == fs[s[0]].size
  }

  /** The entry sorted first has the set's common size. */
  lemma SortedFirstSize(s: seq<Path>, fs: FS)
    requires SameSize(s, fs)
    ensures |SortedInfos(s, fs)| == |s| && SortedInfos(s, fs)[0].size == fs[s[0]].size
  {
    InfosAll(s, fs);
    var j := SortedSource(s, fs, 0);
    assert s[j] in s;
  }

  /** The wasted space the loop adds up is the reference sum, for sets whose
      members share one size. */
  lemma {:induction false} EmitWasted(sets: seq<seq<Path>>, fs: FS)
    requires Statable(sets, fs)
    requires forall i :: 0 <= i < |sets| ==> SameSize(sets[i], fs)
    ensures Emit(sets, fs).wasted == WastedSpace(sets, fs)
  {
    if sets != [] {
      var n := |sets|;
      var prefix := sets[..n - 1];
      assert forall i :: 0 <= i < |prefix| ==> prefix[i] == sets[i];
      EmitWasted(prefix, fs);
      SortedFirstSize(sets[n - 1], fs);
    }
  }

  // ---------------------------------------------------------------------
  // The messages of the whole task
  // ---------------------------------------------------------------------

  /** Hashing progress is status lines only: one per ten groups. */
  lemma {:induction false} ProgressSpec(n: nat, total: nat)
    ensures |Progress(n, total)| == n / 10
    ensures AllStatus(Progress(n, total))
  {
    if n > 0 {
      ProgressSpec(n - 1, total);
      assert n % 10 == 0 ==> n / 10 == (n - 1) / 10 + 1;
      assert n % 10 != 0 ==> n / 10 == (n - 1) / 10;
    }
  }

  lemma ResultsNoTerminal(sets: seq<seq<Path>>, fs: FS)
    requires Statable(sets, fs)
    ensures NoTerminal(Results(sets, fs))
  {
    NoTerminalConcat([Populating], BatchMsgs(DupeView, ScanBatches(sets, fs)));
  }

  /** The rows the result stage sends are all rows of all sets. */
  lemma ResultsRows(sets: seq<seq<Path>>, fs: FS)
    requires Statable(sets, fs)
    ensures BatchRows(Results(sets, fs), DupeView) == AllRows(sets, fs)
  {
    var head := [Populating];
    BatchRowsAppend(head, BatchMsgs(DupeView, ScanBatches(sets, fs)), DupeView);
    assert BatchRows(head, DupeView) == [] by { assert head[..0] == []; }
    BatchMsgsRows(DupeView, ScanBatches(sets, fs));
    ScanBatchesSpec(sets, fs);
  }

  lemma LeadStatuses(walked: nat, groups: nat, useHash: bool, cancel: CancelSchedule)
    ensures AllStatus(LeadFor(walked, groups, useHash, cancel))
  {
    if !SeenBefore(cancel, walked) && groups != 0 && useHash {
      var checked := ChecksPassed(cancel, walked, groups);
      var head := [Scanning, Comparing,
                   Hashing(groups)];
      ProgressSpec(checked, groups);
      AllStatusConcat(head, Progress(checked, groups));
    }
  }

  lemma LastIsLast(walk: seq<Listing>, fs: FS, useHash: bool, hash: seq<bv8> -> string, cancel: CancelSchedule)
    ensures var msgs := ScanMessages(walk, fs, useHash, hash, cancel);
            msgs != [] && msgs[|msgs| - 1] == ScanLast(walk, fs, useHash, hash, cancel)
  {
  }

  lemma OneNoRows(m: Msg, v: View)
    requires !m.ResultsBatch?
    ensures BatchRows([m], v) == []
  {
    assert [m][..0] == [];
  }

  /** The rows the queue carries are the result stage's. */
  lemma ScanRows(walk: seq<Listing>, fs: FS, useHash: bool, hash: seq<bv8> -> string, cancel: CancelSchedule)
    ensures BatchRows(ScanMessages(walk, fs, useHash, hash, cancel), DupeView) == BatchRows(ScanTail(walk, fs, useHash, hash, cancel), DupeView)
  {
    var lead, tail, last := ScanLead(walk, fs, useHash, cancel), ScanTail(walk, fs, useHash, hash, cancel), ScanLast(walk, fs, useHash, hash, cancel);
    LeadStatuses(|walk|, |SizeGroups(WalkFiles(walk), fs)|, useHash, cancel);
    StatusesNoRows(lead, DupeView);
    OneNoRows(last, DupeView);
    BatchRowsAppend(lead, tail, DupeView);
    BatchRowsAppend(lead + tail, [last], DupeView);
  }

  /** scan_logic puts exactly one terminal message on the queue, as its last. */
  lemma ScanEndsOnce(walk: seq<Listing>, fs: FS, useHash: bool, hash: seq<bv8> -> string, cancel: CancelSchedule)
    ensures EndsOnce(ScanMessages(walk, fs, useHash, hash, cancel))
  {
    var ps := WalkFiles(walk);
    var lead, tail := ScanLead(walk, fs, useHash, cancel), ScanTail(walk, fs, useHash, hash, cancel);
    LeadStatuses(|walk|, |SizeGroups(WalkFiles(walk), fs)|, useHash, cancel);
    StatusesNoRows(lead, DupeView);
    FinalSetsStatable(ps, fs, useHash, hash);
    if tail != [] { ResultsNoTerminal(FinalSets(ps, fs, useHash, hash), fs); }
    NoTerminalConcat(lead, tail);
    EndsOnceWith(lead + tail, ScanLast(walk, fs, useHash, hash, cancel));
  }

  /** The scan ends with "cancelled" exactly when the flag is seen at one of
      its checks, and a cancelled scan sends no result rows. */
  lemma ScanCancelled(walk: seq<Listing>, fs: FS, useHash: bool, hash: seq<bv8> -> string, cancel: CancelSchedule)
    ensures var msgs := ScanMessages(walk, fs, useHash, hash, cancel);
            && msgs != []
            && (msgs[|msgs| - 1] == Cancelled <==> !ScanRuns(walk, fs, cancel))
            && (msgs[|msgs| - 1] == Cancelled ==> BatchRows(msgs, DupeView) == [])
  {
    ScanRows(walk, fs, useHash, hash, cancel);
    LastIsLast(walk, fs, useHash, hash, cancel);
    LastCancelled(walk, fs, useHash, hash, cancel);
    assert BatchRows([], DupeView) == [];
  }

  lemma LastCancelled(walk: seq<Listing>, fs: FS, useHash: bool, hash: seq<bv8> -> string, cancel: CancelSchedule)
    ensures ScanLast(walk, fs, useHash, hash, cancel) == Cancelled <==> !ScanRuns(walk, fs, cancel)
    ensures !ScanRuns(walk, fs, cancel) ==> ScanTail(walk, fs, useHash, hash, cancel) == []
  {
  }

  /** A scan that runs to the end shows every row of every final set and
      reports their number; after a size pass with candidates, its summary
      carries the wasted space of the reference definition. */
  lemma ScanReportsAllRows(walk: seq<Listing>, fs: FS, useHash: bool, hash: seq<bv8> -> string, cancel: CancelSchedule)
    requires ScanRuns(walk, fs, cancel)
    ensures var sets := FinalSets(WalkFiles(walk), fs, useHash, hash);
            var msgs := ScanMessages(walk, fs, useHash, hash, cancel);
            && Statable(sets, fs)
            && BatchRows(msgs, DupeView) == AllRows(sets, fs)
            && msgs != [] && msgs[|msgs| - 1].PreviewDone? && msgs[|msgs| - 1].count == |sets|
            && (SizeGroups(WalkFiles(walk), fs) != [] ==>
                  msgs[|msgs| - 1].summary == ScanStats(|sets|, WastedSpace(sets, fs)))
  {
    var ps := WalkFiles(walk);
    var sets := FinalSets(ps, fs, useHash, hash);
    var msgs := ScanMessages(walk, fs, useHash, hash, cancel);
    FinalSetsStatable(ps, fs, useHash, hash);
    ScanRows(walk, fs, useHash, hash, cancel);
    LastIsLast(walk, fs, useHash, hash, cancel);
    if SizeGroups(ps, fs) == [] {
      assert BatchRows([], DupeView) == [];
    } else {
      ResultsRows(sets, fs);
      FinalSetsSameSize(ps, fs, useHash, hash);
      EmitWasted(sets, fs);
    }
  }
}
