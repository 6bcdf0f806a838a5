# FileManager scan/action engine in Dafny

`FileManager.py` is a Tkinter desktop file manager. Behind its tabs sits a
small engine. A worker thread walks a source directory, either reporting
what it finds or deleting things. It puts `(msg_type, data)` tuples on a
queue. The UI thread drains that queue in batches, and a shared
`threading.Event` lets the user cancel the running task.

This project models that engine over an abstract filesystem. The filesystem
is a map from path to a record: kind, size, mtime, content, and whether the
entry can be read and whether it can be deleted. The model covers:

- the duplicate finder `scan_logic`: a size pass, then an mtime or digest
  pass, then sorted result rows sent in batches of 100 with the wasted bytes
  (modules `Duplicates`, `DuplicateScan`, `Groups`, `Sorting`);
- the auto-delete `auto_delete_logic` with its three retention strategies,
  and the delete of a selection, `generic_delete_logic` (modules `Retention`,
  `Deletion`);
- the empty-folder cleanup `delete_empty_folders_logic`, which removes junk
  files first (module `Cleanup`);
- the Folder Analyzer: `analyzer_scan_logic` and its `check_filters`, folded
  bottom-up over a post-order walk (module `Analyzer`), and its
  deepest-first delete, `start_analyzer_delete` plus `analyzer_delete_logic`
  (module `AnalyzerDelete`);
- `safe_delete` and `get_unique_filename` (module `FileSystem`);
- the task slot and queue drain: `start_task`, `cancel_task` and the second
  `check_queue` (module `Session`, class `App`);
- the small pure classifiers: extension-list parsing, the Collector match,
  the Finder filter block and its validation, and the Sorter's by-extension
  folder name (module `Classifiers`);
- the string and path primitives those need, written out the way Python
  behaves: `str.lower`/`upper`, `strip`, `split`, `posixpath.join`,
  `basename`, `dirname`, `splitext`, and str ordering (modules `Strings`,
  `Paths`).

Each worker is a method that changes nothing. It returns the messages it
would put on the queue, in order, and the filesystem its deletes leave
behind. Its `ensures` ties that result to a specification function: a fold
over the walk, in the same order as the loop. Lemmas then prove what the
program promises about that function.

Cancellation is a `CancelSchedule`: either the flag is never seen, or it is
first seen at the worker's n-th `is_set()` check (`After(n)`). Because the
Event is never cleared, every later check sees it too. Every loop head of a
worker is one check, numbered in the order they run.

## Model

| member | source | states |
|---|---|---|
| Strings.Lower | FileManager.py:1252 | `str.lower()` maps each character separately and keeps the length |
| Strings.LowerIdempotent | FileManager.py:1279 | lowering twice is lowering once, so an extension compares the same whether or not it was already lowered |
| Strings.LowerOfUpper | FileManager.py:1133-1138 | lowering forgets any earlier upper-casing |
| Strings.UpperOfLower | FileManager.py:1133-1138 | upper-casing forgets any earlier lowering, so the Sorter's folder name ignores the extension's case |
| Strings.LowerAppend | FileManager.py:1279 | lowering distributes over concatenation |
| Strings.LStrip | FileManager.py:1252 | the result is a suffix of the input; everything dropped is whitespace; the result does not start with whitespace |
| Strings.RStrip | FileManager.py:1252 | the result is a prefix of the input; everything dropped is whitespace; the result does not end with whitespace |
| Strings.Strip | FileManager.py:1252 | the result is a slice of the input with only whitespace outside it, and it neither starts nor ends with whitespace |
| Strings.Split | FileManager.py:1252 | `str.split(sep)` gives at least one piece |
| Strings.SplitPieces | FileManager.py:1252 | no piece of `str.split(sep)` holds the separator |
| Strings.SplitJoin | FileManager.py:1252 | joining the pieces of `str.split(sep)` with the separator gives back the input |
| Strings.NatToString | FileManager.py:1001-1004 | the decimal text of a count is non-empty and all digits |
| Strings.NatToStringRoundTrip | FileManager.py:1001-1004 | reading the decimal text back gives the number |
| Strings.NatToStringInjective | FileManager.py:2180-2183 | different counters give different texts |
| Strings.LexLeTotal | FileManager.py:897 | Python's str order compares any two strings |
| Strings.LexLeAntisym | FileManager.py:897 | two strings ordered both ways are equal |
| Strings.LexLeTrans | FileManager.py:897 | str order is transitive |
| Paths.Join | FileManager.py:804 | `os.path.join(a, b)` gives b when b is absolute, else a's directory prefix (with a '/' added when missing) followed by b |
| Paths.UnderTrans | FileManager.py:1738-1739 | "lies inside" is transitive |
| Paths.UnderJoin | FileManager.py:804 | whatever lies inside `join(p, name)` lies inside p |
| Paths.SiblingsDisjoint | FileManager.py:1661 | two different names in one directory head disjoint subtrees |
| Paths.UnderLonger | FileManager.py:1738-1739 | a path strictly inside another is strictly longer |
| Paths.DirPrefix | FileManager.py:804 | what `os.path.join` puts before a relative name extends the directory path and ends in '/' unless empty |
| Paths.Basename | FileManager.py:1693 | `os.path.basename` is the part of the path after its last separator, and holds no separator |
| Paths.SplitExt | FileManager.py:2179 | `os.path.splitext` splits the path into root and extension that concatenate back to it; the extension is empty or a dot in the last component, followed by no dot or separator, with a non-dot character before it in that component; an extension is split off exactly when the last dot follows the last separator with a non-dot character between them, and then the root is everything before that dot |
| Sorting.SortBy | FileManager.py:897 | a stable sort keeps the length and the multiset of its input |
| Sorting.SortBySorted | FileManager.py:966-972 | for a total preorder the result is sorted and a permutation of the input |
| Sorting.SortByHead | FileManager.py:974 | after a stable sort the head is the first least element of the input |
| Sorting.FirstLeastSpec | FileManager.py:966-974 | the first least element is below every element, and strictly below every element before it |
| Groups.AddToSpec | FileManager.py:808-811 | appending to a dict of lists keeps the keys distinct, adds the key, appends the item to that key's list only, and adds exactly one member |
| Groups.GroupPairsSpec | FileManager.py:808-811 | grouping items into a dict of lists gives distinct keys, each key's list is its items in order, and every item lands exactly once |
| Groups.SharedGroup | FileManager.py:808-818 | two different items with one key end in the same group, which has more than one member |
| FileSystem.RemoveTree | FileManager.py:2163-2165 | removing a path removes exactly the entries inside it and leaves the others unchanged |
| FileSystem.SafeDelete | FileManager.py:2153-2172 | never raises; True exactly when the entry exists and can be removed, or, without a trash facility, when it does not exist; after True on an existing path its subtree is gone, after False nothing changed |
| FileSystem.SafeDeleteOnlyRemoves | FileManager.py:2153-2172 | a delete adds nothing and keeps every entry outside the deleted path |
| FileSystem.GetUniqueFilename | FileManager.py:2174-2185 | the result does not exist; it is the path itself when that is free; otherwise it is "base (i)ext" for the smallest i >= 1 that is free |
| FileSystem.CandidateInjective | FileManager.py:2179-2183 | different counters give different candidate names |
| FileSystem.UniqueNameDeterministic | FileManager.py:2174-2185 | two calls on an unchanged filesystem give the same answer |
| FileSystem.UniqueNameAfterCreate | FileManager.py:2174-2185 | after the suggested file is created, asking again gives a different and later candidate |
| Cancellation.SeenStays | FileManager.py:617-621 | once a check has seen the flag, every later check sees it |
| Cancellation.ChecksPassed | FileManager.py:983-987 | a loop of n checks gets past all of them unless one sees the flag, and then stops exactly at the first that does |
| Cancellation.CancelToken.Set | FileManager.py:619 | `Event.set()` sets the flag |
| Messages.BatchMsgsRows | FileManager.py:906-911 | the rows of a list of batches, read back from the messages, are their concatenation |
| Messages.EndsOnceWith | FileManager.py:1868-2018 | a message list without terminals followed by one terminal ends exactly once |
| Deletion.DeleteLoop | FileManager.py:983-995 | the shared delete loop stops at the first check that sees the flag, and its tally is the specification fold over the paths before that check |
| Deletion.DeleteAllCounts | FileManager.py:983-995 | every path is counted once, as deleted or as failed, with one "Deleting i/total: name" status line each, and deleting only removes entries |
| Deletion.DeleteAllGone | FileManager.py:983-995 | when no delete failed, none of the paths exists any more |
| Deletion.DeleteAllKeeps | FileManager.py:983-995 | entries that lie inside none of the paths are left exactly as they were |
| Retention.OrderTotal | FileManager.py:966-972 | each strategy's sort key is a total preorder |
| Retention.SurvivorSpec | FileManager.py:966-974 | the kept file is the first among those with the greatest mtime (keep newest), the least mtime (keep oldest) or the least path (keep first found) |
| Retention.SetMarkedSpec | FileManager.py:974-976 | a set gives up exactly all members but one, and those plus the survivor are the set |
| Retention.MarkedCount | FileManager.py:958-976 | across all sets, the number of marked files is the sum of (set size - 1) over the non-empty sets |
| Retention.MarkedPartition | FileManager.py:958-976 | the marked files and the survivors together are exactly all members of all sets |
| Retention.MarkForDeletion | FileManager.py:958-976 | the planning loop is cancelled exactly when one of its per-set checks sees the flag; otherwise it yields the marked paths and their iids, set after set |
| Retention.AutoDeleteLogic | FileManager.py:952-1008 | the worker's messages and resulting filesystem are the specification run |
| Retention.AutoDeleteEnds | FileManager.py:952-1008 | exactly one terminal message, the last; it is "cancelled" exactly when a check saw the flag before the end, and then no tree row was removed |
| Retention.AutoDeleteCounts | FileManager.py:983-1004 | in a run nobody stops, deleted + failed equals the number of marked files, and every marked iid goes out with `remove_dupe_iids`, whether or not its delete succeeded |
| Retention.AutoDeleteKeeps | FileManager.py:983-996 | deleting only removes, and every entry inside no marked path (so every survivor) is left unchanged |
| Retention.GenericDeleteLogic | FileManager.py:1827-1858 | the selection's delete is the shared loop followed by the removal of the selected rows and the "Delete complete" summary |
| Retention.DeletePhaseEnds | FileManager.py:1827-1858 | one terminal message, the last; "cancelled" exactly when a check saw the flag, and then no row was removed |
| Retention.DeletePhaseComplete | FileManager.py:1835-1853 | when nobody stops the loop, every path is tried once and the summary reports those counts |
| Retention.DeletePhaseKeeps | FileManager.py:1835-1845 | the delete of a selection removes only entries inside the selected paths |
| Retention.AfterPlanningEnds | FileManager.py:978-1008 | after planning, the run ends exactly once, with "cancelled" exactly when a later check sees the flag |
| Paths.JoinAll | FileManager.py:804 | joining a folder to each name of a listing gives one path per name, in order |
| Duplicates.SizeItemsMember | FileManager.py:804-811 | a file enters pass 1 exactly when it was walked, exists, and has size >= 1, keyed by its size |
| Duplicates.SizeGroupMember | FileManager.py:807-818 | every surviving size group has more than one member, all walked and existing files of that size >= 1 |
| Duplicates.SizeGroupShared | FileManager.py:807-818 | two walked files of one size >= 1 land in the same surviving size group |
| Duplicates.FastSetShape | FileManager.py:826-847 | every fast-mode set has at least two members, all of one size >= 1 and one mtime |
| Duplicates.HashSetShape | FileManager.py:851-878 | every hash-mode set has at least two readable members of one size >= 1 and one digest |
| Duplicates.FastSameSet | FileManager.py:798-847 | in fast mode, two different paths share a set exactly when both were walked and have the same size >= 1 and the same mtime |
| Duplicates.HashSameSet | FileManager.py:798-878 | in hash mode, two different paths share a set exactly when both were walked, are readable and have the same size >= 1 and the same digest |
| Duplicates.HashSetsExactContent | FileManager.py:851-878 | with a collision-free digest, hash-mode sets group exactly the files with equal content |
| Duplicates.FinalSetsSameSize | FileManager.py:826-878 | every member of a final set has the size of its first member |
| Duplicates.FinalSetsOnce | FileManager.py:826-878 | no path appears in two final sets, nor twice in one |
| Duplicates.SetRowsOrdered | FileManager.py:895-897 | a set's rows come in ascending path order |
| Duplicates.SetRowsMembers | FileManager.py:892-905 | a set's rows are exactly its members, once each, labelled with the set number and showing their size and mtime |
| Duplicates.ScanBatchesSpec | FileManager.py:889-911 | the batches are non-empty, all but the last hold at least 100 rows, and together they are all the rows in order |
| Duplicates.EmitWasted | FileManager.py:899 | the wasted total is the sum over sets of the first member's size times (members - 1) |
| Duplicates.ProgressSpec | FileManager.py:861-863 | the hash pass sends one progress status per ten groups checked |
| Duplicates.ScanEndsOnce | FileManager.py:789-922 | a scan sends exactly one terminal message, the last |
| Duplicates.ScanCancelled | FileManager.py:789-922 | the scan ends with "cancelled" exactly when one of its checks sees the flag, and then it has sent no result rows |
| Duplicates.ScanReportsAllRows | FileManager.py:880-918 | a scan nobody stops sends all rows of the final sets and ends with the sets' count |
| DuplicateScan.SizePass | FileManager.py:798-818 | pass 1 is cancelled exactly when a per-directory check sees the flag; otherwise it yields the surviving size groups |
| DuplicateScan.FastPass | FileManager.py:824-847 | the mtime pass is cancelled exactly when a per-group check sees the flag; otherwise it yields the fast-mode sets |
| DuplicateScan.HashPass | FileManager.py:849-878 | the digest pass is cancelled exactly when a per-group check sees the flag; otherwise it yields the hash-mode sets, with the progress lines for the groups checked |
| DuplicateScan.ResultStage | FileManager.py:880-911 | the result stage sends the specification's batches and computes the wasted total |
| DuplicateScan.ScanLogic | FileManager.py:789-922 | the worker's messages are the specification's messages for the walk |
| DuplicateScan.EndNoGroups | FileManager.py:820-822 | with no size group left, the scan ends with "Scan complete. No potential duplicates found." and zero sets |
| DuplicateScan.EndReport | FileManager.py:880-918 | when groups remain and nobody stops it, the scan ends with the result batches and the summary |
| Analyzer.CheckFilters | FileManager.py:1641-1657 | an item passes exactly when it meets each set filter strictly; the item-count filter is ignored for files; with no filter everything passes |
| Analyzer.FileIgnoresItems | FileManager.py:1650-1655 | for a file, the result does not depend on the item filter or the count |
| Analyzer.OneVisit | FileManager.py:1661-1704 | one visit stores the folder's totals under its path and lists its rows |
| Analyzer.TreeValue | FileManager.py:1661-1697 | the post-order walk of a tree, from a table with nothing recorded inside it, stores the tree's recursive size and item totals under the tree's own path; Analyzer.EntriesValues, which it calls, gives the same for each entered subfolder |
| Analyzer.EntriesValues | FileManager.py:1661-1697 | the walks of a folder's entries, from a table with nothing recorded inside the folder, store each entered subfolder's recursive size and item totals under join(folder, name) |
| Analyzer.SourceTotals | FileManager.py:1661-1704 | the loop's map gives the source folder its recursive totals, and the rows it lists are the recursive listing of the tree |
| Analyzer.TreeListing | FileManager.py:1661-1704 | the rows the walk lists are those of the recursive listing of the tree |
| Analyzer.VisitListsFolder | FileManager.py:1697-1704 | a folder row is listed exactly when the folder is not the source and its totals pass the filters |
| Analyzer.FileRowsAreFiles | FileManager.py:1672-1685 | file rows are file rows of the visited folder |
| Analyzer.ScanFiles | FileManager.py:1672-1685 | the file loop sums the sizes and counts of the files that can be stat'ed, listing those that pass the filters when files are included |
| Analyzer.SumSubdirs | FileManager.py:1688-1689 | subfolder totals are summed from the map, counting a missing entry as 0 |
| Analyzer.VisitFolder | FileManager.py:1668-1704 | one visit computes the folder's totals and rows |
| Analyzer.AnalyzerScanLogic | FileManager.py:1633-1717 | the worker's messages are the specification's messages for the walk |
| Analyzer.ScanInvariant | FileManager.py:1661-1711 | the loop's map is the fold of the visits, the rows sent plus the rows pending are all rows listed, and the found count is their number |
| Analyzer.AnalyzerEnds | FileManager.py:1661-1713 | one terminal message, the last; "cancelled" exactly when a check saw the flag; otherwise the rows sent are all rows listed and the summary reports their number |
| AnalyzerDelete.RowPaths | FileManager.py:1729-1736 | each selected row gives `join(path, name)` |
| AnalyzerDelete.PlanOrder | FileManager.py:1738-1739 | the plan holds every selected path, as often as selected, sorted by non-increasing length, and any path inside another comes before it |
| AnalyzerDelete.AnalyzerDeleteLogic | FileManager.py:1746-1785 | the worker's messages and resulting filesystem are the specification run |
| AnalyzerDelete.PlanDeleteFrame | FileManager.py:1752-1771 | one status line per planned path, deleting only removes, and entries inside no planned path are unchanged |
| AnalyzerDelete.PlanDeleteCounts | FileManager.py:1759-1771 | with a deepest-first plan of distinct paths, deleted + failed equals the number of planned paths present in the filesystem at the START of the run (an earlier deletion never removes a later planned path); a path missing at the start counts as neither |
| AnalyzerDelete.AnalyzerDeleteEnds | FileManager.py:1746-1785 | one terminal message, the last; "cancelled" exactly when a check saw the flag, and then no row was removed; otherwise the rows are removed just before the summary |
| AnalyzerDelete.AnalyzerDeleteCounts | FileManager.py:1752-1781 | in a run nobody stops, with a deepest-first plan of distinct paths, the summary reports counts whose sum is the number of planned paths present at the start of the run |
| Cleanup.ListDir | FileManager.py:1039-1040 | `os.listdir` gives exactly the names of the listing that still exist: every returned name is listed and present, and every listed name still present is returned |
| Cleanup.ScanFolder | FileManager.py:1041-1048 | a folder is empty exactly when every name in it is a junk file, and then its junk paths are collected |
| Cleanup.RemoveJunk | FileManager.py:1053-1059 | the junk loop counts the deletes and stops at the first failure |
| Cleanup.CleanFolder | FileManager.py:1036-1070 | one folder's cleanup is the specification step |
| Cleanup.DeleteEmptyFoldersLogic | FileManager.py:1019-1079 | the worker's messages and resulting filesystem are the specification run |
| Cleanup.DeleteJunkAll | FileManager.py:1053-1059 | when every junk file exists, can be deleted and none is inside another, all are deleted and counted |
| Cleanup.CleanEmpty | FileManager.py:1036-1070 | a readable folder holding only deletable junk is reported, its junk counted, and the folder removed |
| Cleanup.CleanKeepsUsed | FileManager.py:1041-1048 | a folder holding any non-junk name is left alone and counts nothing |
| Cleanup.CleanFrame | FileManager.py:1036-1070 | one folder's cleanup removes nothing outside that folder |
| Cleanup.SweepFrame | FileManager.py:1028-1070 | the sweep changes nothing outside the non-source folders it visits |
| Cleanup.SourceKept | FileManager.py:1032-1033 | the source directory itself is never removed |
| Cleanup.CleanupEnds | FileManager.py:1019-1079 | one terminal message, the last; "cancelled" exactly when a check saw the flag; otherwise the summary reports the folders and junk files deleted |
| Classifiers.ParsedEntries | FileManager.py:1252 | an extension is parsed exactly when some comma-separated piece is not blank and the extension is "." plus that piece stripped and lowered |
| Classifiers.ParseExtensionsUnion | FileManager.py:1252 | parsing "a,b" gives the union of parsing a and parsing b |
| Classifiers.ParsedShape | FileManager.py:1252 | every parsed extension starts with '.', has at least one more character, holds no comma, does not end in whitespace and is already lower case |
| Classifiers.CollectorMatchesTyped | FileManager.py:1279-1280 | a file is collected exactly when it has an extension and some non-blank typed piece equals it, ignoring case |
| Classifiers.CollectorExtensions | FileManager.py:1245-1261 | the Collector starts exactly when the text is non-empty and parses to at least one extension, and then uses that set; otherwise it shows the source's error |
| Classifiers.FinderMatches | FileManager.py:1457-1476 | a file is found exactly when it meets every enabled filter: strictly greater or less in size, strictly before or after in mtime, and membership of its lowered extension |
| Classifiers.FinderNarrows | FileManager.py:1457-1476 | adding filters can only remove files from the result |
| Classifiers.FinderStrict | FileManager.py:1457-1467 | a file exactly at the size or date threshold is never found |
| Classifiers.FinderAgreesWithCollector | FileManager.py:1420-1476 | an extension-only Finder search finds exactly what the Collector collects for the same text |
| Classifiers.FinderSetup | FileManager.py:1394-1437 | the search starts exactly when an enabled extension filter parses to something and at least one filter is enabled, and then uses those filters; otherwise it shows the source's error |
| Classifiers.SorterExtName | FileManager.py:1133-1138 | the by-extension folder name never holds a '/' |
| Classifiers.SorterNoExtension | FileManager.py:1133-1138 | the folder is "No Extension" exactly when the file has no extension |
| Classifiers.SorterCaseBlind | FileManager.py:1133-1138 | files whose extensions differ only in case go to the same folder |
| Classifiers.SorterTrailingDot | FileManager.py:1133-1138 | a file whose extension is a lone '.' gets an empty folder name |
| Classifiers.SorterExtDest | FileManager.py:1106-1140 | a file's destination lies strictly inside "Sorted by Extension" under the source directory |
| Session.Taken | FileManager.py:1868 | one cycle takes all queued messages, or 50 when more are waiting |
| Session.DrainedDone | FileManager.py:1868-2004 | a cycle has seen a terminal message exactly when its batch holds one |
| Session.DrainedFinal | FileManager.py:1868-2004 | the final text is the text of the last terminal message taken |
| Session.DrainedStatus | FileManager.py:1874-1876 | the status bar shows the last status line taken, or what it showed before |
| Session.WorkerOutputDrained | FileManager.py:1861-2018 | drained one worker's whole output, a cycle sees "done" only at its last message and then shows that message's text |
| Session.App.constructor | FileManager.py:50-51 | the window starts with an empty queue and no task; its status bar starts with "Ready. Select a source directory to begin.", the text set at FileManager.py:108 |
| Session.App.StartTask | FileManager.py:597-615 | a task starts exactly when the slot is free and the source is a non-empty directory path, with a fresh unset Event; a refusal changes nothing |
| Session.App.CancelTask | FileManager.py:617-621 | with a task running, sets its flag and shows "Cancelling task..."; with none, changes nothing |
| Session.App.Put | FileManager.py:798 | a worker's put appends to the queue |
| Session.App.CheckQueue | FileManager.py:1861-2021 | a cycle takes the first min(50, n) messages in FIFO order; it frees the slot and shows the final text exactly when a task was running and a terminal message was taken; otherwise the task is kept and the status bar shows the last status line |

## Left out

- The Tkinter UI: widgets, tree insertion and formatting, button enabling, context menus, `sort_treeview`, `update_status` and the message boxes. A message box on a refused start is modelled as a `Refused(title, message)` value. `App.handled` records the messages `check_queue` dispatched, in place of their effect on the widgets.
- Threads: the worker runs as a sequential method and the `Event` is a `CancelSchedule` parameter. The interleaving of the UI thread and the worker is not modelled.
- `hash_file`: the digest is an uninterpreted function of a file's content, passed as a parameter.
- `os.walk`, `os.listdir`, `os.stat` and `os.path.getsize` are inputs. The walk is a list of (root, dirs, files) listings, and the analyzer's walk additionally a post-order tree. `listdir` returns the listing's folders, then its files, keeping those that still exist; a `listdir` failure means the folder is missing, not a directory or unreadable.
- `send2trash` and `shutil.rmtree` inside `safe_delete` are one pure removal that fails for a locked entry. A missing path succeeds only when no trash facility is present, because of the `os.path.exists` test that returns True for it (FileManager.py:2163-2164).
- FileSystem.SafeDelete: the removal is all or nothing, and only the lock of the named entry itself is consulted. A real `shutil.rmtree` (FileManager.py:2168) that fails partway, for instance on a locked descendant, leaves the tree partly removed and returns False; the model returns False with the filesystem unchanged.
- Duplicates.ScanMessages and DuplicateScan.ResultStage: pass 1, pass 2/3 and the result stage all read one filesystem snapshot `fs`, so nothing can change between passes. Three paths of the source therefore cannot arise: a file that vanishes or changes after pass 1 and is skipped by the `except` blocks of pass 2/3 (FileManager.py:834-841, 866-875; an unreadable file within the snapshot is still modelled); a stat failure skipped in the result stage (FileManager.py:890-894); and a final set whose every stat fails, which leaves `files_with_info` empty, raises `IndexError` at FileManager.py:899 and ends with "error" (FileManager.py:920-922). With one snapshot every final set is statable, which is what Duplicates.FinalSetsStatable proves.
- Floats: `format_size`, elapsed seconds in the duplicate summary, float mtimes (integers here) and the float size thresholds. The Finder's thresholds arrive as integer bytes; for `>` and `<` against integer sizes this is exact when a fractional threshold is floored for `>` and ceiled for `<`. The number typed into the size box, `float(...)`, and the date box, `strptime`, arrive already converted, so the "Invalid Date" error is not modelled.
- Text formats that need a float or a date (`strftime`, elapsed time) are left out. The duplicate summary is `ScanStats(sets, wasted)`, giving the numbers the text reports.
- Each worker's outer `except Exception` branch, which sends an "error" message, is left out: the model raises no unexpected exception. The per-file `IOError`/`OSError` branches that the code expects are modelled. So is `check_queue`'s "Critical UI Error" handler, as the absence of any exception.
- The first definition of `check_queue` (FileManager.py:623-770) is dead code, shadowed by the second, and is not modelled.
- `export_csv_report`, `_open_path`, `on_closing`, logging and startup are not part of this model.
- The collector, sorter and finder workers' walks and their move/copy processes are left out; only their match predicates, the extension parsing, the Finder's filter set-up and the Sorter's by-extension naming are modelled. The Sorter's strategy "by date" and its skipping of its own output folders are left out as well.
- `Strings.Lower` and `Strings.Upper` map only ASCII letters; Python's full Unicode case mapping is not modelled.
- Retention.Strategy is a datatype, so the code's fallback for an unrecognised strategy string cannot arise.
- AnalyzerDelete.AnalyzerDeleteRun does not model the placeholder `0` that `analyzer_action_done` carries. Its removal is sent as `remove_finder_items`, the message the Finder shares; `check_queue` tries the Finder's tree and then the Analyzer's for each iid, which is below the model's level of the widgets.
- Classifiers.SorterTrailingDot: for a name like `"report."` the extension is a lone `.`, so the folder name is empty and the file would be placed directly in "Sorted by Extension". The model states this outcome without correcting it.
