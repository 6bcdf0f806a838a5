/** What a worker hands to the UI thread through the queue: one tuple
    (msg_type, data) per `queue.put`. Tree rows keep the numbers they show;
    their on-screen formatting is not part of this model. */
module Messages {
  import opened Strings
  import opened Paths

  /** The five result trees of the window. */
  datatype View = DupeView | SorterView | CollectorView | FinderView | AnalyzerView

  /** A tree row, with sizes in bytes and times as epoch seconds. */
  datatype Row =
    | DupeRow(setLabel: nat, path: Path, size: nat, mtime: int)
    | AnalyzerFileRow(name: string, folder: Path, size: nat)
    | AnalyzerFolderRow(name: string, parent: Path, size: nat, items: nat)

  /** Treeview item ids, echoed back by the action tasks. */
  type Iid = string

  /** A final message: literal text, or the duplicate scan's summary, which
      reports the number of sets and the wasted bytes. */
  datatype Text = Plain(s: string) | ScanStats(sets: nat, wasted: nat)

  datatype Msg =
    | Status(text: string)                         // "status"
    | ResultsBatch(view: View, rows: seq<Row>)     // "<view>_results_batch"
    | ClearTree(view: View)                        // "clear_<view>_tree"
    | RemoveItems(view: View, iids: seq<Iid>)      // "remove_dupe_iids", "remove_finder_items"
    | PreviewDone(view: View, summary: Text, count: nat)  // "<view>_scan_done", "<view>_preview_done"
    | ActionDone(view: View, summary: Text)        // "<view>_action_done"
    | Done(text: string)                           // "done"
    | Error(text: string)                          // "error"
    | Cancelled                                    // "cancelled"
  {
    /** The messages after which check_queue frees the task slot. Only the
        duplicate, Finder and Analyzer trees have an "<view>_action_done"
        branch there. */
    predicate IsTerminal() {
      PreviewDone? || (ActionDone? && view != SorterView && view != CollectorView)
      || Done? || Error? || Cancelled?
    }

    /** The text check_queue shows once the task is over. */
    function FinalText(): Text
      requires IsTerminal()
    {
      match this
      case PreviewDone(_, t, _) => t
      case ActionDone(_, t) => t
      case Done(t) => Plain(t)
      case Error(t) => Plain(t)
      case Cancelled => Plain("Task cancelled by user.")
    }
  }

  /** The rows of every batch sent to view v, in queue order. */
  function BatchRows(msgs: seq<Msg>, v: View): seq<Row> {
    if msgs == [] then []
    else
      var m := msgs[|msgs| - 1];
      BatchRows(msgs[..|msgs| - 1], v) + (if m.ResultsBatch? && m.view == v then m.rows else [])
  }

  /** One batch message per batch. */
  function BatchMsgs(v: View, batches: seq<seq<Row>>): (r: seq<Msg>)
    ensures |r| == |batches|
    ensures forall i :: 0 <= i < |r| ==> r[i] == ResultsBatch(v, batches[i])
  {
    if batches == [] then []
    else BatchMsgs(v, batches[..|batches| - 1]) + [ResultsBatch(v, batches[|batches| - 1])]
  }

  function Flatten<T>(xss: seq<seq<T>>): seq<T> {
    if xss == [] then [] else Flatten(xss[..|xss| - 1]) + xss[|xss| - 1]
  }

  lemma {:induction false} FlattenAppend<T>(a: seq<seq<T>>, b: seq<seq<T>>)
    ensures Flatten(a + b) == Flatten(a) + Flatten(b)
  {
    if b == [] {
      assert a + b == a;
    } else {
      var init, last := b[..|b| - 1], b[|b| - 1];
      assert (a + b)[..|a + b| - 1] == a + init;
      assert (a + b)[|a + b| - 1] == last;
      assert Flatten(a + b) == Flatten(a + init) + last;
      FlattenAppend(a, init);
      assert Flatten(b) == Flatten(init) + last;
    }
  }

  /** Appending messages appends their batch rows. */
  lemma {:induction false} BatchRowsAppend(a: seq<Msg>, b: seq<Msg>, v: View)
    ensures BatchRows(a + b, v) == BatchRows(a, v) + BatchRows(b, v)
  {
    if b == [] {
      assert a + b == a;
    } else {
      var init, last := b[..|b| - 1], b[|b| - 1];
      var extra := if last.ResultsBatch? && last.view == v then last.rows else [];
      assert (a + b)[..|a + b| - 1] == a + init && (a + b)[|a + b| - 1] == last;
      assert BatchRows(a + b, v) == BatchRows(a + init, v) + extra;
      BatchRowsAppend(a, init, v);
      ConcatAssoc(BatchRows(a, v), BatchRows(init, v), extra);
    }
  }

  /** The batch messages for view v deliver exactly the batches' rows. */
  lemma {:induction false} BatchMsgsRows(v: View, batches: seq<seq<Row>>)
    ensures BatchRows(BatchMsgs(v, batches), v) == Flatten(batches)
  {
    if batches != [] {
      var init := batches[..|batches| - 1];
      BatchMsgsRows(v, init);
      assert BatchMsgs(v, batches)[..|batches| - 1] == BatchMsgs(v, init);
    }
  }

  /** Status lines only. */
  predicate AllStatus(msgs: seq<Msg>) {
    forall i :: 0 <= i < |msgs| ==> msgs[i].Status?
  }

  lemma AllStatusConcat(a: seq<Msg>, b: seq<Msg>)
    requires AllStatus(a) && AllStatus(b)
    ensures AllStatus(a + b)
  {
    forall i | 0 <= i < |a + b| ensures (a + b)[i].Status? {
      if i < |a| { assert (a + b)[i] == a[i]; } else { assert (a + b)[i] == b[i - |a|]; }
    }
  }

  /** Status lines carry no rows and are not terminal. */
  lemma {:induction false} StatusesNoRows(msgs: seq<Msg>, v: View)
    requires AllStatus(msgs)
    ensures BatchRows(msgs, v) == [] && NoTerminal(msgs)
  {
    if msgs != [] {
      StatusesNoRows(msgs[..|msgs| - 1], v);
    }
  }

  /** No message is terminal. */
  predicate NoTerminal(msgs: seq<Msg>) {
    forall i :: 0 <= i < |msgs| ==> !msgs[i].IsTerminal()
  }

  /** A worker's output: the last message, and only it, is terminal. */
  predicate EndsOnce(msgs: seq<Msg>) {
    msgs != [] && msgs[|msgs| - 1].IsTerminal() && NoTerminal(msgs[..|msgs| - 1])
  }

  lemma NoTerminalConcat(a: seq<Msg>, b: seq<Msg>)
    requires NoTerminal(a) && NoTerminal(b)
    ensures NoTerminal(a + b)
  {
    forall i | 0 <= i < |a + b| ensures !(a + b)[i].IsTerminal() {
      if i < |a| { assert (a + b)[i] == a[i]; } else { assert (a + b)[i] == b[i - |a|]; }
    }
  }

  lemma EndsOnceWith(a: seq<Msg>, m: Msg)
    requires NoTerminal(a) && m.IsTerminal()
    ensures EndsOnce(a + [m])
  {
    assert (a + [m])[..|a|] == a;
  }
}

/** The threading.Event a task is started with. The worker reads it at fixed
    points (its loop heads), the UI thread may set it at any time, and nothing
    ever clears it. Seen from the worker, the whole run is therefore described
    by the first poll at which the flag is found set, if any. */
module Cancellation {

  datatype CancelSchedule = Never | After(polls: nat)

  /** The worker's k-th is_set() check (counting from 0) answers true. */
  predicate SeenAt(c: CancelSchedule, k: nat) {
    c.After? && c.polls <= k
  }

  /** Some check among the first n answers true. */
  predicate SeenBefore(c: CancelSchedule, n: nat) {
    c.After? && c.polls < n
  }

  /** Once a check has seen the flag, every later check sees it: the flag
      flips at most once. */
  lemma SeenStays(c: CancelSchedule, k: nat, k': nat)
    requires SeenAt(c, k) && k <= k'
    ensures SeenAt(c, k')
  {
  }

  /** Some check among the first n sees the flag iff the last of them does. */
  lemma SeenBeforeLast(c: CancelSchedule, n: nat)
    requires n > 0
    ensures SeenBefore(c, n) <==> SeenAt(c, n - 1)
  {
  }

  /** How many of n loop turns, whose checks are number first .. first+n-1,
      get past their check: all n, or those before the flag is seen. */
  function ChecksPassed(c: CancelSchedule, first: nat, n: nat): (r: nat)
    ensures r <= n
    ensures r < n <==> n > 0 && SeenBefore(c, first + n)
    ensures r < n ==> SeenAt(c, first + r) && (r == 0 || !SeenAt(c, first + r - 1))
  {
    if !SeenBefore(c, first + n) then n
    else if c.polls < first then 0
    else c.polls - first
  }

  /** A loop whose first i checks passed and whose check i sees the flag
      has passed exactly i checks. */
  lemma ChecksPassedAt(c: CancelSchedule, first: nat, n: nat, i: nat)
    requires i < n && SeenAt(c, first + i) && (i > 0 ==> !SeenBefore(c, first + i))
    ensures ChecksPassed(c, first, n) == i
  {
  }

  /** The Event object itself, as the task slot holds it. */
  class CancelToken {
    var isSet: bool

    constructor()
      ensures !isSet
    {
      isSet := false;
    }

    /** Event.set(): idempotent. */
    method Set()
      modifies this
      ensures isSet
    {
      isSet := true;
    }
  }
}
