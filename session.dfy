/** The window's task slot and its queue drain: at most one worker at a time,
    started through start_task and signalled through cancel_task, and the
    periodic check_queue that takes at most 50 messages per cycle and frees
    the slot once it has seen a terminal message. */
module Session {
  import opened Messages
  import opened Cancellation

  /** QUEUE_BATCH_PROCESS_LIMIT */
  const QueueBatchProcessLimit: nat := 50

  const ReadyText := "Ready. Select a source directory to begin."

  /** How many messages one cycle takes from a queue holding n. */
  function Taken(n: nat): (k: nat)
    ensures k <= n && k <= QueueBatchProcessLimit
    ensures k == n || k == QueueBatchProcessLimit
  {
    if n < QueueBatchProcessLimit then n else QueueBatchProcessLimit
  }

  /** What one drain cycle has gathered: the status bar, whether a terminal
      message was seen, and the final message to show. */
  datatype Drain = Drain(status: Text, done: bool, final: Text)

  /** The effect of one message on a cycle's state. */
  function Handle(d: Drain, m: Msg): Drain {
    if m.Status? then d.(status := Plain(m.text))
    else if m.IsTerminal() then d.(done := true, final := m.FinalText())
    else d
  }

  /** The cycle's state after handling the batch, in queue order. */
  function Drained(status: Text, batch: seq<Msg>): Drain {
    if batch == [] then Drain(status, false, Plain(""))
    else Handle(Drained(status, batch[..|batch| - 1]), batch[|batch| - 1])
  }

  predicate HasTerminal(batch: seq<Msg>) {
    exists i :: 0 <= i < |batch| && batch[i].IsTerminal()
  }

  /** A cycle has seen a terminal message exactly when its batch holds one. */
  lemma {:induction false} DrainedDone(status: Text, batch: seq<Msg>)
    ensures Drained(status, batch).done <==> HasTerminal(batch)
  {
    if batch != [] {
      var init := batch[..|batch| - 1];
      DrainedDone(status, init);
      if HasTerminal(init) {
        var i :| 0 <= i < |init| && init[i].IsTerminal();
        assert batch[i] == init[i];
      }
      if HasTerminal(batch) && !batch[|batch| - 1].IsTerminal() {
        var i :| 0 <= i < |batch| && batch[i].IsTerminal();
        assert init[i] == batch[i];
      }
    }
  }

  /** The final message is the text of the last terminal message taken. */
  lemma {:induction false} DrainedFinal(status: Text, batch: seq<Msg>, j: nat)
    requires j < |batch| && batch[j].IsTerminal()
    requires forall k :: j < k < |batch| ==> !batch[k].IsTerminal()
    ensures Drained(status, batch).done && Drained(status, batch).final == batch[j].FinalText()
  {
    var init := batch[..|batch| - 1];
    if j < |batch| - 1 {
      assert forall k :: j < k < |init| ==> init[k] == batch[k];
      DrainedFinal(status, init, j);
    }
  }

  /** With no status line in the batch, the status bar is left as it was. */
  lemma {:induction false} DrainedStatusKept(status: Text, batch: seq<Msg>)
    requires forall k :: 0 <= k < |batch| ==> !batch[k].Status?
    ensures Drained(status, batch).status == status
  {
    if batch != [] {
      var init := batch[..|batch| - 1];
      assert forall k :: 0 <= k < |init| ==> init[k] == batch[k];
      DrainedStatusKept(status, init);
    }
  }

  /** The status bar shows the text of the last status line in the batch. */
  lemma {:induction false} DrainedStatusLast(status: Text, batch: seq<Msg>, j: nat)
    requires j < |batch| && batch[j].Status?
    requires forall k :: j < k < |batch| ==> !batch[k].Status?
    ensures Drained(status, batch).status == Plain(batch[j].text)
  {
    var init := batch[..|batch| - 1];
    if j < |batch| - 1 {
      assert forall k :: j < k < |init| ==> init[k] == batch[k];
      DrainedStatusLast(status, init, j);
    }
  }

  /** The status bar shows the text of the last status line taken, or what
      it showed before when there was none. */
  lemma DrainedStatus(status: Text, batch: seq<Msg>)
    ensures (forall k :: 0 <= k < |batch| ==> !batch[k].Status?) ==> Drained(status, batch).status == status
    ensures forall j :: 0 <= j < |batch| && batch[j].Status? && (forall k :: j < k < |batch| ==> !batch[k].Status?)
                        ==> Drained(status, batch).status == Plain(batch[j].text)
  {
    if forall k :: 0 <= k < |batch| ==> !batch[k].Status? {
      DrainedStatusKept(status, batch);
    }
    forall j | 0 <= j < |batch| && batch[j].Status? && (forall k :: j < k < |batch| ==> !batch[k].Status?)
      ensures Drained(status, batch).status == Plain(batch[j].text)
    {
      DrainedStatusLast(status, batch, j);
    }
  }

  /** Fed the whole output of one worker (which ends with its only terminal
      message), a drain sees no terminal before the last message and then
      shows the worker's final text. */
  lemma WorkerOutputDrained(status: Text, msgs: seq<Msg>, k: nat)
    requires EndsOnce(msgs) && k <= |msgs|
    ensures Drained(status, msgs[..k]).done <==> k == |msgs|
    ensures Drained(status, msgs).final == msgs[|msgs| - 1].FinalText()
  {
    var init := msgs[..|msgs| - 1];
    DrainedDone(status, msgs[..k]);
    if k < |msgs| {
      assert forall i :: 0 <= i < k ==> msgs[..k][i] == init[i];
    }
    if k == |msgs| {
      assert msgs[..k] == msgs;
      assert msgs[..k][k - 1].IsTerminal();
    }
    DrainedFinal(status, msgs, |msgs| - 1);
  }

  /** FileManagementApp's task and queue state. */
  class App {
    /** Messages put by the worker and not yet taken. */
    var queue: seq<Msg>
    /** current_task: the running task's Event, or None. */
    var currentTask: CancelToken?
    /** The status bar. */
    var status: Text
    /** The messages check_queue has taken and dispatched to the widgets, in
        order. */
    var handled: seq<Msg>

    constructor()
      ensures queue == [] && currentTask == null && status == Plain(ReadyText) && handled == []
    {
      queue := [];
      currentTask := null;
      status := Plain(ReadyText);
      handled := [];
    }

    /** start_task: refused, changing nothing, while a task is running or
        when the source directory is unset or not a directory; otherwise a
        new, unset Event fills the slot. */
    method StartTask(sourceDir: string, isDir: bool) returns (started: bool)
      modifies this
      ensures started <==> old(currentTask) == null && sourceDir != [] && isDir
      ensures started ==> fresh(currentTask) && !currentTask.isSet
      ensures !started ==> currentTask == old(currentTask)
      ensures queue == old(queue) && status == old(status) && handled == old(handled)
    {
      if currentTask != null {
        return false;
      }
      if sourceDir == [] || !isDir {
        return false;
      }
      var token := new CancelToken();
      currentTask := token;
      return true;
    }

    /** cancel_task: sets the running task's flag, which stays set. */
    method CancelTask()
      modifies this, currentTask
      ensures currentTask == old(currentTask) && queue == old(queue) && handled == old(handled)
      ensures old(currentTask) != null ==> currentTask.isSet && status == Plain("Cancelling task...")
      ensures old(currentTask) == null ==> status == old(status)
    {
      if currentTask != null {
        currentTask.Set();
        status := Plain("Cancelling task...");
      }
    }

    /** A worker's queue.put. */
    method Put(m: Msg)
      modifies this
      ensures queue == old(queue) + [m]
      ensures currentTask == old(currentTask) && status == old(status) && handled == old(handled)
    {
      queue := queue + [m];
    }

    /** check_queue (its second definition): take messages in FIFO order
        until 50 are taken or the queue is empty, updating the status bar on
        status lines; then, if a task is running and a terminal message was
        taken, free the slot and show the last such message's text. */
    method CheckQueue()
      modifies this
      ensures var k := Taken(|old(queue)|);
              var d := Drained(old(status), old(queue)[..k]);
              && queue == old(queue)[k..]
              && handled == old(handled) + old(queue)[..k]
              && (if old(currentTask) != null && d.done
                  then currentTask == null && status == d.final
                  else currentTask == old(currentTask) && status == d.status)
    {
      var processed := 0;
      var isDoneOrError := false;
      var finalMessage := Plain("");
      while processed < QueueBatchProcessLimit && queue != []
        invariant processed <= QueueBatchProcessLimit && processed <= |old(queue)|
        invariant queue == old(queue)[processed..]
        invariant handled == old(handled) + old(queue)[..processed]
        invariant status == Drained(old(status), old(queue)[..processed]).status
        invariant isDoneOrError == Drained(old(status), old(queue)[..processed]).done
        invariant finalMessage == Drained(old(status), old(queue)[..processed]).final
        invariant currentTask == old(currentTask)
        decreases |queue|
      {
        var msg := queue[0];
        assert msg == old(queue)[processed];
        assert old(queue)[..processed + 1][..processed] == old(queue)[..processed];
        assert Drained(old(status), old(queue)[..processed + 1])
               == Handle(Drained(old(status), old(queue)[..processed]), msg);
        assert old(queue)[..processed + 1] == old(queue)[..processed] + [msg];
        queue := queue[1..];
        processed := processed + 1;
        handled := handled + [msg];
        if msg.Status? {
          status := Plain(msg.text);
        } else if msg.IsTerminal() {
          isDoneOrError := true;
          finalMessage := msg.FinalText();
        }
      }
      if currentTask != null && isDoneOrError {
        currentTask := null;
        status := finalMessage;
      }
    }
  }
}
