/**
 The offline queue of the app: attendance logs, the queue of logs still to be uploaded, and the upload run.
 JavaScript switches between activities only at `await`, so one step of the machine is the code between two
 awaits of one activity; any activity may take the next step.
*/
module SyncQueue {

  const MAX_RETRIES: nat := 5
  const BATCH_SIZE: nat := 50

  datatype Log = Log(id: int, synced: bool)

  datatype Item = Item(id: int, retryCount: nat)

  /** The run of sync(), by the await it stands at. */
  datatype Phase =
    | NotRunning
    | AwaitOnline
    | AwaitPending(pending: seq<Item>)           // offline: only the length of the queue is reported
    | AwaitRecords(pending: seq<Item>)
    | AwaitLogs(start: nat, snapshot: seq<Log>)  // the batch that starts here waits for the logs
    | AwaitUpload(start: nat, sent: seq<Log>)
    | AwaitMarked(start: nat)
    | AwaitRetry(start: nat, next: nat)          // the batch failed; the retry count of item `next` comes next
    | AwaitCount(remaining: nat)

  /** The run keeps the retryable records it started with, and its two counters. */
  datatype SyncRun = SyncRun(phase: Phase, retryable: seq<Item>, totalSynced: nat, totalFailed: nat)

  datatype Result =
    | NoResult
    | Offline(remaining: nat)
    | NothingPending
    | Complete(synced: nat, failed: nat, remaining: nat, records: nat)
    | Fatal

  /** The last three are a history: what has been uploaded, all ids ever logged, and what sync() returned last. */
  datatype State = State(logs: seq<Log>, queue: seq<Item>, isSyncing: bool, run: SyncRun,
                         uploaded: set<int>, ids: set<int>, result: Result)

  datatype Step =
    | LogAttendance(id: int)
    | StartSync
    | Online(connected: bool)
    | Continue                            // the awaited value is there
    | Uploaded(success: bool)
    | Unreachable                         // asking for the network state fails
    | Purge(keep: set<int>)
    | BumpRetry(id: int)                  // one round of the loop in forceSync

  // ---- The database operations ----

  function LogIds(logs: seq<Log>): set<int> { set l | l in logs :: l.id }

  function ItemIds(queue: seq<Item>): set<int> { set q | q in queue :: q.id }

  function MarkLogs(logs: seq<Log>, ids: set<int>): (r: seq<Log>)
    ensures |r| == |logs|
    ensures forall i :: 0 <= i < |r| ==> r[i] == if logs[i].id in ids then logs[i].(synced := true) else logs[i]
  {
    if logs == [] then []
    else
      var last := logs[|logs| - 1];
      MarkLogs(logs[..|logs| - 1], ids) + [if last.id in ids then last.(synced := true) else last]
  }

  function Dequeue(queue: seq<Item>, ids: set<int>): (r: seq<Item>)
    ensures forall q :: q in r <==> q in queue && q.id !in ids
  {
    if queue == [] then []
    else
      var rest, last := Dequeue(queue[..|queue| - 1], ids), queue[|queue| - 1];
      if last.id in ids then rest else rest + [last]
  }

  function Retryable(queue: seq<Item>): (r: seq<Item>)
    ensures forall q :: q in r <==> q in queue && q.retryCount < MAX_RETRIES
  {
    if queue == [] then []
    else
      var rest, last := Retryable(queue[..|queue| - 1]), queue[|queue| - 1];
      if last.retryCount < MAX_RETRIES then rest + [last] else rest
  }

  function IncrementRetryCount(queue: seq<Item>, id: int): (r: seq<Item>)
    ensures |r| == |queue|
    ensures forall i :: 0 <= i < |r| ==>
              r[i] == if queue[i].id == id then queue[i].(retryCount := queue[i].retryCount + 1) else queue[i]
  {
    if queue == [] then []
    else
      var last := queue[|queue| - 1];
      IncrementRetryCount(queue[..|queue| - 1], id)
      + [if last.id == id then last.(retryCount := last.retryCount + 1) else last]
  }

  /** Pending logs stay; of the synced ones, those that are recent. */
  function PurgeLogs(logs: seq<Log>, keep: set<int>): (r: seq<Log>)
    ensures forall l :: l in r <==> l in logs && (!l.synced || l.id in keep)
  {
    if logs == [] then []
    else
      var rest, last := PurgeLogs(logs[..|logs| - 1], keep), logs[|logs| - 1];
      if !last.synced || last.id in keep then rest + [last] else rest
  }

  function Selected(logs: seq<Log>, ids: set<int>): (r: seq<Log>)
    ensures forall l :: l in r <==> l in logs && l.id in ids
  {
    if logs == [] then []
    else
      var rest, last := Selected(logs[..|logs| - 1], ids), logs[|logs| - 1];
      if last.id in ids then rest + [last] else rest
  }

  // ---- The machine ----

  function Batch(run: SyncRun, start: nat): seq<Item>
  {
    if start >= |run.retryable| then []
    else if start + BATCH_SIZE <= |run.retryable| then run.retryable[start..start + BATCH_SIZE]
    else run.retryable[start..]
  }

  function Finish(s: State, result: Result): State
  {
    s.(isSyncing := false, run := s.run.(phase := NotRunning), result := result)
  }

  /** The loop head: the next batch asks for the logs, or the run asks for the length of the queue. */
  function NextBatch(s: State, start: nat): State
  {
    s.(run := s.run.(phase := if start < |s.run.retryable| then AwaitLogs(start, s.logs) else AwaitCount(|s.queue|)))
  }

  function Resume(s: State): State
  {
    var run := s.run;
    match run.phase
    case AwaitPending(pending) => Finish(s, Offline(|pending|))
    case AwaitRecords(pending) =>
      if pending == [] then Finish(s, NothingPending)
      else NextBatch(s.(run := run.(retryable := Retryable(pending))), 0)
    case AwaitLogs(start, snapshot) =>
      s.(run := run.(phase := AwaitUpload(start, Selected(snapshot, ItemIds(Batch(run, start))))))
    case AwaitMarked(start) =>
      NextBatch(s.(run := run.(totalSynced := run.totalSynced + |Batch(run, start)|)), start + BATCH_SIZE)
    case AwaitRetry(start, next) =>
      if next < |Batch(run, start)| then
        s.(queue := IncrementRetryCount(s.queue, Batch(run, start)[next].id),
           run := run.(phase := AwaitRetry(start, next + 1)))
      else NextBatch(s, start + BATCH_SIZE)
    case AwaitCount(remaining) =>
      Finish(s, Complete(run.totalSynced, run.totalFailed, remaining, |run.retryable|))
    case _ => s
  }

  function AfterUpload(s: State, success: bool): State
    requires s.run.phase.AwaitUpload?
  {
    var run, start := s.run, s.run.phase.start;
    var batch := Batch(run, start);
    if success then
      s.(uploaded := s.uploaded + LogIds(run.phase.sent), logs := MarkLogs(s.logs, ItemIds(batch)),
         queue := Dequeue(s.queue, ItemIds(batch)), run := run.(phase := AwaitMarked(start)))
    else
      Resume(s.(run := run.(totalFailed := run.totalFailed + |batch|, phase := AwaitRetry(start, 0))))
  }

  function Take(s: State, step: Step): State
  {
    match step
    case LogAttendance(id) =>
      if id in s.ids then s
      else s.(logs := s.logs + [Log(id, false)], queue := s.queue + [Item(id, 0)], ids := s.ids + {id})
    case StartSync =>
      if s.isSyncing then s else s.(isSyncing := true, run := SyncRun(AwaitOnline, [], 0, 0))
    case Online(connected) =>
      if s.run.phase != AwaitOnline then s
      else s.(run := s.run.(phase := if connected then AwaitRecords(s.queue) else AwaitPending(s.queue)))
    case Unreachable => if s.run.phase != AwaitOnline then s else Finish(s, Fatal)
    case Continue => Resume(s)
    case Uploaded(success) => if s.run.phase.AwaitUpload? then AfterUpload(s, success) else s
    case Purge(keep) => s.(logs := PurgeLogs(s.logs, keep))
    case BumpRetry(id) => s.(queue := IncrementRetryCount(s.queue, id))
  }

  const FRESH: State := State([], [], false, SyncRun(NotRunning, [], 0, 0), {}, {}, NoResult)

  /** The state of a fresh app after any interleaving of steps. */
  function After(steps: seq<Step>): State
  {
    if steps == [] then FRESH else Take(After(steps[..|steps| - 1]), steps[|steps| - 1])
  }

  // ---- Conservation ----

  ghost predicate DistinctLogs(logs: seq<Log>)
  {
    forall i, j :: 0 <= i < j < |logs| ==> logs[i].id != logs[j].id
  }

  ghost predicate DistinctItems(queue: seq<Item>)
  {
    forall i, j :: 0 <= i < j < |queue| ==> queue[i].id != queue[j].id
  }

  /** The queue holds exactly the ids of the pending logs, each once; a synced log has been uploaded; and
      a log that is no longer there has been uploaded too. */
  ghost predicate Conserved(s: State)
  {
    && DistinctLogs(s.logs) && DistinctItems(s.queue)
    && (forall id :: id in ItemIds(s.queue) <==> Log(id, false) in s.logs)
    && (forall l :: l in s.logs ==> l.id in s.ids && (l.synced ==> l.id in s.uploaded))
    && (forall id :: id in s.ids ==> id in LogIds(s.logs) || id in s.uploaded)
  }

  /** The records from `start` on are still queued. */
  ghost predicate StillQueued(s: State, start: nat)
  {
    forall i :: start <= i < |s.run.retryable| ==> s.run.retryable[i].id in ItemIds(s.queue)
  }

  ghost predicate Counted(run: SyncRun, n: nat)
  {
    run.totalSynced + run.totalFailed == if n < |run.retryable| then n else |run.retryable|
  }

  ghost predicate RunOk(s: State)
  {
    var run := s.run;
    DistinctItems(run.retryable) &&
    match run.phase
    case NotRunning => !s.isSyncing
    case AwaitOnline => s.isSyncing && run.totalSynced == run.totalFailed == 0
    case AwaitPending(_) => s.isSyncing
    case AwaitRecords(pending) =>
      && s.isSyncing && run.totalSynced == run.totalFailed == 0 && DistinctItems(pending)
      && (forall q :: q in pending ==> q.id in ItemIds(s.queue))
    case AwaitLogs(start, snapshot) =>
      && s.isSyncing && start < |run.retryable| && StillQueued(s, start) && Counted(run, start)
      && (forall i :: start <= i < |run.retryable| ==> Log(run.retryable[i].id, false) in snapshot)
    case AwaitUpload(start, sent) =>
      && s.isSyncing && start < |run.retryable| && StillQueued(s, start) && Counted(run, start)
      && (forall q :: q in Batch(run, start) ==> q.id in LogIds(sent))
    case AwaitMarked(start) =>
      s.isSyncing && start < |run.retryable| && StillQueued(s, start + BATCH_SIZE) && Counted(run, start)
    case AwaitRetry(start, _) =>
      s.isSyncing && start < |run.retryable| && StillQueued(s, start) && Counted(run, start + BATCH_SIZE)
    case AwaitCount(_) => s.isSyncing && Counted(run, |run.retryable|)
  }

  ghost predicate ResultOk(result: Result)
  {
    result.Complete? ==> result.synced + result.failed == result.records
  }

  ghost predicate Inv(s: State)
  {
    Conserved(s) && RunOk(s) && ResultOk(s.result)
  }

  // ---- The operations keep it ----

  lemma {:induction false} DequeueDistinct(queue: seq<Item>, ids: set<int>)
    requires DistinctItems(queue)
    ensures DistinctItems(Dequeue(queue, ids)) && ItemIds(Dequeue(queue, ids)) == ItemIds(queue) - ids
  {
    if queue != [] {
      var before, last := queue[..|queue| - 1], queue[|queue| - 1];
      DequeueDistinct(before, ids);
      var rest := Dequeue(before, ids);
      forall q | q in rest
        ensures q.id != last.id
      {
        assert q in before;
      }
    }
  }

  lemma {:induction false} RetryableDistinct(queue: seq<Item>)
    requires DistinctItems(queue)
    ensures DistinctItems(Retryable(queue))
  {
    if queue != [] {
      var before, last := queue[..|queue| - 1], queue[|queue| - 1];
      RetryableDistinct(before);
      forall q | q in Retryable(before)
        ensures q.id != last.id
      {
        assert q in before;
      }
    }
  }

  lemma {:induction false} PurgeDistinct(logs: seq<Log>, keep: set<int>)
    requires DistinctLogs(logs)
    ensures DistinctLogs(PurgeLogs(logs, keep))
  {
    if logs != [] {
      var before, last := logs[..|logs| - 1], logs[|logs| - 1];
      PurgeDistinct(before, keep);
      forall l | l in PurgeLogs(before, keep)
        ensures l.id != last.id
      {
        assert l in before;
      }
    }
  }

  lemma {:induction false} IncrementIds(queue: seq<Item>, id: int)
    requires DistinctItems(queue)
    ensures DistinctItems(IncrementRetryCount(queue, id)) && ItemIds(IncrementRetryCount(queue, id)) == ItemIds(queue)
  {
    var r := IncrementRetryCount(queue, id);
    assert forall i :: 0 <= i < |r| ==> r[i].id == queue[i].id;
    forall x
      ensures x in ItemIds(r) <==> x in ItemIds(queue)
    {
      if x in ItemIds(queue) {
        var q :| q in queue && q.id == x;
        var i :| 0 <= i < |queue| && queue[i] == q;
        assert r[i] in r;
      }
      if x in ItemIds(r) {
        var q :| q in r && q.id == x;
        var i :| 0 <= i < |r| && r[i] == q;
        assert queue[i] in queue;
      }
    }
  }

  lemma {:induction false} MarkedLogs(logs: seq<Log>, ids: set<int>)
    requires DistinctLogs(logs)
    ensures DistinctLogs(MarkLogs(logs, ids)) && LogIds(MarkLogs(logs, ids)) == LogIds(logs)
    ensures forall l :: l in MarkLogs(logs, ids) ==>
              Log(l.id, false) in logs || Log(l.id, true) in logs
    ensures forall l :: l in MarkLogs(logs, ids) && l.synced ==> l.id in ids || l in logs
    ensures forall id :: Log(id, false) in MarkLogs(logs, ids) <==> Log(id, false) in logs && id !in ids
  {
    var r := MarkLogs(logs, ids);
    assert forall i :: 0 <= i < |r| ==> r[i].id == logs[i].id;
    forall l | l in r
      ensures Log(l.id, false) in logs || Log(l.id, true) in logs
      ensures l.synced ==> l.id in ids || l in logs
      ensures !l.synced ==> l in logs && l.id !in ids
      ensures l.id in LogIds(logs)
    {
      var i :| 0 <= i < |r| && r[i] == l;
      assert logs[i] in logs && (logs[i] == Log(l.id, false) || logs[i] == Log(l.id, true));
    }
    forall l | l in logs
      ensures l.id in LogIds(r)
      ensures !l.synced && l.id !in ids ==> l in r
    {
      var i :| 0 <= i < |logs| && logs[i] == l;
      assert r[i] in r;
    }
  }

  lemma {:induction false} BatchItems(run: SyncRun, start: nat)
    requires start < |run.retryable|
    ensures |Batch(run, start)| > 0
    ensures |Batch(run, start)| == if start + BATCH_SIZE <= |run.retryable| then BATCH_SIZE else |run.retryable| - start
    ensures forall i :: 0 <= i < |Batch(run, start)| ==> Batch(run, start)[i] == run.retryable[start + i]
  {
  }

  lemma {:induction false} LaterApart(run: SyncRun, start: nat, i: nat)
    requires DistinctItems(run.retryable) && start < |run.retryable| && start + BATCH_SIZE <= i < |run.retryable|
    ensures run.retryable[i].id !in ItemIds(Batch(run, start))
  {
    BatchItems(run, start);
    forall q | q in Batch(run, start)
      ensures q.id != run.retryable[i].id
    {
      var j :| 0 <= j < |Batch(run, start)| && Batch(run, start)[j] == q;
      assert run.retryable[start + j] == q;
    }
  }

  /** What the run knows survives when the queue keeps its ids. */
  lemma {:induction false} RunKept(s: State, s': State)
    requires RunOk(s) && s'.run == s.run && s'.isSyncing == s.isSyncing && ItemIds(s.queue) <= ItemIds(s'.queue)
    ensures RunOk(s')
  {
  }

  lemma {:induction false} LogKeeps(s: State, id: int)
    requires Inv(s)
    ensures Inv(Take(s, LogAttendance(id)))
  {
    if id !in s.ids {
      var s' := Take(s, LogAttendance(id));
      assert s'.logs == s.logs + [Log(id, false)] && s'.queue == s.queue + [Item(id, 0)];
      assert forall l :: l in s'.logs <==> l in s.logs || l == Log(id, false);
      assert ItemIds(s'.queue) == ItemIds(s.queue) + {id};
      assert LogIds(s'.logs) == LogIds(s.logs) + {id};
      forall i | 0 <= i < |s.logs|
        ensures s.logs[i].id != id
      {
        assert s.logs[i] in s.logs;
      }
      forall i | 0 <= i < |s.queue|
        ensures s.queue[i].id != id
      {
        assert s.queue[i] in s.queue && s.queue[i].id in ItemIds(s.queue);
        assert Log(s.queue[i].id, false) in s.logs;
      }
      RunKept(s, s');
    }
  }

  lemma {:induction false} PurgeKeeps(s: State, keep: set<int>)
    requires Inv(s)
    ensures Inv(Take(s, Purge(keep)))
  {
    var s' := Take(s, Purge(keep));
    PurgeDistinct(s.logs, keep);
    forall id | id in s.ids
      ensures id in LogIds(s'.logs) || id in s.uploaded
    {
      if id in LogIds(s.logs) && id !in s.uploaded {
        var l :| l in s.logs && l.id == id;
        assert l in s'.logs;
      }
    }
    RunKept(s, s');
  }

  lemma {:induction false} BumpKeeps(s: State, id: int)
    requires Inv(s)
    ensures Inv(Take(s, BumpRetry(id)))
  {
    IncrementIds(s.queue, id);
    RunKept(s, Take(s, BumpRetry(id)));
  }

  lemma {:induction false} MarkedConserves(s: State, s': State, batch: set<int>)
    requires Conserved(s) && batch <= s'.uploaded && s.uploaded <= s'.uploaded && s'.ids == s.ids
    requires DistinctLogs(s'.logs) && LogIds(s'.logs) == LogIds(s.logs)
    requires forall l :: l in s'.logs ==> Log(l.id, false) in s.logs || Log(l.id, true) in s.logs
    requires forall l :: l in s'.logs && l.synced ==> l.id in batch || l in s.logs
    requires forall id :: Log(id, false) in s'.logs <==> Log(id, false) in s.logs && id !in batch
    requires DistinctItems(s'.queue) && ItemIds(s'.queue) == ItemIds(s.queue) - batch
    ensures Conserved(s')
  {
    hide DistinctLogs, DistinctItems, LogIds, ItemIds;
    forall l | l in s'.logs
      ensures l.id in s'.ids && (l.synced ==> l.id in s'.uploaded)
    {
      assert Log(l.id, false) in s.logs || Log(l.id, true) in s.logs;
    }
  }

  /** A successful upload: the batch leaves the queue, its logs become synced, later records stay queued. */
  lemma {:induction false} SuccessKeeps(s: State)
    requires Inv(s) && s.run.phase.AwaitUpload?
    ensures Inv(AfterUpload(s, true))
  {
    var run, start := s.run, s.run.phase.start;
    var batch, s' := Batch(s.run, s.run.phase.start), AfterUpload(s, true);
    DequeueDistinct(s.queue, ItemIds(batch));
    MarkedLogs(s.logs, ItemIds(batch));
    hide Batch, MarkLogs, Dequeue;
    assert ItemIds(batch) <= s'.uploaded by {
      forall id | id in ItemIds(batch)
        ensures id in LogIds(s.run.phase.sent)
      {
        var q :| q in batch && q.id == id;
      }
    }
    MarkedConserves(s, s', ItemIds(batch));
    hide Conserved;
    forall i | start + BATCH_SIZE <= i < |run.retryable|
      ensures run.retryable[i].id in ItemIds(s'.queue)
    {
      LaterApart(run, start, i);
    }
  }

  /** The next batch, or the end: everything from there on is still pending. */
  lemma {:induction false} NextKeeps(s: State, start: nat)
    requires Conserved(s) && ResultOk(s.result) && s.isSyncing && DistinctItems(s.run.retryable)
    requires StillQueued(s, start) && Counted(s.run, start)
    ensures Inv(NextBatch(s, start))
  {
    hide DistinctLogs, DistinctItems;
    forall i | start <= i < |s.run.retryable|
      ensures Log(s.run.retryable[i].id, false) in s.logs
    {
      assert s.run.retryable[i].id in ItemIds(s.queue);
    }
  }

  lemma {:induction false} RetryKeeps(s: State)
    requires Conserved(s) && RunOk(s) && ResultOk(s.result) && s.run.phase.AwaitRetry?
    ensures Inv(Resume(s))
  {
    var start, next := s.run.phase.start, s.run.phase.next;
    if next < |Batch(s.run, start)| {
      IncrementIds(s.queue, Batch(s.run, start)[next].id);
    } else {
      NextKeeps(s, start + BATCH_SIZE);
    }
  }

  lemma {:induction false} FailureKeeps(s: State)
    requires Inv(s) && s.run.phase.AwaitUpload?
    ensures Inv(AfterUpload(s, false))
  {
    hide Batch;
    var start := s.run.phase.start;
    BatchItems(s.run, start);
    var batch := Batch(s.run, start);
    var s' := s.(run := s.run.(totalFailed := s.run.totalFailed + |batch|, phase := AwaitRetry(start, 0)));
    RetryKeeps(s');
  }

  lemma {:induction false} LogsArrive(s: State)
    requires Inv(s) && s.run.phase.AwaitLogs?
    ensures Inv(Resume(s))
  {
    BatchItems(s.run, s.run.phase.start);
    BatchIsSent(s);
    hide Batch, DistinctItems;
  }

  /** The snapshot has every log of the batch. */
  lemma {:induction false} BatchIsSent(s: State)
    requires Inv(s) && s.run.phase.AwaitLogs?
    ensures var batch := Batch(s.run, s.run.phase.start);
            forall q :: q in batch ==> q.id in LogIds(Selected(s.run.phase.snapshot, ItemIds(batch)))
  {
    hide DistinctItems, Conserved;
    var run, start, snapshot := s.run, s.run.phase.start, s.run.phase.snapshot;
    BatchItems(run, start);
    var batch := Batch(run, start);
    forall q | q in batch
      ensures q.id in LogIds(Selected(snapshot, ItemIds(batch)))
    {
      var j :| 0 <= j < |batch| && batch[j] == q;
      InSnapshot(run, start, snapshot, start + j);
      assert Log(q.id, false) in Selected(snapshot, ItemIds(batch));
    }
  }

  lemma {:induction false} InSnapshot(run: SyncRun, start: nat, snapshot: seq<Log>, i: nat)
    requires start <= i < |run.retryable|
    requires forall i :: start <= i < |run.retryable| ==> Log(run.retryable[i].id, false) in snapshot
    ensures Log(run.retryable[i].id, false) in snapshot
  {
  }

  lemma {:induction false} ResumeKeeps(s: State)
    requires Inv(s)
    ensures Inv(Resume(s))
  {
    match s.run.phase {
      case AwaitRecords(pending) =>
        RetryableDistinct(pending);
        if pending != [] {
          var s' := s.(run := s.run.(retryable := Retryable(pending)));
          forall i | 0 <= i < |s'.run.retryable|
            ensures s'.run.retryable[i].id in ItemIds(s.queue)
          {
            assert s'.run.retryable[i] in Retryable(pending);
          }
          NextKeeps(s', 0);
        }
      case AwaitLogs(_, _) => LogsArrive(s);
      case AwaitMarked(start) =>
        BatchItems(s.run, start);
        NextKeeps(s.(run := s.run.(totalSynced := s.run.totalSynced + |Batch(s.run, start)|)), start + BATCH_SIZE);
      case AwaitRetry(_, _) => RetryKeeps(s);
      case _ =>
    }
  }

  lemma {:induction false} TakeKeeps(s: State, step: Step)
    requires Inv(s)
    ensures Inv(Take(s, step))
  {
    match step {
      case LogAttendance(id) => LogKeeps(s, id);
      case Continue => ResumeKeeps(s);
      case Uploaded(success) =>
        if s.run.phase.AwaitUpload? {
          if success { SuccessKeeps(s); } else { FailureKeeps(s); }
        }
      case Purge(keep) => PurgeKeeps(s, keep);
      case BumpRetry(id) => BumpKeeps(s, id);
      case Online(_) =>
        assert forall q :: q in s.queue ==> q.id in ItemIds(s.queue);
      case _ =>
    }
  }

  // ---- Every interleaving ----

  lemma {:induction false} Reachable(steps: seq<Step>)
    ensures Inv(After(steps))
  {
    if steps != [] {
      Reachable(steps[..|steps| - 1]);
      TakeKeeps(After(steps[..|steps| - 1]), steps[|steps| - 1]);
    }
  }

  /** In every interleaving the queue holds exactly the ids of the logs that are still pending, each once. */
  lemma {:induction false} QueueIsPending(steps: seq<Step>, id: int)
    ensures var s' := After(steps);
            && (id in ItemIds(s'.queue) <==> exists l :: l in s'.logs && l.id == id && !l.synced)
            && (forall i, j :: 0 <= i < j < |s'.queue| ==> s'.queue[i].id != s'.queue[j].id)
  {
    Reachable(steps);
    var s' := After(steps);
    if exists l :: l in s'.logs && l.id == id && !l.synced {
      var l :| l in s'.logs && l.id == id && !l.synced;
      assert l == Log(id, false);
    }
  }

  /** A record that has ever been logged is in the log store, or it has been uploaded: none is lost. */
  lemma {:induction false} NothingIsLost(steps: seq<Step>, id: int)
    requires id in After(steps).ids
    ensures var s' := After(steps);
            id in s'.uploaded || (Log(id, false) in s'.logs && id in ItemIds(s'.queue))
  {
    Reachable(steps);
    var s' := After(steps);
    if id !in s'.uploaded {
      var l :| l in s'.logs && l.id == id;
      assert l == Log(id, false);
    }
  }

  /** A step makes logs synced only if it ends a successful upload that contained them. */
  lemma {:induction false} SyncedByUpload(s: State, step: Step, id: int)
    requires Inv(s) && Log(id, false) in s.logs && Log(id, true) in Take(s, step).logs
    ensures step == Uploaded(true) && s.run.phase.AwaitUpload? && id in LogIds(s.run.phase.sent)
  {
    if step == Uploaded(true) && s.run.phase.AwaitUpload? {
      var batch := Batch(s.run, s.run.phase.start);
      OneState(s, id);
      MarkedLogs(s.logs, ItemIds(batch));
      var q :| q in batch && q.id == id;
    } else {
      OneState(s, id);
    }
  }

  lemma {:induction false} OneState(s: State, id: int)
    requires Inv(s) && Log(id, false) in s.logs
    ensures Log(id, true) !in s.logs
  {
  }

  /** The numbers that a completed run reports add up to the retryable records it started with. */
  lemma {:induction false} NumbersAddUp(steps: seq<Step>)
    ensures var result := After(steps).result;
            result.Complete? ==> result.synced + result.failed == result.records
  {
    Reachable(steps);
  }
}
