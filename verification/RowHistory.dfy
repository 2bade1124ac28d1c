/** The columns of a task's row beside the lease, and the stored batches, as functions of what happened
    (src/lowpower_llm_cluster/distributed_runtime.py:87-195).  The lease columns are in `LeaseProtocol`. */
module RowHistory {
  import opened Base
  import opened TaskStore
  import opened LeaseProtocol

  // ---------------------------------------------------------------- the columns, read off the history

  /** The last grant or renewal. */
  function LastContact(log: seq<Event>): Option<Time>
  {
    if log == [] then None else
      match log[|log| - 1]
      case GrantedTo(_, now, _) => Some(now)
      case RenewedBy(_, now, _) => Some(now)
      case _ => LastContact(log[..|log| - 1])
  }

  /** The last event other than a stored batch; before any, the creation. */
  function LastChange(created: Time, log: seq<Event>): Time
  {
    if log == [] then created
    else if log[|log| - 1].BatchFrom? then LastChange(created, log[..|log| - 1])
    else log[|log| - 1].now
  }

  /** The text of the last failure report that was accepted. */
  ghost function LastError(uuid5: string -> string, ops: seq<Op>, id: TaskId): Option<string>
  {
    if ops == [] then None else
      var before, op := ops[..|ops| - 1], ops[|ops| - 1];
      if op.FailOp? && Events(Run(uuid5, EMPTY_STORE, before), op, id) != [] then Some(op.error)
      else LastError(uuid5, before, id)
  }

  predicate CutAt2000(text: string, cut: string)
  {
    cut <= text && |cut| == if |text| < 2000 then |text| else 2000
  }

  ghost predicate ShowsHistory(uuid5: string -> string, ops: seq<Op>, id: TaskId, task: Task)
  {
    var log := Log(uuid5, EMPTY_STORE, ops, id);
    && task.heartbeat == LastContact(log) && task.updated == LastChange(task.created, log)
    && (task.error.Some? <==> LastError(uuid5, ops, id).Some?)
    && (task.error.Some? ==> CutAt2000(LastError(uuid5, ops, id).value, task.error.value))
  }

  // ---------------------------------------------------------------- one call

  lemma {:induction false} FoldsSnoc(created: Time, log: seq<Event>, e: Event)
    ensures LastContact(log + [e]) == if e.GrantedTo? || e.RenewedBy? then Some(e.now) else LastContact(log)
    ensures LastChange(created, log + [e]) == if e.BatchFrom? then LastChange(created, log) else e.now
  {
    assert (log + [e])[..|log|] == log;
  }

  lemma {:induction false} HistoryOfLease(x: Task, s: Store, op: Op, id: TaskId, log: seq<Event>)
    requires op.LeaseOp? && id in s.tasks && x == s.tasks[id]
    requires x.heartbeat == LastContact(log) && x.updated == LastChange(x.created, log)
    ensures var y, log1 := Lease(s, op.worker, op.leaseS, op.now).0.tasks[id], log + Events(s, op, id);
      && id in Lease(s, op.worker, op.leaseS, op.now).0.tasks
      && y.heartbeat == LastContact(log1) && y.updated == LastChange(y.created, log1) && y.error == x.error
  {
    LeaseMakesNoTasks(s, op.worker, op.leaseS, op.now, id);
    if op.leaseS > 0.0 {
      LeaseUnfolds(s, op.worker, op.leaseS, op.now, id);
      var mine := Next(Reclaim(s.tasks, op.now)) == Some(id);
      var reclaimed: seq<Event> := if Expired(x, op.now) then [Reclaimed(op.now)] else [];
      var granted := GrantedTo(op.worker, op.now, op.now + op.leaseS);
      FoldsSnoc(x.created, log, Reclaimed(op.now));
      FoldsSnoc(x.created, log + reclaimed, granted);
      assert log + [] == log && log + reclaimed + [] == log + reclaimed;
      assert log + (reclaimed + [granted]) == log + reclaimed + [granted];
      assert log + (reclaimed + []) == log + reclaimed;
    } else {
      assert log + [] == log;
    }
  }

  lemma {:induction false} HistoryOfHolderCall(uuid5: string -> string, s: Store, op: Op, id: TaskId, log: seq<Event>)
    requires !op.LeaseOp? && !op.SubmitOp? && id in s.tasks
    requires s.tasks[id].heartbeat == LastContact(log) && s.tasks[id].updated == LastChange(s.tasks[id].created, log)
    ensures id in Apply(uuid5, s, op).tasks
    ensures var x, y, log1 := s.tasks[id], Apply(uuid5, s, op).tasks[id], log + Events(s, op, id);
      && y.heartbeat == LastContact(log1) && y.updated == LastChange(y.created, log1)
      && if op.FailOp? && Events(s, op, id) != [] then y.error.Some? && CutAt2000(op.error, y.error.value)
         else y.error == x.error
  {
    if Events(s, op, id) == [] {
      assert log + [] == log;
      QuietCall(uuid5, s, op, id);
    } else {
      var e := Events(s, op, id)[0];
      assert Events(s, op, id) == [e];
      FoldsSnoc(s.tasks[id].created, log, e);
    }
  }

  lemma {:induction false} HistoryBegins(uuid5: string -> string, s: Store, op: Op, id: TaskId)
    requires op.SubmitOp? && id !in s.tasks && id in Apply(uuid5, s, op).tasks
    ensures var y := Apply(uuid5, s, op).tasks[id];
      y.heartbeat.None? && y.updated == y.created && y.error.None?
  {
    InsertTasksKeeps(uuid5, s.tasks, op.cycle, op.sources, op.now);
  }

  /** No event and no failure report before the task exists. */
  lemma {:induction false} NothingBeforeCreation(uuid5: string -> string, ops: seq<Op>, id: TaskId)
    requires id !in Run(uuid5, EMPTY_STORE, ops).tasks
    ensures Log(uuid5, EMPTY_STORE, ops, id) == [] && LastError(uuid5, ops, id).None?
  {
    EveryRunIsLegal(uuid5, ops, id);
    if ops != [] {
      var before, op := ops[..|ops| - 1], ops[|ops| - 1];
      TasksPersist(uuid5, Run(uuid5, EMPTY_STORE, before), op, id);
      NothingBeforeCreation(uuid5, before, id);
    }
  }

  // ---------------------------------------------------------------- whole runs

  /** In every run: heartbeat_at is the time of the last grant or renewal, updated_at the time of the last event that
      touched the row, and error the first 2000 characters of the last accepted failure report. */
  lemma {:induction false} RowShowsHistory(uuid5: string -> string, ops: seq<Op>, id: TaskId)
    requires id in Run(uuid5, EMPTY_STORE, ops).tasks
    ensures ShowsHistory(uuid5, ops, id, Run(uuid5, EMPTY_STORE, ops).tasks[id])
  {
    var before, op := ops[..|ops| - 1], ops[|ops| - 1];
    var s, log := Run(uuid5, EMPTY_STORE, before), Log(uuid5, EMPTY_STORE, before, id);
    if id in s.tasks {
      RowShowsHistory(uuid5, before, id);
      if op.LeaseOp? {
        HistoryOfLease(s.tasks[id], s, op, id, log);
      } else if op.SubmitOp? {
        InsertTasksKeeps(uuid5, s.tasks, op.cycle, op.sources, op.now);
        assert log + [] == log;
      } else {
        HistoryOfHolderCall(uuid5, s, op, id, log);
      }
    } else {
      TasksPersist(uuid5, s, op, id);
      NothingBeforeCreation(uuid5, before, id);
      HistoryBegins(uuid5, s, op, id);
      assert log + [] == log;
    }
  }

  /** Call j of the run stored a batch under this name. */
  ghost predicate StoresBatch(uuid5: string -> string, ops: seq<Op>, j: nat, id: TaskId, name: string)
  {
    && j < |ops| && ops[j].BatchOp? && ops[j].id == id && ops[j].batchId == name
    && Events(Run(uuid5, EMPTY_STORE, ops[..j]), ops[j], id) != []
  }

  ghost predicate EverStored(uuid5: string -> string, ops: seq<Op>, id: TaskId, name: string)
  {
    exists j: nat :: StoresBatch(uuid5, ops, j, id, name)
  }

  lemma {:induction false} StoredEarlier(uuid5: string -> string, ops: seq<Op>, j: nat, id: TaskId, name: string)
    requires j < |ops| - 1
    ensures StoresBatch(uuid5, ops, j, id, name) <==> StoresBatch(uuid5, ops[..|ops| - 1], j, id, name)
  {
    assert ops[..|ops| - 1][..j] == ops[..j];
  }

  lemma {:induction false} EverStoredSnoc(uuid5: string -> string, ops: seq<Op>, id: TaskId, name: string)
    requires ops != []
    ensures EverStored(uuid5, ops, id, name) <==>
      EverStored(uuid5, ops[..|ops| - 1], id, name) || StoresBatch(uuid5, ops, |ops| - 1, id, name)
  {
    var before := ops[..|ops| - 1];
    if j: nat :| StoresBatch(uuid5, before, j, id, name) {
      StoredEarlier(uuid5, ops, j, id, name);
    }
    if j: nat :| StoresBatch(uuid5, ops, j, id, name) && j < |ops| - 1 {
      StoredEarlier(uuid5, ops, j, id, name);
    }
  }

  /** In every run a batch name is taken exactly when some call stored a batch under it. */
  lemma {:induction false} StoredExactly(uuid5: string -> string, ops: seq<Op>, id: TaskId, name: string)
    ensures (id, name) in Run(uuid5, EMPTY_STORE, ops).batches <==> EverStored(uuid5, ops, id, name)
  {
    if ops != [] {
      var before, op := ops[..|ops| - 1], ops[|ops| - 1];
      StoredExactly(uuid5, before, id, name);
      EverStoredSnoc(uuid5, ops, id, name);
    }
  }

  /** ... and it keeps the payload and the time of the first such call. */
  lemma {:induction false} FirstBatchIsKept(uuid5: string -> string, ops: seq<Op>, j: nat, id: TaskId, name: string)
    requires StoresBatch(uuid5, ops, j, id, name) && !EverStored(uuid5, ops[..j], id, name)
    ensures var batches := Run(uuid5, EMPTY_STORE, ops).batches;
      (id, name) in batches && batches[(id, name)] == Batch(ops[j].payload, ops[j].now)
  {
    var before := ops[..|ops| - 1];
    if j < |before| {
      assert before[..j] == ops[..j];
      StoredEarlier(uuid5, ops, j, id, name);
      FirstBatchIsKept(uuid5, before, j, id, name);
    } else {
      StoredExactly(uuid5, before, id, name);
    }
  }

  /** In every run a cycle is known exactly when it was submitted, and keeps the time of its first submission. */
  lemma {:induction false} CycleKnownExactly(uuid5: string -> string, ops: seq<Op>, cycle: string)
    ensures var cycles := Run(uuid5, EMPTY_STORE, ops).cycles;
      && (cycle in cycles <==> FirstTime(ops, cycle).Some?)
      && (cycle in cycles ==> cycles[cycle] == FirstTime(ops, cycle).value)
  {
    if ops != [] {
      CycleKnownExactly(uuid5, ops[..|ops| - 1], cycle);
    }
  }

  function FirstTime(ops: seq<Op>, cycle: string): Option<Time>
  {
    if ops == [] then None else
      var earlier, op := FirstTime(ops[..|ops| - 1], cycle), ops[|ops| - 1];
      if earlier.Some? then earlier else if op.SubmitOp? && op.cycle == cycle then Some(op.now) else None
  }
}
