/** The coordinator's durable store (src/lowpower_llm_cluster/distributed_runtime.py:37-221).

    One executor thread runs every store method, so a method is one atomic step that reads the
    clock once.  `DistributedTaskStore` changes its tables in place; each method is proved against
    a function on `Store` values, and the theorems about whole runs are about those functions. */
module TaskStore {
  import opened Base

  type TaskId = string

  datatype TaskState = Queued | Leased | Completed | Failed

  /** A row of `tasks`; SQL NULL is None. */
  datatype Task = Task(
    key: string, cycle: string, source: string, payload: string, state: TaskState,
    owner: Option<string>, expires: Option<Time>, heartbeat: Option<Time>, attempts: nat,
    error: Option<string>, created: Time, updated: Time)
  {
    predicate Terminal() { state.Completed? || state.Failed? }
  }

  /** The non-key columns of a row of `batches`. */
  datatype Batch = Batch(payload: string, created: Time)

  type BatchKey = (TaskId, string)

  datatype Store = Store(cycles: map<string, Time>, tasks: map<TaskId, Task>, batches: map<BatchKey, Batch>)

  const EMPTY_STORE := Store(map[], map[], map[])

  /** A source to run: its name and its JSON text. */
  datatype Source = Source(name: string, payload: string)

  /** What `lease` hands to the worker. */
  datatype Grant = Grant(id: TaskId, key: string, cycle: string, source: string, payload: string, attempt: nat,
    expires: Time)

  datatype LeaseOutcome = InvalidLease | NothingQueued | Granted(grant: Grant)

  datatype BatchOutcome = Denied | Inserted | Ignored

  // ---------------------------------------------------------------- submit

  function TaskKey(cycle: string, name: string): string
  {
    cycle + ":" + name
  }

  function NewTask(cycle: string, source: Source, now: Time): Task
  {
    Task(TaskKey(cycle, source.name), cycle, source.name, source.payload, Queued, None, None, None, 0, None, now, now)
  }

  /** INSERT OR IGNORE on the primary key.  The UNIQUE constraint on task_key adds nothing: the id is a
      function of the key, so equal keys have equal ids. */
  function InsertTask(tasks: map<TaskId, Task>, id: TaskId, task: Task): map<TaskId, Task>
  {
    if id in tasks then tasks else tasks[id := task]
  }

  function InsertTasks(uuid5: string -> string, tasks: map<TaskId, Task>, cycle: string, sources: seq<Source>,
        now: Time)
    : map<TaskId, Task>
  {
    if sources == [] then tasks else
      var last := sources[|sources| - 1];
      InsertTask(InsertTasks(uuid5, tasks, cycle, sources[..|sources| - 1], now), uuid5(TaskKey(cycle, last.name)),
        NewTask(cycle, last, now))
  }

  function Submit(uuid5: string -> string, s: Store, cycle: string, sources: seq<Source>, now: Time): Store
  {
    s.(cycles := if cycle in s.cycles then s.cycles else s.cycles[cycle := now],
       tasks := InsertTasks(uuid5, s.tasks, cycle, sources, now))
  }

  // ---------------------------------------------------------------- lease

  predicate Expired(task: Task, now: Time)
  {
    task.state.Leased? && task.expires.Some? && task.expires.value < now
  }

  function ReclaimTask(task: Task, now: Time): Task
  {
    if Expired(task, now) then task.(state := Queued, owner := None, expires := None, updated := now) else task
  }

  function Reclaim(tasks: map<TaskId, Task>, now: Time): map<TaskId, Task>
  {
    map id | id in tasks :: ReclaimTask(tasks[id], now)
  }

  /** ORDER BY created_at, task_id. */
  predicate QueuedBefore(tasks: map<TaskId, Task>, a: TaskId, b: TaskId)
    requires a in tasks && b in tasks
  {
    tasks[a].created < tasks[b].created || (tasks[a].created == tasks[b].created && LexLeq(a, b))
  }

  predicate IsNext(tasks: map<TaskId, Task>, id: TaskId)
  {
    && id in tasks && tasks[id].state.Queued?
    && forall other | other in tasks :: tasks[other].state.Queued? ==> QueuedBefore(tasks, id, other)
  }

  ghost function Next(tasks: map<TaskId, Task>): (next: Option<TaskId>)
    ensures next.Some? ==> IsNext(tasks, next.value)
  {
    if id :| IsNext(tasks, id) then Some(id) else None
  }

  function GrantTask(task: Task, worker: string, leaseS: Time, now: Time): Task
  {
    task.(state := Leased, owner := Some(worker), expires := Some(now + leaseS), heartbeat := Some(now),
          attempts := task.attempts + 1, updated := now)
  }

  function GrantOf(id: TaskId, task: Task, leaseS: Time, now: Time): Grant
  {
    Grant(id, task.key, task.cycle, task.source, task.payload, task.attempts + 1, now + leaseS)
  }

  ghost function Lease(s: Store, worker: string, leaseS: Time, now: Time): (Store, LeaseOutcome)
  {
    if leaseS <= 0.0 then (s, InvalidLease) else
      var tasks := Reclaim(s.tasks, now);
      match Next(tasks)
      case None => (s.(tasks := tasks), NothingQueued)
      case Some(id) => (s.(tasks := tasks[id := GrantTask(tasks[id], worker, leaseS, now)]),
        Granted(GrantOf(id, tasks[id], leaseS, now)))
  }

  // ---------------------------------------------------------------- the lease holder's calls

  /** WHERE task_id=? AND state='leased' AND lease_owner=? AND lease_expires_at>?; NULL compares false. */
  predicate Holds(tasks: map<TaskId, Task>, id: TaskId, worker: string, now: Time)
  {
    id in tasks && tasks[id].state.Leased? && tasks[id].owner == Some(worker) && tasks[id].expires.Some? &&
      tasks[id].expires.value > now
  }

  /** The test in `add_batch`, where a NULL expiry counts as 0. */
  predicate MayAddBatch(tasks: map<TaskId, Task>, id: TaskId, worker: string, now: Time)
  {
    && id in tasks && tasks[id].state.Leased? && tasks[id].owner == Some(worker)
    && (if tasks[id].expires.Some? then tasks[id].expires.value else 0.0) > now
  }

  function RenewTask(task: Task, leaseS: Time, now: Time): Task
  {
    task.(heartbeat := Some(now), expires := Some(now + leaseS), updated := now)
  }

  function CloseTask(task: Task, now: Time): Task
  {
    task.(state := Completed, owner := None, expires := None, updated := now)
  }

  function FailTask(task: Task, error: string, requeue: bool, now: Time): Task
  {
    task.(state := if requeue then Queued else Failed, error := Some(if |error| <= 2000 then error else error[..2000]),
          owner := None, expires := None, updated := now)
  }

  function Heartbeat(s: Store, id: TaskId, worker: string, leaseS: Time, now: Time): (Store, bool)
  {
    if Holds(s.tasks, id, worker, now) then (s.(tasks := s.tasks[id := RenewTask(s.tasks[id], leaseS, now)]), true)
      else (s, false)
  }

  function AddBatch(s: Store, id: TaskId, worker: string, batchId: string, payload: string, now: Time)
    : (Store, BatchOutcome)
  {
    if !MayAddBatch(s.tasks, id, worker, now) then (s, Denied)
    else if (id, batchId) in s.batches then (s, Ignored)
    else (s.(batches := s.batches[(id, batchId) := Batch(payload, now)]), Inserted)
  }

  function Complete(s: Store, id: TaskId, worker: string, now: Time): (Store, bool)
  {
    if Holds(s.tasks, id, worker, now) then (s.(tasks := s.tasks[id := CloseTask(s.tasks[id], now)]), true)
      else (s, false)
  }

  function Fail(s: Store, id: TaskId, worker: string, error: string, requeue: bool, now: Time): (Store, bool)
  {
    if Holds(s.tasks, id, worker, now) then
      (s.(tasks := s.tasks[id := FailTask(s.tasks[id], error, requeue, now)]), true)
    else (s, false)
  }

  // ---------------------------------------------------------------- queries

  datatype CycleStatus = CycleStatus(counts: map<TaskState, nat>, total: nat, terminal: nat, done: bool)

  function InState(tasks: map<TaskId, Task>, cycle: string, state: TaskState): set<TaskId>
  {
    set id | id in tasks && tasks[id].cycle == cycle && tasks[id].state == state
  }

  function Status(s: Store, cycle: string): CycleStatus
  {
    var n := (state: TaskState) => |InState(s.tasks, cycle, state)|;
    var total := n(Queued) + n(Leased) + n(Completed) + n(Failed);
    var terminal := n(Completed) + n(Failed);
    var counts := map state | state in {Queued, Leased, Completed, Failed} && n(state) > 0 :: n(state);
    CycleStatus(counts, total, terminal, total > 0 && terminal == total)
  }

  ghost predicate Settled(s: Store, cycle: string)
  {
    && (exists id :: id in s.tasks && s.tasks[id].cycle == cycle)
    && forall id | id in s.tasks && s.tasks[id].cycle == cycle :: s.tasks[id].Terminal()
  }

  lemma NoneInState(tasks: map<TaskId, Task>, cycle: string, state: TaskState)
    ensures |InState(tasks, cycle, state)| == 0 <==>
      forall id | id in tasks && tasks[id].cycle == cycle :: tasks[id].state != state
  {
    var ids := InState(tasks, cycle, state);
    assert |ids| == 0 <==> ids == {};
    forall id | ids == {} && id in tasks && tasks[id].cycle == cycle
      ensures tasks[id].state != state
    {
      assert id !in ids;
    }
  }

  /** The counts say `done` exactly when the cycle has tasks and every one of them is terminal. */
  lemma DoneMeansSettled(s: Store, cycle: string)
    ensures Status(s, cycle).done <==> Settled(s, cycle)
  {
    NoneInState(s.tasks, cycle, Queued);
    NoneInState(s.tasks, cycle, Leased);
    NoneInState(s.tasks, cycle, Completed);
    NoneInState(s.tasks, cycle, Failed);
  }

  /** A row of the LEFT JOIN of tasks and batches, with the columns it is ordered by. */
  datatype ResultRow = ResultRow(id: TaskId, source: string, state: TaskState, error: string, created: Option<Time>,
    batchId: Option<string>, payload: Option<string>)

  function BatchRow(s: Store, key: BatchKey): ResultRow
    requires key in s.batches && key.0 in s.tasks
  {
    var task, batch := s.tasks[key.0], s.batches[key];
    ResultRow(key.0, task.source, task.state, if task.error.Some? then task.error.value else "",
              Some(batch.created), Some(key.1), Some(batch.payload))
  }

  function EmptyRow(s: Store, id: TaskId): ResultRow
    requires id in s.tasks
  {
    var task := s.tasks[id];
    ResultRow(id, task.source, task.state, if task.error.Some? then task.error.value else "", None, None, None)
  }

  function JoinRows(s: Store, cycle: string): set<ResultRow>
  {
    (set key: BatchKey | key in s.batches && key.0 in s.tasks && s.tasks[key.0].cycle == cycle :: BatchRow(s, key)) +
    (set id | id in s.tasks && s.tasks[id].cycle == cycle && (forall key: BatchKey | key in s.batches :: key.0 != id) ::
      EmptyRow(s, id))
  }

  /** ORDER BY source_name, created_at, batch_id; NULL sorts first. */
  predicate RowLeq(a: ResultRow, b: ResultRow)
  {
    if a.source != b.source then LexLeq(a.source, b.source)
    else if a.created.None? || b.created.None? then a.created.None?
    else if a.created.value != b.created.value then a.created.value < b.created.value
    else if a.batchId.None? || b.batchId.None? then a.batchId.None?
    else LexLeq(a.batchId.value, b.batchId.value)
  }

  /** What `cycle_results` may return: the joined rows, each once, in order. */
  ghost predicate IsResults(s: Store, cycle: string, rows: seq<ResultRow>)
  {
    && (forall p, q | 0 <= p < q < |rows| :: rows[p] != rows[q] && RowLeq(rows[p], rows[q]))
    && (forall row :: row in rows <==> row in JoinRows(s, cycle))
  }

  /** The rows taken so far are sorted, and those left come after them. */
  ghost predicate PartlySorted(all: set<ResultRow>, rows: seq<ResultRow>, left: set<ResultRow>)
  {
    && left <= all && (forall row :: row in rows <==> row in all - left)
    && (forall p, q | 0 <= p < q < |rows| :: rows[p] != rows[q] && RowLeq(rows[p], rows[q]))
    && (forall p, row | 0 <= p < |rows| && row in left :: rows[p] != row && RowLeq(rows[p], row))
  }

  lemma {:induction false} OneRowMore(all: set<ResultRow>, rows: seq<ResultRow>, left: set<ResultRow>, row: ResultRow)
    requires PartlySorted(all, rows, left) && row in left && forall other | other in left :: RowLeq(row, other)
    ensures PartlySorted(all, rows + [row], left - {row})
  {
    var more := rows + [row];
    assert more[|rows|] == row && forall p | 0 <= p < |rows| :: more[p] == rows[p];
    forall other
      ensures other in more <==> other in all - (left - {row})
    {
      assert other in more <==> other in rows || other == row;
    }
  }

  // ---------------------------------------------------------------- the store object

  class DistributedTaskStore {
    const uuid5: string -> string
    var cycles: map<string, Time>
    var tasks: map<TaskId, Task>
    var batches: map<BatchKey, Batch>

    ghost function Model(): Store
      reads this
    {
      Store(cycles, tasks, batches)
    }

    constructor (uuid5: string -> string)
      ensures Model() == EMPTY_STORE && this.uuid5 == uuid5
    {
      this.uuid5 := uuid5;
      cycles, tasks, batches := map[], map[], map[];
    }

    method SubmitCycle(cycle: string, sources: seq<Source>, now: Time) returns (ids: seq<TaskId>)
      modifies this
      ensures Model() == Submit(uuid5, old(Model()), cycle, sources, now)
      ensures |ids| == |sources| && forall k | 0 <= k < |ids| :: ids[k] == uuid5(TaskKey(cycle, sources[k].name))
    {
      if cycle !in cycles {
        cycles := cycles[cycle := now];
      }
      ids := [];
      for k := 0 to |sources|
        invariant tasks == InsertTasks(uuid5, old(tasks), cycle, sources[..k], now)
        invariant batches == old(batches)
        invariant cycles == if cycle in old(cycles) then old(cycles) else old(cycles)[cycle := now]
        invariant |ids| == k && forall i | 0 <= i < k :: ids[i] == uuid5(TaskKey(cycle, sources[i].name))
      {
        var id := uuid5(TaskKey(cycle, sources[k].name));
        assert sources[..k + 1][..k] == sources[..k];
        tasks := InsertTask(tasks, id, NewTask(cycle, sources[k], now));
        ids := ids + [id];
      }
      assert sources[..|sources|] == sources;
    }

    method LeaseTask(worker: string, leaseS: Time, now: Time) returns (outcome: LeaseOutcome)
      modifies this`tasks
      ensures (Model(), outcome) == Lease(old(Model()), worker, leaseS, now)
    {
      if leaseS <= 0.0 {
        return InvalidLease;
      }
      tasks := Reclaim(tasks, now);
      var queued := set id | id in tasks && tasks[id].state.Queued?;
      if queued == {} {
        assert forall id :: IsNext(tasks, id) ==> id in queued;
        return NothingQueued;
      }
      NextExists(tasks);
      var id :| id in queued && IsNext(tasks, id);
      NextIsUnique(tasks, id);
      outcome := Granted(GrantOf(id, tasks[id], leaseS, now));
      tasks := tasks[id := GrantTask(tasks[id], worker, leaseS, now)];
    }

    method RecordHeartbeat(id: TaskId, worker: string, leaseS: Time, now: Time) returns (ok: bool)
      modifies this`tasks
      ensures (Model(), ok) == Heartbeat(old(Model()), id, worker, leaseS, now)
    {
      ok := Holds(tasks, id, worker, now);
      if ok {
        tasks := tasks[id := RenewTask(tasks[id], leaseS, now)];
      }
    }

    method StoreBatch(id: TaskId, worker: string, batchId: string, payload: string, now: Time)
      returns (outcome: BatchOutcome)
      modifies this`batches
      ensures (Model(), outcome) == AddBatch(old(Model()), id, worker, batchId, payload, now)
    {
      if !MayAddBatch(tasks, id, worker, now) {
        return Denied;
      }
      if (id, batchId) in batches {
        return Ignored;
      }
      batches := batches[(id, batchId) := Batch(payload, now)];
      return Inserted;
    }

    method CompleteTask(id: TaskId, worker: string, now: Time) returns (ok: bool)
      modifies this`tasks
      ensures (Model(), ok) == Complete(old(Model()), id, worker, now)
    {
      ok := Holds(tasks, id, worker, now);
      if ok {
        tasks := tasks[id := CloseTask(tasks[id], now)];
      }
    }

    method RecordFailure(id: TaskId, worker: string, error: string, requeue: bool, now: Time) returns (ok: bool)
      modifies this`tasks
      ensures (Model(), ok) == Fail(old(Model()), id, worker, error, requeue, now)
    {
      ok := Holds(tasks, id, worker, now);
      if ok {
        tasks := tasks[id := FailTask(tasks[id], error, requeue, now)];
      }
    }

    method CycleStatusOf(cycle: string) returns (status: CycleStatus)
      ensures status == Status(Model(), cycle)
      ensures status.done <==> Settled(Model(), cycle)
    {
      status := Status(Store(cycles, tasks, batches), cycle);
      DoneMeansSettled(Model(), cycle);
    }

    method CycleResults(cycle: string) returns (rows: seq<ResultRow>)
      ensures IsResults(Model(), cycle, rows)
    {
      var left := JoinRows(Store(cycles, tasks, batches), cycle);
      rows := [];
      while left != {}
        invariant PartlySorted(JoinRows(Model(), cycle), rows, left)
      {
        ghost var least := FirstRow(left);
        var row :| row in left && forall other | other in left :: RowLeq(row, other);
        OneRowMore(JoinRows(Model(), cycle), rows, left, row);
        rows, left := rows + [row], left - {row};
      }
    }
  }

  // ---------------------------------------------------------------- result rows have a first one

  lemma RowLeqTotal(a: ResultRow, b: ResultRow)
    ensures RowLeq(a, b) || RowLeq(b, a)
  {
    LexLeqTotal(a.source, b.source);
    if a.batchId.Some? && b.batchId.Some? {
      LexLeqTotal(a.batchId.value, b.batchId.value);
    }
  }

  lemma RowLeqTransitive(a: ResultRow, b: ResultRow, c: ResultRow)
    requires RowLeq(a, b) && RowLeq(b, c)
    ensures RowLeq(a, c)
  {
    if a.source != b.source && b.source != c.source {
      LexLeqTransitive(a.source, b.source, c.source);
      BothLeqMeansEqual(a.source, b.source);
    } else if a.source == b.source == c.source {
      if a.batchId.Some? && b.batchId.Some? && c.batchId.Some? && LexLeq(a.batchId.value, b.batchId.value) &&
        LexLeq(b.batchId.value, c.batchId.value) {
        LexLeqTransitive(a.batchId.value, b.batchId.value, c.batchId.value);
      }
    }
  }

  lemma {:induction false} FirstRow(rows: set<ResultRow>) returns (first: ResultRow)
    requires rows != {}
    ensures first in rows && forall row | row in rows :: RowLeq(first, row)
  {
    var row :| row in rows;
    RowLeqTotal(row, row);
    if rows == {row} {
      first := row;
    } else {
      var rest := FirstRow(rows - {row});
      RowLeqTotal(row, rest);
      first := if RowLeq(row, rest) then row else rest;
      forall other | other in rows
        ensures RowLeq(first, other)
      {
        if first == row && other != row {
          assert other in rows - {row};
          RowLeqTransitive(row, rest, other);
        }
      }
    }
  }

  // ---------------------------------------------------------------- the oldest queued task

  lemma QueuedBeforeTotal(tasks: map<TaskId, Task>, a: TaskId, b: TaskId)
    requires a in tasks && b in tasks
    ensures QueuedBefore(tasks, a, b) || QueuedBefore(tasks, b, a)
  {
    LexLeqTotal(a, b);
  }

  lemma {:induction false} FirstOf(tasks: map<TaskId, Task>, ids: set<TaskId>) returns (first: TaskId)
    requires ids != {} && forall id | id in ids :: id in tasks
    ensures first in ids && forall id | id in ids :: QueuedBefore(tasks, first, id)
  {
    var id :| id in ids;
    LexLeqTotal(id, id);
    if ids == {id} {
      first := id;
    } else {
      var rest := FirstOf(tasks, ids - {id});
      QueuedBeforeTotal(tasks, id, rest);
      first := if QueuedBefore(tasks, id, rest) then id else rest;
      forall other | other in ids
        ensures QueuedBefore(tasks, first, other)
      {
        if first == id && other != id {
          assert other in ids - {id};
          if tasks[id].created == tasks[rest].created == tasks[other].created {
            LexLeqTransitive(id, rest, other);
          }
        }
      }
    }
  }

  /** While any task is queued, `lease` has one to grant. */
  lemma NextExists(tasks: map<TaskId, Task>)
    requires exists id :: id in tasks && tasks[id].state.Queued?
    ensures exists id :: IsNext(tasks, id)
  {
    var queued := set id | id in tasks && tasks[id].state.Queued?;
    var id :| id in tasks && tasks[id].state.Queued?;
    assert id in queued;
    var first := FirstOf(tasks, queued);
    assert IsNext(tasks, first);
  }

  lemma NextIsUnique(tasks: map<TaskId, Task>, id: TaskId)
    requires IsNext(tasks, id)
    ensures Next(tasks) == Some(id)
  {
    var next := Next(tasks);
    BothLeqMeansEqual(id, next.value);
  }

  lemma BothLeqMeansEqual(a: string, b: string)
    ensures LexLeq(a, b) && LexLeq(b, a) ==> a == b
  {
    if LexLeq(a, b) && LexLeq(b, a) {
      LexLeqAntisymmetric(a, b);
    }
  }
}
