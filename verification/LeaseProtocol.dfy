/** Whole runs of the coordinator store: any sequence of calls, by any callers, at any clock readings.

    For one task, a run leaves a log of events.  The theorems say that the log always obeys the lease
    protocol, that the task's row is a function of its log, and what a legal log excludes. */
module LeaseProtocol {
  import opened Base
  import opened TaskStore

  datatype Op =
    | SubmitOp(cycle: string, sources: seq<Source>, now: Time)
    | LeaseOp(worker: string, leaseS: Time, now: Time)
    | HeartbeatOp(id: TaskId, worker: string, leaseS: Time, now: Time)
    | BatchOp(id: TaskId, worker: string, batchId: string, payload: string, now: Time)
    | CompleteOp(id: TaskId, worker: string, now: Time)
    | FailOp(id: TaskId, worker: string, error: string, requeue: bool, now: Time)

  ghost function Apply(uuid5: string -> string, s: Store, op: Op): Store
  {
    match op
    case SubmitOp(cycle, sources, now) => Submit(uuid5, s, cycle, sources, now)
    case LeaseOp(worker, leaseS, now) => Lease(s, worker, leaseS, now).0
    case HeartbeatOp(id, worker, leaseS, now) => Heartbeat(s, id, worker, leaseS, now).0
    case BatchOp(id, worker, batchId, payload, now) => AddBatch(s, id, worker, batchId, payload, now).0
    case CompleteOp(id, worker, now) => Complete(s, id, worker, now).0
    case FailOp(id, worker, error, requeue, now) => Fail(s, id, worker, error, requeue, now).0
  }

  ghost function Run(uuid5: string -> string, s: Store, ops: seq<Op>): Store
  {
    if ops == [] then s else Apply(uuid5, Run(uuid5, s, ops[..|ops| - 1]), ops[|ops| - 1])
  }

  // ---------------------------------------------------------------- the log of one task

  datatype Event =
    | GrantedTo(worker: string, now: Time, expires: Time)
    | Reclaimed(now: Time)
    | RenewedBy(worker: string, now: Time, expires: Time)
    | BatchFrom(worker: string, now: Time)
    | CompletedBy(worker: string, now: Time)
    | ReturnedBy(worker: string, now: Time)
    | FailedBy(worker: string, now: Time)
  {
    /** An event a worker caused by a call that the store accepted. */
    predicate Accepted() { !GrantedTo? && !Reclaimed? }

    /** An event that ends a lease without ending the task. */
    predicate Release() { Reclaimed? || ReturnedBy? }
  }

  /** The events that one call causes for task `id`, read off the call's own outcome. */
  ghost function Events(s: Store, op: Op, id: TaskId): seq<Event>
  {
    match op
    case SubmitOp(_, _, _) => []
    case LeaseOp(worker, leaseS, now) =>
      var outcome := Lease(s, worker, leaseS, now).1;
      (if leaseS > 0.0 && id in s.tasks && Expired(s.tasks[id], now) then [Reclaimed(now)] else []) +
      (if outcome.Granted? && outcome.grant.id == id then [GrantedTo(worker, now, outcome.grant.expires)] else [])
    case HeartbeatOp(i, worker, leaseS, now) =>
      if i == id && Heartbeat(s, i, worker, leaseS, now).1 then [RenewedBy(worker, now, now + leaseS)] else []
    case BatchOp(i, worker, batchId, payload, now) =>
      if i == id && AddBatch(s, i, worker, batchId, payload, now).1 != Denied then [BatchFrom(worker, now)] else []
    case CompleteOp(i, worker, now) =>
      if i == id && Complete(s, i, worker, now).1 then [CompletedBy(worker, now)] else []
    case FailOp(i, worker, error, requeue, now) =>
      if i == id && Fail(s, i, worker, error, requeue, now).1 then
        [if requeue then ReturnedBy(worker, now) else FailedBy(worker, now)] else []
  }

  ghost function Log(uuid5: string -> string, s: Store, ops: seq<Op>, id: TaskId): seq<Event>
  {
    if ops == [] then [] else
      var before := ops[..|ops| - 1];
      Log(uuid5, s, before, id) + Events(Run(uuid5, s, before), ops[|ops| - 1], id)
  }

  // ---------------------------------------------------------------- the protocol

  /** What a log says about the lease: nobody's, one worker's until a time, or over for good. */
  datatype Hold = Free | Held(worker: string, expires: Time) | Closed(completed: bool)

  function After(hold: Hold, event: Event): Hold
  {
    match event
    case GrantedTo(worker, _, expires) => Held(worker, expires)
    case RenewedBy(worker, _, expires) => Held(worker, expires)
    case BatchFrom(_, _) => hold
    case CompletedBy(_, _) => Closed(true)
    case FailedBy(_, _) => Closed(false)
    case Reclaimed(_) => Free
    case ReturnedBy(_, _) => Free
  }

  function HoldOf(log: seq<Event>): Hold
  {
    if log == [] then Free else After(HoldOf(log[..|log| - 1]), log[|log| - 1])
  }

  /** Grants need a free task, a reclaim needs a lease that ran out, and every accepted call needs
      the caller to hold a lease that has not run out. */
  predicate Legal(hold: Hold, event: Event)
  {
    match event
    case GrantedTo(_, now, expires) => hold.Free? && now < expires
    case Reclaimed(now) => hold.Held? && hold.expires < now
    case _ => hold.Held? && hold.worker == event.worker && event.now < hold.expires
  }

  predicate LegalLog(log: seq<Event>)
  {
    log == [] || (LegalLog(log[..|log| - 1]) && Legal(HoldOf(log[..|log| - 1]), log[|log| - 1]))
  }

  lemma {:induction false} LegalAt(log: seq<Event>, k: nat)
    requires LegalLog(log) && k < |log|
    ensures LegalLog(log[..k]) && Legal(HoldOf(log[..k]), log[k])
  {
    var init := log[..|log| - 1];
    if k < |log| - 1 {
      LegalAt(init, k);
      assert init[..k] == log[..k];
    }
  }

  function Grants(log: seq<Event>): nat
  {
    if log == [] then 0 else Grants(log[..|log| - 1]) + if log[|log| - 1].GrantedTo? then 1 else 0
  }

  function Reclaims(log: seq<Event>): nat
  {
    if log == [] then 0 else Reclaims(log[..|log| - 1]) + if log[|log| - 1].Reclaimed? then 1 else 0
  }

  /** The row's lease columns say exactly what the log says. */
  function ColumnsOf(hold: Hold): (TaskState, Option<string>, Option<Time>)
  {
    match hold
    case Free => (Queued, None, None)
    case Held(worker, expires) => (Leased, Some(worker), Some(expires))
    case Closed(completed) => (if completed then Completed else Failed, None, None)
  }

  predicate RowMatches(task: Task, log: seq<Event>)
  {
    task.attempts == Grants(log) && (task.state, task.owner, task.expires) == ColumnsOf(HoldOf(log))
  }

  ghost predicate TaskMatches(s: Store, id: TaskId, log: seq<Event>)
  {
    if id in s.tasks then RowMatches(s.tasks[id], log) else log == []
  }

  lemma LogSnoc(log: seq<Event>, e: Event)
    ensures HoldOf(log + [e]) == After(HoldOf(log), e)
    ensures Grants(log + [e]) == Grants(log) + if e.GrantedTo? then 1 else 0
    ensures LegalLog(log) && Legal(HoldOf(log), e) ==> LegalLog(log + [e])
  {
    assert (log + [e])[..|log|] == log;
  }

  /** Submitting only ever adds queued rows; rows that exist stay as they are. */
  lemma {:induction false} InsertTasksKeeps(uuid5: string -> string, tasks: map<TaskId, Task>, cycle: string,
        sources: seq<Source>, now: Time)
    ensures var after := InsertTasks(uuid5, tasks, cycle, sources, now);
      && (forall id | id in tasks :: id in after && after[id] == tasks[id])
      && forall id | id in after && id !in tasks ::
           exists k :: 0 <= k < |sources| && id == uuid5(TaskKey(cycle, sources[k].name)) &&
             after[id] == NewTask(cycle, sources[k], now)
  {
    if sources != [] {
      InsertTasksKeeps(uuid5, tasks, cycle, sources[..|sources| - 1], now);
      var after := InsertTasks(uuid5, tasks, cycle, sources, now);
      var init := sources[..|sources| - 1];
      var before := InsertTasks(uuid5, tasks, cycle, init, now);
      forall id | id in after && id !in tasks
        ensures exists k ::
          && 0 <= k < |sources| && id == uuid5(TaskKey(cycle, sources[k].name))
          && after[id] == NewTask(cycle, sources[k], now)
      {
        if id in before {
          var k :| 0 <= k < |init| && id == uuid5(TaskKey(cycle, init[k].name)) &&
            before[id] == NewTask(cycle, init[k], now);
          assert init[k] == sources[k];
        } else {
          assert id == uuid5(TaskKey(cycle, sources[|sources| - 1].name));
        }
      }
    }
  }

  /** One more event: it is legal and the new row says what the longer log says. */
  lemma OneEvent(after: Task, log: seq<Event>, e: Event)
    requires LegalLog(log) && Legal(HoldOf(log), e)
    requires after.attempts == Grants(log) + if e.GrantedTo? then 1 else 0
    requires (after.state, after.owner, after.expires) == ColumnsOf(After(HoldOf(log), e))
    ensures LegalLog(log + [e]) && RowMatches(after, log + [e])
  {
    LogSnoc(log, e);
  }

  /** The holder's calls: the event, if the call is accepted, is legal and recorded in the row. */
  /** The holder of an unexpired lease in the row is the holder in the log. */
  lemma {:induction false} HolderInLog(task: Task, log: seq<Event>)
    requires RowMatches(task, log) && task.state.Leased? && task.owner.Some? && task.expires.Some?
    ensures HoldOf(log) == Held(task.owner.value, task.expires.value)
  {
  }

  lemma {:induction false} RenewalIsLegal(task: Task, worker: string, leaseS: Time, now: Time, log: seq<Event>)
    requires RowMatches(task, log) && LegalLog(log) && HoldsRow(task, worker, now)
    ensures var log1 := log + [RenewedBy(worker, now, now + leaseS)];
      RowMatches(RenewTask(task, leaseS, now), log1) && LegalLog(log1)
  {
    HolderInLog(task, log);
    OneEvent(RenewTask(task, leaseS, now), log, RenewedBy(worker, now, now + leaseS));
  }

  lemma {:induction false} ClosingIsLegal(task: Task, after: Task, worker: string, now: Time, log: seq<Event>, e: Event)
    requires RowMatches(task, log) && LegalLog(log) && HoldsRow(task, worker, now)
    requires e in {CompletedBy(worker, now), FailedBy(worker, now), ReturnedBy(worker, now), BatchFrom(worker, now)}
    requires after.attempts == task.attempts
    requires (after.state, after.owner, after.expires) == ColumnsOf(After(Held(worker, task.expires.value), e))
    ensures RowMatches(after, log + [e]) && LegalLog(log + [e])
  {
    HolderInLog(task, log);
    OneEvent(after, log, e);
  }

  predicate HoldsRow(task: Task, worker: string, now: Time)
  {
    task.state.Leased? && task.owner == Some(worker) && task.expires.Some? && task.expires.value > now
  }

  lemma {:induction false} HolderCallIsLegal(uuid5: string -> string, s: Store, op: Op, id: TaskId, log: seq<Event>)
    requires op.HeartbeatOp? || op.BatchOp? || op.CompleteOp? || op.FailOp?
    requires id == op.id && id in s.tasks && RowMatches(s.tasks[id], log) && LegalLog(log)
    requires Events(s, op, id) != []
    ensures id in Apply(uuid5, s, op).tasks && RowMatches(Apply(uuid5, s, op).tasks[id], log + Events(s, op, id))
    ensures LegalLog(log + Events(s, op, id))
  {
    var task := s.tasks[id];
    LeasedHasExpiry(task, log);
    match op
    case HeartbeatOp(_, worker, leaseS, now) => RenewalIsLegal(task, worker, leaseS, now, log);
    case BatchOp(_, worker, _, _, now) => ClosingIsLegal(task, task, worker, now, log, BatchFrom(worker, now));
    case CompleteOp(_, worker, now) =>
      ClosingIsLegal(task, CloseTask(task, now), worker, now, log, CompletedBy(worker, now));
    case FailOp(_, worker, error, requeue, now) =>
      ClosingIsLegal(task, FailTask(task, error, requeue, now), worker, now, log,
                     if requeue then ReturnedBy(worker, now) else FailedBy(worker, now));
  }

  lemma {:induction false} LeasedHasExpiry(task: Task, log: seq<Event>)
    requires RowMatches(task, log)
    ensures task.state.Leased? ==> task.expires.Some?
  {
  }

  /** A call without an event for a task leaves the task's row alone. */
  lemma QuietCall(uuid5: string -> string, s: Store, op: Op, id: TaskId)
    requires !op.LeaseOp? && Events(s, op, id) == []
    ensures id in s.tasks ==> id in Apply(uuid5, s, op).tasks && Apply(uuid5, s, op).tasks[id] == s.tasks[id]
    ensures id in Apply(uuid5, s, op).tasks && id !in s.tasks ==> RowMatches(Apply(uuid5, s, op).tasks[id], [])
  {
    if op.SubmitOp? {
      InsertTasksKeeps(uuid5, s.tasks, op.cycle, op.sources, op.now);
    }
  }

  /** One call keeps the agreement of row and log, and every event it causes is legal. */
  lemma StepIsLegal(uuid5: string -> string, s: Store, op: Op, id: TaskId, log: seq<Event>)
    requires TaskMatches(s, id, log) && LegalLog(log)
    ensures TaskMatches(Apply(uuid5, s, op), id, log + Events(s, op, id))
    ensures LegalLog(log + Events(s, op, id))
  {
    if op.LeaseOp? {
      LeaseIsLegal(s, op.worker, op.leaseS, op.now, id, log);
    } else if Events(s, op, id) == [] {
      assert log + [] == log;
      QuietCall(uuid5, s, op, id);
    } else {
      HolderCallIsLegal(uuid5, s, op, id, log);
    }
  }

  /** What a lease call does to one task and its log: reclaim if expired, then grant if first in the queue. */
  lemma LeaseUnfolds(s: Store, worker: string, leaseS: Time, now: Time, id: TaskId)
    requires leaseS > 0.0 && id in s.tasks
    ensures var task := ReclaimTask(s.tasks[id], now);
      var mine := Next(Reclaim(s.tasks, now)) == Some(id);
      && id in Lease(s, worker, leaseS, now).0.tasks
      && Lease(s, worker, leaseS, now).0.tasks[id] == (if mine then GrantTask(task, worker, leaseS, now) else task)
      && Events(s, LeaseOp(worker, leaseS, now), id) ==
         (if Expired(s.tasks[id], now) then [Reclaimed(now)] else []) +
           (if mine then [GrantedTo(worker, now, now + leaseS)] else [])
      && (mine ==> task.state.Queued?)
  {
  }

  lemma LeaseMakesNoTasks(s: Store, worker: string, leaseS: Time, now: Time, id: TaskId)
    ensures id in Lease(s, worker, leaseS, now).0.tasks <==> id in s.tasks
    ensures leaseS <= 0.0 || id !in s.tasks ==> Events(s, LeaseOp(worker, leaseS, now), id) == []
    ensures leaseS <= 0.0 ==> Lease(s, worker, leaseS, now).0 == s
  {
  }

  lemma LeaseIsLegal(s: Store, worker: string, leaseS: Time, now: Time, id: TaskId, log: seq<Event>)
    requires TaskMatches(s, id, log) && LegalLog(log)
    ensures var op := LeaseOp(worker, leaseS, now);
      && TaskMatches(Lease(s, worker, leaseS, now).0, id, log + Events(s, op, id))
      && LegalLog(log + Events(s, op, id))
  {
    LeaseMakesNoTasks(s, worker, leaseS, now, id);
    if leaseS <= 0.0 || id !in s.tasks {
      assert log + [] == log;
    } else {
      GrantIsLegal(s, worker, leaseS, now, id, log);
    }
  }

  lemma GrantIsLegal(s: Store, worker: string, leaseS: Time, now: Time, id: TaskId, log: seq<Event>)
    requires leaseS > 0.0 && id in s.tasks && RowMatches(s.tasks[id], log) && LegalLog(log)
    ensures var longer := log + Events(s, LeaseOp(worker, leaseS, now), id);
      && id in Lease(s, worker, leaseS, now).0.tasks
      && RowMatches(Lease(s, worker, leaseS, now).0.tasks[id], longer)
      && LegalLog(longer)
  {
    var events := Events(s, LeaseOp(worker, leaseS, now), id);
    var task := ReclaimTask(s.tasks[id], now);
    LeaseUnfolds(s, worker, leaseS, now, id);
    var log1 := ReclaimIsLegal(s.tasks[id], now, log);
    if Next(Reclaim(s.tasks, now)) == Some(id) {
      var granted := GrantedTo(worker, now, now + leaseS);
      OneEvent(GrantTask(task, worker, leaseS, now), log1, granted);
      assert log + events == log1 + [granted];
    } else {
      assert log + events == log1;
    }
  }

  lemma ReclaimIsLegal(task: Task, now: Time, log: seq<Event>) returns (log1: seq<Event>)
    requires RowMatches(task, log) && LegalLog(log)
    ensures log1 == log + if Expired(task, now) then [Reclaimed(now)] else []
    ensures RowMatches(ReclaimTask(task, now), log1) && LegalLog(log1)
  {
    log1 := log + if Expired(task, now) then [Reclaimed(now)] else [];
    if Expired(task, now) {
      OneEvent(ReclaimTask(task, now), log, Reclaimed(now));
    } else {
      assert log1 == log;
    }
  }

  /** The lease protocol over whole runs: whatever is called, the log of every task is legal, and the
      row's state, owner, expiry and attempt count are those the log determines. */
  lemma {:induction false} EveryRunIsLegal(uuid5: string -> string, ops: seq<Op>, id: TaskId)
    ensures LegalLog(Log(uuid5, EMPTY_STORE, ops, id))
    ensures TaskMatches(Run(uuid5, EMPTY_STORE, ops), id, Log(uuid5, EMPTY_STORE, ops, id))
  {
    if ops != [] {
      var before := ops[..|ops| - 1];
      EveryRunIsLegal(uuid5, before, id);
      StepIsLegal(uuid5, Run(uuid5, EMPTY_STORE, before), ops[|ops| - 1], id, Log(uuid5, EMPTY_STORE, before, id));
    }
  }

  /** In every reachable store a task is leased exactly when owner and expiry are set. */
  lemma LeasedExactlyWhenOwned(uuid5: string -> string, ops: seq<Op>, id: TaskId)
    requires id in Run(uuid5, EMPTY_STORE, ops).tasks
    ensures var task := Run(uuid5, EMPTY_STORE, ops).tasks[id];
      && (task.state.Leased? <==> task.owner.Some?)
      && (task.state.Leased? <==> task.expires.Some?)
      && task.attempts == Grants(Log(uuid5, EMPTY_STORE, ops, id))
  {
    EveryRunIsLegal(uuid5, ops, id);
  }

  // ---------------------------------------------------------------- what a legal log excludes

  /** Log entry i is the latest grant before j, and no release separates them. */
  ghost predicate HeldSince(log: seq<Event>, i: nat, j: nat)
  {
    && i < j <= |log| && log[i].GrantedTo?
    && forall k | i < k < j :: log[k].RenewedBy? || log[k].BatchFrom?
  }

  /** A held lease stems from one grant, to the same worker, unbroken since. */
  lemma {:induction false} HoldHasAGrant(log: seq<Event>, j: nat) returns (i: nat)
    requires LegalLog(log) && j <= |log| && HoldOf(log[..j]).Held?
    ensures HeldSince(log, i, j) && log[i].worker == HoldOf(log[..j]).worker
  {
    assert log[..j][..j - 1] == log[..j - 1];
    if log[j - 1].GrantedTo? {
      i := j - 1;
    } else {
      LegalAt(log, j - 1);
      i := HoldHasAGrant(log, j - 1);
    }
  }

  /** Exclusion: an accepted call comes from the worker that received the latest grant, which has been
      neither reclaimed nor handed back since, before the lease it holds runs out. */
  lemma AcceptedOnlyFromHolder(log: seq<Event>, j: nat) returns (i: nat)
    requires LegalLog(log) && j < |log| && log[j].Accepted()
    ensures HeldSince(log, i, j) && log[i].worker == log[j].worker
    ensures HoldOf(log[..j]).Held? && log[j].now < HoldOf(log[..j]).expires
  {
    LegalAt(log, j);
    i := HoldHasAGrant(log, j);
  }

  /** Between two grants, to whichever workers, the earlier lease ended: it had run out by the
      coordinator's clock when it was reclaimed, or its own holder handed it back. */
  lemma {:induction false} GrantsAreSeparated(log: seq<Event>, i: nat, j: nat) returns (m: nat)
    requires LegalLog(log) && i < j < |log| && log[i].GrantedTo? && log[j].GrantedTo?
    ensures i < m < j && HeldSince(log, i, m) && HoldOf(log[..m]).Held? && HoldOf(log[..m]).worker == log[i].worker
    ensures match log[m]
      case Reclaimed(now) => HoldOf(log[..m]).expires < now
      case ReturnedBy(worker, _) => worker == log[i].worker
      case _ => false
  {
    LegalAt(log, i);
    LegalAt(log, j);
    assert log[..i + 1][..i] == log[..i];
    m := FirstRelease(log, i, j, i + 1);
  }

  /** The lease granted at i is still held at m, so before the next grant at j someone ends it. */
  lemma {:induction false} FirstRelease(log: seq<Event>, i: nat, j: nat, m: nat) returns (r: nat)
    requires LegalLog(log) && m < j < |log| && log[j].GrantedTo? && HeldSince(log, i, m)
    requires HoldOf(log[..m]).Held? && HoldOf(log[..m]).worker == log[i].worker
    ensures m <= r < j && HeldSince(log, i, r) && HoldOf(log[..r]).Held? && HoldOf(log[..r]).worker == log[i].worker
    ensures match log[r]
      case Reclaimed(now) => HoldOf(log[..r]).expires < now
      case ReturnedBy(worker, _) => worker == log[i].worker
      case _ => false
    decreases j - m
  {
    LegalAt(log, m);
    if log[m].Release() {
      r := m;
    } else {
      if log[m].CompletedBy? || log[m].FailedBy? {
        ClosedForGood(log, m);
      }
      assert log[..m + 1][..m] == log[..m];
      LegalAt(log, j);
      r := FirstRelease(log, i, j, m + 1);
    }
  }

  /** A completion or a final failure is the last entry of a task's log. */
  lemma {:induction false} ClosedForGood(log: seq<Event>, m: nat)
    requires LegalLog(log) && m < |log|
    requires log[m].CompletedBy? || log[m].FailedBy?
    ensures m + 1 == |log|
  {
    assert log[..m + 1][..m] == log[..m];
    if m + 1 < |log| {
      LegalAt(log, m + 1);
    }
  }

  // ---------------------------------------------------------------- where grants go

  function Returns(log: seq<Event>): nat
  {
    if log == [] then 0 else Returns(log[..|log| - 1]) + if log[|log| - 1].ReturnedBy? then 1 else 0
  }

  /** Every grant is accounted for: it ran out, was handed back for another try, or is the one that is
      still held or closed the task. */
  lemma {:induction false} GrantsBalance(log: seq<Event>)
    requires LegalLog(log)
    ensures Grants(log) == Reclaims(log) + Returns(log) + if HoldOf(log).Free? then 0 else 1
  {
    if log != [] {
      GrantsBalance(log[..|log| - 1]);
    }
  }

  // ---------------------------------------------------------------- terminal tasks and settled cycles

  /** A call that names a source the cycle does not have yet. */
  ghost predicate Extends(uuid5: string -> string, s: Store, op: Op, cycle: string)
  {
    op.SubmitOp? && op.cycle == cycle
    && exists source | source in op.sources :: uuid5(TaskKey(cycle, source.name)) !in s.tasks
  }

  ghost predicate SameBatches(s: Store, after: Store, id: TaskId)
  {
    forall batchId :: ((id, batchId) in s.batches <==> (id, batchId) in after.batches)
      && ((id, batchId) in s.batches ==> s.batches[(id, batchId)] == after.batches[(id, batchId)])
  }

  /** Completed and failed tasks absorb every call: neither the row nor its batches ever change. */
  lemma {:induction false} TerminalStep(uuid5: string -> string, s: Store, op: Op, id: TaskId)
    requires id in s.tasks && s.tasks[id].Terminal()
    ensures var after := Apply(uuid5, s, op);
      id in after.tasks && after.tasks[id] == s.tasks[id] && SameBatches(s, after, id)
  {
    match op
    case SubmitOp(cycle, sources, now) => InsertTasksKeeps(uuid5, s.tasks, cycle, sources, now);
    case LeaseOp(worker, leaseS, now) => TerminalIsNotLeased(s, worker, leaseS, now, id);
    case BatchOp(i, worker, batchId, payload, now) => TerminalTakesNoBatch(s, i, worker, batchId, payload, now, id);
    case _ =>
  }

  lemma {:induction false} TerminalIsNotLeased(s: Store, worker: string, leaseS: Time, now: Time, id: TaskId)
    requires id in s.tasks && s.tasks[id].Terminal()
    ensures var after := Lease(s, worker, leaseS, now).0;
      id in after.tasks && after.tasks[id] == s.tasks[id] && after.batches == s.batches
  {
    if leaseS > 0.0 {
      LeaseUnfolds(s, worker, leaseS, now, id);
    }
  }

  lemma {:induction false} TerminalTakesNoBatch(s: Store, i: TaskId, worker: string, batchId: string, payload: string,
        now: Time, id: TaskId)
    requires id in s.tasks && s.tasks[id].Terminal()
    ensures SameBatches(s, AddBatch(s, i, worker, batchId, payload, now).0, id)
  {
  }

  lemma {:induction false} TerminalForGood(uuid5: string -> string, s: Store, ops: seq<Op>, id: TaskId)
    requires id in s.tasks && s.tasks[id].Terminal()
    ensures var after := Run(uuid5, s, ops);
      id in after.tasks && after.tasks[id] == s.tasks[id] && SameBatches(s, after, id)
  {
    if ops != [] {
      var before := ops[..|ops| - 1];
      TerminalForGood(uuid5, s, before, id);
      TerminalStep(uuid5, Run(uuid5, s, before), ops[|ops| - 1], id);
    }
  }

  /** The columns of a task that no call changes. */
  predicate SameIdentity(a: Task, b: Task)
  {
    a.key == b.key && a.cycle == b.cycle && a.source == b.source && a.payload == b.payload && a.created == b.created
  }

  lemma LeaseKeepsIdentity(s: Store, worker: string, leaseS: Time, now: Time, id: TaskId)
    ensures var after := Lease(s, worker, leaseS, now).0.tasks;
      (id in s.tasks <==> id in after) && (id in s.tasks ==> SameIdentity(after[id], s.tasks[id]))
  {
    LeaseMakesNoTasks(s, worker, leaseS, now, id);
    if leaseS > 0.0 && id in s.tasks {
      LeaseUnfolds(s, worker, leaseS, now, id);
    }
  }

  lemma HolderCallKeepsIdentity(uuid5: string -> string, s: Store, op: Op, id: TaskId)
    requires !op.SubmitOp? && !op.LeaseOp?
    ensures var after := Apply(uuid5, s, op).tasks;
      (id in s.tasks <==> id in after) && (id in s.tasks ==> SameIdentity(after[id], s.tasks[id]))
  {
  }

  /** Tasks are never removed or renamed, and only submitting creates one. */
  lemma TasksPersist(uuid5: string -> string, s: Store, op: Op, id: TaskId)
    ensures id in s.tasks ==>
      id in Apply(uuid5, s, op).tasks && SameIdentity(Apply(uuid5, s, op).tasks[id], s.tasks[id])
    ensures id in Apply(uuid5, s, op).tasks && id !in s.tasks ==>
      op.SubmitOp? && exists k ::
        0 <= k < |op.sources| && id == uuid5(TaskKey(op.cycle, op.sources[k].name)) &&
        Apply(uuid5, s, op).tasks[id] == NewTask(op.cycle, op.sources[k], op.now)
  {
    if op.SubmitOp? {
      InsertTasksKeeps(uuid5, s.tasks, op.cycle, op.sources, op.now);
    } else if op.LeaseOp? {
      LeaseKeepsIdentity(s, op.worker, op.leaseS, op.now, id);
    } else {
      HolderCallKeepsIdentity(uuid5, s, op, id);
    }
  }

  /** The tasks of a cycle can only grow by submitting a new source to that cycle. */
  lemma CycleGrowsBySubmit(uuid5: string -> string, s: Store, op: Op, cycle: string, id: TaskId)
    requires !Extends(uuid5, s, op, cycle)
    ensures var after := Apply(uuid5, s, op);
      id in s.tasks && s.tasks[id].cycle == cycle <==> id in after.tasks && after.tasks[id].cycle == cycle
  {
    TasksPersist(uuid5, s, op, id);
    var after := Apply(uuid5, s, op);
    if id in after.tasks && id !in s.tasks {
      var k :| 0 <= k < |op.sources| && id == uuid5(TaskKey(op.cycle, op.sources[k].name)) &&
        after.tasks[id] == NewTask(op.cycle, op.sources[k], op.now);
      assert op.sources[k] in op.sources;
    }
  }

  ghost predicate NeverExtends(uuid5: string -> string, s: Store, ops: seq<Op>, cycle: string)
  {
    forall k | 0 <= k < |ops| :: !Extends(uuid5, Run(uuid5, s, ops[..k]), ops[k], cycle)
  }

  /** A settled cycle stays settled and keeps its results, whatever is called, until a new source is
      submitted to it. */
  lemma {:induction false} SettledForGood(uuid5: string -> string, s: Store, ops: seq<Op>, cycle: string)
    requires Settled(s, cycle) && NeverExtends(uuid5, s, ops, cycle)
    ensures var after := Run(uuid5, s, ops);
      && Settled(after, cycle) && Status(after, cycle).done
      && JoinRows(after, cycle) == JoinRows(s, cycle)
  {
    var after := Run(uuid5, s, ops);
    CycleStaysTheSame(uuid5, s, ops, cycle);
    SameCycleMeans(s, after, cycle);
    DoneMeansSettled(after, cycle);
    SameRows(s, after, cycle);
    SameRows(after, s, cycle);
  }

  /** The cycle has the same tasks, rows and batches in both stores. */
  ghost predicate SameCycle(s: Store, after: Store, cycle: string)
  {
    && (forall id :: id in s.tasks && s.tasks[id].cycle == cycle <==>
         id in after.tasks && after.tasks[id].cycle == cycle)
    && forall id | id in s.tasks && s.tasks[id].cycle == cycle ::
         after.tasks[id] == s.tasks[id] && SameBatches(s, after, id)
  }

  lemma SameCycleMeans(s: Store, after: Store, cycle: string)
    requires SameCycle(s, after, cycle)
    ensures SameCycle(after, s, cycle) && (Settled(s, cycle) ==> Settled(after, cycle))
  {
  }

  lemma {:induction false} CycleStaysTheSame(uuid5: string -> string, s: Store, ops: seq<Op>, cycle: string)
    requires Settled(s, cycle) && NeverExtends(uuid5, s, ops, cycle)
    ensures SameCycle(s, Run(uuid5, s, ops), cycle)
  {
    var after := Run(uuid5, s, ops);
    forall id
      ensures id in s.tasks && s.tasks[id].cycle == cycle <==> id in after.tasks && after.tasks[id].cycle == cycle
    {
      SameTasksInCycle(uuid5, s, ops, cycle, id);
    }
    forall id | id in s.tasks && s.tasks[id].cycle == cycle
      ensures id in after.tasks && after.tasks[id] == s.tasks[id] && SameBatches(s, after, id)
    {
      TerminalForGood(uuid5, s, ops, id);
    }
  }

  lemma {:induction false} SameRows(s: Store, after: Store, cycle: string)
    requires SameCycle(s, after, cycle)
    ensures JoinRows(s, cycle) <= JoinRows(after, cycle)
  {
    forall row | row in JoinRows(s, cycle)
      ensures row in JoinRows(after, cycle)
    {
      if key: BatchKey :|
        key in s.batches && key.0 in s.tasks && s.tasks[key.0].cycle == cycle && row == BatchRow(s, key) {
        JoinedBatchRow(s, after, cycle, key);
      } else {
        var id :| id in s.tasks && s.tasks[id].cycle == cycle &&
          (forall key: BatchKey | key in s.batches :: key.0 != id) && row == EmptyRow(s, id);
        JoinedEmptyRow(s, after, cycle, id);
      }
    }
  }

  lemma {:induction false} JoinedBatchRow(s: Store, after: Store, cycle: string, key: BatchKey)
    requires SameCycle(s, after, cycle) && key in s.batches && key.0 in s.tasks && s.tasks[key.0].cycle == cycle
    ensures BatchRow(s, key) in JoinRows(after, cycle)
  {
    SameBatchRow(s, after, cycle, key);
  }

  lemma {:induction false} JoinedEmptyRow(s: Store, after: Store, cycle: string, id: TaskId)
    requires SameCycle(s, after, cycle) && id in s.tasks && s.tasks[id].cycle == cycle &&
      forall key: BatchKey | key in s.batches :: key.0 != id
    ensures EmptyRow(s, id) in JoinRows(after, cycle)
  {
    SameEmptyRow(s, after, cycle, id);
  }

  lemma SameBatchRow(s: Store, after: Store, cycle: string, key: BatchKey)
    requires SameCycle(s, after, cycle) && key in s.batches && key.0 in s.tasks && s.tasks[key.0].cycle == cycle
    ensures key in after.batches && key.0 in after.tasks && after.tasks[key.0].cycle == cycle &&
      BatchRow(s, key) == BatchRow(after, key)
  {
    assert SameBatches(s, after, key.0) && key == (key.0, key.1);
  }

  lemma SameEmptyRow(s: Store, after: Store, cycle: string, id: TaskId)
    requires SameCycle(s, after, cycle) && id in s.tasks && s.tasks[id].cycle == cycle &&
      forall key: BatchKey | key in s.batches :: key.0 != id
    ensures id in after.tasks && after.tasks[id].cycle == cycle && EmptyRow(s, id) == EmptyRow(after, id)
    ensures forall key: BatchKey | key in after.batches :: key.0 != id
  {
    assert SameBatches(s, after, id);
    forall key: BatchKey | key in after.batches
      ensures key.0 != id
    {
      assert key == (key.0, key.1);
      assert key.0 == id ==> (id, key.1) in s.batches;
    }
  }

  lemma {:induction false} SameTasksInCycle(uuid5: string -> string, s: Store, ops: seq<Op>, cycle: string, id: TaskId)
    requires NeverExtends(uuid5, s, ops, cycle)
    ensures var after := Run(uuid5, s, ops);
      id in s.tasks && s.tasks[id].cycle == cycle <==> id in after.tasks && after.tasks[id].cycle == cycle
  {
    if ops != [] {
      var k := |ops| - 1;
      var before := ops[..k];
      assert NeverExtends(uuid5, s, before, cycle) by {
        forall i | 0 <= i < k
          ensures !Extends(uuid5, Run(uuid5, s, before[..i]), before[i], cycle)
        {
          assert before[..i] == ops[..i];
        }
      }
      SameTasksInCycle(uuid5, s, before, cycle, id);
      assert ops[..k] == before;
      CycleGrowsBySubmit(uuid5, Run(uuid5, s, before), ops[k], cycle, id);
    }
  }
}
