/** Which task a lease call grants, and what the worker is told
    (src/lowpower_llm_cluster/distributed_runtime.py:110-137). */
module GrantOrder {
  import opened Base
  import opened TaskStore
  import opened LeaseProtocol

  /** The task is there for the taking: queued, or leased with an expiry in the past. */
  predicate ForTheTaking(task: Task, now: Time)
  {
    task.state.Queued? || (task.state.Leased? && task.expires.Some? && task.expires.value < now)
  }

  /** Before it in the queue: created earlier, or at the same time under an id that sorts first. */
  predicate AheadOf(a: TaskId, x: Task, b: TaskId, y: Task)
  {
    x.created < y.created || (x.created == y.created && LexLeq(a, b))
  }

  // ---------------------------------------------------------------- one call

  lemma TakingMeansQueued(tasks: map<TaskId, Task>, now: Time, id: TaskId)
    requires id in tasks
    ensures id in Reclaim(tasks, now)
    ensures Reclaim(tasks, now)[id].state.Queued? <==> ForTheTaking(tasks[id], now)
    ensures Reclaim(tasks, now)[id].created == tasks[id].created
  {
  }

  /** Something is granted exactly when the lease time is positive and some task is for the taking. */
  lemma GrantedExactly(s: Store, worker: string, leaseS: Time, now: Time)
    ensures var outcome := Lease(s, worker, leaseS, now).1;
      && (outcome.InvalidLease? <==> leaseS <= 0.0)
      && (outcome.Granted? <==> leaseS > 0.0 && exists id :: id in s.tasks && ForTheTaking(s.tasks[id], now))
  {
    var tasks := Reclaim(s.tasks, now);
    if id :| id in s.tasks && ForTheTaking(s.tasks[id], now) {
      TakingMeansQueued(s.tasks, now, id);
      NextExists(tasks);
    }
    if Next(tasks).Some? {
      TakingMeansQueued(s.tasks, now, Next(tasks).value);
    }
  }

  /** The task granted is for the taking, and no other task for the taking is ahead of it. */
  lemma OldestIsGranted(s: Store, worker: string, leaseS: Time, now: Time, other: TaskId)
    requires Lease(s, worker, leaseS, now).1.Granted?
    ensures var id := Lease(s, worker, leaseS, now).1.grant.id;
      && id in s.tasks && ForTheTaking(s.tasks[id], now)
      && (other in s.tasks && ForTheTaking(s.tasks[other], now) ==> AheadOf(id, s.tasks[id], other, s.tasks[other]))
  {
    var id := Lease(s, worker, leaseS, now).1.grant.id;
    TakingMeansQueued(s.tasks, now, id);
    if other in s.tasks {
      TakingMeansQueued(s.tasks, now, other);
    }
  }

  /** The grant quotes the row, and the row afterwards shows the grant. */
  lemma GrantIsTheRow(s: Store, worker: string, leaseS: Time, now: Time)
    requires Lease(s, worker, leaseS, now).1.Granted?
    ensures var g, after := Lease(s, worker, leaseS, now).1.grant, Lease(s, worker, leaseS, now).0;
      && g.id in s.tasks && g.id in after.tasks
      && var x, y := s.tasks[g.id], after.tasks[g.id];
         && (g.key, g.cycle, g.source, g.payload) == (x.key, x.cycle, x.source, x.payload)
         && g.attempt == x.attempts + 1 && g.expires == now + leaseS
         && (y.state, y.owner, y.expires, y.heartbeat) == (Leased, Some(worker), Some(now + leaseS), Some(now))
         && y.attempts == x.attempts + 1 && y.updated == now
         && (y.key, y.cycle, y.source, y.payload) == (x.key, x.cycle, x.source, x.payload)
         && y.error == x.error && y.created == x.created
  {
  }

  /** Whatever a lease call answers, every other row stays, or goes back to the queue if its lease ran out. */
  lemma OthersAfterLease(s: Store, worker: string, leaseS: Time, now: Time, id: TaskId)
    requires id in s.tasks
    requires var outcome := Lease(s, worker, leaseS, now).1; outcome.Granted? ==> outcome.grant.id != id
    ensures var after, x := Lease(s, worker, leaseS, now).0, s.tasks[id];
      && after.cycles == s.cycles && after.batches == s.batches && after.tasks.Keys == s.tasks.Keys
      && after.tasks[id] ==
           if leaseS > 0.0 && x.state.Leased? && x.expires.Some? && x.expires.value < now
           then x.(state := Queued, owner := None, expires := None, updated := now) else x
  {
  }

  // ---------------------------------------------------------------- whole runs

  /** Call i of the run creates the task. */
  ghost predicate CreatedBy(uuid5: string -> string, ops: seq<Op>, i: nat, id: TaskId)
  {
    i < |ops| && id !in Run(uuid5, EMPTY_STORE, ops[..i]).tasks && id in Run(uuid5, EMPTY_STORE, ops[..i + 1]).tasks
  }

  /** A task keeps the time of the call that created it. */
  lemma {:induction false} CreationTimeStays(uuid5: string -> string, ops: seq<Op>, i: nat, id: TaskId)
    requires CreatedBy(uuid5, ops, i, id)
    ensures id in Run(uuid5, EMPTY_STORE, ops).tasks && ops[i].SubmitOp?
    ensures Run(uuid5, EMPTY_STORE, ops).tasks[id].created == ops[i].now
  {
    var before, op := ops[..|ops| - 1], ops[|ops| - 1];
    assert ops[..i + 1][..i] == ops[..i];
    TasksPersist(uuid5, Run(uuid5, EMPTY_STORE, before), op, id);
    if i < |before| {
      assert before[..i] == ops[..i] && before[..i + 1] == ops[..i + 1];
      CreationTimeStays(uuid5, before, i, id);
    } else {
      assert ops[..i + 1] == ops;
    }
  }

  /** First come, first granted, over whole runs: of two tasks for the taking, the one submitted earlier by the clock
      is never passed over for the other. */
  lemma {:induction false} FirstComeFirstGranted(uuid5: string -> string, ops: seq<Op>, i: nat, k: nat, a: TaskId,
        b: TaskId, worker: string, leaseS: Time, now: Time)
    requires CreatedBy(uuid5, ops, i, a) && CreatedBy(uuid5, ops, k, b) && ops[i].now < ops[k].now
    requires var s := Run(uuid5, EMPTY_STORE, ops);
      && (a in s.tasks ==> ForTheTaking(s.tasks[a], now)) && Lease(s, worker, leaseS, now).1.Granted?
    ensures Lease(Run(uuid5, EMPTY_STORE, ops), worker, leaseS, now).1.grant.id != b
  {
    CreationTimeStays(uuid5, ops, i, a);
    CreationTimeStays(uuid5, ops, k, b);
    OldestIsGranted(Run(uuid5, EMPTY_STORE, ops), worker, leaseS, now, a);
  }
}
