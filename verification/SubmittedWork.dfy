/** What a submitted source turns into: its row, and in the end the batches its own payload yields
    (src/lowpower_llm_cluster/distributed_runtime.py:87-103, :370-403). */
module SubmittedWork {
  import opened Base
  import opened BatchNames
  import opened TaskStore
  import opened LeaseProtocol
  import opened TaskIdentity
  import opened WorkerSystem
  import opened DeliveryOrder

  // ---------------------------------------------------------------- one call

  /** Source k is the first of its name in the call. */
  predicate FirstOfName(sources: seq<Source>, k: nat)
  {
    k < |sources| && forall i | 0 <= i < k :: sources[i].name != sources[k].name
  }

  /** A row that a call adds is queued, untouched, and carries the first source of its name. */
  lemma {:induction false} AddedRowExactly(uuid5: string -> string, tasks: map<TaskId, Task>, cycle: string,
        sources: seq<Source>, now: Time, k: nat)
    requires Injective(uuid5) && FirstOfName(sources, k) && uuid5(cycle + ":" + sources[k].name) !in tasks
    ensures var id, after := uuid5(cycle + ":" + sources[k].name), InsertTasks(uuid5, tasks, cycle, sources, now);
      && id in after
      && var row := after[id];
         && (row.key, row.cycle, row.source, row.payload) ==
              (cycle + ":" + sources[k].name, cycle, sources[k].name, sources[k].payload)
         && row.state.Queued? && row.owner.None? && row.expires.None? && row.heartbeat.None? && row.attempts == 0
         && row.error.None? && row.created == now && row.updated == now
  {
    var init, last := sources[..|sources| - 1], sources[|sources| - 1];
    var before := InsertTasks(uuid5, tasks, cycle, init, now);
    assert sources == init + [last];
    if k < |init| {
      assert init[k] == sources[k] && forall i | 0 <= i < k :: init[i] == sources[i];
      AddedRowExactly(uuid5, tasks, cycle, init, now, k);
    } else {
      NotAddedYet(uuid5, tasks, cycle, init, now, last.name);
    }
  }

  lemma {:induction false} NotAddedYet(uuid5: string -> string, tasks: map<TaskId, Task>, cycle: string,
        sources: seq<Source>, now: Time, name: string)
    requires Injective(uuid5) && uuid5(cycle + ":" + name) !in tasks
    requires forall i | 0 <= i < |sources| :: sources[i].name != name
    ensures uuid5(cycle + ":" + name) !in InsertTasks(uuid5, tasks, cycle, sources, now)
  {
    InsertedExactly(uuid5, tasks, cycle, sources, now, name);
  }

  // ---------------------------------------------------------------- whole runs

  /** Call j is the first to submit the source, as its k-th, and no other cycle had its key before. */
  ghost predicate FirstSubmission(ops: seq<Op>, j: nat, k: nat, cycle: string, name: string)
  {
    && j < |ops| && ops[j].SubmitOp? && ops[j].cycle == cycle
    && FirstOfName(ops[j].sources, k) && ops[j].sources[k].name == name
    && !EverClaimed(ops[..j], cycle, name) && !EverClaimedForAnother(ops[..j], cycle, name)
  }

  /** In every run a source's task carries the payload and the time of its first submission, from then on. */
  lemma {:induction false} TaskCarriesFirstSubmission(uuid5: string -> string, ops: seq<Op>, j: nat, k: nat,
        cycle: string, name: string)
    requires Injective(uuid5) && FirstSubmission(ops, j, k, cycle, name)
    ensures var tasks, id := Run(uuid5, EMPTY_STORE, ops).tasks, uuid5(cycle + ":" + name);
      && id in tasks
      && (tasks[id].key, tasks[id].cycle, tasks[id].source) == (cycle + ":" + name, cycle, name)
      && tasks[id].payload == ops[j].sources[k].payload && tasks[id].created == ops[j].now
  {
    var before, op := ops[..|ops| - 1], ops[|ops| - 1];
    var s := Run(uuid5, EMPTY_STORE, before);
    if j < |before| {
      assert before[..j] == ops[..j];
      TaskCarriesFirstSubmission(uuid5, before, j, k, cycle, name);
      TasksPersist(uuid5, s, op, uuid5(cycle + ":" + name));
    } else {
      assert before == ops[..j];
      KeepsItsTaskExactly(uuid5, before, cycle, name);
      AddedRowExactly(uuid5, s.tasks, cycle, op.sources, op.now, k);
    }
  }

  /** With colon-free cycle ids no other cycle ever has the key. */
  lemma {:induction false} NobodyElseHasTheKey(ops: seq<Op>, cycle: string, name: string)
    requires ColonFree(ops) && ':' !in cycle
    ensures !EverClaimedForAnother(ops, cycle, name)
  {
    if j :| 0 <= j < |ops| && ClaimsForAnother(ops[j], cycle, name) {
      var k :| 0 <= k < |ops[j].sources| && TaskKey(ops[j].cycle, ops[j].sources[k].name) == TaskKey(cycle, name);
      assert ops[j] in ops;
      KeysAreInjective(ops[j].cycle, ops[j].sources[k].name, cycle, name);
    }
  }

  /** End to end, from the submitted text to the collected batches: in every run with a forward clock, whatever crashed,
      expired or was sent again, a collector reads for a submitted source the first n batches its own payload yields,
      in order and each once, and all of them once the task is completed. */
  lemma {:induction false} SubmittedWorkIsDelivered(c: Config, actions: seq<Action>, j: nat, k: nat, cycle: string,
        name: string, rows: seq<ResultRow>)
    returns (n: nat)
    requires Injective(c.uuid5) && ClockNondecreasing(actions)
    requires FirstSubmission(Calls(c, actions), j, k, cycle, name)
    requires IsResults(Exec(c, actions).store, cycle, rows)
    requires |c.executor(Calls(c, actions)[j].sources[k].payload)| <= PAD_LIMIT
    ensures var id, yielded := c.uuid5(cycle + ":" + name), c.executor(Calls(c, actions)[j].sources[k].payload);
      && n <= |yielded| && Delivered(rows, id) == yielded[..n] && id in Exec(c, actions).store.tasks
      && (Exec(c, actions).store.tasks[id].state.Completed? ==> n == |yielded|)
  {
    StoreSeesCalls(c, actions);
    TaskCarriesFirstSubmission(c.uuid5, Calls(c, actions), j, k, cycle, name);
    n := ExactlyOnceInOrder(c, actions, cycle, rows, c.uuid5(cycle + ":" + name));
  }
}
