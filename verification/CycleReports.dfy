/** What the two queries report about a cycle (src/lowpower_llm_cluster/distributed_runtime.py:200-221). */
module CycleReports {
  import opened Base
  import opened TaskStore

  function TasksOf(s: Store, cycle: string): set<TaskId>
  {
    set id | id in s.tasks && s.tasks[id].cycle == cycle
  }

  // ---------------------------------------------------------------- cycle_status

  /** The tasks of the cycle in either of two states. */
  function InEither(s: Store, cycle: string, a: TaskState, b: TaskState): set<TaskId>
  {
    set id | id in TasksOf(s, cycle) && (s.tasks[id].state == a || s.tasks[id].state == b)
  }

  lemma {:induction false} EitherCount(s: Store, cycle: string, a: TaskState, b: TaskState)
    requires a != b
    ensures |InEither(s, cycle, a, b)| == |InState(s.tasks, cycle, a)| + |InState(s.tasks, cycle, b)|
  {
    assert InEither(s, cycle, a, b) == InState(s.tasks, cycle, a) + InState(s.tasks, cycle, b);
    UnionOfTwo(InState(s.tasks, cycle, a), InState(s.tasks, cycle, b));
  }

  lemma {:induction false} SplitByState(s: Store, cycle: string)
    ensures |TasksOf(s, cycle)| ==
      |InState(s.tasks, cycle, Queued)| + |InState(s.tasks, cycle, Leased)| +
      |InState(s.tasks, cycle, Completed)| + |InState(s.tasks, cycle, Failed)|
  {
    EitherCount(s, cycle, Queued, Leased);
    EitherCount(s, cycle, Completed, Failed);
    var open, closed := InEither(s, cycle, Queued, Leased), InEither(s, cycle, Completed, Failed);
    assert TasksOf(s, cycle) == open + closed;
    UnionOfTwo(open, closed);
  }

  lemma UnionOfTwo(a: set<TaskId>, b: set<TaskId>)
    requires a !! b
    ensures |a + b| == |a| + |b|
  {
  }

  /** The totals count the cycle's tasks, and a state is listed with its count exactly when some task is in it. */
  lemma {:induction false} StatusCounts(s: Store, cycle: string, state: TaskState)
    ensures var status, mine := Status(s, cycle), set id | id in TasksOf(s, cycle) && s.tasks[id].state == state;
      && status.total == |TasksOf(s, cycle)|
      && status.terminal ==
         |set id | id in TasksOf(s, cycle) && (s.tasks[id].state.Completed? || s.tasks[id].state.Failed?)|
      && (state in status.counts <==> mine != {})
      && (state in status.counts ==> status.counts[state] == |mine|)
  {
    var mine := set id | id in TasksOf(s, cycle) && s.tasks[id].state == state;
    SplitByState(s, cycle);
    TerminalCount(s, cycle);
    assert mine == InState(s.tasks, cycle, state);
    assert |mine| > 0 <==> mine != {};
    assert state in {Queued, Leased, Completed, Failed};
  }

  lemma {:induction false} TerminalCount(s: Store, cycle: string)
    ensures Status(s, cycle).terminal ==
      |set id | id in TasksOf(s, cycle) && (s.tasks[id].state.Completed? || s.tasks[id].state.Failed?)|
  {
    EitherCount(s, cycle, Completed, Failed);
    assert InEither(s, cycle, Completed, Failed) ==
      set id | id in TasksOf(s, cycle) && (s.tasks[id].state.Completed? || s.tasks[id].state.Failed?);
  }

  // ---------------------------------------------------------------- cycle_results

  /** The columns a result row takes from its task; a task without an error shows the empty text. */
  predicate QuotesTask(row: ResultRow, task: Task)
  {
    && row.source == task.source && row.state == task.state
    && row.error == match task.error { case None => "" case Some(text) => text }
  }

  /** The row stands for this stored batch, or for a task without any. */
  ghost predicate StandsFor(s: Store, row: ResultRow, id: TaskId)
  {
    if exists name: string :: (id, name) in s.batches then
      && row.batchId.Some? && (id, row.batchId.value) in s.batches
      && var batch := s.batches[(id, row.batchId.value)];
         row.payload == Some(batch.payload) && row.created == Some(batch.created)
    else row.batchId.None? && row.payload.None? && row.created.None?
  }

  /** The results hold exactly one row for every stored batch of a task of the cycle, and one for every task
      without batches, each quoting its task. */
  lemma {:induction false} ResultRowsExactly(s: Store, cycle: string, rows: seq<ResultRow>, row: ResultRow)
    requires IsResults(s, cycle, rows)
    ensures row in rows <==>
      && row.id in s.tasks && s.tasks[row.id].cycle == cycle
      && QuotesTask(row, s.tasks[row.id]) && StandsFor(s, row, row.id)
  {
    var id := row.id;
    if id in s.tasks {
      if exists name: string :: (id, name) in s.batches {
        var name: string :| (id, name) in s.batches;
        assert (id, name).0 == id;
        if row in JoinRows(s, cycle) {
          assert row != EmptyRow(s, id) || row.batchId.None?;
        }
        if row.batchId.Some? && (id, row.batchId.value) in s.batches {
          assert (id, row.batchId.value).0 == id;
        }
      } else {
        forall key: BatchKey | key in s.batches
          ensures key.0 != id
        {
          assert key == (key.0, key.1);
        }
      }
    }
  }

  /** ... and they come by source, within a source by storing time, within a time by batch id; a task without batches
      comes before the batches of its source. */
  lemma {:induction false} ResultRowsOrdered(s: Store, cycle: string, rows: seq<ResultRow>, p: nat, q: nat)
    requires IsResults(s, cycle, rows) && p < q < |rows|
    ensures LexLeq(rows[p].source, rows[q].source)
    ensures rows[p].source == rows[q].source && rows[q].created.None? ==> rows[p].created.None?
    ensures rows[p].source == rows[q].source && rows[p].created.Some? && rows[q].created.Some? ==>
      || rows[p].created.value < rows[q].created.value
      || (rows[p].created == rows[q].created && rows[p].batchId.Some? && rows[q].batchId.Some? &&
          LexLeq(rows[p].batchId.value, rows[q].batchId.value))
  {
    var a, b := rows[p], rows[q];
    assert RowLeq(a, b) && a in rows && b in rows;
    LexLeqTotal(a.source, a.source);
    ResultRowsExactly(s, cycle, rows, a);
    ResultRowsExactly(s, cycle, rows, b);
  }
}
