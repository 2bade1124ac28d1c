/** Collecting the results: with a clock that does not run backwards, `cycle_results` gives back what
    the executor yielded, in the order it was yielded, even when several attempts contributed
    (src/lowpower_llm_cluster/distributed_runtime.py:164, :210-221, :397). */
module DeliveryOrder {
  import opened Base
  import opened BatchNames
  import opened TaskStore
  import opened WorkerSystem

  function NowOf(a: Action): Option<Time>
  {
    match a
    case SubmitCycle(_, _, now) => Some(now)
    case Grab(_, _, now) => Some(now)
    case DeliverBatch(_, _, _, now) => Some(now)
    case DeliverComplete(_, _, now) => Some(now)
    case DeliverHeartbeat(_, _, now) => Some(now)
    case DeliverFail(_, _, _, _, now) => Some(now)
    case _ => None
  }

  function LaterOf(clock: Option<Time>, a: Action): Option<Time>
  {
    if NowOf(a).Some? then NowOf(a) else clock
  }

  /** The coordinator's last clock reading. */
  function Clock(actions: seq<Action>): Option<Time>
  {
    if actions == [] then None else LaterOf(Clock(actions[..|actions| - 1]), actions[|actions| - 1])
  }

  predicate NotBefore(clock: Option<Time>, a: Action)
  {
    clock.Some? && NowOf(a).Some? ==> clock.value <= NowOf(a).value
  }

  predicate ClockNondecreasing(actions: seq<Action>)
  {
    actions == [] ||
    (ClockNondecreasing(actions[..|actions| - 1]) && NotBefore(Clock(actions[..|actions| - 1]), actions[|actions| - 1]))
  }

  function KeyOf(st: Store, id: TaskId, i: nat): BatchKey
    requires id in st.tasks
  {
    (id, BatchId(st.tasks[id].key, i))
  }

  ghost predicate StoredByClock(st: Store, clock: Option<Time>)
  {
    forall key | key in st.batches :: clock.Some? && st.batches[key].created <= clock.value
  }

  ghost predicate PairOrdered(c: Config, st: Store, id: TaskId, i: nat, j: nat)
  {
    i <= j && HasFirst(c, st, id, j + 1) ==>
      st.batches[KeyOf(st, id, i)].created <= st.batches[KeyOf(st, id, j)].created
  }

  ghost predicate OrderInv(c: Config, st: Store, clock: Option<Time>)
  {
    StoredByClock(st, clock) && forall id, i: nat, j: nat :: PairOrdered(c, st, id, i, j)
  }

  lemma StoredByClockStep(c: Config, s: System, a: Action, clock: Option<Time>)
    requires StoredByClock(s.store, clock) && NotBefore(clock, a)
    ensures StoredByClock(Step(c, s, a).store, LaterOf(clock, a))
  {
    var t := Step(c, s, a);
    forall key | key in t.store.batches
      ensures LaterOf(clock, a).Some? && t.store.batches[key].created <= LaterOf(clock, a).value
    {
      if key !in s.store.batches {
        OnlyBatchAdds(c.uuid5, s.store, CallOf(c, s, a).value, key);
      } else if CallOf(c, s, a).Some? {
        BatchesPersist(c.uuid5, s.store, CallOf(c, s, a).value, key);
      }
    }
  }

  lemma OldBatchStep(c: Config, s: System, a: Action, key: BatchKey)
    requires key in s.store.batches
    ensures key in Step(c, s, a).store.batches && Step(c, s, a).store.batches[key] == s.store.batches[key]
  {
    if CallOf(c, s, a).Some? {
      BatchesPersist(c.uuid5, s.store, CallOf(c, s, a).value, key);
    }
  }

  /** Both batches were stored before the step. */
  lemma {:induction false} OldPairStep(c: Config, s: System, a: Action, clock: Option<Time>, id: TaskId, i: nat, j: nat)
    requires Inv(c, s) && OrderInv(c, s.store, clock) && i <= j && HasFirst(c, Step(c, s, a).store, id, j + 1)
    requires KeyOf(Step(c, s, a).store, id, j) in s.store.batches
    ensures PairOrdered(c, Step(c, s, a).store, id, i, j)
  {
    var t := Step(c, s, a);
    var keyI, keyJ := KeyOf(t.store, id, i), KeyOf(t.store, id, j);
    var k: nat :| BatchBelongs(c, s.store, keyJ, k);
    IdentityStep(c, s, a, id);
    BatchIdInjective(s.store.tasks[id].key, j, k);
    assert PairOrdered(c, s.store, id, i, j);
    assert keyI == KeyOf(s.store, id, i) && keyI in s.store.batches;
    OldBatchStep(c, s, a, keyI);
    OldBatchStep(c, s, a, keyJ);
  }

  lemma {:induction false} PairStep(c: Config, s: System, a: Action, clock: Option<Time>, id: TaskId, i: nat, j: nat)
    requires Inv(c, s) && OrderInv(c, s.store, clock) && NotBefore(clock, a)
    requires i <= j && HasFirst(c, Step(c, s, a).store, id, j + 1)
    ensures PairOrdered(c, Step(c, s, a).store, id, i, j)
  {
    var t := Step(c, s, a);
    var keyI, keyJ := KeyOf(t.store, id, i), KeyOf(t.store, id, j);
    assert keyI in t.store.batches && keyJ in t.store.batches;
    if keyJ in s.store.batches {
      OldPairStep(c, s, a, clock, id, i, j);
    } else {
      var call := CallOf(c, s, a).value;
      OnlyBatchAdds(c.uuid5, s.store, call, keyJ);
      if keyI in s.store.batches {
        OldBatchStep(c, s, a, keyI);
      } else {
        OnlyBatchAdds(c.uuid5, s.store, call, keyI);
      }
    }
  }

  /** Batches of one task are stored in index order, whichever attempts they came from. */
  lemma {:induction false} OrderAlways(c: Config, actions: seq<Action>)
    requires ClockNondecreasing(actions)
    ensures OrderInv(c, Exec(c, actions).store, Clock(actions))
  {
    if actions != [] {
      var before, a := actions[..|actions| - 1], actions[|actions| - 1];
      OrderAlways(c, before);
      InvAlways(c, before);
      StoredByClockStep(c, Exec(c, before), a, Clock(before));
      forall id, i: nat, j: nat | i <= j && HasFirst(c, Exec(c, actions).store, id, j + 1)
        ensures PairOrdered(c, Exec(c, actions).store, id, i, j)
      {
        PairStep(c, Exec(c, before), a, Clock(before), id, i, j);
      }
    }
  }

  // ---------------------------------------------------------------- the rows a collector reads

  /** The observations a collector reads for one task, in row order. */
  function Delivered(rows: seq<ResultRow>, id: TaskId): seq<string>
  {
    if rows == [] then [] else
      var last := rows[|rows| - 1];
      Delivered(rows[..|rows| - 1], id) + if last.id == id && last.payload.Some? then [last.payload.value] else []
  }

  function RowOf(st: Store, id: TaskId, i: nat): ResultRow
    requires id in st.tasks && KeyOf(st, id, i) in st.batches
  {
    BatchRow(st, KeyOf(st, id, i))
  }

  ghost predicate RowsSorted(st: Store, id: TaskId, n: nat)
    requires id in st.tasks && forall i | 0 <= i < n :: KeyOf(st, id, i) in st.batches
  {
    forall m, i | 0 <= m < i < n :: !RowLeq(RowOf(st, id, i), RowOf(st, id, m))
  }

  /** The ORDER BY puts a later batch strictly after an earlier one. */
  lemma RowsSortByIndex(c: Config, st: Store, clock: Option<Time>, id: TaskId, n: nat)
    requires OrderInv(c, st, clock) && HasFirst(c, st, id, n) && n <= PAD_LIMIT
    ensures RowsSorted(st, id, n)
  {
    forall m, i | 0 <= m < i < n
      ensures !RowLeq(RowOf(st, id, i), RowOf(st, id, m))
    {
      HasFewer(c, st, id, n, i + 1);
      assert PairOrdered(c, st, id, m, i);
      var key := st.tasks[id].key;
      NamesSortAsNumbersExactly(key, n);
      if LexLeq(BatchId(key, i), BatchId(key, m)) {
        LexLeqAntisymmetric(BatchId(key, i), BatchId(key, m));
        BatchIdInjective(key, i, m);
      }
    }
  }

  ghost predicate Holding(st: Store, rows: seq<ResultRow>, id: TaskId, n: nat, m: nat)
    requires id in st.tasks && forall i | 0 <= i < n :: KeyOf(st, id, i) in st.batches
  {
    m <= n && forall i | 0 <= i < n :: RowOf(st, id, i) in rows <==> i < m
  }

  lemma JoinedRowIsBatchRow(st: Store, cycle: string, row: ResultRow) returns (key: BatchKey)
    requires row in JoinRows(st, cycle) && row.payload.Some?
    ensures key in st.batches && key.0 in st.tasks && key.0 == row.id && row == BatchRow(st, key)
  {
    key :| key in st.batches && key.0 in st.tasks && row == BatchRow(st, key);
    assert BatchRow(st, key).id == key.0;
  }

  /** A joined row that carries observations of the task is one of its batch rows. */
  lemma RowHasIndex(c: Config, st: Store, cycle: string, row: ResultRow, id: TaskId, n: nat) returns (i: nat)
    requires StoresExactly(c, st, id, n) && row in JoinRows(st, cycle) && row.id == id && row.payload.Some?
    ensures i < n && row == RowOf(st, id, i)
  {
    var key := JoinedRowIsBatchRow(st, cycle, row);
    i := IndexOf(c, st, id, n, key.1);
    assert key == KeyOf(st, id, i);
  }

  lemma IndexOf(c: Config, st: Store, id: TaskId, n: nat, batchId: string) returns (i: nat)
    requires StoresExactly(c, st, id, n) && (id, batchId) in st.batches
    ensures i < n && batchId == BatchId(st.tasks[id].key, i)
  {
    i :| 0 <= i < n && batchId == BatchId(st.tasks[id].key, i);
  }

  lemma RowsDiffer(c: Config, st: Store, id: TaskId, n: nat, i: nat, j: nat)
    requires HasFirst(c, st, id, n) && i < n && j < n
    ensures RowOf(st, id, i) == RowOf(st, id, j) ==> i == j
  {
    if RowOf(st, id, i) == RowOf(st, id, j) {
      BatchIdInjective(st.tasks[id].key, i, j);
    }
  }

  lemma {:induction false} DeliveredSoFar(c: Config, st: Store, cycle: string, rows: seq<ResultRow>, id: TaskId, n: nat,
        p: nat)
    returns (m: nat)
    requires StoresExactly(c, st, id, n) && RowsSorted(st, id, n) && st.tasks[id].cycle == cycle
    requires IsResults(st, cycle, rows) && p <= |rows|
    ensures Holding(st, rows[..p], id, n, m) && Delivered(rows[..p], id) == Yielded(c, st, id)[..m]
  {
    if p == 0 {
      m := 0;
    } else {
      m := DeliveredSoFar(c, st, cycle, rows, id, n, p - 1);
      var row := rows[p - 1];
      assert rows[..p] == rows[..p - 1] + [row];
      assert rows[..p][..p - 1] == rows[..p - 1];
      if row.id == id && row.payload.Some? {
        assert row in rows;
        var i := RowHasIndex(c, st, cycle, row, id, n);
        NextIsM(c, st, cycle, rows, id, n, p - 1, m, i);
        HoldingOneMore(c, st, rows[..p - 1], id, n, m);
        m := m + 1;
      }
    }
  }

  lemma HoldingOneMore(c: Config, st: Store, rows: seq<ResultRow>, id: TaskId, n: nat, m: nat)
    requires HasFirst(c, st, id, n) && Holding(st, rows, id, n, m) && m < n
    ensures Holding(st, rows + [RowOf(st, id, m)], id, n, m + 1)
    ensures Yielded(c, st, id)[..m + 1] == Yielded(c, st, id)[..m] + [RowOf(st, id, m).payload.value]
  {
    forall i | 0 <= i < n
      ensures RowOf(st, id, i) in rows + [RowOf(st, id, m)] <==> i < m + 1
    {
      RowsDiffer(c, st, id, n, i, m);
    }
  }

  /** The next batch row of the task is the one with the next index. */
  lemma NextIsM(c: Config, st: Store, cycle: string, rows: seq<ResultRow>, id: TaskId, n: nat, p: nat, m: nat, i: nat)
    requires StoresExactly(c, st, id, n) && RowsSorted(st, id, n) && st.tasks[id].cycle == cycle
    requires IsResults(st, cycle, rows) && p < |rows|
    requires Holding(st, rows[..p], id, n, m) && i < n && rows[p] == RowOf(st, id, i)
    ensures i == m
  {
    var row := RowOf(st, id, m);
    assert rows[p] !in rows[..p] && row in JoinRows(st, cycle) && row !in rows[..p];
    assert forall k | 0 <= k < p :: rows[k] in rows[..p];
    assert forall k | p < k < |rows| :: RowLeq(rows[p], rows[k]);
    RowsDiffer(c, st, id, n, m, i);
    assert row in rows;
  }

  /** End to end: whatever crashes, expires or is sent again, a collector reads for each task exactly the
      first n batches of the executor, in order; for a completed task, all of them.  Needs a clock that
      does not run backwards and no more than 10^8 batches in the task. */
  lemma ExactlyOnceInOrder(c: Config, actions: seq<Action>, cycle: string, rows: seq<ResultRow>, id: TaskId)
    returns (n: nat)
    requires ClockNondecreasing(actions) && id in Exec(c, actions).store.tasks
    requires Exec(c, actions).store.tasks[id].cycle == cycle && IsResults(Exec(c, actions).store, cycle, rows)
    requires |Yielded(c, Exec(c, actions).store, id)| <= PAD_LIMIT
    ensures var st := Exec(c, actions).store;
      n <= |Yielded(c, st, id)| && Delivered(rows, id) == Yielded(c, st, id)[..n] &&
        (st.tasks[id].state.Completed? ==> n == |Yielded(c, st, id)|)
  {
    var st := Exec(c, actions).store;
    n := ExactlyOnce(c, actions, id);
    OrderAlways(c, actions);
    RowsSortByIndex(c, st, Clock(actions), id, n);
    var m := DeliveredSoFar(c, st, cycle, rows, id, n, |rows|);
    assert rows[..|rows|] == rows;
    assert m < n ==> RowOf(st, id, m) in JoinRows(st, cycle);
  }
}
