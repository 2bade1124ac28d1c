/** Batching under compaction: the compacting history, too, may cut a refresh into batches of any size
    (docs/CONCURRENCY.md), although its DELETE runs once per batch. */
module CompactBatching {
  import opened Base
  import opened History
  import opened HistoryRuns
  import opened Compaction

  // ---------------------------------------------------------------- insertions and deletions

  lemma DeleteSnoc(observations: seq<ObsRow>, row: ObsRow, run: string, ids: seq<Identity>)
    ensures DeleteRows(observations + [row], run, ids) ==
      DeleteRows(observations, run, ids) + if row.run == run && IdOf(row.item) in ids then [] else [row]
  {
    assert (observations + [row])[..|observations|] == observations;
  }

  lemma {:induction false} DeleteTwice(observations: seq<ObsRow>, run: string, a: seq<Identity>, b: seq<Identity>)
    ensures DeleteRows(observations, run, a + b) == DeleteRows(DeleteRows(observations, run, a), run, b)
  {
    if observations != [] {
      var init, last := observations[..|observations| - 1], observations[|observations| - 1];
      var left := DeleteRows(init, run, a);
      DeleteTwice(init, run, a, b);
      DeleteSnoc(left, last, run, b);
      assert left + [] == left && DeleteRows(left, run, b) + [] == DeleteRows(left, run, b);
    }
  }

  lemma {:induction false} DeletedOthers(observations: seq<ObsRow>, run: string, ids: seq<Identity>, id: Identity)
    requires id !in ids
    ensures HasRow(DeleteRows(observations, run, ids), run, id) <==> HasRow(observations, run, id)
  {
    if observations != [] {
      var init, last := observations[..|observations| - 1], observations[|observations| - 1];
      DeletedOthers(init, run, ids, id);
      HasRowSnoc(init, last, run, id);
      HasRowSnoc(DeleteRows(init, run, ids), last, run, id);
      assert observations == init + [last];
      assert DeleteRows(init, run, ids) + [] == DeleteRows(init, run, ids);
    }
  }

  /** Deleting other listings' rows and inserting can be done in either order. */
  lemma {:induction false} DeleteThenInsert(observations: seq<ObsRow>, run: string, ids: seq<Identity>,
        items: seq<Observation>)
    requires forall item | item in items :: IdOf(item) !in ids
    ensures InsertRows(DeleteRows(observations, run, ids), run, items) ==
      DeleteRows(InsertRows(observations, run, items), run, ids)
  {
    if items != [] {
      var init, last := items[..|items| - 1], items[|items| - 1];
      assert last in items && forall item | item in init :: item in items;
      var rows := InsertRows(observations, run, init);
      DeleteThenInsert(observations, run, ids, init);
      DeletedOthers(rows, run, ids, IdOf(last));
      DeleteSnoc(rows, ObsRow(run, last), run, ids);
    }
  }

  lemma {:induction false} InsertOthers(observations: seq<ObsRow>, run: string, items: seq<Observation>, id: Identity)
    requires forall item | item in items :: IdOf(item) != id
    ensures RowsOf(InsertRows(observations, run, items), id) == RowsOf(observations, id)
  {
    if items != [] {
      var init, last := items[..|items| - 1], items[|items| - 1];
      assert last in items && forall item | item in init :: item in items;
      InsertOthers(observations, run, init, id);
      InsertOne(InsertRows(observations, run, init), run, last, id);
      assert RowsOf(observations, id) + [] == RowsOf(observations, id);
    }
  }

  // ---------------------------------------------------------------- the removable list

  lemma {:induction false} RemovableConcat(heartbeat: Time, t: Tables, xs: seq<Observation>, ys: seq<Observation>,
        changed: set<Identity>)
    ensures Removable(heartbeat, t, xs + ys, changed) ==
      Removable(heartbeat, t, xs, changed) + Removable(heartbeat, t, ys, changed)
  {
    if ys == [] {
      assert xs + ys == xs;
    } else {
      assert (xs + ys)[..|xs + ys| - 1] == xs + ys[..|ys| - 1];
      RemovableConcat(heartbeat, t, xs, ys[..|ys| - 1], changed);
    }
  }

  /** Only the changed ids and latest rows of the items' own listings matter. */
  lemma {:induction false} RemovableAlike(heartbeat: Time, t: Tables, u: Tables, items: seq<Observation>,
        changed: set<Identity>, others: set<Identity>)
    requires forall item | item in items :: IdOf(item) in changed <==> IdOf(item) in others
    requires forall item | item in items ::
      LatestRow(t.observations, IdOf(item)) == LatestRow(u.observations, IdOf(item))
    ensures Removable(heartbeat, t, items, changed) == Removable(heartbeat, u, items, others)
  {
    if items != [] {
      var init, last := items[..|items| - 1], items[|items| - 1];
      assert last in items && forall item | item in init :: item in items;
      RemovableAlike(heartbeat, t, u, init, changed, others);
    }
  }

  lemma RemovableAreItems(heartbeat: Time, t: Tables, items: seq<Observation>, changed: set<Identity>)
    ensures forall id | id in Removable(heartbeat, t, items, changed) :: exists item ::
      item in items && IdOf(item) == id
  {
    forall id | id in Removable(heartbeat, t, items, changed)
      ensures exists item :: item in items && IdOf(item) == id
    {
      RemovableExactly(heartbeat, t, items, changed, id);
    }
  }

  lemma DisjointItems(xs: seq<Observation>, ys: seq<Observation>)
    requires Disjoint(xs, ys)
    ensures forall x, y | x in xs && y in ys :: IdOf(x) != IdOf(y)
  {
    forall x, y | x in xs && y in ys
      ensures IdOf(x) != IdOf(y)
    {
      var p :| 0 <= p < |xs| && xs[p] == x;
      var q :| 0 <= q < |ys| && ys[q] == y;
    }
  }

  /** Each batch's changes are about its own items. */
  lemma {:induction false} ChangedSplit(listings: map<Identity, Listing>, xs: seq<Observation>, ys: seq<Observation>)
    requires Disjoint(xs, ys)
    ensures var both, first, second :=
        ChangedIds(BatchChanges(listings, xs + ys)), ChangedIds(BatchChanges(listings, xs)),
        ChangedIds(BatchChanges(Upsert(listings, xs), ys));
      && (forall x | x in xs :: IdOf(x) in both <==> IdOf(x) in first)
      && (forall y | y in ys :: IdOf(y) in both <==> IdOf(y) in second)
  {
    DisjointItems(xs, ys);
    BatchChangesConcat(listings, xs, ys);
    ChangedIdsConcat(BatchChanges(listings, xs), BatchChanges(Upsert(listings, xs), ys));
    forall x | x in xs {
      ChangedMeansChanges(Upsert(listings, xs), ys, IdOf(x));
    }
    forall y | y in ys {
      ChangedMeansChanges(listings, xs, IdOf(y));
    }
  }

  lemma LatestRowsStay(heartbeat: Time, t: Tables, run: string, xs: seq<Observation>, id: Identity)
    requires forall x | x in xs :: IdOf(x) != id
    ensures LatestRow(CompactRecord(heartbeat, t, run, xs).observations, id) == LatestRow(t.observations, id)
  {
    var removable := RemovableIn(heartbeat, t, xs);
    RemovableAreItems(heartbeat, t, xs, ChangedIds(BatchChanges(t.listings, xs)));
    RowsAfterDelete(InsertRows(t.observations, run, xs), run, removable, id);
    InsertOthers(t.observations, run, xs, id);
  }

  lemma RemovableSplit(heartbeat: Time, t: Tables, run: string, xs: seq<Observation>, ys: seq<Observation>)
    requires Disjoint(xs, ys)
    ensures RemovableIn(heartbeat, t, xs + ys) ==
      RemovableIn(heartbeat, t, xs) + RemovableIn(heartbeat, CompactRecord(heartbeat, t, run, xs), ys)
  {
    var between := CompactRecord(heartbeat, t, run, xs);
    var both := ChangedIds(BatchChanges(t.listings, xs + ys));
    ChangedSplit(t.listings, xs, ys);
    DisjointItems(xs, ys);
    RemovableConcat(heartbeat, t, xs, ys, both);
    RemovableAlike(heartbeat, t, t, xs, both, ChangedIds(BatchChanges(t.listings, xs)));
    forall y | y in ys
      ensures LatestRow(between.observations, IdOf(y)) == LatestRow(t.observations, IdOf(y))
    {
      LatestRowsStay(heartbeat, t, run, xs, IdOf(y));
    }
    RemovableAlike(heartbeat, t, between, ys, both, ChangedIds(BatchChanges(between.listings, ys)));
  }

  // ---------------------------------------------------------------- batches

  /** Two batches without a common listing leave what one batch would. */
  lemma CompactRecordConcat(heartbeat: Time, t: Tables, run: string, xs: seq<Observation>, ys: seq<Observation>)
    requires Disjoint(xs, ys)
    ensures CompactRecord(heartbeat, CompactRecord(heartbeat, t, run, xs), run, ys) ==
      CompactRecord(heartbeat, t, run, xs + ys)
  {
    var first := RemovableIn(heartbeat, t, xs);
    var second := RemovableIn(heartbeat, CompactRecord(heartbeat, t, run, xs), ys);
    DisjointItems(xs, ys);
    RemovableAreItems(heartbeat, t, xs, ChangedIds(BatchChanges(t.listings, xs)));
    DeleteThenInsert(InsertRows(t.observations, run, xs), run, first, ys);
    InsertRowsConcat(t.observations, run, xs, ys);
    DeleteTwice(InsertRows(t.observations, run, xs + ys), run, first, second);
    RemovableSplit(heartbeat, t, run, xs, ys);
    UpsertConcat(t.listings, xs, ys);
  }

  function CompactBatches(heartbeat: Time, t: Tables, run: string, batches: seq<seq<Observation>>): Tables
  {
    if batches == [] then t else
      CompactRecord(heartbeat, CompactBatches(heartbeat, t, run, batches[..|batches| - 1]), run, batches[|batches| - 1])
  }

  /** How many rows the batches compact away. */
  function CompactedBy(heartbeat: Time, t: Tables, run: string, batches: seq<seq<Observation>>): nat
  {
    if batches == [] then 0 else
      var init := batches[..|batches| - 1];
      CompactedBy(heartbeat, t, run, init) +
        |RemovableIn(heartbeat, CompactBatches(heartbeat, t, run, init), batches[|batches| - 1])|
  }

  /** Batch size does not matter under compaction either: if no listing occurs in two batches, any batching leaves
      the same tables, stored rows included, and the same count of compacted rows as one batch. */
  lemma {:induction false} CompactBatchSizeDoesNotMatter(heartbeat: Time, t: Tables, run: string,
        batches: seq<seq<Observation>>)
    requires Separate(batches)
    ensures CompactBatches(heartbeat, t, run, batches) == CompactRecord(heartbeat, t, run, Flatten(batches))
    ensures CompactedBy(heartbeat, t, run, batches) == |RemovableIn(heartbeat, t, Flatten(batches))|
  {
    if batches == [] {
      DeleteNothing(t.observations, run);
    } else {
      var init, last := batches[..|batches| - 1], batches[|batches| - 1];
      CompactBatchSizeDoesNotMatter(heartbeat, t, run, init);
      CompactRecordConcat(heartbeat, t, run, Flatten(init), last);
      RemovableSplit(heartbeat, t, run, Flatten(init), last);
    }
  }
}
