/** What `active_records` joins (src/lowpower_llm_cluster/active_records.py:18-26): a listing's state row and its
    newest stored row.  When the two fit together, in every run, with and without compaction. */
module LatestRows {
  import opened Base
  import opened History
  import opened HistoryRuns
  import opened Compaction
  import opened CompactContent
  import opened CompactRuns

  /** The five columns both rows carry agree. */
  predicate Shows(row: Observation, listing: Listing)
  {
    && row.url == listing.url && row.title == listing.title && row.price == listing.price
    && row.currency == listing.currency && row.inStock == listing.inStock
  }

  predicate Fresh(t: Tables, id: Identity)
    requires id in t.listings
  {
    var latest := LatestRow(t.observations, id);
    latest.Some? && Shows(latest.value, t.listings[id])
  }

  /** Before the call: the row that will be the listing's newest, in the plain history. */
  ghost function NewestAfter(t: Tables, op: Op, id: Identity): Option<Observation>
    requires Records(op, id)
  {
    if HasRow(t.observations, op.run, id) then LatestRow(t.observations, id) else Some(FirstOf(op.items, id))
  }

  /** ... and in the compacting one, which takes the run's rows of a removable listing. */
  ghost function NewestKeptAfter(heartbeat: Time, t: Tables, op: Op, id: Identity): Option<Observation>
    requires Records(op, id)
  {
    if id in RemovableIn(heartbeat, t, op.items) then Newest(RowsOutside(t.observations, op.run, id))
      else NewestAfter(t, op, id)
  }

  ghost predicate ShowsLastCopy(row: Option<Observation>, op: Op, id: Identity)
    requires Records(op, id)
  {
    row.Some? && Shows(row.value, Seen(LastOf(op.items, id)))
  }

  /** The last call of the run that records the listing. */
  ghost predicate LastRecording(ops: seq<Op>, j: nat, id: Identity)
  {
    j < |ops| && Records(ops[j], id) && forall i | j < i < |ops| :: !Records(ops[i], id)
  }

  // ---------------------------------------------------------------- one call

  lemma {:induction false} NewestAfterRecording(heartbeat: Time, t: Tables, op: Op, id: Identity)
    requires Records(op, id)
    ensures LatestRow(Apply(t, op).observations, id) == NewestAfter(t, op, id)
    ensures LatestRow(ApplyCompact(heartbeat, t, op).observations, id) == NewestKeptAfter(heartbeat, t, op, id)
  {
    var rows := RowsOf(t.observations, id);
    RowsAfterBatch(heartbeat, t, op.run, op.items, id);
    assert rows + [] == rows;
  }

  lemma {:induction false} FreshAfterRecording(heartbeat: Time, t: Tables, op: Op, id: Identity)
    requires Records(op, id)
    ensures id in Apply(t, op).listings && id in ApplyCompact(heartbeat, t, op).listings
    ensures Fresh(Apply(t, op), id) <==> ShowsLastCopy(NewestAfter(t, op, id), op, id)
    ensures Fresh(ApplyCompact(heartbeat, t, op), id) <==> ShowsLastCopy(NewestKeptAfter(heartbeat, t, op, id), op, id)
  {
    UpsertEffect(t.listings, op.items, id);
    NewestAfterRecording(heartbeat, t, op, id);
  }

  lemma {:induction false} FreshAfterOther(heartbeat: Time, t: Tables, op: Op, id: Identity)
    requires !Records(op, id)
    ensures id in Apply(t, op).listings <==> id in t.listings
    ensures id in ApplyCompact(heartbeat, t, op).listings <==> id in t.listings
    ensures id in t.listings ==> (Fresh(Apply(t, op), id) <==> Fresh(t, id))
    ensures id in t.listings ==> (Fresh(ApplyCompact(heartbeat, t, op), id) <==> Fresh(t, id))
  {
    if op.RecordOp? {
      UpsertEffect(t.listings, op.items, id);
      RowsAfterBatch(heartbeat, t, op.run, op.items, id);
      RemovableMeans(heartbeat, t, op.items, id);
      assert RowsOf(t.observations, id) + [] == RowsOf(t.observations, id);
    }
  }

  // ---------------------------------------------------------------- whole runs

  /** The plain history, any run: a listing's newest row shows what its state row shows if and only if, at the call
      that recorded it last, the run's older row, or else the batch's first copy, agreed with the batch's last. */
  lemma {:induction false} PlainRowIsFreshExactly(ops: seq<Op>, j: nat, id: Identity)
    requires LastRecording(ops, j, id)
    ensures id in RunFrom(EMPTY_TABLES, ops).listings
    ensures Fresh(RunFrom(EMPTY_TABLES, ops), id) <==>
      ShowsLastCopy(NewestAfter(RunFrom(EMPTY_TABLES, ops[..j]), ops[j], id), ops[j], id)
  {
    var before, op := ops[..|ops| - 1], ops[|ops| - 1];
    var t := RunFrom(EMPTY_TABLES, before);
    if j == |before| {
      FreshAfterRecording(0.0, t, op, id);
    } else {
      assert before[..j] == ops[..j];
      PlainRowIsFreshExactly(before, j, id);
      FreshAfterOther(0.0, t, op, id);
    }
  }

  /** The compacting history, any run: the same, except that a removable listing loses the run's rows, and what is
      then newest has to agree. */
  lemma {:induction false} StoredRowIsFreshExactly(heartbeat: Time, ops: seq<Op>, j: nat, id: Identity)
    requires LastRecording(ops, j, id)
    ensures id in RunCompact(heartbeat, ops).listings
    ensures Fresh(RunCompact(heartbeat, ops), id) <==>
      ShowsLastCopy(NewestKeptAfter(heartbeat, RunCompact(heartbeat, ops[..j]), ops[j], id), ops[j], id)
  {
    var before, op := ops[..|ops| - 1], ops[|ops| - 1];
    var t := RunCompact(heartbeat, before);
    if j == |before| {
      FreshAfterRecording(heartbeat, t, op, id);
    } else {
      assert before[..j] == ops[..j];
      StoredRowIsFreshExactly(heartbeat, before, j, id);
      FreshAfterOther(heartbeat, t, op, id);
    }
  }

  /** Every listing was recorded last by some call, so the two lemmas above speak about all of them. */
  lemma {:induction false} EveryListingWasRecorded(ops: seq<Op>, id: Identity)
    ensures id in RunFrom(EMPTY_TABLES, ops).listings <==> exists j: nat :: LastRecording(ops, j, id)
  {
    if ops != [] {
      var before, op := ops[..|ops| - 1], ops[|ops| - 1];
      assert ops == before + [op];
      if Records(op, id) {
        FreshAfterRecording(0.0, RunFrom(EMPTY_TABLES, before), op, id);
        RunFromSnoc(before, op);
        assert LastRecording(ops, |before|, id);
      } else {
        EveryListingWasRecorded(before, id);
        FreshAfterOther(0.0, RunFrom(EMPTY_TABLES, before), op, id);
        RunFromSnoc(before, op);
        LastRecordingSnoc(before, op, id);
      }
    }
  }

  lemma LastRecordingSnoc(before: seq<Op>, op: Op, id: Identity)
    requires !Records(op, id)
    ensures (exists j: nat :: LastRecording(before + [op], j, id)) <==> exists j: nat :: LastRecording(before, j, id)
  {
    var ops := before + [op];
    assert ops[|before|] == op && forall i | 0 <= i < |before| :: ops[i] == before[i];
    if j: nat :| LastRecording(before, j, id) {
      assert LastRecording(ops, j, id);
    }
    if j: nat :| LastRecording(ops, j, id) {
      assert LastRecording(before, j, id);
    }
  }

  // ---------------------------------------------------------------- a stale row

  /** A second sighting in one run that differs from the first updates the state row and adds no row: the newest row
      is stale, in the plain history and in the compacting one. */
  lemma {:induction false} SecondSightingLeavesStaleRow(heartbeat: Time, run: string, item: Observation,
        price: Option<real>)
    requires price != item.price
    ensures var ops, id := [RecordOp(run, [item])] + [RecordOp(run, [item.(price := price)])], IdOf(item);
      && id in RunFrom(EMPTY_TABLES, ops).listings && !Fresh(RunFrom(EMPTY_TABLES, ops), id)
      && id in RunCompact(heartbeat, ops).listings && !Fresh(RunCompact(heartbeat, ops), id)
  {
    var other, id := item.(price := price), IdOf(item);
    var a, b := RecordOp(run, [item]), RecordOp(run, [other]);
    var ops, t := [a] + [b], RunCompact(heartbeat, [a]);
    OneItem(other);
    AfterFirst(heartbeat, run, item);
    assert ops[..1] == [a] && LastRecording(ops, 1, id);
    assert LastOf([other], id) == other;
    PlainFirst(run, item);
    PlainRowIsFreshExactly(ops, 1, id);
    ChangedPriceReports(t.listings, item, other);
    RemovableMeans(heartbeat, t, [other], id);
    StoredRowIsFreshExactly(heartbeat, ops, 1, id);
    assert [ObsRow(run, item)][0].run == run;
  }

  lemma {:induction false} PlainFirst(run: string, item: Observation)
    ensures RunFrom(EMPTY_TABLES, [RecordOp(run, [item])]).observations == [ObsRow(run, item)]
  {
    var op := RecordOp(run, [item]);
    assert [] + [op] == [op] && [item][..|[item]| - 1] == [];
    RunFromSnoc([], op);
    assert InsertRows([], run, []) == [] && InsertRows([], run, [item]) == [] + [ObsRow(run, item)];
  }
}
