/** The compacting history beside the plain one over whole runs, also when a run records a listing more than once:
    what the condition of `ContentKeptExactly`, met by every call, gives for the stored logs. */
module CompactRuns {
  import opened Base
  import opened History
  import opened HistoryRuns
  import opened Compaction
  import opened CompactContent

  // ---------------------------------------------------------------- subsequences

  /** xs is a subsequence of ys. */
  predicate Within<X(==)>(xs: seq<X>, ys: seq<X>)
    decreases |ys|
  {
    || xs == []
    || (ys != [] && xs[|xs| - 1] == ys[|ys| - 1] && Within(xs[..|xs| - 1], ys[..|ys| - 1]))
    || (ys != [] && Within(xs, ys[..|ys| - 1]))
  }

  lemma {:induction false} WithinLonger<X>(xs: seq<X>, ys: seq<X>, y: X)
    requires Within(xs, ys)
    ensures Within(xs, ys + [y])
  {
    assert (ys + [y])[..|ys|] == ys;
  }

  lemma {:induction false} WithinBoth<X>(xs: seq<X>, ys: seq<X>, x: X)
    requires Within(xs, ys)
    ensures Within(xs + [x], ys + [x])
  {
    assert (xs + [x])[..|xs|] == xs && (ys + [x])[..|ys|] == ys;
  }

  predicate EndsWith<X(==)>(xs: seq<X>, x: X)
  {
    xs != [] && xs[|xs| - 1] == x
  }

  /** An element that does not end xs plays no part at the end of ys. */
  lemma {:induction false} WithinReplaced<X>(xs: seq<X>, ys: seq<X>, x: X)
    requires Within(xs, ys) && EndsWith(ys, x) && !EndsWith(xs, x)
    ensures Within(xs + [x], ys)
  {
    var shorter := ys[..|ys| - 1];
    assert Within(xs, shorter);
    WithinBoth(xs, shorter, x);
    assert ys == shorter + [x];
  }

  function Ended<X(==)>(xs: seq<X>, x: X): seq<X>
  {
    if EndsWith(xs, x) then xs else xs + [x]
  }

  lemma {:induction false} WithinEnded<X>(xs: seq<X>, ys: seq<X>, x: X)
    requires Within(xs, ys)
    ensures Within(Ended(xs, x), Ended(ys, x))
  {
    if EndsWith(xs, x) {
      WithinLonger(xs, ys, x);
    } else if EndsWith(ys, x) {
      WithinReplaced(xs, ys, x);
    } else {
      WithinBoth(xs, ys, x);
    }
  }

  lemma {:induction false} DedupEnded<X>(xs: seq<X>, x: X)
    ensures Dedup(xs + [x]) == Ended(Dedup(xs), x)
  {
    DedupSnoc(xs, x);
  }

  /** One more element in both logs keeps one within the other, repeats left out. */
  lemma {:induction false} DedupWithin<X>(plain: seq<X>, stored: seq<X>, x: X)
    requires Within(Dedup(plain), Dedup(stored))
    ensures Within(Dedup(plain + [x]), Dedup(stored + [x]))
  {
    DedupEnded(plain, x);
    DedupEnded(stored, x);
    WithinEnded(Dedup(plain), Dedup(stored), x);
  }

  lemma {:induction false} DedupWithinLonger<X>(plain: seq<X>, stored: seq<X>, x: X)
    requires Within(Dedup(plain), Dedup(stored))
    ensures Within(Dedup(plain), Dedup(stored + [x]))
  {
    DedupEnded(stored, x);
    WithinLonger(Dedup(plain), Dedup(stored), x);
  }

  // ---------------------------------------------------------------- the two logs

  lemma {:induction false} RowsInserted(observations: seq<ObsRow>, run: string, items: seq<Observation>, r: string,
        id: Identity)
    ensures HasRow(InsertRows(observations, run, items), r, id) <==>
      HasRow(observations, r, id) || (r == run && Mentions(items, id))
  {
    if items != [] {
      var init, last := items[..|items| - 1], items[|items| - 1];
      assert items == init + [last];
      RowsInserted(observations, run, init, r, id);
      FirstOfSnoc(init, last, id);
      HasRowSnoc(InsertRows(observations, run, init), ObsRow(run, last), r, id);
    }
  }

  /** Every row the compact log holds has its like, by run and listing, in the plain one. */
  lemma {:induction false} StoredRunsAreRecorded(heartbeat: Time, ops: seq<Op>, run: string, id: Identity)
    ensures HasRow(RunCompact(heartbeat, ops).observations, run, id) ==>
      HasRow(RunFrom(EMPTY_TABLES, ops).observations, run, id)
  {
    if ops != [] {
      var before, op := ops[..|ops| - 1], ops[|ops| - 1];
      StoredRunsAreRecorded(heartbeat, before, run, id);
      if op.RecordOp? {
        var t := RunCompact(heartbeat, before);
        RowsInserted(t.observations, op.run, op.items, run, id);
        RowsInserted(RunFrom(EMPTY_TABLES, before).observations, op.run, op.items, run, id);
        if HasRow(RunCompact(heartbeat, ops).observations, run, id) {
          DeletedRowsWereThere(InsertRows(t.observations, op.run, op.items), op.run,
            RemovableIn(heartbeat, t, op.items), run, id);
        }
      }
    }
  }

  /** What the call does to the listing costs no content. */
  ghost predicate Sparing(heartbeat: Time, t: Tables, op: Op, id: Identity)
  {
    op.RecordOp? ==> id !in RemovableIn(heartbeat, t, op.items) || Dispensable(t, op.run, op.items, id)
  }

  ghost predicate AllSparing(heartbeat: Time, ops: seq<Op>, id: Identity)
  {
    ops == [] ||
    var before := ops[..|ops| - 1];
    AllSparing(heartbeat, before, id) && Sparing(heartbeat, RunCompact(heartbeat, before), ops[|ops| - 1], id)
  }

  function StoredPayloads(heartbeat: Time, ops: seq<Op>, id: Identity): seq<Observation>
  {
    PayloadsOf(RowsOf(RunCompact(heartbeat, ops).observations, id))
  }

  function PlainPayloads(ops: seq<Op>, id: Identity): seq<Observation>
  {
    PayloadsOf(RowsOf(RunFrom(EMPTY_TABLES, ops).observations, id))
  }

  /** What the plain method appends to a listing's payloads. */
  function Appended(t: Tables, run: string, items: seq<Observation>, id: Identity): seq<Observation>
  {
    if Mentions(items, id) && !HasRow(t.observations, run, id) then [Payload(FirstOf(items, id))] else []
  }

  lemma {:induction false} PayloadsAfterRecord(t: Tables, run: string, items: seq<Observation>, id: Identity)
    ensures PayloadsOf(RowsOf(Record(t, run, items).observations, id)) ==
      PayloadsOf(RowsOf(t.observations, id)) + Appended(t, run, items, id)
  {
    InsertKeepsFirst(t.observations, run, items, id);
    var rows := RowsOf(t.observations, id);
    if Mentions(items, id) && !HasRow(t.observations, run, id) {
      PayloadsConcat(rows, [FirstOf(items, id)]);
    } else {
      assert rows + [] == rows && PayloadsOf(rows) + [] == PayloadsOf(rows);
    }
  }

  lemma {:induction false} RunFromSnoc(ops: seq<Op>, op: Op)
    ensures RunFrom(EMPTY_TABLES, ops + [op]) == Apply(RunFrom(EMPTY_TABLES, ops), op)
  {
    assert (ops + [op])[..|ops|] == ops;
  }

  /** The plain log after one more batch. */
  lemma {:induction false} PlainGrows(before: seq<Op>, op: Op, id: Identity)
    requires op.RecordOp?
    ensures PlainPayloads(before + [op], id) ==
      PlainPayloads(before, id) + Appended(RunFrom(EMPTY_TABLES, before), op.run, op.items, id)
  {
    RunFromSnoc(before, op);
    PayloadsAfterRecord(RunFrom(EMPTY_TABLES, before), op.run, op.items, id);
  }

  /** The stored content after one more sparing batch. */
  lemma {:induction false} StoredGrows(heartbeat: Time, before: seq<Op>, op: Op, id: Identity)
    requires op.RecordOp? && Sparing(heartbeat, RunCompact(heartbeat, before), op, id)
    ensures Dedup(StoredPayloads(heartbeat, before + [op], id)) ==
      Dedup(StoredPayloads(heartbeat, before, id) + Appended(RunCompact(heartbeat, before), op.run, op.items, id))
  {
    var t := RunCompact(heartbeat, before);
    RunCompactSnoc(heartbeat, before, op);
    UniqueAlways(heartbeat, before);
    ContentKeptExactly(heartbeat, t, op.run, op.items, id);
    PayloadsAfterRecord(t, op.run, op.items, id);
  }

  lemma {:induction false} GrowTogether(heartbeat: Time, before: seq<Op>, op: Op, id: Identity)
    requires op.RecordOp? && Sparing(heartbeat, RunCompact(heartbeat, before), op, id)
    requires Within(Dedup(PlainPayloads(before, id)), Dedup(StoredPayloads(heartbeat, before, id)))
    ensures Within(Dedup(PlainPayloads(before + [op], id)), Dedup(StoredPayloads(heartbeat, before + [op], id)))
  {
    var plain, stored := PlainPayloads(before, id), StoredPayloads(heartbeat, before, id);
    var more, kept := Appended(RunFrom(EMPTY_TABLES, before), op.run, op.items, id),
      Appended(RunCompact(heartbeat, before), op.run, op.items, id);
    PlainGrows(before, op, id);
    StoredGrows(heartbeat, before, op, id);
    StoredRunsAreRecorded(heartbeat, before, op.run, id);
    if kept == [] {
      assert plain + [] == plain && stored + [] == stored;
    } else if more == [] {
      assert plain + [] == plain;
      DedupWithinLonger(plain, stored, kept[0]);
    } else {
      DedupWithin(plain, stored, kept[0]);
    }
  }

  lemma {:induction false} OtherCallsAddNothing(heartbeat: Time, before: seq<Op>, op: Op, id: Identity)
    requires !op.RecordOp?
    ensures PlainPayloads(before + [op], id) == PlainPayloads(before, id)
    ensures StoredPayloads(heartbeat, before + [op], id) == StoredPayloads(heartbeat, before, id)
  {
    RunFromSnoc(before, op);
    RunCompactSnoc(heartbeat, before, op);
  }

  /** No content is lost over a whole run, however often it records a listing: if every call is sparing of the listing,
      the plain payloads without repeats are a subsequence of the stored ones without repeats. */
  lemma {:induction false} SparingRunsKeepContent(heartbeat: Time, ops: seq<Op>, id: Identity)
    requires AllSparing(heartbeat, ops, id)
    ensures Within(Dedup(PlainPayloads(ops, id)), Dedup(StoredPayloads(heartbeat, ops, id)))
  {
    if ops == [] {
      assert PlainPayloads([], id) == [];
    } else {
      var before, op := ops[..|ops| - 1], ops[|ops| - 1];
      SparingRunsKeepContent(heartbeat, before, id);
      assert ops == before + [op];
      if op.RecordOp? {
        GrowTogether(heartbeat, before, op, id);
      } else {
        OtherCallsAddNothing(heartbeat, before, op, id);
      }
    }
  }

  // ---------------------------------------------------------------- the two logs in step

  /** Stored and plain payloads of the listing are the same up to consecutive repeats. */
  predicate Agree(heartbeat: Time, ops: seq<Op>, id: Identity)
  {
    Dedup(PlainPayloads(ops, id)) == Dedup(StoredPayloads(heartbeat, ops, id))
  }

  /** Seen from the tables before the call.  If only the plain log holds the run's row, the compacting history must not
      store anything new; otherwise the call must be sparing. */
  ghost predicate InStep(heartbeat: Time, t: Tables, plain: Tables, op: Op, id: Identity)
  {
    if && op.RecordOp? && Mentions(op.items, id)
       && HasRow(plain.observations, op.run, id) && !HasRow(t.observations, op.run, id)
    then
      var latest := LatestRow(t.observations, id);
      id in RemovableIn(heartbeat, t, op.items) ||
      (latest.Some? && Payload(latest.value) == Payload(FirstOf(op.items, id)))
    else Sparing(heartbeat, t, op, id)
  }

  ghost predicate AllInStep(heartbeat: Time, ops: seq<Op>, id: Identity)
  {
    ops == [] ||
    var before := ops[..|ops| - 1];
    && AllInStep(heartbeat, before, id)
    && InStep(heartbeat, RunCompact(heartbeat, before), RunFrom(EMPTY_TABLES, before), ops[|ops| - 1], id)
  }

  /** Only the plain log holds the run's row: the plain payloads stay. */
  lemma {:induction false} SlotFreedExactly(heartbeat: Time, before: seq<Op>, op: Op, id: Identity)
    requires op.RecordOp? && Mentions(op.items, id) && Agree(heartbeat, before, id)
    requires HasRow(RunFrom(EMPTY_TABLES, before).observations, op.run, id)
    requires !HasRow(RunCompact(heartbeat, before).observations, op.run, id)
    ensures Agree(heartbeat, before + [op], id) <==>
      InStep(heartbeat, RunCompact(heartbeat, before), RunFrom(EMPTY_TABLES, before), op, id)
  {
    var t := RunCompact(heartbeat, before);
    var rows, plain := RowsOf(t.observations, id), PlainPayloads(before, id);
    PlainGrows(before, op, id);
    assert plain + [] == plain;
    RunCompactSnoc(heartbeat, before, op);
    RowsAfterBatch(heartbeat, t, op.run, op.items, id);
    OutsideIsAll(t.observations, op.run, id);
    FirstCopyGoes(rows, FirstOf(op.items, id));
  }

  /** Both logs hold the run's row, or neither does: both would append the same. */
  lemma {:induction false} SameSlotExactly(heartbeat: Time, before: seq<Op>, op: Op, id: Identity)
    requires op.RecordOp? && Agree(heartbeat, before, id)
    requires HasRow(RunFrom(EMPTY_TABLES, before).observations, op.run, id) <==>
      HasRow(RunCompact(heartbeat, before).observations, op.run, id)
    ensures Agree(heartbeat, before + [op], id) <==> Sparing(heartbeat, RunCompact(heartbeat, before), op, id)
  {
    var t := RunCompact(heartbeat, before);
    var more := Appended(t, op.run, op.items, id);
    PlainGrows(before, op, id);
    DedupContinues(PlainPayloads(before, id), StoredPayloads(heartbeat, before, id), more);
    RunCompactSnoc(heartbeat, before, op);
    UniqueAlways(heartbeat, before);
    ContentKeptExactly(heartbeat, t, op.run, op.items, id);
    PayloadsAfterRecord(t, op.run, op.items, id);
  }

  /** One more call, from logs that agree: they agree again if and only if the call is in step. */
  lemma {:induction false} StepAgreesExactly(heartbeat: Time, before: seq<Op>, op: Op, id: Identity)
    requires Agree(heartbeat, before, id)
    ensures Agree(heartbeat, before + [op], id) <==>
      InStep(heartbeat, RunCompact(heartbeat, before), RunFrom(EMPTY_TABLES, before), op, id)
  {
    if !op.RecordOp? {
      OtherCallsAddNothing(heartbeat, before, op, id);
    } else {
      StoredRunsAreRecorded(heartbeat, before, op.run, id);
      var t, plain := RunCompact(heartbeat, before), RunFrom(EMPTY_TABLES, before);
      if HasRow(plain.observations, op.run, id) <==> HasRow(t.observations, op.run, id) {
        SameSlotExactly(heartbeat, before, op, id);
      } else if Mentions(op.items, id) {
        SlotFreedExactly(heartbeat, before, op, id);
      } else {
        NotMentionedAgrees(heartbeat, before, op, id);
      }
    }
  }

  lemma {:induction false} NotMentionedAgrees(heartbeat: Time, before: seq<Op>, op: Op, id: Identity)
    requires op.RecordOp? && !Mentions(op.items, id) && Agree(heartbeat, before, id)
    ensures Sparing(heartbeat, RunCompact(heartbeat, before), op, id) && Agree(heartbeat, before + [op], id)
  {
    var t, stored, plain := RunCompact(heartbeat, before), StoredPayloads(heartbeat, before, id),
      PlainPayloads(before, id);
    RemovableMeans(heartbeat, t, op.items, id);
    PlainGrows(before, op, id);
    StoredGrows(heartbeat, before, op, id);
    assert plain + [] == plain && stored + [] == stored;
  }

  /** After every call. */
  predicate AgreeThroughout(heartbeat: Time, ops: seq<Op>, id: Identity)
  {
    Agree(heartbeat, ops, id) && (ops == [] || AgreeThroughout(heartbeat, ops[..|ops| - 1], id))
  }

  /** Over whole runs, however often they record a listing: the two logs of the listing say the same throughout, after
      every call, if and only if every call is in step. */
  lemma {:induction false} AgreeThroughoutExactly(heartbeat: Time, ops: seq<Op>, id: Identity)
    ensures AgreeThroughout(heartbeat, ops, id) <==> AllInStep(heartbeat, ops, id)
  {
    if ops == [] {
      assert PlainPayloads([], id) == [] && StoredPayloads(heartbeat, [], id) == [];
    } else {
      var before, op := ops[..|ops| - 1], ops[|ops| - 1];
      assert ops == before + [op];
      AgreeThroughoutExactly(heartbeat, before, id);
      if Agree(heartbeat, before, id) {
        StepAgreesExactly(heartbeat, before, op, id);
      }
    }
  }

  // ---------------------------------------------------------------- the stored log can hold more

  /** Recorded in a first run, repeated in a second, and seen at another price in the second again. */
  function RepeatThenChange(first: string, second: string, item: Observation, price: Option<real>): seq<Op>
  {
    [RecordOp(first, [item])] + [RecordOp(second, [item])] + [RecordOp(second, [item.(price := price)])]
  }

  /** A dropped repeat frees the run's slot under the UNIQUE constraint: a later sighting of the run, which the plain
      history ignores, is stored.  Every call is sparing here, and the logs differ, repeats left out or not. */
  lemma {:induction false} StoredLogCanHoldMore(heartbeat: Time, first: string, second: string, item: Observation,
        price: Option<real>)
    requires heartbeat > 0.0 && item.observedAt.At? && first != second && price != item.price
    ensures var ops, id := RepeatThenChange(first, second, item, price), IdOf(item);
      && RowsOf(RunCompact(heartbeat, ops).observations, id) == [item] + [item.(price := price)]
      && RowsOf(RunFrom(EMPTY_TABLES, ops).observations, id) == [item] + [item]
      && AllSparing(heartbeat, ops, id)
      && Dedup(PlainPayloads(ops, id)) != Dedup(StoredPayloads(heartbeat, ops, id))
  {
    var other := item.(price := price);
    CompactSide(heartbeat, first, second, item, other);
    PlainSide(first, second, item, other);
    SparingSide(heartbeat, first, second, item, other);
    DifferentContent(item, other);
  }

  lemma {:induction false} DifferentContent(item: Observation, other: Observation)
    requires other.price != item.price
    ensures Dedup(PayloadsOf([item] + [item])) != Dedup(PayloadsOf([item] + [other]))
  {
    PayloadsConcat([item], [other]);
    PayloadsConcat([item], [item]);
    DedupLengthSnoc([Payload(item)], Payload(other));
    DedupLengthSnoc([Payload(item)], Payload(item));
  }

  /** One item recorded: the batch mentions it, and it is the first copy. */
  lemma OneItem(item: Observation)
    ensures Mentions([item], IdOf(item)) && FirstOf([item], IdOf(item)) == item && item in [item]
  {
    assert [item][0] == item;
  }

  /** The tables after the first call. */
  ghost predicate HoldsOne(t: Tables, run: string, item: Observation)
  {
    && t.observations == [ObsRow(run, item)] && t.listings == map[IdOf(item) := Seen(item)]
    && RowsOf(t.observations, IdOf(item)) == [item]
  }

  lemma {:induction false} OneRowHeld(heartbeat: Time, first: string, second: string, item: Observation)
    requires first != second
    ensures var t := RunCompact(heartbeat, [RecordOp(first, [item])]);
      HoldsOne(t, first, item) && !HasRow(t.observations, second, IdOf(item))
  {
    AfterFirst(heartbeat, first, item);
    assert [ObsRow(first, item)][0].run == first;
  }

  /** A repeat in another run is removable. */
  lemma {:induction false} RepeatRemoved(heartbeat: Time, t: Tables, first: string, second: string, item: Observation)
    requires heartbeat > 0.0 && item.observedAt.At?
    requires HoldsOne(t, first, item) && !HasRow(t.observations, second, IdOf(item))
    ensures IdOf(item) in RemovableIn(heartbeat, t, [item]) && Dispensable(t, second, [item], IdOf(item))
  {
    OneItem(item);
    RepeatIsRemovable(heartbeat, t, [item], item);
  }

  /** ... and leaves no row. */
  lemma {:induction false} RepeatLeavesNoRow(heartbeat: Time, t: Tables, first: string, second: string,
        item: Observation)
    requires HoldsOne(t, first, item) && !HasRow(t.observations, second, IdOf(item))
    requires IdOf(item) in RemovableIn(heartbeat, t, [item])
    ensures var u := CompactRecord(heartbeat, t, second, [item]);
      RowsOf(u.observations, IdOf(item)) == [item] && !HasRow(u.observations, second, IdOf(item))
  {
    var id := IdOf(item);
    RowsAfterBatch(heartbeat, t, second, [item], id);
    OutsideIsAll(t.observations, second, id);
    RemovedFromRun(InsertRows(t.observations, second, [item]), second, RemovableIn(heartbeat, t, [item]), id);
  }

  lemma {:induction false} OneListing(heartbeat: Time, t: Tables, run: string, item: Observation)
    requires t.listings.Keys == {IdOf(item)}
    ensures CompactRecord(heartbeat, t, run, [item]).listings == map[IdOf(item) := Seen(item)]
  {
    assert [item][..|[item]| - 1] == [] && Upsert(t.listings, []) == t.listings;
    assert Upsert(t.listings, [item]) == t.listings[IdOf(item) := Seen(item)];
  }

  /** The tables after the first two calls: the repeat left no row. */
  lemma {:induction false} AfterRepeat(heartbeat: Time, first: string, second: string, item: Observation)
    requires heartbeat > 0.0 && item.observedAt.At? && first != second
    ensures var t := RunCompact(heartbeat, [RecordOp(first, [item])]);
      && IdOf(item) in RemovableIn(heartbeat, t, [item]) && !HasRow(t.observations, second, IdOf(item))
      && Dispensable(t, second, [item], IdOf(item))
    ensures var u := RunCompact(heartbeat, [RecordOp(first, [item])] + [RecordOp(second, [item])]);
      && RowsOf(u.observations, IdOf(item)) == [item] && !HasRow(u.observations, second, IdOf(item))
      && u.listings == map[IdOf(item) := Seen(item)]
  {
    var a, b := RecordOp(first, [item]), RecordOp(second, [item]);
    var t := RunCompact(heartbeat, [a]);
    OneRowHeld(heartbeat, first, second, item);
    RepeatRemoved(heartbeat, t, first, second, item);
    RepeatLeavesNoRow(heartbeat, t, first, second, item);
    OneListing(heartbeat, t, second, item);
    RunCompactSnoc(heartbeat, [a], b);
  }

  lemma {:induction false} RemovedFromRun(observations: seq<ObsRow>, run: string, ids: seq<Identity>, id: Identity)
    requires id in ids
    ensures !HasRow(DeleteRows(observations, run, ids), run, id)
  {
    if observations != [] {
      var init, last := observations[..|observations| - 1], observations[|observations| - 1];
      var left := DeleteRows(init, run, ids);
      RemovedFromRun(init, run, ids, id);
      HasRowSnoc(left, last, run, id);
      assert left + [] == left;
    }
  }

  lemma ChangedPriceReports(listings: map<Identity, Listing>, item: Observation, other: Observation)
    requires listings == map[IdOf(item) := Seen(item)] && IdOf(other) == IdOf(item) && other.price != item.price
    ensures ItemChanges(listings, other) != []
  {
    NoFieldChanges(Seen(item), other);
  }

  lemma {:induction false} CompactSide(heartbeat: Time, first: string, second: string, item: Observation,
        other: Observation)
    requires heartbeat > 0.0 && item.observedAt.At? && first != second && IdOf(other) == IdOf(item) &&
      other.price != item.price
    ensures var ops := [RecordOp(first, [item])] + [RecordOp(second, [item])] + [RecordOp(second, [other])];
      RowsOf(RunCompact(heartbeat, ops).observations, IdOf(item)) == [item] + [other]
  {
    var two := [RecordOp(first, [item])] + [RecordOp(second, [item])];
    var u := RunCompact(heartbeat, two);
    OneItem(other);
    AfterRepeat(heartbeat, first, second, item);
    RunCompactSnoc(heartbeat, two, RecordOp(second, [other]));
    ChangedPriceReports(u.listings, item, other);
    RemovableMeans(heartbeat, u, [other], IdOf(item));
    RowsAfterBatch(heartbeat, u, second, [other], IdOf(item));
  }

  lemma {:induction false} SparingSide(heartbeat: Time, first: string, second: string, item: Observation,
        other: Observation)
    requires heartbeat > 0.0 && item.observedAt.At? && first != second && IdOf(other) == IdOf(item) &&
      other.price != item.price
    ensures AllSparing(heartbeat, [RecordOp(first, [item])] + [RecordOp(second, [item])] + [RecordOp(second, [other])],
      IdOf(item))
  {
    var one, two := [RecordOp(first, [item])], [RecordOp(first, [item])] + [RecordOp(second, [item])];
    var three := two + [RecordOp(second, [other])];
    var id := IdOf(item);
    OneItem(other);
    AfterRepeat(heartbeat, first, second, item);
    ChangedPriceReports(RunCompact(heartbeat, two).listings, item, other);
    RemovableMeans(heartbeat, RunCompact(heartbeat, two), [other], id);
    RemovableMeans(heartbeat, EMPTY_TABLES, [item], id);
    assert one[..|one| - 1] == [] && two[..|two| - 1] == one && three[..|three| - 1] == two;
    assert AllSparing(heartbeat, one, id);
  }

  /** One item recorded by the plain method. */
  lemma {:induction false} PlainOne(t: Tables, run: string, item: Observation)
    ensures var rows := RowsOf(t.observations, IdOf(item));
      RowsOf(Record(t, run, [item]).observations, IdOf(item)) == if HasRow(t.observations, run, IdOf(item)) then rows
        else rows + [item]
    ensures forall r :: HasRow(Record(t, run, [item]).observations, r, IdOf(item)) <==>
      HasRow(t.observations, r, IdOf(item)) || r == run
  {
    OneItem(item);
    InsertKeepsFirst(t.observations, run, [item], IdOf(item));
    assert RowsOf(t.observations, IdOf(item)) + [] == RowsOf(t.observations, IdOf(item));
    forall r
      ensures HasRow(Record(t, run, [item]).observations, r, IdOf(item)) <==>
        HasRow(t.observations, r, IdOf(item)) || r == run
    {
      RowsInserted(t.observations, run, [item], r, IdOf(item));
    }
  }

  lemma {:induction false} PlainSide(first: string, second: string, item: Observation, other: Observation)
    requires first != second && IdOf(other) == IdOf(item)
    ensures var ops := [RecordOp(first, [item])] + [RecordOp(second, [item])] + [RecordOp(second, [other])];
      RowsOf(RunFrom(EMPTY_TABLES, ops).observations, IdOf(item)) == [item] + [item]
  {
    var one, two := [RecordOp(first, [item])], [RecordOp(first, [item])] + [RecordOp(second, [item])];
    var t := Record(EMPTY_TABLES, first, [item]);
    var u := Record(t, second, [item]);
    assert [] + one == one && RunFrom(EMPTY_TABLES, []) == EMPTY_TABLES && [] + [item] == [item];
    RunFromSnoc([], RecordOp(first, [item]));
    RunFromSnoc(one, RecordOp(second, [item]));
    RunFromSnoc(two, RecordOp(second, [other]));
    PlainOne(EMPTY_TABLES, first, item);
    PlainOne(t, second, item);
    PlainOne(u, second, other);
  }

  // ---------------------------------------------------------------- and meet the plain one again

  /** The tables when the stored log holds more. */
  lemma {:induction false} WhenMoreIsHeld(heartbeat: Time, first: string, second: string, item: Observation,
        price: Option<real>)
    requires heartbeat > 0.0 && item.observedAt.At? && first != second && price != item.price
    ensures var t, other := RunCompact(heartbeat, RepeatThenChange(first, second, item, price)), item.(price := price);
      && t.listings == map[IdOf(item) := Seen(other)] && RowsOf(t.observations, IdOf(item)) == [item] + [other]
  {
    var two, other := [RecordOp(first, [item])] + [RecordOp(second, [item])], item.(price := price);
    AfterRepeat(heartbeat, first, second, item);
    RunCompactSnoc(heartbeat, two, RecordOp(second, [other]));
    OneListing(heartbeat, RunCompact(heartbeat, two), second, other);
    CompactSide(heartbeat, first, second, item, other);
  }

  /** The runs of these operations. */
  lemma {:induction false} OnlyTheseRuns(heartbeat: Time, first: string, second: string, third: string,
        item: Observation,
        price: Option<real>)
    requires third != first && third != second
    ensures var ops := RepeatThenChange(first, second, item, price);
      && !HasRow(RunFrom(EMPTY_TABLES, ops).observations, third, IdOf(item))
      && !HasRow(RunCompact(heartbeat, ops).observations, third, IdOf(item))
  {
    var id, other := IdOf(item), item.(price := price);
    var one, two := [RecordOp(first, [item])], [RecordOp(first, [item])] + [RecordOp(second, [item])];
    assert [] + one == one;
    RunFromSnoc([], RecordOp(first, [item]));
    RunFromSnoc(one, RecordOp(second, [item]));
    RunFromSnoc(two, RecordOp(second, [other]));
    PlainOne(EMPTY_TABLES, first, item);
    PlainOne(RunFrom(EMPTY_TABLES, one), second, item);
    PlainOne(RunFrom(EMPTY_TABLES, two), second, other);
    StoredRunsAreRecorded(heartbeat, RepeatThenChange(first, second, item, price), third, id);
  }

  /** A third run repeats the new price: dropped by the compacting history, */
  lemma {:induction false} StoredStays(heartbeat: Time, t: Tables, run: string, item: Observation, other: Observation)
    requires heartbeat > 0.0 && other.observedAt.At? && IdOf(other) == IdOf(item)
    requires t.listings == map[IdOf(other) := Seen(other)] && RowsOf(t.observations, IdOf(other)) == [item] + [other]
    requires !HasRow(t.observations, run, IdOf(other))
    ensures RowsOf(CompactRecord(heartbeat, t, run, [other]).observations, IdOf(other)) == [item] + [other]
  {
    OneItem(other);
    RepeatIsRemovable(heartbeat, t, [other], other);
    RowsAfterBatch(heartbeat, t, run, [other], IdOf(other));
    OutsideIsAll(t.observations, run, IdOf(other));
  }

  /** ... and what both logs say then is the same. */
  lemma {:induction false} SameWithoutRepeats(item: Observation, other: Observation)
    ensures Dedup(PayloadsOf([item] + [item] + [other])) == Dedup(PayloadsOf([item] + [other]))
  {
    var x, y := Payload(item), Payload(other);
    assert PayloadsOf([item] + [item] + [other]) == [x] + [x] + [y] && PayloadsOf([item] + [other]) == [x] + [y];
    TakingOutRepeat([x], x, [y]);
  }

  /** Logs that disagree can agree again, which is why `AgreeThroughoutExactly` speaks about every call: after the run
      of `StoredLogCanHoldMore` a third run records the new price, which the plain method stores and compaction
      drops. */
  lemma {:induction false} LogsCanMeetAgain(heartbeat: Time, first: string, second: string, third: string,
        item: Observation, price: Option<real>)
    requires heartbeat > 0.0 && item.observedAt.At? && first != second && price != item.price
    requires third != first && third != second
    ensures var ops := RepeatThenChange(first, second, item, price);
      && !Agree(heartbeat, ops, IdOf(item))
      && Agree(heartbeat, ops + [RecordOp(third, [item.(price := price)])], IdOf(item))
  {
    var ops, other := RepeatThenChange(first, second, item, price), item.(price := price);
    StoredLogCanHoldMore(heartbeat, first, second, item, price);
    WhenMoreIsHeld(heartbeat, first, second, item, price);
    OnlyTheseRuns(heartbeat, first, second, third, item, price);
    RunCompactSnoc(heartbeat, ops, RecordOp(third, [other]));
    RunFromSnoc(ops, RecordOp(third, [other]));
    StoredStays(heartbeat, RunCompact(heartbeat, ops), third, item, other);
    PlainOne(RunFrom(EMPTY_TABLES, ops), third, other);
    SameWithoutRepeats(item, other);
  }
}
