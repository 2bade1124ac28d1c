/** Whole runs of the refresh history: any sequence of begins, batches, finishes and aborts. */
module HistoryRuns {
  import opened History

  datatype Op =
    | BeginOp(run: string)
    | RecordOp(run: string, items: seq<Observation>)
    | FinishOp(run: string, names: seq<string>, seen: SeenIds, after: int, scan: seq<Identity>)
    | AbortOp(run: string)

  function Apply(t: Tables, op: Op): Tables
  {
    match op
    case BeginOp(run) => Begin(t, run)
    case RecordOp(run, items) => Record(t, run, items)
    case FinishOp(run, names, seen, after, _) => Finish(t, run, names, seen, after)
    case AbortOp(run) => Abort(t, run)
  }

  /** The changes a call reports. */
  function Emitted(t: Tables, op: Op): seq<Change>
  {
    match op
    case RecordOp(_, items) => BatchChanges(t.listings, items)
    case FinishOp(_, names, seen, after, scan) => if after < 1 then [] else ScanChanges(t.listings, seen, after, scan)
    case _ => []
  }

  function RunFrom(t: Tables, ops: seq<Op>): Tables
  {
    if ops == [] then t else Apply(RunFrom(t, ops[..|ops| - 1]), ops[|ops| - 1])
  }

  function Changes(t: Tables, ops: seq<Op>): seq<Change>
  {
    if ops == [] then [] else
      Changes(t, ops[..|ops| - 1]) + Emitted(RunFrom(t, ops[..|ops| - 1]), ops[|ops| - 1])
  }

  ghost predicate ScanFits(t: Tables, op: Op)
  {
    op.FinishOp? ==> IsScan(t.listings, op.names, op.scan)
  }

  /** Every finish scanned the rows it should; SQLite chose only the order. */
  ghost predicate ScansFit(t: Tables, ops: seq<Op>)
  {
    ops == [] ||
    var before, op := ops[..|ops| - 1], ops[|ops| - 1];
    ScansFit(t, before) && ScanFits(RunFrom(t, before), op)
  }

  predicate Mentions(items: seq<Observation>, id: Identity)
  {
    exists k :: 0 <= k < |items| && IdOf(items[k]) == id
  }

  // ---------------------------------------------------------------- the status of a run

  predicate Finishes(op: Op, run: string)
  {
    op.FinishOp? && op.run == run && op.after >= 1
  }

  predicate Aborts(op: Op, run: string)
  {
    op.AbortOp? && op.run == run
  }

  predicate SomeFinish(ops: seq<Op>, run: string)
  {
    exists op :: op in ops && Finishes(op, run)
  }

  predicate SomeAbort(ops: seq<Op>, run: string)
  {
    exists op :: op in ops && Aborts(op, run)
  }

  lemma SomeSnoc(before: seq<Op>, last: Op, run: string)
    ensures SomeFinish(before + [last], run) <==> SomeFinish(before, run) || Finishes(last, run)
    ensures SomeAbort(before + [last], run) <==> SomeAbort(before, run) || Aborts(last, run)
  {
    assert last in before + [last];
    assert forall op | op in before :: op in before + [last];
  }

  /** From a begun run on: it is finished if and only if some finish named it, aborted if and only if none did
      but some abort, and otherwise still in progress; an abort never undoes a finish, a finish overrides an abort. */
  lemma {:induction false} RunStatusIsExact(t: Tables, ops: seq<Op>, run: string)
    requires run in t.runs && t.runs[run].InProgress?
    requires forall op | op in ops :: op.BeginOp? ==> op.run != run
    ensures run in RunFrom(t, ops).runs
    ensures RunFrom(t, ops).runs[run] == if SomeFinish(ops, run) then Finished else if SomeAbort(ops, run) then Aborted
      else InProgress
  {
    if ops != [] {
      var before, last := ops[..|ops| - 1], ops[|ops| - 1];
      assert ops == before + [last] && last in ops;
      assert forall op | op in before :: op in ops;
      RunStatusIsExact(t, before, run);
      StatusAfter(RunFrom(t, before), last, run);
      SomeSnoc(before, last, run);
    }
  }

  lemma {:induction false} StatusAfter(t: Tables, op: Op, run: string)
    requires run in t.runs && (op.BeginOp? ==> op.run != run)
    ensures run in Apply(t, op).runs
    ensures Apply(t, op).runs[run] ==
      if Finishes(op, run) then Finished
      else if Aborts(op, run) && t.runs[run].InProgress? then Aborted
      else t.runs[run]
  {
  }

  // ---------------------------------------------------------------- disappearance is exact

  predicate CountsAsMissing(op: Op, id: Identity)
  {
    op.FinishOp? && op.after >= 1 && Misses(op.names, op.seen, id)
  }

  predicate Records(op: Op, id: Identity)
  {
    op.RecordOp? && Mentions(op.items, id)
  }

  /** Finishes, since the listing was last recorded, that named its source and did not list it. */
  function MissedSince(ops: seq<Op>, id: Identity): nat
  {
    if ops == [] then 0 else
      var before, op := MissedSince(ops[..|ops| - 1], id), ops[|ops| - 1];
      if Records(op, id) then 0 else if CountsAsMissing(op, id) then before + 1 else before
  }

  predicate NotRecordedAfter(ops: seq<Op>, i: nat, id: Identity)
  {
    forall j | i < j < |ops| :: !Records(ops[j], id)
  }

  /** Where in the run those finishes stand. */
  ghost function MissesSince(ops: seq<Op>, id: Identity): set<nat>
  {
    set i: nat | i < |ops| && CountsAsMissing(ops[i], id) && NotRecordedAfter(ops, i, id)
  }

  /** `MissedSince` counts calls of the run: the finishes after the last recording of the listing that missed it. */
  lemma {:induction false} MissedSinceCounts(ops: seq<Op>, id: Identity)
    ensures MissedSince(ops, id) == |MissesSince(ops, id)|
  {
    if ops == [] {
      assert MissesSince(ops, id) == {};
    } else {
      var before, op := ops[..|ops| - 1], ops[|ops| - 1];
      MissedSinceCounts(before, id);
      MissesSnoc(before, op, id);
      assert ops == before + [op];
    }
  }

  lemma NotRecordedSnoc(before: seq<Op>, op: Op, i: nat, id: Identity)
    requires i < |before|
    ensures NotRecordedAfter(before + [op], i, id) <==> NotRecordedAfter(before, i, id) && !Records(op, id)
  {
    var ops := before + [op];
    assert ops[|before|] == op && forall j | 0 <= j < |before| :: ops[j] == before[j];
  }

  lemma {:induction false} MissesSnoc(before: seq<Op>, op: Op, id: Identity)
    ensures MissesSince(before + [op], id) ==
      if Records(op, id) then {}
      else MissesSince(before, id) + if CountsAsMissing(op, id) then {|before|} else {}
  {
    var ops := before + [op];
    assert ops[|before|] == op && forall j | 0 <= j < |before| :: ops[j] == before[j];
    forall i: nat | i < |before|
      ensures NotRecordedAfter(ops, i, id) <==> NotRecordedAfter(before, i, id) && !Records(op, id)
    {
      NotRecordedSnoc(before, op, i, id);
    }
  }

  /** The threshold of the latest such finish; 1 if there is none. */
  function LastThreshold(ops: seq<Op>, id: Identity): int
  {
    if ops == [] then 1 else
      var op := ops[|ops| - 1];
      if Records(op, id) then 1 else if CountsAsMissing(op, id) then op.after else LastThreshold(ops[..|ops| - 1], id)
  }

  lemma {:induction false} UpsertEffect(listings: map<Identity, Listing>, items: seq<Observation>, id: Identity)
    ensures !Mentions(items, id) ==>
      (id in Upsert(listings, items) <==> id in listings) &&
      (id in listings ==> Upsert(listings, items)[id] == listings[id])
    ensures Mentions(items, id) ==>
      id in Upsert(listings, items) && Upsert(listings, items)[id] == Seen(LastOf(items, id))
  {
    if items != [] {
      var init, last := items[..|items| - 1], items[|items| - 1];
      UpsertEffect(listings, init, id);
      if IdOf(last) != id && Mentions(items, id) {
        var k :| 0 <= k < |items| && IdOf(items[k]) == id;
        assert init[k] == items[k];
      }
      assert Mentions(init, id) ==> Mentions(items, id) by {
        if k :| 0 <= k < |init| && IdOf(init[k]) == id {
          assert items[k] == init[k];
        }
      }
    }
  }

  /** The last observation of a listing in a batch: the one that wins. */
  function LastOf(items: seq<Observation>, id: Identity): Observation
    requires Mentions(items, id)
  {
    var last := items[|items| - 1];
    if IdOf(last) == id then last else
      var init := items[..|items| - 1];
      assert Mentions(init, id) by {
        var k :| 0 <= k < |items| && IdOf(items[k]) == id;
        assert init[k] == items[k];
      }
      LastOf(init, id)
  }

  /** Disappearance is exact, in every run: the counter is the number of finishes that missed the listing
      since it was last recorded, whatever other runs aborted or left its source out, and the flag
      compares that number with the threshold of the latest of them. */
  lemma {:induction false} DisappearanceIsExact(ops: seq<Op>, id: Identity)
    requires id in RunFrom(EMPTY_TABLES, ops).listings
    ensures var listing := RunFrom(EMPTY_TABLES, ops).listings[id];
      && listing.missing == MissedSince(ops, id)
      && (listing.disappeared <==> MissedSince(ops, id) >= LastThreshold(ops, id))
  {
    if ops != [] {
      var before, op := ops[..|ops| - 1], ops[|ops| - 1];
      if op.RecordOp? {
        UpsertEffect(RunFrom(EMPTY_TABLES, before).listings, op.items, id);
      }
      if id in RunFrom(EMPTY_TABLES, before).listings {
        DisappearanceIsExact(before, id);
      }
    }
  }

  predicate FixedThreshold(ops: seq<Op>, after: int)
  {
    forall op | op in ops :: op.FinishOp? ==> op.after == after
  }

  /** With one threshold throughout, a listing has disappeared exactly when it was missed that often. */
  lemma DisappearedExactlyAtThreshold(ops: seq<Op>, id: Identity, after: int)
    requires FixedThreshold(ops, after) && after >= 1 && id in RunFrom(EMPTY_TABLES, ops).listings
    ensures RunFrom(EMPTY_TABLES, ops).listings[id].disappeared <==> MissedSince(ops, id) >= after
  {
    DisappearanceIsExact(ops, id);
    ThresholdIsFixed(ops, id, after);
  }

  lemma {:induction false} ThresholdIsFixed(ops: seq<Op>, id: Identity, after: int)
    requires FixedThreshold(ops, after)
    ensures MissedSince(ops, id) > 0 ==> LastThreshold(ops, id) == after
    ensures MissedSince(ops, id) == 0 ==> LastThreshold(ops, id) == 1
  {
    if ops != [] {
      assert forall op | op in ops[..|ops| - 1] :: op in ops;
      ThresholdIsFixed(ops[..|ops| - 1], id, after);
    }
  }

  // ---------------------------------------------------------------- the changes of one item

  function Maybe(c: bool, change: Change): seq<Change>
  {
    if c then [change] else []
  }

  lemma FieldChangesUnrolled(previous: Listing, item: Observation)
    ensures var cs := Comparisons(previous, item);
      FieldChanges(previous, item) ==
        Maybe(Differs(cs[0]), cs[0]) + Maybe(Differs(cs[1]), cs[1]) + Maybe(Differs(cs[2]), cs[2]) +
        Maybe(Differs(cs[3]), cs[3])
  {
    var cs := Comparisons(previous, item);
    assert cs[1..][1..] == cs[2..] && cs[2..][1..] == cs[3..] && cs[3..][1..] == [];
    assert Differing(cs[3..]) == Maybe(Differs(cs[3]), cs[3]);
    assert Differing(cs[2..]) == Maybe(Differs(cs[2]), cs[2]) + Differing(cs[3..]);
    assert Differing(cs[1..]) == Maybe(Differs(cs[1]), cs[1]) + Differing(cs[2..]);
  }

  predicate SameFields(previous: Listing, item: Observation)
  {
    previous.price == item.price && previous.currency == item.currency && previous.title == item.title &&
      previous.inStock == item.inStock
  }

  lemma NoFieldChanges(previous: Listing, item: Observation)
    ensures FieldChanges(previous, item) == [] <==> SameFields(previous, item)
  {
    FieldChangesUnrolled(previous, item);
  }

  /** No listing occurs twice in a batch. */
  predicate DistinctIds(items: seq<Observation>)
  {
    forall p, q | 0 <= p < q < |items| :: IdOf(items[p]) != IdOf(items[q])
  }

  lemma ItemChangesAreAbout(listings: map<Identity, Listing>, item: Observation)
    ensures forall change | change in ItemChanges(listings, item) :: change.id == IdOf(item)
  {
    if IdOf(item) in listings {
      FieldChangesUnrolled(listings[IdOf(item)], item);
    }
  }

  // ---------------------------------------------------------------- batch size does not matter

  lemma {:induction false} InsertRowsConcat(observations: seq<ObsRow>, run: string, xs: seq<Observation>,
        ys: seq<Observation>)
    ensures InsertRows(observations, run, xs + ys) == InsertRows(InsertRows(observations, run, xs), run, ys)
  {
    if ys == [] {
      assert xs + ys == xs;
    } else {
      assert (xs + ys)[..|xs + ys| - 1] == xs + ys[..|ys| - 1];
      InsertRowsConcat(observations, run, xs, ys[..|ys| - 1]);
    }
  }

  lemma {:induction false} UpsertConcat(listings: map<Identity, Listing>, xs: seq<Observation>, ys: seq<Observation>)
    ensures Upsert(listings, xs + ys) == Upsert(Upsert(listings, xs), ys)
  {
    if ys == [] {
      assert xs + ys == xs;
    } else {
      assert (xs + ys)[..|xs + ys| - 1] == xs + ys[..|ys| - 1];
      UpsertConcat(listings, xs, ys[..|ys| - 1]);
    }
  }

  lemma Associative<X>(a: seq<X>, b: seq<X>, c: seq<X>)
    ensures (a + b) + c == a + (b + c)
  {
  }

  predicate Disjoint(xs: seq<Observation>, ys: seq<Observation>)
  {
    forall p, q | 0 <= p < |xs| && 0 <= q < |ys| :: IdOf(xs[p]) != IdOf(ys[q])
  }

  lemma {:induction false} BatchChangesConcat(listings: map<Identity, Listing>, xs: seq<Observation>,
        ys: seq<Observation>)
    requires Disjoint(xs, ys)
    ensures BatchChanges(listings, xs + ys) == BatchChanges(listings, xs) + BatchChanges(Upsert(listings, xs), ys)
  {
    if ys == [] {
      assert xs + ys == xs;
    } else {
      var init, last := ys[..|ys| - 1], ys[|ys| - 1];
      assert (xs + ys)[..|xs + ys| - 1] == xs + init;
      BatchChangesConcat(listings, xs, init);
      UpsertEffect(listings, xs, IdOf(last));
      Associative(BatchChanges(listings, xs), BatchChanges(Upsert(listings, xs), init), ItemChanges(listings, last));
    }
  }

  function Flatten(batches: seq<seq<Observation>>): seq<Observation>
  {
    if batches == [] then [] else Flatten(batches[..|batches| - 1]) + batches[|batches| - 1]
  }

  function RecordOps(run: string, batches: seq<seq<Observation>>): seq<Op>
  {
    if batches == [] then [] else RecordOps(run, batches[..|batches| - 1]) + [RecordOp(run, batches[|batches| - 1])]
  }

  /** No listing occurs in two batches. */
  predicate Separate(batches: seq<seq<Observation>>)
  {
    batches == [] || (Separate(batches[..|batches| - 1]) &&
      Disjoint(Flatten(batches[..|batches| - 1]), batches[|batches| - 1]))
  }

  lemma {:induction false} DistinctMeansSeparate(batches: seq<seq<Observation>>)
    requires DistinctIds(Flatten(batches))
    ensures Separate(batches)
  {
    if batches != [] {
      DistinctParts(Flatten(batches[..|batches| - 1]), batches[|batches| - 1]);
      DistinctMeansSeparate(batches[..|batches| - 1]);
    }
  }

  /** However observations are cut into batches, the tables are those of recording them all at once; and if no
      listing occurs in two batches, in particular if all are distinct, so is the list of reported changes. */
  lemma {:induction false} BatchSizeDoesNotMatter(t: Tables, run: string, batches: seq<seq<Observation>>)
    ensures RunFrom(t, RecordOps(run, batches)) == Record(t, run, Flatten(batches))
    ensures Separate(batches) ==> Changes(t, RecordOps(run, batches)) == BatchChanges(t.listings, Flatten(batches))
  {
    if batches != [] {
      var init, last := batches[..|batches| - 1], batches[|batches| - 1];
      var ops := RecordOps(run, batches);
      assert ops[..|ops| - 1] == RecordOps(run, init);
      BatchSizeDoesNotMatter(t, run, init);
      InsertRowsConcat(t.observations, run, Flatten(init), last);
      UpsertConcat(t.listings, Flatten(init), last);
      if Separate(batches) {
        BatchChangesConcat(t.listings, Flatten(init), last);
      }
    }
  }

  lemma DistinctParts(xs: seq<Observation>, ys: seq<Observation>)
    requires DistinctIds(xs + ys)
    ensures DistinctIds(xs) && DistinctIds(ys) && Disjoint(xs, ys)
  {
    forall p, q | 0 <= p < q < |xs|
      ensures IdOf(xs[p]) != IdOf(xs[q])
    {
      assert (xs + ys)[p] == xs[p] && (xs + ys)[q] == xs[q];
    }
    forall p, q | 0 <= p < q < |ys|
      ensures IdOf(ys[p]) != IdOf(ys[q])
    {
      assert (xs + ys)[|xs| + p] == ys[p] && (xs + ys)[|xs| + q] == ys[q];
    }
    forall p, q | 0 <= p < |xs| && 0 <= q < |ys|
      ensures IdOf(xs[p]) != IdOf(ys[q])
    {
      assert (xs + ys)[p] == xs[p] && (xs + ys)[|xs| + q] == ys[q];
    }
  }

  // ---------------------------------------------------------------- recording a batch again

  lemma {:induction false} InsertedRowsStay(observations: seq<ObsRow>, run: string, items: seq<Observation>, r: string,
        id: Identity)
    ensures HasRow(observations, r, id) ==> HasRow(InsertRows(observations, run, items), r, id)
    ensures Mentions(items, id) ==> HasRow(InsertRows(observations, run, items), run, id)
  {
    if items != [] {
      var init, last := items[..|items| - 1], items[|items| - 1];
      InsertedRowsStay(observations, run, init, r, id);
      var rows := InsertRows(observations, run, init);
      var after := InsertRow(rows, run, last);
      assert rows <= after;
      if HasRow(rows, r, id) {
        var k :| 0 <= k < |rows| && rows[k].run == r && IdOf(rows[k].item) == id;
        assert after[k] == rows[k];
      }
      if Mentions(items, id) && IdOf(last) != id {
        var k :| 0 <= k < |items| && IdOf(items[k]) == id;
        assert init[k] == items[k];
        var j :| 0 <= j < |rows| && rows[j].run == run && IdOf(rows[j].item) == id;
        assert after[j] == rows[j];
      } else if IdOf(last) == id && !HasRow(rows, run, id) {
        assert after[|rows|] == ObsRow(run, last);
      }
    }
  }

  lemma {:induction false} InsertNothingNew(observations: seq<ObsRow>, run: string, items: seq<Observation>)
    requires forall k | 0 <= k < |items| :: HasRow(observations, run, IdOf(items[k]))
    ensures InsertRows(observations, run, items) == observations
  {
    if items != [] {
      InsertNothingNew(observations, run, items[..|items| - 1]);
    }
  }

  /** Recording a batch a second time in the same run changes no table, whatever the batch holds. */
  lemma RecordAgainChangesNothing(t: Tables, run: string, items: seq<Observation>)
    ensures Record(Record(t, run, items), run, items) == Record(t, run, items)
  {
    var once := Record(t, run, items);
    forall k | 0 <= k < |items|
      ensures HasRow(once.observations, run, IdOf(items[k]))
    {
      InsertedRowsStay(t.observations, run, items, run, IdOf(items[k]));
    }
    InsertNothingNew(once.observations, run, items);
    forall id
      ensures id in once.listings <==> id in Upsert(once.listings, items)
      ensures id in once.listings ==> once.listings[id] == Upsert(once.listings, items)[id]
    {
      UpsertEffect(t.listings, items, id);
      UpsertEffect(once.listings, items, id);
    }
  }

  predicate SameTrackedFields(a: Observation, b: Observation)
  {
    a.price == b.price && a.currency == b.currency && a.title == b.title && a.inStock == b.inStock
  }

  /** Copies of a listing in the batch agree, on what changes are reported about, with the last copy. */
  predicate CopiesAgree(items: seq<Observation>)
  {
    forall k | 0 <= k < |items| :: SameTrackedFields(LastOf(items, IdOf(items[k])), items[k])
  }

  lemma {:induction false} NoBatchChanges(listings: map<Identity, Listing>, items: seq<Observation>)
    ensures BatchChanges(listings, items) == [] <==> forall item | item in items :: ItemChanges(listings, item) == []
  {
    if items != [] {
      NoBatchChanges(listings, items[..|items| - 1]);
      assert items == items[..|items| - 1] + [items[|items| - 1]];
    }
  }

  /** ... and it reports nothing exactly when copies of a listing within the batch agree; in particular
      when no listing occurs twice. */
  lemma RecordAgainReportsNothing(t: Tables, run: string, items: seq<Observation>)
    ensures BatchChanges(Record(t, run, items).listings, items) == [] <==> CopiesAgree(items)
    ensures DistinctIds(items) ==> CopiesAgree(items)
  {
    var once := Upsert(t.listings, items);
    NoBatchChanges(once, items);
    forall k | 0 <= k < |items|
      ensures ItemChanges(once, items[k]) == [] <==> SameTrackedFields(LastOf(items, IdOf(items[k])), items[k])
      ensures DistinctIds(items) ==> LastOf(items, IdOf(items[k])) == items[k]
    {
      UpsertEffect(t.listings, items, IdOf(items[k]));
      NoFieldChanges(once[IdOf(items[k])], items[k]);
      var p := LastOfIsIn(items, IdOf(items[k]));
    }
  }

  lemma {:induction false} LastOfIsIn(items: seq<Observation>, id: Identity) returns (p: nat)
    requires Mentions(items, id)
    ensures p < |items| && items[p] == LastOf(items, id) && IdOf(items[p]) == id
  {
    if IdOf(items[|items| - 1]) == id {
      p := |items| - 1;
    } else {
      var init := items[..|items| - 1];
      var k :| 0 <= k < |items| && IdOf(items[k]) == id;
      assert init[k] == items[k];
      p := LastOfIsIn(init, id);
    }
  }
}
