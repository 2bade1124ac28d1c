/** The compacting history (src/lowpower_llm_cluster/history_compaction.py:39-86): after recording a
    batch it deletes the rows that repeat, within the heartbeat interval, the listing's latest row. */
module Compaction {
  import opened Base
  import opened History
  import opened HistoryRuns

  /** The payload without `observed_at`. */
  function Payload(item: Observation): Observation
  {
    item.(observedAt := Unparsable(""))
  }

  /** A listing's stored observations, oldest first. */
  function RowsOf(observations: seq<ObsRow>, id: Identity): seq<Observation>
  {
    if observations == [] then [] else
      var last := observations[|observations| - 1].item;
      RowsOf(observations[..|observations| - 1], id) + if IdOf(last) == id then [last] else []
  }

  /** SELECT ... ORDER BY id DESC LIMIT 1. */
  function LatestRow(observations: seq<ObsRow>, id: Identity): Option<Observation>
  {
    Newest(RowsOf(observations, id))
  }

  function Newest(items: seq<Observation>): Option<Observation>
  {
    if items == [] then None else Some(items[|items| - 1])
  }

  /** Same payload, both times known, and sooner than the heartbeat interval. */
  predicate Repeats(heartbeat: Time, previous: Option<Observation>, item: Observation)
  {
    && previous.Some? && previous.value.observedAt.At? && item.observedAt.At?
    && Payload(previous.value) == Payload(item)
    && item.observedAt.t - previous.value.observedAt.t < heartbeat
  }

  /** In terms of the columns: the two observations are the same but for the time, both times are known, and the later
      comes sooner than the interval. */
  lemma RepeatsExactly(heartbeat: Time, previous: Observation, item: Observation)
    ensures Repeats(heartbeat, Some(previous), item) <==>
      && previous.(observedAt := item.observedAt) == item
      && previous.observedAt.At? && item.observedAt.At?
      && item.observedAt.t < previous.observedAt.t + heartbeat
  {
    SameButForTime(previous, item);
  }

  /** Equal payloads: all fields agree but the time, the ones that are stored and not compared included. */
  lemma SameButForTime(a: Observation, b: Observation)
    ensures Payload(a) == Payload(b) <==> a.(observedAt := b.observedAt) == b
    ensures Payload(a) == Payload(b) <==>
      && (a.source, a.sourceId, a.url, a.title, a.price) == (b.source, b.sourceId, b.url, b.title, b.price)
      && (a.currency, a.shipping, a.inStock, a.extra) == (b.currency, b.shipping, b.inStock, b.extra)
  {
  }

  function ChangedIds(changes: seq<Change>): set<Identity>
  {
    set change | change in changes :: change.id
  }

  /** The `removable` list. */
  function Removable(heartbeat: Time, t: Tables, items: seq<Observation>, changed: set<Identity>): seq<Identity>
  {
    if items == [] then [] else
      var last := items[|items| - 1];
      Removable(heartbeat, t, items[..|items| - 1], changed) +
      if IdOf(last) !in changed && Repeats(heartbeat, LatestRow(t.observations, IdOf(last)), last) then [IdOf(last)]
        else []
  }

  /** DELETE ... WHERE run_id=? AND source=? AND source_id=?, for every id listed. */
  function DeleteRows(observations: seq<ObsRow>, run: string, ids: seq<Identity>): seq<ObsRow>
  {
    if observations == [] then [] else
      var last := observations[|observations| - 1];
      DeleteRows(observations[..|observations| - 1], run, ids) + if last.run == run && IdOf(last.item) in ids then []
        else [last]
  }

  function RemovableIn(heartbeat: Time, t: Tables, items: seq<Observation>): seq<Identity>
  {
    Removable(heartbeat, t, items, ChangedIds(BatchChanges(t.listings, items)))
  }

  function CompactRecord(heartbeat: Time, t: Tables, run: string, items: seq<Observation>): Tables
  {
    var plain := Record(t, run, items);
    plain.(observations := DeleteRows(plain.observations, run, RemovableIn(heartbeat, t, items)))
  }

  lemma {:induction false} DeleteNothing(observations: seq<ObsRow>, run: string)
    ensures DeleteRows(observations, run, []) == observations
  {
    if observations != [] {
      DeleteNothing(observations[..|observations| - 1], run);
    }
  }

  /** The subclass: a plain history, the heartbeat interval (at least a minute) and a counter. */
  class CompactingCatalogHistory {
    const base: CatalogHistory
    const heartbeat: Time
    var compacted: nat

    constructor (base: CatalogHistory, unchangedHeartbeat: Time)
      ensures this.base == base && compacted == 0
      ensures heartbeat == if unchangedHeartbeat < 60.0 then 60.0 else unchangedHeartbeat
    {
      this.base := base;
      heartbeat := if unchangedHeartbeat < 60.0 then 60.0 else unchangedHeartbeat;
      compacted := 0;
    }

    /** The first loop: the latest stored row of every item, before anything is recorded. */
    method LatestRows(items: seq<Observation>) returns (previous: map<Identity, Option<Observation>>)
      ensures forall item | item in items :: IdOf(item) in previous
      ensures forall id | id in previous :: previous[id] == LatestRow(base.observations, id)
    {
      previous := map[];
      for k := 0 to |items|
        invariant forall i | 0 <= i < k :: IdOf(items[i]) in previous
        invariant forall id | id in previous :: previous[id] == LatestRow(base.observations, id)
      {
        previous := previous[IdOf(items[k]) := LatestRow(base.observations, IdOf(items[k]))];
      }
    }

    /** The second loop: which of the rows just inserted can go again. */
    method ListRemovable(previous: map<Identity, Option<Observation>>, items: seq<Observation>, changed: set<Identity>,
          ghost before: Tables)
      returns (removable: seq<Identity>)
      requires forall item | item in items :: IdOf(item) in previous
      requires forall id | id in previous :: previous[id] == LatestRow(before.observations, id)
      ensures removable == Removable(heartbeat, before, items, changed)
    {
      removable := [];
      for k := 0 to |items|
        invariant removable == Removable(heartbeat, before, items[..k], changed)
      {
        var id := IdOf(items[k]);
        assert items[..k + 1][..k] == items[..k];
        if id !in changed && Repeats(heartbeat, previous[id], items[k]) {
          removable := removable + [id];
        }
      }
      assert items[..|items|] == items;
    }

    method RecordBatch(run: string, items: seq<Observation>) returns (changes: seq<Change>)
      modifies this`compacted, base`observations, base`listings
      ensures base.Model() == CompactRecord(heartbeat, old(base.Model()), run, items)
      ensures changes == BatchChanges(old(base.listings), items)
      ensures compacted == old(compacted) + |RemovableIn(heartbeat, old(base.Model()), items)|
    {
      ghost var before := base.Model();
      var previous := LatestRows(items);
      changes := base.RecordBatch(run, items);
      var removable := ListRemovable(previous, items, ChangedIds(changes), before);
      DeleteNothing(base.observations, run);
      if removable != [] {
        base.observations := DeleteRows(base.observations, run, removable);
        compacted := compacted + |removable|;
      }
    }
  }

  // ---------------------------------------------------------------- runs

  function ApplyCompact(heartbeat: Time, t: Tables, op: Op): Tables
  {
    if op.RecordOp? then CompactRecord(heartbeat, t, op.run, op.items) else Apply(t, op)
  }

  function RunCompact(heartbeat: Time, ops: seq<Op>): Tables
  {
    if ops == [] then EMPTY_TABLES else ApplyCompact(heartbeat, RunCompact(heartbeat, ops[..|ops| - 1]), ops[|ops| - 1])
  }

  function ChangesCompact(heartbeat: Time, ops: seq<Op>): seq<Change>
  {
    if ops == [] then [] else
      ChangesCompact(heartbeat, ops[..|ops| - 1]) + Emitted(RunCompact(heartbeat, ops[..|ops| - 1]), ops[|ops| - 1])
  }

  /** Compaction is invisible in the state: any sequence of calls gives the same listings, the same runs
      and the same reported changes as the plain history. */
  lemma {:induction false} CompactionKeepsState(heartbeat: Time, ops: seq<Op>)
    ensures RunCompact(heartbeat, ops).listings == RunFrom(EMPTY_TABLES, ops).listings
    ensures RunCompact(heartbeat, ops).runs == RunFrom(EMPTY_TABLES, ops).runs
    ensures ChangesCompact(heartbeat, ops) == Changes(EMPTY_TABLES, ops)
  {
    if ops != [] {
      var before := ops[..|ops| - 1];
      CompactionKeepsState(heartbeat, before);
      SameStateSameStep(heartbeat, RunCompact(heartbeat, before), RunFrom(EMPTY_TABLES, before), ops[|ops| - 1]);
    }
  }

  /** The observation log influences neither the listings, nor the runs, nor what is reported. */
  lemma SameStateSameStep(heartbeat: Time, c: Tables, t: Tables, op: Op)
    requires c.listings == t.listings && c.runs == t.runs
    ensures ApplyCompact(heartbeat, c, op).listings == Apply(t, op).listings
    ensures ApplyCompact(heartbeat, c, op).runs == Apply(t, op).runs
    ensures Emitted(c, op) == Emitted(t, op)
  {
  }

  // ---------------------------------------------------------------- one listing at a time

  /** A recorded observation of a listing, with the changes it was reported with. */
  datatype Sighting = Sighting(item: Observation, changes: seq<Change>)

  function Sightings(ops: seq<Op>, id: Identity): seq<Sighting>
  {
    if ops == [] then [] else
      var before, op := ops[..|ops| - 1], ops[|ops| - 1];
      Sightings(before, id) +
      if op.RecordOp? && Mentions(op.items, id) then
        var item := LastOf(op.items, id);
        [Sighting(item, ItemChanges(RunFrom(EMPTY_TABLES, before).listings, item))]
      else []
  }

  /** The compaction rule for one listing: drop a sighting that reports nothing and repeats the last
      kept one. */
  function Kept(heartbeat: Time, sightings: seq<Sighting>): seq<Sighting>
  {
    if sightings == [] then [] else
      var kept, x := Kept(heartbeat, sightings[..|sightings| - 1]), sightings[|sightings| - 1];
      if Dropped(heartbeat, Newest(Items(kept)), x) then kept else kept + [x]
  }

  /** A quiet sighting that repeats the newest stored row. */
  predicate Dropped(heartbeat: Time, newest: Option<Observation>, x: Sighting)
  {
    x.changes == [] && Repeats(heartbeat, newest, x.item)
  }

  function Items(sightings: seq<Sighting>): seq<Observation>
  {
    seq(|sightings|, k requires 0 <= k < |sightings| => sightings[k].item)
  }

  predicate WasRecorded(ops: seq<Op>, run: string, id: Identity)
  {
    exists op :: op in ops && op.RecordOp? && op.run == run && Mentions(op.items, id)
  }

  /** Each listing is recorded at most once per run. */
  predicate OncePerRun(ops: seq<Op>)
  {
    ops == [] ||
    var before, op := ops[..|ops| - 1], ops[|ops| - 1];
    OncePerRun(before) &&
    (op.RecordOp? ==> DistinctIds(op.items) && forall k | 0 <= k < |op.items| ::
      !WasRecorded(before, op.run, IdOf(op.items[k])))
  }

  lemma ChangedIdsConcat(a: seq<Change>, b: seq<Change>)
    ensures ChangedIds(a + b) == ChangedIds(a) + ChangedIds(b)
  {
  }

  lemma ItemChangedIds(listings: map<Identity, Listing>, item: Observation)
    ensures ChangedIds(ItemChanges(listings, item)) == if ItemChanges(listings, item) == [] then {} else {IdOf(item)}
  {
    ItemChangesAreAbout(listings, item);
    var changes := ItemChanges(listings, item);
    assert changes != [] ==> changes[0] in changes;
  }

  lemma {:induction false} ChangedMeansChanges(listings: map<Identity, Listing>, items: seq<Observation>, id: Identity)
    ensures id in ChangedIds(BatchChanges(listings, items)) <==>
      exists item :: item in items && IdOf(item) == id && ItemChanges(listings, item) != []
  {
    if items != [] {
      var init, last := items[..|items| - 1], items[|items| - 1];
      ChangedMeansChanges(listings, init, id);
      ChangedIdsConcat(BatchChanges(listings, init), ItemChanges(listings, last));
      ItemChangedIds(listings, last);
      assert items == init + [last];
    }
  }

  lemma {:induction false} RemovableExactly(heartbeat: Time, t: Tables, items: seq<Observation>, changed: set<Identity>,
        id: Identity)
    ensures id in Removable(heartbeat, t, items, changed) <==>
      id !in changed && exists item ::
        item in items && IdOf(item) == id && Repeats(heartbeat, LatestRow(t.observations, id), item)
  {
    if items != [] {
      var init := items[..|items| - 1];
      RemovableExactly(heartbeat, t, init, changed, id);
      assert items == init + [items[|items| - 1]];
    }
  }

  lemma OnlyCopy(items: seq<Observation>, id: Identity, k: nat)
    requires DistinctIds(items) && k < |items| && IdOf(items[k]) == id
    ensures Mentions(items, id) && LastOf(items, id) == items[k]
  {
    var p := LastOfIsIn(items, id);
  }

  /** In a batch without copies, a listing is removable exactly when its one observation reports nothing
      and repeats the latest row. */
  lemma RemovableWhenQuietRepeat(heartbeat: Time, t: Tables, items: seq<Observation>, id: Identity)
    requires DistinctIds(items)
    ensures id in RemovableIn(heartbeat, t, items) <==>
      Mentions(items, id) && ItemChanges(t.listings, LastOf(items, id)) == [] &&
        Repeats(heartbeat, LatestRow(t.observations, id), LastOf(items, id))
  {
    var changed := ChangedIds(BatchChanges(t.listings, items));
    ChangedMeansChanges(t.listings, items, id);
    RemovableExactly(heartbeat, t, items, changed, id);
    forall k | 0 <= k < |items| && IdOf(items[k]) == id
      ensures Mentions(items, id) && LastOf(items, id) == items[k]
    {
      OnlyCopy(items, id, k);
    }
    if Mentions(items, id) {
      var p := LastOfIsIn(items, id);
      assert items[p] in items;
    }
  }

  function RowsOutside(observations: seq<ObsRow>, run: string, id: Identity): seq<Observation>
  {
    if observations == [] then [] else
      var last := observations[|observations| - 1];
      RowsOutside(observations[..|observations| - 1], run, id) + OutsideRow(last, run, id)
  }

  lemma {:induction false} RowsAfterDelete(observations: seq<ObsRow>, run: string, ids: seq<Identity>, id: Identity)
    ensures RowsOf(DeleteRows(observations, run, ids), id) == if id in ids then RowsOutside(observations, run, id)
      else RowsOf(observations, id)
  {
    if observations != [] {
      var init, last := observations[..|observations| - 1], observations[|observations| - 1];
      var left := DeleteRows(init, run, ids);
      RowsAfterDelete(init, run, ids, id);
      RowsSnoc(left, last, id);
      assert left + [] == left;
    }
  }

  function OutsideRow(row: ObsRow, run: string, id: Identity): seq<Observation>
  {
    if IdOf(row.item) == id && row.run != run then [row.item] else []
  }

  lemma RowsSnoc(observations: seq<ObsRow>, row: ObsRow, id: Identity)
    ensures RowsOf(observations + [row], id) == RowsOf(observations, id) + if IdOf(row.item) == id then [row.item]
      else []
    ensures forall run ::
      RowsOutside(observations + [row], run, id) == RowsOutside(observations, run, id) + OutsideRow(row, run, id)
  {
    assert (observations + [row])[..|observations|] == observations;
  }

  lemma {:induction false} OutsideIsAll(observations: seq<ObsRow>, run: string, id: Identity)
    requires !HasRow(observations, run, id)
    ensures RowsOutside(observations, run, id) == RowsOf(observations, id)
  {
    if observations != [] {
      var init := observations[..|observations| - 1];
      assert !HasRow(init, run, id) by {
        assert forall k | 0 <= k < |init| :: init[k] == observations[k];
      }
      OutsideIsAll(init, run, id);
    }
  }

  /** One row inserted under a run: what it adds for a listing, and nothing outside the run. */
  lemma InsertOne(rows: seq<ObsRow>, run: string, item: Observation, id: Identity)
    ensures RowsOf(InsertRow(rows, run, item), id) ==
      RowsOf(rows, id) + if IdOf(item) == id && !HasRow(rows, run, id) then [item] else []
    ensures RowsOutside(InsertRow(rows, run, item), run, id) == RowsOutside(rows, run, id)
    ensures HasRow(InsertRow(rows, run, item), run, id) <==> HasRow(rows, run, id) || IdOf(item) == id
  {
    if !HasRow(rows, run, IdOf(item)) {
      RowsSnoc(rows, ObsRow(run, item), id);
      HasRowSnoc(rows, ObsRow(run, item), run, id);
    }
  }

  /** Inserting a batch adds at most one row per listing, under the batch's run. */
  lemma {:induction false} RowsAfterInsert(observations: seq<ObsRow>, run: string, items: seq<Observation>,
        id: Identity)
    requires DistinctIds(items)
    ensures RowsOf(InsertRows(observations, run, items), id) ==
      RowsOf(observations, id) + if Mentions(items, id) && !HasRow(observations, run, id) then [LastOf(items, id)]
        else []
    ensures RowsOutside(InsertRows(observations, run, items), run, id) == RowsOutside(observations, run, id)
    ensures HasRow(InsertRows(observations, run, items), run, id) <==>
      HasRow(observations, run, id) || Mentions(items, id)
  {
    if items != [] {
      var init, last := items[..|items| - 1], items[|items| - 1];
      RowsAfterInsert(observations, run, init, id);
      MentionsSnoc(items, id);
      InsertOne(InsertRows(observations, run, init), run, last, id);
    }
  }

  lemma HasRowSnoc(observations: seq<ObsRow>, row: ObsRow, run: string, id: Identity)
    ensures HasRow(observations + [row], run, id) <==>
      HasRow(observations, run, id) || (row.run == run && IdOf(row.item) == id)
  {
    var longer := observations + [row];
    assert longer[|observations|] == row;
    assert forall k | 0 <= k < |observations| :: longer[k] == observations[k];
  }

  lemma MentionsSnoc(items: seq<Observation>, id: Identity)
    requires items != [] && DistinctIds(items)
    ensures var init, last := items[..|items| - 1], items[|items| - 1];
      && (Mentions(items, id) <==> Mentions(init, id) || IdOf(last) == id)
      && (IdOf(last) == id ==> !Mentions(init, id))
  {
    var init := items[..|items| - 1];
    assert forall k | 0 <= k < |init| :: init[k] == items[k];
    if Mentions(items, id) && IdOf(items[|items| - 1]) != id {
      var k :| 0 <= k < |items| && IdOf(items[k]) == id;
      assert IdOf(init[k]) == id;
    }
    if Mentions(init, id) {
      var k :| 0 <= k < |init| && IdOf(init[k]) == id;
      assert IdOf(items[k]) == id;
    }
  }

  lemma {:induction false} RowsWereRecorded(heartbeat: Time, ops: seq<Op>, run: string, id: Identity)
    requires OncePerRun(ops)
    ensures HasRow(RunCompact(heartbeat, ops).observations, run, id) ==> WasRecorded(ops, run, id)
    ensures HasRow(RunFrom(EMPTY_TABLES, ops).observations, run, id) ==> WasRecorded(ops, run, id)
  {
    if ops != [] {
      var before, op := ops[..|ops| - 1], ops[|ops| - 1];
      RowsWereRecorded(heartbeat, before, run, id);
      assert forall o | o in before :: o in ops;
      if op.RecordOp? {
        InsertedRunIsBatchRun(RunCompact(heartbeat, before).observations, op.run, op.items, run, id);
        InsertedRunIsBatchRun(RunFrom(EMPTY_TABLES, before).observations, op.run, op.items, run, id);
        DeletedRowsWereThere(InsertRows(RunCompact(heartbeat, before).observations, op.run, op.items), op.run,
          RemovableIn(heartbeat, RunCompact(heartbeat, before), op.items), run, id);
      }
    }
  }

  lemma {:induction false} InsertedRunIsBatchRun(observations: seq<ObsRow>, run: string, items: seq<Observation>,
        r: string, id: Identity)
    requires DistinctIds(items)
    ensures HasRow(InsertRows(observations, run, items), r, id) ==>
      HasRow(observations, r, id) || (r == run && Mentions(items, id))
  {
    if items != [] {
      var init, last := items[..|items| - 1], items[|items| - 1];
      InsertedRunIsBatchRun(observations, run, init, r, id);
      MentionsSnoc(items, id);
      HasRowSnoc(InsertRows(observations, run, init), ObsRow(run, last), r, id);
    }
  }

  lemma {:induction false} DeletedRowsWereThere(observations: seq<ObsRow>, run: string, ids: seq<Identity>, r: string,
        id: Identity)
    ensures HasRow(DeleteRows(observations, run, ids), r, id) ==> HasRow(observations, r, id)
  {
    if observations != [] {
      var init, last := observations[..|observations| - 1], observations[|observations| - 1];
      DeletedRowsWereThere(init, run, ids, r, id);
      HasRowSnoc(DeleteRows(init, run, ids), last, r, id);
      HasRowSnoc(init, last, r, id);
      assert observations == init + [last];
    }
  }

  // ---------------------------------------------------------------- the compact log of one listing

  /** With each listing recorded at most once per run, the plain log holds every sighting, and the
      compact log is the plain one under the rule `Kept`, listing by listing. */
  lemma {:induction false} CompactLogIsKept(heartbeat: Time, ops: seq<Op>, id: Identity)
    requires OncePerRun(ops)
    ensures RowsOf(RunFrom(EMPTY_TABLES, ops).observations, id) == Items(Sightings(ops, id))
    ensures RowsOf(RunCompact(heartbeat, ops).observations, id) == Items(Kept(heartbeat, Sightings(ops, id)))
  {
    if ops != [] {
      var before, op := ops[..|ops| - 1], ops[|ops| - 1];
      CompactLogIsKept(heartbeat, before, id);
      var sightings := Sightings(before, id);
      if op.RecordOp? {
        CompactionKeepsState(heartbeat, before);
        NotYetRecorded(heartbeat, before, op, id);
        RowsAfterInsert(RunFrom(EMPTY_TABLES, before).observations, op.run, op.items, id);
        RowsAfterCompactRecord(heartbeat, RunCompact(heartbeat, before), op.run, op.items, id);
      }
      if op.RecordOp? && Mentions(op.items, id) {
        var x := Sighting(LastOf(op.items, id),
          ItemChanges(RunFrom(EMPTY_TABLES, before).listings, LastOf(op.items, id)));
        ItemsSnoc(sightings, x);
        KeptFollowsRule(heartbeat, sightings, x);
      } else {
        assert sightings + [] == sightings;
      }
    }
  }

  lemma KeptFollowsRule(heartbeat: Time, sightings: seq<Sighting>, x: Sighting)
    ensures var rows := Items(Kept(heartbeat, sightings));
      Items(Kept(heartbeat, sightings + [x])) == if Dropped(heartbeat, Newest(rows), x) then rows else rows + [x.item]
  {
    KeptSnoc(heartbeat, sightings, x);
    ItemsSnoc(Kept(heartbeat, sightings), x);
  }

  /** A listing's rows after recording a batch in a run that does not hold it yet. */
  lemma RowsAfterCompactRecord(heartbeat: Time, t: Tables, run: string, items: seq<Observation>, id: Identity)
    requires DistinctIds(items) && (Mentions(items, id) ==> !HasRow(t.observations, run, id))
    ensures var rows := RowsOf(t.observations, id);
      RowsOf(CompactRecord(heartbeat, t, run, items).observations, id) ==
      if !Mentions(items, id) then rows
      else if ItemChanges(t.listings, LastOf(items, id)) == [] &&
        Repeats(heartbeat, LatestRow(t.observations, id), LastOf(items, id)) then rows
      else rows + [LastOf(items, id)]
  {
    RowsAfterInsert(t.observations, run, items, id);
    OutsideWhenNew(t.observations, run, items, id);
    RemovableWhenQuietRepeat(heartbeat, t, items, id);
    RowsAfterDelete(InsertRows(t.observations, run, items), run, RemovableIn(heartbeat, t, items), id);
    assert RowsOf(t.observations, id) + [] == RowsOf(t.observations, id);
  }

  lemma NotYetRecorded(heartbeat: Time, before: seq<Op>, op: Op, id: Identity)
    requires OncePerRun(before) && op.RecordOp?
    requires forall k | 0 <= k < |op.items| :: !WasRecorded(before, op.run, IdOf(op.items[k]))
    ensures Mentions(op.items, id) ==> !HasRow(RunFrom(EMPTY_TABLES, before).observations, op.run, id)
    ensures Mentions(op.items, id) ==> !HasRow(RunCompact(heartbeat, before).observations, op.run, id)
  {
    RowsWereRecorded(heartbeat, before, op.run, id);
  }

  lemma OutsideWhenNew(observations: seq<ObsRow>, run: string, items: seq<Observation>, id: Identity)
    ensures !HasRow(observations, run, id) ==> RowsOutside(observations, run, id) == RowsOf(observations, id)
  {
    if !HasRow(observations, run, id) {
      OutsideIsAll(observations, run, id);
    }
  }

  lemma KeptSnoc(heartbeat: Time, sightings: seq<Sighting>, x: Sighting)
    ensures var kept := Kept(heartbeat, sightings);
      Kept(heartbeat, sightings + [x]) ==
      if Dropped(heartbeat, Newest(Items(kept)), x) then kept else kept + [x]
  {
    assert (sightings + [x])[..|sightings|] == sightings;
  }

  lemma ItemsSnoc(sightings: seq<Sighting>, x: Sighting)
    ensures Items(sightings + [x]) == Items(sightings) + [x.item]
  {
  }

  // ---------------------------------------------------------------- no content is lost

  function Payloads(sightings: seq<Sighting>): seq<Observation>
  {
    seq(|sightings|, k requires 0 <= k < |sightings| => Payload(sightings[k].item))
  }

  /** A sequence without consecutive repeats. */
  function Dedup<X(==)>(xs: seq<X>): seq<X>
  {
    if xs == [] then [] else
      var d, x := Dedup(xs[..|xs| - 1]), xs[|xs| - 1];
      if d != [] && d[|d| - 1] == x then d else d + [x]
  }

  lemma DedupSnoc<X>(xs: seq<X>, x: X)
    ensures var d := Dedup(xs);
      Dedup(xs + [x]) == if d != [] && d[|d| - 1] == x then d else d + [x]
  {
    assert (xs + [x])[..|xs|] == xs;
  }

  lemma {:induction false} DedupEndsAlike<X>(xs: seq<X>)
    ensures xs == [] <==> Dedup(xs) == []
    ensures xs != [] ==> Dedup(xs)[|Dedup(xs)| - 1] == xs[|xs| - 1]
  {
    if xs != [] {
      DedupEndsAlike(xs[..|xs| - 1]);
    }
  }

  lemma {:induction false} KeptEndsAlike(heartbeat: Time, sightings: seq<Sighting>)
    ensures sightings == [] <==> Kept(heartbeat, sightings) == []
    ensures sightings != [] ==>
      var kept := Kept(heartbeat, sightings);
      Payload(kept[|kept| - 1].item) == Payload(sightings[|sightings| - 1].item)
  {
    if sightings != [] {
      KeptEndsAlike(heartbeat, sightings[..|sightings| - 1]);
    }
  }

  /** Leaving out a repeat of the last element, or not, makes no difference to what is left without repeats. */
  lemma DedupStep<X>(kept: seq<X>, full: seq<X>, x: X, dropped: bool)
    requires Dedup(kept) == Dedup(full) && (dropped ==> kept != [] && kept[|kept| - 1] == x)
    ensures Dedup(if dropped then kept else kept + [x]) == Dedup(full + [x])
  {
    DedupSnoc(full, x);
    DedupSnoc(kept, x);
    DedupEndsAlike(kept);
  }

  lemma PayloadsOfKept(heartbeat: Time, init: seq<Sighting>, x: Sighting)
    ensures var kept := Payloads(Kept(heartbeat, init));
      var dropped := Dropped(heartbeat, Newest(Items(Kept(heartbeat, init))), x);
      && Payloads(Kept(heartbeat, init + [x])) == (if dropped then kept else kept + [Payload(x.item)])
      && (dropped ==> kept != [] && kept[|kept| - 1] == Payload(x.item))
  {
    KeptSnoc(heartbeat, init, x);
    PayloadsSnoc(Kept(heartbeat, init), x);
  }

  /** Kept and full sightings of a listing say the same, up to consecutive repeats. */
  lemma {:induction false} KeptSaysTheSame(heartbeat: Time, sightings: seq<Sighting>)
    ensures Dedup(Payloads(Kept(heartbeat, sightings))) == Dedup(Payloads(sightings))
  {
    if sightings != [] {
      var init, x := sightings[..|sightings| - 1], sightings[|sightings| - 1];
      KeptSaysTheSame(heartbeat, init);
      assert sightings == init + [x];
      OneMoreSaysTheSame(heartbeat, init, x);
    }
  }

  lemma {:induction false} OneMoreSaysTheSame(heartbeat: Time, init: seq<Sighting>, x: Sighting)
    requires Dedup(Payloads(Kept(heartbeat, init))) == Dedup(Payloads(init))
    ensures Dedup(Payloads(Kept(heartbeat, init + [x]))) == Dedup(Payloads(init + [x]))
  {
    PayloadsSnoc(init, x);
    PayloadsOfKept(heartbeat, init, x);
    DedupStep(Payloads(Kept(heartbeat, init)), Payloads(init), Payload(x.item),
      Dropped(heartbeat, Newest(Items(Kept(heartbeat, init))), x));
  }

  lemma PayloadsSnoc(sightings: seq<Sighting>, x: Sighting)
    ensures Payloads(sightings + [x]) == Payloads(sightings) + [Payload(x.item)]
    ensures sightings != [] ==> Payloads(sightings)[|sightings| - 1] == Payload(sightings[|sightings| - 1].item)
  {
  }

  function PayloadsOf(items: seq<Observation>): seq<Observation>
  {
    seq(|items|, k requires 0 <= k < |items| => Payload(items[k]))
  }

  /** Compaction refines the plain log: with each listing recorded at most once per run, the stored
      payloads of every listing are those of the plain history, up to consecutive repeats. */
  lemma {:induction false} CompactionLosesNoContent(heartbeat: Time, ops: seq<Op>, id: Identity)
    requires OncePerRun(ops)
    ensures Dedup(PayloadsOf(RowsOf(RunCompact(heartbeat, ops).observations, id))) ==
      Dedup(PayloadsOf(RowsOf(RunFrom(EMPTY_TABLES, ops).observations, id)))
  {
    var sightings := Sightings(ops, id);
    CompactLogIsKept(heartbeat, ops, id);
    KeptSaysTheSame(heartbeat, sightings);
    PayloadsOfItems(sightings);
    PayloadsOfItems(Kept(heartbeat, sightings));
  }

  lemma PayloadsOfItems(sightings: seq<Sighting>)
    ensures PayloadsOf(Items(sightings)) == Payloads(sightings)
  {
  }

  predicate NoRepeat<X(==)>(xs: seq<X>)
  {
    forall k | 0 <= k < |xs| - 1 :: xs[k] != xs[k + 1]
  }

  lemma NoRepeatSnoc<X>(init: seq<X>, x: X)
    ensures NoRepeat(init + [x]) <==> NoRepeat(init) && (init == [] || init[|init| - 1] != x)
  {
    var xs := init + [x];
    assert forall k | 0 <= k < |init| :: xs[k] == init[k];
    if k :| 0 <= k < |init| - 1 && init[k] == init[k + 1] {
      assert xs[k] == xs[k + 1];
    }
    if init != [] && init[|init| - 1] == x {
      assert xs[|init| - 1] == xs[|init| - 1 + 1];
    }
  }

  lemma DedupSameSnoc<X>(init: seq<X>, x: X)
    requires |Dedup(init)| <= |init|
    ensures Dedup(init + [x]) == init + [x] <==> Dedup(init) == init && (init == [] || init[|init| - 1] != x)
  {
    DedupSnoc(init, x);
    assert (Dedup(init) + [x])[..|Dedup(init)|] == Dedup(init);
    assert (init + [x])[..|init|] == init;
  }

  lemma {:induction false} DedupChangesNothingExactly<X>(xs: seq<X>)
    ensures |Dedup(xs)| <= |xs|
    ensures Dedup(xs) == xs <==> NoRepeat(xs)
  {
    if xs != [] {
      var init, x := xs[..|xs| - 1], xs[|xs| - 1];
      DedupChangesNothingExactly(init);
      assert xs == init + [x];
      NoRepeatSnoc(init, x);
      DedupSameSnoc(init, x);
    }
  }

  // ---------------------------------------------------------------- a witness for every sighting

  /** Times are known and do not run backwards. */
  predicate TimesNondecreasing(items: seq<Observation>)
  {
    && (forall k | 0 <= k < |items| :: items[k].observedAt.At?)
    && forall j, k | 0 <= j <= k < |items| :: items[j].observedAt.At? && items[k].observedAt.At? ==>
         items[j].observedAt.t <= items[k].observedAt.t
  }

  /** The stored row vouches for the sighting: same payload, not younger, and less than one heartbeat
      interval older. */
  predicate Witnesses(heartbeat: Time, row: Observation, sighting: Observation)
  {
    && row.observedAt.At? && sighting.observedAt.At? && Payload(row) == Payload(sighting)
    && row.observedAt.t <= sighting.observedAt.t < row.observedAt.t + heartbeat
  }

  lemma {:induction false} KeptAreSightings(heartbeat: Time, sightings: seq<Sighting>)
    ensures forall x | x in Kept(heartbeat, sightings) :: x in sightings
  {
    if sightings != [] {
      KeptAreSightings(heartbeat, sightings[..|sightings| - 1]);
    }
  }

  lemma {:induction false} KeptWitnesses(heartbeat: Time, sightings: seq<Sighting>, j: nat)
    requires heartbeat > 0.0 && TimesNondecreasing(Items(sightings)) && j < |sightings|
    ensures exists k ::
      && 0 <= k < |Kept(heartbeat, sightings)|
      && Witnesses(heartbeat, Kept(heartbeat, sightings)[k].item, sightings[j].item)
  {
    var init, x := sightings[..|sightings| - 1], sightings[|sightings| - 1];
    assert sightings == init + [x];
    assert forall k | 0 <= k < |sightings| :: Items(sightings)[k] == sightings[k].item;
    if j < |init| {
      assert forall k | 0 <= k < |init| :: Items(init)[k] == Items(sightings)[k];
      KeptWitnesses(heartbeat, init, j);
      KeptSnoc(heartbeat, init, x);
      var before := Kept(heartbeat, init);
      var k :| 0 <= k < |before| && Witnesses(heartbeat, before[k].item, init[j].item);
      assert Kept(heartbeat, sightings)[k] == before[k];
    } else {
      NewestIsWitnessed(heartbeat, init, x);
    }
  }

  /** The newest sighting is kept, or repeats the newest kept one, which is older. */
  lemma {:induction false} NewestIsWitnessed(heartbeat: Time, init: seq<Sighting>, x: Sighting)
    requires heartbeat > 0.0 && x.item.observedAt.At?
    requires forall y | y in init :: y.item.observedAt.At? ==> y.item.observedAt.t <= x.item.observedAt.t
    ensures exists k ::
      && 0 <= k < |Kept(heartbeat, init + [x])|
      && Witnesses(heartbeat, Kept(heartbeat, init + [x])[k].item, x.item)
  {
    var before, kept := Kept(heartbeat, init), Kept(heartbeat, init + [x]);
    KeptSnoc(heartbeat, init, x);
    KeptAreSightings(heartbeat, init);
    if kept == before {
      assert before[|before| - 1] in before;
      assert Witnesses(heartbeat, kept[|before| - 1].item, x.item);
    } else {
      assert Witnesses(heartbeat, kept[|before|].item, x.item);
    }
  }

  /** Every recorded sighting keeps a witness among the stored rows. */
  lemma EverySightingHasAWitness(heartbeat: Time, ops: seq<Op>, id: Identity, j: nat) returns (k: nat)
    requires OncePerRun(ops) && heartbeat > 0.0
    requires TimesNondecreasing(RowsOf(RunFrom(EMPTY_TABLES, ops).observations, id)) &&
      j < |RowsOf(RunFrom(EMPTY_TABLES, ops).observations, id)|
    ensures k < |RowsOf(RunCompact(heartbeat, ops).observations, id)|
    ensures Witnesses(heartbeat, RowsOf(RunCompact(heartbeat, ops).observations, id)[k],
      RowsOf(RunFrom(EMPTY_TABLES, ops).observations, id)[j])
    ensures var stored, sighting := RowsOf(RunCompact(heartbeat, ops).observations, id)[k],
                                    RowsOf(RunFrom(EMPTY_TABLES, ops).observations, id)[j];
      && stored.(observedAt := sighting.observedAt) == sighting
      && stored.observedAt.At? && sighting.observedAt.At?
      && stored.observedAt.t <= sighting.observedAt.t < stored.observedAt.t + heartbeat
  {
    CompactLogIsKept(heartbeat, ops, id);
    KeptWitnesses(heartbeat, Sightings(ops, id), j);
    var kept := Kept(heartbeat, Sightings(ops, id));
    k :| 0 <= k < |kept| && Witnesses(heartbeat, kept[k].item, Sightings(ops, id)[j].item);
    SameButForTime(kept[k].item, Sightings(ops, id)[j].item);
  }

  lemma {:induction false} DedupKeepsElements<X>(xs: seq<X>, x: X)
    ensures x in Dedup(xs) <==> x in xs
  {
    if xs != [] {
      var init, last := xs[..|xs| - 1], xs[|xs| - 1];
      DedupKeepsElements(init, x);
      assert xs == init + [last];
    }
  }

  /** No sighting is left without a stored row that is the same but for the time, whatever the times are; every stored
      row is a sighting as it was made. */
  lemma {:induction false} StoredSpeaksForAll(heartbeat: Time, ops: seq<Op>, id: Identity)
    requires OncePerRun(ops)
    ensures var stored, seen := RowsOf(RunCompact(heartbeat, ops).observations, id),
                                RowsOf(RunFrom(EMPTY_TABLES, ops).observations, id);
      && (forall x | x in seen :: exists row :: row in stored && row.(observedAt := x.observedAt) == x)
      && (forall row | row in stored :: row in seen)
  {
    var stored := RowsOf(RunCompact(heartbeat, ops).observations, id);
    var seen := RowsOf(RunFrom(EMPTY_TABLES, ops).observations, id);
    var sightings := Sightings(ops, id);
    CompactLogIsKept(heartbeat, ops, id);
    CompactionLosesNoContent(heartbeat, ops, id);
    forall x | x in seen
      ensures exists row :: row in stored && row.(observedAt := x.observedAt) == x
    {
      var row := SameInOther(stored, seen, x);
    }
    KeptAreSightings(heartbeat, sightings);
    forall row | row in stored
      ensures row in seen
    {
      var k :| 0 <= k < |stored| && stored[k] == row;
      assert Kept(heartbeat, sightings)[k] in sightings;
      var j :| 0 <= j < |sightings| && sightings[j] == Kept(heartbeat, sightings)[k];
      assert Items(sightings)[j] == row;
    }
  }

  lemma {:induction false} SameInOther(stored: seq<Observation>, seen: seq<Observation>, x: Observation)
    returns (row: Observation)
    requires Dedup(PayloadsOf(stored)) == Dedup(PayloadsOf(seen)) && x in seen
    ensures row in stored && row.(observedAt := x.observedAt) == x
  {
    var j :| 0 <= j < |seen| && seen[j] == x;
    assert PayloadsOf(seen)[j] == Payload(x);
    DedupKeepsElements(PayloadsOf(seen), Payload(x));
    DedupKeepsElements(PayloadsOf(stored), Payload(x));
    var k :| 0 <= k < |PayloadsOf(stored)| && PayloadsOf(stored)[k] == Payload(x);
    row := stored[k];
    SameButForTime(row, x);
  }

  // ---------------------------------------------------------------- stored rows are spread out

  /** A later sighting reports its differences from the one before, and possibly a reappearance. */
  predicate ReportsDifferences(id: Identity, previous: Sighting, x: Sighting)
  {
    var differences := FieldChanges(Seen(previous.item), x.item);
    x.changes == differences || x.changes == differences + [Reappeared(id)]
  }

  predicate Chained(id: Identity, sightings: seq<Sighting>)
  {
    sightings == [] ||
    var init, x := sightings[..|sightings| - 1], sightings[|sightings| - 1];
    Chained(id, init) && IdOf(x.item) == id && (init == [] || ReportsDifferences(id, init[|init| - 1], x))
  }

  /** A listing's row shows its last sighting. */
  ghost predicate ShowsLast(t: Tables, id: Identity, sightings: seq<Sighting>)
  {
    && (id in t.listings <==> sightings != [])
    && (sightings != [] ==>
          var last := Seen(sightings[|sightings| - 1].item);
          t.listings[id] == last.(missing := t.listings[id].missing, disappeared := t.listings[id].disappeared))
  }

  lemma {:induction false} SightingsAreChained(ops: seq<Op>, id: Identity)
    ensures Chained(id, Sightings(ops, id)) && ShowsLast(RunFrom(EMPTY_TABLES, ops), id, Sightings(ops, id))
  {
    if ops != [] {
      var before, op := ops[..|ops| - 1], ops[|ops| - 1];
      var t, sightings := RunFrom(EMPTY_TABLES, before), Sightings(before, id);
      SightingsAreChained(before, id);
      if Records(op, id) {
        ChainSnoc(t, id, sightings, LastOf(op.items, id), op.items);
        ShowsRecorded(t, op, id, sightings);
      } else {
        ShowsTheSame(t, op, id, sightings);
        assert sightings + [] == sightings;
      }
    }
  }

  lemma {:induction false} ShowsRecorded(t: Tables, op: Op, id: Identity, sightings: seq<Sighting>)
    requires Records(op, id)
    ensures var item := LastOf(op.items, id);
      ShowsLast(Apply(t, op), id, sightings + [Sighting(item, ItemChanges(t.listings, item))])
  {
    UpsertEffect(t.listings, op.items, id);
  }

  lemma {:induction false} ShowsTheSame(t: Tables, op: Op, id: Identity, sightings: seq<Sighting>)
    requires !Records(op, id) && ShowsLast(t, id, sightings)
    ensures ShowsLast(Apply(t, op), id, sightings)
  {
    if op.RecordOp? {
      UpsertEffect(t.listings, op.items, id);
    }
  }

  lemma ChainSnoc(t: Tables, id: Identity, sightings: seq<Sighting>, item: Observation, items: seq<Observation>)
    requires Chained(id, sightings) && ShowsLast(t, id, sightings) && Mentions(items, id) && item == LastOf(items, id)
    ensures Chained(id, sightings + [Sighting(item, ItemChanges(t.listings, item))])
  {
    var p := LastOfIsIn(items, id);
    var x := Sighting(item, ItemChanges(t.listings, item));
    assert (sightings + [x])[..|sightings|] == sightings;
    if sightings != [] {
      assert Comparisons(t.listings[id], item) == Comparisons(Seen(sightings[|sightings| - 1].item), item);
      assert FieldChanges(t.listings[id], item) + [] == FieldChanges(t.listings[id], item);
    }
  }

  /** Neighbouring kept sightings with one payload are a heartbeat interval apart, unless the later one
      reported that the listing reappeared. */
  predicate SpreadOut(heartbeat: Time, id: Identity, a: Sighting, b: Sighting)
  {
    Payload(a.item) == Payload(b.item) && a.item.observedAt.At? && b.item.observedAt.At? ==>
      b.item.observedAt.t - a.item.observedAt.t >= heartbeat || b.changes == [Reappeared(id)]
  }

  lemma {:induction false} KeptAreSpreadOut(heartbeat: Time, id: Identity, sightings: seq<Sighting>, k: nat)
    requires Chained(id, sightings) && k + 1 < |Kept(heartbeat, sightings)|
    ensures SpreadOut(heartbeat, id, Kept(heartbeat, sightings)[k], Kept(heartbeat, sightings)[k + 1])
  {
    var init, x := sightings[..|sightings| - 1], sightings[|sightings| - 1];
    var before := Kept(heartbeat, init);
    assert sightings == init + [x];
    KeptSnoc(heartbeat, init, x);
    if k + 1 < |before| {
      KeptAreSpreadOut(heartbeat, id, init, k);
    } else {
      LastIsSpreadOut(heartbeat, id, init, x);
    }
  }

  /** A kept sighting that is too close to the kept one before it reported a reappearance. */
  lemma {:induction false} LastIsSpreadOut(heartbeat: Time, id: Identity, init: seq<Sighting>, x: Sighting)
    requires init != [] && ReportsDifferences(id, init[|init| - 1], x)
    requires Kept(heartbeat, init) != [] && !Dropped(heartbeat, Newest(Items(Kept(heartbeat, init))), x)
    ensures SpreadOut(heartbeat, id, Kept(heartbeat, init)[|Kept(heartbeat, init)| - 1], x)
  {
    KeptEndsAlike(heartbeat, init);
    SamePayloadNoDifferences(init[|init| - 1].item, x.item);
  }

  lemma SamePayloadNoDifferences(a: Observation, b: Observation)
    ensures Payload(a) == Payload(b) ==> FieldChanges(Seen(a), b) == []
  {
    NoFieldChanges(Seen(a), b);
  }

  /** Stored rows that repeat a payload are at least one heartbeat interval apart, unless the later one
      was reported as a reappearance: `Kept` names the reports of the stored rows. */
  lemma {:induction false} StoredRowsAreSpreadOut(heartbeat: Time, ops: seq<Op>, id: Identity, k: nat)
    requires OncePerRun(ops) && k + 1 < |Kept(heartbeat, Sightings(ops, id))|
    ensures RowsOf(RunCompact(heartbeat, ops).observations, id) == Items(Kept(heartbeat, Sightings(ops, id)))
    ensures SpreadOut(heartbeat, id, Kept(heartbeat, Sightings(ops, id))[k], Kept(heartbeat, Sightings(ops, id))[k + 1])
  {
    CompactLogIsKept(heartbeat, ops, id);
    SightingsAreChained(ops, id);
    KeptAreSpreadOut(heartbeat, id, Sightings(ops, id), k);
  }

  /** What `active_records` joins fits together: the latest stored row of every listing carries the url,
      title, price, currency and stock of its state row. */
  lemma {:induction false} LatestRowMatchesListing(heartbeat: Time, ops: seq<Op>, id: Identity)
    requires OncePerRun(ops) && id in RunCompact(heartbeat, ops).listings
    ensures var t := RunCompact(heartbeat, ops);
      var latest := LatestRow(t.observations, id);
      latest.Some? &&
      (t.listings[id].url, t.listings[id].title, t.listings[id].price, t.listings[id].currency,
        t.listings[id].inStock) ==
      (latest.value.url, latest.value.title, latest.value.price, latest.value.currency, latest.value.inStock)
  {
    CompactLogIsKept(heartbeat, ops, id);
    CompactionKeepsState(heartbeat, ops);
    SightingsAreChained(ops, id);
    KeptEndsAlike(heartbeat, Sightings(ops, id));
  }
}
