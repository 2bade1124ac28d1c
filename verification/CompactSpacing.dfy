/** Which sightings the stored rows vouch for, and how far apart they are, over whole runs of the compacting history
    that may record a listing more than once (src/lowpower_llm_cluster/history_compaction.py:63-83). */
module CompactSpacing {
  import opened Base
  import opened History
  import opened HistoryRuns
  import opened Compaction
  import opened CompactContent
  import opened CompactRuns

  function Stored(heartbeat: Time, ops: seq<Op>, id: Identity): seq<Observation>
  {
    RowsOf(RunCompact(heartbeat, ops).observations, id)
  }

  function Plain(ops: seq<Op>, id: Identity): seq<Observation>
  {
    RowsOf(RunFrom(EMPTY_TABLES, ops).observations, id)
  }

  /** The listing's rows after one call, by what the call does to the stored log. */
  lemma {:induction false} RowsAfterCall(heartbeat: Time, before: seq<Op>, op: Op, id: Identity)
    ensures !Records(op, id) ==>
      Stored(heartbeat, before + [op], id) == Stored(heartbeat, before, id) &&
        Plain(before + [op], id) == Plain(before, id)
    ensures Records(op, id) ==>
      && Plain(before + [op], id) == Plain(before, id) +
           (if HasRow(RunFrom(EMPTY_TABLES, before).observations, op.run, id) then [] else [FirstOf(op.items, id)])
      && Stored(heartbeat, before + [op], id) == StoredAfter(heartbeat, RunCompact(heartbeat, before), op, id)
  {
    var t, rows, plain := RunCompact(heartbeat, before), Stored(heartbeat, before, id), Plain(before, id);
    RunCompactSnoc(heartbeat, before, op);
    RunFromSnoc(before, op);
    assert rows + [] == rows && plain + [] == plain;
    if op.RecordOp? {
      RowsAfterBatch(heartbeat, t, op.run, op.items, id);
      RowsAfterBatch(heartbeat, RunFrom(EMPTY_TABLES, before), op.run, op.items, id);
      RemovableMeans(heartbeat, t, op.items, id);
    }
  }

  function StoredAfter(heartbeat: Time, t: Tables, op: Op, id: Identity): seq<Observation>
    requires Records(op, id)
  {
    if id in RemovableIn(heartbeat, t, op.items) then RowsOutside(t.observations, op.run, id)
    else if HasRow(t.observations, op.run, id) then RowsOf(t.observations, id)
    else RowsOf(t.observations, id) + [FirstOf(op.items, id)]
  }

  /** Without the run's own row, if it has one. */
  lemma {:induction false} OutsideMeans(heartbeat: Time, before: seq<Op>, run: string, id: Identity)
    ensures var t, rows := RunCompact(heartbeat, before), Stored(heartbeat, before, id);
      if HasRow(t.observations, run, id)
      then OwnRow(t.observations, run, id) < |rows| &&
           RowsOutside(t.observations, run, id) == Without(rows, OwnRow(t.observations, run, id))
      else RowsOutside(t.observations, run, id) == rows
  {
    var t := RunCompact(heartbeat, before);
    UniqueAlways(heartbeat, before);
    if HasRow(t.observations, run, id) {
      OwnRowSplits(t.observations, run, id);
    } else {
      OutsideIsAll(t.observations, run, id);
    }
  }

  function Without<X>(rows: seq<X>, k: nat): seq<X>
    requires k < |rows|
  {
    rows[..k] + rows[k + 1..]
  }

  // ---------------------------------------------------------------- witnesses

  predicate Vouched(heartbeat: Time, rows: seq<Observation>, sighting: Observation)
  {
    exists k :: 0 <= k < |rows| && Witnesses(heartbeat, rows[k], sighting)
  }

  predicate AllVouched(heartbeat: Time, rows: seq<Observation>, sightings: seq<Observation>)
  {
    forall j | 0 <= j < |sightings| :: Vouched(heartbeat, rows, sightings[j])
  }

  /** Seen from the tables before the call: a sighting the plain log appends is stored with its time, or has a witness
      if the listing is removable; and a row that goes was nobody's only witness. */
  ghost predicate LeavesWitnesses(heartbeat: Time, t: Tables, plain: Tables, op: Op, id: Identity)
  {
    Records(op, id) ==>
      var rows, appended := RowsOf(t.observations, id), !HasRow(plain.observations, op.run, id);
      if id !in RemovableIn(heartbeat, t, op.items) then appended ==> FirstOf(op.items, id).observedAt.At?
      else if HasRow(t.observations, op.run, id) then
        var k := OwnRow(t.observations, op.run, id);
        k < |rows| && NotOnlyWitness(heartbeat, rows, k, RowsOf(plain.observations, id))
      else appended ==> Vouched(heartbeat, rows, FirstOf(op.items, id))
  }

  predicate NotOnlyWitness(heartbeat: Time, rows: seq<Observation>, k: nat, sightings: seq<Observation>)
    requires k < |rows|
  {
    forall j | 0 <= j < |sightings| && Witnesses(heartbeat, rows[k], sightings[j]) ::
      Vouched(heartbeat, Without(rows, k), sightings[j])
  }

  lemma {:induction false} VouchedWithout(heartbeat: Time, rows: seq<Observation>, k: nat, sighting: Observation)
    requires k < |rows|
    ensures Vouched(heartbeat, rows, sighting) <==>
      Witnesses(heartbeat, rows[k], sighting) || Vouched(heartbeat, Without(rows, k), sighting)
  {
    var fewer := Without(rows, k);
    assert forall i | 0 <= i < |fewer| :: fewer[i] == if i < k then rows[i] else rows[i + 1];
    if i :| 0 <= i < |rows| && Witnesses(heartbeat, rows[i], sighting) && i != k {
      assert fewer[if i < k then i else i - 1] == rows[i];
    }
  }

  lemma {:induction false} WithoutOneExactly(heartbeat: Time, rows: seq<Observation>, k: nat,
        sightings: seq<Observation>)
    requires k < |rows| && AllVouched(heartbeat, rows, sightings)
    ensures AllVouched(heartbeat, Without(rows, k), sightings) <==> NotOnlyWitness(heartbeat, rows, k, sightings)
  {
    forall j | 0 <= j < |sightings|
      ensures Vouched(heartbeat, rows, sightings[j]) <==>
        Witnesses(heartbeat, rows[k], sightings[j]) || Vouched(heartbeat, Without(rows, k), sightings[j])
    {
      VouchedWithout(heartbeat, rows, k, sightings[j]);
    }
  }

  lemma {:induction false} VouchedSnoc(heartbeat: Time, rows: seq<Observation>, row: Observation, sighting: Observation)
    ensures Vouched(heartbeat, rows + [row], sighting) <==>
      Vouched(heartbeat, rows, sighting) || Witnesses(heartbeat, row, sighting)
  {
    var more := rows + [row];
    assert more[|rows|] == row && forall i | 0 <= i < |rows| :: more[i] == rows[i];
  }

  lemma {:induction false} AllVouchedSnoc(heartbeat: Time, rows: seq<Observation>, sightings: seq<Observation>,
        x: Observation)
    ensures AllVouched(heartbeat, rows, sightings + [x]) <==>
      AllVouched(heartbeat, rows, sightings) && Vouched(heartbeat, rows, x)
    ensures AllVouched(heartbeat, rows, sightings) ==> AllVouched(heartbeat, rows + [x], sightings)
  {
    var more := sightings + [x];
    assert more[|sightings|] == x && forall i | 0 <= i < |sightings| :: more[i] == sightings[i];
    forall j | 0 <= j < |sightings| && Vouched(heartbeat, rows, sightings[j])
      ensures Vouched(heartbeat, rows + [x], sightings[j])
    {
      VouchedSnoc(heartbeat, rows, x, sightings[j]);
    }
  }

  predicate Witnessed(heartbeat: Time, ops: seq<Op>, id: Identity)
  {
    AllVouched(heartbeat, Stored(heartbeat, ops, id), Plain(ops, id))
  }

  lemma {:induction false} StepWitnessedExactly(heartbeat: Time, before: seq<Op>, op: Op, id: Identity)
    requires heartbeat > 0.0 && Witnessed(heartbeat, before, id)
    ensures Witnessed(heartbeat, before + [op], id) <==>
      LeavesWitnesses(heartbeat, RunCompact(heartbeat, before), RunFrom(EMPTY_TABLES, before), op, id)
  {
    var rows, plain := Stored(heartbeat, before, id), Plain(before, id);
    RowsAfterCall(heartbeat, before, op, id);
    if Records(op, id) {
      var t, x := RunCompact(heartbeat, before), FirstOf(op.items, id);
      OutsideMeans(heartbeat, before, op.run, id);
      StoredRunsAreRecorded(heartbeat, before, op.run, id);
      AllVouchedSnoc(heartbeat, rows, plain, x);
      AllVouchedSnoc(heartbeat, rows + [x], plain, x);
      VouchedSnoc(heartbeat, rows, x, x);
      assert plain + [] == plain;
      if HasRow(t.observations, op.run, id) {
        WithoutOneExactly(heartbeat, rows, OwnRow(t.observations, op.run, id), plain);
      }
      if Vouched(heartbeat, rows + [x], x) {
        assert x.observedAt.At?;
      }
    }
  }

  /** After every call, each row of the plain log has a witness among the stored rows. */
  predicate WitnessedThroughout(heartbeat: Time, ops: seq<Op>, id: Identity)
  {
    ops == [] || (WitnessedThroughout(heartbeat, ops[..|ops| - 1], id) && Witnessed(heartbeat, ops, id))
  }

  ghost predicate AllLeaveWitnesses(heartbeat: Time, ops: seq<Op>, id: Identity)
  {
    ops == [] ||
    var before := ops[..|ops| - 1];
    && AllLeaveWitnesses(heartbeat, before, id)
    && LeavesWitnesses(heartbeat, RunCompact(heartbeat, before), RunFrom(EMPTY_TABLES, before), ops[|ops| - 1], id)
  }

  /** Over whole runs, however often they record a listing: every sighting has a stored witness throughout if and only
      if every call leaves witnesses. */
  lemma {:induction false} WitnessedThroughoutExactly(heartbeat: Time, ops: seq<Op>, id: Identity)
    requires heartbeat > 0.0
    ensures WitnessedThroughout(heartbeat, ops, id) <==> AllLeaveWitnesses(heartbeat, ops, id)
    ensures WitnessedThroughout(heartbeat, ops, id) ==> Witnessed(heartbeat, ops, id)
  {
    if ops == [] {
      assert Plain([], id) == [];
    } else {
      var before, op := ops[..|ops| - 1], ops[|ops| - 1];
      assert ops == before + [op];
      WitnessedThroughoutExactly(heartbeat, before, id);
      if Witnessed(heartbeat, before, id) {
        StepWitnessedExactly(heartbeat, before, op, id);
      }
    }
  }

  // ---------------------------------------------------------------- distances

  /** Equal payloads are a heartbeat interval apart. */
  predicate Apart(heartbeat: Time, a: Observation, b: Observation)
  {
    Payload(a) == Payload(b) && a.observedAt.At? && b.observedAt.At? ==> b.observedAt.t - a.observedAt.t >= heartbeat
  }

  predicate AllApart(heartbeat: Time, rows: seq<Observation>)
  {
    forall k | 0 <= k < |rows| - 1 :: Apart(heartbeat, rows[k], rows[k + 1])
  }

  /** Seen from the tables before the call: what it stores is apart from the latest row, and the neighbours of a row
      that goes are apart. */
  ghost predicate StaysApart(heartbeat: Time, t: Tables, op: Op, id: Identity)
  {
    Records(op, id) ==>
      var rows := RowsOf(t.observations, id);
      if id !in RemovableIn(heartbeat, t, op.items) then
        !HasRow(t.observations, op.run, id) && rows != [] ==> Apart(heartbeat, rows[|rows| - 1], FirstOf(op.items, id))
      else
        HasRow(t.observations, op.run, id) ==>
          var k := OwnRow(t.observations, op.run, id);
          0 < k < |rows| - 1 ==> Apart(heartbeat, rows[k - 1], rows[k + 1])
  }

  lemma {:induction false} ApartSnoc(heartbeat: Time, rows: seq<Observation>, x: Observation)
    requires AllApart(heartbeat, rows)
    ensures AllApart(heartbeat, rows + [x]) <==> (rows != [] ==> Apart(heartbeat, rows[|rows| - 1], x))
  {
    var more := rows + [x];
    assert more[|rows|] == x && forall i | 0 <= i < |rows| :: more[i] == rows[i];
    if rows != [] && AllApart(heartbeat, more) {
      assert Apart(heartbeat, more[|rows| - 1], more[|rows| - 1 + 1]);
    }
  }

  lemma {:induction false} ApartWithout(heartbeat: Time, rows: seq<Observation>, k: nat)
    requires k < |rows| && AllApart(heartbeat, rows)
    ensures AllApart(heartbeat, Without(rows, k)) <==>
      (0 < k < |rows| - 1 ==> Apart(heartbeat, rows[k - 1], rows[k + 1]))
  {
    var fewer := Without(rows, k);
    assert forall i | 0 <= i < |fewer| :: fewer[i] == if i < k then rows[i] else rows[i + 1];
    if 0 < k < |rows| - 1 && AllApart(heartbeat, fewer) {
      assert Apart(heartbeat, fewer[k - 1], fewer[k - 1 + 1]);
    }
    forall i | 0 <= i < |fewer| - 1 && i != k - 1
      ensures Apart(heartbeat, fewer[i], fewer[i + 1])
    {
      if i < k {
        assert Apart(heartbeat, rows[i], rows[i + 1]);
      } else {
        assert Apart(heartbeat, rows[i + 1], rows[i + 1 + 1]);
      }
    }
  }

  lemma {:induction false} ApartAfterRemoval(heartbeat: Time, before: seq<Op>, op: Op, id: Identity)
    requires AllApart(heartbeat, Stored(heartbeat, before, id))
    requires Records(op, id) && id in RemovableIn(heartbeat, RunCompact(heartbeat, before), op.items)
    ensures AllApart(heartbeat, RowsOutside(RunCompact(heartbeat, before).observations, op.run, id)) <==>
      StaysApart(heartbeat, RunCompact(heartbeat, before), op, id)
  {
    var t := RunCompact(heartbeat, before);
    OutsideMeans(heartbeat, before, op.run, id);
    if HasRow(t.observations, op.run, id) {
      ApartWithout(heartbeat, Stored(heartbeat, before, id), OwnRow(t.observations, op.run, id));
    }
  }

  lemma {:induction false} StepApartExactly(heartbeat: Time, before: seq<Op>, op: Op, id: Identity)
    requires AllApart(heartbeat, Stored(heartbeat, before, id))
    ensures AllApart(heartbeat, Stored(heartbeat, before + [op], id)) <==>
      StaysApart(heartbeat, RunCompact(heartbeat, before), op, id)
  {
    RowsAfterCall(heartbeat, before, op, id);
    if Records(op, id) {
      if id in RemovableIn(heartbeat, RunCompact(heartbeat, before), op.items) {
        ApartAfterRemoval(heartbeat, before, op, id);
      } else {
        ApartSnoc(heartbeat, Stored(heartbeat, before, id), FirstOf(op.items, id));
      }
    }
  }

  predicate ApartThroughout(heartbeat: Time, ops: seq<Op>, id: Identity)
  {
    ops == [] ||
    (ApartThroughout(heartbeat, ops[..|ops| - 1], id) && AllApart(heartbeat, Stored(heartbeat, ops, id)))
  }

  ghost predicate AllStayApart(heartbeat: Time, ops: seq<Op>, id: Identity)
  {
    ops == [] ||
    var before := ops[..|ops| - 1];
    && AllStayApart(heartbeat, before, id)
    && StaysApart(heartbeat, RunCompact(heartbeat, before), ops[|ops| - 1], id)
  }

  /** Over whole runs, however often they record a listing: neighbouring stored rows with one payload are a heartbeat
      interval apart throughout if and only if every call keeps them so. */
  lemma {:induction false} ApartThroughoutExactly(heartbeat: Time, ops: seq<Op>, id: Identity)
    ensures ApartThroughout(heartbeat, ops, id) <==> AllStayApart(heartbeat, ops, id)
    ensures ApartThroughout(heartbeat, ops, id) ==> AllApart(heartbeat, Stored(heartbeat, ops, id))
  {
    if ops == [] {
      assert Stored(heartbeat, [], id) == [];
    } else {
      var before, op := ops[..|ops| - 1], ops[|ops| - 1];
      assert ops == before + [op];
      ApartThroughoutExactly(heartbeat, before, id);
      if AllApart(heartbeat, Stored(heartbeat, before, id)) {
        StepApartExactly(heartbeat, before, op, id);
      }
    }
  }

  /** A call that records one copy keeps it close to a row with its payload only if it reports a change. */
  lemma {:induction false} CloseCopyReportsChange(heartbeat: Time, t: Tables, item: Observation)
    requires var latest := LatestRow(t.observations, IdOf(item));
      latest.Some? && !Apart(heartbeat, latest.value, item) && IdOf(item) !in RemovableIn(heartbeat, t, [item])
    ensures ItemChanges(t.listings, item) != []
  {
    RemovableMeans(heartbeat, t, [item], IdOf(item));
    assert item in [item];
  }
}
