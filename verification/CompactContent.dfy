/** What compaction keeps, exactly: when the stored rows of a listing are the plain ones without repeats, and which
    batches keep its older rows and its content when a run records a listing more than once. */
module CompactContent {
  import opened Base
  import opened History
  import opened HistoryRuns
  import opened Compaction

  // ---------------------------------------------------------------- stored rows without repeats

  predicate SamePayload(a: Sighting, b: Sighting)
  {
    Payload(a.item) == Payload(b.item)
  }

  /** The first sighting of the block of equal payloads at the end. */
  function BlockFirst(sightings: seq<Sighting>): Sighting
    requires sightings != []
  {
    var init, x := sightings[..|sightings| - 1], sightings[|sightings| - 1];
    if init == [] || !SamePayload(init[|init| - 1], x) then x else BlockFirst(init)
  }

  /** Coming after these sightings, x does not repeat the payload before it; or it was reported without a change and
      came less than one heartbeat interval after the first sighting of the block it repeats. */
  predicate QuietAfter(heartbeat: Time, before: seq<Sighting>, x: Sighting)
  {
    before != [] && SamePayload(before[|before| - 1], x) ==> Dropped(heartbeat, Some(BlockFirst(before).item), x)
  }

  predicate QuietRepeats(heartbeat: Time, sightings: seq<Sighting>)
  {
    forall j | 0 <= j < |sightings| :: QuietAfter(heartbeat, sightings[..j], sightings[j])
  }

  lemma QuietRepeatsSnoc(heartbeat: Time, init: seq<Sighting>, x: Sighting)
    ensures QuietRepeats(heartbeat, init + [x]) <==> QuietRepeats(heartbeat, init) && QuietAfter(heartbeat, init, x)
  {
    var all := init + [x];
    assert forall j | 0 <= j < |init| :: all[..j] == init[..j] && all[j] == init[j];
    assert all[..|init|] == init && all[|init|] == x;
  }

  lemma BlockFirstSnoc(init: seq<Sighting>, x: Sighting)
    ensures BlockFirst(init + [x]) == if init == [] || !SamePayload(init[|init| - 1], x) then x else BlockFirst(init)
  {
    assert (init + [x])[..|init|] == init;
  }

  /** What one more sighting does to the kept ones, if the newest kept is the first of the last block. */
  lemma KeepOneMore(heartbeat: Time, init: seq<Sighting>, x: Sighting)
    requires init != [] ==> Newest(Items(Kept(heartbeat, init))) == Some(BlockFirst(init).item)
    ensures NoRepeat(Payloads(Kept(heartbeat, init + [x]))) <==>
      NoRepeat(Payloads(Kept(heartbeat, init))) && QuietAfter(heartbeat, init, x)
    ensures QuietAfter(heartbeat, init, x) ==>
      Newest(Items(Kept(heartbeat, init + [x]))) == Some(BlockFirst(init + [x]).item)
  {
    var kept := Kept(heartbeat, init);
    KeptSnoc(heartbeat, init, x);
    KeptEndsAlike(heartbeat, init);
    PayloadsSnoc(kept, x);
    NoRepeatSnoc(Payloads(kept), Payload(x.item));
    NewestKept(heartbeat, init, x);
    BlockFirstSnoc(init, x);
    if init != [] {
      assert Payloads(kept)[|kept| - 1] == Payload(init[|init| - 1].item);
    }
  }

  lemma KeptNeverUnrepeats(heartbeat: Time, init: seq<Sighting>, x: Sighting)
    ensures NoRepeat(Payloads(Kept(heartbeat, init + [x]))) ==> NoRepeat(Payloads(Kept(heartbeat, init)))
  {
    var kept := Kept(heartbeat, init);
    KeptSnoc(heartbeat, init, x);
    PayloadsSnoc(kept, x);
    NoRepeatSnoc(Payloads(kept), Payload(x.item));
  }

  /** As long as repeats are quiet, the newest kept sighting is the first of the last block. */
  lemma {:induction false} KeptHasNoRepeatExactly(heartbeat: Time, sightings: seq<Sighting>)
    ensures NoRepeat(Payloads(Kept(heartbeat, sightings))) <==> QuietRepeats(heartbeat, sightings)
    ensures sightings != [] && QuietRepeats(heartbeat, sightings) ==>
      Newest(Items(Kept(heartbeat, sightings))) == Some(BlockFirst(sightings).item)
  {
    if sightings != [] {
      var init, x := sightings[..|sightings| - 1], sightings[|sightings| - 1];
      assert sightings == init + [x];
      KeptHasNoRepeatExactly(heartbeat, init);
      QuietRepeatsSnoc(heartbeat, init, x);
      if QuietRepeats(heartbeat, init) {
        KeepOneMore(heartbeat, init, x);
      } else {
        KeptNeverUnrepeats(heartbeat, init, x);
      }
    }
  }

  lemma NewestKept(heartbeat: Time, init: seq<Sighting>, x: Sighting)
    ensures var kept := Kept(heartbeat, init);
      Newest(Items(Kept(heartbeat, init + [x]))) ==
      if Dropped(heartbeat, Newest(Items(kept)), x) then Newest(Items(kept)) else Some(x.item)
  {
    KeptFollowsRule(heartbeat, init, x);
  }

  /** With each listing recorded at most once per run, its stored payloads are the plain history's with consecutive
      repeats removed if and only if every sighting that repeats the payload before it was reported without a
      change, hence is no reappearance, and came within the heartbeat interval of the first of its block. */
  lemma {:induction false} StoredIsDeduplicatedExactly(heartbeat: Time, ops: seq<Op>, id: Identity)
    requires OncePerRun(ops)
    ensures var stored, full := PayloadsOf(RowsOf(RunCompact(heartbeat, ops).observations, id)),
      PayloadsOf(RowsOf(RunFrom(EMPTY_TABLES, ops).observations, id));
      stored == Dedup(full) <==> QuietRepeats(heartbeat, Sightings(ops, id))
  {
    var kept := Kept(heartbeat, Sightings(ops, id));
    CompactionLosesNoContent(heartbeat, ops, id);
    CompactLogIsKept(heartbeat, ops, id);
    assert PayloadsOf(Items(kept)) == Payloads(kept);
    DedupChangesNothingExactly(Payloads(kept));
    KeptHasNoRepeatExactly(heartbeat, Sightings(ops, id));
  }

  lemma RunCompactSnoc(heartbeat: Time, ops: seq<Op>, op: Op)
    ensures RunCompact(heartbeat, ops + [op]) == ApplyCompact(heartbeat, RunCompact(heartbeat, ops), op)
  {
    assert (ops + [op])[..|ops|] == ops;
  }

  lemma FirstSightingIsStored(heartbeat: Time, run: string, item: Observation)
    ensures CompactRecord(heartbeat, EMPTY_TABLES, run, [item]).observations == [ObsRow(run, item)]
    ensures CompactRecord(heartbeat, EMPTY_TABLES, run, [item]).listings == map[IdOf(item) := Seen(item)]
  {
    var items, rows := [item], [ObsRow(run, item)];
    assert items[..|items| - 1] == [] && rows[..|rows| - 1] == [];
    OnlyCopy(items, IdOf(item), 0);
    RemovableWhenQuietRepeat(heartbeat, EMPTY_TABLES, items, IdOf(item));
    assert InsertRows([], run, items) == rows;
    assert Upsert(map[], items) == map[IdOf(item) := Seen(item)];
    DeleteOther(rows[0], run, RemovableIn(heartbeat, EMPTY_TABLES, items));
  }

  lemma DeleteOther(row: ObsRow, run: string, ids: seq<Identity>)
    requires IdOf(row.item) !in ids
    ensures DeleteRows([row], run, ids) == [row]
  {
    assert [row][..|[row]| - 1] == [];
  }

  lemma SightingsOfTwo(a: Op, b: Op, id: Identity)
    requires a.RecordOp? && b.RecordOp? && Mentions(a.items, id) && Mentions(b.items, id)
    ensures Sightings([a] + [b], id) ==
      [Sighting(LastOf(a.items, id), ItemChanges(map[], LastOf(a.items, id))),
       Sighting(LastOf(b.items, id), ItemChanges(Record(EMPTY_TABLES, a.run, a.items).listings, LastOf(b.items, id)))]
  {
    var ops := [a] + [b];
    assert ops[..1] == [a] && [a][..0] == [] && RunFrom(EMPTY_TABLES, []) == EMPTY_TABLES;
    assert RunFrom(EMPTY_TABLES, [a]) == Record(EMPTY_TABLES, a.run, a.items);
    assert Sightings([a], id) == [Sighting(LastOf(a.items, id), ItemChanges(map[], LastOf(a.items, id)))];
  }

  lemma TwoRunsOnce(first: string, second: string, a: Observation, b: Observation)
    requires first != second
    ensures OncePerRun([RecordOp(first, [a])] + [RecordOp(second, [b])])
  {
    var one, ops := [RecordOp(first, [a])], [RecordOp(first, [a])] + [RecordOp(second, [b])];
    assert ops[..|ops| - 1] == one && one[..|one| - 1] == [] && OncePerRun([]);
    assert !WasRecorded([], first, IdOf(a)) && !WasRecorded(one, second, IdOf(b));
    assert DistinctIds([a]) && DistinctIds([b]);
  }

  /** The counterexample: the same listing seen twice, one heartbeat interval apart, is stored twice. */
  lemma {:induction false} HeartbeatIsStoredTwice(heartbeat: Time, first: string, second: string, item: Observation)
    requires first != second && item.observedAt.At?
    ensures var later := item.(observedAt := At(item.observedAt.t + heartbeat));
      var ops := [RecordOp(first, [item])] + [RecordOp(second, [later])];
      && OncePerRun(ops)
      && PayloadsOf(RowsOf(RunCompact(heartbeat, ops).observations, IdOf(item))) !=
           Dedup(PayloadsOf(RowsOf(RunFrom(EMPTY_TABLES, ops).observations, IdOf(item))))
  {
    var later := item.(observedAt := At(item.observedAt.t + heartbeat));
    var a, b := RecordOp(first, [item]), RecordOp(second, [later]);
    var id := IdOf(item);
    TwoRunsOnce(first, second, item, later);
    OnlyCopy([item], id, 0);
    OnlyCopy([later], id, 0);
    SightingsOfTwo(a, b, id);
    var sightings := Sightings([a] + [b], id);
    assert sightings[0].item == item && sightings[1].item == later;
    assert sightings[..1] == [sightings[0]] && BlockFirst([sightings[0]]) == sightings[0];
    assert !QuietAfter(heartbeat, sightings[..1], sightings[1]);
    StoredIsDeduplicatedExactly(heartbeat, [a] + [b], id);
  }

  // ---------------------------------------------------------------- one batch, any tables

  function FirstOf(items: seq<Observation>, id: Identity): Observation
    requires Mentions(items, id)
  {
    if IdOf(items[0]) == id then items[0] else
      assert Mentions(items[1..], id) by {
        var k :| 0 <= k < |items| && IdOf(items[k]) == id;
        assert items[1..][k - 1] == items[k];
      }
      FirstOf(items[1..], id)
  }

  lemma {:induction false} FirstOfSnoc(init: seq<Observation>, last: Observation, id: Identity)
    ensures Mentions(init + [last], id) <==> Mentions(init, id) || IdOf(last) == id
    ensures Mentions(init, id) ==> FirstOf(init + [last], id) == FirstOf(init, id)
    ensures !Mentions(init, id) && IdOf(last) == id ==> FirstOf(init + [last], id) == last
  {
    var items := init + [last];
    assert items[|init|] == last && forall k | 0 <= k < |init| :: items[k] == init[k];
    if init != [] && IdOf(init[0]) != id {
      assert items[1..] == init[1..] + [last];
      FirstOfSnoc(init[1..], last, id);
      MentionsTail(init, id);
      MentionsTail(items, id);
    }
  }

  lemma MentionsTail(items: seq<Observation>, id: Identity)
    requires items != [] && IdOf(items[0]) != id
    ensures Mentions(items, id) <==> Mentions(items[1..], id)
  {
    assert forall k | 0 <= k < |items| - 1 :: items[1..][k] == items[k + 1];
    if k :| 0 <= k < |items| && IdOf(items[k]) == id {
      assert IdOf(items[1..][k - 1]) == id;
    }
  }

  /** INSERT OR IGNORE adds the first copy, if the run does not hold the listing yet. */
  lemma {:induction false} InsertKeepsFirst(observations: seq<ObsRow>, run: string, items: seq<Observation>,
        id: Identity)
    ensures RowsOf(InsertRows(observations, run, items), id) ==
      RowsOf(observations, id) + if Mentions(items, id) && !HasRow(observations, run, id) then [FirstOf(items, id)]
        else []
    ensures RowsOutside(InsertRows(observations, run, items), run, id) == RowsOutside(observations, run, id)
    ensures HasRow(InsertRows(observations, run, items), run, id) <==>
      HasRow(observations, run, id) || Mentions(items, id)
  {
    if items != [] {
      var init, last := items[..|items| - 1], items[|items| - 1];
      assert items == init + [last];
      InsertKeepsFirst(observations, run, init, id);
      FirstOfSnoc(init, last, id);
      InsertOne(InsertRows(observations, run, init), run, last, id);
    }
  }

  /** A batch makes a listing removable exactly when no copy of it reports a change and some copy repeats the
      latest stored row inside the heartbeat interval. */
  lemma RemovableMeans(heartbeat: Time, t: Tables, items: seq<Observation>, id: Identity)
    ensures id in RemovableIn(heartbeat, t, items) <==>
      && (forall item | item in items && IdOf(item) == id :: ItemChanges(t.listings, item) == [])
      && exists item :: item in items && IdOf(item) == id && Repeats(heartbeat, LatestRow(t.observations, id), item)
  {
    ChangedMeansChanges(t.listings, items, id);
    RemovableExactly(heartbeat, t, items, ChangedIds(BatchChanges(t.listings, items)), id);
  }

  /** The listing's rows after a batch, without and with compaction. */
  lemma RowsAfterBatch(heartbeat: Time, t: Tables, run: string, items: seq<Observation>, id: Identity)
    ensures RowsOf(Record(t, run, items).observations, id) ==
      RowsOf(t.observations, id) + if Mentions(items, id) && !HasRow(t.observations, run, id) then [FirstOf(items, id)]
        else []
    ensures RowsOf(CompactRecord(heartbeat, t, run, items).observations, id) ==
      if id in RemovableIn(heartbeat, t, items) then RowsOutside(t.observations, run, id)
        else RowsOf(Record(t, run, items).observations, id)
  {
    InsertKeepsFirst(t.observations, run, items, id);
    RowsAfterDelete(InsertRows(t.observations, run, items), run, RemovableIn(heartbeat, t, items), id);
  }

  lemma {:induction false} OutsideIsFewer(observations: seq<ObsRow>, run: string, id: Identity)
    ensures |RowsOutside(observations, run, id)| <= |RowsOf(observations, id)|
    ensures HasRow(observations, run, id) ==> |RowsOutside(observations, run, id)| < |RowsOf(observations, id)|
  {
    if observations != [] {
      var init, last := observations[..|observations| - 1], observations[|observations| - 1];
      OutsideIsFewer(init, run, id);
      HasRowSnoc(init, last, run, id);
      assert observations == init + [last];
    }
  }

  /** A batch keeps a listing's older rows if and only if the listing is not removable or the run does not hold
      it yet: the DELETE is keyed by run and hits the run's older row as well. */
  lemma OlderRowsSurviveExactly(heartbeat: Time, t: Tables, run: string, items: seq<Observation>, id: Identity)
    ensures RowsOf(t.observations, id) <= RowsOf(CompactRecord(heartbeat, t, run, items).observations, id) <==>
      !(HasRow(t.observations, run, id) && id in RemovableIn(heartbeat, t, items))
  {
    RowsAfterBatch(heartbeat, t, run, items, id);
    OutsideIsFewer(t.observations, run, id);
    if !HasRow(t.observations, run, id) {
      OutsideIsAll(t.observations, run, id);
    }
  }

  // ---------------------------------------------------------------- taking a row out of a log

  /** What Dedup makes of a continuation depends only on what it made of the beginning. */
  lemma {:induction false} DedupContinues<X>(p: seq<X>, q: seq<X>, more: seq<X>)
    requires Dedup(p) == Dedup(q)
    ensures Dedup(p + more) == Dedup(q + more)
  {
    if more == [] {
      assert p + more == p && q + more == q;
    } else {
      var init, x := more[..|more| - 1], more[|more| - 1];
      DedupContinues(p, q, init);
      assert p + more == (p + init) + [x] && q + more == (q + init) + [x];
      DedupSnoc(p + init, x);
      DedupSnoc(q + init, x);
    }
  }

  lemma {:induction false} DedupLengthSnoc<X>(xs: seq<X>, x: X)
    ensures |Dedup(xs + [x])| == |Dedup(xs)| + if xs != [] && xs[|xs| - 1] == x then 0 else 1
  {
    DedupSnoc(xs, x);
    DedupEndsAlike(xs);
  }

  lemma {:induction false} DedupLength<X>(p: seq<X>, more: seq<X>)
    requires more != []
    ensures |Dedup(p + more)| == |Dedup(p)| + |Dedup(more)| - if p != [] && p[|p| - 1] == more[0] then 1 else 0
  {
    var init, x := more[..|more| - 1], more[|more| - 1];
    assert p + more == (p + init) + [x] && more == init + [x];
    DedupLengthSnoc(p + init, x);
    DedupLengthSnoc(init, x);
    if init == [] {
      assert p + init == p && Dedup(init) == [];
    } else {
      DedupLength(p, init);
    }
  }

  lemma {:induction false} TakingOutRepeat<X>(a: seq<X>, x: X, b: seq<X>)
    requires a != [] && a[|a| - 1] == x
    ensures Dedup(a + b) == Dedup(a + [x] + b)
  {
    DedupSnoc(a, x);
    DedupEndsAlike(a);
    DedupContinues(a, a + [x], b);
  }

  lemma {:induction false} TakingOutRepeated<X>(a: seq<X>, x: X, b: seq<X>)
    requires b != [] && b[0] == x
    ensures Dedup(a + b) == Dedup(a + [x] + b)
  {
    var c := b[1..];
    assert (a + [x])[|a + [x]| - 1] == x && b == [x] + c;
    TakingOutRepeat(a + [x], x, c);
    Associative(a, [x], c);
    Associative(a + [x], [x], c);
  }

  lemma {:induction false} TakingOutOther<X>(a: seq<X>, x: X, b: seq<X>)
    requires (a != [] ==> a[|a| - 1] != x) && (b != [] ==> b[0] != x)
    ensures |Dedup(a + b)| < |Dedup(a + [x] + b)|
  {
    DedupSnoc(a, x);
    DedupEndsAlike(a);
    if b == [] {
      assert a + b == a && a + [x] + b == a + [x];
    } else {
      DedupLength(a, b);
      DedupLength(a + [x], b);
    }
  }

  /** Taking out an element loses no content exactly when it equals a neighbour. */
  lemma {:induction false} TakingOutExactly<X>(a: seq<X>, x: X, b: seq<X>)
    ensures Dedup(a + b) == Dedup(a + [x] + b) <==> (a != [] && a[|a| - 1] == x) || (b != [] && b[0] == x)
  {
    if a != [] && a[|a| - 1] == x {
      TakingOutRepeat(a, x, b);
    } else if b != [] && b[0] == x {
      TakingOutRepeated(a, x, b);
    } else {
      TakingOutOther(a, x, b);
    }
  }

  // ---------------------------------------------------------------- content

  /** UNIQUE(run_id, source, source_id). */
  predicate UniqueRows(observations: seq<ObsRow>)
  {
    observations == [] ||
    var init, last := observations[..|observations| - 1], observations[|observations| - 1];
    UniqueRows(init) && !HasRow(init, last.run, IdOf(last.item))
  }

  /** Where the run's own row stands among the listing's rows. */
  function OwnRow(observations: seq<ObsRow>, run: string, id: Identity): nat
    requires HasRow(observations, run, id)
  {
    var init, last := observations[..|observations| - 1], observations[|observations| - 1];
    if last.run == run && IdOf(last.item) == id then |RowsOf(init, id)| else
      assert HasRow(init, run, id) by {
        assert observations == init + [last];
        HasRowSnoc(init, last, run, id);
      }
      OwnRow(init, run, id)
  }

  lemma {:induction false} OwnRowSplits(observations: seq<ObsRow>, run: string, id: Identity)
    requires UniqueRows(observations) && HasRow(observations, run, id)
    ensures var rows, k := RowsOf(observations, id), OwnRow(observations, run, id);
      k < |rows| && RowsOutside(observations, run, id) == rows[..k] + rows[k + 1..]
  {
    var init, last := observations[..|observations| - 1], observations[|observations| - 1];
    if last.run == run && IdOf(last.item) == id {
      OutsideIsAll(init, run, id);
    } else {
      assert observations == init + [last];
      HasRowSnoc(init, last, run, id);
      OwnRowSplits(init, run, id);
      if IdOf(last.item) == id {
        SplitSnoc(RowsOf(init, id), OwnRow(init, run, id), last.item);
      }
    }
  }

  lemma SplitSnoc(rows: seq<Observation>, k: nat, item: Observation)
    requires k < |rows|
    ensures (rows + [item])[..k] + (rows + [item])[k + 1..] == rows[..k] + rows[k + 1..] + [item]
  {
  }

  predicate EqualsNeighbour(rows: seq<Observation>, k: nat)
    requires k < |rows|
  {
    || (k > 0 && Payload(rows[k - 1]) == Payload(rows[k]))
    || (k + 1 < |rows| && Payload(rows[k + 1]) == Payload(rows[k]))
  }

  /** Nothing is lost when the listing's removable rows go: the run's older row equals a neighbour, or, when the run
      held none, the first copy in the batch equals the latest row. */
  ghost predicate Dispensable(t: Tables, run: string, items: seq<Observation>, id: Identity)
  {
    if HasRow(t.observations, run, id) then
      var rows, k := RowsOf(t.observations, id), OwnRow(t.observations, run, id);
      k < |rows| && EqualsNeighbour(rows, k)
    else
      var latest := LatestRow(t.observations, id);
      Mentions(items, id) && latest.Some? && Payload(FirstOf(items, id)) == Payload(latest.value)
  }

  ghost predicate SameContent(heartbeat: Time, t: Tables, run: string, items: seq<Observation>, id: Identity)
  {
    Dedup(PayloadsOf(RowsOf(CompactRecord(heartbeat, t, run, items).observations, id))) ==
    Dedup(PayloadsOf(RowsOf(Record(t, run, items).observations, id)))
  }

  lemma PayloadsConcat(a: seq<Observation>, b: seq<Observation>)
    ensures PayloadsOf(a + b) == PayloadsOf(a) + PayloadsOf(b)
  {
  }

  lemma {:induction false} TakingOutAt<X>(xs: seq<X>, k: nat)
    requires k < |xs|
    ensures Dedup(xs[..k] + xs[k + 1..]) == Dedup(xs) <==>
      (k > 0 && xs[k - 1] == xs[k]) || (k + 1 < |xs| && xs[k + 1] == xs[k])
  {
    var a, x, b := xs[..k], xs[k], xs[k + 1..];
    assert a != [] ==> a[|a| - 1] == xs[k - 1];
    assert b != [] ==> b[0] == xs[k + 1];
    PutBack(xs, k);
    TakingOutExactly(a, x, b);
  }

  lemma PutBack<X>(xs: seq<X>, k: nat)
    requires k < |xs|
    ensures xs[..k] + [xs[k]] + xs[k + 1..] == xs
  {
  }

  lemma PayloadsWithout(rows: seq<Observation>, k: nat)
    requires k < |rows|
    ensures PayloadsOf(rows[..k] + rows[k + 1..]) == PayloadsOf(rows)[..k] + PayloadsOf(rows)[k + 1..]
  {
  }

  lemma {:induction false} TakingOutRow(rows: seq<Observation>, k: nat)
    requires k < |rows|
    ensures Dedup(PayloadsOf(rows[..k] + rows[k + 1..])) == Dedup(PayloadsOf(rows)) <==> EqualsNeighbour(rows, k)
  {
    PayloadsWithout(rows, k);
    TakingOutAt(PayloadsOf(rows), k);
  }

  lemma {:induction false} OwnRowGoes(observations: seq<ObsRow>, run: string, id: Identity)
    requires UniqueRows(observations) && HasRow(observations, run, id)
    ensures var rows, k := RowsOf(observations, id), OwnRow(observations, run, id);
      k < |rows| && (Dedup(PayloadsOf(RowsOutside(observations, run, id))) == Dedup(PayloadsOf(rows)) <==>
        EqualsNeighbour(rows, k))
  {
    OwnRowSplits(observations, run, id);
    TakingOutRow(RowsOf(observations, id), OwnRow(observations, run, id));
  }

  lemma {:induction false} FirstCopyGoes(rows: seq<Observation>, first: Observation)
    ensures Dedup(PayloadsOf(rows)) == Dedup(PayloadsOf(rows + [first])) <==>
      rows != [] && Payload(rows[|rows| - 1]) == Payload(first)
  {
    PayloadsConcat(rows, [first]);
    TakingOutExactly(PayloadsOf(rows), Payload(first), []);
    assert PayloadsOf(rows) + [] == PayloadsOf(rows);
    assert PayloadsOf(rows) + [Payload(first)] + [] == PayloadsOf(rows) + [Payload(first)];
  }

  /** Content, for one batch recorded in any run on any tables: compaction stores the same payloads of a listing as the
      plain method would on these tables, up to consecutive repeats, if and only if the listing is not removable or
      its removable rows are dispensable.  Over a run whose calls all meet the condition nothing is lost
      (`CompactRuns.SparingRunsKeepContent`), but the stored log can hold more than the plain history
      (`CompactRuns.StoredLogCanHoldMore`), which dropped nothing and so ignores a later sighting of the run. */
  lemma {:induction false} ContentKeptExactly(heartbeat: Time, t: Tables, run: string, items: seq<Observation>,
        id: Identity)
    requires UniqueRows(t.observations)
    ensures SameContent(heartbeat, t, run, items, id) <==>
      id !in RemovableIn(heartbeat, t, items) || Dispensable(t, run, items, id)
  {
    RowsAfterBatch(heartbeat, t, run, items, id);
    if id in RemovableIn(heartbeat, t, items) {
      RemovableMeans(heartbeat, t, items, id);
      assert Mentions(items, id);
      if HasRow(t.observations, run, id) {
        OwnRowGoes(t.observations, run, id);
        assert RowsOf(t.observations, id) + [] == RowsOf(t.observations, id);
      } else {
        OutsideIsAll(t.observations, run, id);
        FirstCopyGoes(RowsOf(t.observations, id), FirstOf(items, id));
      }
    }
  }

  // ---------------------------------------------------------------- the tables of every run

  lemma {:induction false} DeleteKeepsUnique(observations: seq<ObsRow>, run: string, ids: seq<Identity>)
    requires UniqueRows(observations)
    ensures UniqueRows(DeleteRows(observations, run, ids))
    ensures forall r, id :: HasRow(DeleteRows(observations, run, ids), r, id) ==> HasRow(observations, r, id)
  {
    if observations != [] {
      var init, last := observations[..|observations| - 1], observations[|observations| - 1];
      var left := DeleteRows(init, run, ids);
      DeleteKeepsUnique(init, run, ids);
      assert (left + [last])[..|left|] == left && left + [] == left;
      forall r, id | HasRow(DeleteRows(observations, run, ids), r, id)
        ensures HasRow(observations, r, id)
      {
        DeletedRowsWereThere(observations, run, ids, r, id);
      }
    }
  }

  lemma {:induction false} InsertKeepsUnique(observations: seq<ObsRow>, run: string, items: seq<Observation>)
    requires UniqueRows(observations)
    ensures UniqueRows(InsertRows(observations, run, items))
  {
    if items != [] {
      var rows, last := InsertRows(observations, run, items[..|items| - 1]), items[|items| - 1];
      InsertKeepsUnique(observations, run, items[..|items| - 1]);
      assert (rows + [ObsRow(run, last)])[..|rows|] == rows;
    }
  }

  /** Every run of the compacting history keeps the UNIQUE constraint, so `ContentKeptExactly` speaks about each of
      its calls. */
  lemma {:induction false} UniqueAlways(heartbeat: Time, ops: seq<Op>)
    ensures UniqueRows(RunCompact(heartbeat, ops).observations)
  {
    if ops != [] {
      var t, op := RunCompact(heartbeat, ops[..|ops| - 1]), ops[|ops| - 1];
      UniqueAlways(heartbeat, ops[..|ops| - 1]);
      if op.RecordOp? {
        InsertKeepsUnique(t.observations, op.run, op.items);
        DeleteKeepsUnique(InsertRows(t.observations, op.run, op.items), op.run, RemovableIn(heartbeat, t, op.items));
      }
    }
  }

  // ---------------------------------------------------------------- where content is lost

  lemma AfterFirst(heartbeat: Time, run: string, item: Observation)
    ensures var t := RunCompact(heartbeat, [RecordOp(run, [item])]);
      t.observations == [ObsRow(run, item)] && t.listings == map[IdOf(item) := Seen(item)]
    ensures RowsOf([ObsRow(run, item)], IdOf(item)) == [item] && UniqueRows([ObsRow(run, item)])
  {
    var op, rows := RecordOp(run, [item]), [ObsRow(run, item)];
    assert [] + [op] == [op] && rows[..0] == [];
    RunCompactSnoc(heartbeat, [], op);
    FirstSightingIsStored(heartbeat, run, item);
  }

  lemma RepeatIsRemovable(heartbeat: Time, t: Tables, items: seq<Observation>, item: Observation)
    requires heartbeat > 0.0 && item.observedAt.At? && item in items
    requires t.listings == map[IdOf(item) := Seen(item)] && LatestRow(t.observations, IdOf(item)) == Some(item)
    requires forall other | other in items :: IdOf(other) == IdOf(item) && SameFields(Seen(item), other)
    ensures IdOf(item) in RemovableIn(heartbeat, t, items)
  {
    forall other | other in items
      ensures ItemChanges(t.listings, other) == []
    {
      NoFieldChanges(Seen(item), other);
    }
    RemovableMeans(heartbeat, t, items, IdOf(item));
  }

  /** The same sighting recorded twice in one run leaves no row at all: its content is lost. */
  lemma SecondSightingInRunErasesFirst(heartbeat: Time, run: string, item: Observation)
    requires heartbeat > 0.0 && item.observedAt.At?
    ensures var op := RecordOp(run, [item]);
      && RowsOf(RunCompact(heartbeat, [op] + [op]).observations, IdOf(item)) == []
      && !SameContent(heartbeat, RunCompact(heartbeat, [op]), run, [item], IdOf(item))
  {
    var op, id, items, rows := RecordOp(run, [item]), IdOf(item), [item], [ObsRow(run, item)];
    var once := RunCompact(heartbeat, [op]);
    RunCompactSnoc(heartbeat, [op], op);
    AfterFirst(heartbeat, run, item);
    assert rows[0].run == run;
    RepeatIsRemovable(heartbeat, once, items, item);
    RowsAfterBatch(heartbeat, once, run, items, id);
    OwnRowSplits(rows, run, id);
    OwnRowGoes(rows, run, id);
    assert [item] + [] == [item];
  }

  /** A batch of two copies in a run that does not hold the listing yet; the second repeats the only stored row. */
  lemma TwoCopiesLeaveOne(heartbeat: Time, t: Tables, first: string, second: string, item: Observation,
        other: Observation)
    requires heartbeat > 0.0 && item.observedAt.At? && first != second && IdOf(other) == IdOf(item) &&
      SameFields(Seen(item), other)
    requires t.observations == [ObsRow(first, item)] && t.listings == map[IdOf(item) := Seen(item)]
    requires RowsOf(t.observations, IdOf(item)) == [item]
    ensures RowsOf(Record(t, second, [other, item]).observations, IdOf(item)) == [item] + [other]
    ensures RowsOf(CompactRecord(heartbeat, t, second, [other, item]).observations, IdOf(item)) == [item]
  {
    var id, batch := IdOf(item), [other, item];
    assert batch[0] == other && batch[1] == item;
    assert Mentions(batch, id) && FirstOf(batch, id) == other && !HasRow(t.observations, second, id);
    RepeatIsRemovable(heartbeat, t, batch, item);
    RowsAfterBatch(heartbeat, t, second, batch, id);
    OutsideIsAll(t.observations, second, id);
  }

  /** Two copies in one batch of a fresh run: the first, which differs in a field that is stored but not compared, is
      inserted; the second repeats the latest row; the DELETE takes the first one's row. */
  lemma DuplicateInBatchErasesFirst(heartbeat: Time, first: string, second: string, item: Observation,
        shipping: Option<real>)
    requires heartbeat > 0.0 && item.observedAt.At? && first != second && shipping != item.shipping
    ensures var t, batch := RunCompact(heartbeat, [RecordOp(first, [item])]), [item.(shipping := shipping), item];
      && RowsOf(Record(t, second, batch).observations, IdOf(item)) == [item] + [item.(shipping := shipping)]
      && RowsOf(CompactRecord(heartbeat, t, second, batch).observations, IdOf(item)) == [item]
      && !SameContent(heartbeat, t, second, batch, IdOf(item))
  {
    var other := item.(shipping := shipping);
    AfterFirst(heartbeat, first, item);
    TwoCopiesLeaveOne(heartbeat, RunCompact(heartbeat, [RecordOp(first, [item])]), first, second, item, other);
    FirstCopyGoes([item], other);
  }
}
