/** What one refresh does to every listing and which disappearances it reports, column by column
    (src/lowpower_llm_cluster/history.py:208-221, :244-310). */
module OneShotRefresh {
  import opened History
  import opened HistoryRuns

  // ---------------------------------------------------------------- the last copy in a batch

  predicate IsCopy(item: Observation, id: Identity)
  {
    item.source == id.source && item.sourceId == id.sourceId
  }

  predicate Listed(items: seq<Observation>, id: Identity)
  {
    exists k :: 0 <= k < |items| && IsCopy(items[k], id)
  }

  predicate LastCopyAt(items: seq<Observation>, k: nat, id: Identity)
  {
    k < |items| && IsCopy(items[k], id) && forall j | k < j < |items| :: !IsCopy(items[j], id)
  }

  /** The row shows this observation as just seen. */
  predicate ShowsAsSeen(row: Listing, item: Observation)
  {
    && (row.url, row.title, row.price, row.currency) == (item.url, item.title, item.price, item.currency)
    && row.inStock == item.inStock && row.lastSeen == item.observedAt && row.missing == 0 && !row.disappeared
  }

  lemma {:induction false} LastCopyWins(items: seq<Observation>, k: nat, id: Identity)
    requires LastCopyAt(items, k, id)
    ensures Mentions(items, id) && LastOf(items, id) == items[k]
  {
    assert IdOf(items[k]) == id;
    if k < |items| - 1 {
      var init := items[..|items| - 1];
      assert forall j | 0 <= j < |init| :: init[j] == items[j];
      LastCopyWins(init, k, id);
      assert !IsCopy(items[|items| - 1], id);
    }
  }

  lemma {:induction false} ListedMeansMentioned(items: seq<Observation>, id: Identity)
    ensures Listed(items, id) <==> Mentions(items, id)
  {
    if k :| 0 <= k < |items| && IsCopy(items[k], id) {
      assert IdOf(items[k]) == id;
    }
    if k :| 0 <= k < |items| && IdOf(items[k]) == id {
      assert IsCopy(items[k], id);
    }
  }

  /** Recording leaves each listing in the batch as its last copy shows it, and every other one alone. */
  lemma {:induction false} RecordedExactly(t: Tables, run: string, items: seq<Observation>, id: Identity)
    ensures var after := Record(t, run, items).listings;
      && (id in after <==> id in t.listings || Listed(items, id))
      && (forall k: nat | LastCopyAt(items, k, id) :: ShowsAsSeen(after[id], items[k]))
      && (id in t.listings && !Listed(items, id) ==> after[id] == t.listings[id])
  {
    UpsertEffect(t.listings, items, id);
    ListedMeansMentioned(items, id);
    forall k: nat | LastCopyAt(items, k, id)
      ensures id in Record(t, run, items).listings && ShowsAsSeen(Record(t, run, items).listings[id], items[k])
    {
      LastCopyWins(items, k, id);
    }
  }

  // ---------------------------------------------------------------- finishing

  /** One more miss is counted, and the count is compared with the threshold; nothing else changes. */
  predicate MissedOnceMore(before: Listing, after: Listing, threshold: int)
  {
    && after.missing == before.missing + 1 && (after.disappeared <==> before.missing + 1 >= threshold)
    && (after.url, after.title, after.price, after.currency) ==
         (before.url, before.title, before.price, before.currency)
    && after.inStock == before.inStock && after.lastSeen == before.lastSeen
  }

  predicate Overlooked(names: seq<string>, seen: SeenIds, id: Identity)
  {
    id.source in names && !(id.source in seen && id.sourceId in seen[id.source])
  }

  lemma FinishedExactly(t: Tables, run: string, names: seq<string>, seen: SeenIds, threshold: int, id: Identity)
    requires threshold >= 1
    ensures var after := Finish(t, run, names, seen, threshold);
      && after.observations == t.observations && (id in after.listings <==> id in t.listings)
      && (id in t.listings ==>
            if Overlooked(names, seen, id) then MissedOnceMore(t.listings[id], after.listings[id], threshold)
            else after.listings[id] == t.listings[id])
  {
  }

  /** A disappearance is reported exactly for a listing that is overlooked, reaches the threshold and had no flag. */
  lemma {:induction false} ReportedExactly(listings: map<Identity, Listing>, names: seq<string>, seen: SeenIds,
        threshold: int, scan: seq<Identity>, change: Change)
    requires IsScan(listings, names, scan)
    ensures change in ScanChanges(listings, seen, threshold, scan) <==>
      && change.Disappeared? && change.id in listings && Overlooked(names, seen, change.id)
      && listings[change.id].missing + 1 >= threshold && !listings[change.id].disappeared
  {
    ScanReports(listings, seen, threshold, scan, change);
  }

  lemma {:induction false} ScanReports(listings: map<Identity, Listing>, seen: SeenIds, threshold: int,
        scan: seq<Identity>,
        change: Change)
    requires forall id | id in scan :: id in listings
    ensures change in ScanChanges(listings, seen, threshold, scan) <==>
      && change.Disappeared? && change.id in scan &&
           !(change.id.source in seen && change.id.sourceId in seen[change.id.source])
      && listings[change.id].missing + 1 >= threshold && !listings[change.id].disappeared
  {
    if scan != [] {
      var init, last := scan[..|scan| - 1], scan[|scan| - 1];
      assert scan == init + [last];
      ScanReports(listings, seen, threshold, init, change);
      assert change in RowChange(listings, seen, threshold, last) <==>
        change == Disappeared(last) && !(last.source in seen && last.sourceId in seen[last.source])
        && listings[last].missing + 1 >= threshold && !listings[last].disappeared;
    }
  }

  // ---------------------------------------------------------------- the one-shot wrapper

  /** The refresh covers the source: it is named, or nothing is named and an item comes from it. */
  predicate Covers(sourceNames: seq<string>, items: seq<Observation>, source: string)
  {
    source in sourceNames || (sourceNames == [] && exists k :: 0 <= k < |items| && items[k].source == source)
  }

  lemma {:induction false} OverlookedByRefresh(sourceNames: seq<string>, items: seq<Observation>, id: Identity)
    ensures Overlooked(NamesOr(sourceNames, items), SeenOf(items), id) <==>
      Covers(sourceNames, items, id.source) && !Listed(items, id)
  {
    if id.source in SeenOf(items) && id.sourceId in SeenOf(items)[id.source] {
      var item :| item in items && item.source == id.source && item.sourceId == id.sourceId;
      var k :| 0 <= k < |items| && items[k] == item;
      assert IsCopy(items[k], id);
    }
    if k :| 0 <= k < |items| && IsCopy(items[k], id) {
      assert items[k] in items && items[k].source in Sources(items);
      assert items[k].sourceId in IdsFrom(items, id.source);
    }
    if k :| 0 <= k < |items| && items[k].source == id.source && sourceNames == [] {
      assert NamesOr(sourceNames, items)[k] == id.source;
    }
  }

  function Refreshed(t: Tables, run: string, items: seq<Observation>, sourceNames: seq<string>, threshold: int): Tables
  {
    Finish(Record(Begin(t, run), run, items), run, NamesOr(sourceNames, items), SeenOf(items), threshold)
  }

  /** After `record_refresh` every listing among the items is present as its last copy shows it, with no missed run;
      every other listing of a covered source has one more missed run; all others are unchanged, and the run is
      finished. */
  lemma {:induction false} RefreshExactly(t: Tables, run: string, items: seq<Observation>, sourceNames: seq<string>,
        threshold: int, id: Identity)
    requires threshold >= 1
    ensures var after := Refreshed(t, run, items, sourceNames, threshold);
      && run in after.runs && after.runs[run].Finished?
      && (id in after.listings <==> id in t.listings || Listed(items, id))
      && (forall k: nat | LastCopyAt(items, k, id) :: ShowsAsSeen(after.listings[id], items[k]))
      && (id in t.listings && !Listed(items, id) ==>
            if Covers(sourceNames, items, id.source) then MissedOnceMore(t.listings[id], after.listings[id], threshold)
            else after.listings[id] == t.listings[id])
  {
    var begun := Begin(t, run);
    var recorded := Record(begun, run, items);
    RecordedExactly(begun, run, items, id);
    OverlookedByRefresh(sourceNames, items, id);
    FinishedExactly(recorded, run, NamesOr(sourceNames, items), SeenOf(items), threshold, id);
    forall k: nat | LastCopyAt(items, k, id)
      ensures Listed(items, id)
    {
    }
  }

  /** ... and it reports the disappearance exactly of those whose missed runs reach the threshold just now; never of a
      listing among the items. */
  lemma {:induction false} RefreshReportsExactly(t: Tables, run: string, items: seq<Observation>,
        sourceNames: seq<string>,
        threshold: int, scan: seq<Identity>, id: Identity)
    requires IsScan(Upsert(t.listings, items), NamesOr(sourceNames, items), scan)
    ensures Disappeared(id) in ScanChanges(Upsert(t.listings, items), SeenOf(items), threshold, scan) <==>
      && id in t.listings && !Listed(items, id) && Covers(sourceNames, items, id.source)
      && t.listings[id].missing + 1 >= threshold && !t.listings[id].disappeared
    ensures Disappeared(id) !in BatchChanges(t.listings, items)
  {
    RecordedExactly(t, run, items, id);
    OverlookedByRefresh(sourceNames, items, id);
    ReportedExactly(Upsert(t.listings, items), NamesOr(sourceNames, items), SeenOf(items), threshold, scan,
      Disappeared(id));
    RecordingReportsNoDisappearance(t.listings, items, id);
  }

  lemma {:induction false} RecordingReportsNoDisappearance(listings: map<Identity, Listing>, items: seq<Observation>,
        id: Identity)
    ensures Disappeared(id) !in BatchChanges(listings, items)
  {
    if items != [] {
      var last := items[|items| - 1];
      RecordingReportsNoDisappearance(listings, items[..|items| - 1], id);
      if IdOf(last) in listings {
        FieldChangesUnrolled(listings[IdOf(last)], last);
      }
    }
  }

  /** A listing with none before, recorded by a refresh, is present afterwards. */
  lemma {:induction false} JustRecordedIsPresent(run: string, item: Observation, threshold: int)
    requires threshold >= 1
    ensures var after := Refreshed(EMPTY_TABLES, run, [item], [], threshold).listings;
      Identity(item.source, item.sourceId) in after && ShowsAsSeen(after[Identity(item.source, item.sourceId)], item)
  {
    var id := Identity(item.source, item.sourceId);
    assert LastCopyAt([item], 0, id);
    RefreshExactly(EMPTY_TABLES, run, [item], [], threshold, id);
  }
}
