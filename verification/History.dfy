/** The refresh history (src/lowpower_llm_cluster/history.py:73-310): runs, an observation log, and one
    state row per listing.  `CatalogHistory` changes its tables in place; each method is proved against a
    function on `Tables` values. */
module History {
  import opened Base

  /** `observed_at`: a time, or text that does not parse as one. */
  datatype Stamp = At(t: Time) | Unparsable(text: string)

  /** A product observation; `extra` stands for the fields only the payload carries. */
  datatype Observation = Observation(
    source: string, sourceId: string, url: string, title: string, price: Option<real>, currency: string,
    shipping: Option<real>, inStock: Option<bool>, extra: string, observedAt: Stamp)

  datatype Identity = Identity(source: string, sourceId: string)

  function IdOf(item: Observation): Identity
  {
    Identity(item.source, item.sourceId)
  }

  /** A row of `observations`; its other columns are columns of the item. */
  datatype ObsRow = ObsRow(run: string, item: Observation)

  /** A row of `listing_state`. */
  datatype Listing = Listing(
    url: string, title: string, price: Option<real>, currency: string, inStock: Option<bool>,
    lastSeen: Stamp, missing: nat, disappeared: bool)

  datatype Change =
    | PriceChanged(id: Identity, oldPrice: Option<real>, newPrice: Option<real>)
    | CurrencyChanged(id: Identity, oldCurrency: string, newCurrency: string)
    | TitleChanged(id: Identity, oldTitle: string, newTitle: string)
    | StockChanged(id: Identity, oldStock: Option<bool>, newStock: Option<bool>)
    | Reappeared(id: Identity)
    | Disappeared(id: Identity)

  datatype RunState = InProgress | Finished | Aborted

  datatype Tables = Tables(runs: map<string, RunState>, observations: seq<ObsRow>, listings: map<Identity, Listing>)

  const EMPTY_TABLES := Tables(map[], [], map[])

  // ---------------------------------------------------------------- recording a batch

  /** The four comparisons, in the order they are made. */
  function Comparisons(previous: Listing, item: Observation): seq<Change>
  {
    [PriceChanged(IdOf(item), previous.price, item.price),
     CurrencyChanged(IdOf(item), previous.currency, item.currency),
     TitleChanged(IdOf(item), previous.title, item.title), StockChanged(IdOf(item), previous.inStock, item.inStock)]
  }

  predicate Differs(change: Change)
  {
    match change
    case PriceChanged(_, old_, new_) => old_ != new_
    case CurrencyChanged(_, old_, new_) => old_ != new_
    case TitleChanged(_, old_, new_) => old_ != new_
    case StockChanged(_, old_, new_) => old_ != new_
    case _ => true
  }

  function Differing(comparisons: seq<Change>): seq<Change>
  {
    if comparisons == [] then [] else
      (if Differs(comparisons[0]) then [comparisons[0]] else []) + Differing(comparisons[1..])
  }

  function FieldChanges(previous: Listing, item: Observation): seq<Change>
  {
    Differing(Comparisons(previous, item))
  }

  function ItemChanges(listings: map<Identity, Listing>, item: Observation): seq<Change>
  {
    if IdOf(item) !in listings then [] else
      var previous := listings[IdOf(item)];
      FieldChanges(previous, item) + if previous.disappeared then [Reappeared(IdOf(item))] else []
  }

  /** All comparisons are with the rows as they were before the batch. */
  function BatchChanges(listings: map<Identity, Listing>, items: seq<Observation>): seq<Change>
  {
    if items == [] then [] else
      BatchChanges(listings, items[..|items| - 1]) + ItemChanges(listings, items[|items| - 1])
  }

  predicate HasRow(observations: seq<ObsRow>, run: string, id: Identity)
  {
    exists k :: 0 <= k < |observations| && observations[k].run == run && IdOf(observations[k].item) == id
  }

  /** INSERT OR IGNORE under UNIQUE(run_id, source, source_id). */
  function InsertRow(observations: seq<ObsRow>, run: string, item: Observation): seq<ObsRow>
  {
    if HasRow(observations, run, IdOf(item)) then observations else observations + [ObsRow(run, item)]
  }

  function InsertRows(observations: seq<ObsRow>, run: string, items: seq<Observation>): seq<ObsRow>
  {
    if items == [] then observations else
      InsertRow(InsertRows(observations, run, items[..|items| - 1]), run, items[|items| - 1])
  }

  function Seen(item: Observation): Listing
  {
    Listing(item.url, item.title, item.price, item.currency, item.inStock, item.observedAt, 0, false)
  }

  function Upsert(listings: map<Identity, Listing>, items: seq<Observation>): map<Identity, Listing>
  {
    if items == [] then listings else
      var last := items[|items| - 1];
      Upsert(listings, items[..|items| - 1])[IdOf(last) := Seen(last)]
  }

  function Record(t: Tables, run: string, items: seq<Observation>): Tables
  {
    t.(observations := InsertRows(t.observations, run, items), listings := Upsert(t.listings, items))
  }

  // ---------------------------------------------------------------- finishing a run

  type SeenIds = map<string, set<string>>

  function SeenIn(seen: SeenIds, source: string): set<string>
  {
    if source in seen then seen[source] else {}
  }

  /** The listing belongs to a named source that did not list it. */
  predicate Misses(names: seq<string>, seen: SeenIds, id: Identity)
  {
    id.source in names && id.sourceId !in SeenIn(seen, id.source)
  }

  function MissOnce(listing: Listing, after: int): Listing
  {
    listing.(missing := listing.missing + 1, disappeared := listing.missing + 1 >= after)
  }

  function FinishListings(listings: map<Identity, Listing>, names: seq<string>, seen: SeenIds, after: int)
    : map<Identity, Listing>
  {
    map id | id in listings :: if Misses(names, seen, id) then MissOnce(listings[id], after) else listings[id]
  }

  /** The rows of the SELECT: every listing of a named source once, in the order SQLite chose. */
  ghost predicate IsScan(listings: map<Identity, Listing>, names: seq<string>, scan: seq<Identity>)
  {
    && (forall p, q | 0 <= p < q < |scan| :: scan[p] != scan[q])
    && (forall id :: id in scan <==> id in listings && id.source in names)
  }

  function RowChange(listings: map<Identity, Listing>, seen: SeenIds, after: int, id: Identity): seq<Change>
  {
    if id in listings && id.sourceId !in SeenIn(seen, id.source) && MissOnce(listings[id], after).disappeared &&
      !listings[id].disappeared
    then [Disappeared(id)] else []
  }

  function ScanChanges(listings: map<Identity, Listing>, seen: SeenIds, after: int, scan: seq<Identity>): seq<Change>
  {
    if scan == [] then [] else
      ScanChanges(listings, seen, after, scan[..|scan| - 1]) + RowChange(listings, seen, after, scan[|scan| - 1])
  }

  /** `finish_refresh`; a threshold below 1 is an error and changes nothing. */
  function Finish(t: Tables, run: string, names: seq<string>, seen: SeenIds, after: int): Tables
  {
    if after < 1 then t else
      t.(listings := FinishListings(t.listings, names, seen, after),
         runs := if run in t.runs then t.runs[run := Finished] else t.runs)
  }

  function Abort(t: Tables, run: string): Tables
  {
    if run in t.runs && t.runs[run].InProgress? then t.(runs := t.runs[run := Aborted]) else t
  }

  function Begin(t: Tables, run: string): Tables
  {
    t.(runs := t.runs[run := InProgress])
  }

  /** The first k scanned rows are updated, the others are as they were. */
  ghost predicate PartlyFinished(previous: map<Identity, Listing>, listings: map<Identity, Listing>, seen: SeenIds,
        after: int, scan: seq<Identity>, k: nat)
    requires k <= |scan|
  {
    && listings.Keys == previous.Keys
    && forall id | id in previous ::
         listings[id] ==
         if id in scan[..k] && id.sourceId !in SeenIn(seen, id.source) then MissOnce(previous[id], after)
         else previous[id]
  }

  lemma AllFinished(previous: map<Identity, Listing>, listings: map<Identity, Listing>, names: seq<string>,
        seen: SeenIds, after: int, scan: seq<Identity>)
    requires IsScan(previous, names, scan) && PartlyFinished(previous, listings, seen, after, scan, |scan|)
    ensures listings == FinishListings(previous, names, seen, after)
  {
    assert scan[..|scan|] == scan;
  }

  /** One more row of the scan. */
  lemma FinishOne(previous: map<Identity, Listing>, listings: map<Identity, Listing>, seen: SeenIds, after: int,
        scan: seq<Identity>, k: nat)
    requires k < |scan| && scan[k] in previous && PartlyFinished(previous, listings, seen, after, scan, k)
    ensures var id := scan[k];
      PartlyFinished(previous,
                     if id.sourceId !in SeenIn(seen, id.source) then listings[id := MissOnce(previous[id], after)]
                     else listings,
                     seen, after, scan, k + 1)
  {
    assert scan[..k + 1] == scan[..k] + [scan[k]];
  }

  function Sources(items: seq<Observation>): set<string>
  {
    set item | item in items :: item.source
  }

  function IdsFrom(items: seq<Observation>, source: string): set<string>
  {
    set item | item in items && item.source == source :: item.sourceId
  }

  function SeenOf(items: seq<Observation>): SeenIds
  {
    map source | source in Sources(items) :: IdsFrom(items, source)
  }

  /** The named sources, or by default those of the observations. */
  function NamesOr(sourceNames: seq<string>, items: seq<Observation>): seq<string>
  {
    if sourceNames != [] then sourceNames else seq(|items|, k requires 0 <= k < |items| => items[k].source)
  }

  datatype FinishResult = BadThreshold | Reported(changes: seq<Change>)

  // ---------------------------------------------------------------- the history object

  class CatalogHistory {
    var runs: map<string, RunState>
    var observations: seq<ObsRow>
    var listings: map<Identity, Listing>

    ghost function Model(): Tables
      reads this
    {
      Tables(runs, observations, listings)
    }

    constructor ()
      ensures Model() == EMPTY_TABLES
    {
      runs, observations, listings := map[], [], map[];
    }

    method BeginRefresh(run: string)
      requires run !in runs
      modifies this`runs
      ensures Model() == Begin(old(Model()), run)
    {
      runs := runs[run := InProgress];
    }

    method AbortRefresh(run: string)
      modifies this`runs
      ensures Model() == Abort(old(Model()), run)
    {
      if run in runs && runs[run].InProgress? {
        runs := runs[run := Aborted];
      }
    }

    method RecordBatch(run: string, items: seq<Observation>) returns (changes: seq<Change>)
      modifies this`observations, this`listings
      ensures Model() == Record(old(Model()), run, items)
      ensures changes == BatchChanges(old(listings), items)
    {
      var previous := listings;
      changes := [];
      for k := 0 to |items|
        invariant changes == BatchChanges(previous, items[..k])
        invariant observations == InsertRows(old(observations), run, items[..k])
        invariant listings == Upsert(previous, items[..k])
      {
        assert items[..k + 1][..k] == items[..k];
        changes := changes + ItemChanges(previous, items[k]);
        observations := InsertRow(observations, run, items[k]);
        listings := listings[IdOf(items[k]) := Seen(items[k])];
      }
      assert items[..|items|] == items;
    }

    /** SELECT ... FROM listing_state WHERE source IN (...): SQLite chooses the order. */
    method SelectListings(names: seq<string>) returns (scan: seq<Identity>)
      ensures IsScan(listings, names, scan)
    {
      scan := [];
      var left := set id | id in listings && id.source in names;
      while left != {}
        invariant forall id :: id in scan <==> id in listings && id.source in names && id !in left
        invariant forall id | id in left :: id in listings && id.source in names
        invariant forall p, q | 0 <= p < q < |scan| :: scan[p] != scan[q]
      {
        var id :| id in left;
        assert id !in scan;
        scan, left := scan + [id], left - {id};
      }
    }

    method FinishRefresh(run: string, names: seq<string>, seen: SeenIds, after: int)
      returns (result: FinishResult, ghost scan: seq<Identity>)
      modifies this`runs, this`listings
      ensures Model() == Finish(old(Model()), run, names, seen, after)
      ensures result.BadThreshold? <==> after < 1
      ensures result.Reported? ==>
        IsScan(old(listings), names, scan) && result.changes == ScanChanges(old(listings), seen, after, scan)
    {
      if after < 1 {
        return BadThreshold, [];
      }
      var rows := SelectListings(names);
      scan := rows;
      var previous := listings;
      var changes: seq<Change> := [];
      for k := 0 to |rows|
        invariant changes == ScanChanges(previous, seen, after, rows[..k])
        invariant PartlyFinished(previous, listings, seen, after, rows, k)
        invariant runs == old(runs) && observations == old(observations)
      {
        var id := rows[k];
        assert id in rows;
        FinishOne(previous, listings, seen, after, rows, k);
        assert rows[..k + 1][..k] == rows[..k];
        changes := changes + RowChange(previous, seen, after, id);
        if id.sourceId !in SeenIn(seen, id.source) {
          listings := listings[id := MissOnce(previous[id], after)];
        }
      }
      AllFinished(previous, listings, names, seen, after, rows);
      assert rows[..|rows|] == rows;
      if run in runs {
        runs := runs[run := Finished];
      }
      result := Reported(changes);
    }

    /** The one-shot wrapper: begin, record everything as one batch, finish with what was seen. */
    method RecordRefresh(run: string, items: seq<Observation>, sourceNames: seq<string>, after: int)
      returns (result: FinishResult, ghost scan: seq<Identity>)
      requires run !in runs
      modifies this
      ensures Model() == Finish(Record(Begin(old(Model()), run), run, items), run, NamesOr(sourceNames, items),
        SeenOf(items), after)
      ensures result.BadThreshold? <==> after < 1
      ensures result.Reported? ==> IsScan(Upsert(old(listings), items), NamesOr(sourceNames, items), scan)
      ensures result.Reported? ==>
        result.changes == BatchChanges(old(listings), items) +
          ScanChanges(Upsert(old(listings), items), SeenOf(items), after, scan)
    {
      BeginRefresh(run);
      var first := RecordBatch(run, items);
      var second;
      second, scan := FinishRefresh(run, NamesOr(sourceNames, items), SeenOf(items), after);
      result := if second.Reported? then Reported(first + second.changes) else BadThreshold;
    }
  }
}
