/** Replaying the change events of a run.  A view of a listing (price, currency, title, stock, flag) is changed
    by each reported change about it; a change must be true of the view when it comes.  The replay of a whole
    run ends at the listing's row exactly when every call was faithful to it. */
module ChangeReplay {
  import opened Base
  import opened History
  import opened HistoryRuns

  /** What the change events speak about. */
  datatype View = View(price: Option<real>, currency: string, title: string, inStock: Option<bool>, disappeared: bool)

  function ViewOf(listing: Listing): View
  {
    View(listing.price, listing.currency, listing.title, listing.inStock, listing.disappeared)
  }

  function Replay(view: View, change: Change): View
  {
    match change
    case PriceChanged(_, _, price) => view.(price := price)
    case CurrencyChanged(_, _, currency) => view.(currency := currency)
    case TitleChanged(_, _, title) => view.(title := title)
    case StockChanged(_, _, stock) => view.(inStock := stock)
    case Reappeared(_) => view.(disappeared := false)
    case Disappeared(_) => view.(disappeared := true)
  }

  /** The change says truly what it replaces, and disappearing and reappearing take turns. */
  predicate Truthful(view: View, change: Change)
  {
    match change
    case PriceChanged(_, old_, new_) => view.price == old_ && old_ != new_
    case CurrencyChanged(_, old_, new_) => view.currency == old_ && old_ != new_
    case TitleChanged(_, old_, new_) => view.title == old_ && old_ != new_
    case StockChanged(_, old_, new_) => view.inStock == old_ && old_ != new_
    case Reappeared(_) => view.disappeared
    case Disappeared(_) => !view.disappeared
  }

  /** The view after the changes about one listing, if each was truthful when it came. */
  function ReplayAll(view: View, changes: seq<Change>, id: Identity): Option<View>
  {
    if changes == [] then Some(view) else
      var before, change := ReplayAll(view, changes[..|changes| - 1], id), changes[|changes| - 1];
      if before.None? || change.id != id then before
      else if Truthful(before.value, change) then Some(Replay(before.value, change)) else None
  }

  lemma {:induction false} ReplayConcat(view: View, a: seq<Change>, b: seq<Change>, id: Identity)
    ensures ReplayAll(view, a + b, id) == if ReplayAll(view, a, id).None? then None
      else ReplayAll(ReplayAll(view, a, id).value, b, id)
  {
    if b == [] {
      assert a + b == a;
    } else {
      assert (a + b)[..|a + b| - 1] == a + b[..|b| - 1];
      ReplayConcat(view, a, b[..|b| - 1], id);
    }
  }

  lemma ReplayOne(view: View, change: Change, id: Identity)
    requires change.id == id && Truthful(view, change)
    ensures ReplayAll(view, [change], id) == Some(Replay(view, change))
  {
    assert [change][..0] == [];
  }

  lemma {:induction false} ReplayOthers(view: View, changes: seq<Change>, id: Identity)
    requires forall change | change in changes :: change.id != id
    ensures ReplayAll(view, changes, id) == Some(view)
  {
    if changes != [] {
      ReplayOthers(view, changes[..|changes| - 1], id);
    }
  }

  /** Some change the item reports is not true of the view it comes at. */
  predicate Clashes(previous: Listing, view: View, item: Observation)
  {
    || (previous.price != item.price && view.price != previous.price)
    || (previous.currency != item.currency && view.currency != previous.currency)
    || (previous.title != item.title && view.title != previous.title)
    || (previous.inStock != item.inStock && view.inStock != previous.inStock)
    || (previous.disappeared && !view.disappeared)
  }

  function Patched(previous: Listing, view: View, item: Observation): View
  {
    View(if previous.price != item.price then item.price else view.price,
         if previous.currency != item.currency then item.currency else view.currency,
         if previous.title != item.title then item.title else view.title,
         if previous.inStock != item.inStock then item.inStock else view.inStock,
         if previous.disappeared then false else view.disappeared)
  }

  /** One change of a replay, if it is reported at all. */
  function After(view: Option<View>, c: bool, change: Change): Option<View>
  {
    if view.None? || !c then view else if Truthful(view.value, change) then Some(Replay(view.value, change)) else None
  }

  lemma ReplayMaybeFrom(view: View, c: bool, change: Change, id: Identity)
    requires change.id == id
    ensures ReplayAll(view, Maybe(c, change), id) == After(Some(view), c, change)
  {
    if c {
      assert [change][..0] == [];
    }
  }

  lemma ReplayStepwise(view: View, before: seq<Change>, c: bool, change: Change, id: Identity)
    requires change.id == id
    ensures ReplayAll(view, before + Maybe(c, change), id) == After(ReplayAll(view, before, id), c, change)
  {
    var start := ReplayAll(view, before, id);
    ReplayConcat(view, before, Maybe(c, change), id);
    if start.Some? {
      ReplayMaybeFrom(start.value, c, change, id);
    }
  }

  /** The four comparisons and the reappearance, one after the other. */
  function AfterItem(previous: Listing, view: View, item: Observation): Option<View>
  {
    var id := IdOf(item);
    var v1 := After(Some(view), previous.price != item.price, PriceChanged(id, previous.price, item.price));
    var v2 := After(v1, previous.currency != item.currency, CurrencyChanged(id, previous.currency, item.currency));
    var v3 := After(v2, previous.title != item.title, TitleChanged(id, previous.title, item.title));
    var v4 := After(v3, previous.inStock != item.inStock, StockChanged(id, previous.inStock, item.inStock));
    After(v4, previous.disappeared, Reappeared(id))
  }

  lemma AfterItemMeans(previous: Listing, view: View, item: Observation)
    ensures AfterItem(previous, view, item) == if Clashes(previous, view, item) then None
      else Some(Patched(previous, view, item))
  {
  }

  lemma ReplayIsAfterItem(view: View, listings: map<Identity, Listing>, item: Observation)
    requires IdOf(item) in listings
    ensures ReplayAll(view, ItemChanges(listings, item), IdOf(item)) == AfterItem(listings[IdOf(item)], view, item)
  {
    var id, previous := IdOf(item), listings[IdOf(item)];
    var cs := Comparisons(previous, item);
    var c0, c1, c2, c3 := Maybe(Differs(cs[0]), cs[0]), Maybe(Differs(cs[1]), cs[1]), Maybe(Differs(cs[2]), cs[2]),
      Maybe(Differs(cs[3]), cs[3]);
    FieldChangesUnrolled(previous, item);
    ReplayMaybeFrom(view, Differs(cs[0]), cs[0], id);
    ReplayStepwise(view, c0, Differs(cs[1]), cs[1], id);
    ReplayStepwise(view, c0 + c1, Differs(cs[2]), cs[2], id);
    ReplayStepwise(view, c0 + c1 + c2, Differs(cs[3]), cs[3], id);
    ReplayStepwise(view, c0 + c1 + c2 + c3, previous.disappeared, Reappeared(id), id);
  }

  lemma ReplayItemFrom(view: View, listings: map<Identity, Listing>, item: Observation)
    requires IdOf(item) in listings
    ensures ReplayAll(view, ItemChanges(listings, item), IdOf(item)) ==
      if Clashes(listings[IdOf(item)], view, item) then None else Some(Patched(listings[IdOf(item)], view, item))
  {
    ReplayIsAfterItem(view, listings, item);
    AfterItemMeans(listings[IdOf(item)], view, item);
  }

  /** The changes reported for one observation turn the old row's view into the new row's. */
  lemma ReplayItem(listings: map<Identity, Listing>, item: Observation)
    requires IdOf(item) in listings
    ensures ReplayAll(ViewOf(listings[IdOf(item)]), ItemChanges(listings, item), IdOf(item)) == Some(ViewOf(Seen(item)))
  {
    ReplayItemFrom(ViewOf(listings[IdOf(item)]), listings, item);
  }

  /** The item agrees with the old row, which was not flagged: nothing is reported. */
  predicate Quiet(previous: Listing, item: Observation)
  {
    SameFields(previous, item) && !previous.disappeared
  }

  predicate AllQuiet(listings: map<Identity, Listing>, items: seq<Observation>, id: Identity)
    requires id in listings
  {
    forall p | 0 <= p < |items| :: IdOf(items[p]) == id ==> Quiet(listings[id], items[p])
  }

  /** Of the copies of a listing in the batch none but the last reports anything. */
  predicate OnlyLastSpeaks(listings: map<Identity, Listing>, items: seq<Observation>, id: Identity)
    requires id in listings
  {
    forall p, q | 0 <= p < q < |items| :: IdOf(items[p]) == id == IdOf(items[q]) ==> Quiet(listings[id], items[p])
  }

  /** The view has left the old row's, in a way no later copy can report truthfully or undo. */
  predicate Off(previous: Listing, view: View)
  {
    || view.price != previous.price || view.currency != previous.currency || view.title != previous.title
    || view.inStock != previous.inStock || (previous.disappeared && !view.disappeared)
  }

  lemma OffStaysOff(previous: Listing, view: View, item: Observation)
    requires Off(previous, view) && !Clashes(previous, view, item)
    ensures Off(previous, Patched(previous, view, item)) && Patched(previous, view, item) != ViewOf(Seen(item))
  {
  }

  lemma AllQuietSnoc(listings: map<Identity, Listing>, items: seq<Observation>, id: Identity)
    requires id in listings && items != []
    ensures var init, last := items[..|items| - 1], items[|items| - 1];
      && (AllQuiet(listings, items, id) <==>
           AllQuiet(listings, init, id) && (IdOf(last) == id ==> Quiet(listings[id], last)))
      && (OnlyLastSpeaks(listings, items, id) <==>
          if IdOf(last) == id then AllQuiet(listings, init, id) else OnlyLastSpeaks(listings, init, id))
  {
    var init, last := items[..|items| - 1], items[|items| - 1];
    assert forall k | 0 <= k < |init| :: init[k] == items[k];
    if IdOf(last) == id && OnlyLastSpeaks(listings, items, id) {
      forall p | 0 <= p < |init| && IdOf(init[p]) == id
        ensures Quiet(listings[id], init[p])
      {
        assert IdOf(items[p]) == id == IdOf(items[|items| - 1]);
      }
    }
  }

  lemma BatchSnoc(listings: map<Identity, Listing>, items: seq<Observation>, id: Identity, view: View)
    requires id in listings && items != []
    ensures var init, last := items[..|items| - 1], items[|items| - 1];
      var start := ReplayAll(view, BatchChanges(listings, init), id);
      ReplayAll(view, BatchChanges(listings, items), id) ==
      if start.None? || IdOf(last) != id then start
      else if Clashes(listings[id], start.value, last) then None else Some(Patched(listings[id], start.value, last))
  {
    var init, last := items[..|items| - 1], items[|items| - 1];
    var start := ReplayAll(view, BatchChanges(listings, init), id);
    ReplayConcat(view, BatchChanges(listings, init), ItemChanges(listings, last), id);
    ItemChangesAreAbout(listings, last);
    if start.Some? {
      if IdOf(last) == id {
        ReplayItemFrom(start.value, listings, last);
      } else {
        ReplayOthers(start.value, ItemChanges(listings, last), id);
      }
    }
  }

  lemma {:induction false} ReplayCopies(listings: map<Identity, Listing>, items: seq<Observation>, id: Identity)
    requires id in listings
    ensures var end := ReplayAll(ViewOf(listings[id]), BatchChanges(listings, items), id);
      if AllQuiet(listings, items, id) then end == Some(ViewOf(listings[id]))
        else end.None? || Off(listings[id], end.value)
  {
    if items != [] {
      var init, last := items[..|items| - 1], items[|items| - 1];
      var start := ReplayAll(ViewOf(listings[id]), BatchChanges(listings, init), id);
      ReplayCopies(listings, init, id);
      AllQuietSnoc(listings, items, id);
      BatchSnoc(listings, items, id, ViewOf(listings[id]));
      if start.Some? && Off(listings[id], start.value) && !Clashes(listings[id], start.value, last) {
        OffStaysOff(listings[id], start.value, last);
      }
    }
  }

  /** The changes a batch reports about a listing lead from its old row to its new one if and only if, of its
      copies in the batch, none but the last reports anything. */
  lemma {:induction false} ReplayBatchExactly(listings: map<Identity, Listing>, items: seq<Observation>, id: Identity)
    requires id in listings
    ensures id in Upsert(listings, items)
    ensures ReplayAll(ViewOf(listings[id]), BatchChanges(listings, items), id) ==
      Some(ViewOf(Upsert(listings, items)[id]))
      <==> OnlyLastSpeaks(listings, items, id)
  {
    UpsertEffect(listings, items, id);
    if items != [] {
      var init, last := items[..|items| - 1], items[|items| - 1];
      var start := ReplayAll(ViewOf(listings[id]), BatchChanges(listings, init), id);
      AllQuietSnoc(listings, items, id);
      BatchSnoc(listings, items, id, ViewOf(listings[id]));
      if IdOf(last) != id {
        ReplayBatchExactly(listings, init, id);
        UpsertEffect(listings, init, id);
      } else {
        ReplayCopies(listings, init, id);
        if start.Some? && Off(listings[id], start.value) && !Clashes(listings[id], start.value, last) {
          OffStaysOff(listings[id], start.value, last);
        }
      }
    }
  }

  lemma {:induction false} ScanWithout(listings: map<Identity, Listing>, seen: SeenIds, after: int, scan: seq<Identity>,
        id: Identity)
    requires id !in scan
    ensures forall change | change in ScanChanges(listings, seen, after, scan) :: change.id != id
  {
    if scan != [] {
      ScanWithout(listings, seen, after, scan[..|scan| - 1], id);
    }
  }

  /** The scan reports at most one change about a listing. */
  lemma {:induction false} ReplayScan(listings: map<Identity, Listing>, seen: SeenIds, after: int, scan: seq<Identity>,
        id: Identity, view: View)
    requires id in listings && forall p, q | 0 <= p < q < |scan| :: scan[p] != scan[q]
    ensures ReplayAll(view, ScanChanges(listings, seen, after, scan), id) ==
      ReplayAll(view, if id in scan then RowChange(listings, seen, after, id) else [], id)
  {
    if id !in scan {
      ScanWithout(listings, seen, after, scan, id);
      ReplayOthers(view, ScanChanges(listings, seen, after, scan), id);
    } else {
      var init, last := scan[..|scan| - 1], scan[|scan| - 1];
      assert scan == init + [last];
      ReplayConcat(view, ScanChanges(listings, seen, after, init), RowChange(listings, seen, after, last), id);
      if last == id {
        ScanWithout(listings, seen, after, init, id);
        ReplayOthers(view, ScanChanges(listings, seen, after, init), id);
      } else {
        ReplayScan(listings, seen, after, init, id, view);
        var one := ReplayAll(view, RowChange(listings, seen, after, id), id);
        if one.Some? {
          ReplayOthers(one.value, RowChange(listings, seen, after, last), id);
        }
      }
    }
  }

  /** The finish un-flags the listing: its counter is below a threshold that was raised since. */
  predicate SilentlyUnflags(listings: map<Identity, Listing>, names: seq<string>, seen: SeenIds, after: int,
        id: Identity)
  {
    id in listings && Misses(names, seen, id) && listings[id].disappeared && listings[id].missing + 1 < after
  }

  /** A finish reports the step from old to new view exactly unless it silently un-flags the listing. */
  lemma ReplayFinish(t: Tables, op: Op, id: Identity)
    requires op.FinishOp? && op.after >= 1 && id in t.listings && IsScan(t.listings, op.names, op.scan)
    ensures ReplayAll(ViewOf(t.listings[id]), Emitted(t, op), id) == Some(ViewOf(Apply(t, op).listings[id]))
      <==> !SilentlyUnflags(t.listings, op.names, op.seen, op.after, id)
  {
    ReplayScan(t.listings, op.seen, op.after, op.scan, id, ViewOf(t.listings[id]));
    ReplayMaybeFrom(ViewOf(t.listings[id]), RowChange(t.listings, op.seen, op.after, id) != [], Disappeared(id), id);
  }

  // ---------------------------------------------------------------- whole runs of changes

  /** The view differs from the row in a field, or is flagged where the row is not. */
  predicate Wrong(view: View, row: Listing)
  {
    || view.price != row.price || view.currency != row.currency || view.title != row.title ||
         view.inStock != row.inStock
    || (view.disappeared && !row.disappeared)
  }

  lemma WrongStaysWrong(previous: Listing, view: View, item: Observation)
    requires Wrong(view, previous) && !Clashes(previous, view, item)
    ensures Wrong(Patched(previous, view, item), previous) && Wrong(Patched(previous, view, item), Seen(item))
  {
  }

  lemma {:induction false} WrongAfterBatch(listings: map<Identity, Listing>, items: seq<Observation>, id: Identity,
        view: View)
    requires id in listings && Wrong(view, listings[id])
    ensures id in Upsert(listings, items)
    ensures var end := ReplayAll(view, BatchChanges(listings, items), id);
      end.None? || (Wrong(end.value, listings[id]) && Wrong(end.value, Upsert(listings, items)[id]))
  {
    UpsertEffect(listings, items, id);
    if items != [] {
      var init, last := items[..|items| - 1], items[|items| - 1];
      var start := ReplayAll(view, BatchChanges(listings, init), id);
      WrongAfterBatch(listings, init, id, view);
      BatchSnoc(listings, items, id, view);
      if start.Some? && !Clashes(listings[id], start.value, last) {
        WrongStaysWrong(listings[id], start.value, last);
      }
    }
  }

  /** The call reports the step of the listing faithfully: of its copies in a batch none but the last reports
      anything, and a finish does not silently clear its flag. */
  predicate Faithful(t: Tables, op: Op, id: Identity)
    requires id in t.listings
  {
    match op
    case RecordOp(_, items) => OnlyLastSpeaks(t.listings, items, id)
    case FinishOp(_, names, seen, after, _) => after >= 1 ==> !SilentlyUnflags(t.listings, names, seen, after, id)
    case _ => true
  }

  /** From a view that is right, a call leads to the right view exactly when it is faithful, and to a wrong
      one or to a contradiction when it is not. */
  lemma RightStep(t: Tables, op: Op, id: Identity)
    requires id in t.listings && ScanFits(t, op)
    ensures id in Apply(t, op).listings
    ensures var end, row := ReplayAll(ViewOf(t.listings[id]), Emitted(t, op), id), Apply(t, op).listings[id];
      if Faithful(t, op, id) then end == Some(ViewOf(row)) else end.None? || Wrong(end.value, row)
  {
    match op
    case RecordOp(_, items) =>
      UpsertEffect(t.listings, items, id);
      ReplayBatchExactly(t.listings, items, id);
    case FinishOp(_, _, seen, after, scan) =>
      if after >= 1 {
        ReplayScan(t.listings, seen, after, scan, id, ViewOf(t.listings[id]));
        ReplayMaybeFrom(ViewOf(t.listings[id]), RowChange(t.listings, seen, after, id) != [], Disappeared(id), id);
      }
    case _ =>
  }

  /** A wrong view stays wrong, or meets a change that contradicts it. */
  lemma WrongStep(t: Tables, op: Op, id: Identity, view: View)
    requires id in t.listings && ScanFits(t, op) && Wrong(view, t.listings[id])
    ensures id in Apply(t, op).listings
    ensures var end := ReplayAll(view, Emitted(t, op), id);
      end.None? || Wrong(end.value, Apply(t, op).listings[id])
  {
    match op
    case RecordOp(_, items) => WrongAfterBatch(t.listings, items, id, view);
    case FinishOp(_, _, seen, after, scan) =>
      if after >= 1 {
        ReplayScan(t.listings, seen, after, scan, id, view);
        ReplayMaybeFrom(view, RowChange(t.listings, seen, after, id) != [], Disappeared(id), id);
      }
    case _ =>
  }

  lemma {:induction false} ListingsStay(t: Tables, ops: seq<Op>, id: Identity)
    requires id in t.listings
    ensures id in RunFrom(t, ops).listings
  {
    if ops != [] {
      ListingsStay(t, ops[..|ops| - 1], id);
      if ops[|ops| - 1].RecordOp? {
        UpsertEffect(RunFrom(t, ops[..|ops| - 1]).listings, ops[|ops| - 1].items, id);
      }
    }
  }

  predicate AllFaithful(t: Tables, ops: seq<Op>, id: Identity)
    requires id in t.listings
  {
    ops == [] ||
    var before, op := ops[..|ops| - 1], ops[|ops| - 1];
    AllFaithful(t, before, id) && id in RunFrom(t, before).listings && Faithful(RunFrom(t, before), op, id)
  }

  lemma {:induction false} ChangesOfARun(t: Tables, ops: seq<Op>, id: Identity)
    requires id in t.listings && ScansFit(t, ops)
    ensures id in RunFrom(t, ops).listings
    ensures var end, row := ReplayAll(ViewOf(t.listings[id]), Changes(t, ops), id), RunFrom(t, ops).listings[id];
      if AllFaithful(t, ops, id) then end == Some(ViewOf(row)) else end.None? || Wrong(end.value, row)
  {
    ListingsStay(t, ops, id);
    if ops != [] {
      var before, op := ops[..|ops| - 1], ops[|ops| - 1];
      var start := ReplayAll(ViewOf(t.listings[id]), Changes(t, before), id);
      ListingsStay(t, before, id);
      ChangesOfARun(t, before, id);
      ReplayConcat(ViewOf(t.listings[id]), Changes(t, before), Emitted(RunFrom(t, before), op), id);
      RightStep(RunFrom(t, before), op, id);
      if start.Some? && Wrong(start.value, RunFrom(t, before).listings[id]) {
        WrongStep(RunFrom(t, before), op, id, start.value);
      }
    }
  }

  /** Replaying the reported changes rebuilds the row, in any run from any moment a listing is known, if and only
      if every call was faithful to it: then each change is true when it is reported, disappearances and
      reappearances alternate, and together they lead from the old price, currency, title, stock and flag to
      the new ones; otherwise the replay contradicts itself or ends at another view. */
  lemma {:induction false} ChangesRebuildListingExactly(t: Tables, ops: seq<Op>, id: Identity)
    requires id in t.listings && ScansFit(t, ops)
    ensures id in RunFrom(t, ops).listings
    ensures ReplayAll(ViewOf(t.listings[id]), Changes(t, ops), id) == Some(ViewOf(RunFrom(t, ops).listings[id])) <==>
      AllFaithful(t, ops, id)
  {
    ChangesOfARun(t, ops, id);
  }

  predicate DistinctBatches(ops: seq<Op>)
  {
    forall op | op in ops :: op.RecordOp? ==> DistinctIds(op.items)
  }

  ghost predicate FlagFits(t: Tables, id: Identity, after: int)
  {
    id in t.listings && (t.listings[id].disappeared <==> t.listings[id].missing >= after)
  }

  lemma FlagStep(t: Tables, op: Op, id: Identity, after: int)
    requires FlagFits(t, id, after) && after >= 1 && (op.FinishOp? ==> op.after == after)
    ensures FlagFits(Apply(t, op), id, after)
  {
    if op.RecordOp? {
      UpsertEffect(t.listings, op.items, id);
    }
  }

  /** One threshold throughout and no listing twice in a batch: every call is faithful. */
  lemma {:induction false} RegularRunsAreFaithful(t: Tables, ops: seq<Op>, id: Identity, after: int)
    requires FlagFits(t, id, after) && after >= 1 && FixedThreshold(ops, after) && DistinctBatches(ops)
    ensures FlagFits(RunFrom(t, ops), id, after) && AllFaithful(t, ops, id)
  {
    if ops != [] {
      var before, op := ops[..|ops| - 1], ops[|ops| - 1];
      assert forall o | o in before :: o in ops;
      RegularRunsAreFaithful(t, before, id, after);
      FlagStep(RunFrom(t, before), op, id, after);
    }
  }

  /** So in such runs the changes rebuild every row from its first sighting on. */
  lemma {:induction false} ChangesRebuildFromFirstSighting(first: seq<Op>, rest: seq<Op>, id: Identity, after: int)
    requires after >= 1 && FixedThreshold(first, after) && FixedThreshold(rest, after) && DistinctBatches(rest)
    requires id in RunFrom(EMPTY_TABLES, first).listings && ScansFit(RunFrom(EMPTY_TABLES, first), rest)
    ensures var seen := RunFrom(EMPTY_TABLES, first);
      var now := RunFrom(seen, rest);
      id in now.listings && ReplayAll(ViewOf(seen.listings[id]), Changes(seen, rest), id) ==
        Some(ViewOf(now.listings[id]))
  {
    var seen := RunFrom(EMPTY_TABLES, first);
    DisappearedExactlyAtThreshold(first, id, after);
    DisappearanceIsExact(first, id);
    RegularRunsAreFaithful(seen, rest, id, after);
    ChangesRebuildListingExactly(seen, rest, id);
  }

  lemma ReplayFalse(view: View, change: Change, id: Identity)
    requires change.id == id && !Truthful(view, change)
    ensures ReplayAll(view, [change], id) == None
  {
    assert [change][..0] == [];
  }

  lemma PairChanges(listings: map<Identity, Listing>, a: Observation, b: Observation)
    ensures BatchChanges(listings, [a, b]) == ItemChanges(listings, a) + ItemChanges(listings, b)
  {
    assert [a, b][..1] == [a] && [a][..0] == [];
    assert BatchChanges(listings, [a]) == ItemChanges(listings, a);
  }

  /** Two copies of a listing in one batch are both compared with the old row, so the changes reported
      for a listing that was away no longer alternate. */
  lemma DuplicateInBatchReportsTwice(item: Observation)
    ensures var id := IdOf(item);
      var listings := map[id := Seen(item).(missing := 2, disappeared := true)];
      && BatchChanges(listings, [item, item]) == [Reappeared(id)] + [Reappeared(id)]
      && ReplayAll(ViewOf(listings[id]), BatchChanges(listings, [item, item]), id) == None
  {
    var id := IdOf(item);
    var listings := map[id := Seen(item).(missing := 2, disappeared := true)];
    var view := ViewOf(listings[id]);
    PairChanges(listings, item, item);
    NoFieldChanges(listings[id], item);
    ReplayOne(view, Reappeared(id), id);
    ReplayFalse(view.(disappeared := false), Reappeared(id), id);
    ReplayConcat(view, [Reappeared(id)], [Reappeared(id)], id);
  }

  /** The finish of a run that did not see the listing's source's listings. */
  function MissedBy(run: string, item: Observation, after: int): Op
  {
    FinishOp(run, [item.source], map[], after, [IdOf(item)])
  }

  lemma ScanOfOne(t: Tables, run: string, item: Observation, after: int)
    requires t.listings.Keys == {IdOf(item)} && after >= 1
    ensures var op, id := MissedBy(run, item, after), IdOf(item);
      && ScanFits(t, op) && Apply(t, op).listings == map[id := MissOnce(t.listings[id], after)]
      && Emitted(t, op) == RowChange(t.listings, map[], after, id)
  {
    var op, id := MissedBy(run, item, after), IdOf(item);
    assert op.scan[..|op.scan| - 1] == [] && ScanChanges(t.listings, map[], after, []) == [];
    assert ScanChanges(t.listings, map[], after, op.scan) == [] + RowChange(t.listings, map[], after, id);
    assert op.scan[0] == id && item.source in op.names;
    assert Misses(op.names, op.seen, id);
  }

  lemma RunOfTwo(t: Tables, a: Op, b: Op)
    ensures RunFrom(t, [a] + [b]) == Apply(Apply(t, a), b)
    ensures ScanFits(t, a) && ScanFits(Apply(t, a), b) ==> ScansFit(t, [a] + [b])
    ensures forall id | id in t.listings && id in Apply(t, a).listings :: AllFaithful(t, [a] + [b], id) ==>
      Faithful(Apply(t, a), b, id)
  {
    assert ([a] + [b])[..1] == [a] && [a][..0] == [];
    assert RunFrom(t, [a]) == Apply(t, a);
  }

  /** The counterexample for thresholds: a listing recorded once, missed under threshold 1 and missed again under
      threshold 5 loses its flag; nothing reports that, and the replay ends with the flag set. */
  lemma RaisedThresholdUnflags(run: string, item: Observation, second: string, third: string)
    ensures var t, id := Record(Begin(EMPTY_TABLES, run), run, [item]), IdOf(item);
      var a, b := MissedBy(second, item, 1), MissedBy(third, item, 5);
      var u := Apply(t, a);
      && id in t.listings && id in u.listings && u.listings[id].disappeared
      && id in Apply(u, b).listings && !Apply(u, b).listings[id].disappeared && Emitted(u, b) == []
      && ScansFit(t, [a] + [b])
      && ReplayAll(ViewOf(t.listings[id]), Changes(t, [a] + [b]), id) !=
           Some(ViewOf(RunFrom(t, [a] + [b]).listings[id]))
  {
    var t, id := Record(Begin(EMPTY_TABLES, run), run, [item]), IdOf(item);
    var a, b := MissedBy(second, item, 1), MissedBy(third, item, 5);
    assert [item][..|[item]| - 1] == [] && Upsert(map[], []) == map[];
    assert Upsert(map[], [item]) == map[id := Seen(item)];
    ScanOfOne(t, second, item, 1);
    ScanOfOne(Apply(t, a), third, item, 5);
    RunOfTwo(t, a, b);
    ChangesRebuildListingExactly(t, [a] + [b], id);
  }
}
