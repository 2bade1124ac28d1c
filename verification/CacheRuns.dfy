/** Whole runs of the page cache: what stays bounded, what a lookup can return, what an eviction may remove. */
module CacheRuns {
  import opened Base
  import opened HttpCache

  // ---------------------------------------------------------------- one prune

  lemma {:induction false} DistinctTake(entries: seq<Slot>, n: nat)
    requires Distinct(entries) && n <= |entries|
    ensures Distinct(entries[..n])
  {
    if n > 0 {
      DistinctTake(entries[1..], n - 1);
      assert entries[..n][1..] == entries[1..][..n - 1];
      forall slot | slot in entries[1..][..n - 1]
        ensures slot in entries[1..]
      {
      }
    }
  }

  lemma SortedSlots(entries: seq<Slot>)
    ensures forall slot :: slot in StableSort(entries) <==> slot in entries
    ensures Keys(StableSort(entries)) == Keys(entries)
  {
    InSorted(entries);
  }

  /** The eviction takes as many distinct keys as the dict is over its limit. */
  lemma OldestAreDistinct(config: Config, left: seq<Slot>)
    requires Distinct(left)
    ensures |Keys(Oldest(config, left))| == Over(config, left)
    ensures Keys(Oldest(config, left)) <= Keys(left)
  {
    var sorted := StableSort(left);
    SortOrders(left);
    SortedSlots(left);
    DistinctCounts(left);
    DistinctCounts(sorted);
    DistinctTake(sorted, Over(config, left));
    DistinctCounts(sorted[..Over(config, left)]);
  }

  lemma SameKeySameSlot(entries: seq<Slot>, a: Slot, b: Slot)
    requires Distinct(entries) && a in entries && b in entries && a.key == b.key
    ensures a == b
  {
    FindMeans(entries, a.key);
  }

  /** Nothing evicted was more recent than anything kept. */
  lemma {:induction false} OldestAreOldest(config: Config, left: seq<Slot>, kept: Slot, lost: Slot)
    requires Distinct(left) && kept in left && lost in left
    requires kept.key !in Keys(Oldest(config, left)) && lost.key in Keys(Oldest(config, left))
    ensures Recency(lost.page) <= Recency(kept.page)
  {
    var sorted := StableSort(left);
    SortOrders(left);
    SortedSlots(left);
    KeysOfPrefix(sorted, Over(config, left));
    var i := AmongTheOldest(config, left, lost);
    var j :| 0 <= j < |sorted| && sorted[j] == kept;
  }

  lemma KeysOfPrefix(sorted: seq<Slot>, n: nat)
    requires n <= |sorted|
    ensures forall k | 0 <= k < n :: sorted[k].key in Keys(sorted[..n])
  {
    assert forall k | 0 <= k < n :: sorted[..n][k] == sorted[k];
  }

  /** A slot whose key is among the oldest stands there itself. */
  lemma {:induction false} AmongTheOldest(config: Config, left: seq<Slot>, lost: Slot) returns (i: nat)
    requires Distinct(left) && lost in left && lost.key in Keys(Oldest(config, left))
    ensures i < Over(config, left) <= |StableSort(left)| && StableSort(left)[i] == lost
  {
    var sorted, over := StableSort(left), Over(config, left);
    SortOrders(left);
    SortedSlots(left);
    var twin :| twin in sorted[..over] && twin.key == lost.key;
    assert twin in sorted;
    SameKeySameSlot(left, twin, lost);
    i :| 0 <= i < over && sorted[..over][i] == lost;
  }

  /** The unexpired slots, as `prune` sees them before it evicts. */
  function Young(config: Config, entries: seq<Slot>, now: Time): seq<Slot>
  {
    Without(entries, ExpiredKeys(config, entries, now))
  }

  lemma YoungMeans(config: Config, entries: seq<Slot>, now: Time)
    requires Distinct(entries)
    ensures Distinct(Young(config, entries, now))
    ensures forall slot :: slot in Young(config, entries, now) <==> slot in entries && !Expired(config, slot.page, now)
    ensures |Young(config, entries, now)| == |entries| - |ExpiredKeys(config, entries, now)|
  {
    var stale := ExpiredKeys(config, entries, now);
    WithoutDistinct(entries, stale);
    WithoutCounts(entries, stale);
    assert Keys(entries) * stale == stale;
    forall slot
      ensures slot in Young(config, entries, now) <==> slot in entries && !Expired(config, slot.page, now)
    {
      WithoutMeans(entries, stale, slot);
      if slot in entries && slot.key in stale {
        var twin :| twin in entries && Expired(config, twin.page, now) && twin.key == slot.key;
        SameKeySameSlot(entries, slot, twin);
      }
    }
  }

  /** The size afterwards, exactly: everything unexpired if it fits, otherwise a full cache; and every
      slot that went is counted once, as expired or as evicted. */
  lemma PruneCounts(config: Config, s: Cache, now: Time)
    requires Distinct(s.entries)
    ensures var after := Prune(config, s, now);
      && Distinct(after.entries)
      && |after.entries| == (if |Young(config, s.entries, now)| <= config.maxEntries then
           |Young(config, s.entries, now)| else config.maxEntries)
      && |s.entries| + s.expired + s.evicted == |after.entries| + after.expired + after.evicted
  {
    var left := Young(config, s.entries, now);
    YoungMeans(config, s.entries, now);
    OldestAreDistinct(config, left);
    WithoutDistinct(left, Keys(Oldest(config, left)));
    WithoutCounts(left, Keys(Oldest(config, left)));
    assert Keys(left) * Keys(Oldest(config, left)) == Keys(Oldest(config, left));
  }

  /** What stays is unexpired, and no unexpired slot that went was more recent than one that stayed. */
  lemma PruneKeepsTheMostRecent(config: Config, s: Cache, now: Time)
    requires Distinct(s.entries)
    ensures var after := Prune(config, s, now).entries;
      && (forall kept | kept in after :: kept in s.entries && !Expired(config, kept.page, now))
      && forall kept, lost | kept in after && lost in s.entries && lost !in after && !Expired(config, lost.page, now) ::
           Recency(lost.page) <= Recency(kept.page)
  {
    var left := Young(config, s.entries, now);
    var gone := Keys(Oldest(config, left));
    YoungMeans(config, s.entries, now);
    forall slot {
      WithoutMeans(left, gone, slot);
    }
    forall kept, lost | kept in left && kept.key !in gone && lost in left && lost.key in gone
      ensures Recency(lost.page) <= Recency(kept.page)
    {
      OldestAreOldest(config, left, kept, lost);
    }
  }

  // ---------------------------------------------------------------- one lookup

  /** A lookup answers exactly when the key is there and unexpired; it changes nothing but that page's last
      access, and drops the page when it is expired. */
  lemma LookUpExactly(config: Config, s: Cache, key: string, now: Time, other: string)
    ensures var (after, page) := Fresh(config, s, key, now);
      && (page.Some? <==> Find(s.entries, key).Some? && !Expired(config, Find(s.entries, key).value, now))
      && (page.Some? ==> page.value == Touched(Find(s.entries, key).value, now))
      && Find(after.entries, key) == page
      && (other != key ==> Find(after.entries, other) == Find(s.entries, other))
  {
    WithoutFind(s.entries, {key}, other);
    WithoutFind(s.entries, {key}, key);
    if Find(s.entries, key).Some? {
      var page := Touched(Find(s.entries, key).value, now);
      PutMeans(s.entries, key, page, other);
      PutMeans(s.entries, key, page, key);
    }
  }

  /** A page older than the time to live is returned in one case only: its stamp is zero, which the
      source reads as "no stamp". */
  lemma StaleIsReturnedExactly(config: Config, s: Cache, key: string, now: Time)
    ensures var page, found := Fresh(config, s, key, now).1, Find(s.entries, key);
      page.Some? && now - page.value.storedAt > config.ttl <==>
        found.Some? && found.value.storedAt == 0.0 && now > config.ttl
  {
    LookUpExactly(config, s, key, now, key);
  }

  // ---------------------------------------------------------------- who survives a prune

  /** An unexpired slot is evicted exactly when a full cache goes behind it in the eviction order. */
  lemma OldestExactly(config: Config, left: seq<Slot>, slot: Slot)
    requires Distinct(left) && slot in left
    ensures slot.key in Keys(Oldest(config, left)) <==> Behind(left, slot) >= config.maxEntries
  {
    var sorted, over := StableSort(left), Over(config, left);
    var oldest := Oldest(config, left);
    SortOrders(left);
    SortedSlots(left);
    DistinctCounts(left);
    DistinctCounts(sorted);
    StableRank(left, slot);
    TailInPrefix(sorted, slot, over);
    assert oldest == sorted[..over];
    if slot.key in Keys(oldest) {
      var twin :| twin in oldest && twin.key == slot.key;
      assert twin in sorted;
      SameKeySameSlot(left, twin, slot);
    }
  }

  /** A prune keeps exactly the unexpired slots with fewer than maxEntries unexpired slots behind them: the most
      recent ones, the later in the dict first among equals. */
  lemma PruneKeepsExactly(config: Config, s: Cache, now: Time, slot: Slot)
    requires Distinct(s.entries)
    ensures var young := Young(config, s.entries, now);
      slot in Prune(config, s, now).entries <==> slot in young && Behind(young, slot) < config.maxEntries
  {
    var young := Young(config, s.entries, now);
    YoungMeans(config, s.entries, now);
    WithoutMeans(young, Keys(Oldest(config, young)), slot);
    if slot in young {
      OldestExactly(config, young, slot);
    }
  }

  // ---------------------------------------------------------------- one store

  lemma {:induction false} BehindIsLess(entries: seq<Slot>, slot: Slot)
    requires slot in entries
    ensures Behind(entries, slot) < |entries|
  {
    if entries[0] == slot {
      AtLeastIsLess(entries[1..], Recency(slot.page));
    } else {
      assert entries == [entries[0]] + entries[1..];
      BehindIsLess(entries[1..], slot);
    }
  }

  lemma {:induction false} AtLeastIsLess(entries: seq<Slot>, r: Time)
    ensures AtLeast(entries, r) <= |entries|
  {
    if entries != [] {
      AtLeastIsLess(entries[1..], r);
    }
  }

  lemma NewPageIsYoung(config: Config, entries: seq<Slot>, key: string, page: Page, now: Time)
    requires Distinct(entries) && page.storedAt == now && config.ttl > 0.0
    ensures Slot(key, page) in Put(entries, key, page) && Slot(key, page) in Young(config, Put(entries, key, page), now)
    ensures |Young(config, Put(entries, key, page), now)| <= |Put(entries, key, page)|
  {
    var put := Put(entries, key, page);
    PutDistinct(entries, key, page);
    PutMeans(entries, key, page, key);
    FindMeans(put, key);
    YoungMeans(config, put, now);
  }

  /** A store keeps its own page if and only if fewer than maxEntries unexpired slots go behind it in the eviction
      order, whatever the cache held before. */
  lemma StoredIsKeptExactly(config: Config, s: Cache, url: string, response: Response, observations: seq<string>,
        now: Time)
    requires Distinct(s.entries) && config.ttl > 0.0
    ensures var key, page := config.canonical(url), NewPage(config, response, observations, now);
      var young := Young(config, Put(s.entries, key, page), now);
      && Slot(key, page) in young
      && Find(Store(config, s, url, response, observations, now).entries, key) ==
         if Behind(young, Slot(key, page)) < config.maxEntries then Some(page) else None
  {
    var key, page := config.canonical(url), NewPage(config, response, observations, now);
    var put := Put(s.entries, key, page);
    var young := Young(config, put, now);
    PutMeans(s.entries, key, page, key);
    PutDistinct(s.entries, key, page);
    NewPageIsYoung(config, s.entries, key, page, now);
    BehindIsLess(young, Slot(key, page));
    if |put| > config.maxEntries {
      SurvivesByKey(config, s.(entries := put), now, Slot(key, page));
    }
  }

  lemma SurvivesByKey(config: Config, s: Cache, now: Time, slot: Slot)
    requires Distinct(s.entries) && slot in Young(config, s.entries, now)
    ensures Find(Prune(config, s, now).entries, slot.key) ==
      if Behind(Young(config, s.entries, now), slot) < config.maxEntries then Some(slot.page) else None
  {
    var young := Young(config, s.entries, now);
    YoungMeans(config, s.entries, now);
    OldestExactly(config, young, slot);
    WithoutFind(young, Keys(Oldest(config, young)), slot.key);
    FindMeans(young, slot.key);
  }

  function Above(entries: seq<Slot>, r: Time): nat
  {
    if entries == [] then 0 else Above(entries[1..], r) + if Recency(entries[0].page) > r then 1 else 0
  }

  lemma {:induction false} AboveIsFull(entries: seq<Slot>, r: Time)
    ensures Above(entries, r) <= |entries|
    ensures Above(entries, r) == |entries| <==> forall slot | slot in entries :: Recency(slot.page) > r
  {
    if entries != [] {
      assert entries == [entries[0]] + entries[1..];
      AboveIsFull(entries[1..], r);
    }
  }

  lemma {:induction false} BehindTheLast(entries: seq<Slot>, slot: Slot)
    requires slot !in entries
    ensures slot in entries + [slot] && Behind(entries + [slot], slot) == Above(entries, Recency(slot.page))
  {
    if entries != [] {
      assert (entries + [slot])[1..] == entries[1..] + [slot];
      BehindTheLast(entries[1..], slot);
    }
  }

  lemma {:induction false} WithoutSnoc(entries: seq<Slot>, slot: Slot, gone: set<string>)
    requires slot.key !in gone
    ensures Without(entries + [slot], gone) == Without(entries, gone) + [slot]
  {
    if entries != [] {
      assert (entries + [slot])[1..] == entries[1..] + [slot];
      WithoutSnoc(entries[1..], slot, gone);
    }
  }

  lemma YoungSnoc(config: Config, entries: seq<Slot>, slot: Slot, now: Time)
    requires slot.key !in Keys(entries) && !Expired(config, slot.page, now)
    ensures Young(config, entries + [slot], now) == Young(config, entries, now) + [slot]
  {
    assert ExpiredKeys(config, entries + [slot], now) == ExpiredKeys(config, entries, now);
    assert ExpiredKeys(config, entries, now) <= Keys(entries);
    WithoutSnoc(entries, slot, ExpiredKeys(config, entries, now));
  }

  /** The unexpired slots are a full cache, all more recent than r. */
  lemma FullAbove(config: Config, entries: seq<Slot>, now: Time, r: Time)
    requires Distinct(entries) && |entries| <= config.maxEntries
    ensures Above(Young(config, entries, now), r) >= config.maxEntries <==>
      |entries| == config.maxEntries && forall slot | slot in entries ::
        !Expired(config, slot.page, now) && Recency(slot.page) > r
  {
    var young := Young(config, entries, now);
    YoungMeans(config, entries, now);
    AboveIsFull(young, r);
    if forall slot | slot in entries :: !Expired(config, slot.page, now) {
      assert ExpiredKeys(config, entries, now) == {};
    } else {
      var slot :| slot in entries && Expired(config, slot.page, now);
      assert slot.key in ExpiredKeys(config, entries, now);
    }
  }

  /** From `open` on the cache is within its limit; then the page just stored can be looked up except in exactly one
      case: the cache was full of unexpired pages under other keys, all of them used at a time later than now. */
  lemma StoredWithinTheLimit(config: Config, s: Cache, url: string, response: Response, observations: seq<string>,
        now: Time)
    requires Distinct(s.entries) && |s.entries| <= config.maxEntries && config.ttl > 0.0
    ensures Find(Store(config, s, url, response, observations, now).entries, config.canonical(url)) ==
            if && config.canonical(url) !in Keys(s.entries) && |s.entries| == config.maxEntries
               && forall slot | slot in s.entries :: !Expired(config, slot.page, now) && Recency(slot.page) > now
            then None else Some(NewPage(config, response, observations, now))
  {
    var key, page := config.canonical(url), NewPage(config, response, observations, now);
    StoredIsKeptExactly(config, s, url, response, observations, now);
    FindMeans(s.entries, key);
    PutMeans(s.entries, key, page, key);
    if key in Keys(s.entries) {
      NewPageIsYoung(config, s.entries, key, page, now);
      BehindIsLess(Young(config, Put(s.entries, key, page), now), Slot(key, page));
    } else {
      YoungSnoc(config, s.entries, Slot(key, page), now);
      YoungMeans(config, s.entries, now);
      assert Slot(key, page) !in Young(config, s.entries, now);
      BehindTheLast(Young(config, s.entries, now), Slot(key, page));
      FullAbove(config, s.entries, now, now);
    }
  }

  // ---------------------------------------------------------------- runs

  /** `validators` and `observations` are both a lookup; `note_hit` is a lookup that counts. */
  datatype Op =
    | LookUp(url: string, now: Time)
    | Hit(url: string, now: Time)
    | Save(url: string, response: Response, seen: seq<string>, now: Time)
    | Trim(now: Time)

  function Step(config: Config, s: Cache, op: Op): Cache
  {
    match op
    case LookUp(url, now) => Fresh(config, s, config.canonical(url), now).0
    case Hit(url, now) => NoteHit(config, s, url, now)
    case Save(url, response, seen, now) => Store(config, s, url, response, seen, now)
    case Trim(now) => Prune(config, s, now)
  }

  /** `open`: the entries of the file, pruned. */
  function Opened(config: Config, loaded: seq<Slot>, now: Time): Cache
  {
    Prune(config, Fill(loaded), now)
  }

  function Exec(config: Config, s: Cache, ops: seq<Op>): Cache
  {
    if ops == [] then s else Step(config, Exec(config, s, ops[..|ops| - 1]), ops[|ops| - 1])
  }

  ghost predicate Inv(config: Config, s: Cache)
  {
    Distinct(s.entries) && |s.entries| <= config.maxEntries
  }

  /** A store under a key that is not in the dict. */
  function AddsKey(config: Config, s: Cache, op: Op): nat
  {
    if op.Save? && Find(s.entries, config.canonical(op.url)).None? then 1 else 0
  }

  function Held(s: Cache): nat
  {
    |s.entries| + s.expired + s.evicted
  }

  lemma LookUpStep(config: Config, s: Cache, key: string, now: Time)
    requires Inv(config, s)
    ensures Inv(config, Fresh(config, s, key, now).0) && Held(Fresh(config, s, key, now).0) == Held(s)
  {
    FindMeans(s.entries, key);
    if Find(s.entries, key).Some? {
      var page := Touched(Find(s.entries, key).value, now);
      PutMeans(s.entries, key, page, key);
      PutDistinct(s.entries, key, page);
      WithoutDistinct(s.entries, {key});
      WithoutCounts(s.entries, {key});
      assert Keys(s.entries) * {key} == {key};
    }
  }

  lemma SaveStep(config: Config, s: Cache, op: Op)
    requires Inv(config, s) && op.Save?
    ensures Inv(config, Step(config, s, op)) && Held(Step(config, s, op)) == Held(s) + AddsKey(config, s, op)
  {
    var key, page := config.canonical(op.url), NewPage(config, op.response, op.seen, op.now);
    PutMeans(s.entries, key, page, key);
    PutDistinct(s.entries, key, page);
    PruneCounts(config, s.(entries := Put(s.entries, key, page)), op.now);
  }

  lemma StepInv(config: Config, s: Cache, op: Op)
    requires Inv(config, s)
    ensures Inv(config, Step(config, s, op)) && Held(Step(config, s, op)) == Held(s) + AddsKey(config, s, op)
  {
    match op
    case LookUp(url, now) => LookUpStep(config, s, config.canonical(url), now);
    case Hit(url, now) => LookUpStep(config, s, config.canonical(url), now);
    case Save(_, _, _, _) => SaveStep(config, s, op);
    case Trim(now) => PruneCounts(config, s, now);
  }

  function KeysAdded(config: Config, s: Cache, ops: seq<Op>): nat
  {
    if ops == [] then 0 else
      KeysAdded(config, s, ops[..|ops| - 1]) + AddsKey(config, Exec(config, s, ops[..|ops| - 1]), ops[|ops| - 1])
  }

  lemma {:induction false} ExecInv(config: Config, s: Cache, ops: seq<Op>)
    requires Inv(config, s)
    ensures Inv(config, Exec(config, s, ops)) && Held(Exec(config, s, ops)) == Held(s) + KeysAdded(config, s, ops)
  {
    if ops != [] {
      ExecInv(config, s, ops[..|ops| - 1]);
      StepInv(config, Exec(config, s, ops[..|ops| - 1]), ops[|ops| - 1]);
    }
  }

  /** From `open` on the cache never holds more than its limit, and no slot is lost uncounted:
      loaded slots plus stores under new keys are the live slots plus the expired and the evicted. */
  lemma {:induction false} BoundedAndConserved(config: Config, loaded: seq<Slot>, openedAt: Time, ops: seq<Op>)
    requires Distinct(loaded)
    ensures var start := Opened(config, loaded, openedAt);
      var s := Exec(config, start, ops);
      && |s.entries| <= config.maxEntries
      && |loaded| + KeysAdded(config, start, ops) == |s.entries| + s.expired + s.evicted
  {
    PruneCounts(config, Fill(loaded), openedAt);
    ExecInv(config, Opened(config, loaded, openedAt), ops);
  }

  lemma InvFromOpen(config: Config, loaded: seq<Slot>, openedAt: Time, ops: seq<Op>)
    requires Distinct(loaded)
    ensures Inv(config, Exec(config, Opened(config, loaded, openedAt), ops))
  {
    PruneCounts(config, Fill(loaded), openedAt);
    ExecInv(config, Opened(config, loaded, openedAt), ops);
  }

  // ---------------------------------------------------------------- what the slots mean

  /** A page without its last access, which only lookups change. */
  function Content(page: Page): Page
  {
    page.(lastAccessed := 0.0)
  }

  predicate Uses(config: Config, op: Op, key: string)
  {
    !op.Trim? && config.canonical(op.url) == key
  }

  predicate Saves(config: Config, op: Op, key: string)
  {
    op.Save? && config.canonical(op.url) == key
  }

  /** What was last saved under the key; before any save, what the file held. */
  function LastSaved(config: Config, loaded: seq<Slot>, ops: seq<Op>, key: string): Option<Page>
  {
    if ops == [] then (match Find(loaded, key) case None => None case Some(page) => Some(Content(page)))
    else
      var last := ops[|ops| - 1];
      if Saves(config, last, key) then Some(Content(NewPage(config, last.response, last.seen, last.now)))
      else LastSaved(config, loaded, ops[..|ops| - 1], key)
  }

  /** When the key was last saved or looked up; before that, the recency the file gave it.  A lookup at clock zero
      leaves no last access, so it counts as the time the page was saved. */
  function LastUse(config: Config, loaded: seq<Slot>, ops: seq<Op>, key: string): Option<Time>
  {
    if ops == [] then (match Find(loaded, key) case None => None case Some(page) => Some(Recency(page)))
    else
      var before, last := ops[..|ops| - 1], ops[|ops| - 1];
      if Saves(config, last, key) || (Uses(config, last, key) && last.now != 0.0) then Some(last.now)
      else if Uses(config, last, key) then
        (match LastSaved(config, loaded, before, key) case None => None case Some(page) => Some(page.storedAt))
      else LastUse(config, loaded, before, key)
  }

  lemma PruneFind(config: Config, s: Cache, now: Time, key: string)
    ensures Find(Prune(config, s, now).entries, key).Some? ==>
      Find(Prune(config, s, now).entries, key) == Find(s.entries, key)
  {
    var left := Young(config, s.entries, now);
    WithoutFind(s.entries, ExpiredKeys(config, s.entries, now), key);
    WithoutFind(left, Keys(Oldest(config, left)), key);
  }

  /** A step either leaves a surviving page alone, or touches it, or saves it. */
  lemma StepFind(config: Config, s: Cache, op: Op, key: string)
    requires Find(Step(config, s, op).entries, key).Some?
    ensures Find(Step(config, s, op).entries, key) ==
            if Saves(config, op, key) then Some(NewPage(config, op.response, op.seen, op.now))
            else if Uses(config, op, key) && Find(s.entries, key).Some? then
              Some(Touched(Find(s.entries, key).value, op.now))
            else Find(s.entries, key)
  {
    match op
    case LookUp(url, now) => LookUpExactly(config, s, config.canonical(url), now, key);
    case Hit(url, now) => LookUpExactly(config, s, config.canonical(url), now, key);
    case Trim(now) => PruneFind(config, s, now, key);
    case Save(url, response, seen, now) =>
      var page := NewPage(config, response, seen, now);
      PutMeans(s.entries, config.canonical(url), page, key);
      PruneFind(config, s.(entries := Put(s.entries, config.canonical(url), page)), now, key);
  }

  predicate NonzeroTimes(ops: seq<Op>)
  {
    forall op | op in ops :: op.now != 0.0
  }

  lemma NonzeroPrefix(ops: seq<Op>)
    requires NonzeroTimes(ops) && ops != []
    ensures NonzeroTimes(ops[..|ops| - 1]) && ops[|ops| - 1].now != 0.0
  {
    forall op | op in ops[..|ops| - 1]
      ensures op in ops
    {
    }
  }

  /** Whatever a lookup finds is what was last saved under that key. */
  lemma {:induction false} FoundIsLastSaved(config: Config, loaded: seq<Slot>, openedAt: Time, ops: seq<Op>,
        key: string)
    ensures var found := Find(Exec(config, Opened(config, loaded, openedAt), ops).entries, key);
      found.Some? ==> LastSaved(config, loaded, ops, key) == Some(Content(found.value))
  {
    var start := Opened(config, loaded, openedAt);
    if Find(Exec(config, start, ops).entries, key).Some? {
      if ops == [] {
        PruneFind(config, Fill(loaded), openedAt, key);
      } else {
        FoundIsLastSaved(config, loaded, openedAt, ops[..|ops| - 1], key);
        StepFind(config, Exec(config, start, ops[..|ops| - 1]), ops[|ops| - 1], key);
      }
    }
  }

  /** A page's recency is the time of its last use, in every run. */
  lemma {:induction false} RecencyIsLastUse(config: Config, loaded: seq<Slot>, openedAt: Time, ops: seq<Op>,
        key: string)
    ensures var found := Find(Exec(config, Opened(config, loaded, openedAt), ops).entries, key);
      found.Some? ==> LastUse(config, loaded, ops, key) == Some(Recency(found.value))
  {
    var start := Opened(config, loaded, openedAt);
    if Find(Exec(config, start, ops).entries, key).Some? {
      if ops == [] {
        PruneFind(config, Fill(loaded), openedAt, key);
      } else {
        var before := ops[..|ops| - 1];
        RecencyIsLastUse(config, loaded, openedAt, before, key);
        FoundIsLastSaved(config, loaded, openedAt, before, key);
        StepFind(config, Exec(config, start, before), ops[|ops| - 1], key);
      }
    }
  }

  // ---------------------------------------------------------------- evictions

  /** What a save leaves in the dict before it prunes. */
  function PutOf(config: Config, s: Cache, save: Op): seq<Slot>
    requires save.Save?
  {
    Put(s.entries, config.canonical(save.url), NewPage(config, save.response, save.seen, save.now))
  }

  /** The slots a save works on carry the times of their last uses, the save included. */
  lemma SlotsCarryTheirUse(config: Config, loaded: seq<Slot>, openedAt: Time, ops: seq<Op>, save: Op, slot: Slot)
    requires Distinct(loaded) && save.Save?
    requires slot in PutOf(config, Exec(config, Opened(config, loaded, openedAt), ops), save)
    ensures LastUse(config, loaded, ops + [save], slot.key) == Some(Recency(slot.page))
  {
    var s := Exec(config, Opened(config, loaded, openedAt), ops);
    var key, page := config.canonical(save.url), NewPage(config, save.response, save.seen, save.now);
    InvFromOpen(config, loaded, openedAt, ops);
    PutDistinct(s.entries, key, page);
    PutMeans(s.entries, key, page, slot.key);
    FindMeans(PutOf(config, s, save), slot.key);
    assert Find(PutOf(config, s, save), slot.key) == Some(slot.page);
    assert (ops + [save])[..|ops|] == ops;
    RecencyIsLastUse(config, loaded, openedAt, ops, slot.key);
  }

  /** Least recently used goes first, in every run: when a store drops an unexpired page and keeps another, the
      dropped key was not used after the kept one, the store itself being a use. */
  lemma StoreEvictsLeastRecentlyUsed(config: Config, loaded: seq<Slot>, openedAt: Time, ops: seq<Op>, save: Op,
        kept: Slot, lost: Slot)
    requires Distinct(loaded) && save.Save?
    requires var s := Exec(config, Opened(config, loaded, openedAt), ops);
      && lost in PutOf(config, s, save) && !Expired(config, lost.page, save.now)
      && lost !in Step(config, s, save).entries && kept in Step(config, s, save).entries
    ensures var lostUse, keptUse :=
      LastUse(config, loaded, ops + [save], lost.key), LastUse(config, loaded, ops + [save], kept.key);
      lostUse.Some? && keptUse.Some? && lostUse.value <= keptUse.value
  {
    var s := Exec(config, Opened(config, loaded, openedAt), ops);
    var put := PutOf(config, s, save);
    InvFromOpen(config, loaded, openedAt, ops);
    PutDistinct(s.entries, config.canonical(save.url), NewPage(config, save.response, save.seen, save.now));
    PruneKeepsTheMostRecent(config, s.(entries := put), save.now);
    SlotsCarryTheirUse(config, loaded, openedAt, ops, save, lost);
    SlotsCarryTheirUse(config, loaded, openedAt, ops, save, kept);
  }

  /** The same when `open` prunes what the file held. */
  lemma OpenEvictsLeastRecentlyUsed(config: Config, loaded: seq<Slot>, openedAt: Time, kept: Slot, lost: Slot)
    requires Distinct(loaded) && lost in loaded && !Expired(config, lost.page, openedAt)
    requires lost !in Opened(config, loaded, openedAt).entries && kept in Opened(config, loaded, openedAt).entries
    ensures var lostUse, keptUse := LastUse(config, loaded, [], lost.key), LastUse(config, loaded, [], kept.key);
      lostUse.Some? && keptUse.Some? && lostUse.value <= keptUse.value
  {
    PruneKeepsTheMostRecent(config, Fill(loaded), openedAt);
    FindMeans(loaded, lost.key);
    FindMeans(loaded, kept.key);
  }

  /** There are no other evictions: once open, a prune of its own removes expired pages only. */
  lemma PruneOnlyExpires(config: Config, loaded: seq<Slot>, openedAt: Time, ops: seq<Op>, now: Time, slot: Slot)
    requires Distinct(loaded)
    ensures var s := Exec(config, Opened(config, loaded, openedAt), ops);
      && Prune(config, s, now).evicted == s.evicted
      && (slot in Prune(config, s, now).entries <==> slot in s.entries && !Expired(config, slot.page, now))
  {
    var s := Exec(config, Opened(config, loaded, openedAt), ops);
    InvFromOpen(config, loaded, openedAt, ops);
    YoungMeans(config, s.entries, now);
    PruneKeepsExactly(config, s, now, slot);
    if slot in Young(config, s.entries, now) {
      BehindIsLess(Young(config, s.entries, now), slot);
    }
  }

  /** A page stored in an empty cache is all it holds. */
  lemma {:induction false} FirstPage(config: Config, openedAt: Time, save: Op)
    requires config.maxEntries >= 1 && save.Save?
    ensures Exec(config, Opened(config, [], openedAt), [save]).entries ==
      [Slot(config.canonical(save.url), NewPage(config, save.response, save.seen, save.now))]
  {
    var empty := Opened(config, [], openedAt);
    assert Without([], ExpiredKeys(config, [], openedAt)) == [];
    assert empty.entries == [];
    assert [save][..0] == [];
    assert Exec(config, empty, [save]) == Step(config, empty, save);
  }

  /** An eviction: in a cache for one page, storing a second one drops the first, unexpired. */
  lemma {:induction false} SecondPageEvictsFirst(config: Config, first: Op, second: Op, openedAt: Time)
    requires config.maxEntries == 1 && config.ttl >= 1.0 && first.Save? && second.Save?
    requires config.canonical(first.url) != config.canonical(second.url) && first.now == 1.0 && second.now == 2.0
    ensures var s := Exec(config, Opened(config, [], openedAt), [first]);
      var lost := Slot(config.canonical(first.url), NewPage(config, first.response, first.seen, first.now));
      var kept := Slot(config.canonical(second.url), NewPage(config, second.response, second.seen, second.now));
      && lost in PutOf(config, s, second) && !Expired(config, lost.page, second.now)
      && lost !in Step(config, s, second).entries && kept in Step(config, s, second).entries
  {
    var s := Exec(config, Opened(config, [], openedAt), [first]);
    var lost := Slot(config.canonical(first.url), NewPage(config, first.response, first.seen, first.now));
    var kept := Slot(config.canonical(second.url), NewPage(config, second.response, second.seen, second.now));
    FirstPage(config, openedAt, first);
    var put := PutOf(config, s, second);
    PutSecond(lost, kept);
    PruneTwo(config, s.(entries := put), lost, kept, second.now);
  }

  lemma {:induction false} PutSecond(lost: Slot, kept: Slot)
    requires lost.key != kept.key
    ensures Put([lost], kept.key, kept.page) == [lost] + [kept]
  {
    assert [lost][1..] == [];
    assert Put([], kept.key, kept.page) == [kept];
  }

  lemma {:induction false} PruneTwo(config: Config, s: Cache, lost: Slot, kept: Slot, now: Time)
    requires config.maxEntries == 1 && s.entries == [lost] + [kept] && lost.key != kept.key
    requires !Expired(config, lost.page, now) && !Expired(config, kept.page, now)
    requires Recency(lost.page) < Recency(kept.page)
    ensures lost !in Prune(config, s, now).entries && kept in Prune(config, s, now).entries
  {
    assert s.entries[1..] == [kept] && [kept][1..] == [] && kept in [kept];
    assert Keys([kept]) == {kept.key};
    assert Distinct([kept]) && Distinct(s.entries);
    assert ExpiredKeys(config, s.entries, now) == {};
    WithoutNothing(s.entries);
    PruneKeepsExactly(config, s, now, lost);
    PruneKeepsExactly(config, s, now, kept);
    assert AtLeast([kept], Recency(lost.page)) == 1 && AtLeast([], Recency(kept.page)) == 0;
  }

  // ---------------------------------------------------------------- clocks

  predicate NonzeroStamps(entries: seq<Slot>)
  {
    forall slot | slot in entries :: slot.page.storedAt != 0.0
  }

  lemma {:induction false} SavedStampsAreNonzero(config: Config, loaded: seq<Slot>, ops: seq<Op>, key: string)
    requires NonzeroStamps(loaded) && NonzeroTimes(ops)
    ensures var saved := LastSaved(config, loaded, ops, key);
      saved.Some? ==> saved.value.storedAt != 0.0
  {
    if ops == [] {
      FindMeans(loaded, key);
    } else {
      NonzeroPrefix(ops);
      SavedStampsAreNonzero(config, loaded, ops[..|ops| - 1], key);
    }
  }

  /** With no zero stamp in the file and a clock that never reads zero, no lookup in any run returns a
      page older than the time to live. */
  lemma NothingStaleIsReturned(config: Config, loaded: seq<Slot>, openedAt: Time, ops: seq<Op>, key: string, now: Time)
    requires NonzeroStamps(loaded) && NonzeroTimes(ops)
    ensures var page := Fresh(config, Exec(config, Opened(config, loaded, openedAt), ops), key, now).1;
      page.Some? ==> now - page.value.storedAt <= config.ttl
  {
    FoundIsLastSaved(config, loaded, openedAt, ops, key);
    SavedStampsAreNonzero(config, loaded, ops, key);
    StaleIsReturnedExactly(config, Exec(config, Opened(config, loaded, openedAt), ops), key, now);
  }

  predicate ClockForward(start: Time, ops: seq<Op>)
  {
    if ops == [] then true else
      ClockForward(start, ops[..|ops| - 1]) && Latest(start, ops[..|ops| - 1]) <= ops[|ops| - 1].now
  }

  function Latest(start: Time, ops: seq<Op>): Time
  {
    if ops == [] then start else ops[|ops| - 1].now
  }

  predicate NotAfter(page: Page, now: Time)
  {
    page.storedAt <= now && page.lastAccessed <= now
  }

  lemma {:induction false} NothingFromTheFuture(config: Config, loaded: seq<Slot>, openedAt: Time, ops: seq<Op>,
        key: string)
    requires ClockForward(openedAt, ops) && forall slot | slot in loaded :: NotAfter(slot.page, openedAt)
    ensures var found := Find(Exec(config, Opened(config, loaded, openedAt), ops).entries, key);
      found.Some? ==> NotAfter(found.value, Latest(openedAt, ops))
  {
    var start := Opened(config, loaded, openedAt);
    if Find(Exec(config, start, ops).entries, key).Some? {
      if ops == [] {
        PruneFind(config, Fill(loaded), openedAt, key);
        FindMeans(loaded, key);
      } else {
        NothingFromTheFuture(config, loaded, openedAt, ops[..|ops| - 1], key);
        StepFind(config, Exec(config, start, ops[..|ops| - 1]), ops[|ops| - 1], key);
      }
    }
  }

  /** Some slot of a nonempty cache was not used after the present. */
  lemma SomeSlotIsPast(config: Config, loaded: seq<Slot>, openedAt: Time, ops: seq<Op>, now: Time) returns (slot: Slot)
    requires ClockForward(openedAt, ops) && Latest(openedAt, ops) <= now
    requires forall slot | slot in loaded :: NotAfter(slot.page, openedAt)
    requires Distinct(loaded) && Exec(config, Opened(config, loaded, openedAt), ops).entries != []
    ensures slot in Exec(config, Opened(config, loaded, openedAt), ops).entries && Recency(slot.page) <= now
  {
    var s := Exec(config, Opened(config, loaded, openedAt), ops);
    slot := s.entries[0];
    NothingFromTheFuture(config, loaded, openedAt, ops, slot.key);
    assert Find(s.entries, slot.key) == Some(slot.page);
  }

  lemma SaveLast(config: Config, start: Cache, ops: seq<Op>, op: Op)
    ensures Exec(config, start, ops + [op]) == Step(config, Exec(config, start, ops), op)
  {
    assert (ops + [op])[..|ops|] == ops;
  }

  lemma StoreAfterPast(config: Config, s: Cache, url: string, response: Response, seen: seq<string>, now: Time)
    requires Inv(config, s) && config.maxEntries >= 1 && config.ttl > 0.0
    requires s.entries != [] ==> exists slot :: slot in s.entries && Recency(slot.page) <= now
    ensures Find(Store(config, s, url, response, seen, now).entries, config.canonical(url)) ==
      Some(NewPage(config, response, seen, now))
  {
    StoredWithinTheLimit(config, s, url, response, seen, now);
  }

  /** With a clock that does not run backwards, a store never evicts what it just stored. */
  lemma {:induction false} StoreIsReadable(config: Config, loaded: seq<Slot>, openedAt: Time, ops: seq<Op>, url: string,
        response: Response, seen: seq<string>, now: Time)
    requires Distinct(loaded) && config.maxEntries >= 1 && config.ttl > 0.0
    requires ClockForward(openedAt, ops) && Latest(openedAt, ops) <= now
    requires forall slot | slot in loaded :: NotAfter(slot.page, openedAt)
    ensures Find(Exec(config, Opened(config, loaded, openedAt), ops + [Save(url, response, seen, now)]).entries,
      config.canonical(url))
         == Some(NewPage(config, response, seen, now))
  {
    var s := Exec(config, Opened(config, loaded, openedAt), ops);
    SaveLast(config, Opened(config, loaded, openedAt), ops, Save(url, response, seen, now));
    InvFromOpen(config, loaded, openedAt, ops);
    if s.entries != [] {
      var slot := SomeSlotIsPast(config, loaded, openedAt, ops, now);
    }
    StoreAfterPast(config, s, url, response, seen, now);
  }
}
