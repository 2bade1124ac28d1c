/** The conditional page cache (src/lowpower_llm_cluster/http_runtime.py:76-193): a dict with a time to live,
    pruned to a size limit by recency.

    The dict is a sequence of slots in insertion order with distinct keys, because the order decides ties
    in the eviction sort. */
module HttpCache {
  import opened Base

  datatype Page = Page(etag: string, lastModified: string, bodyBytes: nat, observations: seq<string>, storedAt: Time,
    lastAccessed: Time)

  datatype Slot = Slot(key: string, page: Page)

  datatype Config = Config(ttl: Time, maxEntries: nat, maxObservations: nat, canonical: string -> string)

  datatype Cache = Cache(entries: seq<Slot>, expired: nat, evicted: nat, prunes: nat, hits: nat, bytesSaved: nat)

  // ---------------------------------------------------------------- the dict

  function Find(entries: seq<Slot>, key: string): Option<Page>
  {
    if entries == [] then None
    else if entries[0].key == key then Some(entries[0].page)
    else Find(entries[1..], key)
  }

  /** Assignment to a key: in place when present, at the end when new. */
  function Put(entries: seq<Slot>, key: string, page: Page): seq<Slot>
  {
    if entries == [] then [Slot(key, page)]
    else if entries[0].key == key then [Slot(key, page)] + entries[1..]
    else [entries[0]] + Put(entries[1..], key, page)
  }

  function Without(entries: seq<Slot>, gone: set<string>): seq<Slot>
  {
    if entries == [] then []
    else if entries[0].key in gone then Without(entries[1..], gone)
    else [entries[0]] + Without(entries[1..], gone)
  }

  function Keys(entries: seq<Slot>): set<string>
  {
    set slot | slot in entries :: slot.key
  }

  predicate Distinct(entries: seq<Slot>)
  {
    entries != [] ==> entries[0].key !in Keys(entries[1..]) && Distinct(entries[1..])
  }

  lemma {:induction false} FindMeans(entries: seq<Slot>, key: string)
    ensures Find(entries, key).Some? <==> key in Keys(entries)
    ensures Find(entries, key).Some? ==> Slot(key, Find(entries, key).value) in entries
    ensures Distinct(entries) ==> forall slot | slot in entries && slot.key == key ::
      Find(entries, key) == Some(slot.page)
  {
    if entries != [] {
      FindMeans(entries[1..], key);
      KeysCons(entries);
      assert entries == [entries[0]] + entries[1..];
    }
  }

  lemma KeysCons(entries: seq<Slot>)
    requires entries != []
    ensures Keys(entries) == {entries[0].key} + Keys(entries[1..])
  {
    assert entries == [entries[0]] + entries[1..];
  }

  lemma {:induction false} PutMeans(entries: seq<Slot>, key: string, page: Page, other: string)
    ensures Find(Put(entries, key, page), other) == if other == key then Some(page) else Find(entries, other)
    ensures Keys(Put(entries, key, page)) == Keys(entries) + {key}
    ensures Find(entries, key).None? ==> Put(entries, key, page) == entries + [Slot(key, page)]
    ensures Find(entries, key).Some? ==> |Put(entries, key, page)| == |entries|
  {
    if entries != [] {
      PutMeans(entries[1..], key, page, other);
      KeysCons(entries);
      KeysCons(Put(entries, key, page));
    }
  }

  lemma {:induction false} PutDistinct(entries: seq<Slot>, key: string, page: Page)
    requires Distinct(entries)
    ensures Distinct(Put(entries, key, page))
  {
    if entries != [] {
      PutDistinct(entries[1..], key, page);
      PutMeans(entries[1..], key, page, key);
    }
  }

  lemma {:induction false} PutSlots(entries: seq<Slot>, key: string, page: Page, slot: Slot)
    ensures slot in Put(entries, key, page) ==> slot == Slot(key, page) || slot in entries
  {
    if entries != [] {
      PutSlots(entries[1..], key, page, slot);
      assert entries == [entries[0]] + entries[1..];
    }
  }

  lemma {:induction false} WithoutMeans(entries: seq<Slot>, gone: set<string>, slot: Slot)
    ensures slot in Without(entries, gone) <==> slot in entries && slot.key !in gone
  {
    if entries != [] {
      WithoutMeans(entries[1..], gone, slot);
      assert entries == [entries[0]] + entries[1..];
    }
  }

  lemma {:induction false} WithoutFind(entries: seq<Slot>, gone: set<string>, key: string)
    ensures Find(Without(entries, gone), key) == if key in gone then None else Find(entries, key)
  {
    if entries != [] {
      WithoutFind(entries[1..], gone, key);
      if entries[0].key !in gone {
        assert Without(entries, gone)[1..] == Without(entries[1..], gone);
      }
    }
  }

  lemma WithoutKeys(entries: seq<Slot>, gone: set<string>)
    ensures Keys(Without(entries, gone)) == Keys(entries) - gone
  {
    forall slot {
      WithoutMeans(entries, gone, slot);
    }
  }

  lemma {:induction false} WithoutDistinct(entries: seq<Slot>, gone: set<string>)
    requires Distinct(entries)
    ensures Distinct(Without(entries, gone))
  {
    if entries != [] {
      WithoutDistinct(entries[1..], gone);
      WithoutKeys(entries[1..], gone);
      if entries[0].key !in gone {
        assert Without(entries, gone)[1..] == Without(entries[1..], gone);
      }
    }
  }

  /** Deleting keys shortens the dict by those it had. */
  lemma WithoutCounts(entries: seq<Slot>, gone: set<string>)
    requires Distinct(entries)
    ensures |Without(entries, gone)| == |entries| - |Keys(entries) * gone|
  {
    WithoutDistinct(entries, gone);
    WithoutKeys(entries, gone);
    DistinctCounts(entries);
    DistinctCounts(Without(entries, gone));
  }

  lemma {:induction false} WithoutTwice(entries: seq<Slot>, first: set<string>, second: set<string>)
    ensures Without(Without(entries, first), second) == Without(entries, first + second)
  {
    if entries != [] {
      WithoutTwice(entries[1..], first, second);
      if entries[0].key !in first {
        assert Without(entries, first)[1..] == Without(entries[1..], first);
      }
    }
  }

  lemma {:induction false} WithoutNothing(entries: seq<Slot>)
    ensures Without(entries, {}) == entries
  {
    if entries != [] {
      WithoutNothing(entries[1..]);
    }
  }

  /** Distinct is a matter of counting, so it does not depend on the order. */
  lemma {:induction false} DistinctCounts(entries: seq<Slot>)
    ensures |Keys(entries)| <= |entries|
    ensures Distinct(entries) <==> |Keys(entries)| == |entries|
  {
    if entries != [] {
      DistinctCounts(entries[1..]);
      KeysCons(entries);
    }
  }

  // ---------------------------------------------------------------- the eviction sort

  /** `last_accessed or stored_at`. */
  function Recency(page: Page): Time
  {
    if page.lastAccessed != 0.0 then page.lastAccessed else page.storedAt
  }

  function Insert(slot: Slot, sorted: seq<Slot>): seq<Slot>
  {
    if sorted == [] || Recency(slot.page) <= Recency(sorted[0].page) then [slot] + sorted
    else [sorted[0]] + Insert(slot, sorted[1..])
  }

  /** `sorted` by recency; slots of equal recency stay in order. */
  function StableSort(entries: seq<Slot>): seq<Slot>
  {
    if entries == [] then [] else Insert(entries[0], StableSort(entries[1..]))
  }

  ghost predicate Ordered(sorted: seq<Slot>)
  {
    forall i, j | 0 <= i <= j < |sorted| :: Recency(sorted[i].page) <= Recency(sorted[j].page)
  }

  lemma {:induction false} InsertAdds(slot: Slot, sorted: seq<Slot>)
    ensures multiset(Insert(slot, sorted)) == multiset(sorted) + multiset{slot}
    ensures forall x :: x in Insert(slot, sorted) <==> x == slot || x in sorted
  {
    if sorted != [] && Recency(slot.page) > Recency(sorted[0].page) {
      InsertAdds(slot, sorted[1..]);
      assert sorted == [sorted[0]] + sorted[1..];
    }
  }

  lemma OrderedCons(slot: Slot, sorted: seq<Slot>)
    requires Ordered(sorted) && forall x | x in sorted :: Recency(slot.page) <= Recency(x.page)
    ensures Ordered([slot] + sorted)
  {
  }

  lemma OrderedHead(sorted: seq<Slot>)
    requires Ordered(sorted) && sorted != []
    ensures Ordered(sorted[1..]) && forall x | x in sorted :: Recency(sorted[0].page) <= Recency(x.page)
  {
  }

  lemma {:induction false} InsertOrders(slot: Slot, sorted: seq<Slot>)
    requires Ordered(sorted)
    ensures Ordered(Insert(slot, sorted))
    ensures multiset(Insert(slot, sorted)) == multiset(sorted) + multiset{slot}
  {
    InsertAdds(slot, sorted);
    if sorted == [] {
    } else if Recency(slot.page) <= Recency(sorted[0].page) {
      OrderedHead(sorted);
      OrderedCons(slot, sorted);
    } else {
      OrderedHead(sorted);
      InsertOrders(slot, sorted[1..]);
      InsertAdds(slot, sorted[1..]);
      assert forall x | x in sorted[1..] :: x in sorted;
      OrderedCons(sorted[0], Insert(slot, sorted[1..]));
    }
  }

  lemma {:induction false} SortOrders(entries: seq<Slot>)
    ensures Ordered(StableSort(entries))
    ensures multiset(StableSort(entries)) == multiset(entries)
    ensures |StableSort(entries)| == |entries|
  {
    if entries != [] {
      SortOrders(entries[1..]);
      InsertOrders(entries[0], StableSort(entries[1..]));
      assert entries == [entries[0]] + entries[1..];
    }
    SameLength(StableSort(entries), entries);
  }

  lemma SameLength(a: seq<Slot>, b: seq<Slot>)
    requires multiset(a) == multiset(b)
    ensures |a| == |b|
  {
    assert |multiset(a)| == |multiset(b)|;
  }

  /** How many slots are at least as recent as r. */
  function AtLeast(entries: seq<Slot>, r: Time): nat
  {
    if entries == [] then 0 else AtLeast(entries[1..], r) + if Recency(entries[0].page) >= r then 1 else 0
  }

  /** How many slots of the dict go behind this one in the eviction order: the more recent ones, and of the equally
      recent ones those that come later in the dict. */
  function Behind(entries: seq<Slot>, slot: Slot): nat
    requires slot in entries
  {
    if entries[0] == slot then AtLeast(entries[1..], Recency(slot.page))
    else
      assert entries == [entries[0]] + entries[1..];
      Behind(entries[1..], slot) + if Recency(entries[0].page) > Recency(slot.page) then 1 else 0
  }

  /** How many slots stand behind this one in a list. */
  function TailAfter(sorted: seq<Slot>, slot: Slot): nat
    requires slot in sorted
  {
    if sorted[0] == slot then |sorted| - 1 else
      assert sorted == [sorted[0]] + sorted[1..];
      TailAfter(sorted[1..], slot)
  }

  lemma {:induction false} InsertAtLeast(slot: Slot, sorted: seq<Slot>, r: Time)
    ensures AtLeast(Insert(slot, sorted), r) == AtLeast(sorted, r) + if Recency(slot.page) >= r then 1 else 0
  {
    if sorted != [] && Recency(slot.page) > Recency(sorted[0].page) {
      InsertAtLeast(slot, sorted[1..], r);
    }
  }

  lemma {:induction false} SortAtLeast(entries: seq<Slot>, r: Time)
    ensures AtLeast(StableSort(entries), r) == AtLeast(entries, r)
  {
    if entries != [] {
      SortAtLeast(entries[1..], r);
      InsertAtLeast(entries[0], StableSort(entries[1..]), r);
    }
  }

  lemma {:induction false} AllAtLeast(sorted: seq<Slot>, r: Time)
    requires forall x | x in sorted :: Recency(x.page) >= r
    ensures AtLeast(sorted, r) == |sorted|
  {
    if sorted != [] {
      assert sorted == [sorted[0]] + sorted[1..];
      AllAtLeast(sorted[1..], r);
    }
  }

  lemma {:induction false} InsertedTail(slot: Slot, sorted: seq<Slot>)
    requires Ordered(sorted) && slot !in sorted
    ensures slot in Insert(slot, sorted) && TailAfter(Insert(slot, sorted), slot) == AtLeast(sorted, Recency(slot.page))
  {
    InsertAdds(slot, sorted);
    if sorted != [] {
      OrderedHead(sorted);
      if Recency(slot.page) <= Recency(sorted[0].page) {
        AllAtLeast(sorted, Recency(slot.page));
      } else {
        assert slot !in sorted[1..];
        InsertedTail(slot, sorted[1..]);
      }
    }
  }

  lemma {:induction false} OtherTail(slot: Slot, sorted: seq<Slot>, x: Slot)
    requires Ordered(sorted) && slot !in sorted && x in sorted
    ensures x in Insert(slot, sorted)
    ensures TailAfter(Insert(slot, sorted), x) == TailAfter(sorted, x) + if Recency(slot.page) > Recency(x.page) then 1
      else 0
  {
    InsertAdds(slot, sorted);
    OrderedHead(sorted);
    if Recency(slot.page) > Recency(sorted[0].page) && x != sorted[0] {
      assert sorted == [sorted[0]] + sorted[1..] && slot !in sorted[1..];
      OtherTail(slot, sorted[1..], x);
    } else if Recency(slot.page) > Recency(sorted[0].page) {
      InsertLength(slot, sorted[1..]);
    }
  }

  lemma {:induction false} InsertLength(slot: Slot, sorted: seq<Slot>)
    ensures |Insert(slot, sorted)| == |sorted| + 1
  {
    if sorted != [] && Recency(slot.page) > Recency(sorted[0].page) {
      InsertLength(slot, sorted[1..]);
    }
  }

  lemma InSorted(entries: seq<Slot>)
    ensures forall slot :: slot in StableSort(entries) <==> slot in entries
  {
    SortOrders(entries);
    forall slot
      ensures slot in StableSort(entries) <==> slot in entries
    {
      assert slot in StableSort(entries) <==> slot in multiset(StableSort(entries));
    }
  }

  /** Stability: the sort leaves every slot exactly its `Behind` slots behind. */
  lemma {:induction false} StableRank(entries: seq<Slot>, slot: Slot)
    requires Distinct(entries) && slot in entries
    ensures slot in StableSort(entries) && TailAfter(StableSort(entries), slot) == Behind(entries, slot)
  {
    var head, rest := entries[0], entries[1..];
    assert entries == [head] + rest && head !in rest;
    InSorted(rest);
    SortOrders(rest);
    if slot == head {
      InsertedTail(head, StableSort(rest));
      SortAtLeast(rest, Recency(head.page));
    } else {
      StableRank(rest, slot);
      OtherTail(head, StableSort(rest), slot);
    }
  }

  /** A slot is among the first n of a list exactly when few enough stand behind it. */
  lemma {:induction false} TailInPrefix(sorted: seq<Slot>, slot: Slot, n: nat)
    requires Distinct(sorted) && slot in sorted && n <= |sorted|
    ensures slot in sorted[..n] <==> TailAfter(sorted, slot) >= |sorted| - n
    ensures TailAfter(sorted, slot) < |sorted|
  {
    assert sorted == [sorted[0]] + sorted[1..];
    if n > 0 {
      assert sorted[..n] == [sorted[0]] + sorted[1..][..n - 1];
    }
    if slot != sorted[0] {
      TailInPrefix(sorted[1..], slot, if n == 0 then 0 else n - 1);
    }
  }

  // ---------------------------------------------------------------- operations

  /** `entry.stored_at and now - entry.stored_at > ttl`: a stamp of zero never expires. */
  predicate Expired(config: Config, page: Page, now: Time)
  {
    page.storedAt != 0.0 && now - page.storedAt > config.ttl
  }

  function ExpiredKeys(config: Config, entries: seq<Slot>, now: Time): set<string>
  {
    set slot | slot in entries && Expired(config, slot.page, now) :: slot.key
  }

  function Over(config: Config, entries: seq<Slot>): nat
  {
    if |entries| > config.maxEntries then |entries| - config.maxEntries else 0
  }

  /** The slots an eviction removes. */
  function Oldest(config: Config, entries: seq<Slot>): (oldest: seq<Slot>)
    ensures |oldest| == Over(config, entries)
  {
    SortOrders(entries);
    StableSort(entries)[..Over(config, entries)]
  }

  function Prune(config: Config, s: Cache, now: Time): Cache
  {
    var stale := ExpiredKeys(config, s.entries, now);
    var left := Without(s.entries, stale);
    s.(entries := Without(left, Keys(Oldest(config, left))), expired := s.expired + |stale|,
       evicted := s.evicted + Over(config, left), prunes := s.prunes + 1)
  }

  function Touched(page: Page, now: Time): Page
  {
    page.(lastAccessed := now)
  }

  function Fresh(config: Config, s: Cache, key: string, now: Time): (Cache, Option<Page>)
  {
    match Find(s.entries, key)
    case None => (s, None)
    case Some(page) =>
      if Expired(config, page, now) then (s.(entries := Without(s.entries, {key}), expired := s.expired + 1), None)
      else (s.(entries := Put(s.entries, key, Touched(page, now))), Some(Touched(page, now)))
  }

  function NoteHit(config: Config, s: Cache, url: string, now: Time): Cache
  {
    var (after, page) := Fresh(config, s, config.canonical(url), now);
    after.(hits := after.hits + 1, bytesSaved := after.bytesSaved + if page.None? then 0 else page.value.bodyBytes)
  }

  datatype Response = Response(etag: string, lastModified: string, bodyBytes: nat)

  /** What a stored response becomes; too many observations are dropped altogether. */
  function NewPage(config: Config, response: Response, observations: seq<string>, now: Time): Page
  {
    Page(response.etag, response.lastModified, response.bodyBytes,
         if |observations| > config.maxObservations then [] else observations, now, now)
  }

  function Store(config: Config, s: Cache, url: string, response: Response, observations: seq<string>, now: Time): Cache
  {
    var stored := s.(entries := Put(s.entries, config.canonical(url), NewPage(config, response, observations, now)));
    if |stored.entries| > config.maxEntries then Prune(config, stored, now) else stored
  }

  function Fill(entries: seq<Slot>): Cache
  {
    Cache(entries, 0, 0, 0, 0, 0)
  }

  class DiscoveryCache {
    const config: Config
    var entries: seq<Slot>
    var expired: nat
    var evicted: nat
    var prunes: nat
    var hits: nat
    var bytesSaved: nat

    ghost function Model(): Cache
      reads this
    {
      Cache(entries, expired, evicted, prunes, hits, bytesSaved)
    }

    /** The cache as built from the entries of a file (none when there is no readable file), before `open` prunes it. */
    constructor (ttl: Time, maxEntries: nat, maxObservations: int, canonical: string -> string, loaded: seq<Slot>)
      requires ttl > 0.0 && maxEntries >= 1 && Distinct(loaded)
      ensures Model() == Fill(loaded)
      ensures config == Config(ttl, maxEntries, if maxObservations < 1 then 1 else maxObservations, canonical)
    {
      config := Config(ttl, maxEntries, if maxObservations < 1 then 1 else maxObservations, canonical);
      entries := loaded;
      expired, evicted, prunes, hits, bytesSaved := 0, 0, 0, 0, 0;
    }

    method LookUp(key: string, now: Time) returns (page: Option<Page>)
      modifies this
      ensures (Model(), page) == Fresh(config, old(Model()), key, now)
      ensures var found := Find(old(entries), key);
        && (page.Some? <==> found.Some? && (found.value.storedAt == 0.0 || now - found.value.storedAt <= config.ttl))
        && (page.Some? ==> page.value == found.value.(lastAccessed := now))
    {
      page := Find(entries, key);
      if page.None? {
        return;
      }
      if Expired(config, page.value, now) {
        entries := Without(entries, {key});
        expired := expired + 1;
        return None;
      }
      page := Some(Touched(page.value, now));
      entries := Put(entries, key, page.value);
    }

    method Validators(url: string, now: Time) returns (headers: map<string, string>)
      modifies this
      ensures Model() == Fresh(config, old(Model()), config.canonical(url), now).0
      ensures var page := Fresh(config, old(Model()), config.canonical(url), now).1;
        && (forall name | name in headers :: name == "If-None-Match" || name == "If-Modified-Since")
        && ("If-None-Match" in headers <==> page.Some? && page.value.observations != [] && page.value.etag != "")
        && ("If-None-Match" in headers ==> headers["If-None-Match"] == page.value.etag)
        && ("If-Modified-Since" in headers <==>
              page.Some? && page.value.observations != [] && page.value.lastModified != "")
        && ("If-Modified-Since" in headers ==> headers["If-Modified-Since"] == page.value.lastModified)
    {
      var page := LookUp(config.canonical(url), now);
      if page.None? || page.value.observations == [] {
        return map[];
      }
      headers := map[];
      if page.value.etag != "" {
        headers := headers["If-None-Match" := page.value.etag];
      }
      if page.value.lastModified != "" {
        headers := headers["If-Modified-Since" := page.value.lastModified];
      }
    }

    method Observations(url: string, now: Time) returns (observations: Option<seq<string>>)
      modifies this
      ensures Model() == Fresh(config, old(Model()), config.canonical(url), now).0
      ensures var page := Fresh(config, old(Model()), config.canonical(url), now).1;
        observations == if page.None? then None else Some(page.value.observations)
    {
      var page := LookUp(config.canonical(url), now);
      observations := if page.None? then None else Some(page.value.observations);
    }

    method CountHit(url: string, now: Time)
      modifies this
      ensures Model() == NoteHit(config, old(Model()), url, now)
    {
      var page := LookUp(config.canonical(url), now);
      hits := hits + 1;
      bytesSaved := bytesSaved + if page.None? then 0 else page.value.bodyBytes;
    }

    /** `for key in gone: del entries[key]`. */
    method DeleteAll(gone: seq<Slot>)
      modifies this`entries
      ensures entries == Without(old(entries), Keys(gone))
    {
      WithoutNothing(entries);
      assert Keys(gone[..0]) == {};
      for k := 0 to |gone|
        invariant entries == Without(old(entries), Keys(gone[..k]))
      {
        WithoutTwice(old(entries), Keys(gone[..k]), {gone[k].key});
        assert gone[..k + 1] == gone[..k] + [gone[k]];
        assert Keys(gone[..k + 1]) == Keys(gone[..k]) + {gone[k].key};
        entries := Without(entries, {gone[k].key});
      }
      assert gone[..|gone|] == gone;
    }

    method PruneEntries(now: Time) returns (removed: int)
      requires Distinct(entries)
      modifies this
      ensures Model() == Prune(config, old(Model()), now)
      ensures removed == |old(entries)| - |entries|
    {
      var before := |entries|;
      var stale := Stale(entries, now);
      DeleteAll(stale);
      expired := expired + |stale|;
      var oldest := Oldest(config, entries);
      if oldest != [] {
        DeleteAll(oldest);
        evicted := evicted + |oldest|;
      } else {
        assert Keys(oldest) == {};
        WithoutNothing(entries);
      }
      prunes := prunes + 1;
      removed := before - |entries|;
    }

    /** The list comprehension over the expired entries. */
    method Stale(slots: seq<Slot>, now: Time) returns (stale: seq<Slot>)
      requires Distinct(slots)
      ensures Keys(stale) == ExpiredKeys(config, slots, now)
      ensures |stale| == |ExpiredKeys(config, slots, now)|
    {
      stale := [];
      for k := 0 to |slots|
        invariant Distinct(stale)
        invariant forall slot :: slot in stale <==> slot in slots[..k] && Expired(config, slot.page, now)
      {
        if Expired(config, slots[k].page, now) {
          DistinctPrefix(slots, k);
          DistinctSnoc(stale, slots[k]);
          stale := stale + [slots[k]];
        }
      }
      DistinctCounts(stale);
      assert slots[..|slots|] == slots;
      assert Keys(stale) == ExpiredKeys(config, slots, now);
    }

    method StorePage(url: string, response: Response, observations: seq<string>, now: Time)
      requires Distinct(entries)
      modifies this
      ensures Model() == Store(config, old(Model()), url, response, observations, now)
    {
      PutDistinct(entries, config.canonical(url), NewPage(config, response, observations, now));
      entries := Put(entries, config.canonical(url), NewPage(config, response, observations, now));
      if |entries| > config.maxEntries {
        var _ := PruneEntries(now);
      }
    }
  }

  lemma {:induction false} DistinctPrefix(entries: seq<Slot>, k: nat)
    requires Distinct(entries) && k < |entries|
    ensures entries[k].key !in Keys(entries[..k])
  {
    if k > 0 {
      DistinctPrefix(entries[1..], k - 1);
      assert entries[..k] == [entries[0]] + entries[1..][..k - 1];
      assert entries[k] in entries[1..];
    }
  }

  lemma {:induction false} DistinctSnoc(entries: seq<Slot>, slot: Slot)
    requires Distinct(entries) && slot.key !in Keys(entries)
    ensures Distinct(entries + [slot])
  {
    DistinctCounts(entries);
    DistinctCounts(entries + [slot]);
    assert Keys(entries + [slot]) == Keys(entries) + {slot.key};
  }
}
