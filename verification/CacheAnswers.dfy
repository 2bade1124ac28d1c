/** What the page cache answers, over whole runs: which pages are found and what they say
    (src/lowpower_llm_cluster/http_runtime.py:114-191). */
module CacheAnswers {
  import opened Base
  import opened HttpCache
  import opened CacheRuns
  import opened StalePages

  // ---------------------------------------------------------------- one call

  /** A lookup returns the page exactly when it is there and has no stamp or is no older than the time to live; a page
      it does not return is gone. */
  lemma FreshExactly(config: Config, s: Cache, key: string, now: Time)
    ensures var found, (after, page) := Find(s.entries, key), Fresh(config, s, key, now);
      && (page.Some? <==> found.Some? && (found.value.storedAt == 0.0 || now - found.value.storedAt <= config.ttl))
      && (page.Some? ==> page.value == found.value.(lastAccessed := now))
      && (page.None? ==> Find(after.entries, key).None?)
      && after.expired == s.expired + if found.Some? && page.None? then 1 else 0
  {
    WithoutFind(s.entries, {key}, key);
  }

  /** In an open cache a prune keeps exactly the pages without a stamp and those no older than the time to live. */
  lemma OpenPruneExactly(config: Config, loaded: seq<Slot>, openedAt: Time, ops: seq<Op>, now: Time, slot: Slot)
    requires Distinct(loaded)
    ensures var s := Exec(config, Opened(config, loaded, openedAt), ops);
      slot in Prune(config, s, now).entries <==>
        slot in s.entries && (slot.page.storedAt == 0.0 || now - slot.page.storedAt <= config.ttl)
  {
    PruneOnlyExpires(config, loaded, openedAt, ops, now, slot);
  }

  /** How many of the pages have a stamp and are older than the time to live. */
  function TooOld(config: Config, entries: seq<Slot>, now: Time): nat
  {
    if entries == [] then 0 else
      var page := entries[0].page;
      TooOld(config, entries[1..], now) + if page.storedAt != 0.0 && now - page.storedAt > config.ttl then 1 else 0
  }

  lemma {:induction false} TooOldAreExpired(config: Config, entries: seq<Slot>, now: Time)
    requires Distinct(entries)
    ensures |ExpiredKeys(config, entries, now)| == TooOld(config, entries, now)
  {
    if entries == [] {
      assert ExpiredKeys(config, entries, now) == {};
    } else {
      TooOldAreExpired(config, entries[1..], now);
      assert entries == [entries[0]] + entries[1..];
      var rest := ExpiredKeys(config, entries[1..], now);
      assert rest <= Keys(entries[1..]);
      assert ExpiredKeys(config, entries, now) ==
        rest + if Expired(config, entries[0].page, now) then {entries[0].key} else {};
    }
  }

  /** A prune counts the pages that are too old as expired, and those left beyond the limit as evicted. */
  lemma PruneCountsApart(config: Config, s: Cache, now: Time)
    requires Distinct(s.entries)
    ensures var after, old_ := Prune(config, s, now), TooOld(config, s.entries, now);
      && after.expired == s.expired + old_ && after.prunes == s.prunes + 1
      && after.evicted == s.evicted + (if |s.entries| - old_ > config.maxEntries
                                       then |s.entries| - old_ - config.maxEntries else 0)
      && (after.hits, after.bytesSaved) == (s.hits, s.bytesSaved)
  {
    TooOldAreExpired(config, s.entries, now);
    YoungMeans(config, s.entries, now);
  }

  // ---------------------------------------------------------------- which pages are found

  predicate NotAfterReading(openedAt: Time, ops: seq<Op>, now: Time)
  {
    openedAt <= now && forall op | op in ops :: op.now <= now
  }

  /** A page unexpired now was unexpired at every earlier reading. */
  lemma {:induction false} UnexpiredSoFar(config: Config, loaded: seq<Slot>, openedAt: Time, ops: seq<Op>, key: string,
        now: Time)
    requires config.ttl > 0.0 && NotAfterReading(openedAt, ops, now) && LastSaved(config, loaded, ops, key).Some?
    requires Keeps(config, LastSaved(config, loaded, ops, key).value.storedAt, now)
    ensures KeptThroughout(config, loaded, openedAt, ops, key)
  {
    if ops != [] {
      var before, op := ops[..|ops| - 1], ops[|ops| - 1];
      assert op in ops && forall o | o in before :: o in ops;
      if !Saves(config, op, key) {
        UnexpiredSoFar(config, loaded, openedAt, before, key, now);
      }
    }
  }

  /** In every run from open on, a lookup no earlier than the readings before it finds the page if and only if the key
      was stored or loaded, the last time without a stamp or at most the time to live ago, and it was not pushed out
      since. */
  lemma {:induction false} FoundExactly(config: Config, loaded: seq<Slot>, openedAt: Time, ops: seq<Op>, key: string,
        now: Time)
    requires Distinct(loaded) && config.ttl > 0.0 && NotAfterReading(openedAt, ops, now)
    ensures var saved := LastSaved(config, loaded, ops, key);
      Fresh(config, Exec(config, Opened(config, loaded, openedAt), ops), key, now).1.Some? <==>
        && saved.Some? && (saved.value.storedAt == 0.0 || now - saved.value.storedAt <= config.ttl)
        && StillHeld(config, loaded, openedAt, ops, key)
  {
    var saved := LastSaved(config, loaded, ops, key);
    FreshExactly(config, Exec(config, Opened(config, loaded, openedAt), ops), key, now);
    FoundIsLastSaved(config, loaded, openedAt, ops, key);
    if saved.Some? && Keeps(config, saved.value.storedAt, now) {
      UnexpiredSoFar(config, loaded, openedAt, ops, key, now);
      HeldWhileKept(config, loaded, openedAt, ops, key);
    }
  }

  // ---------------------------------------------------------------- what they say

  /** Call j is the last store under the key. */
  predicate LastStore(config: Config, ops: seq<Op>, j: nat, key: string)
  {
    && j < |ops| && ops[j].Save? && config.canonical(ops[j].url) == key
    && forall i | j < i < |ops| :: !(ops[i].Save? && config.canonical(ops[i].url) == key)
  }

  /** In every run the page found says what the last store was given: its validators, its size, its time, and its
      observations unless they were too many. */
  lemma {:induction false} FoundSaysWhatWasStored(config: Config, loaded: seq<Slot>, openedAt: Time, ops: seq<Op>,
        j: nat,
        key: string)
    requires LastStore(config, ops, j, key)
    ensures var found := Find(Exec(config, Opened(config, loaded, openedAt), ops).entries, key);
      found.Some? ==>
        && found.value.etag == ops[j].response.etag && found.value.lastModified == ops[j].response.lastModified
        && found.value.bodyBytes == ops[j].response.bodyBytes && found.value.storedAt == ops[j].now
        && found.value.observations == if |ops[j].seen| <= config.maxObservations then ops[j].seen else []
  {
    FoundIsLastSaved(config, loaded, openedAt, ops, key);
    LastSavedIsLastStore(config, loaded, ops, j, key);
  }

  lemma {:induction false} LastSavedIsLastStore(config: Config, loaded: seq<Slot>, ops: seq<Op>, j: nat, key: string)
    requires LastStore(config, ops, j, key)
    ensures LastSaved(config, loaded, ops, key) ==
      Some(Content(NewPage(config, ops[j].response, ops[j].seen, ops[j].now)))
  {
    if j < |ops| - 1 {
      LastSavedIsLastStore(config, loaded, ops[..|ops| - 1], j, key);
    }
  }

  // ---------------------------------------------------------------- the counters

  function Hits(ops: seq<Op>): nat
  {
    if ops == [] then 0 else Hits(ops[..|ops| - 1]) + if ops[|ops| - 1].Hit? then 1 else 0
  }

  /** The sizes of the pages that the hits found. */
  function BytesOfHits(config: Config, start: Cache, ops: seq<Op>): nat
  {
    if ops == [] then 0 else
      var before, op := ops[..|ops| - 1], ops[|ops| - 1];
      BytesOfHits(config, start, before) +
      if !op.Hit? then 0 else
        var page := Fresh(config, Exec(config, start, before), config.canonical(op.url), op.now).1;
        if page.Some? then page.value.bodyBytes else 0
  }

  /** In every run the counters count the hits, found or not, and the bytes of the pages they found. */
  lemma {:induction false} HitsAreCounted(config: Config, start: Cache, ops: seq<Op>)
    ensures Exec(config, start, ops).hits == start.hits + Hits(ops)
    ensures Exec(config, start, ops).bytesSaved == start.bytesSaved + BytesOfHits(config, start, ops)
  {
    if ops != [] {
      HitsAreCounted(config, start, ops[..|ops| - 1]);
    }
  }
}
