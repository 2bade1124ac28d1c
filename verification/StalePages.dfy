/** Which runs of the page cache return a page older than the time to live
    (src/lowpower_llm_cluster/http_runtime.py:104-111, :114-166, :177-191).  A page stored at clock zero has no stamp
    the source would recognise, so it never expires; it is lost only by being evicted or stored over. */
module StalePages {
  import opened Base
  import opened HttpCache
  import opened CacheRuns

  /** By the calls alone: the key was last stored, or else loaded, with a stamp of zero. */
  predicate StampedZero(config: Config, loaded: seq<Slot>, ops: seq<Op>, key: string)
  {
    var saved := LastSaved(config, loaded, ops, key);
    saved.Some? && saved.value.storedAt == 0.0
  }

  /** A prune of these entries would evict the key: a full cache of unexpired pages goes behind it. */
  ghost predicate PushedOut(config: Config, entries: seq<Slot>, key: string, now: Time)
  {
    exists slot :: IsSlotOf(entries, key, slot) && slot in Young(config, entries, now) &&
      Behind(Young(config, entries, now), slot) >= config.maxEntries
  }

  ghost predicate IsSlotOf(entries: seq<Slot>, key: string, slot: Slot)
  {
    slot in entries && slot.key == key
  }

  /** The key was stored or loaded, and no prune inside `open` or a store pushed it out since. */
  ghost predicate StillHeld(config: Config, loaded: seq<Slot>, openedAt: Time, ops: seq<Op>, key: string)
  {
    if ops == [] then Find(loaded, key).Some? && !PushedOut(config, loaded, key, openedAt)
    else
      var before, op := ops[..|ops| - 1], ops[|ops| - 1];
      if op.Save? then
        && (Saves(config, op, key) || StillHeld(config, loaded, openedAt, before, key))
        && !PushedOut(config, PutOf(config, Exec(config, Opened(config, loaded, openedAt), before), op), key, op.now)
      else StillHeld(config, loaded, openedAt, before, key)
  }

  // ---------------------------------------------------------------- one prune

  lemma {:induction false} PushedOutMeans(config: Config, entries: seq<Slot>, slot: Slot, now: Time)
    requires Distinct(entries) && slot in entries && !Expired(config, slot.page, now)
    ensures slot in Young(config, entries, now)
    ensures PushedOut(config, entries, slot.key, now) <==>
      Behind(Young(config, entries, now), slot) >= config.maxEntries
  {
    YoungMeans(config, entries, now);
    FindMeans(entries, slot.key);
    assert IsSlotOf(entries, slot.key, slot);
  }

  /** An unexpired slot survives a prune exactly when it is not pushed out. */
  lemma {:induction false} SurvivesPruneExactly(config: Config, s: Cache, slot: Slot, now: Time)
    requires Distinct(s.entries) && slot in s.entries && !Expired(config, slot.page, now)
    ensures Find(Prune(config, s, now).entries, slot.key).Some? <==> !PushedOut(config, s.entries, slot.key, now)
  {
    PushedOutMeans(config, s.entries, slot, now);
    PruneKeepsExactly(config, s, now, slot);
    FindMeans(Prune(config, s, now).entries, slot.key);
    FindMeans(s.entries, slot.key);
    PruneFind(config, s, now, slot.key);
  }

  /** ... and in a cache within its limit nothing is pushed out. */
  lemma {:induction false} NothingPushedOut(config: Config, entries: seq<Slot>, slot: Slot, now: Time)
    requires Distinct(entries) && slot in entries && !Expired(config, slot.page, now) && |entries| <= config.maxEntries
    ensures !PushedOut(config, entries, slot.key, now)
  {
    PushedOutMeans(config, entries, slot, now);
    YoungMeans(config, entries, now);
    BehindIsLess(Young(config, entries, now), slot);
  }

  /** The slot a key with a zero stamp has in the dict. */
  lemma {:induction false} SlotOf(entries: seq<Slot>, key: string) returns (slot: Slot)
    requires Find(entries, key).Some?
    ensures slot == Slot(key, Find(entries, key).value) && slot in entries
  {
    FindMeans(entries, key);
    slot := Slot(key, Find(entries, key).value);
  }

  // ---------------------------------------------------------------- one call

  /** A page with this stamp is not expired at this time. */
  predicate Keeps(config: Config, storedAt: Time, now: Time)
  {
    storedAt == 0.0 || now - storedAt <= config.ttl
  }

  lemma {:induction false} HeldAfterSave(config: Config, s: Cache, op: Op, key: string)
    requires Inv(config, s) && op.Save?
    requires Saves(config, op, key) ==> Keeps(config, op.now, op.now)
    requires !Saves(config, op, key) && Find(s.entries, key).Some? ==>
      Keeps(config, Find(s.entries, key).value.storedAt, op.now)
    ensures Find(Step(config, s, op).entries, key).Some? <==>
      && (Saves(config, op, key) || Find(s.entries, key).Some?)
      && !PushedOut(config, PutOf(config, s, op), key, op.now)
  {
    var page, put := NewPage(config, op.response, op.seen, op.now), PutOf(config, s, op);
    PutMeans(s.entries, config.canonical(op.url), page, key);
    PutDistinct(s.entries, config.canonical(op.url), page);
    PruneFind(config, s.(entries := put), op.now, key);
    if Find(put, key).Some? {
      var slot := SlotOf(put, key);
      if |put| > config.maxEntries {
        SurvivesPruneExactly(config, s.(entries := put), slot, op.now);
      } else {
        NothingPushedOut(config, put, slot, op.now);
      }
    }
  }

  lemma {:induction false} HeldAfterOther(config: Config, s: Cache, op: Op, key: string)
    requires Inv(config, s) && !op.Save?
    requires Find(s.entries, key).Some? ==> Keeps(config, Find(s.entries, key).value.storedAt, op.now)
    ensures Find(Step(config, s, op).entries, key).Some? <==> Find(s.entries, key).Some?
  {
    match op
    case LookUp(url, now) => LookUpExactly(config, s, config.canonical(url), now, key);
    case Hit(url, now) => LookUpExactly(config, s, config.canonical(url), now, key);
    case Trim(now) =>
      PruneFind(config, s, now, key);
      if Find(s.entries, key).Some? {
        var slot := SlotOf(s.entries, key);
        NothingPushedOut(config, s.entries, slot, now);
        SurvivesPruneExactly(config, s, slot, now);
      }
  }

  // ---------------------------------------------------------------- whole runs

  /** At none of the calls since it was stored or loaded was the key's page expired. */
  predicate KeptThroughout(config: Config, loaded: seq<Slot>, openedAt: Time, ops: seq<Op>, key: string)
  {
    if ops == [] then Find(loaded, key).Some? && Keeps(config, Find(loaded, key).value.storedAt, openedAt)
    else
      var before, op := ops[..|ops| - 1], ops[|ops| - 1];
      if Saves(config, op, key) then Keeps(config, op.now, op.now)
      else
        var saved := LastSaved(config, loaded, before, key);
        KeptThroughout(config, loaded, openedAt, before, key) && saved.Some? &&
          Keeps(config, saved.value.storedAt, op.now)
  }

  /** A page that never expired so far is there exactly as long as it is held. */
  lemma {:induction false} HeldWhileKept(config: Config, loaded: seq<Slot>, openedAt: Time, ops: seq<Op>, key: string)
    requires Distinct(loaded) && KeptThroughout(config, loaded, openedAt, ops, key)
    ensures Find(Exec(config, Opened(config, loaded, openedAt), ops).entries, key).Some? <==>
      StillHeld(config, loaded, openedAt, ops, key)
  {
    if ops == [] {
      var slot := SlotOf(loaded, key);
      SurvivesPruneExactly(config, Fill(loaded), slot, openedAt);
    } else {
      var before, op := ops[..|ops| - 1], ops[|ops| - 1];
      InvFromOpen(config, loaded, openedAt, before);
      if !Saves(config, op, key) {
        HeldWhileKept(config, loaded, openedAt, before, key);
        FoundIsLastSaved(config, loaded, openedAt, before, key);
      }
      var s := Exec(config, Opened(config, loaded, openedAt), before);
      if op.Save? {
        HeldAfterSave(config, s, op, key);
      } else {
        HeldAfterOther(config, s, op, key);
      }
    }
  }

  lemma {:induction false} ZeroStampIsKept(config: Config, loaded: seq<Slot>, openedAt: Time, ops: seq<Op>, key: string)
    requires StampedZero(config, loaded, ops, key)
    ensures KeptThroughout(config, loaded, openedAt, ops, key)
  {
    if ops != [] && !Saves(config, ops[|ops| - 1], key) {
      ZeroStampIsKept(config, loaded, openedAt, ops[..|ops| - 1], key);
    }
  }

  /** A page with a zero stamp is there exactly as long as it is held. */
  lemma {:induction false} HeldExactly(config: Config, loaded: seq<Slot>, openedAt: Time, ops: seq<Op>, key: string)
    requires Distinct(loaded) && StampedZero(config, loaded, ops, key)
    ensures Find(Exec(config, Opened(config, loaded, openedAt), ops).entries, key).Some? <==>
      StillHeld(config, loaded, openedAt, ops, key)
  {
    ZeroStampIsKept(config, loaded, openedAt, ops, key);
    HeldWhileKept(config, loaded, openedAt, ops, key);
  }

  /** In every run from open on: a lookup returns a page older than the time to live if and only if the clock is past
      the time to live, the key was last stored or loaded with a stamp of zero, and it was not pushed out since. */
  lemma {:induction false} StaleIsReturnedInRunsExactly(config: Config, loaded: seq<Slot>, openedAt: Time, ops: seq<Op>,
        key: string, now: Time)
    requires Distinct(loaded)
    ensures var page := Fresh(config, Exec(config, Opened(config, loaded, openedAt), ops), key, now).1;
      page.Some? && now - page.value.storedAt > config.ttl <==>
        && now > config.ttl
        && StampedZero(config, loaded, ops, key) && StillHeld(config, loaded, openedAt, ops, key)
  {
    StaleIsReturnedExactly(config, Exec(config, Opened(config, loaded, openedAt), ops), key, now);
    FoundIsLastSaved(config, loaded, openedAt, ops, key);
    if StampedZero(config, loaded, ops, key) {
      HeldExactly(config, loaded, openedAt, ops, key);
    }
  }

  /** Such runs exist: a page stored at clock zero in an empty cache is returned at any time past the time to live. */
  lemma {:induction false} ZeroClockPageIsReturned(config: Config, openedAt: Time, save: Op, now: Time)
    requires config.maxEntries >= 1 && save.Save? && save.now == 0.0 && now > config.ttl
    ensures var page := Fresh(config, Exec(config, Opened(config, [], openedAt), [save]), config.canonical(save.url),
      now).1;
      page.Some? && now - page.value.storedAt > config.ttl
  {
    FirstPage(config, openedAt, save);
    var s, key := Exec(config, Opened(config, [], openedAt), [save]), config.canonical(save.url);
    FindMeans(s.entries, key);
    assert s.entries[0].key == key;
    StaleIsReturnedExactly(config, s, key, now);
  }
}
