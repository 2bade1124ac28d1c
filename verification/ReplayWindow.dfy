/** The replay window for signed worker requests (src/lowpower_llm_cluster/distributed_security.py:89-147).

    `ReplayWindow` keeps a dict and a deque; both are evicted by age and by size.  Over whole runs with
    a clock that does not run backwards, its answers are exactly those of a window over the log of
    accepted requests. */
module ReplayWindow {
  import opened Base

  datatype Key = Key(worker: string, nonce: string)

  datatype Entry = Entry(time: Time, key: Key)

  datatype Limits = Limits(maxAge: Time, maxEntries: nat)

  datatype Window = Window(seen: map<Key, Time>, order: seq<Entry>)

  const EMPTY_WINDOW := Window(map[], [])

  // ---------------------------------------------------------------- one call

  /** Take the oldest entry off the deque, and out of the dict if the dict still means it. */
  function PopOldest(w: Window): Window
    requires w.order != []
  {
    var oldest := w.order[0];
    Window(if oldest.key in w.seen && w.seen[oldest.key] == oldest.time then w.seen - {oldest.key} else w.seen,
           w.order[1..])
  }

  function EvictOld(w: Window, cutoff: Time): Window
    decreases |w.order|
  {
    if w.order != [] && w.order[0].time < cutoff then EvictOld(PopOldest(w), cutoff) else w
  }

  function EvictExcess(w: Window, maxEntries: nat): Window
    decreases |w.order|
  {
    if |w.seen| > maxEntries && w.order != [] then EvictExcess(PopOldest(w), maxEntries) else w
  }

  function Accept(limits: Limits, w: Window, key: Key, now: Time): (Window, bool)
  {
    var kept := EvictOld(w, now - limits.maxAge);
    if key in kept.seen then (kept, false)
    else (EvictExcess(Window(kept.seen[key := now], kept.order + [Entry(now, key)]), limits.maxEntries), true)
  }

  class ReplayWindow {
    const limits: Limits
    var seen: map<Key, Time>
    var order: seq<Entry>

    ghost function Model(): Window
      reads this
    {
      Window(seen, order)
    }

    constructor (maxAge: Time, maxEntries: int)
      ensures Model() == EMPTY_WINDOW
      ensures limits == Limits(if maxAge < 1.0 then 1.0 else maxAge, if maxEntries < 100 then 100 else maxEntries)
    {
      limits := Limits(if maxAge < 1.0 then 1.0 else maxAge, if maxEntries < 100 then 100 else maxEntries);
      seen, order := map[], [];
    }

    method AcceptNonce(worker: string, nonce: string, now: Time) returns (ok: bool)
      modifies this
      ensures (Model(), ok) == Accept(limits, old(Model()), Key(worker, nonce), now)
    {
      var cutoff := now - limits.maxAge;
      while order != [] && order[0].time < cutoff
        invariant EvictOld(Model(), cutoff) == EvictOld(old(Model()), cutoff)
        decreases |order|
      {
        var oldest := order[0];
        order := order[1..];
        if oldest.key in seen && seen[oldest.key] == oldest.time {
          seen := seen - {oldest.key};
        }
      }
      var key := Key(worker, nonce);
      if key in seen {
        return false;
      }
      seen := seen[key := now];
      order := order + [Entry(now, key)];
      ghost var grown := Model();
      while |seen| > limits.maxEntries && order != []
        invariant EvictExcess(Model(), limits.maxEntries) == EvictExcess(grown, limits.maxEntries)
        decreases |order|
      {
        var oldest := order[0];
        order := order[1..];
        if oldest.key in seen && seen[oldest.key] == oldest.time {
          seen := seen - {oldest.key};
        }
      }
      return true;
    }
  }

  // ---------------------------------------------------------------- dict and deque agree

  predicate KeyIn(order: seq<Entry>, key: Key)
  {
    exists k: nat :: k < |order| && order[k].key == key
  }

  lemma KeyInSnoc(order: seq<Entry>, e: Entry, key: Key)
    ensures KeyIn(order + [e], key) <==> KeyIn(order, key) || e.key == key
  {
    assert forall k: nat | k < |order| :: (order + [e])[k] == order[k];
    assert (order + [e])[|order|] == e;
  }

  lemma KeyInCons(order: seq<Entry>, key: Key)
    requires order != []
    ensures KeyIn(order, key) <==> order[0].key == key || KeyIn(order[1..], key)
  {
    assert forall k: nat | k < |order[1..]| :: order[1..][k] == order[k + 1];
    if KeyIn(order, key) && order[0].key != key {
      var k: nat :| k < |order| && order[k].key == key;
      assert order[1..][k - 1].key == key;
    }
  }

  /** The dict holds exactly the deque's entries, and no key is queued twice. */
  predicate Agree(seen: map<Key, Time>, order: seq<Entry>)
  {
    if order == [] then seen == map[] else
      var e := order[0];
      e.key in seen && seen[e.key] == e.time && !KeyIn(order[1..], e.key) && Agree(seen - {e.key}, order[1..])
  }

  lemma {:induction false} AgreeMeans(seen: map<Key, Time>, order: seq<Entry>, key: Key)
    requires Agree(seen, order)
    ensures |seen| == |order|
    ensures key in seen <==> KeyIn(order, key)
  {
    if order != [] {
      AgreeMeans(seen - {order[0].key}, order[1..], key);
      assert seen == (seen - {order[0].key})[order[0].key := order[0].time];
      KeyInCons(order, key);
    }
  }

  lemma {:induction false} AgreeAppend(seen: map<Key, Time>, order: seq<Entry>, e: Entry)
    requires Agree(seen, order) && e.key !in seen
    ensures Agree(seen[e.key := e.time], order + [e])
  {
    if order == [] {
      assert [e][1..] == [];
      assert seen[e.key := e.time] - {e.key} == map[];
    } else {
      var first, rest := order[0], order[1..];
      assert (order + [e])[1..] == rest + [e];
      AgreeAppend(seen - {first.key}, rest, e);
      assert seen[e.key := e.time] - {first.key} == (seen - {first.key})[e.key := e.time];
      KeyInSnoc(rest, e, first.key);
    }
  }

  /** The deque without its leading entries older than the cutoff. */
  function DropOld(order: seq<Entry>, cutoff: Time): seq<Entry>
  {
    if order != [] && order[0].time < cutoff then DropOld(order[1..], cutoff) else order
  }

  function Newest(order: seq<Entry>, n: nat): seq<Entry>
  {
    if |order| <= n then order else order[|order| - n..]
  }

  lemma {:induction false} EvictOldAgrees(w: Window, cutoff: Time)
    requires Agree(w.seen, w.order)
    ensures Agree(EvictOld(w, cutoff).seen, EvictOld(w, cutoff).order)
    ensures EvictOld(w, cutoff).order == DropOld(w.order, cutoff)
    decreases |w.order|
  {
    if w.order != [] && w.order[0].time < cutoff {
      EvictOldAgrees(PopOldest(w), cutoff);
    }
  }

  lemma {:induction false} EvictExcessAgrees(w: Window, maxEntries: nat)
    requires Agree(w.seen, w.order)
    ensures Agree(EvictExcess(w, maxEntries).seen, EvictExcess(w, maxEntries).order)
    ensures EvictExcess(w, maxEntries).order == Newest(w.order, maxEntries)
    decreases |w.order|
  {
    AgreeMeans(w.seen, w.order, Key("", ""));
    if |w.order| > maxEntries {
      EvictExcessAgrees(PopOldest(w), maxEntries);
    }
  }

  /** The same window kept as one list: old entries dropped, then the newest maxEntries kept. */
  function AcceptOnList(limits: Limits, order: seq<Entry>, key: Key, now: Time): (seq<Entry>, bool)
  {
    var kept := DropOld(order, now - limits.maxAge);
    if KeyIn(kept, key) then (kept, false) else (Newest(kept + [Entry(now, key)], limits.maxEntries), true)
  }

  /** The dict never changes an answer: whatever the clock does, a call keeps dict and deque in agreement
      and does exactly what the single list does. */
  lemma AcceptRefinesList(limits: Limits, w: Window, key: Key, now: Time)
    requires Agree(w.seen, w.order)
    ensures Agree(Accept(limits, w, key, now).0.seen, Accept(limits, w, key, now).0.order)
    ensures (Accept(limits, w, key, now).0.order, Accept(limits, w, key, now).1) ==
      AcceptOnList(limits, w.order, key, now)
  {
    EvictOldAgrees(w, now - limits.maxAge);
    var kept := EvictOld(w, now - limits.maxAge);
    AgreeMeans(kept.seen, kept.order, key);
    if key !in kept.seen {
      AgreeAppend(kept.seen, kept.order, Entry(now, key));
      EvictExcessAgrees(Window(kept.seen[key := now], kept.order + [Entry(now, key)]), limits.maxEntries);
    }
  }

  // ---------------------------------------------------------------- whole runs

  datatype Call = Call(key: Key, now: Time)

  function After(limits: Limits, calls: seq<Call>): Window
  {
    if calls == [] then EMPTY_WINDOW else
      var last := calls[|calls| - 1];
      Accept(limits, After(limits, calls[..|calls| - 1]), last.key, last.now).0
  }

  /** The answer to one more call. */
  function Answer(limits: Limits, calls: seq<Call>, call: Call): bool
  {
    Accept(limits, After(limits, calls), call.key, call.now).1
  }

  /** The log after one more call. */
  function Logged(log: seq<Entry>, call: Call, accepted: bool): seq<Entry>
  {
    if accepted then log + [Entry(call.now, call.key)] else log
  }

  /** Everything accepted so far, in order. */
  function Accepted(limits: Limits, calls: seq<Call>): seq<Entry>
  {
    if calls == [] then [] else
      var before, last := calls[..|calls| - 1], calls[|calls| - 1];
      Logged(Accepted(limits, before), last, Answer(limits, before, last))
  }

  predicate ClockNondecreasing(calls: seq<Call>)
  {
    forall i, j | 0 <= i <= j < |calls| :: calls[i].now <= calls[j].now
  }

  /** The log entry is at most maxAge old and has fewer than maxEntries accepted after it. */
  predicate Remembered(limits: Limits, log: seq<Entry>, now: Time, i: int)
    requires 0 <= i < |log|
  {
    log[i].time >= now - limits.maxAge && |log| - i <= limits.maxEntries
  }

  /** The deque is the part of the log that is remembered, which is a suffix. */
  ghost predicate IsWindow(limits: Limits, log: seq<Entry>, now: Time, order: seq<Entry>)
  {
    && |order| <= |log| && order == log[|log| - |order|..]
    && forall i | 0 <= i < |log| :: Remembered(limits, log, now, i) <==> i >= |log| - |order|
  }

  ghost predicate Sorted(log: seq<Entry>, now: Time)
  {
    && (forall i, j | 0 <= i <= j < |log| :: log[i].time <= log[j].time)
    && forall i | 0 <= i < |log| :: log[i].time <= now
  }

  lemma {:induction false} DropOldKeepsSuffix(order: seq<Entry>, cutoff: Time)
    requires forall i, j | 0 <= i <= j < |order| :: order[i].time <= order[j].time
    ensures var kept := DropOld(order, cutoff);
      && |kept| <= |order| && kept == order[|order| - |kept|..]
      && forall i | 0 <= i < |order| :: order[i].time >= cutoff <==> i >= |order| - |kept|
  {
    if order != [] && order[0].time < cutoff {
      var rest := order[1..];
      DropOldKeepsSuffix(rest, cutoff);
      assert forall i | 1 <= i < |order| :: order[i] == rest[i - 1];
    }
  }

  /** Time passes: the deque shrinks to what is still young enough. */
  lemma WindowAges(limits: Limits, log: seq<Entry>, before: Time, now: Time, order: seq<Entry>)
    requires IsWindow(limits, log, before, order) && Sorted(log, before) && before <= now
    ensures IsWindow(limits, log, now, DropOld(order, now - limits.maxAge))
  {
    var cutoff := now - limits.maxAge;
    var kept := DropOld(order, cutoff);
    var start := |log| - |order|;
    assert forall i | 0 <= i < |order| :: order[i] == log[start + i];
    DropOldKeepsSuffix(order, cutoff);
    forall i | 0 <= i < |log|
      ensures Remembered(limits, log, now, i) <==> i >= |log| - |kept|
    {
      assert Remembered(limits, log, before, i) <==> i >= start;
      if i >= start {
        assert log[i] == order[i - start];
      }
    }
  }

  /** One more acceptance: the deque grows by it and loses its oldest entry when full. */
  lemma WindowGrows(limits: Limits, log: seq<Entry>, now: Time, order: seq<Entry>, e: Entry)
    requires IsWindow(limits, log, now, order) && e.time == now && limits.maxAge >= 0.0
    ensures IsWindow(limits, log + [e], now, Newest(order + [e], limits.maxEntries))
  {
    var after, longer := Newest(order + [e], limits.maxEntries), log + [e];
    assert after == longer[|longer| - |after|..];
    forall i | 0 <= i < |longer|
      ensures Remembered(limits, longer, now, i) <==> i >= |longer| - |after|
    {
      if i < |log| {
        assert longer[i] == log[i];
        assert Remembered(limits, log, now, i) <==> i >= |log| - |order|;
      }
    }
  }

  lemma SortedGrows(log: seq<Entry>, before: Time, now: Time, key: Key)
    requires Sorted(log, before) && before <= now
    ensures Sorted(log, now) && Sorted(log + [Entry(now, key)], now)
  {
  }

  lemma WindowStep(limits: Limits, log: seq<Entry>, before: Time, order: seq<Entry>, call: Call)
    requires IsWindow(limits, log, before, order) && Sorted(log, before) && before <= call.now && limits.maxAge >= 0.0
    ensures var (after, ok) := AcceptOnList(limits, order, call.key, call.now);
      IsWindow(limits, Logged(log, call, ok), call.now, after) && Sorted(Logged(log, call, ok), call.now)
  {
    WindowAges(limits, log, before, call.now, order);
    WindowGrows(limits, log, call.now, DropOld(order, call.now - limits.maxAge), Entry(call.now, call.key));
    SortedGrows(log, before, call.now, call.key);
  }

  /** The time of the last call, or of the coming one if there was none. */
  function LastTime(calls: seq<Call>, now: Time): Time
  {
    if calls == [] then now else calls[|calls| - 1].now
  }

  lemma {:induction false} WindowAlways(limits: Limits, calls: seq<Call>, now: Time)
    requires ClockNondecreasing(calls) && limits.maxAge >= 0.0
    ensures Agree(After(limits, calls).seen, After(limits, calls).order)
    ensures Sorted(Accepted(limits, calls), LastTime(calls, now))
    ensures IsWindow(limits, Accepted(limits, calls), LastTime(calls, now), After(limits, calls).order)
  {
    if calls != [] {
      var before, last := calls[..|calls| - 1], calls[|calls| - 1];
      WindowAlways(limits, before, last.now);
      AcceptRefinesList(limits, After(limits, before), last.key, last.now);
      WindowStep(limits, Accepted(limits, before), LastTime(before, last.now), After(limits, before).order, last);
    }
  }

  lemma {:induction false} DropOldIsShorter(order: seq<Entry>, cutoff: Time)
    ensures |DropOld(order, cutoff)| <= |order|
  {
    if order != [] && order[0].time < cutoff {
      DropOldIsShorter(order[1..], cutoff);
    }
  }

  /** In every run, at any clock readings and limits: dict and deque agree, have the same size, and hold at most
      maxEntries. */
  lemma {:induction false} WindowIsBounded(limits: Limits, calls: seq<Call>)
    ensures var w := After(limits, calls);
      Agree(w.seen, w.order) && |w.seen| == |w.order| <= limits.maxEntries
  {
    if calls != [] {
      var before, last := calls[..|calls| - 1], calls[|calls| - 1];
      var w := After(limits, before);
      WindowIsBounded(limits, before);
      AcceptRefinesList(limits, w, last.key, last.now);
      DropOldIsShorter(w.order, last.now - limits.maxAge);
    }
    AgreeMeans(After(limits, calls).seen, After(limits, calls).order, Key("", ""));
  }

  lemma InWindowMeansRemembered(limits: Limits, log: seq<Entry>, now: Time, order: seq<Entry>, key: Key)
    requires IsWindow(limits, log, now, order)
    ensures KeyIn(order, key) <==> exists i :: 0 <= i < |log| && log[i].key == key && Remembered(limits, log, now, i)
  {
    var start := |log| - |order|;
    assert forall k | 0 <= k < |order| :: order[k] == log[start + k];
    if KeyIn(order, key) {
      var k: nat :| k < |order| && order[k].key == key;
      assert Remembered(limits, log, now, start + k) && log[start + k].key == key;
    }
    if i :| 0 <= i < |log| && log[i].key == key && Remembered(limits, log, now, i) {
      assert order[i - start].key == key;
    }
  }

  ghost predicate HeldBack(limits: Limits, log: seq<Entry>, call: Call)
  {
    exists i :: 0 <= i < |log| && log[i].key == call.key && Remembered(limits, log, call.now, i)
  }

  lemma AnswerFromWindow(limits: Limits, log: seq<Entry>, before: Time, order: seq<Entry>, call: Call)
    requires IsWindow(limits, log, before, order) && Sorted(log, before) && before <= call.now
    ensures AcceptOnList(limits, order, call.key, call.now).1 <==> !HeldBack(limits, log, call)
  {
    WindowAges(limits, log, before, call.now, order);
    InWindowMeansRemembered(limits, log, call.now, DropOld(order, call.now - limits.maxAge), call.key);
  }

  lemma AcceptedUnlessHeldBack(limits: Limits, calls: seq<Call>, call: Call)
    requires ClockNondecreasing(calls) && LastTime(calls, call.now) <= call.now && limits.maxAge >= 0.0
    ensures Answer(limits, calls, call) <==> !HeldBack(limits, Accepted(limits, calls), call)
  {
    var order := After(limits, calls).order;
    WindowAlways(limits, calls, call.now);
    AnswerFromWindow(limits, Accepted(limits, calls), LastTime(calls, call.now), order, call);
    AcceptRefinesList(limits, After(limits, calls), call.key, call.now);
  }

  /** No replay inside the window, and nothing else is refused: with a clock that does not run backwards,
      a request is accepted exactly when every earlier acceptance of the same (worker, nonce) is more
      than maxAge old or has been followed by at least maxEntries further acceptances. */
  lemma AcceptedExactlyWhenForgotten(limits: Limits, calls: seq<Call>, call: Call)
    requires ClockNondecreasing(calls) && LastTime(calls, call.now) <= call.now && limits.maxAge >= 0.0
    ensures var log := Accepted(limits, calls);
      Answer(limits, calls, call) <==>
      forall i | 0 <= i < |log| && log[i].key == call.key ::
        call.now - log[i].time > limits.maxAge || |log| - 1 - i >= limits.maxEntries
  {
    AcceptedUnlessHeldBack(limits, calls, call);
    ForgottenMeans(limits, Accepted(limits, calls), call.now);
  }

  /** The first call of all is accepted, and so is a second one that comes once the first is too old. */
  lemma FirstIsAccepted(limits: Limits, call: Call)
    requires limits.maxAge >= 0.0
    ensures Answer(limits, [], call) && Accepted(limits, [call]) == [Entry(call.now, call.key)]
  {
    AcceptedExactlyWhenForgotten(limits, [], call);
    assert [call][..0] == [];
  }

  lemma SecondIsAccepted(limits: Limits, one: Call, call: Call)
    requires limits.maxAge >= 0.0 && call.now - one.now > limits.maxAge
    ensures Answer(limits, [one], call)
  {
    FirstIsAccepted(limits, one);
    AcceptedExactlyWhenForgotten(limits, [one], call);
  }

  lemma ForgottenMeans(limits: Limits, log: seq<Entry>, now: Time)
    ensures forall i | 0 <= i < |log| ::
              !Remembered(limits, log, now, i) <==>
                now - log[i].time > limits.maxAge || |log| - 1 - i >= limits.maxEntries
  {
  }

  /** The log only grows: what a run has accepted is a prefix of what any longer run has accepted. */
  lemma {:induction false} LogOnlyGrows(limits: Limits, calls: seq<Call>, k: nat)
    requires k <= |calls|
    ensures Accepted(limits, calls[..k]) <= Accepted(limits, calls)
  {
    if k < |calls| {
      assert calls[..|calls| - 1][..k] == calls[..k];
      LogOnlyGrows(limits, calls[..|calls| - 1], k);
    } else {
      assert calls[..k] == calls;
    }
  }
}
