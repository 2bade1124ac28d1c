/** The adaptive concurrency limit of a source (src/lowpower_llm_cluster/http_runtime.py:197-247).

    Every block under the condition variable is one action; a caller waiting in `slot` acts when its
    condition holds. */
module ConcurrencyLimit {
  import opened Base
  import opened StepArithmetic

  datatype Settings = Settings(minimum: nat, maximum: nat, window: nat, target: real, enabled: bool)

  datatype Limiter = Limiter(current: nat, inFlight: int, streak: nat, ewma: Option<real>, cuts: nat, raises: nat,
    rateLimits: nat, errors: nat)

  datatype Sample = Sample(latency: real, success: bool, rateLimited: bool)

  predicate ValidSettings(c: Settings)
  {
    1 <= c.minimum <= c.maximum && c.window >= 1 && c.target > 0.0
  }

  /** `max(minimum, min(maximum, initial or maximum))`: no initial value, or zero, means the maximum. */
  function Initially(c: Settings, initial: Option<int>): nat
    requires ValidSettings(c)
  {
    Max(c.minimum, Min(c.maximum, if initial.None? || initial.value == 0 then c.maximum else initial.value))
  }

  function Start(c: Settings, initial: Option<int>): Limiter
    requires ValidSettings(c)
  {
    Limiter(Initially(c, initial), 0, 0, None, 0, 0, 0, 0)
  }

  function Smooth(ewma: Option<real>, latency: real): real
  {
    if ewma.None? then latency else 0.2 * latency + 0.8 * ewma.value
  }

  predicate Bad(x: Sample)
  {
    !x.success || x.rateLimited
  }

  function Measure(c: Settings, s: Limiter, x: Sample): Limiter
  {
    if !c.enabled then s else
      var ewma := Smooth(s.ewma, x.latency);
      if Bad(x) then
        var reduced := Max(c.minimum, Max(1, s.current / 2));
        var noted := s.(ewma := Some(ewma), streak := 0, rateLimits := s.rateLimits + (if x.rateLimited then 1 else 0),
                        errors := s.errors + if x.rateLimited then 0 else 1);
        if reduced < s.current then noted.(current := reduced, cuts := s.cuts + 1) else noted
      else if s.streak + 1 >= c.window && s.current < c.maximum && ewma <= c.target then
        s.(ewma := Some(ewma), current := s.current + 1, streak := 0, raises := s.raises + 1)
      else s.(ewma := Some(ewma), streak := s.streak + 1)
  }

  class AdaptiveConcurrency {
    const settings: Settings
    var current: nat
    var inFlight: nat
    var streak: nat
    var ewma: Option<real>
    var cuts: nat
    var raises: nat
    var rateLimits: nat
    var errors: nat

    ghost function Model(): Limiter
      reads this
    {
      Limiter(current, inFlight, streak, ewma, cuts, raises, rateLimits, errors)
    }

    constructor (settings: Settings, initial: Option<int>)
      requires ValidSettings(settings)
      ensures this.settings == settings && Model() == Start(settings, initial)
    {
      this.settings := settings;
      current, inFlight, streak, ewma := Initially(settings, initial), 0, 0, None;
      cuts, raises, rateLimits, errors := 0, 0, 0, 0;
    }

    /** The entry of `slot`, once its wait is over. */
    method EnterSlot()
      requires inFlight < current
      modifies this`inFlight
      ensures inFlight == old(inFlight) + 1
    {
      inFlight := inFlight + 1;
    }

    /** The `finally` of `slot`: it pairs with an entry of the same caller, so that at least one slot is held
        (`SlotsStayWithinTheLimit` has the count over whole runs). */
    method LeaveSlot()
      requires inFlight > 0
      modifies this`inFlight
      ensures inFlight == old(inFlight) - 1
    {
      inFlight := inFlight - 1;
    }

    method Observe(latency: real, success: bool, rateLimited: bool)
      modifies this
      ensures Model() == Measure(settings, old(Model()), Sample(latency, success, rateLimited))
    {
      if !settings.enabled {
        return;
      }
      ewma := Some(Smooth(ewma, latency));
      if !success || rateLimited {
        streak := 0;
        if rateLimited {
          rateLimits := rateLimits + 1;
        } else {
          errors := errors + 1;
        }
        var reduced := Max(settings.minimum, Max(1, current / 2));
        if reduced < current {
          current := reduced;
          cuts := cuts + 1;
        }
        return;
      }
      streak := streak + 1;
      if streak >= settings.window && current < settings.maximum && ewma.value <= settings.target {
        current := current + 1;
        streak := 0;
        raises := raises + 1;
      }
    }
  }

  // ---------------------------------------------------------------- whole runs

  datatype Action = Enter | Leave | Observed(sample: Sample)

  function Step(c: Settings, s: Limiter, a: Action): Limiter
  {
    match a
    case Enter => s.(inFlight := s.inFlight + 1)
    case Leave => s.(inFlight := s.inFlight - 1)
    case Observed(x) => Measure(c, s, x)
  }

  function Run(c: Settings, start: Limiter, actions: seq<Action>): Limiter
  {
    if actions == [] then start else Step(c, Run(c, start, actions[..|actions| - 1]), actions[|actions| - 1])
  }

  function Count(actions: seq<Action>, a: Action): nat
  {
    if actions == [] then 0 else Count(actions[..|actions| - 1], a) + if actions[|actions| - 1] == a then 1 else 0
  }

  /** Callers enter only when their wait is over and leave only what they entered. */
  predicate Possible(c: Settings, start: Limiter, actions: seq<Action>)
  {
    actions != [] ==>
      var before := actions[..|actions| - 1];
      && Possible(c, start, before)
      && match actions[|actions| - 1]
         case Enter => Run(c, start, before).inFlight < Run(c, start, before).current
         case Leave => Count(before, Leave) < Count(before, Enter)
         case Observed(_) => true
  }

  /** The largest limit in force so far. */
  function Peak(c: Settings, start: Limiter, actions: seq<Action>): nat
  {
    if actions == [] then start.current
    else Max(Peak(c, start, actions[..|actions| - 1]), Run(c, start, actions).current)
  }

  lemma MeasureKeepsBounds(c: Settings, s: Limiter, x: Sample)
    requires ValidSettings(c) && c.minimum <= s.current <= c.maximum
    ensures c.minimum <= Measure(c, s, x).current <= c.maximum && Measure(c, s, x).inFlight == s.inFlight
  {
  }

  /** In every run the limit stays in its bounds, the slots held are those entered and not left, and there
      are never more of them than the largest limit in force so far. */
  lemma {:induction false} SlotsStayWithinTheLimit(c: Settings, initial: Option<int>, actions: seq<Action>)
    requires ValidSettings(c) && Possible(c, Start(c, initial), actions)
    ensures var start := Start(c, initial);
      var s := Run(c, start, actions);
      && c.minimum <= s.current <= Peak(c, start, actions) <= c.maximum
      && s.inFlight == Count(actions, Enter) - Count(actions, Leave)
      && 0 <= s.inFlight <= Peak(c, start, actions)
  {
    if actions != [] {
      var before := actions[..|actions| - 1];
      SlotsStayWithinTheLimit(c, initial, before);
      if actions[|actions| - 1].Observed? {
        MeasureKeepsBounds(c, Run(c, Start(c, initial), before), actions[|actions| - 1].sample);
      }
    }
  }

  /** While more slots are held than the limit allows, none is granted: their number can only fall
      until it is below the limit again. */
  lemma {:induction false} ExcessOnlyDrains(c: Settings, start: Limiter, actions: seq<Action>, k: nat)
    requires k <= |actions| && Possible(c, start, actions)
    requires forall j | k <= j < |actions| ::
      Run(c, start, actions[..j]).inFlight >= Run(c, start, actions[..j]).current
    ensures Run(c, start, actions).inFlight <= Run(c, start, actions[..k]).inFlight
    ensures Possible(c, start, actions[..k])
  {
    if k < |actions| {
      var before := actions[..|actions| - 1];
      assert before[..k] == actions[..k];
      forall j | k <= j < |before|
        ensures Run(c, start, before[..j]).inFlight >= Run(c, start, before[..j]).current
      {
        assert before[..j] == actions[..j];
      }
      ExcessOnlyDrains(c, start, before, k);
      assert actions[..|actions| - 1] == before;
    } else {
      assert actions[..k] == actions;
    }
  }

  // ---------------------------------------------------------------- closed forms

  function MeasureAll(c: Settings, s: Limiter, xs: seq<Sample>): Limiter
  {
    if xs == [] then s else Measure(c, MeasureAll(c, s, xs[..|xs| - 1]), xs[|xs| - 1])
  }

  lemma SamplesPrefix(xs: seq<Sample>)
    requires xs != []
    ensures forall x | x in xs[..|xs| - 1] :: x in xs
    ensures xs[|xs| - 1] in xs
  {
  }

  lemma {:induction false} BoundsAlways(c: Settings, s: Limiter, xs: seq<Sample>)
    requires ValidSettings(c) && c.minimum <= s.current <= c.maximum
    ensures c.minimum <= MeasureAll(c, s, xs).current <= c.maximum
  {
    if xs != [] {
      BoundsAlways(c, s, xs[..|xs| - 1]);
    }
  }

  function Rises(c: Settings, s: Limiter, xs: seq<Sample>): nat
  {
    if xs == [] then 0 else
      Rises(c, s, xs[..|xs| - 1]) + if MeasureAll(c, s, xs).current > MeasureAll(c, s, xs[..|xs| - 1]).current then 1
        else 0
  }

  function Falls(c: Settings, s: Limiter, xs: seq<Sample>): nat
  {
    if xs == [] then 0 else
      Falls(c, s, xs[..|xs| - 1]) + if MeasureAll(c, s, xs).current < MeasureAll(c, s, xs[..|xs| - 1]).current then 1
        else 0
  }

  /** The counters count the moves of the limit, up and down. */
  lemma {:induction false} MovesAreCounted(c: Settings, s: Limiter, xs: seq<Sample>)
    requires ValidSettings(c) && c.minimum <= s.current <= c.maximum
    ensures MeasureAll(c, s, xs).raises == s.raises + Rises(c, s, xs)
    ensures MeasureAll(c, s, xs).cuts == s.cuts + Falls(c, s, xs)
  {
    if xs != [] {
      MovesAreCounted(c, s, xs[..|xs| - 1]);
      BoundsAlways(c, s, xs[..|xs| - 1]);
    }
  }

  /** Fast backoff: k bad samples in a row divide the limit by 2^k, down to the minimum. */
  lemma {:induction false} FailuresHalve(c: Settings, s: Limiter, xs: seq<Sample>)
    requires ValidSettings(c) && c.minimum <= s.current <= c.maximum && c.enabled && forall x | x in xs :: Bad(x)
    ensures MeasureAll(c, s, xs).current == Max(c.minimum, s.current / Pow2(|xs|))
  {
    if xs != [] {
      SamplesPrefix(xs);
      FailuresHalve(c, s, xs[..|xs| - 1]);
      HalvingStep(c.minimum, s.current, |xs| - 1);
    }
  }

  /** A success no slower than the target. */
  predicate Good(c: Settings, x: Sample)
  {
    !Bad(x) && x.latency <= c.target
  }

  predicate Fast(c: Settings, ewma: Option<real>)
  {
    ewma.None? || ewma.value <= c.target
  }

  /** Cautious recovery: with the average on target, n good samples in a row raise the limit by exactly one
      for each whole window, a streak that had to wait for the average counting as almost one window. */
  lemma {:induction false} SuccessesRaise(c: Settings, s: Limiter, xs: seq<Sample>)
    requires ValidSettings(c) && c.minimum <= s.current <= c.maximum && c.enabled
    requires Fast(c, s.ewma) && forall x | x in xs :: Good(c, x)
    ensures var (after, windows) := (MeasureAll(c, s, xs), Windows(c.window, Min(s.streak, c.window - 1) + |xs|));
      && Fast(c, after.ewma)
      && after.current == Min(c.maximum, s.current + windows.0)
      && (after.current < c.maximum ==> Min(after.streak, c.window - 1) == windows.1)
  {
    if xs != [] {
      SamplesPrefix(xs);
      SuccessesRaise(c, s, xs[..|xs| - 1]);
      NextWindow(c.window, Min(s.streak, c.window - 1) + |xs| - 1);
    }
  }

  // ---------------------------------------------------------------- samples in numbers

  /** No initial value, or zero, starts at the maximum; any other starts as near to it as the bounds allow. */
  lemma InitiallyMeans(c: Settings, initial: Option<int>)
    requires ValidSettings(c)
    ensures var start := Start(c, initial);
      && (start.inFlight, start.streak, start.ewma) == (0, 0, None)
      && (initial.None? || initial.value == 0 || initial.value >= c.maximum ==> start.current == c.maximum)
      && (initial.Some? && initial.value != 0 && initial.value <= c.minimum ==> start.current == c.minimum)
      && (initial.Some? && c.minimum <= initial.value <= c.maximum && initial.value != 0 ==>
            start.current == initial.value)
  {
  }

  /** The limit falls exactly on a failed or rate-limited sample while it is above the minimum, and rises exactly when a
      whole window of good samples is behind, there is room, and the smoothed latency is on target. */
  lemma LimitMovesExactly(c: Settings, s: Limiter, x: Sample)
    requires ValidSettings(c) && c.minimum <= s.current <= c.maximum
    ensures var after := Measure(c, s, x);
      && (after.current < s.current <==> c.enabled && (!x.success || x.rateLimited) && s.current > c.minimum)
      && (after.current > s.current <==>
            && c.enabled && x.success && !x.rateLimited && s.streak + 1 >= c.window && s.current < c.maximum
            && after.ewma.Some? && after.ewma.value <= c.target)
      && after.current <= s.current + 1 && after.inFlight == s.inFlight
      && (!c.enabled ==> after == s)
  {
  }

  /** The streak is the number of good samples since the last bad one or the last rise. */
  lemma StreakExactly(c: Settings, s: Limiter, x: Sample)
    requires ValidSettings(c) && c.enabled
    ensures var after := Measure(c, s, x);
      after.streak == if !x.success || x.rateLimited || after.current > s.current then 0 else s.streak + 1
  {
  }

  function RateLimited(xs: seq<Sample>): nat
  {
    if xs == [] then 0 else RateLimited(xs[..|xs| - 1]) + if xs[|xs| - 1].rateLimited then 1 else 0
  }

  function FailedOtherwise(xs: seq<Sample>): nat
  {
    if xs == [] then 0 else
      FailedOtherwise(xs[..|xs| - 1]) + if !xs[|xs| - 1].success && !xs[|xs| - 1].rateLimited then 1 else 0
  }

  /** In every run the two counters count the rate-limited samples and the other failed ones. */
  lemma {:induction false} BadSamplesAreCounted(c: Settings, s: Limiter, xs: seq<Sample>)
    requires c.enabled
    ensures MeasureAll(c, s, xs).rateLimits == s.rateLimits + RateLimited(xs)
    ensures MeasureAll(c, s, xs).errors == s.errors + FailedOtherwise(xs)
  {
    if xs != [] {
      BadSamplesAreCounted(c, s, xs[..|xs| - 1]);
    }
  }

  /** 0.8^n of the gap. */
  function Shrunk(gap: real, n: nat): real
  {
    if n == 0 then gap else 0.8 * Shrunk(gap, n - 1)
  }

  /** One sample takes the smoothed latency a fixed part of the way to its own. */
  lemma SmoothingStep(c: Settings, s: Limiter, x: Sample)
    requires c.enabled
    ensures var after := Measure(c, s, x).ewma;
      && after.Some? && (s.ewma.None? ==> after.value == x.latency)
      && (s.ewma.Some? ==> after.value - x.latency == 0.8 * (s.ewma.value - x.latency))
  {
  }

  /** The smoothed latency starts at the first sample, and under n samples of one latency its distance to that latency
      shrinks to 0.8^n of what it was, whatever the samples' outcomes. */
  lemma {:induction false} SmoothingExactly(c: Settings, s: Limiter, xs: seq<Sample>, latency: real)
    requires c.enabled && forall x | x in xs :: x.latency == latency
    ensures s.ewma.None? && xs != [] ==> MeasureAll(c, s, xs).ewma == Some(latency)
    ensures s.ewma.Some? ==>
      var after := MeasureAll(c, s, xs).ewma;
      after.Some? && after.value - latency == Shrunk(s.ewma.value - latency, |xs|)
  {
    if xs != [] {
      var init, x := xs[..|xs| - 1], xs[|xs| - 1];
      assert x in xs && forall y | y in init :: y in xs;
      SmoothingExactly(c, s, init, latency);
      SmoothingStep(c, MeasureAll(c, s, init), x);
    }
  }
}
