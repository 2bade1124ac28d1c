/** The adaptive batch sizer (src/lowpower_llm_cluster/resilience_runtime.py:122-171): additive-increase,
    multiplicative-decrease control of the batch size from latency and resident memory. */
module BatchSizer {
  import opened Base
  import opened StepArithmetic

  datatype Settings = Settings(minimum: nat, maximum: nat, initial: nat, target: real, softLimit: real, window: nat,
    enabled: bool)

  datatype Sizer = Sizer(current: nat, healthy: nat, growths: nat, cuts: nat, ewma: Option<real>, lastRss: real)

  /** A latency and a resident size, already clamped at zero from below. */
  datatype Sample = Sample(latency: real, rss: real)

  predicate ValidSettings(c: Settings)
  {
    && 1 <= c.minimum <= c.maximum && c.minimum <= c.initial <= c.maximum
    && c.target > 0.0 && c.softLimit > 0.0 && c.window >= 1
  }

  predicate Pressured(c: Settings, x: Sample)
  {
    x.rss >= c.softLimit || x.latency > c.target * 1.5
  }

  predicate Healthy(c: Settings, x: Sample)
  {
    x.latency <= c.target && x.rss <= c.softLimit * 0.8
  }

  /** `max(current + 1, ceil(current * 1.25))`, cut at the maximum. */
  function Grow(maximum: nat, current: nat): nat
  {
    Min(maximum, Max(current + 1, (5 * current + 3) / 4))
  }

  function Smooth(alpha: real, ewma: Option<real>, latency: real): Option<real>
  {
    Some(if ewma.None? then latency else alpha * latency + (1.0 - alpha) * ewma.value)
  }

  function Measure(c: Settings, s: Sizer, x: Sample): Sizer
  {
    if !c.enabled then s else
      var seen := s.(lastRss := x.rss, ewma := Smooth(0.25, s.ewma, x.latency));
      if Pressured(c, x) then
        var reduced := Max(c.minimum, s.current / 2);
        if reduced < s.current then seen.(current := reduced, cuts := s.cuts + 1, healthy := 0) else seen.(healthy := 0)
      else
        var streak := if Healthy(c, x) then s.healthy + 1 else 0;
        if streak >= c.window && s.current < c.maximum
        then seen.(current := Grow(c.maximum, s.current), healthy := 0, growths := s.growths + 1)
        else seen.(healthy := streak)
  }

  class AdaptiveBatchSizer {
    const settings: Settings
    var current: nat
    var healthy: nat
    var growths: nat
    var cuts: nat
    var ewma: Option<real>
    var lastRss: real

    ghost function Model(): Sizer
      reads this
    {
      Sizer(current, healthy, growths, cuts, ewma, lastRss)
    }

    constructor (settings: Settings)
      requires ValidSettings(settings)
      ensures this.settings == settings && Model() == Sizer(settings.initial, 0, 0, 0, None, 0.0)
    {
      this.settings := settings;
      current, healthy, growths, cuts, ewma, lastRss := settings.initial, 0, 0, 0, None, 0.0;
    }

    method Observe(latency: real, rss: real) returns (size: nat)
      modifies this
      ensures Model() == Measure(settings, old(Model()), Sample(latency, if rss < 0.0 then 0.0 else rss))
      ensures size == current
    {
      if !settings.enabled {
        return current;
      }
      var sample := Sample(latency, if rss < 0.0 then 0.0 else rss);
      lastRss := sample.rss;
      ewma := Smooth(0.25, ewma, latency);
      if Pressured(settings, sample) {
        var reduced := Max(settings.minimum, current / 2);
        if reduced < current {
          current := reduced;
          cuts := cuts + 1;
        }
        healthy := 0;
        return current;
      }
      healthy := if Healthy(settings, sample) then healthy + 1 else 0;
      if healthy >= settings.window && current < settings.maximum {
        current := Grow(settings.maximum, current);
        healthy := 0;
        growths := growths + 1;
      }
      return current;
    }
  }

  function MeasureAll(c: Settings, s: Sizer, xs: seq<Sample>): Sizer
  {
    if xs == [] then s else Measure(c, MeasureAll(c, s, xs[..|xs| - 1]), xs[|xs| - 1])
  }

  /** What every reachable sizer satisfies: the size is in bounds, and a full streak waits only at the maximum. */
  predicate Inv(c: Settings, s: Sizer)
  {
    && c.minimum <= s.current <= c.maximum
    && (s.healthy < c.window || s.current == c.maximum)
  }

  lemma {:induction false} InvAlways(c: Settings, s: Sizer, xs: seq<Sample>)
    requires ValidSettings(c) && Inv(c, s)
    ensures Inv(c, MeasureAll(c, s, xs))
  {
    if xs != [] {
      InvAlways(c, s, xs[..|xs| - 1]);
    }
  }

  function Rises(c: Settings, s: Sizer, xs: seq<Sample>): nat
  {
    if xs == [] then 0 else
      Rises(c, s, xs[..|xs| - 1]) + if MeasureAll(c, s, xs).current > MeasureAll(c, s, xs[..|xs| - 1]).current then 1
        else 0
  }

  function Falls(c: Settings, s: Sizer, xs: seq<Sample>): nat
  {
    if xs == [] then 0 else
      Falls(c, s, xs[..|xs| - 1]) + if MeasureAll(c, s, xs).current < MeasureAll(c, s, xs[..|xs| - 1]).current then 1
        else 0
  }

  /** The counters count the moves of the size, up and down. */
  lemma {:induction false} MovesAreCounted(c: Settings, s: Sizer, xs: seq<Sample>)
    requires ValidSettings(c) && Inv(c, s)
    ensures MeasureAll(c, s, xs).growths == s.growths + Rises(c, s, xs)
    ensures MeasureAll(c, s, xs).cuts == s.cuts + Falls(c, s, xs)
  {
    if xs != [] {
      MovesAreCounted(c, s, xs[..|xs| - 1]);
      InvAlways(c, s, xs[..|xs| - 1]);
    }
  }

  lemma SamplesPrefix(xs: seq<Sample>)
    requires xs != []
    ensures forall x | x in xs[..|xs| - 1] :: x in xs
    ensures xs[|xs| - 1] in xs
  {
  }

  /** Fast backoff: k pressured samples in a row divide the size by 2^k, down to the minimum. */
  lemma {:induction false} PressureHalves(c: Settings, s: Sizer, xs: seq<Sample>)
    requires ValidSettings(c) && Inv(c, s) && c.enabled && forall x | x in xs :: Pressured(c, x)
    ensures MeasureAll(c, s, xs).current == Max(c.minimum, s.current / Pow2(|xs|))
  {
    if xs != [] {
      SamplesPrefix(xs);
      PressureHalves(c, s, xs[..|xs| - 1]);
      HalvingStep(c.minimum, s.current, |xs| - 1);
    }
  }

  /** c times (5/4)^g. */
  function Scaled(c: nat, g: nat): real
  {
    if g == 0 then c as real else 1.25 * Scaled(c, g - 1)
  }

  /** The size after g growth steps. */
  function Grown(maximum: nat, current: nat, g: nat): nat
  {
    if g == 0 then current else Grow(maximum, Grown(maximum, current, g - 1))
  }

  lemma GrowFast(maximum: nat, c: nat)
    ensures Grow(maximum, c) <= maximum
    ensures Grow(maximum, c) == maximum || 4 * Grow(maximum, c) >= 5 * c
    ensures c <= maximum ==> Grow(maximum, c) >= c
  {
  }

  /** g growth steps multiply the size by at least (5/4)^g, up to the maximum. */
  lemma {:induction false} GrownFast(maximum: nat, current: nat, g: nat)
    requires current <= maximum
    ensures Grown(maximum, current, g) <= maximum
    ensures Grown(maximum, current, g) == maximum || Grown(maximum, current, g) as real >= Scaled(current, g)
  {
    if g > 0 {
      GrownFast(maximum, current, g - 1);
      var c, next := Grown(maximum, current, g - 1), Grown(maximum, current, g);
      GrowFast(maximum, c);
      if next != maximum {
        assert 4.0 * next as real >= 5.0 * c as real;
      }
    }
  }

  lemma GrownMonotone(maximum: nat, current: nat, g: nat, more: nat)
    requires current <= maximum && g <= more
    ensures Grown(maximum, current, g) <= Grown(maximum, current, more) <= maximum
    decreases more
  {
    GrownFast(maximum, current, more);
    if g < more {
      GrownMonotone(maximum, current, g, more - 1);
      GrowFast(maximum, Grown(maximum, current, more - 1));
    }
  }

  lemma HealthStep(c: Settings, s: Sizer, x: Sample)
    requires ValidSettings(c) && Inv(c, s) && c.enabled && Healthy(c, x)
    ensures var after := Measure(c, s, x);
      (after.current, after.healthy) ==
      if s.healthy + 1 >= c.window && s.current < c.maximum then (Grow(c.maximum, s.current), 0)
        else (s.current, s.healthy + 1)
  {
    if Healthy(c, x) {
      HealthyIsNotPressured(c, x);
    }
  }

  /** One more healthy sample after g growth steps and r healthy samples since. */
  lemma GrowthStep(c: Settings, current: nat, g: nat, r: nat, before: Sizer, x: Sample)
    requires ValidSettings(c) && Inv(c, before) && c.enabled && Healthy(c, x) && r < c.window
    requires before.current == Grown(c.maximum, current, g) && (before.current < c.maximum ==> before.healthy == r)
    ensures var after := Measure(c, before, x);
      if r + 1 == c.window then after.current == Grown(c.maximum, current, g + 1) &&
        (after.current < c.maximum ==> after.healthy == 0)
      else after.current == Grown(c.maximum, current, g) && (after.current < c.maximum ==> after.healthy == r + 1)
  {
    HealthStep(c, before, x);
  }

  /** n healthy samples in a row make exactly the growth steps of the whole windows in streak + n. */
  lemma {:induction false} HealthGrows(c: Settings, s: Sizer, xs: seq<Sample>)
    requires ValidSettings(c) && Inv(c, s) && c.enabled && s.healthy < c.window
    requires forall x | x in xs :: Healthy(c, x)
    ensures MeasureAll(c, s, xs).current == Grown(c.maximum, s.current, Windows(c.window, s.healthy + |xs|).0)
    ensures MeasureAll(c, s, xs).current < c.maximum ==>
      MeasureAll(c, s, xs).healthy == Windows(c.window, s.healthy + |xs|).1
  {
    if xs != [] {
      var init, x := xs[..|xs| - 1], xs[|xs| - 1];
      var (g, r) := Windows(c.window, s.healthy + |init|);
      SamplesPrefix(xs);
      HealthGrows(c, s, init);
      InvAlways(c, s, init);
      NextWindow(c.window, s.healthy + |init|);
      GrowthStep(c, s.current, g, r, MeasureAll(c, s, init), x);
    }
  }

  /** The soft limit leaves no sample both healthy and pressured. */
  lemma HealthyIsNotPressured(c: Settings, x: Sample)
    requires ValidSettings(c) && Healthy(c, x)
    ensures !Pressured(c, x)
  {
    assert c.softLimit * 0.8 < c.softLimit && c.target < c.target * 1.5;
  }

  /** Cautious recovery: j windows of healthy samples in a row multiply the size by at least (5/4)^j,
      up to the maximum. */
  lemma {:induction false} WindowsOfHealth(c: Settings, s: Sizer, xs: seq<Sample>, j: nat)
    requires ValidSettings(c) && Inv(c, s) && c.enabled && |xs| >= j * c.window
    requires forall x | x in xs :: Healthy(c, x)
    ensures var after := MeasureAll(c, s, xs).current;
      after == c.maximum || after as real >= Scaled(s.current, j)
  {
    if s.healthy < c.window {
      HealthGrows(c, s, xs);
      EnoughWindows(c.window, s.healthy + |xs|, j);
      GrownMonotone(c.maximum, s.current, j, Windows(c.window, s.healthy + |xs|).0);
      GrownFast(c.maximum, s.current, j);
    } else {
      StaysAtMaximum(c, s, xs);
    }
  }

  lemma {:induction false} StaysAtMaximum(c: Settings, s: Sizer, xs: seq<Sample>)
    requires ValidSettings(c) && s.current == c.maximum
    requires forall x | x in xs :: Healthy(c, x)
    ensures MeasureAll(c, s, xs).current == c.maximum
  {
    if xs != [] {
      SamplesPrefix(xs);
      HealthyIsNotPressured(c, xs[|xs| - 1]);
      StaysAtMaximum(c, s, xs[..|xs| - 1]);
    }
  }

  // ---------------------------------------------------------------- samples in numbers

  /** The size falls exactly when memory reaches the soft limit or the latency exceeds one and a half targets, and it is
      above the minimum. */
  lemma CutExactly(c: Settings, s: Sizer, x: Sample)
    requires ValidSettings(c) && Inv(c, s)
    ensures var after := Measure(c, s, x);
      && (after.current < s.current <==>
            c.enabled && (c.softLimit <= x.rss || 2.0 * x.latency > 3.0 * c.target) && c.minimum < s.current)
      && (!c.enabled ==> after == s)
      && (c.enabled ==> after.lastRss == x.rss)
  {
  }

  /** It rises exactly when this sample, on target with a fifth of the memory to spare, completes a window, and there is
      room. */
  lemma RiseExactly(c: Settings, s: Sizer, x: Sample)
    requires ValidSettings(c) && Inv(c, s)
    ensures var after := Measure(c, s, x);
      after.current > s.current <==>
        && c.enabled && x.latency <= c.target && 5.0 * x.rss <= 4.0 * c.softLimit
        && s.healthy + 1 >= c.window && s.current < c.maximum
  {
    if Healthy(c, x) {
      HealthyIsNotPressured(c, x);
    }
  }

  /** The size after a rise: the least larger number that is a quarter more, cut at the maximum. */
  lemma RiseAmount(c: Settings, s: Sizer, x: Sample)
    requires ValidSettings(c) && Inv(c, s) && Measure(c, s, x).current > s.current
    ensures var size := Measure(c, s, x).current;
      && size <= c.maximum && (size < c.maximum ==> 4 * size >= 5 * s.current)
      && forall m | s.current < m < size :: 4 * m < 5 * s.current
  {
  }

  /** The streak counts the healthy samples since the last other one or the last rise. */
  lemma HealthyStreakExactly(c: Settings, s: Sizer, x: Sample)
    requires ValidSettings(c) && c.enabled
    ensures var after := Measure(c, s, x);
      after.healthy ==
        if x.latency <= c.target && 5.0 * x.rss <= 4.0 * c.softLimit && after.current == s.current then s.healthy + 1
          else 0
  {
    if Healthy(c, x) {
      HealthyIsNotPressured(c, x);
    }
  }

  /** 0.75^n of the gap. */
  function Shrunk(gap: real, n: nat): real
  {
    if n == 0 then gap else 0.75 * Shrunk(gap, n - 1)
  }

  /** One sample takes the smoothed latency a fixed part of the way to its own. */
  lemma SmoothingStep(c: Settings, s: Sizer, x: Sample)
    requires c.enabled
    ensures var after := Measure(c, s, x).ewma;
      && after.Some? && (s.ewma.None? ==> after.value == x.latency)
      && (s.ewma.Some? ==> after.value - x.latency == 0.75 * (s.ewma.value - x.latency))
  {
  }

  /** The smoothed latency starts at the first sample, and under n samples of one latency its distance to that latency
      shrinks to 0.75^n of what it was. */
  lemma {:induction false} SmoothingExactly(c: Settings, s: Sizer, xs: seq<Sample>, latency: real)
    requires c.enabled && forall x | x in xs :: x.latency == latency
    ensures s.ewma.None? && xs != [] ==> MeasureAll(c, s, xs).ewma == Some(latency)
    ensures s.ewma.Some? ==>
      var after := MeasureAll(c, s, xs).ewma;
      after.Some? && after.value - latency == Shrunk(s.ewma.value - latency, |xs|)
  {
    if xs != [] {
      var init, x := xs[..|xs| - 1], xs[|xs| - 1];
      assert x in xs && forall y | y in init :: y in xs;
      SmoothingExactly(c, s, init, latency);
      SmoothingStep(c, MeasureAll(c, s, init), x);
    }
  }
}
