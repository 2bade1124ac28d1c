/** The per-source circuit breaker (src/lowpower_llm_cluster/resilience_runtime.py:22-99).

    Each method runs under the breaker's lock, so a run is a sequence of calls; every call carries the
    monotonic clock reading it sees and the caller that makes it.  Outcomes may arrive late: from callers
    admitted in an earlier state of the breaker. */
module CircuitBreaker {
  import opened Base

  datatype Phase = Closed | Open | HalfOpen

  datatype Settings = Settings(threshold: nat, timeout: Time, maxCalls: nat, enabled: bool)

  datatype Breaker = Breaker(phase: Phase, failures: nat, openedAt: Option<Time>, inFlight: nat, opens: nat,
    rejects: nat, recoveries: nat, successes: nat)

  const FRESH := Breaker(Closed, 0, None, 0, 0, 0, 0, 0)

  predicate ValidSettings(c: Settings)
  {
    c.threshold >= 1 && c.timeout > 0.0 && c.maxCalls >= 1
  }

  // ---------------------------------------------------------------- the methods

  /** Still inside the recovery timeout. */
  predicate Cooling(c: Settings, b: Breaker, now: Time)
  {
    b.phase.Open? && b.openedAt.Some? && now - b.openedAt.value < c.timeout
  }

  /** The new state, and whether the call is let through. */
  function Acquire(c: Settings, b: Breaker, now: Time): (Breaker, bool)
  {
    if !c.enabled then (b, true)
    else if Cooling(c, b, now) then (b.(rejects := b.rejects + 1), false)
    else
      var probing := if b.phase.Open? then b.(phase := HalfOpen, inFlight := 0) else b;
      if !probing.phase.HalfOpen? then (probing, true)
      else if probing.inFlight >= c.maxCalls then (probing.(rejects := probing.rejects + 1), false)
      else (probing.(inFlight := probing.inFlight + 1), true)
  }

  function OneLess(n: nat): nat
  {
    if n == 0 then 0 else n - 1
  }

  function Success(c: Settings, b: Breaker): Breaker
  {
    if !c.enabled then b else
      var counted := b.(successes := b.successes + 1);
      var probed := if b.phase.HalfOpen? then counted.(inFlight := OneLess(b.inFlight), recoveries := b.recoveries + 1)
        else counted;
      probed.(phase := Closed, failures := 0, openedAt := None)
  }

  function Failure(c: Settings, b: Breaker, now: Time): Breaker
  {
    if !c.enabled then b
    else if b.phase.HalfOpen? then
      b.(inFlight := OneLess(b.inFlight), phase := Open, openedAt := Some(now), opens := b.opens + 1)
    else if b.failures + 1 >= c.threshold then
      b.(failures := b.failures + 1, phase := Open, openedAt := Some(now), opens := b.opens + 1)
    else b.(failures := b.failures + 1)
  }

  function Cancel(c: Settings, b: Breaker): Breaker
  {
    if c.enabled && b.phase.HalfOpen? then b.(inFlight := OneLess(b.inFlight)) else b
  }

  class CircuitBreaker {
    const settings: Settings
    var phase: Phase
    var failures: nat
    var openedAt: Option<Time>
    var inFlight: nat
    var opens: nat
    var rejects: nat
    var recoveries: nat
    var successes: nat

    ghost function Model(): Breaker
      reads this
    {
      Breaker(phase, failures, openedAt, inFlight, opens, rejects, recoveries, successes)
    }

    constructor (threshold: nat, timeout: Time, maxCalls: nat, enabled: bool)
      requires ValidSettings(Settings(threshold, timeout, maxCalls, enabled))
      ensures Model() == FRESH && settings == Settings(threshold, timeout, maxCalls, enabled)
    {
      settings := Settings(threshold, timeout, maxCalls, enabled);
      phase, failures, openedAt, inFlight := Closed, 0, None, 0;
      opens, rejects, recoveries, successes := 0, 0, 0, 0;
    }

    method AcquireCall(now: Time) returns (admitted: bool)
      requires phase.Open? ==> openedAt.Some?
      modifies this
      ensures (Model(), admitted) == Acquire(settings, old(Model()), now)
    {
      if !settings.enabled {
        return true;
      }
      if phase.Open? {
        if now - openedAt.value < settings.timeout {
          rejects := rejects + 1;
          return false;
        }
        phase := HalfOpen;
        inFlight := 0;
      }
      if phase.HalfOpen? {
        if inFlight >= settings.maxCalls {
          rejects := rejects + 1;
          return false;
        }
        inFlight := inFlight + 1;
      }
      return true;
    }

    method RecordSuccess()
      modifies this
      ensures Model() == Success(settings, old(Model()))
    {
      if !settings.enabled {
        return;
      }
      successes := successes + 1;
      if phase.HalfOpen? {
        inFlight := OneLess(inFlight);
        recoveries := recoveries + 1;
      }
      phase := Closed;
      failures := 0;
      openedAt := None;
    }

    method RecordFailure(now: Time)
      modifies this
      ensures Model() == Failure(settings, old(Model()), now)
    {
      if !settings.enabled {
        return;
      }
      if phase.HalfOpen? {
        inFlight := OneLess(inFlight);
        phase := Open;
        openedAt := Some(now);
        opens := opens + 1;
        return;
      }
      failures := failures + 1;
      if failures >= settings.threshold {
        phase := Open;
        openedAt := Some(now);
        opens := opens + 1;
      }
    }

    method CancelCall()
      modifies this
      ensures Model() == Cancel(settings, old(Model()))
    {
      if settings.enabled && phase.HalfOpen? {
        inFlight := OneLess(inFlight);
      }
    }
  }

  // ---------------------------------------------------------------- whole runs

  datatype Kind = Acquired | Succeeded | Failed | Cancelled

  datatype Op = Op(kind: Kind, caller: nat, now: Time)

  function Step(c: Settings, b: Breaker, op: Op): Breaker
  {
    match op.kind
    case Acquired => Acquire(c, b, op.now).0
    case Succeeded => Success(c, b)
    case Failed => Failure(c, b, op.now)
    case Cancelled => Cancel(c, b)
  }

  function Run(c: Settings, ops: seq<Op>): Breaker
  {
    if ops == [] then FRESH else Step(c, Run(c, ops[..|ops| - 1]), ops[|ops| - 1])
  }

  predicate Admitted(c: Settings, ops: seq<Op>, i: nat)
    requires i < |ops|
  {
    ops[i].kind.Acquired? && Acquire(c, Run(c, ops[..i]), ops[i].now).1
  }

  /** How many failures were reported since the last success. */
  function FailuresSinceSuccess(ops: seq<Op>): nat
  {
    if ops == [] then 0 else
      match ops[|ops| - 1].kind
      case Succeeded => 0
      case Failed => FailuresSinceSuccess(ops[..|ops| - 1]) + 1
      case _ => FailuresSinceSuccess(ops[..|ops| - 1])
  }

  ghost predicate Inv(c: Settings, b: Breaker)
  {
    && (b.phase.Closed? <==> b.failures < c.threshold)
    && (b.phase.Closed? <==> b.openedAt.None?)
    && b.inFlight <= c.maxCalls
    && b.recoveries + (if b.phase.Closed? then 0 else 1) <= b.opens
  }

  lemma {:induction false} InvAlways(c: Settings, ops: seq<Op>)
    requires ValidSettings(c)
    ensures Inv(c, Run(c, ops))
  {
    if ops != [] {
      InvAlways(c, ops[..|ops| - 1]);
    }
  }

  lemma {:induction false} FailuresAreCounted(c: Settings, ops: seq<Op>)
    requires ValidSettings(c) && c.enabled
    ensures Run(c, ops).phase.Closed? <==> FailuresSinceSuccess(ops) < c.threshold
    ensures Run(c, ops).phase.Closed? ==> Run(c, ops).failures == FailuresSinceSuccess(ops)
  {
    if ops != [] {
      FailuresAreCounted(c, ops[..|ops| - 1]);
      InvAlways(c, ops[..|ops| - 1]);
    }
  }

  /** The breaker is closed exactly while fewer failures than the threshold have been reported since the
      last success, whatever else happened and however late the outcomes came. */
  lemma ClosedExactly(c: Settings, ops: seq<Op>)
    requires ValidSettings(c) && c.enabled
    ensures Run(c, ops).phase.Closed? <==> FailuresSinceSuccess(ops) < c.threshold
  {
    FailuresAreCounted(c, ops);
  }

  /** Failures reported while not closed: each opens the breaker anew. */
  function Reopenings(c: Settings, ops: seq<Op>): nat
  {
    if ops == [] then 0 else
      var before := ops[..|ops| - 1];
      Reopenings(c, before) + if ops[|ops| - 1].kind.Failed? && !Run(c, before).phase.Closed? then 1 else 0
  }

  /** Late successes: reported while open, they close the breaker without a probe. */
  function LateCloses(c: Settings, ops: seq<Op>): nat
  {
    if ops == [] then 0 else
      var before := ops[..|ops| - 1];
      LateCloses(c, before) + if ops[|ops| - 1].kind.Succeeded? && Run(c, before).phase.Open? then 1 else 0
  }

  /** Every opening is accounted for: it was recovered by a probe, closed by a late success, followed by
      another opening, or is still in force. */
  lemma {:induction false} OpeningsBalance(c: Settings, ops: seq<Op>)
    requires ValidSettings(c) && c.enabled
    ensures var b := Run(c, ops);
      b.opens == b.recoveries + LateCloses(c, ops) + Reopenings(c, ops) + if b.phase.Closed? then 0 else 1
  {
    if ops != [] {
      OpeningsBalance(c, ops[..|ops| - 1]);
      InvAlways(c, ops[..|ops| - 1]);
    }
  }

  function Refused(c: Settings, ops: seq<Op>): nat
  {
    if ops == [] then 0 else
      Refused(c, ops[..|ops| - 1]) + if ops[|ops| - 1].kind.Acquired? && !Admitted(c, ops, |ops| - 1) then 1 else 0
  }

  function Successes(ops: seq<Op>): nat
  {
    if ops == [] then 0 else Successes(ops[..|ops| - 1]) + if ops[|ops| - 1].kind.Succeeded? then 1 else 0
  }

  /** The counters count what they say: calls that were not admitted, and successes reported. */
  lemma {:induction false} CountersAreExact(c: Settings, ops: seq<Op>)
    requires c.enabled
    ensures Run(c, ops).rejects == Refused(c, ops) && Run(c, ops).successes == Successes(ops)
  {
    if ops != [] {
      CountersAreExact(c, ops[..|ops| - 1]);
    }
  }

  // ---------------------------------------------------------------- the recovery timeout

  predicate ClockForward(ops: seq<Op>)
  {
    forall i, j | 0 <= i <= j < |ops| :: ops[i].now <= ops[j].now
  }

  /** Call i reported a failure that left the breaker open. */
  predicate Opens(c: Settings, ops: seq<Op>, i: nat)
    requires i < |ops|
  {
    ops[i].kind.Failed? && Run(c, ops[..i + 1]).phase.Open?
  }

  /** From call i up to call j no success is reported: the breaker stays away from closed, and probes only
      after the timeout. */
  lemma {:induction false} Quarantine(c: Settings, ops: seq<Op>, i: nat, j: nat)
    requires ValidSettings(c) && c.enabled && ClockForward(ops) && i < j <= |ops| && Opens(c, ops, i)
    requires forall k | i < k < j :: !ops[k].kind.Succeeded?
    ensures var b := Run(c, ops[..j]);
      && !b.phase.Closed? && b.openedAt.Some? && b.openedAt.value >= ops[i].now
      && (b.phase.HalfOpen? ==> ops[j - 1].now >= ops[i].now + c.timeout)
  {
    assert ops[..j][..j - 1] == ops[..j - 1];
    InvAlways(c, ops[..j]);
    if j > i + 1 {
      Quarantine(c, ops, i, j - 1);
    } else {
      assert ops[..i + 1][..i] == ops[..i];
      InvAlways(c, ops[..i]);
      OpeningTime(c, Run(c, ops[..i]), ops[i]);
    }
  }

  lemma OpeningTime(c: Settings, b: Breaker, op: Op)
    requires c.enabled && op.kind.Failed? && Step(c, b, op).phase.Open? && Inv(c, b) && c.threshold >= 1
    ensures Step(c, b, op).openedAt == Some(op.now)
  {
  }

  /** After a failure that opens the breaker, no call is admitted before the recovery timeout has passed,
      unless a success is reported first. */
  lemma NoAdmissionBeforeTimeout(c: Settings, ops: seq<Op>, i: nat, j: nat)
    requires ValidSettings(c) && c.enabled && ClockForward(ops) && i < j < |ops|
    requires Opens(c, ops, i) && forall k | i < k < j :: !ops[k].kind.Succeeded?
    requires Admitted(c, ops, j)
    ensures ops[j].now >= ops[i].now + c.timeout
  {
    Quarantine(c, ops, i, j);
  }

  // ---------------------------------------------------------------- probes

  /** Who is probing: callers admitted in the current half-open period that have not cancelled; and how many permits
      cancels of other callers gave back in their place.  A probe that cancels when no permit is out settles one. */
  datatype Probing = Probing(callers: set<nat>, strays: nat)

  function Probes(c: Settings, ops: seq<Op>): Probing
  {
    if ops == [] then Probing({}, 0) else
      var before, op := ops[..|ops| - 1], ops[|ops| - 1];
      var b, p := Run(c, before), Probes(c, before);
      match op.kind
      case Acquired =>
        if b.phase.HalfOpen? then (if Acquire(c, b, op.now).1 then p.(callers := p.callers + {op.caller}) else p)
        else if Acquire(c, b, op.now).0.phase.HalfOpen? then Probing({op.caller}, 0)
        else Probing({}, 0)
      case Cancelled =>
        if !b.phase.HalfOpen? || (b.inFlight == 0 && op.caller !in p.callers) then p
        else if op.caller in p.callers then
          Probing(p.callers - {op.caller}, if b.inFlight == 0 then OneLess(p.strays) else p.strays)
        else p.(strays := p.strays + 1)
      case _ => Probing({}, 0)
  }

  /** Every call is its own caller: nobody is admitted to probe who is probing already. */
  predicate FreshCallers(c: Settings, ops: seq<Op>)
  {
    ops == [] ||
    var before, op := ops[..|ops| - 1], ops[|ops| - 1];
    && FreshCallers(c, before)
    && (op.kind.Acquired? && Run(c, before).phase.HalfOpen? ==> op.caller !in Probes(c, before).callers)
  }

  lemma {:induction false} ProbesAreCounted(c: Settings, ops: seq<Op>)
    requires ValidSettings(c) && c.enabled
    ensures Run(c, ops).phase.HalfOpen? ==> |Probes(c, ops).callers| <= Run(c, ops).inFlight + Probes(c, ops).strays
    ensures Run(c, ops).phase.HalfOpen? && FreshCallers(c, ops) ==>
      |Probes(c, ops).callers| == Run(c, ops).inFlight + Probes(c, ops).strays
  {
    if ops != [] {
      ProbesAreCounted(c, ops[..|ops| - 1]);
      InvAlways(c, ops[..|ops| - 1]);
    }
  }

  /** A half-open breaker has exactly as many probes running as permits out, plus one for each permit that the cancel
      of a caller admitted before the period gave back. */
  lemma ProbesExactly(c: Settings, ops: seq<Op>)
    requires ValidSettings(c) && c.enabled && Run(c, ops).phase.HalfOpen? && FreshCallers(c, ops)
    ensures |Probes(c, ops).callers| == Run(c, ops).inFlight + Probes(c, ops).strays
  {
    ProbesAreCounted(c, ops);
  }

  /** So a call makes more than maxCalls probes run if and only if it is let through while the permits out and the
      strays together have reached maxCalls. */
  lemma TooManyProbesExactly(c: Settings, ops: seq<Op>, op: Op)
    requires ValidSettings(c) && c.enabled && Run(c, ops).phase.HalfOpen? && FreshCallers(c, ops)
    requires op.kind.Acquired? && op.caller !in Probes(c, ops).callers && |Probes(c, ops).callers| <= c.maxCalls
    ensures var b, p := Run(c, ops), Probes(c, ops);
      |Probes(c, ops + [op]).callers| > c.maxCalls <==> b.inFlight < c.maxCalls <= b.inFlight + p.strays
  {
    assert (ops + [op])[..|ops|] == ops;
    ProbesExactly(c, ops);
  }

  /** A half-open breaker has at most maxCalls probes running, plus one for each stray. */
  lemma ProbesAreFew(c: Settings, ops: seq<Op>)
    requires ValidSettings(c) && c.enabled && Run(c, ops).phase.HalfOpen?
    ensures |Probes(c, ops).callers| <= c.maxCalls + Probes(c, ops).strays
  {
    ProbesAreCounted(c, ops);
    InvAlways(c, ops);
  }

  const SINGLE_PROBE := Settings(1, 1.0, 1, true)

  /** Callers 5 and 0 are admitted while closed; 0 fails, which opens the breaker; after the timeout 1 probes, then 5
      cancels. */
  const STRAY_CANCEL := [Op(Acquired, 5, 0.0)] + [Op(Acquired, 0, 0.0)] + [Op(Failed, 0, 0.0)] +
    [Op(Acquired, 1, 1.0)] + [Op(Cancelled, 5, 1.0)]

  lemma ProbesSnoc(c: Settings, ops: seq<Op>, op: Op)
    ensures Run(c, ops + [op]) == Step(c, Run(c, ops), op)
    ensures var b, p := Run(c, ops), Probes(c, ops);
      Probes(c, ops + [op]) ==
      match op.kind
      case Acquired =>
        if b.phase.HalfOpen? then (if Acquire(c, b, op.now).1 then p.(callers := p.callers + {op.caller}) else p)
        else if Acquire(c, b, op.now).0.phase.HalfOpen? then Probing({op.caller}, 0)
        else Probing({}, 0)
      case Cancelled =>
        if !b.phase.HalfOpen? || (b.inFlight == 0 && op.caller !in p.callers) then p
        else if op.caller in p.callers then
          Probing(p.callers - {op.caller}, if b.inFlight == 0 then OneLess(p.strays) else p.strays)
        else p.(strays := p.strays + 1)
      case _ => Probing({}, 0)
  {
    assert (ops + [op])[..|ops|] == ops;
  }

  /** The counterexample: with one probe allowed, the cancel of a caller admitted before the period lets a second
      probe run beside the first. */
  lemma StrayCancelLetsTwoProbe()
    ensures var ops := STRAY_CANCEL + [Op(Acquired, 2, 1.0)];
      Run(SINGLE_PROBE, ops).phase.HalfOpen? && Probes(SINGLE_PROBE, ops).callers == {1, 2} &&
        SINGLE_PROBE.maxCalls == 1
  {
    var c := SINGLE_PROBE;
    var one := [Op(Acquired, 5, 0.0)];
    var two := one + [Op(Acquired, 0, 0.0)];
    var three := two + [Op(Failed, 0, 0.0)];
    var four := three + [Op(Acquired, 1, 1.0)];
    assert [] + one == one;
    ProbesSnoc(c, [], Op(Acquired, 5, 0.0));
    ProbesSnoc(c, one, Op(Acquired, 0, 0.0));
    ProbesSnoc(c, two, Op(Failed, 0, 0.0));
    assert Run(c, three).phase.Open? && Run(c, three).openedAt == Some(0.0);
    ProbesSnoc(c, three, Op(Acquired, 1, 1.0));
    ProbesSnoc(c, four, Op(Cancelled, 5, 1.0));
    ProbesSnoc(c, STRAY_CANCEL, Op(Acquired, 2, 1.0));
  }

  /** A half-open period: calls i to j, from the one that made the breaker half-open, without an outcome. */
  predicate Period(c: Settings, ops: seq<Op>, i: nat, j: nat)
  {
    && i < j <= |ops|
    && Run(c, ops[..i]).phase.Open? && Run(c, ops[..i + 1]).phase.HalfOpen?
    && forall k | i < k < j :: ops[k].kind.Acquired? || ops[k].kind.Cancelled?
  }

  function AdmittedIn(c: Settings, ops: seq<Op>, i: nat, j: nat): nat
    requires i <= j <= |ops|
  {
    if i == j then 0 else AdmittedIn(c, ops, i, j - 1) + if Admitted(c, ops, j - 1) then 1 else 0
  }

  /** Cancels that gave a permit back. */
  function ReturnedIn(c: Settings, ops: seq<Op>, i: nat, j: nat): nat
    requires i <= j <= |ops|
  {
    if i == j then 0 else
      var b := Run(c, ops[..j - 1]);
      ReturnedIn(c, ops, i, j - 1) + if ops[j - 1].kind.Cancelled? && b.phase.HalfOpen? && b.inFlight > 0 then 1 else 0
  }

  /** Permits are conserved over a period: admissions are the permits in flight plus those handed back. */
  lemma {:induction false} PermitsAreConserved(c: Settings, ops: seq<Op>, i: nat, j: nat)
    requires ValidSettings(c) && c.enabled && Period(c, ops, i, j)
    ensures Run(c, ops[..j]).phase.HalfOpen?
    ensures AdmittedIn(c, ops, i, j) == Run(c, ops[..j]).inFlight + ReturnedIn(c, ops, i, j)
  {
    if j > i + 1 {
      PermitsAreConserved(c, ops, i, j - 1);
      PermitsStep(c, ops, i, j - 1);
    } else {
      PeriodBegins(c, ops, i);
    }
  }

  /** The call that begins the period takes the first permit. */
  lemma {:induction false} PeriodBegins(c: Settings, ops: seq<Op>, i: nat)
    requires ValidSettings(c) && c.enabled && Period(c, ops, i, i + 1)
    ensures AdmittedIn(c, ops, i, i + 1) == Run(c, ops[..i + 1]).inFlight + ReturnedIn(c, ops, i, i + 1)
  {
    assert ops[..i + 1][..i] == ops[..i];
    assert AdmittedIn(c, ops, i, i) == 0 && ReturnedIn(c, ops, i, i) == 0;
  }

  lemma {:induction false} PermitsStep(c: Settings, ops: seq<Op>, i: nat, j: nat)
    requires ValidSettings(c) && c.enabled && Period(c, ops, i, j + 1) && i < j && Run(c, ops[..j]).phase.HalfOpen?
    ensures Run(c, ops[..j + 1]).phase.HalfOpen?
    ensures AdmittedIn(c, ops, i, j + 1) - AdmittedIn(c, ops, i, j) ==
      Run(c, ops[..j + 1]).inFlight - Run(c, ops[..j]).inFlight +
        ReturnedIn(c, ops, i, j + 1) - ReturnedIn(c, ops, i, j)
  {
    assert ops[..j + 1][..j] == ops[..j];
  }

  /** A period admits at most maxCalls calls plus one for each permit handed back by a cancel. */
  lemma PeriodAdmitsFew(c: Settings, ops: seq<Op>, i: nat, j: nat)
    requires ValidSettings(c) && c.enabled && Period(c, ops, i, j)
    ensures AdmittedIn(c, ops, i, j) <= c.maxCalls + ReturnedIn(c, ops, i, j)
  {
    PermitsAreConserved(c, ops, i, j);
    InvAlways(c, ops[..j]);
  }

  /** Call k is let through although maxCalls calls of the period were admitted already: a permit is free only because
      cancels gave enough of them back. */
  predicate Oversteps(c: Settings, ops: seq<Op>, i: nat, k: nat)
    requires i <= k < |ops|
  {
    var b := Run(c, ops[..k]);
    ops[k].kind.Acquired? && b.phase.HalfOpen? && b.inFlight < c.maxCalls <= b.inFlight + ReturnedIn(c, ops, i, k)
  }

  lemma OverstepsMeans(c: Settings, ops: seq<Op>, i: nat, k: nat, j: nat)
    requires ValidSettings(c) && c.enabled && Period(c, ops, i, j) && i < k < j
    ensures Oversteps(c, ops, i, k) <==> Admitted(c, ops, k) && AdmittedIn(c, ops, i, k) >= c.maxCalls
  {
    assert Period(c, ops, i, k);
    PermitsAreConserved(c, ops, i, k);
  }

  /** A period admits more than maxCalls calls if and only if some call in it is let through while the permits out and
      those handed back so far together have reached maxCalls. */
  lemma {:induction false} PeriodOverstepsExactly(c: Settings, ops: seq<Op>, i: nat, j: nat)
    requires ValidSettings(c) && c.enabled && Period(c, ops, i, j)
    ensures AdmittedIn(c, ops, i, j) > c.maxCalls <==> exists k :: i < k < j && Oversteps(c, ops, i, k)
  {
    if j == i + 1 {
      assert AdmittedIn(c, ops, i, i) == 0;
    } else {
      assert Period(c, ops, i, j - 1);
      PeriodOverstepsExactly(c, ops, i, j - 1);
      OverstepsMeans(c, ops, i, j - 1, j);
    }
  }

  // ---------------------------------------------------------------- how many cancels let through

  lemma RunSnoc(c: Settings, ops: seq<Op>, op: Op)
    ensures Run(c, ops + [op]) == Step(c, Run(c, ops), op)
  {
    assert (ops + [op])[..|ops|] == ops;
  }

  function FailTimes(n: nat): seq<Op>
  {
    if n == 0 then [] else FailTimes(n - 1) + [Op(Failed, 0, 0.0)]
  }

  lemma {:induction false} FailTimesCount(n: nat)
    ensures FailuresSinceSuccess(FailTimes(n)) == n && |FailTimes(n)| == n
  {
    if n > 0 {
      FailTimesCount(n - 1);
      assert FailTimes(n)[..n - 1] == FailTimes(n - 1);
    }
  }

  /** The breaker opens, then n callers in turn are admitted after the timeout and cancel. */
  function ProbeAndCancel(c: Settings, n: nat): seq<Op>
  {
    if n == 0 then FailTimes(c.threshold)
    else ProbeAndCancel(c, n - 1) + [Op(Acquired, n, c.timeout)] + [Op(Cancelled, n, c.timeout)]
  }

  lemma {:induction false} AdmittedInPrefix(c: Settings, ops: seq<Op>, more: seq<Op>, i: nat, j: nat)
    requires i <= j <= |ops|
    ensures AdmittedIn(c, ops + more, i, j) == AdmittedIn(c, ops, i, j)
  {
    if i < j {
      AdmittedInPrefix(c, ops, more, i, j - 1);
      assert (ops + more)[..j - 1] == ops[..j - 1];
    }
  }

  /** n failures in a row, below the threshold. */
  lemma {:induction false} StillClosed(c: Settings, n: nat)
    requires ValidSettings(c) && c.enabled && n < c.threshold
    ensures Run(c, FailTimes(n)).phase.Closed? && Run(c, FailTimes(n)).failures == n
  {
    FailTimesCount(n);
    FailuresAreCounted(c, FailTimes(n));
  }

  lemma {:induction false} OpensAtThreshold(c: Settings)
    requires ValidSettings(c) && c.enabled
    ensures |FailTimes(c.threshold)| == c.threshold
    ensures Run(c, FailTimes(c.threshold)).phase.Open? && Run(c, FailTimes(c.threshold)).openedAt == Some(0.0)
  {
    FailTimesCount(c.threshold);
    FailTimesSnoc(c.threshold);
    StillClosed(c, c.threshold - 1);
    OneFailureMore(c, FailTimes(c.threshold - 1));
  }

  lemma {:induction false} FailTimesSnoc(n: nat)
    requires n > 0
    ensures FailTimes(n) == FailTimes(n - 1) + [Op(Failed, 0, 0.0)]
  {
  }

  lemma {:induction false} OneFailureMore(c: Settings, ops: seq<Op>)
    requires c.enabled && Run(c, ops).phase.Closed? && Run(c, ops).failures == c.threshold - 1
    ensures var b := Run(c, ops + [Op(Failed, 0, 0.0)]);
      b.phase.Open? && b.openedAt == Some(0.0)
  {
    RunSnoc(c, ops, Op(Failed, 0, 0.0));
  }

  ghost predicate AdmitsInOnePeriod(c: Settings, ops: seq<Op>, n: nat)
  {
    && c.threshold <= |ops|
    && Run(c, ops[..c.threshold]).phase.Open?
    && (n > 0 ==> Period(c, ops, c.threshold, |ops|))
    && AdmittedIn(c, ops, c.threshold, |ops|) == n
  }

  /** The breaker admits the caller and takes its permit back. */
  lemma {:induction false} AdmitAndCancel(c: Settings, ops: seq<Op>, caller: nat)
    requires ValidSettings(c) && c.enabled
    requires
      || (Run(c, ops).phase.Open? && Run(c, ops).openedAt == Some(0.0))
      || (Run(c, ops).phase.HalfOpen? && Run(c, ops).inFlight == 0)
    ensures var op, undo := Op(Acquired, caller, c.timeout), Op(Cancelled, caller, c.timeout);
      && Acquire(c, Run(c, ops), c.timeout).1 && Run(c, ops + [op]).phase.HalfOpen?
      && Run(c, ops + [op] + [undo]).phase.HalfOpen? && Run(c, ops + [op] + [undo]).inFlight == 0
  {
    var op, undo := Op(Acquired, caller, c.timeout), Op(Cancelled, caller, c.timeout);
    RunSnoc(c, ops, op);
    RunSnoc(c, ops + [op], undo);
  }

  lemma {:induction false} PeriodGoesOn(c: Settings, ops: seq<Op>, i: nat, op: Op, undo: Op)
    requires op.kind.Acquired? && undo.kind.Cancelled? && i <= |ops| && Run(c, ops[..i]).phase.Open?
    requires if i == |ops| then Run(c, ops + [op]).phase.HalfOpen? else Period(c, ops, i, |ops|)
    ensures Period(c, ops + [op] + [undo], i, |ops| + 2)
  {
    var more := ops + [op] + [undo];
    assert more[..i] == ops[..i] && more[|ops|] == op && more[|ops| + 1] == undo;
    assert more[..i + 1] == if i == |ops| then ops + [op] else ops[..i + 1];
    assert forall k | 0 <= k < |ops| :: more[k] == ops[k];
  }

  lemma {:induction false} OneMoreAdmitted(c: Settings, ops: seq<Op>, i: nat, op: Op, undo: Op)
    requires op.kind.Acquired? && undo.kind.Cancelled? && i <= |ops| && Acquire(c, Run(c, ops), op.now).1
    ensures AdmittedIn(c, ops + [op] + [undo], i, |ops| + 2) == AdmittedIn(c, ops, i, |ops|) + 1
  {
    var more := ops + [op] + [undo];
    AdmittedInPrefix(c, ops, [op] + [undo], i, |ops|);
    assert more == ops + ([op] + [undo]);
    assert more[..|ops|] == ops && Admitted(c, more, |ops|) && !Admitted(c, more, |ops| + 1);
    assert AdmittedIn(c, more, i, |ops| + 1) == AdmittedIn(c, more, i, |ops|) + 1;
  }

  lemma {:induction false} AdmitOneMore(c: Settings, ops: seq<Op>, n: nat)
    requires ValidSettings(c) && c.enabled && AdmitsInOnePeriod(c, ops, n)
    requires if n == 0 then |ops| == c.threshold && Run(c, ops).openedAt == Some(0.0)
      else Run(c, ops).phase.HalfOpen? && Run(c, ops).inFlight == 0
    ensures var more := ops + [Op(Acquired, n + 1, c.timeout)] + [Op(Cancelled, n + 1, c.timeout)];
      AdmitsInOnePeriod(c, more, n + 1) && Run(c, more).phase.HalfOpen? && Run(c, more).inFlight == 0
  {
    var op, undo := Op(Acquired, n + 1, c.timeout), Op(Cancelled, n + 1, c.timeout);
    assert ops[..|ops|] == ops;
    AdmitAndCancel(c, ops, n + 1);
    OneMoreInPeriod(c, ops, n, op, undo);
  }

  lemma {:induction false} OneMoreInPeriod(c: Settings, ops: seq<Op>, n: nat, op: Op, undo: Op)
    requires op.kind.Acquired? && undo.kind.Cancelled? && AdmitsInOnePeriod(c, ops, n)
    requires Acquire(c, Run(c, ops), op.now).1 && Run(c, ops + [op]).phase.HalfOpen? &&
      (n == 0 ==> |ops| == c.threshold)
    ensures AdmitsInOnePeriod(c, ops + [op] + [undo], n + 1)
  {
    PeriodGoesOn(c, ops, c.threshold, op, undo);
    OneMoreAdmitted(c, ops, c.threshold, op, undo);
    PeriodIsOne(c, ops + [op] + [undo], n + 1);
  }

  lemma {:induction false} PeriodIsOne(c: Settings, ops: seq<Op>, n: nat)
    requires c.threshold <= |ops| && Period(c, ops, c.threshold, |ops|) && AdmittedIn(c, ops, c.threshold, |ops|) == n
    ensures AdmitsInOnePeriod(c, ops, n)
  {
  }

  /** Cancelled probes make room without limit: for every n some half-open period admits n calls before
      any outcome, so maxCalls alone bounds only the permits out at one time. */
  lemma {:induction false} CancelsMakeRoom(c: Settings, n: nat)
    requires ValidSettings(c) && c.enabled
    ensures var ops := ProbeAndCancel(c, n);
      && AdmitsInOnePeriod(c, ops, n)
      && if n == 0 then |ops| == c.threshold && Run(c, ops).openedAt == Some(0.0)
           else Run(c, ops).phase.HalfOpen? && Run(c, ops).inFlight == 0
  {
    if n == 0 {
      OpensAtThreshold(c);
      assert FailTimes(c.threshold)[..c.threshold] == FailTimes(c.threshold);
    } else {
      CancelsMakeRoom(c, n - 1);
      AdmitOneMore(c, ProbeAndCancel(c, n - 1), n - 1);
    }
  }
}
