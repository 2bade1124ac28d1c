/** When the circuit breaker lets a call through, by the history of calls alone
    (src/lowpower_llm_cluster/resilience_runtime.py:46-99). */
module BreakerAdmission {
  import opened Base
  import opened CircuitBreaker

  /** The time of the last failure reported. */
  function LastFailure(ops: seq<Op>): Option<Time>
  {
    if ops == [] then None
    else if ops[|ops| - 1].kind.Failed? then Some(ops[|ops| - 1].now)
    else LastFailure(ops[..|ops| - 1])
  }

  /** Some call was let through after the last failure reported. */
  predicate ProbedSinceFailure(c: Settings, ops: seq<Op>)
  {
    && ops != [] && !ops[|ops| - 1].kind.Failed?
    && (Admitted(c, ops, |ops| - 1) || ProbedSinceFailure(c, ops[..|ops| - 1]))
  }

  /** In every run: outside closed the breaker is half-open exactly when a call was let through since the last failure,
      and opened_at is the time of that failure. */
  lemma {:induction false} PhaseExactly(c: Settings, ops: seq<Op>)
    requires ValidSettings(c) && c.enabled
    ensures !Run(c, ops).phase.Closed? ==>
      && (Run(c, ops).phase.HalfOpen? <==> ProbedSinceFailure(c, ops))
      && Run(c, ops).openedAt == LastFailure(ops)
  {
    if ops != [] {
      var before := ops[..|ops| - 1];
      PhaseExactly(c, before);
      InvAlways(c, before);
    }
  }

  /** In every run a call is let through if and only if fewer failures than the threshold were reported since the last
      success; or else no call was let through since the last failure, which is a recovery timeout ago; or else a
      half-open permit is left. */
  lemma {:induction false} AdmittedExactly(c: Settings, ops: seq<Op>, now: Time)
    requires ValidSettings(c) && c.enabled
    ensures var admitted := Acquire(c, Run(c, ops), now).1;
      admitted <==>
        if FailuresSinceSuccess(ops) < c.threshold then true
        else if ProbedSinceFailure(c, ops) then Run(c, ops).inFlight < c.maxCalls
        else LastFailure(ops).Some? && now >= LastFailure(ops).value + c.timeout
  {
    ClosedExactly(c, ops);
    PhaseExactly(c, ops);
    InvAlways(c, ops);
  }

  /** A disabled breaker lets every call through and never changes. */
  lemma {:induction false} DisabledIsTransparent(c: Settings, ops: seq<Op>, now: Time)
    requires !c.enabled
    ensures Run(c, ops) == FRESH && Acquire(c, Run(c, ops), now) == (FRESH, true)
  {
    if ops != [] {
      DisabledIsTransparent(c, ops[..|ops| - 1], now);
    }
  }

  /** A success closes the breaker from any state, with a clean slate; what it counted before stays counted. */
  lemma SuccessCloses(c: Settings, b: Breaker)
    requires c.enabled
    ensures var after := Success(c, b);
      && after.phase.Closed? && after.failures == 0 && after.openedAt.None?
      && (after.opens, after.rejects, after.successes) == (b.opens, b.rejects, b.successes + 1)
      && after.recoveries == b.recoveries + (if b.phase.HalfOpen? then 1 else 0)
      && after.inFlight == if b.phase.HalfOpen? && b.inFlight > 0 then b.inFlight - 1 else b.inFlight
  {
  }

  /** A cancel gives back one permit of a half-open breaker that has one out, and changes nothing else ever. */
  lemma CancelGivesBack(c: Settings, b: Breaker)
    ensures Cancel(c, b) ==
      if c.enabled && b.phase.HalfOpen? && b.inFlight > 0 then b.(inFlight := b.inFlight - 1) else b
  {
  }

  /** The failures reported since the last success, those of half-open probes left out: they reopen the breaker without
      being counted. */
  function FailuresOutsideProbes(c: Settings, ops: seq<Op>): nat
  {
    if ops == [] then 0 else
      var before, op := ops[..|ops| - 1], ops[|ops| - 1];
      match op.kind
      case Succeeded => 0
      case Failed => FailuresOutsideProbes(c, before) + if Run(c, before).phase.HalfOpen? then 0 else 1
      case _ => FailuresOutsideProbes(c, before)
  }

  /** In every run the failure counter is exact, also while the breaker is open. */
  lemma {:induction false} FailureCountExactly(c: Settings, ops: seq<Op>)
    requires c.enabled
    ensures Run(c, ops).failures == FailuresOutsideProbes(c, ops)
  {
    if ops != [] {
      FailureCountExactly(c, ops[..|ops| - 1]);
    }
  }
}
