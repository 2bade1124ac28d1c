/** Signed worker requests (src/lowpower_llm_cluster/distributed_security.py:117-147): the checks in front of
    the replay window, and how often one signed request can be granted over a whole run. */
module WorkerAuth {
  import opened Base
  import opened ReplayWindow

  /** What `float(timestamp)` can yield. */
  datatype Stamp = At(time: Time) | Infinite | NotANumber

  datatype Request = Request(worker: string, verb: string, path: string, body: string, timestamp: string, nonce: string,
    supplied: string)

  /** The credential file, and the two library calls whose inner workings play no part:
      reading a float and computing the keyed digest. */
  datatype Checks = Checks(secrets: map<string, string>, parse: string -> Option<Stamp>,
    sign: (string, Request) -> string)

  datatype Outcome = Granted(secret: string) | Missing | BadTimestamp | OutsideSkew | BadSignature | Replayed

  /** `abs(current - request_time) > skew`; a comparison with not-a-number is false. */
  predicate TooFar(stamp: Stamp, now: Time, skew: Time)
  {
    stamp.Infinite? || (stamp.At? && (now - stamp.time > skew || stamp.time - now > skew))
  }

  /** The first check that fails, before the window is consulted. */
  function Precheck(checks: Checks, skew: Time, r: Request, now: Time): Outcome
  {
    if r.worker !in checks.secrets || r.timestamp == "" || r.nonce == "" || r.supplied == "" then Missing
    else match checks.parse(r.timestamp)
      case None => BadTimestamp
      case Some(stamp) =>
        if TooFar(stamp, now, skew) then OutsideSkew
        else if r.supplied != checks.sign(checks.secrets[r.worker], r) then BadSignature
        else Granted(checks.secrets[r.worker])
  }

  function KeyOf(r: Request): Key
  {
    Key(r.worker, r.nonce)
  }

  /** A request that fails a check leaves the window alone. */
  function Verify(checks: Checks, limits: Limits, skew: Time, w: Window, r: Request, now: Time): (Window, Outcome)
  {
    var first := Precheck(checks, skew, r, now);
    if !first.Granted? then (w, first) else
      var (after, ok) := Accept(limits, w, KeyOf(r), now);
      (after, if ok then first else Replayed)
  }

  method VerifyWorkerRequest(checks: Checks, replay: ReplayWindow, skew: Time, r: Request, now: Time)
    returns (outcome: Outcome)
    modifies replay
    ensures (replay.Model(), outcome) == Verify(checks, replay.limits, skew, old(replay.Model()), r, now)
  {
    if r.worker !in checks.secrets || r.timestamp == "" || r.nonce == "" || r.supplied == "" {
      return Missing;
    }
    var stamp := checks.parse(r.timestamp);
    if stamp.None? {
      return BadTimestamp;
    }
    if TooFar(stamp.value, now, skew) {
      return OutsideSkew;
    }
    if r.supplied != checks.sign(checks.secrets[r.worker], r) {
      return BadSignature;
    }
    var ok := replay.AcceptNonce(r.worker, r.nonce, now);
    return if ok then Granted(checks.secrets[r.worker]) else Replayed;
  }

  // ---------------------------------------------------------------- whole runs

  datatype Visit = Visit(request: Request, now: Time)

  datatype Setup = Setup(checks: Checks, limits: Limits, skew: Time)

  function Run(s: Setup, visits: seq<Visit>): Window
  {
    if visits == [] then EMPTY_WINDOW else
      var last := visits[|visits| - 1];
      Verify(s.checks, s.limits, s.skew, Run(s, visits[..|visits| - 1]), last.request, last.now).0
  }

  function OutcomeAt(s: Setup, visits: seq<Visit>, i: nat): Outcome
    requires i < |visits|
  {
    Verify(s.checks, s.limits, s.skew, Run(s, visits[..i]), visits[i].request, visits[i].now).1
  }

  /** How many of the visits were granted. */
  function Grants(s: Setup, visits: seq<Visit>): nat
  {
    if visits == [] then 0 else
      Grants(s, visits[..|visits| - 1]) + if OutcomeAt(s, visits, |visits| - 1).Granted? then 1 else 0
  }

  predicate ClockForward(visits: seq<Visit>)
  {
    forall i, j | 0 <= i <= j < |visits| :: visits[i].now <= visits[j].now
  }

  /** The visits that reach the window. */
  function CallsOf(s: Setup, visits: seq<Visit>): seq<Call>
  {
    if visits == [] then [] else
      var before, last := CallsOf(s, visits[..|visits| - 1]), visits[|visits| - 1];
      if Precheck(s.checks, s.skew, last.request, last.now).Granted? then before + [Call(KeyOf(last.request), last.now)]
        else before
  }

  /** Visits drive the window exactly as the calls that pass the checks do, and every acceptance is a grant. */
  lemma {:induction false} VisitsAreCalls(s: Setup, visits: seq<Visit>)
    ensures Run(s, visits) == After(s.limits, CallsOf(s, visits))
    ensures Grants(s, visits) == |Accepted(s.limits, CallsOf(s, visits))|
  {
    if visits != [] {
      var before, last := visits[..|visits| - 1], visits[|visits| - 1];
      VisitsAreCalls(s, before);
      var calls, call := CallsOf(s, before), Call(KeyOf(last.request), last.now);
      assert (calls + [call])[..|calls|] == calls;
    }
  }

  lemma {:induction false} CallsKeepTheClock(s: Setup, visits: seq<Visit>, now: Time)
    requires ClockForward(visits) && forall v | v in visits :: v.now <= now
    ensures ClockNondecreasing(CallsOf(s, visits))
    ensures forall c | c in CallsOf(s, visits) :: c.now <= now
  {
    if visits != [] {
      var before, last := visits[..|visits| - 1], visits[|visits| - 1];
      assert forall v | v in before :: v in visits;
      forall v | v in before ensures v.now <= last.now {
        var i :| 0 <= i < |before| && before[i] == v;
        assert visits[i] == v;
      }
      CallsKeepTheClock(s, before, last.now);
      assert last in visits;
    }
  }

  lemma {:induction false} CallsOnlyGrow(s: Setup, visits: seq<Visit>, k: nat)
    requires k <= |visits|
    ensures CallsOf(s, visits[..k]) <= CallsOf(s, visits)
  {
    if k < |visits| {
      assert visits[..|visits| - 1][..k] == visits[..k];
      CallsOnlyGrow(s, visits[..|visits| - 1], k);
    } else {
      assert visits[..k] == visits;
    }
  }

  /** A granted visit ends the log of the run up to it. */
  lemma GrantEndsLog(s: Setup, before: seq<Visit>, v: Visit)
    requires Verify(s.checks, s.limits, s.skew, Run(s, before), v.request, v.now).1.Granted?
    ensures Accepted(s.limits, CallsOf(s, before + [v])) ==
      Accepted(s.limits, CallsOf(s, before)) + [Entry(v.now, KeyOf(v.request))]
  {
    var calls, call := CallsOf(s, before), Call(KeyOf(v.request), v.now);
    assert (before + [v])[..|before|] == before;
    assert (calls + [call])[..|calls|] == calls;
    VisitsAreCalls(s, before);
  }

  lemma {:induction false} AcceptedOnlyGrows(s: Setup, visits: seq<Visit>, k: nat)
    requires k <= |visits|
    ensures Accepted(s.limits, CallsOf(s, visits[..k])) <= Accepted(s.limits, CallsOf(s, visits))
  {
    CallsOnlyGrow(s, visits, k);
    var calls, mine := CallsOf(s, visits), CallsOf(s, visits[..k]);
    LogOnlyGrows(s.limits, calls, |mine|);
    assert calls[..|mine|] == mine;
  }

  lemma GrantsAreLogged(s: Setup, visits: seq<Visit>)
    ensures Grants(s, visits) == |Accepted(s.limits, CallsOf(s, visits))|
  {
    VisitsAreCalls(s, visits);
  }

  lemma EntryAfter<X>(p: seq<X>, x: X, q: seq<X>)
    requires p + [x] <= q
    ensures |p| < |q| && q[|p|] == x
  {
    assert (p + [x])[|p|] == x;
  }

  /** A granted visit's entry stands in the log of every longer run, at the place its grant number says. */
  lemma EntryStays(s: Setup, before: seq<Visit>, v: Visit, longer: seq<Visit>)
    requires Verify(s.checks, s.limits, s.skew, Run(s, before), v.request, v.now).1.Granted?
    requires before + [v] <= longer
    ensures var log := Accepted(s.limits, CallsOf(s, longer));
      Grants(s, before) < |log| && log[Grants(s, before)] == Entry(v.now, KeyOf(v.request))
  {
    var upTo := before + [v];
    GrantEndsLog(s, before, v);
    assert longer[..|upTo|] == upTo;
    AcceptedOnlyGrows(s, longer, |upTo|);
    GrantsAreLogged(s, before);
    EntryAfter(Accepted(s.limits, CallsOf(s, before)), Entry(v.now, KeyOf(v.request)),
      Accepted(s.limits, CallsOf(s, longer)));
  }

  lemma GrantIsLogged(s: Setup, visits: seq<Visit>, i: nat, j: nat)
    requires i < j <= |visits| && OutcomeAt(s, visits, i).Granted?
    ensures var log, v := Accepted(s.limits, CallsOf(s, visits[..j])), visits[i];
      Grants(s, visits[..i]) < |log| && log[Grants(s, visits[..i])] == Entry(v.now, KeyOf(v.request))
  {
    assert visits[..i] + [visits[i]] <= visits[..j];
    EntryStays(s, visits[..i], visits[i], visits[..j]);
  }

  /** Two grants under the same worker and nonce are more than maxAge apart,
      or at least maxEntries other requests were granted between them. */
  lemma {:induction false} GrantsOfOneNonce(s: Setup, visits: seq<Visit>, i: nat, j: nat)
    requires ClockForward(visits) && s.limits.maxAge >= 0.0 && i < j < |visits|
    requires KeyOf(visits[i].request) == KeyOf(visits[j].request)
    requires OutcomeAt(s, visits, i).Granted? && OutcomeAt(s, visits, j).Granted?
    ensures visits[j].now - visits[i].now > s.limits.maxAge ||
      Grants(s, visits[..j]) - Grants(s, visits[..i]) > s.limits.maxEntries
  {
    var before, v := visits[..j], visits[j];
    VisitsAreCalls(s, before);
    GrantIsLogged(s, visits, i, j);
    forall u | u in before ensures u.now <= v.now {
      var k :| 0 <= k < |before| && before[k] == u;
      assert visits[k] == u;
    }
    CallsKeepTheClock(s, before, v.now);
    AcceptedExactlyWhenForgotten(s.limits, CallsOf(s, before), Call(KeyOf(v.request), v.now));
  }

  /** A request that passes every check once its time is right. */
  predicate Authentic(s: Setup, r: Request)
  {
    && r.worker in s.checks.secrets && r.timestamp != "" && r.nonce != "" && r.supplied != ""
    && s.checks.parse(r.timestamp).Some?
    && r.supplied == s.checks.sign(s.checks.secrets[r.worker], r)
  }

  function StampOf(s: Setup, r: Request): Stamp
    requires Authentic(s, r)
  {
    s.checks.parse(r.timestamp).value
  }

  /** Short of overflow the request is granted at most once: in no run with a forward clock is it
      granted twice with fewer than maxEntries other grants between. */
  ghost predicate AtMostOnce(s: Setup, r: Request)
  {
    forall visits: seq<Visit>, i: nat, j: nat |
      && i < j < |visits| && ClockForward(visits) && visits[i].request == r == visits[j].request
      && OutcomeAt(s, visits, i).Granted? && OutcomeAt(s, visits, j).Granted?
      :: Grants(s, visits[..j]) - Grants(s, visits[..i]) > s.limits.maxEntries
  }

  lemma GrantedMeansInTime(s: Setup, visits: seq<Visit>, i: nat)
    requires i < |visits| && OutcomeAt(s, visits, i).Granted?
    ensures Authentic(s, visits[i].request) && !TooFar(StampOf(s, visits[i].request), visits[i].now, s.skew)
  {
  }

  /** The same request at two times. */
  function Twice(r: Request, first: Time, second: Time): seq<Visit>
  {
    [Visit(r, first), Visit(r, second)]
  }

  /** A request in time is granted exactly when the window accepts its call. */
  lemma {:induction false} InTimeOutcome(s: Setup, before: seq<Visit>, v: Visit)
    requires Authentic(s, v.request) && !TooFar(StampOf(s, v.request), v.now, s.skew)
    ensures Verify(s.checks, s.limits, s.skew, Run(s, before), v.request, v.now).1.Granted?
      <==> Answer(s.limits, CallsOf(s, before), Call(KeyOf(v.request), v.now))
  {
    VisitsAreCalls(s, before);
  }

  /** The first visit of all is granted. */
  lemma FirstIsGranted(s: Setup, v: Visit)
    requires Authentic(s, v.request) && !TooFar(StampOf(s, v.request), v.now, s.skew) && s.limits.maxAge >= 0.0
    ensures Verify(s.checks, s.limits, s.skew, Run(s, []), v.request, v.now).1.Granted?
    ensures CallsOf(s, [v]) == [Call(KeyOf(v.request), v.now)]
  {
    InTimeOutcome(s, [], v);
    FirstIsAccepted(s.limits, Call(KeyOf(v.request), v.now));
    assert [v][..0] == [];
  }

  /** A second visit with the same request is granted once the first is forgotten. */
  lemma {:induction false} SecondIsGranted(s: Setup, u: Visit, v: Visit)
    requires Authentic(s, u.request) && v.request == u.request && s.limits.maxAge >= 0.0 &&
      v.now - u.now > s.limits.maxAge
    requires !TooFar(StampOf(s, u.request), u.now, s.skew) && !TooFar(StampOf(s, u.request), v.now, s.skew)
    ensures Verify(s.checks, s.limits, s.skew, Run(s, [u]), v.request, v.now).1.Granted?
  {
    FirstIsGranted(s, u);
    InTimeOutcome(s, [u], v);
    SecondIsAccepted(s.limits, Call(KeyOf(u.request), u.now), Call(KeyOf(v.request), v.now));
  }

  /** Two visits further apart than maxAge are both granted. */
  lemma {:induction false} TwiceIsGranted(s: Setup, r: Request, first: Time, second: Time)
    requires Authentic(s, r) && !TooFar(StampOf(s, r), first, s.skew) && !TooFar(StampOf(s, r), second, s.skew)
    requires s.limits.maxAge >= 0.0 && second - first > s.limits.maxAge
    ensures var visits := Twice(r, first, second);
      OutcomeAt(s, visits, 0).Granted? && OutcomeAt(s, visits, 1).Granted? &&
        Grants(s, visits[..1]) - Grants(s, visits[..0]) == 1
  {
    var visits := Twice(r, first, second);
    assert visits[..0] == [] && visits[..1] == [visits[0]];
    FirstIsGranted(s, visits[0]);
    SecondIsGranted(s, visits[0], visits[1]);
    VisitsAreCalls(s, [visits[0]]);
  }

  lemma OnceWhenRemembered(s: Setup, r: Request)
    requires s.limits.maxAge >= 0.0 && s.limits.maxAge >= 2.0 * s.skew
    requires Authentic(s, r) && !StampOf(s, r).NotANumber?
    ensures AtMostOnce(s, r)
  {
    forall visits: seq<Visit>, i: nat, j: nat |
      && i < j < |visits| && ClockForward(visits) && visits[i].request == r == visits[j].request
      && OutcomeAt(s, visits, i).Granted? && OutcomeAt(s, visits, j).Granted?
      ensures Grants(s, visits[..j]) - Grants(s, visits[..i]) > s.limits.maxEntries
    {
      GrantsOfOneNonce(s, visits, i, j);
      GrantedMeansInTime(s, visits, i);
      GrantedMeansInTime(s, visits, j);
    }
  }

  lemma TwiceWhenForgotten(s: Setup, r: Request, first: Time, second: Time)
    requires Authentic(s, r) && !TooFar(StampOf(s, r), first, s.skew) && !TooFar(StampOf(s, r), second, s.skew)
    requires s.limits.maxAge >= 0.0 && second - first > s.limits.maxAge && s.limits.maxEntries >= 1
    ensures !AtMostOnce(s, r)
  {
    var visits := Twice(r, first, second);
    TwiceIsGranted(s, r, first, second);
    assert ClockForward(visits) && visits[0].request == r == visits[1].request;
  }

  /** The settings under which a signed request counts once.  For a timestamp that reads as a number: exactly
      when the window remembers at least as long as the timestamp stays acceptable, which is twice the skew.
      An infinite one is never in time; one that reads as not-a-number is in time at every clock reading.
      Requests built by `signed_worker_headers` always carry a number. */
  lemma AtMostOnceExactly(s: Setup, r: Request)
    requires s.limits.maxAge >= 0.0 && s.limits.maxEntries >= 1 && s.skew >= 0.0
    requires Authentic(s, r)
    ensures AtMostOnce(s, r) <==>
      match StampOf(s, r)
      case At(_) => s.limits.maxAge >= 2.0 * s.skew
      case Infinite => true
      case NotANumber => false
  {
    match StampOf(s, r)
    case At(t) =>
      if s.limits.maxAge >= 2.0 * s.skew {
        OnceWhenRemembered(s, r);
      } else {
        TwiceWhenForgotten(s, r, t - s.skew, t + s.skew);
      }
    case Infinite =>
      NeverInTime(s, r);
    case NotANumber =>
      TwiceWhenForgotten(s, r, 0.0, s.limits.maxAge + 1.0);
  }

  lemma NeverInTime(s: Setup, r: Request)
    requires Authentic(s, r) && StampOf(s, r).Infinite?
    ensures AtMostOnce(s, r)
  {
    forall visits: seq<Visit>, i: nat | i < |visits| && visits[i].request == r
      ensures !OutcomeAt(s, visits, i).Granted?
    {
    }
  }

  // ---------------------------------------------------------------- what a request is answered

  /** The stamp is a number within the skew of the clock, or not a number at all. */
  predicate WithinSkew(stamp: Stamp, now: Time, skew: Time)
  {
    stamp.NotANumber? || (stamp.At? && now - skew <= stamp.time <= now + skew)
  }

  predicate Complete(checks: Checks, r: Request)
  {
    r.worker in checks.secrets && r.timestamp != "" && r.nonce != "" && r.supplied != ""
  }

  /** Every answer names the first thing that is wrong; a grant hands out the worker's own secret, for a request signed
      with it, in time, whose nonce the window did not hold for this worker. */
  lemma AnswerExactly(checks: Checks, limits: Limits, skew: Time, w: Window, r: Request, now: Time)
    ensures var (after, outcome) := Verify(checks, limits, skew, w, r, now);
      && (outcome.Missing? <==> !Complete(checks, r))
      && (outcome.BadTimestamp? <==> Complete(checks, r) && checks.parse(r.timestamp).None?)
      && (outcome.OutsideSkew? <==>
            && Complete(checks, r) && checks.parse(r.timestamp).Some?
            && !WithinSkew(checks.parse(r.timestamp).value, now, skew))
      && (outcome.BadSignature? <==>
            && Complete(checks, r) && checks.parse(r.timestamp).Some?
            && WithinSkew(checks.parse(r.timestamp).value, now, skew)
            && r.supplied != checks.sign(checks.secrets[r.worker], r))
      && (outcome.Granted? || outcome.Replayed? <==>
            && Complete(checks, r) && checks.parse(r.timestamp).Some?
            && WithinSkew(checks.parse(r.timestamp).value, now, skew)
            && r.supplied == checks.sign(checks.secrets[r.worker], r))
      && (outcome.Granted? ==> outcome.secret == checks.secrets[r.worker])
      && (outcome.Granted? ==> Key(r.worker, r.nonce) !in EvictOld(w, now - limits.maxAge).seen)
      && (outcome.Replayed? ==> Key(r.worker, r.nonce) in EvictOld(w, now - limits.maxAge).seen)
      && (!outcome.Granted? && !outcome.Replayed? ==> after == w)
  {
  }
}
