/** How often the workers' retry rule lets one task be leased
    (src/lowpower_llm_cluster/distributed_runtime.py:110-137, :182-195, :404-409).

    A session asks for another try while its own attempt number is below the maximum.  Over whole runs of
    the system a task is leased at most max(1, max_attempts) times, plus once for each of its leases that
    ran out and once for each repeated delivery of a failure report that asks for another try. */
module RetryBound {
  import opened Base
  import opened TaskStore
  import opened LeaseProtocol
  import opened WorkerSystem

  ghost function TaskLog(c: Config, actions: seq<Action>, id: TaskId): seq<Event>
  {
    Log(c.uuid5, EMPTY_STORE, Calls(c, actions), id)
  }

  // ---------------------------------------------------------------- counting events

  lemma {:induction false} CountsAppend(a: seq<Event>, b: seq<Event>)
    ensures Reclaims(a + b) == Reclaims(a) + Reclaims(b)
    ensures Returns(a + b) == Returns(a) + Returns(b)
    ensures Grants(a + b) == Grants(a) + Grants(b)
  {
    if b == [] {
      assert a + b == a;
    } else {
      assert (a + b)[..|a + b| - 1] == a + b[..|b| - 1];
      CountsAppend(a, b[..|b| - 1]);
    }
  }

  lemma CountsOfOne(e: Event)
    ensures Reclaims([e]) == (if e.Reclaimed? then 1 else 0) && Returns([e]) == (if e.ReturnedBy? then 1 else 0)
    ensures Grants([e]) == if e.GrantedTo? then 1 else 0
  {
    assert [e][..0] == [];
  }

  lemma {:induction false} LeaseCounts(s: Store, op: Op, id: TaskId)
    requires op.LeaseOp? && op.leaseS > 0.0 && id in s.tasks
    ensures var events := Events(s, op, id);
      && Returns(events) == 0
      && Grants(events) == (if Next(Reclaim(s.tasks, op.now)) == Some(id) then 1 else 0)
      && Reclaims(events) == (if Expired(s.tasks[id], op.now) then 1 else 0)
  {
    var reclaimed: seq<Event> := if Expired(s.tasks[id], op.now) then [Reclaimed(op.now)] else [];
    var granted: seq<Event> :=
      if Next(Reclaim(s.tasks, op.now)) == Some(id) then [GrantedTo(op.worker, op.now, op.now + op.leaseS)] else [];
    LeaseUnfolds(s, op.worker, op.leaseS, op.now, id);
    CountsOfOne(Reclaimed(op.now));
    CountsOfOne(GrantedTo(op.worker, op.now, op.now + op.leaseS));
    CountsAppend(reclaimed, granted);
  }

  lemma {:induction false} HolderCounts(s: Store, op: Op, id: TaskId)
    requires !op.LeaseOp? && Events(s, op, id) != []
    ensures var events := Events(s, op, id);
      && Returns(events) == (if op.FailOp? && op.requeue then 1 else 0) && Grants(events) == 0 && Reclaims(events) == 0
    ensures op.FailOp? ==> op.id == id
  {
    var e := Events(s, op, id)[0];
    assert Events(s, op, id) == [e];
    CountsOfOne(e);
  }

  /** What the events of one call add up to. */
  lemma {:induction false} EventCounts(s: Store, op: Op, id: TaskId)
    ensures var events := Events(s, op, id);
      && Returns(events) == (if op.FailOp? && op.id == id && op.requeue && events != [] then 1 else 0)
      && Grants(events) ==
         (if op.LeaseOp? && op.leaseS > 0.0 && id in s.tasks && Next(Reclaim(s.tasks, op.now)) == Some(id) then 1
          else 0)
      && Reclaims(events) ==
         (if op.LeaseOp? && op.leaseS > 0.0 && id in s.tasks && Expired(s.tasks[id], op.now) then 1 else 0)
  {
    if op.LeaseOp? {
      LeaseMakesNoTasks(s, op.worker, op.leaseS, op.now, id);
      if op.leaseS > 0.0 && id in s.tasks {
        LeaseCounts(s, op, id);
      }
    } else if Events(s, op, id) != [] {
      HolderCounts(s, op, id);
    }
  }

  lemma LogSnocCall(c: Config, actions: seq<Action>, id: TaskId)
    requires actions != []
    ensures var before := actions[..|actions| - 1];
      var s := Exec(c, before);
      var call := CallOf(c, s, actions[|actions| - 1]);
      TaskLog(c, actions, id) == TaskLog(c, before, id) + if call.Some? then Events(s.store, call.value, id) else []
  {
    var before := actions[..|actions| - 1];
    var call := CallOf(c, Exec(c, before), actions[|actions| - 1]);
    StoreSeesCalls(c, before);
    if call.Some? {
      LogOneMore(c.uuid5, EMPTY_STORE, Calls(c, before), call.value, id);
    } else {
      assert Calls(c, before) + [] == Calls(c, before);
      assert TaskLog(c, before, id) + [] == TaskLog(c, before, id);
    }
  }

  lemma LogOneMore(uuid5: string -> string, s: Store, ops: seq<Op>, op: Op, id: TaskId)
    ensures Log(uuid5, s, ops + [op], id) == Log(uuid5, s, ops, id) + Events(Run(uuid5, s, ops), op, id)
  {
    assert (ops + [op])[..|ops|] == ops;
  }

  lemma {:induction false} RowAndLog(c: Config, actions: seq<Action>, id: TaskId)
    ensures TaskMatches(Exec(c, actions).store, id, TaskLog(c, actions, id)) && LegalLog(TaskLog(c, actions, id))
  {
    StoreSeesCalls(c, actions);
    EveryRunIsLegal(c.uuid5, Calls(c, actions), id);
  }

  // ---------------------------------------------------------------- hand-backs and sessions

  ghost predicate AttemptsDiffer(s: System, id: TaskId)
  {
    forall p, q | 0 <= p < q < |s.sessions| && s.sessions[p].id == s.sessions[q].id == id ::
      s.sessions[p].attempt != s.sessions[q].attempt
  }

  ghost predicate AttemptsCounted(s: System, id: TaskId, grants: nat)
  {
    forall p | 0 <= p < |s.sessions| && s.sessions[p].id == id :: 1 <= s.sessions[p].attempt <= grants
  }

  /** Failure reports come from sessions that have ended, and ask for another try by the retry rule. */
  ghost predicate ReportsFit(c: Config, s: System)
  {
    forall p: nat, requeue | FailMsg(p, requeue) in s.net ::
      p < |s.sessions| && !s.sessions[p].open && requeue == (s.sessions[p].attempt < c.maxAttempts)
  }

  /** The session has ended below the maximum and has no failure report under way: it will never again hand
      its task back. */
  ghost predicate Spent(c: Config, s: System, id: TaskId, p: int)
  {
    && 0 <= p < |s.sessions| && s.sessions[p].id == id && !s.sessions[p].open
    && s.sessions[p].attempt < c.maxAttempts && FailMsg(p, true) !in s.net
  }

  ghost function SpentAttempts(c: Config, s: System, id: TaskId): set<nat>
  {
    set p | 0 <= p < |s.sessions| && Spent(c, s, id, p) :: s.sessions[p].attempt
  }

  /** A report asking for another try at this task stays in the network after its delivery. */
  ghost predicate Repeats(c: Config, s: System, a: Action, id: TaskId)
  {
    a.DeliverFail? && a.again && a.requeue && CallOf(c, s, a).Some? && CallOf(c, s, a).value.id == id
  }

  ghost function RepeatedReports(c: Config, actions: seq<Action>, id: TaskId): nat
  {
    if actions == [] then 0 else
      var before := actions[..|actions| - 1];
      RepeatedReports(c, before, id) + if Repeats(c, Exec(c, before), actions[|actions| - 1], id) then 1 else 0
  }

  /** What every step keeps: hand-backs are paid for by spent sessions of different attempt numbers, or by
      repeated deliveries. */
  ghost predicate Ledger(c: Config, s: System, id: TaskId, log: seq<Event>, repeated: nat)
  {
    && AttemptsDiffer(s, id) && AttemptsCounted(s, id, Grants(log)) && ReportsFit(c, s)
    && Returns(log) <= |SpentAttempts(c, s, id)| + repeated
  }

  lemma SubsetSize(small: set<nat>, large: set<nat>)
    requires small <= large
    ensures |small| <= |large|
  {
    assert large == small + (large - small);
  }

  /** An ended session stays ended and never reports again. */
  lemma SpentStays(c: Config, s: System, a: Action, id: TaskId, p: int)
    requires Spent(c, s, id, p)
    ensures Spent(c, Step(c, s, a), id, p) && Step(c, s, a).sessions[p].attempt == s.sessions[p].attempt
  {
    SessionsStay(c, s, a, p);
  }

  lemma SpentAttemptsStay(c: Config, s: System, a: Action, id: TaskId)
    ensures SpentAttempts(c, s, id) <= SpentAttempts(c, Step(c, s, a), id)
  {
    var t := Step(c, s, a);
    forall n | n in SpentAttempts(c, s, id)
      ensures n in SpentAttempts(c, t, id)
    {
      var p :| 0 <= p < |s.sessions| && Spent(c, s, id, p) && s.sessions[p].attempt == n;
      SpentStays(c, s, a, id, p);
      assert 0 <= p < |t.sessions| && Spent(c, t, id, p) && t.sessions[p].attempt == n;
    }
  }

  /** Delivering a report for the last time spends its session. */
  lemma ReportSpends(c: Config, s: System, a: Action, id: TaskId)
    requires AttemptsDiffer(s, id) && ReportsFit(c, s)
    requires a.DeliverFail? && a.requeue && !a.again && FailMsg(a.sid, true) in s.net && a.sid < |s.sessions| &&
      s.sessions[a.sid].id == id
    ensures |SpentAttempts(c, Step(c, s, a), id)| > |SpentAttempts(c, s, id)|
  {
    var t, n := Step(c, s, a), s.sessions[a.sid].attempt;
    SpentAttemptsStay(c, s, a, id);
    assert Spent(c, t, id, a.sid);
    forall p | 0 <= p < |s.sessions| && Spent(c, s, id, p)
      ensures s.sessions[p].attempt != n
    {
      assert p != a.sid;
    }
    SubsetSize(SpentAttempts(c, s, id) + {n}, SpentAttempts(c, t, id));
  }

  lemma SessionsCounted(c: Config, s: System, a: Action, id: TaskId, log: seq<Event>, grants: nat)
    requires AttemptsDiffer(s, id) && AttemptsCounted(s, id, Grants(log)) && TaskMatches(s.store, id, log) &&
      Grants(log) <= grants
    requires var call := CallOf(c, s, a); call.Some? ==> grants == Grants(log) + Grants(Events(s.store, call.value, id))
    ensures AttemptsDiffer(Step(c, s, a), id) && AttemptsCounted(Step(c, s, a), id, grants)
  {
    var t := Step(c, s, a);
    forall p: nat | p < |s.sessions|
      ensures t.sessions[p].id == s.sessions[p].id && t.sessions[p].attempt == s.sessions[p].attempt
    {
      SessionsStay(c, s, a, p);
    }
    if a.Grab? {
      var outcome := Lease(s.store, a.worker, c.leaseS, a.now).1;
      EventCounts(s.store, CallOf(c, s, a).value, id);
      if outcome.Granted? && !a.lost {
        GrantQuotesTask(s.store, a.worker, c.leaseS, a.now);
        assert |t.sessions| == |s.sessions| + 1;
        assert t.sessions[|s.sessions|].id == id ==> t.sessions[|s.sessions|].attempt == Grants(log) + 1 == grants;
      }
    }
  }

  lemma ReportsFitStep(c: Config, s: System, a: Action)
    requires ReportsFit(c, s)
    ensures ReportsFit(c, Step(c, s, a))
  {
    var t := Step(c, s, a);
    forall p: nat, requeue | FailMsg(p, requeue) in t.net
      ensures p < |t.sessions| && !t.sessions[p].open && requeue == (t.sessions[p].attempt < c.maxAttempts)
    {
      SessionsStay(c, s, a, p);
    }
  }

  lemma LedgerStep(c: Config, s: System, a: Action, id: TaskId, log: seq<Event>, repeated: nat)
    requires Ledger(c, s, id, log, repeated) && TaskMatches(s.store, id, log)
    ensures var call := CallOf(c, s, a);
      Ledger(c, Step(c, s, a), id, log + (if call.Some? then Events(s.store, call.value, id) else []),
        repeated + if Repeats(c, s, a, id) then 1 else 0)
  {
    var call := CallOf(c, s, a);
    var events := if call.Some? then Events(s.store, call.value, id) else [];
    CountsAppend(log, events);
    if call.Some? {
      EventCounts(s.store, call.value, id);
    }
    SessionsCounted(c, s, a, id, log, Grants(log + events));
    ReportsFitStep(c, s, a);
    SpentAttemptsStay(c, s, a, id);
    SubsetSize(SpentAttempts(c, s, id), SpentAttempts(c, Step(c, s, a), id));
    if Returns(events) == 1 && !Repeats(c, s, a, id) {
      ReportSpends(c, s, a, id);
    }
  }

  lemma {:induction false} LedgerAlways(c: Config, actions: seq<Action>, id: TaskId)
    ensures Ledger(c, Exec(c, actions), id, TaskLog(c, actions, id), RepeatedReports(c, actions, id))
  {
    if actions != [] {
      var before := actions[..|actions| - 1];
      LedgerAlways(c, before, id);
      RowAndLog(c, before, id);
      LogSnocCall(c, actions, id);
      LedgerStep(c, Exec(c, before), actions[|actions| - 1], id, TaskLog(c, before, id),
        RepeatedReports(c, before, id));
    }
  }

  // ---------------------------------------------------------------- the bound

  function UpTo(n: nat): (numbers: set<nat>)
    ensures |numbers| == n && forall k :: k in numbers <==> 1 <= k <= n
  {
    if n == 0 then {} else UpTo(n - 1) + {n}
  }

  /** Spent sessions have attempt numbers from 1 to below the maximum. */
  lemma FewAreSpent(c: Config, s: System, id: TaskId, grants: nat)
    requires AttemptsCounted(s, id, grants)
    ensures |SpentAttempts(c, s, id)| <= if c.maxAttempts < 1 then 0 else c.maxAttempts - 1
  {
    var most: nat := if c.maxAttempts < 1 then 0 else c.maxAttempts - 1;
    assert SpentAttempts(c, s, id) <= UpTo(most);
    SubsetSize(SpentAttempts(c, s, id), UpTo(most));
  }

  /** In every run a task is leased at most max(1, max_attempts) times, plus once for each of its leases that
      ran out and once for each repeated delivery of a report that asks for another try. */
  lemma {:induction false} LeasesAreBounded(c: Config, actions: seq<Action>, id: TaskId)
    requires id in Exec(c, actions).store.tasks
    ensures Exec(c, actions).store.tasks[id].attempts <=
      (if c.maxAttempts < 1 then 1 else c.maxAttempts) + Reclaims(TaskLog(c, actions, id)) +
        RepeatedReports(c, actions, id)
  {
    LedgerAlways(c, actions, id);
    RowAndLog(c, actions, id);
    GrantsBalance(TaskLog(c, actions, id));
    FewAreSpent(c, Exec(c, actions), id, Grants(TaskLog(c, actions, id)));
  }

  /** No failure report is delivered twice; every other message may be. */
  predicate FailuresArriveOnce(actions: seq<Action>)
  {
    forall a | a in actions :: a.DeliverFail? ==> !a.again
  }

  lemma {:induction false} NothingRepeated(c: Config, actions: seq<Action>, id: TaskId)
    requires FailuresArriveOnce(actions)
    ensures RepeatedReports(c, actions, id) == 0
  {
    if actions != [] {
      assert actions[|actions| - 1] in actions && forall a | a in actions[..|actions| - 1] :: a in actions;
      NothingRepeated(c, actions[..|actions| - 1], id);
    }
  }

  /** If no lease of a task runs out and no failure report is delivered twice, the task is leased at most
      max(1, max_attempts) times, in every run. */
  lemma {:induction false} LeasedAtMostMaxAttempts(c: Config, actions: seq<Action>, id: TaskId)
    requires FailuresArriveOnce(actions) && Reclaims(TaskLog(c, actions, id)) == 0
    requires id in Exec(c, actions).store.tasks
    ensures Exec(c, actions).store.tasks[id].attempts <= if c.maxAttempts < 1 then 1 else c.maxAttempts
  {
    NothingRepeated(c, actions, id);
    LeasesAreBounded(c, actions, id);
  }

  // ---------------------------------------------------------------- while no lease runs out

  /** Hand-backs come only while fewer than `maxAttempts` grants were made in all.  Runs in which no lease of
      the task runs out keep this stricter rule; others need not, because a session compares its own attempt
      number (`RetryExtremes.StricterRuleIsBroken`). */
  predicate RetriesWithin(log: seq<Event>, maxAttempts: int)
  {
    log == [] ||
    (RetriesWithin(log[..|log| - 1], maxAttempts) &&
     (log[|log| - 1].ReturnedBy? ==> Grants(log[..|log| - 1]) < maxAttempts))
  }

  /** This session is the current grant of its task, which nobody has handed back. */
  predicate Current(x: Session, log: seq<Event>)
  {
    x.attempt == Grants(log) && !HoldOf(log).Free?
  }

  /** Active sessions are current. */
  ghost predicate SessionsCurrent(s: System, id: TaskId, log: seq<Event>)
  {
    forall p | 0 <= p < |s.sessions| && s.sessions[p].id == id ::
      s.sessions[p].attempt <= Grants(log) && (s.sessions[p].open ==> Current(s.sessions[p], log))
  }

  /** Failure reports under way come from current sessions that have ended, and follow the retry rule. */
  ghost predicate ReportsCurrent(c: Config, s: System, id: TaskId, log: seq<Event>)
  {
    forall p: nat, requeue | FailMsg(p, requeue) in s.net ::
      && p < |s.sessions| && !s.sessions[p].open && requeue == (s.sessions[p].attempt < c.maxAttempts)
      && (s.sessions[p].id == id ==> Current(s.sessions[p], log))
  }

  /** As long as no lease ran out, only the session of the latest grant is still active or has a
      failure report under way. */
  ghost predicate Calm(c: Config, s: System, id: TaskId, log: seq<Event>)
  {
    SessionsCurrent(s, id, log) && AttemptsDiffer(s, id) && ReportsCurrent(c, s, id, log)
  }

  lemma SnocFacts(log: seq<Event>, e: Event, maxAttempts: int)
    ensures HoldOf(log + [e]) == After(HoldOf(log), e)
    ensures Grants(log + [e]) == Grants(log) + if e.GrantedTo? then 1 else 0
    ensures RetriesWithin(log + [e], maxAttempts) <==>
      RetriesWithin(log, maxAttempts) && (e.ReturnedBy? ==> Grants(log) < maxAttempts)
  {
    assert (log + [e])[..|log|] == log;
  }

  /** Steps that grant nothing and hand nothing back keep the calm. */
  lemma QuietStep(c: Config, s: System, a: Action, id: TaskId, log: seq<Event>, log1: seq<Event>)
    requires Calm(c, s, id, log) && !a.Grab?
    requires Grants(log1) == Grants(log) && (!HoldOf(log).Free? ==> !HoldOf(log1).Free?)
    ensures Calm(c, Step(c, s, a), id, log1)
  {
    var t := Step(c, s, a);
    forall p: nat, requeue | FailMsg(p, requeue) in t.net
      ensures p < |t.sessions| && !t.sessions[p].open && requeue == (t.sessions[p].attempt < c.maxAttempts)
      ensures t.sessions[p].id == id ==> Current(t.sessions[p], log1)
    {
      SessionsStay(c, s, a, p);
    }
    QuietSessions(c, s, a, id, log, log1);
  }

  lemma QuietSessions(c: Config, s: System, a: Action, id: TaskId, log: seq<Event>, log1: seq<Event>)
    requires SessionsCurrent(s, id, log) && AttemptsDiffer(s, id) && !a.Grab?
    requires Grants(log1) == Grants(log) && (!HoldOf(log).Free? ==> !HoldOf(log1).Free?)
    ensures SessionsCurrent(Step(c, s, a), id, log1) && AttemptsDiffer(Step(c, s, a), id)
  {
    var t := Step(c, s, a);
    assert |t.sessions| == |s.sessions|;
    forall p | 0 <= p < |t.sessions|
      ensures t.sessions[p].id == s.sessions[p].id && t.sessions[p].attempt == s.sessions[p].attempt
      ensures t.sessions[p].open ==> s.sessions[p].open
    {
      SessionsStay(c, s, a, p);
    }
  }

  /** A grant finds no older session of the task active, so the new one is the only one. */
  lemma GrabStep(c: Config, s: System, a: Action, id: TaskId, log: seq<Event>, log1: seq<Event>)
    requires Calm(c, s, id, log) && a.Grab? && TaskMatches(s.store, id, log)
    requires var outcome := Lease(s.store, a.worker, c.leaseS, a.now).1;
      if outcome.Granted? && outcome.grant.id == id
      then HoldOf(log).Free? && Grants(log1) == Grants(log) + 1 && !HoldOf(log1).Free?
      else Grants(log1) == Grants(log) && (!HoldOf(log).Free? ==> !HoldOf(log1).Free?)
    ensures Calm(c, Step(c, s, a), id, log1)
  {
    var outcome := Lease(s.store, a.worker, c.leaseS, a.now).1;
    if outcome.Granted? {
      GrantQuotesTask(s.store, a.worker, c.leaseS, a.now);
    }
  }

  /** Handing a task back silences it: the report came from its only active session. */
  lemma HandBackStep(c: Config, s: System, a: Action, id: TaskId, log: seq<Event>, log1: seq<Event>)
    requires Calm(c, s, id, log) && a.DeliverFail? && !a.again && FailMsg(a.sid, a.requeue) in s.net
    requires s.sessions[a.sid].id == id && Grants(log1) == Grants(log)
    ensures Calm(c, Step(c, s, a), id, log1)
  {
    var t := Step(c, s, a);
    assert Current(s.sessions[a.sid], log);
    assert forall p | 0 <= p < |s.sessions| && s.sessions[p].id == id :: Current(s.sessions[p], log) ==> p == a.sid by {
      forall p | 0 <= p < |s.sessions| && s.sessions[p].id == id && Current(s.sessions[p], log)
        ensures p == a.sid
      {
        assert AttemptsDiffer(s, id);
      }
    }
  }

  /** What one call without a reclaim can do to the log of a task. */
  lemma EventFacts(s: Store, op: Op, id: TaskId, log: seq<Event>, maxAttempts: int)
    requires TaskMatches(s, id, log) && LegalLog(log) && Reclaims(Events(s, op, id)) == 0
    requires RetriesWithin(log, maxAttempts)
    requires Events(s, op, id) != [] && Events(s, op, id)[0].ReturnedBy? ==> Grants(log) < maxAttempts
    ensures var events := Events(s, op, id);
      var log1 := log + events;
      && RetriesWithin(log1, maxAttempts)
      && (op.LeaseOp? && events != [] ==> HoldOf(log).Free? && Grants(log1) == Grants(log) + 1 && !HoldOf(log1).Free?)
      && (op.LeaseOp? && events == [] ==> log1 == log)
      && (!op.LeaseOp? ==> Grants(log1) == Grants(log))
      && (!op.LeaseOp? && HoldOf(log1).Free? ==> HoldOf(log).Free? || (op.FailOp? && op.id == id && op.requeue))
  {
    var events := Events(s, op, id);
    if events == [] {
      assert log + events == log;
    } else {
      OneEventWithoutReclaim(s, op, id);
      var e := events[0];
      assert events == [e];
      SnocFacts(log, e, maxAttempts);
      LegalEvent(s, op, id, log, e);
    }
  }

  lemma LegalEvent(s: Store, op: Op, id: TaskId, log: seq<Event>, e: Event)
    requires TaskMatches(s, id, log) && LegalLog(log) && Events(s, op, id) == [e]
    ensures Legal(HoldOf(log), e)
  {
    StepIsLegal((key: string) => key, s, op, id, log);
    LegalAt(log + [e], |log|);
    assert (log + [e])[..|log|] == log;
  }

  lemma OneEventWithoutReclaim(s: Store, op: Op, id: TaskId)
    requires Events(s, op, id) != [] && Reclaims(Events(s, op, id)) == 0
    ensures |Events(s, op, id)| == 1
    ensures op.LeaseOp? <==> Events(s, op, id)[0].GrantedTo?
    ensures op.FailOp? && op.id == id && op.requeue <==> Events(s, op, id)[0].ReturnedBy?
  {
    if op.LeaseOp? {
      var reclaimed: seq<Event> :=
        if op.leaseS > 0.0 && id in s.tasks && Expired(s.tasks[id], op.now) then [Reclaimed(op.now)] else [];
      var granted := Events(s, op, id)[|reclaimed|..];
      assert Events(s, op, id) == reclaimed + granted;
      CountsAppend(reclaimed, granted);
      var one := [Reclaimed(op.now)];
      assert one[..0] == [] && Reclaims(one) == 1;
    }
  }

  /** One action, one task: while no lease has run out, the calm lasts and the retry rule is kept. */
  lemma {:induction false} CalmStep(c: Config, s: System, a: Action, id: TaskId, log: seq<Event>, log1: seq<Event>)
    requires Calm(c, s, id, log) && TaskMatches(s.store, id, log) && LegalLog(log) && RetriesWithin(log, c.maxAttempts)
    requires a.DeliverFail? ==> !a.again
    requires var call := CallOf(c, s, a);
      if call.Some? then Reclaims(Events(s.store, call.value, id)) == 0 && log1 == log + Events(s.store, call.value, id)
        else log1 == log
    ensures Calm(c, Step(c, s, a), id, log1) && RetriesWithin(log1, c.maxAttempts)
  {
    var call := CallOf(c, s, a);
    if call.None? {
      QuietStep(c, s, a, id, log, log1);
    } else if a.DeliverFail? && call.value.id == id && a.requeue {
      ReportWithinRule(c, s, a, id, log);
      EventFacts(s.store, call.value, id, log, c.maxAttempts);
      HandBackStep(c, s, a, id, log, log1);
    } else {
      OtherCallStep(c, s, a, id, log);
    }
  }

  /** A call that is no hand-back of this task. */
  lemma {:induction false} OtherCallStep(c: Config, s: System, a: Action, id: TaskId, log: seq<Event>)
    requires Calm(c, s, id, log) && TaskMatches(s.store, id, log) && LegalLog(log) && RetriesWithin(log, c.maxAttempts)
    requires CallOf(c, s, a).Some? && Reclaims(Events(s.store, CallOf(c, s, a).value, id)) == 0
    requires !(a.DeliverFail? && CallOf(c, s, a).value.id == id && a.requeue)
    ensures var log1 := log + Events(s.store, CallOf(c, s, a).value, id);
      Calm(c, Step(c, s, a), id, log1) && RetriesWithin(log1, c.maxAttempts)
  {
    var op := CallOf(c, s, a).value;
    var log1 := log + Events(s.store, op, id);
    NoReturn(s.store, op, id);
    EventFacts(s.store, op, id, log, c.maxAttempts);
    if a.Grab? {
      GrabStep(c, s, a, id, log, log1);
    } else {
      QuietStep(c, s, a, id, log, log1);
    }
  }

  lemma ReportWithinRule(c: Config, s: System, a: Action, id: TaskId, log: seq<Event>)
    requires Calm(c, s, id, log) && a.DeliverFail? && a.requeue && CallOf(c, s, a).Some? &&
      CallOf(c, s, a).value.id == id
    ensures Grants(log) < c.maxAttempts
  {
    assert FailMsg(a.sid, a.requeue) in s.net;
  }

  lemma NoReturn(s: Store, op: Op, id: TaskId)
    requires !(op.FailOp? && op.id == id && op.requeue)
    ensures Events(s, op, id) != [] ==> !Events(s, op, id)[0].ReturnedBy?
  {
  }

  /** While no lease of the task has run out, its calm lasts, over whole runs. */
  lemma {:induction false} CalmAlways(c: Config, actions: seq<Action>, id: TaskId)
    requires FailuresArriveOnce(actions) && Reclaims(TaskLog(c, actions, id)) == 0
    ensures Calm(c, Exec(c, actions), id, TaskLog(c, actions, id))
    ensures RetriesWithin(TaskLog(c, actions, id), c.maxAttempts)
  {
    if actions != [] {
      var before, a := actions[..|actions| - 1], actions[|actions| - 1];
      var s, log := Exec(c, before), TaskLog(c, before, id);
      var call := CallOf(c, s, a);
      LogSnocCall(c, actions, id);
      CountsAppend(log, if call.Some? then Events(s.store, call.value, id) else []);
      CalmAlways(c, before, id);
      StoreSeesCalls(c, before);
      EveryRunIsLegal(c.uuid5, Calls(c, before), id);
      CalmStep(c, s, a, id, log, TaskLog(c, actions, id));
    }
  }
}
