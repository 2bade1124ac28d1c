/** Runs in which one worker is leased a task as often as `RetryBound` allows: after r leases ran out and q
    deliveries of reports were repeated, max(1, max_attempts) + r + q times.  The older sessions give up one by one
    while the worker holds the newest lease; the store knows the worker, not the session, so each report hands the
    task back. */
module RetryExtremes {
  import opened Base
  import opened TaskStore
  import opened LeaseProtocol
  import opened WorkerSystem
  import opened RetryBound

  const WORKER: string := "w"

  function OnlyTask(c: Config): TaskId
  {
    c.uuid5(TaskKey("c", "s"))
  }

  // ---------------------------------------------------------------- a store with one task

  /** The task is the only one, and the worker was granted it n times, last with a lease from `now` on. */
  ghost predicate Granted(c: Config, st: Store, n: nat, now: Time)
  {
    var id := OnlyTask(c);
    && st.tasks.Keys == {id} && st.tasks[id].attempts == n
    && (st.tasks[id].state, st.tasks[id].owner, st.tasks[id].expires) == (Leased, Some(WORKER), Some(now + c.leaseS))
  }

  lemma LeaseOnlyTask(c: Config, st: Store, now: Time)
    requires c.leaseS > 0.0 && st.tasks.Keys == {OnlyTask(c)} && ReclaimTask(st.tasks[OnlyTask(c)], now).state.Queued?
    ensures var id := OnlyTask(c);
      var task := ReclaimTask(st.tasks[id], now);
      && Next(Reclaim(st.tasks, now)) == Some(id)
      && Lease(st, WORKER, c.leaseS, now).1 == LeaseOutcome.Granted(GrantOf(id, task, c.leaseS, now))
      && Granted(c, Lease(st, WORKER, c.leaseS, now).0, task.attempts + 1, now)
  {
    var id, tasks := OnlyTask(c), Reclaim(st.tasks, now);
    LexLeqTotal(id, id);
    assert tasks[id].state.Queued? && forall other | other in tasks :: other == id;
    assert IsNext(tasks, id);
    NextIsUnique(tasks, id);
  }

  // ---------------------------------------------------------------- the system in these runs

  /** n sessions, numbered by their attempts; the first k have given up. */
  ghost predicate Numbered(c: Config, s: System, n: nat, k: nat)
  {
    && |s.sessions| == n
    && forall p | 0 <= p < n ::
         var x := s.sessions[p];
         x.worker == WORKER && x.id == OnlyTask(c) && x.attempt == p + 1 && (x.open <==> p >= k)
  }

  ghost predicate Shape(c: Config, s: System, n: nat, k: nat, now: Time, net: set<Message>)
  {
    Granted(c, s.store, n, now) && Numbered(c, s, n, k) && s.net == net
  }

  /** The same after a hand-back, or after the lease ran out: a lease call would grant the task. */
  ghost predicate Waiting(c: Config, s: System, n: nat, k: nat, now: Time, net: set<Message>)
  {
    && s.store.tasks.Keys == {OnlyTask(c)} && s.store.tasks[OnlyTask(c)].attempts == n
    && ReclaimTask(s.store.tasks[OnlyTask(c)], now).state.Queued?
    && Numbered(c, s, n, k) && s.net == net
  }

  /** So many leases of the task ran out, and so many deliveries of its reports were repeated. */
  ghost predicate Counted(c: Config, actions: seq<Action>, reclaims: nat, repeated: nat)
  {
    && Reclaims(TaskLog(c, actions, OnlyTask(c))) == reclaims
    && RepeatedReports(c, actions, OnlyTask(c)) == repeated
    && (repeated == 0 ==> FailuresArriveOnce(actions))
  }

  ghost predicate Reached(c: Config, actions: seq<Action>, n: nat, k: nat, now: Time, net: set<Message>, reclaims: nat,
        repeated: nat)
  {
    Shape(c, Exec(c, actions), n, k, now, net) && Counted(c, actions, reclaims, repeated)
  }

  ghost function ReclaimsBy(c: Config, s: System, a: Action): nat
  {
    var call := CallOf(c, s, a);
    if call.Some? then Reclaims(Events(s.store, call.value, OnlyTask(c))) else 0
  }

  lemma {:induction false} OneMoreAction(c: Config, actions: seq<Action>, a: Action)
    ensures Exec(c, actions + [a]) == Step(c, Exec(c, actions), a)
    ensures var call := CallOf(c, Exec(c, actions), a);
      TaskLog(c, actions + [a], OnlyTask(c)) ==
      TaskLog(c, actions, OnlyTask(c)) + if call.Some? then Events(Exec(c, actions).store, call.value, OnlyTask(c))
        else []
    ensures RepeatedReports(c, actions + [a], OnlyTask(c)) ==
      RepeatedReports(c, actions, OnlyTask(c)) + if Repeats(c, Exec(c, actions), a, OnlyTask(c)) then 1 else 0
  {
    assert (actions + [a])[..|actions|] == actions;
    LogSnocCall(c, actions + [a], OnlyTask(c));
  }

  lemma {:induction false} CountOne(c: Config, actions: seq<Action>, a: Action, reclaims: nat, repeated: nat)
    requires Counted(c, actions, reclaims, repeated)
    requires a.DeliverFail? && a.again ==> Repeats(c, Exec(c, actions), a, OnlyTask(c))
    ensures Exec(c, actions + [a]) == Step(c, Exec(c, actions), a)
    ensures Counted(c, actions + [a], reclaims + ReclaimsBy(c, Exec(c, actions), a),
                    repeated + if Repeats(c, Exec(c, actions), a, OnlyTask(c)) then 1 else 0)
  {
    var call := CallOf(c, Exec(c, actions), a);
    OneMoreAction(c, actions, a);
    CountsAppend(TaskLog(c, actions, OnlyTask(c)),
                 if call.Some? then Events(Exec(c, actions).store, call.value, OnlyTask(c)) else []);
  }

  // ---------------------------------------------------------------- one action

  /** The worker takes the task: out of the queue, or after its own lease ran out. */
  lemma GrabAgain(c: Config, s: System, n: nat, k: nat, now: Time, net: set<Message>)
    requires c.leaseS > 0.0 && k <= n && Waiting(c, s, n, k, now, net)
    ensures Shape(c, Step(c, s, Grab(WORKER, false, now)), n + 1, k, now, net)
    ensures ReclaimsBy(c, s, Grab(WORKER, false, now)) == if Expired(s.store.tasks[OnlyTask(c)], now) then 1 else 0
  {
    LeaseOnlyTask(c, s.store, now);
    EventCounts(s.store, LeaseOp(WORKER, c.leaseS, now), OnlyTask(c));
  }

  /** Session k gives up and says so. */
  lemma ReportsFailure(c: Config, s: System, n: nat, k: nat, now: Time)
    requires Shape(c, s, n, k, now, {}) && k < n && k + 1 < c.maxAttempts
    ensures Shape(c, Step(c, s, GiveUp(k)), n, k + 1, now, {FailMsg(k, true)}) && CallOf(c, s, GiveUp(k)).None?
    ensures Step(c, s, GiveUp(k)).store == s.store
  {
  }

  /** Its report hands the task back, whichever session the lease was granted to. */
  lemma HandBack(c: Config, s: System, n: nat, k: nat, again: bool, now: Time)
    requires c.leaseS > 0.0 && Shape(c, s, n, k + 1, now, {FailMsg(k, true)}) && k < n
    ensures var a := DeliverFail(k, true, "", again, now);
      && CallOf(c, s, a) == Some(FailOp(OnlyTask(c), WORKER, "", true, now))
      && Fail(s.store, OnlyTask(c), WORKER, "", true, now).1 && ReclaimsBy(c, s, a) == 0
      && Waiting(c, Step(c, s, a), n, k + 1, now, if again then {FailMsg(k, true)} else {})
      && !Expired(Step(c, s, a).store.tasks[OnlyTask(c)], now)
  {
    EventCounts(s.store, FailOp(OnlyTask(c), WORKER, "", true, now), OnlyTask(c));
  }

  // ---------------------------------------------------------------- the runs

  function Beginning(): seq<Action>
  {
    [SubmitCycle("c", [Source("s", "")], 0.0)]
  }

  lemma SubmitOne(c: Config)
    ensures Step(c, START, Beginning()[0]) == System(Submit(c.uuid5, EMPTY_STORE, "c", [Source("s", "")], 0.0), [], {})
    ensures Submit(c.uuid5, EMPTY_STORE, "c", [Source("s", "")], 0.0).tasks ==
      map[OnlyTask(c) := NewTask("c", Source("s", ""), 0.0)]
  {
    var sources := [Source("s", "")];
    assert sources[..0] == [];
    assert InsertTasks(c.uuid5, map[], "c", sources[..0], 0.0) == map[];
    assert InsertTasks(c.uuid5, map[], "c", sources, 0.0)
        == InsertTask(map[], c.uuid5(TaskKey("c", sources[0].name)), NewTask("c", sources[0], 0.0));
  }

  lemma {:induction false} NothingCounted(c: Config)
    ensures Exec(c, Beginning()) == Step(c, START, Beginning()[0]) && Counted(c, Beginning(), 0, 0)
  {
    var a := Beginning()[0];
    assert [] + [a] == Beginning();
    CountOne(c, [], a, 0, 0);
    EventCounts(START.store, CallOf(c, START, a).value, OnlyTask(c));
  }

  /** One more lease; it reclaims the earlier one if that is still recorded. */
  lemma {:induction false} GrabReaches(c: Config, before: seq<Action>, n: nat, k: nat, now: Time, net: set<Message>,
      reclaims: nat, repeated: nat)
    returns (actions: seq<Action>)
    requires c.leaseS > 0.0 && k <= n && Waiting(c, Exec(c, before), n, k, now, net) &&
      Counted(c, before, reclaims, repeated)
    ensures var late := if Expired(Exec(c, before).store.tasks[OnlyTask(c)], now) then 1 else 0;
      Reached(c, actions, n + 1, k, now, net, reclaims + late, repeated)
  {
    var a := Grab(WORKER, false, now);
    GrabAgain(c, Exec(c, before), n, k, now, net);
    CountOne(c, before, a, reclaims, repeated);
    actions := before + [a];
  }

  /** r leases in a row run out unnoticed. */
  lemma {:induction false} Expire(c: Config, r: nat) returns (actions: seq<Action>, now: Time)
    requires c.leaseS > 0.0
    ensures Reached(c, actions, r + 1, 0, now, {}, r, 0)
  {
    if r == 0 {
      SubmitOne(c);
      NothingCounted(c);
      now := 0.0;
      actions := GrabReaches(c, Beginning(), 0, 0, now, {}, 0, 0);
    } else {
      var before, last := Expire(c, r - 1);
      now := last + 2.0 * c.leaseS;
      actions := GrabReaches(c, before, r, 0, now, {}, r - 1, 0);
    }
  }

  /** A report under way is delivered, and the task is leased again. */
  lemma {:induction false} HandBackReaches(c: Config, before: seq<Action>, n: nat, k: nat, again: bool, now: Time,
      reclaims: nat, repeated: nat)
    returns (actions: seq<Action>)
    requires c.leaseS > 0.0 && k < n && Reached(c, before, n, k + 1, now, {FailMsg(k, true)}, reclaims, repeated)
    ensures Reached(c, actions, n + 1, k + 1, now, if again then {FailMsg(k, true)} else {}, reclaims,
                    repeated + if again then 1 else 0)
  {
    var a := DeliverFail(k, true, "", again, now);
    HandBack(c, Exec(c, before), n, k, again, now);
    CountOne(c, before, a, reclaims, repeated);
    actions := GrabReaches(c, before + [a], n, k + 1, now, if again then {FailMsg(k, true)} else {}, reclaims,
                           repeated + if again then 1 else 0);
  }

  /** The report is delivered q times more than once, each time followed by another lease. */
  lemma {:induction false} RepeatReport(c: Config, before: seq<Action>, n: nat, k: nat, now: Time, reclaims: nat,
        q: nat)
    returns (actions: seq<Action>)
    requires c.leaseS > 0.0 && k < n && Reached(c, before, n, k + 1, now, {FailMsg(k, true)}, reclaims, 0)
    ensures Reached(c, actions, n + q, k + 1, now, {FailMsg(k, true)}, reclaims, q)
  {
    actions := before;
    if q > 0 {
      actions := RepeatReport(c, before, n, k, now, reclaims, q - 1);
      actions := HandBackReaches(c, actions, n + q - 1, k, true, now, reclaims, q - 1);
    }
  }

  lemma {:induction false} GiveUpReaches(c: Config, before: seq<Action>, n: nat, k: nat, now: Time, reclaims: nat,
        repeated: nat)
    returns (actions: seq<Action>)
    requires Reached(c, before, n, k, now, {}, reclaims, repeated) && k < n && k + 1 < c.maxAttempts
    ensures Reached(c, actions, n, k + 1, now, {FailMsg(k, true)}, reclaims, repeated)
  {
    ReportsFailure(c, Exec(c, before), n, k, now);
    CountOne(c, before, GiveUp(k), reclaims, repeated);
    actions := before + [GiveUp(k)];
  }

  /** A session gives up; its report is delivered q times too often, each delivery followed by another lease. */
  lemma {:induction false} GiveUpRepeatedly(c: Config, before: seq<Action>, n: nat, k: nat, now: Time, reclaims: nat,
        q: nat)
    returns (actions: seq<Action>)
    requires c.leaseS > 0.0 && Reached(c, before, n, k, now, {}, reclaims, 0) && k < n && k + 1 < c.maxAttempts
    ensures Reached(c, actions, n + q + 1, k + 1, now, {}, reclaims, q)
  {
    actions := GiveUpReaches(c, before, n, k, now, reclaims, 0);
    actions := RepeatReport(c, actions, n, k, now, reclaims, q);
    actions := HandBackReaches(c, actions, n + q, k, false, now, reclaims, q);
  }

  lemma {:induction false} GiveUpOnce(c: Config, before: seq<Action>, n: nat, k: nat, now: Time, reclaims: nat,
        repeated: nat)
    returns (actions: seq<Action>)
    requires c.leaseS > 0.0 && Reached(c, before, n, k, now, {}, reclaims, repeated) && k < n && k + 1 < c.maxAttempts
    ensures Reached(c, actions, n + 1, k + 1, now, {}, reclaims, repeated)
  {
    actions := GiveUpReaches(c, before, n, k, now, reclaims, repeated);
    actions := HandBackReaches(c, actions, n, k, false, now, reclaims, repeated);
  }

  /** ... and then the oldest k sessions give up in turn, each followed by another lease; the first one's report is
      delivered q times too often. */
  lemma {:induction false} GiveUpInTurn(c: Config, r: nat, q: nat, k: nat) returns (actions: seq<Action>, now: Time)
    requires c.leaseS > 0.0 && (k > 0 ==> k < c.maxAttempts) && (q > 0 ==> k > 0)
    ensures Reached(c, actions, r + 1 + q + k, k, now, {}, r, q)
  {
    if k == 0 {
      actions, now := Expire(c, r);
    } else if k == 1 {
      actions, now := Expire(c, r);
      actions := GiveUpRepeatedly(c, actions, r + 1, 0, now, r, q);
    } else {
      actions, now := GiveUpInTurn(c, r, q, k - 1);
      actions := GiveUpOnce(c, actions, r + q + k, k - 1, now, r, q);
    }
  }

  /** The bound of `LeasesAreBounded` is reached for every maximum, every number r of expired leases and every number q
      of repeated reports (a maximum below two lets no report ask for another try).  So one expired lease, or one
      repeated report, is enough to exceed max_attempts. */
  lemma {:induction false} BoundIsReached(c: Config, r: nat, q: nat) returns (actions: seq<Action>)
    requires c.leaseS > 0.0 && (q > 0 ==> c.maxAttempts >= 2)
    ensures Reclaims(TaskLog(c, actions, OnlyTask(c))) == r && RepeatedReports(c, actions, OnlyTask(c)) == q
    ensures q == 0 ==> FailuresArriveOnce(actions)
    ensures var tasks := Exec(c, actions).store.tasks;
      OnlyTask(c) in tasks &&
      tasks[OnlyTask(c)].attempts == (if c.maxAttempts < 1 then 1 else c.maxAttempts) + r + q
  {
    var now;
    actions, now := GiveUpInTurn(c, r, q, if c.maxAttempts < 1 then 0 else c.maxAttempts - 1);
  }

  /** A maximum below two lets no report ask for another try, so none of its task is ever repeated. */
  lemma {:induction false} NoRetryNoRepeat(c: Config, actions: seq<Action>, id: TaskId)
    requires c.maxAttempts < 2
    ensures RepeatedReports(c, actions, id) == 0
  {
    if actions != [] {
      var before, a := actions[..|actions| - 1], actions[|actions| - 1];
      NoRetryNoRepeat(c, before, id);
      LedgerAlways(c, before, id);
      assert ReportsFit(c, Exec(c, before)) && AttemptsCounted(Exec(c, before), id, Grants(TaskLog(c, before, id)));
    }
  }

  // ---------------------------------------------------------------- the stricter rule

  /** The stricter rule `RetriesWithin` is then broken: with one expired lease or more a hand-back is accepted
      after max_attempts grants. */
  lemma {:induction false} StricterRuleIsBroken(c: Config, r: nat) returns (actions: seq<Action>)
    requires c.leaseS > 0.0 && c.maxAttempts >= 2 && r >= 1
    ensures !RetriesWithin(TaskLog(c, actions, OnlyTask(c)), c.maxAttempts)
  {
    var k: nat := c.maxAttempts - 2;
    var before, now := GiveUpInTurn(c, r, 0, k);
    before := GiveUpReaches(c, before, r + 1 + k, k, now, r, 0);
    LateHandBack(c, before, r + 1 + k, k, now, r);
    actions := before + [DeliverFail(k, true, "", false, now)];
  }

  /** The hand-back is the next event of the task. */
  lemma {:induction false} LogOfHandBack(c: Config, actions: seq<Action>, n: nat, k: nat, now: Time)
    requires c.leaseS > 0.0 && Shape(c, Exec(c, actions), n, k + 1, now, {FailMsg(k, true)}) && k < n
    ensures TaskLog(c, actions + [DeliverFail(k, true, "", false, now)], OnlyTask(c)) ==
      TaskLog(c, actions, OnlyTask(c)) + [ReturnedBy(WORKER, now)]
  {
    HandBack(c, Exec(c, actions), n, k, false, now);
    OneMoreAction(c, actions, DeliverFail(k, true, "", false, now));
  }

  lemma {:induction false} LateHandBack(c: Config, actions: seq<Action>, n: nat, k: nat, now: Time, reclaims: nat)
    requires c.leaseS > 0.0 && Reached(c, actions, n, k + 1, now, {FailMsg(k, true)}, reclaims, 0)
    requires k < n && c.maxAttempts <= n
    ensures !RetriesWithin(TaskLog(c, actions + [DeliverFail(k, true, "", false, now)], OnlyTask(c)), c.maxAttempts)
  {
    LogOfHandBack(c, actions, n, k, now);
    RowAndLog(c, actions, OnlyTask(c));
    SnocFacts(TaskLog(c, actions, OnlyTask(c)), ReturnedBy(WORKER, now), c.maxAttempts);
  }
}
