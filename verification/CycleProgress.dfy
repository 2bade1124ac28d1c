/** Progress: what keeps a cycle from being done, in every run, and that no run is ever beyond finishing
    (src/lowpower_llm_cluster/distributed_runtime.py:110-137, :182-195, :358-412). */
module CycleProgress {
  import opened Base
  import opened TaskStore
  import opened LeaseProtocol
  import opened WorkerSystem
  import opened DeliveryOrder
  import opened RetryBound
  import opened RetryExtremes

  // ---------------------------------------------------------------- who looks after a leased task

  predicate IsLeased(st: Store, id: TaskId)
  {
    id in st.tasks && st.tasks[id].state.Leased?
  }

  /** The session of the task's latest grant. */
  ghost predicate IsHolder(s: System, id: TaskId, p: nat)
  {
    id in s.store.tasks && p < |s.sessions| && s.sessions[p].id == id &&
      s.sessions[p].attempt == s.store.tasks[id].attempts
  }

  /** The session works, or its failure report is under way. */
  ghost predicate Active(s: System, p: nat)
  {
    p < |s.sessions| && (s.sessions[p].open || exists requeue :: FailMsg(p, requeue) in s.net)
  }

  ghost predicate LookedAfter(s: System, id: TaskId)
  {
    exists p: nat :: IsHolder(s, id, p) && Active(s, p)
  }

  /** The report of the holder arrives for the last time and is turned down: the lease ran out before it came. */
  ghost predicate ReportsInVain(c: Config, s: System, a: Action, id: TaskId)
  {
    && a.DeliverFail? && !a.again && CallOf(c, s, a).Some? && IsHolder(s, id, a.sid)
    && !Fail(s.store, id, s.sessions[a.sid].worker, a.error, a.requeue, a.now).1
  }

  ghost predicate HolderCrashes(s: System, a: Action, id: TaskId)
  {
    a.Crash? && Open(s, a.sid) && IsHolder(s, id, a.sid)
  }

  ghost predicate GrantedBy(c: Config, s: System, a: Action, id: TaskId)
  {
    a.Grab? && var outcome := Lease(s.store, a.worker, c.leaseS, a.now).1; outcome.Granted? && outcome.grant.id == id
  }

  /** Nobody works on the task's latest grant any more: the reply was lost, or the worker crashed or its failure report
      came too late while the task was leased. */
  ghost predicate LetDown(c: Config, actions: seq<Action>, id: TaskId)
  {
    actions != [] &&
    var before, a := actions[..|actions| - 1], actions[|actions| - 1];
    LetDownBy(c, Exec(c, before), a, id, LetDown(c, before, id))
  }

  ghost predicate LetDownBy(c: Config, s: System, a: Action, id: TaskId, before: bool)
  {
    if GrantedBy(c, s, a, id) then a.lost
    else before || (IsLeased(s.store, id) && (HolderCrashes(s, a, id) || ReportsInVain(c, s, a, id)))
  }

  // ---------------------------------------------------------------- one step

  /** What a step that does not grant the task leaves of its lease. */
  lemma StaysLeased(c: Config, s: System, a: Action, id: TaskId)
    requires !GrantedBy(c, s, a, id) && IsLeased(Step(c, s, a).store, id)
    ensures IsLeased(s.store, id) && Step(c, s, a).store.tasks[id].attempts == s.store.tasks[id].attempts
    ensures Step(c, s, a).store.tasks[id].owner == s.store.tasks[id].owner
  {
    var call := CallOf(c, s, a);
    if call.Some? {
      TasksPersist(c.uuid5, s.store, call.value, id);
      if a.Grab? && c.leaseS > 0.0 {
        LeaseUnfolds(s.store, a.worker, c.leaseS, a.now, id);
      } else if a.SubmitCycle? {
        InsertTasksKeeps(c.uuid5, s.store.tasks, a.cycle, a.sources, a.now);
      }
    }
  }

  lemma GrantStep(c: Config, s: System, a: Action, id: TaskId, grants: nat)
    requires GrantedBy(c, s, a, id) && AttemptsCounted(s, id, grants) && id in s.store.tasks &&
      s.store.tasks[id].attempts == grants
    ensures IsLeased(Step(c, s, a).store, id) && (LookedAfter(Step(c, s, a), id) <==> !a.lost)
  {
    var t := Step(c, s, a);
    LeaseUnfolds(s.store, a.worker, c.leaseS, a.now, id);
    GrantQuotesTask(s.store, a.worker, c.leaseS, a.now);
    assert t.store.tasks[id].attempts == grants + 1;
    if !a.lost {
      assert IsHolder(t, id, |s.sessions|) && Active(t, |s.sessions|);
    }
  }

  lemma HolderIsUnique(s: System, id: TaskId, p: nat, q: nat)
    requires AttemptsDiffer(s, id) && IsHolder(s, id, p) && IsHolder(s, id, q)
    ensures p == q
  {
  }

  /** The holder of a lease that outlasts the step stays the holder; it stops being active only by a crash or a
      report in vain. */
  lemma HolderStep(c: Config, s: System, a: Action, id: TaskId, p: nat)
    requires Inv(c, s) && ReportsFit(c, s)
    requires !GrantedBy(c, s, a, id) && IsLeased(Step(c, s, a).store, id) && p < |s.sessions|
    ensures IsHolder(Step(c, s, a), id, p) <==> IsHolder(s, id, p)
    ensures IsHolder(s, id, p) ==>
      (Active(Step(c, s, a), p) <==>
       Active(s, p) && !(a.Crash? && a.sid == p && s.sessions[p].open) && !(ReportsInVain(c, s, a, id) && a.sid == p))
  {
    SessionsStay(c, s, a, p);
    StaysLeased(c, s, a, id);
    if IsHolder(s, id, p) {
      ActiveStep(c, s, a, id, p);
    }
  }

  lemma ActiveStep(c: Config, s: System, a: Action, id: TaskId, p: nat)
    requires Inv(c, s) && ReportsFit(c, s) && IsLeased(Step(c, s, a).store, id) && IsHolder(s, id, p)
    ensures Active(Step(c, s, a), p) <==>
      Active(s, p) && !(a.Crash? && a.sid == p && s.sessions[p].open) && !(ReportsInVain(c, s, a, id) && a.sid == p)
  {
    var t := Step(c, s, a);
    SessionsStay(c, s, a, p);
    if a.GiveUp? && a.sid == p && s.sessions[p].open {
      assert FailMsg(p, s.sessions[p].attempt < c.maxAttempts) in t.net;
    } else if a.DeliverFail? && a.sid == p {
      DeliveredReport(c, s, a, id, p);
    } else if a.ReceiveDone? && a.sid == p && DoneMsg(p) in s.net {
      assert MessageFits(c, s, DoneMsg(p));
      CompletedStays(c, s, a, id);
    } else {
      assert forall requeue :: FailMsg(p, requeue) in t.net <==> FailMsg(p, requeue) in s.net;
    }
  }

  /** The last copy of the holder's report, if the task is leased afterwards, was turned down. */
  lemma DeliveredReport(c: Config, s: System, a: Action, id: TaskId, p: nat)
    requires ReportsFit(c, s) && IsLeased(Step(c, s, a).store, id) && IsHolder(s, id, p) && a.DeliverFail? && a.sid == p
    ensures Active(Step(c, s, a), p) <==> Active(s, p) && !ReportsInVain(c, s, a, id)
  {
    var t := Step(c, s, a);
    if CallOf(c, s, a).Some? {
      assert !Fail(s.store, id, s.sessions[p].worker, a.error, a.requeue, a.now).1;
      if a.again {
        assert FailMsg(p, a.requeue) in t.net;
      } else {
        assert forall requeue :: FailMsg(p, requeue) in s.net ==> requeue == a.requeue;
      }
    } else {
      assert a.again || t.net == s.net - {FailMsg(p, a.requeue)};
    }
  }

  /** No other step gives the task a new session. */
  lemma NoNewSession(c: Config, s: System, a: Action, id: TaskId, p: nat)
    requires !GrantedBy(c, s, a, id) && |s.sessions| <= p < |Step(c, s, a).sessions|
    ensures Step(c, s, a).sessions[p].id != id
  {
  }

  lemma LookedAfterStep(c: Config, s: System, a: Action, id: TaskId)
    requires Inv(c, s) && ReportsFit(c, s) && AttemptsDiffer(s, id)
    requires !GrantedBy(c, s, a, id) && IsLeased(Step(c, s, a).store, id)
    ensures LookedAfter(Step(c, s, a), id) <==>
      LookedAfter(s, id) && !HolderCrashes(s, a, id) && !ReportsInVain(c, s, a, id)
  {
    var t := Step(c, s, a);
    if p: nat :| IsHolder(t, id, p) && Active(t, p) {
      if p >= |s.sessions| {
        NoNewSession(c, s, a, id, p);
      }
      HolderStep(c, s, a, id, p);
      if (a.Crash? || a.DeliverFail?) && IsHolder(s, id, a.sid) {
        HolderIsUnique(s, id, p, a.sid);
      }
    }
    if p: nat :| IsHolder(s, id, p) && Active(s, p) {
      HolderStep(c, s, a, id, p);
      if (a.Crash? || a.DeliverFail?) && IsHolder(s, id, a.sid) {
        HolderIsUnique(s, id, p, a.sid);
      }
    }
  }

  lemma TendedStep(c: Config, s: System, a: Action, id: TaskId, log: seq<Event>, repeated: nat, before: bool)
    requires Inv(c, s) && Ledger(c, s, id, log, repeated) && TaskMatches(s.store, id, log)
    requires IsLeased(s.store, id) ==> (LookedAfter(s, id) <==> !before)
    ensures IsLeased(Step(c, s, a).store, id) ==> (LookedAfter(Step(c, s, a), id) <==> !LetDownBy(c, s, a, id, before))
  {
    if GrantedBy(c, s, a, id) {
      GrantQuotesTask(s.store, a.worker, c.leaseS, a.now);
      GrantStep(c, s, a, id, Grants(log));
    } else if IsLeased(Step(c, s, a).store, id) {
      StaysLeased(c, s, a, id);
      LookedAfterStep(c, s, a, id);
    }
  }

  // ---------------------------------------------------------------- whole runs

  /** In every run: a leased task has its session at work, or that session's failure report under way, if and only if it
      was not let down since it was last granted. */
  lemma {:induction false} LookedAfterUnlessLetDown(c: Config, actions: seq<Action>, id: TaskId)
    requires IsLeased(Exec(c, actions).store, id)
    ensures LookedAfter(Exec(c, actions), id) <==> !LetDown(c, actions, id)
  {
    TendedAlways(c, actions, id);
  }

  lemma {:induction false} TendedAlways(c: Config, actions: seq<Action>, id: TaskId)
    ensures IsLeased(Exec(c, actions).store, id) ==> (LookedAfter(Exec(c, actions), id) <==> !LetDown(c, actions, id))
  {
    if actions != [] {
      var before, a := actions[..|actions| - 1], actions[|actions| - 1];
      TendedAlways(c, before, id);
      InvAlways(c, before);
      LedgerAlways(c, before, id);
      RowAndLog(c, before, id);
      TendedStep(c, Exec(c, before), a, id, TaskLog(c, before, id), RepeatedReports(c, before, id),
        LetDown(c, before, id));
    }
  }

  ghost predicate InCycle(st: Store, cycle: string, id: TaskId)
  {
    id in st.tasks && st.tasks[id].cycle == cycle
  }

  /** What can keep a cycle waiting for a task: it is queued, or leased and looked after, or leased and let down. */
  ghost predicate Awaited(c: Config, actions: seq<Action>, id: TaskId)
  {
    var s := Exec(c, actions);
    id in s.store.tasks &&
    (s.store.tasks[id].state.Queued? || (IsLeased(s.store, id) && (LookedAfter(s, id) || LetDown(c, actions, id))))
  }

  /** In every run, a cycle with tasks is done if and only if none of them is queued, being looked after, or let
      down. */
  lemma {:induction false} CycleDoneExactly(c: Config, actions: seq<Action>, cycle: string)
    requires exists id :: InCycle(Exec(c, actions).store, cycle, id)
    ensures Status(Exec(c, actions).store, cycle).done <==>
      forall id :: InCycle(Exec(c, actions).store, cycle, id) ==> !Awaited(c, actions, id)
  {
    var st := Exec(c, actions).store;
    DoneMeansSettled(st, cycle);
    forall id | InCycle(st, cycle, id)
      ensures Awaited(c, actions, id) <==> !st.tasks[id].Terminal()
    {
      TendedAlways(c, actions, id);
    }
    if forall id :: InCycle(st, cycle, id) ==> !Awaited(c, actions, id) {
      assert forall id | id in st.tasks && st.tasks[id].cycle == cycle :: InCycle(st, cycle, id);
    } else {
      var id :| InCycle(st, cycle, id) && Awaited(c, actions, id);
      assert !st.tasks[id].Terminal();
    }
  }

  /** Nothing of the cycle is queued, no leased task of it was let down, and none of its tasks has an open session or a
      failure report under way. */
  ghost predicate Quiet(c: Config, actions: seq<Action>, cycle: string)
  {
    var s := Exec(c, actions);
    && (forall id | InCycle(s.store, cycle, id) ::
          !s.store.tasks[id].state.Queued? && (IsLeased(s.store, id) ==> !LetDown(c, actions, id)))
    && (forall p: nat | Active(s, p) :: !InCycle(s.store, cycle, s.sessions[p].id))
  }

  /** Progress: quiet means done, in every run. */
  lemma {:induction false} QuietCycleIsDone(c: Config, actions: seq<Action>, cycle: string)
    requires Quiet(c, actions, cycle) && exists id :: InCycle(Exec(c, actions).store, cycle, id)
    ensures Status(Exec(c, actions).store, cycle).done
  {
    CycleDoneExactly(c, actions, cycle);
  }

  // ---------------------------------------------------------------- reports in vain

  ghost predicate HolderOwns(s: System, id: TaskId)
  {
    IsLeased(s.store, id) ==>
      forall p: nat | IsHolder(s, id, p) :: s.store.tasks[id].owner == Some(s.sessions[p].worker)
  }

  lemma HolderOwnsStep(c: Config, s: System, a: Action, id: TaskId, grants: nat)
    requires Inv(c, s) && HolderOwns(s, id) && ReportsFit(c, s) && AttemptsCounted(s, id, grants)
    requires id in s.store.tasks ==> s.store.tasks[id].attempts == grants
    ensures HolderOwns(Step(c, s, a), id)
  {
    var t := Step(c, s, a);
    if GrantedBy(c, s, a, id) {
      GrantQuotesTask(s.store, a.worker, c.leaseS, a.now);
      LeaseUnfolds(s.store, a.worker, c.leaseS, a.now, id);
      forall p: nat | IsHolder(t, id, p)
        ensures t.store.tasks[id].owner == Some(t.sessions[p].worker)
      {
        assert p == |s.sessions|;
      }
    } else if IsLeased(t.store, id) {
      StaysLeased(c, s, a, id);
      forall p: nat | IsHolder(t, id, p)
        ensures t.store.tasks[id].owner == Some(t.sessions[p].worker)
      {
        if p >= |s.sessions| {
          NoNewSession(c, s, a, id, p);
        }
        HolderStep(c, s, a, id, p);
        SessionsStay(c, s, a, p);
      }
    }
  }

  lemma {:induction false} HolderOwnsAlways(c: Config, actions: seq<Action>, id: TaskId)
    ensures HolderOwns(Exec(c, actions), id)
  {
    if actions != [] {
      var before := actions[..|actions| - 1];
      HolderOwnsAlways(c, before, id);
      InvAlways(c, before);
      LedgerAlways(c, before, id);
      RowAndLog(c, before, id);
      HolderOwnsStep(c, Exec(c, before), actions[|actions| - 1], id, Grants(TaskLog(c, before, id)));
    }
  }

  /** In every run the holder's report is turned down only when it comes at or after the end of the lease. */
  lemma {:induction false} InVainMeansTooLate(c: Config, actions: seq<Action>, a: Action, id: TaskId)
    requires IsLeased(Exec(c, actions).store, id) && ReportsInVain(c, Exec(c, actions), a, id)
    ensures var task := Exec(c, actions).store.tasks[id];
      task.expires.Some? && task.expires.value <= a.now
  {
    HolderOwnsAlways(c, actions, id);
    RowAndLog(c, actions, id);
  }

  // ---------------------------------------------------------------- every run can still finish

  /** Nobody crashes and nothing is submitted; the coordinator's clock reads `now`. */
  predicate Orderly(a: Action, now: Time)
  {
    !a.SubmitCycle? && !a.Crash? && (NowOf(a).Some? ==> NowOf(a).value == now)
  }

  predicate GoesOn(actions: seq<Action>, longer: seq<Action>, now: Time)
  {
    actions <= longer && forall k | |actions| <= k < |longer| :: Orderly(longer[k], now)
  }

  lemma OneMore(c: Config, actions: seq<Action>, longer: seq<Action>, a: Action, now: Time)
    requires GoesOn(actions, longer, now) && Orderly(a, now)
    ensures Exec(c, longer + [a]) == Step(c, Exec(c, longer), a) && GoesOn(actions, longer + [a], now)
  {
    assert (longer + [a])[..|longer|] == longer;
  }

  /** The session works at its batch i, and its worker holds the lease. */
  ghost predicate Working(c: Config, s: System, p: nat, i: nat, now: Time)
  {
    && Open(s, p) && s.sessions[p].index == i && i <= |c.executor(s.sessions[p].payload)|
    && Holds(s.store.tasks, s.sessions[p].id, s.sessions[p].worker, now)
  }

  ghost predicate NoReports(s: System)
  {
    forall p, requeue :: FailMsg(p, requeue) !in s.net
  }

  /** No session was added, and no failure reported. */
  ghost predicate Undisturbed(s: System, t: System)
  {
    |t.sessions| == |s.sessions| && (NoReports(s) ==> NoReports(t))
  }

  /** Batch i is sent, stored and acknowledged. */
  lemma BatchGoesThrough(c: Config, s: System, p: nat, i: nat, now: Time)
    requires Working(c, s, p, i, now) && i < |c.executor(s.sessions[p].payload)|
    ensures var t := Step(c, Step(c, Step(c, s, SendBatch(p)), DeliverBatch(p, i, false, now)), ReceiveAck(p));
      && Working(c, t, p, i + 1, now) && t.store.tasks == s.store.tasks && Undisturbed(s, t)
      && t.sessions[p] == s.sessions[p].(index := i + 1)
  {
    var sent := Step(c, s, SendBatch(p));
    var stored := Step(c, sent, DeliverBatch(p, i, false, now));
    assert BatchMsg(p, i) in sent.net && sent.store == s.store && sent.sessions == s.sessions;
    assert AckMsg(p, i) in stored.net && stored.store.tasks == s.store.tasks && stored.sessions == s.sessions;
  }

  /** The completion is sent and accepted, and the session returns. */
  lemma CompletionGoesThrough(c: Config, s: System, p: nat, now: Time)
    requires Open(s, p) && Working(c, s, p, |c.executor(s.sessions[p].payload)|, now)
    ensures var t := Step(c, Step(c, Step(c, s, SendComplete(p)), DeliverComplete(p, false, now)), ReceiveDone(p));
      && t.store.tasks == s.store.tasks[s.sessions[p].id := CloseTask(s.store.tasks[s.sessions[p].id], now)]
      && Undisturbed(s, t) && t.sessions[p] == s.sessions[p].(open := false)
  {
    var sent := Step(c, s, SendComplete(p));
    var accepted := Step(c, sent, DeliverComplete(p, false, now));
    assert CompleteMsg(p) in sent.net && sent.store == s.store && sent.sessions == s.sessions;
    assert DoneMsg(p) in accepted.net && accepted.sessions == s.sessions;
  }

  lemma {:induction false} SendOne(c: Config, actions: seq<Action>, from: seq<Action>, p: nat, i: nat, now: Time)
    returns (longer: seq<Action>)
    requires GoesOn(actions, from, now) && Working(c, Exec(c, from), p, i, now)
    requires i < |c.executor(Exec(c, from).sessions[p].payload)|
    ensures GoesOn(actions, longer, now) && Working(c, Exec(c, longer), p, i + 1, now)
    ensures Exec(c, longer).store.tasks == Exec(c, from).store.tasks && Undisturbed(Exec(c, from), Exec(c, longer))
    ensures Exec(c, longer).sessions[p] == Exec(c, from).sessions[p].(index := i + 1)
  {
    BatchGoesThrough(c, Exec(c, from), p, i, now);
    OneMore(c, actions, from, SendBatch(p), now);
    OneMore(c, actions, from + [SendBatch(p)], DeliverBatch(p, i, false, now), now);
    OneMore(c, actions, from + [SendBatch(p)] + [DeliverBatch(p, i, false, now)], ReceiveAck(p), now);
    longer := from + [SendBatch(p)] + [DeliverBatch(p, i, false, now)] + [ReceiveAck(p)];
  }

  lemma {:induction false} SendRest(c: Config, actions: seq<Action>, from: seq<Action>, p: nat, i: nat, now: Time)
    returns (longer: seq<Action>)
    requires GoesOn(actions, from, now) && Working(c, Exec(c, from), p, i, now)
    ensures GoesOn(actions, longer, now)
    ensures Working(c, Exec(c, longer), p, |c.executor(Exec(c, from).sessions[p].payload)|, now)
    ensures Exec(c, longer).store.tasks == Exec(c, from).store.tasks && Undisturbed(Exec(c, from), Exec(c, longer))
    ensures var n := |c.executor(Exec(c, from).sessions[p].payload)|;
      Exec(c, longer).sessions[p] == Exec(c, from).sessions[p].(index := n)
    decreases |c.executor(Exec(c, from).sessions[p].payload)| - i
  {
    longer := from;
    if i < |c.executor(Exec(c, from).sessions[p].payload)| {
      longer := SendOne(c, actions, from, p, i, now);
      longer := SendRest(c, actions, longer, p, i + 1, now);
    }
  }

  lemma {:induction false} WorkToTheEnd(c: Config, actions: seq<Action>, from: seq<Action>, p: nat, now: Time)
    returns (longer: seq<Action>)
    requires GoesOn(actions, from, now) && Working(c, Exec(c, from), p, 0, now)
    ensures GoesOn(actions, longer, now)
    ensures var tasks, id := Exec(c, from).store.tasks, Exec(c, from).sessions[p].id;
      Exec(c, longer).store.tasks == tasks[id := CloseTask(tasks[id], now)]
    ensures Undisturbed(Exec(c, from), Exec(c, longer)) && !Exec(c, longer).sessions[p].open
    ensures Exec(c, longer).sessions[p].id == Exec(c, from).sessions[p].id
  {
    longer := SendRest(c, actions, from, p, 0, now);
    CompletionGoesThrough(c, Exec(c, longer), p, now);
    OneMore(c, actions, longer, SendComplete(p), now);
    OneMore(c, actions, longer + [SendComplete(p)], DeliverComplete(p, false, now), now);
    OneMore(c, actions, longer + [SendComplete(p)] + [DeliverComplete(p, false, now)], ReceiveDone(p), now);
    longer := longer + [SendComplete(p)] + [DeliverComplete(p, false, now)] + [ReceiveDone(p)];
  }

  function Unfinished(tasks: map<TaskId, Task>): set<TaskId>
  {
    set id | id in tasks && !tasks[id].Terminal()
  }

  /** Every lease has run out. */
  predicate AllExpired(tasks: map<TaskId, Task>, now: Time)
  {
    forall id | id in tasks && tasks[id].state.Leased? :: Expired(tasks[id], now)
  }

  lemma NextAmongUnfinished(tasks: map<TaskId, Task>, now: Time)
    requires AllExpired(tasks, now) && Unfinished(tasks) != {}
    ensures var next := Next(Reclaim(tasks, now)); next.Some? && next.value in Unfinished(tasks)
  {
    var reclaimed := Reclaim(tasks, now);
    var id :| id in Unfinished(tasks);
    assert reclaimed[id].state.Queued?;
    NextExists(reclaimed);
  }

  /** The worker is granted one of the unfinished tasks; all others are out of lease. */
  lemma GrabUnfinished(c: Config, s: System, worker: string, now: Time)
    requires c.leaseS > 0.0 && AllExpired(s.store.tasks, now) && Unfinished(s.store.tasks) != {}
    ensures var t := Step(c, s, Grab(worker, false, now));
      && |t.sessions| == |s.sessions| + 1 && Working(c, t, |s.sessions|, 0, now)
      && t.sessions[|s.sessions|].id in Unfinished(s.store.tasks)
      && Unfinished(t.store.tasks) == Unfinished(s.store.tasks) && t.store.tasks.Keys == s.store.tasks.Keys
      && forall id | id in t.store.tasks && t.store.tasks[id].state.Leased? :: id == t.sessions[|s.sessions|].id
  {
    NextAmongUnfinished(s.store.tasks, now);
  }

  /** One more task is completed. */
  lemma {:induction false} FinishOneTask(c: Config, actions: seq<Action>, from: seq<Action>, worker: string, now: Time)
    returns (longer: seq<Action>)
    requires c.leaseS > 0.0 && GoesOn(actions, from, now) && AllExpired(Exec(c, from).store.tasks, now)
    requires Unfinished(Exec(c, from).store.tasks) != {}
    ensures GoesOn(actions, longer, now) && AllExpired(Exec(c, longer).store.tasks, now)
    ensures Unfinished(Exec(c, longer).store.tasks) < Unfinished(Exec(c, from).store.tasks)
    ensures Exec(c, longer).store.tasks.Keys == Exec(c, from).store.tasks.Keys
  {
    var s, a := Exec(c, from), Grab(worker, false, now);
    GrabUnfinished(c, s, worker, now);
    OneMore(c, actions, from, a, now);
    longer := WorkToTheEnd(c, actions, from + [a], |s.sessions|, now);
    var id := Step(c, s, a).sessions[|s.sessions|].id;
    assert id !in Unfinished(Exec(c, longer).store.tasks);
  }

  lemma {:induction false} FinishAll(c: Config, actions: seq<Action>, from: seq<Action>, worker: string, now: Time)
    returns (longer: seq<Action>)
    requires c.leaseS > 0.0 && GoesOn(actions, from, now) && AllExpired(Exec(c, from).store.tasks, now)
    ensures GoesOn(actions, longer, now) && Unfinished(Exec(c, longer).store.tasks) == {}
    ensures Exec(c, longer).store.tasks.Keys == Exec(c, from).store.tasks.Keys
    decreases |Unfinished(Exec(c, from).store.tasks)|
  {
    longer := from;
    if Unfinished(Exec(c, from).store.tasks) != {} {
      longer := FinishOneTask(c, actions, from, worker, now);
      Fewer(Unfinished(Exec(c, longer).store.tasks), Unfinished(Exec(c, from).store.tasks));
      longer := FinishAll(c, actions, longer, worker, now);
    }
  }

  lemma Fewer(small: set<TaskId>, large: set<TaskId>)
    requires small < large
    ensures |small| < |large|
  {
    assert large == small + (large - small);
  }

  // ---------------------------------------------------------------- a time after every lease

  lemma {:induction false} AfterAll(tasks: map<TaskId, Task>, ids: set<TaskId>, from: Time) returns (now: Time)
    requires ids <= tasks.Keys
    ensures now >= from && forall id | id in ids && tasks[id].expires.Some? :: tasks[id].expires.value < now
  {
    now := from;
    if ids != {} {
      var id :| id in ids;
      now := AfterAll(tasks, ids - {id}, from);
      if tasks[id].expires.Some? && tasks[id].expires.value >= now {
        now := tasks[id].expires.value + 1.0;
      }
    }
  }

  lemma {:induction false} GoesOnInTime(actions: seq<Action>, longer: seq<Action>, now: Time)
    requires GoesOn(actions, longer, now) && ClockNondecreasing(actions)
    requires Clock(actions).Some? ==> Clock(actions).value <= now
    ensures ClockNondecreasing(longer) && (Clock(longer).Some? ==> Clock(longer).value <= now)
  {
    if |longer| > |actions| {
      assert actions <= longer[..|longer| - 1];
      GoesOnInTime(actions, longer[..|longer| - 1], now);
      assert Orderly(longer[|longer| - 1], now);
    } else {
      assert longer == actions;
    }
  }

  /** No run is stuck: whatever was lost, crashed or came too late, it can go on, with the clock running forward and
      any one worker, until every task is completed or failed; then every cycle with tasks is done. */
  lemma {:induction false} EveryRunCanFinish(c: Config, actions: seq<Action>, worker: string)
    returns (longer: seq<Action>, now: Time)
    requires c.leaseS > 0.0
    ensures GoesOn(actions, longer, now) && (ClockNondecreasing(actions) ==> ClockNondecreasing(longer))
    ensures Exec(c, longer).store.tasks.Keys == Exec(c, actions).store.tasks.Keys
    ensures forall cycle, id | InCycle(Exec(c, actions).store, cycle, id) :: Status(Exec(c, longer).store, cycle).done
  {
    var tasks, clock := Exec(c, actions).store.tasks, Clock(actions);
    now := AfterAll(tasks, tasks.Keys, if clock.Some? then clock.value else 0.0);
    forall id | id in tasks && tasks[id].state.Leased?
      ensures Expired(tasks[id], now)
    {
      RowAndLog(c, actions, id);
    }
    longer := FinishAll(c, actions, actions, worker, now);
    if ClockNondecreasing(actions) {
      GoesOnInTime(actions, longer, now);
    }
    forall cycle, id | InCycle(Exec(c, actions).store, cycle, id)
      ensures Status(Exec(c, longer).store, cycle).done
    {
      CycleIsSettled(c, actions, longer, now, cycle, id);
    }
  }

  lemma {:induction false} CycleIsSettled(c: Config, actions: seq<Action>, longer: seq<Action>, now: Time,
        cycle: string, id: TaskId)
    requires GoesOn(actions, longer, now) && Unfinished(Exec(c, longer).store.tasks) == {}
    requires InCycle(Exec(c, actions).store, cycle, id)
    ensures Status(Exec(c, longer).store, cycle).done
  {
    TaskStays(c, actions, longer, now, id);
    DoneMeansSettled(Exec(c, longer).store, cycle);
    assert forall other | other in Exec(c, longer).store.tasks :: other !in Unfinished(Exec(c, longer).store.tasks);
  }

  lemma {:induction false} TaskStays(c: Config, actions: seq<Action>, longer: seq<Action>, now: Time, id: TaskId)
    requires GoesOn(actions, longer, now) && id in Exec(c, actions).store.tasks
    ensures id in Exec(c, longer).store.tasks
    ensures SameIdentity(Exec(c, longer).store.tasks[id], Exec(c, actions).store.tasks[id])
  {
    if |longer| > |actions| {
      var before := longer[..|longer| - 1];
      assert actions <= before && forall k | |actions| <= k < |before| :: before[k] == longer[k];
      TaskStays(c, actions, before, now, id);
      IdentityStep(c, Exec(c, before), longer[|longer| - 1], id);
    } else {
      assert longer == actions;
    }
  }

  // ---------------------------------------------------------------- a quiet cycle

  /** After the first grant there is one session, and nothing was sent. */
  lemma {:induction false} FirstGrant(c: Config) returns (actions: seq<Action>)
    requires c.leaseS > 0.0
    ensures var s := Exec(c, actions);
      && s.store.tasks.Keys == {OnlyTask(c)} && s.store.tasks[OnlyTask(c)].cycle == "c"
      && |s.sessions| == 1 && s.sessions[0].id == OnlyTask(c) && NoReports(s) && Working(c, s, 0, 0, 0.0)
  {
    var grab := Grab(WORKER, false, 0.0);
    SubmitOne(c);
    NothingCounted(c);
    var s := Exec(c, Beginning());
    LeaseOnlyTask(c, s.store, 0.0);
    OneMoreAction(c, Beginning(), grab);
    actions := Beginning() + [grab];
    assert s.store.tasks[OnlyTask(c)].cycle == "c";
    assert Exec(c, actions) == Step(c, s, grab);
  }

  /** A cycle that ends well is quiet: one worker takes the task, sends what the executor yields, whatever that is,
      completes it and returns. */
  lemma {:induction false} CompletedCycleIsQuiet(c: Config) returns (actions: seq<Action>)
    requires c.leaseS > 0.0
    ensures Quiet(c, actions, "c") && InCycle(Exec(c, actions).store, "c", OnlyTask(c))
    ensures IsCompleted(Exec(c, actions).store, OnlyTask(c))
  {
    var before := FirstGrant(c);
    actions := WorkToTheEnd(c, before, before, 0, 0.0);
    var s := Exec(c, actions);
    forall p: nat
      ensures !Active(s, p)
    {
    }
  }
}
