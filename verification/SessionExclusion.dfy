/** Exclusion between sessions.  The store knows a lease holder by worker name
    (src/lowpower_llm_cluster/distributed_runtime.py:142-195), and one worker may run several sessions on a task,
    the older ones after their leases ran out.  These lemmas say whose message is accepted. */
module SessionExclusion {
  import opened Base
  import opened TaskStore
  import opened LeaseProtocol
  import opened WorkerSystem
  import opened RetryBound

  /** Acknowledgements go to the worker. */
  predicate IsRequest(m: Message)
  {
    !m.AckMsg? && !m.DoneMsg?
  }

  /** The delivery of a request. */
  function DeliveryOf(m: Message, now: Time): Action
    requires IsRequest(m)
  {
    match m
    case BatchMsg(sid, index) => DeliverBatch(sid, index, false, now)
    case HeartbeatMsg(sid) => DeliverHeartbeat(sid, false, now)
    case CompleteMsg(sid) => DeliverComplete(sid, false, now)
    case FailMsg(sid, requeue) => DeliverFail(sid, requeue, "", false, now)
  }

  /** Delivered now, the request would be accepted. */
  ghost predicate WouldBeAccepted(c: Config, s: System, m: Message, now: Time)
    requires IsRequest(m)
  {
    var call := CallOf(c, s, DeliveryOf(m, now));
    call.Some? && m.sid < |s.sessions| && Events(s.store, call.value, s.sessions[m.sid].id) != []
  }

  /** By name and time alone: a request is accepted exactly when its session's worker holds the lease of the
      session's task and the lease has not run out. */
  lemma {:induction false} AcceptedByName(c: Config, s: System, m: Message, now: Time, log: seq<Event>)
    requires Inv(c, s) && m in s.net && IsRequest(m) && TaskMatches(s.store, s.sessions[m.sid].id, log)
    ensures var hold := HoldOf(log);
      WouldBeAccepted(c, s, m, now) <==> hold.Held? && hold.worker == s.sessions[m.sid].worker && now < hold.expires
  {
    var x := s.sessions[m.sid];
    assert MessageFits(c, s, m) && SessionFits(c, s.store, x);
    var call := CallOf(c, s, DeliveryOf(m, now));
    assert call.Some?;
    HeardExactly(s.store, call.value, x.id, x.worker, log);
  }

  /** A holder's call about its task is accepted exactly under its own unexpired lease. */
  lemma {:induction false} HeardExactly(st: Store, op: Op, id: TaskId, worker: string, log: seq<Event>)
    requires op.HeartbeatOp? || op.BatchOp? || op.CompleteOp? || op.FailOp?
    requires op.id == id && op.worker == worker && id in st.tasks && RowMatches(st.tasks[id], log)
    ensures Events(st, op, id) != [] <==>
      HoldOf(log).Held? && HoldOf(log).worker == worker && op.now < HoldOf(log).expires
  {
  }

  /** The session was started by the grant that is the latest in the log. */
  ghost predicate OfLatestGrant(x: Session, log: seq<Event>)
  {
    x.attempt == Grants(log)
  }

  /** The request comes from a session of the task under this worker name. */
  ghost predicate FromNamesake(s: System, m: Message, id: TaskId, worker: string)
  {
    IsRequest(m) && m.sid < |s.sessions| && s.sessions[m.sid].id == id && s.sessions[m.sid].worker == worker
  }

  /** Only the session of the latest grant could be heard. */
  ghost predicate OnlyLatestIsHeard(c: Config, s: System, id: TaskId, log: seq<Event>, now: Time)
  {
    forall m | m in s.net && IsRequest(m) && m.sid < |s.sessions| && s.sessions[m.sid].id == id ::
      WouldBeAccepted(c, s, m, now) ==> OfLatestGrant(s.sessions[m.sid], log)
  }

  /** Exclusion between sessions, in every run while a task is leased: at most one session stems from the latest
      grant, and it is the only one that can be heard exactly when no older session under the holder's name
      has a request for the task under way. */
  lemma {:induction false} SessionsExcludeExactly(c: Config, actions: seq<Action>, id: TaskId, now: Time)
    requires var hold := HoldOf(TaskLog(c, actions, id)); hold.Held? && now < hold.expires
    ensures var s, log := Exec(c, actions), TaskLog(c, actions, id);
      && (forall p, q | 0 <= p < q < |s.sessions| && s.sessions[p].id == s.sessions[q].id == id ::
            !(OfLatestGrant(s.sessions[p], log) && OfLatestGrant(s.sessions[q], log)))
      && (OnlyLatestIsHeard(c, s, id, log, now) <==>
          forall m | m in s.net && FromNamesake(s, m, id, HoldOf(log).worker) :: OfLatestGrant(s.sessions[m.sid], log))
  {
    var s, log := Exec(c, actions), TaskLog(c, actions, id);
    InvAlways(c, actions);
    RowAndLog(c, actions, id);
    LedgerAlways(c, actions, id);
    forall m | m in s.net && IsRequest(m) && m.sid < |s.sessions| && s.sessions[m.sid].id == id
      ensures WouldBeAccepted(c, s, m, now) <==> FromNamesake(s, m, id, HoldOf(log).worker)
    {
      AcceptedByName(c, s, m, now, log);
    }
  }
}
