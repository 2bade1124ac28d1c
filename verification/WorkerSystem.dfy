/** The whole system: the coordinator store, any number of workers running
    `DistributedWorker.run_one`, and the network between them
    (src/lowpower_llm_cluster/distributed_runtime.py:358-412).

    A session is one run of `run_one` after its lease call returned.  Requests and replies travel as
    messages, so every interleaving is covered: a message may be lost, delayed past the end of its
    session, reordered or delivered again; workers may crash, restart under the same name, lose the
    reply to a lease, or go on after their lease ran out. */
module WorkerSystem {
  import opened Base
  import opened BatchNames
  import opened TaskStore
  import opened LeaseProtocol

  /** `executor` maps a task's payload to the batches it yields, the same on every attempt. */
  datatype Config = Config(uuid5: string -> string, executor: string -> seq<string>, leaseS: Time, maxAttempts: int)

  datatype Session = Session(worker: string, id: TaskId, key: string, payload: string, attempt: nat, index: nat,
    open: bool)

  datatype Message =
    | BatchMsg(sid: nat, index: nat)
    | AckMsg(sid: nat, index: nat)
    | HeartbeatMsg(sid: nat)
    | CompleteMsg(sid: nat)
    | DoneMsg(sid: nat)
    | FailMsg(sid: nat, requeue: bool)

  datatype System = System(store: Store, sessions: seq<Session>, net: set<Message>)

  const START := System(EMPTY_STORE, [], {})

  /** One atomic step; `again` leaves the delivered message in the network. */
  datatype Action =
    | SubmitCycle(cycle: string, sources: seq<Source>, now: Time)
    | Grab(worker: string, lost: bool, now: Time)
    | SendBatch(sid: nat)
    | DeliverBatch(sid: nat, index: nat, again: bool, now: Time)
    | ReceiveAck(sid: nat)
    | SendComplete(sid: nat)
    | DeliverComplete(sid: nat, again: bool, now: Time)
    | ReceiveDone(sid: nat)
    | SendHeartbeat(sid: nat)
    | DeliverHeartbeat(sid: nat, again: bool, now: Time)
    | GiveUp(sid: nat)
    | DeliverFail(sid: nat, requeue: bool, error: string, again: bool, now: Time)
    | Crash(sid: nat)

  ghost predicate Open(s: System, sid: nat)
  {
    sid < |s.sessions| && s.sessions[sid].open
  }

  /** The store call an action makes, if it makes one. */
  ghost function CallOf(c: Config, s: System, a: Action): Option<Op>
  {
    match a
    case SubmitCycle(cycle, sources, now) => Some(SubmitOp(cycle, sources, now))
    case Grab(worker, _, now) => Some(LeaseOp(worker, c.leaseS, now))
    case DeliverBatch(sid, index, _, now) =>
      if BatchMsg(sid, index) in s.net && sid < |s.sessions| && index < |c.executor(s.sessions[sid].payload)| then
        var x := s.sessions[sid];
        Some(BatchOp(x.id, x.worker, BatchId(x.key, index), c.executor(x.payload)[index], now))
      else None
    case DeliverComplete(sid, _, now) =>
      if CompleteMsg(sid) in s.net && sid < |s.sessions| then
        Some(CompleteOp(s.sessions[sid].id, s.sessions[sid].worker, now)) else None
    case DeliverHeartbeat(sid, _, now) =>
      if HeartbeatMsg(sid) in s.net && sid < |s.sessions| then
        Some(HeartbeatOp(s.sessions[sid].id, s.sessions[sid].worker, c.leaseS, now)) else None
    case DeliverFail(sid, requeue, error, _, now) =>
      if FailMsg(sid, requeue) in s.net && sid < |s.sessions| then
        Some(FailOp(s.sessions[sid].id, s.sessions[sid].worker, error, requeue, now)) else None
    case _ => None
  }

  ghost function SessionsAfter(c: Config, s: System, a: Action): seq<Session>
  {
    match a
    case Grab(worker, lost, now) =>
      var outcome := Lease(s.store, worker, c.leaseS, now).1;
      if outcome.Granted? && !lost then
        var g := outcome.grant;
        s.sessions + [Session(worker, g.id, g.key, g.payload, g.attempt, 0, true)]
      else s.sessions
    case ReceiveAck(sid) =>
      if Open(s, sid) && AckMsg(sid, s.sessions[sid].index) in s.net then
        s.sessions[sid := s.sessions[sid].(index := s.sessions[sid].index + 1)]
      else s.sessions
    // `run_one` returns once its completion was accepted (distributed_runtime.py:402-403).
    case ReceiveDone(sid) =>
      if Open(s, sid) && DoneMsg(sid) in s.net then s.sessions[sid := s.sessions[sid].(open := false)] else s.sessions
    case GiveUp(sid) => if Open(s, sid) then s.sessions[sid := s.sessions[sid].(open := false)] else s.sessions
    case Crash(sid) => if Open(s, sid) then s.sessions[sid := s.sessions[sid].(open := false)] else s.sessions
    case _ => s.sessions
  }

  ghost function NetAfter(c: Config, s: System, a: Action): set<Message>
  {
    match a
    case SendBatch(sid) =>
      if Open(s, sid) && s.sessions[sid].index < |c.executor(s.sessions[sid].payload)| then
        s.net + {BatchMsg(sid, s.sessions[sid].index)} else s.net
    case DeliverBatch(sid, index, again, now) =>
      var call := CallOf(c, s, a);
      if call.None? then s.net else
        var b := call.value;
        var stored := AddBatch(s.store, b.id, b.worker, b.batchId, b.payload, now).1 != Denied;
        (if again then s.net else s.net - {BatchMsg(sid, index)}) + (if stored then {AckMsg(sid, index)} else {})
    case SendComplete(sid) =>
      if Open(s, sid) && s.sessions[sid].index == |c.executor(s.sessions[sid].payload)| then s.net + {CompleteMsg(sid)}
        else s.net
    case DeliverComplete(sid, again, now) =>
      var call := CallOf(c, s, a);
      if call.None? then s.net else
        var completed := Complete(s.store, call.value.id, call.value.worker, now).1;
        (if again then s.net else s.net - {CompleteMsg(sid)}) + (if completed then {DoneMsg(sid)} else {})
    // The heartbeat task goes on while a failure is being reported, until `stop` is set
    // (distributed_runtime.py:370-386, :404-412), so a session that gave up may still send one.
    case SendHeartbeat(sid) => if sid < |s.sessions| then s.net + {HeartbeatMsg(sid)} else s.net
    case DeliverHeartbeat(sid, again, _) => if again then s.net else s.net - {HeartbeatMsg(sid)}
    case GiveUp(sid) => if Open(s, sid) then s.net + {FailMsg(sid, s.sessions[sid].attempt < c.maxAttempts)} else s.net
    case DeliverFail(sid, requeue, _, again, _) => if again then s.net else s.net - {FailMsg(sid, requeue)}
    case _ => s.net
  }

  ghost function Step(c: Config, s: System, a: Action): System
  {
    var call := CallOf(c, s, a);
    var store := if call.Some? then Apply(c.uuid5, s.store, call.value) else s.store;
    System(store, SessionsAfter(c, s, a), NetAfter(c, s, a))
  }

  ghost function Exec(c: Config, actions: seq<Action>): System
  {
    if actions == [] then START else Step(c, Exec(c, actions[..|actions| - 1]), actions[|actions| - 1])
  }

  /** The calls the store saw in a run. */
  ghost function Calls(c: Config, actions: seq<Action>): seq<Op>
  {
    if actions == [] then [] else
      var before := actions[..|actions| - 1];
      var call := CallOf(c, Exec(c, before), actions[|actions| - 1]);
      Calls(c, before) + if call.Some? then [call.value] else []
  }

  lemma RunSnoc(uuid5: string -> string, s: Store, ops: seq<Op>, op: Op)
    ensures Run(uuid5, s, ops + [op]) == Apply(uuid5, Run(uuid5, s, ops), op)
  {
    assert (ops + [op])[..|ops|] == ops;
  }

  /** Every run of the system is, for the store, a run of `LeaseProtocol`. */
  lemma {:induction false} StoreSeesCalls(c: Config, actions: seq<Action>)
    ensures Exec(c, actions).store == Run(c.uuid5, EMPTY_STORE, Calls(c, actions))
  {
    if actions != [] {
      var before := actions[..|actions| - 1];
      StoreSeesCalls(c, before);
      var call := CallOf(c, Exec(c, before), actions[|actions| - 1]);
      if call.Some? {
        RunSnoc(c.uuid5, EMPTY_STORE, Calls(c, before), call.value);
      } else {
        assert Calls(c, before) + [] == Calls(c, before);
      }
    }
  }

  // ---------------------------------------------------------------- exactly once

  ghost function Yielded(c: Config, st: Store, id: TaskId): seq<string>
    requires id in st.tasks
  {
    c.executor(st.tasks[id].payload)
  }

  /** The first n batches of a task are stored, each under its own name with its own content. */
  ghost predicate HasFirst(c: Config, st: Store, id: TaskId, n: nat)
  {
    && id in st.tasks && n <= |Yielded(c, st, id)|
    && forall i | 0 <= i < n ::
         var key := (id, BatchId(st.tasks[id].key, i));
         key in st.batches && st.batches[key].payload == Yielded(c, st, id)[i]
  }

  ghost predicate BatchBelongs(c: Config, st: Store, key: BatchKey, i: nat)
  {
    HasFirst(c, st, key.0, i + 1) && key.1 == BatchId(st.tasks[key.0].key, i)
  }

  ghost predicate SessionFits(c: Config, st: Store, x: Session)
  {
    HasFirst(c, st, x.id, x.index) && x.key == st.tasks[x.id].key && x.payload == st.tasks[x.id].payload
  }

  predicate IsCompleted(st: Store, id: TaskId)
  {
    id in st.tasks && st.tasks[id].state.Completed?
  }

  ghost predicate MessageFits(c: Config, s: System, m: Message)
  {
    && m.sid < |s.sessions|
    && var x := s.sessions[m.sid];
       match m
       case BatchMsg(_, i) => i < |c.executor(x.payload)| && HasFirst(c, s.store, x.id, i)
       case AckMsg(_, i) => HasFirst(c, s.store, x.id, i + 1)
       case CompleteMsg(_) => HasFirst(c, s.store, x.id, |c.executor(x.payload)|)
       case DoneMsg(_) => IsCompleted(s.store, x.id)
       case _ => true
  }

  /** What every step keeps.  A session at index i has its first i batches stored, whoever holds the
      lease by now; so has every message it ever sent.  A session told that it is done has a completed task. */
  ghost predicate Inv(c: Config, s: System)
  {
    && (forall sid | 0 <= sid < |s.sessions| :: SessionFits(c, s.store, s.sessions[sid]))
    && (forall m | m in s.net :: MessageFits(c, s, m))
    && (forall key | key in s.store.batches :: exists i: nat :: BatchBelongs(c, s.store, key, i))
    && (forall id | id in s.store.tasks && s.store.tasks[id].state.Completed? ::
         HasFirst(c, s.store, id, |Yielded(c, s.store, id)|))
  }

  /** Stored batches stay stored. */
  lemma BatchesPersist(uuid5: string -> string, st: Store, op: Op, key: BatchKey)
    requires key in st.batches
    ensures key in Apply(uuid5, st, op).batches && Apply(uuid5, st, op).batches[key] == st.batches[key]
  {
  }

  lemma HasFirstPersists(c: Config, st: Store, op: Op, id: TaskId, n: nat)
    requires HasFirst(c, st, id, n)
    ensures HasFirst(c, Apply(c.uuid5, st, op), id, n)
  {
    TasksPersist(c.uuid5, st, op, id);
    forall i | 0 <= i < n
      ensures var key := (id, BatchId(st.tasks[id].key, i));
        key in Apply(c.uuid5, st, op).batches && Apply(c.uuid5, st, op).batches[key] == st.batches[key]
    {
      BatchesPersist(c.uuid5, st, op, (id, BatchId(st.tasks[id].key, i)));
    }
  }

  /** Accepting batch i of a task whose first i batches are stored leaves its first i + 1 stored, also
      when the batch was there already: names determine indices. */
  lemma AcceptedBatchIsStored(c: Config, st: Store, id: TaskId, worker: string, i: nat, now: Time)
    requires HasFirst(c, st, id, i) && i < |Yielded(c, st, id)|
    requires forall key | key in st.batches :: exists j: nat :: BatchBelongs(c, st, key, j)
    requires AddBatch(st, id, worker, BatchId(st.tasks[id].key, i), Yielded(c, st, id)[i], now).1 != Denied
    ensures HasFirst(c, AddBatch(st, id, worker, BatchId(st.tasks[id].key, i), Yielded(c, st, id)[i], now).0, id, i + 1)
  {
    var key := (id, BatchId(st.tasks[id].key, i));
    var after := AddBatch(st, id, worker, key.1, Yielded(c, st, id)[i], now).0;
    if key in st.batches {
      var j: nat :| BatchBelongs(c, st, key, j);
      BatchIdInjective(st.tasks[id].key, i, j);
    } else {
      forall j | 0 <= j < i + 1
        ensures var k := (id, BatchId(st.tasks[id].key, j));
          k in after.batches && after.batches[k].payload == Yielded(c, st, id)[j]
      {
      }
    }
  }

  // ---------------------------------------------------------------- every step keeps the invariant

  lemma HasFirstStep(c: Config, s: System, a: Action, id: TaskId, n: nat)
    requires HasFirst(c, s.store, id, n)
    ensures HasFirst(c, Step(c, s, a).store, id, n)
  {
    var call := CallOf(c, s, a);
    if call.Some? {
      HasFirstPersists(c, s.store, call.value, id, n);
    }
  }

  lemma IdentityStep(c: Config, s: System, a: Action, id: TaskId)
    requires id in s.store.tasks
    ensures id in Step(c, s, a).store.tasks && SameIdentity(Step(c, s, a).store.tasks[id], s.store.tasks[id])
  {
    var call := CallOf(c, s, a);
    if call.Some? {
      TasksPersist(c.uuid5, s.store, call.value, id);
    }
  }

  lemma SessionStep(c: Config, s: System, a: Action, x: Session)
    requires SessionFits(c, s.store, x)
    ensures SessionFits(c, Step(c, s, a).store, x)
  {
    HasFirstStep(c, s, a, x.id, x.index);
    IdentityStep(c, s, a, x.id);
  }

  /** A granted task exists, and the grant quotes it. */
  lemma GrantQuotesTask(s: Store, worker: string, leaseS: Time, now: Time)
    requires Lease(s, worker, leaseS, now).1.Granted?
    ensures var g := Lease(s, worker, leaseS, now).1.grant;
      g.id in s.tasks && g.key == s.tasks[g.id].key && g.payload == s.tasks[g.id].payload &&
        g.attempt == s.tasks[g.id].attempts + 1
  {
  }

  lemma SessionsKept(c: Config, s: System, a: Action, sid: nat)
    requires Inv(c, s) && sid < |Step(c, s, a).sessions|
    ensures SessionFits(c, Step(c, s, a).store, Step(c, s, a).sessions[sid])
  {
    var t := Step(c, s, a);
    if sid < |s.sessions| {
      var x := s.sessions[sid];
      assert SessionFits(c, s.store, x);
      SessionStep(c, s, a, x);
      if t.sessions[sid].index != x.index {
        assert MessageFits(c, s, AckMsg(sid, x.index));
        HasFirstStep(c, s, a, x.id, x.index + 1);
      }
    } else {
      GrantQuotesTask(s.store, a.worker, c.leaseS, a.now);
      var g := Lease(s.store, a.worker, c.leaseS, a.now).1.grant;
      IdentityStep(c, s, a, g.id);
      assert HasFirst(c, s.store, g.id, 0);
      HasFirstStep(c, s, a, g.id, 0);
    }
  }

  /** Sessions are numbered for good, and keep their task and what it told them. */
  lemma SessionsStay(c: Config, s: System, a: Action, sid: nat)
    requires sid < |s.sessions|
    ensures var t := Step(c, s, a);
      && sid < |t.sessions|
      && t.sessions[sid].(index := s.sessions[sid].index, open := s.sessions[sid].open) == s.sessions[sid]
      && (t.sessions[sid].open ==> s.sessions[sid].open)
  {
  }

  lemma OldMessageKept(c: Config, s: System, a: Action, m: Message)
    requires MessageFits(c, s, m)
    ensures MessageFits(c, Step(c, s, a), m)
  {
    SessionsStay(c, s, a, m.sid);
    var x := s.sessions[m.sid];
    match m
    case BatchMsg(_, i) => HasFirstStep(c, s, a, x.id, i);
    case AckMsg(_, i) => HasFirstStep(c, s, a, x.id, i + 1);
    case CompleteMsg(_) => HasFirstStep(c, s, a, x.id, |c.executor(x.payload)|);
    case DoneMsg(_) => CompletedStays(c, s, a, x.id);
    case _ =>
  }

  lemma CompletedStays(c: Config, s: System, a: Action, id: TaskId)
    requires IsCompleted(s.store, id)
    ensures IsCompleted(Step(c, s, a).store, id)
  {
    var call := CallOf(c, s, a);
    if call.Some? {
      TerminalStep(c.uuid5, s.store, call.value, id);
    }
  }

  /** An acknowledgement is new only when a batch was just accepted. */
  lemma {:induction false} NewAckMeans(c: Config, s: System, a: Action, m: Message)
    requires m.AckMsg? && m in Step(c, s, a).net && m !in s.net
    ensures a.DeliverBatch? && a.sid == m.sid && a.index == m.index && BatchMsg(m.sid, m.index) in s.net
    ensures m.sid < |s.sessions| && m.index < |c.executor(s.sessions[m.sid].payload)|
    ensures var x := s.sessions[m.sid];
      AddBatch(s.store, x.id, x.worker, BatchId(x.key, m.index), c.executor(x.payload)[m.index], a.now).1 != Denied
  {
  }

  /** An accepted batch of a session is the next one, or was there already. */
  lemma {:induction false} SessionBatchIsStored(c: Config, s: System, sid: nat, i: nat, now: Time)
    requires Inv(c, s) && BatchMsg(sid, i) in s.net
    requires sid < |s.sessions| && i < |c.executor(s.sessions[sid].payload)|
    requires var x := s.sessions[sid];
      AddBatch(s.store, x.id, x.worker, BatchId(x.key, i), c.executor(x.payload)[i], now).1 != Denied
    ensures var x := s.sessions[sid];
      HasFirst(c, AddBatch(s.store, x.id, x.worker, BatchId(x.key, i), c.executor(x.payload)[i], now).0, x.id, i + 1)
  {
    var x := s.sessions[sid];
    assert SessionFits(c, s.store, x) && MessageFits(c, s, BatchMsg(sid, i));
    AcceptedBatchIsStored(c, s.store, x.id, x.worker, i, now);
  }

  lemma {:induction false} AcknowledgedBatchFits(c: Config, s: System, a: Action, m: Message)
    requires Inv(c, s) && m.AckMsg? && m in Step(c, s, a).net && m !in s.net
    ensures MessageFits(c, Step(c, s, a), m)
  {
    NewAckMeans(c, s, a, m);
    SessionBatchIsStored(c, s, m.sid, m.index, a.now);
  }

  lemma {:induction false} SentMessageFits(c: Config, s: System, a: Action, m: Message)
    requires Inv(c, s) && (m.BatchMsg? || m.CompleteMsg?) && m in Step(c, s, a).net && m !in s.net
    ensures MessageFits(c, Step(c, s, a), m)
  {
    SessionsStay(c, s, a, m.sid);
    var x := s.sessions[m.sid];
    assert SessionFits(c, s.store, x);
    HasFirstStep(c, s, a, x.id, x.index);
  }

  /** A completion is confirmed only when it was just accepted. */
  lemma {:induction false} ConfirmedCompletionFits(c: Config, s: System, a: Action, m: Message)
    requires Inv(c, s) && m.DoneMsg? && m in Step(c, s, a).net && m !in s.net
    ensures MessageFits(c, Step(c, s, a), m)
  {
    SessionsStay(c, s, a, m.sid);
  }

  lemma {:induction false} NewMessageFits(c: Config, s: System, a: Action, m: Message)
    requires Inv(c, s) && m in Step(c, s, a).net && m !in s.net
    ensures MessageFits(c, Step(c, s, a), m)
  {
    match m
    case BatchMsg(_, _) => SentMessageFits(c, s, a, m);
    case CompleteMsg(_) => SentMessageFits(c, s, a, m);
    case AckMsg(_, _) => AcknowledgedBatchFits(c, s, a, m);
    case DoneMsg(_) => ConfirmedCompletionFits(c, s, a, m);
    case _ => SessionsStay(c, s, a, m.sid);
  }

  lemma BatchesKept(c: Config, s: System, a: Action, key: BatchKey)
    requires Inv(c, s) && key in Step(c, s, a).store.batches
    ensures exists i: nat :: BatchBelongs(c, Step(c, s, a).store, key, i)
  {
    var t := Step(c, s, a);
    if key in s.store.batches {
      var i: nat :| BatchBelongs(c, s.store, key, i);
      HasFirstStep(c, s, a, key.0, i + 1);
      IdentityStep(c, s, a, key.0);
      assert BatchBelongs(c, t.store, key, i);
    } else {
      OnlyBatchAdds(c.uuid5, s.store, CallOf(c, s, a).value, key);
      var x := s.sessions[a.sid];
      assert SessionFits(c, s.store, x);
      SessionBatchIsStored(c, s, a.sid, a.index, a.now);
      IdentityStep(c, s, a, x.id);
      assert BatchBelongs(c, t.store, key, a.index);
    }
  }

  lemma OnlyBatchAdds(uuid5: string -> string, s: Store, op: Op, key: BatchKey)
    requires key in Apply(uuid5, s, op).batches && key !in s.batches
    ensures op.BatchOp? && key == (op.id, op.batchId) &&
      AddBatch(s, op.id, op.worker, op.batchId, op.payload, op.now).1 == Inserted
  {
  }

  lemma CompletedKept(c: Config, s: System, a: Action, id: TaskId)
    requires Inv(c, s)
    requires id in Step(c, s, a).store.tasks && Step(c, s, a).store.tasks[id].state.Completed?
    ensures HasFirst(c, Step(c, s, a).store, id, |Yielded(c, Step(c, s, a).store, id)|)
  {
    if id in s.store.tasks && s.store.tasks[id].state.Completed? {
      HasFirstStep(c, s, a, id, |Yielded(c, s.store, id)|);
      IdentityStep(c, s, a, id);
    } else {
      OnlyCompleteCompletes(c.uuid5, s.store, CallOf(c, s, a).value, id);
      var x := s.sessions[a.sid];
      assert SessionFits(c, s.store, x) && MessageFits(c, s, CompleteMsg(a.sid));
      HasFirstStep(c, s, a, id, |Yielded(c, s.store, id)|);
      IdentityStep(c, s, a, id);
    }
  }

  lemma OnlyCompleteCompletes(uuid5: string -> string, s: Store, op: Op, id: TaskId)
    requires id in Apply(uuid5, s, op).tasks && Apply(uuid5, s, op).tasks[id].state.Completed?
    requires !(id in s.tasks && s.tasks[id].state.Completed?)
    ensures op.CompleteOp? && op.id == id && id in s.tasks
  {
    if op.SubmitOp? {
      InsertTasksKeeps(uuid5, s.tasks, op.cycle, op.sources, op.now);
    }
  }

  lemma InvStep(c: Config, s: System, a: Action)
    requires Inv(c, s)
    ensures Inv(c, Step(c, s, a))
  {
    var t := Step(c, s, a);
    forall sid | 0 <= sid < |t.sessions|
      ensures SessionFits(c, t.store, t.sessions[sid])
    {
      SessionsKept(c, s, a, sid);
    }
    forall m | m in t.net
      ensures MessageFits(c, t, m)
    {
      if m in s.net {
        OldMessageKept(c, s, a, m);
      } else {
        NewMessageFits(c, s, a, m);
      }
    }
    forall key | key in t.store.batches
      ensures exists i: nat :: BatchBelongs(c, t.store, key, i)
    {
      BatchesKept(c, s, a, key);
    }
    forall id | id in t.store.tasks && t.store.tasks[id].state.Completed?
      ensures HasFirst(c, t.store, id, |Yielded(c, t.store, id)|)
    {
      CompletedKept(c, s, a, id);
    }
  }

  lemma {:induction false} InvAlways(c: Config, actions: seq<Action>)
    ensures Inv(c, Exec(c, actions))
  {
    if actions != [] {
      InvAlways(c, actions[..|actions| - 1]);
      InvStep(c, Exec(c, actions[..|actions| - 1]), actions[|actions| - 1]);
    }
  }

  /** The stored batches of a task are exactly its first n, by name and content. */
  ghost predicate StoresExactly(c: Config, st: Store, id: TaskId, n: nat)
  {
    && HasFirst(c, st, id, n)
    && forall batchId :: (id, batchId) in st.batches <==>
         exists i :: 0 <= i < n && batchId == BatchId(st.tasks[id].key, i)
  }

  /** Exactly-once effect under retries.  In every run, crashes, expiries, zombies and re-sent messages
      included, the stored batches of a task are a prefix of what the executor yields, each once; of a
      completed task, all of it. */
  lemma {:induction false} ExactlyOnce(c: Config, actions: seq<Action>, id: TaskId) returns (n: nat)
    requires id in Exec(c, actions).store.tasks
    ensures var st := Exec(c, actions).store;
      StoresExactly(c, st, id, n) && (st.tasks[id].state.Completed? ==> n == |Yielded(c, st, id)|)
  {
    InvAlways(c, actions);
    var st := Exec(c, actions).store;
    n := 0;
    while n < |Yielded(c, st, id)| && HasFirst(c, st, id, n + 1)
      invariant HasFirst(c, st, id, n)
    {
      n := n + 1;
    }
    PrefixIsAll(c, st, id, n);
  }

  /** If the stored batches all belong and batch n is not among the stored prefix, there is nothing else. */
  lemma PrefixIsAll(c: Config, st: Store, id: TaskId, n: nat)
    requires HasFirst(c, st, id, n) && !HasFirst(c, st, id, n + 1)
    requires forall key | key in st.batches :: exists i: nat :: BatchBelongs(c, st, key, i)
    ensures StoresExactly(c, st, id, n)
  {
    forall batchId | (id, batchId) in st.batches
      ensures exists i :: 0 <= i < n && batchId == BatchId(st.tasks[id].key, i)
    {
      var i: nat :| BatchBelongs(c, st, (id, batchId), i);
      assert i < n by {
        if i >= n {
          HasFewer(c, st, id, i + 1, n + 1);
        }
      }
    }
  }

  lemma HasFewer(c: Config, st: Store, id: TaskId, n: nat, m: nat)
    requires HasFirst(c, st, id, n) && m <= n
    ensures HasFirst(c, st, id, m)
  {
  }
}
