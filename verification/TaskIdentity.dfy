/** Which task a submitted source gets (src/lowpower_llm_cluster/distributed_runtime.py:87-103): the id is a digest
    of the cycle id and the source name joined by a colon, and an id that exists is left alone. */
module TaskIdentity {
  import opened Base
  import opened TaskStore
  import opened LeaseProtocol

  // ---------------------------------------------------------------- the joined key

  /** Distinct cycles can produce one key exactly when one cycle id is the other followed by a colon and more. */
  lemma KeysCanMeetExactly(c: string, d: string)
    requires c != d
    ensures (exists m: string, n: string :: TaskKey(c, m) == TaskKey(d, n)) <==> c + ":" <= d || d + ":" <= c
  {
    if m: string, n: string :| TaskKey(c, m) == TaskKey(d, n) {
      LongerContinuesShorter(c, m, d, n);
    }
    if c + ":" <= d {
      ContinuedMeets(c, d);
    }
    if d + ":" <= c {
      ContinuedMeets(d, c);
    }
  }

  lemma LongerContinuesShorter(c: string, m: string, d: string, n: string)
    requires c != d && TaskKey(c, m) == TaskKey(d, n)
    ensures c + ":" <= d || d + ":" <= c
  {
    var key := TaskKey(c, m);
    assert key[..|c|] == c && key[..|d|] == d;
    assert key[..|c| + 1] == c + ":" && key[..|d| + 1] == d + ":";
  }

  lemma ContinuedMeets(c: string, d: string)
    requires c + ":" <= d
    ensures exists m: string, n: string :: TaskKey(c, m) == TaskKey(d, n)
  {
    var rest := d[|c| + 1..];
    assert d == c + ":" + rest;
    assert TaskKey(c, rest + ":" + "") == TaskKey(d, "");
  }

  /** Cycle ids without a colon, as the generated ones are, keep keys apart. */
  lemma KeysAreInjective(c: string, m: string, d: string, n: string)
    requires ':' !in c && ':' !in d
    ensures TaskKey(c, m) == TaskKey(d, n) <==> c == d && m == n
  {
    assert (c + ":")[|c|] == ':' && (d + ":")[|d|] == ':';
    SameNames(c, m, n);
    if TaskKey(c, m) == TaskKey(d, n) && c != d {
      LongerContinuesShorter(c, m, d, n);
    }
  }

  lemma SameNames(c: string, m: string, n: string)
    ensures TaskKey(c, m) == TaskKey(c, n) <==> m == n
  {
    assert TaskKey(c, m)[|c| + 1..] == m && TaskKey(c, n)[|c| + 1..] == n;
  }

  // ---------------------------------------------------------------- one submission

  ghost predicate Injective(f: string -> string)
  {
    forall a, b :: f(a) == f(b) ==> a == b
  }

  function IdOf(uuid5: string -> string, cycle: string, name: string): TaskId
  {
    uuid5(TaskKey(cycle, name))
  }

  ghost predicate RegisteredAs(tasks: map<TaskId, Task>, id: TaskId, cycle: string, name: string)
  {
    id in tasks && tasks[id].cycle == cycle && tasks[id].source == name
  }

  /** The id stands for another cycle's source. */
  ghost predicate TakenByAnother(tasks: map<TaskId, Task>, id: TaskId, cycle: string, name: string)
  {
    id in tasks && !RegisteredAs(tasks, id, cycle, name)
  }

  /** INSERT OR IGNORE of one source, seen from the id of a source of the same cycle. */
  lemma {:induction false} InsertOneExactly(uuid5: string -> string, tasks: map<TaskId, Task>, cycle: string,
        source: Source,
        now: Time, name: string)
    requires Injective(uuid5)
    ensures var after, id := InsertTask(tasks, IdOf(uuid5, cycle, source.name), NewTask(cycle, source, now)),
                             IdOf(uuid5, cycle, name);
      && (RegisteredAs(after, id, cycle, name) <==>
          RegisteredAs(tasks, id, cycle, name) || (id !in tasks && source.name == name))
      && (id in after <==> id in tasks || source.name == name)
      && (id in tasks ==> after[id] == tasks[id])
  {
    SameNames(cycle, source.name, name);
  }

  lemma {:induction false} InsertedExactly(uuid5: string -> string, tasks: map<TaskId, Task>, cycle: string,
        sources: seq<Source>, now: Time, name: string)
    requires Injective(uuid5)
    ensures var after, id := InsertTasks(uuid5, tasks, cycle, sources, now), IdOf(uuid5, cycle, name);
      && (RegisteredAs(after, id, cycle, name) <==>
          RegisteredAs(tasks, id, cycle, name) || (id !in tasks && Names(sources, name)))
      && (id in after <==> id in tasks || Names(sources, name))
      && (id in tasks ==> after[id] == tasks[id])
  {
    if sources != [] {
      var init, last := sources[..|sources| - 1], sources[|sources| - 1];
      InsertedExactly(uuid5, tasks, cycle, init, now, name);
      InsertOneExactly(uuid5, InsertTasks(uuid5, tasks, cycle, init, now), cycle, last, now, name);
      NamedSnoc(init, last, name);
      assert sources == init + [last];
    }
  }

  predicate Names(sources: seq<Source>, name: string)
  {
    exists k :: 0 <= k < |sources| && sources[k].name == name
  }

  lemma NamedSnoc(init: seq<Source>, last: Source, name: string)
    ensures Names(init + [last], name) <==> Names(init, name) || last.name == name
  {
    assert forall k | 0 <= k < |init| :: (init + [last])[k] == init[k];
    assert (init + [last])[|init|] == last;
  }

  /** A submitted source gets a task of its own cycle and name exactly when its id does not already stand for
      another cycle's source; if it does, the source is silently left out. */
  lemma SubmittedExactly(uuid5: string -> string, s: Store, cycle: string, sources: seq<Source>, now: Time, k: nat)
    requires Injective(uuid5) && k < |sources|
    ensures var name := sources[k].name;
      RegisteredAs(Submit(uuid5, s, cycle, sources, now).tasks, IdOf(uuid5, cycle, name), cycle, name) <==>
      !TakenByAnother(s.tasks, IdOf(uuid5, cycle, name), cycle, name)
  {
    InsertedExactly(uuid5, s.tasks, cycle, sources, now, sources[k].name);
  }

  /** How a source is lost: its cycle id continues an earlier one after a colon, and the earlier cycle has a source
      whose name supplies the rest.  The digest plays no part: the two keys are the same text. */
  lemma SourceIsLost(uuid5: string -> string, cycle: string, rest: string, name: string, payload: string, other: string,
        first: Time, second: Time)
    ensures var later := cycle + ":" + rest;
      var ops := [SubmitOp(cycle, [Source(rest + ":" + name, payload)], first)] +
        [SubmitOp(later, [Source(name, other)], second)];
      !RegisteredAs(Run(uuid5, EMPTY_STORE, ops).tasks, IdOf(uuid5, later, name), later, name)
  {
    var later, long := cycle + ":" + rest, Source(rest + ":" + name, payload);
    var a, b := SubmitOp(cycle, [long], first), SubmitOp(later, [Source(name, other)], second);
    var id := IdOf(uuid5, later, name);
    assert TaskKey(cycle, long.name) == TaskKey(later, name);
    assert ([a] + [b])[..1] == [a] && [a][..0] == [];
    OneSource(uuid5, map[], cycle, long, first);
    OneSource(uuid5, map[id := NewTask(cycle, long, first)], later, Source(name, other), second);
    assert Run(uuid5, EMPTY_STORE, [a]) == Apply(uuid5, EMPTY_STORE, a);
    assert Run(uuid5, EMPTY_STORE, [a] + [b]).tasks == map[id := NewTask(cycle, long, first)];
    assert |later| > |cycle|;
  }

  lemma OneSource(uuid5: string -> string, tasks: map<TaskId, Task>, cycle: string, source: Source, now: Time)
    ensures InsertTasks(uuid5, tasks, cycle, [source], now) ==
      InsertTask(tasks, IdOf(uuid5, cycle, source.name), NewTask(cycle, source, now))
  {
    assert [source][..0] == [];
  }

  /** For example: after cycle "a" with a source "b:c", cycle "a:b" never gets its source "c". */
  lemma LostSourceExample(uuid5: string -> string)
    ensures var ops := [SubmitOp("a", [Source("b:c", "")], 0.0)] + [SubmitOp("a:b", [Source("c", "")], 1.0)];
      !RegisteredAs(Run(uuid5, EMPTY_STORE, ops).tasks, IdOf(uuid5, "a:b", "c"), "a:b", "c")
  {
    SourceIsLost(uuid5, "a", "b", "c", "", "", 0.0, 1.0);
    assert "a" + ":" + "b" == "a:b" && "b" + ":" + "c" == "b:c";
  }

  // ---------------------------------------------------------------- whole runs

  predicate ColonFree(ops: seq<Op>)
  {
    forall op | op in ops :: op.SubmitOp? ==> ':' !in op.cycle
  }

  /** The id is the digest of the task's own cycle and name, and its cycle id has no colon. */
  ghost predicate NamedTask(uuid5: string -> string, id: TaskId, task: Task)
  {
    id == IdOf(uuid5, task.cycle, task.source) && ':' !in task.cycle
  }

  ghost predicate WellNamed(uuid5: string -> string, tasks: map<TaskId, Task>)
  {
    forall id | id in tasks :: NamedTask(uuid5, id, tasks[id])
  }

  lemma {:induction false} AlwaysWellNamed(uuid5: string -> string, ops: seq<Op>)
    requires ColonFree(ops)
    ensures WellNamed(uuid5, Run(uuid5, EMPTY_STORE, ops).tasks)
  {
    if ops != [] {
      var before, op := ops[..|ops| - 1], ops[|ops| - 1];
      assert op in ops && forall o | o in before :: o in ops;
      AlwaysWellNamed(uuid5, before);
      forall id | id in Run(uuid5, EMPTY_STORE, ops).tasks
        ensures NamedTask(uuid5, id, Run(uuid5, EMPTY_STORE, ops).tasks[id])
      {
        TasksPersist(uuid5, Run(uuid5, EMPTY_STORE, before), op, id);
      }
    }
  }

  lemma NeverTaken(uuid5: string -> string, tasks: map<TaskId, Task>, cycle: string, name: string)
    requires Injective(uuid5) && WellNamed(uuid5, tasks) && ':' !in cycle
    ensures !TakenByAnother(tasks, IdOf(uuid5, cycle, name), cycle, name)
  {
    var id := IdOf(uuid5, cycle, name);
    if id in tasks {
      KeysAreInjective(tasks[id].cycle, tasks[id].source, cycle, name);
    }
  }

  /** No source is lost: with colon-free cycle ids, every source ever submitted has its own task in its own
      cycle from then on, whatever is called afterwards. */
  lemma {:induction false} EverySubmittedSourceHasItsTask(uuid5: string -> string, ops: seq<Op>, j: nat, k: nat)
    requires Injective(uuid5) && ColonFree(ops)
    requires j < |ops| && ops[j].SubmitOp? && k < |ops[j].sources|
    ensures var name := ops[j].sources[k].name;
      RegisteredAs(Run(uuid5, EMPTY_STORE, ops).tasks, IdOf(uuid5, ops[j].cycle, name), ops[j].cycle, name)
  {
    var before, op := ops[..|ops| - 1], ops[|ops| - 1];
    var name := ops[j].sources[k].name;
    assert ops[j] in ops && forall o | o in before :: o in ops;
    if j < |before| {
      EverySubmittedSourceHasItsTask(uuid5, before, j, k);
      TasksPersist(uuid5, Run(uuid5, EMPTY_STORE, before), op, IdOf(uuid5, ops[j].cycle, name));
    } else {
      AlwaysWellNamed(uuid5, before);
      NeverTaken(uuid5, Run(uuid5, EMPTY_STORE, before).tasks, op.cycle, name);
      SubmittedExactly(uuid5, Run(uuid5, EMPTY_STORE, before), op.cycle, op.sources, op.now, k);
    }
  }

  // ---------------------------------------------------------------- whatever the cycle ids are

  /** The call submits this source of this cycle. */
  predicate Claims(op: Op, cycle: string, name: string)
  {
    op.SubmitOp? && op.cycle == cycle && Names(op.sources, name)
  }

  /** The call submits a source of another cycle whose joined key is the same text. */
  ghost predicate ClaimsForAnother(op: Op, cycle: string, name: string)
  {
    op.SubmitOp? && op.cycle != cycle && Meets(op.cycle, op.sources, TaskKey(cycle, name))
  }

  /** Some source of the cycle has this joined key. */
  predicate Meets(cycle: string, sources: seq<Source>, key: string)
  {
    exists k :: 0 <= k < |sources| && TaskKey(cycle, sources[k].name) == key
  }

  /** The run submits the source, and nothing before its first submission has its key for another source. */
  ghost predicate ClaimedFirst(ops: seq<Op>, cycle: string, name: string)
  {
    exists j :: 0 <= j < |ops| && Claims(ops[j], cycle, name) && !EverClaimedForAnother(ops[..j], cycle, name)
  }

  ghost predicate EverClaimed(ops: seq<Op>, cycle: string, name: string)
  {
    exists j :: 0 <= j < |ops| && Claims(ops[j], cycle, name)
  }

  ghost predicate EverClaimedForAnother(ops: seq<Op>, cycle: string, name: string)
  {
    exists j :: 0 <= j < |ops| && ClaimsForAnother(ops[j], cycle, name)
  }

  lemma {:induction false} InsertedForAnother(uuid5: string -> string, tasks: map<TaskId, Task>, cycle: string,
        sources: seq<Source>, now: Time, other: string, name: string)
    requires Injective(uuid5) && cycle != other
    ensures var after, id := InsertTasks(uuid5, tasks, cycle, sources, now), IdOf(uuid5, other, name);
      && (id in after <==> id in tasks || Meets(cycle, sources, TaskKey(other, name)))
      && (RegisteredAs(after, id, other, name) <==> RegisteredAs(tasks, id, other, name))
  {
    if sources != [] {
      var init, last := sources[..|sources| - 1], sources[|sources| - 1];
      assert sources == init + [last];
      InsertedForAnother(uuid5, tasks, cycle, init, now, other, name);
      MeetsSnoc(cycle, init, last, TaskKey(other, name));
    }
  }

  lemma MeetsSnoc(cycle: string, init: seq<Source>, last: Source, key: string)
    ensures Meets(cycle, init + [last], key) <==> Meets(cycle, init, key) || TaskKey(cycle, last.name) == key
  {
    assert forall k | 0 <= k < |init| :: (init + [last])[k] == init[k];
    assert (init + [last])[|init|] == last;
  }

  /** What one call does to the key's id. */
  lemma ClaimStep(uuid5: string -> string, s: Store, op: Op, cycle: string, name: string)
    requires Injective(uuid5)
    ensures var before, after, id := s.tasks, Apply(uuid5, s, op).tasks, IdOf(uuid5, cycle, name);
      && (id in after <==> id in before || Claims(op, cycle, name) || ClaimsForAnother(op, cycle, name))
      && (RegisteredAs(after, id, cycle, name) <==>
          RegisteredAs(before, id, cycle, name) || (id !in before && Claims(op, cycle, name)))
  {
    if op.SubmitOp? {
      if op.cycle == cycle {
        InsertedExactly(uuid5, s.tasks, cycle, op.sources, op.now, name);
      } else {
        InsertedForAnother(uuid5, s.tasks, op.cycle, op.sources, op.now, cycle, name);
      }
    } else {
      TasksPersist(uuid5, s, op, IdOf(uuid5, cycle, name));
    }
  }

  lemma ClaimedSnoc(ops: seq<Op>, op: Op, cycle: string, name: string)
    ensures EverClaimed(ops + [op], cycle, name) <==> EverClaimed(ops, cycle, name) || Claims(op, cycle, name)
    ensures EverClaimedForAnother(ops + [op], cycle, name) <==>
            EverClaimedForAnother(ops, cycle, name) || ClaimsForAnother(op, cycle, name)
    ensures ClaimedFirst(ops + [op], cycle, name) <==>
            ClaimedFirst(ops, cycle, name) || (Claims(op, cycle, name) && !EverClaimedForAnother(ops, cycle, name))
  {
    var all := ops + [op];
    assert all[|ops|] == op && all[..|ops|] == ops;
    assert forall j | 0 <= j < |ops| :: all[j] == ops[j] && all[..j] == ops[..j];
  }

  /** The first submission of a source with nothing of its key before it: no call at all had the key. */
  lemma FirstOrClaimedEarlier(ops: seq<Op>, cycle: string, name: string)
    requires EverClaimed(ops, cycle, name) && !EverClaimedForAnother(ops, cycle, name)
    ensures ClaimedFirst(ops, cycle, name)
  {
    var j :| 0 <= j < |ops| && Claims(ops[j], cycle, name);
    assert forall i | 0 <= i < j :: ops[..j][i] == ops[i];
  }

  /** In every run, whatever the cycle ids: a source has its own task exactly when it was submitted and no source
      of another cycle with the same joined key was submitted before it.  The id is in use exactly when some
      call submitted its key. */
  lemma {:induction false} KeepsItsTaskExactly(uuid5: string -> string, ops: seq<Op>, cycle: string, name: string)
    requires Injective(uuid5)
    ensures var tasks, id := Run(uuid5, EMPTY_STORE, ops).tasks, IdOf(uuid5, cycle, name);
      && (RegisteredAs(tasks, id, cycle, name) <==> ClaimedFirst(ops, cycle, name))
      && (id in tasks <==> EverClaimed(ops, cycle, name) || EverClaimedForAnother(ops, cycle, name))
  {
    if ops != [] {
      var before, op := ops[..|ops| - 1], ops[|ops| - 1];
      assert ops == before + [op];
      KeepsItsTaskExactly(uuid5, before, cycle, name);
      ClaimStep(uuid5, Run(uuid5, EMPTY_STORE, before), op, cycle, name);
      ClaimedSnoc(before, op, cycle, name);
      if EverClaimed(before, cycle, name) && !EverClaimedForAnother(before, cycle, name) {
        FirstOrClaimedEarlier(before, cycle, name);
      }
    }
  }
}
