/** The bounded parallel map (src/lowpower_llm_cluster/runtime.py:106-168) as a transition system: one
    producer, W workers and one consumer over two bounded first-in first-out queues.  A schedule is any
    sequence of enabled steps, so the theorems hold for every interleaving, W and capacity. */
module BoundedMap {
  import opened Folds

  datatype Result<+R> = Value(value: R) | Raise

  /** The call: the items the iterable yields, whether it raises after them, and the function. */
  datatype Job<!T, !R> = Job(items: seq<T>, iterRaises: bool, func: T -> Result<R>, workers: nat, capacity: nat)

  /** An input entry (index, items[index]), or the None that stops one worker. */
  datatype Entry = Item(index: nat) | Sentinel

  datatype Cause = FromIterator | FromItem(index: nat)

  /** What travels on the output queue: a result, an exception, or a worker's None. */
  datatype Out<+R> = Pair(index: nat, value: R) | Exc(cause: Cause) | WorkerDone

  datatype Producer = Producing(next: nat) | Reporting | Closing(left: nat)

  /** Where a worker is; `Putting`, `Failing` and `Stopping` wait for room in the output queue. */
  datatype Phase<+R> =
    | Idle | Working(index: nat) | Putting(index: nat, value: R) | Failing(index: nat) | Stopping | Stopped | Crashed

  /** What the iterator yields to the consumer. */
  datatype Indexed<+R> = Indexed(index: nat, value: R)

  datatype Outcome = Running | Returned | RaisedOut(cause: Cause)

  datatype State<+R> = State(
    producer: Producer, input: seq<Entry>, workers: seq<Phase<R>>, output: seq<Out<R>>,
    finished: nat, collected: seq<Indexed<R>>, outcome: Outcome)

  datatype Actor = Produce | Work(w: nat) | Consume

  function Start<T, R>(job: Job<T, R>): State<R>
  {
    State(Producing(0), [], seq(job.workers, _ => Idle), [], 0, [], Running)
  }

  // ---------------------------------------------------------------- steps

  predicate Enabled<T, R>(job: Job<T, R>, s: State<R>, actor: Actor)
  {
    && s.outcome.Running?
    && match actor
       case Produce =>
         (match s.producer
          case Producing(next) => next >= |job.items| || |s.input| < job.capacity
          case Reporting => |s.output| < job.capacity
          case Closing(left) => left > 0 && |s.input| < job.capacity)
       case Work(w) =>
         w < |s.workers| &&
         (match s.workers[w]
          case Idle => s.input != []
          case Working(index) => index < |job.items|
          case Stopped => false
          case Crashed => false
          case _ => |s.output| < job.capacity)
       case Consume => s.output != []
  }

  function ProducerStep<T, R>(job: Job<T, R>, s: State<R>): State<R>
    requires Enabled(job, s, Produce)
  {
    match s.producer
    case Producing(next) =>
      if next < |job.items| then s.(producer := Producing(next + 1), input := s.input + [Item(next)])
      else s.(producer := if job.iterRaises then Reporting else Closing(job.workers))
    case Reporting => s.(producer := Closing(job.workers), output := s.output + [Exc(FromIterator)])
    case Closing(left) => s.(producer := Closing(left - 1), input := s.input + [Sentinel])
  }

  /** The worker's next phase, and what it puts on the output queue. */
  function WorkerMove<T, R>(job: Job<T, R>, s: State<R>, w: nat): (Phase<R>, seq<Out<R>>)
    requires Enabled(job, s, Work(w))
  {
    match s.workers[w]
    case Idle => (if s.input[0].Sentinel? then Stopping else Working(s.input[0].index), [])
    case Working(index) =>
      (match job.func(job.items[index]) case Value(r) => Putting(index, r) case Raise => Failing(index), [])
    case Putting(index, value) => (Idle, [Pair(index, value)])
    case Failing(index) => (Crashed, [Exc(FromItem(index))])
    case Stopping => (Stopped, [WorkerDone])
  }

  function WorkerStep<T, R>(job: Job<T, R>, s: State<R>, w: nat): State<R>
    requires Enabled(job, s, Work(w))
  {
    var move := WorkerMove(job, s, w);
    s.(workers := s.workers[w := move.0], output := s.output + move.1,
       input := if s.workers[w].Idle? then s.input[1..] else s.input)
  }

  function ConsumerStep<T, R>(job: Job<T, R>, s: State<R>): State<R>
    requires Enabled(job, s, Consume)
  {
    var rest := s.(output := s.output[1..]);
    match s.output[0]
    case WorkerDone =>
      rest.(finished := s.finished + 1, outcome := if s.finished + 1 >= job.workers then Returned else Running)
    case Exc(cause) => rest.(outcome := RaisedOut(cause))
    case Pair(index, value) => rest.(collected := s.collected + [Indexed(index, value)])
  }

  function Step<T, R>(job: Job<T, R>, s: State<R>, actor: Actor): State<R>
    requires Enabled(job, s, actor)
  {
    match actor
    case Produce => ProducerStep(job, s)
    case Work(w) => WorkerStep(job, s, w)
    case Consume => ConsumerStep(job, s)
  }

  // ---------------------------------------------------------------- where everything is

  function Next<T, R>(job: Job<T, R>, s: State<R>): nat
  {
    if s.producer.Producing? then s.producer.next else |job.items|
  }

  function SentinelsLeft<T, R>(job: Job<T, R>, s: State<R>): nat
  {
    if s.producer.Closing? then s.producer.left else job.workers
  }

  function One(b: bool): int { if b then 1 else 0 }

  function IsSentinel(e: Entry): int { One(e.Sentinel?) }
  function IsDone<R>(x: Out<R>): int { One(x.WorkerDone?) }
  function IsStopping<R>(p: Phase<R>): int { One(p.Stopping?) }
  function IsStopped<R>(p: Phase<R>): int { One(p.Stopped?) }

  function EntryAt(i: nat): Entry -> int { e => One(e == Item(i)) }
  function PhaseAt<R>(i: nat): Phase<R> -> int {
    (p: Phase<R>) => One((p.Working? || p.Putting? || p.Failing?) && p.index == i)
  }
  function OutAt<R>(i: nat): Out<R> -> int { (x: Out<R>) => One((x.Pair? && x.index == i) || x == Exc(FromItem(i))) }
  function PairAt<R>(i: nat): Indexed<R> -> int { (x: Indexed<R>) => One(x.index == i) }

  /** How many places hold index i. */
  function Places<R>(s: State<R>, i: nat): int
  {
    Total(s.input, EntryAt(i)) + Total(s.workers, PhaseAt<R>(i)) + Total(s.output, OutAt<R>(i)) +
      Total(s.collected, PairAt<R>(i)) +
    One(s.outcome == RaisedOut(FromItem(i)))
  }

  /** Every index the producer handed out is in exactly one place, and no other index is anywhere. */
  ghost predicate Conserved<T, R>(job: Job<T, R>, s: State<R>)
  {
    forall i: nat :: Places(s, i) == One(i < Next(job, s))
  }

  /** Every worker is told to stop once: W sentinels are unsent, queued, or taken by W workers, and every
      worker that stopped is announced once. */
  ghost predicate SentinelsBalance<T, R>(job: Job<T, R>, s: State<R>)
  {
    && |s.workers| == job.workers >= 1
    && SentinelsLeft(job, s) + Total(s.input, IsSentinel) + Total(s.workers, IsStopping<R>) +
         Total(s.workers, IsStopped<R>) == job.workers
    && Total(s.output, IsDone<R>) + s.finished == Total(s.workers, IsStopped<R>)
    && (s.outcome.Running? ==> s.finished < job.workers)
    && (s.outcome.Returned? ==> s.finished == job.workers)
  }

  /** No item follows a sentinel: not in the queue, and not once a sentinel was taken or before closing. */
  ghost predicate ItemsFirst<T, R>(job: Job<T, R>, s: State<R>)
  {
    && (forall p, q | 0 <= p < q < |s.input| :: s.input[p].Sentinel? ==> s.input[q].Sentinel?)
    && (!s.producer.Closing? ==> forall p | 0 <= p < |s.input| :: s.input[p].Item?)
    && (Total(s.workers, IsStopping<R>) + Total(s.workers, IsStopped<R>) > 0 ==>
         s.producer.Closing? && forall p | 0 <= p < |s.input| :: s.input[p].Sentinel?)
  }

  /** The consumer will reach every result and exception in the output queue before its last None. */
  ghost predicate BeforeLastNone<T, R>(job: Job<T, R>, s: State<R>)
  {
    forall k | 0 <= k < |s.output| && !s.output[k].WorkerDone? ::
      s.finished + Total(s.output[..k], IsDone<R>) < job.workers
  }

  ghost predicate TrueValue<T, R>(job: Job<T, R>, index: nat, value: R)
  {
    index < |job.items| && job.func(job.items[index]) == Value(value)
  }

  ghost predicate TrueCause<T, R>(job: Job<T, R>, cause: Cause)
  {
    match cause
    case FromIterator => job.iterRaises
    case FromItem(i) => i < |job.items| && job.func(job.items[i]).Raise?
  }

  ghost predicate TruePhase<T, R>(job: Job<T, R>, p: Phase<R>)
  {
    match p
    case Working(i) => i < |job.items|
    case Putting(i, v) => TrueValue(job, i, v)
    case Failing(i) => TrueCause(job, FromItem(i))
    case _ => true
  }

  /** Nothing on its way misreports the function or the iterator. */
  ghost predicate Truthful<T, R>(job: Job<T, R>, s: State<R>)
  {
    && (forall e | e in s.input :: e.Item? ==> e.index < |job.items|)
    && (forall p | p in s.workers :: TruePhase(job, p))
    && (forall x | x in s.output ::
         (x.Pair? ==> TrueValue(job, x.index, x.value)) && (x.Exc? ==> TrueCause(job, x.cause)))
    && (forall x | x in s.collected :: TrueValue(job, x.index, x.value))
    && (s.outcome.RaisedOut? ==> TrueCause(job, s.outcome.cause))
    && (s.producer.Reporting? ==> job.iterRaises)
    && (s.producer.Producing? ==> s.producer.next <= |job.items|)
  }

  /** An exception is never dropped: until it is raised it waits in the output queue. */
  ghost predicate ExceptionsKept<T, R>(job: Job<T, R>, s: State<R>)
  {
    !s.outcome.RaisedOut? ==>
      && (job.iterRaises && s.producer.Closing? ==> Exc(FromIterator) in s.output)
      && (Crashed in s.workers ==> exists x :: x in s.output && x.Exc?)
  }

  ghost predicate Inv<T, R>(job: Job<T, R>, s: State<R>)
  {
    && Conserved(job, s) && SentinelsBalance(job, s) && ItemsFirst(job, s) && BeforeLastNone(job, s) &&
         Truthful(job, s) && ExceptionsKept(job, s)
    && |s.input| <= job.capacity && |s.output| <= job.capacity
  }

  // ---------------------------------------------------------------- every step keeps it

  lemma StartInv<T, R>(job: Job<T, R>)
    requires job.workers >= 1
    ensures Inv(job, Start(job))
  {
    var s := Start(job);
    forall i: nat
      ensures Places(s, i) == 0
    {
      TotalZero(s.workers, PhaseAt<R>(i));
    }
    TotalZero(s.workers, IsStopping<R>);
    TotalZero(s.workers, IsStopped<R>);
  }

  lemma PlacesProduce<T, R>(job: Job<T, R>, s: State<R>, i: nat)
    requires Truthful(job, s) && Enabled(job, s, Produce)
    ensures Places(ProducerStep(job, s), i) - Places(s, i) ==
      One(i < Next(job, ProducerStep(job, s))) - One(i < Next(job, s))
  {
    match s.producer
    case Producing(next) => TotalAppend(s.input, Item(next), EntryAt(i));
    case Reporting => TotalAppend(s.output, Exc(FromIterator), OutAt<R>(i));
    case Closing(_) => TotalAppend(s.input, Sentinel, EntryAt(i));
  }

  lemma PlacesWork<T, R>(job: Job<T, R>, s: State<R>, w: nat, i: nat)
    requires Enabled(job, s, Work(w))
    ensures Places(WorkerStep(job, s, w), i) == Places(s, i)
  {
    var move := WorkerMove(job, s, w);
    TotalUpdate(s.workers, w, move.0, PhaseAt<R>(i));
    AppendMove(s.output, move.1, OutAt<R>(i));
  }

  lemma AppendMove<X>(xs: seq<X>, more: seq<X>, g: X -> int)
    requires |more| <= 1
    ensures Total(xs + more, g) == Total(xs, g) + if more == [] then 0 else g(more[0])
  {
    if more == [] {
      assert xs + more == xs;
    } else {
      assert more == [more[0]];
      TotalAppend(xs, more[0], g);
    }
  }

  lemma PlacesConsume<T, R>(job: Job<T, R>, s: State<R>, i: nat)
    requires Enabled(job, s, Consume)
    ensures Places(ConsumerStep(job, s), i) == Places(s, i)
  {
    if s.output[0].Pair? {
      TotalAppend(s.collected, Indexed(s.output[0].index, s.output[0].value), PairAt<R>(i));
    }
  }

  lemma ConservedStep<T, R>(job: Job<T, R>, s: State<R>, actor: Actor)
    requires Conserved(job, s) && Truthful(job, s) && Enabled(job, s, actor)
    ensures Conserved(job, Step(job, s, actor))
  {
    forall i: nat
      ensures Places(Step(job, s, actor), i) == One(i < Next(job, Step(job, s, actor)))
    {
      match actor
      case Produce => PlacesProduce(job, s, i);
      case Work(w) => PlacesWork(job, s, w, i);
      case Consume => PlacesConsume(job, s, i);
    }
  }

  lemma SentinelsStep<T, R>(job: Job<T, R>, s: State<R>, actor: Actor)
    requires SentinelsBalance(job, s) && Enabled(job, s, actor)
    ensures SentinelsBalance(job, Step(job, s, actor))
  {
    match actor
    case Produce => SentinelsProduced(job, s);
    case Work(w) => SentinelsWorked(job, s, w);
    case Consume =>
      StoppedAtMostAll(job, s);
      TotalZero(s.output[1..], IsDone<R>);
  }

  lemma SentinelsProduced<T, R>(job: Job<T, R>, s: State<R>)
    requires SentinelsBalance(job, s) && Enabled(job, s, Produce)
    ensures SentinelsBalance(job, Step(job, s, Produce))
  {
    match s.producer
    case Producing(next) => TotalAppend(s.input, Item(next), IsSentinel);
    case Reporting => TotalAppend(s.output, Exc(FromIterator), IsDone<R>);
    case Closing(_) => TotalAppend(s.input, Sentinel, IsSentinel);
  }

  lemma SentinelsWorked<T, R>(job: Job<T, R>, s: State<R>, w: nat)
    requires SentinelsBalance(job, s) && Enabled(job, s, Work(w))
    ensures SentinelsBalance(job, Step(job, s, Work(w)))
  {
    var move := WorkerMove(job, s, w);
    TotalUpdate(s.workers, w, move.0, IsStopping<R>);
    TotalUpdate(s.workers, w, move.0, IsStopped<R>);
    AppendMove(s.output, move.1, IsDone<R>);
  }

  lemma StoppedAtMostAll<T, R>(job: Job<T, R>, s: State<R>)
    requires |s.workers| == job.workers
    ensures Total(s.workers, IsStopped<R>) <= job.workers
  {
    AtMostOneEach(s.workers, IsStopped<R>);
  }

  lemma ItemsFirstStep<T, R>(job: Job<T, R>, s: State<R>, actor: Actor)
    requires ItemsFirst(job, s) && SentinelsBalance(job, s) && Enabled(job, s, actor)
    ensures ItemsFirst(job, Step(job, s, actor))
  {
    TotalZero(s.workers, IsStopping<R>);
    TotalZero(s.workers, IsStopped<R>);
    if actor.Work? {
      ItemsFirstWork(job, s, actor.w);
    } else {
      assert Step(job, s, actor).workers == s.workers;
    }
  }

  lemma ItemsFirstWork<T, R>(job: Job<T, R>, s: State<R>, w: nat)
    requires ItemsFirst(job, s) && Enabled(job, s, Work(w))
    requires Total(s.workers, IsStopping<R>) >= 0 && Total(s.workers, IsStopped<R>) >= 0
    ensures ItemsFirst(job, WorkerStep(job, s, w))
  {
    var move := WorkerMove(job, s, w);
    var t := WorkerStep(job, s, w);
    TotalUpdate(s.workers, w, move.0, IsStopping<R>);
    TotalUpdate(s.workers, w, move.0, IsStopped<R>);
    if s.workers[w].Idle? {
      assert forall p | 0 <= p < |t.input| :: t.input[p] == s.input[p + 1];
    }
  }

  lemma BeforeLastNoneStep<T, R>(job: Job<T, R>, s: State<R>, actor: Actor)
    requires BeforeLastNone(job, s) && SentinelsBalance(job, s) && Enabled(job, s, actor)
    ensures BeforeLastNone(job, Step(job, s, actor))
  {
    var t := Step(job, s, actor);
    if actor.Consume? {
      forall k | 0 <= k < |t.output|
        ensures t.finished + Total(t.output[..k], IsDone<R>) == s.finished + Total(s.output[..k + 1], IsDone<R>)
      {
        assert s.output[..k + 1][1..] == t.output[..k];
      }
    } else {
      StoppedAtMostAll(job, s);
      if actor.Work? && !s.workers[actor.w].Stopped? {
        TotalUpdate(s.workers, actor.w, Stopped, IsStopped<R>);
        AtMostOneEach(s.workers[actor.w := Stopped], IsStopped<R>);
      }
      TotalZero(s.workers, IsStopping<R>);
      TotalZero(s.workers, IsStopped<R>);
      TotalZero(s.input, IsSentinel);
      forall k | 0 <= k < |t.output| && !t.output[k].WorkerDone?
        ensures t.finished + Total(t.output[..k], IsDone<R>) < job.workers
      {
        if k < |s.output| {
          assert t.output[..k] == s.output[..k];
        } else {
          assert t.output[..k] == s.output;
        }
      }
    }
  }

  lemma TruthfulStep<T, R>(job: Job<T, R>, s: State<R>, actor: Actor)
    requires Truthful(job, s) && Enabled(job, s, actor)
    ensures Truthful(job, Step(job, s, actor))
  {
    if actor.Work? {
      TruthfulWork(job, s, actor.w);
    } else if actor.Consume? {
      assert s.output == [s.output[0]] + s.output[1..];
    }
  }

  lemma TruthfulWork<T, R>(job: Job<T, R>, s: State<R>, w: nat)
    requires Truthful(job, s) && Enabled(job, s, Work(w))
    ensures Truthful(job, WorkerStep(job, s, w))
  {
    assert TruePhase(job, s.workers[w]);
    var move := WorkerMove(job, s, w);
    assert s.workers[w].Idle? ==> s.input[0] in s.input;
    assert TruePhase(job, move.0);
    assert forall p | p in s.workers[w := move.0] :: p == move.0 || p in s.workers;
  }

  lemma ExceptionsStep<T, R>(job: Job<T, R>, s: State<R>, actor: Actor)
    requires ExceptionsKept(job, s) && SentinelsBalance(job, s) && Enabled(job, s, actor)
    ensures ExceptionsKept(job, Step(job, s, actor))
  {
    match actor
    case Produce =>
      if s.producer.Reporting? {
        assert Step(job, s, actor).output[|s.output|] == Exc(FromIterator);
      }
      StillThere(s.output, ProducerStep(job, s).output[|s.output|..]);
    case Work(w) => ExceptionsWork(job, s, w);
    case Consume => assert s.output == [s.output[0]] + s.output[1..];
  }

  lemma StillThere<X>(xs: seq<X>, more: seq<X>)
    ensures forall x | x in xs :: x in xs + more
  {
  }

  lemma ExceptionsWork<T, R>(job: Job<T, R>, s: State<R>, w: nat)
    requires ExceptionsKept(job, s) && Enabled(job, s, Work(w))
    ensures ExceptionsKept(job, WorkerStep(job, s, w))
  {
    var move := WorkerMove(job, s, w);
    var t := WorkerStep(job, s, w);
    StillThere(s.output, move.1);
    if Crashed in s.workers {
      var x :| x in s.output && x.Exc?;
      assert x in t.output;
    } else if move.0.Crashed? {
      assert t.output[|s.output|].Exc?;
    } else {
      assert forall p | p in t.workers :: p == move.0 || p in s.workers;
    }
  }

  lemma StepInv<T, R>(job: Job<T, R>, s: State<R>, actor: Actor)
    requires Inv(job, s) && Enabled(job, s, actor)
    ensures Inv(job, Step(job, s, actor))
  {
    ConservedStep(job, s, actor);
    SentinelsStep(job, s, actor);
    ItemsFirstStep(job, s, actor);
    BeforeLastNoneStep(job, s, actor);
    TruthfulStep(job, s, actor);
    ExceptionsStep(job, s, actor);
  }

  // ---------------------------------------------------------------- a normal finish

  /** Everything has been consumed when the consumer counts the last None. */
  lemma ReturnedMeansDrained<T, R>(job: Job<T, R>, s: State<R>)
    requires Inv(job, s) && s.outcome.Returned?
    ensures s.producer == Closing(0) && s.input == [] && s.output == [] && !job.iterRaises
    ensures forall p | p in s.workers :: p.Stopped?
  {
    if s.output != [] {
      assert s.output[0] in s.output && s.output[..0] == [];
    }
    if s.input != [] {
      assert s.input[0] in s.input;
    }
    TotalZero(s.output, IsDone<R>);
    TotalZero(s.input, IsSentinel);
    TotalZero(s.workers, IsStopping<R>);
    StoppedAtMostAll(job, s);
    TotalFull(s.workers, IsStopped<R>);
  }

  /** At a normal finish every index was collected once, with the value of the function, and no call to
      the function or the iterator has raised. */
  lemma CollectedIsComplete<T, R>(job: Job<T, R>, s: State<R>)
    requires Inv(job, s) && s.outcome.Returned?
    ensures !job.iterRaises
    ensures forall i: nat :: Total(s.collected, PairAt<R>(i)) == One(i < |job.items|)
    ensures forall x | x in s.collected :: TrueValue(job, x.index, x.value)
  {
    ReturnedMeansDrained(job, s);
    forall i: nat
      ensures Total(s.collected, PairAt<R>(i)) == One(i < |job.items|)
    {
      assert Places(s, i) == One(i < Next(job, s));
      TotalZero(s.workers, PhaseAt<R>(i));
    }
  }

  /** A normal end means that nothing raised. */
  lemma NormalEndMeansNoRaise<T, R>(job: Job<T, R>, s: State<R>)
    requires Inv(job, s) && s.outcome.Returned?
    ensures !job.iterRaises && forall i | 0 <= i < |job.items| :: job.func(job.items[i]).Value?
  {
    CollectedIsComplete(job, s);
    forall i | 0 <= i < |job.items|
      ensures job.func(job.items[i]).Value?
    {
      TotalZero(s.collected, PairAt<R>(i));
      assert Total(s.collected, PairAt<R>(i)) == 1;
      var x :| x in s.collected && PairAt<R>(i)(x) != 0;
      assert TrueValue(job, x.index, x.value);
    }
  }

  predicate SortedByIndex<R>(pairs: seq<Indexed<R>>)
  {
    forall p, q | 0 <= p < q < |pairs| :: pairs[p].index <= pairs[q].index
  }

  /** The list the caller gets: `[func(item) for item in items]`. */
  function Mapped<T, R>(job: Job<T, R>): (values: seq<R>)
    requires forall i | 0 <= i < |job.items| :: job.func(job.items[i]).Value?
    ensures |values| == |job.items|
  {
    seq(|job.items|, i requires 0 <= i < |job.items| => job.func(job.items[i]).value)
  }

  lemma TakeOut<X>(xs: seq<X>, ys: seq<X>) returns (k: nat)
    requires xs != [] && multiset(xs) == multiset(ys)
    ensures k < |ys| && ys[k] == xs[0] && multiset(xs[1..]) == multiset(ys[..k] + ys[k + 1..])
  {
    assert xs[0] in multiset(ys);
    k :| k < |ys| && ys[k] == xs[0];
    assert ys == ys[..k] + ([ys[k]] + ys[k + 1..]);
    assert xs == [xs[0]] + xs[1..];
    assert multiset(xs[1..]) == multiset(xs) - multiset{xs[0]};
  }

  lemma {:induction false} TotalOfMultiset<X>(xs: seq<X>, ys: seq<X>, g: X -> int)
    requires multiset(xs) == multiset(ys)
    ensures Total(xs, g) == Total(ys, g)
  {
    if xs == [] {
      assert |multiset(ys)| == 0;
    } else {
      var k := TakeOut(xs, ys);
      TotalOfMultiset(xs[1..], ys[..k] + ys[k + 1..], g);
      TotalConcat(ys[..k], ys[k..], g);
      TotalConcat(ys[..k], ys[k + 1..], g);
      assert ys == ys[..k] + ys[k..] && ys[k..][1..] == ys[k + 1..];
    }
  }

  lemma {:induction false} TotalConcat<X>(xs: seq<X>, ys: seq<X>, g: X -> int)
    ensures Total(xs + ys, g) == Total(xs, g) + Total(ys, g)
  {
    if xs == [] {
      assert xs + ys == ys;
    } else {
      assert (xs + ys)[1..] == xs[1..] + ys;
      TotalConcat(xs[1..], ys, g);
    }
  }

  /** Sorted pairs in which every index below n occurs once and no other does are in position. */
  lemma {:induction false} SortedOnce<R>(pairs: seq<Indexed<R>>, n: nat)
    requires SortedByIndex(pairs) && forall i: nat :: Total(pairs, PairAt<R>(i)) == One(i < n)
    ensures |pairs| == n && forall k | 0 <= k < n :: pairs[k].index == k
  {
    if pairs == [] {
      assert Total(pairs, PairAt<R>(0)) == 0;
    } else {
      var last := |pairs| - 1;
      var top, init := pairs[last], pairs[..last];
      assert pairs == init + [top];
      forall i: nat
        ensures Total(init, PairAt<R>(i)) == One(i < n) - One(i == top.index)
        ensures i > top.index ==> Total(init, PairAt<R>(i)) == 0
      {
        TotalAppend(init, top, PairAt<R>(i));
        TotalZero(init, PairAt<R>(i));
      }
      TotalZero(init, PairAt<R>(top.index));
      assert top.index < n;
      assert top.index + 1 >= n by {
        assert Total(init, PairAt<R>(top.index + 1)) == 0;
      }
      SortedOnce(init, n - 1);
    }
  }

  /** Whatever order the workers finished in, sorting the collected pairs gives the mapped list. */
  lemma SortedCollectionIsMap<T, R>(job: Job<T, R>, s: State<R>, indexed: seq<Indexed<R>>)
    requires Inv(job, s) && s.outcome.Returned?
    requires multiset(indexed) == multiset(s.collected) && SortedByIndex(indexed)
    ensures !job.iterRaises && forall i | 0 <= i < |job.items| :: job.func(job.items[i]).Value?
    ensures |indexed| == |job.items| && forall k | 0 <= k < |indexed| :: indexed[k].value == Mapped(job)[k]
  {
    CollectedIsComplete(job, s);
    NormalEndMeansNoRaise(job, s);
    forall i: nat
      ensures Total(indexed, PairAt<R>(i)) == One(i < |job.items|)
    {
      TotalOfMultiset(indexed, s.collected, PairAt<R>(i));
    }
    SortedOnce(indexed, |job.items|);
    forall k | 0 <= k < |indexed|
      ensures TrueValue(job, k, indexed[k].value)
    {
      assert indexed[k] in multiset(indexed);
      assert indexed[k] in s.collected;
    }
  }

  // ---------------------------------------------------------------- progress

  /** Deadlock freedom: while the call has not ended, some step is enabled. */
  lemma NeverStuck<T, R>(job: Job<T, R>, s: State<R>) returns (actor: Actor)
    requires Inv(job, s) && s.outcome.Running? && job.capacity >= 1
    ensures Enabled(job, s, actor)
  {
    TotalZero(s.workers, IsStopping<R>);
    TotalZero(s.input, IsSentinel);
    if s.output != [] {
      actor := Consume;
    } else if w :|
      0 <= w < |s.workers| &&
      (s.workers[w].Working? || s.workers[w].Putting? || s.workers[w].Failing? || s.workers[w].Stopping?) {
      assert TruePhase(job, s.workers[w]);
      actor := Work(w);
    } else if w :| 0 <= w < |s.workers| && s.workers[w].Idle? && s.input != [] {
      actor := Work(w);
    } else {
      assert Crashed !in s.workers;
      SomeoneIdle(job, s);
      assert forall p | p in s.workers :: !p.Stopping?;
      actor := Produce;
    }
  }

  /** If every worker had stopped, the call would have returned. */
  lemma SomeoneIdle<T, R>(job: Job<T, R>, s: State<R>)
    requires SentinelsBalance(job, s) && s.outcome.Running? && s.output == []
    requires forall w | 0 <= w < |s.workers| :: s.workers[w].Idle? || s.workers[w].Stopped?
    ensures exists w :: 0 <= w < |s.workers| && s.workers[w].Idle?
    ensures Total(s.workers, IsStopped<R>) < job.workers
  {
    if forall w | 0 <= w < |s.workers| :: s.workers[w].Stopped? {
      AllStopped(s.workers);
    }
  }

  lemma {:induction false} AllStopped<R>(workers: seq<Phase<R>>)
    requires forall w | 0 <= w < |workers| :: workers[w].Stopped?
    ensures Total(workers, IsStopped<R>) == |workers|
  {
    if workers != [] {
      AllStopped(workers[1..]);
    }
  }

  function EntryWork(e: Entry): int { if e.Item? then 4 else 3 }

  function PhaseWork<R>(p: Phase<R>): int
  {
    match p
    case Working(_) => 3
    case Putting(_, _) => 2
    case Failing(_) => 2
    case Stopping => 2
    case _ => 0
  }

  function ProducerWork<T, R>(job: Job<T, R>, s: State<R>): int
  {
    5 * (|job.items| - Next(job, s)) + 4 * SentinelsLeft(job, s) +
    match s.producer case Producing(_) => 3 case Reporting => 2 case Closing(_) => 0
  }

  /** Steps still to come, at most. */
  function Measure<T, R>(job: Job<T, R>, s: State<R>): int
  {
    ProducerWork(job, s) + Total(s.input, EntryWork) + Total(s.workers, PhaseWork<R>) + |s.output|
  }

  lemma MeasureNonNegative<T, R>(job: Job<T, R>, s: State<R>)
    requires Truthful(job, s)
    ensures Measure(job, s) >= 0
  {
    TotalZero(s.input, EntryWork);
    TotalZero(s.workers, PhaseWork<R>);
  }

  /** Termination: every step, by whoever, brings the call closer to its end. */
  lemma MeasureFalls<T, R>(job: Job<T, R>, s: State<R>, actor: Actor)
    requires Inv(job, s) && Enabled(job, s, actor)
    ensures Measure(job, Step(job, s, actor)) < Measure(job, s)
  {
    match actor
    case Produce => ProducingLowersMeasure(job, s);
    case Work(w) =>
      TotalUpdate(s.workers, w, WorkerMove(job, s, w).0, PhaseWork<R>);
    case Consume =>
  }

  lemma ProducingLowersMeasure<T, R>(job: Job<T, R>, s: State<R>)
    requires Inv(job, s) && Enabled(job, s, Produce)
    ensures Measure(job, Step(job, s, Produce)) < Measure(job, s)
  {
    TotalAppend(s.input, Item(if s.producer.Producing? then s.producer.next else 0), EntryWork);
    TotalAppend(s.input, Sentinel, EntryWork);
  }

  // ---------------------------------------------------------------- runs

  function Actors(workers: nat): set<Actor>
  {
    {Produce, Consume} + (set w: nat | 0 <= w < workers :: Work(w))
  }

  /** What the caller of `map_sync_bounded` sees. */
  datatype MapResult<+R> = InvalidSettings | Mapping(values: seq<R>) | Failure(cause: Cause)

  function Insert<R>(x: Indexed<R>, sorted: seq<Indexed<R>>): (longer: seq<Indexed<R>>)
    ensures multiset(longer) == multiset(sorted) + multiset{x}
  {
    if sorted == [] || x.index <= sorted[0].index then [x] + sorted else
      assert sorted == [sorted[0]] + sorted[1..];
      [sorted[0]] + Insert(x, sorted[1..])
  }

  lemma {:induction false} InsertKeepsOrder<R>(x: Indexed<R>, sorted: seq<Indexed<R>>)
    requires SortedByIndex(sorted)
    ensures SortedByIndex(Insert(x, sorted))
  {
    if sorted != [] && sorted[0].index < x.index {
      var rest := Insert(x, sorted[1..]);
      InsertKeepsOrder(x, sorted[1..]);
      forall y | y in rest
        ensures sorted[0].index <= y.index
      {
        assert y in multiset(rest);
        assert y == x || y in sorted[1..];
      }
    }
  }

  /** list.sort by index, as insertion. */
  function SortPairs<R>(pairs: seq<Indexed<R>>): (indexed: seq<Indexed<R>>)
    ensures multiset(indexed) == multiset(pairs) && SortedByIndex(indexed)
  {
    if pairs == [] then [] else
      assert pairs == [pairs[0]] + pairs[1..];
      var rest := SortPairs(pairs[1..]);
      InsertKeepsOrder(pairs[0], rest);
      Insert(pairs[0], rest)
  }

  /** The whole call under an arbitrary schedule: at every turn any enabled step may be taken.  It always
      ends; a normal end returns the mapped list, in input order, and happens only if nothing raised; if
      the function and the iterator never raise, there is no other end. */
  method MapSyncBounded<T, R>(job: Job<T, R>) returns (result: MapResult<R>)
    ensures result.InvalidSettings? <==> job.workers < 1 || job.capacity < 1
    ensures result.Mapping? ==>
      && !job.iterRaises && (forall i | 0 <= i < |job.items| :: job.func(job.items[i]).Value?)
      && result.values == Mapped(job)
    ensures result.Failure? ==> TrueCause(job, result.cause)
  {
    if job.workers < 1 || job.capacity < 1 {
      return InvalidSettings;
    }
    var s := Start(job);
    StartInv(job);
    while s.outcome.Running?
      invariant Inv(job, s)
      decreases Measure(job, s)
    {
      ghost var possible := NeverStuck(job, s);
      assert possible in Actors(job.workers);
      var actor :| actor in Actors(job.workers) && Enabled(job, s, actor);
      StepInv(job, s, actor);
      MeasureFalls(job, s, actor);
      MeasureNonNegative(job, s);
      s := Step(job, s, actor);
    }
    if s.outcome.RaisedOut? {
      return Failure(s.outcome.cause);
    }
    var indexed := SortPairs(s.collected);
    SortedCollectionIsMap(job, s, indexed);
    var values := seq(|indexed|, k requires 0 <= k < |indexed| => indexed[k].value);
    assert values == Mapped(job);
    return Mapping(values);
  }

  /** A run: the states reached by taking the listed steps, as long as they are enabled. */
  function Run<T, R>(job: Job<T, R>, schedule: seq<Actor>): State<R>
  {
    if schedule == [] then Start(job) else
      var s := Run(job, schedule[..|schedule| - 1]);
      if Enabled(job, s, schedule[|schedule| - 1]) then Step(job, s, schedule[|schedule| - 1]) else s
  }

  lemma {:induction false} InvAlways<T, R>(job: Job<T, R>, schedule: seq<Actor>)
    requires job.workers >= 1
    ensures Inv(job, Run(job, schedule))
  {
    if schedule == [] {
      StartInv(job);
    } else {
      var before := schedule[..|schedule| - 1];
      InvAlways(job, before);
      if Enabled(job, Run(job, before), schedule[|schedule| - 1]) {
        StepInv(job, Run(job, before), schedule[|schedule| - 1]);
      }
    }
  }

  /** If the iterator raises, or the function raises on some item, no schedule ends normally. */
  lemma NoNormalEndAfterRaise<T, R>(job: Job<T, R>, schedule: seq<Actor>)
    requires job.workers >= 1
    requires job.iterRaises || exists i :: 0 <= i < |job.items| && job.func(job.items[i]).Raise?
    ensures !Run(job, schedule).outcome.Returned?
  {
    InvAlways(job, schedule);
    if Run(job, schedule).outcome.Returned? {
      NormalEndMeansNoRaise(job, Run(job, schedule));
    }
  }
}
