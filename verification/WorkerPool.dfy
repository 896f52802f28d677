/**
 * The worker pools of the engine as a system of interleaved steps. Workers share a queue,
 * an outcome list, a first-error slot, a cancel flag and the progress counters; a step is
 * one access to what they share.
 */
module WorkerPool {
  import opened Bytes
  import opened Progress

  /** `inspect_batch` records every result; `process_in_parallel` stops a worker at an error. */
  datatype Mode = Batch | Parallel

  datatype TaskResult<R, E> = Success(value: R) | Failure(error: E) | CancelledTask

  datatype Why = SawCancel | QueueEmpty | Dropped(item: nat) | TaskFailed(item: nat)

  datatype Pc<R, E> =
    | Checking
    | Popping
    | Rechecking(item: nat)
    | Running(item: nat)
    | Finishing(item: nat, result: TaskResult<R, E>)
    | Counting
    | Publishing(count: nat)
    | Stopped(why: Why)

  datatype Outcome<R, E> = Outcome(item: nat, result: TaskResult<R, E>)

  datatype State<R, E> = State(
    queue: seq<nat>,
    pcs: seq<Pc<R, E>>,
    outcomes: seq<Outcome<R, E>>,
    stored: Option<E>,
    cancelled: bool,
    completed: nat,
    percentage: nat)

  datatype Config = Config(mode: Mode, total: nat, maxWorkers: nat) {
    function Workers(): nat {
      Min(Min(Max(maxWorkers, 1), total), 32)
    }
  }

  /** As many workers as are asked for, but one at least, no more than items, and no more than 32. */
  lemma WorkersAtMost(c: Config, n: nat)
    ensures n <= c.Workers() <==> n <= 32 && n <= c.total && (n <= 1 || n <= c.maxWorkers)
  {
  }

  // ---------------------------------------------------------------- steps

  function Init<R, E>(c: Config, cancelled: bool): State<R, E> {
    State(seq<nat>(c.total, i => i), seq(c.Workers(), _ => Checking), [], None, cancelled, 0, 0)
  }

  /**
   * What worker `w` does next: read the flag, pop, read the flag again, run the task, record the
   * outcome (or stop at an error), count it, publish the percentage, and start over.
   */
  function NextPc<R, E>(c: Config, s: State<R, E>, w: nat, r: TaskResult<R, E>): Pc<R, E>
    requires w < |s.pcs|
  {
    match s.pcs[w]
    case Checking => if s.cancelled then Stopped(SawCancel) else Popping
    case Popping => if s.queue == [] then Stopped(QueueEmpty) else Rechecking(s.queue[0])
    case Rechecking(i) => if s.cancelled then Stopped(Dropped(i)) else Running(i)
    case Running(i) => Finishing(i, r)
    case Finishing(i, result) => if c.mode.Batch? || result.Success? then Counting else Stopped(TaskFailed(i))
    case Counting => Publishing(s.completed + 1)
    case Publishing(n) => Checking
    case Stopped(why) => Stopped(why)
  }

  predicate Pops<R, E>(pc: Pc<R, E>, queue: seq<nat>) {
    pc.Popping? && queue != []
  }

  predicate Pushes<R, E>(c: Config, pc: Pc<R, E>) {
    pc.Finishing? && (c.mode.Batch? || pc.result.Success?)
  }

  /** In the parallel mode the first error of any worker is kept; a cancelled task is no error. */
  predicate Stores<R, E>(c: Config, pc: Pc<R, E>) {
    c.mode.Parallel? && pc.Finishing? && pc.result.Failure?
  }

  /** Worker `w` takes its next step; `r` is the result when the step is the run of its task. */
  function Step<R, E>(c: Config, s: State<R, E>, w: nat, r: TaskResult<R, E>): State<R, E>
    requires w < |s.pcs|
  {
    var pc := s.pcs[w];
    State(
      if Pops(pc, s.queue) then s.queue[1..] else s.queue,
      s.pcs[w := NextPc(c, s, w, r)],
      if Pushes(c, pc) then s.outcomes + [Outcome(pc.item, pc.result)] else s.outcomes,
      if Stores(c, pc) && s.stored.None? then Some(pc.result.error) else s.stored,
      s.cancelled,
      if pc.Counting? then s.completed + 1 else s.completed,
      if pc.Publishing? then Percent(pc.count, c.total) else s.percentage)
  }

  /** Worker `w` can move, and what it computes is something the task may return. */
  predicate Enabled<R, E>(s: State<R, E>, w: nat, r: TaskResult<R, E>, may: (nat, TaskResult<R, E>) -> bool) {
    && w < |s.pcs|
    && !s.pcs[w].Stopped?
    && (s.pcs[w].Running? ==> may(s.pcs[w].item, r))
  }

  ghost predicate WorkerStep<R(!new), E(!new)>(c: Config, s: State<R, E>, s': State<R, E>, may: (nat, TaskResult<R, E>) -> bool) {
    exists w: nat, r :: Enabled(s, w, r, may) && s' == Step(c, s, w, r)
  }

  /** Someone raises the cancel flag. */
  predicate CancelStep<R(==), E(==)>(s: State<R, E>, s': State<R, E>) {
    !s.cancelled && s' == s.(cancelled := true)
  }

  ghost predicate Next<R(!new), E(!new)>(c: Config, s: State<R, E>, s': State<R, E>, may: (nat, TaskResult<R, E>) -> bool) {
    WorkerStep(c, s, s', may) || CancelStep(s, s')
  }

  /** A run: an interleaving of worker steps, with the flag raised at most once. */
  ghost predicate Run<R(!new), E(!new)>(c: Config, run: seq<State<R, E>>, may: (nat, TaskResult<R, E>) -> bool) {
    && |run| > 0
    && (run[0] == Init(c, false) || run[0] == Init(c, true))
    && forall k :: 0 <= k < |run| - 1 ==> Next(c, run[k], run[k + 1], may)
  }

  /** A run can be continued by any enabled step. */
  lemma Extend<R(!new), E(!new)>(c: Config, run: seq<State<R, E>>, may: (nat, TaskResult<R, E>) -> bool,
                                 w: nat, r: TaskResult<R, E>) returns (longer: seq<State<R, E>>)
    requires Run(c, run, may) && Enabled(run[|run| - 1], w, r, may)
    ensures Run(c, longer, may) && longer == run + [Step(c, run[|run| - 1], w, r)]
  {
    longer := run + [Step(c, run[|run| - 1], w, r)];
    forall k | 0 <= k < |longer| - 1 ensures Next(c, longer[k], longer[k + 1], may) {
      if k < |run| - 1 {
        assert Next(c, run[k], run[k + 1], may);
      }
    }
  }

  predicate Joined<R, E>(s: State<R, E>) {
    forall w :: 0 <= w < |s.pcs| ==> s.pcs[w].Stopped?
  }

  // ---------------------------------------------------------------- counting

  /** Item `i` is in this worker's hands, or ended with this worker without an outcome. */
  predicate Holds<R, E>(pc: Pc<R, E>, i: nat) {
    || (pc.Rechecking? && pc.item == i)
    || (pc.Running? && pc.item == i)
    || (pc.Finishing? && pc.item == i)
    || (pc.Stopped? && pc.why.Dropped? && pc.why.item == i)
    || (pc.Stopped? && pc.why.TaskFailed? && pc.why.item == i)
  }

  /** How many workers satisfy `p`. */
  function CountPcs<R, E>(pcs: seq<Pc<R, E>>, p: Pc<R, E> -> bool): (n: nat)
    ensures n <= |pcs|
  {
    if pcs == [] then 0 else One(p(pcs[0])) + CountPcs(pcs[1..], p)
  }

  function CountOutcomes<R, E>(outcomes: seq<Outcome<R, E>>, i: nat): nat {
    if outcomes == [] then 0 else One(outcomes[0].item == i) + CountOutcomes(outcomes[1..], i)
  }

  function CountQueue(queue: seq<nat>, i: nat): nat {
    if queue == [] then 0 else One(queue[0] == i) + CountQueue(queue[1..], i)
  }

  function HoldsItem<R, E>(i: nat): Pc<R, E> -> bool {
    (pc: Pc<R, E>) => Holds(pc, i)
  }

  /** In how many places item `i` is. */
  function Places<R, E>(s: State<R, E>, i: nat): nat {
    CountQueue(s.queue, i) + CountPcs(s.pcs, HoldsItem(i)) + CountOutcomes(s.outcomes, i)
  }

  lemma {:induction false} CountUpdate<R, E>(pcs: seq<Pc<R, E>>, w: nat, pc: Pc<R, E>, p: Pc<R, E> -> bool)
    requires w < |pcs|
    ensures CountPcs(pcs[w := pc], p) + One(p(pcs[w])) == CountPcs(pcs, p) + One(p(pc))
  {
    if w > 0 {
      CountUpdate(pcs[1..], w - 1, pc, p);
      assert pcs[w := pc][1..] == pcs[1..][w - 1 := pc];
    } else {
      assert pcs[w := pc][1..] == pcs[1..];
    }
  }

  lemma {:induction false} CountSnoc<R, E>(outcomes: seq<Outcome<R, E>>, o: Outcome<R, E>, i: nat)
    ensures CountOutcomes(outcomes + [o], i) == CountOutcomes(outcomes, i) + One(o.item == i)
  {
    if outcomes == [] {
      assert outcomes + [o] == [o];
    } else {
      CountSnoc(outcomes[1..], o, i);
      assert (outcomes + [o])[1..] == outcomes[1..] + [o];
    }
  }

  lemma {:induction false} CountNone<R, E>(pcs: seq<Pc<R, E>>, p: Pc<R, E> -> bool)
    requires forall w :: 0 <= w < |pcs| ==> !p(pcs[w])
    ensures CountPcs(pcs, p) == 0
  {
    if pcs != [] {
      CountNone(pcs[1..], p);
    }
  }

  lemma {:induction false} CountSome<R, E>(pcs: seq<Pc<R, E>>, p: Pc<R, E> -> bool) returns (w: nat)
    requires CountPcs(pcs, p) > 0
    ensures w < |pcs| && p(pcs[w])
  {
    if p(pcs[0]) {
      return 0;
    }
    w := CountSome(pcs[1..], p);
    w := w + 1;
  }

  lemma {:induction false} CountPositive<R, E>(pcs: seq<Pc<R, E>>, w: nat, p: Pc<R, E> -> bool)
    requires w < |pcs| && p(pcs[w])
    ensures CountPcs(pcs, p) > 0
  {
    if w > 0 {
      CountPositive(pcs[1..], w - 1, p);
    }
  }

  // ---------------------------------------------------------------- invariants

  /** The queue is what is left of the input: a suffix of `0 .. total - 1`. */
  predicate QueueIsSuffix<R, E>(c: Config, s: State<R, E>) {
    && |s.queue| <= c.total
    && forall j :: 0 <= j < |s.queue| ==> s.queue[j] == c.total - |s.queue| + j
  }

  /** The worker has an item, or ended with one that got no outcome. */
  function HasItem<R, E>(): Pc<R, E> -> bool {
    (pc: Pc<R, E>) => pc.Rechecking? || pc.Running? || pc.Finishing? ||
          (pc.Stopped? && (pc.why.Dropped? || pc.why.TaskFailed?))
  }

  function AboutToCount<R, E>(): Pc<R, E> -> bool {
    (pc: Pc<R, E>) => pc.Counting?
  }

  predicate PcOk<R, E>(c: Config, s: State<R, E>, pc: Pc<R, E>, may: (nat, TaskResult<R, E>) -> bool) {
    match pc
    case Rechecking(i) => i < c.total
    case Running(i) => i < c.total
    case Finishing(i, r) => i < c.total && may(i, r)
    case Publishing(n) => 0 < n <= s.completed
    case Stopped(SawCancel) => s.cancelled
    case Stopped(QueueEmpty) => s.queue == []
    case Stopped(Dropped(_)) => s.cancelled
    case Stopped(TaskFailed(i)) => c.mode.Parallel? && i < c.total && (s.stored.Some? || may(i, CancelledTask))
    case _ => true
  }

  predicate OutcomeOk<R, E>(c: Config, o: Outcome<R, E>, may: (nat, TaskResult<R, E>) -> bool) {
    && o.item < c.total && may(o.item, o.result)
    && (c.mode.Parallel? ==> o.result.Success?)
  }

  /** Where things are: the bookkeeping no step upsets. */
  ghost predicate Conserved<R, E>(c: Config, s: State<R, E>) {
    && QueueIsSuffix(c, s)
    // Every item is in exactly one place.
    && (forall i: nat :: Places(s, i) == One(i < c.total))
    && |s.queue| + CountPcs(s.pcs, HasItem()) + |s.outcomes| == c.total
    // Every outcome has been counted, or is about to be.
    && s.completed + CountPcs(s.pcs, AboutToCount()) == |s.outcomes|
  }

  /** Why each worker is where it is. */
  ghost predicate Justified<R, E>(c: Config, s: State<R, E>, may: (nat, TaskResult<R, E>) -> bool) {
    && |s.pcs| == c.Workers()
    && s.percentage <= 100
    && (forall w :: 0 <= w < |s.pcs| ==> PcOk(c, s, s.pcs[w], may))
    && (forall k :: 0 <= k < |s.outcomes| ==> OutcomeOk(c, s.outcomes[k], may))
    && (s.stored.Some? ==> exists i: nat :: i < c.total && may(i, Failure(s.stored.value)))
  }

  ghost predicate Inv<R, E>(c: Config, s: State<R, E>, may: (nat, TaskResult<R, E>) -> bool) {
    Conserved(c, s) && Justified(c, s, may)
  }

  lemma {:induction false} QueueCount(from: nat, queue: seq<nat>, i: nat)
    requires forall j :: 0 <= j < |queue| ==> queue[j] == from + j
    ensures CountQueue(queue, i) == One(from <= i < from + |queue|)
    decreases |queue|
  {
    if queue != [] {
      QueueCount(from + 1, queue[1..], i);
    }
  }

  lemma InitInv<R, E>(c: Config, cancelled: bool, may: (nat, TaskResult<R, E>) -> bool)
    ensures Inv(c, Init<R, E>(c, cancelled), may)
  {
    var s := Init<R, E>(c, cancelled);
    forall i: nat ensures Places(s, i) == One(i < c.total) {
      QueueCount(0, s.queue, i);
      CountNone(s.pcs, HoldsItem(i));
    }
    CountNone(s.pcs, HasItem());
    CountNone(s.pcs, AboutToCount());
  }

  /** A step moves an item, but never duplicates or loses one. */
  lemma StepKeepsPlaces<R, E>(c: Config, s: State<R, E>, w: nat, r: TaskResult<R, E>, i: nat)
    requires w < |s.pcs|
    ensures Places(Step(c, s, w, r), i) == Places(s, i)
  {
    CountUpdate(s.pcs, w, NextPc(c, s, w, r), HoldsItem(i));
    if Pushes(c, s.pcs[w]) {
      CountSnoc(s.outcomes, Outcome(s.pcs[w].item, s.pcs[w].result), i);
    }
  }

  lemma StepConserves<R, E>(c: Config, s: State<R, E>, w: nat, r: TaskResult<R, E>)
    requires Conserved(c, s) && w < |s.pcs|
    ensures Conserved(c, Step(c, s, w, r))
  {
    var s' := Step(c, s, w, r);
    CountUpdate(s.pcs, w, NextPc(c, s, w, r), HasItem());
    CountUpdate(s.pcs, w, NextPc(c, s, w, r), AboutToCount());
    forall i: nat ensures Places(s', i) == One(i < c.total) {
      StepKeepsPlaces(c, s, w, r, i);
    }
  }

  lemma StepJustified<R, E>(c: Config, s: State<R, E>, w: nat, r: TaskResult<R, E>, may: (nat, TaskResult<R, E>) -> bool)
    requires Inv(c, s, may) && Enabled(s, w, r, may)
    ensures Justified(c, Step(c, s, w, r), may)
  {
    var s' := Step(c, s, w, r);
    assert PcOk(c, s, s.pcs[w], may);
    forall v | 0 <= v < |s'.pcs| ensures PcOk(c, s', s'.pcs[v], may) {
      assert PcOk(c, s, s.pcs[v], may);
    }
    forall k | 0 <= k < |s'.outcomes| ensures OutcomeOk(c, s'.outcomes[k], may) {
      if k < |s.outcomes| {
        assert OutcomeOk(c, s.outcomes[k], may);
      }
    }
    if s.pcs[w].Publishing? {
      PercentBounds(s.pcs[w].count, c.total);
    }
  }

  lemma NextInv<R(!new), E(!new)>(c: Config, s: State<R, E>, s': State<R, E>, may: (nat, TaskResult<R, E>) -> bool)
    requires Inv(c, s, may) && Next(c, s, s', may)
    ensures Inv(c, s', may)
  {
    if WorkerStep(c, s, s', may) {
      var w: nat, r :| Enabled(s, w, r, may) && s' == Step(c, s, w, r);
      StepConserves(c, s, w, r);
      StepJustified(c, s, w, r, may);
    } else {
      forall i: nat ensures Places(s', i) == One(i < c.total) {
        assert Places(s, i) == One(i < c.total);
      }
      forall w | 0 <= w < |s'.pcs| ensures PcOk(c, s', s'.pcs[w], may) {
        assert PcOk(c, s, s.pcs[w], may);
      }
    }
  }

  /** The invariant holds in every state of every run. */
  lemma {:induction false} RunInv<R(!new), E(!new)>(c: Config, run: seq<State<R, E>>, may: (nat, TaskResult<R, E>) -> bool, k: nat)
    requires Run(c, run, may) && k < |run|
    ensures Inv(c, run[k], may)
  {
    if k == 0 {
      InitInv<R, E>(c, run[0].cancelled, may);
    } else {
      RunInv(c, run, may, k - 1);
      NextInv(c, run[k - 1], run[k], may);
    }
  }

  // ---------------------------------------------------------------- shutdown and join

  /** The flag, once raised, stays raised; outcomes and the counter only grow. */
  lemma {:induction false} RunGrows<R(!new), E(!new)>(c: Config, run: seq<State<R, E>>, may: (nat, TaskResult<R, E>) -> bool, i: nat, j: nat)
    requires Run(c, run, may) && i <= j < |run|
    ensures run[i].cancelled ==> run[j].cancelled
    ensures run[i].completed <= run[j].completed
    ensures run[i].outcomes <= run[j].outcomes
    decreases j
  {
    if i < j {
      RunGrows(c, run, may, i, j - 1);
      assert Next(c, run[j - 1], run[j], may);
    }
  }

  /** Past the second look at the flag: this worker will still add its outcome. */
  function Committed<R, E>(): Pc<R, E> -> bool {
    (pc: Pc<R, E>) => pc.Running? || pc.Finishing?
  }

  lemma CommittedStep<R, E>(c: Config, s: State<R, E>, w: nat, r: TaskResult<R, E>)
    requires w < |s.pcs| && s.cancelled
    ensures var s' := Step(c, s, w, r);
            |s'.outcomes| + CountPcs(s'.pcs, Committed()) <= |s.outcomes| + CountPcs(s.pcs, Committed())
  {
    CountUpdate(s.pcs, w, NextPc(c, s, w, r), Committed());
  }

  lemma CommittedNext<R(!new), E(!new)>(c: Config, s: State<R, E>, s': State<R, E>, may: (nat, TaskResult<R, E>) -> bool)
    requires Next(c, s, s', may) && s.cancelled
    ensures |s'.outcomes| + CountPcs(s'.pcs, Committed()) <= |s.outcomes| + CountPcs(s.pcs, Committed())
  {
    var w: nat, r :| Enabled(s, w, r, may) && s' == Step(c, s, w, r);
    CommittedStep(c, s, w, r);
  }

  /** Once the flag is raised, only the workers already past it add outcomes: at most one each. */
  lemma {:induction false} BoundedShutdown<R(!new), E(!new)>(c: Config, run: seq<State<R, E>>, may: (nat, TaskResult<R, E>) -> bool, i: nat, j: nat)
    requires Run(c, run, may) && i <= j < |run| && run[i].cancelled
    ensures |run[j].outcomes| + CountPcs(run[j].pcs, Committed()) <= |run[i].outcomes| + CountPcs(run[i].pcs, Committed())
    ensures |run[j].outcomes| <= |run[i].outcomes| + c.Workers()
    decreases j
  {
    RunInv(c, run, may, i);
    if i < j {
      BoundedShutdown(c, run, may, i, j - 1);
      RunGrows(c, run, may, i, j - 1);
      assert Next(c, run[j - 1], run[j], may);
      CommittedNext(c, run[j - 1], run[j], may);
    }
  }

  /**
   * When every worker has stopped: what was popped is a prefix of the input, and each item of
   * it has an outcome except those a stopped worker still holds. Nothing counted is missing.
   */
  lemma JoinAccounts<R(!new), E(!new)>(c: Config, run: seq<State<R, E>>, may: (nat, TaskResult<R, E>) -> bool)
    requires Run(c, run, may) && Joined(run[|run| - 1])
    ensures var s := run[|run| - 1];
            var popped := c.total - |s.queue|;
            && (forall i: nat :: CountOutcomes(s.outcomes, i) + CountPcs(s.pcs, HoldsItem(i)) == One(i < popped))
            && |s.outcomes| + CountPcs(s.pcs, HasItem()) == popped
            && CountPcs(s.pcs, HasItem()) <= c.Workers()
            && s.completed == |s.outcomes| <= c.total
  {
    var s := run[|run| - 1];
    RunInv(c, run, may, |run| - 1);
    CountNone(s.pcs, AboutToCount());
    forall i: nat
      ensures CountOutcomes(s.outcomes, i) + CountPcs(s.pcs, HoldsItem(i)) == One(i < c.total - |s.queue|)
    {
      QueueCount(c.total - |s.queue|, s.queue, i);
      assert Places(s, i) == One(i < c.total);
    }
  }

  /** A batch that was never cancelled has an outcome for every image. */
  lemma UncancelledBatchIsComplete<R(!new), E(!new)>(c: Config, run: seq<State<R, E>>, may: (nat, TaskResult<R, E>) -> bool)
    requires Run(c, run, may) && Joined(run[|run| - 1]) && !run[|run| - 1].cancelled
    requires c.mode.Batch?
    ensures var s := run[|run| - 1];
            s.queue == [] && |s.outcomes| == c.total && forall i: nat :: CountOutcomes(s.outcomes, i) == One(i < c.total)
  {
    var s := run[|run| - 1];
    JoinAccounts(c, run, may);
    RunInv(c, run, may, |run| - 1);
    forall w | 0 <= w < |s.pcs| ensures s.pcs[w] == Stopped(QueueEmpty) {
      assert PcOk(c, s, s.pcs[w], may);
    }
    CountNone(s.pcs, HasItem());
    if c.total > 0 {
      assert PcOk(c, s, s.pcs[0], may);
    }
    forall i: nat ensures CountOutcomes(s.outcomes, i) == One(i < c.total) {
      CountNone(s.pcs, HoldsItem(i));
    }
  }

  // ---------------------------------------------------------------- termination

  function Weight<R, E>(pc: Pc<R, E>): nat {
    match pc
    case Checking => 2
    case Popping => 1
    case Rechecking(_) => 8
    case Running(_) => 7
    case Finishing(_, _) => 6
    case Counting => 5
    case Publishing(_) => 4
    case Stopped(_) => 0
  }

  function Weights<R, E>(pcs: seq<Pc<R, E>>): nat {
    if pcs == [] then 0 else Weight(pcs[0]) + Weights(pcs[1..])
  }

  /** How many steps are left at most. */
  function Remaining<R, E>(s: State<R, E>): nat {
    8 * |s.queue| + Weights(s.pcs) + One(!s.cancelled)
  }

  lemma {:induction false} WeightUpdate<R, E>(pcs: seq<Pc<R, E>>, w: nat, pc: Pc<R, E>)
    requires w < |pcs|
    ensures Weights(pcs[w := pc]) + Weight(pcs[w]) == Weights(pcs) + Weight(pc)
  {
    if w > 0 {
      WeightUpdate(pcs[1..], w - 1, pc);
      assert pcs[w := pc][1..] == pcs[1..][w - 1 := pc];
    } else {
      assert pcs[w := pc][1..] == pcs[1..];
    }
  }

  lemma {:induction false} InitWeights<R, E>(pcs: seq<Pc<R, E>>)
    requires forall w :: 0 <= w < |pcs| ==> pcs[w] == Checking
    ensures Weights(pcs) == 2 * |pcs|
  {
    if pcs != [] {
      InitWeights(pcs[1..]);
    }
  }

  lemma NextDecreases<R(!new), E(!new)>(c: Config, s: State<R, E>, s': State<R, E>, may: (nat, TaskResult<R, E>) -> bool)
    requires Next(c, s, s', may)
    ensures Remaining(s') < Remaining(s)
  {
    if WorkerStep(c, s, s', may) {
      var w: nat, r :| Enabled(s, w, r, may) && s' == Step(c, s, w, r);
      WeightUpdate(s.pcs, w, NextPc(c, s, w, r));
    }
  }

  /** No interleaving runs for ever: the number of steps is bounded by the input. */
  lemma {:induction false} RunsAreBounded<R(!new), E(!new)>(c: Config, run: seq<State<R, E>>, may: (nat, TaskResult<R, E>) -> bool, k: nat)
    requires Run(c, run, may) && k < |run|
    ensures k + Remaining(run[k]) <= 8 * c.total + 2 * c.Workers() + 1
  {
    if k == 0 {
      InitWeights(run[0].pcs);
    } else {
      RunsAreBounded(c, run, may, k - 1);
      NextDecreases(c, run[k - 1], run[k], may);
    }
  }

  /** A run that can go no further has joined: no worker waits for another. */
  lemma NoDeadlock<R(!new), E(!new)>(c: Config, s: State<R, E>, may: (nat, TaskResult<R, E>) -> bool, answer: nat -> TaskResult<R, E>)
    requires forall i: nat :: may(i, answer(i))
    requires !Joined(s)
    ensures exists s' :: WorkerStep(c, s, s', may)
  {
    var w: nat :| w < |s.pcs| && !s.pcs[w].Stopped?;
    var r := if s.pcs[w].Running? then answer(s.pcs[w].item) else CancelledTask;
    assert Enabled(s, w, r, may);
    assert WorkerStep(c, s, Step(c, s, w, r), may);
  }
}
