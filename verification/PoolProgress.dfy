/** What a poller sees while a pool runs, and what the stored percentage field does meanwhile. */
module PoolProgress {
  import opened Bytes
  import opened Progress
  import opened WorkerPool

  // ---------------------------------------------------------------- snapshots

  /** The counters stand as in a state of a run. */
  ghost predicate Mirrors<R, E>(p: InspectionProgress, c: Config, s: State<R, E>)
    reads p
  {
    p.totalTasks == c.total && p.completedTasks == s.completed && p.percentage == s.percentage
  }

  /** Counting a task and publishing its percentage without another worker in between. */
  function Counted<R, E>(c: Config, s: State<R, E>, w: nat, r: TaskResult<R, E>): State<R, E>
    requires w < |s.pcs|
  {
    Step(c, Step(c, s, w, r), w, r)
  }

  /** An increment does to the counters what two uninterrupted steps of a worker do. */
  method Increment<R, E>(p: InspectionProgress, ghost c: Config, ghost s: State<R, E>, ghost w: nat,
                         ghost r: TaskResult<R, E>)
    requires Mirrors(p, c, s) && w < |s.pcs| && s.pcs[w].Counting?
    requires c.total > 0 && s.completed + 1 < U64_LIMIT
    modifies p`completedTasks, p`percentage
    ensures Mirrors(p, c, Counted(c, s, w, r))
    ensures Counted(c, s, w, r).pcs == s.pcs[w := Checking]
  {
    p.IncrementCompletedTasks();
  }

  /** What a poller is shown in a state. */
  predicate Shows<R, E>(c: Config, s: State<R, E>, shot: Snapshot) {
    && shot.completedTasks == s.completed && shot.totalTasks == c.total
    && (c.total > 0 ==> shot.percentage == Percent(s.completed, c.total))
  }

  method Poll<R, E>(p: InspectionProgress, ghost c: Config, ghost s: State<R, E>) returns (shot: Snapshot)
    requires Mirrors(p, c, s)
    ensures Shows(c, s, shot)
  {
    shot := p.TakeSnapshot();
    if c.total > 0 {
      PercentIsFloor(s.completed, c.total);
      ghost var exact := shot.(percentage := Percent(s.completed, c.total));
      SnapshotsInOrder(shot, exact);
      SnapshotsInOrder(exact, shot);
    }
  }

  /**
   * Successive snapshots of one batch never go back. The percentage they show is at most 100, and
   * is 100 exactly when every task has been counted.
   */
  lemma PollsAreMonotone<R(!new), E(!new)>(c: Config, run: seq<State<R, E>>, may: (nat, TaskResult<R, E>) -> bool,
                                           i: nat, j: nat, a: Snapshot, b: Snapshot)
    requires Run(c, run, may) && i <= j < |run| && c.total > 0
    requires Shows(c, run[i], a) && Shows(c, run[j], b)
    ensures a.completedTasks <= b.completedTasks <= c.total
    ensures a.percentage <= b.percentage <= 100
    ensures b.percentage == 100 <==> b.completedTasks == c.total
  {
    RunGrows(c, run, may, i, j);
    RunInv(c, run, may, j);
    PercentMonotone(run[i].completed, run[j].completed, c.total);
    PercentBounds(run[j].completed, c.total);
  }

  // ---------------------------------------------------------------- the stored field with one worker

  /** With one worker, what it is about to publish is the present count. */
  predicate InStep<R, E>(c: Config, s: State<R, E>) {
    && |s.pcs| <= 1
    && s.percentage <= Percent(s.completed, c.total)
    && forall w :: 0 <= w < |s.pcs| && s.pcs[w].Publishing? ==> s.pcs[w].count == s.completed
  }

  lemma InStepNext<R(!new), E(!new)>(c: Config, s: State<R, E>, s': State<R, E>, may: (nat, TaskResult<R, E>) -> bool)
    requires InStep(c, s) && Next(c, s, s', may)
    ensures InStep(c, s') && s.percentage <= s'.percentage
  {
    PercentMonotone(s.completed, s.completed + 1, c.total);
  }

  lemma {:induction false} InStepRun<R(!new), E(!new)>(c: Config, run: seq<State<R, E>>, may: (nat, TaskResult<R, E>) -> bool, k: nat)
    requires Run(c, run, may) && k < |run| && c.Workers() <= 1
    ensures InStep(c, run[k])
  {
    if k > 0 {
      InStepRun(c, run, may, k - 1);
      InStepNext(c, run[k - 1], run[k], may);
    }
  }

  // ---------------------------------------------------------------- the stored field with several

  /** Every task may give this answer, and a worker that gets it goes on. */
  ghost predicate Answered<R, E>(c: Config, may: (nat, TaskResult<R, E>) -> bool, answer: nat -> TaskResult<R, E>) {
    forall i: nat :: may(i, answer(i)) && (c.mode.Batch? || answer(i).Success?)
  }

  /** A worker at the top of its loop, with work to do. */
  predicate MayStart<R, E>(s: State<R, E>, w: nat) {
    w < |s.pcs| && s.pcs[w] == Checking && s.queue != [] && !s.cancelled
  }

  /** The state after such a worker has taken an item, run it, recorded and counted it. */
  function AfterTask<R, E>(s: State<R, E>, w: nat, answer: nat -> TaskResult<R, E>): State<R, E>
    requires MayStart(s, w)
  {
    s.(queue := s.queue[1..],
       pcs := s.pcs[w := Publishing(s.completed + 1)],
       outcomes := s.outcomes + [Outcome(s.queue[0], answer(s.queue[0]))],
       completed := s.completed + 1)
  }

  lemma ThreeSteps<R(!new), E(!new)>(c: Config, run: seq<State<R, E>>, may: (nat, TaskResult<R, E>) -> bool, w: nat,
                                     r: TaskResult<R, E>, second: State<R, E>, third: State<R, E>)
    returns (longer: seq<State<R, E>>)
    requires Run(c, run, may) && Enabled(run[|run| - 1], w, r, may) && second == Step(c, run[|run| - 1], w, r)
    requires Enabled(second, w, r, may) && third == Step(c, second, w, r) && Enabled(third, w, r, may)
    ensures Run(c, longer, may) && longer[|longer| - 1] == Step(c, third, w, r)
  {
    longer := Extend(c, run, may, w, r);
    longer := Extend(c, longer, may, w, r);
    longer := Extend(c, longer, may, w, r);
  }

  lemma Overwritten<T>(s: seq<T>, w: nat, x: T, y: T)
    requires w < |s|
    ensures s[w := x][w := y] == s[w := y]
  {
  }

  /** From the top of the loop: the flag is read, an item taken, and the flag read again. */
  lemma Taking<R, E>(c: Config, s: State<R, E>, w: nat, r: TaskResult<R, E>)
    requires MayStart(s, w)
    ensures var item := s.queue[0];
            var second, third := s.(pcs := s.pcs[w := Popping]), s.(queue := s.queue[1..], pcs := s.pcs[w := Rechecking(item)]);
            && second == Step(c, s, w, r) && third == Step(c, second, w, r)
            && Step(c, third, w, r) == third.(pcs := s.pcs[w := Running(item)])
  {
    var item := s.queue[0];
    Overwritten(s.pcs, w, Popping, Rechecking(item));
    Overwritten(s.pcs, w, Rechecking(item), Running(item));
  }

  /** The task is run, its outcome recorded, and the task counted. */
  lemma Recording<R, E>(c: Config, s: State<R, E>, w: nat, r: TaskResult<R, E>)
    requires w < |s.pcs| && s.pcs[w].Running? && (c.mode.Batch? || r.Success?)
    ensures var item := s.pcs[w].item;
            var second := s.(pcs := s.pcs[w := Finishing(item, r)]);
            var third := s.(pcs := s.pcs[w := Counting], outcomes := s.outcomes + [Outcome(item, r)]);
            && second == Step(c, s, w, r) && third == Step(c, second, w, r)
            && Step(c, third, w, r) ==
               third.(pcs := s.pcs[w := Publishing(s.completed + 1)], completed := s.completed + 1)
  {
    var item := s.pcs[w].item;
    Overwritten(s.pcs, w, Finishing(item, r), Counting);
    Overwritten(s.pcs, w, Counting, Publishing(s.completed + 1));
  }

  lemma TakeTask<R(!new), E(!new)>(c: Config, run: seq<State<R, E>>, may: (nat, TaskResult<R, E>) -> bool,
                                   w: nat, r: TaskResult<R, E>) returns (longer: seq<State<R, E>>)
    requires Run(c, run, may) && MayStart(run[|run| - 1], w)
    ensures Run(c, longer, may)
    ensures var s := run[|run| - 1];
            longer[|longer| - 1] == s.(queue := s.queue[1..], pcs := s.pcs[w := Running(s.queue[0])])
  {
    var s := run[|run| - 1];
    Taking(c, s, w, r);
    longer := ThreeSteps(c, run, may, w, r, s.(pcs := s.pcs[w := Popping]),
                         s.(queue := s.queue[1..], pcs := s.pcs[w := Rechecking(s.queue[0])]));
  }

  lemma RecordTask<R(!new), E(!new)>(c: Config, run: seq<State<R, E>>, may: (nat, TaskResult<R, E>) -> bool,
                                     w: nat, r: TaskResult<R, E>) returns (longer: seq<State<R, E>>)
    requires Run(c, run, may)
    requires var s := run[|run| - 1];
             w < |s.pcs| && s.pcs[w].Running? && may(s.pcs[w].item, r) && (c.mode.Batch? || r.Success?)
    ensures Run(c, longer, may)
    ensures var s := run[|run| - 1];
            longer[|longer| - 1] == s.(pcs := s.pcs[w := Publishing(s.completed + 1)],
                                       outcomes := s.outcomes + [Outcome(s.pcs[w].item, r)],
                                       completed := s.completed + 1)
  {
    var s := run[|run| - 1];
    var item := s.pcs[w].item;
    Recording(c, s, w, r);
    longer := ThreeSteps(c, run, may, w, r, s.(pcs := s.pcs[w := Finishing(item, r)]),
                         s.(pcs := s.pcs[w := Counting], outcomes := s.outcomes + [Outcome(item, r)]));
  }

  /** Six steps take a worker from the top of its loop to where it has recorded and counted an item. */
  lemma SixSteps<R(!new), E(!new)>(c: Config, run: seq<State<R, E>>, may: (nat, TaskResult<R, E>) -> bool,
                                   answer: nat -> TaskResult<R, E>, w: nat) returns (longer: seq<State<R, E>>)
    requires Answered(c, may, answer) && Run(c, run, may) && MayStart(run[|run| - 1], w)
    ensures Run(c, longer, may) && longer[|longer| - 1] == AfterTask(run[|run| - 1], w, answer)
  {
    var item := run[|run| - 1].queue[0];
    longer := TakeTask(c, run, may, w, answer(item));
    longer := RecordTask(c, longer, may, w, answer(item));
  }

  /** All workers are at the top of their loops and `k` tasks have been counted. */
  predicate Resting<R, E>(c: Config, s: State<R, E>, k: nat) {
    && k <= c.total && |s.queue| == c.total - k && s.completed == k && !s.cancelled
    && |s.pcs| == c.Workers() && forall w :: 0 <= w < |s.pcs| ==> s.pcs[w] == Checking
  }

  /** The first worker alone can finish any number of tasks. */
  lemma {:induction false} FinishSome<R(!new), E(!new)>(c: Config, may: (nat, TaskResult<R, E>) -> bool,
                                                        answer: nat -> TaskResult<R, E>, k: nat)
    returns (run: seq<State<R, E>>)
    requires Answered(c, may, answer) && k <= c.total
    ensures Run(c, run, may) && Resting(c, run[|run| - 1], k)
    decreases k
  {
    if k == 0 {
      run := [Init<R, E>(c, false)];
    } else {
      run := FinishSome(c, may, answer, k - 1);
      var s := run[|run| - 1];
      run := SixSteps(c, run, may, answer, 0);
      run := Extend(c, run, may, 0, answer(0));
      assert run[|run| - 1].pcs == s.pcs;
    }
  }

  /** Some step of the run lowers the stored percentage. */
  ghost predicate Drops<R, E>(run: seq<State<R, E>>) {
    exists k: nat :: k + 1 < |run| && run[k + 1].percentage < run[k].percentage
  }

  /** Two workers have counted the last two tasks, and neither has published. */
  predicate Racing<R, E>(c: Config, s: State<R, E>) {
    && c.total > 0 && |s.pcs| >= 2
    && s.pcs[0] == Publishing(c.total - 1) && s.pcs[1] == Publishing(c.total)
  }

  lemma ReachRace<R(!new), E(!new)>(c: Config, may: (nat, TaskResult<R, E>) -> bool, answer: nat -> TaskResult<R, E>)
    returns (run: seq<State<R, E>>)
    requires Answered(c, may, answer) && c.Workers() >= 2
    ensures Run(c, run, may) && Racing(c, run[|run| - 1])
  {
    run := FinishSome(c, may, answer, c.total - 2);
    var s := run[|run| - 1];
    assert MayStart(s, 0);
    run := SixSteps(c, run, may, answer, 0);
    var t := run[|run| - 1];
    assert MayStart(t, 1) && t.pcs[0] == Publishing(c.total - 1) && t.completed == c.total - 1;
    run := SixSteps(c, run, may, answer, 1);
  }

  /** They publish in the opposite order. */
  lemma PublishLate<R(!new), E(!new)>(c: Config, race: seq<State<R, E>>, may: (nat, TaskResult<R, E>) -> bool,
                                      r: TaskResult<R, E>) returns (run: seq<State<R, E>>)
    requires Run(c, race, may) && Racing(c, race[|race| - 1])
    ensures Run(c, run, may) && Drops(run)
  {
    run := Extend(c, race, may, 1, r);
    var late := run[|run| - 1];
    assert late.percentage == Percent(c.total, c.total) && late.pcs[0] == Publishing(c.total - 1);
    run := Extend(c, run, may, 0, r);
    PercentBounds(c.total, c.total);
    PercentBounds(c.total - 1, c.total);
    assert run[|run| - 2] == late && run[|run| - 1].percentage == Percent(c.total - 1, c.total);
  }

  lemma TwoWorkersDrop<R(!new), E(!new)>(c: Config, may: (nat, TaskResult<R, E>) -> bool, answer: nat -> TaskResult<R, E>)
    returns (run: seq<State<R, E>>)
    requires Answered(c, may, answer) && c.Workers() >= 2
    ensures Run(c, run, may) && Drops(run)
  {
    var race := ReachRace(c, may, answer);
    run := PublishLate(c, race, may, answer(0));
  }

  /**
   * The stored percentage field can go back, because a worker that counted first may publish
   * last, exactly when the pool has at least two workers. Only the percentage recomputed from the
   * counters is always monotone.
   */
  lemma StoredPercentageDropsExactly<R(!new), E(!new)>(c: Config, may: (nat, TaskResult<R, E>) -> bool,
                                                       answer: nat -> TaskResult<R, E>)
    requires Answered(c, may, answer)
    ensures (exists run: seq<State<R, E>> :: Run(c, run, may) && Drops(run)) <==> c.Workers() >= 2
  {
    if c.Workers() >= 2 {
      var run := TwoWorkersDrop(c, may, answer);
    } else {
      forall run: seq<State<R, E>> | Run(c, run, may) ensures !Drops(run) {
        OneWorkerNeverDrops(c, run, may);
      }
    }
  }

  lemma OneWorkerNeverDrops<R(!new), E(!new)>(c: Config, run: seq<State<R, E>>, may: (nat, TaskResult<R, E>) -> bool)
    requires Run(c, run, may) && c.Workers() <= 1
    ensures !Drops(run)
  {
    forall k: nat | k + 1 < |run| ensures run[k].percentage <= run[k + 1].percentage {
      InStepRun(c, run, may, k);
      InStepNext(c, run[k], run[k + 1], may);
    }
  }
}
