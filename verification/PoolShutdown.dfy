/**
 * What happens to the queue once the cancel flag is up. A worker that had read the flag before it
 * was raised may still take one item; such an item is put aside without being started.
 */
module PoolShutdown {
  import opened Bytes
  import opened WorkerPool

  /** This worker has read the flag as unset and is about to take an item. */
  function AtQueue<R, E>(): Pc<R, E> -> bool {
    (pc: Pc<R, E>) => pc.Popping?
  }

  lemma PullStep<R, E>(c: Config, s: State<R, E>, w: nat, r: TaskResult<R, E>)
    requires w < |s.pcs| && s.cancelled
    ensures var s' := Step(c, s, w, r);
            CountPcs(s'.pcs, AtQueue()) + |s.queue| <= CountPcs(s.pcs, AtQueue()) + |s'.queue|
  {
    CountUpdate(s.pcs, w, NextPc(c, s, w, r), AtQueue());
  }

  lemma PullNext<R(!new), E(!new)>(c: Config, s: State<R, E>, s': State<R, E>, may: (nat, TaskResult<R, E>) -> bool)
    requires Next(c, s, s', may) && s.cancelled
    ensures CountPcs(s'.pcs, AtQueue()) + |s.queue| <= CountPcs(s.pcs, AtQueue()) + |s'.queue|
  {
    var w: nat, r :| Enabled(s, w, r, may) && s' == Step(c, s, w, r);
    PullStep(c, s, w, r);
  }

  /** Once the flag is raised, only the workers then about to take an item still take one. */
  lemma {:induction false} BoundedPulls<R(!new), E(!new)>(c: Config, run: seq<State<R, E>>,
                                                          may: (nat, TaskResult<R, E>) -> bool, i: nat, j: nat)
    requires Run(c, run, may) && i <= j < |run| && run[i].cancelled
    ensures CountPcs(run[j].pcs, AtQueue()) + |run[i].queue| <= CountPcs(run[i].pcs, AtQueue()) + |run[j].queue|
    ensures |run[i].queue| <= |run[j].queue| + c.Workers()
    decreases j
  {
    RunInv(c, run, may, i);
    if i < j {
      BoundedPulls(c, run, may, i, j - 1);
      RunGrows(c, run, may, i, j - 1);
      assert Next(c, run[j - 1], run[j], may);
      PullNext(c, run[j - 1], run[j], may);
    }
  }

  // ---------------------------------------------------------------- when an item is still taken

  predicate MayPull<R, E>(s: State<R, E>) {
    s.queue != [] && exists w :: 0 <= w < |s.pcs| && s.pcs[w].Popping?
  }

  /** This continuation of the run takes another item. */
  ghost predicate TakesMore<R(!new), E(!new)>(c: Config, run: seq<State<R, E>>, longer: seq<State<R, E>>,
                                              may: (nat, TaskResult<R, E>) -> bool)
    requires run != []
  {
    Run(c, longer, may) && run <= longer && |longer[|longer| - 1].queue| < |run[|run| - 1].queue|
  }

  ghost predicate Pulls<R(!new), E(!new)>(c: Config, run: seq<State<R, E>>, may: (nat, TaskResult<R, E>) -> bool)
    requires run != []
  {
    exists longer: seq<State<R, E>> :: TakesMore(c, run, longer, may)
  }

  lemma {:induction false} NoneCountedPcs<R, E>(pcs: seq<Pc<R, E>>)
    requires CountPcs(pcs, AtQueue()) > 0
    ensures exists w :: 0 <= w < |pcs| && pcs[w].Popping?
  {
    if !pcs[0].Popping? {
      NoneCountedPcs(pcs[1..]);
      var w :| 0 <= w < |pcs[1..]| && pcs[1..][w].Popping?;
      assert pcs[w + 1].Popping?;
    }
  }

  lemma TakerWasReady<R(!new), E(!new)>(c: Config, run: seq<State<R, E>>, longer: seq<State<R, E>>,
                                        may: (nat, TaskResult<R, E>) -> bool)
    requires run != [] && run[|run| - 1].cancelled && TakesMore(c, run, longer, may)
    ensures MayPull(run[|run| - 1])
  {
    assert longer[|run| - 1] == run[|run| - 1];
    BoundedPulls(c, longer, may, |run| - 1, |longer| - 1);
    NoneCountedPcs(run[|run| - 1].pcs);
  }

  lemma ReadyTakes<R(!new), E(!new)>(c: Config, run: seq<State<R, E>>, may: (nat, TaskResult<R, E>) -> bool)
    returns (longer: seq<State<R, E>>)
    requires Run(c, run, may) && MayPull(run[|run| - 1])
    ensures TakesMore(c, run, longer, may)
  {
    var s := run[|run| - 1];
    var w: nat :| w < |s.pcs| && s.pcs[w].Popping?;
    longer := Extend(c, run, may, w, CancelledTask);
    assert longer[|longer| - 1].queue == s.queue[1..];
  }

  /** After the flag is raised an item can still be taken exactly when a worker is about to, and there is one. */
  lemma PullsExactly<R(!new), E(!new)>(c: Config, run: seq<State<R, E>>, may: (nat, TaskResult<R, E>) -> bool)
    requires Run(c, run, may) && run[|run| - 1].cancelled
    ensures Pulls(c, run, may) <==> MayPull(run[|run| - 1])
  {
    if Pulls(c, run, may) {
      var longer: seq<State<R, E>> :| TakesMore(c, run, longer, may);
      TakerWasReady(c, run, longer, may);
    }
    if MayPull(run[|run| - 1]) {
      var longer := ReadyTakes(c, run, may);
    }
  }

  /** With any work at all, a run in which an item is taken after the flag was raised. */
  lemma PullsAfterCancel<R(!new), E(!new)>(c: Config, may: (nat, TaskResult<R, E>) -> bool) returns (run: seq<State<R, E>>)
    requires c.total > 0
    ensures Run(c, run, may) && |run| == 4 && run[2].cancelled && |run[3].queue| < |run[2].queue|
  {
    run := [Init<R, E>(c, false)];
    run := Extend(c, run, may, 0, CancelledTask);
    var raised := run[1].(cancelled := true);
    assert CancelStep(run[1], raised);
    run := run + [raised];
    assert Next(c, run[0], run[1], may) && Next(c, run[1], run[2], may);
    run := Extend(c, run, may, 0, CancelledTask);
  }

  // ---------------------------------------------------------------- what becomes of it

  /** Item `k` has not been started: nobody runs it and it has no outcome. */
  predicate Unstarted<R, E>(s: State<R, E>, k: nat) {
    && (forall w :: 0 <= w < |s.pcs| ==>
          !(s.pcs[w].Running? && s.pcs[w].item == k) && !(s.pcs[w].Finishing? && s.pcs[w].item == k))
    && (forall n :: 0 <= n < |s.outcomes| ==> s.outcomes[n].item != k)
  }

  lemma {:induction false} SomeCounted<R, E>(pcs: seq<Pc<R, E>>, w: nat, p: Pc<R, E> -> bool)
    requires w < |pcs| && p(pcs[w])
    ensures CountPcs(pcs, p) > 0
  {
    if w > 0 {
      SomeCounted(pcs[1..], w - 1, p);
    }
  }

  lemma {:induction false} SomeOutcome<R, E>(outcomes: seq<Outcome<R, E>>, n: nat)
    requires n < |outcomes|
    ensures CountOutcomes(outcomes, outcomes[n].item) > 0
  {
    if n > 0 {
      SomeOutcome(outcomes[1..], n - 1);
    }
  }

  lemma QueuedIsUnstarted<R, E>(c: Config, s: State<R, E>, may: (nat, TaskResult<R, E>) -> bool, k: nat)
    requires Inv(c, s, may) && k in s.queue
    ensures Unstarted(s, k)
  {
    QueueCount(c.total - |s.queue|, s.queue, k);
    assert Places(s, k) == One(k < c.total);
    forall w | 0 <= w < |s.pcs| && Holds(s.pcs[w], k) ensures false {
      SomeCounted(s.pcs, w, HoldsItem(k));
    }
    forall n | 0 <= n < |s.outcomes| ensures s.outcomes[n].item != k {
      SomeOutcome(s.outcomes, n);
    }
  }

  lemma UnstartedNext<R(!new), E(!new)>(c: Config, s: State<R, E>, s': State<R, E>, may: (nat, TaskResult<R, E>) -> bool,
                                        k: nat)
    requires Next(c, s, s', may) && s.cancelled && Unstarted(s, k)
    ensures Unstarted(s', k)
  {
    var w: nat, r :| Enabled(s, w, r, may) && s' == Step(c, s, w, r);
    assert forall n :: 0 <= n < |s.outcomes| ==> s'.outcomes[n] == s.outcomes[n];
  }

  /** What was still queued when the flag was raised is never started, whether or not it is taken. */
  lemma {:induction false} QueuedNeverStarts<R(!new), E(!new)>(c: Config, run: seq<State<R, E>>,
                                                               may: (nat, TaskResult<R, E>) -> bool, i: nat, j: nat, k: nat)
    requires Run(c, run, may) && i <= j < |run| && run[i].cancelled && k in run[i].queue
    ensures Unstarted(run[j], k)
    decreases j
  {
    if i == j {
      RunInv(c, run, may, i);
      QueuedIsUnstarted(c, run[i], may, k);
    } else {
      QueuedNeverStarts(c, run, may, i, j - 1, k);
      RunGrows(c, run, may, i, j - 1);
      assert Next(c, run[j - 1], run[j], may);
      UnstartedNext(c, run[j - 1], run[j], may, k);
    }
  }
}
