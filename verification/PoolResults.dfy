/** What the pools return once every worker has stopped. */
module PoolResults {
  import opened Bytes
  import opened Sorting
  import opened WorkerPool

  // ---------------------------------------------------------------- input order

  /** The order the outcomes are sorted in. */
  predicate ByItem<R, E>(a: Outcome<R, E>, b: Outcome<R, E>) {
    a.item <= b.item
  }

  /** The outcomes in the order of their items. */
  function InOrder<R, E>(s: seq<Outcome<R, E>>): (r: seq<Outcome<R, E>>)
    ensures multiset(r) == multiset(s) && |r| == |s|
  {
    Sort(ByItem, s)
  }

  predicate InInputOrder<R, E>(s: seq<Outcome<R, E>>) {
    forall a, b :: 0 <= a < b < |s| ==> s[a].item < s[b].item
  }

  predicate Above<R, E>(i: nat, s: seq<Outcome<R, E>>) {
    forall k :: 0 <= k < |s| ==> i < s[k].item
  }

  predicate Without<R, E>(i: nat, s: seq<Outcome<R, E>>) {
    forall k :: 0 <= k < |s| ==> i != s[k].item
  }

  lemma {:induction false} InsertAscending<R, E>(o: Outcome<R, E>, s: seq<Outcome<R, E>>)
    requires InInputOrder(s) && Without(o.item, s)
    ensures InInputOrder(Insert(ByItem, o, s))
    ensures forall i: nat :: i < o.item && Above(i, s) ==> Above(i, Insert(ByItem, o, s))
    ensures forall i: nat :: i != o.item && Without(i, s) ==> Without(i, Insert(ByItem, o, s))
  {
    if s != [] {
      assert forall j :: 0 <= j < |s[1..]| ==> s[1..][j] == s[j + 1];
      if o.item > s[0].item {
        InsertAscending(o, s[1..]);
        assert Above(s[0].item, s[1..]);
        HeadAscending(s[0], Insert(ByItem, o, s[1..]));
        forall i: nat | i < o.item && Above(i, s) ensures Above(i, Insert(ByItem, o, s)) {
          assert Above(i, s[1..]);
        }
        forall i: nat | i != o.item && Without(i, s) ensures Without(i, Insert(ByItem, o, s)) {
          assert Without(i, s[1..]);
        }
      } else {
        HeadAscending(o, s);
      }
    }
  }

  lemma HeadAscending<R, E>(o: Outcome<R, E>, s: seq<Outcome<R, E>>)
    requires InInputOrder(s) && Above(o.item, s)
    ensures InInputOrder([o] + s)
  {
  }

  lemma {:induction false} NoneCounted<R, E>(s: seq<Outcome<R, E>>, i: nat)
    ensures CountOutcomes(s, i) == 0 <==> Without(i, s)
  {
    if s != [] {
      NoneCounted(s[1..], i);
      assert forall j :: 0 <= j < |s[1..]| ==> s[1..][j] == s[j + 1];
    }
  }

  /** Outcomes of distinct items come out of the sort in strictly increasing input order. */
  lemma {:induction false} SortAscends<R, E>(s: seq<Outcome<R, E>>)
    requires forall i: nat :: CountOutcomes(s, i) <= 1
    ensures InInputOrder(InOrder(s))
    ensures multiset(InOrder(s)) == multiset(s) && |InOrder(s)| == |s|
    ensures forall i: nat :: Without(i, s) ==> Without(i, InOrder(s))
  {
    if s != [] {
      var o, rest := s[0], s[1..];
      forall i: nat ensures CountOutcomes(rest, i) <= 1 {
        assert CountOutcomes(s, i) <= 1;
      }
      SortAscends(rest);
      assert CountOutcomes(s, o.item) <= 1;
      NoneCounted(rest, o.item);
      InsertAscending(o, InOrder(rest));
      assert s == [o] + rest;
      forall i: nat | Without(i, s) ensures Without(i, InOrder(s)) {
        assert Without(i, rest);
      }
    }
  }

  /** Strictly increasing indices below `n`, `n` of them, are `0 .. n - 1`. */
  lemma {:induction false} AscendingFills<R, E>(s: seq<Outcome<R, E>>, n: nat, k: nat)
    requires InInputOrder(s) && |s| == n && forall j :: 0 <= j < n ==> s[j].item < n
    requires k < n
    ensures s[k].item == k
  {
    AtLeastIndex(s, k);
    AtMostIndex(s, n, k);
  }

  lemma {:induction false} AtLeastIndex<R, E>(s: seq<Outcome<R, E>>, k: nat)
    requires InInputOrder(s) && k < |s|
    ensures s[k].item >= k
  {
    if k > 0 {
      AtLeastIndex(s, k - 1);
    }
  }

  lemma {:induction false} AtMostIndex<R, E>(s: seq<Outcome<R, E>>, n: nat, k: nat)
    requires InInputOrder(s) && |s| == n && forall j :: 0 <= j < n ==> s[j].item < n
    requires k < n
    ensures s[k].item <= k
    decreases n - k
  {
    if k + 1 < n {
      AtMostIndex(s, n, k + 1);
    }
  }

  // ---------------------------------------------------------------- inspect_batch

  function Reports<R, E>(s: seq<Outcome<R, E>>): seq<Outcome<R, E>> {
    if s == [] then []
    else if s[0].result.Success? then [s[0]] + Reports(s[1..])
    else Reports(s[1..])
  }

  function Errors<R, E>(s: seq<Outcome<R, E>>): seq<Outcome<R, E>> {
    if s == [] then []
    else if s[0].result.Success? then Errors(s[1..])
    else [s[0]] + Errors(s[1..])
  }

  predicate AllSuccess<R, E>(s: seq<Outcome<R, E>>) {
    forall k :: 0 <= k < |s| ==> s[k].result.Success?
  }

  predicate NoSuccess<R, E>(s: seq<Outcome<R, E>>) {
    forall k :: 0 <= k < |s| ==> !s[k].result.Success?
  }

  lemma HeadCounted<T>(x: T, a: seq<T>, b: seq<T>, s: seq<T>)
    requires multiset(a) + multiset(b) == multiset(s)
    ensures multiset([x] + a) + multiset(b) == multiset([x] + s) && multiset(a) + multiset([x] + b) == multiset([x] + s)
  {
  }

  lemma SplitHead<R, E>(x: Outcome<R, E>, rest: seq<Outcome<R, E>>)
    ensures Reports([x] + rest) == if x.result.Success? then [x] + Reports(rest) else Reports(rest)
    ensures Errors([x] + rest) == if x.result.Success? then Errors(rest) else [x] + Errors(rest)
  {
    assert ([x] + rest)[1..] == rest;
  }

  lemma {:induction false} SplitCounts<R, E>(s: seq<Outcome<R, E>>)
    ensures multiset(Reports(s)) + multiset(Errors(s)) == multiset(s)
  {
    if s != [] {
      var x, rest := s[0], s[1..];
      assert s == [x] + rest;
      SplitHead(x, rest);
      SplitCounts(rest);
      HeadCounted(x, Reports(rest), Errors(rest), rest);
    }
  }

  lemma {:induction false} SplitSorts<R, E>(s: seq<Outcome<R, E>>)
    ensures |Reports(s)| + |Errors(s)| == |s|
    ensures AllSuccess(Reports(s)) && NoSuccess(Errors(s))
  {
    if s != [] {
      SplitSorts(s[1..]);
    }
  }

  /** Splitting keeps every outcome exactly once. */
  lemma SplitPartitions<R, E>(s: seq<Outcome<R, E>>)
    ensures multiset(Reports(s)) + multiset(Errors(s)) == multiset(s)
    ensures |Reports(s)| + |Errors(s)| == |s|
    ensures AllSuccess(Reports(s)) && NoSuccess(Errors(s))
  {
    SplitCounts(s);
    SplitSorts(s);
  }

  /** Splitting keeps the order of both halves. */
  lemma {:induction false} SplitAscends<R, E>(s: seq<Outcome<R, E>>)
    requires InInputOrder(s)
    ensures InInputOrder(Reports(s)) && InInputOrder(Errors(s))
    ensures forall i: nat :: Above(i, s) ==> Above(i, Reports(s)) && Above(i, Errors(s))
  {
    if s != [] {
      var rest := s[1..];
      assert forall j :: 0 <= j < |rest| ==> rest[j] == s[j + 1];
      SplitAscends(rest);
      assert Above(s[0].item, rest);
      if s[0].result.Success? {
        HeadAscending(s[0], Reports(rest));
      } else {
        HeadAscending(s[0], Errors(rest));
      }
      forall i: nat | Above(i, s) ensures Above(i, Reports(s)) && Above(i, Errors(s)) {
        assert Above(i, rest);
      }
    }
  }

  lemma RecordedOnce<R(!new), E(!new)>(c: Config, run: seq<State<R, E>>, may: (nat, TaskResult<R, E>) -> bool)
    requires Run(c, run, may) && Joined(run[|run| - 1])
    ensures var s := run[|run| - 1];
            && InInputOrder(InOrder(s.outcomes)) && multiset(InOrder(s.outcomes)) == multiset(s.outcomes)
            && |InOrder(s.outcomes)| == |s.outcomes| == s.completed <= c.total
  {
    var s := run[|run| - 1];
    JoinAccounts(c, run, may);
    forall i: nat ensures CountOutcomes(s.outcomes, i) <= 1 {
      assert CountOutcomes(s.outcomes, i) + CountPcs(s.pcs, HoldsItem(i)) == One(i < c.total - |s.queue|);
    }
    SortAscends(s.outcomes);
  }

  /**
   * The result of a batch: reports and errors are each in input order, hold every recorded
   * outcome once, and together are as many as the completed tasks.
   */
  lemma BatchOutcome<R(!new), E(!new)>(c: Config, run: seq<State<R, E>>, may: (nat, TaskResult<R, E>) -> bool)
    requires Run(c, run, may) && Joined(run[|run| - 1])
    ensures var s := run[|run| - 1];
            var reports, errors := Reports(InOrder(s.outcomes)), Errors(InOrder(s.outcomes));
            && multiset(reports) + multiset(errors) == multiset(s.outcomes)
            && |reports| + |errors| == |s.outcomes| == s.completed <= c.total
            && AllSuccess(reports) && NoSuccess(errors)
            && InInputOrder(reports) && InInputOrder(errors)
  {
    RecordedOnce(c, run, may);
    SplitPartitions(InOrder(run[|run| - 1].outcomes));
    SplitAscends(InOrder(run[|run| - 1].outcomes));
  }

  // ---------------------------------------------------------------- process_in_parallel

  datatype PoolResult<R, E> = Values(values: seq<R>) | Error(error: E)

  function ValuesOf<R, E>(s: seq<Outcome<R, E>>): (values: seq<R>)
    requires AllSuccess(s)
    ensures |values| == |s|
    ensures forall k :: 0 <= k < |s| ==> values[k] == s[k].result.value
  {
    if s == [] then [] else [s[0].result.value] + ValuesOf(s[1..])
  }

  /** What `process_in_parallel` returns from its final state. */
  function ParallelResult<R, E>(s: State<R, E>): PoolResult<R, E>
    requires AllSuccess(InOrder(s.outcomes))
  {
    if !s.cancelled && s.stored.Some? then Error(s.stored.value) else Values(ValuesOf(InOrder(s.outcomes)))
  }

  /** The task is a function of the item: its result does not depend on the schedule. */
  function Returns<R(==), E(==)>(f: nat -> TaskResult<R, E>): (nat, TaskResult<R, E>) -> bool {
    (i: nat, r: TaskResult<R, E>) => r == f(i)
  }

  /** Final outcomes of a parallel run: sorted, successful and what `f` returned. */
  lemma ParallelOutcomes<R(!new), E(!new)>(c: Config, run: seq<State<R, E>>, f: nat -> TaskResult<R, E>)
    requires c.mode.Parallel? && Run(c, run, Returns(f)) && Joined(run[|run| - 1])
    ensures var sorted := InOrder(run[|run| - 1].outcomes);
            && |sorted| == |run[|run| - 1].outcomes|
            && InInputOrder(sorted) && AllSuccess(sorted)
            && forall k :: 0 <= k < |sorted| ==> sorted[k].item < c.total && sorted[k].result == f(sorted[k].item)
  {
    var s := run[|run| - 1];
    RecordedOnce(c, run, Returns(f));
    RunInv(c, run, Returns(f), |run| - 1);
    var sorted := InOrder(s.outcomes);
    forall k | 0 <= k < |sorted| ensures OutcomeOk(c, sorted[k], Returns(f)) {
      assert sorted[k] in multiset(s.outcomes);
      var j :| 0 <= j < |s.outcomes| && s.outcomes[j] == sorted[k];
    }
  }

  /** Without an error and without cancellation, every worker stopped because nothing was left. */
  lemma NoErrorMeansComplete<R(!new), E(!new)>(c: Config, run: seq<State<R, E>>, f: nat -> TaskResult<R, E>)
    requires c.mode.Parallel? && Run(c, run, Returns(f)) && Joined(run[|run| - 1])
    requires !run[|run| - 1].cancelled && run[|run| - 1].stored.None?
    requires forall i :: 0 <= i < c.total ==> !f(i).CancelledTask?
    ensures |run[|run| - 1].outcomes| == c.total
  {
    var s := run[|run| - 1];
    JoinAccounts(c, run, Returns(f));
    RunInv(c, run, Returns(f), |run| - 1);
    forall w | 0 <= w < |s.pcs| ensures s.pcs[w] == Stopped(QueueEmpty) {
      assert PcOk(c, s, s.pcs[w], Returns(f));
    }
    CountNone(s.pcs, HasItem());
    if c.total > 0 {
      assert PcOk(c, s, s.pcs[0], Returns(f));
    }
  }

  ghost predicate AllSucceed<R, E>(f: nat -> TaskResult<R, E>, total: nat) {
    forall i :: 0 <= i < total ==> f(i).Success?
  }

  function Mapped<R, E>(f: nat -> TaskResult<R, E>, total: nat): (values: seq<R>)
    requires forall i :: 0 <= i < total ==> f(i).Success?
    ensures |values| == total
    ensures forall i :: 0 <= i < total ==> values[i] == f(i).value
  {
    if total == 0 then [] else Mapped(f, total - 1) + [f(total - 1).value]
  }

  /**
   * Without cancellation the pool yields as many values as there are items, in input order,
   * exactly when the task succeeds on every item, whatever the interleaving.
   */
  lemma CompleteExactlyWhenAllSucceed<R(!new), E(!new)>(c: Config, run: seq<State<R, E>>, f: nat -> TaskResult<R, E>)
    requires c.mode.Parallel? && Run(c, run, Returns(f)) && Joined(run[|run| - 1])
    requires !run[|run| - 1].cancelled
    ensures AllSuccess(InOrder(run[|run| - 1].outcomes))
    ensures var result := ParallelResult(run[|run| - 1]);
            && (AllSucceed(f, c.total) ==> result == Values(Mapped(f, c.total)))
            && (result.Values? && |result.values| == c.total ==> AllSucceed(f, c.total))
  {
    var s := run[|run| - 1];
    RunInv(c, run, Returns(f), |run| - 1);
    ParallelOutcomes(c, run, f);
    var sorted := InOrder(s.outcomes);
    if AllSucceed(f, c.total) {
      NoErrorMeansComplete(c, run, f);
    }
    if |sorted| == c.total {
      forall i | 0 <= i < c.total ensures f(i).Success? && sorted[i].item == i {
        AscendingFills(sorted, c.total, i);
      }
      assert ValuesOf(sorted) == Mapped(f, c.total);
    }
  }

  /**
   * When the task never reports cancellation by itself, the pool returns an error exactly
   * when some item fails, and then one that some item produced.
   */
  lemma ErrorExactlyWhenOneFails<R(!new), E(!new)>(c: Config, run: seq<State<R, E>>, f: nat -> TaskResult<R, E>)
    requires c.mode.Parallel? && Run(c, run, Returns(f)) && Joined(run[|run| - 1])
    requires !run[|run| - 1].cancelled
    requires forall i :: 0 <= i < c.total ==> !f(i).CancelledTask?
    ensures AllSuccess(InOrder(run[|run| - 1].outcomes))
    ensures var result := ParallelResult(run[|run| - 1]);
            && (result.Error? <==> !AllSucceed(f, c.total))
            && (result.Error? ==> exists i: nat :: i < c.total && f(i) == Failure(result.error))
  {
    var s := run[|run| - 1];
    CompleteExactlyWhenAllSucceed(c, run, f);
    ParallelOutcomes(c, run, f);
    RunInv(c, run, Returns(f), |run| - 1);
    if s.stored.None? {
      NoErrorMeansComplete(c, run, f);
    } else {
      var i: nat :| i < c.total && Returns(f)(i, Failure(s.stored.value));
      assert f(i) == Failure(s.stored.value);
    }
  }

  // ---------------------------------------------------------------- the first error

  /** In step `k` of the run, worker `w` puts away the result of a task that failed. */
  predicate Fails<R(==), E(==)>(run: seq<State<R, E>>, k: nat, w: nat) {
    && k + 1 < |run| && w < |run[k].pcs| && w < |run[k + 1].pcs|
    && run[k].pcs[w].Finishing? && run[k].pcs[w].result.Failure?
    && run[k + 1].pcs[w] != run[k].pcs[w]
  }

  /** No worker did so before. */
  ghost predicate FailsFirst<R, E>(run: seq<State<R, E>>, k: nat, w: nat) {
    Fails(run, k, w) && forall j: nat, v: nat :: j < k ==> !Fails(run, j, v)
  }

  /** An error, once stored, is never replaced. */
  lemma {:induction false} StoredStays<R(!new), E(!new)>(c: Config, run: seq<State<R, E>>,
                                                         may: (nat, TaskResult<R, E>) -> bool, i: nat, j: nat)
    requires Run(c, run, may) && i <= j < |run| && run[i].stored.Some?
    ensures run[j].stored == run[i].stored
    decreases j
  {
    if i < j {
      StoredStays(c, run, may, i, j - 1);
      assert Next(c, run[j - 1], run[j], may);
    }
  }

  /** What one step does to the stored error: the first failure goes in, if it is a failure. */
  lemma StepStores<R(!new), E(!new)>(c: Config, run: seq<State<R, E>>, may: (nat, TaskResult<R, E>) -> bool, k: nat)
    requires c.mode.Parallel? && Run(c, run, may) && k + 1 < |run|
    ensures run[k].stored.None? && run[k + 1].stored.None? ==> forall w: nat :: !Fails(run, k, w)
    ensures run[k].stored.None? && run[k + 1].stored.Some? ==>
              exists w: nat :: Fails(run, k, w) && run[k].pcs[w].result.error == run[k + 1].stored.value
  {
    assert Next(c, run[k], run[k + 1], may);
    if WorkerStep(c, run[k], run[k + 1], may) {
      var w: nat, r :| Enabled(run[k], w, r, may) && run[k + 1] == Step(c, run[k], w, r);
      if Stores(c, run[k].pcs[w]) {
        assert Fails(run, k, w);
      }
    }
  }

  /** The stored error is that of the first task that failed; without one, none has failed yet. */
  lemma {:induction false} StoredIsFirst<R(!new), E(!new)>(c: Config, run: seq<State<R, E>>,
                                                           may: (nat, TaskResult<R, E>) -> bool, n: nat)
    requires c.mode.Parallel? && Run(c, run, may) && n < |run|
    ensures run[n].stored.None? ==> forall k: nat, w: nat :: k < n ==> !Fails(run, k, w)
    ensures run[n].stored.Some? ==>
              exists k: nat, w: nat :: k < n && FailsFirst(run, k, w) && run[k].pcs[w].result.error == run[n].stored.value
  {
    if n > 0 {
      StoredIsFirst(c, run, may, n - 1);
      StepStores(c, run, may, n - 1);
      if run[n - 1].stored.Some? {
        StoredStays(c, run, may, n - 1, n);
      } else if run[n].stored.Some? {
        var w: nat :| Fails(run, n - 1, w) && run[n - 1].pcs[w].result.error == run[n].stored.value;
        assert FailsFirst(run, n - 1, w);
      }
    }
  }

  /** The error an uncancelled pool returns is that of the first task that failed; the others are dropped. */
  lemma FirstErrorWins<R(!new), E(!new)>(c: Config, run: seq<State<R, E>>, f: nat -> TaskResult<R, E>)
    requires c.mode.Parallel? && Run(c, run, Returns(f)) && Joined(run[|run| - 1])
    requires !run[|run| - 1].cancelled
    ensures AllSuccess(InOrder(run[|run| - 1].outcomes))
    ensures match ParallelResult(run[|run| - 1])
            case Error(error) => exists k: nat, w: nat :: FailsFirst(run, k, w) && run[k].pcs[w].result.error == error
            case Values(_) => forall k: nat, w: nat :: !Fails(run, k, w)
  {
    ParallelOutcomes(c, run, f);
    StoredIsFirst(c, run, Returns(f), |run| - 1);
  }

  /** A cancelled pool returns everything that was recorded, in input order, even after an error. */
  lemma CancelledKeepsResults<R(!new), E(!new)>(c: Config, run: seq<State<R, E>>, f: nat -> TaskResult<R, E>)
    requires c.mode.Parallel? && Run(c, run, Returns(f)) && Joined(run[|run| - 1])
    requires run[|run| - 1].cancelled
    ensures AllSuccess(InOrder(run[|run| - 1].outcomes))
    ensures var s := run[|run| - 1];
            var sorted := InOrder(s.outcomes);
            && ParallelResult(s) == Values(ValuesOf(sorted))
            && InInputOrder(sorted) && |sorted| == |s.outcomes| == s.completed
            && forall k :: 0 <= k < |sorted| ==> f(sorted[k].item) == Success(ValuesOf(sorted)[k])
  {
    ParallelOutcomes(c, run, f);
    JoinAccounts(c, run, Returns(f));
  }

  // ---------------------------------------------------------------- what does not hold

  /** The pool in the parallel mode with one item and one worker whose task reports cancellation. */
  const ONE_ITEM := Config(Parallel, 1, 1)

  /**
   * A task that reports cancellation while the token is unset makes its worker stop silently:
   * the pool then returns Ok with fewer values than items.
   */
  lemma SilentlyShort() returns (run: seq<State<int, int>>)
    ensures Run(ONE_ITEM, run, Returns(_ => CancelledTask))
    ensures Joined(run[|run| - 1]) && !run[|run| - 1].cancelled
    ensures InOrder(run[|run| - 1].outcomes) == []
    ensures ParallelResult(run[|run| - 1]) == Values([])
  {
    var c, r := ONE_ITEM, TaskResult<int, int>.CancelledTask;
    var s0 := Init<int, int>(c, false);
    assert s0.pcs == [Checking] && s0.queue == [0];
    var s1 := Step(c, s0, 0, r);
    assert s1.pcs == [Popping];
    var s2 := Step(c, s1, 0, r);
    assert s2.pcs == [Rechecking(0)];
    var s3 := Step(c, s2, 0, r);
    assert s3.pcs == [Running(0)];
    var s4 := Step(c, s3, 0, r);
    assert s4.pcs == [Finishing(0, r)];
    var s5 := Step(c, s4, 0, r);
    assert s5.pcs == [Stopped(TaskFailed(0))];
    run := [s0, s1, s2, s3, s4, s5];
    var may := Returns<int, int>(_ => CancelledTask);
    forall k | 0 <= k < |run| - 1 ensures Next(c, run[k], run[k + 1], may) {
      assert Enabled(run[k], 0, r, may) && run[k + 1] == Step(c, run[k], 0, r);
    }
  }
}
