/**
 * What an uncancelled `process_in_parallel` returns, for every task function: which items are
 * taken from the queue, and with that the result, does not depend on the interleaving.
 */
module PoolOutcomes {
  import opened Bytes
  import opened WorkerPool
  import opened PoolResults

  /** How many items below `i` do not succeed: each of them stops one worker. */
  function Bad<R, E>(f: nat -> TaskResult<R, E>, i: nat): (n: nat)
    ensures n <= i
  {
    if i == 0 then 0 else Bad(f, i - 1) + One(!f(i - 1).Success?)
  }

  lemma {:induction false} BadGrows<R, E>(f: nat -> TaskResult<R, E>, i: nat, j: nat)
    requires i <= j
    ensures Bad(f, i) <= Bad(f, j)
    decreases j
  {
    if i < j {
      BadGrows(f, i, j - 1);
    }
  }

  /** Item `i` is reached: some worker is left when its turn comes. */
  predicate InReach<R, E>(c: Config, f: nat -> TaskResult<R, E>, i: nat) {
    i < c.total && Bad(f, i) < c.Workers()
  }

  /** Some item that is reached fails. */
  ghost predicate FailsInReach<R, E>(c: Config, f: nat -> TaskResult<R, E>) {
    exists i: nat :: InReach(c, f, i) && f(i).Failure?
  }

  /** The numbers below `n` that satisfy `keep`, in order. */
  function Listed(keep: nat -> bool, n: nat): (r: seq<nat>)
    ensures |r| <= n
    ensures forall k :: 0 <= k < |r| ==> r[k] < n && keep(r[k])
  {
    if n == 0 then [] else Listed(keep, n - 1) + if keep(n - 1) then [n - 1] else []
  }

  function SucceedsInReach<R, E>(c: Config, f: nat -> TaskResult<R, E>): nat -> bool {
    (i: nat) => InReach(c, f, i) && f(i).Success?
  }

  /** The items that are reached and succeed. */
  function ReachedItems<R, E>(c: Config, f: nat -> TaskResult<R, E>): (items: seq<nat>)
    ensures forall k :: 0 <= k < |items| ==> f(items[k]).Success?
  {
    Listed(SucceedsInReach(c, f), c.total)
  }

  function ValuesAt<R, E>(f: nat -> TaskResult<R, E>, items: seq<nat>): (values: seq<R>)
    requires forall k :: 0 <= k < |items| ==> f(items[k]).Success?
    ensures |values| == |items|
    ensures forall k :: 0 <= k < |items| ==> values[k] == f(items[k]).value
  {
    seq(|items|, k requires 0 <= k < |items| => f(items[k]).value)
  }

  // ---------------------------------------------------------------- the invariant

  function Popped<R, E>(c: Config, s: State<R, E>): int {
    c.total - |s.queue|
  }

  /** The worker has an item that does not succeed, and will stop or has stopped with it. */
  function HoldsBad<R, E>(f: nat -> TaskResult<R, E>): Pc<R, E> -> bool {
    (pc: Pc<R, E>) =>
      match pc
      case Rechecking(i) => !f(i).Success?
      case Running(i) => !f(i).Success?
      case Finishing(i, _) => !f(i).Success?
      case Stopped(Dropped(i)) => !f(i).Success?
      case Stopped(TaskFailed(i)) => !f(i).Success?
      case _ => false
  }

  predicate PcReached<R(==), E(==)>(s: State<R, E>, f: nat -> TaskResult<R, E>, pc: Pc<R, E>, popped: int) {
    match pc
    case Rechecking(i) => i < popped
    case Running(i) => i < popped
    case Finishing(i, r) => i < popped && r == f(i)
    case Stopped(TaskFailed(i)) => i < popped && !f(i).Success? && (f(i).Failure? ==> s.stored.Some?)
    case _ => true
  }

  /** Items that do not succeed stay with their worker, and only a worker without one takes another item. */
  ghost predicate Settled<R, E>(c: Config, s: State<R, E>, f: nat -> TaskResult<R, E>) {
    && 0 <= Popped(c, s)
    && Bad(f, Popped(c, s)) == CountPcs(s.pcs, HoldsBad(f))
    && (forall i: nat :: i < Popped(c, s) ==> InReach(c, f, i))
    && (forall w :: 0 <= w < |s.pcs| ==> PcReached(s, f, s.pcs[w], Popped(c, s)))
    && (s.stored.Some? ==> exists i: nat :: i < Popped(c, s) && f(i) == Failure(s.stored.value))
  }

  lemma {:induction false} CountMisses<R, E>(pcs: seq<Pc<R, E>>, w: nat, p: Pc<R, E> -> bool)
    requires w < |pcs| && !p(pcs[w])
    ensures CountPcs(pcs, p) < |pcs|
  {
    if w > 0 {
      CountMisses(pcs[1..], w - 1, p);
    }
  }

  lemma {:induction false} CountAll<R, E>(pcs: seq<Pc<R, E>>, p: Pc<R, E> -> bool)
    requires forall w :: 0 <= w < |pcs| ==> p(pcs[w])
    ensures CountPcs(pcs, p) == |pcs|
  {
    if pcs != [] {
      CountAll(pcs[1..], p);
    }
  }

  lemma InitSettled<R, E>(c: Config, cancelled: bool, f: nat -> TaskResult<R, E>)
    ensures Settled(c, Init<R, E>(c, cancelled), f)
  {
    CountNone(Init<R, E>(c, cancelled).pcs, HoldsBad(f));
  }

  /** A worker comes to hold a bad item only by taking one from the queue, and never lets go of it. */
  lemma TakesBad<R, E>(c: Config, s: State<R, E>, w: nat, r: TaskResult<R, E>, f: nat -> TaskResult<R, E>)
    requires c.mode.Parallel? && w < |s.pcs|
    requires s.pcs[w].Finishing? ==> s.pcs[w].result == f(s.pcs[w].item)
    ensures One(HoldsBad(f)(NextPc(c, s, w, r)))
         == One(HoldsBad(f)(s.pcs[w])) + One(Pops(s.pcs[w], s.queue) && !f(s.queue[0]).Success?)
  {
  }

  /** The bad items among those taken are those in the workers' hands. */
  lemma StepHoldsBad<R, E>(c: Config, s: State<R, E>, w: nat, r: TaskResult<R, E>, f: nat -> TaskResult<R, E>)
    requires c.mode.Parallel? && w < |s.pcs| && Settled(c, s, f) && QueueIsSuffix(c, s)
    ensures var s' := Step(c, s, w, r);
            0 <= Popped(c, s') && Bad(f, Popped(c, s')) == CountPcs(s'.pcs, HoldsBad(f))
  {
    assert PcReached(s, f, s.pcs[w], Popped(c, s));
    TakesBad(c, s, w, r, f);
    CountUpdate(s.pcs, w, NextPc(c, s, w, r), HoldsBad(f));
  }

  lemma StepSettled<R, E>(c: Config, s: State<R, E>, w: nat, r: TaskResult<R, E>, f: nat -> TaskResult<R, E>)
    requires c.mode.Parallel? && Settled(c, s, f) && Inv(c, s, Returns(f)) && Enabled(s, w, r, Returns(f))
    ensures Settled(c, Step(c, s, w, r), f)
  {
    var s', pc := Step(c, s, w, r), s.pcs[w];
    StepHoldsBad(c, s, w, r, f);
    assert PcReached(s, f, pc, Popped(c, s));
    if Pops(pc, s.queue) {
      CountMisses(s.pcs, w, HoldsBad(f));
      assert InReach(c, f, Popped(c, s));
    }
    forall v | 0 <= v < |s'.pcs| ensures PcReached(s', f, s'.pcs[v], Popped(c, s')) {
      assert PcReached(s, f, s.pcs[v], Popped(c, s));
    }
  }

  lemma NextSettled<R(!new), E(!new)>(c: Config, s: State<R, E>, s': State<R, E>, f: nat -> TaskResult<R, E>)
    requires c.mode.Parallel? && Settled(c, s, f) && Inv(c, s, Returns(f)) && Next(c, s, s', Returns(f))
    ensures Settled(c, s', f)
  {
    if WorkerStep(c, s, s', Returns(f)) {
      var w: nat, r :| Enabled(s, w, r, Returns(f)) && s' == Step(c, s, w, r);
      StepSettled(c, s, w, r, f);
    } else {
      forall v | 0 <= v < |s'.pcs| ensures PcReached(s', f, s'.pcs[v], Popped(c, s')) {
        assert PcReached(s, f, s.pcs[v], Popped(c, s));
      }
    }
  }

  lemma {:induction false} RunSettled<R(!new), E(!new)>(c: Config, run: seq<State<R, E>>, f: nat -> TaskResult<R, E>, k: nat)
    requires c.mode.Parallel? && Run(c, run, Returns(f)) && k < |run|
    ensures Settled(c, run[k], f)
  {
    if k == 0 {
      InitSettled<R, E>(c, run[0].cancelled, f);
    } else {
      RunSettled(c, run, f, k - 1);
      RunInv(c, run, Returns(f), k - 1);
      NextSettled(c, run[k - 1], run[k], f);
    }
  }

  // ---------------------------------------------------------------- at join

  /** Once all workers have stopped uncancelled, the items taken are exactly those in reach. */
  lemma ReachedExactly<R(!new), E(!new)>(c: Config, run: seq<State<R, E>>, f: nat -> TaskResult<R, E>, i: nat)
    requires c.mode.Parallel? && Run(c, run, Returns(f)) && Joined(run[|run| - 1])
    requires !run[|run| - 1].cancelled
    ensures i < Popped(c, run[|run| - 1]) <==> InReach(c, f, i)
  {
    var s := run[|run| - 1];
    RunSettled(c, run, f, |run| - 1);
    RunInv(c, run, Returns(f), |run| - 1);
    if Popped(c, s) <= i && InReach(c, f, i) {
      forall w | 0 <= w < |s.pcs| ensures HoldsBad(f)(s.pcs[w]) {
        assert PcOk(c, s, s.pcs[w], Returns(f)) && PcReached(s, f, s.pcs[w], Popped(c, s));
      }
      CountAll(s.pcs, HoldsBad(f));
      BadGrows(f, Popped(c, s), i);
    }
  }

  /** A reached item that succeeds is recorded exactly once; no other item is. */
  lemma RecordedExactly<R(!new), E(!new)>(c: Config, run: seq<State<R, E>>, f: nat -> TaskResult<R, E>, i: nat)
    requires c.mode.Parallel? && Run(c, run, Returns(f)) && Joined(run[|run| - 1])
    requires !run[|run| - 1].cancelled
    ensures CountOutcomes(run[|run| - 1].outcomes, i) == One(InReach(c, f, i) && f(i).Success?)
  {
    var s := run[|run| - 1];
    ReachedExactly(c, run, f, i);
    RunSettled(c, run, f, |run| - 1);
    RunInv(c, run, Returns(f), |run| - 1);
    JoinAccounts(c, run, Returns(f));
    assert CountOutcomes(s.outcomes, i) + CountPcs(s.pcs, HoldsItem(i)) == One(i < c.total - |s.queue|);
    if f(i).Success? {
      forall w | 0 <= w < |s.pcs| ensures !HoldsItem(i)(s.pcs[w]) {
        assert PcOk(c, s, s.pcs[w], Returns(f)) && PcReached(s, f, s.pcs[w], Popped(c, s));
      }
      CountNone(s.pcs, HoldsItem(i));
    } else {
      forall k | 0 <= k < |s.outcomes| ensures i != s.outcomes[k].item {
        assert OutcomeOk(c, s.outcomes[k], Returns(f));
      }
      NoneCounted(s.outcomes, i);
    }
  }

  predicate Increasing(items: seq<nat>) {
    forall a, b :: 0 <= a < b < |items| ==> items[a] < items[b]
  }

  ghost predicate AreListed(items: seq<nat>, keep: nat -> bool, n: nat) {
    Increasing(items) && forall i: nat :: i in items <==> i < n && keep(i)
  }

  /** The highest number comes last, and the rest is the list below it. */
  lemma HighestLast(items: seq<nat>, keep: nat -> bool, n: nat)
    requires n > 0 && keep(n - 1) && AreListed(items, keep, n)
    ensures items != [] && items == items[..|items| - 1] + [n - 1]
    ensures AreListed(items[..|items| - 1], keep, n - 1)
  {
    assert n - 1 in items;
    var last := |items| - 1;
    var k :| 0 <= k < |items| && items[k] == n - 1;
    assert items[last] in items && items[last] == n - 1;
    var front := items[..last];
    assert items == front + [n - 1];
    forall i: nat ensures i in front <==> i < n - 1 && keep(i) {
      assert i in items <==> i in front || i == n - 1;
    }
  }

  /** An increasing sequence of exactly the numbers that satisfy `keep` is their list. */
  lemma {:induction false} ListedExactly(items: seq<nat>, keep: nat -> bool, n: nat)
    requires AreListed(items, keep, n)
    ensures items == Listed(keep, n)
    decreases n
  {
    assert items != [] ==> items[0] in items;
    if n > 0 {
      if keep(n - 1) {
        HighestLast(items, keep, n);
        ListedExactly(items[..|items| - 1], keep, n - 1);
      } else {
        assert AreListed(items, keep, n - 1);
        ListedExactly(items, keep, n - 1);
      }
    }
  }

  function ItemsOf<R, E>(s: seq<Outcome<R, E>>): (items: seq<nat>)
    ensures |items| == |s| && forall k :: 0 <= k < |s| ==> items[k] == s[k].item
  {
    seq(|s|, k requires 0 <= k < |s| => s[k].item)
  }

  lemma CountedIsListed<R, E>(s: seq<Outcome<R, E>>, sorted: seq<Outcome<R, E>>, i: nat)
    requires multiset(s) == multiset(sorted)
    ensures i in ItemsOf(sorted) <==> CountOutcomes(s, i) > 0
  {
    NoneCounted(s, i);
    if i in ItemsOf(sorted) {
      var k :| 0 <= k < |sorted| && ItemsOf(sorted)[k] == i;
      assert sorted[k] in multiset(s);
    }
    if CountOutcomes(s, i) > 0 {
      var j :| 0 <= j < |s| && s[j].item == i;
      assert s[j] in multiset(sorted);
      var k :| 0 <= k < |sorted| && sorted[k] == s[j];
      assert ItemsOf(sorted)[k] == i;
    }
  }

  lemma RecordedValues<R(!new), E(!new)>(c: Config, run: seq<State<R, E>>, f: nat -> TaskResult<R, E>)
    requires c.mode.Parallel? && Run(c, run, Returns(f)) && Joined(run[|run| - 1])
    requires !run[|run| - 1].cancelled
    ensures AllSuccess(InOrder(run[|run| - 1].outcomes))
    ensures ItemsOf(InOrder(run[|run| - 1].outcomes)) == ReachedItems(c, f)
    ensures ValuesOf(InOrder(run[|run| - 1].outcomes)) == ValuesAt(f, ReachedItems(c, f))
  {
    var s := run[|run| - 1];
    var sorted := InOrder(s.outcomes);
    ParallelOutcomes(c, run, f);
    forall i: nat ensures i in ItemsOf(sorted) <==> i < c.total && SucceedsInReach(c, f)(i) {
      RecordedExactly(c, run, f, i);
      CountedIsListed(s.outcomes, sorted, i);
    }
    ListedExactly(ItemsOf(sorted), SucceedsInReach(c, f), c.total);
  }

  /** The stored error is that of a reached item, and there is one exactly when a reached item fails. */
  lemma StoredExactly<R(!new), E(!new)>(c: Config, run: seq<State<R, E>>, f: nat -> TaskResult<R, E>)
    requires c.mode.Parallel? && Run(c, run, Returns(f)) && Joined(run[|run| - 1])
    requires !run[|run| - 1].cancelled
    ensures var s := run[|run| - 1];
            && (s.stored.Some? <==> FailsInReach(c, f))
            && (s.stored.Some? ==> exists i: nat :: InReach(c, f, i) && f(i) == Failure(s.stored.value))
  {
    var s := run[|run| - 1];
    RunSettled(c, run, f, |run| - 1);
    if s.stored.Some? {
      var i: nat :| i < Popped(c, s) && f(i) == Failure(s.stored.value);
      assert InReach(c, f, i);
    }
    if FailsInReach(c, f) {
      var i: nat :| InReach(c, f, i) && f(i).Failure?;
      RunInv(c, run, Returns(f), |run| - 1);
      RecordedExactly(c, run, f, i);
      ReachedExactly(c, run, f, i);
      JoinAccounts(c, run, Returns(f));
      assert CountOutcomes(s.outcomes, i) + CountPcs(s.pcs, HoldsItem(i)) == One(i < c.total - |s.queue|);
      var w := CountSome(s.pcs, HoldsItem(i));
      assert PcOk(c, s, s.pcs[w], Returns(f)) && PcReached(s, f, s.pcs[w], Popped(c, s));
    }
  }

  /**
   * The result of an uncancelled pool, for every task function and every interleaving: an error
   * of a reached item when one fails, and otherwise exactly the values of the reached items that
   * succeed, in input order.
   */
  lemma ResultIsDetermined<R(!new), E(!new)>(c: Config, run: seq<State<R, E>>, f: nat -> TaskResult<R, E>)
    requires c.mode.Parallel? && Run(c, run, Returns(f)) && Joined(run[|run| - 1])
    requires !run[|run| - 1].cancelled
    ensures AllSuccess(InOrder(run[|run| - 1].outcomes))
    ensures var result := ParallelResult(run[|run| - 1]);
            && (result.Error? <==> FailsInReach(c, f))
            && (result.Error? ==> exists i: nat :: InReach(c, f, i) && f(i) == Failure(result.error))
            && (result.Values? ==> result.values == ValuesAt(f, ReachedItems(c, f)))
  {
    RecordedValues(c, run, f);
    StoredExactly(c, run, f);
  }

  /** Two interleavings of the same work end alike: both in an error, or in the same values. */
  lemma SchedulesAgree<R(!new), E(!new)>(c: Config, run: seq<State<R, E>>, run': seq<State<R, E>>,
                                         f: nat -> TaskResult<R, E>)
    requires c.mode.Parallel?
    requires Run(c, run, Returns(f)) && Joined(run[|run| - 1]) && !run[|run| - 1].cancelled
    requires Run(c, run', Returns(f)) && Joined(run'[|run'| - 1]) && !run'[|run'| - 1].cancelled
    ensures AllSuccess(InOrder(run[|run| - 1].outcomes)) && AllSuccess(InOrder(run'[|run'| - 1].outcomes))
    ensures var a, b := ParallelResult(run[|run| - 1]), ParallelResult(run'[|run'| - 1]);
            if a.Error? then b.Error? else a == b
  {
    ResultIsDetermined(c, run, f);
    ResultIsDetermined(c, run', f);
  }

  // ---------------------------------------------------------------- when the list is short

  lemma {:induction false} ListedLength(keep: nat -> bool, n: nat)
    ensures |Listed(keep, n)| == n <==> forall i: nat :: i < n ==> keep(i)
  {
    if n > 0 {
      ListedLength(keep, n - 1);
    }
  }

  lemma ReachedLength<R, E>(c: Config, f: nat -> TaskResult<R, E>)
    ensures |ReachedItems(c, f)| == c.total <==> AllSucceed(f, c.total)
  {
    ListedLength(SucceedsInReach(c, f), c.total);
    if |ReachedItems(c, f)| == c.total {
      forall i | 0 <= i < c.total ensures f(i).Success? {
        assert SucceedsInReach(c, f)(i);
      }
    }
    if AllSucceed(f, c.total) {
      forall i: nat | i < c.total ensures SucceedsInReach(c, f)(i) {
        assert f(i).Success? && c.Workers() > 0;
        NoneBad(f, i);
      }
    }
  }

  lemma {:induction false} NoneBad<R, E>(f: nat -> TaskResult<R, E>, n: nat)
    requires AllSucceed(f, n)
    ensures Bad(f, n) == 0
  {
    if n > 0 {
      NoneBad(f, n - 1);
    }
  }

  /**
   * An uncancelled pool silently returns fewer values than items exactly when some item does
   * not succeed and no item in reach fails: the items that stop workers all report cancellation.
   */
  lemma ShortExactly<R(!new), E(!new)>(c: Config, run: seq<State<R, E>>, f: nat -> TaskResult<R, E>)
    requires c.mode.Parallel? && Run(c, run, Returns(f)) && Joined(run[|run| - 1])
    requires !run[|run| - 1].cancelled
    ensures AllSuccess(InOrder(run[|run| - 1].outcomes))
    ensures var result := ParallelResult(run[|run| - 1]);
            result.Values? && |result.values| < c.total <==> !AllSucceed(f, c.total) && !FailsInReach(c, f)
  {
    ResultIsDetermined(c, run, f);
    ReachedLength(c, f);
  }
}
