/** The progress counters that workers bump and pollers read. */
module Progress {
  import opened Bytes

  /** Integer completion percentage. */
  function Percent(completed: nat, total: nat): nat {
    if total == 0 then 0 else Min(completed, total) * 100 / total
  }

  lemma PercentBounds(completed: nat, total: nat)
    ensures Percent(completed, total) <= 100
    ensures Percent(completed, total) == 100 <==> completed >= total > 0
  {
    if total > 0 {
      var k := Min(completed, total);
      QuotientMonotone(k * 100, total * 100, total);
      DivModUnique(100, 0, total);
      if k < total {
        QuotientMonotone(k * 100, 99 * total + (total - 1), total);
        DivModUnique(99, total - 1, total);
      }
    }
  }

  lemma PercentMonotone(completed: nat, completed': nat, total: nat)
    requires completed <= completed'
    ensures Percent(completed, total) <= Percent(completed', total)
  {
    if total > 0 {
      var a, b := Min(completed, total) * 100, Min(completed', total) * 100;
      QuotientMonotone(a, b, total);
    }
  }

  lemma QuotientMonotone(a: nat, b: nat, d: nat)
    requires d > 0 && a <= b
    ensures a / d <= b / d
  {
    var p, q := a / d, b / d;
    assert p * d <= a && b < q * d + d;
    if q + 1 <= p {
      MultipleAtLeast(p - q, d);
    }
  }

  datatype Snapshot = Snapshot(
    percentage: nat,
    stageId: nat,
    completedTasks: nat,
    totalTasks: nat,
    bytesProcessed: nat,
    totalBytes: nat,
    cancelled: bool)

  class InspectionProgress {
    var totalTasks: nat
    var completedTasks: nat
    var bytesProcessed: nat
    var totalBytes: nat
    var percentage: nat
    var stageId: nat
    var cancelled: bool
    /** The linked cancellation token, as it currently reads. */
    var tokenCancelled: bool

    constructor (tokenCancelled: bool)
      ensures completedTasks == totalTasks == percentage == bytesProcessed == totalBytes == stageId == 0
      ensures cancelled == this.tokenCancelled == tokenCancelled
    {
      totalTasks, completedTasks, bytesProcessed, totalBytes, percentage, stageId := 0, 0, 0, 0, 0, 0;
      cancelled, this.tokenCancelled := tokenCancelled, tokenCancelled;
    }

    predicate IsCancelled()
      reads this
    {
      cancelled || tokenCancelled
    }

    /** Clears the aggregate metrics; a token that is already cancelled stays observable. */
    method ResetForBatch(total: nat)
      modifies this
      ensures completedTasks == bytesProcessed == totalBytes == percentage == stageId == 0
      ensures totalTasks == total
      ensures tokenCancelled == old(tokenCancelled) && IsCancelled() == old(tokenCancelled)
    {
      completedTasks := 0;
      bytesProcessed := 0;
      totalBytes := 0;
      percentage := 0;
      stageId := 0;
      cancelled := false;
      totalTasks := total;
    }

    /** Adds one completed task; alone, it leaves the stored percentage that of the counters. */
    method IncrementCompletedTasks()
      requires completedTasks < U64_LIMIT
      modifies this`completedTasks, this`percentage
      ensures completedTasks == (old(completedTasks) + 1) % U64_LIMIT
      ensures percentage == if totalTasks > 0 then Percent(Min(old(completedTasks) + 1, U64_LIMIT - 1), totalTasks) else old(percentage)
    {
      var completed := Min(completedTasks + 1, U64_LIMIT - 1);
      completedTasks := (completedTasks + 1) % U64_LIMIT;
      if totalTasks > 0 {
        percentage := Percent(completed, totalTasks);
      }
    }

    /**
     * One look at the progress. With a total, the percentage is the whole part of the completed
     * share, never above 100 and 100 exactly when nothing is left, whatever the stored field says.
     */
    method TakeSnapshot() returns (s: Snapshot)
      ensures s.completedTasks == completedTasks && s.totalTasks == totalTasks
      ensures totalTasks > 0 ==>
                && s.percentage * totalTasks <= Min(completedTasks, totalTasks) * 100 < (s.percentage + 1) * totalTasks
                && s.percentage <= 100
                && (s.percentage == 100 <==> completedTasks >= totalTasks)
      ensures totalTasks == 0 ==> s.percentage == percentage
      ensures s.cancelled <==> cancelled || tokenCancelled
      ensures s.stageId == stageId && s.bytesProcessed == bytesProcessed && s.totalBytes == totalBytes
    {
      var total := totalTasks;
      var completed := completedTasks;
      var pct := if total > 0 then Percent(completed, total) else percentage;
      PercentBounds(completed, total);
      PercentIsFloor(completed, total);
      s := Snapshot(pct, stageId, completed, total, bytesProcessed, totalBytes, IsCancelled());
    }
  }

  /** The percentage is the whole part of the share: the only number with these bounds. */
  lemma PercentIsFloor(completed: nat, total: nat)
    ensures total > 0 ==>
              var p := Percent(completed, total);
              p * total <= Min(completed, total) * 100 < (p + 1) * total
  {
    if total > 0 {
      var a := Min(completed, total) * 100;
      var p := a / total;
      assert a == p * total + a % total;
      assert (p + 1) * total == p * total + total;
    }
  }

  /** Of two looks with the same total, the one that sees more tasks never shows less. */
  lemma SnapshotsInOrder(a: Snapshot, b: Snapshot)
    requires a.totalTasks == b.totalTasks > 0 && a.completedTasks <= b.completedTasks
    requires a.percentage * a.totalTasks <= Min(a.completedTasks, a.totalTasks) * 100
    requires Min(b.completedTasks, b.totalTasks) * 100 < (b.percentage + 1) * b.totalTasks
    ensures a.percentage <= b.percentage
  {
    if b.percentage < a.percentage {
      MulMonotone(b.percentage + 1, a.percentage, a.totalTasks);
    }
  }
}
