/**
 * The process-wide limit on qemu-nbd sessions. Each caller brings its own limit, so the
 * bound that holds is one about ranks: the i-th oldest live permit was granted under a
 * limit of at least i.
 */
module NbdSessions {
  import opened Bytes

  /** Something other threads did to the table while a caller waited. */
  datatype Event = Acquired(limit: nat) | Released(rank: nat)

  /** One wait on the condition variable, and what the caller finds when it ends. */
  datatype Wakeup = Wakeup(events: seq<Event>, cancelled: bool, expired: bool)

  datatype Refusal = Interrupted | TimedOut

  function Effective(limit: nat): nat {
    Max(limit, 1)
  }

  function Without(live: seq<nat>, rank: nat): seq<nat>
    requires rank < |live|
  {
    live[..rank] + live[rank + 1..]
  }

  /** The limits of the live permits, oldest first, after one event. */
  function After(live: seq<nat>, event: Event): seq<nat> {
    match event
    case Acquired(limit) => if |live| < Effective(limit) then live + [Effective(limit)] else live
    case Released(rank) => if rank < |live| then Without(live, rank) else live
  }

  function AfterAll(live: seq<nat>, events: seq<Event>): seq<nat>
    decreases |events|
  {
    if events == [] then live else AfterAll(After(live, events[0]), events[1..])
  }

  /** The i-th oldest live permit, counted from one, was granted under a limit of at least i. */
  predicate Ranked(live: seq<nat>) {
    forall i :: 0 <= i < |live| ==> live[i] >= i + 1
  }

  lemma AfterRanked(live: seq<nat>, event: Event)
    requires Ranked(live)
    ensures Ranked(After(live, event))
  {
  }

  /** Whatever permits come and go, in any order, the ranking holds. */
  lemma {:induction false} AlwaysRanked(live: seq<nat>, events: seq<Event>)
    requires Ranked(live)
    ensures Ranked(AfterAll(live, events))
    decreases |events|
  {
    if events != [] {
      AfterRanked(live, events[0]);
      AlwaysRanked(After(live, events[0]), events[1..]);
    }
  }

  /** Hence there are never more live sessions than the newest holder's limit. */
  lemma NeverAboveNewestLimit(events: seq<Event>)
    ensures var live := AfterAll([], events);
            live != [] ==> |live| <= live[|live| - 1]
  {
    AlwaysRanked([], events);
  }

  /** A session is granted exactly when none is live or fewer than the caller's limit are. */
  lemma GrantedExactly(live: seq<nat>, limit: nat)
    ensures |After(live, Acquired(limit))| == |live| + 1 <==> live == [] || |live| < limit
    ensures After(live, Acquired(limit)) != live ==> After(live, Acquired(limit))[..|live|] == live
  {
  }

  /** A limit that every caller respects bounds the number of sessions; a limit of zero lets one through. */
  lemma NeverAboveSharedLimit(events: seq<Event>, n: nat)
    requires n >= 1 && forall e :: e in events && e.Acquired? ==> e.limit <= n
    ensures |AfterAll([], events)| <= n
  {
    NeverAboveNewestLimit(events);
    LimitsGranted([], events, n);
  }

  lemma {:induction false} LimitsGranted(live: seq<nat>, events: seq<Event>, n: nat)
    requires forall i :: 0 <= i < |live| ==> live[i] <= n
    requires forall e :: e in events && e.Acquired? ==> Effective(e.limit) <= n
    ensures forall i :: 0 <= i < |AfterAll(live, events)| ==> AfterAll(live, events)[i] <= n
    decreases |events|
  {
    if events != [] {
      assert events[0] in events;
      LimitsGranted(After(live, events[0]), events[1..], n);
    }
  }

  /** All the events of some waits, in order. */
  function Heard(wakeups: seq<Wakeup>): seq<Event> {
    if wakeups == [] then [] else wakeups[0].events + Heard(wakeups[1..])
  }

  lemma {:induction false} AfterAllAppend(live: seq<nat>, a: seq<Event>, b: seq<Event>)
    ensures AfterAll(live, a + b) == AfterAll(AfterAll(live, a), b)
    decreases |a|
  {
    if a == [] {
      assert a + b == b;
    } else {
      AfterAllAppend(After(live, a[0]), a[1..], b);
      assert (a + b)[1..] == a[1..] + b;
    }
  }

  lemma {:induction false} HeardSnoc(wakeups: seq<Wakeup>, w: Wakeup)
    ensures Heard(wakeups + [w]) == Heard(wakeups) + w.events
  {
    if wakeups == [] {
      assert wakeups + [w] == [w];
      assert Heard([w]) == w.events + Heard([]);
    } else {
      HeardSnoc(wakeups[1..], w);
      assert (wakeups + [w])[1..] == wakeups[1..] + [w];
    }
  }

  /** The permits are what they are after this many waits. */
  ghost predicate Waited(start: seq<nat>, wakeups: seq<Wakeup>, heard: nat, live: seq<nat>) {
    heard <= |wakeups| && live == AfterAll(start, Heard(wakeups[..heard]))
  }

  lemma WaitedOnward(start: seq<nat>, wakeups: seq<Wakeup>, i: nat, live: seq<nat>, after: seq<nat>)
    requires Waited(start, wakeups, i, live) && i < |wakeups| && after == AfterAll(live, wakeups[i].events)
    ensures Waited(start, wakeups, i + 1, after)
  {
    assert wakeups[..i + 1] == wakeups[..i] + [wakeups[i]];
    HeardSnoc(wakeups[..i], wakeups[i]);
    AfterAllAppend(start, Heard(wakeups[..i]), wakeups[i].events);
  }

  lemma NotWaited(start: seq<nat>, wakeups: seq<Wakeup>)
    ensures Waited(start, wakeups, 0, start)
  {
    assert wakeups[..0] == [];
  }

  class SessionTable {
    var count: nat
    /** Limits of the live permits, oldest first. */
    ghost var live: seq<nat>

    constructor ()
      ensures Valid() && live == []
    {
      count := 0;
      live := [];
    }

    ghost predicate Valid()
      reads this
    {
      count == |live| && Ranked(live)
    }

    /** The holder of the permit with this rank drops it. */
    method Release(ghost rank: nat)
      requires Valid() && rank < |live|
      modifies this
      ensures Valid() && live == After(old(live), Released(rank))
      ensures count == old(count) - 1
    {
      // A saturating decrement; it never saturates.
      assert count > 0;
      count := Max(0, count - 1);
      live := Without(live, rank);
    }

    /** Other threads' acquisitions and releases, each under the lock. */
    method Interfere(events: seq<Event>)
      requires Valid()
      modifies this
      ensures Valid() && live == AfterAll(old(live), events)
    {
      AlwaysRanked(live, events);
      for i := 0 to |events|
        invariant Valid()
        invariant AfterAll(live, events[i..]) == AfterAll(old(live), events)
      {
        match events[i]
        case Acquired(limit) =>
          if count < Effective(limit) {
            count := count + 1;
            live := live + [Effective(limit)];
          }
        case Released(rank) =>
          if rank < count {
            Release(rank);
          }
      }
    }

    /** Gives up, or lets other threads at the table while waiting. */
    method Wait(wakeup: Wakeup) returns (refusal: Option<Refusal>)
      requires Valid()
      modifies this
      ensures Valid()
      ensures refusal == if wakeup.cancelled then Some(Interrupted) else if wakeup.expired then Some(TimedOut) else None
      ensures live == if refusal == None then AfterAll(old(live), wakeup.events) else old(live)
    {
      if wakeup.cancelled {
        return Some(Interrupted);
      }
      if wakeup.expired {
        return Some(TimedOut);
      }
      Interfere(wakeup.events);
      return None;
    }

    /**
     * Waits for a slot below this caller's limit. `heard` says how many waits it took; the
     * caller gives up when it is cancelled, and when its deadline passes.
     */
    method Acquire(limit: nat, wakeups: seq<Wakeup>) returns (r: Result<(), Refusal>, ghost heard: nat)
      requires Valid()
      modifies this
      ensures Valid() && heard <= |wakeups|
      ensures r.Ok? ==> live != [] && var before := live[..|live| - 1];
                Waited(old(live), wakeups, heard, before) && live == before + [Effective(limit)]
                && (before == [] || |before| < limit)
      ensures r.Err? ==> Waited(old(live), wakeups, heard, live) && live != [] && |live| >= limit
      ensures old(live == [] || |live| < limit) ==> r.Ok? && heard == 0
      ensures r == Err(Interrupted) ==> heard < |wakeups| && wakeups[heard].cancelled
      ensures r == Err(TimedOut) ==> heard == |wakeups| || wakeups[heard].expired
      ensures forall k :: 0 <= k < heard ==> !wakeups[k].cancelled && !wakeups[k].expired
    {
      var i := 0;
      heard := 0;
      NotWaited(live, wakeups);
      while count >= Effective(limit)
        invariant Valid() && i == heard && Waited(old(live), wakeups, heard, live)
        invariant heard > 0 ==> old(|live|) >= Effective(limit)
        invariant forall k :: 0 <= k < heard ==> !wakeups[k].cancelled && !wakeups[k].expired
        decreases |wakeups| - i
      {
        if i == |wakeups| {
          return Err(TimedOut), heard;
        }
        ghost var before := live;
        var refusal := Wait(wakeups[i]);
        if refusal.Some? {
          return Err(refusal.value), heard;
        }
        WaitedOnward(old(live), wakeups, i, before, live);
        i := i + 1;
        heard := heard + 1;
      }
      Grant(limit);
      return Ok(()), heard;
    }

    method Grant(limit: nat)
      requires Valid() && count < Effective(limit)
      modifies this
      ensures Valid() && live == old(live) + [Effective(limit)] && old(live == [] || |live| < limit)
    {
      count := count + 1;
      live := live + [Effective(limit)];
    }
  }
}
