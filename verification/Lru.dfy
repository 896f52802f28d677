/**
 * Least-recently-used order. A cache keeps a bounded list that moves a touched key to
 * the front; what it holds is determined by the trace of touches alone.
 */
module Lru {
  function Without(s: seq<nat>, k: nat): (r: seq<nat>)
    ensures forall x :: x in r <==> x in s && x != k
  {
    if s == [] then []
    else if s[0] == k then Without(s[1..], k)
    else [s[0]] + Without(s[1..], k)
  }

  /** The bounded list after `k` is touched. */
  function Touch(s: seq<nat>, k: nat, cap: nat): seq<nat> {
    Take([k] + Without(s, k), cap)
  }

  function Take(s: seq<nat>, n: nat): seq<nat> {
    if |s| <= n then s else s[..n]
  }

  /** The bounded list after a whole trace of touches. */
  function Keys(trace: seq<nat>, cap: nat): seq<nat> {
    if trace == [] then [] else Touch(Keys(trace[..|trace| - 1], cap), trace[|trace| - 1], cap)
  }

  /** Every key ever touched, the most recently touched first. */
  function Recency(trace: seq<nat>): seq<nat> {
    if trace == [] then []
    else [trace[|trace| - 1]] + Without(Recency(trace[..|trace| - 1]), trace[|trace| - 1])
  }

  /** The touches that came after the last touch of `k`. */
  function After(trace: seq<nat>, k: nat): seq<nat> {
    if trace == [] || trace[|trace| - 1] == k then []
    else After(trace[..|trace| - 1], k) + [trace[|trace| - 1]]
  }

  /** What precedes the first occurrence of `k`. */
  function Before(s: seq<nat>, k: nat): (r: seq<nat>)
    ensures |r| <= |s| && r == s[..|r|]
    ensures k in s ==> |r| < |s| && s[|r|] == k
    ensures k !in r
  {
    if s == [] || s[0] == k then [] else [s[0]] + Before(s[1..], k)
  }

  function Elements(s: seq<nat>): set<nat> {
    set x | x in s
  }

  predicate Distinct(s: seq<nat>) {
    forall i, j :: 0 <= i < j < |s| ==> s[i] != s[j]
  }

  lemma {:induction false} WithoutAbsent(s: seq<nat>, k: nat)
    requires k !in s
    ensures Without(s, k) == s
  {
    if s != [] {
      WithoutAbsent(s[1..], k);
    }
  }

  lemma {:induction false} WithoutAt(s: seq<nat>, p: nat)
    requires Distinct(s) && p < |s|
    ensures Without(s, s[p]) == s[..p] + s[p + 1..]
  {
    if p == 0 {
      WithoutAbsent(s[1..], s[0]);
    } else {
      WithoutAt(s[1..], p - 1);
      assert s[..p] == [s[0]] + s[1..][..p - 1];
      assert s[1..][p - 1 + 1..] == s[p + 1..];
    }
  }

  lemma ConsDistinct(x: nat, s: seq<nat>)
    requires Distinct(s) && x !in s
    ensures Distinct([x] + s)
  {
  }

  lemma {:induction false} WithoutDistinct(s: seq<nat>, k: nat)
    requires Distinct(s)
    ensures Distinct(Without(s, k))
  {
    if s != [] {
      WithoutDistinct(s[1..], k);
      assert forall j :: 0 <= j < |s[1..]| ==> s[1..][j] == s[j + 1];
      if s[0] != k {
        ConsDistinct(s[0], Without(s[1..], k));
      }
    }
  }

  /** Removing a key commutes with cutting the list short. */
  lemma {:induction false} WithoutTake(s: seq<nat>, k: nat, c: nat)
    requires Distinct(s)
    ensures Take(Without(Take(s, c + 1), k), c) == Take(Without(s, k), c)
  {
    if |s| > c + 1 {
      var t := s[..c + 1];
      var p := |Before(s, k)|;
      if k !in s {
        WithoutAbsent(s, k);
        WithoutAbsent(t, k);
        assert t[..c] == s[..c];
      } else if p <= c {
        WithoutAt(s, p);
        WithoutAt(t, p);
        assert t[..p] == s[..p] && t[p + 1..] == s[p + 1..c + 1];
        assert (s[..p] + s[p + 1..])[..c] == s[..p] + s[p + 1..c + 1];
      } else {
        WithoutAt(s, p);
        WithoutAbsent(t, k);
        assert t[..c] == s[..c];
        assert (s[..p] + s[p + 1..])[..c] == s[..c];
      }
    }
  }

  lemma {:induction false} RecencyDistinct(trace: seq<nat>)
    ensures Distinct(Recency(trace))
    ensures Elements(Recency(trace)) == Elements(trace)
  {
    if trace != [] {
      var init, last := trace[..|trace| - 1], trace[|trace| - 1];
      RecencyDistinct(init);
      WithoutDistinct(Recency(init), last);
      ConsDistinct(last, Without(Recency(init), last));
      assert trace == init + [last];
      assert forall x :: x in Recency(init) <==> x in Elements(Recency(init));
      assert forall x :: x in init <==> x in Elements(init);
    }
  }

  /** The bounded list is the front of the unbounded one, whatever the bound. */
  lemma {:induction false} KeysAreMostRecent(trace: seq<nat>, cap: nat)
    requires cap > 0
    ensures Keys(trace, cap) == Take(Recency(trace), cap)
  {
    if trace != [] {
      var init, last := trace[..|trace| - 1], trace[|trace| - 1];
      KeysAreMostRecent(init, cap);
      RecencyDistinct(init);
      WithoutTake(Recency(init), last, cap - 1);
      TakeCons(last, Without(Take(Recency(init), cap), last), cap);
      TakeCons(last, Without(Recency(init), last), cap);
    }
  }

  /** One more touch, and what every state of the bounded list satisfies. */
  lemma KeysStep(trace: seq<nat>, k: nat, cap: nat)
    requires cap > 0
    ensures Keys(trace + [k], cap) == Touch(Keys(trace, cap), k, cap)
    ensures |Keys(trace, cap)| <= cap && Distinct(Keys(trace, cap))
  {
    assert (trace + [k])[..|trace|] == trace;
    KeysAreMostRecent(trace, cap);
    RecencyDistinct(trace);
  }

  /** Touching a new key pushes it in front and, when the list is full, drops the last. */
  lemma TouchNew(s: seq<nat>, k: nat, cap: nat)
    requires cap > 0 && |s| <= cap && k !in s
    ensures Touch(s, k, cap) == [k] + if |s| >= cap then s[..|s| - 1] else s
  {
    WithoutAbsent(s, k);
    TakeCons(k, s, cap);
  }

  /** Touching a key of a list that is not over-full moves it to the front. */
  lemma TouchOld(s: seq<nat>, p: nat, cap: nat)
    requires |s| <= cap && Distinct(s) && p < |s|
    ensures Touch(s, s[p], cap) == [s[p]] + (s[..p] + s[p + 1..])
  {
    WithoutAt(s, p);
  }

  lemma TakeCons(x: nat, s: seq<nat>, c: nat)
    requires c > 0
    ensures Take([x] + s, c) == [x] + Take(s, c - 1)
  {
  }

  lemma {:induction false} BeforeWithout(s: seq<nat>, x: nat, k: nat)
    requires x != k
    ensures Before(Without(s, x), k) == Without(Before(s, k), x)
  {
    if s != [] && s[0] != k {
      BeforeWithout(s[1..], x, k);
      if s[0] != x {
        assert Without(s, x)[1..] == Without(s[1..], x);
        assert Before(s, k)[1..] == Before(s[1..], k);
      } else {
        assert Before(s, k)[1..] == Before(s[1..], k);
      }
    }
  }

  /** Ahead of `k` in the recency order are exactly the keys touched since `k`. */
  lemma {:induction false} AheadIsTouchedSince(trace: seq<nat>, k: nat)
    requires k in trace
    ensures Elements(Before(Recency(trace), k)) == Elements(After(trace, k))
  {
    var init, last := trace[..|trace| - 1], trace[|trace| - 1];
    assert trace == init + [last];
    if last != k {
      AheadIsTouchedSince(init, k);
      var prior := Recency(init);
      BeforeWithout(prior, last, k);
      assert Recency(trace)[1..] == Without(prior, last);
      assert Before(Recency(trace), k) == [last] + Without(Before(prior, k), last);
      assert forall x :: x in Before(prior, k) <==> x in Elements(Before(prior, k));
      assert forall x :: x in After(init, k) <==> x in Elements(After(init, k));
    }
  }

  lemma {:induction false} DistinctCount(s: seq<nat>)
    requires Distinct(s)
    ensures |Elements(s)| == |s|
  {
    if s != [] {
      DistinctCount(s[1..]);
      assert Elements(s) == {s[0]} + Elements(s[1..]);
    }
  }

  lemma {:induction false} AfterIsSuffix(trace: seq<nat>, k: nat)
    ensures |After(trace, k)| <= |trace|
    ensures After(trace, k) == trace[|trace| - |After(trace, k)|..]
  {
    if trace != [] && trace[|trace| - 1] != k {
      AfterIsSuffix(trace[..|trace| - 1], k);
    }
  }

  /** The rank of a key is the number of distinct keys touched since. */
  lemma Rank(trace: seq<nat>, i: nat)
    requires i < |Recency(trace)|
    ensures |Elements(After(trace, Recency(trace)[i]))| == i
  {
    var order := Recency(trace);
    RecencyDistinct(trace);
    assert order[i] in Elements(order);
    AheadIsTouchedSince(trace, order[i]);
    DistinctCount(Before(order, order[i]));
    assert order[|Before(order, order[i])|] == order[i];
  }

  lemma SuffixCount(s: seq<nat>, t: seq<nat>)
    requires |t| <= |s| && t == s[|s| - |t|..]
    ensures |Elements(t)| <= |Elements(s)|
  {
    assert Elements(s) == Elements(t) + (Elements(s) - Elements(t));
  }

  /** Earlier in the recency order means touched more recently. */
  lemma RecencyOrder(trace: seq<nat>, i: nat, j: nat)
    requires i < j < |Recency(trace)|
    ensures |After(trace, Recency(trace)[i])| < |After(trace, Recency(trace)[j])|
  {
    var since, before := After(trace, Recency(trace)[i]), After(trace, Recency(trace)[j]);
    Rank(trace, i);
    Rank(trace, j);
    AfterIsSuffix(trace, Recency(trace)[i]);
    AfterIsSuffix(trace, Recency(trace)[j]);
    assert |before| <= |since| ==> before == since[|since| - |before|..];
    if |before| <= |since| {
      SuffixCount(since, before);
    }
  }

  /**
   * A touch hits exactly when the key was touched before and fewer than `cap` distinct
   * other keys were touched since.
   */
  lemma HitExactly(trace: seq<nat>, cap: nat, k: nat)
    requires cap > 0
    ensures k in Keys(trace, cap) <==> k in trace && |Elements(After(trace, k))| < cap
  {
    KeysAreMostRecent(trace, cap);
    RecencyDistinct(trace);
    var order := Recency(trace);
    assert k in trace <==> k in Elements(trace);
    assert k in order <==> k in Elements(order);
    if k in trace {
      AheadIsTouchedSince(trace, k);
      var ahead := Before(order, k);
      DistinctCount(ahead);
      if |ahead| < cap {
        assert Take(order, cap)[|ahead|] == k;
      }
    }
  }
}
