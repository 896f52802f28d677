/** Paths as lists of names, and their order. */
module Paths {
  import opened Sorting

  type Path = seq<string>

  predicate StringLeq(a: string, b: string) {
    a == [] || (b != [] && (a[0] < b[0] || (a[0] == b[0] && StringLeq(a[1..], b[1..]))))
  }

  /** Paths compare name by name. */
  predicate Leq(a: Path, b: Path) {
    a == [] || (b != [] && if a[0] == b[0] then Leq(a[1..], b[1..]) else StringLeq(a[0], b[0]))
  }

  /** Up to `i` the names agree; there the first ends, or has the smaller character. */
  predicate SmallerAt(a: string, b: string, i: nat) {
    i <= |a| && i <= |b| && a[..i] == b[..i] && (i == |a| || (i < |b| && a[i] < b[i]))
  }

  lemma SmallerOnward(a: string, b: string, i: nat)
    requires a != [] && b != [] && a[0] == b[0]
    ensures SmallerAt(a, b, i + 1) <==> SmallerAt(a[1..], b[1..], i)
  {
    if i + 1 <= |a| && i + 1 <= |b| {
      assert a[..i + 1] == [a[0]] + a[1..][..i] && b[..i + 1] == [b[0]] + b[1..][..i];
    }
  }

  /** Names are in the order of their first difference, a name before its extensions. */
  lemma {:induction false} StringLeqExactly(a: string, b: string)
    ensures StringLeq(a, b) <==> exists i: nat :: SmallerAt(a, b, i)
    decreases |a|
  {
    if a == [] {
      assert SmallerAt(a, b, 0);
    } else if b != [] {
      if a[0] == b[0] {
        StringLeqExactly(a[1..], b[1..]);
        if StringLeq(a, b) {
          var i: nat :| SmallerAt(a[1..], b[1..], i);
          SmallerOnward(a, b, i);
        } else {
          forall i: nat ensures !SmallerAt(a, b, i) {
            if i > 0 {
              SmallerOnward(a, b, i - 1);
            }
          }
        }
      } else if a[0] < b[0] {
        assert SmallerAt(a, b, 0);
      } else {
        forall i: nat ensures !SmallerAt(a, b, i) {
          NotSmaller(a, b, i);
        }
      }
    }
  }

  lemma NotSmaller(a: string, b: string, i: nat)
    requires a != [] && b != [] && a[0] > b[0]
    ensures !SmallerAt(a, b, i)
  {
    if 0 < i <= |a| && i <= |b| {
      assert a[..i][0] == a[0] && b[..i][0] == b[0];
    }
  }

  /** Up to `i` the paths agree; there the first ends, or has the smaller name. */
  predicate BeforeAt(a: Path, b: Path, i: nat) {
    i <= |a| && i <= |b| && a[..i] == b[..i] && (i == |a| || (i < |b| && a[i] != b[i] && StringLeq(a[i], b[i])))
  }

  lemma BeforeOnward(a: Path, b: Path, i: nat)
    requires a != [] && b != [] && a[0] == b[0]
    ensures BeforeAt(a, b, i + 1) <==> BeforeAt(a[1..], b[1..], i)
  {
    if i + 1 <= |a| && i + 1 <= |b| {
      assert a[..i + 1] == [a[0]] + a[1..][..i] && b[..i + 1] == [b[0]] + b[1..][..i];
    }
  }

  /** Paths are in the order of their first different names, a directory before what lies in it. */
  lemma {:induction false} LeqExactly(a: Path, b: Path)
    ensures Leq(a, b) <==> exists i: nat :: BeforeAt(a, b, i)
    decreases |a|
  {
    if a == [] {
      assert BeforeAt(a, b, 0);
    } else if b != [] {
      if a[0] == b[0] {
        LeqExactly(a[1..], b[1..]);
        if Leq(a, b) {
          var i: nat :| BeforeAt(a[1..], b[1..], i);
          BeforeOnward(a, b, i);
        } else {
          forall i: nat ensures !BeforeAt(a, b, i) {
            if i > 0 {
              BeforeOnward(a, b, i - 1);
            }
          }
        }
      } else {
        assert Leq(a, b) ==> BeforeAt(a, b, 0);
        forall i: nat | i > 0 ensures !BeforeAt(a, b, i) {
          if i <= |a| && i <= |b| {
            assert a[..i][0] == a[0] && b[..i][0] == b[0];
          }
        }
      }
    }
  }

  lemma {:induction false} StringTotal(a: string, b: string)
    ensures StringLeq(a, b) || StringLeq(b, a)
    ensures StringLeq(a, b) && StringLeq(b, a) ==> a == b
    decreases |a|
  {
    if a != [] && b != [] && a[0] == b[0] {
      StringTotal(a[1..], b[1..]);
      assert a == [a[0]] + a[1..] && b == [b[0]] + b[1..];
    }
  }

  lemma {:induction false} StringTransitive(a: string, b: string, c: string)
    requires StringLeq(a, b) && StringLeq(b, c)
    ensures StringLeq(a, c)
    decreases |a|
  {
    if a != [] && a[0] == b[0] == c[0] {
      StringTransitive(a[1..], b[1..], c[1..]);
    }
  }

  lemma {:induction false} Total(a: Path, b: Path)
    ensures Leq(a, b) || Leq(b, a)
    ensures Leq(a, b) && Leq(b, a) ==> a == b
    decreases |a|
  {
    if a != [] && b != [] {
      if a[0] == b[0] {
        Total(a[1..], b[1..]);
        assert a == [a[0]] + a[1..] && b == [b[0]] + b[1..];
      } else {
        StringTotal(a[0], b[0]);
      }
    }
  }

  lemma {:induction false} Transitive(a: Path, b: Path, c: Path)
    requires Leq(a, b) && Leq(b, c)
    ensures Leq(a, c)
    decreases |a|
  {
    if a != [] {
      if a[0] == b[0] == c[0] {
        Transitive(a[1..], b[1..], c[1..]);
      } else if a[0] != b[0] && b[0] != c[0] {
        StringTransitive(a[0], b[0], c[0]);
        if a[0] == c[0] {
          StringTotal(a[0], b[0]);
        }
      }
    }
  }

  lemma LeqIsTotal()
    ensures TotalOrder(Leq)
  {
    forall a: Path, b: Path ensures Leq(a, b) || Leq(b, a) {
      Total(a, b);
    }
    forall a: Path, b: Path, c: Path | Leq(a, b) && Leq(b, c) ensures Leq(a, c) {
      Transitive(a, b, c);
    }
  }

  /** Sorting orders paths name by name and keeps each as often as it occurs. */
  lemma SortsPaths(s: seq<Path>)
    ensures Sorted(Leq, Sort(Leq, s)) && multiset(Sort(Leq, s)) == multiset(s)
  {
    LeqIsTotal();
    SortSorts(Leq, s);
  }

  /** Strictly ascending: sorted and without duplicates. */
  predicate Ascending(s: seq<Path>) {
    forall i, j :: 0 <= i < j < |s| ==> Leq(s[i], s[j]) && s[i] != s[j]
  }

  lemma OccursTwice(s: seq<Path>, i: nat, j: nat)
    requires i < j < |s| && s[i] == s[j]
    ensures multiset(s)[s[i]] >= 2
  {
    assert s == s[..j] + [s[j]] + s[j + 1..];
    assert s[i] in s[..j];
  }

  lemma SortedAscends(s: seq<Path>)
    requires Sorted(Leq, s) && forall p: Path :: multiset(s)[p] <= 1
    ensures Ascending(s)
  {
    forall i, j | 0 <= i < j < |s|
      ensures s[i] != s[j]
    {
      assert multiset(s)[s[i]] <= 1;
      if s[i] == s[j] {
        OccursTwice(s, i, j);
      }
    }
  }
}
