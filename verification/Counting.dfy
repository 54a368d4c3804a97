/** Sizes of finite sets of indices. */
module Counting {

  ghost function Below(n: nat): (b: set<nat>)
    ensures forall x: nat :: x in b <==> x < n
  {
    if n == 0 then {} else Below(n - 1) + {n - 1}
  }

  lemma {:induction false} BelowSize(n: nat)
    ensures |Below(n)| == n
  {
    if n > 0 {
      BelowSize(n - 1);
    }
  }

  ghost predicate Distinct<T>(t: seq<T>) {
    forall i: nat, j: nat :: i < j < |t| ==> t[i] != t[j]
  }

  ghost function Elements<T>(t: seq<T>): set<T> {
    set x | x in t
  }

  lemma {:induction false} DistinctSize<T>(t: seq<T>)
    requires Distinct(t)
    ensures |Elements(t)| == |t|
  {
    if t == [] {
      assert Elements(t) == {};
    } else {
      var front, last := t[..|t| - 1], t[|t| - 1];
      DistinctSize(front);
      assert t == front + [last];
      assert Elements(t) == Elements(front) + {last};
      assert last !in front;
    }
  }

  lemma SubsetSize<T>(a: set<T>, b: set<T>)
    requires a <= b
    ensures |a| <= |b|
    ensures |a| == |b| ==> a == b
  {
    assert b == a + (b - a);
    if |a| == |b| {
      assert |b - a| == 0;
    }
  }

  /** More than n distinct indices below n do not exist. */
  lemma Pigeonhole(t: seq<nat>, n: nat)
    requires Distinct(t) && forall i: nat :: i < |t| ==> t[i] < n
    ensures |t| <= n
  {
    DistinctSize(t);
    BelowSize(n);
    assert Elements(t) <= Below(n);
    SubsetSize(Elements(t), Below(n));
  }

  lemma {:induction false} DistinctCount<T>(t: seq<T>)
    requires Distinct(t)
    ensures forall x :: multiset(t)[x] == if x in Elements(t) then 1 else 0
  {
    if t != [] {
      var front, last := t[..|t| - 1], t[|t| - 1];
      assert t == front + [last];
      DistinctCount(front);
      assert last !in front;
    }
  }

  lemma SameElementsSameCounts<T>(t: seq<T>, u: seq<T>)
    requires Distinct(t) && Distinct(u) && Elements(t) == Elements(u)
    ensures multiset(t) == multiset(u)
  {
    DistinctCount(t);
    DistinctCount(u);
    assert forall x :: multiset(t)[x] == multiset(u)[x];
  }

  /** A rearrangement of distinct elements is distinct. */
  lemma {:induction false} DistinctMultiplicity<T>(xs: seq<T>)
    ensures Distinct(xs) <==> forall x :: multiset(xs)[x] <= 1
  {
    if xs != [] {
      var front, last := xs[..|xs| - 1], xs[|xs| - 1];
      assert xs == front + [last];
      DistinctMultiplicity(front);
      if Distinct(xs) {
        assert last !in front;
        forall x
          ensures multiset(xs)[x] <= 1
        {
          assert multiset(front)[x] <= 1;
        }
      } else if Distinct(front) {
        assert last in front;
        assert multiset(xs)[last] > 1;
      } else {
        var x :| multiset(front)[x] > 1;
        assert multiset(xs)[x] > 1;
      }
    }
  }

  function Without<T>(xs: seq<T>, i: nat): seq<T>
    requires i < |xs|
  {
    xs[..i] + xs[i + 1..]
  }

  lemma WithoutCounts<T>(xs: seq<T>, i: nat)
    requires i < |xs|
    ensures multiset(Without(xs, i)) == multiset(xs) - multiset{xs[i]}
  {
    assert xs == xs[..i] + [xs[i]] + xs[i + 1..];
  }

  /** Taking the last of one arrangement out of another leaves arrangements of the same elements. */
  lemma TakeLast<T>(xs: seq<T>, ys: seq<T>) returns (i: nat)
    requires multiset(xs) == multiset(ys) && xs != []
    ensures i < |ys| && ys[i] == xs[|xs| - 1] && multiset(xs[..|xs| - 1]) == multiset(Without(ys, i))
  {
    var last := |xs| - 1;
    assert Without(xs, last) == xs[..last];
    WithoutCounts(xs, last);
    assert xs[last] in multiset(ys);
    i :| i < |ys| && ys[i] == xs[last];
    WithoutCounts(ys, i);
  }
}
