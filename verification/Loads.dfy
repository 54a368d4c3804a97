/** Which anchor each name gets, and how many names each anchor carries: the part the hash planner
    (include/femtofs/hash_plan.h:51-85) and the bucket builder (programs/makefemtofs.cpp:1511-1529)
    must agree on. */
module Loads {
  import opened Format
  import opened Slice
  import opened Counting

  function Count(anchors: seq<nat>, a: nat): nat {
    if anchors == [] then 0
    else Count(anchors[..|anchors| - 1], a) + (if anchors[|anchors| - 1] == a then 1 else 0)
  }

  function LoadsOf(anchors: seq<nat>, size: nat): seq<nat> {
    seq(size, a requires a >= 0 => Count(anchors, a))
  }

  /** The less loaded of the two anchors, the lower one on a tie. */
  function Choose(h: Hashing, loads: seq<nat>, name: seq<byte>): (a: nat)
    requires |loads| > 0
    ensures a < |loads|
  {
    var h1 := Hash(name, h.base, |loads|);
    if h.second.None? then
      h1
    else
      var h2 := Hash(name, h.second.value, |loads|);
      if loads[h2] < loads[h1] || (loads[h2] == loads[h1] && h2 < h1) then h2 else h1
  }

  /** Names are given anchors in order, each seeing the loads the earlier ones left. */
  function Assign(h: Hashing, names: seq<seq<byte>>, size: nat): (anchors: seq<nat>)
    requires size > 0
    ensures |anchors| == |names|
    ensures forall k: nat :: k < |names| ==> anchors[k] < size
  {
    if names == [] then
      []
    else
      var last := |names| - 1;
      var front := Assign(h, names[..last], size);
      front + [Choose(h, LoadsOf(front, size), names[last])]
  }

  lemma {:induction false} AssignSound(h: Hashing, names: seq<seq<byte>>, size: nat, k: nat)
    requires size > 0 && k < |names|
    ensures Assign(h, names, size)[k] in Anchors(h, names[k], size)
  {
    var last := |names| - 1;
    if k < last {
      AssignSound(h, names[..last], size, k);
    }
  }

  /** The earlier names with an anchor. */
  ghost function Earlier(anchors: seq<nat>, k: nat, a: nat): set<nat>
    requires k <= |anchors|
  {
    set j: nat | j < k && anchors[j] == a
  }

  /** Name k has the anchor of the two that fewer earlier names have, the lower one when as many have either. */
  ghost predicate FewestBefore(h: Hashing, names: seq<seq<byte>>, size: nat, anchors: seq<nat>, k: nat)
    requires size > 0 && k < |names| == |anchors|
  {
    var h1 := Hash(names[k], h.base, size);
    if h.second.None? then anchors[k] == h1
    else
      var h2 := Hash(names[k], h.second.value, size);
      var n1, n2 := |Earlier(anchors, k, h1)|, |Earlier(anchors, k, h2)|;
      && (n1 < n2 ==> anchors[k] == h1) && (n2 < n1 ==> anchors[k] == h2)
      && (n1 == n2 ==> anchors[k] == if h1 < h2 then h1 else h2)
  }

  /** Anchors given name by name, each by the counts so far. */
  ghost predicate Balanced(h: Hashing, names: seq<seq<byte>>, size: nat, anchors: seq<nat>) {
    && size > 0 && |anchors| == |names|
    && forall k: nat {:trigger FewestBefore(h, names, size, anchors, k)} :: k < |names| ==>
         FewestBefore(h, names, size, anchors, k)
  }

  lemma {:induction false} CountIs(anchors: seq<nat>, k: nat, a: nat)
    requires k <= |anchors|
    ensures Count(anchors[..k], a) == |set j: nat | j < k && anchors[j] == a|
  {
    var now := set j: nat | j < k && anchors[j] == a;
    if k == 0 {
      assert now == {};
    } else {
      CountIs(anchors, k - 1, a);
      assert anchors[..k][..k - 1] == anchors[..k - 1];
      var was := set j: nat | j < k - 1 && anchors[j] == a;
      assert now == if anchors[k - 1] == a then was + {k - 1} else was;
    }
  }

  lemma {:induction false} AssignPrefix(h: Hashing, names: seq<seq<byte>>, size: nat, k: nat)
    requires size > 0 && k <= |names|
    ensures Assign(h, names[..k], size) == Assign(h, names, size)[..k]
    decreases |names| - k
  {
    if k < |names| {
      AssignStep(h, names, size, k);
      AssignPrefix(h, names, size, k + 1);
      assert Assign(h, names, size)[..k + 1][..k] == Assign(h, names, size)[..k];
    } else {
      assert names[..k] == names;
    }
  }

  /** The rule in full: what wraps to 32 bits, what counts, and what breaks a tie. */
  lemma AnchorRule(h: Hashing, names: seq<seq<byte>>, size: nat, k: nat)
    requires size > 0 && k < |names|
    ensures var anchors := Assign(h, names, size);
            var h1 := Polynomial(names[k], h.base) % 0x1_0000_0000 % size;
            && (h.second.None? ==> anchors[k] == h1)
            && (h.second.Some? ==>
                  var h2 := Polynomial(names[k], h.second.value) % 0x1_0000_0000 % size;
                  var n1, n2 := |set j: nat | j < k && anchors[j] == h1|, |set j: nat | j < k && anchors[j] == h2|;
                  && (n1 < n2 ==> anchors[k] == h1) && (n2 < n1 ==> anchors[k] == h2)
                  && (n1 == n2 && h1 <= h2 ==> anchors[k] == h1) && (n1 == n2 && h2 <= h1 ==> anchors[k] == h2))
    ensures FewestBefore(h, names, size, Assign(h, names, size), k)
  {
    var anchors := Assign(h, names, size);
    AssignStep(h, names, size, k);
    AssignPrefix(h, names, size, k);
    AssignPrefix(h, names, size, k + 1);
    assert anchors[k] == anchors[..k + 1][k];
    CountIs(anchors, k, Hash(names[k], h.base, size));
    if h.second.Some? {
      CountIs(anchors, k, Hash(names[k], h.second.value, size));
    }
  }

  lemma AssignBalanced(h: Hashing, names: seq<seq<byte>>, size: nat)
    requires size > 0
    ensures Balanced(h, names, size, Assign(h, names, size))
  {
    forall k: nat | k < |names|
      ensures FewestBefore(h, names, size, Assign(h, names, size), k)
    {
      AnchorRule(h, names, size, k);
    }
  }

  lemma SameEarlier(x: seq<nat>, y: seq<nat>, k: nat, a: nat)
    requires k <= |x| && k <= |y| && x[..k] == y[..k]
    ensures Earlier(x, k, a) == Earlier(y, k, a)
  {
    assert forall j: nat :: j < k ==> x[j] == x[..k][j] && y[j] == y[..k][j];
  }

  lemma SameNext(h: Hashing, names: seq<seq<byte>>, size: nat, x: seq<nat>, y: seq<nat>, k: nat)
    requires size > 0 && k < |names| == |x| == |y| && x[..k] == y[..k]
    requires FewestBefore(h, names, size, x, k) && FewestBefore(h, names, size, y, k)
    ensures x[k] == y[k]
  {
    SameEarlier(x, y, k, Hash(names[k], h.base, size));
    if h.second.Some? {
      SameEarlier(x, y, k, Hash(names[k], h.second.value, size));
    }
  }

  /** The rule leaves no choice. */
  lemma {:induction false} BalancedUnique(h: Hashing, names: seq<seq<byte>>, size: nat, x: seq<nat>, y: seq<nat>,
                                          n: nat)
    requires Balanced(h, names, size, x) && Balanced(h, names, size, y) && n <= |names|
    ensures x[..n] == y[..n]
  {
    if n > 0 {
      var k := n - 1;
      BalancedUnique(h, names, size, x, y, k);
      assert FewestBefore(h, names, size, x, k) && FewestBefore(h, names, size, y, k);
      SameNext(h, names, size, x, y, k);
      assert x[..n] == x[..k] + [x[k]] && y[..n] == y[..k] + [y[k]];
    }
  }

  /** Where the first base alone would lengthen a chain and the second would not, the name starts a chain of its own. */
  lemma OwnChain(h: Hashing, names: seq<seq<byte>>, size: nat, anchors: seq<nat>, k: nat, i: nat)
    requires Balanced(h, names, size, anchors) && i < k < |names| && h.second.Some?
    requires anchors[i] == Hash(names[k], h.base, size)
    requires forall j: nat :: j < k ==> anchors[j] != Hash(names[k], h.second.value, size)
    ensures forall j: nat :: j < k ==> anchors[j] != anchors[k]
  {
    assert i in Earlier(anchors, k, anchors[i]);
    assert Earlier(anchors, k, Hash(names[k], h.second.value, size)) == {};
    assert FewestBefore(h, names, size, anchors, k);
  }

  lemma AssignStep(h: Hashing, names: seq<seq<byte>>, size: nat, k: nat)
    requires size > 0 && k < |names|
    ensures var front := Assign(h, names[..k], size);
            Assign(h, names[..k + 1], size) == front + [Choose(h, LoadsOf(front, size), names[k])]
  {
    assert names[..k + 1][..k] == names[..k];
  }

  lemma LoadsStep(anchors: seq<nat>, size: nat, a: nat)
    requires a < size
    ensures LoadsOf(anchors + [a], size) == LoadsOf(anchors, size)[a := Count(anchors, a) + 1]
  {
    assert (anchors + [a])[..|anchors|] == anchors;
  }

  // ---------------------------------------------------------------- totals

  function Sum(xs: seq<nat>): nat {
    if xs == [] then 0 else Sum(xs[..|xs| - 1]) + xs[|xs| - 1]
  }

  function Squares(xs: seq<nat>): seq<nat> {
    seq(|xs|, i requires 0 <= i < |xs| => xs[i] * xs[i])
  }

  function SumSquares(xs: seq<nat>): nat {
    Sum(Squares(xs))
  }

  function Maximum(xs: seq<nat>): nat {
    if xs == [] then 0
    else var m := Maximum(xs[..|xs| - 1]); if xs[|xs| - 1] > m then xs[|xs| - 1] else m
  }

  lemma {:induction false} SumUpdate(xs: seq<nat>, i: nat, v: nat)
    requires i < |xs|
    ensures Sum(xs[i := v]) + xs[i] == Sum(xs) + v
  {
    var last := |xs| - 1;
    if i < last {
      SumUpdate(xs[..last], i, v);
      assert xs[i := v][..last] == xs[..last][i := v];
    } else {
      assert xs[i := v][..last] == xs[..last];
    }
  }

  lemma {:induction false} SumZero(n: nat)
    ensures Sum(seq(n, _ => 0)) == 0
  {
    if n > 0 {
      SumZero(n - 1);
      assert seq(n, _ => 0)[..n - 1] == seq(n - 1, _ => 0);
    }
  }

  /** Every name is counted at exactly one anchor. */
  lemma {:induction false} LoadsTotal(anchors: seq<nat>, size: nat)
    requires forall k: nat :: k < |anchors| ==> anchors[k] < size
    ensures Sum(LoadsOf(anchors, size)) == |anchors|
  {
    if anchors == [] {
      SumZero(size);
      assert LoadsOf(anchors, size) == seq(size, _ => 0);
    } else {
      var last := |anchors| - 1;
      LoadsTotal(anchors[..last], size);
      LoadsStep(anchors[..last], size, anchors[last]);
      assert anchors == anchors[..last] + [anchors[last]];
      SumUpdate(LoadsOf(anchors[..last], size), anchors[last], Count(anchors[..last], anchors[last]) + 1);
    }
  }

  lemma {:induction false} MaximumBounds(xs: seq<nat>)
    ensures forall i: nat :: i < |xs| ==> xs[i] <= Maximum(xs)
    ensures Maximum(xs) > 0 ==> Maximum(xs) in xs
  {
    if xs != [] {
      MaximumBounds(xs[..|xs| - 1]);
      assert xs == xs[..|xs| - 1] + [xs[|xs| - 1]];
    }
  }

  /** The sum of squared loads is at least the number of names, and equal to it exactly when no
      anchor carries more than one. */
  lemma {:induction false} SquaresAtLeast(xs: seq<nat>)
    ensures SumSquares(xs) >= Sum(xs)
    ensures SumSquares(xs) == Sum(xs) <==> Maximum(xs) <= 1
  {
    if xs != [] {
      var last := |xs| - 1;
      SquaresAtLeast(xs[..last]);
      assert Squares(xs)[..last] == Squares(xs[..last]);
      var x := xs[last];
      assert x * x >= x && (x * x == x <==> x <= 1) by {
        if x >= 2 {
          assert x * x >= 2 * x;
        }
      }
    }
  }

  lemma {:induction false} SumWithout(xs: seq<nat>, i: nat)
    requires i < |xs|
    ensures Sum(Without(xs, i)) + xs[i] == Sum(xs)
  {
    var last := |xs| - 1;
    if i < last {
      SumWithout(xs[..last], i);
      var rest := Without(xs, i);
      assert rest[..|rest| - 1] == Without(xs[..last], i);
    } else {
      assert Without(xs, i) == xs[..last];
    }
  }

  lemma {:induction false} SumPermutation(xs: seq<nat>, ys: seq<nat>)
    requires multiset(xs) == multiset(ys)
    ensures Sum(xs) == Sum(ys)
    decreases |xs|
  {
    if xs == [] {
      assert |multiset(ys)| == 0;
    } else {
      var i := TakeLast(xs, ys);
      SumWithout(ys, i);
      SumPermutation(xs[..|xs| - 1], Without(ys, i));
    }
  }
}
