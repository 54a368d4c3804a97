/** A directory's bucket slice and what its links mean.

    A cell is empty, holds an attribute, or is an occupied bucket with a name, a target object and
    the slice-relative index of the next bucket of its chain; the slice's size is the end sentinel. */
module Slice {
  import opened Format
  import opened Counting

  datatype Cell = Empty | Attr | Bucket(name: seq<byte>, target: nat, next: nat)

  /** The directory's hash control: its own base, and the image-wide second base in dual mode. */
  datatype Hashing = Hashing(base: u32, second: Option<u32>)

  predicate Occupied(s: seq<Cell>, i: nat) {
    i < |s| && s[i].Bucket?
  }

  ghost function OccupiedSet(s: seq<Cell>): set<nat> {
    set i: nat | i < |s| && s[i].Bucket?
  }

  function Anchors(h: Hashing, name: seq<byte>, size: nat): set<nat>
    requires size > 0
  {
    {Hash(name, h.base, size)} + (if h.second.Some? then {Hash(name, h.second.value, size)} else {})
  }

  /** Where following k links from i leads; the walk stays where there is no bucket to follow. */
  ghost function At(s: seq<Cell>, i: nat, k: nat): nat
    decreases k
  {
    if k == 0 || !Occupied(s, i) then i else At(s, s[i].next, k - 1)
  }

  ghost predicate Reach(s: seq<Cell>, i: nat, j: nat) {
    exists k: nat :: At(s, i, k) == j
  }

  /** Following links from i gets to the sentinel. */
  ghost predicate Ends(s: seq<Cell>, i: nat) {
    Reach(s, i, |s|)
  }

  predicate LinkOk(s: seq<Cell>, i: nat)
    requires Occupied(s, i)
  {
    s[i].next == |s| || Occupied(s, s[i].next)
  }

  ghost predicate LinksOk(s: seq<Cell>) {
    forall i: nat {:trigger LinkOk(s, i)} :: Occupied(s, i) ==> LinkOk(s, i)
  }

  /** Some anchor of the bucket's own name leads to it. */
  ghost predicate Anchored(s: seq<Cell>, h: Hashing, i: nat)
    requires Occupied(s, i)
  {
    exists a: nat :: a in Anchors(h, s[i].name, |s|) && Reach(s, a, i)
  }

  /** What a slice must satisfy: links stay on buckets, no chain loops, every entry can be looked up. */
  ghost predicate WellChained(s: seq<Cell>, h: Hashing) {
    && LinksOk(s)
    && (forall i: nat {:trigger Ends(s, i)} :: Occupied(s, i) ==> Ends(s, i))
    && (forall i: nat {:trigger Anchored(s, h, i)} :: Occupied(s, i) ==> Anchored(s, h, i))
  }

  // ---------------------------------------------------------------- walking

  lemma ReachSelf(s: seq<Cell>, i: nat)
    ensures Reach(s, i, i)
  {
    assert At(s, i, 0) == i;
  }

  lemma {:induction false} AtAdd(s: seq<Cell>, i: nat, j: nat, k: nat)
    ensures At(s, i, j + k) == At(s, At(s, i, j), k)
    decreases j
  {
    if j > 0 && Occupied(s, i) {
      AtAdd(s, s[i].next, j - 1, k);
    } else if j > 0 {
      AtStuck(s, i, j);
      AtStuck(s, i, j + k);
      AtStuck(s, i, k);
    }
  }

  lemma AtOne(s: seq<Cell>, i: nat, k: nat)
    requires k > 0 && Occupied(s, At(s, i, k - 1))
    ensures At(s, i, k) == s[At(s, i, k - 1)].next
  {
    AtAdd(s, i, k - 1, 1);
    var p := At(s, i, k - 1);
    assert At(s, p, 1) == At(s, s[p].next, 0);
  }

  lemma AtStuck(s: seq<Cell>, i: nat, k: nat)
    requires !Occupied(s, i)
    ensures At(s, i, k) == i
  {
  }

  lemma ReachTrans(s: seq<Cell>, i: nat, j: nat, l: nat)
    requires Reach(s, i, j) && Reach(s, j, l)
    ensures Reach(s, i, l)
  {
    var a: nat :| At(s, i, a) == j;
    var b: nat :| At(s, j, b) == l;
    AtAdd(s, i, a, b);
  }

  /** Reaching is being there already or reaching from the next cell. */
  lemma ReachNext(s: seq<Cell>, i: nat, j: nat)
    requires Occupied(s, i)
    ensures Reach(s, i, j) <==> i == j || Reach(s, s[i].next, j)
  {
    if Reach(s, i, j) && i != j {
      var k: nat :| At(s, i, k) == j;
      assert At(s, s[i].next, k - 1) == j;
    }
    if Reach(s, s[i].next, j) {
      var k: nat :| At(s, s[i].next, k) == j;
      assert At(s, i, k + 1) == j;
    }
    ReachSelf(s, i);
  }

  /** A proper walk to j comes in through a bucket whose link is j. */
  lemma {:induction false} LastStep(s: seq<Cell>, i: nat, j: nat, k: nat) returns (c: nat)
    requires At(s, i, k) == j && i != j
    ensures Occupied(s, c) && s[c].next == j && Reach(s, i, c)
    decreases k
  {
    if s[i].next == j {
      c := i;
      ReachSelf(s, i);
    } else {
      c := LastStep(s, s[i].next, j, k - 1);
      ReachNext(s, i, c);
    }
  }

  /** Nothing on a chain that ends can be reached from its own successor. */
  lemma NoCycle(s: seq<Cell>, i: nat)
    requires Occupied(s, i) && Ends(s, i)
    ensures !Reach(s, s[i].next, i)
  {
    if Reach(s, s[i].next, i) {
      var p: nat :| At(s, s[i].next, p) == i;
      var e: nat :| At(s, i, e) == |s|;
      assert At(s, i, p + 1) == i;
      Periodic(s, i, p + 1, e + 1);
      Past(s, i, e, (e + 1) * (p + 1));
    }
  }

  lemma {:induction false} Periodic(s: seq<Cell>, i: nat, p: nat, m: nat)
    requires At(s, i, p) == i
    ensures At(s, i, m * p) == i
  {
    if m > 0 {
      Periodic(s, i, p, m - 1);
      AtAdd(s, i, (m - 1) * p, p);
      assert (m - 1) * p + p == m * p;
    }
  }

  /** Once at the sentinel, always at the sentinel. */
  lemma Past(s: seq<Cell>, i: nat, e: nat, k: nat)
    requires At(s, i, e) == |s| && e <= k
    ensures At(s, i, k) == |s|
  {
    AtAdd(s, i, e, k - e);
    AtStuck(s, |s|, k - e);
  }

  lemma EndsNext(s: seq<Cell>, i: nat)
    requires Occupied(s, i)
    ensures Ends(s, i) <==> Ends(s, s[i].next)
  {
    ReachNext(s, i, |s|);
  }

  /** A chain that ends has a last bucket, whose link is the sentinel. */
  lemma LastBucket(s: seq<Cell>, i: nat) returns (r: nat)
    requires Occupied(s, i) && Ends(s, i)
    ensures Occupied(s, r) && s[r].next == |s| && Reach(s, i, r)
  {
    var e: nat :| At(s, i, e) == |s|;
    r := LastStep(s, i, |s|, e);
  }

  lemma EndsFrom(s: seq<Cell>, a: nat, i: nat)
    requires Ends(s, a) && Reach(s, a, i) && Occupied(s, i)
    ensures Ends(s, i) && LinkOk(s, i)
  {
    var e: nat :| At(s, a, e) == |s|;
    var k: nat :| At(s, a, k) == i;
    if k >= e {
      Past(s, a, e, k);
    }
    AtAdd(s, a, k, e - k);
    EndsNext(s, i);
    Stays(s, s[i].next, |s|);
  }

  /** Only a bucket leads anywhere else. */
  lemma Stays(s: seq<Cell>, i: nat, j: nat)
    requires Reach(s, i, j)
    ensures i == j || Occupied(s, i)
  {
    var k: nat :| At(s, i, k) == j;
    if !Occupied(s, i) {
      AtStuck(s, i, k);
    }
  }

  /** The buckets met in the first k steps. */
  ghost function Trail(s: seq<Cell>, i: nat, k: nat): seq<nat> {
    seq(k, n requires n >= 0 => At(s, i, n))
  }

  /** No bucket comes twice on a chain that ends, so a walk of as many steps as cells is long enough. */
  lemma TrailDistinct(s: seq<Cell>, i: nat, k: nat)
    requires Ends(s, i) && At(s, i, k) != |s|
    ensures forall n: nat :: n <= k ==> Occupied(s, At(s, i, n))
    ensures Distinct(Trail(s, i, k + 1)) && k < |s|
  {
    var e: nat :| At(s, i, e) == |s|;
    forall n: nat | n <= k
      ensures Occupied(s, At(s, i, n)) && Ends(s, At(s, i, n))
    {
      if e <= k {
        Past(s, i, e, k);
      }
      AtAdd(s, i, n, e - n);
      Stays(s, At(s, i, n), |s|);
      if At(s, i, n) == |s| {
        Past(s, i, n, k);
      }
    }
    forall n: nat, m: nat | n < m <= k
      ensures At(s, i, n) != At(s, i, m)
    {
      var x := At(s, i, n);
      if x == At(s, i, m) {
        AtAdd(s, i, n, m - n);
        assert At(s, s[x].next, m - n - 1) == x;
        NoCycle(s, x);
      }
    }
    Pigeonhole(Trail(s, i, k + 1), |s|);
  }

  /** What the two walking checkers look at, entry by entry: own link, own anchors' chains, own place. */
  ghost predicate AnchorChainsClean(s: seq<Cell>, h: Hashing, i: nat)
    requires Occupied(s, i)
  {
    && (forall a: nat {:trigger Ends(s, a)} :: a in Anchors(h, s[i].name, |s|) && Occupied(s, a) ==> Ends(s, a))
    && Anchored(s, h, i)
  }

  /** Walking only from the entries' own anchors still covers every link and every chain. */
  lemma AnchorsSuffice(s: seq<Cell>, h: Hashing)
    ensures WellChained(s, h) <==>
            forall i: nat {:trigger AnchorChainsClean(s, h, i)} :: Occupied(s, i) ==> AnchorChainsClean(s, h, i)
  {
    if WellChained(s, h) {
      forall i: nat | Occupied(s, i)
        ensures AnchorChainsClean(s, h, i)
      {
        assert Anchored(s, h, i);
      }
    } else if forall i: nat {:trigger AnchorChainsClean(s, h, i)} :: Occupied(s, i) ==> AnchorChainsClean(s, h, i) {
      forall i: nat | Occupied(s, i)
        ensures LinkOk(s, i) && Ends(s, i) && Anchored(s, h, i)
      {
        assert AnchorChainsClean(s, h, i);
        var a: nat :| a in Anchors(h, s[i].name, |s|) && Reach(s, a, i);
        Stays(s, a, i);
        EndsFrom(s, a, i);
      }
      assert WellChained(s, h);
    }
  }
}
