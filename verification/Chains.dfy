/** The kernel decoder's chain check (ko/image.c:117-162).

    The links of a slice form a forest once reversed.  The check threads each bucket's predecessors
    into an intrusive child list, numbers the forest by an iterative depth-first walk, and then answers
    "is this bucket reachable from that anchor" with one interval comparison.  The method below does
    the same on arrays; its contract says the answer is exactly `WellChained`. */
module Chains {
  import opened Format
  import opened Slice
  import opened Counting

  // ---------------------------------------------------------------- child lists

  /** One more than the greatest predecessor of p below b, or 0 when there is none. */
  function ChildBelow(s: seq<Cell>, p: nat, b: nat): (r: nat)
    requires b <= |s|
    ensures r <= b
    ensures r > 0 ==> IsChild(s, r - 1, p)
    ensures forall c: nat :: r <= c < b ==> !IsChild(s, c, p)
  {
    if b == 0 then 0 else if IsChild(s, b - 1, p) then b else ChildBelow(s, p, b - 1)
  }

  predicate IsChild(s: seq<Cell>, c: nat, p: nat) {
    Occupied(s, c) && s[c].next == p
  }

  predicate IsRoot(s: seq<Cell>, r: nat) {
    IsChild(s, r, |s|)
  }

  // ---------------------------------------------------------------- the walk's invariant

  /** A snapshot of the work arrays the walk updates. */
  datatype Work = Work(head: seq<nat>, enter: seq<nat>, leave: seq<nat>, clock: nat)

  ghost predicate Finished(w: Work, x: nat) {
    x < |w.leave| && w.leave[x] > 0
  }

  ghost predicate Entered(w: Work, x: nat) {
    x < |w.enter| && w.enter[x] > 0
  }

  ghost predicate Active(w: Work, x: nat) {
    Entered(w, x) && !Finished(w, x)
  }

  ghost predicate Shape(s: seq<Cell>, w: Work) {
    |w.head| == |s| && |w.enter| == |s| && |w.leave| == |s|
  }

  /** The interval of v holds x's entry number. */
  ghost predicate Within(w: Work, v: nat, x: nat)
    requires x < |w.enter| && v < |w.enter| && v < |w.leave|
  {
    Entered(w, x) && w.enter[v] <= w.enter[x] <= w.leave[v]
  }

  /** Numbers are given out in order, only to buckets whose chain ends. */
  ghost predicate Numbering(s: seq<Cell>, w: Work)
    requires Shape(s, w)
  {
    && (forall x: nat :: Entered(w, x) ==> Occupied(s, x) && Ends(s, x) && w.enter[x] <= w.clock)
    && (forall x: nat :: Finished(w, x) ==> Entered(w, x) && w.enter[x] <= w.leave[x] <= w.clock)
    && |set x: nat | x < |s| && Entered(w, x)| == w.clock
  }

  /** A finished bucket's interval holds exactly the buckets that reach it. */
  ghost predicate Intervals(s: seq<Cell>, w: Work)
    requires Shape(s, w)
  {
    forall v: nat, x: nat :: Finished(w, v) && Occupied(s, x) ==> (Reach(s, x, v) <==> Within(w, v, x))
  }

  /** An entered bucket's successor was entered before it. */
  ghost predicate ParentsFirst(s: seq<Cell>, w: Work)
    requires Shape(s, w)
  {
    forall c: nat :: Occupied(s, c) && Entered(w, c) && s[c].next < |s| ==>
      Entered(w, s[c].next) && w.enter[s[c].next] < w.enter[c]
  }

  /** Child lists: what is still listed has not been entered, what has been taken off has. */
  ghost predicate Lists(s: seq<Cell>, w: Work, i: nat)
    requires Shape(s, w)
  {
    && (forall p: nat :: p < |s| && w.head[p] > 0 ==> IsChild(s, w.head[p] - 1, p))
    && (forall c: nat :: Occupied(s, c) && s[c].next < |s| ==>
          if c < w.head[s[c].next] then !Entered(w, c) && c != i else Entered(w, c) || c == i)
  }

  /** The buckets entered but not left are the ones the current bucket leads to. */
  ghost predicate Path(s: seq<Cell>, w: Work, i: nat)
    requires Shape(s, w)
  {
    && !Finished(w, i)
    && (forall x: nat :: x < |s| && x != i ==> (Active(w, x) <==> Reach(s, i, x)))
    && (forall v: nat, x: nat :: Active(w, v) && Entered(w, x) && w.enter[v] <= w.enter[x] ==> Reach(s, x, v))
  }

  /** Holds each time round the walk from `root`, standing at bucket i. */
  ghost predicate Walking(s: seq<Cell>, w: Work, root: nat, i: nat) {
    && LinksOk(s) && Shape(s, w) && IsRoot(s, root) && Occupied(s, i) && Reach(s, i, root)
    && Numbering(s, w) && Intervals(s, w) && ParentsFirst(s, w) && Lists(s, w, i) && Path(s, w, i)
  }

  /** Holds between walks: everything entered has been left, and all roots below r are done. */
  ghost predicate Between(s: seq<Cell>, w: Work, r: nat) {
    && LinksOk(s) && Shape(s, w)
    && Numbering(s, w) && Intervals(s, w) && ParentsFirst(s, w) && Lists(s, w, |s|)
    && (forall x: nat :: !Active(w, x))
    && (forall x: nat :: IsRoot(s, x) ==> (Finished(w, x) <==> x < r))
  }

  /** During the walk from `root`: the roots below it are done, the ones above are untouched. */
  ghost predicate RootsDone(s: seq<Cell>, w: Work, root: nat) {
    forall x: nat :: IsRoot(s, x) && x != root ==> (Finished(w, x) <==> x < root) && (Entered(w, x) <==> x < root)
  }

  lemma RootEnds(s: seq<Cell>, i: nat, root: nat)
    requires IsRoot(s, root) && Reach(s, i, root)
    ensures Ends(s, i)
  {
    ReachSelf(s, |s|);
    ReachNext(s, root, |s|);
    ReachTrans(s, i, root, |s|);
  }

  lemma RootStays(s: seq<Cell>, root: nat, x: nat)
    requires IsRoot(s, root) && Reach(s, root, x)
    ensures x == root || x == |s|
  {
    var k: nat :| At(s, root, k) == x;
    if k > 0 {
      AtStuck(s, |s|, k - 1);
    }
  }

  lemma Start(s: seq<Cell>, w: Work, r: nat)
    requires Between(s, w, r) && IsRoot(s, r)
    ensures Walking(s, w, r, r) && RootsDone(s, w, r)
  {
    ReachSelf(s, r);
    forall x: nat | x < |s| && x != r
      ensures Active(w, x) <==> Reach(s, r, x)
    {
      assert !Active(w, x);
      if Reach(s, r, x) {
        RootStays(s, r, x);
      }
    }
    forall x: nat | IsRoot(s, x) && x != r
      ensures (Finished(w, x) <==> x < r) && (Entered(w, x) <==> x < r)
    {
      assert !Active(w, x);
    }
  }

  /** Buckets not left yet, and buckets still on their successor's list: what a walk uses up. */
  ghost function Open(w: Work): set<nat> {
    set x: nat | x < |w.leave| && w.leave[x] == 0
  }

  ghost function Listed(s: seq<Cell>, w: Work): set<nat>
    requires Shape(s, w)
  {
    set c: nat | c < |s| && Occupied(s, c) && s[c].next < |s| && c < w.head[s[c].next]
  }

  // First visit: number the bucket.

  ghost function Numbered(w: Work, i: nat): Work
    requires i < |w.enter|
  {
    w.(enter := w.enter[i := w.clock + 1], clock := w.clock + 1)
  }

  lemma EnterNumbering(s: seq<Cell>, w: Work, i: nat)
    requires Shape(s, w) && Numbering(s, w) && Occupied(s, i) && Ends(s, i) && !Entered(w, i)
    ensures Numbering(s, Numbered(w, i))
  {
    var w' := Numbered(w, i);
    assert (set x: nat | x < |s| && Entered(w', x)) == (set x: nat | x < |s| && Entered(w, x)) + {i};
    forall x: nat | Entered(w', x)
      ensures Occupied(s, x) && Ends(s, x) && w'.enter[x] <= w'.clock
    {
      assert x == i || Entered(w, x);
    }
    forall x: nat | Finished(w', x)
      ensures Entered(w', x) && w'.enter[x] <= w'.leave[x] <= w'.clock
    {
      assert Finished(w, x);
    }
  }

  lemma EnterIntervals(s: seq<Cell>, w: Work, i: nat)
    requires Shape(s, w) && Numbering(s, w) && Intervals(s, w) && Occupied(s, i) && !Entered(w, i)
    ensures Intervals(s, Numbered(w, i))
  {
    var w' := Numbered(w, i);
    forall v: nat, x: nat | Finished(w', v) && Occupied(s, x)
      ensures Reach(s, x, v) <==> Within(w', v, x)
    {
      assert Finished(w, v) && v != i;
      assert Within(w, v, x) <==> Within(w', v, x);
    }
  }

  lemma EnterParents(s: seq<Cell>, w: Work, i: nat)
    requires Shape(s, w) && Numbering(s, w) && ParentsFirst(s, w) && Occupied(s, i) && !Entered(w, i)
    requires s[i].next < |s| ==> Entered(w, s[i].next)
    ensures ParentsFirst(s, Numbered(w, i))
  {
    var w' := Numbered(w, i);
    forall c: nat | Occupied(s, c) && Entered(w', c) && s[c].next < |s|
      ensures Entered(w', s[c].next) && w'.enter[s[c].next] < w'.enter[c]
    {
      assert c == i || Entered(w, c);
      assert Entered(w, s[c].next);
    }
  }

  lemma EnterLists(s: seq<Cell>, w: Work, i: nat)
    requires Shape(s, w) && Lists(s, w, i) && i < |s| && !Entered(w, i)
    ensures Lists(s, Numbered(w, i), i)
  {
    var w' := Numbered(w, i);
    forall c: nat
      ensures c != i ==> Entered(w', c) == Entered(w, c)
    {
    }
  }

  lemma EnterPath(s: seq<Cell>, w: Work, i: nat)
    requires Shape(s, w) && Numbering(s, w) && Path(s, w, i) && i < |s| && !Entered(w, i)
    ensures Path(s, Numbered(w, i), i)
  {
    var w' := Numbered(w, i);
    forall x: nat
      ensures Finished(w', x) == Finished(w, x) && (x != i ==> Entered(w', x) == Entered(w, x))
    {
    }
    forall v: nat, x: nat | Active(w', v) && Entered(w', x) && w'.enter[v] <= w'.enter[x]
      ensures Reach(s, x, v)
    {
      if v == x {
        ReachSelf(s, x);
      } else if x == i {
        assert Active(w, v);
      } else if v == i {
        assert Entered(w, x);
        assert false;
      } else {
        assert Active(w, v) && Entered(w, x);
      }
    }
  }

  lemma ParentActive(s: seq<Cell>, w: Work, root: nat, i: nat)
    requires Walking(s, w, root, i) && s[i].next < |s|
    ensures s[i].next != i && Active(w, s[i].next)
  {
    RootEnds(s, i, root);
    NoCycle(s, i);
    ReachSelf(s, s[i].next);
    ReachNext(s, i, s[i].next);
  }

  lemma OnlyItsRoot(s: seq<Cell>, root: nat, i: nat)
    requires IsRoot(s, root) && Reach(s, i, root) && IsRoot(s, i)
    ensures i == root
  {
    RootStays(s, i, root);
  }

  lemma Enter(s: seq<Cell>, w: Work, root: nat, i: nat)
    requires Walking(s, w, root, i) && RootsDone(s, w, root) && !Entered(w, i)
    ensures Walking(s, Numbered(w, i), root, i) && RootsDone(s, Numbered(w, i), root)
  {
    RootEnds(s, i, root);
    if IsRoot(s, i) {
      OnlyItsRoot(s, root, i);
    }
    if s[i].next < |s| {
      ParentActive(s, w, root, i);
    }
    EnterNumbering(s, w, i);
    EnterIntervals(s, w, i);
    EnterParents(s, w, i);
    EnterLists(s, w, i);
    EnterPath(s, w, i);
  }

  // Take the next predecessor off the list and go there.

  ghost function Taken(s: seq<Cell>, w: Work, i: nat): Work
    requires Shape(s, w) && i < |s| && 0 < w.head[i] <= |s|
  {
    w.(head := w.head[i := ChildBelow(s, i, w.head[i] - 1)])
  }

  lemma DescendLists(s: seq<Cell>, w: Work, i: nat)
    requires Shape(s, w) && Lists(s, w, i) && i < |s| && Entered(w, i) && 0 < w.head[i] <= |s|
    ensures Lists(s, Taken(s, w, i), w.head[i] - 1)
  {
    var j := w.head[i] - 1;
    var w' := Taken(s, w, i);
    forall c: nat | Occupied(s, c) && s[c].next < |s|
      ensures if c < w'.head[s[c].next] then !Entered(w', c) && c != j else Entered(w', c) || c == j
    {
      assert Entered(w', c) == Entered(w, c);
      if s[c].next == i {
        assert IsChild(s, c, i);
      } else {
        assert IsChild(s, j, i);
      }
    }
  }

  lemma DescendPath(s: seq<Cell>, w: Work, i: nat, j: nat)
    requires Shape(s, w) && Path(s, w, i) && Entered(w, i) && IsChild(s, j, i) && !Finished(w, j)
    ensures Path(s, w, j)
  {
    forall x: nat | x < |s| && x != j
      ensures Active(w, x) <==> Reach(s, j, x)
    {
      ReachNext(s, j, x);
      if x == i {
        ReachSelf(s, i);
      }
    }
  }

  lemma Descend(s: seq<Cell>, w: Work, root: nat, i: nat)
    requires Walking(s, w, root, i) && RootsDone(s, w, root) && Entered(w, i) && w.head[i] > 0
    ensures w.head[i] <= |s| && Walking(s, Taken(s, w, i), root, w.head[i] - 1)
    ensures RootsDone(s, Taken(s, w, i), root)
    ensures Open(Taken(s, w, i)) == Open(w) && Listed(s, Taken(s, w, i)) < Listed(s, w)
  {
    var j := w.head[i] - 1;
    assert IsChild(s, j, i);
    assert !Entered(w, j);
    ReachNext(s, j, root);
    DescendLists(s, w, i);
    DescendPath(s, w, i, j);
    HeadsDoNotMatter(s, w, Taken(s, w, i), j);
    assert j in Listed(s, w) && j !in Listed(s, Taken(s, w, i));
  }

  lemma HeadsDoNotMatter(s: seq<Cell>, w: Work, w': Work, i: nat)
    requires Shape(s, w) && Numbering(s, w) && Intervals(s, w) && ParentsFirst(s, w) && Path(s, w, i)
    requires Shape(s, w') && w' == w.(head := w'.head)
    ensures Numbering(s, w') && Intervals(s, w') && ParentsFirst(s, w') && Path(s, w', i)
  {
    forall x: nat
      ensures Entered(w', x) == Entered(w, x) && Finished(w', x) == Finished(w, x)
    {
    }
    assert (set x: nat | x < |s| && Entered(w', x)) == (set x: nat | x < |s| && Entered(w, x));
    forall v: nat, x: nat | Finished(w', v) && Occupied(s, x)
      ensures Reach(s, x, v) <==> Within(w', v, x)
    {
      assert Finished(w, v);
      assert Within(w', v, x) <==> Within(w, v, x);
    }
  }

  /** No predecessor left: close the bucket's interval. */
  lemma Close(s: seq<Cell>, w: Work, root: nat, i: nat, x: nat)
    requires Walking(s, w, root, i) && Entered(w, i) && w.head[i] == 0 && Occupied(s, x)
    ensures Reach(s, x, i) <==> Entered(w, x) && w.enter[i] <= w.enter[x]
  {
    if Reach(s, x, i) && x != i {
      var k: nat :| At(s, x, k) == i;
      var c := LastStep(s, x, i, k);
      assert Entered(w, c) || c == i;
      RootEnds(s, i, root);
      NoCycle(s, i);
      if c == i {
        ReachSelf(s, i);
      }
      assert Entered(w, c);
      if Active(w, c) {
        ReachNext(s, i, c);
        assert Reach(s, s[i].next, c);
        ReachSelf(s, i);
        ReachNext(s, c, i);
        ReachTrans(s, s[i].next, c, i);
        assert false;
      }
      assert Within(w, c, x);
    }
  }

  ghost function Left(w: Work, i: nat): Work
    requires i < |w.leave|
  {
    w.(leave := w.leave[i := w.clock])
  }

  lemma FinishIntervals(s: seq<Cell>, w: Work, root: nat, i: nat)
    requires Walking(s, w, root, i) && Entered(w, i) && w.head[i] == 0
    ensures Intervals(s, Left(w, i))
  {
    var w' := Left(w, i);
    forall v: nat, x: nat | Finished(w', v) && Occupied(s, x)
      ensures Reach(s, x, v) <==> Within(w', v, x)
    {
      if v == i {
        Close(s, w, root, i, x);
      } else {
        assert Finished(w, v);
        assert Within(w', v, x) <==> Within(w, v, x);
      }
    }
  }

  lemma FinishRest(s: seq<Cell>, w: Work, i: nat, i': nat)
    requires Shape(s, w) && Numbering(s, w) && ParentsFirst(s, w) && Lists(s, w, i) && Entered(w, i)
    requires i' >= |s| || Entered(w, i')
    ensures Numbering(s, Left(w, i)) && ParentsFirst(s, Left(w, i)) && Lists(s, Left(w, i), i')
  {
    var w' := Left(w, i);
    forall x: nat
      ensures Entered(w', x) == Entered(w, x) && (x != i ==> Finished(w', x) == Finished(w, x))
    {
    }
    assert (set x: nat | x < |s| && Entered(w', x)) == (set x: nat | x < |s| && Entered(w, x));
  }

  lemma FinishPath(s: seq<Cell>, w: Work, i: nat, p: nat)
    requires Shape(s, w) && Numbering(s, w) && Path(s, w, i) && Entered(w, i)
    requires IsChild(s, i, p) && p < |s| && p != i && Active(w, p) && Ends(s, i)
    ensures Path(s, Left(w, i), p)
  {
    var w' := Left(w, i);
    NoCycle(s, i);
    forall x: nat
      ensures Entered(w', x) == Entered(w, x) && (x != i ==> Finished(w', x) == Finished(w, x))
      ensures Active(w', x) <==> Active(w, x) && x != i
    {
    }
    forall x: nat | x < |s| && x != p
      ensures Active(w', x) <==> Reach(s, p, x)
    {
      ReachNext(s, i, x);
    }
  }

  /** Step back to the successor, unless the walk's root has just been closed. */
  lemma Finish(s: seq<Cell>, w: Work, root: nat, i: nat)
    requires Walking(s, w, root, i) && RootsDone(s, w, root) && Entered(w, i) && w.head[i] == 0
    ensures i != root ==> Walking(s, Left(w, i), root, s[i].next) && RootsDone(s, Left(w, i), root)
    ensures Open(Left(w, i)) < Open(w)
  {
    assert i in Open(w) && i !in Open(Left(w, i));
    if i != root {
      RootEnds(s, i, root);
      ReachNext(s, i, root);
      if s[i].next == |s| {
        AtEnd(s, root);
      }
      ParentActive(s, w, root, i);
      FinishIntervals(s, w, root, i);
      FinishRest(s, w, i, s[i].next);
      FinishPath(s, w, i, s[i].next);
      if IsRoot(s, i) {
        OnlyItsRoot(s, root, i);
      }
    }
  }

  lemma AtEnd(s: seq<Cell>, x: nat)
    requires Reach(s, |s|, x)
    ensures x == |s|
  {
    var k: nat :| At(s, |s|, k) == x;
    AtStuck(s, |s|, k);
  }

  /** The walk from a root is over when the root is closed. */
  lemma FinishRoot(s: seq<Cell>, w: Work, root: nat)
    requires Walking(s, w, root, root) && RootsDone(s, w, root) && Entered(w, root) && w.head[root] == 0
    ensures Between(s, Left(w, root), root + 1)
  {
    var w' := Left(w, root);
    FinishIntervals(s, w, root, root);
    FinishRest(s, w, root, |s|);
    forall x: nat
      ensures !Active(w', x)
    {
      if Active(w', x) {
        assert Active(w, x);
        RootStays(s, root, x);
      }
    }
  }

  // ---------------------------------------------------------------- after the walks

  /** Everything whose chain ends has been numbered, and nothing else. */
  lemma AllNumbered(s: seq<Cell>, w: Work)
    requires Between(s, w, |s|)
    ensures forall x: nat :: Entered(w, x) <==> Occupied(s, x) && Ends(s, x)
    ensures w.clock == |OccupiedSet(s)| <==> forall x: nat {:trigger Ends(s, x)} :: Occupied(s, x) ==> Ends(s, x)
  {
    forall x: nat | Occupied(s, x) && Ends(s, x)
      ensures Entered(w, x)
    {
      var r := LastBucket(s, x);
      assert Finished(w, r);
    }
    var numbered := set x: nat | x < |s| && Entered(w, x);
    assert numbered <= OccupiedSet(s);
    if w.clock == |OccupiedSet(s)| {
      SubsetSize(numbered, OccupiedSet(s));
      assert forall x: nat :: Occupied(s, x) ==> x in numbered;
    }
    if forall x: nat {:trigger Ends(s, x)} :: Occupied(s, x) ==> Ends(s, x) {
      assert numbered == OccupiedSet(s);
    }
  }

  // ---------------------------------------------------------------- the check itself

  /** What threading the child lists leaves in `parent` and `sibling`. */
  ghost predicate Threaded(s: seq<Cell>, parent: seq<nat>, sibling: seq<nat>, b: nat) {
    && |parent| == |s| && |sibling| == |s| && b <= |s|
    && (forall c: nat {:trigger parent[c]} {:trigger LinkOk(s, c)} :: c < b && Occupied(s, c) ==>
          LinkOk(s, c) && parent[c] == s[c].next)
    && (forall c: nat {:trigger sibling[c]} :: c < b && Occupied(s, c) && s[c].next < |s| ==>
          sibling[c] == ChildBelow(s, s[c].next, c))
  }

  /** `Walking` and `RootsDone`, closed (see `Key`): the methods carry them, the lemmas look inside. */
  ghost predicate AtBucket(s: seq<Cell>, w: Work, root: nat, i: nat) {
    && Shape(s, w) && i < |s|
    && forall k: nat {:trigger Key(k)} :: Key(k) ==> Walking(s, w, root, i) && RootsDone(s, w, root)
  }

  /** `Between`, closed. */
  ghost predicate BetweenRoots(s: seq<Cell>, w: Work, r: nat) {
    Shape(s, w) && forall k: nat {:trigger Key(k)} :: Key(k) ==> Between(s, w, r)
  }

  lemma OpenAt(s: seq<Cell>, w: Work, root: nat, i: nat)
    requires AtBucket(s, w, root, i)
    ensures Walking(s, w, root, i) && RootsDone(s, w, root)
  {
    assert Key(0);
  }

  lemma OpenThreads(s: seq<Cell>, parent: seq<nat>, sibling: seq<nat>)
    requires AllThreaded(s, parent, sibling)
    ensures Threaded(s, parent, sibling, |s|)
  {
    assert Key(0);
  }

  lemma OpenBetween(s: seq<Cell>, w: Work, r: nat)
    requires BetweenRoots(s, w, r)
    ensures Between(s, w, r)
  {
    assert Key(0);
  }

  lemma EnterAt(s: seq<Cell>, w: Work, root: nat, i: nat)
    requires AtBucket(s, w, root, i) && !Entered(w, i)
    ensures AtBucket(s, Numbered(w, i), root, i)
  {
    OpenAt(s, w, root, i);
    Enter(s, w, root, i);
  }

  lemma StartAt(s: seq<Cell>, w: Work, r: nat)
    requires BetweenRoots(s, w, r) && IsRoot(s, r)
    ensures AtBucket(s, w, r, r)
  {
    OpenBetween(s, w, r);
    Start(s, w, r);
  }

  /** `Threaded` for the whole slice, closed. */
  ghost predicate AllThreaded(s: seq<Cell>, parent: seq<nat>, sibling: seq<nat>) {
    && |parent| == |s| && |sibling| == |s|
    && forall k: nat {:trigger Key(k)} :: Key(k) ==> Threaded(s, parent, sibling, |s|)
  }

  /** Number the bucket if this is the first visit. */
  method Arrive(s: seq<Cell>, root: nat, i: nat, head: array<nat>, enter: array<nat>, leave: array<nat>,
                clockIn: nat, ghost w: Work)
    returns (clock: nat, ghost w': Work)
    requires head != enter && enter != leave
    requires w == Work(head[..], enter[..], leave[..], clockIn)
    requires AtBucket(s, w, root, i)
    modifies enter
    ensures w' == Work(head[..], enter[..], leave[..], clock)
    ensures AtBucket(s, w', root, i) && Entered(w', i)
    ensures w'.head == w.head && w'.leave == w.leave
  {
    clock, w' := clockIn, w;
    if enter[i] == 0 {
      EnterAt(s, w, root, i);
      clock := clock + 1;
      enter[i] := clock;
      w' := Numbered(w, i);
    }
  }

  /** Go down to the next predecessor on the list. */
  method Down(s: seq<Cell>, root: nat, i: nat, head: array<nat>, sibling: array<nat>, ghost parent: seq<nat>,
              ghost w: Work)
    returns (j: nat, ghost w': Work)
    requires head != sibling && head[..] == w.head && AllThreaded(s, parent, sibling[..])
    requires AtBucket(s, w, root, i) && Entered(w, i) && w.head[i] > 0
    modifies head
    ensures head[..] == w'.head && w'.enter == w.enter && w'.leave == w.leave && w'.clock == w.clock
    ensures AtBucket(s, w', root, j)
    ensures Open(w') == Open(w) && Listed(s, w') < Listed(s, w)
  {
    StepDown(s, w, root, i, parent, sibling[..]);
    w' := Taken(s, w, i);
    j := head[i] - 1;
    head[i] := sibling[j];
  }

  /** Close the bucket and step back up, unless it is the root. */
  method Up(s: seq<Cell>, root: nat, i: nat, parent: array<nat>, leave: array<nat>, clock: nat,
            ghost sibling: seq<nat>, ghost w: Work)
    returns (done: bool, j: nat, ghost w': Work)
    requires leave != parent && leave[..] == w.leave && clock == w.clock && AllThreaded(s, parent[..], sibling)
    requires AtBucket(s, w, root, i) && Entered(w, i) && w.head[i] == 0
    modifies leave
    ensures leave[..] == w'.leave && w'.head == w.head && w'.enter == w.enter && w'.clock == w.clock
    ensures if done then BetweenRoots(s, w', root + 1) else AtBucket(s, w', root, j)
    ensures Open(w') < Open(w)
  {
    StepUp(s, w, root, i, parent[..], sibling);
    w' := Left(w, i);
    leave[i] := clock;
    done, j := i == root, parent[i];
  }

  /** Going down takes the first predecessor off the list. */
  lemma StepDown(s: seq<Cell>, w: Work, root: nat, i: nat, parent: seq<nat>, sibling: seq<nat>)
    requires AtBucket(s, w, root, i) && Entered(w, i)
    requires w.head[i] > 0 && AllThreaded(s, parent, sibling)
    ensures i < |s| && w.head[i] <= |s| && ChildBelow(s, i, w.head[i] - 1) == sibling[w.head[i] - 1]
    ensures AtBucket(s, Taken(s, w, i), root, w.head[i] - 1)
    ensures Open(Taken(s, w, i)) == Open(w) && Listed(s, Taken(s, w, i)) < Listed(s, w)
  {
    OpenAt(s, w, root, i);
    Descend(s, w, root, i);
    NextChild(s, w, root, i, parent, sibling);
  }

  lemma NextChild(s: seq<Cell>, w: Work, root: nat, i: nat, parent: seq<nat>, sibling: seq<nat>)
    requires AtBucket(s, w, root, i) && w.head[i] > 0 && AllThreaded(s, parent, sibling)
    ensures w.head[i] <= |s| && ChildBelow(s, i, w.head[i] - 1) == sibling[w.head[i] - 1]
  {
    OpenAt(s, w, root, i);
    OpenThreads(s, parent, sibling);
    assert IsChild(s, w.head[i] - 1, i);
  }

  lemma ParentIsNext(s: seq<Cell>, w: Work, root: nat, i: nat, parent: seq<nat>, sibling: seq<nat>)
    requires AtBucket(s, w, root, i) && AllThreaded(s, parent, sibling)
    ensures Occupied(s, i) && parent[i] == s[i].next
  {
    OpenAt(s, w, root, i);
    OpenThreads(s, parent, sibling);
  }

  /** Stepping up closes the bucket, and with the root's closing the walk is over. */
  lemma StepUp(s: seq<Cell>, w: Work, root: nat, i: nat, parent: seq<nat>, sibling: seq<nat>)
    requires AtBucket(s, w, root, i) && Entered(w, i)
    requires w.head[i] == 0 && AllThreaded(s, parent, sibling)
    ensures Occupied(s, i) && parent[i] == s[i].next && Open(Left(w, i)) < Open(w)
    ensures if i == root then BetweenRoots(s, Left(w, i), root + 1)
            else AtBucket(s, Left(w, i), root, parent[i])
  {
    ParentIsNext(s, w, root, i, parent, sibling);
    OpenAt(s, w, root, i);
    Finish(s, w, root, i);
    if i == root {
      FinishRoot(s, w, root);
    }
  }

  /** One depth-first walk of the tree above a root, with no stack but the lists themselves. */
  method Walk(s: seq<Cell>, root: nat, parent: array<nat>, head: array<nat>, sibling: array<nat>,
              enter: array<nat>, leave: array<nat>, clockIn: nat)
    returns (clock: nat)
    requires head != enter && head != leave && enter != leave
    requires parent != head && parent != enter && parent != leave
    requires sibling != head && sibling != enter && sibling != leave
    requires AllThreaded(s, parent[..], sibling[..])
    requires BetweenRoots(s, Work(head[..], enter[..], leave[..], clockIn), root) && IsRoot(s, root)
    modifies head, enter, leave
    ensures BetweenRoots(s, Work(head[..], enter[..], leave[..], clock), root + 1)
  {
    clock := clockIn;
    var i, done := root, false;
    ghost var w := Work(head[..], enter[..], leave[..], clock);
    StartAt(s, w, root);
    while !done
      invariant w == Work(head[..], enter[..], leave[..], clock)
      invariant done ==> BetweenRoots(s, w, root + 1)
      invariant !done ==> AtBucket(s, w, root, i)
      decreases !done, Open(w), Listed(s, w)
    {
      clock, w := Arrive(s, root, i, head, enter, leave, clock, w);
      if head[i] != 0 {
        i, w := Down(s, root, i, head, sibling, parent[..], w);
      } else {
        done, i, w := Up(s, root, i, parent, leave, clock, sibling[..], w);
      }
    }
  }

  lemma Begin(s: seq<Cell>, w: Work)
    requires Shape(s, w) && LinksOk(s) && w.clock == 0
    requires forall p: nat :: p < |s| ==> w.head[p] == ChildBelow(s, p, |s|)
    requires forall p: nat :: p < |s| ==> w.enter[p] == 0 && w.leave[p] == 0
    ensures Between(s, w, 0)
  {
    BeginNothing(s, w);
    BeginLists(s, w);
  }

  lemma BeginNothing(s: seq<Cell>, w: Work)
    requires Shape(s, w) && w.clock == 0 && forall p: nat :: p < |s| ==> w.enter[p] == 0 && w.leave[p] == 0
    ensures Numbering(s, w) && Intervals(s, w) && ParentsFirst(s, w)
    ensures forall x: nat :: !Entered(w, x) && !Finished(w, x)
  {
    assert (set x: nat | x < |s| && Entered(w, x)) == {};
  }

  lemma BeginLists(s: seq<Cell>, w: Work)
    requires Shape(s, w) && (forall x: nat :: !Entered(w, x))
    requires forall p: nat :: p < |s| ==> w.head[p] == ChildBelow(s, p, |s|)
    ensures Lists(s, w, |s|)
  {
    forall c: nat | Occupied(s, c) && s[c].next < |s|
      ensures c < w.head[s[c].next] && c != |s|
    {
      assert IsChild(s, c, s[c].next);
    }
  }

  /** Link reachability is one comparison of entry numbers. */
  ghost predicate Comparable(s: seq<Cell>, enter: seq<nat>, leave: seq<nat>) {
    && |enter| == |s| && |leave| == |s|
    && (forall i: nat, a: nat {:trigger Reach(s, a, i)} :: Occupied(s, i) ==>
          (Reach(s, a, i) <==> Occupied(s, a) && enter[i] <= enter[a] <= leave[i]))
  }

  lemma NumbersCompare(s: seq<Cell>, w: Work)
    requires Between(s, w, |s|) && (forall x: nat {:trigger Ends(s, x)} :: Occupied(s, x) ==> Ends(s, x))
    ensures Comparable(s, w.enter, w.leave)
  {
    AllNumbered(s, w);
    forall i: nat, a: nat {:trigger Reach(s, a, i)} | Occupied(s, i)
      ensures Reach(s, a, i) <==> Occupied(s, a) && w.enter[i] <= w.enter[a] <= w.leave[i]
    {
      assert Ends(s, i) && Entered(w, i) && !Active(w, i);
      if Occupied(s, a) {
        assert Ends(s, a) && Entered(w, a);
        assert Reach(s, a, i) <==> Within(w, i, a);
      } else if Reach(s, a, i) {
        Stays(s, a, i);
      }
    }
  }

  /** Reject links off the slice or onto a cell that is no bucket; thread the others. */
  method Thread(s: seq<Cell>, parent: array<nat>, head: array<nat>, sibling: array<nat>) returns (ok: bool)
    requires parent != head && parent != sibling && head != sibling
    requires parent.Length == |s| && head.Length == |s| && sibling.Length == |s|
    requires forall p: nat :: p < |s| ==> head[p] == 0
    modifies parent, head, sibling
    ensures ok <==> LinksOk(s)
    ensures ok ==> Threaded(s, parent[..], sibling[..], |s|)
    ensures ok ==> forall p: nat :: p < |s| ==> head[p] == ChildBelow(s, p, |s|)
  {
    for i := 0 to |s|
      invariant Threaded(s, parent[..], sibling[..], i)
      invariant forall p: nat :: p < |s| ==> head[p] == ChildBelow(s, p, i)
    {
      if Occupied(s, i) {
        var next := s[i].next;
        if next > |s| {
          assert !LinkOk(s, i);
          return false;
        }
        parent[i] := next;
        if next != |s| {
          if !Occupied(s, next) {
            assert !LinkOk(s, i);
            return false;
          }
          sibling[i] := head[next];
          head[next] := i + 1;
        }
      }
    }
    ok := true;
  }

  lemma RootByParent(s: seq<Cell>, parent: seq<nat>, sibling: seq<nat>, r: nat)
    requires AllThreaded(s, parent, sibling) && r < |s|
    ensures IsRoot(s, r) <==> Occupied(s, r) && parent[r] == |s|
  {
    OpenThreads(s, parent, sibling);
    assert Occupied(s, r) ==> LinkOk(s, r);
  }

  /** A bucket that is no root has no walk of its own. */
  lemma NoRoot(s: seq<Cell>, w: Work, r: nat)
    requires BetweenRoots(s, w, r) && !IsRoot(s, r)
    ensures BetweenRoots(s, w, r + 1)
  {
    OpenBetween(s, w, r);
  }

  /** Walk from every root in turn; cycles have no root, so nothing numbers them. */
  method NumberAll(s: seq<Cell>, parent: array<nat>, head: array<nat>, sibling: array<nat>,
                   enter: array<nat>, leave: array<nat>)
    returns (clock: nat)
    requires head != enter && head != leave && enter != leave
    requires parent != head && parent != enter && parent != leave
    requires sibling != head && sibling != enter && sibling != leave
    requires AllThreaded(s, parent[..], sibling[..])
    requires BetweenRoots(s, Work(head[..], enter[..], leave[..], 0), 0)
    modifies head, enter, leave
    ensures BetweenRoots(s, Work(head[..], enter[..], leave[..], clock), |s|)
  {
    clock := 0;
    for root := 0 to |s|
      invariant AllThreaded(s, parent[..], sibling[..])
      invariant BetweenRoots(s, Work(head[..], enter[..], leave[..], clock), root)
    {
      RootByParent(s, parent[..], sibling[..], root);
      if Occupied(s, root) && parent[root] == |s| {
        clock := Walk(s, root, parent, head, sibling, enter, leave, clock);
      } else {
        NoRoot(s, Work(head[..], enter[..], leave[..], clock), root);
      }
    }
  }

  /** Every entry must have been numbered inside the interval of one of its own anchors. */
  method TestAnchors(s: seq<Cell>, h: Hashing, enter: array<nat>, leave: array<nat>) returns (ok: bool)
    requires Comparable(s, enter[..], leave[..])
    ensures ok <==> forall c: nat {:trigger Anchored(s, h, c)} :: Occupied(s, c) ==> Anchored(s, h, c)
  {
    for i := 0 to |s|
      invariant forall c: nat {:trigger Anchored(s, h, c)} :: c < i && Occupied(s, c) ==> Anchored(s, h, c)
    {
      if Occupied(s, i) {
        var reachable := false;
        var a := KernelHash(s[i].name, h.base, |s|);
        assert Reach(s, a, i) <==> Occupied(s, a) && enter[i] <= enter[a] <= leave[i];
        if Occupied(s, a) && enter[i] <= enter[a] <= leave[i] {
          reachable := true;
        }
        if h.second.Some? {
          var b := KernelHash(s[i].name, h.second.value, |s|);
          assert Reach(s, b, i) <==> Occupied(s, b) && enter[i] <= enter[b] <= leave[i];
          if Occupied(s, b) && enter[i] <= enter[b] <= leave[i] {
            reachable := true;
          }
        }
        if !reachable {
          assert !Anchored(s, h, i);
          return false;
        }
      }
    }
    ok := true;
  }

  /** The whole check.  Its caller has already compared `entries` with the occupied count. */
  method Check(s: seq<Cell>, h: Hashing, entries: nat) returns (ok: bool)
    requires entries == |OccupiedSet(s)|
    ensures ok <==> WellChained(s, h)
  {
    var parent := new nat[|s|](_ => 0);
    var head := new nat[|s|](_ => 0);
    var sibling := new nat[|s|](_ => 0);
    var enter := new nat[|s|](_ => 0);
    var leave := new nat[|s|](_ => 0);
    ok := Thread(s, parent, head, sibling);
    if !ok {
      return;
    }
    Begin(s, Work(head[..], enter[..], leave[..], 0));
    var clock := NumberAll(s, parent, head, sibling, enter, leave);
    ghost var w := Work(head[..], enter[..], leave[..], clock);
    OpenBetween(s, w, |s|);
    AllNumbered(s, w);
    if clock != entries {
      return false;
    }
    NumbersCompare(s, w);
    ok := TestAnchors(s, h, enter, leave);
  }
}
