/** The two checkers that walk chains from anchors instead of numbering a forest: the independent
    checker's visited-array walk (fsck/fsck_femtofs.c:300-322, 1005-1103) and the builder's
    step-bounded self-check (programs/makefemtofs.cpp:1944-1999).  Both answer exactly `WellChained`,
    so they accept the same slices as the kernel decoder. */
module Walks {
  import opened Format
  import opened Slice
  import opened Counting
  import Chains

  // ---------------------------------------------------------------- fsck

  /** Walk one anchor's chain to its end; `bad` is a cycle, a jump off the slice or a link to no bucket. */
  method WalkAnchor(s: seq<Cell>, anchor: nat, target: nat) returns (found: bool, bad: bool)
    requires anchor < |s| && Occupied(s, target)
    ensures bad <==> Occupied(s, anchor) && !Ends(s, anchor)
    ensures !bad ==> (found <==> Reach(s, anchor, target))
  {
    found, bad := false, false;
    if !Occupied(s, anchor) {
      if Reach(s, anchor, target) {
        Stays(s, anchor, target);
      }
      return;
    }
    var visited := new bool[|s|](_ => false);
    var rel: nat := anchor;
    var steps: nat := 0;
    while true
      invariant rel < |s| && rel == At(s, anchor, steps) && steps <= |s|
      invariant forall k: nat :: k < steps ==> Occupied(s, At(s, anchor, k))
      invariant forall x: nat :: x < |s| ==> (visited[x] <==> exists k: nat :: k < steps && At(s, anchor, k) == x)
      invariant found <==> exists k: nat :: k < steps && At(s, anchor, k) == target
      decreases |s| - steps
    {
      if visited[rel] {
        ghost var k: nat :| k < steps && At(s, anchor, k) == rel;
        Revisited(s, anchor, k, steps);
        bad := true;
        break;
      }
      visited[rel] := true;
      if rel == target {
        found := true;
      }
      if !Occupied(s, rel) {
        NeverEnds(s, anchor, steps);
        bad := true;
        break;
      }
      AtAdd(s, anchor, steps, 1);
      if s[rel].next == |s| {
        assert At(s, anchor, steps + 1) == |s|;
        FoundOnTheWay(s, anchor, target, steps + 1);
        break;
      }
      if s[rel].next > |s| {
        NeverEnds(s, anchor, steps + 1);
        bad := true;
        break;
      }
      if steps >= |s| {
        if Ends(s, anchor) {
          TrailDistinct(s, anchor, steps);
        }
        bad := true;
        break;
      }
      rel := s[rel].next;
      steps := steps + 1;
    }
  }

  /** A chain that comes back to a cell never ends. */
  lemma Revisited(s: seq<Cell>, a: nat, k: nat, steps: nat)
    requires k < steps && At(s, a, k) == At(s, a, steps) && At(s, a, steps) < |s|
    ensures !Ends(s, a)
  {
    assert Trail(s, a, steps + 1)[k] == Trail(s, a, steps + 1)[steps];
    if Ends(s, a) {
      TrailDistinct(s, a, steps);
    }
  }

  lemma NeverEnds(s: seq<Cell>, a: nat, k: nat)
    requires !Occupied(s, At(s, a, k)) && At(s, a, k) != |s|
    ensures !Ends(s, a)
  {
    if Ends(s, a) {
      TrailDistinct(s, a, k);
    }
  }

  /** A target is on an ended chain exactly when the walk to the end has met it. */
  lemma FoundOnTheWay(s: seq<Cell>, a: nat, target: nat, e: nat)
    requires At(s, a, e) == |s| && Occupied(s, target)
    ensures Reach(s, a, target) <==> exists k: nat :: k < e && At(s, a, k) == target
  {
    if Reach(s, a, target) {
      var k: nat :| At(s, a, k) == target;
      assert At(s, a, k) == target && target < |s|;
      if k >= e {
        Past(s, a, e, k);
      }
    }
  }

  /** The chain part of fsck's pass over one directory: true when it reports nothing. */
  method Fsck(s: seq<Cell>, h: Hashing, entries: nat) returns (ok: bool)
    ensures ok <==> |OccupiedSet(s)| == entries && WellChained(s, h)
  {
    ok := true;
    var occupied := 0;
    ghost var seen: set<nat> := {};
    for rel := 0 to |s|
      invariant seen == set x: nat | x < rel && Occupied(s, x)
      invariant occupied == |seen|
      invariant ok <==> forall i: nat {:trigger EntryClean(s, h, i)} :: i < rel && Occupied(s, i) ==>
                  EntryClean(s, h, i)
    {
      if Occupied(s, rel) {
        occupied := occupied + 1;
        seen := seen + {rel};
        var clean := FsckEntry(s, h, rel);
        ok := ok && clean;
      }
    }
    assert seen == OccupiedSet(s);
    EntriesCleanIsWellChained(s, h);
    if occupied != entries {
      ok := false;
    }
  }

  /** An entry fsck reports nothing about. */
  ghost predicate EntryClean(s: seq<Cell>, h: Hashing, i: nat)
    requires Occupied(s, i)
  {
    s[i].next <= |s| && (s[i].next < |s| ==> s[s[i].next] != Attr) && AnchorChainsClean(s, h, i)
  }

  lemma EntriesCleanIsWellChained(s: seq<Cell>, h: Hashing)
    ensures WellChained(s, h) <==> forall i: nat {:trigger EntryClean(s, h, i)} :: Occupied(s, i) ==>
              EntryClean(s, h, i)
  {
    AnchorsSuffice(s, h);
    if WellChained(s, h) {
      forall i: nat | Occupied(s, i)
        ensures EntryClean(s, h, i)
      {
        assert AnchorChainsClean(s, h, i) && LinkOk(s, i);
      }
    } else if forall i: nat {:trigger EntryClean(s, h, i)} :: Occupied(s, i) ==> EntryClean(s, h, i) {
      assert forall i: nat {:trigger AnchorChainsClean(s, h, i)} :: Occupied(s, i) ==> EntryClean(s, h, i);
    }
  }

  method FsckEntry(s: seq<Cell>, h: Hashing, rel: nat) returns (clean: bool)
    requires Occupied(s, rel)
    ensures clean <==> EntryClean(s, h, rel)
  {
    clean := true;
    var next := s[rel].next;
    if next > |s| {
      clean := false;
    } else if next < |s| && s[next].Attr? {
      clean := false;
    }
    var h1 := HashName(s[rel].name, h.base, |s|);
    var found, bad := WalkAnchor(s, h1, rel);
    if h.second.Some? {
      var h2 := HashName(s[rel].name, h.second.value, |s|);
      if h2 != h1 {
        var found2, bad2 := WalkAnchor(s, h2, rel);
        found, bad := found || found2, bad || bad2;
      }
    }
    clean := clean && !bad && found;
  }

  // ---------------------------------------------------------------- validatePlan

  /** Follow an anchor's chain for at most as many steps as there are cells. */
  method BoundedWalk(s: seq<Cell>, anchor: nat, position: nat) returns (terminated: bool, reached: bool)
    requires Occupied(s, anchor) && Occupied(s, position)
    ensures terminated <==> Ends(s, anchor)
    ensures terminated ==> (reached <==> Reach(s, anchor, position))
  {
    terminated, reached := false, false;
    var current := anchor;
    var steps: nat := 0;
    while steps < |s|
      invariant steps <= |s| && !terminated && current == At(s, anchor, steps) && current < |s|
      invariant reached <==> exists k: nat :: k < steps && At(s, anchor, k) == position
    {
      if !Occupied(s, current) {
        NeverEnds(s, anchor, steps);
        return;
      }
      if current == position {
        reached := true;
      }
      AtAdd(s, anchor, steps, 1);
      var next := s[current].next;
      if next == |s| {
        assert At(s, anchor, steps + 1) == |s|;
        FoundOnTheWay(s, anchor, position, steps + 1);
        return true, reached;
      }
      if next >= |s| {
        NeverEnds(s, anchor, steps + 1);
        return;
      }
      current := next;
      steps := steps + 1;
    }
    if Ends(s, anchor) {
      TrailDistinct(s, anchor, steps);
    }
  }

  /** One child of the plan: some chain from its own anchors must reach it. */
  method PlanEntry(s: seq<Cell>, h: Hashing, position: nat) returns (ok: bool)
    requires Occupied(s, position)
    ensures ok <==> AnchorChainsClean(s, h, position)
  {
    var a0 := HashName(s[position].name, h.base, |s|);
    var reached := false;
    if Occupied(s, a0) {
      var terminated, here := BoundedWalk(s, a0, position);
      if !terminated {
        return false;
      }
      reached := here;
    } else if Reach(s, a0, position) {
      Stays(s, a0, position);
    }
    if h.second.Some? {
      var a1 := HashName(s[position].name, h.second.value, |s|);
      if a1 != a0 && Occupied(s, a1) {
        var terminated, here := BoundedWalk(s, a1, position);
        if !terminated {
          return false;
        }
        reached := reached || here;
      } else if Reach(s, a1, position) {
        Stays(s, a1, position);
      }
    }
    assert reached <==> Anchored(s, h, position);
    ok := reached;
  }

  /** The builder's self-check of one planned directory: true when it throws nothing. */
  method ValidatePlan(s: seq<Cell>, h: Hashing, children: nat) returns (ok: bool)
    ensures ok <==> |OccupiedSet(s)| == children && WellChained(s, h)
  {
    AnchorsSuffice(s, h);
    for position := 0 to |s|
      invariant ReachedBelow(s, h, position)
    {
      if Occupied(s, position) {
        ok := PlanEntry(s, h, position);
        if !ok {
          return;
        }
      }
    }
    var occupied := CountOccupied(s);
    ok := occupied == children;
  }

  /** The entries before k are reached from their anchors. */
  ghost predicate ReachedBelow(s: seq<Cell>, h: Hashing, k: nat) {
    forall i: nat {:trigger AnchorChainsClean(s, h, i)} :: i < k && Occupied(s, i) ==> AnchorChainsClean(s, h, i)
  }

  /** The three checkers accept exactly the same slices. */
  method ThreeCheckers(s: seq<Cell>, h: Hashing) returns (kernel: bool, fsck: bool, builder: bool)
    ensures kernel == fsck == builder == WellChained(s, h)
  {
    var n := CountOccupied(s);
    kernel := Chains.Check(s, h, n);
    fsck := Fsck(s, h, n);
    builder := ValidatePlan(s, h, n);
  }

  method CountOccupied(s: seq<Cell>) returns (n: nat)
    ensures n == |OccupiedSet(s)|
  {
    n := 0;
    ghost var seen: set<nat> := {};
    for i := 0 to |s|
      invariant seen == set x: nat | x < i && Occupied(s, x)
      invariant n == |seen|
    {
      if Occupied(s, i) {
        n := n + 1;
        seen := seen + {i};
      }
    }
    assert seen == OccupiedSet(s);
  }
}
