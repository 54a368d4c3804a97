/** Where a directory's children go: every anchor in use keeps its own cell, and the rest of each
    chain takes the unused cells in index order.  This is the layout both the builder
    (programs/makefemtofs.cpp:1500-1563) and the simulator (programs/femtofsSim.cpp:961-988) produce. */
module Layout {
  import opened Format
  import opened Slice
  import opened Counting
  import opened Loads

  /** A placed child and the slice-relative index of the next cell of its chain. */
  datatype Slot = Slot(child: nat, next: nat)

  type Groups = seq<seq<nat>>

  /** The children given anchor a, in child order. */
  function Group(anchors: seq<nat>, a: nat): seq<nat> {
    if anchors == [] then []
    else
      var last := |anchors| - 1;
      Group(anchors[..last], a) + (if anchors[last] == a then [last] else [])
  }

  function GroupsOf(anchors: seq<nat>, size: nat): Groups {
    seq(size, a requires a >= 0 => Group(anchors, a))
  }

  lemma GroupsStep(anchors: seq<nat>, size: nat, a: nat)
    requires a < size
    ensures GroupsOf(anchors + [a], size) == GroupsOf(anchors, size)[a := Group(anchors, a) + [|anchors|]]
  {
    assert (anchors + [a])[..|anchors|] == anchors;
    forall b: nat | b < size
      ensures Group(anchors + [a], b) == (if b == a then Group(anchors, a) + [|anchors|] else Group(anchors, b))
    {
    }
  }

  ghost predicate Grouped(groups: Groups, anchors: seq<nat>) {
    forall a: nat :: a < |groups| ==> multiset(groups[a]) == multiset(Group(anchors, a))
  }

  /** Cells below b that anchor nothing. */
  function Unused(groups: Groups, b: nat): seq<nat>
    requires b <= |groups|
  {
    if b == 0 then [] else Unused(groups, b - 1) + (if groups[b - 1] == [] then [b - 1] else [])
  }

  /** Children of the groups below a that are not at their anchor. */
  function Spill(groups: Groups, a: nat): nat
    requires a <= |groups|
  {
    if a == 0 then 0 else Spill(groups, a - 1) + (if groups[a - 1] == [] then 0 else |groups[a - 1]| - 1)
  }

  /** The cell of the i-th member of group a; one past the slice when the unused cells run out. */
  function Pos(groups: Groups, a: nat, i: nat): nat
    requires a < |groups|
  {
    if i == 0 then a
    else
      var k := Spill(groups, a) + i - 1;
      if k < |Unused(groups, |groups|)| then Unused(groups, |groups|)[k] else |groups|
  }

  function NextPos(groups: Groups, a: nat, i: nat): nat
    requires a < |groups| && i < |groups[a]|
  {
    if i + 1 == |groups[a]| then |groups| else Pos(groups, a, i + 1)
  }

  ghost predicate Fits(groups: Groups) {
    Spill(groups, |groups|) <= |Unused(groups, |groups|)|
  }

  ghost predicate Member(groups: Groups, a: nat, i: nat) {
    a < |groups| && i < |groups[a]|
  }

  ghost predicate LaidOut(groups: Groups, slots: seq<Option<Slot>>) {
    && |slots| == |groups|
    && (forall a: nat, i: nat {:trigger Member(groups, a, i)} :: Member(groups, a, i) ==>
          Pos(groups, a, i) < |slots| && slots[Pos(groups, a, i)] == Some(Slot(groups[a][i], NextPos(groups, a, i))))
    && (forall p: nat :: p < |slots| && slots[p].Some? ==>
          exists a: nat, i: nat {:trigger Member(groups, a, i)} :: Member(groups, a, i) && Pos(groups, a, i) == p)
  }

  // ---------------------------------------------------------------- room

  lemma {:induction false} UnusedPrefix(groups: Groups, b: nat, c: nat)
    requires b <= c <= |groups|
    ensures |Unused(groups, b)| <= |Unused(groups, c)|
    ensures Unused(groups, c)[..|Unused(groups, b)|] == Unused(groups, b)
    decreases c - b
  {
    if b < c {
      UnusedPrefix(groups, b, c - 1);
    }
  }

  lemma {:induction false} UnusedSound(groups: Groups, b: nat)
    requires b <= |groups|
    ensures forall k: nat {:trigger Unused(groups, b)[k]} :: k < |Unused(groups, b)| ==>
              Unused(groups, b)[k] < b && groups[Unused(groups, b)[k]] == []
    ensures Distinct(Unused(groups, b))
  {
    if b > 0 {
      UnusedSound(groups, b - 1);
      var u, v := Unused(groups, b - 1), Unused(groups, b);
      assert forall k: nat :: k < |u| ==> v[k] == u[k];
    }
  }

  lemma {:induction false} SpillGrows(groups: Groups, a: nat, b: nat)
    requires a <= b <= |groups|
    ensures Spill(groups, a) <= Spill(groups, b)
    ensures a < b && groups[a] != [] ==> Spill(groups, a) + |groups[a]| - 1 <= Spill(groups, b)
    decreases b - a
  {
    if a < b {
      SpillGrows(groups, a, b - 1);
    }
  }

  ghost function Sizes(groups: Groups): seq<nat> {
    seq(|groups|, a requires 0 <= a < |groups| => |groups[a]|)
  }

  /** Members, spilled members and unused cells balance. */
  lemma {:induction false} Balance(groups: Groups, b: nat)
    requires b <= |groups|
    ensures Sum(Sizes(groups)[..b]) + |Unused(groups, b)| == Spill(groups, b) + b
  {
    if b > 0 {
      Balance(groups, b - 1);
      assert Sizes(groups)[..b][..b - 1] == Sizes(groups)[..b - 1];
    }
  }

  lemma {:induction false} GroupSize(anchors: seq<nat>, a: nat)
    ensures |Group(anchors, a)| == Count(anchors, a)
    ensures forall m: nat {:trigger m in Group(anchors, a)} :: m in Group(anchors, a) <==>
              m < |anchors| && anchors[m] == a
    ensures Distinct(Group(anchors, a))
  {
    if anchors != [] {
      var last := |anchors| - 1;
      GroupSize(anchors[..last], a);
      GroupNext(Group(anchors[..last], a), anchors, a);
    }
  }

  lemma GroupNext(front: seq<nat>, anchors: seq<nat>, a: nat)
    requires anchors != [] && Distinct(front)
    requires forall m: nat {:trigger m in front} :: m in front <==> m < |anchors| - 1 && anchors[m] == a
    ensures var group := front + (if anchors[|anchors| - 1] == a then [|anchors| - 1] else []);
            Distinct(group) && forall m: nat {:trigger m in group} :: m in group <==> m < |anchors| && anchors[m] == a
  {
    assert forall k: nat :: k < |front| ==> front[k] in front;
  }

  /** The layout has room exactly when there are no more children than cells. */
  lemma Room(groups: Groups, anchors: seq<nat>)
    requires Grouped(groups, anchors) && forall k: nat :: k < |anchors| ==> anchors[k] < |groups|
    ensures Sizes(groups) == LoadsOf(anchors, |groups|)
    ensures Fits(groups) <==> |anchors| <= |groups|
  {
    forall a: nat | a < |groups|
      ensures |groups[a]| == Count(anchors, a)
    {
      GroupSize(anchors, a);
      assert |multiset(groups[a])| == |groups[a]|;
      assert |multiset(Group(anchors, a))| == |Group(anchors, a)|;
    }
    LoadsTotal(anchors, |groups|);
    Balance(groups, |groups|);
    assert Sizes(groups)[..|groups|] == Sizes(groups);
  }

  // ---------------------------------------------------------------- one cell a child

  lemma PosInRange(groups: Groups, a: nat, i: nat)
    requires Fits(groups) && Member(groups, a, i)
    ensures Pos(groups, a, i) < |groups|
    ensures i > 0 ==> groups[Pos(groups, a, i)] == []
    ensures i > 0 ==> Spill(groups, a) + i - 1 < |Unused(groups, |groups|)|
  {
    SpillGrows(groups, a, |groups|);
    UnusedSound(groups, |groups|);
    if i > 0 {
      var u := Unused(groups, |groups|);
      assert u[Spill(groups, a) + i - 1] == Pos(groups, a, i);
    }
  }

  lemma PosInjective(groups: Groups, a: nat, i: nat, b: nat, j: nat)
    requires Fits(groups) && Member(groups, a, i) && Member(groups, b, j)
    requires Pos(groups, a, i) == Pos(groups, b, j)
    ensures a == b && i == j
  {
    PosInRange(groups, a, i);
    PosInRange(groups, b, j);
    if i > 0 && j > 0 {
      UnusedSound(groups, |groups|);
      var k, l := Spill(groups, a) + i - 1, Spill(groups, b) + j - 1;
      assert k == l;
      if a < b {
        SpillGrows(groups, a, b);
      } else if b < a {
        SpillGrows(groups, b, a);
      }
    }
  }

  /** The layout is determined by the groups alone. */
  lemma LaidOutUnique(groups: Groups, x: seq<Option<Slot>>, y: seq<Option<Slot>>)
    requires LaidOut(groups, x) && LaidOut(groups, y)
    ensures x == y
  {
    forall p: nat | p < |groups|
      ensures x[p] == y[p]
    {
      if x[p].Some? {
        var a: nat, i: nat :| Member(groups, a, i) && Pos(groups, a, i) == p;
      }
      if y[p].Some? {
        var a: nat, i: nat :| Member(groups, a, i) && Pos(groups, a, i) == p;
      }
    }
  }
}
