/** The simulator's cost of a failed lookup (programs/femtofsSim.cpp:1032-1036): added up over every
    cell a probe can start from, the comparisons are half of the sum of squared loads plus the entries. */
module MissCost {
  import opened Format
  import opened Slice
  import opened Loads
  import opened Layout
  import opened Builder
  import opened BuiltSlice

  /** Buckets compared by a failed probe starting at cell i: none if the cell is no bucket. */
  ghost function Probe(s: seq<Cell>, i: nat, steps: nat): nat
    decreases steps
  {
    if steps == 0 || !Occupied(s, i) then 0 else 1 + Probe(s, s[i].next, steps - 1)
  }

  /** The comparisons of one failed probe from every cell of the slice; no chain is longer than the slice. */
  ghost function AllProbes(s: seq<Cell>): nat {
    Sum(seq(|s|, i requires 0 <= i < |s| => Probe(s, i, |s|)))
  }

  lemma {:induction false} ProbeAt(groups: Groups, cells: seq<Cell>, a: nat, i: nat, steps: nat)
    requires Linked(groups, cells) && Member(groups, a, i) && |groups[a]| - i <= steps
    ensures Probe(cells, Pos(groups, a, i), steps) == |groups[a]| - i
    decreases |groups[a]| - i
  {
    if i + 1 < |groups[a]| {
      ProbeAt(groups, cells, a, i + 1, steps - 1);
    }
  }

  /** Probe lengths with only the members before member j of group b counted. */
  ghost function Costs(groups: Groups, b: nat, j: nat): (r: seq<nat>)
    requires b <= |groups| && (j > 0 ==> b < |groups| && j <= |groups[b]|) && Fits(groups)
    ensures |r| == |groups|
    decreases b, j
  {
    if j > 0 then
      PosInRange(groups, b, j - 1);
      Costs(groups, b, j - 1)[Pos(groups, b, j - 1) := |groups[b]| - (j - 1)]
    else if b > 0 then
      Costs(groups, b - 1, |groups[b - 1]|)
    else
      seq(|groups|, _ => 0)
  }

  /** A cell counts exactly when a member before (b, j) sits on it. */
  lemma {:induction false} CostsAt(groups: Groups, b: nat, j: nat, p: nat)
    requires b <= |groups| && (j > 0 ==> b < |groups| && j <= |groups[b]|) && Fits(groups) && p < |groups|
    ensures Costs(groups, b, j)[p] > 0 ==>
              exists a: nat, i: nat {:trigger Member(groups, a, i)} ::
                Member(groups, a, i) && Before(a, i, b, j) && Pos(groups, a, i) == p
    ensures forall a: nat, i: nat {:trigger Member(groups, a, i)} ::
              Member(groups, a, i) && Before(a, i, b, j) && Pos(groups, a, i) == p ==>
                Costs(groups, b, j)[p] == |groups[a]| - i
    decreases b, j
  {
    if j > 0 {
      CostsAt(groups, b, j - 1, p);
      assert Member(groups, b, j - 1);
      forall a: nat, i: nat | Member(groups, a, i) && Before(a, i, b, j) && Pos(groups, a, i) == p
        ensures Costs(groups, b, j)[p] == |groups[a]| - i
      {
        if Pos(groups, b, j - 1) == p {
          PosInjective(groups, a, i, b, j - 1);
        }
      }
    } else if b > 0 {
      CostsAt(groups, b - 1, |groups[b - 1]|, p);
      forall a: nat, i: nat {:trigger Member(groups, a, i)} | Member(groups, a, i)
        ensures Before(a, i, b, 0) <==> Before(a, i, b - 1, |groups[b - 1]|)
      {
      }
    }
  }

  /** Twice the total after j members of group b. */
  lemma {:induction false} CostsSum(groups: Groups, b: nat, j: nat)
    requires b <= |groups| && (j > 0 ==> b < |groups| && j <= |groups[b]|) && Fits(groups)
    ensures var sizes := Sizes(groups)[..b];
            2 * Sum(Costs(groups, b, j)) == SumSquares(sizes) + Sum(sizes) +
            (if j > 0 then 2 * j * |groups[b]| - j * (j - 1) else 0)
    decreases b, j
  {
    if j > 0 {
      CostsSum(groups, b, j - 1);
      NoCostYet(groups, b, j - 1);
      SumUpdate(Costs(groups, b, j - 1), Pos(groups, b, j - 1), |groups[b]| - (j - 1));
      Increment(j, |groups[b]|);
    } else if b > 0 {
      var n := |groups[b - 1]|;
      CostsSum(groups, b - 1, n);
      assert Sizes(groups)[..b][..b - 1] == Sizes(groups)[..b - 1];
      assert Squares(Sizes(groups)[..b])[..b - 1] == Squares(Sizes(groups)[..b - 1]);
      assert 2 * n * n - n * (n - 1) == n * n + n;
    } else {
      SumZero(|groups|);
      assert Squares(Sizes(groups)[..0]) == [];
    }
  }

  /** Nothing is charged to a member's cell before its turn. */
  lemma NoCostYet(groups: Groups, b: nat, j: nat)
    requires Fits(groups) && Member(groups, b, j)
    ensures Pos(groups, b, j) < |Costs(groups, b, j)| && Costs(groups, b, j)[Pos(groups, b, j)] == 0
  {
    var p := Pos(groups, b, j);
    PosInRange(groups, b, j);
    CostsAt(groups, b, j, p);
    if Costs(groups, b, j)[p] > 0 {
      var a: nat, i: nat :| Member(groups, a, i) && Before(a, i, b, j) && Pos(groups, a, i) == p;
      PosInjective(groups, a, i, b, j);
    }
  }

  lemma Increment(j: nat, n: nat)
    requires j > 0
    ensures 2 * j * n - j * (j - 1) == 2 * (j - 1) * n - (j - 1) * (j - 2) + 2 * (n - (j - 1))
  {
    assert 2 * j * n == 2 * (j - 1) * n + 2 * n;
    assert j * (j - 1) == (j - 1) * (j - 2) + 2 * (j - 1);
  }

  /** In a built slice the failed probes over all starting cells cost (sum of squares + entries) / 2. */
  lemma MissFormula(h: Hashing, names: seq<seq<byte>>, targets: seq<nat>, groups: Groups, cells: seq<Cell>)
    requires Built(h, names, targets, groups, cells)
    ensures 2 * AllProbes(cells) == SumSquares(LoadsOf(Assign(h, names, |cells|), |cells|)) + |names|
  {
    var n := |groups|;
    var anchors := Assign(h, names, n);
    Room(groups, anchors);
    LoadsTotal(anchors, n);
    BuiltLinked(h, names, targets, groups, cells);
    CostsSum(groups, n, 0);
    assert Sizes(groups)[..n] == Sizes(groups);
    var probes := seq(n, i requires 0 <= i < n => Probe(cells, i, n));
    forall p: nat | p < n
      ensures probes[p] == Costs(groups, n, 0)[p]
    {
      CostsAt(groups, n, 0, p);
      if Costs(groups, n, 0)[p] > 0 {
        var a: nat, i: nat :| Member(groups, a, i) && Before(a, i, n, 0) && Pos(groups, a, i) == p;
        CellAt(h, names, targets, groups, cells, a, i);
      }
      if Occupied(cells, p) {
        var a, i := OwnerOf(h, names, targets, groups, cells, p);
        assert Before(a, i, n, 0);
        GroupFits(groups, anchors, a);
        ProbeAt(groups, cells, a, i, n);
      }
    }
    assert probes == Costs(groups, n, 0);
  }

  lemma GroupFits(groups: Groups, anchors: seq<nat>, a: nat)
    requires Fits(groups) && a < |groups| && groups[a] != []
    ensures |groups[a]| <= |groups|
  {
    SpillGrows(groups, a, |groups|);
    UnusedBound(groups, |groups|, a);
  }

  lemma {:induction false} UnusedBound(groups: Groups, b: nat, a: nat)
    requires b <= |groups| && a < |groups| && groups[a] != []
    ensures |Unused(groups, b)| <= if a < b then b - 1 else b
  {
    if b > 0 {
      UnusedBound(groups, b - 1, a);
    }
  }
}
