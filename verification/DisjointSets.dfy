/** The builder's disjoint-set forest (programs/makefemtofs.cpp:983-1009): union by rank with eight-bit
    ranks, and find with path compression. */
module DisjointSets {
  import opened Format
  import opened Arith
  import opened Counting

  /** The nodes whose class is represented by r. */
  ghost function Class(root: seq<nat>, r: nat): set<nat> {
    set i: nat | i < |root| && root[i] == r
  }

  /** The partition after joining the classes of ra and rb under one representative. */
  ghost function Joined(root: seq<nat>, ra: nat, rb: nat, winner: nat): seq<nat> {
    seq(|root|, i requires 0 <= i < |root| => if root[i] == ra || root[i] == rb then winner else root[i])
  }

  lemma JoinedClasses(root: seq<nat>, ra: nat, rb: nat, winner: nat)
    requires ra < |root| && rb < |root| && ra != rb && (winner == ra || winner == rb)
    ensures |Class(Joined(root, ra, rb, winner), winner)| == |Class(root, ra)| + |Class(root, rb)|
    ensures forall r: nat :: r != ra && r != rb ==> Class(Joined(root, ra, rb, winner), r) == Class(root, r)
  {
    assert Class(Joined(root, ra, rb, winner), winner) == Class(root, ra) + Class(root, rb);
    assert Class(root, ra) !! Class(root, rb);
  }

  lemma ClassSize(root: seq<nat>, r: nat)
    ensures |Class(root, r)| <= |root|
  {
    BelowSize(|root|);
    assert Class(root, r) <= Below(|root|);
    SubsetSize(Class(root, r), Below(|root|));
  }

  /** With fewer than 2^15 nodes a rank backed by 2^rank nodes stays far below 255. */
  lemma RankFits(rank: nat, size: nat)
    requires TwoTo(rank) <= size < MAX_ENTRIES
    ensures rank <= 14
  {
    assert TwoTo(15) == 32768 by {
      assert TwoTo(5) == 32;
      assert TwoTo(10) == 1024;
    }
    if rank >= 15 {
      TwoToGrows(15, rank);
    }
  }

  class DisjointSet {
    const parent: array<nat>
    const rank: array<byte>
    /** The representative of each node: the partition itself. */
    ghost var root: seq<nat>

    ghost predicate Valid()
      reads this, parent, rank
    {
      && parent.Length == rank.Length == |root| < MAX_ENTRIES
      && NodesOk(root, parent[..], rank[..])
      && (forall r: nat :: r < |root| && root[r] == r ==> TwoTo(rank[r]) <= |Class(root, r)|)
    }

    static ghost predicate NodesOk(root: seq<nat>, parent: seq<nat>, rank: seq<byte>)
    {
      && |root| == |parent| == |rank|
      && forall i: nat {:trigger NodeOk(root, parent, rank, i)} :: i < |root| ==> NodeOk(root, parent, rank, i)
    }

    /** Parents stay in the class and outrank their children; only representatives are their own parents. */
    static ghost predicate NodeOk(root: seq<nat>, parent: seq<nat>, rank: seq<byte>, i: nat)
      requires |root| == |parent| == |rank| && i < |root|
    {
      && root[i] < |root| && root[root[i]] == root[i]
      && parent[i] < |root| && root[parent[i]] == root[i]
      && (parent[i] == i <==> root[i] == i)
      && (parent[i] != i ==> rank[i] < rank[parent[i]])
      && (root[i] != i ==> rank[i] < rank[root[i]])
    }

    constructor (size: nat)
      requires size < MAX_ENTRIES
      ensures Valid() && fresh(parent) && fresh(rank)
      ensures |root| == size && forall i: nat :: i < size ==> root[i] == i
    {
      parent := new nat[size](i requires i >= 0 => i);
      rank := new byte[size](_ => 0);
      root := seq(size, i requires i >= 0 => i);
      new;
      assert parent[..] == seq(size, i requires i >= 0 => i);
      forall i: nat | i < size
        ensures NodeOk(root, parent[..], rank[..], i)
      {
      }
      forall r: nat | r < size
        ensures TwoTo(rank[r]) <= |Class(root, r)|
      {
        assert r in Class(root, r);
        assert Class(root, r) == {r};
      }
    }

    lemma RootBelow(i: nat)
      requires Valid() && i < |root|
      ensures root[i] < |root|
    {
      assert NodeOk(root, parent[..], rank[..], i);
    }

    lemma RootsBelow()
      requires Valid()
      ensures forall i: nat :: i < |root| ==> root[i] < |root|
    {
      forall i: nat | i < |root|
        ensures root[i] < |root|
      {
        RootBelow(i);
      }
    }

    /** Hanging a node directly under its representative keeps everything. */
    static lemma Compressed(root: seq<nat>, parent: seq<nat>, rank: seq<byte>, v: nat)
      requires |root| == |parent| == |rank| && v < |root| && root[v] < |root| && root[v] != v
      requires NodesOk(root, parent, rank)
      ensures NodesOk(root, parent[v := root[v]], rank)
    {
      var parent' := parent[v := root[v]];
      forall i: nat | i < |root|
        ensures NodeOk(root, parent', rank, i)
      {
        assert NodeOk(root, parent, rank, i);
        assert NodeOk(root, parent, rank, root[v]);
      }
    }

    /** Representative of a node; every node on the way is hung directly under it. */
    method Find(v: nat) returns (r: nat)
      requires Valid() && v < |root|
      modifies parent
      ensures Valid() && r == root[v] && r < |root| && (v != r ==> rank[v] < rank[r])
      decreases 256 - rank[v] as int
    {
      assert NodeOk(root, parent[..], rank[..], v);
      if parent[v] != v {
        var top := Find(parent[v]);
        ghost var was := parent[..];
        assert NodeOk(root, was, rank[..], v);
        Compressed(root, was, rank[..], v);
        parent[v] := top;
        assert parent[..] == was[v := top];
      }
      r := parent[v];
    }

    /** Join two classes under the representative of higher rank. */
    method Unite(a: nat, b: nat)
      requires Valid() && a < |root| && b < |root|
      modifies this, parent, rank
      ensures Valid() && |root| == old(|root|)
      ensures forall i: nat, j: nat :: i < |root| && j < |root| ==>
                (root[i] == root[j] <==>
                 old(root[i] == root[j] ||
                     ((root[i] == root[a] || root[i] == root[b]) && (root[j] == root[a] || root[j] == root[b]))))
    {
      var ra := Find(a);
      var rb := Find(b);
      if ra == rb {
        return;
      }
      assert NodeOk(root, parent[..], rank[..], a) && NodeOk(root, parent[..], rank[..], b);
      if rank[ra] < rank[rb] {
        ra, rb := rb, ra;
      }
      Link(ra, rb);
    }

    /** Hang one representative under another whose rank is no lower. */
    method Link(a: nat, b: nat)
      requires Valid() && a < |root| && b < |root| && a != b && root[a] == a && root[b] == b && rank[b] <= rank[a]
      modifies this, parent, rank
      ensures Valid() && root == Joined(old(root), a, b, a)
    {
      ghost var root0, parent0, rank0 := root, parent[..], rank[..];
      JoinedClasses(root, a, b, a);
      ClassSize(Joined(root, a, b, a), a);
      RankFits(rank[a], |Class(root, a)|) by { ClassSize(root, a); }
      parent[b] := a;
      root := Joined(root, a, b, a);
      if rank[a] == rank[b] {
        rank[a] := rank[a] + 1;
      }
      LinkNodes(root0, parent0, rank0, a, b, parent[..], rank[..]);
      LinkSizes(root0, rank0, a, b, rank[..]);
      forall i: nat | i < |root|
        ensures NodeOk(root, parent[..], rank[..], i)
      {
      }
    }

    static lemma LinkNodes(root: seq<nat>, parent: seq<nat>, rank: seq<byte>, a: nat, b: nat,
                           parent': seq<nat>, rank': seq<byte>)
      requires |root| == |parent| == |rank| && a < |root| && b < |root| && a != b && root[a] == a && root[b] == b
      requires rank[b] <= rank[a] && rank[a] < 255
      requires NodesOk(root, parent, rank)
      requires parent' == parent[b := a] && rank' == if rank[a] == rank[b] then rank[a := rank[a] + 1] else rank
      ensures NodesOk(Joined(root, a, b, a), parent', rank')
    {
      var root' := Joined(root, a, b, a);
      forall i: nat | i < |root|
        ensures NodeOk(root', parent', rank', i)
      {
        assert NodeOk(root, parent, rank, i);
        assert NodeOk(root, parent, rank, root[i]);
        assert NodeOk(root, parent, rank, parent[i]);
      }
    }

    static lemma LinkSizes(root: seq<nat>, rank: seq<byte>, a: nat, b: nat, rank': seq<byte>)
      requires |root| == |rank| && a < |root| && b < |root| && a != b && root[a] == a && root[b] == b
      requires rank[b] <= rank[a] && rank[a] < 255
      requires forall r: nat :: r < |root| && root[r] == r ==> TwoTo(rank[r]) <= |Class(root, r)|
      requires rank' == if rank[a] == rank[b] then rank[a := rank[a] + 1] else rank
      ensures var root' := Joined(root, a, b, a);
              forall r: nat :: r < |root| && root'[r] == r ==> TwoTo(rank'[r]) <= |Class(root', r)|
    {
      JoinedClasses(root, a, b, a);
    }
  }
}
