/** What the builder writes, the reader accepts and finds.

    The buckets `ConstructBuckets` lays out become the cells of a slice; the cells left over may hold
    attributes.  Such a slice passes the kernel's chain check, and looking a name up in it gives the
    child of that name, or nothing when there is none. */
module BuiltSlice {
  import opened Format
  import opened Slice
  import opened Counting
  import opened Sorting
  import opened Loads
  import opened Layout
  import opened Builder
  import Directory

  /** The cells hold the slots' buckets; where there is no slot there is no bucket. */
  ghost predicate Written(cells: seq<Cell>, slots: seq<Option<Slot>>, names: seq<seq<byte>>, targets: seq<nat>) {
    && |cells| == |slots| && |targets| == |names|
    && (forall p: nat :: p < |slots| && slots[p].None? ==> !cells[p].Bucket?)
    && (forall p: nat :: p < |slots| && slots[p].Some? ==>
          slots[p].value.child < |names| &&
          cells[p] == Bucket(names[slots[p].value.child], targets[slots[p].value.child], slots[p].value.next))
  }

  // ---------------------------------------------------------------- groups partition the children

  lemma GroupMembers(groups: Groups, anchors: seq<nat>, a: nat)
    requires Grouped(groups, anchors) && a < |groups|
    ensures forall m: nat {:trigger m in groups[a]} :: m in groups[a] <==> m < |anchors| && anchors[m] == a
    ensures Distinct(groups[a])
  {
    GroupSize(anchors, a);
    SameElements(groups[a], Group(anchors, a));
    DistinctMultiplicity(groups[a]);
    DistinctMultiplicity(Group(anchors, a));
  }

  // ---------------------------------------------------------------- chains

  /** Everything the placement promises about one directory, in one name. */
  ghost predicate Built(h: Hashing, names: seq<seq<byte>>, targets: seq<nat>, groups: Groups, cells: seq<Cell>) {
    && 0 < |cells| == |groups| && Fits(groups) && Grouped(groups, Assign(h, names, |groups|))
    && exists slots: seq<Option<Slot>> :: LaidOut(groups, slots) && Written(cells, slots, names, targets)
  }

  lemma CellAt(h: Hashing, names: seq<seq<byte>>, targets: seq<nat>, groups: Groups, cells: seq<Cell>, a: nat, i: nat)
    requires Built(h, names, targets, groups, cells) && Member(groups, a, i)
    ensures Pos(groups, a, i) < |cells| && groups[a][i] < |names| == |targets|
    ensures cells[Pos(groups, a, i)] == Bucket(names[groups[a][i]], targets[groups[a][i]], NextPos(groups, a, i))
  {
    var slots: seq<Option<Slot>> :| LaidOut(groups, slots) && Written(cells, slots, names, targets);
    assert LaidOut(groups, slots) && Written(cells, slots, names, targets);
  }

  lemma OwnerOf(h: Hashing, names: seq<seq<byte>>, targets: seq<nat>, groups: Groups, cells: seq<Cell>, p: nat)
    returns (a: nat, i: nat)
    requires Built(h, names, targets, groups, cells) && Occupied(cells, p)
    ensures Member(groups, a, i) && Pos(groups, a, i) == p
  {
    var slots: seq<Option<Slot>> :| LaidOut(groups, slots) && Written(cells, slots, names, targets);
    assert LaidOut(groups, slots) && Written(cells, slots, names, targets);
    assert slots[p].Some?;
    a, i :| Member(groups, a, i) && Pos(groups, a, i) == p;
  }

  /** Every member's cell links to the next member's. */
  ghost predicate Linked(groups: Groups, cells: seq<Cell>) {
    && |cells| == |groups|
    && forall a: nat, i: nat {:trigger Member(groups, a, i)} :: Member(groups, a, i) ==>
         Occupied(cells, Pos(groups, a, i)) && cells[Pos(groups, a, i)].next == NextPos(groups, a, i)
  }

  lemma BuiltLinked(h: Hashing, names: seq<seq<byte>>, targets: seq<nat>, groups: Groups, cells: seq<Cell>)
    requires Built(h, names, targets, groups, cells)
    ensures Linked(groups, cells)
  {
    forall a: nat, i: nat {:trigger Member(groups, a, i)} | Member(groups, a, i)
      ensures Occupied(cells, Pos(groups, a, i)) && cells[Pos(groups, a, i)].next == NextPos(groups, a, i)
    {
      CellAt(h, names, targets, groups, cells, a, i);
    }
  }

  /** Following i links from an anchor reaches the i-th member of its group. */
  lemma {:induction false} ChainWalk(groups: Groups, cells: seq<Cell>, a: nat, i: nat)
    requires Linked(groups, cells) && Member(groups, a, i)
    ensures At(cells, a, i) == Pos(groups, a, i)
  {
    if i > 0 {
      ChainWalk(groups, cells, a, i - 1);
      assert Member(groups, a, i - 1);
      AtOne(cells, a, i);
    }
  }

  lemma {:induction false} ChainEnds(groups: Groups, cells: seq<Cell>, a: nat, i: nat)
    requires Linked(groups, cells) && Member(groups, a, i)
    ensures At(cells, Pos(groups, a, i), |groups[a]| - i) == |cells|
    decreases |groups[a]| - i
  {
    var next := cells[Pos(groups, a, i)].next;
    assert At(cells, Pos(groups, a, i), |groups[a]| - i) == At(cells, next, |groups[a]| - i - 1);
    if i + 1 < |groups[a]| {
      ChainEnds(groups, cells, a, i + 1);
    } else {
      assert At(cells, next, 0) == |cells|;
    }
  }

  lemma BuiltWellChained(h: Hashing, names: seq<seq<byte>>, targets: seq<nat>, groups: Groups, cells: seq<Cell>)
    requires Built(h, names, targets, groups, cells)
    ensures WellChained(cells, h)
  {
    forall p: nat | Occupied(cells, p)
      ensures LinkOk(cells, p) && Ends(cells, p) && Anchored(cells, h, p)
    {
      var a, i := OwnerOf(h, names, targets, groups, cells, p);
      CellAt(h, names, targets, groups, cells, a, i);
      BuiltLinked(h, names, targets, groups, cells);
      ChainEnds(groups, cells, a, i);
      ChainWalk(groups, cells, a, i);
      if i + 1 < |groups[a]| {
        CellAt(h, names, targets, groups, cells, a, i + 1);
      }
      var m := groups[a][i];
      GroupMembers(groups, Assign(h, names, |groups|), a);
      assert m in groups[a];
      AssignSound(h, names, |groups|, m);
      assert Reach(cells, a, p);
    }
  }

  // ---------------------------------------------------------------- one bucket a child

  /** The cell a child ends up in. */
  lemma CellOfChild(h: Hashing, names: seq<seq<byte>>, targets: seq<nat>, groups: Groups, cells: seq<Cell>, m: nat)
    returns (p: nat)
    requires Built(h, names, targets, groups, cells) && m < |names|
    ensures Occupied(cells, p) && cells[p].name == names[m] && cells[p].target == targets[m]
  {
    var a := Assign(h, names, |groups|)[m];
    GroupMembers(groups, Assign(h, names, |groups|), a);
    assert m in groups[a];
    var i: nat :| i < |groups[a]| && groups[a][i] == m;
    assert Member(groups, a, i);
    CellAt(h, names, targets, groups, cells, a, i);
    p := Pos(groups, a, i);
  }

  lemma SameChildSameCell(h: Hashing, names: seq<seq<byte>>, targets: seq<nat>, groups: Groups, cells: seq<Cell>,
                          p: nat, q: nat)
    requires Built(h, names, targets, groups, cells) && Distinct(names)
    requires Occupied(cells, p) && Occupied(cells, q) && cells[p].name == cells[q].name
    ensures p == q
  {
    var a, i := OwnerOf(h, names, targets, groups, cells, p);
    var b, j := OwnerOf(h, names, targets, groups, cells, q);
    CellAt(h, names, targets, groups, cells, a, i);
    CellAt(h, names, targets, groups, cells, b, j);
    var m := groups[a][i];
    assert m == groups[b][j];
    GroupMembers(groups, Assign(h, names, |groups|), a);
    GroupMembers(groups, Assign(h, names, |groups|), b);
    assert m in groups[a] && groups[b][j] in groups[b];
    assert a == b;
    assert i == j;
  }

  /** The number of occupied cells is the number of children. */
  lemma BuiltCount(h: Hashing, names: seq<seq<byte>>, targets: seq<nat>, groups: Groups, cells: seq<Cell>)
    requires Built(h, names, targets, groups, cells) && Distinct(names)
    ensures |OccupiedSet(cells)| == |names|
  {
    var named := map p | p in OccupiedSet(cells) :: cells[p].name;
    forall p, q | p in named && q in named && named[p] == named[q]
      ensures p == q
    {
      SameChildSameCell(h, names, targets, groups, cells, p, q);
    }
    MapSize(named);
    assert named.Keys == OccupiedSet(cells);
    assert named.Values == Elements(names) by {
      forall x | x in names
        ensures x in named.Values
      {
        var m: nat :| m < |names| && names[m] == x;
        var p := CellOfChild(h, names, targets, groups, cells, m);
        assert p in named && named[p] == x;
      }
      forall x | x in named.Values
        ensures x in names
      {
        var p :| p in named && named[p] == x;
        var a, i := OwnerOf(h, names, targets, groups, cells, p);
        CellAt(h, names, targets, groups, cells, a, i);
      }
    }
    DistinctSize(names);
  }

  lemma {:induction false} MapSize<K, V>(m: map<K, V>)
    requires forall p, q :: p in m && q in m && m[p] == m[q] ==> p == q
    ensures |m.Keys| == |m.Values|
    decreases |m|
  {
    if m.Keys != {} {
      var k :| k in m.Keys;
      var rest := m - {k};
      assert m.Keys == rest.Keys + {k};
      assert |rest| < |m|;
      MapSize(rest);
      assert m.Values == rest.Values + {m[k]} by {
        forall v | v in m.Values
          ensures v in rest.Values + {m[k]}
        {
          var p :| p in m && m[p] == v;
          if p != k {
            assert p in rest && rest[p] == v;
          }
        }
      }
      assert m[k] !in rest.Values;
    }
  }

  /** The builder meets the reader, for any distinct names that fit the table, in either hash mode. */
  lemma BuilderMeetsReader(h: Hashing, names: seq<seq<byte>>, targets: seq<nat>, size: nat,
                           slots: seq<Option<Slot>>, cells: seq<Cell>)
    requires Distinct(names) && |names| <= size && size > 0
    requires LaidOut(Arranged(names, Assign(h, names, size), size), slots) && Written(cells, slots, names, targets)
    ensures WellChained(cells, h) && |OccupiedSet(cells)| == |names|
    ensures Directory.DistinctNames(cells)
    ensures forall m: nat :: m < |names| ==> Directory.Scan(cells, names[m]) == Some(targets[m])
    ensures forall name: seq<byte> :: name !in names ==> Directory.Scan(cells, name) == None
  {
    var anchors := Assign(h, names, size);
    var groups := Arranged(names, anchors, size);
    ArrangedGrouped(names, anchors, size);
    Room(groups, anchors);
    assert Built(h, names, targets, groups, cells);
    BuiltWellChained(h, names, targets, groups, cells);
    BuiltCount(h, names, targets, groups, cells);
    forall i: nat, j: nat | i < j && Occupied(cells, i) && Occupied(cells, j)
      ensures cells[i].name != cells[j].name
    {
      if cells[i].name == cells[j].name {
        SameChildSameCell(h, names, targets, groups, cells, i, j);
      }
    }
    forall m: nat | m < |names|
      ensures Directory.Scan(cells, names[m]) == Some(targets[m])
    {
      var p := CellOfChild(h, names, targets, groups, cells, m);
      Directory.ScanFinds(cells, p, names[m]);
    }
    forall name: seq<byte> | name !in names
      ensures Directory.Scan(cells, name) == None
    {
      NamedAreChildren(h, names, targets, groups, cells, name);
    }
  }

  lemma NamedAreChildren(h: Hashing, names: seq<seq<byte>>, targets: seq<nat>, groups: Groups, cells: seq<Cell>,
                         name: seq<byte>)
    requires Built(h, names, targets, groups, cells)
    ensures forall i: nat :: Directory.Named(cells, i, name) ==> name in names
  {
    forall i: nat | Directory.Named(cells, i, name)
      ensures name in names
    {
      var a, j := OwnerOf(h, names, targets, groups, cells, i);
      CellAt(h, names, targets, groups, cells, a, j);
    }
  }

  /** On children sorted by name, as the planner hands them over, simulator and builder agree cell by cell. */
  lemma SimulatorMatchesBuilder(h: Hashing, names: seq<seq<byte>>, size: nat,
                                built: seq<Option<Slot>>, replayed: seq<Option<Slot>>)
    requires size > 0 && Sorted(BytesLeq, names)
    requires LaidOut(Arranged(names, Assign(h, names, size), size), built)
    requires LaidOut(GroupsOf(Assign(h, names, size), size), replayed)
    ensures built == replayed
  {
    var anchors := Assign(h, names, size);
    forall a: nat | a < size
      ensures Sort(ByName(names), Group(anchors, a)) == Group(anchors, a)
    {
      GroupAscending(anchors, a);
      GroupSize(anchors, a);
      var g := Group(anchors, a);
      forall i: nat, j: nat | i < j < |g|
        ensures ByName(names)(g[i], g[j])
      {
        assert g[i] in g && g[j] in g;
      }
      SortKeeps(ByName(names), g);
    }
    assert Arranged(names, anchors, size) == GroupsOf(anchors, size);
    LaidOutUnique(GroupsOf(anchors, size), built, replayed);
  }

  lemma {:induction false} GroupAscending(anchors: seq<nat>, a: nat)
    ensures forall i: nat, j: nat :: i < j < |Group(anchors, a)| ==> Group(anchors, a)[i] < Group(anchors, a)[j]
  {
    if anchors != [] {
      var last := |anchors| - 1;
      GroupAscending(anchors[..last], a);
      GroupSize(anchors[..last], a);
      var front := Group(anchors[..last], a);
      assert forall k: nat :: k < |front| ==> front[k] in front;
    }
  }
}
