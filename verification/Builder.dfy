/** Building a directory's buckets (programs/makefemtofs.cpp:1500-1563) and the simulator's separate
    replay of it (programs/femtofsSim.cpp:961-988). */
module Builder {
  import opened Format
  import opened Slice
  import opened Counting
  import opened Sorting
  import opened Loads
  import opened Layout

  function NameOf(names: seq<seq<byte>>, x: nat): seq<byte> {
    if x < |names| then names[x] else []
  }

  /** `byteLess` on the names of two children, as a sorting order. */
  function ByName(names: seq<seq<byte>>): (nat, nat) -> bool {
    (x: nat, y: nat) => BytesLeq(NameOf(names, x), NameOf(names, y))
  }

  /** The groups as the builder chains them: each sorted by name. */
  ghost function Arranged(names: seq<seq<byte>>, anchors: seq<nat>, size: nat): Groups {
    seq(size, a requires a >= 0 => Sort(ByName(names), Group(anchors, a)))
  }

  lemma ByNameOrder(names: seq<seq<byte>>)
    ensures TotalOrder(ByName(names))
  {
    BytesOrder();
    forall x: nat, y: nat, z: nat
      ensures ByName(names)(x, x) && (ByName(names)(x, y) || ByName(names)(y, x))
      ensures ByName(names)(x, y) && ByName(names)(y, z) ==> ByName(names)(x, z)
    {
      BytesTotal(NameOf(names, x), NameOf(names, x));
      BytesTotal(NameOf(names, x), NameOf(names, y));
      if ByName(names)(x, y) && ByName(names)(y, z) {
        BytesTransitive(NameOf(names, x), NameOf(names, y), NameOf(names, z));
      }
    }
  }

  /** Along a chain the names increase. */
  ghost predicate ChainsAscend(names: seq<seq<byte>>, slots: seq<Option<Slot>>) {
    forall p: nat {:trigger slots[p]} :: p < |slots| && slots[p].Some? && slots[p].value.next < |slots| ==>
      var q := slots[p].value.next;
      && slots[q].Some? && slots[p].value.child < |names| && slots[q].value.child < |names|
      && BytesLeq(names[slots[p].value.child], names[slots[q].value.child])
  }

  lemma LaidOutAscends(names: seq<seq<byte>>, anchors: seq<nat>, slots: seq<Option<Slot>>)
    requires |anchors| == |names| && LaidOut(Arranged(names, anchors, |slots|), slots)
    ensures ChainsAscend(names, slots)
  {
    var groups := Arranged(names, anchors, |slots|);
    forall p: nat | p < |slots| && slots[p].Some? && slots[p].value.next < |slots|
      ensures var q := slots[p].value.next;
              && slots[q].Some? && slots[p].value.child < |names| && slots[q].value.child < |names|
              && BytesLeq(names[slots[p].value.child], names[slots[q].value.child])
    {
      var a: nat, i: nat :| Member(groups, a, i) && Pos(groups, a, i) == p;
      assert slots[Pos(groups, a, i)] == Some(Slot(groups[a][i], NextPos(groups, a, i)));
      assert Member(groups, a, i + 1);
      GroupAscends(names, anchors, |slots|, a, i);
    }
  }

  lemma GroupAscends(names: seq<seq<byte>>, anchors: seq<nat>, size: nat, a: nat, i: nat)
    requires |anchors| == |names| && Member(Arranged(names, anchors, size), a, i + 1)
    ensures var g := Arranged(names, anchors, size)[a];
            g[i] < |names| && g[i + 1] < |names| && BytesLeq(names[g[i]], names[g[i + 1]])
  {
    var g := Sort(ByName(names), Group(anchors, a));
    ByNameOrder(names);
    SortSorted(ByName(names), Group(anchors, a));
    SameElements(g, Group(anchors, a));
    GroupBelow(anchors, a);
    assert g[i] in g && g[i + 1] in g;
    assert ByName(names)(g[i], g[i + 1]);
  }

  lemma {:induction false} GroupBelow(anchors: seq<nat>, a: nat)
    ensures forall k: nat :: k in Group(anchors, a) ==> k < |anchors| && anchors[k] == a
  {
    if anchors != [] {
      GroupBelow(anchors[..|anchors| - 1], a);
    }
  }

  lemma ArrangedGrouped(names: seq<seq<byte>>, anchors: seq<nat>, size: nat)
    ensures Grouped(Arranged(names, anchors, size), anchors)
  {
  }

  /** Loads and groups after the first k names. */
  ghost predicate Assigned(h: Hashing, names: seq<seq<byte>>, size: nat, k: nat, loads: seq<nat>, groups: Groups)
    requires size > 0
  {
    k <= |names| && loads == LoadsOf(Assign(h, names[..k], size), size) &&
    groups == GroupsOf(Assign(h, names[..k], size), size)
  }

  lemma AssignNext(h: Hashing, names: seq<seq<byte>>, size: nat, k: nat, loads: seq<nat>, groups: Groups, a: nat)
    requires size > 0 && k < |names| && Assigned(h, names, size, k, loads, groups)
    requires a == Choose(h, loads, names[k])
    ensures a < |loads| && a < |groups|
    ensures Assigned(h, names, size, k + 1, loads[a := loads[a] + 1], groups[a := groups[a] + [k]])
  {
    var anchors := Assign(h, names[..k], size);
    AssignStep(h, names, size, k);
    LoadsStep(anchors, size, a);
    GroupsStep(anchors, size, a);
  }

  lemma AssignStart(h: Hashing, names: seq<seq<byte>>, size: nat, loads: seq<nat>, groups: Groups)
    requires size > 0 && loads == seq(size, _ => 0) && groups == seq(size, _ => [])
    ensures Assigned(h, names, size, 0, loads, groups)
  {
    assert loads == LoadsOf([], size) && groups == GroupsOf([], size);
  }

  lemma AssignEnd(h: Hashing, names: seq<seq<byte>>, size: nat, loads: seq<nat>, groups: Groups)
    requires size > 0 && Assigned(h, names, size, |names|, loads, groups)
    ensures loads == LoadsOf(Assign(h, names, size), size) && groups == GroupsOf(Assign(h, names, size), size)
  {
    assert names[..|names|] == names;
  }

  /** Give each child its anchor, counting loads and collecting the groups. */
  method AssignAnchors(h: Hashing, names: seq<seq<byte>>, size: nat) returns (groups: Groups)
    requires size > 0
    ensures groups == GroupsOf(Assign(h, names, size), size)
  {
    var loads := new nat[size](_ => 0);
    groups := seq(size, _ => []);
    AssignStart(h, names, size, loads[..], groups);
    for k := 0 to |names|
      invariant Assigned(h, names, size, k, loads[..], groups)
    {
      var anchor := ChooseAnchor(h, names[k], size, loads);
      AssignNext(h, names, size, k, loads[..], groups, anchor);
      ghost var was := loads[..];
      loads[anchor] := loads[anchor] + 1;
      assert loads[..] == was[anchor := was[anchor] + 1];
      groups := groups[anchor := groups[anchor] + [k]];
    }
    AssignEnd(h, names, size, loads[..], groups);
  }

  method ChooseAnchor(h: Hashing, name: seq<byte>, size: nat, loads: array<nat>) returns (anchor: nat)
    requires size > 0 && loads.Length == size
    ensures anchor == Choose(h, loads[..], name)
  {
    anchor := HashName(name, h.base, size);
    if h.second.Some? {
      var h2 := HashName(name, h.second.value, size);
      if loads[h2] < loads[anchor] || (loads[h2] == loads[anchor] && h2 < anchor) {
        anchor := h2;
      }
    }
  }

  // ---------------------------------------------------------------- placement

  ghost predicate Before(a: nat, i: nat, b: nat, j: nat) {
    a < b || (a == b && i < j)
  }

  /** Everything before member j of group b is in place, and nothing else. */
  ghost predicate Placed(groups: Groups, slots: seq<Option<Slot>>, b: nat, j: nat) {
    && |slots| == |groups|
    && (forall a: nat, i: nat {:trigger Member(groups, a, i)} :: Member(groups, a, i) && Before(a, i, b, j) ==>
          Pos(groups, a, i) < |slots| && slots[Pos(groups, a, i)] == Some(Slot(groups[a][i], NextPos(groups, a, i))))
    && (forall p: nat :: p < |slots| && slots[p].Some? ==>
          exists a: nat, i: nat {:trigger Member(groups, a, i)} ::
            Member(groups, a, i) && Before(a, i, b, j) && Pos(groups, a, i) == p)
  }

  lemma PlaceOne(groups: Groups, slots: seq<Option<Slot>>, b: nat, j: nat)
    requires Fits(groups) && Placed(groups, slots, b, j) && Member(groups, b, j)
    ensures Pos(groups, b, j) < |slots|
    ensures Placed(groups, slots[Pos(groups, b, j) := Some(Slot(groups[b][j], NextPos(groups, b, j)))], b, j + 1)
  {
    PosInRange(groups, b, j);
    var q := Pos(groups, b, j);
    var slots' := slots[q := Some(Slot(groups[b][j], NextPos(groups, b, j)))];
    forall a: nat, i: nat | Member(groups, a, i) && Before(a, i, b, j + 1)
      ensures Pos(groups, a, i) < |slots'|
      ensures slots'[Pos(groups, a, i)] == Some(Slot(groups[a][i], NextPos(groups, a, i)))
    {
      if Before(a, i, b, j) && Pos(groups, a, i) == q {
        PosInjective(groups, a, i, b, j);
      }
    }
    forall p: nat | p < |slots'| && slots'[p].Some?
      ensures exists a: nat, i: nat {:trigger Member(groups, a, i)} ::
                Member(groups, a, i) && Before(a, i, b, j + 1) && Pos(groups, a, i) == p
    {
      if p == q {
        assert Member(groups, b, j) && Before(b, j, b, j + 1);
      } else {
        var a: nat, i: nat :| Member(groups, a, i) && Before(a, i, b, j) && Pos(groups, a, i) == p;
        assert Before(a, i, b, j + 1);
      }
    }
  }

  lemma NextGroup(groups: Groups, slots: seq<Option<Slot>>, b: nat)
    requires b < |groups| && Placed(groups, slots, b, |groups[b]|)
    ensures Placed(groups, slots, b + 1, 0)
  {
    forall a: nat, i: nat | Member(groups, a, i) && Before(a, i, b + 1, 0)
      ensures Before(a, i, b, |groups[b]|)
    {
    }
    forall p: nat | p < |slots| && slots[p].Some?
      ensures exists a: nat, i: nat {:trigger Member(groups, a, i)} ::
                Member(groups, a, i) && Before(a, i, b + 1, 0) && Pos(groups, a, i) == p
    {
      var a: nat, i: nat :| Member(groups, a, i) && Before(a, i, b, |groups[b]|) && Pos(groups, a, i) == p;
      assert Before(a, i, b + 1, 0);
    }
  }

  lemma AllPlaced(groups: Groups, slots: seq<Option<Slot>>)
    requires Placed(groups, slots, |groups|, 0)
    ensures LaidOut(groups, slots)
  {
    forall a: nat, i: nat | Member(groups, a, i)
      ensures Before(a, i, |groups|, 0)
    {
    }
  }

  /** Chain one group from its anchor through the overflow list; fail when the list runs out. */
  method PlaceGroup(groups: Groups, anchor: nat, overflow: seq<nat>, nextIn: nat, slots: array<Option<Slot>>)
    returns (ok: bool, nextOverflow: nat)
    requires anchor < |groups| && slots.Length == |groups|
    requires overflow == Unused(groups, |groups|) && nextIn == Spill(groups, anchor) <= |overflow|
    requires Fits(groups) ==> Placed(groups, slots[..], anchor, 0)
    modifies slots
    ensures !ok ==> !Fits(groups)
    ensures ok ==> nextOverflow == Spill(groups, anchor + 1) <= |overflow|
    ensures ok && Fits(groups) ==> Placed(groups, slots[..], anchor + 1, 0)
  {
    nextOverflow := nextIn;
    var members := groups[anchor];
    var position := anchor;
    UnusedSound(groups, |groups|);
    for i := 0 to |members|
      invariant nextOverflow == Spill(groups, anchor) + (if i == 0 then 0 else i - 1) <= |overflow|
      invariant 0 < i < |members| ==> nextOverflow < |overflow|
      invariant i == 0 ==> position == anchor
      invariant Fits(groups) ==> Placed(groups, slots[..], anchor, i)
    {
      if i != 0 {
        if nextOverflow == |overflow| {
          assert false;
        }
        position := overflow[nextOverflow];
        nextOverflow := nextOverflow + 1;
      }
      var next := |groups|;
      if i + 1 != |members| {
        if nextOverflow == |overflow| {
          SpillGrows(groups, anchor, |groups|);
          return false, nextOverflow;
        }
        next := overflow[nextOverflow];
      }
      ghost var was := slots[..];
      slots[position] := Some(Slot(members[i], next));
      assert slots[..] == was[position := Some(Slot(members[i], next))];
      if Fits(groups) {
        assert position == Pos(groups, anchor, i) && next == NextPos(groups, anchor, i);
        PlaceOne(groups, was, anchor, i);
      }
    }
    if Fits(groups) {
      NextGroup(groups, slots[..], anchor);
    }
    ok := true;
  }

  /** Chain the groups: anchors keep their cells, the overflow list supplies the others. */
  method PlaceGroups(groups: Groups, size: nat) returns (r: Result<seq<Option<Slot>>>)
    requires |groups| == size
    ensures r.Ok? <==> Fits(groups)
    ensures r.Ok? ==> LaidOut(groups, r.value)
  {
    var overflow: seq<nat> := [];
    for i := 0 to size
      invariant overflow == Unused(groups, i)
    {
      if groups[i] == [] {
        overflow := overflow + [i];
      }
    }
    var slots := new Option<Slot>[size](_ => None);
    var nextOverflow := 0;
    for anchor := 0 to size
      invariant nextOverflow == Spill(groups, anchor) <= |overflow|
      invariant Fits(groups) ==> Placed(groups, slots[..], anchor, 0)
    {
      var ok;
      ok, nextOverflow := PlaceGroup(groups, anchor, overflow, nextOverflow, slots);
      if !ok {
        return Err("internal hash-chain placement cannot reserve next cell");
      }
    }
    AllPlaced(groups, slots[..]);
    r := Ok(slots[..]);
  }

  /** One directory of `constructBuckets`.  The first of its two internal errors cannot happen at all;
      the second happens exactly when there are more children than cells. */
  method ConstructBuckets(h: Hashing, names: seq<seq<byte>>, size: nat) returns (r: Result<seq<Option<Slot>>>)
    requires names != [] ==> size > 0
    ensures r.Ok? <==> |names| <= size
    ensures r.Ok? && size > 0 ==> LaidOut(Arranged(names, Assign(h, names, size), size), r.value)
    ensures r.Ok? && size > 0 ==> Balanced(h, names, size, Assign(h, names, size))
    ensures r.Ok? ==> |r.value| == size
    ensures r.Ok? ==> ChainsAscend(names, r.value)
  {
    if size > 0 {
      AssignBalanced(h, names, size);
    }
    if names == [] {
      var slots: seq<Option<Slot>> := seq(size, _ => None);
      if size > 0 {
        assert forall a: nat, i: nat :: !Member(Arranged(names, [], size), a, i);
      }
      return Ok(slots);
    }
    ghost var anchors := Assign(h, names, size);
    var groups := AssignAnchors(h, names, size);
    var sorted := seq(size, a requires 0 <= a < size => Sort(ByName(names), groups[a]));
    assert sorted == Arranged(names, anchors, size);
    ArrangedGrouped(names, anchors, size);
    Room(sorted, anchors);
    r := PlaceGroups(sorted, size);
    if r.Ok? {
      LaidOutAscends(names, anchors, r.value);
    }
  }

  // ---------------------------------------------------------------- the simulator's replay

  /** The two arrays read as slots: a cell is empty when its object is the out-of-range mark. */
  ghost function Slots(objectAt: seq<nat>, next: seq<nat>, mark: nat): seq<Option<Slot>>
    requires |objectAt| == |next|
  {
    seq(|objectAt|, p requires 0 <= p < |objectAt| =>
      if objectAt[p] == mark then None else Some(Slot(objectAt[p], next[p])))
  }

  /** A cell about to be filled is still empty. */
  lemma StillEmpty(groups: Groups, slots: seq<Option<Slot>>, b: nat, j: nat)
    requires Fits(groups) && Placed(groups, slots, b, j) && Member(groups, b, j)
    ensures Pos(groups, b, j) < |slots| && slots[Pos(groups, b, j)] == None
  {
    PosInRange(groups, b, j);
    var p := Pos(groups, b, j);
    if slots[p].Some? {
      var a: nat, i: nat :| Member(groups, a, i) && Before(a, i, b, j) && Pos(groups, a, i) == p;
      PosInjective(groups, a, i, b, j);
    }
  }

  /** The next unused cell, found by scanning on from where the last one was. */
  method NextUnused(groups: Groups, from: nat, ghost used: nat) returns (position: nat)
    requires from <= |groups| && |Unused(groups, from)| == used < |Unused(groups, |groups|)|
    ensures position < |groups| && position == Unused(groups, |groups|)[used]
    ensures |Unused(groups, position + 1)| == used + 1
  {
    position := from;
    UnusedPrefix(groups, from, |groups|);
    while groups[position] != []
      invariant from <= position < |groups| && |Unused(groups, position)| == used
      decreases |groups| - position
    {
      position := position + 1;
      UnusedPrefix(groups, position, |groups|);
    }
    UnusedPrefix(groups, position + 1, |groups|);
    assert Unused(groups, position + 1)[used] == position;
  }

  /** The arrays hold the finished slots and, at `previous`, the last member placed, not yet linked on. */
  ghost predicate Chaining(groups: Groups, anchor: nat, i: nat, mark: nat, overflow: nat, previous: nat,
                           objectAt: seq<nat>, next: seq<nat>, done: seq<Option<Slot>>)
    requires anchor < |groups| && i <= |groups[anchor]| && |objectAt| == |next| == |groups|
  {
    && overflow <= |groups| && |done| == |groups|
    && |Unused(groups, overflow)| == Spill(groups, anchor) + (if i == 0 then 0 else i - 1)
    && (forall p: nat :: p < |groups| && objectAt[p] == mark ==> next[p] == |groups|)
    && (if i == 0 then previous == |groups| && Slots(objectAt, next, mark) == done
        else previous == Pos(groups, anchor, i - 1) < |groups| &&
             Slots(objectAt, next, mark) == done[previous := Some(Slot(groups[anchor][i - 1], |groups|))])
  }

  method ReplayMember(groups: Groups, anchor: nat, i: nat, mark: nat, overflowIn: nat, previousIn: nat,
                      objectAt: array<nat>, next: array<nat>, ghost doneIn: seq<Option<Slot>>)
    returns (overflow: nat, previous: nat, ghost done: seq<Option<Slot>>)
    requires objectAt != next && objectAt.Length == next.Length == |groups| && Fits(groups)
    requires Member(groups, anchor, i) && mark !in groups[anchor]
    requires Chaining(groups, anchor, i, mark, overflowIn, previousIn, objectAt[..], next[..], doneIn)
    requires Placed(groups, doneIn, anchor, if i == 0 then 0 else i - 1)
    modifies objectAt, next
    ensures Chaining(groups, anchor, i + 1, mark, overflow, previous, objectAt[..], next[..], done)
    ensures Placed(groups, done, anchor, i)
  {
    overflow, done := overflowIn, doneIn;
    var position := anchor;
    PosInRange(groups, anchor, i);
    if previousIn != |groups| {
      SlotsLink(objectAt[..], next[..], mark, previousIn, groups[anchor][i - 1], done);
      position := NextUnused(groups, overflow, Spill(groups, anchor) + i - 1);
      overflow := position + 1;
      ghost var links := next[..];
      next[previousIn] := position;
      assert next[..] == links[previousIn := position];
      PlaceOne(groups, done, anchor, i - 1);
      done := done[previousIn := Some(Slot(groups[anchor][i - 1], position))];
    }
    assert Slots(objectAt[..], next[..], mark) == done;
    StillEmpty(groups, done, anchor, i);
    objectAt[position] := groups[anchor][i];
    previous := position;
  }

  /** Linking on the last member finishes its slot. */
  lemma SlotsLink(objectAt: seq<nat>, next: seq<nat>, mark: nat, p: nat, child: nat, done: seq<Option<Slot>>)
    requires |objectAt| == |next| == |done| && p < |done|
    requires Slots(objectAt, next, mark) == done[p := Some(Slot(child, |done|))]
    ensures forall q: nat {:trigger next[p := q]} ::
              Slots(objectAt, next[p := q], mark) == done[p := Some(Slot(child, q))]
    ensures objectAt[p] == child != mark
  {
    assert Slots(objectAt, next, mark)[p] == Some(Slot(child, |done|));
    forall q: nat
      ensures Slots(objectAt, next[p := q], mark) == done[p := Some(Slot(child, q))]
    {
      var was, now := Slots(objectAt, next, mark), Slots(objectAt, next[p := q], mark);
      forall x: nat | x < |done|
        ensures now[x] == done[p := Some(Slot(child, q))][x]
      {
        assert was[x] == done[p := Some(Slot(child, |done|))][x];
      }
    }
  }

  /** Chain one group: each member after the first takes the next unused cell and is linked from the last. */
  method ReplayGroup(groups: Groups, anchor: nat, mark: nat, overflowIn: nat,
                     objectAt: array<nat>, next: array<nat>)
    returns (overflow: nat)
    requires objectAt != next && objectAt.Length == next.Length == |groups| && anchor < |groups| && Fits(groups)
    requires mark !in groups[anchor]
    requires overflowIn <= |groups| && |Unused(groups, overflowIn)| == Spill(groups, anchor)
    requires Placed(groups, Slots(objectAt[..], next[..], mark), anchor, 0)
    requires forall p: nat :: p < |groups| && objectAt[p] == mark ==> next[p] == |groups|
    modifies objectAt, next
    ensures overflow <= |groups| && |Unused(groups, overflow)| == Spill(groups, anchor + 1)
    ensures Placed(groups, Slots(objectAt[..], next[..], mark), anchor + 1, 0)
    ensures forall p: nat :: p < |groups| && objectAt[p] == mark ==> next[p] == |groups|
  {
    overflow := overflowIn;
    var previous: nat := |groups|;
    ghost var done := Slots(objectAt[..], next[..], mark);
    for i := 0 to |groups[anchor]|
      invariant Chaining(groups, anchor, i, mark, overflow, previous, objectAt[..], next[..], done)
      invariant Placed(groups, done, anchor, if i == 0 then 0 else i - 1)
    {
      overflow, previous, done := ReplayMember(groups, anchor, i, mark, overflow, previous, objectAt, next, done);
    }
    if groups[anchor] != [] {
      PlaceOne(groups, done, anchor, |groups[anchor]| - 1);
    }
    NextGroup(groups, Slots(objectAt[..], next[..], mark), anchor);
  }

  method ReplayGroups(groups: Groups, mark: nat) returns (objectAt: array<nat>, next: array<nat>)
    requires Fits(groups) && forall a: nat :: a < |groups| ==> mark !in groups[a]
    ensures objectAt.Length == next.Length == |groups|
    ensures LaidOut(groups, Slots(objectAt[..], next[..], mark))
  {
    var size := |groups|;
    objectAt := new nat[size](_ => mark);
    next := new nat[size](_ => size);
    var overflow: nat := 0;
    assert Placed(groups, Slots(objectAt[..], next[..], mark), 0, 0);
    for anchor := 0 to size
      invariant overflow <= size && |Unused(groups, overflow)| == Spill(groups, anchor)
      invariant Placed(groups, Slots(objectAt[..], next[..], mark), anchor, 0)
      invariant forall p: nat :: p < size && objectAt[p] == mark ==> next[p] == size
    {
      overflow := ReplayGroup(groups, anchor, mark, overflow, objectAt, next);
    }
    AllPlaced(groups, Slots(objectAt[..], next[..], mark));
  }

  /** The simulator's replay of one directory: the groups in the order the names come. */
  method ReplayLayout(h: Hashing, names: seq<seq<byte>>, size: nat)
    returns (objectAt: array<nat>, next: array<nat>)
    requires size > 0 && |names| <= size
    ensures objectAt.Length == next.Length == size
    ensures LaidOut(GroupsOf(Assign(h, names, size), size), Slots(objectAt[..], next[..], |names|))
  {
    var groups := AssignAnchors(h, names, size);
    ReplayFits(h, names, size);
    objectAt, next := ReplayGroups(groups, |names|);
  }

  lemma ReplayFits(h: Hashing, names: seq<seq<byte>>, size: nat)
    requires size > 0 && |names| <= size
    ensures var groups := GroupsOf(Assign(h, names, size), size);
            Fits(groups) && forall a: nat :: a < size ==> |names| !in groups[a]
  {
    var anchors := Assign(h, names, size);
    var groups := GroupsOf(anchors, size);
    assert Grouped(groups, anchors);
    Room(groups, anchors);
    forall a: nat | a < size
      ensures |names| !in groups[a]
    {
      GroupSize(anchors, a);
    }
  }
}
