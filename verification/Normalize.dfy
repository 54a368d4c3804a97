/** Turning each hardlink group into one file and hardlinks to it (programs/makefemtofs.cpp:1035-1101). */
module Normalize {
  import opened Format
  import opened Paths
  import opened Sorting
  import opened DisjointSets
  import opened Hardlinks

  /** Nodes that groups are made of. */
  predicate IsMember(n: Node) {
    n.kind == File || n.link.Some?
  }

  /** Members of one group must agree on attributes, and on content when both carry any. */
  predicate Compatible(a: Node, b: Node) {
    && a.attr == b.attr
    && (a.payload.Some? && a.payload.value != [] && b.payload.Some? && b.payload.value != [] ==> a.payload == b.payload)
  }

  /** Two members of one group. */
  ghost predicate Grouped(nodes: seq<Node>, i: nat, j: nat) {
    i < |nodes| && j < |nodes| && IsMember(nodes[i]) && IsMember(nodes[j]) && Together(nodes, i, j)
  }

  /** What the builder accepts. */
  ghost predicate Consistent(nodes: seq<Node>) {
    && (forall i: nat :: i < |nodes| ==> TargetOk(nodes, i) && IdentityOk(nodes, i))
    && (forall i: nat :: i < |nodes| ==> nodes[i].kind != Hardlink && (nodes[i].link.Some? ==> nodes[i].kind == File))
    && (forall i: nat, j: nat {:trigger Grouped(nodes, i, j)} :: Grouped(nodes, i, j) ==>
          Compatible(nodes[i], nodes[j]))
  }

  /** c is the first path of i's group. */
  ghost predicate IsFirst(nodes: seq<Node>, i: nat, c: nat) {
    Grouped(nodes, i, c) && forall j: nat {:trigger Grouped(nodes, i, j)} :: Grouped(nodes, i, j) ==> c <= j
  }

  predicate NonEmpty(n: Node) {
    n.payload.Some? && n.payload.value != []
  }

  /** The content of i's group: that of every member that has any, empty if none has. */
  ghost predicate IsContent(nodes: seq<Node>, i: nat, content: seq<byte>) {
    && (forall j: nat {:trigger Grouped(nodes, i, j)} :: Grouped(nodes, i, j) && NonEmpty(nodes[j]) ==>
          nodes[j].payload.value == content)
    && (content != [] ==>
          exists j: nat {:trigger Grouped(nodes, i, j)} :: Grouped(nodes, i, j) && nodes[j].payload == Some(content))
  }

  /** Member i became the file of its group, at the first path and with the group's content, or a
      hardlink straight to that file. */
  ghost predicate MemberOutcome(nodes: seq<Node>, out: seq<Node>, i: nat)
    requires i < |nodes| == |out|
  {
    var c := out[i].canonical;
    && IsFirst(nodes, i, c) && out[c].kind == File && out[c].canonical == c
    && out[i].path == nodes[i].path && out[i].attr == nodes[i].attr == nodes[c].attr && out[i].link.None?
    && (if i == c then out[i].payload.Some? && IsContent(nodes, i, out[i].payload.value)
        else out[i].kind == Hardlink && out[i].payload.None?)
  }

  /** Each group has one file and hardlinks to it; nothing else changes. */
  ghost predicate Normalized(nodes: seq<Node>, out: seq<Node>) {
    && |out| == |nodes|
    && (forall i: nat :: i < |nodes| && !IsMember(nodes[i]) ==> out[i] == nodes[i])
    && (forall i: nat :: i < |nodes| && IsMember(nodes[i]) ==> MemberOutcome(nodes, out, i))
  }

  // ---------------------------------------------------------------- members

  /** The members of the class of r, in path order. */
  ghost function MembersOf(nodes: seq<Node>, root: seq<nat>, r: nat, k: nat): (g: seq<nat>)
    requires k <= |nodes| == |root|
    ensures forall x: nat :: x < |g| ==> g[x] < k
  {
    if k == 0 then []
    else MembersOf(nodes, root, r, k - 1) + (if IsMember(nodes[k - 1]) && root[k - 1] == r then [k - 1] else [])
  }

  ghost predicate Ascending(g: seq<nat>) {
    forall x: nat, y: nat :: x < y < |g| ==> g[x] < g[y]
  }

  lemma {:induction false} MembersIn(nodes: seq<Node>, root: seq<nat>, r: nat, k: nat, i: nat)
    requires k <= |nodes| == |root|
    ensures i in MembersOf(nodes, root, r, k) <==> i < k && IsMember(nodes[i]) && root[i] == r
  {
    if k > 0 {
      MembersIn(nodes, root, r, k - 1, i);
    }
  }

  lemma {:induction false} MembersAscend(nodes: seq<Node>, root: seq<nat>, r: nat, k: nat)
    requires k <= |nodes| == |root|
    ensures Ascending(MembersOf(nodes, root, r, k))
  {
    if k > 0 {
      MembersAscend(nodes, root, r, k - 1);
      var front := MembersOf(nodes, root, r, k - 1);
      forall x: nat | x < |front|
        ensures front[x] < k - 1
      {
        MembersIn(nodes, root, r, k - 1, front[x]);
      }
    }
  }

  ghost function AllMembers(nodes: seq<Node>, root: seq<nat>, k: nat): seq<seq<nat>>
    requires k <= |nodes| == |root|
  {
    seq(|nodes|, r requires r >= 0 => MembersOf(nodes, root, r, k))
  }

  lemma AllMembersNext(nodes: seq<Node>, root: seq<nat>, k: nat)
    requires k < |nodes| == |root| && root[k] < |nodes|
    ensures AllMembers(nodes, root, k + 1) ==
            if IsMember(nodes[k]) then AllMembers(nodes, root, k)[root[k] := MembersOf(nodes, root, root[k], k) + [k]]
            else AllMembers(nodes, root, k)
  {
    var was, next := AllMembers(nodes, root, k), AllMembers(nodes, root, k + 1);
    forall r: nat | r < |nodes|
      ensures next[r] == if IsMember(nodes[k]) && root[k] == r then was[r] + [k] else was[r]
    {
      assert was[r] == MembersOf(nodes, root, r, k) && next[r] == MembersOf(nodes, root, r, k + 1);
      assert was[r] + [] == was[r];
    }
  }

  method CollectMembers(nodes: seq<Node>, groups: DisjointSet) returns (members: seq<seq<nat>>)
    requires groups.Valid() && |groups.root| == |nodes|
    modifies groups.parent
    ensures members == AllMembers(nodes, groups.root, |nodes|)
  {
    members := seq(|nodes|, _ => []);
    ghost var root := groups.root;
    for i := 0 to |nodes|
      invariant groups.Valid() && groups.root == root
      invariant members == AllMembers(nodes, root, i)
    {
      groups.RootBelow(i);
      AllMembersNext(nodes, root, i);
      if IsMember(nodes[i]) {
        var r := groups.Find(i);
        members := members[r := members[r] + [i]];
      }
    }
  }

  // ---------------------------------------------------------------- one group

  /** The first content found among the members. */
  ghost function FirstContent(nodes: seq<Node>, g: seq<nat>): seq<byte>
    requires forall x: nat :: x < |g| ==> g[x] < |nodes|
  {
    if g == [] then []
    else
      var front := g[..|g| - 1];
      var c := FirstContent(nodes, front);
      if c != [] then c
      else if nodes[g[|g| - 1]].payload.Some? then nodes[g[|g| - 1]].payload.value
      else []
  }

  lemma {:induction false} FirstContentIs(nodes: seq<Node>, g: seq<nat>)
    requires forall x: nat :: x < |g| ==> g[x] < |nodes|
    ensures var c := FirstContent(nodes, g);
            && (c != [] ==> exists x: nat :: x < |g| && nodes[g[x]].payload == Some(c))
            && (c == [] ==> forall x: nat :: x < |g| && nodes[g[x]].payload.Some? ==> nodes[g[x]].payload.value == [])
  {
    if g != [] {
      FirstContentIs(nodes, g[..|g| - 1]);
      var c := FirstContent(nodes, g[..|g| - 1]);
      if c != [] {
        var x: nat :| x < |g| - 1 && nodes[g[..|g| - 1][x]].payload == Some(c);
        assert nodes[g[x]].payload == Some(c);
      }
    }
  }

  /** Regular, alike in attributes, alike in content. */
  ghost predicate GroupOk(nodes: seq<Node>, g: seq<nat>)
    requires forall x: nat :: x < |g| ==> g[x] < |nodes|
  {
    && (forall x: nat :: x < |g| ==> nodes[g[x]].kind == File)
    && (forall x: nat, y: nat :: x < |g| && y < |g| ==> Compatible(nodes[g[x]], nodes[g[y]]))
  }

  /** Check a group and pick its content. */
  method CheckGroup(nodes: seq<Node>, g: seq<nat>) returns (ok: bool, content: seq<byte>)
    requires g != [] && forall x: nat :: x < |g| ==> g[x] < |nodes|
    ensures ok <==> GroupOk(nodes, g)
    ensures ok ==> content == FirstContent(nodes, g)
  {
    var attrs := nodes[g[0]].attr;
    content := [];
    for x := 0 to |g|
      invariant content == FirstContent(nodes, g[..x])
      invariant forall y: nat :: y < x ==> nodes[g[y]].kind == File && nodes[g[y]].attr == attrs
      invariant forall y: nat :: y < x && nodes[g[y]].payload.Some? && nodes[g[y]].payload.value != [] ==>
                  nodes[g[y]].payload.value == content
    {
      FirstContentIs(nodes, g[..x]);
      assert g[..x + 1][..x] == g[..x];
      var node := nodes[g[x]];
      if node.kind != File {
        return false, content;
      }
      if node.attr != attrs {
        assert !Compatible(nodes[g[0]], nodes[g[x]]);
        return false, content;
      }
      if node.payload.Some? && node.payload.value != [] {
        if content == [] {
          content := node.payload.value;
        } else if node.payload.value != content {
          ghost var y: nat :| y < x && nodes[g[..x][y]].payload == Some(content);
          assert !Compatible(nodes[g[y]], nodes[g[x]]);
          return false, content;
        }
      }
    }
    assert g[..|g|] == g;
    ok := true;
  }

  /** What becomes of member i of a group with canonical member c. */
  function Settled(n: Node, i: nat, c: nat, content: seq<byte>): Node {
    if i == c then n.(kind := File, link := None, payload := Some(content), canonical := c)
    else n.(kind := Hardlink, link := None, payload := None, canonical := c)
  }

  /** The nodes with the members of g rewritten. */
  ghost function SettledSeq(nodes: seq<Node>, g: seq<nat>, content: seq<byte>): seq<Node>
    requires g != []
  {
    seq(|nodes|, i requires 0 <= i < |nodes| => if i in g then Settled(nodes[i], i, g[0], content) else nodes[i])
  }

  /** Rewrite the members of a group. */
  method SettleGroup(nodes: array<Node>, g: seq<nat>, content: seq<byte>)
    requires g != [] && (forall x: nat :: x < |g| ==> g[x] < nodes.Length) && Ascending(g)
    modifies nodes
    ensures nodes[..] == SettledSeq(old(nodes[..]), g, content)
  {
    var canonical := g[0];
    nodes[canonical] := nodes[canonical].(kind := File, payload := Some(content), link := None, canonical := canonical);
    for x := 1 to |g|
      invariant forall i: nat :: i < nodes.Length ==>
                  nodes[i] == if i in g[..x] then Settled(old(nodes[i]), i, canonical, content) else old(nodes[i])
    {
      var index := g[x];
      assert g[..x + 1] == g[..x] + [index];
      nodes[index] := nodes[index].(kind := Hardlink, payload := None, link := None, canonical := canonical);
    }
    assert g[..|g|] == g;
  }

  // ---------------------------------------------------------------- all groups

  lemma {:induction false} SameGroup(nodes: seq<Node>, now: seq<Node>, g: seq<nat>)
    requires |now| == |nodes| && forall x: nat :: x < |g| ==> g[x] < |nodes| && now[g[x]] == nodes[g[x]]
    ensures FirstContent(now, g) == FirstContent(nodes, g)
    ensures GroupOk(now, g) <==> GroupOk(nodes, g)
  {
    if g != [] {
      SameGroup(nodes, now, g[..|g| - 1]);
    }
  }

  /** What node i ends up as once its group is settled. */
  ghost function After(nodes: seq<Node>, root: seq<nat>, i: nat): Node
    requires |root| == |nodes| && i < |nodes| && IsMember(nodes[i])
  {
    var g := MembersOf(nodes, root, root[i], |nodes|);
    MembersIn(nodes, root, root[i], |nodes|, i);
    Settled(nodes[i], i, g[0], FirstContent(nodes, g))
  }

  /** A file alone in its group and without an explicit link is left for the last pass. */
  ghost predicate Alone(nodes: seq<Node>, g: seq<nat>)
    requires forall x: nat :: x < |g| ==> g[x] < |nodes|
  {
    |g| == 1 && nodes[g[0]].link.None?
  }

  ghost predicate Rewritten(nodes: seq<Node>, root: seq<nat>, i: nat)
    requires |root| == |nodes| && i < |nodes|
  {
    IsMember(nodes[i]) && !Alone(nodes, MembersOf(nodes, root, root[i], |nodes|))
  }

  /** The nodes once all groups with a representative below r are settled. */
  ghost predicate SettledBelow(nodes: seq<Node>, root: seq<nat>, now: seq<Node>, r: nat) {
    |now| == |root| == |nodes| &&
    forall i: nat {:trigger now[i]} :: i < |nodes| ==>
      now[i] == if root[i] < r && Rewritten(nodes, root, i) then After(nodes, root, i) else nodes[i]
  }

  lemma SettledNext(nodes: seq<Node>, root: seq<nat>, was: seq<Node>, now: seq<Node>, r: nat)
    requires SettledBelow(nodes, root, was, r) && |now| == |nodes|
    requires var g := MembersOf(nodes, root, r, |nodes|);
             now == if g == [] || Alone(nodes, g) then was else SettledSeq(was, g, FirstContent(nodes, g))
    ensures SettledBelow(nodes, root, now, r + 1)
  {
    var g := MembersOf(nodes, root, r, |nodes|);
    forall i: nat | i < |nodes|
      ensures now[i] == if root[i] < r + 1 && Rewritten(nodes, root, i) then After(nodes, root, i) else nodes[i]
    {
      MembersIn(nodes, root, r, |nodes|, i);
    }
  }

  lemma GroupSettled(nodes: seq<Node>, root: seq<nat>, was: seq<Node>, now: seq<Node>, r: nat)
    requires SettledBelow(nodes, root, was, r) && |now| == |nodes|
    requires var g := MembersOf(nodes, root, r, |nodes|);
             g != [] && !Alone(nodes, g) && now == SettledSeq(was, g, FirstContent(nodes, g))
    ensures SettledBelow(nodes, root, now, r + 1)
  {
    SettledNext(nodes, root, was, now, r);
  }

  /** The group of one representative is acceptable. */
  ghost predicate RootOk(nodes: seq<Node>, root: seq<nat>, r: nat)
    requires |root| == |nodes|
  {
    var g := MembersOf(nodes, root, r, |nodes|);
    g == [] || Alone(nodes, g) || GroupOk(nodes, g)
  }

  /** A group whose turn has not come is as it was. */
  lemma Untouched(nodes: seq<Node>, root: seq<nat>, now: seq<Node>, r: nat)
    requires SettledBelow(nodes, root, now, r)
    ensures var g := MembersOf(nodes, root, r, |nodes|);
            forall x: nat {:trigger g[x]} :: x < |g| ==> now[g[x]] == nodes[g[x]]
    ensures var g := MembersOf(nodes, root, r, |nodes|);
            FirstContent(now, g) == FirstContent(nodes, g) && (GroupOk(now, g) <==> GroupOk(nodes, g))
  {
    var g := MembersOf(nodes, root, r, |nodes|);
    forall x: nat | x < |g|
      ensures now[g[x]] == nodes[g[x]]
    {
      MembersIn(nodes, root, r, |nodes|, g[x]);
    }
    SameGroup(nodes, now, g);
  }

  /** Settle the group of one representative. */
  method SettleOne(nodes: array<Node>, g: seq<nat>, r: nat, ghost input: seq<Node>, ghost root: seq<nat>)
    returns (ok: bool)
    requires SettledBelow(input, root, nodes[..], r) && r < |root| && g == MembersOf(input, root, r, |input|)
    modifies nodes
    ensures ok ==> SettledBelow(input, root, nodes[..], r + 1)
    ensures ok <==> RootOk(input, root, r)
  {
    ghost var was := nodes[..];
    MembersAscend(input, root, r, |input|);
    Untouched(input, root, was, r);
    if g == [] || (|g| == 1 && nodes[g[0]].link.None?) {
      SettledNext(input, root, was, nodes[..], r);
      return true;
    }
    var content;
    ok, content := CheckGroup(nodes[..], g);
    if ok {
      SettleGroup(nodes, g, content);
      GroupSettled(input, root, was, nodes[..], r);
    }
  }

  lemma NoneSettled(nodes: seq<Node>, root: seq<nat>)
    requires |root| == |nodes|
    ensures SettledBelow(nodes, root, nodes, 0)
  {
  }

  ghost predicate RootsOk(nodes: seq<Node>, root: seq<nat>, r: nat)
    requires |root| == |nodes|
  {
    forall q: nat :: q < r ==> RootOk(nodes, root, q)
  }

  /** Settle every group. */
  method SettleAll(nodes: array<Node>, members: seq<seq<nat>>, ghost input: seq<Node>, ghost root: seq<nat>)
    returns (ok: bool)
    requires nodes[..] == input && |root| == |members| == |input|
    requires forall r: nat {:trigger members[r]} :: r < |members| ==> members[r] == MembersOf(input, root, r, |input|)
    modifies nodes
    ensures ok ==> SettledBelow(input, root, nodes[..], |input|)
    ensures ok <==> RootsOk(input, root, |root|)
  {
    NoneSettled(input, root);
    for r := 0 to |members|
      invariant SettledBelow(input, root, nodes[..], r)
      invariant RootsOk(input, root, r)
    {
      ok := SettleOne(nodes, members[r], r, input, root);
      if !ok {
        return;
      }
    }
    ok := true;
  }

  // ---------------------------------------------------------------- last pass

  /** A hardlink's canonical node is earlier, or, when it was one from the start, itself. */
  ghost predicate Pointing(nodes: seq<Node>) {
    forall i: nat {:trigger nodes[i]} :: i < |nodes| && nodes[i].kind == Hardlink ==> nodes[i].canonical <= i
  }

  function Finished(nodes: seq<Node>, i: nat): Node
    requires i < |nodes| && (nodes[i].kind == Hardlink ==> nodes[i].canonical < |nodes|)
  {
    var n := nodes[i];
    if n.kind == File && n.payload.None? then n.(payload := Some([]))
    else if n.kind == Hardlink then n.(attr := nodes[n.canonical].attr)
    else n
  }

  /** Missing contents become empty and hardlinks take their file's attributes. */
  method FinishAll(nodes: array<Node>) returns (ok: bool)
    requires Pointing(nodes[..])
    modifies nodes
    ensures ok <==> forall i: nat :: i < nodes.Length && old(nodes[i].kind) == Hardlink ==>
                      old(nodes[..])[old(nodes[..])[i].canonical].kind == File
    ensures ok ==> forall i: nat :: i < nodes.Length ==> nodes[i] == Finished(old(nodes[..]), i)
  {
    ghost var was := nodes[..];
    for i := 0 to nodes.Length
      invariant forall j: nat :: j < nodes.Length ==> nodes[j] == if j < i then Finished(was, j) else was[j]
      invariant forall j: nat :: j < i && was[j].kind == Hardlink ==> was[was[j].canonical].kind == File
    {
      assert nodes[i] == was[i];
      if nodes[i].kind == File && nodes[i].payload.None? {
        nodes[i] := nodes[i].(payload := Some([]));
      }
      if nodes[i].kind == Hardlink {
        var target := nodes[nodes[i].canonical];
        if target.kind != File || target.payload.None? {
          return false;
        }
        nodes[i] := nodes[i].(attr := target.attr);
      }
    }
    ok := true;
  }

  // ---------------------------------------------------------------- the whole pass

  /** No hardlink that names nothing. */
  ghost predicate NoOrphan(nodes: seq<Node>) {
    forall i: nat :: i < |nodes| && nodes[i].kind == Hardlink ==> IsMember(nodes[i])
  }

  lemma GroupedMembers(nodes: seq<Node>, root: seq<nat>, i: nat, j: nat)
    requires ClassesClosed(nodes, root) && i < |nodes| && IsMember(nodes[i])
    ensures Grouped(nodes, i, j) <==> j in MembersOf(nodes, root, root[i], |nodes|)
  {
    MembersIn(nodes, root, root[i], |nodes|, j);
    if j < |nodes| {
      assert root[i] == root[j] <==> Together(nodes, i, j);
    }
  }

  lemma GroupsConsistent(nodes: seq<Node>, root: seq<nat>)
    requires ClassesClosed(nodes, root) && (forall i: nat :: i < |nodes| ==> TargetOk(nodes, i) && IdentityOk(nodes, i))
    requires NoOrphan(nodes) && forall r: nat :: r < |root| ==> RootOk(nodes, root, r)
    ensures Consistent(nodes)
  {
    forall i: nat | i < |nodes|
      ensures nodes[i].kind != Hardlink && (nodes[i].link.Some? ==> nodes[i].kind == File)
    {
      if IsMember(nodes[i]) {
        assert RootOk(nodes, root, root[i]);
        MembersIn(nodes, root, root[i], |nodes|, i);
      }
    }
    forall i: nat, j: nat {:trigger Grouped(nodes, i, j)} | Grouped(nodes, i, j)
      ensures Compatible(nodes[i], nodes[j])
    {
      assert RootOk(nodes, root, root[i]);
      GroupedMembers(nodes, root, i, j);
      MembersIn(nodes, root, root[i], |nodes|, i);
    }
  }

  lemma ConsistentGroup(nodes: seq<Node>, root: seq<nat>, r: nat)
    requires ClassesClosed(nodes, root) && Consistent(nodes)
    ensures RootOk(nodes, root, r)
  {
    var g := MembersOf(nodes, root, r, |nodes|);
    forall x: nat | x < |g|
      ensures IsMember(nodes[g[x]]) && root[g[x]] == r && nodes[g[x]].kind == File
    {
      MembersIn(nodes, root, r, |nodes|, g[x]);
    }
    forall x: nat, y: nat | x < |g| && y < |g|
      ensures Compatible(nodes[g[x]], nodes[g[y]])
    {
      GroupedMembers(nodes, root, g[x], g[y]);
      assert Grouped(nodes, g[x], g[y]);
    }
  }

  /** What settling and finishing leave in each place is what was promised. */
  lemma OutcomeNormalized(nodes: seq<Node>, root: seq<nat>, settled: seq<Node>, out: seq<Node>)
    requires ClassesClosed(nodes, root) && Consistent(nodes) && Fresh(nodes)
    requires SettledBelow(nodes, root, settled, |nodes|) && Pointing(settled)
    requires |out| == |nodes| && forall i: nat :: i < |nodes| ==> out[i] == Finished(settled, i)
    ensures Normalized(nodes, out)
  {
    forall i: nat | i < |nodes| && IsMember(nodes[i])
      ensures MemberOutcome(nodes, out, i)
    {
      OneOutcome(nodes, root, settled, out, i);
    }
    forall i: nat | i < |nodes| && !IsMember(nodes[i])
      ensures out[i] == nodes[i]
    {
      assert settled[i] == nodes[i];
    }
  }

  lemma OneOutcome(nodes: seq<Node>, root: seq<nat>, settled: seq<Node>, out: seq<Node>, i: nat)
    requires ClassesClosed(nodes, root) && Consistent(nodes) && Fresh(nodes) && i < |nodes| && IsMember(nodes[i])
    requires SettledBelow(nodes, root, settled, |nodes|) && Pointing(settled)
    requires |out| == |nodes| && forall i: nat :: i < |nodes| ==> out[i] == Finished(settled, i)
    ensures MemberOutcome(nodes, out, i)
  {
    var g := MembersOf(nodes, root, root[i], |nodes|);
    forall j: nat
      ensures Grouped(nodes, i, j) <==> j in g
    {
      GroupedMembers(nodes, root, i, j);
    }
    FirstMember(nodes, root, i);
    PlaceOutcome(nodes, root, settled, i);
    PlaceOutcome(nodes, root, settled, g[0]);
    FinishOutcome(nodes, g, settled, out, i);
  }

  /** What the last pass makes of a settled member. */
  lemma FinishOutcome(nodes: seq<Node>, g: seq<nat>, settled: seq<Node>, out: seq<Node>, i: nat)
    requires Consistent(nodes) && Fresh(nodes) && Pointing(settled) && |settled| == |nodes| == |out| && i < |nodes|
    requires g != [] && IsFirst(nodes, i, g[0]) && (forall x: nat :: x < |g| ==> g[x] < |nodes|)
    requires forall j: nat :: Grouped(nodes, i, j) <==> j in g
    requires forall j: nat :: j == i || j == g[0] ==>
               out[j] == Finished(settled, j) && nodes[j].kind == File &&
               settled[j] == if Alone(nodes, g) then nodes[j] else Settled(nodes[j], j, g[0], FirstContent(nodes, g))
    requires Alone(nodes, g) ==> g == [i]
    ensures MemberOutcome(nodes, out, i)
  {
    var c := g[0];
    assert nodes[i].attr == nodes[c].attr by {
      assert Grouped(nodes, i, c);
      assert Compatible(nodes[i], nodes[c]);
    }
    assert out[c].kind == File && out[c].canonical == c;
    if i == c {
      ContentOutcome(nodes, g, i, out[i].payload.value);
    } else {
      assert out[i].kind == Hardlink && out[i].payload.None?;
    }
  }

  /** The first of a member's group. */
  lemma FirstMember(nodes: seq<Node>, root: seq<nat>, i: nat)
    requires ClassesClosed(nodes, root) && i < |nodes| && IsMember(nodes[i])
    ensures var g := MembersOf(nodes, root, root[i], |nodes|);
            g != [] && g[0] <= i && IsMember(nodes[g[0]]) && root[g[0]] == root[i] && IsFirst(nodes, i, g[0])
            && (|g| == 1 ==> g == [i])
  {
    var g := MembersOf(nodes, root, root[i], |nodes|);
    MembersIn(nodes, root, root[i], |nodes|, i);
    MembersAscend(nodes, root, root[i], |nodes|);
    MembersIn(nodes, root, root[i], |nodes|, g[0]);
    GroupedMembers(nodes, root, i, g[0]);
    forall j: nat {:trigger Grouped(nodes, i, j)} | Grouped(nodes, i, j)
      ensures g[0] <= j
    {
      GroupedMembers(nodes, root, i, j);
      var y: nat :| y < |g| && g[y] == j;
      assert y > 0 ==> g[0] < g[y];
    }
    assert Grouped(nodes, i, i);
  }

  /** What a member has become before the last pass. */
  lemma PlaceOutcome(nodes: seq<Node>, root: seq<nat>, settled: seq<Node>, i: nat)
    requires ClassesClosed(nodes, root) && Consistent(nodes) && Fresh(nodes) && i < |nodes| && IsMember(nodes[i])
    requires SettledBelow(nodes, root, settled, |nodes|)
    ensures var g := MembersOf(nodes, root, root[i], |nodes|);
            && g != [] && nodes[i].kind == File
            && settled[i] == (if Alone(nodes, g) then nodes[i] else Settled(nodes[i], i, g[0], FirstContent(nodes, g)))
            && (Alone(nodes, g) ==> g == [i] && nodes[i].link.None?)
  {
    FirstMember(nodes, root, i);
  }

  lemma ContentOutcome(nodes: seq<Node>, g: seq<nat>, i: nat, content: seq<byte>)
    requires Consistent(nodes) && i < |nodes| && IsMember(nodes[i]) && forall x: nat :: x < |g| ==> g[x] < |nodes|
    requires forall j: nat :: Grouped(nodes, i, j) <==> j in g
    requires || content == FirstContent(nodes, g)
             || (g == [i] && content == if nodes[i].payload.None? then [] else nodes[i].payload.value)
    ensures IsContent(nodes, i, content)
  {
    assert content == FirstContent(nodes, g) by {
      if g == [i] {
        assert FirstContent(nodes, [i]) == if nodes[i].payload.None? then [] else nodes[i].payload.value by {
          assert [i][..0] == [];
          assert FirstContent(nodes, []) == [];
        }
      }
    }
    FirstContentIs(nodes, g);
    if content != [] {
      var x: nat :| x < |g| && nodes[g[x]].payload == Some(content);
      assert nodes[g[x]].payload == Some(content);
      assert g[x] in g;
      assert Grouped(nodes, i, g[x]);
      forall j: nat {:trigger Grouped(nodes, i, j)} | Grouped(nodes, i, j) && NonEmpty(nodes[j])
        ensures nodes[j].payload.value == content
      {
        TogetherBoth(nodes, i, j, g[x]);
        assert Grouped(nodes, j, g[x]);
        assert Compatible(nodes[j], nodes[g[x]]);
      }
    } else {
      forall j: nat {:trigger Grouped(nodes, i, j)} | Grouped(nodes, i, j) && NonEmpty(nodes[j])
        ensures nodes[j].payload.value == content
      {
        assert j in g;
      }
    }
  }

  lemma TogetherBoth(nodes: seq<Node>, i: nat, j: nat, k: nat)
    requires i < |nodes| && j < |nodes| && k < |nodes| && Together(nodes, i, j) && Together(nodes, i, k)
    ensures Together(nodes, j, k)
  {
    forall tag: seq<nat> {:trigger Respects(nodes, tag)} | Respects(nodes, tag)
      ensures tag[j] == tag[k]
    {
    }
  }

  lemma SettledPoints(nodes: seq<Node>, root: seq<nat>, settled: seq<Node>)
    requires SettledBelow(nodes, root, settled, |nodes|) && Fresh(nodes)
    requires forall i: nat :: i < |root| ==> root[i] < |root|
    ensures Pointing(settled)
    ensures (forall i: nat :: i < |nodes| && settled[i].kind == Hardlink ==>
               settled[settled[i].canonical].kind == File) ==>
              NoOrphan(nodes)
    ensures NoOrphan(nodes) && (forall r: nat :: r < |root| ==> RootOk(nodes, root, r)) ==>
              forall i: nat :: i < |nodes| && settled[i].kind == Hardlink ==> settled[settled[i].canonical].kind == File
  {
    forall i: nat | i < |nodes|
      ensures settled[i].kind == Hardlink ==> settled[i].canonical <= i
      ensures settled[i].kind == Hardlink && !IsMember(nodes[i]) ==> settled[i].canonical == i
      ensures IsMember(nodes[i]) && RootOk(nodes, root, root[i]) && settled[i].kind == Hardlink ==>
                settled[settled[i].canonical].kind == File
    {
      assert settled[i] == if Rewritten(nodes, root, i) then After(nodes, root, i) else nodes[i];
      if IsMember(nodes[i]) {
        var g := MembersOf(nodes, root, root[i], |nodes|);
        MembersIn(nodes, root, root[i], |nodes|, i);
        MembersAscend(nodes, root, root[i], |nodes|);
        MembersIn(nodes, root, root[i], |nodes|, g[0]);
        assert settled[g[0]] == if Rewritten(nodes, root, g[0]) then After(nodes, root, g[0]) else nodes[g[0]];
        var y: nat :| y < |g| && g[y] == i;
        assert y > 0 ==> g[0] < g[y];
      }
    }
  }

  /** What normalization makes of two files of consistent input.  When links or identities lead from one to the
      other they had the same attributes, and no two contents unless one is empty; now both stand for one file, at a
      path before both, which has that content.  Otherwise they stand for different files. */
  lemma FilesShare(nodes: seq<Node>, out: seq<Node>, i: nat, j: nat)
    requires Consistent(nodes) && Normalized(nodes, out) && i < |nodes| && j < |nodes|
    requires nodes[i].kind == File && nodes[j].kind == File
    ensures |out| == |nodes| && out[i].canonical == out[j].canonical <==> Together(nodes, i, j)
    ensures Together(nodes, i, j) ==> nodes[i].attr == nodes[j].attr == out[i].attr && out[i].canonical <= j
    ensures Together(nodes, i, j) && nodes[i].payload.Some? && nodes[j].payload.Some? ==>
              nodes[i].payload.value == [] || nodes[j].payload.value == [] || nodes[i].payload == nodes[j].payload
    ensures Together(nodes, i, j) && nodes[j].payload.Some? && nodes[j].payload.value != [] ==>
              out[i].canonical < |out| && out[out[i].canonical].payload == nodes[j].payload
    ensures out[i].kind == if out[i].canonical == i then File else Hardlink
    ensures out[i].payload.Some? <==> out[i].canonical == i
  {
    assert MemberOutcome(nodes, out, i) && MemberOutcome(nodes, out, j);
    var c := out[i].canonical;
    assert Grouped(nodes, i, c) && Grouped(nodes, j, out[j].canonical);
    TogetherFlips(nodes, i, j);
    if Together(nodes, i, j) {
      assert Grouped(nodes, i, j) && Grouped(nodes, j, i);
      TogetherJoins(nodes, i, j, out[j].canonical);
      TogetherJoins(nodes, j, i, c);
      assert Grouped(nodes, i, out[j].canonical) && Grouped(nodes, j, c);
      assert MemberOutcome(nodes, out, c);
      TogetherFlips(nodes, i, c);
      TogetherJoins(nodes, c, i, j);
      assert Grouped(nodes, c, j);
    } else if c == out[j].canonical {
      TogetherFlips(nodes, j, c);
      TogetherJoins(nodes, i, c, j);
    }
  }

  lemma TogetherFlips(nodes: seq<Node>, i: nat, j: nat)
    requires i < |nodes| && j < |nodes|
    ensures Together(nodes, i, j) <==> Together(nodes, j, i)
  {
    assert Together(nodes, i, j) ==> forall tag: seq<nat> :: Respects(nodes, tag) ==> tag[i] == tag[j];
    assert Together(nodes, j, i) ==> forall tag: seq<nat> :: Respects(nodes, tag) ==> tag[j] == tag[i];
  }

  lemma TogetherJoins(nodes: seq<Node>, i: nat, j: nat, k: nat)
    requires i < |nodes| && j < |nodes| && k < |nodes| && Together(nodes, i, j) && Together(nodes, j, k)
    ensures Together(nodes, i, k)
  {
  }

  /** What is no file stays as it was. */
  lemma OthersStay(nodes: seq<Node>, out: seq<Node>, i: nat)
    requires Consistent(nodes) && Normalized(nodes, out) && i < |nodes| && nodes[i].kind != File
    ensures |out| == |nodes| && out[i] == nodes[i]
  {
  }

  /** Every node starts as its own canonical node. */
  predicate Fresh(nodes: seq<Node>) {
    forall i: nat :: i < |nodes| ==> nodes[i].canonical == i
  }

  /** The whole pass: it succeeds exactly on consistent input, and then each equivalence class of the
      links holds one file, at its first path, and hardlinks straight to it. */
  method NormalizeTree(nodes: array<Node>) returns (ok: bool)
    requires Ordered(nodes[..]) && Fresh(nodes[..])
    modifies nodes
    ensures ok <==> Consistent(old(nodes[..]))
    ensures ok ==> Normalized(old(nodes[..]), nodes[..])
  {
    ghost var input := nodes[..];
    var groups;
    ok, groups := GroupNodes(nodes[..]);
    if !ok {
      return;
    }
    ghost var root := groups.root;
    var members := CollectMembers(nodes[..], groups);
    forall r: nat | r < |root| && Consistent(input)
      ensures RootOk(input, root, r)
    {
      ConsistentGroup(input, root, r);
    }
    ok := SettleAll(nodes, members, input, root);
    if !ok {
      return;
    }
    ghost var settled := nodes[..];
    SettledPoints(input, root, settled);
    ok := FinishAll(nodes);
    if ok {
      GroupsConsistent(input, root);
      OutcomeNormalized(input, root, settled, nodes[..]);
    }
  }
}
