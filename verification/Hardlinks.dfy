/** Grouping hardlinks (programs/makefemtofs.cpp:976-1101): explicit links and shared source identities
    join nodes into groups, and each group becomes one file, at its first path, with hardlinks to it. */
module Hardlinks {
  import opened Format
  import opened Paths
  import opened Sorting
  import opened Counting
  import opened DisjointSets

  datatype Node = Node(path: seq<byte>, kind: Kind, link: Option<seq<byte>>, identity: Option<(int, int)>,
                       attr: nat, payload: Option<seq<byte>>, canonical: nat)

  /** Nodes come sorted by path, without duplicates, and fewer than 2^15. */
  ghost predicate Ordered(nodes: seq<Node>) {
    |nodes| < MAX_ENTRIES && forall i: nat, j: nat :: i < j < |nodes| ==> BytesLess(nodes[i].path, nodes[j].path)
  }

  // ---------------------------------------------------------------- what belongs together

  /** An explicit link names the other node's path, or both have the same source identity. */
  ghost predicate Linked(nodes: seq<Node>, i: nat, j: nat)
    requires i < |nodes| && j < |nodes|
  {
    nodes[i].link == Some(nodes[j].path) || (nodes[i].identity.Some? && nodes[i].identity == nodes[j].identity)
  }

  /** A labelling that no link crosses. */
  ghost predicate Respects(nodes: seq<Node>, tag: seq<nat>) {
    |tag| == |nodes| &&
    forall i: nat, j: nat {:trigger Linked(nodes, i, j)} :: i < |nodes| && j < |nodes| && Linked(nodes, i, j) ==>
      tag[i] == tag[j]
  }

  /** In the equivalence closure of the links: no labelling that respects them tells the two apart. */
  ghost predicate Together(nodes: seq<Node>, i: nat, j: nat)
    requires i < |nodes| && j < |nodes|
  {
    forall tag: seq<nat> {:trigger Respects(nodes, tag)} :: Respects(nodes, tag) ==> tag[i] == tag[j]
  }

  /** The explicit target exists and is a regular file. */
  ghost predicate TargetOk(nodes: seq<Node>, i: nat)
    requires i < |nodes|
  {
    nodes[i].link.None? || exists t: nat :: t < |nodes| && nodes[t].path == nodes[i].link.value && nodes[t].kind == File
  }

  /** Only regular files share an identity. */
  ghost predicate IdentityOk(nodes: seq<Node>, i: nat)
    requires i < |nodes|
  {
    forall j: nat :: j < |nodes| && j != i && nodes[i].identity.Some? && nodes[i].identity == nodes[j].identity ==>
      nodes[i].kind == File && nodes[j].kind == File
  }

  // ---------------------------------------------------------------- lookup by path and identity

  function PathOf(): Node -> seq<byte> {
    (n: Node) => n.path
  }

  lemma PathsDiffer(nodes: seq<Node>)
    requires Ordered(nodes)
    ensures forall i: nat, j: nat :: i < j < |nodes| ==> PathOf()(nodes[i]) != PathOf()(nodes[j])
  {
    forall i: nat, j: nat | i < j < |nodes|
      ensures nodes[i].path != nodes[j].path
    {
      BytesTotal(nodes[i].path, nodes[j].path);
    }
  }

  // ---------------------------------------------------------------- grouping

  /** The links looked at before node k, with identities joined to their first holder. */
  ghost predicate Step(nodes: seq<Node>, i: nat, j: nat)
    requires i < |nodes| && j < |nodes|
  {
    nodes[i].link == Some(nodes[j].path) || (nodes[i].identity.Some? && j < i && nodes[i].identity == nodes[j].identity)
  }

  /** Everything in one class of root is in one class of root'. */
  ghost predicate Coarser(root: seq<nat>, root': seq<nat>) {
    |root| == |root'| &&
    forall i: nat, j: nat {:trigger root'[i], root'[j]} :: i < |root| && j < |root| && root[i] == root[j] ==>
      root'[i] == root'[j]
  }

  /** No class is wider than the links force. */
  ghost predicate Forced(nodes: seq<Node>, root: seq<nat>) {
    |root| == |nodes| &&
    forall tag: seq<nat>, i: nat, j: nat {:trigger Respects(nodes, tag), root[i], root[j]} ::
      Respects(nodes, tag) && i < |nodes| && j < |nodes| && root[i] == root[j] ==> tag[i] == tag[j]
  }

  /** The links of the first k nodes are inside classes. */
  ghost predicate Covered(nodes: seq<Node>, root: seq<nat>, k: nat) {
    |root| == |nodes| && k <= |nodes| &&
    forall i: nat, j: nat {:trigger Step(nodes, i, j)} :: i < k && j < |nodes| && Step(nodes, i, j) ==>
      root[i] == root[j]
  }

  lemma CoarserCovers(nodes: seq<Node>, root: seq<nat>, root': seq<nat>, k: nat)
    requires Covered(nodes, root, k) && Coarser(root, root')
    ensures Covered(nodes, root', k)
  {
    forall i: nat, j: nat | i < k && j < |nodes| && Step(nodes, i, j)
      ensures root'[i] == root'[j]
    {
      assert root[i] == root[j];
    }
  }

  /** Joining two linked nodes widens no class beyond what the links force. */
  lemma JoinKeeps(nodes: seq<Node>, root: seq<nat>, root': seq<nat>, a: nat, b: nat)
    requires |root| == |root'| == |nodes| && a < |nodes| && b < |nodes| && Linked(nodes, a, b) && Forced(nodes, root)
    requires forall i: nat, j: nat :: i < |root| && j < |root| ==>
               (root'[i] == root'[j] <==>
                root[i] == root[j] ||
                ((root[i] == root[a] || root[i] == root[b]) && (root[j] == root[a] || root[j] == root[b])))
    ensures Forced(nodes, root') && Coarser(root, root') && root'[a] == root'[b]
  {
    forall tag: seq<nat>, i: nat, j: nat | Respects(nodes, tag) && i < |nodes| && j < |nodes| && root'[i] == root'[j]
      ensures tag[i] == tag[j]
    {
      assert tag[a] == tag[b];
      assert root[i] == root[a] ==> tag[i] == tag[a];
      assert root[i] == root[b] ==> tag[i] == tag[b];
      assert root[j] == root[a] ==> tag[j] == tag[a];
      assert root[j] == root[b] ==> tag[j] == tag[b];
    }
  }

  /** Each identity's first holder so far. */
  ghost predicate Firsts(nodes: seq<Node>, first: map<(int, int), nat>, k: nat) {
    && k <= |nodes|
    && (forall i: nat :: i < k && nodes[i].identity.Some? ==>
          nodes[i].identity.value in first && first[nodes[i].identity.value] <= i)
    && (forall d: (int, int) :: d in first ==> first[d] < k && nodes[first[d]].identity == Some(d))
  }

  /** No node so far clashes with the first holder of its identity. */
  ghost predicate Clean(nodes: seq<Node>, first: map<(int, int), nat>, k: nat)
    requires Firsts(nodes, first, k)
  {
    forall i: nat :: i < k && nodes[i].identity.Some? ==> !IdentityClash(nodes, i, first[nodes[i].identity.value])
  }

  /** Join two linked nodes. */
  method JoinLinked(nodes: seq<Node>, groups: DisjointSet, a: nat, b: nat)
    requires groups.Valid() && a < |nodes| && b < |nodes| && Linked(nodes, a, b) && Forced(nodes, groups.root)
    modifies groups, groups.parent, groups.rank
    ensures groups.Valid() && Forced(nodes, groups.root) && Coarser(old(groups.root), groups.root)
    ensures groups.root[a] == groups.root[b]
  {
    ghost var root := groups.root;
    groups.Unite(a, b);
    JoinKeeps(nodes, root, groups.root, a, b);
  }

  /** Join the node to the target of its explicit link. */
  method JoinLink(nodes: seq<Node>, byPath: map<seq<byte>, nat>, groups: DisjointSet, k: nat) returns (ok: bool)
    requires groups.Valid() && k < |nodes| && IndexOf(nodes, PathOf(), byPath) && Forced(nodes, groups.root)
    modifies groups, groups.parent, groups.rank
    ensures groups.Valid() && Forced(nodes, groups.root) && Coarser(old(groups.root), groups.root)
    ensures ok <==> TargetOk(nodes, k)
    ensures ok && nodes[k].link.Some? ==>
              nodes[k].link.value in byPath && groups.root[k] == groups.root[byPath[nodes[k].link.value]]
  {
    if nodes[k].link.None? {
      return true;
    }
    var target := nodes[k].link.value;
    if target !in byPath {
      return false;
    }
    if nodes[byPath[target]].kind != File {
      return false;
    }
    JoinLinked(nodes, groups, k, byPath[target]);
    ok := true;
  }

  /** Another node holds the same identity and one of the two is no regular file. */
  ghost predicate IdentityClash(nodes: seq<Node>, k: nat, j: nat)
    requires k < |nodes| && j < |nodes|
  {
    && k != j && nodes[k].identity.Some? && nodes[j].identity == nodes[k].identity
    && !(nodes[k].kind == File && nodes[j].kind == File)
  }

  /** The first holders with node k taken into account. */
  function FirstsWith(nodes: seq<Node>, first: map<(int, int), nat>, k: nat): map<(int, int), nat>
    requires k < |nodes|
  {
    if nodes[k].identity.Some? && nodes[k].identity.value !in first then first[nodes[k].identity.value := k] else first
  }

  lemma FirstsNext(nodes: seq<Node>, first: map<(int, int), nat>, k: nat)
    requires k < |nodes| && Firsts(nodes, first, k) && Clean(nodes, first, k)
    requires nodes[k].identity.Some? && nodes[k].identity.value in first ==>
               !IdentityClash(nodes, k, first[nodes[k].identity.value])
    ensures Firsts(nodes, FirstsWith(nodes, first, k), k + 1) && Clean(nodes, FirstsWith(nodes, first, k), k + 1)
  {
  }

  /** Join the node to the first holder of its identity. */
  method JoinIdentity(nodes: seq<Node>, firstIn: map<(int, int), nat>, groups: DisjointSet, k: nat)
    returns (ok: bool, first: map<(int, int), nat>)
    requires groups.Valid() && k < |nodes| && Firsts(nodes, firstIn, k) && Clean(nodes, firstIn, k)
    requires Forced(nodes, groups.root)
    modifies groups, groups.parent, groups.rank
    ensures groups.Valid() && Forced(nodes, groups.root) && Coarser(old(groups.root), groups.root)
    ensures ok ==> Firsts(nodes, first, k + 1) && Clean(nodes, first, k + 1)
    ensures ok && nodes[k].identity.Some? ==> groups.root[k] == groups.root[first[nodes[k].identity.value]]
    ensures !ok ==> exists j: nat :: j < |nodes| && IdentityClash(nodes, k, j)
  {
    ok, first := true, firstIn;
    if nodes[k].identity.Some? {
      var d := nodes[k].identity.value;
      if d in first {
        var it := first[d];
        if nodes[k].kind != File || nodes[it].kind != File {
          assert IdentityClash(nodes, k, it);
          return false, first;
        }
        JoinLinked(nodes, groups, k, it);
      } else {
        first := first[d := k];
      }
    }
    FirstsNext(nodes, firstIn, k);
  }

  /** Node k's own links are now inside classes. */
  lemma CoveredNext(nodes: seq<Node>, byPath: map<seq<byte>, nat>, root: seq<nat>, first: map<(int, int), nat>, k: nat)
    requires Covered(nodes, root, k) && k < |nodes| && IndexOf(nodes, PathOf(), byPath) && Firsts(nodes, first, k + 1)
    requires nodes[k].link.Some? ==> nodes[k].link.value in byPath && root[k] == root[byPath[nodes[k].link.value]]
    requires nodes[k].identity.Some? ==> root[k] == root[first[nodes[k].identity.value]]
    ensures Covered(nodes, root, k + 1)
  {
    forall i: nat, j: nat | i < k + 1 && j < |nodes| && Step(nodes, i, j)
      ensures root[i] == root[j]
    {
      if i == k && nodes[k].link != Some(nodes[j].path) {
        var f := first[nodes[k].identity.value];
        if f < j {
          assert Step(nodes, j, f);
        }
      }
    }
  }

  /** With every link inside a class and no class wider than forced, classes are the closure of the links. */
  lemma ClassesAreClosure(nodes: seq<Node>, root: seq<nat>, i: nat, j: nat)
    requires Covered(nodes, root, |nodes|) && Forced(nodes, root) && i < |nodes| && j < |nodes|
    ensures root[i] == root[j] <==> Together(nodes, i, j)
  {
    forall a: nat, b: nat {:trigger Linked(nodes, a, b)} | a < |nodes| && b < |nodes| && Linked(nodes, a, b)
      ensures root[a] == root[b]
    {
      if nodes[a].link == Some(nodes[b].path) || b < a {
        assert Step(nodes, a, b);
      } else if a < b {
        assert Step(nodes, b, a);
      }
    }
    assert Respects(nodes, root);
  }

  /** Regular files only, among the holders of one identity: no holder clashes with the first. */
  lemma NoClash(nodes: seq<Node>, first: map<(int, int), nat>)
    requires Firsts(nodes, first, |nodes|) && Clean(nodes, first, |nodes|)
    ensures forall i: nat :: i < |nodes| ==> IdentityOk(nodes, i)
  {
    forall i: nat, j: nat | && i < |nodes| && j < |nodes| && j != i
                            && nodes[i].identity.Some? && nodes[i].identity == nodes[j].identity
      ensures nodes[i].kind == File && nodes[j].kind == File
    {
      var f := first[nodes[i].identity.value];
      assert !IdentityClash(nodes, i, f) && !IdentityClash(nodes, j, f);
    }
  }

  /** The first k nodes are done, with no fault among them; closed (see `Key`). */
  ghost predicate Grouping(nodes: seq<Node>, root: seq<nat>, first: map<(int, int), nat>, k: nat) {
    |root| == |nodes| && forall key: nat {:trigger Key(key)} :: Key(key) ==>
      && Forced(nodes, root) && Covered(nodes, root, k) && Firsts(nodes, first, k) && Clean(nodes, first, k)
      && forall i: nat :: i < k ==> TargetOk(nodes, i)
  }

  lemma GroupingStart(nodes: seq<Node>, root: seq<nat>)
    requires |root| == |nodes| && forall i: nat :: i < |root| ==> root[i] == i
    ensures Grouping(nodes, root, map[], 0)
  {
  }

  lemma GroupingDone(nodes: seq<Node>, root: seq<nat>, first: map<(int, int), nat>)
    requires Grouping(nodes, root, first, |nodes|) && forall i: nat :: i < |root| ==> root[i] < |root|
    ensures ClassesClosed(nodes, root) && forall i: nat :: i < |nodes| ==> TargetOk(nodes, i) && IdentityOk(nodes, i)
  {
    assert Key(0);
    NoClash(nodes, first);
    AllClosed(nodes, root);
  }

  /** One node's links. */
  method GroupOne(nodes: seq<Node>, byPath: map<seq<byte>, nat>, firstIn: map<(int, int), nat>, groups: DisjointSet,
                  k: nat)
    returns (ok: bool, first: map<(int, int), nat>)
    requires groups.Valid() && k < |nodes| && IndexOf(nodes, PathOf(), byPath)
    requires Grouping(nodes, groups.root, firstIn, k)
    modifies groups, groups.parent, groups.rank
    ensures groups.Valid()
    ensures ok ==> Grouping(nodes, groups.root, first, k + 1)
    ensures !ok ==> !TargetOk(nodes, k) || !IdentityOk(nodes, k)
  {
    ghost var root0 := groups.root;
    assert Key(0);
    first := firstIn;
    ok := JoinLink(nodes, byPath, groups, k);
    if !ok {
      return;
    }
    CoarserCovers(nodes, root0, groups.root, k);
    ghost var root1 := groups.root;
    ok, first := JoinIdentity(nodes, first, groups, k);
    if !ok {
      ClashSpoils(nodes, k);
      return;
    }
    CoarserCovers(nodes, root1, groups.root, k);
    CoveredNext(nodes, byPath, groups.root, first, k);
  }

  lemma ClashSpoils(nodes: seq<Node>, k: nat)
    requires k < |nodes| && exists j: nat :: j < |nodes| && IdentityClash(nodes, k, j)
    ensures !IdentityOk(nodes, k)
  {
    var j: nat :| j < |nodes| && IdentityClash(nodes, k, j);
    assert IdentityClash(nodes, k, j);
  }

  /** The grouping pass.  It fails exactly when a link dangles, names no regular file, or an identity is
      shared with something that is no regular file; otherwise the classes are the closure of the links. */
  method GroupNodes(nodes: seq<Node>) returns (ok: bool, groups: DisjointSet)
    requires Ordered(nodes)
    ensures fresh(groups) && fresh(groups.parent) && fresh(groups.rank)
    ensures ok <==> forall i: nat :: i < |nodes| ==> TargetOk(nodes, i) && IdentityOk(nodes, i)
    ensures ok ==> groups.Valid() && |groups.root| == |nodes| && ClassesClosed(nodes, groups.root)
  {
    PathsDiffer(nodes);
    var byPath := IndexPaths(nodes, PathOf());
    groups := new DisjointSet(|nodes|);
    var first: map<(int, int), nat> := map[];
    GroupingStart(nodes, groups.root);
    for k := 0 to |nodes|
      invariant fresh(groups) && fresh(groups.parent) && fresh(groups.rank) && groups.Valid()
      invariant Grouping(nodes, groups.root, first, k)
    {
      ok, first := GroupOne(nodes, byPath, first, groups, k);
      if !ok {
        return;
      }
    }
    groups.RootsBelow();
    GroupingDone(nodes, groups.root, first);
    ok := true;
  }

  /** Two nodes are in one class exactly when they belong together. */
  ghost predicate ClassesClosed(nodes: seq<Node>, root: seq<nat>)
  {
    |root| == |nodes| && (forall i: nat :: i < |root| ==> root[i] < |root|) &&
    forall i: nat, j: nat {:trigger root[i], root[j]} :: i < |nodes| && j < |nodes| ==>
      (root[i] == root[j] <==> Together(nodes, i, j))
  }

  lemma AllClosed(nodes: seq<Node>, root: seq<nat>)
    requires Covered(nodes, root, |nodes|) && Forced(nodes, root) && forall i: nat :: i < |root| ==> root[i] < |root|
    ensures ClassesClosed(nodes, root)
  {
    forall i: nat, j: nat | i < |nodes| && j < |nodes|
      ensures root[i] == root[j] <==> Together(nodes, i, j)
    {
      ClassesAreClosure(nodes, root, i, j);
    }
  }
}
