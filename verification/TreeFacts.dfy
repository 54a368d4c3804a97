/** What acceptance means for the decoded objects (ko/image.c:171-187, 204-234, 259-272): they form a tree
    under the root, visibility is that of the whole path, and link counts are right. */
module TreeFacts {
  import opened Format
  import opened Counting
  import opened ImageTree
  import opened TreeMarks
  import opened TreeNodes
  import opened TreeWalk
  import opened Validate
  import Interning

  /** k steps towards the root. */
  ghost function Up(nodes: seq<Node>, t: nat, k: nat): nat
    decreases k
  {
    if k == 0 || t >= |nodes| then t else Up(nodes, nodes[t].parent, k - 1)
  }

  /** An object's parent is the directory whose slice holds its bucket, and that comes earlier in the queue. */
  lemma ParentEarlier(im: Image, w: Work, p: nat) returns (j: nat)
    requires Complete(im, w) && 0 < p < |w.m.queue|
    ensures j < p && w.m.queue[p] < |w.nodes| && w.nodes[w.m.queue[p]].parent == w.m.queue[j]
  {
    OpenAll(im, w);
    var m, q := w.m, w.m.queue;
    assert EnteredAt(im, q, p);
    var c: nat;
    j, c :| j < p && IsChild(im, q[j], c, q[p]) && im.cells[c].kind == DIR;
    assert In(im, q[j], c);
    assert Done(m, NOBODY, 0, c);
    assert NodeFits(im, m, w.nodes, q[p]);
  }

  lemma ObjectParent(im: Image, w: Work, t: nat) returns (j: nat)
    requires Complete(im, w) && t < |im.cells| && IsFrom(w.m, t)
    ensures j < |w.m.queue| && t < |w.nodes| && w.nodes[t].parent == w.m.queue[j]
  {
    OpenAll(im, w);
    assert NodeFits(im, w.m, w.nodes, t);
    assert Done(w.m, NOBODY, 0, w.m.from[t]);
    j := OwnerIndex(im, w.m, |w.m.queue|, w.m.from[t]);
  }

  lemma QueueStart(im: Image, w: Work)
    requires Complete(im, w)
    ensures w.m.queue != [] && w.m.queue[0] == |im.cells| && |w.nodes| == |im.cells| + 1
  {
    OpenAll(im, w);
  }

  /** From the p-th directory of the queue the root is at most p steps up. */
  lemma {:induction false} DirectoryUp(im: Image, w: Work, p: nat) returns (k: nat)
    requires Complete(im, w) && p < |w.m.queue|
    ensures k <= p && Up(w.nodes, w.m.queue[p], k) == |im.cells|
    decreases p
  {
    QueueStart(im, w);
    if p == 0 {
      k := 0;
    } else {
      var j := ParentEarlier(im, w, p);
      k := DirectoryUp(im, w, j);
      k := k + 1;
    }
  }

  /** Every object of an accepted image is below the root. */
  lemma ReachesRoot(im: Image, w: Work, t: nat) returns (k: nat)
    requires Complete(im, w) && t < |im.cells| && IsFrom(w.m, t)
    ensures k <= |w.m.queue| && Up(w.nodes, t, k) == |im.cells|
  {
    var j := ObjectParent(im, w, t);
    k := DirectoryUp(im, w, j);
    k := k + 1;
  }

  /** Others may search every directory from t up to the root, k steps away, and t itself. */
  ghost predicate SearchableUp(nodes: seq<Node>, t: nat, k: nat)
    decreases k
  {
    t < |nodes| && OthersSearch(nodes[t].mode) && (k == 0 || SearchableUp(nodes, nodes[t].parent, k - 1))
  }

  /** Others may also list them. */
  ghost predicate ListableUp(nodes: seq<Node>, t: nat, k: nat)
    decreases k
  {
    t < |nodes| && OthersList(nodes[t].mode) && (k == 0 || ListableUp(nodes, nodes[t].parent, k - 1))
  }

  /** The first k + 1 directories from t up all pass. */
  ghost predicate AllUp(nodes: seq<Node>, t: nat, k: nat, ok: nat -> bool) {
    forall j: nat {:trigger Up(nodes, t, j)} :: j <= k ==> Up(nodes, t, j) < |nodes| && ok(nodes[Up(nodes, t, j)].mode)
  }

  lemma AllUpNext(nodes: seq<Node>, t: nat, k: nat, ok: nat -> bool)
    requires t < |nodes| && k > 0
    ensures AllUp(nodes, t, k, ok) <==> ok(nodes[t].mode) && AllUp(nodes, nodes[t].parent, k - 1, ok)
  {
    var p := nodes[t].parent;
    assert Up(nodes, t, 0) == t;
    if AllUp(nodes, t, k, ok) {
      forall j: nat | j <= k - 1
        ensures Up(nodes, p, j) < |nodes| && ok(nodes[Up(nodes, p, j)].mode)
      {
        assert Up(nodes, t, j + 1) == Up(nodes, p, j);
      }
    }
    if ok(nodes[t].mode) && AllUp(nodes, p, k - 1, ok) {
      forall j: nat | j <= k
        ensures Up(nodes, t, j) < |nodes| && ok(nodes[Up(nodes, t, j)].mode)
      {
        assert j > 0 ==> Up(nodes, t, j) == Up(nodes, p, j - 1);
      }
    }
  }

  /** Searching takes the lowest bit all the way up, listing also the third. */
  lemma {:induction false} UpMeans(nodes: seq<Node>, t: nat, k: nat)
    ensures SearchableUp(nodes, t, k) <==> AllUp(nodes, t, k, (mode: nat) => mode % 2 == 1)
    ensures ListableUp(nodes, t, k) <==> AllUp(nodes, t, k, (mode: nat) => mode % 2 == 1 && mode / 4 % 2 == 1)
    decreases k
  {
    assert Up(nodes, t, 0) == t;
    if k > 0 && t < |nodes| {
      UpMeans(nodes, nodes[t].parent, k - 1);
      AllUpNext(nodes, t, k, (mode: nat) => mode % 2 == 1);
      AllUpNext(nodes, t, k, (mode: nat) => mode % 2 == 1 && mode / 4 % 2 == 1);
    }
  }

  lemma RootFlags(im: Image, w: Work)
    requires Complete(im, w)
    ensures |w.nodes| == |im.cells| + 1
    ensures var r := w.nodes[|im.cells|];
            r.search == OthersSearch(r.mode) && r.names == OthersList(r.mode) && r.parent == |im.cells|
  {
    OpenAll(im, w);
  }

  lemma ObjectFlags(im: Image, w: Work, t: nat)
    requires Complete(im, w) && t < |im.cells| && IsFrom(w.m, t)
    ensures |w.nodes| == |im.cells| + 1 && w.nodes[t].parent < |w.nodes|
    ensures var n, d := w.nodes[t], w.nodes[w.nodes[t].parent];
            n.search == (d.search && OthersSearch(n.mode)) && n.names == (d.names && OthersList(n.mode))
  {
    OpenAll(im, w);
    assert NodeFits(im, w.m, w.nodes, t);
  }

  lemma ParentIsObject(im: Image, w: Work, t: nat)
    requires Complete(im, w) && t < |im.cells| && IsFrom(w.m, t)
    ensures |w.nodes| == |im.cells| + 1
    ensures (w.nodes[t].parent == |im.cells| || (w.nodes[t].parent < |im.cells| && IsFrom(w.m, w.nodes[t].parent)))
  {
    var j := ObjectParent(im, w, t);
    OpenAll(im, w);
    assert IsQueued(im, w.m, w.m.queue[j]);
  }

  /** The inherited flags say what the whole path says. */
  lemma {:induction false} FlagsOfPath(im: Image, w: Work, t: nat, k: nat)
    requires Complete(im, w) && (t == |im.cells| || (t < |im.cells| && IsFrom(w.m, t)))
    requires Up(w.nodes, t, k) == |im.cells|
    ensures |w.nodes| == |im.cells| + 1
    ensures w.nodes[t].search <==> SearchableUp(w.nodes, t, k)
    ensures w.nodes[t].names <==> ListableUp(w.nodes, t, k)
    decreases k
  {
    RootFlags(im, w);
    if t < |im.cells| {
      ObjectFlags(im, w, t);
      ParentIsObject(im, w, t);
      FlagsOfPath(im, w, w.nodes[t].parent, k - 1);
    } else if k > 0 {
      FlagsOfPath(im, w, t, k - 1);
    }
  }

  /** A file has a link for itself and one for each hardlink to it; a directory two and one for each
      directory in it; a file is public when others may read it and reach it or one of its hardlinks. */
  lemma LinkCounts(im: Image, w: Work, t: nat)
    requires Complete(im, w) && t < |im.cells| && IsFrom(w.m, t) && LinksBelow(w.nodes, |im.cells|, |im.cells|)
    ensures |w.nodes| == |im.cells| + 1
    ensures var n := Resolved(w.nodes, t, |im.cells|);
            && (n.kind == FILE ==> n.links == 1 + |LinksTo(w.nodes, t, |im.cells|)|)
            && (n.kind == DIR ==> n.links == 2 + |SubDirs(im, w.m, t)|)
            && (n.kind == LINK ==>
                  n.canonical == n.off && n.canonical < |im.cells| && w.nodes[n.canonical].kind == FILE)
            && (n.publicFile <==> OthersRead(n.mode) && Reached(w.nodes, t, |im.cells|))
  {
    OpenAll(im, w);
    assert NodeFits(im, w.m, w.nodes, t);
    if w.nodes[t].kind == DIR {
      forall i: nat
        ensures i !in LinksTo(w.nodes, t, |im.cells|)
      {
        if i < |im.cells| && w.nodes[i].kind == LINK {
          assert w.nodes[w.nodes[i].off].kind == FILE;
        }
      }
      assert LinksTo(w.nodes, t, |im.cells|) == {};
    }
  }

  /** What the flag of a decoded file says: others have its read bit, and the search bit of every directory from
      one of its names up to the root. */
  lemma PublicFileMeans(im: Image, w: Work, t: nat)
    requires Complete(im, w) && t < |im.cells| && IsFrom(w.m, t)
    ensures |w.nodes| == |im.cells| + 1
    ensures FinalNodes(im, w)[t].publicFile <==>
            && w.nodes[t].mode / 4 % 2 == 1
            && exists i: nat, k: nat {:trigger Up(w.nodes, w.nodes[i].parent, k)} :: i < |im.cells|
                 && ((w.nodes[i].kind == 1 && i == t) || (w.nodes[i].kind == 4 && w.nodes[i].off == t))
                 && Up(w.nodes, w.nodes[i].parent, k) == |im.cells|
                 && AllUp(w.nodes, w.nodes[i].parent, k, (mode: nat) => mode % 2 == 1)
  {
    OpenAll(im, w);
    assert NodeFits(im, w.m, w.nodes, t);
    if Reached(w.nodes, t, |im.cells|) {
      var i: nat :| i < |im.cells| && Occurs(w.nodes, i, t) && w.nodes[i].parent < |w.nodes|
                    && w.nodes[w.nodes[i].parent].search;
      var k := OccurrenceUp(im, w, i);
      ParentSearch(im, w, i, k);
      assert Up(w.nodes, w.nodes[i].parent, k) == |im.cells|;
    }
    if i: nat, k: nat :|
         && i < |im.cells|
         && ((w.nodes[i].kind == 1 && i == t) || (w.nodes[i].kind == 4 && w.nodes[i].off == t))
         && Up(w.nodes, w.nodes[i].parent, k) == |im.cells|
         && AllUp(w.nodes, w.nodes[i].parent, k, (mode: nat) => mode % 2 == 1)
    {
      ParentSearch(im, w, i, k);
      assert Occurs(w.nodes, i, t);
    }
  }

  lemma OccurrenceUp(im: Image, w: Work, i: nat) returns (k: nat)
    requires Complete(im, w) && i < |im.cells| && i < |w.nodes| && (w.nodes[i].kind == FILE || w.nodes[i].kind == LINK)
    ensures Up(w.nodes, w.nodes[i].parent, k) == |im.cells|
  {
    if !IsFrom(w.m, i) {
      OpenAll(im, w);
      assert false;
    }
    var j := ObjectParent(im, w, i);
    k := DirectoryUp(im, w, j);
  }

  /** The inherited flag of an occurrence's directory. */
  lemma ParentSearch(im: Image, w: Work, i: nat, k: nat)
    requires Complete(im, w) && i < |im.cells| && i < |w.nodes| && (w.nodes[i].kind == FILE || w.nodes[i].kind == LINK)
    requires Up(w.nodes, w.nodes[i].parent, k) == |im.cells|
    ensures w.nodes[i].parent < |w.nodes|
    ensures w.nodes[w.nodes[i].parent].search <==> AllUp(w.nodes, w.nodes[i].parent, k, (mode: nat) => mode % 2 == 1)
  {
    if !IsFrom(w.m, i) {
      OpenAll(im, w);
      assert false;
    }
    ParentIsObject(im, w, i);
    FlagsOfPath(im, w, w.nodes[i].parent, k);
    UpMeans(w.nodes, w.nodes[i].parent, k);
  }

  /** And what it says of a name: every directory from there up has both bits. */
  lemma PublicNameMeans(im: Image, w: Work, r: nat, k: nat)
    requires Complete(im, w) && r < |w.refs| && r < |w.names| && Up(w.nodes, w.names[r].dir, k) == |im.cells|
    ensures w.refs[r].publicRef <==>
            AllUp(w.nodes, w.names[r].dir, k, (mode: nat) => mode % 2 == 1 && mode / 4 % 2 == 1)
  {
    NameOwner(im, w, r);
    NameDirectory(im, w, r);
    FlagsOfPath(im, w, w.names[r].dir, k);
    UpMeans(w.nodes, w.names[r].dir, k);
  }

  lemma NameDirectory(im: Image, w: Work, r: nat)
    requires Complete(im, w) && r < |w.refs| && r < |w.names| && w.names[r].dir in w.m.queue
    ensures w.names[r].dir < |w.nodes| && (w.refs[r].publicRef <==> w.nodes[w.names[r].dir].names)
    ensures w.names[r].dir == |im.cells| || (w.names[r].dir < |im.cells| && IsFrom(w.m, w.names[r].dir))
  {
    OpenAll(im, w);
    assert w.refs[r] == w.refs[r];
    assert IsQueued(im, w.m, w.names[r].dir);
  }

  // ---------------------------------------------------------------- builder and reader

  lemma {:induction false} GrantedIsSearchable(nodes: seq<Node>, root: nat, t: nat, k: nat)
    requires root < |nodes| && nodes[root].parent == root && Up(nodes, t, k) == root
    ensures Interning.GrantedUp(nodes, root, t, k, Interning.Search) <==> SearchableUp(nodes, t, k)
    ensures Interning.GrantedUp(nodes, root, t, k, Interning.List) <==> ListableUp(nodes, t, k)
    decreases k
  {
    if k > 0 && t < |nodes| {
      GrantedIsSearchable(nodes, root, nodes[t].parent, k - 1);
    }
  }

  lemma {:induction false} FurtherUp(nodes: seq<Node>, root: nat, t: nat, k: nat, l: nat, right: Interning.Right)
    requires Up(nodes, t, k) == root && k <= l
    ensures Interning.GrantedUp(nodes, root, t, k, right) <==> Interning.GrantedUp(nodes, root, t, l, right)
    decreases k
  {
    if t != root && t < |nodes| {
      FurtherUp(nodes, root, nodes[t].parent, k - 1, l - 1, right);
    }
  }

  /** For a directory at a path, the flag the reader inherits parent by parent is the answer the builder
      computes component by component. */
  lemma VisibilityAgrees(im: Image, w: Work, items: seq<Interning.Item>, rootMode: nat, at: nat -> seq<byte>, t: nat,
                         k: nat)
    requires Complete(im, w) && (t == |im.cells| || (t < |im.cells| && IsFrom(w.m, t) && Interning.IsDir(w.nodes, t)))
    requires Up(w.nodes, t, k) == |im.cells| && Interning.Mirrors(w.nodes, items, rootMode, |im.cells|, at)
    ensures |w.nodes| == |im.cells| + 1
    ensures w.nodes[t].search <==> Interning.Allows(items, rootMode, at(t), Interning.Search)
    ensures w.nodes[t].names <==> Interning.Allows(items, rootMode, at(t), Interning.List)
  {
    var root, n := |im.cells|, w.nodes;
    RootFlags(im, w);
    FlagsOfPath(im, w, t, k);
    GrantedIsSearchable(n, root, t, k);
    var l := if k < |at(t)| then |at(t)| else k;
    FurtherUp(n, root, t, k, l, Interning.Search);
    FurtherUp(n, root, t, k, l, Interning.List);
    Interning.Enough(n, items, rootMode, root, at, t, l, Interning.Search);
    Interning.Enough(n, items, rootMode, root, at, t, l, Interning.List);
    Interning.PathRuleIsParentRule(n, items, rootMode, root, at, t, Interning.Search);
    Interning.PathRuleIsParentRule(n, items, rootMode, root, at, t, Interning.List);
  }
}
