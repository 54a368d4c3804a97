/** What the breadth-first pass decodes as it goes (ko/image.c:171-187, 204-234): a node for every object,
    link counts, visibility along the path, attributes in use, and the list of names. */
module TreeNodes {
  import opened Format
  import opened Counting
  import opened Sweep
  import opened ImageTree
  import opened TreeMarks

  /** A decoded object; cells that are none keep kind 0. */
  datatype Node = Node(kind: byte, hash: byte, off: nat, size: nat, entries: nat, parent: nat, canonical: nat,
                       links: nat, mode: nat, uid: nat, gid: nat, search: bool, names: bool, publicFile: bool)

  const BLANK := Node(0, 0, 0, 0, 0, 0, 0, 0, 0, 0, 0, false, false, false)

  predicate OthersSearch(mode: nat) {
    mode % 2 == 1
  }

  predicate OthersList(mode: nat) {
    mode % 2 == 1 && mode / 4 % 2 == 1
  }

  predicate OthersRead(mode: nat) {
    mode / 4 % 2 == 1
  }

  /** The attribute cell at an index; nothing when there is none. */
  function AttrAt(im: Image, a: nat): Raw {
    if a < |im.cells| then im.cells[a] else Raw(0, 0, 0, 0, 0, 0)
  }

  /** The attributes of object t; a hardlink has none of its own. */
  function AttrOf(im: Image, t: nat): Raw
    requires t < |im.cells|
  {
    if im.cells[t].kind != LINK then AttrAt(im, im.cells[t].half) else Raw(0, 0, 0, 0, 0, 0)
  }

  function RootNode(im: Image): Node {
    var a := AttrAt(im, im.rootAttr);
    Node(DIR, im.root.hash, im.root.off, im.root.size, im.root.entries, |im.cells|, |im.cells|, 2, a.half, a.w4, a.w8,
         OthersSearch(a.half), OthersList(a.half), false)
  }

  /** The node of object t, entered from directory d. */
  function NewNode(im: Image, t: nat, d: nat, dir: Node): Node
    requires t < |im.cells|
  {
    var o, a := im.cells[t], AttrOf(im, t);
    Node(o.kind, o.tag, o.w4, o.w8, if o.kind == DIR then o.w12 / 65536 else 0, d, t,
         if o.kind == DIR then 2 else 1, a.half, a.w4, a.w8, dir.search && OthersSearch(a.half),
         dir.names && OthersList(a.half), false)
  }

  /** The directory that holds the bucket of object t. */
  ghost function ParentOf(m: Marks, t: nat): nat {
    if IsFrom(m, t) && HasOwner(m, m.from[t]) then m.owner[m.from[t]] else 0
  }

  /** The directories entered from directory d so far. */
  ghost function SubDirs(im: Image, m: Marks, d: nat): set<nat> {
    set t: nat | IsFrom(m, t) && t < |im.cells| && im.cells[t].kind == DIR && ParentOf(m, t) == d
  }

  /** Links of a directory: itself, its name, and one for each directory in it. */
  ghost function Counted(im: Image, m: Marks, id: nat, x: Node): Node {
    if x.kind == DIR then x.(links := 2 + |SubDirs(im, m, id)|) else x
  }

  /** A node as entered from its directory, with links counted so far. */
  ghost predicate NodeFits(im: Image, m: Marks, nodes: seq<Node>, t: nat)
    requires |nodes| == |im.cells| + 1 && t < |im.cells|
  {
    ParentOf(m, t) < |nodes| && nodes[t] == Counted(im, m, t, NewNode(im, t, ParentOf(m, t), nodes[ParentOf(m, t)]))
  }

  /** Objects have their nodes, the root has its own, and everything else is blank. */
  ghost predicate Decoded(im: Image, m: Marks, nodes: seq<Node>) {
    && |nodes| == |im.cells| + 1
    && nodes[|im.cells|] == Counted(im, m, |im.cells|, RootNode(im))
    && (forall t: nat {:trigger NodeFits(im, m, nodes, t)} :: t < |im.cells| && IsFrom(m, t) ==>
          NodeFits(im, m, nodes, t))
    && (forall t: nat {:trigger nodes[t]} :: t < |im.cells| && !IsFrom(m, t) ==> nodes[t] == BLANK)
  }

  lemma FreshDecoded(im: Image, nodes: seq<Node>)
    requires HeaderOk(im) && nodes == seq(|im.cells|, _ => BLANK) + [RootNode(im)]
    ensures Decoded(im, Fresh(|im.cells|), nodes)
  {
    assert SubDirs(im, Fresh(|im.cells|), |im.cells|) == {};
  }

  /** Claiming a slice leaves every object where it was entered. */
  lemma ClaimDecoded(im: Image, m: Marks, m': Marks, nodes: seq<Node>, id: nat)
    requires Decoded(im, m, nodes) && m'.from == m.from && Grabbed(im, m, m', id)
    requires forall t: nat {:trigger m.from[t]} :: IsFrom(m, t) ==> HasOwner(m, m.from[t])
    ensures Decoded(im, m', nodes)
  {
    SameParents(im, m, m', id);
    forall t: nat | t < |im.cells| && IsFrom(m, t)
      ensures NodeFits(im, m', nodes, t)
    {
      assert NodeFits(im, m, nodes, t);
    }
  }

  lemma SameParents(im: Image, m: Marks, m': Marks, id: nat)
    requires m'.from == m.from && Grabbed(im, m, m', id)
    requires forall t: nat {:trigger m.from[t]} :: IsFrom(m, t) ==> HasOwner(m, m.from[t])
    ensures forall t: nat {:trigger ParentOf(m', t)} :: ParentOf(m', t) == ParentOf(m, t)
    ensures forall d: nat {:trigger SubDirs(im, m', d)} :: SubDirs(im, m', d) == SubDirs(im, m, d)
  {
    forall t: nat
      ensures ParentOf(m', t) == ParentOf(m, t)
    {
      if IsFrom(m, t) {
        assert HasOwner(m', m.from[t]);
      }
    }
    forall d: nat
      ensures SubDirs(im, m', d) == SubDirs(im, m, d)
    {
    }
  }

  /** The nodes after bucket c of directory cur has been entered. */
  function WithNode(im: Image, nodes: seq<Node>, cur: nat, c: nat): seq<Node>
    requires |nodes| == |im.cells| + 1 && cur < |nodes| && IsBucket(im, c) && im.cells[c].w4 < |im.cells|
  {
    var t := im.cells[c].w4;
    var nodes' := nodes[t := NewNode(im, t, cur, nodes[cur])];
    if im.cells[c].kind == DIR then nodes'[cur := nodes'[cur].(links := nodes'[cur].links + 1)] else nodes'
  }

  /** What the new entry does to parents and subdirectories. */
  lemma EnterParents(im: Image, m: Marks, c: nat, cur: nat)
    requires HeaderOk(im) && IsBucket(im, c) && im.cells[c].w4 < |im.cells| == |m.isObject| == |m.from|
    requires !IsFrom(m, im.cells[c].w4)
    requires HasOwner(m, c) && m.owner[c] == cur && im.cells[im.cells[c].w4].kind == im.cells[c].kind
    ensures var m', u := EnterOne(im, m, c), im.cells[c].w4;
            && (forall t: nat {:trigger ParentOf(m', t)} :: ParentOf(m', t) == if t == u then cur else ParentOf(m, t))
            && (forall d: nat {:trigger SubDirs(im, m', d)} ::
                  |SubDirs(im, m', d)| == |SubDirs(im, m, d)| + if d == cur && im.cells[c].kind == DIR then 1 else 0)
  {
    var m', u := EnterOne(im, m, c), im.cells[c].w4;
    forall t: nat
      ensures ParentOf(m', t) == if t == u then cur else ParentOf(m, t)
      ensures IsFrom(m', t) <==> IsFrom(m, t) || t == u
    {
    }
    forall d: nat
      ensures |SubDirs(im, m', d)| == |SubDirs(im, m, d)| + if d == cur && im.cells[c].kind == DIR then 1 else 0
    {
      EnterSubDirs(im, m, m', u, cur, d);
    }
  }

  lemma EnterSubDirs(im: Image, m: Marks, m': Marks, u: nat, cur: nat, d: nat)
    requires u < |im.cells| && !IsFrom(m, u)
    requires forall t: nat {:trigger IsFrom(m', t)} :: IsFrom(m', t) <==> IsFrom(m, t) || t == u
    requires forall t: nat {:trigger ParentOf(m', t)} :: ParentOf(m', t) == if t == u then cur else ParentOf(m, t)
    ensures |SubDirs(im, m', d)| == |SubDirs(im, m, d)| + if d == cur && im.cells[u].kind == DIR then 1 else 0
  {
    var was, now := SubDirs(im, m, d), SubDirs(im, m', d);
    forall t: nat
      ensures t in now <==> t in was || (t == u && d == cur && im.cells[u].kind == DIR)
    {
      assert ParentOf(m', t) == if t == u then cur else ParentOf(m, t);
      assert IsFrom(m', t) <==> IsFrom(m, t) || t == u;
    }
    assert u !in was;
    assert now == if d == cur && im.cells[u].kind == DIR then was + {u} else was;
  }

  /** Nothing has been entered from u. */
  ghost predicate Barren(m: Marks, u: nat) {
    forall t: nat {:trigger ParentOf(m, t)} :: IsFrom(m, t) ==> ParentOf(m, t) != u
  }

  lemma BarrenEmpty(im: Image, m: Marks, u: nat)
    requires Barren(m, u)
    ensures SubDirs(im, m, u) == {}
  {
  }

  lemma EnterDecoded(im: Image, m: Marks, nodes: seq<Node>, c: nat, cur: nat)
    requires HeaderOk(im) && Decoded(im, m, nodes) && IsBucket(im, c)
    requires im.cells[c].w4 < |im.cells| == |m.isObject| == |m.from| && !IsFrom(m, im.cells[c].w4)
    requires HasOwner(m, c) && m.owner[c] == cur && im.cells[im.cells[c].w4].kind == im.cells[c].kind
    requires cur == |im.cells| || (cur < |im.cells| && IsFrom(m, cur))
    requires nodes[cur].kind == DIR && Barren(m, im.cells[c].w4)
    ensures Decoded(im, EnterOne(im, m, c), WithNode(im, nodes, cur, c))
  {
    var m', u, nodes' := EnterOne(im, m, c), im.cells[c].w4, WithNode(im, nodes, cur, c);
    EnterParents(im, m, c, cur);
    BarrenEmpty(im, m, u);
    assert u != cur;
    assert |SubDirs(im, m', |im.cells|)|
        == |SubDirs(im, m, |im.cells|)| + if |im.cells| == cur && im.cells[c].kind == DIR then 1 else 0;
    forall t: nat | t < |im.cells| && !IsFrom(m', t)
      ensures nodes'[t] == BLANK
    {
      assert !IsFrom(m, t);
    }
    forall t: nat | t < |im.cells| && IsFrom(m', t)
      ensures NodeFits(im, m', nodes', t)
    {
      var p := ParentOf(m', t);
      assert |SubDirs(im, m', t)| == |SubDirs(im, m, t)| + if t == cur && im.cells[c].kind == DIR then 1 else 0;
      assert p == if t == u then cur else ParentOf(m, t);
      if t != u {
        assert NodeFits(im, m, nodes, t);
        assert p != u;
      }
      assert nodes'[p].search == nodes[p].search && nodes'[p].names == nodes[p].names;
    }
  }
}
