/** The rest of `ff_validate` (ko/image.c:249-303): no name twice in a directory, hardlinks and link counts,
    every attribute used and none twice, no stray bytes, and content that fits together. */
module Validate {
  import opened Format
  import opened Counting
  import opened Sorting
  import opened Sweep
  import opened ImageTree
  import opened TreeMarks
  import opened TreeNodes
  import opened TreeWalk
  import Slice
  import Directory
  import Primality
  import Arith

  /** The pass over the tree is over.  Closed like `Held`. */
  ghost predicate Complete(im: Image, w: Work) {
    && HeaderOk(im)
    && forall k: nat {:trigger Key(k)} :: Key(k) ==> TreeOk(im, w.m.queue) && Sound(im, w, |w.m.queue|, NOBODY, 0)
  }

  lemma OpenAll(im: Image, w: Work)
    requires Complete(im, w)
    ensures TreeOk(im, w.m.queue) && Sound(im, w, |w.m.queue|, NOBODY, 0)
  {
    assert Key(0);
  }

  // ---------------------------------------------------------------- adjacent duplicates

  /** After sorting, equal elements are neighbours. */
  method NoneTwice<T(==, !new)>(le: (T, T) -> bool, xs: seq<T>) returns (ok: bool)
    requires TotalOrder(le) && forall x: T, y: T :: le(x, y) && le(y, x) ==> x == y
    ensures ok <==> Distinct(xs)
  {
    var sorted := Sort(le, xs);
    SortSorted(le, xs);
    SortedDistinct(le, xs, sorted);
    var i := 1;
    while i < |sorted|
      invariant forall j: nat :: 0 < j < i && j < |sorted| ==> sorted[j - 1] != sorted[j]
    {
      if sorted[i - 1] == sorted[i] {
        assert !Distinct(sorted);
        return false;
      }
      i := i + 1;
    }
    NeighboursEnough(le, sorted);
    ok := true;
  }

  lemma SortedDistinct<T(!new)>(le: (T, T) -> bool, xs: seq<T>, sorted: seq<T>)
    requires multiset(sorted) == multiset(xs)
    ensures Distinct(sorted) <==> Distinct(xs)
  {
    DistinctMultiplicity(xs);
    DistinctMultiplicity(sorted);
  }

  lemma NeighboursEnough<T(!new)>(le: (T, T) -> bool, sorted: seq<T>)
    requires forall x: T, y: T :: le(x, y) && le(y, x) ==> x == y
    requires Sorted(le, sorted) && forall j: nat :: 0 < j < |sorted| ==> sorted[j - 1] != sorted[j]
    ensures Distinct(sorted)
  {
    forall i: nat, j: nat | i < j < |sorted|
      ensures sorted[i] != sorted[j]
    {
      var next := sorted[i + 1];
      assert le(sorted[i], next) && (i + 1 == j || le(next, sorted[j]));
    }
  }

  // ---------------------------------------------------------------- names

  /** `namecmp`: by directory, then by bytes. */
  function ByDirAndName(): (Entry, Entry) -> bool {
    (x: Entry, y: Entry) => x.dir < y.dir || (x.dir == y.dir && BytesLeq(x.name, y.name))
  }

  lemma ByDirAndNameOrder()
    ensures TotalOrder(ByDirAndName())
    ensures forall x: Entry, y: Entry :: ByDirAndName()(x, y) && ByDirAndName()(y, x) ==> x == y
  {
    BytesOrder();
    forall x: Entry, y: Entry
      ensures BytesLeq(x.name, y.name) || BytesLeq(y.name, x.name)
      ensures BytesLeq(x.name, y.name) && BytesLeq(y.name, x.name) ==> x.name == y.name
    {
      BytesTotal(x.name, y.name);
    }
    forall x: Entry, y: Entry, z: Entry | ByDirAndName()(x, y) && ByDirAndName()(y, z)
      ensures ByDirAndName()(x, z)
    {
      if x.dir == y.dir == z.dir {
        BytesTransitive(x.name, y.name, z.name);
      }
    }
  }

  /** The bucket of a finished directory is on the list of names. */
  lemma OnTheList(im: Image, w: Work, id: nat, i: nat) returns (k: nat)
    requires Complete(im, w) && id in w.m.queue && DirForm(im, id) && Slice.Occupied(SliceOf(im, id), i)
    ensures k < |w.seen| == |w.names| && w.seen[k] == DirOf(im, id).off + i
    ensures w.names[k] == Entry(SliceOf(im, id)[i].name, id)
  {
    var c := DirOf(im, id).off + i;
    assert SliceOf(im, id)[i] == CellView(im, c);
    k := BucketSeen(im, w, id, c);
  }

  lemma BucketSeen(im: Image, w: Work, id: nat, c: nat) returns (k: nat)
    requires Complete(im, w) && id in w.m.queue && In(im, id, c) && IsBucket(im, c)
    ensures k < |w.seen| == |w.names| && w.seen[k] == c
    ensures NameAt(im, im.cells[c].w8) == Some(w.names[k].name) && w.names[k].dir == id
  {
    OpenAll(im, w);
    var p: nat :| p < |w.m.queue| && w.m.queue[p] == id;
    assert In(im, w.m.queue[p], c);
    assert Done(w.m, NOBODY, 0, c);
    assert Listed(w, im.cells[c].w4);
    k :| k < |w.seen| && w.seen[k] == c;
    assert NameFits(im, w.m, w.seen[k], w.names[k]);
  }

  /** The list has no entry twice exactly when no directory has a name twice. */
  lemma NamesDistinct(im: Image, w: Work)
    requires Complete(im, w)
    ensures Distinct(w.names) <==>
            forall id: nat {:trigger DirForm(im, id)} :: id in w.m.queue && DirForm(im, id) ==>
              Directory.DistinctNames(SliceOf(im, id))
  {
    if Distinct(w.names) {
      forall id: nat | id in w.m.queue && DirForm(im, id)
        ensures Directory.DistinctNames(SliceOf(im, id))
      {
        var s := SliceOf(im, id);
        forall i: nat, j: nat | i < j && Slice.Occupied(s, i) && Slice.Occupied(s, j)
          ensures s[i].name != s[j].name
        {
          var k := OnTheList(im, w, id, i);
          var l := OnTheList(im, w, id, j);
          assert k != l;
          assert w.names[k] != w.names[l];
        }
      }
    } else {
      var k: nat, l: nat :| k < l < |w.names| && w.names[k] == w.names[l];
      SameEntry(im, w, k, l);
    }
  }

  /** The bucket of a listed name, and the directory it is in. */
  lemma NameOwner(im: Image, w: Work, k: nat)
    requires Complete(im, w) && k < |w.names|
    ensures k < |w.seen| && NameFits(im, w.m, w.seen[k], w.names[k])
    ensures w.names[k].dir in w.m.queue && DirForm(im, w.names[k].dir) && In(im, w.names[k].dir, w.seen[k])
  {
    OpenAll(im, w);
    assert NameFits(im, w.m, w.seen[k], w.names[k]);
    var p := OwnerIndex(im, w.m, |w.m.queue|, w.seen[k]);
    assert DirGood(im, w.m.queue[p]);
  }

  /** Where a listed name is. */
  lemma ListedAt(im: Image, w: Work, k: nat)
    requires Complete(im, w) && k < |w.names|
    ensures k < |w.seen|
    ensures var id, c := w.names[k].dir, w.seen[k];
            && id in w.m.queue && DirForm(im, id) && In(im, id, c)
            && var i := c - DirOf(im, id).off;
               Slice.Occupied(SliceOf(im, id), i) && SliceOf(im, id)[i].name == w.names[k].name
  {
    NameOwner(im, w, k);
    var id, c := w.names[k].dir, w.seen[k];
    assert SliceOf(im, id)[c - DirOf(im, id).off] == CellView(im, c);
  }

  lemma SameEntry(im: Image, w: Work, k: nat, l: nat)
    requires Complete(im, w) && k < l < |w.names| && w.names[k] == w.names[l]
    ensures exists id: nat {:trigger DirForm(im, id)} ::
              id in w.m.queue && DirForm(im, id) && !Directory.DistinctNames(SliceOf(im, id))
  {
    var id := w.names[k].dir;
    ListedAt(im, w, k);
    ListedAt(im, w, l);
    SeenOnce(im, w);
    NameTwice(SliceOf(im, id), w.seen[k] - DirOf(im, id).off, w.seen[l] - DirOf(im, id).off);
  }

  lemma SeenOnce(im: Image, w: Work)
    requires Complete(im, w)
    ensures Distinct(w.seen) && |w.seen| == |w.names|
  {
    OpenAll(im, w);
  }

  lemma NameTwice(s: seq<Slice.Cell>, i: nat, j: nat)
    requires Slice.Occupied(s, i) && Slice.Occupied(s, j) && i != j && s[i].name == s[j].name
    ensures !Directory.DistinctNames(s)
  {
  }

  /** What lookups and listings rely on holds in every directory of an accepted image. */
  lemma ReadyForLookup(im: Image, w: Work, id: nat)
    requires Complete(im, w) && Distinct(w.names) && id in w.m.queue
    ensures DirForm(im, id)
    ensures Slice.WellChained(SliceOf(im, id), HashingOf(im, id)) && Directory.DistinctNames(SliceOf(im, id))
  {
    OpenAll(im, w);
    var k: nat :| k < |w.m.queue| && w.m.queue[k] == id;
    assert DirGood(im, w.m.queue[k]);
    NamesDistinct(im, w);
  }

  // ---------------------------------------------------------------- hardlinks

  /** The hardlink objects among the first k cells that name object t. */
  ghost function LinksTo(nodes: seq<Node>, t: nat, k: nat): set<nat> {
    set i: nat | i < k && i < |nodes| && nodes[i].kind == LINK && nodes[i].off == t
  }

  /** Cell i holds file t itself or a hardlink to it. */
  predicate Occurs(nodes: seq<Node>, i: nat, t: nat) {
    i < |nodes| && ((nodes[i].kind == FILE && i == t) || (nodes[i].kind == LINK && nodes[i].off == t))
  }

  /** One of those among the first k cells can be reached by everyone. */
  ghost predicate Reached(nodes: seq<Node>, t: nat, k: nat) {
    exists i: nat {:trigger Occurs(nodes, i, t)} ::
      i < k && Occurs(nodes, i, t) && nodes[i].parent < |nodes| && nodes[nodes[i].parent].search
  }

  /** Node t once the hardlinks among the first k cells are resolved. */
  ghost function Resolved(nodes: seq<Node>, t: nat, k: nat): Node
    requires t < |nodes|
  {
    var n := nodes[t];
    n.(canonical := if t < k && n.kind == LINK then n.off else n.canonical,
       links := n.links + |LinksTo(nodes, t, k)|,
       publicFile := n.publicFile || (OthersRead(n.mode) && Reached(nodes, t, k)))
  }

  /** Every hardlink among the first k cells names a file. */
  ghost predicate LinksBelow(nodes: seq<Node>, count: nat, k: nat) {
    forall i: nat {:trigger nodes[i]} :: i < k && i < |nodes| && nodes[i].kind == LINK ==>
      nodes[i].off < count && nodes[i].off < |nodes| && nodes[nodes[i].off].kind == FILE
  }

  /** What the pass over the tree has left: each object its own canonical node, parents in range, links unresolved. */
  ghost predicate Unresolved(nodes: seq<Node>, count: nat) {
    && |nodes| == count + 1
    && forall t: nat {:trigger nodes[t]} :: t < count && nodes[t].kind != 0 ==>
         nodes[t].parent <= count && nodes[t].canonical == t
  }

  lemma ResolveStart(nodes: seq<Node>, t: nat)
    requires t < |nodes|
    ensures Resolved(nodes, t, 0) == nodes[t]
  {
    assert LinksTo(nodes, t, 0) == {};
    assert !Reached(nodes, t, 0);
  }

  /** What cell k changes. */
  lemma ResolveNext(nodes: seq<Node>, t: nat, k: nat)
    requires k < |nodes| && t < |nodes|
    ensures var n, was, now := nodes[k], Resolved(nodes, t, k), Resolved(nodes, t, k + 1);
            && now.links == was.links + (if n.kind == LINK && n.off == t then 1 else 0)
            && (now.publicFile <==> was.publicFile || (&& OthersRead(nodes[t].mode) && Occurs(nodes, k, t)
                                                       && n.parent < |nodes| && nodes[n.parent].search))
            && now == was.(canonical := if t == k && n.kind == LINK then n.off else was.canonical, links := now.links,
                           publicFile := now.publicFile)
  {
    if nodes[k].kind == LINK && nodes[k].off == t {
      assert LinksTo(nodes, t, k + 1) == LinksTo(nodes, t, k) + {k};
    } else {
      assert LinksTo(nodes, t, k + 1) == LinksTo(nodes, t, k);
    }
    if Reached(nodes, t, k) {
      var i: nat :| i < k && Occurs(nodes, i, t) && nodes[i].parent < |nodes| && nodes[nodes[i].parent].search;
      assert Occurs(nodes, i, t);
    }
    if Occurs(nodes, k, t) && nodes[k].parent < |nodes| && nodes[nodes[k].parent].search {
      assert Reached(nodes, t, k + 1);
    }
  }

  /** Resolve the hardlink, if it is one, and note who can read the file. */
  method ResolveOne(nodes: array<Node>, i: nat, ghost was: seq<Node>) returns (ok: bool)
    requires i + 1 < nodes.Length == |was| && Unresolved(was, |was| - 1)
    requires forall t: nat :: t < |was| ==> nodes[t] == Resolved(was, t, i)
    modifies nodes
    ensures ok <==> (was[i].kind == LINK ==> was[i].off < |was| - 1 && was[was[i].off].kind == FILE)
    ensures ok ==> forall t: nat :: t < |was| ==> nodes[t] == Resolved(was, t, i + 1)
  {
    var n := nodes[i];
    forall t: nat | t < |was|
      ensures nodes[t].kind == was[t].kind && nodes[t].off == was[t].off && nodes[t].parent == was[t].parent
      ensures nodes[t].mode == was[t].mode && nodes[t].search == was[t].search
    {
      assert nodes[t] == Resolved(was, t, i);
    }
    ok := true;
    if n.kind == LINK {
      if n.off >= nodes.Length - 1 || nodes[n.off].kind != FILE {
        return false;
      }
      nodes[i] := nodes[i].(canonical := n.off);
      nodes[n.off] := nodes[n.off].(links := nodes[n.off].links + 1);
    }
    if n.kind == FILE || n.kind == LINK {
      var f := nodes[i].canonical;
      if OthersRead(nodes[f].mode) && nodes[n.parent].search {
        nodes[f] := nodes[f].(publicFile := true);
      }
    }
    forall t: nat | t < |was|
      ensures nodes[t] == Resolved(was, t, i + 1)
    {
      ResolveNext(was, t, i);
    }
  }

  // ---------------------------------------------------------------- cells and attributes

  /** Attributes are used, with no reserved bits; what is neither slice, object nor attribute is zero. */
  predicate CellUse(im: Image, roles: Roles, mac: bool, i: nat)
    requires i < |im.cells| && RolesFor(im, roles)
  {
    var p := im.cells[i];
    if p.kind == ATTR then roles.attr[i] && p.tag == 0 && (mac || p.w12 == 0)
    else roles.inSlice[i] || roles.isObject[i] || p == Raw(0, 0, 0, 0, 0, 0)
  }

  /** The role map as the pass over the tree has left it. */
  datatype Roles = Roles(attr: seq<bool>, inSlice: seq<bool>, isObject: seq<bool>)

  predicate RolesFor(im: Image, roles: Roles) {
    |im.cells| == |roles.attr| == |roles.inSlice| == |roles.isObject|
  }

  ghost function RolesOf(w: Work): Roles {
    Roles(w.attr, w.m.inSlice, w.m.isObject)
  }

  /** The fourteen bytes that `attrcmp` compares. */
  function AttrBytes(p: Raw): seq<byte> {
    [p.half % 256, p.half / 256] + Le32(p.w4) + Le32(p.w8) + Le32(p.w12)
  }

  function Attrs(im: Image, k: nat): seq<seq<byte>>
    requires k <= |im.cells|
  {
    if k == 0 then []
    else if im.cells[k - 1].kind == ATTR then Attrs(im, k - 1) + [AttrBytes(im.cells[k - 1])]
    else Attrs(im, k - 1)
  }

  ghost function ResolvedAll(nodes: seq<Node>, k: nat): seq<Node> {
    seq(|nodes|, t requires 0 <= t < |nodes| => Resolved(nodes, t, k))
  }

  ghost predicate UsedBelow(im: Image, roles: Roles, mac: bool, k: nat)
    requires k <= |im.cells| && RolesFor(im, roles)
  {
    forall i: nat :: i < k ==> CellUse(im, roles, mac, i)
  }

  /** The pass over all cells. */
  method LastPass(im: Image, roles: Roles, mac: bool, nodes: array<Node>, ghost was: seq<Node>)
    returns (ok: bool, attrs: seq<seq<byte>>)
    requires nodes[..] == was && Unresolved(was, |im.cells|)
    requires RolesFor(im, roles)
    modifies nodes
    ensures ok <==> UsedBelow(im, roles, mac, |im.cells|) && LinksBelow(was, |im.cells|, |im.cells|)
    ensures ok ==> attrs == Attrs(im, |im.cells|) && forall t: nat :: t < |was| ==>
              nodes[t] == Resolved(was, t, |im.cells|)
  {
    attrs := [];
    forall t: nat | t < |was|
      ensures nodes[t] == Resolved(was, t, 0)
    {
      ResolveStart(was, t);
    }
    for i := 0 to |im.cells|
      invariant attrs == Attrs(im, i)
      invariant forall t: nat :: t < |was| ==> nodes[t] == Resolved(was, t, i)
      invariant UsedBelow(im, roles, mac, i) && LinksBelow(was, |im.cells|, i)
    {
      if !CellUse(im, roles, mac, i) {
        return false, attrs;
      }
      if im.cells[i].kind == ATTR {
        attrs := attrs + [AttrBytes(im.cells[i])];
      }
      ok := ResolveOne(nodes, i, was);
      if !ok {
        return;
      }
    }
    ok := true;
  }

  // ---------------------------------------------------------------- the second base

  /** Trial division up to the square root. */
  method CheckBase(base: nat) returns (ok: bool)
    ensures ok <==> 256 < base < 0x100_0000 && Primality.IsPrime(base)
  {
    if base <= 256 || base >= 0x100_0000 {
      return false;
    }
    var i := 2;
    while i <= base / i
      invariant 2 <= i <= base
      invariant forall d: int {:trigger Primality.Divides(d, base)} :: 2 <= d < i ==> !Primality.Divides(d, base)
      decreases base - i
    {
      if base % i == 0 {
        assert Primality.Divides(i, base);
        return false;
      }
      i := i + 1;
    }
    PastTheRoot(base, i);
    ok := true;
  }

  lemma PastTheRoot(base: nat, i: nat)
    requires 2 <= i <= base && base / i < i
    requires forall d: int {:trigger Primality.Divides(d, base)} :: 2 <= d < i ==> !Primality.Divides(d, base)
    ensures Primality.IsPrime(base)
  {
    var m := Primality.LeastFactor(base);
    assert Primality.Divides(m, base);
    if m < base {
      SquareBeyond(base, i, m);
    }
  }

  lemma SquareBeyond(base: nat, i: nat, m: nat)
    requires i > 0 && base / i < i <= m
    ensures m * m > base
  {
    assert base < i * i by {
      assert base == base / i * i + base % i;
      Arith.MulLe(base / i + 1, i, i);
    }
    Arith.MulLe(i, m, i);
    Arith.MulLe(i, m, m);
  }

  // ---------------------------------------------------------------- content

  predicate HasContent(n: Node) {
    n.kind == FILE || n.kind == SYMLINK
  }

  function RefOf(n: Node): Ref {
    Ref(n.off, n.size, n.kind == SYMLINK, n.publicFile)
  }

  /** The references of files and symlinks among the first k cells. */
  function ContentRefs(nodes: seq<Node>, k: nat): seq<Ref>
    requires k <= |nodes|
  {
    if k == 0 then []
    else ContentRefs(nodes, k - 1) + (if HasContent(nodes[k - 1]) then [RefOf(nodes[k - 1])] else [])
  }

  ghost predicate ContentFits(im: Image, nodes: seq<Node>, k: nat)
    requires HeaderOk(im)
  {
    forall i: nat {:trigger nodes[i]} :: i < k && i < |nodes| && HasContent(nodes[i]) ==>
      BlobFits(im, nodes[i].off, nodes[i].size, nodes[i].kind == SYMLINK)
  }

  /** A reference for every file, and one for every symlink. */
  lemma {:induction false} ContentRefsAre(nodes: seq<Node>, k: nat, x: Ref)
    requires k <= |nodes|
    ensures x in ContentRefs(nodes, k) <==>
            exists i: nat {:trigger nodes[i]} ::
              && i < k && (nodes[i].kind == 1 || nodes[i].kind == 3)
              && x == Ref(nodes[i].off, nodes[i].size, nodes[i].kind == 3, nodes[i].publicFile)
  {
    if k > 0 {
      ContentRefsAre(nodes, k - 1, x);
      assert nodes[k - 1] == nodes[k - 1];
    }
  }

  lemma ContentFitsMeans(im: Image, nodes: seq<Node>)
    requires HeaderOk(im) && |nodes| == |im.cells| + 1
    ensures ContentFits(im, nodes, |im.cells|) <==>
            forall i: nat {:trigger nodes[i]} :: i < |im.cells| && (nodes[i].kind == 1 || nodes[i].kind == 3) ==>
              BlobFits(im, nodes[i].off, nodes[i].size, nodes[i].kind == 3)
  {
  }

  method AddContent(im: Image, nodes: seq<Node>, refsIn: seq<Ref>) returns (ok: bool, refs: seq<Ref>)
    requires HeaderOk(im) && |nodes| == |im.cells| + 1
    ensures ok <==> ContentFits(im, nodes, |im.cells|)
    ensures ok ==> refs == refsIn + ContentRefs(nodes, |im.cells|)
  {
    refs := refsIn;
    for i := 0 to |im.cells|
      invariant ContentFits(im, nodes, i) && refs == refsIn + ContentRefs(nodes, i)
    {
      var n := nodes[i];
      if HasContent(n) {
        if !BlobFits(im, n.off, n.size, n.kind == SYMLINK) {
          return false, refs;
        }
        refs := refs + [RefOf(n)];
      }
    }
    ok := true;
  }

  /** Content that anyone may read lies in the public part, the rest in the private one. */
  ghost predicate RightParts(refs: seq<Ref>, privateOff: nat) {
    forall i: nat {:trigger refs[i]} :: i < |refs| ==> (refs[i].off < privateOff <==> refs[i].off in Publics(refs))
  }

  /** Checking the merged blobs checks all references. */
  lemma PartsOfKept(refs: seq<Ref>, kept: seq<Ref>, privateOff: nat)
    requires Merged(refs, kept) && Increasing(kept)
    ensures (forall k: nat :: k < |kept| ==> (kept[k].off < privateOff <==> kept[k].publicRef)) <==>
              RightParts(refs, privateOff)
  {
    forall k: nat | k < |kept|
      ensures kept[k].publicRef <==> kept[k].off in Publics(refs)
      ensures exists i: nat :: i < |refs| && refs[i].off == kept[k].off
    {
      PublicIfReferenced(refs, kept, k);
      PlaceIn(kept, k);
      var i := PlaceFrom(refs, PlaceOf(kept[k]));
      assert refs[i].off == kept[k].off;
    }
    forall i: nat | i < |refs|
      ensures exists k: nat :: k < |kept| && kept[k].off == refs[i].off
    {
      PlaceIn(refs, i);
      var k := PlaceFrom(kept, PlaceOf(refs[i]));
      assert kept[k].off == refs[i].off;
    }
  }

  // ---------------------------------------------------------------- everything

  /** A second base is there exactly when some directory uses it, and then it is a prime in range. */
  ghost predicate BaseOk(im: Image, w: Work) {
    if SomeDual(im, w.m.queue, |w.m.queue|) then 256 < im.hash2 < 0x100_0000 && Primality.IsPrime(im.hash2)
    else im.hash2 == 0
  }

  ghost function FinalNodes(im: Image, w: Work): seq<Node> {
    ResolvedAll(w.nodes, |im.cells|)
  }

  /** Every reference to content: names, files, symlinks. */
  ghost function AllRefs(im: Image, w: Work): seq<Ref>
    requires |w.nodes| == |im.cells| + 1
  {
    w.refs + ContentRefs(FinalNodes(im, w), |im.cells|)
  }

  /** What is asked of an image beyond its tree. */
  ghost predicate RestOk(im: Image, w: Work, mac: bool)
    requires HeaderOk(im)
  {
    && |w.nodes| == |im.cells| + 1 && RolesFor(im, RolesOf(w))
    && BaseOk(im, w) && Distinct(w.names)
    && UsedBelow(im, RolesOf(w), mac, |im.cells|) && LinksBelow(w.nodes, |im.cells|, |im.cells|)
    && Distinct(Attrs(im, |im.cells|))
    && ContentFits(im, FinalNodes(im, w), |im.cells|)
    && NoConflict(Places(AllRefs(im, w))) && RightParts(AllRefs(im, w), im.privateOff)
  }

  /** Every file's blob is the one with its own offset and size. */
  ghost predicate Indexed(nodes: seq<Node>, count: nat, kept: seq<Ref>, index: seq<nat>) {
    |index| == count <= |nodes| && forall i: nat {:trigger index[i]} :: i < count && nodes[i].kind == FILE ==>
      index[i] < |kept| && PlaceOf(kept[index[i]]) == Place(nodes[i].off, nodes[i].size, false)
  }

  lemma AfterWalk(im: Image, w: Work)
    requires HeaderOk(im) && TreeOk(im, w.m.queue) && Sound(im, w, |w.m.queue|, NOBODY, 0)
    ensures Complete(im, w) && Unresolved(w.nodes, |im.cells|)
    ensures |w.nodes| == |im.cells| + 1 && RolesFor(im, RolesOf(w))
    ensures |w.refs| <= |im.cells|
  {
    forall t: nat | t < |im.cells| && w.nodes[t].kind != 0
      ensures w.nodes[t].parent <= |im.cells| && w.nodes[t].canonical == t
    {
      assert IsFrom(w.m, t);
      assert NodeFits(im, w.m, w.nodes, t);
    }
    BelowSize(|im.cells|);
    assert EnteredSet(w.m) <= Below(|im.cells|);
    SubsetSize(EnteredSet(w.m), Below(|im.cells|));
  }

  lemma {:induction false} ContentSize(nodes: seq<Node>, k: nat)
    requires k <= |nodes|
    ensures |ContentRefs(nodes, k)| <= k
  {
    if k > 0 {
      ContentSize(nodes, k - 1);
    }
  }

  lemma {:induction false} ContentHas(nodes: seq<Node>, k: nat, i: nat)
    requires i < k <= |nodes| && HasContent(nodes[i])
    ensures RefOf(nodes[i]) in ContentRefs(nodes, k)
  {
    if i < k - 1 {
      ContentHas(nodes, k - 1, i);
    }
  }

  lemma AllContentIn(nodes: seq<Node>, k: nat, before: seq<Ref>)
    requires k <= |nodes|
    ensures forall i: nat {:trigger nodes[i]} :: i < k && HasContent(nodes[i]) ==>
              RefOf(nodes[i]) in before + ContentRefs(nodes, k)
  {
    forall i: nat | i < k && HasContent(nodes[i])
      ensures RefOf(nodes[i]) in before + ContentRefs(nodes, k)
    {
      ContentHas(nodes, k, i);
    }
  }

  method IndexFiles(nodes: seq<Node>, count: nat, blobs: array<Ref>, n: nat, ghost refs: seq<Ref>)
    returns (index: seq<nat>)
    requires count <= |nodes| && n <= blobs.Length && Increasing(blobs[..n]) && Merged(refs, blobs[..n])
    requires forall i: nat {:trigger nodes[i]} :: i < count && HasContent(nodes[i]) ==> RefOf(nodes[i]) in refs
    ensures Indexed(nodes, count, blobs[..n], index)
  {
    index := [];
    for i := 0 to count
      invariant Indexed(nodes, i, blobs[..n], index)
    {
      var lo := 0;
      if nodes[i].kind == FILE {
        lo := FindBlob(blobs, n, nodes[i].off);
        ghost var k: nat :| k < |refs| && refs[k] == RefOf(nodes[i]);
        FileFindsBlob(refs, blobs[..n], k, lo);
      }
      index := index + [lo];
    }
  }

  /** Sorting out the content: no two blobs that clash, each in its part, each file pointed to its own. */
  method CheckContent(im: Image, nodes: seq<Node>, refs: seq<Ref>)
    returns (ok: bool, blobs: array<Ref>, n: nat, index: seq<nat>)
    requires HeaderOk(im) && |nodes| == |im.cells| + 1
    requires forall i: nat {:trigger nodes[i]} :: i < |im.cells| && HasContent(nodes[i]) ==> RefOf(nodes[i]) in refs
    ensures fresh(blobs)
    ensures ok <==> NoConflict(Places(refs)) && RightParts(refs, im.privateOff)
    ensures ok ==> n <= blobs.Length == |refs| && Increasing(blobs[..n]) && Merged(refs, blobs[..n])
    ensures ok ==> Indexed(nodes, |im.cells|, blobs[..n], index)
  {
    blobs := new Ref[|refs|](i requires 0 <= i < |refs| => refs[i]);
    index := [];
    assert blobs[..] == refs;
    ok, n := SweepBlobs(blobs);
    if !ok {
      return;
    }
    PartsOfKept(refs, blobs[..n], im.privateOff);
    ok := CheckParts(blobs, n, im.privateOff);
    if !ok {
      return;
    }
    index := IndexFiles(nodes, |im.cells|, blobs, n, refs);
  }

  /** The names, the second base, all cells, all attributes: everything between the tree and the content. */
  method CheckCells(im: Image, dual: bool, mac: bool, names: seq<Entry>, roles: Roles, nodes: array<Node>,
                    ghost w: Work)
    returns (ok: bool)
    requires HeaderOk(im) && nodes[..] == w.nodes && Unresolved(w.nodes, |im.cells|)
    requires roles == RolesOf(w) && RolesFor(im, roles) && names == w.names
    requires dual <==> SomeDual(im, w.m.queue, |w.m.queue|)
    modifies nodes
    ensures ok <==> && BaseOk(im, w) && Distinct(w.names) && Distinct(Attrs(im, |im.cells|))
                    && UsedBelow(im, roles, mac, |im.cells|) && LinksBelow(w.nodes, |im.cells|, |im.cells|)
    ensures ok ==> nodes[..] == FinalNodes(im, w)
  {
    if dual {
      ok := CheckBase(im.hash2);
    } else {
      ok := im.hash2 == 0;
    }
    if !ok {
      return;
    }
    ByDirAndNameOrder();
    ok := NoneTwice(ByDirAndName(), names);
    if !ok {
      return;
    }
    var attrs;
    ok, attrs := LastPass(im, roles, mac, nodes, w.nodes);
    if !ok {
      return;
    }
    assert nodes[..] == FinalNodes(im, w);
    BytesOrder();
    BytesAlike();
    ok := NoneTwice(BytesLeq, attrs);
  }

  lemma BytesAlike()
    ensures forall a: seq<byte>, b: seq<byte> :: BytesLeq(a, b) && BytesLeq(b, a) ==> a == b
  {
    forall a: seq<byte>, b: seq<byte>
      ensures BytesLeq(a, b) && BytesLeq(b, a) ==> a == b
    {
      BytesTotal(a, b);
    }
  }

  /** `ff_validate` after the header: accepted exactly when the directories form a tree and the rest is in
      order; every file then has its blob, and the reference table needs no more than two slots a cell. */
  method Validate(im: Image, mac: bool)
    returns (ok: bool, nodes: array<Node>, blobs: array<Ref>, n: nat, index: seq<nat>, ghost w: Work)
    requires HeaderOk(im)
    ensures fresh(nodes) && fresh(blobs)
    ensures Accepted(im) ==> Complete(im, w)
    ensures ok <==> Accepted(im) && RestOk(im, w, mac)
    ensures ok ==> |w.nodes| == |im.cells| + 1 && nodes[..] == FinalNodes(im, w) && |AllRefs(im, w)| <= 2 * |im.cells|
    ensures ok ==> n <= blobs.Length && Increasing(blobs[..n]) && Merged(AllRefs(im, w), blobs[..n])
    ensures ok ==> Indexed(nodes[..], |im.cells|, blobs[..n], index)
  {
    blobs, n, index := new Ref[0], 0, [];
    var walker := new Walker(im);
    ok := walker.WalkTree();
    w := walker.Now();
    nodes := new Node[|walker.nodes|](i requires 0 <= i < |walker.nodes| reads walker => walker.nodes[i]);
    if !ok {
      return;
    }
    AfterWalk(im, w);
    assert nodes[..] == w.nodes;
    ok := CheckCells(im, walker.dual, mac, walker.names, Roles(walker.attr, walker.inSlice, walker.isObject), nodes, w);
    if !ok {
      return;
    }
    var refs;
    ok, refs := AddContent(im, nodes[..], walker.refs);
    if !ok {
      return;
    }
    AllContentIn(nodes[..], |im.cells|, walker.refs);
    ContentSize(nodes[..], |im.cells|);
    ok, blobs, n, index := CheckContent(im, nodes[..], refs);
  }
}
