/** What is put in comes back out: in a built image every path leads to its node, with the kind, mode, content
    and entries it was given (programs/makefemtofs.cpp:1754-1912; ko/image.c:315-346; ko/femtofs.c:159-203). */
module RoundTrip {
  import opened Format
  import opened Counting
  import opened Paths
  import opened ImageTree
  import opened TreeMarks
  import opened TreeNodes
  import opened TreeWalk
  import opened Validate
  import opened Encoding
  import opened BuiltPlan
  import opened BuiltTree
  import opened BuiltImage
  import Slice
  import Directory
  import Interning
  import TreeFacts

  // ---------------------------------------------------------------- resolving a path

  /** The last component of a path. */
  function LastName(path: seq<byte>): seq<byte> {
    if path == [] || path[|path| - 1] == SLASH then [] else LastName(path[..|path| - 1]) + [path[|path| - 1]]
  }

  predicate IsDirectory(im: Image, id: nat) {
    id == |im.cells| || (id < |im.cells| && im.cells[id].kind == DIR)
  }

  /** One step: the name in directory id, which leads on to a node's canonical one. */
  ghost function Step(im: Image, canonical: nat -> nat, id: nat, name: seq<byte>): Option<nat>
    requires HeaderOk(im)
  {
    if IsDirectory(im, id) && DirForm(im, id) then Directory.Found(SliceOf(im, id), canonical, name) else None
  }

  /** From the root, component by component. */
  ghost function Resolve(im: Image, canonical: nat -> nat, path: seq<byte>): Option<nat>
    requires HeaderOk(im)
    decreases |path|
  {
    if path == [] then Some(|im.cells|)
    else
      match Resolve(im, canonical, Interning.ParentPath(path))
      case None => None
      case Some(id) => Step(im, canonical, id, LastName(path))
  }

  /** The file that a node stands for, when it is a hardlink; otherwise the node itself. */
  function Stands(items: seq<Item>, t: nat): nat {
    if t < |items| && items[t].kind == Hardlink then items[t].canonical else t
  }

  /** Where a path should lead. */
  function Meant(plan: Plan, path: seq<byte>): Option<nat> {
    if path == [] then Some(plan.cellCount)
    else match ItemAt(plan.items, path) case None => None case Some(t) => Some(Stands(plan.items, t))
  }

  ghost function CanonicalOf(im: Image, w: Work): nat -> nat {
    (t: nat) => if t < |FinalNodes(im, w)| then FinalNodes(im, w)[t].canonical else t
  }

  // ---------------------------------------------------------------- paths

  lemma {:induction false} SplitPath(path: seq<byte>)
    requires path != [] && Interning.PathOk(path)
    ensures path == Join(Interning.ParentPath(path), LastName(path)) && LastName(path) != [] && SLASH !in LastName(path)
    ensures Interning.PathOk(Interning.ParentPath(path))
  {
    var end := |path|;
    assert path[..end] == path;
    SplitAt(path, end);
  }

  /** The path up to end, cut at its last slash. */
  lemma {:induction false} SplitAt(path: seq<byte>, end: nat)
    requires Interning.PathOk(path) && 0 < end <= |path| && path[end - 1] != SLASH
    ensures var p, n := Interning.ParentPath(path[..end]), LastName(path[..end]);
            path[..end] == Join(p, n) && n != [] && SLASH !in n && Interning.PathOk(p)
    decreases end
  {
    var front, b := path[..end - 1], path[end - 1];
    LastByte(path, end);
    if end == 1 {
      assert path[..1] == [b];
    } else if path[end - 2] != SLASH {
      SplitAt(path, end - 1);
      var p, n := Interning.ParentPath(front), LastName(front);
      assert Join(p, n) + [b] == Join(p, n + [b]);
    } else {
      AfterSlash(path, end - 1);
      assert path[..end] == path[..end - 2] + [SLASH] + [b];
      FrontOk(path, end - 2);
    }
  }

  /** A last byte that is no slash belongs to the name. */
  lemma LastByte(path: seq<byte>, end: nat)
    requires 0 < end <= |path| && path[end - 1] != SLASH
    ensures path[..end] == path[..end - 1] + [path[end - 1]]
    ensures Interning.ParentPath(path[..end]) == Interning.ParentPath(path[..end - 1])
    ensures LastName(path[..end]) == LastName(path[..end - 1]) + [path[end - 1]]
  {
    var cut := path[..end];
    assert cut[..end - 1] == path[..end - 1] && cut[end - 1] == path[end - 1];
  }

  lemma AfterSlash(path: seq<byte>, end: nat)
    requires 0 < end <= |path| && path[end - 1] == SLASH
    ensures Interning.ParentPath(path[..end]) == path[..end - 1] && LastName(path[..end]) == []
  {
    var cut := path[..end];
    assert cut[..end - 1] == path[..end - 1] && cut[end - 1] == path[end - 1];
  }

  /** Up to a slash a path is well-formed. */
  lemma FrontOk(path: seq<byte>, end: nat)
    requires Interning.PathOk(path) && end < |path| && path[end] == SLASH
    ensures Interning.PathOk(path[..end]) && path[..end] != []
  {
    var p := path[..end];
    assert end > 0 && path[end - 1] != SLASH;
    assert p[0] == path[0] && p[|p| - 1] == path[end - 1];
  }

  /** A node's path splits into its parent's and its name. */
  lemma ItemSplits(plan: Plan, digest: seq<byte> -> nat, im: Image, t: nat)
    requires Made(plan, digest, im) && t < |plan.items|
    ensures plan.items[t].path == Join(plan.items[t].parent, plan.items[t].name)
    ensures plan.items[t].name != [] && SLASH !in plan.items[t].name
  {
    OpenMade(plan, digest, im);
    assert ItemOk(plan.items, t);
  }

  /** No other directory and name give the same path. */
  lemma JoinUnique(p: seq<byte>, n: seq<byte>, q: seq<byte>, m: seq<byte>)
    requires Join(p, n) == Join(q, m) && n != [] && m != [] && SLASH !in n && SLASH !in m
    ensures p == q && n == m
  {
    ParentOfJoin(p, n);
    ParentOfJoin(q, m);
    if p != [] {
      assert Join(p, n)[|p| + 1..] == n && Join(q, m)[|q| + 1..] == m;
    }
  }

  lemma ParentResolves(plan: Plan, digest: seq<byte> -> nat, im: Image, t: nat)
    requires Made(plan, digest, im) && t < |plan.items| && plan.items[t].parent != []
    ensures var p := ItemAt(plan.items, plan.items[t].parent); p.Some? && plan.items[p.value].kind == Directory
  {
    var j := ParentDir(plan, digest, im, t);
    DirNode(plan, digest, im, j);
    ItemFound(plan, digest, im, plan.dirs[j].node.value);
  }

  // ---------------------------------------------------------------- one step

  lemma CanonicalIs(plan: Plan, digest: seq<byte> -> nat, im: Image, w: Work, t: nat)
    requires Made(plan, digest, im) && Complete(im, w) && t < |plan.items|
    ensures CanonicalOf(im, w)(t) == Stands(plan.items, t)
  {
    Entries(plan, digest, im, w, t);
    NodeShows(plan, digest, im, w, t);
    PlanSizes(plan, digest, im);
    SelfCanonical(im, w, t);
  }

  lemma SelfCanonical(im: Image, w: Work, t: nat)
    requires Complete(im, w) && t < |im.cells| && IsFrom(w.m, t)
    ensures t < |w.nodes| && w.nodes[t].canonical == t
  {
    OpenAll(im, w);
    assert NodeFits(im, w.m, w.nodes, t);
  }

  /** In a built directory a name leads to its node, and a name no node has leads nowhere. */
  lemma StepFinds(plan: Plan, digest: seq<byte> -> nat, im: Image, w: Work, j: nat, name: seq<byte>)
    requires Made(plan, digest, im) && Complete(im, w) && j < |plan.dirs| && name != [] && SLASH !in name
    ensures HeaderOk(im)
    ensures Step(im, CanonicalOf(im, w), Id(plan, j), name) == Meant(plan, Join(plan.dirs[j].path, name))
  {
    DirIsDirectory(plan, digest, im, j);
    NamesOnce(plan, digest, im, j);
    var s, path := SliceOf(im, Id(plan, j)), Join(plan.dirs[j].path, name);
    var found := ItemAt(plan.items, path);
    if found.Some? {
      var t := found.value;
      ItemSplits(plan, digest, im, t);
      JoinUnique(plan.items[t].parent, plan.items[t].name, plan.dirs[j].path, name);
      var i := ChildPlace(plan, digest, im, j, t);
      Directory.ScanFinds(s, i, name);
      CanonicalIs(plan, digest, im, w, t);
    } else {
      forall i: nat
        ensures !Directory.Named(s, i, name)
      {
        if Directory.Named(s, i, name) {
          var t := NamedChild(plan, digest, im, j, i);
          ItemSplits(plan, digest, im, t);
        }
      }
    }
  }

  lemma DirIsDirectory(plan: Plan, digest: seq<byte> -> nat, im: Image, j: nat)
    requires Made(plan, digest, im) && j < |plan.dirs|
    ensures HeaderOk(im) && IsDirectory(im, Id(plan, j)) && DirForm(im, Id(plan, j))
  {
    DirFormed(plan, digest, im, j);
    DirNode(plan, digest, im, j);
    PlanSizes(plan, digest, im);
    if j > 0 {
      ObjectIs(plan, digest, im, plan.dirs[j].node.value);
    }
  }

  lemma ChildPlace(plan: Plan, digest: seq<byte> -> nat, im: Image, j: nat, t: nat) returns (i: nat)
    requires Made(plan, digest, im) && j < |plan.dirs| && t < |plan.items| && plan.items[t].parent == plan.dirs[j].path
    ensures HeaderOk(im) && DirForm(im, Id(plan, j))
    ensures Directory.Named(SliceOf(im, Id(plan, j)), i, plan.items[t].name) && SliceOf(im, Id(plan, j))[i].target == t
  {
    DirFormed(plan, digest, im, j);
    var c := ChildBucket(plan, digest, im, j, t);
    ChildIs(plan, digest, im, j, c, t);
    i := PlaceOf(im, Id(plan, j), c);
  }

  lemma NamedChild(plan: Plan, digest: seq<byte> -> nat, im: Image, j: nat, i: nat) returns (t: nat)
    requires Made(plan, digest, im) && j < |plan.dirs| && HeaderOk(im) && DirForm(im, Id(plan, j))
    requires Slice.Occupied(SliceOf(im, Id(plan, j)), i)
    ensures t < |plan.items| && plan.items[t].parent == plan.dirs[j].path && SliceOf(im, Id(plan, j))[i].target == t
    ensures SliceOf(im, Id(plan, j))[i].name == plan.items[t].name
  {
    var c := ViewAt(im, Id(plan, j), i);
    t := im.cells[c].w4;
    ChildIs(plan, digest, im, j, c, t);
    var k := PlaceOf(im, Id(plan, j), c);
  }

  // ---------------------------------------------------------------- every path

  /** A path of the tree leads to its node, or through a hardlink to the file it stands for, and every
      other path leads nowhere. */
  lemma {:induction false} EveryPath(plan: Plan, digest: seq<byte> -> nat, im: Image, w: Work, path: seq<byte>)
    requires Made(plan, digest, im) && Complete(im, w) && Interning.PathOk(path)
    ensures HeaderOk(im) && Resolve(im, CanonicalOf(im, w), path) == Meant(plan, path)
    decreases |path|
  {
    PlanSizes(plan, digest, im);
    if path != [] {
      SplitPath(path);
      var parent, name := Interning.ParentPath(path), LastName(path);
      EveryPath(plan, digest, im, w, parent);
      var p := ItemAt(plan.items, parent);
      if parent == [] {
        DirNode(plan, digest, im, 0);
        StepFinds(plan, digest, im, w, 0, name);
      } else if p.Some? && plan.items[p.value].kind == Directory {
        var j := DirOfItem(plan, digest, im, p.value);
        StepFinds(plan, digest, im, w, j, name);
      } else {
        NotBelow(plan, digest, im, path, parent, name);
        if p.Some? {
          NoDirectory(plan, digest, im, p.value);
        }
      }
    }
  }

  /** Nothing is below what is not a directory. */
  lemma NotBelow(plan: Plan, digest: seq<byte> -> nat, im: Image, path: seq<byte>, parent: seq<byte>, name: seq<byte>)
    requires Made(plan, digest, im) && path == Join(parent, name) && parent != [] && name != [] && SLASH !in name
    requires var p := ItemAt(plan.items, parent); p.None? || plan.items[p.value].kind != Directory
    ensures ItemAt(plan.items, path).None?
  {
    var t := ItemAt(plan.items, path);
    if t.Some? {
      ItemSplits(plan, digest, im, t.value);
      JoinUnique(plan.items[t.value].parent, plan.items[t.value].name, parent, name);
      ParentResolves(plan, digest, im, t.value);
    }
  }

  lemma NoDirectory(plan: Plan, digest: seq<byte> -> nat, im: Image, t: nat)
    requires Made(plan, digest, im) && t < |plan.items| && plan.items[t].kind != Directory
    ensures !IsDirectory(im, Stands(plan.items, t))
  {
    PlanSizes(plan, digest, im);
    if plan.items[t].kind == Hardlink {
      LinkSmall(plan, digest, im, t);
    }
    ObjectIs(plan, digest, im, Stands(plan.items, t));
  }

  // ---------------------------------------------------------------- what is found there

  lemma BlobBytes(plan: Plan, digest: seq<byte> -> nat, im: Image, b: nat)
    requires Made(plan, digest, im) && b < |plan.classes|
    ensures b < |plan.imageOff| && plan.imageOff[b] + |plan.classes[b].bytes| <= |im.bytes|
    ensures im.bytes[plan.imageOff[b]..plan.imageOff[b] + |plan.classes[b].bytes|] == plan.classes[b].bytes
  {
    BlobSmall(plan, digest, im, b);
  }

  lemma ContentBlob(plan: Plan, digest: seq<byte> -> nat, im: Image, t: nat)
    requires Made(plan, digest, im) && t < |plan.items| && (plan.items[t].kind == File || plan.items[t].kind == Symlink)
    ensures t < |plan.contentBlobs| && plan.contentBlobs[t].Some? && plan.contentBlobs[t].value < |plan.classes|
    ensures plan.classes[plan.contentBlobs[t].value].bytes
         == if plan.items[t].kind == File then plan.items[t].payload else plan.items[t].target
  {
    OpenMade(plan, digest, im);
    assert ItemOk(plan.items, t);
    assert Interning.ContentIs(plan.items, t, plan.classes, plan.contentBlobs[t]);
  }

  /** A node has the mode, the owner and the group of its item's attributes. */
  lemma NodeHasKey(plan: Plan, digest: seq<byte> -> nat, im: Image, w: Work, t: nat)
    requires Made(plan, digest, im) && Complete(im, w) && t < |plan.items| && plan.items[t].kind != Hardlink
    ensures t < |FinalNodes(im, w)| && t < |plan.attrOf| && plan.attrOf[t] < |plan.attrs|
    ensures var n, key := FinalNodes(im, w)[t], plan.attrs[plan.attrOf[t]];
            n.mode == key.mode && n.uid == key.uid && n.gid == key.gid
  {
    PlanSizes(plan, digest, im);
    Entries(plan, digest, im, w, t);
    NodeOf(im, w, t);
    ObjectIs(plan, digest, im, t);
    KeyStored(plan, digest, im, t);
  }

  /** The node of object t is what item t was: its kind, its attributes, a file's content, a symlink's target. */
  lemma NodeIsItem(plan: Plan, digest: seq<byte> -> nat, im: Image, w: Work, t: nat)
    requires Made(plan, digest, im) && Complete(im, w) && t < |plan.items|
    ensures t < |FinalNodes(im, w)|
    ensures var n, x := FinalNodes(im, w)[t], plan.items[t];
            && n.kind == KindByte(x.kind) && (x.kind != Hardlink ==> n.mode == x.mode)
            && (x.kind != Hardlink ==>
                  t < |plan.attrOf| && plan.attrOf[t] < |plan.attrs| && n.mode == plan.attrs[plan.attrOf[t]].mode
                  && n.uid == plan.attrs[plan.attrOf[t]].uid && n.gid == plan.attrs[plan.attrOf[t]].gid)
            && (x.kind == File || x.kind == Symlink ==>
                  n.off + n.size <= |im.bytes| &&
                  im.bytes[n.off..n.off + n.size] == if x.kind == File then x.payload else x.target)
  {
    NodeShows(plan, digest, im, w, t);
    if plan.items[t].kind != Hardlink {
      NodeHasKey(plan, digest, im, w, t);
    }
    if plan.items[t].kind == File || plan.items[t].kind == Symlink {
      PlanSizes(plan, digest, im);
      ContentIsShown(plan, digest, im, w, t);
      ContentBlob(plan, digest, im, t);
      BlobBytes(plan, digest, im, plan.contentBlobs[t].value);
    }
  }

  /** A directory's entries are its nodes: their names and numbers, and nothing else. */
  lemma EntriesAreChildren(plan: Plan, digest: seq<byte> -> nat, im: Image, j: nat, name: seq<byte>, t: nat)
    requires Made(plan, digest, im) && j < |plan.dirs|
    ensures HeaderOk(im) && DirForm(im, Id(plan, j))
    ensures (exists i: nat {:trigger Directory.Named(SliceOf(im, Id(plan, j)), i, name)} ::
               Directory.Named(SliceOf(im, Id(plan, j)), i, name) && SliceOf(im, Id(plan, j))[i].target == t)
            <==> t < |plan.items| && plan.items[t].parent == plan.dirs[j].path && plan.items[t].name == name
  {
    DirFormed(plan, digest, im, j);
    var s := SliceOf(im, Id(plan, j));
    if i: nat :| Directory.Named(s, i, name) && s[i].target == t {
      var u := NamedChild(plan, digest, im, j, i);
    }
    if t < |plan.items| && plan.items[t].parent == plan.dirs[j].path && plan.items[t].name == name {
      var i := ChildPlace(plan, digest, im, j, t);
    }
  }

  // ---------------------------------------------------------------- listing a directory

  /** Where ".." leads from the j-th directory. */
  lemma ParentNumber(plan: Plan, digest: seq<byte> -> nat, im: Image, w: Work, j: nat)
    requires Made(plan, digest, im) && Complete(im, w) && j < |plan.dirs|
    ensures Id(plan, j) < |FinalNodes(im, w)|
    ensures var up := FinalNodes(im, w)[Id(plan, j)].parent;
            if Interning.ParentPath(plan.dirs[j].path) == [] then up == |im.cells|
            else up < |plan.items| && plan.items[up].path == Interning.ParentPath(plan.dirs[j].path)
  {
    PlanSizes(plan, digest, im);
    DirNode(plan, digest, im, j);
    if j == 0 {
      TreeFacts.RootFlags(im, w);
    } else {
      var t := plan.dirs[j].node.value;
      NodeShows(plan, digest, im, w, t);
      ItemPath(plan, digest, im, t);
    }
  }

  /** A bucket of a directory is one of its nodes. */
  lemma EntryIs(plan: Plan, digest: seq<byte> -> nat, im: Image, w: Work, j: nat, p: nat) returns (t: nat)
    requires Made(plan, digest, im) && Complete(im, w) && j < |plan.dirs| && HeaderOk(im) && DirForm(im, Id(plan, j))
    requires Slice.Occupied(SliceOf(im, Id(plan, j)), p)
    ensures t < |plan.items| && plan.items[t].parent == plan.dirs[j].path && |plan.items[t].name| <= 255
    ensures SliceOf(im, Id(plan, j))[p].name == plan.items[t].name
    ensures CanonicalOf(im, w)(SliceOf(im, Id(plan, j))[p].target)
         == if plan.items[t].kind == Hardlink then plan.items[t].canonical else t
  {
    t := NamedChild(plan, digest, im, j, p);
    CanonicalIs(plan, digest, im, w, t);
    NameBlob(plan, digest, im, t);
  }

  /** Bucket p is for item t: its name, and its number or, for a hardlink, its file's. */
  predicate IsEntry(s: seq<Slice.Cell>, canonical: nat -> nat, items: seq<Item>, path: seq<byte>, p: nat, t: nat) {
    && Slice.Occupied(s, p) && t < |items| && items[t].parent == path && s[p].name == items[t].name
    && canonical(s[p].target) == if items[t].kind == Hardlink then items[t].canonical else t
  }

  /** The buckets are for the items of the directory at this path, and no name comes twice. */
  ghost predicate HoldsItems(s: seq<Slice.Cell>, canonical: nat -> nat, items: seq<Item>, path: seq<byte>) {
    && (forall p: nat {:trigger HasItem(s, canonical, items, path, p)} :: Slice.Occupied(s, p) ==>
          HasItem(s, canonical, items, path, p))
    && (forall t: nat {:trigger HasBucket(s, canonical, items, path, t)} :: t < |items| && items[t].parent == path ==>
          HasBucket(s, canonical, items, path, t))
    && Directory.DistinctNames(s)
  }

  ghost predicate HasItem(s: seq<Slice.Cell>, canonical: nat -> nat, items: seq<Item>, path: seq<byte>, p: nat) {
    exists t: nat {:trigger IsEntry(s, canonical, items, path, p, t)} :: IsEntry(s, canonical, items, path, p, t)
  }

  ghost predicate HasBucket(s: seq<Slice.Cell>, canonical: nat -> nat, items: seq<Item>, path: seq<byte>, t: nat) {
    exists p: nat {:trigger IsEntry(s, canonical, items, path, p, t)} :: IsEntry(s, canonical, items, path, p, t)
  }

  lemma SliceHolds(plan: Plan, digest: seq<byte> -> nat, im: Image, w: Work, j: nat, canonical: nat -> nat)
    requires Made(plan, digest, im) && Complete(im, w) && j < |plan.dirs|
    requires forall t: nat {:trigger canonical(t)} :: canonical(t) == CanonicalOf(im, w)(t)
    ensures HeaderOk(im) && DirForm(im, Id(plan, j))
    ensures HoldsItems(SliceOf(im, Id(plan, j)), canonical, plan.items, plan.dirs[j].path)
  {
    NamesOnce(plan, digest, im, j);
    var s := SliceOf(im, Id(plan, j));
    forall p: nat | Slice.Occupied(s, p)
      ensures HasItem(s, canonical, plan.items, plan.dirs[j].path, p)
    {
      var t := EntryIs(plan, digest, im, w, j, p);
      assert IsEntry(s, canonical, plan.items, plan.dirs[j].path, p, t);
    }
    forall t: nat | t < |plan.items| && plan.items[t].parent == plan.dirs[j].path
      ensures HasBucket(s, canonical, plan.items, plan.dirs[j].path, t)
    {
      var p := ChildPlace(plan, digest, im, j, t);
      CanonicalIs(plan, digest, im, w, t);
      assert IsEntry(s, canonical, plan.items, plan.dirs[j].path, p, t);
    }
  }

  /** Any call has room for any name. */
  ghost predicate Ample(room: Directory.Room, reclen: seq<byte> -> nat) {
    room.capacity > 0 && forall name: seq<byte> {:trigger reclen(name)} :: |name| <= 255 ==> reclen(name) <= room.resid
  }

  /** The record is for item t: its name, and its number or, for a hardlink, its file's. */
  predicate IsFor(d: Directory.Dirent, items: seq<Item>, path: seq<byte>, t: nat) {
    && t < |items| && items[t].parent == path && d.name == items[t].name
    && d.id == if items[t].kind == Hardlink then items[t].canonical else t
  }

  ghost predicate ForSome(d: Directory.Dirent, items: seq<Item>, path: seq<byte>) {
    exists t: nat {:trigger IsFor(d, items, path, t)} :: IsFor(d, items, path, t)
  }

  ghost predicate InListing(out: seq<Directory.Dirent>, items: seq<Item>, path: seq<byte>, t: nat) {
    exists k: nat {:trigger out[k]} :: 2 <= k < |out| && IsFor(out[k], items, path, t)
  }

  /** Reading a built directory from end to end, whatever room each call has: itself, its parent, and each of its
      nodes once, hardlinks under the number of their file. */
  method ListDirectory(ghost plan: Plan, ghost digest: seq<byte> -> nat, im: Image, ghost w: Work, nodes: seq<Node>,
                       ghost j: nat, id: nat, room: nat -> Directory.Room, reclen: seq<byte> -> nat)
    returns (out: seq<Directory.Dirent>)
    requires Made(plan, digest, im) && Complete(im, w) && nodes == FinalNodes(im, w)
    requires j < |plan.dirs| && id == Id(plan, j)
    requires forall call: nat {:trigger room(call)} :: Ample(room(call), reclen)
    ensures |out| >= 2 && out[0] == Directory.Dirent(1, id, [46]) && out[1].off == 2 && out[1].name == [46, 46]
    ensures var up := Interning.ParentPath(plan.dirs[j].path);
            if up == [] then out[1].id == |im.cells|
            else out[1].id < |plan.items| && plan.items[out[1].id].path == up
    ensures forall k: nat {:trigger out[k]} :: 2 <= k < |out| ==>
              ForSome(out[k], plan.items, plan.dirs[j].path)
    ensures forall t: nat {:trigger plan.items[t]} :: t < |plan.items| && plan.items[t].parent == plan.dirs[j].path ==>
              InListing(out, plan.items, plan.dirs[j].path, t)
    ensures forall k: nat, l: nat {:trigger out[k], out[l]} :: 2 <= k < l < |out| ==> out[k].name != out[l].name
  {
    DirFormed(plan, digest, im, j);
    ParentNumber(plan, digest, im, w, j);
    var canonical: nat -> nat := (t: nat) => if t < |nodes| then nodes[t].canonical else t;
    SliceHolds(plan, digest, im, w, j, canonical);
    NamesFit(plan, digest, im, j);
    out := ListSlice(SliceOf(im, id), id, nodes[id].parent, canonical, room, reclen, plan.items, plan.dirs[j].path);
  }

  lemma NamesFit(plan: Plan, digest: seq<byte> -> nat, im: Image, j: nat)
    requires Made(plan, digest, im) && j < |plan.dirs|
    ensures forall t: nat {:trigger plan.items[t]} :: t < |plan.items| ==> |plan.items[t].name| <= 255
  {
    forall t: nat | t < |plan.items|
      ensures |plan.items[t].name| <= 255
    {
      NameBlob(plan, digest, im, t);
    }
  }

  method ListSlice(s: seq<Slice.Cell>, self: nat, parent: nat, canonical: nat -> nat, room: nat -> Directory.Room,
                   reclen: seq<byte> -> nat, ghost items: seq<Item>, ghost path: seq<byte>)
    returns (out: seq<Directory.Dirent>)
    requires HoldsItems(s, canonical, items, path)
    requires forall t: nat {:trigger items[t]} :: t < |items| ==> |items[t].name| <= 255
    requires forall call: nat {:trigger room(call)} :: Ample(room(call), reclen)
    ensures |out| >= 2 && out[0] == Directory.Dirent(1, self, [46]) && out[1] == Directory.Dirent(2, parent, [46, 46])
    ensures forall k: nat {:trigger out[k]} :: 2 <= k < |out| ==>
              ForSome(out[k], items, path)
    ensures forall t: nat {:trigger items[t]} :: t < |items| && items[t].parent == path ==>
              InListing(out, items, path, t)
    ensures forall k: nat, l: nat {:trigger out[k], out[l]} :: 2 <= k < l < |out| ==> out[k].name != out[l].name
  {
    RoomEnough(s, canonical, room, reclen, items, path);
    out := Directory.ReadAll(s, self, parent, canonical, room, reclen);
    forall k: nat | 2 <= k < |out|
      ensures ForSome(out[k], items, path)
    {
      ItemOf(s, canonical, items, path, out[k]);
    }
    forall t: nat | t < |items| && items[t].parent == path
      ensures InListing(out, items, path, t)
    {
      var d := RecordOf(s, canonical, items, path, t);
      var k: nat :| k < |out| && out[k] == d;
    }
    NamesOnceListed(s, out);
  }

  lemma NamesOnceListed(s: seq<Slice.Cell>, out: seq<Directory.Dirent>)
    requires Directory.DistinctNames(s)
    requires forall k: nat {:trigger out[k]} :: 2 <= k < |out| ==>
               3 <= out[k].off && Slice.Occupied(s, out[k].off - 3) && out[k].name == s[out[k].off - 3].name
    requires forall k: nat, l: nat :: k < l < |out| ==> out[k].off < out[l].off
    ensures forall k: nat, l: nat {:trigger out[k], out[l]} :: 2 <= k < l < |out| ==> out[k].name != out[l].name
  {
  }

  lemma ItemOf(s: seq<Slice.Cell>, canonical: nat -> nat, items: seq<Item>, path: seq<byte>, d: Directory.Dirent)
    requires HoldsItems(s, canonical, items, path) && 3 <= d.off && Slice.Occupied(s, d.off - 3)
    requires d == Directory.Dirent(d.off, canonical(s[d.off - 3].target), s[d.off - 3].name)
    ensures ForSome(d, items, path)
  {
    assert HasItem(s, canonical, items, path, d.off - 3);
    var t: nat :| IsEntry(s, canonical, items, path, d.off - 3, t);
    assert IsFor(d, items, path, t);
  }

  lemma RecordOf(s: seq<Slice.Cell>, canonical: nat -> nat, items: seq<Item>, path: seq<byte>, t: nat)
    returns (d: Directory.Dirent)
    requires HoldsItems(s, canonical, items, path) && t < |items| && items[t].parent == path
    ensures IsFor(d, items, path, t) && d.off >= 3 && Slice.Occupied(s, d.off - 3)
    ensures d == Directory.Dirent(d.off, canonical(s[d.off - 3].target), s[d.off - 3].name)
  {
    assert HasBucket(s, canonical, items, path, t);
    var p: nat :| IsEntry(s, canonical, items, path, p, t);
    d := Directory.Dirent(p + 3, canonical(s[p].target), s[p].name);
  }

  lemma RoomEnough(s: seq<Slice.Cell>, canonical: nat -> nat, room: nat -> Directory.Room, reclen: seq<byte> -> nat,
                   items: seq<Item>, path: seq<byte>)
    requires HoldsItems(s, canonical, items, path)
    requires forall t: nat {:trigger items[t]} :: t < |items| ==> |items[t].name| <= 255
    requires forall call: nat {:trigger room(call)} :: Ample(room(call), reclen)
    ensures forall call: nat {:trigger room(call)} :: Directory.Enough(s, room(call), reclen)
  {
    forall call: nat
      ensures Directory.Enough(s, room(call), reclen)
    {
      assert Ample(room(call), reclen);
      assert |[46 as byte]| <= 255 && |[46 as byte, 46]| <= 255;
      forall p: nat | Slice.Occupied(s, p)
        ensures reclen(s[p].name) <= room(call).resid
      {
        assert HasItem(s, canonical, items, path, p);
        var t: nat :| IsEntry(s, canonical, items, path, p, t);
      }
    }
  }
}
