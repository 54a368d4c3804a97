/** A built image passes the whole of the decoder's validation (programs/makefemtofs.cpp:1754-1912;
    ko/image.c:249-303). */
module BuiltImage {
  import opened Format
  import opened Counting
  import opened Paths
  import opened ImageTree
  import opened TreeMarks
  import opened TreeNodes
  import opened TreeWalk
  import opened Validate
  import opened Encoding
  import opened BuiltPlan
  import opened BuiltTree
  import Directory
  import Interning
  import Content
  import Agreement

  // ---------------------------------------------------------------- the decoder's queue

  /** The decoder has queued exactly the builder's directories. */
  lemma QueueDir(plan: Plan, digest: seq<byte> -> nat, im: Image, w: Work, id: nat) returns (j: nat)
    requires Made(plan, digest, im) && Complete(im, w) && id in w.m.queue
    ensures j < |plan.dirs| && Id(plan, j) == id
  {
    OpenAll(im, w);
    TreeBuilt(plan, digest, im);
    var k: nat :| k < |w.m.queue| && w.m.queue[k] == id;
    QueueInside(im, w.m, OrderOf(plan), k);
    j :| j < |OrderOf(plan)| && OrderOf(plan)[j] == id;
  }

  lemma DirQueued(plan: Plan, digest: seq<byte> -> nat, im: Image, w: Work, j: nat)
    requires Made(plan, digest, im) && Complete(im, w) && j < |plan.dirs|
    ensures Id(plan, j) in w.m.queue
  {
    OpenAll(im, w);
    TreeBuilt(plan, digest, im);
    var m := Fresh(0).(queue := OrderOf(plan));
    QueueInside(im, m, w.m.queue, j);
    assert m.queue[j] == Id(plan, j);
  }

  lemma BucketEntered(im: Image, w: Work, id: nat, c: nat, t: nat)
    requires Complete(im, w) && id in w.m.queue && IsChild(im, id, c, t)
    ensures IsFrom(w.m, t) && w.m.from[t] == c && ParentOf(w.m, t) == id && HasOwner(w.m, c)
  {
    OpenAll(im, w);
    var p: nat :| p < |w.m.queue| && w.m.queue[p] == id;
    assert In(im, w.m.queue[p], c);
    assert Done(w.m, NOBODY, 0, c);
  }

  lemma EnteredFrom(im: Image, w: Work, t: nat) returns (id: nat, c: nat)
    requires Complete(im, w) && IsFrom(w.m, t)
    ensures id in w.m.queue && IsChild(im, id, c, t)
  {
    OpenAll(im, w);
    c := w.m.from[t];
    assert Done(w.m, NOBODY, 0, c);
    var k := OwnerIndex(im, w.m, |w.m.queue|, c);
    id := w.m.queue[k];
  }

  /** It has entered exactly the nodes, each from the directory it is in. */
  lemma Entries(plan: Plan, digest: seq<byte> -> nat, im: Image, w: Work, t: nat)
    requires Made(plan, digest, im) && Complete(im, w)
    ensures IsFrom(w.m, t) <==> t < |plan.items|
    ensures t < |plan.items| ==>
              exists j: nat {:trigger plan.dirs[j]} ::
                j < |plan.dirs| && plan.dirs[j].path == plan.items[t].parent && ParentOf(w.m, t) == Id(plan, j)
  {
    if t < |plan.items| {
      var j := ParentDir(plan, digest, im, t);
      var c := ChildBucket(plan, digest, im, j, t);
      DirQueued(plan, digest, im, w, j);
      BucketEntered(im, w, Id(plan, j), c, t);
    } else if IsFrom(w.m, t) {
      var id, c := EnteredFrom(im, w, t);
      var j := QueueDir(plan, digest, im, w, id);
      ChildIs(plan, digest, im, j, c, t);
    }
  }

  // ---------------------------------------------------------------- nodes

  lemma NodeOf(im: Image, w: Work, t: nat)
    requires Complete(im, w) && t < |im.cells| && IsFrom(w.m, t)
    ensures t < |w.nodes| == |im.cells| + 1
    ensures var n, o := w.nodes[t], im.cells[t];
            && n.kind == o.kind && n.off == o.w4 && n.size == o.w8 && n.parent == ParentOf(w.m, t)
            && n.hash == o.tag && n.entries == (if o.kind == DIR then o.w12 / 65536 else 0)
            && (o.kind != LINK && o.half < |im.cells| ==>
                  && n.mode == im.cells[o.half].half && n.uid == im.cells[o.half].w4 && n.gid == im.cells[o.half].w8)
  {
    OpenAll(im, w);
    assert NodeFits(im, w.m, w.nodes, t);
  }

  lemma NodeShows(plan: Plan, digest: seq<byte> -> nat, im: Image, w: Work, t: nat)
    requires Made(plan, digest, im) && Complete(im, w) && t < |plan.items|
    ensures t < |w.nodes| && Agreement.ShowsItem(w.nodes, |im.cells|, plan.items, t)
  {
    PlanSizes(plan, digest, im);
    Entries(plan, digest, im, w, t);
    NodeOf(im, w, t);
    ObjectIs(plan, digest, im, t);
    ItemPath(plan, digest, im, t);
    var j: nat :| j < |plan.dirs| && plan.dirs[j].path == plan.items[t].parent && ParentOf(w.m, t) == Id(plan, j);
    DirNode(plan, digest, im, j);
    if plan.items[t].kind == Hardlink {
      PlainIs(plan, digest, im, t);
      LinkSmall(plan, digest, im, t);
    } else {
      AttrFits(plan, digest, im, t);
    }
  }

  lemma ItemPath(plan: Plan, digest: seq<byte> -> nat, im: Image, t: nat)
    requires Made(plan, digest, im) && t < |plan.items|
    ensures plan.items[t].path != [] && plan.items[t].parent == Interning.ParentPath(plan.items[t].path)
    ensures plan.items[t].kind == File ==> plan.items[t].canonical == t
  {
    OpenMade(plan, digest, im);
    PathsAre(plan.items, t);
    assert ItemOk(plan.items, t);
  }

  lemma ItemPathsDiffer(plan: Plan, digest: seq<byte> -> nat, im: Image, i: nat, j: nat)
    requires Made(plan, digest, im) && i < |plan.items| && j < |plan.items| && plan.items[i].path == plan.items[j].path
    ensures i == j
  {
    OpenMade(plan, digest, im);
    PathsDiffer(plan.items, i, j);
  }

  lemma RootShows(plan: Plan, digest: seq<byte> -> nat, im: Image, w: Work)
    requires Made(plan, digest, im) && Complete(im, w)
    ensures |w.nodes| == |im.cells| + 1 && w.nodes[|im.cells|].mode == RootMode(plan)
  {
    RootAttrFits(plan, digest, im);
    OpenAll(im, w);
  }

  /** The decoded objects are the nodes. */
  lemma MirroredBuilt(plan: Plan, digest: seq<byte> -> nat, im: Image, w: Work)
    requires Made(plan, digest, im) && Complete(im, w)
    ensures Agreement.Mirrored(im, w, plan.items, RootMode(plan))
  {
    PlanSizes(plan, digest, im);
    RootShows(plan, digest, im, w);
    forall t: nat
      ensures IsFrom(w.m, t) <==> t < |plan.items|
    {
      Entries(plan, digest, im, w, t);
    }
    forall t: nat | t < |plan.items|
      ensures Agreement.ShowsItem(w.nodes, |im.cells|, plan.items, t)
    {
      NodeShows(plan, digest, im, w, t);
    }
    forall i: nat, j: nat | i < j < |plan.items|
      ensures plan.items[i].path != plan.items[j].path
    {
      if plan.items[i].path == plan.items[j].path {
        ItemPathsDiffer(plan, digest, im, i, j);
      }
    }
  }

  // ---------------------------------------------------------------- references

  lemma NameIsShown(plan: Plan, digest: seq<byte> -> nat, im: Image, w: Work, k: nat)
    requires Made(plan, digest, im) && Complete(im, w) && k < |w.seen| == |w.names| && |plan.nameBlobs| == |plan.items|
    ensures Agreement.NameShown(im, w, plan.items, plan.nameBlobs, plan.imageOff, k)
  {
    NameOwner(im, w, k);
    var c := w.seen[k];
    var j := QueueDir(plan, digest, im, w, w.names[k].dir);
    ChildIs(plan, digest, im, j, c, im.cells[c].w4);
  }

  lemma ContentIsShown(plan: Plan, digest: seq<byte> -> nat, im: Image, w: Work, t: nat)
    requires Made(plan, digest, im) && Complete(im, w) && t < |plan.items| == |plan.contentBlobs|
    ensures t < |w.nodes|
    ensures Agreement.ContentShown(w.nodes, plan.items, plan.classes, plan.contentBlobs, plan.imageOff, t)
  {
    PlanSizes(plan, digest, im);
    Entries(plan, digest, im, w, t);
    NodeOf(im, w, t);
    if plan.items[t].kind == File || plan.items[t].kind == Symlink {
      PlainIs(plan, digest, im, t);
    }
  }

  /** Names and contents are where the plan has put them. */
  lemma OffsetsBuilt(plan: Plan, digest: seq<byte> -> nat, im: Image, w: Work)
    requires Made(plan, digest, im) && Complete(im, w)
    ensures Agreement.OffsetsShown(im, w, plan.items, plan.classes, plan.nameBlobs, plan.contentBlobs, plan.imageOff)
  {
    PlanSizes(plan, digest, im);
    RootShows(plan, digest, im, w);
    SeenOnce(im, w);
    forall k: nat | k < |w.seen|
      ensures Agreement.NameShown(im, w, plan.items, plan.nameBlobs, plan.imageOff, k)
    {
      NameIsShown(plan, digest, im, w, k);
    }
    forall t: nat | t < |plan.items|
      ensures Agreement.ContentShown(w.nodes, plan.items, plan.classes, plan.contentBlobs, plan.imageOff, t)
    {
      ContentIsShown(plan, digest, im, w, t);
    }
  }

  lemma DeliveredBuilt(plan: Plan, digest: seq<byte> -> nat, im: Image, w: Work)
    requires Made(plan, digest, im) && Complete(im, w)
    ensures Agreement.Delivered(im, w, plan.items, RootMode(plan), plan.classes, plan.nameBlobs, plan.contentBlobs,
                                plan.imageOff)
    ensures Interning.Sized(plan.classes) && im.privateOff == plan.o.privateOff
    ensures Content.WellPacked(Agreement.BlobsOf(plan.classes, digest), plan.imageOff, plan.o, plan.cellCount)
  {
    MirroredBuilt(plan, digest, im, w);
    OffsetsBuilt(plan, digest, im, w);
    OpenMade(plan, digest, im);
  }

  /** A symlink's target is private. */
  lemma SymlinkPrivate(plan: Plan, digest: seq<byte> -> nat, im: Image, b: nat)
    requires Made(plan, digest, im) && b < |plan.classes| && plan.classes[b].symlink
    ensures !plan.classes[b].publicPart
  {
    ClassesCover(plan, digest, im);
    UsePrivate(plan.items, RootMode(plan), plan.classes, b);
  }

  lemma ClassesCover(plan: Plan, digest: seq<byte> -> nat, im: Image)
    requires Made(plan, digest, im)
    ensures Interning.Covers(plan.classes, Interning.Uses(plan.items, RootMode(plan), |plan.items|))
  {
    OpenMade(plan, digest, im);
  }

  lemma UsePrivate(items: seq<Item>, rootMode: nat, classes: seq<Interning.Class>, b: nat)
    requires Interning.Covers(classes, Interning.Uses(items, rootMode, |items|)) && b < |classes| && classes[b].symlink
    ensures !classes[b].publicPart
  {
    var occs := Interning.Uses(items, rootMode, |items|);
    if classes[b].publicPart {
      assert Interning.UsedPublicly(occs, classes[b]);
      var k: nat :| k < |occs| && Interning.Same(classes[b], occs[k].symlink, occs[k].bytes) && occs[k].isPublic;
      TargetUse(items, rootMode, occs[k]);
    }
  }

  lemma TargetUse(items: seq<Item>, rootMode: nat, o: Interning.Occurrence)
    requires o in Interning.Uses(items, rootMode, |items|) && o.symlink
    ensures !o.isPublic
  {
    var i := Interning.UseFrom(items, rootMode, |items|, o);
  }

  lemma ContentClass(plan: Plan, digest: seq<byte> -> nat, im: Image, t: nat)
    requires Made(plan, digest, im) && t < |plan.items| && plan.items[t].kind == Symlink
    ensures t < |plan.contentBlobs| && plan.contentBlobs[t].Some? && plan.contentBlobs[t].value < |plan.classes|
    ensures var c := plan.classes[plan.contentBlobs[t].value];
            c.symlink && c.bytes == plan.items[t].target && 0 !in c.bytes
  {
    OpenMade(plan, digest, im);
    assert ItemOk(plan.items, t);
    assert Interning.ContentIs(plan.items, t, plan.classes, plan.contentBlobs[t]);
  }

  /** The content of every file and symlink passes the decoder's test. */
  lemma ContentReads(plan: Plan, digest: seq<byte> -> nat, im: Image, w: Work)
    requires Made(plan, digest, im) && Complete(im, w)
    ensures HeaderOk(im) && ContentFits(im, FinalNodes(im, w), |im.cells|)
  {
    PlanSizes(plan, digest, im);
    var nodes := FinalNodes(im, w);
    forall t: nat | t < |im.cells| && t < |nodes| && HasContent(nodes[t])
      ensures BlobFits(im, nodes[t].off, nodes[t].size, nodes[t].kind == SYMLINK)
    {
      Entries(plan, digest, im, w, t);
      if t >= |plan.items| {
        Agreement.NotAnObject(im, w, t);
        assert false;
      }
      NodeShows(plan, digest, im, w, t);
      ContentIsShown(plan, digest, im, w, t);
      if plan.items[t].kind == Symlink {
        ContentClass(plan, digest, im, t);
        SymlinkPrivate(plan, digest, im, plan.contentBlobs[t].value);
      }
      BlobReads(plan, digest, im, plan.contentBlobs[t].value, plan.items[t].kind == Symlink);
    }
  }

  // ---------------------------------------------------------------- every cell

  /** What cell c is. */
  ghost predicate CellRole(plan: Plan, im: Image, c: nat)
    requires c < |im.cells|
  {
    || (c < |plan.items| && im.cells[c].kind == KindByte(plan.items[c].kind))
    || (c in plan.attrCells && c >= |plan.items|)
    || (im.cells[c].kind != ATTR && exists j: nat {:trigger plan.dirs[j]} ::
          j < |plan.dirs| && InSlice(plan.dirs[j], c))
    || im.cells[c] == ZERO
  }

  lemma RoleOf(plan: Plan, digest: seq<byte> -> nat, im: Image, c: nat)
    requires Made(plan, digest, im) && c < |im.cells|
    ensures CellRole(plan, im, c)
  {
    if c < |plan.items| {
      ObjectIs(plan, digest, im, c);
    } else if c !in plan.attrCells {
      if Outside(plan.dirs, |plan.dirs|, c) {
        RestZero(plan, digest, im, c);
      } else {
        var j: nat :| j < |plan.dirs| && InSlice(plan.dirs[j], c);
        assert InSlice(plan.dirs[j], c);
        CellIs(plan, digest, im, j, c);
      }
    }
  }

  lemma RestZero(plan: Plan, digest: seq<byte> -> nat, im: Image, c: nat)
    requires Made(plan, digest, im) && c < |im.cells| && |plan.items| <= c && c !in plan.attrCells
    requires Outside(plan.dirs, |plan.dirs|, c)
    ensures im.cells[c] == ZERO
  {
    OpenMade(plan, digest, im);
  }

  /** Every attribute is that of some object or of the root. */
  lemma AttrInUse(plan: Plan, digest: seq<byte> -> nat, im: Image, w: Work, a: nat)
    requires Made(plan, digest, im) && Complete(im, w) && a < |plan.attrCells|
    ensures plan.attrCells[a] < |w.attr| && w.attr[plan.attrCells[a]]
  {
    AttrIs(plan, digest, im, a);
    var c := plan.attrCells[a];
    if a != plan.rootAttr {
      var t := AttrUser(plan, digest, im, a);
      ObjectIs(plan, digest, im, t);
      Entries(plan, digest, im, w, t);
      assert IsFrom(w.m, t) && im.cells[t].kind != LINK && im.cells[t].half == c;
    } else {
      RootAttrIs(plan, digest, im);
    }
    assert InUse(im, w.m, c);
    OpenAll(im, w);
  }

  lemma RootAttrIs(plan: Plan, digest: seq<byte> -> nat, im: Image)
    requires Made(plan, digest, im)
    ensures plan.rootAttr < |plan.attrCells| && im.rootAttr == plan.attrCells[plan.rootAttr]
  {
    OpenMade(plan, digest, im);
  }

  lemma AttrUser(plan: Plan, digest: seq<byte> -> nat, im: Image, a: nat) returns (t: nat)
    requires Made(plan, digest, im) && a < |plan.attrCells| && a != plan.rootAttr
    ensures t < |plan.items| && t < |plan.attrOf| && plan.items[t].kind != Hardlink && plan.attrOf[t] == a
  {
    OpenMade(plan, digest, im);
    assert plan.attrs[a] == plan.attrs[a];
    assert AttrNeeded(plan, a);
    t :| t < |plan.items| && plan.items[t].kind != Hardlink && plan.attrOf[t] == a;
  }

  lemma UsedBuilt(plan: Plan, digest: seq<byte> -> nat, im: Image, w: Work, mac: bool, c: nat)
    requires Made(plan, digest, im) && Complete(im, w) && c < |im.cells|
    ensures RolesFor(im, RolesOf(w)) && CellUse(im, RolesOf(w), mac, c)
  {
    AfterWalkRoles(im, w);
    RoleOf(plan, digest, im, c);
    if c < |plan.items| {
      ObjectIs(plan, digest, im, c);
      Entries(plan, digest, im, w, c);
    } else if c in plan.attrCells {
      var a: nat :| a < |plan.attrCells| && plan.attrCells[a] == c;
      AttrIs(plan, digest, im, a);
      AttrInUse(plan, digest, im, w, a);
    } else if im.cells[c] != ZERO {
      var j: nat :| j < |plan.dirs| && InSlice(plan.dirs[j], c);
      DirQueued(plan, digest, im, w, j);
      InShown(plan, digest, im, j, c);
      SliceMarked(im, w, Id(plan, j), c);
    }
  }

  lemma AfterWalkRoles(im: Image, w: Work)
    requires Complete(im, w)
    ensures RolesFor(im, RolesOf(w)) && |w.nodes| == |im.cells| + 1
    ensures forall t: nat {:trigger IsFrom(w.m, t)} :: IsFrom(w.m, t) ==> t < |im.cells| && w.m.isObject[t]
  {
    OpenAll(im, w);
  }

  lemma SliceMarked(im: Image, w: Work, id: nat, c: nat)
    requires Complete(im, w) && id in w.m.queue && In(im, id, c) && c < |im.cells|
    ensures c < |w.m.inSlice| && w.m.inSlice[c]
  {
    OpenAll(im, w);
    var p: nat :| p < |w.m.queue| && w.m.queue[p] == id;
    assert In(im, w.m.queue[p], c);
    assert HasOwner(w.m, c);
  }

  // ---------------------------------------------------------------- attributes

  lemma AttrCellIs(plan: Plan, digest: seq<byte> -> nat, im: Image, c: nat) returns (a: nat)
    requires Made(plan, digest, im) && c < |im.cells| && im.cells[c].kind == ATTR
    ensures a < |plan.attrs| && a < |plan.attrCells| && plan.attrCells[a] == c && im.cells[c] == AttrCell(plan.attrs[a])
  {
    RoleOf(plan, digest, im, c);
    a :| a < |plan.attrCells| && plan.attrCells[a] == c;
    AttrIs(plan, digest, im, a);
  }

  lemma AttrsDiffer(plan: Plan, digest: seq<byte> -> nat, im: Image, c: nat, c': nat)
    requires Made(plan, digest, im) && c < |im.cells| && c' < |im.cells|
    requires im.cells[c].kind == ATTR && im.cells[c'].kind == ATTR && AttrBytes(im.cells[c]) == AttrBytes(im.cells[c'])
    ensures c == c'
  {
    var a := AttrCellIs(plan, digest, im, c);
    var a' := AttrCellIs(plan, digest, im, c');
    SameKey(plan.attrs[a], plan.attrs[a']);
    SameAttr(plan, digest, im, a, a');
  }

  lemma SameAttr(plan: Plan, digest: seq<byte> -> nat, im: Image, a: nat, b: nat)
    requires Made(plan, digest, im) && a < |plan.attrs| && b < |plan.attrs| && plan.attrs[a] == plan.attrs[b]
    ensures a == b
  {
    OpenMade(plan, digest, im);
  }

  lemma SameKey(x: AttrKey, y: AttrKey)
    requires AttrBytes(AttrCell(x)) == AttrBytes(AttrCell(y))
    ensures x == y
  {
    var a, b := AttrBytes(AttrCell(x)), AttrBytes(AttrCell(y));
    assert a[0] == x.mode % 256 && a[1] == x.mode / 256 && b[0] == y.mode % 256 && b[1] == y.mode / 256;
    assert a[2..6] == Le32(x.uid) && b[2..6] == Le32(y.uid) && a[6..10] == Le32(x.gid) && b[6..10] == Le32(y.gid);
    LoadStored(x.uid);
    LoadStored(y.uid);
    LoadStored(x.gid);
    LoadStored(y.gid);
  }

  lemma {:induction false} AttrFrom(im: Image, k: nat, bytes: seq<byte>) returns (c: nat)
    requires k <= |im.cells| && bytes in Attrs(im, k)
    ensures c < k && im.cells[c].kind == ATTR && AttrBytes(im.cells[c]) == bytes
  {
    if im.cells[k - 1].kind == ATTR && AttrBytes(im.cells[k - 1]) == bytes {
      c := k - 1;
    } else {
      c := AttrFrom(im, k - 1, bytes);
    }
  }

  lemma {:induction false} AttrsOnce(plan: Plan, digest: seq<byte> -> nat, im: Image, k: nat)
    requires Made(plan, digest, im) && k <= |im.cells|
    ensures Distinct(Attrs(im, k))
  {
    if k > 0 {
      AttrsOnce(plan, digest, im, k - 1);
      var front := Attrs(im, k - 1);
      if im.cells[k - 1].kind == ATTR && AttrBytes(im.cells[k - 1]) in front {
        var c := AttrFrom(im, k - 1, AttrBytes(im.cells[k - 1]));
        AttrsDiffer(plan, digest, im, c, k - 1);
      }
    }
  }

  // ---------------------------------------------------------------- everything

  lemma BaseBuilt(plan: Plan, digest: seq<byte> -> nat, im: Image, w: Work)
    requires Made(plan, digest, im) && Complete(im, w)
    ensures BaseOk(im, w)
  {
    if SomeDual(im, w.m.queue, |w.m.queue|) {
      var k: nat :| k < |w.m.queue| && DirOf(im, w.m.queue[k]).hash / 64 == 1;
      assert w.m.queue[k] in w.m.queue;
      var j := QueueDir(plan, digest, im, w, w.m.queue[k]);
      DualShown(plan, digest, im, j);
    } else {
      forall j: nat | j < |plan.dirs|
        ensures !plan.dirs[j].dual
      {
        DirQueued(plan, digest, im, w, j);
        DualShown(plan, digest, im, j);
        var k: nat :| k < |w.m.queue| && w.m.queue[k] == Id(plan, j);
      }
    }
    BaseIs(plan, digest, im);
  }

  lemma DualShown(plan: Plan, digest: seq<byte> -> nat, im: Image, j: nat)
    requires Made(plan, digest, im) && j < |plan.dirs|
    ensures DirOf(im, Id(plan, j)).hash / 64 == if plan.dirs[j].dual then 1 else 0
  {
    DirShown(plan, digest, im, j);
    DirBounds(plan, digest, im, j);
    HashShown(plan.dirs[j]);
  }

  lemma BaseIs(plan: Plan, digest: seq<byte> -> nat, im: Image)
    requires Made(plan, digest, im)
    ensures im.hash2 == plan.hash2 && BaseChosen(plan)
  {
    OpenMade(plan, digest, im);
  }

  lemma NamesOnList(plan: Plan, digest: seq<byte> -> nat, im: Image, w: Work)
    requires Made(plan, digest, im) && Complete(im, w)
    ensures Distinct(w.names)
  {
    forall id: nat | id in w.m.queue && DirForm(im, id)
      ensures Directory.DistinctNames(SliceOf(im, id))
    {
      var j := QueueDir(plan, digest, im, w, id);
      NamesOnce(plan, digest, im, j);
    }
    NamesDistinct(im, w);
  }

  lemma LinksBuilt(plan: Plan, digest: seq<byte> -> nat, im: Image, w: Work)
    requires Made(plan, digest, im) && Complete(im, w)
    ensures LinksBelow(w.nodes, |im.cells|, |im.cells|)
  {
    MirroredBuilt(plan, digest, im, w);
    forall t: nat | t < |im.cells| && t < |w.nodes| && w.nodes[t].kind == LINK
      ensures w.nodes[t].off < |im.cells| && w.nodes[t].off < |w.nodes| && w.nodes[w.nodes[t].off].kind == FILE
    {
      if t >= |plan.items| {
        assert !IsFrom(w.m, t);
        Agreement.NotAnObject(im, w, t);
        assert false;
      }
      assert Agreement.ShowsItem(w.nodes, |im.cells|, plan.items, t);
      assert Agreement.ShowsItem(w.nodes, |im.cells|, plan.items, w.nodes[t].off);
    }
  }

  /** The image passes everything that validation asks beyond the tree, whatever the image's minor version. */
  lemma RestBuilt(plan: Plan, digest: seq<byte> -> nat, im: Image, w: Work, mac: bool)
    requires Made(plan, digest, im) && Complete(im, w)
    ensures HeaderOk(im) && RestOk(im, w, mac)
  {
    PlanSizes(plan, digest, im);
    AfterWalkRoles(im, w);
    BaseBuilt(plan, digest, im, w);
    NamesOnList(plan, digest, im, w);
    forall c: nat | c < |im.cells|
      ensures CellUse(im, RolesOf(w), mac, c)
    {
      UsedBuilt(plan, digest, im, w, mac, c);
    }
    LinksBuilt(plan, digest, im, w);
    AttrsOnce(plan, digest, im, |im.cells|);
    ContentReads(plan, digest, im, w);
    DeliveredBuilt(plan, digest, im, w);
    Agreement.PartsAgree(im, w, plan.items, RootMode(plan), plan.classes, plan.nameBlobs, plan.contentBlobs,
                         plan.imageOff, digest, plan.o, plan.cellCount);
  }

  /** `ff_validate` accepts the image, whatever the image's minor version. */
  ghost predicate DecoderAccepts(im: Image) {
    && HeaderOk(im) && Accepted(im)
    && forall w: Work, mac: bool {:trigger RestOk(im, w, mac)} :: Complete(im, w) ==> RestOk(im, w, mac)
  }

  /** Whatever is built is accepted. */
  lemma BuiltAccepted(plan: Plan, digest: seq<byte> -> nat, im: Image)
    requires Made(plan, digest, im)
    ensures DecoderAccepts(im)
  {
    TreeBuilt(plan, digest, im);
    forall w: Work, mac: bool {:trigger RestOk(im, w, mac)} | Complete(im, w)
      ensures RestOk(im, w, mac)
    {
      RestBuilt(plan, digest, im, w, mac);
    }
  }
}
