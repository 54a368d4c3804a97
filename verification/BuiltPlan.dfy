/** What the builder's passes deliver to the encoder, and what the image then shows of it
    (programs/makefemtofs.cpp:978-1222, 1269-1344, 1500-1741, 1743-1912). */
module BuiltPlan {
  import opened Format
  import opened Counting
  import opened Paths
  import opened ImageTree
  import opened Encoding
  import Sorting
  import Slice
  import Loads
  import Layout
  import Builder
  import BuiltSlice
  import Attributes
  import Interning
  import Content
  import Packing
  import Primality
  import Agreement

  const SLASH: byte := Interning.SLASH

  // ---------------------------------------------------------------- the tree that is built

  predicate NameOk(name: seq<byte>) {
    0 < |name| <= 255 && 0 !in name && SLASH !in name && name != [46] && name != [46, 46]
  }

  function Join(parent: seq<byte>, name: seq<byte>): seq<byte> {
    if parent == [] then name else parent + [SLASH] + name
  }

  ghost predicate HasDirectory(items: seq<Item>, path: seq<byte>) {
    exists p: nat {:trigger items[p]} :: p < |items| && items[p].path == path && items[p].kind == Directory
  }

  ghost predicate ItemOk(items: seq<Item>, t: nat)
    requires t < |items|
  {
    var n := items[t];
    && n.path == Join(n.parent, n.name) && NameOk(n.name)
    && (n.parent == [] || HasDirectory(items, n.parent))
    && (n.kind == File ==> n.canonical == t)
    && (n.kind == Hardlink ==> n.canonical < |items| && items[n.canonical].kind == File)
    && (n.kind == Symlink ==> 0 !in n.target)
    && (n.kind != Hardlink ==> n.mode < 65536 && n.mode / 4096 == ModeBits(KindByte(n.kind)))
  }

  /** What normalization leaves: nodes in path order, each in a directory. */
  ghost predicate ItemsOk(items: seq<Item>) {
    && |items| < MAX_ENTRIES
    && (forall t: nat {:trigger ItemOk(items, t)} :: t < |items| ==> ItemOk(items, t))
    && (forall i: nat, j: nat {:trigger items[i], items[j]} :: i < j < |items| ==>
          Sorting.BytesLess(items[i].path, items[j].path))
  }

  lemma {:induction false} PrefixFirst(a: seq<byte>, b: seq<byte>)
    requires a < b
    ensures Sorting.BytesLess(a, b)
  {
    if a != [] {
      PrefixFirst(a[1..], b[1..]);
    }
  }

  lemma PathsDiffer(items: seq<Item>, i: nat, j: nat)
    requires ItemsOk(items) && i < |items| && j < |items| && items[i].path == items[j].path
    ensures i == j
  {
    Sorting.BytesTotal(items[i].path, items[j].path);
  }

  /** The path says what the parent is. */
  lemma ParentOfJoin(parent: seq<byte>, name: seq<byte>)
    requires SLASH !in name && name != []
    ensures Interning.ParentPath(Join(parent, name)) == parent
  {
    var path := Join(parent, name);
    assert path[..|path|] == path;
    if parent == [] {
      Interning.NoSlashAtAll(path, |path|);
    } else {
      forall i: nat | |parent| < i < |path|
        ensures path[i] != SLASH
      {
        assert path[i] == name[i - |parent| - 1] && name[i - |parent| - 1] in name;
      }
      Interning.NoSlashAfter(path, |parent|, |path|);
    }
  }

  /** A node's parent comes before it. */
  lemma ParentFirst(items: seq<Item>, t: nat) returns (p: nat)
    requires ItemsOk(items) && t < |items| && items[t].parent != []
    ensures p < t && items[p].path == items[t].parent && items[p].kind == Directory
  {
    assert ItemOk(items, t);
    p :| p < |items| && items[p].path == items[t].parent && items[p].kind == Directory;
    PrefixFirst(items[p].path, items[t].path);
    Sorting.BytesTotal(items[p].path, items[t].path);
  }

  lemma PathsAre(items: seq<Item>, t: nat)
    requires ItemsOk(items) && t < |items|
    ensures items[t].path != [] && items[t].parent == Interning.ParentPath(items[t].path)
  {
    assert ItemOk(items, t);
    ParentOfJoin(items[t].parent, items[t].name);
  }

  // ---------------------------------------------------------------- the directories

  /** The directories among the first k nodes. */
  function DirItems(items: seq<Item>, k: nat): (ds: seq<nat>)
    requires k <= |items|
    ensures forall t: nat {:trigger t in ds} :: t in ds <==> t < k && items[t].kind == Directory
    ensures forall i: nat {:trigger ds[i]} :: i < |ds| ==> ds[i] < k && items[ds[i]].kind == Directory
    ensures forall i: nat, j: nat :: i < j < |ds| ==> ds[i] < ds[j]
  {
    if k == 0 then []
    else if items[k - 1].kind == Directory then
      var front := DirItems(items, k - 1);
      assert forall i: nat :: i < |front| ==> front[i] in front;
      front + [k - 1]
    else DirItems(items, k - 1)
  }

  function NamesFor(items: seq<Item>, children: seq<nat>): seq<seq<byte>> {
    seq(|children|, k requires 0 <= k < |children| => if children[k] < |items| then items[children[k]].name else [])
  }

  function HashingFor(hash2: u32, d: DirPlan): Slice.Hashing {
    Slice.Hashing(if d.prime < 53 then PRIMES[d.prime] else 0, if d.dual then Some(hash2) else None)
  }

  /** The groups a directory's children were laid out in. */
  ghost function GroupsFor(items: seq<Item>, hash2: u32, d: DirPlan): Layout.Groups
    requires |d.slots| > 0
  {
    var names := NamesFor(items, d.children);
    Builder.Arranged(names, Loads.Assign(HashingFor(hash2, d), names, |d.slots|), |d.slots|)
  }

  /** The children are the directory's nodes, each once. */
  ghost predicate ChildrenOk(items: seq<Item>, path: seq<byte>, children: seq<nat>) {
    && Distinct(children)
    && forall t: nat {:trigger t in children} :: t in children <==> t < |items| && items[t].parent == path
  }

  /** A directory has exactly its nodes as children, and they are in the cells the builder gave them. */
  ghost predicate DirOk(items: seq<Item>, hash2: u32, d: DirPlan) {
    && ChildrenOk(items, d.path, d.children) && |d.children| <= |d.slots| <= MAX_TABLE && d.prime < 53
    && (|d.slots| > 0 ==> Layout.LaidOut(GroupsFor(items, hash2, d), d.slots))
  }

  /** The root first, then every directory in path order. */
  ghost predicate DirsListed(items: seq<Item>, dirs: seq<DirPlan>) {
    var ds := DirItems(items, |items|);
    && |dirs| == |ds| + 1 && dirs[0].path == [] && dirs[0].node == None
    && forall j: nat {:trigger dirs[j]} :: 0 < j < |dirs| ==>
         dirs[j].node == Some(ds[j - 1]) && dirs[j].path == items[ds[j - 1]].path
  }

  ghost predicate DirsOk(items: seq<Item>, hash2: u32, dirs: seq<DirPlan>) {
    DirsListed(items, dirs) && forall j: nat {:trigger dirs[j]} :: j < |dirs| ==> DirOk(items, hash2, dirs[j])
  }

  // ---------------------------------------------------------------- slices and attributes

  function Taken(slots: seq<Option<Layout.Slot>>): seq<bool> {
    seq(|slots|, i requires 0 <= i < |slots| => slots[i].Some?)
  }

  function Layouts(dirs: seq<DirPlan>): seq<Attributes.Layout> {
    seq(|dirs|, j requires 0 <= j < |dirs| => Attributes.Layout(dirs[j].first, Taken(dirs[j].slots)))
  }

  /** Where slices and attributes are. */
  ghost predicate PlacesOk(plan: Plan) {
    var l, n := Layouts(plan.dirs), |plan.items|;
    && Attributes.Laid(l, n) && |plan.attrCells| == |plan.attrs| && Distinct(plan.attrCells)
    && 0 < plan.cellCount <= MAX_CELLS
    && plan.cellCount == Attributes.Total(Attributes.Start(l, n), |plan.attrs|, Attributes.FreeTotal(l))
    && (forall a: nat {:trigger plan.attrCells[a]} :: a < |plan.attrCells| ==>
          plan.attrCells[a] in Attributes.AllFree(l) || Attributes.Start(l, n) <= plan.attrCells[a] < plan.cellCount)
  }

  lemma {:induction false} StartGrows(l: seq<Attributes.Layout>, n: nat, a: nat, b: nat)
    requires a <= b <= |l|
    ensures Attributes.Start(l[..a], n) <= Attributes.Start(l[..b], n)
    ensures a < b ==> Attributes.Start(l[..a], n) + |l[a].taken| <= Attributes.Start(l[..b], n)
    decreases b - a
  {
    if a < b {
      assert l[..b][..b - 1] == l[..b - 1];
      StartGrows(l, n, a, b - 1);
    }
  }

  lemma {:induction false} FreeWhere(l: seq<Attributes.Layout>, c: nat) returns (j: nat)
    requires c in Attributes.AllFree(l)
    ensures j < |l| && Attributes.IsFree(l[j], c)
  {
    var last := |l| - 1;
    if c in Attributes.AllFree(l[..last]) {
      j := FreeWhere(l[..last], c);
    } else {
      j := last;
    }
  }

  /** A slice lies between the objects and the end of the slices, before all later ones. */
  lemma SliceBounds(plan: Plan, j: nat, c: nat)
    requires PlacesOk(plan) && j < |plan.dirs| && InSlice(plan.dirs[j], c)
    ensures var l, n := Layouts(plan.dirs), |plan.items|;
            && n <= Attributes.Start(l[..j], n) <= c < Attributes.Start(l[..j + 1], n)
            && Attributes.Start(l[..j + 1], n) <= Attributes.Start(l, n) <= plan.cellCount
  {
    var l, n := Layouts(plan.dirs), |plan.items|;
    assert l[j].first == Attributes.Start(l[..j], n);
    assert l[..|l|] == l;
    StartGrows(l, n, j, j + 1);
    StartGrows(l, n, j + 1, |l|);
    assert l[..j + 1][..j] == l[..j];
  }

  lemma SlicesApart(plan: Plan, j: nat, k: nat, c: nat)
    requires PlacesOk(plan) && j < |plan.dirs| && k < |plan.dirs| && InSlice(plan.dirs[j], c)
    requires InSlice(plan.dirs[k], c)
    ensures j == k
  {
    SliceBounds(plan, j, c);
    SliceBounds(plan, k, c);
    if j < k {
      StartGrows(Layouts(plan.dirs), |plan.items|, j + 1, k);
    } else if k < j {
      StartGrows(Layouts(plan.dirs), |plan.items|, k + 1, j);
    }
  }

  /** An attribute is in a bucket no child took, or behind all slices. */
  lemma AttrWhere(plan: Plan, a: nat)
    requires PlacesOk(plan) && a < |plan.attrCells|
    ensures |plan.items| <= plan.attrCells[a] < plan.cellCount
    ensures forall j: nat {:trigger plan.dirs[j]} :: j < |plan.dirs| && InSlice(plan.dirs[j], plan.attrCells[a]) ==>
              plan.dirs[j].slots[plan.attrCells[a] - plan.dirs[j].first].None?
  {
    var l, n, c := Layouts(plan.dirs), |plan.items|, plan.attrCells[a];
    if c in Attributes.AllFree(l) {
      var k := FreeWhere(l, c);
      SliceBounds(plan, k, c);
      forall j: nat | j < |plan.dirs| && InSlice(plan.dirs[j], c)
        ensures plan.dirs[j].slots[c - plan.dirs[j].first].None?
      {
        SlicesApart(plan, j, k, c);
      }
    } else {
      forall j: nat | j < |plan.dirs|
        ensures !InSlice(plan.dirs[j], c)
      {
        if InSlice(plan.dirs[j], c) {
          SliceBounds(plan, j, c);
        }
      }
    }
  }

  lemma PlacesSpread(plan: Plan)
    requires PlacesOk(plan)
    ensures Spread(plan)
  {
    forall j: nat, c: nat {:trigger InSlice(plan.dirs[j], c)} | j < |plan.dirs| && InSlice(plan.dirs[j], c)
      ensures |plan.items| <= c < plan.cellCount
    {
      SliceBounds(plan, j, c);
    }
    forall j: nat, k: nat, c: nat {:trigger InSlice(plan.dirs[j], c), InSlice(plan.dirs[k], c)} | j < k < |plan.dirs|
      ensures !(InSlice(plan.dirs[j], c) && InSlice(plan.dirs[k], c))
    {
      if InSlice(plan.dirs[j], c) && InSlice(plan.dirs[k], c) {
        SlicesApart(plan, j, k, c);
      }
    }
    forall a: nat | a < |plan.attrCells|
      ensures |plan.items| <= plan.attrCells[a] < plan.cellCount
    {
      AttrWhere(plan, a);
    }
  }

  // ---------------------------------------------------------------- names and contents

  /** Objects other than hardlinks have their own attributes, each attribute is used, and none comes twice. */
  ghost predicate AttrsOk(plan: Plan) {
    && |plan.attrOf| == |plan.items| && Distinct(plan.attrs) && plan.rootAttr < |plan.attrs|
    && plan.attrs[plan.rootAttr].mode / 4096 == ModeBits(DIR)
    && (forall t: nat {:trigger plan.attrOf[t]} :: t < |plan.items| && plan.items[t].kind != Hardlink ==>
          plan.attrOf[t] < |plan.attrs| && plan.attrs[plan.attrOf[t]].mode == plan.items[t].mode)
    && (forall a: nat {:trigger plan.attrs[a]} :: a < |plan.attrs| ==> a == plan.rootAttr || AttrNeeded(plan, a))
  }

  ghost predicate AttrNeeded(plan: Plan, a: nat)
    requires |plan.attrOf| == |plan.items|
  {
    exists t: nat {:trigger plan.attrOf[t]} :: t < |plan.items| && plan.items[t].kind != Hardlink && plan.attrOf[t] == a
  }

  /** A second base is there exactly when a directory uses it. */
  ghost predicate BaseChosen(plan: Plan) {
    if exists j: nat {:trigger plan.dirs[j]} :: j < |plan.dirs| && plan.dirs[j].dual
    then 256 < plan.hash2 < 0x100_0000 && Primality.IsPrime(plan.hash2) else plan.hash2 == 0
  }

  function RootMode(plan: Plan): nat {
    if plan.rootAttr < |plan.attrs| then plan.attrs[plan.rootAttr].mode else 0
  }

  /** The blobs are those of the tree, and packed. */
  ghost predicate BlobsOk(plan: Plan, digest: seq<byte> -> nat) {
    && Interning.Unequal(plan.classes) && Interning.Sized(plan.classes)
    && Interning.Covers(plan.classes, Interning.Uses(plan.items, RootMode(plan), |plan.items|))
    && Interning.Placed(plan.items, |plan.items|, plan.classes, plan.nameBlobs, plan.contentBlobs)
    && Content.WellPacked(Agreement.BlobsOf(plan.classes, digest), plan.imageOff, plan.o, plan.cellCount)
  }

  /** What the passes before encoding deliver. */
  ghost predicate PlanOk(plan: Plan, digest: seq<byte> -> nat) {
    && ItemsOk(plan.items) && DirsOk(plan.items, plan.hash2, plan.dirs) && PlacesOk(plan) && AttrsOk(plan)
    && BaseChosen(plan) && BlobsOk(plan, digest)
  }

  /** Every index in the plan leads somewhere. */
  lemma PlanIndexed(plan: Plan, digest: seq<byte> -> nat)
    requires PlanOk(plan, digest)
    ensures Indexed(plan)
  {
    forall t: nat | t < |plan.items|
      ensures ItemIndexed(plan, t)
    {
      assert Interning.ClassIs(plan.classes, plan.nameBlobs[t], false, plan.items[t].name);
      assert plan.attrOf[t] == plan.attrOf[t];
    }
    forall j: nat, i: nat | j < |plan.dirs| && i < |plan.dirs[j].slots|
      ensures SlotIndexed(plan, plan.dirs[j], i)
    {
      if plan.dirs[j].slots[i].Some? {
        SlotOwner(plan, plan.dirs[j], i);
      }
    }
    Attributes.AllFreeSize(Layouts(plan.dirs), |plan.items|);
  }

  /** A slot holds one of the directory's children. */
  lemma SlotOwner(plan: Plan, d: DirPlan, i: nat)
    requires DirOk(plan.items, plan.hash2, d) && i < |d.slots| && d.slots[i].Some?
    ensures d.slots[i].value.child < |d.children| && d.slots[i].value.next <= |d.slots|
    ensures d.children[d.slots[i].value.child] < |plan.items|
  {
    var names, groups := NamesFor(plan.items, d.children), GroupsFor(plan.items, plan.hash2, d);
    var anchors := Loads.Assign(HashingFor(plan.hash2, d), names, |d.slots|);
    var a: nat, m: nat :| Layout.Member(groups, a, m) && Layout.Pos(groups, a, m) == i;
    Builder.ArrangedGrouped(names, anchors, |d.slots|);
    BuiltSlice.GroupMembers(groups, anchors, a);
    assert groups[a][m] in groups[a];
    assert m + 1 < |groups[a]| ==> Layout.Member(groups, a, m + 1);
    assert d.children[groups[a][m]] in d.children;
  }

  // ---------------------------------------------------------------- the image

  /** The image shows the plan: its cells are the encoded ones, its bytes hold the blobs. */
  ghost predicate Shows(plan: Plan, digest: seq<byte> -> nat, im: Image) {
    && PlanOk(plan, digest) && Indexed(plan) && Encoded(plan, im.cells)
    && im == ImageOf(plan, im.cells, im.bytes) && |im.bytes| == plan.o.imageSize
    && (forall b: nat {:trigger plan.imageOff[b]} :: b < |plan.classes| ==>
          Content.Written(im.bytes, plan.imageOff[b], Agreement.BlobsOf(plan.classes, digest)[b]))
  }

  /** Closed, see `Key`. */
  ghost predicate Made(plan: Plan, digest: seq<byte> -> nat, im: Image) {
    forall k: nat {:trigger Key(k)} :: Key(k) ==> Shows(plan, digest, im)
  }

  lemma OpenMade(plan: Plan, digest: seq<byte> -> nat, im: Image)
    requires Made(plan, digest, im)
    ensures Shows(plan, digest, im)
  {
    assert Key(0);
  }

  lemma PlanSizes(plan: Plan, digest: seq<byte> -> nat, im: Image)
    requires Made(plan, digest, im)
    ensures |im.cells| == plan.cellCount <= MAX_CELLS && |plan.items| < MAX_ENTRIES && |plan.items| <= plan.cellCount
    ensures plan.dirs != [] && HeaderOk(im)
    ensures |plan.items| == |plan.attrOf| == |plan.nameBlobs| == |plan.contentBlobs|
    ensures |plan.imageOff| == |plan.classes| && |plan.attrCells| == |plan.attrs|
  {
    OpenMade(plan, digest, im);
  }

  /** The number of a directory; the root's is the cell count. */
  function IdOf(plan: Plan, d: DirPlan): nat {
    if d.node.Some? then d.node.value else plan.cellCount
  }

  // ---------------------------------------------------------------- objects

  /** An object's attribute cell. */
  lemma AttrIs(plan: Plan, digest: seq<byte> -> nat, im: Image, a: nat)
    requires Made(plan, digest, im) && a < |plan.attrCells|
    ensures a < |plan.attrs| && plan.attrCells[a] < |im.cells| && im.cells[plan.attrCells[a]] == AttrCell(plan.attrs[a])
    ensures plan.attrCells[a] < 65536
  {
    OpenMade(plan, digest, im);
    AttrWhere(plan, a);
  }

  /** The record of a file, symlink, hardlink or fifo. */
  predicate PlainShown(plan: Plan, cell: Raw, t: nat)
    requires t < |plan.items| == |plan.attrOf| == |plan.contentBlobs| && |plan.imageOff| == |plan.classes|
  {
    var n := plan.items[t];
    && cell.tag == 0 && cell.w12 == 0
    && (n.kind == Fifo ==> cell.w4 == 0 && cell.w8 == 0)
    && (n.kind == Hardlink ==> cell.half == 0 && cell.w4 == n.canonical && cell.w8 == 0)
    && (n.kind == File || n.kind == Symlink ==>
          && plan.contentBlobs[t].Some? && plan.contentBlobs[t].value < |plan.classes|
          && cell.w4 == plan.imageOff[plan.contentBlobs[t].value]
          && cell.w8 == |plan.classes[plan.contentBlobs[t].value].bytes|)
  }

  lemma ObjectShown(plan: Plan, digest: seq<byte> -> nat, im: Image, t: nat)
    requires Made(plan, digest, im) && t < |plan.items|
    ensures Indexed(plan) && t < |im.cells| && ObjectCell(plan, t) == Some(im.cells[t]) && ItemIndexed(plan, t)
  {
    OpenMade(plan, digest, im);
  }

  lemma ObjectIs(plan: Plan, digest: seq<byte> -> nat, im: Image, t: nat)
    requires Made(plan, digest, im) && t < |plan.items|
    ensures t < |im.cells| && t < |plan.attrOf| && im.cells[t].kind == KindByte(plan.items[t].kind)
    ensures plan.items[t].kind != Hardlink ==>
              plan.attrOf[t] < |plan.attrCells| && im.cells[t].half == plan.attrCells[plan.attrOf[t]]
  {
    ObjectShown(plan, digest, im, t);
    if plan.items[t].kind != Hardlink {
      AttrIs(plan, digest, im, plan.attrOf[t]);
    }
  }

  lemma PlainIs(plan: Plan, digest: seq<byte> -> nat, im: Image, t: nat)
    requires Made(plan, digest, im) && t < |plan.items| && plan.items[t].kind != Directory
    ensures t < |im.cells| && |plan.items| == |plan.attrOf| == |plan.contentBlobs| && |plan.imageOff| == |plan.classes|
    ensures PlainShown(plan, im.cells[t], t)
  {
    ObjectShown(plan, digest, im, t);
    if plan.items[t].kind == Hardlink {
      LinkSmall(plan, digest, im, t);
    } else if plan.items[t].kind != Fifo {
      BlobSmall(plan, digest, im, plan.contentBlobs[t].value);
    }
  }

  lemma LinkSmall(plan: Plan, digest: seq<byte> -> nat, im: Image, t: nat)
    requires Made(plan, digest, im) && t < |plan.items| && plan.items[t].kind == Hardlink
    ensures plan.items[t].canonical < |plan.items| < U32 && plan.items[plan.items[t].canonical].kind == File
  {
    OpenMade(plan, digest, im);
    assert ItemOk(plan.items, t);
  }

  /** A blob's place and size are 32-bit numbers. */
  lemma BlobSmall(plan: Plan, digest: seq<byte> -> nat, im: Image, b: nat)
    requires Made(plan, digest, im) && b < |plan.classes|
    ensures b < |plan.imageOff| && plan.imageOff[b] + |plan.classes[b].bytes| < U32
    ensures Content.Written(im.bytes, plan.imageOff[b], Agreement.BlobsOf(plan.classes, digest)[b])
    ensures Packing.Storable(Agreement.BlobsOf(plan.classes, digest)[b])
  {
    OpenMade(plan, digest, im);
    assert plan.classes[b] == plan.classes[b];
    assert Content.Written(im.bytes, plan.imageOff[b], Agreement.BlobsOf(plan.classes, digest)[b]);
  }

  /** The object's attributes are of its type. */
  lemma AttrFits(plan: Plan, digest: seq<byte> -> nat, im: Image, t: nat)
    requires Made(plan, digest, im) && t < |plan.items| && plan.items[t].kind != Hardlink
    ensures t < |im.cells| && AttrForm(im, im.cells[t].kind, im.cells[t].half)
    ensures im.cells[im.cells[t].half].half == plan.items[t].mode
  {
    ObjectIs(plan, digest, im, t);
    AttrIs(plan, digest, im, plan.attrOf[t]);
    ItemAttr(plan, digest, im, t);
  }

  /** Which attributes those are: mode, owner and group of the object's key. */
  lemma KeyStored(plan: Plan, digest: seq<byte> -> nat, im: Image, t: nat)
    requires Made(plan, digest, im) && t < |plan.items| && plan.items[t].kind != Hardlink
    ensures t < |im.cells| && im.cells[t].half < |im.cells| && t < |plan.attrOf| && plan.attrOf[t] < |plan.attrs|
    ensures var c, key := im.cells[im.cells[t].half], plan.attrs[plan.attrOf[t]];
            c.half == key.mode && c.w4 == key.uid && c.w8 == key.gid
  {
    ObjectIs(plan, digest, im, t);
    AttrIs(plan, digest, im, plan.attrOf[t]);
  }

  lemma RootKeyStored(plan: Plan, digest: seq<byte> -> nat, im: Image)
    requires Made(plan, digest, im)
    ensures im.rootAttr < |im.cells| && plan.rootAttr < |plan.attrs|
    ensures var c, key := im.cells[im.rootAttr], plan.attrs[plan.rootAttr];
            c.half == key.mode && c.w4 == key.uid && c.w8 == key.gid
  {
    OpenMade(plan, digest, im);
    AttrIs(plan, digest, im, plan.rootAttr);
  }

  lemma ItemAttr(plan: Plan, digest: seq<byte> -> nat, im: Image, t: nat)
    requires Made(plan, digest, im) && t < |plan.items| && plan.items[t].kind != Hardlink
    ensures t < |plan.attrOf| && plan.attrOf[t] < |plan.attrs| && plan.attrs[plan.attrOf[t]].mode == plan.items[t].mode
    ensures plan.items[t].mode / 4096 == ModeBits(KindByte(plan.items[t].kind))
  {
    OpenMade(plan, digest, im);
    assert ItemOk(plan.items, t);
    assert plan.attrOf[t] == plan.attrOf[t];
  }
}
