/** The cells a plan is encoded to form a tree that the decoder accepts (programs/makefemtofs.cpp:1754-1912;
    ko/image.c:86-115, 189-248). */
module BuiltTree {
  import opened Format
  import opened Counting
  import opened Paths
  import opened ImageTree
  import opened Encoding
  import opened BuiltPlan
  import Slice
  import Loads
  import Layout
  import Builder
  import BuiltSlice
  import Directory
  import Interning
  import Content
  import Agreement

  // ---------------------------------------------------------------- directories

  lemma DirNode(plan: Plan, digest: seq<byte> -> nat, im: Image, j: nat)
    requires Made(plan, digest, im) && j < |plan.dirs|
    ensures var d := plan.dirs[j];
            && DirOk(plan.items, plan.hash2, d)
            && if j == 0 then d.path == [] && d.node == None
               else d.path != [] && d.node.Some? && d.node.value < |plan.items| &&
                    plan.items[d.node.value].kind == Directory && plan.items[d.node.value].path == d.path
  {
    OpenMade(plan, digest, im);
    if j > 0 {
      PathsAre(plan.items, plan.dirs[j].node.value);
    }
  }

  lemma DirUnique(plan: Plan, digest: seq<byte> -> nat, im: Image, j: nat, k: nat)
    requires Made(plan, digest, im) && j < |plan.dirs| && k < |plan.dirs|
    requires plan.dirs[j].path == plan.dirs[k].path || plan.dirs[j].node == plan.dirs[k].node
    ensures j == k
  {
    DirNode(plan, digest, im, j);
    DirNode(plan, digest, im, k);
    OpenMade(plan, digest, im);
    if j > 0 && k > 0 {
      PathsDiffer(plan.items, plan.dirs[j].node.value, plan.dirs[k].node.value);
    }
  }

  lemma DirOfItem(plan: Plan, digest: seq<byte> -> nat, im: Image, t: nat) returns (j: nat)
    requires Made(plan, digest, im) && t < |plan.items| && plan.items[t].kind == Directory
    ensures 0 < j < |plan.dirs| && plan.dirs[j].node == Some(t) && plan.dirs[j].path == plan.items[t].path
  {
    OpenMade(plan, digest, im);
    var ds := DirItems(plan.items, |plan.items|);
    assert t in ds;
    var i: nat :| i < |ds| && ds[i] == t;
    j := i + 1;
  }

  /** The directory a node is in; unless that is the root its object comes first. */
  lemma ParentDir(plan: Plan, digest: seq<byte> -> nat, im: Image, t: nat) returns (j: nat)
    requires Made(plan, digest, im) && t < |plan.items|
    ensures j < |plan.dirs| && plan.dirs[j].path == plan.items[t].parent && t in plan.dirs[j].children
    ensures j > 0 ==> plan.dirs[j].node.Some? && plan.dirs[j].node.value < t
  {
    OpenMade(plan, digest, im);
    if plan.items[t].parent == [] {
      j := 0;
    } else {
      var p := ParentFirst(plan.items, t);
      j := DirOfItem(plan, digest, im, p);
    }
    DirNode(plan, digest, im, j);
  }

  lemma DirSizes(plan: Plan, digest: seq<byte> -> nat, im: Image, j: nat)
    requires Made(plan, digest, im) && j < |plan.dirs|
    ensures var d := plan.dirs[j];
            && |d.children| <= |plan.items| && |d.children| < MAX_ENTRIES && d.first + |d.slots| <= plan.cellCount
            && (d.slots == [] ==> d.first == 0)
  {
    OpenMade(plan, digest, im);
    var d := plan.dirs[j];
    assert DirOk(plan.items, plan.hash2, d);
    forall k: nat | k < |d.children|
      ensures d.children[k] < |plan.items|
    {
      assert d.children[k] in d.children;
    }
    Pigeonhole(d.children, |plan.items|);
    if d.slots == [] {
      assert Layouts(plan.dirs)[j].taken == [];
    } else {
      SliceBounds(plan, j, d.first + |d.slots| - 1);
    }
  }

  /** What the decoder reads as a directory's record, in the header for the root and in its cell otherwise. */
  lemma DirShown(plan: Plan, digest: seq<byte> -> nat, im: Image, j: nat)
    requires Made(plan, digest, im) && j < |plan.dirs|
    ensures var d := plan.dirs[j];
            && IdOf(plan, d) <= |im.cells| && (IdOf(plan, d) == |im.cells| <==> j == 0)
            && DirOf(im, IdOf(plan, d)) == Dir(d.first, |d.slots|, |d.children|, HashByte(d))
  {
    PlanSizes(plan, digest, im);
    DirNode(plan, digest, im, j);
    if j == 0 {
      OpenMade(plan, digest, im);
    } else {
      var t := plan.dirs[j].node.value;
      ObjectShown(plan, digest, im, t);
      DirSizes(plan, digest, im, j);
      DirRecord(plan, digest, im, j, t);
    }
  }

  lemma DirRecord(plan: Plan, digest: seq<byte> -> nat, im: Image, j: nat, t: nat)
    requires Made(plan, digest, im) && j < |plan.dirs| && t < |plan.items| && t < |im.cells|
    requires plan.dirs[j].node == Some(t) && plan.items[t].kind == Directory
    ensures var d, o, k := plan.dirs[j], im.cells[t], ParentIndex(plan, t);
            && k.Some? && o.tag == HashByte(d) && o.w4 == d.first && o.w8 == |d.slots|
            && o.w12 == k.value % 65536 + 65536 * |d.children|
  {
    ObjectShown(plan, digest, im, t);
    DirSizes(plan, digest, im, j);
    PlanSizes(plan, digest, im);
    var i := DirectoryFor(plan.dirs, t);
    if i.Some? {
      DirUnique(plan, digest, im, i.value, j);
    }
  }

  /** What a directory's record says of its parent. */
  function ParentIndex(plan: Plan, t: nat): Option<nat>
    requires t < |plan.items|
  {
    if plan.items[t].parent == [] then Some(IN_ROOT) else ItemAt(plan.items, plan.items[t].parent)
  }

  lemma DirFormed(plan: Plan, digest: seq<byte> -> nat, im: Image, j: nat)
    requires Made(plan, digest, im) && j < |plan.dirs|
    ensures HeaderOk(im) && DirForm(im, IdOf(plan, plan.dirs[j]))
    ensures HashingOf(im, IdOf(plan, plan.dirs[j])) == HashingFor(plan.hash2, plan.dirs[j])
  {
    DirShown(plan, digest, im, j);
    DirSizes(plan, digest, im, j);
    DirBounds(plan, digest, im, j);
    PlanSizes(plan, digest, im);
    SameBase(plan, digest, im);
    HashShown(plan.dirs[j]);
  }

  lemma HashShown(d: DirPlan)
    requires d.prime < 53
    ensures HashByte(d) / 64 == (if d.dual then 1 else 0) && HashByte(d) % 64 == d.prime
  {
  }

  lemma DirBounds(plan: Plan, digest: seq<byte> -> nat, im: Image, j: nat)
    requires Made(plan, digest, im) && j < |plan.dirs|
    ensures var d := plan.dirs[j]; d.prime < 53 && |d.children| <= |d.slots| <= MAX_TABLE
  {
    DirNode(plan, digest, im, j);
  }

  lemma SameBase(plan: Plan, digest: seq<byte> -> nat, im: Image)
    requires Made(plan, digest, im)
    ensures im.hash2 == plan.hash2
  {
    OpenMade(plan, digest, im);
  }

  // ---------------------------------------------------------------- names

  lemma {:induction false} NulFound(bytes: seq<byte>, off: nat, n: nat, k: nat)
    requires off + n <= |bytes| && k < n && bytes[off + k] == 0 && 0 !in bytes[off..off + k]
    ensures NulWithin(bytes, off, n) == Some(k)
  {
    if k < n - 1 {
      NulFound(bytes, off, n - 1, k);
    }
  }

  /** A name's blob reads back as the name. */
  lemma NameHeld(plan: Plan, digest: seq<byte> -> nat, im: Image, t: nat)
    requires Made(plan, digest, im) && t < |plan.items|
    ensures t < |plan.nameBlobs| && plan.nameBlobs[t] < |plan.imageOff| && plan.imageOff[plan.nameBlobs[t]] < U32
    ensures HeaderOk(im)
    ensures NameAt(im, plan.imageOff[plan.nameBlobs[t]]) == Some(plan.items[t].name)
    ensures BlobFits(im, plan.imageOff[plan.nameBlobs[t]], |plan.items[t].name|, false)
  {
    PlanSizes(plan, digest, im);
    NameBlob(plan, digest, im, t);
    var b := plan.nameBlobs[t];
    BlobSmall(plan, digest, im, b);
    var off, name := plan.imageOff[b], plan.items[t].name;
    BlobReads(plan, digest, im, b, false);
    NameReads(im, off, name);
  }

  lemma NameReads(im: Image, off: nat, name: seq<byte>)
    requires HeaderOk(im) && NameOk(name) && BlobFits(im, off, |name|, false)
    requires off + |name| <= |im.bytes| && im.bytes[off..off + |name|] == name
    ensures NameAt(im, off) == Some(name)
  {
    BlobEnds(im, off, |name|);
    NameFound(im, off, name);
  }

  lemma NameFound(im: Image, off: nat, name: seq<byte>)
    requires HeaderOk(im) && NameOk(name) && im.publicOff <= off && off + |name| < PartEnd(im, off) <= |im.bytes|
    requires im.bytes[off..off + |name|] == name && im.bytes[off + |name|] == 0
    ensures NameAt(im, off) == Some(name)
  {
    var end := PartEnd(im, off);
    NulFound(im.bytes, off, if end - off < 256 then end - off else 256, |name|);
  }

  /** The end of the part that an offset is in. */
  function PartEnd(im: Image, off: nat): nat {
    if off < im.privateOff then im.privateOff else |im.bytes|
  }

  /** A zero follows a blob in its part. */
  lemma BlobEnds(im: Image, off: nat, size: nat)
    requires HeaderOk(im) && BlobFits(im, off, size, false)
    ensures im.publicOff <= off && off + size < PartEnd(im, off) <= |im.bytes| && im.bytes[off + size] == 0
  {
  }

  /** The decoder's test of content passes on every blob. */
  lemma BlobReads(plan: Plan, digest: seq<byte> -> nat, im: Image, b: nat, symlink: bool)
    requires Made(plan, digest, im) && b < |plan.classes|
    requires symlink ==> plan.classes[b].symlink && 0 !in plan.classes[b].bytes && !plan.classes[b].publicPart
    ensures HeaderOk(im) && b < |plan.imageOff| && BlobFits(im, plan.imageOff[b], |plan.classes[b].bytes|, symlink)
  {
    PlanSizes(plan, digest, im);
    BlobSmall(plan, digest, im, b);
    OpenMade(plan, digest, im);
    Content.PackedFits(Agreement.BlobsOf(plan.classes, digest), plan.imageOff, plan.o, plan.cellCount, im, b, symlink);
  }

  lemma NameBlob(plan: Plan, digest: seq<byte> -> nat, im: Image, t: nat)
    requires Made(plan, digest, im) && t < |plan.items|
    ensures NameOk(plan.items[t].name) && t < |plan.nameBlobs| && plan.nameBlobs[t] < |plan.classes| == |plan.imageOff|
    ensures Interning.Same(plan.classes[plan.nameBlobs[t]], false, plan.items[t].name)
  {
    OpenMade(plan, digest, im);
    assert ItemOk(plan.items, t);
    assert Interning.ClassIs(plan.classes, plan.nameBlobs[t], false, plan.items[t].name);
  }

  // ---------------------------------------------------------------- slices

  /** A cell of a slice holds an attribute that took a free bucket, or what the directory has there. */
  lemma CellIs(plan: Plan, digest: seq<byte> -> nat, im: Image, j: nat, c: nat)
    requires Made(plan, digest, im) && j < |plan.dirs| && InSlice(plan.dirs[j], c)
    ensures Indexed(plan) && c < |im.cells|
    ensures if c in plan.attrCells then im.cells[c].kind == ATTR && plan.dirs[j].slots[c - plan.dirs[j].first].None?
            else SlotShown(plan, plan.dirs[j], im.cells[c], c)
  {
    DirSizes(plan, digest, im, j);
    PlanSizes(plan, digest, im);
    if c in plan.attrCells {
      var a: nat :| a < |plan.attrCells| && plan.attrCells[a] == c;
      AttrIs(plan, digest, im, a);
      AttrFree(plan, digest, im, a, j);
    }
    SlotIs(plan, digest, im, j, c);
  }

  lemma AttrFree(plan: Plan, digest: seq<byte> -> nat, im: Image, a: nat, j: nat)
    requires Made(plan, digest, im) && a < |plan.attrCells| && j < |plan.dirs|
    requires InSlice(plan.dirs[j], plan.attrCells[a])
    ensures plan.dirs[j].slots[plan.attrCells[a] - plan.dirs[j].first].None?
  {
    OpenMade(plan, digest, im);
    AttrWhere(plan, a);
  }

  lemma SlotIs(plan: Plan, digest: seq<byte> -> nat, im: Image, j: nat, c: nat)
    requires Made(plan, digest, im) && j < |plan.dirs| && InSlice(plan.dirs[j], c) && c < |im.cells|
    ensures Indexed(plan) && (c !in plan.attrCells ==> SlotShown(plan, plan.dirs[j], im.cells[c], c))
  {
    OpenMade(plan, digest, im);
  }

  /** The child a slot holds. */
  lemma ChildOf(plan: Plan, digest: seq<byte> -> nat, im: Image, j: nat, i: nat) returns (t: nat)
    requires Made(plan, digest, im) && j < |plan.dirs| && i < |plan.dirs[j].slots| && plan.dirs[j].slots[i].Some?
    ensures var d := plan.dirs[j];
            && d.slots[i].value.child < |d.children| && d.children[d.slots[i].value.child] == t
            && t < |plan.items| && plan.items[t].parent == d.path && d.slots[i].value.next <= |d.slots| <= MAX_TABLE
  {
    var d := plan.dirs[j];
    DirNode(plan, digest, im, j);
    SlotOwner(plan, d, i);
    t := d.children[d.slots[i].value.child];
    assert t in d.children;
  }

  /** A taken slot's cell is a bucket for its child. */
  predicate BucketShown(plan: Plan, cell: Raw, t: nat, next: nat)
    requires t < |plan.items| == |plan.nameBlobs| && |plan.imageOff| == |plan.classes|
    requires plan.nameBlobs[t] < |plan.classes|
  {
    && cell.kind == KindByte(plan.items[t].kind) && cell.tag == 0 && cell.half == 0
    && cell.w4 == t && cell.w8 == plan.imageOff[plan.nameBlobs[t]] && cell.w12 == next
  }

  lemma BucketIs(plan: Plan, digest: seq<byte> -> nat, im: Image, j: nat, c: nat) returns (t: nat)
    requires Made(plan, digest, im) && j < |plan.dirs| && InSlice(plan.dirs[j], c)
    requires plan.dirs[j].slots[c - plan.dirs[j].first].Some?
    ensures c < |im.cells| && t < |plan.items| == |plan.nameBlobs| && |plan.imageOff| == |plan.classes|
    ensures plan.items[t].parent == plan.dirs[j].path
    ensures var slot := plan.dirs[j].slots[c - plan.dirs[j].first].value;
            && slot.child < |plan.dirs[j].children| && plan.dirs[j].children[slot.child] == t
            && plan.nameBlobs[t] < |plan.classes| && BucketShown(plan, im.cells[c], t, slot.next)
  {
    CellIs(plan, digest, im, j, c);
    t := ChildOf(plan, digest, im, j, c - plan.dirs[j].first);
    NameHeld(plan, digest, im, t);
    PlanSizes(plan, digest, im);
    NameBlob(plan, digest, im, t);
  }

  /** And only those are buckets. */
  lemma BucketHasSlot(plan: Plan, digest: seq<byte> -> nat, im: Image, j: nat, c: nat)
    requires Made(plan, digest, im) && j < |plan.dirs| && InSlice(plan.dirs[j], c) && IsBucket(im, c)
    ensures plan.dirs[j].slots[c - plan.dirs[j].first].Some?
  {
    CellIs(plan, digest, im, j, c);
  }

  // ---------------------------------------------------------------- form of the cells

  lemma ParentShown(plan: Plan, digest: seq<byte> -> nat, im: Image, j: nat, t: nat)
    requires Made(plan, digest, im) && j < |plan.dirs| && t < |plan.items| && plan.items[t].parent == plan.dirs[j].path
    ensures var id := IdOf(plan, plan.dirs[j]);
            ParentIndex(plan, t).Some? && ParentIndex(plan, t).value % 65536 == if id == |im.cells| then 65535 else id
  {
    DirNode(plan, digest, im, j);
    DirShown(plan, digest, im, j);
    PlanSizes(plan, digest, im);
    if j > 0 {
      ItemFound(plan, digest, im, plan.dirs[j].node.value);
    }
  }

  /** Searching by path finds the one node that has it. */
  lemma ItemFound(plan: Plan, digest: seq<byte> -> nat, im: Image, t: nat)
    requires Made(plan, digest, im) && t < |plan.items|
    ensures ItemAt(plan.items, plan.items[t].path) == Some(t)
  {
    OpenMade(plan, digest, im);
    var p := ItemAt(plan.items, plan.items[t].path);
    assert p.Some?;
    PathsDiffer(plan.items, p.value, t);
  }

  lemma ObjectFits(plan: Plan, digest: seq<byte> -> nat, im: Image, j: nat, t: nat)
    requires Made(plan, digest, im) && j < |plan.dirs| && t < |plan.items| && plan.items[t].parent == plan.dirs[j].path
    ensures t < |im.cells| && ObjectForm(im, IdOf(plan, plan.dirs[j]), KindByte(plan.items[t].kind), t)
  {
    ObjectIs(plan, digest, im, t);
    if plan.items[t].kind != Hardlink {
      AttrFits(plan, digest, im, t);
    }
    if plan.items[t].kind == Directory {
      ParentShown(plan, digest, im, j, t);
      var k := DirOfItem(plan, digest, im, t);
      DirRecord(plan, digest, im, k, t);
      DirSizes(plan, digest, im, k);
    } else {
      PlainIs(plan, digest, im, t);
    }
  }

  lemma CellFits(plan: Plan, digest: seq<byte> -> nat, im: Image, j: nat, c: nat)
    requires Made(plan, digest, im) && j < |plan.dirs| && InSlice(plan.dirs[j], c)
    ensures HeaderOk(im) && c < |im.cells| && CellForm(im, IdOf(plan, plan.dirs[j]), c)
  {
    CellIs(plan, digest, im, j, c);
    if plan.dirs[j].slots[c - plan.dirs[j].first].Some? {
      BucketFits(plan, digest, im, j, c);
    } else {
      EmptyFits(plan, digest, im, j, c);
    }
  }

  lemma BucketFits(plan: Plan, digest: seq<byte> -> nat, im: Image, j: nat, c: nat)
    requires Made(plan, digest, im) && j < |plan.dirs| && InSlice(plan.dirs[j], c)
    requires plan.dirs[j].slots[c - plan.dirs[j].first].Some?
    ensures HeaderOk(im) && c < |im.cells| && BucketForm(im, IdOf(plan, plan.dirs[j]), c)
  {
    var t := BucketIs(plan, digest, im, j, c);
    ObjectFits(plan, digest, im, j, t);
    NameHeld(plan, digest, im, t);
  }

  lemma EmptyFits(plan: Plan, digest: seq<byte> -> nat, im: Image, j: nat, c: nat)
    requires Made(plan, digest, im) && j < |plan.dirs| && InSlice(plan.dirs[j], c)
    requires plan.dirs[j].slots[c - plan.dirs[j].first].None?
    ensures HeaderOk(im) && c < |im.cells| && CellForm(im, IdOf(plan, plan.dirs[j]), c)
  {
    PlanSizes(plan, digest, im);
    CellIs(plan, digest, im, j, c);
    DirShown(plan, digest, im, j);
    DirBounds(plan, digest, im, j);
  }

  // ---------------------------------------------------------------- what the decoder sees of a slice

  function Id(plan: Plan, j: nat): nat
    requires j < |plan.dirs|
  {
    IdOf(plan, plan.dirs[j])
  }

  lemma InShown(plan: Plan, digest: seq<byte> -> nat, im: Image, j: nat, c: nat)
    requires Made(plan, digest, im) && j < |plan.dirs|
    ensures In(im, Id(plan, j), c) <==> InSlice(plan.dirs[j], c)
  {
    DirShown(plan, digest, im, j);
  }

  /** What a slot looks like to the decoder. */
  predicate SlotView(plan: Plan, d: DirPlan, i: nat, cell: Slice.Cell)
    requires i < |d.slots|
  {
    var slot := d.slots[i];
    if slot.None? then !cell.Bucket?
    else
      && slot.value.child < |d.children| && d.children[slot.value.child] < |plan.items|
      && cell == Slice.Bucket(plan.items[d.children[slot.value.child]].name, d.children[slot.value.child],
                              slot.value.next)
  }

  lemma ViewIs(plan: Plan, digest: seq<byte> -> nat, im: Image, j: nat, c: nat)
    requires Made(plan, digest, im) && j < |plan.dirs| && InSlice(plan.dirs[j], c)
    ensures HeaderOk(im) && c < |im.cells|
    ensures SlotView(plan, plan.dirs[j], c - plan.dirs[j].first, CellView(im, c))
  {
    PlanSizes(plan, digest, im);
    CellIs(plan, digest, im, j, c);
    if plan.dirs[j].slots[c - plan.dirs[j].first].Some? {
      var t := BucketIs(plan, digest, im, j, c);
      NameHeld(plan, digest, im, t);
    }
  }

  lemma SliceShown(plan: Plan, digest: seq<byte> -> nat, im: Image, j: nat)
    requires Made(plan, digest, im) && j < |plan.dirs|
    ensures HeaderOk(im) && DirForm(im, Id(plan, j))
    ensures var d := plan.dirs[j];
            BuiltSlice.Written(SliceOf(im, Id(plan, j)), d.slots, NamesFor(plan.items, d.children), d.children)
  {
    DirFormed(plan, digest, im, j);
    DirShown(plan, digest, im, j);
    var d, s := plan.dirs[j], SliceOf(im, Id(plan, j));
    forall i: nat | i < |d.slots|
      ensures SlotView(plan, d, i, s[i])
    {
      PlaceShown(plan, digest, im, j, i);
    }
    WrittenAs(plan, d, s);
  }

  lemma PlaceShown(plan: Plan, digest: seq<byte> -> nat, im: Image, j: nat, i: nat)
    requires Made(plan, digest, im) && j < |plan.dirs| && i < |plan.dirs[j].slots|
    requires HeaderOk(im) && DirForm(im, Id(plan, j))
    ensures i < |SliceOf(im, Id(plan, j))| && SlotView(plan, plan.dirs[j], i, SliceOf(im, Id(plan, j))[i])
  {
    var d := plan.dirs[j];
    DirShown(plan, digest, im, j);
    assert InSlice(d, d.first + i);
    ViewIs(plan, digest, im, j, d.first + i);
    assert SliceOf(im, Id(plan, j))[i] == CellView(im, d.first + i);
  }

  lemma WrittenAs(plan: Plan, d: DirPlan, s: seq<Slice.Cell>)
    requires |s| == |d.slots| && forall i: nat {:trigger s[i]} :: i < |s| ==> SlotView(plan, d, i, s[i])
    ensures BuiltSlice.Written(s, d.slots, NamesFor(plan.items, d.children), d.children)
  {
    forall i: nat | i < |s|
      ensures SlotView(plan, d, i, s[i])
    {
      assert s[i] == s[i];
    }
  }

  /** A directory with a table is a built slice. */
  lemma SliceBuilt(plan: Plan, digest: seq<byte> -> nat, im: Image, j: nat)
    requires Made(plan, digest, im) && j < |plan.dirs| && |plan.dirs[j].slots| > 0
    ensures HeaderOk(im) && DirForm(im, Id(plan, j))
    ensures var d := plan.dirs[j];
            BuiltSlice.Built(HashingFor(plan.hash2, d), NamesFor(plan.items, d.children), d.children,
                             GroupsFor(plan.items, plan.hash2, d), SliceOf(im, Id(plan, j)))
  {
    SliceShown(plan, digest, im, j);
    DirNode(plan, digest, im, j);
    var d := plan.dirs[j];
    var names := NamesFor(plan.items, d.children);
    var anchors := Loads.Assign(HashingFor(plan.hash2, d), names, |d.slots|);
    Builder.ArrangedGrouped(names, anchors, |d.slots|);
    Layout.Room(GroupsFor(plan.items, plan.hash2, d), anchors);
  }

  /** Children of one directory have different names. */
  lemma NamesDiffer(plan: Plan, digest: seq<byte> -> nat, im: Image, j: nat)
    requires Made(plan, digest, im) && j < |plan.dirs|
    ensures Distinct(NamesFor(plan.items, plan.dirs[j].children))
  {
    var d := plan.dirs[j];
    var names := NamesFor(plan.items, d.children);
    DirNode(plan, digest, im, j);
    forall a: nat, b: nat | a < b < |names|
      ensures names[a] != names[b]
    {
      assert d.children[a] in d.children && d.children[b] in d.children;
      if names[a] == names[b] {
        SameName(plan, digest, im, d.children[a], d.children[b]);
      }
    }
  }

  lemma SameName(plan: Plan, digest: seq<byte> -> nat, im: Image, t: nat, u: nat)
    requires Made(plan, digest, im) && t < |plan.items| && u < |plan.items|
    requires plan.items[t].parent == plan.items[u].parent && plan.items[t].name == plan.items[u].name
    ensures t == u
  {
    OpenMade(plan, digest, im);
    assert ItemOk(plan.items, t) && ItemOk(plan.items, u);
    PathsDiffer(plan.items, t, u);
  }

  lemma DirIsGood(plan: Plan, digest: seq<byte> -> nat, im: Image, j: nat)
    requires Made(plan, digest, im) && j < |plan.dirs|
    ensures HeaderOk(im) && DirGood(im, Id(plan, j))
  {
    DirFormed(plan, digest, im, j);
    DirShown(plan, digest, im, j);
    var d, s, id := plan.dirs[j], SliceOf(im, Id(plan, j)), Id(plan, j);
    forall c: nat | In(im, id, c)
      ensures c < |im.cells| && CellForm(im, id, c)
    {
      CellFits(plan, digest, im, j, c);
    }
    if |d.slots| > 0 {
      SliceBuilt(plan, digest, im, j);
      NamesDiffer(plan, digest, im, j);
      var h, names := HashingFor(plan.hash2, d), NamesFor(plan.items, d.children);
      var groups := GroupsFor(plan.items, plan.hash2, d);
      BuiltSlice.BuiltWellChained(h, names, d.children, groups, s);
      BuiltSlice.BuiltCount(h, names, d.children, groups, s);
    } else {
      DirBounds(plan, digest, im, j);
      assert Slice.OccupiedSet(s) == {};
    }
  }

  // ---------------------------------------------------------------- children

  /** Every node has its bucket in the directory it belongs to. */
  lemma ChildBucket(plan: Plan, digest: seq<byte> -> nat, im: Image, j: nat, t: nat) returns (c: nat)
    requires Made(plan, digest, im) && j < |plan.dirs| && t < |plan.items| && plan.items[t].parent == plan.dirs[j].path
    ensures IsChild(im, Id(plan, j), c, t) && im.cells[c].kind == KindByte(plan.items[t].kind)
  {
    var i := ChildCell(plan, digest, im, j, t);
    c := ViewAt(im, Id(plan, j), i);
    InShown(plan, digest, im, j, c);
    BucketHasSlot(plan, digest, im, j, c);
    var u := BucketIs(plan, digest, im, j, c);
  }

  lemma ChildCell(plan: Plan, digest: seq<byte> -> nat, im: Image, j: nat, t: nat) returns (i: nat)
    requires Made(plan, digest, im) && j < |plan.dirs| && t < |plan.items| && plan.items[t].parent == plan.dirs[j].path
    ensures HeaderOk(im) && DirForm(im, Id(plan, j))
    ensures Slice.Occupied(SliceOf(im, Id(plan, j)), i) && SliceOf(im, Id(plan, j))[i].target == t
  {
    var d := plan.dirs[j];
    DirNode(plan, digest, im, j);
    assert t in d.children;
    var m: nat :| m < |d.children| && d.children[m] == t;
    SliceBuilt(plan, digest, im, j);
    i := BuiltSlice.CellOfChild(HashingFor(plan.hash2, d), NamesFor(plan.items, d.children), d.children,
                                GroupsFor(plan.items, plan.hash2, d), SliceOf(im, Id(plan, j)), m);
  }

  /** The cell that an occupied place of a slice stands for. */
  lemma ViewAt(im: Image, id: nat, i: nat) returns (c: nat)
    requires HeaderOk(im) && DirForm(im, id) && Slice.Occupied(SliceOf(im, id), i)
    ensures c == DirOf(im, id).off + i && In(im, id, c) && IsBucket(im, c)
    ensures im.cells[c].w4 == SliceOf(im, id)[i].target
  {
    c := DirOf(im, id).off + i;
    assert SliceOf(im, id)[i] == CellView(im, c);
  }

  /** And the place in the slice of a bucket. */
  lemma PlaceOf(im: Image, id: nat, c: nat) returns (i: nat)
    requires HeaderOk(im) && DirForm(im, id) && In(im, id, c) && IsBucket(im, c) && NameAt(im, im.cells[c].w8).Some?
    ensures c == DirOf(im, id).off + i && Slice.Occupied(SliceOf(im, id), i)
    ensures SliceOf(im, id)[i] == Slice.Bucket(NameAt(im, im.cells[c].w8).value, im.cells[c].w4, im.cells[c].w12)
  {
    i := c - DirOf(im, id).off;
    assert SliceOf(im, id)[i] == CellView(im, c);
  }

  /** And every bucket is that of a node of its directory. */
  lemma ChildIs(plan: Plan, digest: seq<byte> -> nat, im: Image, j: nat, c: nat, t: nat)
    requires Made(plan, digest, im) && j < |plan.dirs| && IsChild(im, Id(plan, j), c, t)
    ensures c < |im.cells| && t < |plan.items| == |plan.nameBlobs| && plan.nameBlobs[t] < |plan.imageOff|
    ensures plan.items[t].parent == plan.dirs[j].path && im.cells[c].kind == KindByte(plan.items[t].kind)
    ensures HeaderOk(im) && im.cells[c].w8 == plan.imageOff[plan.nameBlobs[t]]
    ensures NameAt(im, im.cells[c].w8) == Some(plan.items[t].name)
  {
    InShown(plan, digest, im, j, c);
    BucketHasSlot(plan, digest, im, j, c);
    var u := BucketIs(plan, digest, im, j, c);
    NameHeld(plan, digest, im, u);
  }

  /** One bucket a node. */
  lemma OneBucket(plan: Plan, digest: seq<byte> -> nat, im: Image, j: nat, c: nat, k: nat, c': nat, t: nat)
    requires Made(plan, digest, im) && j < |plan.dirs| && k < |plan.dirs|
    requires IsChild(im, Id(plan, j), c, t) && IsChild(im, Id(plan, k), c', t)
    ensures c == c'
  {
    ChildIs(plan, digest, im, j, c, t);
    ChildIs(plan, digest, im, k, c', t);
    DirUnique(plan, digest, im, j, k);
    SameCell(plan, digest, im, j, c, c');
  }

  /** A name comes once in a directory. */
  lemma SameCell(plan: Plan, digest: seq<byte> -> nat, im: Image, j: nat, c: nat, c': nat)
    requires Made(plan, digest, im) && j < |plan.dirs| && HeaderOk(im) && In(im, Id(plan, j), c)
    requires In(im, Id(plan, j), c')
    requires IsBucket(im, c) && IsBucket(im, c') && NameAt(im, im.cells[c].w8) == NameAt(im, im.cells[c'].w8)
    requires NameAt(im, im.cells[c].w8).Some?
    ensures c == c'
  {
    DirFormed(plan, digest, im, j);
    var i := PlaceOf(im, Id(plan, j), c);
    var i' := PlaceOf(im, Id(plan, j), c');
    NamesOnce(plan, digest, im, j);
  }

  lemma NamesOnce(plan: Plan, digest: seq<byte> -> nat, im: Image, j: nat)
    requires Made(plan, digest, im) && j < |plan.dirs|
    ensures HeaderOk(im) && DirForm(im, Id(plan, j)) && Directory.DistinctNames(SliceOf(im, Id(plan, j)))
  {
    DirFormed(plan, digest, im, j);
    DirShown(plan, digest, im, j);
    NamesDiffer(plan, digest, im, j);
    var d, s := plan.dirs[j], SliceOf(im, Id(plan, j));
    forall i: nat, i': nat | i < i' && Slice.Occupied(s, i) && Slice.Occupied(s, i')
      ensures s[i].name != s[i'].name
    {
      if s[i].name == s[i'].name {
        SliceBuilt(plan, digest, im, j);
        BuiltSlice.SameChildSameCell(HashingFor(plan.hash2, d), NamesFor(plan.items, d.children), d.children,
                                     GroupsFor(plan.items, plan.hash2, d), s, i, i');
      }
    }
  }

  // ---------------------------------------------------------------- the tree

  function OrderOf(plan: Plan): seq<nat> {
    seq(|plan.dirs|, j requires 0 <= j < |plan.dirs| => Id(plan, j))
  }

  lemma OrderRooted(plan: Plan, digest: seq<byte> -> nat, im: Image)
    requires Made(plan, digest, im)
    ensures Rooted(im, OrderOf(plan))
  {
    var order := OrderOf(plan);
    PlanSizes(plan, digest, im);
    DirNode(plan, digest, im, 0);
    forall k: nat | 0 < k < |order|
      ensures EnteredAt(im, order, k)
    {
      DirNode(plan, digest, im, k);
      var t := plan.dirs[k].node.value;
      var j := ParentDir(plan, digest, im, t);
      var c := ChildBucket(plan, digest, im, j, t);
      Earlier(plan, digest, im, j, k);
      assert IsChild(im, order[j], c, order[k]);
    }
  }

  /** Directories come in the order of their objects. */
  lemma Earlier(plan: Plan, digest: seq<byte> -> nat, im: Image, j: nat, k: nat)
    requires Made(plan, digest, im) && j < |plan.dirs| && 0 < k < |plan.dirs|
    requires j > 0 ==>
               plan.dirs[j].node.Some? && plan.dirs[k].node.Some? && plan.dirs[j].node.value < plan.dirs[k].node.value
    ensures j < k
  {
    if k < j {
      Ascending(plan, digest, im, k, j);
    }
  }

  lemma Ascending(plan: Plan, digest: seq<byte> -> nat, im: Image, j: nat, k: nat)
    requires Made(plan, digest, im) && 0 < j < k < |plan.dirs|
    ensures plan.dirs[j].node.Some? && plan.dirs[k].node.Some? && plan.dirs[j].node.value < plan.dirs[k].node.value
  {
    OpenMade(plan, digest, im);
    assert plan.dirs[j] == plan.dirs[j] && plan.dirs[k] == plan.dirs[k];
  }

  lemma OrderClosed(plan: Plan, digest: seq<byte> -> nat, im: Image)
    requires Made(plan, digest, im)
    ensures Closed(im, OrderOf(plan))
  {
    var order := OrderOf(plan);
    forall j: nat, c: nat, t: nat {:trigger IsChild(im, order[j], c, t)}
      | j < |order| && IsChild(im, order[j], c, t) && im.cells[c].kind == DIR
      ensures t in order
    {
      ChildIs(plan, digest, im, j, c, t);
      var k := DirOfItem(plan, digest, im, t);
      assert order[k] == t;
    }
  }

  lemma OrderApart(plan: Plan, digest: seq<byte> -> nat, im: Image, j: nat, k: nat, c: nat)
    requires Made(plan, digest, im) && j < |plan.dirs| && k < |plan.dirs| && In(im, Id(plan, j), c)
    requires In(im, Id(plan, k), c)
    ensures j == k && |plan.items| <= c
  {
    InShown(plan, digest, im, j, c);
    InShown(plan, digest, im, k, c);
    OpenMade(plan, digest, im);
    SliceBounds(plan, j, c);
    SlicesApart(plan, j, k, c);
  }

  lemma OrderRoles(plan: Plan, digest: seq<byte> -> nat, im: Image)
    requires Made(plan, digest, im)
    ensures Disjoint(im, OrderOf(plan)) && OneEntryEach(im, OrderOf(plan))
  {
    var order := OrderOf(plan);
    forall j: nat, k: nat, c: nat {:trigger In(im, order[j], c), In(im, order[k], c)}
      | j < |order| && k < |order| && In(im, order[j], c) && In(im, order[k], c)
      ensures order[j] == order[k]
    {
      OrderApart(plan, digest, im, j, k, c);
    }
    forall j: nat, k: nat, c: nat, c': nat, t: nat {:trigger IsChild(im, order[j], c, t), IsChild(im, order[k], c', t)}
      | j < |order| && k < |order| && IsChild(im, order[j], c, t) && IsChild(im, order[k], c', t)
      ensures c == c'
    {
      OneBucket(plan, digest, im, j, c, k, c', t);
    }
    forall j: nat, k: nat, c: nat, t: nat {:trigger IsChild(im, order[j], c, t), In(im, order[k], t)}
      | j < |order| && k < |order| && IsChild(im, order[j], c, t)
      ensures !In(im, order[k], t)
    {
      ChildIs(plan, digest, im, j, c, t);
      if In(im, order[k], t) {
        OrderApart(plan, digest, im, k, k, t);
      }
    }
  }

  lemma FewObjects(plan: Plan, digest: seq<byte> -> nat, im: Image)
    requires Made(plan, digest, im)
    ensures |Objects(im, OrderOf(plan))| < MAX_ENTRIES
  {
    var order, n := OrderOf(plan), |plan.items|;
    PlanSizes(plan, digest, im);
    BelowSize(n);
    forall t: nat | t in Objects(im, order)
      ensures t in Below(n)
    {
      assert HasEntry(im, order, t);
      var j: nat, c: nat :| j < |order| && IsChild(im, order[j], c, t);
      ChildIs(plan, digest, im, j, c, t);
    }
    SubsetSize(Objects(im, order), Below(n));
  }

  lemma RootAttrFits(plan: Plan, digest: seq<byte> -> nat, im: Image)
    requires Made(plan, digest, im)
    ensures AttrForm(im, DIR, im.rootAttr) && im.cells[im.rootAttr].half == RootMode(plan)
  {
    OpenMade(plan, digest, im);
    AttrIs(plan, digest, im, plan.rootAttr);
  }

  /** The builder's directories are a tree of the image. */
  lemma TreeBuilt(plan: Plan, digest: seq<byte> -> nat, im: Image)
    requires Made(plan, digest, im)
    ensures HeaderOk(im) && TreeOk(im, OrderOf(plan))
  {
    PlanSizes(plan, digest, im);
    var order := OrderOf(plan);
    forall k: nat | k < |order|
      ensures order[k] <= |im.cells| && DirGood(im, order[k])
    {
      DirIsGood(plan, digest, im, k);
      DirShown(plan, digest, im, k);
    }
    RootAttrFits(plan, digest, im);
    OrderRooted(plan, digest, im);
    OrderClosed(plan, digest, im);
    OrderRoles(plan, digest, im);
    FewObjects(plan, digest, im);
  }
}
