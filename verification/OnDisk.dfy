/** A built image byte by byte, against the layout of include/femtofs/format.h:48-115: where every number is, and
    what it is for the tree that went in. */
module OnDisk {
  import opened Format
  import opened Paths
  import opened ImageTree
  import opened Encoding
  import opened BuiltPlan
  import opened BuiltTree
  import opened Build
  import Slice
  import Interning
  import Content
  import Agreement
  import Commit
  import BuiltImage
  import TreeWalk
  import Validate
  import Header
  import RoundTrip

  /** Two bytes, the lower one first. */
  function Short(b: seq<byte>, off: nat): nat
    requires off + 2 <= |b|
  {
    b[off] as int + 256 * b[off + 1] as int
  }

  /** Four bytes, the lowest one first. */
  function Long(b: seq<byte>, off: nat): nat
    requires off + 4 <= |b|
  {
    b[off] as int + 256 * b[off + 1] as int + 65536 * b[off + 2] as int + 16777216 * b[off + 3] as int
  }

  /** The image was built of this input, by this plan; closed (see `Key`). */
  ghost predicate BuiltOf(input: Input, plan: Plan, digest: seq<byte> -> nat, im: Image) {
    Planned(input, plan) && Made(plan, digest, im) && forall k: nat {:trigger Key(k)} :: Key(k) && k == 6 ==>
      Header.ReadImage(im.bytes) == Some(im)
  }

  // ---------------------------------------------------------------- where things are

  lemma CellFields(b: seq<byte>, at: nat)
    requires at + 16 <= |b|
    ensures Header.SliceCell(b, at)
         == Raw(b[at], b[at + 1], Short(b, at + 2), Long(b, at + 4), Long(b, at + 8), Long(b, at + 12))
  {
    var s := b[at..at + 16];
    assert forall i: nat :: i < 16 ==> s[i] == b[at + i];
  }

  lemma CellBytes(im: Image, c: nat)
    requires Header.ReadImage(im.bytes) == Some(im) && c < |im.cells|
    ensures 128 + 16 * c + 16 <= |im.bytes|
    ensures var b, at, cell := im.bytes, 128 + 16 * c, im.cells[c];
            && cell.kind == b[at] && cell.tag == b[at + 1] && cell.half == Short(b, at + 2)
            && cell.w4 == Long(b, at + 4) && cell.w8 == Long(b, at + 8) && cell.w12 == Long(b, at + 12)
  {
    Header.CellRead(im, c);
    CellFields(im.bytes, 128 + 16 * c);
  }

  lemma LongIs(b: seq<byte>, off: nat)
    requires off + 4 <= |b|
    ensures Long(b, off) == Header.U32At(b, off)
  {
  }

  /** The header: what it is, and how large the image and its table are. */
  lemma HeaderBytes(im: Image)
    requires Header.ReadImage(im.bytes) == Some(im)
    ensures |im.bytes| >= 128 + 16 * |im.cells|
    ensures im.bytes[..6] == [48, 70, 83, 0, 0, 4] && im.bytes[7] == 1 && im.bytes[67] == 0
    ensures Long(im.bytes, 32) == |im.bytes| && Long(im.bytes, 36) == |im.cells|
    ensures Long(im.bytes, 48) == 16 * |im.cells|
  {
    Header.HeaderRead(im);
    LongIs(im.bytes, 32);
    LongIs(im.bytes, 36);
    LongIs(im.bytes, 48);
  }

  /** Where the parts of the content begin, and the second base. */
  lemma PartBytes(im: Image)
    requires Header.ReadImage(im.bytes) == Some(im)
    ensures |im.bytes| >= 128 + 16 * |im.cells|
    ensures Long(im.bytes, 40) == im.publicOff && Long(im.bytes, 44) == im.privateOff && Long(im.bytes, 68) == im.hash2
  {
    Header.HeaderRead(im);
    LongIs(im.bytes, 40);
    LongIs(im.bytes, 44);
    LongIs(im.bytes, 68);
  }

  /** The root's record. */
  lemma RootRecord(im: Image)
    requires Header.ReadImage(im.bytes) == Some(im)
    ensures |im.bytes| >= 128 + 16 * |im.cells|
    ensures Long(im.bytes, 52) == im.root.off && Long(im.bytes, 56) == im.root.size
    ensures Long(im.bytes, 60) == im.root.entries
    ensures Short(im.bytes, 64) == im.rootAttr && im.bytes[66] == im.root.hash
  {
    Header.HeaderRead(im);
    LongIs(im.bytes, 52);
    LongIs(im.bytes, 56);
    LongIs(im.bytes, 60);
  }

  /** And the hash of the table. */
  lemma HashBytes(im: Image)
    requires Header.ReadImage(im.bytes) == Some(im)
    ensures |im.bytes| >= 128 + 16 * |im.cells|
    ensures Long(im.bytes, 12) == Fnv(im.bytes[128..128 + 16 * |im.cells|], 0x811c9dc5)
  {
    Header.HeaderRead(im);
    LongIs(im.bytes, 12);
  }

  /** And, behind the marks, the hash of everything from byte 16 on. */
  lemma WholeHash(im: Image, device: Commit.Plan)
    requires Commit.PlanOk(device) && im.bytes == Commit.Image(device)
    ensures |im.bytes| >= 128 && Long(im.bytes, 8) == Fnv(im.bytes[16..], 0x811c9dc5)
  {
    Commit.StoredHash(device);
    LongIs(im.bytes, 8);
    assert im.bytes[8..12] == [im.bytes[8], im.bytes[9], im.bytes[10], im.bytes[11]];
  }

  // ---------------------------------------------------------------- objects

  lemma BuiltCell(input: Input, plan: Plan, digest: seq<byte> -> nat, im: Image, c: nat)
    requires BuiltOf(input, plan, digest, im) && c < |im.cells|
    ensures 128 + 16 * c + 16 <= |im.bytes|
    ensures var b, at, cell := im.bytes, 128 + 16 * c, im.cells[c];
            && cell.kind == b[at] && cell.tag == b[at + 1] && cell.half == Short(b, at + 2)
            && cell.w4 == Long(b, at + 4) && cell.w8 == Long(b, at + 8) && cell.w12 == Long(b, at + 12)
  {
    assert Key(6);
    CellBytes(im, c);
  }

  lemma BuiltParts(input: Input, plan: Plan, digest: seq<byte> -> nat, im: Image)
    requires BuiltOf(input, plan, digest, im)
    ensures |im.bytes| >= 128 && Long(im.bytes, 44) == im.privateOff
  {
    assert Key(6);
    PartBytes(im);
  }

  /** Object t's type, and the attributes its index leads to. */
  lemma ObjectBytes(input: Input, plan: Plan, digest: seq<byte> -> nat, im: Image, t: nat)
    requires BuiltOf(input, plan, digest, im) && t < |input.items|
    ensures 128 + 16 * t + 16 <= |im.bytes| && |input.keys| == |input.items|
    ensures im.bytes[128 + 16 * t] == match input.items[t].kind
                                      case File => 1
                                      case Directory => 2
                                      case Symlink => 3
                                      case Hardlink => 4
                                      case Fifo => 5
    ensures input.items[t].kind != Hardlink ==>
              var b := im.bytes;
              var at := 128 + 16 * Short(b, 128 + 16 * t + 2);
              && at + 16 <= |b| && b[at] == 129
              && Short(b, at + 2) == input.keys[t].mode && Long(b, at + 4) == input.keys[t].uid
              && Long(b, at + 8) == input.keys[t].gid
  {
    KeysStored(input, plan, digest, im);
    ObjectIs(plan, digest, im, t);
    BuiltCell(input, plan, digest, im, t);
    if input.items[t].kind != Hardlink {
      AttrFits(plan, digest, im, t);
      assert input.keys[t] == input.keys[t];
      BuiltCell(input, plan, digest, im, im.cells[t].half);
    }
  }

  /** The root's attributes. */
  lemma RootBytes(input: Input, plan: Plan, digest: seq<byte> -> nat, im: Image)
    requires BuiltOf(input, plan, digest, im)
    ensures |im.bytes| >= 128
    ensures var b := im.bytes;
            var at := 128 + 16 * Short(b, 64);
            && at + 16 <= |b| && b[at] == 129
            && Short(b, at + 2) == input.rootKey.mode && Long(b, at + 4) == input.rootKey.uid
            && Long(b, at + 8) == input.rootKey.gid
  {
    assert Key(6);
    RootRecord(im);
    KeysStored(input, plan, digest, im);
    RootAttrFits(plan, digest, im);
    BuiltCell(input, plan, digest, im, im.rootAttr);
  }

  /** A file's or symlink's content is where its object says. */
  lemma ContentBytes(input: Input, plan: Plan, digest: seq<byte> -> nat, im: Image, t: nat)
    requires BuiltOf(input, plan, digest, im) && t < |input.items|
    requires input.items[t].kind == File || input.items[t].kind == Symlink
    ensures 128 + 16 * t + 16 <= |im.bytes|
    ensures var b, at, n := im.bytes, 128 + 16 * t, input.items[t];
            var off, size, bytes := Long(b, at + 4), Long(b, at + 8), if n.kind == File then n.payload else n.target;
            && size == |bytes| && off + size <= |b| && b[off..off + size] == bytes
            && b[at + 1] == 0 && Long(b, at + 12) == 0
  {
    PlainIs(plan, digest, im, t);
    ObjectIs(plan, digest, im, t);
    BuiltCell(input, plan, digest, im, t);
    RoundTrip.ContentBlob(plan, digest, im, t);
    RoundTrip.BlobBytes(plan, digest, im, plan.contentBlobs[t].value);
  }

  /** A hardlink names its file and nothing else, a fifo nothing at all. */
  lemma LinkBytes(input: Input, plan: Plan, digest: seq<byte> -> nat, im: Image, t: nat)
    requires BuiltOf(input, plan, digest, im) && t < |input.items|
    requires input.items[t].kind == Hardlink || input.items[t].kind == Fifo
    ensures 128 + 16 * t + 16 <= |im.bytes|
    ensures var b, at := im.bytes, 128 + 16 * t;
            && b[at + 1] == 0 && Long(b, at + 8) == 0 && Long(b, at + 12) == 0
            && (input.items[t].kind == Hardlink ==>
                  Short(b, at + 2) == 0 && Long(b, at + 4) == input.items[t].canonical)
            && (input.items[t].kind == Fifo ==> Long(b, at + 4) == 0)
  {
    PlainIs(plan, digest, im, t);
    ObjectIs(plan, digest, im, t);
    BuiltCell(input, plan, digest, im, t);
  }

  /** A directory's record: base and mode of its table, where its slice is, how large, how many entries, and the
      directory it is in. */
  lemma DirectoryBytes(input: Input, plan: Plan, digest: seq<byte> -> nat, im: Image, j: nat, t: nat)
    requires BuiltOf(input, plan, digest, im) && 0 < j < |plan.dirs| && plan.dirs[j].node == Some(t)
    ensures t < |input.items| && 128 + 16 * t + 16 <= |im.bytes| && j < |input.tables|
    ensures var b, at, table, parent := im.bytes, 128 + 16 * t, input.tables[j], input.items[t].parent;
            && b[at + 1] == (if table.dual then 64 else 0) + table.prime
            && Long(b, at + 4) == plan.dirs[j].first && Long(b, at + 8) == table.size
            && Long(b, at + 12) / 65536 == |plan.dirs[j].children|
            && (if parent == [] then Long(b, at + 12) % 65536 == 65535
                else Long(b, at + 12) % 65536 < |input.items| && input.items[Long(b, at + 12) % 65536].path == parent)
  {
    OpenPlanned(input, plan);
    DirNode(plan, digest, im, j);
    PlanSizes(plan, digest, im);
    assert plan.dirs[j] == plan.dirs[j];
    HashShown(plan.dirs[j]);
    DirectoryRecord(plan, digest, im, j, t);
    BuiltCell(input, plan, digest, im, t);
  }

  /** The root's record is in the header. */
  lemma RootTable(input: Input, plan: Plan, digest: seq<byte> -> nat, im: Image)
    requires BuiltOf(input, plan, digest, im)
    ensures |im.bytes| >= 128 && plan.dirs != [] && input.tables != []
    ensures var b, table := im.bytes, input.tables[0];
            && b[66] == (if table.dual then 64 else 0) + table.prime
            && Long(b, 52) == plan.dirs[0].first && Long(b, 56) == table.size && Long(b, 60) == |plan.dirs[0].children|
  {
    OpenPlanned(input, plan);
    DirNode(plan, digest, im, 0);
    assert plan.dirs[0] == plan.dirs[0];
    HashShown(plan.dirs[0]);
    RootMade(plan, digest, im);
    assert Key(6);
    RootRecord(im);
  }

  lemma RootMade(plan: Plan, digest: seq<byte> -> nat, im: Image)
    requires Made(plan, digest, im)
    ensures plan.dirs != []
    ensures var d := plan.dirs[0]; im.root == Dir(d.first, |d.slots|, |d.children|, HashByte(d))
  {
    OpenMade(plan, digest, im);
  }

  lemma DirectoryRecord(plan: Plan, digest: seq<byte> -> nat, im: Image, j: nat, t: nat)
    requires Made(plan, digest, im) && 0 < j < |plan.dirs| && plan.dirs[j].node == Some(t)
    ensures t < |plan.items| && t < |im.cells|
    ensures var d, o, parent := plan.dirs[j], im.cells[t], plan.items[t].parent;
            && o.tag == HashByte(d) && o.w4 == d.first && o.w8 == |d.slots| && o.w12 / 65536 == |d.children|
            && (if parent == [] then o.w12 % 65536 == 65535
                else o.w12 % 65536 < |plan.items| && plan.items[o.w12 % 65536].path == parent)
  {
    DirNode(plan, digest, im, j);
    PlanSizes(plan, digest, im);
    DirRecord(plan, digest, im, j, t);
    DirSizes(plan, digest, im, j);
    Packed(ParentIndex(plan, t).value, |plan.dirs[j].children|);
  }

  lemma Packed(parent: nat, entries: nat)
    requires parent < 65536
    ensures (parent % 65536 + 65536 * entries) % 65536 == parent
    ensures (parent % 65536 + 65536 * entries) / 65536 == entries
  {
  }

  // ---------------------------------------------------------------- buckets

  /** Every node has one bucket, in the slice of the directory it is in, with its type, its number and its name. */
  lemma BucketBytes(input: Input, plan: Plan, digest: seq<byte> -> nat, im: Image, j: nat, t: nat)
    returns (c: nat, off: nat)
    requires BuiltOf(input, plan, digest, im) && j < |plan.dirs| && t < |input.items|
    requires input.items[t].parent == plan.dirs[j].path
    ensures plan.dirs[j].first <= c < plan.dirs[j].first + |plan.dirs[j].slots|
    ensures 128 + 16 * c + 16 <= |im.bytes| && 128 + 16 * t + 16 <= |im.bytes|
    ensures var b, at := im.bytes, 128 + 16 * c;
            && b[at] == b[128 + 16 * t] && b[at + 1] == 0 && Short(b, at + 2) == 0
            && Long(b, at + 4) == t && Long(b, at + 8) == off
    ensures var b, name := im.bytes, input.items[t].name;
            off + |name| < |b| && b[off..off + |name|] == name && b[off + |name|] == 0
  {
    c := BucketRecord(plan, digest, im, j, t);
    NameBytes(plan, digest, im, t);
    off := plan.imageOff[plan.nameBlobs[t]];
    BuiltCell(input, plan, digest, im, c);
    BuiltCell(input, plan, digest, im, t);
  }

  lemma BucketRecord(plan: Plan, digest: seq<byte> -> nat, im: Image, j: nat, t: nat) returns (c: nat)
    requires Made(plan, digest, im) && j < |plan.dirs| && t < |plan.items| && plan.items[t].parent == plan.dirs[j].path
    ensures plan.dirs[j].first <= c < plan.dirs[j].first + |plan.dirs[j].slots| && c < |im.cells| && t < |im.cells|
    ensures t < |plan.nameBlobs| && plan.nameBlobs[t] < |plan.imageOff|
    ensures var p := im.cells[c];
            && p.kind == im.cells[t].kind && p.tag == 0 && p.half == 0 && p.w4 == t
            && p.w8 == plan.imageOff[plan.nameBlobs[t]]
  {
    c := ChildBucket(plan, digest, im, j, t);
    InShown(plan, digest, im, j, c);
    BucketHasSlot(plan, digest, im, j, c);
    var u := BucketIs(plan, digest, im, j, c);
    ObjectIs(plan, digest, im, t);
  }

  lemma NameBytes(plan: Plan, digest: seq<byte> -> nat, im: Image, t: nat)
    requires Made(plan, digest, im) && t < |plan.items|
    ensures t < |plan.nameBlobs| && plan.nameBlobs[t] < |plan.imageOff|
    ensures var off, name := plan.imageOff[plan.nameBlobs[t]], plan.items[t].name;
            off + |name| < |im.bytes| && im.bytes[off..off + |name|] == name && im.bytes[off + |name|] == 0
  {
    NameHeld(plan, digest, im, t);
    NameBlob(plan, digest, im, t);
    BlobSmall(plan, digest, im, plan.nameBlobs[t]);
    BlobEnds(im, plan.imageOff[plan.nameBlobs[t]], |plan.items[t].name|);
  }

  // ---------------------------------------------------------------- public and private

  /** A file's content lies below the private offset exactly when others may see it: as the content of a file they
      can read, or as a name they can list. */
  lemma PartOfContent(input: Input, plan: Plan, digest: seq<byte> -> nat, im: Image, t: nat)
    requires BuiltOf(input, plan, digest, im) && t < |input.items| && input.items[t].kind == File
    ensures 128 + 16 * t + 16 <= |im.bytes|
    ensures Long(im.bytes, 128 + 16 * t + 4) < Long(im.bytes, 44) <==>
            Interning.HeldOpenly(input.items, input.rootKey.mode, input.items[t].payload)
  {
    BuiltParts(input, plan, digest, im);
    PlainIs(plan, digest, im, t);
    ObjectIs(plan, digest, im, t);
    BuiltCell(input, plan, digest, im, t);
    BlobPart(input, plan, digest, im, plan.contentBlobs[t].value);
    FileClass(plan, digest, im, t);
  }

  lemma FileClass(plan: Plan, digest: seq<byte> -> nat, im: Image, t: nat)
    requires Made(plan, digest, im) && t < |plan.items| && plan.items[t].kind == File
    ensures t < |plan.contentBlobs| && plan.contentBlobs[t].Some? && plan.contentBlobs[t].value < |plan.classes|
    ensures Interning.Same(plan.classes[plan.contentBlobs[t].value], false, plan.items[t].payload)
  {
    OpenMade(plan, digest, im);
    assert ItemOk(plan.items, t);
    assert Interning.ContentIs(plan.items, t, plan.classes, plan.contentBlobs[t]);
  }

  lemma BlobPart(input: Input, plan: Plan, digest: seq<byte> -> nat, im: Image, k: nat)
    requires BuiltOf(input, plan, digest, im) && k < |plan.classes|
    ensures k < |plan.imageOff|
    ensures plan.imageOff[k] < im.privateOff <==>
            !plan.classes[k].symlink && Interning.HeldOpenly(input.items, input.rootKey.mode, plan.classes[k].bytes)
  {
    OpenPlanned(input, plan);
    ClassesOpen(plan, digest, im, k);
    PartIs(plan, digest, im, k);
  }

  lemma ClassesOpen(plan: Plan, digest: seq<byte> -> nat, im: Image, k: nat)
    requires Made(plan, digest, im) && k < |plan.classes|
    ensures plan.classes[k].publicPart <==>
            !plan.classes[k].symlink && Interning.HeldOpenly(plan.items, RootMode(plan), plan.classes[k].bytes)
  {
    OpenMade(plan, digest, im);
    Interning.ClassPublicMeans(plan.items, RootMode(plan), plan.classes, k);
  }

  lemma PartIs(plan: Plan, digest: seq<byte> -> nat, im: Image, k: nat)
    requires Made(plan, digest, im) && k < |plan.classes|
    ensures k < |plan.imageOff| && (plan.imageOff[k] < im.privateOff <==> plan.classes[k].publicPart)
  {
    BlobSmall(plan, digest, im, k);
    OpenMade(plan, digest, im);
    assert Content.BlobPlaced(Agreement.BlobsOf(plan.classes, digest), plan.imageOff, plan.o, k);
  }

  /** And so does a name. */
  lemma PartOfName(input: Input, plan: Plan, digest: seq<byte> -> nat, im: Image, t: nat)
    requires BuiltOf(input, plan, digest, im) && t < |input.items|
    ensures t < |plan.nameBlobs| && plan.nameBlobs[t] < |plan.imageOff|
    ensures plan.imageOff[plan.nameBlobs[t]] < im.privateOff <==>
            Interning.HeldOpenly(input.items, input.rootKey.mode, input.items[t].name)
  {
    NameBlob(plan, digest, im, t);
    BlobPart(input, plan, digest, im, plan.nameBlobs[t]);
  }

  // ---------------------------------------------------------------- what the decoder makes of it

  /** The decoder gives every node the mode, the owner and the group that went in. */
  lemma OwnersKept(input: Input, plan: Plan, digest: seq<byte> -> nat, im: Image, w: TreeWalk.Work, t: nat)
    requires BuiltOf(input, plan, digest, im) && Validate.Complete(im, w)
    requires t < |input.items| && input.items[t].kind != Hardlink
    ensures t < |Validate.FinalNodes(im, w)| && |input.keys| == |input.items|
    ensures var n, key := Validate.FinalNodes(im, w)[t], input.keys[t];
            n.mode == key.mode && n.uid == key.uid && n.gid == key.gid
  {
    OpenPlanned(input, plan);
    RoundTrip.NodeHasKey(plan, digest, im, w, t);
    assert input.keys[t] == input.keys[t];
  }

  /** It calls a file public exactly when others may read it: by its own bit, and by the bits of every directory
      above one of its names. */
  lemma PublicKept(input: Input, plan: Plan, digest: seq<byte> -> nat, im: Image, w: TreeWalk.Work, t: nat)
    requires BuiltOf(input, plan, digest, im) && Validate.Complete(im, w)
    requires t < |input.items| && input.items[t].kind == File
    ensures t < |Validate.FinalNodes(im, w)|
    ensures Validate.FinalNodes(im, w)[t].publicFile <==> Interning.FileOpen(input.items, input.rootKey.mode, t)
  {
    OpenPlanned(input, plan);
    BuiltImage.MirroredBuilt(plan, digest, im, w);
    Agreement.FilePublicAgrees(im, w, plan.items, RootMode(plan), t);
    Interning.FilePublicMeans(plan.items, RootMode(plan), t);
  }
}
