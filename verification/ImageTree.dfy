/** The decoder's breadth-first pass over an image (ko/image.c:86-115, 189-248): which cells are slices, which
    are objects, and that together they form one tree. */
module ImageTree {
  import opened Format
  import opened Counting
  import opened Sweep
  import Slice

  const FILE: byte := 1
  const DIR: byte := 2
  const SYMLINK: byte := 3
  const LINK: byte := 4
  const FIFO: byte := 5
  const ATTR: byte := 129

  const SMALL: seq<u32> := [3, 5, 7, 11, 13, 17, 19, 23, 29, 31, 37, 41, 43, 47, 53, 59, 61, 67]
  const MIDDLE: seq<u32> := [71, 73, 79, 83, 89, 97, 101, 103, 107, 109, 113, 127, 131, 137, 139, 149, 151, 157]
  const LARGE: seq<u32> := [163, 167, 173, 179, 181, 191, 193, 197, 199, 211, 223, 227, 229, 233, 239, 241, 251]
  /** The bases a directory may name. */
  const PRIMES: seq<u32> := SMALL + MIDDLE + LARGE

  /** Sixteen bytes of metadata: a bucket's target, name and link, or an object's offset, size and rest. */
  datatype Raw = Raw(kind: byte, tag: byte, half: u16, w4: u32, w8: u32, w12: u32)

  datatype Dir = Dir(off: nat, size: nat, entries: nat, hash: byte)

  datatype Image = Image(bytes: seq<byte>, cells: seq<Raw>, publicOff: nat, privateOff: nat, hash2: u32, root: Dir,
                         rootAttr: nat)

  /** What the header check has established. */
  predicate HeaderOk(im: Image) {
    0 < |im.cells| <= MAX_CELLS && im.publicOff <= im.privateOff <= |im.bytes| < U32
  }

  // ---------------------------------------------------------------- form of single cells

  predicate IsBucket(im: Image, c: nat) {
    c < |im.cells| && FILE <= im.cells[c].kind <= FIFO
  }

  /** The directory's own record; the root's is in the header and its number is the cell count. */
  function DirOf(im: Image, id: nat): Dir {
    if id < |im.cells| then
      var o := im.cells[id];
      Dir(o.w4, o.w8, o.w12 / 65536, o.tag)
    else im.root
  }

  predicate In(im: Image, id: nat, c: nat) {
    DirOf(im, id).off <= c < DirOf(im, id).off + DirOf(im, id).size
  }

  predicate DirForm(im: Image, id: nat) {
    var d := DirOf(im, id);
    && d.hash / 64 <= 1 && d.hash % 64 < 53 && d.size <= MAX_TABLE && d.entries < MAX_ENTRIES && d.entries <= d.size
    && (d.size == 0 ==> d.off == 0 && d.entries == 0) && d.off + d.size <= |im.cells|
  }

  function ModeBits(kind: byte): nat {
    if kind == FILE then 8 else if kind == DIR then 4 else if kind == SYMLINK then 10 else if kind == FIFO then 1 else 0
  }

  /** `attribute`: the cell is an attribute of the right file type. */
  predicate AttrForm(im: Image, kind: byte, a: nat) {
    a < |im.cells| && im.cells[a].kind == ATTR && im.cells[a].half / 4096 == ModeBits(kind)
  }

  /** Length of the string at off, if it ends within n bytes. */
  function NulWithin(bytes: seq<byte>, off: nat, n: nat): (r: Option<nat>)
    requires off + n <= |bytes|
    ensures r.Some? ==> r.value < n && bytes[off + r.value] == 0
    ensures 0 !in bytes[off..off + if r.Some? then r.value else n]
  {
    if n == 0 then None
    else
      var rest := NulWithin(bytes, off, n - 1);
      if rest.Some? then rest else if bytes[off + n - 1] == 0 then Some(n - 1) else None
  }

  /** The name at off: in the public or the private part, terminated, and a legal component. */
  function NameAt(im: Image, off: nat): Option<seq<byte>>
    requires HeaderOk(im)
  {
    if off < im.publicOff || off >= |im.bytes| then None
    else
      var end := if off < im.privateOff then im.privateOff else |im.bytes|;
      var length := NulWithin(im.bytes, off, if end - off < 256 then end - off else 256);
      if length.None? then None
      else
        var name := im.bytes[off..off + length.value];
        if name == [] || 47 in name || name == [46] || name == [46, 46] then None else Some(name)
  }

  /** `blob`: content or a name at off, with its terminator and padding, inside one part, and inside one page
      or page-aligned. */
  predicate BlobFits(im: Image, off: nat, size: nat, symlink: bool)
    requires HeaderOk(im)
  {
    var stored := StoredSize(size);
    && off % 4 == 0 && im.publicOff <= off < |im.bytes| && stored <= MAX32
    && off + stored <= (if off < im.privateOff then im.privateOff else |im.bytes|)
    && (if stored >= PAGE then off % PAGE == 0 else off % PAGE + stored <= PAGE)
    && (forall i: nat :: off + size <= i < off + stored ==> im.bytes[i] == 0)
    && (symlink ==> im.privateOff <= off && forall i: nat :: off <= i < off + size ==> im.bytes[i] != 0)
  }

  predicate ObjectForm(im: Image, id: nat, kind: byte, t: nat)
    requires t < |im.cells|
  {
    var o := im.cells[t];
    && o.kind == kind
    && (kind != LINK ==> AttrForm(im, kind, o.half))
    && (if kind == DIR then o.w12 < 0x8000_0000 && o.w12 % 65536 == (if id == |im.cells| then 65535 else id)
        else o.w12 == 0)
    && (kind == FIFO ==> o.w4 == 0 && o.w8 == 0)
    && (kind == LINK ==> o.half == 0 && o.w8 == 0)
  }

  predicate BucketForm(im: Image, id: nat, c: nat)
    requires HeaderOk(im) && c < |im.cells|
  {
    var p := im.cells[c];
    && FILE <= p.kind <= FIFO && p.tag == 0 && p.half == 0
    && p.w4 < |im.cells| && ObjectForm(im, id, p.kind, p.w4)
    && NameAt(im, p.w8).Some? && BlobFits(im, p.w8, |NameAt(im, p.w8).value|, false)
  }

  predicate CellForm(im: Image, id: nat, c: nat)
    requires HeaderOk(im) && c < |im.cells|
  {
    var p := im.cells[c];
    if p.kind == ATTR then true
    else if p.kind == 0 then p.tag == 0 && p.half == 0 && p.w4 == 0 && p.w8 == 0 && p.w12 == DirOf(im, id).size
    else BucketForm(im, id, c)
  }

  // ---------------------------------------------------------------- a directory

  function CellView(im: Image, c: nat): Slice.Cell
    requires HeaderOk(im) && c < |im.cells|
  {
    var p := im.cells[c];
    if p.kind == ATTR then Slice.Attr
    else if FILE <= p.kind <= FIFO then
      Slice.Bucket(if NameAt(im, p.w8).Some? then NameAt(im, p.w8).value else [], p.w4, p.w12)
    else Slice.Empty
  }

  function SliceOf(im: Image, id: nat): seq<Slice.Cell>
    requires HeaderOk(im) && DirForm(im, id)
  {
    var d := DirOf(im, id);
    seq(d.size, i requires 0 <= i < d.size => CellView(im, d.off + i))
  }

  function HashingOf(im: Image, id: nat): Slice.Hashing
    requires DirForm(im, id)
  {
    var d := DirOf(im, id);
    Slice.Hashing(PRIMES[d.hash % 64], if d.hash / 64 == 1 then Some(im.hash2) else None)
  }

  ghost predicate DirGood(im: Image, id: nat)
    requires HeaderOk(im)
  {
    && DirForm(im, id)
    && (forall c: nat {:trigger In(im, id, c)} :: In(im, id, c) ==> CellForm(im, id, c))
    && |Slice.OccupiedSet(SliceOf(im, id))| == DirOf(im, id).entries
    && Slice.WellChained(SliceOf(im, id), HashingOf(im, id))
  }

  // ---------------------------------------------------------------- the tree

  predicate IsChild(im: Image, id: nat, c: nat, t: nat) {
    In(im, id, c) && IsBucket(im, c) && im.cells[c].w4 == t
  }

  /** Every directory but the first is entered from an earlier one. */
  ghost predicate Rooted(im: Image, order: seq<nat>) {
    && order != [] && order[0] == |im.cells|
    && forall k: nat {:trigger EnteredAt(im, order, k)} :: 0 < k < |order| ==> EnteredAt(im, order, k)
  }

  ghost predicate EnteredAt(im: Image, order: seq<nat>, k: nat)
    requires k < |order|
  {
    exists j: nat, c: nat {:trigger IsChild(im, order[j], c, order[k])} ::
      j < k && IsChild(im, order[j], c, order[k]) && im.cells[c].kind == DIR
  }

  lemma RootedAppend(im: Image, order: seq<nat>, j: nat, c: nat, t: nat)
    requires Rooted(im, order) && j < |order| && IsChild(im, order[j], c, t) && im.cells[c].kind == DIR
    ensures Rooted(im, order + [t])
  {
    var next := order + [t];
    forall k: nat | 0 < k < |next|
      ensures EnteredAt(im, next, k)
    {
      if k < |order| {
        assert EnteredAt(im, order, k);
        var i: nat, x: nat :| i < k && IsChild(im, order[i], x, order[k]) && im.cells[x].kind == DIR;
        assert IsChild(im, order[i], x, order[k]);
        assert next[i] == order[i] && next[k] == order[k];
        assert IsChild(im, next[i], x, next[k]);
      } else {
        assert next[j] == order[j];
        assert IsChild(im, next[j], c, next[k]);
      }
    }
  }

  ghost predicate HasEntry(im: Image, order: seq<nat>, t: nat) {
    exists j: nat, c: nat {:trigger IsChild(im, order[j], c, t)} :: j < |order| && IsChild(im, order[j], c, t)
  }

  /** The objects that buckets of these directories name. */
  ghost function Objects(im: Image, order: seq<nat>): set<nat> {
    set t: nat | t < |im.cells| && HasEntry(im, order, t)
  }

  ghost predicate Disjoint(im: Image, order: seq<nat>) {
    forall j: nat, k: nat, c: nat {:trigger In(im, order[j], c), In(im, order[k], c)} ::
      j < |order| && k < |order| && In(im, order[j], c) && In(im, order[k], c) ==> order[j] == order[k]
  }

  /** No object has two buckets, and none lies in a slice. */
  ghost predicate OneEntryEach(im: Image, order: seq<nat>) {
    && (forall j: nat, k: nat, c: nat, c': nat, t: nat
          {:trigger IsChild(im, order[j], c, t), IsChild(im, order[k], c', t)} ::
          j < |order| && k < |order| && IsChild(im, order[j], c, t) && IsChild(im, order[k], c', t) ==> c == c')
    && (forall j: nat, k: nat, c: nat, t: nat {:trigger IsChild(im, order[j], c, t), In(im, order[k], t)} ::
          j < |order| && k < |order| && IsChild(im, order[j], c, t) ==> !In(im, order[k], t))
  }

  ghost predicate Closed(im: Image, order: seq<nat>) {
    forall j: nat, c: nat, t: nat {:trigger IsChild(im, order[j], c, t)} ::
      j < |order| && IsChild(im, order[j], c, t) && im.cells[c].kind == DIR ==> t in order
  }

  /** These are the directories of the image, and they form a tree. */
  ghost predicate TreeOk(im: Image, order: seq<nat>)
    requires HeaderOk(im)
  {
    && AttrForm(im, DIR, im.rootAttr)
    && Rooted(im, order) && Closed(im, order) && Disjoint(im, order) && OneEntryEach(im, order)
    && (forall k: nat {:trigger order[k]} :: k < |order| ==> order[k] <= |im.cells| && DirGood(im, order[k]))
    && |Objects(im, order)| < MAX_ENTRIES
  }

  ghost predicate Accepted(im: Image)
    requires HeaderOk(im)
  {
    exists order: seq<nat> :: TreeOk(im, order)
  }
}
