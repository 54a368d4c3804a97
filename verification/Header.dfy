/** The bytes of the table and of the header (programs/makefemtofs.cpp:1873-1912; include/femtofs/format.h:121-152),
    and how the decoder reads them (ko/image.c:29-76, 167-175). */
module Header {
  import opened Format
  import opened ImageTree
  import opened Encoding
  import Commit
  import Devices

  const MAGIC: seq<byte> := [48, 70, 83, 0, 0, 4]
  const AUTHOR: string := "Andrea \"Nemesi\" Cocito - blackye at gmail dot com"

  function Author(): seq<byte> {
    seq(56, i requires 0 <= i < 56 => if i < |AUTHOR| then AUTHOR[i] as int % 256 else 0)
  }

  // ---------------------------------------------------------------- words and cells

  function U16At(b: seq<byte>, off: nat): u16
    requires off + 2 <= |b|
  {
    b[off] as int + 256 * b[off + 1] as int
  }

  function U32At(b: seq<byte>, off: nat): u32
    requires off + 4 <= |b|
  {
    Load32([b[off], b[off + 1], b[off + 2], b[off + 3]])
  }

  /** Sixteen bytes as a cell. */
  function CellOf(b: seq<byte>): Raw
    requires |b| == CELL
  {
    Raw(b[0], b[1], U16At(b, 2), U32At(b, 4), U32At(b, 8), U32At(b, 12))
  }

  function Le16(x: u16): seq<byte> {
    [x % 256, x / 256]
  }

  function CellBytes(r: Raw): (b: seq<byte>)
    ensures |b| == CELL && CellOf(b) == r
  {
    LoadStored(r.w4);
    LoadStored(r.w8);
    LoadStored(r.w12);
    [r.kind, r.tag] + Le16(r.half) + Le32(r.w4) + Le32(r.w8) + Le32(r.w12)
  }

  /** The metadata: all cells in a row. */
  function TableBytes(cells: seq<Raw>): (b: seq<byte>)
    ensures |b| == CELL * |cells|
  {
    if cells == [] then [] else TableBytes(cells[..|cells| - 1]) + CellBytes(cells[|cells| - 1])
  }

  function SliceCell(b: seq<byte>, off: nat): Raw
    requires off + CELL <= |b|
  {
    CellOf(b[off..off + CELL])
  }

  lemma CellKept(a: seq<byte>, r: Raw, off: nat)
    requires off + CELL <= |a|
    ensures SliceCell(a + CellBytes(r), off) == SliceCell(a, off)
  {
    assert (a + CellBytes(r))[off..off + CELL] == a[off..off + CELL];
  }

  lemma CellLast(a: seq<byte>, r: Raw)
    ensures SliceCell(a + CellBytes(r), |a|) == r
  {
    assert (a + CellBytes(r))[|a|..|a| + CELL] == CellBytes(r);
  }

  lemma {:induction false} CellInTable(cells: seq<Raw>, c: nat)
    requires c < |cells|
    ensures SliceCell(TableBytes(cells), CELL * c) == cells[c]
  {
    var last := |cells| - 1;
    var front := TableBytes(cells[..last]);
    if c < last {
      CellKept(front, cells[last], CELL * c);
      CellInTable(cells[..last], c);
    } else {
      CellLast(front, cells[last]);
    }
  }

  /** The metadata is these cells in a row. */
  ghost predicate Tabled(metadata: seq<byte>, cells: seq<Raw>) {
    && |metadata| == CELL * |cells|
    && forall c: nat {:trigger cells[c]} :: c < |cells| ==> SliceCell(metadata, CELL * c) == cells[c]
  }

  lemma TableIs(cells: seq<Raw>)
    ensures Tabled(TableBytes(cells), cells)
  {
    forall c: nat | c < |cells|
      ensures SliceCell(TableBytes(cells), CELL * c) == cells[c]
    {
      CellInTable(cells, c);
    }
  }

  // ---------------------------------------------------------------- writing the header

  ghost predicate Has(h: seq<byte>, off: nat, b: seq<byte>) {
    off + |b| <= |h| && forall i: nat {:trigger b[i]} :: i < |b| ==> h[off + i] == b[i]
  }

  /** Magic, version, hash of the metadata, identity and sizes. */
  ghost predicate FrontHolds(plan: Plan, h: seq<byte>, hash: u32, size: nat, uuid: seq<byte>) {
    && |h| == HEADER && Has(h, 0, MAGIC) && h[6] == 0 && h[7] == 1 && U32At(h, 8) == 0
    && U32At(h, 12) == hash && Has(h, 16, uuid)
    && U32At(h, 32) == Word(plan.o.imageSize) && U32At(h, 36) == Word(plan.cellCount)
    && U32At(h, 40) == Word(plan.o.publicOff) && U32At(h, 44) == Word(plan.o.privateOff)
    && U32At(h, 48) == Word(size)
  }

  /** The root directory, the second base and the author. */
  ghost predicate BackHolds(plan: Plan, h: seq<byte>)
    requires plan.dirs != [] && plan.rootAttr < |plan.attrCells|
  {
    var root := plan.dirs[0];
    && |h| == HEADER
    && U32At(h, 52) == Word(root.first) && U32At(h, 56) == Word(|root.slots|) && U32At(h, 60) == Word(|root.children|)
    && U16At(h, 64) == Half(plan.attrCells[plan.rootAttr]) && h[66] == HashByte(root) && h[67] == 0
    && U32At(h, 68) == plan.hash2 && Has(h, 72, Author())
  }

  /** Every field in its place. */
  ghost predicate HeaderHolds(plan: Plan, h: seq<byte>, metadata: seq<byte>, uuid: seq<byte>)
    requires plan.dirs != [] && plan.rootAttr < |plan.attrCells|
  {
    FrontHolds(plan, h, Fnv(metadata, FNV_INIT), |metadata|, uuid) && BackHolds(plan, h)
  }

  predicate SameBut(a: seq<byte>, b: seq<byte>, off: nat, n: nat) {
    |a| == |b| && forall i: nat {:trigger a[i]} :: i < |a| && !(off <= i < off + n) ==> a[i] == b[i]
  }

  method Store16(h: array<byte>, off: nat, x: u16)
    requires off + 2 <= h.Length
    modifies h
    ensures U16At(h[..], off) == x && SameBut(h[..], old(h[..]), off, 2)
  {
    h[off] := x % 256;
    h[off + 1] := x / 256;
  }

  method Store32(h: array<byte>, off: nat, x: u32)
    requires off + 4 <= h.Length
    modifies h
    ensures U32At(h[..], off) == x && SameBut(h[..], old(h[..]), off, 4)
  {
    h[off] := x % 256;
    h[off + 1] := x / 256 % 256;
    h[off + 2] := x / 256 / 256 % 256;
    h[off + 3] := x / 256 / 256 / 256;
    LoadStored(x);
  }

  method StoreBytes(h: array<byte>, off: nat, b: seq<byte>)
    requires off + |b| <= h.Length
    modifies h
    ensures Has(h[..], off, b) && SameBut(h[..], old(h[..]), off, |b|)
  {
    for i := 0 to |b|
      invariant forall k: nat {:trigger b[k]} :: k < i ==> h[off + k] == b[k]
      invariant forall k: nat {:trigger h[k]} :: k < h.Length && !(off <= k < off + i) ==> h[k] == old(h[k])
    {
      h[off + i] := b[i];
    }
  }

  method EncodeHeader(plan: Plan, metadata: seq<byte>, uuid: seq<byte>) returns (h: array<byte>)
    requires plan.dirs != [] && plan.rootAttr < |plan.attrCells| && |uuid| == 16
    ensures fresh(h) && HeaderHolds(plan, h[..], metadata, uuid)
  {
    h := new byte[HEADER](_ => 0);
    var hash := Fnv1(metadata, FNV_INIT);
    EncodeFront(plan, hash, |metadata|, uuid, h);
    ghost var front := h[..];
    EncodeBack(plan, h);
    FrontKept(plan, front, h[..], hash, |metadata|, uuid);
  }

  method EncodeFront(plan: Plan, hash: u32, size: nat, uuid: seq<byte>, h: array<byte>)
    requires h.Length == HEADER && U32At(h[..], 8) == 0 && |uuid| == 16
    modifies h
    ensures FrontHolds(plan, h[..], hash, size, uuid) && SameBut(h[..], old(h[..]), 0, 52)
  {
    StoreBytes(h, 0, MAGIC);
    Store16(h, 6, 0x0100);
    Store32(h, 12, hash);
    StoreBytes(h, 16, uuid);
    Store32(h, 32, Word(plan.o.imageSize));
    Store32(h, 36, Word(plan.cellCount));
    Store32(h, 40, Word(plan.o.publicOff));
    Store32(h, 44, Word(plan.o.privateOff));
    Store32(h, 48, Word(size));
  }

  method EncodeBack(plan: Plan, h: array<byte>)
    requires plan.dirs != [] && plan.rootAttr < |plan.attrCells| && h.Length == HEADER && h[67] == 0
    modifies h
    ensures BackHolds(plan, h[..]) && SameBut(h[..], old(h[..]), 52, 76)
  {
    var root := plan.dirs[0];
    Store32(h, 52, Word(root.first));
    Store32(h, 56, Word(|root.slots|));
    Store32(h, 60, Word(|root.children|));
    Store16(h, 64, Half(plan.attrCells[plan.rootAttr]));
    h[66] := HashByte(root);
    Store32(h, 68, plan.hash2);
    StoreBytes(h, 72, Author());
  }

  lemma FrontKept(plan: Plan, was: seq<byte>, h: seq<byte>, hash: u32, size: nat, uuid: seq<byte>)
    requires FrontHolds(plan, was, hash, size, uuid) && |uuid| == 16 && SameBut(h, was, 52, 76)
    ensures FrontHolds(plan, h, hash, size, uuid)
  {
  }

  // ---------------------------------------------------------------- reading

  /** `ff_header`, on an image of this many bytes. */
  predicate HeaderFine(h: seq<byte>, capacity: nat)
    requires |h| <= capacity
  {
    && |h| >= HEADER && h[..6] == MAGIC && h[7] == 1 && h[72..128] == Author() && h[67] == 0
    && var size, count, publicOff, privateOff := U32At(h, 32), U32At(h, 36), U32At(h, 40), U32At(h, 44);
    && 0 < count <= MAX_CELLS && 0 < size <= capacity && U32At(h, 48) == count * CELL
    && HEADER + count * CELL <= publicOff <= privateOff <= size
    && publicOff % PAGE == 0 && privateOff % PAGE == 0 && size % PAGE == 0
  }

  /** The start of `ff_validate`: the image that these bytes are, unless the header or the hash is wrong. */
  function ReadImage(b: seq<byte>): (r: Option<Image>)
    ensures r.Some? ==> HeaderOk(r.value)
  {
    if |b| < HEADER || U32At(b, 32) != |b| || !HeaderFine(b, |b|) then None
    else
      var count := U32At(b, 36);
      if Fnv(b[HEADER..HEADER + count * CELL], FNV_INIT) != U32At(b, 12) then None
      else
        Some(Image(b, CellsOf(b, count), U32At(b, 40), U32At(b, 44), U32At(b, 68),
                   Dir(U32At(b, 52), U32At(b, 56), U32At(b, 60), b[66]), U16At(b, 64)))
  }

  /** What reading has established, number by number. */
  lemma HeaderRead(im: Image)
    requires ReadImage(im.bytes) == Some(im)
    ensures |im.bytes| >= 128 + 16 * |im.cells| && 0 < |im.cells| <= 65535
    ensures im.bytes[..6] == [48, 70, 83, 0, 0, 4] && im.bytes[7] == 1 && im.bytes[67] == 0
    ensures im.bytes[72..128] == Author()
    ensures U32At(im.bytes, 12) == Fnv(im.bytes[128..128 + 16 * |im.cells|], 0x811c9dc5)
    ensures U32At(im.bytes, 32) == |im.bytes| && U32At(im.bytes, 36) == |im.cells|
    ensures U32At(im.bytes, 48) == 16 * |im.cells| && U32At(im.bytes, 68) == im.hash2
    ensures U32At(im.bytes, 40) == im.publicOff && U32At(im.bytes, 44) == im.privateOff
    ensures U32At(im.bytes, 52) == im.root.off && U32At(im.bytes, 56) == im.root.size
    ensures U32At(im.bytes, 60) == im.root.entries && im.bytes[66] == im.root.hash && U16At(im.bytes, 64) == im.rootAttr
    ensures 128 + 16 * |im.cells| <= im.publicOff <= im.privateOff <= |im.bytes|
    ensures im.publicOff % 4096 == 0 && im.privateOff % 4096 == 0 && |im.bytes| % 4096 == 0
  {
  }

  /** And cell by cell. */
  lemma CellRead(im: Image, c: nat)
    requires ReadImage(im.bytes) == Some(im) && c < |im.cells|
    ensures |im.bytes| >= 128 + 16 * c + 16 && im.cells[c] == SliceCell(im.bytes, 128 + 16 * c)
  {
    CellsAre(im.bytes, im);
    CellListed(im.bytes, |im.cells|, c);
  }

  lemma CellListed(b: seq<byte>, count: nat, c: nat)
    requires c < count && HEADER + CELL * count <= |b|
    ensures CellsOf(b, count)[c] == SliceCell(b, HEADER + CELL * c)
  {
  }

  lemma CellsAre(b: seq<byte>, im: Image)
    requires ReadImage(b) == Some(im)
    ensures |b| >= HEADER + CELL * |im.cells| && im.cells == CellsOf(b, |im.cells|)
  {
    var count := U32At(b, 36);
    assert |CellsOf(b, count)| == count;
  }

  /** Reading fails exactly on a wrong size, mark, version, author or padding, on parts out of order or off page
      boundaries, and on a table that does not have the hash the header states. */
  lemma ReadExactly(b: seq<byte>)
    ensures ReadImage(b).Some? <==>
            && |b| >= 128 && b[..6] == [48, 70, 83, 0, 0, 4] && b[7] == 1 && b[72..128] == Author() && b[67] == 0
            && U32At(b, 32) == |b| && 0 < U32At(b, 36) <= 65535 && U32At(b, 48) == 16 * U32At(b, 36)
            && 128 + 16 * U32At(b, 36) <= U32At(b, 40) <= U32At(b, 44) <= |b|
            && U32At(b, 40) % 4096 == 0 && U32At(b, 44) % 4096 == 0 && |b| % 4096 == 0
            && Fnv(b[128..128 + 16 * U32At(b, 36)], 0x811c9dc5) == U32At(b, 12)
  {
  }

  /** Nobody takes a zero head for an image. */
  lemma ZeroHeadRefused(b: seq<byte>)
    requires |b| >= 16 && forall i: nat :: i < 16 ==> b[i] == 0
    ensures ReadImage(b).None?
  {
    assert |b| >= 6 ==> b[..6][0] == b[0];
  }

  /** Whatever a crash leaves, from the first flush on, the decoder either reads no image there or has the whole of
      the one that was written. */
  lemma CrashReads(base: seq<byte>, log: seq<Devices.Op>, image: seq<byte>, n: nat, sector: nat, c: seq<byte>)
    requires |base| % PAGE == 0 && Commit.Committed(base, log, image) && Devices.SectorOk(sector)
    requires 2 <= n <= |log| && Devices.LogOk(log[..n], |base|) && Devices.CrashState(base, log[..n], sector, c)
    ensures ReadImage(c).None? || c[..|image|] == image
    ensures n == |log| ==> c[..|image|] == image
  {
    Commit.CrashSafe(base, log, image, n, sector, c);
    if c[..|image|] != image {
      ZeroHeadRefused(c);
    }
  }

  /** The header's fields are what the image says, where it says it. */
  lemma BytesThere(p: Commit.Plan, i: nat)
    requires Commit.PlanOk(p) && i < HEADER + |p.metadata| && !(8 <= i < 12)
    ensures |Commit.Image(p)| == p.size
    ensures Commit.Image(p)[i] == if i < HEADER then p.header[i] else p.metadata[i - HEADER]
  {
    if i >= 16 {
      assert Commit.Image(p)[i] == Commit.Body(p)[i - 16] == Commit.BodyByte(p, i);
    } else {
      assert Commit.Image(p)[i] == Commit.Stamped(p)[..16][i];
    }
  }

  /** b starts with the header, apart from the hash of the whole. */
  ghost predicate Heads(b: seq<byte>, h: seq<byte>) {
    |h| == HEADER <= |b| && forall i: nat {:trigger b[i]} :: i < HEADER && !(8 <= i < 12) ==> b[i] == h[i]
  }

  ghost predicate Follows(b: seq<byte>, metadata: seq<byte>) {
    HEADER + |metadata| <= |b| && b[HEADER..HEADER + |metadata|] == metadata
  }

  lemma ImageCarries(p: Commit.Plan)
    requires Commit.PlanOk(p)
    ensures Heads(Commit.Image(p), p.header) && Follows(Commit.Image(p), p.metadata) && |Commit.Image(p)| == p.size
  {
    var b := Commit.Image(p);
    BytesThere(p, 0);
    forall i: nat | i < HEADER + |p.metadata| && !(8 <= i < 12)
      ensures b[i] == if i < HEADER then p.header[i] else p.metadata[i - HEADER]
    {
      BytesThere(p, i);
    }
  }

  lemma CellFollows(b: seq<byte>, metadata: seq<byte>, off: nat)
    requires Follows(b, metadata) && off + CELL <= |metadata|
    ensures SliceCell(b, HEADER + off) == SliceCell(metadata, off)
  {
    SubSlice(b, HEADER, |metadata|, off, CELL);
  }

  function CellsOf(b: seq<byte>, count: nat): seq<Raw>
    requires HEADER + CELL * count <= |b|
  {
    seq(count, c requires 0 <= c < count => SliceCell(b, HEADER + CELL * c))
  }

  lemma CellsRead(b: seq<byte>, metadata: seq<byte>, cells: seq<Raw>)
    requires Follows(b, metadata) && Tabled(metadata, cells)
    ensures CellsOf(b, |cells|) == cells
  {
    forall c: nat | c < |cells|
      ensures SliceCell(b, HEADER + CELL * c) == cells[c]
    {
      CellFollows(b, metadata, CELL * c);
    }
  }

  /** What the plan's numbers must be for the fields to hold them. */
  predicate FieldsFit(plan: Plan) {
    && plan.dirs != [] && plan.rootAttr < |plan.attrCells|
    && plan.dirs[0].first < U32 && |plan.dirs[0].slots| < U32 && |plan.dirs[0].children| < U32
    && plan.attrCells[plan.rootAttr] < 65536 && 0 < plan.cellCount <= MAX_CELLS
    && HEADER + CELL * plan.cellCount <= plan.o.publicOff <= plan.o.privateOff <= plan.o.imageSize < U32
    && plan.o.publicOff % PAGE == 0 && plan.o.privateOff % PAGE == 0 && plan.o.imageSize % PAGE == 0
  }

  lemma FrontRead(plan: Plan, b: seq<byte>, h: seq<byte>, hash: u32, size: nat, uuid: seq<byte>)
    requires Heads(b, h) && FrontHolds(plan, h, hash, size, uuid)
    ensures |b| >= HEADER && b[..6] == MAGIC && b[7] == 1 && U32At(b, 12) == hash
    ensures U32At(b, 32) == Word(plan.o.imageSize) && U32At(b, 36) == Word(plan.cellCount)
    ensures U32At(b, 40) == Word(plan.o.publicOff) && U32At(b, 44) == Word(plan.o.privateOff)
    ensures U32At(b, 48) == Word(size)
  {
    forall i: nat | i < 6
      ensures b[..6][i] == MAGIC[i]
    {
      assert b[i] == h[i];
    }
  }

  lemma BackRead(plan: Plan, b: seq<byte>, h: seq<byte>)
    requires plan.dirs != [] && plan.rootAttr < |plan.attrCells| && Heads(b, h) && BackHolds(plan, h)
    ensures |b| >= HEADER && b[72..128] == Author() && b[67] == 0 && b[66] == HashByte(plan.dirs[0])
    ensures U32At(b, 52) == Word(plan.dirs[0].first) && U32At(b, 56) == Word(|plan.dirs[0].slots|)
    ensures U32At(b, 60) == Word(|plan.dirs[0].children|) && U32At(b, 68) == plan.hash2
    ensures U16At(b, 64) == Half(plan.attrCells[plan.rootAttr])
  {
    forall i: nat | i < 56
      ensures b[72..128][i] == Author()[i]
    {
      assert b[72 + i] == h[72 + i];
    }
  }

  lemma UuidRead(plan: Plan, b: seq<byte>, h: seq<byte>, metadata: seq<byte>, uuid: seq<byte>)
    requires plan.dirs != [] && plan.rootAttr < |plan.attrCells|
    requires Heads(b, h) && HeaderHolds(plan, h, metadata, uuid) && |uuid| == 16
    ensures |b| >= 32 && b[6] == 0 && b[16..32] == uuid
  {
    forall i: nat | i < 16
      ensures b[16..32][i] == uuid[i]
    {
      assert b[16 + i] == h[16 + i];
    }
  }

  /** The decoded numbers are the plan's. */
  lemma NumbersRead(plan: Plan, b: seq<byte>, h: seq<byte>, hash: u32, uuid: seq<byte>)
    requires FieldsFit(plan) && Heads(b, h) && BackHolds(plan, h)
    requires FrontHolds(plan, h, hash, CELL * plan.cellCount, uuid)
    ensures |b| >= HEADER && b[..6] == MAGIC && b[7] == 1 && b[72..128] == Author() && b[67] == 0
    ensures U32At(b, 12) == hash
    ensures U32At(b, 32) == plan.o.imageSize && U32At(b, 36) == plan.cellCount && U32At(b, 48) == CELL * plan.cellCount
    ensures U32At(b, 40) == plan.o.publicOff && U32At(b, 44) == plan.o.privateOff && U32At(b, 68) == plan.hash2
    ensures var root := plan.dirs[0];
            && U32At(b, 52) == root.first && U32At(b, 56) == |root.slots| && U32At(b, 60) == |root.children|
            && b[66] == HashByte(root) && U16At(b, 64) == plan.attrCells[plan.rootAttr]
  {
    FrontRead(plan, b, h, hash, CELL * plan.cellCount, uuid);
    BackRead(plan, b, h);
    WordsFit(plan);
  }

  lemma WordsFit(plan: Plan)
    requires FieldsFit(plan)
    ensures forall x: nat :: x < U32 ==> Word(x) == x
    ensures Half(plan.attrCells[plan.rootAttr]) == plan.attrCells[plan.rootAttr]
  {
  }

  /** What is written is what is read: the image's bytes are decoded to its offsets, its root and its cells. */
  lemma ReadsBack(plan: Plan, b: seq<byte>, h: seq<byte>, cells: seq<Raw>, metadata: seq<byte>, uuid: seq<byte>)
    requires FieldsFit(plan) && |cells| == plan.cellCount && |b| == plan.o.imageSize && Tabled(metadata, cells)
    requires Heads(b, h) && Follows(b, metadata) && HeaderHolds(plan, h, metadata, uuid)
    ensures ReadImage(b) == Some(ImageOf(plan, cells, b))
  {
    NumbersRead(plan, b, h, Fnv(metadata, FNV_INIT), uuid);
    CellsRead(b, metadata, cells);
  }
}
