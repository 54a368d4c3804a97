/** The two content parts (programs/makefemtofs.cpp:1712-1741) and why the reader accepts what is packed
    there (ko/image.c:103-115, 280-293). */
module Content {
  import opened Format
  import opened Counting
  import opened Sorting
  import opened Packing
  import Sweep
  import ImageTree
  import Commit

  datatype Offsets = Offsets(publicOff: nat, privateOff: nat, imageSize: nat)

  /** y is the first page boundary from x on. */
  predicate Rounded(x: nat, y: nat) {
    x <= y < x + 4096 && y % 4096 == 0
  }

  /** Up to the next page. */
  function AlignUp(x: nat): (r: nat)
    ensures Rounded(x, r)
  {
    (x + PAGE - 1) / PAGE * PAGE
  }

  method AlignTo(value: nat) returns (r: Result<nat>)
    ensures r.Ok? <==> AlignUp(value) < U32
    ensures r.Ok? ==> r.value == AlignUp(value)
  {
    r := CheckedAlignUp(value);
    assert r.Ok? ==> r.value == AlignUp(value) by {
      assert r.Ok? ==> r.value == r.value / PAGE * PAGE;
    }
  }

  /** The blobs of one part among the first k. */
  function Members(blobs: seq<Blob>, isPublic: bool, k: nat): (m: seq<nat>)
    requires k <= |blobs|
    ensures forall j: nat {:trigger m[j]} :: j < |m| ==> m[j] < k && blobs[m[j]].publicPart == isPublic
  {
    if k == 0 then []
    else Members(blobs, isPublic, k - 1) + (if blobs[k - 1].publicPart == isPublic then [k - 1] else [])
  }

  lemma {:induction false} MembersAre(blobs: seq<Blob>, isPublic: bool, k: nat)
    requires k <= |blobs|
    ensures Distinct(Members(blobs, isPublic, k))
    ensures forall i: nat :: i < k && blobs[i].publicPart == isPublic ==> i in Members(blobs, isPublic, k)
  {
    if k > 0 {
      MembersAre(blobs, isPublic, k - 1);
    }
  }

  /** Where packing a part ends, counted from its start. */
  ghost function Tail(blobs: seq<Blob>, isPublic: bool): nat {
    IdealTail(blobs, Members(blobs, isPublic, |blobs|))
  }

  /** Closed, see `Key`. */
  ghost predicate IsTail(blobs: seq<Blob>, isPublic: bool, tail: nat) {
    forall k: nat {:trigger Key(k)} :: Key(k) ==> tail == Tail(blobs, isPublic)
  }

  /** The size the image comes to: metadata, public part, private part, each up to the next page. */
  ghost function Size(blobs: seq<Blob>, cellCount: nat): nat {
    SizeFrom(cellCount, Tail(blobs, true), Tail(blobs, false))
  }

  function SizeFrom(cellCount: nat, publicTail: nat, privateTail: nat): nat {
    AlignUp(AlignUp(AlignUp(HEADER + CELL * cellCount) + publicTail) + privateTail)
  }

  /** Nothing along the way is larger than the whole. */
  lemma SizeSteps(cellCount: nat, publicTail: nat, privateTail: nat)
    ensures var publicOff := AlignUp(HEADER + CELL * cellCount);
            var privateOff := AlignUp(publicOff + publicTail);
            && publicOff + publicTail <= privateOff
            && privateOff + privateTail <= SizeFrom(cellCount, publicTail, privateTail)
            && AlignUp(privateOff + privateTail) == SizeFrom(cellCount, publicTail, privateTail)
  {
  }

  function ExtentOf(blobs: seq<Blob>, imageOff: seq<nat>, i: nat): Extent
    requires i < |blobs| == |imageOff|
  {
    Extent(imageOff[i], blobs[i].stored)
  }

  /** Well placed, in its part. */
  predicate BlobPlaced(blobs: seq<Blob>, imageOff: seq<nat>, o: Offsets, i: nat)
    requires i < |blobs| == |imageOff|
  {
    var x := ExtentOf(blobs, imageOff, i);
    BlobOk(x) && if blobs[i].publicPart then o.publicOff <= x.offset && x.offset + x.size <= o.privateOff
                 else o.privateOff <= x.offset && x.offset + x.size <= o.imageSize
  }

  /** Every blob is well placed in its part, and none touches another. */
  ghost predicate WellPacked(blobs: seq<Blob>, imageOff: seq<nat>, o: Offsets, cellCount: nat) {
    && |imageOff| == |blobs|
    && HEADER + CELL * cellCount <= o.publicOff <= o.privateOff <= o.imageSize < U32
    && o.publicOff % PAGE == 0 && o.privateOff % PAGE == 0 && o.imageSize % PAGE == 0
    && (forall i: nat {:trigger blobs[i]} {:trigger BlobPlaced(blobs, imageOff, o, i)} :: i < |blobs| ==>
          BlobPlaced(blobs, imageOff, o, i))
    && (forall i: nat, j: nat {:trigger blobs[i], blobs[j]} :: i < |blobs| && j < |blobs| && i != j ==>
          Apart(ExtentOf(blobs, imageOff, i), ExtentOf(blobs, imageOff, j)))
  }

  /** `packContent`.  It succeeds exactly when the whole image has a 32-bit size. */
  method PackContent(blobs: seq<Blob>, cellCount: nat, imageOff: array<nat>) returns (r: Result<Offsets>)
    requires imageOff.Length == |blobs| && forall i: nat {:trigger blobs[i]} :: i < |blobs| ==> Storable(blobs[i])
    modifies imageOff
    ensures r.Ok? <==> Size(blobs, cellCount) < U32
    ensures r.Ok? ==> WellPacked(blobs, imageOff[..], r.value, cellCount) && r.value.imageSize == Size(blobs, cellCount)
    ensures r.Ok? ==> PartsInTurn(blobs, cellCount, imageOff[..], r.value)
  {
    ghost var pub, priv := Tail(blobs, true), Tail(blobs, false);
    assert Size(blobs, cellCount) == SizeFrom(cellCount, pub, priv);
    SizeSteps(cellCount, pub, priv);
    r := PackSized(blobs, cellCount, imageOff, pub, priv);
  }

  /** The steps, with the parts' tails given. */
  method PackSized(blobs: seq<Blob>, cellCount: nat, imageOff: array<nat>, ghost pub: nat, ghost priv: nat)
    returns (r: Result<Offsets>)
    requires imageOff.Length == |blobs| && forall i: nat {:trigger blobs[i]} :: i < |blobs| ==> Storable(blobs[i])
    requires IsTail(blobs, true, pub) && IsTail(blobs, false, priv)
    modifies imageOff
    ensures r.Ok? <==> SizeFrom(cellCount, pub, priv) < U32
    ensures r.Ok? ==>
              WellPacked(blobs, imageOff[..], r.value, cellCount) && r.value.imageSize == SizeFrom(cellCount, pub, priv)
    ensures r.Ok? ==> PartsInTurn(blobs, cellCount, imageOff[..], r.value)
  {
    SizeSteps(cellCount, pub, priv);
    var publicOff := AlignTo(HEADER + CELL * cellCount);
    if publicOff.Err? {
      return Err("metadata end exceeds uint32_t");
    }
    var publicTail := PackMembers(blobs, true, publicOff.value, imageOff, pub);
    if publicTail.Err? {
      return Err("public content part exceeds uint32_t");
    }
    ghost var first := imageOff[..];
    var privateOff := AlignTo(publicOff.value + publicTail.value);
    if privateOff.Err? {
      return Err("private content start exceeds uint32_t");
    }
    var privateTail := PackMembers(blobs, false, privateOff.value, imageOff, priv);
    if privateTail.Err? {
      return Err("image content exceeds uint32_t");
    }
    var imageSize := AlignTo(privateOff.value + privateTail.value);
    if imageSize.Err? {
      return Err("image size exceeds uint32_t");
    }
    r := Ok(Offsets(publicOff.value, privateOff.value, imageSize.value));
    BothPacked(blobs, first, imageOff[..], r.value, publicTail.value, privateTail.value, cellCount);
    StillPacked(blobs, first, imageOff[..], r.value.publicOff, publicTail.value);
    assert PartsPacked(blobs, cellCount, imageOff[..], r.value, publicTail.value, privateTail.value);
  }

  /** One part of the content: the blobs of this visibility, packed one after the other. */
  ghost predicate PartOf(blobs: seq<Blob>, isPublic: bool, start: nat, imageOff: seq<nat>, tail: nat) {
    forall k: nat {:trigger Key(k)} :: Key(k) && k == 3 ==>
      PackedSo(blobs, Members(blobs, isPublic, |blobs|), start, imageOff, tail)
  }

  ghost predicate PartsPacked(blobs: seq<Blob>, cellCount: nat, imageOff: seq<nat>, o: Offsets, publicTail: nat,
                              privateTail: nat) {
    && Rounded(128 + 16 * cellCount, o.publicOff) && PartOf(blobs, true, o.publicOff, imageOff, publicTail)
    && Rounded(o.publicOff + publicTail, o.privateOff) && PartOf(blobs, false, o.privateOff, imageOff, privateTail)
    && Rounded(o.privateOff + privateTail, o.imageSize)
  }

  /** The public part follows the table, the private part the public one, each from the next page on. */
  ghost predicate PartsInTurn(blobs: seq<Blob>, cellCount: nat, imageOff: seq<nat>, o: Offsets) {
    exists a: nat, b: nat {:trigger PartsPacked(blobs, cellCount, imageOff, o, a, b)} ::
      PartsPacked(blobs, cellCount, imageOff, o, a, b)
  }

  /** Packing the private part leaves the public one where it is. */
  lemma StillPacked(blobs: seq<Blob>, first: seq<nat>, imageOff: seq<nat>, start: nat, tail: nat)
    requires PartOf(blobs, true, start, first, tail) && |first| == |imageOff| == |blobs|
    requires forall x: nat :: x < |blobs| && x !in Members(blobs, false, |blobs|) ==> imageOff[x] == first[x]
    ensures PartOf(blobs, true, start, imageOff, tail)
  {
    var members := Members(blobs, true, |blobs|);
    forall x: nat | x in members
      ensures x < |blobs| && imageOff[x] == first[x]
    {
      NotOther(blobs, x);
    }
    assert Key(3);
    PackedKept(blobs, members, start, first, imageOff, tail);
  }

  /** One part. */
  method PackMembers(blobs: seq<Blob>, isPublic: bool, start: nat, imageOff: array<nat>, ghost tail: nat)
    returns (r: Result<nat>)
    requires imageOff.Length == |blobs| && start % PAGE == 0
    requires forall i: nat {:trigger blobs[i]} :: i < |blobs| ==> Storable(blobs[i])
    modifies imageOff
    requires IsTail(blobs, isPublic, tail)
    ensures if r.Ok? then r.value == tail else start + tail >= U32
    ensures r.Ok? ==> PartPacked(blobs, Members(blobs, isPublic, |blobs|), imageOff[..], start, r.value)
    ensures r.Ok? ==> PartOf(blobs, isPublic, start, imageOff[..], r.value)
    ensures forall x: nat :: x < |blobs| && x !in Members(blobs, isPublic, |blobs|) ==> imageOff[x] == old(imageOff[x])
  {
    assert Key(0);
    MembersAre(blobs, isPublic, |blobs|);
    ghost var placed, holes;
    r, placed, holes := PackPart(blobs, Members(blobs, isPublic, |blobs|), start, imageOff);
  }

  lemma BothPacked(blobs: seq<Blob>, first: seq<nat>, imageOff: seq<nat>, o: Offsets, publicTail: nat, privateTail: nat,
                   cellCount: nat)
    requires PartPacked(blobs, Members(blobs, true, |blobs|), first, o.publicOff, publicTail)
    requires PartPacked(blobs, Members(blobs, false, |blobs|), imageOff, o.privateOff, privateTail)
    requires forall x: nat :: x < |blobs| && x !in Members(blobs, false, |blobs|) ==> imageOff[x] == first[x]
    requires HEADER + CELL * cellCount <= o.publicOff && o.publicOff % PAGE == 0 && o.privateOff % PAGE == 0
    requires o.imageSize % PAGE == 0
    requires o.publicOff + publicTail <= o.privateOff && o.privateOff + privateTail <= o.imageSize < U32
    ensures WellPacked(blobs, imageOff, o, cellCount)
  {
    forall i: nat | i < |blobs|
      ensures BlobPlaced(blobs, imageOff, o, i)
    {
      OnePacked(blobs, first, imageOff, o, publicTail, privateTail, i);
    }
    forall i: nat, j: nat | i < |blobs| && j < |blobs| && i != j
      ensures Apart(ExtentOf(blobs, imageOff, i), ExtentOf(blobs, imageOff, j))
    {
      if blobs[i].publicPart == blobs[j].publicPart {
        PairPacked(blobs, first, imageOff, o, publicTail, privateTail, i, j);
      } else {
        assert BlobPlaced(blobs, imageOff, o, i) && BlobPlaced(blobs, imageOff, o, j);
      }
    }
  }

  lemma OnePacked(blobs: seq<Blob>, first: seq<nat>, imageOff: seq<nat>, o: Offsets, publicTail: nat, privateTail: nat,
                  i: nat)
    requires PartPacked(blobs, Members(blobs, true, |blobs|), first, o.publicOff, publicTail)
    requires PartPacked(blobs, Members(blobs, false, |blobs|), imageOff, o.privateOff, privateTail)
    requires forall x: nat :: x < |blobs| && x !in Members(blobs, false, |blobs|) ==> imageOff[x] == first[x]
    requires o.publicOff + publicTail <= o.privateOff && o.privateOff + privateTail <= o.imageSize && i < |blobs|
    ensures BlobPlaced(blobs, imageOff, o, i)
  {
    MembersAre(blobs, blobs[i].publicPart, |blobs|);
    if blobs[i].publicPart {
      NotOther(blobs, i);
      assert InPart(blobs, first, o.publicOff, publicTail, i);
    } else {
      assert InPart(blobs, imageOff, o.privateOff, privateTail, i);
    }
  }

  lemma NotOther(blobs: seq<Blob>, i: nat)
    requires i < |blobs|
    ensures i !in Members(blobs, !blobs[i].publicPart, |blobs|)
  {
  }

  lemma PairPacked(blobs: seq<Blob>, first: seq<nat>, imageOff: seq<nat>, o: Offsets, publicTail: nat, privateTail: nat,
                   i: nat, j: nat)
    requires PartPacked(blobs, Members(blobs, true, |blobs|), first, o.publicOff, publicTail)
    requires PartPacked(blobs, Members(blobs, false, |blobs|), imageOff, o.privateOff, privateTail)
    requires forall x: nat :: x < |blobs| && x !in Members(blobs, false, |blobs|) ==> imageOff[x] == first[x]
    requires i < |blobs| && j < |blobs| && i != j && blobs[i].publicPart == blobs[j].publicPart
    ensures Apart(ExtentOf(blobs, imageOff, i), ExtentOf(blobs, imageOff, j))
  {
    MembersAre(blobs, blobs[i].publicPart, |blobs|);
    if blobs[i].publicPart {
      NotOther(blobs, i);
      NotOther(blobs, j);
      assert KeptApart(blobs, first, i, j);
    } else {
      assert KeptApart(blobs, imageOff, i, j);
    }
  }

  // ---------------------------------------------------------------- the reader's tests

  /** The image holds the blob's bytes, then zeros up to its stored size. */
  ghost predicate Written(bytes: seq<byte>, off: nat, b: Blob) {
    off + b.stored <= |bytes| && |b.bytes| <= b.stored && bytes[off..off + |b.bytes|] == b.bytes
    && forall i: nat {:trigger bytes[i]} :: off + |b.bytes| <= i < off + b.stored ==> bytes[i] == 0
  }

  /** The reader's test of one reference passes for every packed blob. */
  lemma PackedFits(blobs: seq<Blob>, imageOff: seq<nat>, o: Offsets, cellCount: nat, im: ImageTree.Image, i: nat,
                   symlink: bool)
    requires WellPacked(blobs, imageOff, o, cellCount) && i < |blobs| && Storable(blobs[i]) && ImageTree.HeaderOk(im)
    requires im.publicOff == o.publicOff && im.privateOff == o.privateOff && |im.bytes| == o.imageSize
    requires Written(im.bytes, imageOff[i], blobs[i])
    requires symlink ==> !blobs[i].publicPart && 0 !in blobs[i].bytes
    ensures ImageTree.BlobFits(im, imageOff[i], |blobs[i].bytes|, symlink)
  {
    var b, off := blobs[i], imageOff[i];
    assert BlobOk(ExtentOf(blobs, imageOff, i));
    assert b.stored == Sweep.StoredSize(|b.bytes|);
    if symlink {
      forall k: nat | off <= k < off + |b.bytes|
        ensures im.bytes[k] != 0
      {
        assert im.bytes[k] == im.bytes[off..off + |b.bytes|][k - off] == b.bytes[k - off];
      }
    }
  }

  /** What is handed to the device: the header, the metadata, and the packed blobs at their offsets. */
  function DevicePlan(header: seq<byte>, metadata: seq<byte>, blobs: seq<Blob>, imageOff: seq<nat>,
                      o: Offsets): Commit.Plan
    requires |imageOff| == |blobs|
  {
    Commit.Plan(header, metadata,
                seq(|blobs|, i requires 0 <= i < |blobs| => Commit.Piece(imageOff[i], blobs[i].bytes)), o.imageSize)
  }

  lemma StoredHolds(b: Blob)
    requires Storable(b)
    ensures |b.bytes| < b.stored
  {
  }

  /** Packed blobs make a plan fit for the device: inside the image, off the metadata, off each other. */
  lemma PackedPlan(header: seq<byte>, metadata: seq<byte>, blobs: seq<Blob>, imageOff: seq<nat>, o: Offsets,
                   cellCount: nat)
    requires WellPacked(blobs, imageOff, o, cellCount) && |header| == HEADER && |metadata| == CELL * cellCount
    requires forall i: nat {:trigger blobs[i]} :: i < |blobs| ==> Storable(blobs[i])
    ensures Commit.PlanOk(DevicePlan(header, metadata, blobs, imageOff, o))
  {
    var plan := DevicePlan(header, metadata, blobs, imageOff, o);
    forall k: nat | k < |plan.blobs|
      ensures HEADER + |metadata| <= plan.blobs[k].off && plan.blobs[k].off + |plan.blobs[k].bytes| <= plan.size
    {
      StoredHolds(blobs[k]);
      assert BlobPlaced(blobs, imageOff, o, k);
    }
    forall j: nat, k: nat, i: nat {:trigger Commit.Inside(plan.blobs[j], i), Commit.Inside(plan.blobs[k], i)}
      | j < k < |plan.blobs|
      ensures !(Commit.Inside(plan.blobs[j], i) && Commit.Inside(plan.blobs[k], i))
    {
      OffOthers(blobs, imageOff, o, cellCount, j, k, i);
    }
  }

  /** A byte of one blob's stored extent is in no other blob. */
  lemma OffOthers(blobs: seq<Blob>, imageOff: seq<nat>, o: Offsets, cellCount: nat, j: nat, k: nat, i: nat)
    requires WellPacked(blobs, imageOff, o, cellCount) && j < |blobs| && k < |blobs| && j != k && Storable(blobs[k])
    ensures imageOff[j] <= i < imageOff[j] + blobs[j].stored ==>
              !Commit.Inside(Commit.Piece(imageOff[k], blobs[k].bytes), i)
  {
    StoredHolds(blobs[k]);
    assert Apart(ExtentOf(blobs, imageOff, j), ExtentOf(blobs, imageOff, k));
  }

  lemma {:induction false} NothingThere(pieces: seq<Commit.Piece>, i: nat)
    requires forall k: nat {:trigger pieces[k]} :: k < |pieces| ==> !Commit.Inside(pieces[k], i)
    ensures Commit.BlobByte(pieces, i) == 0
  {
    if pieces != [] {
      NothingThere(pieces[..|pieces| - 1], i);
    }
  }

  /** The image holds every packed blob, followed by zeros up to its stored size. */
  lemma ImageHolds(header: seq<byte>, metadata: seq<byte>, blobs: seq<Blob>, imageOff: seq<nat>, o: Offsets,
                   cellCount: nat,
                   b: nat)
    requires WellPacked(blobs, imageOff, o, cellCount) && |header| == HEADER && |metadata| == CELL * cellCount
    requires b < |blobs| && forall i: nat {:trigger blobs[i]} :: i < |blobs| ==> Storable(blobs[i])
    ensures Commit.PlanOk(DevicePlan(header, metadata, blobs, imageOff, o))
    ensures Written(Commit.Image(DevicePlan(header, metadata, blobs, imageOff, o)), imageOff[b], blobs[b])
  {
    var plan := DevicePlan(header, metadata, blobs, imageOff, o);
    PackedPlan(header, metadata, blobs, imageOff, o, cellCount);
    Commit.ImageHoldsBlob(plan, b);
    StoredHolds(blobs[b]);
    assert BlobPlaced(blobs, imageOff, o, b);
    var image := Commit.Image(plan);
    forall i: nat | imageOff[b] + |blobs[b].bytes| <= i < imageOff[b] + blobs[b].stored
      ensures image[i] == 0
    {
      forall k: nat | k < |plan.blobs|
        ensures !Commit.Inside(plan.blobs[k], i)
      {
        if k != b {
          OffOthers(blobs, imageOff, o, cellCount, b, k, i);
        }
      }
      NothingThere(plan.blobs, i);
      assert image[i] == Commit.Body(plan)[i - 16] == Commit.BodyByte(plan, i);
    }
  }

  /** Each reference is to one of the blobs; a blob is public exactly when one of its references is. */
  ghost predicate RefersTo(refs: seq<Sweep.Ref>, of: seq<nat>, blobs: seq<Blob>, imageOff: seq<nat>) {
    && |of| == |refs| && |imageOff| == |blobs|
    && (forall r: nat {:trigger refs[r]} {:trigger of[r]} :: r < |refs| ==>
          of[r] < |blobs| && refs[r].off == imageOff[of[r]] && refs[r].size == |blobs[of[r]].bytes|
          && refs[r].symlink == (blobs[of[r]].domain != 0))
    && (forall r: nat {:trigger refs[r]} :: r < |refs| && refs[r].publicRef ==> blobs[of[r]].publicPart)
    && (forall r: nat {:trigger PublicSomewhere(refs, of, of[r])} :: r < |refs| && blobs[of[r]].publicPart ==>
          PublicSomewhere(refs, of, of[r]))
  }

  ghost predicate PublicSomewhere(refs: seq<Sweep.Ref>, of: seq<nat>, i: nat) {
    exists q: nat {:trigger of[q]} :: q < |refs| && q < |of| && of[q] == i && refs[q].publicRef
  }

  /** References to packed blobs never conflict, and every one lies in the part the reader expects. */
  lemma ReaderAccepts(blobs: seq<Blob>, imageOff: seq<nat>, o: Offsets, cellCount: nat, refs: seq<Sweep.Ref>,
                      of: seq<nat>)
    requires WellPacked(blobs, imageOff, o, cellCount) && RefersTo(refs, of, blobs, imageOff)
    requires forall i: nat {:trigger blobs[i]} :: i < |blobs| ==> Storable(blobs[i])
    ensures Sweep.NoConflict(Sweep.Places(refs))
    ensures forall r: nat {:trigger refs[r]} :: r < |refs| ==>
              (refs[r].off < o.privateOff <==> refs[r].off in Sweep.Publics(refs))
  {
    forall x: Sweep.Place, y: Sweep.Place | x in Sweep.Places(refs) && y in Sweep.Places(refs)
      ensures !Sweep.Conflict(x, y)
    {
      var r := Sweep.PlaceFrom(refs, x);
      var q := Sweep.PlaceFrom(refs, y);
      PlacesAgree(blobs, imageOff, o, cellCount, refs, of, r, q);
    }
    forall r: nat | r < |refs|
      ensures refs[r].off < o.privateOff <==> refs[r].off in Sweep.Publics(refs)
    {
      RightPart(blobs, imageOff, o, cellCount, refs, of, r);
    }
  }

  lemma PlacesAgree(blobs: seq<Blob>, imageOff: seq<nat>, o: Offsets, cellCount: nat, refs: seq<Sweep.Ref>,
                    of: seq<nat>, r: nat, q: nat)
    requires WellPacked(blobs, imageOff, o, cellCount) && RefersTo(refs, of, blobs, imageOff) && r < |refs|
    requires q < |refs|
    requires forall i: nat {:trigger blobs[i]} :: i < |blobs| ==> Storable(blobs[i])
    ensures !Sweep.Conflict(Sweep.PlaceOf(refs[r]), Sweep.PlaceOf(refs[q]))
  {
    var i, j := of[r], of[q];
    assert Storable(blobs[i]) && Storable(blobs[j]);
    if i != j {
      assert Apart(ExtentOf(blobs, imageOff, i), ExtentOf(blobs, imageOff, j));
    }
  }

  lemma SameOffSameBlob(blobs: seq<Blob>, imageOff: seq<nat>, o: Offsets, cellCount: nat, i: nat, j: nat)
    requires WellPacked(blobs, imageOff, o, cellCount) && i < |blobs| && j < |blobs| && imageOff[i] == imageOff[j]
    ensures i == j
  {
    assert BlobPlaced(blobs, imageOff, o, i) && BlobPlaced(blobs, imageOff, o, j);
    assert i != j ==> Apart(ExtentOf(blobs, imageOff, i), ExtentOf(blobs, imageOff, j));
  }

  lemma PublicMeans(blobs: seq<Blob>, imageOff: seq<nat>, refs: seq<Sweep.Ref>, of: seq<nat>, r: nat)
    requires RefersTo(refs, of, blobs, imageOff) && r < |refs| && blobs[of[r]].publicPart
    ensures refs[r].off in Sweep.Publics(refs)
  {
    assert PublicSomewhere(refs, of, of[r]);
    var q: nat :| q < |refs| && of[q] == of[r] && refs[q].publicRef;
    assert refs[q].off == imageOff[of[q]] == refs[r].off;
    Sweep.PlaceIn(refs, q);
  }

  lemma PrivateMeans(blobs: seq<Blob>, imageOff: seq<nat>, o: Offsets, cellCount: nat, refs: seq<Sweep.Ref>,
                     of: seq<nat>, r: nat)
    requires WellPacked(blobs, imageOff, o, cellCount) && RefersTo(refs, of, blobs, imageOff) && r < |refs|
    ensures refs[r].off in Sweep.Publics(refs) ==> blobs[of[r]].publicPart
  {
    if refs[r].off in Sweep.Publics(refs) {
      var q := Sweep.PublicFrom(refs, refs[r].off);
      assert refs[q].off == imageOff[of[q]] && blobs[of[q]].publicPart;
      SameOffSameBlob(blobs, imageOff, o, cellCount, of[r], of[q]);
    }
  }

  lemma RightPart(blobs: seq<Blob>, imageOff: seq<nat>, o: Offsets, cellCount: nat, refs: seq<Sweep.Ref>, of: seq<nat>,
                  r: nat)
    requires WellPacked(blobs, imageOff, o, cellCount) && RefersTo(refs, of, blobs, imageOff) && r < |refs|
    ensures refs[r].off < o.privateOff <==> refs[r].off in Sweep.Publics(refs)
  {
    assert BlobPlaced(blobs, imageOff, o, of[r]);
    if blobs[of[r]].publicPart {
      PublicMeans(blobs, imageOff, refs, of, r);
    } else {
      PrivateMeans(blobs, imageOff, o, cellCount, refs, of, r);
    }
  }
}
