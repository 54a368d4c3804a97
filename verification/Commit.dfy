/** Writing an image onto a device so that a crash never leaves a half-written image that looks whole
    (programs/makefemtofs.cpp:2053-2139). */
module Commit {
  import opened Format
  import opened Arith
  import opened Devices

  const BUFFER: nat := 65536

  datatype Piece = Piece(off: nat, bytes: seq<byte>)

  datatype Plan = Plan(header: seq<byte>, metadata: seq<byte>, blobs: seq<Piece>, size: nat)

  predicate Inside(b: Piece, i: nat) {
    b.off <= i < b.off + |b.bytes|
  }

  /** What the packer and the metadata encoder deliver: everything inside the image and nothing on top of
      anything else. */
  ghost predicate PlanOk(plan: Plan) {
    && |plan.header| == HEADER && plan.size % PAGE == 0 && HEADER + |plan.metadata| <= plan.size
    && (forall k: nat {:trigger plan.blobs[k]} :: k < |plan.blobs| ==>
          HEADER + |plan.metadata| <= plan.blobs[k].off && plan.blobs[k].off + |plan.blobs[k].bytes| <= plan.size)
    && (forall j: nat, k: nat, i: nat {:trigger Inside(plan.blobs[j], i), Inside(plan.blobs[k], i)} ::
          j < k < |plan.blobs| ==> !(Inside(plan.blobs[j], i) && Inside(plan.blobs[k], i)))
  }

  // ---------------------------------------------------------------- the intended image

  /** Byte i of the content: that of the blob it lies in, zero between blobs. */
  function BlobByte(blobs: seq<Piece>, i: nat): byte {
    if blobs == [] then 0
    else
      var last := blobs[|blobs| - 1];
      if Inside(last, i) then last.bytes[i - last.off] else BlobByte(blobs[..|blobs| - 1], i)
  }

  /** Byte i of the image, from the sixteenth on. */
  function BodyByte(plan: Plan, i: nat): byte
    requires |plan.header| == HEADER
  {
    if i < HEADER then plan.header[i]
    else if i < HEADER + |plan.metadata| then plan.metadata[i - HEADER]
    else BlobByte(plan.blobs, i)
  }

  function Body(plan: Plan): seq<byte>
    requires |plan.header| == HEADER && plan.size >= HEADER
  {
    seq(plan.size - 16, i requires 0 <= i < plan.size - 16 => BodyByte(plan, 16 + i))
  }

  /** The header with the hash of everything after its first sixteen bytes. */
  function Stamped(plan: Plan): seq<byte>
    requires |plan.header| == HEADER && plan.size >= HEADER
  {
    plan.header[..8] + Le32(Fnv(Body(plan), FNV_INIT)) + plan.header[12..]
  }

  function Image(plan: Plan): seq<byte>
    requires |plan.header| == HEADER && plan.size >= HEADER
  {
    Stamped(plan)[..16] + Body(plan)
  }

  /** Every blob's bytes are in the image, at the blob's place. */
  lemma {:induction false} BlobInPlace(plan: Plan, n: nat, k: nat, i: nat)
    requires PlanOk(plan) && k < n <= |plan.blobs| && Inside(plan.blobs[k], i)
    ensures BlobByte(plan.blobs[..n], i) == plan.blobs[k].bytes[i - plan.blobs[k].off]
  {
    assert plan.blobs[..n][..n - 1] == plan.blobs[..n - 1];
    if k < n - 1 {
      BlobInPlace(plan, n - 1, k, i);
      assert !Inside(plan.blobs[n - 1], i);
    }
  }

  lemma ImageHoldsBlob(plan: Plan, k: nat)
    requires PlanOk(plan) && k < |plan.blobs|
    ensures var b := plan.blobs[k]; Image(plan)[b.off..b.off + |b.bytes|] == b.bytes
  {
    var b := plan.blobs[k];
    var got := Image(plan)[b.off..b.off + |b.bytes|];
    forall i: nat | i < |b.bytes|
      ensures got[i] == b.bytes[i]
    {
      BlobInPlace(plan, |plan.blobs|, k, b.off + i);
      assert plan.blobs[..|plan.blobs|] == plan.blobs;
    }
  }

  /** The stored hash is that of the image's own bytes from the sixteenth on. */
  lemma StoredHash(plan: Plan)
    requires PlanOk(plan)
    ensures Load32(Image(plan)[8..12]) == Fnv(Image(plan)[16..], FNV_INIT)
  {
    var hash := Fnv(Body(plan), FNV_INIT);
    LoadStored(hash);
    assert Image(plan)[16..] == Body(plan);
    assert Stamped(plan)[..16][8..12] == Le32(hash) by {
      var l, r := Stamped(plan)[..16][8..12], Le32(hash);
      assert forall i: nat :: i < 4 ==> l[i] == r[i];
    }
    assert Image(plan)[8..12] == Image(plan)[..16][8..12];
    assert Image(plan)[..16] == Stamped(plan)[..16];
  }

  // ---------------------------------------------------------------- stages of the device

  function Zeroed(d: seq<byte>, n: nat): seq<byte>
    requires n <= |d|
  {
    Zeros(n) + d[n..]
  }

  /** The device with the metadata and the first k blobs written over zeros, the rest as it was. */
  function Stage(plan: Plan, d: seq<byte>, k: nat): seq<byte>
    requires |plan.header| == HEADER && HEADER + |plan.metadata| <= plan.size <= |d| && k <= |plan.blobs|
  {
    seq(|d|, i requires 0 <= i < |d| =>
      if i >= plan.size then d[i]
      else if i < HEADER then 0
      else if i < HEADER + |plan.metadata| then plan.metadata[i - HEADER]
      else BlobByte(plan.blobs[..k], i))
  }

  lemma StageZero(plan: Plan, d: seq<byte>)
    requires PlanOk(plan) && plan.size <= |d|
    ensures Splice(Zeroed(d, plan.size), HEADER, plan.metadata) == Stage(plan, d, 0)
  {
  }

  lemma StageNext(plan: Plan, d: seq<byte>, k: nat)
    requires PlanOk(plan) && plan.size <= |d| && k < |plan.blobs|
    ensures Splice(Stage(plan, d, k), plan.blobs[k].off, plan.blobs[k].bytes) == Stage(plan, d, k + 1)
  {
    var b := plan.blobs[k];
    var l, r := Splice(Stage(plan, d, k), b.off, b.bytes), Stage(plan, d, k + 1);
    assert plan.blobs[..k + 1][..k] == plan.blobs[..k];
    assert forall i: nat :: i < |d| ==> l[i] == r[i];
  }

  lemma StageEnd(plan: Plan, d: seq<byte>)
    requires PlanOk(plan) && plan.size <= |d|
    ensures Splice(Stage(plan, d, |plan.blobs|), 16, plan.header[16..]) == Zeros(16) + Body(plan) + d[plan.size..]
  {
    var l, r := Splice(Stage(plan, d, |plan.blobs|), 16, plan.header[16..]), Zeros(16) + Body(plan) + d[plan.size..];
    assert plan.blobs[..|plan.blobs|] == plan.blobs;
    assert forall i: nat :: i < |d| ==> l[i] == r[i];
  }

  // ---------------------------------------------------------------- what the log shows

  predicate ZeroHead(bytes: seq<byte>) {
    |bytes| >= 16 && bytes[..16] == Zeros(16)
  }

  /** No request so far puts anything but zeros into the first sixteen bytes. */
  ghost predicate Quiet(log: seq<Op>) {
    forall k: nat {:trigger log[k]} :: k < |log| && log[k].Write? && log[k].off == 0 ==> ZeroHead(log[k].page)
  }

  /** The device was invalidated first, and nothing has made it valid again. */
  ghost predicate Invalid(log: seq<Op>) {
    |log| >= 2 && log[0] == Write(0, Zeros(PAGE)) && log[1] == Flush && Quiet(log)
  }

  /** Invalid so far, with a zero head; closed (see `Key`). */
  ghost predicate Invalidated(log: seq<Op>, data: seq<byte>) {
    forall k: nat {:trigger Key(k)} :: Key(k) ==> Invalid(log) && ZeroHead(data)
  }

  /** Writing past the head keeps it so. */
  lemma WrittenPast(was: seq<byte>, bytes: seq<byte>, offset: nat, before: seq<Op>, log: seq<Op>)
    requires Extended(was, bytes, offset, before, log) && Invalidated(before, was)
    requires offset >= 16 && offset + |bytes| <= |was|
    ensures Invalidated(log, Splice(was, offset, bytes))
  {
    assert Key(0);
    QuietExtended(was, bytes, offset, before, log);
  }

  lemma QuietExtended(was: seq<byte>, bytes: seq<byte>, offset: nat, before: seq<Op>, log: seq<Op>)
    requires Extended(was, bytes, offset, before, log) && Invalid(before)
    requires ZeroHead(was) && offset >= 16 && offset + |bytes| <= |was|
    ensures Invalid(log) && ZeroHead(Splice(was, offset, bytes))
  {
    assert log[0] == log[..|before|][0] && log[1] == log[..|before|][1];
    forall k: nat {:trigger log[k]} | k < |log| && log[k].Write? && log[k].off == 0
      ensures ZeroHead(log[k].page)
    {
      if k < |before| {
        assert log[k] == log[..|before|][k] == before[k];
      } else {
        assert Mixed(was, bytes, offset, log[k]);
        var page := log[k].page;
        forall i: nat | i < 16
          ensures page[i] == 0
        {
          assert was[i] == was[..16][i];
          assert page[i] == was[0 + i];
        }
      }
    }
    assert Splice(was, offset, bytes)[..16] == was[..16];
  }

  lemma QuietFlush(log: seq<Op>)
    requires Invalid(log)
    ensures Invalid(log + [Flush])
  {
    assert forall k: nat :: k < |log| ==> (log + [Flush])[k] == log[k];
  }

  // ---------------------------------------------------------------- writing

  /** Invalidate the header durably, then zero the rest. */
  method ZeroImage(dev: Device, size: nat)
    requires dev.Valid() && dev.log == [] && PAGE <= size <= |dev.data| && size % PAGE == 0
    modifies dev
    ensures dev.Valid() && dev.data == Zeroed(old(dev.data), size) && Invalid(dev.log)
  {
    var zero := Zeros(PAGE);
    dev.WriteImageAt(zero, 0);
    dev.Sync();
    var offset := PAGE;
    ghost var was := old(dev.data);
    assert dev.data == Zeroed(was, offset);
    while offset < size
      invariant dev.Valid() && PAGE <= offset <= size && offset % PAGE == 0
      invariant dev.data == Zeroed(was, offset) && Invalid(dev.log)
    {
      ghost var now, log := dev.data, dev.log;
      dev.WriteImageAt(zero, offset);
      assert ZeroHead(now);
      QuietExtended(now, zero, offset, log, dev.log);
      assert Splice(now, offset, zero) == Zeroed(was, offset + PAGE);
      offset := offset + PAGE;
    }
  }

  /** Copy one blob to its place through the buffer. */
  method WriteSource(dev: Device, b: Piece)
    requires dev.Valid() && Invalidated(dev.log, dev.data) && b.off >= 16 && b.off + |b.bytes| <= |dev.data|
    modifies dev
    ensures dev.Valid() && Invalidated(dev.log, dev.data)
    ensures dev.data == Splice(old(dev.data), b.off, b.bytes)
  {
    ghost var was := dev.data;
    var offset := 0;
    while offset < |b.bytes|
      invariant dev.Valid() && Invalidated(dev.log, dev.data) && offset <= |b.bytes|
      invariant dev.data == Splice(was, b.off, b.bytes[..offset])
    {
      offset := WritePart(dev, b, offset, was);
    }
    assert b.bytes[..offset] == b.bytes;
  }

  /** One buffer of it. */
  method WritePart(dev: Device, b: Piece, offset: nat, ghost was: seq<byte>) returns (next: nat)
    requires dev.Valid() && Invalidated(dev.log, dev.data) && b.off >= 16 && b.off + |b.bytes| <= |was| == |dev.data|
    requires offset < |b.bytes| && dev.data == Splice(was, b.off, b.bytes[..offset])
    modifies dev
    ensures dev.Valid() && Invalidated(dev.log, dev.data)
    ensures offset < next <= |b.bytes| && dev.data == Splice(was, b.off, b.bytes[..next])
  {
    var count := if |b.bytes| - offset < BUFFER then |b.bytes| - offset else BUFFER;
    var part := b.bytes[offset..offset + count];
    ghost var now, log := dev.data, dev.log;
    dev.WriteImageAt(part, b.off + offset);
    WrittenPast(now, part, b.off + offset, log, dev.log);
    PartWritten(was, b, offset, count);
    next := offset + count;
  }

  lemma PartWritten(was: seq<byte>, b: Piece, offset: nat, count: nat)
    requires offset + count <= |b.bytes| && b.off + |b.bytes| <= |was|
    ensures Splice(Splice(was, b.off, b.bytes[..offset]), b.off + offset, b.bytes[offset..offset + count])
         == Splice(was, b.off, b.bytes[..offset + count])
  {
    SpliceTwice(was, b.off, b.bytes[..offset], b.bytes[offset..offset + count]);
    assert b.bytes[..offset + count] == b.bytes[..offset] + b.bytes[offset..offset + count];
  }

  /** Hash a range of the device through the buffer. */
  method FnvRange(dev: Device, offset: nat, length: nat) returns (state: u32)
    requires dev.Valid() && offset + length <= |dev.data|
    ensures state == Fnv(dev.data[offset..offset + length], FNV_INIT)
  {
    state := FNV_INIT;
    var done := 0;
    while done < length
      invariant done <= length && state == Fnv(dev.data[offset..offset + done], FNV_INIT)
    {
      var count := if length - done < BUFFER then length - done else BUFFER;
      var part := dev.ReadImageAt(count, offset + done);
      FnvNext(dev.data, offset, done, count);
      state := Fnv1(part, state);
      done := done + count;
    }
  }

  lemma FnvNext(d: seq<byte>, offset: nat, done: nat, count: nat)
    requires offset + done + count <= |d|
    ensures Fnv(d[offset..offset + done + count], FNV_INIT)
         == Fnv(d[offset + done..offset + done + count], Fnv(d[offset..offset + done], FNV_INIT))
  {
    FnvAppend(d[offset..offset + done], d[offset + done..offset + done + count], FNV_INIT);
    assert d[offset..offset + done + count] == d[offset..offset + done] + d[offset + done..offset + done + count];
  }

  /** Everything but the first sixteen bytes. */
  method WriteBody(dev: Device, plan: Plan)
    requires PlanOk(plan) && dev.Valid() && dev.log == [] && plan.size <= |dev.data|
    modifies dev
    ensures dev.Valid() && Invalid(dev.log)
    ensures dev.data == Zeros(16) + Body(plan) + old(dev.data)[plan.size..]
  {
    ghost var d := dev.data;
    ZeroImage(dev, plan.size);
    ghost var now, log := dev.data, dev.log;
    dev.WriteImageAt(plan.metadata, HEADER);
    assert Invalidated(log, now) by {
      assert ZeroHead(now);
    }
    WrittenPast(now, plan.metadata, HEADER, log, dev.log);
    StageZero(plan, d);
    for k := 0 to |plan.blobs|
      invariant dev.Valid() && Invalidated(dev.log, dev.data)
      invariant dev.data == Stage(plan, d, k)
    {
      WriteSource(dev, plan.blobs[k]);
      StageNext(plan, d, k);
    }
    now, log := dev.data, dev.log;
    dev.WriteImageAt(plan.header[16..], 16);
    WrittenPast(now, plan.header[16..], 16, log, dev.log);
    assert Key(0);
    StageEnd(plan, d);
  }

  /** A log that ends with the commit: a flush, one write of the first page, a flush. */
  ghost predicate Committed(base: seq<byte>, log: seq<Op>, image: seq<byte>) {
    LogOk(log, |base|) && |log| >= 5 && PAGE <= |image| <= |base| &&
    var body := log[..|log| - 3];
    && Invalid(body) && log == body + [Flush, Write(0, image[..PAGE]), Flush]
    && Content(base, body)[16..|image|] == image[16..] && ZeroHead(Content(base, body))
  }

  /** The whole sequence. */
  method WriteImage(dev: Device, plan: Plan)
    requires PlanOk(plan) && dev.Valid() && dev.log == [] && plan.size <= |dev.data|
    modifies dev
    ensures dev.Valid() && dev.data == Image(plan) + old(dev.data)[plan.size..]
    ensures Committed(dev.base, dev.log, Image(plan))
  {
    ghost var d := dev.data;
    WriteBody(dev, plan);
    ghost var body, now := dev.log, dev.data;
    dev.Accounted();
    dev.Sync();
    var hash := FnvRange(dev, 16, plan.size - 16);
    BodyWritten(plan, d, now);
    var header := plan.header[..8] + Le32(hash) + plan.header[12..];
    var first := dev.ReadImageAt(PAGE, 0);
    first := header + first[HEADER..];
    dev.WriteImageAt(first, 0);
    dev.Sync();
    dev.Accounted();
    CommitLog(dev.base, body, now, Image(plan), first, dev.log);
  }

  /** With the body in place, the stamped header over the first page completes the image. */
  lemma BodyWritten(plan: Plan, d: seq<byte>, now: seq<byte>)
    requires PlanOk(plan) && plan.size <= |d| && now == Zeros(16) + Body(plan) + d[plan.size..]
    ensures now[16..plan.size] == Body(plan) && ZeroHead(now) && now[16..plan.size] == Image(plan)[16..]
    ensures Stamped(plan) + now[..PAGE][HEADER..] == Image(plan)[..PAGE]
    ensures Splice(now, 0, Image(plan)[..PAGE]) == Image(plan) + d[plan.size..]
  {
    var l, r := Stamped(plan) + now[..PAGE][HEADER..], Image(plan)[..PAGE];
    assert forall i: nat :: i < PAGE ==> l[i] == r[i];
  }

  lemma CommitLog(base: seq<byte>, body: seq<Op>, now: seq<byte>, image: seq<byte>, first: seq<byte>, log: seq<Op>)
    requires LogOk(log, |base|) && PAGE <= |image| <= |base| && Invalid(body) && first == image[..PAGE]
    requires log == body + [Flush] + [Write(0, first)] + [Flush]
    requires LogOk(body, |base|) && now == Content(base, body) && now[16..|image|] == image[16..] && ZeroHead(now)
    ensures Committed(base, log, image)
  {
    assert log[..|log| - 3] == body;
  }

  // ---------------------------------------------------------------- crashes

  lemma PrefixOk(log: seq<Op>, n: nat, size: nat)
    requires LogOk(log, size) && n <= |log|
    ensures LogOk(log[..n], size)
  {
  }

  /** Once invalidated, content and durable content keep a zero head. */
  lemma {:induction false} StaysInvalid(base: seq<byte>, log: seq<Op>, n: nat)
    requires LogOk(log, |base|) && Invalid(log) && 1 <= n <= |log|
    ensures LogOk(log[..n], |base|) && ZeroHead(Content(base, log[..n]))
    ensures n >= 2 ==> ZeroHead(Durable(base, log[..n]))
  {
    PrefixOk(log, n, |base|);
    assert log[..n][..n - 1] == log[..n - 1];
    assert OpOk(log[n - 1], |base|);
    if n > 1 {
      StaysInvalid(base, log, n - 1);
      var before := Content(base, log[..n - 1]);
      if log[n - 1].Write? {
        var after := Splice(before, log[n - 1].off, log[n - 1].page);
        assert after[..16] == if log[n - 1].off == 0 then log[n - 1].page[..16] else before[..16];
      }
    } else {
      assert Content(base, log[..0]) == base;
      assert Splice(base, 0, Zeros(PAGE))[..16] == Zeros(16);
    }
  }

  /** A crash before the commit write leaves a zero head. */
  lemma CrashBeforeCommit(base: seq<byte>, log: seq<Op>, sector: nat, c: seq<byte>)
    requires LogOk(log, |base|) && Invalid(log) && SectorOk(sector) && PAGE <= |base|
    requires CrashState(base, log, sector, c)
    ensures ZeroHead(c)
  {
    StaysInvalid(base, log, |log|);
    assert log[..|log|] == log;
    SectorFits(sector);
    FromSector(base, log, sector, c, 0);
    if c[0..sector] == Durable(base, log)[0..sector] {
      SameHead(c, Durable(base, log), sector);
    } else {
      var k: nat :| Pending(log, k) && log[k].off <= 0 &&
                    c[0..sector] == log[k].page[0 - log[k].off..0 - log[k].off + sector];
      SameHead(c, log[k].page, sector);
    }
  }

  lemma SameHead(a: seq<byte>, b: seq<byte>, sector: nat)
    requires 16 <= sector <= |a| && sector <= |b| && a[0..sector] == b[0..sector]
    ensures ZeroHead(a) <==> ZeroHead(b)
  {
    assert a[..16] == a[0..sector][..16];
    assert b[..16] == b[0..sector][..16];
  }

  lemma SectorFits(sector: nat)
    requires SectorOk(sector)
    ensures sector <= PAGE
  {
  }

  /** One sector of a crash state between the commit write and its flush. */
  lemma CommitSector(base: seq<byte>, body: seq<Op>, page: seq<byte>, sector: nat, c: seq<byte>, at: nat)
    requires LogOk(body, |base|) && |page| == PAGE <= |base| && |c| == |base| && at + sector <= |base|
    requires LogOk(body + [Flush, Write(0, page)], |base|)
    requires SectorFrom(base, body + [Flush, Write(0, page)], sector, c, at)
    ensures c[at..at + sector] == Content(base, body)[at..at + sector] ||
            (at + sector <= PAGE && c[at..at + sector] == page[at..at + sector])
  {
    var log := body + [Flush, Write(0, page)];
    assert log[..|log| - 1] == body + [Flush];
    assert (body + [Flush])[..|body|] == body;
    assert log[|body|] == Flush;
    assert Durable(base, log) == Content(base, body);
    if c[at..at + sector] != Durable(base, log)[at..at + sector] {
      var k: nat :| Pending(log, k) && log[k].off <= at && at + sector <= log[k].off + PAGE
                    && c[at..at + sector] == log[k].page[at - log[k].off..at - log[k].off + sector];
      assert k == |body| + 1;
      assert log[k] == Write(0, page);
    }
  }

  lemma BytesOfSector(c: seq<byte>, d: seq<byte>, at: nat, sector: nat, i: nat)
    requires at <= i < at + sector <= |c| && |c| <= |d| && c[at..at + sector] == d[at..at + sector]
    ensures c[i] == d[i]
  {
    assert c[i] == c[at..at + sector][i - at];
    assert d[i] == d[at..at + sector][i - at];
  }

  /** A crash after the commit write, flushed or not, leaves a zero head or the complete image. */
  lemma CrashAtCommit(base: seq<byte>, body: seq<Op>, image: seq<byte>, sector: nat, c: seq<byte>)
    requires LogOk(body, |base|) && |base| % PAGE == 0 && PAGE <= |image| <= |base| && SectorOk(sector)
    requires ZeroHead(Content(base, body)) && Content(base, body)[16..|image|] == image[16..]
    requires LogOk(body + [Flush, Write(0, image[..PAGE])], |base|)
    requires CrashState(base, body + [Flush, Write(0, image[..PAGE])], sector, c)
    ensures ZeroHead(c) || c[..|image|] == image
  {
    var was, page := Content(base, body), image[..PAGE];
    SectorFits(sector);
    FromSector(base, body + [Flush, Write(0, page)], sector, c, 0);
    CommitSector(base, body, page, sector, c, 0);
    if c[0..sector] == was[0..sector] {
      assert c[..16] == c[0..sector][..16];
      assert was[..16] == was[0..sector][..16];
    } else {
      forall i: nat | i < |image|
        ensures c[i] == image[i]
      {
        CommitByte(base, body, image, sector, c, i);
      }
    }
  }

  lemma FromSector(base: seq<byte>, log: seq<Op>, sector: nat, c: seq<byte>, at: nat)
    requires LogOk(log, |base|) && sector > 0 && CrashState(base, log, sector, c)
    requires at + sector <= |base| && at % sector == 0
    ensures SectorFrom(base, log, sector, c, at)
  {
  }

  /** When the first sector is the new one, every byte is the image's. */
  lemma CommitByte(base: seq<byte>, body: seq<Op>, image: seq<byte>, sector: nat, c: seq<byte>, i: nat)
    requires LogOk(body, |base|) && |base| % PAGE == 0 && PAGE <= |image| <= |base| && SectorOk(sector)
    requires Content(base, body)[16..|image|] == image[16..]
    requires LogOk(body + [Flush, Write(0, image[..PAGE])], |base|)
    requires CrashState(base, body + [Flush, Write(0, image[..PAGE])], sector, c)
    requires sector <= PAGE && c[0..sector] == image[..PAGE][0..sector] && i < |image|
    ensures c[i] == image[i]
  {
    var was, page := Content(base, body), image[..PAGE];
    var at := SectorAt(|base|, sector, i);
    if at == 0 {
      assert c[i] == c[0..sector][i] == page[0..sector][i];
    } else {
      FirstSector(sector, at, i);
      FromSector(base, body + [Flush, Write(0, page)], sector, c, at);
      CommitSector(base, body, page, sector, c, at);
      if c[at..at + sector] == was[at..at + sector] {
        BytesOfSector(c, was, at, sector, i);
        assert was[i] == was[16..|image|][i - 16] == image[16..][i - 16];
      } else {
        assert c[i] == c[at..at + sector][i - at] == page[at..at + sector][i - at];
      }
    }
  }

  /** The sector a byte is in. */
  lemma SectorAt(size: nat, sector: nat, i: nat) returns (at: nat)
    requires SectorOk(sector) && size % PAGE == 0 && i < size
    ensures at == i / sector * sector && at <= i < at + sector <= size && at % sector == 0
  {
    DividesMultiple(sector, i / sector);
    at := i / sector * sector;
    var n := PAGE / sector;
    var m := size / PAGE * n;
    assert size == m * sector by {
      assert PAGE == n * sector;
      assert size == size / PAGE * PAGE;
      assert size / PAGE * (n * sector) == size / PAGE * n * sector;
    }
    if m <= i / sector {
      MulLe(m, i / sector, sector);
    }
    MulLe(i / sector + 1, m, sector);
  }

  lemma FirstSector(sector: nat, at: nat, i: nat)
    requires sector >= 16 && at == i / sector * sector && at <= i
    ensures at == 0 || i >= 16
  {
    if i / sector >= 1 {
      MulLe(1, i / sector, sector);
    }
  }

  /** After the first flush, whatever requests the device has seen and whichever pending sectors it kept,
      a crash leaves either a header nobody accepts or the complete image; after the last flush only the
      complete image. */
  lemma CrashSafe(base: seq<byte>, log: seq<Op>, image: seq<byte>, n: nat, sector: nat, c: seq<byte>)
    requires |base| % PAGE == 0 && Committed(base, log, image) && SectorOk(sector)
    requires 2 <= n <= |log| && LogOk(log[..n], |base|) && CrashState(base, log[..n], sector, c)
    ensures (forall i: nat {:trigger c[i]} :: i < 16 && i < |c| ==> c[i] == 0) || c[..|image|] == image
    ensures n == |log| ==> c[..|image|] == image
  {
    var body := log[..|log| - 3];
    var commit := Write(0, image[..PAGE]);
    if n <= |body| + 1 {
      CrashEarly(base, body, log[..n], n, sector, c) by {
        assert log[..n] == (body + [Flush])[..n];
      }
    } else if n == |body| + 2 {
      assert log[..n] == body + [Flush, commit];
      CrashAtCommit(base, body, image, sector, c);
    } else {
      assert log[..n] == log;
      AllFlushed(base, body, image, log);
      Settled(base, log, sector, c);
      assert c == Splice(Content(base, body), 0, image[..PAGE]);
    }
  }

  /** Before the commit request there is no header yet. */
  lemma CrashEarly(base: seq<byte>, body: seq<Op>, seen: seq<Op>, n: nat, sector: nat, c: seq<byte>)
    requires Invalid(body) && SectorOk(sector) && PAGE <= |base|
    requires 2 <= n <= |body| + 1 && seen == (body + [Flush])[..n]
    requires LogOk(seen, |base|) && CrashState(base, seen, sector, c)
    ensures ZeroHead(c)
  {
    QuietFlush(body);
    QuietPrefix(body + [Flush], n);
    CrashBeforeCommit(base, seen, sector, c);
  }

  lemma QuietPrefix(log: seq<Op>, n: nat)
    requires Invalid(log) && 2 <= n <= |log|
    ensures Invalid(log[..n])
  {
  }

  lemma AllFlushed(base: seq<byte>, body: seq<Op>, image: seq<byte>, log: seq<Op>)
    requires LogOk(log, |base|) && LogOk(body, |base|) && PAGE <= |image| <= |base|
    requires log == body + [Flush, Write(0, image[..PAGE]), Flush]
    ensures Durable(base, log) == Splice(Content(base, body), 0, image[..PAGE])
  {
    var l2 := body + [Flush, Write(0, image[..PAGE])];
    var l1 := body + [Flush];
    assert l1[|l1| - 1] == Flush && l1[..|l1| - 1] == body;
    assert Content(base, l1) == Content(base, body);
    assert l2[|l2| - 1] == Write(0, image[..PAGE]) && l2[..|l2| - 1] == l1;
    assert Content(base, l2) == Splice(Content(base, l1), 0, image[..PAGE]);
    assert log[|log| - 1] == Flush && log[..|log| - 1] == l2;
  }

  lemma NonePending(log: seq<Op>)
    requires log != [] && log[|log| - 1] == Flush
    ensures forall k: nat :: !Pending(log, k)
  {
  }

  /** Right after a flush there is only one crash state. */
  lemma Settled(base: seq<byte>, log: seq<Op>, sector: nat, c: seq<byte>)
    requires LogOk(log, |base|) && |base| % PAGE == 0 && SectorOk(sector)
    requires log != [] && log[|log| - 1] == Flush && CrashState(base, log, sector, c)
    ensures c == Durable(base, log)
  {
    var d := Durable(base, log);
    forall i: nat | i < |base|
      ensures c[i] == d[i]
    {
      var at := SectorAt(|base|, sector, i);
      FromSector(base, log, sector, c, at);
      NonePending(log);
      BytesOfSector(c, d, at, sector, i);
    }
  }

  /** The other way round: keeping everything that was written is one of the crash states. */
  lemma {:induction false} MayKeepAll(base: seq<byte>, log: seq<Op>, sector: nat, at: nat)
    requires LogOk(log, |base|) && SectorOk(sector) && at % sector == 0 && at + sector <= |base|
    ensures SectorFrom(base, log, sector, Content(base, log), at)
  {
    if log != [] && log[|log| - 1].Write? {
      var front, last := log[..|log| - 1], log[|log| - 1];
      MayKeepAll(base, front, sector, at);
      var was, now := Content(base, front), Content(base, log);
      assert OpOk(last, |base|);
      SectorInOnePage(sector, at, last.off);
      if last.off <= at && at + sector <= last.off + PAGE {
        assert now[at..at + sector] == last.page[at - last.off..at - last.off + sector];
        assert Pending(log, |log| - 1);
      } else {
        assert now[at..at + sector] == was[at..at + sector];
        StillFrom(base, log, sector, was, now, at);
      }
    }
  }

  /** And so is keeping nothing since the last flush. */
  lemma {:induction false} MayLoseAll(base: seq<byte>, log: seq<Op>, n: nat, sector: nat)
    requires LogOk(log, |base|) && sector > 0 && n <= |log| && LogOk(log[..n], |base|) && (n == 0 || log[n - 1].Flush?)
    requires forall k: nat {:trigger log[k]} :: n <= k < |log| ==> log[k].Write?
    ensures CrashState(base, log, sector, Content(base, log[..n]))
  {
    LastDurable(base, log, n);
    var c := Content(base, log[..n]);
    forall at: nat | at + sector <= |base| && at % sector == 0
      ensures SectorFrom(base, log, sector, c, at)
    {
    }
  }

  lemma {:induction false} LastDurable(base: seq<byte>, log: seq<Op>, n: nat)
    requires LogOk(log, |base|) && n <= |log| && LogOk(log[..n], |base|) && (n == 0 || log[n - 1].Flush?)
    requires forall k: nat {:trigger log[k]} :: n <= k < |log| ==> log[k].Write?
    ensures Durable(base, log) == Content(base, log[..n])
  {
    if n < |log| {
      var front := log[..|log| - 1];
      assert log[|log| - 1].Write? && front[..n] == log[..n];
      assert forall k: nat {:trigger front[k]} :: k < |front| ==> front[k] == log[k];
      LastDurable(base, front, n);
    } else {
      assert log[..n] == log;
    }
  }

  /** And what takes each sector from one of two crash states. */
  lemma MayMix(base: seq<byte>, log: seq<Op>, sector: nat, a: seq<byte>, b: seq<byte>, c: seq<byte>)
    requires LogOk(log, |base|) && sector > 0 && |c| == |base|
    requires CrashState(base, log, sector, a) && CrashState(base, log, sector, b)
    requires forall at: nat {:trigger c[at..at + sector]} :: at + sector <= |base| && at % sector == 0 ==>
               c[at..at + sector] == a[at..at + sector] || c[at..at + sector] == b[at..at + sector]
    ensures CrashState(base, log, sector, c)
  {
    forall at: nat | at + sector <= |base| && at % sector == 0
      ensures SectorFrom(base, log, sector, c, at)
    {
      assert SectorFrom(base, log, sector, a, at) && SectorFrom(base, log, sector, b, at);
      assert c[at..at + sector] == a[at..at + sector] || c[at..at + sector] == b[at..at + sector];
    }
  }

  /** A write elsewhere leaves a sector's sources standing. */
  lemma StillFrom(base: seq<byte>, log: seq<Op>, sector: nat, c: seq<byte>, c': seq<byte>, at: nat)
    requires LogOk(log, |base|) && log != [] && log[|log| - 1].Write? && LogOk(log[..|log| - 1], |base|)
    requires |c| == |c'| == |base| && at + sector <= |base| && c[at..at + sector] == c'[at..at + sector]
    requires SectorFrom(base, log[..|log| - 1], sector, c, at)
    ensures SectorFrom(base, log, sector, c', at)
  {
    var front := log[..|log| - 1];
    if c[at..at + sector] != Durable(base, front)[at..at + sector] {
      var k: nat :| Pending(front, k) && front[k].off <= at && at + sector <= front[k].off + PAGE
                    && c[at..at + sector] == front[k].page[at - front[k].off..at - front[k].off + sector];
      assert Pending(front, k);
      assert forall j: nat :: k <= j < |front| ==> log[j] == front[j];
      assert Pending(log, k) && log[k] == front[k];
    }
  }

  /** No sector straddles a page boundary. */
  lemma SectorInOnePage(sector: nat, at: nat, page: nat)
    requires SectorOk(sector) && at % sector == 0 && page % PAGE == 0
    ensures at + sector <= page || page + PAGE <= at || (page <= at && at + sector <= page + PAGE)
  {
    var n, a, q := PAGE / sector, at / sector, page / PAGE;
    assert PAGE == n * sector && at == a * sector && page == q * PAGE;
    assert page == q * n * sector by { assert q * (n * sector) == q * n * sector; }
    var p := q * n;
    if a < p {
      MulLe(a + 1, p, sector);
    } else if a >= p + n {
      MulLe(p + n, a, sector);
    } else {
      MulLe(p, a, sector);
      MulLe(a + 1, p + n, sector);
    }
  }
}
