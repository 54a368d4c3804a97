/** What the decoder asks of each part of an image, in the bytes of include/femtofs/format.h:48-115
    (ko/image.c:95-125, 193-268). */
module Reading {
  import opened Format
  import opened Counting
  import opened ImageTree
  import opened OnDisk
  import Header
  import Primality
  import Slice
  import Sweep
  import TreeWalk
  import Validate

  // ---------------------------------------------------------------- names and content

  /** A name is what lies before the first zero: 1 to 255 bytes of one part of the image, without a slash, and
      neither "." nor "..". */
  lemma NameIs(im: Image, off: nat, name: seq<byte>)
    requires HeaderOk(im)
    ensures NameAt(im, off) == Some(name) <==>
            && im.publicOff <= off && 1 <= |name| <= 255
            && off + |name| < (if off < im.privateOff then im.privateOff else |im.bytes|)
            && im.bytes[off..off + |name|] == name && im.bytes[off + |name|] == 0
            && 0 !in name && 47 !in name && name != [46] && name != [46, 46]
  {
    if im.publicOff <= off < |im.bytes| {
      var end := if off < im.privateOff then im.privateOff else |im.bytes|;
      var n := if end - off < 256 then end - off else 256;
      if |name| < n && im.bytes[off..off + |name|] == name && im.bytes[off + |name|] == 0 && 0 !in name {
        FirstNul(im.bytes, off, n, name);
      }
    }
  }

  lemma FirstNul(b: seq<byte>, off: nat, n: nat, name: seq<byte>)
    requires off + n <= |b| && |name| < n && b[off..off + |name|] == name && b[off + |name|] == 0 && 0 !in name
    ensures NulWithin(b, off, n) == Some(|name|)
  {
    forall i: nat | off <= i < off + |name|
      ensures b[i] != 0
    {
      assert b[off..off + |name|][i - off] == name[i - off];
    }
    forall k: nat {:trigger b[off..off + k]} | |name| < k <= n
      ensures 0 in b[off..off + k]
    {
      assert b[off..off + k][|name|] == 0;
    }
  }

  /** Content is followed by zeros up to a multiple of four bytes, at least one of them; it lies in one part, within a
      page or from the start of one.  A symlink's target is private and has no zero. */
  lemma BlobIs(im: Image, off: nat, size: nat, symlink: bool, stored: nat)
    requires HeaderOk(im) && stored % 4 == 0 && size < stored <= size + 4
    ensures BlobFits(im, off, size, symlink) <==>
            && off % 4 == 0 && im.publicOff <= off < |im.bytes| && stored < 0x1_0000_0000
            && off + stored <= (if off < im.privateOff then im.privateOff else |im.bytes|)
            && (if stored < 4096 then off / 4096 == (off + stored - 1) / 4096 else off % 4096 == 0)
            && (forall i: nat {:trigger im.bytes[i]} :: off + size <= i < off + stored && i < |im.bytes| ==>
                  im.bytes[i] == 0)
            && (symlink ==> im.privateOff <= off && 0 !in im.bytes[off..off + size])
  {
    assert stored == Sweep.StoredSize(size);
    if off + stored <= |im.bytes| {
      NoZeroIs(im.bytes, off, size);
    }
  }

  lemma NoZeroIs(b: seq<byte>, off: nat, size: nat)
    requires off + size <= |b|
    ensures (forall i: nat :: off <= i < off + size ==> b[i] != 0) <==> 0 !in b[off..off + size]
  {
    var s := b[off..off + size];
    assert forall i: nat :: off <= i < off + size ==> b[i] == s[i - off];
    assert forall i: nat :: i < size ==> s[i] == b[off + i];
  }

  // ---------------------------------------------------------------- attributes and objects

  /** An attribute is a cell of that type with the type of its object in the mode's highest four bits. */
  lemma AttrIs(im: Image, kind: byte, a: nat)
    requires Header.ReadImage(im.bytes) == Some(im) && 1 <= kind <= 5 && kind != 4
    ensures AttrForm(im, kind, a) <==>
            && a < |im.cells| && 128 + 16 * a + 16 <= |im.bytes| && im.bytes[128 + 16 * a] == 129
            && Short(im.bytes, 128 + 16 * a + 2) / 4096 == [8, 4, 10, 0, 1][kind - 1]
  {
    if a < |im.cells| {
      CellBytes(im, a);
    }
  }

  /** A directory's record: a base of the list with or without the second one, and a slice within the table that is
      large enough for its entries. */
  lemma DirectoryIs(im: Image, t: nat)
    requires Header.ReadImage(im.bytes) == Some(im) && t < |im.cells|
    ensures 128 + 16 * t + 16 <= |im.bytes|
    ensures DirForm(im, t) <==>
            var b, at := im.bytes, 128 + 16 * t;
            && (b[at + 1] < 53 || 64 <= b[at + 1] < 117) && Long(b, at + 8) <= 65521
            && Long(b, at + 12) / 65536 < 32768 && Long(b, at + 12) / 65536 <= Long(b, at + 8)
            && Long(b, at + 4) + Long(b, at + 8) <= |im.cells|
            && (Long(b, at + 8) == 0 ==> Long(b, at + 4) == 0)
  {
    CellBytes(im, t);
    FormIs(im, t, DirOf(im, t));
  }

  lemma FormIs(im: Image, id: nat, d: Dir)
    requires d == DirOf(im, id)
    ensures DirForm(im, id) <==>
            && (d.hash < 53 || 64 <= d.hash < 117) && d.size <= 65521 && d.entries < 32768 && d.entries <= d.size
            && d.off + d.size <= |im.cells| && (d.size == 0 ==> d.off == 0)
  {
  }

  lemma RootIs(im: Image)
    requires Header.ReadImage(im.bytes) == Some(im)
    ensures |im.bytes| >= 128
    ensures DirForm(im, |im.cells|) <==>
            var b := im.bytes;
            && (b[66] < 53 || 64 <= b[66] < 117) && Long(b, 56) <= 65521
            && Long(b, 60) < 32768 && Long(b, 60) <= Long(b, 56)
            && Long(b, 52) + Long(b, 56) <= |im.cells|
            && (Long(b, 56) == 0 ==> Long(b, 52) == 0)
  {
    RootRecord(im);
    FormIs(im, |im.cells|, im.root);
  }

  /** Its bases: one of the 53 odd primes below 256, in order, and the second one when bit 6 is set. */
  lemma HashingIs(im: Image, id: nat)
    requires DirForm(im, id)
    ensures var h, tag := HashingOf(im, id), DirOf(im, id).hash;
            && Primality.IsPrime(h.base) && 2 < h.base < 256 && tag % 64 < |PRIMES| && h.base == PRIMES[tag % 64]
            && h.second == if tag / 64 % 2 == 1 then Some(im.hash2) else None
  {
    BaseIsPrime(DirOf(im, id).hash % 64);
  }

  lemma BaseIsPrime(k: nat)
    requires k < 53
    ensures k < |PRIMES| && Primality.IsPrime(PRIMES[k]) && 2 < PRIMES[k] < 256
  {
    Ascending(k);
    assert PRIMES[k] in PRIMES;
    BasesArePrimes(PRIMES[k]);
  }

  lemma BasesArePrimes(p: nat)
    ensures p in PRIMES <==> Primality.IsPrime(p) && 2 < p < 256
  {
    Listed(p);
    if 3 <= p < 256 && p % 2 == 1 {
      Primality.TableIsPrimes(p);
    } else if p > 2 && p % 2 == 0 {
      assert Primality.Divides(2, p);
    }
  }

  lemma Listed(p: nat)
    ensures p in PRIMES <==> p < 256 && p in Primality.SMALL_PRIMES
    ensures p in PRIMES ==> 3 <= p && p % 2 == 1
  {
    InParts(p);
    InRows(p);
    FirstPart(p);
    MiddlePart(p);
    LastPart(p);
    LastRows(p);
    AllOdd(p);
  }

  lemma InParts(p: nat)
    ensures p in PRIMES <==> p in SMALL || p in MIDDLE || p in LARGE
  {
  }

  lemma FirstPart(p: nat)
    ensures p in SMALL <==> p in Primality.ROW0 || p in Primality.ROW1 || p == 59 || p == 61 || p == 67
  {
  }

  lemma MiddlePart(p: nat)
    ensures p in MIDDLE || p == 59 || p == 61 || p == 67 <==>
            || p in Primality.ROW2 || p in Primality.ROW3 || p in Primality.ROW4 || p == 157
  {
  }

  lemma LastPart(p: nat)
    ensures p in LARGE || p == 157 <==> p in Primality.ROW5 || p in Primality.ROW6 || p in Primality.ROW7
  {
  }

  lemma LastRows(p: nat)
    ensures p in Primality.ROW8 || p in Primality.ROW9 ==> p >= 256
  {
  }

  lemma AllOdd(p: nat)
    ensures p in SMALL || p in MIDDLE || p in LARGE ==> 3 <= p < 256 && p % 2 == 1
  {
    SmallOdd(p);
    MiddleOdd(p);
    LargeOdd(p);
  }

  lemma SmallOdd(p: nat)
    ensures p in SMALL ==> 3 <= p < 256 && p % 2 == 1
  {
  }

  lemma MiddleOdd(p: nat)
    ensures p in MIDDLE ==> 3 <= p < 256 && p % 2 == 1
  {
  }

  lemma LargeOdd(p: nat)
    ensures p in LARGE ==> 3 <= p < 256 && p % 2 == 1
  {
  }

  /** The list is in order. */
  lemma Ascending(i: nat)
    ensures |PRIMES| == 53 && (i + 1 < 53 ==> PRIMES[i] < PRIMES[i + 1])
  {
    Parts(i);
    Parts(i + 1);
    AscendingSmall(i);
    if i >= 18 {
      AscendingMiddle(i - 18);
    }
    if i >= 36 {
      AscendingLarge(i - 36);
    }
  }

  lemma Parts(i: nat)
    ensures |PRIMES| == 53 && |SMALL| == |MIDDLE| == 18 && |LARGE| == 17
    ensures SMALL[17] == 67 && MIDDLE[0] == 71 && MIDDLE[17] == 157 && LARGE[0] == 163
    ensures i < 53 ==> PRIMES[i] == if i < 18 then SMALL[i] else if i < 36 then MIDDLE[i - 18] else LARGE[i - 36]
  {
  }

  lemma AscendingSmall(i: nat)
    ensures |SMALL| == 18 && (i + 1 < 18 ==> SMALL[i] < SMALL[i + 1])
  {
  }

  lemma AscendingMiddle(i: nat)
    ensures |MIDDLE| == 18 && (i + 1 < 18 ==> MIDDLE[i] < MIDDLE[i + 1])
  {
  }

  lemma AscendingLarge(i: nat)
    ensures |LARGE| == 17 && (i + 1 < 17 ==> LARGE[i] < LARGE[i + 1])
  {
  }

  lemma InRows(p: nat)
    ensures p in Primality.SMALL_PRIMES <==>
            || p in Primality.ROW0 || p in Primality.ROW1 || p in Primality.ROW2 || p in Primality.ROW3
            || p in Primality.ROW4 || p in Primality.ROW5 || p in Primality.ROW6 || p in Primality.ROW7
            || p in Primality.ROW8 || p in Primality.ROW9
  {
  }

  /** An object that a bucket of directory id names: of the same type, with attributes of that type, and with nothing
      in the fields its type does not use. */
  lemma ObjectIs(im: Image, id: nat, kind: byte, t: nat)
    requires Header.ReadImage(im.bytes) == Some(im) && t < |im.cells| && id <= |im.cells| && 1 <= kind <= 5
    ensures 128 + 16 * t + 16 <= |im.bytes|
    ensures ObjectForm(im, id, kind, t) <==>
            var b, at := im.bytes, 128 + 16 * t;
            && b[at] == kind
            && (kind != 4 ==> AttrForm(im, kind, Short(b, at + 2)))
            && (kind == 2 ==> Long(b, at + 12) / 65536 < 32768
                              && Long(b, at + 12) % 65536 == if id == |im.cells| then 65535 else id)
            && (kind != 2 ==> Long(b, at + 12) == 0)
            && (kind == 4 ==> Short(b, at + 2) == 0 && Long(b, at + 8) == 0)
            && (kind == 5 ==> Long(b, at + 4) == 0 && Long(b, at + 8) == 0)
  {
    CellBytes(im, t);
  }

  // ---------------------------------------------------------------- cells of a slice

  /** A cell of directory id's slice is an attribute, or empty with the size of the slice, or a bucket. */
  lemma CellIs(im: Image, id: nat, c: nat)
    requires Header.ReadImage(im.bytes) == Some(im) && c < |im.cells| && id <= |im.cells|
    ensures HeaderOk(im) && 128 + 16 * c + 16 <= |im.bytes|
    ensures CellForm(im, id, c) <==>
            var b, at := im.bytes, 128 + 16 * c;
            match b[at]
            case 129 => true
            case 0 => b[at + 1] == 0 && Short(b, at + 2) == 0 && Long(b, at + 4) == 0 && Long(b, at + 8) == 0
                      && Long(b, at + 12) == DirOf(im, id).size
            case kind => 1 <= kind <= 5 && b[at + 1] == 0 && Short(b, at + 2) == 0
                         && Long(b, at + 4) < |im.cells| && ObjectForm(im, id, kind, Long(b, at + 4))
                         && exists name: seq<byte> :: NameAt(im, Long(b, at + 8)) == Some(name)
                                                      && BlobFits(im, Long(b, at + 8), |name|, false)
  {
    CellBytes(im, c);
  }

  /** What a bucket is in the slice: its name, its object and the next bucket. */
  lemma ViewIs(im: Image, c: nat, name: seq<byte>)
    requires Header.ReadImage(im.bytes) == Some(im) && c < |im.cells|
    ensures HeaderOk(im) && 128 + 16 * c + 16 <= |im.bytes|
    ensures var b, at := im.bytes, 128 + 16 * c;
            1 <= b[at] <= 5 && NameAt(im, Long(b, at + 8)) == Some(name) ==>
              CellView(im, c) == Slice.Bucket(name, Long(b, at + 4), Long(b, at + 12))
  {
    CellBytes(im, c);
  }

  // ---------------------------------------------------------------- the rest

  /** An attribute is used and has no label unless the image has them; what is neither attribute, slice nor object
      is zero. */
  lemma UseIs(im: Image, roles: Validate.Roles, mac: bool, i: nat)
    requires Header.ReadImage(im.bytes) == Some(im) && i < |im.cells| && Validate.RolesFor(im, roles)
    ensures 128 + 16 * i + 16 <= |im.bytes|
    ensures Validate.CellUse(im, roles, mac, i) <==>
            var b, at := im.bytes, 128 + 16 * i;
            if b[at] == 129 then roles.attr[i] && b[at + 1] == 0 && (!mac ==> Long(b, at + 12) == 0)
            else
              || roles.inSlice[i] || roles.isObject[i]
              || (b[at] == 0 && b[at + 1] == 0 && Short(b, at + 2) == 0 && Long(b, at + 4) == 0
                  && Long(b, at + 8) == 0 && Long(b, at + 12) == 0)
  {
    CellBytes(im, i);
  }

  /** Two attributes with the same mode, owner, group and label. */
  predicate AlikeAttrs(im: Image, i: nat, j: nat)
    requires i < |im.cells| && j < |im.cells| && 128 + 16 * |im.cells| <= |im.bytes|
  {
    var b, p, q := im.bytes, 128 + 16 * i, 128 + 16 * j;
    && b[p] == 129 && b[q] == 129 && Short(b, p + 2) == Short(b, q + 2) && Long(b, p + 4) == Long(b, q + 4)
    && Long(b, p + 8) == Long(b, q + 8) && Long(b, p + 12) == Long(b, q + 12)
  }

  /** No two attributes of the table are alike. */
  lemma AttrsDiffer(im: Image)
    requires Header.ReadImage(im.bytes) == Some(im)
    ensures |im.bytes| >= 128 + 16 * |im.cells|
    ensures Distinct(Validate.Attrs(im, |im.cells|)) <==>
            forall i: nat, j: nat {:trigger AlikeAttrs(im, i, j)} :: i < j < |im.cells| ==> !AlikeAttrs(im, i, j)
  {
    HeaderBytes(im);
    AttrsBelow(im, |im.cells|);
    if Distinct(Validate.Attrs(im, |im.cells|)) {
      forall i: nat, j: nat | i < j < |im.cells|
        ensures !AlikeAttrs(im, i, j)
      {
        PairAlike(im, i, j);
      }
    } else {
      var i: nat, j: nat :| i < j < |im.cells| && SameAttr(im, i, j);
      PairAlike(im, i, j);
    }
  }

  lemma PairAlike(im: Image, i: nat, j: nat)
    requires Header.ReadImage(im.bytes) == Some(im) && i < |im.cells| && j < |im.cells|
    ensures 128 + 16 * |im.cells| <= |im.bytes| && (SameAttr(im, i, j) <==> AlikeAttrs(im, i, j))
  {
    HeaderBytes(im);
    CellBytes(im, i);
    CellBytes(im, j);
    SameBytes(im.cells[i], im.cells[j]);
  }

  lemma SameBytes(p: Raw, q: Raw)
    ensures Validate.AttrBytes(p) == Validate.AttrBytes(q) <==>
            p.half == q.half && p.w4 == q.w4 && p.w8 == q.w8 && p.w12 == q.w12
  {
    var a, b := Validate.AttrBytes(p), Validate.AttrBytes(q);
    if a == b {
      assert a[..2] == b[..2] && a[..2] == [p.half % 256, p.half / 256] && b[..2] == [q.half % 256, q.half / 256];
      assert a[2..6] == Le32(p.w4) && b[2..6] == Le32(q.w4);
      assert a[6..10] == Le32(p.w8) && b[6..10] == Le32(q.w8);
      assert a[10..] == Le32(p.w12) && b[10..] == Le32(q.w12);
      LoadStored(p.w4);
      LoadStored(q.w4);
      LoadStored(p.w8);
      LoadStored(q.w8);
      LoadStored(p.w12);
      LoadStored(q.w12);
    }
  }

  predicate SameAttr(im: Image, i: nat, j: nat)
    requires i < |im.cells| && j < |im.cells|
  {
    im.cells[i].kind == 129 && im.cells[j].kind == 129
    && Validate.AttrBytes(im.cells[i]) == Validate.AttrBytes(im.cells[j])
  }

  lemma {:induction false} AttrsBelow(im: Image, k: nat)
    requires k <= |im.cells|
    ensures Distinct(Validate.Attrs(im, k)) <==>
            forall i: nat, j: nat {:trigger SameAttr(im, i, j)} :: i < j < k ==> !SameAttr(im, i, j)
  {
    if k > 0 {
      AttrsBelow(im, k - 1);
      var front, x := Validate.Attrs(im, k - 1), Validate.AttrBytes(im.cells[k - 1]);
      AttrsHave(im, k - 1, x);
      if im.cells[k - 1].kind == 129 {
        LastOne(front, x);
        assert forall i: nat {:trigger im.cells[i]} :: i < k - 1 ==>
            (SameAttr(im, i, k - 1) <==> im.cells[i].kind == 129 && Validate.AttrBytes(im.cells[i]) == x);
      } else {
        assert forall i: nat {:trigger SameAttr(im, i, k - 1)} :: i < k - 1 ==> !SameAttr(im, i, k - 1);
      }
    }
  }

  lemma LastOne(front: seq<seq<byte>>, x: seq<byte>)
    ensures Distinct(front + [x]) <==> Distinct(front) && x !in front
  {
    var all := front + [x];
    assert forall i: nat :: i < |front| ==> all[i] == front[i];
    assert all[|front|] == x;
  }

  lemma {:induction false} AttrsHave(im: Image, k: nat, x: seq<byte>)
    requires k <= |im.cells|
    ensures x in Validate.Attrs(im, k) <==>
            exists i: nat {:trigger im.cells[i]} ::
              i < k && im.cells[i].kind == 129 && Validate.AttrBytes(im.cells[i]) == x
  {
    if k > 0 {
      AttrsHave(im, k - 1, x);
      assert im.cells[k - 1] == im.cells[k - 1];
    }
  }
}
