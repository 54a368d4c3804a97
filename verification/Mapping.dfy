/** Mapping file pages (ko/image.c:334-347) and the per-blob cache of copied pages
    (ko/femtofs.c:253-273, 373-386). */
module Mapping {
  import opened Format
  import opened Arith
  import opened Loads

  /** A run of content in the image: a file's, or a kept blob's. */
  datatype Content = Content(off: nat, size: nat)

  predicate PowerOfTwo(n: nat) {
    n == 1 || (n > 1 && n % 2 == 0 && PowerOfTwo(n / 2))
  }

  function HowMany(size: nat, page: nat): nat
    requires page > 0
  {
    (size + page - 1) / page
  }

  function FileBytes(bytes: seq<byte>, f: Content): seq<byte>
    requires f.off + f.size <= |bytes|
  {
    bytes[f.off..f.off + f.size]
  }

  /** What a page of the file holds: its bytes, then zeros. */
  function FilePage(bytes: seq<byte>, f: Content, offset: nat, page: nat): (r: seq<byte>)
    requires f.off + f.size <= |bytes| && offset < f.size
  {
    var end := if offset + page < f.size then offset + page else f.size;
    FileBytes(bytes, f)[offset..end] + Zeros(if offset + page < f.size then 0 else offset + page - f.size)
  }

  /** What the mapping hands out: the image's own page, or a copy padded with zeros. */
  function Handed(bytes: seq<byte>, source: nat, copied: nat, page: nat): seq<byte>
    requires copied <= page && source + (if copied == 0 then page else copied) <= |bytes|
  {
    if copied == 0 then bytes[source..source + page] else bytes[source..source + copied] + Zeros(page - copied)
  }

  /** Choose the page to map: where it starts in the image, and how much to copy (none if mapped in place). */
  method FfPage(f: Content, privateOff: nat, offset: nat, page: nat, leaking: bool)
    returns (ok: bool, source: nat, copied: nat)
    ensures ok <==> page > 0 && PowerOfTwo(page) && offset % page == 0 && offset < f.size
    ensures ok ==> source == f.off + offset && copied <= page
    ensures ok && copied > 0 ==> copied == if f.size - offset < page then f.size - offset else page
    ensures ok ==>
              (copied == 0 <==> && source % page == 0
                                && (f.size - offset >= page || InPublicPage(f, privateOff, source, page, leaking)))
  {
    if page == 0 || !PowerOfTwo(page) || offset % page != 0 || offset >= f.size {
      return false, 0, 0;
    }
    var count := if f.size - offset < page then f.size - offset else page;
    source, copied := f.off + offset, count;
    if source % page == 0 && (count == page ||
        (leaking && page <= PAGE && f.size >= page && f.off < privateOff && source + page <= privateOff)) {
      copied := 0;
    }
    ok := true;
  }

  /** The case in which the last, partial page of a file is mapped in place. */
  predicate InPublicPage(f: Content, privateOff: nat, source: nat, page: nat, leaking: bool) {
    leaking && page <= PAGE && f.size >= page && f.off < privateOff && source + page <= privateOff
  }

  /** In clean mode every page handed out is the file's page, whether mapped or copied. */
  lemma CleanPage(bytes: seq<byte>, f: Content, offset: nat, page: nat, source: nat, copied: nat)
    requires f.off + f.size <= |bytes| && page > 0 && offset < f.size && source == f.off + offset
    requires copied > 0 ==> copied == if f.size - offset < page then f.size - offset else page
    requires copied == 0 ==> f.size - offset >= page
    ensures source + (if copied == 0 then page else copied) <= |bytes|
    ensures Handed(bytes, source, copied, page) == FilePage(bytes, f, offset, page)
  {
    var end := if offset + page < f.size then offset + page else f.size;
    assert FileBytes(bytes, f)[offset..end] == bytes[source..f.off + end];
    if copied == 0 {
      assert bytes[source..source + page] == bytes[source..f.off + end] + Zeros(0);
    }
  }

  /** What a mapped page may show: the file's bytes, and past its end zeros or, in leaking mode only, what
      the image holds there in its public part. */
  ghost predicate Served(bytes: seq<byte>, f: Content, privateOff: nat, offset: nat, page: nat, leaking: bool,
                         content: seq<byte>)
    requires f.off + f.size <= |bytes| && offset < f.size
  {
    var own := if f.size - offset < page then f.size - offset else page;
    && |content| == page && content[..own] == FileBytes(bytes, f)[offset..offset + own]
    && forall i: nat {:trigger content[i]} :: own <= i < page ==>
         content[i] == 0 || (leaking && Leaked(bytes, privateOff, f.off + offset + i, content[i]))
  }

  /** A byte of the image's public part. */
  predicate Leaked(bytes: seq<byte>, privateOff: nat, at: nat, b: byte) {
    at < privateOff && at < |bytes| && b == bytes[at]
  }

  lemma FilePageServed(bytes: seq<byte>, f: Content, privateOff: nat, offset: nat, page: nat, leaking: bool)
    requires f.off + f.size <= |bytes| && page > 0 && offset < f.size
    ensures Served(bytes, f, privateOff, offset, page, leaking, FilePage(bytes, f, offset, page))
  {
  }

  /** Whatever `FfPage` maps in place, the page shows the file's own bytes, and nothing private beyond them. */
  lemma InPlaceServed(bytes: seq<byte>, f: Content, privateOff: nat, offset: nat, page: nat, leaking: bool, at: nat)
    requires f.off + f.size <= |bytes| && privateOff <= |bytes| && page > 0 && offset < f.size && at == f.off + offset
    requires f.size - offset >= page || InPublicPage(f, privateOff, at, page, leaking)
    ensures at + page <= |bytes| && Served(bytes, f, privateOff, offset, page, leaking, bytes[at..at + page])
  {
    var own := if f.size - offset < page then f.size - offset else page;
    assert at + page <= |bytes|;
    SubSlice(bytes, f.off, f.size, offset, own);
    SubSlice(bytes, at, page, 0, own);
  }

  // ---------------------------------------------------------------- the whole file

  /** The first k pages of the file, one after the other. */
  ghost function Pages(bytes: seq<byte>, f: Content, page: nat, k: nat): seq<byte>
    requires f.off + f.size <= |bytes| && page > 0 && k <= HowMany(f.size, page)
  {
    if k == 0 then []
    else
      LastPageStarts(f.size, page, k - 1);
      Pages(bytes, f, page, k - 1) + FilePage(bytes, f, (k - 1) * page, page)
  }

  lemma LastPageStarts(size: nat, page: nat, k: nat)
    requires page > 0 && k < HowMany(size, page)
    ensures k * page < size
  {
    var q := (size + page - 1) / page;
    assert q * page <= size + page - 1;
    MulLe(k + 1, q, page);
    assert (k + 1) * page == k * page + page;
  }

  lemma PagesCover(size: nat, page: nat)
    requires page > 0
    ensures size <= HowMany(size, page) * page < size + page
  {
    var q, r := (size + page - 1) / page, (size + page - 1) % page;
    assert size + page - 1 == q * page + r;
  }

  lemma {:induction false} PagesPrefix(bytes: seq<byte>, f: Content, page: nat, k: nat)
    requires f.off + f.size <= |bytes| && page > 0 && k <= HowMany(f.size, page)
    ensures Pages(bytes, f, page, k) ==
            if k * page <= f.size then FileBytes(bytes, f)[..k * page]
            else FileBytes(bytes, f) + Zeros(k * page - f.size)
  {
    if k > 0 {
      PagesPrefix(bytes, f, page, k - 1);
      LastPageStarts(f.size, page, k - 1);
      assert (k - 1) * page + page == k * page;
      PageAppended(bytes, f, (k - 1) * page, page);
    }
  }

  lemma PageAppended(bytes: seq<byte>, f: Content, start: nat, page: nat)
    requires f.off + f.size <= |bytes| && start < f.size
    ensures var file := FileBytes(bytes, f);
            file[..start] + FilePage(bytes, f, start, page) ==
            if start + page <= f.size then file[..start + page] else file + Zeros(start + page - f.size)
  {
    var file := FileBytes(bytes, f);
    if start + page <= f.size {
      assert file[..start] + file[start..start + page] == file[..start + page];
    } else {
      assert file[..start] + file[start..] == file;
    }
  }

  /** The pages of a file are its bytes followed by zeros to the end of the last page. */
  lemma PagesAreFile(bytes: seq<byte>, f: Content, page: nat)
    requires f.off + f.size <= |bytes| && page > 0
    ensures Pages(bytes, f, page, HowMany(f.size, page)) ==
            FileBytes(bytes, f) + Zeros(HowMany(f.size, page) * page - f.size)
  {
    PagesPrefix(bytes, f, page, HowMany(f.size, page));
    PagesCover(f.size, page);
  }

  /** Only the last page of a file that starts on a page boundary, or fits one page, is ever copied. */
  lemma AtMostOneCopy(f: Content, page: nat, offset: nat, source: nat)
    requires page > 0 && offset % page == 0 && offset < f.size && source == f.off + offset
    requires f.off % page == 0 || f.size <= page
    requires !(source % page == 0 && f.size - offset >= page)
    ensures offset / page == HowMany(f.size, page) - 1
  {
    var k := offset / page;
    assert offset == k * page;
    if f.off % page == 0 {
      AddMultiple(f.off, k, page);
      assert f.size - offset < page;
    } else if k >= 1 {
      MulLe(1, k, page);
    }
    var q := f.size - offset;
    assert 0 < q <= page;
    assert f.size + page - 1 == (k + 1) * page + (q - 1);
    if q - 1 < page {
      DivModUnique(f.size + page - 1, page, k + 1, q - 1);
    }
  }

  // ---------------------------------------------------------------- the clean cache

  type Vector = seq<Option<seq<byte>>>

  function Filled(v: Vector): nat {
    if v == [] then 0 else Filled(v[..|v| - 1]) + (if v[|v| - 1].Some? then 1 else 0)
  }

  function FilledIn(v: Option<Vector>): nat {
    if v.Some? then Filled(v.value) else 0
  }

  ghost function Total(clean: seq<Option<Vector>>): nat {
    Sum(seq(|clean|, b requires 0 <= b < |clean| => FilledIn(clean[b])))
  }

  lemma {:induction false} FilledUpdate(v: Vector, i: nat, p: seq<byte>)
    requires i < |v| && v[i].None?
    ensures Filled(v[i := Some(p)]) == Filled(v) + 1
  {
    var last := |v| - 1;
    if i < last {
      FilledUpdate(v[..last], i, p);
      assert v[i := Some(p)][..last] == v[..last][i := Some(p)];
    } else {
      assert v[i := Some(p)][..last] == v[..last];
    }
  }

  lemma {:induction false} FilledNone(n: nat)
    ensures Filled(seq(n, _ => None)) == 0
  {
    if n > 0 {
      FilledNone(n - 1);
      assert seq<Option<seq<byte>>>(n, _ => None)[..n - 1] == seq(n - 1, _ => None);
    }
  }

  lemma TotalUpdate(clean: seq<Option<Vector>>, b: nat, v: Option<Vector>)
    requires b < |clean|
    ensures Total(clean[b := v]) + FilledIn(clean[b]) == Total(clean) + FilledIn(v)
  {
    var xs := seq(|clean|, i requires 0 <= i < |clean| => FilledIn(clean[i]));
    SumUpdate(xs, b, FilledIn(v));
    assert seq(|clean|, i requires 0 <= i < |clean| => FilledIn(clean[b := v][i])) == xs[b := FilledIn(v)];
  }

  /** Copied pages of one mount, kept by blob so that files sharing a blob share them. */
  class CleanCache {
    const bytes: seq<byte>
    const blobs: seq<Content>
    const page: nat
    var clean: seq<Option<Vector>>
    /** Pages allocated and not yet released. */
    var live: nat

    ghost predicate Valid()
      reads this
    {
      && page > 0 && |clean| == |blobs|
      && (forall b: nat :: b < |blobs| ==> blobs[b].off + blobs[b].size <= |bytes|)
      && (forall b: nat :: b < |clean| && clean[b].Some? ==> VectorOk(blobs[b], clean[b].value))
      && live == Total(clean)
    }

    /** One slot a page, and every copy is that page of the blob. */
    ghost predicate VectorOk(c: Content, v: Vector) {
      && page > 0 && c.off + c.size <= |bytes| && |v| == HowMany(c.size, page)
      && (forall i: nat :: i < |v| && v[i].Some? ==>
            i * page < c.size && v[i].value == FilePage(bytes, c, i * page, page))
    }

    constructor (bytes: seq<byte>, blobs: seq<Content>, page: nat)
      requires page > 0 && forall b: nat :: b < |blobs| ==> blobs[b].off + blobs[b].size <= |bytes|
      ensures Valid() && this.bytes == bytes && this.blobs == blobs && this.page == page && live == 0
    {
      this.bytes, this.blobs, this.page := bytes, blobs, page;
      clean := seq(|blobs|, _ => None);
      live := 0;
      new;
      AllNone(clean);
    }

    /** Serve a fault of a file whose blob has the file's own offset and size. */
    method Fault(f: Content, blob: nat, privateOff: nat, offset: nat, leaking: bool)
      returns (ok: bool, content: seq<byte>, ghost source: nat, ghost copied: nat)
      requires Valid() && blob < |blobs| && blobs[blob] == f && privateOff <= |bytes|
      modifies this
      ensures Valid()
      ensures ok <==> PowerOfTwo(page) && offset % page == 0 && offset < f.size
      ensures ok ==>
                source == f.off + offset && copied <= page && source + (if copied == 0 then page else copied) <= |bytes|
      ensures ok ==> content == Handed(bytes, source, copied, page)
      ensures ok && !leaking ==> content == FilePage(bytes, f, offset, page)
      ensures ok ==> Served(bytes, f, privateOff, offset, page, leaking, content)
      ensures ok ==> |content| == page && forall i: nat {:trigger content[i]} :: i < page ==>
                var at := f.off + offset + i;
                if offset + i < f.size then at < |bytes| && content[i] == bytes[at]
                else content[i] == 0 || (leaking && at < privateOff && at < |bytes| && content[i] == bytes[at])
      ensures ok ==>
                (copied == 0 <==>
                 && (f.off + offset) % page == 0
                 && (|| f.size - offset >= page
                     || (leaking && page <= 4096 && f.size >= page && f.off < privateOff
                         && f.off + offset + page <= privateOff)))
    {
      var at, count;
      ok, at, count := FfPage(f, privateOff, offset, page, leaking);
      source, copied := at, count;
      content := [];
      if !ok {
        return;
      }
      if count == 0 {
        InPlace(bytes, f, privateOff, offset, page, leaking, at);
        InPlaceServed(bytes, f, privateOff, offset, page, leaking, at);
        content := bytes[at..at + page];
        ServedBytes(bytes, f, privateOff, offset, page, leaking, content);
        return;
      }
      content := Copied(f, blob, offset, at, count);
      FilePageServed(bytes, f, privateOff, offset, page, leaking);
      ServedBytes(bytes, f, privateOff, offset, page, leaking, content);
    }

    /** Serve a fault from a copied page. */
    method Copied(f: Content, blob: nat, offset: nat, at: nat, count: nat) returns (content: seq<byte>)
      requires Valid() && blob < |blobs| && blobs[blob] == f
      requires offset % page == 0 && offset < f.size && at == f.off + offset
      requires 0 < count == if f.size - offset < page then f.size - offset else page
      modifies this
      ensures Valid() && at + count <= |bytes|
      ensures content == FilePage(bytes, f, offset, page) && content == Handed(bytes, at, count, page)
    {
      CleanPage(bytes, f, offset, page, at, count);
      var index := offset / page;
      PageIndex(f.size, page, offset);
      content := CopyOnce(f, blob, index, at, count);
    }

    /** The copied page of a blob, made on the first fault that needs it. */
    method CopyOnce(f: Content, blob: nat, index: nat, at: nat, count: nat) returns (content: seq<byte>)
      requires Valid() && blob < |blobs| && blobs[blob] == f
      requires index < HowMany(f.size, page) && index * page < f.size
      requires 0 < count <= page && at + count <= |bytes|
      requires Handed(bytes, at, count, page) == FilePage(bytes, f, index * page, page)
      modifies this
      ensures Valid() && content == FilePage(bytes, f, index * page, page)
    {
      if clean[blob].None? {
        FilledNone(HowMany(f.size, page));
        TotalUpdate(clean, blob, Some(seq(HowMany(f.size, page), _ => None)));
        clean := clean[blob := Some(seq(HowMany(f.size, page), _ => None))];
      }
      var v := clean[blob].value;
      assert VectorOk(f, v);
      if v[index].None? {
        var copy := bytes[at..at + count] + Zeros(page - count);
        FilledUpdate(v, index, copy);
        TotalUpdate(clean, blob, Some(v[index := Some(copy)]));
        assert VectorOk(f, v[index := Some(copy)]);
        clean := clean[blob := Some(v[index := Some(copy)])];
        live := live + 1;
      }
      content := clean[blob].value[index].value;
    }

    /** Release the pages of one vector. */
    method FreeVector(i: nat)
      requires Valid() && i < |blobs| && clean[i].Some?
      modifies this
      ensures Valid() && clean == old(clean)[i := None]
    {
      var v := clean[i].value;
      TotalUpdate(clean, i, None);
      var released := 0;
      var n := HowMany(blobs[i].size, page);
      for j := 0 to n
        invariant released == Filled(v[..j])
      {
        assert v[..j + 1][..j] == v[..j];
        if v[j].Some? {
          released := released + 1;
        }
      }
      assert v[..n] == v;
      live := live - released;
      clean := clean[i := None];
    }

    /** Release every copied page; none is missed and none released twice. */
    method Free()
      requires Valid()
      modifies this
      ensures Valid() && live == 0 && forall b: nat :: b < |clean| ==> clean[b].None?
    {
      for i := 0 to |blobs|
        invariant Valid()
        invariant forall b: nat :: b < i ==> clean[b].None?
      {
        if clean[i].Some? {
          FreeVector(i);
        }
      }
      AllNone(clean);
    }
  }

  /** Byte by byte: the file's own, then zeros, or public bytes when they may leak. */
  lemma ServedBytes(bytes: seq<byte>, f: Content, privateOff: nat, offset: nat, page: nat, leaking: bool,
                    content: seq<byte>)
    requires f.off + f.size <= |bytes| && offset < f.size
    requires Served(bytes, f, privateOff, offset, page, leaking, content)
    ensures |content| == page && forall i: nat {:trigger content[i]} :: i < page ==>
              var at := f.off + offset + i;
              if offset + i < f.size then at < |bytes| && content[i] == bytes[at]
              else content[i] == 0 || (leaking && at < privateOff && at < |bytes| && content[i] == bytes[at])
  {
    var own := if f.size - offset < page then f.size - offset else page;
    forall i: nat | i < own
      ensures content[i] == bytes[f.off + offset + i]
    {
      var left, right := content[..own], FileBytes(bytes, f)[offset..offset + own];
      assert left[i] == content[i];
      assert right[i] == FileBytes(bytes, f)[offset + i] == bytes[f.off + (offset + i)];
    }
  }

  /** Exactly the powers of two. */
  lemma {:induction false} PowerOfTwoIs(n: nat)
    ensures PowerOfTwo(n) <==> exists k: nat :: n == TwoTo(k)
  {
    if n > 1 && n % 2 == 0 {
      PowerOfTwoIs(n / 2);
      if PowerOfTwo(n) {
        var k: nat :| n / 2 == TwoTo(k);
        assert n == TwoTo(k + 1);
      }
      forall k: nat | n == TwoTo(k)
        ensures PowerOfTwo(n)
      {
        var j: nat := k - 1;
        assert n / 2 == TwoTo(j);
        assert PowerOfTwo(n / 2);
      }
    } else if n == 1 {
      assert n == TwoTo(0);
    } else {
      forall k: nat
        ensures n != TwoTo(k)
      {
        TwoToGrows(0, k);
      }
    }
  }

  /** A page mapped in place lies inside the image, and in clean mode it is the file's. */
  lemma InPlace(bytes: seq<byte>, f: Content, privateOff: nat, offset: nat, page: nat, leaking: bool, at: nat)
    requires f.off + f.size <= |bytes| && privateOff <= |bytes| && page > 0 && offset < f.size && at == f.off + offset
    requires f.size - offset >= page || InPublicPage(f, privateOff, at, page, leaking)
    ensures at + page <= |bytes| && Handed(bytes, at, 0, page) == bytes[at..at + page]
    ensures !leaking ==> bytes[at..at + page] == FilePage(bytes, f, offset, page)
  {
    if !leaking {
      CleanPage(bytes, f, offset, page, at, 0);
    }
  }

  lemma PageIndex(size: nat, page: nat, offset: nat)
    requires page > 0 && offset % page == 0 && offset < size
    ensures offset / page * page == offset && offset / page < HowMany(size, page)
  {
    assert offset == offset / page * page + offset % page;
    IndexInRange(size, page, offset / page);
  }

  lemma IndexInRange(size: nat, page: nat, k: nat)
    requires page > 0 && k * page < size
    ensures k < HowMany(size, page)
  {
    var q := HowMany(size, page);
    PagesCover(size, page);
    if q <= k {
      MulLe(q, k, page);
    }
  }

  lemma AllNone(clean: seq<Option<Vector>>)
    requires forall b: nat :: b < |clean| ==> clean[b].None?
    ensures Total(clean) == 0
  {
    SumZero(|clean|);
    assert seq(|clean|, b requires 0 <= b < |clean| => FilledIn(clean[b])) == seq(|clean|, _ => 0);
  }
}
