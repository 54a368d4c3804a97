/** Packing content into pages: the builder's `packPart` (programs/makefemtofs.cpp:1634-1710) and the
    simulator's `packContents` (programs/femtofsSim.cpp:1056-1106).

    Each blob goes into the best-fitting hole, or at the tail after skipping to a page boundary when it
    would straddle one; what is skipped becomes a hole. */
module Packing {
  import opened Format
  import opened Arith
  import opened Sorting
  import opened Counting
  import Loads


  /** A run of bytes: a free hole, or a placed blob. */
  datatype Extent = Extent(offset: nat, size: nat)

  /** The tail and the sizes of the holes: all that decides where the tail goes next. */
  datatype State = State(tail: nat, holes: multiset<nat>)

  /** h is the size of the smallest hole that takes s bytes. */
  ghost predicate IsBest(holes: multiset<nat>, s: nat, h: nat) {
    h in holes && s <= h && forall x: nat :: x in holes && s <= x ==> h <= x
  }

  /** Bytes skipped at the tail before s bytes: up to the next page if s would cross one or must start one. */
  function Gap(tail: nat, s: nat, page: nat): nat
    requires page > 0
  {
    var pageOff := tail % page;
    if (if s >= page then pageOff != 0 else pageOff + s > page) then page - pageOff else 0
  }

  function Piece(x: nat): multiset<nat> {
    if x > 0 then multiset{x} else multiset{}
  }

  /** `best` is the size of the hole to use, or None when no hole is large enough. */
  ghost predicate Chosen(holes: multiset<nat>, s: nat, best: Option<nat>) {
    match best
    case Some(h) => IsBest(holes, s, h)
    case None => forall h: nat :: !IsBest(holes, s, h)
  }

  ghost function Using(st: State, s: nat, page: nat, best: Option<nat>): State
    requires page > 0 && (best.Some? ==> s <= best.value)
  {
    match best
    case Some(h) => State(st.tail, st.holes - multiset{h} + Piece(h - s))
    case None => State(st.tail + Gap(st.tail, s, page) + s, st.holes + Piece(Gap(st.tail, s, page)))
  }

  ghost function Step(st: State, s: nat, page: nat): State
    requires page > 0
  {
    if best: Option<nat> :| Chosen(st.holes, s, best) then Using(st, s, page, best) else st
  }

  ghost function Run(sizes: seq<nat>, page: nat): State
    requires page > 0
  {
    if sizes == [] then State(0, multiset{}) else Step(Run(sizes[..|sizes| - 1], page), sizes[|sizes| - 1], page)
  }

  lemma RunStep(sizes: seq<nat>, k: nat, page: nat)
    requires page > 0 && k < |sizes|
    ensures Run(sizes[..k + 1], page) == Step(Run(sizes[..k], page), sizes[k], page)
  {
    assert sizes[..k + 1][..k] == sizes[..k];
  }

  lemma ChosenUnique(holes: multiset<nat>, s: nat, best: Option<nat>, other: Option<nat>)
    requires Chosen(holes, s, best) && Chosen(holes, s, other)
    ensures best == other
  {
    if best.Some? && other.Some? {
      assert best.value <= other.value <= best.value;
    }
  }

  lemma StepUses(st: State, s: nat, page: nat, best: Option<nat>)
    requires page > 0 && Chosen(st.holes, s, best)
    ensures Step(st, s, page) == Using(st, s, page, best)
  {
    forall other: Option<nat> | Chosen(st.holes, s, other)
      ensures other == best
    {
      ChosenUnique(st.holes, s, best, other);
    }
  }

  /** Into the smallest hole that is large enough, what is left of it staying a hole; otherwise behind the tail, what
      is skipped becoming one. */
  lemma StepIs(st: State, s: nat, page: nat)
    requires page > 0
    ensures var next := Step(st, s, page);
            if exists h: nat :: h in st.holes && s <= h then
              exists h: nat ::
                && h in st.holes && s <= h && (forall x: nat :: x in st.holes && s <= x ==> h <= x)
                && next.tail == st.tail
                && next.holes == st.holes - multiset{h} + (if h == s then multiset{} else multiset{h - s})
            else
              var room := page - st.tail % page;
              var skip := if st.tail % page == 0 || (s < page && s <= room) then 0 else room;
              next.tail == st.tail + skip + s
              && next.holes == st.holes + (if skip == 0 then multiset{} else multiset{skip})
  {
    if h: nat :| h in st.holes && s <= h {
      var best := Smallest(st.holes, s, h);
      StepUses(st, s, page, Some(best));
    } else {
      StepUses(st, s, page, None);
    }
  }

  lemma Smallest(holes: multiset<nat>, s: nat, h: nat) returns (best: nat)
    requires h in holes && s <= h
    ensures IsBest(holes, s, best)
    decreases h
  {
    best := h;
    if x: nat :| x in holes && s <= x < h {
      best := Smallest(holes, s, x);
    }
  }

  lemma {:induction false} RunGrows(sizes: seq<nat>, k: nat, page: nat)
    requires page > 0 && k <= |sizes|
    ensures Run(sizes[..k], page).tail <= Run(sizes, page).tail
    decreases |sizes| - k
  {
    if k < |sizes| {
      RunStep(sizes, k, page);
      RunGrows(sizes, k + 1, page);
    } else {
      assert sizes[..k] == sizes;
    }
  }

  // ---------------------------------------------------------------- hole lists

  function HoleSizes(holes: seq<Extent>): seq<nat> {
    seq(|holes|, i requires 0 <= i < |holes| => holes[i].size)
  }

  function SizeAt(holes: seq<Extent>, i: nat): Option<nat> {
    if i < |holes| then Some(holes[i].size) else None
  }

  lemma HoleSizesRemove(holes: seq<Extent>, i: nat)
    requires i < |holes|
    ensures multiset(HoleSizes(holes[..i] + holes[i + 1..])) == multiset(HoleSizes(holes)) - multiset{holes[i].size}
  {
    var xs := HoleSizes(holes);
    assert HoleSizes(holes[..i] + holes[i + 1..]) == xs[..i] + xs[i + 1..];
    assert xs == xs[..i] + [xs[i]] + xs[i + 1..];
  }

  lemma HoleSizesUpdate(holes: seq<Extent>, i: nat, h: Extent)
    requires i < |holes|
    ensures multiset(HoleSizes(holes[i := h]))
         == multiset(HoleSizes(holes)) - multiset{holes[i].size} + multiset{h.size}
  {
    assert HoleSizes(holes[i := h]) == HoleSizes(holes)[i := h.size];
  }

  lemma HoleSizesInsert(holes: seq<Extent>, i: nat, h: Extent)
    requires i <= |holes|
    ensures multiset(HoleSizes(holes[..i] + [h] + holes[i..])) == multiset(HoleSizes(holes)) + multiset{h.size}
  {
    var xs := HoleSizes(holes);
    assert HoleSizes(holes[..i] + [h] + holes[i..]) == xs[..i] + [h.size] + xs[i..];
    assert xs == xs[..i] + xs[i..];
  }

  /** No fitting hole is smaller, and none of its size lies lower. */
  ghost predicate BestFit(holes: seq<Extent>, s: nat, best: nat) {
    best < |holes| && s <= holes[best].size && forall j: nat {:trigger holes[j]} ::
      j < |holes| && s <= holes[j].size ==>
      || holes[best].size < holes[j].size
      || (holes[best].size == holes[j].size && holes[best].offset <= holes[j].offset)
  }

  /** The builder's scan: smallest fitting hole, lowest offset among equals; past the end if none fits. */
  method BestHole(holes: seq<Extent>, s: nat) returns (best: nat)
    ensures best <= |holes|
    ensures Chosen(multiset(HoleSizes(holes)), s, SizeAt(holes, best))
    ensures if best < |holes| then BestFit(holes, s, best) else forall i: nat :: i < |holes| ==> holes[i].size < s
  {
    best := |holes|;
    for i := 0 to |holes|
      invariant best == |holes| || best < i
      invariant best == |holes| ==> forall j: nat :: j < i ==> holes[j].size < s
      invariant best < |holes| ==> s <= holes[best].size && forall j: nat :: j < i && s <= holes[j].size ==>
                  holes[best].size < holes[j].size ||
                  (holes[best].size == holes[j].size && holes[best].offset <= holes[j].offset)
    {
      if holes[i].size < s {
        continue;
      }
      if best == |holes| || holes[i].size < holes[best].size ||
         (holes[i].size == holes[best].size && holes[i].offset < holes[best].offset) {
        best := i;
      }
    }
    BestIs(holes, s, best);
  }

  lemma BestIs(holes: seq<Extent>, s: nat, best: nat)
    requires best <= |holes|
    requires best == |holes| ==> forall j: nat :: j < |holes| ==> holes[j].size < s
    requires best < |holes| ==> s <= holes[best].size
    requires best < |holes| ==> forall j: nat :: j < |holes| && s <= holes[j].size ==> holes[best].size <= holes[j].size
    ensures Chosen(multiset(HoleSizes(holes)), s, SizeAt(holes, best))
  {
    var sizes := HoleSizes(holes);
    forall x: nat | x in multiset(sizes)
      ensures exists j: nat :: j < |holes| && holes[j].size == x
    {
      assert x in sizes;
      var j: nat :| j < |sizes| && sizes[j] == x;
      assert holes[j].size == x;
    }
    if best < |holes| {
      assert sizes[best] in multiset(sizes);
    }
  }

  // ---------------------------------------------------------------- the simulator

  ghost predicate BySize(holes: seq<Extent>) {
    forall i: nat, j: nat :: i < j < |holes| ==> holes[i].size <= holes[j].size
  }

  method Erase(holes: seq<Extent>, it: nat) returns (r: seq<Extent>)
    requires BySize(holes) && it < |holes|
    ensures BySize(r) && multiset(HoleSizes(r)) == multiset(HoleSizes(holes)) - multiset{holes[it].size}
  {
    HoleSizesRemove(holes, it);
    r := holes[..it] + holes[it + 1..];
  }

  /** The simulator keeps its holes ordered by size: take the first that is large enough. */
  method LowerBound(holes: seq<Extent>, s: nat) returns (it: nat)
    requires BySize(holes)
    ensures it <= |holes|
    ensures Chosen(multiset(HoleSizes(holes)), s, SizeAt(holes, it))
    ensures forall i: nat :: i < |holes| ==> (i < it <==> holes[i].size < s)
  {
    it := 0;
    while it < |holes| && holes[it].size < s
      invariant it <= |holes| && forall i: nat :: i < it ==> holes[i].size < s
    {
      it := it + 1;
    }
    BestIs(holes, s, it);
  }

  method AddHole(holes: seq<Extent>, offset: nat, size: nat) returns (r: seq<Extent>)
    requires BySize(holes)
    ensures BySize(r)
    ensures multiset(HoleSizes(r)) == multiset(HoleSizes(holes)) + Piece(size)
  {
    if size == 0 {
      return holes;
    }
    var at := LowerBound(holes, size + 1);
    HoleSizesInsert(holes, at, Extent(offset, size));
    r := holes[..at] + [Extent(offset, size)] + holes[at..];
  }

  /** `std::greater`. */
  function Larger(): (nat, nat) -> bool {
    (x: nat, y: nat) => x >= y
  }

  lemma LargerOrder()
    ensures TotalOrder(Larger())
    ensures forall x: nat, y: nat :: Larger()(x, y) && Larger()(y, x) ==> x == y
  {
  }

  function NonZero(sizes: seq<nat>): seq<nat> {
    if sizes == [] then []
    else NonZero(sizes[..|sizes| - 1]) + (if sizes[|sizes| - 1] == 0 then [] else [sizes[|sizes| - 1]])
  }

  lemma Descending(sizes: seq<nat>, sorted: seq<nat>)
    requires sorted == Sort(Larger(), NonZero(sizes))
    ensures forall x: nat :: multiset(sorted)[x] == if x == 0 then 0 else multiset(sizes)[x]
    ensures forall i: nat, j: nat :: i < j < |sorted| ==> sorted[i] >= sorted[j]
  {
    LargerOrder();
    SortSorted(Larger(), NonZero(sizes));
    forall i: nat, j: nat | i < j < |sorted|
      ensures sorted[i] >= sorted[j]
    {
      assert Larger()(sorted[i], sorted[j]);
    }
    forall x: nat
      ensures multiset(sorted)[x] == if x == 0 then 0 else multiset(sizes)[x]
    {
      NonZeroCounts(sizes, x);
    }
  }

  lemma {:induction false} NonZeroCounts(sizes: seq<nat>, x: nat)
    ensures multiset(NonZero(sizes))[x] == if x == 0 then 0 else multiset(sizes)[x]
  {
    if sizes != [] {
      var last := |sizes| - 1;
      NonZeroCounts(sizes[..last], x);
      assert sizes == sizes[..last] + [sizes[last]];
    }
  }

  /** Take s bytes from the front of a hole; what is left goes back in its place by size. */
  method TakeHole(holes: seq<Extent>, it: nat, s: nat) returns (r: seq<Extent>)
    requires BySize(holes) && it < |holes| && s <= holes[it].size
    ensures BySize(r)
    ensures multiset(HoleSizes(r)) == multiset(HoleSizes(holes)) - multiset{holes[it].size} + Piece(holes[it].size - s)
  {
    var hole := holes[it];
    var rest := Erase(holes, it);
    r := AddHole(rest, hole.offset + s, hole.size - s);
  }

  /** Append at the tail, after skipping to a page boundary if need be. */
  method AppendContent(holes: seq<Extent>, tail: nat, s: nat, page: nat) returns (holes': seq<Extent>, tail': nat)
    requires page > 0 && BySize(holes)
    ensures BySize(holes') && tail' == tail + Gap(tail, s, page) + s
    ensures multiset(HoleSizes(holes')) == multiset(HoleSizes(holes)) + Piece(Gap(tail, s, page))
  {
    holes', tail' := holes, tail;
    var pageOff := tail % page;
    if (if s >= page then pageOff != 0 else pageOff + s > page) {
      var gap := page - pageOff;
      holes' := AddHole(holes, tail, gap);
      tail' := tail + gap;
    }
    tail' := tail' + s;
  }

  /** Use the hole found, or the tail when none was. */
  method PlaceContent(holes: seq<Extent>, tail: nat, s: nat, page: nat, it: nat)
    returns (holes': seq<Extent>, tail': nat)
    requires page > 0 && BySize(holes) && (it < |holes| ==> s <= holes[it].size)
    ensures BySize(holes')
    ensures State(tail', multiset(HoleSizes(holes'))) ==
            Using(State(tail, multiset(HoleSizes(holes))), s, page, SizeAt(holes, it))
  {
    if it < |holes| {
      tail' := tail;
      holes' := TakeHole(holes, it, s);
    } else {
      holes', tail' := AppendContent(holes, tail, s, page);
    }
  }

  /** The padded size of a pool of contents: the tail of the run over the sizes in decreasing order. */
  method PackContents(sizes: seq<nat>, page: nat) returns (padded: nat)
    ensures page == 0 ==> padded == 0
    ensures page > 0 ==> padded == Run(Sort(Larger(), NonZero(sizes)), page).tail
    ensures page > 0 ==>
              exists sorted: seq<nat> {:trigger Run(sorted, page)} ::
                && padded == Run(sorted, page).tail
                && (forall x: nat :: multiset(sorted)[x] == if x == 0 then 0 else multiset(sizes)[x])
                && forall i: nat, j: nat :: i < j < |sorted| ==> sorted[i] >= sorted[j]
  {
    if page == 0 {
      return 0;
    }
    var sorted := Sort(Larger(), NonZero(sizes));
    Descending(sizes, sorted);
    var holes: seq<Extent> := [];
    var tail: nat := 0;
    ghost var st := State(0, multiset{});
    assert multiset(HoleSizes(holes)) == multiset{};
    for k := 0 to |sorted|
      invariant BySize(holes)
      invariant st == State(tail, multiset(HoleSizes(holes))) && st == Run(sorted[..k], page)
    {
      RunStep(sorted, k, page);
      var it := LowerBound(holes, sorted[k]);
      StepUses(st, sorted[k], page, SizeAt(holes, it));
      st := Step(st, sorted[k], page);
      holes, tail := PlaceContent(holes, tail, sorted[k], page, it);
    }
    assert sorted[..|sorted|] == sorted;
    padded := tail;
  }

  // ---------------------------------------------------------------- the builder's blobs

  datatype Blob = Blob(bytes: seq<byte>, stored: nat, digest: nat, domain: nat, publicPart: bool)

  /** Stored sizes include a terminator and are rounded up to words. */
  predicate Storable(b: Blob) {
    b.stored == (|b.bytes| + 4) / 4 * 4 && b.stored <= MAX32
  }

  /** The packing order: larger first, then digest, content, domain and index. */
  predicate PacksFirst(blobs: seq<Blob>, x: nat, y: nat) {
    if x >= |blobs| || y >= |blobs| then (x < |blobs|) || (y >= |blobs| && x <= y)
    else
      var a, b := blobs[x], blobs[y];
      if a.stored != b.stored then a.stored > b.stored
      else if a.digest != b.digest then a.digest < b.digest
      else if a.bytes != b.bytes then BytesLess(a.bytes, b.bytes)
      else if a.domain != b.domain then a.domain < b.domain
      else x <= y
  }

  function PackOrder(blobs: seq<Blob>): (nat, nat) -> bool {
    (x: nat, y: nat) => PacksFirst(blobs, x, y)
  }

  lemma PackOrderTotal(blobs: seq<Blob>)
    ensures TotalOrder(PackOrder(blobs))
  {
    forall x: nat, y: nat
      ensures PacksFirst(blobs, x, x) && (PacksFirst(blobs, x, y) || PacksFirst(blobs, y, x))
    {
      if x < |blobs| && y < |blobs| {
        BytesTotal(blobs[x].bytes, blobs[y].bytes);
        BytesTotal(blobs[y].bytes, blobs[x].bytes);
      }
    }
    forall x: nat, y: nat, z: nat | PacksFirst(blobs, x, y) && PacksFirst(blobs, y, z)
      ensures PacksFirst(blobs, x, z)
    {
      PackOrderTransitive(blobs, x, y, z);
    }
  }

  lemma PackOrderTransitive(blobs: seq<Blob>, x: nat, y: nat, z: nat)
    requires PacksFirst(blobs, x, y) && PacksFirst(blobs, y, z)
    ensures PacksFirst(blobs, x, z)
  {
    if x < |blobs| && y < |blobs| && z < |blobs| {
      BytesTotal(blobs[x].bytes, blobs[y].bytes);
      BytesTotal(blobs[y].bytes, blobs[z].bytes);
      BytesTotal(blobs[x].bytes, blobs[z].bytes);
      if BytesLess(blobs[x].bytes, blobs[y].bytes) && BytesLess(blobs[y].bytes, blobs[z].bytes) {
        BytesTransitive(blobs[x].bytes, blobs[y].bytes, blobs[z].bytes);
        if blobs[x].bytes == blobs[z].bytes {
          BytesTotal(blobs[y].bytes, blobs[x].bytes);
        }
      }
    }
  }

  ghost function StoredOf(blobs: seq<Blob>, order: seq<nat>): seq<nat> {
    seq(|order|, k requires 0 <= k < |order| => if order[k] < |blobs| then blobs[order[k]].stored else 0)
  }

  // ---------------------------------------------------------------- geometry

  ghost predicate Apart(a: Extent, b: Extent) {
    a.offset + a.size <= b.offset || b.offset + b.size <= a.offset
  }

  ghost predicate AllApart(xs: seq<Extent>) {
    forall i: nat, j: nat :: i < j < |xs| ==> Apart(xs[i], xs[j])
  }

  function Total(xs: seq<Extent>): nat {
    if xs == [] then 0 else Total(xs[..|xs| - 1]) + xs[|xs| - 1].size
  }

  predicate InOnePage(x: Extent) {
    x.offset % PAGE + x.size <= PAGE
  }

  predicate HoleOk(h: Extent) {
    0 < h.size < PAGE && h.offset % 4 == 0 && h.size % 4 == 0 && InOnePage(h)
  }

  predicate BlobOk(b: Extent) {
    && b.size > 0 && b.size % 4 == 0 && b.offset % 4 == 0
    && (if b.size >= PAGE then b.offset % PAGE == 0 else InOnePage(b))
  }

  ghost predicate NoneMeets(xs: seq<Extent>, y: Extent) {
    forall i: nat :: i < |xs| ==> Apart(xs[i], y)
  }

  ghost predicate Across(xs: seq<Extent>, ys: seq<Extent>) {
    forall i: nat, j: nat {:trigger xs[i], ys[j]} :: i < |xs| && j < |ys| ==> Apart(xs[i], ys[j])
  }

  ghost predicate Separate(placed: seq<Extent>, holes: seq<Extent>) {
    AllApart(placed) && AllApart(holes) && Across(placed, holes)
  }

  ghost predicate HoleIn(h: Extent, tail: nat) {
    HoleOk(h) && h.offset + h.size <= tail
  }

  ghost predicate BlobIn(b: Extent, tail: nat) {
    BlobOk(b) && b.offset + b.size <= tail
  }

  ghost predicate HolesIn(holes: seq<Extent>, tail: nat) {
    forall i: nat {:trigger holes[i]} :: i < |holes| ==> HoleIn(holes[i], tail)
  }

  ghost predicate BlobsIn(placed: seq<Extent>, tail: nat) {
    forall k: nat {:trigger placed[k]} :: k < |placed| ==> BlobIn(placed[k], tail)
  }

  ghost predicate Accounts(placed: seq<Extent>, holes: seq<Extent>, tail: nat) {
    Total(placed) + Total(holes) == tail && tail % 4 == 0 && tail <= 2 * Total(placed)
  }

  /** Blobs and holes tile the part exactly up to the tail, each in its proper place. */
  ghost predicate Tiled(placed: seq<Extent>, holes: seq<Extent>, tail: nat) {
    Separate(placed, holes) && BlobsIn(placed, tail) && HolesIn(holes, tail) && Accounts(placed, holes, tail)
  }

  lemma {:induction false} TotalRemove(xs: seq<Extent>, i: nat)
    requires i < |xs|
    ensures Total(xs[..i] + xs[i + 1..]) + xs[i].size == Total(xs)
  {
    var last := |xs| - 1;
    if i < last {
      TotalRemove(xs[..last], i);
      var rest := xs[..i] + xs[i + 1..];
      assert rest[..|rest| - 1] == xs[..last][..i] + xs[..last][i + 1..];
    } else {
      assert xs[..i] + xs[i + 1..] == xs[..last];
    }
  }

  lemma {:induction false} TotalUpdate(xs: seq<Extent>, i: nat, x: Extent)
    requires i < |xs|
    ensures Total(xs[i := x]) + xs[i].size == Total(xs) + x.size
  {
    var last := |xs| - 1;
    if i < last {
      TotalUpdate(xs[..last], i, x);
      assert xs[i := x][..last] == xs[..last][i := x];
    } else {
      assert xs[i := x][..last] == xs[..last];
    }
  }

  lemma WithinApart(a: Extent, b: Extent, c: Extent)
    requires Apart(a, b) && b.offset <= c.offset && c.offset + c.size <= b.offset + b.size && c.size > 0
    ensures Apart(a, c)
  {
  }

  /** What lies inside a hole is clear of everything the hole is clear of. */
  lemma InsideClear(placed: seq<Extent>, holes: seq<Extent>, i: nat, part: Extent)
    requires AllApart(holes) && Across(placed, holes) && i < |holes| && part.size > 0
    requires holes[i].offset <= part.offset && part.offset + part.size <= holes[i].offset + holes[i].size
    ensures NoneMeets(placed, part)
    ensures forall j: nat :: j < |holes| && j != i ==> Apart(holes[j], part) && Apart(part, holes[j])
  {
    forall k: nat | k < |placed|
      ensures Apart(placed[k], part)
    {
      assert Apart(placed[k], holes[i]);
      WithinApart(placed[k], holes[i], part);
    }
    forall j: nat | j < |holes| && j != i
      ensures Apart(holes[j], part) && Apart(part, holes[j])
    {
      if j < i {
        assert Apart(holes[j], holes[i]);
      } else {
        assert Apart(holes[i], holes[j]);
      }
    }
  }

  lemma TotalAppend(xs: seq<Extent>, x: Extent)
    ensures Total(xs + [x]) == Total(xs) + x.size
  {
    assert (xs + [x])[..|xs|] == xs;
  }

  function Reduced(holes: seq<Extent>, i: nat, s: nat): seq<Extent>
    requires i < |holes| && s <= holes[i].size
  {
    if s == holes[i].size then holes[..i] + holes[i + 1..]
    else holes[i := Extent(holes[i].offset + s, holes[i].size - s)]
  }

  /** The blob and what is left of the hole lie where the hole was. */
  lemma TiledInHole(placed: seq<Extent>, holes: seq<Extent>, tail: nat, i: nat, s: nat)
    requires Tiled(placed, holes, tail) && i < |holes| && 0 < s <= holes[i].size && s % 4 == 0
    ensures Tiled(placed + [Extent(holes[i].offset, s)], Reduced(holes, i, s), tail)
  {
    InHoleSeparate(placed, holes, i, s);
    InHoleHoles(holes, tail, i, s);
    assert HoleIn(holes[i], tail);
    HoleParts(holes[i], s);
    BlobsInAppend(placed, tail, Extent(holes[i].offset, s), tail);
    InHoleAccounts(placed, holes, tail, i, s);
  }

  lemma BlobsInAppend(placed: seq<Extent>, tail: nat, blob: Extent, tail': nat)
    requires BlobsIn(placed, tail) && tail <= tail' && BlobIn(blob, tail')
    ensures BlobsIn(placed + [blob], tail')
  {
  }

  lemma HolesInAppend(holes: seq<Extent>, tail: nat, hole: Extent, tail': nat)
    requires HolesIn(holes, tail) && tail <= tail' && HoleIn(hole, tail')
    ensures HolesIn(holes + [hole], tail')
  {
  }

  lemma InHoleSeparate(placed: seq<Extent>, holes: seq<Extent>, i: nat, s: nat)
    requires Separate(placed, holes) && i < |holes| && 0 < s <= holes[i].size
    ensures Separate(placed + [Extent(holes[i].offset, s)], Reduced(holes, i, s))
  {
    var blob := Extent(holes[i].offset, s);
    InsideClear(placed, holes, i, blob);
    if s == holes[i].size {
      Dropped(placed, holes, i, blob);
    } else {
      var rest := Extent(holes[i].offset + s, holes[i].size - s);
      InsideClear(placed, holes, i, rest);
      Shrunk(placed, holes, i, blob, rest);
    }
  }

  lemma InHoleHoles(holes: seq<Extent>, tail: nat, i: nat, s: nat)
    requires HolesIn(holes, tail) && i < |holes| && 0 < s <= holes[i].size && s % 4 == 0
    ensures HolesIn(Reduced(holes, i, s), tail)
  {
    assert HoleIn(holes[i], tail);
    HoleParts(holes[i], s);
    var holes' := Reduced(holes, i, s);
    forall j: nat | j < |holes'|
      ensures HoleIn(holes'[j], tail)
    {
      if s < holes[i].size && j == i {
        assert holes'[j] == Extent(holes[i].offset + s, holes[i].size - s);
      } else if s < holes[i].size || j < i {
        assert holes'[j] == holes[j];
      } else {
        assert holes'[j] == holes[j + 1];
      }
    }
  }

  lemma InHoleAccounts(placed: seq<Extent>, holes: seq<Extent>, tail: nat, i: nat, s: nat)
    requires Accounts(placed, holes, tail) && i < |holes| && s <= holes[i].size
    ensures Accounts(placed + [Extent(holes[i].offset, s)], Reduced(holes, i, s), tail)
  {
    TotalAppend(placed, Extent(holes[i].offset, s));
    if s == holes[i].size {
      TotalRemove(holes, i);
    } else {
      TotalUpdate(holes, i, Extent(holes[i].offset + s, holes[i].size - s));
    }
  }

  lemma HoleParts(hole: Extent, s: nat)
    requires HoleOk(hole) && 0 < s <= hole.size && s % 4 == 0
    ensures BlobOk(Extent(hole.offset, s))
    ensures s < hole.size ==> HoleOk(Extent(hole.offset + s, hole.size - s))
  {
    if s < hole.size {
      var q := hole.offset / PAGE;
      assert hole.offset + s == q * PAGE + (hole.offset % PAGE + s);
      DivModUnique(hole.offset + s, PAGE, q, hole.offset % PAGE + s);
    }
  }

  lemma Dropped(placed: seq<Extent>, holes: seq<Extent>, i: nat, blob: Extent)
    requires AllApart(placed) && AllApart(holes) && Across(placed, holes) && i < |holes|
    requires NoneMeets(placed, blob) && forall j: nat :: j < |holes| && j != i ==> Apart(blob, holes[j])
    ensures var holes' := holes[..i] + holes[i + 1..];
            AllApart(placed + [blob]) && AllApart(holes') && Across(placed + [blob], holes')
  {
    var holes' := holes[..i] + holes[i + 1..];
    forall j: nat | j < |holes'|
      ensures holes'[j] == holes[if j < i then j else j + 1]
    {
    }
  }

  lemma Shrunk(placed: seq<Extent>, holes: seq<Extent>, i: nat, blob: Extent, rest: Extent)
    requires AllApart(placed) && AllApart(holes) && Across(placed, holes) && i < |holes|
    requires NoneMeets(placed, blob) && NoneMeets(placed, rest) && Apart(blob, rest)
    requires forall j: nat :: j < |holes| && j != i ==>
               Apart(blob, holes[j]) && Apart(holes[j], rest) && Apart(rest, holes[j])
    ensures AllApart(placed + [blob]) && AllApart(holes[i := rest]) && Across(placed + [blob], holes[i := rest])
  {
  }

  ghost function WithGap(holes: seq<Extent>, tail: nat, s: nat): seq<Extent> {
    if Gap(tail, s, PAGE) > 0 then holes + [Extent(tail, Gap(tail, s, PAGE))] else holes
  }

  /** The blob follows the tail, with the skipped bytes as a new hole. */
  lemma TiledAtTail(placed: seq<Extent>, holes: seq<Extent>, tail: nat, s: nat)
    requires Tiled(placed, holes, tail) && s > 0 && s % 4 == 0
    ensures var gap := Gap(tail, s, PAGE);
            Tiled(placed + [Extent(tail + gap, s)], WithGap(holes, tail, s), tail + gap + s)
  {
    var gap := Gap(tail, s, PAGE);
    TailParts(tail, s);
    AtTailSeparate(placed, holes, tail, gap, s);
    BlobsInAppend(placed, tail, Extent(tail + gap, s), tail + gap + s);
    if gap > 0 {
      HolesInAppend(holes, tail, Extent(tail, gap), tail + gap + s);
      TotalAppend(holes, Extent(tail, gap));
    }
    TotalAppend(placed, Extent(tail + gap, s));
  }

  lemma AtTailSeparate(placed: seq<Extent>, holes: seq<Extent>, tail: nat, gap: nat, s: nat)
    requires Separate(placed, holes)
    requires forall k: nat :: k < |placed| ==> placed[k].offset + placed[k].size <= tail
    requires forall j: nat :: j < |holes| ==> holes[j].offset + holes[j].size <= tail
    ensures Separate(placed + [Extent(tail + gap, s)], holes)
    ensures Separate(placed + [Extent(tail + gap, s)], holes + [Extent(tail, gap)])
  {
  }

  lemma TailParts(tail: nat, s: nat)
    requires tail % 4 == 0 && s > 0 && s % 4 == 0
    ensures var gap := Gap(tail, s, PAGE);
            BlobOk(Extent(tail + gap, s)) && (gap > 0 ==>
                                                HoleOk(Extent(tail, gap)) && gap < s) && (tail + gap + s) % 4 == 0
  {
    GapValue(tail, s);
    if Gap(tail, s, PAGE) > 0 {
      PageEnd(tail);
      GapAligns(tail, Gap(tail, s, PAGE), s);
    } else {
      NoGapFits(tail, s);
    }
  }

  lemma GapValue(tail: nat, s: nat)
    requires s > 0
    ensures var gap := Gap(tail, s, PAGE);
            if gap > 0 then gap == PAGE - tail % PAGE && gap < s && gap < PAGE
            else if s >= PAGE then tail % PAGE == 0 else tail % PAGE + s <= PAGE
  {
  }

  lemma NoGapFits(tail: nat, s: nat)
    requires tail % 4 == 0 && s > 0 && s % 4 == 0
    requires if s >= PAGE then tail % PAGE == 0 else tail % PAGE + s <= PAGE
    ensures BlobOk(Extent(tail, s)) && (tail + s) % 4 == 0
  {
  }

  lemma GapAligns(tail: nat, gap: nat, s: nat)
    requires tail % 4 == 0 && s > 0 && s % 4 == 0 && gap % 4 == 0 && 0 < gap < s && gap < PAGE
    requires (tail + gap) % PAGE == 0 && tail % PAGE + gap == PAGE
    ensures BlobOk(Extent(tail + gap, s)) && HoleOk(Extent(tail, gap)) && (tail + gap + s) % 4 == 0
  {
    SumOfFours(tail, gap);
    SumOfFours(tail + gap, s);
  }

  lemma PageEnd(tail: nat)
    requires tail % 4 == 0
    ensures (PAGE - tail % PAGE) % 4 == 0 && (tail + (PAGE - tail % PAGE)) % PAGE == 0
  {
    var q, r := tail / PAGE, tail % PAGE;
    assert tail == q * PAGE + r && PAGE == 4 * 1024;
    assert tail + (PAGE - r) == (q + 1) * PAGE + 0;
    DivModUnique(tail + (PAGE - r), PAGE, q + 1, 0);
  }

  // ---------------------------------------------------------------- the builder

  /** Round up to a page; fail when the result does not fit in 32 bits. */
  method CheckedAlignUp(value: nat) returns (r: Result<nat>)
    ensures r.Ok? ==> value <= r.value < value + PAGE && r.value % PAGE == 0 && r.value <= MAX32
    ensures r.Err? <==> (value + PAGE - 1) / PAGE * PAGE > MAX32
    ensures r.Ok? ==> r.value == value + (if value % PAGE == 0 then 0 else PAGE - value % PAGE)
  {
    var aligned := (value + PAGE - 1) / PAGE * PAGE;
    if aligned > MAX32 {
      return Err("exceeds uint32_t after alignment");
    }
    r := Ok(aligned);
  }

  /** The 32-bit straddle test of the builder agrees with the exact one although it may wrap. */
  lemma StraddleTest(tail: nat, s: nat)
    requires tail <= MAX32 && 0 < s < PAGE
    ensures tail / PAGE != ((tail + s - 1) % U32) / PAGE <==> tail % PAGE + s > PAGE
  {
    var q, r := tail / PAGE, tail % PAGE;
    assert tail == q * PAGE + r;
    var e := tail + s - 1;
    if r + s <= PAGE {
      DivModUnique(e, PAGE, q, r + s - 1);
      assert q <= MAX32 / PAGE;
    } else {
      DivModUnique(e, PAGE, q + 1, r + s - 1 - PAGE);
    }
  }

  /** Shrink the chosen hole from the front, dropping it when nothing is left. */
  method UseHole(holes: seq<Extent>, best: nat, s: nat) returns (relative: nat, holes': seq<Extent>)
    requires best < |holes| && 0 < s <= holes[best].size
    ensures relative == holes[best].offset && holes' == Reduced(holes, best, s)
    ensures multiset(HoleSizes(holes')) ==
            multiset(HoleSizes(holes)) - multiset{holes[best].size} + Piece(holes[best].size - s)
  {
    relative := holes[best].offset;
    var rest := Extent(holes[best].offset + s, holes[best].size - s);
    if rest.size == 0 {
      HoleSizesRemove(holes, best);
      holes' := holes[..best] + holes[best + 1..];
    } else {
      HoleSizesUpdate(holes, best, rest);
      holes' := holes[best := rest];
    }
  }

  /** Append at the tail in checked 32-bit arithmetic. */
  method AppendBlob(holes: seq<Extent>, tail: nat, s: nat) returns (r: Result<nat>, holes': seq<Extent>, tail': nat)
    requires tail <= MAX32 && 0 < s <= MAX32
    ensures r.Ok? <==> tail + Gap(tail, s, PAGE) + s <= MAX32
    ensures r.Ok? ==> r.value == tail + Gap(tail, s, PAGE) && tail' == tail + Gap(tail, s, PAGE) + s
    ensures r.Ok? ==> holes' == WithGap(holes, tail, s)
  {
    holes', tail' := holes, tail;
    if s >= PAGE {
      var aligned := CheckedAlignUp(tail);
      if aligned.Err? {
        return aligned, holes', tail';
      }
      if aligned.value > tail {
        holes' := holes + [Extent(tail, aligned.value - tail)];
      }
      tail' := aligned.value;
    } else {
      StraddleTest(tail, s);
      if tail / PAGE != ((tail + s - 1) % U32) / PAGE {
        var aligned := CheckedAlignUp(tail);
        if aligned.Err? {
          return aligned, holes', tail';
        }
        holes' := holes + [Extent(tail, aligned.value - tail)];
        tail' := aligned.value;
      }
    }
    var relative := tail';
    if tail' + s > MAX32 {
      return Err("content part exceeds uint32_t"), holes', tail';
    }
    tail' := tail' + s;
    r := Ok(relative);
  }

  /** Where packing these blobs ends, counted from the start of their part. */
  ghost function IdealTail(blobs: seq<Blob>, members: seq<nat>): nat {
    Run(StoredOf(blobs, Sort(PackOrder(blobs), members)), PAGE).tail
  }

  /** Where the first `count` blobs of the order have gone, relative to the part's start. */
  ghost predicate Recorded(placed: seq<Extent>, order: seq<nat>, blobs: seq<Blob>, imageOff: seq<nat>, partStart: nat) {
    |placed| <= |order| && |imageOff| == |blobs| &&
    forall k: nat :: k < |placed| ==>
      && order[k] < |blobs| && placed[k].size == blobs[order[k]].stored
      && imageOff[order[k]] == partStart + placed[k].offset
  }

  /** A part's blobs, as the reader will look at them. */
  ghost predicate PartPacked(blobs: seq<Blob>, members: seq<nat>, imageOff: seq<nat>, partStart: nat, tail: nat) {
    && |imageOff| == |blobs|
    && (forall x: nat {:trigger InPart(blobs, imageOff, partStart, tail, x)} :: x in members ==>
          InPart(blobs, imageOff, partStart, tail, x))
    && (forall x: nat, y: nat {:trigger KeptApart(blobs, imageOff, x, y)} :: x in members && y in members && x != y ==>
          KeptApart(blobs, imageOff, x, y))
  }

  predicate InPart(blobs: seq<Blob>, imageOff: seq<nat>, partStart: nat, tail: nat, x: nat) {
    x < |blobs| && x < |imageOff| && BlobOk(Extent(imageOff[x], blobs[x].stored))
    && partStart <= imageOff[x] && imageOff[x] + blobs[x].stored <= partStart + tail
  }

  ghost predicate KeptApart(blobs: seq<Blob>, imageOff: seq<nat>, x: nat, y: nat) {
    x < |blobs| && x < |imageOff| && y < |blobs| && y < |imageOff|
    && Apart(Extent(imageOff[x], blobs[x].stored), Extent(imageOff[y], blobs[y].stored))
  }

  lemma HoleSizesAppend(holes: seq<Extent>, tail: nat, s: nat)
    ensures multiset(HoleSizes(WithGap(holes, tail, s))) == multiset(HoleSizes(holes)) + Piece(Gap(tail, s, PAGE))
  {
    var gap := Gap(tail, s, PAGE);
    if gap > 0 {
      HoleSizesInsert(holes, |holes|, Extent(tail, gap));
      assert holes[..|holes|] + [Extent(tail, gap)] + holes[|holes|..] == holes + [Extent(tail, gap)];
    }
  }

  /** Where a blob of s bytes goes, and what is left: into the hole at index `best`, or at the tail. */
  ghost predicate Placement(free: seq<Extent>, tail: nat, s: nat, best: nat,
                            relative: nat, free': seq<Extent>, tail': nat)
  {
    if best < |free| then
      s <= free[best].size && relative == free[best].offset && free' == Reduced(free, best, s) && tail' == tail
    else
      relative == tail + Gap(tail, s, PAGE) && free' == WithGap(free, tail, s) && tail' == tail + Gap(tail, s, PAGE) + s
  }

  /** The hole at `best` is the one to use, or none fits; closed (see `Key`). */
  ghost predicate Picked(free: seq<Extent>, s: nat, best: nat) {
    forall k: nat {:trigger Key(k)} :: Key(k) && k == 4 ==>
      && Chosen(multiset(HoleSizes(free)), s, SizeAt(free, best))
      && if best < |free| then BestFit(free, s, best) else forall i: nat :: i < |free| ==> free[i].size < s
  }

  /** The blob is placed so, within 32 bits; closed as well. */
  ghost predicate Put(free: seq<Extent>, tail: nat, s: nat, best: nat, at: nat, free': seq<Extent>, tail': nat) {
    tail' <= MAX32 && Picked(free, s, best) && forall k: nat {:trigger Key(k)} :: Key(k) && k == 4 ==>
      Placement(free, tail, s, best, at, free', tail')
  }

  /** There is no room for it. */
  ghost predicate Full(free: seq<Extent>, tail: nat, s: nat, best: nat) {
    Picked(free, s, best) && best >= |free| && tail + Gap(tail, s, PAGE) + s > MAX32
  }

  /** Place one blob: best hole, else the tail; fail when the tail would leave 32 bits. */
  method PackOne(free: seq<Extent>, tail: nat, s: nat)
    returns (r: Result<nat>, free': seq<Extent>, tail': nat, ghost best: nat)
    requires tail <= MAX32 && 0 < s <= MAX32
    ensures if r.Ok? then Put(free, tail, s, best, r.value, free', tail') else Full(free, tail, s, best)
  {
    var it := BestHole(free, s);
    best := it;
    if it < |free| {
      tail' := tail;
      var relative;
      relative, free' := UseHole(free, it, s);
      r := Ok(relative);
    } else {
      r, free', tail' := AppendBlob(free, tail, s);
    }
  }

  /** A placement is a step of the ideal run. */
  lemma PlacementSteps(free: seq<Extent>, tail: nat, s: nat, best: nat, relative: nat, free': seq<Extent>, tail': nat)
    requires Placement(free, tail, s, best, relative, free', tail')
    requires Chosen(multiset(HoleSizes(free)), s, SizeAt(free, best))
    ensures State(tail', multiset(HoleSizes(free'))) == Step(State(tail, multiset(HoleSizes(free))), s, PAGE)
  {
    var st := State(tail, multiset(HoleSizes(free)));
    StepUses(st, s, PAGE, SizeAt(free, best));
    PlacementUses(free, tail, s, best, relative, free', tail');
  }

  lemma PlacementUses(free: seq<Extent>, tail: nat, s: nat, best: nat, relative: nat, free': seq<Extent>, tail': nat)
    requires Placement(free, tail, s, best, relative, free', tail')
    ensures State(tail', multiset(HoleSizes(free'))) ==
            Using(State(tail, multiset(HoleSizes(free))), s, PAGE, SizeAt(free, best))
  {
    if best < |free| {
      ReducedSizes(free, best, s);
    } else {
      HoleSizesAppend(free, tail, s);
    }
  }

  lemma ReducedSizes(holes: seq<Extent>, i: nat, s: nat)
    requires i < |holes| && s <= holes[i].size
    ensures multiset(HoleSizes(Reduced(holes, i, s))) ==
            multiset(HoleSizes(holes)) - multiset{holes[i].size} + Piece(holes[i].size - s)
  {
    if s == holes[i].size {
      HoleSizesRemove(holes, i);
    } else {
      HoleSizesUpdate(holes, i, Extent(holes[i].offset + s, holes[i].size - s));
    }
  }

  /** A placement keeps the part tiled. */
  lemma PlacementTiles(placed: seq<Extent>, free: seq<Extent>, tail: nat, s: nat, best: nat,
                       relative: nat, free': seq<Extent>, tail': nat)
    requires Placement(free, tail, s, best, relative, free', tail') && Tiled(placed, free, tail) && s > 0 && s % 4 == 0
    ensures Tiled(placed + [Extent(relative, s)], free', tail')
  {
    if best < |free| {
      TiledInHole(placed, free, tail, best, s);
    } else {
      TiledAtTail(placed, free, tail, s);
    }
  }

  /** Everything the packing loop keeps after k blobs of the order. */
  ghost predicate Packing(blobs: seq<Blob>, order: seq<nat>, k: nat, placed: seq<Extent>, free: seq<Extent>,
                          tail: nat) {
    && k <= |order| && |placed| == k && tail <= MAX32 && Tiled(placed, free, tail)
    && State(tail, multiset(HoleSizes(free))) == Run(StoredOf(blobs, order)[..k], PAGE)
    && Total(placed) == Loads.Sum(StoredOf(blobs, order)[..k])
  }

  lemma PackingStep(blobs: seq<Blob>, order: seq<nat>, k: nat, placed: seq<Extent>, free: seq<Extent>, tail: nat,
                    s: nat, best: nat, relative: nat, free': seq<Extent>, tail': nat)
    requires Packing(blobs, order, k, placed, free, tail) && k < |order| && s == StoredOf(blobs, order)[k]
    requires s > 0 && s % 4 == 0 && tail' <= MAX32
    requires Placement(free, tail, s, best, relative, free', tail')
    requires Chosen(multiset(HoleSizes(free)), s, SizeAt(free, best))
    ensures Packing(blobs, order, k + 1, placed + [Extent(relative, s)], free', tail')
    ensures tail' <= Run(StoredOf(blobs, order), PAGE).tail
  {
    var sizes := StoredOf(blobs, order);
    PlacementSteps(free, tail, s, best, relative, free', tail');
    PlacementTiles(placed, free, tail, s, best, relative, free', tail');
    RunStep(sizes, k, PAGE);
    RunGrows(sizes, k + 1, PAGE);
    TotalAppend(placed, Extent(relative, s));
    assert sizes[..k + 1][..k] == sizes[..k];
  }

  /** When appending fails the ideal run is too long. */
  lemma PackingFails(blobs: seq<Blob>, order: seq<nat>, k: nat, placed: seq<Extent>, free: seq<Extent>, tail: nat,
                     s: nat, best: nat)
    requires Packing(blobs, order, k, placed, free, tail) && k < |order| && s == StoredOf(blobs, order)[k]
    requires Chosen(multiset(HoleSizes(free)), s, SizeAt(free, best)) && best >= |free|
    requires tail + Gap(tail, s, PAGE) + s > MAX32
    ensures Run(StoredOf(blobs, order), PAGE).tail > MAX32
  {
    var sizes := StoredOf(blobs, order);
    RunStep(sizes, k, PAGE);
    RunGrows(sizes, k + 1, PAGE);
    StepUses(State(tail, multiset(HoleSizes(free))), s, PAGE, None);
  }

  // ---------------------------------------------------------------- the run, step by step

  /** Where s bytes go behind the tail: right there unless that would start a large blob inside a page, or have a
      small one cross into the next. */
  function Behind(tail: nat, s: nat): nat {
    if (if s < 4096 then tail % 4096 + s <= 4096 else tail % 4096 == 0) then tail else (tail / 4096 + 1) * 4096
  }

  /** The blob went into the best fitting hole, from its front, or behind the tail when none fits. */
  ghost predicate Went(free: seq<Extent>, tail: nat, s: nat, at: nat, free': seq<Extent>, tail': nat) {
    if forall j: nat {:trigger free[j]} :: j < |free| ==> free[j].size < s then
      && at == Behind(tail, s) && tail' == at + s
      && free' == if at > tail then free + [Extent(tail, at - tail)] else free
    else
      exists i: nat {:trigger BestFit(free, s, i)} ::
        && BestFit(free, s, i) && at == free[i].offset && tail' == tail
        && free' == if free[i].size == s then free[..i] + free[i + 1..]
                    else free[i := Extent(free[i].offset + s, free[i].size - s)]
  }

  lemma PlacementWent(free: seq<Extent>, tail: nat, s: nat, best: nat, at: nat, free': seq<Extent>, tail': nat)
    requires Placement(free, tail, s, best, at, free', tail')
    requires if best < |free| then BestFit(free, s, best) else forall i: nat :: i < |free| ==> free[i].size < s
    ensures Went(free, tail, s, at, free', tail')
  {
    if best >= |free| {
      NextPage(tail);
    }
  }

  lemma NextPage(tail: nat)
    ensures tail + (PAGE - tail % PAGE) == (tail / PAGE + 1) * PAGE
  {
  }

  /** Holes and tail before each of the first k blobs of the order, and after them. */
  ghost predicate Trace(blobs: seq<Blob>, order: seq<nat>, k: nat, partStart: nat, imageOff: seq<nat>,
                        frees: seq<seq<Extent>>, tails: seq<nat>) {
    && k <= |order| && |imageOff| == |blobs| && |frees| == |tails| == k + 1 && frees[0] == [] && tails[0] == 0
    && forall j: nat {:trigger order[j]} :: j < k ==>
         order[j] < |blobs| && partStart <= imageOff[order[j]] &&
         Went(frees[j], tails[j], blobs[order[j]].stored, imageOff[order[j]] - partStart, frees[j + 1], tails[j + 1])
  }

  /** Closed (see `Key`). */
  ghost predicate Traced(blobs: seq<Blob>, order: seq<nat>, k: nat, partStart: nat, imageOff: seq<nat>,
                         frees: seq<seq<Extent>>, tails: seq<nat>, free: seq<Extent>, tail: nat) {
    |frees| == |tails| == k + 1 && frees[k] == free && tails[k] == tail && forall n: nat {:trigger Key(n)} :: Key(n) ==>
      Trace(blobs, order, k, partStart, imageOff, frees, tails)
  }

  lemma TraceStep(blobs: seq<Blob>, order: seq<nat>, k: nat, partStart: nat, imageOff: seq<nat>,
                  frees: seq<seq<Extent>>, tails: seq<nat>, free: seq<Extent>, tail: nat, at: nat,
                  free': seq<Extent>, tail': nat)
    requires Traced(blobs, order, k, partStart, imageOff, frees, tails, free, tail) && k < |order| && Distinct(order)
    requires order[k] < |blobs| && Went(free, tail, blobs[order[k]].stored, at, free', tail') && |imageOff| == |blobs|
    ensures Traced(blobs, order, k + 1, partStart, imageOff[order[k] := partStart + at],
                   frees + [free'], tails + [tail'], free', tail')
  {
    assert Key(0);
  }

  /** x is packed before y: it is larger, or by its digest, its bytes, its kind, and its number. */
  ghost predicate Precedes(blobs: seq<Blob>, x: nat, y: nat) {
    x < |blobs| && y < |blobs| &&
    var a, b := blobs[x], blobs[y];
    || a.stored > b.stored
    || (a.stored == b.stored && a.digest < b.digest)
    || (a.stored == b.stored && a.digest == b.digest && exists n: nat :: SmallerAt(a.bytes, b.bytes, n))
    || (a.stored == b.stored && a.digest == b.digest && a.bytes == b.bytes && a.domain < b.domain)
    || (a.stored == b.stored && a.digest == b.digest && a.bytes == b.bytes && a.domain == b.domain && x < y)
  }

  ghost predicate InOrder(blobs: seq<Blob>, members: seq<nat>, order: seq<nat>) {
    && multiset(order) == multiset(members)
    && forall j: nat, k: nat {:trigger order[j], order[k]} :: j < k < |order| ==> Precedes(blobs, order[j], order[k])
  }

  lemma SortedPrecedes(blobs: seq<Blob>, members: seq<nat>, order: seq<nat>)
    requires order == Sort(PackOrder(blobs), members) && Distinct(order)
    requires forall k: nat {:trigger order[k]} :: k < |order| ==> order[k] < |blobs|
    ensures InOrder(blobs, members, order)
  {
    PackOrderTotal(blobs);
    SortSorted(PackOrder(blobs), members);
    forall j: nat, k: nat | j < k < |order|
      ensures Precedes(blobs, order[j], order[k])
    {
      assert PackOrder(blobs)(order[j], order[k]);
      LessMeans(blobs[order[j]].bytes, blobs[order[k]].bytes);
    }
  }

  /** The blobs went one after the other, in order, from an empty part. */
  ghost predicate PackedSo(blobs: seq<Blob>, members: seq<nat>, partStart: nat, imageOff: seq<nat>, tail: nat) {
    exists order: seq<nat>, frees: seq<seq<Extent>>, tails: seq<nat>
      {:trigger Trace(blobs, order, |order|, partStart, imageOff, frees, tails)} ::
      && InOrder(blobs, members, order) && Trace(blobs, order, |order|, partStart, imageOff, frees, tails)
      && tails[|order|] == tail
  }

  /** That does not depend on where other blobs are. */
  lemma PackedKept(blobs: seq<Blob>, members: seq<nat>, partStart: nat, first: seq<nat>, imageOff: seq<nat>, tail: nat)
    requires PackedSo(blobs, members, partStart, first, tail) && |first| == |imageOff| == |blobs|
    requires forall x: nat :: x in members ==> x < |blobs| && imageOff[x] == first[x]
    ensures PackedSo(blobs, members, partStart, imageOff, tail)
  {
    var order: seq<nat>, frees: seq<seq<Extent>>, tails: seq<nat> :|
      && InOrder(blobs, members, order) && Trace(blobs, order, |order|, partStart, first, frees, tails)
      && tails[|order|] == tail;
    SameElements(order, members);
    TraceKept(blobs, order, partStart, first, imageOff, frees, tails);
  }

  lemma TraceKept(blobs: seq<Blob>, order: seq<nat>, partStart: nat, first: seq<nat>, imageOff: seq<nat>,
                  frees: seq<seq<Extent>>, tails: seq<nat>)
    requires Trace(blobs, order, |order|, partStart, first, frees, tails) && |first| == |imageOff| == |blobs|
    requires forall x: nat :: x in order ==> x < |blobs| && imageOff[x] == first[x]
    ensures Trace(blobs, order, |order|, partStart, imageOff, frees, tails)
  {
    forall j: nat | j < |order|
      ensures imageOff[order[j]] == first[order[j]]
    {
      assert order[j] in order;
    }
  }

  /** The loop over the sorted blobs. */
  method PackInOrder(blobs: seq<Blob>, order: seq<nat>, partStart: nat, imageOff: array<nat>)
    returns (r: Result<nat>, ghost placed: seq<Extent>, ghost holes: seq<Extent>, ghost frees: seq<seq<Extent>>,
             ghost tails: seq<nat>)
    requires imageOff.Length == |blobs| && Distinct(order)
    requires forall k: nat {:trigger order[k]} :: k < |order| ==> order[k] < |blobs| && Storable(blobs[order[k]])
    modifies imageOff
    ensures r.Ok? ==> Midway(blobs, order, |order|, partStart, imageOff[..], placed, frees, tails, holes, r.value)
    ensures r.Err? ==> partStart + Run(StoredOf(blobs, order), PAGE).tail > MAX32
    ensures forall x: nat :: x < |blobs| && x !in order ==> imageOff[x] == old(imageOff[x])
  {
    var free: seq<Extent> := [];
    var tail: nat := 0;
    placed, holes, frees, tails := [], [], [[]], [0];
    ghost var ideal := Begin(blobs, order, partStart, imageOff[..]);
    ghost var offs: seq<nat> := imageOff[..];
    for k := 0 to |order|
      invariant Midway(blobs, order, k, partStart, offs, placed, frees, tails, free, tail) && imageOff[..] == offs
      invariant forall x: nat :: x < |blobs| && x !in order ==> imageOff[x] == old(imageOff[x])
    {
      var at;
      ghost var next: seq<nat>;
      at, free, tail, placed, frees, tails, next :=
        PackNext(blobs, order, k, partStart, offs, free, tail, placed, frees, tails, ideal);
      if at.Err? {
        return at, placed, holes, frees, tails;
      }
      if partStart + at.value > MAX32 {
        return Err("content offset exceeds uint32_t"), placed, holes, frees, tails;
      }
      var absolute: nat := partStart + at.value;
      imageOff[order[k]] := absolute;
      assert imageOff[..] == offs[order[k] := absolute];
      offs := next;
    }
    holes := free;
    r := Ok(tail);
  }

  lemma Begin(blobs: seq<Blob>, order: seq<nat>, partStart: nat, imageOff: seq<nat>) returns (ideal: nat)
    requires |imageOff| == |blobs|
    ensures Midway(blobs, order, 0, partStart, imageOff, [], [[]], [0], [], 0)
    ensures EndsAt(blobs, order, ideal) && ideal == Run(StoredOf(blobs, order), PAGE).tail
  {
    ideal := Run(StoredOf(blobs, order), PAGE).tail;
    var none: seq<Extent> := [];
    assert multiset(HoleSizes(none)) == multiset{};
  }

  lemma Finish(blobs: seq<Blob>, order: seq<nat>, partStart: nat, imageOff: seq<nat>, placed: seq<Extent>,
               frees: seq<seq<Extent>>, tails: seq<nat>, free: seq<Extent>, tail: nat)
    requires Midway(blobs, order, |order|, partStart, imageOff, placed, frees, tails, free, tail)
    ensures Packing(blobs, order, |order|, placed, free, tail) && Recorded(placed, order, blobs, imageOff, partStart)
    ensures Traced(blobs, order, |order|, partStart, imageOff, frees, tails, free, tail)
  {
    assert Key(0);
  }

  /** What the loop keeps after k blobs; closed (see `Key`). */
  ghost predicate Midway(blobs: seq<Blob>, order: seq<nat>, k: nat, partStart: nat, imageOff: seq<nat>,
                         placed: seq<Extent>, frees: seq<seq<Extent>>, tails: seq<nat>, free: seq<Extent>, tail: nat) {
    tail <= MAX32 && forall n: nat {:trigger Key(n)} :: Key(n) ==>
      && Packing(blobs, order, k, placed, free, tail) && Recorded(placed, order, blobs, imageOff, partStart)
      && Traced(blobs, order, k, partStart, imageOff, frees, tails, free, tail)
  }

  /** Where the whole run ends; closed (see `Key`). */
  ghost predicate EndsAt(blobs: seq<Blob>, order: seq<nat>, ideal: nat) {
    forall k: nat {:trigger Key(k)} :: Key(k) && k == 4 ==> ideal == Run(StoredOf(blobs, order), PAGE).tail
  }

  /** Place the next blob. */
  method PackNext(blobs: seq<Blob>, order: seq<nat>, k: nat, partStart: nat, ghost imageOff: seq<nat>,
                  was: seq<Extent>, wasTail: nat, ghost before: seq<Extent>, ghost oldFrees: seq<seq<Extent>>,
                  ghost oldTails: seq<nat>, ghost ideal: nat)
    returns (r: Result<nat>, free: seq<Extent>, tail: nat, ghost placed: seq<Extent>, ghost frees: seq<seq<Extent>>,
             ghost tails: seq<nat>, ghost next: seq<nat>)
    requires |imageOff| == |blobs| && Distinct(order) && k < |order|
    requires order[k] < |blobs| && Storable(blobs[order[k]])
    requires Midway(blobs, order, k, partStart, imageOff, before, oldFrees, oldTails, was, wasTail)
    requires EndsAt(blobs, order, ideal)
    ensures r.Ok? ==> Midway(blobs, order, k + 1, partStart, next, placed, frees, tails, free, tail)
    ensures r.Ok? ==> next == imageOff[order[k] := partStart + r.value]
    ensures if r.Ok? then r.value <= ideal else ideal > MAX32
  {
    StoredPositive(blobs[order[k]]);
    var s := blobs[order[k]].stored;
    ghost var best;
    placed, frees, tails, next := before, oldFrees, oldTails, imageOff;
    r, free, tail, best := PackOne(was, wasTail, s);
    if r.Err? {
      Overflows(blobs, order, k, partStart, imageOff, before, frees, tails, was, wasTail, best, ideal);
      return r, free, tail, placed, frees, tails, next;
    }
    placed, frees, tails := before + [Extent(r.value, s)], frees + [free], tails + [tail];
    next := imageOff[order[k] := partStart + r.value];
    Advance(blobs, order, k, partStart, imageOff, before, oldFrees, oldTails, was, wasTail, best, r.value, free, tail,
            ideal, next, placed, frees, tails);
  }

  lemma Overflows(blobs: seq<Blob>, order: seq<nat>, k: nat, partStart: nat, imageOff: seq<nat>, placed: seq<Extent>,
                  frees: seq<seq<Extent>>, tails: seq<nat>, free: seq<Extent>, tail: nat, best: nat, ideal: nat)
    requires Midway(blobs, order, k, partStart, imageOff, placed, frees, tails, free, tail)
    requires k < |order| && order[k] < |blobs| && Full(free, tail, blobs[order[k]].stored, best)
    requires EndsAt(blobs, order, ideal)
    ensures ideal > MAX32
  {
    assert Key(4);
    PackingFails(blobs, order, k, placed, free, tail, blobs[order[k]].stored, best);
  }

  lemma Advance(blobs: seq<Blob>, order: seq<nat>, k: nat, partStart: nat, imageOff: seq<nat>, placed: seq<Extent>,
                frees: seq<seq<Extent>>, tails: seq<nat>, free: seq<Extent>, tail: nat, best: nat, at: nat,
                free': seq<Extent>, tail': nat, ideal: nat, imageOff': seq<nat>, placed': seq<Extent>,
                frees': seq<seq<Extent>>, tails': seq<nat>)
    requires EndsAt(blobs, order, ideal)
    requires Midway(blobs, order, k, partStart, imageOff, placed, frees, tails, free, tail) && Distinct(order)
    requires k < |order| && order[k] < |blobs| == |imageOff| && Storable(blobs[order[k]])
    requires Put(free, tail, blobs[order[k]].stored, best, at, free', tail')
    requires imageOff' == imageOff[order[k] := partStart + at]
    requires placed' == placed + [Extent(at, blobs[order[k]].stored)]
    requires frees' == frees + [free'] && tails' == tails + [tail']
    ensures Midway(blobs, order, k + 1, partStart, imageOff', placed', frees', tails', free', tail') && at <= ideal
  {
    assert Key(4);
    var s := blobs[order[k]].stored;
    StoredPositive(blobs[order[k]]);
    assert Recorded(placed, order, blobs, imageOff, partStart) && |placed| == k;
    RecordedStep(placed, order, blobs, imageOff, partStart, at);
    PlacementWent(free, tail, s, best, at, free', tail');
    TraceStep(blobs, order, k, partStart, imageOff, frees, tails, free, tail, at, free', tail');
    PackingStep(blobs, order, k, placed, free, tail, s, best, at, free', tail');
    assert Packing(blobs, order, k + 1, placed + [Extent(at, s)], free', tail');
    assert BlobIn((placed + [Extent(at, s)])[k], tail');
  }

  lemma StoredPositive(b: Blob)
    requires Storable(b)
    ensures b.stored >= 4 && b.stored % 4 == 0
  {
  }

  lemma RecordedStep(placed: seq<Extent>, order: seq<nat>, blobs: seq<Blob>, imageOff: seq<nat>, partStart: nat,
                     at: nat)
    requires Recorded(placed, order, blobs, imageOff, partStart) && |placed| < |order| && Distinct(order)
    requires order[|placed|] < |blobs|
    ensures var index := order[|placed|];
            Recorded(placed + [Extent(at, blobs[index].stored)], order, blobs, imageOff[index := partStart + at],
                     partStart)
  {
  }

  lemma RecordedPacked(placed: seq<Extent>, holes: seq<Extent>, tail: nat, order: seq<nat>, members: seq<nat>,
                       blobs: seq<Blob>, imageOff: seq<nat>, partStart: nat)
    requires Recorded(placed, order, blobs, imageOff, partStart) && |placed| == |order|
    requires Tiled(placed, holes, tail) && partStart % PAGE == 0 && multiset(order) == multiset(members)
    ensures PartPacked(blobs, members, imageOff, partStart, tail)
  {
    SameElements(order, members);
    forall x: nat | x in members
      ensures InPart(blobs, imageOff, partStart, tail, x)
    {
      var i: nat :| i < |order| && order[i] == x;
      assert BlobIn(placed[i], tail);
      Shifted(placed[i], partStart);
    }
    forall x: nat, y: nat | x in members && y in members && x != y
      ensures KeptApart(blobs, imageOff, x, y)
    {
      var i: nat :| i < |order| && order[i] == x;
      var j: nat :| j < |order| && order[j] == y;
      if i < j {
        assert Apart(placed[i], placed[j]);
      } else {
        assert Apart(placed[j], placed[i]);
      }
    }
  }

  /** Moving a blob by whole pages changes nothing about its place in them. */
  lemma Shifted(b: Extent, start: nat)
    requires BlobOk(b) && start % PAGE == 0
    ensures BlobOk(Extent(start + b.offset, b.size))
  {
    AddMultiple(b.offset, start / PAGE, PAGE);
    assert b.offset + start / PAGE * PAGE == start + b.offset;
    DividesTrans(4, PAGE, start);
    SumOfFours(start, b.offset);
  }

  lemma SumOfFours(a: nat, b: nat)
    requires a % 4 == 0 && b % 4 == 0
    ensures (a + b) % 4 == 0
  {
  }

  /** Pack one part.  On success the tail is that of the ideal run over the sizes in decreasing order,
      blobs and holes tile it exactly, and it is at most twice what is stored.  Overflow is reported
      only when the ideal run does not fit behind the part's start in 32 bits. */
  method PackPart(blobs: seq<Blob>, members: seq<nat>, partStart: nat, imageOff: array<nat>)
    returns (r: Result<nat>, ghost placed: seq<Extent>, ghost holes: seq<Extent>)
    requires imageOff.Length == |blobs| && partStart % PAGE == 0
    requires Distinct(members)
    requires forall k: nat {:trigger members[k]} :: k < |members| ==>
               members[k] < |blobs| && Storable(blobs[members[k]])
    modifies imageOff
    ensures if r.Ok? then r.value == IdealTail(blobs, members) <= MAX32
            else partStart + IdealTail(blobs, members) > MAX32
    ensures r.Ok? ==> Tiled(placed, holes, r.value) && Total(placed) == Loads.Sum(StoredOf(blobs, members))
    ensures r.Ok? ==> PartPacked(blobs, members, imageOff[..], partStart, r.value)
    ensures r.Ok? ==> PackedSo(blobs, members, partStart, imageOff[..], r.value)
    ensures forall x: nat :: x < |blobs| && x !in members ==> imageOff[x] == old(imageOff[x])
  {
    var order := Sort(PackOrder(blobs), members);
    SameElements(order, members);
    OrderUsable(blobs, order, members);
    ghost var frees, tails;
    r, placed, holes, frees, tails := PackInOrder(blobs, order, partStart, imageOff);
    if r.Ok? {
      Finish(blobs, order, partStart, imageOff[..], placed, frees, tails, holes, r.value);
      assert Key(0);
      SortedPrecedes(blobs, members, order);
      RecordedPacked(placed, holes, r.value, order, members, blobs, imageOff[..], partStart);
      StoredPermuted(blobs, order, members);
      Loads.SumPermutation(StoredOf(blobs, order), StoredOf(blobs, members));
      assert StoredOf(blobs, order)[..|order|] == StoredOf(blobs, order);
    }
  }

  lemma OrderUsable(blobs: seq<Blob>, order: seq<nat>, members: seq<nat>)
    requires multiset(order) == multiset(members) && Distinct(members)
    requires forall k: nat {:trigger members[k]} :: k < |members| ==>
               members[k] < |blobs| && Storable(blobs[members[k]])
    ensures Distinct(order)
    ensures forall k: nat {:trigger order[k]} :: k < |order| ==> order[k] < |blobs| && Storable(blobs[order[k]])
  {
    SameElements(order, members);
    DistinctMultiplicity(order);
    DistinctMultiplicity(members);
    forall k: nat | k < |order|
      ensures order[k] < |blobs| && Storable(blobs[order[k]])
    {
      assert order[k] in members;
    }
  }

  lemma {:induction false} StoredPermuted(blobs: seq<Blob>, order: seq<nat>, members: seq<nat>)
    requires multiset(order) == multiset(members)
    ensures multiset(StoredOf(blobs, order)) == multiset(StoredOf(blobs, members))
    decreases |order|
  {
    if order == [] {
      assert |multiset(members)| == 0;
    } else {
      var i := TakeLast(order, members);
      var last := |order| - 1;
      StoredPermuted(blobs, order[..last], Without(members, i));
      var a, b := StoredOf(blobs, order), StoredOf(blobs, members);
      assert Without(a, last) == StoredOf(blobs, order[..last]);
      assert Without(b, i) == StoredOf(blobs, Without(members, i));
      RestoreCounts(a, last, b, i);
    }
  }

  lemma RestoreCounts(a: seq<nat>, i: nat, b: seq<nat>, j: nat)
    requires i < |a| && j < |b| && a[i] == b[j] && multiset(Without(a, i)) == multiset(Without(b, j))
    ensures multiset(a) == multiset(b)
  {
    WithoutCounts(a, i);
    WithoutCounts(b, j);
    assert multiset(a) == multiset(Without(a, i)) + multiset{a[i]};
    assert multiset(b) == multiset(Without(b, j)) + multiset{b[j]};
  }

  /** The order sorts the stored sizes downwards. */
  lemma StoredSorted(blobs: seq<Blob>, members: seq<nat>)
    requires forall k: nat {:trigger members[k]} :: k < |members| ==> members[k] < |blobs|
    ensures Sorted(Larger(), StoredOf(blobs, Sort(PackOrder(blobs), members)))
  {
    var order := Sort(PackOrder(blobs), members);
    PackSorted(blobs, members);
    forall k: nat | k < |order|
      ensures order[k] < |blobs|
    {
      SameElements(order, members);
      assert order[k] in members;
    }
    SizesDescend(blobs, order);
  }

  lemma PackSorted(blobs: seq<Blob>, members: seq<nat>)
    ensures Sorted(PackOrder(blobs), Sort(PackOrder(blobs), members))
  {
    PackOrderTotal(blobs);
    SortSorted(PackOrder(blobs), members);
  }

  lemma SizesDescend(blobs: seq<Blob>, order: seq<nat>)
    requires Sorted(PackOrder(blobs), order)
    requires forall k: nat {:trigger order[k]} :: k < |order| ==> order[k] < |blobs|
    ensures Sorted(Larger(), StoredOf(blobs, order))
  {
    forall i: nat, j: nat | i < j < |order|
      ensures StoredOf(blobs, order)[i] >= StoredOf(blobs, order)[j]
    {
      assert PackOrder(blobs)(order[i], order[j]);
    }
  }

  /** The simulator's padded size is the tail the builder ends with, on the same multiset of stored sizes. */
  lemma SimulatorRefinesBuilder(blobs: seq<Blob>, members: seq<nat>, sizes: seq<nat>)
    requires forall k: nat {:trigger members[k]} :: k < |members| ==> members[k] < |blobs|
    requires multiset(NonZero(sizes)) == multiset(StoredOf(blobs, members))
    ensures Run(Sort(Larger(), NonZero(sizes)), PAGE) == Run(StoredOf(blobs, Sort(PackOrder(blobs), members)), PAGE)
  {
    var x, y := Sort(Larger(), NonZero(sizes)), StoredOf(blobs, Sort(PackOrder(blobs), members));
    LargerOrder();
    SortSorted(Larger(), NonZero(sizes));
    StoredSorted(blobs, members);
    StoredPermuted(blobs, Sort(PackOrder(blobs), members), members);
    SortedUnique(Larger(), x, y);
  }
}
