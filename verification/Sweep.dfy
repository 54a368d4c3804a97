/** The content intervals of an image (ko/image.c:103-115, 280-300): the check of one reference, the
    sorted sweep over all of them, and the binary search that gives each file its blob. */
module Sweep {
  import opened Format
  import opened Sorting


  /** Content size with its terminator, rounded up to words. */
  function StoredSize(size: nat): (stored: nat)
    ensures stored % 4 == 0 && size < stored <= size + 4
  {
    (size + 4) / 4 * 4
  }

  /** One reference to content: where, how long, from a symlink or not, and whether the public may see it. */
  datatype Ref = Ref(off: nat, size: nat, symlink: bool, publicRef: bool) {
    function Stored(): nat {
      StoredSize(size)
    }

    function End(): nat {
      off + Stored()
    }
  }

  /** The content a reference names. */
  datatype Place = Place(off: nat, size: nat, symlink: bool) {
    function End(): nat {
      off + StoredSize(size)
    }
  }

  function PlaceOf(x: Ref): Place {
    Place(x.off, x.size, x.symlink)
  }

  ghost function Places(refs: seq<Ref>): set<Place> {
    if refs == [] then {} else Places(refs[..|refs| - 1]) + {PlaceOf(refs[|refs| - 1])}
  }

  /** The offsets some public reference names. */
  ghost function Publics(refs: seq<Ref>): set<nat> {
    if refs == [] then {}
    else Publics(refs[..|refs| - 1]) + (if refs[|refs| - 1].publicRef then {refs[|refs| - 1].off} else {})
  }

  /** Two places that cannot both be right: one offset read two ways, or two intervals that overlap. */
  ghost predicate Conflict(a: Place, b: Place) {
    if a.off == b.off then a != b else a.off < b.End() && b.off < a.End()
  }

  ghost predicate NoConflict(places: set<Place>) {
    forall x: Place, y: Place {:trigger Conflict(x, y)} :: x in places && y in places ==> !Conflict(x, y)
  }

  lemma {:induction false} PlacesAre(refs: seq<Ref>, x: Place)
    ensures x in Places(refs) <==>
            exists r: nat {:trigger refs[r]} ::
              r < |refs| && refs[r].off == x.off && refs[r].size == x.size && refs[r].symlink == x.symlink
  {
    if refs != [] {
      var last := |refs| - 1;
      PlacesAre(refs[..last], x);
      assert forall r: nat {:trigger refs[r]} :: r < last ==> refs[..last][r] == refs[r];
    }
  }

  lemma {:induction false} PublicsAre(refs: seq<Ref>, off: nat)
    ensures off in Publics(refs) <==>
            exists r: nat {:trigger refs[r]} :: r < |refs| && refs[r].off == off && refs[r].publicRef
  {
    if refs != [] {
      var last := |refs| - 1;
      PublicsAre(refs[..last], off);
      assert forall r: nat {:trigger refs[r]} :: r < last ==> refs[..last][r] == refs[r];
    }
  }

  /** Two references agree: the same content from the same offset, or the one ends, with its zeros, before the
      other begins. */
  predicate Agree(a: Ref, b: Ref) {
    && (a.off == b.off ==> a.size == b.size && a.symlink == b.symlink)
    && (a.off < b.off ==> a.off + (a.size + 4) / 4 * 4 <= b.off)
  }

  lemma NoConflictMeans(refs: seq<Ref>)
    ensures NoConflict(Places(refs)) <==>
            forall q: nat, r: nat {:trigger refs[q], refs[r]} :: q < |refs| && r < |refs| ==> Agree(refs[q], refs[r])
  {
    forall q: nat, r: nat | NoConflict(Places(refs)) && q < |refs| && r < |refs|
      ensures Agree(refs[q], refs[r])
    {
      PlacesAre(refs, PlaceOf(refs[q]));
      PlacesAre(refs, PlaceOf(refs[r]));
      assert !Conflict(PlaceOf(refs[q]), PlaceOf(refs[r]));
    }
    if forall q: nat, r: nat {:trigger refs[q], refs[r]} :: q < |refs| && r < |refs| ==> Agree(refs[q], refs[r]) {
      forall x: Place, y: Place | x in Places(refs) && y in Places(refs)
        ensures !Conflict(x, y)
      {
        PlacesAre(refs, x);
        PlacesAre(refs, y);
        var q: nat :| q < |refs| && PlaceOf(refs[q]) == x;
        var r: nat :| r < |refs| && PlaceOf(refs[r]) == y;
        assert Agree(refs[q], refs[r]) && Agree(refs[r], refs[q]);
      }
    }
  }

  /** `blobcmp`. */
  function ByOffset(): (Ref, Ref) -> bool {
    (x: Ref, y: Ref) => x.off <= y.off
  }

  lemma ByOffsetOrder()
    ensures TotalOrder(ByOffset())
  {
  }

  ghost predicate Increasing(kept: seq<Ref>) {
    forall i: nat, j: nat :: i < j < |kept| ==> kept[i].off < kept[j].off && kept[i].End() <= kept[j].off
  }

  /** The kept blobs are the references with duplicates merged, each public if one of its references is. */
  ghost predicate Merged(refs: seq<Ref>, kept: seq<Ref>) {
    Places(kept) == Places(refs) && Publics(kept) == Publics(refs)
  }

  // ---------------------------------------------------------------- places and elements

  lemma {:induction false} PlaceIn(refs: seq<Ref>, i: nat)
    requires i < |refs|
    ensures PlaceOf(refs[i]) in Places(refs)
    ensures refs[i].publicRef ==> refs[i].off in Publics(refs)
  {
    if i < |refs| - 1 {
      PlaceIn(refs[..|refs| - 1], i);
    }
  }

  lemma {:induction false} PlaceFrom(refs: seq<Ref>, p: Place) returns (i: nat)
    requires p in Places(refs)
    ensures i < |refs| && PlaceOf(refs[i]) == p
  {
    var last := |refs| - 1;
    if PlaceOf(refs[last]) == p {
      i := last;
    } else {
      i := PlaceFrom(refs[..last], p);
    }
  }

  lemma {:induction false} PublicFrom(refs: seq<Ref>, off: nat) returns (i: nat)
    requires off in Publics(refs)
    ensures i < |refs| && refs[i].off == off && refs[i].publicRef
  {
    var last := |refs| - 1;
    if refs[last].publicRef && refs[last].off == off {
      i := last;
    } else {
      i := PublicFrom(refs[..last], off);
    }
  }

  /** Places and public offsets do not depend on the order of the references. */
  lemma SameRefs(a: seq<Ref>, b: seq<Ref>)
    requires multiset(a) == multiset(b)
    ensures Places(a) == Places(b) && Publics(a) == Publics(b)
  {
    SubRefs(a, b);
    SubRefs(b, a);
  }

  lemma SubRefs(a: seq<Ref>, b: seq<Ref>)
    requires multiset(a) == multiset(b)
    ensures Places(a) <= Places(b) && Publics(a) <= Publics(b)
  {
    SameElements(a, b);
    forall p: Place | p in Places(a)
      ensures p in Places(b)
    {
      var i := PlaceFrom(a, p);
      assert a[i] in b;
      var j: nat :| j < |b| && b[j] == a[i];
      PlaceIn(b, j);
    }
    forall off: nat | off in Publics(a)
      ensures off in Publics(b)
    {
      var i := PublicFrom(a, off);
      assert a[i] in b;
      var j: nat :| j < |b| && b[j] == a[i];
      PlaceIn(b, j);
    }
  }

  // ---------------------------------------------------------------- the sweep

  lemma PrefixPlaces(refs: seq<Ref>, i: nat)
    requires i < |refs|
    ensures Places(refs[..i + 1]) == Places(refs[..i]) + {PlaceOf(refs[i])}
    ensures Publics(refs[..i + 1]) == Publics(refs[..i]) + (if refs[i].publicRef then {refs[i].off} else {})
  {
    assert refs[..i + 1][..i] == refs[..i];
  }

  lemma {:induction false} PrefixSubset(refs: seq<Ref>, i: nat)
    requires i <= |refs|
    ensures Places(refs[..i]) <= Places(refs)
    decreases |refs| - i
  {
    if i < |refs| {
      PrefixPlaces(refs, i);
      PrefixSubset(refs, i + 1);
    } else {
      assert refs[..i] == refs;
    }
  }

  lemma MoreConflicts(a: set<Place>, b: set<Place>)
    requires a <= b && !NoConflict(a)
    ensures !NoConflict(b)
  {
    var x: Place, y: Place :| x in a && y in a && Conflict(x, y);
    assert Conflict(x, y);
  }

  /** Everything kept so far ends no later than the last of it. */
  lemma {:induction false} EndsByLast(kept: seq<Ref>, p: Place)
    requires Increasing(kept) && p in Places(kept)
    ensures p == PlaceOf(kept[|kept| - 1]) || (p.off < kept[|kept| - 1].off && p.End() <= kept[|kept| - 1].off)
  {
    var i := PlaceFrom(kept, p);
    if i < |kept| - 1 {
      assert kept[i].off < kept[|kept| - 1].off;
    }
  }

  /** A reference that starts where the last kept blob does conflicts with it or repeats it. */
  lemma SweepSame(kept: seq<Ref>, b: Ref)
    requires Increasing(kept) && kept != [] && NoConflict(Places(kept)) && b.off == kept[|kept| - 1].off
    ensures NoConflict(Places(kept) + {PlaceOf(b)}) <==> PlaceOf(b) == PlaceOf(kept[|kept| - 1])
  {
    var last := kept[|kept| - 1];
    PlaceIn(kept, |kept| - 1);
    if PlaceOf(b) == PlaceOf(last) {
      assert Places(kept) + {PlaceOf(b)} == Places(kept);
    } else {
      assert Conflict(PlaceOf(last), PlaceOf(b));
    }
  }

  /** A reference that starts further on conflicts with something exactly when it starts inside the last kept blob. */
  lemma SweepNew(kept: seq<Ref>, b: Ref)
    requires Increasing(kept) && NoConflict(Places(kept)) && (kept != [] ==> kept[|kept| - 1].off < b.off)
    ensures NoConflict(Places(kept) + {PlaceOf(b)}) <==> (kept == [] || kept[|kept| - 1].End() <= b.off)
  {
    var all := Places(kept) + {PlaceOf(b)};
    if kept != [] && b.off < kept[|kept| - 1].End() {
      PlaceIn(kept, |kept| - 1);
      assert Conflict(PlaceOf(kept[|kept| - 1]), PlaceOf(b));
    } else {
      forall x: Place, y: Place | x in all && y in all
        ensures !Conflict(x, y)
      {
        if x in Places(kept) && y in Places(kept) {
          assert !Conflict(x, y);
        } else {
          if x in Places(kept) {
            EndsByLast(kept, x);
          }
          if y in Places(kept) {
            EndsByLast(kept, y);
          }
        }
      }
    }
  }

  lemma IncreasingAppend(kept: seq<Ref>, b: Ref)
    requires Increasing(kept) && (kept != [] ==> kept[|kept| - 1].off < b.off && kept[|kept| - 1].End() <= b.off)
    ensures Increasing(kept + [b])
    ensures Places(kept + [b]) == Places(kept) + {PlaceOf(b)}
    ensures Publics(kept + [b]) == Publics(kept) + (if b.publicRef then {b.off} else {})
  {
    PlacesAppend(kept, b);
    var more := kept + [b];
    forall i: nat, j: nat | i < j < |more|
      ensures more[i].off < more[j].off && more[i].End() <= more[j].off
    {
      assert more[i] == kept[i];
      if j < |kept| {
        assert more[j] == kept[j];
      } else if i < |kept| - 1 {
        assert kept[i].off < kept[|kept| - 1].off;
      }
    }
  }

  lemma PlacesAppend(kept: seq<Ref>, b: Ref)
    ensures Places(kept + [b]) == Places(kept) + {PlaceOf(b)}
    ensures Publics(kept + [b]) == Publics(kept) + (if b.publicRef then {b.off} else {})
  {
    assert (kept + [b])[..|kept|] == kept;
  }

  function Promote(last: Ref, b: Ref): Ref {
    last.(publicRef := last.publicRef || b.publicRef)
  }

  lemma PromoteLast(kept: seq<Ref>, b: Ref)
    requires Increasing(kept) && kept != [] && PlaceOf(b) == PlaceOf(kept[|kept| - 1])
    ensures var kept' := kept[|kept| - 1 := Promote(kept[|kept| - 1], b)];
            && Increasing(kept') && Places(kept') == Places(kept)
            && Publics(kept') == Publics(kept) + (if b.publicRef then {b.off} else {})
  {
    var n := |kept| - 1;
    assert kept[n := Promote(kept[n], b)][..n] == kept[..n];
    PlaceIn(kept, n);
  }

  /** What the compaction loop keeps: the first i sorted references, merged into the first n cells. */
  ghost predicate Swept(sorted: seq<Ref>, i: nat, kept: seq<Ref>) {
    && i <= |sorted| && NoConflict(Places(sorted[..i])) && Merged(sorted[..i], kept) && Increasing(kept)
    && (kept == [] <==> i == 0) && (i > 0 ==> kept[|kept| - 1].off == sorted[i - 1].off)
  }

  lemma SweptSame(sorted: seq<Ref>, i: nat, kept: seq<Ref>)
    requires Swept(sorted, i, kept) && i < |sorted| && kept != [] && sorted[i].off == kept[|kept| - 1].off
    ensures if PlaceOf(sorted[i]) == PlaceOf(kept[|kept| - 1])
            then Swept(sorted, i + 1, kept[|kept| - 1 := Promote(kept[|kept| - 1], sorted[i])])
            else !NoConflict(Places(sorted))
  {
    PrefixPlaces(sorted, i);
    SweepSame(kept, sorted[i]);
    if PlaceOf(sorted[i]) == PlaceOf(kept[|kept| - 1]) {
      PromoteLast(kept, sorted[i]);
      PlaceIn(kept, |kept| - 1);
      assert Places(kept) + {PlaceOf(sorted[i])} == Places(kept);
    } else {
      PrefixSubset(sorted, i + 1);
      MoreConflicts(Places(sorted[..i + 1]), Places(sorted));
    }
  }

  lemma SweptNew(sorted: seq<Ref>, i: nat, kept: seq<Ref>)
    requires Swept(sorted, i, kept) && i < |sorted| && Sorted(ByOffset(), sorted)
    requires kept != [] ==> sorted[i].off != kept[|kept| - 1].off
    ensures if kept == [] || kept[|kept| - 1].End() <= sorted[i].off
            then Swept(sorted, i + 1, kept + [sorted[i]])
            else !NoConflict(Places(sorted))
  {
    if kept != [] {
      assert ByOffset()(sorted[i - 1], sorted[i]);
    }
    PrefixPlaces(sorted, i);
    SweepNew(kept, sorted[i]);
    if kept == [] || kept[|kept| - 1].End() <= sorted[i].off {
      IncreasingAppend(kept, sorted[i]);
    } else {
      PrefixSubset(sorted, i + 1);
      MoreConflicts(Places(sorted[..i + 1]), Places(sorted));
    }
  }

  /** `qsort` by offset. */
  method SortBlobs(blobs: array<Ref>)
    modifies blobs
    ensures blobs[..] == Sort(ByOffset(), old(blobs[..]))
  {
    var sorted := Sort(ByOffset(), blobs[..]);
    for i := 0 to blobs.Length
      invariant blobs[..i] == sorted[..i]
    {
      blobs[i] := sorted[i];
    }
    assert sorted[..blobs.Length] == sorted;
  }

  /** Compare one reference with the last blob kept: merge it, keep it, or report a conflict. */
  method SweepOne(blobs: array<Ref>, i: nat, n: nat, ghost sorted: seq<Ref>) returns (ok: bool, n': nat)
    requires n <= i < |sorted| == blobs.Length && Sorted(ByOffset(), sorted)
    requires blobs[i] == sorted[i] && Swept(sorted, i, blobs[..n])
    modifies blobs
    ensures !ok ==> !NoConflict(Places(sorted))
    ensures ok ==> n' <= i + 1 && Swept(sorted, i + 1, blobs[..n'])
    ensures forall k: nat :: i < k < blobs.Length ==> blobs[k] == old(blobs[k])
  {
    var b := blobs[i];
    n' := n;
    ghost var kept := blobs[..n];
    if n > 0 && b.off == blobs[n - 1].off {
      SweptSame(sorted, i, kept);
      var last := blobs[n - 1];
      if b.size != last.size || b.symlink != last.symlink {
        return false, n;
      }
      blobs[n - 1] := Promote(last, b);
      assert blobs[..n] == kept[n - 1 := Promote(last, b)];
    } else {
      SweptNew(sorted, i, kept);
      if n > 0 && b.off < blobs[n - 1].End() {
        return false, n;
      }
      blobs[n] := b;
      n' := n + 1;
      assert blobs[..n'] == kept + [b];
    }
    ok := true;
  }

  /** Sort, then compare each reference with the last blob kept, compacting the array in place.
      It accepts exactly the sets of references without a conflicting pair. */
  method SweepBlobs(blobs: array<Ref>) returns (ok: bool, n: nat)
    modifies blobs
    ensures ok <==> NoConflict(Places(old(blobs[..])))
    ensures ok ==> n <= blobs.Length && Increasing(blobs[..n]) && Merged(old(blobs[..]), blobs[..n])
  {
    ghost var refs := blobs[..];
    SortBlobs(blobs);
    ghost var sorted := blobs[..];
    ByOffsetOrder();
    SortSorted(ByOffset(), refs);
    SameRefs(sorted, refs);
    n := 0;
    for i := 0 to blobs.Length
      invariant n <= i && Swept(sorted, i, blobs[..n])
      invariant forall k: nat :: i <= k < blobs.Length ==> blobs[k] == sorted[k]
    {
      ok, n := SweepOne(blobs, i, n, sorted);
      if !ok {
        return;
      }
    }
    assert sorted[..blobs.Length] == sorted;
    ok := true;
  }

  // ---------------------------------------------------------------- parts and lookup

  /** A kept blob is public exactly when some reference to its offset is. */
  lemma PublicIfReferenced(refs: seq<Ref>, kept: seq<Ref>, k: nat)
    requires Merged(refs, kept) && Increasing(kept) && k < |kept|
    ensures kept[k].publicRef <==> kept[k].off in Publics(refs)
  {
    if kept[k].publicRef {
      PlaceIn(kept, k);
    }
    if kept[k].off in Publics(kept) {
      var j := PublicFrom(kept, kept[k].off);
      assert j == k;
    }
  }

  /** Public content lies below the private part, private content in it. */
  method CheckParts(kept: array<Ref>, n: nat, privateOff: nat) returns (ok: bool)
    requires n <= kept.Length
    ensures ok <==> forall k: nat :: k < n ==> (kept[k].off < privateOff <==> kept[k].publicRef)
  {
    for i := 0 to n
      invariant forall k: nat :: k < i ==> (kept[k].off < privateOff <==> kept[k].publicRef)
    {
      if (kept[i].off < privateOff) != kept[i].publicRef {
        return false;
      }
    }
    ok := true;
  }

  /** The first kept blob at or after an offset. */
  method FindBlob(kept: array<Ref>, n: nat, off: nat) returns (lo: nat)
    requires n <= kept.Length && Increasing(kept[..n])
    ensures lo <= n
    ensures forall k: nat :: k < lo ==> kept[k].off < off
    ensures forall k: nat :: lo <= k < n ==> off <= kept[k].off
  {
    lo := 0;
    var hi := n;
    while lo < hi
      invariant lo <= hi <= n
      invariant forall k: nat :: k < lo ==> kept[k].off < off
      invariant forall k: nat :: hi <= k < n ==> off <= kept[k].off
    {
      var mid := lo + (hi - lo) / 2;
      assert forall i: nat, j: nat :: i < j < n ==> kept[..n][i].off < kept[..n][j].off;
      if kept[mid].off < off {
        lo := mid + 1;
      } else {
        hi := mid;
      }
    }
  }

  /** Every file finds a blob with its own offset and size. */
  lemma FileFindsBlob(refs: seq<Ref>, kept: seq<Ref>, i: nat, lo: nat)
    requires Merged(refs, kept) && Increasing(kept) && i < |refs| && lo <= |kept|
    requires forall k: nat :: k < lo ==> kept[k].off < refs[i].off
    requires forall k: nat :: lo <= k < |kept| ==> refs[i].off <= kept[k].off
    ensures lo < |kept| && PlaceOf(kept[lo]) == PlaceOf(refs[i])
  {
    PlaceIn(refs, i);
    var k := PlaceFrom(kept, PlaceOf(refs[i]));
    assert lo <= k;
    assert refs[i].off <= kept[lo].off;
    assert lo == k;
  }
}
