/** Reading an accepted directory: chain lookup (ko/image.c:315-332) against a scan of the slice, and
    enumeration that can be resumed from any saved offset (ko/femtofs.c:159-203). */
module Directory {
  import opened Format
  import opened Slice

  // ---------------------------------------------------------------- lookup

  ghost predicate Named(s: seq<Cell>, i: nat, name: seq<byte>) {
    Occupied(s, i) && s[i].name == name
  }

  ghost predicate DistinctNames(s: seq<Cell>) {
    forall i: nat, j: nat :: i < j && Occupied(s, i) && Occupied(s, j) ==> s[i].name != s[j].name
  }

  /** The simple lookup: the first bucket of the slice with that name, chains ignored. */
  ghost function Scan(s: seq<Cell>, name: seq<byte>): (r: Option<nat>)
    ensures r.Some? <==> exists i: nat :: Named(s, i, name)
    ensures r.Some? ==> exists i: nat :: Named(s, i, name) && s[i].target == r.value
  {
    if s == [] then
      None
    else
      var last := |s| - 1;
      var front := s[..last];
      assert forall i: nat :: Named(s, i, name) <==> Named(front, i, name) || (i == last && Named(s, last, name));
      if Scan(front, name).Some? then Scan(front, name)
      else if Named(s, last, name) then Some(s[last].target)
      else None
  }

  lemma ScanFinds(s: seq<Cell>, i: nat, name: seq<byte>)
    requires DistinctNames(s) && Named(s, i, name)
    ensures Scan(s, name) == Some(s[i].target)
  {
    var j: nat :| Named(s, j, name) && s[j].target == Scan(s, name).value;
    assert Named(s, j, name);
  }

  /** The node a name stands for: that of the scanned bucket's object, through a hardlink to its file. */
  ghost function Found(s: seq<Cell>, canonical: nat -> nat, name: seq<byte>): Option<nat> {
    match Scan(s, name) case Some(t) => Some(canonical(t)) case None => None
  }

  lemma FoundIs(s: seq<Cell>, canonical: nat -> nat, name: seq<byte>)
    ensures var r := Found(s, canonical, name);
            && (r.Some? <==> exists i: nat {:trigger s[i]} :: i < |s| && s[i].Bucket? && s[i].name == name)
            && (r.Some? ==>
                  exists i: nat {:trigger s[i]} ::
                    i < |s| && s[i].Bucket? && s[i].name == name && r.value == canonical(s[i].target))
  {
    if i: nat :| i < |s| && s[i].Bucket? && s[i].name == name {
      assert Named(s, i, name);
    }
    if Scan(s, name).Some? {
      var j: nat :| Named(s, j, name) && s[j].target == Scan(s, name).value;
      assert s[j].name == name;
    }
  }

  /** Walk the chain of each anchor in turn until the name is met or a chain ends. */
  method Lookup(s: seq<Cell>, h: Hashing, canonical: nat -> nat, name: seq<byte>) returns (r: Option<nat>)
    requires WellChained(s, h) && DistinctNames(s)
    ensures r == Found(s, canonical, name)
    ensures r.Some? <==> exists i: nat {:trigger s[i]} :: i < |s| && s[i].Bucket? && s[i].name == name
    ensures r.Some? ==>
              exists i: nat {:trigger s[i]} ::
                i < |s| && s[i].Bucket? && s[i].name == name && r.value == canonical(s[i].target)
  {
    FoundIs(s, canonical, name);
    if |s| == 0 {
      return None;
    }
    var a := KernelHash(name, h.base, |s|);
    r := LookupFrom(s, a, canonical, name);
    if r.Some? {
      return;
    }
    if h.second.Some? {
      var b := KernelHash(name, h.second.value, |s|);
      r := LookupFrom(s, b, canonical, name);
      if r.Some? {
        return;
      }
    }
    FromAnAnchor(s, h, name);
  }

  lemma FromAnAnchor(s: seq<Cell>, h: Hashing, name: seq<byte>)
    requires WellChained(s, h) && |s| > 0
    ensures forall i: nat :: Named(s, i, name) ==>
              Reach(s, Hash(name, h.base, |s|), i) || (h.second.Some? && Reach(s, Hash(name, h.second.value, |s|), i))
  {
    forall i: nat | Named(s, i, name)
      ensures Reach(s, Hash(name, h.base, |s|), i) || (h.second.Some? && Reach(s, Hash(name, h.second.value, |s|), i))
    {
      assert Anchored(s, h, i);
    }
  }

  method LookupFrom(s: seq<Cell>, anchor: nat, canonical: nat -> nat, name: seq<byte>) returns (r: Option<nat>)
    requires LinksOk(s) && (forall i: nat {:trigger Ends(s, i)} :: Occupied(s, i) ==> Ends(s, i))
    requires DistinctNames(s) && anchor < |s|
    ensures r.Some? ==> r == Found(s, canonical, name)
    ensures r.None? ==> forall i: nat :: Named(s, i, name) ==> !Reach(s, anchor, i)
  {
    var i := anchor;
    ghost var steps: nat := 0;
    while i != |s|
      invariant i <= |s| && At(s, anchor, steps) == i
      invariant steps > 0 ==> Occupied(s, anchor)
      invariant steps > 0 && i < |s| ==> Occupied(s, i) && steps < |s|
      invariant forall k: nat :: k < steps ==> !Named(s, At(s, anchor, k), name)
      decreases |s| - steps, |s| - i
    {
      if !Occupied(s, i) {
        forall j: nat | Named(s, j, name)
          ensures !Reach(s, anchor, j)
        {
          if Reach(s, anchor, j) {
            Stays(s, anchor, j);
          }
        }
        return None;
      }
      if s[i].name == name {
        ScanFinds(s, i, name);
        return Some(canonical(s[i].target));
      }
      assert LinkOk(s, i) && Ends(s, anchor);
      AtAdd(s, anchor, steps, 1);
      steps := steps + 1;
      i := s[i].next;
      if i != |s| {
        TrailDistinct(s, anchor, steps);
      }
    }
    forall j: nat | Named(s, j, name)
      ensures !Reach(s, anchor, j)
    {
      if Reach(s, anchor, j) {
        var k: nat :| At(s, anchor, k) == j;
        if k >= steps {
          Past(s, anchor, steps, k);
        }
      }
    }
    r := None;
  }

  // ---------------------------------------------------------------- enumeration

  /** A directory record: the offset to resume from, the object and the name. */
  datatype Dirent = Dirent(off: nat, id: nat, name: seq<byte>)

  const DOT: seq<byte> := [46]
  const DOTDOT: seq<byte> := [46, 46]

  /** The record at an offset, if there is one: itself, its parent, then the slice's buckets. */
  function Record(s: seq<Cell>, self: nat, parent: nat, canonical: nat -> nat, pos: nat): Option<Dirent> {
    if pos == 0 then Some(Dirent(1, self, DOT))
    else if pos == 1 then Some(Dirent(2, parent, DOTDOT))
    else if Occupied(s, pos - 2) then Some(Dirent(pos + 1, canonical(s[pos - 2].target), s[pos - 2].name))
    else None
  }

  /** The records at offsets from `from` up to `end`, in order. */
  ghost function Listing(s: seq<Cell>, self: nat, parent: nat, canonical: nat -> nat, from: nat, end: nat): seq<Dirent>
    requires from <= end
    decreases end - from
  {
    if from == end then []
    else Listing(s, self, parent, canonical, from, end - 1) + RecordAt(s, self, parent, canonical, end - 1)
  }

  ghost function RecordAt(s: seq<Cell>, self: nat, parent: nat, canonical: nat -> nat, pos: nat): seq<Dirent> {
    match Record(s, self, parent, canonical, pos) case Some(d) => [d] case None => []
  }

  /** Every element is the record at its offset, and offsets increase. */
  ghost predicate Sound(s: seq<Cell>, self: nat, parent: nat, canonical: nat -> nat, from: nat, end: nat,
                        r: seq<Dirent>) {
    && (forall k: nat {:trigger r[k]} :: k < |r| ==>
          from < r[k].off <= end && Record(s, self, parent, canonical, r[k].off - 1) == Some(r[k]))
    && (forall k: nat, l: nat :: k < l < |r| ==> r[k].off < r[l].off)
  }

  lemma {:induction false} ListingSound(s: seq<Cell>, self: nat, parent: nat, canonical: nat -> nat, from: nat,
                                        end: nat)
    requires from <= end
    ensures Sound(s, self, parent, canonical, from, end, Listing(s, self, parent, canonical, from, end))
    decreases end - from
  {
    if from < end {
      ListingSound(s, self, parent, canonical, from, end - 1);
      var front := Listing(s, self, parent, canonical, from, end - 1);
      var r := Listing(s, self, parent, canonical, from, end);
      assert Sound(s, self, parent, canonical, from, end - 1, front);
      SoundAppend(s, self, parent, canonical, from, end, front, RecordAt(s, self, parent, canonical, end - 1));
    }
  }

  lemma SoundAppend(s: seq<Cell>, self: nat, parent: nat, canonical: nat -> nat, from: nat, end: nat,
                    front: seq<Dirent>, last: seq<Dirent>)
    requires from < end && Sound(s, self, parent, canonical, from, end - 1, front)
    requires last == RecordAt(s, self, parent, canonical, end - 1)
    ensures Sound(s, self, parent, canonical, from, end, front + last)
  {
    var r := front + last;
    forall k: nat | k < |r|
      ensures from < r[k].off <= end && Record(s, self, parent, canonical, r[k].off - 1) == Some(r[k])
      ensures k < |front| ==> r[k] == front[k] && r[k].off < end
    {
      if k < |front| {
        assert r[k] == front[k];
      } else {
        assert r[k] == last[0];
      }
    }
    forall k: nat, l: nat | k < l < |r|
      ensures r[k].off < r[l].off
    {
      assert k < |front|;
      if l < |front| {
        assert front[k].off < front[l].off;
      } else {
        assert r[l] == last[0];
      }
    }
  }

  /** No record of the range is left out. */
  lemma {:induction false} ListingComplete(s: seq<Cell>, self: nat, parent: nat, canonical: nat -> nat, from: nat,
                                           end: nat, p: nat)
    requires from <= p < end && Record(s, self, parent, canonical, p).Some?
    ensures Record(s, self, parent, canonical, p).value in Listing(s, self, parent, canonical, from, end)
    decreases end - from
  {
    if p == end - 1 {
      var front := Listing(s, self, parent, canonical, from, end - 1);
      assert Listing(s, self, parent, canonical, from, end)[|front|] == Record(s, self, parent, canonical, p).value;
    } else {
      ListingComplete(s, self, parent, canonical, from, end - 1, p);
    }
  }

  lemma {:induction false} ListingSplits(s: seq<Cell>, self: nat, parent: nat, canonical: nat -> nat, from: nat,
                                         mid: nat, end: nat)
    requires from <= mid <= end
    ensures Listing(s, self, parent, canonical, from, end)
         == Listing(s, self, parent, canonical, from, mid) + Listing(s, self, parent, canonical, mid, end)
    decreases end - mid
  {
    if mid < end {
      ListingSplits(s, self, parent, canonical, from, mid, end - 1);
    }
  }

  /** The k-th record: itself under its own number, its parent, or an occupied bucket's name with the node it
      stands for; under the offset to resume from. */
  lemma ListingEach(s: seq<Cell>, self: nat, parent: nat, canonical: nat -> nat, from: nat, end: nat, k: nat)
    requires from <= end <= |s| + 2 && k < |Listing(s, self, parent, canonical, from, end)|
    ensures var d := Listing(s, self, parent, canonical, from, end)[k];
            || (d == Dirent(1, self, [46]) && from == 0)
            || (d == Dirent(2, parent, [46, 46]) && from <= 1)
            || (3 <= d.off && from < d.off <= end && Occupied(s, d.off - 3) &&
                d == Dirent(d.off, canonical(s[d.off - 3].target), s[d.off - 3].name))
  {
    ListingSound(s, self, parent, canonical, from, end);
    var r := Listing(s, self, parent, canonical, from, end);
    assert Record(s, self, parent, canonical, r[k].off - 1) == Some(r[k]);
  }

  /** And nothing is left out. */
  lemma ListingHas(s: seq<Cell>, self: nat, parent: nat, canonical: nat -> nat, from: nat, end: nat)
    requires from <= end <= |s| + 2
    ensures var r := Listing(s, self, parent, canonical, from, end);
            && (from == 0 < end ==> Dirent(1, self, [46]) in r)
            && (from <= 1 < end ==> Dirent(2, parent, [46, 46]) in r)
            && (forall p: nat {:trigger s[p]} :: Occupied(s, p) && from <= p + 2 < end ==>
                  Dirent(p + 3, canonical(s[p].target), s[p].name) in r)
  {
    var r := Listing(s, self, parent, canonical, from, end);
    if from == 0 < end {
      ListingComplete(s, self, parent, canonical, from, end, 0);
    }
    if from <= 1 < end {
      ListingComplete(s, self, parent, canonical, from, end, 1);
    }
    forall p: nat | Occupied(s, p) && from <= p + 2 < end
      ensures Dirent(p + 3, canonical(s[p].target), s[p].name) in r
    {
      ListingComplete(s, self, parent, canonical, from, end, p + 2);
    }
  }

  /** A listing in full. */
  lemma ListingIs(s: seq<Cell>, self: nat, parent: nat, canonical: nat -> nat, from: nat, end: nat, r: seq<Dirent>)
    requires from <= end <= |s| + 2 && r == Listing(s, self, parent, canonical, from, end)
    ensures forall k: nat {:trigger r[k]} :: k < |r| ==>
              || (r[k] == Dirent(1, self, [46]) && from == 0)
              || (r[k] == Dirent(2, parent, [46, 46]) && from <= 1)
              || (3 <= r[k].off && from < r[k].off <= end && Occupied(s, r[k].off - 3) &&
                  r[k] == Dirent(r[k].off, canonical(s[r[k].off - 3].target), s[r[k].off - 3].name))
    ensures forall k: nat, l: nat :: k < l < |r| ==> r[k].off < r[l].off
    ensures from == 0 < end ==> Dirent(1, self, [46]) in r
    ensures from <= 1 < end ==> Dirent(2, parent, [46, 46]) in r
    ensures forall p: nat {:trigger s[p]} :: Occupied(s, p) && from <= p + 2 < end ==>
              Dirent(p + 3, canonical(s[p].target), s[p].name) in r
  {
    forall k: nat | k < |r|
      ensures || (r[k] == Dirent(1, self, [46]) && from == 0)
              || (r[k] == Dirent(2, parent, [46, 46]) && from <= 1)
              || (3 <= r[k].off && from < r[k].off <= end && Occupied(s, r[k].off - 3) &&
                  r[k] == Dirent(r[k].off, canonical(s[r[k].off - 3].target), s[r[k].off - 3].name))
    {
      ListingEach(s, self, parent, canonical, from, end, k);
    }
    ListingHas(s, self, parent, canonical, from, end);
    ListingSound(s, self, parent, canonical, from, end);
  }

  /** Bytes the records take. */
  function Used(out: seq<Dirent>, reclen: seq<byte> -> nat): nat {
    if out == [] then 0 else Used(out[..|out| - 1], reclen) + reclen(out[|out| - 1].name)
  }

  lemma UsedMore(out: seq<Dirent>, d: Dirent, reclen: seq<byte> -> nat)
    ensures Used(out + [d], reclen) == Used(out, reclen) + reclen(d.name)
  {
    assert (out + [d])[..|out|] == out;
  }

  /** Emit records from `offset` on while they fit, and say where to resume. */
  method Emit(s: seq<Cell>, self: nat, parent: nat, canonical: nat -> nat, offset: nat, resid: nat, capacity: nat,
              reclen: seq<byte> -> nat)
    returns (out: seq<Dirent>, pos: nat)
    requires offset <= |s| + 2
    ensures offset <= pos <= |s| + 2
    ensures out == Listing(s, self, parent, canonical, offset, pos)
    ensures |out| <= capacity && Used(out, reclen) <= resid
    ensures pos < |s| + 2 ==>
              Record(s, self, parent, canonical, pos).Some? &&
              (|out| == capacity ||
               resid < Used(out, reclen) + reclen(Record(s, self, parent, canonical, pos).value.name))
  {
    pos, out := offset, [];
    var left: nat := resid;
    while pos < |s| + 2
      invariant offset <= pos <= |s| + 2 && out == Listing(s, self, parent, canonical, offset, pos)
      invariant |out| <= capacity && left + Used(out, reclen) == resid
    {
      var d: Dirent;
      if pos < 2 {
        d := if pos == 0 then Dirent(1, self, DOT) else Dirent(2, parent, DOTDOT);
      } else {
        if !Occupied(s, pos - 2) {
          pos := pos + 1;
          continue;
        }
        d := Dirent(pos + 1, canonical(s[pos - 2].target), s[pos - 2].name);
      }
      if left < reclen(d.name) || |out| == capacity {
        break;
      }
      left := left - reclen(d.name);
      UsedMore(out, d, reclen);
      out := out + [d];
      pos := pos + 1;
    }
  }

  /** One call.  It stops early only for lack of room. */
  method ReadDir(s: seq<Cell>, self: nat, parent: nat, canonical: nat -> nat, offset: nat, resid: nat, capacity: nat,
                 reclen: seq<byte> -> nat)
    returns (out: seq<Dirent>, pos: nat, eof: bool)
    requires offset <= |s| + 2
    ensures offset <= pos <= |s| + 2
    ensures out == Listing(s, self, parent, canonical, offset, pos)
    ensures forall k: nat {:trigger out[k]} :: k < |out| ==>
              || (out[k] == Dirent(1, self, [46]) && offset == 0)
              || (out[k] == Dirent(2, parent, [46, 46]) && offset <= 1)
              || (3 <= out[k].off && offset < out[k].off <= pos && Occupied(s, out[k].off - 3) &&
                  out[k] == Dirent(out[k].off, canonical(s[out[k].off - 3].target), s[out[k].off - 3].name))
    ensures forall k: nat, l: nat :: k < l < |out| ==> out[k].off < out[l].off
    ensures offset == 0 < pos ==> Dirent(1, self, [46]) in out
    ensures offset <= 1 < pos ==> Dirent(2, parent, [46, 46]) in out
    ensures forall p: nat {:trigger s[p]} :: Occupied(s, p) && offset <= p + 2 < pos ==>
              Dirent(p + 3, canonical(s[p].target), s[p].name) in out
    ensures eof <==> pos == |s| + 2
    ensures |out| <= capacity && Used(out, reclen) <= resid
    ensures !eof && pos >= 2 ==> Occupied(s, pos - 2)
    ensures !eof ==>
              var next := if pos == 0 then [46] else if pos == 1 then [46, 46] else s[pos - 2].name;
              |out| == capacity || resid < Used(out, reclen) + reclen(next)
  {
    out, pos := Emit(s, self, parent, canonical, offset, resid, capacity, reclen);
    eof := pos == |s| + 2;
    ListingIs(s, self, parent, canonical, offset, pos, out);
  }

  /** Resuming from the offset stored in a record gives exactly the records after it. */
  lemma ResumeAfter(s: seq<Cell>, self: nat, parent: nat, canonical: nat -> nat, k: nat)
    requires k < |Listing(s, self, parent, canonical, 0, |s| + 2)|
    ensures var all := Listing(s, self, parent, canonical, 0, |s| + 2);
            all[k].off <= |s| + 2 && Listing(s, self, parent, canonical, all[k].off, |s| + 2) == all[k + 1..]
  {
    var all := Listing(s, self, parent, canonical, 0, |s| + 2);
    ListingSound(s, self, parent, canonical, 0, |s| + 2);
    var off := all[k].off;
    ListingSound(s, self, parent, canonical, 0, off);
    ListingSplits(s, self, parent, canonical, 0, off, |s| + 2);
    var first := Listing(s, self, parent, canonical, 0, off);
    assert Record(s, self, parent, canonical, off - 1) == Some(all[k]);
    ListingComplete(s, self, parent, canonical, 0, off, off - 1);
    var j: nat :| j < |first| && first[j] == all[k];
    assert all[j] == first[j];
    assert j == k;
  }

  /** How much one call may return: bytes left to fill, and records. */
  datatype Room = Room(resid: nat, capacity: nat)

  /** The call can return at least one record, whichever comes next. */
  ghost predicate Enough(s: seq<Cell>, room: Room, reclen: seq<byte> -> nat) {
    && room.capacity > 0 && reclen([46]) <= room.resid && reclen([46, 46]) <= room.resid
    && forall p: nat {:trigger s[p]} :: Occupied(s, p) ==> reclen(s[p].name) <= room.resid
  }

  /** One more call. */
  method ReadNext(s: seq<Cell>, self: nat, parent: nat, canonical: nat -> nat, outIn: seq<Dirent>, posIn: nat, r: Room,
                  reclen: seq<byte> -> nat)
    returns (out: seq<Dirent>, pos: nat, eof: bool)
    requires posIn < |s| + 2 && outIn == Listing(s, self, parent, canonical, 0, posIn) && Enough(s, r, reclen)
    ensures posIn < pos <= |s| + 2 && out == Listing(s, self, parent, canonical, 0, pos)
    ensures eof <==> pos == |s| + 2
  {
    var part;
    part, pos, eof := ReadDir(s, self, parent, canonical, posIn, r.resid, r.capacity, reclen);
    ListingSplits(s, self, parent, canonical, 0, posIn, pos);
    out := outIn + part;
  }

  /** Calls with any room of their own, as long as each could return some record, add up to the whole listing:
      the directory, its parent, and every occupied bucket once. */
  method ReadAll(s: seq<Cell>, self: nat, parent: nat, canonical: nat -> nat, room: nat -> Room,
                 reclen: seq<byte> -> nat)
    returns (out: seq<Dirent>)
    requires forall call: nat {:trigger room(call)} :: Enough(s, room(call), reclen)
    ensures out == Listing(s, self, parent, canonical, 0, |s| + 2)
    ensures |out| >= 2 && out[0] == Dirent(1, self, [46]) && out[1] == Dirent(2, parent, [46, 46])
    ensures forall k: nat {:trigger out[k]} :: 2 <= k < |out| ==>
              3 <= out[k].off && Occupied(s, out[k].off - 3) &&
              out[k] == Dirent(out[k].off, canonical(s[out[k].off - 3].target), s[out[k].off - 3].name)
    ensures forall k: nat, l: nat :: k < l < |out| ==> out[k].off < out[l].off
    ensures forall p: nat {:trigger s[p]} :: Occupied(s, p) ==> Dirent(p + 3, canonical(s[p].target), s[p].name) in out
  {
    out := [];
    var pos, eof, call := 0, false, 0;
    while !eof
      invariant pos <= |s| + 2 && out == Listing(s, self, parent, canonical, 0, pos)
      invariant eof <==> pos == |s| + 2
      decreases |s| + 2 - pos
    {
      out, pos, eof := ReadNext(s, self, parent, canonical, out, pos, room(call), reclen);
      call := call + 1;
    }
    WholeListing(s, self, parent, canonical, out);
  }

  lemma WholeListing(s: seq<Cell>, self: nat, parent: nat, canonical: nat -> nat, out: seq<Dirent>)
    requires out == Listing(s, self, parent, canonical, 0, |s| + 2)
    ensures |out| >= 2 && out[0] == Dirent(1, self, [46]) && out[1] == Dirent(2, parent, [46, 46])
    ensures forall k: nat {:trigger out[k]} :: 2 <= k < |out| ==>
              3 <= out[k].off && Occupied(s, out[k].off - 3) &&
              out[k] == Dirent(out[k].off, canonical(s[out[k].off - 3].target), s[out[k].off - 3].name)
    ensures forall k: nat, l: nat :: k < l < |out| ==> out[k].off < out[l].off
    ensures forall p: nat {:trigger s[p]} :: Occupied(s, p) ==> Dirent(p + 3, canonical(s[p].target), s[p].name) in out
  {
    ListingIs(s, self, parent, canonical, 0, |s| + 2, out);
    StartsWithDots(out, Dirent(1, self, [46]), Dirent(2, parent, [46, 46]));
  }

  /** The least two offsets come first. */
  lemma StartsWithDots(out: seq<Dirent>, a: Dirent, b: Dirent)
    requires a in out && b in out && a.off == 1 && b.off == 2
    requires forall k: nat {:trigger out[k]} :: k < |out| ==> 0 < out[k].off
    requires forall k: nat, l: nat :: k < l < |out| ==> out[k].off < out[l].off
    ensures |out| >= 2 && out[0] == a && out[1] == b
    ensures forall k: nat {:trigger out[k]} :: 2 <= k < |out| ==> 3 <= out[k].off
  {
    var i: nat :| i < |out| && out[i] == a;
    var j: nat :| j < |out| && out[j] == b;
    assert out[0].off <= out[i].off;
    assert |out| > 1 && out[0].off < out[1].off <= out[j].off;
  }
}
