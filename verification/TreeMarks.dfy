/** What the breadth-first pass has marked so far, and why a clash means that no tree fits the image. */
module TreeMarks {
  import opened Format
  import opened Counting
  import opened ImageTree

  /** The role map with its meaning: which directory owns each slice cell, which bucket names each object. */
  datatype Marks = Marks(inSlice: seq<bool>, isObject: seq<bool>, queue: seq<nat>, objects: nat,
                         owner: seq<nat>, from: seq<nat>)

  /** No directory and no cell has this number. */
  const NOBODY: nat := MAX_CELLS + 1

  predicate HasOwner(m: Marks, c: nat) {
    c < |m.owner| && m.owner[c] != NOBODY
  }

  predicate IsFrom(m: Marks, t: nat) {
    t < |m.from| && m.from[t] != NOBODY
  }

  ghost function EnteredSet(m: Marks): set<nat> {
    set t: nat | t < |m.from| && m.from[t] != NOBODY
  }

  /** Cell c has been processed: all cells of finished directories, those before i of the current one. */
  ghost predicate Done(m: Marks, cur: nat, i: nat, c: nat) {
    HasOwner(m, c) && (m.owner[c] == cur ==> c < i)
  }

  ghost predicate Flagged(im: Image, m: Marks) {
    && |m.inSlice| == |m.isObject| == |m.owner| == |m.from| == |im.cells|
    && (forall c: nat {:trigger m.inSlice[c]} {:trigger HasOwner(m, c)} :: HasOwner(m, c) <==>
          c < |m.inSlice| && m.inSlice[c])
    && (forall t: nat {:trigger m.isObject[t]} {:trigger IsFrom(m, t)} :: IsFrom(m, t) <==>
          t < |m.isObject| && m.isObject[t])
    && (forall c: nat {:trigger HasOwner(m, c)} :: !(HasOwner(m, c) && IsFrom(m, c)))
    && m.objects == |EnteredSet(m)| < MAX_ENTRIES
  }

  /** Where in the queue the owner of a cell is. */
  lemma OwnerIndex(im: Image, m: Marks, n: nat, c: nat) returns (k: nat)
    requires Claims(im, m, n) && HasOwner(m, c)
    ensures k < n && m.queue[k] == m.owner[c] && In(im, m.queue[k], c)
  {
    assert Owned(im, m, n, c);
    k :| k < n && m.queue[..n][k] == m.owner[c];
  }

  ghost predicate Owned(im: Image, m: Marks, n: nat, c: nat)
    requires n <= |m.queue|
  {
    HasOwner(m, c) && m.owner[c] in m.queue[..n] && In(im, m.owner[c], c)
  }

  /** Exactly the slices of the first n directories are claimed, each cell for its directory. */
  ghost predicate Claims(im: Image, m: Marks, n: nat) {
    && n <= |m.queue|
    && (forall c: nat {:trigger Owned(im, m, n, c)} :: HasOwner(m, c) ==> Owned(im, m, n, c))
    && (forall k: nat, c: nat {:trigger In(im, m.queue[k], c)} :: k < n && In(im, m.queue[k], c) ==>
          HasOwner(m, c) && m.owner[c] == m.queue[k])
  }

  predicate SameKind(im: Image, c: nat, t: nat) {
    c < |im.cells| && t < |im.cells| && im.cells[c].kind == im.cells[t].kind
  }

  /** Objects are exactly the targets of the processed buckets, one bucket each. */
  ghost predicate Entered(im: Image, m: Marks, cur: nat, i: nat) {
    && (forall t: nat {:trigger m.from[t]} :: IsFrom(m, t) ==>
          && Done(m, cur, i, m.from[t]) && IsBucket(im, m.from[t]) && im.cells[m.from[t]].w4 == t
          && SameKind(im, m.from[t], t))
    && (forall c: nat {:trigger Done(m, cur, i, c)} :: Done(m, cur, i, c) && IsBucket(im, c) ==>
          IsFrom(m, im.cells[c].w4) && m.from[im.cells[c].w4] == c)
  }

  predicate IsQueued(im: Image, m: Marks, q: nat) {
    q == |im.cells| || (IsFrom(m, q) && IsBucket(im, m.from[q]) && im.cells[m.from[q]].kind == DIR)
  }

  /** The queue is the root and every directory entered so far, once each. */
  ghost predicate Queued(im: Image, m: Marks) {
    && Rooted(im, m.queue) && Distinct(m.queue)
    && (forall k: nat {:trigger m.queue[k]} :: k < |m.queue| ==> m.queue[k] <= |im.cells|)
    && (forall q: nat {:trigger IsQueued(im, m, q)} :: q in m.queue ==> IsQueued(im, m, q))
    && (forall t: nat {:trigger m.from[t]} ::
          IsFrom(m, t) && IsBucket(im, m.from[t]) && im.cells[m.from[t]].kind == DIR ==> t in m.queue)
  }

  ghost predicate Finished(im: Image, queue: seq<nat>, n: nat)
    requires HeaderOk(im)
  {
    forall k: nat {:trigger queue[k]} :: k < n && k < |queue| ==> DirGood(im, queue[k])
  }

  /** Everything that holds while cell i of directory cur is looked at, the first n directories being claimed. */
  ghost predicate Marked(im: Image, m: Marks, n: nat, cur: nat, i: nat) {
    Flagged(im, m) && Claims(im, m, n) && Entered(im, m, cur, i) && Queued(im, m)
  }

  // ---------------------------------------------------------------- start

  function Fresh(count: nat): Marks {
    Marks(seq(count, _ => false), seq(count, _ => false), [count], 0, seq(count, _ => NOBODY), seq(count, _ => NOBODY))
  }

  lemma FreshMarked(im: Image)
    requires HeaderOk(im)
    ensures Marked(im, Fresh(|im.cells|), 0, NOBODY, 0)
  {
  }

  // ---------------------------------------------------------------- claiming a slice

  ghost predicate Free(im: Image, m: Marks, id: nat)
    requires |m.inSlice| == |m.isObject| == |im.cells| && DirForm(im, id)
  {
    forall c: nat {:trigger m.inSlice[c]} :: In(im, id, c) ==> !m.inSlice[c] && !m.isObject[c]
  }

  ghost function ClaimAll(im: Image, m: Marks, id: nat): Marks
    requires |m.inSlice| == |im.cells|
  {
    m.(inSlice := seq(|m.inSlice|, c requires 0 <= c < |m.inSlice| => m.inSlice[c] || In(im, id, c)),
       owner := seq(|m.owner|, c requires 0 <= c < |m.owner| => if In(im, id, c) then id else m.owner[c]))
  }

  /** The cells of id are now its own, the others as before. */
  ghost predicate Grabbed(im: Image, m: Marks, m': Marks, id: nat) {
    forall c: nat {:trigger HasOwner(m', c)} {:trigger m'.owner[c]} ::
      if In(im, id, c) then HasOwner(m', c) && m'.owner[c] == id && !HasOwner(m, c)
      else (HasOwner(m', c) <==> HasOwner(m, c)) && (HasOwner(m, c) ==> m'.owner[c] == m.owner[c])
  }

  /** m' is m with the slice of id claimed. */
  ghost predicate Claimed(im: Image, m: Marks, m': Marks, id: nat) {
    && Flagged(im, m') && Grabbed(im, m, m', id)
    && m'.queue == m.queue && m'.from == m.from && m'.objects == m.objects && m'.isObject == m.isObject
  }

  lemma ClaimGrabs(im: Image, m: Marks, id: nat)
    requires HeaderOk(im) && id <= |im.cells| && Flagged(im, m) && DirForm(im, id) && Free(im, m, id)
    ensures Claimed(im, m, ClaimAll(im, m, id), id)
  {
    var m' := ClaimAll(im, m, id);
    forall c: nat
      ensures if In(im, id, c) then HasOwner(m', c) && m'.owner[c] == id && !HasOwner(m, c) && !IsFrom(m, c)
              else (HasOwner(m', c) <==> HasOwner(m, c)) && (HasOwner(m, c) ==> m'.owner[c] == m.owner[c])
    {
      if In(im, id, c) {
        assert !m.inSlice[c];
      }
    }
  }

  lemma ClaimClaims(im: Image, m: Marks, m': Marks, n: nat)
    requires Claims(im, m, n) && n < |m.queue| && m'.queue == m.queue && Grabbed(im, m, m', m.queue[n])
    ensures Claims(im, m', n + 1)
  {
    var id := m.queue[n];
    assert m.queue[..n + 1] == m.queue[..n] + [id];
    forall c: nat | HasOwner(m', c)
      ensures Owned(im, m', n + 1, c)
    {
      assert HasOwner(m, c) ==> Owned(im, m, n, c);
    }
    forall k: nat, c: nat {:trigger In(im, m'.queue[k], c)} | k < n + 1 && In(im, m'.queue[k], c)
      ensures HasOwner(m', c) && m'.owner[c] == m'.queue[k]
    {
      if k < n {
        assert HasOwner(m, c) && m.owner[c] == m.queue[k];
      }
    }
  }

  /** Nothing of a directory that was just claimed has been processed, and nothing else has changed. */
  lemma ClaimDone(im: Image, m: Marks, m': Marks, n: nat)
    requires Claims(im, m, n) && n < |m.queue| && Distinct(m.queue) && Grabbed(im, m, m', m.queue[n])
    requires forall k: nat {:trigger m.queue[k]} :: k < |m.queue| ==> m.queue[k] < NOBODY
    ensures forall c: nat {:trigger Done(m', m.queue[n], DirOf(im, m.queue[n]).off, c)} ::
              Done(m', m.queue[n], DirOf(im, m.queue[n]).off, c) <==> Done(m, NOBODY, 0, c)
  {
    var id := m.queue[n];
    forall c: nat | HasOwner(m, c)
      ensures m.owner[c] != id && m.owner[c] != NOBODY
    {
      var k := OwnerIndex(im, m, n, c);
    }
    forall c: nat
      ensures Done(m', id, DirOf(im, id).off, c) <==> Done(m, NOBODY, 0, c)
    {
      assert HasOwner(m', c) <==> HasOwner(m, c) || In(im, id, c);
    }
  }

  lemma ClaimMarked(im: Image, m: Marks, m': Marks, n: nat)
    requires HeaderOk(im) && Marked(im, m, n, NOBODY, 0) && n < |m.queue| && Claimed(im, m, m', m.queue[n])
    ensures Marked(im, m', n + 1, m.queue[n], DirOf(im, m.queue[n]).off)
  {
    var id := m.queue[n];
    ClaimClaims(im, m, m', n);
    ClaimDone(im, m, m', n);
    EnteredSame(im, m, NOBODY, 0, m', id, DirOf(im, id).off);
    QueuedSame(im, m, m');
  }

  lemma QueuedSame(im: Image, m: Marks, m': Marks)
    requires Queued(im, m) && m'.queue == m.queue && m'.from == m.from
    ensures Queued(im, m')
  {
    forall q: nat | q in m.queue
      ensures IsQueued(im, m', q)
    {
      assert IsQueued(im, m, q);
    }
  }

  lemma EnteredSame(im: Image, m: Marks, cur: nat, i: nat, m': Marks, cur': nat, i': nat)
    requires Entered(im, m, cur, i) && m'.from == m.from
    requires forall c: nat {:trigger Done(m', cur', i', c)} :: Done(m', cur', i', c) <==> Done(m, cur, i, c)
    ensures Entered(im, m', cur', i')
  {
    forall t: nat | IsFrom(m, t)
      ensures Done(m', cur', i', m.from[t])
    {
      assert Done(m, cur, i, m.from[t]);
    }
  }

  // ---------------------------------------------------------------- going through the cells

  /** The cells processed one step later. */
  lemma DoneNext(im: Image, m: Marks, n: nat, i: nat)
    requires Claims(im, m, n) && 0 < n && In(im, m.queue[n - 1], i)
    ensures HasOwner(m, i) && m.owner[i] == m.queue[n - 1]
    ensures forall c: nat {:trigger Done(m, m.queue[n - 1], i + 1, c)} ::
              Done(m, m.queue[n - 1], i + 1, c) <==> Done(m, m.queue[n - 1], i, c) || c == i
  {
  }

  /** A cell that holds no bucket changes nothing. */
  lemma PassMarked(im: Image, m: Marks, n: nat, i: nat)
    requires 0 < n <= |m.queue| && Marked(im, m, n, m.queue[n - 1], i) && In(im, m.queue[n - 1], i) && !IsBucket(im, i)
    ensures Marked(im, m, n, m.queue[n - 1], i + 1)
  {
    DoneNext(im, m, n, i);
    EnteredPass(im, m, m.queue[n - 1], i);
  }

  lemma EnteredPass(im: Image, m: Marks, cur: nat, i: nat)
    requires Entered(im, m, cur, i) && !IsBucket(im, i)
    requires forall c: nat {:trigger Done(m, cur, i + 1, c)} :: Done(m, cur, i + 1, c) <==> Done(m, cur, i, c) || c == i
    ensures Entered(im, m, cur, i + 1)
  {
    forall t: nat | IsFrom(m, t)
      ensures Done(m, cur, i + 1, m.from[t])
    {
      assert Done(m, cur, i, m.from[t]);
    }
    forall c: nat | Done(m, cur, i + 1, c) && IsBucket(im, c)
      ensures IsFrom(m, im.cells[c].w4) && m.from[im.cells[c].w4] == c
    {
      assert Done(m, cur, i, c);
    }
  }

  /** A bucket enters its object, and queues it when it is a directory. */
  ghost function EnterOne(im: Image, m: Marks, c: nat): Marks
    requires IsBucket(im, c) && im.cells[c].w4 < |m.isObject| == |m.from|
  {
    var t := im.cells[c].w4;
    m.(isObject := m.isObject[t := true], objects := m.objects + 1, from := m.from[t := c],
       queue := if im.cells[c].kind == DIR then m.queue + [t] else m.queue)
  }

  lemma EnterMarked(im: Image, m: Marks, n: nat, c: nat)
    requires HeaderOk(im) && 0 < n <= |m.queue| && Marked(im, m, n, m.queue[n - 1], c) && In(im, m.queue[n - 1], c)
    requires IsBucket(im, c) && im.cells[c].w4 < |im.cells| && SameKind(im, c, im.cells[c].w4)
    requires !m.inSlice[im.cells[c].w4] && !m.isObject[im.cells[c].w4] && m.objects + 1 < MAX_ENTRIES
    ensures var m' := EnterOne(im, m, c); n <= |m'.queue| && m'.queue[n - 1] == m.queue[n - 1]
    ensures Marked(im, EnterOne(im, m, c), n, m.queue[n - 1], c + 1)
  {
    EnterFlags(im, m, c);
    EnterClaims(im, m, n, c);
    EnterEntered(im, m, n, c);
    EnterQueued(im, m, n, c);
  }

  lemma EnterFlags(im: Image, m: Marks, c: nat)
    requires HeaderOk(im) && Flagged(im, m) && IsBucket(im, c) && im.cells[c].w4 < |im.cells|
    requires !m.inSlice[im.cells[c].w4] && !m.isObject[im.cells[c].w4] && m.objects + 1 < MAX_ENTRIES
    ensures Flagged(im, EnterOne(im, m, c)) && !IsFrom(m, im.cells[c].w4) && !HasOwner(m, im.cells[c].w4)
  {
    var t, m' := im.cells[c].w4, EnterOne(im, m, c);
    assert !HasOwner(m, t) && !IsFrom(m, t);
    assert EnteredSet(m') == EnteredSet(m) + {t};
  }

  lemma EnterClaims(im: Image, m: Marks, n: nat, c: nat)
    requires Claims(im, m, n) && IsBucket(im, c) && im.cells[c].w4 < |m.isObject| == |m.from| == |im.cells|
    ensures Claims(im, EnterOne(im, m, c), n)
  {
    var m' := EnterOne(im, m, c);
    assert m'.queue[..n] == m.queue[..n];
    forall x: nat | HasOwner(m', x)
      ensures Owned(im, m', n, x)
    {
      assert Owned(im, m, n, x);
    }
    forall k: nat, x: nat {:trigger In(im, m'.queue[k], x)} | k < n && In(im, m'.queue[k], x)
      ensures HasOwner(m', x) && m'.owner[x] == m'.queue[k]
    {
      assert In(im, m.queue[k], x);
    }
  }

  lemma EnterEntered(im: Image, m: Marks, n: nat, c: nat)
    requires HeaderOk(im) && 0 < n && Claims(im, m, n) && Entered(im, m, m.queue[n - 1], c) && In(im, m.queue[n - 1], c)
    requires IsBucket(im, c) && im.cells[c].w4 < |m.isObject| == |m.from| == |im.cells| && !IsFrom(m, im.cells[c].w4)
    requires SameKind(im, c, im.cells[c].w4)
    ensures Entered(im, EnterOne(im, m, c), m.queue[n - 1], c + 1)
  {
    var t, cur, m' := im.cells[c].w4, m.queue[n - 1], EnterOne(im, m, c);
    DoneNext(im, m, n, c);
    forall x: nat
      ensures Done(m', cur, c + 1, x) <==> Done(m, cur, c, x) || x == c
    {
      assert Done(m', cur, c + 1, x) <==> Done(m, cur, c + 1, x);
    }
    forall u: nat | IsFrom(m', u)
      ensures Done(m', cur, c + 1, m'.from[u]) && IsBucket(im, m'.from[u]) && im.cells[m'.from[u]].w4 == u
      ensures SameKind(im, m'.from[u], u)
    {
      if u != t {
        assert Done(m, cur, c, m.from[u]);
      }
    }
    forall x: nat | Done(m', cur, c + 1, x) && IsBucket(im, x)
      ensures IsFrom(m', im.cells[x].w4) && m'.from[im.cells[x].w4] == x
    {
      if x != c {
        assert Done(m, cur, c, x);
      }
    }
  }

  lemma EnterQueued(im: Image, m: Marks, n: nat, c: nat)
    requires HeaderOk(im) && 0 < n <= |m.queue| && Queued(im, m) && In(im, m.queue[n - 1], c)
    requires IsBucket(im, c) && im.cells[c].w4 < |m.isObject| == |m.from| == |im.cells| && !IsFrom(m, im.cells[c].w4)
    ensures Queued(im, EnterOne(im, m, c))
  {
    var t, m' := im.cells[c].w4, EnterOne(im, m, c);
    assert !IsQueued(im, m, t);
    assert t !in m.queue;
    if im.cells[c].kind == DIR {
      RootedAppend(im, m.queue, n - 1, c, t);
      assert Distinct(m'.queue) by {
        assert forall k: nat :: k < |m.queue| ==> m.queue[k] in m.queue;
      }
    }
    forall q: nat | q in m'.queue
      ensures IsQueued(im, m', q)
    {
      assert q == t || IsQueued(im, m, q);
    }
  }

  /** After its last cell a directory is finished. */
  lemma EndMarked(im: Image, m: Marks, n: nat, i: nat)
    requires 0 < n <= |m.queue| && Marked(im, m, n, m.queue[n - 1], i)
    requires i == DirOf(im, m.queue[n - 1]).off + DirOf(im, m.queue[n - 1]).size
    requires forall k: nat {:trigger m.queue[k]} :: k < |m.queue| ==> m.queue[k] < NOBODY
    ensures Marked(im, m, n, NOBODY, 0)
  {
    forall c: nat
      ensures Done(m, NOBODY, 0, c) <==> Done(m, m.queue[n - 1], i, c)
    {
      if HasOwner(m, c) {
        var k := OwnerIndex(im, m, n, c);
      }
    }
    EnteredSame(im, m, m.queue[n - 1], i, m, NOBODY, 0);
  }

  // ---------------------------------------------------------------- the end

  /** With every queued directory finished, the queue is the tree. */
  lemma QueueIsTree(im: Image, m: Marks)
    requires HeaderOk(im) && AttrForm(im, DIR, im.rootAttr)
    requires Marked(im, m, |m.queue|, NOBODY, 0) && Finished(im, m.queue, |m.queue|)
    requires forall k: nat {:trigger m.queue[k]} :: k < |m.queue| ==> m.queue[k] < NOBODY
    ensures TreeOk(im, m.queue)
  {
    var q := m.queue;
    assert q[..|q|] == q;
    forall c: nat | HasOwner(m, c)
      ensures Done(m, NOBODY, 0, c)
    {
      var k := OwnerIndex(im, m, |q|, c);
    }
    forall j: nat, c: nat, t: nat {:trigger IsChild(im, q[j], c, t)} | j < |q| && IsChild(im, q[j], c, t)
      ensures HasOwner(m, c) && IsFrom(m, t) && m.from[t] == c
    {
      assert In(im, q[j], c);
      assert Done(m, NOBODY, 0, c);
    }
    assert Closed(im, q);
    assert Disjoint(im, q);
    assert OneEntryEach(im, q);
    ObjectsEntered(im, m);
  }

  lemma ObjectsEntered(im: Image, m: Marks)
    requires Flagged(im, m)
    requires forall j: nat, c: nat, t: nat {:trigger IsChild(im, m.queue[j], c, t)} ::
               j < |m.queue| && IsChild(im, m.queue[j], c, t) ==> IsFrom(m, t)
    ensures |Objects(im, m.queue)| < MAX_ENTRIES
  {
    assert Objects(im, m.queue) <= EnteredSet(m);
    SubsetSize(Objects(im, m.queue), EnteredSet(m));
  }

  // ---------------------------------------------------------------- clashes

  /** Any tree of the image has every directory of the queue. */
  lemma {:induction false} QueueInside(im: Image, m: Marks, order: seq<nat>, k: nat)
    requires HeaderOk(im) && Rooted(im, m.queue) && TreeOk(im, order) && k < |m.queue|
    ensures m.queue[k] in order
    decreases k
  {
    if k > 0 {
      assert EnteredAt(im, m.queue, k);
      var j: nat, c: nat :| j < k && IsChild(im, m.queue[j], c, m.queue[k]) && im.cells[c].kind == DIR;
      assert IsChild(im, m.queue[j], c, m.queue[k]);
      QueueInside(im, m, order, j);
      var p: nat :| p < |order| && order[p] == m.queue[j];
      assert IsChild(im, order[p], c, m.queue[k]);
    }
  }

  lemma AllInside(im: Image, m: Marks, order: seq<nat>)
    requires HeaderOk(im) && Rooted(im, m.queue) && TreeOk(im, order)
    ensures forall k: nat {:trigger m.queue[k]} :: k < |m.queue| ==> m.queue[k] in order
  {
    forall k: nat | k < |m.queue|
      ensures m.queue[k] in order
    {
      QueueInside(im, m, order, k);
    }
  }

  /** A directory with a fault of its own is in no tree. */
  lemma BadDirectory(im: Image, m: Marks, k: nat)
    requires HeaderOk(im) && Rooted(im, m.queue) && k < |m.queue| && !DirGood(im, m.queue[k])
    ensures !Accepted(im)
  {
    if order: seq<nat> :| TreeOk(im, order) {
      QueueInside(im, m, order, k);
    }
  }

  ghost predicate InTree(im: Image, order: seq<nat>, c: nat) {
    exists r: nat {:trigger order[r]} :: r < |order| && In(im, order[r], c)
  }

  ghost predicate ChildInTree(im: Image, order: seq<nat>, c: nat, t: nat) {
    exists r: nat {:trigger order[r]} :: r < |order| && IsChild(im, order[r], c, t)
  }

  /** What is claimed or entered so far is so in any tree of the image. */
  lemma MarksInside(im: Image, m: Marks, n: nat, cur: nat, i: nat, order: seq<nat>)
    requires HeaderOk(im) && Marked(im, m, n, cur, i) && TreeOk(im, order)
    ensures forall c: nat {:trigger m.owner[c]} :: HasOwner(m, c) ==> InTree(im, order, c)
    ensures forall t: nat {:trigger m.from[t]} :: IsFrom(m, t) ==> ChildInTree(im, order, m.from[t], t)
  {
    AllInside(im, m, order);
    forall c: nat | HasOwner(m, c)
      ensures exists r: nat :: r < |order| && order[r] == m.owner[c] && In(im, order[r], c)
    {
      var k := OwnerIndex(im, m, n, c);
      assert m.queue[k] in order;
      var r: nat :| r < |order| && order[r] == m.queue[k];
      assert order[r] == m.owner[c];
    }
    forall t: nat | IsFrom(m, t)
      ensures ChildInTree(im, order, m.from[t], t)
    {
      var c := m.from[t];
      assert Done(m, cur, i, c);
      var r: nat :| r < |order| && order[r] == m.owner[c] && In(im, order[r], c);
      assert IsChild(im, order[r], c, t);
    }
  }

  /** In a tree an object is in no slice and has one bucket. */
  lemma TreeRoles(im: Image, order: seq<nat>, c: nat, t: nat)
    requires HeaderOk(im) && TreeOk(im, order) && ChildInTree(im, order, c, t)
    ensures !InTree(im, order, t)
    ensures forall c': nat {:trigger ChildInTree(im, order, c', t)} :: ChildInTree(im, order, c', t) ==> c' == c
  {
    var r: nat :| r < |order| && IsChild(im, order[r], c, t);
    assert IsChild(im, order[r], c, t);
    forall q: nat | q < |order|
      ensures !In(im, order[q], t)
    {
    }
  }

  /** A claimed cell belongs to the same directory in every tree. */
  lemma OwnerSame(im: Image, m: Marks, n: nat, order: seq<nat>, c: nat, p: nat)
    requires HeaderOk(im) && Claims(im, m, n) && Rooted(im, m.queue) && TreeOk(im, order)
    requires HasOwner(m, c) && p < |order| && In(im, order[p], c)
    ensures order[p] == m.owner[c]
  {
    var k := OwnerIndex(im, m, n, c);
    QueueInside(im, m, order, k);
    var r: nat :| r < |order| && order[r] == m.queue[k];
    assert In(im, order[r], c) && In(im, order[p], c);
  }

  lemma OwnerEarlier(im: Image, m: Marks, n: nat, c: nat)
    requires Claims(im, m, n) && Distinct(m.queue) && n < |m.queue| && HasOwner(m, c)
    ensures m.owner[c] != m.queue[n]
  {
    var k := OwnerIndex(im, m, n, c);
  }

  lemma ObjectOutside(im: Image, m: Marks, n: nat, cur: nat, i: nat, order: seq<nat>, t: nat)
    requires HeaderOk(im) && Marked(im, m, n, cur, i) && TreeOk(im, order) && IsFrom(m, t)
    ensures !InTree(im, order, t)
  {
    MarksInside(im, m, n, cur, i, order);
    TreeRoles(im, order, m.from[t], t);
  }

  /** A slice that runs into another slice or over an object fits no tree. */
  lemma SliceClash(im: Image, m: Marks, n: nat, c: nat)
    requires HeaderOk(im) && Marked(im, m, n, NOBODY, 0) && n < |m.queue| && In(im, m.queue[n], c) && c < |im.cells|
    requires m.inSlice[c] || m.isObject[c]
    ensures !Accepted(im)
  {
    if HasOwner(m, c) {
      OwnerEarlier(im, m, n, c);
    }
    if order: seq<nat> :| TreeOk(im, order) {
      if IsFrom(m, c) {
        ObjectOutside(im, m, n, NOBODY, 0, order, c);
      }
      QueueInside(im, m, order, n);
      var p: nat :| p < |order| && order[p] == m.queue[n];
      if HasOwner(m, c) {
        OwnerSame(im, m, n, order, c, p);
      }
    }
  }

  /** An object inside a claimed slice, or with two buckets, fits no tree. */
  lemma TargetClash(im: Image, m: Marks, n: nat, c: nat)
    requires HeaderOk(im) && 0 < n <= |m.queue| && Marked(im, m, n, m.queue[n - 1], c) && In(im, m.queue[n - 1], c)
    requires IsBucket(im, c) && im.cells[c].w4 < |im.cells|
    requires m.inSlice[im.cells[c].w4] || m.isObject[im.cells[c].w4]
    ensures !Accepted(im)
  {
    var t := im.cells[c].w4;
    NotYet(im, m, n, c);
    if order: seq<nat> :| TreeOk(im, order) {
      MarksInside(im, m, n, m.queue[n - 1], c, order);
      BucketInside(im, m, n, c, order);
      assert IsFrom(m, t) ==> ChildInTree(im, order, m.from[t], t);
      TreeRoles(im, order, c, t);
    }
  }

  /** The bucket being looked at has not entered anything yet. */
  lemma NotYet(im: Image, m: Marks, n: nat, c: nat)
    requires 0 < n <= |m.queue| && Marked(im, m, n, m.queue[n - 1], c) && In(im, m.queue[n - 1], c)
    ensures forall t: nat :: IsFrom(m, t) ==> m.from[t] != c
  {
    DoneNext(im, m, n, c);
    forall t: nat | IsFrom(m, t)
      ensures m.from[t] != c
    {
      assert Done(m, m.queue[n - 1], c, m.from[t]);
    }
  }

  lemma BucketInside(im: Image, m: Marks, n: nat, c: nat, order: seq<nat>)
    requires HeaderOk(im) && Rooted(im, m.queue) && TreeOk(im, order)
    requires 0 < n <= |m.queue| && In(im, m.queue[n - 1], c) && IsBucket(im, c)
    ensures ChildInTree(im, order, c, im.cells[c].w4)
  {
    QueueInside(im, m, order, n - 1);
    var p: nat :| p < |order| && order[p] == m.queue[n - 1];
    assert IsChild(im, order[p], c, im.cells[c].w4);
  }

  /** Too many objects for any tree. */
  lemma TooMany(im: Image, m: Marks, n: nat, c: nat)
    requires HeaderOk(im) && 0 < n <= |m.queue| && Marked(im, m, n, m.queue[n - 1], c) && In(im, m.queue[n - 1], c)
    requires IsBucket(im, c) && im.cells[c].w4 < |im.cells| && !m.isObject[im.cells[c].w4]
    requires m.objects + 1 >= MAX_ENTRIES
    ensures !Accepted(im)
  {
    if order: seq<nat> :| TreeOk(im, order) {
      MarksInside(im, m, n, m.queue[n - 1], c, order);
      BucketInside(im, m, n, c, order);
      ManyObjects(im, m, order, c);
    }
  }

  lemma ManyObjects(im: Image, m: Marks, order: seq<nat>, c: nat)
    requires HeaderOk(im) && Flagged(im, m) && IsBucket(im, c) && im.cells[c].w4 < |im.cells|
    requires !m.isObject[im.cells[c].w4]
    requires forall t: nat {:trigger m.from[t]} :: IsFrom(m, t) ==> ChildInTree(im, order, m.from[t], t)
    requires ChildInTree(im, order, c, im.cells[c].w4)
    ensures |Objects(im, order)| >= m.objects + 1
  {
    var u := im.cells[c].w4;
    forall t: nat | t in EnteredSet(m)
      ensures HasEntry(im, order, t) && t < |im.cells|
    {
      ChildHasEntry(im, order, m.from[t], t);
    }
    ChildHasEntry(im, order, c, u);
    OneMore(im, order, EnteredSet(m), u);
  }

  lemma OneMore(im: Image, order: seq<nat>, some: set<nat>, u: nat)
    requires u !in some && forall t: nat :: t in some + {u} ==> HasEntry(im, order, t) && t < |im.cells|
    ensures |Objects(im, order)| >= |some| + 1
  {
    SubsetSize(some + {u}, Objects(im, order));
  }

  lemma ChildHasEntry(im: Image, order: seq<nat>, c: nat, t: nat)
    requires ChildInTree(im, order, c, t)
    ensures HasEntry(im, order, t)
  {
    var r: nat :| r < |order| && IsChild(im, order[r], c, t);
    assert IsChild(im, order[r], c, t);
  }
}
