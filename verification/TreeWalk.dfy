/** `ff_validate`'s queue (ko/image.c:189-248): from the header's root, directory by directory.  It succeeds
    exactly on images that have a tree of directories, and then the queue is that tree. */
module TreeWalk {
  import opened Format
  import opened Counting
  import opened Sweep
  import opened ImageTree
  import opened TreeMarks
  import opened TreeNodes
  import Slice
  import Chains

  /** A name and the directory it is in. */
  datatype Entry = Entry(name: seq<byte>, dir: nat)

  /** Everything the pass keeps: roles, nodes, attributes in use, names and the references to their bytes,
      with the buckets they come from. */
  datatype Work = Work(m: Marks, nodes: seq<Node>, attr: seq<bool>, names: seq<Entry>, refs: seq<Ref>, seen: seq<nat>)

  /** A name on the list, from bucket c. */
  ghost predicate NameFits(im: Image, m: Marks, c: nat, e: Entry)
    requires HeaderOk(im)
  {
    && IsBucket(im, c) && HasOwner(m, c) && IsFrom(m, im.cells[c].w4) && m.from[im.cells[c].w4] == c
    && NameAt(im, im.cells[c].w8) == Some(e.name) && e.dir == m.owner[c]
  }

  /** One name for each object entered. */
  ghost predicate Named(im: Image, w: Work)
    requires HeaderOk(im)
  {
    && |w.names| == |w.seen| == w.m.objects && Distinct(w.seen)
    && (forall k: nat {:trigger w.names[k]} {:trigger w.seen[k]} :: k < |w.seen| ==>
          NameFits(im, w.m, w.seen[k], w.names[k]))
    && (forall t: nat {:trigger Listed(w, t)} :: IsFrom(w.m, t) ==> Listed(w, t))
  }

  predicate Listed(w: Work, t: nat) {
    IsFrom(w.m, t) && w.m.from[t] in w.seen
  }

  /** Each name's bytes are referenced, publicly when its directory can be listed. */
  ghost predicate Referenced(im: Image, w: Work) {
    && |w.refs| == |w.names| == |w.seen| && |w.nodes| == |im.cells| + 1
    && forall k: nat {:trigger w.refs[k]} :: k < |w.refs| ==>
         && w.seen[k] < |im.cells| && w.names[k].dir <= |im.cells|
         && w.refs[k] == Ref(im.cells[w.seen[k]].w8, |w.names[k].name|, false, w.nodes[w.names[k].dir].names)
  }

  ghost predicate InUse(im: Image, m: Marks, a: nat) {
    a == im.rootAttr || exists t: nat {:trigger IsFrom(m, t)} ::
      IsFrom(m, t) && t < |im.cells| && im.cells[t].kind != LINK && im.cells[t].half == a
  }

  ghost predicate AttrsUsed(im: Image, w: Work) {
    |w.attr| == |im.cells| && forall a: nat {:trigger w.attr[a]} :: a < |w.attr| ==> (w.attr[a] <==> InUse(im, w.m, a))
  }

  /** Everything that holds while cell i of directory cur is looked at. */
  ghost predicate Sound(im: Image, w: Work, n: nat, cur: nat, i: nat) {
    && HeaderOk(im) && Marked(im, w.m, n, cur, i) && Decoded(im, w.m, w.nodes) && Named(im, w) && Referenced(im, w)
    && AttrsUsed(im, w)
  }

  // ---------------------------------------------------------------- steps

  lemma QueueBelow(im: Image, m: Marks)
    requires HeaderOk(im) && Queued(im, m)
    ensures |m.queue| <= |im.cells| + 1
    ensures forall k: nat {:trigger m.queue[k]} :: k < |m.queue| ==> m.queue[k] < NOBODY
  {
    Pigeonhole(m.queue, |im.cells| + 1);
  }

  lemma FromOwned(im: Image, m: Marks, cur: nat, i: nat)
    requires Entered(im, m, cur, i)
    ensures forall t: nat {:trigger m.from[t]} :: IsFrom(m, t) ==> HasOwner(m, m.from[t])
  {
    forall t: nat | IsFrom(m, t)
      ensures HasOwner(m, m.from[t])
    {
      assert Done(m, cur, i, m.from[t]);
    }
  }

  lemma ClaimSound(im: Image, w: Work, w': Work, n: nat)
    requires Sound(im, w, n, NOBODY, 0) && n < |w.m.queue| && w' == w.(m := w'.m)
    requires Claimed(im, w.m, w'.m, w.m.queue[n])
    ensures Sound(im, w', n + 1, w.m.queue[n], DirOf(im, w.m.queue[n]).off)
  {
    var id := w.m.queue[n];
    ClaimMarked(im, w.m, w'.m, n);
    FromOwned(im, w.m, NOBODY, 0);
    ClaimDecoded(im, w.m, w'.m, w.nodes, id);
    assert w'.refs == w.refs && w'.names == w.names && w'.seen == w.seen && w'.nodes == w.nodes;
    ClaimNamed(im, w, w', id);
    ClaimUsed(im, w, w');
    SameReferences(im, w, w');
  }

  lemma SameReferences(im: Image, w: Work, w': Work)
    requires Referenced(im, w) && w'.refs == w.refs && w'.names == w.names && w'.seen == w.seen && w'.nodes == w.nodes
    ensures Referenced(im, w')
  {
    forall k: nat | k < |w'.refs|
      ensures && w'.seen[k] < |im.cells| && w'.names[k].dir <= |im.cells|
              && w'.refs[k] == Ref(im.cells[w'.seen[k]].w8, |w'.names[k].name|, false, w'.nodes[w'.names[k].dir].names)
    {
      assert w'.refs[k] == w.refs[k];
    }
  }

  lemma ClaimUsed(im: Image, w: Work, w': Work)
    requires AttrsUsed(im, w) && w'.attr == w.attr && w'.m.from == w.m.from
    ensures AttrsUsed(im, w')
  {
    forall a: nat | a < |w.attr|
      ensures w.attr[a] <==> InUse(im, w'.m, a)
    {
      if InUse(im, w.m, a) && a != im.rootAttr {
        var t: nat :| IsFrom(w.m, t) && t < |im.cells| && im.cells[t].kind != LINK && im.cells[t].half == a;
        assert IsFrom(w'.m, t);
      }
      if InUse(im, w'.m, a) && a != im.rootAttr {
        var t: nat :| IsFrom(w'.m, t) && t < |im.cells| && im.cells[t].kind != LINK && im.cells[t].half == a;
        assert IsFrom(w.m, t);
      }
    }
  }

  lemma ClaimNamed(im: Image, w: Work, w': Work, id: nat)
    requires HeaderOk(im) && Named(im, w) && w'.names == w.names && w'.seen == w.seen
    requires w'.m.from == w.m.from && w'.m.objects == w.m.objects && Grabbed(im, w.m, w'.m, id)
    ensures Named(im, w')
  {
    forall k: nat | k < |w.seen|
      ensures NameFits(im, w'.m, w.seen[k], w.names[k])
    {
      assert NameFits(im, w.m, w.seen[k], w.names[k]);
      assert HasOwner(w'.m, w.seen[k]);
    }
    forall t: nat | IsFrom(w'.m, t)
      ensures Listed(w', t)
    {
      assert Listed(w, t);
    }
  }

  lemma PassSound(im: Image, w: Work, n: nat, i: nat)
    requires 0 < n <= |w.m.queue| && Sound(im, w, n, w.m.queue[n - 1], i) && In(im, w.m.queue[n - 1], i)
    requires !IsBucket(im, i)
    ensures Sound(im, w, n, w.m.queue[n - 1], i + 1)
  {
    PassMarked(im, w.m, n, i);
  }

  lemma EndSound(im: Image, w: Work, n: nat, i: nat)
    requires 0 < n <= |w.m.queue| && Sound(im, w, n, w.m.queue[n - 1], i)
    requires i == DirOf(im, w.m.queue[n - 1]).off + DirOf(im, w.m.queue[n - 1]).size
    ensures Sound(im, w, n, NOBODY, 0)
  {
    QueueBelow(im, w.m);
    EndMarked(im, w.m, n, i);
  }

  /** Everything after bucket c of directory cur. */
  ghost function EnterWork(im: Image, w: Work, cur: nat, c: nat): Work
    requires HeaderOk(im) && IsBucket(im, c) && im.cells[c].w4 < |im.cells| == |w.m.isObject| == |w.m.from| == |w.attr|
    requires |w.nodes| == |im.cells| + 1
    requires cur < |w.nodes| && NameAt(im, im.cells[c].w8).Some?
  {
    var p := im.cells[c];
    var name := NameAt(im, p.w8).value;
    var o := im.cells[p.w4];
    Work(EnterOne(im, w.m, c), WithNode(im, w.nodes, cur, c),
         if p.kind != LINK && o.half < |w.attr| then w.attr[o.half := true] else w.attr,
         w.names + [Entry(name, cur)], w.refs + [Ref(p.w8, |name|, false, w.nodes[cur].names)], w.seen + [c])
  }

  /** The directory being scanned is decoded, and nothing has been entered from an object that is new. */
  lemma Scanning(im: Image, w: Work, n: nat, c: nat)
    requires 0 < n <= |w.m.queue| && Sound(im, w, n, w.m.queue[n - 1], c) && In(im, w.m.queue[n - 1], c)
    ensures var cur := w.m.queue[n - 1];
            && cur <= |im.cells| && HasOwner(w.m, c) && w.m.owner[c] == cur && (cur < |im.cells| ==> IsFrom(w.m, cur))
    ensures forall u: nat :: !IsFrom(w.m, u) && u < |im.cells| ==> Barren(w.m, u)
  {
    var m, cur := w.m, w.m.queue[n - 1];
    DoneNext(im, m, n, c);
    FromOwned(im, m, cur, c);
    assert cur in m.queue;
    assert IsQueued(im, m, cur);
    forall u: nat, t: nat {:trigger ParentOf(m, t), IsFrom(m, u)} | !IsFrom(m, u) && u < |im.cells| && IsFrom(m, t)
      ensures ParentOf(m, t) != u
    {
      var k := OwnerIndex(im, m, n, m.from[t]);
      assert IsQueued(im, m, m.queue[k]);
    }
  }

  lemma EnterSound(im: Image, w: Work, n: nat, c: nat)
    requires 0 < n <= |w.m.queue| && Sound(im, w, n, w.m.queue[n - 1], c) && In(im, w.m.queue[n - 1], c)
    requires c < |im.cells| && BucketForm(im, w.m.queue[n - 1], c)
    requires !w.m.inSlice[im.cells[c].w4] && !w.m.isObject[im.cells[c].w4] && w.m.objects + 1 < MAX_ENTRIES
    requires w.nodes[w.m.queue[n - 1]].kind == DIR
    ensures var w' := EnterWork(im, w, w.m.queue[n - 1], c);
            && n <= |w'.m.queue| && w'.m.queue[n - 1] == w.m.queue[n - 1]
            && Sound(im, w', n, w.m.queue[n - 1], c + 1)
  {
    var cur, u := w.m.queue[n - 1], im.cells[c].w4;
    var w' := EnterWork(im, w, cur, c);
    Scanning(im, w, n, c);
    EnterFlags(im, w.m, c);
    EnterMarked(im, w.m, n, c);
    EnterDecoded(im, w.m, w.nodes, c, cur);
    NotYet(im, w.m, n, c);
    EnterLists(im, w, w', c, cur);
  }

  lemma EnterLists(im: Image, w: Work, w': Work, c: nat, cur: nat)
    requires HeaderOk(im) && Named(im, w) && Referenced(im, w) && AttrsUsed(im, w)
    requires c < |im.cells| && BucketForm(im, cur, c) && |w.m.isObject| == |w.m.from| == |im.cells|
    requires HasOwner(w.m, c) && w.m.owner[c] == cur <= |im.cells| && !IsFrom(w.m, im.cells[c].w4)
    requires im.cells[c].w4 != cur
    requires Barren(w.m, im.cells[c].w4) && forall t: nat :: IsFrom(w.m, t) ==> w.m.from[t] != c
    requires w' == EnterWork(im, w, cur, c)
    ensures Named(im, w') && Referenced(im, w') && AttrsUsed(im, w')
  {
    EnterNamed(im, w, w', c, cur);
    NamesElsewhere(im, w, im.cells[c].w4);
    EnterReferenced(im, w, w', c, cur);
    EnterUsed(im, w, w', c, cur);
  }

  lemma EnterNamed(im: Image, w: Work, w': Work, c: nat, cur: nat)
    requires HeaderOk(im) && Named(im, w) && c < |im.cells| && BucketForm(im, cur, c) && !IsFrom(w.m, im.cells[c].w4)
    requires |w.m.isObject| == |w.m.from| == |im.cells| && HasOwner(w.m, c) && w.m.owner[c] == cur
    requires forall t: nat :: IsFrom(w.m, t) ==> w.m.from[t] != c
    requires w'.m == EnterOne(im, w.m, c) && w'.seen == w.seen + [c]
    requires w'.names == w.names + [Entry(NameAt(im, im.cells[c].w8).value, cur)]
    ensures Named(im, w')
  {
    forall k: nat | k < |w'.seen|
      ensures NameFits(im, w'.m, w'.seen[k], w'.names[k])
      ensures k < |w.seen| ==> w'.seen[k] != c
    {
      if k < |w.seen| {
        assert NameFits(im, w.m, w.seen[k], w.names[k]);
      }
    }
    forall t: nat | IsFrom(w'.m, t)
      ensures Listed(w', t)
    {
      if t != im.cells[c].w4 {
        assert Listed(w, t);
      }
    }
  }

  lemma NamesElsewhere(im: Image, w: Work, u: nat)
    requires HeaderOk(im) && Named(im, w) && Barren(w.m, u)
    ensures forall k: nat {:trigger w.names[k]} :: k < |w.names| ==> w.names[k].dir != u
  {
    forall k: nat | k < |w.names|
      ensures w.names[k].dir != u
    {
      assert NameFits(im, w.m, w.seen[k], w.names[k]);
      assert ParentOf(w.m, im.cells[w.seen[k]].w4) == w.names[k].dir;
    }
  }

  lemma OldFlags(im: Image, nodes: seq<Node>, cur: nat, c: nat)
    requires |nodes| == |im.cells| + 1 && cur < |nodes| && IsBucket(im, c) && im.cells[c].w4 < |im.cells|
    ensures forall d: nat {:trigger WithNode(im, nodes, cur, c)[d]} :: d < |nodes| && d != im.cells[c].w4 ==>
              WithNode(im, nodes, cur, c)[d].names == nodes[d].names
  {
  }

  lemma EnterReferenced(im: Image, w: Work, w': Work, c: nat, cur: nat)
    requires HeaderOk(im) && Referenced(im, w) && c < |im.cells| && BucketForm(im, cur, c) && cur <= |im.cells|
    requires cur != im.cells[c].w4
    requires forall k: nat {:trigger w.names[k]} :: k < |w.names| ==> w.names[k].dir != im.cells[c].w4
    requires w'.seen == w.seen + [c] && w'.names == w.names + [Entry(NameAt(im, im.cells[c].w8).value, cur)]
    requires w'.nodes == WithNode(im, w.nodes, cur, c)
    requires w'.refs == w.refs + [Ref(im.cells[c].w8, |NameAt(im, im.cells[c].w8).value|, false, w.nodes[cur].names)]
    ensures Referenced(im, w')
  {
    OldFlags(im, w.nodes, cur, c);
    forall k: nat | k < |w'.refs|
      ensures && w'.seen[k] < |im.cells| && w'.names[k].dir <= |im.cells|
              && w'.refs[k] == Ref(im.cells[w'.seen[k]].w8, |w'.names[k].name|, false, w'.nodes[w'.names[k].dir].names)
    {
      if k < |w.refs| {
        assert w'.refs[k] == w.refs[k] && w'.names[k] == w.names[k] && w'.seen[k] == w.seen[k];
      }
    }
  }

  lemma EnterUsed(im: Image, w: Work, w': Work, c: nat, cur: nat)
    requires HeaderOk(im) && AttrsUsed(im, w) && c < |im.cells| && BucketForm(im, cur, c)
    requires !IsFrom(w.m, im.cells[c].w4)
    requires |w.m.isObject| == |w.m.from| == |im.cells| && w'.m == EnterOne(im, w.m, c)
    requires var p := im.cells[c]; var o := im.cells[p.w4];
             w'.attr == if p.kind != LINK && o.half < |w.attr| then w.attr[o.half := true] else w.attr
    ensures AttrsUsed(im, w')
  {
    var u := im.cells[c].w4;
    assert IsFrom(w'.m, u) && w'.m.from[u] == c;
    forall a: nat | a < |w'.attr|
      ensures w'.attr[a] <==> InUse(im, w'.m, a)
    {
      if InUse(im, w.m, a) && a != im.rootAttr {
        var t: nat :| IsFrom(w.m, t) && t < |im.cells| && im.cells[t].kind != LINK && im.cells[t].half == a;
        assert IsFrom(w'.m, t) && w'.m.from[t] == w.m.from[t];
      }
      if InUse(im, w'.m, a) && a != im.rootAttr {
        var t: nat :| IsFrom(w'.m, t) && t < |im.cells| && im.cells[t].kind != LINK && im.cells[t].half == a;
        assert t == u || (IsFrom(w.m, t) && w.m.from[t] == w'.m.from[t]);
      }
    }
  }

  // ---------------------------------------------------------------- the pass

  /** `Sound`, closed: methods carry it along and only the lemmas below look inside. */
  ghost predicate Held(im: Image, w: Work, n: nat, cur: nat, i: nat) {
    HeaderOk(im) && forall k: nat {:trigger Key(k)} :: Key(k) ==> Sound(im, w, n, cur, i)
  }

  /** The image has no tree; closed. */
  ghost predicate Refused(im: Image) {
    forall k: nat {:trigger Key(k)} :: Key(k) ==> HeaderOk(im) && !Accepted(im)
  }

  lemma Open(im: Image, w: Work, n: nat, cur: nat, i: nat)
    requires Held(im, w, n, cur, i)
    ensures Sound(im, w, n, cur, i)
  {
    assert Key(0);
  }

  lemma Sizes(im: Image, w: Work, n: nat, cur: nat, i: nat)
    requires Held(im, w, n, cur, i)
    ensures |w.m.inSlice| == |w.m.isObject| == |w.m.from| == |w.m.owner| == |w.attr| == |im.cells|
    ensures |w.nodes| == |im.cells| + 1
    ensures n <= |w.m.queue| <= |im.cells| + 1
    ensures forall k: nat {:trigger w.m.queue[k]} :: k < |w.m.queue| ==> w.m.queue[k] <= |im.cells|
  {
    Open(im, w, n, cur, i);
    QueueBelow(im, w.m);
  }

  lemma QueuedDir(im: Image, w: Work, n: nat, cur: nat, i: nat, k: nat)
    requires Sound(im, w, n, cur, i) && k < |w.m.queue|
    ensures w.m.queue[k] < |w.nodes| && w.nodes[w.m.queue[k]].kind == DIR
  {
    var q := w.m.queue[k];
    assert q in w.m.queue;
    assert IsQueued(im, w.m, q);
    if IsFrom(w.m, q) {
      assert SameKind(im, w.m.from[q], q);
      assert NodeFits(im, w.m, w.nodes, q);
    }
  }

  /** The root's slot and nothing else. */
  ghost function Initial(im: Image): Work {
    Work(Fresh(|im.cells|), seq(|im.cells|, _ => BLANK) + [RootNode(im)],
         seq(|im.cells|, a requires a >= 0 => a == im.rootAttr), [], [], [])
  }

  lemma InitialSound(im: Image)
    requires HeaderOk(im)
    ensures Sound(im, Initial(im), 0, NOBODY, 0)
  {
    FreshMarked(im);
    FreshDecoded(im, Initial(im).nodes);
  }

  /** Buckets among the first k cells of a slice. */
  function BucketCount(s: seq<Slice.Cell>, k: nat): nat
    requires k <= |s|
  {
    if k == 0 then 0 else BucketCount(s, k - 1) + (if s[k - 1].Bucket? then 1 else 0)
  }

  ghost function BucketsBelow(s: seq<Slice.Cell>, k: nat): set<nat> {
    set i: nat | i < k && i < |s| && s[i].Bucket?
  }

  lemma {:induction false} CountIsSize(s: seq<Slice.Cell>, k: nat)
    requires k <= |s|
    ensures |BucketsBelow(s, k)| == BucketCount(s, k)
  {
    if k == 0 {
      assert BucketsBelow(s, 0) == {};
    } else {
      CountIsSize(s, k - 1);
      if s[k - 1].Bucket? {
        assert BucketsBelow(s, k) == BucketsBelow(s, k - 1) + {k - 1};
      } else {
        assert BucketsBelow(s, k) == BucketsBelow(s, k - 1);
      }
    }
  }

  /** The queue has grown from what it was, the cells of its n-th directory before c are scanned, and this many
      of them are buckets; closed (see `Key`). */
  ghost predicate Scanned(im: Image, was: seq<nat>, w: Work, n: nat, id: nat, c: nat, entries: nat) {
    forall k: nat {:trigger Key(k)} :: Key(k) ==>
      && 0 < n <= |was| && was <= w.m.queue && was[n - 1] == id && DirForm(im, id)
      && Held(im, w, n, id, c) && FormedBelow(im, id, c, entries)
  }

  /** All cells are scanned. */
  ghost predicate ScannedAll(im: Image, was: seq<nat>, w: Work, n: nat, id: nat, entries: nat) {
    Scanned(im, was, w, n, id, DirOf(im, id).off + DirOf(im, id).size, entries)
  }

  lemma AllScanned(im: Image, was: seq<nat>, w: Work, n: nat, id: nat, c: nat, entries: nat)
    requires Scanned(im, was, w, n, id, c, entries) && c == DirOf(im, id).off + DirOf(im, id).size
    ensures ScannedAll(im, was, w, n, id, entries)
  {
  }

  lemma OpenScanned(im: Image, was: seq<nat>, w: Work, n: nat, id: nat, c: nat, entries: nat)
    requires Scanned(im, was, w, n, id, c, entries)
    ensures 0 < n <= |was| && was <= w.m.queue && was[n - 1] == id && DirForm(im, id)
    ensures Held(im, w, n, id, c) && FormedBelow(im, id, c, entries)
  {
    assert Key(0);
  }

  lemma ScanStart(im: Image, w: Work, n: nat)
    requires 0 < n <= |w.m.queue| && DirForm(im, w.m.queue[n - 1])
    requires Held(im, w, n, w.m.queue[n - 1], DirOf(im, w.m.queue[n - 1]).off)
    ensures Scanned(im, w.m.queue, w, n, w.m.queue[n - 1], DirOf(im, w.m.queue[n - 1]).off, 0)
  {
    NoneFormed(im, w.m.queue[n - 1]);
  }

  lemma ScanEnd(im: Image, was: seq<nat>, w: Work, n: nat, id: nat, entries: nat)
    requires ScannedAll(im, was, w, n, id, entries)
    ensures 0 < n <= |was| && was <= w.m.queue && was[n - 1] == id
    ensures Held(im, w, n, id, DirOf(im, id).off + DirOf(im, id).size) && Formed(im, id, entries)
  {
    OpenScanned(im, was, w, n, id, DirOf(im, id).off + DirOf(im, id).size, entries);
    AllFormed(im, id, entries);
  }

  class Walker {
    const im: Image
    var inSlice: seq<bool>
    var isObject: seq<bool>
    var attr: seq<bool>
    var nodes: seq<Node>
    var queue: seq<nat>
    var objects: nat
    var names: seq<Entry>
    var refs: seq<Ref>
    var dual: bool
    ghost var owner: seq<nat>
    ghost var from: seq<nat>
    ghost var seen: seq<nat>

    ghost function Now(): Work
      reads this
    {
      Work(Marks(inSlice, isObject, queue, objects, owner, from), nodes, attr, names, refs, seen)
    }

    constructor (im: Image)
      ensures this.im == im && Now() == Initial(im) && !dual
    {
      this.im := im;
      inSlice, isObject := seq(|im.cells|, _ => false), seq(|im.cells|, _ => false);
      attr := seq(|im.cells|, a requires a >= 0 => a == im.rootAttr);
      nodes := seq(|im.cells|, _ => BLANK) + [RootNode(im)];
      queue, objects, names, refs, dual := [|im.cells|], 0, [], [], false;
      owner, from, seen := seq(|im.cells|, _ => NOBODY), seq(|im.cells|, _ => NOBODY), [];
    }

    /** Mark the cells of a slice, unless one already has a role. */
    method MarkCells(d: Dir) returns (ok: bool, bad: nat)
      requires |inSlice| == |isObject| && d.off + d.size <= |inSlice|
      modifies this`inSlice
      ensures ok ==> inSlice == seq(|old(inSlice)|, c requires 0 <= c < |old(inSlice)| =>
                                      old(inSlice)[c] || d.off <= c < d.off + d.size)
      ensures ok ==> forall c: nat :: d.off <= c < d.off + d.size ==> !old(inSlice)[c] && !isObject[c]
      ensures !ok ==> d.off <= bad < d.off + d.size && (old(inSlice)[bad] || isObject[bad])
    {
      bad := 0;
      for i := d.off to d.off + d.size
        invariant |inSlice| == |old(inSlice)|
        invariant forall c: nat :: c < |inSlice| ==> inSlice[c] == (old(inSlice)[c] || d.off <= c < i)
        invariant forall c: nat :: d.off <= c < i ==> !old(inSlice)[c] && !isObject[c]
      {
        if inSlice[i] || isObject[i] {
          return false, i;
        }
        inSlice := inSlice[i := true];
      }
      ok := true;
    }

    /** Claim the cells of a directory's slice. */
    method ClaimSlice(n: nat) returns (ok: bool)
      requires Held(im, Now(), n, NOBODY, 0) && n < |queue| && DirForm(im, queue[n])
      modifies this`inSlice, this`owner
      ensures ok ==> Held(im, Now(), n + 1, queue[n], DirOf(im, queue[n]).off)
      ensures !ok ==> Refused(im)
    {
      var id := queue[n];
      ghost var w := Now();
      Sizes(im, w, n, NOBODY, 0);
      var bad;
      ok, bad := MarkCells(DirOf(im, id));
      if ok {
        owner := ClaimAll(im, w.m, id).owner;
      }
      ClaimOutcome(im, w, Now(), n, ok, bad);
    }

    /** Enter the object of a well-formed bucket, unless its cell already has a role or there are too many. */
    method EnterBucket(cur: nat, c: nat) returns (ok: bool)
      requires Enterable(im, cur, c) && |inSlice| == |isObject| == |from| == |attr| == |im.cells|
      requires |nodes| == |im.cells| + 1 && (cur < |im.cells| ==> isObject[cur])
      modifies this`isObject, this`attr, this`nodes, this`queue, this`objects, this`names, this`refs, this`from
      modifies this`seen
      ensures ok ==> EnteredAs(im, old(Now()), cur, c, Now())
      ensures old(queue) <= queue
      ensures ok <==> !old(inSlice)[im.cells[c].w4] && !old(isObject)[im.cells[c].w4] && old(objects) + 1 < MAX_ENTRIES
    {
      ghost var w := Now();
      ok := EnterMarks(c);
      if ok {
        OldFlags(im, nodes, cur, c);
        Decode(cur, c);
        AddName(cur, c);
        EntersAs(im, w, cur, c, Now());
      }
    }

    /** Give the object its role and, for a directory, its place in the queue. */
    method EnterMarks(c: nat) returns (ok: bool)
      requires IsBucket(im, c) && im.cells[c].w4 < |im.cells| && |inSlice| == |isObject| == |from| == |im.cells|
      modifies this`isObject, this`queue, this`objects, this`from
      ensures ok ==> Now().m == EnterOne(im, old(Now()).m, c)
      ensures old(queue) <= queue
      ensures ok <==> !old(inSlice)[im.cells[c].w4] && !old(isObject)[im.cells[c].w4] && old(objects) + 1 < MAX_ENTRIES
    {
      var t := im.cells[c].w4;
      if inSlice[t] || isObject[t] {
        return false;
      }
      objects := objects + 1;
      if objects >= MAX_ENTRIES {
        return false;
      }
      isObject := isObject[t := true];
      from := from[t := c];
      if im.cells[c].kind == DIR {
        queue := queue + [t];
      }
      ok := true;
    }

    /** The object's node and its attribute. */
    method Decode(cur: nat, c: nat)
      requires Enterable(im, cur, c) && |attr| == |im.cells| && |nodes| == |im.cells| + 1
      modifies this`attr, this`nodes
      ensures nodes == WithNode(im, old(nodes), cur, c)
      ensures var p := im.cells[c]; var o := im.cells[p.w4];
              attr == if p.kind != LINK && o.half < |old(attr)| then old(attr)[o.half := true] else old(attr)
    {
      var p := im.cells[c];
      var t := p.w4;
      nodes := nodes[t := NewNode(im, t, cur, nodes[cur])];
      if p.kind != LINK {
        attr := attr[im.cells[t].half := true];
      }
      if p.kind == DIR {
        nodes := nodes[cur := nodes[cur].(links := nodes[cur].links + 1)];
      }
    }

    method AddName(cur: nat, c: nat)
      requires Enterable(im, cur, c) && |nodes| == |im.cells| + 1
      modifies this`names, this`refs, this`seen
      ensures var p := im.cells[c]; var name := NameAt(im, p.w8).value;
              && names == old(names) + [Entry(name, cur)] && seen == old(seen) + [c]
              && refs == old(refs) + [Ref(p.w8, |name|, false, nodes[cur].names)]
    {
      var p := im.cells[c];
      var name := NameAt(im, p.w8).value;
      refs := refs + [Ref(p.w8, |name|, false, nodes[cur].names)];
      names := names + [Entry(name, cur)];
      seen := seen + [c];
    }

    /** Look at one cell of the directory being scanned. */
    method ScanCell(n: nat, c: nat) returns (ok: bool, bucket: bool)
      requires 0 < n <= |queue| && Held(im, Now(), n, queue[n - 1], c) && DirForm(im, queue[n - 1])
      requires In(im, queue[n - 1], c)
      modifies this`isObject, this`attr, this`nodes, this`queue, this`objects, this`names, this`refs, this`from
      modifies this`seen
      ensures old(queue) <= queue
      ensures ok ==> Held(im, Now(), n, queue[n - 1], c + 1)
      ensures ok ==> CellForm(im, old(queue[n - 1]), c) && (bucket <==> IsBucket(im, c))
      ensures !ok ==> Refused(im)
    {
      CellOutcome(im, Now(), n, c);
      var p := im.cells[c];
      bucket := p.kind != ATTR && p.kind != 0;
      if !CellForm(im, queue[n - 1], c) {
        return false, bucket;
      }
      ok := true;
      if bucket {
        ok := EnterBucket(queue[n - 1], c);
      }
    }

    /** And counts it among the directory's entries when it is a bucket. */
    method ScanNext(n: nat, c: nat, ghost was: seq<nat>, ghost id: nat, entriesIn: nat) returns (ok: bool, entries: nat)
      requires Scanned(im, was, Now(), n, id, c, entriesIn) && In(im, id, c)
      modifies this`isObject, this`attr, this`nodes, this`queue, this`objects, this`names, this`refs, this`from
      modifies this`seen
      ensures if ok then Scanned(im, was, Now(), n, id, c + 1, entries) else Refused(im)
    {
      OpenScanned(im, was, Now(), n, id, c, entriesIn);
      var bucket;
      ok, bucket := ScanCell(n, c);
      entries := if bucket then entriesIn + 1 else entriesIn;
      if ok {
        FormedNext(im, id, c, entriesIn);
      }
    }

    /** Go through the cells of the directory just claimed. */
    method ScanCells(n: nat, ghost was: seq<nat>, id: nat) returns (ok: bool, entries: nat)
      requires Scanned(im, was, Now(), n, id, DirOf(im, id).off, 0)
      modifies this`isObject, this`attr, this`nodes, this`queue, this`objects, this`names, this`refs, this`from
      modifies this`seen
      ensures if ok then ScannedAll(im, was, Now(), n, id, entries) else Refused(im)
    {
      var d := DirOf(im, id);
      entries := 0;
      ghost var done := d.off;
      for c := d.off to d.off + d.size
        invariant done == c && Scanned(im, was, Now(), n, id, done, entries)
      {
        ok, entries := ScanNext(n, c, was, id, entries);
        if !ok {
          return;
        }
        done := c + 1;
      }
      AllScanned(im, was, Now(), n, id, done, entries);
      ok := true;
    }

    /** The count and the chains of a directory whose cells are well-formed. */
    method CheckCells(n: nat, entries: nat) returns (ok: bool)
      requires HeaderOk(im) && n < |queue| && Formed(im, queue[n], entries)
      requires Held(im, Now(), n + 1, queue[n], DirOf(im, queue[n]).off + DirOf(im, queue[n]).size)
      ensures ok ==> Held(im, Now(), n + 1, NOBODY, 0) && Passed(im, queue[n])
      ensures !ok ==> Refused(im)
    {
      var id := queue[n];
      ok := entries == DirOf(im, id).entries;
      OpenFormed(im, id, entries);
      if ok {
        ok := Chains.Check(SliceOf(im, id), HashingOf(im, id), entries);
      }
      EndOutcome(im, Now(), n, entries);
    }

    /** One directory of the queue. */
    method ScanDirectory(n: nat) returns (ok: bool)
      requires Held(im, Now(), n, NOBODY, 0) && n < |queue|
      modifies this
      ensures ok ==> old(queue) <= queue
      ensures ok ==> Held(im, Now(), n + 1, NOBODY, 0)
      ensures ok ==> Passed(im, old(queue[n])) && dual == (old(dual) || DirOf(im, old(queue[n])).hash / 64 == 1)
      ensures !ok ==> Refused(im)
    {
      var id := queue[n];
      ghost var w := Now();
      FormOutcome(im, w, n);
      if !DirForm(im, id) {
        return false;
      }
      dual := dual || DirOf(im, id).hash / 64 == 1;
      ok := ClaimSlice(n);
      if ok {
        ok := ScanClaimed(n);
      }
    }

    /** The cells, the count and the chains of a directory whose slice is its own. */
    method ScanClaimed(n: nat) returns (ok: bool)
      requires HeaderOk(im) && n < |queue| && DirForm(im, queue[n])
      requires Held(im, Now(), n + 1, queue[n], DirOf(im, queue[n]).off)
      modifies this`isObject, this`attr, this`nodes, this`queue, this`objects, this`names, this`refs, this`from
      modifies this`seen
      ensures ok ==> old(queue) <= queue
      ensures ok ==> Held(im, Now(), n + 1, NOBODY, 0) && Passed(im, old(queue[n]))
      ensures !ok ==> Refused(im)
    {
      var entries;
      ghost var was := queue;
      var id := queue[n];
      ScanStart(im, Now(), n + 1);
      ok, entries := ScanCells(n + 1, was, id);
      if ok {
        ScanEnd(im, was, Now(), n + 1, id, entries);
        ok := CheckCells(n, entries);
      }
    }

    /** The directories of the queue, one after the other. */
    method ScanQueue() returns (ok: bool)
      requires HeaderOk(im) && Held(im, Now(), 0, NOBODY, 0) && Through(im, queue, 0, dual)
      modifies this
      ensures ok ==> Held(im, Now(), |queue|, NOBODY, 0) && Through(im, queue, |queue|, dual)
      ensures !ok ==> Refused(im)
    {
      var qi := 0;
      while qi < |queue|
        invariant qi <= |queue| && Held(im, Now(), qi, NOBODY, 0) && Through(im, queue, qi, dual)
        decreases |im.cells| + 1 - qi
      {
        Sizes(im, Now(), qi, NOBODY, 0);
        ghost var was, dualWas := queue, dual;
        ok := ScanDirectory(qi);
        if !ok {
          return;
        }
        OneMoreFinished(im, was, queue, qi, dualWas);
        qi := qi + 1;
      }
      ok := true;
    }

    /** The whole pass: it succeeds exactly on images whose directories form a tree, and the queue is that tree. */
    method WalkTree() returns (ok: bool)
      requires HeaderOk(im) && Now() == Initial(im) && !dual
      modifies this
      ensures ok <==> Accepted(im)
      ensures ok ==> TreeOk(im, queue) && Sound(im, Now(), |queue|, NOBODY, 0) && |queue| <= |im.cells| + 1
      ensures ok ==> (dual <==> SomeDual(im, queue, |queue|))
    {
      Begin(im);
      if !AttrForm(im, DIR, im.rootAttr) {
        return false;
      }
      ok := ScanQueue();
      if ok {
        Conclude(im, Now(), dual);
      } else {
        assert Key(0);
      }
    }
  }

  lemma Begin(im: Image)
    requires HeaderOk(im)
    ensures Held(im, Initial(im), 0, NOBODY, 0) && Through(im, Initial(im).m.queue, 0, false)
  {
    InitialSound(im);
  }

  ghost predicate SomeDual(im: Image, queue: seq<nat>, n: nat) {
    exists k: nat {:trigger queue[k]} :: k < n && k < |queue| && DirOf(im, queue[k]).hash / 64 == 1
  }

  /** The first n directories are finished, and it is known whether one of them uses both bases; closed. */
  ghost predicate Through(im: Image, queue: seq<nat>, n: nat, dual: bool)
    requires HeaderOk(im)
  {
    forall k: nat {:trigger Key(k)} :: Key(k) ==> Finished(im, queue, n) && (dual <==> SomeDual(im, queue, n))
  }

  lemma OneMoreFinished(im: Image, was: seq<nat>, queue: seq<nat>, n: nat, dual: bool)
    requires HeaderOk(im) && was <= queue && n < |was| && Through(im, was, n, dual) && Passed(im, was[n])
    ensures Through(im, queue, n + 1, dual || DirOf(im, was[n]).hash / 64 == 1)
  {
    assert Key(0);
    if SomeDual(im, was, n) {
      var k: nat :| k < n && DirOf(im, was[k]).hash / 64 == 1;
      assert queue[k] == was[k];
    }
    if DirOf(im, was[n]).hash / 64 == 1 {
      assert queue[n] == was[n];
    }
  }

  lemma OpenThrough(im: Image, queue: seq<nat>, n: nat, dual: bool)
    requires HeaderOk(im) && Through(im, queue, n, dual)
    ensures Finished(im, queue, n) && (dual <==> SomeDual(im, queue, n))
  {
    assert Key(0);
  }

  lemma Conclude(im: Image, w: Work, dual: bool)
    requires Held(im, w, |w.m.queue|, NOBODY, 0) && Through(im, w.m.queue, |w.m.queue|, dual)
    requires AttrForm(im, DIR, im.rootAttr)
    ensures dual <==> SomeDual(im, w.m.queue, |w.m.queue|)
    ensures TreeOk(im, w.m.queue) && Accepted(im) && Sound(im, w, |w.m.queue|, NOBODY, 0)
    ensures |w.m.queue| <= |im.cells| + 1
  {
    OpenThrough(im, w.m.queue, |w.m.queue|, dual);
    Open(im, w, |w.m.queue|, NOBODY, 0);
    QueueBelow(im, w.m);
    QueueIsTree(im, w.m);
  }

  lemma NoneFormed(im: Image, id: nat)
    requires HeaderOk(im) && DirForm(im, id)
    ensures FormedBelow(im, id, DirOf(im, id).off, 0)
  {
  }

  lemma FormOutcome(im: Image, w: Work, n: nat)
    requires Held(im, w, n, NOBODY, 0) && n < |w.m.queue|
    ensures |w.m.inSlice| == |w.m.isObject| == |w.m.from| == |im.cells|
    ensures !DirForm(im, w.m.queue[n]) ==> Refused(im)
  {
    Open(im, w, n, NOBODY, 0);
    if !DirForm(im, w.m.queue[n]) {
      BadDirectory(im, w.m, n);
    }
  }

  lemma ClaimOutcome(im: Image, w: Work, w': Work, n: nat, ok: bool, bad: nat)
    requires Held(im, w, n, NOBODY, 0) && n < |w.m.queue| && DirForm(im, w.m.queue[n])
    requires |w.m.inSlice| == |w.m.isObject| == |w.m.from| == |im.cells|
    requires var d := DirOf(im, w.m.queue[n]);
             if ok
             then && w' == w.(m := w.m.(inSlice := w'.m.inSlice, owner := ClaimAll(im, w.m, w.m.queue[n]).owner))
                  && w'.m.inSlice == seq(|w.m.inSlice|, c requires 0 <= c < |w.m.inSlice| =>
                                           w.m.inSlice[c] || d.off <= c < d.off + d.size)
                  && forall c: nat :: d.off <= c < d.off + d.size ==> !w.m.inSlice[c] && !w.m.isObject[c]
             else d.off <= bad < d.off + d.size && (w.m.inSlice[bad] || w.m.isObject[bad])
    ensures ok ==> Held(im, w', n + 1, w.m.queue[n], DirOf(im, w.m.queue[n]).off)
    ensures !ok ==> Refused(im)
  {
    Open(im, w, n, NOBODY, 0);
    if ok {
      assert w'.m.inSlice == ClaimAll(im, w.m, w.m.queue[n]).inSlice;
      ClaimGrabs(im, w.m, w.m.queue[n]);
      ClaimSound(im, w, w', n);
    } else {
      SliceClash(im, w.m, n, bad);
    }
  }

  /** `DirGood`, closed. */
  ghost predicate Passed(im: Image, id: nat)
    requires HeaderOk(im)
  {
    forall k: nat {:trigger Key(k)} :: Key(k) ==> DirGood(im, id)
  }

  lemma EndOutcome(im: Image, w: Work, n: nat, entries: nat)
    requires HeaderOk(im) && n < |w.m.queue| && Formed(im, w.m.queue[n], entries)
    requires Held(im, w, n + 1, w.m.queue[n], DirOf(im, w.m.queue[n]).off + DirOf(im, w.m.queue[n]).size)
    ensures var id := w.m.queue[n];
            if entries == DirOf(im, id).entries && Slice.WellChained(SliceOf(im, id), HashingOf(im, id))
            then Held(im, w, n + 1, NOBODY, 0) && Passed(im, id)
            else Refused(im)
  {
    var id := w.m.queue[n];
    OpenFormed(im, id, entries);
    Open(im, w, n + 1, id, DirOf(im, id).off + DirOf(im, id).size);
    if DirGood(im, id) {
      EndSound(im, w, n + 1, DirOf(im, id).off + DirOf(im, id).size);
    } else {
      BadDirectory(im, w.m, n);
    }
  }

  /** The cells before c are well-formed, with so many buckets among them; closed (see `Key`). */
  ghost predicate FormedBelow(im: Image, id: nat, c: nat, entries: nat)
    requires HeaderOk(im) && DirForm(im, id)
  {
    var d := DirOf(im, id);
    d.off <= c <= d.off + d.size && forall k: nat {:trigger Key(k)} :: Key(k) ==>
      && entries == BucketCount(SliceOf(im, id), c - d.off)
      && forall x: nat {:trigger In(im, id, x)} :: In(im, id, x) && x < c ==> CellForm(im, id, x)
  }

  lemma FormedNext(im: Image, id: nat, c: nat, entries: nat)
    requires HeaderOk(im) && DirForm(im, id) && FormedBelow(im, id, c, entries) && In(im, id, c) && CellForm(im, id, c)
    ensures FormedBelow(im, id, c + 1, if IsBucket(im, c) then entries + 1 else entries)
  {
    assert Key(0);
    assert SliceOf(im, id)[c - DirOf(im, id).off] == CellView(im, c);
  }

  /** All cells are well-formed, with so many buckets among them; closed (see `Key`). */
  ghost predicate Formed(im: Image, id: nat, entries: nat)
    requires HeaderOk(im)
  {
    DirForm(im, id) && forall k: nat {:trigger Key(k)} :: Key(k) ==>
      && |Slice.OccupiedSet(SliceOf(im, id))| == entries
      && forall c: nat {:trigger In(im, id, c)} :: In(im, id, c) ==> CellForm(im, id, c)
  }

  lemma OpenFormed(im: Image, id: nat, entries: nat)
    requires HeaderOk(im) && Formed(im, id, entries)
    ensures |Slice.OccupiedSet(SliceOf(im, id))| == entries
    ensures forall c: nat {:trigger In(im, id, c)} :: In(im, id, c) ==> CellForm(im, id, c)
  {
    assert Key(0);
  }

  lemma AllFormed(im: Image, id: nat, entries: nat)
    requires HeaderOk(im) && DirForm(im, id) && FormedBelow(im, id, DirOf(im, id).off + DirOf(im, id).size, entries)
    ensures Formed(im, id, entries)
  {
    assert Key(0);
    var s := SliceOf(im, id);
    CountIsSize(s, |s|);
    assert BucketsBelow(s, |s|) == Slice.OccupiedSet(s);
  }

  /** What entering needs: a bucket with a readable name, its object's cell, and its attribute's. */
  predicate Enterable(im: Image, cur: nat, c: nat) {
    && HeaderOk(im) && IsBucket(im, c) && im.cells[c].w4 < |im.cells| && cur <= |im.cells|
    && NameAt(im, im.cells[c].w8).Some?
    && (im.cells[c].kind != LINK ==> im.cells[im.cells[c].w4].half < |im.cells|)
  }

  /** What the bookkeeping of one cell comes to. */
  lemma CellOutcome(im: Image, w: Work, n: nat, c: nat)
    requires 0 < n <= |w.m.queue| && Held(im, w, n, w.m.queue[n - 1], c)
    requires DirForm(im, w.m.queue[n - 1]) && In(im, w.m.queue[n - 1], c)
    ensures HeaderOk(im) && c < |im.cells|
    ensures |w.m.inSlice| == |w.m.isObject| == |w.m.from| == |w.m.owner| == |w.attr| == |im.cells|
    ensures |w.nodes| == |im.cells| + 1
    ensures !CellForm(im, w.m.queue[n - 1], c) ==> Refused(im)
    ensures CellForm(im, w.m.queue[n - 1], c) && !IsBucket(im, c) ==> Held(im, w, n, w.m.queue[n - 1], c + 1)
    ensures CellForm(im, w.m.queue[n - 1], c) ==>
              (IsBucket(im, c) <==> im.cells[c].kind != ATTR && im.cells[c].kind != 0)
    ensures CellForm(im, w.m.queue[n - 1], c) && IsBucket(im, c) ==> BucketOutcome(im, w, n, c)
  {
    var cur := w.m.queue[n - 1];
    Open(im, w, n, cur, c);
    if !CellForm(im, cur, c) {
      BadCell(im, w.m, n - 1, c);
    } else if im.cells[c].kind == ATTR || im.cells[c].kind == 0 {
      PassSound(im, w, n, c);
    } else {
      BucketCases(im, w, n, c);
    }
  }

  /** w' is w after bucket c has been entered; closed (see `Key`). */
  ghost predicate EnteredAs(im: Image, w: Work, cur: nat, c: nat, w': Work)
    requires HeaderOk(im) && IsBucket(im, c) && im.cells[c].w4 < |im.cells| && NameAt(im, im.cells[c].w8).Some?
    requires |im.cells| == |w.m.isObject| == |w.m.from| == |w.attr| && |w.nodes| == |im.cells| + 1 && cur < |w.nodes|
  {
    forall k: nat {:trigger Key(k)} :: Key(k) ==> w' == EnterWork(im, w, cur, c)
  }

  lemma EntersAs(im: Image, w: Work, cur: nat, c: nat, w': Work)
    requires HeaderOk(im) && IsBucket(im, c) && im.cells[c].w4 < |im.cells| && NameAt(im, im.cells[c].w8).Some?
    requires |im.cells| == |w.m.isObject| == |w.m.from| == |w.attr| && |w.nodes| == |im.cells| + 1 && cur < |w.nodes|
    requires w'.m == EnterOne(im, w.m, c) && w'.nodes == WithNode(im, w.nodes, cur, c) && w'.seen == w.seen + [c]
    requires var p := im.cells[c]; var name := NameAt(im, p.w8).value; var o := im.cells[p.w4];
             && w'.attr == (if p.kind != LINK && o.half < |w.attr| then w.attr[o.half := true] else w.attr)
             && w'.names == w.names + [Entry(name, cur)]
             && w'.refs == w.refs + [Ref(p.w8, |name|, false, w.nodes[cur].names)]
    ensures EnteredAs(im, w, cur, c, w')
  {
  }

  /** A bucket is entered, or its image has no tree. */
  ghost predicate BucketOutcome(im: Image, w: Work, n: nat, c: nat)
    requires 0 < n <= |w.m.queue|
    requires |w.m.inSlice| == |w.m.isObject| == |w.m.from| == |w.m.owner| == |w.attr| == |im.cells|
    requires |w.nodes| == |im.cells| + 1
  {
    var cur := w.m.queue[n - 1];
    && Enterable(im, cur, c) && (cur < |im.cells| ==> w.m.isObject[cur])
    && (if !w.m.inSlice[im.cells[c].w4] && !w.m.isObject[im.cells[c].w4] && w.m.objects + 1 < MAX_ENTRIES
        then forall w': Work {:trigger EnteredAs(im, w, cur, c, w')} :: EnteredAs(im, w, cur, c, w') ==>
               n <= |w'.m.queue| && w'.m.queue[n - 1] == cur && Held(im, w', n, cur, c + 1)
        else Refused(im))
  }

  lemma BucketCases(im: Image, w: Work, n: nat, c: nat)
    requires 0 < n <= |w.m.queue| && Sound(im, w, n, w.m.queue[n - 1], c) && In(im, w.m.queue[n - 1], c)
    requires c < |im.cells| && BucketForm(im, w.m.queue[n - 1], c)
    ensures BucketOutcome(im, w, n, c)
  {
    var t := im.cells[c].w4;
    Scanning(im, w, n, c);
    if w.m.inSlice[t] || w.m.isObject[t] {
      TargetClash(im, w.m, n, c);
    } else if w.m.objects + 1 >= MAX_ENTRIES {
      TooMany(im, w.m, n, c);
    } else {
      BucketEnters(im, w, n, c);
    }
  }

  lemma BucketEnters(im: Image, w: Work, n: nat, c: nat)
    requires 0 < n <= |w.m.queue| && Sound(im, w, n, w.m.queue[n - 1], c) && In(im, w.m.queue[n - 1], c)
    requires c < |im.cells| && BucketForm(im, w.m.queue[n - 1], c) && w.m.queue[n - 1] < |w.nodes|
    requires !w.m.inSlice[im.cells[c].w4] && !w.m.isObject[im.cells[c].w4] && w.m.objects + 1 < MAX_ENTRIES
    ensures forall w': Work {:trigger EnteredAs(im, w, w.m.queue[n - 1], c, w')} ::
              EnteredAs(im, w, w.m.queue[n - 1], c, w') ==>
                n <= |w'.m.queue| && w'.m.queue[n - 1] == w.m.queue[n - 1] && Held(im, w', n, w.m.queue[n - 1], c + 1)
  {
    QueuedDir(im, w, n, w.m.queue[n - 1], c, n - 1);
    EnterSound(im, w, n, c);
    assert Key(0);
  }

  /** A directory with an ill-formed cell is in no tree. */
  lemma BadCell(im: Image, m: Marks, k: nat, c: nat)
    requires HeaderOk(im) && Rooted(im, m.queue) && k < |m.queue| && DirForm(im, m.queue[k])
    requires In(im, m.queue[k], c) && !CellForm(im, m.queue[k], c)
    ensures Refused(im)
  {
    BadDirectory(im, m, k);
  }
}
