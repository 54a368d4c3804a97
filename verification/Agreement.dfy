/** Builder and decoder agree on what is public (programs/makefemtofs.cpp:1108-1222; ko/image.c:186-187, 223-224,
    255-293): a decoded tree that shows the builder's nodes gives every file the builder's visibility, and every
    reference to packed content lies in the part where the decoder looks for it. */
module Agreement {
  import opened Format
  import opened Counting
  import opened Paths
  import opened ImageTree
  import opened TreeMarks
  import opened TreeNodes
  import opened TreeWalk
  import opened Validate
  import TreeFacts
  import Interning
  import Packing
  import Content
  import Encoding
  import Sweep

  type Item = Interning.Item

  /** Node t shows item t: kind, mode, parent, and for a hardlink the file it stands for. */
  ghost predicate ShowsItem(nodes: seq<Node>, root: nat, items: seq<Item>, t: nat)
    requires t < |nodes| && t < |items|
  {
    var n, x := nodes[t], items[t];
    && n.kind == Encoding.KindByte(x.kind) && x.path != [] && x.parent == Interning.ParentPath(x.path)
    && (x.kind != Hardlink ==> n.mode == x.mode)
    && (x.kind == Hardlink ==> n.off == x.canonical && x.canonical < |items| && items[x.canonical].kind == File)
    && (x.kind == File ==> x.canonical == t)
    && (if x.parent == [] then n.parent == root
        else n.parent < |items| && items[n.parent].path == x.parent && items[n.parent].kind == Directory)
  }

  /** The decoded objects are the items, each under its own number, and the root is the root. */
  ghost predicate Mirrored(im: Image, w: Work, items: seq<Item>, rootMode: nat) {
    && |w.nodes| == |im.cells| + 1 && |items| <= |im.cells| && w.nodes[|im.cells|].mode == rootMode
    && (forall t: nat {:trigger IsFrom(w.m, t)} :: IsFrom(w.m, t) <==> t < |items|)
    && (forall t: nat {:trigger items[t]} :: t < |items| ==> ShowsItem(w.nodes, |im.cells|, items, t))
    && (forall i: nat, j: nat {:trigger items[i], items[j]} :: i < j < |items| ==> items[i].path != items[j].path)
  }

  // ---------------------------------------------------------------- directories

  /** The path of a directory's number; the root's is empty. */
  function PathAt(items: seq<Item>): nat -> seq<byte> {
    (t: nat) => if t < |items| then items[t].path else []
  }

  lemma NotAnObject(im: Image, w: Work, t: nat)
    requires Complete(im, w) && t < |im.cells| && !IsFrom(w.m, t)
    ensures t < |w.nodes| && w.nodes[t] == BLANK
  {
    OpenAll(im, w);
  }

  lemma MirrorsPaths(im: Image, w: Work, items: seq<Item>, rootMode: nat)
    requires Complete(im, w) && Mirrored(im, w, items, rootMode)
    ensures Interning.Mirrors(w.nodes, items, rootMode, |im.cells|, PathAt(items))
  {
    var at, root := PathAt(items), |im.cells|;
    forall t: nat | t != root && Interning.IsDir(w.nodes, t)
      ensures at(t) != [] && at(w.nodes[t].parent) == Interning.ParentPath(at(t))
      ensures w.nodes[t].parent == root || Interning.IsDir(w.nodes, w.nodes[t].parent)
      ensures forall right: Interning.Right ::
                Interning.DirectoryGrants(items, at(t), right) <==> Interning.Grants(w.nodes[t].mode, right)
    {
      ShownDirectory(im, w, items, rootMode, t);
      GrantsByPath(items, t);
    }
  }

  lemma ShownDirectory(im: Image, w: Work, items: seq<Item>, rootMode: nat, t: nat)
    requires Complete(im, w) && Mirrored(im, w, items, rootMode) && t != |im.cells| && Interning.IsDir(w.nodes, t)
    ensures t < |items| && items[t].kind == Directory && ShowsItem(w.nodes, |im.cells|, items, t)
    ensures w.nodes[t].parent == |im.cells| || Interning.IsDir(w.nodes, w.nodes[t].parent)
  {
    if !IsFrom(w.m, t) {
      NotAnObject(im, w, t);
    }
    assert ShowsItem(w.nodes, |im.cells|, items, t);
    if items[t].parent != [] {
      assert ShowsItem(w.nodes, |im.cells|, items, w.nodes[t].parent);
    }
  }

  /** Paths are distinct, so a directory's path leads to it alone. */
  lemma GrantsByPath(items: seq<Item>, t: nat)
    requires t < |items| && items[t].kind == Directory
    requires forall i: nat, j: nat {:trigger items[i], items[j]} :: i < j < |items| ==> items[i].path != items[j].path
    ensures forall right: Interning.Right ::
              Interning.DirectoryGrants(items, items[t].path, right) <==> Interning.Grants(items[t].mode, right)
  {
  }

  /** A directory's inherited flags are what the builder computes for its path. */
  lemma DirectoryAgrees(im: Image, w: Work, items: seq<Item>, rootMode: nat, t: nat)
    requires Complete(im, w) && Mirrored(im, w, items, rootMode)
    requires t == |im.cells| || (t < |items| && items[t].kind == Directory)
    ensures w.nodes[t].search <==> Interning.Allows(items, rootMode, PathAt(items)(t), Interning.Search)
    ensures w.nodes[t].names <==> Interning.Allows(items, rootMode, PathAt(items)(t), Interning.List)
  {
    MirrorsPaths(im, w, items, rootMode);
    var k := 0;
    if t < |items| {
      assert IsFrom(w.m, t) && ShowsItem(w.nodes, |im.cells|, items, t);
      k := TreeFacts.ReachesRoot(im, w, t);
    }
    TreeFacts.VisibilityAgrees(im, w, items, rootMode, PathAt(items), t, k);
  }

  /** So are those of the directory an object is in. */
  lemma ParentAgrees(im: Image, w: Work, items: seq<Item>, rootMode: nat, t: nat)
    requires Complete(im, w) && Mirrored(im, w, items, rootMode) && t < |items|
    ensures w.nodes[t].parent < |w.nodes|
    ensures var d := w.nodes[w.nodes[t].parent];
            && (d.search <==> Interning.Allows(items, rootMode, items[t].parent, Interning.Search))
            && (d.names <==> Interning.Allows(items, rootMode, items[t].parent, Interning.List))
  {
    assert ShowsItem(w.nodes, |im.cells|, items, t);
    DirectoryAgrees(im, w, items, rootMode, w.nodes[t].parent);
  }

  // ---------------------------------------------------------------- files

  /** A cell holds file t or a hardlink to it exactly when its item does. */
  lemma OccursAgrees(im: Image, w: Work, items: seq<Item>, rootMode: nat, i: nat, t: nat)
    requires Complete(im, w) && Mirrored(im, w, items, rootMode) && i < |im.cells|
    ensures Occurs(w.nodes, i, t) <==> i < |items| && Interning.IsFileLike(items[i]) && items[i].canonical == t
  {
    if i < |items| {
      assert ShowsItem(w.nodes, |im.cells|, items, i);
    } else {
      NotAnObject(im, w, i);
    }
  }

  /** The decoder calls a file public exactly when the builder does. */
  lemma FilePublicAgrees(im: Image, w: Work, items: seq<Item>, rootMode: nat, t: nat)
    requires Complete(im, w) && Mirrored(im, w, items, rootMode) && t < |items| && items[t].kind == File
    ensures t < |FinalNodes(im, w)|
    ensures FinalNodes(im, w)[t].publicFile <==> Interning.FilePublic(items, rootMode, t, |items|)
  {
    assert ShowsItem(w.nodes, |im.cells|, items, t);
    EnteredPrivate(im, w, t);
    if Reached(w.nodes, t, |im.cells|) {
      var i: nat :| i < |im.cells| && Occurs(w.nodes, i, t) && w.nodes[i].parent < |w.nodes|
                    && w.nodes[w.nodes[i].parent].search;
      OccursAgrees(im, w, items, rootMode, i, t);
      ParentAgrees(im, w, items, rootMode, i);
      assert items[i].canonical == t;
    }
    if Interning.FilePublic(items, rootMode, t, |items|) {
      var o: nat :| o < |items| && Interning.IsFileLike(items[o]) && items[o].canonical == t
                    && Interning.Allows(items, rootMode, items[o].parent, Interning.Search);
      OccursAgrees(im, w, items, rootMode, o, t);
      ParentAgrees(im, w, items, rootMode, o);
      assert Occurs(w.nodes, o, t);
    }
  }

  lemma EnteredPrivate(im: Image, w: Work, t: nat)
    requires Complete(im, w) && IsFrom(w.m, t) && t < |im.cells|
    ensures t < |w.nodes| && !w.nodes[t].publicFile
  {
    OpenAll(im, w);
    assert NodeFits(im, w.m, w.nodes, t);
  }

  // ---------------------------------------------------------------- references and blobs

  type Class = Interning.Class

  /** The packer's view of the classes. */
  function BlobsOf(classes: seq<Class>, digest: seq<byte> -> nat): seq<Packing.Blob> {
    seq(|classes|, i requires 0 <= i < |classes| =>
      var c := classes[i];
      Packing.Blob(c.bytes, c.stored, digest(c.bytes), if c.symlink then 1 else 0, c.publicPart))
  }

  /** The k-th name on the list is that of the item its bucket names, stored where the name's blob is. */
  ghost predicate NameShown(im: Image, w: Work, items: seq<Item>, nameBlobs: seq<nat>, imageOff: seq<nat>, k: nat)
    requires k < |w.seen| == |w.names| && |nameBlobs| == |items|
  {
    w.seen[k] < |im.cells| &&
    var p := im.cells[w.seen[k]];
    && p.w4 < |items| && w.names[k].name == items[p.w4].name
    && nameBlobs[p.w4] < |imageOff| && p.w8 == imageOff[nameBlobs[p.w4]]
  }

  /** A file's or symlink's node points at its content's blob. */
  ghost predicate ContentShown(nodes: seq<Node>, items: seq<Item>, classes: seq<Class>, contentBlobs: seq<Option<nat>>,
                               imageOff: seq<nat>, t: nat)
    requires t < |items| == |contentBlobs| && t < |nodes|
  {
    items[t].kind == File || items[t].kind == Symlink ==>
      && contentBlobs[t].Some? && contentBlobs[t].value < |imageOff| == |classes|
      && nodes[t].off == imageOff[contentBlobs[t].value] && nodes[t].size == |classes[contentBlobs[t].value].bytes|
  }

  /** Names and contents are where the packer put their blobs. */
  ghost predicate OffsetsShown(im: Image, w: Work, items: seq<Item>, classes: seq<Class>, nameBlobs: seq<nat>,
                               contentBlobs: seq<Option<nat>>, imageOff: seq<nat>) {
    && |w.seen| == |w.names| && |nameBlobs| == |contentBlobs| == |items| <= |w.nodes|
    && (forall k: nat {:trigger w.seen[k]} :: k < |w.seen| ==> NameShown(im, w, items, nameBlobs, imageOff, k))
    && (forall t: nat {:trigger items[t]} :: t < |items| ==>
          ContentShown(w.nodes, items, classes, contentBlobs, imageOff, t))
  }

  /** The blobs of files and symlinks among the first k cells, in the order of their references. */
  function ContentOf(nodes: seq<Node>, contentBlobs: seq<Option<nat>>, k: nat): seq<nat>
    requires k <= |nodes|
  {
    if k == 0 then []
    else
      ContentOf(nodes, contentBlobs, k - 1) +
      (if HasContent(nodes[k - 1]) then
         [if k - 1 < |contentBlobs| && contentBlobs[k - 1].Some? then contentBlobs[k - 1].value else 0]
       else [])
  }

  ghost function NamesOf(im: Image, w: Work, nameBlobs: seq<nat>): seq<nat> {
    seq(|w.seen|, k requires 0 <= k < |w.seen| =>
      if w.seen[k] < |im.cells| && im.cells[w.seen[k]].w4 < |nameBlobs| then nameBlobs[im.cells[w.seen[k]].w4] else 0)
  }

  /** The blob each reference is to: the names' first, then the contents'. */
  ghost function BlobOfRef(im: Image, w: Work, nameBlobs: seq<nat>, contentBlobs: seq<Option<nat>>): seq<nat>
    requires |w.nodes| == |im.cells| + 1
  {
    NamesOf(im, w, nameBlobs) + ContentOf(FinalNodes(im, w), contentBlobs, |im.cells|)
  }

  lemma {:induction false} ContentAligned(nodes: seq<Node>, contentBlobs: seq<Option<nat>>, k: nat)
    requires k <= |nodes|
    ensures |ContentOf(nodes, contentBlobs, k)| == |ContentRefs(nodes, k)|
  {
    if k > 0 {
      ContentAligned(nodes, contentBlobs, k - 1);
    }
  }

  /** The r-th content reference is that of some cell. */
  lemma {:induction false} ContentAt(nodes: seq<Node>, contentBlobs: seq<Option<nat>>, k: nat, r: nat) returns (t: nat)
    requires k <= |nodes| && r < |ContentRefs(nodes, k)|
    ensures t < k && HasContent(nodes[t]) && ContentRefs(nodes, k)[r] == RefOf(nodes[t])
    ensures r < |ContentOf(nodes, contentBlobs, k)|
    ensures ContentOf(nodes, contentBlobs, k)[r]
         == if t < |contentBlobs| && contentBlobs[t].Some? then contentBlobs[t].value else 0
  {
    ContentAligned(nodes, contentBlobs, k - 1);
    if r < |ContentRefs(nodes, k - 1)| {
      t := ContentAt(nodes, contentBlobs, k - 1, r);
    } else {
      t := k - 1;
    }
  }

  /** And every cell with content has its reference. */
  lemma {:induction false} ContentRefOf(nodes: seq<Node>, contentBlobs: seq<Option<nat>>, k: nat, t: nat)
    returns (r: nat)
    requires t < k <= |nodes| && HasContent(nodes[t])
    ensures r < |ContentRefs(nodes, k)| && ContentRefs(nodes, k)[r] == RefOf(nodes[t])
    ensures r < |ContentOf(nodes, contentBlobs, k)|
    ensures ContentOf(nodes, contentBlobs, k)[r]
         == if t < |contentBlobs| && contentBlobs[t].Some? then contentBlobs[t].value else 0
  {
    ContentAligned(nodes, contentBlobs, k - 1);
    if t < k - 1 {
      r := ContentRefOf(nodes, contentBlobs, k - 1, t);
    } else {
      r := |ContentRefs(nodes, k - 1)|;
    }
  }

  // ---------------------------------------------------------------- what classification delivers

  /** The builder's classification and packing, shown by the image. */
  ghost predicate Delivered(im: Image, w: Work, items: seq<Item>, rootMode: nat, classes: seq<Class>,
                            nameBlobs: seq<nat>,
                            contentBlobs: seq<Option<nat>>, imageOff: seq<nat>) {
    && Mirrored(im, w, items, rootMode)
    && Interning.Unequal(classes) && Interning.Covers(classes, Interning.Uses(items, rootMode, |items|))
    && Interning.Placed(items, |items|, classes, nameBlobs, contentBlobs)
    && OffsetsShown(im, w, items, classes, nameBlobs, contentBlobs, imageOff) && |imageOff| == |classes|
  }

  /** A class used publicly is public; equal classes are one. */
  lemma PublicUse(items: seq<Item>, rootMode: nat, classes: seq<Class>, o: Interning.Occurrence, b: nat)
    requires Interning.Covers(classes, Interning.Uses(items, rootMode, |items|)) && b < |classes|
    requires o in Interning.Uses(items, rootMode, |items|) && Interning.Same(classes[b], o.symlink, o.bytes)
    requires o.isPublic
    ensures classes[b].publicPart
  {
    var occs := Interning.Uses(items, rootMode, |items|);
    var k: nat :| k < |occs| && occs[k] == o;
    assert Interning.UsedPublicly(occs, classes[b]);
  }

  lemma OneClass(classes: seq<Class>, a: nat, b: nat, symlink: bool, bytes: seq<byte>)
    requires Interning.Unequal(classes) && a < |classes| && b < |classes|
    requires Interning.Same(classes[a], symlink, bytes) && Interning.Same(classes[b], symlink, bytes)
    ensures a == b
  {
  }

  // ---------------------------------------------------------------- references to names

  /** What the decoder recorded of the k-th name. */
  lemma NameRecorded(im: Image, w: Work, k: nat)
    requires Complete(im, w) && k < |w.seen|
    ensures |w.refs| == |w.names| == |w.seen| && |w.nodes| == |im.cells| + 1 && w.seen[k] < |im.cells|
    ensures var t := im.cells[w.seen[k]].w4;
            && t < |im.cells| && IsFrom(w.m, t) && w.nodes[t].parent < |w.nodes|
            && w.refs[k] == Sweep.Ref(im.cells[w.seen[k]].w8, |w.names[k].name|, false,
                                      w.nodes[w.nodes[t].parent].names)
  {
    OpenAll(im, w);
    assert NameFits(im, w.m, w.seen[k], w.names[k]);
    assert w.refs[k] == w.refs[k];
    assert NodeFits(im, w.m, w.nodes, im.cells[w.seen[k]].w4);
  }

  /** Every object's name is on the list. */
  lemma NameListed(im: Image, w: Work, t: nat) returns (k: nat)
    requires Complete(im, w) && IsFrom(w.m, t)
    ensures k < |w.seen| && w.seen[k] < |im.cells| && im.cells[w.seen[k]].w4 == t
  {
    OpenAll(im, w);
    assert Listed(w, t);
    k :| k < |w.seen| && w.seen[k] == w.m.from[t];
  }

  /** The k-th name's reference is to its blob, public when the builder says so. */
  lemma NameRefers(im: Image, w: Work, items: seq<Item>, rootMode: nat, classes: seq<Class>, nameBlobs: seq<nat>,
                   contentBlobs: seq<Option<nat>>, imageOff: seq<nat>, k: nat)
    requires Complete(im, w) && Delivered(im, w, items, rootMode, classes, nameBlobs, contentBlobs, imageOff)
    requires k < |w.seen|
    ensures k < |w.refs| && w.seen[k] < |im.cells| && im.cells[w.seen[k]].w4 < |items|
    ensures var t := im.cells[w.seen[k]].w4; var b := nameBlobs[t];
            && b < |classes| && NamesOf(im, w, nameBlobs)[k] == b && Interning.Same(classes[b], false, items[t].name)
            && w.refs[k].off == imageOff[b] && w.refs[k].size == |classes[b].bytes| && !w.refs[k].symlink
            && (w.refs[k].publicRef <==> Interning.NameUse(items, rootMode, t).isPublic)
  {
    NameRecorded(im, w, k);
    assert NameShown(im, w, items, nameBlobs, imageOff, k);
    var t := im.cells[w.seen[k]].w4;
    ParentAgrees(im, w, items, rootMode, t);
    assert Interning.ClassIs(classes, nameBlobs[t], false, items[t].name);
  }

  // ---------------------------------------------------------------- references to contents

  /** What the decoder made of file or symlink t. */
  lemma ContentRefers(im: Image, w: Work, items: seq<Item>, rootMode: nat, classes: seq<Class>, nameBlobs: seq<nat>,
                      contentBlobs: seq<Option<nat>>, imageOff: seq<nat>, t: nat)
    requires Complete(im, w) && Delivered(im, w, items, rootMode, classes, nameBlobs, contentBlobs, imageOff)
    requires t < |im.cells| && HasContent(FinalNodes(im, w)[t])
    ensures t < |items| && (items[t].kind == File || items[t].kind == Symlink)
    ensures contentBlobs[t].Some? && contentBlobs[t].value < |classes|
    ensures var b, x := contentBlobs[t].value, RefOf(FinalNodes(im, w)[t]);
            && Interning.Same(classes[b], items[t].kind == Symlink,
                              if items[t].kind == File then items[t].payload else items[t].target)
            && x.off == imageOff[b] && x.size == |classes[b].bytes| && x.symlink == (items[t].kind == Symlink)
            && (x.publicRef <==> items[t].kind == File && Interning.FilePublic(items, rootMode, t, |items|))
  {
    if t >= |items| {
      NotAnObject(im, w, t);
      assert false;
    }
    assert ShowsItem(w.nodes, |im.cells|, items, t);
    assert ContentShown(w.nodes, items, classes, contentBlobs, imageOff, t);
    assert Interning.ContentIs(items, t, classes, contentBlobs[t]);
    if items[t].kind == File {
      FilePublicAgrees(im, w, items, rootMode, t);
    } else {
      SymlinkPrivate(im, w, items, rootMode, t);
    }
  }

  lemma SymlinkPrivate(im: Image, w: Work, items: seq<Item>, rootMode: nat, t: nat)
    requires Complete(im, w) && Mirrored(im, w, items, rootMode) && t < |items| && items[t].kind == Symlink
    ensures t < |FinalNodes(im, w)| && !FinalNodes(im, w)[t].publicFile
  {
    EnteredPrivate(im, w, t);
    if Reached(w.nodes, t, |im.cells|) {
      var i: nat :| i < |im.cells| && Occurs(w.nodes, i, t) && w.nodes[i].parent < |w.nodes|
                    && w.nodes[w.nodes[i].parent].search;
      OccursAgrees(im, w, items, rootMode, i, t);
    }
  }

  // ---------------------------------------------------------------- all references

  /** Reference r is to blob b: the right place and size, public only if the blob is. */
  predicate IsTo(x: Sweep.Ref, classes: seq<Class>, imageOff: seq<nat>, b: nat) {
    && b < |classes| && b < |imageOff| && x.off == imageOff[b] && x.size == |classes[b].bytes|
    && x.symlink == classes[b].symlink && (x.publicRef ==> classes[b].publicPart)
  }

  lemma RefTo(im: Image, w: Work, items: seq<Item>, rootMode: nat, classes: seq<Class>, nameBlobs: seq<nat>,
              contentBlobs: seq<Option<nat>>, imageOff: seq<nat>, r: nat)
    requires Complete(im, w) && Delivered(im, w, items, rootMode, classes, nameBlobs, contentBlobs, imageOff)
    requires r < |AllRefs(im, w)|
    ensures r < |BlobOfRef(im, w, nameBlobs, contentBlobs)|
    ensures IsTo(AllRefs(im, w)[r], classes, imageOff, BlobOfRef(im, w, nameBlobs, contentBlobs)[r])
  {
    var n, occs := |w.refs|, Interning.Uses(items, rootMode, |items|);
    RefCounts(im, w);
    if r < n {
      NameRefers(im, w, items, rootMode, classes, nameBlobs, contentBlobs, imageOff, r);
      var t := im.cells[w.seen[r]].w4;
      Interning.UsesHave(items, rootMode, |items|, t);
      if w.refs[r].publicRef {
        PublicUse(items, rootMode, classes, Interning.NameUse(items, rootMode, t), nameBlobs[t]);
      }
    } else {
      var t := ContentAt(FinalNodes(im, w), contentBlobs, |im.cells|, r - n);
      ContentRefers(im, w, items, rootMode, classes, nameBlobs, contentBlobs, imageOff, t);
      Interning.UsesHave(items, rootMode, |items|, t);
      if RefOf(FinalNodes(im, w)[t]).publicRef {
        FileUse(im, w, items, rootMode, t);
        PublicUse(items, rootMode, classes, Interning.ContentUse(items, rootMode, t)[0], contentBlobs[t].value);
      }
    }
  }

  lemma RefCounts(im: Image, w: Work)
    requires Complete(im, w)
    ensures |w.refs| == |w.seen| == |w.names| && |w.nodes| == |im.cells| + 1
  {
    OpenAll(im, w);
  }

  lemma FileUse(im: Image, w: Work, items: seq<Item>, rootMode: nat, t: nat)
    requires Mirrored(im, w, items, rootMode) && t < |items| && items[t].kind == File
    ensures Interning.ContentUse(items, rootMode, t)
         == [Interning.Occurrence(false, items[t].payload, Interning.FilePublic(items, rootMode, t, |items|))]
  {
    assert ShowsItem(w.nodes, |im.cells|, items, t);
  }

  /** A public blob has a public reference. */
  lemma PublicRef(im: Image, w: Work, items: seq<Item>, rootMode: nat, classes: seq<Class>, nameBlobs: seq<nat>,
                  contentBlobs: seq<Option<nat>>, imageOff: seq<nat>, b: nat)
    requires Complete(im, w) && Delivered(im, w, items, rootMode, classes, nameBlobs, contentBlobs, imageOff)
    requires b < |classes| && classes[b].publicPart
    ensures |w.nodes| == |im.cells| + 1
    ensures Content.PublicSomewhere(AllRefs(im, w), BlobOfRef(im, w, nameBlobs, contentBlobs), b)
  {
    var occs := Interning.Uses(items, rootMode, |items|);
    RefCounts(im, w);
    assert Interning.UsedPublicly(occs, classes[b]);
    var o: nat :| o < |occs| && Interning.Same(classes[b], occs[o].symlink, occs[o].bytes) && occs[o].isPublic;
    var i := Interning.UseFrom(items, rootMode, |items|, occs[o]);
    if occs[o] == Interning.NameUse(items, rootMode, i) {
      PublicName(im, w, items, rootMode, classes, nameBlobs, contentBlobs, imageOff, b, i);
    } else {
      var t := PublicFile(im, w, items, rootMode, i);
      PublicContent(im, w, items, rootMode, classes, nameBlobs, contentBlobs, imageOff, b, t);
    }
  }

  /** Content used publicly is that of a public file. */
  lemma PublicFile(im: Image, w: Work, items: seq<Item>, rootMode: nat, i: nat) returns (t: nat)
    requires Mirrored(im, w, items, rootMode) && i < |items| && |Interning.ContentUse(items, rootMode, i)| == 1
    requires Interning.ContentUse(items, rootMode, i)[0].isPublic
    ensures t < |items| && items[t].kind == File && Interning.FilePublic(items, rootMode, t, |items|)
    ensures Interning.ContentUse(items, rootMode, i)[0] == Interning.Occurrence(false, items[t].payload, true)
  {
    assert ShowsItem(w.nodes, |im.cells|, items, i);
    t := items[i].canonical;
  }

  lemma PublicName(im: Image, w: Work, items: seq<Item>, rootMode: nat, classes: seq<Class>, nameBlobs: seq<nat>,
                   contentBlobs: seq<Option<nat>>, imageOff: seq<nat>, b: nat, i: nat)
    requires Complete(im, w) && Delivered(im, w, items, rootMode, classes, nameBlobs, contentBlobs, imageOff)
    requires b < |classes| && i < |items| && Interning.NameUse(items, rootMode, i).isPublic
    requires Interning.Same(classes[b], false, items[i].name)
    ensures |w.nodes| == |im.cells| + 1
    ensures Content.PublicSomewhere(AllRefs(im, w), BlobOfRef(im, w, nameBlobs, contentBlobs), b)
  {
    RefCounts(im, w);
    assert IsFrom(w.m, i);
    var k := NameListed(im, w, i);
    NameRefers(im, w, items, rootMode, classes, nameBlobs, contentBlobs, imageOff, k);
    OneClass(classes, nameBlobs[i], b, false, items[i].name);
    assert BlobOfRef(im, w, nameBlobs, contentBlobs)[k] == b && AllRefs(im, w)[k].publicRef;
  }

  lemma PublicContent(im: Image, w: Work, items: seq<Item>, rootMode: nat, classes: seq<Class>, nameBlobs: seq<nat>,
                      contentBlobs: seq<Option<nat>>, imageOff: seq<nat>, b: nat, t: nat)
    requires Complete(im, w) && Delivered(im, w, items, rootMode, classes, nameBlobs, contentBlobs, imageOff)
    requires b < |classes| && t < |items| && items[t].kind == File && Interning.FilePublic(items, rootMode, t, |items|)
    requires Interning.Same(classes[b], false, items[t].payload)
    ensures |w.nodes| == |im.cells| + 1
    ensures Content.PublicSomewhere(AllRefs(im, w), BlobOfRef(im, w, nameBlobs, contentBlobs), b)
  {
    RefCounts(im, w);
    assert ShowsItem(w.nodes, |im.cells|, items, t);
    FinalShape(im, w, t);
    var r := ContentRefOf(FinalNodes(im, w), contentBlobs, |im.cells|, t);
    ContentRefers(im, w, items, rootMode, classes, nameBlobs, contentBlobs, imageOff, t);
    OneClass(classes, contentBlobs[t].value, b, false, items[t].payload);
    SomewhereInContent(im, w, nameBlobs, contentBlobs, r);
  }

  lemma FinalShape(im: Image, w: Work, t: nat)
    requires t < |w.nodes|
    ensures t < |FinalNodes(im, w)| && FinalNodes(im, w)[t].kind == w.nodes[t].kind
  {
  }

  lemma SomewhereInContent(im: Image, w: Work, nameBlobs: seq<nat>, contentBlobs: seq<Option<nat>>, r: nat)
    requires |w.nodes| == |im.cells| + 1 && |w.refs| == |w.seen|
    requires var nodes := FinalNodes(im, w);
             && r < |ContentRefs(nodes, |im.cells|)| && r < |ContentOf(nodes, contentBlobs, |im.cells|)|
             && ContentRefs(nodes, |im.cells|)[r].publicRef
    ensures Content.PublicSomewhere(AllRefs(im, w), BlobOfRef(im, w, nameBlobs, contentBlobs),
                                    ContentOf(FinalNodes(im, w), contentBlobs, |im.cells|)[r])
  {
    var n := |w.refs|;
    assert BlobOfRef(im, w, nameBlobs, contentBlobs)[n + r]
        == ContentOf(FinalNodes(im, w), contentBlobs, |im.cells|)[r];
    assert AllRefs(im, w)[n + r] == ContentRefs(FinalNodes(im, w), |im.cells|)[r];
  }

  /** The references of a decoded image refer to the packed blobs, each public exactly when one of its
      references is. */
  lemma RefersDelivered(im: Image, w: Work, items: seq<Item>, rootMode: nat, classes: seq<Class>, nameBlobs: seq<nat>,
                        contentBlobs: seq<Option<nat>>, imageOff: seq<nat>, digest: seq<byte> -> nat)
    requires Complete(im, w) && Delivered(im, w, items, rootMode, classes, nameBlobs, contentBlobs, imageOff)
    ensures |w.nodes| == |im.cells| + 1
    ensures Content.RefersTo(AllRefs(im, w), BlobOfRef(im, w, nameBlobs, contentBlobs), BlobsOf(classes, digest),
                             imageOff)
  {
    RefCounts(im, w);
    var refs, of := AllRefs(im, w), BlobOfRef(im, w, nameBlobs, contentBlobs);
    ContentAligned(FinalNodes(im, w), contentBlobs, |im.cells|);
    forall r: nat | r < |refs|
      ensures IsTo(refs[r], classes, imageOff, of[r])
      ensures classes[of[r]].publicPart ==> Content.PublicSomewhere(refs, of, of[r])
    {
      RefTo(im, w, items, rootMode, classes, nameBlobs, contentBlobs, imageOff, r);
      if classes[of[r]].publicPart {
        PublicRef(im, w, items, rootMode, classes, nameBlobs, contentBlobs, imageOff, of[r]);
      }
    }
  }

  /** So a built image passes the decoder's tests of content: no two references conflict, and every one lies
      in the part its visibility calls for. */
  lemma PartsAgree(im: Image, w: Work, items: seq<Item>, rootMode: nat, classes: seq<Class>, nameBlobs: seq<nat>,
                   contentBlobs: seq<Option<nat>>, imageOff: seq<nat>, digest: seq<byte> -> nat, o: Content.Offsets,
                   cellCount: nat)
    requires Complete(im, w) && Delivered(im, w, items, rootMode, classes, nameBlobs, contentBlobs, imageOff)
    requires Interning.Sized(classes) && im.privateOff == o.privateOff
    requires Content.WellPacked(BlobsOf(classes, digest), imageOff, o, cellCount)
    ensures |w.nodes| == |im.cells| + 1
    ensures Sweep.NoConflict(Sweep.Places(AllRefs(im, w))) && RightParts(AllRefs(im, w), im.privateOff)
  {
    var blobs := BlobsOf(classes, digest);
    RefersDelivered(im, w, items, rootMode, classes, nameBlobs, contentBlobs, imageOff, digest);
    forall i: nat | i < |blobs|
      ensures Packing.Storable(blobs[i])
    {
      assert classes[i].stored == Sweep.StoredSize(|classes[i].bytes|) <= MAX32;
    }
    Content.ReaderAccepts(blobs, imageOff, o, cellCount, AllRefs(im, w), BlobOfRef(im, w, nameBlobs, contentBlobs));
  }
}
