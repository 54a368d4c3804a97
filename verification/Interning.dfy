/** Giving equal content one blob, and each blob its part (programs/makefemtofs.cpp:1103-1222): names and
    shared content in one domain, symlink targets in another; public when some occurrence is. */
module Interning {
  import opened Format
  import opened Paths
  import opened Sweep
  import opened TreeNodes
  import ImageTree

  /** A node after normalization; `canonical` is the file that a file or hardlink stands for. */
  datatype Item = Item(path: seq<byte>, parent: seq<byte>, name: seq<byte>, kind: Kind, mode: nat, canonical: nat,
                       payload: seq<byte>, target: seq<byte>)

  const SLASH: byte := 47

  datatype Right = Search | List

  predicate Grants(mode: nat, right: Right) {
    if right.Search? then OthersSearch(mode) else OthersList(mode)
  }

  // ---------------------------------------------------------------- visibility along a path

  /** The directory part of a path. */
  function ParentPath(path: seq<byte>): (p: seq<byte>)
    ensures path != [] ==> |p| < |path|
    ensures p <= path
  {
    if path == [] then []
    else if path[|path| - 1] == SLASH then path[..|path| - 1]
    else ParentPath(path[..|path| - 1])
  }

  /** Everyone has the right in every directory from the root to the one at this path. */
  ghost predicate Allows(items: seq<Item>, rootMode: nat, path: seq<byte>, right: Right)
    decreases |path|
  {
    if path == [] then Grants(rootMode, right)
    else DirectoryGrants(items, path, right) && Allows(items, rootMode, ParentPath(path), right)
  }

  ghost predicate DirectoryGrants(items: seq<Item>, path: seq<byte>, right: Right) {
    exists i: nat :: i < |items| && items[i].path == path && items[i].kind == Directory && Grants(items[i].mode, right)
  }

  function PathOf(): Item -> seq<byte> {
    (n: Item) => n.path
  }

  /** No component is empty. */
  predicate PathOk(path: seq<byte>) {
    (path == [] || (path[0] != SLASH && path[|path| - 1] != SLASH)) &&
    forall i: nat :: i + 1 < |path| ==> !(path[i] == SLASH && path[i + 1] == SLASH)
  }

  function Find(path: seq<byte>, start: nat): (end: nat)
    requires start <= |path|
    ensures start <= end <= |path| && (end < |path| ==> path[end] == SLASH)
    ensures forall i: nat :: start <= i < end ==> path[i] != SLASH
    decreases |path| - start
  {
    if start == |path| || path[start] == SLASH then start else Find(path, start + 1)
  }

  lemma {:induction false} NoSlashAfter(path: seq<byte>, cut: nat, end: nat)
    requires cut < end <= |path| && path[cut] == SLASH && forall i: nat :: cut < i < end ==> path[i] != SLASH
    ensures ParentPath(path[..end]) == path[..cut]
    decreases end
  {
    assert path[..end][|path[..end]| - 1] == path[end - 1];
    assert path[..end][..end - 1] == path[..end - 1];
    if cut < end - 1 {
      NoSlashAfter(path, cut, end - 1);
    }
  }

  lemma {:induction false} NoSlashAtAll(path: seq<byte>, end: nat)
    requires end <= |path| && forall i: nat :: i < end ==> path[i] != SLASH
    ensures ParentPath(path[..end]) == []
  {
    if end > 0 {
      assert path[..end][|path[..end]| - 1] == path[end - 1];
      assert path[..end][..end - 1] == path[..end - 1];
      NoSlashAtAll(path, end - 1);
    }
  }

  /** `pathDirectoriesAllow`: component by component from the root down. */
  method PathAllows(items: seq<Item>, byPath: map<seq<byte>, nat>, rootMode: nat, parent: seq<byte>, right: Right)
    returns (ok: bool)
    requires IndexOf(items, PathOf(), byPath) && PathOk(parent)
    ensures ok <==> Allows(items, rootMode, parent, right)
  {
    if !Grants(rootMode, right) {
      RootFirst(items, rootMode, parent, right);
      return false;
    }
    if parent == [] {
      return true;
    }
    var current: seq<byte> := [];
    var start := 0;
    AllowsStart(items, rootMode, parent, right);
    while start < |parent|
      invariant start < |parent| && Allowed(items, rootMode, parent, start, current, right)
      decreases |parent| - start
    {
      var end := Find(parent, start);
      AllowsNext(items, rootMode, parent, start, end, current, right);
      current := Extended(current, parent[start..end]);
      var granted := ComponentGrants(items, byPath, current, right);
      if !granted {
        return false;
      }
      if end == |parent| {
        return true;
      }
      start := end + 1;
    }
    ok := true;
  }

  /** Before a component: everything up to the slash before it. */
  ghost predicate Between(parent: seq<byte>, start: nat, current: seq<byte>) {
    start < |parent| &&
    if start == 0 then current == [] else start > 1 && parent[start - 1] == SLASH && current == parent[..start - 1]
  }

  lemma NextComponent(parent: seq<byte>, start: nat, end: nat, current: seq<byte>)
    requires PathOk(parent) && Between(parent, start, current) && end == Find(parent, start)
    ensures start < end <= |parent| && parent[..end] != [] && ParentPath(parent[..end]) == current
    ensures Extended(current, parent[start..end]) == parent[..end]
    ensures end < |parent| ==> Between(parent, end + 1, parent[..end])
  {
    if start == 0 {
      NoSlashAtAll(parent, end);
    } else {
      NoSlashAfter(parent, start - 1, end);
    }
  }

  function Extended(path: seq<byte>, component: seq<byte>): seq<byte> {
    (if path == [] then path else path + [SLASH]) + component
  }

  /** Every directory up to here grants the right; closed (see `Key` of the format). */
  ghost predicate Allowed(items: seq<Item>, rootMode: nat, parent: seq<byte>, start: nat, current: seq<byte>,
                          right: Right) {
    forall k: nat {:trigger Format.Key(k)} :: Format.Key(k) ==>
      Between(parent, start, current) && Allows(items, rootMode, current, right)
  }

  lemma AllowsStart(items: seq<Item>, rootMode: nat, parent: seq<byte>, right: Right)
    requires Grants(rootMode, right) && parent != []
    ensures Allowed(items, rootMode, parent, 0, [], right)
  {
  }

  /** What the component's directory says settles the path so far, or the whole of it. */
  lemma AllowsNext(items: seq<Item>, rootMode: nat, parent: seq<byte>, start: nat, end: nat, current: seq<byte>,
                   right: Right)
    requires PathOk(parent) && start < |parent| && Allowed(items, rootMode, parent, start, current, right)
    requires end == Find(parent, start)
    ensures start < end
    ensures var next := Extended(current, parent[start..end]);
            if !DirectoryGrants(items, next, right) then !Allows(items, rootMode, parent, right)
            else if end == |parent| then Allows(items, rootMode, parent, right)
            else end + 1 < |parent| && Allowed(items, rootMode, parent, end + 1, next, right)
  {
    assert Format.Key(0);
    NextComponent(parent, start, end, current);
    assert end == |parent| ==> parent[..end] == parent;
    if !DirectoryGrants(items, parent[..end], right) {
      Prefixes(items, rootMode, parent, end, right);
    }
  }

  method ComponentGrants(items: seq<Item>, byPath: map<seq<byte>, nat>, path: seq<byte>, right: Right)
    returns (ok: bool)
    requires IndexOf(items, PathOf(), byPath)
    ensures ok <==> DirectoryGrants(items, path, right)
  {
    ok := path in byPath && items[byPath[path]].kind == Directory && Grants(items[byPath[path]].mode, right);
  }

  lemma {:induction false} RootFirst(items: seq<Item>, rootMode: nat, path: seq<byte>, right: Right)
    requires !Grants(rootMode, right)
    ensures !Allows(items, rootMode, path, right)
    decreases |path|
  {
    if path != [] {
      RootFirst(items, rootMode, ParentPath(path), right);
    }
  }

  /** What a directory on the way denies is denied further down. */
  lemma {:induction false} Prefixes(items: seq<Item>, rootMode: nat, path: seq<byte>, end: nat, right: Right)
    requires end <= |path| && (end == |path| || path[end] == SLASH) && !Allows(items, rootMode, path[..end], right)
    ensures !Allows(items, rootMode, path, right)
    decreases |path|
  {
    if end == |path| {
      assert path[..end] == path;
    } else {
      CutsAtSlash(path, end);
      var p := ParentPath(path);
      assert p[..end] == path[..end];
      Prefixes(items, rootMode, p, end, right);
    }
  }

  lemma {:induction false} CutsAtSlash(path: seq<byte>, end: nat)
    requires end < |path| && path[end] == SLASH
    ensures var p := ParentPath(path); end <= |p| && (end == |p| || p[end] == SLASH)
  {
    if path[|path| - 1] != SLASH {
      CutsAtSlash(path[..|path| - 1], end);
    }
  }

  // ---------------------------------------------------------------- the bits in question

  /** p is the path itself or the path of a directory above it, other than the root. */
  predicate On(p: seq<byte>, path: seq<byte>) {
    p != [] && (p == path || (|p| < |path| && path[..|p|] == p && path[|p|] == 47))
  }

  /** The directory part ends at the last slash. */
  lemma {:induction false} LastSlash(path: seq<byte>)
    ensures var q := ParentPath(path);
            if 47 in path then |q| < |path| && path[..|q|] == q && path[|q|] == 47 && 47 !in path[|q| + 1..]
            else q == []
  {
    if path != [] {
      var last := |path| - 1;
      var front := path[..last];
      assert path == front + [path[last]];
      if path[last] != 47 {
        LastSlash(front);
        var q := ParentPath(front);
        if 47 in front {
          assert path[|q| + 1..] == front[|q| + 1..] + [path[last]];
        }
      }
    }
  }

  lemma NoneAfter(path: seq<byte>, start: nat)
    requires start <= |path| && 47 !in path[start..]
    ensures forall i: nat :: start <= i < |path| ==> path[i] != 47
  {
    forall i: nat | start <= i < |path|
      ensures path[i] != 47
    {
      assert path[i] == path[start..][i - start];
    }
  }

  /** What is above a path is above its directory part. */
  lemma OnParent(p: seq<byte>, path: seq<byte>)
    requires path != []
    ensures On(p, path) <==> p != [] && (p == path || On(p, ParentPath(path)))
  {
    LastSlash(path);
    var q := ParentPath(path);
    if p != [] && |p| < |path| && path[..|p|] == p && path[|p|] == 47 {
      assert path[|p|] == 47 && 47 in path;
      NoneAfter(path, |q| + 1);
      assert q == path[..|q|];
      if |p| < |q| {
        assert q[..|p|] == p && q[|p|] == 47;
      }
    }
    if On(p, q) {
      assert p == path[..|p|];
    }
  }

  ghost predicate GrantsOn(items: seq<Item>, path: seq<byte>, right: Right) {
    forall p: seq<byte> {:trigger On(p, path)} :: On(p, path) ==> DirectoryGrants(items, p, right)
  }

  /** Every directory on the way grants the right. */
  lemma {:induction false} AllowsOn(items: seq<Item>, rootMode: nat, path: seq<byte>, right: Right)
    ensures Allows(items, rootMode, path, right) <==> Grants(rootMode, right) && GrantsOn(items, path, right)
    decreases |path|
  {
    if path != [] {
      var q := ParentPath(path);
      AllowsOn(items, rootMode, q, right);
      forall p: seq<byte>
        ensures On(p, path) <==> p != [] && (p == path || On(p, q))
      {
        OnParent(p, path);
      }
      assert On(path, path);
    }
  }

  /** A directory of this path that others may search, and list as well if asked. */
  ghost predicate OpenAt(items: seq<Item>, p: seq<byte>, list: bool) {
    exists i: nat {:trigger items[i]} :: i < |items| && items[i].path == p && items[i].kind == Directory
      && items[i].mode % 2 == 1 && (list ==> items[i].mode / 4 % 2 == 1)
  }

  /** Searching needs the lowest bit of every directory from the root down, listing also the third. */
  lemma AllowsMeans(items: seq<Item>, rootMode: nat, path: seq<byte>)
    ensures Allows(items, rootMode, path, Search) <==>
            rootMode % 2 == 1 && forall p: seq<byte> {:trigger On(p, path)} :: On(p, path) ==>
              exists i: nat {:trigger items[i]} ::
                i < |items| && items[i].path == p && items[i].kind == Directory && items[i].mode % 2 == 1
    ensures Allows(items, rootMode, path, List) <==>
            rootMode % 2 == 1 && rootMode / 4 % 2 == 1 && forall p: seq<byte> {:trigger On(p, path)} :: On(p, path) ==>
              exists i: nat {:trigger items[i]} :: i < |items| && items[i].path == p && items[i].kind == Directory
                && items[i].mode % 2 == 1 && items[i].mode / 4 % 2 == 1
  {
    AllowsOn(items, rootMode, path, Search);
    AllowsOn(items, rootMode, path, List);
  }

  /** A file is public exactly when others have its read bit, and the search bit of every directory above one of
      its names. */
  lemma FilePublicMeans(items: seq<Item>, rootMode: nat, c: nat)
    ensures FilePublic(items, rootMode, c, |items|) <==>
            && c < |items| && items[c].mode / 4 % 2 == 1 && rootMode % 2 == 1
            && exists o: nat {:trigger items[o]} :: o < |items|
                 && (items[o].kind == File || items[o].kind == Hardlink) && items[o].canonical == c
                 && forall p: seq<byte> {:trigger On(p, items[o].parent)} :: On(p, items[o].parent) ==>
                      OpenAt(items, p, false)
  {
    forall o: nat | o < |items|
      ensures Allows(items, rootMode, items[o].parent, Search) <==>
              rootMode % 2 == 1 && forall p: seq<byte> {:trigger On(p, items[o].parent)} :: On(p, items[o].parent) ==>
                OpenAt(items, p, false)
    {
      AllowsMeans(items, rootMode, items[o].parent);
      OpenIs(items, items[o].parent);
    }
  }

  lemma OpenIs(items: seq<Item>, path: seq<byte>)
    ensures (forall p: seq<byte> {:trigger On(p, path)} :: On(p, path) ==> OpenAt(items, p, false)) <==>
            forall p: seq<byte> {:trigger On(p, path)} :: On(p, path) ==>
              exists i: nat {:trigger items[i]} ::
                i < |items| && items[i].path == p && items[i].kind == Directory && items[i].mode % 2 == 1
  {
  }

  /** A name is public exactly when others have both bits of every directory above it. */
  lemma NamePublicMeans(items: seq<Item>, rootMode: nat, i: nat)
    requires i < |items|
    ensures NameUse(items, rootMode, i).isPublic <==>
            && rootMode % 2 == 1 && rootMode / 4 % 2 == 1
            && forall p: seq<byte> {:trigger On(p, items[i].parent)} :: On(p, items[i].parent) ==>
                 OpenAt(items, p, true)
  {
    AllowsMeans(items, rootMode, items[i].parent);
  }

  // ---------------------------------------------------------------- classes of equal content

  datatype Class = Class(symlink: bool, bytes: seq<byte>, publicPart: bool, stored: nat)

  /** What candidates are looked up by; equal keys need not mean equal content. */
  datatype Key = Key(symlink: bool, size: nat, digest: nat)

  function KeyOf(digest: seq<byte> -> nat, symlink: bool, bytes: seq<byte>): Key {
    Key(symlink, |bytes|, digest(bytes))
  }

  predicate Same(c: Class, symlink: bool, bytes: seq<byte>) {
    c.symlink == symlink && c.bytes == bytes
  }

  ghost predicate Unequal(blobs: seq<Class>) {
    forall i: nat, j: nat :: i < j < |blobs| ==> !Same(blobs[i], blobs[j].symlink, blobs[j].bytes)
  }

  /** Candidates of a key are exactly the classes with that key. */
  ghost predicate Indexed(digest: seq<byte> -> nat, blobs: seq<Class>, candidates: map<Key, seq<nat>>) {
    && (forall i: nat {:trigger blobs[i]} :: i < |blobs| ==>
          var key := KeyOf(digest, blobs[i].symlink, blobs[i].bytes); key in candidates && i in candidates[key])
    && (forall key: Key, k: nat {:trigger candidates[key][k]} :: key in candidates && k < |candidates[key]| ==>
          candidates[key][k] < |blobs|)
  }

  ghost predicate Sized(blobs: seq<Class>) {
    forall i: nat {:trigger blobs[i]} :: i < |blobs| ==> blobs[i].stored == StoredSize(|blobs[i].bytes|) <= MAX32
  }

  ghost predicate TableOk(digest: seq<byte> -> nat, blobs: seq<Class>, candidates: map<Key, seq<nat>>) {
    Unequal(blobs) && Indexed(digest, blobs, candidates) && Sized(blobs)
  }

  /** The classes after one more occurrence, which is of class index. */
  predicate Interned(was: seq<Class>, symlink: bool, bytes: seq<byte>, isPublic: bool, now: seq<Class>, index: nat) {
    && |was| <= |now| && index < |now| && Same(now[index], symlink, bytes)
    && (if index < |was| then now == was[index := was[index].(publicPart := was[index].publicPart || isPublic)]
        else index == |was| && now == was + [Class(symlink, bytes, isPublic, StoredSize(|bytes|))])
  }

  /** `internBlob`.  It fails only on content whose stored size has no 32-bit form. */
  method Intern(digest: seq<byte> -> nat, blobsIn: seq<Class>, candidatesIn: map<Key, seq<nat>>,
                symlink: bool, bytes: seq<byte>, isPublic: bool)
    returns (r: Result<nat>, blobs: seq<Class>, candidates: map<Key, seq<nat>>)
    requires TableOk(digest, blobsIn, candidatesIn)
    ensures r.Ok? <==> StoredSize(|bytes|) <= MAX32
    ensures r.Ok? ==> TableOk(digest, blobs, candidates) && Interned(blobsIn, symlink, bytes, isPublic, blobs, r.value)
  {
    blobs, candidates := blobsIn, candidatesIn;
    var key := KeyOf(digest, symlink, bytes);
    var bucket := if key in candidates then candidates[key] else [];
    if key in candidates {
      CandidatesBelow(digest, blobs, candidates, key);
    }
    var found := Among(blobs, bucket, symlink, bytes);
    if found.Some? {
      var index := found.value;
      blobs := blobs[index := blobs[index].(publicPart := blobs[index].publicPart || isPublic)];
      PromoteKeeps(digest, blobsIn, candidates, index, isPublic);
      return Ok(index), blobs, candidates;
    }
    var stored := StoredSize(|bytes|);
    NotThere(digest, blobs, candidates, symlink, bytes);
    if stored > MAX32 {
      return Err("encoded blob size exceeds uint32_t"), blobs, candidates;
    }
    var index := |blobs|;
    blobs := blobs + [Class(symlink, bytes, isPublic, stored)];
    candidates := candidates[key := bucket + [index]];
    AppendKeeps(digest, blobsIn, candidatesIn, blobs, candidates, key, bucket);
    r := Ok(index);
  }

  /** Digests only pick the candidates; what counts is equality. */
  method Among(blobs: seq<Class>, bucket: seq<nat>, symlink: bool, bytes: seq<byte>) returns (found: Option<nat>)
    requires forall k: nat :: k < |bucket| ==> bucket[k] < |blobs|
    ensures found.Some? ==> found.value < |blobs| && Same(blobs[found.value], symlink, bytes)
    ensures found.None? ==> forall k: nat :: k < |bucket| ==> !Same(blobs[bucket[k]], symlink, bytes)
  {
    for k := 0 to |bucket|
      invariant forall j: nat :: j < k ==> !Same(blobs[bucket[j]], symlink, bytes)
    {
      if Same(blobs[bucket[k]], symlink, bytes) {
        return Some(bucket[k]);
      }
    }
    found := None;
  }

  lemma CandidatesBelow(digest: seq<byte> -> nat, blobs: seq<Class>, candidates: map<Key, seq<nat>>, key: Key)
    requires Indexed(digest, blobs, candidates) && key in candidates
    ensures forall k: nat :: k < |candidates[key]| ==> candidates[key][k] < |blobs|
  {
  }

  lemma PromoteKeeps(digest: seq<byte> -> nat, blobs: seq<Class>, candidates: map<Key, seq<nat>>, index: nat,
                     isPublic: bool)
    requires TableOk(digest, blobs, candidates) && index < |blobs|
    ensures TableOk(digest, blobs[index := blobs[index].(publicPart := blobs[index].publicPart || isPublic)],
                    candidates)
    ensures StoredSize(|blobs[index].bytes|) <= MAX32
  {
    var now := blobs[index := blobs[index].(publicPart := blobs[index].publicPart || isPublic)];
    forall i: nat | i < |now|
      ensures now[i].symlink == blobs[i].symlink && now[i].bytes == blobs[i].bytes && now[i].stored == blobs[i].stored
    {
    }
  }

  /** When no candidate is equal, no class is. */
  lemma NotThere(digest: seq<byte> -> nat, blobs: seq<Class>, candidates: map<Key, seq<nat>>, symlink: bool,
                 bytes: seq<byte>)
    requires Indexed(digest, blobs, candidates)
    requires var key := KeyOf(digest, symlink, bytes);
             key in candidates ==> forall j: nat :: j < |candidates[key]| ==>
               candidates[key][j] < |blobs| && !Same(blobs[candidates[key][j]], symlink, bytes)
    ensures forall i: nat :: i < |blobs| ==> !Same(blobs[i], symlink, bytes)
  {
    forall i: nat | i < |blobs|
      ensures !Same(blobs[i], symlink, bytes)
    {
      var key := KeyOf(digest, blobs[i].symlink, blobs[i].bytes);
      var j: nat :| j < |candidates[key]| && candidates[key][j] == i;
    }
  }

  lemma AppendKeeps(digest: seq<byte> -> nat, was: seq<Class>, cWas: map<Key, seq<nat>>, now: seq<Class>,
                    cNow: map<Key, seq<nat>>,
                    key: Key, bucket: seq<nat>)
    requires TableOk(digest, was, cWas) && |now| == |was| + 1 && now[..|was|] == was
    requires var c := now[|was|];
             && key == KeyOf(digest, c.symlink, c.bytes) && c.stored == StoredSize(|c.bytes|) <= MAX32
             && forall i: nat :: i < |was| ==> !Same(was[i], c.symlink, c.bytes)
    requires bucket == (if key in cWas then cWas[key] else []) && cNow == cWas[key := bucket + [|was|]]
    ensures TableOk(digest, now, cNow)
  {
    forall i: nat | i < |was|
      ensures now[i] == was[i]
    {
    }
    forall i: nat | i < |now|
      ensures var k := KeyOf(digest, now[i].symlink, now[i].bytes); k in cNow && i in cNow[k]
    {
      if i < |was| {
        assert now[i] == was[i];
        var k := KeyOf(digest, was[i].symlink, was[i].bytes);
        assert i in cWas[k];
      }
    }
    forall q: Key, k: nat {:trigger cNow[q][k]} | q in cNow && k < |cNow[q]|
      ensures cNow[q][k] < |now|
    {
      if q == key {
        assert k < |bucket| ==> cNow[q][k] == bucket[k];
      } else {
        assert cNow[q][k] == cWas[q][k];
      }
    }
  }

  // ---------------------------------------------------------------- all occurrences

  /** One use of some content. */
  datatype Occurrence = Occurrence(symlink: bool, bytes: seq<byte>, isPublic: bool)

  predicate IsFileLike(n: Item) {
    n.kind == File || n.kind == Hardlink
  }

  /** File c can be read by everyone, at its own path or at that of a hardlink to it, among the first n nodes. */
  ghost predicate FilePublic(items: seq<Item>, rootMode: nat, c: nat, n: nat) {
    c < |items| && OthersRead(items[c].mode) &&
    exists o: nat {:trigger items[o]} :: o < n && o < |items| && IsFileLike(items[o]) && items[o].canonical == c
      && Allows(items, rootMode, items[o].parent, Search)
  }

  ghost function NameUse(items: seq<Item>, rootMode: nat, i: nat): Occurrence
    requires i < |items|
  {
    Occurrence(false, items[i].name, Allows(items, rootMode, items[i].parent, List))
  }

  /** What node i holds, if it holds content. */
  ghost function ContentUse(items: seq<Item>, rootMode: nat, i: nat): seq<Occurrence>
    requires i < |items|
  {
    var n := items[i];
    if IsFileLike(n) && n.canonical < |items| then
      [Occurrence(false, items[n.canonical].payload, FilePublic(items, rootMode, n.canonical, |items|))]
    else if n.kind == Symlink then [Occurrence(true, n.target, false)]
    else []
  }

  /** The uses node i makes of content: its name, and what it holds. */
  ghost function UsesOf(items: seq<Item>, rootMode: nat, i: nat): seq<Occurrence>
    requires i < |items|
  {
    [NameUse(items, rootMode, i)] + ContentUse(items, rootMode, i)
  }

  ghost function Uses(items: seq<Item>, rootMode: nat, k: nat): seq<Occurrence>
    requires k <= |items|
  {
    if k == 0 then [] else Uses(items, rootMode, k - 1) + UsesOf(items, rootMode, k - 1)
  }

  ghost predicate Used(occs: seq<Occurrence>, c: Class) {
    exists k: nat {:trigger occs[k]} :: k < |occs| && Same(c, occs[k].symlink, occs[k].bytes)
  }

  ghost predicate UsedPublicly(occs: seq<Occurrence>, c: Class) {
    exists k: nat {:trigger occs[k]} :: k < |occs| && Same(c, occs[k].symlink, occs[k].bytes) && occs[k].isPublic
  }

  /** Every use has its class, every class a use, and a class is public exactly when some use of it is. */
  ghost predicate Covers(blobs: seq<Class>, occs: seq<Occurrence>) {
    && (forall k: nat {:trigger occs[k]} :: k < |occs| ==> HasClass(blobs, occs[k]))
    && (forall i: nat {:trigger blobs[i]} :: i < |blobs| ==>
          Used(occs, blobs[i]) && (blobs[i].publicPart <==> UsedPublicly(occs, blobs[i])))
  }

  ghost predicate HasClass(blobs: seq<Class>, o: Occurrence) {
    exists i: nat {:trigger blobs[i]} :: i < |blobs| && Same(blobs[i], o.symlink, o.bytes)
  }

  lemma UsedAppend(occs: seq<Occurrence>, o: Occurrence, c: Class)
    ensures Used(occs + [o], c) <==> Used(occs, c) || Same(c, o.symlink, o.bytes)
    ensures UsedPublicly(occs + [o], c) <==> UsedPublicly(occs, c) || (Same(c, o.symlink, o.bytes) && o.isPublic)
  {
    var more := occs + [o];
    assert forall k: nat :: k < |occs| ==> more[k] == occs[k];
    assert more[|occs|] == o;
    if Used(occs, c) {
      var k: nat :| k < |occs| && Same(c, occs[k].symlink, occs[k].bytes);
      assert more[k] == occs[k];
    }
    if UsedPublicly(occs, c) {
      var k: nat :| k < |occs| && Same(c, occs[k].symlink, occs[k].bytes) && occs[k].isPublic;
      assert more[k] == occs[k];
    }
  }

  lemma CoversNext(was: seq<Class>, occs: seq<Occurrence>, o: Occurrence, now: seq<Class>, index: nat)
    requires Covers(was, occs) && Unequal(now) && Interned(was, o.symlink, o.bytes, o.isPublic, now, index)
    ensures Covers(now, occs + [o])
  {
    var more := occs + [o];
    forall k: nat | k < |more|
      ensures HasClass(now, more[k])
    {
      if k < |occs| {
        StillHasClass(was, occs, o, now, index, k);
      } else {
        assert Same(now[index], o.symlink, o.bytes);
      }
    }
    forall i: nat | i < |now|
      ensures Used(more, now[i]) && (now[i].publicPart <==> UsedPublicly(more, now[i]))
    {
      ClassCovered(was, occs, o, now, index, i);
    }
  }

  lemma StillHasClass(was: seq<Class>, occs: seq<Occurrence>, o: Occurrence, now: seq<Class>, index: nat, k: nat)
    requires Covers(was, occs) && Interned(was, o.symlink, o.bytes, o.isPublic, now, index) && k < |occs|
    ensures HasClass(now, occs[k])
  {
    assert HasClass(was, occs[k]);
    var i: nat :| i < |was| && Same(was[i], occs[k].symlink, occs[k].bytes);
    assert Same(now[i], occs[k].symlink, occs[k].bytes);
  }

  lemma ClassCovered(was: seq<Class>, occs: seq<Occurrence>, o: Occurrence, now: seq<Class>, index: nat, i: nat)
    requires Covers(was, occs) && Unequal(now) && Interned(was, o.symlink, o.bytes, o.isPublic, now, index)
    requires i < |now|
    ensures Used(occs + [o], now[i]) && (now[i].publicPart <==> UsedPublicly(occs + [o], now[i]))
  {
    UsedAppend(occs, o, now[i]);
    if i != index {
      assert now[i] == was[i];
      assert !Same(now[i], o.symlink, o.bytes);
    } else if index < |was| {
      OnlyBytes(occs, was[i], now[i]);
    } else {
      assert forall j: nat :: j < |was| ==> now[j] == was[j];
      NoUse(was, occs, now[i]);
    }
  }

  lemma OnlyBytes(occs: seq<Occurrence>, c: Class, d: Class)
    requires c.symlink == d.symlink && c.bytes == d.bytes
    ensures Used(occs, c) == Used(occs, d) && UsedPublicly(occs, c) == UsedPublicly(occs, d)
  {
  }

  lemma NoUse(blobs: seq<Class>, occs: seq<Occurrence>, c: Class)
    requires Covers(blobs, occs) && forall i: nat :: i < |blobs| ==> !Same(blobs[i], c.symlink, c.bytes)
    ensures !UsedPublicly(occs, c)
  {
  }

  // ---------------------------------------------------------------- the classification

  /** Files and hardlinks point at nodes of the tree, and directory parts are well-formed. */
  ghost predicate TreeInput(items: seq<Item>) {
    forall i: nat {:trigger items[i]} :: i < |items| ==>
      PathOk(items[i].parent) && (IsFileLike(items[i]) ==> items[i].canonical < |items|)
  }

  lemma FilePublicNext(items: seq<Item>, rootMode: nat, c: nat, n: nat)
    requires n < |items|
    ensures FilePublic(items, rootMode, c, n + 1) <==>
            FilePublic(items, rootMode, c, n) ||
            (c < |items| && OthersRead(items[c].mode) && IsFileLike(items[n]) && items[n].canonical == c
             && Allows(items, rootMode, items[n].parent, Search))
  {
  }

  /** Which files everyone can read. */
  method PublicFiles(items: seq<Item>, byPath: map<seq<byte>, nat>, rootMode: nat) returns (publicFile: seq<bool>)
    requires IndexOf(items, PathOf(), byPath) && TreeInput(items)
    ensures |publicFile| == |items|
    ensures forall c: nat :: c < |items| ==> publicFile[c] == FilePublic(items, rootMode, c, |items|)
  {
    publicFile := seq(|items|, _ => false);
    for o := 0 to |items|
      invariant |publicFile| == |items|
      invariant forall c: nat :: c < |items| ==> publicFile[c] == FilePublic(items, rootMode, c, o)
    {
      forall c: nat
        ensures c < |items| ==>
                FilePublic(items, rootMode, c, o + 1)
                == (publicFile[c] || (OthersRead(items[c].mode) && IsFileLike(items[o]) && items[o].canonical == c
                                      && Allows(items, rootMode, items[o].parent, Search)))
      {
        FilePublicNext(items, rootMode, c, o);
      }
      var n := items[o];
      if IsFileLike(n) && OthersRead(items[n.canonical].mode) {
        var reached := PathAllows(items, byPath, rootMode, n.parent, Search);
        if reached {
          publicFile := publicFile[n.canonical := true];
        }
      }
    }
  }

  ghost predicate TooBig(occs: seq<Occurrence>) {
    exists k: nat {:trigger occs[k]} :: k < |occs| && StoredSize(|occs[k].bytes|) > MAX32
  }

  /** The class at index is that of the use. */
  predicate ClassIs(blobs: seq<Class>, index: nat, symlink: bool, bytes: seq<byte>) {
    index < |blobs| && Same(blobs[index], symlink, bytes)
  }

  /** The table is in order and covers the uses so far; closed (see `Key`). */
  ghost predicate Kept(digest: seq<byte> -> nat, blobs: seq<Class>, candidates: map<Key, seq<nat>>,
                       occs: seq<Occurrence>) {
    forall k: nat {:trigger Format.Key(k)} :: Format.Key(k) ==>
      TableOk(digest, blobs, candidates) && Covers(blobs, occs)
  }

  lemma OpenKept(digest: seq<byte> -> nat, blobs: seq<Class>, candidates: map<Key, seq<nat>>, occs: seq<Occurrence>)
    requires Kept(digest, blobs, candidates, occs)
    ensures TableOk(digest, blobs, candidates) && Covers(blobs, occs)
  {
    assert Format.Key(0);
  }

  lemma StillGrown(was: seq<Class>, symlink: bool, bytes: seq<byte>, isPublic: bool, now: seq<Class>, index: nat)
    requires Interned(was, symlink, bytes, isPublic, now, index)
    ensures Grown(was, now) && ClassIs(now, index, symlink, bytes)
  {
  }

  /** Intern one use, and carry the coverage along. */
  method AddUse(digest: seq<byte> -> nat, blobsIn: seq<Class>, candidatesIn: map<Key, seq<nat>>,
                symlink: bool, bytes: seq<byte>, isPublic: bool, ghost occs: seq<Occurrence>)
    returns (r: Result<nat>, blobs: seq<Class>, candidates: map<Key, seq<nat>>)
    requires Kept(digest, blobsIn, candidatesIn, occs)
    ensures r.Ok? <==> StoredSize(|bytes|) <= MAX32
    ensures r.Ok? ==> Kept(digest, blobs, candidates, occs + [Occurrence(symlink, bytes, isPublic)])
    ensures r.Ok? ==> Grown(blobsIn, blobs) && ClassIs(blobs, r.value, symlink, bytes)
  {
    OpenKept(digest, blobsIn, candidatesIn, occs);
    r, blobs, candidates := Intern(digest, blobsIn, candidatesIn, symlink, bytes, isPublic);
    if r.Ok? {
      CoversNext(blobsIn, occs, Occurrence(symlink, bytes, isPublic), blobs, r.value);
      StillGrown(blobsIn, symlink, bytes, isPublic, blobs, r.value);
    }
  }

  lemma TooBigSplit(a: seq<Occurrence>, b: seq<Occurrence>)
    ensures TooBig(a + b) <==> TooBig(a) || TooBig(b)
  {
    var c := a + b;
    assert forall k: nat :: k < |a| ==> c[k] == a[k];
    assert forall k: nat :: k < |b| ==> c[|a| + k] == b[k];
    if TooBig(a) {
      var k: nat :| k < |a| && StoredSize(|a[k].bytes|) > MAX32;
      assert c[k] == a[k];
    }
    if TooBig(b) {
      var k: nat :| k < |b| && StoredSize(|b[k].bytes|) > MAX32;
      assert c[|a| + k] == b[k];
    }
  }

  lemma TooBigOne(o: Occurrence)
    ensures TooBig([o]) <==> StoredSize(|o.bytes|) > MAX32
  {
    assert [o][0] == o;
  }

  /** What one node holds. */
  method ClassifyContent(digest: seq<byte> -> nat, items: seq<Item>, ghost rootMode: nat, publicFile: seq<bool>, i: nat,
                         blobsIn: seq<Class>, candidatesIn: map<Key, seq<nat>>, ghost occs: seq<Occurrence>)
    returns (ok: bool, blobs: seq<Class>, candidates: map<Key, seq<nat>>, contentBlob: Option<nat>)
    requires i < |items| && (IsFileLike(items[i]) ==> items[i].canonical < |items|)
    requires |publicFile| == |items|
    requires forall c: nat :: c < |items| ==> publicFile[c] == FilePublic(items, rootMode, c, |items|)
    requires Kept(digest, blobsIn, candidatesIn, occs)
    ensures ok <==> !TooBig(ContentUse(items, rootMode, i))
    ensures ok ==> Kept(digest, blobs, candidates, occs + ContentUse(items, rootMode, i))
    ensures ok ==> Grown(blobsIn, blobs) && ContentIs(items, i, blobs, contentBlob)
  {
    var n := items[i];
    var r;
    if IsFileLike(n) {
      var payload := items[n.canonical].payload;
      TooBigOne(Occurrence(false, payload, publicFile[n.canonical]));
      r, blobs, candidates := AddUse(digest, blobsIn, candidatesIn, false, payload, publicFile[n.canonical], occs);
    } else if n.kind == Symlink {
      TooBigOne(Occurrence(true, n.target, false));
      r, blobs, candidates := AddUse(digest, blobsIn, candidatesIn, true, n.target, false, occs);
    } else {
      assert occs + [] == occs;
      return true, blobsIn, candidatesIn, None;
    }
    ok, contentBlob := r.Ok?, if r.Ok? then Some(r.value) else None;
  }

  /** Classes are only added and promoted. */
  ghost predicate Grown(was: seq<Class>, now: seq<Class>) {
    |was| <= |now| && forall i: nat {:trigger now[i]} :: i < |was| ==> Same(now[i], was[i].symlink, was[i].bytes)
  }

  /** A node's content blob holds what the node holds. */
  predicate ContentIs(items: seq<Item>, i: nat, blobs: seq<Class>, contentBlob: Option<nat>)
    requires i < |items|
  {
    var n := items[i];
    if IsFileLike(n) then
      contentBlob.Some? && n.canonical < |items| && ClassIs(blobs, contentBlob.value, false, items[n.canonical].payload)
    else if n.kind == Symlink then contentBlob.Some? && ClassIs(blobs, contentBlob.value, true, n.target)
    else contentBlob.None?
  }

  /** The uses of one node. */
  method ClassifyNode(digest: seq<byte> -> nat, items: seq<Item>, byPath: map<seq<byte>, nat>, rootMode: nat,
                      publicFile: seq<bool>,
                      i: nat, blobsIn: seq<Class>, candidatesIn: map<Key, seq<nat>>, ghost occs: seq<Occurrence>)
    returns (ok: bool, blobs: seq<Class>, candidates: map<Key, seq<nat>>, nameBlob: nat, contentBlob: Option<nat>)
    requires IndexOf(items, PathOf(), byPath) && TreeInput(items) && i < |items|
    requires |publicFile| == |items|
    requires forall c: nat :: c < |items| ==> publicFile[c] == FilePublic(items, rootMode, c, |items|)
    requires Kept(digest, blobsIn, candidatesIn, occs)
    ensures ok <==> !TooBig(UsesOf(items, rootMode, i))
    ensures ok ==> Kept(digest, blobs, candidates, occs + UsesOf(items, rootMode, i))
    ensures ok ==> && Grown(blobsIn, blobs) && ClassIs(blobs, nameBlob, false, items[i].name)
                   && ContentIs(items, i, blobs, contentBlob)
  {
    var n := items[i];
    contentBlob, nameBlob := None, 0;
    ghost var use := NameUse(items, rootMode, i);
    TooBigSplit([use], ContentUse(items, rootMode, i));
    TooBigOne(use);
    var namePublic := PathAllows(items, byPath, rootMode, n.parent, List);
    var r;
    r, blobs, candidates := AddUse(digest, blobsIn, candidatesIn, false, n.name, namePublic, occs);
    if r.Err? {
      return false, blobs, candidates, 0, None;
    }
    nameBlob := r.value;
    assert occs + UsesOf(items, rootMode, i) == occs + [use] + ContentUse(items, rootMode, i);
    ok, blobs, candidates, contentBlob :=
      ClassifyContent(digest, items, rootMode, publicFile, i, blobs, candidates, occs + [use]);
  }

  /** Names and contents of the first k nodes are where their blobs say. */
  ghost predicate Placed(items: seq<Item>, k: nat, blobs: seq<Class>, nameBlobs: seq<nat>,
                         contentBlobs: seq<Option<nat>>) {
    |nameBlobs| == |contentBlobs| == k <= |items| && forall i: nat {:trigger nameBlobs[i]} {:trigger contentBlobs[i]} ::
      i < k ==>
      ClassIs(blobs, nameBlobs[i], false, items[i].name) && ContentIs(items, i, blobs, contentBlobs[i])
  }

  lemma PlacedNext(items: seq<Item>, k: nat, was: seq<Class>, now: seq<Class>, names: seq<nat>,
                   contents: seq<Option<nat>>,
                   name: nat, content: Option<nat>)
    requires Placed(items, k, was, names, contents) && Grown(was, now) && k < |items|
    requires ClassIs(now, name, false, items[k].name) && ContentIs(items, k, now, content)
    ensures Placed(items, k + 1, now, names + [name], contents + [content])
  {
    forall i: nat | i < k
      ensures ClassIs(now, names[i], false, items[i].name) && ContentIs(items, i, now, contents[i])
    {
      assert ClassIs(was, names[i], false, items[i].name) && ContentIs(items, i, was, contents[i]);
      assert Same(now[names[i]], was[names[i]].symlink, was[names[i]].bytes);
      if contents[i].Some? {
        var c := contents[i].value;
        assert Same(now[c], was[c].symlink, was[c].bytes);
      }
    }
  }

  /** Node i's name is used, and what it holds. */
  lemma {:induction false} UsesHave(items: seq<Item>, rootMode: nat, k: nat, i: nat)
    requires i < k <= |items|
    ensures NameUse(items, rootMode, i) in Uses(items, rootMode, k)
    ensures forall o :: o in ContentUse(items, rootMode, i) ==> o in Uses(items, rootMode, k)
  {
    if i < k - 1 {
      UsesHave(items, rootMode, k - 1, i);
    } else {
      assert UsesOf(items, rootMode, i)[0] == NameUse(items, rootMode, i);
    }
  }

  /** Nothing else is used. */
  lemma {:induction false} UseFrom(items: seq<Item>, rootMode: nat, k: nat, o: Occurrence) returns (i: nat)
    requires k <= |items| && o in Uses(items, rootMode, k)
    ensures i < k && (o == NameUse(items, rootMode, i) || o in ContentUse(items, rootMode, i))
  {
    if o in Uses(items, rootMode, k - 1) {
      i := UseFrom(items, rootMode, k - 1, o);
    } else {
      i := k - 1;
    }
  }

  /** Others can list every directory above item i. */
  ghost predicate NameOpen(items: seq<Item>, rootMode: nat, i: nat)
    requires i < |items|
  {
    && rootMode % 2 == 1 && rootMode / 4 % 2 == 1
    && forall p: seq<byte> {:trigger On(p, items[i].parent)} :: On(p, items[i].parent) ==> OpenAt(items, p, true)
  }

  /** Others can read file c and reach it under one of its names. */
  ghost predicate FileOpen(items: seq<Item>, rootMode: nat, c: nat) {
    && c < |items| && items[c].mode / 4 % 2 == 1 && rootMode % 2 == 1
    && exists o: nat {:trigger items[o]} :: o < |items|
         && (items[o].kind == File || items[o].kind == Hardlink) && items[o].canonical == c
         && forall p: seq<byte> {:trigger On(p, items[o].parent)} :: On(p, items[o].parent) ==> OpenAt(items, p, false)
  }

  /** Content is public exactly when it is the name of something others can list, or in a file others can read. */
  ghost predicate HeldOpenly(items: seq<Item>, rootMode: nat, bytes: seq<byte>) {
    || (exists i: nat {:trigger items[i]} :: i < |items| && items[i].name == bytes && NameOpen(items, rootMode, i))
    || (exists c: nat {:trigger items[c]} :: c < |items| && items[c].payload == bytes && FileOpen(items, rootMode, c))
  }

  lemma ClassPublicMeans(items: seq<Item>, rootMode: nat, blobs: seq<Class>, b: nat)
    requires Covers(blobs, Uses(items, rootMode, |items|)) && b < |blobs|
    ensures blobs[b].publicPart <==> !blobs[b].symlink && HeldOpenly(items, rootMode, blobs[b].bytes)
  {
    var occs := Uses(items, rootMode, |items|);
    assert blobs[b] == blobs[b];
    if blobs[b].publicPart {
      var k: nat :| k < |occs| && Same(blobs[b], occs[k].symlink, occs[k].bytes) && occs[k].isPublic;
      var i := UseFrom(items, rootMode, |items|, occs[k]);
      UseIsOpen(items, rootMode, i, occs[k]);
    }
    if !blobs[b].symlink && HeldOpenly(items, rootMode, blobs[b].bytes) {
      var o := OpenIsUse(items, rootMode, blobs[b].bytes);
      var k: nat :| k < |occs| && occs[k] == o;
      assert UsedPublicly(occs, blobs[b]);
    }
  }

  lemma UseIsOpen(items: seq<Item>, rootMode: nat, i: nat, o: Occurrence)
    requires i < |items| && o.isPublic && (o == NameUse(items, rootMode, i) || o in ContentUse(items, rootMode, i))
    ensures !o.symlink && HeldOpenly(items, rootMode, o.bytes)
  {
    NamePublicMeans(items, rootMode, i);
    if o == NameUse(items, rootMode, i) {
      assert items[i].name == o.bytes && NameOpen(items, rootMode, i);
    } else {
      FilePublicMeans(items, rootMode, items[i].canonical);
      assert items[items[i].canonical].payload == o.bytes && FileOpen(items, rootMode, items[i].canonical);
    }
  }

  lemma OpenIsUse(items: seq<Item>, rootMode: nat, bytes: seq<byte>) returns (o: Occurrence)
    requires HeldOpenly(items, rootMode, bytes)
    ensures o in Uses(items, rootMode, |items|) && o == Occurrence(false, bytes, true)
  {
    if i: nat :| i < |items| && items[i].name == bytes && NameOpen(items, rootMode, i) {
      NamePublicMeans(items, rootMode, i);
      UsesHave(items, rootMode, |items|, i);
      o := NameUse(items, rootMode, i);
    } else {
      var c: nat :| c < |items| && items[c].payload == bytes && FileOpen(items, rootMode, c);
      FilePublicMeans(items, rootMode, c);
      var i: nat :| i < |items| && (items[i].kind == File || items[i].kind == Hardlink) && items[i].canonical == c
                    && forall p: seq<byte> {:trigger On(p, items[i].parent)} :: On(p, items[i].parent) ==>
                         OpenAt(items, p, false);
      UsesHave(items, rootMode, |items|, i);
      o := ContentUse(items, rootMode, i)[0];
    }
  }

  /** `classifyBlobs`: classes are pairwise unequal whatever the digests, every name and content has its
      class, and a class is public exactly when some use of it is.  It fails only on oversized content. */
  method ClassifyBlobs(digest: seq<byte> -> nat, items: seq<Item>, rootMode: nat)
    returns (ok: bool, blobs: seq<Class>, nameBlobs: seq<nat>, contentBlobs: seq<Option<nat>>)
    requires TreeInput(items) && forall i: nat, j: nat :: i < j < |items| ==> items[i].path != items[j].path
    ensures ok <==> !TooBig(Uses(items, rootMode, |items|))
    ensures ok ==> Unequal(blobs) && Sized(blobs) && Covers(blobs, Uses(items, rootMode, |items|))
    ensures ok ==> Placed(items, |items|, blobs, nameBlobs, contentBlobs)
    ensures ok ==> forall b: nat {:trigger blobs[b]} :: b < |blobs| ==>
              (blobs[b].publicPart <==> !blobs[b].symlink && HeldOpenly(items, rootMode, blobs[b].bytes))
  {
    var byPath := IndexPaths(items, PathOf());
    var publicFile := PublicFiles(items, byPath, rootMode);
    blobs, nameBlobs, contentBlobs := [], [], [];
    var candidates: map<Key, seq<nat>> := map[];
    for i := 0 to |items|
      invariant Kept(digest, blobs, candidates, Uses(items, rootMode, i)) && !TooBig(Uses(items, rootMode, i))
      invariant Placed(items, i, blobs, nameBlobs, contentBlobs)
    {
      var nameBlob, contentBlob;
      ghost var was := blobs;
      TooBigSplit(Uses(items, rootMode, i), UsesOf(items, rootMode, i));
      ok, blobs, candidates, nameBlob, contentBlob :=
        ClassifyNode(digest, items, byPath, rootMode, publicFile, i, blobs, candidates, Uses(items, rootMode, i));
      if !ok {
        BigSomewhere(items, rootMode, i + 1);
        return;
      }
      PlacedNext(items, i, was, blobs, nameBlobs, contentBlobs, nameBlob, contentBlob);
      nameBlobs, contentBlobs := nameBlobs + [nameBlob], contentBlobs + [contentBlob];
    }
    OpenKept(digest, blobs, candidates, Uses(items, rootMode, |items|));
    forall b: nat | b < |blobs|
      ensures blobs[b].publicPart <==> !blobs[b].symlink && HeldOpenly(items, rootMode, blobs[b].bytes)
    {
      ClassPublicMeans(items, rootMode, blobs, b);
    }
    ok := true;
  }

  lemma {:induction false} BigSomewhere(items: seq<Item>, rootMode: nat, k: nat)
    requires k <= |items| && TooBig(Uses(items, rootMode, k))
    ensures TooBig(Uses(items, rootMode, |items|))
    decreases |items| - k
  {
    if k < |items| {
      TooBigSplit(Uses(items, rootMode, k), UsesOf(items, rootMode, k));
      BigSomewhere(items, rootMode, k + 1);
    }
  }

  // ---------------------------------------------------------------- the reader's side

  predicate IsDir(nodes: seq<Node>, t: nat) {
    t < |nodes| && nodes[t].kind == ImageTree.DIR
  }

  /** The decoded tree shows the input tree: node t is the directory at path at(t), node root the root. */
  ghost predicate Mirrors(nodes: seq<Node>, items: seq<Item>, rootMode: nat, root: nat, at: nat -> seq<byte>) {
    && root < |nodes| && nodes[root].mode == rootMode && at(root) == []
    && forall t: nat {:trigger at(t)} :: t != root && IsDir(nodes, t) ==>
         && at(t) != [] && at(nodes[t].parent) == ParentPath(at(t))
         && (nodes[t].parent == root || IsDir(nodes, nodes[t].parent))
         && (forall right: Right :: DirectoryGrants(items, at(t), right) <==> Grants(nodes[t].mode, right))
  }

  /** Some walk up from t reaches the root, everything on it granting the right. */
  ghost predicate GrantedUp(nodes: seq<Node>, root: nat, t: nat, k: nat, right: Right)
    decreases k
  {
    && t < |nodes| && Grants(nodes[t].mode, right)
    && (if t == root then true else k > 0 && GrantedUp(nodes, root, nodes[t].parent, k - 1, right))
  }

  /** The builder's rule along paths is the reader's rule along parents. */
  lemma {:induction false} PathRuleIsParentRule(nodes: seq<Node>, items: seq<Item>, rootMode: nat, root: nat,
                                                at: nat -> seq<byte>,
                                                t: nat, right: Right)
    requires Mirrors(nodes, items, rootMode, root, at) && (t == root || IsDir(nodes, t))
    ensures Allows(items, rootMode, at(t), right) <==> GrantedUp(nodes, root, t, |at(t)|, right)
    decreases |at(t)|
  {
    if t != root {
      var p := nodes[t].parent;
      PathRuleIsParentRule(nodes, items, rootMode, root, at, p, right);
      Enough(nodes, items, rootMode, root, at, p, |at(t)| - 1, right);
    }
  }

  /** A path has at least as many bytes as steps, so any larger number of steps says the same. */
  lemma {:induction false} Enough(nodes: seq<Node>, items: seq<Item>, rootMode: nat, root: nat, at: nat -> seq<byte>,
                                  t: nat, k: nat, right: Right)
    requires Mirrors(nodes, items, rootMode, root, at) && (t == root || IsDir(nodes, t)) && k >= |at(t)|
    ensures GrantedUp(nodes, root, t, k, right) <==> GrantedUp(nodes, root, t, |at(t)|, right)
    decreases k
  {
    if t != root {
      var p := nodes[t].parent;
      Enough(nodes, items, rootMode, root, at, p, k - 1, right);
      Enough(nodes, items, rootMode, root, at, p, |at(t)| - 1, right);
    }
  }
}
