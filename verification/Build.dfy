/** `buildPlan` and the classification before it, from normalized nodes and chosen tables to the image
    (programs/makefemtofs.cpp:1269-1344, 1416-1434, 1500-1514, 2027-2049). */
module Build {
  import opened Format
  import opened Counting
  import opened Sorting
  import opened Paths
  import opened ImageTree
  import opened Encoding
  import opened BuiltPlan
  import Builder
  import Attributes
  import Budget
  import Primality
  import Interning
  import Packing
  import Sweep
  import Content
  import Commit
  import Agreement
  import Header
  import BuiltImage
  import BuiltSlice
  import Slice
  import Layout
  import Loads

  // ---------------------------------------------------------------- attributes

  /** Who refers to attributes with this key: the header, if it is the root's, and the nodes. */
  function RefsOf(items: seq<Item>, rootKey: AttrKey, keys: seq<AttrKey>, key: AttrKey, k: nat): Attributes.References
    requires k <= |items| == |keys|
  {
    if k == 0 then (if key == rootKey then [None] else [])
    else
      RefsOf(items, rootKey, keys, key, k - 1) +
      (if items[k - 1].kind != Hardlink && keys[k - 1] == key then [Some(k - 1)] else [])
  }

  /** The attributes of the root and the first k nodes: each key once, each with its references. */
  ghost predicate Gathered(items: seq<Item>, rootKey: AttrKey, keys: seq<AttrKey>, k: nat, attrs: seq<AttrKey>,
                           refs: seq<Attributes.References>, attrOf: seq<nat>) {
    && |attrOf| == k <= |items| == |keys| && |refs| == |attrs| && attrs != [] && attrs[0] == rootKey
    && Distinct(attrs)
    && (forall a: nat {:trigger refs[a]} :: a < |refs| ==> refs[a] == RefsOf(items, rootKey, keys, attrs[a], k))
    && (forall t: nat {:trigger attrOf[t]} :: t < k && items[t].kind != Hardlink ==>
          attrOf[t] < |attrs| && attrs[attrOf[t]] == keys[t])
    && (forall a: nat {:trigger attrs[a]} {:trigger Needed(items, attrOf, a)} :: 0 < a < |attrs| ==>
          Needed(items, attrOf, a))
  }

  ghost predicate Needed(items: seq<Item>, attrOf: seq<nat>, a: nat) {
    exists t: nat {:trigger attrOf[t]} :: t < |attrOf| && t < |items| && items[t].kind != Hardlink && attrOf[t] == a
  }

  ghost predicate KeyIndex(attrs: seq<AttrKey>, byKey: map<AttrKey, nat>) {
    && (forall a: nat {:trigger attrs[a]} :: a < |attrs| ==> attrs[a] in byKey && byKey[attrs[a]] == a)
    && (forall key: AttrKey {:trigger byKey[key]} :: key in byKey ==> byKey[key] < |attrs| && attrs[byKey[key]] == key)
  }

  lemma {:induction false} NoRefs(items: seq<Item>, rootKey: AttrKey, keys: seq<AttrKey>, key: AttrKey, k: nat)
    requires k <= |items| == |keys| && key != rootKey
    requires forall t: nat {:trigger keys[t]} :: t < k && items[t].kind != Hardlink ==> keys[t] != key
    ensures RefsOf(items, rootKey, keys, key, k) == []
  {
    if k > 0 {
      NoRefs(items, rootKey, keys, key, k - 1);
    }
  }

  /** The next node has a key that is there already, or a new one, or is a hardlink. */
  lemma GatherNext(items: seq<Item>, rootKey: AttrKey, keys: seq<AttrKey>, k: nat, attrs: seq<AttrKey>,
                   refs: seq<Attributes.References>, attrOf: seq<nat>, a: nat)
    requires Gathered(items, rootKey, keys, k, attrs, refs, attrOf) && k < |items|
    requires items[k].kind != Hardlink ==> a < |attrs| && attrs[a] == keys[k]
    ensures Gathered(items, rootKey, keys, k + 1, attrs,
                     if items[k].kind == Hardlink then refs else refs[a := refs[a] + [Some(k)]], attrOf + [a])
  {
    RefsNext(items, rootKey, keys, k, attrs, refs, a);
    StillNeeded(items, attrs, attrOf, a);
    KeysNext(items, keys, k, attrs, attrOf, a);
  }

  lemma KeysNext(items: seq<Item>, keys: seq<AttrKey>, k: nat, attrs: seq<AttrKey>, attrOf: seq<nat>, a: nat)
    requires |attrOf| == k < |items| == |keys|
    requires forall t: nat {:trigger attrOf[t]} :: t < k && items[t].kind != Hardlink ==>
               attrOf[t] < |attrs| && attrs[attrOf[t]] == keys[t]
    requires items[k].kind != Hardlink ==> a < |attrs| && attrs[a] == keys[k]
    ensures var attrOf' := attrOf + [a];
            forall t: nat {:trigger attrOf'[t]} :: t < k + 1 && items[t].kind != Hardlink ==>
              attrOf'[t] < |attrs| && attrs[attrOf'[t]] == keys[t]
  {
  }

  lemma RefsNext(items: seq<Item>, rootKey: AttrKey, keys: seq<AttrKey>, k: nat, attrs: seq<AttrKey>,
                 refs: seq<Attributes.References>, a: nat)
    requires k < |items| == |keys| && |refs| == |attrs| && Distinct(attrs)
    requires forall b: nat {:trigger refs[b]} :: b < |refs| ==> refs[b] == RefsOf(items, rootKey, keys, attrs[b], k)
    requires items[k].kind != Hardlink ==> a < |attrs| && attrs[a] == keys[k]
    ensures var refs' := if items[k].kind == Hardlink then refs else refs[a := refs[a] + [Some(k)]];
            forall b: nat {:trigger refs'[b]} :: b < |refs'| ==>
              refs'[b] == RefsOf(items, rootKey, keys, attrs[b], k + 1)
  {
    var refs' := if items[k].kind == Hardlink then refs else refs[a := refs[a] + [Some(k)]];
    forall b: nat | b < |refs'|
      ensures refs'[b] == RefsOf(items, rootKey, keys, attrs[b], k + 1)
    {
      assert refs[b] == RefsOf(items, rootKey, keys, attrs[b], k);
    }
  }

  lemma StillNeeded(items: seq<Item>, attrs: seq<AttrKey>, attrOf: seq<nat>, a: nat)
    requires forall b: nat {:trigger Needed(items, attrOf, b)} :: 0 < b < |attrs| ==> Needed(items, attrOf, b)
    ensures forall b: nat {:trigger Needed(items, attrOf + [a], b)} :: 0 < b < |attrs| ==>
              Needed(items, attrOf + [a], b)
  {
    forall b: nat | 0 < b < |attrs|
      ensures Needed(items, attrOf + [a], b)
    {
      assert Needed(items, attrOf, b);
      var t: nat :| t < |attrOf| && t < |items| && items[t].kind != Hardlink && attrOf[t] == b;
      assert (attrOf + [a])[t] == b;
    }
  }

  lemma GatherNew(items: seq<Item>, rootKey: AttrKey, keys: seq<AttrKey>, k: nat, attrs: seq<AttrKey>,
                  refs: seq<Attributes.References>, attrOf: seq<nat>)
    requires Gathered(items, rootKey, keys, k, attrs, refs, attrOf) && k < |items| && items[k].kind != Hardlink
    requires keys[k] !in attrs
    ensures Gathered(items, rootKey, keys, k + 1, attrs + [keys[k]], refs + [[Some(k)]], attrOf + [|attrs|])
  {
    var key := keys[k];
    forall t: nat | t < k && items[t].kind != Hardlink
      ensures keys[t] != key
    {
      assert attrs[attrOf[t]] == keys[t];
    }
    assert attrs[0] in attrs;
    NoRefs(items, rootKey, keys, key, k);
    var refs' := refs + [[Some(k)]];
    forall b: nat | b < |refs'|
      ensures refs'[b] == RefsOf(items, rootKey, keys, (attrs + [key])[b], k + 1)
    {
      if b < |refs| {
        assert refs[b] == RefsOf(items, rootKey, keys, attrs[b], k) && attrs[b] in attrs;
      }
    }
    StillNeeded(items, attrs, attrOf, |attrs|);
    assert (attrOf + [|attrs|])[k] == |attrs|;
  }

  /** `makeAttributePlans`. */
  method MakeAttributePlans(rootKey: AttrKey, items: seq<Item>, keys: seq<AttrKey>)
    returns (attrs: seq<AttrKey>, refs: seq<Attributes.References>, attrOf: seq<nat>)
    requires |keys| == |items|
    ensures Gathered(items, rootKey, keys, |items|, attrs, refs, attrOf)
  {
    attrs, refs, attrOf := [rootKey], [[None]], [];
    var byKey: map<AttrKey, nat> := map[rootKey := 0];
    for k := 0 to |items|
      invariant Gathered(items, rootKey, keys, k, attrs, refs, attrOf) && KeyIndex(attrs, byKey)
    {
      if items[k].kind == Hardlink {
        GatherNext(items, rootKey, keys, k, attrs, refs, attrOf, 0);
        attrOf := attrOf + [0];
      } else if keys[k] in byKey {
        var a := byKey[keys[k]];
        GatherNext(items, rootKey, keys, k, attrs, refs, attrOf, a);
        refs, attrOf := refs[a := refs[a] + [Some(k)]], attrOf + [a];
      } else {
        GatherNew(items, rootKey, keys, k, attrs, refs, attrOf);
        byKey := byKey[keys[k] := |attrs|];
        attrs, refs, attrOf := attrs + [keys[k]], refs + [[Some(k)]], attrOf + [|attrs|];
      }
    }
  }

  // ---------------------------------------------------------------- directories

  /** The nodes in the directory at a path, among the first k. */
  function ChildrenBelow(items: seq<Item>, path: seq<byte>, k: nat): seq<nat>
    requires k <= |items|
  {
    if k == 0 then []
    else ChildrenBelow(items, path, k - 1) + (if items[k - 1].parent == path then [k - 1] else [])
  }

  lemma {:induction false} ChildrenAre(items: seq<Item>, path: seq<byte>, k: nat)
    requires k <= |items|
    ensures var c := ChildrenBelow(items, path, k);
            && Distinct(c)
            && forall t: nat {:trigger t in c} :: t in c <==> t < k && items[t].parent == path
  {
    if k > 0 {
      ChildrenAre(items, path, k - 1);
      var front := ChildrenBelow(items, path, k - 1);
      assert forall i: nat :: i < |front| ==> front[i] in front;
    }
  }

  ghost predicate Collected(items: seq<Item>, k: nat, children: map<seq<byte>, seq<nat>>)
    requires k <= |items|
  {
    && [] in children
    && (forall t: nat {:trigger items[t]} :: t < k && items[t].kind == Directory ==> items[t].path in children)
    && (forall p: seq<byte> {:trigger ChildrenBelow(items, p, k)} ::
          ChildrenBelow(items, p, k) == if p in children then children[p] else [])
  }

  method CollectChildren(items: seq<Item>) returns (children: map<seq<byte>, seq<nat>>)
    ensures Collected(items, |items|, children)
  {
    children := map[[] := []];
    for i := 0 to |items|
      invariant Collected(items, i, children)
    {
      ghost var was := children;
      var n := items[i];
      children := children[n.parent := (if n.parent in children then children[n.parent] else []) + [i]];
      if n.kind == Directory && n.path !in children {
        children := children[n.path := []];
      }
      CollectNext(items, i, was, children);
    }
  }

  lemma CollectNext(items: seq<Item>, i: nat, was: map<seq<byte>, seq<nat>>, children: map<seq<byte>, seq<nat>>)
    requires i < |items| && Collected(items, i, was) && children == AddChild(items, i, was)
    ensures Collected(items, i + 1, children)
  {
    forall p: seq<byte>
      ensures ChildrenBelow(items, p, i + 1) == if p in children then children[p] else []
    {
      CollectAt(items, i, was, p);
    }
  }

  function AddChild(items: seq<Item>, i: nat, was: map<seq<byte>, seq<nat>>): map<seq<byte>, seq<nat>>
    requires i < |items|
  {
    var n := items[i];
    var more := was[n.parent := (if n.parent in was then was[n.parent] else []) + [i]];
    if n.kind == Directory && n.path !in more then more[n.path := []] else more
  }

  lemma CollectAt(items: seq<Item>, i: nat, was: map<seq<byte>, seq<nat>>, p: seq<byte>)
    requires i < |items| && ChildrenBelow(items, p, i) == if p in was then was[p] else []
    ensures var children := AddChild(items, i, was);
            ChildrenBelow(items, p, i + 1) == if p in children then children[p] else []
  {
  }

  function AllNames(items: seq<Item>): seq<seq<byte>> {
    seq(|items|, t requires 0 <= t < |items| => items[t].name)
  }

  /** A directory's children, by name. */
  function SortedChildren(items: seq<Item>, children: seq<nat>): seq<nat> {
    Sort(Builder.ByName(AllNames(items)), children)
  }

  lemma SortedOk(items: seq<Item>, path: seq<byte>)
    ensures ChildrenOk(items, path, SortedChildren(items, ChildrenBelow(items, path, |items|)))
    ensures |SortedChildren(items, ChildrenBelow(items, path, |items|))| == |ChildrenBelow(items, path, |items|)|
  {
    var c := ChildrenBelow(items, path, |items|);
    var s := SortedChildren(items, c);
    ChildrenAre(items, path, |items|);
    DistinctMultiplicity(c);
    DistinctMultiplicity(s);
    SameElements(s, c);
  }

  /** The directory's children are its nodes, by name; closed (see `Key`). */
  ghost predicate HasChildren(items: seq<Item>, d: DirPlan) {
    forall k: nat {:trigger Key(k)} :: Key(k) ==>
      d.children == SortedChildren(items, ChildrenBelow(items, d.path, |items|))
  }

  /** These nodes, by name. */
  ghost predicate InNameOrder(items: seq<Item>, children: seq<nat>) {
    forall a: nat, b: nat {:trigger children[a], children[b]} :: a < b < |children| ==>
      children[a] < |items| && children[b] < |items| && BytesLeq(items[children[a]].name, items[children[b]].name)
  }

  lemma ChildrenInOrder(items: seq<Item>, d: DirPlan)
    requires HasChildren(items, d)
    ensures InNameOrder(items, d.children)
  {
    assert Key(0);
    SortedInOrder(items, ChildrenBelow(items, d.path, |items|));
    SortedOk(items, d.path);
    forall a: nat | a < |d.children|
      ensures d.children[a] < |items|
    {
      assert d.children[a] in d.children;
    }
  }

  lemma SortedInOrder(items: seq<Item>, children: seq<nat>)
    ensures forall a: nat, b: nat {:trigger SortedChildren(items, children)[a], SortedChildren(items, children)[b]} ::
              a < b < |SortedChildren(items, children)| ==>
                BytesLeq(Builder.NameOf(AllNames(items), SortedChildren(items, children)[a]),
                         Builder.NameOf(AllNames(items), SortedChildren(items, children)[b]))
  {
    var le, s := Builder.ByName(AllNames(items)), SortedChildren(items, children);
    Builder.ByNameOrder(AllNames(items));
    SortSorted(le, children);
    forall a: nat, b: nat | a < b < |s|
      ensures BytesLeq(Builder.NameOf(AllNames(items), s[a]), Builder.NameOf(AllNames(items), s[b]))
    {
      assert le(s[a], s[b]);
    }
  }

  /** The root and these directories, with their children. */
  ghost predicate Listing(items: seq<Item>, ds: seq<nat>, dirs: seq<DirPlan>) {
    && |dirs| == |ds| + 1 && dirs[0].path == [] && dirs[0].node == None
    && (forall j: nat {:trigger dirs[j]} :: 0 < j < |dirs| ==>
          dirs[j].node == Some(ds[j - 1]) && ds[j - 1] < |items| && dirs[j].path == items[ds[j - 1]].path)
    && (forall j: nat {:trigger dirs[j]} :: j < |dirs| ==> HasChildren(items, dirs[j]))
  }

  lemma DirItemsNext(items: seq<Item>, k: nat)
    requires k < |items|
    ensures DirItems(items, k + 1) == DirItems(items, k) + if items[k].kind == Directory then [k] else []
  {
  }

  lemma ChildrenThere(items: seq<Item>, children: map<seq<byte>, seq<nat>>, path: seq<byte>)
    requires Collected(items, |items|, children) && (path == [] || HasDirectory(items, path))
    ensures path in children && children[path] == ChildrenBelow(items, path, |items|)
  {
  }

  method MakeDirectory(items: seq<Item>, children: map<seq<byte>, seq<nat>>, path: seq<byte>, node: Option<nat>)
    returns (d: DirPlan)
    requires Collected(items, |items|, children) && (path == [] || HasDirectory(items, path))
    ensures d.path == path && d.node == node && HasChildren(items, d)
  {
    ChildrenThere(items, children, path);
    d := DirPlan(path, node, SortedChildren(items, children[path]), 0, 0, false, []);
  }

  /** `makeDirectoryPlans` without the choice of tables.  The nodes being in path order, so are the directories. */
  method MakeDirectoryPlans(items: seq<Item>) returns (dirs: seq<DirPlan>)
    ensures DirsListed(items, dirs) && forall j: nat {:trigger dirs[j]} :: j < |dirs| ==> HasChildren(items, dirs[j])
    ensures forall j: nat {:trigger dirs[j]} :: j < |dirs| ==> InNameOrder(items, dirs[j].children)
  {
    var children := CollectChildren(items);
    var root := MakeDirectory(items, children, [], None);
    dirs := [root];
    ghost var ds: seq<nat> := [];
    for t := 0 to |items|
      invariant Listing(items, ds, dirs) && ds == DirItems(items, t)
    {
      DirItemsNext(items, t);
      if items[t].kind == Directory {
        var d := MakeDirectory(items, children, items[t].path, Some(t));
        dirs, ds := dirs + [d], ds + [t];
      }
    }
    ListedAll(items, ds, dirs);
    forall j: nat | j < |dirs|
      ensures InNameOrder(items, dirs[j].children)
    {
      ChildrenInOrder(items, dirs[j]);
    }
  }

  lemma ListedAll(items: seq<Item>, ds: seq<nat>, dirs: seq<DirPlan>)
    requires Listing(items, ds, dirs) && ds == DirItems(items, |items|)
    ensures DirsListed(items, dirs)
  {
  }

  // ---------------------------------------------------------------- buckets

  /** A directory and a table with room for its children; closed (see `Key`). */
  ghost predicate Constructible(items: seq<Item>, dir: DirPlan, table: Budget.Table) {
    forall k: nat {:trigger Key(k)} :: Key(k) && k == 2 ==>
      ChildrenOk(items, dir.path, dir.children) && |dir.children| <= table.size <= MAX_TABLE && table.prime < 53
  }

  ghost predicate TablesOk(items: seq<Item>, dirs: seq<DirPlan>, tables: seq<Budget.Table>) {
    && |tables| == |dirs|
    && forall j: nat {:trigger dirs[j]} :: j < |dirs| ==> Constructible(items, dirs[j], tables[j])
  }

  /** The directory with its table and its buckets. */
  ghost predicate Bucketed(was: DirPlan, table: Budget.Table, now: DirPlan) {
    && now == was.(first := now.first, prime := table.prime, dual := table.dual, slots := now.slots)
    && |now.slots| == table.size
  }

  /** And they are as they should be; closed (see `Key`). */
  ghost predicate Finished(items: seq<Item>, hash2: u32, was: DirPlan, table: Budget.Table, now: DirPlan) {
    forall k: nat {:trigger Key(k)} :: Key(k) && k == 1 ==> Bucketed(was, table, now) && DirOk(items, hash2, now)
  }

  /** `constructBuckets` for one directory. */
  method ConstructOne(items: seq<Item>, hash2: u32, dir: DirPlan, table: Budget.Table, first: nat) returns (d: DirPlan)
    requires Constructible(items, dir, table)
    ensures Finished(items, hash2, dir, table, d) && |d.slots| == table.size
    ensures d.first == if table.size == 0 then 0 else first
  {
    assert Key(2);
    d := dir.(prime := table.prime, dual := table.dual, first := if table.size == 0 then 0 else first);
    var names := NamesFor(items, d.children);
    var r := Builder.ConstructBuckets(HashingFor(hash2, d), names, table.size);
    d := d.(slots := r.value);
  }

  lemma LaidNext(dirs: seq<DirPlan>, d: DirPlan, n: nat)
    requires Attributes.Laid(Layouts(dirs), n)
    requires d.first == if d.slots == [] then 0 else Attributes.Start(Layouts(dirs), n)
    ensures Attributes.Laid(Layouts(dirs + [d]), n)
    ensures Attributes.Start(Layouts(dirs + [d]), n) == Attributes.Start(Layouts(dirs), n) + |d.slots|
  {
    var l, l' := Layouts(dirs), Layouts(dirs + [d]);
    assert l'[..|dirs|] == l;
    forall i: nat | i < |l'|
      ensures l'[i].first == if l'[i].taken == [] then 0 else Attributes.Start(l'[..i], n)
    {
      if i < |l| {
        assert l'[i] == l[i] && l'[..i] == l[..i];
      } else {
        assert l'[..i] == l;
      }
    }
  }

  /** Slices follow the objects and each other, and the next one goes here; closed (see `Key`). */
  ghost predicate LaidTo(out: seq<DirPlan>, nodes: nat, first: nat) {
    forall k: nat {:trigger Key(k)} :: Key(k) && k == 0 ==>
      Attributes.Laid(Layouts(out), nodes) && first == Attributes.Start(Layouts(out), nodes)
  }

  lemma LaidStart(nodes: nat)
    ensures LaidTo([], nodes, nodes)
  {
  }

  lemma LaidStep(out: seq<DirPlan>, d: DirPlan, nodes: nat, first: nat)
    requires LaidTo(out, nodes, first) && d.first == if d.slots == [] then 0 else first
    ensures LaidTo(out + [d], nodes, first + |d.slots|)
  {
    assert Key(0);
    LaidNext(out, d, nodes);
  }

  lemma LaidEnd(out: seq<DirPlan>, nodes: nat, first: nat)
    requires LaidTo(out, nodes, first)
    ensures Attributes.Laid(Layouts(out), nodes)
  {
    assert Key(0);
  }

  /** The directories so far. */
  ghost predicate Constructed(items: seq<Item>, hash2: u32, dirs: seq<DirPlan>, tables: seq<Budget.Table>,
                              out: seq<DirPlan>) {
    && |out| <= |dirs| == |tables|
    && forall i: nat {:trigger out[i]} :: i < |out| ==> Finished(items, hash2, dirs[i], tables[i], out[i])
  }

  lemma ConstructNext(items: seq<Item>, hash2: u32, dirs: seq<DirPlan>, tables: seq<Budget.Table>, out: seq<DirPlan>,
                      d: DirPlan)
    requires Constructed(items, hash2, dirs, tables, out) && |out| < |dirs|
    requires Finished(items, hash2, dirs[|out|], tables[|out|], d)
    ensures Constructed(items, hash2, dirs, tables, out + [d])
  {
  }

  lemma ConstructEnd(items: seq<Item>, hash2: u32, dirs: seq<DirPlan>, tables: seq<Budget.Table>, out: seq<DirPlan>)
    requires |out| == |dirs| == |tables| && DirsListed(items, dirs)
    requires forall i: nat {:trigger out[i]} :: i < |out| ==> Finished(items, hash2, dirs[i], tables[i], out[i])
    ensures DirsOk(items, hash2, out)
    ensures forall j: nat {:trigger out[j]} :: j < |out| ==> Bucketed(dirs[j], tables[j], out[j])
  {
    forall j: nat | j < |out|
      ensures Bucketed(dirs[j], tables[j], out[j]) && DirOk(items, hash2, out[j])
    {
      assert Finished(items, hash2, dirs[j], tables[j], out[j]) && Key(1);
    }
  }

  /** `constructBuckets`: slices follow the objects and each other. */
  method ConstructAll(items: seq<Item>, hash2: u32, dirs: seq<DirPlan>, tables: seq<Budget.Table>)
    returns (out: seq<DirPlan>)
    requires TablesOk(items, dirs, tables)
    ensures Attributes.Laid(Layouts(out), |items|) && |out| == |dirs|
    ensures forall j: nat {:trigger out[j]} :: j < |out| ==> Finished(items, hash2, dirs[j], tables[j], out[j])
  {
    out := [];
    var first: nat := |items|;
    LaidStart(first);
    for j := 0 to |dirs|
      invariant |out| == j && LaidTo(out, |items|, first) && Constructed(items, hash2, dirs, tables, out)
    {
      var d := ConstructOne(items, hash2, dirs[j], tables[j], first);
      LaidStep(out, d, |items|, first);
      ConstructNext(items, hash2, dirs, tables, out, d);
      out := out + [d];
      first := first + |d.slots|;
    }
    LaidEnd(out, |items|, first);
  }

  // ---------------------------------------------------------------- from a finished plan to the image

  /** Every directory is found, and so is every parent. */
  lemma AllEncodable(plan: Plan)
    requires ItemsOk(plan.items) && DirsListed(plan.items, plan.dirs) && Indexed(plan)
    ensures forall t: nat {:trigger ObjectCell(plan, t)} :: t < |plan.items| ==> ObjectCell(plan, t).Some?
  {
    forall t: nat | t < |plan.items|
      ensures ObjectCell(plan, t).Some?
    {
      if plan.items[t].kind == Directory {
        HasPlan(plan, t);
        if plan.items[t].parent != [] {
          var p := ParentFirst(plan.items, t);
        }
      }
    }
  }

  lemma HasPlan(plan: Plan, t: nat)
    requires DirsListed(plan.items, plan.dirs) && t < |plan.items| && plan.items[t].kind == Directory
    ensures DirectoryFor(plan.dirs, t).Some?
  {
    var ds := DirItems(plan.items, |plan.items|);
    assert t in ds;
    var i: nat :| i < |ds| && ds[i] == t;
    assert plan.dirs[i + 1].node == Some(t);
  }

  /** Closed, see `Key`. */
  ghost predicate Ready(plan: Plan, digest: seq<byte> -> nat) {
    forall k: nat {:trigger Key(k)} :: Key(k) ==> PlanOk(plan, digest)
  }

  lemma OpenReady(plan: Plan, digest: seq<byte> -> nat)
    requires Ready(plan, digest)
    ensures PlanOk(plan, digest)
  {
    assert Key(0);
  }

  lemma ReadyToEncode(plan: Plan, digest: seq<byte> -> nat)
    requires Ready(plan, digest)
    ensures Indexed(plan) && Spread(plan) && Header.FieldsFit(plan)
    ensures forall i: nat, j: nat :: i < j < |plan.items| ==> plan.items[i].path != plan.items[j].path
    ensures forall t: nat {:trigger ObjectCell(plan, t)} :: t < |plan.items| ==> ObjectCell(plan, t).Some?
  {
    OpenReady(plan, digest);
    PlanIndexed(plan, digest);
    PlacesSpread(plan);
    AllEncodable(plan);
    RootFits(plan);
    AllPathsDiffer(plan.items);
  }

  lemma AllPathsDiffer(items: seq<Item>)
    requires ItemsOk(items)
    ensures forall i: nat, j: nat :: i < j < |items| ==> items[i].path != items[j].path
  {
    forall i: nat, j: nat | i < j < |items|
      ensures items[i].path != items[j].path
    {
      if items[i].path == items[j].path {
        PathsDiffer(items, i, j);
      }
    }
  }

  lemma RootFits(plan: Plan)
    requires ItemsOk(plan.items) && DirsOk(plan.items, plan.hash2, plan.dirs) && PlacesOk(plan) && AttrsOk(plan)
    ensures plan.dirs[0].first < U32 && |plan.dirs[0].slots| < U32 && |plan.dirs[0].children| < U32
    ensures plan.attrCells[plan.rootAttr] < 65536
  {
    var d := plan.dirs[0];
    assert DirOk(plan.items, plan.hash2, d);
    AttrWhere(plan, plan.rootAttr);
    if d.slots == [] {
      assert Layouts(plan.dirs)[0].taken == [];
    } else {
      SliceBounds(plan, 0, d.first);
    }
  }

  lemma BlobsStorable(plan: Plan, digest: seq<byte> -> nat)
    requires Interning.Sized(plan.classes)
    ensures var blobs := Agreement.BlobsOf(plan.classes, digest);
            forall i: nat {:trigger blobs[i]} :: i < |blobs| ==> Packing.Storable(blobs[i])
  {
    var blobs := Agreement.BlobsOf(plan.classes, digest);
    forall i: nat | i < |blobs|
      ensures Packing.Storable(blobs[i])
    {
      assert plan.classes[i].stored == Sweep.StoredSize(|plan.classes[i].bytes|) <= MAX32;
    }
  }

  /** What is handed to the device. */
  function DeviceOf(plan: Plan, digest: seq<byte> -> nat, header: seq<byte>, metadata: seq<byte>): Commit.Plan
    requires |plan.imageOff| == |plan.classes|
  {
    Content.DevicePlan(header, metadata, Agreement.BlobsOf(plan.classes, digest), plan.imageOff, plan.o)
  }

  /** The device's image carries the header, the table and every blob. */
  lemma DeviceShows(plan: Plan, digest: seq<byte> -> nat, header: seq<byte>, metadata: seq<byte>)
    requires Ready(plan, digest) && |header| == HEADER && |metadata| == CELL * plan.cellCount
    ensures |plan.imageOff| == |plan.classes|
    ensures var p := DeviceOf(plan, digest, header, metadata);
            && Commit.PlanOk(p) && Header.Heads(Commit.Image(p), header) && Header.Follows(Commit.Image(p), metadata)
            && |Commit.Image(p)| == plan.o.imageSize
            && (forall b: nat {:trigger plan.imageOff[b]} :: b < |plan.classes| ==>
                  Content.Written(Commit.Image(p), plan.imageOff[b], Agreement.BlobsOf(plan.classes, digest)[b]))
  {
    OpenReady(plan, digest);
    var blobs := Agreement.BlobsOf(plan.classes, digest);
    BlobsStorable(plan, digest);
    Content.PackedPlan(header, metadata, blobs, plan.imageOff, plan.o, plan.cellCount);
    Header.ImageCarries(DeviceOf(plan, digest, header, metadata));
    forall b: nat | b < |plan.classes|
      ensures Content.Written(Commit.Image(DeviceOf(plan, digest, header, metadata)), plan.imageOff[b], blobs[b])
    {
      Content.ImageHolds(header, metadata, blobs, plan.imageOff, plan.o, plan.cellCount, b);
    }
  }

  /** `encodeMetadata` and `encodeHeader`, and the image that the device will hold. */
  method EncodeImage(plan: Plan, digest: seq<byte> -> nat, uuid: seq<byte>)
    returns (im: Image, ghost device: Commit.Plan)
    requires Ready(plan, digest) && |uuid| == 16
    ensures Made(plan, digest, im) && Header.ReadImage(im.bytes) == Some(im)
    ensures Commit.PlanOk(device) && im.bytes == Commit.Image(device)
    ensures |im.bytes| >= 32 && im.bytes[6] == 0 && im.bytes[16..32] == uuid
  {
    ReadyToEncode(plan, digest);
    var cells := EncodeMetadata(plan);
    var metadata := Header.TableBytes(cells.value);
    var header := Header.EncodeHeader(plan, metadata, uuid);
    DeviceShows(plan, digest, header[..], metadata);
    device := DeviceOf(plan, digest, header[..], metadata);
    var bytes := Commit.Image(DeviceOf(plan, digest, header[..], metadata));
    im := ImageOf(plan, cells.value, bytes);
    Header.TableIs(cells.value);
    Header.ReadsBack(plan, bytes, header[..], cells.value, metadata, uuid);
    MadeOf(plan, digest, im);
    Header.UuidRead(plan, bytes, header[..], metadata, uuid);
  }

  lemma MadeOf(plan: Plan, digest: seq<byte> -> nat, im: Image)
    requires Ready(plan, digest) && Indexed(plan) && Encoded(plan, im.cells)
    requires plan.dirs != [] && plan.rootAttr < |plan.attrCells|
    requires im == ImageOf(plan, im.cells, im.bytes) && |im.bytes| == plan.o.imageSize
    requires forall b: nat {:trigger plan.imageOff[b]} :: b < |plan.classes| ==>
               Content.Written(im.bytes, plan.imageOff[b], Agreement.BlobsOf(plan.classes, digest)[b])
    ensures Made(plan, digest, im)
  {
    OpenReady(plan, digest);
  }

  // ---------------------------------------------------------------- everything

  /** Normalized nodes with their attributes, and a table for every directory, the root's first. */
  datatype Input = Input(items: seq<Item>, rootKey: AttrKey, keys: seq<AttrKey>, tables: seq<Budget.Table>, hash2: u32,
                         uuid: seq<byte>)

  /** The path of the j-th directory. */
  function DirPath(items: seq<Item>, j: nat): seq<byte>
    requires j <= |DirItems(items, |items|)|
  {
    if j == 0 then [] else items[DirItems(items, |items|)[j - 1]].path
  }

  /** Tables have room for the children, and there is a second base exactly when some table uses it. */
  ghost predicate TablesFit(input: Input) {
    && |input.tables| == |DirItems(input.items, |input.items|)| + 1
    && (forall j: nat {:trigger input.tables[j]} :: j < |input.tables| ==>
          && |ChildrenBelow(input.items, DirPath(input.items, j), |input.items|)| <= input.tables[j].size <= MAX_TABLE
          && input.tables[j].prime < 53)
    && if exists j: nat {:trigger input.tables[j]} :: j < |input.tables| && input.tables[j].dual
       then 256 < input.hash2 < 0x100_0000 && Primality.IsPrime(input.hash2) else input.hash2 == 0
  }

  ghost predicate InputOk(input: Input) {
    && ItemsOk(input.items) && |input.keys| == |input.items| && |input.uuid| == 16 && TablesFit(input)
    && input.rootKey.mode / 4096 == ModeBits(DIR)
    && forall t: nat {:trigger input.keys[t]} :: t < |input.items| && input.items[t].kind != Hardlink ==>
         input.keys[t].mode == input.items[t].mode
  }

  /** A file "a" in the root is such an input. */
  lemma OneFile(key: AttrKey, rootKey: AttrKey, content: seq<byte>)
    requires key.mode / 4096 == 8 && rootKey.mode / 4096 == 4
    ensures InputOk(Input([Interning.Item([97], [], [97], File, key.mode, 0, content, [])], rootKey, [key],
                          [Budget.Table(1, 0, false)], 0, Zeros(16)))
  {
    var items := [Interning.Item([97], [], [97], File, key.mode, 0, content, [])];
    assert ItemOk(items, 0);
    assert DirItems(items, 0) == [] && DirItems(items, 1) == [];
    assert ChildrenBelow(items, [], 0) == [] && ChildrenBelow(items, [], 1) == [0];
  }

  lemma {:induction false} PathWellFormed(items: seq<Item>, t: nat)
    requires ItemsOk(items) && t < |items|
    ensures Interning.PathOk(items[t].path)
    decreases t
  {
    assert ItemOk(items, t);
    if items[t].parent != [] {
      var p := ParentFirst(items, t);
      PathWellFormed(items, p);
    }
  }

  lemma TreeIsInput(items: seq<Item>)
    requires ItemsOk(items)
    ensures Interning.TreeInput(items)
  {
    forall t: nat | t < |items|
      ensures Interning.PathOk(items[t].parent) && (Interning.IsFileLike(items[t]) ==> items[t].canonical < |items|)
    {
      assert ItemOk(items, t);
      if items[t].parent != [] {
        var p := ParentFirst(items, t);
        PathWellFormed(items, p);
      }
    }
  }

  /** The cells that objects, tables and attributes come to. */
  ghost function CellsNeeded(plan: Plan): nat {
    var l := Layouts(plan.dirs);
    Attributes.Total(Attributes.Start(l, |plan.items|), |plan.attrs|, Attributes.FreeTotal(l))
  }

  /** Directories as the budget sees them. */
  function Sizes(input: Input, dirs: seq<DirPlan>): seq<Budget.Dir> {
    seq(|dirs|, j requires 0 <= j < |dirs| =>
      Budget.Dir(if j < |input.tables| then input.tables[j] else Budget.Table(0, 0, false), |dirs[j].children|))
  }

  /** What the build needs is what the budget plans with. */
  lemma CellsAsPlanned(input: Input, plan: Plan)
    requires ItemsOk(input.items) && Planned(input, plan)
    ensures CellsNeeded(plan) == Budget.Planned(|input.items|, Sizes(input, plan.dirs), |plan.attrs|)
  {
    OpenPlanned(input, plan);
    var l := Layouts(plan.dirs);
    forall j: nat | j < |plan.dirs|
      ensures |l[j].taken| == input.tables[j].size
      ensures |plan.dirs[j].children| == |l[j].taken| - Attributes.Free(l[j].taken)
    {
      assert plan.dirs[j] == plan.dirs[j];
      SlotsFree(plan, plan.dirs[j]);
    }
    Attributes.PlannedIsPlaced(l, Sizes(input, plan.dirs), |plan.items|, |plan.attrs|);
  }

  /** A directory leaves as many of its buckets free as it has more than children. */
  lemma SlotsFree(plan: Plan, d: DirPlan)
    requires ItemsOk(plan.items) && DirOk(plan.items, plan.hash2, d)
    ensures Attributes.Free(Taken(d.slots)) + |d.children| == |d.slots|
  {
    if |d.slots| > 0 {
      var cells := AsCells(plan, d);
      var names := NamesFor(plan.items, d.children);
      ChildrenDiffer(plan, d);
      CellsBuilt(plan, d);
      BuiltSlice.BuiltCount(HashingFor(plan.hash2, d), names, d.children, GroupsFor(plan.items, plan.hash2, d), cells);
      FreeRest(d.slots, cells, |d.slots|);
      assert Taken(d.slots)[..|d.slots|] == Taken(d.slots);
      assert TakenBelow(cells, |d.slots|) == Slice.OccupiedSet(cells);
    }
  }

  /** The slice that the slots stand for. */
  ghost function AsCells(plan: Plan, d: DirPlan): seq<Slice.Cell> {
    seq(|d.slots|, p requires 0 <= p < |d.slots| =>
      if d.slots[p].None? then Slice.Empty
      else
        var k := d.slots[p].value.child;
        if k < |d.children| then Slice.Bucket(NamesFor(plan.items, d.children)[k], d.children[k], d.slots[p].value.next)
        else Slice.Attr)
  }

  lemma CellsBuilt(plan: Plan, d: DirPlan)
    requires ItemsOk(plan.items) && DirOk(plan.items, plan.hash2, d) && |d.slots| > 0
    ensures BuiltSlice.Built(HashingFor(plan.hash2, d), NamesFor(plan.items, d.children), d.children,
                             GroupsFor(plan.items, plan.hash2, d), AsCells(plan, d))
  {
    var names := NamesFor(plan.items, d.children);
    var anchors := Loads.Assign(HashingFor(plan.hash2, d), names, |d.slots|);
    Builder.ArrangedGrouped(names, anchors, |d.slots|);
    Layout.Room(GroupsFor(plan.items, plan.hash2, d), anchors);
    forall p: nat | p < |d.slots| && d.slots[p].Some?
      ensures d.slots[p].value.child < |d.children|
    {
      SlotOwner(plan, d, p);
    }
    assert BuiltSlice.Written(AsCells(plan, d), d.slots, names, d.children);
  }

  lemma ChildrenDiffer(plan: Plan, d: DirPlan)
    requires ItemsOk(plan.items) && DirOk(plan.items, plan.hash2, d)
    ensures Distinct(NamesFor(plan.items, d.children))
  {
    var names := NamesFor(plan.items, d.children);
    forall a: nat, b: nat | a < b < |names|
      ensures names[a] != names[b]
    {
      assert d.children[a] in d.children && d.children[b] in d.children;
      var t, u := d.children[a], d.children[b];
      assert ItemOk(plan.items, t) && ItemOk(plan.items, u);
      assert plan.items[t] == plan.items[t] && plan.items[u] == plan.items[u];
      Sorting.BytesTotal(plan.items[t].path, plan.items[u].path);
      Sorting.BytesTotal(plan.items[u].path, plan.items[t].path);
    }
  }

  ghost function TakenBelow(cells: seq<Slice.Cell>, k: nat): set<nat> {
    set p: nat | p < k && p < |cells| && cells[p].Bucket?
  }

  lemma {:induction false} FreeRest(slots: seq<Option<Layout.Slot>>, cells: seq<Slice.Cell>, k: nat)
    requires k <= |slots| == |cells|
    requires forall p: nat {:trigger slots[p]} :: p < |slots| ==> (slots[p].Some? <==> cells[p].Bucket?)
    ensures Attributes.Free(Taken(slots)[..k]) + |TakenBelow(cells, k)| == k
  {
    if k > 0 {
      FreeRest(slots, cells, k - 1);
      assert Taken(slots)[..k][..k - 1] == Taken(slots)[..k - 1];
      assert slots[k - 1] == slots[k - 1];
      if cells[k - 1].Bucket? {
        assert TakenBelow(cells, k) == TakenBelow(cells, k - 1) + {k - 1};
      } else {
        assert TakenBelow(cells, k) == TakenBelow(cells, k - 1);
      }
    } else {
      assert TakenBelow(cells, 0) == {};
    }
  }

  /** Nodes, directories and attributes are planned; closed (see `Key`). */
  ghost predicate Planned(input: Input, plan: Plan) {
    plan.items == input.items && plan.hash2 == input.hash2 && forall k: nat {:trigger Key(k)} :: Key(k) ==>
      && DirsOk(plan.items, plan.hash2, plan.dirs) && Attributes.Laid(Layouts(plan.dirs), |plan.items|)
      && AttrsOk(plan) && BaseChosen(plan) && RootMode(plan) == input.rootKey.mode
      && KeysKept(input, plan) && TablesKept(input, plan) && OrderKept(plan)
  }

  /** Every directory's children are by name. */
  ghost predicate OrderKept(plan: Plan) {
    forall j: nat {:trigger plan.dirs[j]} :: j < |plan.dirs| ==> InNameOrder(plan.items, plan.dirs[j].children)
  }

  /** Every node has its own attributes, whole. */
  ghost predicate KeysKept(input: Input, plan: Plan) {
    && |plan.attrOf| == |plan.items| == |input.keys| && plan.rootAttr < |plan.attrs|
    && plan.attrs[plan.rootAttr] == input.rootKey
    && forall t: nat {:trigger input.keys[t]} {:trigger plan.attrOf[t]} ::
         t < |plan.items| && plan.items[t].kind != Hardlink ==>
         plan.attrOf[t] < |plan.attrs| && plan.attrs[plan.attrOf[t]] == input.keys[t]
  }

  /** Every directory has its own table. */
  ghost predicate TablesKept(input: Input, plan: Plan) {
    && |plan.dirs| == |input.tables|
    && forall j: nat {:trigger plan.dirs[j]} :: j < |plan.dirs| ==>
         && plan.dirs[j].prime == input.tables[j].prime && plan.dirs[j].dual == input.tables[j].dual
         && |plan.dirs[j].slots| == input.tables[j].size
  }

  lemma PlannedIs(input: Input, plan: Plan, dirs: seq<DirPlan>, refs: seq<Attributes.References>)
    requires InputOk(input) && plan.items == input.items && plan.hash2 == input.hash2 && plan.rootAttr == 0
    requires Gathered(input.items, input.rootKey, input.keys, |input.items|, plan.attrs, refs, plan.attrOf)
    requires DirsOk(plan.items, plan.hash2, plan.dirs) && Attributes.Laid(Layouts(plan.dirs), |plan.items|)
    requires |plan.dirs| == |dirs| == |input.tables|
    requires forall j: nat {:trigger plan.dirs[j]} :: j < |plan.dirs| ==>
               Bucketed(dirs[j], input.tables[j], plan.dirs[j])
    requires forall j: nat {:trigger dirs[j]} :: j < |dirs| ==> InNameOrder(input.items, dirs[j].children)
    ensures Planned(input, plan)
  {
    KeysAre(input, plan, refs);
    BaseKept(input, plan, dirs);
    TablesAre(input, plan, dirs);
    OrderIs(input, plan, dirs);
  }

  lemma OrderIs(input: Input, plan: Plan, dirs: seq<DirPlan>)
    requires |plan.dirs| == |dirs| == |input.tables| && plan.items == input.items
    requires forall j: nat {:trigger plan.dirs[j]} :: j < |plan.dirs| ==>
               Bucketed(dirs[j], input.tables[j], plan.dirs[j])
    requires forall j: nat {:trigger dirs[j]} :: j < |dirs| ==> InNameOrder(input.items, dirs[j].children)
    ensures OrderKept(plan)
  {
    forall j: nat | j < |plan.dirs|
      ensures InNameOrder(plan.items, plan.dirs[j].children)
    {
      assert Bucketed(dirs[j], input.tables[j], plan.dirs[j]) && plan.dirs[j].children == dirs[j].children;
    }
  }

  lemma KeysAre(input: Input, plan: Plan, refs: seq<Attributes.References>)
    requires InputOk(input) && plan.items == input.items && plan.rootAttr == 0
    requires Gathered(input.items, input.rootKey, input.keys, |input.items|, plan.attrs, refs, plan.attrOf)
    ensures AttrsOk(plan) && RootMode(plan) == input.rootKey.mode && KeysKept(input, plan)
  {
    forall a: nat | 0 < a < |plan.attrs|
      ensures AttrNeeded(plan, a)
    {
      assert Needed(plan.items, plan.attrOf, a);
    }
    forall t: nat | t < |plan.items| && plan.items[t].kind != Hardlink
      ensures plan.attrOf[t] < |plan.attrs| && plan.attrs[plan.attrOf[t]].mode == plan.items[t].mode
    {
      assert plan.attrs[plan.attrOf[t]] == input.keys[t];
    }
  }

  lemma TablesAre(input: Input, plan: Plan, dirs: seq<DirPlan>)
    requires |plan.dirs| == |dirs| == |input.tables|
    requires forall j: nat {:trigger plan.dirs[j]} :: j < |plan.dirs| ==>
               Bucketed(dirs[j], input.tables[j], plan.dirs[j])
    ensures TablesKept(input, plan)
  {
  }

  lemma BaseKept(input: Input, plan: Plan, dirs: seq<DirPlan>)
    requires TablesFit(input) && plan.hash2 == input.hash2 && |plan.dirs| == |dirs| == |input.tables|
    requires forall j: nat {:trigger plan.dirs[j]} :: j < |plan.dirs| ==>
               Bucketed(dirs[j], input.tables[j], plan.dirs[j])
    ensures BaseChosen(plan)
  {
    if j: nat :| j < |plan.dirs| && plan.dirs[j].dual {
      assert input.tables[j].dual;
    }
    if j: nat :| j < |input.tables| && input.tables[j].dual {
      assert plan.dirs[j].dual;
    }
  }

  lemma TablesHold(input: Input, dirs: seq<DirPlan>)
    requires TablesFit(input) && DirsListed(input.items, dirs)
    requires forall j: nat {:trigger dirs[j]} :: j < |dirs| ==> HasChildren(input.items, dirs[j])
    ensures TablesOk(input.items, dirs, input.tables)
  {
    forall j: nat | j < |dirs|
      ensures |dirs[j].children| <= input.tables[j].size <= MAX_TABLE && input.tables[j].prime < 53
      ensures ChildrenOk(input.items, dirs[j].path, dirs[j].children)
    {
      assert HasChildren(input.items, dirs[j]) && Key(0);
      SortedOk(input.items, dirs[j].path);
      assert dirs[j].path == DirPath(input.items, j);
    }
  }

  /** Attributes, directories and their buckets. */
  method PlanTree(input: Input) returns (plan: Plan, refs: seq<Attributes.References>)
    requires InputOk(input)
    ensures Planned(input, plan) && |refs| == |plan.attrs| && Attributes.Laid(Layouts(plan.dirs), |plan.items|)
  {
    var attrs, attrOf;
    attrs, refs, attrOf := MakeAttributePlans(input.rootKey, input.items, input.keys);
    var dirs := MakeDirectoryPlans(input.items);
    TablesHold(input, dirs);
    var built := ConstructAll(input.items, input.hash2, dirs, input.tables);
    ConstructEnd(input.items, input.hash2, dirs, input.tables, built);
    plan := Plan(input.items, built, attrs, attrOf, 0, [], 0, input.hash2, [], [], [], [], Content.Offsets(0, 0, 0));
    PlannedIs(input, plan, dirs, refs);
  }

  /** The classification of names and contents; closed (see `Key`). */
  ghost predicate Classified(input: Input, classes: seq<Interning.Class>, nameBlobs: seq<nat>,
                             contentBlobs: seq<Option<nat>>) {
    forall k: nat {:trigger Key(k)} :: Key(k) ==>
      && Interning.Unequal(classes) && Interning.Sized(classes)
      && Interning.Covers(classes, Interning.Uses(input.items, input.rootKey.mode, |input.items|))
      && Interning.Placed(input.items, |input.items|, classes, nameBlobs, contentBlobs)
  }

  ghost predicate TooBig(input: Input) {
    Interning.TooBig(Interning.Uses(input.items, input.rootKey.mode, |input.items|))
  }

  method Classify(input: Input, digest: seq<byte> -> nat)
    returns (ok: bool, classes: seq<Interning.Class>, nameBlobs: seq<nat>, contentBlobs: seq<Option<nat>>)
    requires InputOk(input)
    ensures ok <==> !TooBig(input)
    ensures ok ==> Classified(input, classes, nameBlobs, contentBlobs) && Interning.Sized(classes)
  {
    TreeIsInput(input.items);
    AllPathsDiffer(input.items);
    ok, classes, nameBlobs, contentBlobs := Interning.ClassifyBlobs(digest, input.items, input.rootKey.mode);
  }

  /** The attributes' cells, as placed; closed (see `Key`). */
  ghost predicate Spotted(dirs: seq<DirPlan>, nodes: nat, attrs: nat, attrCells: seq<nat>, cellCount: nat) {
    forall k: nat {:trigger Key(k)} :: Key(k) ==>
      var l := Layouts(dirs);
      && cellCount == Attributes.Total(Attributes.Start(l, nodes), attrs, Attributes.FreeTotal(l))
      && 0 < cellCount <= MAX_CELLS
      && |attrCells| == attrs && Distinct(attrCells)
      && forall a: nat {:trigger attrCells[a]} :: a < |attrCells| ==>
           attrCells[a] in Attributes.AllFree(l) || Attributes.Start(l, nodes) <= attrCells[a] < cellCount
  }

  /** `placeAttributes` on the planned directories. */
  method Spot(dirs: seq<DirPlan>, nodes: nat, refs: seq<Attributes.References>)
    returns (ok: bool, attrCells: seq<nat>, cellCount: nat)
    requires Attributes.Laid(Layouts(dirs), nodes)
    ensures var l := Layouts(dirs);
            var n := Attributes.Total(Attributes.Start(l, nodes), |refs|, Attributes.FreeTotal(l));
            (ok <==> 0 < n <= MAX_CELLS) && (ok ==> cellCount == n)
    ensures ok ==> Spotted(dirs, nodes, |refs|, attrCells, cellCount)
  {
    ok, attrCells, cellCount := Attributes.PlaceAttributes(Layouts(dirs), nodes, refs);
  }

  lemma PlacesReady(plan: Plan)
    requires Spotted(plan.dirs, |plan.items|, |plan.attrs|, plan.attrCells, plan.cellCount)
    requires Attributes.Laid(Layouts(plan.dirs), |plan.items|)
    ensures PlacesOk(plan)
  {
    assert Key(0);
  }

  lemma BlobsReady(input: Input, digest: seq<byte> -> nat, plan: Plan)
    requires Classified(input, plan.classes, plan.nameBlobs, plan.contentBlobs) && plan.items == input.items
    requires RootMode(plan) == input.rootKey.mode
    requires Content.WellPacked(Agreement.BlobsOf(plan.classes, digest), plan.imageOff, plan.o, plan.cellCount)
    ensures BlobsOk(plan, digest)
  {
    assert Key(0);
  }

  lemma OpenPlanned(input: Input, plan: Plan)
    requires Planned(input, plan)
    ensures DirsOk(plan.items, plan.hash2, plan.dirs) && Attributes.Laid(Layouts(plan.dirs), |plan.items|)
    ensures AttrsOk(plan) && BaseChosen(plan) && RootMode(plan) == input.rootKey.mode
    ensures KeysKept(input, plan) && TablesKept(input, plan) && OrderKept(plan)
  {
    assert Key(0);
  }

  /** Places for attributes and blobs leave the tree as planned. */
  lemma StillPlanned(input: Input, tree: Plan, plan: Plan)
    requires Planned(input, tree)
    requires plan == tree.(classes := plan.classes, nameBlobs := plan.nameBlobs, contentBlobs := plan.contentBlobs,
                           attrCells := plan.attrCells, cellCount := plan.cellCount, imageOff := plan.imageOff,
                           o := plan.o)
    ensures Planned(input, plan)
  {
    OpenPlanned(input, tree);
    SameAttrs(tree, plan);
  }

  /** And complete the plan. */
  lemma AllReady(input: Input, digest: seq<byte> -> nat, plan: Plan)
    requires ItemsOk(input.items) && Planned(input, plan)
    requires Classified(input, plan.classes, plan.nameBlobs, plan.contentBlobs)
    requires Spotted(plan.dirs, |plan.items|, |plan.attrs|, plan.attrCells, plan.cellCount)
    requires Content.WellPacked(Agreement.BlobsOf(plan.classes, digest), plan.imageOff, plan.o, plan.cellCount)
    ensures Ready(plan, digest)
  {
    OpenPlanned(input, plan);
    PlacesReady(plan);
    BlobsReady(input, digest, plan);
  }

  lemma SameAttrs(tree: Plan, plan: Plan)
    requires AttrsOk(tree) && plan.items == tree.items && plan.attrs == tree.attrs && plan.attrOf == tree.attrOf
    requires plan.rootAttr == tree.rootAttr
    ensures AttrsOk(plan) && RootMode(plan) == RootMode(tree)
  {
    forall a: nat | a < |plan.attrs| && a != plan.rootAttr
      ensures AttrNeeded(plan, a)
    {
      assert tree.attrs[a] == tree.attrs[a];
      assert AttrNeeded(tree, a);
      var t: nat :| t < |tree.items| && tree.items[t].kind != Hardlink && tree.attrOf[t] == a;
      assert plan.attrOf[t] == a;
    }
  }

  /** Cell a holds these attributes: mode, owner and group. */
  predicate KeyAt(im: Image, a: nat, key: AttrKey) {
    a < |im.cells| && im.cells[a].half == key.mode && im.cells[a].w4 == key.uid && im.cells[a].w8 == key.gid
  }

  /** Every object leads to its attributes, whole, and so does the root. */
  ghost predicate AttributesStored(input: Input, im: Image) {
    && |input.keys| == |input.items| <= |im.cells| && KeyAt(im, im.rootAttr, input.rootKey)
    && forall t: nat {:trigger input.keys[t]} :: t < |input.items| && input.items[t].kind != Hardlink ==>
         KeyAt(im, im.cells[t].half, input.keys[t])
  }

  lemma KeysStored(input: Input, plan: Plan, digest: seq<byte> -> nat, im: Image)
    requires Planned(input, plan) && Made(plan, digest, im)
    ensures AttributesStored(input, im)
  {
    OpenPlanned(input, plan);
    PlanSizes(plan, digest, im);
    RootKeyStored(plan, digest, im);
    forall t: nat | t < |input.items| && input.items[t].kind != Hardlink
      ensures KeyAt(im, im.cells[t].half, input.keys[t])
    {
      KeyStored(plan, digest, im, t);
      assert input.keys[t] == input.keys[t];
    }
  }

  /** In figures: the cell an object's attribute index leads to has the mode, the owner and the group it was given. */
  lemma KeyIsStored(input: Input, plan: Plan, digest: seq<byte> -> nat, im: Image, t: nat)
    requires Planned(input, plan) && Made(plan, digest, im) && t < |input.items| && input.items[t].kind != Hardlink
    ensures t < |im.cells| && t < |input.keys| && im.cells[t].half < |im.cells| && im.rootAttr < |im.cells|
    ensures var c := im.cells[im.cells[t].half];
            c.half == input.keys[t].mode && c.w4 == input.keys[t].uid && c.w8 == input.keys[t].gid
    ensures var c := im.cells[im.rootAttr];
            c.half == input.rootKey.mode && c.w4 == input.rootKey.uid && c.w8 == input.rootKey.gid
  {
    KeysStored(input, plan, digest, im);
    assert input.keys[t] == input.keys[t];
  }

  /** The builder from its normalized input to the image.  It fails only on content whose stored size has no
      32-bit form, a table of more cells than indices reach, or an image of no 32-bit size; otherwise its image
      is read back as built, and the decoder accepts it. */
  method BuildImage(input: Input, digest: seq<byte> -> nat)
    returns (r: Result<Image>, plan: Plan, ghost device: Commit.Plan)
    requires InputOk(input)
    ensures Planned(input, plan)
    ensures !TooBig(input) ==> Classified(input, plan.classes, plan.nameBlobs, plan.contentBlobs)
    ensures r.Ok? <==> && !TooBig(input) && 0 < CellsNeeded(plan) <= MAX_CELLS
                       && Content.Size(Agreement.BlobsOf(plan.classes, digest), CellsNeeded(plan)) < U32
    ensures CellsNeeded(plan) == Budget.Planned(|input.items|, Sizes(input, plan.dirs), |plan.attrs|)
    ensures r.Ok? ==> Made(plan, digest, r.value) && Header.ReadImage(r.value.bytes) == Some(r.value)
    ensures r.Ok? ==> Commit.PlanOk(device) && r.value.bytes == Commit.Image(device)
    ensures r.Ok? ==> BuiltImage.DecoderAccepts(r.value)
    ensures r.Ok? ==> |r.value.bytes| >= 32 && r.value.bytes[6] == 0 && r.value.bytes[16..32] == input.uuid
    ensures r.Ok? ==> AttributesStored(input, r.value)
  {
    device := Commit.Plan([], [], [], 0);
    var ok, classes, nameBlobs, contentBlobs := Classify(input, digest);
    var tree, refs := PlanTree(input);
    CellsAsPlanned(input, tree);
    plan := tree;
    if !ok {
      return Err("encoded blob size exceeds uint32_t"), plan, device;
    }
    plan := tree.(classes := classes, nameBlobs := nameBlobs, contentBlobs := contentBlobs);
    StillPlanned(input, tree, plan);
    var placed, attrCells, cellCount := Spot(tree.dirs, |tree.items|, refs);
    if !placed {
      return Err("metadata table exceeds the <2^16 cell limit"), plan, device;
    }
    plan := plan.(attrCells := attrCells, cellCount := cellCount);
    StillPlanned(input, tree, plan);
    var imageOff := new nat[|classes|];
    BlobsStorable(plan, digest);
    var o := Content.PackContent(Agreement.BlobsOf(classes, digest), cellCount, imageOff);
    if o.Err? {
      return Err(o.message), plan, device;
    }
    plan := plan.(imageOff := imageOff[..], o := o.value);
    StillPlanned(input, tree, plan);
    AllReady(input, digest, plan);
    var im;
    im, device := EncodeImage(plan, digest, input.uuid);
    BuiltImage.BuiltAccepted(plan, digest, im);
    KeysStored(input, plan, digest, im);
    r := Ok(im);
  }
}
