/** `encodeMetadata` (programs/makefemtofs.cpp:1743-1852): from a finished plan to the table of cells. */
module Encoding {
  import opened Format
  import opened Counting
  import opened Paths
  import opened ImageTree
  import Layout
  import Interning
  import Content

  type Item = Interning.Item

  datatype AttrKey = AttrKey(mode: u16, uid: u32, gid: u32)

  /** A directory: its object (the root has none), its children, and where each of them goes in its slice. */
  datatype DirPlan = DirPlan(path: seq<byte>, node: Option<nat>, children: seq<nat>, first: nat, prime: nat, dual: bool,
                             slots: seq<Option<Layout.Slot>>)

  /** Objects take the first cells, in order; slices, attributes and blobs are where they were placed. */
  datatype Plan = Plan(items: seq<Item>, dirs: seq<DirPlan>, attrs: seq<AttrKey>, attrOf: seq<nat>, rootAttr: nat,
                       attrCells: seq<nat>, cellCount: nat, hash2: u32, classes: seq<Interning.Class>,
                       nameBlobs: seq<nat>, contentBlobs: seq<Option<nat>>, imageOff: seq<nat>, o: Content.Offsets)

  const ZERO := Raw(0, 0, 0, 0, 0, 0)
  /** The parent field of a directory in the root. */
  const IN_ROOT: nat := 65535

  function Word(x: nat): u32 {
    x % U32
  }

  function Half(x: nat): u16 {
    x % 65536
  }

  function KindByte(kind: Kind): byte {
    match kind
    case File => FILE
    case Directory => DIR
    case Symlink => SYMLINK
    case Hardlink => LINK
    case Fifo => FIFO
  }

  /** The base's index, and one bit for the second base. */
  function HashByte(d: DirPlan): byte {
    d.prime % 64 + if d.dual then 64 else 0
  }

  predicate InSlice(d: DirPlan, c: nat) {
    d.first <= c < d.first + |d.slots|
  }

  // ---------------------------------------------------------------- what the plan must offer

  predicate ItemIndexed(plan: Plan, t: nat)
    requires t < |plan.items| == |plan.attrOf| == |plan.nameBlobs| == |plan.contentBlobs|
  {
    var n := plan.items[t];
    && (n.kind != Hardlink ==> plan.attrOf[t] < |plan.attrs|) && plan.nameBlobs[t] < |plan.classes|
    && (n.kind == File || n.kind == Symlink ==>
          plan.contentBlobs[t].Some? && plan.contentBlobs[t].value < |plan.classes|)
  }

  predicate SlotIndexed(plan: Plan, d: DirPlan, i: nat)
    requires i < |d.slots|
  {
    d.slots[i].Some? ==> d.slots[i].value.child < |d.children| && d.children[d.slots[i].value.child] < |plan.items|
  }

  ghost predicate Indexed(plan: Plan) {
    && |plan.items| == |plan.attrOf| == |plan.nameBlobs| == |plan.contentBlobs| <= plan.cellCount
    && |plan.imageOff| == |plan.classes| && |plan.attrCells| == |plan.attrs|
    && (forall t: nat {:trigger ItemIndexed(plan, t)} :: t < |plan.items| ==> ItemIndexed(plan, t))
    && (forall j: nat, i: nat {:trigger SlotIndexed(plan, plan.dirs[j], i)} ::
          j < |plan.dirs| && i < |plan.dirs[j].slots| ==> SlotIndexed(plan, plan.dirs[j], i))
  }

  /** Slices and attributes lie behind the objects, slices apart from each other, attributes in cells of their own. */
  ghost predicate Spread(plan: Plan) {
    && (forall j: nat, c: nat {:trigger InSlice(plan.dirs[j], c)} ::
          j < |plan.dirs| && InSlice(plan.dirs[j], c) ==> |plan.items| <= c < plan.cellCount)
    && (forall j: nat, k: nat, c: nat {:trigger InSlice(plan.dirs[j], c), InSlice(plan.dirs[k], c)} ::
          j < k < |plan.dirs| ==> !(InSlice(plan.dirs[j], c) && InSlice(plan.dirs[k], c)))
    && Distinct(plan.attrCells)
    && (forall a: nat {:trigger plan.attrCells[a]} :: a < |plan.attrCells| ==>
          |plan.items| <= plan.attrCells[a] < plan.cellCount)
  }

  // ---------------------------------------------------------------- the cells

  /** `directoryByNode`. */
  function DirectoryFor(dirs: seq<DirPlan>, t: nat): (j: Option<nat>)
    ensures j.Some? ==> j.value < |dirs| && dirs[j.value].node == Some(t)
    ensures j.None? ==> forall k: nat {:trigger dirs[k]} :: k < |dirs| ==> dirs[k].node != Some(t)
  {
    if dirs == [] then None
    else if dirs[|dirs| - 1].node == Some(t) then Some(|dirs| - 1)
    else DirectoryFor(dirs[..|dirs| - 1], t)
  }

  function ItemAt(items: seq<Item>, path: seq<byte>): (t: Option<nat>)
    ensures t.Some? ==> t.value < |items| && items[t.value].path == path
    ensures t.None? ==> forall k: nat {:trigger items[k]} :: k < |items| ==> items[k].path != path
  {
    if items == [] then None
    else if items[|items| - 1].path == path then Some(|items| - 1)
    else ItemAt(items[..|items| - 1], path)
  }

  /** The record of a directory, if its slice and its parent are known. */
  function DirectoryCell(plan: Plan, t: nat, half: u16): Option<Raw>
    requires t < |plan.items|
  {
    var n := plan.items[t];
    var j := DirectoryFor(plan.dirs, t);
    var parent := if n.parent == [] then Some(IN_ROOT) else ItemAt(plan.items, n.parent);
    if j.None? || parent.None? then None
    else
      var d := plan.dirs[j.value];
      Some(Raw(DIR, HashByte(d), half, Word(d.first), Word(|d.slots|),
               Half(parent.value) + 65536 * (|d.children| % 32768)))
  }

  function ObjectCell(plan: Plan, t: nat): Option<Raw>
    requires Indexed(plan) && t < |plan.items|
  {
    assert ItemIndexed(plan, t);
    var n := plan.items[t];
    var half := if n.kind == Hardlink then 0 else Half(plan.attrCells[plan.attrOf[t]]);
    match n.kind
    case Directory => DirectoryCell(plan, t, half)
    case Hardlink => Some(Raw(LINK, 0, 0, Word(n.canonical), 0, 0))
    case Fifo => Some(Raw(FIFO, 0, half, 0, 0, 0))
    case _ =>
      var b := plan.contentBlobs[t].value;
      Some(Raw(KindByte(n.kind), 0, half, Word(plan.imageOff[b]), Word(|plan.classes[b].bytes|), 0))
  }

  /** A bucket, or an empty cell that repeats the size of its slice. */
  function SlotCell(plan: Plan, d: DirPlan, i: nat): Raw
    requires Indexed(plan) && i < |d.slots| && SlotIndexed(plan, d, i)
  {
    if d.slots[i].None? then ZERO.(w12 := Word(|d.slots|))
    else
      var t := d.children[d.slots[i].value.child];
      assert ItemIndexed(plan, t);
      Raw(KindByte(plan.items[t].kind), 0, 0, Word(t), Word(plan.imageOff[plan.nameBlobs[t]]),
          Word(d.slots[i].value.next))
  }

  function AttrCell(key: AttrKey): Raw {
    Raw(ATTR, 0, key.mode, key.uid, key.gid, 0)
  }

  /** No directory among the first n has cell c. */
  ghost predicate Outside(dirs: seq<DirPlan>, n: nat, c: nat) {
    forall j: nat {:trigger dirs[j]} :: j < n && j < |dirs| ==> !InSlice(dirs[j], c)
  }

  /** Every object, bucket and attribute is in its cell, and all else is zero. */
  ghost predicate Encoded(plan: Plan, cells: seq<Raw>)
    requires Indexed(plan)
  {
    && |cells| == plan.cellCount
    && (forall t: nat {:trigger cells[t]} {:trigger ObjectCell(plan, t)} :: t < |plan.items| ==>
          ObjectCell(plan, t) == Some(cells[t]))
    && (forall j: nat, c: nat {:trigger InSlice(plan.dirs[j], c)} ::
          j < |plan.dirs| && InSlice(plan.dirs[j], c) && c < |cells| && c !in plan.attrCells ==>
            SlotShown(plan, plan.dirs[j], cells[c], c))
    && (forall a: nat {:trigger plan.attrCells[a]} :: a < |plan.attrCells| && plan.attrCells[a] < |cells| ==>
          cells[plan.attrCells[a]] == AttrCell(plan.attrs[a]))
    && (forall c: nat {:trigger cells[c]} ::
          |plan.items| <= c < |cells| && c !in plan.attrCells && Outside(plan.dirs, |plan.dirs|, c) ==>
            cells[c] == ZERO)
  }

  ghost predicate SlotShown(plan: Plan, d: DirPlan, cell: Raw, c: nat)
    requires Indexed(plan)
  {
    InSlice(d, c) && SlotIndexed(plan, d, c - d.first) && cell == SlotCell(plan, d, c - d.first)
  }

  // ---------------------------------------------------------------- writing them

  /** `encodeObject`; it fails when a directory has no slice or no parent. */
  method EncodeObject(plan: Plan, byPath: map<seq<byte>, nat>, t: nat) returns (r: Option<Raw>)
    requires Indexed(plan) && t < |plan.items| && IndexOf(plan.items, Interning.PathOf(), byPath)
    ensures r == ObjectCell(plan, t)
  {
    assert ItemIndexed(plan, t);
    var n := plan.items[t];
    var cell := ZERO.(kind := KindByte(n.kind));
    if n.kind != Hardlink {
      cell := cell.(half := Half(plan.attrCells[plan.attrOf[t]]));
    }
    match n.kind {
      case Directory =>
        var j := DirectoryFor(plan.dirs, t);
        if j.None? {
          return None;
        }
        var d := plan.dirs[j.value];
        cell := cell.(tag := HashByte(d), w4 := Word(d.first), w8 := Word(|d.slots|));
        var parent := IN_ROOT;
        if n.parent != [] {
          if n.parent !in byPath {
            assert ItemAt(plan.items, n.parent).None?;
            return None;
          }
          parent := byPath[n.parent];
          assert plan.items[ItemAt(plan.items, n.parent).value].path == n.parent;
        }
        cell := cell.(w12 := Half(parent) + 65536 * (|d.children| % 32768));
      case Hardlink =>
        cell := cell.(w4 := Word(n.canonical));
      case Fifo =>
      case _ =>
        var b := plan.contentBlobs[t].value;
        cell := cell.(w4 := Word(plan.imageOff[b]), w8 := Word(|plan.classes[b].bytes|));
    }
    r := Some(cell);
  }

  /** One directory's slice; cells that attributes claimed are left to them. */
  method EncodeSlice(plan: Plan, j: nat, attrAt: set<nat>, cells: array<Raw>)
    requires Indexed(plan) && j < |plan.dirs| && attrAt == Elements(plan.attrCells)
    requires plan.dirs[j].first + |plan.dirs[j].slots| <= cells.Length || plan.dirs[j].slots == []
    modifies cells
    ensures forall c: nat {:trigger cells[c]} :: c < cells.Length ==>
              if InSlice(plan.dirs[j], c) && c !in plan.attrCells then SlotShown(plan, plan.dirs[j], cells[c], c)
              else cells[c] == old(cells[c])
  {
    var d := plan.dirs[j];
    for i := 0 to |d.slots|
      invariant forall c: nat {:trigger cells[c]} :: c < cells.Length ==>
                  if InSlice(d, c) && c < d.first + i && c !in plan.attrCells then SlotShown(plan, d, cells[c], c)
                  else cells[c] == old(cells[c])
    {
      assert SlotIndexed(plan, plan.dirs[j], i);
      if d.first + i !in attrAt {
        cells[d.first + i] := SlotCell(plan, d, i);
      }
    }
  }

  /** The objects are in place, then the slices of the first n directories. */
  ghost predicate SlicesIn(plan: Plan, cells: seq<Raw>, n: nat)
    requires Indexed(plan)
  {
    && |cells| == plan.cellCount
    && (forall t: nat {:trigger cells[t]} {:trigger ObjectCell(plan, t)} :: t < |plan.items| ==>
          ObjectCell(plan, t) == Some(cells[t]))
    && (forall j: nat, c: nat {:trigger InSlice(plan.dirs[j], c)} ::
          j < n && j < |plan.dirs| && InSlice(plan.dirs[j], c) && c < |cells| && c !in plan.attrCells ==>
            SlotShown(plan, plan.dirs[j], cells[c], c))
    && (forall c: nat {:trigger cells[c]} ::
          |plan.items| <= c < |cells| && (c in plan.attrCells || Outside(plan.dirs, n, c)) ==> cells[c] == ZERO)
  }

  lemma NextSlice(plan: Plan, was: seq<Raw>, cells: seq<Raw>, n: nat)
    requires Indexed(plan) && Spread(plan) && n < |plan.dirs| && SlicesIn(plan, was, n) && |cells| == |was|
    requires forall c: nat {:trigger cells[c]} :: c < |cells| ==>
               if InSlice(plan.dirs[n], c) && c !in plan.attrCells then SlotShown(plan, plan.dirs[n], cells[c], c)
               else cells[c] == was[c]
    ensures SlicesIn(plan, cells, n + 1)
  {
    forall t: nat | t < |plan.items|
      ensures ObjectCell(plan, t) == Some(cells[t])
    {
      assert ObjectCell(plan, t) == Some(was[t]);
      assert !InSlice(plan.dirs[n], t);
    }
    forall j: nat, c: nat {:trigger InSlice(plan.dirs[j], c)}
      | j < n + 1 && InSlice(plan.dirs[j], c) && c < |cells| && c !in plan.attrCells
      ensures SlotShown(plan, plan.dirs[j], cells[c], c)
    {
      if j < n {
        assert SlotShown(plan, plan.dirs[j], was[c], c);
        assert !InSlice(plan.dirs[n], c);
        assert cells[c] == was[c];
      } else {
        assert cells[c] == cells[c];
      }
    }
    forall c: nat | |plan.items| <= c < |cells| && (c in plan.attrCells || Outside(plan.dirs, n + 1, c))
      ensures cells[c] == ZERO
    {
      assert Outside(plan.dirs, n + 1, c) ==> Outside(plan.dirs, n, c) && !InSlice(plan.dirs[n], c);
      assert was[c] == ZERO;
    }
  }

  /** All slices are in, and the first n attributes. */
  ghost predicate AttrsIn(plan: Plan, slices: seq<Raw>, cells: seq<Raw>, n: nat)
    requires |plan.attrCells| == |plan.attrs|
  {
    |cells| == |slices| && n <= |plan.attrs| && forall c: nat {:trigger cells[c]} :: c < |cells| ==>
      if c in plan.attrCells[..n] then AttrShown(plan, cells, c) else cells[c] == slices[c]
  }

  ghost predicate AttrShown(plan: Plan, cells: seq<Raw>, c: nat)
    requires |plan.attrCells| == |plan.attrs| && c < |cells|
  {
    forall a: nat {:trigger plan.attrCells[a]} :: a < |plan.attrs| && plan.attrCells[a] == c ==>
      cells[c] == AttrCell(plan.attrs[a])
  }

  lemma NextAttr(plan: Plan, slices: seq<Raw>, was: seq<Raw>, n: nat)
    requires Indexed(plan) && Spread(plan) && n < |plan.attrs| && AttrsIn(plan, slices, was, n)
    requires |was| == plan.cellCount
    ensures AttrsIn(plan, slices, was[plan.attrCells[n] := AttrCell(plan.attrs[n])], n + 1)
  {
    var x := plan.attrCells[n];
    var cells := was[x := AttrCell(plan.attrs[n])];
    assert plan.attrCells[..n + 1] == plan.attrCells[..n] + [x];
    forall c: nat | c < |cells|
      ensures if c in plan.attrCells[..n + 1] then AttrShown(plan, cells, c) else cells[c] == slices[c]
    {
      assert was[c] == was[c];
      if c == x {
        assert AttrShown(plan, cells, c);
      }
    }
  }

  lemma AllIn(plan: Plan, slices: seq<Raw>, cells: seq<Raw>)
    requires Indexed(plan) && Spread(plan) && SlicesIn(plan, slices, |plan.dirs|)
    requires AttrsIn(plan, slices, cells, |plan.attrs|)
    ensures Encoded(plan, cells)
  {
    assert plan.attrCells[..|plan.attrs|] == plan.attrCells;
    forall t: nat | t < |plan.items|
      ensures ObjectCell(plan, t) == Some(cells[t])
    {
      assert ObjectCell(plan, t) == Some(slices[t]);
    }
    forall j: nat, c: nat {:trigger InSlice(plan.dirs[j], c)}
      | j < |plan.dirs| && InSlice(plan.dirs[j], c) && c < |cells| && c !in plan.attrCells
      ensures SlotShown(plan, plan.dirs[j], cells[c], c)
    {
      assert SlotShown(plan, plan.dirs[j], slices[c], c);
      assert cells[c] == slices[c];
    }
    forall a: nat | a < |plan.attrCells|
      ensures plan.attrCells[a] < |cells| && cells[plan.attrCells[a]] == AttrCell(plan.attrs[a])
    {
      assert AttrShown(plan, cells, plan.attrCells[a]);
    }
    forall c: nat | |plan.items| <= c < |cells| && c !in plan.attrCells && Outside(plan.dirs, |plan.dirs|, c)
      ensures cells[c] == ZERO
    {
      assert slices[c] == ZERO;
    }
  }

  /** `encodeMetadata`: objects, then slices, then attributes. */
  method EncodeMetadata(plan: Plan) returns (r: Option<seq<Raw>>)
    requires Indexed(plan) && Spread(plan)
    requires forall i: nat, j: nat :: i < j < |plan.items| ==> plan.items[i].path != plan.items[j].path
    ensures r.Some? <==> forall t: nat {:trigger ObjectCell(plan, t)} :: t < |plan.items| ==> ObjectCell(plan, t).Some?
    ensures r.Some? ==> Encoded(plan, r.value)
  {
    var cells := new Raw[plan.cellCount](_ => ZERO);
    var byPath := IndexPaths(plan.items, Interning.PathOf());
    for t := 0 to |plan.items|
      invariant forall u: nat {:trigger cells[u]} :: u < cells.Length ==>
                  if u < t then ObjectCell(plan, u) == Some(cells[u]) else cells[u] == ZERO
    {
      var cell := EncodeObject(plan, byPath, t);
      if cell.None? {
        return None;
      }
      cells[t] := cell.value;
    }
    var attrAt := set c | c in plan.attrCells;
    for j := 0 to |plan.dirs|
      invariant SlicesIn(plan, cells[..], j)
    {
      ghost var was := cells[..];
      SliceFits(plan, j);
      EncodeSlice(plan, j, attrAt, cells);
      assert forall c: nat {:trigger cells[..][c]} :: c < cells.Length ==> cells[..][c] == cells[c];
      NextSlice(plan, was, cells[..], j);
    }
    ghost var slices := cells[..];
    for a := 0 to |plan.attrs|
      invariant AttrsIn(plan, slices, cells[..], a)
    {
      NextAttr(plan, slices, cells[..], a);
      ghost var was := cells[..];
      cells[plan.attrCells[a]] := AttrCell(plan.attrs[a]);
      assert cells[..] == was[plan.attrCells[a] := AttrCell(plan.attrs[a])];
    }
    AllIn(plan, slices, cells[..]);
    r := Some(cells[..]);
  }

  lemma SliceFits(plan: Plan, j: nat)
    requires Spread(plan) && j < |plan.dirs|
    ensures plan.dirs[j].slots == [] || plan.dirs[j].first + |plan.dirs[j].slots| <= plan.cellCount
  {
    if plan.dirs[j].slots != [] {
      assert InSlice(plan.dirs[j], plan.dirs[j].first + |plan.dirs[j].slots| - 1);
    }
  }

  /** The header's fields and the cells. */
  function ImageOf(plan: Plan, cells: seq<Raw>, bytes: seq<byte>): Image
    requires plan.dirs != [] && plan.rootAttr < |plan.attrCells|
  {
    var root := plan.dirs[0];
    Image(bytes, cells, plan.o.publicOff, plan.o.privateOff, plan.hash2,
          Dir(root.first, |root.slots|, |root.children|, HashByte(root)), plan.attrCells[plan.rootAttr])
  }
}
