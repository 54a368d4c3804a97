/** Putting attributes into buckets that no child took (programs/makefemtofs.cpp:1503-1506, 1565-1627): near
    what refers to them when possible, anywhere else if not, and in new cells only when no bucket is left. */
module Attributes {
  import opened Format
  import opened Counting
  import Budget

  /** A directory's buckets: where they start, and which are taken. */
  datatype Layout = Layout(first: nat, taken: seq<bool>)

  /** The objects that use an attribute; the root is referred to from the header. */
  type References = seq<Option<nat>>

  function PageOfCell(cell: nat): nat {
    (HEADER + cell * CELL) / PAGE
  }

  function PageOfReference(reference: Option<nat>): nat {
    if reference.Some? then PageOfCell(reference.value) else 0
  }

  function Free(taken: seq<bool>): nat {
    if taken == [] then 0 else Free(taken[..|taken| - 1]) + (if taken[|taken| - 1] then 0 else 1)
  }

  /** Slices follow the objects without gaps; a directory without a table starts at 0. */
  ghost predicate Laid(dirs: seq<Layout>, nodes: nat) {
    forall i: nat {:trigger dirs[i]} :: i < |dirs| ==>
      dirs[i].first == if dirs[i].taken == [] then 0 else Start(dirs[..i], nodes)
  }

  /** The cell after the objects and the slices of these directories. */
  function Start(dirs: seq<Layout>, nodes: nat): (cell: nat)
    ensures cell >= nodes
  {
    if dirs == [] then nodes else Start(dirs[..|dirs| - 1], nodes) + |dirs[|dirs| - 1].taken|
  }

  predicate IsFree(d: Layout, c: nat) {
    d.first <= c < d.first + |d.taken| && !d.taken[c - d.first]
  }

  /** Free cells of one slice, among its first k. */
  ghost function FreeCells(d: Layout, k: nat): set<nat>
    requires k <= |d.taken|
  {
    set c: nat | c < d.first + k && IsFree(d, c)
  }

  ghost function AllFree(dirs: seq<Layout>): set<nat> {
    if dirs == [] then {} else AllFree(dirs[..|dirs| - 1]) + FreeCells(dirs[|dirs| - 1], |dirs[|dirs| - 1].taken|)
  }

  function FreeTotal(dirs: seq<Layout>): nat {
    if dirs == [] then 0 else FreeTotal(dirs[..|dirs| - 1]) + Free(dirs[|dirs| - 1].taken)
  }

  lemma {:induction false} FreeCellsSize(d: Layout, k: nat)
    requires k <= |d.taken|
    ensures |FreeCells(d, k)| == Free(d.taken[..k])
  {
    if k > 0 {
      FreeCellsSize(d, k - 1);
      assert d.taken[..k][..k - 1] == d.taken[..k - 1];
      if d.taken[k - 1] {
        assert FreeCells(d, k) == FreeCells(d, k - 1);
      } else {
        assert FreeCells(d, k) == FreeCells(d, k - 1) + {d.first + k - 1};
      }
    } else {
      assert FreeCells(d, 0) == {};
    }
  }

  /** The free cells lie between the objects and the end of the slices, and there are as many as counted. */
  lemma {:induction false} AllFreeSize(dirs: seq<Layout>, nodes: nat)
    requires Laid(dirs, nodes)
    ensures |AllFree(dirs)| == FreeTotal(dirs)
    ensures forall c: nat :: c in AllFree(dirs) ==> nodes <= c < Start(dirs, nodes)
  {
    if dirs != [] {
      var last := |dirs| - 1;
      var front, d := dirs[..last], dirs[last];
      assert forall i: nat :: i < last ==> front[i] == dirs[i] && front[..i] == dirs[..i];
      AllFreeSize(front, nodes);
      FreeCellsSize(d, |d.taken|);
      assert d.taken[..|d.taken|] == d.taken;
      BothSides(AllFree(front), FreeCells(d, |d.taken|), Start(front, nodes));
    }
  }

  lemma BothSides(a: set<nat>, b: set<nat>, end: nat)
    requires forall c: nat :: c in a ==> c < end
    requires forall c: nat :: c in b ==> end <= c
    ensures a !! b && |a + b| == |a| + |b|
  {
  }

  /** A cell is free exactly when it is in some directory's slice and no child took it. */
  lemma {:induction false} AllFreeIs(dirs: seq<Layout>, c: nat)
    ensures c in AllFree(dirs) <==>
            exists i: nat {:trigger dirs[i]} ::
              i < |dirs| && dirs[i].first <= c < dirs[i].first + |dirs[i].taken| && !dirs[i].taken[c - dirs[i].first]
  {
    if dirs != [] {
      var last := |dirs| - 1;
      assert forall i: nat {:trigger dirs[i]} :: i < last ==> dirs[..last][i] == dirs[i];
      AllFreeIs(dirs[..last], c);
      assert c in FreeCells(dirs[last], |dirs[last].taken|) <==> IsFree(dirs[last], c);
    }
  }

  // ---------------------------------------------------------------- the page index

  /** Each page with a free cell is listed, with exactly its free cells. */
  ghost predicate PageIndex(free: set<nat>, byPage: map<nat, set<nat>>) {
    && (forall c: nat {:trigger c in free} :: c in free ==> PageOfCell(c) in byPage && c in byPage[PageOfCell(c)])
    && (forall p: nat {:trigger byPage[p]} :: p in byPage ==>
          byPage[p] != {} && forall c: nat {:trigger c in byPage[p]} :: c in byPage[p] ==>
            c in free && PageOfCell(c) == p)
  }

  lemma IndexInsert(free: set<nat>, byPage: map<nat, set<nat>>, c: nat)
    requires PageIndex(free, byPage)
    ensures var p := PageOfCell(c);
            PageIndex(free + {c}, byPage[p := (if p in byPage then byPage[p] else {}) + {c}])
  {
  }

  lemma IndexErase(free: set<nat>, byPage: map<nat, set<nat>>, c: nat)
    requires PageIndex(free, byPage) && c in free
    ensures var p := PageOfCell(c);
            && p in byPage
            && PageIndex(free - {c}, if byPage[p] - {c} == {} then byPage - {p} else byPage[p := byPage[p] - {c}])
  {
  }

  method CollectFree(dirs: seq<Layout>) returns (free: set<nat>, byPage: map<nat, set<nat>>)
    ensures free == AllFree(dirs) && PageIndex(free, byPage)
  {
    free, byPage := {}, map[];
    for i := 0 to |dirs|
      invariant free == AllFree(dirs[..i]) && PageIndex(free, byPage)
    {
      var d := dirs[i];
      ghost var before := free;
      for k := 0 to |d.taken|
        invariant free == before + FreeCells(d, k) && PageIndex(free, byPage)
      {
        var cell := d.first + k;
        if d.taken[k] {
          assert FreeCells(d, k + 1) == FreeCells(d, k);
        } else {
          assert FreeCells(d, k + 1) == FreeCells(d, k) + {cell};
          IndexInsert(free, byPage, cell);
          var page := PageOfCell(cell);
          free, byPage := free + {cell}, byPage[page := (if page in byPage then byPage[page] else {}) + {cell}];
        }
      }
      assert dirs[..i + 1][..i] == dirs[..i];
    }
    assert dirs[..|dirs|] == dirs;
  }

  // ---------------------------------------------------------------- choosing a cell

  predicate IsLeast(s: set<nat>, x: nat) {
    x in s && forall y: nat {:trigger y in s} :: y in s ==> x <= y
  }

  ghost function OnPage(free: set<nat>, page: nat): set<nat> {
    set c: nat | c in free && PageOfCell(c) == page
  }

  /** The least free cell on the page of the first reference whose page has one, otherwise the least free
      cell, otherwise none. */
  ghost predicate Choice(free: set<nat>, references: References, cell: Option<nat>) {
    if cell.None? then free == {}
    else
      || (exists k: nat {:trigger references[k]} ::
            k < |references| && IsLeast(OnPage(free, PageOfReference(references[k])), cell.value)
            && forall j: nat {:trigger references[j]} :: j < k ==> OnPage(free, PageOfReference(references[j])) == {})
      || ((forall j: nat {:trigger references[j]} :: j < |references| ==>
             OnPage(free, PageOfReference(references[j])) == {})
          && IsLeast(free, cell.value))
  }

  /** The cell is on the page of what refers to the attribute; the root's page is that of the header. */
  predicate SamePage(cell: nat, reference: Option<nat>) {
    (128 + 16 * cell) / 4096 == if reference.Some? then (128 + 16 * reference.value) / 4096 else 0
  }

  /** How many references come before the first one on the cell's page. */
  function FirstNear(cell: nat, references: References): (n: nat)
    ensures n <= |references| && (n < |references| ==> SamePage(cell, references[n]))
    ensures forall j: nat {:trigger references[j]} :: j < n ==> !SamePage(cell, references[j])
  {
    if references == [] || SamePage(cell, references[0]) then 0
    else
      var n := FirstNear(cell, references[1..]);
      assert forall j: nat {:trigger references[j]} :: 0 < j < |references| ==> references[j] == references[1..][j - 1];
      n + 1
  }

  /** No free cell is on the page of an earlier reference, and none on that of the same one, or on no reference's
      page either, is lower. */
  ghost predicate Best(free: set<nat>, references: References, cell: nat) {
    cell in free && forall c: nat {:trigger c in free} :: c in free ==>
      || FirstNear(cell, references) < FirstNear(c, references)
      || (FirstNear(cell, references) == FirstNear(c, references) && cell <= c)
  }

  lemma ChoiceIsBest(free: set<nat>, references: References, cell: nat)
    requires Choice(free, references, Some(cell))
    ensures Best(free, references, cell)
  {
    if k: nat :| k < |references| && IsLeast(OnPage(free, PageOfReference(references[k])), cell)
                 && forall j: nat {:trigger references[j]} :: j < k ==>
                      OnPage(free, PageOfReference(references[j])) == {} {
      forall c: nat | c in free
        ensures FirstNear(c, references) >= k
        ensures FirstNear(c, references) == k ==> cell <= c
      {
        NoneNear(free, references, c, k);
        assert FirstNear(c, references) == k ==> c in OnPage(free, PageOfReference(references[k]));
      }
      assert cell in OnPage(free, PageOfReference(references[k]));
      NoneNear(free, references, cell, k);
    } else {
      forall c: nat | c in free
        ensures FirstNear(c, references) == |references|
      {
        NoneNear(free, references, c, |references|);
      }
    }
  }

  lemma NoneNear(free: set<nat>, references: References, c: nat, k: nat)
    requires c in free && k <= |references|
    requires forall j: nat {:trigger references[j]} :: j < k ==> OnPage(free, PageOfReference(references[j])) == {}
    ensures FirstNear(c, references) >= k
    ensures k < |references| && PageOfCell(c) == PageOfReference(references[k]) ==> FirstNear(c, references) == k
  {
    forall j: nat | j < k
      ensures !SamePage(c, references[j])
    {
      assert c !in OnPage(free, PageOfReference(references[j]));
    }
  }

  lemma {:induction false} LeastExists(s: set<nat>)
    requires s != {}
    ensures exists x: nat :: IsLeast(s, x)
    decreases |s|
  {
    var a :| a in s;
    var rest := s - {a};
    assert s == rest + {a};
    if rest == {} {
      assert IsLeast(s, a);
    } else {
      LeastExists(rest);
      var b: nat :| IsLeast(rest, b);
      assert IsLeast(s, if a <= b then a else b);
    }
  }

  method Least(s: set<nat>) returns (x: nat)
    requires s != {}
    ensures IsLeast(s, x)
  {
    LeastExists(s);
    x :| x in s && IsLeast(s, x);
  }

  method Choose(free: set<nat>, byPage: map<nat, set<nat>>, references: References) returns (cell: Option<nat>)
    requires PageIndex(free, byPage)
    ensures Choice(free, references, cell) && (cell.None? <==> free == {})
    ensures cell.Some? ==> Best(free, references, cell.value)
  {
    for k := 0 to |references|
      invariant forall j: nat {:trigger references[j]} :: j < k ==> OnPage(free, PageOfReference(references[j])) == {}
    {
      var page := PageOfReference(references[k]);
      PageCells(free, byPage, page);
      if page in byPage {
        var least := Least(byPage[page]);
        ChoiceIsBest(free, references, least);
        return Some(least);
      }
    }
    if free == {} {
      return None;
    }
    var least := Least(free);
    ChoiceIsBest(free, references, least);
    cell := Some(least);
  }

  lemma PageCells(free: set<nat>, byPage: map<nat, set<nat>>, page: nat)
    requires PageIndex(free, byPage)
    ensures OnPage(free, page) == if page in byPage then byPage[page] else {}
  {
  }

  // ---------------------------------------------------------------- placing

  /** Cells of the first k attributes: distinct, in free buckets while there are any, then in a row after everything. */
  ghost predicate Placed(cells: seq<nat>, all: set<nat>, free: set<nat>, end: nat, next: nat) {
    && Distinct(cells) && free <= all && end <= next && (next > end ==> free == {})
    && (forall k: nat {:trigger cells[k]} :: k < |cells| ==>
          cells[k] !in free && (cells[k] in all || end <= cells[k] < next))
    && |cells| == |all| - |free| + next - end
    && (forall c: nat :: c in all ==> c < end)
  }

  lemma PlacedFree(cells: seq<nat>, all: set<nat>, free: set<nat>, end: nat, next: nat, c: nat)
    requires Placed(cells, all, free, end, next) && c in free
    ensures Placed(cells + [c], all, free - {c}, end, next)
  {
  }

  lemma PlacedNew(cells: seq<nat>, all: set<nat>, end: nat, next: nat)
    requires Placed(cells, all, {}, end, next)
    ensures Placed(cells + [next], all, {}, end, next + 1)
  {
  }

  /** `placeAttributes`: fails exactly when the table gets more cells than indices reach. */
  method PlaceAttributes(dirs: seq<Layout>, nodes: nat, attrs: seq<References>)
    returns (ok: bool, cells: seq<nat>, cellCount: nat)
    requires Laid(dirs, nodes)
    ensures var n := Total(Start(dirs, nodes), |attrs|, FreeTotal(dirs));
            && (ok <==> 0 < n <= MAX_CELLS) && (ok ==> cellCount == n && |cells| == |attrs|)
    ensures ok ==> Distinct(cells) && forall k: nat {:trigger cells[k]} :: k < |cells| ==>
              cells[k] in AllFree(dirs) || Start(dirs, nodes) <= cells[k] < cellCount
    ensures ok ==> Chosen(dirs, attrs, cells)
    ensures ok ==> forall k: nat {:trigger cells[k]} :: k < |cells| ==>
              var free := AllFree(dirs) - Elements(cells[..k]);
              if free == {} then cells[k] == Start(dirs, nodes) + k - FreeTotal(dirs)
              else Best(free, attrs[k], cells[k])
  {
    var free, byPage := CollectFree(dirs);
    var end := EndOfSlices(dirs, nodes);
    AllFreeSize(dirs, nodes);
    ok, cells, cellCount := PlaceAll(attrs, free, byPage, end);
    if ok {
      EachBest(free, attrs, cells);
    }
  }

  method EndOfSlices(dirs: seq<Layout>, nodes: nat) returns (end: nat)
    ensures end == Start(dirs, nodes)
  {
    end := nodes;
    for i := 0 to |dirs|
      invariant end == Start(dirs[..i], nodes)
    {
      assert dirs[..i + 1][..i] == dirs[..i];
      end := end + |dirs[i].taken|;
    }
    assert dirs[..|dirs|] == dirs;
  }

  /** How many cells there are once all attributes have theirs. */
  function Total(end: nat, attrs: nat, free: nat): nat {
    end + if attrs > free then attrs - free else 0
  }

  method PlaceAll(attrs: seq<References>, all: set<nat>, pages: map<nat, set<nat>>, end: nat)
    returns (ok: bool, cells: seq<nat>, cellCount: nat)
    requires PageIndex(all, pages) && forall c: nat :: c in all ==> c < end
    ensures ok <==> 0 < Total(end, |attrs|, |all|) <= MAX_CELLS
    ensures ok ==> cellCount == Total(end, |attrs|, |all|) && |cells| == |attrs| && Distinct(cells)
    ensures ok ==> forall k: nat {:trigger cells[k]} :: k < |cells| ==> cells[k] in all || end <= cells[k] < cellCount
    ensures ok ==> ChosenBelow(all, attrs, cells, |attrs|) && InARow(all, cells, end)
  {
    var free, byPage, next := all, pages, end;
    cells := [];
    MidwayStart(all, attrs, end);
    for k := 0 to |attrs|
      invariant |cells| == k && PageIndex(free, byPage) && Midway(all, attrs, cells, free, end, next)
    {
      var cell;
      free, byPage, cell, next := PlaceOne(attrs, cells, free, byPage, next, all, end);
      cells := cells + [cell];
      if cell > 65535 {
        TooFar(all, attrs, cells, free, end, next);
        return false, cells, 0;
      }
    }
    AllIn(all, attrs, cells, free, end, next);
    cellCount := next;
    ok := cellCount != 0 && cellCount <= MAX_CELLS;
  }

  lemma AllIn(all: set<nat>, attrs: seq<References>, cells: seq<nat>, free: set<nat>, end: nat, next: nat)
    requires Midway(all, attrs, cells, free, end, next) && |cells| == |attrs|
    ensures next == Total(end, |attrs|, |all|) && Distinct(cells) && ChosenBelow(all, attrs, cells, |attrs|)
    ensures InARow(all, cells, end)
    ensures forall k: nat {:trigger cells[k]} :: k < |cells| ==> cells[k] in all || end <= cells[k] < next
  {
    assert Key(0);
    SubsetSize(free, all);
  }

  /** With the attributes up to |cells| placed; closed (see `Key`). */
  ghost predicate Midway(all: set<nat>, attrs: seq<References>, cells: seq<nat>, free: set<nat>, end: nat, next: nat) {
    |cells| <= |attrs| && forall k: nat {:trigger Key(k)} :: Key(k) ==>
      && Placed(cells, all, free, end, next) && free == all - Elements(cells)
      && ChosenBelow(all, attrs, cells, |cells|) && InARow(all, cells, end)
  }

  lemma MidwayStart(all: set<nat>, attrs: seq<References>, end: nat)
    requires forall c: nat :: c in all ==> c < end
    ensures Midway(all, attrs, [], all, end, end)
  {
    assert Elements<nat>([]) == {};
  }

  /** An index past 65535 means the whole table is too large. */
  lemma TooFar(all: set<nat>, attrs: seq<References>, cells: seq<nat>, free: set<nat>, end: nat, next: nat)
    requires Midway(all, attrs, cells, free, end, next) && cells != [] && cells[|cells| - 1] > MAX_CELLS
    ensures Total(end, |attrs|, |all|) > MAX_CELLS
  {
    assert Key(0);
    SubsetSize(free, all);
  }

  /** Place the next attribute. */
  method PlaceOne(attrs: seq<References>, cells: seq<nat>, freeIn: set<nat>, byPageIn: map<nat, set<nat>>, nextIn: nat,
                  ghost all: set<nat>, ghost end: nat)
    returns (free: set<nat>, byPage: map<nat, set<nat>>, cell: nat, next: nat)
    requires |cells| < |attrs| && PageIndex(freeIn, byPageIn) && Midway(all, attrs, cells, freeIn, end, nextIn)
    ensures PageIndex(free, byPage) && Midway(all, attrs, cells + [cell], free, end, next)
  {
    free, byPage, next := freeIn, byPageIn, nextIn;
    assert Key(0);
    var selected := Choose(free, byPage, attrs[|cells|]);
    if selected.Some? {
      cell := selected.value;
      ChoiceIsFree(free, attrs[|cells|], cell);
      IndexErase(free, byPage, cell);
      PlacedFree(cells, all, free, end, next, cell);
      var page := PageOfCell(cell);
      free := free - {cell};
      byPage := if byPage[page] - {cell} == {} then byPage - {page} else byPage[page := byPage[page] - {cell}];
    } else {
      cell := next;
      PlacedNew(cells, all, end, next);
      next := next + 1;
    }
    ChosenNext(all, attrs, cells, freeIn, cell, |cells|);
    RowNext(all, cells, freeIn, cell, end, nextIn);
  }

  lemma ChoiceIsFree(free: set<nat>, references: References, cell: nat)
    requires Choice(free, references, Some(cell))
    ensures cell in free
  {
  }

  /** Attribute k took the cell that was its choice among the buckets the earlier ones left. */
  ghost predicate ChosenBelow(all: set<nat>, attrs: seq<References>, cells: seq<nat>, n: nat) {
    n <= |cells| && n <= |attrs| && forall k: nat {:trigger cells[k]} :: k < n ==>
      var free := all - Elements(cells[..k]);
      Choice(free, attrs[k], if free == {} then None else Some(cells[k]))
  }

  ghost predicate Chosen(dirs: seq<Layout>, attrs: seq<References>, cells: seq<nat>) {
    |cells| == |attrs| && ChosenBelow(AllFree(dirs), attrs, cells, |attrs|)
  }

  /** Once the buckets are taken, the cells after everything follow each other. */
  ghost predicate InARow(all: set<nat>, cells: seq<nat>, end: nat) {
    forall k: nat {:trigger cells[k]} :: k < |cells| && all - Elements(cells[..k]) == {} ==> cells[k] + |all| == end + k
  }

  lemma RowNext(all: set<nat>, cells: seq<nat>, free: set<nat>, cell: nat, end: nat, next: nat)
    requires Placed(cells, all, free, end, next) && InARow(all, cells, end) && free == all - Elements(cells)
    requires free == {} ==> cell == next
    ensures InARow(all, cells + [cell], end)
  {
    var more := cells + [cell];
    assert forall j: nat :: j < |cells| ==> more[..j] == cells[..j] && more[j] == cells[j];
    assert more[..|cells|] == cells;
  }

  lemma EachBest(all: set<nat>, attrs: seq<References>, cells: seq<nat>)
    requires ChosenBelow(all, attrs, cells, |attrs|) && |cells| == |attrs|
    ensures forall k: nat {:trigger cells[k]} :: k < |cells| && all - Elements(cells[..k]) != {} ==>
              Best(all - Elements(cells[..k]), attrs[k], cells[k])
  {
    forall k: nat | k < |cells| && all - Elements(cells[..k]) != {}
      ensures Best(all - Elements(cells[..k]), attrs[k], cells[k])
    {
      ChoiceIsBest(all - Elements(cells[..k]), attrs[k], cells[k]);
    }
  }

  lemma ChosenNext(all: set<nat>, attrs: seq<References>, cells: seq<nat>, free: set<nat>, cell: nat, k: nat)
    requires ChosenBelow(all, attrs, cells, k) && k == |cells| < |attrs| && free == all - Elements(cells)
    requires Choice(free, attrs[k], if free == {} then None else Some(cell))
    ensures ChosenBelow(all, attrs, cells + [cell], k + 1)
    ensures all - Elements(cells + [cell]) == free - {cell}
  {
    var more := cells + [cell];
    assert forall j: nat :: j < k ==> more[..j] == cells[..j] && more[j] == cells[j];
    assert more[..k] == cells;
    assert Elements(more) == Elements(cells) + {cell};
  }

  /** The plan's cell count is what placement comes to. */
  lemma {:induction false} PlannedIsPlaced(dirs: seq<Layout>, plans: seq<Budget.Dir>, nodes: nat, attrs: nat)
    requires |plans| == |dirs|
    requires forall i: nat {:trigger plans[i]} {:trigger dirs[i]} :: i < |dirs| ==>
               plans[i].table.size == |dirs[i].taken| && plans[i].children == |dirs[i].taken| - Free(dirs[i].taken)
    ensures nodes + Budget.Buckets(plans) == Start(dirs, nodes) && Budget.Empties(plans) == FreeTotal(dirs)
    ensures Budget.Planned(nodes, plans, attrs) == Total(Start(dirs, nodes), attrs, FreeTotal(dirs))
  {
    if dirs != [] {
      var last := |dirs| - 1;
      assert forall i: nat :: i < last ==> plans[..last][i] == plans[i] && dirs[..last][i] == dirs[i];
      PlannedIsPlaced(dirs[..last], plans[..last], nodes, attrs);
    }
  }
}
