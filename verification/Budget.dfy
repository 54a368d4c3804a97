/** Keeping the metadata table within its limit (programs/makefemtofs.cpp:1436-1498): shrink the directories
    that save most to their minimum tables, one after another, until everything fits. */
module Budget {
  import opened Format
  import opened Counting
  import opened Sorting

  datatype Table = Table(size: nat, prime: nat, dual: bool)

  /** A directory's table and how many children it must hold. */
  datatype Dir = Dir(table: Table, children: nat)

  function Buckets(dirs: seq<Dir>): int {
    if dirs == [] then 0 else Buckets(dirs[..|dirs| - 1]) + dirs[|dirs| - 1].table.size
  }

  /** Buckets that no child takes. */
  function Empties(dirs: seq<Dir>): int {
    if dirs == [] then 0 else Empties(dirs[..|dirs| - 1]) + dirs[|dirs| - 1].table.size - dirs[|dirs| - 1].children
  }

  /** Objects, buckets, and the attributes that find no empty bucket. */
  function Planned(nodes: nat, dirs: seq<Dir>, attrs: nat): int {
    nodes + Buckets(dirs) + (if attrs > Empties(dirs) then attrs - Empties(dirs) else 0)
  }

  method Totals(dirs: seq<Dir>) returns (buckets: int, empty: int)
    ensures buckets == Buckets(dirs) && empty == Empties(dirs)
  {
    buckets, empty := 0, 0;
    for i := 0 to |dirs|
      invariant buckets == Buckets(dirs[..i]) && empty == Empties(dirs[..i])
    {
      assert dirs[..i + 1][..i] == dirs[..i];
      buckets := buckets + dirs[i].table.size;
      empty := empty + dirs[i].table.size - dirs[i].children;
    }
    assert dirs[..|dirs|] == dirs;
  }

  method PlannedCellCount(nodes: nat, dirs: seq<Dir>, attrs: nat) returns (cells: int)
    ensures cells == Planned(nodes, dirs, attrs)
  {
    var buckets, empty := Totals(dirs);
    cells := nodes + buckets + (if attrs > empty then attrs - empty else 0);
  }

  lemma {:induction false} Exchanged(dirs: seq<Dir>, i: nat, d: Dir)
    requires i < |dirs| && d.children == dirs[i].children
    ensures Buckets(dirs[i := d]) == Buckets(dirs) - dirs[i].table.size + d.table.size
    ensures Empties(dirs[i := d]) == Empties(dirs) - dirs[i].table.size + d.table.size
  {
    var last := |dirs| - 1;
    if i < last {
      Exchanged(dirs[..last], i, d);
      assert dirs[i := d][..last] == dirs[..last][i := d];
    } else {
      assert dirs[i := d][..last] == dirs[..last];
    }
  }

  lemma {:induction false} SameSizes(a: seq<Dir>, b: seq<Dir>)
    requires |a| == |b|
    requires forall i: nat :: i < |a| ==> a[i].table.size == b[i].table.size && a[i].children == b[i].children
    ensures Buckets(a) == Buckets(b) && Empties(a) == Empties(b)
  {
    if a != [] {
      SameSizes(a[..|a| - 1], b[..|b| - 1]);
    }
  }

  // ---------------------------------------------------------------- candidates

  datatype Candidate = Candidate(saving: nat, index: nat)

  /** Largest saving first, then by index. */
  function BySaving(): (Candidate, Candidate) -> bool {
    (x: Candidate, y: Candidate) => x.saving > y.saving || (x.saving == y.saving && x.index <= y.index)
  }

  /** Minimum tables hold the same children in no more buckets. */
  ghost predicate Smaller(minimum: seq<Dir>, dirs: seq<Dir>) {
    |minimum| == |dirs| && forall i: nat {:trigger minimum[i]} {:trigger dirs[i]} :: i < |dirs| ==>
      minimum[i].children == dirs[i].children && minimum[i].table.size <= dirs[i].table.size
  }

  /** The directories among the first k that can save anything. */
  function Candidates(dirs: seq<Dir>, minimum: seq<Dir>, k: nat): seq<Candidate>
    requires k <= |dirs| == |minimum| && Smaller(minimum, dirs)
  {
    if k == 0 then []
    else
      var saving := dirs[k - 1].table.size - minimum[k - 1].table.size;
      Candidates(dirs, minimum, k - 1) + (if saving != 0 then [Candidate(saving, k - 1)] else [])
  }

  lemma {:induction false} CandidatesAre(dirs: seq<Dir>, minimum: seq<Dir>, k: nat)
    requires k <= |dirs| == |minimum| && Smaller(minimum, dirs)
    ensures forall c: Candidate :: c in Candidates(dirs, minimum, k) <==>
              c.index < k && c.saving == dirs[c.index].table.size - minimum[c.index].table.size && c.saving != 0
    ensures Distinct(Candidates(dirs, minimum, k))
  {
    if k > 0 {
      CandidatesAre(dirs, minimum, k - 1);
      var front := Candidates(dirs, minimum, k - 1);
      assert forall j: nat :: j < |front| ==> front[j] in front;
    }
  }

  /** In sorted order too, each directory with a saving comes exactly once. */
  ghost predicate Ranked(cs: seq<Candidate>, dirs: seq<Dir>, minimum: seq<Dir>) {
    && |minimum| == |dirs|
    && (forall k: nat {:trigger cs[k]} :: k < |cs| ==>
          && cs[k].index < |dirs| && cs[k].saving != 0
          && cs[k].saving == dirs[cs[k].index].table.size - minimum[cs[k].index].table.size)
    && (forall j: nat, k: nat {:trigger cs[j], cs[k]} :: j < k < |cs| ==> cs[j].index != cs[k].index)
    && (forall i: nat {:trigger dirs[i]} :: i < |dirs| && dirs[i].table.size != minimum[i].table.size ==> Listed(cs, i))
  }

  ghost predicate Listed(cs: seq<Candidate>, i: nat) {
    exists k: nat {:trigger cs[k]} :: k < |cs| && cs[k].index == i
  }

  lemma SortedRanked(dirs: seq<Dir>, minimum: seq<Dir>)
    requires Smaller(minimum, dirs)
    ensures Ranked(Sort(BySaving(), Candidates(dirs, minimum, |dirs|)), dirs, minimum)
  {
    var all := Candidates(dirs, minimum, |dirs|);
    var cs := Sort(BySaving(), all);
    CandidatesAre(dirs, minimum, |dirs|);
    SameElements(cs, all);
    DistinctMultiplicity(all);
    DistinctMultiplicity(cs);
    forall k: nat | k < |cs|
      ensures cs[k].index < |dirs| && cs[k].saving == dirs[cs[k].index].table.size - minimum[cs[k].index].table.size
      ensures cs[k].saving != 0
    {
      assert cs[k] in cs;
    }
    forall i: nat | i < |dirs| && dirs[i].table.size != minimum[i].table.size
      ensures Listed(cs, i)
    {
      var c := Candidate(dirs[i].table.size - minimum[i].table.size, i);
      assert c in cs;
      var k: nat :| k < |cs| && cs[k] == c;
      assert cs[k].index == i;
    }
  }

  // ---------------------------------------------------------------- shrinking

  /** The first k candidates shrunk to their minimum tables. */
  ghost function Shrunk(dirs: seq<Dir>, minimum: seq<Dir>, cs: seq<Candidate>, k: nat): (r: seq<Dir>)
    requires k <= |cs| && Ranked(cs, dirs, minimum)
    ensures |r| == |dirs|
  {
    if k == 0 then dirs
    else
      var i := cs[k - 1].index;
      var front := Shrunk(dirs, minimum, cs, k - 1);
      front[i := front[i].(table := minimum[i].table)]
  }

  lemma {:induction false} ShrunkAt(dirs: seq<Dir>, minimum: seq<Dir>, cs: seq<Candidate>, k: nat, i: nat)
    requires k <= |cs| && Ranked(cs, dirs, minimum) && i < |dirs|
    ensures Shrunk(dirs, minimum, cs, k)[i].children == dirs[i].children
    ensures Shrunk(dirs, minimum, cs, k)[i].table ==
            if exists j: nat {:trigger cs[j]} :: j < k && cs[j].index == i then minimum[i].table else dirs[i].table
  {
    if k > 0 {
      ShrunkAt(dirs, minimum, cs, k - 1, i);
      assert cs[k - 1].index == cs[k - 1].index;
    }
  }

  /** With every candidate shrunk the plan needs what the minimum plan needs. */
  lemma AllShrunk(dirs: seq<Dir>, minimum: seq<Dir>, cs: seq<Candidate>, nodes: nat, attrs: nat)
    requires Smaller(minimum, dirs) && Ranked(cs, dirs, minimum)
    ensures Planned(nodes, Shrunk(dirs, minimum, cs, |cs|), attrs) == Planned(nodes, minimum, attrs)
  {
    var all := Shrunk(dirs, minimum, cs, |cs|);
    forall i: nat | i < |dirs|
      ensures all[i].table.size == minimum[i].table.size && all[i].children == minimum[i].children
    {
      ShrunkAt(dirs, minimum, cs, |cs|, i);
      if dirs[i].table.size != minimum[i].table.size {
        assert Listed(cs, i);
      }
    }
    SameSizes(all, minimum);
  }

  /** Running totals are what recomputing gives. */
  lemma ShrinkNext(dirs: seq<Dir>, minimum: seq<Dir>, cs: seq<Candidate>, k: nat)
    requires Smaller(minimum, dirs) && Ranked(cs, dirs, minimum) && k < |cs|
    ensures Buckets(Shrunk(dirs, minimum, cs, k + 1)) == Buckets(Shrunk(dirs, minimum, cs, k)) - cs[k].saving
    ensures Empties(Shrunk(dirs, minimum, cs, k + 1)) == Empties(Shrunk(dirs, minimum, cs, k)) - cs[k].saving
  {
    var i := cs[k].index;
    var was := Shrunk(dirs, minimum, cs, k);
    ShrunkAt(dirs, minimum, cs, k, i);
    Exchanged(was, i, was[i].(table := minimum[i].table));
  }

  /** How the plan came out: unchanged if it fitted, else shrunk candidate by candidate, in order of saving,
      and no further than needed. */
  ghost predicate Fitted(was: seq<Dir>, minimum: seq<Dir>, now: seq<Dir>, nodes: nat, attrs: nat) {
    if Planned(nodes, was, attrs) <= MAX_CELLS then now == was
    else
      && Smaller(minimum, was)
      && ShrunkJustEnough(was, minimum, now, nodes, attrs, Sort(BySaving(), Candidates(was, minimum, |was|)))
  }

  ghost predicate ShrunkJustEnough(was: seq<Dir>, minimum: seq<Dir>, now: seq<Dir>, nodes: nat, attrs: nat,
                                   cs: seq<Candidate>) {
    && Ranked(cs, was, minimum) && Sorted(BySaving(), cs)
    && exists k: nat :: 0 < k <= |cs| && now == Shrunk(was, minimum, cs, k)
                        && Planned(nodes, Shrunk(was, minimum, cs, k - 1), attrs) > MAX_CELLS
  }

  /** What the minimum table saves. */
  function Saving(was: seq<Dir>, minimum: seq<Dir>, i: nat): int
    requires i < |was| == |minimum|
  {
    was[i].table.size - minimum[i].table.size
  }

  /** Directory i was shrunk: it has its minimum table now, and had a larger one. */
  lemma ShrunkIs(was: seq<Dir>, minimum: seq<Dir>, cs: seq<Candidate>, k: nat, i: nat) returns (p: nat)
    requires Smaller(minimum, was) && Ranked(cs, was, minimum) && k <= |cs| && i < |was|
    requires Shrunk(was, minimum, cs, k)[i].table.size < was[i].table.size
    ensures p < k && cs[p].index == i && cs[p].saving == Saving(was, minimum, i)
  {
    ShrunkAt(was, minimum, cs, k, i);
    p :| p < k && cs[p].index == i;
  }

  /** Directory j was not shrunk although it could have been. */
  lemma KeptIs(was: seq<Dir>, minimum: seq<Dir>, cs: seq<Candidate>, k: nat, j: nat) returns (q: nat)
    requires Smaller(minimum, was) && Ranked(cs, was, minimum) && k <= |cs| && j < |was|
    requires Shrunk(was, minimum, cs, k)[j].table.size > minimum[j].table.size
    ensures k <= q < |cs| && cs[q].index == j && cs[q].saving == Saving(was, minimum, j)
  {
    ShrunkAt(was, minimum, cs, k, j);
    assert Listed(cs, j);
    q :| q < |cs| && cs[q].index == j;
  }

  /** Whoever was shrunk saves more than whoever was kept, or as much and comes first. */
  lemma SavesMore(was: seq<Dir>, minimum: seq<Dir>, cs: seq<Candidate>, k: nat, i: nat, j: nat)
    requires Smaller(minimum, was) && Ranked(cs, was, minimum) && Sorted(BySaving(), cs) && k <= |cs|
    requires i < |was| && j < |was| && Shrunk(was, minimum, cs, k)[i].table.size < was[i].table.size
    requires Shrunk(was, minimum, cs, k)[j].table.size > minimum[j].table.size
    ensures var s, t := was[i].table.size - minimum[i].table.size, was[j].table.size - minimum[j].table.size;
            s > t || (s == t && i < j)
  {
    var p := ShrunkIs(was, minimum, cs, k, i);
    var q := KeptIs(was, minimum, cs, k, j);
    assert BySaving()(cs[p], cs[q]);
  }

  /** Nobody saves less than the last one shrunk. */
  lemma LastLeast(was: seq<Dir>, minimum: seq<Dir>, cs: seq<Candidate>, k: nat, i: nat)
    requires Smaller(minimum, was) && Ranked(cs, was, minimum) && Sorted(BySaving(), cs) && 0 < k <= |cs|
    requires i < |was| && Shrunk(was, minimum, cs, k)[i].table.size < was[i].table.size
    ensures var last := cs[k - 1].index;
            var s, t := was[i].table.size - minimum[i].table.size, was[last].table.size - minimum[last].table.size;
            s > t || (s == t && i <= last)
  {
    var p := ShrunkIs(was, minimum, cs, k, i);
    if p < k - 1 {
      assert BySaving()(cs[p], cs[k - 1]);
    }
  }

  /** The shrinking is greedy, and its last step was needed. */
  lemma GreedyIs(was: seq<Dir>, minimum: seq<Dir>, now: seq<Dir>, nodes: nat, attrs: nat, cs: seq<Candidate>)
    returns (last: nat)
    requires Smaller(minimum, was) && ShrunkJustEnough(was, minimum, now, nodes, attrs, cs)
    ensures |now| == |was| && forall i: nat {:trigger now[i]} :: i < |was| ==>
              now[i].children == was[i].children && (now[i].table == was[i].table || now[i].table == minimum[i].table)
    ensures forall i: nat, j: nat {:trigger now[i], now[j]} ::
              (i < |was| && j < |was| && now[i].table.size < was[i].table.size
               && now[j].table.size > minimum[j].table.size) ==>
                var s, t := was[i].table.size - minimum[i].table.size, was[j].table.size - minimum[j].table.size;
                s > t || (s == t && i < j)
    ensures last < |was| && now[last].table.size < was[last].table.size
    ensures Planned(nodes, now[last := was[last]], attrs) > MAX_CELLS
    ensures forall i: nat {:trigger now[i]} :: i < |was| && now[i].table.size < was[i].table.size ==>
              var s, t := was[i].table.size - minimum[i].table.size, was[last].table.size - minimum[last].table.size;
              s > t || (s == t && i <= last)
  {
    var k: nat :| 0 < k <= |cs| && now == Shrunk(was, minimum, cs, k)
                  && Planned(nodes, Shrunk(was, minimum, cs, k - 1), attrs) > MAX_CELLS;
    forall i: nat | i < |was|
      ensures now[i].children == was[i].children && (now[i].table == was[i].table || now[i].table == minimum[i].table)
    {
      ShrunkAt(was, minimum, cs, k, i);
    }
    forall i: nat, j: nat
      | i < |was| && j < |was| && now[i].table.size < was[i].table.size && now[j].table.size > minimum[j].table.size
      ensures var s, t := was[i].table.size - minimum[i].table.size, was[j].table.size - minimum[j].table.size;
              s > t || (s == t && i < j)
    {
      SavesMore(was, minimum, cs, k, i, j);
    }
    last := cs[k - 1].index;
    LastShrunk(was, minimum, cs, k);
    forall i: nat | i < |was| && now[i].table.size < was[i].table.size
      ensures var s, t := was[i].table.size - minimum[i].table.size, was[last].table.size - minimum[last].table.size;
              s > t || (s == t && i <= last)
    {
      LastLeast(was, minimum, cs, k, i);
    }
  }

  /** Undoing the last step. */
  lemma LastShrunk(was: seq<Dir>, minimum: seq<Dir>, cs: seq<Candidate>, k: nat)
    requires Smaller(minimum, was) && Ranked(cs, was, minimum) && 0 < k <= |cs|
    ensures var i := cs[k - 1].index; var now := Shrunk(was, minimum, cs, k);
            now[i].table.size < was[i].table.size && now[i := was[i]] == Shrunk(was, minimum, cs, k - 1)
  {
    var i := cs[k - 1].index;
    ShrunkAt(was, minimum, cs, k - 1, i);
    var front := Shrunk(was, minimum, cs, k - 1);
    assert front[i] == was[i];
  }

  lemma BySavingOrder()
    ensures TotalOrder(BySaving())
  {
  }

  /** `fitDirectoryPlans`: succeeds exactly when the plan or the minimum plan fits, and then the result does. */
  method FitDirectoryPlans(dirs: array<Dir>, minimum: seq<Dir>, nodes: nat, attrs: nat, hash2In: u32)
    returns (ok: bool, hash2: u32)
    requires Smaller(minimum, dirs[..])
    modifies dirs
    ensures ok <==> Planned(nodes, old(dirs[..]), attrs) <= MAX_CELLS || Planned(nodes, minimum, attrs) <= MAX_CELLS
    ensures ok ==>
              Planned(nodes, dirs[..], attrs) <= MAX_CELLS && Fitted(old(dirs[..]), minimum, dirs[..], nodes, attrs)
    ensures ok && Planned(nodes, old(dirs[..]), attrs) > MAX_CELLS ==>
              forall i: nat, j: nat {:trigger dirs[i], dirs[j]} ::
                (i < dirs.Length && j < dirs.Length && dirs[i].table.size < old(dirs[i].table.size)
                 && dirs[j].table.size > minimum[j].table.size) ==>
                  var s := old(dirs[i].table.size) - minimum[i].table.size;
                  var t := old(dirs[j].table.size) - minimum[j].table.size;
                  s > t || (s == t && i < j)
    ensures ok && Planned(nodes, old(dirs[..]), attrs) > MAX_CELLS ==>
              exists last: nat {:trigger dirs[last]} ::
                last < dirs.Length && dirs[last].table.size < old(dirs[last].table.size)
                && Planned(nodes, dirs[..][last := old(dirs[last])], attrs) > MAX_CELLS
                && forall i: nat {:trigger dirs[i]} ::
                     i < dirs.Length && dirs[i].table.size < old(dirs[i].table.size) ==>
                     var s := old(dirs[i].table.size) - minimum[i].table.size;
                     var t := old(dirs[last].table.size) - minimum[last].table.size;
                     s > t || (s == t && i <= last)
    ensures ok ==>
              hash2 == if Planned(nodes, old(dirs[..]), attrs) > MAX_CELLS && NoneDual(dirs[..]) then 0 else hash2In
  {
    ghost var was := dirs[..];
    hash2 := hash2In;
    var cells := PlannedCellCount(nodes, dirs[..], attrs);
    if cells <= MAX_CELLS {
      return true, hash2;
    }
    cells := PlannedCellCount(nodes, minimum, attrs);
    if cells > MAX_CELLS {
      return false, hash2;
    }
    var cs := Sort(BySaving(), Candidates(dirs[..], minimum, dirs.Length));
    SortedRanked(was, minimum);
    BySavingOrder();
    SortSorted(BySaving(), Candidates(was, minimum, |was|));
    ShrinkUntilFits(dirs, minimum, cs, nodes, attrs);
    ghost var last := GreedyIs(was, minimum, dirs[..], nodes, attrs, cs);
    assert dirs[last] == dirs[..][last];
    assert forall i: nat {:trigger dirs[i]} :: i < dirs.Length ==> dirs[i] == dirs[..][i];
    var none := CheckNoneDual(dirs[..]);
    if none {
      hash2 := 0;
    }
    ok := true;
  }

  /** The greedy loop. */
  method ShrinkUntilFits(dirs: array<Dir>, minimum: seq<Dir>, cs: seq<Candidate>, nodes: nat, attrs: nat)
    requires Smaller(minimum, dirs[..]) && Ranked(cs, dirs[..], minimum)
    requires Planned(nodes, dirs[..], attrs) > MAX_CELLS >= Planned(nodes, minimum, attrs)
    modifies dirs
    ensures Planned(nodes, dirs[..], attrs) <= MAX_CELLS
    ensures exists k: nat :: 0 < k <= |cs| && dirs[..] == Shrunk(old(dirs[..]), minimum, cs, k)
                             && Planned(nodes, Shrunk(old(dirs[..]), minimum, cs, k - 1), attrs) > MAX_CELLS
  {
    ghost var was := dirs[..];
    var buckets, empty := Totals(dirs[..]);
    AllShrunk(was, minimum, cs, nodes, attrs);
    for k := 0 to |cs|
      invariant dirs[..] == Shrunk(was, minimum, cs, k)
      invariant buckets == Buckets(dirs[..]) && empty == Empties(dirs[..])
      invariant Planned(nodes, dirs[..], attrs) > MAX_CELLS
    {
      ShrinkNext(was, minimum, cs, k);
      ShrinkOne(dirs, minimum, cs[k].index);
      buckets, empty := buckets - cs[k].saving, empty - cs[k].saving;
      var cells := nodes + buckets + (if attrs > empty then attrs - empty else 0);
      if cells <= MAX_CELLS {
        return;
      }
    }
  }

  method ShrinkOne(dirs: array<Dir>, minimum: seq<Dir>, i: nat)
    requires i < dirs.Length == |minimum|
    modifies dirs
    ensures dirs[..] == old(dirs[..])[i := old(dirs[i]).(table := minimum[i].table)]
  {
    dirs[i] := dirs[i].(table := minimum[i].table);
  }

  ghost predicate NoneDual(dirs: seq<Dir>) {
    forall i: nat :: i < |dirs| ==> !dirs[i].table.dual
  }

  method CheckNoneDual(dirs: seq<Dir>) returns (none: bool)
    ensures none <==> NoneDual(dirs)
  {
    for i := 0 to |dirs|
      invariant forall j: nat :: j < i ==> !dirs[j].table.dual
    {
      if dirs[i].table.dual {
        return false;
      }
    }
    none := true;
  }
}
