/** Choosing a directory's table size and hash base (include/femtofs/hash_plan.h). */
module Planner {
  import opened Format
  import opened Arith
  import opened Slice
  import opened Loads
  import opened Layout
  import opened Builder
  import Primality

  datatype Score = Score(sumSquares: nat, maxChain: nat)

  datatype Choice = Choice(tableSize: nat, primeIndex: nat, prime: u32, sumSquares: nat, maxChain: nat,
                           dual: bool, hitCeiling: bool, ceiling: nat)

  const NONE: Choice := Choice(0, 0, 0, 0, 0, false, false, 0)
  const MAX64: nat := 0xffff_ffff_ffff_ffff

  // ---------------------------------------------------------------- scores

  ghost function ScoreOf(h: Hashing, names: seq<seq<byte>>, size: nat): Score
    requires size > 0
  {
    var loads := LoadsOf(Assign(h, names, size), size);
    Score(SumSquares(loads), Maximum(loads))
  }

  /** Count the names at each anchor, then add up squares and take the maximum. */
  method ScoreNames(h: Hashing, names: seq<seq<byte>>, size: nat) returns (score: Score)
    requires size > 0
    ensures score == ScoreOf(h, names, size)
  {
    var counts := CountNames(h, names, size);
    ghost var loads := LoadsOf(Assign(h, names, size), size);
    var squares, longest := 0, 0;
    for i := 0 to size
      invariant squares == Sum(Squares(loads)[..i]) && longest == Maximum(loads[..i])
    {
      assert Squares(loads)[..i + 1][..i] == Squares(loads)[..i];
      assert loads[..i + 1][..i] == loads[..i];
      var count := counts[i];
      assert count == loads[i];
      squares := squares + count * count;
      if count > longest {
        longest := count;
      }
    }
    assert Squares(loads)[..size] == Squares(loads) && loads[..size] == loads;
    score := Score(squares, longest);
  }

  method CountNames(h: Hashing, names: seq<seq<byte>>, size: nat) returns (counts: array<nat>)
    requires size > 0
    ensures fresh(counts) && counts[..] == LoadsOf(Assign(h, names, size), size)
    ensures exists anchors: seq<nat> :: Balanced(h, names, size, anchors) && |counts[..]| == size &&
              forall a: nat {:trigger counts[a]} :: a < size ==>
                counts[a] == |set k: nat | k < |names| && anchors[k] == a|
  {
    counts := new nat[size](_ => 0);
    CountStart(h, names, size, counts[..]);
    for k := 0 to |names|
      invariant Counted(h, names, size, k, counts[..])
    {
      var chosen := ChooseAnchor(h, names[k], size, counts);
      CountNext(h, names, size, k, counts[..], chosen);
      counts[chosen] := counts[chosen] + 1;
    }
    assert names[..|names|] == names;
    ghost var anchors := Assign(h, names, size);
    AssignBalanced(h, names, size);
    forall a: nat | a < size
      ensures counts[a] == |set k: nat | k < |names| && anchors[k] == a|
    {
      CountIs(anchors, |names|, a);
      assert anchors[..|names|] == anchors;
    }
  }

  ghost predicate Counted(h: Hashing, names: seq<seq<byte>>, size: nat, k: nat, counts: seq<nat>) {
    size > 0 && k <= |names| && |counts| == size && counts == LoadsOf(Assign(h, names[..k], size), size)
  }

  lemma CountStart(h: Hashing, names: seq<seq<byte>>, size: nat, counts: seq<nat>)
    requires size > 0 && counts == seq(size, _ => 0)
    ensures Counted(h, names, size, 0, counts)
  {
  }

  lemma CountNext(h: Hashing, names: seq<seq<byte>>, size: nat, k: nat, counts: seq<nat>, chosen: nat)
    requires Counted(h, names, size, k, counts) && k < |names| && chosen == Choose(h, counts, names[k])
    ensures chosen < size && Counted(h, names, size, k + 1, counts[chosen := counts[chosen] + 1])
  {
    AssignStep(h, names, size, k);
    LoadsStep(Assign(h, names[..k], size), size, chosen);
  }

  /** What any score of n names satisfies. */
  lemma ScoreBounds(h: Hashing, names: seq<seq<byte>>, size: nat)
    requires size > 0
    ensures var s := ScoreOf(h, names, size);
            && |names| <= s.sumSquares <= |names| * |names|
            && s.maxChain <= |names|
            && (s.sumSquares == |names| <==> s.maxChain <= 1)
            && (names != [] ==> s.maxChain >= 1)
  {
    var anchors := Assign(h, names, size);
    var loads := LoadsOf(anchors, size);
    LoadsTotal(anchors, size);
    SquaresAtLeast(loads);
    MaximumBounds(loads);
    SquaresAtMost(loads);
    if names != [] && Maximum(loads) == 0 {
      AllZero(loads);
    }
  }

  lemma {:induction false} SquaresAtMost(xs: seq<nat>)
    ensures SumSquares(xs) <= Sum(xs) * Sum(xs) && Maximum(xs) <= Sum(xs)
  {
    if xs != [] {
      var last := |xs| - 1;
      SquaresAtMost(xs[..last]);
      assert Squares(xs)[..last] == Squares(xs[..last]);
      SquareOfSum(Sum(xs[..last]), xs[last]);
    }
  }

  lemma SquareOfSum(a: nat, x: nat)
    ensures a * a + x * x <= (a + x) * (a + x)
  {
    assert (a + x) * (a + x) == a * a + 2 * (a * x) + x * x;
  }

  lemma {:induction false} AllZero(xs: seq<nat>)
    requires Maximum(xs) == 0
    ensures Sum(xs) == 0
  {
    if xs != [] {
      AllZero(xs[..|xs| - 1]);
    }
  }

  /** The score is the chain profile of the buckets built with the same choice. */
  lemma ScoreIsProfile(h: Hashing, names: seq<seq<byte>>, size: nat)
    requires size > 0
    ensures var chains := Sizes(Arranged(names, Assign(h, names, size), size));
            ScoreOf(h, names, size) == Score(SumSquares(chains), Maximum(chains))
  {
    ArrangedGrouped(names, Assign(h, names, size), size);
    Room(Arranged(names, Assign(h, names, size), size), Assign(h, names, size));
  }

  // ---------------------------------------------------------------- candidates

  /** The table sizes tried: the number of entries, then the primes above it up to the ceiling. */
  ghost predicate Candidate(t: nat, entries: nat, ceiling: nat) {
    t == entries || (entries < t <= ceiling && Primality.IsPrime(t))
  }

  ghost predicate IsCeiling(ceiling: nat, entries: nat) {
    if 2 * entries < MAX_TABLE
    then 2 * entries < ceiling <= MAX_TABLE && Primality.IsPrime(ceiling) &&
         forall m: nat :: 2 * entries < m < ceiling ==> !Primality.IsPrime(m)
    else ceiling == MAX_TABLE
  }

  lemma MaxTableIsPrime()
    ensures Primality.IsPrime(MAX_TABLE)
  {
    forall p: nat | p in Primality.SMALL_PRIMES
      ensures MAX_TABLE % p != 0
    {
      MaxTableRowsLow(p);
      MaxTableRowsHigh(p);
    }
    Primality.NoSmallFactor(MAX_TABLE);
  }

  lemma MaxTableRowsLow(p: nat)
    ensures (p in Primality.ROW0 || p in Primality.ROW1 || p in Primality.ROW2 || p in Primality.ROW3 ||
             p in Primality.ROW4) ==> MAX_TABLE % p != 0
  {
  }

  lemma MaxTableRowsHigh(p: nat)
    ensures (p in Primality.ROW5 || p in Primality.ROW6 || p in Primality.ROW7 || p in Primality.ROW8 ||
             p in Primality.ROW9) ==> MAX_TABLE % p != 0
  {
  }

  method CeilingFor(entries: nat, bases: seq<nat>) returns (ceiling: nat)
    requires entries < MAX_ENTRIES
    ensures IsCeiling(ceiling, entries) && entries <= ceiling <= MAX_TABLE
    ensures ceiling <= 65521 && Primality.IsPrime(ceiling)
    ensures if 2 * entries >= 65521 then ceiling == 65521
            else ceiling > 2 * entries && forall m: nat :: 2 * entries < m < ceiling ==> !Primality.IsPrime(m)
  {
    MaxTableIsPrime();
    var doubled := 2 * entries;
    ceiling := MAX_TABLE;
    if doubled < MAX_TABLE {
      var next := Primality.NextPrimeStrict(doubled, bases);
      ceiling := if next < MAX_TABLE then next else MAX_TABLE;
    }
  }

  /** The candidate after t, or proof that there is none. */
  method NextCandidate(t: nat, ghost entries: nat, ceiling: nat, bases: seq<nat>) returns (next: nat)
    requires Candidate(t, entries, ceiling) && entries <= ceiling <= MAX_TABLE
    ensures next > t
    ensures next <= ceiling ==> Candidate(next, entries, ceiling)
    ensures forall u: nat :: Candidate(u, entries, ceiling) && u > t ==> u >= next
  {
    next := Primality.NextPrimeStrict(t, bases);
    forall u: nat | Candidate(u, entries, ceiling) && u > t
      ensures u >= next
    {
    }
  }

  // ---------------------------------------------------------------- dual hashing

  /** The order `chooseDual` minimises: longest chain, squared load, table size, base. */
  predicate LexLeq(s: Score, t: nat, p: nat, s': Score, t': nat, p': nat) {
    s.maxChain < s'.maxChain || (s.maxChain == s'.maxChain &&
    (s.sumSquares < s'.sumSquares || (s.sumSquares == s'.sumSquares &&
    (t < t' || (t == t' && p <= p')))))
  }

  /** The choice is one of the combinations tried so far and its score is that combination's. */
  ghost predicate Tried(c: Choice, names: seq<seq<byte>>, primes: seq<u32>, second: Option<u32>, ceiling: nat) {
    && Candidate(c.tableSize, |names|, ceiling) && c.tableSize > 0
    && c.primeIndex < |primes| && c.prime == primes[c.primeIndex]
    && Score(c.sumSquares, c.maxChain) == ScoreOf(Hashing(c.prime, second), names, c.tableSize)
  }

  ghost predicate NoBetter(c: Choice, names: seq<seq<byte>>, primes: seq<u32>, second: u32, t: nat, i: nat)
    requires t > 0 && i < |primes|
  {
    LexLeq(Score(c.sumSquares, c.maxChain), c.tableSize, c.prime,
           ScoreOf(Hashing(primes[i], Some(second)), names, t), t, primes[i])
  }

  /** c beats every combination of a table below t, and of table t with a base before index n. */
  ghost predicate BestSoFar(c: Choice, names: seq<seq<byte>>, primes: seq<u32>, second: u32, ceiling: nat, t: nat,
                            n: nat)
    requires n <= |primes| && |names| > 0
  {
    forall u: nat, i: nat {:trigger NoBetter(c, names, primes, second, u, i)} ::
      Candidate(u, |names|, ceiling) && i < |primes| && (u < t || (u == t && i < n)) ==>
        NoBetter(c, names, primes, second, u, i)
  }

  /** Try every base on one table size. */
  method TryTableDual(names: seq<seq<byte>>, primes: seq<u32>, second: u32, ceiling: nat, t: nat, start: Choice)
    returns (best: Choice)
    requires 2 <= |names| < MAX_ENTRIES && primes != [] && Candidate(t, |names|, ceiling)
    requires BestSoFar(start, names, primes, second, ceiling, t, 0)
    requires Tried(start, names, primes, Some(second), ceiling) || (t == |names| && start.maxChain == MAX32)
    requires start.tableSize <= t && start.dual && !start.hitCeiling && start.ceiling == ceiling
    ensures BestSoFar(best, names, primes, second, ceiling, t, |primes|)
    ensures Tried(best, names, primes, Some(second), ceiling) && best.tableSize <= t
    ensures best.dual && !best.hitCeiling && best.ceiling == ceiling
  {
    best := start;
    for index := 0 to |primes|
      invariant BestSoFar(best, names, primes, second, ceiling, t, index)
      invariant Tried(best, names, primes, Some(second), ceiling) ||
                (index == 0 && t == |names| && best.maxChain == MAX32)
      invariant best.tableSize <= t && best.dual && !best.hitCeiling && best.ceiling == ceiling
    {
      var score := ScoreNames(Hashing(primes[index], Some(second)), names, t);
      ScoreBounds(Hashing(primes[index], Some(second)), names, t);
      var better := score.maxChain < best.maxChain ||
        (score.maxChain == best.maxChain && score.sumSquares < best.sumSquares) ||
        (score.maxChain == best.maxChain && score.sumSquares == best.sumSquares && t < best.tableSize) ||
        (score.maxChain == best.maxChain && score.sumSquares == best.sumSquares && t == best.tableSize &&
         primes[index] < best.prime);
      ghost var was := best;
      if better {
        best := Choice(t, index, primes[index], score.sumSquares, score.maxChain, true, false, ceiling);
      }
      BestStep(was, best, names, primes, second, ceiling, t, index);
    }
  }

  /** The better of the best so far and the next combination beats both. */
  lemma BestStep(was: Choice, c: Choice, names: seq<seq<byte>>, primes: seq<u32>, second: u32, ceiling: nat, t: nat,
                 n: nat)
    requires n < |primes| && |names| > 0 && t > 0 && BestSoFar(was, names, primes, second, ceiling, t, n)
    requires NoBetter(c, names, primes, second, t, n)
    requires LexLeq(Score(c.sumSquares, c.maxChain), c.tableSize, c.prime,
                    Score(was.sumSquares, was.maxChain), was.tableSize, was.prime)
    ensures BestSoFar(c, names, primes, second, ceiling, t, n + 1)
  {
    forall u: nat, i: nat | Candidate(u, |names|, ceiling) && i < |primes| && (u < t || (u == t && i < n + 1))
      ensures NoBetter(c, names, primes, second, u, i)
    {
      if u < t || i < n {
        assert NoBetter(was, names, primes, second, u, i);
      }
    }
  }

  /** With no chain longer than one nothing later can do better. */
  lemma PerfectIsBest(c: Choice, names: seq<seq<byte>>, primes: seq<u32>, second: u32, ceiling: nat, t: nat, u: nat,
                      i: nat)
    requires names != [] && Tried(c, names, primes, Some(second), ceiling) && c.maxChain <= 1 && c.tableSize <= t < u
    requires i < |primes|
    ensures NoBetter(c, names, primes, second, u, i)
  {
    ScoreBounds(Hashing(c.prime, Some(second)), names, c.tableSize);
    ScoreBounds(Hashing(primes[i], Some(second)), names, u);
  }

  /** The dual planner: although it stops early, its choice is the least over all candidates. */
  method ChooseDual(names: seq<seq<byte>>, primes: seq<u32>, second: u32, bases: seq<nat>) returns (r: Choice)
    requires |names| < MAX_ENTRIES && primes != []
    ensures |names| >= 2 ==>
      && IsCeiling(r.ceiling, |names|) && Tried(r, names, primes, Some(second), r.ceiling)
      && |names| <= r.tableSize <= r.ceiling <= MAX_TABLE && r.dual
      && (forall t: nat, i: nat {:trigger NoBetter(r, names, primes, second, t, i)} ::
            Candidate(t, |names|, r.ceiling) && i < |primes| ==> NoBetter(r, names, primes, second, t, i))
      && (r.hitCeiling <==> r.tableSize == r.ceiling && 10 * r.sumSquares >= 11 * |names|)
    ensures |names| >= 2 ==>
      forall t: nat, i: nat {:trigger ScoreOf(Hashing(primes[i], Some(second)), names, t)} ::
        Candidate(t, |names|, r.ceiling) && i < |primes| ==>
          var s := ScoreOf(Hashing(primes[i], Some(second)), names, t);
          || r.maxChain < s.maxChain
          || (r.maxChain == s.maxChain && r.sumSquares < s.sumSquares)
          || (r.maxChain == s.maxChain && r.sumSquares == s.sumSquares && r.tableSize < t)
          || (r.maxChain == s.maxChain && r.sumSquares == s.sumSquares && r.tableSize == t && r.prime <= primes[i])
    ensures |names| == 1 ==> r == Choice(1, 0, 0, 1, 1, false, false, 1)
    ensures |names| == 0 ==> r == NONE
  {
    var entries := |names|;
    if entries < 2 {
      ghost var stop;
      r, stop := ChooseSingle(names, primes, bases);
      return;
    }
    var ceiling := CeilingFor(entries, bases);
    var best := Choice(entries, 0, primes[0], MAX64, MAX32, true, false, ceiling);
    var tableSize := entries;
    ghost var last := false;
    while true
      invariant Candidate(tableSize, entries, ceiling) && tableSize <= ceiling
      invariant BestSoFar(best, names, primes, second, ceiling, tableSize, 0)
      invariant Tried(best, names, primes, Some(second), ceiling) || (tableSize == entries && best.maxChain == MAX32)
      invariant best.tableSize <= tableSize && best.dual && !best.hitCeiling && best.ceiling == ceiling
      decreases ceiling - tableSize
    {
      best := TryTableDual(names, primes, second, ceiling, tableSize, best);
      if best.maxChain <= 1 {
        forall t: nat, i: nat | Candidate(t, entries, ceiling) && i < |primes|
          ensures NoBetter(best, names, primes, second, t, i)
        {
          if t > tableSize {
            PerfectIsBest(best, names, primes, second, ceiling, tableSize, t, i);
          }
        }
        break;
      }
      var next := NextCandidate(tableSize, entries, ceiling, bases);
      if next > ceiling {
        forall t: nat, i: nat | Candidate(t, entries, ceiling) && i < |primes|
          ensures NoBetter(best, names, primes, second, t, i)
        {
        }
        break;
      }
      forall t: nat, i: nat | Candidate(t, entries, ceiling) && i < |primes| && t < next
        ensures NoBetter(best, names, primes, second, t, i)
      {
      }
      tableSize := next;
    }
    ghost var b := best;
    best := best.(hitCeiling := best.tableSize == ceiling && 10 * best.sumSquares >= 11 * entries);
    forall t: nat, i: nat | Candidate(t, entries, ceiling) && i < |primes|
      ensures NoBetter(best, names, primes, second, t, i)
    {
      assert NoBetter(b, names, primes, second, t, i);
    }
    DualBeats(best, names, primes, second, ceiling);
    r := best;
  }

  lemma DualBeats(c: Choice, names: seq<seq<byte>>, primes: seq<u32>, second: u32, ceiling: nat)
    requires |names| > 0
    requires forall t: nat, i: nat {:trigger NoBetter(c, names, primes, second, t, i)} ::
               Candidate(t, |names|, ceiling) && i < |primes| ==> NoBetter(c, names, primes, second, t, i)
    ensures forall t: nat, i: nat {:trigger ScoreOf(Hashing(primes[i], Some(second)), names, t)} ::
              Candidate(t, |names|, ceiling) && i < |primes| ==>
                var s := ScoreOf(Hashing(primes[i], Some(second)), names, t);
                || c.maxChain < s.maxChain
                || (c.maxChain == s.maxChain && c.sumSquares < s.sumSquares)
                || (c.maxChain == s.maxChain && c.sumSquares == s.sumSquares && c.tableSize < t)
                || (c.maxChain == s.maxChain && c.sumSquares == s.sumSquares && c.tableSize == t
                    && c.prime <= primes[i])
  {
    forall t: nat, i: nat {:trigger ScoreOf(Hashing(primes[i], Some(second)), names, t)}
      | Candidate(t, |names|, ceiling) && i < |primes|
      ensures NoBetter(c, names, primes, second, t, i)
    {
    }
  }

  // ---------------------------------------------------------------- single hashing

  /** No squared load below c's, and none as low that comes before it. */
  ghost predicate NoLess(c: Choice, names: seq<seq<byte>>, primes: seq<u32>, t: nat, i: nat)
    requires t > 0 && i < |primes|
  {
    var squares := ScoreOf(Hashing(primes[i], None), names, t).sumSquares;
    c.sumSquares <= squares && (t < c.tableSize || (t == c.tableSize && i < c.primeIndex) ==> c.sumSquares < squares)
  }

  /** c is the first least squared load of everything before (t, n). */
  ghost predicate FirstLeast(c: Choice, names: seq<seq<byte>>, primes: seq<u32>, ceiling: nat, t: nat, n: nat)
    requires n <= |primes| && |names| > 0
  {
    forall u: nat, i: nat {:trigger NoLess(c, names, primes, u, i)} ::
      Candidate(u, |names|, ceiling) && i < |primes| && (u < t || (u == t && i < n)) ==> NoLess(c, names, primes, u, i)
  }

  /** The mean squared load is at least 1.1. */
  ghost predicate Poor(names: seq<seq<byte>>, primes: seq<u32>, t: nat, i: nat)
    requires t > 0 && i < |primes|
  {
    10 * ScoreOf(Hashing(primes[i], None), names, t).sumSquares >= 11 * |names|
  }

  /** The better of the best so far and the next combination is the best of both. */
  lemma FirstLeastStep(was: Choice, c: Choice, names: seq<seq<byte>>, primes: seq<u32>, ceiling: nat, t: nat, n: nat)
    requires n < |primes| && |names| > 0 && t > 0 && FirstLeast(was, names, primes, ceiling, t, n) && was.tableSize <= t
    requires var score := ScoreOf(Hashing(primes[n], None), names, t);
             if score.sumSquares < was.sumSquares
             then c.sumSquares == score.sumSquares && c.tableSize == t && c.primeIndex == n
             else c == was && (was.tableSize == t ==> was.primeIndex <= n)
    ensures FirstLeast(c, names, primes, ceiling, t, n + 1)
  {
    forall u: nat, i: nat | Candidate(u, |names|, ceiling) && i < |primes| && (u < t || (u == t && i < n + 1))
      ensures NoLess(c, names, primes, u, i)
    {
      if u < t || i < n {
        assert NoLess(was, names, primes, u, i);
      }
    }
  }

  method TryTableSingle(names: seq<seq<byte>>, primes: seq<u32>, ceiling: nat, t: nat, start: Choice)
    returns (best: Choice, perfect: bool)
    requires 2 <= |names| < MAX_ENTRIES && primes != [] && Candidate(t, |names|, ceiling)
    requires FirstLeast(start, names, primes, ceiling, t, 0)
    requires start.sumSquares > |names|
    requires Tried(start, names, primes, None, ceiling) || (t == |names| && start.sumSquares == MAX64)
    requires start.tableSize <= t && (start.tableSize == t ==> start.primeIndex == 0)
    requires !start.dual && !start.hitCeiling && start.ceiling == ceiling
    ensures FirstLeast(best, names, primes, ceiling, t, |primes|)
    ensures Tried(best, names, primes, None, ceiling) && best.tableSize <= t
    ensures perfect <==> best.sumSquares == |names|
    ensures !best.dual && !best.hitCeiling && best.ceiling == ceiling
  {
    best, perfect := start, false;
    for index := 0 to |primes|
      invariant FirstLeast(best, names, primes, ceiling, t, index)
      invariant best.sumSquares > |names|
      invariant Tried(best, names, primes, None, ceiling) || (index == 0 && t == |names| && best.sumSquares == MAX64)
      invariant best.tableSize <= t && (best.tableSize == t ==> best.primeIndex <= index)
      invariant !best.dual && !best.hitCeiling && best.ceiling == ceiling
    {
      var score := ScoreNames(Hashing(primes[index], None), names, t);
      ScoreBounds(Hashing(primes[index], None), names, t);
      Fits64(|names|);
      var found := Choice(t, index, primes[index], score.sumSquares, score.maxChain, false, false, ceiling);
      if score.sumSquares == |names| {
        PerfectIsLeast(best, found, names, primes, ceiling, t, index);
        return found, true;
      }
      ghost var was := best;
      if score.sumSquares < best.sumSquares {
        best := found;
      }
      FirstLeastStep(was, best, names, primes, ceiling, t, index);
    }
  }

  /** A combination without collisions, the first one met, is the first least of all. */
  lemma PerfectIsLeast(was: Choice, c: Choice, names: seq<seq<byte>>, primes: seq<u32>, ceiling: nat, t: nat, n: nat)
    requires n < |primes| && |names| > 0 && FirstLeast(was, names, primes, ceiling, t, n) && was.sumSquares > |names|
    requires c.sumSquares == |names| && c.tableSize == t && c.primeIndex == n
    ensures FirstLeast(c, names, primes, ceiling, t, |primes|)
  {
    forall u: nat, i: nat | Candidate(u, |names|, ceiling) && i < |primes| && (u < t || (u == t && i < |primes|))
      ensures NoLess(c, names, primes, u, i)
    {
      ScoreBounds(Hashing(primes[i], None), names, u);
      if u < t || i < n {
        assert NoLess(was, names, primes, u, i);
      }
    }
  }

  lemma Fits64(n: nat)
    requires n < MAX_ENTRIES
    ensures n * n < MAX64
  {
    MulLe(n, MAX_ENTRIES, n);
    MulLe(n, MAX_ENTRIES, MAX_ENTRIES);
  }

  /** The single planner: the first least squared load over the tables up to `stop`, the first table by
      which the mean is below 1.1, or the last candidate. */
  method ChooseSingle(names: seq<seq<byte>>, primes: seq<u32>, bases: seq<nat>) returns (r: Choice, ghost stop: nat)
    requires |names| < MAX_ENTRIES && primes != []
    ensures |names| >= 2 ==>
      && IsCeiling(r.ceiling, |names|) && Tried(r, names, primes, None, r.ceiling) && !r.dual
      && |names| <= r.tableSize <= stop <= r.ceiling <= MAX_TABLE && Candidate(stop, |names|, r.ceiling)
      && FirstLeast(r, names, primes, r.ceiling, stop, |primes|)
      && (forall t: nat, i: nat {:trigger Poor(names, primes, t, i)} ::
            Candidate(t, |names|, r.ceiling) && i < |primes| && t < stop ==> Poor(names, primes, t, i))
      && (r.hitCeiling <==> 10 * r.sumSquares >= 11 * |names|)
      && (r.hitCeiling ==> forall t: nat :: Candidate(t, |names|, r.ceiling) ==> t <= stop)
    ensures |names| >= 2 ==>
      forall t: nat, i: nat {:trigger ScoreOf(Hashing(primes[i], None), names, t)} ::
        Candidate(t, |names|, r.ceiling) && t <= stop && i < |primes| ==>
          var squares := ScoreOf(Hashing(primes[i], None), names, t).sumSquares;
          && r.sumSquares <= squares && (t < stop ==> squares * 10 >= |names| * 11)
          && (t < r.tableSize || (t == r.tableSize && i < r.primeIndex) ==> r.sumSquares < squares)
    ensures |names| == 1 ==> r == Choice(1, 0, 0, 1, 1, false, false, 1)
    ensures |names| == 0 ==> r == NONE
  {
    var entries := |names|;
    stop := 0;
    if entries == 0 {
      return NONE, stop;
    }
    if entries == 1 {
      return Choice(1, 0, 0, 1, 1, false, false, 1), stop;
    }
    var ceiling := CeilingFor(entries, bases);
    Fits64(entries);
    var best := Choice(entries, 0, primes[0], MAX64, MAX32, false, false, ceiling);
    var tableSize := entries;
    while true
      invariant Candidate(tableSize, entries, ceiling) && tableSize <= ceiling
      invariant FirstLeast(best, names, primes, ceiling, tableSize, 0)
      invariant 10 * best.sumSquares >= 11 * entries
      invariant Tried(best, names, primes, None, ceiling) || (tableSize == entries && best.sumSquares == MAX64)
      invariant best.tableSize <= tableSize && (best.tableSize == tableSize ==> best.primeIndex == 0)
      invariant !best.dual && !best.hitCeiling && best.ceiling == ceiling
      decreases ceiling - tableSize
    {
      ghost var before := best;
      var perfect;
      best, perfect := TryTableSingle(names, primes, ceiling, tableSize, best);
      AllPoor(before, names, primes, ceiling, tableSize);
      if perfect || 10 * best.sumSquares < 11 * entries {
        SingleLeast(best, names, primes, ceiling, tableSize);
        return best, tableSize;
      }
      var next := NextCandidate(tableSize, entries, ceiling, bases);
      if next > ceiling {
        MarkedLeast(best, names, primes, ceiling, tableSize);
        SingleLeast(best.(hitCeiling := true), names, primes, ceiling, tableSize);
        return best.(hitCeiling := true), tableSize;
      }
      LeastBefore(best, names, primes, ceiling, tableSize, next);
      tableSize := next;
    }
  }

  lemma AllPoor(c: Choice, names: seq<seq<byte>>, primes: seq<u32>, ceiling: nat, t: nat)
    requires |names| > 0 && FirstLeast(c, names, primes, ceiling, t, 0) && 10 * c.sumSquares >= 11 * |names|
    ensures forall u: nat, i: nat {:trigger Poor(names, primes, u, i)} ::
              Candidate(u, |names|, ceiling) && i < |primes| && u < t ==> Poor(names, primes, u, i)
  {
    forall u: nat, i: nat {:trigger Poor(names, primes, u, i)} | Candidate(u, |names|, ceiling) && i < |primes| && u < t
      ensures Poor(names, primes, u, i)
    {
      assert NoLess(c, names, primes, u, i);
    }
  }

  lemma SingleLeast(c: Choice, names: seq<seq<byte>>, primes: seq<u32>, ceiling: nat, stop: nat)
    requires |names| > 0 && FirstLeast(c, names, primes, ceiling, stop, |primes|)
    requires forall t: nat, i: nat {:trigger Poor(names, primes, t, i)} ::
               Candidate(t, |names|, ceiling) && i < |primes| && t < stop ==> Poor(names, primes, t, i)
    ensures forall t: nat, i: nat {:trigger ScoreOf(Hashing(primes[i], None), names, t)} ::
              Candidate(t, |names|, ceiling) && t <= stop && i < |primes| ==>
                var squares := ScoreOf(Hashing(primes[i], None), names, t).sumSquares;
                && c.sumSquares <= squares && (t < stop ==> squares * 10 >= |names| * 11)
                && (t < c.tableSize || (t == c.tableSize && i < c.primeIndex) ==> c.sumSquares < squares)
  {
    forall t: nat, i: nat {:trigger ScoreOf(Hashing(primes[i], None), names, t)}
      | Candidate(t, |names|, ceiling) && t <= stop && i < |primes|
      ensures NoLess(c, names, primes, t, i) && (t < stop ==> Poor(names, primes, t, i))
    {
    }
  }

  lemma MarkedLeast(c: Choice, names: seq<seq<byte>>, primes: seq<u32>, ceiling: nat, t: nat)
    requires |names| > 0 && FirstLeast(c, names, primes, ceiling, t, |primes|)
    ensures FirstLeast(c.(hitCeiling := true), names, primes, ceiling, t, |primes|)
  {
    forall u: nat, i: nat | Candidate(u, |names|, ceiling) && i < |primes| && u <= t
      ensures NoLess(c.(hitCeiling := true), names, primes, u, i)
    {
      assert NoLess(c, names, primes, u, i);
    }
  }

  lemma LeastBefore(c: Choice, names: seq<seq<byte>>, primes: seq<u32>, ceiling: nat, t: nat, next: nat)
    requires |names| > 0 && FirstLeast(c, names, primes, ceiling, t, |primes|) && t < next
    requires forall u: nat :: Candidate(u, |names|, ceiling) && u > t ==> u >= next
    ensures FirstLeast(c, names, primes, ceiling, next, 0)
  {
    forall u: nat, i: nat | Candidate(u, |names|, ceiling) && i < |primes| && u < next
      ensures NoLess(c, names, primes, u, i)
    {
      assert u <= t;
    }
  }

  /** The least squared load a table of a given size allows, over the bases in order. */
  method BestSingleForTable(names: seq<seq<byte>>, primes: seq<u32>, tableSize: nat) returns (r: Choice)
    requires |names| < MAX_ENTRIES && primes != [] && |names| <= tableSize
    ensures names == [] ==> r == NONE
    ensures |names| == 1 ==> r.tableSize == tableSize && r.sumSquares == r.maxChain == 1
    ensures |names| >= 2 ==>
      && r.tableSize == tableSize && r.primeIndex < |primes| && r.prime == primes[r.primeIndex]
      && Score(r.sumSquares, r.maxChain) == ScoreOf(Hashing(r.prime, None), names, tableSize)
      && (forall i: nat {:trigger NoLess(r, names, primes, tableSize, i)} :: i < |primes| ==>
            NoLess(r, names, primes, tableSize, i))
    ensures |names| >= 2 ==>
      forall i: nat {:trigger ScoreOf(Hashing(primes[i], None), names, tableSize)} :: i < |primes| ==>
        var squares := ScoreOf(Hashing(primes[i], None), names, tableSize).sumSquares;
        r.sumSquares <= squares && (i < r.primeIndex ==> r.sumSquares < squares)
  {
    if names == [] {
      return NONE;
    }
    if |names| == 1 {
      return Choice(tableSize, 0, 0, 1, 1, false, false, tableSize);
    }
    r := Choice(tableSize, 0, primes[0], MAX64, MAX32, false, false, tableSize);
    for index := 0 to |primes|
      invariant r.tableSize == tableSize && r.primeIndex < |primes| && r.prime == primes[r.primeIndex]
      invariant index == 0 ==> r.sumSquares == MAX64
      invariant index > 0 ==> Score(r.sumSquares, r.maxChain) == ScoreOf(Hashing(r.prime, None), names, tableSize)
      invariant r.primeIndex <= index
      invariant forall i: nat {:trigger NoLess(r, names, primes, tableSize, i)} :: i < index ==>
                  NoLess(r, names, primes, tableSize, i)
    {
      var score := ScoreNames(Hashing(primes[index], None), names, tableSize);
      ScoreBounds(Hashing(primes[index], None), names, tableSize);
      Fits64(|names|);
      NextBest(r, names, primes, tableSize, index, score);
      if score.sumSquares < r.sumSquares {
        r := r.(primeIndex := index, prime := primes[index], sumSquares := score.sumSquares,
                maxChain := score.maxChain);
      }
    }
    forall i: nat {:trigger ScoreOf(Hashing(primes[i], None), names, tableSize)} | i < |primes|
      ensures NoLess(r, names, primes, tableSize, i)
    {
    }
  }

  lemma NextBest(r: Choice, names: seq<seq<byte>>, primes: seq<u32>, tableSize: nat, index: nat, score: Score)
    requires tableSize > 0 && index < |primes| && r.tableSize == tableSize && r.primeIndex <= index
    requires score == ScoreOf(Hashing(primes[index], None), names, tableSize)
    requires forall i: nat {:trigger NoLess(r, names, primes, tableSize, i)} :: i < index ==>
               NoLess(r, names, primes, tableSize, i)
    ensures var r' := if score.sumSquares < r.sumSquares
                      then r.(primeIndex := index, prime := primes[index], sumSquares := score.sumSquares,
                              maxChain := score.maxChain)
                      else r;
            forall i: nat {:trigger NoLess(r', names, primes, tableSize, i)} :: i < index + 1 ==>
              NoLess(r', names, primes, tableSize, i)
  {
    var r' := if score.sumSquares < r.sumSquares
              then r.(primeIndex := index, prime := primes[index], sumSquares := score.sumSquares,
                      maxChain := score.maxChain)
              else r;
    forall i: nat | i < index + 1
      ensures NoLess(r', names, primes, tableSize, i)
    {
      if i < index {
        assert NoLess(r, names, primes, tableSize, i);
      }
    }
  }
}
