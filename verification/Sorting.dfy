/** Sorting by a given order: what `std::sort` and `qsort` promise, and what the code reads off a
    sorted sequence. */
module Sorting {
  import opened Format

  ghost predicate TotalOrder<T(!new)>(le: (T, T) -> bool) {
    && (forall x: T :: le(x, x))
    && (forall x: T, y: T :: le(x, y) || le(y, x))
    && (forall x: T, y: T, z: T :: le(x, y) && le(y, z) ==> le(x, z))
  }

  ghost predicate Sorted<T>(le: (T, T) -> bool, xs: seq<T>) {
    forall i: nat, j: nat :: i < j < |xs| ==> le(xs[i], xs[j])
  }

  function Insert<T>(le: (T, T) -> bool, x: T, xs: seq<T>): (r: seq<T>)
    ensures multiset(r) == multiset(xs) + multiset{x}
    ensures |r| == |xs| + 1
  {
    if xs == [] || le(x, xs[0]) then
      [x] + xs
    else
      var rest := Insert(le, x, xs[1..]);
      assert xs == [xs[0]] + xs[1..];
      [xs[0]] + rest
  }

  function Sort<T>(le: (T, T) -> bool, xs: seq<T>): (r: seq<T>)
    ensures multiset(r) == multiset(xs)
    ensures |r| == |xs|
  {
    if xs == [] then
      []
    else
      assert xs == [xs[0]] + xs[1..];
      Insert(le, xs[0], Sort(le, xs[1..]))
  }

  lemma {:induction false} InsertSorted<T(!new)>(le: (T, T) -> bool, x: T, xs: seq<T>)
    requires TotalOrder(le) && Sorted(le, xs)
    ensures Sorted(le, Insert(le, x, xs))
  {
    if xs != [] && !le(x, xs[0]) {
      var rest := Insert(le, x, xs[1..]);
      InsertSorted(le, x, xs[1..]);
      forall j: nat | j < |rest|
        ensures le(xs[0], rest[j])
      {
        assert rest[j] in multiset(rest);
        assert rest[j] in multiset(xs[1..]) || rest[j] == x;
      }
    }
  }

  lemma {:induction false} SortSorted<T(!new)>(le: (T, T) -> bool, xs: seq<T>)
    requires TotalOrder(le)
    ensures Sorted(le, Sort(le, xs))
  {
    if xs != [] {
      SortSorted(le, xs[1..]);
      InsertSorted(le, xs[0], Sort(le, xs[1..]));
    }
  }

  lemma {:induction false} SortKeeps<T>(le: (T, T) -> bool, xs: seq<T>)
    requires Sorted(le, xs)
    ensures Sort(le, xs) == xs
  {
    if xs != [] {
      SortKeeps(le, xs[1..]);
      if |xs| > 1 {
        assert le(xs[0], xs[1]);
      }
    }
  }

  /** There is only one way to sort when equals are equal. */
  lemma {:induction false} SortedUnique<T(!new)>(le: (T, T) -> bool, xs: seq<T>, ys: seq<T>)
    requires TotalOrder(le) && (forall x: T, y: T :: le(x, y) && le(y, x) ==> x == y)
    requires Sorted(le, xs) && Sorted(le, ys) && multiset(xs) == multiset(ys)
    ensures xs == ys
    decreases |xs|
  {
    assert |multiset(xs)| == |xs| && |multiset(ys)| == |ys|;
    if xs != [] {
      SameElements(xs, ys);
      assert xs[0] in ys && ys[0] in xs;
      assert xs[0] == ys[0];
      DropFirst(xs);
      DropFirst(ys);
      SortedUnique(le, xs[1..], ys[1..]);
    }
  }

  lemma DropFirst<T>(xs: seq<T>)
    requires xs != []
    ensures xs == [xs[0]] + xs[1..] && multiset(xs[1..]) == multiset(xs) - multiset{xs[0]}
  {
    assert xs == [xs[0]] + xs[1..];
  }

  lemma SameElements<T>(xs: seq<T>, ys: seq<T>)
    requires multiset(xs) == multiset(ys)
    ensures forall x :: x in xs <==> x in ys
  {
    forall x
      ensures x in xs <==> x in ys
    {
      assert x in xs <==> x in multiset(xs);
      assert x in ys <==> x in multiset(ys);
    }
  }

  // ---------------------------------------------------------------- byte order

  /** The builder's `byteLess`: lexicographic on unsigned bytes. */
  predicate BytesLess(a: seq<byte>, b: seq<byte>) {
    if b == [] then false
    else if a == [] then true
    else if a[0] != b[0] then a[0] < b[0]
    else BytesLess(a[1..], b[1..])
  }

  predicate BytesLeq(a: seq<byte>, b: seq<byte>) {
    !BytesLess(b, a)
  }

  lemma {:induction false} BytesTotal(a: seq<byte>, b: seq<byte>)
    ensures BytesLeq(a, b) || BytesLeq(b, a)
    ensures BytesLeq(a, b) && BytesLeq(b, a) ==> a == b
    ensures BytesLess(a, b) <==> BytesLeq(a, b) && a != b
  {
    if a != [] && b != [] {
      BytesTotal(a[1..], b[1..]);
      assert a == [a[0]] + a[1..] && b == [b[0]] + b[1..];
    }
  }

  lemma {:induction false} BytesTransitive(a: seq<byte>, b: seq<byte>, c: seq<byte>)
    requires BytesLeq(a, b) && BytesLeq(b, c)
    ensures BytesLeq(a, c)
  {
    if a != [] && b != [] && c != [] && a[0] == b[0] == c[0] {
      BytesTransitive(a[1..], b[1..], c[1..]);
    }
  }

  lemma BytesOrder()
    ensures TotalOrder(BytesLeq)
  {
    forall a: seq<byte>, b: seq<byte>
      ensures BytesLeq(a, a) && (BytesLeq(a, b) || BytesLeq(b, a))
    {
      BytesTotal(a, a);
      BytesTotal(a, b);
    }
    forall a: seq<byte>, b: seq<byte>, c: seq<byte> | BytesLeq(a, b) && BytesLeq(b, c)
      ensures BytesLeq(a, c)
    {
      BytesTransitive(a, b, c);
    }
  }

  /** One is a proper prefix of the other, or has the smaller byte where they first differ. */
  predicate SmallerAt(a: seq<byte>, b: seq<byte>, n: nat) {
    n <= |a| && n < |b| && (forall i: nat :: i < n ==> a[i] == b[i]) && (n == |a| || a[n] < b[n])
  }

  lemma {:induction false} LessMeans(a: seq<byte>, b: seq<byte>)
    ensures BytesLess(a, b) <==> exists n: nat {:trigger SmallerAt(a, b, n)} :: SmallerAt(a, b, n)
  {
    if b != [] && a == [] {
      assert SmallerAt(a, b, 0);
    } else if b != [] && a[0] != b[0] {
      assert a[0] < b[0] ==> SmallerAt(a, b, 0);
    } else if b != [] {
      LessMeans(a[1..], b[1..]);
      if n: nat :| SmallerAt(a, b, n) {
        assert n > 0;
        assert SmallerAt(a[1..], b[1..], n - 1);
      }
      if m: nat :| SmallerAt(a[1..], b[1..], m) {
        assert forall i: nat :: 0 < i < m + 1 ==> a[i] == a[1..][i - 1] && b[i] == b[1..][i - 1];
        assert SmallerAt(a, b, m + 1);
      }
    }
  }
}
