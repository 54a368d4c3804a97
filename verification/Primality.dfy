/** The primality test (include/isPrime.h): modular powers by repeated squaring, the strong-probable-prime
    witness, and the small-prime prefilter.  No prime is ever rejected, whatever bases are tried, and below
    311 squared the prefilter alone decides. */
module Primality {
  import opened Format
  import opened Arith
  import opened Counting

  ghost predicate Divides(d: int, n: int)
    requires d > 0
  {
    n % d == 0
  }

  ghost predicate IsPrime(n: int) {
    n >= 2 && forall d: int :: 2 <= d < n ==> !Divides(d, n)
  }

  // ---------------------------------------------------------------- Euclid and Fermat

  /** A prime that divides a product whose first factor is smaller than it divides the second. */
  lemma {:induction false} EuclidSmall(p: int, a: int, b: int)
    requires IsPrime(p) && 0 < a < p && (a * b) % p == 0
    ensures b % p == 0
    decreases a
  {
    if a == 1 {
    } else {
      var q, r := p / a, p % a;
      assert !Divides(a, p);
      assert r * b == b * p - q * (a * b) by {
        assert r == p - q * a;
        assert (p - q * a) * b == p * b - (q * a) * b;
        assert (q * a) * b == q * (a * b);
      }
      var k := (a * b) / p;
      assert a * b == k * p;
      assert q * (a * b) == (q * k) * p;
      assert r * b == (b - q * k) * p;
      DividesMultiple(p, b - q * k);
      EuclidSmall(p, r, b);
    }
  }

  lemma Euclid(p: int, a: int, b: int)
    requires IsPrime(p) && (a * b) % p == 0
    ensures a % p == 0 || b % p == 0
  {
    if a % p != 0 {
      MulMod(a, b, p);
      EuclidSmall(p, a % p, b);
    }
  }

  function Product(xs: seq<nat>): nat {
    if xs == [] then 1 else Product(xs[..|xs| - 1]) * xs[|xs| - 1]
  }

  lemma {:induction false} ProductRemove(xs: seq<nat>, i: nat)
    requires i < |xs|
    ensures Product(xs) == Product(xs[..i] + xs[i + 1..]) * xs[i]
  {
    var last := |xs| - 1;
    if i == last {
      assert xs[..i] + xs[i + 1..] == xs[..last];
    } else {
      ProductRemove(xs[..last], i);
      var rest := xs[..i] + xs[i + 1..];
      assert rest[..|rest| - 1] == xs[..last][..i] + xs[..last][i + 1..];
      assert rest[|rest| - 1] == xs[last];
      var front := Product(rest[..|rest| - 1]);
      assert (front * xs[i]) * xs[last] == (front * xs[last]) * xs[i];
    }
  }

  lemma {:induction false} ProductPermutation(xs: seq<nat>, ys: seq<nat>)
    requires multiset(xs) == multiset(ys)
    ensures Product(xs) == Product(ys)
    decreases |xs|
  {
    assert |multiset(xs)| == |xs| && |multiset(ys)| == |ys|;
    if xs != [] {
      var front, x := xs[..|xs| - 1], xs[|xs| - 1];
      assert xs == front + [x];
      assert x in multiset(ys);
      var i: nat :| i < |ys| && ys[i] == x;
      var rest := ys[..i] + ys[i + 1..];
      assert ys == ys[..i] + [x] + ys[i + 1..];
      assert multiset(ys) == multiset(rest) + multiset{x};
      assert multiset(xs) == multiset(front) + multiset{x};
      assert multiset(front) == multiset(xs) - multiset{x};
      assert multiset(rest) == multiset(ys) - multiset{x};
      ProductRemove(ys, i);
      ProductPermutation(front, rest);
    }
  }

  /** a*1, a*2, ..., a*n reduced modulo p. */
  ghost function Multiples(a: int, p: int, n: nat): seq<nat>
    requires p > 0
  {
    seq(n, k requires 0 <= k => (a * (k + 1)) % p)
  }

  lemma {:induction false} ProductMultiples(a: int, p: int, n: nat)
    requires p > 1
    ensures Product(Multiples(a, p, n)) % p == (Pow(a, n) * Product(Multiples(1, p, n))) % p
  {
    if n > 0 {
      ProductMultiples(a, p, n - 1);
      var x, y := Multiples(a, p, n), Multiples(1, p, n);
      assert x[..n - 1] == Multiples(a, p, n - 1) && y[..n - 1] == Multiples(1, p, n - 1);
      assert 1 * n == n;
      ProductStep(Product(x[..n - 1]), Pow(a, n - 1), Product(y[..n - 1]), a, n, p);
    }
  }

  lemma ProductStep(px: int, pw: int, py: int, a: int, n: int, p: int)
    requires p > 0 && px % p == (pw * py) % p
    ensures (px * ((a * n) % p)) % p == ((a * pw) * (py * (n % p))) % p
  {
    var an, w := a * n, pw * py;
    MulMod(px, an, p);
    MulMod(w, an, p);
    assert (px * (an % p)) % p == (w * an) % p;
    var apwpy := (a * pw) * py;
    assert (a * pw) * (py * (n % p)) == apwpy * (n % p);
    MulMod(apwpy, n, p);
    assert w * an == apwpy * n;
  }

  lemma NonzeroTimes(p: int, f: int, x: int)
    requires IsPrime(p) && f % p != 0 && 0 < x < p
    ensures (f * x) % p != 0
  {
    if (f * x) % p == 0 {
      Euclid(p, f, x);
    }
  }

  lemma {:induction false} ProductNonzero(p: int, xs: seq<nat>)
    requires IsPrime(p) && forall k: nat :: k < |xs| ==> 0 < xs[k] < p
    ensures Product(xs) % p != 0
  {
    if xs != [] {
      var last := |xs| - 1;
      ProductNonzero(p, xs[..last]);
      NonzeroTimes(p, Product(xs[..last]), xs[last]);
    }
  }

  /** Multiplying by a only permutes the nonzero residues. */
  lemma MultiplesPermute(a: int, p: int)
    requires IsPrime(p) && a % p != 0
    ensures multiset(Multiples(a, p, p - 1)) == multiset(Multiples(1, p, p - 1))
    ensures var u := Multiples(1, p, p - 1); forall k: nat :: k < |u| ==> 0 < u[k] < p
  {
    var t, u := Multiples(a, p, p - 1), Multiples(1, p, p - 1);
    assert 1 % p == 1;
    MultiplesDistinct(a, p);
    MultiplesDistinct(1, p);
    AllResidues(t, p);
    AllResidues(u, p);
    SameElementsSameCounts(t, u);
  }

  lemma MultiplesDiffer(a: int, p: int, i: nat, j: nat)
    requires IsPrime(p) && a % p != 0 && i < j < p - 1
    ensures (a * (i + 1)) % p != (a * (j + 1)) % p
  {
    if (a * (j + 1)) % p == (a * (i + 1)) % p {
      SubMod(a * (j + 1), a * (i + 1), p);
      assert a * (j + 1) - a * (i + 1) == a * (j - i);
      Euclid(p, a, j - i);
    }
  }

  lemma MultipleNonzero(a: int, p: int, k: nat)
    requires IsPrime(p) && a % p != 0 && k < p - 1
    ensures (a * (k + 1)) % p != 0
  {
    if (a * (k + 1)) % p == 0 {
      Euclid(p, a, k + 1);
    }
  }

  lemma MultiplesDistinct(a: int, p: int)
    requires IsPrime(p) && a % p != 0
    ensures var t := Multiples(a, p, p - 1); Distinct(t) && forall k: nat :: k < |t| ==> 0 < t[k] < p
  {
    var t := Multiples(a, p, p - 1);
    forall k: nat | k < |t|
      ensures 0 < t[k] < p
    {
      MultipleNonzero(a, p, k);
    }
    forall i: nat, j: nat | i < j < |t|
      ensures t[i] != t[j]
    {
      MultiplesDiffer(a, p, i, j);
    }
  }

  lemma AllResidues(t: seq<nat>, p: nat)
    requires p >= 2 && |t| == p - 1 && Distinct(t) && forall k: nat :: k < |t| ==> 0 < t[k] < p
    ensures Elements(t) == Below(p) - {0}
  {
    DistinctSize(t);
    BelowSize(p);
    assert |Below(p) - {0}| == p - 1;
    assert Elements(t) <= Below(p) - {0};
    SubsetSize(Elements(t), Below(p) - {0});
  }

  lemma Cancel(p: int, w: int, u: int)
    requires IsPrime(p) && (w * u) % p == u % p && u % p != 0
    ensures w % p == 1
  {
    SubMod(w * u, u, p);
    assert w * u - u == (w - 1) * u;
    Euclid(p, w - 1, u);
    SubMod(w, 1, p);
    assert 1 % p == 1;
  }

  /** Fermat: a prime divides a^(p-1) - 1 for every a it does not divide. */
  lemma Fermat(p: int, a: int)
    requires IsPrime(p) && a % p != 0
    ensures Pow(a, p - 1) % p == 1
  {
    var n: nat := p - 1;
    MultiplesPermute(a, p);
    ProductPermutation(Multiples(a, p, n), Multiples(1, p, n));
    ProductMultiples(a, p, n);
    ProductNonzero(p, Multiples(1, p, n));
    Cancel(p, Pow(a, n), Product(Multiples(1, p, n)));
  }

  lemma Small(a: int, p: int)
    requires p > 0
    ensures 0 <= a < p ==> a % p == a
  {
  }

  /** Modulo a prime only 1 and -1 square to 1. */
  lemma RootsOfOne(p: int, x: int)
    requires IsPrime(p) && 0 <= x < p && (x * x) % p == 1
    ensures x == 1 || x == p - 1
  {
    SquareLessOne(p, x);
    Euclid(p, x - 1, x + 1);
    OneOfTwo(p, x);
  }

  lemma SquareLessOne(p: int, x: int)
    requires p >= 2 && (x * x) % p == 1
    ensures ((x - 1) * (x + 1)) % p == 0
  {
    Small(1, p);
    SubMod(x * x, 1, p);
    assert x * x - 1 == (x - 1) * (x + 1);
  }

  lemma OneOfTwo(p: int, x: int)
    requires p >= 2 && 0 <= x < p && ((x - 1) % p == 0 || (x + 1) % p == 0)
    ensures x == 1 || x == p - 1
  {
    Small(x - 1, p);
    Small(x + 1, p);
    Small(p - 1, p);
    if x == 0 {
      AddMultiple(-1, 1, p);
    }
  }

  // ---------------------------------------------------------------- the strong test

  /** Repeated squaring, every product reduced at once. */
  method PowMod(base: nat, exp: nat, n: nat) returns (result: nat)
    requires n > 1 && base < n
    ensures result < n && result == Pow(base, exp) % n
  {
    result := 1;
    var b: nat, e: nat := base, exp;
    while e != 0
      invariant result < n && b < n
      invariant (result * Pow(b, e)) % n == Pow(base, exp) % n
    {
      SquareStep(result, b, e, n);
      if e % 2 != 0 {
        result := (result * b) % n;
      }
      b := (b * b) % n;
      e := e / 2;
    }
  }

  lemma SquareStep(r: nat, b: nat, e: nat, n: nat)
    requires n > 1 && e > 0
    ensures var r' := if e % 2 != 0 then (r * b) % n else r;
            (r' * Pow((b * b) % n, e / 2)) % n == (r * Pow(b, e)) % n
  {
    var f := e / 2;
    var odd := if e % 2 != 0 then r * b else r;
    Arith.PowMod(b * b, f, n);
    PowSquare(b, f);
    assert odd * Pow(b, 2 * f) == r * Pow(b, e) by {
      if e % 2 != 0 {
        assert Pow(b, e) == b * Pow(b, 2 * f);
        assert (r * b) * Pow(b, 2 * f) == r * (b * Pow(b, 2 * f));
      }
    }
    var q := Pow((b * b) % n, f);
    MulMod(odd, q, n);
    MulMod(odd, Pow(b * b, f), n);
  }

  /** Squaring walks along a^d, a^2d, a^4d, ... */
  lemma SquareAgain(a: nat, n: nat, d: nat, r: nat)
    requires n > 1
    ensures var x := Pow(a, d * TwoTo(r)) % n;
            (x * x) % n == Pow(a, d * TwoTo(r + 1)) % n
  {
    var e: nat := d * TwoTo(r);
    assert d * TwoTo(r + 1) == e + e;
    PowAdd(a, e, e);
    MulMod(Pow(a, e), Pow(a, e), n);
  }

  lemma StaysOffOne(p: nat, x: nat)
    requires IsPrime(p) && x < p && x != 1 && x != p - 1
    ensures (x * x) % p != 1
  {
    if (x * x) % p == 1 {
      RootsOfOne(p, x);
    }
  }

  lemma FermatSmall(n: nat, a: nat)
    requires IsPrime(n) && 0 < a < n
    ensures Pow(a, n - 1) % n == 1
  {
    Fermat(n, a);
  }

  /** n passes the strong test for base a: some power on the walk a^d, a^2d, ... is 1 at once or -1 later. */
  ghost predicate Strong(n: nat, d: nat, s: nat, a: nat)
    requires n > 1
  {
    a % n == 0 || Pow(a % n, d) % n == 1 || exists r: nat :: r < s && MinusOneAt(n, d, a % n, r)
  }

  ghost predicate MinusOneAt(n: nat, d: nat, a: nat, r: nat)
    requires n > 1
  {
    Pow(a, d * TwoTo(r)) % n == n - 1
  }

  /** Going back from a power that is 1, one meets -1 or arrives at a^d = 1. */
  lemma {:induction false} WalkBack(n: nat, d: nat, a: nat, r: nat)
    requires IsPrime(n) && Pow(a, d * TwoTo(r)) % n == 1
    ensures Pow(a, d) % n == 1 || exists q: nat :: q < r && MinusOneAt(n, d, a, q)
  {
    if r == 0 {
      assert d * TwoTo(0) == d;
    } else {
      SquareAgain(a, n, d, r - 1);
      var x := Pow(a, d * TwoTo(r - 1)) % n;
      if x != n - 1 {
        if x != 1 {
          StaysOffOne(n, x);
        }
        WalkBack(n, d, a, r - 1);
      } else {
        assert MinusOneAt(n, d, a, r - 1);
      }
    }
  }

  /** A prime passes the strong test for every base. */
  lemma PrimeIsStrong(n: nat, d: nat, s: nat, a: nat)
    requires IsPrime(n) && d * TwoTo(s) == n - 1
    ensures Strong(n, d, s, a)
  {
    if a % n != 0 {
      FermatSmall(n, a % n);
      WalkBack(n, d, a % n, s);
    }
  }

  /** One strong-probable-prime round: the base is a witness exactly when n fails the test for it. */
  method IsWitness(n: nat, d: nat, s: nat, base: nat) returns (composite: bool)
    requires n > 2 && s >= 1
    ensures composite <==> !Strong(n, d, s, base)
  {
    var a := base % n;
    if a == 0 {
      return false;
    }
    var x := PowMod(a, d, n);
    assert d * TwoTo(0) == d;
    if x == 1 || x == n - 1 {
      assert x == n - 1 ==> MinusOneAt(n, d, a, 0);
      return false;
    }
    for r := 1 to s
      invariant x == Pow(a, d * TwoTo(r - 1)) % n
      invariant forall q: nat :: q < r ==> !MinusOneAt(n, d, a, q)
    {
      SquareAgain(a, n, d, r - 1);
      x := (x * x) % n;
      if x == n - 1 {
        assert MinusOneAt(n, d, a, r);
        return false;
      }
    }
    composite := true;
  }

  /** The odd part of n - 1, and the power of two beside it. */
  method OddPart(n: nat) returns (d: nat, s: nat)
    requires n > 2 && n % 2 == 1
    ensures s >= 1 && d * TwoTo(s) == n - 1 && d % 2 == 1
  {
    d, s := n - 1, 0;
    while d % 2 == 0
      invariant 0 < d && d * TwoTo(s) == n - 1
      invariant s == 0 ==> d == n - 1
      decreases d
    {
      ghost var was := d;
      d, s := d / 2, s + 1;
      assert was == d * 2;
      assert d * TwoTo(s) == (d * 2) * TwoTo(s - 1);
    }
  }

  /** The second stage: reject on the first base that is a witness. */
  method StrongTest(n: nat, bases: seq<nat>) returns (prime: bool, ghost d: nat, ghost s: nat)
    requires n > 2 && n % 2 == 1
    ensures s >= 1 && d * TwoTo(s) == n - 1 && d % 2 == 1
    ensures prime <==> forall i: nat :: i < |bases| ==> Strong(n, d, s, bases[i])
    ensures IsPrime(n) ==> prime
  {
    var odd, twos := OddPart(n);
    d, s := odd, twos;
    for i := 0 to |bases|
      invariant forall j: nat :: j < i ==> Strong(n, d, s, bases[j])
    {
      var w := IsWitness(n, odd, twos, bases[i]);
      if w {
        if IsPrime(n) {
          PrimeIsStrong(n, d, s, bases[i]);
        }
        return false, d, s;
      }
    }
    prime := true;
  }

  // ---------------------------------------------------------------- the prefilter

  const ROW0: seq<nat> := [3, 5, 7, 11, 13, 17, 19]
  const ROW1: seq<nat> := [23, 29, 31, 37, 41, 43, 47, 53]
  const ROW2: seq<nat> := [59, 61, 67, 71, 73, 79, 83, 89]
  const ROW3: seq<nat> := [97, 101, 103, 107, 109, 113]
  const ROW4: seq<nat> := [127, 131, 137, 139, 149, 151]
  const ROW5: seq<nat> := [157, 163, 167, 173, 179, 181]
  const ROW6: seq<nat> := [191, 193, 197, 199, 211, 223]
  const ROW7: seq<nat> := [227, 229, 233, 239, 241, 251]
  const ROW8: seq<nat> := [257, 263, 269, 271, 277, 281]
  const ROW9: seq<nat> := [283, 293, 307, 311]

  /** The odd primes up to 311. */
  const SMALL_PRIMES: seq<nat> := ROW0 + ROW1 + ROW2 + ROW3 + ROW4 + ROW5 + ROW6 + ROW7 + ROW8 + ROW9
  const LAST: nat := 311

  /** Not divisible by a prime up to 17, unless it is that prime. */
  predicate Trial(n: nat) {
    && (n % 2 != 0 || n == 2) && (n % 3 != 0 || n == 3) && (n % 5 != 0 || n == 5) && (n % 7 != 0 || n == 7)
    && (n % 11 != 0 || n == 11) && (n % 13 != 0 || n == 13) && (n % 17 != 0 || n == 17)
  }

  lemma Row0(n: nat)
    ensures n in ROW0 <==> 3 <= n < 23 && n % 2 == 1 && Trial(n)
  {
  }

  lemma Row1(n: nat)
    ensures n in ROW1 <==> 23 <= n < 59 && n % 2 == 1 && Trial(n)
  {
  }

  lemma Row2(n: nat)
    ensures n in ROW2 <==> 59 <= n < 97 && n % 2 == 1 && Trial(n)
  {
  }

  lemma Row3(n: nat)
    ensures n in ROW3 <==> 97 <= n < 127 && n % 2 == 1 && Trial(n)
  {
  }

  lemma Row4(n: nat)
    ensures n in ROW4 <==> 127 <= n < 157 && n % 2 == 1 && Trial(n)
  {
  }

  lemma Row5(n: nat)
    ensures n in ROW5 <==> 157 <= n < 191 && n % 2 == 1 && Trial(n)
  {
  }

  lemma Row6(n: nat)
    ensures n in ROW6 <==> 191 <= n < 227 && n % 2 == 1 && Trial(n)
  {
  }

  lemma Row7(n: nat)
    ensures n in ROW7 <==> 227 <= n < 257 && n % 2 == 1 && Trial(n)
  {
  }

  lemma Row8(n: nat)
    ensures n in ROW8 <==> 257 <= n < 283 && n % 2 == 1 && Trial(n)
  {
  }

  lemma Row9(n: nat)
    ensures n in ROW9 <==> 283 <= n < 312 && n % 2 == 1 && Trial(n)
  {
  }

  lemma TableIsTrial(n: nat)
    ensures n in SMALL_PRIMES <==> 3 <= n <= LAST && n % 2 == 1 && Trial(n)
  {
    Row0(n);
    Row1(n);
    Row2(n);
    Row3(n);
    Row4(n);
    Row5(n);
    Row6(n);
    Row7(n);
    Row8(n);
    Row9(n);
  }

  /** The least divisor above 1 is prime, and no larger than the square root of a composite. */
  lemma LeastFactor(n: nat) returns (m: nat)
    requires n >= 2
    ensures 2 <= m <= n && n % m == 0 && IsPrime(m)
    ensures m < n ==> m * m <= n
  {
    m := 2;
    while n % m != 0
      invariant 2 <= m <= n
      invariant forall d: nat :: 2 <= d < m ==> n % d != 0
      decreases n - m
    {
      m := m + 1;
    }
    forall d: int | 2 <= d < m
      ensures !Divides(d, m)
    {
      if Divides(d, m) {
        DividesTrans(d, m, n);
      }
    }
    if m < n {
      CofactorNoLess(n, m);
    }
  }

  /** The least divisor of a composite is no larger than what it divides it into. */
  lemma CofactorNoLess(n: nat, m: nat)
    requires 2 <= m < n && n % m == 0 && forall d: nat :: 2 <= d < m ==> n % d != 0
    ensures m * m <= n
  {
    var q := n / m;
    assert n == q * m;
    if q <= 1 {
      MulLe(q, 1, m);
    }
    assert q >= 2;
    DividesMultiple(q, m);
    assert n % q == 0;
    assert q >= m;
    MulLe(m, q, m);
  }

  lemma TrialIsPrime(n: nat)
    requires 2 <= n < 324 && Trial(n)
    ensures IsPrime(n)
  {
    var m := LeastFactor(n);
    if m < n {
      assert m <= 17 by {
        if m >= 18 {
          MulLe(18, m, m);
          MulLe(18, m, 18);
        }
      }
      SmallFactor(n, m);
    }
  }

  lemma SmallFactor(n: nat, m: nat)
    requires 2 <= m <= 17 && n % m == 0 && m * m <= n && m < n
    ensures !Trial(n)
  {
    if m == 4 || m == 6 || m == 8 || m == 10 || m == 12 || m == 14 || m == 16 {
      DividesTrans(2, m, n);
    } else if m == 9 || m == 15 {
      DividesTrans(3, m, n);
    }
  }

  lemma NoFactor(n: nat, f: nat)
    requires IsPrime(n) && 2 <= f
    ensures n % f != 0 || n == f
  {
    if f < n {
      assert !Divides(f, n);
    }
  }

  lemma PrimeIsTrial(n: nat)
    requires IsPrime(n)
    ensures Trial(n)
  {
    NoFactor(n, 2);
    NoFactor(n, 3);
    NoFactor(n, 5);
    NoFactor(n, 7);
    NoFactor(n, 11);
    NoFactor(n, 13);
    NoFactor(n, 17);
  }

  /** The table is exact: an odd number up to 311 is listed if and only if it is prime. */
  lemma TableIsPrimes(n: nat)
    requires 3 <= n <= LAST && n % 2 == 1
    ensures n in SMALL_PRIMES <==> IsPrime(n)
  {
    TableIsTrial(n);
    if Trial(n) {
      TrialIsPrime(n);
    } else if IsPrime(n) {
      PrimeIsTrial(n);
    }
  }

  /** Trial division by the table decides everything below 311 squared. */
  lemma NoSmallFactor(n: nat)
    requires LAST < n < LAST * LAST && n % 2 == 1 && forall p: nat :: p in SMALL_PRIMES ==> n % p != 0
    ensures IsPrime(n)
  {
    var m := LeastFactor(n);
    if m < n {
      if m > LAST {
        MulLe(LAST, m, m);
        MulLe(LAST, m, LAST);
      }
      if m % 2 == 0 {
        DividesTrans(2, m, n);
      }
      TableIsPrimes(m);
    }
  }

  method TrialDivide(n: nat, table: seq<nat>) returns (hit: bool)
    requires forall p: nat :: p in table ==> 2 <= p < n
    ensures hit ==> !IsPrime(n)
    ensures !hit ==> forall p: nat :: p in table ==> n % p != 0
  {
    for i := 0 to |table|
      invariant forall j: nat :: j < i ==> table[j] >= 2 && n % table[j] != 0
    {
      assert table[i] in table;
      if n % table[i] == 0 {
        assert Divides(table[i], n);
        return true;
      }
    }
    hit := false;
  }

  datatype Verdict = Composite | Prime | Undecided

  /** Never wrong, and undecided only from 311 squared on. */
  method Prefilter(n: nat) returns (v: Verdict)
    ensures v.Prime? ==> IsPrime(n)
    ensures v.Composite? ==> !IsPrime(n)
    ensures v.Undecided? ==> n >= LAST * LAST && n % 2 == 1
  {
    if n < 2 {
      return Composite;
    }
    if n % 2 == 0 {
      if n == 2 {
        return Prime;
      }
      assert Divides(2, n);
      return Composite;
    }
    if n <= LAST {
      TableIsPrimes(n);
      return if n in SMALL_PRIMES then Prime else Composite;
    }
    forall p: nat | p in SMALL_PRIMES
      ensures 3 <= p <= LAST
    {
      TableIsTrial(p);
    }
    var hit := TrialDivide(n, SMALL_PRIMES);
    if hit {
      return Composite;
    }
    if LAST > n / LAST {
      assert n < LAST * LAST;
      NoSmallFactor(n);
      return Prime;
    }
    v := Undecided;
  }

  /** The whole test.  The bases stand for the table entry the 32-bit form picks, or the seven of the 64-bit form. */
  method Test(n: nat, bases: seq<nat>) returns (prime: bool)
    ensures IsPrime(n) ==> prime
    ensures n < LAST * LAST ==> (prime <==> IsPrime(n))
  {
    var v := Prefilter(n);
    match v
    case Prime => prime := true;
    case Composite => prime := false;
    case Undecided =>
      ghost var d, s;
      prime, d, s := StrongTest(n, bases);
  }

  // ---------------------------------------------------------------- the next prime

  /** The greatest prime below 311 squared. */
  const TOP: nat := 96703

  lemma TopIsPrime()
    ensures IsPrime(TOP)
  {
    forall p: nat | p in SMALL_PRIMES
      ensures TOP % p != 0
    {
      TopRowsLow(p);
      TopRowsHigh(p);
    }
    NoSmallFactor(TOP);
  }

  lemma TopRowsLow(p: nat)
    ensures p in ROW0 || p in ROW1 || p in ROW2 || p in ROW3 ==> TOP % p != 0
  {
  }

  lemma TopRowsHigh(p: nat)
    ensures p in ROW4 || p in ROW5 || p in ROW6 || p in ROW7 || p in ROW8 || p in ROW9 ==> TOP % p != 0
  {
  }

  /** No prime lies strictly between. */
  ghost predicate NoPrimeBetween(low: nat, high: nat) {
    forall m: nat :: low < m < high ==> !IsPrime(m)
  }

  lemma TwoAndThree()
    ensures IsPrime(2) && IsPrime(3)
  {
  }

  /** The search of `NextPrimeStrict`, which may have wrapped past 32 bits once. */
  ghost predicate Searching(value: nat, candidate: nat, wrapped: bool) {
    && 2 <= value && candidate < U32
    && (if wrapped then candidate <= 3 && NoPrimeBetween(value, U32)
        else value < candidate && candidate % 2 == 1 && NoPrimeBetween(value, candidate))
  }

  lemma SearchNext(value: nat, candidate: nat, wrapped: bool)
    requires Searching(value, candidate, wrapped) && !IsPrime(candidate)
    ensures var next := (candidate + 2) % U32;
            Searching(value, next, wrapped || next < candidate) && (wrapped ==> candidate <= 1 && next == candidate + 2)
  {
    TwoAndThree();
    if !wrapped {
      assert Divides(2, candidate + 1) && candidate >= 3;
      assert NoPrimeBetween(value, candidate + 2);
    }
  }

  /** The next prime, for any 32-bit value: no prime is skipped; below the limit of the exact test the result
      is the least prime above the value; past the last 32-bit prime the search wraps around to 2 or 3. */
  method NextPrimeStrict(value: nat, bases: seq<nat>) returns (candidate: nat)
    requires value < U32
    ensures candidate < U32
    ensures candidate > value ==> NoPrimeBetween(value, candidate)
    ensures candidate <= value ==> candidate in {2, 3} && NoPrimeBetween(value, U32)
    ensures value < TOP ==> value < candidate <= TOP && IsPrime(candidate)
  {
    TopIsPrime();
    TwoAndThree();
    if value < 2 {
      return 2;
    }
    candidate := (value + 1) % U32;
    ghost var wrapped := candidate == 0;
    if candidate > 2 && candidate % 2 == 0 {
      assert Divides(2, candidate);
      candidate := candidate + 1;
    }
    var prime := Test(candidate, bases);
    while !prime
      invariant Searching(value, candidate, wrapped)
      invariant IsPrime(candidate) ==> prime
      invariant candidate < LAST * LAST ==> (prime <==> IsPrime(candidate))
      decreases if wrapped then 4 - candidate else U32 + 4 - candidate
    {
      SearchNext(value, candidate, wrapped);
      ghost var was := candidate;
      candidate := (candidate + 2) % U32;
      wrapped := wrapped || candidate < was;
      prime := Test(candidate, bases);
    }
  }
}
