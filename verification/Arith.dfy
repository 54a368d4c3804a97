/** Facts about products, quotients and remainders that the solver does not find by itself. */
module Arith {

  /** Quotient and remainder are unique. */
  lemma DivModUnique(a: int, m: int, q: int, r: int)
    requires m > 0 && a == q * m + r && 0 <= r < m
    ensures a / m == q && a % m == r
  {
    var d := a / m - q;
    assert d * m == r - a % m by {
      assert a == (a / m) * m + a % m;
    }
    if d >= 1 {
      MulLe(1, d, m);
    } else if d <= -1 {
      MulLe(1, -d, m);
    }
  }

  lemma MulLe(a: int, b: int, m: int)
    requires a <= b && 0 <= m
    ensures a * m <= b * m
  {
    assert (b - a) * m >= 0;
  }

  lemma AddMultiple(x: int, k: int, m: int)
    requires m > 0
    ensures (x + k * m) % m == x % m
    ensures (x + k * m) / m == x / m + k
  {
    assert x + k * m == (x / m + k) * m + x % m;
    DivModUnique(x + k * m, m, x / m + k, x % m);
  }

  /** Factors may be reduced before multiplying. */
  lemma MulMod(a: int, b: int, m: int)
    requires m > 0
    ensures ((a % m) * b) % m == (a * b) % m
    ensures (a * (b % m)) % m == (a * b) % m
    ensures ((a % m) * (b % m)) % m == (a * b) % m
  {
    MulModLeft(a, b, m);
    MulModLeft(b, a, m);
    MulModLeft(a, b % m, m);
    assert a * (b % m) == (b % m) * a && a * b == b * a;
  }

  lemma MulModLeft(a: int, b: int, m: int)
    requires m > 0
    ensures ((a % m) * b) % m == (a * b) % m
  {
    var q := a / m;
    assert a == q * m + a % m;
    assert a * b == (a % m) * b + (q * b) * m by {
      assert (q * m) * b == (q * b) * m;
      assert (q * m + a % m) * b == (q * m) * b + (a % m) * b;
    }
    AddMultiple((a % m) * b, q * b, m);
  }

  lemma SubMod(a: int, b: int, m: int)
    requires m > 0
    ensures (a - b) % m == 0 <==> a % m == b % m
  {
    var q, r := a / m, b / m;
    assert a - b == (a % m - b % m) + (q - r) * m by {
      assert a == q * m + a % m && b == r * m + b % m;
      assert (q - r) * m == q * m - r * m;
    }
    AddMultiple(a % m - b % m, q - r, m);
    var d := a % m - b % m;
    if d % m == 0 {
      assert -m < d < m;
      assert d == (d / m) * m;
      if d / m >= 1 {
        MulLe(1, d / m, m);
      } else if d / m <= -1 {
        MulLe(1, -(d / m), m);
      }
    }
  }

  lemma DividesMultiple(d: int, q: int)
    requires d > 0
    ensures (q * d) % d == 0 && (d * q) % d == 0
  {
    AddMultiple(0, q, d);
    assert d * q == q * d;
  }

  lemma DividesTrans(d: int, e: int, n: int)
    requires d > 0 && e > 0 && e % d == 0 && n % e == 0
    ensures n % d == 0
  {
    var q, r := n / e, e / d;
    assert n == q * e && e == r * d;
    assert n == (q * r) * d;
    DividesMultiple(d, q * r);
  }

  function Pow(b: int, e: nat): int {
    if e == 0 then 1 else b * Pow(b, e - 1)
  }

  lemma {:induction false} PowAdd(b: int, e: nat, f: nat)
    ensures Pow(b, e + f) == Pow(b, e) * Pow(b, f)
  {
    if e > 0 {
      PowAdd(b, e - 1, f);
      assert Pow(b, e + f) == b * Pow(b, e - 1 + f);
      assert b * (Pow(b, e - 1) * Pow(b, f)) == (b * Pow(b, e - 1)) * Pow(b, f);
    }
  }

  lemma {:induction false} PowSquare(b: int, e: nat)
    ensures Pow(b * b, e) == Pow(b, 2 * e)
  {
    if e > 0 {
      PowSquare(b, e - 1);
      assert Pow(b, 2 * e) == b * (b * Pow(b, 2 * (e - 1)));
      assert b * (b * Pow(b, 2 * (e - 1))) == (b * b) * Pow(b, 2 * (e - 1));
    }
  }

  lemma {:induction false} PowMod(b: int, e: nat, m: int)
    requires m > 0
    ensures Pow(b % m, e) % m == Pow(b, e) % m
  {
    if e > 0 {
      PowMod(b, e - 1, m);
      MulMod(b, Pow(b, e - 1), m);
      MulMod(b % m, Pow(b % m, e - 1), m);
      MulMod(b % m, Pow(b, e - 1), m);
    }
  }

  function TwoTo(s: nat): nat {
    if s == 0 then 1 else 2 * TwoTo(s - 1)
  }

  lemma {:induction false} TwoToGrows(s: nat, t: nat)
    requires s <= t
    ensures 1 <= TwoTo(s) <= TwoTo(t)
    decreases t
  {
    if s < t {
      TwoToGrows(s, t - 1);
    } else if s > 0 {
      TwoToGrows(s - 1, t - 1);
    }
  }
}
