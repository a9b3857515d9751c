/** Facts about integer division and remainder that the solver does not find
    on its own once divisors are symbolic. Dafny's `/` and `%` are Euclidean;
    every use below has non-negative dividends or positive divisors, where
    they agree with Rust's unsigned operators. */
module Arith {
  lemma {:induction false} MulAtLeast(d: int, t: int)
    requires d > 0 && t >= 1
    ensures d * t >= d
    decreases t
  {
    if t > 1 {
      MulAtLeast(d, t - 1);
      assert d * t == d * (t - 1) + d;
    }
  }

  lemma MulNonNegative(a: int, b: int)
    requires a >= 0 && b >= 0
    ensures a * b >= 0
  {
  }

  /** Quotient and remainder are the only ones of their kind. */
  lemma DivUnique(a: int, d: int, q: int, r: int)
    requires d > 0 && 0 <= r < d && a == d * q + r
    ensures a / d == q && a % d == r
  {
    var q', r' := a / d, a % d;
    assert a == d * q' + r' && 0 <= r' < d;
    assert d * (q - q') == r' - r;
    if q > q' {
      MulAtLeast(d, q - q');
    } else if q < q' {
      MulAtLeast(d, q' - q);
    }
  }

  /** Adding a multiple of m does not change the remainder. */
  lemma ModShift(c: int, m: int, k: int)
    requires m > 0
    ensures (m * k + c) % m == c % m
  {
    var q, r := c / m, c % m;
    assert c == m * q + r;
    assert m * k + c == m * (k + q) + r;
    DivUnique(m * k + c, m, k + q, r);
  }

  lemma ModAdd(a: int, b: int, m: int)
    requires m > 0
    ensures (a + b) % m == (a % m + b % m) % m
  {
    var qa, qb := a / m, b / m;
    assert a + b == m * (qa + qb) + (a % m + b % m);
    ModShift(a % m + b % m, m, qa + qb);
  }

  lemma ModMulLeft(a: int, b: int, m: int)
    requires m > 0
    ensures (a * b) % m == ((a % m) * b) % m
  {
    var qa, ra := a / m, a % m;
    assert a == m * qa + ra;
    assert a * b == (m * qa + ra) * b;
    assert (m * qa + ra) * b == m * (qa * b) + ra * b;
    ModShift(ra * b, m, qa * b);
  }

  lemma ModMul(a: int, b: int, m: int)
    requires m > 0
    ensures (a * b) % m == ((a % m) * (b % m)) % m
  {
    ModMulLeft(a, b, m);
    ModMulLeft(b, a % m, m);
    assert b * (a % m) == (a % m) * b;
    assert (b % m) * (a % m) == (a % m) * (b % m);
  }

  /** Reducing modulo a multiple of d keeps the remainder modulo d. */
  lemma ModOfMultiple(x: int, m: int, d: int)
    requires m > 0 && d > 0 && m % d == 0
    ensures (x % m) % d == x % d
  {
    var q, r := x / m, x % m;
    var k := m / d;
    assert m == d * k;
    assert x == m * q + r;
    assert x == d * (k * q) + r;
    ModShift(r, d, k * q);
  }

  /** n times p, as repeated addition: a product the solver treats as a
      function of its own, so that contexts holding one need no non-linear
      arithmetic. */
  function Times(n: nat, p: nat): nat {
    if n == 0 then 0 else Times(n - 1, p) + p
  }

  lemma {:induction false} TimesMul(n: nat, p: nat)
    ensures Times(n, p) == n * p
  {
    if n > 0 {
      TimesMul(n - 1, p);
      assert n * p == (n - 1) * p + p;
    }
  }

  lemma {:induction false} TimesAtLeast(n: nat, p: nat)
    requires 1 <= n
    ensures p <= Times(n, p)
  {
    if n > 1 {
      TimesAtLeast(n - 1, p);
    }
  }

  lemma {:induction false} TimesLess(n: nat, k: nat, p: nat)
    requires n < k && 1 <= p
    ensures Times(n, p) < Times(k, p)
    decreases k
  {
    if n < k - 1 {
      TimesLess(n, k - 1, p);
    }
  }

  /** The remainder of `x` by `d`, by repeated subtraction. */
  function Rem(x: nat, d: nat): (r: nat)
    requires d > 0
    ensures r < d && r <= x
    decreases x
  {
    if x < d then x else Rem(x - d, d)
  }

  /** The quotient of `x` by `d`, by repeated subtraction. */
  function Quot(x: nat, d: nat): nat
    requires d > 0
    decreases x
  {
    if x < d then 0 else Quot(x - d, d) + 1
  }

  /** Quotient and remainder split `x`, and they are `/` and `%`. */
  lemma {:induction false} QuotRem(x: nat, d: nat)
    requires d > 0
    ensures x == Times(Quot(x, d), d) + Rem(x, d)
    ensures Quot(x, d) == x / d && Rem(x, d) == x % d
    decreases x
  {
    if x >= d {
      QuotRem(x - d, d);
    }
    TimesMul(Quot(x, d), d);
    DivUnique(x, d, Quot(x, d), Rem(x, d));
  }
}
