/**
 * Divisibility and congruences, the number theory the field code relies
 * on: sums and multiples of multiples, halving modulo an odd number, and
 * coprimality as the binary inversion of package ff keeps it.
 */
module ModArith {
  import opened Base

  /** `d` is a positive divisor of `a`. */
  predicate Divides(d: int, a: int)
  {
    d > 0 && a % d == 0
  }

  /** `a` and `b` have no common divisor but 1. */
  ghost predicate Coprime(a: nat, b: nat)
  {
    forall d :: Divides(d, a) && Divides(d, b) ==> d == 1
  }

  lemma MultipleMod(k: int, m: int)
    requires m > 0
    ensures (k * m) % m == 0
  {
    DivUnique(k * m, m, k, 0);
  }

  /** A value already in `[0, m)` is its own remainder. */
  lemma SmallMod(d: int, m: int)
    requires 0 <= d < m
    ensures d % m == d
  {
    DivUnique(d, m, 0, d);
  }

  /** Reducing twice is reducing once. */
  lemma ModMod(a: int, m: int)
    requires m > 0
    ensures (a % m) % m == a % m
  {
    SmallMod(a % m, m);
  }

  /** A multiple of `m` is `m` times its quotient. */
  lemma ModZero(a: int, m: int)
    requires m > 0 && a % m == 0
    ensures a == (a / m) * m
  {
  }

  lemma SumMod(a: int, b: int, m: int)
    requires m > 0 && a % m == 0 && b % m == 0
    ensures (a + b) % m == 0 && (a - b) % m == 0
  {
    ModZero(a, m);
    ModZero(b, m);
    DivUnique(a + b, m, a / m + b / m, 0);
    DivUnique(a - b, m, a / m - b / m, 0);
  }

  /** Congruent values leave the same remainder. */
  lemma CongruentMod(a: int, b: int, m: int)
    requires m > 0 && (a - b) % m == 0
    ensures a % m == b % m
  {
    ModZero(a - b, m);
    DivUnique(a, m, b / m + (a - b) / m, b % m);
  }

  /** The same, with the difference named. */
  lemma DifferenceCongruent(a: int, b: int, d: int, m: int)
    requires m > 0 && d == a - b && d % m == 0
    ensures a % m == b % m
  {
    CongruentMod(a, b, m);
  }

  /** Values `k` multiples of `m` apart leave the same remainder. */
  lemma CongruentBy(a: int, b: int, k: int, m: int)
    requires m > 0 && a - b == k * m
    ensures a % m == b % m
  {
    MultipleMod(k, m);
    CongruentMod(a, b, m);
  }

  /** Modulo an odd number, a doubled multiple was a multiple already. */
  lemma HalfMod(k: int, m: int)
    requires m > 0 && m % 2 == 1 && (2 * k) % m == 0
    ensures k % m == 0
  {
    var j := (2 * k) / m;
    ModZero(2 * k, m);
    var h := (m + 1) / 2;
    assert 2 * h == m + 1;
    assert k * (2 * h) == k * m + k;
    assert k == (2 * k) * h - k * m;
    assert (2 * k) * h == (j * h) * m;
    DivUnique(k, m, j * h - k, 0);
  }

  /** Two odd numbers add up to an even one. */
  lemma OddSum(a: int, b: int)
    requires a % 2 == 1 && b % 2 == 1
    ensures (a + b) % 2 == 0
  {
    DivUnique(a + b, 2, a / 2 + b / 2 + 1, 0);
  }

  lemma DividesMultiple(d: int, a: int, k: int)
    requires Divides(d, a)
    ensures Divides(d, a * k)
  {
    ModZero(a, d);
    assert a * k == (a / d * k) * d;
    DivUnique(a * k, d, a / d * k, 0);
  }

  lemma CoprimeSymmetric(a: nat, b: nat)
    requires Coprime(a, b)
    ensures Coprime(b, a)
  {
  }

  /** Halving the even one of two coprime numbers keeps them coprime. */
  lemma CoprimeHalf(a: nat, b: nat)
    requires Coprime(a, b) && b % 2 == 0
    ensures Coprime(a, b / 2)
  {
    forall d | Divides(d, a) && Divides(d, b / 2)
      ensures d == 1
    {
      DividesMultiple(d, b / 2, 2);
    }
  }

  /** Subtracting the smaller of two coprime numbers keeps them coprime. */
  lemma CoprimeSub(a: nat, b: nat)
    requires Coprime(a, b) && a <= b
    ensures Coprime(a, b - a)
  {
    forall d | Divides(d, a) && Divides(d, b - a)
      ensures d == 1
    {
      SumMod(b - a, a, d);
    }
  }

  /** A number coprime to itself, or to 0, is 1. */
  lemma CoprimeOne(a: nat, b: nat)
    requires Coprime(a, b) && (a == b || b == 0)
    ensures a == 1
  {
    var d := if a == 0 then 2 else a;
    DivUnique(0, d, 0, 0);
    DivUnique(a, d, if a == 0 then 0 else 1, 0);
    assert Divides(d, a) && Divides(d, b);
  }

  /** `x * s ≡ v * rr (mod m)`: the congruence a binary inverse keeps between its variables. */
  ghost predicate Tracked(x: int, s: int, v: int, m: int, rr: int)
  {
    m != 0 && (x * s - v * rr) % m == 0
  }

  /**
   * Halving both sides of `x*s ≡ v*rr (mod m)` for odd `m`: `v` is halved,
   * and `s` after adding `c*m`.
   */
  lemma HalveCongruence(x: int, s: int, v: int, s2: int, v2: int, c: int, m: int, rr: int)
    requires m > 0 && m % 2 == 1 && Tracked(x, s, v, m, rr)
    requires 2 * v2 == v && 2 * s2 == s + c * m
    ensures Tracked(x, s2, v2, m, rr)
  {
    var k := x * s2 - v2 * rr;
    assert x * (2 * s2) == x * s + (x * c) * m;
    assert (2 * v2) * rr == v * rr;
    assert 2 * k == (x * s - v * rr) + (x * c) * m;
    MultipleMod(x * c, m);
    SumMod(x * s - v * rr, (x * c) * m, m);
    HalfMod(k, m);
  }

  /** Subtracting `x*r ≡ u*rr` from `x*s ≡ v*rr (mod m)`, with `c*m` added to `s - r`. */
  lemma SubCongruence(x: int, s: int, v: int, r: int, u: int, c: int, m: int, rr: int, s2: int, v2: int)
    requires m > 0 && Tracked(x, s, v, m, rr) && Tracked(x, r, u, m, rr)
    requires s2 == s - r + c * m && v2 == v - u
    ensures Tracked(x, s2, v2, m, rr)
  {
    var a, b := x * s - v * rr, x * r - u * rr;
    assert x * s2 == x * s - x * r + x * (c * m);
    assert x * (c * m) == (x * c) * m;
    assert v2 * rr == v * rr - u * rr;
    assert x * s2 - v2 * rr == a - b + (x * c) * m;
    SumMod(a, b, m);
    MultipleMod(x * c, m);
    SumMod(a - b, (x * c) * m, m);
  }

  /**
   * The Montgomery factor: with `k*q0 ≡ -1 (mod w)`, the word
   * `m = c*k mod w` makes `m*q0 + c` a multiple of `w`.
   */
  lemma MontFactor(c: int, k: int, q0: int, w: int)
    requires w > 0 && (k * q0 + 1) % w == 0
    ensures ((c * k) % w * q0 + c) % w == 0
  {
    var j := (c * k) / w;
    var n := (k * q0 + 1) / w;
    var a := (c * k) % w;
    assert c * k == j * w + a;
    assert k * q0 + 1 == n * w;
    MontFactorAlgebra(c, k, q0, w, j, n, a);
    MultipleMod(c * n - j * q0, w);
  }

  /** The ring identity behind `MontFactor`. */
  lemma MontFactorAlgebra(c: int, k: int, q0: int, w: int, j: int, n: int, a: int)
    requires c * k == j * w + a && k * q0 + 1 == n * w
    ensures a * q0 + c == (c * n - j * q0) * w
  {
    calc {
      a * q0 + c;
      == (c * k - j * w) * q0 + c;
      == c * (k * q0 + 1) - (j * q0) * w;
      == c * (n * w) - (j * q0) * w;
      == (c * n - j * q0) * w;
    }
  }

  /**
   * Four Montgomery rounds `t' * w = t + x_i*y + m_i*q`, started from zero,
   * multiply out to `t4 * w^4 = x*y + m*q` for the words `x_i` and `m_i`
   * read as base-`w` numbers.
   */
  lemma FourRounds(w: int, r: int, y: int, q: int, x: int, x0: int, x1: int, x2: int, x3: int,
                   mm: int, m0: int, m1: int, m2: int, m3: int, t1: int, t2: int, t3: int, t4: int)
    requires r == w * w * w * w
    requires x == x0 + w * x1 + w * w * x2 + w * w * w * x3
    requires mm == m0 + w * m1 + w * w * m2 + w * w * w * m3
    requires t1 * w == x0 * y + m0 * q
    requires t2 * w == t1 + x1 * y + m1 * q
    requires t3 * w == t2 + x2 * y + m2 * q
    requires t4 * w == t3 + x3 * y + m3 * q
    ensures t4 * r - x * y == mm * q
  {
    var w2, w3 := w * w, w * w * w;
    RoundScaled(w, 1, t1, t2, x1, m1, y, q);
    RoundScaled(w, w2, t2, t3, x2, m2, y, q);
    RoundScaled(w, w3, t3, t4, x3, m3, y, q);
    assert r == w3 * w;
  }

  /** One round `t' * w = t + x_i*y + m_i*q`, scaled by `s`. */
  lemma RoundScaled(w: int, s: int, t: int, t': int, xi: int, mi: int, y: int, q: int)
    requires t' * w == t + xi * y + mi * q
    ensures t' * (s * w) == t * s + (s * xi) * y + (s * mi) * q
  {
    assert t' * (s * w) == (t + xi * y + mi * q) * s;
  }

  /** Four reduction rounds `t' * w = t + m_i*q` multiply out to `t4 * w^4 = t0 + m*q`. */
  lemma FourReductions(w: int, r: int, q: int, t0: int, mm: int, m0: int, m1: int, m2: int, m3: int,
                       t1: int, t2: int, t3: int, t4: int)
    requires r == w * w * w * w
    requires mm == m0 + w * m1 + w * w * m2 + w * w * w * m3
    requires t1 * w == t0 + m0 * q
    requires t2 * w == t1 + m1 * q
    requires t3 * w == t2 + m2 * q
    requires t4 * w == t3 + m3 * q
    ensures t4 * r - t0 == mm * q
  {
    assert t2 * (w * w) == t1 * w + (m1 * q) * w;
    assert t3 * (w * w * w) == t2 * (w * w) + (m2 * q) * (w * w);
    assert t4 * (w * w * w * w) == t3 * (w * w * w) + (m3 * q) * (w * w * w);
  }
}
