/**
 * The algebra behind Shamir's scheme over the integers modulo a prime `p`:
 * inverses by the extended Euclidean algorithm, polynomials as coefficient
 * lists, the factor theorem, root counting, and Lagrange interpolation at a
 * point.  Values are exact integers; congruences are taken modulo `p` only
 * where the statement needs them.
 */
module Lagrange {
  import opened ModArith

  /** `p` is prime: no divisor strictly between 1 and `p`. */
  ghost predicate Prime(p: int)
  {
    p > 1 && forall d :: 1 < d < p ==> !Divides(d, p)
  }

  // ---------------------------------------------------------------------
  // Arithmetic modulo p

  lemma MulModLeft(a: int, b: int, p: int)
    requires p > 0
    ensures (a * b) % p == ((a % p) * b) % p
  {
    var k := a / p;
    assert a == k * p + a % p;
    assert a * b - (a % p) * b == (k * b) * p by {
      assert a * b == (k * p + a % p) * b == (k * p) * b + (a % p) * b;
    }
    CongruentBy(a * b, (a % p) * b, k * b, p);
  }

  lemma MulMod(a: int, b: int, p: int)
    requires p > 0
    ensures (a * b) % p == ((a % p) * (b % p)) % p
  {
    MulModLeft(a, b, p);
    MulModLeft(b, a % p, p);
    assert (a % p) * b == b * (a % p);
    assert (b % p) * (a % p) == (a % p) * (b % p);
  }

  lemma AddMod(a: int, b: int, p: int)
    requires p > 0
    ensures (a + b) % p == ((a % p) + (b % p)) % p
  {
    var k := a / p + b / p;
    assert a == (a / p) * p + a % p && b == (b / p) * p + b % p;
    assert (a + b) - ((a % p) + (b % p)) == k * p;
    CongruentBy(a + b, (a % p) + (b % p), k, p);
  }

  /** A multiple of `p` times anything is a multiple of `p`. */
  lemma MulMultiple(a: int, b: int, p: int)
    requires p > 0 && a % p == 0
    ensures (a * b) % p == 0 && (b * a) % p == 0
  {
    var k := a / p;
    assert a == k * p;
    assert a * b == (k * b) * p;
    MultipleMod(k * b, p);
  }

  // ---------------------------------------------------------------------
  // Inverses

  /** The extended Euclidean algorithm: `(g, s, t)` with `a*s + b*t == g`. */
  function Egcd(a: nat, b: nat): (nat, int, int)
    decreases b
  {
    if b == 0 then (a, 1, 0)
    else
      var r := Egcd(b, a % b);
      (r.0, r.2, r.1 - (a / b) * r.2)
  }

  lemma {:induction false} EgcdBezout(a: nat, b: nat)
    ensures a * Egcd(a, b).1 + b * Egcd(a, b).2 == Egcd(a, b).0
    decreases b
  {
    if b != 0 {
      var r := Egcd(b, a % b);
      EgcdBezout(b, a % b);
      BezoutStep(a, b, a / b, a % b, r.0, r.1, r.2);
    }
  }

  lemma {:induction false} EgcdDivides(a: nat, b: nat)
    requires a > 0 || b > 0
    ensures Divides(Egcd(a, b).0, a) && Divides(Egcd(a, b).0, b)
    decreases b
  {
    if b != 0 {
      var g, m := Egcd(a, b).0, a % b;
      EgcdDivides(b, m);
      ModZero(b, g);
      ModZero(m, g);
      DivisorStep(a, b, a / b, m, g, b / g, m / g);
      MultipleMod((a / b) * (b / g) + m / g, g);
    }
  }

  lemma BezoutStep(a: int, b: int, q: int, m: int, g: int, s: int, t: int)
    requires a == q * b + m && b * s + m * t == g
    ensures a * t + b * (s - q * t) == g
  {
  }

  lemma DivisorStep(a: int, b: int, q: int, m: int, g: int, kb: int, km: int)
    requires a == q * b + m && b == kb * g && m == km * g
    ensures a == (q * kb + km) * g
  {
  }

  /** A positive divisor of a positive number is at most that number. */
  lemma DivisorBound(d: int, a: int)
    requires Divides(d, a) && a > 0
    ensures d <= a
  {
    var k := a / d;
    assert a == k * d;
    assert k >= 1;
    assert k * d == d + (k - 1) * d;
  }

  /**
   * The multiplicative inverse modulo `p` by the extended Euclidean
   * algorithm; `0` for a multiple of `p`.
   */
  function Inv(a: int, p: int): (r: int)
    requires p > 1
    ensures 0 <= r < p
  {
    Egcd(a % p, p).1 % p
  }

  lemma InvZero(a: int, p: int)
    requires p > 1 && a % p == 0
    ensures Inv(a, p) == 0
  {
    assert Egcd(p, 0) == (p, 1, 0);
    assert Egcd(0, p).1 == 0;
  }

  /** Every residue other than 0 has an inverse modulo a prime. */
  lemma InvCorrect(a: int, p: int)
    requires Prime(p) && a % p != 0
    ensures (a * Inv(a, p)) % p == 1
  {
    var a0 := a % p;
    var r := Egcd(a0, p);
    CoprimeToPrime(a0, p);
    InverseOfBezout(a, a0, r.1, r.2, p);
  }

  /** The extended Euclidean algorithm finds 1 for a nonzero residue of a prime. */
  lemma CoprimeToPrime(a0: int, p: int)
    requires Prime(p) && 0 < a0 < p
    ensures a0 * Egcd(a0, p).1 + p * Egcd(a0, p).2 == 1
  {
    var r := Egcd(a0, p);
    EgcdBezout(a0, p);
    EgcdDivides(a0, p);
    DivisorBound(r.0, a0);
  }

  /** Bezout coefficients give the inverse. */
  lemma InverseOfBezout(a: int, a0: int, s: int, t: int, p: int)
    requires p > 1 && a % p == a0 && a0 * s + p * t == 1
    ensures (a * (s % p)) % p == 1
  {
    var sp, qa, qs := s % p, a / p, s / p;
    QuotRem(a, p);
    QuotRem(s, p);
    BezoutInverse(a, a0, s, sp, t, qa, qs, p);
    CongruentBy(a * sp, 1, qa * sp - a0 * qs - t, p);
    SmallMod(1, p);
  }

  lemma QuotRem(a: int, p: int)
    requires p > 0
    ensures a == a % p + p * (a / p)
  {
  }

  lemma BezoutInverse(a: int, a0: int, s: int, sp: int, t: int, qa: int, qs: int, p: int)
    requires a == a0 + p * qa && s == sp + p * qs && a0 * s + p * t == 1
    ensures a * sp - 1 == (qa * sp - a0 * qs - t) * p
  {
    calc {
      a * sp - 1;
      (a0 + p * qa) * sp - 1;
      a0 * sp + p * qa * sp - 1;
      a0 * (s - p * qs) + p * qa * sp - 1;
      a0 * s - p * a0 * qs + p * qa * sp - 1;
      (1 - p * t) - p * a0 * qs + p * qa * sp - 1;
      (qa * sp - a0 * qs - t) * p;
    }
  }

  lemma Commute(a: int, b: int)
    ensures a * b == b * a
  {
  }

  /** Euclid's lemma: a prime dividing a product divides a factor. */
  lemma Euclid(a: int, b: int, p: int)
    requires Prime(p) && (a * b) % p == 0 && a % p != 0
    ensures b % p == 0
  {
    var i := Inv(a, p);
    var ai, ab := a * i, a * b;
    InvCorrect(a, p);
    assert ai % p == 1;
    assert (ai * b) % p == b % p by {
      MulModLeft(ai, b, p);
      assert (ai % p) * b == b;
    }
    assert ai * b == ab * i;
    MulMultiple(ab, i, p);
  }

  // ---------------------------------------------------------------------
  // Polynomials: c[0] + c[1]*x + c[2]*x^2 + ...

  function Eval(c: seq<int>, x: int): int
  {
    if |c| == 0 then 0 else c[0] + x * Eval(c[1..], x)
  }

  function Pow(x: int, e: nat): int
  {
    if e == 0 then 1 else x * Pow(x, e - 1)
  }

  /** The highest coefficient contributes its power of `x` on top of the rest. */
  lemma {:induction false} EvalSnoc(c: seq<int>, a: int, x: int)
    ensures Eval(c + [a], x) == Eval(c, x) + a * Pow(x, |c|)
  {
    if |c| == 0 {
      assert Eval([a], x) == a + x * Eval([], x);
    } else {
      assert (c + [a])[1..] == c[1..] + [a];
      EvalSnoc(c[1..], a, x);
      assert Pow(x, |c|) == x * Pow(x, |c| - 1);
      assert x * (a * Pow(x, |c| - 1)) == a * Pow(x, |c|);
    }
  }

  /** The quotient of `c` by `X - a` (synthetic division). */
  function Quot(c: seq<int>, a: int): (q: seq<int>)
    ensures |c| > 0 ==> |q| == |c| - 1
  {
    if |c| <= 1 then [] else [Eval(c[1..], a)] + Quot(c[1..], a)
  }

  /** The factor theorem: `c(x) - c(a) == (x - a) * q(x)`. */
  lemma {:induction false} FactorTheorem(c: seq<int>, a: int, x: int)
    ensures Eval(c, x) == Eval(c, a) + (x - a) * Eval(Quot(c, a), x)
  {
    if |c| == 1 {
      assert c[1..] == [];
      assert Eval(c, x) == c[0] && Eval(c, a) == c[0];
    } else if |c| > 1 {
      var t := c[1..];
      FactorTheorem(t, a, x);
      var q := Quot(t, a);
      assert Eval(Quot(c, a), x) == Eval(t, a) + x * Eval(q, x) by {
        assert ([Eval(t, a)] + q)[1..] == q;
      }
      FactorStep(x, a, Eval(t, x), Eval(t, a), Eval(q, x));
    }
  }

  lemma FactorStep(x: int, a: int, tx: int, ta: int, qx: int)
    requires tx == ta + (x - a) * qx
    ensures x * tx - a * ta == (x - a) * (ta + x * qx)
  {
  }

  /** Pairwise distinct modulo `p`. */
  predicate DistinctMod(xs: seq<int>, p: int)
    requires p > 0
  {
    forall i, j :: 0 <= i < |xs| && 0 <= j < |xs| && i != j ==> (xs[i] - xs[j]) % p != 0
  }

  /**
   * Root counting: a polynomial with at most `n` coefficients that vanishes
   * modulo `p` at `n` points distinct modulo `p` vanishes everywhere.
   */
  lemma {:induction false} RootsVanish(c: seq<int>, xs: seq<int>, p: int, z: int)
    requires Prime(p) && |c| <= |xs| && DistinctMod(xs, p)
    requires forall i :: 0 <= i < |xs| ==> Eval(c, xs[i]) % p == 0
    ensures Eval(c, z) % p == 0
    decreases |xs|
  {
    if |c| > 0 {
      var n := |xs| - 1;
      var a := xs[n];
      var q := Quot(c, a);
      var ys := xs[..n];
      forall i | 0 <= i < |ys|
        ensures Eval(q, ys[i]) % p == 0
      {
        FactorTheorem(c, a, ys[i]);
        assert ys[i] == xs[i];
        SumMod(Eval(c, ys[i]), Eval(c, a), p);
        assert (ys[i] - a) % p != 0;
        Euclid(ys[i] - a, Eval(q, ys[i]), p);
      }
      RootsVanish(q, ys, p, z);
      var ea, eq := Eval(c, a), Eval(q, z);
      assert ea % p == 0;
      FactorTheorem(c, a, z);
      MulMultiple(eq, z - a, p);
      SumMod(ea, (z - a) * eq, p);
    }
  }

  // ---------------------------------------------------------------------
  // Polynomial arithmetic

  function Scale(c: seq<int>, s: int): (r: seq<int>)
    ensures |r| == |c|
  {
    if |c| == 0 then [] else [c[0] * s] + Scale(c[1..], s)
  }

  lemma {:induction false} EvalScale(c: seq<int>, s: int, x: int)
    ensures Eval(Scale(c, s), x) == s * Eval(c, x)
  {
    if |c| > 0 {
      EvalScale(c[1..], s, x);
      assert Scale(c, s)[1..] == Scale(c[1..], s);
      ScaleStep(c[0], s, x, Eval(c[1..], x), Eval(Scale(c[1..], s), x));
    }
  }

  lemma ScaleStep(c0: int, s: int, x: int, e: int, es: int)
    requires es == s * e
    ensures c0 * s + x * es == s * (c0 + x * e)
  {
  }

  function Plus(c: seq<int>, d: seq<int>): (r: seq<int>)
    ensures |r| == if |c| < |d| then |d| else |c|
  {
    if |c| == 0 then d
    else if |d| == 0 then c
    else [c[0] + d[0]] + Plus(c[1..], d[1..])
  }

  lemma {:induction false} EvalPlus(c: seq<int>, d: seq<int>, x: int)
    ensures Eval(Plus(c, d), x) == Eval(c, x) + Eval(d, x)
  {
    if |c| > 0 && |d| > 0 {
      EvalPlus(c[1..], d[1..], x);
      assert Plus(c, d)[1..] == Plus(c[1..], d[1..]);
    }
  }

  /** The polynomial `s * (a - X) * c`. */
  function Factor(c: seq<int>, a: int, s: int): (r: seq<int>)
    ensures |r| == |c| + 1
  {
    Plus(Scale(c, s * a), [0] + Scale(c, -s))
  }

  lemma EvalFactor(c: seq<int>, a: int, s: int, x: int)
    ensures Eval(Factor(c, a, s), x) == s * (a - x) * Eval(c, x)
  {
    var d := [0] + Scale(c, -s);
    EvalPlus(Scale(c, s * a), d, x);
    EvalScale(c, s * a, x);
    EvalScale(c, -s, x);
    assert d[1..] == Scale(c, -s);
    assert Eval(d, x) == x * Eval(Scale(c, -s), x);
    FactorArith(Eval(c, x), s, a, x, Eval(Scale(c, s * a), x), Eval(Scale(c, -s), x));
  }

  lemma FactorArith(e: int, s: int, a: int, x: int, u: int, v: int)
    requires u == s * a * e && v == -s * e
    ensures u + x * v == s * (a - x) * e
  {
    assert x * v == -(s * x * e);
  }

  // ---------------------------------------------------------------------
  // The Lagrange basis

  /**
   * The factor of point `xm` in the basis of point `xj`: `(xm - z) / (xm - xj)`,
   * and 1 for a point equal to `xj`.
   */
  function BasisFactor(xm: int, xj: int, z: int, p: int): int
    requires p > 1
  {
    if xm == xj then 1 else Inv(xm - xj, p) * (xm - z)
  }

  /** The basis of `xj` over the points `xs`, evaluated at `z`. */
  function BasisVal(xs: seq<int>, xj: int, z: int, p: int): int
    requires p > 1
  {
    if |xs| == 0 then 1
    else BasisVal(xs[..|xs| - 1], xj, z, p) * BasisFactor(xs[|xs| - 1], xj, z, p)
  }

  /** The basis of `xj` as a polynomial. */
  function BasisPoly(xs: seq<int>, xj: int, p: int): seq<int>
    requires p > 1
  {
    if |xs| == 0 then [1]
    else
      var rest := BasisPoly(xs[..|xs| - 1], xj, p);
      var xm := xs[|xs| - 1];
      if xm == xj then rest else Factor(rest, xm, Inv(xm - xj, p))
  }

  lemma {:induction false} EvalBasis(xs: seq<int>, xj: int, z: int, p: int)
    requires p > 1
    ensures Eval(BasisPoly(xs, xj, p), z) == BasisVal(xs, xj, z, p)
  {
    if |xs| == 0 {
      assert Eval([1], z) == 1 + z * Eval([], z);
    } else {
      var ys, xm := xs[..|xs| - 1], xs[|xs| - 1];
      EvalBasis(ys, xj, z, p);
      if xm != xj {
        var s, e := Inv(xm - xj, p), BasisVal(ys, xj, z, p);
        EvalFactor(BasisPoly(ys, xj, p), xm, s, z);
        assert s * (xm - z) * e == e * (s * (xm - z));
      }
    }
  }

  /** The basis of a point among `xs` has at most `|xs|` coefficients. */
  lemma {:induction false} BasisLength(xs: seq<int>, xj: int, p: int)
    requires p > 1
    ensures |BasisPoly(xs, xj, p)| <= |xs| + 1
    ensures xj in xs ==> |BasisPoly(xs, xj, p)| <= |xs|
  {
    if |xs| > 0 {
      var ys := xs[..|xs| - 1];
      BasisLength(ys, xj, p);
      if xs[|xs| - 1] != xj && xj in xs {
        assert xj in ys by {
          var k :| 0 <= k < |xs| && xs[k] == xj;
          assert ys[k] == xj;
        }
      }
    }
  }

  /** The basis of `xj` vanishes exactly at every other point of `xs`. */
  lemma {:induction false} BasisAtOther(xs: seq<int>, xj: int, xi: int, p: int)
    requires p > 1 && xi in xs && xi != xj
    ensures BasisVal(xs, xj, xi, p) == 0
  {
    var ys, xm := xs[..|xs| - 1], xs[|xs| - 1];
    if xm != xi {
      assert xi in ys by {
        var k :| 0 <= k < |xs| && xs[k] == xi;
        assert ys[k] == xi;
      }
      BasisAtOther(ys, xj, xi, p);
    }
  }

  /** No point of `xs` other than `xj` itself is congruent to `xj` modulo `p`. */
  predicate Apart(xs: seq<int>, xj: int, p: int)
    requires p > 0
  {
    forall m :: 0 <= m < |xs| && xs[m] != xj ==> (xs[m] - xj) % p != 0
  }

  lemma ApartPrefix(xs: seq<int>, xj: int, p: int)
    requires p > 0 && Apart(xs, xj, p) && |xs| > 0
    ensures Apart(xs[..|xs| - 1], xj, p)
    ensures xs[|xs| - 1] != xj ==> (xs[|xs| - 1] - xj) % p != 0
  {
    var ys := xs[..|xs| - 1];
    forall m | 0 <= m < |ys| && ys[m] != xj
      ensures (ys[m] - xj) % p != 0
    {
      assert ys[m] == xs[m];
    }
  }

  /** The basis of `xj` is 1 at `xj` when no other point is congruent to it. */
  lemma {:induction false} BasisAtSelf(xs: seq<int>, xj: int, p: int)
    requires Prime(p) && Apart(xs, xj, p)
    ensures BasisVal(xs, xj, xj, p) % p == 1
  {
    if |xs| > 0 {
      var ys, xm := xs[..|xs| - 1], xs[|xs| - 1];
      ApartPrefix(xs, xj, p);
      BasisAtSelf(ys, xj, p);
      FactorAtSelf(xm, xj, p);
      TimesOne(BasisVal(ys, xj, xj, p), BasisFactor(xm, xj, xj, p), p);
    }
  }

  lemma FactorAtSelf(xm: int, xj: int, p: int)
    requires Prime(p) && (xm != xj ==> (xm - xj) % p != 0)
    ensures BasisFactor(xm, xj, xj, p) % p == 1
  {
    if xm != xj {
      var d := xm - xj;
      var i := Inv(d, p);
      InvCorrect(d, p);
      Commute(i, d);
      assert BasisFactor(xm, xj, xj, p) == i * d;
    }
  }

  // ---------------------------------------------------------------------
  // Interpolation

  /** `Σ_{j<k} ys[j] * basis_j(z)` over the points `xs`. */
  function LagVal(xs: seq<int>, ys: seq<int>, k: nat, z: int, p: int): int
    requires p > 1 && k <= |xs| && |ys| == |xs|
  {
    if k == 0 then 0
    else LagVal(xs, ys, k - 1, z, p) + ys[k - 1] * BasisVal(xs, xs[k - 1], z, p)
  }

  /** The same sum as a polynomial. */
  function LagPoly(xs: seq<int>, ys: seq<int>, k: nat, p: int): seq<int>
    requires p > 1 && k <= |xs| && |ys| == |xs|
  {
    if k == 0 then []
    else Plus(LagPoly(xs, ys, k - 1, p), Scale(BasisPoly(xs, xs[k - 1], p), ys[k - 1]))
  }

  lemma {:induction false} EvalLag(xs: seq<int>, ys: seq<int>, k: nat, z: int, p: int)
    requires p > 1 && k <= |xs| && |ys| == |xs|
    ensures Eval(LagPoly(xs, ys, k, p), z) == LagVal(xs, ys, k, z, p)
  {
    if k > 0 {
      var l, b, y := LagPoly(xs, ys, k - 1, p), BasisPoly(xs, xs[k - 1], p), ys[k - 1];
      assert LagPoly(xs, ys, k, p) == Plus(l, Scale(b, y));
      EvalLag(xs, ys, k - 1, z, p);
      assert Eval(Scale(b, y), z) == y * BasisVal(xs, xs[k - 1], z, p) by {
        EvalScale(b, y, z);
        EvalBasis(xs, xs[k - 1], z, p);
      }
      EvalPlus(l, Scale(b, y), z);
    }
  }

  /** The sum has no more coefficients than there are points. */
  lemma {:induction false} LagLength(xs: seq<int>, ys: seq<int>, k: nat, p: int)
    requires p > 1 && k <= |xs| && |ys| == |xs|
    ensures |LagPoly(xs, ys, k, p)| <= |xs|
  {
    if k > 0 {
      LagLength(xs, ys, k - 1, p);
      assert xs[k - 1] in xs;
      BasisLength(xs, xs[k - 1], p);
    }
  }


  /** At a point of `xs` the sum picks out that point's value. */
  lemma {:induction false} LagAtPoint(xs: seq<int>, ys: seq<int>, k: nat, i: int, p: int)
    requires Prime(p) && DistinctMod(xs, p) && k <= |xs| && |ys| == |xs| && 0 <= i < |xs|
    ensures LagVal(xs, ys, k, xs[i], p) % p == (if i < k then ys[i] % p else 0)
  {
    if k > 0 {
      LagAtPoint(xs, ys, k - 1, i, p);
      var j := k - 1;
      var b := BasisVal(xs, xs[j], xs[i], p);
      var l := LagVal(xs, ys, k - 1, xs[i], p);
      assert LagVal(xs, ys, k, xs[i], p) == l + ys[j] * b;
      if j == i {
        assert Apart(xs, xs[j], p);
        BasisAtSelf(xs, xs[j], p);
        TimesOne(ys[j], b, p);
        AddToMultiple(l, ys[j] * b, p);
      } else {
        assert (xs[i] - xs[j]) % p != 0;
        BasisAtOther(xs, xs[j], xs[i], p);
        assert ys[j] * b == 0;
      }
    }
  }

  /**
   * Lagrange interpolation: from values of a polynomial with at most `|xs|`
   * coefficients at points distinct modulo a prime, the weighted sum of
   * the values at `z` is the polynomial's value at `z`.
   */
  lemma Interpolation(f: seq<int>, xs: seq<int>, ys: seq<int>, z: int, p: int)
    requires Prime(p) && DistinctMod(xs, p) && |ys| == |xs| && |f| <= |xs|
    requires forall i :: 0 <= i < |xs| ==> ys[i] % p == Eval(f, xs[i]) % p
    ensures LagVal(xs, ys, |xs|, z, p) % p == Eval(f, z) % p
  {
    DifferenceAt(f, xs, ys, z, p);
    DifferenceVanishes(f, xs, ys, z, p);
    DifferenceCongruent(LagVal(xs, ys, |xs|, z, p), Eval(f, z), Eval(Plus(LagPoly(xs, ys, |xs|, p), Scale(f, -1)), z), p);
  }

  /** The interpolating sum minus the polynomial vanishes at every point modulo `p`. */
  lemma DifferenceVanishes(f: seq<int>, xs: seq<int>, ys: seq<int>, z: int, p: int)
    requires Prime(p) && DistinctMod(xs, p) && |ys| == |xs| && |f| <= |xs|
    requires forall i :: 0 <= i < |xs| ==> ys[i] % p == Eval(f, xs[i]) % p
    ensures Eval(Plus(LagPoly(xs, ys, |xs|, p), Scale(f, -1)), z) % p == 0
  {
    var g := Plus(LagPoly(xs, ys, |xs|, p), Scale(f, -1));
    DifferenceAt(f, xs, ys, z, p);
    forall i | 0 <= i < |xs|
      ensures Eval(g, xs[i]) % p == 0
    {
      VanishesAtPoint(f, xs, ys, i, p);
    }
    RootsVanish(g, xs, p, z);
  }

  lemma VanishesAtPoint(f: seq<int>, xs: seq<int>, ys: seq<int>, i: int, p: int)
    requires Prime(p) && DistinctMod(xs, p) && |ys| == |xs| && |f| <= |xs| && 0 <= i < |xs|
    requires ys[i] % p == Eval(f, xs[i]) % p
    ensures Eval(Plus(LagPoly(xs, ys, |xs|, p), Scale(f, -1)), xs[i]) % p == 0
  {
    var x := xs[i];
    var l, e := LagVal(xs, ys, |xs|, x, p), Eval(f, x);
    DifferenceAt(f, xs, ys, x, p);
    assert l % p == ys[i] % p by { LagAtPoint(xs, ys, |xs|, i, p); }
    CongruentSub(l, e, p);
  }

  /** The interpolating sum minus the polynomial, as a polynomial. */
  lemma DifferenceAt(f: seq<int>, xs: seq<int>, ys: seq<int>, z: int, p: int)
    requires p > 1 && |ys| == |xs| && |f| <= |xs|
    ensures |Plus(LagPoly(xs, ys, |xs|, p), Scale(f, -1))| <= |xs|
    ensures Eval(Plus(LagPoly(xs, ys, |xs|, p), Scale(f, -1)), z) == LagVal(xs, ys, |xs|, z, p) - Eval(f, z)
  {
    var l := LagPoly(xs, ys, |xs|, p);
    EvalLag(xs, ys, |xs|, z, p);
    LagLength(xs, ys, |xs|, p);
    EvalPlus(l, Scale(f, -1), z);
    EvalScale(f, -1, z);
  }

  lemma TimesOne(a: int, b: int, p: int)
    requires p > 1 && b % p == 1
    ensures (a * b) % p == a % p
  {
    MulModLeft(b, a, p);
    Commute(a, b);
  }

  lemma AddToMultiple(a: int, b: int, p: int)
    requires p > 0 && a % p == 0
    ensures (a + b) % p == b % p
  {
    CongruentBy(a + b, b, a / p, p);
  }

  lemma CongruentSub(a: int, b: int, p: int)
    requires p > 0 && a % p == b % p
    ensures (a - b) % p == 0
  {
    var k := a / p - b / p;
    assert a == (a / p) * p + a % p && b == (b / p) * p + b % p;
    assert a - b == k * p;
    MultipleMod(k, p);
  }
}
