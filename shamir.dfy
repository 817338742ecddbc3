/**
 * Shamir's secret sharing of package secret (secret/shamir.go): the
 * configuration, the random polynomial, share generation by evaluating
 * the polynomial at 1..MaxShares, and reconstruction by the Lagrange sum
 * at 0.  Field elements are modelled by the values they stand for, residues
 * modulo the prime of the configured field; each element operation the Go
 * code calls (`SetUint64`, `Neg`, `Inverse`, `MulAssign`, `AddAssign`)
 * becomes the corresponding operation on residues.
 */
module Shamir {
  import opened Base
  import opened ModArith
  import opened Lagrange
  import Ff
  import FieldP
  import FieldQ

  /** The prime of a field type: `q` of bn256 for FQ, the scalar field `r` for FP. */
  function Modulus(t: int): (p: int)
    requires Ff.IsValid(t)
    ensures p > 1
  {
    if t == Ff.FF_BN256_FQ then FieldQ.QQ else FieldP.QP
  }

  /** A share `(Px, Py)`: an abscissa and the polynomial's value there. */
  datatype Share = Share(px: int, py: int)

  // ---------------------------------------------------------------------
  // Share generation

  /** The `k` coefficients `a[1..k]` drawn by `generatePoly`, each below `p`. */
  function PolyOf(draw: nat -> int, k: nat, p: int): (c: seq<int>)
    requires p > 1
    ensures |c| == k
  {
    if k == 0 then [] else PolyOf(draw, k - 1, p) + [draw(k - 1) % p]
  }

  /**
   * The value accumulated for share `x` after the first `k` coefficients:
   * `secret + Σ_{i<k} (x^(i+1) mod p) * a[i]`, reduced after every step.
   */
  function ShareValue(secret: int, poly: seq<int>, x: int, k: nat, p: int): (v: int)
    requires p > 1 && k <= |poly|
    ensures 0 <= secret < p ==> 0 <= v < p
  {
    if k == 0 then secret
    else (ShareValue(secret, poly, x, k - 1, p) + ((Pow(x, k) % p) * poly[k - 1]) % p) % p
  }

  /** The shares `GenerateShares` returns: abscissae 1..n, in order. */
  function SharesOf(secret: int, poly: seq<int>, n: int, p: int): (r: seq<Share>)
    requires p > 1
    ensures |r| == if n < 0 then 0 else n
  {
    if n <= 0 then [] else SharesOf(secret, poly, n - 1, p) + [Share(n, ShareValue(secret, poly, n, |poly|, p))]
  }

  lemma ShareValueNext(secret: int, poly: seq<int>, x: int, k: nat, p: int, t: int)
    requires p > 1 && k < |poly| && t == ((Pow(x, k + 1) % p) * poly[k]) % p
    ensures ShareValue(secret, poly, x, k + 1, p) == (ShareValue(secret, poly, x, k, p) + t) % p
  {
  }

  lemma SharesOfNext(secret: int, poly: seq<int>, n: int, p: int)
    requires p > 1 && n >= 1
    ensures SharesOf(secret, poly, n, p) == SharesOf(secret, poly, n - 1, p) + [Share(n, ShareValue(secret, poly, n, |poly|, p))]
  {
  }

  /**
   * Each share's value is the polynomial `secret + a[1] x + ... + a[k] x^k`
   * at its abscissa, reduced modulo `p`.
   */
  lemma {:induction false} ShareValueIsEval(secret: int, poly: seq<int>, x: int, k: nat, p: int)
    requires p > 1 && k <= |poly| && 0 <= secret < p
    ensures ShareValue(secret, poly, x, k, p) == Eval([secret] + poly[..k], x) % p
  {
    if k == 0 {
      assert [secret] + poly[..0] == [secret];
      assert Eval([secret], x) == secret + x * Eval([], x) == secret;
      SmallMod(secret, p);
    } else {
      var c := [secret] + poly[..k - 1];
      var a := poly[k - 1];
      ShareValueIsEval(secret, poly, x, k - 1, p);
      assert [secret] + poly[..k] == c + [a];
      EvalSnoc(c, a, x);
      var prev, w := Eval(c, x), Pow(x, k);
      assert ((w % p) * a) % p == (a * w) % p by {
        MulModLeft(w, a, p);
        Commute(w, a);
      }
      AddMod(prev, a * w, p);
      ModMod(prev, p);
    }
  }

  lemma SharesOfAt(secret: int, poly: seq<int>, n: int, p: int, i: int)
    requires p > 1 && 0 <= i < n
    ensures SharesOf(secret, poly, n, p)[i] == Share(i + 1, ShareValue(secret, poly, i + 1, |poly|, p))
    decreases n
  {
    if i < n - 1 {
      SharesOfAt(secret, poly, n - 1, p, i);
    }
  }

  /** Every share sits at its position's abscissa and holds a residue. */
  lemma SharesOfAll(secret: int, poly: seq<int>, n: int, p: int)
    requires p > 1 && 0 <= secret < p
    ensures forall i :: 0 <= i < |SharesOf(secret, poly, n, p)| ==>
      SharesOf(secret, poly, n, p)[i].px == i + 1 && 0 <= SharesOf(secret, poly, n, p)[i].py < p
  {
    forall i | 0 <= i < |SharesOf(secret, poly, n, p)|
      ensures SharesOf(secret, poly, n, p)[i].px == i + 1 && 0 <= SharesOf(secret, poly, n, p)[i].py < p
    {
      SharesOfAt(secret, poly, n, p, i);
    }
  }

  /**
   * The inner loop of `GenerateShares`: the share value at `x`, one
   * coefficient term `x^(k+1) * a[k]` at a time.
   */
  method ShareOrdinate(secret: int, poly: seq<int>, x: int, p: int) returns (py: int)
    requires p > 1
    ensures py == ShareValue(secret, poly, x, |poly|, p)
  {
    py := secret;
    var k := 0;
    while k < |poly|
      invariant 0 <= k <= |poly|
      invariant py == ShareValue(secret, poly, x, k, p)
    {
      var tmp := Pow(x, k + 1) % p;
      tmp := (tmp * poly[k]) % p;
      ShareValueNext(secret, poly, x, k, p, tmp);
      py := (py + tmp) % p;
      k := k + 1;
    }
  }

  // ---------------------------------------------------------------------
  // Reconstruction

  /** `Neg` on a residue: `0` stays `0`, any other `v` becomes `p - v`. */
  function NegMod(v: int, p: int): int
  {
    if v == 0 then 0 else p - v
  }

  /**
   * The factor share `xm` contributes to the weight of share `xj`:
   * `uint64(xm) * Inverse(xm - xj)`, the difference formed as `uint64(xm - xj)`
   * or as the negation of `uint64(xj - xm)`.
   */
  function Term(xm: int, xj: int, p: int): int
    requires p > 1
  {
    var n := ToUint64(xm) % p;
    var d := if xm > xj then ToUint64(xm - xj) % p else NegMod(ToUint64(xj - xm) % p, p);
    (n * Inv(d, p)) % p
  }

  /** The weight of abscissa `xj` over the first `k` shares; shares at `xj` are skipped. */
  function Weight(shares: seq<Share>, xj: int, k: nat, p: int): int
    requires p > 1 && k <= |shares|
  {
    if k == 0 then 1
    else if shares[k - 1].px == xj then Weight(shares, xj, k - 1, p)
    else (Weight(shares, xj, k - 1, p) * Term(shares[k - 1].px, xj, p)) % p
  }

  /** The secret accumulated over the first `k` shares. */
  function Combine(shares: seq<Share>, k: nat, p: int): int
    requires p > 1 && k <= |shares|
  {
    if k == 0 then 0
    else (Combine(shares, k - 1, p) + (Weight(shares, shares[k - 1].px, |shares|, p) * shares[k - 1].py) % p) % p
  }

  lemma CombineNext(shares: seq<Share>, j: nat, p: int, l: int)
    requires p > 1 && j < |shares|
    requires l == (Weight(shares, shares[j].px, |shares|, p) * shares[j].py) % p
    ensures Combine(shares, j + 1, p) == (Combine(shares, j, p) + l) % p
  {
  }

  function Xs(shares: seq<Share>): (xs: seq<int>)
    ensures |xs| == |shares| && forall i :: 0 <= i < |xs| ==> xs[i] == shares[i].px
  {
    seq(|shares|, i requires 0 <= i < |shares| => shares[i].px)
  }

  function Ys(shares: seq<Share>): (ys: seq<int>)
    ensures |ys| == |shares| && forall i :: 0 <= i < |ys| ==> ys[i] == shares[i].py
  {
    seq(|shares|, i requires 0 <= i < |shares| => shares[i].py)
  }

  /** Abscissae a Go `int` holds without sign: the conversions to `uint64` keep them. */
  predicate Unsigned(shares: seq<Share>)
  {
    forall i :: 0 <= i < |shares| ==> 0 <= shares[i].px < TWO63
  }

  /** `Neg` of the residue of `x` is the residue of `-x`. */
  lemma NegResidue(x: int, p: int)
    requires p > 1
    ensures NegMod(x % p, p) == (-x) % p
  {
    var q, v := x / p, x % p;
    assert x == q * p + v;
    if v == 0 {
      assert -x == (-q) * p;
      CongruentBy(-x, 0, -q, p);
    } else {
      assert (p - v) - (-x) == (q + 1) * p;
      CongruentBy(p - v, -x, q + 1, p);
      SmallMod(p - v, p);
    }
  }

  /** The residue of `a - b` as the `else` branch forms it. */
  lemma NegDifference(a: int, b: int, p: int)
    requires p > 1 && 0 <= b - a < TWO64
    ensures NegMod(ToUint64(b - a) % p, p) == (a - b) % p
  {
    assert ToUint64(b - a) == b - a;
    NegResidue(b - a, p);
  }

  /** The step of the inner loop is the basis factor of `xm` at 0. */
  lemma TermIsFactor(xm: int, xj: int, p: int)
    requires p > 1 && 0 <= xm < TWO63 && 0 <= xj < TWO63 && xm != xj
    ensures Term(xm, xj, p) == BasisFactor(xm, xj, 0, p) % p
  {
    var d := if xm > xj then ToUint64(xm - xj) % p else NegMod(ToUint64(xj - xm) % p, p);
    assert d == (xm - xj) % p by {
      if xm > xj {
        assert ToUint64(xm - xj) == xm - xj;
      } else {
        NegDifference(xm, xj, p);
      }
    }
    var i := Inv(xm - xj, p);
    assert Inv(d, p) == i by {
      ModMod(xm - xj, p);
    }
    assert ToUint64(xm) == xm;
    MulModLeft(xm, i, p);
    Commute(xm, i);
  }

  lemma ProductStep(w: int, t: int, b: int, f: int, p: int)
    requires p > 0 && w == b % p && t == f % p
    ensures (w * t) % p == (b * f) % p
  {
    MulMod(b, f, p);
  }

  lemma SumStep(ck: int, lk: int, c: int, l: int, w: int, b: int, y: int, p: int)
    requires p > 0 && c == l % p && w == b % p
    requires ck == (c + (w * y) % p) % p && lk == l + y * b
    ensures ck == lk % p
  {
    MulModLeft(b, y, p);
    Commute(b, y);
    AddMod(l, y * b, p);
    ModMod(y * b, p);
  }

  /** The inner loop computes the Lagrange basis of `xj` at 0, modulo `p`. */
  lemma {:induction false} WeightIsBasis(shares: seq<Share>, xj: int, k: nat, p: int)
    requires p > 1 && k <= |shares| && Unsigned(shares) && 0 <= xj < TWO63
    ensures Weight(shares, xj, k, p) == BasisVal(Xs(shares)[..k], xj, 0, p) % p
  {
    if k > 0 {
      var xs := Xs(shares);
      var xm := shares[k - 1].px;
      WeightIsBasis(shares, xj, k - 1, p);
      var b, f := BasisVal(xs[..k - 1], xj, 0, p), BasisFactor(xm, xj, 0, p);
      assert BasisVal(xs[..k], xj, 0, p) == b * f by {
        assert xs[..k][..k - 1] == xs[..k - 1];
        assert xs[..k][k - 1] == xm;
      }
      var w := Weight(shares, xj, k - 1, p);
      if xm == xj {
        assert f == 1;
        assert b * f == b;
      } else {
        assert 0 <= xm < TWO63;
        TermIsFactor(xm, xj, p);
        ProductStep(w, Term(xm, xj, p), b, f, p);
      }
    }
  }

  /** The outer loop computes the Lagrange sum at 0, modulo `p`. */
  lemma CombineIsLagrange(shares: seq<Share>, k: nat, p: int)
    requires p > 1 && k <= |shares| && Unsigned(shares)
    ensures Combine(shares, k, p) == LagVal(Xs(shares), Ys(shares), k, 0, p) % p
  {
    CombineIsSum(shares, k, p);
    WeightsAreBasis(shares, p);
    SumIsLagrange(Weights(shares, p), Xs(shares), Ys(shares), k, p);
  }

  /** The weight of every share's own abscissa over all shares. */
  function Weights(shares: seq<Share>, p: int): (ws: seq<int>)
    requires p > 1
    ensures |ws| == |shares|
  {
    seq(|shares|, i requires 0 <= i < |shares| => Weight(shares, shares[i].px, |shares|, p))
  }

  /** The residues of `ws[i] * ys[i]` summed modulo `p` over the first `k`. */
  function WeightedSum(ws: seq<int>, ys: seq<int>, k: nat, p: int): int
    requires p > 1 && k <= |ws| && |ys| == |ws|
  {
    if k == 0 then 0 else (WeightedSum(ws, ys, k - 1, p) + (ws[k - 1] * ys[k - 1]) % p) % p
  }

  lemma {:induction false} CombineIsSum(shares: seq<Share>, k: nat, p: int)
    requires p > 1 && k <= |shares|
    ensures Combine(shares, k, p) == WeightedSum(Weights(shares, p), Ys(shares), k, p)
  {
    if k > 0 {
      CombineIsSum(shares, k - 1, p);
      CombineNext(shares, k - 1, p, (Weights(shares, p)[k - 1] * Ys(shares)[k - 1]) % p);
    }
  }

  lemma WeightsAreBasis(shares: seq<Share>, p: int)
    requires p > 1 && Unsigned(shares)
    ensures forall i :: 0 <= i < |shares| ==> Weights(shares, p)[i] == BasisVal(Xs(shares), Xs(shares)[i], 0, p) % p
  {
    forall i | 0 <= i < |shares|
      ensures Weights(shares, p)[i] == BasisVal(Xs(shares), Xs(shares)[i], 0, p) % p
    {
      WeightAtZero(shares, shares[i].px, p);
    }
  }

  lemma {:induction false} SumIsLagrange(ws: seq<int>, xs: seq<int>, ys: seq<int>, k: nat, p: int)
    requires p > 1 && k <= |xs| && |ws| == |xs| && |ys| == |xs|
    requires forall i :: 0 <= i < |ws| ==> ws[i] == BasisVal(xs, xs[i], 0, p) % p
    ensures WeightedSum(ws, ys, k, p) == LagVal(xs, ys, k, 0, p) % p
  {
    if k > 0 {
      SumIsLagrange(ws, xs, ys, k - 1, p);
      SumLagrangeStep(ws, xs, ys, k - 1, p);
    }
  }

  lemma SumLagrangeStep(ws: seq<int>, xs: seq<int>, ys: seq<int>, k: nat, p: int)
    requires p > 1 && k < |xs| && |ws| == |xs| && |ys| == |xs|
    requires ws[k] == BasisVal(xs, xs[k], 0, p) % p
    requires WeightedSum(ws, ys, k, p) == LagVal(xs, ys, k, 0, p) % p
    ensures WeightedSum(ws, ys, k + 1, p) == LagVal(xs, ys, k + 1, 0, p) % p
  {
    var xj, y := xs[k], ys[k];
    LagValNext(xs, ys, k, p, xj, y);
    SumStep(WeightedSum(ws, ys, k + 1, p), LagVal(xs, ys, k + 1, 0, p), WeightedSum(ws, ys, k, p),
            LagVal(xs, ys, k, 0, p), ws[k], BasisVal(xs, xj, 0, p), y, p);
  }

  /** The whole inner loop gives the basis over all abscissae. */
  lemma WeightAtZero(shares: seq<Share>, xj: int, p: int)
    requires p > 1 && Unsigned(shares) && 0 <= xj < TWO63
    ensures Weight(shares, xj, |shares|, p) == BasisVal(Xs(shares), xj, 0, p) % p
  {
    WeightIsBasis(shares, xj, |shares|, p);
    assert Xs(shares)[..|shares|] == Xs(shares);
  }

  lemma LagValNext(xs: seq<int>, ys: seq<int>, k: nat, p: int, xj: int, y: int)
    requires p > 1 && k < |xs| && |ys| == |xs| && xs[k] == xj && ys[k] == y
    ensures LagVal(xs, ys, k + 1, 0, p) == LagVal(xs, ys, k, 0, p) + y * BasisVal(xs, xj, 0, p)
  {
  }

  /** Shares at distinct abscissae in 1..n, for `n` below `p`, are distinct modulo `p`. */
  lemma DistinctAbscissae(shares: seq<Share>, n: int, p: int)
    requires p > 1 && n < p
    requires forall i :: 0 <= i < |shares| ==> 1 <= shares[i].px <= n
    requires forall i, j :: 0 <= i < j < |shares| ==> shares[i].px != shares[j].px
    ensures DistinctMod(Xs(shares), p)
  {
    var xs := Xs(shares);
    forall i, j | 0 <= i < |xs| && 0 <= j < |xs| && i != j
      ensures (xs[i] - xs[j]) % p != 0
    {
      assert xs[i] != xs[j] by {
        if i < j {
          assert shares[i].px != shares[j].px;
        } else {
          assert shares[j].px != shares[i].px;
        }
      }
      NearDifference(xs[i], xs[j], p);
    }
  }

  /** Two different values at distance below `p` differ modulo `p`. */
  lemma NearDifference(a: int, b: int, p: int)
    requires p > 1 && a != b && -p < a - b < p
    ensures (a - b) % p != 0
  {
    var d := a - b;
    if d > 0 {
      SmallMod(d, p);
    } else {
      CongruentBy(d, d + p, -1, p);
      SmallMod(d + p, p);
    }
  }

  /** Shares taken from `SharesOf` lie on the polynomial, at abscissae in 1..n. */
  lemma SelectedOnPoly(secret: int, poly: seq<int>, n: int, p: int, sel: seq<Share>)
    requires p > 1 && 0 <= secret < p
    requires forall s :: s in sel ==> s in SharesOf(secret, poly, n, p)
    ensures forall i :: 0 <= i < |sel| ==> 1 <= sel[i].px <= n && sel[i].py == Eval([secret] + poly, sel[i].px) % p
  {
    var f := [secret] + poly;
    var shares := SharesOf(secret, poly, n, p);
    forall i | 0 <= i < |sel|
      ensures 1 <= sel[i].px <= n && sel[i].py == Eval(f, sel[i].px) % p
    {
      assert sel[i] in shares;
      var k :| 0 <= k < |shares| && shares[k] == sel[i];
      SharesOfAt(secret, poly, n, p, k);
      ShareValueIsEval(secret, poly, k + 1, |poly|, p);
      assert poly[..|poly|] == poly;
    }
  }

  /** The polynomial's constant term is the secret. */
  lemma EvalAtZero(secret: int, poly: seq<int>)
    ensures Eval([secret] + poly, 0) == secret
  {
    var f := [secret] + poly;
    var e := Eval(f[1..], 0);
    assert Eval(f, 0) == f[0] + 0 * e;
  }

  /**
   * Reconstruction: any shares produced by `GenerateShares` at distinct
   * abscissae, at least `MinShares` of them and in any order, combine to
   * the secret.  The field's modulus must be prime.
   */
  lemma GenerateSecretRecovers(secret: int, poly: seq<int>, maxShares: int, p: int, sel: seq<Share>)
    requires Prime(p) && 0 <= secret < p && maxShares < p && maxShares < TWO63
    requires forall s :: s in sel ==> s in SharesOf(secret, poly, maxShares, p)
    requires forall i, j :: 0 <= i < j < |sel| ==> sel[i].px != sel[j].px
    requires |sel| >= |poly| + 1
    ensures Combine(sel, |sel|, p) == secret
  {
    var f := [secret] + poly;
    SelectedOnPoly(secret, poly, maxShares, p, sel);
    var xs, ys := Xs(sel), Ys(sel);
    DistinctAbscissae(sel, maxShares, p);
    forall i | 0 <= i < |xs|
      ensures ys[i] % p == Eval(f, xs[i]) % p
    {
      assert ys[i] == Eval(f, xs[i]) % p;
      ModMod(Eval(f, xs[i]), p);
    }
    Interpolation(f, xs, ys, 0, p);
    EvalAtZero(secret, poly);
    SmallMod(secret, p);
    CombineIsLagrange(sel, |sel|, p);
  }

  // ---------------------------------------------------------------------
  // The configuration

  /** The `Shamir` configuration struct. */
  class Shamir {
    var minShares: int
    var maxShares: int
    var elementType: int

    /** The element type names a known field; true of the zero value. */
    predicate Valid()
      reads this
    {
      Ff.IsValid(elementType)
    }

    /** The zero value of the struct. */
    constructor ()
      ensures minShares == 0 && maxShares == 0 && elementType == Ff.FF_BN256_FQ && Valid()
    {
      minShares, maxShares, elementType := 0, 0, Ff.FF_BN256_FQ;
    }

    function GetMinShares(): int
      reads this
    {
      minShares
    }

    function GetMaxShares(): int
      reads this
    {
      maxShares
    }

    function GetElType(): int
      reads this
    {
      elementType
    }

    /**
     * `NewConfig`: checks the arguments in order and stores them only when
     * all three checks pass.
     */
    method NewConfig(minS: int, maxS: int, t: int) returns (err: Option<Error>)
      modifies this
      ensures minS == 0 ==> err == Some(MinSharesZero)
      ensures minS != 0 && minS > maxS ==> err == Some(MinSharesAboveMax)
      ensures minS != 0 && minS <= maxS && !Ff.IsValid(t) ==> err == Some(UnknownField)
      ensures err.Some? ==> unchanged(this)
      ensures err.None? <==> minS != 0 && minS <= maxS && Ff.IsValid(t)
      ensures err.None? ==> GetMinShares() == minS && GetMaxShares() == maxS && GetElType() == t
      ensures old(Valid()) ==> Valid()
    {
      if minS == 0 {
        return Some(MinSharesZero);
      }
      if minS > maxS {
        return Some(MinSharesAboveMax);
      }
      if !Ff.IsValid(t) {
        return Some(UnknownField);
      }
      minShares, maxShares, elementType := minS, maxS, t;
      return None;
    }

    /**
     * `generatePoly`: `MinShares - 1` random coefficients; `make` panics on a
     * negative length.  `draw(k)` is the `k`-th random element.
     */
    method GeneratePoly(draw: nat -> int) returns (r: Result<seq<int>>)
      requires Valid()
      ensures minShares < 1 ==> r == Err(Panic)
      ensures minShares >= 1 ==> r.Ok? && |r.value| == minShares - 1
      ensures r.Ok? ==> forall k :: 0 <= k < |r.value| ==> r.value[k] == draw(k) % Modulus(elementType)
      ensures r.Ok? ==> r.value == PolyOf(draw, minShares - 1, Modulus(elementType))
    {
      if minShares - 1 < 0 {
        return Err(Panic);
      }
      var p := Modulus(elementType);
      var poly: seq<int> := [];
      var k := 0;
      while k < minShares - 1
        invariant 0 <= k <= minShares - 1
        invariant poly == PolyOf(draw, k, p)
        invariant forall i :: 0 <= i < k ==> poly[i] == draw(i) % p
      {
        poly := poly + [draw(k) % p];
        k := k + 1;
      }
      return Ok(poly);
    }

    /**
     * `GenerateShares`: share `idx` for `idx` in 1..MaxShares starts at the
     * secret and adds `idx^(k+1) * a[k]` for every coefficient.
     */
    method GenerateShares(secret: int, draw: nat -> int) returns (r: Result<seq<Share>>)
      requires Valid() && 0 <= secret < Modulus(elementType)
      ensures minShares < 1 ==> r == Err(Panic)
      ensures minShares >= 1 ==> r.Ok?
      ensures r.Ok? ==> |r.value| == (if maxShares < 0 then 0 else maxShares)
      ensures r.Ok? ==> forall i :: 0 <= i < |r.value| ==> r.value[i].px == i + 1
      ensures r.Ok? ==> forall i :: 0 <= i < |r.value| ==> 0 <= r.value[i].py < Modulus(elementType)
      ensures r.Ok? ==> r.value == SharesOf(secret, PolyOf(draw, minShares - 1, Modulus(elementType)), maxShares, Modulus(elementType))
    {
      var p := Modulus(elementType);
      var polyR := GeneratePoly(draw);
      if polyR.Err? {
        return Err(Panic);
      }
      var poly := polyR.value;
      var shares: seq<Share> := [];
      var idx := 1;
      while idx <= maxShares
        invariant 1 <= idx <= (if maxShares < 1 then 1 else maxShares + 1)
        invariant shares == SharesOf(secret, poly, idx - 1, p)
      {
        var py := ShareOrdinate(secret, poly, idx, p);
        SharesOfNext(secret, poly, idx, p);
        shares := shares + [Share(idx, py)];
        idx := idx + 1;
      }
      assert idx - 1 == (if maxShares < 0 then 0 else maxShares);
      SharesOfAll(secret, poly, idx - 1, p);
      return Ok(shares);
    }

    /**
     * `GenerateSecret`: for every share `j`, the product over the shares at
     * other abscissae of `x_m / (x_m - x_j)`, times `Py_j`, summed.
     */
    method GenerateSecret(shares: seq<Share>) returns (secret: int)
      requires Valid()
      ensures secret == Combine(shares, |shares|, Modulus(elementType))
      ensures 0 <= secret < Modulus(elementType)
      ensures |shares| == 0 ==> secret == 0
    {
      var p := Modulus(elementType);
      secret := 0;
      var j := 0;
      while j < |shares|
        invariant 0 <= j <= |shares|
        invariant secret == Combine(shares, j, p)
        invariant 0 <= secret < p
      {
        var l := LagrangeWeight(shares, shares[j].px, p);
        l := (l * shares[j].py) % p;
        CombineNext(shares, j, p, l);
        secret := (secret + l) % p;
        j := j + 1;
      }
    }
  }

  /**
   * The inner loop of `GenerateSecret`: the product, over the shares whose
   * abscissa differs from `xj`, of `x_m / (x_m - x_j)`.
   */
  method LagrangeWeight(shares: seq<Share>, xj: int, p: int) returns (l: int)
    requires p > 1
    ensures l == Weight(shares, xj, |shares|, p)
    ensures 0 <= l < p || (l == 1 && forall m :: 0 <= m < |shares| ==> shares[m].px == xj)
  {
    l := 1;
    var m := 0;
    while m < |shares|
      invariant 0 <= m <= |shares|
      invariant l == Weight(shares, xj, m, p)
      invariant 0 <= l < p || (l == 1 && forall i :: 0 <= i < m ==> shares[i].px == xj)
    {
      var xm := shares[m].px;
      if xm != xj {
        var n := ToUint64(xm) % p;
        var d;
        if xm > xj {
          d := ToUint64(xm - xj) % p;
        } else {
          d := ToUint64(xj - xm) % p;
          d := NegMod(d, p);
        }
        d := Inv(d, p);
        n := (n * d) % p;
        assert n == Term(xm, xj, p);
        l := (l * n) % p;
      }
      m := m + 1;
    }
  }
}
