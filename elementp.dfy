/**
 * The field element of the BN256 scalar field (ff/element_bn256p.go): four
 * little-endian 64-bit limbs updated in place, kept below the modulus
 * `q = 21888242871839275222246405745257275088548364400416034343698204186575808495617`
 * and read in Montgomery form (an element `a` is stored as `a * 2^256 mod q`).
 * Addition, subtraction and negation act the same way on stored values as on
 * the numbers they stand for; the inverse is the Montgomery inverse.
 */
module FieldP {
  import opened Base
  import opened Limbs
  import opened ModArith

  const QP: int := 21888242871839275222246405745257275088548364400416034343698204186575808495617
  const QP_LIMBS: Limbs := [4891460686036598785, 2896914383306846353, 13281191951274694749, 3486998266802970665]
  /** `R^2 mod q`, the starting value of `s` in `Inverse`. */
  const R_SQUARE: Limbs := [1997599621687373223, 6052339484930628067, 10108755138030829701, 150537098327114917]
  /** `R mod q`, the Montgomery form of 1 (`SetOne`). */
  const ONE: Limbs := [12436184717236109307, 3962172157175319849, 7381016538464732718, 1011752739694698287]
  const RR: int := R * R

  /** The limbs of the modulus; it is odd and has a spare top bit. */
  lemma Modulus()
    ensures Val(QP_LIMBS) == QP && QP % 2 == 1 && 2 * QP < R
  {
  }

  /** The Montgomery constants. */
  lemma Constants()
    ensures Val(QP_LIMBS) == QP && Val(R_SQUARE) == RR % QP && Val(ONE) == R % QP
    ensures QP % 2 == 1 && 2 * QP < R && RR % QP != 0
  {
  }

  /**
   * `if z > q --> z -= q` on a value below `2q` (the sum of two reduced
   * elements) leaves the remainder modulo `q`.
   */
  function Reduce(a: Limbs): (r: Limbs)
    ensures Val(a) < 2 * QP ==> Val(r) == Val(a) % QP
  {
    ReduceValue(a);
    if !LexLess(a, QP_LIMBS) then SubChain(a, QP_LIMBS).0 else a
  }

  lemma ReduceValue(a: Limbs)
    ensures Val(a) < 2 * QP ==>
      Val(if !LexLess(a, QP_LIMBS) then SubChain(a, QP_LIMBS).0 else a) == Val(a) % QP
  {
    LexLessIsLess(a, QP_LIMBS);
    SubChainBorrow(a, QP_LIMBS);
    if Val(a) < 2 * QP {
      if Val(a) >= QP {
        DivUnique(Val(a), QP, 1, Val(a) - QP);
      } else {
        DivUnique(Val(a), QP, 0, Val(a));
      }
    }
  }

  /**
   * The limb sum of two reduced values followed by the conditional
   * subtraction of `q`, shared by `Add`, `AddAssign` and `Double`: the sum
   * modulo `q`.
   */
  method AddMod(a: Limbs, b: Limbs) returns (r: Limbs)
    requires Val(a) < QP && Val(b) < QP
    ensures Val(r) == (Val(a) + Val(b)) % QP
  {
    Modulus();
    AddChainExact(a, b);
    var sum := AddChain(a, b).0;
    assert Val(sum) < 2 * QP;
    r := Reduce(sum);
  }

  /**
   * The limb difference of two reduced values, with `q` added back after
   * a borrow, shared by `Sub` and `SubAssign`: the difference modulo `q`.
   */
  method SubMod(a: Limbs, b: Limbs) returns (r: Limbs)
    requires Val(a) < QP && Val(b) < QP
    ensures Val(r) == (Val(a) - Val(b)) % QP
  {
    var d := SubChain(a, b);
    r := d.0;
    if d.1 != 0 {
      r := AddChain(r, QP_LIMBS).0;
    }
    SubResult(Val(a), Val(b), d.0, d.1);
  }

  /** The loop variables of `Inverse` keep `x * s ≡ v * R^2 (mod q)`. */
  ghost predicate Tracks(x: int, s: int, v: int)
  {
    Tracked(x, s, v, QP, RR)
  }

  /**
   * One halving step of `Inverse`: `v` even is halved, and `s` is halved
   * too, after adding `q` when it is odd; the congruence and `s <= q` hold on.
   */
  lemma HalveStep(x: int, v: Limbs, s: Limbs)
    requires Val(v) % 2 == 0 && Val(s) <= QP && Tracks(x, Val(s), Val(v))
    ensures var s1 := if s[0] % 2 == 1 then AddChain(s, QP_LIMBS).0 else s;
      && Val(Shr1(v)) * 2 == Val(v)
      && Val(Shr1(s1)) <= QP
      && Tracks(x, Val(Shr1(s1)), Val(Shr1(v)))
  {
    Modulus();
    LowBitParity(s);
    var s1 := if s[0] % 2 == 1 then AddChain(s, QP_LIMBS).0 else s;
    var c := if s[0] % 2 == 1 then 1 else 0;
    if s[0] % 2 == 1 {
      AddChainExact(s, QP_LIMBS);
      OddSum(Val(s), QP);
    }
    assert Val(s1) == Val(s) + c * QP;
    assert Val(s1) % 2 == 0;
    LowBitParity(s1);
    LowBitParity(v);
    HalveCongruence(x, Val(s), Val(v), Val(Shr1(s1)), Val(Shr1(v)), c, QP, RR);
  }

  /**
   * One subtraction step of `Inverse`: the larger of `u`, `v` loses the
   * smaller, and its partner loses the other partner modulo `q` (adding `q`
   * first when the subtraction would go below zero).
   */
  lemma SubStep(x: int, big: Limbs, small: Limbs, acc: Limbs, other: Limbs)
    requires Val(big) >= Val(small) && Val(acc) <= QP && Val(other) <= QP
    requires Tracks(x, Val(acc), Val(big)) && Tracks(x, Val(other), Val(small))
    ensures var acc1 := if !LexLess(other, acc) then AddChain(acc, QP_LIMBS).0 else acc;
      && Val(SubChain(big, small).0) == Val(big) - Val(small)
      && Val(SubChain(acc1, other).0) <= QP
      && Tracks(x, Val(SubChain(acc1, other).0), Val(big) - Val(small))
  {
    var c := SubStepValues(big, small, acc, other);
    var acc1 := if !LexLess(other, acc) then AddChain(acc, QP_LIMBS).0 else acc;
    SubCongruence(x, Val(acc), Val(big), Val(other), Val(small), c, QP, RR,
                  Val(SubChain(acc1, other).0), Val(big) - Val(small));
  }

  /** The limb arithmetic of a subtraction step is exact; `c` tells whether `q` was added. */
  lemma SubStepValues(big: Limbs, small: Limbs, acc: Limbs, other: Limbs) returns (c: int)
    requires Val(big) >= Val(small) && Val(acc) <= QP && Val(other) <= QP
    ensures var acc1 := if !LexLess(other, acc) then AddChain(acc, QP_LIMBS).0 else acc;
      && Val(SubChain(big, small).0) == Val(big) - Val(small)
      && Val(SubChain(acc1, other).0) == Val(acc) - Val(other) + c * QP <= QP
  {
    Modulus();
    SubChainBorrow(big, small);
    LexLessIsLess(other, acc);
    c := if !LexLess(other, acc) then 1 else 0;
    var acc1 := if !LexLess(other, acc) then AddChain(acc, QP_LIMBS).0 else acc;
    if c == 1 {
      AddChainExact(acc, QP_LIMBS);
    }
    SubChainBorrow(acc1, other);
  }

  /**
   * An inner loop of `Inverse`: shifts `v` right while it is even, halving
   * `s` modulo `q` alongside; `v` ends odd, no larger, and still coprime to
   * the other variable, and the congruence and `s <= q` still hold.
   */
  method HalveWhileEven(ghost x: int, ghost other: nat, v0: Limbs, s0: Limbs) returns (v: Limbs, s: Limbs)
    requires Tracks(x, Val(s0), Val(v0)) && Val(s0) <= QP
    requires Val(v0) >= 1 && Coprime(other, Val(v0))
    ensures Tracks(x, Val(s), Val(v)) && Val(s) <= QP
    ensures 1 <= Val(v) <= Val(v0) && Val(v) % 2 == 1 && Coprime(other, Val(v))
  {
    v, s := v0, s0;
    while v[0] % 2 == 0
      invariant Tracks(x, Val(s), Val(v)) && Val(s) <= QP
      invariant 1 <= Val(v) <= Val(v0) && Coprime(other, Val(v))
      decreases Val(v)
    {
      LowBitParity(v);
      HalveStep(x, v, s);
      CoprimeHalf(other, Val(v));
      v := Shr1(v);
      if s[0] % 2 == 1 {
        s := AddChain(s, QP_LIMBS).0;
      }
      s := Shr1(s);
    }
    LowBitParity(v);
  }

  /**
   * The subtraction at the end of each round of `Inverse`: the larger of
   * the odd `u`, `v` loses the smaller, and its partner loses the other
   * partner modulo `q`.  The congruences, the bounds and coprimality hold
   * on, the sum `u + v` shrinks, and a variable that reaches zero leaves
   * the other at one.
   */
  method SubtractStep(ghost x: int, u0: Limbs, v0: Limbs, r0: Limbs, s0: Limbs)
    returns (u: Limbs, v: Limbs, r: Limbs, s: Limbs)
    requires Tracks(x, Val(s0), Val(v0)) && Tracks(x, Val(r0), Val(u0))
    requires Val(s0) <= QP && Val(r0) <= QP
    requires Coprime(Val(u0), Val(v0)) && Val(u0) >= 1 && Val(v0) >= 1
    ensures Tracks(x, Val(s), Val(v)) && Tracks(x, Val(r), Val(u))
    ensures Val(s) <= QP && Val(r) <= QP
    ensures Coprime(Val(u), Val(v))
    ensures (Val(u) == Val(u0) && Val(v) == Val(v0) - Val(u0))
         || (Val(v) == Val(v0) && Val(u) == Val(u0) - Val(v0))
    ensures Val(u) == 0 ==> Val(v) == 1
    ensures Val(v) == 0 ==> Val(u) == 1
  {
    u, v, r, s := u0, v0, r0, s0;
    LexLessIsLess(v, u);
    var bigger := !LexLess(v, u);
    if bigger {
      SubStep(x, v, u, s, r);
      CoprimeSub(Val(u), Val(v));
      v := SubChain(v, u).0;
      bigger := !LexLess(r, s);
      if bigger {
        s := AddChain(s, QP_LIMBS).0;
      }
      s := SubChain(s, r).0;
    } else {
      SubStep(x, u, v, r, s);
      CoprimeSymmetric(Val(u), Val(v));
      CoprimeSub(Val(v), Val(u));
      CoprimeSymmetric(Val(v), Val(u) - Val(v));
      u := SubChain(u, v).0;
      bigger := !LexLess(s, r);
      if bigger {
        r := AddChain(r, QP_LIMBS).0;
      }
      r := SubChain(r, s).0;
    }
    if Val(u) == 0 {
      CoprimeSymmetric(Val(u), Val(v));
      CoprimeOne(Val(v), Val(u));
    }
    if Val(v) == 0 {
      CoprimeOne(Val(u), Val(v));
    }
  }

  /** The starting values `u = q, r = 0` and `v = x, s = R^2 mod q` satisfy the congruences. */
  lemma InverseStart(x: int)
    ensures Val(QP_LIMBS) == QP && Val(R_SQUARE) < QP
    ensures Tracks(x, 0, QP) && Tracks(x, Val(R_SQUARE), x)
  {
    Constants();
    MultipleMod(-RR, QP);
    assert x * (RR % QP) - x * RR == (-x * (RR / QP)) * QP;
    MultipleMod(-x * (RR / QP), QP);
  }

  /** When the tracked variable reaches 1 its partner is the Montgomery inverse, a nonzero reduced value. */
  lemma InverseEnd(x: int, r: int)
    requires Tracks(x, r, 1) && 0 <= r <= QP
    ensures 0 < r < QP && (x * r) % QP == RR % QP
  {
    Constants();
    CongruentMod(x * r, RR, QP);
    MultipleMod(x, QP);
    assert r == QP ==> x * r == x * QP;
  }

  class ElementP {
    /** The limbs, least significant first. */
    const z: array<U64>

    predicate Valid()
    {
      z.Length == 4
    }

    /** `GetUint64`: the limbs (a copy, as the value receiver makes one). */
    function Words(): Limbs
      reads z
      requires Valid()
    {
      z[..]
    }

    /** The number the limbs stand for (the Montgomery representative). */
    function Value(): nat
      reads z
      requires Valid()
    {
      Val(z[..])
    }

    /** The zero value `var el element_bn256p`. */
    constructor ()
      ensures Valid() && fresh(z) && Value() == 0
    {
      z := new U64[4](_ => 0);
    }

    /** Writes the four limbs of `z`. */
    method SetWords(a: Limbs)
      requires Valid()
      modifies z
      ensures Words() == a
    {
      z[0], z[1], z[2], z[3] := a[0], a[1], a[2], a[3];
    }

    /** `Set`: copies the limbs of `x`. */
    method Set(x: ElementP)
      requires Valid() && x.Valid()
      modifies z
      ensures Words() == old(x.Words())
    {
      SetWords(x.Words());
    }

    /** `SetZero`. */
    method SetZero()
      requires Valid()
      modifies z
      ensures Value() == 0
    {
      SetWords([0, 0, 0, 0]);
    }

    /** `SetOne`: the Montgomery form of 1. */
    method SetOne()
      requires Valid()
      modifies z
      ensures Value() == R % QP
    {
      Constants();
      SetWords(ONE);
    }

    /** `IsZero`: all four limbs are zero. */
    function IsZero(): (b: bool)
      reads z
      requires Valid()
      ensures b <==> Value() == 0
    {
      AllZeroIsZero(z[..]);
      AllZero(z[..])
    }

    /** `Equal`: limb by limb, that is, the same value. */
    function Equal(x: ElementP): (b: bool)
      reads z, x.z
      requires Valid() && x.Valid()
      ensures b <==> Value() == x.Value()
    {
      ValInjective(z[..], x.z[..]);
      z[3] == x.z[3] && z[2] == x.z[2] && z[1] == x.z[1] && z[0] == x.z[0]
    }

    /** `Neg`: zero stays zero, any other reduced `x` becomes `q - x`. */
    method Neg(x: ElementP)
      requires Valid() && x.Valid() && x.Value() < QP
      modifies z
      ensures Value() < QP && Value() == (-(old(x.Value()) as int)) % QP
      ensures old(x.Value()) != 0 ==> Value() == QP - old(x.Value())
    {
      ghost var xv: int := x.Value();
      if x.IsZero() {
        SetZero();
        return;
      }
      Constants();
      var xar := x.Words();
      SubChainBorrow(QP_LIMBS, xar);
      SetWords(SubChain(QP_LIMBS, xar).0);
      DivUnique(-xv, QP, -1, QP - xv);
    }

    /** `Add`: `z = x + y mod q`. */
    method Add(x: ElementP, y: ElementP)
      requires Valid() && x.Valid() && y.Valid() && x.Value() < QP && y.Value() < QP
      modifies z
      ensures Value() == (old(x.Value()) + old(y.Value())) % QP
    {
      var xw, yw := x.Words(), y.Words();
      assert Val(xw) == old(x.Value()) && Val(yw) == old(y.Value());
      var sum := AddMod(xw, yw);
      SetWords(sum);
    }

    /** `AddAssign`: `z = z + x mod q`. */
    method AddAssign(x: ElementP)
      requires Valid() && x.Valid() && Value() < QP && x.Value() < QP
      modifies z
      ensures Value() == (old(Value()) + old(x.Value())) % QP
    {
      var zw, xw := z[..], x.Words();
      assert Val(zw) == old(Value()) && Val(xw) == old(x.Value());
      var sum := AddMod(zw, xw);
      SetWords(sum);
    }

    /** `Double`: `z = x + x mod q`. */
    method Double(x: ElementP)
      requires Valid() && x.Valid() && x.Value() < QP
      modifies z
      ensures Value() == (2 * old(x.Value())) % QP
    {
      var xar := x.Words();
      assert Val(xar) == old(x.Value());
      var sum := AddMod(xar, xar);
      SetWords(sum);
    }

    /** `Sub`: `z = x - y mod q`, adding `q` back after a borrow. */
    method Sub(x: ElementP, y: ElementP)
      requires Valid() && x.Valid() && y.Valid() && x.Value() < QP && y.Value() < QP
      modifies z
      ensures Value() == (old(x.Value()) - old(y.Value())) % QP
    {
      var xar, yar := x.Words(), y.Words();
      assert Val(xar) == old(x.Value()) && Val(yar) == old(y.Value());
      var d := SubMod(xar, yar);
      SetWords(d);
    }

    /** `SubAssign`: `z = z - x mod q`. */
    method SubAssign(x: ElementP)
      requires Valid() && x.Valid() && Value() < QP && x.Value() < QP
      modifies z
      ensures Value() == (old(Value()) - old(x.Value())) % QP
    {
      var zar, xar := z[..], x.Words();
      assert Val(zar) == old(Value()) && Val(xar) == old(x.Value());
      var d := SubMod(zar, xar);
      SetWords(d);
    }

    /**
     * `SetRandom` on the 32 bytes the random source delivered: four
     * big-endian words, the top one reduced modulo the top limb of `q`, so
     * the value is below `q` and the final conditional subtraction is
     * unreachable.
     */
    method SetRandom(bytes: seq<Byte>)
      requires Valid() && |bytes| == 32
      modifies z
      ensures Value() < QP
      ensures Words() == [BeValue(bytes[0..8]), BeValue(bytes[8..16]), BeValue(bytes[16..24]),
                          BeValue(bytes[24..32]) % QP_LIMBS[3]]
    {
      Pow256Values();
      BeValueBound(bytes[0..8]);
      BeValueBound(bytes[8..16]);
      BeValueBound(bytes[16..24]);
      BeValueBound(bytes[24..32]);
      z[0] := BeValue(bytes[0..8]);
      z[1] := BeValue(bytes[8..16]);
      z[2] := BeValue(bytes[16..24]);
      z[3] := BeValue(bytes[24..32]);
      z[3] := z[3] % 3486998266802970665;
      Constants();
      LexLessIsLess(z[..], QP_LIMBS);
      if !LexLess(z[..], QP_LIMBS) {
        assert false;
      }
    }

    /**
     * `Inverse`: the binary extended Euclidean algorithm on Montgomery
     * values.  Zero is its own image; any other reduced `x` coprime to `q`
     * (every nonzero `x`, `q` being prime) gets the `z` with
     * `x * z ≡ 2^512 (mod q)`, which is `a^-1` in Montgomery form when `x`
     * is `a`.  The loop keeps `x*s ≡ v*R^2` and `x*r ≡ u*R^2`.
     */
    method Inverse(x: ElementP)
      requires Valid() && x.Valid() && x.Value() < QP
      requires x.Value() != 0 ==> Coprime(x.Value(), QP)
      modifies z
      ensures old(x.Value()) == 0 ==> Value() == 0
      ensures old(x.Value()) != 0 ==> 0 < Value() < QP && (old(x.Value()) * Value()) % QP == RR % QP
    {
      if x.IsZero() {
        Set(x);
        return;
      }
      var u := QP_LIMBS;
      var s := R_SQUARE;
      var r: Limbs := [0, 0, 0, 0];
      var v := x.Words();
      ghost var xv := Val(v);
      InverseStart(xv);
      CoprimeSymmetric(xv, QP);
      var uIsOne, vIsOne := false, false;
      while !uIsOne && !vIsOne
        invariant Tracks(xv, Val(s), Val(v)) && Tracks(xv, Val(r), Val(u))
        invariant Val(s) <= QP && Val(r) <= QP
        invariant Coprime(Val(u), Val(v))
        invariant uIsOne ==> Val(u) == 1
        invariant vIsOne ==> Val(v) == 1
        invariant !uIsOne && !vIsOne ==> Val(u) >= 1 && Val(v) >= 1
        decreases Val(u) + Val(v)
      {
        v, s := HalveWhileEven(xv, Val(u), v, s);
        CoprimeSymmetric(Val(u), Val(v));
        u, r := HalveWhileEven(xv, Val(v), u, r);
        CoprimeSymmetric(Val(v), Val(u));
        u, v, r, s := SubtractStep(xv, u, v, r, s);
        IsOneIsOne(u);
        IsOneIsOne(v);
        uIsOne := IsOne(u);
        vIsOne := IsOne(v);
      }
      if uIsOne {
        InverseEnd(xv, Val(r));
        SetWords(r);
      } else {
        InverseEnd(xv, Val(s));
        SetWords(s);
      }
    }
  }

  /** The value `Sub` leaves: the borrow chain, then `q` added back after a borrow. */
  lemma SubResult(x: int, y: int, d: Limbs, b: int)
    requires 0 <= x < QP && 0 <= y < QP
    requires b == 0 || b == 1
    requires Val(d) - R * b == x - y
    ensures var e := if b != 0 then AddChain(d, QP_LIMBS).0 else d;
      Val(e) == (x - y) % QP
  {
    Constants();
    ValBound(d);
    if b != 0 {
      var a := AddChain(d, QP_LIMBS);
      ValBound(a.0);
      assert Val(a.0) == x - y + QP;
      DivUnique(x - y, QP, -1, x - y + QP);
    } else {
      DivUnique(x - y, QP, 0, x - y);
    }
  }
}
