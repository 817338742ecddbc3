/**
 * The Montgomery product of the BN256 base field (ff/element_bn256q_mul.go):
 * four rounds of the "no-carry" CIOS multiplication over 64-bit words, then
 * the conditional subtraction of
 * `q = 21888242871839275222246405745257275088696311157297823662689037894645226208583`.
 * An element `a` is stored as `a * 2^256 mod q`, so the product of two
 * stored values `x`, `y` is the `z` with `z * 2^256 ≡ x * y (mod q)`.
 */
module FieldQ {
  import opened Base
  import opened Limbs
  import opened ModArith

  const QQ: int := 21888242871839275222246405745257275088696311157297823662689037894645226208583
  const Q0: U64 := 4332616871279656263
  const Q1: U64 := 10917124144477883021
  const Q2: U64 := 13281191951274694749
  const Q3: U64 := 3486998266802970665
  const QQ_LIMBS: Limbs := [Q0, Q1, Q2, Q3]
  /** `-q^-1 mod 2^64`, the constant each round multiplies its low word by. */
  const Q_INV_NEG: U64 := 9786893198990664585

  /** The limbs of the modulus; it is odd, has a spare top bit, and `Q_INV_NEG * q ≡ -1 (mod 2^64)`. */
  lemma Modulus()
    ensures Val(QQ_LIMBS) == QQ && QQ == Q0 + W * Q1 + W2 * Q2 + W3 * Q3
    ensures QQ % 2 == 1 && 2 * QQ < R && 0 < QQ
    ensures (Q_INV_NEG * Q0 + 1) % W == 0
  {
  }

  /** The word `m` of a round: the low word times `Q_INV_NEG`, wrapping as a `uint64` product does. */
  function MontWord(c: U64): (m: U64)
    ensures (m * Q0 + c) % W == 0
  {
    Modulus();
    MontFactor(c, Q_INV_NEG, Q0, W);
    (c * Q_INV_NEG) % W
  }

  /**
   * Rounds 1 to 3 of `Mul`: `v` is the next limb of the first factor, `t`
   * the accumulator; `c[1], c[0]` and `c[2]` are the two carry chains, one
   * adding `v * y`, the other `m * q`.
   */
  function Round(t: Limbs, v: U64, y: Limbs): Limbs
  {
    var a := Madd1(v, y[0], t[0]);
    var m := MontWord(a.1);
    var c2 := Madd0(m, Q0, a.1);
    var b := Madd2(v, y[1], a.0, t[1]);
    var d := Madd2(m, Q1, c2, b.1);
    var e := Madd2(v, y[2], b.0, t[2]);
    var f := Madd2(m, Q2, d.0, e.1);
    var g := Madd2(v, y[3], e.0, t[3]);
    var h := Madd3(m, Q3, g.1, f.0, g.0);
    [d.1, f.1, h.1, h.0]
  }

  /** Round 0 of `Mul`: the accumulator is still empty, so `bits.Mul64` and `madd1` stand for `madd1` and `madd2`. */
  function Round0(v: U64, y: Limbs): Limbs
  {
    var a := Mul64(v, y[0]);
    var m := MontWord(a.1);
    var c2 := Madd0(m, Q0, a.1);
    var b := Madd1(v, y[1], a.0);
    var d := Madd2(m, Q1, c2, b.1);
    var e := Madd1(v, y[2], b.0);
    var f := Madd2(m, Q2, d.0, e.1);
    var g := Madd1(v, y[3], e.0);
    var h := Madd3(m, Q3, g.1, f.0, g.0);
    [d.1, f.1, h.1, h.0]
  }

  /** Round 0 is the general round started from a zero accumulator. */
  lemma Round0IsRound(v: U64, y: Limbs)
    ensures Round0(v, y) == Round([0, 0, 0, 0], v, y)
  {
    MulBound(v, y[0]);
    assert Mul64(v, y[0]) == Madd1(v, y[0], 0);
    var a := Mul64(v, y[0]);
    assert Madd1(v, y[1], a.0) == Madd2(v, y[1], a.0, 0);
    var b := Madd1(v, y[1], a.0);
    assert Madd1(v, y[2], b.0) == Madd2(v, y[2], b.0, 0);
    var e := Madd1(v, y[2], b.0);
    assert Madd1(v, y[3], e.0) == Madd2(v, y[3], e.0, 0);
  }

  /**
   * One round divides `t + v*y + m*q` by `2^64` exactly, for the `m` it
   * chooses, and keeps the accumulator below `2q`; the top word's carry
   * that `madd3` drops is therefore zero.
   */
  lemma RoundValue(t: Limbs, v: U64, y: Limbs) returns (m: U64)
    requires Val(t) < 2 * QQ && Val(y) < QQ
    ensures Val(Round(t, v, y)) * W == Val(t) + v * Val(y) + m * QQ
    ensures Val(Round(t, v, y)) < 2 * QQ
  {
    Modulus();
    var a := Madd1(v, y[0], t[0]);
    m := MontWord(a.1);
    var c2 := Madd0(m, Q0, a.1);
    var b := Madd2(v, y[1], a.0, t[1]);
    var d := Madd2(m, Q1, c2, b.1);
    var e := Madd2(v, y[2], b.0, t[2]);
    var f := Madd2(m, Q2, d.0, e.1);
    var g := Madd2(v, y[3], e.0, t[3]);
    var big := m * Q3 + g.1 + f.0 + g.0 * W;
    var s := Val(t) + v * Val(y) + m * QQ;
    MulVal(v, y);
    MulVal(m, QQ_LIMBS);
    RoundCarries(t[0], t[1], t[2], t[3], v * y[0], v * y[1], v * y[2], v * y[3], m * Q0, m * Q1, m * Q2, m * Q3,
                 a.0, a.1, c2, b.0, b.1, d.0, d.1, e.0, e.1, f.0, f.1, g.0, g.1);
    assert s == W * (d.1 + W * f.1 + W2 * big);
    RoundBound(Val(t), Val(y), v, m, d.1 + W * f.1 + W2 * big, d.1, f.1, big);
    var h := Madd3(m, Q3, g.1, f.0, g.0);
    var r: Limbs := [d.1, f.1, h.1, h.0];
    assert Round(t, v, y) == r;
    ValTop(r, d.1 + W * f.1 + W2 * big, big);
  }

  /** Limbs whose upper two words hold `big` are worth their lower words plus `W2 * big`. */
  lemma ValTop(r: Limbs, x: int, big: int)
    requires r[2] + W * r[3] == big && x == r[0] + W * r[1] + W2 * big
    ensures Val(r) == x
  {
  }

  /** A round's sum, divided by `2^64`, stays below `2q`, so its top limbs fit two words. */
  lemma RoundBound(tv: int, yv: int, v: U64, m: U64, x: int, d1: U64, f1: U64, big: int)
    requires 0 <= tv < 2 * QQ && 0 <= yv < QQ
    requires tv + v * yv + m * QQ == W * x && x == d1 + W * f1 + W2 * big
    ensures x < 2 * QQ && big < W2
  {
    Modulus();
    MulMono(v, W - 1, yv);
    MulMono(m, W - 1, QQ);
    assert W * x < 2 * QQ * W;
  }

  /** The carry chain of one round, with the word products as plain numbers. */
  lemma RoundCarries(t0: int, t1: int, t2: int, t3: int, p0: int, p1: int, p2: int, p3: int,
                     q0: int, q1: int, q2: int, q3: int, a0: int, a1: int, c2: int, b0: int, b1: int,
                     d0: int, d1: int, e0: int, e1: int, f0: int, f1: int, g0: int, g1: int)
    requires a0 * W + a1 == p0 + t0 && c2 * W == q0 + a1
    requires b0 * W + b1 == p1 + a0 + t1 && d0 * W + d1 == q1 + c2 + b1
    requires e0 * W + e1 == p2 + b0 + t2 && f0 * W + f1 == q2 + d0 + e1
    requires g0 * W + g1 == p3 + e0 + t3
    ensures (t0 + W * t1 + W2 * t2 + W3 * t3) + (p0 + W * p1 + W2 * p2 + W3 * p3) + (q0 + W * q1 + W2 * q2 + W3 * q3)
            == W * (d1 + W * f1 + W2 * (q3 + g1 + f0 + g0 * W))
  {
  }

  /** The four rounds of `Mul` on the limbs of `x` and `y`, before the final subtraction. */
  function MontRounds(x: Limbs, y: Limbs): Limbs
  {
    Round(Round(Round(Round0(x[0], y), x[1], y), x[2], y), x[3], y)
  }

  /** For reduced factors the rounds leave a value below `2q` that is `x*y*2^-256` modulo `q`. */
  lemma MontRoundsValue(x: Limbs, y: Limbs)
    requires Val(x) < QQ && Val(y) < QQ
    ensures Val(MontRounds(x, y)) < 2 * QQ
    ensures (Val(MontRounds(x, y)) * R) % QQ == (Val(x) * Val(y)) % QQ
  {
    Modulus();
    Round0IsRound(x[0], y);
    var t1 := Round0(x[0], y);
    var m0 := RoundValue([0, 0, 0, 0], x[0], y);
    var t2 := Round(t1, x[1], y);
    var m1 := RoundValue(t1, x[1], y);
    var t3 := Round(t2, x[2], y);
    var m2 := RoundValue(t2, x[2], y);
    var t4 := Round(t3, x[3], y);
    var m3 := RoundValue(t3, x[3], y);
    var mm := m0 + W * m1 + W2 * m2 + W3 * m3;
    FourRounds(W, R, Val(y), QQ, Val(x), x[0], x[1], x[2], x[3], mm, m0, m1, m2, m3,
               Val(t1), Val(t2), Val(t3), Val(t4));
    CongruentBy(Val(t4) * R, Val(x) * Val(y), mm, QQ);
  }

  /**
   * `if z > q --> z -= q`: the limbs compare at least `q` exactly when `q`
   * is subtracted; below `2q` that leaves the remainder modulo `q`.
   */
  function Reduce(a: Limbs): (r: Limbs)
    ensures LexLess(a, QQ_LIMBS) ==> r == a
    ensures Val(a) < 2 * QQ ==> Val(r) == Val(a) % QQ
  {
    ReduceValue(a);
    if !LexLess(a, QQ_LIMBS) then SubChain(a, QQ_LIMBS).0 else a
  }

  lemma ReduceValue(a: Limbs)
    ensures Val(a) < 2 * QQ ==>
      Val(if !LexLess(a, QQ_LIMBS) then SubChain(a, QQ_LIMBS).0 else a) == Val(a) % QQ
  {
    Modulus();
    LexLessIsLess(a, QQ_LIMBS);
    SubChainBorrow(a, QQ_LIMBS);
    if Val(a) < 2 * QQ {
      if Val(a) >= QQ {
        DivUnique(Val(a), QQ, 1, Val(a) - QQ);
      } else {
        DivUnique(Val(a), QQ, 0, Val(a));
      }
    }
  }

  /** The whole product: the rounds, then the conditional subtraction. */
  function MontMul(x: Limbs, y: Limbs): (r: Limbs)
    requires Val(x) < QQ && Val(y) < QQ
    ensures Val(r) < QQ && (Val(r) * R) % QQ == (Val(x) * Val(y)) % QQ
  {
    MontRoundsValue(x, y);
    var r := Reduce(MontRounds(x, y));
    Modulus();
    MontScaled(Val(MontRounds(x, y)), Val(r));
    r
  }

  /** Scaling by `R` respects congruence modulo `q`. */
  lemma MontScaled(t: int, r: int)
    requires 0 <= t && r == t % QQ
    ensures (r * R) % QQ == (t * R) % QQ
  {
    Modulus();
    assert t * R - r * R == ((t / QQ) * R) * QQ;
    CongruentBy(t * R, r * R, (t / QQ) * R, QQ);
  }

  /**
   * One round of `fromMont`: with `m` chosen so that `z + m*q` is a multiple
   * of `2^64`, the limbs shift down one word (`C` is the carry chain).
   */
  function FromMontRound(z: Limbs): Limbs
  {
    var m := MontWord(z[0]);
    var c := Madd0(m, Q0, z[0]);
    var a := Madd2(m, Q1, z[1], c);
    var b := Madd2(m, Q2, z[2], a.0);
    var d := Madd2(m, Q3, z[3], b.0);
    [a.1, b.1, d.1, d.0]
  }

  /** A `fromMont` round divides `z + m*q` by `2^64` exactly; nothing is dropped. */
  lemma FromMontRoundValue(z: Limbs) returns (m: U64)
    ensures Val(FromMontRound(z)) * W == Val(z) + m * QQ
  {
    Modulus();
    m := MontWord(z[0]);
    var c := Madd0(m, Q0, z[0]);
    var a := Madd2(m, Q1, z[1], c);
    var b := Madd2(m, Q2, z[2], a.0);
    var d := Madd2(m, Q3, z[3], b.0);
    MulVal(m, QQ_LIMBS);
    assert FromMontRound(z) == [a.1, b.1, d.1, d.0];
  }

  /** The four rounds of `fromMont`, before the final subtraction. */
  function FromMontRounds(z: Limbs): Limbs
  {
    FromMontRound(FromMontRound(FromMontRound(FromMontRound(z))))
  }

  /** Four rounds bring any 256-bit value to at most `q`, congruent to `z * 2^-256`. */
  lemma FromMontRoundsValue(z: Limbs)
    ensures Val(FromMontRounds(z)) <= QQ
    ensures (Val(FromMontRounds(z)) * R) % QQ == Val(z) % QQ
  {
    Modulus();
    var z1 := FromMontRound(z);
    var m0 := FromMontRoundValue(z);
    var z2 := FromMontRound(z1);
    var m1 := FromMontRoundValue(z1);
    var z3 := FromMontRound(z2);
    var m2 := FromMontRoundValue(z2);
    var z4 := FromMontRound(z3);
    var m3 := FromMontRoundValue(z3);
    var mm := m0 + W * m1 + W2 * m2 + W3 * m3;
    FourReductions(W, R, QQ, Val(z), mm, m0, m1, m2, m3, Val(z1), Val(z2), Val(z3), Val(z4));
    ValBound(z);
    assert mm < R;
    assert Val(z4) * R < R * (QQ + 1);
    CongruentBy(Val(z4) * R, Val(z), mm, QQ);
  }

  /** The whole `fromMont`: the rounds, then the conditional subtraction. */
  function FromMont(z: Limbs): (r: Limbs)
    ensures Val(r) < QQ && (Val(r) * R) % QQ == Val(z) % QQ
  {
    FromMontRoundsValue(z);
    var r := Reduce(FromMontRounds(z));
    Modulus();
    MontScaled(Val(FromMontRounds(z)), Val(r));
    r
  }

  class ElementQ {
    /** The limbs, least significant first. */
    const z: array<U64>

    predicate Valid()
    {
      z.Length == 4
    }

    /** `GetUint64`: the limbs (a copy, as the value receiver makes one). */
    function Words(): Limbs
      reads z
      requires Valid()
    {
      z[..]
    }

    /** The number the limbs stand for (the Montgomery representative). */
    function Value(): nat
      reads z
      requires Valid()
    {
      Val(z[..])
    }

    /** The zero value `var el element_bn256q`. */
    constructor ()
      ensures Valid() && fresh(z) && Value() == 0
    {
      z := new U64[4](_ => 0);
    }

    /** Writes the four limbs of `z`. */
    method SetWords(a: Limbs)
      requires Valid()
      modifies z
      ensures Words() == a
    {
      z[0], z[1], z[2], z[3] := a[0], a[1], a[2], a[3];
    }

    /**
     * `reduceelement_bn256q`: subtracts `q` exactly when the limbs compare
     * at least `q`; from below `2q` it reaches the remainder.
     */
    method ReduceInPlace()
      requires Valid()
      modifies z
      ensures Words() == Reduce(old(Words()))
    {
      if !LexLess(z[..], QQ_LIMBS) {
        SetWords(SubChain(z[..], QQ_LIMBS).0);
      }
    }

    /** `Mul`: `z = x * y * 2^-256 mod q`, the Montgomery product of two reduced values. */
    method Mul(x: ElementQ, y: ElementQ)
      requires Valid() && x.Valid() && y.Valid() && x.Value() < QQ && y.Value() < QQ
      modifies z
      ensures Value() < QQ
      ensures (Value() * R) % QQ == (old(x.Value()) * old(y.Value())) % QQ
    {
      var xar, yar := x.Words(), y.Words();
      assert Val(xar) == old(x.Value()) && Val(yar) == old(y.Value());
      var t := Round0(xar[0], yar);
      t := Round(t, xar[1], yar);
      t := Round(t, xar[2], yar);
      t := Round(t, xar[3], yar);
      SetWords(t);
      ReduceInPlace();
      assert Words() == MontMul(xar, yar);
    }

    /** `MulAssign`: `z = z * x * 2^-256 mod q`, the rounds reading the old limbs of `z`. */
    method MulAssign(x: ElementQ)
      requires Valid() && x.Valid() && Value() < QQ && x.Value() < QQ
      modifies z
      ensures Value() < QQ
      ensures (Value() * R) % QQ == (old(Value()) * old(x.Value())) % QQ
    {
      var zar, xar := z[..], x.Words();
      assert Val(zar) == old(Value()) && Val(xar) == old(x.Value());
      var t := Round0(zar[0], xar);
      t := Round(t, zar[1], xar);
      t := Round(t, zar[2], xar);
      t := Round(t, zar[3], xar);
      SetWords(t);
      ReduceInPlace();
      assert Words() == MontMul(zar, xar);
    }

    /** `fromMontelement_bn256q`: `z = z * 1` in Montgomery arithmetic, that is `z * 2^-256 mod q`. */
    method FromMontInPlace()
      requires Valid()
      modifies z
      ensures Value() < QQ
      ensures (Value() * R) % QQ == old(Value()) % QQ
    {
      var zar := z[..];
      SetWords(FromMontRound(z[..]));
      SetWords(FromMontRound(z[..]));
      SetWords(FromMontRound(z[..]));
      SetWords(FromMontRound(z[..]));
      ReduceInPlace();
      assert Words() == FromMont(zar);
    }
  }
}
