/**
 * Four-limb arithmetic underneath the field elements of package ff: 64-bit
 * words with the carry and borrow of Go's `math/bits`, the value of four
 * little-endian limbs, the carry and borrow chains the generated code spells
 * out limb by limb, its lexicographic comparison and its one-bit right shift.
 */
module Limbs {
  import opened Base

  const W: int := TWO64
  const W2: int := 0x1_0000_0000_0000_0000_0000_0000_0000_0000
  const W3: int := 0x1_0000_0000_0000_0000_0000_0000_0000_0000_0000_0000_0000_0000
  /** 2^256, the Montgomery radix of both fields. */
  const R: int := 0x1_0000_0000_0000_0000_0000_0000_0000_0000_0000_0000_0000_0000_0000_0000_0000_0000

  /** A `[4]uint64`, least significant limb first. */
  type Limbs = s: seq<U64> | |s| == 4 witness [0, 0, 0, 0]

  /** The number four limbs stand for. */
  function Val(a: Limbs): nat
  {
    a[0] + W * a[1] + W2 * a[2] + W3 * a[3]
  }

  lemma ValBound(a: Limbs)
    ensures Val(a) < R
  {
  }

  /** Limbs and values determine each other. */
  lemma ValInjective(a: Limbs, b: Limbs)
    ensures Val(a) == Val(b) <==> a == b
  {
    if Val(a) == Val(b) {
      assert a[3] == b[3];
      assert a[2] == b[2];
      assert a[1] == b[1];
      assert a[0] == b[0];
    }
  }

  /** `bits.Add64(x, y, c)`: the sum and the carry out. */
  function Add64(x: U64, y: U64, c: int): (r: (U64, int))
    requires c == 0 || c == 1
    ensures r.1 == 0 || r.1 == 1
    ensures r.0 + W * r.1 == x + y + c
  {
    if x + y + c < W then (x + y + c, 0) else (x + y + c - W, 1)
  }

  /** `bits.Sub64(x, y, b)`: the difference and the borrow out. */
  function Sub64(x: U64, y: U64, b: int): (r: (U64, int))
    requires b == 0 || b == 1
    ensures r.1 == 0 || r.1 == 1
    ensures r.0 - W * r.1 == x - y - b
  {
    if x - y - b >= 0 then (x - y - b, 0) else (x - y - b + W, 1)
  }

  /** `bits.Mul64(x, y)`: the high and low words of the product. */
  function Mul64(x: U64, y: U64): (r: (U64, U64))
    ensures r.0 * W + r.1 == x * y
  {
    MulBound(x, y);
    DivUnique(x * y, W, x * y / W, x * y % W);
    (x * y / W, x * y % W)
  }

  lemma MulBound(x: U64, y: U64)
    ensures 0 <= x * y <= (W - 1) * (W - 1)
  {
    MulMono(x, W - 1, y);
    MulMono(y, W - 1, W - 1);
  }

  /** A word times a four-limb value, limb by limb. */
  lemma MulVal(v: int, a: Limbs)
    ensures v * Val(a) == v * a[0] + W * (v * a[1]) + W2 * (v * a[2]) + W3 * (v * a[3])
  {
    Distribute(v, a[0], a[1], a[2], a[3], W, W2, W3);
  }

  lemma Distribute(v: int, a0: int, a1: int, a2: int, a3: int, w1: int, w2: int, w3: int)
    ensures v * (a0 + w1 * a1 + w2 * a2 + w3 * a3) == v * a0 + w1 * (v * a1) + w2 * (v * a2) + w3 * (v * a3)
  {
  }

  lemma MulMono(a: int, b: int, c: int)
    requires 0 <= a <= b && 0 <= c
    ensures 0 <= a * c <= b * c
  {
    assert b * c - a * c == (b - a) * c;
  }

  /**
   * Four `bits.Add64` calls chained through their carries; the carry out of
   * the top limb is the second component.
   */
  function AddChain(a: Limbs, b: Limbs): (r: (Limbs, int))
    ensures r.1 == 0 || r.1 == 1
    ensures Val(r.0) + R * r.1 == Val(a) + Val(b)
  {
    var s0 := Add64(a[0], b[0], 0);
    var s1 := Add64(a[1], b[1], s0.1);
    var s2 := Add64(a[2], b[2], s1.1);
    var s3 := Add64(a[3], b[3], s2.1);
    ([s0.0, s1.0, s2.0, s3.0], s3.1)
  }

  /** Four `bits.Sub64` calls chained through their borrows. */
  function SubChain(a: Limbs, b: Limbs): (r: (Limbs, int))
    ensures r.1 == 0 || r.1 == 1
    ensures Val(r.0) - R * r.1 == Val(a) - Val(b)
  {
    var d0 := Sub64(a[0], b[0], 0);
    var d1 := Sub64(a[1], b[1], d0.1);
    var d2 := Sub64(a[2], b[2], d1.1);
    var d3 := Sub64(a[3], b[3], d2.1);
    ([d0.0, d1.0, d2.0, d3.0], d3.1)
  }

  /** The borrow chain sets its borrow exactly when the subtrahend is larger. */
  lemma SubChainBorrow(a: Limbs, b: Limbs)
    ensures SubChain(a, b).1 == 1 <==> Val(a) < Val(b)
    ensures Val(a) >= Val(b) ==> Val(SubChain(a, b).0) == Val(a) - Val(b)
    ensures Val(a) < Val(b) ==> Val(SubChain(a, b).0) == Val(a) - Val(b) + R
  {
    ValBound(a);
    ValBound(b);
    ValBound(SubChain(a, b).0);
  }

  /** Without a carry out, the chain adds exactly. */
  lemma AddChainExact(a: Limbs, b: Limbs)
    requires Val(a) + Val(b) < R
    ensures Val(AddChain(a, b).0) == Val(a) + Val(b)
  {
    ValBound(AddChain(a, b).0);
  }

  /**
   * The comparison the generated code writes out limb by limb, most
   * significant first: `a < b`.
   */
  predicate LexLess(a: Limbs, b: Limbs)
  {
    a[3] < b[3] || (a[3] == b[3] && (a[2] < b[2] || (a[2] == b[2] && (a[1] < b[1] || (a[1] == b[1] && a[0] < b[0])))))
  }

  lemma LexLessIsLess(a: Limbs, b: Limbs)
    ensures LexLess(a, b) <==> Val(a) < Val(b)
  {
  }

  /**
   * The shift `v = v >> 1` of `Inverse`: each limb moves down one bit and
   * takes the low bit of the limb above as its top bit (`t2 = v[i+1] << 63`,
   * `v[i] = (v[i] >> 1) | t`; the two parts occupy disjoint bits, so the
   * `|` is an addition).
   */
  function Shr1(a: Limbs): (r: Limbs)
    ensures Val(r) == Val(a) / 2
    ensures 2 * Val(r) + a[0] % 2 == Val(a)
  {
    var r := [a[0] / 2 + a[1] % 2 * TWO63, a[1] / 2 + a[2] % 2 * TWO63, a[2] / 2 + a[3] % 2 * TWO63, a[3] / 2];
    DivUnique(Val(a), 2, Val(r), a[0] % 2);
    r
  }

  /** The low bit of the low limb is the parity of the value (`v[0]&1`). */
  lemma LowBitParity(a: Limbs)
    ensures a[0] % 2 == Val(a) % 2
  {
    DivUnique(Val(a), 2, a[0] / 2 + (W / 2) * a[1] + (W2 / 2) * a[2] + (W3 / 2) * a[3], a[0] % 2);
  }

  /** `(a[3]|a[2]|a[1]|a[0]) == 0`: an OR of words is zero exactly when each word is. */
  predicate AllZero(a: Limbs)
  {
    a[3] == 0 && a[2] == 0 && a[1] == 0 && a[0] == 0
  }

  lemma AllZeroIsZero(a: Limbs)
    ensures AllZero(a) <==> Val(a) == 0
  {
  }

  /** `(a[0] == 1) && (a[3]|a[2]|a[1]) == 0`. */
  predicate IsOne(a: Limbs)
  {
    a[0] == 1 && a[3] == 0 && a[2] == 0 && a[1] == 0
  }

  lemma IsOneIsOne(a: Limbs)
    ensures IsOne(a) <==> Val(a) == 1
  {
  }

  /**
   * The word helpers of the Montgomery product.  Their source is not part of
   * this model; each is defined by the arithmetic it performs on 64-bit words.
   */

  /** `madd0(a, b, c)`: the high word of `a*b + c`. */
  function Madd0(a: U64, b: U64, c: U64): (hi: U64)
    ensures (a * b + c) % W == 0 ==> hi * W == a * b + c
  {
    MulBound(a, b);
    (a * b + c) / W
  }

  /** `madd1(a, b, c)`: `a*b + c` as two words. */
  function Madd1(a: U64, b: U64, c: U64): (r: (U64, U64))
    ensures r.0 * W + r.1 == a * b + c
  {
    MulBound(a, b);
    ((a * b + c) / W, (a * b + c) % W)
  }

  /** `madd2(a, b, c, d)`: `a*b + c + d` as two words. */
  function Madd2(a: U64, b: U64, c: U64, d: U64): (r: (U64, U64))
    ensures r.0 * W + r.1 == a * b + c + d
  {
    MulBound(a, b);
    ((a * b + c + d) / W, (a * b + c + d) % W)
  }

  /** `madd3(a, b, c, d, e)`: `a*b + c + d + e*2^64` as two words, the carry out of the high word dropped. */
  function Madd3(a: U64, b: U64, c: U64, d: U64, e: U64): (r: (U64, U64))
    ensures a * b + c + d + e * W < W2 ==> r.0 * W + r.1 == a * b + c + d + e * W
  {
    MulBound(a, b);
    var s := (a * b + c + d + e * W) % W2;
    (s / W, s % W)
  }
}
