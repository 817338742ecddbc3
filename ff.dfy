/**
 * The generic wrapper of package ff (ff/ff.go): the two field types, the
 * constructor that dispatches on them, the conversion from a dynamically
 * typed value, and the bit queries on the regular (non-Montgomery) limbs.
 */
module Ff {
  import opened Base
  import opened Limbs

  /** `FF_BN256_FQ`, the base field. */
  const FF_BN256_FQ: int := 0
  /** `FF_BN256_FP`, the scalar field. */
  const FF_BN256_FP: int := 1
  const DEFAULT_PRIME: int := FF_BN256_FP

  /** The concrete element types behind the `Element` interface. */
  datatype FieldKind = Bn256Q | Bn256P

  /** `IsValid`: the field types the wrapper knows. */
  predicate IsValid(t: int)
  {
    t == FF_BN256_FP || t == FF_BN256_FQ
  }

  /** The field a type code selects. */
  function KindOf(t: int): Option<FieldKind>
  {
    if t == FF_BN256_FQ then Some(Bn256Q)
    else if t == FF_BN256_FP then Some(Bn256P)
    else None
  }

  /** `NewElement`: a zero element of the selected field, or "Invalid FF type". */
  function NewElement(t: int): (r: Result<FieldKind>)
    ensures r.Err? <==> !IsValid(t)
    ensures r.Err? ==> r.error == InvalidFieldType
    ensures r.Ok? ==> Some(r.value) == KindOf(t) && TypeCode(r.value) == t
  {
    if t == FF_BN256_FQ then Ok(Bn256Q)
    else if t == FF_BN256_FP then Ok(Bn256P)
    else Err(InvalidFieldType)
  }

  /** The type code of a field. */
  function TypeCode(k: FieldKind): int
  {
    match k
    case Bn256Q => FF_BN256_FQ
    case Bn256P => FF_BN256_FP
  }

  /** The code of each field is valid and selects that field again. */
  lemma TypeCodeRoundTrip(k: FieldKind)
    ensures IsValid(TypeCode(k)) && NewElement(TypeCode(k)) == Ok(k)
  {
  }

  /** An element of either field, by its kind and its limbs. */
  datatype Element = Element(kind: FieldKind, limbs: Limbs)

  /** The dynamic types `FromInterface` is handed. */
  datatype Dynamic =
    | DynUint64(u: U64)
    | DynInt(i: int)
    | DynString(s: string)
    | DynBigInt(n: int)
    | DynElement(e: Element)
    | DynOther

  /**
   * What `FromInterface` does with the fresh element: the setter it calls
   * (`SetUint64`, `SetString` of `strconv.Itoa`, `SetString`, `SetBigInt`),
   * or the given element returned in its place.
   */
  datatype Converted =
    | SetFromUint64(kind: FieldKind, u: U64)
    | SetFromDecimal(kind: FieldKind, i: int)
    | SetFromString(kind: FieldKind, s: string)
    | SetFromBigInt(kind: FieldKind, n: int)
    | Passed(e: Element)

  /** `FromInterface`: the field type is checked before the dynamic type. */
  function FromInterface(x: Dynamic, t: int): (r: Result<Converted>)
    ensures !IsValid(t) ==> r == Err(InvalidFieldType)
    ensures IsValid(t) ==> (r.Err? <==> x.DynOther?)
    ensures IsValid(t) && x.DynOther? ==> r == Err(InvalidInputType)
    ensures r.Ok? && !r.value.Passed? ==> Some(r.value.kind) == KindOf(t)
  {
    var val :- NewElement(t);
    match x
    case DynUint64(u) => Ok(SetFromUint64(val, u))
    case DynInt(i) => Ok(SetFromDecimal(val, i))
    case DynString(s) => Ok(SetFromString(val, s))
    case DynBigInt(n) => Ok(SetFromBigInt(val, n))
    case DynElement(e) => Ok(Passed(e))
    case DynOther => Err(InvalidInputType)
  }

  /**
   * An element handed in as such is returned itself, whatever field the
   * requested type names: the result may belong to another field than `t`.
   */
  lemma FromInterfacePassesElements(e: Element, t: int)
    requires IsValid(t)
    ensures FromInterface(DynElement(e), t) == Ok(Passed(e))
    ensures e.kind != KindOf(t).value ==> FromInterface(DynElement(e), t).value.e.kind != KindOf(t).value
  {
  }

  function Pow2(k: nat): (r: nat)
    ensures r > 0
  {
    if k == 0 then 1 else 2 * Pow2(k - 1)
  }

  lemma {:induction false} Pow2Add(a: nat, b: nat)
    ensures Pow2(a + b) == Pow2(a) * Pow2(b)
  {
    if a > 0 {
      Pow2Add(a - 1, b);
      assert Pow2(a + b) == 2 * Pow2(a - 1 + b);
    }
  }

  lemma Pow2Words()
    ensures Pow2(64) == W && Pow2(128) == W2 && Pow2(192) == W3
  {
    Pow2Word();
    Pow2Add(64, 64);
    Pow2Add(128, 64);
  }

  /** `2^64`, the word base. */
  lemma Pow2Word()
    ensures Pow2(64) == W
  {
    Pow2Half();
    Pow2Add(32, 32);
  }

  lemma Pow2Half()
    ensures Pow2(32) == TWO32
  {
    assert Pow2(4) == 16;
    assert Pow2(8) == 256 by { Pow2Add(4, 4); }
    assert Pow2(16) == 0x1_0000 by { Pow2Add(8, 8); }
    Pow2Add(16, 16);
  }

  /** Dividing in two steps is dividing by the product. */
  lemma DivDiv(a: nat, b: nat, c: nat)
    requires b > 0 && c > 0
    ensures a / (b * c) == (a / b) / c
  {
    var q := (a / b) / c;
    var rest := (a / b) % c;
    assert a == b * (a / b) + a % b;
    assert a / b == c * q + rest;
    assert a == (b * c) * q + (b * rest + a % b) by {
      assert b * (c * q + rest) == (b * c) * q + b * rest;
    }
    assert b * rest + a % b < b * c by {
      assert rest <= c - 1;
      MulMono(rest, c - 1, b);
      assert b * rest <= b * (c - 1) == b * c - b;
    }
    DivUnique(a, b * c, q, b * rest + a % b);
  }

  /**
   * `Bit`: bit `b mod 64` of limb `b / 64`, `(n[word] >> bit) & 0x1`; an
   * index outside the 256 bits panics in Go (index out of range), which the
   * requires excludes.
   */
  function Bit(n: Limbs, b: int): (r: int)
    requires 0 <= b < 256
    ensures r == 0 || r == 1
  {
    (n[b / 64] / Pow2(b % 64)) % 2
  }

  /** A bit of the limb below a word boundary is a bit of the whole number. */
  lemma BitOfWord(x: U64, rest: nat, k: nat)
    requires k < 64
    ensures ((x + W * rest) / Pow2(k)) % 2 == (x / Pow2(k)) % 2
  {
    Pow2Split(k);
    DigitBelow(x, rest, Pow2(k), Pow2(64 - k), W);
  }

  /** `2^64` splits at any bit below it into two powers, the upper one even. */
  lemma Pow2Split(k: nat)
    requires k < 64
    ensures Pow2(k) * Pow2(64 - k) == W && Pow2(64 - k) % 2 == 0
  {
    var j := 64 - k;
    Pow2Add(k, j);
    Pow2Word();
    assert Pow2(j) == 2 * Pow2(j - 1);
    DivUnique(Pow2(j), 2, Pow2(j - 1), 0);
  }

  /** Adding a multiple of `p * up`, `up` even, leaves the parity of the quotient by `p`. */
  lemma DigitBelow(x: nat, rest: nat, p: int, up: int, w: int)
    requires p > 0 && up > 0 && up % 2 == 0 && w == p * up
    ensures ((x + w * rest) / p) % 2 == (x / p) % 2
  {
    var h := up / 2;
    assert w * rest == p * (up * rest);
    assert x == p * (x / p) + x % p;
    assert x + w * rest == p * (x / p + up * rest) + x % p;
    DivUnique(x + w * rest, p, x / p + up * rest, x % p);
    assert up * rest == 2 * (h * rest);
    DivUnique(x / p + up * rest, 2, x / p / 2 + h * rest, (x / p) % 2);
  }

  /** `Bit` reads the binary digits of the value the limbs stand for. */
  lemma BitOfValue(n: Limbs, b: int)
    requires 0 <= b < 256
    ensures Bit(n, b) == (Val(n) / Pow2(b)) % 2
  {
    var w, k := b / 64, b % 64;
    assert b == 64 * w + k;
    DigitOfValue(n, w, k);
  }

  /** Bit `k` of limb `w` is binary digit `64*w + k` of the value. */
  lemma DigitOfValue(n: Limbs, w: int, k: nat)
    requires 0 <= w < 4 && k < 64
    ensures (n[w] / Pow2(k)) % 2 == (Val(n) / Pow2(64 * w + k)) % 2
  {
    var rest := WordsFrom(n, w);
    var v, a, b := Val(n), Pow2(64 * w), Pow2(k);
    Pow2Add(64 * w, k);
    DivDiv(v, a, b);
    assert v / a == n[w] + W * rest;
    BitOfWord(n[w], rest, k);
  }

  /** Dropping the `w` low limbs leaves limb `w` plus `2^64` times the limbs above it. */
  lemma WordsFrom(n: Limbs, w: int) returns (rest: nat)
    requires 0 <= w < 4
    ensures Val(n) / Pow2(64 * w) == n[w] + W * rest
  {
    Pow2Words();
    var v := Val(n);
    if w == 0 {
      rest := n[1] + W * n[2] + W2 * n[3];
      assert Pow2(64 * w) == 1;
      DivUnique(v, 1, n[0] + W * rest, 0);
    } else if w == 1 {
      rest := n[2] + W * n[3];
      assert Pow2(64 * w) == W;
      DivUnique(v, W, n[1] + W * rest, n[0]);
    } else if w == 2 {
      rest := n[3];
      assert Pow2(64 * w) == W2;
      DivUnique(v, W2, n[2] + W * rest, n[0] + W * n[1]);
    } else {
      rest := 0;
      assert Pow2(64 * w) == W3;
      DivUnique(v, W3, n[3], n[0] + W * n[1] + W2 * n[2]);
    }
  }

  /** A nonzero word has a set bit. */
  lemma WordHasBit(x: U64) returns (k: nat)
    requires x != 0
    ensures k < 64 && (x / Pow2(k)) % 2 == 1
  {
    assert x < Pow2(64) by { Pow2Words(); }
    k := HasBitBelow(x, 64);
  }

  /** A nonzero number below `2^m` has a binary digit 1 below `m`. */
  lemma {:induction false} HasBitBelow(x: nat, m: nat) returns (k: nat)
    requires 0 < x < Pow2(m)
    ensures k < m && (x / Pow2(k)) % 2 == 1
  {
    if x % 2 == 1 {
      k := 0;
    } else {
      assert m > 0;
      assert x / 2 < Pow2(m - 1);
      var k1 := HasBitBelow(x / 2, m - 1);
      Pow2Add(1, k1);
      DivDiv(x, 2, Pow2(k1));
      k := k1 + 1;
    }
  }

  /** The value is zero exactly when no bit is set. */
  lemma ZeroIffNoBits(n: Limbs)
    ensures Val(n) == 0 <==> forall j :: 0 <= j < 256 ==> Bit(n, j) == 0
  {
    if Val(n) == 0 {
      forall j | 0 <= j < 256
        ensures Bit(n, j) == 0
      {
        BitOfValue(n, j);
      }
    } else {
      var i := if n[0] != 0 then 0 else if n[1] != 0 then 1 else if n[2] != 0 then 2 else 3;
      var k := WordHasBit(n[i]);
      assert (64 * i + k) / 64 == i && (64 * i + k) % 64 == k;
      assert Bit(n, 64 * i + k) == 1;
    }
  }

  /**
   * `Msb` on the regular limbs: scans from bit 255 down and returns the
   * first set bit, or 0 when there is none.
   */
  method Msb(n: Limbs) returns (r: int)
    ensures 0 <= r < 256
    ensures Val(n) == 0 ==> r == 0
    ensures Val(n) != 0 ==> Bit(n, r) == 1 && forall j :: r < j < 256 ==> Bit(n, j) == 0
  {
    var idx := 255;
    while idx >= 0
      invariant -1 <= idx <= 255
      invariant forall j :: idx < j < 256 ==> Bit(n, j) == 0
    {
      var word := idx / 64;
      var bit := idx % 64;
      var digit := (n[word] / Pow2(bit)) % 2;
      assert digit == Bit(n, idx);
      if digit == 1 {
        ZeroIffNoBits(n);
        return idx;
      }
      idx := idx - 1;
    }
    ZeroIffNoBits(n);
    return 0;
  }

  /**
   * For a nonzero value the most significant bit bounds it:
   * `2^Msb <= value < 2^(Msb+1)`.
   */
  lemma MsbBounds(n: Limbs, r: int)
    requires 0 <= r < 256 && Val(n) != 0
    requires Bit(n, r) == 1 && forall j :: r < j < 256 ==> Bit(n, j) == 0
    ensures Pow2(r) <= Val(n) < Pow2(r + 1)
  {
    SetBitBound(n, r);
    if Val(n) >= Pow2(r + 1) {
      var j := HighSetBit(n, r + 1);
      assert false;
    }
  }

  /** A set bit `r` makes the value at least `2^r`. */
  lemma SetBitBound(n: Limbs, r: int)
    requires 0 <= r < 256 && Bit(n, r) == 1
    ensures Pow2(r) <= Val(n)
  {
    BitOfValue(n, r);
    OddDigit(Val(n), Pow2(r));
  }

  /** A number whose quotient by `p` is odd is at least `p`. */
  lemma OddDigit(a: nat, p: nat)
    requires p > 0 && (a / p) % 2 == 1
    ensures a >= p
  {
    DivAtLeastOne(a, p);
  }

  /** A value of at least `2^m` has a set bit at `m` or above. */
  lemma HighSetBit(n: Limbs, m: nat) returns (j: int)
    requires m <= 256 && Pow2(m) <= Val(n)
    ensures m <= j < 256 && Bit(n, j) == 1
  {
    assert Val(n) < Pow2(256) by { ValBound(n); Pow2R(); }
    j := HighDigit(Val(n), m);
    BitOfValue(n, j);
  }

  lemma Pow2R()
    ensures Pow2(256) == R
  {
    Pow2Words();
    Pow2Add(192, 64);
  }

  lemma DivAtLeastOne(a: nat, b: nat)
    requires b > 0
    ensures a / b >= 1 <==> a >= b
  {
    if a >= b {
      DivUnique(a, b, 1 + (a - b) / b, (a - b) % b);
    } else {
      DivUnique(a, b, 0, a);
    }
  }

  /** A number below `2^256` and at least `2^m` has a binary digit 1 at `m` or above. */
  lemma {:induction false} HighDigit(v: nat, m: nat) returns (j: int)
    requires m <= 256 && Pow2(m) <= v < Pow2(256)
    ensures m <= j < 256 && (v / Pow2(j)) % 2 == 1
    decreases 256 - m
  {
    if m == 256 {
      assert false;
    }
    var q := v / Pow2(m);
    DivAtLeastOne(v, Pow2(m));
    if q % 2 == 1 {
      j := m;
    } else {
      Pow2Add(m, 1);
      DivDiv(v, Pow2(m), 2);
      assert v / Pow2(m + 1) == q / 2 >= 1;
      DivAtLeastOne(v, Pow2(m + 1));
      j := HighDigit(v, m + 1);
    }
  }
}
