/**
 * The fixed-size byte form of a share (shamir/share.go): the abscissa as a
 * little-endian `uint64`, the ordinate as the 32 little-endian bytes of its
 * regular value (`Element.ToByte`), and one byte naming the field.
 */
module ShareCodec {
  import opened Base
  import Ff
  import Shamir

  const PX_OFFSET: int := 0
  const PY_OFFSET: int := 8
  const FFTYPE_OFFSET: int := 40
  const SHARE_SIZE: int := 41

  /** A field element by its field and its regular value. */
  datatype FieldValue = FieldValue(kind: Ff.FieldKind, value: nat)

  /** The prime of an element's field. */
  function PrimeOf(k: Ff.FieldKind): (p: int)
    ensures p > 1
  {
    Ff.TypeCodeRoundTrip(k);
    Shamir.Modulus(Ff.TypeCode(k))
  }

  /** An element holds a reduced value of its field. */
  predicate Reduced(e: FieldValue)
  {
    e.value < PrimeOf(e.kind)
  }

  /** `ToByte`: the four regular limbs, each as eight little-endian bytes. */
  function ToBytes(e: FieldValue): (b: seq<Byte>)
    ensures |b| == 32
  {
    LeBytes(e.value, 32)
  }

  /**
   * `FromByte`: the four limbs read from 32 little-endian bytes and brought
   * into the field.
   */
  function FromBytes(k: Ff.FieldKind, b: seq<Byte>): (e: FieldValue)
    requires |b| == 32
    ensures e.kind == k && Reduced(e)
  {
    FieldValue(k, LeValue(b) % PrimeOf(k))
  }

  /** The field primes fit the 32 bytes of `ToByte`. */
  lemma PrimesFit(k: Ff.FieldKind)
    ensures PrimeOf(k) < Pow256(32)
  {
    Ff.TypeCodeRoundTrip(k);
    ModulusFits(Ff.TypeCode(k));
  }

  lemma ModulusFits(t: int)
    requires Ff.IsValid(t)
    ensures Shamir.Modulus(t) < Pow256(32)
  {
    Pow256Values();
    Pow256Add(8, 8);
    Pow256Add(16, 16);
    var w := TWO64 * TWO64;
    assert Pow256(32) == w * w;
  }

  lemma {:induction false} Pow256Add(a: nat, b: nat)
    ensures Pow256(a + b) == Pow256(a) * Pow256(b)
  {
    if a > 0 {
      Pow256Add(a - 1, b);
      assert Pow256(a + b) == 256 * Pow256(a - 1 + b);
    }
  }

  /** Bytes in the field round trip: `FromByte(ToByte(e)) == e`. */
  lemma ElementRoundTrip(e: FieldValue)
    requires Reduced(e)
    ensures FromBytes(e.kind, ToBytes(e)) == e
  {
    PrimesFit(e.kind);
    LeValueOfBytes(e.value, 32);
    SmallValue(e.value, PrimeOf(e.kind));
  }

  lemma SmallValue(v: int, p: int)
    requires 0 <= v < p
    ensures v % p == v
  {
    DivUnique(v, p, 0, v);
  }

  /** A share as package shamir holds it. */
  datatype Share = Share(px: int, py: FieldValue)

  /** `Marshal(p)`: 41 bytes, whatever the share and the tag. */
  function Marshal(s: Share, p: int): (b: seq<Byte>)
    ensures |b| == SHARE_SIZE
    ensures LeValue(b[PX_OFFSET..PY_OFFSET]) == ToUint64(s.px)
    ensures b[PY_OFFSET..FFTYPE_OFFSET] == ToBytes(s.py)
    ensures b[FFTYPE_OFFSET] == ToByte(p)
  {
    Pow256Values();
    LeValueOfBytes(ToUint64(s.px), 8);
    var b := LeBytes(ToUint64(s.px), 8) + ToBytes(s.py) + [ToByte(p)];
    assert b[PX_OFFSET..PY_OFFSET] == LeBytes(ToUint64(s.px), 8);
    assert b[PY_OFFSET..FFTYPE_OFFSET] == ToBytes(s.py);
    b
  }

  /** The abscissa `Unmarshal` reads: `int` of the little-endian `uint64` at 0..7. */
  function PxOf(b: seq<Byte>): (x: int)
    requires |b| >= PY_OFFSET
    ensures IsInt64(x) && ToUint64(x) == LeValue(b[PX_OFFSET..PY_OFFSET])
  {
    Pow256Values();
    LeValueBound(b[PX_OFFSET..PY_OFFSET]);
    Uint64RoundTrip(LeValue(b[PX_OFFSET..PY_OFFSET]));
    ToInt64(LeValue(b[PX_OFFSET..PY_OFFSET]))
  }

  /** A share whose receiver the Go code updates in place. */
  class ShareBox {
    var px: int
    var py: Option<FieldValue>

    constructor (x: int, y: Option<FieldValue>)
      ensures px == x && py == y
    {
      px, py := x, y;
    }

    /**
     * `Unmarshal`: the abscissa is stored first; an unknown field byte then
     * clears the ordinate, since the failed constructor's nil result is
     * assigned to it before the error is returned.  Slicing a buffer
     * shorter than 8 or indexing one shorter than 41 panics.
     */
    method Unmarshal(b: seq<Byte>) returns (r: Result<ShareBox>)
      modifies this
      ensures |b| < 8 ==> r == Err(Panic) && unchanged(this)
      ensures |b| >= 8 ==> px == PxOf(b)
      ensures 8 <= |b| < SHARE_SIZE ==> r == Err(Panic) && py == old(py)
      ensures |b| >= SHARE_SIZE && !Ff.IsValid(b[FFTYPE_OFFSET]) ==> r == Err(InvalidFieldType) && py == None
      ensures |b| >= SHARE_SIZE && Ff.IsValid(b[FFTYPE_OFFSET]) ==>
        r == Ok(this) && Ff.KindOf(b[FFTYPE_OFFSET]).Some? &&
        py == Some(FromBytes(Ff.KindOf(b[FFTYPE_OFFSET]).value, b[PY_OFFSET..FFTYPE_OFFSET]))
      ensures r.Ok? <==> Decode(b).Ok?
      ensures r.Ok? ==> Decode(b) == Ok(Share(px, py.value))
    {
      if |b| < 8 {
        return Err(Panic);
      }
      px := PxOf(b);
      if |b| < SHARE_SIZE {
        return Err(Panic);
      }
      var p := b[FFTYPE_OFFSET];
      var kind := Ff.NewElement(p);
      if kind.Err? {
        py := None;
        return Err(kind.error);
      }
      py := Some(FromBytes(kind.value, b[PY_OFFSET..FFTYPE_OFFSET]));
      return Ok(this);
    }
  }

  /** The share `Unmarshal` leaves in its receiver for a buffer, if any. */
  function Decode(b: seq<Byte>): Result<Share>
  {
    if |b| < SHARE_SIZE then Err(Panic)
    else match Ff.NewElement(b[FFTYPE_OFFSET])
      case Err(e) => Err(e)
      case Ok(k) => Ok(Share(PxOf(b), FromBytes(k, b[PY_OFFSET..FFTYPE_OFFSET])))
  }

  /**
   * Round trip: a share of a Go `int` abscissa and a reduced value,
   * marshalled with its own field's tag, decodes to itself.
   */
  lemma MarshalRoundTrip(s: Share)
    requires IsInt64(s.px) && Reduced(s.py)
    ensures Decode(Marshal(s, Ff.TypeCode(s.py.kind))) == Ok(s)
  {
    var b := Marshal(s, Ff.TypeCode(s.py.kind));
    Ff.TypeCodeRoundTrip(s.py.kind);
    assert b[FFTYPE_OFFSET] == Ff.TypeCode(s.py.kind);
    Int64RoundTrip(s.px);
    ElementRoundTrip(s.py);
  }

  /** Marshalling with a tag of no known field makes `Decode` fail, whatever the share. */
  lemma MarshalUnknownTag(s: Share, p: int)
    requires 0 <= p < 256 && !Ff.IsValid(p)
    ensures Decode(Marshal(s, p)) == Err(InvalidFieldType)
  {
  }
}
