/**
 * Go-level building blocks shared by every package of the model: optional
 * values and error results, bytes and fixed-width integer conversions,
 * Go's truncating integer division, and the little-endian and big-endian
 * layouts of `encoding/binary`.
 */
module Base {

  datatype Option<T> = None | Some(value: T)

  /**
   * The errors the packages return.  `Panic` stands for a Go run-time panic
   * (an index out of range, a negative `make`, a division by zero, or an
   * explicit `panic`/`checkError`): it is not returned to the caller in Go,
   * it aborts the whole call chain, and the model threads it through the
   * results so that callers can tell the two apart.
   */
  datatype Error =
    | InvalidArguments          // "Invalid arguments"
    | IncorrectArguments        // "fillHdr : Incorrect arguments"
    | IncorrectParams           // "NewHdrKey : Incorrect params"
    | IncorrectFileFormat       // readNBytesFromFile
    | IncorrectHandlerType      // "Incorrect Filecrypt handler type"
    | InvalidKeyHeader          // "Invalid Key Header"
    | MalformedPbkdf2           // "Malformed PBKDF2 struct"
    | HashNotImplemented        // "Hash not implemented"
    | IncorrectBlockSize        // hash_e: "Inncorrect block size"
    | CleartextTooLong          // rsa_e: "cleartext longer than key len"
    | EncodeError               // gob encoding failed
    | DecodeError               // gob decoding failed
    | CipherKeyError            // aes.NewCipher rejected the key length
    | AuthenticationError       // GCM Open failed
    | KeyParseError             // JSON key could not be parsed
    | RsaDecryptError           // DecryptOAEP failed
    | OpenFileError             // os.OpenFile failed
    | SeekError                 // Seek to a negative offset
    | InvalidFieldType          // ff.NewElement on an unknown field
    | InvalidInputType          // ff.FromInterface on an unsupported type
    | MinSharesZero             // NewConfig: "Minimum shares needs to be > 0"
    | MinSharesAboveMax         // NewConfig: "Minimum shares needs to be <= than Maximum shares"
    | UnknownField              // NewConfig: "Finite Field unknown"
    | Panic

  datatype Result<T> = Ok(value: T) | Err(error: Error)
  {
    predicate IsFailure() { Err? }
    function PropagateFailure<U>(): Result<U> requires Err? { Err(error) }
    function Extract(): T requires Ok? { value }
  }

  type Byte = b: int | 0 <= b < 256

  /** A Go `[]byte`, which may be nil. */
  type Slice = Option<seq<Byte>>

  /** The bytes of a slice; a nil slice has none. */
  function BytesOf(s: Slice): seq<Byte>
  {
    if s.None? then [] else s.value
  }

  const TWO32: int := 0x1_0000_0000
  const TWO63: int := 0x8000_0000_0000_0000
  const TWO64: int := 0x1_0000_0000_0000_0000

  type U32 = x: int | 0 <= x < 0x1_0000_0000
  type U64 = x: int | 0 <= x < 0x1_0000_0000_0000_0000

  /** Go's `int` (64 bits on the platforms the library targets). */
  predicate IsInt64(x: int) { -TWO63 <= x < TWO63 }

  /** Go's `byte(x)`: the low eight bits of the two's-complement value. */
  function ToByte(x: int): (b: Byte)
    ensures (x - b) % 256 == 0
    ensures 0 <= x < 256 ==> b == x
  {
    x % 256
  }

  /** Go's `uint32(x)`. */
  function ToUint32(x: int): (u: U32)
    ensures (x - u) % TWO32 == 0
    ensures 0 <= x < TWO32 ==> u == x
  {
    x % TWO32
  }

  /** Go's `uint64(x)`. */
  function ToUint64(x: int): (u: U64)
    ensures (x - u) % TWO64 == 0
    ensures 0 <= x < TWO64 ==> u == x
  {
    x % TWO64
  }

  /** Go's `int(u)` / `int64(u)` on a `uint64`: the two's-complement reading. */
  function ToInt64(u: U64): (x: int)
    ensures IsInt64(x)
  {
    if u < TWO63 then u else u - TWO64
  }

  /** Reading a `uint64` as `int64` and converting back gives the same word. */
  lemma Uint64RoundTrip(u: U64)
    ensures ToUint64(ToInt64(u)) == u
  {
  }

  lemma Int64RoundTrip(x: int)
    requires IsInt64(x)
    ensures ToInt64(ToUint64(x)) == x
  {
    if x < 0 {
      assert ToUint64(x) == x + TWO64;
    }
  }

  /**
   * Go's 64-bit `int` arithmetic: the result of an operation taken modulo
   * `2^64` and read as a two's-complement number.  A value already in range
   * is unchanged.
   */
  function Wrap64(x: int): (r: int)
    ensures IsInt64(r) && (r - x) % TWO64 == 0
    ensures IsInt64(x) ==> r == x
  {
    if IsInt64(x) then Int64RoundTrip(x); ToInt64(ToUint64(x)) else ToInt64(ToUint64(x))
  }

  /** Go's `/` on integers: the quotient truncated toward zero. */
  function GoDiv(a: int, b: int): int
    requires b != 0
  {
    var q := (if a < 0 then -a else a) / (if b < 0 then -b else b);
    if (a < 0) != (b < 0) then -q else q
  }

  /** Go's `%` on integers: the remainder takes the sign of the dividend. */
  function GoMod(a: int, b: int): int
    requires b != 0
  {
    a - b * GoDiv(a, b)
  }

  lemma GoDivModNonNegative(a: int, b: int)
    requires a >= 0 && b > 0
    ensures GoDiv(a, b) == a / b && GoMod(a, b) == a % b
  {
  }

  /** Rounding `n` up to a multiple of `bs` adds less than `bs`. */
  lemma RoundUp(n: nat, bs: int)
    requires bs > 0
    ensures var m := (n + bs - 1) / bs * bs;
      n <= m < n + bs && m % bs == 0
  {
    var q := n / bs;
    var r := n % bs;
    var k := if r == 0 then q else q + 1;
    DivUnique(n + bs - 1, bs, k, if r == 0 then bs - 1 else r - 1);
    DivUnique(k * bs, bs, k, 0);
  }

  /** Division by a positive number has one quotient and one remainder. */
  lemma DivUnique(a: int, b: int, k: int, s: int)
    requires b > 0 && a == k * b + s && 0 <= s < b
    ensures a / b == k && a % b == s
  {
    var d := k - a / b;
    assert d * b == a % b - s;
    MulBounds(d, b);
  }

  lemma MulBounds(d: int, b: int)
    requires b > 0
    ensures d >= 1 ==> d * b >= b
    ensures d <= -1 ==> d * b <= -b
  {
  }

  function Pow256(n: nat): (r: nat)
    ensures r > 0
  {
    if n == 0 then 1 else 256 * Pow256(n - 1)
  }

  /** `n` little-endian bytes of `v` (the `PutUint64`/`PutUint32` layout). */
  function LeBytes(v: nat, n: nat): (r: seq<Byte>)
    ensures |r| == n
  {
    if n == 0 then [] else [v % 256] + LeBytes(v / 256, n - 1)
  }

  /** The value of little-endian bytes (the `Uint64`/`Uint32` reading). */
  function LeValue(b: seq<Byte>): nat
  {
    if b == [] then 0 else b[0] + 256 * LeValue(b[1..])
  }

  lemma {:induction false} LeValueBound(b: seq<Byte>)
    ensures LeValue(b) < Pow256(|b|)
  {
    if b != [] {
      LeValueBound(b[1..]);
    }
  }

  /** Reading back what was written restores the value, when it fits. */
  lemma {:induction false} LeValueOfBytes(v: nat, n: nat)
    requires v < Pow256(n)
    ensures LeValue(LeBytes(v, n)) == v
  {
    if n > 0 {
      LeValueOfBytes(v / 256, n - 1);
      var r := LeBytes(v, n);
      assert r[1..] == LeBytes(v / 256, n - 1);
    }
  }

  /** Writing what was read restores the bytes. */
  lemma {:induction false} LeBytesOfValue(b: seq<Byte>)
    ensures LeBytes(LeValue(b), |b|) == b
  {
    if b != [] {
      LeBytesOfValue(b[1..]);
      assert LeValue(b) % 256 == b[0];
      assert LeValue(b) / 256 == LeValue(b[1..]);
    }
  }

  /** The value of big-endian bytes (`binary.BigEndian.Uint64`). */
  function BeValue(b: seq<Byte>): nat
  {
    if b == [] then 0 else BeValue(b[..|b| - 1]) * 256 + b[|b| - 1]
  }

  lemma {:induction false} BeValueBound(b: seq<Byte>)
    ensures BeValue(b) < Pow256(|b|)
  {
    if b != [] {
      BeValueBound(b[..|b| - 1]);
    }
  }

  lemma Pow256Values()
    ensures Pow256(4) == TWO32 && Pow256(8) == TWO64
  {
    assert Pow256(2) == 65536;
    assert Pow256(4) == TWO32;
  }

  /** `n` zero bytes (a freshly made Go slice). */
  function Zeros(n: nat): (r: seq<Byte>)
    ensures |r| == n && forall i :: 0 <= i < n ==> r[i] == 0
  {
    seq(n, _ => 0)
  }
}
