/**
 * The library calls the filecrypt package makes but does not implement:
 * gob encoding of `interface{}` values, AES-GCM, RSA-OAEP with JSON keys,
 * PBKDF2 and SHA-256.  They are parameters of the model, gathered in one
 * record; `Lawful` states the laws the proofs rely on.
 */
module Primitives {
  import opened Base

  /** `gcm.NonceSize()` for AES-GCM. */
  const GCM_NONCE_SIZE := 12
  /** Bytes the GCM tag adds to a sealed message. */
  const GCM_TAG_SIZE := 16

  /** `aes.NewCipher` accepts 128, 192 and 256-bit keys only. */
  predicate AesKeyOk(key: seq<Byte>)
  {
    |key| == 16 || |key| == 24 || |key| == 32
  }

  /**
   * `T` is the type of the values handed to `Encrypt` (Go's `interface{}`
   * with the gob-registered types).
   *   encode        interfaceEncode (gob); None when gob refuses the value
   *   decode        interfaceDecode (gob); None on malformed input
   *   seal, open    AES-GCM Seal/Open under (key, nonce); open is None when
   *                 authentication fails
   *   parsePublic   json.Unmarshal of an rsa.PublicKey succeeds
   *   rsaEncrypt    EncryptOAEP with SHA-256; None on failure
   *   parsePrivate  json.Unmarshal of an rsa.PrivateKey succeeds
   *   rsaDecrypt    DecryptOAEP with SHA-256; None on failure
   *   pbkdf2        pbkdf2.Key(password, salt, iter, keyLen, hash)
   *   sha256        sha256.Sum256
   */
  datatype Primitives<!T> = Primitives(
    encode: T -> Option<seq<Byte>>,
    decode: seq<Byte> -> Option<T>,
    seal: (seq<Byte>, seq<Byte>, seq<Byte>) -> seq<Byte>,
    open: (seq<Byte>, seq<Byte>, seq<Byte>) -> Option<seq<Byte>>,
    parsePublic: seq<Byte> -> bool,
    rsaEncrypt: (seq<Byte>, seq<Byte>) -> Option<seq<Byte>>,
    parsePrivate: seq<Byte> -> bool,
    rsaDecrypt: (seq<Byte>, seq<Byte>) -> Option<seq<Byte>>,
    pbkdf2: (seq<Byte>, seq<Byte>, int, int, int) -> seq<Byte>,
    sha256: seq<Byte> -> seq<Byte>)

  /**
   * The laws of the primitives: gob decoding inverts gob encoding, GCM
   * opening under the sealing key and nonce returns the plaintext, a sealed
   * message is the plaintext plus a tag, and SHA-256 digests are 32 bytes.
   */
  ghost predicate Lawful<T(!new)>(p: Primitives<T>)
  {
    && (forall x :: p.encode(x).Some? ==> p.decode(p.encode(x).value) == Some(x))
    && (forall k, n, m :: p.open(k, n, p.seal(k, n, m)) == Some(m))
    && (forall k, n, m :: |p.seal(k, n, m)| == |m| + GCM_TAG_SIZE)
    && (forall m :: |p.sha256(m)| == 32)
  }
}
