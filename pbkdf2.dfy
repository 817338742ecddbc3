/**
 * The key header of a file whose key is derived from a password with
 * PBKDF2 (filecrypt/pbkdf2_k.go).
 *
 *   offset 0 version   offset 3 hash     offset 8 output length
 *   offset 1 key type  offsets 4..7 iterations (little-endian 32-bit)
 *   offset 2 header length              offset 9 salt length, 10.. salt
 *
 * The derived key is computed when the header is written and again when it
 * is read back, from the same salt, iteration count, length and hash.
 */
module Pbkdf2Key {
  import opened Base
  import opened FcConst
  import opened Files
  import opened Primitives

  const FC_PBKDF2HDR_MAXITER := 100000
  const FC_PBKDF2HDR_SALT_MAXLEN := 128
  const FC_PBKDF2HDR_OUT_MAXLEN := 128

  const FC_PBKDF2HDR_LEN_OFFSET := 2
  const FC_PBKDF2HDR_HASH_OFFSET := 3
  const FC_PBKDF2HDR_ITER_OFFSET := 4
  const FC_PBKDF2HDR_OUTLEN_OFFSET := 8
  const FC_PBKDF2HDR_SALTLEN_OFFSET := 9
  const FC_PBKDF2HDR_SALT_OFFSET := 10

  /** The fields of the header that are written to the file. */
  datatype Pbkdf2State = Pbkdf2State(
    version: int,
    keytype: int,
    hdrlen: int,
    hashtype: int,
    iter: int,
    outlen: int,
    saltlen: int,
    salt: seq<Byte>)

  /** Go's `copy` of the salt into a zeroed field of `n` bytes. */
  function CopySalt(salt: seq<Byte>, n: nat): (r: seq<Byte>)
    ensures |r| == n
    ensures forall i :: 0 <= i < n ==> r[i] == if i < |salt| then salt[i] else 0
  {
    if |salt| >= n then salt[..n] else salt + Zeros(n - |salt|)
  }

  /**
   * `toBytes`: refuses a header whose length field disagrees with its salt
   * length; a length below the fixed part makes Go index out of range.
   */
  function Encode(h: Pbkdf2State): (r: Result<seq<Byte>>)
    ensures r.Ok? <==> h.hdrlen == FC_PBKDF2HDR_SALT_OFFSET + h.saltlen && h.saltlen >= 0
    ensures r.Ok? ==> |r.value| == h.hdrlen
    ensures h.hdrlen != FC_PBKDF2HDR_SALT_OFFSET + h.saltlen ==> r == Err(MalformedPbkdf2)
  {
    if h.hdrlen != FC_PBKDF2HDR_SALT_OFFSET + h.saltlen then Err(MalformedPbkdf2)
    else if h.saltlen < 0 then Err(Panic)
    else Ok([ToByte(h.version), ToByte(h.keytype), ToByte(h.hdrlen), ToByte(h.hashtype)]
            + LeBytes(ToUint32(h.iter), 4)
            + [ToByte(h.outlen), ToByte(h.saltlen)]
            + CopySalt(h.salt, h.saltlen))
  }

  /** Bytes `fromBytes` can read without indexing past their end. */
  predicate Parsable(b: seq<Byte>)
  {
    |b| >= FC_PBKDF2HDR_SALT_OFFSET && |b| >= FC_PBKDF2HDR_SALT_OFFSET + b[FC_PBKDF2HDR_SALTLEN_OFFSET]
  }

  /** `fromBytes`: the salt is as long as the salt-length byte says. */
  function Decode(b: seq<Byte>): Pbkdf2State
    requires Parsable(b)
  {
    Pbkdf2State(b[0], b[1], b[2], b[3], LeValue(b[4..8]), b[8], b[9], b[10..10 + b[9]])
  }

  /** The headers whose every field survives the byte layout. */
  predicate Representable(h: Pbkdf2State)
  {
    && 0 <= h.version < 256 && 0 <= h.keytype < 256 && 0 <= h.hashtype < 256
    && 0 <= h.iter < TWO32 && 0 <= h.outlen < 256
    && 0 <= h.saltlen && |h.salt| == h.saltlen
    && h.hdrlen == FC_PBKDF2HDR_SALT_OFFSET + h.saltlen && h.hdrlen < 256
  }

  lemma DecodeEncode(h: Pbkdf2State)
    requires Representable(h)
    ensures Encode(h).Ok? && Parsable(Encode(h).value) && Decode(Encode(h).value) == h
  {
    var b := Encode(h).value;
    Pow256Values();
    assert b[4..8] == LeBytes(h.iter, 4);
    LeValueOfBytes(h.iter, 4);
    assert b[10..10 + h.saltlen] == h.salt;
  }

  /** `computeKey`: only SHA-1 and SHA-256 are implemented. */
  function DerivedKey<T>(p: Primitives<T>, h: Pbkdf2State, keyIn: Slice): (r: Result<seq<Byte>>)
    ensures r.Ok? <==> h.hashtype == FC_HASH_SHA1 || h.hashtype == FC_HASH_SHA256
    ensures r.Err? ==> r.error == HashNotImplemented
  {
    if h.hashtype == FC_HASH_SHA1 || h.hashtype == FC_HASH_SHA256 then
      Ok(p.pbkdf2(BytesOf(keyIn), h.salt, h.iter, h.outlen, h.hashtype))
    else Err(HashNotImplemented)
  }

  /** What `retrieveKey` returns and where it leaves the read cursor. */
  datatype Retrieved = Retrieved(key: Result<Slice>, next: nat)

  /**
   * `retrieveKey` on file bytes `data` read from `pos`, after the first two
   * header bytes `prev`: reads the length byte and the rest of the header
   * (any read failure panics through `checkError`), parses it, and derives
   * the key; an unimplemented hash is ignored and leaves the key nil.
   */
  function RetrieveSpec<T>(p: Primitives<T>, keyIn: Slice, prev: seq<Byte>, data: seq<Byte>, pos: nat): Retrieved
  {
    var r1 := ReadAt(data, pos, 1);
    if r1.result.Err? then Retrieved(Err(Panic), r1.next)
    else
      var r2 := ReadAt(data, r1.next, r1.result.value[0] - FC_PBKDF2HDR_LEN_OFFSET - 1);
      if r2.result.Err? then Retrieved(Err(Panic), r2.next)
      else
        var b := prev + r1.result.value + r2.result.value;
        if !Parsable(b) then Retrieved(Err(Panic), r2.next)
        else
          var k := DerivedKey(p, Decode(b), keyIn);
          Retrieved(Ok(if k.Ok? then Some(k.value) else None), r2.next)
  }

  /**
   * Reading back a header written at the start of a file, with the same
   * password, derives the same key as writing it did, and leaves the cursor
   * on the first block.
   */
  lemma RetrieveWritten<T>(p: Primitives<T>, h: Pbkdf2State, keyIn: Slice, rest: seq<Byte>)
    requires Representable(h)
    ensures Encode(h).Ok?
    ensures var data := Encode(h).value + rest;
      var k := DerivedKey(p, h, keyIn);
      RetrieveSpec(p, keyIn, data[..2], data, 2)
        == Retrieved(Ok(if k.Ok? then Some(k.value) else None), h.hdrlen)
  {
    DecodeEncode(h);
    var e := Encode(h).value;
    var data := e + rest;
    assert data[2] == e[2] == h.hdrlen;
    assert data[2..3] == [h.hdrlen];
    var r1 := ReadAt(data, 2, 1);
    assert r1.result == Ok([h.hdrlen]);
    var r2 := ReadAt(data, 3, h.hdrlen - 3);
    assert r2.result == Ok(data[3..h.hdrlen]);
    assert data[..2] + [h.hdrlen] + data[3..h.hdrlen] == e;
  }

  class Pbkdf2Fc {
    var version: int
    var keytype: int
    var hdrlen: int
    var hashtype: int
    var iter: int
    var outlen: int
    var saltlen: int
    var salt: seq<Byte>
    var keyIn: Slice
    var keyOut: Slice

    function State(): Pbkdf2State
      reads this
    {
      Pbkdf2State(version, keytype, hdrlen, hashtype, iter, outlen, saltlen, salt)
    }

    constructor ()
      ensures State() == Pbkdf2State(0, 0, 0, 0, 0, 0, 0, []) && keyIn == None && keyOut == None
    {
      version, keytype, hdrlen, hashtype, iter, outlen, saltlen := 0, 0, 0, 0, 0, 0, 0;
      salt, keyIn, keyOut := [], None, None;
    }

    /**
     * `FillHdr`: checks the upper limits only; `random` stands for the
     * `saltlen` random bytes drawn for the salt (a negative length makes
     * `make` panic there).
     */
    method FillHdr(v: int, kt: int, ht: int, it: int, ol: int, sl: int, key: Slice, random: seq<Byte>)
      returns (err: Option<Error>)
      requires 0 <= sl < FC_PBKDF2HDR_SALT_MAXLEN ==> |random| == sl
      modifies this
      ensures var bad := v >= FC_HDR_NVERSION || kt >= FC_KEY_NTYPE || it >= FC_PBKDF2HDR_MAXITER
                         || ol >= FC_PBKDF2HDR_OUT_MAXLEN || ht >= FC_NHASH || sl >= FC_PBKDF2HDR_SALT_MAXLEN;
        && (bad ==> err == Some(InvalidArguments) && State() == old(State()) && keyIn == old(keyIn) && keyOut == old(keyOut))
        && (!bad && sl < 0 ==> err == Some(Panic))
        && (!bad && sl >= 0 ==>
              (err == None && keyIn == key && keyOut == None
               && State() == Pbkdf2State(v, kt, FC_PBKDF2HDR_SALT_OFFSET + sl, ht, it, ol, sl, random)))
    {
      if v >= FC_HDR_NVERSION || kt >= FC_KEY_NTYPE || it >= FC_PBKDF2HDR_MAXITER
         || ol >= FC_PBKDF2HDR_OUT_MAXLEN || ht >= FC_NHASH || sl >= FC_PBKDF2HDR_SALT_MAXLEN {
        return Some(InvalidArguments);
      }
      version := v;
      keytype := kt;
      hdrlen := FC_PBKDF2HDR_SALT_OFFSET + sl;
      hashtype := ht;
      iter := it;
      outlen := ol;
      saltlen := sl;
      if sl < 0 {
        return Some(Panic);
      }
      salt := random;
      keyIn := key;
      keyOut := None;
      err := None;
    }

    /** `fromBytes`: both keys become nil. */
    method FromBytes(b: seq<Byte>)
      requires Parsable(b)
      modifies this
      ensures State() == Decode(b) && keyIn == None && keyOut == None
    {
      version := b[0];
      keytype := b[1];
      hdrlen := b[2];
      hashtype := b[3];
      iter := LeValue(b[4..8]);
      outlen := b[8];
      saltlen := b[9];
      salt := b[10..10 + saltlen];
      keyIn := None;
      keyOut := None;
    }

    /** `computeKey`: sets the derived key, or fails and leaves it. */
    method ComputeKey<T>(p: Primitives<T>) returns (err: Option<Error>)
      modifies this`keyOut
      ensures var k := DerivedKey(p, State(), keyIn);
        && (k.Ok? ==> err == None && keyOut == Some(k.value))
        && (k.Err? ==> err == Some(k.error) && keyOut == old(keyOut))
    {
      if hashtype == FC_HASH_SHA1 || hashtype == FC_HASH_SHA256 {
        keyOut := Some(p.pbkdf2(BytesOf(keyIn), salt, iter, outlen, hashtype));
        err := None;
      } else {
        err := Some(HashNotImplemented);
      }
    }

    /** `retrieveKey`: reads the rest of the header from the file and derives the key. */
    method RetrieveKey<T>(p: Primitives<T>, key: Slice, prev: seq<Byte>, file: File) returns (r: Result<Slice>)
      modifies this, file`pos
      ensures Retrieved(r, file.pos) == RetrieveSpec(p, key, prev, file.contents, old(file.pos))
    {
      ghost var data := file.contents;
      ghost var r1 := ReadAt(data, file.pos, 1);
      var lenBytes := file.ReadN(1);
      if lenBytes.Err? {
        return Err(Panic);
      }
      ghost var r2 := ReadAt(data, r1.next, r1.result.value[0] - FC_PBKDF2HDR_LEN_OFFSET - 1);
      var rem := file.ReadN(lenBytes.value[0] - FC_PBKDF2HDR_LEN_OFFSET - 1);
      assert rem == r2.result && file.pos == r2.next;
      if rem.Err? {
        return Err(Panic);
      }
      var b := prev + lenBytes.value + rem.value;
      if !Parsable(b) {
        return Err(Panic);
      }
      FromBytes(b);
      keyIn := key;
      assert State() == Decode(b);
      var _ := ComputeKey(p);
      return Ok(keyOut);
    }

    /**
     * `generateKey`: the first call creates (truncates) the file, writes the
     * header there and derives the key; any failure panics through
     * `checkError`.  Later calls return the key already derived.
     */
    method GenerateKey<T>(p: Primitives<T>, file: File) returns (key: Slice, err: Option<Error>)
      modifies this`keyOut, file
      ensures old(keyOut).Some? ==>
        (err == None && key == old(keyOut) && keyOut == old(keyOut)
         && file.present == old(file.present) && file.contents == old(file.contents)
         && file.pos == old(file.pos))
      ensures old(keyOut).None? ==>
        var e := Encode(State());
        var k := DerivedKey(p, State(), keyIn);
        && (e.Err? ==> err == Some(Panic) && file.present == old(file.present) && file.contents == old(file.contents))
        && (e.Ok? ==> file.present && file.contents == e.value
                      && (k.Err? ==> err == Some(Panic))
                      && (k.Ok? ==> err == None && key == Some(k.value) && keyOut == key))
    {
      if keyOut.None? {
        var fhdr := Encode(State());
        if fhdr.Err? {
          return None, Some(Panic);
        }
        file.Create();
        file.Write(fhdr.value);
        var e := ComputeKey(p);
        if e.Some? {
          return None, Some(Panic);
        }
      }
      return keyOut, None;
    }
  }
}
