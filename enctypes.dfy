/**
 * The encryption types of a filecrypt block (filecrypt/clear_e.go,
 * filecrypt/gcm_e.go, filecrypt/rsa_e.go, filecrypt/hash_e.go).  Each
 * `encrypt` updates its header in place and appends the header and the
 * payload to the file; each `decrypt` is a function of the block bytes that
 * follow the header.
 *
 * The model gives every encryption type the block-indexed header of
 * filecrypt/fchdr.go, the one whose methods the container's interface in
 * filecrypt/filecrypt.go calls.  Only clear_e.go embeds that header;
 * gcm_e.go, rsa_e.go and hash_e.go embed the header of filecrypt/hdre.go,
 * which is modelled on its own in module Hdre.
 */
module EncTypes {
  import opened Base
  import opened Primitives
  import opened FcHdrs
  import opened Files
  import opened FcConst

  datatype EncKind = Clear | Gcm | Rsa | Hash

  /**
   * `getEncFCFromType`: the three codes the decoders know; the hashing type
   * has no code, so a reader never selects it.
   */
  function EncKindOf(t: Byte): (r: Result<EncKind>)
    ensures r.Ok? <==> t < FC_NTYPE
    ensures r.Ok? ==> r.value != Hash && TypeCode(r.value) == t
    ensures r.Err? ==> r.error == IncorrectHandlerType
  {
    if t == FC_CLEAR then Ok(Clear)
    else if t == FC_GCM then Ok(Gcm)
    else if t == FC_RSA then Ok(Rsa)
    else Err(IncorrectHandlerType)
  }

  /** The code a writer records for a kind (the hashing type reuses none). */
  function TypeCode(k: EncKind): int
  {
    match k
    case Clear => FC_CLEAR
    case Gcm => FC_GCM
    case Rsa => FC_RSA
    case Hash => FC_NTYPE
  }

  /** What one `encrypt` call did: its error, the header afterwards, the bytes it appended. */
  datatype Written = Written(err: Option<Error>, hdr: FcHdrState, bytes: seq<Byte>)

  /** ClearFc.encrypt: header, then the gob stream as is. */
  function ClearEncryptSpec<T>(p: Primitives<T>, h: FcHdrState, x: T, present: bool): Written
  {
    match p.encode(x)
    case None => Written(Some(EncodeError), h, [])
    case Some(bs) =>
      if BlockBytes(h.blocksize) == 0 then Written(Some(Panic), h, [])
      else
        var h1 := WithNBlocks(h, |bs|);
        if !present then Written(Some(OpenFileError), h1, [])
        else Written(None, h1, Encode(h1) + bs)
  }

  /** GcmFc.encrypt: header, nonce, zero padding up to whole blocks, sealed stream. */
  function GcmEncryptSpec<T>(p: Primitives<T>, h: FcHdrState, key: seq<Byte>, x: T,
                             nonce: seq<Byte>, present: bool): Written
    requires |nonce| == GCM_NONCE_SIZE
  {
    if !AesKeyOk(key) then Written(Some(CipherKeyError), h, [])
    else match p.encode(x)
      case None => Written(Some(EncodeError), h, [])
      case Some(bs) =>
        var ct := p.seal(key, nonce, bs);
        var h1 := h.(noncesize := |nonce|);
        if BlockBytes(h1.blocksize) == 0 then Written(Some(Panic), h1, [])
        else
          NoncePaddingFillsBlocks(h1);
          var pad := NoncePaddingLen(h1);
          var h2 := WithNBlocks(h1, |ct| + |nonce| + pad);
          if !present then Written(Some(OpenFileError), h2, [])
          else Written(None, h2, Encode(h2) + nonce + Zeros(pad) + ct)
  }

  /**
   * RsaFc.encrypt: the stream must be shorter than the block size; an
   * EncryptOAEP failure is not checked and leaves an empty ciphertext.
   */
  function RsaEncryptSpec<T>(p: Primitives<T>, h: FcHdrState, key: seq<Byte>, x: T, present: bool): Written
  {
    if !p.parsePublic(key) then Written(Some(KeyParseError), h, [])
    else match p.encode(x)
      case None => Written(Some(EncodeError), h, [])
      case Some(bs) =>
        if BlockBytes(h.blocksize) <= |bs| then Written(Some(CleartextTooLong), h, [])
        else
          var ct := match p.rsaEncrypt(key, bs) case None => [] case Some(c) => c;
          var h1 := WithNBlocks(h, |ct|);
          if !present then Written(Some(OpenFileError), h1, [])
          else Written(None, h1, Encode(h1) + ct)
  }

  /**
   * HashFc.encrypt: a header announcing 32 bytes and the SHA-256 of the
   * stream; a block size other than the 256-bit class is rejected after the
   * header has been written.
   */
  function HashEncryptSpec<T>(p: Primitives<T>, h: FcHdrState, x: T, present: bool): Written
  {
    match p.encode(x)
    case None => Written(Some(EncodeError), h, [])
    case Some(bs) =>
      if BlockBytes(h.blocksize) == 0 then Written(Some(Panic), h, [])
      else
        var h1 := WithNBlocks(h, 32);
        if !present then Written(Some(OpenFileError), h1, [])
        else if h1.blocksize != FC_HDR_BSIZE_256 then Written(Some(IncorrectBlockSize), h1, Encode(h1))
        else Written(None, h1, Encode(h1) + p.sha256(bs))
  }

  /** ClearFc.decrypt. */
  function ClearDecrypt<T>(p: Primitives<T>, block: seq<Byte>): (r: Result<T>)
    ensures r.Ok? <==> p.decode(block).Some?
  {
    match p.decode(block)
    case None => Err(DecodeError)
    case Some(v) => Ok(v)
  }

  /**
   * GcmFc.decrypt with the header's nonce size and padding (`None` when the
   * padding computation divides by zero): slicing past the block panics,
   * `gcm.Open` panics on a nonce that is not 12 bytes long, and a failed
   * authentication or decoding is an error.
   */
  function GcmDecrypt<T>(p: Primitives<T>, block: seq<Byte>, key: seq<Byte>,
                         noncesize: nat, pad: Option<int>): (r: Result<T>)
    ensures r.Ok? ==> pad.Some? && noncesize == GCM_NONCE_SIZE && noncesize <= |block|
                      && 0 <= noncesize + pad.value <= |block|
                      && p.open(key, block[..noncesize], block[noncesize + pad.value..]).Some?
    ensures AesKeyOk(key) && noncesize != GCM_NONCE_SIZE ==> r == Err(Panic)
  {
    if !AesKeyOk(key) then Err(CipherKeyError)
    else if noncesize > |block| then Err(Panic)
    else match pad
      case None => Err(Panic)
      case Some(padLen) =>
        if noncesize + padLen < 0 || noncesize + padLen > |block| then Err(Panic)
        else if noncesize != GCM_NONCE_SIZE then Err(Panic)
        else match p.open(key, block[..noncesize], block[noncesize + padLen..])
          case None => Err(AuthenticationError)
          case Some(pt) =>
            match p.decode(pt)
            case None => Err(DecodeError)
            case Some(v) => Ok(v)
  }

  /** RsaFc.decrypt. */
  function RsaDecrypt<T>(p: Primitives<T>, block: seq<Byte>, key: seq<Byte>): (r: Result<T>)
    ensures r.Ok? ==> p.parsePrivate(key) && p.rsaDecrypt(key, block).Some?
  {
    if !p.parsePrivate(key) then Err(KeyParseError)
    else match p.rsaDecrypt(key, block)
      case None => Err(RsaDecryptError)
      case Some(pt) =>
        match p.decode(pt)
        case None => Err(DecodeError)
        case Some(v) => Ok(v)
  }

  /** HashFc.decrypt hands the block back unchanged. */
  function HashDecrypt(block: seq<Byte>): seq<Byte>
  {
    block
  }

  /** The padding `getNoncePaddingLen` computes, or `None` where it would divide by zero. */
  function PaddingOf(h: FcHdrState): Option<int>
  {
    if BlockBytes(h.blocksize) == 0 then None else Some(NoncePaddingLen(h))
  }

  /** The decrypt method of a container block, by kind, for a header read from the file. */
  function DecryptBlock<T>(p: Primitives<T>, kind: EncKind, h: FcHdrState,
                           block: seq<Byte>, key: seq<Byte>): Result<T>
    requires kind != Hash && h.noncesize >= 0
  {
    match kind
    case Clear => ClearDecrypt(p, block)
    case Gcm => GcmDecrypt(p, block, key, h.noncesize, PaddingOf(h))
    case Rsa => RsaDecrypt(p, block, key)
  }

  /** Header fields a writer sets before `encrypt` that survive the byte layout. */
  predicate Writable(h: FcHdrState)
  {
    0 <= h.version < 256 && 0 <= h.blockIdx < 256 && 0 <= h.fctype < 256
    && BlockBytes(h.blocksize) != 0 && 0 <= h.noncesize < 256
  }

  /** Streams short enough for the 64-bit block count. */
  const MAX_STREAM := 0x1000_0000_0000_0000

  lemma WithNBlocksRepresentable(h: FcHdrState, n: int)
    requires Writable(h) && 0 <= n < MAX_STREAM
    ensures Representable(WithNBlocks(h, n)) && NBlockBytes(WithNBlocks(h, n)) == n
  {
    NBlockBytesAfterSetNBlocks(h, n);
    var bs := BlockBytes(h.blocksize);
    GoDivModNonNegative(n + bs - 1, bs);
    assert (n + bs - 1) / bs <= n + bs - 1 by {
      DivUnique(n + bs - 1, bs, (n + bs - 1) / bs, (n + bs - 1) % bs);
      MulBounds((n + bs - 1) / bs, bs);
    }
  }

  /**
   * A clear block reads back: its header decodes to the header written,
   * announces exactly the bytes that follow, and decrypting them returns
   * the value.
   */
  lemma ClearRoundTrip<T(!new)>(p: Primitives<T>, h: FcHdrState, x: T)
    requires Lawful(p) && Writable(h)
    requires p.encode(x).Some? && |p.encode(x).value| < MAX_STREAM
    ensures var w := ClearEncryptSpec(p, h, x, true);
      && w.err == None && |w.bytes| >= FC_HDR_LEN
      && Decode(w.bytes[..FC_HDR_LEN]) == w.hdr
      && NBlockBytes(w.hdr) == |w.bytes| - FC_HDR_LEN
      && ClearDecrypt(p, w.bytes[FC_HDR_LEN..]) == Ok(x)
  {
    var bs := p.encode(x).value;
    var w := ClearEncryptSpec(p, h, x, true);
    WithNBlocksRepresentable(h, |bs|);
    assert w.bytes[..FC_HDR_LEN] == Encode(w.hdr);
    DecodeEncode(w.hdr);
    assert w.bytes[FC_HDR_LEN..] == bs;
  }

  /**
   * The layout of a GCM block: the header decodes to the header written and
   * announces the bytes that follow, which are the 12-byte nonce, the zero
   * padding the header's nonce size calls for, and the sealed stream.
   */
  lemma GcmBlockLayout<T(!new)>(p: Primitives<T>, h: FcHdrState, key: seq<Byte>, x: T, nonce: seq<Byte>)
    requires Lawful(p) && Writable(h) && AesKeyOk(key) && |nonce| == GCM_NONCE_SIZE
    requires p.encode(x).Some? && |p.encode(x).value| < MAX_STREAM - 64
    ensures var w := GcmEncryptSpec(p, h, key, x, nonce, true);
      && w.err == None && |w.bytes| >= FC_HDR_LEN
      && Decode(w.bytes[..FC_HDR_LEN]) == w.hdr
      && NBlockBytes(w.hdr) == |w.bytes| - FC_HDR_LEN
      && w.hdr.noncesize == GCM_NONCE_SIZE && PaddingOf(w.hdr).Some?
      && var block := w.bytes[FC_HDR_LEN..];
         var pad := PaddingOf(w.hdr).value;
         && 0 <= GCM_NONCE_SIZE + pad <= |block|
         && block[..GCM_NONCE_SIZE] == nonce
         && block[GCM_NONCE_SIZE + pad..] == p.seal(key, nonce, p.encode(x).value)
  {
    var bs := p.encode(x).value;
    var ct := p.seal(key, nonce, bs);
    var h1 := h.(noncesize := |nonce|);
    NoncePaddingFillsBlocks(h1);
    var pad := NoncePaddingLen(h1);
    var n := |ct| + |nonce| + pad;
    WithNBlocksRepresentable(h1, n);
    var w := GcmEncryptSpec(p, h, key, x, nonce, true);
    var h2 := WithNBlocks(h1, n);
    assert w.hdr == h2;
    assert w.bytes == Encode(h2) + nonce + Zeros(pad) + ct;
    assert w.bytes[..FC_HDR_LEN] == Encode(h2);
    DecodeEncode(h2);
    var block := w.bytes[FC_HDR_LEN..];
    assert block == nonce + Zeros(pad) + ct;
    assert NoncePaddingLen(h2) == pad;
    assert block[..h2.noncesize] == nonce;
    assert block[h2.noncesize + pad..] == ct;
  }

  /**
   * A GCM block reads back under the key that sealed it: the header
   * decodes to the header written, announces the bytes that follow, and
   * GCM decryption with the recorded nonce size and padding returns the value.
   */
  lemma GcmRoundTrip<T(!new)>(p: Primitives<T>, h: FcHdrState, key: seq<Byte>, x: T, nonce: seq<Byte>)
    requires Lawful(p) && Writable(h) && AesKeyOk(key) && |nonce| == GCM_NONCE_SIZE
    requires p.encode(x).Some? && |p.encode(x).value| < MAX_STREAM - 64
    ensures var w := GcmEncryptSpec(p, h, key, x, nonce, true);
      && w.err == None && |w.bytes| >= FC_HDR_LEN
      && Decode(w.bytes[..FC_HDR_LEN]) == w.hdr
      && NBlockBytes(w.hdr) == |w.bytes| - FC_HDR_LEN
      && GcmDecrypt(p, w.bytes[FC_HDR_LEN..], key, w.hdr.noncesize, PaddingOf(w.hdr)) == Ok(x)
  {
    GcmBlockLayout(p, h, key, x, nonce);
  }

  /**
   * A GCM block read under a key other than the sealing one: when `gcm.Open`
   * rejects the sealed stream under that key (as authentication does for
   * all but a negligible share of key pairs), decryption is an
   * authentication error rather than a value or a panic.
   */
  lemma GcmWrongKey<T(!new)>(p: Primitives<T>, h: FcHdrState, key: seq<Byte>, other: seq<Byte>,
                             x: T, nonce: seq<Byte>)
    requires Lawful(p) && Writable(h) && AesKeyOk(key) && |nonce| == GCM_NONCE_SIZE
    requires p.encode(x).Some? && |p.encode(x).value| < MAX_STREAM - 64
    requires AesKeyOk(other) && p.open(other, nonce, p.seal(key, nonce, p.encode(x).value)).None?
    ensures var w := GcmEncryptSpec(p, h, key, x, nonce, true);
      GcmDecrypt(p, w.bytes[FC_HDR_LEN..], other, w.hdr.noncesize, PaddingOf(w.hdr)) == Err(AuthenticationError)
  {
    GcmBlockLayout(p, h, key, x, nonce);
  }

  /**
   * An RSA block reads back under a private key whose OAEP decryption
   * inverts the public key's encryption of the stream: the header decodes
   * to the header written, announces the ciphertext that follows, and RSA
   * decryption returns the value.
   */
  lemma RsaRoundTrip<T(!new)>(p: Primitives<T>, h: FcHdrState, pub: seq<Byte>, priv: seq<Byte>, x: T)
    requires Lawful(p) && Writable(h) && p.parsePublic(pub) && p.parsePrivate(priv)
    requires p.encode(x).Some? && |p.encode(x).value| < BlockBytes(h.blocksize)
    requires p.rsaEncrypt(pub, p.encode(x).value).Some?
    requires var ct := p.rsaEncrypt(pub, p.encode(x).value).value;
      |ct| < MAX_STREAM && p.rsaDecrypt(priv, ct) == Some(p.encode(x).value)
    ensures var w := RsaEncryptSpec(p, h, pub, x, true);
      && w.err == None && |w.bytes| >= FC_HDR_LEN
      && Decode(w.bytes[..FC_HDR_LEN]) == w.hdr
      && NBlockBytes(w.hdr) == |w.bytes| - FC_HDR_LEN
      && RsaDecrypt(p, w.bytes[FC_HDR_LEN..], priv) == Ok(x)
  {
    var ct := p.rsaEncrypt(pub, p.encode(x).value).value;
    var w := RsaEncryptSpec(p, h, pub, x, true);
    WithNBlocksRepresentable(h, |ct|);
    assert w.bytes[..FC_HDR_LEN] == Encode(w.hdr);
    DecodeEncode(w.hdr);
    assert w.bytes[FC_HDR_LEN..] == ct;
  }

  /** A hash block holds the SHA-256 of the value's stream, which decrypt returns as is. */
  lemma HashBlockContents<T(!new)>(p: Primitives<T>, h: FcHdrState, x: T)
    requires Lawful(p) && Writable(h) && h.blocksize == FC_HDR_BSIZE_256 && p.encode(x).Some?
    ensures var w := HashEncryptSpec(p, h, x, true);
      && w.err == None
      && Decode(w.bytes[..FC_HDR_LEN]) == w.hdr
      && NBlockBytes(w.hdr) == 32
      && HashDecrypt(w.bytes[FC_HDR_LEN..]) == p.sha256(p.encode(x).value)
  {
    WithNBlocksRepresentable(h, 32);
    var w := HashEncryptSpec(p, h, x, true);
    assert w.bytes[..FC_HDR_LEN] == Encode(w.hdr);
    DecodeEncode(w.hdr);
  }

  /** Appends the bytes of one encrypt call after an append-mode open. */
  method AppendBlock(file: File, parts: seq<seq<Byte>>) returns (err: Option<Error>)
    modifies file
    ensures err == (if old(file.present) then None else Some(OpenFileError))
    ensures file.present == old(file.present) && file.pos == old(file.pos)
    ensures file.contents == if old(file.present) then old(file.contents) + Concat(parts) else old(file.contents)
  {
    err := file.OpenAppend();
    if err.Some? {
      return;
    }
    var i := 0;
    while i < |parts|
      invariant 0 <= i <= |parts|
      invariant file.present == old(file.present) && file.pos == old(file.pos)
      invariant file.contents == old(file.contents) + Concat(parts[..i])
    {
      assert parts[..i + 1] == parts[..i] + [parts[i]];
      ConcatAppend(parts[..i], parts[i]);
      file.Write(parts[i]);
      i := i + 1;
    }
    assert parts[..|parts|] == parts;
  }

  function Concat(parts: seq<seq<Byte>>): seq<Byte>
  {
    if parts == [] then [] else parts[0] + Concat(parts[1..])
  }

  lemma ConcatPair(a: seq<Byte>, b: seq<Byte>)
    ensures Concat([a, b]) == a + b
  {
    assert [a, b][1..] == [b];
    assert [b][1..] == [];
    assert Concat([b]) == b + Concat([]);
  }

  lemma ConcatFour(a: seq<Byte>, b: seq<Byte>, c: seq<Byte>, d: seq<Byte>)
    ensures Concat([a, b, c, d]) == a + b + c + d
  {
    ConcatPair(c, d);
    assert [a, b, c, d][1..] == [b, c, d];
    assert [b, c, d][1..] == [c, d];
  }

  lemma {:induction false} ConcatAppend(parts: seq<seq<Byte>>, last: seq<Byte>)
    ensures Concat(parts + [last]) == Concat(parts) + last
  {
    if parts != [] {
      assert (parts + [last])[1..] == parts[1..] + [last];
      ConcatAppend(parts[1..], last);
    }
  }

  /** ClearFc.encrypt. */
  method ClearEncrypt<T>(p: Primitives<T>, h: FcHdr, file: File, x: T) returns (err: Option<Error>)
    modifies h, file
    ensures var w := ClearEncryptSpec(p, old(h.State()), x, old(file.present));
      err == w.err && h.State() == w.hdr && file.contents == old(file.contents) + w.bytes
    ensures file.present == old(file.present) && file.pos == old(file.pos)
  {
    var enc := p.encode(x);
    if enc.None? {
      return Some(EncodeError);
    }
    var bs := enc.value;
    if BlockBytes(h.blocksize) == 0 {
      return Some(Panic);
    }
    h.SetNBlocks(|bs|);
    var fhdr := Encode(h.State());
    err := AppendBlock(file, [fhdr, bs]);
    ConcatPair(fhdr, bs);
  }

  /** GcmFc.encrypt; `nonce` stands for the random bytes drawn for it. */
  method GcmEncrypt<T>(p: Primitives<T>, h: FcHdr, file: File, key: seq<Byte>, x: T,
                       nonce: seq<Byte>) returns (err: Option<Error>)
    requires |nonce| == GCM_NONCE_SIZE
    modifies h, file
    ensures var w := GcmEncryptSpec(p, old(h.State()), key, x, nonce, old(file.present));
      err == w.err && h.State() == w.hdr && file.contents == old(file.contents) + w.bytes
    ensures file.present == old(file.present) && file.pos == old(file.pos)
  {
    if !AesKeyOk(key) {
      return Some(CipherKeyError);
    }
    var enc := p.encode(x);
    if enc.None? {
      return Some(EncodeError);
    }
    var bs := enc.value;
    var ct := p.seal(key, nonce, bs);
    h.SetNonceSize(|nonce|);
    if BlockBytes(h.blocksize) == 0 {
      return Some(Panic);
    }
    NoncePaddingFillsBlocks(h.State());
    var pad := NoncePaddingLen(h.State());
    h.SetNBlocks(|ct| + |nonce| + pad);
    var fhdr := Encode(h.State());
    err := AppendBlock(file, [fhdr, nonce, Zeros(pad), ct]);
    ConcatFour(fhdr, nonce, Zeros(pad), ct);
  }

  /** RsaFc.encrypt. */
  method RsaEncrypt<T>(p: Primitives<T>, h: FcHdr, file: File, key: seq<Byte>, x: T) returns (err: Option<Error>)
    modifies h, file
    ensures var w := RsaEncryptSpec(p, old(h.State()), key, x, old(file.present));
      err == w.err && h.State() == w.hdr && file.contents == old(file.contents) + w.bytes
    ensures file.present == old(file.present) && file.pos == old(file.pos)
  {
    if !p.parsePublic(key) {
      return Some(KeyParseError);
    }
    var enc := p.encode(x);
    if enc.None? {
      return Some(EncodeError);
    }
    var bs := enc.value;
    if BlockBytes(h.blocksize) <= |bs| {
      return Some(CleartextTooLong);
    }
    var ct := match p.rsaEncrypt(key, bs) case None => [] case Some(c) => c;
    h.SetNBlocks(|ct|);
    var fhdr := Encode(h.State());
    err := AppendBlock(file, [fhdr, ct]);
    ConcatPair(fhdr, ct);
  }

  /** HashFc.encrypt. */
  method HashEncrypt<T>(p: Primitives<T>, h: FcHdr, file: File, x: T) returns (err: Option<Error>)
    modifies h, file
    ensures var w := HashEncryptSpec(p, old(h.State()), x, old(file.present));
      err == w.err && h.State() == w.hdr && file.contents == old(file.contents) + w.bytes
    ensures file.present == old(file.present) && file.pos == old(file.pos)
  {
    var enc := p.encode(x);
    if enc.None? {
      return Some(EncodeError);
    }
    var bs := enc.value;
    if BlockBytes(h.blocksize) == 0 {
      return Some(Panic);
    }
    h.SetNBlocks(32);
    var fhdr := Encode(h.State());
    err := AppendBlock(file, [fhdr]);
    if err.Some? {
      return;
    }
    if h.blocksize != FC_HDR_BSIZE_256 {
      return Some(IncorrectBlockSize);
    }
    file.Write(p.sha256(bs));
  }
}
