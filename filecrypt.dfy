/**
 * The filecrypt container (filecrypt/filecrypt.go): a key header followed by
 * a chain of blocks, each a 16-byte encryption header and the bytes it
 * announces.  `Encrypt` appends one block, producing the key header first
 * when the key object has not done so yet; `Decrypt` reads the whole chain
 * up to the first block tagged LAST or SINGLE.
 */
module FileCrypt {
  import opened Base
  import opened FcConst
  import opened Files
  import opened Primitives
  import opened FcHdrs
  import opened EncTypes
  import Pbkdf2Key
  import opened KeyHdrs

  /** The outcome of decrypting the blocks from some offset on. */
  function Prepend<T>(xs: seq<T>, r: Result<seq<T>>): Result<seq<T>>
  {
    if r.Ok? then Ok(xs + r.value) else r
  }

  /** A block as the loop reads it: its kind, its header and the bytes the header announces. */
  datatype BlockRead = BlockRead(kind: EncKind, hdr: FcHdrState, body: seq<Byte>, next: nat)

  /**
   * One block read at offset `pos`: a 16-byte header (a short read fails),
   * the dispatch on its type byte (an unknown type fails), and exactly the
   * bytes the header announces (a short read fails).
   */
  function ReadBlock(data: seq<Byte>, pos: nat): (r: Result<BlockRead>)
    ensures r.Ok? ==> pos + FC_HDR_LEN <= r.value.next <= |data| && r.value.kind != Hash && r.value.hdr.noncesize >= 0
    ensures r.Ok? ==> r.value.body == data[pos + FC_HDR_LEN..r.value.next]
                      && r.value.hdr == Decode(data[pos..pos + FC_HDR_LEN])
  {
    var r := ReadAt(data, pos, FC_HDR_LEN);
    if r.result.Err? then Err(r.result.error)
    else
      var hb := r.result.value;
      match EncKindOf(hb[1])
      case Err(e) => Err(e)
      case Ok(kind) =>
        var h := Decode(hb);
        var r2 := ReadAt(data, r.next, NBlockBytes(h));
        if r2.result.Err? then Err(r2.result.error)
        else Ok(BlockRead(kind, h, r2.result.value, r2.next))
  }

  /** A per-block decrypt method: from a block's kind, header and bytes to its value or an error. */
  type Decrypter<T> = (EncKind, FcHdrState, seq<Byte>) -> Result<T>

  /**
   * The decrypt method the type byte selects, under `key`.  The reader never
   * hands it a hash block or a negative nonce size (`ReadBlock` rules both
   * out); those inputs give a panic.
   */
  function Dec<T>(p: Primitives<T>, key: seq<Byte>): Decrypter<T>
  {
    (kind: EncKind, h: FcHdrState, body: seq<Byte>) =>
      if kind == Hash || h.noncesize < 0 then Err(Panic) else DecryptBlock(p, kind, h, body, key)
  }

  /**
   * One pass of the `Decrypt` loop and all the passes after it, on file bytes
   * `data` from offset `pos`, with `dec` decrypting each block: a block that
   * cannot be read aborts, a block that fails to decrypt is skipped, a panic
   * while decrypting aborts, and the pass on a LAST or SINGLE block is the
   * last one.
   */
  function Passes<T>(dec: Decrypter<T>, data: seq<Byte>, pos: nat): Result<seq<T>>
    decreases |data| - pos
  {
    match ReadBlock(data, pos)
    case Err(e) => Err(e)
    case Ok(b) =>
      var v := dec(b.kind, b.hdr, b.body);
      if v.Err? && v.error == Panic then Err(Panic)
      else
        var here := if v.Ok? then [v.value] else [];
        if IsLastBlock(b.hdr) then Ok(here)
        else Prepend(here, Passes(dec, data, b.next))
  }

  /** The passes of `Decrypt` under `key`, each block decrypted by the method its type selects. */
  function DecryptBlocks<T>(p: Primitives<T>, key: seq<Byte>, data: seq<Byte>, pos: nat): Result<seq<T>>
  {
    Passes(Dec(p, key), data, pos)
  }

  /**
   * `Decrypt(fname, keyIn)` on a file that is `present` with bytes `data`:
   * the key header at offset 0 gives the key (a short read, an unknown key
   * type or a panic in the variant aborts), then the blocks follow.
   */
  function DecryptSpec<T>(p: Primitives<T>, keyIn: Slice, present: bool, data: seq<Byte>): Result<seq<T>>
  {
    if !present then Err(OpenFileError)
    else
      var r := RetrieveFrom(p, keyIn, data, 0);
      if r.key.Err? then Err(r.key.error)
      else DecryptBlocks(p, BytesOf(r.key.value), data, r.next)
  }

  /**
   * `Decrypt`: opens the file, reads the key header and loops over the
   * blocks until the terminating one, collecting the values that decrypt.
   */
  method Decrypt<T>(p: Primitives<T>, file: File, keyIn: Slice) returns (r: Result<seq<T>>)
    modifies file`pos
    ensures r == DecryptSpec(p, keyIn, file.present, file.contents)
  {
    var e := file.OpenRead();
    if e.Some? {
      return Err(e.value);
    }
    var prefix := file.ReadN(FC_KEYHDR_PREFIX_LEN);
    if prefix.Err? {
      return Err(prefix.error);
    }
    var kind := KeyKindOf(prefix.value[1]);
    if kind.Err? {
      return Err(kind.error);
    }
    var keyOut: Slice;
    match kind.value {
      case NoKeyKind =>
        keyOut := None;
      case DirectKind =>
        keyOut := keyIn;
      case Pbkdf2Kind =>
        var h := new Pbkdf2Key.Pbkdf2Fc();
        var k := h.RetrieveKey(p, keyIn, prefix.value, file);
        if k.Err? {
          return Err(k.error);
        }
        keyOut := k.value;
    }
    r := DecryptLoop(p, file, BytesOf(keyOut));
  }

  /** The block loop of `Decrypt`, from the cursor on, under the key the key header gave. */
  method DecryptLoop<T>(p: Primitives<T>, file: File, key: seq<Byte>) returns (r: Result<seq<T>>)
    modifies file`pos
    ensures r == DecryptBlocks(p, key, file.contents, old(file.pos))
  {
    var result: seq<T> := [];
    var stop := false;
    PrependNil(DecryptBlocks(p, key, file.contents, file.pos));
    while !stop
      invariant !stop ==> DecryptBlocks(p, key, file.contents, old(file.pos)) == Prepend(result, DecryptBlocks(p, key, file.contents, file.pos))
      invariant stop ==> DecryptBlocks(p, key, file.contents, old(file.pos)) == Ok(result)
      decreases if stop then 0 else |file.contents| - file.pos + 1
    {
      ghost var here := file.pos;
      var hdrBytes := file.ReadN(FC_HDR_LEN);
      if hdrBytes.Err? {
        return Err(hdrBytes.error);
      }
      var k2 := EncKindOf(hdrBytes.value[1]);
      if k2.Err? {
        return Err(k2.error);
      }
      var h := Decode(hdrBytes.value);
      if IsLastBlock(h) {
        stop := true;
      }
      var block := file.ReadN(NBlockBytes(h));
      if block.Err? {
        return Err(block.error);
      }
      ghost var br := BlockRead(k2.value, h, block.value, file.pos);
      assert ReadBlock(file.contents, here) == Ok(br);
      var v := DecryptBlock(p, k2.value, h, block.value, key);
      if v.Err? && v.error == Panic {
        return Err(Panic);
      }
      var found := if v.Ok? then [v.value] else [];
      assert Dec(p, key)(k2.value, h, block.value) == v;
      PassesUnfold(Dec(p, key), file.contents, here, br);
      PrependPrepend(result, found, DecryptBlocks(p, key, file.contents, file.pos));
      result := result + found;
    }
    return Ok(result);
  }

  /** The pass on a block that reads whole, by what its decryption gives. */
  lemma PassesUnfold<T>(dec: Decrypter<T>, data: seq<Byte>, pos: nat, br: BlockRead)
    requires ReadBlock(data, pos) == Ok(br)
    ensures var v := dec(br.kind, br.hdr, br.body);
      var found := if v.Ok? then [v.value] else [];
      Passes(dec, data, pos)
        == if v.Err? && v.error == Panic then Err(Panic)
           else if IsLastBlock(br.hdr) then Ok(found)
           else Prepend(found, Passes(dec, data, br.next))
  {
  }

  /**
   * The passes from `pos` skip the block that ends at `next`: nothing when
   * it was the terminating block, otherwise the passes from `next`.
   */
  ghost predicate SkippedAt<T>(dec: Decrypter<T>, data: seq<Byte>, pos: nat, next: nat, last: bool)
  {
    && (last ==> Passes(dec, data, pos) == Ok([]))
    && (!last ==> Passes(dec, data, pos) == Passes(dec, data, next))
  }

  /**
   * A block that reads whole but fails to decrypt (short of a panic)
   * contributes no value: the pass goes on with the next block, or ends
   * with nothing when the block was the terminating one.
   */
  lemma {:induction false} FailedBlockSkipped<T>(dec: Decrypter<T>, data: seq<Byte>, pos: nat, br: BlockRead)
    requires ReadBlock(data, pos) == Ok(br)
    requires dec(br.kind, br.hdr, br.body).Err? && dec(br.kind, br.hdr, br.body).error != Panic
    ensures SkippedAt(dec, data, pos, br.next, IsLastBlock(br.hdr))
  {
    PassesUnfold(dec, data, pos, br);
    PrependNil(Passes(dec, data, br.next));
  }

  lemma PrependPrepend<T>(xs: seq<T>, ys: seq<T>, r: Result<seq<T>>)
    ensures Prepend(xs, Prepend(ys, r)) == Prepend(xs + ys, r)
    ensures Prepend(xs, Ok(ys)) == Ok(xs + ys)
  {
    if r.Ok? {
      assert xs + (ys + r.value) == (xs + ys) + r.value;
    }
  }

  lemma PrependNil<T>(r: Result<seq<T>>)
    ensures Prepend([], r) == r
  {
    if r.Ok? {
      assert [] + r.value == r.value;
    }
  }

  /**
   * A block as a reader expects it: a header whose type the dispatch knows,
   * announcing exactly the bytes that follow, tagged as terminating exactly
   * when `last`, whose bytes `dec` decrypts to `x`.
   */
  ghost predicate GoodBlock<T>(dec: Decrypter<T>, b: seq<Byte>, x: T, last: bool)
  {
    && |b| >= FC_HDR_LEN
    && EncKindOf(b[1]).Ok?
    && NBlockBytes(Decode(b[..FC_HDR_LEN])) == |b| - FC_HDR_LEN
    && IsLastBlock(Decode(b[..FC_HDR_LEN])) == last
    && dec(EncKindOf(b[1]).value, Decode(b[..FC_HDR_LEN]), b[FC_HDR_LEN..]) == Ok(x)
  }

  /** Good blocks for the values `xs`, the last of them alone terminating. */
  ghost predicate GoodChain<T>(dec: Decrypter<T>, blocks: seq<seq<Byte>>, xs: seq<T>)
    decreases |blocks|
  {
    && |blocks| == |xs| > 0
    && GoodBlock(dec, blocks[0], xs[0], |blocks| == 1)
    && (|blocks| > 1 ==> GoodChain(dec, blocks[1..], xs[1..]))
  }

  /** `b` sits in `data` at offset `pos`. */
  predicate At(data: seq<Byte>, pos: nat, b: seq<Byte>)
  {
    pos + |b| <= |data| && data[pos..pos + |b|] == b
  }

  /** A good block is read whole, whatever surrounds it. */
  lemma ReadGoodBlock<T>(dec: Decrypter<T>, data: seq<Byte>, pos: nat, b: seq<Byte>, x: T, last: bool)
    requires GoodBlock(dec, b, x, last) && At(data, pos, b)
    ensures ReadBlock(data, pos)
            == Ok(BlockRead(EncKindOf(b[1]).value, Decode(b[..FC_HDR_LEN]), b[FC_HDR_LEN..], pos + |b|))
  {
    assert data[pos..pos + FC_HDR_LEN] == b[..FC_HDR_LEN];
    assert data[pos + FC_HDR_LEN..pos + |b|] == b[FC_HDR_LEN..];
  }

  /** The pass on a good block, whatever surrounds it. */
  lemma {:induction false} GoodBlockStep<T>(dec: Decrypter<T>, data: seq<Byte>, pos: nat, next: nat,
                                            b: seq<Byte>, x: T, last: bool)
    requires GoodBlock(dec, b, x, last) && At(data, pos, b) && next == pos + |b|
    ensures last ==> Passes(dec, data, pos) == Ok([x])
    ensures !last ==> Passes(dec, data, pos) == Prepend([x], Passes(dec, data, next))
  {
    ReadGoodBlock(dec, data, pos, b, x, last);
    var br := BlockRead(EncKindOf(b[1]).value, Decode(b[..FC_HDR_LEN]), b[FC_HDR_LEN..], next);
    PassesUnfold(dec, data, pos, br);
  }

  /** The pass on a good terminating block yields its value alone. */
  lemma LastStep<T>(dec: Decrypter<T>, data: seq<Byte>, pos: nat, b: seq<Byte>, x: T)
    requires GoodBlock(dec, b, x, true) && At(data, pos, b)
    ensures Passes(dec, data, pos) == Ok([x])
  {
    GoodBlockStep(dec, data, pos, pos + |b|, b, x, true);
  }

  /** The pass on a good inner block puts its value in front of what follows it. */
  lemma {:induction false} InnerStep<T>(dec: Decrypter<T>, data: seq<Byte>, pos: nat, next: nat, b: seq<Byte>, x: T, rest: seq<T>)
    requires GoodBlock(dec, b, x, false) && At(data, pos, b) && next == pos + |b|
    requires Passes(dec, data, next) == Ok(rest)
    ensures Passes(dec, data, pos) == Ok([x] + rest)
  {
    GoodBlockStep(dec, data, pos, next, b, x, false);
    PrependOk([x], Passes(dec, data, next), rest);
  }

  lemma PrependOk<T>(xs: seq<T>, r: Result<seq<T>>, rest: seq<T>)
    requires r == Ok(rest)
    ensures Prepend(xs, r) == Ok(xs + rest)
  {
  }

  /** A sequence in front of another at some offset: each sits where expected. */
  lemma AtSplit(data: seq<Byte>, pos: nat, b: seq<Byte>, tail: seq<Byte>)
    requires At(data, pos, b + tail)
    ensures At(data, pos, b) && At(data, pos + |b|, tail)
  {
    assert data[pos..pos + |b|] == (b + tail)[..|b|];
    assert data[pos + |b|..pos + |b| + |tail|] == (b + tail)[|b|..];
  }

  /**
   * A chain of good blocks, only the last of them terminating, decrypts to
   * their values in order, whatever precedes the chain and whatever follows
   * it (nothing after the terminating block is read).
   */
  lemma {:induction false} DecryptChain<T>(dec: Decrypter<T>, data: seq<Byte>, pos: nat,
                                           blocks: seq<seq<Byte>>, xs: seq<T>)
    requires GoodChain(dec, blocks, xs) && At(data, pos, Concat(blocks))
    ensures Passes(dec, data, pos) == Ok(xs)
    decreases |blocks|
  {
    var b := blocks[0];
    assert Concat(blocks) == b + Concat(blocks[1..]);
    AtSplit(data, pos, b, Concat(blocks[1..]));
    ConsTail(xs);
    if |blocks| == 1 {
      LastStep(dec, data, pos, b, xs[0]);
    } else {
      var rest, next := xs[1..], pos + |b|;
      DecryptChain(dec, data, next, blocks[1..], rest);
      InnerStep(dec, data, pos, next, b, xs[0], rest);
    }
  }

  lemma ConsTail<T>(xs: seq<T>)
    requires |xs| > 0
    ensures [xs[0]] + xs[1..] == xs
    ensures |xs| == 1 ==> xs == [xs[0]]
  {
  }

  /**
   * A file holding a key header that yields `k`, then a chain of good blocks
   * under `k`, decrypts to the blocks' values in order.
   */
  lemma DecryptFile<T>(p: Primitives<T>, keyIn: Slice, kh: seq<Byte>, k: Slice,
                       blocks: seq<seq<Byte>>, xs: seq<T>, rest: seq<Byte>)
    requires RetrieveFrom(p, keyIn, kh + Concat(blocks) + rest, 0) == Pbkdf2Key.Retrieved(Ok(k), |kh|)
    requires GoodChain(Dec(p, BytesOf(k)), blocks, xs)
    ensures DecryptSpec(p, keyIn, true, kh + Concat(blocks) + rest) == Ok(xs)
  {
    var data := kh + Concat(blocks) + rest;
    assert data[|kh|..|kh| + |Concat(blocks)|] == Concat(blocks);
    DecryptChain(Dec(p, BytesOf(k)), data, |kh|, blocks, xs);
  }

  /** A clear block written with a header of the clear type is a good block under any key. */
  lemma ClearBlockGood<T(!new)>(p: Primitives<T>, h: FcHdrState, x: T, key: seq<Byte>)
    requires Lawful(p) && Writable(h) && h.fctype == FC_CLEAR
    requires p.encode(x).Some? && |p.encode(x).value| < MAX_STREAM
    ensures var w := ClearEncryptSpec(p, h, x, true);
      w.err == None && GoodBlock(Dec(p, key), w.bytes, x, IsLastBlock(h))
  {
    ClearRoundTrip(p, h, x);
    var w := ClearEncryptSpec(p, h, x, true);
    assert w.bytes[1] == w.bytes[..FC_HDR_LEN][1];
  }

  /** A GCM block written with a header of the GCM type is a good block under the sealing key. */
  lemma GcmBlockGood<T(!new)>(p: Primitives<T>, h: FcHdrState, key: seq<Byte>, x: T, nonce: seq<Byte>)
    requires Lawful(p) && Writable(h) && h.fctype == FC_GCM && AesKeyOk(key) && |nonce| == GCM_NONCE_SIZE
    requires p.encode(x).Some? && |p.encode(x).value| < MAX_STREAM - 64
    ensures var w := GcmEncryptSpec(p, h, key, x, nonce, true);
      w.err == None && GoodBlock(Dec(p, key), w.bytes, x, IsLastBlock(h))
  {
    GcmRoundTrip(p, h, key, x, nonce);
    var w := GcmEncryptSpec(p, h, key, x, nonce, true);
    assert w.bytes[1] == w.bytes[..FC_HDR_LEN][1];
  }

  /**
   * A block laid out as a reader expects, but which `dec` fails to decrypt
   * (short of a panic), contributes no value: reading goes on with the
   * block after it, or ends with nothing when it was the terminating one.
   */
  lemma {:induction false} BadBlockSkipped<T>(good: Decrypter<T>, dec: Decrypter<T>, data: seq<Byte>, pos: nat,
                           b: seq<Byte>, x: T, last: bool)
    requires GoodBlock(good, b, x, last) && At(data, pos, b)
    requires var v := dec(EncKindOf(b[1]).value, Decode(b[..FC_HDR_LEN]), b[FC_HDR_LEN..]);
      v.Err? && v.error != Panic
    ensures SkippedAt(dec, data, pos, pos + |b|, last)
  {
    var br := BlockRead(EncKindOf(b[1]).value, Decode(b[..FC_HDR_LEN]), b[FC_HDR_LEN..], pos + |b|);
    assert ReadBlock(data, pos) == Ok(br) && IsLastBlock(br.hdr) == last by {
      ReadGoodBlock(good, data, pos, b, x, last);
    }
    FailedBlockSkipped(dec, data, pos, br);
  }

  /**
   * A GCM block sealed under `key` is a good block under that key, and the
   * method the reader picks under `other` fails on it with an error that is
   * not a panic when `gcm.Open` rejects the sealed stream under `other`.
   */
  lemma GcmBlockRejected<T(!new)>(p: Primitives<T>, h: FcHdrState, key: seq<Byte>,
                                  other: seq<Byte>, x: T, nonce: seq<Byte>, w: Written)
    requires Lawful(p) && Writable(h) && h.fctype == FC_GCM && AesKeyOk(key) && |nonce| == GCM_NONCE_SIZE
    requires p.encode(x).Some? && |p.encode(x).value| < MAX_STREAM - 64
    requires AesKeyOk(other) && p.open(other, nonce, p.seal(key, nonce, p.encode(x).value)).None?
    requires w == GcmEncryptSpec(p, h, key, x, nonce, true)
    ensures GoodBlock(Dec(p, key), w.bytes, x, IsLastBlock(h))
    ensures var v := Dec(p, other)(EncKindOf(w.bytes[1]).value, Decode(w.bytes[..FC_HDR_LEN]), w.bytes[FC_HDR_LEN..]);
      v == Err(AuthenticationError)
  {
    GcmBlockLayout(p, h, key, x, nonce);
    GcmBlockGood(p, h, key, x, nonce);
    GcmWrongKey(p, h, key, other, x, nonce);
    var hdr := Decode(w.bytes[..FC_HDR_LEN]);
    assert hdr == w.hdr;
    assert EncKindOf(w.bytes[1]) == Ok(Gcm) by {
      assert w.bytes[1] == w.bytes[..FC_HDR_LEN][1] == hdr.fctype == FC_GCM;
    }
    var body := w.bytes[FC_HDR_LEN..];
    assert Dec(p, other)(Gcm, hdr, body) == DecryptBlock(p, Gcm, hdr, body, other);
  }

  /**
   * A GCM block sealed under `key` and read under `other`, which `gcm.Open`
   * rejects: the block contributes no value and reading goes on with the
   * block after it, or ends with nothing when it was the terminating one.
   */
  lemma {:induction false} GcmBlockUnderOtherKeySkipped<T(!new)>(p: Primitives<T>, h: FcHdrState, key: seq<Byte>,
                                              other: seq<Byte>, x: T, nonce: seq<Byte>,
                                              b: seq<Byte>, data: seq<Byte>, pos: nat)
    requires Lawful(p) && Writable(h) && h.fctype == FC_GCM && AesKeyOk(key) && |nonce| == GCM_NONCE_SIZE
    requires p.encode(x).Some? && |p.encode(x).value| < MAX_STREAM - 64
    requires AesKeyOk(other) && p.open(other, nonce, p.seal(key, nonce, p.encode(x).value)).None?
    requires b == GcmEncryptSpec(p, h, key, x, nonce, true).bytes && At(data, pos, b)
    ensures SkippedAt(Dec(p, other), data, pos, pos + |b|, IsLastBlock(h))
  {
    GcmBlockRejected(p, h, key, other, x, nonce, GcmEncryptSpec(p, h, key, x, nonce, true));
    BadBlockSkipped(Dec(p, key), Dec(p, other), data, pos, b, x, IsLastBlock(h));
  }

  /** An encryption object: its variant and the header it updates in place. */
  datatype EncHdr = EncHdr(kind: EncKind, hdr: FcHdr)

  /** `encHdr.encrypt(fname, key, cleartext)` on header values, by variant. */
  function EncryptSpec<T>(p: Primitives<T>, kind: EncKind, h: FcHdrState, key: seq<Byte>, x: T,
                          nonce: seq<Byte>, present: bool): Written
    requires |nonce| == GCM_NONCE_SIZE
  {
    match kind
    case Clear => ClearEncryptSpec(p, h, x, present)
    case Gcm => GcmEncryptSpec(p, h, key, x, nonce, present)
    case Rsa => RsaEncryptSpec(p, h, key, x, present)
    case Hash => HashEncryptSpec(p, h, x, present)
  }

  /** `encHdr.encrypt`, dispatched on the variant; `nonce` is used by GCM only. */
  method EncryptBlock<T>(p: Primitives<T>, e: EncHdr, file: File, key: seq<Byte>, x: T, nonce: seq<Byte>)
    returns (err: Option<Error>)
    requires |nonce| == GCM_NONCE_SIZE
    modifies e.hdr, file
    ensures var w := EncryptSpec(p, e.kind, old(e.hdr.State()), key, x, nonce, old(file.present));
      err == w.err && e.hdr.State() == w.hdr && file.contents == old(file.contents) + w.bytes
    ensures file.present == old(file.present)
  {
    match e.kind {
      case Clear => err := ClearEncrypt(p, e.hdr, file, x);
      case Gcm => err := GcmEncrypt(p, e.hdr, file, key, x, nonce);
      case Rsa => err := RsaEncrypt(p, e.hdr, file, key, x);
      case Hash => err := HashEncrypt(p, e.hdr, file, x);
    }
  }

  /**
   * `Encrypt(keyHdr, encHdr, fname, cleartext)`: the key header produces
   * the key (writing itself on the first call); if that fails nothing else
   * happens, otherwise the block is encrypted under that key and appended.
   */
  method Encrypt<T>(p: Primitives<T>, kh: KeyHdr, e: EncHdr, file: File, x: T, nonce: seq<Byte>)
    returns (err: Option<Error>)
    requires |nonce| == GCM_NONCE_SIZE
    requires e.hdr !in Footprint(kh)
    modifies Footprint(kh), e.hdr, file
    ensures var g := old(KeyGenOf(p, kh, file.present));
      var after := AfterKeyGen(g, old(file.contents));
      && (g.err.Some? ==> err == g.err && file.contents == after && e.hdr.State() == old(e.hdr.State()))
      && (g.err.None? ==>
            var w := EncryptSpec(p, e.kind, old(e.hdr.State()), BytesOf(g.key), x, nonce, old(file.present) || g.truncate);
            err == w.err && e.hdr.State() == w.hdr && file.contents == after + w.bytes)
  {
    var key, kerr := GenerateKey(p, kh, file);
    if kerr.Some? {
      return kerr;
    }
    err := EncryptBlock(p, e, file, BytesOf(key), x, nonce);
  }

  /** Good blocks, only the last terminating, form a good chain. */
  lemma {:induction false} GoodChainOf<T>(dec: Decrypter<T>, blocks: seq<seq<Byte>>, xs: seq<T>)
    requires |blocks| == |xs| > 0
    requires forall i :: 0 <= i < |blocks| ==> GoodBlock(dec, blocks[i], xs[i], i == |blocks| - 1)
    ensures GoodChain(dec, blocks, xs)
    decreases |blocks|
  {
    assert GoodBlock(dec, blocks[0], xs[0], 0 == |blocks| - 1);
    if |blocks| > 1 {
      forall i | 0 <= i < |blocks| - 1
        ensures GoodBlock(dec, blocks[1..][i], xs[1..][i], i == |blocks[1..]| - 1)
      {
        assert GoodBlock(dec, blocks[i + 1], xs[i + 1], i + 1 == |blocks| - 1);
      }
      GoodChainOf(dec, blocks[1..], xs[1..]);
    }
  }

  /**
   * A backup written with a Direct key header and GCM blocks under that key,
   * the last block alone tagged LAST or SINGLE, decrypts with the same key
   * to the values in the order they were written.
   */
  lemma DirectGcmRoundTrip<T(!new)>(p: Primitives<T>, key: seq<Byte>, version: Byte,
                                     hs: seq<FcHdrState>, xs: seq<T>, nonces: seq<seq<Byte>>)
    requires Lawful(p) && AesKeyOk(key)
    requires |hs| == |xs| == |nonces| > 0
    requires forall i :: 0 <= i < |hs| ==>
      && Writable(hs[i]) && hs[i].fctype == FC_GCM && |nonces[i]| == GCM_NONCE_SIZE
      && (IsLastBlock(hs[i]) <==> i == |hs| - 1)
      && p.encode(xs[i]).Some? && |p.encode(xs[i]).value| < MAX_STREAM - 64
    ensures var blocks := seq(|hs|, i requires 0 <= i < |hs| => GcmEncryptSpec(p, hs[i], key, xs[i], nonces[i], true).bytes);
      DecryptSpec(p, Some(key), true, [version, FC_KEY_T_DIRECT] + Concat(blocks)) == Ok(xs)
  {
    var blocks := seq(|hs|, i requires 0 <= i < |hs| => GcmEncryptSpec(p, hs[i], key, xs[i], nonces[i], true).bytes);
    forall i | 0 <= i < |blocks|
      ensures GoodBlock(Dec(p, key), blocks[i], xs[i], i == |blocks| - 1)
    {
      GcmBlockGood(p, hs[i], key, xs[i], nonces[i]);
    }
    GoodChainOf(Dec(p, key), blocks, xs);
    RetrievePrefixHeader(p, Some(key), version, DirectKind, Concat(blocks));
    assert [version, FC_KEY_T_DIRECT] + Concat(blocks) + [] == [version, FC_KEY_T_DIRECT] + Concat(blocks);
    DecryptFile(p, Some(key), [version, FC_KEY_T_DIRECT], Some(key), blocks, xs, []);
  }

  /**
   * A backup written with a NoKey header and clear blocks, the last block
   * alone terminating, decrypts to the values in order whatever key the
   * reader supplies.
   */
  lemma NoKeyClearRoundTrip<T(!new)>(p: Primitives<T>, keyIn: Slice, version: Byte, hs: seq<FcHdrState>, xs: seq<T>)
    requires Lawful(p)
    requires |hs| == |xs| > 0
    requires forall i :: 0 <= i < |hs| ==>
      && Writable(hs[i]) && hs[i].fctype == FC_CLEAR
      && (IsLastBlock(hs[i]) <==> i == |hs| - 1)
      && p.encode(xs[i]).Some? && |p.encode(xs[i]).value| < MAX_STREAM
    ensures var blocks := seq(|hs|, i requires 0 <= i < |hs| => ClearEncryptSpec(p, hs[i], xs[i], true).bytes);
      DecryptSpec(p, keyIn, true, [version, FC_KEY_T_NOKEY] + Concat(blocks)) == Ok(xs)
  {
    var blocks := seq(|hs|, i requires 0 <= i < |hs| => ClearEncryptSpec(p, hs[i], xs[i], true).bytes);
    forall i | 0 <= i < |blocks|
      ensures GoodBlock(Dec(p, []), blocks[i], xs[i], i == |blocks| - 1)
    {
      ClearBlockGood(p, hs[i], xs[i], []);
    }
    GoodChainOf(Dec(p, []), blocks, xs);
    RetrievePrefixHeader(p, keyIn, version, NoKeyKind, Concat(blocks));
    assert [version, FC_KEY_T_NOKEY] + Concat(blocks) + [] == [version, FC_KEY_T_NOKEY] + Concat(blocks);
    DecryptFile(p, keyIn, [version, FC_KEY_T_NOKEY], None, blocks, xs, []);
  }

  /**
   * A backup written with a PBKDF2 key header and GCM blocks under the key
   * it derived from the password, the last block alone terminating,
   * decrypts with the same password to the values in order.
   */
  lemma Pbkdf2GcmRoundTrip<T(!new)>(p: Primitives<T>, keyIn: Slice, ph: Pbkdf2Key.Pbkdf2State,
                                     hs: seq<FcHdrState>, xs: seq<T>, nonces: seq<seq<Byte>>)
    requires Lawful(p) && Pbkdf2Key.Representable(ph) && ph.keytype == FC_KEY_T_PBKDF2
    requires Pbkdf2Key.DerivedKey(p, ph, keyIn).Ok? && AesKeyOk(Pbkdf2Key.DerivedKey(p, ph, keyIn).value)
    requires |hs| == |xs| == |nonces| > 0
    requires forall i :: 0 <= i < |hs| ==>
      && Writable(hs[i]) && hs[i].fctype == FC_GCM && |nonces[i]| == GCM_NONCE_SIZE
      && (IsLastBlock(hs[i]) <==> i == |hs| - 1)
      && p.encode(xs[i]).Some? && |p.encode(xs[i]).value| < MAX_STREAM - 64
    ensures Pbkdf2Key.Encode(ph).Ok?
    ensures var key := Pbkdf2Key.DerivedKey(p, ph, keyIn).value;
      var blocks := seq(|hs|, i requires 0 <= i < |hs| => GcmEncryptSpec(p, hs[i], key, xs[i], nonces[i], true).bytes);
      DecryptSpec(p, keyIn, true, Pbkdf2Key.Encode(ph).value + Concat(blocks)) == Ok(xs)
  {
    var key := Pbkdf2Key.DerivedKey(p, ph, keyIn).value;
    var blocks := seq(|hs|, i requires 0 <= i < |hs| => GcmEncryptSpec(p, hs[i], key, xs[i], nonces[i], true).bytes);
    forall i | 0 <= i < |blocks|
      ensures GoodBlock(Dec(p, key), blocks[i], xs[i], i == |blocks| - 1)
    {
      GcmBlockGood(p, hs[i], key, xs[i], nonces[i]);
    }
    GoodChainOf(Dec(p, key), blocks, xs);
    RetrievePbkdf2Header(p, ph, keyIn, Concat(blocks));
    var kh := Pbkdf2Key.Encode(ph).value;
    assert |kh| == ph.hdrlen;
    assert kh + Concat(blocks) + [] == kh + Concat(blocks);
    DecryptFile(p, keyIn, kh, Some(key), blocks, xs, []);
  }
}
