/**
 * The 16-byte encryption header of the revision without a block index
 * (filecrypt/hdre.go), with its four block sizes:
 *
 *   offset 0  version        offset 3  nonce size
 *   offset 1  encryption type offset 4  size of the last block (one byte)
 *   offset 2  block-size class offsets 5..12  number of blocks, little-endian
 *   offsets 13..15 zero
 *
 * The last-block size of the 512-byte class does not always fit its byte.
 */
module Hdre {
  import opened Base
  import opened FcConst
  import opened Files
  import opened Primitives
  import EncTypes
  import FcHdrs

  const FC_HDR_BSIZE_128 := 0
  const FC_HDR_BSIZE_256 := 1
  const FC_HDR_BSIZE_2048 := 2
  const FC_HDR_BSIZE_4096 := 3
  const FC_HDR_NBSIZE := 4

  const FC_HDR_BSIZE_OFFSET := 2
  const FC_HDR_NONCESIZE_OFFSET := 3
  const FC_HDR_LAST_BLOCKSIZE_OFFSET := 4
  const FC_HDR_NBLOCKS_OFFSET := 5
  const FC_HDR_END_OFFSET := 13

  /** The header occupies as many bytes as the smallest block. */
  const HDRE_LEN := 16

  /** `fcBsize`: a class outside the table reads as 0, as a missing map key does. */
  function BlockBytes(cls: int): int
  {
    if cls == FC_HDR_BSIZE_128 then 16
    else if cls == FC_HDR_BSIZE_256 then 32
    else if cls == FC_HDR_BSIZE_2048 then 256
    else if cls == FC_HDR_BSIZE_4096 then 512
    else 0
  }

  datatype HdreState = HdreState(
    version: int,
    fctype: int,
    blocksize: int,
    noncesize: int,
    lastBlocksize: int,
    nblocks: int)

  /** `toBytes`. */
  function Encode(h: HdreState): (r: seq<Byte>)
    ensures |r| == HDRE_LEN
    ensures r[13] == 0 && r[14] == 0 && r[15] == 0
  {
    [ToByte(h.version), ToByte(h.fctype), ToByte(h.blocksize), ToByte(h.noncesize), ToByte(h.lastBlocksize)]
    + LeBytes(ToUint64(h.nblocks), 8) + [0, 0, 0]
  }

  /** `fromBytes`: reads offsets 0 to 12. */
  function Decode(b: seq<Byte>): HdreState
    requires |b| >= FC_HDR_END_OFFSET
  {
    LeValueBound(b[5..13]);
    Pow256Values();
    HdreState(b[0], b[1], b[2], b[3], b[4], ToInt64(LeValue(b[5..13])))
  }

  /** The headers whose fields all fit the layout. */
  predicate Representable(h: HdreState)
  {
    0 <= h.version < 256 && 0 <= h.fctype < 256 && 0 <= h.blocksize < 256
    && 0 <= h.noncesize < 256 && 0 <= h.lastBlocksize < 256 && IsInt64(h.nblocks)
  }

  lemma DecodeEncode(h: HdreState)
    requires Representable(h)
    ensures Decode(Encode(h)) == h
  {
    var b := Encode(h);
    Pow256Values();
    assert b[5..13] == LeBytes(ToUint64(h.nblocks), 8);
    LeValueOfBytes(ToUint64(h.nblocks), 8);
    Int64RoundTrip(h.nblocks);
  }

  /** Whatever the fields, the header reads back their low bytes and the block count. */
  lemma DecodeEncodeLowBytes(h: HdreState)
    requires IsInt64(h.nblocks)
    ensures Decode(Encode(h)) == HdreState(ToByte(h.version), ToByte(h.fctype), ToByte(h.blocksize),
                                           ToByte(h.noncesize), ToByte(h.lastBlocksize), h.nblocks)
  {
    var b := Encode(h);
    Pow256Values();
    assert b[5..13] == LeBytes(ToUint64(h.nblocks), 8);
    LeValueOfBytes(ToUint64(h.nblocks), 8);
    Int64RoundTrip(h.nblocks);
  }

  /** `getNBlockBytes`. */
  function NBlockBytes(h: HdreState): int
  {
    var bs := BlockBytes(h.blocksize);
    var full := Wrap64(bs * h.nblocks);
    if h.lastBlocksize > 0 then Wrap64(full - (bs - h.lastBlocksize)) else full
  }

  /**
   * `getNBlockBytes` multiplies in 64-bit `int`: `2^60` blocks of 16 bytes
   * announce no bytes, and `2^55` blocks of 512 bytes with a last block of
   * 100 announce -412 bytes.
   */
  lemma NBlockBytesWraps()
    ensures NBlockBytes(HdreState(0, 0, FC_HDR_BSIZE_128, 0, 0, 0x1000_0000_0000_0000)) == 0
    ensures NBlockBytes(HdreState(0, 0, FC_HDR_BSIZE_4096, 0, 100, 0x0080_0000_0000_0000)) == -412
  {
  }

  /** `setNBlocks(nbytes)` on a header value. */
  function WithNBlocks(h: HdreState, n: int): HdreState
    requires BlockBytes(h.blocksize) != 0
  {
    var bs := BlockBytes(h.blocksize);
    h.(nblocks := GoDiv(n + bs - 1, bs), lastBlocksize := GoMod(n, bs))
  }

  lemma NBlockBytesAfterSetNBlocks(h: HdreState, n: int)
    requires n >= 0 && BlockBytes(h.blocksize) != 0
    requires n + BlockBytes(h.blocksize) <= TWO63
    ensures var g := WithNBlocks(h, n);
      var bs := BlockBytes(h.blocksize);
      && NBlockBytes(g) == n
      && 0 <= g.lastBlocksize < bs
      && (g.nblocks - 1) * bs < n <= g.nblocks * bs
  {
    var bs := BlockBytes(h.blocksize);
    GoDivModNonNegative(n + bs - 1, bs);
    GoDivModNonNegative(n, bs);
    var q := n / bs;
    var r := n % bs;
    var g := WithNBlocks(h, n);
    if r == 0 {
      DivUnique(n + bs - 1, bs, q, bs - 1);
      assert g.nblocks == q && g.lastBlocksize == 0;
      assert bs * g.nblocks == n;
    } else {
      DivUnique(n + bs - 1, bs, q + 1, r - 1);
      assert g.nblocks == q + 1 && g.lastBlocksize == r;
      assert bs * g.nblocks == n + (bs - r);
      assert IsInt64(n + (bs - r));
    }
  }

  /**
   * For the three smaller classes the header written after `setNBlocks(n)`
   * reads back with `getNBlockBytes() == n`.
   */
  lemma SmallClassRoundTrip(h: HdreState, n: int)
    requires n >= 0 && 0 <= h.blocksize < FC_HDR_BSIZE_4096
    requires 0 <= h.version < 256 && 0 <= h.fctype < 256 && 0 <= h.noncesize < 256
    requires n < 0x1000_0000_0000_0000
    ensures Decode(Encode(WithNBlocks(h, n))) == WithNBlocks(h, n)
    ensures NBlockBytes(Decode(Encode(WithNBlocks(h, n)))) == n
  {
    NBlockBytesAfterSetNBlocks(h, n);
    var bs := BlockBytes(h.blocksize);
    var g := WithNBlocks(h, n);
    assert g.nblocks <= n + bs - 1 by {
      GoDivModNonNegative(n + bs - 1, bs);
      DivUnique(n + bs - 1, bs, (n + bs - 1) / bs, (n + bs - 1) % bs);
      MulBounds((n + bs - 1) / bs, bs);
    }
    DecodeEncode(g);
  }

  /**
   * In the 512-byte class the last-block size is cut to its low byte: 300
   * bytes are written as a last block of 44, and the header read back
   * announces 44 bytes instead of 300.
   */
  lemma LastBlocksizeTruncated()
    ensures var h := WithNBlocks(HdreState(0, 0, FC_HDR_BSIZE_4096, 0, 0, 0), 300);
      && h.nblocks == 1 && h.lastBlocksize == 300
      && Decode(Encode(h)).lastBlocksize == 44
      && NBlockBytes(h) == 300 && NBlockBytes(Decode(Encode(h))) == 44
  {
    var h := WithNBlocks(HdreState(0, 0, FC_HDR_BSIZE_4096, 0, 0, 0), 300);
    DivUnique(811, 512, 1, 299);
    DivUnique(300, 512, 0, 300);
    assert h.nblocks == 1 && h.lastBlocksize == 300;
    DecodeEncodeLowBytes(h);
    DivUnique(300, 256, 1, 44);
  }

  /** `getNoncePaddingLen`. */
  function NoncePaddingLen(h: HdreState): int
    requires BlockBytes(h.blocksize) != 0
  {
    var bs := BlockBytes(h.blocksize);
    GoDiv(h.noncesize + bs - 1, bs) * bs - h.noncesize
  }

  lemma NoncePaddingFillsBlocks(h: HdreState)
    requires h.noncesize >= 0 && BlockBytes(h.blocksize) != 0
    ensures var p := NoncePaddingLen(h);
      0 <= p < BlockBytes(h.blocksize) && (h.noncesize + p) % BlockBytes(h.blocksize) == 0
  {
    var bs := BlockBytes(h.blocksize);
    GoDivModNonNegative(h.noncesize + bs - 1, bs);
    RoundUp(h.noncesize, bs);
  }

  /** The class whose byte size is `bytes`, if any. */
  function SizeClass(bytes: int): (r: Option<int>)
    ensures r.Some? ==> 0 <= r.value < FC_HDR_NBSIZE && BlockBytes(r.value) == bytes
    ensures r.None? ==> forall c :: 0 <= c < FC_HDR_NBSIZE ==> BlockBytes(c) != bytes
  {
    if bytes == 16 then Some(FC_HDR_BSIZE_128)
    else if bytes == 32 then Some(FC_HDR_BSIZE_256)
    else if bytes == 256 then Some(FC_HDR_BSIZE_2048)
    else if bytes == 512 then Some(FC_HDR_BSIZE_4096)
    else None
  }

  /** The padding `getNoncePaddingLen` gives, or `None` where it would divide by zero. */
  function PaddingOf(h: HdreState): Option<int>
  {
    if BlockBytes(h.blocksize) == 0 then None else Some(NoncePaddingLen(h))
  }

  /** The `decrypt` of each variant under this header. */
  function DecryptWith<T>(p: Primitives<T>, kind: EncTypes.EncKind, h: HdreState, block: seq<Byte>, key: seq<Byte>): Result<T>
    requires kind != EncTypes.Hash && h.noncesize >= 0
  {
    match kind
    case Clear => EncTypes.ClearDecrypt(p, block)
    case Gcm => EncTypes.GcmDecrypt(p, block, key, h.noncesize, PaddingOf(h))
    case Rsa => EncTypes.RsaDecrypt(p, block, key)
  }

  /**
   * `getNBlockBytes` of the variant `getEncFCFromType` builds for `kind`,
   * after its `fromBytes(b)`.  `ClearFc` embeds the block-indexed header of
   * filecrypt/fchdr.go (filecrypt/clear_e.go), so a clear block is sized by
   * that header's layout; the GCM and RSA variants embed this one.
   */
  function BodyLen(kind: EncTypes.EncKind, b: seq<Byte>): int
    requires |b| == HDRE_LEN
  {
    if kind == EncTypes.Clear then FcHdrs.NBlockBytes(FcHdrs.Decode(b)) else NBlockBytes(Decode(b))
  }

  /**
   * `decryptBlock(file, offset, key)` on file bytes `data`: seek (a negative
   * offset fails), read and dispatch the header (`newHdrEncryptFromFile`),
   * read exactly the bytes the variant's header announces, and decrypt
   * them; any failure before the decryption returns no value.
   */
  function DecryptBlockAt<T>(p: Primitives<T>, data: seq<Byte>, offset: int, key: seq<Byte>): (r: Result<T>)
    ensures offset < 0 ==> r == Err(SeekError)
    ensures offset >= 0 && offset + HDRE_LEN > |data| ==> r == Err(IncorrectFileFormat)
  {
    if offset < 0 then Err(SeekError)
    else
      var r := ReadAt(data, offset, HDRE_LEN);
      if r.result.Err? then Err(r.result.error)
      else
        match EncTypes.EncKindOf(r.result.value[1])
        case Err(e) => Err(e)
        case Ok(kind) =>
          var r2 := ReadAt(data, r.next, BodyLen(kind, r.result.value));
          if r2.result.Err? then Err(r2.result.error)
          else DecryptWith(p, kind, Decode(r.result.value), r2.result.value, key)
  }

  /**
   * A GCM or RSA block written at `offset` (a representable header of this
   * layout announcing exactly the bytes that follow it) is decrypted from
   * those bytes, whatever surrounds it.
   */
  lemma DecryptBlockWritten<T>(p: Primitives<T>, pre: seq<Byte>, h: HdreState, body: seq<Byte>,
                               post: seq<Byte>, key: seq<Byte>)
    requires Representable(h) && FC_CLEAR < h.fctype < FC_NTYPE && NBlockBytes(h) == |body|
    ensures EncTypes.EncKindOf(h.fctype).Ok?
    ensures DecryptBlockAt(p, pre + Encode(h) + body + post, |pre|, key)
            == DecryptWith(p, EncTypes.EncKindOf(h.fctype).value, h, body, key)
  {
    var data := pre + Encode(h) + body + post;
    assert data[|pre|..|pre| + HDRE_LEN] == Encode(h);
    DecodeEncode(h);
    assert data[|pre| + HDRE_LEN..|pre| + HDRE_LEN + |body|] == body;
  }

  /**
   * A clear block written at `offset` carries the block-indexed header
   * `ClearFc` writes (filecrypt/clear_e.go); it is sized by that header and
   * decodes to the codec's value of the bytes that follow it.
   */
  lemma ClearBlockWritten<T>(p: Primitives<T>, pre: seq<Byte>, h: FcHdrs.FcHdrState, body: seq<Byte>,
                             post: seq<Byte>, key: seq<Byte>)
    requires FcHdrs.Representable(h) && h.fctype == FC_CLEAR && FcHdrs.NBlockBytes(h) == |body|
    ensures DecryptBlockAt(p, pre + FcHdrs.Encode(h) + body + post, |pre|, key)
            == EncTypes.ClearDecrypt(p, body)
  {
    var data := pre + FcHdrs.Encode(h) + body + post;
    assert data[|pre|..|pre| + HDRE_LEN] == FcHdrs.Encode(h);
    FcHdrs.DecodeEncode(h);
    assert data[|pre| + HDRE_LEN..|pre| + HDRE_LEN + |body|] == body;
  }

  class HdreFc {
    var version: int
    var fctype: int
    var blocksize: int
    var noncesize: int
    var lastBlocksize: int
    var nblocks: int

    function State(): HdreState
      reads this
    {
      HdreState(version, fctype, blocksize, noncesize, lastBlocksize, nblocks)
    }

    constructor ()
      ensures State() == HdreState(0, 0, 0, 0, 0, 0)
    {
      version, fctype, blocksize, noncesize, lastBlocksize, nblocks := 0, 0, 0, 0, 0, 0;
    }

    /**
     * `fillHdr`: rejects a version or type past the known ones and a block
     * size in bytes that is not in the table; otherwise records them (the
     * size as its class) and leaves the other fields.
     */
    method FillHdr(v: int, fct: int, bytes: int) returns (err: Option<Error>)
      modifies this
      ensures err.None? <==> v < FC_HDR_NVERSION && fct < FC_NTYPE && SizeClass(bytes).Some?
      ensures err.Some? ==> err == Some(InvalidArguments) && State() == old(State())
      ensures err.None? ==> State() == old(State()).(version := v, fctype := fct, blocksize := SizeClass(bytes).value)
    {
      if v >= FC_HDR_NVERSION || fct >= FC_NTYPE {
        return Some(InvalidArguments);
      }
      var sel := FC_HDR_NBSIZE;
      var key := 0;
      while key < FC_HDR_NBSIZE
        invariant 0 <= key <= FC_HDR_NBSIZE
        invariant sel == FC_HDR_NBSIZE ==> forall c :: 0 <= c < key ==> BlockBytes(c) != bytes
        invariant sel != FC_HDR_NBSIZE ==> 0 <= sel < FC_HDR_NBSIZE && BlockBytes(sel) == bytes
      {
        if BlockBytes(key) == bytes {
          sel := key;
          break;
        }
        key := key + 1;
      }
      if sel == FC_HDR_NBSIZE {
        return Some(InvalidArguments);
      }
      version := v;
      fctype := fct;
      blocksize := sel;
      err := None;
    }

    /** `setNBlocks`: Go divides by the table entry, so the class must be in the table. */
    method SetNBlocks(n: int)
      requires BlockBytes(blocksize) != 0
      modifies this
      ensures State() == WithNBlocks(old(State()), n)
    {
      var bs := BlockBytes(blocksize);
      nblocks := GoDiv(n + bs - 1, bs);
      lastBlocksize := GoMod(n, bs);
    }

    /** `fromBytes`. */
    method FromBytes(b: seq<Byte>)
      requires |b| >= FC_HDR_END_OFFSET
      modifies this
      ensures State() == Decode(b)
    {
      version := b[0];
      fctype := b[1];
      blocksize := b[2];
      noncesize := b[3];
      lastBlocksize := b[4];
      LeValueBound(b[5..13]);
      Pow256Values();
      nblocks := ToInt64(LeValue(b[5..13]));
    }

    /** `setNonceSize`. */
    method SetNonceSize(s: int)
      modifies this
      ensures State() == old(State()).(noncesize := s)
    {
      noncesize := s;
    }
  }

  /**
   * An encryption object as `getEncFCFromType` builds it: a clear object
   * with the block-indexed header `ClearFc` embeds, or a GCM or RSA object
   * with this revision's header.
   */
  datatype EncObj =
    | ClearObj(fc: FcHdrs.FcHdr)
    | HdreObj(kind: EncTypes.EncKind, hdr: HdreFc)

  /**
   * `NewHdrEncrypt(Version, Fctype, Blocksize)`: the type, truncated to a
   * byte, selects the variant; the new header is filled and returned even
   * when filling fails, together with that error.  `ClearFc` has only the
   * four-argument `FillHdr` of its header; the clear object is filled with
   * block index 0, the value Go gives a field nobody sets.
   */
  method NewHdrEncrypt(v: int, fct: int, bytes: int) returns (obj: Option<EncObj>, err: Option<Error>)
    ensures EncTypes.EncKindOf(ToByte(fct)).Err? ==> obj == None && err == Some(IncorrectHandlerType)
    ensures EncTypes.EncKindOf(ToByte(fct)) == Ok(EncTypes.Clear) ==>
      && obj.Some? && obj.value.ClearObj? && fresh(obj.value.fc)
      && (err.None? <==> v < FC_HDR_NVERSION && fct < FC_NTYPE && FcHdrs.SizeClass(bytes).Some?)
      && (err.None? ==> obj.value.fc.State() == FcHdrs.FcHdrState(v, 0, fct, FcHdrs.SizeClass(bytes).value, 0, 0, 0))
      && (err.Some? ==> obj.value.fc.State() == FcHdrs.FcHdrState(0, 0, 0, 0, 0, 0, 0))
    ensures EncTypes.EncKindOf(ToByte(fct)).Ok? && EncTypes.EncKindOf(ToByte(fct)) != Ok(EncTypes.Clear) ==>
      && obj.Some? && obj.value.HdreObj? && fresh(obj.value.hdr)
      && obj.value.kind == EncTypes.EncKindOf(ToByte(fct)).value
      && (err.None? <==> v < FC_HDR_NVERSION && fct < FC_NTYPE && SizeClass(bytes).Some?)
      && (err.None? ==> obj.value.hdr.State() == HdreState(v, fct, SizeClass(bytes).value, 0, 0, 0))
      && (err.Some? ==> obj.value.hdr.State() == HdreState(0, 0, 0, 0, 0, 0))
  {
    var kind := EncTypes.EncKindOf(ToByte(fct));
    if kind.Err? {
      return None, Some(kind.error);
    }
    if kind.value == EncTypes.Clear {
      var c := new FcHdrs.FcHdr();
      err := c.FillHdr(v, fct, bytes, 0);
      obj := Some(ClearObj(c));
    } else {
      var h := new HdreFc();
      err := h.FillHdr(v, fct, bytes);
      obj := Some(HdreObj(kind.value, h));
    }
  }

  /** `newHdrEncryptFromFile`: reads a header at the cursor and builds its variant. */
  method NewHdrEncryptFromFile(file: File) returns (obj: Option<EncObj>, err: Option<Error>)
    modifies file`pos
    ensures var r := ReadAt(old(file.contents), old(file.pos), HDRE_LEN);
      && file.pos == r.next
      && (r.result.Err? ==> obj == None && err == Some(r.result.error))
      && (r.result.Ok? && EncTypes.EncKindOf(r.result.value[1]).Err? ==> obj == None && err == Some(IncorrectHandlerType))
      && (r.result.Ok? && EncTypes.EncKindOf(r.result.value[1]) == Ok(EncTypes.Clear) ==>
            && err == None && obj.Some? && obj.value.ClearObj? && fresh(obj.value.fc)
            && obj.value.fc.State() == FcHdrs.Decode(r.result.value))
      && (r.result.Ok? && EncTypes.EncKindOf(r.result.value[1]).Ok?
          && EncTypes.EncKindOf(r.result.value[1]) != Ok(EncTypes.Clear) ==>
            && err == None && obj.Some? && obj.value.HdreObj? && fresh(obj.value.hdr)
            && obj.value.kind == EncTypes.EncKindOf(r.result.value[1]).value
            && obj.value.hdr.State() == Decode(r.result.value))
  {
    var hdrBytes := file.ReadN(HDRE_LEN);
    if hdrBytes.Err? {
      return None, Some(hdrBytes.error);
    }
    var kind := EncTypes.EncKindOf(hdrBytes.value[1]);
    if kind.Err? {
      return None, Some(kind.error);
    }
    if kind.value == EncTypes.Clear {
      var c := new FcHdrs.FcHdr();
      c.FromBytes(hdrBytes.value);
      return Some(ClearObj(c)), None;
    }
    var h := new HdreFc();
    h.FromBytes(hdrBytes.value);
    return Some(HdreObj(kind.value, h)), None;
  }

  /** `decryptBlock(file, offset, key)`. */
  method DecryptBlock<T>(p: Primitives<T>, file: File, offset: int, key: seq<Byte>) returns (r: Result<T>)
    modifies file`pos
    ensures r == DecryptBlockAt(p, file.contents, offset, key)
  {
    var e := file.Seek(offset);
    if e.Some? {
      return Err(e.value);
    }
    var obj, err := NewHdrEncryptFromFile(file);
    if err.Some? {
      return Err(err.value);
    }
    match obj.value
    case ClearObj(c) =>
      var block := file.ReadN(FcHdrs.NBlockBytes(c.State()));
      if block.Err? {
        return Err(block.error);
      }
      r := EncTypes.ClearDecrypt(p, block.value);
    case HdreObj(kind, h) =>
      var block := file.ReadN(NBlockBytes(h.State()));
      if block.Err? {
        return Err(block.error);
      }
      r := DecryptWith(p, kind, h.State(), block.value, key);
  }
}
