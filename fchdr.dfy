/**
 * The 16-byte encryption header that precedes every filecrypt block in the
 * revision that carries a block index (filecrypt/fchdr.go).
 *
 *   offset 0  version        offset 3  block-size class
 *   offset 1  encryption type offset 4  nonce size
 *   offset 2  block index    offset 5  size of the last block
 *   offsets 6..13  number of blocks, little-endian 64-bit; 14..15 zero
 */
module FcHdrs {
  import opened Base
  import opened FcConst

  const FC_HDR_BIDX_FIRST := 0
  const FC_HDR_BIDX_MID := 1
  const FC_HDR_BIDX_LAST := 2
  const FC_HDR_BIDX_SINGLE := 3
  const FC_HDR_NBIDX := 4

  const FC_HDR_BSIZE_128 := 0
  const FC_HDR_BSIZE_256 := 1
  const FC_HDR_NBSIZE := 2

  /** The header is as long as the smallest block size. */
  const FC_HDR_LEN := 16

  /**
   * The size table of this revision: class 0 is 16 bytes, class 1 is 32
   * bytes.  A class that is not in the table reads as 0, as a missing key
   * of a Go map does.
   */
  function BlockBytes(cls: int): int
  {
    if cls == FC_HDR_BSIZE_128 then 16
    else if cls == FC_HDR_BSIZE_256 then 32
    else 0
  }

  datatype FcHdrState = FcHdrState(
    version: int,
    blockIdx: int,
    fctype: int,
    blocksize: int,
    noncesize: int,
    lastBlocksize: int,
    nblocks: int)

  /** `toBytes`: each small field truncated to a byte, `nblocks` as a 64-bit word. */
  function Encode(h: FcHdrState): (r: seq<Byte>)
    ensures |r| == FC_HDR_LEN
  {
    [ToByte(h.version), ToByte(h.fctype), ToByte(h.blockIdx), ToByte(h.blocksize),
     ToByte(h.noncesize), ToByte(h.lastBlocksize)]
    + LeBytes(ToUint64(h.nblocks), 8) + [0, 0]
  }

  /** `fromBytes`: reads offsets 0 to 13 and ignores the rest. */
  function Decode(b: seq<Byte>): FcHdrState
    requires |b| >= 14
  {
    LeValueBound(b[6..14]);
    Pow256Values();
    FcHdrState(b[0], b[2], b[1], b[3], b[4], b[5], ToInt64(LeValue(b[6..14])))
  }

  /** The headers `toBytes` can write without losing information. */
  predicate Representable(h: FcHdrState)
  {
    0 <= h.version < 256 && 0 <= h.blockIdx < 256 && 0 <= h.fctype < 256
    && 0 <= h.blocksize < 256 && 0 <= h.noncesize < 256 && 0 <= h.lastBlocksize < 256
    && IsInt64(h.nblocks)
  }

  lemma DecodeEncode(h: FcHdrState)
    requires Representable(h)
    ensures Decode(Encode(h)) == h
  {
    var b := Encode(h);
    Pow256Values();
    assert b[6..14] == LeBytes(ToUint64(h.nblocks), 8);
    LeValueOfBytes(ToUint64(h.nblocks), 8);
    Int64RoundTrip(h.nblocks);
  }

  lemma EncodeDecode(b: seq<Byte>)
    requires |b| == FC_HDR_LEN && b[14] == 0 && b[15] == 0
    ensures Encode(Decode(b)) == b
  {
    Pow256Values();
    LeValueBound(b[6..14]);
    LeBytesOfValue(b[6..14]);
    var e := Encode(Decode(b));
    assert e[6..14] == b[6..14];
    assert e[..6] == b[..6];
    assert e[14..] == b[14..];
    assert e == e[..6] + e[6..14] + e[14..];
    assert b == b[..6] + b[6..14] + b[14..];
  }

  /** `getNBlockBytes`: bytes that follow the header. */
  function NBlockBytes(h: FcHdrState): int
  {
    var bs := BlockBytes(h.blocksize);
    var full := Wrap64(bs * h.nblocks);
    if h.lastBlocksize > 0 then Wrap64(full - (bs - h.lastBlocksize)) else full
  }

  /** `setNBlocks(n)` applied to a header value. */
  function WithNBlocks(h: FcHdrState, n: int): FcHdrState
    requires BlockBytes(h.blocksize) != 0
  {
    var bs := BlockBytes(h.blocksize);
    h.(nblocks := GoDiv(n + bs - 1, bs), lastBlocksize := GoMod(n, bs))
  }

  /**
   * Recording `n` bytes with `setNBlocks` and reading the count back with
   * `getNBlockBytes` gives `n` again; the blocks cover `n` with less than a
   * block to spare, and the last-block size is below the block size.
   */
  lemma NBlockBytesAfterSetNBlocks(h: FcHdrState, n: int)
    requires n >= 0 && BlockBytes(h.blocksize) != 0
    requires n + BlockBytes(h.blocksize) <= TWO63
    ensures var g := WithNBlocks(h, n);
      var bs := BlockBytes(h.blocksize);
      && NBlockBytes(g) == n
      && 0 <= g.lastBlocksize < bs
      && (g.nblocks - 1) * bs < n <= g.nblocks * bs
  {
    var bs := BlockBytes(h.blocksize);
    GoDivModNonNegative(n + bs - 1, bs);
    GoDivModNonNegative(n, bs);
    var q := n / bs;
    var r := n % bs;
    var g := WithNBlocks(h, n);
    if r == 0 {
      DivUnique(n + bs - 1, bs, q, bs - 1);
      assert g.nblocks == q && g.lastBlocksize == 0;
      assert bs * g.nblocks == n;
    } else {
      DivUnique(n + bs - 1, bs, q + 1, r - 1);
      assert g.nblocks == q + 1 && g.lastBlocksize == r;
      assert bs * g.nblocks == n + (bs - r);
      assert IsInt64(n + (bs - r));
    }
  }

  /**
   * The product in `getNBlockBytes` is a 64-bit `int`: a header announcing
   * `2^60` blocks of 16 bytes announces no bytes at all, and `2^59` blocks
   * announce a negative count.
   */
  lemma NBlockBytesWraps()
    ensures NBlockBytes(FcHdrState(0, 0, 0, FC_HDR_BSIZE_128, 0, 0, 0x1000_0000_0000_0000)) == 0
    ensures NBlockBytes(FcHdrState(0, 0, 0, FC_HDR_BSIZE_128, 0, 0, 0x0800_0000_0000_0000)) == -TWO63
  {
  }

  /** `getNoncePaddingLen`: zero bytes that round the nonce up to whole blocks. */
  function NoncePaddingLen(h: FcHdrState): int
    requires BlockBytes(h.blocksize) != 0
  {
    var bs := BlockBytes(h.blocksize);
    GoDiv(h.noncesize + bs - 1, bs) * bs - h.noncesize
  }

  lemma NoncePaddingFillsBlocks(h: FcHdrState)
    requires h.noncesize >= 0 && BlockBytes(h.blocksize) != 0
    ensures var p := NoncePaddingLen(h);
      0 <= p < BlockBytes(h.blocksize) && (h.noncesize + p) % BlockBytes(h.blocksize) == 0
  {
    var bs := BlockBytes(h.blocksize);
    GoDivModNonNegative(h.noncesize + bs - 1, bs);
    RoundUp(h.noncesize, bs);
  }

  /**
   * A stream of 1039 bytes is recorded as 65 blocks with a last block of
   * 15 bytes in the 16-byte class, and as 33 blocks with a last block of
   * 15 bytes in the 32-byte class.
   */
  lemma SetNBlocks1039(h: FcHdrState)
    ensures h.blocksize == FC_HDR_BSIZE_128 ==>
      WithNBlocks(h, 1039).nblocks == 65 && WithNBlocks(h, 1039).lastBlocksize == 15
    ensures h.blocksize == FC_HDR_BSIZE_256 ==>
      WithNBlocks(h, 1039).nblocks == 33 && WithNBlocks(h, 1039).lastBlocksize == 15
  {
    DivUnique(1054, 16, 65, 14);
    DivUnique(1039, 16, 64, 15);
    DivUnique(1070, 32, 33, 14);
    DivUnique(1039, 32, 32, 15);
  }

  /** A 12-byte GCM nonce in the 32-byte class is followed by 20 bytes of padding. */
  lemma NoncePadding12(h: FcHdrState)
    requires h.noncesize == 12 && h.blocksize == FC_HDR_BSIZE_256
    ensures NoncePaddingLen(h) == 20
  {
    DivUnique(43, 32, 1, 11);
  }

  /** `isFirstBlock`. */
  predicate IsFirstBlock(h: FcHdrState)
  {
    h.blockIdx == FC_HDR_BIDX_FIRST || h.blockIdx == FC_HDR_BIDX_SINGLE
  }

  /** `isLasttBlock`: the block after which a reader stops. */
  predicate IsLastBlock(h: FcHdrState)
  {
    h.blockIdx == FC_HDR_BIDX_LAST || h.blockIdx == FC_HDR_BIDX_SINGLE
  }

  /** A single block is both first and last, and it is the only such index. */
  lemma FirstAndLast(h: FcHdrState)
    ensures IsFirstBlock(h) && IsLastBlock(h) <==> h.blockIdx == FC_HDR_BIDX_SINGLE
    ensures h.blockIdx == FC_HDR_BIDX_MID ==> !IsFirstBlock(h) && !IsLastBlock(h)
  {
  }

  /** The size class whose byte size is `bytes`, if there is one. */
  function SizeClass(bytes: int): (r: Option<int>)
    ensures r.Some? ==> 0 <= r.value < FC_HDR_NBSIZE && BlockBytes(r.value) == bytes
    ensures r.None? ==> forall c :: 0 <= c < FC_HDR_NBSIZE ==> BlockBytes(c) != bytes
  {
    if bytes == 16 then Some(FC_HDR_BSIZE_128)
    else if bytes == 32 then Some(FC_HDR_BSIZE_256)
    else None
  }

  /** A `fchdr` value that the encryption types update in place. */
  class FcHdr {
    var version: int
    var blockIdx: int
    var fctype: int
    var blocksize: int
    var noncesize: int
    var lastBlocksize: int
    var nblocks: int

    function State(): FcHdrState
      reads this
    {
      FcHdrState(version, blockIdx, fctype, blocksize, noncesize, lastBlocksize, nblocks)
    }

    /** The zero value of the Go struct. */
    constructor ()
      ensures State() == FcHdrState(0, 0, 0, 0, 0, 0, 0)
    {
      version, blockIdx, fctype, blocksize := 0, 0, 0, 0;
      noncesize, lastBlocksize, nblocks := 0, 0, 0;
    }

    /**
     * `FillHdr`: rejects a version, type or block index past the known
     * ones and a block size in bytes that is not in the table; otherwise
     * records them (the size as its class) and leaves the other fields.
     */
    method FillHdr(v: int, fct: int, bytes: int, idx: int) returns (err: Option<Error>)
      modifies this
      ensures err.None? <==> v < FC_HDR_NVERSION && fct < FC_NTYPE && idx < FC_HDR_NBIDX && SizeClass(bytes).Some?
      ensures err.Some? ==> err == Some(InvalidArguments) && State() == old(State())
      ensures err.None? ==> State() == old(State()).(version := v, blockIdx := idx, fctype := fct,
                                                     blocksize := SizeClass(bytes).value)
    {
      if v >= FC_HDR_NVERSION || fct >= FC_NTYPE || idx >= FC_HDR_NBIDX {
        return Some(InvalidArguments);
      }
      var sel := FC_HDR_NBSIZE;
      var key := 0;
      while key < FC_HDR_NBSIZE
        invariant 0 <= key <= FC_HDR_NBSIZE
        invariant sel == FC_HDR_NBSIZE ==> forall c :: 0 <= c < key ==> BlockBytes(c) != bytes
        invariant sel != FC_HDR_NBSIZE ==> 0 <= sel < FC_HDR_NBSIZE && BlockBytes(sel) == bytes
      {
        if BlockBytes(key) == bytes {
          sel := key;
          break;
        }
        key := key + 1;
      }
      if sel == FC_HDR_NBSIZE {
        return Some(InvalidArguments);
      }
      version := v;
      blockIdx := idx;
      fctype := fct;
      blocksize := sel;
      err := None;
    }

    /** `setNBlocks`: Go divides by the table entry, so the class must be in the table. */
    method SetNBlocks(n: int)
      requires BlockBytes(blocksize) != 0
      modifies this
      ensures State() == WithNBlocks(old(State()), n)
    {
      var bs := BlockBytes(blocksize);
      nblocks := GoDiv(n + bs - 1, bs);
      lastBlocksize := GoMod(n, bs);
    }

    /** `fromBytes`: Go indexes up to offset 13. */
    method FromBytes(b: seq<Byte>)
      requires |b| >= 14
      modifies this
      ensures State() == Decode(b)
    {
      version := b[0];
      blockIdx := b[2];
      fctype := b[1];
      blocksize := b[3];
      noncesize := b[4];
      lastBlocksize := b[5];
      LeValueBound(b[6..14]);
      Pow256Values();
      nblocks := ToInt64(LeValue(b[6..14]));
    }

    /** `setNonceSize`. */
    method SetNonceSize(s: int)
      modifies this
      ensures State() == old(State()).(noncesize := s)
    {
      noncesize := s;
    }
  }
}
