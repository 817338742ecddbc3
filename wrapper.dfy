/**
 * The backup layer of the wrapper package (wrapper/utils.go): the registry
 * of data structures to back up, the position tag each block gets when the
 * backup file is written, and the lookup of shares among decoded values.
 */
module Wrapper {
  import opened Base
  import opened FcConst
  import opened FcHdrs
  import Shamir
  import Ff
  import Pbkdf2Key
  import BackupSecret

  const MIN_N_SHARES: int := 4
  const MAX_N_SHARES: int := 10
  const PBKDF2_NITER: int := 60000
  const PBKDF2_SALTLEN: int := 12

  /**
   * `init` configures the sharing with `NewConfig(MIN_N_SHARES,
   * MAX_N_SHARES, PRIME)`: the configuration passes all three of its checks.
   */
  lemma InitConfigAccepted()
    ensures MIN_N_SHARES != 0 && MIN_N_SHARES <= MAX_N_SHARES && Ff.IsValid(BackupSecret.PRIME)
  {
  }

  /**
   * The fixed PBKDF2 parameters `CreateBackup` fills its key header with
   * (iterations, a 32-byte key, the salt length) pass `FillHdr`'s limits,
   * and the header they give is 22 bytes long.
   */
  lemma BackupKeyParamsAccepted()
    ensures PBKDF2_NITER < Pbkdf2Key.FC_PBKDF2HDR_MAXITER
    ensures BACKUP_BSIZE_BYTES < Pbkdf2Key.FC_PBKDF2HDR_OUT_MAXLEN
    ensures 0 <= PBKDF2_SALTLEN < Pbkdf2Key.FC_PBKDF2HDR_SALT_MAXLEN
    ensures Pbkdf2Key.FC_PBKDF2HDR_SALT_OFFSET + PBKDF2_SALTLEN == 22
  {
  }

  /** Backup modes: encrypted blocks and clear blocks. */
  const ENCRYPT: int := 0
  const DONT_ENCRYPT: int := 1

  /** A registered data structure and its mode. */
  datatype Backup<T> = Backup(data: T, mode: int)

  /** The block size every backup block is written with (`fc.FC_BSIZE_BYTES_256`). */
  const BACKUP_BSIZE_BYTES: int := 32

  /**
   * One `fc.Encrypt` call of `CreateBackup`: the block type, the block size
   * in bytes, its position tag, the data.
   */
  datatype Block<T> = Block(fctype: int, bsizeBytes: int, blockIdx: int, data: T)

  /**
   * The position tag of the entry with counter `c` among `n` entries:
   * SINGLE when there is one, LAST for the final one, FIRST for the
   * initial one, MID otherwise.
   */
  function BlockIdx(n: int, c: int): (b: int)
    ensures 0 <= b < FC_HDR_NBIDX
  {
    if n == 1 then FC_HDR_BIDX_SINGLE
    else if n == c + 1 then FC_HDR_BIDX_LAST
    else if c == 0 then FC_HDR_BIDX_FIRST
    else FC_HDR_BIDX_MID
  }

  /** The tag ends a chain of blocks (LAST or SINGLE). */
  predicate Ends(b: int)
  {
    b == FC_HDR_BIDX_LAST || b == FC_HDR_BIDX_SINGLE
  }

  /** The tag opens a chain of blocks (FIRST or SINGLE). */
  predicate Opens(b: int)
  {
    b == FC_HDR_BIDX_FIRST || b == FC_HDR_BIDX_SINGLE
  }

  /**
   * Among `n` entries exactly the final one ends the chain and exactly the
   * initial one opens it, so the reader stops after the final block.
   */
  lemma BlockIdxPositions(n: int, c: int)
    requires 0 <= c < n
    ensures Ends(BlockIdx(n, c)) <==> c == n - 1
    ensures Opens(BlockIdx(n, c)) <==> c == 0
    ensures BlockIdx(n, c) == FC_HDR_BIDX_MID <==> 0 < c < n - 1
  {
  }

  /** The tags agree with the header predicates the reader uses. */
  lemma BlockIdxHeader(h: FcHdrState, n: int, c: int)
    requires 0 <= c < n && h.blockIdx == BlockIdx(n, c)
    ensures IsLastBlock(h) <==> c == n - 1
    ensures IsFirstBlock(h) <==> c == 0
  {
    BlockIdxPositions(n, c);
  }

  /**
   * The blocks written for `es` (the registry in iteration order) when the
   * counter starts at `c`: a clear block for DONT_ENCRYPT, a GCM block for
   * ENCRYPT, none for any other mode, which still advances the counter.
   */
  function Blocks<T>(es: seq<Backup<T>>, n: int, c: int): (r: seq<Block<T>>)
    ensures |r| <= |es|
    decreases |es|
  {
    if es == [] then []
    else Blocks(es[..|es| - 1], n, c) + BlockOf(es[|es| - 1], n, c + |es| - 1)
  }

  /** The block, if any, written for one entry with counter `c`. */
  function BlockOf<T>(e: Backup<T>, n: int, c: int): (r: seq<Block<T>>)
    ensures |r| <= 1
  {
    if e.mode == DONT_ENCRYPT then [Block(FC_CLEAR, BACKUP_BSIZE_BYTES, BlockIdx(n, c), e.data)]
    else if e.mode == ENCRYPT then [Block(FC_GCM, BACKUP_BSIZE_BYTES, BlockIdx(n, c), e.data)]
    else []
  }

  /** Every mode is one of the two the writer knows. */
  predicate KnownModes<T>(es: seq<Backup<T>>)
  {
    forall i :: 0 <= i < |es| ==> es[i].mode == ENCRYPT || es[i].mode == DONT_ENCRYPT
  }

  /**
   * With known modes each entry gets one block: its data, the block type
   * its mode selects, the 32-byte size (the header's 256-bit class), and
   * the tag of its position.
   */
  lemma {:induction false} BlocksOfKnownModes<T>(es: seq<Backup<T>>, n: int, c: int)
    requires KnownModes(es)
    ensures |Blocks(es, n, c)| == |es|
    ensures SizeClass(BACKUP_BSIZE_BYTES) == Some(FC_HDR_BSIZE_256)
    ensures forall i :: 0 <= i < |es| ==>
      Blocks(es, n, c)[i] == Block(if es[i].mode == ENCRYPT then FC_GCM else FC_CLEAR, BACKUP_BSIZE_BYTES, BlockIdx(n, c + i), es[i].data)
    decreases |es|
  {
    if es != [] {
      var k := |es| - 1;
      var front := es[..k];
      assert KnownModes(front) by {
        assert forall i :: 0 <= i < k ==> front[i] == es[i];
      }
      BlocksOfKnownModes(front, n, c);
      var r := Blocks(es, n, c);
      var init := Blocks(front, n, c);
      assert r == init + BlockOf(es[k], n, c + k);
      forall i | 0 <= i < |es|
        ensures r[i] == Block(if es[i].mode == ENCRYPT then FC_GCM else FC_CLEAR, BACKUP_BSIZE_BYTES, BlockIdx(n, c + i), es[i].data)
      {
        if i < k {
          assert r[i] == init[i];
          assert front[i] == es[i];
        }
      }
    }
  }

  /**
   * The backup file's chain: with known modes, `n` entries give `n` blocks
   * of which exactly the last ends the chain and exactly the first opens it.
   */
  lemma BackupChain<T>(es: seq<Backup<T>>)
    requires KnownModes(es) && |es| > 0
    ensures var r := Blocks(es, |es|, 0);
      |r| == |es| && (forall i :: 0 <= i < |r| ==> (Ends(r[i].blockIdx) <==> i == |r| - 1)) &&
      (forall i :: 0 <= i < |r| ==> (Opens(r[i].blockIdx) <==> i == 0))
  {
    var r := Blocks(es, |es|, 0);
    BlocksOfKnownModes(es, |es|, 0);
    forall i | 0 <= i < |r|
      ensures (Ends(r[i].blockIdx) <==> i == |r| - 1) && (Opens(r[i].blockIdx) <==> i == 0)
    {
      BlockIdxPositions(|es|, i);
    }
  }

  /** Distinct keys of the registry, each once: an order Go's `range` may visit them in. */
  predicate Enumerates<T>(order: seq<int>, entries: map<int, Backup<T>>)
  {
    |order| == |entries| && (forall i :: 0 <= i < |order| ==> order[i] in entries) &&
    (forall i, j :: 0 <= i < j < |order| ==> order[i] != order[j])
  }

  /** The registry entries in the order `order` visits them. */
  function InOrder<T>(order: seq<int>, entries: map<int, Backup<T>>): (es: seq<Backup<T>>)
    requires forall i :: 0 <= i < |order| ==> order[i] in entries
    ensures |es| == |order|
  {
    seq(|order|, i requires 0 <= i < |order| => entries[order[i]])
  }

  /** The registry of data structures to back up, by type code. */
  class Registry<T> {
    var entries: map<int, Backup<T>>

    constructor ()
      ensures entries == map[]
    {
      entries := map[];
    }

    /**
     * `AddToBackup`: a type already registered is left as it is; a new
     * one is recorded with its data and mode.
     */
    method AddToBackup(t: int, d: T, action: int)
      modifies this
      ensures t in old(entries) ==> entries == old(entries)
      ensures t !in old(entries) ==> entries == old(entries)[t := Backup(d, action)]
      ensures t in entries && entries.Keys == old(entries).Keys + {t}
    {
      // The scan over the registry's keys for `t` is a membership test.
      if t in entries {
        return;
      }
      entries := entries[t := Backup(d, action)];
    }

    /**
     * The `fc.Encrypt` calls of `CreateBackup`, in the order the registry is
     * visited (`order`), with the counter advancing for every entry.
     */
    method CreateBackup(order: seq<int>) returns (blocks: seq<Block<T>>)
      requires Enumerates(order, entries)
      ensures blocks == Blocks(InOrder(order, entries), |entries|, 0)
    {
      var n := |entries|;
      var bctr := 0;
      blocks := [];
      ghost var es := InOrder(order, entries);
      while bctr < |order|
        invariant 0 <= bctr <= |order|
        invariant blocks == Blocks(es[..bctr], n, 0)
      {
        var el := entries[order[bctr]];
        assert es[..bctr + 1][..bctr] == es[..bctr];
        var blockIdx := BlockIdx(n, bctr);
        if el.mode == DONT_ENCRYPT {
          blocks := blocks + [Block(FC_CLEAR, BACKUP_BSIZE_BYTES, blockIdx, el.data)];
        } else if el.mode == ENCRYPT {
          blocks := blocks + [Block(FC_GCM, BACKUP_BSIZE_BYTES, blockIdx, el.data)];
        }
        bctr := bctr + 1;
      }
      assert es[..bctr] == es;
    }
  }

  /** The values `RetrieveShares` looks through: a share list, one share, or anything else. */
  datatype Item = SharesItem(shares: seq<Shamir.Share>) | ShareItem(share: Shamir.Share) | OtherItem

  /** The shares of the first share-carrying value, or nothing (`nil`). */
  function Retrieve(info: seq<Item>): Option<seq<Shamir.Share>>
  {
    if info == [] then None
    else match info[0]
      case SharesItem(s) => Some(s)
      case ShareItem(s) => Some([s])
      case OtherItem => Retrieve(info[1..])
  }

  /** `RetrieveShares`: the first share list, or the first single share as a list. */
  method RetrieveShares(info: seq<Item>) returns (r: Option<seq<Shamir.Share>>)
    ensures r == Retrieve(info)
  {
    var i := 0;
    while i < |info|
      invariant 0 <= i <= |info|
      invariant Retrieve(info[i..]) == Retrieve(info)
    {
      assert info[i..][1..] == info[i + 1..];
      match info[i]
      case SharesItem(s) => return Some(s);
      case ShareItem(s) => return Some([s]);
      case OtherItem =>
      i := i + 1;
    }
    return None;
  }

  /**
   * `RetrieveShares` finds shares exactly when some value carries them, and
   * then takes them from the first such value.
   */
  lemma {:induction false} RetrieveFirst(info: seq<Item>)
    ensures Retrieve(info).Some? <==> exists i :: 0 <= i < |info| && !info[i].OtherItem?
    ensures forall i :: 0 <= i < |info| && !info[i].OtherItem? && (forall j :: 0 <= j < i ==> info[j].OtherItem?) ==>
      Retrieve(info) == Some(if info[i].SharesItem? then info[i].shares else [info[i].share])
  {
    if info != [] {
      RetrieveFirst(info[1..]);
      if info[0].OtherItem? {
        forall i | 0 < i < |info| && !info[i].OtherItem?
          ensures info[1..][i - 1] == info[i]
        {
        }
        assert forall i :: 0 <= i < |info| - 1 ==> info[1..][i] == info[i + 1];
      }
    }
  }
}
