/**
 * The secret-sharing glue of package backuplib (backuplib/secret.go): the
 * mobile form of a share (the abscissa and the 32 bytes of `Py.ToByte()`),
 * the conversions between that form and the field form, the share store,
 * and key recovery from the first `MinShares` shares.
 */
module BackupSecret {
  import opened Base
  import opened Lagrange
  import Ff
  import FieldP
  import FieldQ
  import Shamir
  import ShareCodec

  /** `PRIME`: the field the library configures, the scalar field. */
  const PRIME: int := Ff.FF_BN256_FP

  /** A share as the mobile side stores it. */
  datatype MobileShare = MobileShare(px: int, py: seq<Byte>)

  /** `ToByte` of a field value: its 32 little-endian bytes. */
  function ElementBytes(v: nat): (b: seq<Byte>)
    ensures |b| == 32
  {
    LeBytes(v, 32)
  }

  /** `FromByte` into the field of prime `p`: the first 32 bytes, little-endian, reduced. */
  function ElementOf(b: seq<Byte>, p: int): (v: int)
    requires |b| >= 32 && p > 1
    ensures 0 <= v < p
  {
    LeValue(b[..32]) % p
  }

  /** Values of field elements are never negative. */
  predicate Elements(shares: seq<Shamir.Share>)
  {
    forall i :: 0 <= i < |shares| ==> shares[i].py >= 0
  }

  /** The mobile form of field shares, share by share. */
  function MobileOf(shares: seq<Shamir.Share>): (r: seq<MobileShare>)
    requires Elements(shares)
    ensures |r| == |shares|
  {
    seq(|shares|, i requires 0 <= i < |shares| => MobileShare(shares[i].px, ElementBytes(shares[i].py)))
  }

  /** Every stored `Py` holds the 32 bytes `FromByte` reads. */
  predicate Readable(m: seq<MobileShare>)
  {
    forall i :: 0 <= i < |m| ==> |m[i].py| >= 32
  }

  /** The field form of mobile shares, share by share. */
  function FieldOf(m: seq<MobileShare>, p: int): (r: seq<Shamir.Share>)
    requires p > 1 && Readable(m)
    ensures |r| == |m|
  {
    seq(|m|, i requires 0 <= i < |m| => Shamir.Share(m[i].px, ElementOf(m[i].py, p)))
  }

  /** `fromShares`: each share's abscissa and `Py.ToByte()`, in order. */
  method FromShares(shares: seq<Shamir.Share>) returns (r: seq<MobileShare>)
    requires Elements(shares)
    ensures r == MobileOf(shares)
  {
    r := [];
    var i := 0;
    while i < |shares|
      invariant 0 <= i <= |shares|
      invariant r == MobileOf(shares[..i])
    {
      r := r + [MobileShare(shares[i].px, ElementBytes(shares[i].py))];
      i := i + 1;
    }
    assert shares[..i] == shares;
  }

  /**
   * `toShares`: each stored share read back into the configured field;
   * a `Py` shorter than 32 bytes makes `FromByte` panic.
   */
  method ToShares(cfg: Shamir.Shamir, m: seq<MobileShare>) returns (r: Result<seq<Shamir.Share>>)
    requires cfg.Valid()
    ensures r.Err? <==> !Readable(m)
    ensures r.Err? ==> r.error == Panic
    ensures r.Ok? ==> r.value == FieldOf(m, Shamir.Modulus(cfg.GetElType()))
  {
    var p := Shamir.Modulus(cfg.GetElType());
    var shares: seq<Shamir.Share> := [];
    var i := 0;
    while i < |m|
      invariant 0 <= i <= |m|
      invariant Readable(m[..i])
      invariant shares == FieldOf(m[..i], p)
    {
      if |m[i].py| < 32 {
        return Err(Panic);
      }
      shares := shares + [Shamir.Share(m[i].px, ElementOf(m[i].py, p))];
      i := i + 1;
      assert m[..i] == m[..i - 1] + [m[i - 1]];
    }
    assert m[..i] == m;
    return Ok(shares);
  }

  /** Field shares survive the trip through the mobile form. */
  lemma FieldOfMobile(shares: seq<Shamir.Share>, t: int)
    requires Ff.IsValid(t)
    requires forall i :: 0 <= i < |shares| ==> 0 <= shares[i].py < Shamir.Modulus(t)
    ensures Readable(MobileOf(shares)) && FieldOf(MobileOf(shares), Shamir.Modulus(t)) == shares
  {
    var p := Shamir.Modulus(t);
    var m := MobileOf(shares);
    ShareCodec.ModulusFits(t);
    forall i | 0 <= i < |shares|
      ensures ElementOf(m[i].py, p) == shares[i].py
    {
      var v := shares[i].py;
      assert m[i].py[..32] == ElementBytes(v);
      LeValueOfBytes(v, 32);
      ShareCodec.SmallValue(v, p);
    }
  }

  /** Mobile shares of exactly 32 reduced bytes survive the trip through the field form. */
  lemma MobileOfField(m: seq<MobileShare>, t: int)
    requires Ff.IsValid(t)
    requires forall i :: 0 <= i < |m| ==> |m[i].py| == 32 && LeValue(m[i].py) < Shamir.Modulus(t)
    ensures Elements(FieldOf(m, Shamir.Modulus(t))) && MobileOf(FieldOf(m, Shamir.Modulus(t))) == m
  {
    var p := Shamir.Modulus(t);
    var f := FieldOf(m, p);
    forall i | 0 <= i < |m|
      ensures ElementBytes(f[i].py) == m[i].py
    {
      assert m[i].py[..32] == m[i].py;
      ShareCodec.SmallValue(LeValue(m[i].py), p);
      LeBytesOfValue(m[i].py);
    }
  }

  /**
   * The shares `generateKey` hands to `GenerateSecret`: the first
   * `MinShares` when there are that many, and all of them otherwise (also
   * when `MinShares` is below 1, as the length check never matches then).
   */
  function Pool<T>(shares: seq<T>, min: int): (r: seq<T>)
    ensures 1 <= min <= |shares| ==> r == shares[..min]
    ensures !(1 <= min <= |shares|) ==> r == shares
  {
    if 1 <= min <= |shares| then shares[..min] else shares
  }

  /** `generateKey`: the secret of the pool, as `ToByte()`. */
  method GenerateKey(shares: seq<Shamir.Share>, cfg: Shamir.Shamir) returns (key: seq<Byte>)
    requires cfg.Valid()
    ensures var pool := Pool(shares, cfg.GetMinShares());
      key == ElementBytes(Shamir.Combine(pool, |pool|, Shamir.Modulus(cfg.GetElType())))
  {
    var min := cfg.GetMinShares();
    var pool: seq<Shamir.Share> := [];
    var i := 0;
    while i < |shares|
      invariant 0 <= i <= |shares| && pool == shares[..i]
      invariant !(1 <= min <= i)
    {
      pool := pool + [shares[i]];
      i := i + 1;
      if |pool| == min {
        break;
      }
    }
    assert pool == Pool(shares, min);
    var secret := cfg.GenerateSecret(pool);
    key := ElementBytes(secret);
  }

  /**
   * The pool of freshly generated shares recovers the secret: the first
   * `MinShares` shares sit at the distinct abscissae 1..MinShares.
   */
  lemma PoolRecovers(secret: int, poly: seq<int>, maxShares: int, p: int)
    requires Prime(p) && 0 <= secret < p && |poly| + 1 <= maxShares < p && IsInt64(maxShares)
    ensures var pool := Pool(Shamir.SharesOf(secret, poly, maxShares, p), |poly| + 1);
      Shamir.Combine(pool, |pool|, p) == secret
  {
    var shares := Shamir.SharesOf(secret, poly, maxShares, p);
    var pool := Pool(shares, |poly| + 1);
    forall i | 0 <= i < |pool|
      ensures pool[i].px == i + 1
    {
      Shamir.SharesOfAt(secret, poly, maxShares, p, i);
    }
    Shamir.GenerateSecretRecovers(secret, poly, maxShares, p, pool);
  }

  /**
   * Backup and recovery compose: shares generated from a secret, stored in
   * mobile form, read back and pooled give back the secret's bytes, for any
   * random coefficients.  The field's modulus must be prime.
   */
  lemma KeyRecovered(t: int, minShares: int, maxShares: int, secret: int, draw: nat -> int)
    requires Ff.IsValid(t) && Prime(Shamir.Modulus(t)) && 0 <= secret < Shamir.Modulus(t)
    requires 1 <= minShares <= maxShares && IsInt64(maxShares)
    ensures var p := Shamir.Modulus(t);
      var shares := Shamir.SharesOf(secret, Shamir.PolyOf(draw, minShares - 1, p), maxShares, p);
      Elements(shares) && Readable(MobileOf(shares)) &&
      var back := FieldOf(MobileOf(shares), p);
      var pool := Pool(back, minShares);
      ElementBytes(Shamir.Combine(pool, |pool|, p)) == ElementBytes(secret)
  {
    var p := Shamir.Modulus(t);
    var poly := Shamir.PolyOf(draw, minShares - 1, p);
    var shares := Shamir.SharesOf(secret, poly, maxShares, p);
    assert maxShares < p by {
      assert TWO63 < FieldP.QP && TWO63 < FieldQ.QQ;
    }
    forall i | 0 <= i < |shares|
      ensures 0 <= shares[i].py < p
    {
      Shamir.SharesOfAt(secret, poly, maxShares, p, i);
    }
    FieldOfMobile(shares, t);
    PoolRecovers(secret, poly, maxShares, p);
  }

  /** The mobile share store. */
  class Store {
    var data: seq<MobileShare>

    constructor ()
      ensures data == []
    {
      data := [];
    }

    /**
     * `GetShare(n)`: the `n`-th stored share, or nothing past the end; a
     * negative index passes the bound check and panics on indexing.
     */
    method GetShare(n: int) returns (r: Result<Option<MobileShare>>)
      ensures n < 0 ==> r == Err(Panic)
      ensures 0 <= n < |data| ==> r == Ok(Some(data[n]))
      ensures n >= |data| ==> r == Ok(None)
    {
      if n < |data| {
        if n < 0 {
          return Err(Panic);
        }
        return Ok(Some(data[n]));
      }
      return Ok(None);
    }
  }

  /**
   * `GenerateShares`: the secret's bytes read into the scalar field, shared
   * by the configuration, and stored in mobile form.  A secret shorter than
   * 32 bytes, or a configuration with `MinShares` below 1, panics.  The
   * configuration is over the scalar field, as `initSecretCfg` builds it.
   */
  method GenerateShares(store: Store, cfg: Shamir.Shamir, secret: seq<Byte>, draw: nat -> int)
    returns (err: Option<Error>)
    requires cfg.Valid() && cfg.GetElType() == PRIME
    modifies store
    ensures |secret| < 32 || cfg.GetMinShares() < 1 ==> err == Some(Panic) && unchanged(store)
    ensures !(|secret| < 32 || cfg.GetMinShares() < 1) ==> err == None
    ensures err.None? ==>
      var p := Shamir.Modulus(cfg.GetElType());
      var shares := Shamir.SharesOf(ElementOf(secret, FieldP.QP), Shamir.PolyOf(draw, cfg.GetMinShares() - 1, p), cfg.GetMaxShares(), p);
      Elements(shares) && store.data == MobileOf(shares)
  {
    if |secret| < 32 {
      return Some(Panic);
    }
    assert Shamir.Modulus(PRIME) == FieldP.QP;
    var secretFF := ElementOf(secret, Shamir.Modulus(PRIME));
    var sharesGo := cfg.GenerateShares(secretFF, draw);
    if sharesGo.Err? {
      return Some(Panic);
    }
    var mobile := FromShares(sharesGo.value);
    store.data := mobile;
    return None;
  }
}
