/**
 * The key header that opens every filecrypt file (filecrypt/hdrk.go): byte 1
 * names the key type, which selects the variant that parses the rest of the
 * header and produces the key the blocks are decrypted with.
 */
module KeyHdrs {
  import opened Base
  import opened FcConst
  import opened Files
  import opened Primitives
  import opened NoKey
  import opened DirectKey
  import opened Pbkdf2Key

  /** Bytes every key header starts with: version and key type. */
  const FC_KEYHDR_PREFIX_LEN := 2

  datatype KeyKind = NoKeyKind | DirectKind | Pbkdf2Kind

  /** The key-type byte of each kind. */
  function KeyCode(k: KeyKind): int
  {
    match k
    case NoKeyKind => FC_KEY_T_NOKEY
    case DirectKind => FC_KEY_T_DIRECT
    case Pbkdf2Kind => FC_KEY_T_PBKDF2
  }

  /** `getKeyFCFromType`: the three key types; any other byte is an invalid key header. */
  function KeyKindOf(t: Byte): (r: Result<KeyKind>)
    ensures r.Ok? <==> t < FC_KEY_NTYPE
    ensures r.Ok? ==> KeyCode(r.value) == t
    ensures r.Err? ==> r.error == InvalidKeyHeader
  {
    if t == FC_KEY_T_NOKEY then Ok(NoKeyKind)
    else if t == FC_KEY_T_DIRECT then Ok(DirectKind)
    else if t == FC_KEY_T_PBKDF2 then Ok(Pbkdf2Kind)
    else Err(InvalidKeyHeader)
  }

  lemma KeyKindOfCode(k: KeyKind)
    ensures 0 <= KeyCode(k) < 256 && KeyKindOf(KeyCode(k)) == Ok(k)
  {
  }

  /** A key-header object of one of the three variants. */
  datatype KeyHdr = NoKeyHdr(nk: NoKeyFc) | DirectHdr(dk: DirectKeyFc) | Pbkdf2Hdr(pk: Pbkdf2Fc)

  function KindOf(h: KeyHdr): KeyKind
  {
    match h
    case NoKeyHdr(_) => NoKeyKind
    case DirectHdr(_) => DirectKind
    case Pbkdf2Hdr(_) => Pbkdf2Kind
  }

  /** The PBKDF2 parameters a positional parameter list carries. */
  const PBKDF2_NPARAMS := 6

  /**
   * `NewHdrKey(KeyIn, params...)`: at least two parameters; `params[1]`,
   * truncated to a byte, selects the variant, which is filled from all of
   * them and returned together with its fill error.  The PBKDF2 variant
   * takes [version, key type, hash, iterations, output length, salt
   * length]; `random` stands for the salt bytes drawn for it.
   */
  method NewHdrKey(keyIn: Slice, params: seq<int>, random: seq<Byte>) returns (hdr: Option<KeyHdr>, err: Option<Error>)
    requires |params| == PBKDF2_NPARAMS && 0 <= params[5] < FC_PBKDF2HDR_SALT_MAXLEN ==> |random| == params[5]
    ensures |params| < 2 ==> hdr == None && err == Some(IncorrectParams)
    ensures |params| >= 2 && KeyKindOf(ToByte(params[1])).Err? ==> hdr == None && err == Some(InvalidKeyHeader)
    ensures |params| >= 2 && KeyKindOf(ToByte(params[1])).Ok? ==>
      hdr.Some? && KindOf(hdr.value) == KeyKindOf(ToByte(params[1])).value
    ensures hdr.Some? && hdr.value.NoKeyHdr? ==>
      (fresh(hdr.value.nk)
       && (err.None? <==> params[0] < FC_HDR_NVERSION && params[1] < FC_KEY_NTYPE && |params| == 2)
       && (err.None? ==> hdr.value.nk.version == params[0] && hdr.value.nk.keytype == params[1]))
    ensures hdr.Some? && hdr.value.DirectHdr? ==>
      (fresh(hdr.value.dk)
       && (err.None? <==> params[0] < FC_HDR_NVERSION && params[1] < FC_KEY_NTYPE && |params| == 2)
       && (err.None? ==>
             (hdr.value.dk.version == params[0] && hdr.value.dk.keytype == params[1]
              && hdr.value.dk.keyIn == keyIn && hdr.value.dk.keyOut == None)))
    ensures hdr.Some? && hdr.value.Pbkdf2Hdr? ==>
      (fresh(hdr.value.pk)
       && (|params| != PBKDF2_NPARAMS ==> err == Some(IncorrectArguments))
       && (err.None? ==>
             (|params| == PBKDF2_NPARAMS && hdr.value.pk.keyIn == keyIn && hdr.value.pk.keyOut == None
              && hdr.value.pk.State()
                 == Pbkdf2State(params[0], params[1], FC_PBKDF2HDR_SALT_OFFSET + params[5],
                                params[2], params[3], params[4], params[5], random))))
  {
    if |params| < 2 {
      return None, Some(IncorrectParams);
    }
    var kind := KeyKindOf(ToByte(params[1]));
    if kind.Err? {
      return None, Some(kind.error);
    }
    match kind.value
    case NoKeyKind =>
      var h := new NoKeyFc();
      err := h.FillHdr(keyIn, params);
      hdr := Some(NoKeyHdr(h));
    case DirectKind =>
      var h := new DirectKeyFc();
      err := h.FillHdr(keyIn, params);
      hdr := Some(DirectHdr(h));
    case Pbkdf2Kind =>
      var h := new Pbkdf2Fc();
      if |params| != PBKDF2_NPARAMS {
        err := Some(IncorrectArguments);
      } else {
        err := h.FillHdr(params[0], params[1], params[2], params[3], params[4], params[5], keyIn, random);
      }
      hdr := Some(Pbkdf2Hdr(h));
  }

  /**
   * Reading a key header from file bytes `data` at `pos`: the two-byte
   * prefix, the variant its type byte names, and that variant's
   * `retrieveKey` (NoKey yields a nil key, Direct the caller's key, PBKDF2
   * reads the rest of its header and derives the key).
   */
  function RetrieveFrom<T>(p: Primitives<T>, keyIn: Slice, data: seq<Byte>, pos: nat): (r: Retrieved)
    ensures r.key.Ok? ==> pos + FC_KEYHDR_PREFIX_LEN <= |data| && data[pos + 1] < FC_KEY_NTYPE
    ensures r.key.Ok? && data[pos + 1] == FC_KEY_T_NOKEY ==> r.key.value == None && r.next == pos + 2
    ensures r.key.Ok? && data[pos + 1] == FC_KEY_T_DIRECT ==> r.key.value == keyIn && r.next == pos + 2
    ensures pos + FC_KEYHDR_PREFIX_LEN <= |data| && data[pos + 1] >= FC_KEY_NTYPE ==> r.key == Err(InvalidKeyHeader)
    ensures pos + FC_KEYHDR_PREFIX_LEN > |data| ==> r.key == Err(IncorrectFileFormat)
  {
    var r := ReadAt(data, pos, FC_KEYHDR_PREFIX_LEN);
    if r.result.Err? then Retrieved(Err(r.result.error), r.next)
    else
      var prefix := r.result.value;
      match KeyKindOf(prefix[1])
      case Err(e) => Retrieved(Err(e), r.next)
      case Ok(NoKeyKind) => Retrieved(Ok(None), r.next)
      case Ok(DirectKind) => Retrieved(Ok(keyIn), r.next)
      case Ok(Pbkdf2Kind) => RetrieveSpec(p, keyIn, prefix, data, r.next)
  }

  /** The two-byte headers hand the blocks a key without reading past themselves. */
  lemma RetrievePrefixHeader<T>(p: Primitives<T>, keyIn: Slice, v: Byte, k: KeyKind, rest: seq<Byte>)
    requires k != Pbkdf2Kind
    ensures RetrieveFrom(p, keyIn, [v, KeyCode(k)] + rest, 0)
            == Retrieved(Ok(if k == NoKeyKind then None else keyIn), FC_KEYHDR_PREFIX_LEN)
  {
    var data := [v, KeyCode(k)] + rest;
    assert data[0..2] == [v, KeyCode(k)];
    KeyKindOfCode(k);
  }

  /** A PBKDF2 header read back derives the key its writer derived. */
  lemma RetrievePbkdf2Header<T>(p: Primitives<T>, h: Pbkdf2State, keyIn: Slice, rest: seq<Byte>)
    requires Representable(h) && h.keytype == FC_KEY_T_PBKDF2
    ensures Encode(h).Ok?
    ensures var k := DerivedKey(p, h, keyIn);
      RetrieveFrom(p, keyIn, Encode(h).value + rest, 0)
        == Retrieved(Ok(if k.Ok? then Some(k.value) else None), h.hdrlen)
  {
    RetrieveWritten(p, h, keyIn, rest);
    var data := Encode(h).value + rest;
    assert data[0..2] == data[..2];
    assert data[1] == Encode(h).value[1] == FC_KEY_T_PBKDF2;
  }

  /** `retrieveKey(file, offset, keyIn)`: seeks to the header and reads it. */
  method RetrieveKey<T>(p: Primitives<T>, file: File, offset: int, keyIn: Slice) returns (r: Result<Slice>)
    modifies file`pos
    ensures offset < 0 ==> r == Err(SeekError) && file.pos == old(file.pos)
    ensures offset >= 0 ==> Retrieved(r, file.pos) == RetrieveFrom(p, keyIn, file.contents, offset)
  {
    var e := file.Seek(offset);
    if e.Some? {
      return Err(e.value);
    }
    var prefix := file.ReadN(FC_KEYHDR_PREFIX_LEN);
    if prefix.Err? {
      return Err(prefix.error);
    }
    var kind := KeyKindOf(prefix.value[1]);
    if kind.Err? {
      return Err(kind.error);
    }
    match kind.value
    case NoKeyKind =>
      r := Ok(None);
    case DirectKind =>
      r := Ok(keyIn);
    case Pbkdf2Kind =>
      var h := new Pbkdf2Fc();
      r := h.RetrieveKey(p, keyIn, prefix.value, file);
  }

  /** The object behind a key header. */
  function Footprint(h: KeyHdr): set<object>
  {
    match h
    case NoKeyHdr(o) => {o}
    case DirectHdr(o) => {o}
    case Pbkdf2Hdr(o) => {o}
  }

  /**
   * What a `generateKey` call does: the key it returns, its error, whether
   * it truncated the file first, and the bytes it wrote.
   */
  datatype KeyGen = KeyGen(key: Slice, err: Option<Error>, truncate: bool, written: seq<Byte>)

  /** The file after a `generateKey` call. */
  function AfterKeyGen(g: KeyGen, contents: seq<Byte>): seq<Byte>
  {
    if g.truncate then g.written else contents + g.written
  }

  /**
   * `generateKey` for each variant, from the state of its object and whether
   * the file exists.  NoKey and Direct append their two bytes to an existing
   * file (the append mode cannot create one); PBKDF2 creates or truncates
   * the file, writes its header and derives the key.  Once a key has been
   * produced nothing more is written.
   */
  function KeyGenOf<T>(p: Primitives<T>, h: KeyHdr, present: bool): (g: KeyGen)
    reads Footprint(h)
    ensures g.err.None? && !g.truncate && g.written != [] ==> present
    ensures g.err == Some(OpenFileError) ==> !present && g.written == []
  {
    match h
    case NoKeyHdr(o) =>
      if o.keyOut.Some? then KeyGen(None, None, false, [])
      else if !present then KeyGen(None, Some(OpenFileError), false, [])
      else KeyGen(None, None, false, o.ToBytes())
    case DirectHdr(o) =>
      if o.keyOut.Some? then KeyGen(o.keyOut, None, false, [])
      else if !present then KeyGen(None, Some(OpenFileError), false, [])
      else KeyGen(o.keyIn, None, false, o.ToBytes())
    case Pbkdf2Hdr(o) =>
      if o.keyOut.Some? then KeyGen(o.keyOut, None, false, [])
      else
        var e := Pbkdf2Key.Encode(o.State());
        if e.Err? then KeyGen(None, Some(Panic), false, [])
        else
          var k := DerivedKey(p, o.State(), o.keyIn);
          if k.Err? then KeyGen(None, Some(Panic), true, e.value)
          else KeyGen(Some(k.value), None, true, e.value)
  }

  /** `keyHdr.generateKey(fname)`, dispatched on the variant. */
  method GenerateKey<T>(p: Primitives<T>, h: KeyHdr, file: File) returns (key: Slice, err: Option<Error>)
    modifies Footprint(h), file
    ensures var g := old(KeyGenOf(p, h, file.present));
      && err == g.err && (err.None? ==> key == g.key)
      && file.contents == AfterKeyGen(g, old(file.contents))
      && file.present == (old(file.present) || g.truncate)
  {
    match h {
      case NoKeyHdr(o) =>
        key, err := o.GenerateKey(file);
      case DirectHdr(o) =>
        key, err := o.GenerateKey(file);
      case Pbkdf2Hdr(o) =>
        key, err := o.GenerateKey(p, file);
    }
  }
}
