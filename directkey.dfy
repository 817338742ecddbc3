/**
 * The key header of a file whose blocks are encrypted with the caller's key
 * as is (filecrypt/direct_k.go): two bytes, version and key type; the key
 * itself is never written.
 */
module DirectKey {
  import opened Base
  import opened FcConst
  import opened Files

  const FC_DIRECTKEYHDR_END_OFFSET := 2
  const FC_DIRECTKEYHDR_NPARMS := 2

  class DirectKeyFc {
    var version: int
    var keytype: int
    var keyIn: Slice
    var keyOut: Slice

    constructor ()
      ensures version == 0 && keytype == 0 && keyIn == None && keyOut == None
    {
      version, keytype, keyIn, keyOut := 0, 0, None, None;
    }

    /** `fillHdr(KeyIn, params...)`: exactly two parameters; the key is kept for `generateKey`. */
    method FillHdr(key: Slice, params: seq<int>) returns (err: Option<Error>)
      modifies this
      ensures |params| != FC_DIRECTKEYHDR_NPARMS ==> err == Some(IncorrectArguments)
      ensures |params| == FC_DIRECTKEYHDR_NPARMS ==>
        err == (if params[0] >= FC_HDR_NVERSION || params[1] >= FC_KEY_NTYPE then Some(InvalidArguments) else None)
      ensures err.Some? ==> version == old(version) && keytype == old(keytype) && keyIn == old(keyIn) && keyOut == old(keyOut)
      ensures err.None? ==> version == params[0] && keytype == params[1] && keyIn == key && keyOut == None
    {
      if |params| != FC_DIRECTKEYHDR_NPARMS {
        return Some(IncorrectArguments);
      }
      if params[0] >= FC_HDR_NVERSION || params[1] >= FC_KEY_NTYPE {
        return Some(InvalidArguments);
      }
      version := params[0];
      keytype := params[1];
      keyIn := key;
      keyOut := None;
      err := None;
    }

    /** `fromBytes`. */
    method FromBytes(b: seq<Byte>)
      requires |b| >= FC_DIRECTKEYHDR_END_OFFSET
      modifies this
      ensures version == b[0] && keytype == b[1] && keyIn == None && keyOut == None
    {
      version := b[0];
      keytype := b[1];
      keyIn := None;
      keyOut := None;
    }

    /** `toBytes`: version and key type, each truncated to a byte. */
    function ToBytes(): (r: seq<Byte>)
      reads this
      ensures |r| == FC_DIRECTKEYHDR_END_OFFSET
      ensures 0 <= version < 256 && 0 <= keytype < 256 ==> r == [version, keytype]
    {
      [ToByte(version), ToByte(keytype)]
    }

    /**
     * `generateKey`: while no key has been produced, appends the header to
     * the file and adopts the caller's key; returns the key produced.  A nil
     * caller key leaves the key nil, so the next call writes the header again.
     */
    method GenerateKey(file: File) returns (key: Slice, err: Option<Error>)
      modifies this, file
      ensures file.present == old(file.present) && file.pos == old(file.pos)
      ensures version == old(version) && keytype == old(keytype) && keyIn == old(keyIn)
      ensures old(keyOut).Some? ==>
        err == None && key == old(keyOut) && keyOut == old(keyOut) && file.contents == old(file.contents)
      ensures old(keyOut).None? && !old(file.present) ==>
        err == Some(OpenFileError) && key == None && keyOut == None && file.contents == old(file.contents)
      ensures old(keyOut).None? && old(file.present) ==>
        err == None && key == keyIn && keyOut == keyIn && file.contents == old(file.contents) + old(ToBytes())
    {
      if keyOut.None? {
        var fhdr := ToBytes();
        err := file.OpenAppend();
        if err.Some? {
          return None, err;
        }
        file.Write(fhdr);
        keyOut := keyIn;
      }
      return keyOut, None;
    }
  }
}
