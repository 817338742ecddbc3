/**
 * The key header of a file whose blocks use no key (filecrypt/nokey_k.go):
 * two bytes, version and key type.
 */
module NoKey {
  import opened Base
  import opened FcConst
  import opened Files

  const FC_NOKEYHDR_END_OFFSET := 2
  const FC_NOKEYHDR_NPARAMS := 2

  class NoKeyFc {
    var version: int
    var keytype: int
    var keyIn: Slice
    var keyOut: Slice

    constructor ()
      ensures version == 0 && keytype == 0 && keyIn == None && keyOut == None
    {
      version, keytype, keyIn, keyOut := 0, 0, None, None;
    }

    /**
     * `fillHdr(KeyIn, params...)`: exactly two parameters, version and key
     * type; the key given is not kept.
     */
    method FillHdr(key: Slice, params: seq<int>) returns (err: Option<Error>)
      modifies this
      ensures |params| != FC_NOKEYHDR_NPARAMS ==> err == Some(IncorrectArguments)
      ensures |params| == FC_NOKEYHDR_NPARAMS ==>
        err == (if params[0] >= FC_HDR_NVERSION || params[1] >= FC_KEY_NTYPE then Some(InvalidArguments) else None)
      ensures err.Some? ==> version == old(version) && keytype == old(keytype) && keyIn == old(keyIn) && keyOut == old(keyOut)
      ensures err.None? ==> version == params[0] && keytype == params[1] && keyIn == None && keyOut == None
    {
      if |params| != FC_NOKEYHDR_NPARAMS {
        return Some(IncorrectArguments);
      }
      if params[0] >= FC_HDR_NVERSION || params[1] >= FC_KEY_NTYPE {
        return Some(InvalidArguments);
      }
      version := params[0];
      keytype := params[1];
      keyIn := None;
      keyOut := None;
      err := None;
    }

    /** `fromBytes`. */
    method FromBytes(b: seq<Byte>)
      requires |b| >= FC_NOKEYHDR_END_OFFSET
      modifies this
      ensures version == b[0] && keytype == b[1] && keyIn == None && keyOut == None
    {
      version := b[0];
      keytype := b[1];
      keyIn := None;
      keyOut := None;
    }

    /** `toBytes`: version and key type, each truncated to a byte. */
    function ToBytes(): (r: seq<Byte>)
      reads this
      ensures |r| == FC_NOKEYHDR_END_OFFSET
      ensures 0 <= version < 256 && 0 <= keytype < 256 ==> r == [version, keytype]
    {
      [ToByte(version), ToByte(keytype)]
    }

    /**
     * `generateKey`: while no key has been produced, appends the header to
     * the file and marks the header as written; the key is always nil.
     */
    method GenerateKey(file: File) returns (key: Slice, err: Option<Error>)
      modifies this, file
      ensures key == None
      ensures file.present == old(file.present) && file.pos == old(file.pos)
      ensures version == old(version) && keytype == old(keytype) && keyIn == old(keyIn)
      ensures old(keyOut).Some? ==> err == None && keyOut == old(keyOut) && file.contents == old(file.contents)
      ensures old(keyOut).None? && !old(file.present) ==>
        err == Some(OpenFileError) && keyOut == None && file.contents == old(file.contents)
      ensures old(keyOut).None? && old(file.present) ==>
        err == None && keyOut == Some([0]) && file.contents == old(file.contents) + old(ToBytes())
    {
      key := None;
      err := None;
      if keyOut.None? {
        var fhdr := ToBytes();
        err := file.OpenAppend();
        if err.Some? {
          return;
        }
        file.Write(fhdr);
        keyOut := Some([0]);
      }
    }
  }
}
