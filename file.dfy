/**
 * The files the filecrypt package writes and reads (filecrypt/filecrypt_utils.go):
 * a file is a byte string that may or may not exist, and an open handle has a
 * cursor.  Only the behaviours the package relies on are modelled: `os.Create`
 * truncates, the append mode has no create flag, a read returns fewer bytes at
 * end of file, and `readNBytesFromFile` turns a short read into an error.
 */
module Files {
  import opened Base

  /** The outcome of one `readNBytesFromFile` call and where the cursor ends. */
  datatype Read = Read(result: Result<seq<Byte>>, next: nat)

  /**
   * `readNBytesFromFile(f, n)` on a file holding `data` with the cursor at
   * `pos`: `make` panics on a negative length; a read that cannot deliver all
   * `n` bytes is "Incorrect file format" and leaves the cursor at the end.
   */
  function ReadAt(data: seq<Byte>, pos: nat, n: int): (r: Read)
    ensures r.result.Ok? <==> 0 <= n && (n == 0 || pos + n <= |data|)
    ensures r.result.Ok? ==> |r.result.value| == n && r.next == pos + n
    ensures r.result.Ok? && n > 0 ==> r.result.value == data[pos..pos + n]
    ensures r.result.Err? ==> r.next >= pos
    ensures n < 0 ==> r.result == Err(Panic)
  {
    if n < 0 then Read(Err(Panic), pos)
    else if n == 0 then Read(Ok([]), pos)
    else if pos + n <= |data| then Read(Ok(data[pos..pos + n]), pos + n)
    else Read(Err(IncorrectFileFormat), if pos < |data| then |data| else pos)
  }

  class File {
    var present: bool
    var contents: seq<Byte>
    /** Cursor of the handle the package currently reads with. */
    var pos: nat

    constructor (isPresent: bool, data: seq<Byte>)
      ensures present == isPresent && contents == (if isPresent then data else []) && pos == 0
    {
      present := isPresent;
      contents := if isPresent then data else [];
      pos := 0;
    }

    /** `openFileW`: `os.Create` makes the file empty, creating it if needed. */
    method Create()
      modifies this
      ensures present && contents == [] && pos == 0
    {
      present := true;
      contents := [];
      pos := 0;
    }

    /**
     * `openFileA`: write-only append mode without a create flag, so opening
     * a file that does not exist fails.
     */
    method OpenAppend() returns (err: Option<Error>)
      ensures err == if present then None else Some(OpenFileError)
    {
      err := if present then None else Some(OpenFileError);
    }

    /** `Write` on a handle in append mode. */
    method Write(b: seq<Byte>)
      requires present
      modifies this`contents
      ensures contents == old(contents) + b
    {
      contents := contents + b;
    }

    /** `openFileR`: a fresh read handle starts at offset 0. */
    method OpenRead() returns (err: Option<Error>)
      modifies this`pos
      ensures err == if present then None else Some(OpenFileError)
      ensures pos == if present then 0 else old(pos)
    {
      if present {
        pos := 0;
        err := None;
      } else {
        err := Some(OpenFileError);
      }
    }

    /** `f.Seek(offset, 0)`: seeking past the end is allowed, before the start is not. */
    method Seek(offset: int) returns (err: Option<Error>)
      modifies this`pos
      ensures err == if offset < 0 then Some(SeekError) else None
      ensures pos == if offset < 0 then old(pos) else offset
    {
      if offset < 0 {
        err := Some(SeekError);
      } else {
        pos := offset;
        err := None;
      }
    }

    /** `readNBytesFromFile(f, n)`. */
    method ReadN(n: int) returns (r: Result<seq<Byte>>)
      modifies this`pos
      ensures Read(r, pos) == ReadAt(contents, old(pos), n)
    {
      if n < 0 {
        r := Err(Panic);
      } else if n == 0 {
        r := Ok([]);
      } else if pos + n <= |contents| {
        r := Ok(contents[pos..pos + n]);
        pos := pos + n;
      } else {
        r := Err(IncorrectFileFormat);
        if pos < |contents| {
          pos := |contents|;
        }
      }
    }
  }
}
