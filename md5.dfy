/**
 * `compute_md5` of src/utils.rs: a file hashed in chunks of at most 1024
 * bytes through an incremental MD5 context. The digest itself is kept
 * symbolic: `Md5Of(bytes)` stands for the MD5 of `bytes`.
 */
module Md5Stream {
  import opened Wrappers

  newtype byte = x: int | 0 <= x < 256

  /** The size of the read buffer. */
  const BufferSize: nat := 1024

  /** The MD5 digest of `input`. */
  datatype Digest = Md5Of(input: seq<byte>)

  /** An I/O error, with its debug rendering. */
  datatype IoError = IoError(detail: string)

  /** The bytes of `chunks`, one after another. */
  function Concat(chunks: seq<seq<byte>>): seq<byte>
  {
    if chunks == [] then [] else Concat(chunks[..|chunks| - 1]) + chunks[|chunks| - 1]
  }

  /** `md5::Context`: an incremental hash that has consumed `consumed` so far. */
  class Context {
    var consumed: seq<byte>

    constructor ()
      ensures consumed == []
    {
      consumed := [];
    }

    method Consume(data: seq<byte>)
      modifies this
      ensures consumed == old(consumed) + data
    {
      consumed := consumed + data;
    }

    /** `compute`: the digest of everything consumed so far. */
    function Compute(): (digest: Digest)
      reads this
      ensures digest.input == consumed
    {
      Md5Of(consumed)
    }
  }

  /** A read error the operating system reports once reading reaches offset `at`. */
  datatype ReadError = ReadError(at: nat, error: IoError)

  /** What opening a file gives: its bytes, and the read error it has, if any. */
  datatype OpenedFile = OpenedFile(content: seq<byte>, readError: Option<ReadError>)

  /** Reading `file` to its end meets its read error. */
  predicate FailsBeforeEnd(file: OpenedFile)
  {
    file.readError.Some? && file.readError.value.at <= |file.content|
  }

  /** An open file: its content, its read error, and the position of the next read. */
  class File {
    const content: seq<byte>
    const readError: Option<ReadError>
    var pos: nat

    ghost predicate Valid()
      reads this
    {
      && pos <= |content|
      && (readError.Some? ==> pos <= readError.value.at)
    }

    constructor Open(file: OpenedFile)
      ensures content == file.content && readError == file.readError && pos == 0
      ensures Valid()
    {
      content := file.content;
      readError := file.readError;
      pos := 0;
    }

    /**
     * `Read::read`: fail when reading has reached the file's read error;
     * otherwise copy the next bytes of the file, up to the read error, to the
     * front of `buf`. How many bytes one read delivers is up to the operating
     * system; it delivers none only at the end of the file or into an empty
     * buffer.
     */
    method Read(buf: array<byte>) returns (r: Result<nat, IoError>)
      requires Valid()
      modifies this, buf
      ensures Valid()
      ensures r.Err? <==> readError.Some? && readError.value.at <= old(pos)
      ensures r.Err? ==> r.error == readError.value.error && pos == old(pos)
      ensures r.Ok? ==> r.value <= buf.Length && pos == old(pos) + r.value
      ensures r.Ok? ==> buf[..r.value] == content[old(pos)..pos]
      ensures r.Ok? ==> (r.value == 0 <==> old(pos) == |content| || buf.Length == 0)
    {
      if readError.Some? && readError.value.at <= pos {
        return Err(readError.value.error);
      }
      if pos == |content| || buf.Length == 0 {
        return Ok(0);
      }
      var limit := if readError.Some? && readError.value.at < |content| then readError.value.at else |content|;
      assert 0 < 1 <= buf.Length && pos + 1 <= limit;
      var n: nat :| 0 < n <= buf.Length && pos + n <= limit;
      forall k | 0 <= k < n {
        buf[k] := content[pos + k];
      }
      pos := pos + n;
      return Ok(n);
    }
  }

  /**
   * `compute_md5`, given what opening the file gives: the opened file, or the
   * error opening fails with. A file that cannot be opened has no digest; a
   * file whose read error lies within its content gives that error; any other
   * file gives the digest of its whole content, an empty file included.
   * `chunks` records what each read delivered.
   */
  method ComputeMd5(opening: Result<OpenedFile, IoError>)
    returns (r: Result<Option<Digest>, string>, ghost chunks: seq<seq<byte>>)
    ensures opening.Err? ==> r == Ok(None)
    ensures opening.Ok? && FailsBeforeEnd(opening.value) ==>
      r == Err("I/O reading file: " + opening.value.readError.value.error.detail)
    ensures opening.Ok? && !FailsBeforeEnd(opening.value) ==> r == Ok(Some(Md5Of(opening.value.content)))
    ensures forall c | c in chunks :: 0 < |c| <= BufferSize
    ensures opening.Ok? ==> Concat(chunks) <= opening.value.content
    ensures opening.Ok? && r.Ok? ==> Concat(chunks) == opening.value.content
  {
    if opening.Err? {
      return Ok(None), [];
    }
    var file := new File.Open(opening.value);
    var buffer := new byte[BufferSize](_ => 0);
    var md5 := new Context();
    chunks := [];
    while true
      invariant file.Valid() && file.content == opening.value.content && file.readError == opening.value.readError
      invariant md5.consumed == Concat(chunks) == file.content[..file.pos]
      invariant forall c | c in chunks :: 0 < |c| <= BufferSize
      invariant buffer.Length == BufferSize
      decreases |file.content| - file.pos
    {
      ghost var start := file.pos;
      var read := file.Read(buffer);
      if read.Err? {
        return Err("I/O reading file: " + read.error.detail), chunks;
      }
      var bytesRead := read.value;
      if bytesRead == 0 {
        break;
      }
      md5.Consume(buffer[..bytesRead]);
      chunks := chunks + [buffer[..bytesRead]];
      assert file.content[..file.pos] == file.content[..start] + file.content[start..file.pos];
    }
    assert file.content[..file.pos] == file.content;
    var result := md5.Compute();
    return Ok(Some(result)), chunks;
  }
}
