/**
 * An abstract model of the parts of the MiniZip C library that ZIPReader
 * calls. Nothing here decompresses or decrypts: an archive is described by
 * what the library reports about it — its central directory as a sequence of
 * records, and, for every session opened on one entry, the sequence of
 * results that reading the decoded entry produces.
 */
module MiniZip {
  import opened Wrappers

  newtype byte = x: int | 0 <= x < 256

  /** UNZ_OK */
  const UnzOk: int := 0
  /** UNZ_END_OF_LIST_OF_FILE */
  const UnzEndOfListOfFile: int := -100
  /** UNZ_PARAMERROR: what unzReadCurrentFile returns when no entry is open. */
  const UnzParamError: int := -102

  /** MiniZip's error codes are negative. */
  type ErrorCode = c: int | c < 0 witness -1

  /**
   * One step of an entry's decoded output: a run of bytes, or a decoding
   * failure (wrong or missing password, corrupt data). An empty run stands
   * for a read that reports end of entry.
   */
  datatype Piece = Bytes(data: seq<byte>) | Fault(code: ErrorCode)

  /** One central directory record, as unzGetCurrentFileInfo64 and unzGetOffset64 report it. */
  datatype Record = Record(
    name: string,           // the size_filename bytes of the file name
    compressedSize: nat,
    uncompressedSize: nat,
    crc: nat,
    offset: nat)            // unzGetOffset64 while this record is current

  /**
   * What the ZIPReader sees when MiniZip has no current record: the
   * zero-initialised `unz_file_info64()`, the zero-filled name buffer, and
   * unzGetOffset64's 0.
   */
  const ZeroRecord := Record("", 0, 0, 0, 0)

  /**
   * An archive that unzOpen64 can open: its directory in order, and the
   * output of the session opened by unzSetOffset64(offset) followed by
   * unzOpenCurrentFile (password None) or unzOpenCurrentFilePassword.
   */
  datatype ArchiveImage = ArchiveImage(
    directory: seq<Record>,
    session: (nat, Option<string>) -> seq<Piece>)

  /** What unzOpen64 finds at an archive's location: None when it returns NULL. */
  type Location = Option<ArchiveImage>

  /** The position in the directory MiniZip keeps; `ok` is its current_file_ok flag. */
  datatype Cursor = Cursor(pos: nat, ok: bool)

  /** unzGoToFirstFile: the first record is current exactly when there is one. */
  function GoToFirstFile(directory: seq<Record>): (c: Cursor)
    ensures c.pos == 0
    ensures c.ok <==> |directory| > 0
    ensures c.ok ==> c.pos < |directory|
  {
    Cursor(0, |directory| > 0)
  }

  /**
   * unzGoToNextFile: UNZ_END_OF_LIST_OF_FILE, leaving the cursor alone, when
   * nothing is current or the current record is the last one; otherwise UNZ_OK
   * and the next record.
   */
  function GoToNextFile(directory: seq<Record>, c: Cursor): (r: (int, Cursor))
    ensures r.0 == UnzEndOfListOfFile <==> !(c.ok && c.pos + 1 < |directory|)
    ensures r.0 != UnzEndOfListOfFile ==> r.1 == Cursor(c.pos + 1, true)
  {
    if c.ok && c.pos + 1 < |directory| then (UnzOk, Cursor(c.pos + 1, true))
    else (UnzEndOfListOfFile, c)
  }

  /** The record unzGetCurrentFileInfo64 and unzGetOffset64 report at cursor c. */
  function CurrentRecord(directory: seq<Record>, c: Cursor): (r: Record)
    ensures c.ok && c.pos < |directory| ==> r == directory[c.pos]
    ensures !c.ok ==> r == ZeroRecord
  {
    if c.ok && c.pos < |directory| then directory[c.pos] else ZeroRecord
  }

  /**
   * The session unzGoToFirstFile followed by unzOpenCurrentFile opens: the
   * first entry without a password, or, when the directory is empty, no entry
   * at all, on which every read fails with UNZ_PARAMERROR.
   */
  function OpenFirstEntry(image: ArchiveImage): seq<Piece>
  {
    var c := GoToFirstFile(image.directory);
    if c.ok then image.session(CurrentRecord(image.directory, c).offset, None)
    else [Fault(UnzParamError)]
  }

  /** A measure of how much a session still has to produce. */
  function Size(pending: seq<Piece>): nat
  {
    if pending == [] then 0
    else (match pending[0] case Bytes(b) => |b| + 1 case Fault(_) => 1) + Size(pending[1..])
  }

  /** What one unzReadCurrentFile call returns, and what the session has left afterwards. */
  datatype Reply = Reply(count: int, chunk: seq<byte>, rest: seq<Piece>)

  /**
   * unzReadCurrentFile(handle, buf, len) on a session with output `pending`:
   * 0 at end of entry, the (sticky) error code at a fault, otherwise the next
   * bytes, never more than len of them; the part of a run that does not fit
   * is left for the next read.
   */
  function Read(pending: seq<Piece>, len: nat): (r: Reply)
    ensures r.count < 0 ==> r.chunk == [] && r.rest == pending
                            && pending != [] && pending[0].Fault?
    ensures r.count >= 0 ==> r.count == |r.chunk| <= len
    ensures r.count > 0 ==> Size(r.rest) < Size(pending)
    ensures pending == [] ==> r == Reply(0, [], [])
  {
    if pending == [] then Reply(0, [], [])
    else match pending[0]
      case Fault(code) => Reply(code, [], pending)
      case Bytes(b) =>
        if |b| <= len then
          assert Size(pending) == |b| + 1 + Size(pending[1..]);
          Reply(|b|, b, pending[1..])
        else
          var rest := [Bytes(b[len..])] + pending[1..];
          assert rest[1..] == pending[1..];
          assert Size(rest) == |b| - len + 1 + Size(pending[1..]);
          Reply(len, b[..len], rest)
  }

  /** An open MiniZip handle with one entry open for reading. */
  class Handle {
    var pending: seq<Piece>

    /** unzOpen64, unzSetOffset64 and unzOpenCurrentFile(Password) together. */
    constructor (session: seq<Piece>)
      ensures pending == session
    {
      pending := session;
    }

    /** unzReadCurrentFile: copies at most len decoded bytes into buf, returns their count or an error code. */
    method ReadCurrentFile(buf: array<byte>, len: nat) returns (n: int)
      requires len <= buf.Length
      modifies this, buf
      ensures n == Read(old(pending), len).count
      ensures pending == Read(old(pending), len).rest
      ensures n >= 0 ==> n <= buf.Length && buf[..n] == Read(old(pending), len).chunk
    {
      var r := Read(pending, len);
      pending := r.rest;
      n := r.count;
      forall i | 0 <= i < |r.chunk| {
        buf[i] := r.chunk[i];
      }
    }
  }
}
