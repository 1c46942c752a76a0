/**
 * ZIPReader: the archive facade, its directory scan (`readFiles`), the entry
 * stream (`Stream.streaming`) and the entry descriptor `File` with its
 * ordering operators, on top of the MiniZip model. Every operation opens
 * its own handle; the archive is described by the MiniZip.Location it was
 * created with.
 */
module ZIPKit {
  import opened Wrappers
  import opened MiniZip
  import opened Paths
  import PathOrder

  /** The size of the buffer `streaming` reads into: 64 KiB. */
  const BufferSize: nat := 65536

  /** ZIPReader.Error */
  datatype Error = InvalidPassword

  /** How a call of `streaming` ended: it returned, or it threw. */
  datatype Outcome = Completed | Threw(error: Error)

  /**
   * The closure passed to `streaming`, as the answer it gives when called:
   * it sees every chunk it has been handed so far, the current one last.
   */
  type Consumer = seq<seq<byte>> -> bool

  /** The closure of `data()`: it appends the chunk and always asks for more. */
  function AlwaysContinue(history: seq<seq<byte>>): bool
  {
    true
  }

  function Concat(chunks: seq<seq<byte>>): seq<byte>
  {
    if chunks == [] then [] else chunks[0] + Concat(chunks[1..])
  }

  lemma {:induction false} ConcatAppend(a: seq<seq<byte>>, b: seq<seq<byte>>)
    ensures Concat(a + b) == Concat(a) + Concat(b)
    decreases |a|
  {
    if a == [] {
      assert a + b == b;
    } else {
      assert (a + b)[0] == a[0];
      assert (a + b)[1..] == a[1..] + b;
      ConcatAppend(a[1..], b);
    }
  }

  predicate IsPrefix(a: seq<byte>, b: seq<byte>)
  {
    |a| <= |b| && b[..|a|] == a
  }

  // ---------------------------------------------------------------------
  // What a session yields, independently of how it is read.

  /** The bytes an entry session decodes before its first fault or end-of-entry read. */
  function Decoded(p: seq<Piece>): seq<byte>
  {
    if p == [] then []
    else match p[0]
      case Fault(_) => []
      case Bytes(b) => if b == [] then [] else b + Decoded(p[1..])
  }

  /** Whether a session fails before it reports end of entry. */
  predicate EndsInFault(p: seq<Piece>)
  {
    if p == [] then false
    else match p[0]
      case Fault(_) => true
      case Bytes(b) => b != [] && EndsInFault(p[1..])
  }

  /** The whole entry, read to its end: its bytes, or invalidPassword if it fails first. */
  function EntryBytes(p: seq<Piece>): Result<seq<byte>, Error>
  {
    if EndsInFault(p) then Failure(InvalidPassword) else Success(Decoded(p))
  }

  /** How one read of at most len > 0 bytes relates to what the session yields. */
  lemma ReadDecoded(p: seq<Piece>, len: nat)
    requires len > 0
    ensures var r := Read(p, len);
            && (r.count < 0 ==> Decoded(p) == [] && EndsInFault(p))
            && (r.count == 0 ==> Decoded(p) == [] && !EndsInFault(p))
            && (r.count > 0 ==> Decoded(p) == r.chunk + Decoded(r.rest)
                                && EndsInFault(p) == EndsInFault(r.rest))
  {
    if p != [] && p[0].Bytes? && |p[0].data| > len {
      var b := p[0].data;
      var rest := [Bytes(b[len..])] + p[1..];
      assert rest[1..] == p[1..];
      assert b == b[..len] + b[len..];
    }
  }

  // ---------------------------------------------------------------------
  // Stream.streaming

  /**
   * The repeat-while loop of `streaming` on a session with output p, the
   * closure having been handed `delivered` so far: each read asks for
   * BufferSize bytes; a negative count throws before the closure is called;
   * otherwise the chunk is handed over, and the loop goes on while the read
   * was non-empty and the closure returned true.
   */
  function Run(p: seq<Piece>, block: Consumer, delivered: seq<seq<byte>>): (Outcome, seq<seq<byte>>)
    decreases Size(p)
  {
    var r := Read(p, BufferSize);
    if r.count < 0 then (Threw(InvalidPassword), delivered)
    else
      var d := delivered + [r.chunk];
      if r.count > 0 && block(d) then Run(r.rest, block, d) else (Completed, d)
  }

  /** `Stream(url, offset, password).streaming(block)`: nothing happens when the archive cannot be opened. */
  function Streamed(url: Location, offset: nat, password: Option<string>, block: Consumer): (Outcome, seq<seq<byte>>)
  {
    match url
    case None => (Completed, [])
    case Some(image) => Run(image.session(offset, password), block, [])
  }

  /** What `data(offset:password:)` and `File.data(password:)` return. */
  function ReadAll(url: Location, offset: nat, password: Option<string>): Result<seq<byte>, Error>
  {
    match url
    case None => Success([])
    case Some(image) => EntryBytes(image.session(offset, password))
  }

  /**
   * The shape of every run: earlier chunks stay delivered; each chunk holds
   * at most BufferSize bytes; the loop only went on after a non-empty chunk
   * the closure accepted; it returns after an empty chunk or a refusal, and
   * it throws only after the closure accepted the last chunk it was handed.
   */
  lemma {:induction false} RunShape(p: seq<Piece>, block: Consumer, prior: seq<seq<byte>>)
    ensures var o, d := Run(p, block, prior).0, Run(p, block, prior).1;
      && |prior| <= |d| && d[..|prior|] == prior
      && (forall k :: |prior| <= k < |d| ==> |d[k]| <= BufferSize)
      && (forall k :: |prior| <= k < |d| - 1 ==> d[k] != [] && block(d[..k + 1]))
      && (o.Completed? ==> |d| > |prior| && (d[|d| - 1] == [] || !block(d)))
      && (o.Threw? ==> |d| > |prior| ==> d[|d| - 1] != [] && block(d))
    decreases Size(p)
  {
    var r := Read(p, BufferSize);
    if r.count >= 0 {
      var d1 := prior + [r.chunk];
      if r.count > 0 && block(d1) {
        RunShape(r.rest, block, d1);
        assert Run(p, block, prior) == Run(r.rest, block, d1);
        var d := Run(r.rest, block, d1).1;
        assert d[..|prior|] == d[..|d1|][..|prior|];
        assert d[..|prior| + 1] == d1;
        assert d[|prior|] == r.chunk;
        if |d| == |d1| {
          assert d == d1;
        }
        forall k | |prior| <= k < |d| - 1 ensures d[k] != [] && block(d[..k + 1]) {
          if k == |prior| {
            assert d[..k + 1] == d1;
          }
        }
      }
    }
  }

  /**
   * The bytes a run hands over are a prefix of what the session decodes;
   * they are all of it when the run throws (the session fails) or ends on an
   * empty chunk (the session ends without failing).
   */
  lemma {:induction false} RunBytes(p: seq<Piece>, block: Consumer, prior: seq<seq<byte>>)
    ensures var (o, d) := Run(p, block, prior);
      && |prior| <= |d|
      && IsPrefix(Concat(d[|prior|..]), Decoded(p))
      && (o.Threw? ==> Concat(d[|prior|..]) == Decoded(p) && EndsInFault(p))
      && (o.Completed? && |d| > |prior| && d[|d| - 1] == [] ==>
            Concat(d[|prior|..]) == Decoded(p) && !EndsInFault(p))
    decreases Size(p)
  {
    var r := Read(p, BufferSize);
    ReadDecoded(p, BufferSize);
    var d1 := prior + [r.chunk];
    if r.count < 0 {
      assert Run(p, block, prior).1[|prior|..] == [];
    } else if r.count > 0 && block(d1) {
      RunBytes(r.rest, block, d1);
      RunKeepsPrior(r.rest, block, d1);
      var d := Run(r.rest, block, d1).1;
      DropPrefix(prior, r.chunk, d);
      ConcatAppend([r.chunk], d[|d1|..]);
      ConcatSingle(r.chunk);
    } else {
      assert d1[|prior|..] == [r.chunk];
      ConcatSingle(r.chunk);
    }
  }

  /** A run never takes back what was delivered before it. */
  lemma {:induction false} RunKeepsPrior(p: seq<Piece>, block: Consumer, prior: seq<seq<byte>>)
    ensures |prior| <= |Run(p, block, prior).1| && Run(p, block, prior).1[..|prior|] == prior
    decreases Size(p)
  {
    var r := Read(p, BufferSize);
    if r.count >= 0 {
      var d1 := prior + [r.chunk];
      if r.count > 0 && block(d1) {
        RunKeepsPrior(r.rest, block, d1);
        var d := Run(r.rest, block, d1).1;
        assert d[..|prior|] == d[..|d1|][..|prior|];
      }
    }
  }

  lemma DropPrefix<T>(prior: seq<T>, x: T, d: seq<T>)
    requires |prior| + 1 <= |d| && d[..|prior| + 1] == prior + [x]
    ensures d[|prior|..] == [x] + d[|prior| + 1..]
  {
    assert d[|prior|] == x;
  }

  lemma ConcatSingle(x: seq<byte>)
    ensures Concat([x]) == x
  {
    assert [x][1..] == [];
  }

  /**
   * With a closure that always continues, as in `data()`, the run reads
   * the entry to its end: it throws exactly when the session fails first,
   * and the delivered chunks concatenate to exactly the decoded bytes.
   */
  lemma RunToEnd(p: seq<Piece>)
    ensures Run(p, AlwaysContinue, []).0.Threw? <==> EndsInFault(p)
    ensures Concat(Run(p, AlwaysContinue, []).1) == Decoded(p)
  {
    RunShape(p, AlwaysContinue, []);
    RunBytes(p, AlwaysContinue, []);
    var (o, d) := Run(p, AlwaysContinue, []);
    assert d[0..] == d;
  }

  /**
   * Cancellation after the first chunk: a closure that refuses whenever it is
   * handed its first chunk gets at most that one chunk, a prefix of the
   * entry of at most BufferSize bytes — a strict prefix when the entry
   * decodes to more than that.
   */
  lemma CancelAfterFirstChunk(p: seq<Piece>, block: Consumer)
    requires forall h :: |h| == 1 ==> !block(h)
    ensures var (o, d) := Run(p, block, []);
      && |d| <= 1
      && IsPrefix(Concat(d), Decoded(p))
      && |Concat(d)| <= BufferSize
      && (o.Completed? && |Decoded(p)| > BufferSize ==> |Concat(d)| < |Decoded(p)|)
  {
    RunShape(p, block, []);
    RunBytes(p, block, []);
    var (o, d) := Run(p, block, []);
    assert d[0..] == d;
    if |d| == 1 {
      assert Concat(d) == d[0] + Concat(d[1..]);
    }
  }

  /** Every run of a session's output whose pieces fit the buffer. */
  predicate FitsBuffer(p: seq<Piece>)
  {
    forall k :: 0 <= k < |p| ==> p[k].Bytes? ==> |p[k].data| <= BufferSize
  }

  /**
   * When every piece fits the 64 KiB buffer, the chunks handed over are the
   * session's own pieces, in order — a prefix of them, followed by one empty
   * chunk when the run reads past the last piece.
   */
  lemma {:induction false} RunFollowsPieces(p: seq<Piece>, block: Consumer, prior: seq<seq<byte>>)
    requires FitsBuffer(p)
    ensures var (o, d) := Run(p, block, prior);
      && |prior| <= |d| <= |prior| + |p| + 1
      && (forall k :: |prior| <= k < |d| && k - |prior| < |p| ==>
            p[k - |prior|] == Bytes(d[k]))
      && (|d| == |prior| + |p| + 1 ==> d[|d| - 1] == [])
    decreases Size(p)
  {
    var r := Read(p, BufferSize);
    RunShape(p, block, prior);
    var d1 := prior + [r.chunk];
    if r.count > 0 && block(d1) {
      assert p[0].Bytes? && |p[0].data| <= BufferSize;
      assert r.rest == p[1..] && r.chunk == p[0].data;
      assert FitsBuffer(p[1..]) by {
        forall k | 0 <= k < |p[1..]| ensures p[1..][k].Bytes? ==> |p[1..][k].data| <= BufferSize {
          assert p[1..][k] == p[k + 1];
        }
      }
      RunFollowsPieces(r.rest, block, d1);
      RunShape(r.rest, block, d1);
      var (o, d) := Run(r.rest, block, d1);
      assert d[..|d1|] == d1;
      forall k | |prior| <= k < |d| && k - |prior| < |p| ensures p[k - |prior|] == Bytes(d[k]) {
        if k == |prior| {
          assert d[k] == d1[k];
        } else {
          assert p[1..][k - |d1|] == p[k - |prior|];
        }
      }
    } else if r.count >= 0 {
      if p != [] {
        assert p[0].Bytes?;
        assert p[0] == Bytes(r.chunk);
      }
    }
  }

  /** Stream: one streaming read of one entry, on its own handle. */
  class Stream {
    const url: Location
    const offset: nat
    const password: Option<string>

    constructor (url: Location, offset: nat, password: Option<string>)
      ensures this.url == url && this.offset == offset && this.password == password
    {
      this.url := url;
      this.offset := offset;
      this.password := password;
    }

    /**
     * `streaming(_ block:)`. The chunks handed to the closure, in order, are
     * returned beside the outcome; what the closure does with them (appending,
     * writing) is the caller's.
     */
    method Streaming(block: Consumer) returns (outcome: Outcome, delivered: seq<seq<byte>>)
      ensures (outcome, delivered) == Streamed(url, offset, password, block)
    {
      if url.None? {
        return Completed, [];
      }
      var handle := new Handle(url.value.session(offset, password));
      var buffer := new byte[BufferSize];
      delivered := [];
      var readedByte := 0;
      var canNext := false;
      while true
        invariant fresh(handle) && fresh(buffer) && buffer.Length == BufferSize
        invariant Run(handle.pending, block, delivered) == Streamed(url, offset, password, block)
        decreases Size(handle.pending)
      {
        readedByte := handle.ReadCurrentFile(buffer, BufferSize);
        if readedByte < 0 {
          return Threw(InvalidPassword), delivered;
        }
        var data := buffer[..readedByte];
        delivered := delivered + [data];
        canNext := block(delivered);
        if !(readedByte > 0 && canNext) {
          break;
        }
      }
      outcome := Completed;
    }
  }

  /** Reads one entry to its end, as `data(offset:password:)` and `File.data(password:)` do. */
  method ReadEntry(url: Location, offset: nat, password: Option<string>) returns (r: Result<seq<byte>, Error>)
    ensures r == ReadAll(url, offset, password)
  {
    var stream := new Stream(url, offset, password);
    var outcome, delivered := stream.Streaming(AlwaysContinue);
    if url.Some? {
      var p := url.value.session(offset, password);
      RunToEnd(p);
      assert (outcome, delivered) == Run(p, AlwaysContinue, []);
    }
    if outcome.Threw? {
      assert url.Some? && EndsInFault(url.value.session(offset, password));
      return Failure(InvalidPassword);
    }
    // the closure appended every chunk, in the order it was handed them
    r := Success(Concat(delivered));
  }

  // ---------------------------------------------------------------------
  // File

  /** ZIPReader.File: the descriptor of one non-directory entry. */
  datatype File = File(
    url: Location,
    path: string,
    fileExtension: string,
    isHidden: bool,
    offset: nat,
    compressedSize: nat,
    uncompressedSize: nat,
    crc: nat)
  {
    /** `data(password:)` */
    method Data(password: Option<string>) returns (r: Result<seq<byte>, Error>)
      ensures r == ReadAll(url, offset, password)
    {
      r := ReadEntry(url, offset, password);
    }

    /** `streaming(password:streamHandler:)` */
    method Streaming(password: Option<string>, streamHandler: Consumer) returns (outcome: Outcome, delivered: seq<seq<byte>>)
      ensures (outcome, delivered) == Streamed(url, offset, password, streamHandler)
    {
      var stream := new Stream(url, offset, password);
      outcome, delivered := stream.Streaming(streamHandler);
    }

    /** `<` */
    static predicate Less(lhs: File, rhs: File)
    {
      PathOrder.PathLess(lhs.path, rhs.path)
    }

    /** `>`, as written: the negation of `<`. */
    static predicate Greater(lhs: File, rhs: File)
    {
      !Less(lhs, rhs)
    }

    /** `<=` */
    static predicate LessOrEqual(lhs: File, rhs: File)
    {
      Equal(lhs, rhs) || Less(lhs, rhs)
    }

    /** `>=` */
    static predicate GreaterOrEqual(lhs: File, rhs: File)
    {
      Equal(lhs, rhs) || Greater(lhs, rhs)
    }

    /** `==`: plain path equality. */
    static predicate Equal(lhs: File, rhs: File)
    {
      lhs.path == rhs.path
    }

    /** `>` as the converse of `<`, which Comparable expects. */
    static predicate GreaterIntended(lhs: File, rhs: File)
    {
      Less(rhs, lhs)
    }

    /** `==` as the equivalence `<` induces: the same components, ignoring case. */
    static predicate EqualIntended(lhs: File, rhs: File)
    {
      PathOrder.SameKey(lhs.path, rhs.path)
    }
  }

  /** `>` as written holds of every file against itself, together with `==`. */
  lemma GreaterIsReflexive(f: File)
    ensures File.Greater(f, f) && File.Equal(f, f)
  {
    PathOrder.PathLessIrreflexive(f.path);
  }

  /** `>` as written holds of a strictly greater File and of one with the same key, ignoring case. */
  lemma GreaterAsWritten(a: File, b: File)
    ensures File.Greater(a, b) <==> File.GreaterIntended(a, b) || File.EqualIntended(a, b)
  {
    PathOrder.PathTrichotomy(a.path, b.path);
  }

  /** Because `==` implies not `<`, `>=` as written is just the negation of `<`. */
  lemma GreaterOrEqualIsNotLess(a: File, b: File)
    ensures File.GreaterOrEqual(a, b) <==> !File.Less(a, b)
  {
    PathOrder.PathLessIrreflexive(a.path);
  }

  /** `<=` is antisymmetric with respect to `==`. */
  lemma LessOrEqualAntisymmetric(a: File, b: File)
    requires File.LessOrEqual(a, b) && File.LessOrEqual(b, a)
    ensures File.Equal(a, b)
  {
    if File.Less(a, b) {
      PathOrder.PathLessAsymmetric(a.path, b.path);
    }
  }

  /** `==` is case-sensitive, `<` is not: "A.txt" and "a.txt" are neither equal nor ordered. */
  lemma EqualIsCaseSensitive(a: File, b: File)
    requires a.path == "A.txt" && b.path == "a.txt"
    ensures !File.Equal(a, b) && !File.Less(a, b) && !File.Less(b, a)
  {
    assert Lowercased(a.path) == "a.txt";
    assert Lowercased(b.path) == "a.txt";
    PathOrder.CaseVariantsUnordered(a.path, b.path);
  }

  /**
   * The corrected `>` is a strict order, the converse of `<`, and excludes
   * both `<` and `==`.
   */
  lemma GreaterIntendedIsStrict(a: File, b: File, c: File)
    ensures !File.GreaterIntended(a, a)
    ensures File.GreaterIntended(a, b) ==> !File.GreaterIntended(b, a) && !File.Less(a, b) && !File.Equal(a, b)
    ensures File.GreaterIntended(a, b) && File.GreaterIntended(b, c) ==> File.GreaterIntended(a, c)
  {
    PathOrder.PathLessIrreflexive(a.path);
    if File.GreaterIntended(a, b) {
      PathOrder.PathLessAsymmetric(b.path, a.path);
      if a.path == b.path {
        PathOrder.PathLessIrreflexive(b.path);
      }
      if File.GreaterIntended(b, c) {
        PathOrder.PathLessTransitive(c.path, b.path, a.path);
      }
    }
  }

  /**
   * With the corrected `>` and `==`, every two files are related by exactly
   * one of `<`, `==` and `>`, as Comparable requires.
   */
  lemma IntendedTrichotomy(a: File, b: File)
    ensures File.Less(a, b) || File.EqualIntended(a, b) || File.GreaterIntended(a, b)
    ensures !(File.Less(a, b) && File.EqualIntended(a, b))
    ensures !(File.Less(a, b) && File.GreaterIntended(a, b))
    ensures !(File.EqualIntended(a, b) && File.GreaterIntended(a, b))
  {
    PathOrder.PathTrichotomy(a.path, b.path);
  }

  // ---------------------------------------------------------------------
  // readFiles

  /** `path.last == "/"`: the record names a directory. */
  predicate IsDirectoryRecord(rec: Record)
  {
    EndsWithSlash(CString(rec.name))
  }

  /** The File readFiles builds from one directory record. */
  function MakeFile(url: Location, rec: Record): File
  {
    var path := CString(rec.name);
    File(url, path, PathExtension(path), IsHiddenName(path),
         rec.offset, rec.compressedSize, rec.uncompressedSize, rec.crc)
  }

  /** What every File from readFiles satisfies. */
  predicate WellFormedEntry(f: File)
  {
    && !EndsWithSlash(f.path)
    && f.fileExtension == PathExtension(f.path)
    && (f.isHidden <==> LastPathComponent(f.path) != [] && LastPathComponent(f.path)[0] == '.')
  }

  /** The Files readFiles appends while visiting the records recs, in order. */
  function EntriesOf(url: Location, recs: seq<Record>): (files: seq<File>)
    ensures |files| <= |recs|
  {
    if recs == [] then []
    else
      var last := recs[|recs| - 1];
      EntriesOf(url, recs[..|recs| - 1]) + (if IsDirectoryRecord(last) then [] else [MakeFile(url, last)])
  }

  /**
   * What readFiles returns: [] when the archive cannot be opened; otherwise
   * the visited records' Files. The first record is processed before the
   * end-of-list check, so an empty directory still yields what MiniZip
   * reports with no current record.
   */
  function Scan(url: Location): seq<File>
  {
    match url
    case None => []
    case Some(image) =>
      EntriesOf(url, if image.directory == [] then [ZeroRecord] else image.directory)
  }

  /** A File from readFiles is well formed and refers to the archive it came from. */
  ghost predicate FromArchive(url: Location, f: File)
  {
    WellFormedEntry(f) && f.url == url
  }

  ghost predicate AllFrom(url: Location, files: seq<File>)
  {
    forall k :: 0 <= k < |files| ==> FromArchive(url, files[k])
  }

  /** Every File from readFiles is well formed and refers to the archive it came from. */
  lemma {:induction false} EntriesWellFormed(url: Location, recs: seq<Record>)
    ensures AllFrom(url, EntriesOf(url, recs))
  {
    if recs != [] {
      var init, last := recs[..|recs| - 1], recs[|recs| - 1];
      EntriesWellFormed(url, init);
      if !IsDirectoryRecord(last) {
        var f := MakeFile(url, last);
        MakeFileWellFormed(url, last);
        assert FromArchive(url, f);
        AllSnoc(EntriesOf(url, init), f, (g: File) => FromArchive(url, g));
      }
    }
  }

  lemma AllSnoc<T>(xs: seq<T>, x: T, P: T -> bool)
    requires forall k :: 0 <= k < |xs| ==> P(xs[k])
    requires P(x)
    ensures forall k :: 0 <= k < |xs + [x]| ==> P((xs + [x])[k])
  {
  }

  lemma MakeFileWellFormed(url: Location, rec: Record)
    requires !IsDirectoryRecord(rec)
    ensures WellFormedEntry(MakeFile(url, rec))
  {
  }

  /** Directory order: scanning two runs of records one after the other gives their Files one after the other. */
  lemma {:induction false} EntriesOfAppend(url: Location, a: seq<Record>, b: seq<Record>)
    ensures EntriesOf(url, a + b) == EntriesOf(url, a) + EntriesOf(url, b)
    decreases |b|
  {
    if b == [] {
      assert a + b == a;
    } else {
      var b', z := b[..|b| - 1], b[|b| - 1];
      var tail := if IsDirectoryRecord(z) then [] else [MakeFile(url, z)];
      TakeSnoc(b, |b| - 1);
      TakeAll(b);
      AppendAssociative(a, b', [z]);
      EntriesOfSnoc(url, a + b', z);
      EntriesOfSnoc(url, b', z);
      EntriesOfAppend(url, a, b');
      AppendAssociative(EntriesOf(url, a), EntriesOf(url, b'), tail);
    }
  }

  /** Every listed File is built from a visited record that does not name a directory. */
  lemma {:induction false} EntriesOfSound(url: Location, recs: seq<Record>, f: File) returns (k: nat)
    requires f in EntriesOf(url, recs)
    ensures k < |recs| && !IsDirectoryRecord(recs[k]) && f == MakeFile(url, recs[k])
  {
    var init, last := recs[..|recs| - 1], recs[|recs| - 1];
    var tail := if IsDirectoryRecord(last) then [] else [MakeFile(url, last)];
    assert EntriesOf(url, recs) == EntriesOf(url, init) + tail;
    if f in EntriesOf(url, init) {
      k := EntriesOfSound(url, init, f);
      TakeIndex(recs, |recs| - 1, k);
    } else {
      assert f in tail;
      k := |recs| - 1;
    }
  }

  /** Every visited record that does not name a directory has its File listed. */
  lemma {:induction false} EntriesOfComplete(url: Location, recs: seq<Record>, k: nat)
    requires k < |recs| && !IsDirectoryRecord(recs[k])
    ensures MakeFile(url, recs[k]) in EntriesOf(url, recs)
  {
    var init, last := recs[..|recs| - 1], recs[|recs| - 1];
    var tail := if IsDirectoryRecord(last) then [] else [MakeFile(url, last)];
    assert EntriesOf(url, recs) == EntriesOf(url, init) + tail;
    if k < |init| {
      TakeIndex(recs, |recs| - 1, k);
      EntriesOfComplete(url, init, k);
    } else {
      assert k == |recs| - 1 && recs[k] == last;
      assert tail == [MakeFile(url, last)];
    }
  }

  /**
   * The scan lists exactly the Files of the non-directory records: a File is
   * listed if and only if some visited record that does not name a
   * directory builds it.
   */
  lemma EntriesOfMembers(url: Location, recs: seq<Record>, f: File)
    ensures f in EntriesOf(url, recs)
            <==> exists k :: 0 <= k < |recs| && !IsDirectoryRecord(recs[k]) && f == MakeFile(url, recs[k])
  {
    if f in EntriesOf(url, recs) {
      var k := EntriesOfSound(url, recs, f);
    }
    if exists k :: 0 <= k < |recs| && !IsDirectoryRecord(recs[k]) && f == MakeFile(url, recs[k]) {
      var k :| 0 <= k < |recs| && !IsDirectoryRecord(recs[k]) && f == MakeFile(url, recs[k]);
      EntriesOfComplete(url, recs, k);
    }
  }

  lemma TakeIndex<T>(s: seq<T>, n: nat, k: nat)
    requires k < n <= |s|
    ensures s[..n][k] == s[k]
  {
  }

  lemma TakeSnoc<T>(s: seq<T>, i: nat)
    requires i < |s|
    ensures s[..i] + [s[i]] == s[..i + 1]
  {
  }

  lemma Singleton<T>(s: seq<T>)
    requires |s| == 1
    ensures s == [s[0]]
  {
  }

  lemma TakeAll<T>(s: seq<T>)
    ensures s[..|s|] == s
  {
  }

  lemma EntriesOfSnoc(url: Location, recs: seq<Record>, rec: Record)
    ensures EntriesOf(url, recs + [rec])
            == EntriesOf(url, recs) + if IsDirectoryRecord(rec) then [] else [MakeFile(url, rec)]
  {
    assert (recs + [rec])[..|recs|] == recs;
  }

  /** One record gives its File exactly when its name does not end in '/'. */
  lemma EntriesOfSingle(url: Location, rec: Record)
    ensures EntriesOf(url, [rec]) == if IsDirectoryRecord(rec) then [] else [MakeFile(url, rec)]
  {
    assert [rec][..0] == [];
  }

  /** With no records, readFiles still returns one File: empty path, no extension, not hidden, offset 0. */
  lemma ScanEmptyDirectory(image: ArchiveImage)
    requires image.directory == []
    ensures Scan(Some(image)) == [File(Some(image), "", "", false, 0, 0, 0, 0)]
  {
    EntriesOfSingle(Some(image), ZeroRecord);
  }

  /** One visit of readFiles: the record's File is appended unless it names a directory. */
  lemma VisitRecord(url: Location, visited: seq<Record>, rec: Record, before: seq<File>, after: seq<File>)
    requires before == EntriesOf(url, visited)
    requires after == if IsDirectoryRecord(rec) then before else before + [MakeFile(url, rec)]
    ensures after == EntriesOf(url, visited + [rec])
  {
    EntriesOfSnoc(url, visited, rec);
  }

  /** `readFiles`: the repeat-while walk over the directory. */
  method ReadFiles(url: Location) returns (files: seq<File>)
    ensures files == Scan(url)
  {
    if url.None? {
      return [];
    }
    var dir := url.value.directory;
    files := [];
    var cursor := GoToFirstFile(dir);
    while true
      invariant dir == [] ==> cursor == Cursor(0, false) && files == []
      invariant dir != [] ==> cursor.ok && cursor.pos < |dir| && files == EntriesOf(url, dir[..cursor.pos])
      decreases |dir| - cursor.pos
    {
      ghost var visited := if dir == [] then [] else dir[..cursor.pos];
      ghost var before := files;
      var info := CurrentRecord(dir, cursor);
      var path := CString(info.name);
      var isDirectory := EndsWithSlash(path);
      if !isDirectory {
        var file := MakeFile(url, info);
        files := files + [file];
      }
      VisitRecord(url, visited, info, before, files);
      var (status, next) := GoToNextFile(dir, cursor);
      if dir != [] {
        TakeSnoc(dir, cursor.pos);
      }
      if status == UnzEndOfListOfFile {
        if dir != [] {
          TakeAll(dir);
        }
        break;
      }
      cursor := next;
    }
  }

  // ---------------------------------------------------------------------
  // ZIPReader

  /** Whether the probe of `init?` fails: the first read of the first entry, without password, is an error. */
  predicate FirstReadFails(image: ArchiveImage)
  {
    var session := OpenFirstEntry(image);
    session != [] && session[0].Fault?
  }

  /** The encryption probe of `init?`: open the first entry without password and read one byte. */
  method Probe(image: ArchiveImage) returns (isEncrypted: bool)
    ensures isEncrypted <==> FirstReadFails(image)
  {
    var handle := new Handle(OpenFirstEntry(image));
    var buffer := new byte[1];
    var n := handle.ReadCurrentFile(buffer, 1);
    isEncrypted := n < 0;
  }

  class ZIPReader {
    const fileURL: Location
    const isEncrypted: bool
    /** The storage behind `lazy var files`. */
    var filesCache: Option<seq<File>>
    /** How many times the directory has been scanned. */
    ghost var scans: nat

    ghost predicate Valid()
      reads this
    {
      && (filesCache.None? ==> scans == 0)
      && (filesCache.Some? ==> scans == 1 && filesCache.value == Scan(fileURL))
    }

    /** The stored properties `init?` sets. */
    constructor (url: Location, encrypted: bool)
      ensures fileURL == url && isEncrypted == encrypted
      ensures filesCache == None && scans == 0 && Valid()
    {
      fileURL := url;
      isEncrypted := encrypted;
      filesCache := None;
      scans := 0;
    }

    /** `init?(contentsOf:)`: nil when unzOpen64 fails; otherwise the reader with encryption probed. */
    static method Open(url: Location) returns (reader: ZIPReader?)
      ensures reader == null <==> url.None?
      ensures reader != null ==>
                && fresh(reader) && reader.Valid() && reader.filesCache == None
                && reader.fileURL == url
                && (reader.isEncrypted <==> FirstReadFails(url.value))
    {
      if url.None? {
        return null;
      }
      var encrypted := Probe(url.value);
      reader := new ZIPReader(url, encrypted);
    }

    /** `lazy var files`: scans the directory on first access only. */
    method Files() returns (files: seq<File>)
      requires Valid()
      modifies this`filesCache, this`scans
      ensures Valid() && filesCache == Some(files)
      ensures files == Scan(fileURL)
      ensures scans == 1
      ensures old(filesCache).Some? ==> files == old(filesCache).value && scans == old(scans)
    {
      if filesCache.None? {
        var scanned := ReadFiles(fileURL);
        filesCache := Some(scanned);
        scans := scans + 1;
      }
      files := filesCache.value;
    }

    /** `data(offset:password:)` */
    method Data(offset: nat, password: Option<string>) returns (r: Result<seq<byte>, Error>)
      ensures r == ReadAll(fileURL, offset, password)
    {
      r := ReadEntry(fileURL, offset, password);
    }
  }

  /** An archive with no entries is reported as encrypted. */
  lemma EmptyArchiveIsEncrypted(image: ArchiveImage)
    requires image.directory == []
    ensures FirstReadFails(image)
  {
  }

  /** When the probe fails, reading the first entry without a password throws invalidPassword. */
  lemma EncryptedFirstEntryUnreadable(image: ArchiveImage)
    requires image.directory != [] && FirstReadFails(image)
    ensures ReadAll(Some(image), image.directory[0].offset, None) == Failure(InvalidPassword)
  {
  }

  /**
   * The probe reads one byte of one entry only: an archive can be reported
   * unencrypted and still fail to read that very entry in full.
   */
  lemma NotEncryptedIsNotReadable()
    ensures exists image: ArchiveImage ::
              && |image.directory| == 1
              && !FirstReadFails(image)
              && ReadAll(Some(image), image.directory[0].offset, None).Failure?
  {
    var rec := Record("a.txt", 2, 2, 0, 0);
    var pieces := [Bytes([1]), Fault(-3)];
    var image := ArchiveImage([rec], (o: nat, pw: Option<string>) => pieces);
    assert EndsInFault(pieces[1..]);
    assert !FirstReadFails(image) && ReadAll(Some(image), 0, None).Failure?;
  }

  /**
   * The scenario of the reader test: an archive holding the one file
   * "JS.png", whose session yields, without password, exactly
   * uncompressedSize bytes.
   */
  lemma SingleEntryArchive(image: ArchiveImage, data: seq<byte>)
    requires |image.directory| == 1
    requires image.directory[0].name == "JS.png"
    requires |data| == image.directory[0].uncompressedSize > 0
    requires image.session(image.directory[0].offset, None) == [Bytes(data)]
    ensures var files := Scan(Some(image));
      && !FirstReadFails(image)
      && |files| == 1
      && files[0].path == "JS.png" && files[0].fileExtension == "png" && !files[0].isHidden
      && ReadAll(Some(image), files[0].offset, None).Success?
      && |ReadAll(Some(image), files[0].offset, None).value| == files[0].uncompressedSize
  {
    SingleEntryFiles(image);
    SingleEntryRead(image, data);
  }

  lemma SingleEntryFiles(image: ArchiveImage)
    requires |image.directory| == 1
    requires image.directory[0].name == "JS.png"
    ensures var rec := image.directory[0];
      Scan(Some(image))
      == [File(Some(image), "JS.png", "png", false, rec.offset, rec.compressedSize, rec.uncompressedSize, rec.crc)]
  {
    var rec := image.directory[0];
    MakeFileJSPng(Some(image), rec);
    Singleton(image.directory);
    EntriesOfSingle(Some(image), rec);
  }

  lemma MakeFileJSPng(url: Location, rec: Record)
    requires rec.name == "JS.png"
    ensures !IsDirectoryRecord(rec)
    ensures MakeFile(url, rec)
            == File(url, "JS.png", "png", false, rec.offset, rec.compressedSize, rec.uncompressedSize, rec.crc)
  {
    JSPngName();
  }

  lemma SingleEntryRead(image: ArchiveImage, data: seq<byte>)
    requires |image.directory| == 1
    requires data != []
    requires image.session(image.directory[0].offset, None) == [Bytes(data)]
    ensures !FirstReadFails(image)
    ensures ReadAll(Some(image), image.directory[0].offset, None) == Success(data)
  {
    SinglePieceEntry(data);
  }

  lemma SinglePieceEntry(data: seq<byte>)
    requires data != []
    ensures EntryBytes([Bytes(data)]) == Success(data)
  {
    var p := [Bytes(data)];
    assert p[1..] == [];
    assert !EndsInFault(p);
    var none: seq<Piece> := [];
    assert Decoded(none) == [];
    assert Decoded(p) == data + Decoded(none) == data;
    assert EntryBytes(p) == Success(Decoded(p));
  }

  lemma JSPngName()
    ensures CString("JS.png") == "JS.png"
    ensures !EndsWithSlash("JS.png") && !IsHiddenName("JS.png")
    ensures PathExtension("JS.png") == "png"
  {
    var s := "JS.png";
    assert '\0' !in s;
    assert s[..|s|] == s;
    assert '/' !in s;
    assert LastPathComponent(s) == s;
    assert '.' in s && s[2] == '.' && '.' !in s[..2];
    assert IndexOf(s, '.') == 2;
    assert s[3..] == "png";
  }
}
