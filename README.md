# ZIPKit reader, modelled in Dafny

ZIPKit is a Swift wrapper around the MiniZip C library. `ZIPReader` opens an
archive by URL. On opening, it probes whether the first entry is encrypted by
reading one byte of it without a password. It lists the entries as `File`
descriptors on first access to its lazy `files`. It reads one entry, by its
directory offset, into memory (`data(offset:password:)`) or hands it out
in 64 KiB chunks to a closure (`Stream.streaming`). `File` carries one
entry's path, extension, hidden flag, offset, sizes and CRC. It reads
itself through the same stream, and it is `Comparable` by a path order that
puts top-level names before nested ones and ignores letter case.

The project has five files:

- `wrappers.dfy`: `Option` and `Result`.
- `minizip.dfy`: the part of MiniZip that ZIPKit relies on, as an oracle.
  - An archive is an `ArchiveImage`: its central directory (a list of
    `Record`s: name, sizes, CRC and the offset `unzGetOffset64` reports),
    and the output of an entry session opened at an offset with or without
    a password.
  - That output is a list of `Piece`s: decoded bytes, or a negative MiniZip
    error code.
  - `Handle.ReadCurrentFile` hands out at most the requested number of bytes
    per call. It returns 0 at the end of the entry and a negative code on
    failure, and the failure is sticky.
  - With no current entry (an empty directory), MiniZip reports a
    zero-filled record (empty name, offset 0), and a read fails with
    `UNZ_PARAMERROR`.
  - A URL that `unzOpen64` cannot open is `None`.
- `paths.dfy`: `String.lastPathComponent` and `String.pathExtension`, the
  `path.last == "/"` and `lastPathComponent.first == "."` tests,
  `String(cString:)`, and `split(separator: "/")` and `lowercased()` as the
  order uses them.
- `path_order.dfy`: `File.<` as written (the indexed loop over components),
  proved equal to a reference order.
  - In the reference order, paths with at most one component come before
    all nested paths.
  - Within each of those two groups, the order is lexicographic on the
    lowercased components, and a proper prefix comes first.
  - From that equality, `<` is a strict weak order: irreflexive, asymmetric
    and transitive.
  - Two paths are unordered exactly when their lowercased components agree.
- `zipkit.dfy`:
  - `init?`: `ZIPReader.Open` with the `Probe`.
  - `lazy var files`: `ZIPReader.Files`, which stores the result in
    `filesCache` and keeps a ghost scan count.
  - `readFiles`: `ReadFiles`, a loop over the directory cursor.
  - `Stream.streaming`: a loop over a `Handle` and a 64 KiB buffer.
  - `data(offset:password:)`, `File.data` and `File.streaming`.
  - The five comparison operators of `File`.

Each imperative operation is proved against a specification function.

- `Stream.Streaming` returns what `Streamed`/`Run` describe: the outcome
  (returned, or threw `invalidPassword`) and the chunks handed to the
  closure, in order.
- `ReadFiles` returns `Scan`.
- `Data` returns `ReadAll`.

Lemmas then say what those functions mean:

- the chunks are a prefix of the decoded entry, at most 64 KiB each;
- reading to the end gives the whole entry, or the error exactly when the
  session fails;
- the file list follows directory order, skips directory records, and every
  `File` in it is well formed.

Two behaviours of the code are easy to miss.

- `<` does not interleave top-level and nested paths. It puts every path
  with one component before every path with more (`PathOrder.FlatBeforeNested`).
- An archive with no entries is not empty to `readFiles`. The loop body runs
  once before `unzGoToNextFile` is checked, so it yields one `File` with an
  empty path and offset 0 (`ZIPKit.ScanEmptyDirectory`). For the same
  reason, `isEncrypted` is true for such an archive (`ZIPKit.EmptyArchiveIsEncrypted`).

The closure passed to `streaming` is modelled as its answers: a function
from the chunks it has been handed so far to the `Bool` it returns. What
it does with the bytes is the caller's business; `data()` appends them, and
its closure always answers true.

## Model

| member | source | states |
|---|---|---|
| MiniZip.GoToFirstFile | Sources/ZIPReader.swift:42 | unzGoToFirstFile: the cursor is on record 0, and a record is current exactly when the directory is non-empty |
| MiniZip.GoToNextFile | Sources/ZIPReader.swift:132 | unzGoToNextFile: UNZ_END_OF_LIST_OF_FILE exactly when nothing is current or the current record is the last; otherwise the next record becomes current |
| MiniZip.CurrentRecord | Sources/ZIPReader.swift:105-125 | unzGetCurrentFileInfo64 and unzGetOffset64: the current record, or the zero-filled record when nothing is current |
| MiniZip.OpenFirstEntry | Sources/ZIPReader.swift:42-43 | as written: the session unzGoToFirstFile and unzOpenCurrentFile open (record 0 without a password, or, with no entries, a session whose first read fails with UNZ_PARAMERROR); characterised by ZIPKit.EmptyArchiveIsEncrypted and ZIPKit.EncryptedFirstEntryUnreadable |
| MiniZip.Handle.constructor | Sources/ZIPReader.swift:160-171 | a handle opened at an offset (unzOpen64, unzSetOffset64, unzOpenCurrentFile or unzOpenCurrentFilePassword) starts with the whole output of that session |
| MiniZip.Handle.ReadCurrentFile | Sources/ZIPReader.swift:182 | a read of at most len bytes: a negative count leaves the session as it was; otherwise exactly count bytes land at the front of the buffer, and the session advances by them |
| MiniZip.Read | Sources/ZIPReader.swift:182-185 | the read oracle: a failure gives no bytes and is first in the session; a count never exceeds the request; a positive count shrinks what remains; an ended session reads 0 |
| ZIPKit.ReadDecoded | Sources/ZIPReader.swift:182-188 | one read relates to the decoded entry: negative means the session fails with nothing decoded; 0 means it ends cleanly; positive means the chunk is the front of the decoded bytes and the failure status carries over |
| ZIPKit.Stream.constructor | Sources/ZIPReader.swift:153-157 | the stream keeps url, offset and password |
| ZIPKit.Stream.Streaming | Sources/ZIPReader.swift:159-189 | the repeat-while loop returns exactly the outcome and the chunk sequence of `Run` on the session opened at offset with the password; nothing happens when the archive cannot be opened |
| ZIPKit.Run | Sources/ZIPReader.swift:179-188 | as written: the repeat-while of `streaming` on a session's output; characterised by ZIPKit.RunShape, ZIPKit.RunBytes, ZIPKit.RunToEnd and ZIPKit.RunFollowsPieces |
| ZIPKit.RunShape | Sources/ZIPReader.swift:179-188 | earlier chunks stay delivered; every chunk holds at most 65536 bytes; the loop went on only after a non-empty chunk the closure accepted; it returns after an empty chunk or a refusal; it throws before the closure sees the failed read |
| ZIPKit.RunKeepsPrior | Sources/ZIPReader.swift:181-188 | a run only appends to the chunks already delivered |
| ZIPKit.RunBytes | Sources/ZIPReader.swift:181-188 | the bytes handed over are a prefix of the decoded entry; they are all of it when the run throws or ends on an empty chunk |
| ZIPKit.RunToEnd | Sources/ZIPReader.swift:52-60 | with a closure that always continues, the run throws exactly when the session fails before its end, and the chunks concatenate to the whole decoded entry |
| ZIPKit.CancelAfterFirstChunk | Sources/ZIPReader.swift:186-188 | a closure that refuses its first chunk receives at most one chunk, a prefix of the entry of at most 64 KiB, and a strict prefix when the entry is longer |
| ZIPKit.RunFollowsPieces | Sources/ZIPReader.swift:173-188 | when the session's pieces fit the buffer, the chunks are those pieces in order, followed by one empty chunk when the run reaches the end |
| ZIPKit.ConcatAppend | Sources/ZIPReader.swift:55-58 | appending chunk by chunk gives the concatenation of the chunks |
| ZIPKit.ReadEntry | Sources/ZIPReader.swift:52-60 | reading an entry to its end gives the decoded bytes, or invalidPassword exactly when the session fails first; an unopenable archive gives empty data |
| ZIPKit.ZIPReader.Data | Sources/ZIPReader.swift:52-60 | `data(offset:password:)` returns `ReadAll` of the reader's archive at that offset |
| ZIPKit.File.Data | Sources/ZIPReader.swift:206-214 | a File reads its own entry, at its offset, as `ReadAll` |
| ZIPKit.File.Streaming | Sources/ZIPReader.swift:216-219 | a File streams its own entry to the handler, as `Streamed` at its offset |
| ZIPKit.ReadFiles | Sources/ZIPReader.swift:94-134 | the repeat-while walk of the directory returns `Scan`: [] when the archive cannot be opened, otherwise the Files of the visited records in directory order |
| ZIPKit.MakeFile | Sources/ZIPReader.swift:117-129 | as written: the File built from one record; characterised by ZIPKit.MakeFileWellFormed and ZIPKit.EntriesWellFormed |
| ZIPKit.EntriesOfMembers | Sources/ZIPReader.swift:102-132 | a File is listed if and only if some visited record that does not name a directory builds it |
| ZIPKit.EntriesOfSound | Sources/ZIPReader.swift:118-131 | every listed File comes from a visited record whose name does not end in '/' |
| ZIPKit.EntriesOfComplete | Sources/ZIPReader.swift:118-131 | every visited record whose name does not end in '/' has its File listed |
| ZIPKit.EntriesOfAppend | Sources/ZIPReader.swift:102-132 | the file list follows directory order: scanning two runs of records gives their Files one after the other |
| ZIPKit.EntriesWellFormed | Sources/ZIPReader.swift:117-128 | every listed File has a path not ending in '/', its extension is the path's `pathExtension`, it is hidden exactly when its last component starts with '.', and its url is the archive's |
| ZIPKit.MakeFileWellFormed | Sources/ZIPReader.swift:118-128 | the File built from a non-directory record is well formed |
| ZIPKit.ScanEmptyDirectory | Sources/ZIPReader.swift:102-132 | an archive with no entries still lists one File: empty path and extension, not hidden, offset 0, sizes and CRC 0 |
| ZIPKit.Probe | Sources/ZIPReader.swift:42-49 | the probe reads one byte of the first entry without a password; isEncrypted holds exactly when that read fails |
| ZIPKit.ZIPReader.constructor | Sources/ZIPReader.swift:29-31 | the stored properties are set and the files cache is empty |
| ZIPKit.ZIPReader.Open | Sources/ZIPReader.swift:33-50 | nil exactly when the archive cannot be opened; otherwise a fresh reader for that URL with an empty files cache, encrypted exactly when the probe's read fails |
| ZIPKit.ZIPReader.Files | Sources/ZIPReader.swift:31 | the lazy `files` is `Scan` of the reader's archive; the directory is scanned once, on first access, and later accesses return the stored list |
| ZIPKit.EmptyArchiveIsEncrypted | Sources/ZIPReader.swift:42-49 | an archive with no entries is reported encrypted |
| ZIPKit.EncryptedFirstEntryUnreadable | Sources/ZIPReader.swift:42-60 | when the probe fails, reading the first entry without a password throws invalidPassword |
| ZIPKit.NotEncryptedIsNotReadable | Sources/ZIPReader.swift:42-60 | some archive passes the one-byte probe and still fails when its first entry is read in full |
| ZIPKit.SingleEntryArchive | Tests/ReaderTests.swift:31-49 | for an archive whose only entry is "JS.png" and decodes to uncompressedSize bytes: not encrypted, one unhidden File "JS.png" with extension "png", and its data has uncompressedSize bytes |
| ZIPKit.SingleEntryFiles | Sources/ZIPReader.swift:102-132 | such a directory lists exactly the one File built from its record |
| ZIPKit.SingleEntryRead | Sources/ZIPReader.swift:42-60 | an entry whose session yields one run of bytes passes the probe, and reads to exactly those bytes |
| ZIPKit.MakeFileJSPng | Sources/ZIPReader.swift:117-129 | the record "JS.png" is not a directory and gives path "JS.png", extension "png", not hidden |
| ZIPKit.JSPngName | Sources/ZIPReader.swift:275-291 | "JS.png" has last component "JS.png", extension "png", is not hidden, and does not end in '/' |
| Paths.AfterLastSlash | Sources/ZIPReader.swift:279-282 | the index just after the last '/', with no '/' after it |
| Paths.LastPathComponent | Sources/ZIPReader.swift:275-283 | a path ending in '/' is returned whole; otherwise the result is the longest '/'-free suffix, preceded by '/' unless it is the entire path |
| Paths.IndexOf | Sources/ZIPReader.swift:287 | the first position of a character, or the length when it does not occur |
| Paths.PathExtension | Sources/ZIPReader.swift:285-291 | "" when the last component has no '.'; otherwise the text after its FIRST '.', so that the component is a '.'-free name, '.', and the result |
| Paths.CString | Sources/ZIPReader.swift:117 | the characters before the first NUL of the name buffer |
| Paths.Lowercased | Sources/ZIPReader.swift:232-238 | the path lowercased position by position |
| Paths.Split | Sources/ZIPReader.swift:222-223 | the components of a path: non-empty and free of '/' |
| Paths.SplitEmpty | Sources/ZIPReader.swift:222-223 | the empty path has no components |
| Paths.SplitComponent | Sources/ZIPReader.swift:222-223 | a non-empty string without '/' is a single component |
| Paths.SplitSlash | Sources/ZIPReader.swift:222-223 | the components of s + "/" + t are those of s followed by those of t, for all s and t, so leading, doubled and trailing '/' give no empty components |
| Paths.SplitDoubledAndTrailingSlash | Sources/ZIPReader.swift:222-223 | "a//b/" splits into "a" and "b" |
| Paths.SplitJoin | Sources/ZIPReader.swift:222-223 | splitting the '/'-joined list of non-empty slash-free components gives that list back |
| Paths.SplitLowercased | Sources/ZIPReader.swift:222-238 | lowercasing commutes with splitting at '/' |
| PathOrder.LessFrom | Sources/ZIPReader.swift:224-251 | as written: the loop of `<` from an index on, with its early returns and the tests after it; characterised by PathOrder.LessFromIsLex |
| PathOrder.PathLess | Sources/ZIPReader.swift:221-252 | as written: `lhs < rhs` on the split paths; characterised by PathOrder.ComponentsLessIsKeyLess and the PathOrder.PathLess lemmas |
| PathOrder.LessFromIsLex | Sources/ZIPReader.swift:224-251 | within one depth group, the remaining loop of `<` from an index on is lexicographic order of the lowercased components |
| PathOrder.ComponentsLessIsKeyLess | Sources/ZIPReader.swift:221-252 | `<` as written equals the reference order: one-component paths first, then lexicographic on lowercased components |
| PathOrder.LexLessTransitive | Sources/ZIPReader.swift:224-251 | the reference lexicographic order is transitive |
| PathOrder.LexLessTotal | Sources/ZIPReader.swift:224-251 | two component lists are equal or ordered one way |
| PathOrder.PathLessIrreflexive | Sources/ZIPReader.swift:221-252 | no path is less than itself |
| PathOrder.PathLessAsymmetric | Sources/ZIPReader.swift:221-252 | `<` never holds both ways |
| PathOrder.PathLessTransitive | Sources/ZIPReader.swift:221-252 | `<` is transitive |
| PathOrder.PathLessIncomparable | Sources/ZIPReader.swift:221-252 | two paths are unordered both ways exactly when their lowercased components are equal |
| PathOrder.PathTrichotomy | Sources/ZIPReader.swift:221-252 | exactly one of: a before b, the same lowercased components, b before a |
| PathOrder.CaseVariantsUnordered | Sources/ZIPReader.swift:232-243 | paths differing only in letter case are unordered |
| PathOrder.FlatBeforeNested | Sources/ZIPReader.swift:232-243 | a one-component path is before every nested path, whatever the names |
| PathOrder.PrefixIsLess | Sources/ZIPReader.swift:226-228 | a path is before every longer path it is a component prefix of, ignoring case |
| PathOrder.NestedFirstDifference | Sources/ZIPReader.swift:238-243 | between nested paths the first differing lowercased component decides |
| ZIPKit.File.Less | Sources/ZIPReader.swift:221-252 | as written: `<` is PathOrder.PathLess on the two paths |
| ZIPKit.File.Greater | Sources/ZIPReader.swift:254-256 | as written: `>` is the negation of `<`; characterised by ZIPKit.GreaterAsWritten and ZIPKit.GreaterIsReflexive |
| ZIPKit.File.LessOrEqual | Sources/ZIPReader.swift:258-260 | as written: `==` or `<`; characterised by ZIPKit.LessOrEqualAntisymmetric |
| ZIPKit.File.GreaterOrEqual | Sources/ZIPReader.swift:262-264 | as written: `==` or `>`; characterised by ZIPKit.GreaterOrEqualIsNotLess |
| ZIPKit.File.Equal | Sources/ZIPReader.swift:266-268 | as written: equal paths, letter case included; characterised by ZIPKit.EqualIsCaseSensitive |
| ZIPKit.GreaterAsWritten | Sources/ZIPReader.swift:254-256 | `>` as written holds exactly when the other File is strictly before, or has the same components ignoring case |
| ZIPKit.GreaterIsReflexive | Sources/ZIPReader.swift:254-256 | `>` as written holds between a File and itself, together with `==` |
| ZIPKit.GreaterOrEqualIsNotLess | Sources/ZIPReader.swift:262-264 | `>=` as written holds exactly when `<` does not |
| ZIPKit.LessOrEqualAntisymmetric | Sources/ZIPReader.swift:258-260 | `<=` both ways implies `==` |
| ZIPKit.EqualIsCaseSensitive | Sources/ZIPReader.swift:266-268 | "A.txt" and "a.txt" are not `==`, and neither is `<` the other |
| ZIPKit.GreaterIntendedIsStrict | Sources/ZIPReader.swift:254-256 | the corrected `>` is irreflexive, asymmetric and transitive, and excludes `<` and `==` |
| ZIPKit.IntendedTrichotomy | Sources/ZIPReader.swift:221-268 | with the corrected `>` and `==`, exactly one of `<`, `==`, `>` relates any two Files |

## Left out

- MiniZip itself is an oracle: the ZIP format, DEFLATE, the traditional
  cipher and password checking. The model fixes only what ZIPKit observes.
  That is the central directory's records, the offsets `unzGetOffset64`
  reports, and the bytes or error code each read returns.
- The return codes of `unzGoToFirstFile`, `unzOpenCurrentFile`,
  `unzOpenCurrentFilePassword`, `unzSetOffset64` and `unzGetCurrentFileInfo64`
  are ignored by the source. A failed open or a bad offset is therefore
  seen only through the reads that follow, which is how the oracle
  represents it.
- `unarchive(to:password:overwrite:)` is not modelled. It is file-system I/O
  (`FileManager`, `OutputStream`), and every byte it writes comes from
  `File.streaming`, which is modelled.
- CRC and size checks are left out: ZIPKit performs none. `crc`,
  `compressedSize` and `uncompressedSize` are copied from the record.
- ZIPKit.Probe: the source reads into an empty Swift array (no capacity).
  The model uses a one-byte buffer. Only the sign of the count matters.
- Paths.Split, Paths.AfterLastSlash, Paths.LastPathComponent, Paths.IsHiddenName:
  Swift's `Character` is a grapheme cluster, while the model's characters are
  Unicode scalars. A '/' or '.' followed by a combining mark is a separator or
  a dot to the model but not to Swift: "x/\u{301}y" is one component to Swift,
  and ".\u{301}a" is not a hidden name there.
- Paths.Lowercased: ASCII case mapping only. Swift's full Unicode
  `lowercased()` is not modelled.
- PathOrder.StrLess: order on code points. Swift compares strings by
  Unicode canonical equivalence.
- Paths.CString: UTF-8 decoding in `String(cString:)` is not modelled. A
  name is a sequence of characters up to the first NUL.
- Integer widths are left out. `UInt64`, `UInt` and `UInt32` values are
  `nat`, because no source path relies on wrap-around, and the 64 KiB
  request fits `UInt32`.
- Memory management (`allocate`, `deallocate`, `defer { unzClose }`) and the
  name buffer's size computation are left out.
- Thread safety of `lazy var files` is left out.
- MiniZip.GoToNextFile returns only UNZ_OK or UNZ_END_OF_LIST_OF_FILE. In
  the source, the loop goes on for any other status, for example a read
  error on the next record. It then visits a zero-filled record and lists
  a File with an empty path. The model does not cover that case.
- ZIPKit.ZIPReader.Open fixes the archive's Location once. `readFiles` and
  `streaming` re-open the file by path on every call, so an archive
  removed or changed after `init?` is not modelled. In particular,
  `Files()` on an opened reader never returns the [] of a failed re-open.
- ZIPKit.ZIPReader.Files models only the getter of `lazy var files`.
  Assigning the property from outside is not modelled, and `Valid()` rules
  it out.
- The closure's side effects, other than the answers it gives, are left out.

## Findings

| source | as written | input that shows it | evidently intended | confidence | as-written member | corrected member |
|---|---|---|---|---|---|---|
| Sources/ZIPReader.swift:254-256 | `>` is `!(lhs < rhs)`, which also holds for equal Files | any File f: `f > f` and `f == f` both hold, and `f >= f`, `f <= f` coincide with `==` | `lhs > rhs` is `rhs < lhs`, as Comparable requires: irreflexive, and exclusive with `<` and `==` | high; not executed | ZIPKit.GreaterIsReflexive | ZIPKit.GreaterIntendedIsStrict |
| Sources/ZIPReader.swift:266-268 | `==` compares paths exactly, while `<` ignores letter case | paths "A.txt" and "a.txt": not `==`, and neither `<` the other | `==` is the equivalence `<` induces, so that exactly one of `<`, `==`, `>` holds | medium; not executed | ZIPKit.EqualIsCaseSensitive | ZIPKit.IntendedTrichotomy |
