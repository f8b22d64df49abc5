# gb-forever ingestion and manifest core, modelled in Dafny

gb-forever ingests the Giant Bomb video archive from the Internet Archive into a
Postgres catalog and keeps an ffmpeg concat manifest of the videos to stream. This
project models the sequential logic inside that program:

- **Archive** (`src/ia.rs`): the cursor-paginated walk of `search_all`, the query pairs
  of one `search` request, and `download_video`'s choice of the first `MPEG4` file and
  the URL it composes for it. One HTTP round trip of `search` is a parameter
  (`Searcher`, a function from request to response or error); `get_item_details` is
  given as its result.
- **Db** (`src/db.rs`): `insert_items`, the batch insert-if-absent into `gb_videos`
  inside one transaction, with the table as a map from `identifier` to row, and the
  `u64 as i64` conversion of `item_size`. Whether `begin`, an insert, or `commit`
  fails is a parameter (`Faults`).
- **Stream** (`src/stream.rs`): `ConcatFile`, its `entries` list, `file_content` and
  `append_video`.
- **Program** (`src/main.rs`): `write_concat_text_file`.
- Shared pieces: **Manifest** (the `file '<path>'` text in both renderings, and parsers
  that read it back), **Paths** (`file_stem`, `extension`, `with_file_name` and the
  `<stem>_temp.<ext>` sibling), **Files** (the file-system calls as a trace of
  `Create`/`Write`/`Flush`/`Rename` operations, the position of the only failing call of a run
  as a parameter, and their effect on a map from path to contents), **Decimal**
  (`to_string` of an integer and its parse), **Common** (errors, results, integer
  widths).

Every method is proved against a specification function, and the properties the
program relies on are lemmas about those functions: the walk's request chain and item
order, the store after a batch (insert-if-absent, first wins, idempotent,
all-or-nothing), the temp file's name, the manifest text (line per entry, verbatim, the
two renderings and their relation), and what each manifest writer leaves on disk for
every position of a failing file call.

The file calls follow tokio's `File`: `write_all` hands its bytes to a background write
and returns `Ok` at once; the error of that write is returned by the next write or
flush on the same file. Neither manifest writer flushes before dropping the file, so the
failure of its last write is returned by nothing and the rename goes ahead (see
"## Findings"). Each writer is therefore modelled twice: as written, and with a flush
before the rename, which makes it all-or-nothing.

Where the documentation of the system and the code disagree, the model follows the
code: `download_video` composes the URL but downloads nothing and ignores its folder
argument, so the model returns that URL; the `count` of a request is a `usize`,
taken as 64 bits wide.

## Model

| member | source | states |
|---|---|---|
| `Archive.SearchAll` | src/ia.rs:99-118 | the walk `search_all` performs is the one `WalkFrom` defines from no cursor: the same requests in the same order, the same items, the same final error |
| `Archive.YieldPage` | src/ia.rs:108-110 | yielding a page appends exactly its items, in order, after those already yielded |
| `Archive.WalkRequests` | src/ia.rs:104-116 | at least one request; the first has no cursor (from `None`); every request is for the same query with count 10000; request k+1 carries exactly the cursor of response k, and every response but the last was Ok with a cursor; the last is an error or has no cursor, and that error ends the walk |
| `Archive.WalkItems` | src/ia.rs:105-110 | the items yielded are the items of every fetched page, each once, pages in request order, items in page order; a failing page contributes none |
| `Archive.SearchPairsRoundTrip` | src/ia.rs:81-87 | the query is `q`, `fields=*`, `count` in decimal, then `cursor` only when present: parsing it gives back query, count and cursor |
| `Archive.ParsedSearchPairs` | src/ia.rs:81-87 | any query the parser accepts is exactly the one `search` builds for the parsed request |
| `Decimal.ParseToDecimal` | src/ia.rs:84 | `count.to_string()` reads back as the count |
| `Decimal.ToDecimalWellFormed` | src/ia.rs:84 | `to_string` of a count is a non-empty string of digits without a leading zero |
| `Decimal.ToDecimalInjective` | src/ia.rs:84 | distinct counts give distinct `count` values |
| `Archive.VideoFile` | src/ia.rs:135-139 | the chosen file is the first whose format is exactly "MPEG4"; the choice fails with "no video file found" exactly when no file has that format |
| `Archive.DownloadVideo` | src/ia.rs:133-144 | `download_video` fails with the lookup's error when the details failed, and otherwise exactly when no file is MPEG4, with "no video file found"; on success the URL is `https://`, then the server, then the directory, then '/' and the name of the first MPEG4 file, and nothing else |
| `Db.ToI64` | src/db.rs:61 | `as i64` keeps the 64 bits: the result is congruent to the value modulo 2^64, reading it back `as u64` gives the value, and it is negative exactly for values of 2^63 and above |
| `Db.InsertAllIsExpected` | src/db.rs:42-69 | the batch leaves every existing row as it was and gives each new identifier the row of the first item that carries it, and nothing else |
| `Db.InsertAllKeepsExisting` | src/db.rs:56 | an existing identifier keeps its row; the store only grows, by exactly the batch's identifiers |
| `Db.InsertAllFirstWins` | src/db.rs:42-69 | of two items with the same new identifier, the earlier one's row is stored |
| `Db.InsertAllIdempotent` | src/db.rs:56 | inserting a batch twice leaves the same store as inserting it once |
| `Db.Database.InsertItems` | src/db.rs:32-76 | an empty batch returns Ok and changes nothing, whatever the database would answer; otherwise the call fails with the message of the first failing step (begin, an insert, commit) and the store is unchanged, or succeeds and the store is the batch inserted if absent |
| `Paths.TempPath` | src/stream.rs:22-26 | the temp path exists exactly when the path has a file name with a dot after its first character; otherwise `file_stem` or `extension` is `None` and its `unwrap` panics |
| `Paths.TempPathIsSibling` | src/stream.rs:22-26 | the temp file is in the same directory, named stem + "_temp." + extension, so its stem is stem + "_temp", its extension is unchanged, and it differs from the path |
| `Manifest.LineRoundTrip` | src/stream.rs:15 | an entry is embedded verbatim: the line parses back to exactly the entry, and has no newline if the entry has none |
| `Manifest.FileContent` | src/stream.rs:14-17 | `file_content` is empty exactly when there are no entries |
| `Manifest.FileContentRoundTrip` | src/stream.rs:14-17 | `file_content` is one `file '<entry>'` line per entry, in entry order, joined by "\n" with no final newline: it splits and parses back into the entries |
| `Manifest.ConcatTextIsTerminatedFileContent` | src/main.rs:19-23 | the text `write_concat_text_file` writes is empty for no sources, and otherwise the joined text with a final "\n": every line, the last included, ends with "\n" |
| `Manifest.ConcatTextRoundTrip` | src/main.rs:20-23 | that text reads back into exactly the sources, in order |
| `Stream.ConcatFile.AppendVideo` | src/stream.rs:19-36 | the new path becomes the last entry and earlier entries are unchanged, before any file call, so also when one fails; the calls that take effect and the result are those of create temp, write the manifest of the grown list, rename over the path, with a failing create or rename returning its error and a failing write returning nothing |
| `Stream.AppendVideoEffect` | src/stream.rs:20-33 | for a run in which at most one call fails: without a fault the manifest file holds `file_content` of the grown list (which reads back as the entries when none holds a newline), the temp file is gone and no other file changes; when the write is the failing call, the rename after it succeeds, the call returns `Ok` and the manifest file is empty; any other failure returns its error and leaves the manifest file as it was |
| `Stream.AppendVideoLosesWriteError` | src/stream.rs:27-33 | with the write failing, `append_video` returns `Ok` and the manifest file is empty, although the grown entry list is not |
| `Stream.ConcatFile.AppendVideoFlushed` | src/stream.rs:19-36 | the same calls with a flush before the rename; every failure, the write's included, returns its error and stops the calls after it |
| `Stream.AppendVideoFlushedEffect` | src/stream.rs:20-33 | with the flush, `Ok` means the manifest file holds `file_content` of the grown list and, when no entry holds a newline, reads back as it; an error means the manifest file is as it was |
| `Program.WriteConcatTextFile` | src/main.rs:13-28 | the calls that take effect and the result are those of create the temp sibling, one write of `file '<source>'` + "\n" per source in order, rename over the path; a failing write's error is returned by the next write, and the last write's by nothing |
| `Program.WriteConcatTextFileEffect` | src/main.rs:14-25 | for a run in which at most one call fails: without a fault the file holds the concatenation of the lines (which reads back as the sources when none holds a newline), and the temp file is gone; when the last write is the failing call, the rename after it succeeds, the call returns `Ok` and the file holds every line but the last; any other failure returns its error and leaves the file as it was |
| `Program.WriteConcatTextFileLosesWriteError` | src/main.rs:19-25 | with the last write failing, `write_concat_text_file` returns `Ok` while the file lacks the last source's line |
| `Program.WriteConcatTextFileFlushed` | src/main.rs:13-28 | the same calls with a flush before the rename; every failure returns its error and stops the calls after it |
| `Program.WriteConcatTextFileFlushedEffect` | src/main.rs:14-25 | with the flush, `Ok` means the file holds every line and, when no source holds a newline, reads back as the sources; an error means the file is as it was |
| `Files.ReplacePlanFailsAt` | src/main.rs:19-25 | for the call at each position failing: the create stops everything; a write whose error the next write or the flush returns stops there; the last write without a flush is skipped and the rename still happens, with `Ok`; a failing flush or rename stops there; only a reported failure is returned |
| `Files.ReplaceEffect` | src/stream.rs:27-33 | write-to-temp-then-rename leaves the target holding the whole text; or, when the last write's error goes unreported, the text without the last chunk; or, after a reported failure, every file but the temp file as it was |
| `Files.FlushedReplaceIsAllOrNothing` | src/stream.rs:27-33 | with a flush before the rename, `Ok` means the target holds the whole text and the temp file is gone, and an error means no file but the temp file changed |
| `Files.UnflushedWriteErrorIsLost` | src/stream.rs:29-33 | without a flush, a failing last write still yields `Ok`, and the target then differs from the whole text |

## Findings

| source | as written | input that shows it | evidently intended | confidence | as-written member | corrected member |
|---|---|---|---|---|---|---|
| src/stream.rs:27-33 | the temp file is written with `write_all` and dropped without a flush before the rename; tokio reports a background write's error only on the next write or flush, so a failed write is never returned | `append_video` whose single write fails (a full disk, say): the call returns `Ok` and renames an empty file over the manifest | an error from the write is returned and the manifest is not replaced | medium, not executed | `Stream.AppendVideoLosesWriteError` | `Stream.AppendVideoFlushedEffect` |
| src/main.rs:19-25 | the same pattern in a loop of `write_all`: the error of each write but the last is returned by the next one, the last one's by nothing | `write_concat_text_file` whose last write fails: the call returns `Ok` and the file lacks the last source's line | an error from any write is returned and the file is not replaced | medium, not executed | `Program.WriteConcatTextFileLosesWriteError` | `Program.WriteConcatTextFileFlushedEffect` |

## Left out

- `Archive.SearchAll`: requires that the chain of cursors ends within a finite number of requests (the ghost `fuel`); the program itself would keep requesting for ever on an endless chain, which the model does not cover.
- `Archive.SearchAll`: the stream is lazy in the program (a request is made only when the consumer pulls the next item); the model computes the whole walk at once, so it does not capture a consumer that stops early.
- The HTTP request and JSON decoding of `search`, and all of `get_item_details`: they are network I/O, abstracted as the `Searcher` parameter and as a given `ExtendedMetadata` result. Percent-encoding of the query by the URL library is not modelled; the model stops at the list of query pairs.
- `download_video` never downloads and ignores its folder; the model returns the URL it composes and logs.
- `Database::connect`, the migrations and `random_video`: connection handling and SQL `random()` are the database engine's.
- The `id` column of `gb_videos` (assigned by the database's sequence) is not part of a row in the model; why a begin, an insert or a commit fails is the database's, and is a parameter.
- The file calls are a trace of operations applied to a map from path to contents; the atomicity of `rename` is the operating system's and is assumed by `Files.Apply`.
- At most one call fails per run (`Files.IoFault`): after an unreported write failure the rename is taken to succeed, so a run in which both the last write and the rename fail (and the rename's error is returned) is not modelled.
- A failed write is modelled as writing nothing; a partial write, and tokio's splitting of a large `write_all` into background writes of at most its buffer size, are not modelled.
- When the background write ends relative to the rename is not modelled: the trace applies each call completely before the next.
- Path handling covers paths whose components are separated by '/'; the normalisation of "." components, repeated separators and trailing separators, and platform prefixes, are not modelled (a path ending in '/', "." or ".." has no file name in the model).
- The `unwrap` calls on `file_stem` and `extension` panic; `Stream.ConcatFile.AppendVideo` and `Program.WriteConcatTextFile` require that the path has both, as the program demands of its callers.
- `ConcatFile` has no constructor in the program; the model's constructor only sets its two fields.
- The manifest parsers read back entries that contain no newline; the text format cannot represent a newline inside an entry. The parsers are the model's own, not ffmpeg's, which would need quotes inside an entry escaped.
- Logging and timing (`info!`, `Instant`), the `main` functions and `get_item_details` of `src/main.rs`, `src/downloader.rs` (concurrent download fan-out and the background worker over a channel), `src/ffmpeg.rs` (a subprocess), `src/config.rs`, `src/lib.rs` and `src/bin/init-database.rs`: I/O, concurrency and bootstrap. The playlist and its status transitions, and the database methods `src/downloader.rs` calls, are not part of this model: no source for them is shown.
