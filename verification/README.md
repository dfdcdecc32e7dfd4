# Resumable chunked upload: a Dafny model

This project models the three request handlers of a small resumable-upload
server. A client splits a file into numbered chunks. It uploads each chunk
under the file's content hash. It can ask which chunks the server already
holds. Finally it asks the server to merge the chunks into `uploads/{fileName}`.

The server's state is the part of its working directory the handlers touch.
It is modelled as an immutable value `FS`:

- a map from structured paths to byte sequences: `Output(fileName)` is
  `uploads/{fileName}`, `Temp(name)` is a multipart temp file in
  `uploads/chunks`, and `Entry(hash, name)` is `uploads/chunks/{hash}/{name}`;
- a set of existing directories: `ChunksDir` is `uploads/chunks` and
  `HashDir(hash)` is `uploads/chunks/{hash}`.

Each handler is a pure function `FS × Request → FS × Response`:

- `UploadChunk.Handle` stores a chunk. It creates `uploads/chunks`, lets the
  multipart parser write the temp file, checks the four fields for
  JavaScript truthiness, and creates the hash directory. It then renames the
  temp file to `{fileName}.part.{chunkIndex}`, replacing any earlier entry.
- `MergeChunks.Handle` merges. It fails without the hash directory. It
  truncates the output, then walks indices `0 .. totalChunks-1` in
  `MergeChunks.MergeLoop`: it either stops at the first missing chunk, or
  appends the chunk and deletes it. Last it removes the directory.
  `rmdirSync` throws when other entries remain; that outcome is the
  response `NotEmpty`.
- `UploadedChunks.Handle` answers the resume query. It returns `[]` for an
  unknown hash. Otherwise it returns `parseInt(name.split('.')[1])` for each
  directory entry.

`JsText` models the JavaScript primitives the handlers use: string
truthiness, `split`, the decimal text of a number in a template literal, and
`parseInt` with no radix, as in section 19.2.5 of ECMA-262. NaN is `None`.
`Lifecycle` composes the handlers: any upload order, then a merge or a query.

Two behaviours of the code matter to a client. The resume query parses the
token after the first dot, so it never reports the index written after the
last dot. A failed merge keeps its partial output, and the chunks it consumed
are already deleted.

## Model

| member | source | states |
|---|---|---|
| `UploadChunk.Handle` | server/api/uploadChunk.post.ts:8-59 | Success exactly when all four fields are truthy. On rejection no file other than the parser's own temp file changes, only `uploads/chunks` may be created, and that temp file stays behind. On success the payload sits at `chunks/{fileHash}/{fileName}.part.{chunkIndex}` and the temp file is gone. No other path changes; only the two directories may be created. The response echoes the three fields. Directory well-formedness is preserved |
| `UploadChunk.ZeroIndexAccepted` | server/api/uploadChunk.post.ts:32-37 | Chunk index "0" passes the truthiness guard and is stored as `{fileName}.part.0` |
| `UploadChunk.LastWriteWins` | server/api/uploadChunk.post.ts:51-52 | A second upload to the same key leaves the state the second upload alone would leave: last write wins |
| `UploadChunk.Resend` | server/api/uploadChunk.post.ts:14-52 | Sending the same form again, with the parser's fresh temp name, gives the same response. An accepted upload leaves the state unchanged. A rejected form without a file leaves it unchanged too. A rejected form with a file leaves one more orphaned temp file holding its bytes, so that state differs |
| `UploadChunk.Commute` | server/api/uploadChunk.post.ts:51-52 | Two accepted uploads to different keys commute, so upload order does not change the stored state |
| `FileSystem.PartNameInjective` | server/api/uploadChunk.post.ts:51 | For a fixed file name, distinct index texts give distinct entry names |
| `FileSystem.ReadDir` | server/api/getUploadedChunks.post.ts:10 | A directory listing always exists: each entry exactly once, one element per entry |
| `FileSystem.ListingLength` | server/api/getUploadedChunks.post.ts:10 | Any listing of a directory has exactly as many names as the directory has entries |
| `MergeChunks.MergeLoop` | server/api/mergeChunks.post.ts:22-34 | From index i, the loop stops at the smallest missing index below `totalChunks`, or runs to the end. Every chunk before that point was present, was appended to the output in ascending order, and was deleted. Nothing else changed |
| `MergeChunks.LoopStep` | server/api/mergeChunks.post.ts:23-33 | One iteration: consuming chunk i and then running from i+1 is the loop run from i |
| `MergeChunks.Handle` | server/api/mergeChunks.post.ts:10-42 | Without the hash directory it fails and the state is untouched. It fails with index m exactly when some chunk is missing, and m is the smallest missing one. The state after that failure: chunks 0..m-1 deleted, output holding exactly their concatenation, no rollback. It succeeds exactly when all chunks are present and nothing else is in the directory. Success means output = chunk 0 ++ … ++ chunk n-1 whatever the file held before, chunks deleted, directory removed. When other entries remain, the output is written, the chunks deleted, the directory kept, and the handler fails. Well-formedness is preserved |
| `MergeChunks.MissingIndexReadable` | server/api/mergeChunks.post.ts:27 | `parseInt` of the failure message after "Chunk " gives back the missing index |
| `MergeChunks.ChunkKeyInjective` | server/api/mergeChunks.post.ts:23 | Distinct loop indices name distinct chunk paths, so the loop never reads a chunk twice |
| `MergeChunks.PriorOutputDiscarded` | server/api/mergeChunks.post.ts:19-20 | Once the directory exists, prior contents of `uploads/{fileName}` do not affect the merge's result |
| `MergeChunks.NoChunksRequested` | server/api/mergeChunks.post.ts:22-37 | With `totalChunks <= 0` the output is empty. The merge succeeds exactly when the directory is empty and otherwise fails at `rmdirSync` |
| `MergeChunks.RetryAfterPartialFailure` | server/api/mergeChunks.post.ts:24-33 | After a failure at an index above 0, retrying the same merge fails at index 0, because the first run consumed chunk 0 |
| `UploadedChunks.Handle` | server/api/getUploadedChunks.post.ts:7-14 | Read-only. An unknown hash gives `[]`. Otherwise there is one element per directory entry, in listing order, each the `parseInt` of the text between the entry name's first and second dot (NaN when the name has no dot) |
| `UploadedChunks.SecondToken` | server/api/getUploadedChunks.post.ts:10 | `name.split('.')[1]` is undefined exactly when the name has no dot |
| `UploadedChunks.SecondTokenOfPartName` | server/api/getUploadedChunks.post.ts:10 | For `{fileName}.part.{idx}` the parsed token is "part" when `fileName` has no dot, and otherwise the second dot-piece of `fileName`. Never the index |
| `UploadedChunks.IndexNeverReported` | server/api/getUploadedChunks.post.ts:10 | Two chunks of one file are reported alike whatever their indices, so the stored index never reaches the answer |
| `UploadedChunks.DotFreeNameReportsNaN` | server/api/getUploadedChunks.post.ts:10 | For a file name without a dot every chunk is reported as NaN |
| `UploadedChunks.HandleBySuffix` | server/api/getUploadedChunks.post.ts:9-14 | The corrected query: same shape and read-only, each element the `parseInt` of the piece after the last dot |
| `UploadedChunks.SuffixRecoversIndex` | server/api/getUploadedChunks.post.ts:10 | The corrected parse recovers index i from `{fileName}.part.{i}`, whatever dots the file name holds |
| `JsText.ParseInt` | server/api/getUploadedChunks.post.ts:10 | JavaScript's global `parseInt` with no radix: it skips leading white space, takes a sign and a `0x` prefix, and reads the longest run of digits; NaN is `None`. Its contract says a string with no decimal digit is NaN and only a leading minus gives a negative value. `JsText.ParseIntOfNumber` and `JsText.ParseIntNoDigit` state its other properties |
| `JsText.Split` | server/api/getUploadedChunks.post.ts:10 | `split` yields at least one piece and no piece holds the separator |
| `JsText.SplitJoin` | server/api/getUploadedChunks.post.ts:10 | Joining the pieces of a split with the separator gives back the string |
| `JsText.SplitAppend` | server/api/getUploadedChunks.post.ts:10 | Splitting `a + sep + b` gives the pieces of `a` followed by the pieces of `b` |
| `JsText.NumberToString` | server/api/mergeChunks.post.ts:23 | The text of `${i}` is a non-empty run of decimal digits with no leading zero |
| `JsText.ParseIntOfNumber` | server/api/mergeChunks.post.ts:23 | `parseInt` reads back the template-literal text of every non-negative integer |
| `JsText.ParseIntNoDigit` | server/api/getUploadedChunks.post.ts:10 | A string starting with no white space, sign or digit parses to NaN |
| `JsText.NumberToStringInjective` | server/api/mergeChunks.post.ts:23 | Distinct indices have distinct texts |
| `Lifecycle.UploadAllState` | server/api/uploadChunk.post.ts:45-52 | Chunks sent in any order, repeats allowed, into an empty namespace: the namespace then holds exactly the chunks sent, each with its payload. No output file changed |
| `Lifecycle.RoundTrip` | server/api/mergeChunks.post.ts:19-37 | Send every chunk in any order, repeats allowed, then merge. The merge succeeds, the output equals the original file byte for byte, and the namespace is gone |
| `Lifecycle.ResumeBySuffix` | server/api/getUploadedChunks.post.ts:9-14 | After the uploads, every element of the corrected query's answer is a non-negative index, and the indices reported are exactly the indices sent |
| `Lifecycle.ResumeAsWritten` | server/api/getUploadedChunks.post.ts:10 | After the uploads of a file whose name has no dot, the query as written answers NaN for every stored chunk |

## Findings

| source | as written | input that shows it | evidently intended | confidence | as-written member | corrected member |
|---|---|---|---|---|---|---|
| server/api/getUploadedChunks.post.ts:10 | `parseInt(chunk.split('.')[1])` parses the token after the first dot of the entry name | file name `video`, chunk index `3`: the entry is `video.part.3`, the token is `part`, and the answer is NaN instead of 3 | parse the piece after the last dot, the index written at server/api/uploadChunk.post.ts:51 | high; not executed | `UploadedChunks.DotFreeNameReportsNaN` | `UploadedChunks.SuffixRecoversIndex` |

`UploadedChunks.IndexNeverReported` generalises the row: for any file name,
the answer does not depend on the index. `UploadedChunks.HandleBySuffix` is
the corrected query. `Lifecycle.ResumeBySuffix` proves it reports exactly the
uploaded indices, and `Lifecycle.ResumeAsWritten` shows the handler as written
does not.

## Left out

- server/api/checkFile.post.ts: one `existsSync` on `uploads/{fileName}` with no logic of its own.
- Multipart parsing: the parsed fields and the temp file name are inputs. Parse errors, which reject the request before any check, are not modelled.
- HTTP plumbing: `defineEventHandler`, `readBody` and turning a thrown error into an HTTP error are not modelled. The one throw that matters, `rmdirSync` on a non-empty directory, is the `NotEmpty` response.
- Path strings: paths are structured keys. `path.join` normalisation, names holding `/` or `..`, an output file named `chunks`, and a temp file whose name equals a hash are not modelled.
- An empty `fileHash`: `path.join` drops the empty segment, so the merge and the resume query of the code act on `uploads/chunks` itself. The model answers `DirNotFound` or `[]` instead, unless `HashDir("")` exists.
- File-system calls other than `rmdirSync` (`mkdirSync`, `renameSync`, `readFileSync`, `unlinkSync`) are taken to succeed. Their I/O and permission errors are not modelled.
- `uploads/` itself: it is taken to exist whenever `uploads/chunks` does.
- `existsSync` on `uploads/chunks/{hash}` is read as "the directory exists". A plain file at that path is not modelled.
- The write stream: `write` and `end` are synchronous in-order appends. The stream left open on early return is taken as flushed.
- Concurrency: racing uploads or merges on one hash are out of scope; the code has no guard.
- Untyped request bodies: `totalChunks` is an integer and `fileHash`, `fileName` are strings. JavaScript coercion of other values is not modelled.
- `readdirSync` order: the file system chooses it. The handlers take the order as a parameter, and `FileSystem.ReadDir` shows one always exists.
- `JsText.NumberToString`: a template literal prints numbers of 1e21 and above in exponent form (`1e+21`); the model gives plain digits for every natural number. No loop index or chunk index in practice reaches that size.
- `parseInt` precision: results are exact integers. Rounding of values above 2^53 to doubles is not modelled, and `-0` is reported as 0. Strings are sequences of Unicode scalar values, not UTF-16 code units.
- Features the code lacks (hash verification, identity validation, expiry of abandoned uploads) are not added.
