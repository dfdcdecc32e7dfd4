/** The merge handler (`POST /api/mergeChunks`).

    It fails when `uploads/chunks/{fileHash}` does not exist. Otherwise it
    truncates (or creates) `uploads/{fileName}`, then for i = 0, 1, … while
    i < totalChunks either stops at the first missing
    `{fileName}.part.{i}` or appends that chunk's bytes to the output and
    deletes it. Finally it removes the hash directory, which only succeeds
    when nothing else is left in it. */
module MergeChunks {
  import opened Optional
  import opened JsText
  import opened FileSystem

  datatype Request = Request(fileHash: string, fileName: string, totalChunks: int)

  datatype Response =
    | DirNotFound
    | ChunkNotFound(index: nat)
    | Merged(filePath: Path)
      // `rmdirSync` threw ENOTEMPTY: the handler fails after the loop
    | NotEmpty

  /** The `message` field of the two failure responses. */
  function Message(r: Response): string
    requires r.DirNotFound? || r.ChunkNotFound?
  {
    match r
    case DirNotFound => "Chunks directory not found."
    case ChunkNotFound(i) => "Chunk " + NumberToString(i) + " not found."
  }

  /** A client reading the message with `parseInt` after "Chunk " gets the
      missing index back. */
  lemma MissingIndexReadable(i: nat)
    ensures ParseInt(Message(ChunkNotFound(i))[6..]) == Some(i)
  {
    assert Message(ChunkNotFound(i))[6..] == NumberToString(i) + " not found.";
    ParseIntOfNumberPrefix(i, " not found.");
  }

  // ---------------------------------------------------------------------
  // the chunks merge looks for

  /** `uploads/chunks/{hash}/{fileName}.part.{i}` with `i` written by a
      template literal. */
  function ChunkKey(hash: string, fileName: string, i: nat): Path {
    Entry(hash, PartName(fileName, NumberToString(i)))
  }

  lemma ChunkKeyInjective(hash: string, fileName: string, i: nat, j: nat)
    ensures ChunkKey(hash, fileName, i) == ChunkKey(hash, fileName, j) ==> i == j
  {
    PartNameInjective(fileName, NumberToString(i), NumberToString(j));
    NumberToStringInjective(i, j);
  }

  /** Every chunk with index in [lo, hi) is stored. */
  predicate Present(files: map<Path, Bytes>, hash: string, fileName: string, lo: nat, hi: int) {
    forall i: nat :: lo <= i < hi ==> ChunkKey(hash, fileName, i) in files
  }

  /** chunk[lo] ++ chunk[lo + 1] ++ … ++ chunk[hi - 1]. */
  function Concat(files: map<Path, Bytes>, hash: string, fileName: string, lo: nat, hi: int): Bytes
    requires Present(files, hash, fileName, lo, hi)
    decreases hi - lo
  {
    if lo >= hi then []
    else files[ChunkKey(hash, fileName, lo)] + Concat(files, hash, fileName, lo + 1, hi)
  }

  /** Entry names of the chunks with index in [lo, hi). */
  function Names(fileName: string, lo: nat, hi: int): set<string> {
    set i: nat | lo <= i < hi :: PartName(fileName, NumberToString(i))
  }

  /** Paths of the chunks with index in [lo, hi). */
  function Keys(hash: string, fileName: string, lo: nat, hi: int): set<Path> {
    set i: nat | lo <= i < hi :: ChunkKey(hash, fileName, i)
  }

  lemma KeysNames(hash: string, fileName: string, lo: nat, hi: int, name: string)
    ensures Entry(hash, name) in Keys(hash, fileName, lo, hi) <==> name in Names(fileName, lo, hi)
  {
    if name in Names(fileName, lo, hi) {
      var i: nat :| lo <= i < hi && name == PartName(fileName, NumberToString(i));
      assert ChunkKey(hash, fileName, i) == Entry(hash, name);
    }
  }

  /** Concat reads only the chunks in its range. */
  lemma {:induction false} ConcatFrame(a: map<Path, Bytes>, b: map<Path, Bytes>, hash: string, fileName: string, lo: nat, hi: int)
    requires Present(a, hash, fileName, lo, hi)
    requires forall i: nat :: lo <= i < hi ==> Agree(a, b, ChunkKey(hash, fileName, i))
    ensures Present(b, hash, fileName, lo, hi)
    ensures Concat(a, hash, fileName, lo, hi) == Concat(b, hash, fileName, lo, hi)
    decreases hi - lo
  {
    if lo < hi {
      assert Agree(a, b, ChunkKey(hash, fileName, lo));
      ConcatFrame(a, b, hash, fileName, lo + 1, hi);
    }
  }

  // ---------------------------------------------------------------------
  // the loop

  /** Where a loop started at `i` stopped: at the missing index, or at
      `total` (at `i` when `total` is already behind it). */
  function Stop(i: nat, total: int, missing: Option<nat>): nat {
    match missing
    case Some(m) => m
    case None => if total < i then i else total
  }

  /** What running the loop from index `i` on `files` did, if it returned
      `r`: it stopped at the first missing index of [i, total) or at the end;
      every chunk before that point was appended to the output in index
      order and deleted; nothing else changed. */
  ghost predicate LoopDone(files: map<Path, Bytes>, hash: string, fileName: string, i: nat, total: int,
                           r: (map<Path, Bytes>, Option<nat>))
    requires Output(fileName) in files
  {
    var stop := Stop(i, total, r.1);
    && (r.1.Some? ==> i <= r.1.value < total && ChunkKey(hash, fileName, r.1.value) !in files)
    && Present(files, hash, fileName, i, stop)
    && r.0 == (files - Keys(hash, fileName, i, stop))[Output(fileName) :=
                 files[Output(fileName)] + Concat(files, hash, fileName, i, stop)]
  }

  /** The merge loop from index `i` on: look for chunk i; stop when it is
      missing, otherwise append it to the output, delete it and go on. */
  function MergeLoop(files: map<Path, Bytes>, hash: string, fileName: string, i: nat, total: int)
    : (r: (map<Path, Bytes>, Option<nat>))
    requires Output(fileName) in files
    ensures LoopDone(files, hash, fileName, i, total, r)
    decreases total - i
  {
    if !(i < total) then
      NothingLeft(files, hash, fileName, i);
      (files, None)
    else
      var key := ChunkKey(hash, fileName, i);
      if key !in files then
        NothingLeft(files, hash, fileName, i);
        (files, Some(i))
      else
        var out := Output(fileName);
        var next := files[out := files[out] + files[key]] - {key};
        var r := MergeLoop(next, hash, fileName, i + 1, total);
        LoopStep(files, hash, fileName, i, total, r);
        r
  }

  /** A loop that stops where it starts consumes nothing. */
  lemma NothingLeft(files: map<Path, Bytes>, hash: string, fileName: string, i: nat)
    requires Output(fileName) in files
    ensures files == (files - Keys(hash, fileName, i, i))[Output(fileName) :=
                        files[Output(fileName)] + Concat(files, hash, fileName, i, i)]
  {
    assert Keys(hash, fileName, i, i) == {};
    assert files[Output(fileName)] + [] == files[Output(fileName)];
    assert files - {} == files;
  }

  /** One iteration: a loop from `i + 1` on the state after chunk `i` was
      consumed is a loop from `i` on the state before. */
  lemma LoopStep(files: map<Path, Bytes>, hash: string, fileName: string, i: nat, total: int,
                 r: (map<Path, Bytes>, Option<nat>))
    requires Output(fileName) in files
    requires i < total && ChunkKey(hash, fileName, i) in files
    requires var out, key := Output(fileName), ChunkKey(hash, fileName, i);
             LoopDone(files[out := files[out] + files[key]] - {key}, hash, fileName, i + 1, total, r)
    ensures LoopDone(files, hash, fileName, i, total, r)
  {
    var out, key := Output(fileName), ChunkKey(hash, fileName, i);
    var next := files[out := files[out] + files[key]] - {key};
    var stop := Stop(i + 1, total, r.1);
    assert stop == Stop(i, total, r.1);
    forall j: nat | i < j
      ensures Agree(next, files, ChunkKey(hash, fileName, j))
    {
      ChunkKeyInjective(hash, fileName, i, j);
    }
    ConcatFrame(next, files, hash, fileName, i + 1, stop);
    var tail := Concat(files, hash, fileName, i + 1, stop);
    assert Present(files, hash, fileName, i, stop);
    assert Concat(files, hash, fileName, i, stop) == files[key] + tail;
    KeysStep(hash, fileName, i, stop);
    ConsumeMap(files, out, key, Keys(hash, fileName, i + 1, stop), tail);
  }

  /** The chunk keys of [i, stop) are those of [i + 1, stop) and key i. */
  lemma KeysStep(hash: string, fileName: string, i: nat, stop: int)
    requires i < stop
    ensures Keys(hash, fileName, i, stop) == Keys(hash, fileName, i + 1, stop) + {ChunkKey(hash, fileName, i)}
    ensures Output(fileName) !in Keys(hash, fileName, i, stop)
  {
  }

  /** Consuming `key` into `out` and then the keys `keys` with the bytes
      `tail` is consuming all of them with `files[key] + tail`. */
  lemma ConsumeMap(files: map<Path, Bytes>, out: Path, key: Path, keys: set<Path>, tail: Bytes)
    requires out in files && key in files && out != key && out !in keys
    ensures var next := files[out := files[out] + files[key]] - {key};
      (next - keys)[out := next[out] + tail] == (files - (keys + {key}))[out := files[out] + (files[key] + tail)]
  {
    var next := files[out := files[out] + files[key]] - {key};
    var lhs := (next - keys)[out := next[out] + tail];
    var rhs := (files - (keys + {key}))[out := files[out] + (files[key] + tail)];
    assert next[out] + tail == files[out] + (files[key] + tail);
    forall p
      ensures (p in lhs <==> p in rhs) && (p in lhs ==> lhs[p] == rhs[p])
    {
    }
    assert lhs == rhs;
  }

  // ---------------------------------------------------------------------
  // the handler

  function Handle(fs: FS, req: Request): (r: (FS, Response))
    // no hash directory: failure, nothing touched, no output created
    ensures r.1.DirNotFound? <==> HashDir(req.fileHash) !in fs.dirs
    ensures r.1.DirNotFound? ==> r.0 == fs
    // a chunk missing: failure naming the smallest missing index
    ensures r.1.ChunkNotFound? <==>
      HashDir(req.fileHash) in fs.dirs && !Present(fs.files, req.fileHash, req.fileName, 0, req.totalChunks)
    ensures r.1.ChunkNotFound? ==>
      && r.1.index < req.totalChunks
      && ChunkKey(req.fileHash, req.fileName, r.1.index) !in fs.files
      && Present(fs.files, req.fileHash, req.fileName, 0, r.1.index)
    // ... leaving the chunks before it consumed into the output, no rollback
    ensures r.1.ChunkNotFound? ==>
      r.0 == FS((fs.files - Keys(req.fileHash, req.fileName, 0, r.1.index))[Output(req.fileName) :=
                  Concat(fs.files, req.fileHash, req.fileName, 0, r.1.index)],
                fs.dirs)
    // success exactly when every chunk is there and nothing else is in the directory
    ensures r.1.Merged? <==>
      && HashDir(req.fileHash) in fs.dirs
      && Present(fs.files, req.fileHash, req.fileName, 0, req.totalChunks)
      && EntriesIn(fs, req.fileHash) <= Names(req.fileName, 0, req.totalChunks)
    // the output is the chunks in index order, whatever it held before;
    // the chunks are deleted; the directory is removed
    ensures r.1.Merged? ==>
      && r.1.filePath == Output(req.fileName)
      && r.0 == FS((fs.files - Keys(req.fileHash, req.fileName, 0, req.totalChunks))[Output(req.fileName) :=
                     Concat(fs.files, req.fileHash, req.fileName, 0, req.totalChunks)],
                   fs.dirs - {HashDir(req.fileHash)})
      && EntriesIn(r.0, req.fileHash) == {}
    // other entries left behind: the directory stays and the handler fails,
    // after the output was written and the chunks deleted
    ensures r.1.NotEmpty? ==>
      && r.0 == FS((fs.files - Keys(req.fileHash, req.fileName, 0, req.totalChunks))[Output(req.fileName) :=
                     Concat(fs.files, req.fileHash, req.fileName, 0, req.totalChunks)],
                   fs.dirs)
      && EntriesIn(r.0, req.fileHash) != {}
    ensures Valid(fs) ==> Valid(r.0)
  {
    var hash, fileName := req.fileHash, req.fileName;
    if HashDir(hash) !in fs.dirs then (fs, DirNotFound)
    else
      var start := fs.files[Output(fileName) := []];
      var r := MergeLoop(start, hash, fileName, 0, req.totalChunks);
      HandleFacts(fs, req, r);
      match r.1
      case Some(m) => (FS(r.0, fs.dirs), ChunkNotFound(m))
      case None =>
        if EntriesIn(FS(r.0, fs.dirs), hash) != {} then (FS(r.0, fs.dirs), NotEmpty)
        else (FS(r.0, fs.dirs - {HashDir(hash)}), Merged(Output(fileName)))
  }

  /** The loop run on the truncated output, restated against the state the
      handler was given. */
  lemma HandleFacts(fs: FS, req: Request, r: (map<Path, Bytes>, Option<nat>))
    requires HashDir(req.fileHash) in fs.dirs
    requires LoopDone(fs.files[Output(req.fileName) := []], req.fileHash, req.fileName, 0, req.totalChunks, r)
    ensures var stop := Stop(0, req.totalChunks, r.1);
      && Present(fs.files, req.fileHash, req.fileName, 0, stop)
      && r.0 == (fs.files - Keys(req.fileHash, req.fileName, 0, stop))[Output(req.fileName) :=
                  Concat(fs.files, req.fileHash, req.fileName, 0, stop)]
    ensures r.1.None? <==> Present(fs.files, req.fileHash, req.fileName, 0, req.totalChunks)
    ensures r.1.Some? ==>
      && r.1.value < req.totalChunks
      && ChunkKey(req.fileHash, req.fileName, r.1.value) !in fs.files
    ensures r.1.None? ==>
      (EntriesIn(FS(r.0, fs.dirs), req.fileHash) == {} <==>
       EntriesIn(fs, req.fileHash) <= Names(req.fileName, 0, req.totalChunks))
  {
    var hash, fileName, total := req.fileHash, req.fileName, req.totalChunks;
    var start := fs.files[Output(fileName) := []];
    var stop := Stop(0, total, r.1);
    ConcatFrame(start, fs.files, hash, fileName, 0, stop);
    var lhs := (start - Keys(hash, fileName, 0, stop))[Output(fileName) := [] + Concat(start, hash, fileName, 0, stop)];
    var rhs := (fs.files - Keys(hash, fileName, 0, stop))[Output(fileName) := Concat(fs.files, hash, fileName, 0, stop)];
    forall p
      ensures (p in lhs <==> p in rhs) && (p in lhs ==> lhs[p] == rhs[p])
    {
    }
    assert lhs == rhs;
    if r.1.Some? {
      assert !Present(fs.files, hash, fileName, 0, total) by {
        assert ChunkKey(hash, fileName, r.1.value) !in fs.files;
      }
    } else {
      forall name
        ensures Entry(hash, name) in r.0 <==> name in EntriesIn(fs, hash) && name !in Names(fileName, 0, total)
      {
        KeysNames(hash, fileName, 0, total, name);
      }
    }
  }

  // ---------------------------------------------------------------------
  // properties that relate several calls

  /** Whatever `uploads/{fileName}` held before a merge that found its
      directory is discarded: the result does not depend on it. */
  lemma PriorOutputDiscarded(fs: FS, req: Request, prior: Bytes)
    requires HashDir(req.fileHash) in fs.dirs
    ensures Handle(fs.(files := fs.files[Output(req.fileName) := prior]), req) == Handle(fs, req)
  {
    var fs' := fs.(files := fs.files[Output(req.fileName) := prior]);
    var start := fs.files[Output(req.fileName) := []];
    assert fs'.files[Output(req.fileName) := []] == start;
    var r := MergeLoop(start, req.fileHash, req.fileName, 0, req.totalChunks);
    assert MergeLoop(fs'.files[Output(req.fileName) := []], req.fileHash, req.fileName, 0, req.totalChunks) == r;
  }

  /** With `totalChunks <= 0` the loop body never runs: the output is
      empty and the merge succeeds exactly when the directory is empty. */
  lemma NoChunksRequested(fs: FS, req: Request)
    requires HashDir(req.fileHash) in fs.dirs && req.totalChunks <= 0
    ensures Handle(fs, req).1.Merged? || Handle(fs, req).1.NotEmpty?
    ensures Handle(fs, req).0.files[Output(req.fileName)] == []
    ensures Handle(fs, req).1.Merged? <==> EntriesIn(fs, req.fileHash) == {}
  {
    assert Names(req.fileName, 0, req.totalChunks) == {};
  }

  /** A failed merge that had already consumed chunk 0 cannot be retried:
      the retry fails at index 0, because the partial run deleted it. */
  lemma RetryAfterPartialFailure(fs: FS, req: Request)
    requires Handle(fs, req).1.ChunkNotFound? && Handle(fs, req).1.index > 0
    ensures Handle(Handle(fs, req).0, req).1 == ChunkNotFound(0)
  {
    var after := Handle(fs, req).0;
    assert ChunkKey(req.fileHash, req.fileName, 0) in Keys(req.fileHash, req.fileName, 0, Handle(fs, req).1.index);
    assert ChunkKey(req.fileHash, req.fileName, 0) !in after.files;
  }
}
