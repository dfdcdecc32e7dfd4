/** The chunk-ingestion handler (`POST /api/uploadChunk`).

    In order, it: creates `uploads/chunks` when absent; lets the multipart
    parser write the uploaded part to a temp file in that directory; checks
    that the four fields are truthy; creates `uploads/chunks/{fileHash}`
    when absent; renames the temp file to
    `uploads/chunks/{fileHash}/{fileName}.part.{chunkIndex}`, replacing any
    previous entry of that name. */
module UploadChunk {
  import opened Optional
  import opened JsText
  import opened FileSystem

  /** The `file` part as the multipart parser leaves it: a temp file name
      inside `uploads/chunks` and the bytes written there. */
  datatype UploadedFile = UploadedFile(tempName: string, payload: Bytes)

  /** The parsed form: the first value of each field, absent when the field
      was not sent. */
  datatype Request = Request(
    chunkIndex: Option<string>,
    fileHash: Option<string>,
    fileName: Option<string>,
    file: Option<UploadedFile>)

  datatype Response =
    | MissingFields
    | Stored(chunkIndex: string, fileHash: string, fileName: string)

  const MissingFieldsMessage := "Missing required fields or file."

  /** The `message` field of the response body; only a rejection has one. */
  function Message(r: Response): Option<string> {
    match r
    case MissingFields => Some(MissingFieldsMessage)
    case Stored(_, _, _) => None
  }

  /** The guard of the handler: no field is absent or the empty string. */
  predicate Complete(req: Request) {
    Truthy(req.chunkIndex) && Truthy(req.fileHash) && Truthy(req.fileName) && req.file.Some?
  }

  /** Where a complete request stores its chunk. */
  function Target(req: Request): Path
    requires Complete(req)
  {
    Entry(req.fileHash.value, PartName(req.fileName.value, req.chunkIndex.value))
  }

  /** `mkdirSync(dir, { recursive: true })` guarded by `existsSync(dir)`. */
  function MakeDir(fs: FS, d: Dir): FS {
    if d in fs.dirs then fs else fs.(dirs := fs.dirs + {d})
  }

  /** The multipart parser writing the uploaded part to its temp file. */
  function ReceiveFile(fs: FS, file: Option<UploadedFile>): FS {
    match file
    case None => fs
    case Some(f) => fs.(files := fs.files[Temp(f.tempName) := f.payload])
  }

  /** `renameSync(src, dst)`: `dst` takes the contents of `src`, replacing
      whatever it held, and `src` is gone. */
  function Rename(fs: FS, src: Path, dst: Path): FS
    requires src in fs.files
  {
    fs.(files := fs.files[dst := fs.files[src]] - {src})
  }

  /** The handler. */
  function Handle(fs: FS, req: Request): (r: (FS, Response))
    // the guard: success exactly when every field is truthy
    ensures r.1.Stored? <==> Complete(req)
    // a rejected request changes no file but the parser's own temp file
    ensures r.1.MissingFields? ==>
      && r.0.dirs == fs.dirs + {ChunksDir}
      && (forall p: Path :: (req.file.None? || p != Temp(req.file.value.tempName)) ==> Agree(fs.files, r.0.files, p))
    // ... but the temp file the parser wrote is left behind
    ensures r.1.MissingFields? && req.file.Some? ==>
      && Temp(req.file.value.tempName) in r.0.files
      && r.0.files[Temp(req.file.value.tempName)] == req.file.value.payload
    // a stored chunk holds the payload at its entry name, the temp file is gone
    ensures r.1.Stored? ==>
      && Target(req) in r.0.files
      && r.0.files[Target(req)] == req.file.value.payload
      && Temp(req.file.value.tempName) !in r.0.files
    // nothing else changes; only the two directories may be created
    ensures r.1.Stored? ==>
      && (forall p: Path :: p != Target(req) && p != Temp(req.file.value.tempName) ==> Agree(fs.files, r.0.files, p))
      && r.0.dirs == fs.dirs + {ChunksDir, HashDir(req.fileHash.value)}
    // the success response echoes the fields
    ensures r.1.Stored? ==>
      r.1 == Stored(req.chunkIndex.value, req.fileHash.value, req.fileName.value)
    ensures Valid(fs) ==> Valid(r.0)
  {
    var fs1 := MakeDir(fs, ChunksDir);
    var fs2 := ReceiveFile(fs1, req.file);
    if !Complete(req) then
      (fs2, MissingFields)
    else
      var fs3 := MakeDir(fs2, HashDir(req.fileHash.value));
      var fs4 := Rename(fs3, Temp(req.file.value.tempName), Target(req));
      (fs4, Stored(req.chunkIndex.value, req.fileHash.value, req.fileName.value))
  }

  /** The chunk index "0" is a non-empty string, so the truthiness guard
      accepts it and the chunk is stored as `{fileName}.part.0`. */
  lemma ZeroIndexAccepted(fs: FS, req: Request)
    requires req.chunkIndex == Some("0")
    requires Truthy(req.fileHash) && Truthy(req.fileName) && req.file.Some?
    ensures Handle(fs, req).1.Stored?
    ensures Entry(req.fileHash.value, PartName(req.fileName.value, "0")) in Handle(fs, req).0.files
  {
  }

  /** Last write wins: uploading to a key that a previous upload wrote leaves
      the state the second upload alone would have produced. */
  lemma LastWriteWins(fs: FS, first: Request, second: Request)
    requires Complete(first) && Complete(second)
    requires Target(first) == Target(second)
    requires first.file.value.tempName == second.file.value.tempName
          || Temp(first.file.value.tempName) !in fs.files
    ensures Handle(Handle(fs, first).0, second) == Handle(fs, second)
  {
    var once := Handle(fs, second).0;
    var twice := Handle(Handle(fs, first).0, second).0;
    forall p
      ensures Agree(once.files, twice.files, p)
    {
    }
    AgreeEverywhere(once.files, twice.files);
  }

  /** The same form sent again. The parser names each upload's temp file
      afresh, so the copy carries the same fields and bytes under the new
      temp name `tempName`. */
  function Resent(req: Request, tempName: string): (again: Request)
    ensures Complete(again) <==> Complete(req)
    ensures Complete(req) ==> Target(again) == Target(req)
  {
    match req.file
    case None => req
    case Some(f) => req.(file := Some(f.(tempName := tempName)))
  }

  /** Sending a form again, with a temp name not in use. An accepted
      upload leaves the state exactly as it was after the first send. A
      rejected one changes nothing either, except that a form carrying a
      file leaves a second orphaned temp file behind. */
  lemma Resend(fs: FS, req: Request, tempName: string)
    requires Temp(tempName) !in Handle(fs, req).0.files
    ensures var once := Handle(fs, req);
      var twice := Handle(once.0, Resent(req, tempName));
      && twice.1 == once.1
      && (Complete(req) || req.file.None? ==> twice.0 == once.0)
      && (!Complete(req) && req.file.Some? ==>
            && twice.0 == once.0.(files := once.0.files[Temp(tempName) := req.file.value.payload])
            && twice.0 != once.0)
  {
    var once := Handle(fs, req).0;
    var again := Resent(req, tempName);
    var twice := Handle(once, again).0;
    if Complete(req) {
      forall p: Path
        ensures Agree(once.files, twice.files, p)
      {
      }
      AgreeEverywhere(once.files, twice.files);
    } else if req.file.None? {
      assert once.files == twice.files;
    } else {
      assert Temp(tempName) in twice.files;
    }
  }

  /** Uploads to different keys commute, so the order in which a client
      sends its chunks does not matter to the stored state. */
  lemma Commute(fs: FS, a: Request, b: Request)
    requires Complete(a) && Complete(b)
    requires Target(a) != Target(b)
    ensures Handle(Handle(fs, a).0, b).0 == Handle(Handle(fs, b).0, a).0
  {
    var ma, mb := Handle(fs, a).0, Handle(fs, b).0;
    var ab, ba := Handle(ma, b).0, Handle(mb, a).0;
    var ta, tb := Temp(a.file.value.tempName), Temp(b.file.value.tempName);
    forall p
      ensures Agree(ab.files, ba.files, p)
    {
      if p == Target(a) {
        assert Agree(ma.files, ab.files, p);
      } else if p == Target(b) {
        assert Agree(mb.files, ba.files, p);
      } else if p == ta || p == tb {
        assert p !in ab.files && p !in ba.files;
      } else {
        assert Agree(fs.files, ma.files, p) && Agree(ma.files, ab.files, p);
        assert Agree(fs.files, mb.files, p) && Agree(mb.files, ba.files, p);
      }
    }
    AgreeEverywhere(ab.files, ba.files);
  }
}
