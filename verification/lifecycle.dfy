/** The handlers composed along an upload: a client sends every chunk of a
    file, in any order and possibly more than once, then asks for the merge
    or for the list of chunks already stored. */
module Lifecycle {
  import opened Optional
  import opened JsText
  import opened FileSystem
  import UploadChunk
  import MergeChunks
  import UploadedChunks

  /** The uploads handled one after the other, first request first. */
  function UploadAll(fs: FS, reqs: seq<UploadChunk.Request>): FS
    decreases |reqs|
  {
    if reqs == [] then fs
    else UploadChunk.Handle(UploadAll(fs, reqs[..|reqs| - 1]), reqs[|reqs| - 1]).0
  }

  /** The file the client split: its chunks concatenated in order. */
  function Flatten(chunks: seq<Bytes>): Bytes {
    if chunks == [] then [] else chunks[0] + Flatten(chunks[1..])
  }

  /** `req` uploads chunk `j` of `chunks` for `fileName` under `hash`, with
      the index written as the client's `String(j)`. */
  predicate UploadsChunk(req: UploadChunk.Request, hash: string, fileName: string, chunks: seq<Bytes>, j: nat) {
    && j < |chunks|
    && req.chunkIndex == Some(NumberToString(j))
    && req.fileHash == Some(hash)
    && req.fileName == Some(fileName)
    && req.file.Some?
    && req.file.value.payload == chunks[j]
  }

  /** `reqs[k]` uploads chunk `order[k]`: the client sends the chunks in
      the order `order`, which may repeat or skip indices. */
  predicate Sends(reqs: seq<UploadChunk.Request>, order: seq<nat>, hash: string, fileName: string,
                  chunks: seq<Bytes>) {
    |reqs| == |order| && forall k :: 0 <= k < |reqs| ==> UploadsChunk(reqs[k], hash, fileName, chunks, order[k])
  }

  /** One accepted chunk upload: the namespace gains the chunk's entry with
      its payload; every other entry and every output file stay as they were. */
  lemma UploadStep(s0: FS, req: UploadChunk.Request, hash: string, fileName: string, chunks: seq<Bytes>, j0: nat)
    requires hash != "" && fileName != ""
    requires UploadsChunk(req, hash, fileName, chunks, j0)
    ensures var s := UploadChunk.Handle(s0, req).0;
      && HashDir(hash) in s.dirs
      && MergeChunks.ChunkKey(hash, fileName, j0) in s.files
      && s.files[MergeChunks.ChunkKey(hash, fileName, j0)] == chunks[j0]
      && (forall p: Path :: p.Entry? && p != MergeChunks.ChunkKey(hash, fileName, j0) ==> Agree(s0.files, s.files, p))
      && (forall p: Path :: p.Output? ==> Agree(s0.files, s.files, p))
  {
    assert UploadChunk.Target(req) == MergeChunks.ChunkKey(hash, fileName, j0);
  }

  /** What sending the chunks `order` into a namespace that held nothing
      leaves: the namespace holds exactly the chunks sent, each with its
      payload, and no output file has changed. */
  ghost predicate Reached(fs: FS, s: FS, order: seq<nat>, hash: string, fileName: string, chunks: seq<Bytes>) {
    && (order != [] ==> HashDir(hash) in s.dirs)
    && EntriesIn(s, hash) <= MergeChunks.Names(fileName, 0, |chunks|)
    && (forall j: nat :: MergeChunks.ChunkKey(hash, fileName, j) in s.files ==>
          j < |chunks| && s.files[MergeChunks.ChunkKey(hash, fileName, j)] == chunks[j])
    && (forall j: nat :: MergeChunks.ChunkKey(hash, fileName, j) in s.files <==> j in order)
    && (forall p: Path :: p.Output? ==> Agree(fs.files, s.files, p))
  }

  lemma ReachedStep(fs: FS, s0: FS, order: seq<nat>, last: UploadChunk.Request, hash: string,
                    fileName: string, chunks: seq<Bytes>, j0: nat)
    requires hash != "" && fileName != ""
    requires Reached(fs, s0, order, hash, fileName, chunks)
    requires UploadsChunk(last, hash, fileName, chunks, j0)
    ensures Reached(fs, UploadChunk.Handle(s0, last).0, order + [j0], hash, fileName, chunks)
  {
    var s := UploadChunk.Handle(s0, last).0;
    UploadStep(s0, last, hash, fileName, chunks, j0);
    var target := MergeChunks.ChunkKey(hash, fileName, j0);
    forall name | name in EntriesIn(s, hash)
      ensures name in MergeChunks.Names(fileName, 0, |chunks|)
    {
      if Entry(hash, name) != target {
        assert Agree(s0.files, s.files, Entry(hash, name));
        assert name in EntriesIn(s0, hash);
      }
    }
    forall j: nat
      ensures MergeChunks.ChunkKey(hash, fileName, j) in s.files ==>
                j < |chunks| && s.files[MergeChunks.ChunkKey(hash, fileName, j)] == chunks[j]
      ensures MergeChunks.ChunkKey(hash, fileName, j) in s.files <==> j in order + [j0]
    {
      MergeChunks.ChunkKeyInjective(hash, fileName, j, j0);
      if j != j0 {
        assert Agree(s0.files, s.files, MergeChunks.ChunkKey(hash, fileName, j));
      }
    }
  }

  /** Sending chunks into a namespace that held nothing reaches `Reached`. */
  lemma {:induction false} UploadAllState(fs: FS, reqs: seq<UploadChunk.Request>, order: seq<nat>, hash: string,
                                          fileName: string, chunks: seq<Bytes>)
    requires hash != "" && fileName != ""
    requires EntriesIn(fs, hash) == {}
    requires Sends(reqs, order, hash, fileName, chunks)
    ensures Reached(fs, UploadAll(fs, reqs), order, hash, fileName, chunks)
  {
    if reqs == [] {
      forall j: nat
        ensures MergeChunks.ChunkKey(hash, fileName, j) !in fs.files
      {
        assert PartName(fileName, NumberToString(j)) !in EntriesIn(fs, hash);
      }
    } else {
      var n := |reqs| - 1;
      UploadAllState(fs, reqs[..n], order[..n], hash, fileName, chunks);
      assert order == order[..n] + [order[n]];
      ReachedStep(fs, UploadAll(fs, reqs[..n]), order[..n], reqs[n], hash, fileName, chunks, order[n]);
    }
  }

  lemma {:induction false} ConcatOfChunks(files: map<Path, Bytes>, hash: string, fileName: string, chunks: seq<Bytes>,
                                          lo: nat)
    requires lo <= |chunks|
    requires forall j: nat :: lo <= j < |chunks| ==>
      MergeChunks.ChunkKey(hash, fileName, j) in files && files[MergeChunks.ChunkKey(hash, fileName, j)] == chunks[j]
    ensures MergeChunks.Present(files, hash, fileName, lo, |chunks|)
    ensures MergeChunks.Concat(files, hash, fileName, lo, |chunks|) == Flatten(chunks[lo..])
    decreases |chunks| - lo
  {
    if lo < |chunks| {
      ConcatOfChunks(files, hash, fileName, chunks, lo + 1);
      assert chunks[lo..][1..] == chunks[lo + 1..];
    } else {
      assert chunks[lo..] == [];
    }
  }

  /** Upload every chunk of a file, in any order and with any repetitions,
      then merge: the merge succeeds, the output is the file byte for byte,
      and the chunk namespace is gone. */
  lemma RoundTrip(fs: FS, reqs: seq<UploadChunk.Request>, order: seq<nat>, hash: string, fileName: string,
                  chunks: seq<Bytes>)
    requires hash != "" && fileName != "" && chunks != []
    requires EntriesIn(fs, hash) == {}
    requires Sends(reqs, order, hash, fileName, chunks)
    requires forall j: nat :: j < |chunks| ==> j in order
    ensures var r := MergeChunks.Handle(UploadAll(fs, reqs), MergeChunks.Request(hash, fileName, |chunks|));
      && r.1 == MergeChunks.Merged(Output(fileName))
      && r.0.files[Output(fileName)] == Flatten(chunks)
      && HashDir(hash) !in r.0.dirs
      && EntriesIn(r.0, hash) == {}
  {
    assert 0 in order;
    UploadAllState(fs, reqs, order, hash, fileName, chunks);
    var s := UploadAll(fs, reqs);
    ConcatOfChunks(s.files, hash, fileName, chunks, 0);
    assert chunks[0..] == chunks;
  }

  /** Every entry left in the namespace by chunk uploads is the part name
      of a chunk index. */
  lemma ListedPartNames(fs: FS, s: FS, order: seq<nat>, hash: string, fileName: string,
                        chunks: seq<Bytes>, listing: seq<string>, k: nat)
    requires Reached(fs, s, order, hash, fileName, chunks)
    requires IsListing(s, hash, listing) && k < |listing|
    ensures exists i: nat :: i < |chunks| && listing[k] == PartName(fileName, NumberToString(i))
  {
    assert listing[k] in EntriesIn(s, hash);
  }

  /** After the uploads, the query reading suffixes reports exactly the
      indices uploaded. */
  lemma ResumeBySuffix(fs: FS, reqs: seq<UploadChunk.Request>, order: seq<nat>, hash: string, fileName: string,
                       chunks: seq<Bytes>, listing: seq<string>)
    requires hash != "" && fileName != "" && reqs != []
    requires EntriesIn(fs, hash) == {}
    requires Sends(reqs, order, hash, fileName, chunks)
    requires IsListing(UploadAll(fs, reqs), hash, listing)
    ensures var fixed := UploadedChunks.HandleBySuffix(UploadAll(fs, reqs), hash, listing).1;
      && (forall v :: v in fixed ==> v.Some? && v.value >= 0)
      && (forall j: nat :: Some(j) in fixed <==> j in order)
  {
    UploadAllState(fs, reqs, order, hash, fileName, chunks);
    var s := UploadAll(fs, reqs);
    var fixed := UploadedChunks.HandleBySuffix(s, hash, listing).1;
    forall v | v in fixed
      ensures v.Some? && v.value >= 0 && v.value in order
    {
      var k :| 0 <= k < |fixed| && fixed[k] == v;
      ListedSuffixSent(fs, s, order, hash, fileName, chunks, listing, k);
    }
    forall j: nat | j in order
      ensures Some(j) in fixed
    {
      var k := SentSuffixListed(fs, s, order, hash, fileName, chunks, listing, j);
      assert fixed[k] == Some(j);
    }
  }

  /** The suffix of a listed entry is an index that was sent. */
  lemma ListedSuffixSent(fs: FS, s: FS, order: seq<nat>, hash: string, fileName: string,
                         chunks: seq<Bytes>, listing: seq<string>, k: nat)
    requires Reached(fs, s, order, hash, fileName, chunks)
    requires IsListing(s, hash, listing) && k < |listing|
    ensures var v := UploadedChunks.SuffixIndex(listing[k]);
      v.Some? && v.value >= 0 && v.value in order
  {
    ListedPartNames(fs, s, order, hash, fileName, chunks, listing, k);
    var i: nat :| i < |chunks| && listing[k] == PartName(fileName, NumberToString(i));
    UploadedChunks.SuffixRecoversIndex(fileName, i);
    assert listing[k] in EntriesIn(s, hash);
    assert MergeChunks.ChunkKey(hash, fileName, i) in s.files;
  }

  /** Every index sent is the suffix of some listed entry, returned here. */
  lemma SentSuffixListed(fs: FS, s: FS, order: seq<nat>, hash: string, fileName: string,
                         chunks: seq<Bytes>, listing: seq<string>, j: nat) returns (k: nat)
    requires Reached(fs, s, order, hash, fileName, chunks)
    requires IsListing(s, hash, listing) && j in order
    ensures k < |listing| && UploadedChunks.SuffixIndex(listing[k]) == Some(j)
  {
    var name := PartName(fileName, NumberToString(j));
    assert MergeChunks.ChunkKey(hash, fileName, j) == Entry(hash, name);
    assert name in EntriesIn(s, hash);
    k :| 0 <= k < |listing| && listing[k] == name;
    UploadedChunks.SuffixRecoversIndex(fileName, j);
  }

  /** After the uploads, the query as written reports NaN for every stored
      chunk of a file whose name has no dot. */
  lemma ResumeAsWritten(fs: FS, reqs: seq<UploadChunk.Request>, order: seq<nat>, hash: string, fileName: string,
                        chunks: seq<Bytes>, listing: seq<string>)
    requires hash != "" && fileName != "" && '.' !in fileName && reqs != []
    requires EntriesIn(fs, hash) == {}
    requires Sends(reqs, order, hash, fileName, chunks)
    requires IsListing(UploadAll(fs, reqs), hash, listing)
    ensures var reported := UploadedChunks.Handle(UploadAll(fs, reqs), hash, listing).1;
      |reported| == |listing| && forall v :: v in reported ==> v == None
  {
    UploadAllState(fs, reqs, order, hash, fileName, chunks);
    var s := UploadAll(fs, reqs);
    var reported := UploadedChunks.Handle(s, hash, listing).1;
    forall v | v in reported
      ensures v == None
    {
      var k :| 0 <= k < |reported| && reported[k] == v;
      ListedPartNames(fs, s, order, hash, fileName, chunks, listing, k);
      var i: nat :| i < |chunks| && listing[k] == PartName(fileName, NumberToString(i));
      UploadedChunks.DotFreeNameReportsNaN(fileName, NumberToString(i));
    }
  }
}
