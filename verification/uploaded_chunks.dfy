/** The resume query (`POST /api/getUploadedChunks`).

    For an unknown `fileHash` (no `uploads/chunks/{fileHash}` directory) it
    answers `[]`. Otherwise it lists the directory and maps each entry name
    through `parseInt(name.split('.')[1])`: the token between the first and
    the second dot. Entries are named `{fileName}.part.{chunkIndex}`, so that
    token is "part" or a piece of the file name, never the index.

    `HandleBySuffix` is the intended query, reading the token after the
    last dot; it is kept beside the handler as written. */
module UploadedChunks {
  import opened Optional
  import opened JsText
  import opened FileSystem

  /** `name.split('.')[1]`, undefined when the name has no dot. */
  function SecondToken(name: string): (t: Option<string>)
    ensures t.None? <==> '.' !in name
  {
    SplitSingle(name, '.');
    var pieces := Split(name, '.');
    if |pieces| > 1 then Some(pieces[1]) else None
  }

  /** The number the handler reports for an entry name; NaN is `None`. */
  function ReportedIndex(name: string): Option<int> {
    ParseInt(ToJsString(SecondToken(name)))
  }

  /** The handler. `listing` is the order in which `readdirSync` returns
      the entries; the state is only read. */
  function Handle(fs: FS, hash: string, listing: seq<string>): (r: (FS, seq<Option<int>>))
    requires HashDir(hash) in fs.dirs ==> IsListing(fs, hash, listing)
    ensures r.0 == fs
    ensures HashDir(hash) !in fs.dirs ==> r.1 == []
    ensures HashDir(hash) in fs.dirs ==> |r.1| == |EntriesIn(fs, hash)| == |listing|
    ensures HashDir(hash) in fs.dirs ==>
      forall k :: 0 <= k < |r.1| ==> Entry(hash, listing[k]) in fs.files && r.1[k] == ReportedIndex(listing[k])
  {
    if HashDir(hash) in fs.dirs then
      ListingLength(fs, hash, listing);
      (fs, seq(|listing|, k requires 0 <= k < |listing| => ReportedIndex(listing[k])))
    else
      (fs, [])
  }

  /** The token the handler parses for `{fileName}.part.{chunkIndex}` is the
      second dot-separated piece of `fileName`, or "part" when `fileName`
      has no dot; the chunk index never reaches it. */
  lemma SecondTokenOfPartName(fileName: string, chunkIndex: string)
    ensures SecondToken(PartName(fileName, chunkIndex))
         == if '.' in fileName then SecondToken(fileName) else Some("part")
  {
    SplitOfPartName(fileName, chunkIndex);
    SplitSingle(fileName, '.');
  }

  lemma SplitOfPartName(fileName: string, chunkIndex: string)
    ensures Split(PartName(fileName, chunkIndex), '.')
         == Split(fileName, '.') + ["part"] + Split(chunkIndex, '.')
  {
    assert PartName(fileName, chunkIndex) == fileName + ['.'] + ("part" + ['.'] + chunkIndex);
    SplitAppend(fileName, '.', "part" + ['.'] + chunkIndex);
    SplitAppend("part", '.', chunkIndex);
    SplitSingle("part", '.');
  }

  /** Two chunks of the same file are reported alike, whatever their indices. */
  lemma IndexNeverReported(fileName: string, a: string, b: string)
    ensures ReportedIndex(PartName(fileName, a)) == ReportedIndex(PartName(fileName, b))
  {
    SecondTokenOfPartName(fileName, a);
    SecondTokenOfPartName(fileName, b);
  }

  /** For a file name without a dot every chunk is reported as NaN. */
  lemma DotFreeNameReportsNaN(fileName: string, chunkIndex: string)
    requires '.' !in fileName
    ensures ReportedIndex(PartName(fileName, chunkIndex)) == None
  {
    SecondTokenOfPartName(fileName, chunkIndex);
    ParseIntNoDigit("part");
  }

  // ---------------------------------------------------------------------
  // the intended query

  /** `parseInt` of the piece after the last dot of the entry name. */
  function SuffixIndex(name: string): Option<int> {
    var pieces := Split(name, '.');
    ParseInt(pieces[|pieces| - 1])
  }

  /** The query reading each entry's index from its suffix. */
  function HandleBySuffix(fs: FS, hash: string, listing: seq<string>): (r: (FS, seq<Option<int>>))
    requires HashDir(hash) in fs.dirs ==> IsListing(fs, hash, listing)
    ensures r.0 == fs
    ensures HashDir(hash) !in fs.dirs ==> r.1 == []
    ensures HashDir(hash) in fs.dirs ==> |r.1| == |EntriesIn(fs, hash)| == |listing|
    ensures HashDir(hash) in fs.dirs ==>
      forall k :: 0 <= k < |r.1| ==> Entry(hash, listing[k]) in fs.files && r.1[k] == SuffixIndex(listing[k])
  {
    if HashDir(hash) in fs.dirs then
      ListingLength(fs, hash, listing);
      (fs, seq(|listing|, k requires 0 <= k < |listing| => SuffixIndex(listing[k])))
    else
      (fs, [])
  }

  /** Reading the suffix recovers the index of every chunk merge can use,
      whatever dots the file name holds. */
  lemma SuffixRecoversIndex(fileName: string, i: nat)
    ensures SuffixIndex(PartName(fileName, NumberToString(i))) == Some(i)
  {
    var d := NumberToString(i);
    SplitOfPartName(fileName, d);
    SplitSingle(d, '.');
    ParseIntOfNumber(i);
  }
}
