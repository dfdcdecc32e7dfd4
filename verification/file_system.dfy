/** The part of the server's working directory the upload handlers touch,
    as an immutable value: a map from file paths to contents and the set of
    directories that exist.

      uploads/{fileName}                     merged output files
      uploads/chunks/{tempName}              multipart temp files
      uploads/chunks/{fileHash}/{entryName}  stored chunks

    Paths are structured keys, not strings: `path.join` normalisation and
    `..` segments are outside the model. */
module FileSystem {

  newtype byte = x: int | 0 <= x < 256

  type Bytes = seq<byte>

  datatype Path =
    | Output(fileName: string)
    | Temp(tempName: string)
    | Entry(hash: string, entryName: string)

  datatype Dir = ChunksDir | HashDir(hash: string)

  datatype FS = FS(files: map<Path, Bytes>, dirs: set<Dir>)

  /** Every file lives in a directory that exists. */
  predicate Valid(fs: FS) {
    && (forall p :: p in fs.files && p.Entry? ==> HashDir(p.hash) in fs.dirs)
    && (forall p :: p in fs.files && p.Temp? ==> ChunksDir in fs.dirs)
    && (forall d :: d in fs.dirs && d.HashDir? ==> ChunksDir in fs.dirs)
  }

  /** `p` is in both maps with the same contents, or in neither. */
  predicate Agree(a: map<Path, Bytes>, b: map<Path, Bytes>, p: Path) {
    (p in a <==> p in b) && (p in a ==> a[p] == b[p])
  }

  /** Two stores that agree at every path are the same store. */
  lemma AgreeEverywhere(a: map<Path, Bytes>, b: map<Path, Bytes>)
    requires forall p :: Agree(a, b, p)
    ensures a == b
  {
    forall p
      ensures (p in a <==> p in b) && (p in a ==> a[p] == b[p])
    {
      assert Agree(a, b, p);
    }
  }

  /** Names of the entries of `uploads/chunks/{hash}`. */
  function EntriesIn(fs: FS, hash: string): (names: set<string>)
    ensures forall name :: name in names <==> Entry(hash, name) in fs.files
  {
    set p | p in fs.files && p.Entry? && p.hash == hash :: p.entryName
  }

  /** Name of stored chunk `chunkIndex` of `fileName`: `{fileName}.part.{chunkIndex}`. */
  function PartName(fileName: string, chunkIndex: string): string {
    fileName + ".part." + chunkIndex
  }

  /** The file name and the index text can be read back from a part name
      once the file name is known. */
  lemma PartNameInjective(fileName: string, a: string, b: string)
    ensures PartName(fileName, a) == PartName(fileName, b) ==> a == b
  {
    var k := |fileName| + 6;
    if PartName(fileName, a) == PartName(fileName, b) {
      assert PartName(fileName, a)[k..] == a;
      assert PartName(fileName, b)[k..] == b;
    }
  }

  /** `names` is what `readdirSync` may return for `uploads/chunks/{hash}`:
      each entry exactly once, in an order the file system chooses. */
  ghost predicate IsListing(fs: FS, hash: string, names: seq<string>) {
    && (forall i, j :: 0 <= i < j < |names| ==> names[i] != names[j])
    && (forall name :: name in names <==> Entry(hash, name) in fs.files)
  }

  /** `readdirSync(uploads/chunks/{hash})`: some enumeration of the entries. */
  method ReadDir(fs: FS, hash: string) returns (names: seq<string>)
    ensures IsListing(fs, hash, names)
    ensures |names| == |EntriesIn(fs, hash)|
  {
    var left := EntriesIn(fs, hash);
    names := [];
    while left != {}
      invariant forall i, j :: 0 <= i < j < |names| ==> names[i] != names[j]
      invariant forall name :: name in names ==> Entry(hash, name) in fs.files && name !in left
      invariant forall name :: Entry(hash, name) in fs.files ==> name in names || name in left
      invariant left <= EntriesIn(fs, hash)
      invariant |names| + |left| == |EntriesIn(fs, hash)|
      decreases left
    {
      var name :| name in left;
      names := names + [name];
      left := left - {name};
    }
  }

  /** A listing has one element per directory entry. */
  lemma ListingLength(fs: FS, hash: string, names: seq<string>)
    requires IsListing(fs, hash, names)
    ensures |names| == |EntriesIn(fs, hash)|
  {
    DistinctCardinality(names);
    assert (set k | 0 <= k < |names| :: names[k]) == EntriesIn(fs, hash);
  }

  lemma {:induction false} DistinctCardinality(names: seq<string>)
    requires forall i, j :: 0 <= i < j < |names| ==> names[i] != names[j]
    ensures |set k | 0 <= k < |names| :: names[k]| == |names|
  {
    if names != [] {
      var init := names[..|names| - 1];
      DistinctCardinality(init);
      var s := set k | 0 <= k < |init| :: init[k];
      var t := set k | 0 <= k < |names| :: names[k];
      assert t == s + {names[|names| - 1]};
      assert names[|names| - 1] !in s;
    }
  }
}
