/** The file system as the sync engine sees it: directories with an ordered
    listing of files, existence and last-write-time queries, and the change
    record that the change-set calculators produce. */
module FileSystem {
  import opened Base
  import opened Text

  /** What a FileInfo reports about an existing file: its name, its Length in
      bytes, its LastWriteTime, and its contents as read by a StreamReader. */
  datatype FileEntry = FileEntry(name: string, length: nat, lastWriteTime: int, text: string)

  /** A directory: its path as the caller spelled it and its files in
      DirectoryInfo.GetFiles() order. */
  datatype Dir = Dir(path: string, files: seq<FileEntry>)

  /** A ChangeRecord (UpdateItem): the source file's name, the source and
      target paths, and the size in bytes read from the source. */
  datatype UpdateItem = UpdateItem(sourceName: string, source: string, target: string, fileSize: nat)

  const Separator: string := "\\"
  const ManifestName: string := ".blhash"
  const IgnoreName: string := ".blignore"

  /** FileInfo.LastWriteTime of a file that does not exist (1601-01-01,
      expressed in local time); timestamps are otherwise opaque. */
  const MissingFileTime: int := 504911232000000000

  /** Directory names are unique within a listing. */
  predicate UniqueNames(files: seq<FileEntry>) {
    forall i, j :: 0 <= i < j < |files| ==> files[i].name != files[j].name
  }

  /** The file of that exact name in the listing. */
  function Find(files: seq<FileEntry>, name: string): (r: Option<FileEntry>)
    ensures r.Some? <==> exists i :: 0 <= i < |files| && files[i].name == name
    ensures r.Some? ==> r.value in files && r.value.name == name
  {
    if files == [] then None
    else if files[0].name == name then Some(files[0])
    else Find(files[1..], name)
  }

  /** File.Exists / FileInfo.Exists for `dir.path + name`. */
  predicate Exists(d: Dir, name: string) {
    Find(d.files, name).Some?
  }

  /** FileInfo.LastWriteTime for `dir.path + name`. */
  function LastWriteTime(d: Dir, name: string): int {
    match Find(d.files, name)
    case Some(f) => f.lastWriteTime
    case None => MissingFileTime
  }

  /** FileInfo.Length for `dir.path + name`; throws FileNotFoundException when
      the file does not exist. */
  function Length(d: Dir, name: string): (r: Result<nat>)
    ensures r.Ok? <==> Exists(d, name)
  {
    match Find(d.files, name)
    case Some(f) => Ok(f.length)
    case None => Err(FileNotFound)
  }

  /** The text of the directory's `.blhash` manifest, if it has one. */
  function ManifestText(d: Dir): (r: Option<string>)
    ensures r.Some? <==> Exists(d, ManifestName)
  {
    match Find(d.files, ManifestName)
    case Some(f) => Some(f.text)
    case None => None
  }

  /** `if (!path.EndsWith("\\")) path += "\\";` */
  function EnsureTrailingSeparator(path: string): (r: string)
    ensures EndsWith(r, Separator)
    ensures EndsWith(path, Separator) ==> r == path
    ensures !EndsWith(path, Separator) ==> r == path + Separator
  {
    if EndsWith(path, Separator) then path else path + Separator
  }

  /** Normalising a path twice is the same as normalising it once. */
  lemma EnsureTrailingSeparatorIdempotent(path: string)
    ensures EnsureTrailingSeparator(EnsureTrailingSeparator(path)) == EnsureTrailingSeparator(path)
  {
  }

  /** updates.Sum(x => x.FileSize) */
  function TotalSize(updates: seq<UpdateItem>): nat {
    if updates == [] then 0 else TotalSize(updates[..|updates| - 1]) + updates[|updates| - 1].fileSize
  }

  /** Names of the items' source files. */
  function SourceNames(updates: seq<UpdateItem>): (r: seq<string>)
    ensures |r| == |updates| && forall i :: 0 <= i < |r| ==> r[i] == updates[i].sourceName
  {
    if updates == [] then [] else SourceNames(updates[..|updates| - 1]) + [updates[|updates| - 1].sourceName]
  }

  lemma TotalSizeAppend(a: seq<UpdateItem>, b: seq<UpdateItem>)
    ensures TotalSize(a + b) == TotalSize(a) + TotalSize(b)
    decreases |b|
  {
    if b != [] {
      var k := |b| - 1;
      assert (a + b)[..|a + b| - 1] == a + b[..k];
      TotalSizeAppend(a, b[..k]);
    } else {
      assert a + b == a;
    }
  }

  /** The total is zero exactly when every item is empty: a change set of
      zero-length files totals zero bytes. */
  lemma {:induction false} TotalSizeZero(updates: seq<UpdateItem>)
    ensures TotalSize(updates) == 0 <==> forall i :: 0 <= i < |updates| ==> updates[i].fileSize == 0
  {
    if updates != [] {
      var k := |updates| - 1;
      TotalSizeZero(updates[..k]);
      assert forall i :: 0 <= i < k ==> updates[..k][i] == updates[i];
    }
  }

  /** The listing without the file of that name (File.Delete). */
  function RemoveFile(files: seq<FileEntry>, name: string): (r: seq<FileEntry>)
    ensures forall f :: f in r <==> f in files && f.name != name
  {
    if files == [] then []
    else if files[0].name == name then RemoveFile(files[1..], name)
    else [files[0]] + RemoveFile(files[1..], name)
  }

  /** The directory after its file of that name is deleted and another file
      is moved to the same name: the new file is listed last. */
  function ReplaceFile(d: Dir, e: FileEntry): Dir {
    Dir(d.path, RemoveFile(d.files, e.name) + [e])
  }

  lemma {:induction false} FindAppend(a: seq<FileEntry>, b: seq<FileEntry>, n: string)
    ensures Find(a + b, n) == if Find(a, n).Some? then Find(a, n) else Find(b, n)
  {
    if a != [] {
      assert (a + b)[1..] == a[1..] + b;
      FindAppend(a[1..], b, n);
    } else {
      assert a + b == b;
    }
  }

  lemma {:induction false} FindRemoveFile(files: seq<FileEntry>, name: string, n: string)
    requires n != name
    ensures Find(RemoveFile(files, name), n) == Find(files, n)
  {
    if files != [] {
      FindRemoveFile(files[1..], name, n);
    }
  }

  /** After the replacement the name denotes the new file and every other
      name denotes what it did before. */
  lemma ReplaceFileFind(d: Dir, e: FileEntry, n: string)
    ensures Find(ReplaceFile(d, e).files, n) == if n == e.name then Some(e) else Find(d.files, n)
  {
    FindAppend(RemoveFile(d.files, e.name), [e], n);
    if n != e.name {
      FindRemoveFile(d.files, e.name, n);
    } else {
      assert Find(RemoveFile(d.files, e.name), n).None?;
    }
  }
}
