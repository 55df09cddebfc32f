/** BoxLaunch/HashDirectoryAction.cs: hashing every file of a directory and
    writing a fresh `.blhash` manifest, one sorted "name: hash" line per
    file. */
module HashDirectory {
  import opened Base
  import opened Text
  import opened Sorting
  import opened Utils
  import opened FileSystem
  import opened FolderQuery
  import opened Manifest

  /** query.Execute().Where(fi => fi.Name != ".blhash") */
  function Hashable(folder: Dir, matches: Matcher): seq<FileEntry> {
    Keep(Contents(folder, matches), [ManifestName])
  }

  /** The files hashed are the folder query's result less the manifest,
      in listing order. */
  lemma HashableMembers(folder: Dir, matches: Matcher, f: FileEntry)
    ensures f in Hashable(folder, matches) <==> f in Contents(folder, matches) && f.name != ManifestName
  {
    KeepMembers(Contents(folder, matches), [ManifestName]);
  }

  lemma HashableUniqueNames(folder: Dir, matches: Matcher)
    requires UniqueNames(folder.files)
    ensures UniqueNames(Hashable(folder, matches))
  {
    ContentsUniqueNames(folder, matches);
    KeepIsSubsequence(Contents(folder, matches), [ManifestName]);
    SubsequenceUniqueNames(Hashable(folder, matches), Contents(folder, matches));
  }

  /** OrderByDescending(ui => ui.Length) */
  predicate LongerFirst(a: FileEntry, b: FileEntry) {
    a.length >= b.length
  }

  lemma LongerFirstIsTotalPreorder()
    ensures TotalPreorder(LongerFirst)
  {
  }

  /** Bucket b of SplitFiles: the files in descending-length order dealt
      round robin, then reordered by random keys. */
  function SplitBucket(files: seq<FileEntry>, splitCount: nat, guid: (int, nat) -> int, b: nat): seq<FileEntry> {
    if splitCount == 0 then [] else Shuffle(Bucket(SortBy(files, LongerFirst), splitCount, b), b, guid)
  }

  /** SplitFiles: splitCount buckets keyed 0 .. splitCount - 1. */
  method SplitFiles(splitCount: int, files: seq<FileEntry>, guid: (int, nat) -> int)
      returns (splitUpdates: map<int, seq<FileEntry>>)
    requires splitCount > 0
    ensures forall b :: b in splitUpdates <==> 0 <= b < splitCount
    ensures forall b :: 0 <= b < splitCount ==> splitUpdates[b] == SplitBucket(files, splitCount, guid, b)
  {
    var sorted := SortBy(files, LongerFirst);
    splitUpdates := EmptyBuckets(splitCount);
    splitUpdates := DealRoundRobin(splitUpdates, sorted, splitCount);
    splitUpdates := ShuffleBuckets(splitUpdates, sorted, splitCount, guid);
  }

  /** Each bucket is a reordering of its round-robin share. */
  lemma SplitBucketIsReordered(files: seq<FileEntry>, splitCount: nat, guid: (int, nat) -> int)
    requires splitCount > 0
    ensures forall c :: 0 <= c < splitCount ==>
      multiset(SplitBucket(files, splitCount, guid, c)) == multiset(Bucket(SortBy(files, LongerFirst), splitCount, c))
  {
  }

  /** Together the buckets hold exactly the files, each as often as it is
      listed; the k-th longest file is in bucket k mod splitCount. */
  lemma SplitFilesPartition(files: seq<FileEntry>, splitCount: nat, guid: (int, nat) -> int)
    requires splitCount > 0
    ensures UnionOf((c: nat) => SplitBucket(files, splitCount, guid, c), splitCount) == multiset(files)
    ensures var sorted := SortBy(files, LongerFirst);
      forall k :: 0 <= k < |sorted| ==> sorted[k] in SplitBucket(files, splitCount, guid, k % splitCount)
  {
    var sorted := SortBy(files, LongerFirst);
    var f := (c: nat) => SplitBucket(files, splitCount, guid, c);
    SplitBucketIsReordered(files, splitCount, guid);
    UnionOfReordered(f, sorted, splitCount, splitCount);
    BucketsPartition(sorted, splitCount);
    forall k | 0 <= k < |sorted| ensures sorted[k] in SplitBucket(files, splitCount, guid, k % splitCount) {
      ReorderedBucketAt(sorted, splitCount, f, k);
      assert sorted[k] in f(k % splitCount);
    }
  }

  /** A file is listed exactly when some bucket holds it. */
  lemma SplitFilesCover(files: seq<FileEntry>, splitCount: nat, guid: (int, nat) -> int, x: FileEntry)
    requires splitCount > 0
    ensures x in files <==> exists b :: 0 <= b < splitCount && x in SplitBucket(files, splitCount, guid, b)
  {
    var sorted := SortBy(files, LongerFirst);
    var f := (c: nat) => SplitBucket(files, splitCount, guid, c);
    SplitBucketIsReordered(files, splitCount, guid);
    ReorderedBucketsCover(sorted, splitCount, f, x);
    assert x in files <==> x in multiset(sorted);
    if x in files {
      var c :| 0 <= c < splitCount && x in f(c);
      assert x in SplitBucket(files, splitCount, guid, c);
    }
    if exists b :: 0 <= b < splitCount && x in SplitBucket(files, splitCount, guid, b) {
      var b :| 0 <= b < splitCount && x in SplitBucket(files, splitCount, guid, b);
      assert x in f(b);
    }
  }

  /** The names of the files of one bucket. */
  function NamesOf(list: seq<FileEntry>): set<string> {
    set f | f in list :: f.name
  }

  lemma NamesOfSnoc(list: seq<FileEntry>, i: nat)
    requires i < |list|
    ensures NamesOf(list[..i + 1]) == NamesOf(list[..i]) + {list[i].name}
  {
    assert list[..i + 1] == list[..i] + [list[i]];
    forall k | k in NamesOf(list[..i + 1]) ensures k in NamesOf(list[..i]) + {list[i].name} {
      var f :| f in list[..i + 1] && f.name == k;
      assert f in list[..i] || f == list[i];
    }
    assert list[i] in list[..i + 1];
  }

  /** The hashing loops: `hashResults[file.Name] = hash` for each file of
      each bucket, the hash of a file being md5(name). The buckets are taken
      in order here; every write of a name stores the same value, so the
      order the parallel loop runs them in does not change the result. */
  method HashAll(split: map<int, seq<FileEntry>>, splitCount: int, md5: string -> string)
      returns (hashResults: map<string, string>)
    requires forall b :: b in split <==> 0 <= b < splitCount
    ensures forall k :: k in hashResults <==> exists b :: 0 <= b < splitCount && k in NamesOf(split[b])
    ensures forall k :: k in hashResults ==> hashResults[k] == md5(k)
  {
    hashResults := map[];
    var x := 0;
    while x < splitCount
      invariant 0 <= x <= Max(splitCount, 0)
      invariant forall k :: k in hashResults <==> exists b :: 0 <= b < x && k in NamesOf(split[b])
      invariant forall k :: k in hashResults ==> hashResults[k] == md5(k)
    {
      var list := split[x];
      var i := 0;
      ghost var before := hashResults;
      while i < |list|
        invariant 0 <= i <= |list|
        invariant forall k :: k in hashResults <==> k in before || k in NamesOf(list[..i])
        invariant forall k :: k in hashResults ==> hashResults[k] == md5(k)
      {
        NamesOfSnoc(list, i);
        hashResults := hashResults[list[i].name := md5(list[i].name)];
        i := i + 1;
      }
      assert list[..i] == list;
      x := x + 1;
    }
  }

  /** The manifest's entries: each file with its hash. The ensures only
      unfolds Map pointwise for the proofs below; what the entries are is
      stated by EntriesMembers. */
  function Entries(files: seq<FileEntry>, md5: string -> string): (r: seq<FileHash>)
    ensures |r| == |files| && forall i :: 0 <= i < |files| ==> r[i] == FileHash(files[i].name, md5(files[i].name))
  {
    Map(files, (f: FileEntry) => FileHash(f.name, md5(f.name)))
  }

  /** The manifest's path as written: HashPath + ".blhash", with no
      separator in between. */
  function ManifestPath(hashPath: string): string {
    hashPath + ManifestName
  }

  /** Given the directory "C:\app" without a trailing separator the manifest
      is written beside the directory, as "C:\app.blhash", where no reader
      looks for it. */
  lemma ManifestPathOutsideDirectory()
    ensures ManifestPath("C:\\app") == "C:\\app.blhash"
    ensures !StartsWith(ManifestPath("C:\\app"), EnsureTrailingSeparator("C:\\app"))
  {
    var p := "C:\\app";
    assert |Separator| == 1 && p[|p| - |Separator| + 0] != Separator[0];
    var dir := p + Separator;
    assert EnsureTrailingSeparator(p) == dir;
    var m := ManifestPath(p);
    assert m[6] == '.' && dir[6] == '\\';
  }

  /** The evidently intended path: the manifest inside the directory. */
  function ManifestPathInside(hashPath: string): string {
    EnsureTrailingSeparator(hashPath) + ManifestName
  }

  /** The corrected path lies in the directory however it is spelled, and is
      the path the other actions read the manifest from. */
  lemma ManifestPathInsideDirectory(hashPath: string)
    ensures var dir := EnsureTrailingSeparator(hashPath);
      && StartsWith(ManifestPathInside(hashPath), dir)
      && ManifestPathInside(hashPath)[|dir|..] == ManifestName
      && ManifestPathInside(dir) == ManifestPathInside(hashPath)
  {
    var dir := EnsureTrailingSeparator(hashPath);
    assert (dir + ManifestName)[..|dir|] == dir;
    EnsureTrailingSeparatorIdempotent(hashPath);
  }

  /** After the hashing loops every file's name maps to its hash. */
  lemma ResultsCoverFiles(files: seq<FileEntry>, splitCount: int, guid: (int, nat) -> int, md5: string -> string,
                          split: map<int, seq<FileEntry>>, hashResults: map<string, string>)
    requires splitCount > 0
    requires forall b :: 0 <= b < splitCount ==> b in split && split[b] == SplitBucket(files, splitCount, guid, b)
    requires forall k :: (exists b :: 0 <= b < splitCount && k in NamesOf(split[b])) ==> k in hashResults
    requires forall k :: k in hashResults ==> hashResults[k] == md5(k)
    ensures forall f :: f in files ==> f.name in hashResults && hashResults[f.name] == md5(f.name)
  {
    forall f | f in files ensures f.name in hashResults {
      SplitFilesCover(files, splitCount, guid, f);
      var b :| 0 <= b < splitCount && f in SplitBucket(files, splitCount, guid, b);
      assert f.name in NamesOf(split[b]);
    }
  }

  /** The writer loop: `name: hash` and a line break per entry. */
  method WriteManifest(sorted: seq<FileHash>) returns (text: string)
    ensures text == JoinLines(Map(sorted, FormatLine))
  {
    text := "";
    var i := 0;
    while i < |sorted|
      invariant 0 <= i <= |sorted|
      invariant text == JoinLines(Map(sorted[..i], FormatLine))
    {
      MapSnoc(sorted[..i], sorted[i], FormatLine);
      assert sorted[..i + 1] == sorted[..i] + [sorted[i]];
      JoinLinesSnoc(Map(sorted[..i], FormatLine), FormatLine(sorted[i]));
      text := text + FormatLine(sorted[i]) + NewLine;
      i := i + 1;
    }
    assert sorted[..i] == sorted;
  }

  /** HashDirectoryAction: the path given on the command line and the
      directory it names. */
  class HashDirectoryAction {
    var hashPath: string
    var folder: Dir

    constructor (hashPath: string, folder: Dir)
      ensures this.hashPath == hashPath && this.folder == folder
    {
      this.hashPath := hashPath;
      this.folder := folder;
    }

    /** Execute: queries the files, hashes them bucket by bucket, writes one
        line per result sorted by name into a temporary file and moves it to
        HashPath + ".blhash" (inside the directory only when the path ends in
        a separator), stamped with the time `now`. */
    method Execute(matches: Matcher, processorCount: int, guid: (int, nat) -> int, md5: string -> string, now: int)
        returns (r: bool)
      requires processorCount >= 1
      requires UniqueNames(folder.files)
      modifies this
      ensures r && hashPath == old(hashPath)
      ensures var text := SaveText(Entries(Hashable(old(folder), matches), md5));
        folder == if EndsWith(hashPath, Separator) then ReplaceFile(old(folder), FileEntry(ManifestName, |text|, now, text))
                  else old(folder)
    {
      var all := FolderQuery.Execute(folder, matches);
      var files := Keep(all, [ManifestName]);
      var split := SplitFiles(processorCount, files, guid);
      var hashResults := HashAll(split, processorCount, md5);
      ResultsCoverFiles(files, processorCount, guid, md5, split, hashResults);
      var h := hashResults;
      var entries := Map(files, (f: FileEntry) => FileHash(f.name, if f.name in h then h[f.name] else ""));
      assert entries == Entries(files, md5);
      var text := WriteManifest(SortBy(entries, ByName));
      if EndsWith(hashPath, Separator) {
        folder := ReplaceFile(folder, FileEntry(ManifestName, |text|, now, text));
      }
      r := true;
    }
  }

  /** One result per name: when the directory names every file once, the
      manifest has one entry per hashed file. */
  lemma EntriesUniqueNames(folder: Dir, matches: Matcher, md5: string -> string)
    requires UniqueNames(folder.files)
    ensures var hs := Entries(Hashable(folder, matches), md5);
      forall i, j :: 0 <= i < j < |hs| ==> hs[i].fileName != hs[j].fileName
  {
    HashableUniqueNames(folder, matches);
  }

  lemma EntriesMembers(files: seq<FileEntry>, md5: string -> string, e: FileHash)
    ensures e in Entries(files, md5) <==> exists f :: f in files && e == FileHash(f.name, md5(f.name))
  {
    var hs := Entries(files, md5);
    if e in hs {
      var i :| 0 <= i < |hs| && hs[i] == e;
      assert files[i] in files;
    }
    if exists f :: f in files && e == FileHash(f.name, md5(f.name)) {
      var f :| f in files && e == FileHash(f.name, md5(f.name));
      var i :| 0 <= i < |files| && files[i] == f;
      assert hs[i] == e;
    }
  }

  /** The new manifest replaces the old one wholesale: read back, it holds
      exactly the hashed files, each with its hash, sorted by name, and no
      entry of the old manifest survives unless its file was hashed again. */
  lemma WrittenManifestReadsBack(folder: Dir, matches: Matcher, md5: string -> string, e: FileHash)
    requires forall f :: f in folder.files ==> WellFormed(FileHash(f.name, md5(f.name)))
    ensures var files := Hashable(folder, matches);
            var read := ParseManifest(SaveText(Entries(files, md5)));
      && read == SortBy(Entries(files, md5), ByName)
      && SortedBy(read, ByName)
      && (e in read <==> exists f :: f in files && e == FileHash(f.name, md5(f.name)))
  {
    var files := Hashable(folder, matches);
    var hs := Entries(files, md5);
    forall i | 0 <= i < |hs| ensures WellFormed(hs[i]) {
      HashableMembers(folder, matches, files[i]);
      ContentsMembers(folder, matches, files[i]);
    }
    LoadSave(hs);
    ByNameIsTotalPreorder();
    SortBySorted(hs, ByName);
    EntriesMembers(files, md5, e);
    assert e in SortBy(hs, ByName) <==> e in multiset(hs);
  }
}
