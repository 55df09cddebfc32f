/** BoxLaunch/SyncDirectoriesAction.cs: the older sync action, which compares
    last-write times only, hands every processor a bucket of the
    size-ordered updates, and skips the copy when there is nothing to copy. */
module LegacySync {
  import opened Base
  import opened Text
  import opened Sorting
  import opened Utils
  import opened FileSystem
  import opened FolderQuery
  import SyncDirectories

  /** GetUpdates' test: the target is missing or its last-write time differs. */
  predicate NeedsCopy(targetDir: Dir, f: FileEntry) {
    !Exists(targetDir, f.name) || f.lastWriteTime != LastWriteTime(targetDir, f.name)
  }

  /** The update for a listed file. The target is `TargetPath + "\\" + name`
      although TargetPath already ends in a separator. */
  function TimedItem(sourcePath: string, targetPath: string, f: FileEntry): UpdateItem {
    UpdateItem(f.name, sourcePath + f.name, targetPath + Separator + f.name, f.length)
  }

  /** The items for every listed file. */
  function AllItems(sourcePath: string, targetPath: string, files: seq<FileEntry>): (r: seq<UpdateItem>)
    ensures |r| == |files|
  {
    if files == [] then []
    else AllItems(sourcePath, targetPath, files[..|files| - 1]) + [TimedItem(sourcePath, targetPath, files[|files| - 1])]
  }

  /** The items GetUpdates collects from the listing, in listing order. */
  function Selected(sourcePath: string, targetPath: string, targetDir: Dir, files: seq<FileEntry>): seq<UpdateItem> {
    if files == [] then []
    else
      var prefix := Selected(sourcePath, targetPath, targetDir, files[..|files| - 1]);
      var f := files[|files| - 1];
      if NeedsCopy(targetDir, f) then prefix + [TimedItem(sourcePath, targetPath, f)] else prefix
  }

  /** For names unique in the listing: a listed file gets an update exactly
      when its target is missing or out of date. */
  lemma {:induction false} SelectedMembers(sourcePath: string, targetPath: string, targetDir: Dir, files: seq<FileEntry>, f: FileEntry)
    requires UniqueNames(files) && f in files
    ensures TimedItem(sourcePath, targetPath, f) in Selected(sourcePath, targetPath, targetDir, files) <==> NeedsCopy(targetDir, f)
  {
    var k := |files| - 1;
    var prefix := files[..k];
    assert UniqueNames(prefix);
    SelectedNames(sourcePath, targetPath, targetDir, prefix);
    if f != files[k] {
      assert f in prefix by {
        var j :| 0 <= j < |files| && files[j] == f;
        assert prefix[j] == f;
      }
      SelectedMembers(sourcePath, targetPath, targetDir, prefix, f);
    } else {
      forall x | x in Selected(sourcePath, targetPath, targetDir, prefix) ensures x.sourceName != f.name {
        var j :| 0 <= j < |prefix| && x == TimedItem(sourcePath, targetPath, prefix[j]) && NeedsCopy(targetDir, prefix[j]);
        assert files[j].name != files[k].name;
      }
    }
  }

  /** Every update comes from a listed file that needs copying, with that
      file's name and length, and its target under the target path. */
  lemma {:induction false} SelectedNames(sourcePath: string, targetPath: string, targetDir: Dir, files: seq<FileEntry>)
    ensures forall x :: x in Selected(sourcePath, targetPath, targetDir, files) ==>
      exists j :: 0 <= j < |files| && x == TimedItem(sourcePath, targetPath, files[j]) && NeedsCopy(targetDir, files[j])
  {
    if files != [] {
      var k := |files| - 1;
      SelectedNames(sourcePath, targetPath, targetDir, files[..k]);
      forall x | x in Selected(sourcePath, targetPath, targetDir, files)
        ensures exists j :: 0 <= j < |files| && x == TimedItem(sourcePath, targetPath, files[j]) && NeedsCopy(targetDir, files[j])
      {
        if x in Selected(sourcePath, targetPath, targetDir, files[..k]) {
          var j :| 0 <= j < k && x == TimedItem(sourcePath, targetPath, files[..k][j]) && NeedsCopy(targetDir, files[..k][j]);
          assert files[j] == files[..k][j];
        } else {
          assert x == TimedItem(sourcePath, targetPath, files[k]);
        }
      }
    }
  }

  /** The updates keep the listing's order: they are a subsequence of the
      items for all listed files. */
  lemma {:induction false} SelectedInListingOrder(sourcePath: string, targetPath: string, targetDir: Dir, files: seq<FileEntry>)
    ensures IsSubsequence(Selected(sourcePath, targetPath, targetDir, files), AllItems(sourcePath, targetPath, files))
  {
    if files != [] {
      var k := |files| - 1;
      SelectedInListingOrder(sourcePath, targetPath, targetDir, files[..k]);
      SubsequenceSnoc(Selected(sourcePath, targetPath, targetDir, files[..k]), AllItems(sourcePath, targetPath, files[..k]), TimedItem(sourcePath, targetPath, files[k]));
    }
  }

  /** With more processors than updates, the surplus workers get nothing. */
  lemma IdleWorkers(u: seq<UpdateItem>, n: nat, b: nat, guid: (int, nat) -> int)
    requires n > 0 && |u| <= b < n
    ensures Shuffle(Bucket(SortBy(u, SyncDirectories.LargerFirst), n, b), b, guid) == []
  {
    var sorted := SortBy(u, SyncDirectories.LargerFirst);
    assert |sorted| == |u| by {
      assert |multiset(sorted)| == |multiset(u)|;
    }
    BucketLength(sorted, n, b);
    DivModUnique(|sorted|, n, 0, |sorted|);
    var bucket := Bucket(sorted, n, b);
    assert bucket == [];
    assert |multiset(Shuffle(bucket, b, guid))| == 0;
  }

  /** What Execute does before the parallel copy. */
  datatype Outcome = InvalidPaths | UpToDate | Distribute(procCount: int, buckets: map<int, seq<UpdateItem>>)

  /** SyncDirectoriesAction: the two paths and directories, and the byte
      counters. */
  class SyncDirectoriesAction {
    var sourcePath: string
    var targetPath: string
    var sourceDir: Dir
    var targetDir: Dir
    var completed: int
    var updateSize: int

    constructor (sourcePath: string, targetPath: string)
      ensures this.sourcePath == sourcePath && this.targetPath == targetPath
      ensures sourceDir == Dir(sourcePath, []) && targetDir == Dir(targetPath, [])
      ensures completed == 0 && updateSize == 0
    {
      this.sourcePath := sourcePath;
      this.targetPath := targetPath;
      sourceDir := Dir(sourcePath, []);
      targetDir := Dir(targetPath, []);
      completed := 0;
      updateSize := 0;
    }

    /** PathsAreValid: appends the separator to each path that lacks it; the
        source directory must exist, and a missing target directory is
        created. Whether each normalised path names a directory, and whether
        creating the target succeeds, are inputs. */
    method PathsAreValid(sourceExists: bool, targetExists: bool, targetCreated: bool) returns (ok: bool)
      modifies this
      ensures sourcePath == EnsureTrailingSeparator(old(sourcePath))
      ensures targetPath == EnsureTrailingSeparator(old(targetPath))
      ensures sourceDir == old(sourceDir) && targetDir == old(targetDir)
      ensures completed == old(completed) && updateSize == old(updateSize)
      ensures ok <==> sourceExists && (targetExists || targetCreated)
    {
      if !EndsWith(sourcePath, Separator) {
        sourcePath := sourcePath + Separator;
      }
      if !EndsWith(targetPath, Separator) {
        targetPath := targetPath + Separator;
      }
      if !sourceExists {
        return false;
      }
      if targetExists {
        return true;
      }
      ok := targetCreated;
    }

    /** GetUpdates: the files of the (filtered) source listing whose target
        is missing or has a different last-write time. */
    method GetUpdates(matches: Matcher) returns (updates: seq<UpdateItem>)
      ensures updates == Selected(sourcePath, targetPath, targetDir, Contents(sourceDir, matches))
    {
      var files := FolderQuery.Execute(sourceDir, matches);
      updates := [];
      var i := 0;
      while i < |files|
        invariant 0 <= i <= |files|
        invariant updates == Selected(sourcePath, targetPath, targetDir, files[..i])
      {
        assert files[..i + 1][..i] == files[..i];
        var sourceFile := files[i];
        if !Exists(targetDir, sourceFile.name) || sourceFile.lastWriteTime != LastWriteTime(targetDir, sourceFile.name) {
          updates := updates + [TimedItem(sourcePath, targetPath, sourceFile)];
        }
        i := i + 1;
      }
      assert files[..i] == files;
    }

    /** SplitUpdates: SplitList's three loops over the updates sorted by
        descending size, always reordering each bucket. */
    static method SplitUpdates(splitCount: int, updates: seq<UpdateItem>, guid: (int, nat) -> int)
        returns (splitUpdates: map<int, seq<UpdateItem>>)
      requires splitCount > 0
      ensures forall b :: b in splitUpdates <==> 0 <= b < splitCount
      ensures forall b :: 0 <= b < splitCount ==>
        splitUpdates[b] == Shuffle(Bucket(SortBy(updates, SyncDirectories.LargerFirst), splitCount, b), b, guid)
    {
      var sorted := SortBy(updates, SyncDirectories.LargerFirst);
      splitUpdates := EmptyBuckets(splitCount);
      splitUpdates := DealRoundRobin(splitUpdates, sorted, splitCount);
      splitUpdates := ShuffleBuckets(splitUpdates, sorted, splitCount, guid);
    }

    /** Execute up to the parallel copy: validates the paths, then reads both
        directories and plans the copy. */
    method PrepareCopy(sourceListing: seq<FileEntry>, targetListing: seq<FileEntry>,
                       sourceExists: bool, targetExists: bool, targetCreated: bool,
                       matches: Matcher, processorCount: int, guid: (int, nat) -> int)
        returns (r: Outcome)
      requires processorCount >= 1
      modifies this
      ensures sourcePath == EnsureTrailingSeparator(old(sourcePath))
      ensures targetPath == EnsureTrailingSeparator(old(targetPath))
      ensures !(sourceExists && (targetExists || targetCreated)) ==>
        && r == InvalidPaths && sourceDir == old(sourceDir) && targetDir == old(targetDir)
        && completed == old(completed) && updateSize == old(updateSize)
      ensures sourceExists && (targetExists || targetCreated) ==>
        && sourceDir == Dir(sourcePath, sourceListing) && targetDir == Dir(targetPath, targetListing)
        && Planned(r, this, matches, processorCount, guid)
    {
      var ok := PathsAreValid(sourceExists, targetExists, targetCreated);
      if !ok {
        return InvalidPaths;
      }
      sourceDir := Dir(sourcePath, sourceListing);
      targetDir := Dir(targetPath, targetListing);
      r := Plan(matches, processorCount, guid);
    }

    /** Execute once the paths are valid and the directories read: totals
        the updates, returns early when the total is zero bytes, and
        otherwise gives every processor a bucket. */
    method Plan(matches: Matcher, processorCount: int, guid: (int, nat) -> int) returns (r: Outcome)
      requires processorCount >= 1
      modifies this
      ensures sourcePath == old(sourcePath) && targetPath == old(targetPath)
      ensures sourceDir == old(sourceDir) && targetDir == old(targetDir)
      ensures Planned(r, this, matches, processorCount, guid)
    {
      var updates := GetUpdates(matches);
      completed := 0;
      updateSize := TotalSize(updates);
      if updateSize == 0 {
        return UpToDate;
      }
      var splitUpdates := SplitUpdates(processorCount, updates, guid);
      r := Distribute(processorCount, splitUpdates);
    }
  }

  /** The state and outcome Execute reaches before copying: counters reset to
      zero and the total of the updates, nothing to do when that total is
      zero, and otherwise one bucket per processor. */
  ghost predicate Planned(r: Outcome, a: SyncDirectoriesAction, matches: Matcher, processorCount: int, guid: (int, nat) -> int)
    reads a
  {
    var u := Selected(a.sourcePath, a.targetPath, a.targetDir, Contents(a.sourceDir, matches));
    && a.completed == 0 && a.updateSize == TotalSize(u)
    && (TotalSize(u) == 0 ==> r == UpToDate)
    && (TotalSize(u) != 0 ==>
          && r.Distribute? && r.procCount == processorCount
          && (forall b :: b in r.buckets <==> 0 <= b < processorCount)
          && forall b :: 0 <= b < processorCount ==>
               r.buckets[b] == Shuffle(Bucket(SortBy(u, SyncDirectories.LargerFirst), processorCount, b), b, guid))
  }
}
