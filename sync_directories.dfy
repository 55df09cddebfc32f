/** BoxLaunch/Actions/SyncDirectoriesAction.cs: the change set that brings a
    target directory up to date with a source directory (by manifest hashes
    when the source has a `.blhash`, by last-write times otherwise), and the
    preparation of the parallel copy. */
module SyncDirectories {
  import opened Base
  import opened Sorting
  import opened Utils
  import opened FileSystem
  import opened FolderQuery
  import opened Manifest

  /** The entries of a `new HashCache(dir + ".blhash")`. */
  function LoadedManifest(d: Dir): seq<FileHash> {
    match ManifestText(d)
    case Some(t) => ParseManifest(t)
    case None => []
  }

  /** buildUpdateItem(fileName): reading the source's Length throws
      FileNotFoundException when the file is not in the source directory. */
  function BuildItem(sourcePath: string, targetPath: string, sourceDir: Dir, name: string): (r: Result<UpdateItem>)
    ensures r.Ok? <==> Exists(sourceDir, name)
    ensures r.Err? ==> r.error == FileNotFound
    ensures r.Ok? ==> && r.value.sourceName == name && r.value.target == targetPath + name
                      && r.value.fileSize == Find(sourceDir.files, name).value.length
  {
    match Length(sourceDir, name)
    case Ok(len) => Ok(UpdateItem(name, sourcePath + name, targetPath + name, len))
    case Err(e) => Err(e)
  }

  /** The update for a file of the directory listing. */
  function FileItem(sourcePath: string, targetPath: string, f: FileEntry): UpdateItem {
    UpdateItem(f.name, sourcePath + f.name, targetPath + f.name, f.length)
  }

  /** The foreach over the differences: one item per entry, in order. */
  function HashItems(sourcePath: string, targetPath: string, sourceDir: Dir, diffs: seq<FileHash>): (r: Result<seq<UpdateItem>>)
    ensures r.Err? ==> r.error == FileNotFound
  {
    if diffs == [] then Ok([])
    else
      var items :- HashItems(sourcePath, targetPath, sourceDir, diffs[..|diffs| - 1]);
      var item :- BuildItem(sourcePath, targetPath, sourceDir, diffs[|diffs| - 1].fileName);
      Ok(items + [item])
  }

  /** One turn of AddMissingFiles' loop. */
  function MissingStep(sourcePath: string, targetPath: string, targetDir: Dir, list: seq<UpdateItem>, f: FileEntry): seq<UpdateItem> {
    if !Exists(targetDir, f.name) && f.name !in SourceNames(list) then list + [FileItem(sourcePath, targetPath, f)]
    else list
  }

  /** AddMissingFiles over the given listing. */
  function AddMissing(sourcePath: string, targetPath: string, targetDir: Dir, list: seq<UpdateItem>, files: seq<FileEntry>): seq<UpdateItem> {
    if files == [] then list
    else MissingStep(sourcePath, targetPath, targetDir, AddMissing(sourcePath, targetPath, targetDir, list, files[..|files| - 1]), files[|files| - 1])
  }

  /** The date comparison of UpdatesFromDates. */
  predicate DateChanged(targetDir: Dir, f: FileEntry) {
    f.lastWriteTime != LastWriteTime(targetDir, f.name)
  }

  /** UpdatesFromDates before AddMissingFiles: the listed files whose time
      differs from the target's, in listing order. */
  function DateItems(sourcePath: string, targetPath: string, targetDir: Dir, files: seq<FileEntry>): seq<UpdateItem> {
    if files == [] then []
    else
      var prefix := DateItems(sourcePath, targetPath, targetDir, files[..|files| - 1]);
      var f := files[|files| - 1];
      if DateChanged(targetDir, f) then prefix + [FileItem(sourcePath, targetPath, f)] else prefix
  }

  /** UpdatesFromHash as a function of the two directories. */
  function FromHash(sourcePath: string, targetPath: string, sourceDir: Dir, targetDir: Dir, matches: Matcher): Result<seq<UpdateItem>> {
    var diffs := Differences(LoadedManifest(sourceDir), LoadedManifest(targetDir));
    var items :- HashItems(sourcePath, targetPath, sourceDir, diffs);
    var withManifest :- WithManifestItem(sourcePath, targetPath, sourceDir, items);
    Ok(AddMissing(sourcePath, targetPath, targetDir, withManifest, Contents(sourceDir, matches)))
  }

  /** HashCache.Differences between the two directories' manifests. */
  function ManifestDifferences(sourceDir: Dir, targetDir: Dir): seq<FileHash> {
    Differences(LoadedManifest(sourceDir), LoadedManifest(targetDir))
  }

  /** `if (updates.Count > 0) updates.Add(buildUpdateItem(".blhash"));` */
  function WithManifestItem(sourcePath: string, targetPath: string, sourceDir: Dir, items: seq<UpdateItem>): (r: Result<seq<UpdateItem>>)
    ensures items == [] ==> r == Ok([])
    ensures items != [] && Exists(sourceDir, ManifestName) ==> r == Ok(items + [BuildItem(sourcePath, targetPath, sourceDir, ManifestName).value])
  {
    if |items| > 0 then
      var m :- BuildItem(sourcePath, targetPath, sourceDir, ManifestName);
      Ok(items + [m])
    else Ok(items)
  }

  /** UpdatesFromDates as a function of the two directories. */
  function FromDates(sourcePath: string, targetPath: string, sourceDir: Dir, targetDir: Dir, matches: Matcher): seq<UpdateItem> {
    var files := Contents(sourceDir, matches);
    AddMissing(sourcePath, targetPath, targetDir, DateItems(sourcePath, targetPath, targetDir, files), files)
  }

  /** GetUpdates as a function of the two directories. */
  function Updates(sourcePath: string, targetPath: string, sourceDir: Dir, targetDir: Dir, matches: Matcher): Result<seq<UpdateItem>> {
    if Exists(sourceDir, ManifestName) then FromHash(sourcePath, targetPath, sourceDir, targetDir, matches)
    else Ok(FromDates(sourcePath, targetPath, sourceDir, targetDir, matches))
  }

  /** OrderByDescending(ui => ui.FileSize) */
  predicate LargerFirst(a: UpdateItem, b: UpdateItem) {
    a.fileSize >= b.fileSize
  }

  /** What Execute does once the change set is known: nothing to do, or the
      number of workers and the buckets they are handed. */
  datatype CopyPlan = UpToDate | Distribute(procCount: int, buckets: map<int, seq<UpdateItem>>)

  // ---------------------------------------------------------------------
  // Properties

  /** One item per difference, in order, for as long as every differing
      name is a file of the source; otherwise FileNotFoundException. */
  lemma {:induction false} HashItemsOnePerDifference(sourcePath: string, targetPath: string, sourceDir: Dir, diffs: seq<FileHash>)
    ensures HashItems(sourcePath, targetPath, sourceDir, diffs).Ok?
        <==> forall i :: 0 <= i < |diffs| ==> Exists(sourceDir, diffs[i].fileName)
    ensures HashItems(sourcePath, targetPath, sourceDir, diffs).Ok? ==>
      var items := HashItems(sourcePath, targetPath, sourceDir, diffs).value;
      && |items| == |diffs|
      && forall i :: 0 <= i < |diffs| ==> items[i] == BuildItem(sourcePath, targetPath, sourceDir, diffs[i].fileName).value
  {
    if diffs != [] {
      var k := |diffs| - 1;
      HashItemsOnePerDifference(sourcePath, targetPath, sourceDir, diffs[..k]);
      assert forall i :: 0 <= i < k ==> diffs[..k][i] == diffs[i];
    }
  }

  /** AddMissingFiles only appends: its input is a prefix of its output. */
  lemma {:induction false} AddMissingKeepsPrefix(sourcePath: string, targetPath: string, targetDir: Dir, list: seq<UpdateItem>, files: seq<FileEntry>)
    ensures list <= AddMissing(sourcePath, targetPath, targetDir, list, files)
  {
    if files != [] {
      AddMissingKeepsPrefix(sourcePath, targetPath, targetDir, list, files[..|files| - 1]);
    }
  }

  /** Every appended item is a listed file that the target lacks, under a
      name no earlier item has. */
  lemma {:induction false} AddMissingAppendsOnlyMissing(sourcePath: string, targetPath: string, targetDir: Dir, list: seq<UpdateItem>, files: seq<FileEntry>)
    ensures var r := AddMissing(sourcePath, targetPath, targetDir, list, files);
      forall i :: |list| <= i < |r| ==>
        && !Exists(targetDir, r[i].sourceName)
        && r[i].sourceName !in SourceNames(r[..i])
        && exists f :: f in files && r[i] == FileItem(sourcePath, targetPath, f)
  {
    if files != [] {
      var k := |files| - 1;
      var before := AddMissing(sourcePath, targetPath, targetDir, list, files[..k]);
      var r := AddMissing(sourcePath, targetPath, targetDir, list, files);
      AddMissingAppendsOnlyMissing(sourcePath, targetPath, targetDir, list, files[..k]);
      AddMissingKeepsPrefix(sourcePath, targetPath, targetDir, list, files[..k]);
      forall i | |list| <= i < |r|
        ensures && !Exists(targetDir, r[i].sourceName)
                && r[i].sourceName !in SourceNames(r[..i])
                && exists f :: f in files && r[i] == FileItem(sourcePath, targetPath, f)
      {
        if i < |before| {
          assert r[..i] == before[..i];
          var f :| f in files[..k] && before[i] == FileItem(sourcePath, targetPath, f);
          assert f in files;
        } else {
          assert r[..i] == before;
          assert files[k] in files;
        }
      }
    }
  }

  /** Completeness: every listed file the target lacks has an update under
      its name afterwards. */
  lemma {:induction false} AddMissingComplete(sourcePath: string, targetPath: string, targetDir: Dir, list: seq<UpdateItem>, files: seq<FileEntry>)
    ensures forall f :: f in files && !Exists(targetDir, f.name) ==> f.name in SourceNames(AddMissing(sourcePath, targetPath, targetDir, list, files))
  {
    if files != [] {
      var k := |files| - 1;
      var before := AddMissing(sourcePath, targetPath, targetDir, list, files[..k]);
      var r := AddMissing(sourcePath, targetPath, targetDir, list, files);
      AddMissingComplete(sourcePath, targetPath, targetDir, list, files[..k]);
      assert before <= r by {
        assert r == MissingStep(sourcePath, targetPath, targetDir, before, files[k]);
      }
      forall f | f in files && !Exists(targetDir, f.name) ensures f.name in SourceNames(r) {
        if f in files[..k] {
          var j :| 0 <= j < |before| && SourceNames(before)[j] == f.name;
          assert SourceNames(r)[j] == f.name;
        } else {
          assert f == files[k];
          if f.name !in SourceNames(before) {
            assert SourceNames(r)[|before|] == f.name;
          } else {
            var j :| 0 <= j < |before| && SourceNames(before)[j] == f.name;
            assert SourceNames(r)[j] == f.name;
          }
        }
      }
    }
  }

  /** The date strategy picks exactly the listed files whose time differs
      from the target file's (a missing target counts as 1601-01-01). */
  lemma {:induction false} DateItemsMembers(sourcePath: string, targetPath: string, targetDir: Dir, files: seq<FileEntry>, f: FileEntry)
    requires UniqueNames(files)
    ensures f in files ==> (FileItem(sourcePath, targetPath, f) in DateItems(sourcePath, targetPath, targetDir, files) <==> DateChanged(targetDir, f))
  {
    if files != [] {
      var k := |files| - 1;
      assert UniqueNames(files[..k]);
      DateItemsMembers(sourcePath, targetPath, targetDir, files[..k], f);
      DateItemsNames(sourcePath, targetPath, targetDir, files[..k]);
      if f != files[k] && f in files {
        assert f in files[..k] by {
          var j :| 0 <= j < |files| && files[j] == f;
          assert j < k;
          assert files[..k][j] == f;
        }
      }
    }
  }

  /** Every date item comes from a listed file whose time differs. */
  lemma {:induction false} DateItemsNames(sourcePath: string, targetPath: string, targetDir: Dir, files: seq<FileEntry>)
    ensures forall x :: x in DateItems(sourcePath, targetPath, targetDir, files) ==>
      exists j :: && 0 <= j < |files| && x == FileItem(sourcePath, targetPath, files[j]) && files[j].name == x.sourceName
                  && DateChanged(targetDir, files[j])
  {
    if files != [] {
      var k := |files| - 1;
      DateItemsNames(sourcePath, targetPath, targetDir, files[..k]);
      forall x | x in DateItems(sourcePath, targetPath, targetDir, files)
        ensures exists j :: && 0 <= j < |files| && x == FileItem(sourcePath, targetPath, files[j]) && files[j].name == x.sourceName
                            && DateChanged(targetDir, files[j])
      {
        if x in DateItems(sourcePath, targetPath, targetDir, files[..k]) {
          var j :| && 0 <= j < k && x == FileItem(sourcePath, targetPath, files[..k][j]) && files[..k][j].name == x.sourceName
                   && DateChanged(targetDir, files[..k][j]);
          assert files[j] == files[..k][j];
        } else {
          assert x == FileItem(sourcePath, targetPath, files[k]);
        }
      }
    }
  }

  /** In the hash strategy the output starts with one item per difference,
      then, when there was at least one, the `.blhash` item; AddMissingFiles
      appends after that. */
  lemma FromHashLayout(sourcePath: string, targetPath: string, sourceDir: Dir, targetDir: Dir, matches: Matcher)
    requires Exists(sourceDir, ManifestName)
    requires var diffs := Differences(LoadedManifest(sourceDir), LoadedManifest(targetDir));
             forall i :: 0 <= i < |diffs| ==> Exists(sourceDir, diffs[i].fileName)
    ensures var diffs := Differences(LoadedManifest(sourceDir), LoadedManifest(targetDir));
            var r := FromHash(sourcePath, targetPath, sourceDir, targetDir, matches);
            && r.Ok?
            && |diffs| + (if diffs == [] then 0 else 1) <= |r.value|
            && (forall i :: 0 <= i < |diffs| ==> r.value[i] == BuildItem(sourcePath, targetPath, sourceDir, diffs[i].fileName).value)
            && (diffs != [] ==> r.value[|diffs|] == BuildItem(sourcePath, targetPath, sourceDir, ManifestName).value)
  {
    var diffs := Differences(LoadedManifest(sourceDir), LoadedManifest(targetDir));
    HashItemsOnePerDifference(sourcePath, targetPath, sourceDir, diffs);
    var items := HashItems(sourcePath, targetPath, sourceDir, diffs).value;
    var withManifest := WithManifestItem(sourcePath, targetPath, sourceDir, items).value;
    AddMissingKeepsPrefix(sourcePath, targetPath, targetDir, withManifest, Contents(sourceDir, matches));
  }

  /** Without a source manifest, a differing time is enough to be copied,
      and so is a missing target. */
  lemma FromDatesCoversChanges(sourcePath: string, targetPath: string, sourceDir: Dir, targetDir: Dir, matches: Matcher, f: FileEntry)
    requires UniqueNames(Contents(sourceDir, matches))
    requires f in Contents(sourceDir, matches) && DateChanged(targetDir, f)
    ensures FileItem(sourcePath, targetPath, f) in FromDates(sourcePath, targetPath, sourceDir, targetDir, matches)
  {
    var files := Contents(sourceDir, matches);
    var dates := DateItems(sourcePath, targetPath, targetDir, files);
    DateItemsMembers(sourcePath, targetPath, targetDir, files, f);
    AddMissingKeepsPrefix(sourcePath, targetPath, targetDir, dates, files);
    var i :| 0 <= i < |dates| && dates[i] == FileItem(sourcePath, targetPath, f);
    assert FromDates(sourcePath, targetPath, sourceDir, targetDir, matches)[i] == dates[i];
  }

  /** GetUpdates with a source manifest: it fails with FileNotFoundException
      exactly when a differing name is not a file of the source; otherwise
      the updates start with one item per difference, in order, then the
      `.blhash` item when there was any difference, and every later item is
      a listed file that the target lacks. */
  lemma HashStrategyLayout(sourcePath: string, targetPath: string, sourceDir: Dir, targetDir: Dir, matches: Matcher)
    requires Exists(sourceDir, ManifestName)
    ensures Updates(sourcePath, targetPath, sourceDir, targetDir, matches).Ok?
            <==> forall i :: 0 <= i < |ManifestDifferences(sourceDir, targetDir)| ==> Exists(sourceDir, ManifestDifferences(sourceDir, targetDir)[i].fileName)
    ensures Updates(sourcePath, targetPath, sourceDir, targetDir, matches).Err? ==>
            Updates(sourcePath, targetPath, sourceDir, targetDir, matches).error == FileNotFound
    ensures var diffs := ManifestDifferences(sourceDir, targetDir);
            var r := Updates(sourcePath, targetPath, sourceDir, targetDir, matches);
            var head := |diffs| + (if diffs == [] then 0 else 1);
            r.Ok? ==>
              && head <= |r.value|
              && (forall i :: 0 <= i < |diffs| ==> r.value[i].sourceName == diffs[i].fileName)
              && (diffs != [] ==> r.value[|diffs|].sourceName == ManifestName)
              && (forall i :: head <= i < |r.value| ==>
                    && !Exists(targetDir, r.value[i].sourceName)
                    && exists f :: f in Contents(sourceDir, matches) && r.value[i] == FileItem(sourcePath, targetPath, f))
  {
    var diffs := ManifestDifferences(sourceDir, targetDir);
    HashItemsOnePerDifference(sourcePath, targetPath, sourceDir, diffs);
    if forall i :: 0 <= i < |diffs| ==> Exists(sourceDir, diffs[i].fileName) {
      var files := Contents(sourceDir, matches);
      var items := HashItems(sourcePath, targetPath, sourceDir, diffs).value;
      var withManifest := WithManifestItem(sourcePath, targetPath, sourceDir, items).value;
      var r := AddMissing(sourcePath, targetPath, targetDir, withManifest, files);
      assert Updates(sourcePath, targetPath, sourceDir, targetDir, matches) == Ok(r);
      var head := |diffs| + (if diffs == [] then 0 else 1);
      assert |withManifest| == head;
      AddMissingKeepsPrefix(sourcePath, targetPath, targetDir, withManifest, files);
      AddMissingAppendsOnlyMissing(sourcePath, targetPath, targetDir, withManifest, files);
      forall i | 0 <= i < |diffs| ensures r[i].sourceName == diffs[i].fileName {
        assert r[i] == withManifest[i] == items[i];
      }
      if diffs != [] {
        assert r[|diffs|] == withManifest[|diffs|] == BuildItem(sourcePath, targetPath, sourceDir, ManifestName).value;
      }
    } else {
      var k :| 0 <= k < |diffs| && !Exists(sourceDir, diffs[k].fileName);
      assert HashItems(sourcePath, targetPath, sourceDir, diffs).Err?;
      assert !Updates(sourcePath, targetPath, sourceDir, targetDir, matches).Ok?;
    }
  }

  /** GetUpdates without a source manifest never fails, and every update is a
      listed file whose target is missing or has another last-write time. */
  lemma DateStrategySound(sourcePath: string, targetPath: string, sourceDir: Dir, targetDir: Dir, matches: Matcher)
    requires !Exists(sourceDir, ManifestName)
    ensures Updates(sourcePath, targetPath, sourceDir, targetDir, matches).Ok?
    ensures forall x :: x in Updates(sourcePath, targetPath, sourceDir, targetDir, matches).value ==>
      exists f :: && f in Contents(sourceDir, matches) && x == FileItem(sourcePath, targetPath, f)
                  && (DateChanged(targetDir, f) || !Exists(targetDir, f.name))
  {
    var files := Contents(sourceDir, matches);
    var dates := DateItems(sourcePath, targetPath, targetDir, files);
    var r := FromDates(sourcePath, targetPath, sourceDir, targetDir, matches);
    DateItemsNames(sourcePath, targetPath, targetDir, files);
    AddMissingKeepsPrefix(sourcePath, targetPath, targetDir, dates, files);
    AddMissingAppendsOnlyMissing(sourcePath, targetPath, targetDir, dates, files);
    forall x | x in r
      ensures exists f :: && f in files && x == FileItem(sourcePath, targetPath, f)
                          && (DateChanged(targetDir, f) || !Exists(targetDir, f.name))
    {
      var i :| 0 <= i < |r| && r[i] == x;
      if i < |dates| {
        assert x in dates by { assert dates[i] == r[i]; }
        var j :| && 0 <= j < |files| && x == FileItem(sourcePath, targetPath, files[j]) && files[j].name == x.sourceName
                 && DateChanged(targetDir, files[j]);
        assert files[j] in files;
      } else {
        var f :| f in files && r[i] == FileItem(sourcePath, targetPath, f);
        assert f.name == x.sourceName;
      }
    }
  }

  /** GetUpdates without a source manifest covers every listed file whose
      target is missing or has another last-write time. */
  lemma DateStrategyComplete(sourcePath: string, targetPath: string, sourceDir: Dir, targetDir: Dir, matches: Matcher, f: FileEntry)
    requires !Exists(sourceDir, ManifestName)
    requires UniqueNames(Contents(sourceDir, matches)) && f in Contents(sourceDir, matches)
    requires DateChanged(targetDir, f) || !Exists(targetDir, f.name)
    ensures f.name in SourceNames(Updates(sourcePath, targetPath, sourceDir, targetDir, matches).value)
  {
    var files := Contents(sourceDir, matches);
    var r := FromDates(sourcePath, targetPath, sourceDir, targetDir, matches);
    if DateChanged(targetDir, f) {
      FromDatesCoversChanges(sourcePath, targetPath, sourceDir, targetDir, matches, f);
      var i :| 0 <= i < |r| && r[i] == FileItem(sourcePath, targetPath, f);
      assert SourceNames(r)[i] == f.name;
    } else {
      AddMissingComplete(sourcePath, targetPath, targetDir, DateItems(sourcePath, targetPath, targetDir, files), files);
    }
  }

  lemma LargerFirstIsTotalPreorder()
    ensures TotalPreorder(LargerFirst)
  {
  }

  // ---------------------------------------------------------------------
  // The action

  /** Actions.SyncDirectoriesAction: the two paths (each expected to end in
      a separator), the two directories they name, and the byte counters. */
  class SyncDirectoriesAction {
    var sourcePath: string
    var targetPath: string
    var sourceDir: Dir
    var targetDir: Dir
    var completed: int
    var updateSize: int

    constructor (sourcePath: string, targetPath: string, sourceDir: Dir, targetDir: Dir)
      ensures this.sourcePath == sourcePath && this.targetPath == targetPath
      ensures this.sourceDir == sourceDir && this.targetDir == targetDir
      ensures completed == 0 && updateSize == 0
    {
      this.sourcePath := sourcePath;
      this.targetPath := targetPath;
      this.sourceDir := sourceDir;
      this.targetDir := targetDir;
      completed := 0;
      updateSize := 0;
    }

    /** GetUpdates: by hashes when the source has a manifest, else by dates. */
    method GetUpdates(matches: Matcher) returns (r: Result<seq<UpdateItem>>)
      ensures r == Updates(sourcePath, targetPath, sourceDir, targetDir, matches)
    {
      if Exists(sourceDir, ManifestName) {
        r := UpdatesFromHash(matches);
      } else {
        var updates := UpdatesFromDates(matches);
        r := Ok(updates);
      }
    }

    /** UpdatesFromHash: loads both manifests, adds an item per difference and
        the manifest itself when anything differs, then the missing files. */
    method UpdatesFromHash(matches: Matcher) returns (r: Result<seq<UpdateItem>>)
      ensures r == FromHash(sourcePath, targetPath, sourceDir, targetDir, matches)
    {
      var sourceHashCache := new HashCache(ManifestText(sourceDir));
      var targetHashCache := new HashCache(ManifestText(targetDir));
      var diffs := Differences(sourceHashCache.hashes, targetHashCache.hashes);
      var items := DifferenceItems(diffs);
      if items.Err? {
        return Err(items.error);
      }
      var updates := items.value;
      if |updates| > 0 {
        // A difference means the source manifest was read, so it exists.
        var m := BuildItem(sourcePath, targetPath, sourceDir, ManifestName);
        assert m.Ok?;
        updates := updates + [m.value];
      }
      updates := AddMissingFiles(updates, matches);
      r := Ok(updates);
    }

    /** The foreach over the differences: one item per entry, stopping at
        the first name the source directory lacks. */
    method DifferenceItems(diffs: seq<FileHash>) returns (r: Result<seq<UpdateItem>>)
      ensures r == HashItems(sourcePath, targetPath, sourceDir, diffs)
    {
      var updates: seq<UpdateItem> := [];
      var i := 0;
      while i < |diffs|
        invariant 0 <= i <= |diffs|
        invariant HashItems(sourcePath, targetPath, sourceDir, diffs[..i]) == Ok(updates)
      {
        assert diffs[..i + 1][..i] == diffs[..i];
        var item := BuildItem(sourcePath, targetPath, sourceDir, diffs[i].fileName);
        if item.Err? {
          HashItemsOnePerDifference(sourcePath, targetPath, sourceDir, diffs);
          return Err(FileNotFound);
        }
        updates := updates + [item.value];
        i := i + 1;
      }
      assert diffs[..i] == diffs;
      r := Ok(updates);
    }

    /** AddMissingFiles: appends every listed source file that the target
        lacks and that no item names yet. */
    method AddMissingFiles(list: seq<UpdateItem>, matches: Matcher) returns (r: seq<UpdateItem>)
      ensures r == AddMissing(sourcePath, targetPath, targetDir, list, Contents(sourceDir, matches))
    {
      var files := FolderQuery.Execute(sourceDir, matches);
      r := list;
      var i := 0;
      while i < |files|
        invariant 0 <= i <= |files|
        invariant r == AddMissing(sourcePath, targetPath, targetDir, list, files[..i])
      {
        assert files[..i + 1][..i] == files[..i];
        var sourceFile := files[i];
        if !Exists(targetDir, sourceFile.name) && sourceFile.name !in SourceNames(r) {
          r := r + [FileItem(sourcePath, targetPath, sourceFile)];
        }
        i := i + 1;
      }
      assert files[..i] == files;
    }

    /** UpdatesFromDates: the listed files whose time differs, then the
        missing files. */
    method UpdatesFromDates(matches: Matcher) returns (r: seq<UpdateItem>)
      ensures r == FromDates(sourcePath, targetPath, sourceDir, targetDir, matches)
    {
      var files := FolderQuery.Execute(sourceDir, matches);
      var updates: seq<UpdateItem> := [];
      var i := 0;
      while i < |files|
        invariant 0 <= i <= |files|
        invariant updates == DateItems(sourcePath, targetPath, targetDir, files[..i])
      {
        assert files[..i + 1][..i] == files[..i];
        var sourceFile := files[i];
        if sourceFile.lastWriteTime != LastWriteTime(targetDir, sourceFile.name) {
          updates := updates + [FileItem(sourcePath, targetPath, sourceFile)];
        }
        i := i + 1;
      }
      assert files[..i] == files;
      r := AddMissingFiles(updates, matches);
    }

    /** Execute up to the parallel copy: resets the counters, totals the
        change set, stops when it is empty, and otherwise hands
        min(count, processors) workers the size-ordered items round-robin. */
    method PrepareCopy(matches: Matcher, processorCount: int, guid: (int, nat) -> int) returns (r: Result<CopyPlan>)
      requires processorCount >= 1
      modifies this
      ensures sourcePath == old(sourcePath) && targetPath == old(targetPath)
      ensures sourceDir == old(sourceDir) && targetDir == old(targetDir)
      ensures match Updates(sourcePath, targetPath, sourceDir, targetDir, matches)
        case Err(e) => r == Err(e) && completed == old(completed) && updateSize == old(updateSize)
        case Ok(u) =>
          && completed == 0 && updateSize == TotalSize(u)
          && (u == [] ==> r == Ok(UpToDate))
          && (u != [] ==>
                && r.Ok? && r.value.Distribute?
                && r.value.procCount == Min(|u|, processorCount)
                && (forall b :: b in r.value.buckets <==> 0 <= b < r.value.procCount)
                && forall b :: 0 <= b < r.value.procCount ==>
                     r.value.buckets[b] == Shuffle(Bucket(SortBy(u, LargerFirst), r.value.procCount, b), b, guid))
    {
      var updates := GetUpdates(matches);
      if updates.Err? {
        return Err(updates.error);
      }
      var u := updates.value;
      completed := 0;
      updateSize := TotalSize(u);
      if |u| == 0 {
        return Ok(UpToDate);
      }
      var procCount := Min(|u|, processorCount);
      var sorted := SortBy(u, LargerFirst);
      var splitUpdates := SplitList(sorted, procCount, true, guid);
      r := Ok(Distribute(procCount, splitUpdates));
    }
  }

  /** With min(count, processors) workers every worker gets at least one
      item, larger items go to lower positions, and together the buckets
      hold the change set. */
  lemma NoIdleWorker(u: seq<UpdateItem>, processorCount: int, guid: (int, nat) -> int, b: nat)
    requires processorCount >= 1 && u != []
    requires b < Min(|u|, processorCount)
    ensures |Shuffle(Bucket(SortBy(u, LargerFirst), Min(|u|, processorCount), b), b, guid)| >= 1
  {
    var n := Min(|u|, processorCount);
    var sorted := SortBy(u, LargerFirst);
    assert |sorted| == |u| by {
      assert |multiset(sorted)| == |multiset(u)|;
    }
    BucketsNonEmpty(sorted, n, b);
    var bucket := Bucket(sorted, n, b);
    assert |multiset(Shuffle(bucket, b, guid))| == |multiset(bucket)|;
  }

  /** The buckets together hold exactly the change set, whatever the order
      chosen inside each of them. */
  lemma PlanConservesUpdates(u: seq<UpdateItem>, n: nat)
    requires n > 0
    ensures UnionUpTo(SortBy(u, LargerFirst), n, n) == multiset(u)
  {
    BucketsPartition(SortBy(u, LargerFirst), n);
  }

  /** The items are handed out largest first. */
  lemma LargestFirst(u: seq<UpdateItem>)
    ensures SortedBy(SortBy(u, LargerFirst), LargerFirst)
  {
    LargerFirstIsTotalPreorder();
    SortBySorted(u, LargerFirst);
  }
}
