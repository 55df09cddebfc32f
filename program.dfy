/** BoxLaunch/Program.cs: the launcher's own sync, which copies every source
    file whose target is missing or has another last-write time, one file
    after the other, stops at the first failed copy, and then starts the
    executable from the target directory. */
module Launcher {
  import opened Base
  import opened Text
  import opened Sorting
  import opened Utils
  import opened FileSystem
  import LegacySync

  /** Program's UpdateItem: the source file and the target's path. */
  datatype Transfer = Transfer(source: FileEntry, target: string)

  /** The transfer for a listed file; the target is `targetPath + "\\" + name`. */
  function TransferOf(targetPath: string, f: FileEntry): Transfer {
    Transfer(f, targetPath + Separator + f.name)
  }

  /** The transfers the selection loop collects, in listing order: the files
      whose target is missing or has another last-write time. */
  function Chosen(targetPath: string, targetDir: Dir, files: seq<FileEntry>): seq<Transfer> {
    if files == [] then []
    else
      var prefix := Chosen(targetPath, targetDir, files[..|files| - 1]);
      var f := files[|files| - 1];
      if LegacySync.NeedsCopy(targetDir, f) then prefix + [TransferOf(targetPath, f)] else prefix
  }

  /** Sum of the source lengths. */
  function Size(ts: seq<Transfer>): nat {
    if ts == [] then 0 else Size(ts[..|ts| - 1]) + ts[|ts| - 1].source.length
  }

  /** The selection loop: for each source file, the transfer and its length
      when the target needs it. */
  method SelectUpdates(targetPath: string, sourceDir: Dir, targetDir: Dir)
      returns (updates: seq<Transfer>, updateSize: nat)
    ensures updates == Chosen(targetPath, targetDir, sourceDir.files)
    ensures updateSize == Size(updates)
  {
    var files := sourceDir.files;
    updates := [];
    updateSize := 0;
    var i := 0;
    while i < |files|
      invariant 0 <= i <= |files|
      invariant updates == Chosen(targetPath, targetDir, files[..i])
      invariant updateSize == Size(updates)
    {
      var sourceFile := files[i];
      assert files[..i + 1][..i] == files[..i];
      if !Exists(targetDir, sourceFile.name) || sourceFile.lastWriteTime != LastWriteTime(targetDir, sourceFile.name) {
        updateSize := updateSize + sourceFile.length;
        updates := updates + [TransferOf(targetPath, sourceFile)];
        assert updates[..|updates| - 1] == Chosen(targetPath, targetDir, files[..i]);
      }
      i := i + 1;
    }
    assert files[..i] == files;
  }

  /** The selection is the one the older SyncDirectoriesAction makes: the
      same files, in the same order, with the same targets and sizes. */
  lemma {:induction false} ChosenIsLegacySelection(sourcePath: string, targetPath: string, targetDir: Dir, files: seq<FileEntry>)
    ensures var ts := Chosen(targetPath, targetDir, files);
            var items := LegacySync.Selected(sourcePath, targetPath, targetDir, files);
      && |ts| == |items| && Size(ts) == TotalSize(items)
      && forall i :: 0 <= i < |ts| ==> && items[i].sourceName == ts[i].source.name
                                       && items[i].target == ts[i].target
                                       && items[i].fileSize == ts[i].source.length
  {
    if files != [] {
      ChosenIsLegacySelection(sourcePath, targetPath, targetDir, files[..|files| - 1]);
    }
  }

  /** Every transfer comes from a listed file. */
  lemma {:induction false} ChosenFromListing(targetPath: string, targetDir: Dir, files: seq<FileEntry>)
    ensures forall t :: t in Chosen(targetPath, targetDir, files) ==> t.source in files && LegacySync.NeedsCopy(targetDir, t.source)
  {
    if files != [] {
      var k := |files| - 1;
      ChosenFromListing(targetPath, targetDir, files[..k]);
      assert forall f :: f in files[..k] ==> f in files;
    }
  }

  // ---------------------------------------------------------------------
  // The copy loop

  /** The number of copies made before the first failure: `fails(k)` says
      whether the k-th CopyTo throws. */
  function FirstFailure(n: nat, fails: nat -> bool): (k: nat)
    ensures k <= n
    ensures forall j :: 0 <= j < k ==> !fails(j)
    ensures k < n ==> fails(k)
  {
    if n == 0 then 0
    else
      var k := FirstFailure(n - 1, fails);
      if k < n - 1 then k else if fails(n - 1) then n - 1 else n
  }

  /** The target directory after copying the transfers in order; CopyTo
      overwrites and keeps the source's last-write time. */
  function CopyInto(d: Dir, ts: seq<Transfer>): Dir {
    if ts == [] then d else ReplaceFile(CopyInto(d, ts[..|ts| - 1]), ts[|ts| - 1].source)
  }

  /** The copy loop: copies the updates in order, adds each copied length to
      `completed`, and stops at the first failed copy. */
  method CopyUpdates(updates: seq<Transfer>, targetDir: Dir, fails: nat -> bool)
      returns (completed: nat, failure: bool, after: Dir)
    ensures var k := FirstFailure(|updates|, fails);
      && completed == Size(updates[..k])
      && failure == (k < |updates|)
      && after == CopyInto(targetDir, updates[..k])
  {
    completed := 0;
    failure := false;
    after := targetDir;
    var i := 0;
    while i < |updates|
      invariant 0 <= i <= |updates|
      invariant forall j :: 0 <= j < i ==> !fails(j)
      invariant completed == Size(updates[..i]) && after == CopyInto(targetDir, updates[..i])
      invariant !failure
    {
      if fails(i) {
        failure := true;
        break;
      }
      assert updates[..i + 1][..i] == updates[..i];
      after := ReplaceFile(after, updates[i].source);
      completed := completed + updates[i].source.length;
      i := i + 1;
    }
    FirstFailureUnique(|updates|, fails, i);
  }

  /** The first failure is the only count with no failure before it and a
      failure at it (or none left). */
  lemma FirstFailureUnique(n: nat, fails: nat -> bool, i: nat)
    requires i <= n && (forall j :: 0 <= j < i ==> !fails(j)) && (i < n ==> fails(i))
    ensures FirstFailure(n, fails) == i
  {
    var k := FirstFailure(n, fails);
    assert !fails(k) || i <= k;
    assert !fails(i) || k <= i;
  }

  lemma {:induction false} SizePrefix(ts: seq<Transfer>, k: nat)
    requires k <= |ts|
    ensures Size(ts[..k]) <= Size(ts)
    decreases |ts|
  {
    if k < |ts| {
      var m := |ts| - 1;
      assert ts[..m][..k] == ts[..k];
      SizePrefix(ts[..m], k);
      assert ts[..|ts|][..m] == ts[..m];
    } else {
      assert ts[..k] == ts;
    }
  }

  /** What is copied never exceeds the update size, and reaches it exactly
      when no copy fails. */
  lemma CompletedBounds(updates: seq<Transfer>, fails: nat -> bool)
    ensures var k := FirstFailure(|updates|, fails);
      && Size(updates[..k]) <= Size(updates)
      && (k == |updates| <==> forall j :: 0 <= j < |updates| ==> !fails(j))
      && (k == |updates| ==> Size(updates[..k]) == Size(updates))
  {
    var k := FirstFailure(|updates|, fails);
    SizePrefix(updates, k);
    assert updates[..|updates|] == updates;
  }

  /** A name no transfer writes keeps its file; one some transfer writes
      ends up with the source of the last such transfer. */
  lemma {:induction false} CopyIntoFind(d: Dir, ts: seq<Transfer>, n: string)
    ensures (forall t :: t in ts ==> t.source.name != n) ==> Find(CopyInto(d, ts).files, n) == Find(d.files, n)
    ensures |ts| > 0 && ts[|ts| - 1].source.name == n ==> Find(CopyInto(d, ts).files, n) == Some(ts[|ts| - 1].source)
  {
    if ts != [] {
      var k := |ts| - 1;
      CopyIntoFind(d, ts[..k], n);
      ReplaceFileFind(CopyInto(d, ts[..k]), ts[k].source, n);
      assert forall t :: t in ts[..k] ==> t in ts;
    }
  }

  /** A name the listing does not hold keeps its target file. */
  lemma CopiedFindUnlisted(targetPath: string, targetDir: Dir, files: seq<FileEntry>, n: string)
    requires forall f :: f in files ==> f.name != n
    ensures Find(CopyInto(targetDir, Chosen(targetPath, targetDir, files)).files, n) == Find(targetDir.files, n)
  {
    ChosenFromListing(targetPath, targetDir, files);
    CopyIntoFind(targetDir, Chosen(targetPath, targetDir, files), n);
  }

  /** In a listing with unique names the last file's name is not in the
      prefix, and every other file is in the prefix under another name. */
  lemma UniqueLast(files: seq<FileEntry>, f: FileEntry)
    requires UniqueNames(files) && f in files
    ensures var k := |files| - 1;
      && UniqueNames(files[..k])
      && (f == files[k] ==> forall g :: g in files[..k] ==> g.name != f.name)
      && (f != files[k] ==> f in files[..k] && f.name != files[k].name)
  {
    var k := |files| - 1;
    var p := files[..k];
    forall g | g in p ensures g.name != files[k].name {
      var j :| 0 <= j < k && p[j] == g;
      assert files[j] == g;
    }
    if f != files[k] {
      assert files == p + [files[k]];
    }
  }

  lemma CopyIntoChosenLast(targetPath: string, targetDir: Dir, files: seq<FileEntry>)
    requires files != []
    ensures var x := files[|files| - 1];
            var before := CopyInto(targetDir, Chosen(targetPath, targetDir, files[..|files| - 1]));
      CopyInto(targetDir, Chosen(targetPath, targetDir, files)) ==
        if LegacySync.NeedsCopy(targetDir, x) then ReplaceFile(before, x) else before
  {
    var ts := Chosen(targetPath, targetDir, files);
    if LegacySync.NeedsCopy(targetDir, files[|files| - 1]) {
      assert ts[..|ts| - 1] == Chosen(targetPath, targetDir, files[..|files| - 1]);
    }
  }

  /** For names unique in the listing, a listed file that needed copying is
      now the source file, and one that did not keeps its target file. */
  lemma {:induction false} CopiedFindListed(targetPath: string, targetDir: Dir, files: seq<FileEntry>, f: FileEntry)
    requires UniqueNames(files) && f in files
    ensures Find(CopyInto(targetDir, Chosen(targetPath, targetDir, files)).files, f.name) ==
      if LegacySync.NeedsCopy(targetDir, f) then Some(f) else Find(targetDir.files, f.name)
  {
    var k := |files| - 1;
    var p := files[..k];
    var x := files[k];
    var before := CopyInto(targetDir, Chosen(targetPath, targetDir, p));
    CopyIntoChosenLast(targetPath, targetDir, files);
    ReplaceFileFind(before, x, f.name);
    UniqueLast(files, f);
    if f == x {
      CopiedFindUnlisted(targetPath, targetDir, p, f.name);
    } else {
      CopiedFindListed(targetPath, targetDir, p, f);
    }
  }

  /** After a run in which every copy succeeds the target is in sync: for
      names unique in the listing, selecting again finds nothing to copy. */
  lemma CopiedTargetIsInSync(targetPath: string, targetDir: Dir, files: seq<FileEntry>)
    requires UniqueNames(files)
    ensures var after := CopyInto(targetDir, Chosen(targetPath, targetDir, files));
      forall f :: f in files ==> !LegacySync.NeedsCopy(after, f)
  {
    var after := CopyInto(targetDir, Chosen(targetPath, targetDir, files));
    forall f | f in files ensures !LegacySync.NeedsCopy(after, f) {
      CopiedFindListed(targetPath, targetDir, files, f);
    }
  }

  // ---------------------------------------------------------------------
  // Console helpers

  /** Program.SpaceRight: the text and WindowWidth - |text| - 1 spaces;
      Enumerable.Repeat throws on a negative count. */
  function SpaceRight(s: string, windowWidth: int): (r: Result<string>)
    ensures r.Ok? <==> |s| <= windowWidth - 1
    ensures r.Ok? ==> && |r.value| == windowWidth - 1 && StartsWith(r.value, s)
                      && forall i :: |s| <= i < |r.value| ==> r.value[i] == ' '
  {
    var count := windowWidth - |s| - 1;
    if count < 0 then Err(ArgumentOutOfRange)
    else
      var r := s + Repeat(' ', count);
      assert r[..|s|] == s;
      Ok(r)
  }

  /** Where it succeeds it pads exactly as Utils.SpaceRight does; it fails on
      text longer than the window, which Utils.SpaceRight returns unchanged. */
  lemma SpaceRightAgreesWithUtils(s: string, windowWidth: int)
    ensures SpaceRight(s, windowWidth).Ok? ==> SpaceRight(s, windowWidth) == Utils.SpaceRight(s, windowWidth)
    ensures windowWidth >= 1 && |s| > windowWidth - 1 ==> SpaceRight(s, windowWidth).Err? && Utils.SpaceRight(s, windowWidth) == Ok(s)
  {
    if |s| == windowWidth - 1 {
      assert Repeat(' ', 0) == [];
      assert s + [] == s;
    }
  }

  /** Program.ProgressBar: the bar of Utils.ProgressBar drawn with '#'. */
  function ProgressBar(pct: Decimal, length: int): (r: Result<string>)
    ensures r == Utils.ProgressBar(pct, length, '#')
  {
    var dots := DotsToShow(pct, length);
    if dots < 0 || length - dots < 0 then Err(ArgumentOutOfRange)
    else Ok("[" + Repeat('#', dots) + Repeat(' ', length - dots) + "]")
  }

  // ---------------------------------------------------------------------
  // The run

  /** What Run leaves behind when it gets to the copy. */
  datatype Report = Report(updates: seq<Transfer>, updateSize: nat, completed: nat, failure: bool, target: Dir)

  datatype Outcome =
    | SourceMissing
    | TargetNotCreated
    | ExecutableNotInSource
    | ExecutableNotInTarget(report: Report)
    | Launch(report: Report, executableLocation: string)

  /** The run after the argument checks: paths normalised, directories and
      executable checked (whether each directory exists and whether creating
      the target succeeds are inputs), updates selected and copied, and the
      executable started from the target. */
  method Run(sourcePath: string, targetPath: string, executableName: string,
             sourceDir: Dir, targetDir: Dir, sourceExists: bool, targetExists: bool, targetCreated: bool,
             fails: nat -> bool)
      returns (r: Outcome)
    ensures !sourceExists ==> r == SourceMissing
    ensures sourceExists && !targetExists && !targetCreated ==> r == TargetNotCreated
    ensures sourceExists && (targetExists || targetCreated) && !Exists(sourceDir, executableName) ==> r == ExecutableNotInSource
    ensures sourceExists && (targetExists || targetCreated) && Exists(sourceDir, executableName) ==>
      var target := EnsureTrailingSeparator(targetPath);
      var updates := Chosen(target, targetDir, sourceDir.files);
      var k := FirstFailure(|updates|, fails);
      var report := if Size(updates) == 0 then Report(updates, 0, 0, false, targetDir)
                    else Report(updates, Size(updates), Size(updates[..k]), k < |updates|, CopyInto(targetDir, updates[..k]));
      r == if Exists(report.target, executableName) then Launch(report, "\"" + target + executableName + "\"")
           else ExecutableNotInTarget(report)
  {
    var source := EnsureTrailingSeparator(sourcePath);
    var target := EnsureTrailingSeparator(targetPath);
    if !sourceExists {
      return SourceMissing;
    }
    if !targetExists && !targetCreated {
      return TargetNotCreated;
    }
    if !Exists(sourceDir, executableName) {
      return ExecutableNotInSource;
    }
    var updates, updateSize := SelectUpdates(target, sourceDir, targetDir);
    var completed := 0;
    var failure := false;
    var after := targetDir;
    if updateSize > 0 {
      completed, failure, after := CopyUpdates(updates, targetDir, fails);
    }
    var report := Report(updates, updateSize, completed, failure, after);
    if !Exists(after, executableName) {
      return ExecutableNotInTarget(report);
    }
    r := Launch(report, "\"" + target + executableName + "\"");
  }
}
