/** BoxLaunch/CopyFileAction.cs: bringing one file of a source directory up
    to date in a target directory; by the two `.blhash` manifests when both
    directories have one, otherwise by copying the file (and the source's
    manifest) unconditionally. */
module CopyFile {
  import opened Base
  import opened Text
  import opened FileSystem
  import opened Manifest

  /** The separator of contents.Split('\n'). */
  predicate IsLineFeed(c: char) {
    c == '\n'
  }

  /** The lines of a directory's `.blhash` as read by a StreamReader and split
      on LF alone (a CR before each LF stays on its line); reading a file that
      does not exist throws FileNotFoundException. */
  function ManifestLines(d: Dir): (r: Result<seq<string>>)
    ensures r.Ok? <==> Exists(d, ManifestName)
    ensures r.Err? ==> r.error == FileNotFound
  {
    match ManifestText(d)
    case Some(t) => Ok(Split(t, IsLineFeed))
    case None => Err(FileNotFound)
  }

  /** The key and value ToDictionary takes from one line: the file and hash
      groups of the pattern's match, both "" when the line does not match. */
  function LineEntry(line: string): (r: FileHash)
    ensures ParseLine(line).None? ==> r == FileHash("", "")
    ensures ParseLine(line).Some? ==> r == ParseLine(line).value && r.fileName != ""
  {
    match ParseLine(line)
    case Some(e) => e
    case None => FileHash("", "")
  }

  /** The key/value pair of every line, in line order. */
  function Entries(lines: seq<string>): (r: seq<FileHash>)
    ensures |r| == |lines| && forall i :: 0 <= i < |lines| ==> r[i] == LineEntry(lines[i])
  {
    seq(|lines|, i requires 0 <= i < |lines| => LineEntry(lines[i]))
  }

  /** Adding the entries one by one to a dictionary whose comparer ignores
      case: a key equal to an earlier one throws ArgumentException. */
  function ToDictionary(entries: seq<FileHash>): (r: Result<seq<FileHash>>)
    ensures r.Err? ==> r.error == DuplicateKey
    ensures r.Ok? ==> r.value == entries
  {
    if entries == [] then Ok([])
    else
      var k := |entries| - 1;
      match ToDictionary(entries[..k])
      case Err(err) => Err(err)
      case Ok(d) =>
        if ContainsFile(d, entries[k].fileName) then Err(DuplicateKey)
        else
          assert d + [entries[k]] == entries;
          Ok(d + [entries[k]])
  }

  /** lines.ToDictionary(key, value, StringComparer.OrdinalIgnoreCase). */
  function HashDictionary(lines: seq<string>): Result<seq<FileHash>> {
    ToDictionary(Entries(lines))
  }

  /** The dictionary is built exactly when the keys are unique ignoring case,
      and then holds every entry in order. */
  lemma {:induction false} ToDictionaryBuilt(entries: seq<FileHash>)
    ensures ToDictionary(entries).Ok? <==> UniqueNamesIgnoreCase(entries)
  {
    if entries != [] {
      var k := |entries| - 1;
      ToDictionaryBuilt(entries[..k]);
      assert forall i :: 0 <= i < k ==> entries[..k][i] == entries[i];
      if ToDictionary(entries[..k]).Ok? && ContainsFile(entries[..k], entries[k].fileName) {
        var i :| 0 <= i < k && EqualsIgnoreCase(entries[k].fileName, entries[..k][i].fileName);
        assert EqualsIgnoreCase(entries[i].fileName, entries[k].fileName);
      }
    }
  }

  /** No two lines give keys that are equal ignoring case. */
  predicate DistinctKeys(lines: seq<string>) {
    forall i, j :: 0 <= i < j < |lines| ==> !EqualsIgnoreCase(LineEntry(lines[i]).fileName, LineEntry(lines[j]).fileName)
  }

  /** The manifest's dictionary is built exactly when no two lines give keys
      equal ignoring case; it then has one entry per line, in line order. */
  lemma HashDictionaryBuilt(lines: seq<string>)
    ensures HashDictionary(lines).Ok? <==> DistinctKeys(lines)
    ensures HashDictionary(lines).Ok? ==> && UniqueNamesIgnoreCase(HashDictionary(lines).value)
                                          && |HashDictionary(lines).value| == |lines|
                                          && forall i :: 0 <= i < |lines| ==> HashDictionary(lines).value[i] == LineEntry(lines[i])
  {
    ToDictionaryBuilt(Entries(lines));
  }

  /** Two lines that the pattern does not match both give the key "", so the
      dictionary cannot be built: one malformed line next to the empty piece
      after a final line break is enough. */
  lemma UnmatchedLinesCollide(lines: seq<string>, i: nat, j: nat)
    requires i < j < |lines|
    requires ParseLine(lines[i]).None? && ParseLine(lines[j]).None?
    ensures HashDictionary(lines) == Err(DuplicateKey)
  {
    HashDictionaryBuilt(lines);
    assert EqualsIgnoreCase(LineEntry(lines[i]).fileName, LineEntry(lines[j]).fileName);
  }

  /** A line that occurs twice gives the same key twice. */
  lemma RepeatedLineCollides(lines: seq<string>, i: nat, j: nat)
    requires i < j < |lines| && lines[i] == lines[j]
    ensures HashDictionary(lines) == Err(DuplicateKey)
  {
    HashDictionaryBuilt(lines);
    assert EqualsIgnoreCase(LineEntry(lines[i]).fileName, LineEntry(lines[j]).fileName);
  }

  /** buildUpdateItem(fileName): reading the source's Length throws
      FileNotFoundException when the file is missing. */
  function CopyItem(sourceDir: Dir, targetPath: string, name: string): (r: Result<UpdateItem>)
    ensures r.Ok? <==> Exists(sourceDir, name)
    ensures r.Err? ==> r.error == FileNotFound
    ensures r.Ok? ==> && r.value.sourceName == name && r.value.source == sourceDir.path + Separator + name
                      && r.value.target == targetPath + Separator + name
                      && r.value.fileSize == Find(sourceDir.files, name).value.length
  {
    match Length(sourceDir, name)
    case Ok(len) => Ok(UpdateItem(name, sourceDir.path + Separator + name, targetPath + Separator + name, len))
    case Err(e) => Err(e)
  }

  /** ForceUpdates as a function of the directories and the file name. */
  function Force(sourceDir: Dir, targetPath: string, name: string): Result<seq<UpdateItem>> {
    var file :- CopyItem(sourceDir, targetPath, name);
    if Exists(sourceDir, ManifestName) then
      match CopyItem(sourceDir, targetPath, ManifestName)
      case Ok(m) => Ok([file, m])
      case Err(e) => Err(e)
    else Ok([file])
  }

  /** The hash comparison of UpdatesFromHash: the target manifest lacks the
      name, or gives it another hash than the source manifest does. */
  predicate HashDiffers(sourceHashes: seq<FileHash>, targetHashes: seq<FileHash>, name: string)
    requires ContainsFile(sourceHashes, name)
  {
    !ContainsFile(targetHashes, name) || GetHash(sourceHashes, name).value.hash != GetHash(targetHashes, name).value.hash
  }

  /** UpdatesFromHash's decision once both dictionaries are built. */
  function Decide(sourceDir: Dir, targetDir: Dir, targetPath: string, name: string,
                  sourceHashes: seq<FileHash>, targetHashes: seq<FileHash>): Result<seq<UpdateItem>>
    requires Exists(sourceDir, ManifestName)
  {
    if !ContainsFile(sourceHashes, name) then Err(KeyNotFound)
    else if HashDiffers(sourceHashes, targetHashes, name) then
      var file :- CopyItem(sourceDir, targetPath, name);
      match CopyItem(sourceDir, targetPath, ManifestName)
      case Ok(m) => Ok([file, m])
      case Err(e) => Err(e)
    else if !Exists(targetDir, name) then
      match CopyItem(sourceDir, targetPath, ManifestName)
      case Ok(m) => Ok([m])
      case Err(e) => Err(e)
    else Ok([])
  }

  /** UpdatesFromHash as a function of the directories and the file name. */
  function FromHash(sourceDir: Dir, targetDir: Dir, targetPath: string, name: string): Result<seq<UpdateItem>> {
    var sourceLines :- ManifestLines(sourceDir);
    var targetLines :- ManifestLines(targetDir);
    var sourceHashes :- HashDictionary(sourceLines);
    var targetHashes :- HashDictionary(targetLines);
    Decide(sourceDir, targetDir, targetPath, name, sourceHashes, targetHashes)
  }

  /** GetUpdates as a function of the directories and the file name. */
  function Updates(sourceDir: Dir, targetDir: Dir, targetPath: string, name: string): Result<seq<UpdateItem>> {
    if Exists(sourceDir, ManifestName) && Exists(targetDir, ManifestName) then FromHash(sourceDir, targetDir, targetPath, name)
    else Force(sourceDir, targetPath, name)
  }

  // ---------------------------------------------------------------------
  // Properties

  /** ForceUpdates fails only when the file is missing; otherwise it gives the
      file first, then the source's manifest exactly when there is one. */
  lemma ForceLayout(sourceDir: Dir, targetPath: string, name: string)
    ensures Force(sourceDir, targetPath, name).Ok? <==> Exists(sourceDir, name)
    ensures Force(sourceDir, targetPath, name).Ok? ==>
      var r := Force(sourceDir, targetPath, name).value;
      && |r| == (if Exists(sourceDir, ManifestName) then 2 else 1)
      && r[0] == CopyItem(sourceDir, targetPath, name).value
      && (|r| == 2 ==> r[1] == CopyItem(sourceDir, targetPath, ManifestName).value)
  {
  }

  /** The three outcomes of the hash comparison, for a file the source
      manifest lists and the source directory holds: the file and the
      manifest when the hashes differ or the target manifest lacks the file,
      the manifest alone when only the target file is missing, and nothing
      when the target is up to date. */
  lemma DecideCases(sourceDir: Dir, targetDir: Dir, targetPath: string, name: string,
                    sourceHashes: seq<FileHash>, targetHashes: seq<FileHash>)
    requires Exists(sourceDir, ManifestName) && Exists(sourceDir, name)
    requires ContainsFile(sourceHashes, name)
    ensures var r := Decide(sourceDir, targetDir, targetPath, name, sourceHashes, targetHashes);
      && r.Ok?
      && (HashDiffers(sourceHashes, targetHashes, name) ==>
            r.value == [CopyItem(sourceDir, targetPath, name).value, CopyItem(sourceDir, targetPath, ManifestName).value])
      && (!HashDiffers(sourceHashes, targetHashes, name) && !Exists(targetDir, name) ==>
            r.value == [CopyItem(sourceDir, targetPath, ManifestName).value])
      && (!HashDiffers(sourceHashes, targetHashes, name) && Exists(targetDir, name) ==> r.value == [])
  {
  }

  /** Nothing is copied exactly when the target manifest gives the source's
      hash for the file and the target directory has the file; the manifest
      is then left alone too. */
  lemma UpToDateIff(sourceDir: Dir, targetDir: Dir, targetPath: string, name: string,
                    sourceHashes: seq<FileHash>, targetHashes: seq<FileHash>)
    requires Exists(sourceDir, ManifestName)
    requires Decide(sourceDir, targetDir, targetPath, name, sourceHashes, targetHashes).Ok?
    ensures Decide(sourceDir, targetDir, targetPath, name, sourceHashes, targetHashes).value == []
        <==> (&& ContainsFile(sourceHashes, name) && ContainsFile(targetHashes, name)
              && GetHash(sourceHashes, name).value.hash == GetHash(targetHashes, name).value.hash
              && Exists(targetDir, name))
  {
  }

  /** GetUpdates leaves the target alone exactly when both directories have
      a manifest, both manifests parse, both list the file with the same
      hash, and the target has the file: ForceUpdates always copies. */
  lemma UpToDateExactly(sourceDir: Dir, targetDir: Dir, targetPath: string, name: string)
    ensures Updates(sourceDir, targetDir, targetPath, name) == Ok([])
        <==> (&& Exists(sourceDir, ManifestName) && Exists(targetDir, ManifestName)
              && HashDictionary(ManifestLines(sourceDir).value).Ok?
              && HashDictionary(ManifestLines(targetDir).value).Ok?
              && var sourceHashes := HashDictionary(ManifestLines(sourceDir).value).value;
                 var targetHashes := HashDictionary(ManifestLines(targetDir).value).value;
                 && ContainsFile(sourceHashes, name) && ContainsFile(targetHashes, name)
                 && GetHash(sourceHashes, name).value.hash == GetHash(targetHashes, name).value.hash
                 && Exists(targetDir, name))
  {
    if Exists(sourceDir, ManifestName) && Exists(targetDir, ManifestName) {
      var sourceHashes := HashDictionary(ManifestLines(sourceDir).value);
      var targetHashes := HashDictionary(ManifestLines(targetDir).value);
      if sourceHashes.Ok? && targetHashes.Ok?
         && Decide(sourceDir, targetDir, targetPath, name, sourceHashes.value, targetHashes.value).Ok? {
        UpToDateIff(sourceDir, targetDir, targetPath, name, sourceHashes.value, targetHashes.value);
      }
    } else {
      ForceLayout(sourceDir, targetPath, name);
    }
  }

  /** The hash strategy fails with KeyNotFoundException when the source
      manifest does not list the file, and with ArgumentException when
      either manifest repeats a key. */
  lemma FromHashErrors(sourceDir: Dir, targetDir: Dir, targetPath: string, name: string)
    requires Exists(sourceDir, ManifestName) && Exists(targetDir, ManifestName)
    ensures var sl := ManifestLines(sourceDir).value;
            var tl := ManifestLines(targetDir).value;
      && (!DistinctKeys(sl) || !DistinctKeys(tl) ==> FromHash(sourceDir, targetDir, targetPath, name) == Err(DuplicateKey))
      && ((&& DistinctKeys(sl) && DistinctKeys(tl)
           && forall i :: 0 <= i < |sl| ==> !EqualsIgnoreCase(name, LineEntry(sl[i]).fileName))
          ==> FromHash(sourceDir, targetDir, targetPath, name) == Err(KeyNotFound))
  {
    HashDictionaryBuilt(ManifestLines(sourceDir).value);
    HashDictionaryBuilt(ManifestLines(targetDir).value);
  }

  /** As written, a file that both manifests list with the same hash but
      that the target directory lacks is not copied: only the manifest is. */
  lemma MissingTargetFileNotCopied(sourceDir: Dir, targetDir: Dir, targetPath: string, name: string,
                                   sourceHashes: seq<FileHash>, targetHashes: seq<FileHash>)
    requires Exists(sourceDir, ManifestName) && Exists(sourceDir, name) && name != ManifestName
    requires ContainsFile(sourceHashes, name) && !HashDiffers(sourceHashes, targetHashes, name)
    requires !Exists(targetDir, name)
    ensures Decide(sourceDir, targetDir, targetPath, name, sourceHashes, targetHashes).Ok?
    ensures name !in SourceNames(Decide(sourceDir, targetDir, targetPath, name, sourceHashes, targetHashes).value)
  {
    var r := Decide(sourceDir, targetDir, targetPath, name, sourceHashes, targetHashes).value;
    assert r == [CopyItem(sourceDir, targetPath, ManifestName).value];
    assert SourceNames(r) == [ManifestName];
  }

  /** The decision the "Target is missing a file" branch evidently intends:
      the file is copied there too, with the manifest as in the branch for
      differing hashes. */
  function DecideIntended(sourceDir: Dir, targetDir: Dir, targetPath: string, name: string,
                          sourceHashes: seq<FileHash>, targetHashes: seq<FileHash>): Result<seq<UpdateItem>>
    requires Exists(sourceDir, ManifestName)
  {
    if !ContainsFile(sourceHashes, name) then Err(KeyNotFound)
    else if HashDiffers(sourceHashes, targetHashes, name) || !Exists(targetDir, name) then
      var file :- CopyItem(sourceDir, targetPath, name);
      match CopyItem(sourceDir, targetPath, ManifestName)
      case Ok(m) => Ok([file, m])
      case Err(e) => Err(e)
    else Ok([])
  }

  /** With the intended decision a listed source file is copied exactly when
      the target manifest has another hash for it or the target lacks it,
      and the manifest follows the file whenever anything is copied. */
  lemma DecideIntendedCopiesStaleOrMissing(sourceDir: Dir, targetDir: Dir, targetPath: string, name: string,
                                           sourceHashes: seq<FileHash>, targetHashes: seq<FileHash>)
    requires Exists(sourceDir, ManifestName) && Exists(sourceDir, name)
    requires ContainsFile(sourceHashes, name)
    ensures DecideIntended(sourceDir, targetDir, targetPath, name, sourceHashes, targetHashes).Ok?
    ensures var r := DecideIntended(sourceDir, targetDir, targetPath, name, sourceHashes, targetHashes).value;
      && (name in SourceNames(r) <==> HashDiffers(sourceHashes, targetHashes, name) || !Exists(targetDir, name))
      && (r != [] ==> r[|r| - 1].sourceName == ManifestName)
  {
    var r := DecideIntended(sourceDir, targetDir, targetPath, name, sourceHashes, targetHashes).value;
    if r != [] {
      assert SourceNames(r) == [name, ManifestName];
    }
  }

  // ---------------------------------------------------------------------
  // The action

  /** What Execute does before the parallel copy. */
  datatype Outcome = InvalidPaths | Failed(error: Error) | UpToDate | CopyAll(updates: seq<UpdateItem>)

  /** CopyFileAction: the file's name and directory, the target path and
      directory, and the byte counters. */
  class CopyFileAction {
    var sourceName: string
    var sourceDir: Dir
    var targetPath: string
    var targetDir: Dir
    var completed: int
    var updateSize: int

    constructor (sourceDir: Dir, sourceName: string, targetPath: string, targetDir: Dir)
      ensures this.sourceDir == sourceDir && this.sourceName == sourceName
      ensures this.targetPath == targetPath && this.targetDir == targetDir
      ensures completed == 0 && updateSize == 0
    {
      this.sourceDir := sourceDir;
      this.sourceName := sourceName;
      this.targetPath := targetPath;
      this.targetDir := targetDir;
      completed := 0;
      updateSize := 0;
    }

    /** GetUpdates: by the manifests when both directories have one,
        otherwise ForceUpdates. */
    method GetUpdates() returns (r: Result<seq<UpdateItem>>)
      ensures r == Updates(sourceDir, targetDir, targetPath, sourceName)
    {
      if Exists(sourceDir, ManifestName) && Exists(targetDir, ManifestName) {
        r := UpdatesFromHash();
      } else {
        r := ForceUpdates();
      }
    }

    /** ForceUpdates: the file, then the source's manifest if it has one. */
    method ForceUpdates() returns (r: Result<seq<UpdateItem>>)
      ensures r == Force(sourceDir, targetPath, sourceName)
    {
      var updates: seq<UpdateItem> := [];
      var file := CopyItem(sourceDir, targetPath, sourceName);
      if file.Err? {
        return Err(file.error);
      }
      updates := updates + [file.value];
      assert updates == [file.value];
      if Exists(sourceDir, ManifestName) {
        var m := CopyItem(sourceDir, targetPath, ManifestName);
        updates := updates + [m.value];
        assert updates == [file.value, m.value];
      }
      r := Ok(updates);
    }

    /** UpdatesFromHash: reads and parses both manifests, then adds the file
        and the manifest, the manifest alone, or nothing. */
    method UpdatesFromHash() returns (r: Result<seq<UpdateItem>>)
      ensures r == FromHash(sourceDir, targetDir, targetPath, sourceName)
    {
      var sourceLines := ManifestLines(sourceDir);
      if sourceLines.Err? {
        return Err(sourceLines.error);
      }
      var targetLines := ManifestLines(targetDir);
      if targetLines.Err? {
        return Err(targetLines.error);
      }
      var sourceHashes := HashDictionary(sourceLines.value);
      if sourceHashes.Err? {
        return Err(sourceHashes.error);
      }
      var targetHashes := HashDictionary(targetLines.value);
      if targetHashes.Err? {
        return Err(targetHashes.error);
      }
      assert FromHash(sourceDir, targetDir, targetPath, sourceName)
          == Decide(sourceDir, targetDir, targetPath, sourceName, sourceHashes.value, targetHashes.value);
      r := CompareHashes(sourceHashes.value, targetHashes.value);
    }

    /** The second half of UpdatesFromHash: the comparison of the file's
        entries in the two parsed manifests. */
    method CompareHashes(sourceHashes: seq<FileHash>, targetHashes: seq<FileHash>) returns (r: Result<seq<UpdateItem>>)
      requires Exists(sourceDir, ManifestName)
      ensures r == Decide(sourceDir, targetDir, targetPath, sourceName, sourceHashes, targetHashes)
    {
      if !ContainsFile(sourceHashes, sourceName) {
        return Err(KeyNotFound);
      }
      var sourceHash := GetHash(sourceHashes, sourceName).value.hash;
      var updates: seq<UpdateItem> := [];
      if !ContainsFile(targetHashes, sourceName) || sourceHash != GetHash(targetHashes, sourceName).value.hash {
        var file := CopyItem(sourceDir, targetPath, sourceName);
        if file.Err? {
          return Err(file.error);
        }
        var m := CopyItem(sourceDir, targetPath, ManifestName);
        updates := updates + [file.value] + [m.value];
        assert updates == [file.value, m.value];
        return Ok(updates);
      }
      if !Exists(targetDir, sourceName) {
        var m := CopyItem(sourceDir, targetPath, ManifestName);
        updates := updates + [m.value];
        assert updates == [m.value];
        return Ok(updates);
      }
      r := Ok(updates);
    }

    /** Execute up to the parallel copy: normalises the target path, checks
        the directories (whether each exists, and whether creating the target
        succeeds, are inputs), computes the updates, and stops when they
        total zero bytes. */
    method Execute(sourceExists: bool, targetExists: bool, targetCreated: bool) returns (r: Outcome)
      modifies this
      ensures targetPath == EnsureTrailingSeparator(old(targetPath))
      ensures sourceName == old(sourceName) && sourceDir == old(sourceDir) && targetDir == old(targetDir)
      ensures !(sourceExists && (targetExists || targetCreated)) ==>
        r == InvalidPaths && completed == old(completed) && updateSize == old(updateSize)
      ensures sourceExists && (targetExists || targetCreated) ==>
        match Updates(sourceDir, targetDir, targetPath, sourceName)
        case Err(e) => r == Failed(e) && completed == old(completed) && updateSize == old(updateSize)
        case Ok(u) =>
          && completed == 0 && updateSize == TotalSize(u)
          && r == (if TotalSize(u) == 0 then UpToDate else CopyAll(u))
    {
      if !EndsWith(targetPath, Separator) {
        targetPath := targetPath + Separator;
      }
      if !sourceExists || !(targetExists || targetCreated) {
        return InvalidPaths;
      }
      var updates := GetUpdates();
      if updates.Err? {
        return Failed(updates.error);
      }
      completed := 0;
      updateSize := TotalSize(updates.value);
      if updateSize == 0 {
        return UpToDate;
      }
      r := CopyAll(updates.value);
    }
  }
}
