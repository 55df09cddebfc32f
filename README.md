# BoxLaunch directory sync, modelled in Dafny

BoxLaunch keeps a target directory in line with a source directory (usually a
network share) and then starts a program from the target. This project models
the logic of its sync engine, with these parts:

- **The `.blhash` manifest (`HashCache`).** A list of `name: hash` entries,
  looked up by name ordinally and ignoring case. It has a text format: `Load`
  parses lines with a fixed regular expression and `Save` writes sorted lines.
  Several merges change an existing manifest.
- **Change-set calculators.** Three generations compute which files to copy:
  - `Actions/SyncDirectoriesAction` uses manifest differences when the source
    has a manifest, modification times otherwise, and then adds missing files.
  - The older root `SyncDirectoriesAction` uses modification times only.
  - `CopyFileAction` decides about a single file in three cases.
  - `Program` has the oldest selection and a sequential copy loop.
- **Work partitioning.** `SplitList`, `SplitUpdates` and `SplitFiles` deal the
  size-ordered items round robin into buckets, then reorder each bucket.
- **The ignore filter (`GetFolderContentsQuery`)** and the line-by-line
  manifest edit of `UpdateHashFileAction`.
- **The manifest writer of `HashDirectoryAction`.**
- **The block copy loop of `ProgressReportingFileCopier`.**
- **The console string helpers**: `Left`, `SpaceRight` and `ProgressBar`.

The model keeps the form of each source file:

- State the program changes in place is a `class` with `modifies` clauses.
  This covers the manifest's entry list, the actions' paths and byte counters,
  and the copier's completion count.
- Each loop is a `method` with a `while` or `for` loop. It is proved against a
  function of its inputs, and the properties are lemmas about those functions.

A directory is a `Dir`: its path and its listing of `FileEntry` values. Each
entry has a name, a length, a last-write time and the text it holds. A missing
file's last-write time is the one .NET reports, 1601-01-01. These are
abstracted as inputs the caller supplies:

- MD5 is a function from name to hash.
- The glob matcher of `DirectoryInfo.GetFiles(pattern)` is a predicate.
- `Guid.NewGuid()` is a key function of bucket and position.
- Copy failures and the progress callback's cancellation are predicates on the
  position.
- The clock, and the result of directory existence checks and creation, are
  parameters.

The program targets Windows, so the separator is `\` and `Environment.NewLine`
is CR LF.

Modules, one per source file, plus shared ones:

- `Base`: error values for the exceptions.
- `Text`: the string primitives of the .NET library in use, with ordinal
  ignore-case comparison, `Split` and line joining.
- `Sorting`: the stable sort behind `OrderBy`.
- `FileSystem`: directories, files and update items.
- The source modules:
  - `Manifest` (`HashCache.cs`)
  - `FolderQuery` (`GetFolderContentsQuery.cs`)
  - `Utils` (`Utils.cs`)
  - `SyncDirectories` (`Actions/SyncDirectoriesAction.cs`)
  - `LegacySync` (`SyncDirectoriesAction.cs`)
  - `CopyFile` (`CopyFileAction.cs`)
  - `UpdateHashFile` (`UpdateHashFileAction.cs`)
  - `HashDirectory` (`HashDirectoryAction.cs`)
  - `Launcher` (`Program.cs`)
  - `FileCopier` (`ProgressReportingFileCopier.cs`)

`Program.Left` has the same body as `Utils.Left` (`BoxLaunch/Program.cs:196-199`),
so `Utils.Left` models both.

## Model

| member | source | states |
|---|---|---|
| Manifest.ContainsFile | BoxLaunch/HashCache.cs:29-32 | true exactly when some entry's name equals the name ignoring case |
| Manifest.GetHash | BoxLaunch/HashCache.cs:34-37 | succeeds exactly when the name is contained; the result is an entry of that name, and no earlier entry has the name; otherwise InvalidOperationException |
| Manifest.GetHashIsFirstNamed | BoxLaunch/HashCache.cs:34-37 | the lookup answers with the first of the entries of that name, and fails when there is none |
| Manifest.Differences | BoxLaunch/HashCache.cs:39-54 | an entry is in the result exactly when it is in this manifest and the other has no entry of that name or a different hash for it; the result is a subsequence, so order is kept |
| Manifest.DifferencesFromEmpty | BoxLaunch/HashCache.cs:39-54 | against an empty manifest every entry differs, in order |
| Manifest.DifferencesAppend | BoxLaunch/HashCache.cs:39-54 | the filter works entry by entry: the differences of a concatenation are the concatenated differences |
| Manifest.DifferencesNone | BoxLaunch/HashCache.cs:39-54 | when no entry differs, the result is empty |
| Manifest.DifferencesOfSelf | BoxLaunch/HashCache.cs:39-54 | a manifest with names unique ignoring case has no differences from itself |
| Manifest.Named | BoxLaunch/HashCache.cs:34-37 | the entries whose name equals the given one ignoring case, and no others |
| Manifest.NamedAppend | BoxLaunch/HashCache.cs:34-37 | the entries of a name in a concatenation are those of the two parts, in order |
| Manifest.NamedRemoveNamed | BoxLaunch/HashCache.cs:157-164 | removing one name (ignoring case) leaves the entries of every other name as they were |
| Manifest.RemoveNamed | BoxLaunch/HashCache.cs:157-164 | the remaining entries are exactly those whose name differs from the given one ignoring case |
| Manifest.RemoveKeys | BoxLaunch/HashCache.cs:95-96 | the remaining entries are exactly those whose name is not among the keys, compared exactly |
| Manifest.ExactNamed | BoxLaunch/HashCache.cs:95-96 | the entries of exactly that name, and no others |
| Manifest.HashMatchesAsWrittenIgnoresHashes | BoxLaunch/HashCache.cs:56-64 | as written, HashMatches holds exactly when this manifest has the name and the other lacks it; hashes are never compared |
| Manifest.HashMatchesAsWrittenCounterexample | BoxLaunch/HashCache.cs:56-64 | two identical one-entry manifests, for which HashMatches as written reports no match |
| Manifest.HashMatchesIsNotDifferent | BoxLaunch/HashCache.cs:56-64 | the corrected HashMatches is the exact negation of the test Differences applies to the entry a lookup finds |
| Manifest.ParseLine | BoxLaunch/HashCache.cs:117-137 | an accepted line gives a non-empty name free of ':' and a non-empty hash free of LF |
| Manifest.ParseLineIsRegexMatch | BoxLaunch/HashCache.cs:117-137 | a line is accepted exactly when `^(?<file>[^:]+):\s(?<hash>.+)$` matches it; the groups are the text before the first colon and the text after the one whitespace character, less a final LF that `$` may stand before |
| Manifest.ParseFormatLine | BoxLaunch/HashCache.cs:145-147 | every line Save writes for a well-formed entry reads back as that entry |
| Manifest.ParseAllFormatted | BoxLaunch/HashCache.cs:123-137 | the written lines of well-formed entries parse back into the same entries, in order |
| Manifest.FormattedLinesAreLines | BoxLaunch/HashCache.cs:145-147 | each written line is non-empty and free of CR and LF, so splitting keeps it whole |
| Manifest.LoadSave | BoxLaunch/HashCache.cs:114-155 | round trip: loading what Save wrote gives the entries back, sorted by name |
| Manifest.SaveLoadSave | BoxLaunch/HashCache.cs:114-155 | saving a loaded manifest writes the same text again |
| Manifest.ByNameIsTotalPreorder | BoxLaunch/HashCache.cs:145 | ordering by name is a total preorder, so the written lines are sorted |
| Manifest.UpdateStepSettles | BoxLaunch/HashCache.cs:157-164 | after one merge step the merged entry no longer differs from the manifest |
| Manifest.UpdateStepKeeps | BoxLaunch/HashCache.cs:157-164 | a merge step leaves the entries of every other name unchanged |
| Manifest.UpdateKeepsUnrelated | BoxLaunch/HashCache.cs:157-164 | a name that matches no source difference keeps exactly its entries, duplicates included: every source entry of that name (if any) already has the manifest's hash |
| Manifest.UpdateSettlesAll | BoxLaunch/HashCache.cs:157-164 | with source names unique ignoring case, every source entry is settled afterwards: GetHash gives the source's hash |
| Manifest.UpdateLeavesNoDifferences | BoxLaunch/HashCache.cs:157-164 | with source names unique ignoring case, the source has no differences from the updated manifest |
| Manifest.MergeRewritesHashedNames | BoxLaunch/HashCache.cs:95-96 | after the Create merge, a name that was hashed carries only the new results, and every other name keeps its old entries |
| Manifest.MergeOneIsOnlyEntry | BoxLaunch/HashCache.cs:110-111 | after the single-file merge, the new entry is the only one of its exact name |
| Manifest.HashCache.constructor | BoxLaunch/HashCache.cs:18-27 | the entries are those parsed from the file when it exists, and none otherwise |
| Manifest.HashCache.Load | BoxLaunch/HashCache.cs:114-138 | the list is replaced by the matching lines' entries, in file order |
| Manifest.HashCache.Save | BoxLaunch/HashCache.cs:140-155 | the written text is one `name: hash` line per entry, sorted by name |
| Manifest.HashCache.Update | BoxLaunch/HashCache.cs:157-164 | each differing source entry replaces the entries of its name, one at a time; when the source is this manifest, the first change makes the enumerator throw InvalidOperationException |
| Manifest.HashCache.UpdateFile | BoxLaunch/HashCache.cs:166-170 | the entries named exactly fileName are removed, then the source's first entry for it (looked up ignoring case, in the shortened list when the source is this manifest) is appended; without one, InvalidOperationException after the removal |
| Manifest.HashCache.MergeDirectoryHashes | BoxLaunch/HashCache.cs:95-96 | entries named like a result are dropped and the results appended |
| Manifest.HashCache.MergeFileHash | BoxLaunch/HashCache.cs:110-111 | entries of the file's name are dropped and its new entry appended |
| Text.Split | BoxLaunch/GetFolderContentsQuery.cs:25 | a split always has at least one piece |
| Text.Separators | BoxLaunch/GetFolderContentsQuery.cs:25 | the characters the string is cut at are all separators |
| Text.SplitWord | BoxLaunch/GetFolderContentsQuery.cs:25 | a string without separators splits into itself alone |
| Text.SplitRejoin | BoxLaunch/GetFolderContentsQuery.cs:25 | there is one more piece than separators, and putting the separators back between the pieces gives the string |
| Text.RemoveEmpty | BoxLaunch/GetFolderContentsQuery.cs:25 | the kept pieces are exactly the non-empty ones |
| Text.SplitPiecesHaveNoSeparator | BoxLaunch/HashCache.cs:123 | no piece of a split contains a separator |
| Text.SplitLinesJoinLines | BoxLaunch/HashCache.cs:123 | splitting written lines on CR and LF gives the lines back when each is non-empty and free of breaks |
| Text.IndexOf | BoxLaunch/HashCache.cs:117 | the position of the first occurrence, or none exactly when the character is absent |
| Text.LexLeTotal | BoxLaunch/HashCache.cs:145 | the ordinal string order is total |
| Text.LexLeTransitive | BoxLaunch/HashCache.cs:145 | the ordinal string order is transitive |
| Text.LexLeAntisymmetric | BoxLaunch/HashCache.cs:145 | the ordinal string order is antisymmetric |
| Sorting.SortBy | BoxLaunch/HashCache.cs:145 | OrderBy permutes its input |
| Sorting.SortBySorted | BoxLaunch/HashCache.cs:145 | OrderBy by a total preorder gives an ordered sequence |
| Sorting.SortBySortedIsIdentity | BoxLaunch/HashCache.cs:145 | an already ordered sequence is left as it is, because the sort is stable |
| Sorting.SortByMapPermutes | BoxLaunch/HashCache.cs:145 | any projection of the elements is permuted too |
| FileSystem.Find | BoxLaunch/SyncDirectoriesAction.cs:65-67 | finds a file exactly when the listing has one of that name, and returns such a listed file |
| FileSystem.EnsureTrailingSeparator | BoxLaunch/SyncDirectoriesAction.cs:29-30 | the result ends in the separator; it is appended exactly when it was missing |
| FileSystem.EnsureTrailingSeparatorIdempotent | BoxLaunch/SyncDirectoriesAction.cs:29-30 | normalising twice is the same as normalising once |
| FileSystem.TotalSizeAppend | BoxLaunch/Actions/SyncDirectoriesAction.cs:158 | the sum of the sizes is additive over a concatenation |
| FileSystem.TotalSizeZero | BoxLaunch/SyncDirectoriesAction.cs:129-135 | the total is zero exactly when every item has size zero, so a change set of empty files ends the run early |
| FileSystem.RemoveFile | BoxLaunch/UpdateHashFileAction.cs:52 | the remaining files are exactly those of another name |
| FileSystem.ReplaceFileFind | BoxLaunch/UpdateHashFileAction.cs:52-53 | after delete-and-move the name denotes the new file, and every other name denotes what it did before |
| FolderQuery.GlobNames | BoxLaunch/GetFolderContentsQuery.cs:27-31 | the names the glob returns are exactly the listed names the pattern matches |
| FolderQuery.Execute | BoxLaunch/GetFolderContentsQuery.cs:13-36 | the result is the filtered listing that Contents defines |
| FolderQuery.ExcludeListMembers | BoxLaunch/GetFolderContentsQuery.cs:15-31 | a name is excluded exactly when it is ".blignore" or some pattern of the ignore file matches a listed file of that name |
| FolderQuery.ContentsMembers | BoxLaunch/GetFolderContentsQuery.cs:13-36 | a listed file is returned exactly when it is not ".blignore" and no ignore pattern matches it; names are compared exactly |
| FolderQuery.IgnoreFileNeverListed | BoxLaunch/GetFolderContentsQuery.cs:15 | ".blignore" never appears in the result |
| FolderQuery.IgnorePatternsAreLines | BoxLaunch/GetFolderContentsQuery.cs:25 | each pattern is a non-empty line without CR or LF |
| FolderQuery.NoIgnoreFileKeepsAll | BoxLaunch/GetFolderContentsQuery.cs:16-18 | without an ignore file the whole listing comes back, in order |
| FolderQuery.KeepMembers | BoxLaunch/GetFolderContentsQuery.cs:35 | the filter keeps exactly the files whose name is not excluded |
| FolderQuery.KeepAllWhenNoneExcluded | BoxLaunch/GetFolderContentsQuery.cs:35 | when no name is excluded, the listing is kept whole |
| FolderQuery.KeepIsSubsequence | BoxLaunch/GetFolderContentsQuery.cs:35 | the result is a subsequence of the listing, so listing order is kept |
| FolderQuery.KeepAppend | BoxLaunch/GetFolderContentsQuery.cs:35 | filtering works file by file over a concatenation |
| FolderQuery.ContentsUniqueNames | BoxLaunch/GetFolderContentsQuery.cs:35 | the result has unique names when the listing has |
| Utils.Left | BoxLaunch/Utils.cs:10-13 | succeeds exactly for a non-negative length, and gives the first min(length, \|s\|) characters |
| Utils.SpaceRight | BoxLaunch/Utils.cs:15-18 | succeeds exactly when the width is at least 1; pads with spaces to width − 1 and never truncates |
| Utils.RoundHalfEvenIsNearest | BoxLaunch/Utils.cs:22 | decimal rounding lands on a nearest integer, and on the even one at a tie |
| Utils.RoundHalfEvenInRange | BoxLaunch/Utils.cs:22 | rounding a value between 0 and the length stays within that range |
| Utils.ProgressBar | BoxLaunch/Utils.cs:20-27 | succeeds exactly when the rounded count lies in 0..length; the bar is then length + 2 long and bracketed |
| Utils.ProgressBarWellFormed | BoxLaunch/Utils.cs:20-27 | for 0 ≤ pct ≤ 100, the bar is '[' + d symbols + (length − d) spaces + ']', with d the banker's-rounded length·pct/100 |
| Utils.Tag | BoxLaunch/Utils.cs:47-50 | the random keys are attached without changing the items |
| Utils.Shuffle | BoxLaunch/Utils.cs:47-50 | reordering by random keys permutes the bucket |
| Utils.SplitList | BoxLaunch/Utils.cs:29-52 | exactly splitCount buckets keyed 0..splitCount − 1; without randomising, bucket b holds the items at positions ≡ b mod splitCount in input order; with it, a reordering of that; each bucket is a permutation of its round-robin share |
| Utils.EmptyBuckets | BoxLaunch/Utils.cs:31-36 | an empty list under every key 0..splitCount − 1, and no other key |
| Utils.DealRoundRobin | BoxLaunch/Utils.cs:38-44 | item k goes to bucket k mod splitCount, in order |
| Utils.ShuffleBuckets | BoxLaunch/Utils.cs:45-50 | every bucket is replaced by its reordering |
| Utils.BucketLength | BoxLaunch/Utils.cs:38-44 | with \|s\| = q·n + r, the first r buckets hold q + 1 items and the others q |
| Utils.BucketsBalanced | BoxLaunch/Utils.cs:38-44 | two buckets differ in size by at most one |
| Utils.BucketsNonEmpty | BoxLaunch/Utils.cs:38-44 | no bucket is empty when there are at least as many items as buckets |
| Utils.BucketPrefix | BoxLaunch/Utils.cs:38-44 | dealing a prefix gives a prefix of each bucket |
| Utils.BucketAt | BoxLaunch/Utils.cs:38-44 | item k is at position k / n of bucket k mod n |
| Utils.BucketsPartition | BoxLaunch/Utils.cs:38-44 | conservation: together the buckets hold exactly the input items, as a multiset |
| Utils.UnionOfReordered | BoxLaunch/Utils.cs:45-50 | reordering the buckets one by one keeps their union |
| Utils.InUnionOf | BoxLaunch/Utils.cs:38-50 | an item is in the union exactly when some bucket holds it |
| Utils.ReorderedBucketsCover | BoxLaunch/Utils.cs:38-50 | after reordering, an item is an input item exactly when some bucket holds it |
| Utils.ReorderedBucketAt | BoxLaunch/Utils.cs:38-50 | after reordering, item k is still in bucket k mod n |
| Utils.SortUntagPermutes | BoxLaunch/Utils.cs:47-50 | sorting the keyed items permutes the items |
| SyncDirectories.BuildItem | BoxLaunch/Actions/SyncDirectoriesAction.cs:73-83 | succeeds exactly when the source has the file, with target TargetPath + name and the source's length; otherwise FileNotFoundException |
| SyncDirectories.HashItems | BoxLaunch/Actions/SyncDirectoriesAction.cs:85-88 | its only failure is FileNotFoundException |
| SyncDirectories.WithManifestItem | BoxLaunch/Actions/SyncDirectoriesAction.cs:89-90 | no updates stay no updates; a non-empty list gets the `.blhash` item appended |
| SyncDirectories.HashItemsOnePerDifference | BoxLaunch/Actions/SyncDirectoriesAction.cs:64-88 | one item per difference, in order, exactly when every differing name is a source file |
| SyncDirectories.FromHashLayout | BoxLaunch/Actions/SyncDirectoriesAction.cs:64-92 | the output starts with one item per difference; the `.blhash` item comes next exactly when there was a difference; AddMissingFiles appends after that |
| SyncDirectories.AddMissingKeepsPrefix | BoxLaunch/Actions/SyncDirectoriesAction.cs:94-108 | the input list is a prefix of the output |
| SyncDirectories.AddMissingAppendsOnlyMissing | BoxLaunch/Actions/SyncDirectoriesAction.cs:94-108 | every appended item is a listed file whose target is missing, under a name no earlier item has |
| SyncDirectories.AddMissingComplete | BoxLaunch/Actions/SyncDirectoriesAction.cs:94-108 | every listed file whose target is missing has an update under its name afterwards |
| SyncDirectories.DateItemsMembers | BoxLaunch/Actions/SyncDirectoriesAction.cs:110-123 | with unique names, a listed file gets a date update exactly when its time differs from the target's |
| SyncDirectories.DateItemsNames | BoxLaunch/Actions/SyncDirectoriesAction.cs:110-123 | every date update comes from a listed file whose time differs from the target's |
| SyncDirectories.FromDatesCoversChanges | BoxLaunch/Actions/SyncDirectoriesAction.cs:110-125 | a listed file with a differing time, or a missing target, is in the change set |
| SyncDirectories.HashStrategyLayout | BoxLaunch/Actions/SyncDirectoriesAction.cs:58-108 | with a source `.blhash`, GetUpdates fails (FileNotFoundException) exactly when a differing name is not a source file; otherwise the items before the `.blhash` item name exactly the differences, in order, and every later item is a listed file the target lacks |
| SyncDirectories.DateStrategySound | BoxLaunch/Actions/SyncDirectoriesAction.cs:58-61 | without a source `.blhash`, GetUpdates does not fail, and every update is a listed file whose target is missing or has another last-write time |
| SyncDirectories.DateStrategyComplete | BoxLaunch/Actions/SyncDirectoriesAction.cs:94-125 | without a source `.blhash`, every listed file whose target is missing or has another last-write time gets an update under its name |
| SyncDirectories.LargerFirstIsTotalPreorder | BoxLaunch/Actions/SyncDirectoriesAction.cs:174 | ordering by descending size is a total preorder |
| SyncDirectories.SyncDirectoriesAction.GetUpdates | BoxLaunch/Actions/SyncDirectoriesAction.cs:53-62 | the change set chosen by the strategy rule |
| SyncDirectories.SyncDirectoriesAction.UpdatesFromHash | BoxLaunch/Actions/SyncDirectoriesAction.cs:64-92 | the loop builds FromHash: items per difference, the manifest item, the missing files |
| SyncDirectories.SyncDirectoriesAction.DifferenceItems | BoxLaunch/Actions/SyncDirectoriesAction.cs:85-88 | the loop builds one item per difference, in order, and fails with FileNotFoundException at a name the source lacks |
| SyncDirectories.SyncDirectoriesAction.AddMissingFiles | BoxLaunch/Actions/SyncDirectoriesAction.cs:94-108 | the loop builds AddMissing over the query's result |
| SyncDirectories.SyncDirectoriesAction.UpdatesFromDates | BoxLaunch/Actions/SyncDirectoriesAction.cs:110-125 | the loop builds the date items, then AddMissingFiles runs |
| SyncDirectories.SyncDirectoriesAction.PrepareCopy | BoxLaunch/Actions/SyncDirectoriesAction.cs:155-174 | counters reset, updateSize is the sum of sizes, and an empty list ends the run; otherwise min(count, processors) workers get the size-ordered items round robin, each bucket reordered |
| SyncDirectories.NoIdleWorker | BoxLaunch/Actions/SyncDirectoriesAction.cs:171-174 | with min(count, processors) workers, every worker gets at least one item |
| SyncDirectories.PlanConservesUpdates | BoxLaunch/Actions/SyncDirectoriesAction.cs:171-174 | the buckets together hold exactly the change set |
| SyncDirectories.LargestFirst | BoxLaunch/Actions/SyncDirectoriesAction.cs:174 | the items are dealt in descending-size order |
| LegacySync.AllItems | BoxLaunch/SyncDirectoriesAction.cs:63-71 | one item per listed file |
| LegacySync.SelectedMembers | BoxLaunch/SyncDirectoriesAction.cs:56-73 | with unique names, a listed file gets an update exactly when its target is missing or has another last-write time |
| LegacySync.SelectedNames | BoxLaunch/SyncDirectoriesAction.cs:63-71 | every update comes from a listed file that needs copying, with its length, and targets TargetPath + "\\" + name |
| LegacySync.SelectedInListingOrder | BoxLaunch/SyncDirectoriesAction.cs:63-71 | the updates keep listing order: a subsequence of the items for all files |
| LegacySync.IdleWorkers | BoxLaunch/SyncDirectoriesAction.cs:142-145 | with more processors than updates, the surplus buckets are empty |
| LegacySync.SyncDirectoriesAction.PathsAreValid | BoxLaunch/SyncDirectoriesAction.cs:27-54 | both paths get a trailing separator exactly when it is missing; valid exactly when the source exists and the target exists or could be created |
| LegacySync.SyncDirectoriesAction.GetUpdates | BoxLaunch/SyncDirectoriesAction.cs:56-73 | the loop builds the selection over the query's result |
| LegacySync.SyncDirectoriesAction.SplitUpdates | BoxLaunch/SyncDirectoriesAction.cs:75-96 | splitCount buckets keyed 0..splitCount − 1; bucket b is the reordering of the descending-size items at positions ≡ b mod splitCount |
| LegacySync.SyncDirectoriesAction.PrepareCopy | BoxLaunch/SyncDirectoriesAction.cs:120-145 | invalid paths end the run with the state untouched; otherwise both directories are read and the copy is planned |
| LegacySync.SyncDirectoriesAction.Plan | BoxLaunch/SyncDirectoriesAction.cs:126-145 | counters reset and updateSize is the total; a zero total ends the run even when there are items; otherwise one bucket per processor |
| CopyFile.ManifestLines | BoxLaunch/CopyFileAction.cs:59-71 | the lines are read exactly when the manifest exists; otherwise FileNotFoundException |
| CopyFile.LineEntry | BoxLaunch/CopyFileAction.cs:73-79 | the regex groups of a matching line; both "" for a line that does not match |
| CopyFile.ToDictionary | BoxLaunch/CopyFileAction.cs:73-79 | the only failure is ArgumentException for a repeated key; otherwise it holds every entry in order |
| CopyFile.ToDictionaryBuilt | BoxLaunch/CopyFileAction.cs:73-79 | the dictionary is built exactly when the keys are unique ignoring case |
| CopyFile.HashDictionaryBuilt | BoxLaunch/CopyFileAction.cs:57-79 | the manifest's dictionary is built exactly when no two lines give keys equal ignoring case; it then has one entry per line |
| CopyFile.UnmatchedLinesCollide | BoxLaunch/CopyFileAction.cs:63-79 | two non-matching lines (such as the empty piece after a final LF) both give key "", so ArgumentException |
| CopyFile.RepeatedLineCollides | BoxLaunch/CopyFileAction.cs:73-79 | a repeated line gives a repeated key, so ArgumentException |
| CopyFile.CopyItem | BoxLaunch/CopyFileAction.cs:83-93 | succeeds exactly when the source has the file; source and target are path + "\\" + name, and the size is the source's length |
| CopyFile.UpToDateExactly | BoxLaunch/CopyFileAction.cs:29-117 | GetUpdates returns no updates exactly when both directories have `.blhash`, both parse, both give the file the same hash, and the target has the file; ForceUpdates always copies |
| CopyFile.ForceLayout | BoxLaunch/CopyFileAction.cs:40-51 | fails only when the file is missing; otherwise the file comes first, and the manifest second exactly when the source has one |
| CopyFile.DecideCases | BoxLaunch/CopyFileAction.cs:95-117 | a missing or different target hash gives [file, .blhash]; an equal hash with the target file missing gives [.blhash]; otherwise [] |
| CopyFile.UpToDateIff | BoxLaunch/CopyFileAction.cs:95-117 | nothing is copied exactly when both manifests give the same hash and the target has the file |
| CopyFile.MissingTargetFileNotCopied | BoxLaunch/CopyFileAction.cs:110-115 | as written, a file both manifests list with the same hash but the target lacks is not among the updates |
| CopyFile.DecideIntendedCopiesStaleOrMissing | BoxLaunch/CopyFileAction.cs:95-117 | with the intended decision, a listed file is copied exactly when the target's hash differs or the target lacks it, and the manifest comes last whenever anything is copied |
| CopyFile.FromHashErrors | BoxLaunch/CopyFileAction.cs:73-95 | a repeated key in either manifest gives ArgumentException; a file missing from the source manifest gives KeyNotFoundException |
| CopyFile.CopyFileAction.constructor | BoxLaunch/CopyFileAction.cs:23-27 | the action holds the given file, directories and target path, with zero counters |
| CopyFile.CopyFileAction.GetUpdates | BoxLaunch/CopyFileAction.cs:29-38 | the updates the strategy rule selects |
| CopyFile.CopyFileAction.ForceUpdates | BoxLaunch/CopyFileAction.cs:40-51 | the file, then the source's manifest when it has one |
| CopyFile.CopyFileAction.UpdatesFromHash | BoxLaunch/CopyFileAction.cs:53-118 | reads both manifests, parses them into dictionaries, and decides |
| CopyFile.CopyFileAction.CompareHashes | BoxLaunch/CopyFileAction.cs:95-117 | the three-case decision over the parsed dictionaries |
| CopyFile.CopyFileAction.Execute | BoxLaunch/CopyFileAction.cs:169-187 | TargetPath gets its separator exactly when missing; invalid paths end the run; counters reset, updateSize is the total, and a zero total ends the run |
| UpdateHashFile.FirstLineBreak | BoxLaunch/UpdateHashFileAction.cs:34 | the first CR or LF, and none exactly when the text has no break |
| UpdateHashFile.ReadLines | BoxLaunch/UpdateHashFileAction.cs:34 | ReadLine's lines hold no CR or LF |
| UpdateHashFile.ReadLinesJoinLines | BoxLaunch/UpdateHashFileAction.cs:34-49 | reading back written lines gives them again, empty ones included |
| UpdateHashFile.ExistingLines | BoxLaunch/UpdateHashFileAction.cs:23-29 | a missing manifest is read as no lines |
| UpdateHashFile.Replaced | BoxLaunch/UpdateHashFileAction.cs:34-45 | one output line per input line, each through the replace-or-copy rule |
| UpdateHashFile.Others | BoxLaunch/UpdateHashFileAction.cs:41-44 | exactly the lines that do not start with the file name |
| UpdateHashFile.RewriteShape | BoxLaunch/UpdateHashFileAction.cs:34-49 | each line starting with the file name is replaced; other lines are copied unchanged in position; the file's line is appended exactly when no line matched; the count grows by 0 or 1 |
| UpdateHashFile.RewriteRecordsHash | BoxLaunch/UpdateHashFileAction.cs:24-49 | the file's line is always present afterwards; a manifest created empty ends up as that single line |
| UpdateHashFile.RewriteKeepsOthers | BoxLaunch/UpdateHashFileAction.cs:41-44 | the lines not starting with the name survive unchanged and in order, and no other such line is written |
| UpdateHashFile.RewriteIdempotent | BoxLaunch/UpdateHashFileAction.cs:34-49 | recording the same hash twice changes nothing the second time |
| UpdateHashFile.PrefixMatchLosesEntry | BoxLaunch/UpdateHashFileAction.cs:36 | as written, updating "a.txt" rewrites the line of "a.txt.bak" and loses that entry |
| UpdateHashFile.PrefixMatchDuplicatesEntry | BoxLaunch/UpdateHashFileAction.cs:36 | as written, a manifest listing both files ends with two identical "a.txt" lines, which CopyFileAction cannot load |
| UpdateHashFile.RewriteExact | BoxLaunch/UpdateHashFileAction.cs:34-49 | the corrected rewrite records the file's new entry, keeps every other line in place, gives each old entry of the file the new hash, and adds at most that one line |
| UpdateHashFile.IsEntryForExactly | BoxLaunch/UpdateHashFileAction.cs:36 | for a written entry line, the corrected test picks out exactly the line of that file |
| UpdateHashFile.RewriteExactKeepsOtherFiles | BoxLaunch/UpdateHashFileAction.cs:34-49 | with the corrected test, every other file's entry survives and the file's own entries carry the new hash |
| UpdateHashFile.RewriteHasNoLineBreak | BoxLaunch/UpdateHashFileAction.cs:38-48 | the rewrite puts no line break inside a line |
| UpdateHashFile.ExecuteLeavesManifest | BoxLaunch/UpdateHashFileAction.cs:19-56 | the manifest left behind reads back as the rewritten lines, and every other file is as it was |
| UpdateHashFile.UpdateHashFileAction.Execute | BoxLaunch/UpdateHashFileAction.cs:19-56 | returns true; the manifest is replaced by the rewritten lines, each followed by CR LF |
| HashDirectory.HashableMembers | BoxLaunch/HashDirectoryAction.cs:18-19 | a file is hashed exactly when the folder query returns it and it is not `.blhash` |
| HashDirectory.HashableUniqueNames | BoxLaunch/HashDirectoryAction.cs:18-19 | the hashed files have unique names when the directory has |
| HashDirectory.LongerFirstIsTotalPreorder | BoxLaunch/HashDirectoryAction.cs:69 | ordering by descending length is a total preorder |
| HashDirectory.SplitFiles | BoxLaunch/HashDirectoryAction.cs:59-80 | splitCount buckets keyed 0..splitCount − 1; each is the reordered round-robin share of the longest-first files |
| HashDirectory.SplitBucketIsReordered | BoxLaunch/HashDirectoryAction.cs:68-79 | each bucket is a permutation of its round-robin share |
| HashDirectory.SplitFilesPartition | BoxLaunch/HashDirectoryAction.cs:59-80 | the buckets together hold exactly the files; the k-th longest file is in bucket k mod splitCount |
| HashDirectory.SplitFilesCover | BoxLaunch/HashDirectoryAction.cs:59-80 | a file is listed exactly when some bucket holds it |
| HashDirectory.HashAll | BoxLaunch/HashDirectoryAction.cs:26-43 | hashResults has a key exactly for the names in the buckets, and maps each name to its hash |
| HashDirectory.ResultsCoverFiles | BoxLaunch/HashDirectoryAction.cs:26-43 | after the loops, every file's name maps to its hash |
| HashDirectory.EntriesMembers | BoxLaunch/HashDirectoryAction.cs:47-48 | the entries are exactly the files paired with their hashes |
| HashDirectory.EntriesUniqueNames | BoxLaunch/HashDirectoryAction.cs:26-41 | one result per name: with unique directory names, the entries have unique names |
| HashDirectory.WriteManifest | BoxLaunch/HashDirectoryAction.cs:45-50 | the writer loop writes `name: hash` and CR LF per entry |
| HashDirectory.ManifestPathOutsideDirectory | BoxLaunch/HashDirectoryAction.cs:22 | as written, "C:\app" gives "C:\app.blhash", outside the directory |
| HashDirectory.ManifestPathInsideDirectory | BoxLaunch/HashDirectoryAction.cs:22 | the corrected path lies inside the directory however it is spelled, and is the path the readers use |
| HashDirectory.WrittenManifestReadsBack | BoxLaunch/HashDirectoryAction.cs:45-54 | read back, the new manifest holds exactly the hashed files with their hashes, sorted by name; no old entry survives unless its file was hashed again |
| HashDirectory.HashDirectoryAction.Execute | BoxLaunch/HashDirectoryAction.cs:14-57 | returns true; the file at HashPath + ".blhash" is replaced by the sorted lines of every hashed file |
| Launcher.SelectUpdates | BoxLaunch/Program.cs:72-81 | the loop selects the files whose target is missing or out of date, in listing order, and sums their lengths |
| Launcher.ChosenIsLegacySelection | BoxLaunch/Program.cs:72-81 | the selection is the root SyncDirectoriesAction's, file for file, with the same total size |
| Launcher.ChosenFromListing | BoxLaunch/Program.cs:72-81 | every selected transfer is a listed file that needs copying |
| Launcher.FirstFailure | BoxLaunch/Program.cs:90-120 | the position of the first failing copy, or the count when none fails |
| Launcher.CopyUpdates | BoxLaunch/Program.cs:90-120 | the copies run in order up to the first failure; completed is the size of the files copied before it, and failure reports whether one happened |
| Launcher.FirstFailureUnique | BoxLaunch/Program.cs:108-117 | the break position is the first failure |
| Launcher.SizePrefix | BoxLaunch/Program.cs:119 | the bytes copied never exceed the total |
| Launcher.CompletedBounds | BoxLaunch/Program.cs:90-120 | completed ≤ updateSize; no failure exactly when every copy ran; without a failure completed equals updateSize |
| Launcher.CopyIntoFind | BoxLaunch/Program.cs:106 | a name no transfer writes keeps its file, and the last transfer's name holds the copied file |
| Launcher.CopiedFindUnlisted | BoxLaunch/Program.cs:90-120 | a target file the source does not list is left alone |
| Launcher.CopiedFindListed | BoxLaunch/Program.cs:72-120 | with unique names, a listed file ends up in the target when it needed copying, and stays as it was otherwise |
| Launcher.CopiedTargetIsInSync | BoxLaunch/Program.cs:72-120 | after a full copy, no listed file needs copying any more |
| Launcher.SpaceRight | BoxLaunch/Program.cs:155-158 | succeeds exactly when \|s\| ≤ width − 1; pads with spaces to exactly width − 1 |
| Launcher.SpaceRightAgreesWithUtils | BoxLaunch/Program.cs:155-158 | agrees with Utils.SpaceRight where it succeeds; for a longer string it fails while Utils.SpaceRight returns the string unchanged |
| Launcher.ProgressBar | BoxLaunch/Program.cs:160-168 | the same bar as Utils.ProgressBar with '#' |
| Launcher.Run | BoxLaunch/Program.cs:33-149 | source missing, target not creatable and executable missing each end the run; otherwise the updates are selected and copied when their total is non-zero, and the executable is started, quoted, from the target when it is present |
| FileCopier.BlocksBounded | BoxLaunch/ProgressReportingFileCopier.cs:28-43 | every block holds 1 to 1 MiB bytes, and together they never run past the end of the file |
| FileCopier.UncancelledCopiesAll | BoxLaunch/ProgressReportingFileCopier.cs:38-53 | without cancellation the blocks cover the whole file |
| FileCopier.CancelStopsAfterBlock | BoxLaunch/ProgressReportingFileCopier.cs:45-52 | a cancellation at block j means no block after j is written |
| FileCopier.BlocksFillBuffer | BoxLaunch/ProgressReportingFileCopier.cs:38-43 | every block but the last fills the buffer |
| FileCopier.ProgressReportingFileCopier.constructor | BoxLaunch/ProgressReportingFileCopier.cs:17-24 | holds the two paths, with no completion yet |
| FileCopier.ProgressReportingFileCopier.Read | BoxLaunch/ProgressReportingFileCopier.cs:38 | fills the buffer with the next min(remaining, buffer length) source bytes |
| FileCopier.ProgressReportingFileCopier.Transfer | BoxLaunch/ProgressReportingFileCopier.cs:35-53 | writes the blocks Blocks describes; totalBytes is their sum, and the destination is exactly the first totalBytes source bytes |
| FileCopier.ProgressReportingFileCopier.Copy | BoxLaunch/ProgressReportingFileCopier.cs:26-57 | a missing source gives FileNotFoundException and an existing destination IOException, both before OnComplete; otherwise the blocks are copied and OnComplete fires exactly once |
| FileCopier.UncancelledCopyIsExact | BoxLaunch/ProgressReportingFileCopier.cs:38-53 | without cancellation the destination equals the source, byte for byte |
| FileCopier.FirstBlockCancelled | BoxLaunch/ProgressReportingFileCopier.cs:45-52 | cancelling at the first block leaves min(length, 1 MiB) bytes, a prefix that is not deleted |

## Left out

- The `Parallel.ForEach` bodies of the sync actions, `Create` and
  `HashDirectoryAction` are left out, because concurrency is their point:
  unsynchronised counters, a shared failure flag and concurrent dictionary
  writes. Only the partition each worker receives is modelled. Nothing is
  claimed about a worker stopping after a failure.
- `HashDirectory.HashAll` runs the hashing loops over the buckets in order.
  Every write of a name stores the same hash, so the order does not change the
  result, but the interleaving itself is not modelled.
- Console rendering is left out: cursor positions, `UpdateProgressText`,
  `ProgressText`, the MB/KB conversions, elapsed-time output and
  `Console.ReadLine`.
  - `Console.WindowWidth` becomes a parameter of `SpaceRight`.
- MD5 (RFC 1321) and the `x2` hex formatting are a function from file to hash
  string, supplied by the caller.
- `BoxLaunch/HashFileAction.cs` only hashes and delegates to
  UpdateHashFileAction, so it is not part of this model.
- File-system primitives are abstracted:
  - existence, creation and `CopyTo` are inputs;
  - the temporary file, `Delete` and `Move` become one replacement of an entry
    in a `Dir`;
  - last-write times are integers;
  - a file's length after a write is the number of characters written;
  - the new write time is the parameter `now`.
- The glob matcher of `DirectoryInfo.GetFiles(pattern)` is an uninterpreted
  predicate.
- Culture-sensitive `OrderBy` of names and `StartsWith` are modelled as
  ordinal lexicographic order and a prefix test.
- Ordinal ignore-case comparison folds ASCII letters only.
- `FileSystem.Find`, and with it `Exists`, `Length`, `LastWriteTime` and
  `ManifestText`, looks names up exactly. Windows file lookups ignore case.
  For example, a source "App.exe" counts as missing from a target that holds
  "APP.EXE", although `File.Exists`/`FileInfo` would find it
  (`BoxLaunch/CopyFileAction.cs:110`, `BoxLaunch/SyncDirectoriesAction.cs:65-67`,
  `BoxLaunch/Actions/SyncDirectoriesAction.cs:100-102`,
  `BoxLaunch/GetFolderContentsQuery.cs:16-18`). Only the manifest dictionaries
  compare ignoring case.
- `Utils.DotsToShow` rounds the exact rational `length * pct / 100`. It does
  not model `decimal` division rounding its quotient to 28-29 significant
  digits, nor `Convert.ToInt32` overflowing beyond 32 bits.
- The `Guid.NewGuid()` keys are an oracle function of bucket and position. The
  shuffle is the stable sort by those keys, and its property is "a
  permutation".
- The percentage in `BoxLaunch/ProgressReportingFileCopier.cs:41` is floating
  point and is left out. The progress and completion events are left out too:
  the callback's cancel decision is the predicate `cancel`, and `OnComplete` is
  a counter.
- `Dispose` (`BoxLaunch/ProgressReportingFileCopier.cs:59-63`) is left out.
- `FileCopier.ProgressReportingFileCopier.Read`: FileStream.Read may return
  fewer bytes than requested. The model fills the buffer as far as the file
  allows, which is what a local file stream does.
- The 64-bit `long` byte counts and the 96-bit `decimal` counters are unbounded
  naturals, because no realistic directory reaches their limits.
- The command-line layer is left out:
  - `BoxLaunch/SyncAndRunCommand.cs`, `BoxLaunch/CopyAndRunCommand.cs`,
    `BoxLaunch/SyncCommand.cs`, `BoxLaunch/HashCommand.cs` and everything under
    `BoxLaunch/Commands/`;
  - `BoxLaunch/RunExecutableAction.cs`, which launches a process;
  - `Program`'s argument checks (`BoxLaunch/Program.cs:16-27`).
  - `Launcher.Run` reports the quoted executable location instead of starting
    the process.
  - `Launcher.Run` does not model the progress lines drawn inside the copy loop
    (`BoxLaunch/Program.cs:92-101`). `SpaceRight` throws on a line too long for
    the window, and `ProgressBar` throws when the rounded bar count falls
    outside 0..length. Either
    exception would end the run before the next file is copied.
- `BoxLaunch/Actions/CleanDirectoryAction.cs` only deletes files, so it is not
  part of this model.
- The `PathsAreValid` of `Actions/SyncDirectoriesAction` and of CopyFileAction
  (`BoxLaunch/Actions/SyncDirectoriesAction.cs:27-51`,
  `BoxLaunch/CopyFileAction.cs:120-144`) only checks existence and tries
  creation. `CopyFile.CopyFileAction.Execute` takes their outcome as inputs.
  `SyncDirectories.SyncDirectoriesAction.PrepareCopy` starts once the paths are
  valid.
- `Utils.SplitList`, `LegacySync.SyncDirectoriesAction.SplitUpdates` and
  `HashDirectory.SplitFiles` require `splitCount > 0`. The source would throw
  `DivideByZeroException` on a non-empty list with zero buckets. All callers
  pass a worker count of at least one.
- `HashDirectory.HashDirectoryAction.Execute` requires the directory's file
  names to be unique, which a real directory listing guarantees.
- `LegacySync.TimedItem` and `CopyFile.CopyItem` keep the source's
  `TargetPath + "\\" + name` even though TargetPath already ends in a
  separator. Windows reads the doubled separator as a single one, but the
  model does not identify the two spellings.

## Findings

| source | as written | input that shows it | evidently intended | confidence | as-written member | corrected member |
|---|---|---|---|---|---|---|
| BoxLaunch/HashCache.cs:56-64 | both lookups go to this manifest, the guard on the other one is negated, and the two results are compared by reference | two identical manifests `[a.txt: 0cc175b9]` and the name "a.txt": HashMatches is false | true exactly when both manifests have the name with the same hash | not executed | Manifest.HashMatchesAsWrittenCounterexample | Manifest.HashMatchesIsNotDifferent |
| BoxLaunch/UpdateHashFileAction.cs:36 | `line.StartsWith(FileName)` also matches another file that has the name as a prefix | the manifest `["a.txt.bak: 1111"]`, updated for "a.txt", becomes `["a.txt: 2222"]`; the entry of a.txt.bak is lost | replace only the line whose name is exactly FileName, that is the name followed by ':' | not executed | UpdateHashFile.PrefixMatchLosesEntry | UpdateHashFile.RewriteExactKeepsOtherFiles |
| BoxLaunch/CopyFileAction.cs:110-115 | with equal hashes and the target file missing, only `.blhash` is added to the updates | both manifests `[a.txt: 0cc175b9]`, "a.txt" in the source directory only: the updates are `[.blhash]`, so a.txt stays missing | copy the missing file, with the manifest as in the branch for differing hashes | not executed | CopyFile.MissingTargetFileNotCopied | CopyFile.DecideIntendedCopiesStaleOrMissing |
| BoxLaunch/HashDirectoryAction.cs:22 | the manifest path is `HashPath + ".blhash"`, with no separator | HashPath "C:\app" writes "C:\app.blhash", beside the directory | the manifest inside the directory, where the other actions read it | not executed | HashDirectory.ManifestPathOutsideDirectory | HashDirectory.ManifestPathInsideDirectory |

In each case the action's own method models the code as written:
`Manifest.HashMatchesAsWritten`, `CopyFile.Decide`,
`UpdateHashFile.UpdateHashFileAction.Execute` and
`HashDirectory.HashDirectoryAction.Execute`. The corrected definitions are
`Manifest.HashMatches`, `CopyFile.DecideIntended`, `UpdateHashFile.RewriteExact`
and `HashDirectory.ManifestPathInside`. Each of them has its intended property
proved.
