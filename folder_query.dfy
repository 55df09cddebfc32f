/** BoxLaunch/GetFolderContentsQuery.cs: the directory listing minus the
    ignore file and every file matched by a pattern line of `.blignore`. */
module FolderQuery {
  import opened Base
  import opened Text
  import opened Sorting
  import opened FileSystem

  /** Folder.GetFiles(pattern)'s glob test, left abstract: does the pattern
      match the file name? */
  type Matcher = (string, string) -> bool

  /** The names Folder.GetFiles(pattern) returns, in listing order. */
  function GlobNames(files: seq<FileEntry>, pattern: string, matches: Matcher): (r: seq<string>)
    ensures forall n :: n in r <==> exists i :: 0 <= i < |files| && files[i].name == n && matches(pattern, n)
  {
    if files == [] then []
    else (if matches(pattern, files[0].name) then [files[0].name] else []) + GlobNames(files[1..], pattern, matches)
  }

  /** The ignore patterns: the lines of `.blignore`, if the folder has one. */
  function IgnorePatterns(folder: Dir): seq<string> {
    match Find(folder.files, IgnoreName)
    case Some(f) => SplitLines(f.text)
    case None => []
  }

  /** `excludeList` once every pattern has been expanded: ".blignore" first,
      then the names matched by each pattern in turn. */
  function ExcludeList(files: seq<FileEntry>, patterns: seq<string>, matches: Matcher): seq<string> {
    if patterns == [] then [IgnoreName]
    else ExcludeList(files, patterns[..|patterns| - 1], matches) + GlobNames(files, patterns[|patterns| - 1], matches)
  }

  /** `files.Where(fi => !excludeList.Contains(fi.Name))` */
  function Keep(files: seq<FileEntry>, exclude: seq<string>): seq<FileEntry> {
    if files == [] then []
    else (if files[0].name in exclude then [] else [files[0]]) + Keep(files[1..], exclude)
  }

  /** The query's result as a function of the folder. */
  function Contents(folder: Dir, matches: Matcher): seq<FileEntry> {
    Keep(folder.files, ExcludeList(folder.files, IgnorePatterns(folder), matches))
  }

  /** GetFolderContentsQuery.Execute: grows the exclude list pattern by
      pattern, then filters the listing. */
  method Execute(folder: Dir, matches: Matcher) returns (files: seq<FileEntry>)
    ensures files == Contents(folder, matches)
  {
    var excludeList := [IgnoreName];
    var patterns := IgnorePatterns(folder);
    var i := 0;
    while i < |patterns|
      invariant 0 <= i <= |patterns|
      invariant excludeList == ExcludeList(folder.files, patterns[..i], matches)
    {
      assert patterns[..i + 1][..i] == patterns[..i];
      var ignored := GlobNames(folder.files, patterns[i], matches);
      if |ignored| > 0 {
        excludeList := excludeList + ignored;
      }
      i := i + 1;
    }
    assert patterns[..|patterns|] == patterns;
    files := Keep(folder.files, excludeList);
  }

  lemma {:induction false} ExcludeListMembers(files: seq<FileEntry>, patterns: seq<string>, matches: Matcher, n: string)
    ensures n in ExcludeList(files, patterns, matches)
        <==> (|| n == IgnoreName
              || exists p, i :: p in patterns && 0 <= i < |files| && files[i].name == n && matches(p, n))
  {
    if patterns != [] {
      var k := |patterns| - 1;
      ExcludeListMembers(files, patterns[..k], matches, n);
      assert patterns == patterns[..k] + [patterns[k]];
      if n in GlobNames(files, patterns[k], matches) {
        assert patterns[k] in patterns;
      }
    }
  }

  lemma {:induction false} KeepMembers(files: seq<FileEntry>, exclude: seq<string>)
    ensures forall f :: f in Keep(files, exclude) <==> f in files && f.name !in exclude
  {
    if files != [] {
      KeepMembers(files[1..], exclude);
      assert files == [files[0]] + files[1..];
    }
  }

  /** A listed file is returned iff it is not named ".blignore" and no
      pattern of the ignore file matches it. */
  lemma ContentsMembers(folder: Dir, matches: Matcher, f: FileEntry)
    ensures f in Contents(folder, matches)
        <==> (&& f in folder.files
              && f.name != IgnoreName
              && forall p :: p in IgnorePatterns(folder) ==> !matches(p, f.name))
  {
    var patterns := IgnorePatterns(folder);
    KeepMembers(folder.files, ExcludeList(folder.files, patterns, matches));
    ExcludeListMembers(folder.files, patterns, matches, f.name);
    if f in folder.files && f.name != IgnoreName && exists p :: p in patterns && matches(p, f.name) {
      var p :| p in patterns && matches(p, f.name);
      var i :| 0 <= i < |folder.files| && folder.files[i] == f;
      assert f.name in ExcludeList(folder.files, patterns, matches);
    }
  }

  /** ".blignore" itself never appears in the result. */
  lemma IgnoreFileNeverListed(folder: Dir, matches: Matcher)
    ensures forall f :: f in Contents(folder, matches) ==> f.name != IgnoreName
  {
    forall f | f in Contents(folder, matches) ensures f.name != IgnoreName {
      ContentsMembers(folder, matches, f);
    }
  }

  /** Every pattern line is non-empty and free of line breaks. */
  lemma IgnorePatternsAreLines(folder: Dir)
    ensures forall p :: p in IgnorePatterns(folder) ==> p != "" && NoNewLine(p)
  {
    match Find(folder.files, IgnoreName)
    case Some(f) =>
      SplitPiecesHaveNoSeparator(f.text, IsNewLineChar);
    case None =>
  }

  /** Without a `.blignore` file the listing comes back whole and in order. */
  lemma {:induction false} NoIgnoreFileKeepsAll(folder: Dir, matches: Matcher)
    requires !Exists(folder, IgnoreName)
    ensures Contents(folder, matches) == folder.files
  {
    KeepAllWhenNoneExcluded(folder.files, [IgnoreName]);
  }

  lemma {:induction false} KeepAllWhenNoneExcluded(files: seq<FileEntry>, exclude: seq<string>)
    requires forall i :: 0 <= i < |files| ==> files[i].name !in exclude
    ensures Keep(files, exclude) == files
  {
    if files != [] {
      KeepAllWhenNoneExcluded(files[1..], exclude);
      assert files == [files[0]] + files[1..];
    }
  }

  /** The result is the listing with some files left out, in listing order. */
  lemma {:induction false} KeepIsSubsequence(files: seq<FileEntry>, exclude: seq<string>)
    ensures IsSubsequence(Keep(files, exclude), files)
  {
    if files != [] {
      var rest := Keep(files[1..], exclude);
      KeepIsSubsequence(files[1..], exclude);
      if files[0].name !in exclude {
        assert Keep(files, exclude) == [files[0]] + rest;
        assert ([files[0]] + rest)[1..] == rest;
      } else {
        assert Keep(files, exclude) == rest;
      }
    }
  }

  /** The filter keeps the listing's order: filtering a concatenation is the
      concatenation of the filtered parts. */
  lemma {:induction false} KeepAppend(a: seq<FileEntry>, b: seq<FileEntry>, exclude: seq<string>)
    ensures Keep(a + b, exclude) == Keep(a, exclude) + Keep(b, exclude)
  {
    if a == [] {
      assert a + b == b;
    } else {
      assert (a + b)[1..] == a[1..] + b;
      KeepAppend(a[1..], b, exclude);
    }
  }

  /** A subsequence of a listing with unique names has unique names, and
      lists only files of that listing. */
  lemma {:induction false} SubsequenceUniqueNames(a: seq<FileEntry>, b: seq<FileEntry>)
    requires IsSubsequence(a, b) && UniqueNames(b)
    ensures UniqueNames(a) && forall x :: x in a ==> x in b
    decreases |b|
  {
    if a != [] && b != [] {
      assert UniqueNames(b[1..]) by {
        assert forall i :: 0 <= i < |b| - 1 ==> b[1..][i] == b[i + 1];
      }
      if a[0] == b[0] && IsSubsequence(a[1..], b[1..]) {
        SubsequenceUniqueNames(a[1..], b[1..]);
        forall j | 1 <= j < |a| ensures a[j].name != a[0].name {
          assert a[j] == a[1..][j - 1];
          assert a[j] in a[1..];
          assert a[j] in b[1..];
          var k :| 0 <= k < |b[1..]| && b[1..][k] == a[j];
          assert b[k + 1] == a[j];
        }
        forall x | x in a ensures x in b {
          if x != a[0] {
            assert x in a[1..];
          }
        }
      } else {
        SubsequenceUniqueNames(a, b[1..]);
      }
    }
  }

  /** The query's result has unique names when the listing has. */
  lemma ContentsUniqueNames(folder: Dir, matches: Matcher)
    requires UniqueNames(folder.files)
    ensures UniqueNames(Contents(folder, matches))
  {
    KeepIsSubsequence(folder.files, ExcludeList(folder.files, IgnorePatterns(folder), matches));
    SubsequenceUniqueNames(Contents(folder, matches), folder.files);
  }
}
