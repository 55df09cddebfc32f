/** BoxLaunch/HashCache.cs: the `.blhash` manifest, a list of (file name,
    hash) entries looked up by ordinal case-insensitive name, its text format
    and the ways one manifest is merged into another. */
module Manifest {
  import opened Base
  import opened Text
  import opened Sorting

  /** A FileHash: a file name and its hash, an opaque string. */
  datatype FileHash = FileHash(fileName: string, hash: string)

  // ---------------------------------------------------------------------
  // Queries

  /** ContainsFile: some entry's name equals n, ignoring case. */
  function ContainsFile(hs: seq<FileHash>, n: string): (r: bool)
    ensures r <==> exists i :: 0 <= i < |hs| && EqualsIgnoreCase(n, hs[i].fileName)
  {
    if hs == [] then false
    else EqualsIgnoreCase(n, hs[0].fileName) || ContainsFile(hs[1..], n)
  }

  /** GetHash: the first entry whose name equals n ignoring case;
      Enumerable.First throws InvalidOperationException when there is none. */
  function GetHash(hs: seq<FileHash>, n: string): (r: Result<FileHash>)
    ensures r.Ok? <==> ContainsFile(hs, n)
    ensures r.Err? ==> r.error == InvalidOperation
    ensures r.Ok? ==> exists i :: && 0 <= i < |hs| && hs[i] == r.value
                                  && EqualsIgnoreCase(n, hs[i].fileName)
                                  && forall j :: 0 <= j < i ==> !EqualsIgnoreCase(n, hs[j].fileName)
  {
    if hs == [] then Err(InvalidOperation)
    else if EqualsIgnoreCase(n, hs[0].fileName) then Ok(hs[0])
    else
      var r := GetHash(hs[1..], n);
      if r.Ok? then
        var i :| && 0 <= i < |hs[1..]| && hs[1..][i] == r.value
                 && EqualsIgnoreCase(n, hs[1..][i].fileName)
                 && forall j :: 0 <= j < i ==> !EqualsIgnoreCase(n, hs[1..][j].fileName);
        assert hs[i + 1] == r.value;
        assert forall j :: 1 <= j < i + 1 ==> hs[j] == hs[1..][j - 1];
        r
      else r
  }

  /** The test Differences applies to each source entry: the other manifest
      has no entry of that name, or its first one carries another hash. */
  predicate IsDifferent(other: seq<FileHash>, e: FileHash) {
    !ContainsFile(other, e.fileName) || GetHash(other, e.fileName).value.hash != e.hash
  }

  /** Differences: the entries of hs that differ from `other`, in hs order. */
  function Differences(hs: seq<FileHash>, other: seq<FileHash>): (r: seq<FileHash>)
    ensures forall e :: e in r <==> e in hs && IsDifferent(other, e)
    ensures IsSubsequence(r, hs)
  {
    if hs == [] then []
    else if IsDifferent(other, hs[0]) then
      assert ([hs[0]] + Differences(hs[1..], other))[1..] == Differences(hs[1..], other);
      [hs[0]] + Differences(hs[1..], other)
    else Differences(hs[1..], other)
  }

  /** No two entries share a name, ignoring case. */
  predicate UniqueNamesIgnoreCase(hs: seq<FileHash>) {
    forall i, j :: 0 <= i < j < |hs| ==> !EqualsIgnoreCase(hs[i].fileName, hs[j].fileName)
  }

  /** The entries whose name equals n ignoring case, in order. */
  function Named(hs: seq<FileHash>, n: string): (r: seq<FileHash>)
    ensures forall x :: x in r <==> x in hs && EqualsIgnoreCase(n, x.fileName)
  {
    if hs == [] then []
    else (if EqualsIgnoreCase(n, hs[0].fileName) then [hs[0]] else []) + Named(hs[1..], n)
  }

  /** Hashes.RemoveAll(x => string.Equals(n, x.FileName, OrdinalIgnoreCase)) */
  function RemoveNamed(hs: seq<FileHash>, n: string): (r: seq<FileHash>)
    ensures forall x :: x in r <==> x in hs && !EqualsIgnoreCase(n, x.fileName)
  {
    if hs == [] then []
    else (if EqualsIgnoreCase(n, hs[0].fileName) then [] else [hs[0]]) + RemoveNamed(hs[1..], n)
  }

  /** Hashes.RemoveAll(fh => keys.Contains(fh.FileName)), with exact names. */
  function RemoveKeys(hs: seq<FileHash>, keys: seq<string>): (r: seq<FileHash>)
    ensures forall x :: x in r <==> x in hs && x.fileName !in keys
  {
    if hs == [] then []
    else (if hs[0].fileName in keys then [] else [hs[0]]) + RemoveKeys(hs[1..], keys)
  }

  /** The entries whose name is exactly n, in order. */
  function ExactNamed(hs: seq<FileHash>, n: string): (r: seq<FileHash>)
    ensures forall x :: x in r <==> x in hs && x.fileName == n
  {
    if hs == [] then []
    else (if hs[0].fileName == n then [hs[0]] else []) + ExactNamed(hs[1..], n)
  }

  function Names(hs: seq<FileHash>): (r: seq<string>)
    ensures |r| == |hs| && forall i :: 0 <= i < |hs| ==> r[i] == hs[i].fileName
  {
    if hs == [] then [] else [hs[0].fileName] + Names(hs[1..])
  }

  // ---------------------------------------------------------------------
  // Properties of the queries

  /** GetHash answers with the first of the entries of that name. */
  lemma {:induction false} GetHashIsFirstNamed(hs: seq<FileHash>, n: string)
    ensures GetHash(hs, n) == if Named(hs, n) == [] then Err(InvalidOperation) else Ok(Named(hs, n)[0])
  {
    if hs != [] && !EqualsIgnoreCase(n, hs[0].fileName) {
      GetHashIsFirstNamed(hs[1..], n);
    }
  }

  lemma {:induction false} NamedAppend(a: seq<FileHash>, b: seq<FileHash>, n: string)
    ensures Named(a + b, n) == Named(a, n) + Named(b, n)
  {
    if a == [] {
      assert a + b == b;
    } else {
      assert (a + b)[1..] == a[1..] + b;
      NamedAppend(a[1..], b, n);
    }
  }

  /** Removing one name leaves the entries of every other name alone. */
  lemma {:induction false} NamedRemoveNamed(hs: seq<FileHash>, m: string, n: string)
    ensures Named(RemoveNamed(hs, m), n) == if EqualsIgnoreCase(n, m) then [] else Named(hs, n)
  {
    if hs != [] {
      NamedRemoveNamed(hs[1..], m, n);
      var head := if EqualsIgnoreCase(m, hs[0].fileName) then [] else [hs[0]];
      NamedAppend(head, RemoveNamed(hs[1..], m), n);
    }
  }

  /** Lookups against an empty manifest find nothing, so every entry differs. */
  lemma {:induction false} DifferencesFromEmpty(hs: seq<FileHash>)
    ensures Differences(hs, []) == hs
  {
    if hs != [] {
      DifferencesFromEmpty(hs[1..]);
      assert [hs[0]] + hs[1..] == hs;
    }
  }

  /** Filtering a concatenation filters each part. */
  lemma {:induction false} DifferencesAppend(a: seq<FileHash>, b: seq<FileHash>, other: seq<FileHash>)
    ensures Differences(a + b, other) == Differences(a, other) + Differences(b, other)
  {
    if a == [] {
      assert a + b == b;
    } else {
      assert (a + b)[1..] == a[1..] + b;
      DifferencesAppend(a[1..], b, other);
    }
  }

  lemma {:induction false} DifferencesNone(hs: seq<FileHash>, other: seq<FileHash>)
    requires forall i :: 0 <= i < |hs| ==> !IsDifferent(other, hs[i])
    ensures Differences(hs, other) == []
  {
    if hs != [] {
      DifferencesNone(hs[1..], other);
    }
  }

  /** A manifest whose names are unique ignoring case has no differences
      from itself. */
  lemma DifferencesOfSelf(hs: seq<FileHash>)
    requires UniqueNamesIgnoreCase(hs)
    ensures Differences(hs, hs) == []
  {
    forall i | 0 <= i < |hs| ensures !IsDifferent(hs, hs[i]) {
      assert ContainsFile(hs, hs[i].fileName);
      var g := GetHash(hs, hs[i].fileName).value;
      var k :| && 0 <= k < |hs| && hs[k] == g
               && EqualsIgnoreCase(hs[i].fileName, hs[k].fileName)
               && forall j :: 0 <= j < k ==> !EqualsIgnoreCase(hs[i].fileName, hs[j].fileName);
      assert k == i;
    }
    DifferencesNone(hs, hs);
  }

  // ---------------------------------------------------------------------
  // HashMatches

  /** HashMatches as written: both lookups go to this manifest, the guard is
      negated on the other one, and the two results are the same object. */
  predicate HashMatchesAsWritten(hs: seq<FileHash>, other: seq<FileHash>, n: string) {
    if !ContainsFile(hs, n) || ContainsFile(other, n) then false
    else
      var sourceHash := GetHash(hs, n).value;
      var targetHash := GetHash(hs, n).value;
      sourceHash == targetHash
  }

  /** As written, HashMatches holds exactly when the name is here and NOT in
      the other manifest; the hashes are never compared. */
  lemma HashMatchesAsWrittenIgnoresHashes(hs: seq<FileHash>, other: seq<FileHash>, n: string)
    ensures HashMatchesAsWritten(hs, other, n) <==> ContainsFile(hs, n) && !ContainsFile(other, n)
  {
  }

  /** Two identical manifests, yet HashMatches reports no match. */
  lemma HashMatchesAsWrittenCounterexample()
    ensures var m := [FileHash("a.txt", "0cc175b9")];
            !HashMatchesAsWritten(m, m, "a.txt") && !IsDifferent(m, m[0])
  {
    var m := [FileHash("a.txt", "0cc175b9")];
    assert ContainsFile(m, "a.txt") by { assert EqualsIgnoreCase("a.txt", m[0].fileName); }
  }

  /** HashMatches as evidently intended: both manifests know the name and
      their first entries for it carry the same hash. */
  predicate HashMatches(hs: seq<FileHash>, other: seq<FileHash>, n: string) {
    ContainsFile(hs, n) && ContainsFile(other, n)
    && GetHash(hs, n).value.hash == GetHash(other, n).value.hash
  }

  /** For the entry a lookup in hs finds, the corrected HashMatches is the
      exact negation of the test Differences applies. */
  lemma HashMatchesIsNotDifferent(hs: seq<FileHash>, other: seq<FileHash>, n: string)
    requires ContainsFile(hs, n)
    requires EqualsIgnoreCase(n, GetHash(hs, n).value.fileName)
    ensures HashMatches(hs, other, n) <==> !IsDifferent(other, FileHash(n, GetHash(hs, n).value.hash))
  {
  }

  // ---------------------------------------------------------------------
  // Text format

  /** The entry's line as Save writes it (without the line break). */
  function FormatLine(e: FileHash): string {
    e.fileName + ": " + e.hash
  }

  /** The `hash` group of `.+$`: one or more characters other than LF, where
      `$` may also match before a final LF. */
  predicate HashGroup(t: string) {
    || (t != "" && '\n' !in t)
    || (|t| >= 2 && t[|t| - 1] == '\n' && '\n' !in t[..|t| - 1])
  }

  /** The line matches `^(?<file>[^:]+):\s(?<hash>.+)$`, with the file group
      `line[..k]`. */
  ghost predicate MatchesAt(line: string, k: int) {
    && 1 <= k && k + 2 <= |line|
    && ':' !in line[..k] && line[k] == ':'
    && IsWhiteSpace(line[k + 1])
    && HashGroup(line[k + 2..])
  }

  /** The entry Load builds from one line, if the line matches the pattern. */
  function ParseLine(line: string): (r: Option<FileHash>)
    ensures r.Some? ==> && r.value.fileName != "" && ':' !in r.value.fileName
                        && r.value.hash != "" && '\n' !in r.value.hash
  {
    match IndexOf(line, ':')
    case None => None
    case Some(i) =>
      if i == 0 || i + 1 >= |line| || !IsWhiteSpace(line[i + 1]) then None
      else
        var rest := line[i + 2..];
        var hash := if |rest| > 0 && rest[|rest| - 1] == '\n' then rest[..|rest| - 1] else rest;
        if hash == [] || '\n' in hash then None
        else Some(FileHash(line[..i], hash))
  }

  /** ParseLine accepts exactly the lines the pattern matches, and its groups
      are the file part before the first colon and the rest after the one
      whitespace character (less a final LF that `$` may stand before). */
  lemma ParseLineIsRegexMatch(line: string)
    ensures ParseLine(line).Some? <==> exists k :: MatchesAt(line, k)
    ensures ParseLine(line).Some? ==>
      var e := ParseLine(line).value;
      && MatchesAt(line, |e.fileName|)
      && line[..|e.fileName|] == e.fileName
      && (line[|e.fileName| + 2..] == e.hash || line[|e.fileName| + 2..] == e.hash + "\n")
  {
    match IndexOf(line, ':')
    case None =>
    case Some(i) =>
      if ParseLine(line).Some? {
        assert MatchesAt(line, i);
      }
  }

  /** The entries Load keeps: the matching lines, in file order. */
  function ParseAll(lines: seq<string>): seq<FileHash> {
    if lines == [] then []
    else
      var prefix := ParseAll(lines[..|lines| - 1]);
      match ParseLine(lines[|lines| - 1])
      case Some(e) => prefix + [e]
      case None => prefix
  }

  /** What Load reads from a manifest's text. */
  function ParseManifest(text: string): seq<FileHash> {
    ParseAll(SplitLines(text))
  }

  /** OrderBy(fh => fh.FileName) */
  predicate ByName(a: FileHash, b: FileHash) {
    LexLe(a.fileName, b.fileName)
  }

  /** What Save writes: one line per entry, sorted by name. */
  function SaveText(hs: seq<FileHash>): string {
    JoinLines(Map(SortBy(hs, ByName), FormatLine))
  }

  /** An entry Save can write and Load read back unchanged. */
  predicate WellFormed(e: FileHash) {
    && e.fileName != "" && ':' !in e.fileName && NoNewLine(e.fileName)
    && e.hash != "" && NoNewLine(e.hash)
  }

  lemma ByNameIsTotalPreorder()
    ensures TotalPreorder(ByName)
  {
    forall a, b ensures ByName(a, b) || ByName(b, a) {
      LexLeTotal(a.fileName, b.fileName);
    }
    forall a, b, c | ByName(a, b) && ByName(b, c) ensures ByName(a, c) {
      LexLeTransitive(a.fileName, b.fileName, c.fileName);
    }
  }

  /** Each written line reads back as its entry. */
  lemma ParseFormatLine(e: FileHash)
    requires WellFormed(e)
    ensures ParseLine(FormatLine(e)) == Some(e)
  {
    var line := FormatLine(e);
    var n := |e.fileName|;
    assert line[..n] == e.fileName;
    assert line[n] == ':' && line[n + 1] == ' ';
    assert line[n + 2..] == e.hash;
    assert '\n' !in e.hash;
    assert IndexOf(line, ':') == Some(n);
  }

  lemma ParseAllSnoc(s: seq<FileHash>, e: FileHash)
    requires WellFormed(e)
    ensures ParseAll(Map(s + [e], FormatLine)) == ParseAll(Map(s, FormatLine)) + [e]
  {
    var lines := Map(s, FormatLine);
    MapSnoc(s, e, FormatLine);
    ParseFormatLine(e);
    assert (lines + [FormatLine(e)])[..|lines|] == lines;
  }

  lemma {:induction false} ParseAllFormatted(s: seq<FileHash>)
    requires forall i :: 0 <= i < |s| ==> WellFormed(s[i])
    ensures ParseAll(Map(s, FormatLine)) == s
  {
    if s != [] {
      var k := |s| - 1;
      var t := s[..k];
      assert s == t + [s[k]];
      ParseAllFormatted(t);
      ParseAllSnoc(t, s[k]);
    }
  }

  lemma FormattedLinesAreLines(s: seq<FileHash>)
    requires forall i :: 0 <= i < |s| ==> WellFormed(s[i])
    ensures forall i :: 0 <= i < |s| ==> Map(s, FormatLine)[i] != "" && NoNewLine(Map(s, FormatLine)[i])
  {
    forall i | 0 <= i < |s| ensures NoNewLine(FormatLine(s[i])) {
      var e := s[i];
      var line := FormatLine(e);
      forall j | 0 <= j < |line| ensures !IsNewLineChar(line[j]) {
        if j < |e.fileName| { assert line[j] == e.fileName[j]; }
        else if j >= |e.fileName| + 2 { assert line[j] == e.hash[j - |e.fileName| - 2]; }
      }
    }
  }

  /** Round trip: loading what Save wrote gives back the entries, sorted by
      name. */
  lemma LoadSave(hs: seq<FileHash>)
    requires forall i :: 0 <= i < |hs| ==> WellFormed(hs[i])
    ensures ParseManifest(SaveText(hs)) == SortBy(hs, ByName)
  {
    var sorted := SortBy(hs, ByName);
    forall i | 0 <= i < |sorted| ensures WellFormed(sorted[i]) {
      assert sorted[i] in multiset(hs);
    }
    FormattedLinesAreLines(sorted);
    SplitLinesJoinLines(Map(sorted, FormatLine));
    ParseAllFormatted(sorted);
  }

  /** Saving a loaded manifest writes the same text again. */
  lemma SaveLoadSave(hs: seq<FileHash>)
    requires forall i :: 0 <= i < |hs| ==> WellFormed(hs[i])
    ensures SaveText(ParseManifest(SaveText(hs))) == SaveText(hs)
  {
    LoadSave(hs);
    ByNameIsTotalPreorder();
    SortBySorted(hs, ByName);
    SortBySortedIsIdentity(SortBy(hs, ByName), ByName);
  }

  lemma JoinLinesSnoc(lines: seq<string>, l: string)
    ensures JoinLines(lines + [l]) == JoinLines(lines) + l + NewLine
    decreases |lines|
  {
    if lines == [] {
      assert lines + [l] == [l];
    } else {
      assert (lines + [l])[1..] == lines[1..] + [l];
      JoinLinesSnoc(lines[1..], l);
    }
  }

  // ---------------------------------------------------------------------
  // Merging

  /** One step of Update: an entry that differs from the current manifest
      replaces every entry of its name (ignoring case). */
  function UpdateStep(hs: seq<FileHash>, e: FileHash): seq<FileHash> {
    if IsDifferent(hs, e) then RemoveNamed(hs, e.fileName) + [e] else hs
  }

  /** Update(source): source.Differences(this) is enumerated lazily, so each
      source entry is tested against the manifest as already updated. */
  function UpdateFrom(hs: seq<FileHash>, src: seq<FileHash>): seq<FileHash> {
    if src == [] then hs
    else UpdateStep(UpdateFrom(hs, src[..|src| - 1]), src[|src| - 1])
  }

  /** After a step, e itself no longer differs. */
  lemma UpdateStepSettles(hs: seq<FileHash>, e: FileHash)
    ensures !IsDifferent(UpdateStep(hs, e), e)
  {
    if IsDifferent(hs, e) {
      var r := RemoveNamed(hs, e.fileName) + [e];
      NamedAppend(RemoveNamed(hs, e.fileName), [e], e.fileName);
      NamedRemoveNamed(hs, e.fileName, e.fileName);
      assert Named([e], e.fileName) == [e];
      GetHashIsFirstNamed(r, e.fileName);
    }
  }

  /** A step leaves the entries of every other name as they were. */
  lemma UpdateStepKeeps(hs: seq<FileHash>, e: FileHash, n: string)
    requires !EqualsIgnoreCase(n, e.fileName)
    ensures Named(UpdateStep(hs, e), n) == Named(hs, n)
  {
    if IsDifferent(hs, e) {
      NamedAppend(RemoveNamed(hs, e.fileName), [e], n);
      NamedRemoveNamed(hs, e.fileName, n);
      assert Named([e], n) == [];
    }
  }

  /** Names equal ignoring case select the same entries. */
  lemma {:induction false} NamedSameName(hs: seq<FileHash>, n: string, m: string)
    requires EqualsIgnoreCase(n, m)
    ensures Named(hs, n) == Named(hs, m)
  {
    if hs != [] {
      NamedSameName(hs[1..], n, m);
    }
  }

  /** Whether an entry differs depends only on the entries of its name. */
  lemma IsDifferentByNamed(a: seq<FileHash>, b: seq<FileHash>, e: FileHash)
    requires Named(a, e.fileName) == Named(b, e.fileName)
    ensures IsDifferent(a, e) <==> IsDifferent(b, e)
  {
    GetHashIsFirstNamed(a, e.fileName);
    GetHashIsFirstNamed(b, e.fileName);
  }

  /** Names that match no source difference keep exactly their entries:
      every source entry of such a name already agrees with the manifest,
      and a name the source does not list at all is a special case. */
  lemma {:induction false} UpdateKeepsUnrelated(hs: seq<FileHash>, src: seq<FileHash>, n: string)
    requires forall i :: 0 <= i < |src| && EqualsIgnoreCase(n, src[i].fileName) ==> !IsDifferent(hs, src[i])
    ensures Named(UpdateFrom(hs, src), n) == Named(hs, n)
  {
    if src != [] {
      var k := |src| - 1;
      var before := UpdateFrom(hs, src[..k]);
      var e := src[k];
      assert forall i :: 0 <= i < k ==> src[..k][i] == src[i];
      UpdateKeepsUnrelated(hs, src[..k], n);
      if EqualsIgnoreCase(n, e.fileName) {
        NamedSameName(before, n, e.fileName);
        NamedSameName(hs, n, e.fileName);
        IsDifferentByNamed(before, hs, e);
        assert UpdateStep(before, e) == before;
      } else {
        UpdateStepKeeps(before, e, n);
      }
    }
  }

  /** With names unique ignoring case, Update leaves no source entry that
      still differs: GetHash(n) gives the source's hash for every source
      name. */
  lemma {:induction false} UpdateSettlesAll(hs: seq<FileHash>, src: seq<FileHash>)
    requires UniqueNamesIgnoreCase(src)
    ensures forall i :: 0 <= i < |src| ==> !IsDifferent(UpdateFrom(hs, src), src[i])
  {
    if src != [] {
      var k := |src| - 1;
      var before := UpdateFrom(hs, src[..k]);
      var after := UpdateFrom(hs, src);
      UpdateSettlesAll(hs, src[..k]);
      UpdateStepSettles(before, src[k]);
      forall i | 0 <= i < k ensures !IsDifferent(after, src[i]) {
        assert src[..k][i] == src[i];
        var n := src[i].fileName;
        UpdateStepKeeps(before, src[k], n);
        GetHashIsFirstNamed(before, n);
        GetHashIsFirstNamed(after, n);
      }
    }
  }

  /** ... so the source has no differences from the updated manifest. */
  lemma UpdateLeavesNoDifferences(hs: seq<FileHash>, src: seq<FileHash>)
    requires UniqueNamesIgnoreCase(src)
    ensures Differences(src, UpdateFrom(hs, src)) == []
  {
    UpdateSettlesAll(hs, src);
    DifferencesNone(src, UpdateFrom(hs, src));
  }

  lemma {:induction false} ExactNamedAppend(a: seq<FileHash>, b: seq<FileHash>, n: string)
    ensures ExactNamed(a + b, n) == ExactNamed(a, n) + ExactNamed(b, n)
  {
    if a == [] {
      assert a + b == b;
    } else {
      assert (a + b)[1..] == a[1..] + b;
      ExactNamedAppend(a[1..], b, n);
    }
  }

  lemma {:induction false} ExactNamedRemoveKeys(hs: seq<FileHash>, keys: seq<string>, n: string)
    ensures ExactNamed(RemoveKeys(hs, keys), n) == if n in keys then [] else ExactNamed(hs, n)
  {
    if hs != [] {
      ExactNamedRemoveKeys(hs[1..], keys, n);
      var head := if hs[0].fileName in keys then [] else [hs[0]];
      ExactNamedAppend(head, RemoveKeys(hs[1..], keys), n);
    }
  }

  lemma {:induction false} ExactNamedAbsent(hs: seq<FileHash>, n: string)
    requires n !in Names(hs)
    ensures ExactNamed(hs, n) == []
  {
    if hs != [] {
      assert Names(hs)[1..] == Names(hs[1..]);
      ExactNamedAbsent(hs[1..], n);
    }
  }

  /** The merge that ends Create: names that were hashed now carry only the
      new results; every other name keeps its old entries. */
  lemma MergeRewritesHashedNames(hs: seq<FileHash>, results: seq<FileHash>, n: string)
    ensures ExactNamed(RemoveKeys(hs, Names(results)) + results, n)
         == if n in Names(results) then ExactNamed(results, n) else ExactNamed(hs, n)
  {
    ExactNamedAppend(RemoveKeys(hs, Names(results)), results, n);
    ExactNamedRemoveKeys(hs, Names(results), n);
    if n !in Names(results) {
      ExactNamedAbsent(results, n);
    }
  }

  /** The single-file merge (and Update(source, fileName)): afterwards the
      added entry is the only one of its exact name. */
  lemma MergeOneIsOnlyEntry(hs: seq<FileHash>, e: FileHash)
    ensures ExactNamed(RemoveKeys(hs, [e.fileName]) + [e], e.fileName) == [e]
  {
    ExactNamedAppend(RemoveKeys(hs, [e.fileName]), [e], e.fileName);
    ExactNamedRemoveKeys(hs, [e.fileName], e.fileName);
  }

  // ---------------------------------------------------------------------
  // The manifest object

  /** A HashCache: the entries of one `.blhash` file, kept in a list that
      its methods change in place. The file itself is represented by its
      text: the constructor and Load take it, Save returns it. */
  class HashCache {
    var hashes: seq<FileHash>

    /** `new HashCache(location)`: empty, then loaded when the file exists. */
    constructor (manifest: Option<string>)
      ensures hashes == if manifest.Some? then ParseManifest(manifest.value) else []
    {
      hashes := [];
      new;
      if manifest.Some? {
        Load(manifest.value);
      }
    }

    /** Load: clears the list, then adds one entry per matching line. */
    method Load(text: string)
      modifies this
      ensures hashes == ParseManifest(text)
    {
      hashes := [];
      var sourceLines := SplitLines(text);
      var i := 0;
      while i < |sourceLines|
        invariant 0 <= i <= |sourceLines|
        invariant hashes == ParseAll(sourceLines[..i])
      {
        assert sourceLines[..i + 1][..i] == sourceLines[..i];
        match ParseLine(sourceLines[i]) {
          case Some(e) => hashes := hashes + [e];
          case None =>
        }
        i := i + 1;
      }
      assert sourceLines[..i] == sourceLines;
    }

    /** Save: writes every entry, sorted by name, one line each. */
    method Save() returns (text: string)
      ensures text == SaveText(hashes)
    {
      var sorted := SortBy(hashes, ByName);
      text := "";
      var i := 0;
      while i < |sorted|
        invariant 0 <= i <= |sorted|
        invariant text == JoinLines(Map(sorted[..i], FormatLine))
      {
        assert Map(sorted[..i + 1], FormatLine) == Map(sorted[..i], FormatLine) + [FormatLine(sorted[i])];
        JoinLinesSnoc(Map(sorted[..i], FormatLine), FormatLine(sorted[i]));
        text := text + FormatLine(sorted[i]) + NewLine;
        i := i + 1;
      }
      assert sorted[..i] == sorted;
    }

    /** Update(source): merges the source's differing entries one at a time.
        When source is this very manifest, the first change invalidates the
        enumeration and List's enumerator throws InvalidOperationException. */
    method Update(source: HashCache) returns (r: Result<()>)
      modifies this
      ensures source != this ==> r.Ok? && hashes == UpdateFrom(old(hashes), old(source.hashes))
      ensures source == this ==>
        var d := Differences(old(hashes), old(hashes));
        if d == [] then r.Ok? && hashes == old(hashes)
        else r == Err(InvalidOperation) && hashes == UpdateStep(old(hashes), d[0])
    {
      if source == this {
        var d := Differences(hashes, hashes);
        if d == [] {
          r := Ok(());
        } else {
          hashes := RemoveNamed(hashes, d[0].fileName) + [d[0]];
          r := Err(InvalidOperation);
        }
        return;
      }
      var src := source.hashes;
      var i := 0;
      while i < |src|
        invariant 0 <= i <= |src|
        invariant hashes == UpdateFrom(old(hashes), src[..i])
      {
        assert src[..i + 1][..i] == src[..i];
        var fh := src[i];
        if IsDifferent(hashes, fh) {
          hashes := RemoveNamed(hashes, fh.fileName) + [fh];
        }
        i := i + 1;
      }
      assert src[..i] == src;
      r := Ok(());
    }

    /** Update(source, fileName): drops the entries named exactly fileName,
        then appends the source's entry for it. The lookup runs after the
        removal, so with source == this it sees the shortened list. */
    method UpdateFile(source: HashCache, fileName: string) returns (r: Result<()>)
      modifies this
      ensures var removed := RemoveKeys(old(hashes), [fileName]);
              var from := if source == this then removed else old(source.hashes);
              match GetHash(from, fileName)
              case Ok(e) => r.Ok? && hashes == removed + [e]
              case Err(_) => r == Err(InvalidOperation) && hashes == removed
    {
      hashes := RemoveKeys(hashes, [fileName]);
      var found := GetHash(source.hashes, fileName);
      match found {
        case Ok(e) =>
          hashes := hashes + [e];
          r := Ok(());
        case Err(_) =>
          r := Err(InvalidOperation);
      }
    }

    /** The merge that ends Create(): entries named like a new result are
        removed, then the results are appended in dictionary order. */
    method MergeDirectoryHashes(hashResults: seq<FileHash>)
      modifies this
      ensures hashes == RemoveKeys(old(hashes), Names(hashResults)) + hashResults
    {
      hashes := RemoveKeys(hashes, Names(hashResults));
      hashes := hashes + hashResults;
    }

    /** The merge that ends Create(singleFileName). */
    method MergeFileHash(singleFileName: string, hash: string)
      modifies this
      ensures hashes == RemoveKeys(old(hashes), [singleFileName]) + [FileHash(singleFileName, hash)]
    {
      hashes := RemoveKeys(hashes, [singleFileName]);
      hashes := hashes + [FileHash(singleFileName, hash)];
    }
  }
}
