/** BoxLaunch/UpdateHashFileAction.cs: recording one file's hash in a
    directory's `.blhash` by rewriting the manifest line by line. */
module UpdateHashFile {
  import opened Base
  import opened Text
  import opened FileSystem
  import opened Manifest
  import CopyFile

  // ---------------------------------------------------------------------
  // Reading and writing lines

  /** The position of the first CR or LF. */
  function FirstLineBreak(s: string): (r: Option<nat>)
    ensures r.None? ==> NoNewLine(s)
    ensures r.Some? ==> r.value < |s| && IsNewLineChar(s[r.value]) && NoNewLine(s[..r.value])
  {
    if s == [] then None
    else if IsNewLineChar(s[0]) then Some(0)
    else
      match FirstLineBreak(s[1..])
      case None => None
      case Some(i) =>
        assert s[..i + 1] == [s[0]] + s[1..][..i];
        Some(i + 1)
  }

  /** The lines successive StreamReader.ReadLine calls return: a line ends at
      CR, LF or CR LF, and a break at the very end starts no further line. */
  function ReadLines(s: string): (r: seq<string>)
    ensures forall i :: 0 <= i < |r| ==> NoNewLine(r[i])
    decreases |s|
  {
    if s == [] then []
    else
      match FirstLineBreak(s)
      case None => [s]
      case Some(i) =>
        var next := if s[i] == '\r' && i + 1 < |s| && s[i + 1] == '\n' then i + 2 else i + 1;
        [s[..i]] + ReadLines(s[next..])
  }

  lemma FirstLineBreakAfterWord(l: string, rest: string)
    requires NoNewLine(l) && rest != [] && IsNewLineChar(rest[0])
    ensures FirstLineBreak(l + rest) == Some(|l|)
    decreases |l|
  {
    if l != [] {
      assert (l + rest)[1..] == l[1..] + rest;
      FirstLineBreakAfterWord(l[1..], rest);
    }
  }

  /** Reading back what one Write(line + Environment.NewLine) per line
      produced gives the lines again, empty ones included. */
  lemma {:induction false} ReadLinesJoinLines(lines: seq<string>)
    requires forall i :: 0 <= i < |lines| ==> NoNewLine(lines[i])
    ensures ReadLines(JoinLines(lines)) == lines
  {
    if lines != [] {
      var l := lines[0];
      var tail := JoinLines(lines[1..]);
      var s := JoinLines(lines);
      assert s == l + (NewLine + tail);
      FirstLineBreakAfterWord(l, NewLine + tail);
      assert s[..|l|] == l;
      assert s[|l| + 2..] == tail;
      ReadLinesJoinLines(lines[1..]);
      assert [l] + lines[1..] == lines;
    }
  }

  /** The manifest's lines; a missing manifest is first created empty. */
  function ExistingLines(d: Dir): (r: seq<string>)
    ensures !Exists(d, ManifestName) ==> r == []
  {
    match ManifestText(d)
    case Some(t) => ReadLines(t)
    case None => []
  }

  // ---------------------------------------------------------------------
  // The rewrite

  /** The line recording the file's hash. */
  function Entry(fileName: string, hash: string): string {
    FormatLine(FileHash(fileName, hash))
  }

  /** The write for one line read: the file's line for a line that starts
      with the file name, the line itself otherwise. */
  function ReplaceLine(line: string, fileName: string, hash: string): string {
    if StartsWith(line, fileName) then Entry(fileName, hash) else line
  }

  /** Every line read, through ReplaceLine. */
  function Replaced(lines: seq<string>, fileName: string, hash: string): (r: seq<string>)
    ensures |r| == |lines| && forall i :: 0 <= i < |lines| ==> r[i] == ReplaceLine(lines[i], fileName, hash)
  {
    if lines == [] then []
    else Replaced(lines[..|lines| - 1], fileName, hash) + [ReplaceLine(lines[|lines| - 1], fileName, hash)]
  }

  /** Some line starts with the file name. */
  predicate AnyStartsWith(lines: seq<string>, fileName: string) {
    exists i :: 0 <= i < |lines| && StartsWith(lines[i], fileName)
  }

  /** What Execute writes: the replaced lines, then the file's line if no line
      started with the file name. */
  function Rewrite(lines: seq<string>, fileName: string, hash: string): seq<string> {
    Replaced(lines, fileName, hash) + (if AnyStartsWith(lines, fileName) then [] else [Entry(fileName, hash)])
  }

  /** The lines that do not start with the file name, in order. */
  function Others(lines: seq<string>, fileName: string): (r: seq<string>)
    ensures forall l :: l in r <==> l in lines && !StartsWith(l, fileName)
  {
    if lines == [] then []
    else
      var prefix := Others(lines[..|lines| - 1], fileName);
      var l := lines[|lines| - 1];
      assert lines == lines[..|lines| - 1] + [l];
      if StartsWith(l, fileName) then prefix else prefix + [l]
  }

  // ---------------------------------------------------------------------
  // Properties

  lemma EntryStartsWithName(fileName: string, hash: string)
    ensures StartsWith(Entry(fileName, hash), fileName)
  {
    assert Entry(fileName, hash)[..|fileName|] == fileName;
  }

  /** Line for line: each line that starts with the file name becomes the
      file's line, every other line is written unchanged, and the file's
      line is appended exactly when no line started with the name; so the
      manifest keeps its length or grows by one line. */
  lemma RewriteShape(lines: seq<string>, fileName: string, hash: string)
    ensures var r := Rewrite(lines, fileName, hash);
      && |r| == |lines| + (if AnyStartsWith(lines, fileName) then 0 else 1)
      && (forall i :: 0 <= i < |lines| && StartsWith(lines[i], fileName) ==> r[i] == Entry(fileName, hash))
      && (forall i :: 0 <= i < |lines| && !StartsWith(lines[i], fileName) ==> r[i] == lines[i])
      && (!AnyStartsWith(lines, fileName) ==> r[|lines|] == Entry(fileName, hash))
  {
  }

  /** Afterwards the manifest always holds the file's line, and a manifest
      created empty holds nothing else. */
  lemma RewriteRecordsHash(lines: seq<string>, fileName: string, hash: string)
    ensures Entry(fileName, hash) in Rewrite(lines, fileName, hash)
    ensures lines == [] ==> Rewrite(lines, fileName, hash) == [Entry(fileName, hash)]
  {
    var r := Rewrite(lines, fileName, hash);
    if AnyStartsWith(lines, fileName) {
      var i :| 0 <= i < |lines| && StartsWith(lines[i], fileName);
      assert r[i] == Entry(fileName, hash);
    } else {
      assert r[|lines|] == Entry(fileName, hash);
    }
  }

  lemma {:induction false} OthersOfReplaced(lines: seq<string>, fileName: string, hash: string)
    ensures Others(Replaced(lines, fileName, hash), fileName) == Others(lines, fileName)
  {
    if lines != [] {
      var k := |lines| - 1;
      var r := Replaced(lines, fileName, hash);
      OthersOfReplaced(lines[..k], fileName, hash);
      assert r[..k] == Replaced(lines[..k], fileName, hash);
      EntryStartsWithName(fileName, hash);
    }
  }

  lemma OthersAppendEntry(r: seq<string>, fileName: string, hash: string)
    ensures Others(r + [Entry(fileName, hash)], fileName) == Others(r, fileName)
  {
    assert (r + [Entry(fileName, hash)])[..|r|] == r;
    EntryStartsWithName(fileName, hash);
  }

  /** The lines that do not start with the file name survive unchanged and in
      their order, and no other line is written. */
  lemma RewriteKeepsOthers(lines: seq<string>, fileName: string, hash: string)
    ensures Others(Rewrite(lines, fileName, hash), fileName) == Others(lines, fileName)
  {
    var r := Replaced(lines, fileName, hash);
    OthersOfReplaced(lines, fileName, hash);
    if !AnyStartsWith(lines, fileName) {
      assert Rewrite(lines, fileName, hash) == r + [Entry(fileName, hash)];
      OthersAppendEntry(r, fileName, hash);
    } else {
      assert Rewrite(lines, fileName, hash) == r + [] == r;
    }
  }

  /** Recording the same hash twice changes nothing the second time. */
  lemma RewriteIdempotent(lines: seq<string>, fileName: string, hash: string)
    ensures Rewrite(Rewrite(lines, fileName, hash), fileName, hash) == Rewrite(lines, fileName, hash)
  {
    var r := Rewrite(lines, fileName, hash);
    RewriteRecordsHash(lines, fileName, hash);
    EntryStartsWithName(fileName, hash);
    var i :| 0 <= i < |r| && r[i] == Entry(fileName, hash);
    assert AnyStartsWith(r, fileName);
    assert Rewrite(r, fileName, hash) == Replaced(r, fileName, hash);
    RewriteShape(lines, fileName, hash);
  }

  // ---------------------------------------------------------------------
  // Prefix matching

  /** As written, updating "a.txt" also rewrites the line of "a.txt.bak",
      and that file's entry is lost. */
  lemma PrefixMatchLosesEntry()
    ensures Rewrite(["a.txt.bak: 1111"], "a.txt", "2222") == ["a.txt: 2222"]
  {
    var one := ["a.txt.bak: 1111"];
    assert StartsWith(one[0], "a.txt") by { assert one[0][..5] == "a.txt"; }
    assert Entry("a.txt", "2222") == "a.txt: 2222";
    var r := Replaced(one, "a.txt", "2222");
    assert |r| == 1 && r[0] == "a.txt: 2222";
    assert Rewrite(one, "a.txt", "2222") == r;
  }

  /** A manifest listing both files ends up with two identical lines for
      "a.txt", which CopyFileAction then refuses to load. */
  lemma PrefixMatchDuplicatesEntry()
    ensures var r := Rewrite(["a.txt: 0000", "a.txt.bak: 1111"], "a.txt", "2222");
      r == ["a.txt: 2222", "a.txt: 2222"] && CopyFile.HashDictionary(r) == Err(DuplicateKey)
  {
    var two := ["a.txt: 0000", "a.txt.bak: 1111"];
    assert StartsWith(two[0], "a.txt") by { assert two[0][..5] == "a.txt"; }
    assert StartsWith(two[1], "a.txt") by { assert two[1][..5] == "a.txt"; }
    assert Entry("a.txt", "2222") == "a.txt: 2222";
    var r := Replaced(two, "a.txt", "2222");
    assert |r| == 2 && r[0] == "a.txt: 2222" && r[1] == "a.txt: 2222";
    assert Rewrite(two, "a.txt", "2222") == r;
    CopyFile.RepeatedLineCollides(r, 0, 1);
  }

  /** The evidently intended test: the line is the file's entry, that is it
      starts with the file name followed by the colon. */
  predicate IsEntryFor(line: string, fileName: string) {
    StartsWith(line, fileName + ":")
  }

  function ReplaceExactLine(line: string, fileName: string, hash: string): string {
    if IsEntryFor(line, fileName) then Entry(fileName, hash) else line
  }

  /** The rewrite with the corrected test: the file's entry is recorded,
      every other line stays where it was, the file's old entries all carry
      the new hash, and nothing but the new entry is added. */
  function RewriteExact(lines: seq<string>, fileName: string, hash: string): (r: seq<string>)
    ensures |lines| <= |r| <= |lines| + 1
    ensures Entry(fileName, hash) in r
    ensures forall i :: 0 <= i < |lines| && !IsEntryFor(lines[i], fileName) ==> r[i] == lines[i]
    ensures forall i :: 0 <= i < |lines| && IsEntryFor(lines[i], fileName) ==> r[i] == Entry(fileName, hash)
    ensures forall l :: l in r ==> l in lines || l == Entry(fileName, hash)
  {
    var replaced := seq(|lines|, i requires 0 <= i < |lines| => ReplaceExactLine(lines[i], fileName, hash));
    if exists i :: 0 <= i < |lines| && IsEntryFor(lines[i], fileName) then
      var i :| 0 <= i < |lines| && IsEntryFor(lines[i], fileName);
      assert replaced[i] == Entry(fileName, hash);
      replaced
    else replaced + [Entry(fileName, hash)]
  }

  /** File names cannot contain a colon, so for a line Save or Execute wrote
      the corrected test picks out exactly the line of that file. */
  lemma IsEntryForExactly(e: FileHash, fileName: string)
    requires WellFormed(e) && ':' !in fileName
    ensures IsEntryFor(FormatLine(e), fileName) <==> e.fileName == fileName
  {
    var line := FormatLine(e);
    var n := |e.fileName|;
    assert line[..n] == e.fileName && line[n] == ':';
    if e.fileName == fileName {
      assert line[..n + 1] == fileName + ":";
    }
    if IsEntryFor(line, fileName) {
      var m := |fileName|;
      assert line[..m + 1] == fileName + ":";
      assert line[m] == ':';
      assert forall j :: 0 <= j < n ==> line[j] == e.fileName[j];
      assert forall j :: 0 <= j < m ==> line[j] == fileName[j];
      assert m == n;
      assert e.fileName == line[..n] == fileName;
    }
  }

  /** With the corrected test, the entry of every other file survives and
      the entries of the file itself all carry the new hash. */
  lemma RewriteExactKeepsOtherFiles(lines: seq<string>, e: FileHash, fileName: string, hash: string)
    requires WellFormed(e) && ':' !in fileName
    requires FormatLine(e) in lines
    ensures e.fileName != fileName ==> FormatLine(e) in RewriteExact(lines, fileName, hash)
    ensures e.fileName == fileName ==> FormatLine(e) !in RewriteExact(lines, fileName, hash) || e.hash == hash
  {
    var r := RewriteExact(lines, fileName, hash);
    var i :| 0 <= i < |lines| && lines[i] == FormatLine(e);
    IsEntryForExactly(e, fileName);
    if e.fileName != fileName {
      assert r[i] == FormatLine(e);
    } else if FormatLine(e) in r {
      var j :| 0 <= j < |r| && r[j] == FormatLine(e);
      assert forall k :: 0 <= k < |r| && IsEntryFor(r[k], fileName) ==> r[k] == Entry(fileName, hash);
      assert r[j] == Entry(fileName, hash);
      assert e.hash == FormatLine(e)[|fileName| + 2..] == Entry(fileName, hash)[|fileName| + 2..] == hash;
    }
  }

  // ---------------------------------------------------------------------
  // The action

  /** UpdateHashFileAction: the directory, the file name and its new hash. */
  class UpdateHashFileAction {
    var dirInfo: Dir
    var fileName: string
    var hash: string

    constructor (dirInfo: Dir, fileName: string, hash: string)
      ensures this.dirInfo == dirInfo && this.fileName == fileName && this.hash == hash
    {
      this.dirInfo := dirInfo;
      this.fileName := fileName;
      this.hash := hash;
    }

    /** Execute: reads the manifest (created empty when missing) line by line
        into a temporary file, then deletes the manifest and moves the
        temporary file in its place, stamped with the time `now`. */
    method Execute(now: int) returns (r: bool)
      modifies this
      ensures r
      ensures fileName == old(fileName) && hash == old(hash)
      ensures var text := JoinLines(Rewrite(ExistingLines(old(dirInfo)), fileName, hash));
              dirInfo == ReplaceFile(old(dirInfo), FileEntry(ManifestName, |text|, now, text))
    {
      var lines := ExistingLines(dirInfo);
      var written: seq<string> := [];
      var replacedLine := false;
      var i := 0;
      while i < |lines|
        invariant 0 <= i <= |lines|
        invariant written == Replaced(lines[..i], fileName, hash)
        invariant replacedLine <==> AnyStartsWith(lines[..i], fileName)
      {
        var line := lines[i];
        if StartsWith(line, fileName) {
          written := written + [Entry(fileName, hash)];
          replacedLine := true;
        } else {
          written := written + [line];
        }
        assert lines[..i + 1][..i] == lines[..i];
        assert lines[..i + 1][i] == line;
        i := i + 1;
      }
      assert lines[..i] == lines;
      if !replacedLine {
        written := written + [Entry(fileName, hash)];
      }
      assert written == Rewrite(lines, fileName, hash);
      var text := JoinLines(written);
      dirInfo := ReplaceFile(dirInfo, FileEntry(ManifestName, |text|, now, text));
      r := true;
    }
  }

  lemma EntryHasNoLineBreak(fileName: string, hash: string)
    requires NoNewLine(fileName) && NoNewLine(hash)
    ensures NoNewLine(Entry(fileName, hash))
  {
    var en := Entry(fileName, hash);
    assert en == fileName + ": " + hash;
    forall j | 0 <= j < |en| ensures !IsNewLineChar(en[j]) {
      if j < |fileName| {
        assert en[j] == fileName[j];
      } else if j >= |fileName| + 2 {
        assert en[j] == hash[j - |fileName| - 2];
      }
    }
  }

  /** The rewrite introduces no line break inside a line. */
  lemma RewriteHasNoLineBreak(lines: seq<string>, fileName: string, hash: string)
    requires forall i :: 0 <= i < |lines| ==> NoNewLine(lines[i])
    requires NoNewLine(fileName) && NoNewLine(hash)
    ensures forall i :: 0 <= i < |Rewrite(lines, fileName, hash)| ==> NoNewLine(Rewrite(lines, fileName, hash)[i])
  {
    EntryHasNoLineBreak(fileName, hash);
    RewriteShape(lines, fileName, hash);
  }

  /** The manifest Execute leaves behind reads back as the rewritten lines,
      and every other file of the directory is as it was. */
  lemma ExecuteLeavesManifest(d: Dir, fileName: string, hash: string, now: int, n: string)
    requires NoNewLine(fileName) && NoNewLine(hash)
    ensures var text := JoinLines(Rewrite(ExistingLines(d), fileName, hash));
            var after := ReplaceFile(d, FileEntry(ManifestName, |text|, now, text));
      && ExistingLines(after) == Rewrite(ExistingLines(d), fileName, hash)
      && (n != ManifestName ==> Find(after.files, n) == Find(d.files, n))
  {
    var lines := Rewrite(ExistingLines(d), fileName, hash);
    var text := JoinLines(lines);
    var entry := FileEntry(ManifestName, |text|, now, text);
    ReplaceFileFind(d, entry, ManifestName);
    ReplaceFileFind(d, entry, n);
    RewriteHasNoLineBreak(ExistingLines(d), fileName, hash);
    ReadLinesJoinLines(lines);
    assert ManifestText(ReplaceFile(d, entry)) == Some(text);
  }
}
