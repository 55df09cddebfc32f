/** The string primitives of the .NET base library that the modelled code relies
    on: line splitting, ordinal comparisons, padding and repetition. */
module Text {
  import opened Base

  /** Environment.NewLine on the Windows platform the program targets. */
  const NewLine: string := "\r\n"

  predicate IsNewLineChar(c: char) { c == '\r' || c == '\n' }

  /** The characters matched by `\s` in a .NET regular expression
      (char.IsWhiteSpace): the C0 controls TAB..CR, NEL and the Unicode
      separator categories. */
  predicate IsWhiteSpace(c: char) {
    || ('\t' <= c <= '\r')
    || c == ' ' || c == '\U{85}' || c == '\U{A0}' || c == '\U{1680}'
    || ('\U{2000}' <= c <= '\U{200A}')
    || c == '\U{2028}' || c == '\U{2029}' || c == '\U{202F}' || c == '\U{205F}' || c == '\U{3000}'
  }

  /** The case folding used by ordinal-ignore-case comparison (ASCII letters). */
  function Upper(c: char): char {
    if 'a' <= c <= 'z' then (c as int - 32) as char else c
  }

  function UpperString(s: string): (r: string)
    ensures |r| == |s|
  {
    seq(|s|, i requires 0 <= i < |s| => Upper(s[i]))
  }

  /** string.Equals(a, b, StringComparison.OrdinalIgnoreCase) */
  predicate EqualsIgnoreCase(a: string, b: string) {
    UpperString(a) == UpperString(b)
  }

  /** string.StartsWith, as a prefix test. */
  predicate StartsWith(s: string, prefix: string) {
    |prefix| <= |s| && s[..|prefix|] == prefix
  }

  /** string.EndsWith, as a suffix test. */
  predicate EndsWith(s: string, suffix: string) {
    |suffix| <= |s| && forall i :: 0 <= i < |suffix| ==> s[|s| - |suffix| + i] == suffix[i]
  }

  /** new string(Enumerable.Repeat(c, n).ToArray()) for n >= 0. */
  function Repeat(c: char, n: nat): (r: string)
    ensures |r| == n && forall i :: 0 <= i < n ==> r[i] == c
  {
    seq(n, _ => c)
  }

  /** s.Split(separators) without options: every separator ends a piece, so
      empty pieces are kept and there is always at least one piece. */
  function Split(s: string, isSep: char -> bool): (r: seq<string>)
    ensures |r| >= 1
    decreases |s|
  {
    if s == [] then [""]
    else if isSep(s[0]) then [""] + Split(s[1..], isSep)
    else
      var rest := Split(s[1..], isSep);
      [[s[0]] + rest[0]] + rest[1..]
  }

  /** StringSplitOptions.RemoveEmptyEntries */
  function RemoveEmpty(pieces: seq<string>): (r: seq<string>)
    ensures forall i :: 0 <= i < |r| ==> r[i] != ""
    ensures forall p :: p in r <==> p in pieces && p != ""
  {
    if pieces == [] then []
    else if pieces[0] == "" then RemoveEmpty(pieces[1..])
    else [pieces[0]] + RemoveEmpty(pieces[1..])
  }

  /** text.Split(Environment.NewLine.ToArray(), StringSplitOptions.RemoveEmptyEntries):
      split on every CR and every LF and drop the empty pieces. */
  function SplitLines(text: string): seq<string> {
    RemoveEmpty(Split(text, IsNewLineChar))
  }

  /** What a writer produces for one `Write(line + Environment.NewLine)` per line. */
  function JoinLines(lines: seq<string>): string {
    if lines == [] then "" else lines[0] + NewLine + JoinLines(lines[1..])
  }

  predicate NoNewLine(s: string) {
    forall i :: 0 <= i < |s| ==> !IsNewLineChar(s[i])
  }

  /** Every piece of a split is free of separators. */
  lemma {:induction false} SplitPiecesHaveNoSeparator(s: string, isSep: char -> bool)
    ensures forall p, i :: p in Split(s, isSep) && 0 <= i < |p| ==> !isSep(p[i])
    decreases |s|
  {
    if s != [] {
      SplitPiecesHaveNoSeparator(s[1..], isSep);
      if !isSep(s[0]) {
        var rest := Split(s[1..], isSep);
        var head := [s[0]] + rest[0];
        assert rest[0] in rest;
        forall i | 0 <= i < |head| ensures !isSep(head[i]) {
          if i > 0 { assert head[i] == rest[0][i - 1]; }
        }
      }
    }
  }

  /** The separators of s, in order. */
  function Separators(s: string, isSep: char -> bool): (r: string)
    ensures forall i :: 0 <= i < |r| ==> isSep(r[i])
    decreases |s|
  {
    if s == [] then []
    else if isSep(s[0]) then [s[0]] + Separators(s[1..], isSep)
    else Separators(s[1..], isSep)
  }

  /** The pieces put back together, each separator between two of them. */
  function Interleave(pieces: seq<string>, seps: string): string
    requires |pieces| == |seps| + 1
    decreases |seps|
  {
    if seps == [] then pieces[0] else pieces[0] + [seps[0]] + Interleave(pieces[1..], seps[1..])
  }

  /** A word without separators is its own single piece. */
  lemma {:induction false} SplitWord(w: string, isSep: char -> bool)
    requires forall i :: 0 <= i < |w| ==> !isSep(w[i])
    ensures Split(w, isSep) == [w]
    decreases |w|
  {
    if w != [] {
      SplitWord(w[1..], isSep);
      assert Split(w[1..], isSep)[1..] == [];
      assert [w[0]] + w[1..] == w;
    }
  }

  /** Growing the first piece by a character grows the joined string by it. */
  lemma InterleaveCons(c: char, pieces: seq<string>, seps: string)
    requires |pieces| == |seps| + 1
    ensures Interleave([[c] + pieces[0]] + pieces[1..], seps) == [c] + Interleave(pieces, seps)
  {
    var grown := [[c] + pieces[0]] + pieces[1..];
    assert grown[0] == [c] + pieces[0];
    if seps != [] {
      assert grown[1..] == pieces[1..];
      var tail := Interleave(pieces[1..], seps[1..]);
      assert Interleave(grown, seps) == ([c] + pieces[0]) + [seps[0]] + tail;
      assert ([c] + pieces[0]) + [seps[0]] + tail == [c] + (pieces[0] + [seps[0]] + tail);
    }
  }

  /** Split loses nothing: there is one more piece than there are
      separators, and putting the separators back between the pieces gives
      the string again. */
  lemma {:induction false} SplitRejoin(s: string, isSep: char -> bool)
    ensures |Split(s, isSep)| == |Separators(s, isSep)| + 1
    ensures Interleave(Split(s, isSep), Separators(s, isSep)) == s
    decreases |s|
  {
    if s != [] {
      SplitRejoin(s[1..], isSep);
      var pieces := Split(s[1..], isSep);
      var seps := Separators(s[1..], isSep);
      if isSep(s[0]) {
        assert ([""] + pieces)[1..] == pieces;
        assert ([s[0]] + seps)[1..] == seps;
        assert Interleave([""] + pieces, [s[0]] + seps) == "" + [s[0]] + Interleave(pieces, seps);
      } else {
        InterleaveCons(s[0], pieces, seps);
      }
      assert [s[0]] + s[1..] == s;
    }
  }

  /** A separator-free word followed by a separator splits off as one piece. */
  lemma {:induction false} SplitAfterWord(w: string, c: char, rest: string, isSep: char -> bool)
    requires forall i :: 0 <= i < |w| ==> !isSep(w[i])
    requires isSep(c)
    ensures Split(w + [c] + rest, isSep) == [w] + Split(rest, isSep)
    decreases |w|
  {
    if w == [] {
      assert w + [c] + rest == [c] + rest;
      assert ([c] + rest)[1..] == rest;
    } else {
      var s := w + [c] + rest;
      assert s[0] == w[0];
      assert s[1..] == w[1..] + [c] + rest;
      SplitAfterWord(w[1..], c, rest, isSep);
      assert [w[0]] + w[1..] == w;
    }
  }

  /** Splitting the output of JoinLines gives back the lines, provided each is
      non-empty and holds no CR or LF. */
  lemma {:induction false} SplitLinesJoinLines(lines: seq<string>)
    requires forall i :: 0 <= i < |lines| ==> lines[i] != "" && NoNewLine(lines[i])
    ensures SplitLines(JoinLines(lines)) == lines
  {
    if lines == [] {
      assert Split("", IsNewLineChar) == [""];
      assert [""][1..] == [];
    } else {
      var l := lines[0];
      var tail := JoinLines(lines[1..]);
      assert JoinLines(lines) == l + ['\r'] + (['\n'] + tail);
      SplitAfterWord(l, '\r', ['\n'] + tail, IsNewLineChar);
      assert Split(['\n'] + tail, IsNewLineChar) == [""] + Split(tail, IsNewLineChar) by {
        assert (['\n'] + tail)[1..] == tail;
      }
      var pieces := [l] + ([""] + Split(tail, IsNewLineChar));
      assert pieces[1..] == [""] + Split(tail, IsNewLineChar);
      assert pieces[1..][1..] == Split(tail, IsNewLineChar);
      assert RemoveEmpty(pieces) == [l] + RemoveEmpty(pieces[1..]);
      assert RemoveEmpty(pieces[1..]) == RemoveEmpty(Split(tail, IsNewLineChar));
      SplitLinesJoinLines(lines[1..]);
      assert [l] + lines[1..] == lines;
    }
  }

  /** s.IndexOf(c): the position of the first occurrence of c. */
  function IndexOf(s: string, c: char): (r: Option<nat>)
    ensures r.Some? ==> r.value < |s| && s[r.value] == c && c !in s[..r.value]
    ensures r.None? ==> c !in s
  {
    if s == [] then None
    else if s[0] == c then Some(0)
    else
      match IndexOf(s[1..], c)
      case Some(i) =>
        assert s[..i + 1] == [s[0]] + s[1..][..i];
        Some(i + 1)
      case None => None
  }

  /** Ordinal lexicographic order on strings (char code by char code). */
  predicate LexLe(a: string, b: string)
    decreases |a|
  {
    if a == [] then true
    else if b == [] then false
    else if a[0] != b[0] then a[0] < b[0]
    else LexLe(a[1..], b[1..])
  }

  lemma {:induction false} LexLeTotal(a: string, b: string)
    ensures LexLe(a, b) || LexLe(b, a)
    decreases |a|
  {
    if a != [] && b != [] && a[0] == b[0] { LexLeTotal(a[1..], b[1..]); }
  }

  lemma {:induction false} LexLeTransitive(a: string, b: string, c: string)
    requires LexLe(a, b) && LexLe(b, c)
    ensures LexLe(a, c)
    decreases |a|
  {
    if a != [] && b != [] && c != [] && a[0] == b[0] && b[0] == c[0] {
      LexLeTransitive(a[1..], b[1..], c[1..]);
    }
  }

  lemma {:induction false} LexLeAntisymmetric(a: string, b: string)
    requires LexLe(a, b) && LexLe(b, a)
    ensures a == b
    decreases |a|
  {
    if a != [] && b != [] {
      LexLeAntisymmetric(a[1..], b[1..]);
      assert a == [a[0]] + a[1..] && b == [b[0]] + b[1..];
    }
  }
}
