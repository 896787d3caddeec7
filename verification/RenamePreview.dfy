/** The preview of a symbol rename and its application
(rice_factor/adapters/executors/refactor_executor_adapter.py).

The preview replaces in the whole text, splits old and new text into lines and prints a one-line
hunk per difference; the application just replaces. An independent reader of such hunks shows
that the two computations agree. */
module RenamePreview {
  import opened Sequences
  import opened Text

  function Lines(s: string): seq<string> {
    Split(s, NL)
  }

  // ---------- replacing and line structure ----------

  function Newlines(s: string): nat {
    if s == "" then 0 else (if s[0] == NL then 1 else 0) + Newlines(s[1..])
  }

  lemma {:induction false} LineCount(s: string)
    ensures |Lines(s)| == Newlines(s) + 1
  {
    if s != "" {
      LineCount(s[1..]);
    }
  }

  lemma {:induction false} NewlinesConcat(a: string, b: string)
    ensures Newlines(a + b) == Newlines(a) + Newlines(b)
  {
    if a == "" {
      assert a + b == b;
    } else {
      assert (a + b)[1..] == a[1..] + b;
      NewlinesConcat(a[1..], b);
    }
  }

  lemma {:induction false} NewlinesFree(s: string)
    ensures Newlines(s) == 0 <==> Free(s, NL)
  {
    if s != "" {
      NewlinesFree(s[1..]);
      assert s == [s[0]] + s[1..];
    }
  }

  lemma OneMoreTimes(n: nat, d: int)
    ensures (1 + n) * d == d + n * d
  {}

  /** Every replaced occurrence changes the number of lines by the same amount. */
  lemma {:induction false} ReplaceNewlines(s: string, oldName: string, newName: string)
    requires oldName != ""
    ensures Newlines(Replace(s, oldName, newName)) - Newlines(s)
         == Occurrences(s, oldName) * (Newlines(newName) - Newlines(oldName))
  {
    if |s| >= |oldName| {
      if s[..|oldName|] == oldName {
        ReplaceNewlines(s[|oldName|..], oldName, newName);
        assert s == oldName + s[|oldName|..];
        NewlinesConcat(oldName, s[|oldName|..]);
        NewlinesConcat(newName, Replace(s[|oldName|..], oldName, newName));
        OneMoreTimes(Occurrences(s[|oldName|..], oldName), Newlines(newName) - Newlines(oldName));
      } else {
        ReplaceNewlines(s[1..], oldName, newName);
        NewlinesConcat([s[0]], Replace(s[1..], oldName, newName));
        assert s == [s[0]] + s[1..];
        NewlinesConcat([s[0]], s[1..]);
      }
    }
  }

  /** The strict pairing of old and new lines succeeds. */
  predicate Pairable(s: string, oldName: string, newName: string)
    requires oldName != ""
  {
    |Lines(Replace(s, oldName, newName))| == |Lines(s)|
  }

  lemma ZeroProduct(n: nat, d: int)
    ensures n * d == 0 <==> n == 0 || d == 0
  {}

  /** The preview raises exactly when the symbol occurs and the two names differ in their number
  of newlines. */
  lemma PairableExactly(s: string, oldName: string, newName: string)
    requires oldName != ""
    ensures Pairable(s, oldName, newName) <==> Occurrences(s, oldName) == 0 || Newlines(oldName) == Newlines(newName)
  {
    ReplaceNewlines(s, oldName, newName);
    LineCount(s);
    LineCount(Replace(s, oldName, newName));
    ZeroProduct(Occurrences(s, oldName), Newlines(newName) - Newlines(oldName));
  }

  /** Renaming to a name over two lines raises as soon as the symbol occurs. */
  lemma TwoLineNameRaises()
    ensures !Pairable("a", "a", "b\nc")
  {
    assert Occurrences("a", "a") == 1 && "a"[..1] == "a";
    assert Newlines("a") == 0 && Newlines("c") == 0 && "b\nc"[1..] == "\nc" && "\nc"[1..] == "c";
    PairableExactly("a", "a", "b\nc");
  }

  /** An occurrence of a name without newline at the front of a line lies inside the line. */
  lemma MatchInLine(a: string, b: string, oldName: string)
    requires oldName != "" && Free(oldName, NL)
    ensures var s := a + [NL] + b;
      |s| >= |oldName| && s[..|oldName|] == oldName <==> |a| >= |oldName| && a[..|oldName|] == oldName
    ensures |a| >= |oldName| ==> (a + [NL] + b)[|oldName|..] == a[|oldName|..] + [NL] + b
  {
    var s := a + [NL] + b;
    if |s| >= |oldName| && s[..|oldName|] == oldName {
      assert s[|a|] == NL;
      assert forall i :: 0 <= i < |oldName| ==> s[i] == oldName[i] != NL;
    }
    if |a| >= |oldName| {
      assert s[..|oldName|] == a[..|oldName|];
    }
  }

  lemma ReplaceUnmatched(s: string, oldName: string, newName: string)
    requires oldName != "" && s != "" && !(|s| >= |oldName| && s[..|oldName|] == oldName)
    ensures Replace(s, oldName, newName) == [s[0]] + Replace(s[1..], oldName, newName)
  {
    if |s| < |oldName| {
      assert s == [s[0]] + s[1..];
    }
  }

  lemma FrontMatched(a: string, b: string, oldName: string, newName: string)
    requires oldName != "" && Free(oldName, NL) && |a| >= |oldName| && a[..|oldName|] == oldName
    ensures Replace(a, oldName, newName) == newName + Replace(a[|oldName|..], oldName, newName)
    ensures Replace(a + [NL] + b, oldName, newName) == newName + Replace(a[|oldName|..] + [NL] + b, oldName, newName)
  {
    MatchInLine(a, b, oldName);
  }

  lemma FrontUnmatched(a: string, b: string, oldName: string, newName: string)
    requires oldName != "" && Free(oldName, NL) && !(|a| >= |oldName| && a[..|oldName|] == oldName)
    ensures a != "" ==> Replace(a, oldName, newName) == [a[0]] + Replace(a[1..], oldName, newName)
    ensures a != "" ==> Replace(a + [NL] + b, oldName, newName) == [a[0]] + Replace(a[1..] + [NL] + b, oldName, newName)
    ensures a == "" ==> Replace(a + [NL] + b, oldName, newName) == [NL] + Replace(b, oldName, newName)
  {
    var s := a + [NL] + b;
    MatchInLine(a, b, oldName);
    ReplaceUnmatched(s, oldName, newName);
    if a == "" {
      assert s[1..] == b;
    } else {
      ReplaceUnmatched(a, oldName, newName);
      assert s[1..] == a[1..] + [NL] + b;
    }
  }

  lemma Regroup(x: string, y: string, z: string)
    ensures x + (y + [NL] + z) == (x + y) + [NL] + z
  {}

  /** A name without newline never matches across the end of a line. */
  lemma {:induction false} ReplaceAcrossLine(a: string, b: string, oldName: string, newName: string)
    requires oldName != "" && Free(oldName, NL)
    ensures Replace(a + [NL] + b, oldName, newName)
         == Replace(a, oldName, newName) + [NL] + Replace(b, oldName, newName)
    decreases |a|
  {
    if |a| >= |oldName| && a[..|oldName|] == oldName {
      var rest := a[|oldName|..];
      FrontMatched(a, b, oldName, newName);
      ReplaceAcrossLine(rest, b, oldName, newName);
      Regroup(newName, Replace(rest, oldName, newName), Replace(b, oldName, newName));
    } else {
      FrontUnmatched(a, b, oldName, newName);
      if a != "" {
        ReplaceAcrossLine(a[1..], b, oldName, newName);
        Regroup([a[0]], Replace(a[1..], oldName, newName), Replace(b, oldName, newName));
      }
    }
  }

  lemma {:induction false} ReplaceFree(s: string, oldName: string, newName: string)
    requires oldName != "" && Free(newName, NL) && Free(s, NL)
    ensures Free(Replace(s, oldName, newName), NL)
  {
    if |s| >= |oldName| {
      if s[..|oldName|] == oldName {
        ReplaceFree(s[|oldName|..], oldName, newName);
      } else {
        ReplaceFree(s[1..], oldName, newName);
      }
    }
  }

  function ReplaceIn(oldName: string, newName: string): string -> string
    requires oldName != ""
  {
    (line: string) => if oldName != "" then Replace(line, oldName, newName) else line
  }

  lemma {:induction false} ReplaceJoined(parts: seq<string>, oldName: string, newName: string)
    requires parts != [] && AllFree(parts, NL)
    requires oldName != "" && Free(oldName, NL) && Free(newName, NL)
    ensures Lines(Replace(Join(parts, NL), oldName, newName)) == Map(ReplaceIn(oldName, newName), parts)
  {
    ReplaceFree(parts[0], oldName, newName);
    SplitWhole(Replace(parts[0], oldName, newName), NL);
    if |parts| > 1 {
      var rest := Join(parts[1..], NL);
      ReplaceAcrossLine(parts[0], rest, oldName, newName);
      SplitConcat(Replace(parts[0], oldName, newName), NL, Replace(rest, oldName, newName));
      ReplaceJoined(parts[1..], oldName, newName);
    }
  }

  /** For names without newlines, replacing in the text and splitting is splitting and then
  replacing line by line: a hunk shows the replacement inside its own line. */
  lemma ReplaceLineByLine(s: string, oldName: string, newName: string)
    requires oldName != "" && Free(oldName, NL) && Free(newName, NL)
    ensures Lines(Replace(s, oldName, newName)) == Map(ReplaceIn(oldName, newName), Lines(s))
  {
    SplitFree(s, NL);
    JoinSplit(s, NL);
    ReplaceJoined(Lines(s), oldName, newName);
  }

  // ---------- printing the preview ----------

  function HunkHeader(n: nat): string {
    "@@ -" + Decimal(n) + ",1 +" + Decimal(n) + ",1 @@"
  }

  function HunkFor(n: nat, oldLine: string, newLine: string): seq<string> {
    if oldLine == newLine then [] else [HunkHeader(n), "-" + oldLine, "+" + newLine]
  }

  /** The hunks for the first k pairs of lines. */
  function Hunks(olds: seq<string>, news: seq<string>, k: nat): seq<string>
    requires k <= |olds| == |news|
  {
    if k == 0 then [] else Hunks(olds, news, k - 1) + HunkFor(k, olds[k - 1], news[k - 1])
  }

  function FileHeader(path: string): seq<string> {
    ["diff --git a/" + path + " b/" + path, "--- a/" + path, "+++ b/" + path]
  }

  /** The text of the preview; None when the strict pairing raises. */
  function PreviewText(path: string, s: string, oldName: string, newName: string): Option<string>
    requires oldName != ""
  {
    if Pairable(s, oldName, newName) then
      var news := Lines(Replace(s, oldName, newName));
      Some(Join(FileHeader(path) + Hunks(Lines(s), news, |news|), NL))
    else None
  }

  method GenerateRenameDiff(path: string, content: string, oldSymbol: string, newSymbol: string)
      returns (diff: Option<string>)
    requires oldSymbol != ""
    ensures diff == PreviewText(path, content, oldSymbol, newSymbol)
  {
    var lines := Split(content, NL);
    var newLines := Split(Replace(content, oldSymbol, newSymbol), NL);
    var diffLines := FileHeader(path);
    var i := 0;
    while i < |lines| && i < |newLines|
      invariant 0 <= i <= |lines| && i <= |newLines|
      invariant |lines| == |newLines| ==> diffLines == FileHeader(path) + Hunks(lines, newLines, i)
    {
      if lines[i] != newLines[i] {
        diffLines := diffLines + [HunkHeader(i + 1)] + ["-" + lines[i]] + ["+" + newLines[i]];
      }
      i := i + 1;
    }
    if |lines| != |newLines| {
      return None;
    }
    return Some(Join(diffLines, NL));
  }

  // ---------- an independent reader of one-line hunks ----------

  /** The line number in a hunk header. */
  function HeaderLine(h: string): Option<nat> {
    var first := Split(h, ',')[0];
    if |first| > 4 && first[..4] == "@@ -" && AllDigits(first[4..]) then Some(DigitsValue(first[4..])) else None
  }

  /** Applies hunks of three lines each, checking that the old line is where the header says. */
  function ApplyHunks(lines: seq<string>, hunks: seq<string>): Option<seq<string>>
    decreases |hunks|
  {
    if hunks == [] then Some(lines)
    else if |hunks| < 3 then None
    else
      var n := HeaderLine(hunks[0]);
      if n.Some? && 1 <= n.value <= |lines| && hunks[1] == "-" + lines[n.value - 1]
         && |hunks[2]| > 0 && hunks[2][0] == '+'
      then ApplyHunks(lines[n.value - 1 := hunks[2][1..]], hunks[3..])
      else None
  }

  /** Patches a text with the text of a preview, whose first three lines name the file. */
  function Patch(s: string, preview: string): Option<string> {
    var d := Lines(preview);
    if |d| < 3 then None
    else
      var r := ApplyHunks(Lines(s), d[3..]);
      if r.Some? then Some(Join(r.value, NL)) else None
  }

  lemma HeaderLineRead(n: nat)
    ensures HeaderLine(HunkHeader(n)) == Some(n) && Free(HunkHeader(n), NL)
  {
    var d := Decimal(n);
    forall i | 0 <= i < |d| ensures IsDigit(d[i]) {}
    var tail := "1 +" + d + ",1 @@";
    assert HunkHeader(n) == ("@@ -" + d) + [','] + tail;
    assert Free("@@ -" + d, ',');
    SplitConcat("@@ -" + d, ',', tail);
    SplitWhole("@@ -" + d, ',');
    assert ("@@ -" + d)[4..] == d;
    DecimalValue(n);
  }

  /** Hunks are applied one after the other. */
  lemma {:induction false} ApplyHunksConcat(lines: seq<string>, a: seq<string>, b: seq<string>)
    requires ApplyHunks(lines, a).Some?
    ensures ApplyHunks(lines, a + b) == ApplyHunks(ApplyHunks(lines, a).value, b)
    decreases |a|
  {
    if a == [] {
      assert a + b == b;
    } else {
      assert (a + b)[3..] == a[3..] + b;
      var n := HeaderLine(a[0]).value;
      ApplyHunksConcat(lines[n - 1 := a[2][1..]], a[3..], b);
    }
  }

  lemma PlusLine(line: string)
    ensures ("+" + line) != "" && ("+" + line)[0] == '+' && ("+" + line)[1..] == line
  {}

  lemma OneHunk(lines: seq<string>, k: nat, newLine: string)
    requires 1 <= k <= |lines|
    ensures ApplyHunks(lines, HunkFor(k, lines[k - 1], newLine)) == Some(lines[k - 1 := newLine])
  {
    var oldLine := lines[k - 1];
    if oldLine == newLine {
      NoHunk(lines, k, newLine);
    } else {
      HeaderLineRead(k);
      PlusLine(newLine);
      LastHunk(lines, HunkHeader(k), "-" + oldLine, "+" + newLine, k);
      assert HunkFor(k, oldLine, newLine) == [HunkHeader(k), "-" + oldLine, "+" + newLine];
    }
  }

  lemma NoHunk(lines: seq<string>, k: nat, newLine: string)
    requires 1 <= k <= |lines| && lines[k - 1] == newLine
    ensures ApplyHunks(lines, HunkFor(k, lines[k - 1], newLine)) == Some(lines[k - 1 := newLine])
  {
    assert lines[k - 1 := newLine] == lines;
  }

  lemma LastHunk(lines: seq<string>, header: string, minus: string, plus: string, k: nat)
    requires 1 <= k <= |lines| && HeaderLine(header) == Some(k)
    requires minus == "-" + lines[k - 1] && plus != "" && plus[0] == '+'
    ensures ApplyHunks(lines, [header, minus, plus]) == Some(lines[k - 1 := plus[1..]])
  {
    var h := [header, minus, plus];
    assert h[3..] == [];
  }

  lemma HunkAdvances(olds: seq<string>, news: seq<string>, k: nat)
    requires 1 <= k <= |olds| == |news|
    ensures var lines := news[..k - 1] + olds[k - 1..];
      |lines| == |olds| && lines[k - 1] == olds[k - 1] && lines[k - 1 := news[k - 1]] == news[..k] + olds[k..]
  {}

  /** After the hunks for the first k pairs, exactly the first k lines are the new ones. */
  lemma {:induction false} HunksRebuild(olds: seq<string>, news: seq<string>, k: nat)
    requires k <= |olds| == |news|
    ensures ApplyHunks(olds, Hunks(olds, news, k)) == Some(news[..k] + olds[k..])
  {
    if k == 0 {
      assert news[..0] + olds[0..] == olds;
    } else {
      HunksRebuild(olds, news, k - 1);
      HunkAdvances(olds, news, k);
      var lines := news[..k - 1] + olds[k - 1..];
      ApplyHunksConcat(olds, Hunks(olds, news, k - 1), HunkFor(k, lines[k - 1], news[k - 1]));
      OneHunk(lines, k, news[k - 1]);
    }
  }

  lemma {:induction false} HunksFree(olds: seq<string>, news: seq<string>, k: nat)
    requires k <= |olds| == |news| && AllFree(olds, NL) && AllFree(news, NL)
    ensures AllFree(Hunks(olds, news, k), NL)
  {
    if k > 0 {
      HunksFree(olds, news, k - 1);
      HeaderLineRead(k);
    }
  }

  /** The printed preview is read back as its header lines and its hunks. */
  lemma PreviewLines(path: string, s: string, oldName: string, newName: string)
    requires oldName != "" && Free(path, NL) && Pairable(s, oldName, newName)
    ensures var olds, news := Lines(s), Lines(Replace(s, oldName, newName));
      var d := Lines(PreviewText(path, s, oldName, newName).value);
      d == FileHeader(path) + Hunks(olds, news, |news|) && d[3..] == Hunks(olds, news, |news|)
  {
    var olds, news := Lines(s), Lines(Replace(s, oldName, newName));
    SplitFree(s, NL);
    SplitFree(Replace(s, oldName, newName), NL);
    HunksFree(olds, news, |news|);
    assert AllFree(FileHeader(path), NL);
    SplitJoin(FileHeader(path) + Hunks(olds, news, |news|), NL);
  }

  /** Preview equals application: whenever the preview can be printed, patching the original
  text with the printed preview gives exactly the text that the application writes. */
  lemma PreviewIsApplication(path: string, s: string, oldName: string, newName: string)
    requires oldName != "" && Free(path, NL) && Pairable(s, oldName, newName)
    ensures Patch(s, PreviewText(path, s, oldName, newName).value) == Some(Replace(s, oldName, newName))
  {
    var olds, news := Lines(s), Lines(Replace(s, oldName, newName));
    PreviewLines(path, s, oldName, newName);
    HunksRebuild(olds, news, |news|);
    assert news[..|news|] + olds[|news|..] == news;
    JoinSplit(Replace(s, oldName, newName), NL);
  }
}
