/** What the scaffold diff and its reader say, line by line (rice_factor/adapters/executors/
scaffold_executor.py and diff_executor.py). */
module DiffFileLaws {
  import opened Sequences
  import opened Text
  import opened TextLaws
  import opened Ordering
  import opened DiffFiles

  // ---------- the printed lines ----------

  /** The lines of a text make it up again, but for one newline at its end. */
  lemma ContentJoined(content: string)
    requires content != ""
    ensures var lines := ContentLines(content);
      && lines != [] && AllFree(lines, NL)
      && (content[|content| - 1] != NL ==> Join(lines, NL) == content)
      && (content[|content| - 1] == NL ==> Join(lines, NL) + [NL] == content)
  {
    var parts := Split(content, NL);
    JoinSplit(content, NL);
    SplitFree(content, NL);
    var n := |content| - 1;
    if content[n] == NL {
      assert content == content[..n] + [NL] + "";
      SplitConcat(content[..n], NL, "");
      JoinSplit(content[..n], NL);
      assert (Split(content[..n], NL) + [""])[..|Split(content[..n], NL)|] == Split(content[..n], NL);
    } else {
      LastPartEndsText(content);
    }
  }

  lemma {:induction false} LastPartEndsText(s: string)
    requires s != "" && s[|s| - 1] != NL
    ensures var parts := Split(s, NL); parts[|parts| - 1] != ""
  {
    if |s| > 1 {
      LastPartEndsText(s[1..]);
    }
  }

  /** The line that announces the added lines of a non-empty text holds their number. */
  lemma HunkLineRead(e: FileEntry)
    requires e.content != ""
    ensures var h := HunkLine(e);
      && |h| > 14 && h[..11] == "@@ -0,0 +1," && h[|h| - 3..] == " @@"
      && AllDigits(h[11..|h| - 3]) && DigitsValue(h[11..|h| - 3]) == |ContentLines(e.content)|
  {
    var n := |ContentLines(e.content)|;
    DecimalValue(n);
    BetweenMarks("@@ -0,0 +1,", Decimal(n), " @@");
  }

  lemma BetweenMarks(a: string, b: string, c: string)
    ensures var h := a + b + c;
      h[..|a|] == a && h[|a|..|h| - |c|] == b && h[|h| - |c|..] == c
  {}

  /** One file of two lines, printed. */
  lemma EntryPrinted()
    ensures EntryLines(FileEntry("a", "x\ny\n")) == ["diff --git a/a b/a", "new file mode 100644",
      "--- /dev/null", "+++ b/a", "@@ -0,0 +1,2 @@"] + ["+x", "+y"] + [""]
  {
    var e := FileEntry("a", "x\ny\n");
    ContentSplit();
    TwoPlusLines();
    HeadPrinted(e);
    assert Decimal(2) == "2";
    assert HunkLine(e) == "@@ -0,0 +1,2 @@";
  }

  lemma HeadPrinted(e: FileEntry)
    requires e.path == "a"
    ensures HeadLines(e) == ["diff --git a/a b/a", "new file mode 100644", "--- /dev/null", "+++ b/a", HunkLine(e)]
  {
    assert "diff --git a/" + "a" + " b/" + "a" == "diff --git a/a b/a";
    assert "--- " + DEV_NULL == "--- /dev/null" && "+++ b/" + "a" == "+++ b/a";
  }

  lemma TwoPlusLines()
    ensures PlusLines(["x", "y"]) == ["+x", "+y"]
  {
    assert "+" + "x" == "+x" && "+" + "y" == "+y";
  }

  lemma ContentSplit()
    ensures ContentLines("x\ny\n") == ["x", "y"]
  {
    var parts := ["x", "y", ""];
    assert parts[1..] == ["y", ""] && ["y", ""][1..] == [""];
    assert Join(["y", ""], NL) == "y\n" && Join(parts, NL) == "x\ny\n";
    SplitJoin(parts, NL);
    assert parts[..2] == ["x", "y"];
  }

  /** An empty file announces no lines. */
  lemma EmptyEntryPrinted()
    ensures EntryLines(FileEntry("a", "")) == ["diff --git a/a b/a", "new file mode 100644",
      "--- /dev/null", "+++ b/a", "@@ -0,0 +0,0 @@"] + [""]
  {
    var e := FileEntry("a", "");
    HeadPrinted(e);
    assert PlusLines([]) == [];
    assert HeadLines(e) + [] == HeadLines(e);
  }

  // ---------- the reader ----------

  /** What follows the usual prefixes names the path, stripped, unless nothing or the null device
  is left. */
  lemma PrefixedPath(rest: string)
    ensures var p := Strip(rest); var named := if p == "" || p == "/dev/null" then None else Some(p);
      PathOn("--- a/" + rest) == named && PathOn("+++ b/" + rest) == named
  {
    assert ("--- a/" + rest)[6..] == rest && ("+++ b/" + rest)[6..] == rest;
  }

  /** Without them, too, unless blanks stand before the prefix. */
  lemma UnprefixedPath(rest: string)
    ensures var p := Strip(rest); var named := if p == "" || p == "/dev/null" then None else Some(p);
      && (!("a/" <= rest) ==> PathOn("--- " + rest) == if "a/" <= p then None else named)
      && (!("b/" <= rest) ==> PathOn("+++ " + rest) == if "b/" <= p then None else named)
  {
    var minus, plus := "--- " + rest, "+++ " + rest;
    assert minus[4..] == rest && plus[4..] == rest;
    assert minus[0] == '-' && "--- " <= minus && ("--- a/" <= minus ==> "a/" <= rest);
    assert plus[0] == '+' && "+++ " <= plus && ("+++ b/" <= plus ==> "b/" <= rest);
  }

  /** No other line names a path. */
  lemma OtherLine(line: string)
    requires |line| < 4 || (line[..4] != "--- " && line[..4] != "+++ ")
    ensures PathOn(line) == None
  {
    if |line| >= 6 {
      assert line[..6][..4] == line[..4] && "--- a/"[..4] == "--- " && "+++ b/"[..4] == "+++ ";
    }
  }

  // ---------- authorization ----------

  lemma {:induction false} FilterAscending(p: string -> bool, s: seq<string>)
    requires Ascending(s)
    ensures Ascending(Filter(p, s))
  {
    var at := FilterPicks(p, s);
  }

  /** The unauthorized files, in the order of the touched ones, each once. */
  lemma UnauthorizedExactly(r: seq<string>, files: set<string>, authorized: seq<string>)
    requires Lists(r, files)
    ensures Lists(CheckAuthorized(r, authorized), set f | f in files && f !in authorized)
  {
    FilterAscending(Outside(authorized), r);
    forall f ensures f in CheckAuthorized(r, authorized) <==> f in files && f !in authorized {
      FilterMember(Outside(authorized), r, f);
    }
  }
}
