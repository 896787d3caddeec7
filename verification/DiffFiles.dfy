/** The scaffold executor prints diffs (rice_factor/adapters/executors/scaffold_executor.py) and
the diff executor reads the touched files off a diff (rice_factor/adapters/executors/
diff_executor.py). The two were written separately; this module says when they agree. */
module DiffFiles {
  import opened Sequences
  import opened Text
  import opened Ordering

  const DEV_NULL := "/dev/null"

  /** A file to create, with the comment text generated for it. */
  datatype FileEntry = FileEntry(path: string, content: string)

  // ---------- the printer ----------

  function PlusLines(lines: seq<string>): (r: seq<string>)
    ensures |r| == |lines| && forall i :: 0 <= i < |lines| ==> r[i] == "+" + lines[i]
  {
    seq(|lines|, i requires 0 <= i < |lines| => "+" + lines[i])
  }

  /** The lines of the generated text, without the empty one behind a final newline. */
  function ContentLines(content: string): seq<string> {
    if content == "" then []
    else
      var lines := Split(content, NL);
      if lines[|lines| - 1] == "" then lines[..|lines| - 1] else lines
  }

  function HunkLine(e: FileEntry): string {
    if e.content == "" then "@@ -0,0 +0,0 @@"
    else "@@ -0,0 +1," + Decimal(|ContentLines(e.content)|) + " @@"
  }

  function HeadLines(e: FileEntry): (h: seq<string>)
    ensures |h| == 5
  {
    ["diff --git a/" + e.path + " b/" + e.path, "new file mode 100644",
     "--- " + DEV_NULL, "+++ b/" + e.path, HunkLine(e)]
  }

  function EntryLines(e: FileEntry): seq<string> {
    HeadLines(e) + PlusLines(ContentLines(e.content)) + [""]
  }

  function PrintedLines(entries: seq<FileEntry>, existing: set<string>): seq<string> {
    if entries == [] then []
    else
      (if entries[0].path in existing then [] else EntryLines(entries[0])) + PrintedLines(entries[1..], existing)
  }

  lemma {:induction false} PrintedConcat(a: seq<FileEntry>, b: seq<FileEntry>, existing: set<string>)
    ensures PrintedLines(a + b, existing) == PrintedLines(a, existing) + PrintedLines(b, existing)
  {
    if a == [] {
      assert a + b == b;
    } else {
      assert (a + b)[1..] == a[1..] + b;
      PrintedConcat(a[1..], b, existing);
    }
  }

  method GenerateDiff(entries: seq<FileEntry>, existing: set<string>) returns (diff: string)
    ensures diff == Join(PrintedLines(entries, existing), NL)
  {
    var diffLines := [];
    for i := 0 to |entries|
      invariant diffLines == PrintedLines(entries[..i], existing)
    {
      var entry := entries[i];
      assert entries[..i + 1] == entries[..i] + [entry] && [entry][1..] == [];
      PrintedConcat(entries[..i], [entry], existing);
      ghost var before := diffLines;
      if entry.path !in existing {
        var printed := PrintEntry(entry);
        diffLines := diffLines + printed;
      }
      assert PrintedLines([entry], existing) == (if entry.path in existing then [] else EntryLines(entry)) + [];
    }
    assert entries[..|entries|] == entries;
    diff := Join(diffLines, NL);
  }

  method PrintEntry(entry: FileEntry) returns (lines: seq<string>)
    ensures lines == EntryLines(entry)
  {
    var content, hunk := PrintHunk(entry);
    lines := ["diff --git a/" + entry.path + " b/" + entry.path, "new file mode 100644"];
    lines := lines + ["--- " + DEV_NULL, "+++ b/" + entry.path, hunk];
    assert lines == HeadLines(entry);
    lines := AppendPlus(lines, content);
    lines := lines + [""];
  }

  /** The lines to print, and the hunk line that announces them. */
  method PrintHunk(entry: FileEntry) returns (content: seq<string>, hunk: string)
    ensures content == ContentLines(entry.content) && hunk == HunkLine(entry)
  {
    if entry.content == "" {
      return [], "@@ -0,0 +0,0 @@";
    }
    content := Split(entry.content, NL);
    if content[|content| - 1] == "" {
      content := content[..|content| - 1];
    }
    hunk := "@@ -0,0 +1," + Decimal(|content|) + " @@";
  }

  /** The inner loop: one added line per line of text. */
  method AppendPlus(start: seq<string>, content: seq<string>) returns (lines: seq<string>)
    ensures lines == start + PlusLines(content)
  {
    lines := start;
    for i := 0 to |content|
      invariant lines == start + PlusLines(content)[..i]
    {
      lines := lines + ["+" + content[i]];
    }
  }

  // ---------- the reader ----------

  function Named(path: string): Option<string> {
    if path != "" && path != DEV_NULL then Some(path) else None
  }

  /** The file named on one diff line. */
  function PathOn(line: string): Option<string> {
    if "--- a/" <= line || "+++ b/" <= line then Named(Strip(line[6..]))
    else if "--- " <= line then
      (if "a/" <= Strip(line[4..]) then None else Named(Strip(line[4..])))
    else if "+++ " <= line then
      (if "b/" <= Strip(line[4..]) then None else Named(Strip(line[4..])))
    else None
  }

  function FilesOn(lines: seq<string>): set<string> {
    if lines == [] then {}
    else (if PathOn(lines[0]).Some? then {PathOn(lines[0]).value} else {}) + FilesOn(lines[1..])
  }

  lemma {:induction false} FilesConcat(a: seq<string>, b: seq<string>)
    ensures FilesOn(a + b) == FilesOn(a) + FilesOn(b)
  {
    if a == [] {
      assert a + b == b;
    } else {
      assert (a + b)[1..] == a[1..] + b;
      FilesConcat(a[1..], b);
    }
  }

  method ParseDiffFiles(diff: string) returns (r: seq<string>)
    ensures Lists(r, FilesOn(Split(diff, NL)))
  {
    var lines := Split(diff, NL);
    var files: set<string> := {};
    for i := 0 to |lines|
      invariant files == FilesOn(lines[..i])
    {
      assert lines[..i + 1] == lines[..i] + [lines[i]] && [lines[i]][1..] == [];
      FilesConcat(lines[..i], [lines[i]]);
      var path := PathOn(lines[i]);
      if path.Some? {
        files := files + {path.value};
      }
    }
    assert lines[..|lines|] == lines;
    r := Sorted(files);
  }

  function Outside(authorized: seq<string>): string -> bool { (f: string) => f !in authorized }

  function CheckAuthorized(touched: seq<string>, authorized: seq<string>): seq<string> {
    Filter(Outside(authorized), touched)
  }

  // ---------- agreement ----------

  /** The paths of the entries that do not exist yet. */
  ghost function NewPaths(entries: seq<FileEntry>, existing: set<string>): set<string> {
    set e | e in entries && e.path !in existing :: e.path
  }

  /** What the reader takes for a file name inside generated text. */
  ghost function Phantoms(entries: seq<FileEntry>, existing: set<string>): set<string> {
    set e, line | e in entries && e.path !in existing && line in ContentLines(e.content) && PathOn("+" + line).Some?
      :: PathOn("+" + line).value
  }

  ghost predicate PlainPath(path: string) {
    Trimmed(path) && Free(path, NL) && path != DEV_NULL
  }

  ghost predicate PlainPaths(entries: seq<FileEntry>) {
    forall e :: e in entries ==> PlainPath(e.path)
  }

  lemma PathOnHeader(path: string)
    requires PlainPath(path)
    ensures PathOn("+++ b/" + path) == Some(path)
  {
    assert ("+++ b/" + path)[6..] == path;
    StripTrimmed(path);
  }

  lemma PathOnOldHeader(path: string)
    requires PlainPath(path)
    ensures PathOn("--- a/" + path) == Some(path)
  {
    assert ("--- a/" + path)[6..] == path;
    StripTrimmed(path);
  }

  /** A header without the usual prefix names its path too. */
  lemma PathOnUnprefixed(path: string)
    requires PlainPath(path)
    ensures !("a/" <= path) ==> PathOn("--- " + path) == Some(path)
    ensures !("b/" <= path) ==> PathOn("+++ " + path) == Some(path)
  {
    var minus, plus := "--- " + path, "+++ " + path;
    assert minus[4..] == path && plus[4..] == path;
    assert minus[0] == '-' && "--- " <= minus && ("--- a/" <= minus ==> "a/" <= path);
    assert plus[0] == '+' && "+++ " <= plus && ("+++ b/" <= plus ==> "b/" <= path);
    StripTrimmed(path);
  }

  lemma PathOnDevNull()
    ensures PathOn("--- " + DEV_NULL) == None
  {
    var line := "--- " + DEV_NULL;
    assert line[4..] == DEV_NULL && line[4] == '/';
    StripTrimmed(DEV_NULL);
  }

  lemma PathOnOther(line: string)
    requires line == "" || (line[0] != '-' && line[0] != '+')
    ensures PathOn(line) == None
  {}

  /** Only text that starts with two plus signs and a blank can be taken for a file name. */
  lemma PhantomNeedsPlusses(line: string)
    ensures PathOn("+" + line).Some? ==> "++ " <= line
  {
    var s := "+" + line;
    assert s[0] == '+' && s[1..] == line;
    if PathOn(s).Some? {
      assert "+++ " <= s;
      assert s[..4] == "+++ ";
      assert line[..3] == s[1..4];
    }
  }

  lemma {:induction false} FilesMember(lines: seq<string>, f: string)
    ensures f in FilesOn(lines) <==> exists i :: 0 <= i < |lines| && PathOn(lines[i]) == Some(f)
  {
    if lines != [] {
      FilesMember(lines[1..], f);
      assert forall i :: 0 < i < |lines| ==> lines[i] == lines[1..][i - 1];
      assert forall i :: 0 <= i < |lines[1..]| ==> lines[1..][i] == lines[i + 1];
    }
  }

  lemma FilesOnEntry(e: FileEntry, f: string)
    requires PlainPath(e.path)
    ensures f in FilesOn(EntryLines(e)) <==>
      f == e.path || exists line :: line in ContentLines(e.content) && PathOn("+" + line) == Some(f)
  {
    var head := HeadLines(e);
    var plus := PlusLines(ContentLines(e.content));
    FilesOnHead(e);
    FilesConcat(head + plus, [""]);
    FilesConcat(head, plus);
    assert FilesOn([""]) == {} by {
      assert [""][1..] == [];
    }
    FilesMember(plus, f);
    if f in FilesOn(plus) {
      var i :| 0 <= i < |plus| && PathOn(plus[i]) == Some(f);
      assert ContentLines(e.content)[i] in ContentLines(e.content);
    }
    if exists line :: line in ContentLines(e.content) && PathOn("+" + line) == Some(f) {
      var line :| line in ContentLines(e.content) && PathOn("+" + line) == Some(f);
      var i :| 0 <= i < |ContentLines(e.content)| && ContentLines(e.content)[i] == line;
      assert PathOn(plus[i]) == Some(f);
    }
  }

  lemma HeadPaths(e: FileEntry)
    requires PlainPath(e.path)
    ensures forall i :: 0 <= i < 5 ==> PathOn(HeadLines(e)[i]) == if i == 3 then Some(e.path) else None
  {
    var head := HeadLines(e);
    assert head[0][0] == 'd' && head[1][0] == 'n' && head[4][0] == '@';
    PathOnOther(head[0]);
    PathOnOther(head[1]);
    PathOnDevNull();
    PathOnHeader(e.path);
    PathOnOther(head[4]);
  }

  lemma FilesOnHead(e: FileEntry)
    requires PlainPath(e.path)
    ensures FilesOn(HeadLines(e)) == {e.path}
  {
    HeadPaths(e);
    forall f ensures f in FilesOn(HeadLines(e)) <==> f == e.path {
      FilesMember(HeadLines(e), f);
      assert PathOn(HeadLines(e)[3]) == Some(e.path);
    }
  }

  /** What the reader finds in a printed diff: the new paths, and the phantoms. */
  lemma {:induction false} FilesOnPrinted(entries: seq<FileEntry>, existing: set<string>)
    requires PlainPaths(entries)
    ensures FilesOn(PrintedLines(entries, existing)) == NewPaths(entries, existing) + Phantoms(entries, existing)
  {
    if entries != [] {
      var e, rest := entries[0], entries[1..];
      assert entries == [e] + rest;
      FilesOnPrinted(rest, existing);
      var here := if e.path in existing then [] else EntryLines(e);
      FilesConcat(here, PrintedLines(rest, existing));
      forall f ensures f in FilesOn(here) <==> f in NewPaths([e], existing) + Phantoms([e], existing) {
        FilesOnEntry(e, f);
      }
      assert NewPaths(entries, existing) == NewPaths([e], existing) + NewPaths(rest, existing);
      assert Phantoms(entries, existing) == Phantoms([e], existing) + Phantoms(rest, existing);
    }
  }

  lemma {:induction false} PrintedFree(entries: seq<FileEntry>, existing: set<string>)
    requires PlainPaths(entries)
    ensures AllFree(PrintedLines(entries, existing), NL)
  {
    if entries != [] {
      assert entries == [entries[0]] + entries[1..];
      PrintedFree(entries[1..], existing);
      EntryFree(entries[0]);
    }
  }

  lemma HunkFree(e: FileEntry)
    ensures Free(HunkLine(e), NL)
  {
    var n := Decimal(|ContentLines(e.content)|);
    forall i | 0 <= i < |n| ensures n[i] != NL {
      assert IsDigit(n[i]);
    }
  }

  lemma FreeConcat(a: string, b: string)
    requires Free(a, NL) && Free(b, NL)
    ensures Free(a + b, NL)
  {}

  lemma GitLineFree(path: string)
    requires Free(path, NL)
    ensures Free("diff --git a/" + path + " b/" + path, NL)
  {
    FreeConcat("diff --git a/", path);
    FreeConcat("diff --git a/" + path, " b/");
    FreeConcat("diff --git a/" + path + " b/", path);
  }

  lemma HeadFree(e: FileEntry)
    requires Free(e.path, NL)
    ensures AllFree(HeadLines(e), NL)
  {
    GitLineFree(e.path);
    FreeConcat("--- ", DEV_NULL);
    FreeConcat("+++ b/", e.path);
    HunkFree(e);
    AllFive(HeadLines(e));
  }

  lemma AllFive(h: seq<string>)
    requires |h| == 5 && Free(h[0], NL) && Free(h[1], NL) && Free(h[2], NL) && Free(h[3], NL) && Free(h[4], NL)
    ensures AllFree(h, NL)
  {}

  lemma EntryFree(e: FileEntry)
    requires PlainPath(e.path)
    ensures AllFree(EntryLines(e), NL)
  {
    SplitFree(e.content, NL);
    HeadFree(e);
    var plus := PlusLines(ContentLines(e.content));
    assert AllFree(plus, NL);
  }

  /** Diff print/read agreement: the reader lists exactly the new paths, sorted and without
  duplicates, if and only if every phantom happens to be one of them; that is so in particular
  when no generated line starts with two plus signs and a blank. */
  lemma ReaderReadsPrinter(entries: seq<FileEntry>, existing: set<string>, r: seq<string>)
    requires PlainPaths(entries)
    requires Lists(r, FilesOn(Split(Join(PrintedLines(entries, existing), NL), NL)))
    ensures Lists(r, NewPaths(entries, existing)) <==> Phantoms(entries, existing) <= NewPaths(entries, existing)
    ensures (forall e, line :: e in entries && line in ContentLines(e.content) ==> !("++ " <= line))
      ==> Lists(r, NewPaths(entries, existing))
  {
    var lines := PrintedLines(entries, existing);
    var added, phantoms := NewPaths(entries, existing), Phantoms(entries, existing);
    PrintedFree(entries, existing);
    FilesOnPrinted(entries, existing);
    if lines == [] {
      assert Split("", NL) == [""] && [""][1..] == [];
    } else {
      SplitJoin(lines, NL);
    }
    assert Lists(r, added + phantoms);
    if Lists(r, added) {
      assert forall f :: f in added + phantoms <==> f in added;
    }
    if forall e, line :: e in entries && line in ContentLines(e.content) ==> !("++ " <= line) {
      forall line ensures PathOn("+" + line).Some? ==> "++ " <= line {
        PhantomNeedsPlusses(line);
      }
      assert phantoms == {};
    }
    if phantoms <= added {
      assert added + phantoms == added;
    }
  }

  /** Generated text with a line `++ x` makes the reader list a file x that nobody creates. */
  lemma PhantomIsListed(path: string)
    requires PlainPath(path) && path != "x"
    ensures var entries := [FileEntry(path, "++ x")];
      && PlainPaths(entries) && NewPaths(entries, {}) == {path} && "x" in Phantoms(entries, {})
      && "x" in FilesOn(PrintedLines(entries, {}))
  {
    var e := FileEntry(path, "++ x");
    SplitWhole(e.content, NL);
    assert e.content in ContentLines(e.content);
    PathOnPlusses();
    assert e in [e] && PathOn("+" + e.content) == Some("x");
    FilesOnPrinted([e], {});
    assert forall f :: f in [e] ==> f == e;
  }

  lemma PathOnPlusses()
    ensures PathOn("+" + "++ x") == Some("x")
  {
    var line := "+" + "++ x";
    assert line[4..] == "x";
    StripTrimmed("x");
  }

  /** The authorization check lets a touched list pass exactly when every file on it is allowed,
  so a printed scaffold passes when the allowed files cover its new paths. */
  lemma AuthorizedExactly(r: seq<string>, files: set<string>, authorized: seq<string>)
    requires Lists(r, files)
    ensures CheckAuthorized(r, authorized) == [] <==> forall f :: f in files ==> f in authorized
  {
    var bad := CheckAuthorized(r, authorized);
    forall f ensures f in bad <==> f in r && f !in authorized {
      FilterMember(Outside(authorized), r, f);
    }
    if bad != [] {
      assert bad[0] in bad;
    }
  }
}
