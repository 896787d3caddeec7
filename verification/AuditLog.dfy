/** The audit log (rice_factor/adapters/executors/audit_logger.py): one JSON line per entry,
appended to a file, and three readers of that file. JSON itself is a parameter. */
module AuditLogs {
  import opened Sequences
  import opened Text

  datatype Entry = Entry(artifact: string, details: string)

  /** `fromJson` returns None where the source raises and skips the line. */
  datatype Codec = Codec(toJson: Entry -> string, fromJson: string -> Option<Entry>)

  /** Printed entries are single trimmed lines and are read back as they were. */
  ghost predicate Faithful(codec: Codec) {
    forall e :: var line := codec.toJson(e);
      Trimmed(line) && Free(line, NL) && codec.fromJson(line) == Some(e)
  }

  function ParseLine(codec: Codec, line: string): Option<Entry> {
    if Strip(line) == "" then None else codec.fromJson(line)
  }

  /** The entries on the lines, in order; blank and malformed lines are skipped. */
  function Parsed(codec: Codec, lines: seq<string>): seq<Entry> {
    if lines == [] then []
    else
      var rest := Parsed(codec, lines[1..]);
      var e := ParseLine(codec, lines[0]);
      if e.Some? then [e.value] + rest else rest
  }

  function LogLines(content: string): seq<string> {
    Split(Strip(content), NL)
  }

  /** Everything that can be read from a log file; None is a file that does not exist. */
  function Entries(codec: Codec, file: Option<string>): seq<Entry> {
    if file.None? then [] else Parsed(codec, LogLines(file.value))
  }

  function TextOf(file: Option<string>): string {
    if file.Some? then file.value else ""
  }

  /** The file after these appends. */
  function Appended(codec: Codec, file: Option<string>, entries: seq<Entry>): Option<string> {
    if entries == [] then file
    else
      var n := |entries| - 1;
      Some(TextOf(Appended(codec, file, entries[..n])) + codec.toJson(entries[n]) + "\n")
  }

  function About(artifact: string): Entry -> bool { (e: Entry) => e.artifact == artifact }

  function Take(s: seq<Entry>, n: nat): seq<Entry> {
    if n < |s| then s[..n] else s
  }

  lemma {:induction false} ParsedConcat(codec: Codec, a: seq<string>, b: seq<string>)
    ensures Parsed(codec, a + b) == Parsed(codec, a) + Parsed(codec, b)
  {
    if a == [] {
      assert a + b == b;
    } else {
      assert (a + b)[1..] == a[1..] + b;
      ParsedConcat(codec, a[1..], b);
    }
  }

  function Seq(o: Option<Entry>): seq<Entry> {
    if o.Some? then [o.value] else []
  }

  lemma ParsedOne(codec: Codec, line: string)
    ensures Parsed(codec, [line]) == Seq(ParseLine(codec, line))
  {
    assert [line][1..] == [];
  }

  class AuditLogger {
    const codec: Codec
    var file: Option<string>

    constructor (codec: Codec)
      ensures this.codec == codec && file == None
    {
      this.codec, file := codec, None;
    }

    method LogExecution(e: Entry)
      modifies this
      ensures file == Some(TextOf(old(file)) + codec.toJson(e) + "\n") == Appended(codec, old(file), [e])
    {
      var content := if file.Some? then file.value else "";
      file := Some(content + codec.toJson(e) + "\n");
    }

    method ReadAllEntries() returns (entries: seq<Entry>)
      ensures entries == Entries(codec, file)
    {
      if file.None? {
        return [];
      }
      entries := [];
      var lines := LogLines(file.value);
      for i := 0 to |lines|
        invariant entries == Parsed(codec, lines[..i])
      {
        assert lines[..i + 1] == lines[..i] + [lines[i]];
        ParsedConcat(codec, lines[..i], [lines[i]]);
        ParsedOne(codec, lines[i]);
        if Strip(lines[i]) == "" {
          continue;
        }
        var e := codec.fromJson(lines[i]);
        if e.Some? {
          entries := entries + [e.value];
        }
      }
      assert lines[..|lines|] == lines;
    }

    method ReadEntriesForArtifact(artifact: string) returns (entries: seq<Entry>)
      ensures entries == Filter(About(artifact), Entries(codec, file))
    {
      if file.None? {
        return [];
      }
      entries := [];
      var lines := LogLines(file.value);
      for i := 0 to |lines|
        invariant entries == Filter(About(artifact), Parsed(codec, lines[..i]))
      {
        assert lines[..i + 1] == lines[..i] + [lines[i]];
        ParsedConcat(codec, lines[..i], [lines[i]]);
        ParsedOne(codec, lines[i]);
        FilterConcat(About(artifact), Parsed(codec, lines[..i]), Parsed(codec, [lines[i]]));
        if Strip(lines[i]) == "" {
          continue;
        }
        var e := codec.fromJson(lines[i]);
        if e.Some? && e.value.artifact == artifact {
          entries := entries + [e.value];
        }
      }
      assert lines[..|lines|] == lines;
    }

    /** Newest first, read from the end; the limit is looked at after each entry, so a limit
    below one acts like one. */
    method ReadRecentEntries(limit: int) returns (entries: seq<Entry>)
      ensures entries == Take(Reverse(Entries(codec, file)), if limit < 1 then 1 else limit)
    {
      if file.None? {
        return [];
      }
      entries := [];
      var lines := LogLines(file.value);
      var i := |lines|;
      assert lines[i..] == [];
      while i > 0
        invariant 0 <= i <= |lines|
        invariant entries == Reverse(Parsed(codec, lines[i..]))
        invariant entries != [] ==> |entries| < limit
      {
        i := i - 1;
        LineBack(codec, lines, i);
        if Strip(lines[i]) == "" {
          continue;
        }
        var e := codec.fromJson(lines[i]);
        if e.Some? {
          entries := entries + [e.value];
          if |entries| >= limit {
            break;
          }
        }
      }
      assert lines == lines[..i] + lines[i..];
      ParsedConcat(codec, lines[..i], lines[i..]);
      ReverseConcat(Parsed(codec, lines[..i]), Parsed(codec, lines[i..]));
      assert i == 0 ==> lines[..0] == [];
      TakePrefix(entries, Reverse(Parsed(codec, lines[..i])), if limit < 1 then 1 else limit);
    }
  }

  lemma TakePrefix(a: seq<Entry>, b: seq<Entry>, n: nat)
    requires |a| == n || (|a| < n && b == [])
    ensures Take(a + b, n) == a
  {
    assert (a + b)[..|a|] == a;
  }

  lemma ParsedFirst(codec: Codec, lines: seq<string>, i: nat)
    requires i < |lines|
    ensures Parsed(codec, lines[i..]) == Seq(ParseLine(codec, lines[i])) + Parsed(codec, lines[i + 1..])
  {
    assert lines[i..][1..] == lines[i + 1..];
  }

  lemma ReverseOne(one: seq<Entry>, after: seq<Entry>)
    requires |one| <= 1
    ensures Reverse(one + after) == Reverse(after) + one
  {
    if one == [] {
      assert one + after == after;
    } else {
      assert (one + after)[1..] == after && one == [one[0]];
    }
  }

  /** Stepping back over one line, for the reader that starts at the end. */
  lemma LineBack(codec: Codec, lines: seq<string>, i: nat)
    requires i < |lines|
    ensures Reverse(Parsed(codec, lines[i..]))
         == Reverse(Parsed(codec, lines[i + 1..])) + Seq(ParseLine(codec, lines[i]))
  {
    ParsedFirst(codec, lines, i);
    ReverseOne(Seq(ParseLine(codec, lines[i])), Parsed(codec, lines[i + 1..]));
  }

  lemma ReverseConcat(a: seq<Entry>, b: seq<Entry>)
    ensures Reverse(a + b) == Reverse(b) + Reverse(a)
  {
    forall i | 0 <= i < |a + b| ensures Reverse(a + b)[i] == (Reverse(b) + Reverse(a))[i] {}
  }

  // ---------- what is read after any run of appends ----------

  lemma LogTextLast(codec: Codec, entries: seq<Entry>)
    requires entries != []
    ensures var n := |entries| - 1;
      LogText(Printed(codec, entries)) == LogText(Printed(codec, entries[..n])) + codec.toJson(entries[n]) + "\n"
  {
    assert Printed(codec, entries)[..|entries| - 1] == Printed(codec, entries[..|entries| - 1]);
  }

  lemma {:induction false} AppendedText(codec: Codec, file: Option<string>, entries: seq<Entry>)
    ensures TextOf(Appended(codec, file, entries)) == TextOf(file) + LogText(Printed(codec, entries))
    ensures entries != [] ==> Appended(codec, file, entries).Some?
  {
    if entries == [] {
      assert TextOf(file) + "" == TextOf(file);
    } else {
      var init := entries[..|entries| - 1];
      AppendedText(codec, file, init);
      LogTextLast(codec, entries);
      RegroupText(TextOf(file), LogText(Printed(codec, init)), codec.toJson(entries[|init|]));
    }
  }

  lemma RegroupText(a: string, b: string, c: string)
    ensures (a + b) + c + "\n" == a + (b + c + "\n")
  {}

  /** A log file with these lines, each ended by a newline. */
  function LogText(lines: seq<string>): string {
    if lines == [] then "" else LogText(lines[..|lines| - 1]) + lines[|lines| - 1] + "\n"
  }

  ghost predicate WholeLines(lines: seq<string>) {
    forall i :: 0 <= i < |lines| ==> Trimmed(lines[i]) && Free(lines[i], NL)
  }

  lemma {:induction false} LogTextJoins(lines: seq<string>)
    requires lines != [] && WholeLines(lines)
    ensures LogText(lines) == Join(lines, NL) + "\n"
    ensures Trimmed(Join(lines, NL))
  {
    if |lines| == 1 {
      assert LogText(lines[..0]) == "";
      assert "" + lines[0] == lines[0];
    } else {
      var init, last := lines[..|lines| - 1], lines[|lines| - 1];
      LogTextJoins(init);
      JoinLast(init, last, NL);
      assert lines == init + [last];
      assert (Join(init, NL) + "\n") + last + "\n" == Join(init, NL) + [NL] + last + "\n";
    }
  }

  function Printed(codec: Codec, entries: seq<Entry>): (lines: seq<string>)
    ensures |lines| == |entries| && forall i :: 0 <= i < |entries| ==> lines[i] == codec.toJson(entries[i])
  {
    seq(|entries|, i requires 0 <= i < |entries| => codec.toJson(entries[i]))
  }

  lemma {:induction false} PrintedParsed(codec: Codec, entries: seq<Entry>)
    requires Faithful(codec)
    ensures Parsed(codec, Printed(codec, entries)) == entries
  {
    if entries != [] {
      PrintedParsed(codec, entries[1..]);
      assert Printed(codec, entries)[1..] == Printed(codec, entries[1..]);
      StripTrimmed(codec.toJson(entries[0]));
      assert entries == [entries[0]] + entries[1..];
    }
  }

  /** Stripping the end of a text drops its last blank lines and strips the last other one. */
  function TrimEnd(lines: seq<string>): seq<string>
    requires lines != []
    decreases |lines|
  {
    var n := |lines| - 1;
    if n > 0 && RStrip(lines[n]) == "" then TrimEnd(lines[..n]) else lines[..n] + [RStrip(lines[n])]
  }

  lemma {:induction false} LinesOfRStrip(s: string)
    ensures Split(RStrip(s), NL) == TrimEnd(Split(s, NL))
  {
    if s != "" {
      var n := |s| - 1;
      assert s == s[..n] + [s[n]];
      if s[n] == NL {
        assert s == s[..n] + [NL] + "";
        SplitConcat(s[..n], NL, "");
        assert (Split(s[..n], NL) + [""])[..|Split(s[..n], NL)|] == Split(s[..n], NL);
        LinesOfRStrip(s[..n]);
      } else {
        LastCharSplit(s[..n], s[n]);
        TrimEndLastChar(Split(s[..n], NL), s[n]);
        if IsSpace(s[n]) {
          LinesOfRStrip(s[..n]);
        }
      }
    }
  }

  lemma LastCharSplit(a: string, c: char)
    requires c != NL
    ensures var p := Split(a, NL); Split(a + [c], NL) == p[..|p| - 1] + [p[|p| - 1] + [c]]
  {
    SplitWhole([c], NL);
    SplitAppend(a, [c], NL);
    var p := Split(a, NL);
    assert [[c]][1..] == [] && p[..|p| - 1] + [p[|p| - 1] + [c]] + [] == p[..|p| - 1] + [p[|p| - 1] + [c]];
  }

  lemma TrimEndLastChar(p: seq<string>, c: char)
    requires p != []
    ensures var q := p[..|p| - 1] + [p[|p| - 1] + [c]];
      TrimEnd(q) == if IsSpace(c) then TrimEnd(p) else q
  {
    var last := p[|p| - 1] + [c];
    var q := p[..|p| - 1] + [last];
    assert last[..|last| - 1] == p[|p| - 1];
    assert RStrip(last) == if IsSpace(c) then RStrip(p[|p| - 1]) else last;
    assert q[..|q| - 1] == p[..|p| - 1];
  }

  /** The last line that is not blank; the first one if all are. */
  function LastText(lines: seq<string>): string
    requires lines != []
    decreases |lines|
  {
    var n := |lines| - 1;
    if n > 0 && RStrip(lines[n]) == "" then LastText(lines[..n]) else lines[n]
  }

  lemma {:induction false} BlankStripped(s: string)
    ensures RStrip(s) == "" <==> IsBlank(s)
  {
    if s != "" {
      assert s == s[..|s| - 1] + [s[|s| - 1]];
      BlankStripped(s[..|s| - 1]);
    }
  }

  lemma {:induction false} LStripBlank(s: string)
    ensures LStrip(s) == "" <==> IsBlank(s)
    ensures !IsBlank(LStrip(s)) || LStrip(s) == ""
  {
    if s != "" {
      assert s == [s[0]] + s[1..];
      LStripBlank(s[1..]);
    }
  }

  lemma BlankLineSkipped(codec: Codec, line: string)
    requires IsBlank(line)
    ensures ParseLine(codec, line) == None && RStrip(line) == ""
  {
    BlankStripped(line);
    LStripBlank(line);
  }

  /** Reading the stripped text and reading the text differ at the last line only: `front` is what
  both read before it. */
  lemma {:induction false} TrimEndParsed(codec: Codec, lines: seq<string>) returns (front: seq<Entry>)
    requires lines != []
    ensures Parsed(codec, lines) == front + Seq(ParseLine(codec, LastText(lines)))
    ensures Parsed(codec, TrimEnd(lines)) == front + Seq(ParseLine(codec, RStrip(LastText(lines))))
    ensures RStrip(lines[|lines| - 1]) != "" ==> front == Parsed(codec, lines[..|lines| - 1])
    decreases |lines|
  {
    var n := |lines| - 1;
    assert lines == lines[..n] + [lines[n]];
    ParsedConcat(codec, lines[..n], [lines[n]]);
    ParsedOne(codec, lines[n]);
    if n > 0 && RStrip(lines[n]) == "" {
      BlankStripped(lines[n]);
      BlankLineSkipped(codec, lines[n]);
      front := TrimEndParsed(codec, lines[..n]);
    } else {
      ParsedConcat(codec, lines[..n], [RStrip(lines[n])]);
      ParsedOne(codec, RStrip(lines[n]));
      front := Parsed(codec, lines[..n]);
    }
  }

  /** The lines of a text that is not blank, before and after printed entries are appended. */
  lemma LinesAppended(codec: Codec, text: string, entries: seq<Entry>)
    requires Faithful(codec) && entries != [] && !IsBlank(text)
    ensures var p, printed := Split(LStrip(text), NL), Printed(codec, entries);
      && Entries(codec, Some(text)) == Parsed(codec, TrimEnd(p))
      && Entries(codec, Some(text + LogText(printed))) == Parsed(codec, Glue(p, printed))
  {
    var printed := Printed(codec, entries);
    var d, body := LStrip(text), Join(printed, NL);
    LogTextJoins(printed);
    LStripAppend(text, LogText(printed));
    LinesOfRStrip(d);
    assert d + (body + "\n") == (d + body) + "\n";
    StripFinalNewline(d + body);
    SplitAppend(d, body, NL);
    SplitJoin(printed, NL);
  }

  lemma StripFinalNewline(s: string)
    requires s != "" && !IsSpace(s[|s| - 1])
    ensures RStrip(s + "\n") == s
  {
    assert (s + "\n")[..|s|] == s;
  }

  lemma LinesOfPrinted(codec: Codec, blank: string, entries: seq<Entry>)
    requires Faithful(codec) && entries != [] && IsBlank(blank)
    ensures LogLines(blank + LogText(Printed(codec, entries))) == Printed(codec, entries)
    ensures Entries(codec, Some(blank)) == []
  {
    var printed := Printed(codec, entries);
    LogTextJoins(printed);
    LStripAppend(blank, LogText(printed));
    LStripBlank(blank);
    StripFinalNewline(Join(printed, NL));
    SplitJoin(printed, NL);
    ParsedOne(codec, "");
  }

  /** What the last line of the text yields while it is last and once another line follows, and
  what it yields joined with an entry if it was not ended. */
  ghost function ReadLast(codec: Codec, file: Option<string>): Option<Entry> {
    ParseLine(codec, RStrip(LastText(TextLines(file))))
  }

  ghost function KeptLast(codec: Codec, file: Option<string>): Option<Entry> {
    if IsBlank(Unended(file)) then ParseLine(codec, LastText(TextLines(file))) else None
  }

  ghost function Joined(codec: Codec, file: Option<string>, e: Entry): Option<Entry> {
    ParseLine(codec, Unended(file) + codec.toJson(e))
  }

  function TextLines(file: Option<string>): (p: seq<string>)
    ensures p != []
  {
    Split(LStrip(TextOf(file)), NL)
  }

  /** What stands behind the last newline. */
  function Unended(file: Option<string>): string {
    TextLines(file)[|TextLines(file)| - 1]
  }

  /** The last line still yields what it yielded, and the entry is read behind it, on a line of its
  own or with the blanks that were there; or the old line comes to be read as the entry itself. */
  ghost predicate ReadsOn(codec: Codec, file: Option<string>, e: Entry) {
    || (Joined(codec, file, e) == Some(e) && KeptLast(codec, file) == ReadLast(codec, file))
    || (Joined(codec, file, e) == None && KeptLast(codec, file) == Some(e) && ReadLast(codec, file) == None)
  }

  ghost predicate LineEnded(file: Option<string>) {
    var text := TextOf(file);
    text == "" || text[|text| - 1] == NL
  }

  lemma UnendedEmpty(file: Option<string>)
    requires LineEnded(file)
    ensures Unended(file) == ""
  {
    var text := TextOf(file);
    LStripBlank(text);
    if !IsBlank(text) {
      LStripEnd(text);
      var d := LStrip(text);
      assert d == d[..|d| - 1] + [NL] + "";
      SplitConcat(d[..|d| - 1], NL, "");
    }
  }

  lemma {:induction false} LStripEnd(s: string)
    requires !IsBlank(s)
    ensures var d := LStrip(s); d != "" && d[|d| - 1] == s[|s| - 1]
  {
    if IsSpace(s[0]) {
      assert s == [s[0]] + s[1..];
      LStripEnd(s[1..]);
    }
  }

  lemma FirstPrinted(codec: Codec, entries: seq<Entry>)
    requires Faithful(codec) && entries != []
    ensures Printed(codec, entries)[0] == codec.toJson(entries[0])
    ensures Parsed(codec, Printed(codec, entries)[1..]) == entries[1..]
  {
    assert Printed(codec, entries)[1..] == Printed(codec, entries[1..]);
    PrintedParsed(codec, entries[1..]);
  }

  /** What is read after appending: the lines before the last, the joined line, the other entries. */
  lemma ParsedGlued(codec: Codec, p: seq<string>, entries: seq<Entry>)
    requires Faithful(codec) && entries != [] && p != []
    ensures var n := |p| - 1;
      Parsed(codec, Glue(p, Printed(codec, entries)))
        == Parsed(codec, p[..n]) + Seq(ParseLine(codec, p[n] + codec.toJson(entries[0]))) + entries[1..]
  {
    var front, joined := p[..|p| - 1], p[|p| - 1] + codec.toJson(entries[0]);
    FirstPrinted(codec, entries);
    ParsedConcat(codec, front + [joined], Printed(codec, entries)[1..]);
    ParsedConcat(codec, front, [joined]);
    ParsedOne(codec, joined);
  }

  /** The lines before an unended blank rest are all that is read. */
  lemma BlankLast(codec: Codec, p: seq<string>)
    requires p != []
    ensures IsBlank(p[|p| - 1]) ==> Parsed(codec, p) == Parsed(codec, p[..|p| - 1])
    ensures IsBlank(p[|p| - 1]) <==> RStrip(p[|p| - 1]) == ""
  {
    var last := p[|p| - 1];
    assert p == p[..|p| - 1] + [last];
    ParsedConcat(codec, p[..|p| - 1], [last]);
    ParsedOne(codec, last);
    BlankStripped(last);
    if IsBlank(last) {
      BlankLineSkipped(codec, last);
    }
  }

  /** The lines of a file that is not blank, before and after the appends. */
  lemma FileAppended(codec: Codec, file: Option<string>, entries: seq<Entry>)
    requires Faithful(codec) && entries != [] && !IsBlank(TextOf(file))
    ensures Entries(codec, file) == Parsed(codec, TrimEnd(TextLines(file)))
    ensures Entries(codec, Appended(codec, file, entries))
         == Parsed(codec, Glue(TextLines(file), Printed(codec, entries)))
  {
    AppendedText(codec, file, entries);
    LinesAppended(codec, TextOf(file), entries);
  }

  lemma JoinedAfter(codec: Codec, file: Option<string>, entries: seq<Entry>) returns (was: seq<Entry>)
    requires Faithful(codec) && entries != [] && !IsBlank(TextOf(file))
    ensures Entries(codec, file) == Parsed(codec, TrimEnd(TextLines(file)))
    ensures was == Parsed(codec, TextLines(file)[..|TextLines(file)| - 1])
    ensures Entries(codec, Appended(codec, file, entries))
         == was + Seq(Joined(codec, file, entries[0])) + entries[1..]
  {
    was := Parsed(codec, TextLines(file)[..|TextLines(file)| - 1]);
    FileAppended(codec, file, entries);
    ParsedGlued(codec, TextLines(file), entries);
  }

  /** What is read before and after the appends, around a common front. */
  lemma ReadAroundAppends(codec: Codec, file: Option<string>, entries: seq<Entry>) returns (front: seq<Entry>)
    requires Faithful(codec) && entries != [] && !IsBlank(TextOf(file))
    ensures Entries(codec, file) == front + Seq(ReadLast(codec, file))
    ensures Entries(codec, Appended(codec, file, entries))
      == front + Seq(KeptLast(codec, file)) + Seq(Joined(codec, file, entries[0])) + entries[1..]
  {
    var was := JoinedAfter(codec, file, entries);
    front := ReadBefore(codec, file);
  }

  /** What is read before the last line of the file, whether something follows that line or not. */
  lemma ReadBefore(codec: Codec, file: Option<string>) returns (front: seq<Entry>)
    ensures var p := TextLines(file);
      && Parsed(codec, TrimEnd(p)) == front + Seq(ReadLast(codec, file))
      && Parsed(codec, p[..|p| - 1]) == front + Seq(KeptLast(codec, file))
  {
    var p := TextLines(file);
    BlankLast(codec, p);
    front := TrimEndParsed(codec, p);
    if !IsBlank(p[|p| - 1]) {
      assert front + [] == front;
    }
  }

  lemma SameAround(front: seq<Entry>, read: Option<Entry>, kept: Option<Entry>, joined: Option<Entry>, e: Entry,
        rest: seq<Entry>)
    ensures front + Seq(kept) + Seq(joined) + rest == front + Seq(read) + ([e] + rest)
      <==> (joined == Some(e) && kept == read) || (joined == None && kept == Some(e) && read == None)
  {
    var a, b := Seq(kept) + Seq(joined), Seq(read) + [e];
    Regroup(front, Seq(kept), Seq(joined), rest);
    Regroup(front, Seq(read), [e], rest);
    SameBehind(front, a + rest, b + rest);
    SameFront(a, b, rest);
    SameTwo(read, kept, joined, e);
  }

  lemma Regroup(front: seq<Entry>, a: seq<Entry>, b: seq<Entry>, rest: seq<Entry>)
    ensures front + a + b + rest == front + ((a + b) + rest)
    ensures front + a + (b + rest) == front + ((a + b) + rest)
  {}

  lemma SameTwo(read: Option<Entry>, kept: Option<Entry>, joined: Option<Entry>, e: Entry)
    ensures Seq(kept) + Seq(joined) == Seq(read) + [e]
      <==> (joined == Some(e) && kept == read) || (joined == None && kept == Some(e) && read == None)
  {
    var a, b := Seq(kept) + Seq(joined), Seq(read) + [e];
    if a == b {
      assert a[|a| - 1] == e && a[0] == b[0];
    }
  }

  lemma SameBehind(front: seq<Entry>, a: seq<Entry>, b: seq<Entry>)
    ensures front + a == front + b <==> a == b
  {
    if front + a == front + b {
      assert a == (front + a)[|front|..] && b == (front + b)[|front|..];
    }
  }

  lemma SameFront(a: seq<Entry>, b: seq<Entry>, entries: seq<Entry>)
    ensures a + entries == b + entries <==> a == b
  {
    if a + entries == b + entries {
      assert a == (a + entries)[..|a|] && b == (b + entries)[..|b|];
    }
  }

  lemma BlankReadsOn(codec: Codec, file: Option<string>, e: Entry)
    requires Faithful(codec) && IsBlank(TextOf(file))
    ensures ReadsOn(codec, file, e)
  {
    LStripBlank(TextOf(file));
    assert TextLines(file) == [""] && "" + codec.toJson(e) == codec.toJson(e);
    StripTrimmed(codec.toJson(e));
  }

  /** Whatever a file already holds, any run of appends adds exactly those entries, in order, behind
  the ones that could be read before, if and only if the file reads on into the first of them.
  When the file ends with a newline, that is so exactly when its last line is read alike with the
  blanks behind it and without. A file that does not exist yet always reads on. */
  lemma AppendsAreRead(codec: Codec, file: Option<string>, entries: seq<Entry>)
    requires Faithful(codec) && entries != []
    ensures Entries(codec, Appended(codec, file, entries)) == Entries(codec, file) + entries
      <==> ReadsOn(codec, file, entries[0])
    ensures LineEnded(file) ==>
      (ReadsOn(codec, file, entries[0]) <==> KeptLast(codec, file) == ReadLast(codec, file))
    ensures file == None ==> Entries(codec, Appended(codec, file, entries)) == entries
  {
    if IsBlank(TextOf(file)) {
      AppendsToBlank(codec, file, entries);
      BlankReadsOn(codec, file, entries[0]);
    } else {
      AppendsToText(codec, file, entries);
    }
    if LineEnded(file) {
      EndedReadsOn(codec, file, entries[0]);
    }
  }

  lemma AppendsToText(codec: Codec, file: Option<string>, entries: seq<Entry>)
    requires Faithful(codec) && entries != [] && !IsBlank(TextOf(file))
    ensures Entries(codec, Appended(codec, file, entries)) == Entries(codec, file) + entries
      <==> ReadsOn(codec, file, entries[0])
  {
    var e, rest := entries[0], entries[1..];
    var front := ReadAroundAppends(codec, file, entries);
    assert entries == [e] + rest;
    var read, kept, joined := ReadLast(codec, file), KeptLast(codec, file), Joined(codec, file, e);
    SameAround(front, read, kept, joined, e, rest);
  }

  lemma AppendsToBlank(codec: Codec, file: Option<string>, entries: seq<Entry>)
    requires Faithful(codec) && entries != [] && IsBlank(TextOf(file))
    ensures Entries(codec, Appended(codec, file, entries)) == entries && Entries(codec, file) == []
  {
    AppendedText(codec, file, entries);
    LinesOfPrinted(codec, TextOf(file), entries);
    PrintedParsed(codec, entries);
  }

  lemma EndedReadsOn(codec: Codec, file: Option<string>, e: Entry)
    requires Faithful(codec) && LineEnded(file)
    ensures Joined(codec, file, e) == Some(e)
    ensures ReadsOn(codec, file, e) <==> KeptLast(codec, file) == ReadLast(codec, file)
  {
    UnendedEmpty(file);
    assert "" + codec.toJson(e) == codec.toJson(e);
    StripTrimmed(codec.toJson(e));
  }

  lemma GlueEnded(front: seq<string>, printed: seq<string>)
    requires printed != []
    ensures Glue(front + [""], printed) == front + printed
  {
    assert (front + [""])[..|front|] == front && "" + printed[0] == printed[0];
    assert printed == [printed[0]] + printed[1..];
  }

  /** Blanks that end a line for the log but not for JSON hide the entry once it is not last. */
  lemma HiddenBehindFormFeed(codec: Codec, e: Entry, f: Entry)
    requires Faithful(codec) && codec.fromJson(codec.toJson(e) + [12 as char]) == None
    ensures var file := Some(codec.toJson(e) + [12 as char] + "\n");
      && Entries(codec, file) == [e]
      && Entries(codec, Appended(codec, file, [f])) == [f]
  {
    var line := codec.toJson(e);
    var odd := line + [12 as char];
    var text, printed := odd + "\n", Printed(codec, [f]);
    OddLine(line);
    StripTrimmed(line);
    ParsedOne(codec, line);
    ParsedOne(codec, odd);
    LinesAppended(codec, text, [f]);
    AppendedText(codec, Some(text), [f]);
    GlueEnded([odd], printed);
    ParsedConcat(codec, [odd], printed);
    PrintedParsed(codec, [f]);
  }

  lemma OddLine(line: string)
    requires Trimmed(line) && Free(line, NL)
    ensures var odd := line + [12 as char];
      && !IsBlank(odd + "\n") && Split(LStrip(odd + "\n"), NL) == [odd] + [""]
      && TrimEnd([odd] + [""]) == [line]
  {
    var odd := line + [12 as char];
    var text := odd + "\n";
    assert text[0] == line[0] && text == odd + [NL] + "";
    SplitConcat(odd, NL, "");
    SplitWhole(odd, NL);
    assert odd[..|odd| - 1] == line && RStrip(odd) == RStrip(line) == line;
    assert ([odd] + [""])[..1] == [odd] && [odd][..0] + [line] == [line];
  }

  lemma NothingTrimmed(text: string)
    requires text != "" && !IsSpace(text[|text| - 1])
    ensures TrimEnd(Split(LStrip(text), NL)) == Split(LStrip(text), NL)
  {
    LStripEnd(text);
    LinesOfRStrip(LStrip(text));
  }

  lemma LastIsUnended(file: Option<string>)
    requires !IsBlank(Unended(file))
    ensures LastText(TextLines(file)) == Unended(file)
  {
    BlankStripped(Unended(file));
  }

  /** Behind a line that was not ended, blanks at its end or not, the first entry joins that line:
  all is read exactly when the line was unreadable and becomes the entry. */
  lemma UnfinishedLine(codec: Codec, file: Option<string>, entries: seq<Entry>)
    requires Faithful(codec) && entries != [] && !IsBlank(Unended(file))
    ensures Entries(codec, Appended(codec, file, entries)) == Entries(codec, file) + entries
      <==> ParseLine(codec, RStrip(Unended(file))) == None && Joined(codec, file, entries[0]) == Some(entries[0])
  {
    AppendsAreRead(codec, file, entries);
    LastIsUnended(file);
  }

  lemma OneLine(line: string)
    requires Trimmed(line) && Free(line, NL)
    ensures !IsBlank(line) && Split(LStrip(line), NL) == [line] && TrimEnd([line]) == [line]
  {
    SplitWhole(line, NL);
    assert LStrip(line) == line;
    NothingTrimmed(line);
  }

  lemma GlueOne(a: string, b: string)
    ensures Glue([a], [b]) == [a + b]
  {}

  /** Two entries on one line that is not JSON: both are lost. */
  lemma TwoEntriesOnOneLine(codec: Codec, f: Entry, e: Entry)
    requires Faithful(codec) && codec.fromJson(codec.toJson(f) + codec.toJson(e)) == None
    ensures var file := Some(codec.toJson(f));
      Entries(codec, file) == [f] && Entries(codec, Appended(codec, file, [e])) == []
  {
    var line, more := codec.toJson(f), codec.toJson(e);
    OneLine(line);
    StripTrimmed(line);
    AppendedText(codec, Some(line), [e]);
    LinesAppended(codec, line, [e]);
    assert Printed(codec, [e]) == [more];
    GlueOne(line, more);
    ParsedOne(codec, line);
    ParsedOne(codec, line + more);
  }
}
