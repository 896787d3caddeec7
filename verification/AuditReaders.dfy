/** What the readers of the audit log return, said by lines and positions
(rice_factor/adapters/executors/audit_logger.py). */
module AuditReaders {
  import opened Sequences
  import opened Text
  import opened TextLaws
  import opened AuditLogs

  /** The lines of a log are those of its text without the blanks around it. */
  lemma LinesOfLog(content: string) returns (before: string, after: string)
    ensures content == before + Join(LogLines(content), NL) + after
    ensures AllFree(LogLines(content), NL) && IsBlank(before) && IsBlank(after)
    ensures var text := Join(LogLines(content), NL); text == "" || Trimmed(text)
  {
    before, after := StripExactly(content);
    JoinSplit(Strip(content), NL);
    SplitFree(Strip(content), NL);
  }

  lemma LineReadExactly(codec: Codec, line: string)
    ensures ParseLine(codec, line) == if IsBlank(line) then None else codec.fromJson(line)
  {
    LStripBlank(line);
    BlankStripped(LStrip(line));
  }

  /** What is read from lines: the entry of each line that is not blank and that JSON accepts, in the
  order of the lines. */
  lemma {:induction false} LinesRead(codec: Codec, lines: seq<string>) returns (at: seq<nat>)
    ensures forall i: nat :: i in at <==> i < |lines| && !IsBlank(lines[i]) && codec.fromJson(lines[i]).Some?
    ensures |at| == |Parsed(codec, lines)|
    ensures forall j, k :: 0 <= j < k < |at| ==> at[j] < at[k]
    ensures forall j :: 0 <= j < |at| ==>
      at[j] < |lines| && codec.fromJson(lines[at[j]]) == Some(Parsed(codec, lines)[j])
    decreases |lines|
  {
    if lines == [] {
      at := [];
    } else {
      var n := |lines| - 1;
      var init, last := lines[..n], lines[n];
      assert lines == init + [last];
      ParsedConcat(codec, init, [last]);
      ParsedOne(codec, last);
      LineReadExactly(codec, last);
      var before := LinesRead(codec, init);
      PositionsOneMore(before, n);
      at := if ParseLine(codec, last).Some? then before + [n] else before;
    }
  }

  /** A reader of one artifact returns exactly its entries, in order. */
  lemma ArtifactPicks(artifact: string, all: seq<Entry>) returns (at: seq<nat>)
    ensures PickedAt(all, Filter(About(artifact), all), at)
    ensures forall i: nat :: i in at <==> i < |all| && all[i].artifact == artifact
  {
    at := FilterPicks(About(artifact), all);
  }

  /** The newest entries come first, and a limit below one acts like one. */
  lemma RecentExactly(all: seq<Entry>, limit: int)
    ensures var r := Take(Reverse(all), if limit < 1 then 1 else limit);
      && |r| == (if |all| == 0 then 0 else if limit < 1 then 1 else if limit < |all| then limit else |all|)
      && forall j :: 0 <= j < |r| ==> r[j] == all[|all| - 1 - j]
  {}
}
