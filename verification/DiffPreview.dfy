/** The patch applier of the editor extension (rice-factor-vscode/src/diffPreview.ts).

It ignores hunk positions and goes by the first characters of each diff line. A diff is
described here by the script it was printed from, starting at the first line of the file. */
module DiffPreview {
  import opened Sequences
  import opened Text

  predicate IsHeader(line: string) {
    "+++" <= line || "---" <= line || "@@" <= line
  }

  /** What one diff line adds to the result, and the number of the next original line. */
  function Turn(lines: seq<string>, at: nat, d: string): (seq<string>, nat) {
    if IsHeader(d) then ([], at)
    else if "+" <= d then ([d[1..]], at)
    else if "-" <= d then ([], at + 1)
    else if " " <= d then ([d[1..]], at + 1)
    else if at < |lines| then ([lines[at]], at + 1)
    else ([], at)
  }

  ghost predicate Marked(d: string) {
    d != "" && (d[0] == '+' || d[0] == '-' || d[0] == ' ' || (|d| > 1 && d[0] == d[1] == '@'))
  }

  /** What each kind of diff line does, whatever follows its first characters. */
  lemma TurnExactly(lines: seq<string>, at: nat, rest: string, other: string)
    ensures Turn(lines, at, "+++" + rest) == ([], at) && Turn(lines, at, "---" + rest) == ([], at)
    ensures Turn(lines, at, "@@" + rest) == ([], at) && Turn(lines, at, " " + rest) == ([rest], at + 1)
    ensures !("++" <= rest) ==> Turn(lines, at, "+" + rest) == ([rest], at)
    ensures !("--" <= rest) ==> Turn(lines, at, "-" + rest) == ([], at + 1)
    ensures !Marked(other) ==> Turn(lines, at, other) == if at < |lines| then ([lines[at]], at + 1) else ([], at)
  {
    assert (" " + rest)[0] == ' ';
    assert |other| >= 2 ==> other[..2] == [other[0], other[1]];
    AfterSign("+", "++", rest);
    AfterSign("-", "--", rest);
    assert (" " + rest)[1..] == rest;
  }

  lemma AfterSign(sign: string, more: string, rest: string)
    requires |sign| == 1
    ensures (sign + rest)[1..] == rest && (sign + more <= sign + rest <==> more <= rest)
  {
    if |rest| >= |more| {
      assert (sign + rest)[..1 + |more|] == sign + rest[..|more|];
    }
  }

  function Tail(lines: seq<string>, at: nat): seq<string> {
    if at < |lines| then lines[at..] else []
  }

  /** The result from the diff lines still to come, when the next original line is number `at`. */
  function Walk(lines: seq<string>, at: nat, diff: seq<string>): seq<string>
    decreases |diff|
  {
    if diff == [] then Tail(lines, at)
    else
      var (pushed, next) := Turn(lines, at, diff[0]);
      pushed + Walk(lines, next, diff[1..])
  }

  function Applied(original: string, diff: string): string {
    Join(Walk(Split(original, NL), 0, Split(diff, NL)), NL)
  }

  lemma WalkTurn(lines: seq<string>, at: nat, diff: seq<string>, i: nat, result: seq<string>)
    requires i < |diff|
    ensures var (pushed, next) := Turn(lines, at, diff[i]);
      result + Walk(lines, at, diff[i..]) == (result + pushed) + Walk(lines, next, diff[i + 1..])
    ensures Turn(lines, at, diff[i]).0 == [] ==> result + Turn(lines, at, diff[i]).0 == result
  {
    assert diff[i..][1..] == diff[i + 1..];
  }

  method ApplyDiff(original: string, diff: string) returns (modified: string)
    ensures modified == Applied(original, diff)
  {
    var lines := Split(original, NL);
    var diffLines := Split(diff, NL);
    var result, lineIndex := FollowDiff(lines, diffLines);
    result := CopyRest(lines, result, lineIndex);
    modified := Join(result, NL);
  }

  /** The loop that adds the remaining original lines. */
  method CopyRest(lines: seq<string>, start: seq<string>, from: nat) returns (result: seq<string>)
    ensures result == start + Tail(lines, from)
  {
    result := start;
    var lineIndex := from;
    while lineIndex < |lines|
      invariant lineIndex >= 0
      invariant start + Tail(lines, from) == result + Tail(lines, lineIndex)
    {
      result := result + [lines[lineIndex]];
      lineIndex := lineIndex + 1;
    }
  }

  /** The loop over the diff lines, up to the point where the rest of the original is copied. */
  method FollowDiff(lines: seq<string>, diffLines: seq<string>) returns (result: seq<string>, lineIndex: nat)
    ensures Walk(lines, 0, diffLines) == result + Tail(lines, lineIndex)
  {
    result, lineIndex := [], 0;
    for i := 0 to |diffLines|
      invariant Walk(lines, 0, diffLines) == result + Walk(lines, lineIndex, diffLines[i..])
    {
      var d := diffLines[i];
      ghost var turn, before := Turn(lines, lineIndex, d), result;
      WalkTurn(lines, lineIndex, diffLines, i, result);
      if IsHeader(d) {
        continue;
      }
      if "+" <= d {
        result := result + [d[1..]];
      } else if "-" <= d {
        lineIndex := lineIndex + 1;
      } else if " " <= d {
        result := result + [d[1..]];
        lineIndex := lineIndex + 1;
      } else if lineIndex < |lines| {
        result := result + [lines[lineIndex]];
        lineIndex := lineIndex + 1;
      }
      assert result == before + turn.0 && lineIndex == turn.1;
    }
  }

  // ---------- scripts ----------

  datatype Edit = Keep(line: string) | Insert(line: string) | Delete(line: string) | Header(line: string)

  function Render(e: Edit): string {
    match e
    case Keep(l) => " " + l
    case Insert(l) => "+" + l
    case Delete(l) => "-" + l
    case Header(l) => l
  }

  function RenderAll(script: seq<Edit>): seq<string> {
    if script == [] then [] else [Render(script[0])] + RenderAll(script[1..])
  }

  /** The lines a script reads, and the lines it produces. */
  function Source(script: seq<Edit>): seq<string> {
    if script == [] then []
    else (if script[0].Keep? || script[0].Delete? then [script[0].line] else []) + Source(script[1..])
  }

  function Target(script: seq<Edit>): seq<string> {
    if script == [] then []
    else (if script[0].Keep? || script[0].Insert? then [script[0].line] else []) + Target(script[1..])
  }

  ghost predicate WellFormed(script: seq<Edit>) {
    forall i :: 0 <= i < |script| ==>
      Free(script[i].line, NL) && (script[i].Header? ==> IsHeader(script[i].line))
  }

  /** Printed, this edit looks like a header and is ignored. */
  predicate Swallowed(e: Edit) {
    (e.Insert? && "++" <= e.line) || (e.Delete? && "--" <= e.line)
  }

  function Visible(): Edit -> bool { (e: Edit) => !Swallowed(e) }

  lemma RenderedKind(e: Edit)
    requires e.Header? ==> IsHeader(e.line)
    ensures IsHeader(Render(e)) <==> e.Header? || Swallowed(e)
    ensures !e.Header? ==> Render(e)[1..] == e.line
    ensures "+" <= Render(e) && !e.Header? <==> e.Insert?
    ensures "-" <= Render(e) && !e.Header? <==> e.Delete?
    ensures " " <= Render(e) && !e.Header? <==> e.Keep?
  {
    var r := Render(e);
    if !e.Header? {
      assert r[0] == match e case Keep(_) => ' ' case Insert(_) => '+' case _ => '-';
      assert "+++" <= r <==> r[0] == '+' && "++" <= r[1..];
      assert "---" <= r <==> r[0] == '-' && "--" <= r[1..];
    }
  }

  /** What the applier does with one printed edit. */
  lemma TurnOfEdit(lines: seq<string>, at: nat, e: Edit)
    requires e.Header? ==> IsHeader(e.line)
    ensures Turn(lines, at, Render(e)) ==
      if e.Header? || Swallowed(e) then ([], at)
      else (if e.Delete? then [] else [e.line], if e.Insert? then at else at + 1)
  {
    RenderedKind(e);
  }

  lemma VisibleStep(lines: seq<string>, at: nat, script: seq<Edit>)
    requires script != [] && (script[0].Header? ==> IsHeader(script[0].line))
    ensures var seen, rest := Filter(Visible(), script), Filter(Visible(), script[1..]);
      var (pushed, next) := Turn(lines, at, Render(script[0]));
      Target(seen) == pushed + Target(rest) && at + |Source(seen)| == next + |Source(rest)|
  {
    var e, rest := script[0], Filter(Visible(), script[1..]);
    TurnOfEdit(lines, at, e);
    if !Swallowed(e) {
      assert Filter(Visible(), script) == [e] + rest && ([e] + rest)[1..] == rest;
    }
  }

  lemma WalkStep(lines: seq<string>, at: nat, script: seq<Edit>)
    requires script != [] && WellFormed(script)
    ensures WellFormed(script[1..])
    ensures var turn := Turn(lines, at, Render(script[0]));
      Walk(lines, at, RenderAll(script)) == turn.0 + Walk(lines, turn.1, RenderAll(script[1..]))
  {
    assert RenderAll(script)[1..] == RenderAll(script[1..]);
    assert forall i :: 0 <= i < |script[1..]| ==> script[1..][i] == script[i + 1];
  }

  lemma Regroup(a: seq<string>, b: seq<string>, c: seq<string>)
    ensures a + (b + c) == (a + b) + c
  {}

  /** What the first edit pushes, and where it leaves the original, by the walk and by the script. */
  lemma FirstEdit(lines: seq<string>, at: nat, script: seq<Edit>) returns (pushed: seq<string>, next: nat)
    requires script != [] && WellFormed(script)
    ensures WellFormed(script[1..])
    ensures Walk(lines, at, RenderAll(script)) == pushed + Walk(lines, next, RenderAll(script[1..]))
    ensures Target(Filter(Visible(), script)) == pushed + Target(Filter(Visible(), script[1..]))
    ensures at + |Source(Filter(Visible(), script))| == next + |Source(Filter(Visible(), script[1..]))|
  {
    WalkStep(lines, at, script);
    VisibleStep(lines, at, script);
    pushed, next := Turn(lines, at, Render(script[0])).0, Turn(lines, at, Render(script[0])).1;
  }

  /** What all edits push, and where they leave the original. */
  lemma {:induction false} AllEdits(lines: seq<string>, at: nat, script: seq<Edit>)
      returns (pushed: seq<string>, next: nat)
    requires WellFormed(script)
    ensures Walk(lines, at, RenderAll(script)) == pushed + Tail(lines, next)
    ensures pushed == Target(Filter(Visible(), script)) && next == at + |Source(Filter(Visible(), script))|
    decreases |script|
  {
    if script == [] {
      pushed, next := [], at;
    } else {
      var first, more, second;
      first, second := FirstEdit(lines, at, script);
      more, next := AllEdits(lines, second, script[1..]);
      pushed := first + more;
      Regroup(first, more, Tail(lines, next));
    }
  }

  /** What the applier makes of any printed script, wanted or not: it carries out the script
  without the edits that look like headers, and copies the rest of the original. */
  lemma WalkFollowsVisible(lines: seq<string>, at: nat, script: seq<Edit>)
    requires WellFormed(script)
    ensures var seen := Filter(Visible(), script);
      Walk(lines, at, RenderAll(script)) == Target(seen) + Tail(lines, at + |Source(seen)|)
  {
    var pushed, next := AllEdits(lines, at, script);
  }

  ghost predicate Follows(lines: seq<string>, script: seq<Edit>) {
    WellFormed(script) && Source(script) <= lines
  }

  /** The lines that the script was meant to produce from the original. */
  ghost function Intended(lines: seq<string>, script: seq<Edit>): seq<string>
    requires Follows(lines, script)
  {
    Target(script) + lines[|Source(script)|..]
  }

  ghost predicate NoneSwallowed(script: seq<Edit>) {
    forall e :: e in script ==> !Swallowed(e)
  }

  /** Patch round trip on lines: the target of the script, then the untouched rest. */
  lemma WalkIsIntended(lines: seq<string>, script: seq<Edit>)
    requires Follows(lines, script) && NoneSwallowed(script)
    ensures Walk(lines, 0, RenderAll(script)) == Intended(lines, script)
  {
    WalkFollowsVisible(lines, 0, script);
    FilterAll(Visible(), script);
  }

  function IsSwallowedInsert(): Edit -> bool { (e: Edit) => e.Insert? && Swallowed(e) }
  function IsSwallowedDelete(): Edit -> bool { (e: Edit) => e.Delete? && Swallowed(e) }

  lemma {:induction false} SwallowedCounts(script: seq<Edit>)
    ensures |Target(Filter(Visible(), script))| == |Target(script)| - |Filter(IsSwallowedInsert(), script)|
    ensures |Source(Filter(Visible(), script))| == |Source(script)| - |Filter(IsSwallowedDelete(), script)|
    ensures NoneSwallowed(script)
      <==> Filter(IsSwallowedInsert(), script) == [] && Filter(IsSwallowedDelete(), script) == []
  {
    if script != [] {
      SwallowedCounts(script[1..]);
      assert script == [script[0]] + script[1..];
      assert NoneSwallowed(script) <==> !Swallowed(script[0]) && NoneSwallowed(script[1..]);
      assert !Swallowed(script[0]) ==> Filter(Visible(), script)[1..] == Filter(Visible(), script[1..]);
    }
  }

  lemma CommonTail(a: seq<string>, b: seq<string>, tail: seq<string>)
    ensures a + tail == b + tail <==> a == b
  {
    if a + tail == b + tail {
      assert |a| == |b|;
      assert a == (a + tail)[..|a|] && b == (b + tail)[..|b|];
    }
  }

  /** The original behind the first n lines is the rest of what the script reads, and the tail. */
  lemma TailBehind(lines: seq<string>, source: seq<string>, n: nat)
    requires source <= lines && n <= |source|
    ensures Tail(lines, n) == source[n..] + lines[|source|..]
  {
    if n < |lines| {
      assert lines == source + lines[|source|..];
    }
  }

  /** What the applier makes of the lines that the script covers. */
  ghost function Covered(script: seq<Edit>): seq<string> {
    var seen := Filter(Visible(), script);
    SwallowedCounts(script);
    Target(seen) + Source(script)[|Source(seen)|..]
  }

  lemma WalkCovers(lines: seq<string>, script: seq<Edit>)
    requires Follows(lines, script)
    ensures Walk(lines, 0, RenderAll(script)) == Covered(script) + lines[|Source(script)|..]
  {
    var pushed, next := AllEdits(lines, 0, script);
    SwallowedCounts(script);
    TailBehind(lines, Source(script), next);
    Regroup(pushed, Source(script)[next..], lines[|Source(script)|..]);
  }

  /** The applier does what was intended exactly when the edits that do not look like headers,
  followed by what the script reads beyond them, come to the target of the script: a condition on
  the script alone. So it does when no edit is mistaken for a header, only when as many inserted
  as deleted lines are, and exactly when none is if only one kind of edit can be mistaken. */
  lemma IntendedExactly(lines: seq<string>, script: seq<Edit>)
    requires Follows(lines, script)
    ensures var done := Walk(lines, 0, RenderAll(script)) == Intended(lines, script);
      var inserts, deletes := Filter(IsSwallowedInsert(), script), Filter(IsSwallowedDelete(), script);
      && (done <==> Covered(script) == Target(script))
      && (NoneSwallowed(script) ==> done)
      && (done ==> |inserts| == |deletes|)
      && (inserts == [] || deletes == [] ==> (done <==> NoneSwallowed(script)))
  {
    WalkCovers(lines, script);
    CommonTail(Covered(script), Target(script), lines[|Source(script)|..]);
    CoveredLength(script);
    if NoneSwallowed(script) {
      FilterAll(Visible(), script);
      assert Covered(script) == Target(script);
    }
  }

  lemma CoveredLength(script: seq<Edit>)
    ensures var inserts, deletes := Filter(IsSwallowedInsert(), script), Filter(IsSwallowedDelete(), script);
      && |Covered(script)| == |Target(script)| - |inserts| + |deletes|
      && (NoneSwallowed(script) <==> inserts == [] && deletes == [])
  {
    SwallowedCounts(script);
  }

  /** A line that starts with two plus signs is lost when it is inserted. */
  lemma PlussesAreLost()
    ensures var script := [Insert("++i")];
      Follows([""], script) && Walk([""], 0, RenderAll(script)) == [""] && Intended([""], script) == ["++i", ""]
  {
    var script := [Insert("++i")];
    assert Swallowed(script[0]) && Filter(Visible(), script) == [];
    WalkFollowsVisible([""], 0, script);
    assert Target(script) == ["++i"] && Source(script) == [] && [""][0..] == [""];
  }

  /** With both kinds the mistakes can cancel out, so the restriction above is needed. */
  lemma MistakesMayCancel()
    ensures var lines := ["--a", "++i"];
      var script := [Delete("--a"), Insert("++i"), Keep("++i")];
      Follows(lines, script) && !NoneSwallowed(script)
      && Walk(lines, 0, RenderAll(script)) == Intended(lines, script)
  {
    var lines := ["--a", "++i"];
    var script := [Delete("--a"), Insert("++i"), Keep("++i")];
    assert Swallowed(script[0]) && script[0] in script;
    CancellingScript();
    WalkFollowsVisible(lines, 0, script);
    assert lines[1..] == ["++i"] && lines[2..] == [];
  }

  lemma CancellingScript()
    ensures var script := [Delete("--a"), Insert("++i"), Keep("++i")];
      && Source(script) == ["--a", "++i"] && Target(script) == ["++i", "++i"]
      && Source(Filter(Visible(), script)) == ["++i"] == Target(Filter(Visible(), script))
  {
    var script := [Delete("--a"), Insert("++i"), Keep("++i")];
    var keep := [Keep("++i")];
    assert script[1..][1..] == keep && keep[1..] == [];
    assert Source(keep) == ["++i"] && Target(keep) == ["++i"];
    assert Source(script[1..]) == ["++i"] && Target(script[1..]) == ["++i", "++i"];
    assert Filter(Visible(), keep) == keep && Filter(Visible(), script[1..]) == keep;
    assert Filter(Visible(), script) == keep;
  }

  // ---------- undoing ----------

  function Inverse(e: Edit): Edit {
    match e
    case Insert(l) => Delete(l)
    case Delete(l) => Insert(l)
    case _ => e
  }

  function Reversed(script: seq<Edit>): (r: seq<Edit>)
    ensures |r| == |script| && forall i :: 0 <= i < |script| ==> r[i] == Inverse(script[i])
  {
    if script == [] then [] else [Inverse(script[0])] + Reversed(script[1..])
  }

  lemma {:induction false} ReversedEnds(script: seq<Edit>)
    ensures Source(Reversed(script)) == Target(script) && Target(Reversed(script)) == Source(script)
  {
    if script != [] {
      ReversedEnds(script[1..]);
      assert Reversed(script)[1..] == Reversed(script[1..]);
    }
  }

  lemma RoundTripLines(lines: seq<string>, script: seq<Edit>)
    requires Follows(lines, script) && NoneSwallowed(script) && NoneSwallowed(Reversed(script))
    ensures Walk(lines, 0, RenderAll(script)) == Intended(lines, script)
    ensures Walk(Intended(lines, script), 0, RenderAll(Reversed(script))) == lines
  {
    WalkIsIntended(lines, script);
    var patched := Intended(lines, script);
    ReversedEnds(script);
    assert patched[..|Target(script)|] == Target(script);
    assert patched[|Target(script)|..] == lines[|Source(script)|..];
    WalkIsIntended(patched, Reversed(script));
    assert Source(script) + lines[|Source(script)|..] == lines;
  }

  // ---------- texts ----------

  /** A final newline of the diff adds an empty diff line, which is harmless. */
  lemma {:induction false} FinalNewlineHarmless(lines: seq<string>, at: nat, diff: seq<string>)
    ensures Walk(lines, at, diff + [""]) == Walk(lines, at, diff)
    decreases |diff|
  {
    if diff == [] {
      assert [] + [""] == [""] && [""][1..] == [];
      if at < |lines| {
        assert [lines[at]] + Tail(lines, at + 1) == lines[at..];
      }
    } else {
      assert (diff + [""])[1..] == diff[1..] + [""];
      var d := diff[0];
      if IsHeader(d) {
        FinalNewlineHarmless(lines, at, diff[1..]);
      } else if "+" <= d {
        FinalNewlineHarmless(lines, at, diff[1..]);
      } else {
        FinalNewlineHarmless(lines, at + 1, diff[1..]);
        FinalNewlineHarmless(lines, at, diff[1..]);
      }
    }
  }

  lemma {:induction false} RenderedFree(script: seq<Edit>)
    requires WellFormed(script)
    ensures AllFree(RenderAll(script), NL) && |RenderAll(script)| == |script|
  {
    if script != [] {
      RenderedFree(script[1..]);
    }
  }

  lemma {:induction false} TargetFree(script: seq<Edit>)
    requires WellFormed(script)
    ensures AllFree(Target(script), NL)
  {
    if script != [] {
      TargetFree(script[1..]);
    }
  }

  /** The printed diff, with or without a final newline. */
  function DiffText(script: seq<Edit>, finalNewline: bool): string {
    Join(RenderAll(script), NL) + if finalNewline then "\n" else ""
  }

  lemma DiffTextLines(lines: seq<string>, script: seq<Edit>, finalNewline: bool)
    requires WellFormed(script)
    ensures Walk(lines, 0, Split(DiffText(script, finalNewline), NL)) == Walk(lines, 0, RenderAll(script))
  {
    var r := RenderAll(script);
    RenderedFree(script);
    if r == [] {
      assert [] + [""] == [""] && [""] + [""] == ["", ""];
      FinalNewlineHarmless(lines, 0, []);
      FinalNewlineHarmless(lines, 0, [""]);
    } else {
      SplitJoin(r, NL);
      assert Join(r, NL) + "" == Join(r, NL);
      FinalNewlineHarmless(lines, 0, r);
      assert Join(r, NL) + "\n" == Join(r, NL) + [NL] + "";
      SplitConcat(Join(r, NL), NL, "");
    }
  }

  /** Applying the printed diff of a script gives the target of the script and the untouched
  rest, read back line by line unless no line is left. */
  lemma PatchGivesTarget(original: string, script: seq<Edit>, finalNewline: bool)
    requires Follows(Split(original, NL), script) && NoneSwallowed(script)
    ensures var intended := Intended(Split(original, NL), script);
      var patched := Applied(original, DiffText(script, finalNewline));
      && patched == Join(intended, NL)
      && Split(patched, NL) == if intended == [] then [""] else intended
  {
    var lines := Split(original, NL);
    DiffTextLines(lines, script, finalNewline);
    WalkIsIntended(lines, script);
    SplitFree(original, NL);
    TargetFree(script);
    if Intended(lines, script) != [] {
      SplitJoin(Intended(lines, script), NL);
    }
  }

  /** Patch round trip: applying the printed diff of a script and then the printed diff of the
  reversed script restores the original text exactly when the script leaves a line. No line at
  all and one empty line are the same text, and otherwise that empty line comes back as well. */
  lemma PatchRoundTrip(original: string, script: seq<Edit>, end: bool, endBack: bool)
    requires Follows(Split(original, NL), script)
    requires NoneSwallowed(script) && NoneSwallowed(Reversed(script))
    ensures var left := Intended(Split(original, NL), script);
      var back := Applied(Applied(original, DiffText(script, end)), DiffText(Reversed(script), endBack));
      && back == (if left == [] then original + "\n" else original)
      && (back == original <==> left != [])
  {
    var lines := Split(original, NL);
    PatchGivesTarget(original, script, end);
    JoinSplit(original, NL);
    if Intended(lines, script) == [] {
      BackFromNothing(original, script, endBack);
      assert |original + "\n"| != |original|;
    } else {
      DiffTextLines(Intended(lines, script), Reversed(script), endBack);
      RoundTripLines(lines, script);
    }
  }

  lemma BackFromNothing(original: string, script: seq<Edit>, endBack: bool)
    requires Follows(Split(original, NL), script) && NoneSwallowed(Reversed(script))
    requires Intended(Split(original, NL), script) == []
    ensures Applied("", DiffText(Reversed(script), endBack)) == original + "\n"
  {
    var lines := Split(original, NL);
    ReversedEnds(script);
    assert Source(script) == lines && [""][0..] == [""];
    DiffTextLines([""], Reversed(script), endBack);
    WalkIsIntended([""], Reversed(script));
    JoinLast(lines, "", NL);
    JoinSplit(original, NL);
    assert original + [NL] + "" == original + "\n";
  }

  /** Deleting the only line of a text and undoing that gives a text with a second, empty line. */
  lemma DeletedLineComesBackLonger()
    ensures var script := [Delete("a")];
      && Follows(Split("a", NL), script) && NoneSwallowed(script) && NoneSwallowed(Reversed(script))
      && Applied("a", DiffText(script, false)) == ""
      && Applied("", DiffText(Reversed(script), false)) == "a\n"
  {
    var script := [Delete("a")];
    SplitWhole("a", NL);
    assert Source(script) == ["a"] && Target(script) == [] && ["a"][1..] == [];
    assert Intended(["a"], script) == [];
    PatchGivesTarget("a", script, false);
    BackFromNothing("a", script, false);
  }
}
