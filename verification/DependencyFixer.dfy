/** The dependency-rule fixer (rice_factor/adapters/refactoring/jscodeshift_adapter.py).

All violations are found first, by file and line number; then the lines are blanked one by one,
reading and writing the file each time. The three import patterns are parameters: each maps a
line to the imported path it matches, if any. */
module DependencyFixer {
  import opened Sequences
  import opened Text
  import opened TextLaws

  /** Readable source files by their path relative to the project. */
  type Files = map<string, string>

  datatype Rule = Rule(sourcePath: string, targetPath: string)

  datatype Patterns = Patterns(
    esModule: string -> Option<string>, commonJs: string -> Option<string>, dynamic: string -> Option<string>)

  datatype Violation = Violation(file: string, line: nat, statement: string, target: string)

  datatype Change = Change(file: string, original: string, line: Option<nat>)

  datatype FixResult = FixResult(success: bool, changes: seq<Change>, errors: seq<Violation>)

  /** No import pattern matches an empty line. */
  ghost predicate BlankIsClean(pats: Patterns) {
    pats.esModule("") == None && pats.commonJs("") == None && pats.dynamic("") == None
  }

  function Slashes(s: string): string {
    Replace(s, "\\", "/")
  }

  function Hit(found: Option<string>, rule: Rule, file: string, line: nat, text: string): seq<Violation> {
    if found.Some? && Contains(found.value, Slashes(rule.targetPath))
    then [Violation(file, line, Strip(text), found.value)]
    else []
  }

  /** The violations on one line, at most one per pattern. */
  function OnLine(pats: Patterns, rule: Rule, file: string, line: nat, text: string): seq<Violation> {
    Hit(pats.esModule(text), rule, file, line, text)
    + Hit(pats.commonJs(text), rule, file, line, text)
    + Hit(pats.dynamic(text), rule, file, line, text)
  }

  /** The violations on the first k lines. */
  function InLines(pats: Patterns, rule: Rule, file: string, lines: seq<string>, k: nat): seq<Violation>
    requires k <= |lines|
  {
    if k == 0 then []
    else InLines(pats, rule, file, lines, k - 1) + OnLine(pats, rule, file, k, lines[k - 1])
  }

  predicate Governs(rule: Rule, file: string) {
    Contains(file, Slashes(rule.sourcePath))
  }

  function InFile(files: Files, pats: Patterns, rule: Rule, file: string): seq<Violation> {
    if file in files && Governs(rule, file) then
      var lines := Split(files[file], NL);
      InLines(pats, rule, file, lines, |lines|)
    else []
  }

  /** The violations of each listed file; a file that cannot be read has none. */
  function PerFile(files: Files, pats: Patterns, rule: Rule, list: seq<string>): (r: seq<seq<Violation>>)
    ensures |r| == |list| && forall i :: 0 <= i < |list| ==> r[i] == InFile(files, pats, rule, list[i])
  {
    seq(|list|, i requires 0 <= i < |list| => InFile(files, pats, rule, list[i]))
  }

  function Flatten(parts: seq<seq<Violation>>): seq<Violation> {
    if parts == [] then [] else Flatten(parts[..|parts| - 1]) + parts[|parts| - 1]
  }

  function AllViolations(files: Files, pats: Patterns, rule: Rule, list: seq<string>): seq<Violation> {
    Flatten(PerFile(files, pats, rule, list))
  }

  /** The files after one line has been blanked; None when there is no such line. */
  function Blank(files: Files, v: Violation): Option<Files> {
    if v.file !in files then None
    else
      var lines := Split(files[v.file], NL);
      if 0 < v.line <= |lines| then Some(files[v.file := Join(lines[v.line - 1 := ""], NL)]) else None
  }

  /** One change per violation, in the same order, with its statement. */
  ghost predicate Quoted(changes: seq<Change>, vs: seq<Violation>) {
    |changes| == |vs| && forall i :: 0 <= i < |vs| ==> changes[i] == Change(vs[i].file, vs[i].statement, None)
  }

  /** One change per violation, in the same order, with the line as it stood before that removal:
  empty if an earlier one had blanked it. */
  ghost predicate Undone(start: Files, changes: seq<Change>, vs: seq<Violation>) {
    && |changes| == |vs|
    && forall i :: 0 <= i < |vs| ==>
         && Present(start, vs[i])
         && changes[i] == Change(vs[i].file, Standing(start, vs[..i], vs[i]), Some(vs[i].line))
  }

  ghost function Standing(start: Files, done: seq<Violation>, v: Violation): string
    requires Present(start, v)
  {
    if Reported(done, v.file, v.line) then "" else Split(start[v.file], NL)[v.line - 1]
  }

  /** Those of the first k violations whose removal could read and write its file, and the others. */
  function Removed(vs: seq<Violation>, io: nat -> bool, k: nat): seq<Violation>
    requires k <= |vs|
  {
    if k == 0 then [] else Removed(vs, io, k - 1) + if io(k - 1) then [vs[k - 1]] else []
  }

  function Failed(vs: seq<Violation>, io: nat -> bool, k: nat): seq<Violation>
    requires k <= |vs|
  {
    if k == 0 then [] else Failed(vs, io, k - 1) + if io(k - 1) then [] else [vs[k - 1]]
  }

  /** Every violation is removed or reported as an error; all are removed exactly when no error is
  reported. */
  lemma {:induction false} RemovedOrFailed(vs: seq<Violation>, io: nat -> bool, k: nat)
    requires k <= |vs|
    ensures |Removed(vs, io, k)| + |Failed(vs, io, k)| == k
    ensures forall v :: v in Removed(vs, io, k) || v in Failed(vs, io, k) <==> v in vs[..k]
    ensures Failed(vs, io, k) == [] <==> Removed(vs, io, k) == vs[..k]
  {
    if k > 0 {
      RemovedOrFailed(vs, io, k - 1);
      assert vs[..k] == vs[..k - 1] + [vs[k - 1]];
    }
  }

  lemma OneMoreChange(start: Files, changes: seq<Change>, vs: seq<Violation>, c: Change, v: Violation)
    requires Undone(start, changes, vs) && Present(start, v)
    requires c == Change(v.file, Standing(start, vs, v), Some(v.line))
    ensures Undone(start, changes + [c], vs + [v])
  {
    var more := vs + [v];
    forall i | 0 <= i < |more| ensures Present(start, more[i])
      && (changes + [c])[i] == Change(more[i].file, Standing(start, more[..i], more[i]), Some(more[i].line))
    {
      assert more[..i] == vs[..i];
      assert vs[..|vs|] == vs;
    }
  }

  lemma RegroupFour(a: seq<Violation>, b: seq<Violation>, c: seq<Violation>, d: seq<Violation>)
    ensures a + b + c + d == a + (b + c + d)
  {}

  lemma FlattenOneMore(parts: seq<seq<Violation>>, i: nat)
    requires i < |parts|
    ensures Flatten(parts[..i + 1]) == Flatten(parts[..i]) + parts[i]
    ensures parts[i] == [] ==> Flatten(parts[..i + 1]) == Flatten(parts[..i])
  {
    assert parts[..i + 1][..i] == parts[..i];
  }

  class Fixer {
    const pats: Patterns
    var files: Files

    constructor (pats: Patterns, files: Files)
      ensures this.pats == pats && this.files == files
    {
      this.pats, this.files := pats, files;
    }

    method CheckFile(file: string, content: string, rule: Rule) returns (found: seq<Violation>)
      ensures var lines := Split(content, NL); found == InLines(pats, rule, file, lines, |lines|)
    {
      found := [];
      var lines := Split(content, NL);
      for i := 0 to |lines|
        invariant found == InLines(pats, rule, file, lines, i)
      {
        var imports := Hit(pats.esModule(lines[i]), rule, file, i + 1, lines[i]);
        var loads := Hit(pats.commonJs(lines[i]), rule, file, i + 1, lines[i]);
        var dynamics := Hit(pats.dynamic(lines[i]), rule, file, i + 1, lines[i]);
        RegroupFour(found, imports, loads, dynamics);
        found := found + imports + loads + dynamics;
      }
    }

    method FindViolations(rule: Rule, list: seq<string>) returns (found: seq<Violation>)
      ensures found == AllViolations(files, pats, rule, list)
    {
      found := [];
      ghost var parts := PerFile(files, pats, rule, list);
      for i := 0 to |list|
        invariant found == Flatten(parts[..i])
      {
        FlattenOneMore(parts, i);
        if Governs(rule, list[i]) && list[i] in files {
          var here := CheckFile(list[i], files[list[i]], rule);
          found := found + here;
        }
      }
      assert parts[..|list|] == parts;
    }

    /** `io` tells whether the file could be read and written. */
    method RemoveImport(v: Violation, io: bool) returns (change: Option<Change>)
      modifies this
      ensures change.Some? <==> io && Blank(old(files), v).Some?
      ensures files == if change.Some? then Blank(old(files), v).value else old(files)
      ensures change.Some? ==>
        change.value == Change(v.file, Split(old(files)[v.file], NL)[v.line - 1], Some(v.line))
    {
      if !io || v.file !in files {
        return None;
      }
      var lines := Split(files[v.file], NL);
      if 0 < v.line <= |lines| {
        var removed := lines[v.line - 1];
        lines := lines[v.line - 1 := ""];
        files := files[v.file := Join(lines, NL)];
        return Some(Change(v.file, removed, Some(v.line)));
      }
      return None;
    }

    /** Reports the violations, or blanks their lines when `fix` is set; removal i can use its file
    when `io(i)`. */
    method EnforceDependency(rule: Rule, list: seq<string>, fix: bool, io: nat -> bool) returns (r: FixResult)
      modifies this
      ensures var vs := AllViolations(old(files), pats, rule, list);
        && (!fix ==> files == old(files) && r.errors == [] && Quoted(r.changes, vs))
        && (fix ==>
              && BlankedAt(old(files), files, Removed(vs, io, |vs|))
              && Undone(old(files), r.changes, Removed(vs, io, |vs|))
              && r.errors == Failed(vs, io, |vs|))
      ensures r.success <==> r.errors == []
      ensures files.Keys == old(files).Keys
      ensures forall f :: f in files && !Searched(rule, list, f) ==> files[f] == old(files)[f]
      ensures forall c :: c in r.changes ==> Searched(rule, list, c.file)
    {
      var violations := FindViolations(rule, list);
      forall v | v in violations ensures Present(files, v) {
        ViolationIsLine(files, pats, rule, list, v);
      }
      if fix {
        r := RemoveImports(violations, io);
        RemovedOrFailed(violations, io, |violations|);
        OnlySearched(old(files), files, pats, rule, list, Removed(violations, io, |violations|));
      } else {
        r := Report(violations);
        OnlySearched(files, files, pats, rule, list, []);
      }
    }

    /** The loop of the fixing run. */
    method RemoveImports(violations: seq<Violation>, io: nat -> bool) returns (r: FixResult)
      requires forall v :: v in violations ==> Present(files, v)
      modifies this
      ensures BlankedAt(old(files), files, Removed(violations, io, |violations|))
      ensures Undone(old(files), r.changes, Removed(violations, io, |violations|))
      ensures r.errors == Failed(violations, io, |violations|) && (r.success <==> r.errors == [])
    {
      ghost var start := files;
      BlankedNone(start);
      var changes, errors := [], [];
      for i := 0 to |violations|
        invariant errors == Failed(violations, io, i)
        invariant Undone(start, changes, Removed(violations, io, i))
        invariant BlankedAt(start, files, Removed(violations, io, i))
      {
        var v := violations[i];
        assert v in violations;
        ghost var before, done := files, Removed(violations, io, i);
        BlankedOneMore(start, before, done, v);
        var change := RemoveImport(v, io(i));
        if change.Some? {
          LineStanding(start, before, done, v);
          OneMoreChange(start, changes, done, change.value, v);
          changes := changes + [change.value];
          assert Removed(violations, io, i + 1) == done + [v];
        } else {
          errors := errors + [v];
          assert Removed(violations, io, i + 1) == done + [] == done;
        }
      }
      r := FixResult(errors == [], changes, errors);
    }

    /** The loop of the run that only reports. */
    method Report(violations: seq<Violation>) returns (r: FixResult)
      ensures r.success && r.errors == [] && Quoted(r.changes, violations)
    {
      r := FixResult(true, [], []);
      for i := 0 to |violations|
        invariant r.success && r.errors == [] && Quoted(r.changes, violations[..i])
      {
        r := r.(changes := r.changes + [Change(violations[i].file, violations[i].statement, None)]);
      }
      assert violations[..|violations|] == violations;
    }
  }

  // ---------- what the violations are ----------

  /** One of the patterns finds an imported path that contains the target path, its backslashes read
  as slashes. */
  ghost predicate LineViolates(pats: Patterns, rule: Rule, text: string) {
    exists found :: found in [pats.esModule(text), pats.commonJs(text), pats.dynamic(text)]
      && found.Some? && OccursSlashed(found.value, rule.targetPath)
  }

  /** A listed file whose path contains the source path, its backslashes read as slashes. */
  ghost predicate Searched(rule: Rule, list: seq<string>, file: string) {
    file in list && OccursSlashed(file, rule.sourcePath)
  }

  lemma HitExactly(found: Option<string>, rule: Rule, file: string, line: nat, text: string)
    ensures Hit(found, rule, file, line, text) == if found.Some? && OccursSlashed(found.value, rule.targetPath)
      then [Violation(file, line, Strip(text), found.value)] else []
  {
    if found.Some? {
      ContainsSlashed(found.value, rule.targetPath);
    }
  }

  lemma OnLineMembers(pats: Patterns, rule: Rule, file: string, line: nat, text: string)
    ensures forall v :: v in OnLine(pats, rule, file, line, text) ==> v.file == file && v.line == line
    ensures OnLine(pats, rule, file, line, text) != [] <==> LineViolates(pats, rule, text)
  {
    var found := [pats.esModule(text), pats.commonJs(text), pats.dynamic(text)];
    assert found[0] in found && found[1] in found && found[2] in found;
    HitExactly(found[0], rule, file, line, text);
    HitExactly(found[1], rule, file, line, text);
    HitExactly(found[2], rule, file, line, text);
  }

  ghost predicate Reported(vs: seq<Violation>, file: string, line: nat) {
    exists v :: v in vs && v.file == file && v.line == line
  }

  lemma ReportedConcat(a: seq<Violation>, b: seq<Violation>, file: string, line: nat)
    ensures Reported(a + b, file, line) <==> Reported(a, file, line) || Reported(b, file, line)
  {
    assert forall v :: v in a + b <==> v in a || v in b;
  }

  lemma {:induction false} InLinesMembers(pats: Patterns, rule: Rule, file: string, lines: seq<string>, k: nat)
    requires k <= |lines|
    ensures forall v :: v in InLines(pats, rule, file, lines, k) ==> v.file == file && 1 <= v.line <= k
    ensures forall n :: 1 <= n <= k ==>
      (Reported(InLines(pats, rule, file, lines, k), file, n) <==> LineViolates(pats, rule, lines[n - 1]))
  {
    if k > 0 {
      var before, here := InLines(pats, rule, file, lines, k - 1), OnLine(pats, rule, file, k, lines[k - 1]);
      InLinesMembers(pats, rule, file, lines, k - 1);
      OnLineMembers(pats, rule, file, k, lines[k - 1]);
      forall n | 1 <= n <= k
        ensures Reported(before + here, file, n) <==> LineViolates(pats, rule, lines[n - 1])
      {
        ReportedConcat(before, here, file, n);
        if n == k && here != [] {
          assert here[0] in here;
        }
      }
    }
  }

  lemma {:induction false} FlattenMember(parts: seq<seq<Violation>>, v: Violation)
    ensures v in Flatten(parts) <==> exists i :: 0 <= i < |parts| && v in parts[i]
  {
    if parts != [] {
      FlattenMember(parts[..|parts| - 1], v);
    }
  }

  /** The reported positions are exactly the violating lines of the searched, readable files. */
  lemma ReportedExactly(files: Files, pats: Patterns, rule: Rule, list: seq<string>, file: string, line: nat)
    ensures Reported(AllViolations(files, pats, rule, list), file, line) <==>
      Searched(rule, list, file) && file in files
      && 1 <= line <= |Split(files[file], NL)| && LineViolates(pats, rule, Split(files[file], NL)[line - 1])
  {
    var vs, parts := AllViolations(files, pats, rule, list), PerFile(files, pats, rule, list);
    ContainsSlashed(file, rule.sourcePath);
    if Reported(vs, file, line) {
      var v :| v in vs && v.file == file && v.line == line;
      FlattenMember(parts, v);
      var i :| 0 <= i < |parts| && v in parts[i];
      var lines := Split(files[list[i]], NL);
      InLinesMembers(pats, rule, list[i], lines, |lines|);
      assert Reported(InLines(pats, rule, list[i], lines, |lines|), file, line);
    }
    if file in list && file in files && Governs(rule, file) {
      var lines := Split(files[file], NL);
      InLinesMembers(pats, rule, file, lines, |lines|);
      if 1 <= line <= |lines| && LineViolates(pats, rule, lines[line - 1]) {
        assert Reported(InLines(pats, rule, file, lines, |lines|), file, line);
        var v :| v in InLines(pats, rule, file, lines, |lines|) && v.file == file && v.line == line;
        var i :| 0 <= i < |list| && list[i] == file;
        assert v in parts[i];
        FlattenMember(parts, v);
      }
    }
  }

  ghost predicate Present(files: Files, v: Violation) {
    v.file in files && 1 <= v.line <= |Split(files[v.file], NL)|
  }

  lemma ViolationIsLine(files: Files, pats: Patterns, rule: Rule, list: seq<string>, v: Violation)
    requires v in AllViolations(files, pats, rule, list)
    ensures Present(files, v)
  {
    ReportedExactly(files, pats, rule, list, v.file, v.line);
  }

  // ---------- what the edits do ----------

  lemma LineStanding(start: Files, now: Files, done: seq<Violation>, v: Violation)
    requires BlankedAt(start, now, done) && Present(start, v)
    ensures Present(now, v) && Split(now[v.file], NL)[v.line - 1] == Standing(start, done, v)
  {
    assert BlankedLines(v.file, Split(start[v.file], NL), Split(now[v.file], NL), done);
  }

  /** `after` is `files` with exactly the reported lines blank, and every line in its place. */
  ghost predicate BlankedAt(files: Files, after: Files, vs: seq<Violation>) {
    && after.Keys == files.Keys
    && forall f :: f in files ==> BlankedLines(f, Split(files[f], NL), Split(after[f], NL), vs)
  }

  ghost predicate BlankedLines(f: string, olds: seq<string>, news: seq<string>, vs: seq<Violation>) {
    && |news| == |olds|
    && forall i :: 0 <= i < |olds| ==> news[i] == if Reported(vs, f, i + 1) then "" else olds[i]
  }

  /** Files outside the rule's source path, or not listed, are neither reported nor changed. */
  lemma OnlySearched(files: Files, after: Files, pats: Patterns, rule: Rule, list: seq<string>, done: seq<Violation>)
    requires BlankedAt(files, after, done)
    requires forall v :: v in done ==> v in AllViolations(files, pats, rule, list)
    ensures forall v :: v in AllViolations(files, pats, rule, list) ==> Searched(rule, list, v.file)
    ensures forall f :: f in after && !Searched(rule, list, f) ==> after[f] == files[f]
  {
    var vs := AllViolations(files, pats, rule, list);
    forall v | v in vs ensures Searched(rule, list, v.file) {
      ReportedExactly(files, pats, rule, list, v.file, v.line);
    }
    forall f | f in after && !Searched(rule, list, f) ensures after[f] == files[f] {
      assert BlankedLines(f, Split(files[f], NL), Split(after[f], NL), done);
      assert forall i: nat :: !Reported(done, f, i);
      assert Split(files[f], NL) == Split(after[f], NL);
      JoinSplit(files[f], NL);
      JoinSplit(after[f], NL);
    }
  }

  /** A line can be blanked exactly when it is there. */
  lemma BlankExactly(files: Files, v: Violation)
    ensures Blank(files, v).Some? <==> Present(files, v)
  {}

  lemma BlankedNone(files: Files)
    ensures BlankedAt(files, files, [])
  {}

  lemma ReportedOneMore(done: seq<Violation>, v: Violation, f: string, line: nat)
    ensures Reported(done + [v], f, line) <==> Reported(done, f, line) || (v.file == f && v.line == line)
  {
    ReportedConcat(done, [v], f, line);
    assert v in [v];
  }

  /** A line number found before the edits is still that of the same line after any of them. */
  lemma BlankedOneMore(files: Files, now: Files, done: seq<Violation>, v: Violation)
    requires Present(files, v) && BlankedAt(files, now, done)
    ensures Blank(now, v).Some? && BlankedAt(files, Blank(now, v).value, done + [v])
  {
    assert BlankedLines(v.file, Split(files[v.file], NL), Split(now[v.file], NL), done);
    BlankedLine(now, v);
    var next := Blank(now, v).value;
    forall f | f in files ensures BlankedLines(f, Split(files[f], NL), Split(next[f], NL), done + [v]) {
      assert BlankedLines(f, Split(files[f], NL), Split(now[f], NL), done);
      forall j | 0 <= j < |Split(files[f], NL)|
        ensures Split(next[f], NL)[j] == if Reported(done + [v], f, j + 1) then "" else Split(files[f], NL)[j]
      {
        ReportedOneMore(done, v, f, j + 1);
      }
    }
  }

  lemma BlankedLine(now: Files, v: Violation)
    requires Present(now, v)
    ensures Blank(now, v).Some? && Blank(now, v).value.Keys == now.Keys
    ensures Split(Blank(now, v).value[v.file], NL) == Split(now[v.file], NL)[v.line - 1 := ""]
    ensures forall f :: f in now && f != v.file ==> Blank(now, v).value[f] == now[f]
  {
    SplitFree(now[v.file], NL);
    SplitJoin(Split(now[v.file], NL)[v.line - 1 := ""], NL);
  }

  /** A second search finds exactly the lines that were found before and have not been blanked. */
  lemma RescanFindsLeft(files: Files, after: Files, pats: Patterns, rule: Rule, list: seq<string>,
        done: seq<Violation>, file: string, line: nat)
    requires BlankIsClean(pats) && BlankedAt(files, after, done)
    ensures Reported(AllViolations(after, pats, rule, list), file, line)
      <==> Reported(AllViolations(files, pats, rule, list), file, line) && !Reported(done, file, line)
  {
    ReportedExactly(after, pats, rule, list, file, line);
    ReportedExactly(files, pats, rule, list, file, line);
    OnLineMembers(pats, rule, file, line, "");
    if file in files {
      assert BlankedLines(file, Split(files[file], NL), Split(after[file], NL), done);
    }
  }

  lemma NoneReported(vs: seq<Violation>)
    ensures vs == [] <==> forall f, line :: !Reported(vs, f, line)
  {
    if vs != [] {
      assert vs[0] in vs;
      assert Reported(vs, vs[0].file, vs[0].line);
    }
  }

  /** The fix is complete: if every violation was removed, a second search finds nothing. */
  lemma RescanFindsNothing(files: Files, after: Files, pats: Patterns, rule: Rule, list: seq<string>)
    requires BlankIsClean(pats) && BlankedAt(files, after, AllViolations(files, pats, rule, list))
    ensures AllViolations(after, pats, rule, list) == []
  {
    var vs, left := AllViolations(files, pats, rule, list), AllViolations(after, pats, rule, list);
    forall f, line ensures !Reported(left, f, line) {
      RescanFindsLeft(files, after, pats, rule, list, vs, f, line);
    }
    NoneReported(left);
  }

  /** When removals may fail, a second search finds nothing exactly when every violation reported
  as an error lies on a line that was blanked for another one; so always after a success. */
  lemma RescanAfterFix(files: Files, after: Files, pats: Patterns, rule: Rule, list: seq<string>, io: nat -> bool)
    requires BlankIsClean(pats)
    requires var vs := AllViolations(files, pats, rule, list); BlankedAt(files, after, Removed(vs, io, |vs|))
    ensures var vs := AllViolations(files, pats, rule, list);
      AllViolations(after, pats, rule, list) == [] <==>
        forall v :: v in Failed(vs, io, |vs|) ==> Reported(Removed(vs, io, |vs|), v.file, v.line)
  {
    var vs, left := AllViolations(files, pats, rule, list), AllViolations(after, pats, rule, list);
    var done, failed := Removed(vs, io, |vs|), Failed(vs, io, |vs|);
    RemovedOrFailed(vs, io, |vs|);
    assert vs[..|vs|] == vs;
    forall f, line ensures Reported(left, f, line) <==> Reported(vs, f, line) && !Reported(done, f, line) {
      RescanFindsLeft(files, after, pats, rule, list, done, f, line);
    }
    NoneReported(left);
    if left == [] {
      forall v | v in failed ensures Reported(done, v.file, v.line) {
        assert Reported(vs, v.file, v.line);
      }
    }
  }

  /** Fixing twice is fixing once. */
  lemma FixIsIdempotent(files: Files, after: Files, again: Files, pats: Patterns, rule: Rule, list: seq<string>)
    requires BlankIsClean(pats) && BlankedAt(files, after, AllViolations(files, pats, rule, list))
    requires BlankedAt(after, again, AllViolations(after, pats, rule, list))
    ensures again == after
  {
    RescanFindsNothing(files, after, pats, rule, list);
    forall f | f in after ensures again[f] == after[f] {
      var olds, news := Split(after[f], NL), Split(again[f], NL);
      assert BlankedLines(f, olds, news, []);
      assert news == olds;
      JoinSplit(after[f], NL);
      JoinSplit(again[f], NL);
    }
  }
}
