/** The order in which the dependency-rule fixer finds violations, said by file, line and pattern
(rice_factor/adapters/refactoring/jscodeshift_adapter.py). */
module DependencyOrder {
  import opened Sequences
  import opened Text
  import opened TextLaws
  import opened DependencyFixer

  /** Where a violation is found: which listed file, which line, which of the three patterns. */
  datatype Place = Place(file: nat, line: nat, pattern: nat)

  ghost predicate Earlier(p: Place, q: Place) {
    p.file < q.file || (p.file == q.file && (p.line < q.line || (p.line == q.line && p.pattern < q.pattern)))
  }

  ghost predicate InOrder(at: seq<Place>) {
    forall j, k :: 0 <= j < k < |at| ==> Earlier(at[j], at[k])
  }

  // ---------- listings by place ----------

  /** What is found at each place, if anything. */
  type Finder = Place -> Option<Violation>

  ghost function One(f: Finder, p: Place): seq<Violation> {
    if f(p).Some? then [f(p).value] else []
  }

  ghost function ByPattern(f: Finder, file: nat, line: nat): seq<Violation> {
    One(f, Place(file, line, 0)) + One(f, Place(file, line, 1)) + One(f, Place(file, line, 2))
  }

  ghost function ByLine(f: Finder, file: nat, k: nat): seq<Violation> {
    if k == 0 then [] else ByLine(f, file, k - 1) + ByPattern(f, file, k)
  }

  /** `lines[i]` is how many lines of file i are searched. */
  ghost function ByFile(f: Finder, lines: seq<nat>): seq<Violation> {
    if lines == [] then [] else ByFile(f, lines[..|lines| - 1]) + ByLine(f, |lines| - 1, lines[|lines| - 1])
  }

  /** The violations are those at these places, in this order. */
  ghost predicate Shows(f: Finder, vs: seq<Violation>, at: seq<Place>) {
    |vs| == |at| && InOrder(at) && forall j :: 0 <= j < |at| ==> f(at[j]) == Some(vs[j])
  }

  lemma ShowsConcat(f: Finder, vs: seq<Violation>, at: seq<Place>, ws: seq<Violation>, bt: seq<Place>)
    requires Shows(f, vs, at) && Shows(f, ws, bt) && forall p, q :: p in at && q in bt ==> Earlier(p, q)
    ensures Shows(f, vs + ws, at + bt)
  {}

  lemma ByPatternShown(f: Finder, file: nat, line: nat) returns (at: seq<Place>)
    ensures Shows(f, ByPattern(f, file, line), at)
    ensures forall p :: p in at <==> p.file == file && p.line == line && p.pattern < 3 && f(p).Some?
  {
    var p, q, r := Place(file, line, 0), Place(file, line, 1), Place(file, line, 2);
    at := (if f(p).Some? then [p] else []) + (if f(q).Some? then [q] else []) + (if f(r).Some? then [r] else []);
  }

  lemma {:induction false} ByLineShown(f: Finder, file: nat, k: nat) returns (at: seq<Place>)
    ensures Shows(f, ByLine(f, file, k), at)
    ensures forall p :: p in at <==> p.file == file && 1 <= p.line <= k && p.pattern < 3 && f(p).Some?
  {
    if k == 0 {
      at := [];
    } else {
      var before := ByLineShown(f, file, k - 1);
      var here := ByPatternShown(f, file, k);
      ShowsConcat(f, ByLine(f, file, k - 1), before, ByPattern(f, file, k), here);
      at := before + here;
      assert forall p :: p in at <==> p in before || p in here;
    }
  }

  lemma {:induction false} ByFileShown(f: Finder, lines: seq<nat>) returns (at: seq<Place>)
    ensures Shows(f, ByFile(f, lines), at)
    ensures forall p :: p in at <==>
      p.file < |lines| && 1 <= p.line <= lines[p.file] && p.pattern < 3 && f(p).Some?
  {
    if lines == [] {
      at := [];
    } else {
      var n := |lines| - 1;
      var before := ByFileShown(f, lines[..n]);
      var here := ByLineShown(f, n, lines[n]);
      ShowsConcat(f, ByFile(f, lines[..n]), before, ByLine(f, n, lines[n]), here);
      at := before + here;
      assert forall p :: p in at <==> p in before || p in here;
    }
  }

  // ---------- the search ----------

  datatype Search = Search(files: Files, pats: Patterns, rule: Rule, list: seq<string>)

  ghost function LinesOf(s: Search, i: nat): nat
    requires i < |s.list|
  {
    if Searched(s.rule, s.list, s.list[i]) && s.list[i] in s.files then |Split(s.files[s.list[i]], NL)| else 0
  }

  ghost predicate OnText(s: Search, p: Place) {
    p.file < |s.list| && 1 <= p.line <= LinesOf(s, p.file)
  }

  ghost function TextAt(s: Search, p: Place): string
    requires OnText(s, p)
  {
    Split(s.files[s.list[p.file]], NL)[p.line - 1]
  }

  ghost function ImportIn(pats: Patterns, pattern: nat, text: string): Option<string> {
    if pattern == 0 then pats.esModule(text)
    else if pattern == 1 then pats.commonJs(text)
    else if pattern == 2 then pats.dynamic(text)
    else None
  }

  /** The pattern finds a path in the line that contains the target path. */
  ghost predicate Forbidden(s: Search, p: Place) {
    && OnText(s, p)
    && var found := ImportIn(s.pats, p.pattern, TextAt(s, p));
       found.Some? && OccursSlashed(found.value, s.rule.targetPath)
  }

  ghost function FoundAt(s: Search): Finder {
    (p: Place) =>
      if Forbidden(s, p) then
        Some(Violation(s.list[p.file], p.line, Strip(TextAt(s, p)), ImportIn(s.pats, p.pattern, TextAt(s, p)).value))
      else None
  }

  /** What the search finds at a place, and what f does. */
  ghost predicate HitAgrees(s: Search, f: Finder, p: Place)
    requires OnText(s, p)
  {
    Hit(ImportIn(s.pats, p.pattern, TextAt(s, p)), s.rule, s.list[p.file], p.line, TextAt(s, p)) == One(f, p)
  }

  ghost predicate HitsAgree(s: Search, f: Finder) {
    forall p :: OnText(s, p) ==> HitAgrees(s, f, p)
  }

  lemma HitsFound(s: Search) returns (f: Finder)
    ensures f == FoundAt(s) && HitsAgree(s, f)
  {
    f := FoundAt(s);
    forall p | OnText(s, p) ensures HitAgrees(s, f, p) {
      HitExactly(ImportIn(s.pats, p.pattern, TextAt(s, p)), s.rule, s.list[p.file], p.line, TextAt(s, p));
    }
  }

  lemma OnLineFound(s: Search, f: Finder, i: nat, line: nat)
    requires OnText(s, Place(i, line, 0)) && HitsAgree(s, f)
    ensures OnLine(s.pats, s.rule, s.list[i], line, TextAt(s, Place(i, line, 0))) == ByPattern(f, i, line)
  {
    var text, file := TextAt(s, Place(i, line, 0)), s.list[i];
    HitAt(s, f, Place(i, line, 0), s.pats.esModule(text));
    HitAt(s, f, Place(i, line, 1), s.pats.commonJs(text));
    HitAt(s, f, Place(i, line, 2), s.pats.dynamic(text));
    OnLineSum(s.pats, s.rule, file, line, text, One(f, Place(i, line, 0)), One(f, Place(i, line, 1)),
      One(f, Place(i, line, 2)));
  }

  lemma HitAt(s: Search, f: Finder, p: Place, found: Option<string>)
    requires OnText(s, p) && HitsAgree(s, f) && found == ImportIn(s.pats, p.pattern, TextAt(s, p))
    ensures Hit(found, s.rule, s.list[p.file], p.line, TextAt(s, p)) == One(f, p)
  {
    assert HitAgrees(s, f, p);
  }

  lemma OnLineSum(pats: Patterns, rule: Rule, file: string, line: nat, text: string, a: seq<Violation>,
        b: seq<Violation>, c: seq<Violation>)
    requires a == Hit(pats.esModule(text), rule, file, line, text)
    requires b == Hit(pats.commonJs(text), rule, file, line, text)
    requires c == Hit(pats.dynamic(text), rule, file, line, text)
    ensures OnLine(pats, rule, file, line, text) == a + b + c
  {}

  /** On each line of file i the search finds what f does. */
  ghost predicate LinesAgree(pats: Patterns, rule: Rule, file: string, lines: seq<string>, f: Finder, i: nat) {
    forall line: nat :: 1 <= line <= |lines| ==>
      OnLine(pats, rule, file, line, lines[line - 1]) == ByPattern(f, i, line)
  }

  lemma LinesFound(s: Search, f: Finder, i: nat)
    requires OnText(s, Place(i, 1, 0)) && HitsAgree(s, f)
    ensures LinesAgree(s.pats, s.rule, s.list[i], Split(s.files[s.list[i]], NL), f, i)
  {
    var lines := Split(s.files[s.list[i]], NL);
    forall line: nat | 1 <= line <= |lines|
      ensures OnLine(s.pats, s.rule, s.list[i], line, lines[line - 1]) == ByPattern(f, i, line)
    {
      OnLineFound(s, f, i, line);
    }
  }

  lemma {:induction false} InLinesFound(pats: Patterns, rule: Rule, file: string, lines: seq<string>, f: Finder,
        i: nat, k: nat) returns (found: seq<Violation>)
    requires LinesAgree(pats, rule, file, lines, f, i) && k <= |lines|
    ensures found == InLines(pats, rule, file, lines, k)
    ensures found == ByLine(f, i, k)
  {
    if k == 0 {
      found := [];
    } else {
      var before := InLinesFound(pats, rule, file, lines, f, i, k - 1);
      found := before + ByPattern(f, i, k);
      LineAgrees(pats, rule, file, lines, f, i, k);
    }
  }

  lemma LineAgrees(pats: Patterns, rule: Rule, file: string, lines: seq<string>, f: Finder, i: nat, k: nat)
    requires LinesAgree(pats, rule, file, lines, f, i) && 1 <= k <= |lines|
    ensures OnLine(pats, rule, file, k, lines[k - 1]) == ByPattern(f, i, k)
  {}

  lemma InFileFound(s: Search, f: Finder, i: nat)
    requires i < |s.list| && HitsAgree(s, f)
    ensures InFile(s.files, s.pats, s.rule, s.list[i]) == ByLine(f, i, LinesOf(s, i))
  {
    ContainsSlashed(s.list[i], s.rule.sourcePath);
    if OnText(s, Place(i, 1, 0)) {
      LinesFound(s, f, i);
      var found := InLinesFound(s.pats, s.rule, s.list[i], Split(s.files[s.list[i]], NL), f, i, LinesOf(s, i));
    }
  }

  ghost function LinesOfFirst(s: Search, n: nat): (lines: seq<nat>)
    requires n <= |s.list|
    ensures |lines| == n && forall i :: 0 <= i < n ==> lines[i] == LinesOf(s, i)
  {
    if n == 0 then [] else LinesOfFirst(s, n - 1) + [LinesOf(s, n - 1)]
  }

  lemma {:induction false} PartsFound(parts: seq<seq<Violation>>, f: Finder, lines: seq<nat>)
    requires |parts| == |lines| && forall i :: 0 <= i < |parts| ==> parts[i] == ByLine(f, i, lines[i])
    ensures Flatten(parts) == ByFile(f, lines)
  {
    if parts != [] {
      PartsFound(parts[..|parts| - 1], f, lines[..|lines| - 1]);
    }
  }

  lemma AllFound(s: Search) returns (f: Finder, lines: seq<nat>)
    ensures f == FoundAt(s) && lines == LinesOfFirst(s, |s.list|)
    ensures AllViolations(s.files, s.pats, s.rule, s.list) == ByFile(f, lines)
  {
    f := HitsFound(s);
    lines := LinesOfFirst(s, |s.list|);
    var parts := PerFile(s.files, s.pats, s.rule, s.list);
    forall i | 0 <= i < |parts| ensures parts[i] == ByLine(f, i, lines[i]) {
      InFileFound(s, f, i);
    }
    PartsFound(parts, f, lines);
  }

  /** A search finds every forbidden import once, by file, line and pattern: nothing else, and in no
  other order. */
  lemma FoundInOrder(s: Search) returns (at: seq<Place>)
    ensures var vs := AllViolations(s.files, s.pats, s.rule, s.list);
      && |vs| == |at| && InOrder(at)
      && (forall p :: p in at <==> Forbidden(s, p))
      && forall j :: 0 <= j < |at| ==>
           && OnText(s, at[j])
           && var text := TextAt(s, at[j]);
              Some(vs[j].target) == ImportIn(s.pats, at[j].pattern, text)
              && vs[j] == Violation(s.list[at[j].file], at[j].line, Strip(text), vs[j].target)
  {
    var f, lines := AllFound(s);
    at := ByFileShown(f, lines);
    PlacesForbidden(s, at);
  }

  lemma PlacesForbidden(s: Search, at: seq<Place>)
    requires var lines := LinesOfFirst(s, |s.list|); forall p :: p in at <==>
      p.file < |lines| && 1 <= p.line <= lines[p.file] && p.pattern < 3 && FoundAt(s)(p).Some?
    ensures forall p :: p in at <==> Forbidden(s, p)
  {}

  /** With `src` and `infra` forbidden to meet, `src/a.js` is searched and `x.js` is not. */
  lemma SourcePathGoverns()
    ensures Governs(Rule("src", "infra"), "src/a.js") && !Governs(Rule("src", "infra"), "x.js")
    ensures Governs(Rule("src\\a", "infra"), "src/a.js")
  {
    var rule, windows := Rule("src", "infra"), Rule("src\\a", "infra");
    ContainsSlashed("src/a.js", "src");
    ContainsSlashed("x.js", "src");
    ContainsSlashed("src/a.js", "src\\a");
    assert SlashedAt("src/a.js", "src", 0) && SlashedAt("src/a.js", "src\\a", 0);
    forall j ensures !SlashedAt("x.js", "src", j) {
      assert j == 0 || j == 1 ==> "x.js"[j] != 's' && "src"[0] == 's' && "x.js"[j + 0] == "x.js"[j];
    }
  }

  // ---------- which removals go through ----------

  /** The violations removed are those whose file could be read and written at their turn, in order. */
  lemma {:induction false} RemovedInOrder(vs: seq<Violation>, io: nat -> bool, k: nat) returns (at: seq<nat>)
    requires k <= |vs|
    ensures PickedAt(vs[..k], Removed(vs, io, k), at)
    ensures forall i: nat :: i in at <==> i < k && io(i)
  {
    if k == 0 {
      at := [];
    } else {
      var before := RemovedInOrder(vs, io, k - 1);
      at := PickedOneMore(vs[..k - 1], Removed(vs, io, k - 1), before, vs[k - 1], io(k - 1));
      assert vs[..k] == vs[..k - 1] + [vs[k - 1]];
    }
  }

  /** The errors are those whose file could not. */
  lemma {:induction false} FailedAreOthers(vs: seq<Violation>, io: nat -> bool, not: nat -> bool, k: nat)
    requires k <= |vs| && forall i: nat :: not(i) == !io(i)
    ensures Failed(vs, io, k) == Removed(vs, not, k)
  {
    if k > 0 {
      FailedAreOthers(vs, io, not, k - 1);
    }
  }
}
