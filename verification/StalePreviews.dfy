/** Previews of renames are all made from the initial tree, while each rename acts on what the ones
before it left (rice_factor/adapters/executors/refactor_executor_adapter.py). This module says
exactly when a preview still tells what its rename does. */
module StalePreviews {
  import opened Sequences
  import opened Text
  import opened RenamePreview
  import opened RefactorPipeline

  // ---------- one preview on another text ----------

  /** Among the first k lines, those that the hunks change stand unchanged in `base`. */
  ghost predicate Fits(base: seq<string>, olds: seq<string>, news: seq<string>, k: nat)
    requires k <= |olds| == |news|
  {
    forall i :: 0 <= i < k && olds[i] != news[i] ==> i < |base| && base[i] == olds[i]
  }

  /** `base` with those lines changed. */
  function Patched(base: seq<string>, olds: seq<string>, news: seq<string>, k: nat): (r: seq<string>)
    requires k <= |olds| == |news|
    ensures |r| == |base|
  {
    seq(|base|, i requires 0 <= i < |base| => if i < k && olds[i] != news[i] then news[i] else base[i])
  }

  lemma {:induction false} ApplyHunksFails(lines: seq<string>, a: seq<string>, b: seq<string>)
    requires ApplyHunks(lines, a).None? && |a| % 3 == 0
    ensures ApplyHunks(lines, a + b).None?
    decreases |a|
  {
    assert (a + b)[3..] == a[3..] + b;
    var n := HeaderLine(a[0]);
    if n.Some? && 1 <= n.value <= |lines| && a[1] == "-" + lines[n.value - 1] && a[2] != "" && a[2][0] == '+' {
      ApplyHunksFails(lines[n.value - 1 := a[2][1..]], a[3..], b);
    }
  }

  lemma {:induction false} HunksInThrees(olds: seq<string>, news: seq<string>, k: nat)
    requires k <= |olds| == |news|
    ensures |Hunks(olds, news, k)| % 3 == 0
  {
    if k > 0 {
      HunksInThrees(olds, news, k - 1);
    }
  }

  lemma OneHunkElsewhere(lines: seq<string>, k: nat, oldLine: string, newLine: string)
    requires 1 <= k && oldLine != newLine && !(k <= |lines| && lines[k - 1] == oldLine)
    ensures ApplyHunks(lines, HunkFor(k, oldLine, newLine)).None?
  {
    HeaderLineRead(k);
    if k <= |lines| {
      assert ("-" + oldLine)[1..] == oldLine && ("-" + lines[k - 1])[1..] == lines[k - 1];
    }
  }

  lemma PatchedNone(base: seq<string>, olds: seq<string>, news: seq<string>)
    requires |olds| == |news|
    ensures Fits(base, olds, news, 0) && Patched(base, olds, news, 0) == base
    ensures ApplyHunks(base, Hunks(olds, news, 0)) == Some(base)
  {}

  /** The hunks for the first k lines of one text apply to another text exactly when they fit,
  and then change those lines only. */
  lemma {:induction false} HunksOnOther(base: seq<string>, olds: seq<string>, news: seq<string>, k: nat)
    requires k <= |olds| == |news|
    ensures ApplyHunks(base, Hunks(olds, news, k)) ==
      if Fits(base, olds, news, k) then Some(Patched(base, olds, news, k)) else None
  {
    if k == 0 {
      PatchedNone(base, olds, news);
    } else {
      HunksOnOther(base, olds, news, k - 1);
      NextHunk(base, olds, news, k);
    }
  }

  lemma FitsNext(base: seq<string>, olds: seq<string>, news: seq<string>, k: nat)
    requires 1 <= k <= |olds| == |news|
    ensures Fits(base, olds, news, k) == (
      && Fits(base, olds, news, k - 1)
      && (olds[k - 1] == news[k - 1] || (k <= |base| && base[k - 1] == olds[k - 1])))
    ensures Patched(base, olds, news, k) ==
      if olds[k - 1] == news[k - 1] || k > |base| then Patched(base, olds, news, k - 1)
      else Patched(base, olds, news, k - 1)[k - 1 := news[k - 1]]
  {}

  lemma NextHunk(base: seq<string>, olds: seq<string>, news: seq<string>, k: nat)
    requires 1 <= k <= |olds| == |news|
    requires ApplyHunks(base, Hunks(olds, news, k - 1)) ==
      if Fits(base, olds, news, k - 1) then Some(Patched(base, olds, news, k - 1)) else None
    ensures ApplyHunks(base, Hunks(olds, news, k)) ==
      if Fits(base, olds, news, k) then Some(Patched(base, olds, news, k)) else None
  {
    var before, hunk := Hunks(olds, news, k - 1), HunkFor(k, olds[k - 1], news[k - 1]);
    FitsNext(base, olds, news, k);
    if !Fits(base, olds, news, k - 1) {
      HunksInThrees(olds, news, k - 1);
      ApplyHunksFails(base, before, hunk);
    } else {
      ApplyHunksConcat(base, before, hunk);
      NewestHunk(base, Patched(base, olds, news, k - 1), olds[k - 1], news[k - 1], k);
    }
  }

  lemma NewestHunk(base: seq<string>, lines: seq<string>, oldLine: string, newLine: string, k: nat)
    requires 1 <= k && |lines| == |base| && (k <= |base| ==> lines[k - 1] == base[k - 1])
    ensures ApplyHunks(lines, HunkFor(k, oldLine, newLine)) ==
      if oldLine == newLine then Some(lines)
      else if k <= |base| && base[k - 1] == oldLine then Some(lines[k - 1 := newLine])
      else None
  {
    if oldLine != newLine {
      if k <= |base| && base[k - 1] == oldLine {
        OneHunk(lines, k, newLine);
      } else {
        OneHunkElsewhere(lines, k, oldLine, newLine);
      }
    }
  }

  /** Patching any text t with the preview made from s. */
  lemma PreviewOnOther(path: string, s: string, t: string, oldName: string, newName: string)
    requires oldName != "" && Free(path, NL) && Pairable(s, oldName, newName)
    ensures var olds, news := Lines(s), Lines(Replace(s, oldName, newName));
      Patch(t, PreviewText(path, s, oldName, newName).value) ==
        if Fits(Lines(t), olds, news, |news|) then Some(Join(Patched(Lines(t), olds, news, |news|), NL)) else None
  {
    var olds, news := Lines(s), Lines(Replace(s, oldName, newName));
    PreviewLines(path, s, oldName, newName);
    HunksOnOther(Lines(t), olds, news, |news|);
  }

  /** The rename makes the same changes in both texts: it keeps the number of lines of t, and every
  line that it changes in one text is there in the other and becomes the same line. */
  ghost predicate SameChanges(s: string, t: string, oldName: string, newName: string)
    requires oldName != "" && Pairable(s, oldName, newName)
  {
    && Pairable(t, oldName, newName)
    && Within(Lines(s), Lines(Replace(s, oldName, newName)), Lines(t), Lines(Replace(t, oldName, newName)))
    && Within(Lines(t), Lines(Replace(t, oldName, newName)), Lines(s), Lines(Replace(s, oldName, newName)))
  }

  /** Every change from `olds` to `news` is one from `others` to `others'`. */
  ghost predicate Within(olds: seq<string>, news: seq<string>, others: seq<string>, others': seq<string>)
    requires |olds| == |news| && |others| == |others'|
  {
    forall i :: 0 <= i < |olds| && olds[i] != news[i] ==> i < |others| && others[i] == olds[i] && others'[i] == news[i]
  }

  lemma PatchedIsTarget(base: seq<string>, target: seq<string>, olds: seq<string>, news: seq<string>)
    requires |olds| == |news|
    ensures Fits(base, olds, news, |news|) && Patched(base, olds, news, |news|) == target <==>
      |base| == |target| && Within(olds, news, base, target) && Within(base, target, olds, news)
  {
    var patched := Patched(base, olds, news, |news|);
    if |base| == |target| && Within(olds, news, base, target) && Within(base, target, olds, news) {
      forall i | 0 <= i < |base| ensures patched[i] == target[i] {}
    }
  }

  lemma JoinedAlike(a: seq<string>, s: string)
    requires a != [] && AllFree(a, NL)
    ensures Join(a, NL) == s <==> a == Lines(s)
  {
    SplitJoin(a, NL);
    JoinSplit(s, NL);
  }

  /** For any names, a preview made from s tells what the rename does to t exactly when the rename
  makes the same changes in both. */
  lemma PreviewHoldsExactly(path: string, s: string, t: string, oldName: string, newName: string)
    requires oldName != "" && Free(path, NL) && Pairable(s, oldName, newName)
    ensures Patch(t, PreviewText(path, s, oldName, newName).value) == Some(Replace(t, oldName, newName))
      <==> SameChanges(s, t, oldName, newName)
  {
    PreviewOnOther(path, s, t, oldName, newName);
    var olds, news := Lines(s), Lines(Replace(s, oldName, newName));
    SplitFree(t, NL);
    SplitFree(Replace(s, oldName, newName), NL);
    JoinedAlike(Patched(Lines(t), olds, news, |news|), Replace(t, oldName, newName));
    PatchedIsTarget(Lines(t), Lines(Replace(t, oldName, newName)), olds, news);
  }

  /** Every line that f changes in one text is that very line in the other. */
  ghost predicate SameWhereChanged(a: seq<string>, b: seq<string>, f: string -> string) {
    && (forall i :: 0 <= i < |a| && f(a[i]) != a[i] ==> i < |b| && b[i] == a[i])
    && (forall i :: 0 <= i < |b| && f(b[i]) != b[i] ==> i < |a| && a[i] == b[i])
  }

  /** Names without newlines act line by line, so the lines themselves decide. */
  lemma SameChangesByLines(s: string, t: string, oldName: string, newName: string)
    requires oldName != "" && Free(oldName, NL) && Free(newName, NL)
    ensures Pairable(s, oldName, newName)
    ensures SameChanges(s, t, oldName, newName) <==> SameWhereChanged(Lines(s), Lines(t), ReplaceIn(oldName, newName))
  {
    ReplaceLineByLine(s, oldName, newName);
    ReplaceLineByLine(t, oldName, newName);
    WithinByLines(Lines(s), Lines(t), ReplaceIn(oldName, newName));
  }

  lemma WithinByLines(a: seq<string>, b: seq<string>, f: string -> string)
    ensures Within(a, Map(f, a), b, Map(f, b)) && Within(b, Map(f, b), a, Map(f, a)) <==> SameWhereChanged(a, b, f)
  {}

  // ---------- plans ----------

  /** A rename in a file of the tree; the new name may be empty. */
  ghost predicate IsRename(tree: Tree, op: Operation) {
    && op.kind.RenameSymbol? && Given(op.fromPath) && Given(op.symbol) && op.toPath.Some?
    && Free(op.fromPath.value, NL) && op.fromPath.value in tree
  }

  ghost predicate AllRenames(tree: Tree, ops: seq<Operation>) {
    forall i :: 0 <= i < |ops| ==> IsRename(tree, ops[i])
  }

  /** What these operations, applied in order, make of a text in this file. */
  function Rewritten(ops: seq<Operation>, path: string, text: string): string {
    if ops == [] then text
    else
      var op := ops[0];
      var next := if op.fromPath == Some(path) && Given(op.symbol) && op.toPath.Some?
        then Replace(text, op.symbol.value, op.toPath.value) else text;
      Rewritten(ops[1..], path, next)
  }

  /** After any number of renames every file holds its initial text, rewritten. */
  lemma {:induction false} TextNow(tree: Tree, ops: seq<Operation>, path: string)
    requires AllRenames(tree, ops) && path in tree
    ensures var (after, done) := ApplyAll(tree, ops);
      done && after.Keys == tree.Keys && after[path] == Rewritten(ops, path, tree[path])
    decreases |ops|
  {
    if ops != [] {
      assert IsRename(tree, ops[0]);
      assert forall i :: 0 <= i < |ops[1..]| ==> ops[1..][i] == ops[i + 1];
      TextNow(ApplyOp(tree, ops[0]).value, ops[1..], path);
    }
  }

  lemma {:induction false} ApplyAllConcat(tree: Tree, a: seq<Operation>, b: seq<Operation>)
    requires ApplyAll(tree, a).1
    ensures ApplyAll(tree, a + b) == ApplyAll(ApplyAll(tree, a).0, b)
    decreases |a|
  {
    if a == [] {
      assert a + b == b;
    } else {
      assert (a + b)[1..] == a[1..] + b;
      ApplyAllConcat(ApplyOp(tree, a[0]).value, a[1..], b);
    }
  }

  /** The tree that operation i of a plan finds. */
  ghost function Before(tree: Tree, ops: seq<Operation>, i: nat): Tree
    requires i <= |ops|
  {
    ApplyAll(tree, ops[..i]).0
  }

  /** In any plan of renames, several in one file or not, an operation does what its preview says
  exactly when it makes the same changes in the initial text of its file and in the text that the
  operations before it leave. */
  lemma StaleExactly(tree: Tree, ops: seq<Operation>, i: nat)
    requires AllRenames(tree, ops) && i < |ops| && ops[i].toPath.value != ""
    requires Pairable(tree[ops[i].fromPath.value], ops[i].symbol.value, ops[i].toPath.value)
    ensures var path, oldName, newName := ops[i].fromPath.value, ops[i].symbol.value, ops[i].toPath.value;
      && PreviewOp(tree, ops[i]).Some?
      && path in Before(tree, ops, i) && path in Before(tree, ops, i + 1)
      && (Patch(Before(tree, ops, i)[path], PreviewOp(tree, ops[i]).value) == Some(Before(tree, ops, i + 1)[path])
      <==> SameChanges(tree[path], Rewritten(ops[..i], path, tree[path]), oldName, newName))
  {
    var path, earlier := ops[i].fromPath.value, ops[..i];
    assert IsRename(tree, ops[i]);
    assert AllRenames(tree, earlier);
    TextNow(tree, earlier, path);
    assert ops[..i + 1] == earlier + [ops[i]] && [ops[i]][1..] == [];
    ApplyAllConcat(tree, earlier, [ops[i]]);
    PreviewHoldsExactly(path, tree[path], Before(tree, ops, i)[path], ops[i].symbol.value, ops[i].toPath.value);
  }

  // ---------- names without newlines ----------

  ghost predicate OneLineNames(ops: seq<Operation>) {
    forall i :: 0 <= i < |ops| ==> Free(TextOf(ops[i].symbol), NL) && Free(TextOf(ops[i].toPath), NL)
  }

  function LineNow(ops: seq<Operation>, path: string): string -> string {
    (line: string) => Rewritten(ops, path, line)
  }

  lemma MapMap(f: string -> string, g: string -> string, both: string -> string, s: seq<string>)
    requires forall x :: both(x) == g(f(x))
    ensures Map(g, Map(f, s)) == Map(both, s)
  {}

  /** Such names rewrite a text line by line. */
  lemma {:induction false} LinesNow(ops: seq<Operation>, path: string, text: string)
    requires OneLineNames(ops)
    ensures Lines(Rewritten(ops, path, text)) == Map(LineNow(ops, path), Lines(text))
    decreases |ops|
  {
    if ops == [] {
      assert Map(LineNow(ops, path), Lines(text)) == Lines(text);
    } else {
      var op, rest := ops[0], ops[1..];
      assert forall i :: 0 <= i < |rest| ==> rest[i] == ops[i + 1];
      if op.fromPath == Some(path) && Given(op.symbol) && op.toPath.Some? {
        var oldName, newName := op.symbol.value, op.toPath.value;
        LinesNow(rest, path, Replace(text, oldName, newName));
        ReplaceLineByLine(text, oldName, newName);
        MapMap(ReplaceIn(oldName, newName), LineNow(rest, path), LineNow(ops, path), Lines(text));
      } else {
        LinesNow(rest, path, text);
        forall line ensures Rewritten(ops, path, line) == Rewritten(rest, path, line) {}
        assert Map(LineNow(ops, path), Lines(text)) == Map(LineNow(rest, path), Lines(text));
      }
    }
  }

  /** This line is what it was at the start, or f changes neither its old nor its present form. */
  ghost predicate Undisturbed(now: string -> string, f: string -> string, line: string) {
    now(line) == line || (f(line) == line && f(now(line)) == now(line))
  }

  /** With such names, in words of the initial lines: an operation does what its preview says
  exactly when every line of its file is undisturbed by the operations before it. */
  lemma StaleByLines(tree: Tree, ops: seq<Operation>, i: nat)
    requires AllRenames(tree, ops) && OneLineNames(ops) && i < |ops| && ops[i].toPath.value != ""
    ensures var path, oldName, newName := ops[i].fromPath.value, ops[i].symbol.value, ops[i].toPath.value;
      && PreviewOp(tree, ops[i]).Some?
      && path in Before(tree, ops, i) && path in Before(tree, ops, i + 1)
      && (Patch(Before(tree, ops, i)[path], PreviewOp(tree, ops[i]).value) == Some(Before(tree, ops, i + 1)[path])
      <==> forall line :: line in Lines(tree[path]) ==>
             Undisturbed(LineNow(ops[..i], path), ReplaceIn(oldName, newName), line))
  {
    var path, earlier := ops[i].fromPath.value, ops[..i];
    var oldName, newName := ops[i].symbol.value, ops[i].toPath.value;
    assert IsRename(tree, ops[i]);
    SameChangesByLines(tree[path], Rewritten(earlier, path, tree[path]), oldName, newName);
    StaleExactly(tree, ops, i);
    LinesNow(earlier, path, tree[path]);
    LinesUndisturbed(Lines(tree[path]), LineNow(earlier, path), ReplaceIn(oldName, newName));
  }

  lemma LinesUndisturbed(lines: seq<string>, now: string -> string, f: string -> string)
    ensures SameWhereChanged(lines, Map(now, lines), f) <==> forall line :: line in lines ==> Undisturbed(now, f, line)
  {
    var b := Map(now, lines);
    if forall line :: line in lines ==> Undisturbed(now, f, line) {
      assert forall i :: 0 <= i < |lines| ==> Undisturbed(now, f, lines[i]);
    }
    if SameWhereChanged(lines, b, f) {
      forall line | line in lines ensures Undisturbed(now, f, line) {
        var i :| 0 <= i < |lines| && lines[i] == line;
        assert b[i] == now(line);
      }
    }
  }

  /** Two renames in one file: the second preview shows nothing, yet the second rename acts. */
  lemma SecondPreviewIsStale()
    ensures var tree := map["f" := "a"];
      var ops := [Rename("f", "a", "b"), Rename("f", "b", "c")];
      && CheckAll(tree, ops) == None
      && PreviewOp(tree, ops[1]) == Some(Join(FileHeader("f"), NL))
      && ApplyAll(tree, ops) == (map["f" := "c"], true)
  {
    var tree: Tree := map["f" := "a"];
    var ops := [Rename("f", "a", "b"), Rename("f", "b", "c")];
    assert Replace("a", "b", "c") == "a" && Replace("a", "a", "b") == "b" && Replace("b", "b", "c") == "c";
    assert Split("a", NL) == ["a"];
    assert FileHeader("f") + [] == FileHeader("f");
    var next: Tree := map["f" := "b"];
    assert tree["f" := "b"] == next && next["f" := "c"] == map["f" := "c"];
    assert ApplyOp(tree, ops[0]) == Some(next) && ApplyOp(next, ops[1]) == Some(map["f" := "c"]);
    assert ops[1..] == [ops[1]] && ops[1..][1..] == [];
    assert ApplyAll(next, [ops[1]]) == (map["f" := "c"], true);
  }
}
