/** What the steps of the refactor executor mean, said about paths and texts directly
(rice_factor/adapters/executors/refactor_executor_adapter.py). */
module PipelineLaws {
  import opened Sequences
  import opened Text
  import opened RenamePreview
  import opened RefactorPipeline
  import opened StalePreviews

  // ---------- paths ----------

  lemma AboveExactly(d: string, p: string)
    ensures Above(d, p) <==> exists rest :: p == d + "/" + rest
  {
    if Above(d, p) {
      assert p == d + "/" + p[|d| + 1..];
    }
  }

  lemma AboveByCharacters(d: string, p: string)
    ensures Above(d, p) <==> |p| > |d| && p[..|d|] == d && p[|d|] == '/'
  {
    if |p| > |d| {
      assert p[..|d| + 1] == p[..|d|] + [p[|d|]];
      assert (d + "/")[..|d|] == d && (d + "/")[|d|] == '/';
    }
  }

  /** The last part of a path, behind the last slash. */
  lemma BaseNameExactly(p: string) returns (above: string)
    ensures Free(BaseName(p), '/')
    ensures p == BaseName(p) || p == above + ['/'] + BaseName(p)
  {
    var parts := Split(p, '/');
    var init, last := parts[..|parts| - 1], parts[|parts| - 1];
    above := Join(init, '/');
    LastFree(p);
    JoinSplit(p, '/');
    LastApart(init, last);
    assert parts == init + [last];
  }

  lemma LastApart(init: seq<string>, last: string)
    ensures Join(init + [last], '/') == if init == [] then last else Join(init, '/') + ['/'] + last
  {
    if init != [] {
      JoinLast(init, last, '/');
    }
  }

  lemma LastFree(p: string)
    ensures Free(Split(p, '/')[|Split(p, '/')| - 1], '/')
  {
    SplitFree(p, '/');
  }

  // ---------- checks ----------

  /** Some file has this path, or lies under it. */
  ghost predicate Taken(tree: Tree, p: string) {
    exists f :: f in tree && (f == p || (|f| > |p| && f[..|p|] == p && f[|p|] == '/'))
  }

  lemma TakenExactly(tree: Tree, p: string)
    ensures Exists(tree, p) <==> Taken(tree, p)
  {
    forall f ensures Above(p, f) <==> |f| > |p| && f[..|p|] == p && f[|p|] == '/' {
      AboveByCharacters(p, f);
    }
  }

  /** A move or rename fails the check when its named source is no file, and a move when its named
  destination is taken. */
  lemma CheckedExactly(tree: Tree, kind: Kind, a: Option<string>, b: Option<string>, symbol: Option<string>)
    ensures var error := CheckOp(tree, Operation(kind, a, b, symbol));
      var missing := !kind.Other? && a.Some? && a.value != "" && a.value !in tree;
      var taken := kind.MoveFile? && b.Some? && b.value != "" && Taken(tree, b.value);
      && (missing ==> error == Some(SourceNotFound(a.value)))
      && (!missing && taken ==> error == Some(AlreadyExists(b.value)))
      && (!missing && !taken ==> error == None)
  {
    if b.Some? {
      TakenExactly(tree, b.value);
    }
  }

  /** The error reported is that of the first operation that fails its check. */
  lemma {:induction false} FirstErrorReported(tree: Tree, ops: seq<Operation>, i: nat)
    requires i < |ops| && CheckOp(tree, ops[i]).Some? && forall j :: 0 <= j < i ==> CheckOp(tree, ops[j]) == None
    ensures Execute(tree, ops, true) == (tree, Failure(CheckOp(tree, ops[i]).value))
    ensures Execute(tree, ops, false) == (tree, Failure(CheckOp(tree, ops[i]).value))
    decreases |ops|
  {
    FirstError(tree, ops, i);
  }

  lemma {:induction false} FirstError(tree: Tree, ops: seq<Operation>, i: nat)
    requires i < |ops| && CheckOp(tree, ops[i]).Some? && forall j :: 0 <= j < i ==> CheckOp(tree, ops[j]) == None
    ensures CheckAll(tree, ops) == CheckOp(tree, ops[i])
    decreases |ops|
  {
    if i > 0 {
      assert ops[1..][i - 1] == ops[i];
      assert forall j :: 0 <= j < i - 1 ==> ops[1..][j] == ops[j + 1];
      FirstError(tree, ops[1..], i - 1);
    }
  }

  lemma {:induction false} AllChecked(tree: Tree, ops: seq<Operation>)
    ensures CheckAll(tree, ops) == None <==> forall i :: 0 <= i < |ops| ==> CheckOp(tree, ops[i]) == None
  {
    if ops != [] {
      AllChecked(tree, ops[1..]);
      assert forall i :: 0 <= i < |ops[1..]| ==> ops[1..][i] == ops[i + 1];
      assert forall i :: 0 < i < |ops| ==> ops[i] == ops[1..][i - 1];
    }
  }

  lemma {:induction false} AllPreviewed(tree: Tree, ops: seq<Operation>)
    ensures PreviewAll(tree, ops).Some? <==> forall i :: 0 <= i < |ops| ==> PreviewOp(tree, ops[i]).Some?
  {
    if ops != [] {
      AllPreviewed(tree, ops[1..]);
      assert forall i :: 0 <= i < |ops[1..]| ==> ops[1..][i] == ops[i + 1];
      assert forall i :: 0 < i < |ops| ==> ops[i] == ops[1..][i - 1];
    }
  }

  /** A dry run succeeds exactly when every operation passes its check and can be previewed, and an
  applied plan exactly when its operations then go through as well. */
  lemma SucceedsExactly(tree: Tree, ops: seq<Operation>)
    ensures var ready := forall i :: 0 <= i < |ops| ==> CheckOp(tree, ops[i]) == None && PreviewOp(tree, ops[i]).Some?;
      && (Execute(tree, ops, false).1.Success? <==> ready)
      && (Execute(tree, ops, true).1.Success? <==> ready && ApplyAll(tree, ops).1)
      && (ready ==> Execute(tree, ops, true).0 == ApplyAll(tree, ops).0)
      && (!ready ==> Execute(tree, ops, true).0 == tree)
      && Execute(tree, ops, false).0 == tree
  {
    AllChecked(tree, ops);
    AllPreviewed(tree, ops);
  }

  // ---------- effects ----------

  /** An operation without the arguments it needs shows and does nothing. */
  lemma ArgumentsMissing(tree: Tree, op: Operation)
    ensures op.kind.Other? || op.fromPath.None? || op.fromPath == Some("") ==>
      PreviewOp(tree, op) == Some("") && ApplyOp(tree, op) == Some(tree)
    ensures op.kind.MoveFile? && (op.toPath.None? || op.toPath == Some("")) ==> ApplyOp(tree, op) == Some(tree)
    ensures op.kind.RenameSymbol? && (op.symbol.None? || op.symbol == Some("") || op.toPath.None?) ==>
      PreviewOp(tree, op) == Some("") && ApplyOp(tree, op) == Some(tree)
  {}

  /** Some file stands where a directory above p has to be. */
  ghost predicate InTheWay(tree: Tree, p: string) {
    exists d :: d in tree && |d| < |p| && p[..|d|] == d && p[|d|] == '/'
  }

  lemma InTheWayExactly(tree: Tree, p: string)
    ensures Blocked(tree, p) <==> InTheWay(tree, p)
  {
    forall d ensures Above(d, p) <==> |d| < |p| && p[..|d|] == d && p[|d|] == '/' {
      AboveByCharacters(d, p);
    }
  }

  /** Where the text of a moved file is afterwards: at the destination, or inside it under the last
  part of its old path if the destination is a directory by then. It raises when the source is gone,
  a file is in the way, or the place inside the directory is taken. */
  lemma MovedExactly(tree: Tree, a: string, b: string, inside: string)
    requires a != "" && b != "" && (inside == a || exists d :: a == d + "/" + inside) && Free(inside, '/')
    ensures var move := Operation(MoveFile, Some(a), Some(b), None);
      var directory := exists f :: f in tree && |f| > |b| && f[..|b|] == b && f[|b|] == '/';
      var place := if directory then b + "/" + inside else b;
      && (a !in tree || InTheWay(tree, b) || (directory && Taken(tree, place)) ==> ApplyOp(tree, move) == None)
      && (a in tree && !InTheWay(tree, b) && !(directory && Taken(tree, place)) ==>
            ApplyOp(tree, move) == Some((tree - {a})[place := tree[a]]))
  {
    InTheWayExactly(tree, b);
    OnlyBaseName(a, inside);
    TakenExactly(tree, b + "/" + inside);
    DirectoryExactly(tree, b);
  }

  lemma DirectoryExactly(tree: Tree, b: string)
    ensures IsDir(tree, b) <==> exists f :: f in tree && |f| > |b| && f[..|b|] == b && f[|b|] == '/'
  {
    forall f ensures Above(b, f) <==> |f| > |b| && f[..|b|] == b && f[|b|] == '/' {
      AboveByCharacters(b, f);
    }
  }

  lemma OnlyBaseName(a: string, inside: string)
    requires Free(inside, '/') && (inside == a || exists d :: a == d + "/" + inside)
    ensures BaseName(a) == inside
  {
    SplitWhole(inside, '/');
    if inside != a {
      var d :| a == d + "/" + inside;
      assert a == d + ['/'] + inside;
      SplitConcat(d, '/', inside);
    }
  }

  /** A rename replaces the symbol in its file and touches no other. */
  lemma RenamedExactly(tree: Tree, path: string, oldName: string, newName: string)
    requires path != "" && oldName != ""
    ensures var done := ApplyOp(tree, Rename(path, oldName, newName));
      && (path in tree ==> done == Some(tree[path := Replace(tree[path], oldName, newName)]))
      && (path !in tree ==> done == None)
  {}

  // ---------- printed texts ----------

  /** The printed preview of a move; a missing destination is printed as an empty one. */
  lemma MovePrinted(tree: Tree, a: string, dest: Option<string>, b: string)
    requires a != "" && a in tree && (if dest == None then b == "" else dest == Some(b))
    ensures PreviewOp(tree, Operation(MoveFile, Some(a), dest, None)) == Some(
      "diff --git a/" + a + " b/" + b + "\n" + ("rename from " + a + "\n" + ("rename to " + b + "\n"
      + ("--- a/" + a + "\n" + ("+++ b/" + b)))))
  {
    var lines := MoveLines(a, b);
    JoinFive(lines[0], lines[1], lines[2], lines[3], lines[4]);
    assert lines == [lines[0], lines[1], lines[2], lines[3], lines[4]];
  }

  /** The printed lines of the preview of a rename: three for the file, three for each changed line. */
  lemma RenamePrinted()
    ensures FileHeader("f") == ["diff --git a/f b/f", "--- a/f", "+++ b/f"]
    ensures HunkFor(12, "u", "v") == ["@@ -12,1 +12,1 @@", "-u", "+v"]
  {
    assert "diff --git a/" + "f" + " b/" + "f" == "diff --git a/f b/f";
    assert "--- a/" + "f" == "--- a/f" && "+++ b/" + "f" == "+++ b/f";
    TwelvePrinted();
    assert "-" + "u" == "-u" && "+" + "v" == "+v";
  }

  lemma TwelvePrinted()
    ensures HunkHeader(12) == "@@ -12,1 +12,1 @@"
  {
    assert Decimal(1) == "1" && Decimal(12) == "1" + "2" == "12";
  }

  lemma JoinTwo(a: string, rest: seq<string>)
    requires rest != []
    ensures Join([a] + rest, NL) == a + "\n" + Join(rest, NL)
  {
    assert ([a] + rest)[1..] == rest;
  }

  lemma JoinFive(a: string, b: string, c: string, d: string, e: string)
    ensures Join([a, b, c, d, e], NL) == a + "\n" + (b + "\n" + (c + "\n" + (d + "\n" + e)))
  {
    JoinTwo(d, [e]);
    assert [d, e] == [d] + [e] && [c, d, e] == [c] + [d, e];
    JoinTwo(c, [d, e]);
    assert [b, c, d, e] == [b] + [c, d, e] && [a, b, c, d, e] == [a] + [b, c, d, e];
    JoinTwo(b, [c, d, e]);
    JoinTwo(a, [b, c, d, e]);
  }

  // ---------- the result of a plan ----------

  lemma PreviewNotEmpty(path: string, s: string, oldName: string, newName: string)
    requires oldName != "" && Pairable(s, oldName, newName)
    ensures PreviewText(path, s, oldName, newName).value != ""
  {
    var lines := FileHeader(path) + Hunks(Lines(s), Lines(Replace(s, oldName, newName)), |Lines(s)|);
    assert |lines| >= 3 && lines[0][0] == 'd';
  }

  lemma {:induction false} AllShown(tree: Tree, ops: seq<Operation>)
    requires PreviewAll(tree, ops).Some?
    requires forall i :: 0 <= i < |ops| ==> PreviewOp(tree, ops[i]) != Some("")
    ensures var diffs := PreviewAll(tree, ops).value;
      |diffs| == |ops| && forall i :: 0 <= i < |ops| ==> PreviewOp(tree, ops[i]) == Some(diffs[i])
  {
    if ops != [] {
      assert forall i :: 0 <= i < |ops[1..]| ==> ops[1..][i] == ops[i + 1];
      AllShown(tree, ops[1..]);
      var rest := PreviewAll(tree, ops[1..]).value;
      forall i | 0 <= i < |ops| ensures PreviewOp(tree, ops[i]) == Some(PreviewAll(tree, ops).value[i]) {
        assert i > 0 ==> PreviewOp(tree, ops[1..][i - 1]) == Some(rest[i - 1]);
      }
    }
  }

  /** The diffs that a successful plan of renames in distinct files returns, one per operation, turn
  every file into what it has become. */
  lemma ReturnedDiffsTell(tree: Tree, ops: seq<Operation>)
    requires SeparateRenames(ops) && Execute(tree, ops, true).1.Success?
    ensures var (after, r) := Execute(tree, ops, true);
      && |r.diffs| == |ops| && r == Execute(tree, ops, false).1
      && forall i :: 0 <= i < |ops| ==>
           var f := ops[i].fromPath.value;
           f in tree && f in after && Patch(tree[f], r.diffs[i]) == Some(after[f])
  {
    AllChecked(tree, ops);
    AllPreviewed(tree, ops);
    forall i | 0 <= i < |ops| ensures ops[i].fromPath.value in tree && PreviewOp(tree, ops[i]) != Some("") {
      assert CheckOp(tree, ops[i]) == None;
      var f := ops[i].fromPath.value;
      assert PreviewOp(tree, ops[i]).Some?;
      PreviewNotEmpty(f, tree[f], ops[i].symbol.value, ops[i].toPath.value);
    }
    AllShown(tree, ops);
    PlanDoesWhatItShows(tree, ops);
  }

  /** With several renames in one file, a returned diff is what its operation did exactly when the
  operation makes the same changes in the initial text and in the one it finds. */
  lemma ReturnedDiffsHold(tree: Tree, ops: seq<Operation>, i: nat)
    requires AllRenames(tree, ops) && Execute(tree, ops, true).1.Success?
    requires i < |ops| && forall j :: 0 <= j < |ops| ==> IsRename(tree, ops[j]) && ops[j].toPath.value != ""
    ensures var diffs, f := Execute(tree, ops, true).1.diffs, ops[i].fromPath.value;
      && |diffs| == |ops| && f in Before(tree, ops, i) && f in Before(tree, ops, i + 1)
      && f in tree && Pairable(tree[f], ops[i].symbol.value, ops[i].toPath.value)
      && (Patch(Before(tree, ops, i)[f], diffs[i]) == Some(Before(tree, ops, i + 1)[f])
      <==> SameChanges(tree[f], Rewritten(ops[..i], f, tree[f]), ops[i].symbol.value, ops[i].toPath.value))
  {
    AllPreviewed(tree, ops);
    forall j | 0 <= j < |ops| ensures PreviewOp(tree, ops[j]) != Some("") {
      assert IsRename(tree, ops[j]) && PreviewOp(tree, ops[j]).Some?;
      var f := ops[j].fromPath.value;
      PreviewNotEmpty(f, tree[f], ops[j].symbol.value, ops[j].toPath.value);
    }
    AllShown(tree, ops);
    assert IsRename(tree, ops[i]) && PreviewOp(tree, ops[i]).Some?;
    StaleExactly(tree, ops, i);
  }
}
