/** The refactor executor (rice_factor/adapters/executors/refactor_executor_adapter.py): check
every precondition on the initial tree, preview every operation on it, then apply the operations
one by one.

A tree maps file paths to contents; a directory exists as long as some file lies under it. */
module RefactorPipeline {
  import opened Sequences
  import opened Text
  import opened RenamePreview

  type Tree = map<string, string>

  datatype Kind = MoveFile | RenameSymbol | Other

  datatype Operation = Operation(kind: Kind, fromPath: Option<string>, toPath: Option<string>, symbol: Option<string>)

  datatype Error = SourceNotFound(path: string) | AlreadyExists(path: string) | PreviewRaised | ApplyRaised

  datatype Outcome = Success(diffs: seq<string>) | Failure(error: Error)

  /** A present, non-empty argument. */
  predicate Given(o: Option<string>) {
    o.Some? && o.value != ""
  }

  function TextOf(o: Option<string>): string {
    if o.Some? then o.value else ""
  }

  // ---------- paths ----------

  /** d is a directory above p. */
  predicate Above(d: string, p: string) {
    d + "/" <= p
  }

  predicate IsDir(tree: Tree, d: string) {
    exists p :: p in tree && Above(d, p)
  }

  predicate Exists(tree: Tree, p: string) {
    p in tree || IsDir(tree, p)
  }

  /** A file stands where a directory above p would have to be created. */
  predicate Blocked(tree: Tree, p: string) {
    exists d :: d in tree && Above(d, p)
  }

  function BaseName(p: string): string {
    var parts := Split(p, '/');
    parts[|parts| - 1]
  }

  // ---------- the steps ----------

  function CheckOp(tree: Tree, op: Operation): Option<Error> {
    if op.kind.Other? then None
    else if Given(op.fromPath) && op.fromPath.value !in tree then Some(SourceNotFound(op.fromPath.value))
    else if op.kind.MoveFile? && Given(op.toPath) && Exists(tree, op.toPath.value) then
      Some(AlreadyExists(op.toPath.value))
    else None
  }

  function MoveLines(a: string, b: string): (lines: seq<string>)
    ensures |lines| == 5
  {
    ["diff --git a/" + a + " b/" + b, "rename from " + a, "rename to " + b, "--- a/" + a, "+++ b/" + b]
  }

  /** The printed preview, empty for none; None when printing raises. */
  function PreviewOp(tree: Tree, op: Operation): Option<string> {
    match op.kind
    case Other => Some("")
    case MoveFile =>
      if !Given(op.fromPath) || op.fromPath.value !in tree then Some("")
      else
        var a, b := op.fromPath.value, TextOf(op.toPath);
        Some(Join(MoveLines(a, b), NL))
    case RenameSymbol =>
      if !Given(op.fromPath) || !Given(op.symbol) || !Given(op.toPath) || op.fromPath.value !in tree then Some("")
      else PreviewText(op.fromPath.value, tree[op.fromPath.value], op.symbol.value, op.toPath.value)
  }

  /** Where a move ends up: inside the destination if that is a directory. */
  function Target(tree: Tree, src: string, dest: string): string {
    if IsDir(tree, dest) then dest + "/" + BaseName(src) else dest
  }

  /** The tree after one move; None when creating the directories or moving raises. */
  function Moved(tree: Tree, src: string, dest: string): Option<Tree> {
    if Blocked(tree, dest) || src !in tree then None
    else if IsDir(tree, dest) && Exists(tree, Target(tree, src, dest)) then None
    else Some((tree - {src})[Target(tree, src, dest) := tree[src]])
  }

  function ApplyOp(tree: Tree, op: Operation): Option<Tree> {
    match op.kind
    case Other => Some(tree)
    case MoveFile =>
      if !Given(op.fromPath) || !Given(op.toPath) then Some(tree)
      else Moved(tree, op.fromPath.value, op.toPath.value)
    case RenameSymbol =>
      if !Given(op.fromPath) || !Given(op.symbol) || op.toPath.None? then Some(tree)
      else if op.fromPath.value !in tree then None
      else Some(tree[op.fromPath.value := Replace(tree[op.fromPath.value], op.symbol.value, op.toPath.value)])
  }

  function CheckAll(tree: Tree, ops: seq<Operation>): Option<Error> {
    if ops == [] then None
    else if CheckOp(tree, ops[0]).Some? then CheckOp(tree, ops[0])
    else CheckAll(tree, ops[1..])
  }

  /** Two lists of previews, one behind the other; None if either could not be made. */
  function Both(a: Option<seq<string>>, b: Option<seq<string>>): Option<seq<string>> {
    if a.None? || b.None? then None else Some(a.value + b.value)
  }

  function One(preview: Option<string>): Option<seq<string>> {
    if preview.None? then None else Some(if preview.value == "" then [] else [preview.value])
  }

  /** The non-empty previews in order. */
  function PreviewAll(tree: Tree, ops: seq<Operation>): Option<seq<string>> {
    if ops == [] then Some([])
    else
      Both(One(PreviewOp(tree, ops[0])), PreviewAll(tree, ops[1..]))
  }

  /** The tree where applying stops, and whether all operations were applied. */
  function ApplyAll(tree: Tree, ops: seq<Operation>): (Tree, bool)
    decreases |ops|
  {
    if ops == [] then (tree, true)
    else if ApplyOp(tree, ops[0]).None? then (tree, false)
    else ApplyAll(ApplyOp(tree, ops[0]).value, ops[1..])
  }

  function Execute(tree: Tree, ops: seq<Operation>, apply: bool): (Tree, Outcome) {
    if CheckAll(tree, ops).Some? then (tree, Failure(CheckAll(tree, ops).value))
    else if PreviewAll(tree, ops).None? then (tree, Failure(PreviewRaised))
    else if !apply then (tree, Success(PreviewAll(tree, ops).value))
    else
      var (after, done) := ApplyAll(tree, ops);
      (after, if done then Success(PreviewAll(tree, ops).value) else Failure(ApplyRaised))
  }

  lemma BothRegroup(x: Option<seq<string>>, y: Option<seq<string>>, z: Option<seq<string>>)
    ensures Both(x, Both(y, z)) == Both(Both(x, y), z)
    ensures Both(Some([]), z) == z
  {
    if x.Some? && y.Some? && z.Some? {
      assert x.value + (y.value + z.value) == (x.value + y.value) + z.value;
    }
    if z.Some? {
      assert [] + z.value == z.value;
    }
  }

  lemma {:induction false} PreviewConcat(tree: Tree, a: seq<Operation>, b: seq<Operation>)
    ensures PreviewAll(tree, a + b) == Both(PreviewAll(tree, a), PreviewAll(tree, b))
  {
    if a == [] {
      assert a + b == b;
      BothRegroup(Some([]), Some([]), PreviewAll(tree, b));
    } else {
      assert (a + b)[1..] == a[1..] + b;
      PreviewConcat(tree, a[1..], b);
      BothRegroup(One(PreviewOp(tree, a[0])), PreviewAll(tree, a[1..]), PreviewAll(tree, b));
    }
  }

  /** The diffs are the previews of the operations at increasing positions, made on this tree and
  not empty, and an operation at any other position has an empty one. */
  ghost predicate ShownInOrder(tree: Tree, ops: seq<Operation>, diffs: seq<string>) {
    exists at: seq<int> :: ShownAt(tree, ops, diffs, at)
  }

  ghost predicate ShownAt(tree: Tree, ops: seq<Operation>, diffs: seq<string>, at: seq<int>) {
    && |at| == |diffs|
    && (forall j :: 0 <= j < |at| ==>
          0 <= at[j] < |ops| && PreviewOp(tree, ops[at[j]]) == Some(diffs[j]) && diffs[j] != "")
    && (forall j, k :: 0 <= j < k < |at| ==> at[j] < at[k])
    && (forall i :: 0 <= i < |ops| ==>
          i in at || PreviewOp(tree, ops[i]) == Some(""))
  }

  lemma {:induction false} PreviewsShown(tree: Tree, ops: seq<Operation>) returns (at: seq<int>)
    requires PreviewAll(tree, ops).Some?
    ensures ShownAt(tree, ops, PreviewAll(tree, ops).value, at)
    decreases |ops|
  {
    if ops == [] {
      at := [];
    } else {
      var n := |ops| - 1;
      var init, last := ops[..n], ops[n];
      assert ops == init + [last] && [last][1..] == [];
      PreviewConcat(tree, init, [last]);
      var before := PreviewsShown(tree, init);
      var one := One(PreviewOp(tree, last)).value;
      assert PreviewAll(tree, [last]) == Some(one + []) && one + [] == one;
      at := if one == [] then before else before + [n];
      OneMoreShown(tree, init, last, PreviewAll(tree, init).value, before);
    }
  }

  lemma OneMoreShown(tree: Tree, ops: seq<Operation>, op: Operation, diffs: seq<string>, at: seq<int>)
    requires ShownAt(tree, ops, diffs, at) && PreviewOp(tree, op).Some?
    ensures PreviewOp(tree, op) == Some("") ==> ShownAt(tree, ops + [op], diffs + [], at)
    ensures PreviewOp(tree, op) != Some("") ==>
      ShownAt(tree, ops + [op], diffs + [PreviewOp(tree, op).value], at + [|ops|])
  {
    assert diffs + [] == diffs;
    forall i | 0 <= i <= |ops|
      ensures i in at || i == |ops| || PreviewOp(tree, (ops + [op])[i]) == Some("")
    {
      assert i < |ops| ==> (ops + [op])[i] == ops[i];
    }
    assert PreviewOp(tree, op) == Some("") ==> (ops + [op])[|ops|] == op;
  }

  lemma SuccessShows(tree: Tree, ops: seq<Operation>, apply: bool)
    requires Execute(tree, ops, apply).1.Success?
    ensures ShownInOrder(tree, ops, Execute(tree, ops, apply).1.diffs)
  {
    var at := PreviewsShown(tree, ops);
  }

  class RefactorExecutor {
    var tree: Tree

    constructor (tree: Tree)
      ensures this.tree == tree
    {
      this.tree := tree;
    }

    method ExecutePipeline(ops: seq<Operation>, apply: bool) returns (r: Outcome)
      modifies this
      ensures (tree, r) == Execute(old(tree), ops, apply)
      ensures r.Success? ==> ShownInOrder(old(tree), ops, r.diffs)
      ensures !apply ==> tree == old(tree)
    {
      if Execute(tree, ops, apply).1.Success? {
        SuccessShows(tree, ops, apply);
      }
      for i := 0 to |ops|
        invariant CheckAll(tree, ops) == CheckAll(tree, ops[i..]) && tree == old(tree)
      {
        var error := CheckOp(tree, ops[i]);
        if error.Some? {
          return Failure(error.value);
        }
        assert ops[i..][1..] == ops[i + 1..];
      }
      var diffs := [];
      for i := 0 to |ops|
        invariant PreviewAll(tree, ops[..i]) == Some(diffs) && tree == old(tree)
      {
        assert ops[..i + 1] == ops[..i] + [ops[i]] && [ops[i]][1..] == [];
        PreviewConcat(tree, ops[..i], [ops[i]]);
        assert ops == ops[..i + 1] + ops[i + 1..];
        PreviewConcat(tree, ops[..i + 1], ops[i + 1..]);
        var diff := GenerateDiff(ops[i]);
        if diff.None? {
          return Failure(PreviewRaised);
        }
        ghost var one := One(diff).value;
        assert PreviewAll(tree, [ops[i]]) == Some(one + []);
        assert one + [] == one && diffs + [] == diffs;
        if diff.value != "" {
          diffs := diffs + [diff.value];
        }
      }
      assert ops[..|ops|] == ops;
      if apply {
        for i := 0 to |ops|
          invariant ApplyAll(old(tree), ops) == ApplyAll(tree, ops[i..])
        {
          assert ops[i..][1..] == ops[i + 1..];
          var ok := ApplyOperation(ops[i]);
          if !ok {
            return Failure(ApplyRaised);
          }
        }
      }
      return Success(diffs);
    }

    method GenerateDiff(op: Operation) returns (diff: Option<string>)
      ensures diff == PreviewOp(tree, op)
    {
      if op.kind.RenameSymbol? {
        if !Given(op.fromPath) || !Given(op.symbol) || !Given(op.toPath) || op.fromPath.value !in tree {
          return Some("");
        }
        diff := GenerateRenameDiff(op.fromPath.value, tree[op.fromPath.value], op.symbol.value, op.toPath.value);
      } else {
        diff := PreviewOp(tree, op);
      }
    }

    /** False when the operation raises, leaving the tree as it was. */
    method ApplyOperation(op: Operation) returns (ok: bool)
      modifies this
      ensures ok == ApplyOp(old(tree), op).Some?
      ensures tree == if ok then ApplyOp(old(tree), op).value else old(tree)
    {
      ok := true;
      if op.kind.MoveFile? && Given(op.fromPath) && Given(op.toPath) {
        var src, dest := op.fromPath.value, op.toPath.value;
        if Blocked(tree, dest) || src !in tree {
          return false;
        }
        if IsDir(tree, dest) {
          dest := dest + "/" + BaseName(src);
          if Exists(tree, dest) {
            return false;
          }
        }
        var content := tree[src];
        tree := tree - {src};
        tree := tree[dest := content];
      } else if op.kind.RenameSymbol? && Given(op.fromPath) && Given(op.symbol) && op.toPath.Some? {
        if op.fromPath.value !in tree {
          return false;
        }
        var content := tree[op.fromPath.value];
        tree := tree[op.fromPath.value := Replace(content, op.symbol.value, op.toPath.value)];
      }
    }
  }

  // ---------- renames ----------

  function Rename(path: string, oldName: string, newName: string): Operation {
    Operation(RenameSymbol, Some(path), Some(newName), Some(oldName))
  }

  /** What one rename shows and does on the same tree. The preview is the change, except that an
  empty new name is previewed as no change although applying it deletes every occurrence. */
  lemma RenameShownAndDone(tree: Tree, path: string, oldName: string, newName: string)
    requires path != "" && oldName != "" && Free(path, NL) && path in tree
    requires PreviewOp(tree, Rename(path, oldName, newName)).Some?
    ensures var shown := PreviewOp(tree, Rename(path, oldName, newName)).value;
      var done := ApplyOp(tree, Rename(path, oldName, newName)).value;
      && done == tree[path := Replace(tree[path], oldName, newName)]
      && (newName != "" ==> Patch(tree[path], shown) == Some(done[path]))
      && (newName == "" ==> shown == "" && (done == tree <==> Occurrences(tree[path], oldName) == 0))
  {
    if newName != "" {
      PreviewIsApplication(path, tree[path], oldName, newName);
    } else {
      DeletionShortens(tree[path], oldName);
    }
  }

  /** Renaming to nothing shows nothing and deletes the text. */
  lemma EmptyNameDeletes()
    ensures PreviewOp(map["f" := "a"], Rename("f", "a", "")) == Some("")
    ensures ApplyOp(map["f" := "a"], Rename("f", "a", "")) == Some(map["f" := ""])
  {
    var tree: Tree := map["f" := "a"];
    assert Replace("a", "a", "") == "" && "a"[..1] == "a" && "a"[1..] == "";
    assert tree["f" := ""] == map["f" := ""];
  }

  lemma {:induction false} DeletionShortens(s: string, oldName: string)
    requires oldName != ""
    ensures |Replace(s, oldName, "")| <= |s|
    ensures Replace(s, oldName, "") == s <==> Occurrences(s, oldName) == 0
  {
    if |s| >= |oldName| {
      if s[..|oldName|] == oldName {
        DeletionShortens(s[|oldName|..], oldName);
        assert "" + Replace(s[|oldName|..], oldName, "") == Replace(s[|oldName|..], oldName, "");
      } else {
        DeletionShortens(s[1..], oldName);
        assert s == [s[0]] + s[1..];
      }
    }
  }

  /** A plan of renames, each in a file of its own. */
  ghost predicate SeparateRenames(ops: seq<Operation>) {
    && (forall i :: 0 <= i < |ops| ==>
          ops[i].kind.RenameSymbol? && Given(ops[i].fromPath) && Given(ops[i].symbol) && Given(ops[i].toPath)
          && Free(ops[i].fromPath.value, NL))
    && (forall i, j :: 0 <= i < j < |ops| ==> ops[i].fromPath != ops[j].fromPath)
  }

  /** For such a plan every file ends up as its preview, made before any change, said. */
  lemma {:induction false} PlanDoesWhatItShows(tree: Tree, ops: seq<Operation>)
    requires SeparateRenames(ops)
    requires forall i :: 0 <= i < |ops| ==>
      ops[i].fromPath.value in tree && PreviewOp(tree, ops[i]).Some?
    ensures ApplyAll(tree, ops).1
    ensures forall i :: 0 <= i < |ops| ==>
      var f := ops[i].fromPath.value;
      f in ApplyAll(tree, ops).0
      && Patch(tree[f], PreviewOp(tree, ops[i]).value) == Some(ApplyAll(tree, ops).0[f])
    ensures ApplyAll(tree, ops).0.Keys == tree.Keys
    ensures forall p :: p in tree && (forall i :: 0 <= i < |ops| ==> ops[i].fromPath.value != p) ==>
      ApplyAll(tree, ops).0[p] == tree[p]
    decreases |ops|
  {
    if ops != [] {
      var f, rest := ops[0].fromPath.value, ops[1..];
      assert ops[0] == Rename(f, ops[0].symbol.value, ops[0].toPath.value);
      RenameShownAndDone(tree, f, ops[0].symbol.value, ops[0].toPath.value);
      var next := ApplyOp(tree, ops[0]).value;
      forall i | 0 <= i < |rest|
        ensures rest[i] == ops[i + 1] && rest[i].fromPath.value in next
        ensures next[rest[i].fromPath.value] == tree[rest[i].fromPath.value]
        ensures PreviewOp(next, rest[i]) == PreviewOp(tree, rest[i])
      {
        assert rest[i] == ops[i + 1] && ops[0].fromPath != ops[i + 1].fromPath;
      }
      PlanDoesWhatItShows(next, rest);
      forall i | 0 <= i < |ops|
        ensures var g := ops[i].fromPath.value;
          g in ApplyAll(tree, ops).0 && Patch(tree[g], PreviewOp(tree, ops[i]).value) == Some(ApplyAll(tree, ops).0[g])
      {
        if i > 0 {
          assert ops[i] == rest[i - 1];
        }
      }
    }
  }
}
