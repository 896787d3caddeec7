/** Plans that move files and rename inside them: what the refactor executor makes of them.

All preconditions are checked on the initial tree, so a plan that interferes with itself passes
the checks. This module says, from the tree and the plan alone, exactly when such a plan does what
it says and when it stops half way, loses a file or puts one elsewhere. */
module MovePlans {
  import opened Sequences
  import opened Text
  import opened RenamePreview
  import opened RefactorPipeline
  import opened StalePreviews

  datatype Step = Move(src: string, dest: string) | Rewrite(src: string, oldName: string, newName: string)

  function OpOf(s: Step): Operation {
    match s
    case Move(a, b) => Operation(MoveFile, Some(a), Some(b), None)
    case Rewrite(a, oldName, newName) => Operation(RenameSymbol, Some(a), Some(newName), Some(oldName))
  }

  function Ops(plan: seq<Step>): (ops: seq<Operation>)
    ensures |ops| == |plan| && forall i :: 0 <= i < |plan| ==> ops[i] == OpOf(plan[i])
  {
    seq(|plan|, i requires 0 <= i < |plan| => OpOf(plan[i]))
  }

  /** All arguments are given; a new name may be empty. */
  ghost predicate Named(plan: seq<Step>) {
    forall s :: s in plan ==> s.src != "" && (s.Move? ==> s.dest != "") && (s.Rewrite? ==> s.oldName != "")
  }

  /** This step passes check and preview: its file is there, a destination is not, and the lines
  of a rename can be paired. */
  ghost predicate StepPasses(tree: Tree, s: Step) {
    && s.src in tree
    && (s.Move? ==> !Exists(tree, s.dest))
    && (s.Rewrite? && s.oldName != "" && s.newName != "" ==> Pairable(tree[s.src], s.oldName, s.newName))
  }

  ghost predicate Passes(tree: Tree, plan: seq<Step>) {
    forall s :: s in plan ==> StepPasses(tree, s)
  }

  lemma StepChecked(tree: Tree, s: Step)
    requires s.src != "" && (s.Move? ==> s.dest != "") && (s.Rewrite? ==> s.oldName != "")
    ensures CheckOp(tree, OpOf(s)) == None && PreviewOp(tree, OpOf(s)).Some? <==> StepPasses(tree, s)
  {}

  lemma {:induction false} ChecksPass(tree: Tree, plan: seq<Step>)
    requires Named(plan)
    ensures CheckAll(tree, Ops(plan)) == None && PreviewAll(tree, Ops(plan)).Some? <==> Passes(tree, plan)
  {
    if plan != [] {
      assert Ops(plan)[1..] == Ops(plan[1..]);
      assert plan[0] in plan && plan == [plan[0]] + plan[1..];
      ChecksPass(tree, plan[1..]);
      StepChecked(tree, plan[0]);
      assert Passes(tree, plan) <==> StepPasses(tree, plan[0]) && Passes(tree, plan[1..]);
    }
  }

  // ---------- what a plan does when nothing interferes ----------

  function After(cur: Tree, s: Step): Tree
    requires s.src in cur
  {
    match s
    case Move(a, b) => (cur - {a})[b := cur[a]]
    case Rewrite(a, oldName, newName) => if oldName == "" then cur else cur[a := Replace(cur[a], oldName, newName)]
  }

  /** The tree after the first k steps, every file landing exactly at its destination. */
  function Done(tree: Tree, plan: seq<Step>, k: nat): Tree
    requires k <= |plan|
  {
    if k == 0 then tree
    else
      var cur := Done(tree, plan, k - 1);
      if plan[k - 1].src in cur then After(cur, plan[k - 1]) else cur
  }

  /** One of the first k steps moves p away. */
  ghost predicate MovedBefore(plan: seq<Step>, k: nat, p: string)
    requires k <= |plan|
  {
    exists j :: 0 <= j < k && plan[j].Move? && plan[j].src == p
  }

  /** One of the first k steps moves a file to p. */
  ghost predicate FilledBefore(plan: seq<Step>, k: nat, p: string)
    requires k <= |plan|
  {
    exists j :: 0 <= j < k && plan[j].Move? && plan[j].dest == p
  }

  /** No earlier step moved this one's file away. */
  ghost predicate SourceLeft(plan: seq<Step>, k: nat)
    requires k < |plan|
  {
    !MovedBefore(plan, k, plan[k].src)
  }

  ghost predicate DestLeft(plan: seq<Step>, k: nat)
    requires k < |plan|
  {
    plan[k].Move? ==> !FilledBefore(plan, k, plan[k].dest)
  }

  /** No earlier destination lies below this one or above it, and a file that stands where a
  directory is needed has been moved away. */
  ghost predicate PathClear(tree: Tree, plan: seq<Step>, k: nat)
    requires k < |plan|
  {
    plan[k].Move? ==>
      && (forall j :: 0 <= j < k && plan[j].Move? ==> !Above(plan[k].dest, plan[j].dest))
      && (forall j :: 0 <= j < k && plan[j].Move? ==> !Above(plan[j].dest, plan[k].dest))
      && (forall d :: d in tree && Above(d, plan[k].dest) ==> MovedBefore(plan, k, d))
  }

  ghost predicate SourcesLeft(plan: seq<Step>, n: nat)
    requires n <= |plan|
  {
    forall k :: 0 <= k < n ==> SourceLeft(plan, k)
  }

  ghost predicate DestsLeft(plan: seq<Step>, n: nat)
    requires n <= |plan|
  {
    forall k :: 0 <= k < n ==> DestLeft(plan, k)
  }

  ghost predicate PathsClear(tree: Tree, plan: seq<Step>, n: nat)
    requires n <= |plan|
  {
    forall k :: 0 <= k < n ==> PathClear(tree, plan, k)
  }

  lemma BeforeNext(plan: seq<Step>, k: nat, p: string)
    requires k < |plan|
    ensures MovedBefore(plan, k + 1, p) <==> MovedBefore(plan, k, p) || (plan[k].Move? && plan[k].src == p)
    ensures FilledBefore(plan, k + 1, p) <==> FilledBefore(plan, k, p) || (plan[k].Move? && plan[k].dest == p)
  {}

  lemma FilledAreNew(tree: Tree, plan: seq<Step>, k: nat, p: string)
    requires Passes(tree, plan) && k <= |plan| && FilledBefore(plan, k, p)
    ensures !Exists(tree, p)
  {
    var j :| 0 <= j < k && plan[j].Move? && plan[j].dest == p;
    assert plan[j] in plan && StepPasses(tree, plan[j]);
  }

  /** Which files there are after k steps. */
  lemma {:induction false} KeysAfter(tree: Tree, plan: seq<Step>, k: nat, p: string)
    requires Passes(tree, plan) && k <= |plan| && SourcesLeft(plan, k)
    ensures p in Done(tree, plan, k) <==> (p in tree && !MovedBefore(plan, k, p)) || FilledBefore(plan, k, p)
  {
    if k > 0 {
      var s := plan[k - 1];
      assert SourceLeft(plan, k - 1) && s in plan && StepPasses(tree, s);
      KeysAfter(tree, plan, k - 1, p);
      KeysAfter(tree, plan, k - 1, s.src);
      BeforeNext(plan, k - 1, p);
      if FilledBefore(plan, k - 1, s.src) {
        FilledAreNew(tree, plan, k - 1, s.src);
      }
    }
  }

  /** The source and the destination of step k in the tree before it. */
  lemma StepEnds(tree: Tree, plan: seq<Step>, k: nat)
    requires Passes(tree, plan) && k < |plan| && SourcesLeft(plan, k)
    ensures plan[k].src in Done(tree, plan, k) <==> SourceLeft(plan, k)
    ensures plan[k].Move? ==> (plan[k].dest in Done(tree, plan, k) <==> !DestLeft(plan, k))
    ensures plan[k].Move? ==> plan[k].src != plan[k].dest
  {
    var s := plan[k];
    assert s in plan && StepPasses(tree, s);
    KeysAfter(tree, plan, k, s.src);
    if FilledBefore(plan, k, s.src) {
      FilledAreNew(tree, plan, k, s.src);
    }
    if s.Move? {
      KeysAfter(tree, plan, k, s.dest);
    }
  }

  /** What the tree before step k looks like around its source and its destination. */
  lemma AroundStep(tree: Tree, plan: seq<Step>, k: nat)
    requires Passes(tree, plan) && k < |plan| && SourcesLeft(plan, k)
    ensures var cur := Done(tree, plan, k);
      && (plan[k].src in cur <==> SourceLeft(plan, k))
      && (plan[k].Move? ==>
            && (plan[k].dest in cur <==> !DestLeft(plan, k))
            && (IsDir(cur, plan[k].dest) <==>
                  exists j :: 0 <= j < k && plan[j].Move? && Above(plan[k].dest, plan[j].dest))
            && (Blocked(cur, plan[k].dest) <==>
                  || (exists j :: 0 <= j < k && plan[j].Move? && Above(plan[j].dest, plan[k].dest))
                  || (exists d :: d in tree && Above(d, plan[k].dest) && !MovedBefore(plan, k, d))))
  {
    var s, cur := plan[k], Done(tree, plan, k);
    StepEnds(tree, plan, k);
    assert s in plan && StepPasses(tree, s);
    if s.Move? {
      forall p ensures p in cur <==> (p in tree && !MovedBefore(plan, k, p)) || FilledBefore(plan, k, p) {
        KeysAfter(tree, plan, k, p);
      }
      forall j | 0 <= j < k && plan[j].Move? ensures plan[j].dest in cur {
        assert FilledBefore(plan, k, plan[j].dest);
      }
    }
  }

  /** A step whose source is left and whose path is clear does what it says. */
  lemma StepDone(tree: Tree, plan: seq<Step>, k: nat)
    requires Named(plan) && Passes(tree, plan) && k < |plan| && SourcesLeft(plan, k) && PathClear(tree, plan, k)
    ensures ApplyOp(Done(tree, plan, k), OpOf(plan[k])) ==
      if SourceLeft(plan, k) then Some(Done(tree, plan, k + 1)) else None
  {
    AroundStep(tree, plan, k);
    assert plan[k] in plan;
  }

  lemma OpsFrom(plan: seq<Step>, k: nat)
    requires k < |plan|
    ensures Ops(plan)[k..][0] == OpOf(plan[k]) && Ops(plan)[k..][1..] == Ops(plan)[k + 1..]
  {}

  /** Applying the whole plan is applying the rest of it to the tree after k steps. */
  lemma {:induction false} RunsTo(tree: Tree, plan: seq<Step>, k: nat)
    requires Named(plan) && Passes(tree, plan) && k <= |plan| && SourcesLeft(plan, k) && PathsClear(tree, plan, k)
    ensures ApplyAll(tree, Ops(plan)) == ApplyAll(Done(tree, plan, k), Ops(plan)[k..])
  {
    if k == 0 {
      assert Ops(plan)[0..] == Ops(plan);
    } else {
      RunsTo(tree, plan, k - 1);
      assert SourceLeft(plan, k - 1) && PathClear(tree, plan, k - 1);
      StepDone(tree, plan, k - 1);
      OpsFrom(plan, k - 1);
    }
  }

  /** A plan of moves and renames on clear paths goes through exactly when no step needs a file
  that an earlier step moved away. */
  lemma GoesThrough(tree: Tree, plan: seq<Step>)
    requires Named(plan) && Passes(tree, plan) && PathsClear(tree, plan, |plan|)
    ensures ApplyAll(tree, Ops(plan)).1 <==> SourcesLeft(plan, |plan|)
    ensures SourcesLeft(plan, |plan|) ==> ApplyAll(tree, Ops(plan)).0 == Done(tree, plan, |plan|)
  {
    var k := 0;
    while k < |plan| && SourceLeft(plan, k)
      invariant 0 <= k <= |plan| && SourcesLeft(plan, k)
    {
      k := k + 1;
    }
    RunsTo(tree, plan, k);
    if k < |plan| {
      StepDone(tree, plan, k);
      OpsFrom(plan, k);
    }
  }

  // ---------- when a plan keeps every file and puts it where it says ----------

  ghost predicate StepFits(tree: Tree, plan: seq<Step>, k: nat)
    requires k < |plan|
  {
    SourceLeft(plan, k) && DestLeft(plan, k) && PathClear(tree, plan, k)
  }

  ghost predicate Fits(tree: Tree, plan: seq<Step>) {
    SourcesLeft(plan, |plan|) && DestsLeft(plan, |plan|) && PathsClear(tree, plan, |plan|)
  }

  lemma SwappedSize(keys: set<string>, a: string, b: string)
    requires a in keys
    ensures |keys - {a} + {b}| <= |keys|
    ensures b !in keys ==> |keys - {a} + {b}| == |keys|
    ensures b in keys && a != b ==> |keys - {a} + {b}| < |keys|
  {
    if b in keys && a != b {
      assert keys - {a} + {b} == keys - {a};
    }
  }

  lemma MovedSize(cur: Tree, a: string, b: string, text: string)
    requires a in cur
    ensures var next := (cur - {a})[b := text];
      && |next| <= |cur| && (b !in cur ==> |next| == |cur|) && (b in cur && a != b ==> |next| < |cur|)
  {
    var next := (cur - {a})[b := text];
    assert next.Keys == cur.Keys - {a} + {b};
    SwappedSize(cur.Keys, a, b);
    assert |next| == |next.Keys| && |cur| == |cur.Keys|;
  }

  lemma RewrittenSize(cur: Tree, a: string, text: string)
    requires a in cur
    ensures |cur[a := text]| == |cur|
  {
    assert cur[a := text].Keys == cur.Keys;
    assert |cur[a := text]| == |cur[a := text].Keys| && |cur| == |cur.Keys|;
  }

  lemma OpNeverGrows(cur: Tree, s: Step)
    requires ApplyOp(cur, OpOf(s)).Some?
    ensures |ApplyOp(cur, OpOf(s)).value| <= |cur|
    ensures s.Move? && s.src != "" && s.dest != "" && s.src != s.dest && s.dest in cur && !IsDir(cur, s.dest)
      ==> |ApplyOp(cur, OpOf(s)).value| < |cur|
  {
    if s.Move? && s.src != "" && s.dest != "" {
      MovedSize(cur, s.src, Target(cur, s.src, s.dest), cur[s.src]);
    } else if s.Rewrite? && s.src in cur && s.oldName != "" {
      RewrittenSize(cur, s.src, Replace(cur[s.src], s.oldName, s.newName));
    }
  }

  lemma {:induction false} RunNeverGrows(cur: Tree, plan: seq<Step>, k: nat)
    requires k <= |plan|
    ensures |ApplyAll(cur, Ops(plan)[k..]).0| <= |cur|
    decreases |plan| - k
  {
    if k < |plan| {
      OpsFrom(plan, k);
      if ApplyOp(cur, OpOf(plan[k])).Some? {
        OpNeverGrows(cur, plan[k]);
        RunNeverGrows(ApplyOp(cur, OpOf(plan[k])).value, plan, k + 1);
      }
    }
  }

  /** No file can ever get the name d while one lies below it that is never moved. */
  lemma {:induction false} DirStaysDir(cur: Tree, plan: seq<Step>, k: nat, d: string, below: string)
    requires k <= |plan| && d !in cur && below in cur && Above(d, below)
    requires forall s :: s in plan ==> s.src != below
    ensures d !in ApplyAll(cur, Ops(plan)[k..]).0
    decreases |plan| - k
  {
    if k < |plan| {
      OpsFrom(plan, k);
      assert plan[k] in plan && IsDir(cur, d);
      var next := ApplyOp(cur, OpOf(plan[k]));
      if next.Some? {
        DirStaysDir(next.value, plan, k + 1, d, below);
      }
    }
  }

  lemma {:induction false} SizeAfter(tree: Tree, plan: seq<Step>, k: nat)
    requires Passes(tree, plan) && k <= |plan| && SourcesLeft(plan, k) && DestsLeft(plan, k)
    ensures |Done(tree, plan, k)| == |tree|
  {
    if k > 0 {
      SizeAfter(tree, plan, k - 1);
      assert SourceLeft(plan, k - 1) && DestLeft(plan, k - 1);
      StepEnds(tree, plan, k - 1);
      AfterSize(Done(tree, plan, k - 1), plan[k - 1]);
    }
  }

  lemma AfterSize(cur: Tree, s: Step)
    requires s.src in cur && (s.Move? ==> s.dest !in cur)
    ensures |After(cur, s)| == |cur|
  {
    match s
    case Move(a, b) => MovedSize(cur, a, b, cur[a]);
    case Rewrite(a, oldName, newName) =>
      if oldName != "" {
        RewrittenSize(cur, a, Replace(cur[a], oldName, newName));
      }
  }

  /** Everything the plan promises: it goes through, no file is lost and every destination is there. */
  ghost predicate Keeps(tree: Tree, plan: seq<Step>) {
    var (after, done) := ApplyAll(tree, Ops(plan));
    done && |after| == |tree| && forall s :: s in plan && s.Move? ==> s.dest in after
  }

  /** What can be wrong with a step: it raises, its destination has become a directory, or it
  overwrites a file. */
  lemma MisfitCases(tree: Tree, plan: seq<Step>, k: nat)
    requires Named(plan) && Passes(tree, plan) && k < |plan| && SourcesLeft(plan, k) && !StepFits(tree, plan, k)
    ensures var cur, s := Done(tree, plan, k), plan[k];
      || ApplyOp(cur, OpOf(s)).None?
      || (s.Move? && exists j :: 0 <= j < k && plan[j].Move? && Above(s.dest, plan[j].dest))
      || (s.Move? && s.dest in cur && !IsDir(cur, s.dest))
  {
    AroundStep(tree, plan, k);
    assert plan[k] in plan;
  }

  /** The first step that does not fit is the end of the promise. */
  lemma MisfitBreaks(tree: Tree, plan: seq<Step>, k: nat)
    requires Named(plan) && Passes(tree, plan) && k < |plan|
    requires SourcesLeft(plan, k) && DestsLeft(plan, k) && PathsClear(tree, plan, k) && !StepFits(tree, plan, k)
    ensures !Keeps(tree, plan)
  {
    var cur, s := Done(tree, plan, k), plan[k];
    MisfitCases(tree, plan, k);
    RunsTo(tree, plan, k);
    OpsFrom(plan, k);
    if ApplyOp(cur, OpOf(s)).Some? {
      if exists j :: 0 <= j < k && plan[j].Move? && Above(s.dest, plan[j].dest) {
        var j :| 0 <= j < k && plan[j].Move? && Above(s.dest, plan[j].dest);
        BelowDestination(tree, plan, k, j);
        assert s in plan;
      } else {
        SizeAfter(tree, plan, k);
        StepEnds(tree, plan, k);
        assert s in plan;
        OpNeverGrows(cur, s);
        RunNeverGrows(ApplyOp(cur, OpOf(s)).value, plan, k + 1);
      }
    }
  }

  lemma BelowDestination(tree: Tree, plan: seq<Step>, k: nat, j: nat)
    requires Named(plan) && Passes(tree, plan) && j < k < |plan| && plan[j].Move? && plan[k].Move?
    requires SourcesLeft(plan, k) && DestsLeft(plan, k) && PathsClear(tree, plan, k)
    requires Above(plan[k].dest, plan[j].dest)
    ensures plan[k].dest !in ApplyAll(tree, Ops(plan)).0
  {
    var cur := Done(tree, plan, k);
    RunsTo(tree, plan, k);
    assert plan[j] in plan && StepPasses(tree, plan[j]);
    assert FilledBefore(plan, k, plan[j].dest);
    KeysAfter(tree, plan, k, plan[j].dest);
    forall s | s in plan ensures s.src != plan[j].dest {
      assert StepPasses(tree, s);
    }
    NotBothFileAndDir(tree, plan, k, j);
    DirStaysDir(cur, plan, k, plan[k].dest, plan[j].dest);
  }

  /** A destination above an earlier one cannot have been filled before. */
  lemma NotBothFileAndDir(tree: Tree, plan: seq<Step>, k: nat, j: nat)
    requires Passes(tree, plan) && j < k < |plan| && plan[j].Move? && plan[k].Move?
    requires SourcesLeft(plan, k) && PathsClear(tree, plan, k)
    requires Above(plan[k].dest, plan[j].dest)
    ensures plan[k].dest !in Done(tree, plan, k)
  {
    KeysAfter(tree, plan, k, plan[k].dest);
    assert plan[k] in plan && StepPasses(tree, plan[k]);
    assert |plan[k].dest| < |plan[k].dest + "/"| <= |plan[j].dest|;
    forall i | 0 <= i < k && plan[i].Move? ensures plan[i].dest != plan[k].dest {
      assert PathClear(tree, plan, if i < j then j else i);
    }
  }

  lemma FittingKeeps(tree: Tree, plan: seq<Step>)
    requires Named(plan) && Passes(tree, plan) && Fits(tree, plan)
    ensures Keeps(tree, plan) && ApplyAll(tree, Ops(plan)) == (Done(tree, plan, |plan|), true)
  {
    GoesThrough(tree, plan);
    SizeAfter(tree, plan, |plan|);
    forall s | s in plan && s.Move? ensures s.dest in Done(tree, plan, |plan|) {
      assert FilledBefore(plan, |plan|, s.dest);
      KeysAfter(tree, plan, |plan|, s.dest);
    }
  }

  lemma KeepsExactly(tree: Tree, plan: seq<Step>)
    requires Named(plan) && Passes(tree, plan)
    ensures Keeps(tree, plan) <==> Fits(tree, plan)
  {
    var k := 0;
    while k < |plan| && StepFits(tree, plan, k)
      invariant 0 <= k <= |plan| && SourcesLeft(plan, k) && DestsLeft(plan, k) && PathsClear(tree, plan, k)
    {
      k := k + 1;
    }
    if k < |plan| {
      MisfitBreaks(tree, plan, k);
    } else {
      FittingKeeps(tree, plan);
    }
  }

  // ---------- what is where afterwards ----------

  /** The text of a file after the renames among the first k steps. */
  function TextAfter(plan: seq<Step>, k: nat, p: string, text: string): string
    requires k <= |plan|
  {
    if k == 0 then text
    else
      var s, before := plan[k - 1], TextAfter(plan, k - 1, p, text);
      if s.Rewrite? && s.src == p && s.oldName != "" then Replace(before, s.oldName, s.newName) else before
  }

  ghost predicate SourcesIn(tree: Tree, plan: seq<Step>) {
    forall k :: 0 <= k < |plan| ==> plan[k].src in tree
  }

  /** Where every file of the final tree comes from, and what it holds: each file is at its
  destination with the renames made before it was moved, or where it was with all of them. */
  ghost predicate Arranged(tree: Tree, plan: seq<Step>, after: Tree) {
    var n := |plan|;
    && SourcesIn(tree, plan)
    && (forall p :: p in after <==> (p in tree && !MovedBefore(plan, n, p)) || FilledBefore(plan, n, p))
    && (forall k :: 0 <= k < n && plan[k].Move? ==>
          plan[k].dest in after && after[plan[k].dest] == TextAfter(plan, k, plan[k].src, tree[plan[k].src]))
    && (forall p :: p in tree && !MovedBefore(plan, n, p) ==> p in after && after[p] == TextAfter(plan, n, p, tree[p]))
  }

  lemma AfterElsewhere(cur: Tree, s: Step, p: string)
    requires s.src in cur && p in cur && p != s.src && (s.Move? ==> p != s.dest)
    ensures p in After(cur, s) && After(cur, s)[p] == cur[p]
  {}

  lemma DestinationsAreNoSources(tree: Tree, plan: seq<Step>, k: nat, i: nat)
    requires Passes(tree, plan) && k < |plan| && i < |plan| && plan[k].Move?
    ensures plan[k].dest != plan[i].src
  {
    assert plan[k] in plan && plan[i] in plan && StepPasses(tree, plan[k]) && StepPasses(tree, plan[i]);
  }

  lemma {:induction false} UnmovedText(tree: Tree, plan: seq<Step>, k: nat, p: string)
    requires Passes(tree, plan) && k <= |plan| && SourcesLeft(plan, k)
    requires p in tree && !MovedBefore(plan, k, p)
    ensures p in Done(tree, plan, k) && Done(tree, plan, k)[p] == TextAfter(plan, k, p, tree[p])
  {
    if k > 0 {
      BeforeNext(plan, k - 1, p);
      UnmovedText(tree, plan, k - 1, p);
      assert SourceLeft(plan, k - 1) && plan[k - 1] in plan && StepPasses(tree, plan[k - 1]);
      StepEnds(tree, plan, k - 1);
    }
  }

  lemma {:induction false} MovedText(tree: Tree, plan: seq<Step>, n: nat, k: nat)
    requires Passes(tree, plan) && k < n <= |plan| && plan[k].Move? && plan[k].src in tree
    requires SourcesLeft(plan, n) && DestsLeft(plan, n)
    ensures plan[k].dest in Done(tree, plan, n)
    ensures Done(tree, plan, n)[plan[k].dest] == TextAfter(plan, k, plan[k].src, tree[plan[k].src])
  {
    assert SourceLeft(plan, n - 1) && DestLeft(plan, n - 1);
    StepEnds(tree, plan, n - 1);
    if k == n - 1 {
      UnmovedText(tree, plan, k, plan[k].src);
    } else {
      MovedText(tree, plan, n - 1, k);
      DestinationsAreNoSources(tree, plan, k, n - 1);
      AfterElsewhere(Done(tree, plan, n - 1), plan[n - 1], plan[k].dest);
    }
  }

  lemma ArrangedAfter(tree: Tree, plan: seq<Step>)
    requires Passes(tree, plan) && SourcesLeft(plan, |plan|) && DestsLeft(plan, |plan|)
    ensures Arranged(tree, plan, Done(tree, plan, |plan|))
  {
    var n := |plan|;
    forall k | 0 <= k < n ensures plan[k].src in tree {
      assert plan[k] in plan && StepPasses(tree, plan[k]);
    }
    forall p
      ensures p in Done(tree, plan, n) <==> (p in tree && !MovedBefore(plan, n, p)) || FilledBefore(plan, n, p)
    {
      KeysAfter(tree, plan, n, p);
    }
    forall k | 0 <= k < n && plan[k].Move?
      ensures plan[k].dest in Done(tree, plan, n)
      ensures Done(tree, plan, n)[plan[k].dest] == TextAfter(plan, k, plan[k].src, tree[plan[k].src])
    {
      MovedText(tree, plan, n, k);
    }
    forall p | p in tree && !MovedBefore(plan, n, p)
      ensures p in Done(tree, plan, n) && Done(tree, plan, n)[p] == TextAfter(plan, n, p, tree[p])
    {
      UnmovedText(tree, plan, n, p);
    }
  }

  ghost function Holders(tree: Tree, content: string): set<string> {
    set p | p in tree && tree[p] == content
  }

  ghost function Copies(tree: Tree, content: string): nat {
    |Holders(tree, content)|
  }

  ghost predicate OnlyMoves(plan: seq<Step>) {
    forall s :: s in plan ==> s.Move?
  }

  lemma MoveKeepsCopies(cur: Tree, s: Step, content: string)
    requires s.Move? && s.src in cur && s.dest !in cur
    ensures Copies(After(cur, s), content) == Copies(cur, content)
  {
    var a, b := Holders(cur, content), Holders(After(cur, s), content);
    forall p ensures p in b <==> (p in a && p != s.src) || (p == s.dest && cur[s.src] == content) {}
    if cur[s.src] == content {
      assert b == a - {s.src} + {s.dest};
      SwappedSize(a, s.src, s.dest);
    } else {
      assert b == a;
    }
  }

  lemma {:induction false} CopiesKept(tree: Tree, plan: seq<Step>, k: nat, content: string)
    requires Passes(tree, plan) && k <= |plan| && SourcesLeft(plan, k) && DestsLeft(plan, k) && OnlyMoves(plan)
    ensures Copies(Done(tree, plan, k), content) == Copies(tree, content)
  {
    if k > 0 {
      CopiesKept(tree, plan, k - 1, content);
      assert SourceLeft(plan, k - 1) && DestLeft(plan, k - 1) && plan[k - 1] in plan;
      StepEnds(tree, plan, k - 1);
      MoveKeepsCopies(Done(tree, plan, k - 1), plan[k - 1], content);
    }
  }

  /** Plans of moves and renames: one that does not pass checks and previews changes nothing. One
  that passes succeeds, loses no file and fills every destination if and only if no step uses a
  file moved away before, no destination is filled twice and every path is clear at its turn.
  Every file is then where the plan says with the text the plan says, and a plan of moves alone
  leaves every content as often as before. */
  lemma MovePlanLosesNothing(tree: Tree, plan: seq<Step>)
    requires Named(plan)
    ensures var (after, outcome) := Execute(tree, Ops(plan), true);
      && (!Passes(tree, plan) ==> outcome.Failure? && after == tree)
      && (Passes(tree, plan) ==>
            && (outcome.Success? && |after| == |tree| && (forall s :: s in plan && s.Move? ==> s.dest in after)
            <==> Fits(tree, plan)))
      && (Passes(tree, plan) && Fits(tree, plan) ==>
            && Arranged(tree, plan, after)
            && (OnlyMoves(plan) ==> forall content :: Copies(after, content) == Copies(tree, content)))
  {
    ChecksPass(tree, plan);
    if Passes(tree, plan) {
      KeepsExactly(tree, plan);
      if Fits(tree, plan) {
        FittingKeeps(tree, plan);
        ArrangedAfter(tree, plan);
        if OnlyMoves(plan) {
          forall content ensures Copies(Execute(tree, Ops(plan), true).0, content) == Copies(tree, content) {
            CopiesKept(tree, plan, |plan|, content);
          }
        }
      }
    }
  }

  lemma {:induction false} MovesKeepText(plan: seq<Step>, k: nat, p: string, text: string)
    requires k <= |plan| && OnlyMoves(plan)
    ensures TextAfter(plan, k, p, text) == text
  {
    if k > 0 {
      assert plan[k - 1] in plan;
      MovesKeepText(plan, k - 1, p, text);
    }
  }

  lemma SameEnds(plan: seq<Step>, other: seq<Step>, p: string)
    requires forall s :: s in plan <==> s in other
    ensures MovedBefore(plan, |plan|, p) == MovedBefore(other, |other|, p)
    ensures FilledBefore(plan, |plan|, p) == FilledBefore(other, |other|, p)
  {
    forall j | 0 <= j < |plan| ensures plan[j] in other {
      assert plan[j] in plan;
    }
    forall j | 0 <= j < |other| ensures other[j] in plan {
      assert other[j] in other;
    }
  }

  lemma ArrangedSame(tree: Tree, plan: seq<Step>, other: seq<Step>, a: Tree, b: Tree)
    requires Arranged(tree, plan, a) && Arranged(tree, other, b)
    requires OnlyMoves(plan) && OnlyMoves(other) && forall s :: s in plan <==> s in other
    ensures a == b
  {
    forall p ensures p in a <==> p in b {
      SameEnds(plan, other, p);
    }
    forall p | p in a ensures a[p] == b[p] {
      SameEnds(plan, other, p);
      if FilledBefore(plan, |plan|, p) {
        var k :| 0 <= k < |plan| && plan[k].Move? && plan[k].dest == p;
        assert plan[k] in other;
        var l :| 0 <= l < |other| && other[l] == plan[k];
        MovesKeepText(plan, k, plan[k].src, tree[plan[k].src]);
        MovesKeepText(other, l, plan[k].src, tree[plan[k].src]);
      } else {
        MovesKeepText(plan, |plan|, p, tree[p]);
        MovesKeepText(other, |other|, p, tree[p]);
      }
    }
  }

  /** Another order of the same moves succeeds with the same tree exactly when it fits as well. */
  lemma OrderDoesNotMatter(tree: Tree, plan: seq<Step>, other: seq<Step>)
    requires Named(plan) && Passes(tree, plan) && OnlyMoves(plan) && Fits(tree, plan)
    requires forall s :: s in plan <==> s in other
    ensures var (after, outcome) := Execute(tree, Ops(other), true);
      after == Execute(tree, Ops(plan), true).0 && outcome.Success? <==> Fits(tree, other)
  {
    MovePlanLosesNothing(tree, plan);
    MovePlanLosesNothing(tree, other);
    if Fits(tree, other) {
      ArrangedSame(tree, plan, other, Execute(tree, Ops(plan), true).0, Execute(tree, Ops(other), true).0);
    }
  }

  lemma ApplyOne(tree: Tree, op: Operation)
    ensures ApplyAll(tree, [op]) == if ApplyOp(tree, op).Some? then (ApplyOp(tree, op).value, true) else (tree, false)
  {
    assert [op][1..] == [];
  }

  // ---------- what the previews of a plan say ----------

  /** In a plan of moves and renames, a rename whose file was not moved away before does what its
  preview, made on the initial tree, says exactly when it makes the same changes in the initial
  text of the file and in the text that the renames before it leave. The moves do not matter. */
  lemma RewriteShown(tree: Tree, plan: seq<Step>, k: nat)
    requires Named(plan) && Passes(tree, plan) && k < |plan| && SourcesLeft(plan, k + 1) && PathsClear(tree, plan, k)
    requires plan[k].Rewrite? && plan[k].newName != "" && Free(plan[k].src, NL)
    ensures var s, cur, next := plan[k], ApplyAll(tree, Ops(plan)[..k]), ApplyAll(tree, Ops(plan)[..k + 1]);
      && s in plan && s.oldName != "" && StepPasses(tree, s)
      && cur.1 && next.1 && s.src in cur.0 && s.src in next.0
      && (Patch(cur.0[s.src], PreviewOp(tree, OpOf(s)).value) == Some(next.0[s.src])
      <==> SameChanges(tree[s.src], TextAfter(plan, k, s.src, tree[s.src]), s.oldName, s.newName))
  {
    var s := plan[k];
    var was, now := TextsAround(tree, plan, k);
    RewritePreview(tree, plan, k);
    PreviewHoldsExactly(s.src, tree[s.src], was, s.oldName, s.newName);
  }

  lemma PathsNext(tree: Tree, plan: seq<Step>, k: nat)
    requires k < |plan| && SourcesLeft(plan, k + 1) && PathsClear(tree, plan, k) && plan[k].Rewrite?
    ensures SourcesLeft(plan, k) && SourceLeft(plan, k) && PathsClear(tree, plan, k + 1)
  {
    assert SourceLeft(plan, k) && PathClear(tree, plan, k);
  }

  /** The text of the file before and after the rename. */
  lemma TextsAround(tree: Tree, plan: seq<Step>, k: nat) returns (was: string, now: string)
    requires Named(plan) && Passes(tree, plan) && k < |plan| && SourcesLeft(plan, k + 1) && PathsClear(tree, plan, k)
    requires plan[k].Rewrite?
    ensures var s, before, after := plan[k], ApplyAll(tree, Ops(plan)[..k]), ApplyAll(tree, Ops(plan)[..k + 1]);
      && s.src in tree && s.oldName != ""
      && before.1 && s.src in before.0 && before.0[s.src] == was
      && after.1 && s.src in after.0 && after.0[s.src] == now
      && was == TextAfter(plan, k, s.src, tree[s.src]) && now == Replace(was, s.oldName, s.newName)
  {
    PathsNext(tree, plan, k);
    PrefixDone(tree, plan, k);
    PrefixDone(tree, plan, k + 1);
    RewriteDone(tree, plan, k);
    was, now := Done(tree, plan, k)[plan[k].src], Done(tree, plan, k + 1)[plan[k].src];
  }

  lemma RewriteDone(tree: Tree, plan: seq<Step>, k: nat)
    requires Named(plan) && Passes(tree, plan) && k < |plan| && SourcesLeft(plan, k + 1) && plan[k].Rewrite?
    ensures var s := plan[k];
      && s.src in tree && s.oldName != ""
      && s.src in Done(tree, plan, k) && s.src in Done(tree, plan, k + 1)
      && Done(tree, plan, k)[s.src] == TextAfter(plan, k, s.src, tree[s.src])
      && Done(tree, plan, k + 1)[s.src] == Replace(Done(tree, plan, k)[s.src], s.oldName, s.newName)
  {
    assert plan[k] in plan && StepPasses(tree, plan[k]) && SourceLeft(plan, k);
    UnmovedText(tree, plan, k, plan[k].src);
  }

  lemma RewritePreview(tree: Tree, plan: seq<Step>, k: nat)
    requires Named(plan) && Passes(tree, plan) && k < |plan| && plan[k].Rewrite? && plan[k].newName != ""
    ensures var s := plan[k];
      && s in plan && s.src in tree && s.oldName != "" && StepPasses(tree, s)
      && PreviewOp(tree, OpOf(s)) == PreviewText(s.src, tree[s.src], s.oldName, s.newName)
  {
    assert plan[k] in plan && StepPasses(tree, plan[k]);
  }

  lemma {:induction false} PrefixDone(tree: Tree, plan: seq<Step>, k: nat)
    requires Named(plan) && Passes(tree, plan) && k <= |plan| && SourcesLeft(plan, k) && PathsClear(tree, plan, k)
    ensures ApplyAll(tree, Ops(plan)[..k]) == (Done(tree, plan, k), true)
  {
    if k > 0 {
      PrefixDone(tree, plan, k - 1);
      assert SourceLeft(plan, k - 1) && PathClear(tree, plan, k - 1);
      StepDone(tree, plan, k - 1);
      NextApplied(tree, Ops(plan), k - 1);
    }
  }

  lemma NextApplied(tree: Tree, ops: seq<Operation>, k: nat)
    requires k < |ops| && ApplyAll(tree, ops[..k]).1
    ensures var cur := ApplyAll(tree, ops[..k]).0;
      ApplyOp(cur, ops[k]).Some? ==> ApplyAll(tree, ops[..k + 1]) == (ApplyOp(cur, ops[k]).value, true)
  {
    assert ops[..k + 1] == ops[..k] + [ops[k]];
    ApplyAllConcat(tree, ops[..k], [ops[k]]);
    ApplyOne(ApplyAll(tree, ops[..k]).0, ops[k]);
  }

  // ---------- plans that do not fit ----------

  /** No name in the tree is longer than d, so nothing lies below d. */
  lemma NoneBelow(tree: Tree, d: string)
    requires d !in tree && forall p :: p in tree ==> |p| <= |d|
    ensures !Exists(tree, d)
  {}

  lemma NotBlocked(tree: Tree, p: string)
    requires p != "" && forall d :: d in tree ==> d != "" && (|p| <= |d| || d[0] != p[0])
    ensures !Blocked(tree, p)
  {
    forall d | d in tree ensures !Above(d, p) {
      assert (d + "/")[0] == d[0];
    }
  }

  lemma CleanMove(tree: Tree, a: string, b: string)
    requires a in tree && a != "" && b != "" && !Exists(tree, b) && !Blocked(tree, b)
    ensures StepPasses(tree, Move(a, b)) && ApplyOp(tree, OpOf(Move(a, b))) == Some((tree - {a})[b := tree[a]])
  {}

  /** A plan of two steps that passes, step by step. */
  lemma TwoSteps(tree: Tree, s: Step, t: Step)
    requires Named([s, t]) && StepPasses(tree, s) && StepPasses(tree, t)
    requires ApplyOp(tree, OpOf(s)).Some?
    ensures Passes(tree, [s, t])
    ensures var mid := ApplyOp(tree, OpOf(s)).value;
      var last := ApplyOp(mid, OpOf(t));
      var (after, outcome) := Execute(tree, Ops([s, t]), true);
      if last.Some? then after == last.value && outcome.Success? else after == mid && outcome == Failure(ApplyRaised)
  {
    var plan, mid := [s, t], ApplyOp(tree, OpOf(s)).value;
    assert forall x :: x in plan <==> x == s || x == t;
    ChecksPass(tree, plan);
    assert Ops(plan) == [OpOf(s), OpOf(t)] && [OpOf(s), OpOf(t)][1..] == [OpOf(t)];
    assert ApplyAll(tree, Ops(plan)) == ApplyAll(mid, [OpOf(t)]);
    ApplyOne(mid, OpOf(t));
  }

  /** A first step that moves the only file away, and a second one that needs it. */
  lemma OnlyFileMovedAway(t: Step)
    requires Named([t]) && t.src == "a" && StepPasses(map["a" := "1"], t)
    ensures var tree, plan := map["a" := "1"], [Move("a", "b"), t];
      Passes(tree, plan) && Execute(tree, Ops(plan), true) == (map["b" := "1"], Failure(ApplyRaised))
  {
    var tree: Tree := map["a" := "1"];
    NoneBelow(tree, "b");
    NotBlocked(tree, "b");
    CleanMove(tree, "a", "b");
    assert (tree - {"a"})["b" := "1"] == map["b" := "1"];
    assert t in [t] && ApplyOp(map["b" := "1"], OpOf(t)) == None;
    TwoSteps(tree, Move("a", "b"), t);
  }

  /** A source used twice: the plan stops half way. */
  lemma SourceUsedTwice()
    ensures var tree, plan := map["a" := "1"], [Move("a", "b"), Move("a", "c")];
      Passes(tree, plan) && Execute(tree, Ops(plan), true) == (map["b" := "1"], Failure(ApplyRaised))
  {
    NoneBelow(map["a" := "1"], "c");
    OnlyFileMovedAway(Move("a", "c"));
  }

  /** A file moved away and then renamed in: the plan stops half way. */
  lemma MovedThenRenamed()
    ensures var tree, plan := map["a" := "1"], [Move("a", "b"), Rewrite("a", "x", "y")];
      Passes(tree, plan) && Execute(tree, Ops(plan), true) == (map["b" := "1"], Failure(ApplyRaised))
  {
    assert Replace("1", "x", "y") == "1" by {
      assert "1"[..1] == "1" && "1"[1..] == "";
    }
    OnlyFileMovedAway(Rewrite("a", "x", "y"));
  }

  /** A destination used twice: the plan succeeds and a file is lost. */
  lemma DestinationUsedTwice()
    ensures var tree, plan := map["a" := "1", "b" := "2"], [Move("a", "c"), Move("b", "c")];
      Passes(tree, plan) && Execute(tree, Ops(plan), true).0 == map["c" := "2"]
      && Execute(tree, Ops(plan), true).1.Success?
  {
    var tree: Tree := map["a" := "1", "b" := "2"];
    NoneBelow(tree, "c");
    NotBlocked(tree, "c");
    CleanMove(tree, "a", "c");
    assert (tree - {"a"})["c" := "1"] == map["b" := "2", "c" := "1"];
    SecondOverwrites();
    TwoSteps(tree, Move("a", "c"), Move("b", "c"));
  }

  lemma SecondOverwrites()
    ensures ApplyOp(map["b" := "2", "c" := "1"], OpOf(Move("b", "c"))) == Some(map["c" := "2"])
  {
    var mid: Tree := map["b" := "2", "c" := "1"];
    assert !IsDir(mid, "c");
    NotBlocked(mid, "c");
    assert (mid - {"b"})["c" := "2"] == map["c" := "2"];
  }

  /** A destination above an earlier one: the plan succeeds and the file lies inside it. */
  lemma DestinationAboveAnother()
    ensures var tree, plan := map["p" := "1", "q" := "2"], [Move("p", "d/x"), Move("q", "d")];
      Passes(tree, plan) && Execute(tree, Ops(plan), true).0 == map["d/x" := "1", "d/q" := "2"]
      && Execute(tree, Ops(plan), true).1.Success?
  {
    var tree: Tree := map["p" := "1", "q" := "2"];
    NoneBelow(tree, "d/x");
    NoneBelow(tree, "d");
    NotBlocked(tree, "d/x");
    CleanMove(tree, "p", "d/x");
    assert (tree - {"p"})["d/x" := "1"] == map["q" := "2", "d/x" := "1"];
    SecondGoesInside();
    TwoSteps(tree, Move("p", "d/x"), Move("q", "d"));
  }

  lemma SecondGoesInside()
    ensures ApplyOp(map["q" := "2", "d/x" := "1"], OpOf(Move("q", "d"))) == Some(map["d/x" := "1", "d/q" := "2"])
  {
    var mid: Tree := map["q" := "2", "d/x" := "1"];
    assert Above("d", "d/x") && IsDir(mid, "d");
    NotBlocked(mid, "d");
    SplitWhole("q", '/');
    assert Target(mid, "q", "d") == "d/q";
    NoneBelow(mid, "d/q");
    assert (mid - {"q"})["d/q" := "2"] == map["d/x" := "1", "d/q" := "2"];
  }

  /** A file where a directory is needed makes the plan raise. */
  lemma FileInTheWay()
    ensures var tree, plan := map["a" := "1", "b" := "2"], [Move("b", "a/b")];
      Passes(tree, plan) && Execute(tree, Ops(plan), true) == (tree, Failure(ApplyRaised))
  {
    var tree: Tree := map["a" := "1", "b" := "2"];
    var plan := [Move("b", "a/b")];
    NoneBelow(tree, "a/b");
    assert forall s :: s in plan ==> s == plan[0];
    ChecksPass(tree, plan);
    assert Above("a", "a/b") && Blocked(tree, "a/b");
  }

  /** Moving that file away first makes room. */
  lemma FileMovedOutOfTheWay()
    ensures var tree, plan := map["a" := "1", "b" := "2"], [Move("a", "x"), Move("b", "a/b")];
      Passes(tree, plan) && Execute(tree, Ops(plan), true).0 == map["x" := "1", "a/b" := "2"]
      && Execute(tree, Ops(plan), true).1.Success?
  {
    var tree, mid: Tree := map["a" := "1", "b" := "2"], map["b" := "2", "x" := "1"];
    NoneBelow(tree, "x");
    NoneBelow(tree, "a/b");
    NotBlocked(tree, "x");
    CleanMove(tree, "a", "x");
    assert (tree - {"a"})["x" := "1"] == mid;
    NoneBelow(mid, "a/b");
    NotBlocked(mid, "a/b");
    CleanMove(mid, "b", "a/b");
    assert (mid - {"b"})["a/b" := "2"] == map["x" := "1", "a/b" := "2"];
    TwoSteps(tree, Move("a", "x"), Move("b", "a/b"));
  }
}
