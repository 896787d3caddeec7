/** Fairness of the round-robin strategy over whole runs of calls. */
module RoundRobinRuns {
  import opened ProviderSelectors

  /** The selector before each call and what each call returned. */
  datatype Run = Run(states: seq<Selector>, outcomes: seq<Outcome>)

  /** Each call leaves the selector to the next one. */
  ghost predicate Chained(run: Run) {
    && |run.states| == |run.outcomes| + 1
    && forall i {:trigger run.outcomes[i]} :: 0 <= i < |run.outcomes| ==>
         run.states[i + 1] == Advanced(run.states[i], run.outcomes[i])
  }

  /** Each call returns what it may return, given how the adapters answer it. */
  ghost predicate Explained(run: Run, answers: seq<Provider -> Attempt>)
    requires Chained(run)
  {
    && |answers| == |run.outcomes|
    && forall i {:trigger run.outcomes[i]} :: 0 <= i < |answers| ==> Allowed(run.states[i], answers[i], run.outcomes[i])
  }

  ghost predicate AllSucceed(outcomes: seq<Outcome>) {
    forall i :: 0 <= i < |outcomes| ==> outcomes[i].Selected?
  }

  /** When every call succeeds, possibly after falling back, call i starts at position
  (index + i) mod n of the providers in use. */
  lemma {:induction false} StartsRotate(run: Run, i: nat)
    requires Chained(run) && AllSucceed(run.outcomes) && i <= |run.outcomes|
    requires run.states[0].strategy == RoundRobin
    ensures run.states[i] == run.states[0].(index := run.states[0].index + i)
    ensures run.states[0].providers != [] ==>
      var sel := run.states[0];
      Start(run.states[i]) == sel.providers[(sel.index + i) % |sel.providers|]
  {
    if i > 0 {
      StartsRotate(run, i - 1);
      assert run.outcomes[i - 1].Selected?;
    }
  }

  ghost predicate Uses1(r: Outcome, name: string) {
    r.Selected? && r.provider == name
  }

  /** How many calls were answered by the provider of this name. */
  ghost function Uses(outcomes: seq<Outcome>, name: string): nat {
    if outcomes == [] then 0
    else
      var last := outcomes[|outcomes| - 1];
      Uses(outcomes[..|outcomes| - 1], name) + if Uses1(last, name) then 1 else 0
  }

  /** How many x in [from, from + len) leave the remainder p. */
  ghost function Hits(from: nat, len: nat, n: nat, p: nat): nat
    requires n > 0
  {
    if len == 0 then 0 else Hits(from, len - 1, n, p) + if (from + len - 1) % n == p then 1 else 0
  }

  lemma ModShift(x: nat, n: nat)
    requires n > 0
    ensures (x + n) % n == x % n
  {
    var q, r := x / n, x % n;
    assert x == q * n + r;
    assert x + n == (q + 1) * n + r;
    ModUnique(x + n, n, q + 1, r);
  }

  lemma {:induction false} HitsFromZero(len: nat, n: nat, p: nat)
    requires p < n && len <= n
    ensures Hits(0, len, n, p) == if p < len then 1 else 0
  {
    if len > 0 {
      HitsFromZero(len - 1, n, p);
      ModUnique(len - 1, n, 0, len - 1);
    }
  }

  lemma {:induction false} HitsDropFirst(from: nat, len: nat, n: nat, p: nat)
    requires n > 0 && len > 0
    ensures Hits(from, len, n, p) == (if from % n == p then 1 else 0) + Hits(from + 1, len - 1, n, p)
  {
    if len > 1 {
      HitsDropFirst(from, len - 1, n, p);
      assert from + len - 1 == from + 1 + (len - 1) - 1;
    }
  }

  /** n consecutive numbers leave every remainder once. */
  lemma {:induction false} HitsOneRound(from: nat, n: nat, p: nat)
    requires p < n
    ensures Hits(from, n, n, p) == 1
  {
    if from == 0 {
      HitsFromZero(n, n, p);
    } else {
      HitsOneRound(from - 1, n, p);
      HitsDropFirst(from - 1, n, n, p);
      ModShift(from - 1, n);
      assert from - 1 + n == from + n - 1;
    }
  }

  lemma {:induction false} HitsConcat(from: nat, a: nat, b: nat, n: nat, p: nat)
    requires n > 0
    ensures Hits(from, a + b, n, p) == Hits(from, a, n, p) + Hits(from + a, b, n, p)
  {
    if b > 0 {
      HitsConcat(from, a, b - 1, n, p);
      assert from + (a + b) - 1 == (from + a) + b - 1;
    }
  }

  lemma {:induction false} HitsRounds(from: nat, k: nat, n: nat, p: nat)
    requires p < n
    ensures Hits(from, k * n, n, p) == k
  {
    if k > 0 {
      HitsRounds(from, k - 1, n, p);
      HitsOneRound(from + (k - 1) * n, n, p);
      HitsConcat(from, (k - 1) * n, n, n, p);
      assert k * n == (k - 1) * n + n;
    }
  }

  ghost predicate NamesDiffer(s: seq<Provider>) {
    forall i, j :: 0 <= i < j < |s| ==> s[i].name != s[j].name
  }

  ghost predicate AtOnce(outcomes: seq<Outcome>) {
    forall i :: 0 <= i < |outcomes| ==> outcomes[i].Selected? && outcomes[i].attempts == 1
  }

  /** A call that succeeds at once uses the provider it starts with. */
  lemma FirstTryUsesStart(sel: Selector, answer: Provider -> Attempt, r: Outcome)
    requires sel.providers != [] && Allowed(sel, answer, r) && r.Selected? && r.attempts == 1
    ensures r.provider == Start(sel).name
  {
    FallbackOrderCoversAll(sel);
  }

  lemma {:induction false} UsesAreHits(run: Run, answers: seq<Provider -> Attempt>, k: nat, p: nat)
      returns (uses: nat)
    requires Chained(run) && Explained(run, answers) && AtOnce(run.outcomes) && k <= |run.outcomes|
    requires run.states[0].strategy == RoundRobin && NamesDiffer(run.states[0].providers)
    requires p < |run.states[0].providers|
    ensures Uses(run.outcomes[..k], run.states[0].providers[p].name) == uses
    ensures Hits(run.states[0].index, k, |run.states[0].providers|, p) == uses
  {
    if k == 0 {
      uses := 0;
    } else {
      var before := UsesAreHits(run, answers, k - 1, p);
      uses := OneMoreUse(run, answers, k, p, before);
    }
  }

  lemma OneMoreUse(run: Run, answers: seq<Provider -> Attempt>, k: nat, p: nat, before: nat) returns (uses: nat)
    requires Chained(run) && Explained(run, answers) && AtOnce(run.outcomes) && 1 <= k <= |run.outcomes|
    requires run.states[0].strategy == RoundRobin && NamesDiffer(run.states[0].providers)
    requires p < |run.states[0].providers|
    requires Uses(run.outcomes[..k - 1], run.states[0].providers[p].name) == before
    requires Hits(run.states[0].index, k - 1, |run.states[0].providers|, p) == before
    ensures Uses(run.outcomes[..k], run.states[0].providers[p].name) == uses
    ensures Hits(run.states[0].index, k, |run.states[0].providers|, p) == uses
  {
    CallUsesStart(run, answers, k - 1, p);
    UsesOneMore(run.outcomes, k, run.states[0].providers[p].name);
    HitsOneMore(run.states[0].index, k, |run.states[0].providers|, p);
    uses := before + if Uses1(run.outcomes[k - 1], run.states[0].providers[p].name) then 1 else 0;
  }

  lemma UsesOneMore(outcomes: seq<Outcome>, k: nat, name: string)
    requires 1 <= k <= |outcomes|
    ensures Uses(outcomes[..k], name) ==
      Uses(outcomes[..k - 1], name) + if Uses1(outcomes[k - 1], name) then 1 else 0
  {
    assert outcomes[..k][..k - 1] == outcomes[..k - 1];
  }

  lemma HitsOneMore(from: nat, k: nat, n: nat, p: nat)
    requires k >= 1 && n > 0
    ensures Hits(from, k, n, p) == Hits(from, k - 1, n, p) + if Slot(from, k - 1, n) == p then 1 else 0
  {
    assert from + k - 1 == from + (k - 1);
  }

  function Slot(from: nat, i: nat, n: nat): (q: nat)
    requires n > 0
    ensures q < n
  {
    (from + i) % n
  }

  lemma CallUsesItsStart(run: Run, answers: seq<Provider -> Attempt>, i: nat)
    requires Chained(run) && Explained(run, answers) && AtOnce(run.outcomes) && i < |run.outcomes|
    requires run.states[i].providers != []
    ensures Uses1(run.outcomes[i], Start(run.states[i]).name)
  {
    FirstTryUsesStart(run.states[i], answers[i], run.outcomes[i]);
  }

  lemma StartInSlot(run: Run, i: nat, q: nat)
    requires Chained(run) && AtOnce(run.outcomes) && i < |run.outcomes|
    requires run.states[0].strategy == RoundRobin && run.states[0].providers != []
    requires q == Slot(run.states[0].index, i, |run.states[0].providers|)
    ensures run.states[i].providers == run.states[0].providers && Start(run.states[i]) == run.states[0].providers[q]
  {
    StartsRotate(run, i);
  }

  lemma CallUsesSlot(run: Run, answers: seq<Provider -> Attempt>, i: nat, q: nat)
    requires Chained(run) && Explained(run, answers) && AtOnce(run.outcomes) && i < |run.outcomes|
    requires run.states[0].strategy == RoundRobin && run.states[0].providers != []
    requires q == Slot(run.states[0].index, i, |run.states[0].providers|)
    ensures Uses1(run.outcomes[i], run.states[0].providers[q].name)
  {
    StartInSlot(run, i, q);
    CallUsesItsStart(run, answers, i);
  }

  /** Call i uses the provider in its slot and no other. */
  lemma CallUsesStart(run: Run, answers: seq<Provider -> Attempt>, i: nat, p: nat)
    requires Chained(run) && Explained(run, answers) && AtOnce(run.outcomes) && i < |run.outcomes|
    requires run.states[0].strategy == RoundRobin && NamesDiffer(run.states[0].providers)
    requires p < |run.states[0].providers|
    ensures Uses1(run.outcomes[i], run.states[0].providers[p].name)
      <==> Slot(run.states[0].index, i, |run.states[0].providers|) == p
  {
    var s := run.states[0].providers;
    var q := Slot(run.states[0].index, i, |s|);
    CallUsesSlot(run, answers, i, q);
    assert q < p || p < q || p == q;
  }

  /** Round-robin fairness: any rounds * n calls in a row that succeed at once use each of the n
  providers exactly `rounds` times, wherever the rotation stood. */
  lemma RoundRobinIsFair(run: Run, answers: seq<Provider -> Attempt>, rounds: nat, p: nat)
    requires Chained(run) && Explained(run, answers) && AtOnce(run.outcomes)
    requires run.states[0].strategy == RoundRobin && NamesDiffer(run.states[0].providers)
    requires p < |run.states[0].providers|
    ensures |run.outcomes| == rounds * |run.states[0].providers| ==>
      Uses(run.outcomes, run.states[0].providers[p].name) == rounds
  {
    var from, s := run.states[0].index, run.states[0].providers;
    HitsRounds(from, rounds, |s|, p);
    var uses := UsesAreHits(run, answers, |run.outcomes|, p);
    assert run.outcomes[..|run.outcomes|] == run.outcomes;
  }
}
