/** Provider selection with fallback (rice_factor/adapters/llm/provider_selector.py).

What an adapter does when it is called is a parameter of each call: for every provider either a
result or the message of the exception it raises. */
module ProviderSelectors {
  import opened Sequences

  datatype Provider = Provider(name: string, priority: int, enabled: bool, cost: real)

  datatype Strategy = Priority | RoundRobin | CostBased

  datatype Attempt = Answered(result: string) | Raised(message: string)

  datatype Outcome =
    | Selected(result: string, provider: string, attempts: nat, errors: seq<string>)
    | AllFailed(errors: seq<string>)

  // ---------- the stable sort ----------

  function ByPriority(): Provider -> real { (p: Provider) => p.priority as real }
  function ByCost(): Provider -> real { (p: Provider) => p.cost }
  function IsEnabled(): Provider -> bool { (p: Provider) => p.enabled }
  function KeyIs(key: Provider -> real, k: real): Provider -> bool { (p: Provider) => key(p) == k }

  function InsertFirst(key: Provider -> real, x: Provider, s: seq<Provider>): seq<Provider> {
    if s == [] || key(x) <= key(s[0]) then [x] + s else [s[0]] + InsertFirst(key, x, s[1..])
  }

  function StableSort(key: Provider -> real, s: seq<Provider>): seq<Provider> {
    if s == [] then [] else InsertFirst(key, s[0], StableSort(key, s[1..]))
  }

  ghost predicate SortedBy(key: Provider -> real, s: seq<Provider>) {
    forall i, j :: 0 <= i < j < |s| ==> key(s[i]) <= key(s[j])
  }

  lemma {:induction false} InsertMembers(key: Provider -> real, x: Provider, s: seq<Provider>)
    ensures multiset(InsertFirst(key, x, s)) == multiset{x} + multiset(s)
    ensures forall p :: p in InsertFirst(key, x, s) <==> p == x || p in s
  {
    if s != [] && key(x) > key(s[0]) {
      InsertMembers(key, x, s[1..]);
      assert s == [s[0]] + s[1..];
    }
  }

  lemma {:induction false} InsertKeepsSorted(key: Provider -> real, x: Provider, s: seq<Provider>)
    requires SortedBy(key, s)
    ensures SortedBy(key, InsertFirst(key, x, s))
  {
    if s != [] && key(x) > key(s[0]) {
      var r := InsertFirst(key, x, s[1..]);
      InsertKeepsSorted(key, x, s[1..]);
      InsertMembers(key, x, s[1..]);
      forall j | 0 <= j < |r| ensures key(s[0]) <= key(r[j]) {
        assert r[j] in r;
      }
    }
  }

  lemma {:induction false} InsertKeepsClass(key: Provider -> real, x: Provider, s: seq<Provider>, k: real)
    ensures Filter(KeyIs(key, k), InsertFirst(key, x, s)) == Filter(KeyIs(key, k), [x] + s)
  {
    if s != [] && key(x) > key(s[0]) {
      InsertKeepsClass(key, x, s[1..], k);
      var r := InsertFirst(key, x, s[1..]);
      assert ([s[0]] + r)[1..] == r && ([x] + s)[1..] == s && ([x] + s[1..])[1..] == s[1..];
    }
  }

  lemma {:induction false} SortKeepsClass(key: Provider -> real, s: seq<Provider>, k: real)
    ensures Filter(KeyIs(key, k), StableSort(key, s)) == Filter(KeyIs(key, k), s)
  {
    if s != [] {
      var r := StableSort(key, s[1..]);
      SortKeepsClass(key, s[1..], k);
      InsertKeepsClass(key, s[0], r, k);
      assert ([s[0]] + r)[1..] == r;
    }
  }

  lemma {:induction false} SortSorts(key: Provider -> real, s: seq<Provider>)
    ensures SortedBy(key, StableSort(key, s))
    ensures multiset(StableSort(key, s)) == multiset(s)
  {
    if s != [] {
      SortSorts(key, s[1..]);
      InsertKeepsSorted(key, s[0], StableSort(key, s[1..]));
      InsertMembers(key, s[0], StableSort(key, s[1..]));
      assert s == [s[0]] + s[1..];
    }
  }

  /** The result is sorted, has the same elements, and keeps the order of equal keys. */
  lemma StableSortIsStable(key: Provider -> real, s: seq<Provider>)
    ensures SortedBy(key, StableSort(key, s))
    ensures multiset(StableSort(key, s)) == multiset(s)
    ensures forall k :: Filter(KeyIs(key, k), StableSort(key, s)) == Filter(KeyIs(key, k), s)
  {
    SortSorts(key, s);
    forall k ensures Filter(KeyIs(key, k), StableSort(key, s)) == Filter(KeyIs(key, k), s) {
      SortKeepsClass(key, s, k);
    }
  }

  /** Being sorted and keeping the order of equal keys leaves only one possibility. */
  lemma {:induction false} StableSortIsUnique(key: Provider -> real, s: seq<Provider>, t: seq<Provider>)
    requires SortedBy(key, s) && SortedBy(key, t)
    requires forall k :: Filter(KeyIs(key, k), s) == Filter(KeyIs(key, k), t)
    ensures s == t
  {
    if s != [] && t != [] {
      var k := if key(s[0]) <= key(t[0]) then key(s[0]) else key(t[0]);
      HeadOfClass(key, s, t, k);
      forall c ensures Filter(KeyIs(key, c), s[1..]) == Filter(KeyIs(key, c), t[1..]) {
        assert Filter(KeyIs(key, c), s) == Filter(KeyIs(key, c), t);
        var a, b := Filter(KeyIs(key, c), s), Filter(KeyIs(key, c), t);
        assert Filter(KeyIs(key, c), s[1..]) == if key(s[0]) == c then a[1..] else a;
        assert Filter(KeyIs(key, c), t[1..]) == if key(t[0]) == c then b[1..] else b;
      }
      StableSortIsUnique(key, s[1..], t[1..]);
      assert s == [s[0]] + s[1..] && t == [t[0]] + t[1..];
    } else {
      assert s != [] ==> Filter(KeyIs(key, key(s[0])), s) != Filter(KeyIs(key, key(s[0])), t);
      assert t != [] ==> Filter(KeyIs(key, key(t[0])), s) != Filter(KeyIs(key, key(t[0])), t);
    }
  }

  lemma HeadOfClass(key: Provider -> real, s: seq<Provider>, t: seq<Provider>, k: real)
    requires SortedBy(key, s) && SortedBy(key, t) && s != [] && t != []
    requires Filter(KeyIs(key, k), s) == Filter(KeyIs(key, k), t)
    requires k == key(s[0]) <= key(t[0]) || k == key(t[0]) <= key(s[0])
    ensures s[0] == t[0]
  {
    var f := KeyIs(key, k);
    FilterMember(f, s, s[0]);
    FilterMember(f, t, s[0]);
    FilterMember(f, t, t[0]);
    FilterMember(f, s, t[0]);
    assert key(s[0]) == key(t[0]);
    assert Filter(f, s)[0] == s[0] && Filter(f, t)[0] == t[0];
  }

  // ---------- selection ----------

  datatype Selector = Selector(
    all: seq<Provider>, providers: seq<Provider>, strategy: Strategy, index: nat, maxRetries: int)

  function Refreshed(all: seq<Provider>): seq<Provider> {
    StableSort(ByPriority(), Filter(IsEnabled(), all))
  }

  function IndexOf(s: seq<Provider>, x: Provider): (i: nat)
    requires x in s
    ensures i < |s| && s[i] == x && x !in s[..i]
  {
    if s[0] == x then 0
    else
      assert s == [s[0]] + s[1..];
      1 + IndexOf(s[1..], x)
  }

  /** The first of the cheapest providers. */
  function Cheapest(s: seq<Provider>): Provider
    requires s != []
  {
    if |s| == 1 then s[0]
    else
      var rest := Cheapest(s[1..]);
      if s[0].cost <= rest.cost then s[0] else rest
  }

  function Start(sel: Selector): (p: Provider)
    requires sel.providers != []
  {
    match sel.strategy
    case Priority => sel.providers[0]
    case RoundRobin => sel.providers[sel.index % |sel.providers|]
    case CostBased => Cheapest(sel.providers)
  }

  function Rotation(s: seq<Provider>, from: nat): seq<Provider>
    requires s != []
  {
    seq(|s|, i requires 0 <= i < |s| => s[(from + i) % |s|])
  }

  function FallbackOrder(sel: Selector): seq<Provider>
    requires sel.providers != []
  {
    match sel.strategy
    case Priority => sel.providers
    case RoundRobin =>
      var start := Start(sel);
      Rotation(sel.providers, if start in sel.providers then IndexOf(sel.providers, start) else 0)
    case CostBased => StableSort(ByCost(), sel.providers)
  }

  function Min(max: int, n: nat): nat {
    if max < 0 then 0 else if max < n then max else n
  }

  /** How many providers one call may try. */
  function Limit(sel: Selector): nat
    requires sel.providers != []
  {
    Min(sel.maxRetries, |FallbackOrder(sel)|)
  }

  lemma SmallMultiple(t: int, n: int)
    requires -n < t * n < n
    ensures t == 0
  {
    if t >= 1 {
    } else if t <= -1 {
    }
  }

  lemma ModUnique(x: nat, n: nat, q: nat, r: nat)
    requires 0 <= r < n && x == q * n + r
    ensures x % n == r
  {
    var a, b := x / n, x % n;
    assert (a - q) * n == a * n - q * n;
    SmallMultiple(a - q, n);
  }

  /** Starting at a position and wrapping around gives every provider once, in order. */
  lemma RotationIsTurn(s: seq<Provider>, from: nat)
    requires from < |s|
    ensures Rotation(s, from) == s[from..] + s[..from]
    ensures multiset(Rotation(s, from)) == multiset(s)
  {
    forall i | 0 <= i < |s| ensures Rotation(s, from)[i] == (s[from..] + s[..from])[i] {
      if from + i < |s| {
        ModUnique(from + i, |s|, 0, from + i);
      } else {
        ModUnique(from + i, |s|, 1, from + i - |s|);
      }
    }
    assert s == s[..from] + s[from..];
  }

  ghost predicate AllDifferent(s: seq<Provider>) {
    forall i, j :: 0 <= i < j < |s| ==> s[i] != s[j]
  }

  lemma {:induction false} CheapestIsHead(s: seq<Provider>)
    requires s != []
    ensures Cheapest(s) == StableSort(ByCost(), s)[0] && StableSort(ByCost(), s) != []
  {
    if |s| > 1 {
      CheapestIsHead(s[1..]);
    } else {
      assert StableSort(ByCost(), s[1..]) == [];
    }
  }

  /** Whatever the strategy, the fallback order starts with the selected provider and is a
  rearrangement of the providers in use: the very list for priority, the list turned to the first
  copy of the provider at the rotation index for round robin, and by ascending cost, in the order of
  the list where costs are equal, otherwise. */
  lemma FallbackOrderCoversAll(sel: Selector)
    requires sel.providers != []
    ensures multiset(FallbackOrder(sel)) == multiset(sel.providers)
    ensures FallbackOrder(sel) != [] && FallbackOrder(sel)[0] == Start(sel)
    ensures sel.strategy == Priority ==> FallbackOrder(sel) == sel.providers
    ensures sel.strategy == RoundRobin ==>
      exists at :: FirstPosition(sel.providers, sel.providers[sel.index % |sel.providers|], at)
        && FallbackOrder(sel) == sel.providers[at..] + sel.providers[..at]
    ensures sel.strategy == CostBased ==>
      && (forall i, j :: 0 <= i < j < |FallbackOrder(sel)| ==> FallbackOrder(sel)[i].cost <= FallbackOrder(sel)[j].cost)
      && (forall k :: Filter(KeyIs(ByCost(), k), FallbackOrder(sel)) == Filter(KeyIs(ByCost(), k), sel.providers))
  {
    match sel.strategy
    case Priority =>
    case RoundRobin =>
      var start := sel.providers[sel.index % |sel.providers|];
      var at := IndexOf(sel.providers, start);
      RotationIsTurn(sel.providers, at);
      assert forall i :: 0 <= i < at ==> sel.providers[i] == sel.providers[..at][i];
      assert FirstPosition(sel.providers, start, at);
    case CostBased =>
      StableSortIsStable(ByCost(), sel.providers);
      CheapestIsHead(sel.providers);
      assert |FallbackOrder(sel)| == |multiset(FallbackOrder(sel))| == |sel.providers|;
  }

  ghost predicate FirstPosition(s: seq<Provider>, p: Provider, at: int) {
    0 <= at < |s| && s[at] == p && forall i :: 0 <= i < at ==> s[i] != p
  }

  /** With different providers the rotation starts at the rotation index itself. */
  lemma RotationStart(sel: Selector)
    requires sel.providers != [] && sel.strategy == RoundRobin && AllDifferent(sel.providers)
    ensures var at := sel.index % |sel.providers|;
      FallbackOrder(sel) == sel.providers[at..] + sel.providers[..at]
  {
    FallbackOrderCoversAll(sel);
    var at :| FirstPosition(sel.providers, sel.providers[sel.index % |sel.providers|], at)
      && FallbackOrder(sel) == sel.providers[at..] + sel.providers[..at];
  }

  // ---------- generating ----------

  function Messages(order: seq<Provider>, answer: Provider -> Attempt): seq<string> {
    if order == [] then []
    else
      var a := answer(order[0]);
      (if a.Raised? then [order[0].name + ": " + a.message] else []) + Messages(order[1..], answer)
  }

  ghost predicate FirstRaise(order: seq<Provider>, k: int, answer: Provider -> Attempt)
    requires k <= |order|
  {
    forall i :: 0 <= i < k ==> answer(order[i]).Raised?
  }

  /** What a call returns: the answer of the first provider tried that does not raise, its
  position, and one message per earlier provider; or failure when all that may be tried raise. */
  ghost predicate Falls(order: seq<Provider>, limit: nat, answer: Provider -> Attempt, r: Outcome)
    requires limit <= |order|
  {
    match r
    case Selected(result, name, attempts, errors) =>
      && 1 <= attempts <= limit
      && FirstRaise(order, attempts - 1, answer)
      && answer(order[attempts - 1]) == Answered(result)
      && name == order[attempts - 1].name
      && errors == Messages(order[..attempts - 1], answer)
    case AllFailed(errors) =>
      FirstRaise(order, limit, answer) && errors == Messages(order[..limit], answer)
  }

  /** The description above leaves one possibility, and failure means that all raise. */
  lemma FallsIsUnique(order: seq<Provider>, limit: nat, answer: Provider -> Attempt, r: Outcome, s: Outcome)
    requires limit <= |order| && Falls(order, limit, answer, r) && Falls(order, limit, answer, s)
    ensures r == s
    ensures r.AllFailed? <==> FirstRaise(order, limit, answer)
  {}

  lemma {:induction false} MessagesConcat(a: seq<Provider>, p: Provider, answer: Provider -> Attempt)
    ensures Messages(a + [p], answer) == Messages(a, answer) + Messages([p], answer)
  {
    if a == [] {
      assert a + [p] == [p];
    } else {
      assert (a + [p])[1..] == a[1..] + [p];
      MessagesConcat(a[1..], p, answer);
    }
  }

  /** One message per provider that raised, with its name in front. */
  lemma {:induction false} MessagesAt(order: seq<Provider>, k: nat, answer: Provider -> Attempt)
    requires k <= |order| && FirstRaise(order, k, answer)
    ensures |Messages(order[..k], answer)| == k
    ensures forall i :: 0 <= i < k ==>
      Messages(order[..k], answer)[i] == order[i].name + ": " + answer(order[i]).message
  {
    if k > 0 {
      MessagesAt(order, k - 1, answer);
      assert order[..k] == order[..k - 1] + [order[k - 1]];
      MessagesConcat(order[..k - 1], order[k - 1], answer);
      assert answer(order[k - 1]).Raised?;
    }
  }

  lemma InUse(all: seq<Provider>, p: Provider)
    ensures p in Refreshed(all) <==> p in all && p.enabled
  {
    SortSorts(ByPriority(), Filter(IsEnabled(), all));
    FilterMember(IsEnabled(), all, p);
    assert p in Refreshed(all) <==> p in multiset(Refreshed(all));
    assert p in Filter(IsEnabled(), all) <==> p in multiset(Filter(IsEnabled(), all));
  }

  /** Providers that count as better than p under the strategy. */
  ghost predicate Better(strategy: Strategy, q: Provider, p: Provider) {
    (strategy == Priority && q.priority < p.priority) || (strategy == CostBased && q.cost < p.cost)
  }

  lemma NoneBetterBehind(sel: Selector, i: nat, j: nat)
    requires sel.providers != [] && sel.providers == Refreshed(sel.all)
    requires i <= j < |FallbackOrder(sel)|
    ensures !Better(sel.strategy, FallbackOrder(sel)[j], FallbackOrder(sel)[i])
  {
    FallbackOrderCoversAll(sel);
    SortSorts(ByPriority(), Filter(IsEnabled(), sel.all));
    if sel.strategy == Priority {
      assert i < j ==> ByPriority()(sel.providers[i]) <= ByPriority()(sel.providers[j]);
    }
  }

  lemma OrderMembers(sel: Selector, p: Provider)
    requires sel.providers != [] && sel.providers == Refreshed(sel.all)
    ensures p in FallbackOrder(sel) <==> p in sel.all && p.enabled
  {
    FallbackOrderCoversAll(sel);
    InUse(sel.all, p);
    assert p in FallbackOrder(sel) <==> p in multiset(FallbackOrder(sel));
    assert p in sel.providers <==> p in multiset(sel.providers);
  }

  /** The answer comes from an enabled provider, and every enabled provider that is better under the
  strategy has raised; a call fails after trying as many as it may. */
  lemma WhoAnswers(sel: Selector, answer: Provider -> Attempt, r: Outcome)
    requires sel.providers == Refreshed(sel.all) && Allowed(sel, answer, r)
    ensures r.Selected? ==>
      && 1 <= r.attempts <= sel.maxRetries && |r.errors| == r.attempts - 1
      && exists p :: p in sel.all && p.enabled && p.name == r.provider && answer(p) == Answered(r.result)
           && forall q :: q in sel.all && q.enabled && Better(sel.strategy, q, p) ==> answer(q).Raised?
    ensures r.AllFailed? && (exists p :: p in sel.all && p.enabled) ==>
      && |r.errors| == Tries(sel)
      && (sel.maxRetries >= |sel.all| ==> forall q :: q in sel.all && q.enabled ==> answer(q).Raised?)
    ensures (forall p :: p in sel.all ==> !p.enabled) ==> r == AllFailed(["No enabled providers available"])
  {
    forall p ensures p in sel.providers <==> p in sel.all && p.enabled {
      InUse(sel.all, p);
    }
    if sel.providers == [] {
      assert forall p :: p in sel.all ==> p !in sel.providers;
    } else {
      assert sel.providers[0] in sel.providers;
      if r.Selected? {
        var p := WhoAnswersInUse(sel, answer, r);
      } else {
        AllTried(sel, answer, r);
      }
    }
  }

  /** How many providers a call tries before it fails. */
  ghost function Tries(sel: Selector): int {
    if sel.maxRetries <= 0 then 0
    else if sel.maxRetries < |sel.providers| then sel.maxRetries
    else |sel.providers|
  }

  lemma OrderLength(sel: Selector)
    requires sel.providers != []
    ensures |FallbackOrder(sel)| == |sel.providers|
  {
    FallbackOrderCoversAll(sel);
    assert |FallbackOrder(sel)| == |multiset(FallbackOrder(sel))| == |multiset(sel.providers)|;
  }

  lemma WhoAnswersInUse(sel: Selector, answer: Provider -> Attempt, r: Outcome) returns (p: Provider)
    requires sel.providers != [] && sel.providers == Refreshed(sel.all) && Allowed(sel, answer, r) && r.Selected?
    ensures 1 <= r.attempts <= sel.maxRetries && |r.errors| == r.attempts - 1
    ensures p in sel.all && p.enabled && p.name == r.provider && answer(p) == Answered(r.result)
    ensures forall q :: q in sel.all && q.enabled && Better(sel.strategy, q, p) ==> answer(q).Raised?
  {
    var order, at := FallbackOrder(sel), r.attempts - 1;
    p := order[at];
    OrderMembers(sel, p);
    MessagesAt(order, at, answer);
    forall q | q in sel.all && q.enabled && Better(sel.strategy, q, p) ensures answer(q).Raised? {
      OrderMembers(sel, q);
      var j :| 0 <= j < |order| && order[j] == q;
      if at <= j {
        NoneBetterBehind(sel, at, j);
      }
    }
  }

  lemma AllTried(sel: Selector, answer: Provider -> Attempt, r: Outcome)
    requires sel.providers != [] && sel.providers == Refreshed(sel.all) && Allowed(sel, answer, r) && r.AllFailed?
    ensures |r.errors| == Tries(sel)
    ensures sel.maxRetries >= |sel.all| ==> forall q :: q in sel.all && q.enabled ==> answer(q).Raised?
  {
    var order := FallbackOrder(sel);
    OrderLength(sel);
    MessagesAt(order, Limit(sel), answer);
    InUseCount(sel.all);
    forall q | sel.maxRetries >= |sel.all| && q in sel.all && q.enabled ensures answer(q).Raised? {
      OrderMembers(sel, q);
      var j :| 0 <= j < |order| && order[j] == q;
    }
  }

  lemma InUseCount(all: seq<Provider>)
    ensures |Refreshed(all)| <= |all|
  {
    SortSorts(ByPriority(), Filter(IsEnabled(), all));
    assert |multiset(Refreshed(all))| == |Refreshed(all)|;
    SubseqFilterSelf(IsEnabled(), all);
    SubseqLength(Filter(IsEnabled(), all), all);
  }

  ghost predicate IsFirstNamed(all: seq<Provider>, i: int, name: string) {
    && 0 <= i < |all| && all[i].name == name
    && forall j :: 0 <= j < i ==> all[j].name != name
  }

  /** What one call may return on a selector. */
  ghost predicate Allowed(sel: Selector, answer: Provider -> Attempt, r: Outcome) {
    if sel.providers == [] then r == AllFailed(["No enabled providers available"])
    else Falls(FallbackOrder(sel), Limit(sel), answer, r)
  }

  /** Only a successful round-robin call moves the starting position. */
  function Advanced(sel: Selector, r: Outcome): Selector {
    if r.Selected? && sel.strategy == RoundRobin then sel.(index := sel.index + 1) else sel
  }

  class ProviderSelector {
    var all: seq<Provider>
    var providers: seq<Provider>
    var strategy: Strategy
    var currentIndex: nat
    const maxRetries: int

    ghost predicate Valid()
      reads this
    {
      providers == Refreshed(all)
    }

    ghost function State(): Selector
      reads this
    {
      Selector(all, providers, strategy, currentIndex, maxRetries)
    }

    constructor (all: seq<Provider>, strategy: Strategy, maxRetries: int)
      ensures Valid() && this.all == all && this.strategy == strategy
      ensures currentIndex == 0 && this.maxRetries == maxRetries
    {
      this.all, this.strategy, this.maxRetries := all, strategy, maxRetries;
      providers, currentIndex := Refreshed(all), 0;
    }

    method SetStrategy(s: Strategy)
      requires Valid()
      modifies this
      ensures Valid() && State() == old(State()).(strategy := s, index := 0)
    {
      strategy, currentIndex := s, 0;
    }

    /** Enables or disables the first provider of that name; the list in use is sorted anew. */
    method SetEnabled(name: string, enabled: bool) returns (found: bool)
      requires Valid()
      modifies this
      ensures Valid() && strategy == old(strategy) && currentIndex == old(currentIndex)
      ensures found <==> exists p :: p in old(all) && p.name == name
      ensures !found ==> all == old(all)
      ensures found ==>
        exists i :: IsFirstNamed(old(all), i, name) && all == old(all)[i := old(all)[i].(enabled := enabled)]
    {
      for i := 0 to |all|
        invariant all == old(all) && Valid() && strategy == old(strategy) && currentIndex == old(currentIndex)
        invariant forall j :: 0 <= j < i ==> all[j].name != name
      {
        if all[i].name == name {
          assert all[i] in old(all) && IsFirstNamed(all, i, name);
          all := all[i := all[i].(enabled := enabled)];
          providers := Refreshed(all);
          return true;
        }
      }
      return false;
    }

    method Generate(answer: Provider -> Attempt) returns (r: Outcome)
      requires Valid()
      modifies `currentIndex
      ensures Valid() && Allowed(old(State()), answer, r)
      ensures currentIndex == old(currentIndex) + if r.Selected? && strategy == RoundRobin then 1 else 0
      ensures State() == Advanced(old(State()), r)
      ensures r.Selected? ==>
        exists p :: p in all && p.enabled && p.name == r.provider && answer(p) == Answered(r.result)
          && forall q :: q in all && q.enabled && Better(strategy, q, p) ==> answer(q).Raised?
    {
      ghost var sel := State();
      if providers == [] {
        return AllFailed(["No enabled providers available"]);
      }
      var order := FallbackOrder(Selector(all, providers, strategy, currentIndex, maxRetries));
      r := TryInOrder(order, answer);
      WhoAnswers(sel, answer, r);
      if r.Selected? && strategy == RoundRobin {
        currentIndex := currentIndex + 1;
      }
    }

    /** The fallback loop. */
    method TryInOrder(order: seq<Provider>, answer: Provider -> Attempt) returns (r: Outcome)
      ensures Falls(order, Min(maxRetries, |order|), answer, r)
    {
      var errors := [];
      var attempt := 1;
      while attempt <= |order|
        invariant 1 <= attempt <= |order| + 1 && attempt - 1 <= Min(maxRetries, |order|)
        invariant FirstRaise(order, attempt - 1, answer) && errors == Messages(order[..attempt - 1], answer)
      {
        if attempt > maxRetries {
          break;
        }
        var provider := order[attempt - 1];
        var a := answer(provider);
        if a.Answered? {
          return Selected(a.result, provider.name, attempt, errors);
        }
        assert order[..attempt] == order[..attempt - 1] + [provider];
        MessagesConcat(order[..attempt - 1], provider, answer);
        assert Messages([provider], answer) == [provider.name + ": " + a.message];
        errors := errors + [provider.name + ": " + a.message];
        attempt := attempt + 1;
      }
      r := AllFailed(errors);
    }
  }

  /** The list in use is the one stable priority order of the enabled providers. */
  lemma ProvidersInUse(all: seq<Provider>, list: seq<Provider>)
    ensures list == Refreshed(all) <==>
      SortedBy(ByPriority(), list)
      && forall k :: Filter(KeyIs(ByPriority(), k), list) == Filter(KeyIs(ByPriority(), k), Filter(IsEnabled(), all))
  {
    var enabled := Filter(IsEnabled(), all);
    StableSortIsStable(ByPriority(), enabled);
    if SortedBy(ByPriority(), list)
      && forall k :: Filter(KeyIs(ByPriority(), k), list) == Filter(KeyIs(ByPriority(), k), enabled)
    {
      StableSortIsUnique(ByPriority(), list, Refreshed(all));
    }
  }
}
