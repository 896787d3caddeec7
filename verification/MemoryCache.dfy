/** The in-memory artifact cache (rice_factor/adapters/cache/artifact_cache.py).

An ordered dictionary is a sequence of entries with distinct keys, oldest first.
`Step` says what each operation does to the stored entries and the counters; the
class below does it with the loops and updates of the source. */
module MemoryCaches {
  import opened Sequences

  /** Microseconds since an arbitrary epoch. */
  type Time = int

  datatype CacheEntry = CacheEntry(
    key: string, value: string, hash: string, createdAt: Time,
    expiresAt: Option<Time>, hitCount: nat, lastAccessed: Time)
  {
    predicate IsExpired(now: Time) {
      expiresAt.Some? && now > expiresAt.value
    }
  }

  /** `hashOf` is the content digest of an artifact. */
  datatype Config = Config(maxSize: nat, defaultTtl: Option<Time>, hashOf: string -> string)

  datatype CacheStats = CacheStats(hits: nat, misses: nat, evictions: nat, size: nat, maxSize: nat)

  datatype CacheState = CacheState(entries: seq<CacheEntry>, hits: nat, misses: nat, evictions: nat)

  datatype Op =
    | Get(key: string, now: Time, accessedAt: Time)
    | Set(key: string, value: string, ttl: Option<Time>, now: Time)
    | Delete(key: string)
    | Clear
    | InvalidateByHash(hash: string)
    | Has(key: string, now: Time)
    | CleanupExpired(now: Time)

  datatype Reply = Entry(entry: Option<CacheEntry>) | Flag(flag: bool) | Count(count: nat)

  function Lookup(c: seq<CacheEntry>, k: string): (r: Option<CacheEntry>)
    ensures r.None? <==> forall e :: e in c ==> e.key != k
    ensures r.Some? ==> r.value in c && r.value.key == k
  {
    if c == [] then None
    else if c[0].key == k then Some(c[0])
    else
      assert c == [c[0]] + c[1..];
      Lookup(c[1..], k)
  }

  predicate Distinct(c: seq<CacheEntry>) {
    forall i, j :: 0 <= i < j < |c| ==> c[i].key != c[j].key
  }

  function OtherKey(k: string): CacheEntry -> bool { (e: CacheEntry) => e.key != k }
  function KeyOutside(ks: seq<string>): CacheEntry -> bool { (e: CacheEntry) => e.key !in ks }
  function HasHash(h: string): CacheEntry -> bool { (e: CacheEntry) => e.hash == h }
  function OtherHash(h: string): CacheEntry -> bool { (e: CacheEntry) => e.hash != h }
  function IsStale(now: Time): CacheEntry -> bool { (e: CacheEntry) => e.IsExpired(now) }
  function IsFresh(now: Time): CacheEntry -> bool { (e: CacheEntry) => !e.IsExpired(now) }

  function Without(c: seq<CacheEntry>, k: string): seq<CacheEntry> {
    Filter(OtherKey(k), c)
  }

  function NewEntry(cfg: Config, k: string, v: string, ttl: Option<Time>, now: Time): CacheEntry {
    var t := if ttl.Some? then ttl else cfg.defaultTtl;
    CacheEntry(k, v, cfg.hashOf(v), now, if t.Some? then Some(now + t.value) else None, 0, now)
  }

  function Touched(e: CacheEntry, at: Time): CacheEntry {
    e.(hitCount := e.hitCount + 1, lastAccessed := at)
  }

  /** How many of the oldest entries must go before one more fits. */
  function Overflow(maxSize: nat, size: nat): nat
    requires maxSize >= 1
  {
    if size >= maxSize then size + 1 - maxSize else 0
  }

  function Step(cfg: Config, st: CacheState, op: Op): (CacheState, Reply)
    requires cfg.maxSize >= 1
  {
    var c := st.entries;
    match op
    case Get(k, now, at) =>
      var found := Lookup(c, k);
      if found.None? then (st.(misses := st.misses + 1), Entry(None))
      else if found.value.IsExpired(now) then
        (st.(entries := Without(c, k), misses := st.misses + 1), Entry(None))
      else
        var e := Touched(found.value, at);
        (st.(entries := Without(c, k) + [e], hits := st.hits + 1), Entry(Some(e)))
    case Set(k, v, ttl, now) =>
      var e := NewEntry(cfg, k, v, ttl, now);
      var rest := Without(c, k);
      var n := Overflow(cfg.maxSize, |rest|);
      (st.(entries := rest[n..] + [e], evictions := st.evictions + n), Entry(Some(e)))
    case Delete(k) =>
      (st.(entries := Without(c, k)), Flag(Lookup(c, k).Some?))
    case Clear =>
      (st.(entries := []), Count(|c|))
    case InvalidateByHash(h) =>
      (st.(entries := Filter(OtherHash(h), c)), Count(|Filter(HasHash(h), c)|))
    case Has(k, now) =>
      var found := Lookup(c, k);
      if found.Some? && found.value.IsExpired(now) then (st.(entries := Without(c, k)), Flag(false))
      else (st, Flag(found.Some?))
    case CleanupExpired(now) =>
      (st.(entries := Filter(IsFresh(now), c)), Count(|Filter(IsStale(now), c)|))
  }

  const EMPTY := CacheState([], 0, 0, 0)

  function Run(cfg: Config, ops: seq<Op>): CacheState
    requires cfg.maxSize >= 1
  {
    if ops == [] then EMPTY
    else Step(cfg, Run(cfg, ops[..|ops| - 1]), ops[|ops| - 1]).0
  }

  /** The reply to operation i of a run. */
  function ReplyAt(cfg: Config, ops: seq<Op>, i: nat): Reply
    requires cfg.maxSize >= 1 && i < |ops|
  {
    Step(cfg, Run(cfg, ops[..i]), ops[i]).1
  }

  // ---------- facts about keys ----------

  lemma {:induction false} DistinctSubseq(s: seq<CacheEntry>, b: seq<CacheEntry>)
    requires Distinct(b) && Subseq(s, b)
    ensures Distinct(s)
    decreases b
  {
    if s != [] {
      if s[0] == b[0] {
        DistinctSubseq(s[1..], b[1..]);
        forall j | 0 < j < |s| ensures s[0].key != s[j].key {
          assert s[j] == s[1..][j - 1];
          SubseqMember(s[1..], b[1..], s[j]);
        }
        forall i, j | 0 <= i < j < |s| ensures s[i].key != s[j].key {
          if i > 0 {
            assert s[i] == s[1..][i - 1] && s[j] == s[1..][j - 1];
          }
        }
      } else {
        DistinctSubseq(s, b[1..]);
      }
    }
  }

  lemma DistinctFilter(p: CacheEntry -> bool, c: seq<CacheEntry>)
    requires Distinct(c)
    ensures Distinct(Filter(p, c))
  {
    SubseqFilterSelf(p, c);
    DistinctSubseq(Filter(p, c), c);
  }

  lemma DistinctReplace(c: seq<CacheEntry>, e: CacheEntry)
    requires Distinct(c)
    ensures Distinct(Without(c, e.key) + [e])
  {
    DistinctFilter(OtherKey(e.key), c);
    forall x | x in Without(c, e.key) ensures x.key != e.key {
      FilterMember(OtherKey(e.key), c, x);
    }
  }

  /** With distinct keys exactly one entry leaves when a stored key is removed. */
  lemma {:induction false} WithoutLength(c: seq<CacheEntry>, k: string)
    requires Distinct(c)
    ensures |Without(c, k)| == if Lookup(c, k).Some? then |c| - 1 else |c|
  {
    if c != [] {
      assert c == [c[0]] + c[1..];
      if c[0].key == k {
        forall e | e in c[1..] ensures OtherKey(k)(e) {
          var j :| 0 <= j < |c[1..]| && c[1..][j] == e;
          assert c[j + 1] == e;
        }
        FilterAll(OtherKey(k), c[1..]);
      } else {
        WithoutLength(c[1..], k);
      }
    }
  }

  lemma {:induction false} FilterSplit(p: CacheEntry -> bool, q: CacheEntry -> bool, c: seq<CacheEntry>)
    requires forall e :: p(e) == !q(e)
    ensures |Filter(p, c)| + |Filter(q, c)| == |c|
  {
    if c != [] {
      FilterSplit(p, q, c[1..]);
    }
  }

  lemma StepKeepsShape(cfg: Config, st: CacheState, op: Op)
    requires cfg.maxSize >= 1 && Distinct(st.entries) && |st.entries| <= cfg.maxSize
    ensures Distinct(Step(cfg, st, op).0.entries) && |Step(cfg, st, op).0.entries| <= cfg.maxSize
  {
    var c := st.entries;
    match op
    case Get(k, now, at) =>
      DistinctFilter(OtherKey(k), c);
      WithoutLength(c, k);
      if Lookup(c, k).Some? {
        DistinctReplace(c, Touched(Lookup(c, k).value, at));
      }
    case Set(k, v, ttl, now) =>
      var e := NewEntry(cfg, k, v, ttl, now);
      var n := Overflow(cfg.maxSize, |Without(c, k)|);
      DistinctReplace(c, e);
      WithoutLength(c, k);
      assert Without(c, k)[n..] + [e] == (Without(c, k) + [e])[n..];
    case Delete(k) =>
      DistinctFilter(OtherKey(k), c);
      WithoutLength(c, k);
    case Clear =>
    case InvalidateByHash(h) =>
      DistinctFilter(OtherHash(h), c);
      FilterSplit(HasHash(h), OtherHash(h), c);
    case Has(k, now) =>
      DistinctFilter(OtherKey(k), c);
      WithoutLength(c, k);
    case CleanupExpired(now) =>
      DistinctFilter(IsFresh(now), c);
      FilterSplit(IsStale(now), IsFresh(now), c);
  }

  /** In every reachable state keys are distinct and the capacity is respected. */
  lemma {:induction false} RunKeepsShape(cfg: Config, ops: seq<Op>)
    requires cfg.maxSize >= 1
    ensures Distinct(Run(cfg, ops).entries) && |Run(cfg, ops).entries| <= cfg.maxSize
  {
    if ops != [] {
      RunKeepsShape(cfg, ops[..|ops| - 1]);
      StepKeepsShape(cfg, Run(cfg, ops[..|ops| - 1]), ops[|ops| - 1]);
    }
  }

  // ---------- what the counters mean ----------

  ghost function CountOps(p: Op -> bool, ops: seq<Op>): nat {
    if ops == [] then 0
    else CountOps(p, ops[..|ops| - 1]) + if p(ops[|ops| - 1]) then 1 else 0
  }

  ghost function IsGet(): Op -> bool { (op: Op) => op.Get? }
  ghost function IsSet(): Op -> bool { (op: Op) => op.Set? }

  /** Entries that an operation takes out for any reason but capacity: an overwritten or
  expired key, an explicit removal, or one entry per counted removal. */
  ghost function Departures(cfg: Config, st: CacheState, op: Op): nat
    requires cfg.maxSize >= 1
  {
    match op
    case Set(k, _, _, _) => if Lookup(st.entries, k).Some? then 1 else 0
    case Get(k, now, _) =>
      if Lookup(st.entries, k).Some? && Lookup(st.entries, k).value.IsExpired(now) then 1 else 0
    case Has(k, now) =>
      if Lookup(st.entries, k).Some? && Lookup(st.entries, k).value.IsExpired(now) then 1 else 0
    case Delete(_) => if Step(cfg, st, op).1 == Flag(true) then 1 else 0
    case Clear => Step(cfg, st, op).1.count
    case InvalidateByHash(_) => Step(cfg, st, op).1.count
    case CleanupExpired(_) => Step(cfg, st, op).1.count
  }

  ghost function TotalDepartures(cfg: Config, ops: seq<Op>): nat
    requires cfg.maxSize >= 1
  {
    if ops == [] then 0
    else
      TotalDepartures(cfg, ops[..|ops| - 1])
      + Departures(cfg, Run(cfg, ops[..|ops| - 1]), ops[|ops| - 1])
  }

  /** Every lookup is a hit or a miss, and everything ever inserted is still stored, was
  evicted for capacity, or left for a reason the caller could see. */
  lemma {:induction false} RunConservation(cfg: Config, ops: seq<Op>)
    requires cfg.maxSize >= 1
    ensures var st := Run(cfg, ops);
      && st.hits + st.misses == CountOps(IsGet(), ops)
      && CountOps(IsSet(), ops) == |st.entries| + st.evictions + TotalDepartures(cfg, ops)
  {
    if ops != [] {
      var before := ops[..|ops| - 1];
      var st := Run(cfg, before);
      RunConservation(cfg, before);
      RunKeepsShape(cfg, before);
      match ops[|ops| - 1]
      case Get(k, _, _) => WithoutLength(st.entries, k);
      case Set(k, _, _, _) => WithoutLength(st.entries, k);
      case Delete(k) => WithoutLength(st.entries, k);
      case Clear =>
      case InvalidateByHash(h) => FilterSplit(HasHash(h), OtherHash(h), st.entries);
      case Has(k, _) => WithoutLength(st.entries, k);
      case CleanupExpired(now) => FilterSplit(IsStale(now), IsFresh(now), st.entries);
    }
  }

  function StatsOf(cfg: Config, st: CacheState): CacheStats {
    CacheStats(st.hits, st.misses, st.evictions, |st.entries|, cfg.maxSize)
  }

  /** How many gets of a run were answered with an entry. */
  ghost function Answered(cfg: Config, ops: seq<Op>): nat
    requires cfg.maxSize >= 1
  {
    if ops == [] then 0
    else
      var n := |ops| - 1;
      Answered(cfg, ops[..n]) + if ops[n].Get? && ReplyAt(cfg, ops, n).entry.Some? then 1 else 0
  }

  lemma StepHits(cfg: Config, st: CacheState, op: Op)
    requires cfg.maxSize >= 1
    ensures var (after, reply) := Step(cfg, st, op);
      && (op.Get? ==> reply.Entry?)
      && after.hits == st.hits + if op.Get? && reply.entry.Some? then 1 else 0
  {}

  lemma {:induction false} HitsAreAnswers(cfg: Config, ops: seq<Op>)
    requires cfg.maxSize >= 1
    ensures Run(cfg, ops).hits == Answered(cfg, ops)
  {
    if ops != [] {
      var n := |ops| - 1;
      HitsAreAnswers(cfg, ops[..n]);
      StepHits(cfg, Run(cfg, ops[..n]), ops[n]);
    }
  }

  /** What the statistics tell after any run: a hit for every get that returned an entry, a miss
  for every other get, the number of entries within the capacity, and an eviction for every stored
  entry that has neither stayed nor left visibly. */
  lemma StatsOfRun(cfg: Config, ops: seq<Op>)
    requires cfg.maxSize >= 1
    ensures var stats := StatsOf(cfg, Run(cfg, ops));
      && stats.hits == Answered(cfg, ops)
      && stats.misses == CountOps(IsGet(), ops) - Answered(cfg, ops)
      && stats.size == |Run(cfg, ops).entries| <= stats.maxSize == cfg.maxSize
      && stats.evictions == CountOps(IsSet(), ops) - stats.size - TotalDepartures(cfg, ops)
  {
    HitsAreAnswers(cfg, ops);
    RunConservation(cfg, ops);
    RunKeepsShape(cfg, ops);
  }

  // ---------- the class ----------

  function Keys(c: seq<CacheEntry>): (ks: seq<string>)
    ensures |ks| == |c|
    ensures forall i :: 0 <= i < |c| ==> ks[i] == c[i].key
  {
    seq(|c|, i requires 0 <= i < |c| => c[i].key)
  }

  /** Deleting one by one the keys of the entries that satisfy `hit` leaves those that do not. */
  lemma DeleteListedKeys(hit: CacheEntry -> bool, miss: CacheEntry -> bool, c: seq<CacheEntry>)
    requires Distinct(c) && forall e :: hit(e) == !miss(e)
    ensures Filter(KeyOutside(Keys(Filter(hit, c))), c) == Filter(miss, c)
  {
    var doomed := Filter(hit, c);
    forall e | e in c ensures KeyOutside(Keys(doomed))(e) == miss(e) {
      FilterMember(hit, c, e);
      if e in doomed {
        var j :| 0 <= j < |doomed| && doomed[j] == e;
        assert Keys(doomed)[j] == e.key;
      } else if e.key in Keys(doomed) {
        var j :| 0 <= j < |doomed| && Keys(doomed)[j] == e.key;
        FilterMember(hit, c, doomed[j]);
      }
    }
    FilterAgree(KeyOutside(Keys(doomed)), miss, c);
  }

  class MemoryCache {
    const cfg: Config
    var cache: seq<CacheEntry>
    var hits: nat
    var misses: nat
    var evictions: nat
    var size: nat

    ghost predicate Valid()
      reads this
    {
      cfg.maxSize >= 1 && Distinct(cache) && |cache| <= cfg.maxSize && size == |cache|
    }

    ghost function State(): CacheState
      reads this
    {
      CacheState(cache, hits, misses, evictions)
    }

    constructor (cfg: Config)
      requires cfg.maxSize >= 1
      ensures Valid() && this.cfg == cfg && State() == EMPTY
    {
      this.cfg := cfg;
      cache, hits, misses, evictions, size := [], 0, 0, 0, 0;
    }

    method Get(key: string, now: Time, accessedAt: Time) returns (r: Option<CacheEntry>)
      requires Valid()
      modifies this
      ensures Valid()
      ensures (State(), Entry(r)) == Step(cfg, old(State()), Op.Get(key, now, accessedAt))
    {
      StepKeepsShape(cfg, State(), Op.Get(key, now, accessedAt));
      var found := Lookup(cache, key);
      if found.None? {
        misses := misses + 1;
        return None;
      }
      var entry := found.value;
      if entry.IsExpired(now) {
        cache := Without(cache, key);
        misses := misses + 1;
        size := |cache|;
        return None;
      }
      WithoutLength(cache, key);
      entry := entry.(hitCount := entry.hitCount + 1, lastAccessed := accessedAt);
      cache := Without(cache, key) + [entry];
      hits := hits + 1;
      return Some(entry);
    }

    method Set(key: string, value: string, ttl: Option<Time>, now: Time) returns (entry: CacheEntry)
      requires Valid()
      modifies this
      ensures Valid()
      ensures (State(), Entry(Some(entry))) == Step(cfg, old(State()), Op.Set(key, value, ttl, now))
    {
      StepKeepsShape(cfg, State(), Op.Set(key, value, ttl, now));
      entry := NewEntry(cfg, key, value, ttl, now);
      if Lookup(cache, key).Some? {
        cache := Without(cache, key);
      } else {
        FilterAll(OtherKey(key), cache);
      }
      ghost var rest := cache;
      assert rest == Without(old(cache), key);
      WithoutLength(old(cache), key);
      ghost var n := 0;
      while |cache| >= cfg.maxSize
        invariant 0 <= n <= Overflow(cfg.maxSize, |rest|)
        invariant cache == rest[n..] && evictions == old(evictions) + n
        invariant hits == old(hits) && misses == old(misses)
        decreases |cache|
      {
        cache := cache[1..];
        evictions := evictions + 1;
        n := n + 1;
      }
      cache := cache + [entry];
      size := |cache|;
    }

    method Delete(key: string) returns (deleted: bool)
      requires Valid()
      modifies this
      ensures Valid()
      ensures (State(), Flag(deleted)) == Step(cfg, old(State()), Op.Delete(key))
    {
      StepKeepsShape(cfg, State(), Op.Delete(key));
      if Lookup(cache, key).Some? {
        cache := Without(cache, key);
        size := |cache|;
        return true;
      }
      FilterAll(OtherKey(key), cache);
      return false;
    }

    method Clear() returns (count: nat)
      requires Valid()
      modifies this
      ensures Valid()
      ensures (State(), Count(count)) == Step(cfg, old(State()), Op.Clear)
    {
      count := |cache|;
      cache := [];
      size := 0;
    }

    /** The deletion loop shared by the two bulk removals. */
    method DeleteKeys(doomed: seq<string>)
      modifies `cache
      ensures cache == Filter(KeyOutside(doomed), old(cache))
    {
      FilterAll(KeyOutside([]), cache);
      for i := 0 to |doomed|
        invariant cache == Filter(KeyOutside(doomed[..i]), old(cache))
      {
        assert doomed[..i + 1] == doomed[..i] + [doomed[i]];
        FilterTwice(KeyOutside(doomed[..i]), OtherKey(doomed[i]), KeyOutside(doomed[..i + 1]), old(cache));
        cache := Without(cache, doomed[i]);
      }
      assert doomed[..|doomed|] == doomed;
    }

    method InvalidateByHash(hash: string) returns (count: nat)
      requires Valid()
      modifies this
      ensures Valid()
      ensures (State(), Count(count)) == Step(cfg, old(State()), Op.InvalidateByHash(hash))
    {
      StepKeepsShape(cfg, State(), Op.InvalidateByHash(hash));
      var doomed := SelectKeys(HasHash(hash));
      DeleteListedKeys(HasHash(hash), OtherHash(hash), cache);
      DeleteKeys(doomed);
      size := |cache|;
      count := |doomed|;
    }

    method CleanupExpired(now: Time) returns (count: nat)
      requires Valid()
      modifies this
      ensures Valid()
      ensures (State(), Count(count)) == Step(cfg, old(State()), Op.CleanupExpired(now))
    {
      StepKeepsShape(cfg, State(), Op.CleanupExpired(now));
      var doomed := SelectKeys(IsStale(now));
      DeleteListedKeys(IsStale(now), IsFresh(now), cache);
      DeleteKeys(doomed);
      size := |cache|;
      count := |doomed|;
    }

    /** The comprehension that collects the keys of the selected entries. */
    method SelectKeys(p: CacheEntry -> bool) returns (ks: seq<string>)
      ensures ks == Keys(Filter(p, cache))
    {
      ks := [];
      for i := 0 to |cache|
        invariant ks == Keys(Filter(p, cache[..i]))
      {
        assert cache[..i + 1] == cache[..i] + [cache[i]];
        FilterConcat(p, cache[..i], [cache[i]]);
        if p(cache[i]) {
          ks := ks + [cache[i].key];
        }
      }
      assert cache[..|cache|] == cache;
    }

    method Has(key: string, now: Time) returns (present: bool)
      requires Valid()
      modifies this
      ensures Valid()
      ensures (State(), Flag(present)) == Step(cfg, old(State()), Op.Has(key, now))
    {
      StepKeepsShape(cfg, State(), Op.Has(key, now));
      var found := Lookup(cache, key);
      if found.None? {
        return false;
      }
      if found.value.IsExpired(now) {
        cache := Without(cache, key);
        size := |cache|;
        return false;
      }
      return true;
    }

    method GetStats() returns (stats: CacheStats)
      requires Valid()
      ensures stats == StatsOf(cfg, State()) && stats.size <= stats.maxSize
    {
      stats := CacheStats(hits, misses, evictions, |cache|, cfg.maxSize);
    }
  }
}
