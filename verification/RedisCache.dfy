/** The shared artifact cache over Redis (rice_factor/adapters/cache/redis_cache.py).

The server is a store of entries and a store of key sets, one per content hash. A set without
members does not exist. Entries with a lifetime may vanish at any time (`Expire`), which the
index is not told. */
module RedisCaches {
  import opened Sequences
  import opened MemoryCaches

  datatype RedisState = RedisState(
    entries: map<string, CacheEntry>, index: map<string, set<string>>, hits: nat, misses: nat)

  datatype RedisOp =
    | Get(key: string, now: Time, accessedAt: Time)
    | Set(key: string, value: string, ttl: Option<Time>, now: Time)
    | Delete(key: string)
    | Clear
    | InvalidateByHash(hash: string)
    | Has(key: string)
    | Expire(key: string)

  const SECOND: Time := 1000000

  /** The server rejects a lifetime below one whole second; the client swallows the error. */
  predicate Accepted(ttl: Option<Time>) {
    ttl.None? || ttl.value >= SECOND
  }

  function Listed(index: map<string, set<string>>, h: string): set<string> {
    if h in index then index[h] else {}
  }

  function AddMember(index: map<string, set<string>>, h: string, k: string): map<string, set<string>> {
    index[h := Listed(index, h) + {k}]
  }

  function RemoveMember(index: map<string, set<string>>, h: string, k: string): map<string, set<string>> {
    var left := Listed(index, h) - {k};
    if left == {} then index - {h} else index[h := left]
  }

  function Fresh(hashOf: string -> string, k: string, v: string, ttl: Option<Time>, now: Time): CacheEntry {
    CacheEntry(k, v, hashOf(v), now, if ttl.Some? then Some(now + ttl.value) else None, 0, now)
  }

  function RedisStep(hashOf: string -> string, st: RedisState, op: RedisOp): (RedisState, Reply) {
    match op
    case Get(k, now, at) =>
      if k !in st.entries then (st.(misses := st.misses + 1), Entry(None))
      else if st.entries[k].IsExpired(now) then
        (st.(entries := st.entries - {k}, misses := st.misses + 1), Entry(None))
      else
        var e := Touched(st.entries[k], at);
        (st.(entries := st.entries[k := e], hits := st.hits + 1), Entry(Some(e)))
    case Set(k, v, ttl, now) =>
      var e := Fresh(hashOf, k, v, ttl, now);
      if Accepted(ttl) then
        (st.(entries := st.entries[k := e], index := AddMember(st.index, e.hash, k)), Entry(Some(e)))
      else (st, Entry(Some(e)))
    case Delete(k) =>
      if k !in st.entries then (st, Flag(false))
      else
        (st.(entries := st.entries - {k}, index := RemoveMember(st.index, st.entries[k].hash, k)), Flag(true))
    case Clear =>
      // index sets are keys of the server too, and are counted
      (st.(entries := map[], index := map[]), Count(|st.entries| + |st.index|))
    case InvalidateByHash(h) =>
      (st.(entries := st.entries - Listed(st.index, h), index := st.index - {h}),
       Count(|Listed(st.index, h) * st.entries.Keys|))
    case Has(k) => (st, Flag(k in st.entries))
    case Expire(k) => (st.(entries := st.entries - {k}), Flag(k in st.entries))
  }

  const EMPTY_REDIS := RedisState(map[], map[], 0, 0)

  function RedisRun(hashOf: string -> string, ops: seq<RedisOp>): RedisState {
    if ops == [] then EMPTY_REDIS
    else RedisStep(hashOf, RedisRun(hashOf, ops[..|ops| - 1]), ops[|ops| - 1]).0
  }

  // ---------- what the index holds ----------

  /** Every entry is stored under its key and listed under its own hash. */
  ghost predicate Complete(st: RedisState) {
    forall k :: k in st.entries ==> st.entries[k].key == k && k in Listed(st.index, st.entries[k].hash)
  }

  /** No live entry is listed under a hash that is not its own. */
  ghost predicate ExactAt(st: RedisState, h: string) {
    forall k :: k in st.entries && k in Listed(st.index, h) ==> st.entries[k].hash == h
  }

  lemma StepKeepsComplete(hashOf: string -> string, st: RedisState, op: RedisOp)
    requires Complete(st)
    ensures Complete(RedisStep(hashOf, st, op).0)
  {
    var st' := RedisStep(hashOf, st, op).0;
    forall k | k in st'.entries ensures st'.entries[k].key == k && k in Listed(st'.index, st'.entries[k].hash) {
      ListedAfter(hashOf, st, op, st'.entries[k].hash, k);
    }
  }

  /** Index completeness in every reachable state. */
  lemma {:induction false} RunComplete(hashOf: string -> string, ops: seq<RedisOp>)
    ensures Complete(RedisRun(hashOf, ops))
  {
    if ops != [] {
      RunComplete(hashOf, ops[..|ops| - 1]);
      StepKeepsComplete(hashOf, RedisRun(hashOf, ops[..|ops| - 1]), ops[|ops| - 1]);
    }
  }

  /** The live keys with this hash, found by scanning all entries. */
  ghost function Scan(st: RedisState, h: string): set<string> {
    set k | k in st.entries && st.entries[k].hash == h
  }

  lemma InvalidationOfComplete(hashOf: string -> string, st: RedisState, h: string)
    requires Complete(st)
    ensures var removed := Listed(st.index, h) * st.entries.Keys;
      && st.entries.Keys - RedisStep(hashOf, st, RedisOp.InvalidateByHash(h)).0.entries.Keys == removed
      && Scan(st, h) <= removed
      && (removed == Scan(st, h) <==> ExactAt(st, h))
      && Scan(RedisStep(hashOf, st, RedisOp.InvalidateByHash(h)).0, h) == {}
  {
    var removed := Listed(st.index, h) * st.entries.Keys;
    if !ExactAt(st, h) {
      var k :| k in st.entries && k in Listed(st.index, h) && st.entries[k].hash != h;
      assert k in removed && k !in Scan(st, h);
    }
  }

  /** Invalidation leaves no live entry with the hash, in any reachable state. It removes
  exactly what a full scan would remove, and reports the same number, exactly when no live entry
  is listed under this hash although it now has another. */
  lemma InvalidationAgainstScan(hashOf: string -> string, ops: seq<RedisOp>, h: string)
    ensures var st := RedisRun(hashOf, ops);
      var (after, count) := RedisStep(hashOf, st, RedisOp.InvalidateByHash(h));
      && Scan(after, h) == {}
      && Scan(st, h) <= st.entries.Keys - after.entries.Keys
      && (st.entries.Keys - after.entries.Keys == Scan(st, h) <==> ExactAt(st, h))
      && (count == Count(|Scan(st, h)|) <==> ExactAt(st, h))
  {
    RunComplete(hashOf, ops);
    var st := RedisRun(hashOf, ops);
    InvalidationOfComplete(hashOf, st, h);
    SubsetSize(Scan(st, h), Listed(st.index, h) * st.entries.Keys);
  }

  lemma {:induction false} SubsetSize<T>(a: set<T>, b: set<T>)
    requires a <= b
    ensures |a| <= |b|
    ensures |a| == |b| <==> a == b
  {
    assert |b| == |a| + |b - a| by {
      assert b == a + (b - a);
    }
    if |a| == |b| {
      assert b - a == {};
    }
  }

  // ---------- the index as a record of the past ----------

  /** Key k was stored with hash h, and since then neither deleted while it had that hash nor
  invalidated or cleared. */
  ghost predicate StillListed(hashOf: string -> string, ops: seq<RedisOp>, h: string, k: string) {
    ops != [] &&
    var before, op := ops[..|ops| - 1], ops[|ops| - 1];
    match op
    case Set(key, v, ttl, _) => (key == k && Accepted(ttl) && hashOf(v) == h) || StillListed(hashOf, before, h, k)
    case Delete(key) =>
      !(key == k && k in RedisRun(hashOf, before).entries && RedisRun(hashOf, before).entries[k].hash == h)
      && StillListed(hashOf, before, h, k)
    case InvalidateByHash(hash) => hash != h && StillListed(hashOf, before, h, k)
    case Clear => false
    case _ => StillListed(hashOf, before, h, k)
  }

  lemma ListedAdd(index: map<string, set<string>>, g: string, key: string, h: string)
    ensures Listed(AddMember(index, g, key), h) == Listed(index, h) + if g == h then {key} else {}
  {}

  lemma ListedRemove(index: map<string, set<string>>, g: string, key: string, h: string)
    ensures Listed(RemoveMember(index, g, key), h) == Listed(index, h) - if g == h then {key} else {}
  {}

  lemma ListedDropped(index: map<string, set<string>>, g: string, h: string)
    ensures Listed(index - {g}, h) == if g == h then {} else Listed(index, h)
  {}

  /** How one operation changes whether k is listed under h. */
  lemma ListedAfter(hashOf: string -> string, st: RedisState, op: RedisOp, h: string, k: string)
    ensures var was := k in Listed(st.index, h);
      k in Listed(RedisStep(hashOf, st, op).0.index, h) <==>
        match op
        case Set(key, v, ttl, _) => (key == k && Accepted(ttl) && hashOf(v) == h) || was
        case Delete(key) => !(key == k && k in st.entries && st.entries[k].hash == h) && was
        case InvalidateByHash(hash) => hash != h && was
        case Clear => false
        case _ => was
  {
    match op
    case Set(key, v, _, _) => ListedAdd(st.index, hashOf(v), key, h);
    case Delete(key) =>
      if key in st.entries {
        ListedRemove(st.index, st.entries[key].hash, key, h);
      }
    case InvalidateByHash(g) => ListedDropped(st.index, g, h);
    case _ =>
  }

  lemma {:induction false} IndexIsHistory(hashOf: string -> string, ops: seq<RedisOp>, h: string, k: string)
    ensures k in Listed(RedisRun(hashOf, ops).index, h) <==> StillListed(hashOf, ops, h, k)
  {
    if ops != [] {
      var before, op := ops[..|ops| - 1], ops[|ops| - 1];
      IndexIsHistory(hashOf, before, h, k);
      ListedAfter(hashOf, RedisRun(hashOf, before), op, h, k);
      assert RedisRun(hashOf, ops) == RedisStep(hashOf, RedisRun(hashOf, before), op).0;
    }
  }

  /** No key is stored with a new hash while it is still listed under another. */
  ghost predicate Disciplined(hashOf: string -> string, ops: seq<RedisOp>) {
    forall i, h :: 0 <= i < |ops| && ops[i].Set? && Accepted(ops[i].ttl) && hashOf(ops[i].value) != h ==>
      !StillListed(hashOf, ops[..i], h, ops[i].key)
  }

  lemma DisciplinedPrefix(hashOf: string -> string, ops: seq<RedisOp>, n: nat)
    requires Disciplined(hashOf, ops) && n <= |ops|
    ensures Disciplined(hashOf, ops[..n])
  {
    var before := ops[..n];
    forall i, x | 0 <= i < n && before[i].Set? && Accepted(before[i].ttl) && hashOf(before[i].value) != x
      ensures !StillListed(hashOf, before[..i], x, before[i].key)
    {
      assert before[i] == ops[i] && before[..i] == ops[..i];
    }
  }

  lemma {:induction false} DisciplineKeepsOneHash(hashOf: string -> string, ops: seq<RedisOp>, g: string, h: string,
        k: string)
    requires Disciplined(hashOf, ops) && StillListed(hashOf, ops, g, k) && StillListed(hashOf, ops, h, k)
    ensures g == h
  {
    var before, op := ops[..|ops| - 1], ops[|ops| - 1];
    DisciplinedPrefix(hashOf, ops, |ops| - 1);
    if op.Set? && op.key == k && Accepted(op.ttl) {
      assert !(hashOf(op.value) != g && StillListed(hashOf, before, g, k));
      assert !(hashOf(op.value) != h && StillListed(hashOf, before, h, k));
    } else {
      DisciplineKeepsOneHash(hashOf, before, g, h, k);
    }
  }

  /** Under that discipline every invalidation is as good as a scan. */
  lemma DisciplineIsEnough(hashOf: string -> string, ops: seq<RedisOp>, h: string)
    requires Disciplined(hashOf, ops)
    ensures ExactAt(RedisRun(hashOf, ops), h)
  {
    var st := RedisRun(hashOf, ops);
    RunComplete(hashOf, ops);
    forall k | k in st.entries && k in Listed(st.index, h) ensures st.entries[k].hash == h {
      IndexIsHistory(hashOf, ops, h, k);
      IndexIsHistory(hashOf, ops, st.entries[k].hash, k);
      DisciplineKeepsOneHash(hashOf, ops, st.entries[k].hash, h, k);
    }
  }

  /** Without it, invalidating an old hash removes an entry that has a new one. */
  lemma StaleListingRemovesLive(hashOf: string -> string)
    requires hashOf("old") != hashOf("new")
    ensures var ops := [RedisOp.Set("k", "old", None, 0), RedisOp.Set("k", "new", None, 0)];
      var st := RedisRun(hashOf, ops);
      !ExactAt(st, hashOf("old")) && Scan(st, hashOf("old")) == {}
      && RedisStep(hashOf, st, RedisOp.InvalidateByHash(hashOf("old"))).1 == Count(1)
  {
    var ops := [RedisOp.Set("k", "old", None, 0), RedisOp.Set("k", "new", None, 0)];
    assert ops[..1] == [ops[0]] && [ops[0]][..0] == [];
    assert RedisRun(hashOf, [ops[0]]) == RedisStep(hashOf, EMPTY_REDIS, ops[0]).0;
    var st := RedisRun(hashOf, ops);
    assert st == RedisStep(hashOf, RedisRun(hashOf, [ops[0]]), ops[1]).0;
    assert Listed(st.index, hashOf("old")) == {"k"} && st.entries.Keys == {"k"};
    assert {"k"} * {"k"} == {"k"};
  }

  // ---------- clients that share the server ----------

  /** The second half of a hit: the entry goes back with its new access statistics. */
  function WriteBack(st: RedisState, k: string, e: CacheEntry): RedisState {
    st.(entries := st.entries[k := e], hits := st.hits + 1)
  }

  /** A hit reads an entry and writes it back. If other operations happen in between, the index
  still covers every live entry exactly when the key is still listed under the hash it was read
  with: stored with it and not since deleted while having it, invalidated or cleared. */
  lemma LateWriteBack(hashOf: string -> string, ops: seq<RedisOp>, others: seq<RedisOp>, k: string, now: Time, at: Time)
    requires k in RedisRun(hashOf, ops).entries && !RedisRun(hashOf, ops).entries[k].IsExpired(now)
    ensures var st := RedisRun(hashOf, ops);
      var e := Touched(st.entries[k], at);
      && RedisStep(hashOf, st, RedisOp.Get(k, now, at)) == (WriteBack(st, k, e), Entry(Some(e)))
      && (Complete(WriteBack(RedisRun(hashOf, ops + others), k, e)) <==> StillListed(hashOf, ops + others, e.hash, k))
  {
    var e := Touched(RedisRun(hashOf, ops).entries[k], at);
    RunComplete(hashOf, ops);
    RunComplete(hashOf, ops + others);
    IndexIsHistory(hashOf, ops + others, e.hash, k);
    var late := WriteBack(RedisRun(hashOf, ops + others), k, e);
    assert k in late.entries && late.entries[k] == e;
  }

  lemma AfterOneSet(hashOf: string -> string, k: string, v: string, now: Time)
    ensures RedisRun(hashOf, [RedisOp.Set(k, v, None, now)])
         == RedisState(map[k := Fresh(hashOf, k, v, None, now)], map[hashOf(v) := {k}], 0, 0)
  {
    var op := RedisOp.Set(k, v, None, now);
    assert [op][..0] == [];
    assert RedisRun(hashOf, [op]) == RedisStep(hashOf, EMPTY_REDIS, op).0;
    assert Listed(map[], hashOf(v)) + {k} == {k};
  }

  /** An invalidation between the two halves leaves the entry live and out of reach of the next. */
  lemma InvalidationBetweenHalves(hashOf: string -> string, k: string, v: string, now: Time, at: Time)
    ensures var st := RedisRun(hashOf, [RedisOp.Set(k, v, None, now)]);
      && k in st.entries
      && var h, e := hashOf(v), Touched(st.entries[k], at);
         var late := WriteBack(RedisStep(hashOf, st, RedisOp.InvalidateByHash(h)).0, k, e);
         Scan(late, h) == {k} && RedisStep(hashOf, late, RedisOp.InvalidateByHash(h)).1 == Count(0)
  {
    AfterOneSet(hashOf, k, v, now);
    var st, h := RedisRun(hashOf, [RedisOp.Set(k, v, None, now)]), hashOf(v);
    var after := RedisStep(hashOf, st, RedisOp.InvalidateByHash(h)).0;
    assert h !in after.index && after.entries == map[];
    NothingListed(hashOf, WriteBack(after, k, Touched(st.entries[k], at)), h);
  }

  /** The second half of an invalidation: the keys read before are deleted, then the list is. */
  function InvalidateKeys(st: RedisState, keys: set<string>, h: string): RedisState {
    if keys == {} then st else st.(entries := st.entries - keys, index := st.index - {h})
  }

  lemma InvalidateInTwoHalves(hashOf: string -> string, st: RedisState, h: string)
    requires h in st.index ==> st.index[h] != {}
    ensures InvalidateKeys(st, Listed(st.index, h), h) == RedisStep(hashOf, st, RedisOp.InvalidateByHash(h)).0
  {
    if h !in st.index {
      NothingListed(hashOf, st, h);
    }
  }

  /** If other operations happen between reading the list and deleting, the index still covers every
  live entry exactly when nothing was read, or every entry that has the hash by then was on the
  list: none was stored with it in between under another key. */
  lemma LateInvalidation(hashOf: string -> string, ops: seq<RedisOp>, others: seq<RedisOp>, h: string)
    ensures var keys, st := Listed(RedisRun(hashOf, ops).index, h), RedisRun(hashOf, ops + others);
      && (Complete(InvalidateKeys(st, keys, h)) <==> keys == {} || Scan(st, h) <= keys)
      && forall k :: k in keys <==> StillListed(hashOf, ops, h, k)
  {
    var keys, st := Listed(RedisRun(hashOf, ops).index, h), RedisRun(hashOf, ops + others);
    forall k ensures k in keys <==> StillListed(hashOf, ops, h, k) {
      IndexIsHistory(hashOf, ops, h, k);
    }
    RunComplete(hashOf, ops + others);
    LateKeys(st, keys, h);
  }

  lemma LateKeys(st: RedisState, keys: set<string>, h: string)
    requires Complete(st)
    ensures Complete(InvalidateKeys(st, keys, h)) <==> keys == {} || Scan(st, h) <= keys
  {
    var late := InvalidateKeys(st, keys, h);
    if keys != {} {
      forall k | k in late.entries
        ensures k in Listed(late.index, late.entries[k].hash) <==> k !in Scan(st, h)
      {
        ListedDropped(st.index, h, late.entries[k].hash);
      }
      if Scan(st, h) <= keys {
        forall k | k in late.entries ensures k in Listed(late.index, late.entries[k].hash) {
          assert k in st.entries && k !in keys;
        }
      } else {
        var k :| k in Scan(st, h) && k !in keys;
        assert k in late.entries;
      }
    }
  }

  /** A set between the two halves leaves the new entry live and unlisted. */
  lemma SetBetweenHalves(hashOf: string -> string, k: string, o: string, v: string, now: Time)
    requires k != o
    ensures var h, first, second := hashOf(v), RedisOp.Set(k, v, None, now), RedisOp.Set(o, v, None, now);
      var keys := Listed(RedisRun(hashOf, [first]).index, h);
      var late := InvalidateKeys(RedisRun(hashOf, [first] + [second]), keys, h);
      Scan(late, h) == {o} && Listed(late.index, h) == {}
  {
    var first, second := RedisOp.Set(k, v, None, now), RedisOp.Set(o, v, None, now);
    AfterOneSet(hashOf, k, v, now);
    assert ([first] + [second])[..1] == [first];
    var st := RedisRun(hashOf, [first] + [second]);
    assert st == RedisStep(hashOf, RedisRun(hashOf, [first]), second).0;
    ListedDropped(st.index, hashOf(v), hashOf(v));
  }

  /** The second half of a delete: the key leaves the list of the hash it was read with, and the
  server. */
  function DeleteRead(st: RedisState, k: string, h: string): RedisState {
    st.(entries := st.entries - {k}, index := RemoveMember(st.index, h, k))
  }

  /** A delete keeps the index complete whatever happens between its halves. */
  lemma LateDelete(hashOf: string -> string, ops: seq<RedisOp>, others: seq<RedisOp>, k: string)
    requires k in RedisRun(hashOf, ops).entries
    ensures var h := RedisRun(hashOf, ops).entries[k].hash;
      && RedisStep(hashOf, RedisRun(hashOf, ops), RedisOp.Delete(k)).0 == DeleteRead(RedisRun(hashOf, ops), k, h)
      && Complete(DeleteRead(RedisRun(hashOf, ops + others), k, h))
  {
    var h, st := RedisRun(hashOf, ops).entries[k].hash, RedisRun(hashOf, ops + others);
    RunComplete(hashOf, ops + others);
    forall o | o in st.entries && o != k ensures o in Listed(RemoveMember(st.index, h, k), st.entries[o].hash) {
      ListedRemove(st.index, h, k, st.entries[o].hash);
    }
  }

  /** Operations from any state of the server. */
  function RunFrom(hashOf: string -> string, st: RedisState, ops: seq<RedisOp>): RedisState {
    if ops == [] then st
    else RedisStep(hashOf, RunFrom(hashOf, st, ops[..|ops| - 1]), ops[|ops| - 1]).0
  }

  /** Complete, but for an entry under k that still has this hash. */
  ghost predicate CompleteBut(st: RedisState, k: string, h: string) {
    forall o :: o in st.entries ==>
      && st.entries[o].key == o
      && (o in Listed(st.index, st.entries[o].hash) || (o == k && st.entries[o].hash == h))
  }

  lemma StepKeepsRest(hashOf: string -> string, st: RedisState, op: RedisOp, k: string, h: string)
    requires CompleteBut(st, k, h)
    ensures CompleteBut(RedisStep(hashOf, st, op).0, k, h)
  {
    var st' := RedisStep(hashOf, st, op).0;
    forall o | o in st'.entries
      ensures st'.entries[o].key == o
      ensures o in Listed(st'.index, st'.entries[o].hash) || (o == k && st'.entries[o].hash == h)
    {
      ListedAfter(hashOf, st, op, st'.entries[o].hash, o);
    }
  }

  lemma {:induction false} RunKeepsRest(hashOf: string -> string, st: RedisState, ops: seq<RedisOp>, k: string,
        h: string)
    requires CompleteBut(st, k, h)
    ensures CompleteBut(RunFrom(hashOf, st, ops), k, h)
  {
    if ops != [] {
      RunKeepsRest(hashOf, st, ops[..|ops| - 1], k, h);
      StepKeepsRest(hashOf, RunFrom(hashOf, st, ops[..|ops| - 1]), ops[|ops| - 1], k, h);
    }
  }

  /** A set stores the entry and then lists it; whatever happens in between, the index is complete
  afterwards. */
  lemma LateListing(hashOf: string -> string, ops: seq<RedisOp>, others: seq<RedisOp>, k: string, v: string,
        ttl: Option<Time>, now: Time)
    requires Accepted(ttl)
    ensures var st, e := RedisRun(hashOf, ops), Fresh(hashOf, k, v, ttl, now);
      var half := st.(entries := st.entries[k := e]);
      var late := RunFrom(hashOf, half, others);
      && RedisStep(hashOf, st, RedisOp.Set(k, v, ttl, now)).0 == half.(index := AddMember(half.index, e.hash, k))
      && Complete(late.(index := AddMember(late.index, e.hash, k)))
  {
    var st, e := RedisRun(hashOf, ops), Fresh(hashOf, k, v, ttl, now);
    var half := st.(entries := st.entries[k := e]);
    var late := RunFrom(hashOf, half, others);
    RunComplete(hashOf, ops);
    RunKeepsRest(hashOf, half, others, k, e.hash);
    forall o | o in late.entries ensures o in Listed(AddMember(late.index, e.hash, k), late.entries[o].hash) {
      ListedAdd(late.index, e.hash, k, late.entries[o].hash);
    }
  }

  // ---------- what the other operations tell ----------

  /** `has` does not look at lifetimes: it is true for every key a get would hit, and true for a
  key a get would miss exactly when the entry is past its time and the server still holds it. */
  lemma HasAgainstGet(hashOf: string -> string, st: RedisState, k: string, now: Time, at: Time)
    ensures var has, got := RedisStep(hashOf, st, RedisOp.Has(k)), RedisStep(hashOf, st, RedisOp.Get(k, now, at)).1;
      && has.0 == st
      && (got.entry.Some? ==> has.1 == Flag(true))
      && (has.1 == Flag(true) && got.entry.None? <==> k in st.entries && st.entries[k].IsExpired(now))
  {}

  /** The count of `clear` is the number of entries exactly when nothing is listed. */
  lemma ClearCounts(hashOf: string -> string, st: RedisState)
    ensures RedisStep(hashOf, st, RedisOp.Clear).1 == Count(|st.entries|) <==> st.index == map[]
  {
    assert |st.index| == 0 <==> st.index == map[];
  }

  /** A cache with one stored entry counts two. */
  lemma ClearCountsOneTwice(hashOf: string -> string, k: string, v: string, now: Time)
    ensures RedisStep(hashOf, RedisRun(hashOf, [RedisOp.Set(k, v, None, now)]), RedisOp.Clear).1 == Count(2)
  {
    AfterOneSet(hashOf, k, v, now);
    assert |map[hashOf(v) := {k}]| == 1 && |map[k := Fresh(hashOf, k, v, None, now)]| == 1;
  }

  // ---------- the class ----------

  /** One more key counts once, if it was stored. */
  lemma CountOneMore(done: set<string>, key: string, stored: set<string>)
    requires key !in done
    ensures |(done + {key}) * stored| == |done * stored| + if key in stored then 1 else 0
  {
    assert (done + {key}) * stored == if key in stored then done * stored + {key} else done * stored;
  }

  lemma RemoveOneMore<V>(done: set<string>, key: string, stored: map<string, V>)
    requires key !in done
    ensures key in stored - done <==> key in stored
    ensures stored - (done + {key}) == if key in stored then stored - done - {key} else stored - done
  {}

  lemma RemoveAbsent<V>(m: map<string, V>, s: set<string>)
    requires m.Keys !! s
    ensures m - s == m
  {}

  lemma NothingListed(hashOf: string -> string, st: RedisState, h: string)
    requires h !in st.index
    ensures RedisStep(hashOf, st, RedisOp.InvalidateByHash(h)) == (st, Count(0))
  {
    RemoveAbsent(st.index, {h});
    RemoveAbsent(st.entries, {});
    assert Listed(st.index, h) * st.entries.Keys == {};
  }

  class RedisCache {
    const hashOf: string -> string
    var entries: map<string, CacheEntry>
    var index: map<string, set<string>>
    var hits: nat
    var misses: nat

    ghost function State(): RedisState
      reads this
    {
      RedisState(entries, index, hits, misses)
    }

    ghost predicate Valid()
      reads this
    {
      forall h :: h in index ==> index[h] != {}
    }

    constructor (hashOf: string -> string)
      ensures Valid()
      ensures this.hashOf == hashOf && State() == EMPTY_REDIS
    {
      this.hashOf := hashOf;
      entries, index, hits, misses := map[], map[], 0, 0;
    }

    method Get(key: string, now: Time, accessedAt: Time) returns (r: Option<CacheEntry>)
      requires Valid()
      modifies this
      ensures Valid()
      ensures (State(), Entry(r)) == RedisStep(hashOf, old(State()), RedisOp.Get(key, now, accessedAt))
    {
      if key !in entries {
        misses := misses + 1;
        return None;
      }
      var data := entries[key];
      if data.IsExpired(now) {
        entries := entries - {key};
        misses := misses + 1;
        return None;
      }
      var entry := data.(hitCount := data.hitCount + 1, lastAccessed := accessedAt);
      entries := entries[key := entry];
      hits := hits + 1;
      return Some(entry);
    }

    method Set(key: string, value: string, ttl: Option<Time>, now: Time) returns (entry: CacheEntry)
      requires Valid()
      modifies this
      ensures Valid()
      ensures (State(), Entry(Some(entry))) == RedisStep(hashOf, old(State()), RedisOp.Set(key, value, ttl, now))
    {
      entry := Fresh(hashOf, key, value, ttl, now);
      if !Accepted(ttl) {
        return;
      }
      entries := entries[key := entry];
      index := AddMember(index, entry.hash, key);
    }

    method Delete(key: string) returns (deleted: bool)
      requires Valid()
      modifies this
      ensures Valid()
      ensures (State(), Flag(deleted)) == RedisStep(hashOf, old(State()), RedisOp.Delete(key))
    {
      if key in entries {
        index := RemoveMember(index, entries[key].hash, key);
      }
      deleted := key in entries;
      assert !deleted ==> entries - {key} == entries;
      entries := entries - {key};
    }

    method Clear() returns (count: nat)
      requires Valid()
      modifies this
      ensures Valid()
      ensures (State(), Count(count)) == RedisStep(hashOf, old(State()), RedisOp.Clear)
    {
      count := |entries| + |index|;
      entries, index := map[], map[];
    }

    method InvalidateByHash(hash: string) returns (count: nat)
      requires Valid()
      modifies this
      ensures Valid()
      ensures (State(), Count(count)) == RedisStep(hashOf, old(State()), RedisOp.InvalidateByHash(hash))
    {
      var keys := Listed(index, hash);
      if keys == {} {
        NothingListed(hashOf, State(), hash);
        return 0;
      }
      count := DeleteMembers(keys);
      index := index - {hash};
    }

    /** Deletes the keys one by one in any order, counting those that were stored. */
    method DeleteMembers(keys: set<string>) returns (count: nat)
      modifies `entries
      ensures entries == old(entries) - keys
      ensures count == |keys * old(entries).Keys|
    {
      count := 0;
      var todo := keys;
      while todo != {}
        invariant todo <= keys
        invariant entries == old(entries) - (keys - todo)
        invariant count == |(keys - todo) * old(entries).Keys|
        decreases todo
      {
        var key :| key in todo;
        ghost var done := keys - todo;
        assert keys - (todo - {key}) == done + {key};
        CountOneMore(done, key, old(entries).Keys);
        RemoveOneMore(done, key, old(entries));
        if key in entries {
          entries := entries - {key};
          count := count + 1;
        }
        todo := todo - {key};
      }
      assert keys - todo == keys;
    }

    method Has(key: string) returns (present: bool)
      ensures present <==> key in entries
    {
      present := key in entries;
    }
  }
}
