/** What the Redis cache returns, told from the operations alone: which set it goes back to and what
happened since (rice_factor/adapters/cache/redis_cache.py). */
module RedisHistory {
  import opened Sequences
  import opened MemoryCaches
  import opened RedisCaches

  /** The server takes an entry without a lifetime, or with one of a second or more. */
  ghost predicate Stores(op: RedisOp, k: string) {
    op.Set? && op.key == k && (op.ttl.None? || op.ttl.value >= 1000000)
  }

  ghost predicate Outlived(op: RedisOp, at: Time)
    requires op.Set?
  {
    op.ttl.Some? && at > op.now + op.ttl.value
  }

  /** What a set stores: the entry as it is, and one more listing. Below a second it stores nothing,
  though the caller gets the same entry. */
  lemma SetExactly(hashOf: string -> string, st: RedisState, k: string, v: string, ttl: Option<Time>, now: Time)
    ensures var (after, reply) := RedisStep(hashOf, st, RedisOp.Set(k, v, ttl, now));
      var e := CacheEntry(k, v, hashOf(v), now, if ttl.Some? then Some(now + ttl.value) else None, 0, now);
      && reply == Entry(Some(e))
      && (ttl.Some? && ttl.value < 1000000 ==> after == st)
      && (ttl.None? || ttl.value >= 1000000 ==>
            && after.entries == st.entries[k := e] && after.hits == st.hits && after.misses == st.misses
            && forall h, o :: (h in after.index && o in after.index[h])
                 <==> (h in st.index && o in st.index[h]) || (h == hashOf(v) && o == k))
  {
    var after := RedisStep(hashOf, st, RedisOp.Set(k, v, ttl, now)).0;
    if Accepted(ttl) {
      forall h, o ensures (h in after.index && o in after.index[h])
        <==> (h in st.index && o in st.index[h]) || (h == hashOf(v) && o == k)
      {
        ListedAdd(st.index, hashOf(v), k, h);
      }
    }
  }

  /** Operation j removes what operation i stored under k. */
  ghost predicate Removes(hashOf: string -> string, ops: seq<RedisOp>, i: int, j: int, k: string)
    requires 0 <= i < |ops| && 0 <= j < |ops| && ops[i].Set?
  {
    match ops[j]
    case Get(key, now, _) => key == k && Outlived(ops[i], now)
    case Set(_, _, _, _) => Stores(ops[j], k)
    case Delete(key) => key == k
    case Clear => true
    case InvalidateByHash(h) => StillListed(hashOf, ops[..j], h, k)
    case Has(_) => false
    case Expire(key) => key == k
  }

  /** What operation i stored under k has not been removed since. */
  ghost predicate Standing(hashOf: string -> string, ops: seq<RedisOp>, i: int, k: string) {
    && 0 <= i < |ops| && Stores(ops[i], k)
    && forall j :: i < j < |ops| ==> !Removes(hashOf, ops, i, j, k)
  }

  lemma StandingEarlier(hashOf: string -> string, ops: seq<RedisOp>, i: int, k: string)
    requires 0 <= i < |ops| - 1
    ensures Standing(hashOf, ops, i, k) <==>
      Standing(hashOf, ops[..|ops| - 1], i, k) && !Removes(hashOf, ops, i, |ops| - 1, k)
  {
    var before := ops[..|ops| - 1];
    if Stores(ops[i], k) {
      forall j | i < j < |before| ensures Removes(hashOf, ops, i, j, k) == Removes(hashOf, before, i, j, k) {
        assert before[..j] == ops[..j];
      }
    }
  }

  ghost function LookupsSince(ops: seq<RedisOp>, i: int, k: string): nat {
    if |ops| - 1 <= i || ops == [] then 0
    else
      var last := ops[|ops| - 1];
      LookupsSince(ops[..|ops| - 1], i, k) + if last.Get? && last.key == k then 1 else 0
  }

  /** When k was last looked up after operation i, or else stored. */
  ghost function LastSeen(ops: seq<RedisOp>, i: int, k: string): Time
    requires 0 <= i < |ops| && ops[i].Set?
  {
    var last := ops[|ops| - 1];
    if i == |ops| - 1 then ops[i].now
    else if last.Get? && last.key == k then last.accessedAt
    else LastSeen(ops[..|ops| - 1], i, k)
  }

  /** The entry of the set at position i with the lookups since counted. */
  ghost function Present(hashOf: string -> string, ops: seq<RedisOp>, i: int): CacheEntry
    requires 0 <= i < |ops| && ops[i].Set?
  {
    var op := ops[i];
    CacheEntry(op.key, op.value, hashOf(op.value), op.now,
      if op.ttl.Some? then Some(op.now + op.ttl.value) else None,
      LookupsSince(ops, i, op.key), LastSeen(ops, i, op.key))
  }

  /** The operation takes an entry away that is stored under k. */
  ghost predicate Drops(st: RedisState, op: RedisOp, k: string, e: CacheEntry) {
    match op
    case Get(key, now, _) => key == k && e.expiresAt.Some? && now > e.expiresAt.value
    case Set(_, _, _, _) => Stores(op, k)
    case Delete(key) => key == k
    case Clear => true
    case InvalidateByHash(h) => k in Listed(st.index, h)
    case Has(_) => false
    case Expire(key) => key == k
  }

  ghost function Seen(op: RedisOp, k: string, e: CacheEntry): CacheEntry {
    if op.Get? && op.key == k then e.(hitCount := e.hitCount + 1, lastAccessed := op.accessedAt) else e
  }

  lemma StepOnEntry(hashOf: string -> string, st: RedisState, op: RedisOp, k: string)
    ensures var after := RedisStep(hashOf, st, op).0;
      !Stores(op, k) ==>
        && (k in after.entries <==> k in st.entries && !Drops(st, op, k, st.entries[k]))
        && (k in after.entries ==> after.entries[k] == Seen(op, k, st.entries[k]))
  {}

  lemma PresentOneMore(hashOf: string -> string, ops: seq<RedisOp>, i: int)
    requires 0 <= i < |ops| - 1 && ops[i].Set?
    ensures Present(hashOf, ops, i) == Seen(ops[|ops| - 1], ops[i].key, Present(hashOf, ops[..|ops| - 1], i))
  {}

  /** Dropping an entry is removing what the set at position i stored. */
  lemma DropsIsRemoves(hashOf: string -> string, ops: seq<RedisOp>, i: int, k: string)
    requires 0 <= i < |ops| - 1 && Stores(ops[i], k)
    ensures Removes(hashOf, ops, i, |ops| - 1, k) <==> var before := ops[..|ops| - 1];
      Drops(RedisRun(hashOf, before), ops[|ops| - 1], k, Present(hashOf, before, i))
  {
    var before, op := ops[..|ops| - 1], ops[|ops| - 1];
    if op.InvalidateByHash? {
      IndexIsHistory(hashOf, before, op.hash, k);
    }
  }

  /** One operation that does not remove an entry keeps it, and counts a lookup. */
  lemma StepKeepsEntry(hashOf: string -> string, ops: seq<RedisOp>, i: int, k: string)
    requires 0 <= i < |ops| - 1 && Stores(ops[i], k) && !Removes(hashOf, ops, i, |ops| - 1, k)
    requires var st := RedisRun(hashOf, ops[..|ops| - 1]);
      k in st.entries && st.entries[k] == Present(hashOf, ops[..|ops| - 1], i)
    ensures k in RedisRun(hashOf, ops).entries && RedisRun(hashOf, ops).entries[k] == Present(hashOf, ops, i)
  {
    DropsIsRemoves(hashOf, ops, i, k);
    PresentOneMore(hashOf, ops, i);
    StepOnEntry(hashOf, RedisRun(hashOf, ops[..|ops| - 1]), ops[|ops| - 1], k);
  }

  /** What stands is stored, with exactly the lookups since then counted. */
  lemma {:induction false} StandingIsLive(hashOf: string -> string, ops: seq<RedisOp>, i: int, k: string)
    requires Standing(hashOf, ops, i, k)
    ensures k in RedisRun(hashOf, ops).entries && RedisRun(hashOf, ops).entries[k] == Present(hashOf, ops, i)
  {
    if i < |ops| - 1 {
      StandingEarlier(hashOf, ops, i, k);
      StandingIsLive(hashOf, ops[..|ops| - 1], i, k);
      StepKeepsEntry(hashOf, ops, i, k);
    }
  }

  lemma WasLive(hashOf: string -> string, ops: seq<RedisOp>, k: string)
    requires ops != [] && !Stores(ops[|ops| - 1], k) && k in RedisRun(hashOf, ops).entries
    ensures var st := RedisRun(hashOf, ops[..|ops| - 1]);
      k in st.entries && !Drops(st, ops[|ops| - 1], k, st.entries[k])
  {
    StepOnEntry(hashOf, RedisRun(hashOf, ops[..|ops| - 1]), ops[|ops| - 1], k);
  }

  /** Every stored entry goes back to a set of its key that still stands. */
  lemma {:induction false} LiveStands(hashOf: string -> string, ops: seq<RedisOp>, k: string) returns (i: int)
    requires k in RedisRun(hashOf, ops).entries
    ensures Standing(hashOf, ops, i, k)
  {
    var before, op := ops[..|ops| - 1], ops[|ops| - 1];
    if Stores(op, k) {
      i := |ops| - 1;
    } else {
      WasLive(hashOf, ops, k);
      i := LiveStands(hashOf, before, k);
      StandingIsLive(hashOf, before, i, k);
      DropsIsRemoves(hashOf, ops, i, k);
      StandingEarlier(hashOf, ops, i, k);
    }
  }

  ghost function ReplyTo(hashOf: string -> string, ops: seq<RedisOp>, n: nat): Reply
    requires n < |ops|
  {
    RedisStep(hashOf, RedisRun(hashOf, ops[..n]), ops[n]).1
  }

  lemma GetReply(hashOf: string -> string, st: RedisState, op: RedisOp)
    requires op.Get?
    ensures var r := RedisStep(hashOf, st, op).1;
      && r.Entry?
      && (r.entry.Some? <==> op.key in st.entries && !Drops(st, op, op.key, st.entries[op.key]))
      && (r.entry.Some? ==> r.entry.value == Seen(op, op.key, st.entries[op.key]))
  {}

  lemma StandingLasts(hashOf: string -> string, ops: seq<RedisOp>, n: nat, i: int)
    requires n < |ops| && ops[n].Get? && Standing(hashOf, ops[..n], i, ops[n].key)
    ensures var st, k := RedisRun(hashOf, ops[..n]), ops[n].key;
      && k in st.entries
      && (Drops(st, ops[n], k, st.entries[k]) <==> Outlived(ops[i], ops[n].now))
      && Seen(ops[n], k, st.entries[k]) == Present(hashOf, ops[..n + 1], i)
  {
    var now := ops[..n + 1];
    assert now[..n] == ops[..n];
    StandingIsLive(hashOf, ops[..n], i, ops[n].key);
    PresentOneMore(hashOf, now, i);
  }

  /** A lookup hits exactly when some set of the key still stands and its lifetime is not over, and it
  returns what that set stored, this lookup and the earlier ones counted. */
  lemma HitExactly(hashOf: string -> string, ops: seq<RedisOp>, n: nat)
    requires n < |ops| && ops[n].Get?
    ensures var r := ReplyTo(hashOf, ops, n);
      && r.Entry?
      && (r.entry.Some? <==> exists i :: Standing(hashOf, ops[..n], i, ops[n].key) && !Outlived(ops[i], ops[n].now))
      && forall i :: r.entry.Some? && Standing(hashOf, ops[..n], i, ops[n].key) ==>
           r.entry.value == Present(hashOf, ops[..n + 1], i)
  {
    var before, k, r := ops[..n], ops[n].key, ReplyTo(hashOf, ops, n);
    GetReply(hashOf, RedisRun(hashOf, before), ops[n]);
    forall i | Standing(hashOf, before, i, k)
      ensures r.entry.Some? <==> !Outlived(ops[i], ops[n].now)
      ensures r.entry.Some? ==> r.entry.value == Present(hashOf, ops[..n + 1], i)
    {
      StandingLasts(hashOf, ops, n, i);
    }
    if r.entry.Some? {
      var i := LiveStands(hashOf, before, k);
    }
  }

  /** A delete, a presence check, or the server dropping a key, says true exactly when some set of the
  key still stands. */
  lemma PresenceExactly(hashOf: string -> string, ops: seq<RedisOp>, n: nat)
    requires n < |ops| && (ops[n].Delete? || ops[n].Has? || ops[n].Expire?)
    ensures ReplyTo(hashOf, ops, n) == Flag(exists i :: Standing(hashOf, ops[..n], i, ops[n].key))
  {
    var before, k := ops[..n], ops[n].key;
    forall i | Standing(hashOf, before, i, k) ensures k in RedisRun(hashOf, before).entries {
      StandingIsLive(hashOf, before, i, k);
    }
    if k in RedisRun(hashOf, before).entries {
      var i := LiveStands(hashOf, before, k);
    }
  }

  ghost function LookupsIn(hashOf: string -> string, ops: seq<RedisOp>, answered: bool): nat {
    if ops == [] then 0
    else
      var n := |ops| - 1;
      LookupsIn(hashOf, ops[..n], answered)
      + if ops[n].Get? && ReplyTo(hashOf, ops, n).entry.Some? == answered then 1 else 0
  }

  /** The counters are the lookups with and without an answer. */
  lemma {:induction false} CountersAreLookups(hashOf: string -> string, ops: seq<RedisOp>)
    ensures RedisRun(hashOf, ops).hits == LookupsIn(hashOf, ops, true)
    ensures RedisRun(hashOf, ops).misses == LookupsIn(hashOf, ops, false)
  {
    if ops != [] {
      CountersAreLookups(hashOf, ops[..|ops| - 1]);
    }
  }
}
