/** What a lookup returns, told from the operations alone: which Set it goes back to and what
happened since. */
module LruHistory {
  import opened Sequences
  import opened MemoryCaches
  import opened LruReference

  ghost predicate PastTime(e: CacheEntry, now: Time) {
    e.expiresAt.Some? && now > e.expiresAt.value
  }

  /** Operation `op` ends the life of entry e, capacity aside. */
  ghost predicate Ends(op: Op, e: CacheEntry) {
    match op
    case Get(k, now, _) => k == e.key && PastTime(e, now)
    case Set(k, _, _, _) => k == e.key
    case Delete(k) => k == e.key
    case Clear => true
    case InvalidateByHash(h) => h == e.hash
    case Has(k, now) => k == e.key && PastTime(e, now)
    case CleanupExpired(now) => PastTime(e, now)
  }

  /** Operation j stores another key into a full cache of which k is the least recent key. */
  ghost predicate Evicts(cfg: Config, ops: seq<Op>, j: int, k: string)
    requires 0 <= j < |ops|
  {
    ops[j].Set? && ops[j].key != k
    && var rest := RefRun(cfg, ops[..j]) - {ops[j].key};
       |rest| >= cfg.maxSize && k in LeastRecent(rest)
  }

  ghost function Written(cfg: Config, op: Op): CacheEntry
    requires op.Set?
  {
    var t := if op.ttl.Some? then op.ttl else cfg.defaultTtl;
    CacheEntry(op.key, op.value, cfg.hashOf(op.value), op.now,
      if t.Some? then Some(op.now + t.value) else None, 0, op.now)
  }

  /** What the Set at position i stored under k has been neither ended nor evicted since. */
  ghost predicate Stands(cfg: Config, ops: seq<Op>, i: int, k: string) {
    && 0 <= i < |ops| && ops[i].Set? && ops[i].key == k
    && forall j :: i < j < |ops| ==> !Ends(ops[j], Written(cfg, ops[i])) && !Evicts(cfg, ops, j, k)
  }

  lemma StandsEarlier(cfg: Config, ops: seq<Op>, i: int, k: string)
    requires ops != [] && 0 <= i < |ops| - 1
    ensures Stands(cfg, ops, i, k) <==>
      Stands(cfg, ops[..|ops| - 1], i, k)
      && !Ends(ops[|ops| - 1], Written(cfg, ops[i])) && !Evicts(cfg, ops, |ops| - 1, k)
  {
    var before := ops[..|ops| - 1];
    forall j | 0 <= j < |before| ensures Evicts(cfg, ops, j, k) == Evicts(cfg, before, j, k) {
      EvictsEarlier(cfg, ops, j, k);
    }
    if Stands(cfg, ops, i, k) {
      forall j | i < j < |before| ensures !Ends(before[j], Written(cfg, before[i])) && !Evicts(cfg, before, j, k) {
        assert before[j] == ops[j] && !Ends(ops[j], Written(cfg, ops[i]));
      }
    }
  }

  lemma EvictsEarlier(cfg: Config, ops: seq<Op>, j: int, k: string)
    requires 0 <= j < |ops| - 1
    ensures Evicts(cfg, ops, j, k) == Evicts(cfg, ops[..|ops| - 1], j, k)
  {
    assert ops[..|ops| - 1][..j] == ops[..j];
  }

  /** How often k has been looked up after position i. */
  ghost function HitsSince(ops: seq<Op>, i: int, k: string): nat {
    if |ops| - 1 <= i || ops == [] then 0
    else
      var last := ops[|ops| - 1];
      HitsSince(ops[..|ops| - 1], i, k) + if last.Get? && last.key == k then 1 else 0
  }

  /** When k was last looked up after the Set at position i, or else stored. */
  ghost function LastUse(ops: seq<Op>, i: int, k: string): Time
    requires 0 <= i < |ops| && ops[i].Set?
  {
    var last := ops[|ops| - 1];
    if i == |ops| - 1 then ops[i].now
    else if last.Get? && last.key == k then last.accessedAt
    else LastUse(ops[..|ops| - 1], i, k)
  }

  /** The entry of the Set at position i with the lookups since counted. */
  ghost function Current(cfg: Config, ops: seq<Op>, i: int): CacheEntry
    requires 0 <= i < |ops| && ops[i].Set?
  {
    Written(cfg, ops[i]).(hitCount := HitsSince(ops, i, ops[i].key), lastAccessed := LastUse(ops, i, ops[i].key))
  }

  /** The lifetime given to the Set, or else the default one, is over. */
  ghost predicate Outlived(cfg: Config, op: Op, at: Time)
    requires op.Set?
  {
    match op.ttl
    case Some(t) => at > op.now + t
    case None => cfg.defaultTtl.Some? && at > op.now + cfg.defaultTtl.value
  }

  /** An entry that is there after an operation other than its own Set was there before, and the
  operation neither ended nor evicted it. */
  lemma WasThereBefore(cfg: Config, m: Table, n: nat, op: Op, k: string)
    requires k in RefStep(cfg, m, n, op).0 && !(op.Set? && op.key == k)
    ensures k in m && (m[k].entry.key == k ==> !Ends(op, m[k].entry))
    ensures op.Set? && |m - {op.key}| >= cfg.maxSize ==> k !in LeastRecent(m - {op.key})
  {}

  /** One operation that neither ends nor evicts an entry keeps it, and counts a lookup. */
  lemma StepKeeps(cfg: Config, m: Table, n: nat, op: Op, k: string)
    requires k in m && m[k].entry.key == k && !Ends(op, m[k].entry)
    requires op.Set? && |m - {op.key}| >= cfg.maxSize ==> k !in LeastRecent(m - {op.key})
    ensures k in RefStep(cfg, m, n, op).0
    ensures RefStep(cfg, m, n, op).0[k].entry ==
      if op.Get? && op.key == k
      then m[k].entry.(hitCount := m[k].entry.hitCount + 1, lastAccessed := op.accessedAt)
      else m[k].entry
  {
    if op.Set? {
      assert k in m - {op.key};
    }
  }

  /** An entry that still stands is stored, with exactly the lookups since then counted. */
  lemma {:induction false} StandingIsStored(cfg: Config, ops: seq<Op>, i: int, k: string)
    requires cfg.maxSize >= 1 && Stands(cfg, ops, i, k)
    ensures k in RefRun(cfg, ops) && RefRun(cfg, ops)[k].entry == Current(cfg, ops, i)
  {
    if i < |ops| - 1 {
      var before, op := ops[..|ops| - 1], ops[|ops| - 1];
      StandsEarlier(cfg, ops, i, k);
      StandingIsStored(cfg, before, i, k);
      assert !Ends(op, Current(cfg, before, i));
      StepKeeps(cfg, RefRun(cfg, before), |ops| - 1, op, k);
    }
  }

  /** Every stored entry goes back to a Set of its key that still stands. */
  lemma {:induction false} StoredStands(cfg: Config, ops: seq<Op>, k: string) returns (i: int)
    requires cfg.maxSize >= 1 && k in RefRun(cfg, ops)
    ensures Stands(cfg, ops, i, k)
  {
    var before, op := ops[..|ops| - 1], ops[|ops| - 1];
    if op.Set? && op.key == k {
      i := |ops| - 1;
    } else {
      WasThereBefore(cfg, RefRun(cfg, before), |before|, op, k);
      i := StoredStands(cfg, before, k);
      StandingIsStored(cfg, before, i, k);
      assert !Ends(op, Written(cfg, ops[i]));
      StandsEarlier(cfg, ops, i, k);
    }
  }

  /** A lookup hits exactly when some Set of the key still stands and has not been outlived, and
  it returns what that Set stored, this lookup and the earlier ones counted. */
  lemma HitExactlyWhenStanding(cfg: Config, ops: seq<Op>, n: nat)
    requires cfg.maxSize >= 1 && n < |ops| && ops[n].Get?
    ensures ReplyAt(cfg, ops, n).entry.Some? <==>
      exists i :: Stands(cfg, ops[..n], i, ops[n].key) && !Outlived(cfg, ops[i], ops[n].now)
    ensures forall i :: ReplyAt(cfg, ops, n).entry.Some? && Stands(cfg, ops[..n], i, ops[n].key) ==>
      ReplyAt(cfg, ops, n).entry.value == Current(cfg, ops[..n + 1], i)
  {
    var before, k := ops[..n], ops[n].key;
    RepliesAgree(cfg, ops, n);
    assert ops[..n + 1][..n] == before;
    forall i | Stands(cfg, before, i, k)
      ensures k in RefRun(cfg, before) && RefRun(cfg, before)[k].entry == Current(cfg, before, i)
      ensures Outlived(cfg, ops[i], ops[n].now) == RefRun(cfg, before)[k].entry.IsExpired(ops[n].now)
    {
      StandingIsStored(cfg, before, i, k);
      assert ops[i] == before[i];
    }
    if k in RefRun(cfg, before) {
      var i := StoredStands(cfg, before, k);
    }
  }
}
