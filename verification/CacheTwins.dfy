/** The memory cache and the Redis cache implement one interface. This module says when a caller
cannot tell which of the two it talks to: exactly as long as no operation reaches an entry that
the Redis server has dropped by itself while the memory cache still holds it. */
module CacheTwins {
  import opened Sequences
  import opened MemoryCaches
  import opened LruReference
  import opened RedisCaches

  /** The operations that are meant alike, and the server dropping a key by itself, as it does
  with lifetimes, counted in whole seconds, that are over. `clear` counts differently, `has`
  looks at expiry only in the memory cache, and only that one can clean up. */
  datatype TwinOp =
    | Find(key: string, now: Time, at: Time)
    | Put(key: string, value: string, ttl: Option<Time>, now: Time)
    | Remove(key: string)
    | Invalidate(hash: string)
    | Vanish(key: string)

  function Mem(op: TwinOp): Op
    requires !op.Vanish?
  {
    match op
    case Find(k, now, at) => Op.Get(k, now, at)
    case Put(k, v, ttl, now) => Op.Set(k, v, ttl, now)
    case Remove(k) => Op.Delete(k)
    case Invalidate(h) => Op.InvalidateByHash(h)
  }

  function Red(op: TwinOp): RedisOp {
    match op
    case Find(k, now, at) => RedisOp.Get(k, now, at)
    case Put(k, v, ttl, now) => RedisOp.Set(k, v, ttl, now)
    case Remove(k) => RedisOp.Delete(k)
    case Invalidate(h) => RedisOp.InvalidateByHash(h)
    case Vanish(k) => RedisOp.Expire(k)
  }

  /** What the memory cache sees of a run. */
  function MemOps(ops: seq<TwinOp>): seq<Op> {
    if ops == [] then []
    else
      var before, op := MemOps(ops[..|ops| - 1]), ops[|ops| - 1];
      if op.Vanish? then before else before + [Mem(op)]
  }

  function RedOps(ops: seq<TwinOp>): (r: seq<RedisOp>)
    ensures |r| == |ops| && forall i :: 0 <= i < |ops| ==> r[i] == Red(ops[i])
  {
    seq(|ops|, i requires 0 <= i < |ops| => Red(ops[i]))
  }

  // ---------- one operation ----------

  /** Keys that both hold have the same entry. */
  ghost predicate Alike(m: Table, st: RedisState) {
    forall k :: k in m && k in st.entries ==> m[k].entry == st.entries[k]
  }

  /** Only one side holds the key. */
  ghost predicate Alone(m: Table, st: RedisState, k: string) {
    (k in m) != (k in st.entries)
  }

  /** The operation finds or removes an entry that only one side holds, or invalidates entries of
  which the two sides hold, or list, different numbers. */
  ghost predicate Parted(m: Table, st: RedisState, op: TwinOp) {
    match op
    case Find(k, now, _) =>
      Alone(m, st, k) && !(if k in m then m[k].entry else st.entries[k]).IsExpired(now)
    case Remove(k) => Alone(m, st, k)
    case Invalidate(h) => |Retain(m, HasHash(h))| != |Listed(st.index, h) * st.entries.Keys|
    case _ => false
  }

  /** The server takes the lifetime, and it is not left to the default of the memory cache. */
  ghost predicate StoredAlike(cfg: Config, op: TwinOp) {
    op.Put? ==> Accepted(op.ttl) && (op.ttl.Some? || cfg.defaultTtl.None?)
  }

  /** Both sides after an operation that both see, with the replies. */
  ghost predicate Twins(cfg: Config, m: Table, n: nat, st: RedisState, op: TwinOp)
    requires !op.Vanish?
  {
    && Alike(RefStep(cfg, m, n, Mem(op)).0, RedisStep(cfg.hashOf, st, Red(op)).0)
    && (RefStep(cfg, m, n, Mem(op)).1 == RedisStep(cfg.hashOf, st, Red(op)).1 <==> !Parted(m, st, op))
  }

  lemma FindTwins(cfg: Config, m: Table, n: nat, st: RedisState, k: string, now: Time, at: Time)
    requires Alike(m, st)
    ensures Twins(cfg, m, n, st, Find(k, now, at))
  {}

  lemma RemoveTwins(cfg: Config, m: Table, n: nat, st: RedisState, k: string)
    requires Alike(m, st)
    ensures Twins(cfg, m, n, st, Remove(k))
  {}

  /** What a put leaves: the new entry, and some of the old ones. */
  lemma RefPut(cfg: Config, m: Table, n: nat, k: string, v: string, ttl: Option<Time>, now: Time) returns (room: Table)
    ensures var e := NewEntry(cfg, k, v, ttl, now);
      && RefStep(cfg, m, n, Op.Set(k, v, ttl, now)).0 == room[k := Stamped(e, n)]
      && RefStep(cfg, m, n, Op.Set(k, v, ttl, now)).1 == Entry(Some(e))
    ensures forall o :: o in room ==> o in m && o != k && room[o] == m[o]
    ensures |m - {k}| < cfg.maxSize ==> room == m - {k}
  {
    room := MakeRoom(cfg, m - {k}).0;
  }

  lemma RedPut(cfg: Config, st: RedisState, k: string, v: string, ttl: Option<Time>, now: Time)
      returns (after: RedisState)
    requires StoredAlike(cfg, Put(k, v, ttl, now))
    ensures var e := NewEntry(cfg, k, v, ttl, now);
      && RedisStep(cfg.hashOf, st, RedisOp.Set(k, v, ttl, now)) == (after, Entry(Some(e)))
      && after.entries == st.entries[k := e]
  {
    assert RedisCaches.Fresh(cfg.hashOf, k, v, ttl, now) == NewEntry(cfg, k, v, ttl, now);
    after := RedisStep(cfg.hashOf, st, RedisOp.Set(k, v, ttl, now)).0;
  }

  lemma AlikePut(m: Table, room: Table, st: RedisState, after: RedisState, k: string, e: CacheEntry, n: nat)
    requires Alike(m, st) && forall o :: o in room ==> o in m && room[o] == m[o]
    requires after.entries == st.entries[k := e]
    ensures Alike(room[k := Stamped(e, n)], after)
  {}

  lemma PutTwins(cfg: Config, m: Table, n: nat, st: RedisState, k: string, v: string, ttl: Option<Time>, now: Time)
    requires Alike(m, st) && StoredAlike(cfg, Put(k, v, ttl, now))
    ensures Twins(cfg, m, n, st, Put(k, v, ttl, now))
  {
    var room := RefPut(cfg, m, n, k, v, ttl, now);
    var after := RedPut(cfg, st, k, v, ttl, now);
    AlikePut(m, room, st, after, k, NewEntry(cfg, k, v, ttl, now), n);
  }

  lemma InvalidateTwins(cfg: Config, m: Table, n: nat, st: RedisState, h: string)
    requires Alike(m, st)
    ensures Twins(cfg, m, n, st, Invalidate(h))
  {}

  /** One operation keeps common keys alike, and gets the same reply from both sides exactly when it
  does not part them; a key dropped by the server keeps them alike, too. */
  lemma StepTwins(cfg: Config, m: Table, n: nat, st: RedisState, op: TwinOp)
    requires Alike(m, st) && StoredAlike(cfg, op)
    ensures op.Vanish? ==> Alike(m, RedisStep(cfg.hashOf, st, Red(op)).0)
    ensures !op.Vanish? ==> Twins(cfg, m, n, st, op)
  {
    match op
    case Find(k, now, at) => FindTwins(cfg, m, n, st, k, now, at);
    case Put(k, v, ttl, now) => PutTwins(cfg, m, n, st, k, v, ttl, now);
    case Remove(k) => RemoveTwins(cfg, m, n, st, k);
    case Invalidate(h) => InvalidateTwins(cfg, m, n, st, h);
    case Vanish(_) =>
  }

  // ---------- when the memory cache never evicts ----------

  /** Every entry of the server is that of the memory cache. */
  ghost predicate Near(m: Table, st: RedisState) {
    forall k :: k in st.entries ==> k in m && m[k].entry == st.entries[k]
  }

  /** The memory cache still holds what the server has dropped. */
  ghost predicate Dropped(m: Table, st: RedisState, k: string) {
    k in m && k !in st.entries
  }

  /** The operation finds, removes or invalidates such an entry. */
  ghost predicate Reaches(m: Table, st: RedisState, op: TwinOp) {
    match op
    case Find(k, now, _) => Dropped(m, st, k) && !m[k].entry.IsExpired(now)
    case Remove(k) => Dropped(m, st, k)
    case Invalidate(h) => exists k :: Dropped(m, st, k) && m[k].entry.hash == h
    case _ => false
  }

  /** The memory cache invalidates what a scan of the server finds, and the dropped entries. */
  lemma RetainedHashes(m: Table, st: RedisState, h: string)
    requires Near(m, st) && Complete(st) && ExactAt(st, h)
    ensures var gone := Listed(st.index, h) * st.entries.Keys;
      && gone <= Retain(m, HasHash(h)).Keys
      && (gone == Retain(m, HasHash(h)).Keys <==> !Reaches(m, st, Invalidate(h)))
  {
    var gone, all := Listed(st.index, h) * st.entries.Keys, Retain(m, HasHash(h)).Keys;
    forall k ensures k in gone <==> k in all && !Dropped(m, st, k) {
      assert k in st.entries ==> k in m && m[k].entry == st.entries[k];
    }
    if Reaches(m, st, Invalidate(h)) {
      var k :| Dropped(m, st, k) && m[k].entry.hash == h;
      assert k in all && k !in gone;
    }
  }

  /** Then only dropped entries part the two sides. */
  lemma PartedByDrops(m: Table, st: RedisState, op: TwinOp)
    requires Near(m, st) && Complete(st)
    requires op.Invalidate? ==> ExactAt(st, op.hash)
    ensures Parted(m, st, op) <==> Reaches(m, st, op)
  {
    if op.Invalidate? {
      RetainedHashes(m, st, op.hash);
      SubsetSize(Listed(st.index, op.hash) * st.entries.Keys, Retain(m, HasHash(op.hash)).Keys);
      assert |Retain(m, HasHash(op.hash))| == |Retain(m, HasHash(op.hash)).Keys|;
    }
  }

  /** One operation keeps every entry of the server an entry of the memory cache, as long as that one
  has room and the index is complete. */
  lemma StepNear(cfg: Config, m: Table, n: nat, st: RedisState, op: TwinOp)
    requires Near(m, st) && Complete(st) && StoredAlike(cfg, op)
    requires op.Put? ==> |m - {op.key}| < cfg.maxSize
    ensures op.Vanish? ==> Near(m, RedisStep(cfg.hashOf, st, Red(op)).0)
    ensures !op.Vanish? ==> Near(RefStep(cfg, m, n, Mem(op)).0, RedisStep(cfg.hashOf, st, Red(op)).0)
  {
    match op
    case Find(k, now, at) => FindNear(cfg, m, n, st, k, now, at);
    case Put(k, v, ttl, now) => PutNear(cfg, m, n, st, k, v, ttl, now);
    case Remove(k) => RemoveNear(cfg, m, n, st, k);
    case Invalidate(h) => InvalidateNear(cfg, m, n, st, h);
    case Vanish(_) =>
  }

  lemma FindNear(cfg: Config, m: Table, n: nat, st: RedisState, k: string, now: Time, at: Time)
    requires Near(m, st)
    ensures Near(RefStep(cfg, m, n, Op.Get(k, now, at)).0, RedisStep(cfg.hashOf, st, RedisOp.Get(k, now, at)).0)
  {}

  lemma RemoveNear(cfg: Config, m: Table, n: nat, st: RedisState, k: string)
    requires Near(m, st)
    ensures Near(RefStep(cfg, m, n, Op.Delete(k)).0, RedisStep(cfg.hashOf, st, RedisOp.Delete(k)).0)
  {}

  lemma PutNear(cfg: Config, m: Table, n: nat, st: RedisState, k: string, v: string, ttl: Option<Time>, now: Time)
    requires Near(m, st) && StoredAlike(cfg, Put(k, v, ttl, now)) && |m - {k}| < cfg.maxSize
    ensures Near(RefStep(cfg, m, n, Op.Set(k, v, ttl, now)).0, RedisStep(cfg.hashOf, st, RedisOp.Set(k, v, ttl, now)).0)
  {
    var room := RefPut(cfg, m, n, k, v, ttl, now);
    var after := RedPut(cfg, st, k, v, ttl, now);
    NearPut(m, st, after, k, NewEntry(cfg, k, v, ttl, now), n);
  }

  lemma NearPut(m: Table, st: RedisState, after: RedisState, k: string, e: CacheEntry, n: nat)
    requires Near(m, st) && after.entries == st.entries[k := e]
    ensures Near((m - {k})[k := Stamped(e, n)], after)
  {}

  lemma InvalidateNear(cfg: Config, m: Table, n: nat, st: RedisState, h: string)
    requires Near(m, st) && Complete(st)
    ensures Near(RefStep(cfg, m, n, Op.InvalidateByHash(h)).0, RedisStep(cfg.hashOf, st, RedisOp.InvalidateByHash(h)).0)
  {
    var after := RedisStep(cfg.hashOf, st, RedisOp.InvalidateByHash(h)).0;
    assert after.entries == st.entries - Listed(st.index, h);
  }

  // ---------- runs ----------

  /** The table of the memory cache after these operations. */
  ghost function Held(cfg: Config, ops: seq<TwinOp>): Table {
    RefRun(cfg, MemOps(ops))
  }

  ghost function Server(cfg: Config, ops: seq<TwinOp>): RedisState {
    RedisRun(cfg.hashOf, RedOps(ops))
  }

  lemma HeldNext(cfg: Config, ops: seq<TwinOp>)
    requires ops != []
    ensures var n := |ops| - 1;
      Held(cfg, ops) == if ops[n].Vanish? then Held(cfg, ops[..n])
        else RefStep(cfg, Held(cfg, ops[..n]), |MemOps(ops[..n])|, Mem(ops[n])).0
  {
    var before, op := MemOps(ops[..|ops| - 1]), ops[|ops| - 1];
    if !op.Vanish? {
      assert MemOps(ops)[..|before|] == before && MemOps(ops)[|before|] == Mem(op);
    }
  }

  lemma ServerNext(cfg: Config, ops: seq<TwinOp>)
    requires ops != []
    ensures var n := |ops| - 1;
      Server(cfg, ops) == RedisStep(cfg.hashOf, Server(cfg, ops[..n]), Red(ops[n])).0
  {
    assert RedOps(ops)[..|ops| - 1] == RedOps(ops[..|ops| - 1]);
  }

  /** The keys that are ever stored. */
  ghost function KeysPut(ops: seq<TwinOp>): set<string> {
    set op | op in ops && op.Put? :: op.key
  }

  lemma {:induction false} StoredKeysWerePut(cfg: Config, ops: seq<TwinOp>)
    ensures Held(cfg, ops).Keys <= KeysPut(ops)
  {
    if ops != [] {
      var before, op := ops[..|ops| - 1], ops[|ops| - 1];
      StoredKeysWerePut(cfg, before);
      HeldNext(cfg, ops);
      assert ops == before + [op];
      if !op.Vanish? {
        StepStores(cfg, Held(cfg, before), |MemOps(before)|, op);
      }
      assert KeysPut(before) <= KeysPut(ops) && (op.Put? ==> op.key in KeysPut(ops));
    }
  }

  lemma StepStores(cfg: Config, m: Table, n: nat, op: TwinOp)
    requires !op.Vanish?
    ensures RefStep(cfg, m, n, Mem(op)).0.Keys <= m.Keys + if op.Put? then {op.key} else {}
  {
    match op
    case Put(k, v, ttl, now) => PutStores(cfg, m, n, k, v, ttl, now);
    case Find(_, _, _) =>
    case Remove(_) =>
    case Invalidate(_) =>
  }

  lemma PutStores(cfg: Config, m: Table, n: nat, k: string, v: string, ttl: Option<Time>, now: Time)
    ensures RefStep(cfg, m, n, Op.Set(k, v, ttl, now)).0.Keys <= m.Keys + {k}
  {
    var room := RefPut(cfg, m, n, k, v, ttl, now);
    assert room.Keys <= m.Keys;
  }

  /** What a caller has to keep to: lifetimes of at least a second, no more keys than the memory
  cache holds, and no key stored with new content while listed under its old hash. */
  ghost predicate Moderate(cfg: Config, ops: seq<TwinOp>) {
    && (forall op :: op in ops && op.Put? ==> Accepted(op.ttl))
    && |KeysPut(ops)| <= cfg.maxSize
    && Disciplined(cfg.hashOf, RedOps(ops))
  }

  lemma ModeratePrefix(cfg: Config, ops: seq<TwinOp>, n: nat)
    requires Moderate(cfg, ops) && n <= |ops|
    ensures Moderate(cfg, ops[..n])
  {
    assert RedOps(ops)[..n] == RedOps(ops[..n]);
    DisciplinedPrefix(cfg.hashOf, RedOps(ops), n);
    assert KeysPut(ops[..n]) <= KeysPut(ops);
    SubsetSize(KeysPut(ops[..n]), KeysPut(ops));
  }

  lemma RoomForPut(cfg: Config, ops: seq<TwinOp>)
    requires Moderate(cfg, ops) && ops != [] && ops[|ops| - 1].Put?
    ensures |Held(cfg, ops[..|ops| - 1]) - {ops[|ops| - 1].key}| < cfg.maxSize
  {
    var before, op := ops[..|ops| - 1], ops[|ops| - 1];
    StoredKeysWerePut(cfg, before);
    assert op in ops && op.key in KeysPut(ops) && KeysPut(before) <= KeysPut(ops);
    var rest := Held(cfg, before) - {op.key};
    SubsetSize(rest.Keys + {op.key}, KeysPut(ops));
    assert |rest.Keys + {op.key}| == |rest.Keys| + 1 && |rest| == |rest.Keys|;
  }

  /** No put with a lifetime that the server refuses or that is left to a default. */
  ghost predicate AllStoredAlike(cfg: Config, ops: seq<TwinOp>) {
    forall op :: op in ops ==> StoredAlike(cfg, op)
  }

  lemma {:induction false} RunAlike(cfg: Config, ops: seq<TwinOp>)
    requires AllStoredAlike(cfg, ops)
    ensures Alike(Held(cfg, ops), Server(cfg, ops))
  {
    if ops != [] {
      var n := |ops| - 1;
      assert ops[n] in ops && forall op :: op in ops[..n] ==> op in ops;
      RunAlike(cfg, ops[..n]);
      StepTwins(cfg, Held(cfg, ops[..n]), |MemOps(ops[..n])|, Server(cfg, ops[..n]), ops[n]);
      HeldNext(cfg, ops);
      ServerNext(cfg, ops);
    }
  }

  /** The replies of the two caches to the last operation of a run. */
  function MemReply(cfg: Config, ops: seq<TwinOp>): Reply
    requires cfg.maxSize >= 1 && ops != [] && !ops[|ops| - 1].Vanish?
  {
    Step(cfg, Run(cfg, MemOps(ops[..|ops| - 1])), Mem(ops[|ops| - 1])).1
  }

  function RedReply(cfg: Config, ops: seq<TwinOp>): Reply
    requires ops != []
  {
    RedisStep(cfg.hashOf, RedisRun(cfg.hashOf, RedOps(ops[..|ops| - 1])), Red(ops[|ops| - 1])).1
  }

  lemma MemReplyOfTable(cfg: Config, ops: seq<TwinOp>)
    requires cfg.maxSize >= 1 && ops != [] && !ops[|ops| - 1].Vanish?
    ensures var n := |ops| - 1;
      MemReply(cfg, ops) == RefStep(cfg, Held(cfg, ops[..n]), |MemOps(ops[..n])|, Mem(ops[n])).1
  {
    var n := |ops| - 1;
    var seen := MemOps(ops[..n]);
    RunAgrees(cfg, seen);
    RunKeepsShape(cfg, seen);
    StepAgrees(cfg, Run(cfg, seen), RefRun(cfg, seen), |seen|, Mem(ops[n]));
  }

  /** Over any run, full memory cache or not, keys stored anew or not, and entries dropped by the
  server at any time, an operation gets the same reply from either cache exactly when it does not
  part them. */
  lemma TwinsReplyExactly(cfg: Config, ops: seq<TwinOp>)
    requires cfg.maxSize >= 1 && AllStoredAlike(cfg, ops)
    requires ops != [] && !ops[|ops| - 1].Vanish?
    ensures var n := |ops| - 1;
      MemReply(cfg, ops) == RedReply(cfg, ops) <==> !Parted(Held(cfg, ops[..n]), Server(cfg, ops[..n]), ops[n])
  {
    var n := |ops| - 1;
    assert ops[n] in ops && forall op :: op in ops[..n] ==> op in ops;
    RunAlike(cfg, ops[..n]);
    StepTwins(cfg, Held(cfg, ops[..n]), |MemOps(ops[..n])|, Server(cfg, ops[..n]), ops[n]);
    MemReplyOfTable(cfg, ops);
  }

  lemma ModerateIsAlike(cfg: Config, ops: seq<TwinOp>)
    requires cfg.defaultTtl.None? && Moderate(cfg, ops)
    ensures AllStoredAlike(cfg, ops)
  {}

  lemma {:induction false} RunNear(cfg: Config, ops: seq<TwinOp>)
    requires cfg.defaultTtl.None? && Moderate(cfg, ops)
    ensures Near(Held(cfg, ops), Server(cfg, ops))
  {
    if ops != [] {
      var n := |ops| - 1;
      ModeratePrefix(cfg, ops, n);
      RunNear(cfg, ops[..n]);
      RunComplete(cfg.hashOf, RedOps(ops[..n]));
      ModerateIsAlike(cfg, ops);
      assert ops[n] in ops;
      if ops[n].Put? {
        RoomForPut(cfg, ops);
      }
      StepNear(cfg, Held(cfg, ops[..n]), |MemOps(ops[..n])|, Server(cfg, ops[..n]), ops[n]);
      HeldNext(cfg, ops);
      ServerNext(cfg, ops);
    }
  }

  /** To a moderate caller, over any run with entries dropped at any time, an operation gets the same
  reply from either cache exactly when it reaches no entry that the server has dropped. */
  lemma TwinsReplyAlike(cfg: Config, ops: seq<TwinOp>)
    requires cfg.maxSize >= 1 && cfg.defaultTtl.None? && Moderate(cfg, ops)
    requires ops != [] && !ops[|ops| - 1].Vanish?
    ensures var n := |ops| - 1;
      MemReply(cfg, ops) == RedReply(cfg, ops) <==> !Reaches(Held(cfg, ops[..n]), Server(cfg, ops[..n]), ops[n])
  {
    var n := |ops| - 1;
    ModerateIsAlike(cfg, ops);
    TwinsReplyExactly(cfg, ops);
    ModeratePrefix(cfg, ops, n);
    RunNear(cfg, ops[..n]);
    RunComplete(cfg.hashOf, RedOps(ops[..n]));
    if ops[n].Invalidate? {
      DisciplineIsEnough(cfg.hashOf, RedOps(ops[..n]), ops[n].hash);
    }
    PartedByDrops(Held(cfg, ops[..n]), Server(cfg, ops[..n]), ops[n]);
  }

  lemma {:induction false} NothingDropped(cfg: Config, ops: seq<TwinOp>, k: string)
    requires cfg.defaultTtl.None? && Moderate(cfg, ops) && forall op :: op in ops ==> !op.Vanish?
    ensures !Dropped(Held(cfg, ops), Server(cfg, ops), k)
  {
    if ops != [] {
      var n := |ops| - 1;
      var m, st := Held(cfg, ops[..n]), Server(cfg, ops[..n]);
      assert forall op :: op in ops[..n] ==> op in ops;
      ModeratePrefix(cfg, ops, n);
      forall x ensures !Dropped(m, st, x) {
        NothingDropped(cfg, ops[..n], x);
      }
      HeldNext(cfg, ops);
      ServerNext(cfg, ops);
      assert ops[n] in ops;
      RunNear(cfg, ops[..n]);
      RunComplete(cfg.hashOf, RedOps(ops[..n]));
      if ops[n].Put? {
        RoomForPut(cfg, ops);
      } else if ops[n].Invalidate? {
        DisciplineIsEnough(cfg.hashOf, RedOps(ops[..n]), ops[n].hash);
      }
      StepDropsNothing(cfg, m, |MemOps(ops[..n])|, st, ops[n], k);
    }
  }

  lemma StepDropsNothing(cfg: Config, m: Table, n: nat, st: RedisState, op: TwinOp, k: string)
    requires !op.Vanish? && Near(m, st) && Complete(st) && forall x :: !Dropped(m, st, x)
    requires op.Put? ==> Accepted(op.ttl) && |m - {op.key}| < cfg.maxSize
    requires op.Invalidate? ==> ExactAt(st, op.hash)
    ensures !Dropped(RefStep(cfg, m, n, Mem(op)).0, RedisStep(cfg.hashOf, st, Red(op)).0, k)
  {
    assert !Dropped(m, st, k);
  }

  /** As long as the server drops nothing, which it does only with lifetimes, the caches cannot be
  told apart. */
  lemma AlikeWhileNothingDrops(cfg: Config, ops: seq<TwinOp>)
    requires cfg.maxSize >= 1 && cfg.defaultTtl.None? && Moderate(cfg, ops)
    requires ops != [] && forall op :: op in ops ==> !op.Vanish?
    ensures MemReply(cfg, ops) == RedReply(cfg, ops)
  {
    var n := |ops| - 1;
    assert ops[n] in ops && forall op :: op in ops[..n] ==> op in ops;
    ModeratePrefix(cfg, ops, n);
    forall k ensures !Dropped(Held(cfg, ops[..n]), Server(cfg, ops[..n]), k) {
      NothingDropped(cfg, ops[..n], k);
    }
    TwinsReplyAlike(cfg, ops);
  }

  // ---------- where they differ ----------

  lemma OnePut(cfg: Config, k: string, v: string, ttl: Option<Time>, now: Time)
    requires cfg.maxSize >= 1 && Accepted(ttl)
    ensures Held(cfg, [Put(k, v, ttl, now)]) == map[k := Stamped(NewEntry(cfg, k, v, ttl, now), 0)]
    ensures Server(cfg, [Put(k, v, ttl, now)]).entries.Keys == {k}
  {
    var ops := [Put(k, v, ttl, now)];
    assert ops[..0] == [];
    HeldNext(cfg, ops);
    ServerNext(cfg, ops);
    var none: Table := map[];
    assert Held(cfg, []) == none && none - {k} == none;
    var room := RefPut(cfg, none, 0, k, v, ttl, now);
  }

  /** One stored entry that the server has dropped. */
  lemma OneDropped(cfg: Config, k: string, v: string, ttl: Option<Time>, now: Time)
    requires cfg.maxSize >= 1 && Accepted(ttl)
    ensures var ops := [Put(k, v, ttl, now), Vanish(k)];
      && Held(cfg, ops) == map[k := Stamped(NewEntry(cfg, k, v, ttl, now), 0)]
      && Server(cfg, ops).entries == map[]
  {
    var before := [Put(k, v, ttl, now)];
    assert before + [Vanish(k)] == [Put(k, v, ttl, now), Vanish(k)];
    OnePut(cfg, k, v, ttl, now);
    AfterVanish(cfg, before, k);
    NothingLeft(Server(cfg, before).entries, k);
  }

  lemma AfterVanish(cfg: Config, before: seq<TwinOp>, k: string)
    ensures Held(cfg, before + [Vanish(k)]) == Held(cfg, before)
    ensures Server(cfg, before + [Vanish(k)]).entries == Server(cfg, before).entries - {k}
  {
    var ops := before + [Vanish(k)];
    assert ops[..|ops| - 1] == before;
    HeldNext(cfg, ops);
    ServerNext(cfg, ops);
  }

  lemma NothingLeft(entries: map<string, CacheEntry>, k: string)
    requires entries.Keys == {k}
    ensures entries - {k} == map[]
  {
    assert (entries - {k}).Keys == {};
  }

  lemma {:induction false} OnePutIsModerate(cfg: Config, ops: seq<TwinOp>)
    requires cfg.maxSize >= 1 && ops != [] && ops[0].Put? && Accepted(ops[0].ttl)
    requires forall i :: 0 < i < |ops| ==> !ops[i].Put?
    ensures Moderate(cfg, ops)
  {
    assert KeysPut(ops) == {ops[0].key};
    forall i, h | 0 <= i < |ops| && RedOps(ops)[i].Set?
      ensures !StillListed(cfg.hashOf, RedOps(ops)[..i], h, RedOps(ops)[i].key)
    {
      assert i == 0 && RedOps(ops)[..0] == [];
    }
  }

  /** Storing with a lifetime, waiting until the server has dropped the entry and removing it: the
  memory cache removes an entry, the Redis cache has none. */
  lemma RemoveTellsApart(cfg: Config, k: string, v: string, ttl: Time, now: Time)
    requires cfg.maxSize >= 1 && cfg.defaultTtl.None? && ttl >= SECOND
    ensures var ops := [Put(k, v, Some(ttl), now), Vanish(k), Remove(k)];
      && Moderate(cfg, ops)
      && MemReply(cfg, ops) == Flag(true) && RedReply(cfg, ops) == Flag(false)
  {
    var ops := [Put(k, v, Some(ttl), now), Vanish(k), Remove(k)];
    assert ops[..2] == [Put(k, v, Some(ttl), now), Vanish(k)];
    OnePutIsModerate(cfg, ops);
    OneDropped(cfg, k, v, Some(ttl), now);
    TwinsReplyAlike(cfg, ops);
  }

  /** The server counts whole seconds, so an entry stored for 1.9 seconds is gone after one, while
  the memory cache still finds it after one and a half. */
  lemma FindTellsApart(cfg: Config, k: string, v: string, at: Time)
    requires cfg.maxSize >= 1 && cfg.defaultTtl.None?
    ensures var ops := [Put(k, v, Some(1900000), 0), Vanish(k), Find(k, 1500000, at)];
      && Moderate(cfg, ops)
      && MemReply(cfg, ops) != Entry(None) && RedReply(cfg, ops) == Entry(None)
  {
    var ops := [Put(k, v, Some(1900000), 0), Vanish(k), Find(k, 1500000, at)];
    assert ops[..2] == [Put(k, v, Some(1900000), 0), Vanish(k)];
    OnePutIsModerate(cfg, ops);
    OneDropped(cfg, k, v, Some(1900000), 0);
    TwinsReplyAlike(cfg, ops);
  }
}
