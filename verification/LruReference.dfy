/** The textbook least-recently-used cache: an unordered table in which every key carries the
number of the operation that last touched it (a `Set`, or a `Get` that hit; never a `Has`).
When a new key does not fit, the key with the smallest number goes.

The ordered dictionary of the source computes exactly this table without any numbers. */
module LruReference {
  import opened Sequences
  import opened MemoryCaches

  datatype Stamped = Stamped(entry: CacheEntry, touched: nat)

  type Table = map<string, Stamped>

  /** The keys no other key has been left alone for longer than. */
  ghost predicate IsLeastRecent(m: Table, k: string)
    requires k in m
  {
    forall o :: o in m ==> m[k].touched <= m[o].touched
  }

  ghost function LeastRecent(m: Table): set<string> {
    set k | k in m && IsLeastRecent(m, k)
  }

  ghost function Retain(m: Table, p: CacheEntry -> bool): Table {
    map k | k in m && p(m[k].entry) :: m[k]
  }

  ghost function MakeRoom(cfg: Config, m: Table): (Table, nat) {
    if |m| < cfg.maxSize then (m, 0) else (m - LeastRecent(m), |LeastRecent(m)|)
  }

  /** Operation number n on the table, with the number of evictions it causes. */
  ghost function RefStep(cfg: Config, m: Table, n: nat, op: Op): (Table, Reply, nat) {
    match op
    case Get(k, now, at) =>
      if k !in m then (m, Entry(None), 0)
      else if m[k].entry.IsExpired(now) then (m - {k}, Entry(None), 0)
      else
        var e := Touched(m[k].entry, at);
        (m[k := Stamped(e, n)], Entry(Some(e)), 0)
    case Set(k, v, ttl, now) =>
      var e := NewEntry(cfg, k, v, ttl, now);
      var (room, evicted) := MakeRoom(cfg, m - {k});
      (room[k := Stamped(e, n)], Entry(Some(e)), evicted)
    case Delete(k) => (m - {k}, Flag(k in m), 0)
    case Clear => (map[], Count(|m|), 0)
    case InvalidateByHash(h) => (Retain(m, OtherHash(h)), Count(|Retain(m, HasHash(h))|), 0)
    case Has(k, now) =>
      if k in m && m[k].entry.IsExpired(now) then (m - {k}, Flag(false), 0)
      else (m, Flag(k in m), 0)
    case CleanupExpired(now) => (Retain(m, IsFresh(now)), Count(|Retain(m, IsStale(now))|), 0)
  }

  ghost function RefRun(cfg: Config, ops: seq<Op>): Table {
    if ops == [] then map[]
    else RefStep(cfg, RefRun(cfg, ops[..|ops| - 1]), |ops| - 1, ops[|ops| - 1]).0
  }

  /** The stored order is the order of last touch. */
  ghost predicate InTouchOrder(c: seq<CacheEntry>, m: Table) {
    && (forall i :: 0 <= i < |c| ==> c[i].key in m && m[c[i].key].entry == c[i])
    && (forall i, j :: 0 <= i < j < |c| ==> m[c[i].key].touched < m[c[j].key].touched)
  }

  ghost function KeySet(c: seq<CacheEntry>): set<string> {
    set e | e in c :: e.key
  }

  /** Before operation n the list c and the table m hold the same entries. */
  ghost predicate Represents(c: seq<CacheEntry>, m: Table, n: nat) {
    && InTouchOrder(c, m)
    && m.Keys == KeySet(c)
    && forall k :: k in m ==> m[k].touched < n
  }

  lemma RepresentsDistinct(c: seq<CacheEntry>, m: Table)
    requires InTouchOrder(c, m)
    ensures Distinct(c)
  {}

  lemma {:induction false} KeyCount(c: seq<CacheEntry>)
    requires Distinct(c)
    ensures |KeySet(c)| == |c|
  {
    if c != [] {
      KeyCount(c[1..]);
      assert c == [c[0]] + c[1..];
      assert KeySet(c) == {c[0].key} + KeySet(c[1..]);
      assert c[0].key !in KeySet(c[1..]);
    }
  }

  lemma SizeAgrees(c: seq<CacheEntry>, m: Table, n: nat)
    requires Represents(c, m, n)
    ensures |m| == |c|
  {
    RepresentsDistinct(c, m);
    KeyCount(c);
    assert |m| == |m.Keys|;
  }

  lemma LookupAgrees(c: seq<CacheEntry>, m: Table, n: nat, k: string)
    requires Represents(c, m, n)
    ensures Lookup(c, k).Some? <==> k in m
    ensures k in m ==> Lookup(c, k) == Some(m[k].entry)
  {
    assert k in m <==> k in KeySet(c);
  }

  lemma {:induction false} SubseqInTouchOrder(s: seq<CacheEntry>, c: seq<CacheEntry>, m: Table)
    requires Subseq(s, c) && InTouchOrder(c, m)
    ensures InTouchOrder(s, m)
    decreases c
  {
    if s != [] {
      assert c == [c[0]] + c[1..];
      if s[0] == c[0] {
        SubseqInTouchOrder(s[1..], c[1..], m);
        forall j | 0 < j < |s| ensures m[s[0].key].touched < m[s[j].key].touched {
          SubseqMember(s[1..], c[1..], s[1..][j - 1]);
          var i :| 0 <= i < |c[1..]| && c[1..][i] == s[j];
          assert c[i + 1] == s[j];
        }
        forall i, j | 0 <= i < j < |s| ensures m[s[i].key].touched < m[s[j].key].touched {
          if i > 0 {
            assert s[i] == s[1..][i - 1] && s[j] == s[1..][j - 1];
          }
        }
        assert s == [s[0]] + s[1..];
      } else {
        SubseqInTouchOrder(s, c[1..], m);
      }
    }
  }

  /** Filtering the list is filtering the table. */
  lemma FilterAgrees(c: seq<CacheEntry>, m: Table, n: nat, p: CacheEntry -> bool)
    requires Represents(c, m, n)
    ensures Represents(Filter(p, c), Retain(m, p), n)
  {
    SubseqFilterSelf(p, c);
    SubseqInTouchOrder(Filter(p, c), c, m);
    forall e ensures e in Filter(p, c) <==> e in c && p(e) {
      FilterMember(p, c, e);
    }
    forall k ensures k in Retain(m, p) <==> k in KeySet(Filter(p, c)) {
      if k in Retain(m, p) {
        var e :| e in c && e.key == k;
        assert e in Filter(p, c);
      }
    }
  }

  lemma RemoveAgrees(c: seq<CacheEntry>, m: Table, n: nat, k: string)
    requires Represents(c, m, n)
    ensures Represents(Without(c, k), m - {k}, n)
  {
    FilterAgrees(c, m, n, OtherKey(k));
    forall o | o in m ensures m[o].entry.key == o {
      var e :| e in c && e.key == o;
    }
    assert Retain(m, OtherKey(k)) == m - {k};
  }

  /** Appending a key that is absent gives it the newest stamp. */
  lemma AppendAgrees(c: seq<CacheEntry>, m: Table, n: nat, e: CacheEntry)
    requires Represents(c, m, n) && e.key !in m
    ensures Represents(c + [e], m[e.key := Stamped(e, n)], n + 1)
  {
    var c', m' := c + [e], m[e.key := Stamped(e, n)];
    forall i | 0 <= i < |c| ensures m'[c[i].key] == m[c[i].key] {
      assert c[i].key in m;
    }
    assert KeySet(c') == KeySet(c) + {e.key};
  }

  /** The head of the list is the one least recently touched key. */
  lemma HeadIsLeastRecent(c: seq<CacheEntry>, m: Table, n: nat)
    requires Represents(c, m, n) && c != []
    ensures LeastRecent(m) == {c[0].key}
  {
    forall k | k in m ensures k == c[0].key || m[c[0].key].touched < m[k].touched {
      var e :| e in c && e.key == k;
      var i :| 0 <= i < |c| && c[i] == e;
    }
    assert c[0].key in m;
  }

  lemma DropHeadAgrees(c: seq<CacheEntry>, m: Table, n: nat)
    requires Represents(c, m, n) && c != []
    ensures LeastRecent(m) == {c[0].key}
    ensures Represents(c[1..], m - {c[0].key}, n)
  {
    HeadIsLeastRecent(c, m, n);
    RepresentsDistinct(c, m);
    forall e | e in c[1..] ensures OtherKey(c[0].key)(e) {
      var j :| 0 <= j < |c[1..]| && c[1..][j] == e;
      assert c[j + 1] == e;
    }
    FilterAll(OtherKey(c[0].key), c[1..]);
    RemoveAgrees(c, m, n, c[0].key);
  }

  /** After operation op both caches hold the same entries, gave the same reply, and evicted
  equally many keys, at most one. */
  ghost predicate Agrees(cfg: Config, st: CacheState, m: Table, n: nat, op: Op)
    requires cfg.maxSize >= 1
  {
    var (st', r) := Step(cfg, st, op);
    var (m', r', evicted) := RefStep(cfg, m, n, op);
    && Represents(st'.entries, m', n + 1) && r == r'
    && st'.evictions == st.evictions + evicted && evicted <= 1
  }

  /** The eviction loop removes the least recently touched key, and at most that one. */
  lemma MakeRoomAgrees(cfg: Config, c: seq<CacheEntry>, m: Table, n: nat)
    requires cfg.maxSize >= 1 && Represents(c, m, n) && |c| <= cfg.maxSize
    ensures var evicted := Overflow(cfg.maxSize, |c|);
      && evicted <= 1 && MakeRoom(cfg, m).1 == evicted
      && Represents(c[evicted..], MakeRoom(cfg, m).0, n)
    ensures MakeRoom(cfg, m).0.Keys <= m.Keys
  {
    SizeAgrees(c, m, n);
    if |c| >= cfg.maxSize {
      DropHeadAgrees(c, m, n);
    } else {
      assert c[0..] == c;
    }
  }

  lemma SetAgrees(cfg: Config, st: CacheState, m: Table, n: nat, k: string, v: string, ttl: Option<Time>, now: Time)
    requires cfg.maxSize >= 1 && Represents(st.entries, m, n) && |st.entries| <= cfg.maxSize
    ensures Agrees(cfg, st, m, n, Op.Set(k, v, ttl, now))
  {
    var rest := Without(st.entries, k);
    RemoveAgrees(st.entries, m, n, k);
    RepresentsDistinct(st.entries, m);
    WithoutLength(st.entries, k);
    MakeRoomAgrees(cfg, rest, m - {k}, n);
    AppendAgrees(rest[Overflow(cfg.maxSize, |rest|)..], MakeRoom(cfg, m - {k}).0, n, NewEntry(cfg, k, v, ttl, now));
  }

  lemma GetAgrees(cfg: Config, st: CacheState, m: Table, n: nat, k: string, now: Time, at: Time)
    requires cfg.maxSize >= 1 && Represents(st.entries, m, n)
    ensures Agrees(cfg, st, m, n, Op.Get(k, now, at))
  {
    LookupAgrees(st.entries, m, n, k);
    RemoveAgrees(st.entries, m, n, k);
    if k in m && !m[k].entry.IsExpired(now) {
      var e := Touched(m[k].entry, at);
      AppendAgrees(Without(st.entries, k), m - {k}, n, e);
      assert (m - {k})[k := Stamped(e, n)] == m[k := Stamped(e, n)];
    }
  }

  lemma HasAgrees(cfg: Config, st: CacheState, m: Table, n: nat, k: string, now: Time)
    requires cfg.maxSize >= 1 && Represents(st.entries, m, n)
    ensures Agrees(cfg, st, m, n, Op.Has(k, now))
  {
    LookupAgrees(st.entries, m, n, k);
    RemoveAgrees(st.entries, m, n, k);
  }

  lemma BulkAgrees(c: seq<CacheEntry>, m: Table, n: nat, keep: CacheEntry -> bool, drop: CacheEntry -> bool)
    requires Represents(c, m, n)
    ensures Represents(Filter(keep, c), Retain(m, keep), n)
    ensures |Filter(drop, c)| == |Retain(m, drop)|
  {
    FilterAgrees(c, m, n, keep);
    FilterAgrees(c, m, n, drop);
    SizeAgrees(Filter(drop, c), Retain(m, drop), n);
  }

  lemma DeleteAgrees(cfg: Config, st: CacheState, m: Table, n: nat, k: string)
    requires cfg.maxSize >= 1 && Represents(st.entries, m, n)
    ensures Agrees(cfg, st, m, n, Op.Delete(k))
  {
    LookupAgrees(st.entries, m, n, k);
    RemoveAgrees(st.entries, m, n, k);
  }

  /** One operation keeps the two caches in agreement. */
  lemma StepAgrees(cfg: Config, st: CacheState, m: Table, n: nat, op: Op)
    requires cfg.maxSize >= 1 && Represents(st.entries, m, n) && |st.entries| <= cfg.maxSize
    ensures Agrees(cfg, st, m, n, op)
  {
    match op
    case Get(k, now, at) => GetAgrees(cfg, st, m, n, k, now, at);
    case Set(k, v, ttl, now) => SetAgrees(cfg, st, m, n, k, v, ttl, now);
    case Delete(k) => DeleteAgrees(cfg, st, m, n, k);
    case Clear => SizeAgrees(st.entries, m, n);
    case InvalidateByHash(h) => BulkAgrees(st.entries, m, n, OtherHash(h), HasHash(h));
    case Has(k, now) => HasAgrees(cfg, st, m, n, k, now);
    case CleanupExpired(now) => BulkAgrees(st.entries, m, n, IsFresh(now), IsStale(now));
  }

  /** LRU correctness over every run: the ordered dictionary holds the entries of the stamped
  table, in the order of their stamps. */
  lemma {:induction false} RunAgrees(cfg: Config, ops: seq<Op>)
    requires cfg.maxSize >= 1
    ensures Represents(Run(cfg, ops).entries, RefRun(cfg, ops), |ops|)
  {
    if ops != [] {
      RunAgrees(cfg, ops[..|ops| - 1]);
      RunKeepsShape(cfg, ops[..|ops| - 1]);
      StepAgrees(cfg, Run(cfg, ops[..|ops| - 1]), RefRun(cfg, ops[..|ops| - 1]), |ops| - 1, ops[|ops| - 1]);
    }
  }

  /** No caller can tell the two apart: operation i of any run gets the same reply. */
  lemma RepliesAgree(cfg: Config, ops: seq<Op>, i: nat)
    requires cfg.maxSize >= 1 && i < |ops|
    ensures ReplyAt(cfg, ops, i) == RefStep(cfg, RefRun(cfg, ops[..i]), i, ops[i]).1
  {
    RunAgrees(cfg, ops[..i]);
    RunKeepsShape(cfg, ops[..i]);
    StepAgrees(cfg, Run(cfg, ops[..i]), RefRun(cfg, ops[..i]), i, ops[i]);
  }
}
