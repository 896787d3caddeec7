/** A larger cache always knows at least as much as a smaller one.

Both caches see the same operations and clock readings; only their capacities differ. */
module LruInclusion {
  import opened Sequences
  import opened MemoryCaches

  ghost predicate SameButSize(small: Config, large: Config) {
    && 1 <= small.maxSize <= large.maxSize
    && small.defaultTtl == large.defaultTtl
    && small.hashOf == large.hashOf
  }

  /** The smaller cache holds, in the same order, a part of what the larger one holds, and
  lacks no more entries than the difference of the capacities. */
  ghost predicate Included(small: Config, large: Config, s: CacheState, b: CacheState) {
    && Distinct(b.entries)
    && |b.entries| <= large.maxSize
    && Subseq(s.entries, b.entries)
    && |b.entries| - |s.entries| <= large.maxSize - small.maxSize
    && s.hits <= b.hits
    && b.hits + b.misses == s.hits + s.misses
  }

  lemma {:induction false} LookupUnique(c: seq<CacheEntry>, e: CacheEntry)
    requires Distinct(c) && e in c
    ensures Lookup(c, e.key) == Some(e)
  {
    if c[0] != e {
      assert c == [c[0]] + c[1..];
      var j :| 0 <= j < |c| && c[j] == e;
      LookupUnique(c[1..], e);
    }
  }

  /** A key of the smaller cache maps to the same entry in the larger one. */
  lemma LookupIncluded(s: seq<CacheEntry>, b: seq<CacheEntry>, k: string)
    requires Distinct(b) && Subseq(s, b) && Lookup(s, k).Some?
    ensures Lookup(b, k) == Lookup(s, k)
  {
    var e := Lookup(s, k).value;
    SubseqMember(s, b, e);
    LookupUnique(b, e);
  }

  lemma {:induction false} SubseqDrop(s: seq<CacheEntry>, b: seq<CacheEntry>, i: nat, j: nat)
    requires Subseq(s, b) && j <= i <= |s| && j <= |b|
    ensures Subseq(s[i..], b[j..])
  {
    if j == 0 {
      if i > 0 {
        SubseqTail(s, b);
        SubseqDrop(s[1..], b, i - 1, 0);
        assert s[1..][i - 1..] == s[i..];
      } else {
        assert s[i..] == s;
      }
      assert b[j..] == b;
    } else {
      SubseqBothTails(s, b);
      SubseqDrop(s[1..], b[1..], i - 1, j - 1);
      assert s[1..][i - 1..] == s[i..] && b[1..][j - 1..] == b[j..];
    }
  }

  lemma StepIncluded(small: Config, large: Config, s: CacheState, b: CacheState, op: Op)
    requires SameButSize(small, large) && Included(small, large, s, b)
    ensures Included(small, large, Step(small, s, op).0, Step(large, b, op).0)
    ensures op.Get? && Step(small, s, op).1.entry.Some? ==> Step(large, b, op).1 == Step(small, s, op).1
  {
    StepKeepsShape(large, b, op);
    match op
    case Get(k, now, at) => GetIncluded(small, large, s, b, k, now, at);
    case Set(k, v, ttl, now) => SetIncluded(small, large, s, b, k, v, ttl, now);
    case Delete(k) => SubseqFilter(OtherKey(k), s.entries, b.entries);
    case Clear =>
    case InvalidateByHash(h) => SubseqFilter(OtherHash(h), s.entries, b.entries);
    case Has(k, now) =>
      SubseqFilter(OtherKey(k), s.entries, b.entries);
      AbsentKey(s.entries, k);
      if Lookup(s.entries, k).Some? {
        LookupIncluded(s.entries, b.entries, k);
      }
    case CleanupExpired(now) => SubseqFilter(IsFresh(now), s.entries, b.entries);
  }

  lemma AbsentKey(c: seq<CacheEntry>, k: string)
    ensures Lookup(c, k).None? ==> Without(c, k) == c
  {
    if Lookup(c, k).None? {
      FilterAll(OtherKey(k), c);
    }
  }

  lemma GetIncluded(small: Config, large: Config, s: CacheState, b: CacheState, k: string, now: Time, at: Time)
    requires SameButSize(small, large) && Included(small, large, s, b)
    requires var b' := Step(large, b, Op.Get(k, now, at)).0; Distinct(b'.entries) && |b'.entries| <= large.maxSize
    ensures var op := Op.Get(k, now, at);
      && Included(small, large, Step(small, s, op).0, Step(large, b, op).0)
      && (Step(small, s, op).1.entry.Some? ==> Step(large, b, op).1 == Step(small, s, op).1)
  {
    var s', b' := Without(s.entries, k), Without(b.entries, k);
    SubseqFilter(OtherKey(k), s.entries, b.entries);
    AbsentKey(s.entries, k);
    AbsentKey(b.entries, k);
    WithoutLength(b.entries, k);
    DistinctSubseq(s.entries, b.entries);
    WithoutLength(s.entries, k);
    if Lookup(s.entries, k).Some? {
      LookupIncluded(s.entries, b.entries, k);
    }
    if Lookup(b.entries, k).Some? {
      SubseqAppend(s', b', Touched(Lookup(b.entries, k).value, at));
    }
  }

  lemma SetIncluded(small: Config, large: Config, s: CacheState, b: CacheState,
      k: string, v: string, ttl: Option<Time>, now: Time)
    requires SameButSize(small, large) && Included(small, large, s, b)
    requires var b' := Step(large, b, Op.Set(k, v, ttl, now)).0; Distinct(b'.entries) && |b'.entries| <= large.maxSize
    ensures var op := Op.Set(k, v, ttl, now);
      Included(small, large, Step(small, s, op).0, Step(large, b, op).0)
  {
    var s', b' := Without(s.entries, k), Without(b.entries, k);
    SubseqFilter(OtherKey(k), s.entries, b.entries);
    SubseqLength(s', b');
    SubseqFilterSelf(OtherKey(k), b.entries);
    SubseqLength(b', b.entries);
    var i, j := Overflow(small.maxSize, |s'|), Overflow(large.maxSize, |b'|);
    SubseqDrop(s', b', i, j);
    SubseqAppend(s'[i..], b'[j..], NewEntry(small, k, v, ttl, now));
  }

  /** LRU inclusion: after any one sequence of operations and clock readings the smaller
  cache's entries are a subsequence of the larger one's, and the larger holds at most the
  difference of the capacities in addition. */
  lemma {:induction false} RunIncluded(small: Config, large: Config, ops: seq<Op>)
    requires SameButSize(small, large)
    ensures Included(small, large, Run(small, ops), Run(large, ops))
  {
    if ops != [] {
      RunIncluded(small, large, ops[..|ops| - 1]);
      StepIncluded(small, large, Run(small, ops[..|ops| - 1]), Run(large, ops[..|ops| - 1]), ops[|ops| - 1]);
    }
  }

  /** Every hit of the smaller cache is the same hit, with the same entry, of the larger. */
  lemma HitsIncluded(small: Config, large: Config, ops: seq<Op>, i: nat)
    requires SameButSize(small, large) && i < |ops| && ops[i].Get?
    requires ReplyAt(small, ops, i).entry.Some?
    ensures ReplyAt(large, ops, i) == ReplyAt(small, ops, i)
  {
    RunIncluded(small, large, ops[..i]);
    StepIncluded(small, large, Run(small, ops[..i]), Run(large, ops[..i]), ops[i]);
  }
}
