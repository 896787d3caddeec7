/** Order-preserving operations on sequences that several components share. */
module Sequences {

  datatype Option<+T> = None | Some(value: T)

  function Filter<T>(p: T -> bool, s: seq<T>): seq<T> {
    if s == [] then []
    else if p(s[0]) then [s[0]] + Filter(p, s[1..])
    else Filter(p, s[1..])
  }

  function Map<T, U>(f: T -> U, s: seq<T>): (r: seq<U>)
    ensures |r| == |s|
    ensures forall i :: 0 <= i < |s| ==> r[i] == f(s[i])
  {
    if s == [] then [] else [f(s[0])] + Map(f, s[1..])
  }

  function Reverse<T>(s: seq<T>): (r: seq<T>)
    ensures |r| == |s|
    ensures forall i :: 0 <= i < |s| ==> r[i] == s[|s| - 1 - i]
  {
    if s == [] then [] else Reverse(s[1..]) + [s[0]]
  }

  /** s is obtained from b by deleting some elements, keeping the order. */
  ghost predicate Subseq<T>(s: seq<T>, b: seq<T>) {
    if s == [] then true
    else if b == [] then false
    else if s[0] == b[0] then Subseq(s[1..], b[1..])
    else Subseq(s, b[1..])
  }

  lemma {:induction false} FilterConcat<T>(p: T -> bool, a: seq<T>, b: seq<T>)
    ensures Filter(p, a + b) == Filter(p, a) + Filter(p, b)
  {
    if a == [] {
      assert a + b == b;
    } else {
      assert (a + b)[1..] == a[1..] + b;
      FilterConcat(p, a[1..], b);
    }
  }

  lemma {:induction false} FilterMember<T>(p: T -> bool, s: seq<T>, x: T)
    ensures x in Filter(p, s) <==> x in s && p(x)
  {
    if s != [] {
      FilterMember(p, s[1..], x);
      assert s == [s[0]] + s[1..];
    }
  }

  lemma {:induction false} FilterAgree<T>(p: T -> bool, q: T -> bool, s: seq<T>)
    requires forall x :: x in s ==> p(x) == q(x)
    ensures Filter(p, s) == Filter(q, s)
  {
    if s != [] {
      assert s[0] in s;
      assert forall x :: x in s[1..] ==> x in s;
      FilterAgree(p, q, s[1..]);
    }
  }

  lemma {:induction false} FilterAll<T>(p: T -> bool, s: seq<T>)
    requires forall x :: x in s ==> p(x)
    ensures Filter(p, s) == s
  {
    if s != [] {
      assert s[0] in s;
      assert forall x :: x in s[1..] ==> x in s;
      FilterAll(p, s[1..]);
    }
  }

  /** r holds the elements of s at these positions, which increase. */
  ghost predicate PickedAt<T>(s: seq<T>, r: seq<T>, at: seq<nat>) {
    && |at| == |r|
    && (forall j, k :: 0 <= j < k < |at| ==> at[j] < at[k])
    && (forall j :: 0 <= j < |at| ==> at[j] < |s| && r[j] == s[at[j]])
  }

  lemma PositionsOneMore(at: seq<nat>, n: nat)
    ensures forall i: nat :: i in at + [n] <==> i in at || i == n
    ensures forall j :: 0 <= j < |at| ==> at[j] in at
  {}

  lemma PickedOneMore<T>(s: seq<T>, r: seq<T>, at: seq<nat>, x: T, taken: bool) returns (more: seq<nat>)
    requires PickedAt(s, r, at)
    ensures PickedAt(s + [x], r + if taken then [x] else [], more)
    ensures forall i: nat :: i in more <==> i in at || (taken && i == |s|)
  {
    PositionsOneMore(at, |s|);
    more := if taken then at + [|s|] else at;
    assert !taken ==> r + [] == r;
  }

  /** Filtering keeps exactly the elements that satisfy p, in their order. */
  lemma {:induction false} FilterPicks<T>(p: T -> bool, s: seq<T>) returns (at: seq<nat>)
    ensures PickedAt(s, Filter(p, s), at)
    ensures forall i: nat :: i in at <==> i < |s| && p(s[i])
    decreases |s|
  {
    if s == [] {
      at := [];
    } else {
      var init, last := s[..|s| - 1], s[|s| - 1];
      assert s == init + [last] && [last][1..] == [];
      FilterConcat(p, init, [last]);
      var before := FilterPicks(p, init);
      at := PickedOneMore(init, Filter(p, init), before, last, p(last));
    }
  }

  /** Filtering twice keeps what both predicates accept. */
  lemma {:induction false} FilterTwice<T>(p: T -> bool, q: T -> bool, both: T -> bool, s: seq<T>)
    requires forall x :: both(x) == (p(x) && q(x))
    ensures Filter(q, Filter(p, s)) == Filter(both, s)
  {
    if s != [] {
      FilterTwice(p, q, both, s[1..]);
      if p(s[0]) {
        assert Filter(p, s) == [s[0]] + Filter(p, s[1..]);
        assert Filter(p, s)[1..] == Filter(p, s[1..]);
      }
    }
  }

  lemma {:induction false} SubseqExtend<T>(s: seq<T>, b: seq<T>, x: T)
    requires Subseq(s, b)
    ensures Subseq(s, [x] + b)
    decreases b, 1
  {
    assert ([x] + b)[1..] == b;
    if s != [] && s[0] == x {
      SubseqTail(s, b);
    }
  }

  lemma {:induction false} SubseqTail<T>(s: seq<T>, b: seq<T>)
    requires Subseq(s, b) && s != []
    ensures Subseq(s[1..], b)
    decreases b, 0
  {
    if s[0] == b[0] {
      SubseqExtend(s[1..], b[1..], b[0]);
      assert [b[0]] + b[1..] == b;
    } else {
      SubseqTail(s, b[1..]);
      SubseqExtend(s[1..], b[1..], b[0]);
      assert [b[0]] + b[1..] == b;
    }
  }

  lemma {:induction false} SubseqBothTails<T>(s: seq<T>, b: seq<T>)
    requires Subseq(s, b) && s != []
    ensures b != [] && Subseq(s[1..], b[1..])
  {
    if s[0] != b[0] {
      SubseqTail(s, b[1..]);
    }
  }

  lemma {:induction false} SubseqLength<T>(s: seq<T>, b: seq<T>)
    requires Subseq(s, b)
    ensures |s| <= |b|
    ensures |s| == |b| ==> s == b
  {
    if s != [] {
      if s[0] == b[0] {
        SubseqLength(s[1..], b[1..]);
        assert |s| == |b| ==> s == [s[0]] + s[1..] == [b[0]] + b[1..] == b;
      } else {
        SubseqLength(s, b[1..]);
      }
    }
  }

  lemma {:induction false} SubseqMember<T>(s: seq<T>, b: seq<T>, x: T)
    requires Subseq(s, b) && x in s
    ensures x in b
  {
    if s[0] == b[0] {
      if x != s[0] {
        SubseqMember(s[1..], b[1..], x);
      }
    } else {
      SubseqMember(s, b[1..], x);
    }
  }

  lemma {:induction false} SubseqRefl<T>(s: seq<T>)
    ensures Subseq(s, s)
  {
    if s != [] {
      SubseqRefl(s[1..]);
    }
  }

  lemma {:induction false} SubseqFilterSelf<T>(p: T -> bool, s: seq<T>)
    ensures Subseq(Filter(p, s), s)
  {
    if s != [] {
      SubseqFilterSelf(p, s[1..]);
      if !p(s[0]) {
        SubseqExtend(Filter(p, s[1..]), s[1..], s[0]);
        assert [s[0]] + s[1..] == s;
      } else {
        assert Filter(p, s)[1..] == Filter(p, s[1..]);
      }
    }
  }

  /** Filtering both sides keeps the inclusion and never widens the gap between the lengths. */
  lemma {:induction false} SubseqFilter<T>(p: T -> bool, s: seq<T>, b: seq<T>)
    requires Subseq(s, b)
    ensures Subseq(Filter(p, s), Filter(p, b))
    ensures |Filter(p, b)| - |Filter(p, s)| <= |b| - |s|
    decreases b
  {
    if b != [] {
      if s != [] && s[0] == b[0] {
        SubseqFilter(p, s[1..], b[1..]);
        if p(s[0]) {
          assert Filter(p, s)[1..] == Filter(p, s[1..]);
          assert Filter(p, b)[1..] == Filter(p, b[1..]);
        }
      } else {
        SubseqFilter(p, s, b[1..]);
        if p(b[0]) {
          SubseqExtend(Filter(p, s), Filter(p, b[1..]), b[0]);
        }
      }
    }
  }

  lemma {:induction false} SubseqAppend<T>(s: seq<T>, b: seq<T>, x: T)
    requires Subseq(s, b)
    ensures Subseq(s, b + [x]) && Subseq(s + [x], b + [x])
    decreases b
  {
    if b == [] {
      assert s + [x] == [x] == b + [x];
    } else {
      assert (b + [x])[1..] == b[1..] + [x];
      if s == [] {
        SubseqAppend(s, b[1..], x);
        assert s + [x] == [x];
      } else if s[0] == b[0] {
        SubseqAppend(s[1..], b[1..], x);
        assert (s + [x])[1..] == s[1..] + [x];
      } else {
        SubseqAppend(s, b[1..], x);
      }
    }
  }
}
