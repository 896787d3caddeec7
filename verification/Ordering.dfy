/** Lexicographic order on strings and sorted listings of sets of strings. */
module Ordering {

  /** a comes before b or is equal to it. */
  predicate Leq(a: string, b: string) {
    a == "" || (b != "" && (a[0] < b[0] || (a[0] == b[0] && Leq(a[1..], b[1..]))))
  }

  lemma {:induction false} LeqTotal(a: string, b: string)
    ensures Leq(a, b) || Leq(b, a)
  {
    if a != "" && b != "" && a[0] == b[0] {
      LeqTotal(a[1..], b[1..]);
    }
  }

  lemma {:induction false} LeqAntisymmetric(a: string, b: string)
    requires Leq(a, b) && Leq(b, a)
    ensures a == b
  {
    if a != "" {
      LeqAntisymmetric(a[1..], b[1..]);
      assert a == [a[0]] + a[1..] && b == [b[0]] + b[1..];
    }
  }

  lemma {:induction false} LeqTransitive(a: string, b: string, c: string)
    requires Leq(a, b) && Leq(b, c)
    ensures Leq(a, c)
  {
    if a != "" && a[0] == b[0] == c[0] {
      LeqTransitive(a[1..], b[1..], c[1..]);
    }
  }

  predicate Less(a: string, b: string) {
    Leq(a, b) && a != b
  }

  lemma LessTransitive(a: string, b: string, c: string)
    requires Less(a, b) && Less(b, c)
    ensures Less(a, c)
  {
    LeqTransitive(a, b, c);
    if a == c {
      LeqAntisymmetric(a, b);
    }
  }

  /** The first character that differs decides, and a proper beginning comes first. */
  lemma {:induction false} LessExactly(a: string, b: string) returns (i: nat)
    ensures i <= |a| && i <= |b| && forall j :: 0 <= j < i ==> a[j] == b[j]
    ensures i < |a| && i < |b| ==> a[i] != b[i]
    ensures Less(a, b) <==> i < |b| && (i == |a| || a[i] < b[i])
    ensures Leq(a, b) <==> i == |a| || (i < |b| && a[i] < b[i])
  {
    if a == "" || b == "" || a[0] != b[0] {
      i := 0;
    } else {
      var j := LessExactly(a[1..], b[1..]);
      i := j + 1;
      assert a == [a[0]] + a[1..] && b == [b[0]] + b[1..];
    }
  }

  ghost predicate Ascending(s: seq<string>) {
    forall i, j :: 0 <= i < j < |s| ==> Less(s[i], s[j])
  }

  /** r lists the elements of s in order, each once. */
  ghost predicate Lists(r: seq<string>, s: set<string>) {
    Ascending(r) && forall x :: x in r <==> x in s
  }

  function Insert(x: string, s: seq<string>): seq<string> {
    if s == [] then [x]
    else if x == s[0] then s
    else if Leq(x, s[0]) then [x] + s
    else [s[0]] + Insert(x, s[1..])
  }

  lemma {:induction false} InsertLists(x: string, s: seq<string>)
    requires Ascending(s)
    ensures Ascending(Insert(x, s))
    ensures forall y :: y in Insert(x, s) <==> y == x || y in s
  {
    if s != [] && x != s[0] {
      assert s == [s[0]] + s[1..];
      LeqTotal(x, s[0]);
      if Leq(x, s[0]) {
        forall j | 0 < j < |s| ensures Less(x, s[j]) {
          LessTransitive(x, s[0], s[j]);
        }
      } else {
        var r := Insert(x, s[1..]);
        InsertLists(x, s[1..]);
        forall j | 0 <= j < |r| ensures Less(s[0], r[j]) {
          assert r[j] in r;
          if r[j] != x {
            var k :| 0 <= k < |s[1..]| && s[1..][k] == r[j];
            assert s[k + 1] == r[j];
          }
        }
      }
    }
  }

  /** There is only one such listing. */
  lemma {:induction false} ListsUnique(r: seq<string>, t: seq<string>, s: set<string>)
    requires Lists(r, s) && Lists(t, s)
    ensures r == t
  {
    assert r != [] ==> r[0] in t;
    assert t != [] ==> t[0] in r;
    if r != [] && t != [] {
      HeadLeast(r, t[0]);
      HeadLeast(t, r[0]);
      LeqAntisymmetric(r[0], t[0]);
      assert r == [r[0]] + r[1..] && t == [t[0]] + t[1..];
      forall x ensures (x in r[1..] <==> x in s - {r[0]}) && (x in t[1..] <==> x in s - {r[0]}) {
        assert x in r <==> x == r[0] || x in r[1..];
        assert x in t <==> x == t[0] || x in t[1..];
        HeadOnce(r, x);
        HeadOnce(t, x);
      }
      ListsUnique(r[1..], t[1..], s - {r[0]});
    }
  }

  lemma HeadLeast(r: seq<string>, x: string)
    requires Ascending(r) && x in r
    ensures Leq(r[0], x)
  {
    LeqTotal(r[0], r[0]);
    var k :| 0 <= k < |r| && r[k] == x;
  }

  lemma HeadOnce(r: seq<string>, x: string)
    requires Ascending(r) && r != []
    ensures x in r[1..] ==> x != r[0]
  {
    if x in r[1..] {
      var k :| 0 <= k < |r[1..]| && r[1..][k] == x;
      assert r[k + 1] == x;
    }
  }

  /** The sorted list of a set. */
  method Sorted(s: set<string>) returns (r: seq<string>)
    ensures Lists(r, s)
  {
    r := [];
    var todo := s;
    while todo != {}
      invariant todo <= s && Lists(r, s - todo)
      decreases todo
    {
      var x :| x in todo;
      InsertLists(x, r);
      r := Insert(x, r);
      todo := todo - {x};
    }
  }
}
