/** The string operations of the source: find, split, join, strip, replace and decimal numbers. */
module Text {
  import opened Sequences

  const NL := '\n'

  predicate Free(s: string, c: char) {
    forall i :: 0 <= i < |s| ==> s[i] != c
  }

  predicate AllFree(parts: seq<string>, c: char) {
    forall i :: 0 <= i < |parts| ==> Free(parts[i], c)
  }

  // ---------- find ----------

  predicate Contains(s: string, pat: string) {
    Find(s, pat) >= 0
  }

  /** Index of the first occurrence of pat, or -1. */
  function Find(s: string, pat: string): (i: int)
    ensures -1 <= i <= |s|
    ensures i >= 0 ==> i + |pat| <= |s| && s[i..i + |pat|] == pat
  {
    if |s| < |pat| then -1
    else if s[..|pat|] == pat then 0
    else if s == "" then -1
    else
      var j := Find(s[1..], pat);
      if j < 0 then -1
      else
        assert s[1..][j..j + |pat|] == s[j + 1..j + 1 + |pat|];
        j + 1
  }

  ghost predicate OccursAt(s: string, pat: string, j: int) {
    0 <= j && j + |pat| <= |s| && s[j..j + |pat|] == pat
  }

  /** Nothing earlier matches, and no result means that nothing matches at all. */
  lemma {:induction false} FindIsFirst(s: string, pat: string)
    ensures forall j :: OccursAt(s, pat, j) ==> 0 <= Find(s, pat) <= j
    ensures Find(s, pat) >= 0 ==> OccursAt(s, pat, Find(s, pat))
  {
    assert |s| >= |pat| ==> s[0..|pat|] == s[..|pat|];
    if |s| >= |pat| && s[..|pat|] != pat && s != "" {
      FindIsFirst(s[1..], pat);
      forall j | OccursAt(s, pat, j) ensures 0 <= Find(s, pat) <= j {
        OccursLater(s, pat, j);
      }
    }
  }

  lemma OccursLater(s: string, pat: string, j: int)
    requires OccursAt(s, pat, j) && s != "" && s[..|pat|] != pat
    ensures j > 0 && OccursAt(s[1..], pat, j - 1)
  {
    assert s[0..|pat|] == s[..|pat|];
    if j > 0 {
      var a, b := s[j..j + |pat|], s[1..][j - 1..j - 1 + |pat|];
      assert |a| == |b| && forall k :: 0 <= k < |a| ==> a[k] == s[j + k] == b[k];
      assert a == b;
    }
  }

  /** A text contains another exactly when one of its slices equals it. */
  lemma ContainsExactly(s: string, pat: string)
    ensures Contains(s, pat) <==> exists j :: 0 <= j && OccursAt(s, pat, j)
  {
    FindIsFirst(s, pat);
  }

  /** More text behind an occurrence does not move it. */
  lemma {:induction false} FindAppend(s: string, t: string, pat: string)
    requires Find(s, pat) >= 0
    ensures Find(s + t, pat) == Find(s, pat)
  {
    assert (s + t)[..|pat|] == s[..|pat|];
    if s[..|pat|] != pat {
      assert (s + t)[1..] == s[1..] + t;
      FindAppend(s[1..], t, pat);
    }
  }

  /** Text without the first character of pat cannot hide an earlier occurrence. */
  lemma {:induction false} FindAfter(h: string, pat: string, t: string)
    requires pat != "" && Free(h, pat[0])
    ensures Find(h + pat + t, pat) == |h|
  {
    var s := h + pat + t;
    if h == "" {
      assert s[..|pat|] == pat;
    } else {
      assert s[1..] == h[1..] + pat + t;
      assert s[0] != pat[0];
      assert s[..|pat|][0] != pat[0];
      FindAfter(h[1..], pat, t);
    }
  }

  // ---------- split and join ----------

  function Split(s: string, sep: char): (parts: seq<string>)
    ensures |parts| >= 1
  {
    if s == "" then [""]
    else
      var rest := Split(s[1..], sep);
      if s[0] == sep then [""] + rest else [[s[0]] + rest[0]] + rest[1..]
  }

  function Join(parts: seq<string>, sep: char): string {
    if parts == [] then ""
    else if |parts| == 1 then parts[0]
    else parts[0] + [sep] + Join(parts[1..], sep)
  }

  lemma {:induction false} SplitFree(s: string, sep: char)
    ensures AllFree(Split(s, sep), sep)
  {
    if s != "" {
      SplitFree(s[1..], sep);
    }
  }

  lemma {:induction false} SplitWhole(s: string, sep: char)
    requires Free(s, sep)
    ensures Split(s, sep) == [s]
  {
    if s != "" {
      SplitWhole(s[1..], sep);
      assert [s[0]] + s[1..] == s;
    }
  }

  /** Two lists of parts, the last part of one continued by the first of the other. */
  function Glue(a: seq<string>, b: seq<string>): seq<string>
    requires a != [] && b != []
  {
    a[..|a| - 1] + [a[|a| - 1] + b[0]] + b[1..]
  }

  lemma GlueCons(first: string, a: seq<string>, b: seq<string>)
    requires a != [] && b != []
    ensures Glue([first] + a, b) == [first] + Glue(a, b)
  {
    assert ([first] + a)[..|a|] == [first] + a[..|a| - 1];
  }

  lemma GluePush(c: char, a: seq<string>, b: seq<string>)
    requires a != [] && b != []
    ensures Glue([[c] + a[0]] + a[1..], b) == [[c] + Glue(a, b)[0]] + Glue(a, b)[1..]
  {
    if |a| == 1 {
      assert [c] + (a[0] + b[0]) == ([c] + a[0]) + b[0];
      assert [[c] + a[0]] + a[1..] == [[c] + a[0]];
      assert Glue(a, b)[1..] == b[1..];
    } else {
      GlueCons([c] + a[0], a[1..], b);
      GlueCons(a[0], a[1..], b);
      assert a == [a[0]] + a[1..];
    }
  }

  /** Text behind other text continues its last part. */
  lemma {:induction false} SplitAppend(a: string, b: string, sep: char)
    ensures Split(a + b, sep) == Glue(Split(a, sep), Split(b, sep))
  {
    var pb := Split(b, sep);
    if a == "" {
      assert a + b == b && "" + pb[0] == pb[0] && pb == [pb[0]] + pb[1..];
    } else {
      assert (a + b)[1..] == a[1..] + b;
      SplitAppend(a[1..], b, sep);
      var rest := Split(a[1..], sep);
      GlueCons("", rest, pb);
      GluePush(a[0], rest, pb);
    }
  }

  /** A separator splits into the parts before it and the parts behind it. */
  lemma SplitConcat(a: string, sep: char, b: string)
    ensures Split(a + [sep] + b, sep) == Split(a, sep) + Split(b, sep)
  {
    var pa, pb := Split(a, sep), Split(b, sep);
    assert a + [sep] + b == a + ([sep] + b) && ([sep] + b)[1..] == b;
    SplitAppend(a, [sep] + b, sep);
    GlueEmpty(pa, pb);
  }

  lemma GlueEmpty(a: seq<string>, b: seq<string>)
    requires a != []
    ensures Glue(a, [""] + b) == a + b
  {
    assert a[|a| - 1] + "" == a[|a| - 1] && ([""] + b)[1..] == b;
    assert a == a[..|a| - 1] + [a[|a| - 1]];
  }

  lemma {:induction false} SplitJoin(parts: seq<string>, sep: char)
    requires parts != [] && AllFree(parts, sep)
    ensures Split(Join(parts, sep), sep) == parts
  {
    SplitWhole(parts[0], sep);
    if |parts| > 1 {
      SplitConcat(parts[0], sep, Join(parts[1..], sep));
      SplitJoin(parts[1..], sep);
    }
  }

  lemma {:induction false} JoinSplit(s: string, sep: char)
    ensures Join(Split(s, sep), sep) == s
  {
    if s != "" {
      JoinSplit(s[1..], sep);
      var rest := Split(s[1..], sep);
      if s[0] == sep {
        assert ([""] + rest)[1..] == rest;
      } else {
        var parts := [[s[0]] + rest[0]] + rest[1..];
        assert parts[1..] == rest[1..];
        if |rest| > 1 {
          assert Join(parts, sep) == [s[0]] + (rest[0] + [sep] + Join(rest[1..], sep));
        }
      }
    }
  }

  lemma {:induction false} JoinLast(init: seq<string>, last: string, sep: char)
    requires init != []
    ensures Join(init + [last], sep) == Join(init, sep) + [sep] + last
  {
    if |init| == 1 {
      assert (init + [last])[1..] == [last];
    } else {
      assert (init + [last])[1..] == init[1..] + [last];
      JoinLast(init[1..], last, sep);
      var first, rest := init[0] + [sep], Join(init[1..], sep);
      assert first + (rest + [sep] + last) == (first + rest) + [sep] + last;
    }
  }

  // ---------- strip and case ----------

  predicate IsSpace(c: char) {
    c == ' ' || '\t' <= c <= '\r' || 28 as char <= c <= 31 as char
  }

  function LStrip(s: string): string {
    if s != "" && IsSpace(s[0]) then LStrip(s[1..]) else s
  }

  function RStrip(s: string): string {
    if s != "" && IsSpace(s[|s| - 1]) then RStrip(s[..|s| - 1]) else s
  }

  function Strip(s: string): string {
    RStrip(LStrip(s))
  }

  /** Not empty, and nothing to strip. */
  predicate Trimmed(s: string) {
    s != "" && !IsSpace(s[0]) && !IsSpace(s[|s| - 1])
  }

  lemma StripTrimmed(s: string)
    requires Trimmed(s)
    ensures Strip(s) == s && Strip(" " + s) == s
  {
    assert (" " + s)[1..] == s;
    assert LStrip(" " + s) == LStrip(s);
  }

  predicate IsBlank(s: string) {
    forall i :: 0 <= i < |s| ==> IsSpace(s[i])
  }

  lemma {:induction false} LStripAppend(s: string, t: string)
    ensures LStrip(s + t) == if IsBlank(s) then LStrip(t) else LStrip(s) + t
    ensures IsBlank(s) <==> LStrip(s) == ""
  {
    if s == "" {
      assert s + t == t;
    } else {
      assert (s + t)[1..] == s[1..] + t;
      assert s == [s[0]] + s[1..];
      LStripAppend(s[1..], t);
    }
  }

  function LowerChar(c: char): char {
    if 'A' <= c <= 'Z' then (c as int + 32) as char else c
  }

  function Lower(s: string): (r: string)
    ensures |r| == |s|
  {
    seq(|s|, i requires 0 <= i < |s| => LowerChar(s[i]))
  }

  // ---------- decimal numbers ----------

  predicate IsDigit(c: char) {
    '0' <= c <= '9'
  }

  predicate AllDigits(s: string) {
    forall i :: 0 <= i < |s| ==> IsDigit(s[i])
  }

  function Decimal(n: nat): (s: string)
    ensures s != "" && AllDigits(s)
  {
    var d := [(n % 10 + '0' as int) as char];
    if n < 10 then d else Decimal(n / 10) + d
  }

  function DigitsValue(s: string): nat
    requires AllDigits(s)
  {
    if s == "" then 0 else DigitsValue(s[..|s| - 1]) * 10 + (s[|s| - 1] as int - '0' as int)
  }

  /** An optionally signed decimal number with blanks around it. */
  function ParseInt(s: string): Option<int> {
    var t := Strip(s);
    var digits := if t != "" && t[0] in {'+', '-'} then t[1..] else t;
    if digits == "" || !AllDigits(digits) then None
    else
      var value: int := DigitsValue(digits);
      Some(if t[0] == '-' then -value else value)
  }

  lemma {:induction false} DecimalValue(n: nat)
    ensures DigitsValue(Decimal(n)) == n
  {
    if n >= 10 {
      DecimalValue(n / 10);
      assert Decimal(n)[..|Decimal(n)| - 1] == Decimal(n / 10);
    }
  }

  /** Reading a printed number, blanks before it or not, gives the number back. */
  lemma ParseDecimal(n: nat)
    ensures ParseInt(Decimal(n)) == Some(n) && ParseInt(" " + Decimal(n)) == Some(n)
  {
    DecimalValue(n);
    DigitsTrimmed(Decimal(n));
    StripTrimmed(Decimal(n));
  }

  lemma DigitsTrimmed(d: string)
    requires d != "" && AllDigits(d)
    ensures Trimmed(d) && d[0] != '-' && d[0] != '+'
  {
    assert IsDigit(d[0]) && IsDigit(d[|d| - 1]);
  }

  // ---------- replace ----------

  /** All non-overlapping occurrences, left to right. */
  function Replace(s: string, oldName: string, newName: string): string
    requires oldName != ""
  {
    if |s| < |oldName| then s
    else if s[..|oldName|] == oldName then newName + Replace(s[|oldName|..], oldName, newName)
    else [s[0]] + Replace(s[1..], oldName, newName)
  }

  /** How many occurrences `Replace` replaces. */
  function Occurrences(s: string, oldName: string): nat
    requires oldName != ""
  {
    if |s| < |oldName| then 0
    else if s[..|oldName|] == oldName then 1 + Occurrences(s[|oldName|..], oldName)
    else Occurrences(s[1..], oldName)
  }
}
