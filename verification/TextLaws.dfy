/** What the string operations of `Text` mean, said without their definitions. */
module TextLaws {
  import opened Sequences
  import opened Text

  // ---------- replacing ----------

  /** The text between the occurrences, found one after the other. */
  function Cut(s: string, pat: string): (pieces: seq<string>)
    requires pat != ""
    ensures pieces != []
  {
    var i := Find(s, pat);
    if i < 0 then [s] else [s[..i]] + Cut(s[i + |pat|..], pat)
  }

  function JoinWith(pieces: seq<string>, sep: string): string {
    if pieces == [] then ""
    else if |pieces| == 1 then pieces[0]
    else pieces[0] + sep + JoinWith(pieces[1..], sep)
  }

  /** How a text falls apart at its first occurrence of a name, and what becomes of the parts. */
  ghost predicate FallsApart(s: string, oldName: string, newName: string, front: string, rest: string)
    requires oldName != ""
  {
    && s == front + oldName + rest && |front| == Find(s, oldName)
    && Replace(s, oldName, newName) == front + newName + Replace(rest, oldName, newName)
    && Occurrences(s, oldName) == 1 + Occurrences(rest, oldName)
  }

  lemma {:induction false} ReplaceToFirst(s: string, oldName: string, newName: string)
      returns (front: string, rest: string)
    requires oldName != ""
    ensures Find(s, oldName) < 0 ==> Replace(s, oldName, newName) == s && Occurrences(s, oldName) == 0
    ensures Find(s, oldName) >= 0 ==> FallsApart(s, oldName, newName, front, rest)
  {
    front, rest := "", "";
    if |s| >= |oldName| {
      if s[..|oldName|] == oldName {
        rest := s[|oldName|..];
        MatchAtFront(s, oldName, newName);
      } else {
        var behind;
        behind, rest := ReplaceToFirst(s[1..], oldName, newName);
        front := [s[0]] + behind;
        MatchLater(s, oldName, newName, behind, rest);
      }
    }
  }

  lemma MatchAtFront(s: string, oldName: string, newName: string)
    requires oldName != "" && |s| >= |oldName| && s[..|oldName|] == oldName
    ensures FallsApart(s, oldName, newName, "", s[|oldName|..])
  {
    var rest := s[|oldName|..];
    assert s == oldName + rest && "" + oldName == oldName && "" + newName == newName;
  }

  lemma MatchLater(s: string, oldName: string, newName: string, behind: string, rest: string)
    requires oldName != "" && |s| >= |oldName| && s[..|oldName|] != oldName
    requires Find(s[1..], oldName) >= 0 ==> FallsApart(s[1..], oldName, newName, behind, rest)
    ensures Find(s[1..], oldName) >= 0 ==> FallsApart(s, oldName, newName, [s[0]] + behind, rest)
    ensures Find(s[1..], oldName) < 0 ==> Find(s, oldName) < 0
    ensures Replace(s[1..], oldName, newName) == s[1..] ==> Replace(s, oldName, newName) == s
    ensures Occurrences(s, oldName) == Occurrences(s[1..], oldName)
  {
    assert s == [s[0]] + s[1..];
    Regroup([s[0]], behind, oldName, rest);
    Regroup([s[0]], behind, newName, Replace(rest, oldName, newName));
  }

  lemma Regroup(a: string, b: string, c: string, d: string)
    ensures a + (b + c + d) == (a + b) + c + d
  {}

  lemma CutAt(s: string, pat: string, front: string, rest: string)
    requires pat != "" && s == front + pat + rest && |front| == Find(s, pat)
    ensures Cut(s, pat) == [front] + Cut(rest, pat)
  {
    assert s[..|front|] == front && s[|front| + |pat|..] == rest;
  }

  lemma JoinFirst(first: string, rest: seq<string>, sep: string)
    requires rest != []
    ensures JoinWith([first] + rest, sep) == first + sep + JoinWith(rest, sep)
  {
    assert ([first] + rest)[1..] == rest;
  }

  /** The pieces between the occurrences of a name make up the text with that name between them, and
  the replaced text with the new one. */
  lemma {:induction false} ReplacedPieces(s: string, oldName: string, newName: string)
    requires oldName != ""
    ensures JoinWith(Cut(s, oldName), oldName) == s
    ensures JoinWith(Cut(s, oldName), newName) == Replace(s, oldName, newName)
    ensures |Cut(s, oldName)| == Occurrences(s, oldName) + 1
    decreases |s|
  {
    var front, rest := ReplaceToFirst(s, oldName, newName);
    if Find(s, oldName) >= 0 {
      CutAt(s, oldName, front, rest);
      ReplacedPieces(rest, oldName, newName);
      JoinFirst(front, Cut(rest, oldName), oldName);
      JoinFirst(front, Cut(rest, oldName), newName);
    }
  }

  // ---------- occurrences ----------

  /** The pattern stands in the text at position j, each backslash of it read as a slash. */
  ghost predicate SlashedAt(text: string, pattern: string, j: int) {
    && 0 <= j && j + |pattern| <= |text|
    && forall k :: 0 <= k < |pattern| ==> text[j + k] == if pattern[k] == '\\' then '/' else pattern[k]
  }

  ghost predicate OccursSlashed(text: string, pattern: string) {
    exists j :: SlashedAt(text, pattern, j)
  }

  lemma {:induction false} SlashesAre(s: string)
    ensures |Replace(s, "\\", "/")| == |s|
    ensures forall k :: 0 <= k < |s| ==> Replace(s, "\\", "/")[k] == if s[k] == '\\' then '/' else s[k]
  {
    if s != "" {
      SlashesAre(s[1..]);
      assert s[..1] == [s[0]];
    }
  }

  lemma ContainsSlashed(text: string, pattern: string)
    ensures Contains(text, Replace(pattern, "\\", "/")) <==> OccursSlashed(text, pattern)
  {
    var read := Replace(pattern, "\\", "/");
    SlashesAre(pattern);
    ContainsExactly(text, read);
    forall j ensures 0 <= j && OccursAt(text, read, j) <==> SlashedAt(text, pattern, j) {
      OccursByCharacters(text, read, j);
    }
  }

  lemma OccursByCharacters(s: string, pat: string, j: int)
    ensures OccursAt(s, pat, j) <==> 0 <= j && j + |pat| <= |s| && forall k :: 0 <= k < |pat| ==> s[j + k] == pat[k]
  {
    if 0 <= j && j + |pat| <= |s| {
      var slice := s[j..j + |pat|];
      assert |slice| == |pat| && forall k :: 0 <= k < |pat| ==> slice[k] == s[j + k];
      assert slice == pat <==> forall k :: 0 <= k < |pat| ==> slice[k] == pat[k];
    }
  }

  // ---------- blanks ----------

  lemma BlanksAre(c: char)
    ensures IsSpace(c) <==> c as int in {9, 10, 11, 12, 13, 28, 29, 30, 31, 32}
  {}

  lemma Associate(a: string, b: string, c: string)
    ensures (a + b) + c == a + (b + c)
  {}

  lemma {:induction false} LStripSplits(s: string) returns (a: string)
    ensures s == a + LStrip(s) && IsBlank(a)
    ensures LStrip(s) == "" || !IsSpace(LStrip(s)[0])
  {
    if s != "" && IsSpace(s[0]) {
      var b := LStripSplits(s[1..]);
      a := [s[0]] + b;
      Associate([s[0]], b, LStrip(s[1..]));
      assert s == [s[0]] + s[1..];
    } else {
      a := "";
    }
  }

  lemma {:induction false} RStripSplits(s: string) returns (b: string)
    ensures s == RStrip(s) + b && IsBlank(b)
    ensures RStrip(s) == "" || !IsSpace(RStrip(s)[|RStrip(s)| - 1])
  {
    if s != "" && IsSpace(s[|s| - 1]) {
      var c := RStripSplits(s[..|s| - 1]);
      b := c + [s[|s| - 1]];
      Associate(RStrip(s[..|s| - 1]), c, [s[|s| - 1]]);
      assert s == s[..|s| - 1] + [s[|s| - 1]];
    } else {
      b := "";
    }
  }

  /** Stripping takes blanks off both ends, all of them, and nothing else. */
  lemma StripExactly(s: string) returns (a: string, b: string)
    ensures s == a + Strip(s) + b && IsBlank(a) && IsBlank(b)
    ensures Strip(s) == "" || Trimmed(Strip(s))
  {
    a := LStripSplits(s);
    var front := LStrip(s);
    b := RStripSplits(front);
    Associate(a, RStrip(front), b);
  }

  // ---------- numbers ----------

  lemma {:induction false} LeadingZero(s: string)
    requires AllDigits(s)
    ensures AllDigits("0" + s) && DigitsValue("0" + s) == DigitsValue(s)
  {
    if s == "" {
      assert "0" + s == "0" && "0"[..0] == "";
    } else {
      var n := |s| - 1;
      assert ("0" + s)[..n + 1] == "0" + s[..n];
      LeadingZero(s[..n]);
    }
  }

  /** A sign, then digits, with blanks around them. */
  lemma SignedRead(n: nat)
    ensures ParseInt("-" + Decimal(n)) == Some(-(n as int)) && ParseInt("+" + Decimal(n)) == Some(n)
  {
    var d := Decimal(n);
    var minus, plus := "-" + d, "+" + d;
    assert IsDigit(d[|d| - 1]);
    assert minus[1..] == d && plus[1..] == d;
    StripTrimmed(minus);
    StripTrimmed(plus);
    DecimalValue(n);
  }

  /** Nothing else is a number. */
  lemma NumbersOnly(s: string)
    ensures ParseInt(s).Some? <==>
      || (Strip(s) != "" && AllDigits(Strip(s)))
      || (|Strip(s)| > 1 && (Strip(s)[0] == '-' || Strip(s)[0] == '+') && AllDigits(Strip(s)[1..]))
  {
    var t := Strip(s);
    if t != "" && t[0] in {'+', '-'} {
      assert !IsDigit(t[0]);
    }
  }
}
