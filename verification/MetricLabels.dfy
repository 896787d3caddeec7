/** Series keys of the metrics registry: `_label_key` prints a label map, `_parse_labels` reads
it back (rice_factor/adapters/metrics/prometheus_adapter.py). */
module MetricLabels {
  import opened Text
  import opened Ordering

  type Labels = map<string, string>

  const BAR := '|'

  /** name=value for every listed name. */
  function Pairs(labels: Labels, names: seq<string>): (parts: seq<string>)
    requires forall i :: 0 <= i < |names| ==> names[i] in labels
    ensures |parts| == |names|
    ensures forall i :: 0 <= i < |names| ==> parts[i] == names[i] + "=" + labels[names[i]]
  {
    seq(|names|, i requires 0 <= i < |names| => names[i] + "=" + labels[names[i]])
  }

  /** The key prints the labels in the order of their names. */
  ghost predicate IsKey(key: string, labels: Labels) {
    exists names :: Lists(names, labels.Keys) && key == Join(Pairs(labels, names), BAR)
  }

  method LabelKey(labels: Labels) returns (key: string)
    ensures IsKey(key, labels)
  {
    var names := Sorted(labels.Keys);
    assert forall i :: 0 <= i < |names| ==> names[i] in names;
    key := Join(Pairs(labels, names), BAR);
  }

  /** What one part of a key adds. */
  function AddPart(labels: Labels, part: string): Labels {
    var at := Find(part, "=");
    if at < 0 then labels else labels[part[..at] := part[at + 1..]]
  }

  function AddParts(labels: Labels, parts: seq<string>): Labels
    decreases |parts|
  {
    if parts == [] then labels else AddParts(AddPart(labels, parts[0]), parts[1..])
  }

  function Parsed(key: string): Labels {
    if key == "" then map[] else AddParts(map[], Split(key, BAR))
  }

  method ParseLabels(key: string) returns (labels: Labels)
    ensures labels == Parsed(key)
  {
    if key == "" {
      return map[];
    }
    labels := map[];
    var parts := Split(key, BAR);
    for i := 0 to |parts|
      invariant AddParts(map[], parts) == AddParts(labels, parts[i..])
    {
      assert parts[i..][1..] == parts[i + 1..];
      var at := Find(parts[i], "=");
      if at >= 0 {
        labels := labels[parts[i][..at] := parts[i][at + 1..]];
      }
    }
  }

  /** Names without the two separators, values without the bar. */
  ghost predicate Clean(labels: Labels) {
    forall k :: k in labels ==> Free(k, '=') && Free(k, BAR) && Free(labels[k], BAR)
  }

  // ---------- printing and reading back ----------

  lemma PairRead(labels: Labels, k: string, v: string)
    requires Free(k, '=')
    ensures AddPart(labels, k + "=" + v) == labels[k := v]
  {
    FindAfter(k, "=", v);
    assert (k + "=" + v)[..|k|] == k && (k + "=" + v)[|k| + 1..] == v;
  }

  /** Reading the printed pairs of some names adds just those labels. */
  lemma {:induction false} PairsRead(start: Labels, labels: Labels, names: seq<string>)
    requires forall i :: 0 <= i < |names| ==> names[i] in labels && Free(names[i], '=')
    ensures var r := AddParts(start, Pairs(labels, names));
      && (forall k :: k in r <==> k in start || k in names)
      && (forall k :: k in names ==> r[k] == labels[k])
      && (forall k :: k in start && k !in names ==> r[k] == start[k])
    decreases |names|
  {
    if names != [] {
      var k := names[0];
      PairRead(start, k, labels[k]);
      assert Pairs(labels, names)[1..] == Pairs(labels, names[1..]);
      assert names == [k] + names[1..];
      PairsRead(start[k := labels[k]], labels, names[1..]);
    }
  }

  lemma {:induction false} AddPartsClean(start: Labels, parts: seq<string>)
    requires Clean(start) && AllFree(parts, BAR)
    ensures Clean(AddParts(start, parts))
    decreases |parts|
  {
    if parts != [] {
      var at := Find(parts[0], "=");
      if at >= 0 {
        BeforeFirst(parts[0], "=");
      }
      AddPartsClean(AddPart(start, parts[0]), parts[1..]);
    }
  }

  lemma {:induction false} BeforeFirst(s: string, pat: string)
    requires |pat| == 1 && Find(s, pat) >= 0
    ensures Free(s[..Find(s, pat)], pat[0])
  {
    if s[..1] != pat {
      BeforeFirst(s[1..], pat);
      assert s[..Find(s, pat)] == [s[0]] + s[1..][..Find(s[1..], pat)];
      assert s[..1] == [s[0]] && pat == [pat[0]];
    }
  }

  lemma PartsFree(labels: Labels, names: seq<string>)
    requires Clean(labels) && Lists(names, labels.Keys)
    ensures forall i :: 0 <= i < |names| ==> names[i] in labels && Free(names[i], '=')
    ensures AllFree(Pairs(labels, names), BAR)
  {
    forall i | 0 <= i < |names| ensures names[i] in labels && Free(Pairs(labels, names)[i], BAR) {
      assert names[i] in names;
    }
  }

  lemma KeyOfClean(names: seq<string>, labels: Labels)
    requires Lists(names, labels.Keys) && Clean(labels)
    ensures Parsed(Join(Pairs(labels, names), BAR)) == AddParts(map[], Pairs(labels, names))
  {
    var parts := Pairs(labels, names);
    PartsFree(labels, names);
    if parts != [] {
      SplitJoin(parts, BAR);
      JoinNotEmpty(parts);
    }
  }

  lemma JoinNotEmpty(parts: seq<string>)
    requires parts != [] && parts[0] != ""
    ensures Join(parts, BAR) != ""
  {}

  lemma CleanReadBack(names: seq<string>, labels: Labels)
    requires Lists(names, labels.Keys) && Clean(labels)
    ensures Parsed(Join(Pairs(labels, names), BAR)) == labels
  {
    PartsFree(labels, names);
    PairsRead(map[], labels, names);
    KeyOfClean(names, labels);
    assert AddParts(map[], Pairs(labels, names)).Keys == labels.Keys;
  }

  lemma ReadBackIsClean(key: string)
    ensures Clean(Parsed(key))
  {
    SplitFree(key, BAR);
    AddPartsClean(map[], Split(key, BAR));
  }

  /** Parsing a series key gives the label map back exactly when names avoid both separators and
  values avoid the bar. */
  lemma KeyReadBack(key: string, labels: Labels)
    requires IsKey(key, labels)
    ensures Parsed(key) == labels <==> Clean(labels)
  {
    ReadBackIsClean(key);
    if Clean(labels) {
      var names :| Lists(names, labels.Keys) && key == Join(Pairs(labels, names), BAR);
      CleanReadBack(names, labels);
    }
  }

  /** Distinct clean label maps never share a series. */
  lemma SeriesAreDistinct(key: string, a: Labels, b: Labels)
    requires IsKey(key, a) && IsKey(key, b) && Clean(a) && Clean(b)
    ensures a == b
  {
    KeyReadBack(key, a);
    KeyReadBack(key, b);
  }

  /** A label map has only one key. */
  lemma KeyIsUnique(key: string, other: string, labels: Labels)
    requires IsKey(key, labels) && IsKey(other, labels)
    ensures key == other
  {
    var names :| Lists(names, labels.Keys) && key == Join(Pairs(labels, names), BAR);
    var others :| Lists(others, labels.Keys) && other == Join(Pairs(labels, others), BAR);
    ListsUnique(names, others, labels.Keys);
  }

  /** A bar in a value makes two different label maps share a series. */
  lemma BarInValueCollides()
    ensures var a: Labels, b: Labels := map["x" := "1|y=2"], map["x" := "1", "y" := "2"];
      a != b && IsKey("x=1|y=2", a) && IsKey("x=1|y=2", b)
  {
    var a: Labels, b: Labels := map["x" := "1|y=2"], map["x" := "1", "y" := "2"];
    assert "x" in a && "y" !in a && "y" in b;
    var one, two := ["x"], ["x", "y"];
    assert Lists(one, a.Keys) && Less("x", "y") && Lists(two, b.Keys);
    var p, q := Pairs(a, one), Pairs(b, two);
    assert p[0] == "x" + "=" + "1|y=2" == "x=1|y=2";
    assert q[0] == "x" + "=" + "1" == "x=1" && q[1] == "y" + "=" + "2" == "y=2";
    assert q[1..] == [q[1]] && Join(q, BAR) == q[0] + [BAR] + q[1];
    assert Join(p, BAR) == p[0];
    assert "x=1" + [BAR] + "y=2" == "x=1|y=2";
  }
}
