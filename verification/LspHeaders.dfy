/** Header blocks of any shape on the pipe to a language server (rice_factor/adapters/lsp/client.py):
other lines before and after the length line, the field name in any case, blanks around the number,
and blocks without a usable length. */
module LspHeaders {
  import opened Sequences
  import opened Text
  import opened LspFraming

  const CRLF := "\r\n"

  function JoinCrlf(lines: seq<string>): string {
    if lines == [] then ""
    else if |lines| == 1 then lines[0]
    else lines[0] + CRLF + JoinCrlf(lines[1..])
  }

  /** Lines without carriage return, none of them empty. */
  ghost predicate HeaderLines(lines: seq<string>) {
    forall i :: 0 <= i < |lines| ==> lines[i] != "" && Free(lines[i], '\r')
  }

  // ---------- the lines of a block ----------

  /** The first length line decides, wherever it stands. */
  lemma {:induction false} FirstLengthLine(lines: seq<string>, i: nat)
    requires i < |lines| && IsLengthLine(lines[i]) && forall j :: 0 <= j < i ==> !IsLengthLine(lines[j])
    ensures LengthIn(lines) == LineLength(lines[i])
  {
    if i > 0 {
      FirstLengthLine(lines[1..], i - 1);
    }
  }

  lemma {:induction false} NoLengthLine(lines: seq<string>)
    requires forall j :: 0 <= j < |lines| ==> !IsLengthLine(lines[j])
    ensures LengthIn(lines) == Missing
  {
    if lines != [] {
      NoLengthLine(lines[1..]);
    }
  }

  /** No carriage return with a newline behind it; each of them alone may occur. */
  ghost predicate Unbroken(line: string) {
    forall i :: 0 <= i < |line| - 1 && line[i] == '\r' ==> line[i + 1] != '\n'
  }

  lemma {:induction false} SplitCrlfUnbroken(line: string)
    requires Unbroken(line)
    ensures SplitCrlf(line) == [line]
  {
    if |line| >= 2 {
      SplitCrlfUnbroken(line[1..]);
      assert [line[0]] + line[1..] == line;
    }
  }

  lemma {:induction false} SplitCrlfFirst(line: string, rest: string)
    requires Unbroken(line)
    ensures SplitCrlf(line + CRLF + rest) == [line] + SplitCrlf(rest)
  {
    var s := line + CRLF + rest;
    if line == "" {
      assert s[2..] == rest;
    } else {
      assert s[1..] == line[1..] + CRLF + rest;
      assert s[0] == line[0] && (|line| > 1 ==> s[1] == line[1]) && (|line| == 1 ==> s[1] == '\r');
      SplitCrlfFirst(line[1..], rest);
      assert [line[0]] + line[1..] == line;
      assert ([line[1..]] + SplitCrlf(rest))[1..] == SplitCrlf(rest);
    }
  }

  /** A block is read as the lines it was joined from. */
  lemma {:induction false} SplitCrlfJoined(lines: seq<string>)
    requires lines != [] && forall i :: 0 <= i < |lines| ==> Unbroken(lines[i])
    ensures SplitCrlf(JoinCrlf(lines)) == lines
  {
    if |lines| == 1 {
      SplitCrlfUnbroken(lines[0]);
    } else {
      SplitCrlfFirst(lines[0], JoinCrlf(lines[1..]));
      SplitCrlfJoined(lines[1..]);
    }
  }

  lemma {:induction false} FindPastLine(line: string, rest: string)
    requires Free(line, '\r') && rest != "" && rest[0] != '\r' && Find(rest, SEPARATOR) >= 0
    ensures Find(line + CRLF + rest, SEPARATOR) == |line| + 2 + Find(rest, SEPARATOR)
    decreases |line|
  {
    var s := line + CRLF + rest;
    if line == "" {
      assert s == ['\r', '\n'] + rest && s[1..][1..] == rest;
      assert s[..4][2] == rest[0] && s[1..][..4][0] == '\n';
    } else {
      assert s[1..] == line[1..] + CRLF + rest;
      assert s[..4][0] == line[0] != '\r';
      FindPastLine(line[1..], rest);
    }
  }

  lemma RegroupBlock(line: string, rest: string, tail: string)
    ensures (line + CRLF + rest) + SEPARATOR + tail == line + CRLF + (rest + SEPARATOR + tail)
  {}

  /** The separator is found behind the whole block. */
  lemma {:induction false} BlockEnd(lines: seq<string>, tail: string)
    requires lines != [] && HeaderLines(lines)
    ensures JoinCrlf(lines) != "" && JoinCrlf(lines)[0] != '\r'
    ensures Find(JoinCrlf(lines) + SEPARATOR + tail, SEPARATOR) == |JoinCrlf(lines)|
  {
    if |lines| == 1 {
      FindAfter(lines[0], SEPARATOR, tail);
    } else {
      var rest := JoinCrlf(lines[1..]);
      BlockEnd(lines[1..], tail);
      FindPastLine(lines[0], rest + SEPARATOR + tail);
      RegroupBlock(lines[0], rest, tail);
    }
  }

  // ---------- the length line ----------

  /** The letters of the field name, each of them small or capital. */
  ghost predicate IsFieldName(name: string) {
    && |name| == 14
    && forall i :: 0 <= i < 14 ==>
         || name[i] == "content-length"[i]
         || ('A' <= name[i] <= 'Z' && name[i] as int + 32 == "content-length"[i] as int)
  }

  lemma FieldNameMatches(name: string, value: string)
    requires IsFieldName(name)
    ensures IsLengthLine(name + ":" + value) && Free(name, ':')
  {
    var line := name + ":" + value;
    assert line[..15] == name + ":" && LENGTH_FIELD == "content-length" + ":";
    forall i | 0 <= i < 14 ensures name[i] != ':' && LowerChar(name[i]) == "content-length"[i] {}
    assert Lower(line[..15]) == LENGTH_FIELD;
  }

  /** Only such lines are length lines. */
  lemma OnlyFieldNamesMatch(line: string)
    ensures IsLengthLine(line) ==> |line| >= 15 && IsFieldName(line[..14]) && line[14] == ':'
  {
    if IsLengthLine(line) {
      assert LENGTH_FIELD == "content-length" + ":";
      forall i | 0 <= i < 15 ensures LowerChar(line[i]) == LENGTH_FIELD[i] {
        assert Lower(line[..15])[i] == LowerChar(line[..15][i]);
      }
    }
  }

  lemma {:induction false} StripPadded(before: string, s: string, after: string)
    requires IsBlank(before) && IsBlank(after) && Trimmed(s)
    ensures Strip(before + s + after) == s
  {
    assert before + s + after == before + (s + after);
    LStripAppend(before, s + after);
    assert LStrip(s + after) == s + after;
    RStripPadded(s, after);
  }

  lemma {:induction false} RStripPadded(s: string, after: string)
    requires IsBlank(after) && Trimmed(s)
    ensures RStrip(s + after) == s
    decreases |after|
  {
    if after == "" {
      assert s + after == s;
    } else {
      var shorter := after[..|after| - 1];
      assert (s + after)[..|s + after| - 1] == s + shorter;
      RStripPadded(s, shorter);
    }
  }

  /** The length on a line, Missing if it is no length line. */
  function LineLengthOf(line: string): HeaderLength {
    if IsLengthLine(line) then LineLength(line) else Missing
  }

  lemma NumberRead(before: string, n: nat, after: string)
    requires IsBlank(before) && IsBlank(after)
    ensures ParseInt(before + Decimal(n) + after) == Some(n) && Free(before + Decimal(n) + after, ':')
  {
    var d := Decimal(n);
    assert IsDigit(d[0]) && IsDigit(d[|d| - 1]) && forall i :: 0 <= i < |d| ==> IsDigit(d[i]);
    StripPadded(before, d, after);
    StripTrimmed(d);
    ParseDecimal(n);
  }

  lemma LengthBehindColon(name: string, value: string, more: string)
    requires IsFieldName(name) && Free(value, ':')
    ensures IsLengthLine(name + ":" + value) && Split(name + ":" + value, ':')[1..] == [value]
    ensures IsLengthLine(name + ":" + value + ":" + more)
    ensures var parts := Split(name + ":" + value + ":" + more, ':'); |parts| > 1 && parts[1] == value
  {
    FieldNameMatches(name, value);
    FieldNameMatches(name, value + ":" + more);
    SplitWhole(name, ':');
    SplitWhole(value, ':');
    SplitConcat(name, ':', value);
    SplitConcat(name + ":" + value, ':', more);
    assert name + ":" + value == name + [':'] + value;
    assert name + ":" + value + ":" + more == (name + ":" + value) + [':'] + more;
    assert name + ":" + value + ":" + more == name + ":" + (value + ":" + more);
  }

  lemma ValueRead(name: string, value: string, n: int, more: string)
    requires IsFieldName(name) && Free(value, ':') && ParseInt(value) == Some(n)
    ensures LineLengthOf(name + ":" + value) == Length(n)
    ensures LineLengthOf(name + ":" + value + ":" + more) == Length(n)
  {
    LengthBehindColon(name, value, more);
  }

  /** A length line in any case, with blanks around the number and more colons behind it or not. */
  lemma LengthLineRead(name: string, before: string, n: nat, after: string, more: string)
    requires IsFieldName(name) && IsBlank(before) && IsBlank(after)
    ensures LineLengthOf(name + ":" + (before + Decimal(n) + after)) == Length(n)
    ensures LineLengthOf(name + ":" + (before + Decimal(n) + after) + ":" + more) == Length(n)
  {
    NumberRead(before, n, after);
    ValueRead(name, before + Decimal(n) + after, n, more);
  }

  /** A length line whose value is no number ends the reader. */
  lemma MalformedLine(name: string, value: string)
    requires IsFieldName(name) && Free(value, ':') && ParseInt(value) == None
    ensures LineLengthOf(name + ":" + value) == Malformed
  {
    LengthBehindColon(name, value, "");
  }

  // ---------- whole streams ----------

  /** A message with any other header lines around its length line. */
  datatype Packet = Packet(before: seq<string>, name: string, blank: string, after: seq<string>, body: string)

  function HeaderOf(p: Packet): seq<string> {
    p.before + [p.name + ":" + (p.blank + Decimal(|p.body|))] + p.after
  }

  function Bytes(p: Packet): string {
    JoinCrlf(HeaderOf(p)) + SEPARATOR + p.body
  }

  function AllBytes(ps: seq<Packet>): string {
    if ps == [] then "" else Bytes(ps[0]) + AllBytes(ps[1..])
  }

  function Bodies(ps: seq<Packet>): (r: seq<string>)
    ensures |r| == |ps| && forall i :: 0 <= i < |ps| ==> r[i] == ps[i].body
  {
    seq(|ps|, i requires 0 <= i < |ps| => ps[i].body)
  }

  /** The length line is the first one in the block, and the block is text. */
  ghost predicate Framed<M>(wire: Wire<M>, p: Packet) {
    && IsFieldName(p.name) && IsBlank(p.blank) && HeaderLines(HeaderOf(p))
    && (forall i :: 0 <= i < |p.before| ==> !IsLengthLine(p.before[i]))
    && wire.headerOk(JoinCrlf(HeaderOf(p)))
  }

  ghost predicate WellPacked<M>(wire: Wire<M>, p: Packet) {
    Framed(wire, p) && !wire.decode(p.body).Undecodable?
  }

  /** Where the parts of a buffer that starts with a block are. */
  lemma BlockParts(lines: seq<string>, body: string, tail: string)
    requires lines != [] && HeaderLines(lines)
    ensures var h := JoinCrlf(lines);
      var buffer, start := (h + SEPARATOR + body) + tail, |h| + 4;
      && |buffer| == start + |body| + |tail|
      && Find(buffer, SEPARATOR) == |h| && buffer[..|h|] == h && buffer[start..] == body + tail
      && buffer[start..start + |body|] == body && buffer[start + |body|..] == tail
  {
    var h := JoinCrlf(lines);
    BlockEnd(lines, body + tail);
    assert (h + SEPARATOR + body) + tail == h + SEPARATOR + (body + tail);
  }

  lemma BlockAnnounces<M>(wire: Wire<M>, lines: seq<string>)
    requires lines != [] && HeaderLines(lines)
    ensures var h := JoinCrlf(lines);
      Announces(wire, h) ==
        if !wire.headerOk(h) then Unreadable
        else
          match LengthIn(lines)
          case Missing => Nothing
          case Malformed => Unreadable
          case Length(n) => End(|h| + 4 + n)
  {
    SplitCrlfJoined(lines);
  }

  /** The turn on a block without an end to its message. */
  lemma BlockTurn<M>(wire: Wire<M>, lines: seq<string>, tail: string)
    requires lines != [] && HeaderLines(lines)
    ensures var says, t := Announces(wire, JoinCrlf(lines)), ParseOne(wire, JoinCrlf(lines) + SEPARATOR + tail);
      && (says.Nothing? ==> t == Skip(tail))
      && (says.Unreadable? ==> t == Broken)
  {
    var h := JoinCrlf(lines);
    BlockParts(lines, "", tail);
    assert "" + tail == tail && (h + SEPARATOR + "") + tail == h + SEPARATOR + tail;
  }

  lemma PacketLength(p: Packet)
    requires IsFieldName(p.name) && IsBlank(p.blank)
    requires forall i :: 0 <= i < |p.before| ==> !IsLengthLine(p.before[i])
    ensures LengthIn(HeaderOf(p)) == Length(|p.body|)
  {
    var lines, value := HeaderOf(p), p.blank + Decimal(|p.body|);
    NumberRead(p.blank, |p.body|, "");
    assert value + "" == value;
    ValueRead(p.name, value, |p.body|, "");
    FieldNameMatches(p.name, value);
    FirstLengthLine(lines, |p.before|);
  }

  lemma PacketAnnounces<M>(wire: Wire<M>, p: Packet)
    requires Framed(wire, p)
    ensures var h := JoinCrlf(HeaderOf(p)); Announces(wire, h) == End(|h| + 4 + |p.body|)
  {
    PacketLength(p);
    BlockAnnounces(wire, HeaderOf(p));
  }

  /** A packet is taken off the front, whatever follows it. */
  lemma PacketFound<M>(wire: Wire<M>, p: Packet, tail: string)
    requires Framed(wire, p)
    ensures ParseOne(wire, Bytes(p) + tail) == Found(p.body, tail)
    ensures AnnouncedEnd(wire, Bytes(p) + tail).Some? && AnnouncedEnd(wire, Bytes(p) + tail).value >= 0
  {
    PacketAnnounces(wire, p);
    BlockParts(HeaderOf(p), p.body, tail);
  }

  /** Any packets are read as their messages, and then the rest is read. */
  lemma {:induction false} PacketsRead<M>(wire: Wire<M>, ps: seq<Packet>, tail: string)
    requires forall i :: 0 <= i < |ps| ==> WellPacked(wire, ps[i])
    ensures Drain(wire, AllBytes(ps) + tail) == Prepend(Messages(wire, Bodies(ps)), Drain(wire, tail))
  {
    if ps == [] {
      assert "" + tail == tail && [] + Drain(wire, tail).messages == Drain(wire, tail).messages;
    } else {
      PacketsRead(wire, ps[1..], tail);
      PacketFound(wire, ps[0], AllBytes(ps[1..]) + tail);
      assert AllBytes(ps) + tail == Bytes(ps[0]) + (AllBytes(ps[1..]) + tail);
      FirstMessage(wire, Bodies(ps), Drain(wire, tail));
      assert Bodies(ps)[1..] == Bodies(ps[1..]);
    }
  }

  lemma FirstMessage<M>(wire: Wire<M>, bodies: seq<string>, r: Received<M>)
    requires bodies != []
    ensures var rest := Prepend(Messages(wire, bodies[1..]), r);
      Prepend(Messages(wire, bodies), r) ==
        match wire.decode(bodies[0])
        case Response(id, m) => Prepend([(id, m)], rest)
        case _ => rest
  {
    var b := wire.decode(bodies[0]);
    if b.Response? {
      var one, rest := [(b.id, b.message)], Messages(wire, bodies[1..]);
      assert (one + rest) + r.messages == one + (rest + r.messages);
    }
  }

  lemma {:induction false} PacketsForward<M>(wire: Wire<M>, ps: seq<Packet>)
    requires forall i :: 0 <= i < |ps| ==> WellPacked(wire, ps[i])
    ensures Forward(wire, AllBytes(ps))
  {
    if ps != [] {
      PacketsForward(wire, ps[1..]);
      PacketFound(wire, ps[0], AllBytes(ps[1..]));
    }
  }

  /** Messages with any header lines arrive intact through any cutting into reads. */
  lemma PacketsReadInChunks<M>(wire: Wire<M>, ps: seq<Packet>, chunks: seq<string>)
    requires forall i :: 0 <= i < |ps| ==> WellPacked(wire, ps[i])
    requires Stream(chunks) == AllBytes(ps)
    ensures FeedAll(wire, Received([], "", Running), chunks) == Received(Messages(wire, Bodies(ps)), "", Running)
  {
    PacketsRead(wire, ps, "");
    assert AllBytes(ps) + "" == AllBytes(ps);
    PacketsForward(wire, ps);
    ChunkingIndependent(wire, chunks);
    assert Messages(wire, Bodies(ps)) + [] == Messages(wire, Bodies(ps));
  }

  /** Behind any packets: a block without length line is skipped, one with a length that is no number
  or with bytes that are no text ends the reader, and so does a body that cannot be decoded. The
  messages before stay delivered. */
  lemma AfterPackets<M>(wire: Wire<M>, ps: seq<Packet>, lines: seq<string>, tail: string)
    requires forall i :: 0 <= i < |ps| ==> WellPacked(wire, ps[i])
    requires lines != [] && HeaderLines(lines)
    ensures var got, next := Messages(wire, Bodies(ps)), JoinCrlf(lines) + SEPARATOR + tail;
      && (!wire.headerOk(JoinCrlf(lines)) ==> Drain(wire, AllBytes(ps) + next) == Received(got, "", Dead))
      && (wire.headerOk(JoinCrlf(lines)) ==>
            && (LengthIn(lines) == Missing ==> Drain(wire, AllBytes(ps) + next) == Prepend(got, Drain(wire, tail)))
            && (LengthIn(lines) == Malformed ==> Drain(wire, AllBytes(ps) + next) == Received(got, "", Dead)))
  {
    var got, h := Messages(wire, Bodies(ps)), JoinCrlf(lines);
    PacketsRead(wire, ps, h + SEPARATOR + tail);
    assert got + [] == got;
    BlockAnnounces(wire, lines);
    BlockTurn(wire, lines, tail);
  }

  lemma UndecodableEnds<M>(wire: Wire<M>, ps: seq<Packet>, p: Packet, tail: string)
    requires forall i :: 0 <= i < |ps| ==> WellPacked(wire, ps[i])
    requires Framed(wire, p) && wire.decode(p.body).Undecodable?
    ensures Drain(wire, AllBytes(ps) + (Bytes(p) + tail)) == Received(Messages(wire, Bodies(ps)), "", Dead)
  {
    PacketsRead(wire, ps, Bytes(p) + tail);
    PacketFound(wire, p, tail);
    assert Messages(wire, Bodies(ps)) + [] == Messages(wire, Bodies(ps));
  }

  /** A type line before the length line does not hide the message. */
  lemma TypeLineFirst(n: nat)
    ensures LengthIn(["Content-Type: x", "Content-Length" + ":" + (" " + Decimal(n))]) == Length(n)
  {
    var line := "Content-Length" + ":" + (" " + Decimal(n));
    TypeLineIsNone();
    CapitalName();
    NumberRead(" ", n, "");
    assert " " + Decimal(n) + "" == " " + Decimal(n);
    ValueRead("Content-Length", " " + Decimal(n), n, "");
    FieldNameMatches("Content-Length", " " + Decimal(n));
    FirstLengthLine(["Content-Type: x", line], 1);
  }

  lemma CapitalName()
    ensures IsFieldName("Content-Length")
  {}

  lemma TypeLineIsNone()
    ensures !IsLengthLine("Content-Type: x")
  {
    OnlyFieldNamesMatch("Content-Type: x");
    assert "Content-Type: x"[14] == 'x';
  }

  /** An empty read ends the reader, whatever would follow. */
  lemma {:induction false} EmptyReadEnds<M>(wire: Wire<M>, r: Received<M>, chunks: seq<string>, more: seq<string>)
    ensures FeedAll(wire, r, chunks + [""] + more) == FeedAll(wire, r, chunks)
    decreases |chunks|
  {
    var all := chunks + [""] + more;
    if chunks == [] {
      assert all[0] == "";
    } else if chunks[0] != "" {
      assert all[1..] == chunks[1..] + [""] + more && all[0] == chunks[0];
      EmptyReadEnds(wire, Feed(wire, r, chunks[0]), chunks[1..], more);
    }
  }

  /** A reader that has ended takes nothing in. */
  lemma EndedTakesNothing<M>(wire: Wire<M>, r: Received<M>, data: string)
    requires r.status != Running
    ensures Feed(wire, r, data) == r
  {}

  // ---------- slices ----------

  /** Ends counted from the front and from the back. */
  lemma SlicesRead(a: string, b: string, c: string)
    ensures SliceFrom(a + b, |a|) == b && (b != "" ==> SliceFrom(a + b, -|b|) == b)
    ensures SliceTo(a + b + c, |a|, |a| + |b|) == b && (c != "" ==> SliceTo(a + b + c, |a|, -|c|) == b)
  {
    assert (a + b)[|a|..] == b;
    assert (a + b + c)[|a|..|a| + |b|] == b;
  }

  /** Ends outside the buffer stand for its nearer end. */
  lemma SlicesOutside(s: string, i: nat, n: nat, before: nat)
    requires n >= |s| && before <= i
    ensures SliceFrom(s, n) == "" && SliceFrom(s, -(n as int)) == s
    ensures SliceTo(s, i, n) == if i < |s| then s[i..] else ""
    ensures SliceTo(s, i, -(n as int)) == "" && SliceTo(s, i, before) == ""
  {
    assert s[0..] == s;
  }

  /** A negative end inside the buffer: the content reaches to it, and the loop goes on behind it. */
  lemma BackTurn(a: string, b: string, c: string)
    requires c != "" && a != ""
    ensures TakeUpTo(a + b + c, |a|, -|c|) == Found(b, c)
  {
    SlicesRead(a, b, c);
    SlicesRead(a + b, c, "");
    assert a + b + c == (a + b) + c;
  }
}
