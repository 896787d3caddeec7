/** Message framing on the pipe to a language server (rice_factor/adapters/lsp/client.py).

The Base Protocol ("Header Part") of the Language Server Protocol 3.17 puts a header block with
a Content-Length line before every body. A byte is written as the character with its code. */
module LspFraming {
  import opened Sequences
  import opened Text

  /** What a body turns out to be: a message with an id, something to ignore (no id, or text
  that is not JSON), or bytes on which decoding raises, which ends the reader. */
  datatype Body<+M> = Response(id: int, message: M) | Ignored | Undecodable

  /** The parts of decoding that are not modelled: UTF-8 headers and JSON bodies. */
  datatype Wire<!M> = Wire(headerOk: string -> bool, decode: string -> Body<M>)

  ghost predicate AcceptsAscii<M>(wire: Wire<M>) {
    forall h: string :: Ascii(h) ==> wire.headerOk(h)
  }

  const SEPARATOR := "\r\n\r\n"
  const LENGTH_FIELD := "content-length:"

  datatype HeaderLength = Missing | Malformed | Length(n: int)

  function SplitCrlf(s: string): (parts: seq<string>)
    ensures |parts| >= 1
  {
    if |s| < 2 then [s]
    else if s[0] == '\r' && s[1] == '\n' then [""] + SplitCrlf(s[2..])
    else
      var rest := SplitCrlf(s[1..]);
      [[s[0]] + rest[0]] + rest[1..]
  }

  predicate IsLengthLine(line: string) {
    |line| >= 15 && Lower(line[..15]) == LENGTH_FIELD
  }

  function LineLength(line: string): HeaderLength
    requires IsLengthLine(line)
  {
    HasColon(line);
    var v := ParseInt(Split(line, ':')[1]);
    if v.None? then Malformed else Length(v.value)
  }

  /** The first length line decides. */
  function LengthIn(lines: seq<string>): HeaderLength {
    if lines == [] then Missing
    else if IsLengthLine(lines[0]) then LineLength(lines[0])
    else LengthIn(lines[1..])
  }

  lemma HasColon(line: string)
    requires IsLengthLine(line)
    ensures |Split(line, ':')| >= 2
  {
    assert Lower(line[..15])[14] == ':';
    assert line[14] == ':';
    assert line == line[..14] + [':'] + line[15..];
    SplitConcat(line[..14], ':', line[15..]);
  }

  /** Slicing with an end that may be negative: a negative end counts from the back. */
  function SliceFrom(s: string, i: int): string {
    var at := if i >= 0 then i else if i + |s| >= 0 then i + |s| else 0;
    if at > |s| then "" else s[at..]
  }

  function SliceTo(s: string, i: nat, j: int): string {
    var to := if j > |s| then |s| else if j >= 0 then j else if j + |s| >= 0 then j + |s| else 0;
    if to <= i then "" else s[i..to]
  }

  /** One turn of the parsing loop on the bytes received so far. Stuck: the loop goes round with the
  same bytes for ever, reading an empty content that is no JSON. */
  datatype Turn = NeedMore | Skip(rest: string) | Broken | Stuck | Found(content: string, rest: string)

  /** What a header announces: the end of its message, counted from the start of the buffer. */
  datatype Announced = Nothing | Unreadable | End(end: int)

  function Announces<M>(wire: Wire<M>, header: string): Announced {
    if !wire.headerOk(header) then Unreadable
    else
      match LengthIn(SplitCrlf(header))
      case Missing => Nothing
      case Malformed => Unreadable
      case Length(n) => End(|header| + 4 + n)
  }

  /** The turn on a buffer up to the end of a message, which may be negative. */
  function TakeUpTo(buffer: string, start: nat, end: int): (t: Turn)
    ensures t.Found? ==> |t.rest| < |buffer|
  {
    if |buffer| < end then NeedMore
    else if end == 0 || end <= -|buffer| then Stuck
    else Found(SliceTo(buffer, start, end), SliceFrom(buffer, end))
  }

  /** The turn once the header is complete. */
  function ParseBody<M>(wire: Wire<M>, buffer: string, headerEnd: nat): (t: Turn)
    requires headerEnd + 4 <= |buffer|
    ensures t.Skip? || t.Found? ==> |t.rest| < |buffer|
  {
    match Announces(wire, buffer[..headerEnd])
    case Nothing => Skip(buffer[headerEnd + 4..])
    case Unreadable => Broken
    case End(end) => TakeUpTo(buffer, headerEnd + 4, end)
  }

  function ParseOne<M>(wire: Wire<M>, buffer: string): (t: Turn)
    ensures t.Skip? || t.Found? ==> |t.rest| < |buffer|
  {
    var headerEnd := Find(buffer, SEPARATOR);
    if headerEnd == -1 then NeedMore else ParseBody(wire, buffer, headerEnd)
  }

  /** Running: waiting for bytes. Dead: the reader thread has ended on an exception.
  Stalled: it goes round for ever. */
  datatype Status = Running | Dead | Stalled

  datatype Received<+M> = Received(messages: seq<(int, M)>, leftover: string, status: Status)

  function Prepend<M>(m: seq<(int, M)>, r: Received<M>): Received<M> {
    r.(messages := m + r.messages)
  }

  /** All messages that a buffer contains, and the bytes of the unfinished one. */
  function Drain<M>(wire: Wire<M>, buffer: string): Received<M>
    decreases |buffer|
  {
    match ParseOne(wire, buffer)
    case NeedMore => Received([], buffer, Running)
    case Skip(rest) => Drain(wire, rest)
    case Broken => Received([], "", Dead)
    case Stuck => Received([], "", Stalled)
    case Found(content, rest) =>
      match wire.decode(content)
      case Response(id, m) => Prepend([(id, m)], Drain(wire, rest))
      case Ignored => Drain(wire, rest)
      case Undecodable => Received([], "", Dead)
  }

  /** One read of the reader thread. */
  function Feed<M>(wire: Wire<M>, r: Received<M>, data: string): Received<M> {
    if r.status == Running then Prepend(r.messages, Drain(wire, r.leftover + data)) else r
  }

  /** The reads in order; an empty read is the end of the stream. */
  function FeedAll<M>(wire: Wire<M>, r: Received<M>, chunks: seq<string>): Received<M>
    decreases |chunks|
  {
    if chunks == [] || chunks[0] == "" then r else FeedAll(wire, Feed(wire, r, chunks[0]), chunks[1..])
  }

  function Stream(chunks: seq<string>): string {
    if chunks == [] || chunks[0] == "" then "" else chunks[0] + Stream(chunks[1..])
  }

  // ---------- chunking independence ----------

  /** The end of the message that a complete header announces, or None. */
  function AnnouncedEnd<M>(wire: Wire<M>, buffer: string): Option<int> {
    var headerEnd := Find(buffer, SEPARATOR);
    if headerEnd == -1 then None
    else
      match Announces(wire, buffer[..headerEnd])
      case End(end) => Some(end)
      case _ => None
  }

  /** No turn on this buffer announces an end before its first byte. */
  ghost predicate Forward<M>(wire: Wire<M>, buffer: string)
    decreases |buffer|
  {
    && (AnnouncedEnd(wire, buffer).Some? ==> AnnouncedEnd(wire, buffer).value >= 0)
    && match ParseOne(wire, buffer)
       case Skip(rest) => Forward(wire, rest)
       case Found(content, rest) => wire.decode(content).Undecodable? || Forward(wire, rest)
       case _ => true
  }

  ghost predicate Extends(t: Turn, later: Turn, b: string) {
    match t
    case NeedMore => true
    case Skip(rest) => later == Skip(rest + b)
    case Found(content, rest) => later == Found(content, rest + b)
    case _ => later == t
  }

  lemma TakeStable(a: string, start: nat, end: int, b: string)
    requires end >= 0
    ensures Extends(TakeUpTo(a, start, end), TakeUpTo(a + b, start, end), b)
  {
    if 0 < end <= |a| {
      assert start <= end ==> (a + b)[start..end] == a[start..end];
      assert (a + b)[end..] == a[end..] + b;
    }
  }

  /** More bytes behind a complete header do not change it. */
  lemma HeaderStable(a: string, b: string)
    requires Find(a, SEPARATOR) >= 0
    ensures var e := Find(a, SEPARATOR);
      Find(a + b, SEPARATOR) == e && (a + b)[..e] == a[..e] && (a + b)[e + 4..] == a[e + 4..] + b
  {
    FindAppend(a, b, SEPARATOR);
  }

  lemma AnnouncedStable<M>(wire: Wire<M>, a: string, b: string)
    requires AnnouncedEnd(wire, a).Some?
    ensures AnnouncedEnd(wire, a + b) == AnnouncedEnd(wire, a)
  {
    HeaderStable(a, b);
  }

  /** A decision taken on the first bytes stands when more arrive, unless it counted from the back. */
  lemma ParseOneStable<M>(wire: Wire<M>, a: string, b: string)
    requires AnnouncedEnd(wire, a).Some? ==> AnnouncedEnd(wire, a).value >= 0
    ensures Extends(ParseOne(wire, a), ParseOne(wire, a + b), b)
  {
    var e := Find(a, SEPARATOR);
    if e >= 0 {
      HeaderStable(a, b);
      var says := Announces(wire, a[..e]);
      if says.End? {
        TakeStable(a, e + 4, says.end, b);
      }
    }
  }

  lemma {:induction false} ForwardPrefix<M>(wire: Wire<M>, a: string, b: string)
    requires Forward(wire, a + b)
    ensures Forward(wire, a)
    decreases |a|
  {
    if AnnouncedEnd(wire, a).Some? {
      AnnouncedStable(wire, a, b);
    }
    ParseOneStable(wire, a, b);
    match ParseOne(wire, a)
    case Skip(rest) => ForwardPrefix(wire, rest, b);
    case Found(content, rest) =>
      if !wire.decode(content).Undecodable? {
        ForwardPrefix(wire, rest, b);
      }
    case _ =>
  }

  lemma PrependFeed<M>(wire: Wire<M>, first: seq<(int, M)>, r: Received<M>, b: string)
    ensures Prepend(first, Feed(wire, r, b)) == Feed(wire, Prepend(first, r), b)
  {
    var more := Drain(wire, r.leftover + b).messages;
    assert first + (r.messages + more) == (first + r.messages) + more;
  }

  /** Draining early and resuming is draining late. */
  lemma {:induction false} DrainResumes<M>(wire: Wire<M>, a: string, b: string)
    requires Forward(wire, a)
    ensures Drain(wire, a + b) == Feed(wire, Drain(wire, a), b)
    decreases |a|
  {
    ParseOneStable(wire, a, b);
    match ParseOne(wire, a)
    case NeedMore =>
    case Skip(rest) => DrainResumes(wire, rest, b);
    case Broken =>
    case Stuck =>
    case Found(content, rest) =>
      match wire.decode(content)
      case Response(id, m) =>
        DrainResumes(wire, rest, b);
        PrependFeed(wire, [(id, m)], Drain(wire, rest), b);
      case Ignored => DrainResumes(wire, rest, b);
      case Undecodable =>
  }

  lemma StreamStep(prefix: string, chunks: seq<string>)
    requires chunks != [] && chunks[0] != ""
    ensures prefix + Stream(chunks) == (prefix + chunks[0]) + Stream(chunks[1..])
  {}

  lemma {:induction false} FeedAllDrains<M>(wire: Wire<M>, r: Received<M>, prefix: string, chunks: seq<string>)
    requires r == Drain(wire, prefix) && Forward(wire, prefix + Stream(chunks))
    ensures FeedAll(wire, r, chunks) == Drain(wire, prefix + Stream(chunks))
    decreases |chunks|
  {
    if chunks == [] || chunks[0] == "" {
      assert prefix + "" == prefix;
    } else {
      var next := Feed(wire, r, chunks[0]);
      ForwardPrefix(wire, prefix, Stream(chunks));
      DrainResumes(wire, prefix, chunks[0]);
      assert next == Drain(wire, prefix + chunks[0]);
      StreamStep(prefix, chunks);
      FeedAllDrains(wire, next, prefix + chunks[0], chunks[1..]);
    }
  }

  /** Chunking independence: as long as no message is announced to end before the first byte of the
  buffer, the reader delivers, however the stream is cut into reads, the same messages in the same
  order, ends in the same condition, and keeps the same leftover bytes as one parse of the whole
  stream. Lengths may be negative up to that. */
  lemma ChunkingIndependent<M>(wire: Wire<M>, chunks: seq<string>)
    requires Forward(wire, Stream(chunks))
    ensures FeedAll(wire, Received([], "", Running), chunks) == Drain(wire, Stream(chunks))
  {
    assert "" + Stream(chunks) == Stream(chunks);
    FeedAllDrains(wire, Received([], "", Running), "", chunks);
  }

  // ---------- round trip ----------

  const FIELD := "Content-Length"

  function Header(n: nat): string {
    FIELD + [':'] + (" " + Decimal(n))
  }

  function Frame(body: string): string {
    Header(|body|) + SEPARATOR + body
  }

  function Frames(bodies: seq<string>): string {
    if bodies == [] then "" else Frame(bodies[0]) + Frames(bodies[1..])
  }

  lemma {:induction false} SplitCrlfWhole(s: string)
    requires Free(s, '\r')
    ensures SplitCrlf(s) == [s]
  {
    if |s| >= 2 {
      SplitCrlfWhole(s[1..]);
      assert [s[0]] + s[1..] == s;
    }
  }

  predicate Ascii(s: string) {
    forall i :: 0 <= i < |s| ==> s[i] < 128 as char
  }

  lemma HeaderPlain(n: nat)
    ensures Free(" " + Decimal(n), ':') && Free(Header(n), '\r') && Ascii(Header(n))
  {
    var d := Decimal(n);
    forall i | 0 <= i < |d| ensures IsDigit(d[i]) {}
  }

  lemma FieldMatches()
    ensures |FIELD| == 14 && Lower(FIELD + [':']) == LENGTH_FIELD && Free(FIELD, ':')
  {}

  /** The value of a length line is the text behind its colon. */
  lemma LengthLineValue(v: string)
    requires Free(v, ':')
    ensures IsLengthLine(FIELD + [':'] + v)
    ensures Split(FIELD + [':'] + v, ':') == [FIELD, v]
  {
    FieldMatches();
    var line := FIELD + [':'] + v;
    assert line[..15] == FIELD + [':'];
    SplitConcat(FIELD, ':', v);
    SplitWhole(FIELD, ':');
    SplitWhole(v, ':');
  }

  /** The printed header is read back as the length that was printed. */
  lemma HeaderLengthRead(n: nat)
    ensures LengthIn(SplitCrlf(Header(n))) == Length(n)
  {
    HeaderPlain(n);
    SplitCrlfWhole(Header(n));
    LengthLineValue(" " + Decimal(n));
    ParseDecimal(n);
  }

  lemma FrameParts(h: string, body: string, tail: string)
    requires Free(h, '\r')
    ensures var buffer, start := (h + SEPARATOR + body) + tail, |h| + 4;
      && |buffer| == start + |body| + |tail|
      && Find(buffer, SEPARATOR) == |h| && buffer[..|h|] == h
      && buffer[start..start + |body|] == body && buffer[start + |body|..] == tail
  {
    HeaderFound(h, body + tail);
    var buffer, start := (h + SEPARATOR + body) + tail, |h| + 4;
    assert buffer == h + SEPARATOR + (body + tail);
    assert buffer[start + 0..start + |body|] == (body + tail)[0..|body|] == body;
    assert buffer[start + |body|..] == (body + tail)[|body|..] == tail;
  }

  lemma FrameAnnounces<M>(wire: Wire<M>, body: string)
    requires AcceptsAscii(wire)
    ensures Announces(wire, Header(|body|)) == End(|Header(|body|)| + 4 + |body|)
  {
    HeaderPlain(|body|);
    HeaderLengthRead(|body|);
  }

  /** A complete frame is taken off the front whatever the body contains and whatever follows. */
  lemma FrameFound<M>(wire: Wire<M>, body: string, tail: string)
    requires AcceptsAscii(wire)
    ensures ParseOne(wire, Frame(body) + tail) == Found(body, tail)
  {
    HeaderPlain(|body|);
    FrameAnnounces(wire, body);
    FrameParts(Header(|body|), body, tail);
  }

  /** Where a header without carriage returns ends, and what follows it. */
  lemma HeaderFound(h: string, x: string)
    requires Free(h, '\r')
    ensures var s := h + SEPARATOR + x;
      && Find(s, SEPARATOR) == |h| && s[..|h|] == h
      && (forall i, j :: 0 <= i <= j <= |x| ==> s[|h| + 4 + i..|h| + 4 + j] == x[i..j])
      && (forall i :: 0 <= i <= |x| ==> s[|h| + 4 + i..] == x[i..])
  {
    FindAfter(h, SEPARATOR, x);
  }

  function Messages<M>(wire: Wire<M>, bodies: seq<string>): seq<(int, M)> {
    if bodies == [] then []
    else
      var rest := Messages(wire, bodies[1..]);
      match wire.decode(bodies[0])
      case Response(id, m) => [(id, m)] + rest
      case _ => rest
  }

  /** Framing round trip: reading the concatenation of framed bodies gives exactly those
  messages, with nothing left over, even when bodies contain the header separator. */
  lemma {:induction false} FramesRead<M>(wire: Wire<M>, bodies: seq<string>)
    requires AcceptsAscii(wire)
    requires forall i :: 0 <= i < |bodies| ==> !wire.decode(bodies[i]).Undecodable?
    ensures Drain(wire, Frames(bodies)) == Received(Messages(wire, bodies), "", Running)
  {
    if bodies != [] {
      FramesRead(wire, bodies[1..]);
      FrameFound(wire, bodies[0], Frames(bodies[1..]));
    }
  }

  lemma {:induction false} FramesForward<M>(wire: Wire<M>, bodies: seq<string>)
    requires AcceptsAscii(wire)
    ensures Forward(wire, Frames(bodies))
  {
    if bodies != [] {
      FramesForward(wire, bodies[1..]);
      FrameFound(wire, bodies[0], Frames(bodies[1..]));
      FrameEnd(wire, bodies[0], Frames(bodies[1..]));
    }
  }

  lemma FrameEnd<M>(wire: Wire<M>, body: string, tail: string)
    requires AcceptsAscii(wire)
    ensures AnnouncedEnd(wire, Frame(body) + tail) == Some(|Header(|body|)| + 4 + |body|)
  {
    HeaderPlain(|body|);
    FrameAnnounces(wire, body);
    FrameParts(Header(|body|), body, tail);
  }

  /** Both together: framed messages arrive intact through any cutting into reads. */
  lemma FramesReadInChunks<M>(wire: Wire<M>, bodies: seq<string>, chunks: seq<string>)
    requires AcceptsAscii(wire)
    requires forall i :: 0 <= i < |bodies| ==> !wire.decode(bodies[i]).Undecodable?
    requires Stream(chunks) == Frames(bodies)
    ensures FeedAll(wire, Received([], "", Running), chunks) == Received(Messages(wire, bodies), "", Running)
  {
    FramesRead(wire, bodies);
    FramesForward(wire, bodies);
    ChunkingIndependent(wire, chunks);
  }

  // ---------- negative lengths ----------

  /** A turn on a complete header waits, or goes on with what lies behind the announced end. That
  shortens the buffer exactly when the end is positive, or negative and inside the buffer; in the
  other cases the loop is stuck. */
  lemma ProgressExactly<M>(wire: Wire<M>, buffer: string)
    requires AnnouncedEnd(wire, buffer).Some?
    ensures var end := AnnouncedEnd(wire, buffer).value;
      var t := ParseOne(wire, buffer);
      && (t.NeedMore? <==> |buffer| < end)
      && (t.Found? <==> 0 < end <= |buffer| || -|buffer| < end < 0)
      && (t.Stuck? <==> end == 0 || end <= -|buffer|)
      && (t.Found? ==> t.rest == SliceFrom(buffer, end))
      && (end <= |buffer| ==> (|SliceFrom(buffer, end)| < |buffer| <==> t.Found?))
      && (t.Stuck? ==> SliceFrom(buffer, end) == buffer)
  {}

  /** For a negative end the code goes on with the last bytes that have arrived: a read more or
  less before the turn gives another buffer after it, unless the whole buffer is kept anyway. */
  lemma BackSliceDependsOnCut(buffer: string, more: string, end: int)
    requires end <= |buffer|
    ensures SliceFrom(buffer + more, end) == SliceFrom(buffer, end) + more
      <==> end >= 0 || more == "" || |buffer + more| <= -end
  {
    if end >= 0 {
      assert (buffer + more)[end..] == buffer[end..] + more;
    } else {
      assert more == "" ==> buffer + more == buffer && SliceFrom(buffer, end) + more == SliceFrom(buffer, end);
    }
  }

  /** A header line announcing minus twenty-something. */
  function MinusTwenty(d: char): string {
    FIELD + [':'] + (" -2" + [d])
  }

  lemma TwentyRead(d: char)
    requires IsDigit(d)
    ensures ParseInt(" -2" + [d]) == Some(-20 - (d as int - '0' as int))
  {
    var number, digits := "-2" + [d], "2" + [d];
    StripTrimmed(number);
    assert " " + number == " -2" + [d];
    assert number[1..] == digits && digits[..1] == "2" && "2"[..0] == "";
    assert DigitsValue("2") == 2;
  }

  lemma MinusTwentyPlain(d: char)
    requires IsDigit(d)
    ensures |MinusTwenty(d)| == 19 && Free(MinusTwenty(d), '\r') && Ascii(MinusTwenty(d))
  {
    FieldMatches();
  }

  lemma MinusTwentyRead(d: char)
    requires IsDigit(d)
    ensures LengthIn(SplitCrlf(MinusTwenty(d))) == Length(-20 - (d as int - '0' as int))
  {
    MinusTwentyPlain(d);
    SplitCrlfWhole(MinusTwenty(d));
    LengthLineValue(" -2" + [d]);
    TwentyRead(d);
    assert LineLength(MinusTwenty(d)) == Length(-20 - (d as int - '0' as int));
  }

  /** The end that such a header announces. */
  lemma MinusTwentyEnd<M>(wire: Wire<M>, d: char, tail: string)
    requires AcceptsAscii(wire) && IsDigit(d)
    ensures var buffer := MinusTwenty(d) + SEPARATOR + tail;
      && |buffer| == 23 + |tail|
      && AnnouncedEnd(wire, buffer) == Some(3 - (d as int - '0' as int)) && Find(buffer, SEPARATOR) == 19
  {
    MinusTwentyPlain(d);
    MinusTwentyRead(d);
    HeaderFound(MinusTwenty(d), tail);
    var buffer := MinusTwenty(d) + SEPARATOR + tail;
    assert buffer[..19] == MinusTwenty(d);
  }

  /** A header may announce minus its own size: the end is then 0 and the source's loop is left
  with the very bytes it started from. */
  lemma NegativeLengthStalls<M>(wire: Wire<M>, tail: string)
    requires AcceptsAscii(wire)
    ensures var buffer := MinusTwenty('3') + SEPARATOR + tail;
      && LengthIn(SplitCrlf(MinusTwenty('3'))) == Length(-23)
      && ParseOne(wire, buffer) == Stuck && SliceFrom(buffer, 0) == buffer
  {
    MinusTwentyRead('3');
    MinusTwentyEnd(wire, '3', tail);
    ProgressExactly(wire, MinusTwenty('3') + SEPARATOR + tail);
  }

  lemma CutTurns<M>(wire: Wire<M>)
    requires AcceptsAscii(wire)
    ensures var start := MinusTwenty('4') + SEPARATOR + "x";
      ParseOne(wire, start) == Found("", "x") && ParseOne(wire, start + "y") == Found("x", "y")
  {
    var head := MinusTwenty('4') + SEPARATOR;
    MinusTwentyEnd(wire, '4', "x");
    MinusTwentyEnd(wire, '4', "xy");
    assert (head + "x") + "y" == head + "xy";
  }

  /** One byte less, and the cut decides: the same stream leaves one byte or two. */
  lemma CutsDisagree<M>(wire: Wire<M>)
    requires AcceptsAscii(wire) && wire.decode("").Ignored? && wire.decode("x").Ignored?
    ensures var start := MinusTwenty('4') + SEPARATOR + "x";
      && FeedAll(wire, Received([], "", Running), [start + "y"]) == Received([], "y", Running)
      && FeedAll(wire, Received([], "", Running), [start, "y"]) == Received([], "xy", Running)
  {
    var start := MinusTwenty('4') + SEPARATOR + "x";
    CutTurns(wire);
    NoSeparator(wire, "x");
    NoSeparator(wire, "y");
    NoSeparator(wire, "xy");
    FeedOne(wire, start + "y", "");
    FeedOne(wire, start, "y");
  }

  lemma NoSeparator<M>(wire: Wire<M>, s: string)
    requires |s| < 4
    ensures Drain(wire, s) == Received([], s, Running)
  {}

  lemma FeedOne<M>(wire: Wire<M>, first: string, second: string)
    requires first != ""
    ensures var r := Prepend([], Drain(wire, first));
      && Prepend([], Drain(wire, first)) == Drain(wire, first)
      && FeedAll(wire, Received([], "", Running), [first]) == r
      && (second != "" ==> FeedAll(wire, Received([], "", Running), [first, second]) == Feed(wire, r, second))
  {
    var start, r := Received([], "", Running), Prepend([], Drain(wire, first));
    assert "" + first == first && Feed(wire, start, first) == r;
    assert [first][1..] == [] && [first, second][1..] == [second] && [second][1..] == [];
    assert [] + Drain(wire, first).messages == Drain(wire, first).messages;
    if second != "" {
      assert FeedAll(wire, start, [first, second]) == FeedAll(wire, r, [second]);
      assert FeedAll(wire, r, [second]) == FeedAll(wire, Feed(wire, r, second), []);
    }
  }
}
