/** The client object of rice_factor/adapters/lsp/client.py: its request counter, its response
table, the reader loop that fills the table and the request loop that empties it.

The reader thread and the requester take turns under a lock. Here the requester is handed, for
each time it looks at the table, the messages that the reader stored since the last look. */
module LspClients {
  import opened Sequences
  import opened LspFraming

  function Store<M>(table: map<int, M>, messages: seq<(int, M)>): map<int, M>
    decreases |messages|
  {
    if messages == [] then table
    else Store(table[messages[0].0 := messages[0].1], messages[1..])
  }

  lemma {:induction false} StoreConcat<M>(table: map<int, M>, a: seq<(int, M)>, b: seq<(int, M)>)
    ensures Store(table, a + b) == Store(Store(table, a), b)
    decreases |a|
  {
    if a == [] {
      assert a + b == b;
    } else {
      assert (a + b)[1..] == a[1..] + b;
      StoreConcat(table[a[0].0 := a[0].1], a[1..], b);
    }
  }

  /** Message j is the last one with this id. */
  ghost predicate IsLast<M>(messages: seq<(int, M)>, j: int, id: int) {
    && 0 <= j < |messages| && messages[j].0 == id
    && forall l :: j < l < |messages| ==> messages[l].0 != id
  }

  lemma {:induction false} LastWith<M>(messages: seq<(int, M)>, id: int) returns (l: int)
    requires exists j :: 0 <= j < |messages| && messages[j].0 == id
    ensures IsLast(messages, l, id)
  {
    l := |messages| - 1;
    while messages[l].0 != id
      invariant 0 <= l < |messages| && forall k :: l < k < |messages| ==> messages[k].0 != id
      decreases l
    {
      l := l - 1;
    }
  }

  /** The table holds, under each id, the last message that arrived with it. */
  lemma {:induction false} StoreKeepsLast<M>(table: map<int, M>, messages: seq<(int, M)>, id: int)
    ensures id in Store(table, messages) <==> id in table || exists j :: IsLast(messages, j, id)
    ensures forall j :: IsLast(messages, j, id) ==> Store(table, messages)[id] == messages[j].1
    ensures id in table && (forall j :: !IsLast(messages, j, id)) ==> Store(table, messages)[id] == table[id]
    decreases |messages|
  {
    if messages != [] {
      var rest := messages[1..];
      StoreKeepsLast(table[messages[0].0 := messages[0].1], rest, id);
      assert forall j :: IsLast(rest, j, id) ==> IsLast(messages, j + 1, id);
      assert forall j :: j > 0 ==> IsLast(messages, j, id) == IsLast(rest, j - 1, id);
      if messages[0].0 == id && !IsLast(messages, 0, id) {
        var l := LastWith(rest, id);
      }
    }
  }

  /** Waiting for a response: the looks at the table in order, until one finds the id. */
  function Await<M>(table: map<int, M>, id: int, arrivals: seq<seq<(int, M)>>): (Option<M>, map<int, M>)
    decreases |arrivals|
  {
    if arrivals == [] then (None, table)
    else
      var t := Store(table, arrivals[0]);
      if id in t then (Some(t[id]), t - {id}) else Await(t, id, arrivals[1..])
  }

  /** What a wait can return: the id leaves the table, and a message that was not there at the
  start arrived under this very id while waiting. */
  lemma {:induction false} AwaitReturnsOwn<M>(table: map<int, M>, id: int, arrivals: seq<seq<(int, M)>>)
    requires id !in table
    ensures var (r, t) := Await(table, id, arrivals);
      && id !in t
      && (r.Some? <==> exists i, j :: 0 <= i < |arrivals| && 0 <= j < |arrivals[i]| && arrivals[i][j].0 == id)
      && (r.Some? ==> exists i, j :: 0 <= i < |arrivals| && 0 <= j < |arrivals[i]| && arrivals[i][j] == (id, r.value))
    decreases |arrivals|
  {
    if arrivals != [] {
      var first, rest := arrivals[0], arrivals[1..];
      StoreKeepsLast(table, first, id);
      if id in Store(table, first) {
        var l :| IsLast(first, l, id);
        assert arrivals[0][l] == (id, Store(table, first)[id]);
      } else {
        forall j | 0 <= j < |first| ensures first[j].0 != id {
          if first[j].0 == id {
            var l := LastWith(first, id);
          }
        }
        AwaitReturnsOwn(Store(table, first), id, rest);
        assert forall i :: 0 < i < |arrivals| ==> arrivals[i] == rest[i - 1];
        assert forall i :: 0 <= i < |rest| ==> rest[i] == arrivals[i + 1];
      }
    }
  }

  function Flat<M>(arrivals: seq<seq<(int, M)>>): seq<(int, M)>
    decreases |arrivals|
  {
    if arrivals == [] then [] else arrivals[0] + Flat(arrivals[1..])
  }

  lemma FlatOne<M>(first: seq<(int, M)>)
    ensures Flat([first]) == first
  {
    var one: seq<seq<(int, M)>> := [first];
    var none: seq<seq<(int, M)>> := [];
    assert one[1..] == none && first + Flat(none) == first;
  }

  /** A wait stores what arrives, look by look, stops at the first look that finds its id, and leaves
  every other message in the table. */
  lemma {:induction false} AwaitStopsAtFirst<M>(table: map<int, M>, id: int, arrivals: seq<seq<(int, M)>>)
      returns (looks: nat)
    requires id !in table
    ensures looks <= |arrivals|
    ensures forall i, j :: 0 <= i < looks - 1 && 0 <= j < |arrivals[i]| ==> arrivals[i][j].0 != id
    ensures var seen := Store(table, Flat(arrivals[..looks]));
      Await(table, id, arrivals) == if id in seen then (Some(seen[id]), seen - {id}) else (None, seen)
    ensures id !in Store(table, Flat(arrivals[..looks])) ==> looks == |arrivals|
    decreases |arrivals|
  {
    if arrivals == [] {
      looks := 0;
    } else {
      var first, rest := arrivals[0], arrivals[1..];
      var t := Store(table, first);
      StoreKeepsLast(table, first, id);
      if id in t {
        looks := 1;
        assert arrivals[..1] == [first];
        FlatOne(first);
      } else {
        var more := AwaitStopsAtFirst(t, id, rest);
        looks := more + 1;
        assert arrivals[..looks] == [first] + rest[..more] && ([first] + rest[..more])[1..] == rest[..more];
        StoreConcat(table, first, Flat(rest[..more]));
        forall j | 0 <= j < |first| ensures first[j].0 != id {
          if first[j].0 == id {
            var l := LastWith(first, id);
          }
        }
        assert forall i :: 0 < i < looks ==> arrivals[i] == rest[i - 1];
      }
    }
  }

  // ---------- what the server reads ----------

  /** A request with its encoding, or a notification. */
  datatype Call = Request(encode: int -> string) | Notification(body: string)

  /** The bodies of these calls when the last id used is `id`, and the bytes they write. */
  function CallBodies(calls: seq<Call>, id: nat): seq<string>
    decreases |calls|
  {
    if calls == [] then []
    else
      match calls[0]
      case Request(encode) => [encode(id + 1)] + CallBodies(calls[1..], id + 1)
      case Notification(body) => [body] + CallBodies(calls[1..], id)
  }

  function Traffic(calls: seq<Call>, id: nat): string
    decreases |calls|
  {
    if calls == [] then ""
    else
      match calls[0]
      case Request(encode) => Frame(encode(id + 1)) + Traffic(calls[1..], id + 1)
      case Notification(body) => Frame(body) + Traffic(calls[1..], id)
  }

  lemma {:induction false} TrafficIsFrames(calls: seq<Call>, id: nat)
    ensures Traffic(calls, id) == Frames(CallBodies(calls, id))
    decreases |calls|
  {
    if calls != [] {
      match calls[0]
      case Request(encode) =>
        TrafficIsFrames(calls[1..], id + 1);
        assert CallBodies(calls, id)[1..] == CallBodies(calls[1..], id + 1);
      case Notification(body) =>
        TrafficIsFrames(calls[1..], id);
        assert CallBodies(calls, id)[1..] == CallBodies(calls[1..], id);
    }
  }

  /** Whatever a client writes, a server that reads frames as this client does gets the bodies of its
  calls, in order, requests numbered on, however the pipe cuts them. */
  lemma TrafficIsRead<M>(wire: Wire<M>, calls: seq<Call>, id: nat, chunks: seq<string>)
    requires AcceptsAscii(wire) && Stream(chunks) == Traffic(calls, id)
    requires forall body :: body in CallBodies(calls, id) ==> !wire.decode(body).Undecodable?
    ensures FeedAll(wire, Received([], "", Running), chunks)
         == Received(Messages(wire, CallBodies(calls, id)), "", Running)
  {
    TrafficIsFrames(calls, id);
    FramesReadInChunks(wire, CallBodies(calls, id), chunks);
  }

  /** The reads that the reader still makes: its loop looks `turns` times at a set running flag
  and a living process. */
  function Heard(chunks: seq<string>, turns: nat): seq<string> {
    if turns < |chunks| then chunks[..turns] else chunks
  }

  /** A write to the server succeeds, or raises after some bytes. */
  datatype Write = Done | Fails(bytes: nat)

  /** What a write leaves in the pipe: the frame, or its first bytes. */
  function Sent(frame: string, write: Write): (sent: string)
    ensures write.Done? ==> sent == frame
    ensures write.Fails? ==> sent <= frame && |sent| == if write.bytes < |frame| then write.bytes else |frame|
  {
    if write.Fails? && write.bytes < |frame| then frame[..write.bytes] else frame
  }

  /** What a call adds to what was written before: its whole frame, or the first bytes of it. */
  ghost predicate Wrote(before: string, after: string, frame: string, write: Write) {
    && (write.Done? ==> after == before + frame)
    && (write.Fails? ==>
          && before <= after <= before + frame
          && (|after| - |before| == write.bytes || (|after| - |before| == |frame| && |frame| <= write.bytes)))
  }

  class LspClient<M, R> {
    const wire: Wire<M>
    const isError: M -> bool
    /** The result field of a response, which may be missing. */
    const resultOf: M -> Option<R>
    /** There is a process with an open input. */
    var running: bool
    var requestId: nat
    var responses: map<int, M>
    /** Everything written to the server so far. */
    var stdin: string

    constructor (wire: Wire<M>, isError: M -> bool, resultOf: M -> Option<R>)
      ensures !running && requestId == 0 && responses == map[] && stdin == ""
      ensures this.wire == wire && this.isError == isError && this.resultOf == resultOf
    {
      this.wire, this.isError, this.resultOf := wire, isError, resultOf;
      running, requestId, responses, stdin := false, 0, map[], "";
    }

    /** Restarting never resets the counter: ids are not reused across sessions. */
    method Start()
      modifies `running
      ensures running
    {
      running := true;
    }

    /** Asks a running server to shut down and to exit, as far as the writes succeed, and forgets
    process and responses; the shutdown request uses an id. */
    method Stop(encode: int -> string, exit: string, write: Write, exitWrite: Write, arrivals: seq<seq<(int, M)>>)
      modifies this
      ensures !running && responses == map[]
      ensures requestId == if old(running) then old(requestId) + 1 else old(requestId)
      ensures !old(running) ==> stdin == old(stdin)
      ensures old(running) ==>
        exists middle :: Wrote(old(stdin), middle, Frame(encode(requestId)), write)
          && Wrote(middle, stdin, Frame(exit), exitWrite)
      ensures old(running) && write.Done? && exitWrite.Done? ==>
        stdin == old(stdin) + Frame(encode(old(requestId) + 1)) + Frame(exit)
    {
      if running {
        var answer := SendRequest(encode, write, arrivals);
        SendNotification(exit, exitWrite);
        running := false;
      }
      responses := map[];
    }

    /** A failing write is swallowed. */
    method SendNotification(body: string, write: Write)
      modifies `stdin
      ensures !running ==> stdin == old(stdin)
      ensures running ==> Wrote(old(stdin), stdin, Frame(body), write)
      ensures running && write.Done? ==> stdin == old(stdin) + Frame(body)
    {
      if running {
        stdin := stdin + Sent(Frame(body), write);
      }
    }

    /** Returns the result, or None when there is no process, the write fails, no answer comes until
    the time or the memory limit is reached, both of which are looked at before the table, or the
    answer is an error. An id is used even when the write fails. */
    method SendRequest(encode: int -> string, write: Write, arrivals: seq<seq<(int, M)>>) returns (r: Option<R>)
      modifies `requestId, `responses, `stdin
      ensures requestId == if running then old(requestId) + 1 else old(requestId)
      ensures !running ==> stdin == old(stdin)
      ensures running ==> Wrote(old(stdin), stdin, Frame(encode(requestId)), write)
      ensures running && write.Done? ==> stdin == old(stdin) + Frame(encode(old(requestId) + 1))
      ensures !(running && write.Done?) ==> r == None && responses == old(responses)
      ensures running && write.Done? ==>
        && responses == Await(old(responses), requestId, arrivals).1
        && var got := Await(old(responses), requestId, arrivals).0;
           r == if got.Some? && !isError(got.value) then resultOf(got.value) else None
    {
      if !running {
        return None;
      }
      requestId := requestId + 1;
      stdin := stdin + Sent(Frame(encode(requestId)), write);
      if write.Fails? {
        return None;
      }
      var i := 0;
      while i < |arrivals|
        invariant 0 <= i <= |arrivals| && requestId == old(requestId) + 1
        invariant stdin == old(stdin) + Sent(Frame(encode(requestId)), write)
        invariant Await(old(responses), requestId, arrivals) == Await(responses, requestId, arrivals[i..])
      {
        responses := Store(responses, arrivals[i]);
        assert arrivals[i..][1..] == arrivals[i + 1..];
        if requestId in responses {
          var response := responses[requestId];
          responses := responses - {requestId};
          return if isError(response) then None else resultOf(response);
        }
        i := i + 1;
      }
      r := None;
    }

    /** The reader thread: it ends on an empty read, when a message cannot be decoded, or when it
    finds the running flag cleared or the process gone. */
    method ReadResponses(chunks: seq<string>, turns: nat)
      modifies `responses
      ensures turns >= |chunks| ==>
        responses == Store(old(responses), FeedAll(wire, Received([], "", Running), chunks).messages)
      ensures turns < |chunks| ==>
        responses == Store(old(responses), FeedAll(wire, Received([], "", Running), chunks[..turns]).messages)
    {
      var buffer, status := "", Running;
      ghost var got: Received<M> := Received([], "", Running);
      ghost var heard := Heard(chunks, turns);
      var i := 0;
      while i < turns && i < |chunks| && status == Running
        invariant 0 <= i <= |heard|
        invariant got.status == status && (status == Running ==> got.leftover == buffer)
        invariant responses == Store(old(responses), got.messages)
        invariant FeedAll(wire, Received([], "", Running), heard) == FeedAll(wire, got, heard[i..])
      {
        var data := chunks[i];
        if data == "" {
          break;
        }
        ghost var drained := Drain(wire, buffer + data);
        buffer, status := ParseMessages(buffer + data);
        StoreConcat(old(responses), got.messages, drained.messages);
        FeedTurn(wire, got, heard, i);
        got := Prepend(got.messages, drained);
        i := i + 1;
      }
      FeedStopped(wire, got, heard[i..]);
    }

    /** The inner loop: take complete messages off the buffer until one is incomplete. */
    method ParseMessages(data: string) returns (buffer: string, status: Status)
      modifies `responses
      ensures responses == Store(old(responses), Drain(wire, data).messages)
      ensures status == Drain(wire, data).status
      ensures status == Running ==> buffer == Drain(wire, data).leftover
    {
      buffer, status := data, Running;
      ghost var all, done := Drain(wire, data), [];
      while true
        invariant status == Running
        invariant responses == Store(old(responses), done)
        invariant all == Prepend(done, Drain(wire, buffer))
        decreases |buffer|
      {
        DrainTurn(wire, done, buffer);
        var turn := ParseOne(wire, buffer);
        match turn
        case NeedMore => return;
        case Skip(rest) => buffer := rest;
        case Broken => return buffer, Dead;
        case Stuck => return buffer, Stalled;
        case Found(content, rest) =>
          var body := wire.decode(content);
          buffer := rest;
          match body
          case Ignored =>
          case Undecodable => return buffer, Dead;
          case Response(id, m) =>
            StoreConcat(old(responses), done, [(id, m)]);
            responses := responses[id := m];
            done := done + [(id, m)];
      }
    }
  }

  /** One read of the loop over the reads. */
  lemma FeedTurn<M>(wire: Wire<M>, got: Received<M>, heard: seq<string>, i: nat)
    requires i < |heard| && heard[i] != "" && got.status == Running
    ensures FeedAll(wire, got, heard[i..])
         == FeedAll(wire, Prepend(got.messages, Drain(wire, got.leftover + heard[i])), heard[i + 1..])
  {
    assert heard[i..][1..] == heard[i + 1..];
  }

  /** What one turn of the inner loop does to the messages still to come. */
  lemma DrainTurn<M>(wire: Wire<M>, done: seq<(int, M)>, buffer: string)
    ensures var d, t := Prepend(done, Drain(wire, buffer)), ParseOne(wire, buffer);
      && (t.NeedMore? ==> d == Received(done, buffer, Running))
      && (t.Broken? ==> d == Received(done, "", Dead))
      && (t.Stuck? ==> d == Received(done, "", Stalled))
      && (t.Skip? ==> d == Prepend(done, Drain(wire, t.rest)))
      && (t.Found? ==> var body := wire.decode(t.content);
            && (body.Ignored? ==> d == Prepend(done, Drain(wire, t.rest)))
            && (body.Undecodable? ==> d == Received(done, "", Dead))
            && (body.Response? ==> d == Prepend(done + [(body.id, body.message)], Drain(wire, t.rest))))
  {
    assert done + [] == done;
    var t := ParseOne(wire, buffer);
    if t.Found? && wire.decode(t.content).Response? {
      var first := [(wire.decode(t.content).id, wire.decode(t.content).message)];
      assert done + (first + Drain(wire, t.rest).messages) == (done + first) + Drain(wire, t.rest).messages;
    }
  }

  /** A reader that has ended, or whose next read is empty, takes in nothing more. */
  lemma {:induction false} FeedStopped<M>(wire: Wire<M>, r: Received<M>, chunks: seq<string>)
    requires r.status != Running || chunks == [] || chunks[0] == ""
    ensures FeedAll(wire, r, chunks) == r
    decreases |chunks|
  {
    if chunks != [] && chunks[0] != "" {
      FeedStopped(wire, r, chunks[1..]);
    }
  }
}
