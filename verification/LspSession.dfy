/** All interleavings of a client, its reader thread and language servers.

One requester at a time uses the client (rice_factor/adapters/lsp/client.py). Servers may answer
any id they were sent, late or twice, and may also send requests of their own, whose ids they
choose freely. A reader left over from a stopped session may still deliver. */
module LspSession {

  datatype Origin = Answer | ServerRequest

  /** A message on its way to the client; `serial` tells apart messages that look alike. */
  datatype Envelope = Envelope(id: int, origin: Origin, serial: nat)

  datatype State = State(
    running: bool, counter: nat, waiting: bool, table: map<int, Envelope>,
    // the servers and the pipes
    asked: set<int>, foreign: set<int>, wire: set<Envelope>, emitted: nat,
    // the history
    sent: seq<int>, returned: seq<(int, Envelope)>)

  const INIT := State(false, 0, false, map[], {}, {}, {}, 0, [], [])

  datatype Event =
    | Start
    | Stop
    | Send                          // a request is written and its id is waited for
    | SendFails                     // the write raises after the id was taken
    | Take                          // the waiting request finds its id in the table
    | GiveUp                        // timeout or memory limit
    | Reply(id: int)                // a server answers an id it was sent
    | Originate(id: int)            // a server sends a request of its own
    | Read(message: Envelope)       // a reader stores a message under its id

  predicate Enabled(st: State, ev: Event) {
    match ev
    case Start => !st.running
    case Stop => !st.waiting
    case Send => st.running && !st.waiting
    case SendFails => st.running && !st.waiting
    case Take => st.waiting && st.counter in st.table
    case GiveUp => st.waiting
    case Reply(id) => id in st.asked
    case Originate(_) => true
    case Read(m) => m in st.wire
  }

  function Emit(st: State, id: int, origin: Origin): State {
    st.(wire := st.wire + {Envelope(id, origin, st.emitted)}, emitted := st.emitted + 1)
  }

  function Apply(st: State, ev: Event): State
    requires Enabled(st, ev)
  {
    match ev
    case Start => st.(running := true)
    case Stop => st.(running := false, table := map[])
    case Send =>
      var id := st.counter + 1;
      st.(counter := id, waiting := true, asked := st.asked + {id}, sent := st.sent + [id])
    case SendFails => st.(counter := st.counter + 1)
    case Take =>
      st.(waiting := false, table := st.table - {st.counter},
          returned := st.returned + [(st.counter, st.table[st.counter])])
    case GiveUp => st.(waiting := false)
    case Reply(id) => Emit(st, id, Answer)
    case Originate(id) => Emit(st.(foreign := st.foreign + {id}), id, ServerRequest)
    case Read(m) => st.(wire := st.wire - {m}, table := st.table[m.id := m])
  }

  /** Any sequence of events; one that is not possible where it stands changes nothing. */
  function Run(events: seq<Event>): State {
    if events == [] then INIT
    else
      var st := Run(events[..|events| - 1]);
      var ev := events[|events| - 1];
      if Enabled(st, ev) then Apply(st, ev) else st
  }

  ghost predicate Increasing(s: seq<int>) {
    forall i, j :: 0 <= i < j < |s| ==> s[i] < s[j]
  }

  /** Answers go to ids that were asked; anything else was announced as foreign. */
  ghost predicate Sound(st: State, m: Envelope) {
    && m.serial < st.emitted
    && match m.origin
       case Answer => m.id in st.asked
       case ServerRequest => m.id in st.foreign
  }

  ghost predicate Consumed(st: State, m: Envelope) {
    exists i :: 0 <= i < |st.returned| && st.returned[i].1 == m
  }

  ghost predicate IdsOrdered(st: State) {
    && Increasing(st.sent)
    && (forall i :: 0 <= i < |st.sent| ==> 0 < st.sent[i] <= st.counter)
    && st.asked == (set id | id in st.sent)
    && (st.waiting ==> st.counter in st.asked)
  }

  ghost predicate MessagesSound(st: State) {
    && (forall m :: m in st.wire ==> Sound(st, m))
    && (forall id :: id in st.table ==> st.table[id].id == id && Sound(st, st.table[id]))
  }

  ghost predicate ReturnsOwn(st: State) {
    && (forall i :: 0 <= i < |st.returned| ==>
          st.returned[i].1.id == st.returned[i].0 && st.returned[i].0 in st.asked
          && Sound(st, st.returned[i].1))
    && (forall i, j :: 0 <= i < j < |st.returned| ==> st.returned[i].0 < st.returned[j].0)
    && (forall i :: 0 <= i < |st.returned| ==>
          st.returned[i].0 <= st.counter && (st.waiting ==> st.returned[i].0 < st.counter))
  }

  /** A message is in one place: on the wire, in the table, or consumed. */
  ghost predicate OnePlace(st: State) {
    && (forall m :: m in st.wire ==> !Consumed(st, m) && forall id :: id in st.table ==> st.table[id] != m)
    && (forall id :: id in st.table ==> !Consumed(st, st.table[id]))
  }

  ghost predicate Inv(st: State) {
    IdsOrdered(st) && MessagesSound(st) && ReturnsOwn(st) && OnePlace(st)
  }

  lemma ApplyKeepsOnePlace(st: State, ev: Event)
    requires Inv(st) && Enabled(st, ev)
    ensures OnePlace(Apply(st, ev))
  {
    var st' := Apply(st, ev);
    if ev.Take? {
      var m := st.table[st.counter];
      forall x ensures Consumed(st', x) <==> Consumed(st, x) || x == m {
        if Consumed(st, x) {
          var i :| 0 <= i < |st.returned| && st.returned[i].1 == x;
          assert st'.returned[i].1 == x;
        }
        assert st'.returned[|st.returned|].1 == m;
      }
    } else {
      assert forall x :: Consumed(st', x) == Consumed(st, x);
      if ev.Reply? || ev.Originate? {
        forall x | Consumed(st, x) ensures x.serial < st.emitted {
          var i :| 0 <= i < |st.returned| && st.returned[i].1 == x;
          assert Sound(st, st.returned[i].1);
        }
      }
    }
  }

  lemma ApplyKeepsIds(st: State, ev: Event)
    requires IdsOrdered(st) && Enabled(st, ev)
    ensures IdsOrdered(Apply(st, ev))
  {
    if ev.Send? {
      var st' := Apply(st, ev);
      assert st'.sent[|st.sent|] == st'.counter;
      assert forall id :: id in st'.sent <==> id in st.sent || id == st'.counter;
    }
  }

  lemma ApplyKeepsSound(st: State, ev: Event, m: Envelope)
    requires Sound(st, m) && Enabled(st, ev)
    ensures Sound(Apply(st, ev), m)
  {}

  lemma ApplyKeepsMessages(st: State, ev: Event)
    requires MessagesSound(st) && Enabled(st, ev)
    ensures MessagesSound(Apply(st, ev))
  {
    var st' := Apply(st, ev);
    forall m | Sound(st, m) ensures Sound(st', m) {
      ApplyKeepsSound(st, ev, m);
    }
  }

  lemma ApplyKeepsReturns(st: State, ev: Event)
    requires IdsOrdered(st) && MessagesSound(st) && ReturnsOwn(st) && Enabled(st, ev)
    ensures ReturnsOwn(Apply(st, ev))
  {
    forall m | Sound(st, m) ensures Sound(Apply(st, ev), m) {
      ApplyKeepsSound(st, ev, m);
    }
  }

  lemma ApplyKeepsInv(st: State, ev: Event)
    requires Inv(st) && Enabled(st, ev)
    ensures Inv(Apply(st, ev))
  {
    ApplyKeepsOnePlace(st, ev);
    ApplyKeepsIds(st, ev);
    ApplyKeepsMessages(st, ev);
    ApplyKeepsReturns(st, ev);
  }

  lemma {:induction false} RunKeepsInv(events: seq<Event>)
    ensures Inv(Run(events))
  {
    if events != [] {
      RunKeepsInv(events[..|events| - 1]);
      var st, ev := Run(events[..|events| - 1]), events[|events| - 1];
      if Enabled(st, ev) {
        ApplyKeepsInv(st, ev);
      }
    }
  }

  /** Response safety over every interleaving: request ids strictly increase, each request is
  given at most one message, no message is given twice, what a request gets carries the id of
  that request, and unless a server chose this id for a request of its own it is the answer to
  that request, however late it or other answers come. */
  lemma ResponsesSafe(events: seq<Event>)
    ensures var st := Run(events);
      && Increasing(st.sent)
      && (forall i, j :: 0 <= i < j < |st.returned| ==>
            st.returned[i].0 != st.returned[j].0 && st.returned[i].1 != st.returned[j].1)
      && (forall i :: 0 <= i < |st.returned| ==>
            var (id, m) := st.returned[i];
            id in st.sent && m.id == id && (id !in st.foreign ==> m.origin == Answer))
  {
    RunKeepsInv(events);
    var st := Run(events);
    forall i | 0 <= i < |st.returned|
      ensures st.returned[i].1.id == st.returned[i].0 && st.returned[i].0 in st.sent
      ensures st.returned[i].0 !in st.foreign ==> st.returned[i].1.origin == Answer
    {
      assert Sound(st, st.returned[i].1);
    }
  }

  /** Events that use up n ids without any answer. */
  function Timeouts(n: nat): seq<Event> {
    if n == 0 then [Start] else Timeouts(n - 1) + [Send, GiveUp]
  }

  lemma {:induction false} RunOne(events: seq<Event>, ev: Event)
    ensures Run(events + [ev]) == if Enabled(Run(events), ev) then Apply(Run(events), ev) else Run(events)
  {
    assert (events + [ev])[..|events|] == events;
  }

  lemma {:induction false} TimeoutsReach(n: nat)
    ensures var st := Run(Timeouts(n));
      st.running && st.counter == n && !st.waiting && st.table == map[] && st.wire == {} && st.emitted == 0
      && st.foreign == {} && st.returned == []
  {
    if n == 0 {
      RunOne([], Start);
      assert [] + [Start] == [Start];
    } else {
      TimeoutsReach(n - 1);
      RunOne(Timeouts(n - 1), Send);
      RunOne(Timeouts(n - 1) + [Send], GiveUp);
      assert Timeouts(n - 1) + [Send] + [GiveUp] == Timeouts(n);
    }
  }

  /** The exception above is exact: for every request id there is a run in which a server
  originates just that id and the request is given the server's request as its answer. */
  lemma ForeignIdIsMistaken(n: nat) returns (events: seq<Event>)
    requires n > 0
    ensures var st := Run(events);
      st.foreign == {n} && st.returned == [(n, Envelope(n, ServerRequest, 0))]
  {
    TimeoutsReach(n - 1);
    var m := Envelope(n, ServerRequest, 0);
    var a := Timeouts(n - 1);
    RunOne(a, Originate(n));
    RunOne(a + [Originate(n)], Read(m));
    RunOne(a + [Originate(n)] + [Read(m)], Send);
    RunOne(a + [Originate(n)] + [Read(m)] + [Send], Take);
    events := a + [Originate(n)] + [Read(m)] + [Send] + [Take];
  }

  /** An answer that is sent, read and looked for is given to its request, and nothing of it is left
  behind. */
  lemma AnswerArrives(events: seq<Event>)
    requires Run(events).running && !Run(events).waiting
    ensures var st := Run(events);
      var id := st.counter + 1;
      var m := Envelope(id, Answer, st.emitted);
      var after := Run(events + [Send] + [Reply(id)] + [Read(m)] + [Take]);
      && after.returned == st.returned + [(id, m)] && after.sent == st.sent + [id]
      && !after.waiting && after.counter == id && after.running
      && after.table == st.table - {id} && after.wire == st.wire && after.foreign == st.foreign
  {
    var st := Run(events);
    var id := st.counter + 1;
    var m := Envelope(id, Answer, st.emitted);
    RunKeepsInv(events);
    AnswerSteps(st, m);
    RunOne(events, Send);
    RunOne(events + [Send], Reply(id));
    RunOne(events + [Send] + [Reply(id)], Read(m));
    RunOne(events + [Send] + [Reply(id)] + [Read(m)], Take);
  }

  lemma AnswerSteps(st: State, m: Envelope)
    requires st.running && !st.waiting && m == Envelope(st.counter + 1, Answer, st.emitted)
    requires forall w :: w in st.wire ==> Sound(st, w)
    ensures var asked := Apply(st, Send);
      && Enabled(asked, Reply(m.id))
      && var answered := Apply(asked, Reply(m.id));
      && Enabled(answered, Read(m))
      && var arrived := Apply(answered, Read(m));
      && Enabled(arrived, Take)
      && Apply(arrived, Take) == st.(counter := m.id, asked := st.asked + {m.id}, sent := st.sent + [m.id],
           emitted := st.emitted + 1, table := st.table - {m.id}, returned := st.returned + [(m.id, m)])
  {
    assert m !in st.wire;
    assert st.wire + {m} - {m} == st.wire;
    assert st.table[m.id := m] - {m.id} == st.table - {m.id};
  }

  /** A failed write uses its id up, and a request that gave up leaves a late answer in the table. */
  lemma IdsAreUsedUp(events: seq<Event>)
    requires Run(events).running && !Run(events).waiting
    ensures var st, failed, given := Run(events), Run(events + [SendFails]), Run(events + [Send] + [GiveUp]);
      && failed == st.(counter := st.counter + 1)
      && given == st.(counter := st.counter + 1, asked := st.asked + {st.counter + 1},
           sent := st.sent + [st.counter + 1])
  {
    RunOne(events, SendFails);
    RunOne(events, Send);
    RunOne(events + [Send], GiveUp);
  }

  /** A stopped client has no message left, takes none, and sends none before it is started again. */
  lemma StopForgets(events: seq<Event>)
    requires !Run(events).waiting
    ensures var stopped := Run(events + [Stop]);
      && stopped == Run(events).(running := false, table := map[])
      && Run(events + [Stop] + [Send]) == stopped && Run(events + [Stop] + [Take]) == stopped
      && Run(events + [Stop] + [SendFails]) == stopped
      && Run(events + [Stop] + [Start]) == stopped.(running := true)
  {
    RunOne(events, Stop);
    RunOne(events + [Stop], Send);
    RunOne(events + [Stop], Take);
    RunOne(events + [Stop], SendFails);
    RunOne(events + [Stop], Start);
  }

  /** While a request waits nothing else is sent, and the client is not stopped. */
  lemma OneAtATime(events: seq<Event>, ev: Event)
    requires Run(events).waiting && (ev.Send? || ev.SendFails? || ev.Stop?)
    ensures Run(events + [ev]) == Run(events)
  {
    RunOne(events, ev);
  }
}
