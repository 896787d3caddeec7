/** The request method of the client object is a piece of a run of the interleaved system, so
what holds of all runs holds of what the method returns. */
module LspRefinement {
  import opened LspSession
  import opened LspClients

  /** Steps of the servers and the reader threads. */
  predicate IsEnvironment(ev: Event) {
    ev.Reply? || ev.Originate? || ev.Read?
  }

  /** The messages that the readers store during some steps. */
  function Arrived(events: seq<Event>): seq<(int, Envelope)> {
    if events == [] then []
    else
      var rest := Arrived(events[1..]);
      if events[0].Read? then [(events[0].message.id, events[0].message)] + rest else rest
  }

  /** The events can happen in this order from this state. */
  ghost predicate Possible(st: State, events: seq<Event>)
    decreases |events|
  {
    events == [] || (Enabled(st, events[0]) && Possible(Apply(st, events[0]), events[1..]))
  }

  function ApplyAll(st: State, events: seq<Event>): State
    requires Possible(st, events)
    decreases |events|
  {
    if events == [] then st else ApplyAll(Apply(st, events[0]), events[1..])
  }

  lemma MoveOver(events: seq<Event>, more: seq<Event>)
    requires more != []
    ensures (events + [more[0]]) + more[1..] == events + more
  {}

  lemma {:induction false} RunExtends(events: seq<Event>, st: State, more: seq<Event>)
    requires st == Run(events) && Possible(st, more)
    ensures Run(events + more) == ApplyAll(st, more)
    decreases |more|
  {
    if more == [] {
      assert events + [] == events;
    } else {
      var next := Apply(st, more[0]);
      RunOne(events, more[0]);
      RunExtends(events + [more[0]], next, more[1..]);
      MoveOver(events, more);
    }
  }

  lemma {:induction false} PossibleConcat(st: State, a: seq<Event>, b: seq<Event>)
    requires Possible(st, a) && Possible(ApplyAll(st, a), b)
    ensures Possible(st, a + b) && ApplyAll(st, a + b) == ApplyAll(ApplyAll(st, a), b)
    decreases |a|
  {
    if a == [] {
      assert a + b == b;
    } else {
      assert (a + b)[1..] == a[1..] + b;
      PossibleConcat(Apply(st, a[0]), a[1..], b);
    }
  }

  /** Only the table changes for the client, and it changes as the client stores arrivals. */
  lemma {:induction false} EnvironmentStores(st: State, events: seq<Event>)
    requires Possible(st, events) && forall ev :: ev in events ==> IsEnvironment(ev)
    ensures var st' := ApplyAll(st, events);
      && st'.table == Store(st.table, Arrived(events))
      && st'.running == st.running && st'.counter == st.counter && st'.waiting == st.waiting
      && st'.returned == st.returned
    decreases |events|
  {
    if events != [] {
      assert events[0] in events && forall ev :: ev in events[1..] ==> ev in events;
      EnvironmentStores(Apply(st, events[0]), events[1..]);
      if events[0].Read? {
        assert Arrived(events)[1..] == Arrived(events[1..]);
      }
    }
  }

  /** What happens between the looks of a waiting request at the table is up to the environment. */
  ghost predicate PossibleLooks(st: State, looks: seq<seq<Event>>)
    decreases |looks|
  {
    looks == [] || (
      && Possible(st, looks[0]) && (forall ev :: ev in looks[0] ==> IsEnvironment(ev))
      && (st.counter in ApplyAll(st, looks[0]).table || PossibleLooks(ApplyAll(st, looks[0]), looks[1..])))
  }

  /** The events of a waiting request: look by look until the id is there, or giving up. */
  function WaitEvents(st: State, looks: seq<seq<Event>>): seq<Event>
    requires PossibleLooks(st, looks)
    decreases |looks|
  {
    if looks == [] then [GiveUp]
    else if st.counter in ApplyAll(st, looks[0]).table then looks[0] + [Take]
    else looks[0] + WaitEvents(ApplyAll(st, looks[0]), looks[1..])
  }

  function AllArrived(looks: seq<seq<Event>>): (r: seq<seq<(int, Envelope)>>)
    ensures |r| == |looks| && forall i :: 0 <= i < |looks| ==> r[i] == Arrived(looks[i])
  {
    if looks == [] then [] else [Arrived(looks[0])] + AllArrived(looks[1..])
  }

  /** Waiting in the interleaved system is what the client's loop computes. */
  lemma {:induction false} WaitIsAwait(st: State, looks: seq<seq<Event>>)
    requires st.waiting && PossibleLooks(st, looks)
    ensures Possible(st, WaitEvents(st, looks))
    ensures var st' := ApplyAll(st, WaitEvents(st, looks));
      var (got, table) := Await(st.table, st.counter, AllArrived(looks));
      && !st'.waiting && st'.counter == st.counter && st'.running == st.running && st'.table == table
      && st'.returned == st.returned + if got.Some? then [(st.counter, got.value)] else []
    decreases |looks|
  {
    if looks == [] {
      assert [GiveUp][1..] == [];
    } else {
      var next := ApplyAll(st, looks[0]);
      EnvironmentStores(st, looks[0]);
      assert AllArrived(looks)[1..] == AllArrived(looks[1..]);
      if st.counter in next.table {
        assert [Take][1..] == [];
        PossibleConcat(st, looks[0], [Take]);
      } else {
        WaitIsAwait(next, looks[1..]);
        PossibleConcat(st, looks[0], WaitEvents(next, looks[1..]));
      }
    }
  }

  /** A request made after any run, whatever happens while it waits, continues that run: the
  table afterwards is the one the method leaves, and what the system records as returned to
  request counter + 1 is what the method got. It is therefore the answer to that very request,
  unless a server used the id for a request of its own. */
  lemma RequestIsRun(events: seq<Event>, looks: seq<seq<Event>>) returns (longer: seq<Event>)
    requires Run(events).running && !Run(events).waiting
    requires PossibleLooks(Apply(Run(events), Send), looks)
    ensures var st, st' := Run(events), Run(longer);
      var id := st.counter + 1;
      var (got, table) := Await(st.table, id, AllArrived(looks));
      && st'.counter == id && st'.table == table
      && st'.returned == st.returned + (if got.Some? then [(id, got.value)] else [])
      && (got.Some? ==> got.value.id == id && (id !in st'.foreign ==> got.value.origin == Answer))
  {
    var st := Run(events);
    var asked := Apply(st, Send);
    WaitIsAwait(asked, looks);
    RunOne(events, Send);
    longer := events + [Send] + WaitEvents(asked, looks);
    RunExtends(events + [Send], asked, WaitEvents(asked, looks));
    ResponsesSafe(longer);
    var got := Await(st.table, st.counter + 1, AllArrived(looks)).0;
    if got.Some? {
      assert Run(longer).returned[|st.returned|] == (st.counter + 1, got.value);
    }
  }
}
