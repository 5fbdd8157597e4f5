/** The TCP connection table and the index from endpoints to connections, under any interleaving of the
    locked steps of connecting, accepting, closing and stopping. */
module ConnectionIndex {
  import opened Bytes

  const ID_LIMIT := 0x1_0000_0000

  datatype Remote = Remote(address: string, port: U16)

  /** A connection between drawing its id and entering the table, or between the table and the index. */
  datatype Opening = Opening(id: U32, remote: Remote, outgoing: bool)

  /** `draws` counts the ids handed out and `owner` remembers for whom; neither is part of the program. */
  datatype State = State(
    nextId: U32,
    live: map<U32, Remote>,
    index: map<Remote, U32>,
    drawn: set<Opening>,
    toIndex: set<Opening>,
    toUnindex: multiset<Remote>,
    draws: nat,
    owner: map<U32, Remote>)

  const INITIAL := State(1, map[], map[], {}, {}, multiset{}, 0, map[])

  /** One locked step of one thread. */
  datatype Event =
    | Check(remote: Remote)
    | Draw(remote: Remote, outgoing: bool)
    | Enter(opening: Opening)
    | Index(opening: Opening)
    | Remove(id: U32)
    | Unindex(remote: Remote)
    | Stop

  /** The id that checking the index selects, if any. */
  function Selected(s: State, remote: Remote): Option<U32> {
    if remote in s.index && s.index[remote] in s.live then Some(s.index[remote]) else None
  }

  /** A step that no thread is about to take changes nothing. */
  function Step(s: State, e: Event): State {
    match e
    case Check(remote) => if Selected(s, remote).Some? then s else s.(index := s.index - {remote})
    case Draw(remote, outgoing) =>
      s.(nextId := (s.nextId + 1) % ID_LIMIT,
         drawn := s.drawn + {Opening(s.nextId, remote, outgoing)},
         draws := s.draws + 1,
         owner := s.owner[s.nextId := remote])
    case Enter(o) =>
      if o in s.drawn then
        s.(drawn := s.drawn - {o},
           live := s.live[o.id := o.remote],
           toIndex := if o.outgoing then s.toIndex + {o} else s.toIndex)
      else s
    case Index(o) =>
      if o in s.toIndex then s.(toIndex := s.toIndex - {o}, index := s.index[o.remote := o.id]) else s
    case Remove(id) =>
      if id in s.live then s.(live := s.live - {id}, toUnindex := s.toUnindex + multiset{s.live[id]}) else s
    case Unindex(remote) =>
      if remote in s.toUnindex then
        s.(toUnindex := s.toUnindex - multiset{remote}, index := s.index - {remote})
      else s
    case Stop => s.(live := map[])
  }

  function Run(events: seq<Event>): State {
    if events == [] then INITIAL else Step(Run(events[..|events| - 1]), events[|events| - 1])
  }

  function Draws(events: seq<Event>): nat {
    if events == [] then 0
    else Draws(events[..|events| - 1]) + if events[|events| - 1].Draw? then 1 else 0
  }

  /** While the id counter has not wrapped, every id stands for the one endpoint it was drawn for. */
  ghost predicate Consistent(s: State) {
    && (s.draws + 1 < ID_LIMIT ==> s.nextId == s.draws + 1)
    && (forall id :: id in s.owner ==> 0 < id <= s.draws)
    && (forall id :: id in s.live ==> id in s.owner && s.live[id] == s.owner[id])
    && (forall r :: r in s.index ==> s.index[r] in s.owner && s.owner[s.index[r]] == r)
    && (forall o :: o in s.drawn ==> o.id in s.owner && s.owner[o.id] == o.remote)
    && (forall o :: o in s.toIndex ==> o.id in s.owner && s.owner[o.id] == o.remote)
  }

  lemma StepConsistent(s: State, e: Event)
    requires Consistent(s) && s.draws + (if e.Draw? then 1 else 0) < ID_LIMIT
    ensures Consistent(Step(s, e))
  {
  }

  lemma {:induction false} RunConsistent(events: seq<Event>)
    requires Draws(events) < ID_LIMIT
    ensures Consistent(Run(events)) && Run(events).draws == Draws(events)
  {
    if events != [] {
      RunConsistent(events[..|events| - 1]);
      StepConsistent(Run(events[..|events| - 1]), events[|events| - 1]);
    }
  }

  /** Before 2^32 ids were drawn, whatever the interleaving: an indexed id that is live is connected to the
      indexed endpoint; what a check selects is live for the endpoint asked for; and what an index step
      publishes was drawn for that endpoint, and is live for it unless it was closed meanwhile. */
  lemma IndexAgrees(events: seq<Event>, remote: Remote)
    requires Draws(events) < 0x1_0000_0000
    ensures var s := Run(events);
            && (remote in s.index && s.index[remote] in s.live ==> s.live[s.index[remote]] == remote)
            && (Selected(s, remote).Some? ==>
                  var id := Selected(s, remote).value; id != 0 && id in s.live && s.live[id] == remote)
            && (forall o :: o in s.toIndex ==> o.id != 0 && o.id in s.owner && s.owner[o.id] == o.remote
                                               && (o.id in s.live ==> s.live[o.id] == o.remote))
  {
    RunConsistent(events);
  }

  /** Drawing never hands out an id twice before 2^32 - 1 draws, and never the id 0 that stands for failure. */
  lemma FreshIds(events: seq<Event>, remote: Remote, outgoing: bool)
    requires Draws(events) + 1 < 0x1_0000_0000
    ensures var s := Run(events);
            && s.nextId != 0 && s.nextId !in s.owner && s.nextId !in s.live
            && Run(events + [Draw(remote, outgoing)]).owner == s.owner[s.nextId := remote]
            && forall id :: id in s.owner ==> Run(events + [Draw(remote, outgoing)]).owner[id] == s.owner[id]
  {
    RunConsistent(events);
    assert (events + [Draw(remote, outgoing)])[..|events|] == events;
  }

  lemma StepNextId(s: State, e: Event)
    ensures Step(s, e).nextId == if e.Draw? then (s.nextId + 1) % ID_LIMIT else s.nextId
  {
  }

  lemma NextRemainder(n: nat)
    ensures (n % ID_LIMIT + 1) % ID_LIMIT == (n + 1) % ID_LIMIT
  {
  }

  /** The bound is exact: the id counter wraps, and after 2^32 - 1 draws the next id is 0, which callers
      take for a failure. */
  lemma {:induction false} NextId(events: seq<Event>)
    ensures Run(events).nextId == (1 + Draws(events)) % 0x1_0000_0000
  {
    if events != [] {
      var before := events[..|events| - 1];
      NextId(before);
      StepNextId(Run(before), events[|events| - 1]);
      NextRemainder(1 + Draws(before));
    }
  }

  // ----- What the index does not promise -----

  lemma RunSnoc(events: seq<Event>, e: Event)
    ensures Run(events + [e]) == Step(Run(events), e)
  {
    assert (events + [e])[..|events|] == events;
  }

  /** A first connection to `r` is opened and leaves the table; its index entry is still to be removed. */
  lemma HalfClosed(r: Remote)
    ensures var a := Opening(1, r, true);
            Run([Draw(r, true), Enter(a), Index(a), Remove(1)])
            == State(2, map[], map[r := 1], {}, {}, multiset{r}, 1, map[1 := r])
  {
    var a := Opening(1, r, true);
    RunSnoc([], Draw(r, true));
    var e1 := [] + [Draw(r, true)];
    RunSnoc(e1, Enter(a));
    var e2 := e1 + [Enter(a)];
    RunSnoc(e2, Index(a));
    var e3 := e2 + [Index(a)];
    assert Run(e3) == State(2, map[1 := r], map[r := 1], {}, {}, multiset{}, 1, map[1 := r]);
    RunSnoc(e3, Remove(1));
    assert e3 + [Remove(1)] == [Draw(r, true), Enter(a), Index(a), Remove(1)];
  }

  /** Closing removes the mapping of the endpoint, not of the connection: a close that finishes late takes
      a newer, live connection out of the index. */
  lemma LateUnindexExample(r: Remote)
    ensures var a, b := Opening(1, r, true), Opening(2, r, true);
            var s := Run([Draw(r, true), Enter(a), Index(a), Remove(1), Draw(r, true), Enter(b), Index(b), Unindex(r)]);
            2 in s.live && s.live[2] == r && r !in s.index
  {
    var a, b := Opening(1, r, true), Opening(2, r, true);
    HalfClosed(r);
    var e4 := [Draw(r, true), Enter(a), Index(a), Remove(1)];
    RunSnoc(e4, Draw(r, true));
    var e5 := e4 + [Draw(r, true)];
    RunSnoc(e5, Enter(b));
    var e6 := e5 + [Enter(b)];
    RunSnoc(e6, Index(b));
    var e7 := e6 + [Index(b)];
    RunSnoc(e7, Unindex(r));
    assert e7 + [Unindex(r)]
           == [Draw(r, true), Enter(a), Index(a), Remove(1), Draw(r, true), Enter(b), Index(b), Unindex(r)];
  }

  /** Removing an index entry is harmless exactly when the entry selects nothing at that moment. */
  lemma UnindexExactly(s: State, r: Remote)
    requires r in s.toUnindex
    ensures (forall q :: Selected(Step(s, Unindex(r)), q) == Selected(s, q)) <==> Selected(s, r) == None
  {
    assert Selected(Step(s, Unindex(r)), r) == None;
  }

  /** A close whose two steps no other step comes between takes the connection out of the table and its
      endpoint out of the index. All other connections stay selected exactly when the index entry of that
      endpoint is not the entry of another live connection. */
  lemma PromptClose(s: State, id: U32)
    requires id in s.live
    ensures var r := s.live[id];
            var t := Step(Step(s, Remove(id)), Unindex(r));
            && t.live == s.live - {id} && t.index == s.index - {r} && t.toUnindex == s.toUnindex
            && ((forall q :: Selected(s, q) != None && Selected(s, q) != Some(id) ==> Selected(t, q) == Selected(s, q))
                <==> !(r in s.index && s.index[r] != id && s.index[r] in s.live))
  {
    var r := s.live[id];
    var t := Step(Step(s, Remove(id)), Unindex(r));
    assert Selected(t, r) == None;
    if r in s.index && s.index[r] != id && s.index[r] in s.live {
      assert Selected(s, r) == Some(s.index[r]);
    }
  }

  /** Two connections to `r` that were opened side by side: the index knows the second. */
  lemma Twins(r: Remote)
    ensures var a, b := Opening(1, r, true), Opening(2, r, true);
            var s := Run([Draw(r, true), Enter(a), Index(a), Draw(r, true), Enter(b), Index(b)]);
            s.live == map[1 := r, 2 := r] && s.index == map[r := 2]
  {
    var a, b := Opening(1, r, true), Opening(2, r, true);
    RunSnoc([], Draw(r, true));
    var e1 := [] + [Draw(r, true)];
    RunSnoc(e1, Enter(a));
    var e2 := e1 + [Enter(a)];
    RunSnoc(e2, Index(a));
    var e3 := e2 + [Index(a)];
    assert Run(e3) == State(2, map[1 := r], map[r := 1], {}, {}, multiset{}, 1, map[1 := r]);
    RunSnoc(e3, Draw(r, true));
    var e4 := e3 + [Draw(r, true)];
    RunSnoc(e4, Enter(b));
    var e5 := e4 + [Enter(b)];
    RunSnoc(e5, Index(b));
    assert e5 + [Index(b)] == [Draw(r, true), Enter(a), Index(a), Draw(r, true), Enter(b), Index(b)];
  }

  /** The failing case is reached: closing the first of the two, even without a step in between, takes the
      second out of the index. */
  lemma PromptCloseExample(r: Remote)
    ensures var a, b := Opening(1, r, true), Opening(2, r, true);
            var s := Run([Draw(r, true), Enter(a), Index(a), Draw(r, true), Enter(b), Index(b)]);
            var t := Step(Step(s, Remove(1)), Unindex(r));
            Selected(s, r) == Some(2) && 2 in t.live && t.live[2] == r && Selected(t, r) == None
  {
    Twins(r);
    PromptClose(Run([Draw(r, true), Enter(Opening(1, r, true)), Index(Opening(1, r, true)),
                     Draw(r, true), Enter(Opening(2, r, true)), Index(Opening(2, r, true))]), 1);
  }

  // ----- What the events say -----

  /** The opening's id was drawn for it and it did not enter the table yet. */
  predicate Drawn(events: seq<Event>, o: Opening) {
    if events == [] then false
    else
      var before, e := events[..|events| - 1], events[|events| - 1];
      if e == Draw(o.remote, o.outgoing) && o.id == (1 + Draws(before)) % ID_LIMIT then true
      else e != Enter(o) && Drawn(before, o)
  }

  /** The opening entered the table and still has to enter the index. */
  predicate Unindexed(events: seq<Event>, o: Opening) {
    if events == [] then false
    else
      var before, e := events[..|events| - 1], events[|events| - 1];
      if e == Enter(o) && o.outgoing && Drawn(before, o) then true
      else e != Index(o) && Unindexed(before, o)
  }

  /** Whom the live connection of that id is connected to. */
  function Connected(events: seq<Event>, id: U32): Option<Remote> {
    if events == [] then None
    else
      var before, e := events[..|events| - 1], events[|events| - 1];
      if e.Enter? && e.opening.id == id && Drawn(before, e.opening) then Some(e.opening.remote)
      else if e == Remove(id) || e.Stop? then None
      else Connected(before, id)
  }

  /** How many closes of a connection to `r` left the table and did not come to the index yet. */
  function Closing(events: seq<Event>, r: Remote): nat {
    if events == [] then 0
    else
      var before, e := events[..|events| - 1], events[|events| - 1];
      if e.Remove? && Connected(before, e.id) == Some(r) then Closing(before, r) + 1
      else if e == Unindex(r) && Closing(before, r) > 0 then Closing(before, r) - 1
      else Closing(before, r)
  }

  function LiveRemote(s: State, id: U32): Option<Remote> {
    if id in s.live then Some(s.live[id]) else None
  }

  lemma {:induction false} DrawnFromEvents(events: seq<Event>, o: Opening)
    ensures o in Run(events).drawn <==> Drawn(events, o)
  {
    if events != [] {
      var before := events[..|events| - 1];
      DrawnFromEvents(before, o);
      NextId(before);
    }
  }

  lemma {:induction false} UnindexedFromEvents(events: seq<Event>, o: Opening)
    ensures o in Run(events).toIndex <==> Unindexed(events, o)
  {
    if events != [] {
      var before := events[..|events| - 1];
      UnindexedFromEvents(before, o);
      DrawnFromEvents(before, o);
    }
  }

  lemma {:induction false} ConnectedFromEvents(events: seq<Event>, id: U32)
    ensures LiveRemote(Run(events), id) == Connected(events, id)
  {
    if events != [] {
      var before, e := events[..|events| - 1], events[|events| - 1];
      ConnectedFromEvents(before, id);
      if e.Enter? {
        DrawnFromEvents(before, e.opening);
      }
    }
  }

  lemma ClosingStep(s: State, e: Event, r: Remote)
    ensures Step(s, e).toUnindex[r]
            == if e.Remove? && LiveRemote(s, e.id) == Some(r) then s.toUnindex[r] + 1
               else if e == Unindex(r) && s.toUnindex[r] > 0 then s.toUnindex[r] - 1
               else s.toUnindex[r]
  {
  }

  lemma {:induction false} ClosingFromEvents(events: seq<Event>, r: Remote)
    ensures Run(events).toUnindex[r] == Closing(events, r)
  {
    if events != [] {
      var before, e := events[..|events| - 1], events[|events| - 1];
      ClosingFromEvents(before, r);
      ClosingStep(Run(before), e, r);
      if e.Remove? {
        ConnectedFromEvents(before, e.id);
      }
    }
  }

  /** Event `i` enters a connection to `r` in the index. */
  predicate Publishes(events: seq<Event>, i: nat, r: Remote)
    requires i < |events|
  {
    events[i].Index? && events[i].opening.remote == r && Unindexed(events[..i], events[i].opening)
  }

  /** Event `j` takes the entry that event `i` made out of the index: a close of a connection to `r`, or a
      check that finds the connection of event `i` no longer live. */
  predicate Withdraws(events: seq<Event>, i: nat, j: nat, r: Remote)
    requires i < |events| && events[i].Index? && j < |events|
  {
    match events[j]
    case Unindex(remote) => remote == r && Closing(events[..j], r) > 0
    case Check(remote) => remote == r && Connected(events[..j], events[i].opening.id) == None
    case _ => false
  }

  /** Event `i` has the last word about `r`, and it is an entry in the index. */
  ghost predicate Standing(events: seq<Event>, i: nat, r: Remote) {
    && i < |events| && Publishes(events, i, r)
    && forall j :: i < j < |events| ==> !Publishes(events, j, r) && !Withdraws(events, i, j, r)
  }

  lemma StandingStep(before: seq<Event>, e: Event, i: nat, r: Remote)
    ensures var events := before + [e]; var n := |before|;
            Standing(events, i, r)
            <==> if i == n then Publishes(events, n, r)
                 else Standing(before, i, r) && !Publishes(events, n, r) && !Withdraws(events, i, n, r)
  {
    var events, n := before + [e], |before|;
    forall j | 0 <= j < n
      ensures Publishes(events, j, r) == Publishes(before, j, r)
      ensures i < n && before[i].Index? ==> Withdraws(events, i, j, r) == Withdraws(before, i, j, r)
    {
      assert events[..j] == before[..j];
    }
    if Standing(events, i, r) && i != n {
      assert !Publishes(events, n, r) && !Withdraws(events, i, n, r);
    }
  }

  /** The step enters a connection to `r` in the index. */
  predicate Enters(s: State, e: Event, r: Remote) {
    e.Index? && e.opening.remote == r && e.opening in s.toIndex
  }

  /** The step takes `r` out of the index. */
  predicate Drops(s: State, e: Event, r: Remote) {
    match e
    case Unindex(remote) => remote == r && r in s.toUnindex
    case Check(remote) => remote == r && Selected(s, r) == None
    case _ => false
  }

  lemma IndexStep(s: State, e: Event, r: Remote)
    ensures var t := Step(s, e);
            && (Enters(s, e, r) ==> r in t.index && t.index[r] == e.opening.id)
            && (Drops(s, e, r) ==> r !in t.index)
            && (!Enters(s, e, r) && !Drops(s, e, r)
                ==> (r in t.index <==> r in s.index) && (r in s.index ==> t.index[r] == s.index[r]))
  {
  }

  lemma StepsFromEvents(before: seq<Event>, e: Event, i: nat, r: Remote)
    ensures var events, n, s := before + [e], |before|, Run(before);
            && (Enters(s, e, r) <==> Publishes(events, n, r))
            && (i < n && before[i].Index? && r in s.index && s.index[r] == before[i].opening.id
                ==> (Drops(s, e, r) <==> Withdraws(events, i, n, r)))
  {
    assert (before + [e])[..|before|] == before;
    if e.Index? {
      UnindexedFromEvents(before, e.opening);
    }
    ClosingFromEvents(before, r);
    if i < |before| && before[i].Index? {
      ConnectedFromEvents(before, before[i].opening.id);
    }
  }

  lemma SelectedFromEvents(events: seq<Event>, r: Remote)
    requires r in Run(events).index <==> exists i: nat :: Standing(events, i, r)
    requires forall i: nat :: Standing(events, i, r)
                         ==> r in Run(events).index && Run(events).index[r] == events[i].opening.id
    ensures Selected(Run(events), r).Some?
            <==> exists i: nat :: Standing(events, i, r) && Connected(events, events[i].opening.id).Some?
  {
    forall i: nat | Standing(events, i, r)
      ensures Connected(events, events[i].opening.id) == LiveRemote(Run(events), events[i].opening.id)
    {
      ConnectedFromEvents(events, events[i].opening.id);
    }
  }

  /** An endpoint is indexed exactly when its latest entry in the index was not withdrawn since, and then
      under the connection entered; it selects a connection exactly when that one is still live. */
  lemma {:induction false} IndexRefinesHistory(events: seq<Event>, r: Remote)
    ensures r in Run(events).index <==> exists i: nat :: Standing(events, i, r)
    ensures forall i: nat :: Standing(events, i, r)
                        ==> r in Run(events).index && Run(events).index[r] == events[i].opening.id
    ensures Selected(Run(events), r).Some?
            <==> exists i: nat :: Standing(events, i, r) && Connected(events, events[i].opening.id).Some?
  {
    if events != [] {
      var n := |events| - 1;
      var before, e := events[..n], events[n];
      assert events == before + [e];
      IndexRefinesHistory(before, r);
      IndexStep(Run(before), e, r);
      forall i: nat
        ensures Standing(events, i, r)
                <==> if i == n then Publishes(events, n, r)
                     else Standing(before, i, r) && !Publishes(events, n, r) && !Withdraws(events, i, n, r)
        ensures Enters(Run(before), e, r) <==> Publishes(events, n, r)
        ensures Standing(before, i, r) ==> (Drops(Run(before), e, r) <==> Withdraws(events, i, n, r))
      {
        StandingStep(before, e, i, r);
        StepsFromEvents(before, e, i, r);
      }
      if Publishes(events, n, r) {
        assert Standing(events, n, r);
      } else if r in Run(events).index {
        var i: nat :| Standing(before, i, r);
        assert Standing(events, i, r);
      }
    }
    SelectedFromEvents(events, r);
  }

  // ----- The object -----

  class ConnectionTable {
    var nextConnectionId: U32
    var connections: map<U32, Remote>
    var endpointToConnection: map<Remote, U32>

    constructor ()
      ensures nextConnectionId == 1 && connections == map[] && endpointToConnection == map[]
    {
      nextConnectionId, connections, endpointToConnection := 1, map[], map[];
    }

    /** The table and the index of a state. */
    ghost predicate Shows(s: State)
      reads this
    {
      nextConnectionId == s.nextId && connections == s.live && endpointToConnection == s.index
    }

    method CheckExisting(remote: Remote, ghost s: State) returns (id: Option<U32>)
      requires Shows(s)
      modifies this`endpointToConnection
      ensures id == Selected(s, remote) && Shows(Step(s, Check(remote)))
    {
      if remote in endpointToConnection {
        var found := endpointToConnection[remote];
        if found in connections {
          return Some(found);
        }
        endpointToConnection := endpointToConnection - {remote};
      } else {
        assert endpointToConnection - {remote} == endpointToConnection;
      }
      return None;
    }

    method DrawId(remote: Remote, outgoing: bool, ghost s: State) returns (id: U32)
      requires Shows(s)
      modifies this`nextConnectionId
      ensures id == s.nextId && Shows(Step(s, Draw(remote, outgoing)))
    {
      id := nextConnectionId;
      nextConnectionId := (nextConnectionId + 1) % ID_LIMIT;
    }

    method EnterTable(id: U32, remote: Remote, outgoing: bool, ghost s: State)
      requires Shows(s) && Opening(id, remote, outgoing) in s.drawn
      modifies this`connections
      ensures Shows(Step(s, Enter(Opening(id, remote, outgoing))))
    {
      connections := connections[id := remote];
    }

    method EnterIndex(id: U32, remote: Remote, ghost s: State)
      requires Shows(s) && Opening(id, remote, true) in s.toIndex
      modifies this`endpointToConnection
      ensures Shows(Step(s, Index(Opening(id, remote, true))))
    {
      endpointToConnection := endpointToConnection[remote := id];
    }

    method RemoveConnection(id: U32, ghost s: State) returns (remote: Option<Remote>)
      requires Shows(s)
      modifies this`connections
      ensures remote == (if id in s.live then Some(s.live[id]) else None) && Shows(Step(s, Remove(id)))
    {
      remote := None;
      if id in connections {
        remote := Some(connections[id]);
        connections := connections - {id};
      }
    }

    method RemoveFromIndex(remote: Remote, ghost s: State)
      requires Shows(s) && remote in s.toUnindex
      modifies this`endpointToConnection
      ensures Shows(Step(s, Unindex(remote)))
    {
      endpointToConnection := endpointToConnection - {remote};
    }

    method StopAll(ghost s: State)
      requires Shows(s)
      modifies this`connections
      ensures Shows(Step(s, Stop))
    {
      connections := map[];
    }
  }
}
