/** The table of requests that wait for a response: who resolves a request's promise, and how often. */
module PendingRequests {
  import opened Bytes
  import opened Clock
  import Messages

  const SESSIONS := 0x1_0000

  /** A request and its promise are named by `draw`, the number of session ids drawn before its own. */
  datatype Pending = Pending(draw: nat, timestamp: int, timeoutMs: int)

  /** `sending` is the request whose send holds the session lock and `stops` counts the stops that still
      have to clear the table. `thrown` is set once a promise was to be set a second time; nothing is
      modelled after that. `abandoned` are promises whose entry was overwritten before they were set. */
  datatype State = State(
    draws: nat,
    issued: set<nat>,
    sending: Option<nat>,
    running: bool,
    stops: nat,
    table: map<U32, Pending>,
    resolved: set<nat>,
    abandoned: set<nat>,
    thrown: bool)

  const INITIAL := State(0, {}, None, false, 0, map[], {}, {}, false)

  /** One step of one thread, each within one critical section. A request is entered in the table by one
      step; a later one, `Reach` or `Fail`, ends its send, and others may come between. */
  datatype Event =
    | Start
    | Enter(now: int, timeoutMs: int)
    | Reach
    | Fail
    | SendNoReturn
    | Response(requestId: U32)
    | Expire(now: int)
    | Halt
    | Clear

  /** The 16-bit session counter starts at 1 and wraps. */
  function Session(draw: nat): U16 {
    (1 + draw) % SESSIONS
  }

  function RequestId(clientId: U16, draw: nat): U32 {
    clientId * SESSIONS + Session(draw)
  }

  /** The id a request is entered under is the one that its response carries: that of the client and the
      session, 1 for the first draw, of the request. */
  lemma ResponseId(clientId: U16, draw: nat, response: Messages.Message)
    requires response.clientId == clientId && response.sessionId == (1 + draw) % 0x1_0000
    ensures response.RequestId() == RequestId(clientId, draw)
  {
  }

  /** The promises that wait in the table. */
  function Waiting(table: map<U32, Pending>): set<nat> {
    set id | id in table :: table[id].draw
  }

  predicate Overdue(p: Pending, now: int) {
    Elapsed(now, p.timestamp, MILLISECOND) > p.timeoutMs
  }

  /** A request is overdue once the millisecond after its timeout is full. */
  lemma OverdueExactly(p: Pending, now: int)
    requires p.timeoutMs >= 0
    ensures Overdue(p, now) <==> now - p.timestamp >= 1_000_000 * (p.timeoutMs + 1)
  {
    ElapsedExceeds(now, p.timestamp, MILLISECOND, p.timeoutMs);
  }

  function OverdueIds(table: map<U32, Pending>, now: int): set<U32> {
    set id | id in table && Overdue(table[id], now)
  }

  /** The promises of some entries. */
  function PromisesOf(table: map<U32, Pending>, ids: set<U32>): set<nat>
    requires ids <= table.Keys
  {
    set id | id in ids :: table[id].draw
  }

  /** One more entry adds one more promise, as entries do not share them. */
  lemma NextPromise(table: map<U32, Pending>, done: set<U32>, ids: set<U32>, id: U32)
    requires done <= ids <= table.Keys && id in ids - done
    requires forall a, b :: a in table && b in table && table[a].draw == table[b].draw ==> a == b
    ensures table[id].draw in PromisesOf(table, ids) && table[id].draw !in PromisesOf(table, done)
    ensures PromisesOf(table, done + {id}) == PromisesOf(table, done) + {table[id].draw}
    ensures table - done - {id} == table - (done + {id})
  {
  }

  /** Setting the promises of some entries and removing these; a promise that was set before makes this
      throw. */
  function ResolveAll(s: State, ids: set<U32>): State
    requires ids <= s.table.Keys
  {
    var promises := PromisesOf(s.table, ids);
    if promises !! s.resolved then s.(resolved := s.resolved + promises, table := s.table - ids)
    else s.(thrown := true)
  }

  function AfterEnter(clientId: U16, s: State, now: int, timeoutMs: int): State {
    var id := RequestId(clientId, s.draws);
    var lost := if id in s.table && s.table[id].draw !in s.resolved then {s.table[id].draw} else {};
    s.(draws := s.draws + 1,
       issued := s.issued + {s.draws},
       sending := Some(s.draws),
       table := s.table[id := Pending(s.draws, now, timeoutMs)],
       abandoned := s.abandoned + lost)
  }

  /** The send gives up: it sets the promise and leaves the table alone. */
  function AfterFail(s: State): State
    requires s.sending.Some?
  {
    var p := s.sending.value;
    if p in s.resolved then s.(thrown := true) else s.(resolved := s.resolved + {p}, sending := None)
  }

  /** A step that no thread can take changes nothing. */
  function Apply(clientId: U16, s: State, e: Event): State {
    if s.thrown then s
    else
      match e
      case Start => s.(running := true)
      case Enter(now, timeoutMs) => if s.sending == None then AfterEnter(clientId, s, now, timeoutMs) else s
      case Reach => s.(sending := None)
      case Fail => if s.sending == None then s else AfterFail(s)
      case SendNoReturn => if s.sending == None then s.(draws := s.draws + 1) else s
      case Response(id) => if id in s.table then ResolveAll(s, {id}) else s
      case Expire(now) => ResolveAll(s, OverdueIds(s.table, now))
      case Halt => if s.running then s.(running := false, stops := s.stops + 1) else s
      case Clear => if s.stops > 0 then ResolveAll(s, s.table.Keys).(stops := s.stops - 1) else s
  }

  function ApplyAll(clientId: U16, events: seq<Event>): State {
    if events == [] then INITIAL
    else Apply(clientId, ApplyAll(clientId, events[..|events| - 1]), events[|events| - 1])
  }

  // ----- What every run keeps -----

  /** An entry stands under the request id of its own draw. */
  ghost predicate Wellformed(clientId: U16, s: State) {
    && (forall id :: id in s.table ==> s.table[id].draw in s.issued && id == RequestId(clientId, s.table[id].draw))
    && (forall p :: p in s.issued ==> p < s.draws)
    && s.resolved <= s.issued && s.abandoned <= s.issued
    && (s.sending.Some? ==> s.sending.value in s.issued && s.draws == s.sending.value + 1)
  }

  /** Every promise handed out is set, waiting in the table, or was abandoned; that of a send under way is
      not abandoned, as the session lock keeps others from drawing. */
  ghost predicate Accounted(s: State) {
    && s.issued <= s.resolved + Waiting(s.table) + s.abandoned
    && (s.sending.Some? ==> s.sending.value in s.resolved + Waiting(s.table))
  }

  /** No promise whose entry is in the table was set. */
  ghost predicate Resolvable(s: State) {
    Waiting(s.table) !! s.resolved
  }

  ghost predicate Apart(s: State) {
    s.abandoned !! s.resolved && s.abandoned !! Waiting(s.table)
  }

  /** A send is under way: a request was entered and its send has not ended. */
  predicate Busy(events: seq<Event>) {
    if events == [] then false
    else
      match events[|events| - 1]
      case Enter(_, _) => true
      case Reach => false
      case Fail => false
      case _ => Busy(events[..|events| - 1])
  }

  /** No send fails. */
  ghost predicate AllReach(events: seq<Event>) {
    forall n :: 0 <= n < |events| && events[n].Fail? ==> !Busy(events[..n])
  }

  lemma EnterWellformed(clientId: U16, s: State, now: int, timeoutMs: int)
    requires Wellformed(clientId, s)
    ensures Wellformed(clientId, AfterEnter(clientId, s, now, timeoutMs))
  {
  }

  lemma EnterTable(clientId: U16, s: State, now: int, timeoutMs: int)
    requires Wellformed(clientId, s)
    ensures var after := AfterEnter(clientId, s, now, timeoutMs);
            var id := RequestId(clientId, s.draws);
            && Waiting(after.table)
               == (if id in s.table then Waiting(s.table) - {s.table[id].draw} else Waiting(s.table)) + {s.draws}
  {
    var after := AfterEnter(clientId, s, now, timeoutMs);
    var id := RequestId(clientId, s.draws);
    forall p | p in Waiting(s.table) && (id in s.table ==> p != s.table[id].draw) ensures p in Waiting(after.table) {
      var k :| k in s.table && s.table[k].draw == p;
      assert after.table[k] == s.table[k];
    }
    assert after.table[id].draw == s.draws;
    forall p | p in Waiting(after.table)
      ensures p == s.draws || (p in Waiting(s.table) && (id in s.table ==> p != s.table[id].draw))
    {
      var k :| k in after.table && after.table[k].draw == p;
      assert k != id ==> after.table[k] == s.table[k];
    }
  }

  lemma ResolveTable(clientId: U16, s: State, ids: set<U32>)
    requires Wellformed(clientId, s) && ids <= s.table.Keys
    ensures Wellformed(clientId, ResolveAll(s, ids))
    ensures var promises := PromisesOf(s.table, ids);
            promises <= Waiting(s.table) && Waiting(s.table - ids) == Waiting(s.table) - promises
  {
    var promises := PromisesOf(s.table, ids);
    var rest := s.table - ids;
    forall p | p in Waiting(s.table) && p !in promises ensures p in Waiting(rest) {
      var k :| k in s.table && s.table[k].draw == p;
      assert k !in ids;
      assert k in rest && rest[k] == s.table[k];
    }
  }

  ghost predicate InStep(clientId: U16, s: State) {
    Wellformed(clientId, s) && Accounted(s) && Resolvable(s) && Apart(s) && !s.thrown
  }

  lemma EnterKeeps(clientId: U16, s: State, now: int, timeoutMs: int)
    requires InStep(clientId, s) && s.sending == None
    ensures InStep(clientId, AfterEnter(clientId, s, now, timeoutMs))
  {
    EnterWellformed(clientId, s, now, timeoutMs);
    EnterTable(clientId, s, now, timeoutMs);
  }

  lemma ResolveKeeps(clientId: U16, s: State, ids: set<U32>)
    requires InStep(clientId, s) && ids <= s.table.Keys
    ensures InStep(clientId, ResolveAll(s, ids))
  {
    ResolveTable(clientId, s, ids);
  }

  /** One step keeps promises and entries in step and sets no promise twice, unless it ends a send that
      failed: that step sets a promise twice if its entry is gone, and leaves the entry behind if not. */
  lemma StepKeeps(clientId: U16, s: State, e: Event)
    requires InStep(clientId, s)
    ensures var after := Apply(clientId, s, e);
            && (InStep(clientId, after) <==> !(e.Fail? && s.sending.Some?))
            && (e.Fail? && s.sending.Some?
                ==> (after.thrown <==> s.sending.value !in Waiting(s.table))
                    && (Resolvable(after) <==> s.sending.value !in Waiting(s.table)))
  {
    match e {
      case Enter(now, timeoutMs) =>
        if s.sending == None {
          EnterKeeps(clientId, s, now, timeoutMs);
        }
      case Response(id) =>
        if id in s.table {
          ResolveKeeps(clientId, s, {id});
        }
      case Expire(now) => ResolveKeeps(clientId, s, OverdueIds(s.table, now));
      case Clear => ResolveKeeps(clientId, s, s.table.Keys);
      case _ =>
    }
  }

  lemma {:induction false} BusyIsSending(clientId: U16, events: seq<Event>)
    ensures var s := ApplyAll(clientId, events); !s.thrown ==> (s.sending.Some? <==> Busy(events))
  {
    if events != [] {
      BusyIsSending(clientId, events[..|events| - 1]);
    }
  }

  lemma ReachPrefix(events: seq<Event>, n: nat)
    requires AllReach(events) && n <= |events|
    ensures AllReach(events[..n])
  {
    forall k | 0 <= k < n && events[k].Fail? ensures !Busy(events[..n][..k]) {
      assert events[..n][..k] == events[..k];
    }
  }

  /** In a run in which no send fails no promise is set twice; each promise handed out is in exactly one
      place: set, waiting in the table, or abandoned. */
  lemma {:induction false} ResolveOnce(clientId: U16, events: seq<Event>)
    requires AllReach(events)
    ensures InStep(clientId, ApplyAll(clientId, events))
  {
    if events != [] {
      var n := |events| - 1;
      ReachPrefix(events, n);
      ResolveOnce(clientId, events[..n]);
      BusyIsSending(clientId, events[..n]);
      StepKeeps(clientId, ApplyAll(clientId, events[..n]), events[n]);
    }
  }

  lemma ReachSnoc(events: seq<Event>)
    requires events != [] && AllReach(events[..|events| - 1])
    ensures AllReach(events) <==> !(events[|events| - 1].Fail? && Busy(events[..|events| - 1]))
  {
    var before := events[..|events| - 1];
    forall k | 0 <= k < |before| && events[k].Fail? ensures !Busy(events[..k]) {
      assert before[..k] == events[..k] && before[k] == events[k];
    }
  }

  lemma {:induction false} FirstFailure(clientId: U16, events: seq<Event>) returns (n: nat)
    requires !AllReach(events)
    ensures n <= |events|
    ensures var s := ApplyAll(clientId, events[..n]); !Resolvable(s) || s.thrown
  {
    var before := events[..|events| - 1];
    if AllReach(before) {
      n := |events|;
      ReachSnoc(events);
      ResolveOnce(clientId, before);
      BusyIsSending(clientId, before);
      StepKeeps(clientId, ApplyAll(clientId, before), events[n - 1]);
      assert events[..n] == events;
    } else {
      n := FirstFailure(clientId, before);
      assert before[..n] == events[..n];
    }
  }

  /** Through a whole run entries and promises stay in step, and no promise is set twice, exactly when no
      send fails. */
  lemma {:induction false} InStepExactly(clientId: U16, events: seq<Event>)
    ensures (forall n :: 0 <= n <= |events| ==>
                           var s := ApplyAll(clientId, events[..n]); Resolvable(s) && !s.thrown)
            <==> AllReach(events)
  {
    if AllReach(events) {
      forall n | 0 <= n <= |events|
        ensures var s := ApplyAll(clientId, events[..n]); Resolvable(s) && !s.thrown
      {
        ReachPrefix(events, n);
        ResolveOnce(clientId, events[..n]);
      }
    } else {
      var n := FirstFailure(clientId, events);
    }
  }

  // ----- Session ids -----

  /** Two draws give the same session id only 65,536 draws apart or more. */
  lemma SessionReuse(a: nat, b: nat)
    requires a < b && Session(a) == Session(b)
    ensures b - a >= SESSIONS
  {
  }

  lemma NextSession(draw: nat)
    ensures Session(draw + 1) == (Session(draw) + 1) % SESSIONS
  {
  }

  /** No entry has seen as many draws as there are session ids. */
  ghost predicate Young(s: State) {
    forall id :: id in s.table ==> s.draws - s.table[id].draw < SESSIONS
  }

  /** While every live entry is younger than 65,536 draws, a send overwrites nothing. */
  lemma NoOverwrite(clientId: U16, s: State)
    requires Wellformed(clientId, s) && Young(s)
    ensures RequestId(clientId, s.draws) !in s.table
  {
    var id := RequestId(clientId, s.draws);
    if id in s.table {
      var d := s.table[id].draw;
      assert Session(d) == Session(s.draws);
      SessionReuse(d, s.draws);
      assert false;
    }
  }

  /** In a run in which no send fails and the entries are young whenever one is made, every promise handed
      out is either set or waiting, never both and never lost. */
  lemma {:induction false} NothingLost(clientId: U16, events: seq<Event>)
    requires AllReach(events)
    requires forall n :: 0 <= n < |events| && events[n].Enter? ==> Young(ApplyAll(clientId, events[..n]))
    ensures var s := ApplyAll(clientId, events);
            && s.abandoned == {}
            && forall p :: p in s.issued ==> (p in s.resolved <==> p !in Waiting(s.table))
  {
    if events != [] {
      var n := |events| - 1;
      var before := events[..n];
      ReachPrefix(events, n);
      forall k | 0 <= k < n && before[k].Enter? ensures Young(ApplyAll(clientId, before[..k])) {
        assert before[..k] == events[..k];
      }
      NothingLost(clientId, before);
      ResolveOnce(clientId, before);
      if events[n].Enter? {
        NoOverwrite(clientId, ApplyAll(clientId, before));
      }
    }
    ResolveOnce(clientId, events);
  }

  // ----- The object -----

  /** One address a service is reachable at, and whether a send to it would succeed. */
  datatype Target = Target(tcp: bool, sendSucceeds: bool)

  ghost predicate Reaches(targets: seq<Target>, reliable: bool) {
    exists t :: t in targets && t.tcp == reliable && t.sendSucceeds
  }

  /** A send succeeds exactly when some endpoint of the right protocol takes the message. */
  lemma ReachesExactly(targets: seq<Target>, reliable: bool)
    ensures Reaches(targets, reliable)
            <==> exists i :: 0 <= i < |targets| && (targets[i].tcp <==> reliable) && targets[i].sendSucceeds
  {
    if t :| t in targets && t.tcp == reliable && t.sendSucceeds {
      var i :| 0 <= i < |targets| && targets[i] == t;
    }
  }

  class Application {
    const clientId: U16
    var sessionId: U16
    var draws: nat
    var issued: set<nat>
    var sending: Option<nat>
    var running: bool
    var stops: nat
    var pendingRequests: map<U32, Pending>
    var resolved: set<nat>
    ghost var abandoned: set<nat>
    var thrown: bool

    ghost function Now(): State
      reads this
    {
      State(draws, issued, sending, running, stops, pendingRequests, resolved, abandoned, thrown)
    }

    ghost predicate Valid()
      reads this
    {
      Wellformed(clientId, Now()) && sessionId == Session(draws)
    }

    constructor (clientId: U16)
      ensures Valid() && Now() == INITIAL && this.clientId == clientId
    {
      this.clientId := clientId;
      sessionId, draws, issued, sending, running, stops := 1, 0, {}, None, false, 0;
      pendingRequests, resolved, abandoned, thrown := map[], {}, {}, false;
    }

    method TrySend(targets: seq<Target>, reliable: bool) returns (sent: bool)
      ensures sent <==> exists i :: 0 <= i < |targets| && (targets[i].tcp <==> reliable) && targets[i].sendSucceeds
    {
      for i := 0 to |targets|
        invariant forall j :: 0 <= j < i ==> targets[j].tcp != reliable || !targets[j].sendSucceeds
      {
        if targets[i].tcp == reliable && targets[i].sendSucceeds {
          return true;
        }
      }
      return false;
    }

    /** The first part of sending a request, up to the release of the table: drawing the session id that the
        request carries and entering it. */
    method EnterRequest(now: int, timeoutMs: int) returns (draw: nat, session: U16)
      requires Valid() && !thrown && sending == None
      modifies this
      ensures Valid() && draw == old(draws) && session == (1 + draw) % 0x1_0000
      ensures Now() == Apply(clientId, old(Now()), Event.Enter(now, timeoutMs))
    {
      EnterWellformed(clientId, Now(), now, timeoutMs);
      NextSession(draws);
      var id := clientId * SESSIONS + sessionId;
      draw, session := draws, sessionId;
      if id in pendingRequests && pendingRequests[id].draw !in resolved {
        abandoned := abandoned + {pendingRequests[id].draw};
      }
      pendingRequests := pendingRequests[id := Pending(draw, now, timeoutMs)];
      issued, sending := issued + {draw}, Some(draw);
      sessionId, draws := (sessionId + 1) % SESSIONS, draws + 1;
      assert Now() == AfterEnter(clientId, old(Now()), now, timeoutMs);
    }

    /** The second part: trying the endpoints, and setting the promise when none takes the message. */
    method FinishSend(targets: seq<Target>, reliable: bool)
      requires Valid() && !thrown && sending.Some?
      modifies this
      ensures Now() == Apply(clientId, old(Now()), if Reaches(targets, reliable) then Reach else Fail)
      ensures Valid()
    {
      var sent := TrySend(targets, reliable);
      if !sent {
        if sending.value in resolved {
          thrown := true;
          return;
        }
        resolved := resolved + {sending.value};
      }
      sending := None;
    }

    /** Setting the promises of some entries and removing them, in no particular order. */
    method ResolveEach(ids: set<U32>)
      requires Valid() && !thrown && ids <= pendingRequests.Keys
      modifies this`pendingRequests, this`resolved, this`thrown
      ensures thrown <==> ResolveAll(old(Now()), ids).thrown
      ensures !thrown ==> Valid() && Now() == ResolveAll(old(Now()), ids)
    {
      ghost var s, table, done := Now(), pendingRequests, {};
      var todo := ids;
      while todo != {}
        invariant todo <= ids && done == ids - todo && !thrown
        invariant pendingRequests == table - done
        invariant resolved == old(resolved) + PromisesOf(table, done)
        invariant PromisesOf(table, done) !! old(resolved)
        decreases todo
      {
        var id :| id in todo;
        var promise := pendingRequests[id].draw;
        NextPromise(table, done, ids, id);
        if promise in resolved {
          thrown := true;
          return;
        }
        done := done + {id};
        resolved := resolved + {promise};
        pendingRequests := pendingRequests - {id};
        todo := todo - {id};
      }
      assert done == ids;
      assert Now() == ResolveAll(s, ids);
      ResolveTable(clientId, s, ids);
    }

    method HandleResponse(requestId: U32)
      requires Valid() && !thrown
      modifies this
      ensures thrown <==> Apply(clientId, old(Now()), Response(requestId)).thrown
      ensures !thrown ==> Valid() && Now() == Apply(clientId, old(Now()), Response(requestId))
    {
      if requestId in pendingRequests {
        ResolveEach({requestId});
      }
    }

    method CleanupExpiredRequests(now: int)
      requires Valid() && !thrown
      modifies this
      ensures thrown <==> Apply(clientId, old(Now()), Expire(now)).thrown
      ensures !thrown ==> Valid() && Now() == Apply(clientId, old(Now()), Expire(now))
    {
      ResolveEach(OverdueIds(pendingRequests, now));
    }

    /** The first step of `stop`: only one that finds the application running goes on to clear the table. */
    method BeginStop() returns (proceed: bool)
      requires Valid() && !thrown
      modifies this
      ensures proceed == old(running)
      ensures Valid() && Now() == Apply(clientId, old(Now()), Halt)
    {
      if !running {
        return false;
      }
      running, stops := false, stops + 1;
      return true;
    }

    /** The second step of `stop`. */
    method ClearPending()
      requires Valid() && !thrown && stops > 0
      modifies this
      ensures thrown <==> Apply(clientId, old(Now()), Clear).thrown
      ensures !thrown ==> Valid() && Now() == Apply(clientId, old(Now()), Clear)
    {
      ResolveEach(pendingRequests.Keys);
      stops := stops - 1;
    }
  }
}
