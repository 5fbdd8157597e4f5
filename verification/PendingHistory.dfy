/** Which promises wait, which are set and when one is set twice, as functions of the events so far. */
module PendingHistory {
  import opened Bytes
  import opened Clock
  import opened Messages
  import opened PendingRequests

  // ----- What the events say -----

  /** Event `i` enters a request; while another send is under way it has to wait. */
  predicate Entered(events: seq<Event>, i: nat) {
    i < |events| && events[i].Enter? && !Busy(events[..i])
  }

  /** How many session ids were drawn. */
  function Draws(events: seq<Event>): nat {
    if events == [] then 0
    else
      var before, e := events[..|events| - 1], events[|events| - 1];
      Draws(before) + if (e.Enter? || e.SendNoReturn?) && !Busy(before) then 1 else 0
  }

  predicate Running(events: seq<Event>) {
    if events == [] then false
    else if events[|events| - 1].Start? then true
    else if events[|events| - 1].Halt? then false
    else Running(events[..|events| - 1])
  }

  /** How many stops still have to clear the table. */
  function Stops(events: seq<Event>): nat {
    if events == [] then 0
    else
      var before, e := events[..|events| - 1], events[|events| - 1];
      if e.Halt? && Running(before) then Stops(before) + 1
      else if e.Clear? && Stops(before) > 0 then Stops(before) - 1
      else Stops(before)
  }

  /** What names the request of event `i`, and the id it goes by. */
  function DrawAt(events: seq<Event>, i: nat): nat
    requires i <= |events|
  {
    Draws(events[..i])
  }

  function IdAt(clientId: U16, events: seq<Event>, i: nat): U32
    requires i <= |events|
  {
    RequestId(clientId, DrawAt(events, i))
  }

  /** The send of the request of event `i` is still under way. */
  ghost predicate Sending(events: seq<Event>, i: nat) {
    Entered(events, i) && forall k :: i < k < |events| ==> !events[k].Reach? && !events[k].Fail?
  }

  /** The send of the request of event `i` fails at event `f`. */
  ghost predicate FailsAt(events: seq<Event>, i: nat, f: nat) {
    f < |events| && events[f].Fail? && Sending(events[..f], i)
  }

  /** No later request before event `j` took the id of the request of event `i`. */
  ghost predicate Kept(clientId: U16, events: seq<Event>, i: nat, j: nat) {
    && Entered(events, i)
    && forall k: nat :: i < k < j && Entered(events, k) ==> IdAt(clientId, events, k) != IdAt(clientId, events, i)
  }

  /** Event `j` would set the promise of the request of event `i`: a response with its id, a sweep that finds
      it overdue, or the clearing by a stop. */
  predicate Claims(clientId: U16, events: seq<Event>, i: nat, j: nat)
    requires i <= j < |events| && events[i].Enter?
  {
    match events[j]
    case Response(id) => id == IdAt(clientId, events, i)
    case Expire(now) => Elapsed(now, events[i].now, MILLISECOND) > events[i].timeoutMs
    case Clear => Stops(events[..j]) > 0
    case _ => false
  }

  ghost predicate ClaimedAt(clientId: U16, events: seq<Event>, i: nat, j: nat) {
    i < j < |events| && Kept(clientId, events, i, j) && Claims(clientId, events, i, j)
  }

  ghost predicate Failed(events: seq<Event>, i: nat) {
    exists f: nat :: FailsAt(events, i, f)
  }

  ghost predicate Claimed(clientId: U16, events: seq<Event>, i: nat) {
    exists j: nat :: ClaimedAt(clientId, events, i, j)
  }

  /** The request of event `i` waits in the table: its id was not taken and its promise was not claimed. */
  ghost predicate Waits(clientId: U16, events: seq<Event>, i: nat) {
    Kept(clientId, events, i, |events|) && !Claimed(clientId, events, i)
  }

  /** Some request failed to be sent and was claimed, in either order. */
  ghost predicate SetTwice(clientId: U16, events: seq<Event>) {
    exists i: nat :: Failed(events, i) && Claimed(clientId, events, i)
  }

  // ----- One more event -----

  lemma Prefixes(before: seq<Event>, e: Event, i: nat)
    requires i <= |before|
    ensures (before + [e])[..i] == before[..i]
  {
  }

  lemma EnteredStep(before: seq<Event>, e: Event, i: nat)
    ensures Entered(before + [e], i) <==> if i == |before| then e.Enter? && !Busy(before) else Entered(before, i)
    ensures i <= |before| ==> DrawAt(before + [e], i) == DrawAt(before, i)
  {
    if i <= |before| {
      Prefixes(before, e, i);
      assert before[..|before|] == before;
    }
  }

  lemma KeptStep(clientId: U16, before: seq<Event>, e: Event, i: nat)
    requires i < |before|
    ensures var events, n := before + [e], |before|;
            && (forall j: nat :: j <= n ==> (Kept(clientId, events, i, j) <==> Kept(clientId, before, i, j)))
            && (Kept(clientId, events, i, n + 1)
                <==> Kept(clientId, before, i, n)
                     && !(Entered(events, n) && IdAt(clientId, events, n) == IdAt(clientId, events, i)))
  {
    var events, n := before + [e], |before|;
    forall k: nat | k <= n
      ensures IdAt(clientId, events, k) == IdAt(clientId, before, k)
      ensures k < n ==> (Entered(events, k) <==> Entered(before, k))
    {
      EnteredStep(before, e, k);
    }
  }

  lemma ClaimedStep(clientId: U16, before: seq<Event>, e: Event, i: nat)
    requires i < |before|
    ensures var events, n := before + [e], |before|;
            Claimed(clientId, events, i)
            <==> Claimed(clientId, before, i) || (Kept(clientId, before, i, n) && Claims(clientId, events, i, n))
  {
    var events, n := before + [e], |before|;
    KeptStep(clientId, before, e, i);
    EnteredStep(before, e, i);
    forall j: nat | i < j < n && before[i].Enter?
      ensures Claims(clientId, events, i, j) <==> Claims(clientId, before, i, j)
    {
      Prefixes(before, e, j);
    }
    forall j: nat | j < n ensures ClaimedAt(clientId, events, i, j) <==> ClaimedAt(clientId, before, i, j) {
    }
    if Kept(clientId, before, i, n) && Claims(clientId, events, i, n) {
      assert ClaimedAt(clientId, events, i, n);
    }
    if Claimed(clientId, before, i) {
      var j: nat :| ClaimedAt(clientId, before, i, j);
      assert ClaimedAt(clientId, events, i, j);
    }
    if Claimed(clientId, events, i) {
      var j: nat :| ClaimedAt(clientId, events, i, j);
      assert j < n ==> ClaimedAt(clientId, before, i, j);
    }
  }

  lemma SendingStep(before: seq<Event>, e: Event, i: nat)
    ensures Sending(before + [e], i)
            <==> if i == |before| then Entered(before + [e], i) else Sending(before, i) && !e.Reach? && !e.Fail?
  {
    EnteredStep(before, e, i);
    var events, n := before + [e], |before|;
    if i < n && Sending(events, i) {
      assert !events[n].Reach? && !events[n].Fail?;
      forall k | i < k < n ensures !before[k].Reach? && !before[k].Fail? {
        assert events[k] == before[k];
      }
    }
  }

  lemma FailedStep(before: seq<Event>, e: Event, i: nat)
    ensures Failed(before + [e], i) <==> Failed(before, i) || (e.Fail? && Sending(before, i))
  {
    var events, n := before + [e], |before|;
    Prefixes(before, e, n);
    assert before[..n] == before;
    forall f: nat | f < n ensures FailsAt(events, i, f) <==> FailsAt(before, i, f) {
      Prefixes(before, e, f);
    }
    if e.Fail? && Sending(before, i) {
      assert FailsAt(events, i, n);
    }
    if Failed(before, i) {
      var f: nat :| FailsAt(before, i, f);
      assert FailsAt(events, i, f);
    }
    if Failed(events, i) {
      var f: nat :| FailsAt(events, i, f);
      assert f < n ==> FailsAt(before, i, f);
    }
  }

  lemma NotYet(clientId: U16, events: seq<Event>, i: nat)
    requires i + 1 >= |events|
    ensures !Failed(events, i) && !Claimed(clientId, events, i)
  {
  }

  /** Requests keep their names apart: each draws its own. */
  lemma {:induction false} DrawsGrow(events: seq<Event>, i: nat, j: nat)
    requires Entered(events, i) && i < j <= |events|
    ensures DrawAt(events, i) < DrawAt(events, j)
    decreases j
  {
    var upTo := events[..j];
    assert upTo[..j - 1] == events[..j - 1];
    if i < j - 1 {
      DrawsGrow(events, i, j - 1);
    }
  }

  lemma OneName(events: seq<Event>, i: nat, j: nat)
    requires Entered(events, i) && Entered(events, j) && DrawAt(events, i) == DrawAt(events, j)
    ensures i == j
  {
    if i < j {
      DrawsGrow(events, i, j);
    } else if j < i {
      DrawsGrow(events, j, i);
    }
  }

  /** The request of event `i` stops waiting when it is claimed or its id is taken. */
  lemma WaitsStep(clientId: U16, before: seq<Event>, e: Event, i: nat)
    ensures var events, n := before + [e], |before|;
            Waits(clientId, events, i)
            <==> if i >= n then Entered(events, i)
                 else Waits(clientId, before, i) && !Claims(clientId, events, i, n)
                      && !(Entered(events, n) && IdAt(clientId, events, n) == IdAt(clientId, events, i))
  {
    var events, n := before + [e], |before|;
    if i < n {
      KeptStep(clientId, before, e, i);
      EnteredStep(before, e, i);
      if Entered(before, i) {
        ClaimedStep(clientId, before, e, i);
      }
    } else {
      NotYet(clientId, events, i);
    }
  }

  // ----- The table -----

  ghost predicate TableMatches(clientId: U16, events: seq<Event>, table: map<U32, Pending>) {
    && (forall i: nat :: Waits(clientId, events, i) ==>
                           && IdAt(clientId, events, i) in table
                           && table[IdAt(clientId, events, i)]
                              == Pending(DrawAt(events, i), events[i].now, events[i].timeoutMs))
    && (forall id :: id in table ==> exists i: nat :: Waits(clientId, events, i) && IdAt(clientId, events, i) == id)
  }

  /** The entries that the next event claims. */
  ghost predicate Claimants(clientId: U16, before: seq<Event>, e: Event, ids: set<U32>) {
    forall i: nat :: Waits(clientId, before, i)
                     ==> (IdAt(clientId, before, i) in ids <==> Claims(clientId, before + [e], i, |before|))
  }

  /** A new request waits, and takes the place of one with its id. */
  lemma WaitsEntered(clientId: U16, before: seq<Event>, e: Event, i: nat)
    requires e.Enter? && !Busy(before)
    ensures var events, n := before + [e], |before|;
            && DrawAt(events, n) == Draws(before)
            && (Waits(clientId, events, i)
                <==> i == n || (Waits(clientId, before, i)
                                && IdAt(clientId, before, i) != IdAt(clientId, events, n)))
            && (i < n ==> DrawAt(events, i) == DrawAt(before, i)
                          && IdAt(clientId, events, i) == IdAt(clientId, before, i))
  {
    var n := |before|;
    EnteredStep(before, e, n);
    assert before[..n] == before;
    EnteredStep(before, e, i);
    WaitsStep(clientId, before, e, i);
  }

  lemma TableEntered(clientId: U16, before: seq<Event>, e: Event, table: map<U32, Pending>, id: U32)
    requires TableMatches(clientId, before, table) && e.Enter? && !Busy(before)
    requires id == IdAt(clientId, before + [e], |before|)
    ensures TableMatches(clientId, before + [e], table[id := Pending(Draws(before), e.now, e.timeoutMs)])
  {
    var events, n, draw := before + [e], |before|, Draws(before);
    var after := table[id := Pending(draw, e.now, e.timeoutMs)];
    forall i: nat | Waits(clientId, events, i)
      ensures IdAt(clientId, events, i) in after
      ensures after[IdAt(clientId, events, i)] == Pending(DrawAt(events, i), events[i].now, events[i].timeoutMs)
    {
      WaitsEntered(clientId, before, e, i);
    }
    forall k | k in after ensures exists i: nat :: Waits(clientId, events, i) && IdAt(clientId, events, i) == k {
      if k == id {
        WaitsEntered(clientId, before, e, n);
      } else {
        var i: nat :| Waits(clientId, before, i) && IdAt(clientId, before, i) == k;
        WaitsEntered(clientId, before, e, i);
      }
    }
  }

  lemma TableClaimed(clientId: U16, before: seq<Event>, e: Event, table: map<U32, Pending>, ids: set<U32>)
    requires TableMatches(clientId, before, table) && !Entered(before + [e], |before|)
    requires Claimants(clientId, before, e, ids)
    ensures TableMatches(clientId, before + [e], table - ids)
  {
    var events, n := before + [e], |before|;
    forall i: nat
      ensures Waits(clientId, events, i) <==> Waits(clientId, before, i) && IdAt(clientId, before, i) !in ids
      ensures i <= n ==> DrawAt(events, i) == DrawAt(before, i)
    {
      EnteredStep(before, e, i);
      WaitsStep(clientId, before, e, i);
    }
    forall k | k in table - ids ensures exists i: nat :: Waits(clientId, events, i) && IdAt(clientId, events, i) == k {
      var i: nat :| Waits(clientId, before, i) && IdAt(clientId, before, i) == k;
      assert Waits(clientId, events, i) && IdAt(clientId, events, i) == k;
    }
  }

  /** The promises that the next event claims are those of the claimed entries. */
  lemma ClaimedPromises(clientId: U16, before: seq<Event>, e: Event, table: map<U32, Pending>, ids: set<U32>, p: nat)
    requires TableMatches(clientId, before, table) && ids <= table.Keys && Claimants(clientId, before, e, ids)
    ensures p in PromisesOf(table, ids)
            <==> exists i: nat :: Waits(clientId, before, i) && DrawAt(before, i) == p
                                  && Claims(clientId, before + [e], i, |before|)
  {
    if p in PromisesOf(table, ids) {
      var id :| id in ids && table[id].draw == p;
      var i: nat :| Waits(clientId, before, i) && IdAt(clientId, before, i) == id;
      assert Claims(clientId, before + [e], i, |before|);
    }
    if i: nat :| Waits(clientId, before, i) && DrawAt(before, i) == p
                 && Claims(clientId, before + [e], i, |before|)
    {
      assert IdAt(clientId, before, i) in ids;
    }
  }

  // ----- The promises -----

  /** The request of event `i`, named `p`, failed or was claimed. */
  ghost predicate Answered(clientId: U16, events: seq<Event>, i: nat, p: nat) {
    Entered(events, i) && DrawAt(events, i) == p && (Failed(events, i) || Claimed(clientId, events, i))
  }

  ghost predicate ResolvedMatches(clientId: U16, events: seq<Event>, resolved: set<nat>) {
    forall p: nat :: p in resolved <==> exists i: nat :: Answered(clientId, events, i, p)
  }

  lemma AnsweredStep(clientId: U16, before: seq<Event>, e: Event, i: nat, p: nat)
    ensures var events, n := before + [e], |before|;
            Answered(clientId, events, i, p)
            <==> || Answered(clientId, before, i, p)
                 || (Waits(clientId, before, i) && DrawAt(before, i) == p && Claims(clientId, events, i, n))
                 || (e.Fail? && Sending(before, i) && DrawAt(before, i) == p)
  {
    EnteredStep(before, e, i);
    if i < |before| {
      FailedStep(before, e, i);
      if Entered(before, i) {
        ClaimedStep(clientId, before, e, i);
      }
    } else {
      NotYet(clientId, before + [e], i);
    }
  }

  lemma ResolvedClaimed(clientId: U16, before: seq<Event>, e: Event, table: map<U32, Pending>, ids: set<U32>,
                        resolved: set<nat>)
    requires TableMatches(clientId, before, table) && ids <= table.Keys && Claimants(clientId, before, e, ids)
    requires ResolvedMatches(clientId, before, resolved) && !e.Fail?
    ensures ResolvedMatches(clientId, before + [e], resolved + PromisesOf(table, ids))
  {
    var events := before + [e];
    forall p: nat
      ensures p in resolved + PromisesOf(table, ids) <==> exists i: nat :: Answered(clientId, events, i, p)
    {
      ClaimedPromises(clientId, before, e, table, ids, p);
      forall i: nat
        ensures Answered(clientId, events, i, p)
                <==> || Answered(clientId, before, i, p)
                     || (Waits(clientId, before, i) && DrawAt(before, i) == p
                         && Claims(clientId, events, i, |before|))
      {
        AnsweredStep(clientId, before, e, i, p);
      }
    }
  }

  ghost predicate SendingMatches(events: seq<Event>, sending: Option<nat>) {
    && (forall i: nat :: Sending(events, i) ==> sending == Some(DrawAt(events, i)))
    && (sending.Some? ==> exists i: nat :: Sending(events, i))
  }

  lemma ResolvedFailed(clientId: U16, before: seq<Event>, p: nat, resolved: set<nat>)
    requires ResolvedMatches(clientId, before, resolved) && SendingMatches(before, Some(p))
    ensures ResolvedMatches(clientId, before + [Fail], resolved + {p})
  {
    var events := before + [Fail];
    forall q: nat ensures q in resolved + {p} <==> exists i: nat :: Answered(clientId, events, i, q) {
      forall i: nat
        ensures Answered(clientId, events, i, q)
                <==> Answered(clientId, before, i, q) || (Sending(before, i) && p == q)
      {
        AnsweredStep(clientId, before, Fail, i, q);
      }
    }
  }

  lemma SendingMatchesStep(before: seq<Event>, e: Event, sending: Option<nat>)
    requires SendingMatches(before, sending) && (sending.Some? <==> Busy(before))
    ensures SendingMatches(before + [e], if e.Reach? || e.Fail? then None
                                         else if e.Enter? && sending == None then Some(Draws(before))
                                         else sending)
  {
    var events, n := before + [e], |before|;
    EnteredStep(before, e, n);
    assert before[..n] == before;
    forall i: nat
      ensures Sending(events, i)
              <==> if i == n then Entered(events, n) else Sending(before, i) && !e.Reach? && !e.Fail?
      ensures i <= n ==> DrawAt(events, i) == DrawAt(before, i)
    {
      SendingStep(before, e, i);
      EnteredStep(before, e, i);
    }
    if e.Enter? && sending == None {
      assert Sending(events, n);
    } else if sending.Some? && !e.Reach? && !e.Fail? {
      var i: nat :| Sending(before, i);
      assert Sending(events, i);
    }
  }

  // ----- When a promise is set twice -----

  lemma NewClaim(clientId: U16, before: seq<Event>, e: Event, i: nat)
    requires Claimed(clientId, before + [e], i) && !Claimed(clientId, before, i)
    ensures Waits(clientId, before, i) && Claims(clientId, before + [e], i, |before|)
  {
    if i >= |before| {
      NotYet(clientId, before + [e], i);
    } else {
      ClaimedStep(clientId, before, e, i);
    }
  }

  /** The claims of one event set a promise again exactly when they meet a failed send. */
  lemma ClaimsThrow(clientId: U16, before: seq<Event>, e: Event, table: map<U32, Pending>, ids: set<U32>,
                    resolved: set<nat>)
    requires TableMatches(clientId, before, table) && ids <= table.Keys && Claimants(clientId, before, e, ids)
    requires ResolvedMatches(clientId, before, resolved) && !e.Fail? && !SetTwice(clientId, before)
    ensures SetTwice(clientId, before + [e]) <==> !(PromisesOf(table, ids) !! resolved)
  {
    var events := before + [e];
    if p :| p in PromisesOf(table, ids) && p in resolved {
      ClaimedPromises(clientId, before, e, table, ids, p);
      var i: nat :| Waits(clientId, before, i) && DrawAt(before, i) == p && Claims(clientId, events, i, |before|);
      var k: nat :| Answered(clientId, before, k, p);
      OneName(before, i, k);
      FailedStep(before, e, i);
      ClaimedStep(clientId, before, e, i);
      assert Failed(events, i) && Claimed(clientId, events, i);
    }
    if i: nat :| Failed(events, i) && Claimed(clientId, events, i) {
      FailedStep(before, e, i);
      NewClaim(clientId, before, e, i);
      var p := DrawAt(before, i);
      ClaimedPromises(clientId, before, e, table, ids, p);
      assert Answered(clientId, before, i, p);
    }
  }

  lemma NotFailedYet(events: seq<Event>, i: nat)
    requires Sending(events, i)
    ensures !Failed(events, i)
  {
  }

  /** A failing send sets its promise again exactly when it was claimed meanwhile. */
  lemma FailThrows(clientId: U16, before: seq<Event>, p: nat, resolved: set<nat>)
    requires ResolvedMatches(clientId, before, resolved) && SendingMatches(before, Some(p))
    requires !SetTwice(clientId, before)
    ensures SetTwice(clientId, before + [Fail]) <==> p in resolved
  {
    var events := before + [Fail];
    if p in resolved {
      var i: nat :| Answered(clientId, before, i, p);
      var k: nat :| Sending(before, k);
      OneName(before, i, k);
      FailedStep(before, Fail, i);
      NotFailedYet(before, i);
      ClaimedStep(clientId, before, Fail, i);
      assert Failed(events, i) && Claimed(clientId, events, i);
    }
    if i: nat :| Failed(events, i) && Claimed(clientId, events, i) {
      FailedStep(before, Fail, i);
      if !Claimed(clientId, before, i) {
        NewClaim(clientId, before, Fail, i);
        assert false;
      }
      assert Answered(clientId, before, i, p);
    }
  }

  /** The state is what the events say. */
  ghost predicate Matches(clientId: U16, events: seq<Event>, s: State) {
    && s.draws == Draws(events) && s.running == Running(events) && s.stops == Stops(events)
    && (s.sending.Some? <==> Busy(events)) && SendingMatches(events, s.sending)
    && TableMatches(clientId, events, s.table) && ResolvedMatches(clientId, events, s.resolved)
  }

  /** The ids an event claims in the table. */
  function ClaimedIds(s: State, e: Event): set<U32> {
    match e
    case Response(id) => if id in s.table then {id} else {}
    case Expire(now) => OverdueIds(s.table, now)
    case Clear => if s.stops > 0 then s.table.Keys else {}
    case _ => {}
  }

  lemma ClaimantsAre(clientId: U16, before: seq<Event>, e: Event, s: State)
    requires Matches(clientId, before, s)
    ensures Claimants(clientId, before, e, ClaimedIds(s, e))
  {
    forall i: nat | Waits(clientId, before, i)
      ensures IdAt(clientId, before, i) in ClaimedIds(s, e) <==> Claims(clientId, before + [e], i, |before|)
    {
      EnteredStep(before, e, i);
      Prefixes(before, e, |before|);
      assert before[..|before|] == before;
    }
  }

  lemma CountersStep(clientId: U16, before: seq<Event>, e: Event, s: State)
    requires Matches(clientId, before, s) && !s.thrown && !Apply(clientId, s, e).thrown
    ensures var events, after := before + [e], Apply(clientId, s, e);
            && after.draws == Draws(events) && after.running == Running(events) && after.stops == Stops(events)
            && (after.sending.Some? <==> Busy(events))
            && SendingMatches(events, after.sending)
  {
    assert (before + [e])[..|before|] == before;
    SendingMatchesStep(before, e, s.sending);
  }

  /** Setting and removing nothing changes nothing. */
  lemma ApplyClaims(clientId: U16, s: State, e: Event)
    requires !s.thrown && !e.Fail? && !(e.Enter? && s.sending == None)
    ensures var ids := ClaimedIds(s, e); var promises := PromisesOf(s.table, ids);
            && ids <= s.table.Keys
            && (Apply(clientId, s, e).thrown <==> !(promises !! s.resolved))
            && (promises !! s.resolved
                ==> && Apply(clientId, s, e).table == s.table - ids
                    && Apply(clientId, s, e).resolved == s.resolved + promises)
  {
  }

  lemma ClaimStep(clientId: U16, before: seq<Event>, e: Event, s: State)
    requires Matches(clientId, before, s) && !s.thrown && !SetTwice(clientId, before)
    requires !e.Fail? && !(e.Enter? && s.sending == None)
    ensures var events, after := before + [e], Apply(clientId, s, e);
            && (after.thrown <==> SetTwice(clientId, events))
            && (!after.thrown ==> Matches(clientId, events, after))
  {
    var ids := ClaimedIds(s, e);
    ApplyClaims(clientId, s, e);
    ClaimantsAre(clientId, before, e, s);
    ClaimsThrow(clientId, before, e, s.table, ids, s.resolved);
    if !Apply(clientId, s, e).thrown {
      EnteredStep(before, e, |before|);
      TableClaimed(clientId, before, e, s.table, ids);
      ResolvedClaimed(clientId, before, e, s.table, ids, s.resolved);
      CountersStep(clientId, before, e, s);
    }
  }

  lemma NothingFails(clientId: U16, before: seq<Event>, resolved: set<nat>)
    requires ResolvedMatches(clientId, before, resolved) && SendingMatches(before, None)
    requires !SetTwice(clientId, before)
    ensures ResolvedMatches(clientId, before + [Fail], resolved) && !SetTwice(clientId, before + [Fail])
  {
    var events := before + [Fail];
    forall i: nat, p: nat ensures Answered(clientId, events, i, p) <==> Answered(clientId, before, i, p) {
      AnsweredStep(clientId, before, Fail, i, p);
    }
    if i: nat :| Failed(events, i) && Claimed(clientId, events, i) {
      FailedStep(before, Fail, i);
      NewClaim(clientId, before, Fail, i);
      assert false;
    }
  }

  lemma FailStep(clientId: U16, before: seq<Event>, s: State)
    requires Matches(clientId, before, s) && !s.thrown && !SetTwice(clientId, before)
    ensures var events, after := before + [Fail], Apply(clientId, s, Fail);
            && (after.thrown <==> SetTwice(clientId, events))
            && (!after.thrown ==> Matches(clientId, events, after))
  {
    ClaimantsAre(clientId, before, Fail, s);
    EnteredStep(before, Fail, |before|);
    TableClaimed(clientId, before, Fail, s.table, {});
    assert s.table - {} == s.table;
    if s.sending.Some? {
      FailThrows(clientId, before, s.sending.value, s.resolved);
      ResolvedFailed(clientId, before, s.sending.value, s.resolved);
    } else {
      NothingFails(clientId, before, s.resolved);
    }
    if !Apply(clientId, s, Fail).thrown {
      CountersStep(clientId, before, Fail, s);
    }
  }

  lemma EnterStep(clientId: U16, before: seq<Event>, e: Event, s: State)
    requires Matches(clientId, before, s) && !s.thrown && !SetTwice(clientId, before)
    requires e.Enter? && s.sending == None
    ensures var events, after := before + [e], Apply(clientId, s, e);
            !after.thrown && !SetTwice(clientId, events) && Matches(clientId, events, after)
  {
    ClaimantsAre(clientId, before, e, s);
    ClaimsThrow(clientId, before, e, s.table, {}, s.resolved);
    ResolvedClaimed(clientId, before, e, s.table, {}, s.resolved);
    assert PromisesOf(s.table, {}) == {};
    assert s.resolved + {} == s.resolved;
    EnteredStep(before, e, |before|);
    assert before[..|before|] == before;
    TableEntered(clientId, before, e, s.table, RequestId(clientId, s.draws));
    CountersStep(clientId, before, e, s);
  }

  lemma SetTwiceStays(clientId: U16, before: seq<Event>, e: Event)
    requires SetTwice(clientId, before)
    ensures SetTwice(clientId, before + [e])
  {
    var i: nat :| Failed(before, i) && Claimed(clientId, before, i);
    FailedStep(before, e, i);
    ClaimedStep(clientId, before, e, i);
  }

  lemma {:induction false} RunMatches(clientId: U16, events: seq<Event>)
    ensures var s := ApplyAll(clientId, events);
            && (s.thrown <==> SetTwice(clientId, events))
            && (!s.thrown ==> Matches(clientId, events, s))
  {
    if events != [] {
      var before, e := events[..|events| - 1], events[|events| - 1];
      assert events == before + [e];
      RunMatches(clientId, before);
      var s := ApplyAll(clientId, before);
      if s.thrown {
        SetTwiceStays(clientId, before, e);
      } else if e.Fail? {
        FailStep(clientId, before, s);
      } else if e.Enter? && s.sending == None {
        EnterStep(clientId, before, e, s);
      } else {
        ClaimStep(clientId, before, e, s);
      }
    }
  }

  // ----- The theorems -----

  /** A promise is set a second time exactly when the send of some request failed and that request was
      claimed while its id was its own: by a response, by a sweep that found it overdue or by a stop,
      before the failure or after it. */
  lemma SetTwiceExactly(clientId: U16, events: seq<Event>)
    ensures ApplyAll(clientId, events).thrown <==> SetTwice(clientId, events)
  {
    RunMatches(clientId, events);
  }

  /** Until then the table holds exactly the requests that were not claimed and whose ids were not taken,
      and the promises that were set are exactly those of the requests that failed or were claimed. */
  lemma PendingRefinesHistory(clientId: U16, events: seq<Event>)
    requires !SetTwice(clientId, events)
    ensures var s := ApplyAll(clientId, events);
            && (forall i: nat :: Waits(clientId, events, i) ==>
                                   && IdAt(clientId, events, i) in s.table
                                   && s.table[IdAt(clientId, events, i)]
                                      == Pending(DrawAt(events, i), events[i].now, events[i].timeoutMs))
            && (forall id :: id in s.table
                             ==> exists i: nat :: Waits(clientId, events, i) && IdAt(clientId, events, i) == id)
            && (forall p: nat :: p in s.resolved <==> exists i: nat :: Answered(clientId, events, i, p))
  {
    RunMatches(clientId, events);
  }

  /** A response with the client and the session of a waiting request sets its promise and removes its entry,
      and no other, unless its send failed already. */
  lemma ResponseResolves(clientId: U16, events: seq<Event>, i: nat, response: Message)
    requires !SetTwice(clientId, events) && Waits(clientId, events, i)
    requires response.clientId == clientId && response.sessionId == (1 + DrawAt(events, i)) % 0x1_0000
    ensures var s := ApplyAll(clientId, events);
            var t := ApplyAll(clientId, events + [Response(response.RequestId())]);
            && response.RequestId() in s.table && s.table[response.RequestId()].draw == DrawAt(events, i)
            && (t.thrown <==> Failed(events, i))
            && (!t.thrown ==> && DrawAt(events, i) !in s.resolved
                              && t.resolved == s.resolved + {DrawAt(events, i)}
                              && t.table == s.table - {response.RequestId()})
  {
    var id, p := response.RequestId(), DrawAt(events, i);
    var s := ApplyAll(clientId, events);
    RunMatches(clientId, events);
    ResponseId(clientId, p, response);
    assert (events + [Response(id)])[..|events|] == events;
    assert PromisesOf(s.table, {id}) == {p};
    if p in s.resolved {
      var k: nat :| Answered(clientId, events, k, p);
      OneName(events, i, k);
    }
    if Failed(events, i) {
      assert Answered(clientId, events, i, p);
    }
  }

  lemma FirstEnters(events: seq<Event>)
    requires events != [] && events[0].Enter?
    ensures Entered(events, 0) && DrawAt(events, 0) == 0
    ensures Sending([events[0]], 0)
  {
    assert events[..0] == [];
    assert [events[0]][..0] == [];
  }

  /** A send that fails, then a late response to it: the promise is set a second time. */
  lemma FailedSendExample(clientId: U16)
    ensures ApplyAll(clientId, [Enter(0, 5000), Fail, Response(RequestId(clientId, 0))]).thrown
  {
    var events := [Enter(0, 5000), Fail, Response(RequestId(clientId, 0))];
    FirstEnters(events);
    assert events[..1] == [events[0]];
    assert FailsAt(events, 0, 1);
    assert ClaimedAt(clientId, events, 0, 2);
    assert Failed(events, 0) && Claimed(clientId, events, 0);
    SetTwiceExactly(clientId, events);
  }

  /** A sweep comes between entering the request and the failure of its send: the failing send sets the
      promise a second time. */
  lemma ClaimedSendExample(clientId: U16)
    ensures ApplyAll(clientId, [Enter(0, 0), Expire(MILLISECOND), Fail]).thrown
  {
    var events := [Enter(0, 0), Expire(MILLISECOND), Fail];
    FirstEnters(events);
    assert events[..2][..0] == [];
    assert FailsAt(events, 0, 2);
    assert ClaimedAt(clientId, events, 0, 1);
    assert Failed(events, 0) && Claimed(clientId, events, 0);
    SetTwiceExactly(clientId, events);
  }

  /** A failed send alone does no harm: its promise is set once. */
  lemma FailedAloneExample(clientId: U16)
    ensures var s := ApplyAll(clientId, [Enter(0, 5000), Fail]); !s.thrown && s.resolved == {0}
  {
    var events := [Enter(0, 5000), Fail];
    assert events[..1] == [events[0]] && [events[0]][..0] == [];
    assert ApplyAll(clientId, []) == INITIAL;
    assert ApplyAll(clientId, [events[0]]) == AfterEnter(clientId, INITIAL, 0, 5000);
  }
}
