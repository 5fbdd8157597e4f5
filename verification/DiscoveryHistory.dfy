/** Every registry of Service Discovery is a function of the events so far: what is cached, who is
    subscribed, what is pending and what was announced, over whole runs from the empty state. */
module DiscoveryHistory {
  import opened Bytes
  import opened Clock
  import opened ServiceEntries
  import opened SdMessages
  import opened SdRegistry

  function After(acceptor: Acceptor, events: seq<Event>): State {
    ApplyAll(acceptor, EMPTY, events)
  }

  // ----- One registry at a time -----

  function CacheStep(cache: map<ServiceKey, ServiceInfo>, e: Event): map<ServiceKey, ServiceInfo> {
    if e.Receive? && e.entry.entryType == OFFER_SERVICE then
      cache[EntryKey(e.entry) := OfferedInfo(e.entry, e.options, e.now)]
    else if e.CheckTtl? then Unexpired(cache, e.now)
    else cache
  }

  function Cache(events: seq<Event>): map<ServiceKey, ServiceInfo> {
    if events == [] then map[] else CacheStep(Cache(events[..|events| - 1]), events[|events| - 1])
  }

  function NoticesStep(cache: map<ServiceKey, ServiceInfo>, e: Event): seq<Notice> {
    if e.Receive? && e.entry.entryType == OFFER_SERVICE && e.entry.ttl > 0 then [Notice(EntryKey(e.entry), true)]
    else if e.CheckTtl? then SweepNotices(cache, cache.Keys, e.now)
    else []
  }

  function Notices(events: seq<Event>): seq<Notice> {
    if events == [] then []
    else
      var before := events[..|events| - 1];
      Notices(before) + NoticesStep(Cache(before), events[|events| - 1])
  }

  function PendingStep(pending: seq<PendingSubscription>, e: Event): seq<PendingSubscription> {
    if e.SubscribeEventgroup? then pending + [PendingSubscription(e.group, e.now)]
    else if e.UnsubscribeEventgroup? then Without(pending, e.group)
    else if e.Receive? && e.entry.entryType == SUBSCRIBE_EVENTGROUP_ACK then Without(pending, EntryGroup(e.entry))
    else pending
  }

  function Pending(events: seq<Event>): seq<PendingSubscription> {
    if events == [] then [] else PendingStep(Pending(events[..|events| - 1]), events[|events| - 1])
  }

  lemma ApplyCache(acceptor: Acceptor, s: State, e: Event)
    ensures Apply(acceptor, s, e).discovered == CacheStep(s.discovered, e)
  {
  }

  lemma ApplyNotices(acceptor: Acceptor, s: State, e: Event)
    ensures Apply(acceptor, s, e).notices == s.notices + NoticesStep(s.discovered, e)
  {
  }

  lemma ApplyPending(acceptor: Acceptor, s: State, e: Event)
    ensures Apply(acceptor, s, e).pending == PendingStep(s.pending, e)
  {
  }

  lemma {:induction false} AfterParts(acceptor: Acceptor, events: seq<Event>)
    ensures After(acceptor, events).discovered == Cache(events)
    ensures After(acceptor, events).notices == Notices(events)
    ensures After(acceptor, events).pending == Pending(events)
  {
    if events != [] {
      var s, e := After(acceptor, events[..|events| - 1]), events[|events| - 1];
      AfterParts(acceptor, events[..|events| - 1]);
      ApplyCache(acceptor, s, e);
      ApplyNotices(acceptor, s, e);
      ApplyPending(acceptor, s, e);
    }
  }

  // ----- Discovered services -----

  predicate OfferOf(e: Event, key: ServiceKey) {
    e.Receive? && e.entry.entryType == OFFER_SERVICE && EntryKey(e.entry) == key
  }

  /** Event `i` is the latest offer of the service. */
  ghost predicate LatestOffer(events: seq<Event>, i: nat, key: ServiceKey) {
    && i < |events| && OfferOf(events[i], key)
    && forall j :: i < j < |events| ==> !OfferOf(events[j], key)
  }

  predicate InTime(offer: Event, sweep: Event)
    requires offer.Receive? && sweep.CheckTtl?
  {
    Elapsed(sweep.now, offer.now, SECOND) <= offer.entry.ttl
  }

  /** Every sweep after the offer at `i` came within its time to live. */
  ghost predicate SurvivesSweeps(events: seq<Event>, i: nat)
    requires i < |events| && events[i].Receive?
  {
    forall j :: i < j < |events| && events[j].CheckTtl? ==> InTime(events[i], events[j])
  }

  ghost predicate Live(events: seq<Event>, i: nat, key: ServiceKey) {
    LatestOffer(events, i, key) && SurvivesSweeps(events, i)
  }

  lemma LiveStepAt(events: seq<Event>, key: ServiceKey, i: nat)
    requires events != [] && !OfferOf(events[|events| - 1], key)
    ensures var n := |events| - 1; var before, e := events[..n], events[n];
            Live(events, i, key) <==> Live(before, i, key) && (e.CheckTtl? ==> InTime(before[i], e))
  {
    var n := |events| - 1;
    var before, e := events[..n], events[n];
    assert forall j :: 0 <= j < n ==> before[j] == events[j];
    if i < n && OfferOf(events[i], key) {
      assert LatestOffer(events, i, key) <==> LatestOffer(before, i, key);
      assert SurvivesSweeps(events, i) <==> SurvivesSweeps(before, i) && (e.CheckTtl? ==> InTime(before[i], e));
    }
  }

  /** How the live offer changes with one more event. */
  lemma LiveStep(events: seq<Event>, key: ServiceKey)
    requires events != []
    ensures var n := |events| - 1; var before, e := events[..n], events[n];
            if OfferOf(e, key) then
              forall i: nat :: Live(events, i, key) <==> i == n
            else
              forall i: nat :: Live(events, i, key)
                          <==> Live(before, i, key) && (e.CheckTtl? ==> InTime(before[i], e))
  {
    var n := |events| - 1;
    var before, e := events[..n], events[n];
    if OfferOf(e, key) {
      assert forall i :: 0 <= i < n ==> !LatestOffer(events, i, key);
    } else {
      assert forall j :: 0 <= j < n ==> before[j] == events[j];
      forall i: nat ensures Live(events, i, key) <==> Live(before, i, key) && (e.CheckTtl? ==> InTime(before[i], e)) {
        LiveStepAt(events, key, i);
      }
    }
  }

  lemma {:induction false} CacheIsLive(events: seq<Event>, key: ServiceKey)
    ensures key in Cache(events) <==> exists i: nat :: Live(events, i, key)
    ensures forall i: nat :: Live(events, i, key)
                        ==> Cache(events)[key] == OfferedInfo(events[i].entry, events[i].options, events[i].now)
  {
    if events != [] {
      var n := |events| - 1;
      var before, e := events[..n], events[n];
      CacheIsLive(before, key);
      LiveStep(events, key);
      if OfferOf(e, key) {
        assert Live(events, n, key);
      } else if key in Cache(before) {
        var i: nat :| Live(before, i, key);
        assert Live(events, i, key) <==> (e.CheckTtl? ==> !TtlExpired(Cache(before)[key], e.now));
      }
    }
  }

  /** A service is cached exactly when its latest offer outlived every sweep since; what is stored is that
      offer. No clock is assumed to be monotonic. */
  lemma CacheRefinesHistory(acceptor: Acceptor, events: seq<Event>, key: ServiceKey)
    ensures key in After(acceptor, events).discovered <==> exists i: nat :: Live(events, i, key)
    ensures forall i: nat :: Live(events, i, key)
                        ==> After(acceptor, events).discovered[key]
                            == OfferedInfo(events[i].entry, events[i].options, events[i].now)
  {
    AfterParts(acceptor, events);
    CacheIsLive(events, key);
  }

  /** What is cached for a service, field by field, read off its live offer. */
  lemma OfferedFields(acceptor: Acceptor, events: seq<Event>, i: nat, key: ServiceKey)
    requires Live(events, i, key)
    ensures key in After(acceptor, events).discovered
    ensures var info, e := After(acceptor, events).discovered[key], events[i].entry;
            && e.entryType == 0x01 && key == info.key == ServiceKey(e.serviceId, e.instanceId)
            && info.majorVersion == e.majorVersion && info.minorVersion == e.minorVersion && info.ttl == e.ttl
            && info.lastUpdate == events[i].now && (info.isOffered <==> e.ttl > 0) && !info.isLocal
            && info.endpoints == PeersOf(events[i].options)
            && (forall p :: p in info.endpoints
                            <==> Endpoint(p.address, p.port, p.protocol) in events[i].options)
  {
    CacheRefinesHistory(acceptor, events, key);
    PeersAreEndpoints(events[i].options);
  }

  /** The time to live counts in whole seconds: a sweep is in time until the next second is full. */
  lemma InTimeExactly(offer: Event, sweep: Event)
    requires offer.Receive? && sweep.CheckTtl?
    ensures InTime(offer, sweep) <==> sweep.now - offer.now < 1_000_000_000 * (offer.entry.ttl + 1)
  {
    ElapsedExceeds(sweep.now, offer.now, SECOND, offer.entry.ttl);
  }

  predicate Timed(e: Event) {
    e.Receive? || e.CheckTtl?
  }

  /** The clock never runs back between the events that read it. */
  ghost predicate Monotonic(events: seq<Event>) {
    forall i, j :: 0 <= i < j < |events| && Timed(events[i]) && Timed(events[j]) ==> events[i].now <= events[j].now
  }

  ghost predicate LatestSweep(events: seq<Event>, j: nat) {
    && j < |events| && events[j].CheckTtl?
    && forall k :: j < k < |events| ==> !events[k].CheckTtl?
  }

  /** Under a monotonic clock only the latest sweep after the offer matters. */
  lemma LatestSweepDecides(events: seq<Event>, i: nat, j: nat)
    requires Monotonic(events) && i < j && LatestSweep(events, j) && events[i].Receive?
    ensures SurvivesSweeps(events, i) <==> InTime(events[i], events[j])
  {
    forall k | i < k < |events| && events[k].CheckTtl? && InTime(events[i], events[j])
      ensures InTime(events[i], events[k])
    {
      assert k <= j;
      assert events[i].now <= events[k].now <= events[j].now;
    }
  }

  lemma {:induction false} SomeLatestSweep(events: seq<Event>, k: nat) returns (j: nat)
    requires k < |events| && events[k].CheckTtl?
    ensures k <= j && LatestSweep(events, j)
    decreases |events| - k
  {
    if l: nat :| k < l < |events| && events[l].CheckTtl? {
      j := SomeLatestSweep(events, l);
    } else {
      j := k;
    }
  }

  /** Under a monotonic clock a service is cached exactly when it was offered and the latest sweep, if it
      came after its latest offer, was in time; what is stored is that offer. */
  lemma CachedExactly(acceptor: Acceptor, events: seq<Event>, key: ServiceKey)
    requires Monotonic(events)
    ensures key in After(acceptor, events).discovered
            <==> exists i: nat :: LatestOffer(events, i, key)
                                  && forall j :: i < j && LatestSweep(events, j) ==> InTime(events[i], events[j])
    ensures forall i: nat :: LatestOffer(events, i, key) && key in After(acceptor, events).discovered
                        ==> After(acceptor, events).discovered[key]
                            == OfferedInfo(events[i].entry, events[i].options, events[i].now)
  {
    CacheRefinesHistory(acceptor, events, key);
    forall i: nat | LatestOffer(events, i, key)
      ensures SurvivesSweeps(events, i)
              <==> forall j :: i < j && LatestSweep(events, j) ==> InTime(events[i], events[j])
    {
      if k: nat :| i < k < |events| && events[k].CheckTtl? {
        var j := SomeLatestSweep(events, k);
        LatestSweepDecides(events, i, j);
      }
    }
    forall i: nat, k: nat | LatestOffer(events, i, key) && LatestOffer(events, k, key) ensures i == k {
    }
  }

  // ----- Availability notices -----

  ghost predicate Keyed(discovered: map<ServiceKey, ServiceInfo>) {
    forall k :: k in discovered ==> discovered[k].key == k
  }

  lemma {:induction false} AlwaysKeyed(events: seq<Event>)
    ensures Keyed(Cache(events))
  {
    if events != [] {
      AlwaysKeyed(events[..|events| - 1]);
    }
  }

  /** One sweep announces each expired service once and nothing else. */
  lemma {:induction false} SweepCounts(discovered: map<ServiceKey, ServiceInfo>, rest: set<ServiceKey>, now: int,
                                       key: ServiceKey)
    requires rest <= discovered.Keys && Keyed(discovered)
    ensures var ns := multiset(SweepNotices(discovered, rest, now));
            && ns[Notice(key, false)] == (if key in rest && TtlExpired(discovered[key], now) then 1 else 0)
            && ns[Notice(key, true)] == 0
    decreases |rest|
  {
    if rest != {} {
      var least := LeastKey(rest);
      SweepCounts(discovered, rest - {least}, now, key);
    }
  }

  /** How often the service was in the cache before an event and gone after it. */
  function Removals(acceptor: Acceptor, events: seq<Event>, key: ServiceKey): nat {
    if events == [] then 0
    else
      var before := events[..|events| - 1];
      Removals(acceptor, before, key)
      + if key in After(acceptor, before).discovered && key !in After(acceptor, events).discovered then 1 else 0
  }

  /** How many offers with a positive time to live arrived. */
  function Offers(events: seq<Event>, key: ServiceKey): nat {
    if events == [] then 0
    else
      var last := events[|events| - 1];
      Offers(events[..|events| - 1], key) + if OfferOf(last, key) && last.entry.ttl > 0 then 1 else 0
  }

  lemma NoticesStepCounts(cache: map<ServiceKey, ServiceInfo>, e: Event, key: ServiceKey)
    requires Keyed(cache)
    ensures var ns := multiset(NoticesStep(cache, e));
            && ns[Notice(key, false)] == (if key in cache && key !in CacheStep(cache, e) then 1 else 0)
            && ns[Notice(key, true)] == (if OfferOf(e, key) && e.entry.ttl > 0 then 1 else 0)
  {
    if e.CheckTtl? {
      SweepCounts(cache, cache.Keys, e.now, key);
    }
  }

  /** Over every run, each removal is announced exactly once and so is each positive offer. */
  lemma {:induction false} NoticesCount(acceptor: Acceptor, events: seq<Event>, key: ServiceKey)
    ensures multiset(After(acceptor, events).notices)[Notice(key, false)] == Removals(acceptor, events, key)
    ensures multiset(After(acceptor, events).notices)[Notice(key, true)] == Offers(events, key)
  {
    AfterParts(acceptor, events);
    if events != [] {
      var before, e := events[..|events| - 1], events[|events| - 1];
      NoticesCount(acceptor, before, key);
      AfterParts(acceptor, before);
      AlwaysKeyed(before);
      NoticesStepCounts(Cache(before), e, key);
    }
  }

  // ----- Subscribers -----

  /** The service was offered here and not stopped since. */
  predicate LocalIn(events: seq<Event>, key: ServiceKey) {
    if events == [] then false
    else
      var before, e := events[..|events| - 1], events[|events| - 1];
      if e.OfferService? && e.info.key == key then true
      else if e.StopOfferService? && e.key == key then false
      else LocalIn(before, key)
  }

  predicate ResetsGroup(e: Event, g: GroupKey) {
    (e.OfferEventgroup? && e.group == g) || (e.StopOfferEventgroup? && e.group == g)
  }

  predicate SubscribesTo(e: Event, g: GroupKey) {
    e.Receive? && e.entry.entryType == SUBSCRIBE_EVENTGROUP && EntryGroup(e.entry) == g
  }

  /** The endpoints of the subscriptions to the event group, accepted while its service was local, since
      the group was last offered or stopped. */
  function Arrivals(acceptor: Acceptor, events: seq<Event>, g: GroupKey): seq<Peer> {
    if events == [] then []
    else
      var before, e := events[..|events| - 1], events[|events| - 1];
      if ResetsGroup(e, g) then []
      else if SubscribesTo(e, g) && LocalIn(before, g.service) && Accepted(acceptor, Requested(e.entry, e.options))
      then Arrivals(acceptor, before, g) + PeersOf(e.options)
      else Arrivals(acceptor, before, g)
  }

  /** Every element where it first occurs. */
  function FirstOccurrences(s: seq<Peer>): seq<Peer> {
    if s == [] then []
    else
      var before, p := s[..|s| - 1], s[|s| - 1];
      if p in before then FirstOccurrences(before) else FirstOccurrences(before) + [p]
  }

  ghost predicate FirstAt(s: seq<Peer>, i: nat, p: Peer) {
    i < |s| && s[i] == p && p !in s[..i]
  }

  /** What `FirstOccurrences` is: the same elements, none twice, in the order in which they first occur. */
  lemma {:induction false} FirstOccurrencesMeaning(s: seq<Peer>)
    ensures var r := FirstOccurrences(s);
            && (forall p :: p in r <==> p in s)
            && (forall a, b :: 0 <= a < b < |r| ==> r[a] != r[b])
            && (forall a, b, i: nat, j: nat :: 0 <= a < b < |r| && FirstAt(s, i, r[a]) && FirstAt(s, j, r[b]) ==> i < j)
  {
    if s != [] {
      var n := |s| - 1;
      var before, p := s[..n], s[n];
      FirstOccurrencesMeaning(before);
      var r := FirstOccurrences(s);
      assert forall x :: x in s <==> x in before || x == p;
      forall a, b, i: nat, j: nat | 0 <= a < b < |r| && FirstAt(s, i, r[a]) && FirstAt(s, j, r[b]) ensures i < j {
        assert i < n ==> s[..i] == before[..i];
        assert j < n ==> s[..j] == before[..j];
        assert s[..n] == before;
        if i < n && j < n && b < |FirstOccurrences(before)| {
          assert FirstAt(before, i, r[a]) && FirstAt(before, j, r[b]);
        }
      }
    }
  }

  lemma {:induction false} AddPeersFirst(a: seq<Peer>, b: seq<Peer>)
    ensures AddPeers(FirstOccurrences(a), b) == FirstOccurrences(a + b)
  {
    if b == [] {
      assert a + b == a;
    } else {
      var b', p := b[..|b| - 1], b[|b| - 1];
      AddPeersFirst(a, b');
      FirstOccurrencesMeaning(a + b');
      assert (a + b)[..|a + b| - 1] == a + b';
    }
  }

  lemma {:induction false} LocalRefinesHistory(acceptor: Acceptor, events: seq<Event>, key: ServiceKey)
    ensures key in After(acceptor, events).local <==> LocalIn(events, key)
  {
    if events != [] {
      LocalRefinesHistory(acceptor, events[..|events| - 1], key);
    }
  }

  /** A local service is registered as it was last offered. */
  lemma {:induction false} LocalInfoIsLast(acceptor: Acceptor, events: seq<Event>, key: ServiceKey, i: nat)
    requires i < |events| && events[i].OfferService? && events[i].info.key == key
    requires forall j :: i < j < |events| ==> !(events[j].OfferService? && events[j].info.key == key)
                                              && !(events[j].StopOfferService? && events[j].key == key)
    ensures key in After(acceptor, events).local && After(acceptor, events).local[key] == events[i].info
  {
    if i < |events| - 1 {
      LocalInfoIsLast(acceptor, events[..|events| - 1], key, i);
      assert !(events[|events| - 1].OfferService? && events[|events| - 1].info.key == key);
    }
  }

  /** The endpoints the group was last offered with, if it was not stopped since. */
  function GroupEndpoints(events: seq<Event>, g: GroupKey): seq<Peer> {
    if events == [] then []
    else
      var e := events[|events| - 1];
      if e.OfferEventgroup? && e.group == g then e.endpoints
      else if e.StopOfferEventgroup? && e.group == g then []
      else GroupEndpoints(events[..|events| - 1], g)
  }

  /** The event group keeps the endpoints it was offered with. */
  lemma {:induction false} GroupKeepsEndpoints(acceptor: Acceptor, events: seq<Event>, g: GroupKey)
    ensures GroupOrNew(After(acceptor, events).eventgroups, g).endpoints == GroupEndpoints(events, g)
  {
    if events != [] {
      GroupKeepsEndpoints(acceptor, events[..|events| - 1], g);
    }
  }

  /** The major version of the last subscription that the group took since it was offered or stopped. */
  function GroupVersion(acceptor: Acceptor, events: seq<Event>, g: GroupKey): Option<Byte> {
    if events == [] then None
    else
      var before, e := events[..|events| - 1], events[|events| - 1];
      if ResetsGroup(e, g) then None
      else if SubscribesTo(e, g) && LocalIn(before, g.service) && Accepted(acceptor, Requested(e.entry, e.options))
      then Some(e.entry.majorVersion)
      else GroupVersion(acceptor, before, g)
  }

  lemma ApplyVersion(acceptor: Acceptor, s: State, e: Event, g: GroupKey)
    ensures GroupOrNew(Apply(acceptor, s, e).eventgroups, g).majorVersion
            == if ResetsGroup(e, g) then None
               else if SubscribesTo(e, g) && g.service in s.local && Accepted(acceptor, Requested(e.entry, e.options))
               then Some(e.entry.majorVersion)
               else GroupOrNew(s.eventgroups, g).majorVersion
  {
  }

  lemma AfterSnoc(acceptor: Acceptor, events: seq<Event>)
    requires events != []
    ensures After(acceptor, events) == Apply(acceptor, After(acceptor, events[..|events| - 1]), events[|events| - 1])
  {
  }

  lemma {:induction false} GroupKeepsVersion(acceptor: Acceptor, events: seq<Event>, g: GroupKey)
    ensures GroupOrNew(After(acceptor, events).eventgroups, g).majorVersion == GroupVersion(acceptor, events, g)
  {
    if events != [] {
      var before := events[..|events| - 1];
      GroupKeepsVersion(acceptor, before, g);
      LocalRefinesHistory(acceptor, before, g.service);
      ApplyVersion(acceptor, After(acceptor, before), events[|events| - 1], g);
      AfterSnoc(acceptor, events);
    }
  }

  /** What one event does to the subscribers of a group. */
  function SubscribersStep(acceptor: Acceptor, local: bool, known: seq<Peer>, e: Event, g: GroupKey): seq<Peer> {
    if ResetsGroup(e, g) then []
    else if SubscribesTo(e, g) && local && Accepted(acceptor, Requested(e.entry, e.options))
    then AddPeers(known, PeersOf(e.options))
    else known
  }

  lemma ApplySubscribers(acceptor: Acceptor, s: State, e: Event, g: GroupKey)
    ensures GroupOrNew(Apply(acceptor, s, e).eventgroups, g).subscribers
            == SubscribersStep(acceptor, g.service in s.local, GroupOrNew(s.eventgroups, g).subscribers, e, g)
  {
  }

  lemma ArrivalsStep(acceptor: Acceptor, events: seq<Event>, g: GroupKey)
    requires events != []
    ensures var before, e := events[..|events| - 1], events[|events| - 1];
            FirstOccurrences(Arrivals(acceptor, events, g))
            == SubscribersStep(acceptor, LocalIn(before, g.service),
                               FirstOccurrences(Arrivals(acceptor, before, g)), e, g)
  {
    var before, e := events[..|events| - 1], events[|events| - 1];
    if SubscribesTo(e, g) {
      AddPeersFirst(Arrivals(acceptor, before, g), PeersOf(e.options));
    }
  }

  /** The subscribers of an event group are, without repeats and in order of first arrival, the endpoints
      that arrived since it was last offered or stopped. */
  lemma {:induction false} SubscribersRefineHistory(acceptor: Acceptor, events: seq<Event>, g: GroupKey)
    ensures GroupOrNew(After(acceptor, events).eventgroups, g).subscribers
            == FirstOccurrences(Arrivals(acceptor, events, g))
  {
    if events != [] {
      var before, e := events[..|events| - 1], events[|events| - 1];
      SubscribersRefineHistory(acceptor, before, g);
      LocalRefinesHistory(acceptor, before, g.service);
      ApplySubscribers(acceptor, After(acceptor, before), e, g);
      AfterSnoc(acceptor, events);
      ArrivalsStep(acceptor, events, g);
    }
  }

  // ----- Pending subscriptions -----

  predicate Resolves(e: Event, g: GroupKey) {
    || (e.UnsubscribeEventgroup? && e.group == g)
    || (e.Receive? && e.entry.entryType == SUBSCRIBE_EVENTGROUP_ACK && EntryGroup(e.entry) == g)
  }

  predicate Resolving(e: Event) {
    e.UnsubscribeEventgroup? || (e.Receive? && e.entry.entryType == SUBSCRIBE_EVENTGROUP_ACK)
  }

  /** No event from `from` on resolves the group. */
  ghost predicate Unresolved(events: seq<Event>, from: nat, g: GroupKey) {
    forall j :: from <= j < |events| ==> !Resolves(events[j], g)
  }

  /** The subscription of event `n - 1`, if it is one and nothing in the whole run resolved it later. */
  ghost function WaitingAt(events: seq<Event>, n: nat): seq<PendingSubscription>
    requires 0 < n <= |events|
  {
    var e := events[n - 1];
    if e.SubscribeEventgroup? && Unresolved(events, n, e.group) then [PendingSubscription(e.group, e.now)] else []
  }

  /** The subscriptions among the first `n` events that nothing in the whole run resolved later, in order. */
  ghost function Waiting(events: seq<Event>, n: nat): seq<PendingSubscription>
    requires n <= |events|
  {
    if n == 0 then [] else Waiting(events, n - 1) + WaitingAt(events, n)
  }

  lemma {:induction false} WithoutAppend(a: seq<PendingSubscription>, b: seq<PendingSubscription>, g: GroupKey)
    ensures Without(a + b, g) == Without(a, g) + Without(b, g)
  {
    if b == [] {
      assert a + b == a;
    } else {
      WithoutAppend(a, b[..|b| - 1], g);
      assert (a + b)[..|a + b| - 1] == a + b[..|b| - 1];
    }
  }

  lemma ResolvedAppend(kept: seq<PendingSubscription>, all: seq<PendingSubscription>,
                       keptLast: seq<PendingSubscription>, last: seq<PendingSubscription>, g: GroupKey)
    requires kept == Without(all, g) && keptLast == Without(last, g)
    ensures kept + keptLast == Without(all + last, g)
  {
    WithoutAppend(all, last, g);
  }

  /** One more event leaves a subscription unresolved exactly when it does not resolve it. */
  lemma UnresolvedStep(events: seq<Event>, n: nat, g: GroupKey)
    requires events != [] && n < |events|
    ensures var before, e := events[..|events| - 1], events[|events| - 1];
            Unresolved(events, n, g) <==> Unresolved(before, n, g) && !Resolves(e, g)
  {
    assert forall j :: 0 <= j < |events| - 1 ==> events[..|events| - 1][j] == events[j];
  }

  lemma WaitingAtStep(events: seq<Event>, n: nat)
    requires 0 < n < |events|
    ensures var before, e := events[..|events| - 1], events[|events| - 1];
            && (forall g :: Resolves(e, g) ==> WaitingAt(events, n) == Without(WaitingAt(before, n), g))
            && (!Resolving(e) ==> WaitingAt(events, n) == WaitingAt(before, n))
  {
    var before, s := events[..|events| - 1], events[n - 1];
    assert before[n - 1] == s;
    if s.SubscribeEventgroup? {
      UnresolvedStep(events, n, s.group);
      var one := [PendingSubscription(s.group, s.now)];
      assert one[..0] == [];
    }
  }

  /** One more event that resolves `g` takes exactly its subscriptions off the waiting list; one that
      resolves nothing leaves the list alone. */
  lemma {:induction false} WaitingResolved(events: seq<Event>, n: nat, g: GroupKey)
    requires n < |events| && Resolves(events[|events| - 1], g)
    ensures Waiting(events, n) == Without(Waiting(events[..|events| - 1], n), g)
    decreases n
  {
    if n > 0 {
      var before := events[..|events| - 1];
      WaitingResolved(events, n - 1, g);
      assert WaitingAt(events, n) == Without(WaitingAt(before, n), g) by { WaitingAtStep(events, n); }
      ResolvedAppend(Waiting(events, n - 1), Waiting(before, n - 1), WaitingAt(events, n), WaitingAt(before, n), g);
    }
  }

  lemma {:induction false} WaitingKept(events: seq<Event>, n: nat)
    requires n < |events| && !Resolving(events[|events| - 1])
    ensures Waiting(events, n) == Waiting(events[..|events| - 1], n)
    decreases n
  {
    if n > 0 {
      WaitingKept(events, n - 1);
      WaitingAtStep(events, n);
    }
  }

  lemma {:induction false} PendingIsWaiting(events: seq<Event>)
    ensures Pending(events) == Waiting(events, |events|)
  {
    if events != [] {
      var n := |events| - 1;
      var before, e := events[..n], events[n];
      PendingIsWaiting(before);
      if e.UnsubscribeEventgroup? {
        WaitingResolved(events, n, e.group);
      } else if e.Receive? && e.entry.entryType == SUBSCRIBE_EVENTGROUP_ACK {
        WaitingResolved(events, n, EntryGroup(e.entry));
      } else {
        WaitingKept(events, n);
      }
    }
  }

  /** The pending list holds exactly the subscriptions not resolved since, in the order they were made:
      a removal keeps the order of all others. */
  lemma PendingRefinesHistory(acceptor: Acceptor, events: seq<Event>)
    ensures After(acceptor, events).pending == Waiting(events, |events|)
  {
    AfterParts(acceptor, events);
    PendingIsWaiting(events);
  }

  function Multiplicity(pending: seq<PendingSubscription>, g: GroupKey): nat {
    if pending == [] then 0
    else Multiplicity(pending[..|pending| - 1], g) + if pending[|pending| - 1].key == g then 1 else 0
  }

  /** How many subscriptions to the group were made since it was last resolved. */
  function SubscribesSince(events: seq<Event>, g: GroupKey): nat {
    if events == [] then 0
    else
      var before, e := events[..|events| - 1], events[|events| - 1];
      if Resolves(e, g) then 0
      else SubscribesSince(before, g) + if e.SubscribeEventgroup? && e.group == g then 1 else 0
  }

  lemma MultiplicitySnoc(pending: seq<PendingSubscription>, last: PendingSubscription, g: GroupKey)
    ensures Multiplicity(pending + [last], g) == Multiplicity(pending, g) + if last.key == g then 1 else 0
  {
    assert (pending + [last])[..|pending|] == pending;
  }

  lemma {:induction false} WithoutCounts(pending: seq<PendingSubscription>, g: GroupKey, h: GroupKey)
    ensures Multiplicity(Without(pending, g), h) == if g == h then 0 else Multiplicity(pending, h)
  {
    if pending != [] {
      var before, last := pending[..|pending| - 1], pending[|pending| - 1];
      var kept := Without(before, g);
      assert pending == before + [last];
      WithoutCounts(before, g, h);
      MultiplicitySnoc(kept, last, h);
      assert Without(pending, g) == if last.key == g then kept else kept + [last];
    }
  }

  lemma {:induction false} PendingCounts(events: seq<Event>, g: GroupKey)
    ensures Multiplicity(Pending(events), g) == SubscribesSince(events, g)
  {
    if events != [] {
      var before, e := events[..|events| - 1], events[|events| - 1];
      PendingCounts(before, g);
      if e.UnsubscribeEventgroup? {
        WithoutCounts(Pending(before), e.group, g);
      } else if e.Receive? && e.entry.entryType == SUBSCRIBE_EVENTGROUP_ACK {
        WithoutCounts(Pending(before), EntryGroup(e.entry), g);
      } else if e.SubscribeEventgroup? {
        MultiplicitySnoc(Pending(before), PendingSubscription(e.group, e.now), g);
      }
    }
  }

  /** How often a group is pending: once for each subscription since it was last resolved. */
  lemma PendingMultiplicity(acceptor: Acceptor, events: seq<Event>, g: GroupKey)
    ensures Multiplicity(After(acceptor, events).pending, g) == SubscribesSince(events, g)
  {
    AfterParts(acceptor, events);
    PendingCounts(events, g);
  }

  // ----- Whole messages -----

  lemma {:induction false} ApplyAllAppend(acceptor: Acceptor, s: State, a: seq<Event>, b: seq<Event>)
    ensures ApplyAll(acceptor, ApplyAll(acceptor, s, a), b) == ApplyAll(acceptor, s, a + b)
  {
    if b == [] {
      assert a + b == a;
    } else {
      ApplyAllAppend(acceptor, s, a, b[..|b| - 1]);
      assert (a + b)[..|a + b| - 1] == a + b[..|b| - 1];
    }
  }

  /** A message in the layout of its entries and options extends the history by those entries, in order,
      each with all the options: what is proved of histories holds after every message. */
  lemma MessageExtendsHistory(acceptor: Acceptor, history: seq<Event>, payload: seq<Byte>, content: SdContent,
                              clock: nat -> int)
    requires LaidOut(payload, content) && forall e :: e in content.entries ==> e.Canonical()
    requires ENTRY_SIZE * |content.entries| < 0x1_0000_0000 && OPTION_SIZE * |content.options| < 0x1_0000_0000
    ensures Parse(payload).Some?
    ensures ApplyAll(acceptor, After(acceptor, history), Dispatch(Parse(payload).value, clock))
            == After(acceptor, history + Dispatch(content, clock))
  {
    ParseLayout(payload, content);
    ApplyAllAppend(acceptor, EMPTY, history, Dispatch(content, clock));
  }

  lemma {:induction false} OfferStays(acceptor: Acceptor, s: State, events: seq<Event>, k: nat, n: nat)
    requires k < n <= |events| && events[k].Receive? && events[k].entry.entryType == 0x01
    requires forall j :: k < j < n ==> events[j].Receive? && !OfferOf(events[j], EntryKey(events[k].entry))
    ensures var e := events[k].entry;
            var t := ApplyAll(acceptor, s, events[..n]);
            var key := ServiceKey(e.serviceId, e.instanceId);
            && key in t.discovered
            && t.discovered[key] == ServiceInfo(key, e.majorVersion, e.minorVersion, e.ttl, events[k].now,
                                                PeersOf(events[k].options), e.ttl > 0, false)
  {
    assert events[..n][..n - 1] == events[..n - 1];
    var before := ApplyAll(acceptor, s, events[..n - 1]);
    if k == n - 1 {
      OfferExactly(acceptor, before, events[k].entry, events[k].options, events[k].now);
    } else {
      OfferStays(acceptor, s, events, k, n - 1);
      ApplyCache(acceptor, before, events[n - 1]);
    }
  }

  /** Entry `k` of a message, its last offer of a service, decides what is cached for the service, with every
      endpoint option of the message. */
  lemma MessageOffers(acceptor: Acceptor, s: State, content: SdContent, clock: nat -> int, k: nat)
    requires k < |content.entries| && content.entries[k].entryType == 0x01
    requires forall j :: k < j < |content.entries| && content.entries[j].entryType == 0x01
                         ==> content.entries[j].serviceId != content.entries[k].serviceId
                             || content.entries[j].instanceId != content.entries[k].instanceId
    ensures var e := content.entries[k];
            var t := ApplyAll(acceptor, s, Dispatch(content, clock));
            var key := ServiceKey(e.serviceId, e.instanceId);
            && key in t.discovered
            && t.discovered[key] == ServiceInfo(key, e.majorVersion, e.minorVersion, e.ttl, clock(k),
                                                PeersOf(content.options), e.ttl > 0, false)
  {
    var events := Dispatch(content, clock);
    OfferStays(acceptor, s, events, k, |events|);
    assert events[..|events|] == events;
  }

  /** A subscription in a message is handled with all options of the message, like any other. */
  lemma DispatchExactly(content: SdContent, clock: nat -> int, k: nat)
    ensures |Dispatch(content, clock)| == |content.entries|
    ensures k < |content.entries|
            ==> Dispatch(content, clock)[k] == Receive(content.entries[k], content.options, clock(k))
  {
  }
}
