/** The registries of Service Discovery and the handlers that change them. */
module SdRegistry {
  import opened Bytes
  import opened Clock
  import opened ServiceEntries
  import opened SdMessages

  datatype ServiceKey = ServiceKey(serviceId: U16, instanceId: U16)
  {
    /** The order of `std::pair`. */
    predicate AtMost(other: ServiceKey) {
      serviceId < other.serviceId || (serviceId == other.serviceId && instanceId <= other.instanceId)
    }
  }

  datatype GroupKey = GroupKey(service: ServiceKey, eventgroupId: U16)

  datatype Peer = Peer(address: seq<Byte>, port: U16, protocol: Byte)

  datatype ServiceInfo = ServiceInfo(
    key: ServiceKey,
    majorVersion: Byte,
    minorVersion: U32,
    ttl: U32,
    lastUpdate: int,
    endpoints: seq<Peer>,
    isOffered: bool,
    isLocal: bool)

  const UDP: Byte := 0x06
  const TCP: Byte := 0x11

  datatype ServiceConfig = ServiceConfig(
    key: ServiceKey,
    majorVersion: Byte,
    minorVersion: U32,
    ttlMs: nat,
    unreliable: bool,
    unreliablePort: U16,
    reliable: bool,
    reliablePort: U16)

  /** What offering a service here registers: an endpoint for each transport that is configured and there. */
  function LocalInfo(c: ServiceConfig, address: seq<Byte>, hasTcpPort: bool, now: int): ServiceInfo {
    ServiceInfo(c.key, c.majorVersion, c.minorVersion, c.ttlMs % 0x1_0000_0000, now,
                (if c.unreliable then [Peer(address, c.unreliablePort, UDP)] else [])
                + (if c.reliable && hasTcpPort then [Peer(address, c.reliablePort, TCP)] else []),
                true, true)
  }

  /** The registered service, field by field: the unreliable port goes with UDP, the reliable one with TCP. */
  lemma LocalInfoExactly(c: ServiceConfig, address: seq<Byte>, hasTcpPort: bool, now: int)
    ensures var info := LocalInfo(c, address, hasTcpPort, now);
            && info.key == c.key && info.majorVersion == c.majorVersion && info.minorVersion == c.minorVersion
            && info.ttl == c.ttlMs % 0x1_0000_0000 && info.lastUpdate == now && info.isOffered && info.isLocal
            && (forall p :: p in info.endpoints
                            <==> (c.unreliable && p == Peer(address, c.unreliablePort, 0x06))
                                 || (c.reliable && hasTcpPort && p == Peer(address, c.reliablePort, 0x11)))
            && |info.endpoints| == (if c.unreliable then 1 else 0) + (if c.reliable && hasTcpPort then 1 else 0)
  {
  }

  /** `majorVersion` is absent until a subscription sets it. */
  datatype EventgroupInfo = EventgroupInfo(majorVersion: Option<Byte>, endpoints: seq<Peer>, subscribers: seq<Peer>)

  datatype PendingSubscription = PendingSubscription(key: GroupKey, timestamp: int)

  datatype SubscriptionInfo = SubscriptionInfo(key: GroupKey, majorVersion: Byte, ttl: U32, endpoints: seq<Peer>)

  datatype Notice = Notice(key: ServiceKey, available: bool)

  datatype State = State(
    local: map<ServiceKey, ServiceInfo>,
    discovered: map<ServiceKey, ServiceInfo>,
    eventgroups: map<GroupKey, EventgroupInfo>,
    pending: seq<PendingSubscription>,
    notices: seq<Notice>)

  const EMPTY := State(map[], map[], map[], [], [])

  datatype Event =
    | OfferService(info: ServiceInfo)
    | StopOfferService(key: ServiceKey)
    | SubscribeEventgroup(group: GroupKey, now: int)
    | UnsubscribeEventgroup(group: GroupKey)
    | OfferEventgroup(group: GroupKey, endpoints: seq<Peer>)
    | StopOfferEventgroup(group: GroupKey)
    | Receive(entry: Entry, options: seq<SdOption>, now: int)
    | CheckTtl(now: int)

  /** The subscription handler, if one is set. */
  type Acceptor = Option<SubscriptionInfo -> bool>

  // ----- What one event does -----

  function PeersOf(options: seq<SdOption>): seq<Peer> {
    if options == [] then []
    else
      var last := options[|options| - 1];
      PeersOf(options[..|options| - 1])
      + if last.Endpoint? then [Peer(last.address, last.port, last.protocol)] else []
  }

  /** The IPv4 endpoint options, and only they, become endpoints, with their address, port and protocol. */
  lemma {:induction false} PeersAreEndpoints(options: seq<SdOption>)
    ensures forall p :: p in PeersOf(options) <==> Endpoint(p.address, p.port, p.protocol) in options
  {
    if options != [] {
      var before, last := options[..|options| - 1], options[|options| - 1];
      PeersAreEndpoints(before);
      assert forall o :: o in options <==> o in before || o == last;
    }
  }

  /** The endpoints stand in the order of their options, with repeats: one option gives its endpoint or
      nothing, and more options give the endpoints of each part one behind the other. */
  lemma {:induction false} PeersInOrder(a: seq<SdOption>, b: seq<SdOption>)
    ensures PeersOf(a + b) == PeersOf(a) + PeersOf(b)
    ensures |a| == 1 ==> PeersOf(a) == if a[0].Endpoint? then [Peer(a[0].address, a[0].port, a[0].protocol)] else []
  {
    if |a| == 1 {
      assert PeersOf(a[..0]) == [];
    }
    if b == [] {
      assert a + b == a;
    } else {
      PeersInOrder(a, b[..|b| - 1]);
      assert (a + b)[..|a + b| - 1] == a + b[..|b| - 1];
    }
  }

  function EntryKey(e: Entry): ServiceKey {
    ServiceKey(e.serviceId, e.instanceId)
  }

  function EntryGroup(e: Entry): GroupKey {
    GroupKey(EntryKey(e), e.EventgroupId())
  }

  function OfferedInfo(e: Entry, options: seq<SdOption>, now: int): ServiceInfo {
    ServiceInfo(EntryKey(e), e.majorVersion, e.minorVersion, e.ttl, now, PeersOf(options), e.ttl > 0, false)
  }

  function Requested(e: Entry, options: seq<SdOption>): SubscriptionInfo {
    SubscriptionInfo(EntryGroup(e), e.majorVersion, e.ttl, PeersOf(options))
  }

  predicate Accepted(acceptor: Acceptor, s: SubscriptionInfo) {
    acceptor.Some? ==> acceptor.value(s)
  }

  /** Subscribers after one more arrived: known endpoints are not repeated. */
  function AddPeer(subscribers: seq<Peer>, p: Peer): seq<Peer> {
    if p in subscribers then subscribers else subscribers + [p]
  }

  function AddPeers(subscribers: seq<Peer>, peers: seq<Peer>): seq<Peer> {
    if peers == [] then subscribers
    else AddPeer(AddPeers(subscribers, peers[..|peers| - 1]), peers[|peers| - 1])
  }

  lemma {:induction false} AddPeersMembers(subscribers: seq<Peer>, peers: seq<Peer>)
    ensures forall p :: p in AddPeers(subscribers, peers) <==> p in subscribers || p in peers
  {
    if peers != [] {
      var before, last := peers[..|peers| - 1], peers[|peers| - 1];
      AddPeersMembers(subscribers, before);
      assert forall p :: p in peers <==> p in before || p == last;
    }
  }

  function GroupOrNew(eventgroups: map<GroupKey, EventgroupInfo>, g: GroupKey): EventgroupInfo {
    if g in eventgroups then eventgroups[g] else EventgroupInfo(None, [], [])
  }

  function Without(pending: seq<PendingSubscription>, g: GroupKey): seq<PendingSubscription> {
    if pending == [] then []
    else
      var last := pending[|pending| - 1];
      Without(pending[..|pending| - 1], g) + if last.key == g then [] else [last]
  }

  predicate TtlExpired(info: ServiceInfo, now: int) {
    Elapsed(now, info.lastUpdate, SECOND) > info.ttl
  }

  lemma {:induction false} LeastKeyExists(keys: set<ServiceKey>)
    requires keys != {}
    ensures exists key :: key in keys && forall k :: k in keys ==> key.AtMost(k)
    decreases |keys|
  {
    var x :| x in keys;
    if keys == {x} {
      assert x in keys && forall k :: k in keys ==> x.AtMost(k);
    } else {
      LeastKeyExists(keys - {x});
      var y :| y in keys - {x} && forall k :: k in keys - {x} ==> y.AtMost(k);
      var least := if x.AtMost(y) then x else y;
      assert forall k :: k in keys ==> k == x || k in keys - {x};
      assert least in keys && forall k :: k in keys ==> least.AtMost(k);
    }
  }

  /** The key that comes first in key order. */
  function LeastKey(keys: set<ServiceKey>): (key: ServiceKey)
    requires keys != {}
    ensures key in keys && forall k :: k in keys ==> key.AtMost(k)
  {
    LeastKeyExists(keys);
    var key :| key in keys && forall k :: k in keys ==> key.AtMost(k);
    key
  }

  /** The notices a sweep sends for the services in `rest`, in key order. */
  function SweepNotices(discovered: map<ServiceKey, ServiceInfo>, rest: set<ServiceKey>, now: int): seq<Notice>
    requires rest <= discovered.Keys
    decreases |rest|
  {
    if rest == {} then []
    else
      var key := LeastKey(rest);
      var info := discovered[key];
      (if TtlExpired(info, now) then [Notice(info.key, false)] else []) + SweepNotices(discovered, rest - {key}, now)
  }

  /** In ascending order: by service, then by instance. */
  ghost predicate InKeyOrder(ns: seq<Notice>, keys: set<ServiceKey>) {
    && (forall i :: 0 <= i < |ns| ==> ns[i].key in keys)
    && (forall i, j :: 0 <= i < j < |ns|
                       ==> || ns[i].key.serviceId < ns[j].key.serviceId
                           || (ns[i].key.serviceId == ns[j].key.serviceId
                               && ns[i].key.instanceId < ns[j].key.instanceId))
  }

  lemma OrderCons(ns: seq<Notice>, keys: set<ServiceKey>, least: ServiceKey)
    requires InKeyOrder(ns, keys - {least}) && least in keys && forall k :: k in keys ==> least.AtMost(k)
    ensures InKeyOrder(ns, keys) && InKeyOrder([Notice(least, false)] + ns, keys)
  {
    var all := [Notice(least, false)] + ns;
    forall i | 0 < i < |all| ensures all[i] == ns[i - 1] && least.AtMost(all[i].key) && all[i].key != least {
      assert all[i] == ns[i - 1];
      assert ns[i - 1].key in keys - {least};
    }
  }

  /** The sweep announces in key order. */
  lemma {:induction false} SweepInKeyOrder(discovered: map<ServiceKey, ServiceInfo>, rest: set<ServiceKey>, now: int)
    requires rest <= discovered.Keys && forall k :: k in rest ==> discovered[k].key == k
    ensures InKeyOrder(SweepNotices(discovered, rest, now), rest)
    decreases |rest|
  {
    if rest != {} {
      var least := LeastKey(rest);
      var later := SweepNotices(discovered, rest - {least}, now);
      SweepInKeyOrder(discovered, rest - {least}, now);
      OrderCons(later, rest, least);
      assert [] + later == later;
    }
  }

  function Unexpired(discovered: map<ServiceKey, ServiceInfo>, now: int): map<ServiceKey, ServiceInfo> {
    map k | k in discovered && !TtlExpired(discovered[k], now) :: discovered[k]
  }

  function AfterSubscribe(acceptor: Acceptor, s: State, e: Entry, options: seq<SdOption>): State {
    if EntryKey(e) in s.local && Accepted(acceptor, Requested(e, options)) then
      var g := GroupOrNew(s.eventgroups, EntryGroup(e));
      s.(eventgroups := s.eventgroups[EntryGroup(e) :=
           g.(majorVersion := Some(e.majorVersion), subscribers := AddPeers(g.subscribers, PeersOf(options)))])
    else s
  }

  function AfterReceive(acceptor: Acceptor, s: State, e: Entry, options: seq<SdOption>, now: int): State {
    if e.entryType == OFFER_SERVICE then
      s.(discovered := s.discovered[EntryKey(e) := OfferedInfo(e, options, now)],
         notices := s.notices + if e.ttl > 0 then [Notice(EntryKey(e), true)] else [])
    else if e.entryType == SUBSCRIBE_EVENTGROUP then AfterSubscribe(acceptor, s, e, options)
    else if e.entryType == SUBSCRIBE_EVENTGROUP_ACK then s.(pending := Without(s.pending, EntryGroup(e)))
    else s
  }

  function Apply(acceptor: Acceptor, s: State, e: Event): State {
    match e
    case OfferService(info) => s.(local := s.local[info.key := info])
    case StopOfferService(key) => s.(local := s.local - {key})
    case SubscribeEventgroup(group, now) => s.(pending := s.pending + [PendingSubscription(group, now)])
    case UnsubscribeEventgroup(group) => s.(pending := Without(s.pending, group))
    case OfferEventgroup(group, endpoints) =>
      s.(eventgroups := s.eventgroups[group := EventgroupInfo(None, endpoints, [])])
    case StopOfferEventgroup(group) => s.(eventgroups := s.eventgroups - {group})
    case Receive(entry, options, now) => AfterReceive(acceptor, s, entry, options, now)
    case CheckTtl(now) =>
      s.(discovered := Unexpired(s.discovered, now),
         notices := s.notices + SweepNotices(s.discovered, s.discovered.Keys, now))
  }

  /** What receiving an offer stores, and that it is announced if its time to live is positive. */
  lemma OfferExactly(acceptor: Acceptor, s: State, e: Entry, options: seq<SdOption>, now: int)
    requires e.entryType == 0x01
    ensures var t := Apply(acceptor, s, Receive(e, options, now));
            var key := ServiceKey(e.serviceId, e.instanceId);
            && t.discovered.Keys == s.discovered.Keys + {key}
            && (forall k :: k in s.discovered && k != key ==> t.discovered[k] == s.discovered[k])
            && t.discovered[key] == ServiceInfo(key, e.majorVersion, e.minorVersion, e.ttl, now, PeersOf(options),
                                                e.ttl > 0, false)
            && t.notices == s.notices + (if e.ttl > 0 then [Notice(key, true)] else [])
            && t.local == s.local && t.eventgroups == s.eventgroups && t.pending == s.pending
  {
  }

  /** A subscription is taken exactly when its service is local and the handler, if there is one, accepts what
      it asks for. Taken, it adds every endpoint option of its message to the subscribers of its group;
      otherwise it changes nothing. */
  lemma SubscribeExactly(acceptor: Acceptor, s: State, e: Entry, options: seq<SdOption>, now: int)
    requires e.entryType == 0x06
    ensures var t := Apply(acceptor, s, Receive(e, options, now));
            var service := ServiceKey(e.serviceId, e.instanceId);
            var g := GroupKey(service, e.minorVersion % 0x1_0000);
            var asked := SubscriptionInfo(g, e.majorVersion, e.ttl, PeersOf(options));
            && (service in s.local && (acceptor == None || acceptor.value(asked))
                ==> && g in t.eventgroups
                    && t.eventgroups.Keys == s.eventgroups.Keys + {g}
                    && (forall h :: h in s.eventgroups && h != g ==> t.eventgroups[h] == s.eventgroups[h])
                    && t.eventgroups[g].majorVersion == Some(e.majorVersion)
                    && t.eventgroups[g].endpoints == (if g in s.eventgroups then s.eventgroups[g].endpoints else [])
                    && (forall p :: p in t.eventgroups[g].subscribers
                                    <==> || (g in s.eventgroups && p in s.eventgroups[g].subscribers)
                                         || Endpoint(p.address, p.port, p.protocol) in options)
                    && t.(eventgroups := s.eventgroups) == s)
            && (!(service in s.local && (acceptor == None || acceptor.value(asked))) ==> t == s)
  {
    PeersAreEndpoints(options);
    AddPeersMembers(GroupOrNew(s.eventgroups, EntryGroup(e)).subscribers, PeersOf(options));
  }

  /** An ACK or a NACK takes the pending subscriptions of its group; entries of any other type that is not an
      offer or a subscription change nothing. */
  lemma OthersExactly(acceptor: Acceptor, s: State, e: Entry, options: seq<SdOption>, now: int)
    ensures e.entryType == 0x07
            ==> var g := GroupKey(ServiceKey(e.serviceId, e.instanceId), e.minorVersion % 0x1_0000);
                Apply(acceptor, s, Receive(e, options, now)) == s.(pending := Without(s.pending, g))
    ensures e.entryType !in {0x01, 0x06, 0x07} ==> Apply(acceptor, s, Receive(e, options, now)) == s
  {
  }

  function ApplyAll(acceptor: Acceptor, s: State, events: seq<Event>): State {
    if events == [] then s
    else Apply(acceptor, ApplyAll(acceptor, s, events[..|events| - 1]), events[|events| - 1])
  }

  /** The entries of a message, each handled with all of its options; `clock(i)` is read for entry `i`. */
  function Dispatch(content: SdContent, clock: nat -> int): seq<Event> {
    seq(|content.entries|, i requires 0 <= i < |content.entries| =>
        Receive(content.entries[i], content.options, clock(i)))
  }

  // ----- The object -----

  method CollectPeers(options: seq<SdOption>) returns (peers: seq<Peer>)
    ensures peers == PeersOf(options)
  {
    peers := [];
    for i := 0 to |options|
      invariant peers == PeersOf(options[..i])
    {
      assert options[..i + 1][..i] == options[..i];
      var opt := options[i];
      if opt.Endpoint? {
        peers := peers + [Peer(opt.address, opt.port, opt.protocol)];
      }
    }
    assert options[..|options|] == options;
  }

  /** `remove_if` with its erase: one pass that keeps the others in order. */
  method RemovePending(pending: seq<PendingSubscription>, group: GroupKey)
    returns (kept: seq<PendingSubscription>)
    ensures kept == Without(pending, group)
  {
    kept := [];
    for i := 0 to |pending|
      invariant kept == Without(pending[..i], group)
    {
      assert pending[..i + 1][..i] == pending[..i];
      if pending[i].key != group {
        kept := kept + [pending[i]];
      }
    }
    assert pending[..|pending|] == pending;
  }

  method AddSubscribers(known: seq<Peer>, arrived: seq<Peer>) returns (subscribers: seq<Peer>)
    ensures subscribers == AddPeers(known, arrived)
  {
    subscribers := known;
    for i := 0 to |arrived|
      invariant subscribers == AddPeers(known, arrived[..i])
    {
      assert arrived[..i + 1][..i] == arrived[..i];
      if arrived[i] !in subscribers {
        subscribers := subscribers + [arrived[i]];
      }
    }
    assert arrived[..|arrived|] == arrived;
  }

  class ServiceDiscovery {
    const localAddress: seq<Byte>
    const hasTcpPort: bool
    const subscriptionHandler: Acceptor

    var localServices: map<ServiceKey, ServiceInfo>
    var discoveredServices: map<ServiceKey, ServiceInfo>
    var eventgroups: map<GroupKey, EventgroupInfo>
    var pendingSubscriptions: seq<PendingSubscription>
    /** What the availability handler was told. */
    var notices: seq<Notice>

    function Now(): State
      reads this
    {
      State(localServices, discoveredServices, eventgroups, pendingSubscriptions, notices)
    }

    constructor (localAddress: seq<Byte>, hasTcpPort: bool, subscriptionHandler: Acceptor)
      ensures Now() == EMPTY
      ensures this.localAddress == localAddress && this.hasTcpPort == hasTcpPort
      ensures this.subscriptionHandler == subscriptionHandler
    {
      this.localAddress, this.hasTcpPort, this.subscriptionHandler := localAddress, hasTcpPort, subscriptionHandler;
      localServices, discoveredServices, eventgroups := map[], map[], map[];
      pendingSubscriptions, notices := [], [];
    }

    method OfferLocal(config: ServiceConfig, now: int)
      modifies this
      ensures Now() == Apply(subscriptionHandler, old(Now()),
                             OfferService(LocalInfo(config, localAddress, hasTcpPort, now)))
    {
      var info := ServiceInfo(config.key, config.majorVersion, config.minorVersion,
                              config.ttlMs % 0x1_0000_0000, now, [], true, true);
      if config.unreliable {
        info := info.(endpoints := info.endpoints + [Peer(localAddress, config.unreliablePort, UDP)]);
      }
      if config.reliable && hasTcpPort {
        info := info.(endpoints := info.endpoints + [Peer(localAddress, config.reliablePort, TCP)]);
      }
      localServices := localServices[info.key := info];
      assert info == LocalInfo(config, localAddress, hasTcpPort, now);
    }

    method StopOfferLocal(key: ServiceKey)
      modifies this
      ensures Now() == Apply(subscriptionHandler, old(Now()), StopOfferService(key))
    {
      if key in localServices {
        localServices := localServices - {key};
      } else {
        assert localServices - {key} == localServices;
      }
    }

    method SubscribeGroup(group: GroupKey, now: int) returns (ok: bool)
      modifies this
      ensures ok
      ensures Now() == Apply(subscriptionHandler, old(Now()), SubscribeEventgroup(group, now))
    {
      pendingSubscriptions := pendingSubscriptions + [PendingSubscription(group, now)];
      return true;
    }

    method UnsubscribeGroup(group: GroupKey)
      modifies this
      ensures Now() == Apply(subscriptionHandler, old(Now()), UnsubscribeEventgroup(group))
    {
      pendingSubscriptions := RemovePending(pendingSubscriptions, group);
    }

    method OfferGroup(group: GroupKey, endpoints: seq<Peer>)
      modifies this
      ensures Now() == Apply(subscriptionHandler, old(Now()), OfferEventgroup(group, endpoints))
    {
      eventgroups := eventgroups[group := EventgroupInfo(None, endpoints, [])];
    }

    method StopOfferGroup(group: GroupKey)
      modifies this
      ensures Now() == Apply(subscriptionHandler, old(Now()), StopOfferEventgroup(group))
    {
      eventgroups := eventgroups - {group};
    }

    method GetSubscribers(group: GroupKey) returns (subscribers: seq<Peer>)
      ensures subscribers == GroupOrNew(eventgroups, group).subscribers
    {
      if group in eventgroups {
        return eventgroups[group].subscribers;
      }
      return [];
    }

    /** The endpoints a request to the service is sent to. */
    method GetServiceEndpoints(key: ServiceKey) returns (endpoints: seq<Peer>)
      ensures endpoints == if key in discoveredServices then discoveredServices[key].endpoints else []
    {
      if key in discoveredServices {
        return discoveredServices[key].endpoints;
      }
      return [];
    }

    method HandleOffer(entry: Entry, options: seq<SdOption>, now: int)
      requires entry.entryType == OFFER_SERVICE
      modifies this
      ensures Now() == Apply(subscriptionHandler, old(Now()), Receive(entry, options, now))
    {
      var peers := CollectPeers(options);
      var key := ServiceKey(entry.serviceId, entry.instanceId);
      var info := ServiceInfo(key, entry.majorVersion, entry.minorVersion, entry.ttl, now, peers, entry.ttl > 0, false);
      discoveredServices := discoveredServices[info.key := info];
      if entry.ttl > 0 {
        notices := notices + [Notice(info.key, true)];
      }
    }

    method HandleSubscribe(entry: Entry, options: seq<SdOption>, now: int)
      requires entry.entryType == SUBSCRIBE_EVENTGROUP
      modifies this
      ensures Now() == Apply(subscriptionHandler, old(Now()), Receive(entry, options, now))
    {
      var key := ServiceKey(entry.serviceId, entry.instanceId);
      if key !in localServices {
        return;
      }
      var peers := CollectPeers(options);
      var group := GroupKey(key, entry.EventgroupId());
      var subInfo := SubscriptionInfo(group, entry.majorVersion, entry.ttl, peers);
      var accepted := true;
      if subscriptionHandler.Some? {
        accepted := subscriptionHandler.value(subInfo);
      }
      if accepted {
        var info := GroupOrNew(eventgroups, group);
        info := info.(majorVersion := Some(entry.majorVersion));
        var subscribers := AddSubscribers(info.subscribers, peers);
        eventgroups := eventgroups[group := info.(subscribers := subscribers)];
      }
    }

    method HandleSubscribeAck(entry: Entry, options: seq<SdOption>, now: int)
      requires entry.entryType == SUBSCRIBE_EVENTGROUP_ACK
      modifies this
      ensures Now() == Apply(subscriptionHandler, old(Now()), Receive(entry, options, now))
    {
      var group := GroupKey(ServiceKey(entry.serviceId, entry.instanceId), entry.EventgroupId());
      pendingSubscriptions := RemovePending(pendingSubscriptions, group);
    }

    method ProcessSdMessage(payload: seq<Byte>, clock: nat -> int)
      modifies this
      ensures Now() == if Parse(payload).Some?
                       then ApplyAll(subscriptionHandler, old(Now()), Dispatch(Parse(payload).value, clock))
                       else old(Now())
    {
      var content := ParseSdMessage(payload);
      if content == None {
        return;
      }
      var entries, options := content.value.entries, content.value.options;
      ghost var events := Dispatch(content.value, clock);
      for i := 0 to |entries|
        invariant Now() == ApplyAll(subscriptionHandler, old(Now()), events[..i])
      {
        assert events[..i + 1][..i] == events[..i];
        var entry := entries[i];
        var now := clock(i);
        if entry.entryType == OFFER_SERVICE {
          HandleOffer(entry, options, now);
        } else if entry.entryType == SUBSCRIBE_EVENTGROUP {
          HandleSubscribe(entry, options, now);
        } else if entry.entryType == SUBSCRIBE_EVENTGROUP_ACK {
          HandleSubscribeAck(entry, options, now);
        }
      }
      assert events[..|entries|] == events;
    }

    method CheckTtlExpiration(now: int)
      modifies this
      ensures Now() == Apply(subscriptionHandler, old(Now()), CheckTtl(now))
    {
      ghost var before := discoveredServices;
      var rest := discoveredServices.Keys;
      while rest != {}
        invariant rest <= before.Keys
        invariant discoveredServices == map k | k in before && (k in rest || !TtlExpired(before[k], now)) :: before[k]
        invariant notices + SweepNotices(before, rest, now) == old(notices) + SweepNotices(before, before.Keys, now)
        invariant localServices == old(localServices) && eventgroups == old(eventgroups)
        invariant pendingSubscriptions == old(pendingSubscriptions)
        decreases rest
      {
        var key := LeastKey(rest);
        var info := discoveredServices[key];
        if TtlExpired(info, now) {
          notices := notices + [Notice(info.key, false)];
          discoveredServices := discoveredServices - {key};
        }
        rest := rest - {key};
      }
    }
  }
}
