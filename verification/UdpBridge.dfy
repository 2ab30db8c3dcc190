/** The session table as objects: `main` of src/udp2redis.cpp with its map from addresses to
    proxies on the heap, refining the state machine of `Sessions`. */
module UdpBridges {
  import opened Words
  import opened ByteStrings
  import opened UdpAddresses
  import opened Sessions

  class RedisProxy {
    const id: nat
    const peer: UdpAddress // captured by the reply callback
    var toRedis: seq<Bytes>
    var handled: seq<Bytes>
    var lastMessage: UInt64
    ghost const born: nat

    constructor (id: nat, peer: UdpAddress, ghost born: nat)
      ensures View() == Proxy(id, peer, [], [], 0, born)
    {
      this.id, this.peer, this.born := id, peer, born;
      toRedis, handled, lastMessage := [], [], 0;
    }

    ghost function View(): Proxy
      reads this
    {
      Proxy(id, peer, toRedis, handled, lastMessage, born)
    }

    /** `toRedis().on(payload)` */
    method Enqueue(payload: Bytes)
      modifies this
      ensures View() == old(View()).(queue := old(toRedis) + [payload])
    {
      toRedis := toRedis + [payload];
    }

    /** The worker thread takes the oldest message from the queue and runs its subscribers. */
    method Dispatch(now: UInt64)
      modifies this
      ensures View() == DispatchOne(old(View()), now)
    {
      if |toRedis| > 0 {
        handled := handled + [toRedis[0]];
        toRedis := toRedis[1..];
        lastMessage := now;
      }
    }
  }

  class UdpBridge {
    const config: Config
    var clients: map<UdpAddress, RedisProxy>
    var nextId: nat
    var now: UInt64
    var sent: seq<UdpMsg>
    ghost var owners: seq<UdpAddress>
    ghost var senders: seq<nat>
    ghost var deleted: multiset<nat>
    ghost var lastTick: UInt64

    ghost var history: seq<Event>

    /** No proxy is filed under two addresses. */
    ghost predicate Distinct()
      reads `clients
    {
      forall a, b :: a in clients && b in clients && clients[a] == clients[b] ==> a == b
    }

    ghost function Proxies(): map<UdpAddress, Proxy>
      reads `clients, clients.Values
    {
      map a | a in clients :: clients[a].View()
    }

    ghost function State(): Sessions.State
      reads this, clients.Values
    {
      Sessions.State(Proxies(), nextId, now, sent, owners, senders, deleted, lastTick, |history|)
    }

    constructor (config: Config)
      ensures Valid() && history == [] && this.config == config
    {
      this.config := config;
      clients, nextId, now, sent := map[], 0, 0, [];
      owners, senders, deleted, lastTick, history := [], [], multiset{}, 0, [];
      new;
      assert Proxies() == map[];
    }

    /** The client's proxy, created if there is none. */
    method FindOrCreate(src: UdpAddress) returns (redisProxy: RedisProxy)
      requires Distinct()
      modifies `clients, `nextId, `owners
      ensures Distinct() && src in clients && redisProxy == clients[src]
      ensures clients == if src in old(clients) then old(clients) else old(clients)[src := redisProxy]
      ensures src in old(clients) || fresh(redisProxy)
      ensures State() == Found(old(State()), src)
    {
      ghost var before := State();
      if src in clients {
        redisProxy := clients[src];
        assert Proxies() == before.clients;
      } else {
        redisProxy := new RedisProxy(nextId, src, |history|);
        nextId := nextId + 1;
        owners := owners + [src];
        clients := clients[src := redisProxy];
        assert Proxies() == before.clients[src := Proxy(nextId - 1, src, [], [], 0, |history|)];
      }
    }

    /** The handler of `udpServer.recv()`. */
    method OnDatagram(src: UdpAddress, payload: Bytes)
      requires Distinct()
      modifies `clients, `nextId, `owners, clients.Values
      ensures Distinct() && State() == Act(config, old(State()), Datagram(src, payload))
    {
      var redisProxy := FindOrCreate(src);
      ghost var found := State();
      redisProxy.Enqueue(payload);
      ghost var p := found.clients[src];
      assert Proxies() == found.clients[src := p.(queue := p.queue + [payload])];
      assert State() == found.(clients := Proxies());
    }

    method OnDispatch(a: UdpAddress)
      requires Distinct()
      modifies clients.Values
      ensures Distinct() && State() == Act(config, old(State()), Event.Dispatch(a))
    {
      ghost var before := State();
      if a in clients {
        clients[a].Dispatch(now);
        assert Proxies() == before.clients[a := DispatchOne(before.clients[a], now)];
      }
    }

    /** The callback on the `fromRedis()` of the proxy with this number. */
    method OnReply(id: nat, bs: Bytes)
      requires Distinct() && DistinctIds(Proxies())
      modifies `sent, `senders
      ensures Distinct() && State() == Act(config, old(State()), Reply(id, bs))
    {
      ghost var before := State();
      if a :| a in clients && clients[a].id == id {
        assert before.clients[a].id == id;
        sent := sent + [UdpMsg(config.server, clients[a].peer, bs)];
        senders := senders + [id];
      } else {
        assert forall a :: a in clients ==> before.clients[a].id != id;
      }
      assert Proxies() == before.clients;
    }

    method OnClock(time: UInt64)
      requires Distinct()
      modifies `now
      ensures Distinct() && State() == Act(config, old(State()), Clock(time))
    {
      ghost var before := State();
      if time > now {
        now := time;
      }
      assert Proxies() == before.clients;
    }

    /** The first of these keys in the order of the map; `end` if there are none. */
    method First(keys: set<UdpAddress>) returns (itr: UdpAddress, end: bool)
      ensures end <==> keys == {}
      ensures !end ==> IsFirst(itr, keys)
    {
      end := keys == {};
      itr := UdpAddress([0, 0, 0, 0], 0);
      if !end {
        ghost var k := FirstExists(keys);
        assert IsFirst(k, keys);
        itr :| itr in keys && IsFirst(itr, keys);
      }
    }

    /** The body of the sweep's loop, but for the iterator. */
    method Visit(itr: UdpAddress, ghost p: Proxy)
      requires itr in clients && clients[itr].View() == p
      modifies `clients, `deleted
      ensures clients == old(clients) - Toll(config, now, itr, p)
      ensures deleted == old(deleted) + multiset(TollIds(config, now, p))
    {
      var proxy := clients[itr];
      if Inactivity(now, proxy.lastMessage) > config.timeout {
        clients := clients - {itr};
        deleted := deleted + multiset{proxy.id};
      }
    }

    /** In the middle of the sweep: `rest` is not yet visited, `gone` erased. */
    ghost predicate InSweep(all: map<UdpAddress, RedisProxy>, was: map<UdpAddress, Proxy>, before: multiset<nat>,
                            rest: set<UdpAddress>, gone: set<UdpAddress>)
      reads this
    {
      && Swept(config, now, was, rest, gone)
      && clients == all - gone
      && deleted == before + multiset(IdsOf(was, gone))
    }

    /** One turn of the loop. Erasing an entry or stepping past it leaves the iterator on the next
        key of the map. */
    method VisitOne(itr: UdpAddress, ghost all: map<UdpAddress, RedisProxy>, ghost was: map<UdpAddress, Proxy>,
                    ghost before: multiset<nat>, ghost rest: set<UdpAddress>, ghost gone: set<UdpAddress>)
      returns (ghost gone': set<UdpAddress>)
      requires InSweep(all, was, before, rest, gone) && IsFirst(itr, rest) && DistinctIds(was)
      requires all.Keys == was.Keys && all[itr].View() == was[itr]
      modifies `clients, `deleted
      ensures InSweep(all, was, before, rest - {itr}, gone')
      ensures KeysAfter(clients.Keys, itr) == rest - {itr}
    {
      ghost var toll := Toll(config, now, itr, was[itr]);
      gone' := gone + toll;
      SweptOneMore(config, now, was, rest, gone, itr);
      RemoveMore(all, gone, toll);
      Visit(itr, was[itr]);
      assert clients == all - gone';
    }

    /** The loop of the timer's sweep: it walks the map in key order. */
    method EraseExpired(ghost was: map<UdpAddress, Proxy>)
      requires was == Proxies() && DistinctIds(was)
      modifies `clients, `deleted
      ensures clients == old(clients) - ExpiredKeys(config, now, was)
      ensures deleted == old(deleted) + multiset(IdsOf(was, ExpiredKeys(config, now, was)))
    {
      ghost var all, before := clients, deleted;
      ghost var rest, gone := clients.Keys, {};
      var itr, end := First(clients.Keys);
      while !end
        invariant end <==> rest == {}
        invariant !end ==> IsFirst(itr, rest)
        invariant InSweep(all, was, before, rest, gone)
        decreases rest
      {
        gone := VisitOne(itr, all, was, before, rest, gone);
        rest := rest - {itr};
        itr, end := First(KeysAfter(clients.Keys, itr));
      }
      assert gone == ExpiredKeys(config, now, was);
    }

    method SweepClients()
      requires Distinct() && DistinctIds(Proxies())
      modifies `clients, `deleted
      ensures Distinct()
      ensures State() == old(State()).(clients := Spared(config, now, old(Proxies())),
                                       deleted := old(deleted) + multiset(ExpiredIds(config, old(State()))))
    {
      ghost var before := State();
      EraseExpired(before.clients);
      ExpiredKeysIds(config, before);
      assert Proxies() == Spared(config, now, before.clients);
    }

    /** The timer's callback. */
    method OnTick()
      requires Distinct() && DistinctIds(Proxies())
      modifies `clients, `deleted, `lastTick
      ensures Distinct() && State() == Act(config, old(State()), Tick)
    {
      SweepClients();
      ghost var swept := State();
      lastTick := now;
      assert Proxies() == swept.clients;
    }

    /** The bridge is where the state machine would be after the same events. */
    ghost predicate Valid()
      reads this, clients.Values
    {
      Distinct() && State() == Run(config, INITIAL, history)
    }

    method Process(e: Event)
      requires Distinct() && DistinctIds(Proxies())
      modifies `clients, `nextId, `now, `sent, `owners, `senders, `deleted, `lastTick, clients.Values
      ensures Distinct() && State() == Act(config, old(State()), e)
    {
      match e {
        case Datagram(src, payload) => OnDatagram(src, payload);
        case Dispatch(client) => OnDispatch(client);
        case Reply(id, payload) => OnReply(id, payload);
        case Clock(time) => OnClock(time);
        case Tick => OnTick();
      }
    }

    /** The worker thread: one event after the other. */
    method Handle(e: Event)
      requires Valid()
      modifies this, clients.Values
      ensures Valid() && history == old(history) + [e]
      ensures State() == Step(config, old(State()), e)
    {
      AlwaysDistinct(config, history);
      OneMoreEvent(config, history, e);
      Process(e);
      history := history + [e];
    }
  }

  // ----- the steps of the sweep

  ghost predicate AllBefore(done: set<UdpAddress>, rest: set<UdpAddress>) {
    forall a, b :: a in done && b in rest ==> Less(SignOnly, a, b)
  }

  ghost predicate DistinctIds(proxies: map<UdpAddress, Proxy>) {
    forall a, b :: a in proxies && b in proxies && proxies[a].id == proxies[b].id ==> a == b
  }

  ghost function IdsOf(proxies: map<UdpAddress, Proxy>, keys: set<UdpAddress>): set<nat> {
    set a | a in keys && a in proxies :: proxies[a].id
  }

  lemma IdsOfOneMore(proxies: map<UdpAddress, Proxy>, keys: set<UdpAddress>, k: UdpAddress)
    requires k in proxies && k !in keys && keys <= proxies.Keys
    requires DistinctIds(proxies)
    ensures multiset(IdsOf(proxies, keys + {k})) == multiset(IdsOf(proxies, keys)) + multiset{proxies[k].id}
  {
  }

  function KeysAfter(keys: set<UdpAddress>, here: UdpAddress): set<UdpAddress> {
    set x | x in keys && Less(SignOnly, here, x)
  }

  ghost function ExpiredKeys(c: Config, now: UInt64, clients: map<UdpAddress, Proxy>): set<UdpAddress> {
    set a | a in clients && Expired(c, now, clients[a])
  }

  lemma ExpiredKeysIds(c: Config, s: Sessions.State)
    ensures IdsOf(s.clients, ExpiredKeys(c, s.now, s.clients)) == ExpiredIds(c, s)
  {
  }

  /** The keys after the current one are those still to be visited. */
  lemma NextIsRest(keys: set<UdpAddress>, rest: set<UdpAddress>, here: UdpAddress)
    requires IsFirst(here, rest) && rest - {here} <= keys && AllBefore(keys - rest, rest)
    ensures KeysAfter(keys, here) == rest - {here}
  {
    forall x | x in keys && Less(SignOnly, here, x)
      ensures x in rest - {here}
    {
      TotalOrder(here, x, here);
    }
  }

  /** Of the clients visited so far, all earlier in key order than the rest, the expired ones
      and only they are gone. */
  ghost predicate Swept(c: Config, now: UInt64, was: map<UdpAddress, Proxy>,
                        rest: set<UdpAddress>, gone: set<UdpAddress>) {
    && rest <= was.Keys && gone <= was.Keys && gone !! rest
    && AllBefore(was.Keys - rest, rest)
    && forall a :: a in was && a !in rest ==> (a in gone <==> Expired(c, now, was[a]))
  }

  /** What visiting a client removes from the map, and what it destroys. */
  ghost function Toll(c: Config, now: UInt64, here: UdpAddress, p: Proxy): set<UdpAddress> {
    if Expired(c, now, p) then {here} else {}
  }

  ghost function TollIds(c: Config, now: UInt64, p: Proxy): set<nat> {
    if Expired(c, now, p) then {p.id} else {}
  }

  lemma SweptOneMore(c: Config, now: UInt64, was: map<UdpAddress, Proxy>,
                     rest: set<UdpAddress>, gone: set<UdpAddress>, here: UdpAddress)
    requires Swept(c, now, was, rest, gone) && IsFirst(here, rest) && DistinctIds(was)
    ensures Swept(c, now, was, rest - {here}, gone + Toll(c, now, here, was[here]))
    ensures multiset(IdsOf(was, gone + Toll(c, now, here, was[here])))
         == multiset(IdsOf(was, gone)) + multiset(TollIds(c, now, was[here]))
    ensures KeysAfter(was.Keys - (gone + Toll(c, now, here, was[here])), here) == rest - {here}
  {
    NextIsRest(was.Keys - (gone + Toll(c, now, here, was[here])), rest, here);
    if Expired(c, now, was[here]) {
      IdsOfOneMore(was, gone, here);
    } else {
      assert gone + {} == gone;
    }
  }

  lemma RemoveMore<K, V>(m: map<K, V>, gone: set<K>, more: set<K>)
    ensures (m - gone) - more == m - (gone + more)
    ensures (m - (gone + more)).Keys == m.Keys - (gone + more)
  {
  }

  lemma AlwaysDistinct(c: Config, events: seq<Event>)
    ensures DistinctIds(Run(c, INITIAL, events).clients) && Run(c, INITIAL, events).steps == |events|
  {
    RunKeepsInv(c, INITIAL, events);
  }

  lemma OneMoreEvent(c: Config, events: seq<Event>, e: Event)
    ensures Run(c, INITIAL, events + [e]) == Step(c, Run(c, INITIAL, events), e)
  {
    var more := events + [e];
    RunLast(c, INITIAL, more);
    assert more[..|more| - 1] == events;
  }
}
