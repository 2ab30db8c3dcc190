/** The session table of the UDP bridge (src/udp2redis.cpp) as a state machine. */
module Sessions {
  import opened Words
  import opened Options
  import opened ByteStrings
  import opened UdpAddresses

  datatype UdpMsg = UdpMsg(src: UdpAddress, dst: UdpAddress, payload: Bytes)

  /** One client's proxy. `peer` is the address its reply callback captured, `queue` what waits
      in `toRedis`, `handled` what has been dispatched from there, and `born` the number of the
      step that created it. */
  datatype Proxy = Proxy(id: nat, peer: UdpAddress, queue: seq<Bytes>, handled: seq<Bytes>,
                         lastMessage: UInt64, born: nat)

  /** Beside what the program keeps: `owners` has the client each proxy ever was created for,
      `senders` the proxy whose callback sent each message, `deleted` counts the destructions of
      each proxy, `lastTick` is when the timer last fired. */
  datatype State = State(clients: map<UdpAddress, Proxy>, nextId: nat, now: UInt64, sent: seq<UdpMsg>,
                         owners: seq<UdpAddress>, senders: seq<nat>,
                         deleted: multiset<nat>, lastTick: UInt64, steps: nat)

  datatype Config = Config(server: UdpAddress, timeout: UInt32)

  datatype Event =
    | Datagram(src: UdpAddress, payload: Bytes) // received from the socket
    | Dispatch(client: UdpAddress)              // the worker thread empties one entry of a queue
    | Reply(id: nat, payload: Bytes)            // Redis answers a proxy
    | Clock(time: UInt64)                       // the clock has advanced; it never goes back
    | Tick                                      // the sweep

  const INITIAL := State(map[], 0, 0, [], [], [], multiset{}, 0, 0)

  /** `Sys::millis() - _lastMessage` in `uint64_t`. */
  function Inactivity(now: UInt64, lastMessage: UInt64): UInt64 {
    if lastMessage <= now then now - lastMessage else now + 0x1_0000_0000_0000_0000 - lastMessage
  }

  predicate Expired(c: Config, now: UInt64, p: Proxy) {
    Inactivity(now, p.lastMessage) > c.timeout
  }

  function Spared(c: Config, now: UInt64, clients: map<UdpAddress, Proxy>): map<UdpAddress, Proxy> {
    map a | a in clients && !Expired(c, now, clients[a]) :: clients[a]
  }

  function ExpiredIds(c: Config, s: State): set<nat> {
    set a | a in s.clients && Expired(c, s.now, s.clients[a]) :: s.clients[a].id
  }

  /** The client has a proxy: a new one, if it had none. */
  function Found(s: State, src: UdpAddress): State {
    if src in s.clients then s
    else s.(clients := s.clients[src := Proxy(s.nextId, src, [], [], 0, s.steps)],
            nextId := s.nextId + 1, owners := s.owners + [src])
  }

  function Receive(s: State, src: UdpAddress, payload: Bytes): State {
    var t := Found(s, src);
    var p := t.clients[src];
    t.(clients := t.clients[src := p.(queue := p.queue + [payload])])
  }

  function DispatchOne(p: Proxy, now: UInt64): Proxy {
    if p.queue == [] then p
    else p.(queue := p.queue[1..], handled := p.handled + [p.queue[0]], lastMessage := now)
  }

  function Sweep(c: Config, s: State): State {
    s.(clients := Spared(c, s.now, s.clients),
       deleted := s.deleted + multiset(ExpiredIds(c, s)),
       lastTick := s.now)
  }

  /** Where the proxy is filed, as long as it lives. */
  ghost function Home(clients: map<UdpAddress, Proxy>, id: nat): (home: Option<UdpAddress>)
    ensures home.Some? ==> home.value in clients && clients[home.value].id == id
    ensures home.None? ==> forall a :: a in clients ==> clients[a].id != id
  {
    if exists a :: a in clients && clients[a].id == id then
      var a :| a in clients && clients[a].id == id;
      Some(a)
    else None
  }

  ghost function Answer(c: Config, s: State, id: nat, payload: Bytes): State {
    match Home(s.clients, id)
    case Some(a) =>
      s.(sent := s.sent + [UdpMsg(c.server, s.clients[a].peer, payload)], senders := s.senders + [id])
    case None => s
  }

  ghost function Act(c: Config, s: State, e: Event): State {
    match e
    case Datagram(src, payload) => Receive(s, src, payload)
    case Dispatch(a) =>
      if a in s.clients then s.(clients := s.clients[a := DispatchOne(s.clients[a], s.now)]) else s
    case Reply(id, payload) => Answer(c, s, id, payload)
    case Clock(t) => if t > s.now then s.(now := t) else s
    case Tick => Sweep(c, s)
  }

  ghost function Step(c: Config, s: State, e: Event): State {
    Act(c, s, e).(steps := s.steps + 1)
  }

  ghost function Run(c: Config, s: State, events: seq<Event>): State
    decreases |events|
  {
    if events == [] then s else Run(c, Step(c, s, events[0]), events[1..])
  }

  lemma {:induction false} RunAppend(c: Config, s: State, a: seq<Event>, b: seq<Event>)
    ensures Run(c, s, a + b) == Run(c, Run(c, s, a), b)
    decreases |a|
  {
    if a == [] {
      assert a + b == b;
    } else {
      assert (a + b)[1..] == a[1..] + b;
      RunAppend(c, Step(c, s, a[0]), a[1..], b);
    }
  }

  lemma RunLast(c: Config, s: State, events: seq<Event>)
    requires events != []
    ensures Run(c, s, events) == Step(c, Run(c, s, events[..|events| - 1]), events[|events| - 1])
  {
    assert events == events[..|events| - 1] + [events[|events| - 1]];
    RunAppend(c, s, events[..|events| - 1], [events[|events| - 1]]);
  }

  // ----- what every step keeps

  predicate GoodProxy(s: State, a: UdpAddress, p: Proxy) {
    && p.peer == a && p.id < s.nextId && p.lastMessage <= s.now && p.id !in s.deleted && p.born < s.steps
    && p.id < |s.owners| && s.owners[p.id] == a
  }

  /** Every message went to the client its sender was created for. */
  ghost predicate SentHome(c: Config, s: State) {
    && |s.senders| == |s.sent|
    && forall k :: 0 <= k < |s.sent| ==>
         s.senders[k] < |s.owners| && s.sent[k].src == c.server && s.sent[k].dst == s.owners[s.senders[k]]
  }

  /** No two addresses share a proxy, every proxy answers to the address it was created for and
      is filed under, no proxy is destroyed twice or used after that, and no message is younger
      than the clock. */
  ghost predicate Inv(c: Config, s: State) {
    && (forall a :: a in s.clients ==> GoodProxy(s, a, s.clients[a]))
    && (forall a, b :: a in s.clients && b in s.clients && s.clients[a].id == s.clients[b].id ==> a == b)
    && (forall i :: i in s.deleted ==> i < s.nextId && s.deleted[i] == 1)
    && SentHome(c, s)
    && |s.owners| == s.nextId
    && s.lastTick <= s.now
  }

  lemma ReceiveKeepsInv(c: Config, s: State, src: UdpAddress, payload: Bytes)
    requires Inv(c, s)
    ensures Inv(c, Step(c, s, Datagram(src, payload)))
  {
    var t := Step(c, s, Datagram(src, payload));
    forall a | a in t.clients
      ensures GoodProxy(t, a, t.clients[a])
    {
      if a in s.clients {
        assert GoodProxy(s, a, s.clients[a]);
      }
    }
    forall a, b | a in t.clients && b in t.clients && t.clients[a].id == t.clients[b].id
      ensures a == b
    {
      assert a in s.clients ==> GoodProxy(s, a, s.clients[a]);
      assert b in s.clients ==> GoodProxy(s, b, s.clients[b]);
    }
  }

  lemma DispatchKeepsInv(c: Config, s: State, client: UdpAddress)
    requires Inv(c, s)
    ensures Inv(c, Step(c, s, Dispatch(client)))
  {
    var t := Step(c, s, Dispatch(client));
    forall a | a in t.clients
      ensures GoodProxy(t, a, t.clients[a])
    {
      assert GoodProxy(s, a, s.clients[a]);
    }
  }

  lemma SweepKeepsInv(c: Config, s: State)
    requires Inv(c, s)
    ensures Inv(c, Step(c, s, Tick))
  {
    var t, gone := Step(c, s, Tick), ExpiredIds(c, s);
    forall i | i in t.deleted
      ensures i < t.nextId && t.deleted[i] == 1
    {
      if i in gone {
        var b :| b in s.clients && Expired(c, s.now, s.clients[b]) && s.clients[b].id == i;
        assert GoodProxy(s, b, s.clients[b]);
      }
    }
    forall a | a in t.clients
      ensures GoodProxy(t, a, t.clients[a])
    {
      assert GoodProxy(s, a, s.clients[a]);
    }
  }

  lemma StepKeepsInv(c: Config, s: State, e: Event)
    requires Inv(c, s)
    ensures Inv(c, Step(c, s, e))
  {
    match e
    case Datagram(src, payload) => ReceiveKeepsInv(c, s, src, payload);
    case Dispatch(a) => DispatchKeepsInv(c, s, a);
    case Tick => SweepKeepsInv(c, s);
    case Reply(id, payload) => ReplyKeepsInv(c, s, id, payload);
    case Clock(time) => ClockKeepsInv(c, s, time);
  }

  lemma ReplyKeepsInv(c: Config, s: State, id: nat, payload: Bytes)
    requires Inv(c, s)
    ensures Inv(c, Step(c, s, Reply(id, payload)))
  {
    var t := Step(c, s, Reply(id, payload));
    assert t.clients == s.clients && t.deleted == s.deleted && t.nextId == s.nextId && t.owners == s.owners;
    forall a | a in t.clients
      ensures GoodProxy(t, a, t.clients[a])
    {
      assert GoodProxy(s, a, s.clients[a]);
    }
  }

  lemma ClockKeepsInv(c: Config, s: State, time: UInt64)
    requires Inv(c, s)
    ensures Inv(c, Step(c, s, Clock(time)))
  {
    var t := Step(c, s, Clock(time));
    forall a | a in t.clients
      ensures GoodProxy(t, a, t.clients[a])
    {
      assert GoodProxy(s, a, s.clients[a]);
    }
  }

  lemma {:induction false} RunKeepsInv(c: Config, s: State, events: seq<Event>)
    requires Inv(c, s)
    ensures Inv(c, Run(c, s, events))
    ensures Run(c, s, events).steps == s.steps + |events|
    decreases |events|
  {
    if events != [] {
      StepKeepsInv(c, s, events[0]);
      RunKeepsInv(c, Step(c, s, events[0]), events[1..]);
    }
  }
}
