/** What the session table guarantees over whole runs: isolation, delivery order, and which
    clients the sweep removes and when. `memcmp` is taken to return signs, so that the keys of
    the table are told apart exactly if they differ (`UdpAddresses.TotalOrder`). */
module SessionLaws {
  import opened Words
  import opened ByteStrings
  import opened Folds
  import opened UdpAddresses
  import opened Sessions

  /** From the start of the program every run keeps the invariant. */
  lemma Reachable(c: Config, events: seq<Event>)
    ensures Inv(c, Run(c, INITIAL, events))
    ensures Run(c, INITIAL, events).steps == |events|
  {
    RunKeepsInv(c, INITIAL, events);
  }

  // ----- replies

  /** What the callback of this proxy has sent. */
  function PayloadsVia(sent: seq<UdpMsg>, senders: seq<nat>, id: nat): seq<Bytes>
    requires |sent| == |senders|
  {
    if sent == [] then []
    else (if senders[0] == id then [sent[0].payload] else []) + PayloadsVia(sent[1..], senders[1..], id)
  }

  /** What Redis answers to this proxy in this event, if it lives. */
  ghost function AnswerTo(s: State, e: Event, id: nat): seq<Bytes> {
    if e.Reply? && e.id == id && Home(s.clients, id).Some? then [e.payload] else []
  }

  ghost function AnswersTo(c: Config, s: State, events: seq<Event>, id: nat): seq<Bytes>
    decreases |events|
  {
    if events == [] then [] else AnswerTo(s, events[0], id) + AnswersTo(c, Step(c, s, events[0]), events[1..], id)
  }

  lemma {:induction false} PayloadsViaSnoc(sent: seq<UdpMsg>, senders: seq<nat>, m: UdpMsg, via: nat, id: nat)
    requires |sent| == |senders|
    ensures PayloadsVia(sent + [m], senders + [via], id)
         == PayloadsVia(sent, senders, id) + if via == id then [m.payload] else []
    decreases |sent|
  {
    if sent == [] {
      assert sent + [m] == [m] && senders + [via] == [via];
      assert PayloadsVia([m], [via], id) == (if via == id then [m.payload] else []) + PayloadsVia([], [], id);
    } else {
      assert (sent + [m])[1..] == sent[1..] + [m] && (senders + [via])[1..] == senders[1..] + [via];
      PayloadsViaSnoc(sent[1..], senders[1..], m, via, id);
    }
  }

  /** Only an answer to a living proxy makes anything go out. */
  lemma SentStep(c: Config, s: State, e: Event)
    requires Inv(c, s)
    ensures var t := Step(c, s, e);
      if e.Reply? && Home(s.clients, e.id).Some? then
        var a := Home(s.clients, e.id).value;
        s.clients[a].peer == a && t.sent == s.sent + [UdpMsg(c.server, a, e.payload)] && t.senders == s.senders + [e.id]
      else t.sent == s.sent && t.senders == s.senders
    ensures s.owners <= Step(c, s, e).owners
  {
    if e.Reply? && Home(s.clients, e.id).Some? {
      var a := Home(s.clients, e.id).value;
      assert GoodProxy(s, a, s.clients[a]);
    }
  }

  lemma ReplyStep(c: Config, s: State, e: Event, id: nat)
    requires Inv(c, s)
    ensures |Step(c, s, e).sent| == |Step(c, s, e).senders|
    ensures PayloadsVia(Step(c, s, e).sent, Step(c, s, e).senders, id)
         == PayloadsVia(s.sent, s.senders, id) + AnswerTo(s, e, id)
    ensures s.owners <= Step(c, s, e).owners
  {
    SentStep(c, s, e);
    if e.Reply? && Home(s.clients, e.id).Some? {
      var m := UdpMsg(c.server, Home(s.clients, e.id).value, e.payload);
      PayloadsViaSnoc(s.sent, s.senders, m, e.id, id);
    }
  }

  /** Over any run a proxy's callback sends exactly what the proxy was answered while it lived,
      in order, and all of that to the one client it was created for. */
  lemma {:induction false} RepliesGoHome(c: Config, s: State, events: seq<Event>, id: nat)
    requires Inv(c, s)
    ensures var t := Run(c, s, events);
      && |t.sent| == |t.senders|
      && PayloadsVia(t.sent, t.senders, id) == PayloadsVia(s.sent, s.senders, id) + AnswersTo(c, s, events, id)
      && (forall k :: 0 <= k < |t.sent| && t.senders[k] == id ==> id < |t.owners| && t.sent[k].dst == t.owners[id])
      && s.owners <= t.owners
    decreases |events|
  {
    if events != [] {
      var next := Step(c, s, events[0]);
      ReplyStep(c, s, events[0], id);
      StepKeepsInv(c, s, events[0]);
      RepliesGoHome(c, next, events[1..], id);
      Associative(PayloadsVia(s.sent, s.senders, id), AnswerTo(s, events[0], id), AnswersTo(c, next, events[1..], id));
    }
  }

  function PayloadsTo(sent: seq<UdpMsg>, dst: UdpAddress): seq<Bytes> {
    if sent == [] then []
    else (if sent[0].dst == dst then [sent[0].payload] else []) + PayloadsTo(sent[1..], dst)
  }

  /** What Redis answers in this event to the proxy that client `a` has at the time. */
  ghost function AnswerFor(s: State, e: Event, a: UdpAddress): seq<Bytes> {
    if e.Reply? && a in s.clients && s.clients[a].id == e.id then [e.payload] else []
  }

  ghost function AnswersFor(c: Config, s: State, events: seq<Event>, a: UdpAddress): seq<Bytes>
    decreases |events|
  {
    if events == [] then [] else AnswerFor(s, events[0], a) + AnswersFor(c, Step(c, s, events[0]), events[1..], a)
  }

  lemma {:induction false} PayloadsToSnoc(sent: seq<UdpMsg>, m: UdpMsg, dst: UdpAddress)
    ensures PayloadsTo(sent + [m], dst) == PayloadsTo(sent, dst) + if m.dst == dst then [m.payload] else []
  {
    if sent == [] {
      assert sent + [m] == [m];
      assert PayloadsTo([m], dst) == (if m.dst == dst then [m.payload] else []) + PayloadsTo([], dst);
    } else {
      assert (sent + [m])[1..] == sent[1..] + [m];
      PayloadsToSnoc(sent[1..], m, dst);
    }
  }

  lemma ClientReplyStep(c: Config, s: State, e: Event, a: UdpAddress)
    requires Inv(c, s)
    ensures PayloadsTo(Step(c, s, e).sent, a) == PayloadsTo(s.sent, a) + AnswerFor(s, e, a)
  {
    SentStep(c, s, e);
    if e.Reply? && Home(s.clients, e.id).Some? {
      var b := Home(s.clients, e.id).value;
      PayloadsToSnoc(s.sent, UdpMsg(c.server, b, e.payload), a);
    }
  }

  /** So what is sent to a client, over all its proxies, is what the proxy it had at the time was
      answered, in order, and nothing else. */
  lemma {:induction false} ClientGetsItsAnswers(c: Config, s: State, events: seq<Event>, a: UdpAddress)
    requires Inv(c, s)
    ensures PayloadsTo(Run(c, s, events).sent, a) == PayloadsTo(s.sent, a) + AnswersFor(c, s, events, a)
    decreases |events|
  {
    if events != [] {
      var next := Step(c, s, events[0]);
      ClientReplyStep(c, s, events[0], a);
      StepKeepsInv(c, s, events[0]);
      ClientGetsItsAnswers(c, next, events[1..], a);
      Associative(PayloadsTo(s.sent, a), AnswerFor(s, events[0], a), AnswersFor(c, next, events[1..], a));
    }
  }

  // ----- requests

  function PayloadFrom(e: Event, a: UdpAddress): seq<Bytes> {
    if e.Datagram? && e.src == a then [e.payload] else []
  }

  function DatagramsFrom(events: seq<Event>, a: UdpAddress): seq<Bytes> {
    if events == [] then [] else PayloadFrom(events[0], a) + DatagramsFrom(events[1..], a)
  }

  function Accepted(p: Proxy): seq<Bytes> {
    p.handled + p.queue
  }

  lemma {:induction false} DatagramsFromAppend(v: seq<Event>, w: seq<Event>, a: UdpAddress)
    ensures DatagramsFrom(v + w, a) == DatagramsFrom(v, a) + DatagramsFrom(w, a)
  {
    if v == [] {
      assert v + w == w;
    } else {
      assert (v + w)[1..] == v[1..] + w;
      DatagramsFromAppend(v[1..], w, a);
    }
  }

  /** One step never swaps a proxy, and adds to it exactly the datagram of its own client. */
  lemma ClientStep(c: Config, s: State, e: Event, a: UdpAddress)
    requires a in Step(c, s, e).clients
    ensures a in s.clients ==>
      var p, q := s.clients[a], Step(c, s, e).clients[a];
      q.id == p.id && q.born == p.born && q.peer == p.peer && Accepted(q) == Accepted(p) + PayloadFrom(e, a)
    ensures a !in s.clients ==>
      e.Datagram? && e.src == a && Step(c, s, e).clients[a] == Proxy(s.nextId, a, [e.payload], [], 0, s.steps)
  {
    if a in s.clients {
      var p := s.clients[a];
      if e.Datagram? && e.src == a {
        assert p.handled + (p.queue + [e.payload]) == Accepted(p) + [e.payload];
      } else if e.Dispatch? && e.client == a && p.queue != [] {
        assert (p.handled + [p.queue[0]]) + p.queue[1..] == Accepted(p);
      }
    }
  }

  /** The proxy filed under `a` after these events: created by a datagram from `a` while `a` had
      none, there ever since, and given exactly the datagrams from `a` since then, in order. */
  ghost predicate ServedSinceBirth(c: Config, events: seq<Event>, a: UdpAddress)
    requires a in Run(c, INITIAL, events).clients
  {
    var p := Run(c, INITIAL, events).clients[a];
    && p.born < |events|
    && BornAt(c, events, a, p.born)
    && PresentSince(c, events, a, p.born, p.id)
    && Accepted(p) == DatagramsFrom(events[p.born..], a)
  }

  ghost predicate BornAt(c: Config, events: seq<Event>, a: UdpAddress, k: nat)
    requires k < |events|
  {
    events[k].Datagram? && events[k].src == a && a !in Run(c, INITIAL, events[..k]).clients
  }

  ghost predicate PresentSince(c: Config, events: seq<Event>, a: UdpAddress, born: nat, id: nat) {
    forall k :: born < k <= |events| ==> HasProxy(c, events[..k], a, id)
  }

  ghost predicate HasProxy(c: Config, events: seq<Event>, a: UdpAddress, id: nat) {
    var s := Run(c, INITIAL, events);
    a in s.clients && s.clients[a].id == id
  }

  lemma BornNow(c: Config, before: seq<Event>, e: Event, a: UdpAddress)
    requires a !in Run(c, INITIAL, before).clients && a in Run(c, INITIAL, before + [e]).clients
    ensures ServedSinceBirth(c, before + [e], a)
  {
    var events := before + [e];
    var p := Run(c, INITIAL, events).clients[a];
    RunLast(c, INITIAL, events);
    Reachable(c, before);
    assert events[..|before|] == before && events[..|events|] == events;
    ClientStep(c, Run(c, INITIAL, before), e, a);
    OneMoreDatagram(before, e, a, p.born);
    assert before[p.born..] == [];
  }

  lemma StillPresent(c: Config, before: seq<Event>, e: Event, a: UdpAddress, born: nat, id: nat)
    requires PresentSince(c, before, a, born, id) && HasProxy(c, before + [e], a, id)
    ensures PresentSince(c, before + [e], a, born, id)
  {
    var events := before + [e];
    assert events[..|events|] == events;
    forall k | born < k <= |events|
      ensures HasProxy(c, events[..k], a, id)
    {
      if k <= |before| {
        assert events[..k] == before[..k];
      }
    }
  }

  lemma OneMoreDatagram(before: seq<Event>, e: Event, a: UdpAddress, born: nat)
    requires born <= |before|
    ensures DatagramsFrom((before + [e])[born..], a) == DatagramsFrom(before[born..], a) + PayloadFrom(e, a)
  {
    assert (before + [e])[born..] == before[born..] + [e];
    DatagramsFromAppend(before[born..], [e], a);
    assert DatagramsFrom([e], a) == PayloadFrom(e, a) + DatagramsFrom([], a);
  }

  lemma StillServed(c: Config, before: seq<Event>, e: Event, a: UdpAddress)
    requires a in Run(c, INITIAL, before).clients && ServedSinceBirth(c, before, a)
    requires a in Run(c, INITIAL, before + [e]).clients
    ensures ServedSinceBirth(c, before + [e], a)
  {
    var events := before + [e];
    RunLast(c, INITIAL, events);
    assert events[..|events| - 1] == before;
    var p := Run(c, INITIAL, before).clients[a];
    ClientStep(c, Run(c, INITIAL, before), e, a);
    StillPresent(c, before, e, a, p.born, p.id);
    OneMoreDatagram(before, e, a, p.born);
    assert before[..p.born] == events[..p.born];
  }

  lemma {:induction false} DeliveredInOrder(c: Config, events: seq<Event>, a: UdpAddress)
    requires a in Run(c, INITIAL, events).clients
    ensures ServedSinceBirth(c, events, a)
    decreases |events|
  {
    var before, e := events[..|events| - 1], events[|events| - 1];
    assert events == before + [e];
    if a in Run(c, INITIAL, before).clients {
      DeliveredInOrder(c, before, a);
      StillServed(c, before, e, a);
    } else {
      BornNow(c, before, e, a);
    }
  }

  // ----- what has been handled

  /** In its k-th event the run dispatches a message of client `a`. */
  ghost predicate Dispatches(c: Config, events: seq<Event>, k: nat, a: UdpAddress)
    requires k < |events|
  {
    var s := Run(c, INITIAL, events[..k]);
    events[k] == Event.Dispatch(a) && a in s.clients && s.clients[a].queue != []
  }

  /** How many of the steps since number `born` dispatch a message of client `a`. */
  ghost function DispatchCount(c: Config, events: seq<Event>, a: UdpAddress, born: nat): nat
    decreases |events|
  {
    var n := |events| - 1;
    if n < born then 0
    else DispatchCount(c, events[..n], a, born) + if Dispatches(c, events, n, a) then 1 else 0
  }

  /** How many datagrams of `a` have been dispatched at the end of these events, counted from the
      events alone: a dispatch when none waits is for nothing. */
  function Served(events: seq<Event>, a: UdpAddress): nat
    decreases |events|
  {
    if events == [] then 0
    else
      var before, e := events[..|events| - 1], events[|events| - 1];
      var n := Served(before, a);
      if e == Event.Dispatch(a) && n < |DatagramsFrom(before, a)| then n + 1 else n
  }

  /** The first `n` messages of a list have been handled and the others wait. */
  predicate CutAt(p: Proxy, all: seq<Bytes>, n: nat) {
    n <= |all| && p.handled == all[..n] && p.queue == all[n..]
  }

  lemma CutStep(p: Proxy, all: seq<Bytes>, n: nat, m: Bytes, now: UInt64)
    requires CutAt(p, all, n)
    ensures CutAt(p.(queue := p.queue + [m]), all + [m], n)
    ensures CutAt(DispatchOne(p, now), all, if n < |all| then n + 1 else n)
  {
    assert n < |all| ==> all[..n] + [all[n]] == all[..n + 1] && all[n..][1..] == all[n + 1..];
  }

  lemma ServedOneMore(before: seq<Event>, e: Event, a: UdpAddress, born: nat)
    requires born <= |before|
    ensures var so, all := Served(before[born..], a), DatagramsFrom(before[born..], a);
      Served((before + [e])[born..], a) == if e == Event.Dispatch(a) && so < |all| then so + 1 else so
  {
    var since := (before + [e])[born..];
    assert since == before[born..] + [e] && since[..|since| - 1] == before[born..];
  }

  lemma CountOneMore(c: Config, before: seq<Event>, e: Event, a: UdpAddress, born: nat)
    requires born <= |before|
    ensures var s := Run(c, INITIAL, before);
      DispatchCount(c, before + [e], a, born) == DispatchCount(c, before, a, born)
        + if e == Event.Dispatch(a) && a in s.clients && s.clients[a].queue != [] then 1 else 0
  {
    assert (before + [e])[..|before|] == before;
  }

  /** What a step does to a proxy that is there before and after it. */
  lemma ProxyStep(c: Config, s: State, e: Event, a: UdpAddress)
    requires a in s.clients && a in Step(c, s, e).clients
    ensures Step(c, s, e).clients[a] ==
      if e.Datagram? && e.src == a then s.clients[a].(queue := s.clients[a].queue + [e.payload])
      else if e == Event.Dispatch(a) then DispatchOne(s.clients[a], s.now)
      else s.clients[a]
  {
  }

  lemma HandledStep(c: Config, before: seq<Event>, e: Event, a: UdpAddress, born: nat, n: nat)
    requires born <= |before| && a in Run(c, INITIAL, before).clients && a in Run(c, INITIAL, before + [e]).clients
    requires CutAt(Run(c, INITIAL, before).clients[a], DatagramsFrom(before[born..], a), n)
    requires n == Served(before[born..], a) == DispatchCount(c, before, a, born)
    ensures CutAt(Run(c, INITIAL, before + [e]).clients[a], DatagramsFrom((before + [e])[born..], a),
                  Served((before + [e])[born..], a))
    ensures Served((before + [e])[born..], a) == DispatchCount(c, before + [e], a, born)
  {
    var s, all := Run(c, INITIAL, before), DatagramsFrom(before[born..], a);
    OneMoreStep(c, before, e);
    ProxyStep(c, s, e, a);
    OneMoreDatagram(before, e, a, born);
    ServedOneMore(before, e, a, born);
    CountOneMore(c, before, e, a, born);
    assert all + [] == all;
    if e.Datagram? && e.src == a {
      CutStep(s.clients[a], all, n, e.payload, s.now);
    } else {
      CutStep(s.clients[a], all, n, [], s.now);
    }
  }

  lemma OneMoreStep(c: Config, before: seq<Event>, e: Event)
    ensures Run(c, INITIAL, before + [e]) == Step(c, Run(c, INITIAL, before), e)
  {
    RunLast(c, INITIAL, before + [e]);
    assert (before + [e])[..|before|] == before;
  }

  lemma HandledAtBirth(c: Config, before: seq<Event>, e: Event, a: UdpAddress)
    requires a !in Run(c, INITIAL, before).clients && a in Run(c, INITIAL, before + [e]).clients
    ensures Run(c, INITIAL, before + [e]).clients[a].born == |before|
    ensures CutAt(Run(c, INITIAL, before + [e]).clients[a], DatagramsFrom((before + [e])[|before|..], a), 0)
    ensures Served((before + [e])[|before|..], a) == 0 == DispatchCount(c, before + [e], a, |before|)
  {
    var born := |before|;
    OneMoreStep(c, before, e);
    Reachable(c, before);
    ClientStep(c, Run(c, INITIAL, before), e, a);
    OneMoreDatagram(before, e, a, born);
    ServedOneMore(before, e, a, born);
    CountOneMore(c, before, e, a, born);
    assert before[born..] == [];
  }

  ghost predicate HandledSinceBirth(c: Config, events: seq<Event>, a: UdpAddress)
    requires a in Run(c, INITIAL, events).clients
  {
    var p := Run(c, INITIAL, events).clients[a];
    && p.born < |events|
    && CutAt(p, DatagramsFrom(events[p.born..], a), Served(events[p.born..], a))
    && Served(events[p.born..], a) == DispatchCount(c, events, a, p.born)
  }

  /** As long as a proxy lives, what it has handled is exactly as many of its client's first
      datagrams since its creation as there were dispatches since then with one waiting, and what
      waits are the others. */
  lemma {:induction false} HandledExactly(c: Config, events: seq<Event>, a: UdpAddress)
    requires a in Run(c, INITIAL, events).clients
    ensures HandledSinceBirth(c, events, a)
    decreases |events|
  {
    var before, e := events[..|events| - 1], events[|events| - 1];
    assert events == before + [e];
    if a in Run(c, INITIAL, before).clients {
      HandledExactly(c, before, a);
      var p := Run(c, INITIAL, before).clients[a];
      OneMoreStep(c, before, e);
      ProxyStep(c, Run(c, INITIAL, before), e, a);
      HandledStep(c, before, e, a, p.born, Served(before[p.born..], a));
    } else {
      HandledAtBirth(c, before, e, a);
    }
  }

  /** Once there have been as many such dispatches as datagrams, all have been handled in order
      and nothing waits. */
  lemma AllHandled(c: Config, events: seq<Event>, a: UdpAddress, born: nat)
    requires a in Run(c, INITIAL, events).clients && born == Run(c, INITIAL, events).clients[a].born
    ensures born < |events|
    ensures DispatchCount(c, events, a, born) <= |DatagramsFrom(events[born..], a)|
    ensures DispatchCount(c, events, a, born) == |DatagramsFrom(events[born..], a)| ==>
      Run(c, INITIAL, events).clients[a].handled == DatagramsFrom(events[born..], a)
      && Run(c, INITIAL, events).clients[a].queue == []
  {
    HandledExactly(c, events, a);
    var all := DatagramsFrom(events[born..], a);
    assert all[..|all|] == all && all[|all|..] == [];
  }

  lemma {:induction false} DispatchCounts(c: Config, events: seq<Event>, a: UdpAddress, born: nat, j: nat)
    requires born <= j < |events| && Dispatches(c, events, j, a)
    ensures DispatchCount(c, events, a, born) > 0
    decreases |events|
  {
    var n := |events| - 1;
    if j < n {
      assert events[..n][..j] == events[..j];
      DispatchCounts(c, events[..n], a, born, j);
    }
  }

  /** A client with a dispatch since its proxy was created has been handled. */
  lemma DispatchedIsHandled(c: Config, events: seq<Event>, a: UdpAddress, j: nat)
    requires a in Run(c, INITIAL, events).clients
    requires Run(c, INITIAL, events).clients[a].born <= j < |events| && Dispatches(c, events, j, a)
    ensures Run(c, INITIAL, events).clients[a].handled != []
  {
    HandledExactly(c, events, a);
    DispatchCounts(c, events, a, Run(c, INITIAL, events).clients[a].born, j);
  }

  // ----- three short runs, and the clock

  lemma Steps(c: Config, s: State, e: Event, rest: seq<Event>)
    ensures Run(c, s, [e] + rest) == Run(c, Step(c, s, e), rest)
  {
    assert ([e] + rest)[1..] == rest;
  }

  /** A new client's two messages, dispatched, have been handled in the order they came. */
  lemma TwoMessages(c: Config, s: State, a: UdpAddress, first: Bytes, second: Bytes)
    requires a !in s.clients
    ensures var t := Run(c, s, [Datagram(a, first), Datagram(a, second), Event.Dispatch(a), Event.Dispatch(a)]);
      a in t.clients && t.clients[a].handled == [first, second] && t.clients[a].queue == []
      && t.clients[a].peer == a && t.clients[a].lastMessage == s.now
  {
    var s1 := Step(c, s, Datagram(a, first));
    var s2 := Step(c, s1, Datagram(a, second));
    var s3 := Step(c, s2, Event.Dispatch(a));
    var s4 := Step(c, s3, Event.Dispatch(a));
    Steps(c, s, Datagram(a, first), [Datagram(a, second), Event.Dispatch(a), Event.Dispatch(a)]);
    Steps(c, s1, Datagram(a, second), [Event.Dispatch(a), Event.Dispatch(a)]);
    Steps(c, s2, Event.Dispatch(a), [Event.Dispatch(a)]);
    Steps(c, s3, Event.Dispatch(a), []);
    assert [Datagram(a, first)] + [Datagram(a, second), Event.Dispatch(a), Event.Dispatch(a)]
        == [Datagram(a, first), Datagram(a, second), Event.Dispatch(a), Event.Dispatch(a)];
    assert [Datagram(a, second)] + [Event.Dispatch(a), Event.Dispatch(a)]
        == [Datagram(a, second), Event.Dispatch(a), Event.Dispatch(a)];
    assert [Event.Dispatch(a)] + [Event.Dispatch(a)] == [Event.Dispatch(a), Event.Dispatch(a)];
    assert [Event.Dispatch(a)] + [] == [Event.Dispatch(a)];
    assert s2.clients[a].queue == [first, second];
    assert s3.clients[a].queue == [second] && s3.clients[a].handled == [first];
  }

  /** An answer to a new client's proxy is sent from the server to that client. */
  lemma OneAnswer(c: Config, s: State, a: UdpAddress, request: Bytes, answer: Bytes)
    requires Inv(c, s) && a !in s.clients
    ensures Run(c, s, [Datagram(a, request), Reply(s.nextId, answer)]).sent
         == s.sent + [UdpMsg(c.server, a, answer)]
  {
    var s1 := Step(c, s, Datagram(a, request));
    StepKeepsInv(c, s, Datagram(a, request));
    Steps(c, s, Datagram(a, request), [Reply(s.nextId, answer)]);
    Steps(c, s1, Reply(s.nextId, answer), []);
    assert [Datagram(a, request)] + [Reply(s.nextId, answer)] == [Datagram(a, request), Reply(s.nextId, answer)];
    assert [Reply(s.nextId, answer)] + [] == [Reply(s.nextId, answer)];
    assert s1.clients[a].id == s.nextId;
    SentStep(c, s1, Reply(s.nextId, answer));
  }

  /** The latest of the times the clock has shown. */
  function Latest(events: seq<Event>): UInt64 {
    if events == [] then 0
    else
      var t := Latest(events[..|events| - 1]);
      match events[|events| - 1]
      case Clock(time) => if time > t then time else t
      case _ => t
  }

  /** Time is what the clock has shown, and it passes: no event ever holds it back. */
  lemma {:induction false} TimePasses(c: Config, events: seq<Event>)
    ensures Run(c, INITIAL, events).now == Latest(events)
    ensures forall i :: 0 <= i < |events| && events[i].Clock? ==> events[i].time <= Run(c, INITIAL, events).now
    decreases |events|
  {
    if events != [] {
      RunLast(c, INITIAL, events);
      TimePasses(c, events[..|events| - 1]);
    }
  }

  /** `uint64_t` subtraction. */
  lemma InactivityWraps(now: UInt64, lastMessage: UInt64)
    ensures Inactivity(now, lastMessage) == (now - lastMessage) % 0x1_0000_0000_0000_0000
  {
  }

  // ----- the sweep

  /** The sweep removes exactly the clients idle for longer than the timeout, destroys each of
      their proxies exactly once and no other, and does not touch the survivors. */
  lemma SweepExact(c: Config, s: State)
    requires Inv(c, s)
    ensures var t := Step(c, s, Tick);
      && (forall a :: a in t.clients <==> a in s.clients && s.now - s.clients[a].lastMessage <= c.timeout)
      && (forall a :: a in t.clients ==> t.clients[a] == s.clients[a])
      && (forall a :: a in s.clients ==>
            s.deleted[s.clients[a].id] == 0 && t.deleted[s.clients[a].id] == if a in t.clients then 0 else 1)
  {
  }

  /** Since the last tick no dispatched client has been idle for long. */
  ghost predicate Lively(c: Config, s: State) {
    forall a :: a in s.clients && s.clients[a].handled != [] ==> s.lastTick <= s.clients[a].lastMessage + c.timeout
  }

  lemma TimesStep(c: Config, s: State, e: Event, a: UdpAddress)
    requires a in s.clients && a in Step(c, s, e).clients && GoodProxy(s, a, s.clients[a])
    ensures Step(c, s, e).lastTick == if e == Tick then s.now else s.lastTick
    ensures e == Tick ==> s.now <= s.clients[a].lastMessage + c.timeout
    ensures Step(c, s, e).clients[a].lastMessage == s.now
         || (Step(c, s, e).clients[a].lastMessage == s.clients[a].lastMessage
             && Step(c, s, e).clients[a].handled == s.clients[a].handled)
  {
  }

  lemma StepKeepsLively(c: Config, s: State, e: Event)
    requires Inv(c, s) && Lively(c, s)
    ensures Lively(c, Step(c, s, e))
  {
    var t := Step(c, s, e);
    forall a | a in t.clients && t.clients[a].handled != []
      ensures t.lastTick <= t.clients[a].lastMessage + c.timeout
    {
      if a in s.clients {
        assert GoodProxy(s, a, s.clients[a]);
        TimesStep(c, s, e, a);
      } else {
        ClientStep(c, s, e, a);
      }
    }
  }

  lemma {:induction false} RunKeepsLively(c: Config, s: State, events: seq<Event>)
    requires Inv(c, s) && Lively(c, s)
    ensures Lively(c, Run(c, s, events))
    decreases |events|
  {
    if events != [] {
      StepKeepsInv(c, s, events[0]);
      StepKeepsLively(c, s, events[0]);
      RunKeepsLively(c, Step(c, s, events[0]), events[1..]);
    }
  }

  lemma QuietForClient(c: Config, s: State, e: Event, a: UdpAddress)
    requires a in s.clients && a in Step(c, s, e).clients
    requires e == Event.Dispatch(a) ==> s.clients[a].queue == []
    ensures Step(c, s, e).clients[a].lastMessage == s.clients[a].lastMessage
    ensures Step(c, s, e).clients[a].handled == s.clients[a].handled
  {
  }

  lemma {:induction false} LastDispatch(c: Config, events: seq<Event>, a: UdpAddress) returns (k: nat)
    requires a in Run(c, INITIAL, events).clients && Run(c, INITIAL, events).clients[a].handled != []
    ensures k < |events| && Dispatches(c, events, k, a)
    ensures Run(c, INITIAL, events[..k]).now == Run(c, INITIAL, events).clients[a].lastMessage
    ensures forall j :: k < j < |events| ==> !Dispatches(c, events, j, a)
    decreases |events|
  {
    var n := |events| - 1;
    var before, e := events[..n], events[n];
    var s := Run(c, INITIAL, before);
    RunLast(c, INITIAL, events);
    ClientStep(c, s, e, a);
    if Dispatches(c, events, n, a) {
      k := n;
    } else {
      QuietForClient(c, s, e, a);
      k := LastDispatch(c, before, a);
      forall j | 0 <= j < n
        ensures Dispatches(c, events, j, a) <==> Dispatches(c, before, j, a)
        ensures events[..j] == before[..j]
      {
        assert events[..j] == before[..j];
      }
    }
  }

  /** Once a message of a client has been dispatched since its proxy was created, `_lastMessage` is
      the time of the last one that was. */
  lemma LastMessageTime(c: Config, events: seq<Event>, a: UdpAddress, j: nat) returns (k: nat)
    requires a in Run(c, INITIAL, events).clients
    requires Run(c, INITIAL, events).clients[a].born <= j < |events| && Dispatches(c, events, j, a)
    ensures j <= k < |events| && Dispatches(c, events, k, a)
    ensures Run(c, INITIAL, events[..k]).now == Run(c, INITIAL, events).clients[a].lastMessage
    ensures forall i :: k < i < |events| ==> !Dispatches(c, events, i, a)
  {
    DispatchedIsHandled(c, events, a, j);
    k := LastDispatch(c, events, a);
  }

  /** If the timer has fired within the last 3000 ms, every client that has had a message
      dispatched since its proxy was created had the last one within the timeout plus 3000 ms: an
      idle one is gone by then. */
  lemma IdleClientGone(c: Config, events: seq<Event>, a: UdpAddress, j: nat)
    requires a in Run(c, INITIAL, events).clients
    requires Run(c, INITIAL, events).clients[a].born <= j < |events| && Dispatches(c, events, j, a)
    requires Run(c, INITIAL, events).now - Run(c, INITIAL, events).lastTick <= 3000
    ensures Run(c, INITIAL, events).now - Run(c, INITIAL, events).clients[a].lastMessage <= c.timeout + 3000
  {
    DispatchedIsHandled(c, events, a, j);
    RunKeepsLively(c, INITIAL, events);
  }

  /** At every sweep of the run client `a` is there and not idle for too long. */
  ghost predicate ActiveAtTicks(c: Config, s: State, events: seq<Event>, a: UdpAddress)
    decreases |events|
  {
    events != [] ==>
      && (events[0] == Tick ==> a in s.clients && s.now - s.clients[a].lastMessage <= c.timeout)
      && ActiveAtTicks(c, Step(c, s, events[0]), events[1..], a)
  }

  lemma {:induction false} DeletedStays(c: Config, s: State, events: seq<Event>, id: nat)
    requires id in s.deleted
    ensures id in Run(c, s, events).deleted
    decreases |events|
  {
    if events != [] {
      DeletedStays(c, Step(c, s, events[0]), events[1..], id);
    }
  }

  lemma ClientStays(c: Config, s: State, e: Event, a: UdpAddress)
    requires Inv(c, s) && a in s.clients
    ensures a in Step(c, s, e).clients <==> (e == Tick ==> s.now - s.clients[a].lastMessage <= c.timeout)
    ensures a in Step(c, s, e).clients || s.clients[a].id in Step(c, s, e).deleted
  {
    if e == Tick {
      SweepExact(c, s);
    }
  }

  lemma GoneForGood(c: Config, s: State, events: seq<Event>, a: UdpAddress, id: nat)
    requires Inv(c, s) && id in s.deleted
    ensures a in Run(c, s, events).clients ==> Run(c, s, events).clients[a].id != id
  {
    var t := Run(c, s, events);
    DeletedStays(c, s, events, id);
    RunKeepsInv(c, s, events);
    assert a in t.clients ==> GoodProxy(t, a, t.clients[a]);
  }

  /** The proxy `p` is still filed under `a`. */
  predicate StillThere(t: State, a: UdpAddress, p: Proxy) {
    a in t.clients && t.clients[a].id == p.id
  }

  /** A client keeps its proxy over a run exactly if at each sweep it has not been idle for
      longer than the timeout; and a kept proxy has been given every datagram of the run. */
  lemma {:induction false} KeptExactlyIfActive(c: Config, s: State, events: seq<Event>, a: UdpAddress)
    requires Inv(c, s) && a in s.clients
    ensures ActiveAtTicks(c, s, events, a) <==> StillThere(Run(c, s, events), a, s.clients[a])
    ensures StillThere(Run(c, s, events), a, s.clients[a]) ==>
      Accepted(Run(c, s, events).clients[a]) == Accepted(s.clients[a]) + DatagramsFrom(events, a)
    decreases |events|
  {
    if events != [] {
      var next := Step(c, s, events[0]);
      ClientStays(c, s, events[0], a);
      StepKeepsInv(c, s, events[0]);
      if a in next.clients {
        ClientStep(c, s, events[0], a);
        KeptExactlyIfActive(c, next, events[1..], a);
        Associative(Accepted(s.clients[a]), PayloadFrom(events[0], a), DatagramsFrom(events[1..], a));
      } else {
        GoneForGood(c, next, events[1..], a, s.clients[a].id);
      }
    }
  }

  /** Until its first message is dispatched a proxy counts as idle since the epoch: a sweep that
      comes between the two removes the new client unless the clock still is within the timeout. */
  lemma NewClientMayBeSwept(c: Config, s: State, a: UdpAddress, payload: Bytes)
    requires Inv(c, s) && a !in s.clients
    ensures a in Run(c, s, [Datagram(a, payload), Tick]).clients <==> s.now <= c.timeout
  {
    var born := Step(c, s, Datagram(a, payload));
    StepKeepsInv(c, s, Datagram(a, payload));
    SweepExact(c, born);
    assert [Datagram(a, payload), Tick][1..] == [Tick];
    assert Run(c, s, [Datagram(a, payload), Tick]) == Run(c, born, [Tick]);
    assert Run(c, born, [Tick]) == Run(c, Step(c, born, Tick), [Tick][1..]);
  }
}
