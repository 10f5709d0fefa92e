/** Why a capability may have one live provider at each relay: with two, the second
    is sent no body and reads on into what its buffer holds
    (Plugin_Interserver/InterserverService.cpp:148-163,
    Plugin_InterserverClient/InterserverClient.cpp:396-438). */
module TwoProviders {
  import opened Machine
  import opened Capabilities
  import opened Messages
  import opened Hub
  import opened ClientStates
  import opened Interserver
  import opened Runs

  /** Clients 1 and 2 offer one name, client 0 asks twice. */
  datatype Play = Play(first: Capability, second: Capability, className: bytes, data: bytes, later: bytes,
    once: Handler, again: Handler)

  predicate Fair(p: Play) {
    p.first.name == p.second.name && p.first.endpoint != p.second.endpoint && TextFits(p.className)
  }

  function Offering(cap: Capability, handlers: map<bytes, Handler>): Client {
    Client(ClientState(map[cap.name := (cap, 1)], 0, map[], handlers), true, false, 0)
  }

  function Asker(asked: nat, relays: map<u32, nat>): Client {
    Client(ClientState(map[], Wrap32(asked), relays, map[]), true, false, asked)
  }

  /** Both are registered, and nothing is in flight. */
  ghost function Offered(p: Play, asker: Client, handlers: map<bytes, Handler>, h: History): System {
    System([Entry(p.first, 1), Entry(p.second, 2)], map[],
      map[0 := asker, 1 := Offering(p.first, map[]), 2 := Offering(p.second, handlers)], [], h)
  }

  function Nothing(): History { History(map[], 0, [], map[], map[], []) }

  lemma Opened(p: Play) returns (r: Run)
    ensures Legal(r)
    ensures var idle := Asker(0, map[]);
      Now(r) == System([], map[], map[0 := idle, 1 := idle, 2 := idle], [], Nothing())
  {
    r := Run([System([], map[], map[0 := Fresh(), 1 := Fresh(), 2 := Fresh()], [], Nothing())], []);
    r := Then(r, Connect(0));
    r := Then(r, Connect(1));
    r := Then(r, Connect(2));
  }

  lemma Prepared(p: Play) returns (r: Run)
    requires Fair(p)
    ensures Legal(r) && Now(r) == Offered(p, Asker(0, map[]), map[], Nothing())
  {
    r := Opened(p);
    hide Legal, Apply, Enabled;
    Runs.Offering(Now(r), 1, p.first);
    r := Then(r, AddCapability(1, p.first));
    r := Then(r, HubTakes(0, {}, []));
    assert Register([], p.first, 1) == [Entry(p.first, 1)];
    Runs.Offering(Now(r), 2, p.second);
    r := Then(r, AddCapability(2, p.second));
    r := Then(r, HubTakes(0, {}, []));
    BothRegistered(p);
    assert Now(r).clients == Offered(p, Asker(0, map[]), map[], Nothing()).clients;
  }

  lemma BothRegistered(p: Play)
    requires Fair(p)
    ensures Register([Entry(p.first, 1)], p.second, 2) == [Entry(p.first, 1), Entry(p.second, 2)]
  {
    assert [Entry(p.first, 1)][0].cap != p.second;
  }

  function Later(h: History, o: Origin, sent: Sent): History { h.(sent := h.sent[o := sent]) }

  /** A handler is registered, and client 0 asks. */
  lemma Asked(r: Run, p: Play, asked: nat, relays: map<u32, nat>, data: bytes, handler: Handler, h: History)
    returns (r': Run)
    requires Legal(r) && Now(r) == Offered(p, Asker(asked, relays), map[], h)
    ensures Legal(r')
    ensures var id, o := Wrap32(asked + 1), Origin(0, asked + 1);
      Now(r') == Offered(p, Asker(asked + 1, relays[id := asked + 1]), map[p.className := handler],
        Later(h, o, Sent(p.className, data))).(
        net := [ToHub(0, Request(p.first, RequestBody(id, p.className, data)), Interserver.Asked(o))])
  {
    hide RequestBody, Legal;
    HandlerSet(p, Asker(asked, relays), handler, h);
    r' := Then(r, RegisterHandler(2, p.className, handler));
    var s := Now(r');
    Asking(s, 0, p.first, p.className, data);
    hide Apply, Enabled, Offered;
    r' := Then(r', Ask(0, p.first, p.className, data));
    AskerAfter(p, asked, relays, map[p.className := handler], h, data);
  }

  lemma HandlerSet(p: Play, asker: Client, handler: Handler, h: History)
    ensures Enabled(Offered(p, asker, map[], h), RegisterHandler(2, p.className, handler))
    ensures Apply(Offered(p, asker, map[], h), RegisterHandler(2, p.className, handler))
      == Offered(p, asker, map[p.className := handler], h)
  {
    var s' := Apply(Offered(p, asker, map[], h), RegisterHandler(2, p.className, handler));
    assert s'.clients == Offered(p, asker, map[p.className := handler], h).clients;
  }

  lemma AskerAfter(p: Play, asked: nat, relays: map<u32, nat>, handlers: map<bytes, Handler>, h: History, data: bytes)
    ensures var s, id, o := Offered(p, Asker(asked, relays), handlers, h), Wrap32(asked + 1), Origin(0, asked + 1);
      var asker := Asker(asked + 1, relays[id := asked + 1]);
      && 0 in s.clients && s.clients[0] == Asker(asked, relays) && Wrap32(Wrap32(asked) + 1) == id
      && s.(clients := s.clients[0 := asker], history := Later(h, o, Sent(p.className, data)))
        == Offered(p, asker, handlers, Later(h, o, Sent(p.className, data)))
  {
    NextId(asked);
    var s, id := Offered(p, Asker(asked, relays), handlers, h), Wrap32(asked + 1);
    var asker := Asker(asked + 1, relays[id := asked + 1]);
    assert s.clients[0 := asker] == Offered(p, asker, handlers, h).clients;
  }

  lemma NextId(n: nat)
    ensures Wrap32(Wrap32(n) + 1) == Wrap32(n + 1)
  {}

  lemma ProvidersOf(p: Play)
    requires Fair(p)
    ensures var reg := [Entry(p.first, 1), Entry(p.second, 2)];
      Providers(reg, p.first.name, {2}) == [2] && Providers(reg, p.first.name, {1, 2}) == [1, 2]
  {
    var reg := [Entry(p.first, 1), Entry(p.second, 2)];
    var one := [Entry(p.first, 1)];
    assert reg[..1] == one && one[..0] == [];
    assert Providers([], p.first.name, {2}) == [] && Providers([], p.first.name, {1, 2}) == [];
    assert Providers(one, p.first.name, {2}) == [] && Providers(one, p.first.name, {1, 2}) == [1];
  }

  lemma OneIndex(c: Conn, o: Origin)
    ensures Allocate(map[], [0], c) == map[0 := c]
    ensures GrantAll(map[], [0], 0, o) == map[0 := Grant(0, o)]
  {
    assert [0][..0] == [];
  }

  lemma TwoIndices(c: Conn, o: Origin, first: nat)
    ensures Allocate(map[], [0, 1], c) == map[0 := c, 1 := c]
    ensures GrantAll(map[], [0, 1], first, o) == map[0 := Grant(first, o), 1 := Grant(first + 1, o)]
  {
    assert [0, 1][..1] == [0] && [0][..0] == [];
    assert Allocate(map[], [0], c) == map[0 := c];
    assert GrantAll(map[], [0], first, o) == map[0 := Grant(first, o)];
  }

  /** The second of two providers is sent no body. */
  lemma EnvelopesOf(body: bytes, first: nat, o: Origin)
    ensures RelayEnvelopes([2], [0], body, first, o) == [ToClient(2, Relayed(0, body), Granted(Grant(first, o)))]
    ensures RelayEnvelopes([1, 2], [0, 1], body, first, o) == [
      ToClient(1, Relayed(0, body), Granted(Grant(first, o))),
      ToClient(2, Relayed(1, []), Granted(Grant(first + 1, o)))]
  {
    var one, two := RelayedTo([2], [0], body), RelayedTo([1, 2], [0, 1], body);
    assert one[0] == (2, Relayed(0, body));
    assert two[0] == (1, Relayed(0, body)) && two[1] == (2, Relayed(1, []));
    hide RelayedTo;
    var q := RelayEnvelopes([2], [0], body, first, o);
    assert |q| == 1 && q[0] == ToClient(2, Relayed(0, body), Granted(Grant(first, o)));
    var r := RelayEnvelopes([1, 2], [0, 1], body, first, o);
    assert |r| == 2 && r[0] == ToClient(1, Relayed(0, body), Granted(Grant(first, o)));
    assert r[1] == ToClient(2, Relayed(1, []), Granted(Grant(first + 1, o)));
  }

  /** The state in which the hub has relayed a request. */
  ghost function RelayedState(p: Play, asker: Client, handler: Handler, h: History,
    relay: map<u32, Conn>, net: seq<Envelope>): System
  {
    Offered(p, asker, map[p.className := handler], h).(relay := relay, net := net)
  }

  ghost function To(d: Conn, index: u32, body: bytes, number: nat, serial: nat): Envelope {
    ToClient(d, Relayed(index, body), Granted(Grant(number, Origin(0, serial))))
  }

  lemma FirstRelayed(p: Play) returns (r: Run, h: History)
    requires Fair(p)
    ensures Legal(r)
    ensures Now(r) == RelayedState(p, Asker(1, map[1 := 1]), p.once, h, map[0 := 0],
      [To(2, 0, RequestBody(1, p.className, p.data), 0, 1)])
    ensures h.grants == map[0 := Grant(0, Origin(0, 1))] && h.handedOut == 1 && h.fired == [] && h.served == map[]
    ensures h.sent == map[Origin(0, 1) := Sent(p.className, p.data)]
  {
    r := Prepared(p);
    r := Asked(r, p, 0, map[], p.data, p.once, Nothing());
    var s, o, body := Now(r), Origin(0, 1), RequestBody(1, p.className, p.data);
    ProvidersOf(p);
    OneIndex(0, o);
    EnvelopesOf(body, 0, o);
    hide Legal, RequestBody, Providers, Allocate, GrantAll, RelayEnvelopes;
    Relaying(s, 0, p.first, body, o, {2}, [0]);
    hide Apply, Enabled;
    r := Then(r, HubTakes(0, {2}, [0]));
    h := Now(r).history;
  }

  /** The first request: only client 2 is live, and everything is as it should be. */
  lemma FirstRequest(p: Play) returns (r: Run, h: History)
    requires Fair(p)
    ensures Legal(r) && Now(r) == Offered(p, Asker(1, map[1 := 1]), map[], h)
    ensures h.grants == map[] && h.handedOut == 1 && h.fired == [Firing(Origin(0, 1), p.once(p.data))]
    ensures h.served == map[Origin(0, 1) := Service(p.className, p.data, p.once(p.data))]
    ensures h.sent == map[Origin(0, 1) := Sent(p.className, p.data)]
  {
    r, h := FirstRelayed(p);
    RequestBodyRoundTrip(1, p.className, p.data);
    var s, e, parts := Now(r), Now(r).net[0], RequestParts(1, p.className, p.data);
    assert s.net == [] + [e];
    hide Legal, RequestBody;
    Finishing(s, [], e, parts);
    hide Apply, Enabled;
    r := Then(r, ClientTakes(0, None));
    r := Then(r, HubTakes(0, {}, []));
    r := Then(r, ClientTakes(0, None));
    h := Now(r).history;
    assert Now(r).clients == Offered(p, Asker(1, map[1 := 1]), map[], h).clients;
    assert Now(r).relay == map[] && h.grants == map[];
  }

  /** The second request: both are live, and client 2 is sent no body. */
  lemma SecondRelayed(p: Play) returns (r: Run, h: History)
    requires Fair(p)
    ensures Legal(r)
    ensures Now(r) == RelayedState(p, Asker(2, map[1 := 1, 2 := 2]), p.again, h, map[0 := 0, 1 := 0],
      [To(1, 0, RequestBody(2, p.className, p.later), 1, 2), To(2, 1, [], 2, 2)])
    ensures h.grants.Keys == {0, 1} && h.fired == [Firing(Origin(0, 1), p.once(p.data))]
    ensures h.served == map[Origin(0, 1) := Service(p.className, p.data, p.once(p.data))]
    ensures h.sent == map[Origin(0, 1) := Sent(p.className, p.data), Origin(0, 2) := Sent(p.className, p.later)]
  {
    var had;
    r, had := FirstRequest(p);
    r := Asked(r, p, 1, map[1 := 1], p.later, p.again, had);
    var s, o, body := Now(r), Origin(0, 2), RequestBody(2, p.className, p.later);
    ProvidersOf(p);
    TwoIndices(0, o, 1);
    EnvelopesOf(body, 1, o);
    hide Legal, RequestBody, Providers, Allocate, GrantAll, RelayEnvelopes;
    Relaying(s, 0, p.first, body, o, {1, 2}, [0, 1]);
    hide Apply, Enabled;
    r := Then(r, HubTakes(0, {1, 2}, [0, 1]));
    h := Now(r).history;
    assert map[1 := 1][2 := 2] == map[1 := 1, 2 := 2];
  }

  /** Client 2 reads the body of the first request once more, which is what its buffer
      still holds (`Exchange.StaleBody`). The callback of the first request fires
      again, with an answer to the second. */
  lemma SecondProviderFiresTwice(p: Play) returns (states: seq<System>, steps: seq<Step>)
    requires Fair(p)
    ensures IsRun(states, steps)
    ensures var h := states[|steps|].history;
      && h.fired == [Firing(Origin(0, 1), p.once(p.data)), Firing(Origin(0, 1), p.again(p.data))]
      && h.sent == map[Origin(0, 1) := Sent(p.className, p.data), Origin(0, 2) := Sent(p.className, p.later)]
      && h.served == map[Origin(0, 1) := Service(p.className, p.data, p.once(p.data))]
  {
    var r, h := SecondRelayed(p);
    var s, stray := Now(r), Stray(p.className, 1, p.data);
    var front, e := [s.net[0]], s.net[1];
    assert s.net == front + [e];
    FinishingStray(s, front, e, stray);
    hide Apply, Enabled, Legal;
    r := Then(r, ClientTakes(1, Some(stray)));
    r := Then(r, HubTakes(1, {}, []));
    r := Then(r, ClientTakes(1, None));
    LegalIsRun(r);
    states, steps := r.states, r.steps;
  }
}
