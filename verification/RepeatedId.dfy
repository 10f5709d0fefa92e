/** Why a client may make no more requests than there are ids: a run of one request
    more in which an answer reaches the callback of another request
    (Plugin_InterserverClient/InterserverClient.cpp:311-326, 423-437). */
module RepeatedId {
  import opened Machine
  import opened Capabilities
  import opened Messages
  import opened Hub
  import opened ClientStates
  import opened Interserver
  import opened RelayPayload
  import opened Runs

  /** As `Payable`, with room for one request more. */
  ghost predicate OneMore(s: System, step: Step) {
    match step
    case Ask(c, _, className, _) => TextFits(className) && c in s.clients && s.clients[c].asked <= REQUESTS
    case HubTakes(_, _, indices) => |indices| <= 1
    case _ => true
  }

  ghost predicate Limited(r: Run) {
    Legal(r) && forall j :: 0 <= j < |r.steps| ==> OneMore(r.states[j], r.steps[j])
  }

  lemma Next(r: Run, step: Step) returns (r': Run)
    requires Limited(r) && Enabled(Now(r), step) && OneMore(Now(r), step)
    ensures Limited(r') && Now(r') == Apply(Now(r), step)
  {
    hide Enabled, Apply, OneMore, Init;
    r' := Then(r, step);
  }

  /** Client 0 asks, client 1 provides. */
  datatype Play = Play(cap: Capability, className: bytes, data: bytes, handler: Handler)

  ghost function Provider(p: Play): Client {
    Client(ClientState(map[p.cap.name := (p.cap, 1)], 0, map[], map[p.className := p.handler]), true, false, 0)
  }

  ghost function First(p: Play): Envelope {
    ToHub(0, Request(p.cap, RequestBody(1, p.className, p.data)), Asked(Origin(0, 1)))
  }

  ghost predicate Waiting(net: seq<Envelope>) {
    forall j :: 0 <= j < |net| ==> net[j].ToHub? && net[j].conn == 0
  }

  /** Client 0 has made m requests, and the hub has taken none. */
  ghost predicate Asking(s: System, p: Play, m: nat) {
    && s.registry == [Entry(p.cap, 1)] && s.relay == map[]
    && s.clients.Keys == {0, 1} && s.clients[1] == Provider(p)
    && s.clients[0].isOpen && s.clients[0].asked == m && s.clients[0].state.lastId == Wrap32(m)
    && (m > 0 ==> Wrap32(m) in s.clients[0].state.relays && s.clients[0].state.relays[Wrap32(m)] == m)
    && |s.net| == m && Waiting(s.net) && (m > 0 ==> s.net[0] == First(p))
    && s.history == History(map[], 0, [], s.history.sent, map[], [])
  }

  lemma Prepared(p: Play) returns (r: Run)
    ensures Limited(r) && Asking(Now(r), p, 0)
  {
    var start := System([], map[], map[0 := Fresh(), 1 := Fresh()], [], History(map[], 0, [], map[], map[], []));
    r := Run([start], []);
    r := Next(r, Connect(0));
    r := Next(r, Connect(1));
    r := Next(r, AddCapability(1, p.cap));
    var s := Now(r);
    assert s.net == [ToHub(1, AddCap(p.cap), Untagged)];
    r := Next(r, HubTakes(0, {}, []));
    r := Next(r, RegisterHandler(1, p.className, p.handler));
  }

  lemma AskedAgain(s: System, p: Play, m: nat)
    requires Asking(s, p, m)
    ensures Enabled(s, Ask(0, p.cap, p.className, p.data))
    ensures Asking(Apply(s, Ask(0, p.cap, p.className, p.data)), p, m + 1)
  {
    hide RequestBody;
    var s' := Apply(s, Ask(0, p.cap, p.className, p.data));
    assert s'.clients.Keys == s.clients.Keys;
  }

  lemma {:induction false} AskedOften(p: Play, m: nat) returns (r: Run)
    requires TextFits(p.className) && m <= REQUESTS + 1
    ensures Limited(r) && Asking(Now(r), p, m)
  {
    if m == 0 {
      r := Prepared(p);
    } else {
      r := AskedOften(p, m - 1);
      hide Limited, Legal, Apply, Enabled;
      AskedAgain(Now(r), p, m - 1);
      r := Next(r, Ask(0, p.cap, p.className, p.data));
    }
  }

  /** The first request is served, and its answer is delivered: to the callback of
      the last request, which nobody has served. */
  lemma RepeatedIdGoesAstray(p: Play) returns (states: seq<System>, steps: seq<Step>)
    requires TextFits(p.className)
    ensures IsRun(states, steps) && forall j :: 0 <= j < |steps| ==> OneMore(states[j], steps[j])
    ensures var h := states[|steps|].history;
      && h.fired == [Firing(Origin(0, REQUESTS + 1), p.handler(p.data))]
      && h.served.Keys == {Origin(0, 1)}
  {
    var r, front := HandedOut(p);
    var e := Passed(p);
    RequestBodyRoundTrip(1, p.className, p.data);
    Finishing(Now(r), front, e, RequestParts(1, p.className, p.data));
    hide Apply, Enabled, RequestBody, Limited, Legal;
    r := Next(r, ClientTakes(REQUESTS, None));
    r := Next(r, HubTakes(REQUESTS, {}, []));
    r := Next(r, ClientTakes(REQUESTS, None));
    states, steps := r.states, r.steps;
    AllLimited(r);
  }

  lemma AllLimited(r: Run)
    requires Limited(r)
    ensures IsRun(r.states, r.steps) && forall j :: 0 <= j < |r.steps| ==> OneMore(r.states[j], r.steps[j])
  {}

  ghost function Passed(p: Play): Envelope {
    ToClient(1, Relayed(0, RequestBody(1, p.className, p.data)), FirstTag())
  }

  /** The hub has handed the first request to the provider; the others wait. */
  lemma HandedOut(p: Play) returns (r: Run, front: seq<Envelope>)
    requires TextFits(p.className)
    ensures Limited(r) && |front| == REQUESTS && Waiting(front)
    ensures var s := Now(r);
      && s.net == front + [Passed(p)] && s.relay == map[0 := 0] && 0 in s.history.grants
      && s.history.served == map[] && s.history.fired == []
      && 1 in s.clients && s.clients[1] == Provider(p)
      && 0 in s.clients && 1 in s.clients[0].state.relays && s.clients[0].state.relays[1] == REQUESTS + 1
  {
    r := AskedOften(p, REQUESTS + 1);
    hide Limited, Legal;
    var s := Now(r);
    RelayedFirst(s, p);
    front := s.net[1..];
    assert Wrap32(REQUESTS + 1) == 1;
    hide Apply, Enabled;
    r := Next(r, HubTakes(0, {1}, [0]));
  }

  ghost function FirstTag(): Tag { Granted(Grant(0, Origin(0, 1))) }

  lemma RelayedFirst(s: System, p: Play)
    requires Asking(s, p, REQUESTS + 1)
    ensures Enabled(s, HubTakes(0, {1}, [0]))
    ensures var s' := Apply(s, HubTakes(0, {1}, [0]));
      && s'.net == s.net[1..] + [ToClient(1, Relayed(0, RequestBody(1, p.className, p.data)), FirstTag())]
      && s'.clients == s.clients && s'.relay == map[0 := 0]
      && s'.history == s.history.(grants := map[0 := Grant(0, Origin(0, 1))], handedOut := 1)
  {
    hide RequestBody;
    assert Providers([Entry(p.cap, 1)], p.cap.name, {1}) == [1] by {
      assert [Entry(p.cap, 1)][..0] == [];
      assert Providers([], p.cap.name, {1}) == [];
    }
    assert Allocate(map[], [0], 0) == map[0 := 0] by { assert [0][..0] == []; }
    assert GrantAll(map[], [0], 0, Origin(0, 1)) == map[0 := Grant(0, Origin(0, 1))] by { assert [0][..0] == []; }
  }
}
