/** Why class names must fit their 16-bit length: a longer one reaches the handler of
    another class (PhoenixLibrary/Packet.h:207-209,
    Plugin_InterserverClient/InterserverClient.cpp:311-326, 396-438). */
module LongName {
  import opened Machine
  import opened Capabilities
  import opened Messages
  import opened Hub
  import opened ClientStates
  import opened Interserver
  import opened Runs

  /** What is left of a name whose length is cut to 16 bits. */
  function Cut(className: bytes): bytes { className[..Wrap16(|className|)] }
  function Rest(className: bytes): bytes { className[Wrap16(|className|)..] }

  /** The rest of the name is read as data. */
  lemma CutRequest(id: u32, className: bytes, data: bytes)
    ensures ParseRequestBody(RequestBody(id, className, data))
      == Some(RequestParts(id, Cut(className), Rest(className) + data))
  {
    hide LE32, FromLE32, LE16, FromLE16;
    var m, text := RequestBody(id, className, data), EncodeText(className) + data;
    assert m[1..5] == LE32(id) && m[5..] == text;
    var n: nat := Wrap16(|className|);
    assert text[..2] == LE16(n) && text[2..2 + n] == Cut(className);
    assert text[2 + n..] == Rest(className) + data;
  }

  /** One provider has a handler of the cut name, and one client asks. */
  datatype Play = Play(cap: Capability, className: bytes, data: bytes, handler: Handler)

  ghost function Ready(p: Play, caps: map<bytes, (Capability, u32)>, reg: Registry): System {
    System(reg, map[], map[
      0 := Client(ClientState(map[], 0, map[], map[]), true, false, 0),
      1 := Client(ClientState(caps, 0, map[], map[Cut(p.className) := p.handler]), true, false, 0)],
      [], History(map[], 0, [], map[], map[], []))
  }

  lemma Opened(p: Play) returns (r: Run)
    ensures Legal(r) && Now(r) == Ready(p, map[], [])
  {
    hide Cut;
    r := Run([System([], map[], map[0 := Fresh(), 1 := Fresh()], [], History(map[], 0, [], map[], map[], []))], []);
    r := Then(r, Connect(0));
    r := Then(r, Connect(1));
    r := Then(r, RegisterHandler(1, Cut(p.className), p.handler));
    assert Now(r).clients == Ready(p, map[], []).clients;
  }

  lemma Offered(p: Play) returns (r: Run)
    ensures Legal(r) && Now(r) == Ready(p, map[p.cap.name := (p.cap, 1)], [Entry(p.cap, 1)])
  {
    r := Opened(p);
    hide Legal, Cut, Apply, Enabled;
    Offering(Now(r), 1, p.cap);
    r := Then(r, AddCapability(1, p.cap));
    r := Then(r, HubTakes(0, {}, []));
    assert Register([], p.cap, 1) == [Entry(p.cap, 1)];
    assert Now(r).clients == Ready(p, map[p.cap.name := (p.cap, 1)], [Entry(p.cap, 1)]).clients;
  }

  ghost function Handed(p: Play): Envelope {
    ToClient(1, Relayed(0, RequestBody(1, p.className, p.data)), Granted(Grant(0, Origin(0, 1))))
  }

  lemma HandedOut(p: Play) returns (r: Run)
    ensures Legal(r)
    ensures var s, o := Now(r), Origin(0, 1);
      && s.net == [Handed(p)] && s.relay == map[0 := 0]
      && 0 in s.clients && s.clients[0].state.relays == map[1 := 1]
      && 1 in s.clients && s.clients[1].state.handlers == map[Cut(p.className) := p.handler]
      && s.history == History(map[0 := Grant(0, o)], 1, [], map[o := Sent(p.className, p.data)], map[], [])
  {
    r := Offered(p);
    var o, body := Origin(0, 1), RequestBody(1, p.className, p.data);
    hide Legal, RequestBody, Cut;
    Asking(Now(r), 0, p.cap, p.className, p.data);
    r := Then(r, Ask(0, p.cap, p.className, p.data));
    OneProvider(p.cap, body, o);
    hide Providers, Allocate, GrantAll, RelayEnvelopes;
    Relaying(Now(r), 0, p.cap, body, o, {1}, [0]);
    hide Apply, Enabled;
    r := Then(r, HubTakes(0, {1}, [0]));
  }

  lemma OneProvider(cap: Capability, body: bytes, o: Origin)
    ensures Providers([Entry(cap, 1)], cap.name, {1}) == [1]
    ensures Allocate(map[], [0], 0) == map[0 := 0] && GrantAll(map[], [0], 0, o) == map[0 := Grant(0, o)]
    ensures RelayEnvelopes([1], [0], body, 0, o) == [ToClient(1, Relayed(0, body), Granted(Grant(0, o)))]
  {
    assert [Entry(cap, 1)][..0] == [] && [0][..0] == [];
    assert Providers([], cap.name, {1}) == [];
    assert RelayedTo([1], [0], body)[0] == (1, Relayed(0, body));
  }

  lemma CutIfLong(className: bytes)
    ensures Cut(className) == className <==> TextFits(className)
  {}

  /** One provider, one request: the callback gets the output of the handler of the
      cut name on the rest of the name and the data. That is the handler of the class
      asked for if and only if the name fits. */
  lemma LongNameReachesAnotherHandler(p: Play) returns (states: seq<System>, steps: seq<Step>)
    ensures IsRun(states, steps)
    ensures var h, o := states[|steps|].history, Origin(0, 1);
      var out := p.handler(Rest(p.className) + p.data);
      && h.sent == map[o := Sent(p.className, p.data)]
      && h.served == map[o := Service(Cut(p.className), Rest(p.className) + p.data, out)]
      && h.fired == [Firing(o, out)]
      && (h.served[o].className == h.sent[o].className <==> TextFits(p.className))
  {
    var r := HandedOut(p);
    var s, e, parts := Now(r), Handed(p), RequestParts(1, Cut(p.className), Rest(p.className) + p.data);
    CutRequest(1, p.className, p.data);
    CutIfLong(p.className);
    assert s.net == [] + [e];
    hide Legal, RequestBody, Cut, Rest;
    Finishing(s, [], e, parts);
    hide Apply, Enabled;
    r := Then(r, ClientTakes(0, None));
    r := Then(r, HubTakes(0, {}, []));
    r := Then(r, ClientTakes(0, None));
    LegalIsRun(r);
    states, steps := r.states, r.steps;
  }
}
