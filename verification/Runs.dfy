/** Building runs of the state machine step by step. */
module Runs {
  import opened Machine
  import opened Capabilities
  import opened Messages
  import opened Hub
  import opened ClientStates
  import opened Interserver

  datatype Run = Run(states: seq<System>, steps: seq<Step>)

  ghost predicate Legal(r: Run) { IsRun(r.states, r.steps) }

  ghost function Now(r: Run): System
    requires Legal(r)
  {
    r.states[|r.steps|]
  }

  lemma Then(r: Run, step: Step) returns (r': Run)
    requires Legal(r) && Enabled(Now(r), step)
    ensures Legal(r') && Now(r') == Apply(Now(r), step)
    ensures r'.states == r.states + [Now(r')] && r'.steps == r.steps + [step]
  {
    hide Enabled, Apply, Init;
    r' := Run(r.states + [Apply(Now(r), step)], r.steps + [step]);
  }

  lemma LegalIsRun(r: Run)
    requires Legal(r)
    ensures IsRun(r.states, r.steps) && Now(r) == r.states[|r.steps|]
  {}

  function Fresh(): Client { Client(ClientState(map[], 0, map[], map[]), false, false, 0) }

  /** Nothing in front shares the channel of e. */
  ghost predicate Apart(front: seq<Envelope>, e: Envelope) {
    forall j :: 0 <= j < |front| ==> !SameChannel(front[j], e)
  }

  lemma TakesLast(front: seq<Envelope>, e: Envelope)
    requires Apart(front, e)
    ensures IsNext(front + [e], |front|) && Without(front + [e], |front|) == front
  {}

  /** A provider takes a request it has a handler for. */
  lemma Serving(s: System, front: seq<Envelope>, e: Envelope, parts: RequestParts)
    requires s.net == front + [e] && Apart(front, e) && e.ToClient? && e.down.Relayed? && e.tag.Granted?
    requires ParseRequestBody(e.down.body) == Some(parts)
    requires e.conn in s.clients && parts.className in s.clients[e.conn].state.handlers
    ensures Enabled(s, ClientTakes(|front|, None))
    ensures var client, h := s.clients[e.conn], s.history;
      var out := client.state.handlers[parts.className](parts.data);
      Apply(s, ClientTakes(|front|, None)) == s.(
        clients := s.clients[e.conn := Served(client, parts.className)],
        net := front + [ToHub(e.conn, Reply(e.down.index, ReplyBody(parts.id, out)), e.tag)],
        history := h.(served := h.served[e.tag.grant.origin := Service(parts.className, parts.data, out)]))
  {
    hide ReplyBody, ParseRequestBody;
    TakesLast(front, e);
    hide Without, IsNext;
  }

  function Served(client: Client, className: bytes): Client {
    client.(state := client.state.(handlers := client.state.handlers - {className}))
  }

  /** A client takes a relayed message without a body, and finds one in its buffer. */
  lemma ServingStray(s: System, front: seq<Envelope>, e: Envelope, stray: Stray)
    requires s.net == front + [e] && Apart(front, e) && e.ToClient? && e.down.Relayed? && e.down.body == []
    requires e.conn in s.clients && stray.className in s.clients[e.conn].state.handlers
    ensures Enabled(s, ClientTakes(|front|, Some(stray)))
    ensures var client := s.clients[e.conn];
      var out := client.state.handlers[stray.className](stray.data);
      Apply(s, ClientTakes(|front|, Some(stray))) == s.(
        clients := s.clients[e.conn := Served(client, stray.className)],
        net := front + [ToHub(e.conn, Reply(e.down.index, ReplyBody(stray.id, out)), e.tag)])
  {
    assert ParseRequestBody([]) == None;
    hide ReplyBody, ParseRequestBody;
    TakesLast(front, e);
    hide Without, IsNext;
  }

  /** The hub takes a reply under an index it knows. */
  lemma Answering(s: System, front: seq<Envelope>, e: Envelope)
    requires s.net == front + [e] && Apart(front, e) && e.ToHub? && e.up.Reply? && e.up.body != []
    requires e.up.index in s.relay && e.up.index in s.history.grants
    ensures Enabled(s, HubTakes(|front|, {}, []))
    ensures var i, h := e.up.index, s.history;
      Apply(s, HubTakes(|front|, {}, [])) == s.(
        relay := s.relay - {i},
        net := front + [ToClient(s.relay[i], Answer(e.up.body), e.tag)],
        history := h.(grants := h.grants - {i}, answered := h.answered + [h.grants[i].number]))
  {
    TakesLast(front, e);
    hide Without, IsNext;
  }

  /** A client takes an answer to an id it has a callback for. */
  lemma Delivering(s: System, front: seq<Envelope>, e: Envelope, id: u32, out: bytes)
    requires s.net == front + [e] && Apart(front, e) && e.ToClient? && e.down == Answer(ReplyBody(id, out))
    requires e.conn in s.clients && id in s.clients[e.conn].state.relays
    ensures Enabled(s, ClientTakes(|front|, None))
    ensures var h := s.history;
      Apply(s, ClientTakes(|front|, None)) == s.(
        net := front,
        history := h.(fired := h.fired + [Firing(Origin(e.conn, s.clients[e.conn].state.relays[id]), out)]))
  {
    ReplyBodyRoundTrip(id, out);
    hide ReplyBody, ParseReplyBody;
    TakesLast(front, e);
    hide Without, IsNext;
  }

  lemma ReplyNotEmpty(id: u32, out: bytes)
    ensures ReplyBody(id, out) != []
  {}

  /** A request in the hands of its provider is served, answered and delivered. */
  lemma Finishing(s: System, front: seq<Envelope>, e: Envelope, parts: RequestParts)
    requires s.net == front + [e] && e.ToClient? && e.down.Relayed? && e.tag.Granted?
    requires ParseRequestBody(e.down.body) == Some(parts)
    requires e.conn in s.clients && parts.className in s.clients[e.conn].state.handlers
    requires e.down.index in s.relay && e.down.index in s.history.grants
    requires s.relay[e.down.index] in s.clients && parts.id in s.clients[s.relay[e.down.index]].state.relays
    requires Quiet(front, e.conn, s.relay[e.down.index])
    ensures Enabled(s, ClientTakes(|front|, None))
    ensures var s1 := Apply(s, ClientTakes(|front|, None)); Enabled(s1, HubTakes(|front|, {}, []))
    ensures var s2 := Apply(Apply(s, ClientTakes(|front|, None)), HubTakes(|front|, {}, []));
      Enabled(s2, ClientTakes(|front|, None))
    ensures Apply(Apply(Apply(s, ClientTakes(|front|, None)), HubTakes(|front|, {}, [])), ClientTakes(|front|, None))
      == Finished(s, front, e, parts)
  {
    var d, i := e.conn, e.down.index;
    var out := s.clients[d].state.handlers[parts.className](parts.data);
    Serving(s, front, e, parts);
    var s1 := Apply(s, ClientTakes(|front|, None));
    ReplyNotEmpty(parts.id, out);
    hide ReplyBody, ParseRequestBody, Apply, Enabled;
    Answering(s1, front, ToHub(d, Reply(i, ReplyBody(parts.id, out)), e.tag));
    var s2 := Apply(s1, HubTakes(|front|, {}, []));
    Delivering(s2, front, ToClient(s.relay[i], Answer(ReplyBody(parts.id, out)), e.tag), parts.id, out);
  }

  /** No message in front is on a channel the request still has to take. */
  ghost predicate Quiet(front: seq<Envelope>, d: Conn, c: Conn) {
    forall j :: 0 <= j < |front| ==>
      !(front[j].ToClient? && front[j].conn == d) && !(front[j].ToHub? && front[j].conn == d)
      && !(front[j].ToClient? && front[j].conn == c)
  }

  ghost function Finished(s: System, front: seq<Envelope>, e: Envelope, parts: RequestParts): System
    requires e.ToClient? && e.down.Relayed? && e.tag.Granted?
    requires e.conn in s.clients && parts.className in s.clients[e.conn].state.handlers
    requires e.down.index in s.relay && e.down.index in s.history.grants
    requires s.relay[e.down.index] in s.clients && parts.id in s.clients[s.relay[e.down.index]].state.relays
  {
    var i, h, client := e.down.index, s.history, s.clients[e.conn];
    var c := s.relay[i];
    var out := client.state.handlers[parts.className](parts.data);
    s.(relay := s.relay - {i},
       clients := s.clients[e.conn := Served(client, parts.className)],
       net := front,
       history := h.(
         served := h.served[e.tag.grant.origin := Service(parts.className, parts.data, out)],
         grants := h.grants - {i}, answered := h.answered + [h.grants[i].number],
         fired := h.fired + [Firing(Origin(c, s.clients[c].state.relays[parts.id]), out)]))
  }

  /** What a client found in its buffer is served, answered and delivered. */
  lemma FinishingStray(s: System, front: seq<Envelope>, e: Envelope, stray: Stray)
    requires s.net == front + [e] && e.ToClient? && e.down.Relayed? && e.down.body == []
    requires e.conn in s.clients && stray.className in s.clients[e.conn].state.handlers
    requires e.down.index in s.relay && e.down.index in s.history.grants
    requires s.relay[e.down.index] in s.clients && stray.id in s.clients[s.relay[e.down.index]].state.relays
    requires Quiet(front, e.conn, s.relay[e.down.index])
    ensures Enabled(s, ClientTakes(|front|, Some(stray)))
    ensures var s1 := Apply(s, ClientTakes(|front|, Some(stray))); Enabled(s1, HubTakes(|front|, {}, []))
    ensures var s2 := Apply(Apply(s, ClientTakes(|front|, Some(stray))), HubTakes(|front|, {}, []));
      Enabled(s2, ClientTakes(|front|, None))
    ensures var s2 := Apply(Apply(s, ClientTakes(|front|, Some(stray))), HubTakes(|front|, {}, []));
      var c, h, out := s.relay[e.down.index], s.history, s.clients[e.conn].state.handlers[stray.className](stray.data);
      Apply(s2, ClientTakes(|front|, None)).history == h.(
        grants := h.grants - {e.down.index}, answered := h.answered + [h.grants[e.down.index].number],
        fired := h.fired + [Firing(Origin(c, s.clients[c].state.relays[stray.id]), out)])
  {
    var d, i := e.conn, e.down.index;
    var out := s.clients[d].state.handlers[stray.className](stray.data);
    ServingStray(s, front, e, stray);
    var s1 := Apply(s, ClientTakes(|front|, Some(stray)));
    ReplyNotEmpty(stray.id, out);
    hide ReplyBody, ParseRequestBody, Apply, Enabled;
    Answering(s1, front, ToHub(d, Reply(i, ReplyBody(stray.id, out)), e.tag));
    var s2 := Apply(s1, HubTakes(|front|, {}, []));
    Delivering(s2, front, ToClient(s.relay[i], Answer(ReplyBody(stray.id, out)), e.tag), stray.id, out);
  }

  /** A client offers a capability, and the hub registers it. */
  lemma Offering(s: System, c: Conn, cap: Capability)
    requires s.net == [] && c in s.clients && s.clients[c].isOpen && cap.name !in s.clients[c].state.capabilities
    ensures Enabled(s, AddCapability(c, cap)) && Enabled(Apply(s, AddCapability(c, cap)), HubTakes(0, {}, []))
    ensures var client := s.clients[c];
      var state := client.state.(capabilities := client.state.capabilities[cap.name := (cap, 1)]);
      Apply(Apply(s, AddCapability(c, cap)), HubTakes(0, {}, []))
        == s.(registry := Register(s.registry, cap, c), clients := s.clients[c := client.(state := state)])
  {
    hide Register;
    Announcing(s, c, cap);
    var e := ToHub(c, AddCap(cap), Untagged);
    assert [] + [e] == [e];
    TakesLast([], e);
    hide Without, IsNext, Add;
  }

  lemma Announcing(s: System, c: Conn, cap: Capability)
    requires s.net == [] && c in s.clients && s.clients[c].isOpen && cap.name !in s.clients[c].state.capabilities
    ensures Enabled(s, AddCapability(c, cap))
    ensures var client := s.clients[c];
      var state := client.state.(capabilities := client.state.capabilities[cap.name := (cap, 1)]);
      Apply(s, AddCapability(c, cap))
        == s.(clients := s.clients[c := client.(state := state)], net := [ToHub(c, AddCap(cap), Untagged)])
  {}

  /** A client asks on an open connection. */
  lemma Asking(s: System, c: Conn, cap: Capability, className: bytes, data: bytes)
    requires s.net == [] && c in s.clients && s.clients[c].isOpen
    ensures Enabled(s, Ask(c, cap, className, data))
    ensures var client, h := s.clients[c], s.history;
      var id, n := Wrap32(client.state.lastId + 1), client.asked + 1;
      var state := client.state.(lastId := id, relays := client.state.relays[id := n]);
      Apply(s, Ask(c, cap, className, data)) == s.(
        clients := s.clients[c := client.(state := state, asked := n)],
        net := [ToHub(c, Request(cap, RequestBody(id, className, data)), Asked(Origin(c, n)))],
        history := h.(sent := h.sent[Origin(c, n) := Sent(className, data)]))
  {
    hide RequestBody;
  }

  /** The hub relays the request in front. */
  lemma Relaying(s: System, c: Conn, cap: Capability, body: bytes, o: Origin, live: set<Conn>, indices: seq<u32>)
    requires s.net == [ToHub(c, Request(cap, body), Asked(o))]
    requires |indices| == |Providers(s.registry, cap.name, live)| && FreshIndices(s.relay, indices)
    ensures Enabled(s, HubTakes(0, live, indices))
    ensures var h := s.history;
      Apply(s, HubTakes(0, live, indices)) == s.(
        relay := Allocate(s.relay, indices, c),
        net := RelayEnvelopes(Providers(s.registry, cap.name, live), indices, body, h.handedOut, o),
        history := h.(grants := GrantAll(h.grants, indices, h.handedOut, o), handedOut := h.handedOut + |indices|))
  {
    hide Providers, Allocate, GrantAll, FreshIndices, RelayEnvelopes;
    assert s.net == [] + s.net;
    TakesLast([], s.net[0]);
    assert [] + RelayEnvelopes(Providers(s.registry, cap.name, live), indices, body, s.history.handedOut, o)
      == RelayEnvelopes(Providers(s.registry, cap.name, live), indices, body, s.history.handedOut, o);
  }
}
