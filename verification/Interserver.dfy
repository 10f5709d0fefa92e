/** The hub, its clients and everything in flight between them, as one state
    machine: each handler is one step, each connection keeps its order. */
module Interserver {
  import opened Machine
  import opened Capabilities
  import opened Messages
  import opened Hub
  import opened ClientStates

  /** The serial-th request of a client. */
  datatype Origin = Origin(conn: Conn, serial: nat)
  /** The number-th index the hub handed out, and for which request. */
  datatype Grant = Grant(number: nat, origin: Origin)

  /** Where a message comes from. Tags are history: no step depends on them. */
  datatype Tag = Untagged | Asked(origin: Origin) | Granted(grant: Grant)

  datatype Envelope =
    | ToHub(conn: Conn, up: HubMessage, tag: Tag)
    | ToClient(conn: Conn, down: ClientMessage, tag: Tag)

  datatype Client = Client(state: ClientState, isOpen: bool, listed: bool, asked: nat)

  datatype Sent = Sent(className: bytes, data: bytes)
  datatype Service = Service(className: bytes, data: bytes, output: bytes)
  datatype Firing = Firing(origin: Origin, output: bytes)

  /** What happened so far. */
  datatype History = History(
    grants: map<u32, Grant>,
    handedOut: nat,
    answered: seq<nat>,
    sent: map<Origin, Sent>,
    served: map<Origin, Service>,
    fired: seq<Firing>)

  /** `net` holds what is in flight, in the order of sending. */
  datatype System = System(
    registry: Registry,
    relay: map<u32, Conn>,
    clients: map<Conn, Client>,
    net: seq<Envelope>,
    history: History)

  /** What a client may make of a body that ends too early: the original reads on
      into whatever its buffer holds. */
  datatype Stray = Stray(className: bytes, id: u32, data: bytes)

  datatype Step =
    | Connect(c: Conn)
    | AddCapability(c: Conn, cap: Capability)
    | RemoveCapability(c: Conn, cap: Capability)
    | SendList(c: Conn, caps: seq<Capability>)
    | RegisterHandler(c: Conn, className: bytes, handler: Handler)
    | Ask(c: Conn, cap: Capability, className: bytes, data: bytes)
    | HubTakes(i: nat, live: set<Conn>, indices: seq<u32>)
    | ClientTakes(i: nat, stray: Option<Stray>)

  ghost predicate Init(s: System) {
    && s.registry == [] && s.relay == map[] && s.net == []
    && s.history == History(map[], 0, [], map[], map[], [])
    && forall c :: c in s.clients ==> s.clients[c] == Client(ClientState(map[], 0, map[], map[]), false, false, 0)
  }

  predicate SameChannel(a: Envelope, b: Envelope) {
    a.ToHub? == b.ToHub? && a.conn == b.conn
  }

  /** Nothing sent before it on the same channel is still in flight. */
  ghost predicate IsNext(net: seq<Envelope>, i: nat) {
    i < |net| && forall j :: 0 <= j < i ==> !SameChannel(net[j], net[i])
  }

  ghost predicate Enabled(s: System, step: Step) {
    match step
    case Connect(c) => c in s.clients && !s.clients[c].isOpen
    case AddCapability(c, _) => c in s.clients
    case RemoveCapability(c, _) => c in s.clients
    case SendList(c, caps) =>
      c in s.clients && s.clients[c].isOpen && !s.clients[c].listed && IsListing(s.clients[c].state, caps)
    case RegisterHandler(c, _, _) => c in s.clients
    case Ask(c, _, _, _) => c in s.clients
    case HubTakes(i, live, indices) =>
      && IsNext(s.net, i) && s.net[i].ToHub?
      && (s.net[i].up.Request? ==>
        |indices| == |Providers(s.registry, s.net[i].up.cap.name, live)| && FreshIndices(s.relay, indices))
    case ClientTakes(i, _) =>
      IsNext(s.net, i) && s.net[i].ToClient? && s.net[i].conn in s.clients
  }

  function Without(net: seq<Envelope>, i: nat): seq<Envelope>
    requires i < |net|
  {
    net[..i] + net[i + 1..]
  }

  function Sending(c: Conn, ms: seq<HubMessage>, tag: Tag): (r: seq<Envelope>)
    ensures |r| == |ms|
  {
    seq(|ms|, i requires 0 <= i < |ms| => ToHub(c, ms[i], tag))
  }

  ghost function Apply(s: System, step: Step): System
    requires Enabled(s, step)
  {
    match step
    case Connect(c) => s.(clients := s.clients[c := s.clients[c].(isOpen := true)])
    case AddCapability(c, cap) =>
      var client := s.clients[c];
      var (state, ms) := Add(client.state, cap, client.isOpen);
      s.(clients := s.clients[c := client.(state := state)], net := s.net + Sending(c, ms, Untagged))
    case RemoveCapability(c, cap) =>
      var client := s.clients[c];
      var (state, ms) := Remove(client.state, cap, client.isOpen);
      s.(clients := s.clients[c := client.(state := state)], net := s.net + Sending(c, ms, Untagged))
    case SendList(c, caps) =>
      var ms := if caps == [] then [] else [ListCaps(caps)];
      s.(clients := s.clients[c := s.clients[c].(listed := true)], net := s.net + Sending(c, ms, Untagged))
    case RegisterHandler(c, className, handler) =>
      var client := s.clients[c];
      var state := client.state.(handlers := client.state.handlers[className := handler]);
      s.(clients := s.clients[c := client.(state := state)])
    case Ask(c, cap, className, data) => AskApplied(s, c, cap, className, data)
    case HubTakes(i, live, indices) => HubApplied(s, i, live, indices)
    case ClientTakes(i, stray) =>
      match s.net[i].down
      case Relayed(index, body) => RelayedApplied(s, i, index, body, stray)
      case Answer(body) => AnswerApplied(s, i, body)
  }

  /** The callback is told apart by the number of the request. What is sent on a
      closed connection is lost, but the request counts and its callback waits. */
  ghost function AskApplied(s: System, c: Conn, cap: Capability, className: bytes, data: bytes): System
    requires c in s.clients
  {
    var client := s.clients[c];
    var origin := Origin(c, client.asked + 1);
    var (state, m) := AskFor(client.state, cap, className, data, origin.serial);
    s.(clients := s.clients[c := client.(state := state, asked := origin.serial)],
       net := s.net + Sending(c, if client.isOpen then [m] else [], Asked(origin)),
       history := s.history.(sent := s.history.sent[origin := Sent(className, data)]))
  }

  /** The messages of handler 7, numbered from `first`. */
  function RelayEnvelopes(providers: seq<Conn>, indices: seq<u32>, body: bytes, first: nat, origin: Origin)
    : (r: seq<Envelope>)
    requires |indices| == |providers|
    ensures |r| == |providers|
  {
    var out := RelayedTo(providers, indices, body);
    seq(|out|, k requires 0 <= k < |out| => ToClient(out[k].0, out[k].1, Granted(Grant(first + k, origin))))
  }

  function GrantAll(grants: map<u32, Grant>, indices: seq<u32>, first: nat, origin: Origin): map<u32, Grant> {
    if indices == [] then grants
    else
      var n := |indices| - 1;
      GrantAll(grants, indices[..n], first, origin)[indices[n] := Grant(first + n, origin)]
  }

  /** The count of a list travels in 16 bits, and the hub reads that many. */
  function Counted(caps: seq<Capability>): seq<Capability> { caps[..Wrap16(|caps|)] }

  ghost function HubApplied(s: System, i: nat, live: set<Conn>, indices: seq<u32>): System
    requires i < |s.net| && s.net[i].ToHub?
    requires s.net[i].up.Request? ==> |indices| == |Providers(s.registry, s.net[i].up.cap.name, live)|
  {
    var e, rest, h := s.net[i], Without(s.net, i), s.history;
    match e.up
    case AddCap(cap) => s.(registry := Register(s.registry, cap, e.conn), net := rest)
    case RemoveCap(cap) => s.(registry := Unregister(s.registry, cap), net := rest)
    case ListCaps(caps) => s.(registry := RegisterAll(s.registry, Counted(caps), e.conn), net := rest)
    case Request(cap, body) =>
      var origin := if e.tag.Asked? then e.tag.origin else Origin(e.conn, 0);
      var providers := Providers(s.registry, cap.name, live);
      s.(relay := Allocate(s.relay, indices, e.conn),
         net := rest + RelayEnvelopes(providers, indices, body, h.handedOut, origin),
         history := h.(grants := GrantAll(h.grants, indices, h.handedOut, origin),
                       handedOut := h.handedOut + |indices|))
    case Reply(index, body) =>
      if index !in s.relay then s.(net := rest)
      else
        var out := if body == [] then [] else [ToClient(s.relay[index], Answer(body), e.tag)];
        var number := if index in h.grants then [h.grants[index].number] else [];
        s.(relay := s.relay - {index},
           net := rest + out,
           history := h.(grants := h.grants - {index}, answered := h.answered + number))
  }

  ghost function RelayedApplied(s: System, i: nat, index: u32, body: bytes, stray: Option<Stray>): System
    requires i < |s.net| && s.net[i].ToClient? && s.net[i].conn in s.clients
  {
    var e, rest, h := s.net[i], Without(s.net, i), s.history;
    var client := s.clients[e.conn];
    var parsed := ParseRequestBody(body);
    if parsed.Some? then
      var parts := parsed.value;
      var (state, ms) := Serve(client.state, index, parts);
      var served := if ms != [] && e.tag.Granted?
        then h.served[e.tag.grant.origin :=
          Service(parts.className, parts.data, client.state.handlers[parts.className](parts.data))]
        else h.served;
      s.(clients := s.clients[e.conn := client.(state := state)],
         net := rest + Sending(e.conn, ms, e.tag),
         history := h.(served := served))
    else if stray.Some? then
      var parts := RequestParts(stray.value.id, stray.value.className, stray.value.data);
      var (state, ms) := Serve(client.state, index, parts);
      s.(clients := s.clients[e.conn := client.(state := state)], net := rest + Sending(e.conn, ms, e.tag))
    else s.(net := rest)
  }

  ghost function AnswerApplied(s: System, i: nat, body: bytes): System
    requires i < |s.net| && s.net[i].ToClient? && s.net[i].conn in s.clients
  {
    var e, rest, h := s.net[i], Without(s.net, i), s.history;
    var parsed := ParseReplyBody(body);
    if parsed.None? then s.(net := rest)
    else
      var callback := Fired(s.clients[e.conn].state, parsed.value);
      if callback.None? then s.(net := rest)
      else
        s.(net := rest,
           history := h.(fired := h.fired + [Firing(Origin(e.conn, callback.value), parsed.value.output)]))
  }

  /** Runs: any steps, in any order the guards allow. */
  ghost predicate IsRun(states: seq<System>, steps: seq<Step>) {
    && |states| == |steps| + 1
    && Init(states[0])
    && forall k :: 0 <= k < |steps| ==> Enabled(states[k], steps[k]) && states[k + 1] == Apply(states[k], steps[k])
  }

  /** What a message in flight is known by. */
  datatype Which = ByIndex | ByGrant | ByOrigin
  datatype Key = IndexKey(index: u32) | GrantKey(number: nat) | OriginKey(origin: Origin)

  function KeyOf(w: Which, e: Envelope): Option<Key> {
    match w
    case ByIndex =>
      if e.ToHub? && e.up.Reply? then Some(IndexKey(e.up.index))
      else if e.ToClient? && e.down.Relayed? then Some(IndexKey(e.down.index))
      else None
    case ByGrant => if e.tag.Granted? then Some(GrantKey(e.tag.grant.number)) else None
    case ByOrigin =>
      if e.tag.Granted? then Some(OriginKey(e.tag.grant.origin))
      else if e.tag.Asked? then Some(OriginKey(e.tag.origin))
      else None
  }

  ghost predicate Unique(w: Which, net: seq<Envelope>) {
    forall i, j :: 0 <= i < j < |net| && KeyOf(w, net[i]).Some? ==> KeyOf(w, net[i]) != KeyOf(w, net[j])
  }

  /** A message passed on under its own key. */
  lemma UniquePassedOn(w: Which, net: seq<Envelope>, i: nat, more: seq<Envelope>)
    requires i < |net| && Unique(w, net) && |more| <= 1
    requires forall m :: 0 <= m < |more| ==> KeyOf(w, more[m]).None? || KeyOf(w, more[m]) == KeyOf(w, net[i])
    ensures Unique(w, Without(net, i) + more)
  {}

  lemma UniqueSent(w: Which, net: seq<Envelope>, more: seq<Envelope>)
    requires Unique(w, net) && Unique(w, more)
    requires forall m, j :: 0 <= m < |more| && 0 <= j < |net| && KeyOf(w, more[m]).Some? ==>
      KeyOf(w, more[m]) != KeyOf(w, net[j])
    ensures Unique(w, net + more)
  {}
}
