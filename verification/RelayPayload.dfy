/** Payload safety: with one live provider at each relay, at most 2^32 requests
    a client and class names that fit their length, data and answers arrive
    unchanged and each callback fires at most once. */
module RelayPayload {
  import opened Machine
  import opened Capabilities
  import opened Messages
  import opened Hub
  import opened ClientStates
  import opened Interserver
  import opened RelaySafety

  /** As many requests as there are ids. */
  const REQUESTS: nat := 0x1_0000_0000

  /** The steps of such a run. */
  ghost predicate Payable(s: System, step: Step) {
    match step
    case Ask(c, _, className, _) =>
      TextFits(className) && c in s.clients && s.clients[c].asked < REQUESTS
    case HubTakes(_, _, indices) => |indices| <= 1
    case _ => true
  }

  /** The request was made by a client. */
  ghost predicate Known(clients: map<Conn, Client>, o: Origin) {
    o.conn in clients && 1 <= o.serial <= clients[o.conn].asked
  }

  /** Ids and callbacks are the numbers of the requests. */
  ghost predicate ClientInv(client: Client) {
    && client.asked <= REQUESTS && client.state.lastId == Wrap32(client.asked)
    && (forall id: u32 :: id in client.state.relays <==> SerialOf(id) <= client.asked)
    && (forall id :: id in client.state.relays ==> client.state.relays[id] == SerialOf(id))
  }

  /** The request that carries an id: the last of them carries 0. */
  function SerialOf(id: u32): (n: nat)
    ensures 1 <= n <= REQUESTS && Wrap32(n) == id
  {
    if id == 0 then REQUESTS else id
  }

  lemma SerialOfId(serial: nat)
    requires 1 <= serial <= REQUESTS
    ensures SerialOf(Wrap32(serial)) == serial
  {}

  ghost predicate HasFired(h: History, o: Origin) {
    exists j :: 0 <= j < |h.fired| && h.fired[j].origin == o
  }

  /** A request under way: asked for, carrying its own data, not served yet. */
  ghost predicate Travelling(h: History, o: Origin, body: bytes) {
    && o in h.sent && o !in h.served && 0 < o.serial <= REQUESTS
    && body == RequestBody(Wrap32(o.serial), h.sent[o].className, h.sent[o].data)
  }

  /** An answer under way: served, carrying the handler's output, not delivered. */
  ghost predicate Returning(h: History, o: Origin, body: bytes) {
    && o in h.served && !HasFired(h, o) && 0 < o.serial <= REQUESTS
    && body == ReplyBody(Wrap32(o.serial), h.served[o].output)
  }

  ghost predicate Faithful(h: History, e: Envelope) {
    match e
    case ToHub(_, Request(_, body), tag) => tag.Asked? && Travelling(h, tag.origin, body)
    case ToHub(_, Reply(_, body), tag) => tag.Granted? && Returning(h, tag.grant.origin, body)
    case ToHub(_, _, tag) => tag == Untagged
    case ToClient(_, Relayed(_, body), tag) => tag.Granted? && Travelling(h, tag.grant.origin, body)
    case ToClient(_, Answer(body), tag) => tag.Granted? && Returning(h, tag.grant.origin, body)
  }

  /** What was served was what was sent; what was delivered was what was served,
      once each. */
  ghost predicate Records(clients: map<Conn, Client>, h: History) {
    && (forall o :: o in h.sent ==> Known(clients, o) && TextFits(h.sent[o].className))
    && (forall o :: o in h.served ==>
      o in h.sent && h.served[o].className == h.sent[o].className && h.served[o].data == h.sent[o].data)
    && (forall j :: 0 <= j < |h.fired| ==>
      h.fired[j].origin in h.served && h.fired[j].output == h.served[h.fired[j].origin].output)
    && (forall j, k :: 0 <= j < k < |h.fired| ==> h.fired[j].origin != h.fired[k].origin)
  }

  ghost predicate AllFaithful(h: History, net: seq<Envelope>) {
    forall j :: 0 <= j < |net| ==> Faithful(h, net[j])
  }

  ghost predicate AllClients(clients: map<Conn, Client>) {
    forall c :: c in clients ==> ClientInv(clients[c])
  }

  ghost predicate PayloadInv(s: System) {
    && AllClients(s.clients)
    && Records(s.clients, s.history)
    && AllFaithful(s.history, s.net)
    && Unique(ByOrigin, s.net)
  }

  lemma FaithfulAfter(h: History, net: seq<Envelope>, i: nat, more: seq<Envelope>, h': History)
    requires i < |net|
    requires forall j :: 0 <= j < |net| && j != i ==> Faithful(h', net[j])
    requires AllFaithful(h', more)
    ensures AllFaithful(h', Without(net, i) + more)
  {}

  /** Serving one request, or delivering one answer, concerns no other message. */
  lemma OtherOrigin(s: System, i: nat, j: nat)
    requires PayloadInv(s) && i < |s.net| && j < |s.net| && i != j
    requires KeyOf(ByOrigin, s.net[i]).Some?
    ensures Faithful(s.history, s.net[j])
    ensures KeyOf(ByOrigin, s.net[j]) != KeyOf(ByOrigin, s.net[i])
  {}

  lemma FaithfulServed(h: History, e: Envelope, o: Origin, service: Service)
    requires Faithful(h, e) && KeyOf(ByOrigin, e) != Some(OriginKey(o)) && o !in h.served
    ensures Faithful(h.(served := h.served[o := service]), e)
  {}

  lemma FaithfulFired(h: History, e: Envelope, o: Origin, output: bytes)
    requires Faithful(h, e) && KeyOf(ByOrigin, e) != Some(OriginKey(o))
    ensures Faithful(h.(fired := h.fired + [Firing(o, output)]), e)
  {}

  lemma FaithfulAsked(clients: map<Conn, Client>, h: History, e: Envelope, o: Origin, sent: Sent)
    requires Records(clients, h) && Faithful(h, e) && o !in h.sent
    ensures Faithful(h.(sent := h.sent[o := sent]), e) && KeyOf(ByOrigin, e) != Some(OriginKey(o))
  {}

  lemma RecordsAsked(clients: map<Conn, Client>, h: History, c: Conn, client: Client, sent: Sent)
    requires Records(clients, h) && c in clients && client.asked == clients[c].asked + 1 && TextFits(sent.className)
    ensures Origin(c, client.asked) !in h.sent
    ensures Records(clients[c := client], h.(sent := h.sent[Origin(c, client.asked) := sent]))
  {}

  lemma ClientAsked(client: Client, cap: Capability, className: bytes, data: bytes)
    requires ClientInv(client) && client.asked < REQUESTS
    ensures var (state, m) := AskFor(client.state, cap, className, data, client.asked + 1);
      && ClientInv(client.(state := state, asked := client.asked + 1))
      && m == Request(cap, RequestBody(Wrap32(client.asked + 1), className, data))
  {
    hide RequestBody;
    SerialOfId(client.asked + 1);
    assert forall id: u32 :: SerialOf(id) == client.asked + 1 ==> id == Wrap32(client.asked + 1);
    hide SerialOf;
  }

  /** A client asks. */
  lemma AskKeeps(s: System, c: Conn, cap: Capability, className: bytes, data: bytes)
    requires PayloadInv(s) && c in s.clients && TextFits(className) && s.clients[c].asked < REQUESTS
    ensures PayloadInv(AskApplied(s, c, cap, className, data))
  {
    hide RequestBody, ClientInv, Known, Records, KeyOf;
    var s' := AskApplied(s, c, cap, className, data);
    var o, sent := Origin(c, s.clients[c].asked + 1), Sent(className, data);
    ClientAsked(s.clients[c], cap, className, data);
    RecordsAsked(s.clients, s.history, c, s'.clients[c], sent);
    var more := s'.net[|s.net|..];
    assert s'.net == s.net + more;
    forall j | 0 <= j < |s.net|
      ensures Faithful(s'.history, s.net[j]) && KeyOf(ByOrigin, s.net[j]) != Some(OriginKey(o))
    {
      FaithfulAsked(s.clients, s.history, s.net[j], o, sent);
    }
    NewOrigin(s.clients, s.history, o);
    if more != [] { AskedKey(c, more[0].up, o); }
    UniqueSent(ByOrigin, s.net, more);
  }

  lemma NewOrigin(clients: map<Conn, Client>, h: History, o: Origin)
    requires Records(clients, h) && o !in h.sent
    ensures o !in h.served
  {}

  lemma AskedKey(c: Conn, m: HubMessage, o: Origin)
    ensures KeyOf(ByOrigin, ToHub(c, m, Asked(o))) == Some(OriginKey(o))
  {}

  /** The hub relays to one provider at most. */
  lemma RelayKeepsPayload(s: System, i: nat, live: set<Conn>, indices: seq<u32>)
    requires PayloadInv(s) && Enabled(s, HubTakes(i, live, indices)) && s.net[i].up.Request? && |indices| <= 1
    ensures PayloadInv(HubApplied(s, i, live, indices))
  {
    hide Allocate, GrantAll, Providers, Travelling;
    var e, h := s.net[i], s.history;
    assert Faithful(h, e);
    var s' := HubApplied(s, i, live, indices);
    var providers := Providers(s.registry, e.up.cap.name, live);
    var more := RelayEnvelopes(providers, indices, e.up.body, h.handedOut, e.tag.origin);
    assert s'.net == Without(s.net, i) + more;
    SameRecords(s, s');
    UniquePassedOn(ByOrigin, s.net, i, more);
    FaithfulAfter(h, s.net, i, more, s'.history);
  }

  lemma SameRecords(s: System, s': System)
    requires PayloadInv(s) && s'.clients == s.clients
    requires s'.history.sent == s.history.sent && s'.history.served == s.history.served
    requires s'.history.fired == s.history.fired
    ensures AllClients(s'.clients) && Records(s'.clients, s'.history)
    ensures forall j :: 0 <= j < |s.net| ==> Faithful(s'.history, s.net[j])
    ensures forall e :: Faithful(s.history, e) ==> Faithful(s'.history, e)
  {}

  /** The hub takes anything else: a reply becomes an answer with its body. */
  lemma HubKeepsPayload(s: System, i: nat, live: set<Conn>, indices: seq<u32>)
    requires PayloadInv(s) && Enabled(s, HubTakes(i, live, indices)) && !s.net[i].up.Request?
    ensures PayloadInv(HubApplied(s, i, live, indices))
  {
    hide Returning;
    var e, s' := s.net[i], HubApplied(s, i, live, indices);
    assert Faithful(s.history, e);
    var more := s'.net[|s.net| - 1..];
    assert s'.net == Without(s.net, i) + more;
    SameRecords(s, s');
    UniquePassedOn(ByOrigin, s.net, i, more);
    FaithfulAfter(s.history, s.net, i, more, s'.history);
  }

  /** The handler sees the very bytes that were sent, and its output sets out. */
  lemma ServeKeeps(s: System, i: nat, index: u32, body: bytes, stray: Option<Stray>)
    requires PayloadInv(s) && Enabled(s, ClientTakes(i, stray)) && s.net[i].down == Relayed(index, body)
    ensures PayloadInv(RelayedApplied(s, i, index, body, stray))
  {
    hide RequestBody, ParseRequestBody, Records, ClientInv, Travelling;
    var e, h, s' := s.net[i], s.history, RelayedApplied(s, i, index, body, stray);
    assert Faithful(h, e);
    var o := e.tag.grant.origin;
    UnderWay(s.clients, h, o, body);
    var more := s'.net[|s.net| - 1..];
    assert s'.net == Without(s.net, i) + more;
    if more == [] {
      assert s'.history == h && s'.net == Without(s.net, i) + [];
      assert s'.clients == s.clients;
      UniquePassedOn(ByOrigin, s.net, i, []);
      FaithfulAfter(h, s.net, i, [], h);
    } else {
      var parts := RequestParts(Wrap32(o.serial), h.sent[o].className, h.sent[o].data);
      var output := s.clients[e.conn].state.handlers[parts.className](parts.data);
      assert more == [ToHub(e.conn, Reply(index, ReplyBody(Wrap32(o.serial), output)), e.tag)];
      ServedOnce(s, i, o, Service(parts.className, parts.data, output), index);
      HandlersOnly(s.clients, h, e.conn, s'.clients[e.conn]);
      RecordsServed(s'.clients, h, o, output);
    }
  }

  lemma UnderWay(clients: map<Conn, Client>, h: History, o: Origin, body: bytes)
    requires Records(clients, h) && Travelling(h, o, body)
    ensures ParseRequestBody(body) == Some(RequestParts(Wrap32(o.serial), h.sent[o].className, h.sent[o].data))
    ensures o in h.sent && o !in h.served && !HasFired(h, o) && 0 < o.serial <= REQUESTS
  {
    hide RequestBody, ParseRequestBody;
    RequestBodyRoundTrip(Wrap32(o.serial), h.sent[o].className, h.sent[o].data);
  }

  lemma ServedOnce(s: System, i: nat, o: Origin, service: Service, index: u32)
    requires PayloadInv(s) && i < |s.net| && KeyOf(ByOrigin, s.net[i]) == Some(OriginKey(o)) && s.net[i].tag.Granted?
    requires o !in s.history.served && !HasFired(s.history, o) && 0 < o.serial <= REQUESTS
    ensures var h' := s.history.(served := s.history.served[o := service]);
      var more := [ToHub(s.net[i].conn, Reply(index, ReplyBody(Wrap32(o.serial), service.output)), s.net[i].tag)];
      AllFaithful(h', Without(s.net, i) + more) && Unique(ByOrigin, Without(s.net, i) + more)
  {
    hide ReplyBody, Travelling, Records;
    var h' := s.history.(served := s.history.served[o := service]);
    var more := [ToHub(s.net[i].conn, Reply(index, ReplyBody(Wrap32(o.serial), service.output)), s.net[i].tag)];
    forall j | 0 <= j < |s.net| && j != i ensures Faithful(h', s.net[j]) {
      OtherOrigin(s, i, j);
      FaithfulServed(s.history, s.net[j], o, service);
    }
    UniquePassedOn(ByOrigin, s.net, i, more);
    FaithfulAfter(s.history, s.net, i, more, h');
  }

  lemma HandlersOnly(clients: map<Conn, Client>, h: History, c: Conn, client: Client)
    requires AllClients(clients) && Records(clients, h) && c in clients && client.asked == clients[c].asked
    requires client.state.lastId == clients[c].state.lastId && client.state.relays == clients[c].state.relays
    ensures AllClients(clients[c := client]) && Records(clients[c := client], h)
  {}

  lemma RecordsServed(clients: map<Conn, Client>, h: History, o: Origin, output: bytes)
    requires Records(clients, h) && o in h.sent && o !in h.served
    ensures Records(clients, h.(served := h.served[o := Service(h.sent[o].className, h.sent[o].data, output)]))
  {}

  /** The answer reaches the callback of its own request, for the first time. */
  lemma AnswerKeepsPayload(s: System, i: nat, body: bytes)
    requires PayloadInv(s) && IndexInv(s)
    requires i < |s.net| && s.net[i].ToClient? && s.net[i].conn in s.clients && s.net[i].down == Answer(body)
    ensures PayloadInv(AnswerApplied(s, i, body))
  {
    hide IndexInv, Records, AllFaithful, Unique, AllClients, Returning, HasFired, AnswerApplied, Without;
    AnswerOnItsWay(s, i, body);
    var h, o := s.history, s.net[i].tag.grant.origin;
    AnswerFires(s, i, body);
    RecordsFired(s.clients, h, o);
    DeliveredOnce(s, i, o, h.served[o].output);
  }

  lemma AnswerOnItsWay(s: System, i: nat, body: bytes)
    requires AllFaithful(s.history, s.net) && IndexInv(s)
    requires i < |s.net| && s.net[i].ToClient? && s.net[i].down == Answer(body)
    ensures s.net[i].tag.Granted?
    ensures var o := s.net[i].tag.grant.origin;
      && o.conn == s.net[i].conn && Returning(s.history, o, body)
      && o in s.history.served && !HasFired(s.history, o)
      && KeyOf(ByOrigin, s.net[i]) == Some(OriginKey(o))
  {
    BackedAt(s, i);
    hide IndexInv;
    assert Faithful(s.history, s.net[i]);
  }

  lemma DeliveredOnce(s: System, i: nat, o: Origin, output: bytes)
    requires PayloadInv(s) && i < |s.net| && KeyOf(ByOrigin, s.net[i]) == Some(OriginKey(o))
    ensures AllFaithful(s.history.(fired := s.history.fired + [Firing(o, output)]), Without(s.net, i))
    ensures Unique(ByOrigin, Without(s.net, i))
  {
    hide Records, AllClients, Faithful, KeyOf;
    var h' := s.history.(fired := s.history.fired + [Firing(o, output)]);
    forall j | 0 <= j < |s.net| && j != i ensures Faithful(h', s.net[j]) {
      OtherOrigin(s, i, j);
      FaithfulFired(s.history, s.net[j], o, output);
    }
    assert Without(s.net, i) == Without(s.net, i) + [];
    UniquePassedOn(ByOrigin, s.net, i, []);
    FaithfulAfter(s.history, s.net, i, [], h');
  }

  lemma AnswerFires(s: System, i: nat, body: bytes)
    requires AllClients(s.clients) && Records(s.clients, s.history)
    requires i < |s.net| && s.net[i].ToClient? && s.net[i].tag.Granted? && s.net[i].conn in s.clients
    requires var o := s.net[i].tag.grant.origin; o.conn == s.net[i].conn && Returning(s.history, o, body)
    ensures var h, o := s.history, s.net[i].tag.grant.origin;
      AnswerApplied(s, i, body)
        == s.(net := Without(s.net, i), history := h.(fired := h.fired + [Firing(o, h.served[o].output)]))
  {
    hide ReplyBody, ParseReplyBody, Without;
    var o := s.net[i].tag.grant.origin;
    assert o in s.history.sent && Known(s.clients, o) && ClientInv(s.clients[o.conn]);
    hide Records, HasFired;
    SerialOfId(o.serial);
    ReplyBodyRoundTrip(Wrap32(o.serial), s.history.served[o].output);
  }

  lemma RecordsFired(clients: map<Conn, Client>, h: History, o: Origin)
    requires Records(clients, h) && o in h.served && !HasFired(h, o)
    ensures Records(clients, h.(fired := h.fired + [Firing(o, h.served[o].output)]))
  {}

  /** Steps of a client that ask for nothing. */
  lemma OwnKeepsPayload(s: System, c: Conn, client: Client, ms: seq<HubMessage>)
    requires PayloadInv(s) && c in s.clients && client.asked == s.clients[c].asked
    requires client.state.lastId == s.clients[c].state.lastId && client.state.relays == s.clients[c].state.relays
    requires forall m :: 0 <= m < |ms| ==> !ms[m].Request? && !ms[m].Reply?
    ensures PayloadInv(s.(clients := s.clients[c := client], net := s.net + Sending(c, ms, Untagged)))
  {}

  lemma OwnStepKeepsPayload(s: System, step: Step)
    requires PayloadInv(s) && Enabled(s, step) && !step.HubTakes? && !step.ClientTakes? && !step.Ask?
    ensures PayloadInv(Apply(s, step))
  {
    hide PayloadInv;
    var s' := Apply(s, step);
    match step
    case AddCapability(c, cap) =>
      OwnKeepsPayload(s, c, s'.clients[c], Add(s.clients[c].state, cap, s.clients[c].isOpen).1);
    case RemoveCapability(c, cap) =>
      OwnKeepsPayload(s, c, s'.clients[c], Remove(s.clients[c].state, cap, s.clients[c].isOpen).1);
    case SendList(c, caps) => OwnKeepsPayload(s, c, s'.clients[c], if caps == [] then [] else [ListCaps(caps)]);
    case Connect(c) => NothingSent(s, c, s'.clients[c]);
    case RegisterHandler(c, _, _) => NothingSent(s, c, s'.clients[c]);
  }

  lemma NothingSent(s: System, c: Conn, client: Client)
    requires PayloadInv(s) && c in s.clients && client.asked == s.clients[c].asked
    requires client.state.lastId == s.clients[c].state.lastId && client.state.relays == s.clients[c].state.relays
    ensures PayloadInv(s.(clients := s.clients[c := client]))
  {}

  lemma StepKeepsPayload(s: System, step: Step)
    requires PayloadInv(s) && IndexInv(s) && Enabled(s, step) && Payable(s, step)
    ensures PayloadInv(Apply(s, step))
  {
    match step
    case Ask(c, cap, className, data) => AskKeeps(s, c, cap, className, data);
    case HubTakes(i, live, indices) =>
      if s.net[i].up.Request? { RelayKeepsPayload(s, i, live, indices); } else { HubKeepsPayload(s, i, live, indices); }
    case ClientTakes(i, stray) =>
      match s.net[i].down {
        case Relayed(index, body) => ServeKeeps(s, i, index, body, stray);
        case Answer(body) => AnswerKeepsPayload(s, i, body);
      }
    case _ => OwnStepKeepsPayload(s, step);
  }

  /** Throughout such a run: what a handler saw is what the request carried, what a
      callback got is the output of the handler that served its own request, and no
      request's callback fired twice. */
  lemma {:induction false} PayloadSafety(states: seq<System>, steps: seq<Step>, k: nat)
    requires IsRun(states, steps) && k < |states|
    requires forall j :: 0 <= j < |steps| ==> Payable(states[j], steps[j])
    ensures PayloadInv(states[k])
  {
    if k > 0 {
      PayloadSafety(states, steps, k - 1);
      IndexSafety(states, steps, k - 1);
      StepKeepsPayload(states[k - 1], steps[k - 1]);
    }
  }

  /** What reached a callback: the output of the handler that was given the very
      class name and data of the request the callback was registered for. */
  lemma CallbackGetsItsAnswer(states: seq<System>, steps: seq<Step>, k: nat, i: nat)
    requires IsRun(states, steps) && k < |states|
    requires forall j :: 0 <= j < |steps| ==> Payable(states[j], steps[j])
    requires i < |states[k].history.fired|
    ensures var h := states[k].history;
      var o := h.fired[i].origin;
      && o in h.sent && o in h.served
      && h.served[o] == Service(h.sent[o].className, h.sent[o].data, h.fired[i].output)
      && forall j :: 0 <= j < |h.fired| && j != i ==> h.fired[j].origin != o
  {
    PayloadSafety(states, steps, k);
    var h := states[k].history;
    assert forall j :: 0 <= j < i ==> h.fired[j].origin != h.fired[i].origin;
  }

  /** A request id is that of one request only, exactly below 2^32 requests. */
  lemma IdsDistinct(n: nat)
    ensures (forall a: nat, b: nat :: 1 <= a < b <= n ==> Wrap32(a) != Wrap32(b)) <==> n <= 0x1_0000_0000
  {
    if n > 0x1_0000_0000 {
      assert Wrap32(1) == Wrap32(0x1_0000_0001);
    }
  }

  /** A second live provider is sent a message without the request's body
      (`TwoProviders.SecondProviderFiresTwice` says what can come of it). */
  lemma SecondProviderGetsNothing(providers: seq<Conn>, indices: seq<u32>, id: u32, className: bytes, data: bytes)
    requires |providers| == |indices|
    ensures var body := RequestBody(id, className, data);
      (forall k :: 0 <= k < |providers| ==> RelayedTo(providers, indices, body)[k].1 == Relayed(indices[k], body))
      <==> |providers| <= 1
  {
    var body := RequestBody(id, className, data);
    if |providers| > 1 {
      assert RelayedTo(providers, indices, body)[1].1 == Relayed(indices[1], []);
    }
  }
}
