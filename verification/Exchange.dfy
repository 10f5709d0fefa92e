/** The two views of a message brought together: what the classes of hub and client
    do with bytes is what a step of the state machine does with the message. */
module Exchange {
  import opened Machine
  import opened PacketBuffer
  import opened Messages
  import opened Hub
  import opened ClientStates
  import opened Interserver
  import opened Connection
  import opened InterserverServices
  import opened InterserverClients

  /** A step of the hub is what `handle` is proved to do, message by message. */
  lemma HandleIsStep(s: System, i: nat, live: set<Conn>, indices: seq<u32>,
    reg': Registry, relay': map<u32, Conn>, out: seq<(Conn, bytes)>)
    requires i < |s.net| && s.net[i].ToHub? && HubFits(s.net[i].up)
    requires HubTransition(s.registry, s.relay, s.net[i].conn, s.net[i].up, live, indices, reg', relay', out)
    ensures s.net[i].up.Request? ==>
      |indices| == |Providers(s.registry, s.net[i].up.cap.name, live)| && FreshIndices(s.relay, indices)
    ensures var s', n := HubApplied(s, i, live, indices), |s.net| - 1;
      && s'.registry == reg' && s'.relay == relay'
      && |s'.net| == n + |out| && s'.net[..n] == Without(s.net, i)
      && forall k :: 0 <= k < |out| ==>
        s'.net[n + k].ToClient? && out[k] == (s'.net[n + k].conn, EncodeClient(s'.net[n + k].down))
  {
    hide Providers, Allocate, FreshIndices, GrantAll, EncodeClient, Register, Unregister, RegisterAll;
    var m := s.net[i].up;
    if m.ListCaps? { assert m.caps[..|m.caps|] == m.caps; }
    if m.Reply? && m.index !in s.relay { assert s.relay - {m.index} == s.relay; }
  }

  /** A step of a client is what `receive` is proved to do. */
  lemma ReceiveIsStep(s: System, i: nat)
    requires Enabled(s, ClientTakes(i, None))
    ensures var e, s', n := s.net[i], Apply(s, ClientTakes(i, None)), |s.net| - 1;
      var (state, sent, fired) := Taken(s.clients[e.conn].state, e.down);
      && s'.clients == s.clients[e.conn := s.clients[e.conn].(state := state)]
      && s'.net == Without(s.net, i) + Sending(e.conn, sent, e.tag)
      && s'.history.fired == s.history.fired
        + (if fired.None? then [] else [Firing(Origin(e.conn, fired.value.0), fired.value.1)])
  {
    hide ParseRequestBody, ParseReplyBody, RequestBody, ReplyBody;
  }

  /** What the calls of a client are proved to make of its state, and the messages
      they are proved to send. */
  function Called(client: Client, step: Step): (ClientState, seq<HubMessage>)
    requires step.AddCapability? || step.RemoveCapability? || step.SendList? || step.RegisterHandler? || step.Ask?
  {
    var s := client.state;
    match step
    case AddCapability(_, cap) => Add(s, cap, client.isOpen)
    case RemoveCapability(_, cap) => Remove(s, cap, client.isOpen)
    case SendList(_, caps) => (s, if s.capabilities == map[] then [] else [ListCaps(caps)])
    case RegisterHandler(_, className, handler) => (s.(handlers := s.handlers[className := handler]), [])
    case Ask(_, cap, className, data) =>
      var (after, m) := AskFor(s, cap, className, data, client.asked + 1);
      (after, if client.isOpen then [m] else [])
  }

  /** A step of a client on its own is that: nobody else changes, and the messages
      join the end of its channel. */
  lemma CallIsStep(s: System, step: Step)
    requires Enabled(s, step) && !step.Connect? && !step.HubTakes? && !step.ClientTakes?
    ensures step.c in s.clients
    ensures var c, s' := step.c, Apply(s, step);
      var (state, sent) := Called(s.clients[c], step);
      && s'.registry == s.registry && s'.relay == s.relay
      && s'.clients == s.clients[c := s'.clients[c]]
      && s'.clients[c].state == state && s'.clients[c].isOpen == s.clients[c].isOpen
      && |s'.net| == |s.net| + |sent| && s'.net[..|s.net|] == s.net
      && forall k :: 0 <= k < |sent| ==>
        s'.net[|s.net| + k].ToHub? && s'.net[|s.net| + k].conn == c && s'.net[|s.net| + k].up == sent[k]
  {
    hide RequestBody, InOrder, Keyed, Add, Remove;
    var (state, sent) := Called(s.clients[step.c], step);
    if step.SendList? { assert |s.clients[step.c].state.capabilities| == |step.caps|; }
    hide IsListing;
    assert Apply(s, step).net == s.net + Apply(s, step).net[|s.net|..];
  }

  /** Behind a relayed message without a body, the buffer of a client still holds the
      body of the relayed message before it. */
  lemma StaleBody(k: Xtea.Key, m: bytes, index: u32, body: bytes, next: u32)
    requires |body| + 12 <= |m| && |body| + 10 < 0x1_0000
    ensures var first := Framed(true, EncodeClient(Relayed(index, body)));
      var second := Framed(true, EncodeClient(Relayed(next, [])));
      && |first| == |body| + 12 && |second| == 12
      && var after := Arrived(false, k, Arrived(false, k, m, first).1, second).1;
        after[..12] == second && after[12..12 + |body|] == body
  {
    var first := Framed(true, EncodeClient(Relayed(index, body)));
    hide LE32, LE16, Adler32.Checksum;
    assert first[12..] == body;
  }

  /** A client's message on its way to the hub: sent, read, passed by the listener
      and handled. */
  method ToTheHub(packet: Packet, sender: NetworkConnection, receiver: NetworkConnection,
      service: InterserverService, c: Conn, live: set<Conn>, ghost m: HubMessage)
    returns (kept: bool, out: seq<(Conn, bytes)>, ghost indices: seq<u32>)
    requires sender.CanSend(packet) && sender.needsChecksum && !sender.hasKeys && !receiver.hasKeys
    requires packet.Body() == EncodeHub(m) && HubFits(m)
    requires packet.length + 6 <= receiver.recv.buffer.Length && packet.length + 4 < 0x1_0000
    requires 8 <= receiver.recv.buffer.Length
    requires packet != receiver.recv && packet.buffer != receiver.recv.buffer
    requires m.Request? ==> |service.relay| + |Providers(service.capabilities, m.cap.name, live)| <= 0x1_0000_0000
    modifies packet, packet.buffer, receiver`checksum, receiver.recv, receiver.recv.buffer
    modifies service`capabilities, service`relay
    ensures kept && HubTransition(old(service.capabilities), old(service.relay), c, m, live, indices,
      service.capabilities, service.relay, out)
  {
    hide EncodeHub, HubFits, HubTransition, Opened, Providers, Framed, FromLE16;
    var wire := sender.Send(packet);
    PlainRoundTrip(EncodeHub(m));
    OtherSizesSummable(false, receiver.keys, receiver.recv.buffer[..], wire);
    var skipPacket, delivered := receiver.ListenerReceives(wire);
    assert delivered.buffer[6..delivered.length] == delivered.buffer[..][6..|wire|] == wire[6..];
    CodeOf(EncodeHub(m), m);
    kept, out, indices := service.Handle(c, delivered, live, Some(m));
  }

  /** A message of the hub on its way to a client: sent, read, passed by the client's
      comparison and received. */
  method ToTheClient(packet: Packet, sender: NetworkConnection, receiver: NetworkConnection,
      client: InterserverClient, ghost m: ClientMessage)
    returns (sent: seq<bytes>, fired: Option<(nat, bytes)>)
    requires sender.CanSend(packet) && sender.needsChecksum && !sender.hasKeys && !receiver.hasKeys
    requires packet.Body() == EncodeClient(m) && Readable(m)
    requires packet.length + 6 <= receiver.recv.buffer.Length && packet.length + 4 < 0x1_0000
    requires 8 <= receiver.recv.buffer.Length
    requires packet != receiver.recv && packet.buffer != receiver.recv.buffer
    modifies packet, packet.buffer, receiver`checksum, receiver.recv, receiver.recv.buffer
    modifies client`handlers
    ensures client.State() == Taken(old(client.State()), m).0
    ensures sent == Encoded(Taken(old(client.State()), m).1) && fired == Taken(old(client.State()), m).2
  {
    hide EncodeClient, Readable, Taken;
    var accepted, delivered := PlainDelivery(sender, receiver, packet);
    CodeOfClient(m);
    sent, fired := client.Receive(delivered, Some(m));
  }
}
