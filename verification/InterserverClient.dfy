/** A client of the hub: Plugin_InterserverClient/InterserverClient.cpp:264-346 and
    380-439. First as a value, then as the class. */
module ClientStates {
  import opened Machine
  import opened Capabilities
  import opened Messages

  /** A registered handler maps the bytes at its cursor to the bytes it appends. */
  type Handler = bytes -> bytes

  /** Callbacks are told apart by the number of the call that registered them. */
  datatype ClientState = ClientState(
    capabilities: map<bytes, (Capability, u32)>,
    lastId: u32,
    relays: map<u32, nat>,
    handlers: map<bytes, Handler>)

  /** The counts are 32 bits wide and wrap. */
  function Up(count: u32): u32 { Wrap32(count as int + 1) }
  function Down(count: u32): u32 { Wrap32(count as int - 1) }

  function Add(s: ClientState, cap: Capability, isOpen: bool): (ClientState, seq<HubMessage>) {
    if cap.name in s.capabilities then
      var (key, count) := s.capabilities[cap.name];
      (s.(capabilities := s.capabilities[cap.name := (key, Up(count))]), [])
    else
      (s.(capabilities := s.capabilities[cap.name := (cap, 1)]), if isOpen then [AddCap(cap)] else [])
  }

  function Remove(s: ClientState, cap: Capability, isOpen: bool): (ClientState, seq<HubMessage>) {
    if cap.name !in s.capabilities then (s, [])
    else
      var (key, count) := s.capabilities[cap.name];
      if Down(count) == 0 then
        (s.(capabilities := s.capabilities - {cap.name}), if isOpen then [RemoveCap(cap)] else [])
      else (s.(capabilities := s.capabilities[cap.name := (key, Down(count))]), [])
  }

  /** The order of names, and so of capabilities: byte by byte, a prefix first. */
  predicate Less(a: bytes, b: bytes) {
    b != [] && (a == [] || a[0] < b[0] || (a[0] == b[0] && Less(a[1..], b[1..])))
  }

  lemma {:induction false} LessIsOrder(a: bytes, b: bytes, c: bytes)
    ensures !(Less(a, b) && Less(b, a)) && (a == b <==> !Less(a, b) && !Less(b, a))
    ensures Less(a, b) && Less(b, c) ==> Less(a, c)
    decreases |a| + |b|
  {
    if a != [] && b != [] {
      LessIsOrder(a[1..], b[1..], if c == [] then [] else c[1..]);
      assert a == [a[0]] + a[1..] && b == [b[0]] + b[1..];
    }
  }

  /** The order of strings: at the first place where they differ, a has ended or has
      the smaller byte. */
  lemma {:induction false} LessAtFirstDifference(a: bytes, b: bytes)
    ensures Less(a, b) <==>
      exists i :: 0 <= i <= |a| && i < |b| && a[..i] == b[..i] && (i == |a| || a[i] < b[i])
  {
    if a != [] && b != [] && a[0] == b[0] {
      var p, q := a[1..], b[1..];
      LessAtFirstDifference(p, q);
      forall i | 0 <= i <= |p| && i < |q| && p[..i] == q[..i] && (i == |p| || p[i] < q[i])
        ensures a[..i + 1] == b[..i + 1] && (i + 1 == |a| || a[i + 1] < b[i + 1])
      {
        assert a[..i + 1] == [a[0]] + p[..i] && b[..i + 1] == [b[0]] + q[..i];
      }
      forall i | 0 <= i <= |a| && i < |b| && a[..i] == b[..i] && (i == |a| || a[i] < b[i])
        ensures i > 0 && p[..i - 1] == q[..i - 1] && (i - 1 == |p| || p[i - 1] < q[i - 1])
      {
        assert p[..i - 1] == a[..i][1..] && q[..i - 1] == b[..i][1..];
      }
    } else if b != [] && (a == [] || a[0] < b[0]) {
      assert a[..0] == b[..0];
    } else {
      forall i | 0 < i <= |a| && i < |b| ensures a[..i] != b[..i] {
        assert a[..i][0] == a[0] && b[..i][0] == b[0];
      }
    }
  }

  predicate IsLeast(names: set<bytes>, n: bytes) {
    n in names && forall m :: m in names && m != n ==> Less(n, m)
  }

  lemma {:induction false} LeastExists(names: set<bytes>)
    requires names != {}
    ensures exists n :: IsLeast(names, n)
  {
    var n :| n in names;
    var rest := names - {n};
    if rest == {} {
      assert names == {n};
      assert IsLeast(names, n);
    } else {
      LeastExists(rest);
      var m :| IsLeast(rest, m);
      forall o ensures Less(n, m) && Less(m, o) ==> Less(n, o) { LessIsOrder(n, m, o); }
      LessIsOrder(n, m, []);
      assert IsLeast(names, if Less(n, m) then n else m);
    }
  }

  /** A map entry is found under its own name. */
  ghost predicate Keyed(s: ClientState) {
    forall n :: n in s.capabilities ==> s.capabilities[n].0.name == n
  }

  lemma StaysKeyed(s: ClientState, cap: Capability, isOpen: bool)
    requires Keyed(s)
    ensures Keyed(Add(s, cap, isOpen).0) && Keyed(Remove(s, cap, isOpen).0)
  {}

  /** The keys of the capability map, in the order of the map. */
  ghost predicate IsListing(s: ClientState, caps: seq<Capability>) {
    && |caps| == |s.capabilities|
    && (forall i :: 0 <= i < |caps| ==> exists n :: n in s.capabilities && s.capabilities[n].0 == caps[i])
    && (forall n :: n in s.capabilities ==> s.capabilities[n].0 in caps)
    && (Keyed(s) ==> InOrder(caps))
  }

  ghost predicate InOrder(caps: seq<Capability>) {
    forall i, j :: 0 <= i < j < |caps| ==> Less(caps[i].name, caps[j].name)
  }

  /** There is only one. */
  lemma ListingUnique(s: ClientState, a: seq<Capability>, b: seq<Capability>)
    requires Keyed(s) && IsListing(s, a) && IsListing(s, b)
    ensures a == b
  {
    SameListing(a, b);
  }

  lemma {:induction false} SameListing(a: seq<Capability>, b: seq<Capability>)
    requires InOrder(a) && InOrder(b) && |a| == |b|
    requires forall x :: x in a ==> x in b
    requires forall x :: x in b ==> x in a
    ensures a == b
  {
    hide Less;
    if a != [] {
      assert a[0] in b && b[0] in a && a == [a[0]] + a[1..] && b == [b[0]] + b[1..];
      if a[0] != b[0] {
        var i :| 0 <= i < |b| && b[i] == a[0];
        var j :| 0 <= j < |a| && a[j] == b[0];
        LessIsOrder(a[0].name, b[0].name, []);
        assert false;
      }
      LessIsOrder(a[0].name, a[0].name, []);
      forall x | x in a[1..] ensures x in b[1..] {
        var i :| 0 < i < |a| && a[i] == x;
        assert x in b && x != a[0];
      }
      forall x | x in b[1..] ensures x in a[1..] {
        var i :| 0 < i < |b| && b[i] == x;
        assert x in a && x != b[0];
      }
      SameListing(a[1..], b[1..]);
    }
  }

  function AskFor(s: ClientState, cap: Capability, className: bytes, data: bytes, callback: nat)
    : (ClientState, HubMessage)
  {
    var id := Wrap32(s.lastId + 1);
    (s.(lastId := id, relays := s.relays[id := callback]), Request(cap, RequestBody(id, className, data)))
  }

  /** A relayed request is served by a handler once; without one it is dropped. */
  function Serve(s: ClientState, index: u32, parts: RequestParts): (ClientState, seq<HubMessage>) {
    if parts.className !in s.handlers then (s, [])
    else
      (s.(handlers := s.handlers - {parts.className}),
       [Reply(index, ReplyBody(parts.id, s.handlers[parts.className](parts.data)))])
  }

  /** A body a client reads without running past its end. */
  predicate RequestReadable(body: bytes) {
    body != [] && (body[0] == REQUEST_PACKET_SERIALIZABLE ==> ParseRequestBody(body).Some?)
  }

  predicate ReplyReadable(body: bytes) {
    body != [] && (body[0] == REQUEST_PACKET_SERIALIZABLE ==> ParseReplyBody(body).Some?)
  }

  predicate Readable(m: ClientMessage) {
    match m
    case Relayed(_, body) => RequestReadable(body)
    case Answer(body) => ReplyReadable(body)
  }

  /** The callback an answer reaches; it stays registered. */
  function Fired(s: ClientState, parts: ReplyParts): Option<nat> {
    if parts.id in s.relays then Some(s.relays[parts.id]) else None
  }

  /** What a client makes of a message: its state, what it sends, and the callback
      it runs, on which bytes. */
  function Taken(s: ClientState, m: ClientMessage): (ClientState, seq<HubMessage>, Option<(nat, bytes)>) {
    match m
    case Relayed(index, body) =>
      var parts := ParseRequestBody(body);
      if parts.None? then (s, [], None)
      else (Serve(s, index, parts.value).0, Serve(s, index, parts.value).1, None)
    case Answer(body) =>
      var parts := ParseReplyBody(body);
      if parts.None? || Fired(s, parts.value).None? then (s, [], None)
      else (s, [], Some((Fired(s, parts.value).value, parts.value.output)))
  }
}

module InterserverClients {
  import opened Machine
  import opened PacketBuffer
  import opened Capabilities
  import opened Messages
  import opened ClientStates

  class InterserverClient {
    /** m_capabilities: the first capability of each name, and its count. */
    var capabilities: map<bytes, (Capability, u32)>
    /** m_relays */
    var relays: map<u32, nat>
    /** m_handlers */
    var handlers: map<bytes, Handler>
    /** The static counter of `requestPacketSerializable`. */
    var id: u32

    ghost function State(): ClientState
      reads this
    {
      ClientState(capabilities, id, relays, handlers)
    }

    constructor ()
      ensures State() == ClientState(map[], 0, map[], map[])
    {
      capabilities, relays, handlers, id := map[], map[], map[], 0;
    }

    method AddCapability(cap: Capability, isOpen: bool) returns (sent: seq<bytes>)
      modifies this`capabilities
      ensures State() == Add(old(State()), cap, isOpen).0
      ensures sent == Encoded(Add(old(State()), cap, isOpen).1)
    {
      hide EncodeCap, LE16;
      sent := [];
      if cap.name in capabilities {
        var (key, count) := capabilities[cap.name];
        capabilities := capabilities[cap.name := (key, Up(count))];
      } else {
        capabilities := capabilities[cap.name := (cap, 1)];
        if isOpen {
          var message := CapabilityMessage(1, cap);
          sent := [message];
        }
      }
    }

    method RemoveCapability(cap: Capability, isOpen: bool) returns (sent: seq<bytes>)
      modifies this`capabilities
      ensures State() == Remove(old(State()), cap, isOpen).0
      ensures sent == Encoded(Remove(old(State()), cap, isOpen).1)
    {
      hide EncodeCap, LE16;
      sent := [];
      if cap.name in capabilities {
        var (key, count) := capabilities[cap.name];
        capabilities := capabilities[cap.name := (key, Down(count))];
        if capabilities[cap.name].1 == 0 {
          capabilities := capabilities - {cap.name};
          assert capabilities == old(capabilities) - {cap.name};
          if isOpen {
            var message := CapabilityMessage(2, cap);
            sent := [message];
          }
        }
      }
    }

    method CapabilityMessage(code: u16, cap: Capability) returns (message: bytes)
      ensures message == LE16(code) + EncodeCap(cap)
    {
      hide EncodeCap, LE16, Write;
      var packet := new Packet();
      packet.Push16(code);
      WriteCap(packet, cap);
      message := packet.buffer[packet.start..packet.start + packet.length];
    }

    /** The keys of the capability map in the order of iteration. */
    method Listing() returns (caps: seq<Capability>)
      ensures IsListing(State(), caps)
    {
      hide Less;
      caps := [];
      ghost var names: seq<bytes> := [];
      var left := capabilities.Keys;
      while left != {}
        invariant left <= capabilities.Keys && |names| == |caps| && |left| + |caps| == |capabilities|
        invariant forall i :: 0 <= i < |caps| ==> names[i] in capabilities && caps[i] == capabilities[names[i]].0
        invariant forall n :: n in capabilities && n !in left ==> n in names
        invariant forall i, n :: 0 <= i < |names| && n in left ==> Less(names[i], n)
        invariant forall i, j :: 0 <= i < j < |names| ==> Less(names[i], names[j])
        decreases |left|
      {
        LeastExists(left);
        var n :| IsLeast(left, n);
        caps, names := caps + [capabilities[n].0], names + [n];
        left := left - {n};
      }
    }

    /** `sendCapabilityList`: nothing when there is nothing to list. */
    method SendCapabilityList() returns (sent: seq<bytes>)
      ensures capabilities == map[] ==> sent == []
      ensures capabilities != map[] ==>
        |sent| == 1 && exists caps :: IsListing(State(), caps) && sent[0] == EncodeHub(ListCaps(caps))
    {
      hide EncodeHub, IsListing;
      sent := [];
      if |capabilities| != 0 {
        var list := Listing();
        var message := ListMessage(list);
        sent := [message];
      }
    }

    method ListMessage(caps: seq<Capability>) returns (message: bytes)
      ensures message == EncodeHub(ListCaps(caps))
    {
      hide EncodeCaps, LE16, Write;
      var packet := new Packet();
      packet.Push16(3);
      packet.Push16(Wrap16(|caps|));
      PushCapabilities(packet, caps);
      message := packet.buffer[packet.start..packet.start + packet.length];
      var count, list := LE16(Wrap16(|caps|)), EncodeCaps(caps);
      assert LE16(3) + count + list == LE16(3) + (count + list);
    }

    method PushCapabilities(packet: Packet, caps: seq<Capability>)
      requires packet.Writing()
      modifies packet`buffer, packet`position, packet`length, packet.buffer
      ensures packet.Writing() && packet.start == old(packet.start)
      ensures packet.buffer == old(packet.buffer) || fresh(packet.buffer)
      ensures packet.Body() == old(packet.Body()) + EncodeCaps(caps)
    {
      hide EncodeCap;
      if caps != [] {
        ghost var was := packet.Body();
        WriteCap(packet, caps[0]);
        PushCapabilities(packet, caps[1..]);
        assert was + EncodeCap(caps[0]) + EncodeCaps(caps[1..]) == was + (EncodeCap(caps[0]) + EncodeCaps(caps[1..]));
      }
    }

    method RequestPacketSerializable(cap: Capability, className: bytes, data: bytes, callback: nat)
      returns (sent: bytes)
      modifies this`id, this`relays
      ensures var (after, m) := AskFor(old(State()), cap, className, data, callback);
        State() == after && sent == EncodeHub(m)
    {
      hide EncodeHub, RequestBody;
      id := Wrap32(id + 1);
      sent := RequestMessage(cap, id, className, data);
      relays := relays[id := callback];
    }

    method RequestMessage(cap: Capability, requestId: u32, className: bytes, data: bytes) returns (message: bytes)
      ensures message == EncodeHub(Request(cap, RequestBody(requestId, className, data)))
    {
      hide EncodeCap, EncodeText, LE16, LE32, RequestBody, Write;
      var packet := new Packet();
      packet.Push16(7);
      WriteCap(packet, cap);
      PushRequestBody(packet, requestId, className, data);
      message := packet.buffer[packet.start..packet.start + packet.length];
      var head, body := LE16(7) + EncodeCap(cap), RequestBody(requestId, className, data);
      assert message == head + body == LE16(7) + (EncodeCap(cap) + body);
    }

    method PushRequestBody(packet: Packet, requestId: u32, className: bytes, data: bytes)
      requires packet.Writing()
      modifies packet`buffer, packet`position, packet`length, packet.buffer
      ensures packet.Writing() && packet.Body() == old(packet.Body()) + RequestBody(requestId, className, data)
      ensures packet.start == old(packet.start)
    {
      hide EncodeText, LE32, Write;
      ghost var was := packet.Body();
      PushTag(packet, requestId);
      WriteText(packet, className);
      packet.Append(data);
      var tag, text := [REQUEST_PACKET_SERIALIZABLE] + LE32(requestId), EncodeText(className);
      assert was + tag + text + data == was + (tag + text + data);
    }

    /** The operation byte and the client's id, in requests and replies alike. */
    method PushTag(packet: Packet, requestId: u32)
      requires packet.Writing()
      modifies packet`buffer, packet`position, packet`length, packet.buffer
      ensures packet.Writing() && packet.start == old(packet.start)
      ensures packet.buffer == old(packet.buffer) || fresh(packet.buffer)
      ensures packet.Body() == old(packet.Body()) + ([REQUEST_PACKET_SERIALIZABLE] + LE32(requestId))
    {
      hide LE32, Write;
      ghost var was := packet.Body();
      packet.Push8(1);
      packet.Push32(requestId);
      var operation := [REQUEST_PACKET_SERIALIZABLE];
      assert was + operation + LE32(requestId) == was + (operation + LE32(requestId));
    }

    method ReplyMessage(index: u32, clientId: u32, output: bytes) returns (message: bytes)
      ensures message == EncodeHub(Reply(index, ReplyBody(clientId, output)))
    {
      hide LE16, LE32, ReplyBody, Write;
      var packet := new Packet();
      packet.Push16(8);
      packet.Push32(index);
      assert packet.Body() == LE16(8) + LE32(index);
      PushReplyBody(packet, clientId, output);
      message := packet.buffer[packet.start..packet.start + packet.length];
      ghost var body := ReplyBody(clientId, output);
      assert LE16(8) + LE32(index) + body == LE16(8) + (LE32(index) + body);
    }

    method PushReplyBody(packet: Packet, clientId: u32, output: bytes)
      requires packet.Writing()
      modifies packet`buffer, packet`position, packet`length, packet.buffer
      ensures packet.Writing() && packet.start == old(packet.start)
      ensures packet.Body() == old(packet.Body()) + ReplyBody(clientId, output)
    {
      hide LE32, Write;
      ghost var was, tag := packet.Body(), [REQUEST_PACKET_SERIALIZABLE] + LE32(clientId);
      PushTag(packet, clientId);
      packet.Append(output);
      assert was + tag + output == was + (tag + output);
    }

    method RegisterPacketSerializableHandler(className: bytes, handler: Handler)
      modifies this`handlers
      ensures State() == old(State()).(handlers := old(handlers)[className := handler])
    {
      handlers := handlers[className := handler];
    }

    /** `receive`, code 7. An operation that is none of the protocol's is passed
        over. */
    method ReceiveRelayed(p: Packet, ghost index: u32, ghost body: bytes) returns (sent: seq<bytes>)
      requires p.position <= p.length <= p.buffer.Length
      requires p.buffer[p.position..p.length] == LE32(index) + body && RequestReadable(body)
      modifies this`handlers, p`position
      ensures State() == Taken(old(State()), Relayed(index, body)).0
      ensures sent == Encoded(Taken(old(State()), Relayed(index, body)).1)
    {
      assert body[0] != REQUEST_PACKET_SERIALIZABLE ==> ParseRequestBody(body).None?;
      hide LE32, ParseRequestBody, EncodeHub;
      var serverId := PopIndex(p, index, body);
      sent := [];
      var operation := PopOperation(p, body);
      if operation != 1 { return; }
      var clientId, className := PopRequest(p, body);
      if className in handlers {
        var data := p.buffer[p.position..p.length];
        var output := handlers[className](data);
        var message := ReplyMessage(serverId, clientId, output);
        sent := [message];
        handlers := handlers - {className};
      }
    }

    method PopOperation(p: Packet, ghost body: bytes) returns (operation: u8)
      requires p.position <= p.length <= p.buffer.Length && p.buffer[p.position..p.length] == body != []
      modifies p`position
      ensures operation == body[0] && p.position <= p.length && p.buffer[p.position..p.length] == body[1..]
    {
      ghost var m := p.buffer[p.position..p.length];
      assert m[0] == p.buffer[p.position];
      operation := p.Pop8();
      assert p.buffer[p.position..p.length] == m[1..];
    }

    method PopIndex(p: Packet, ghost index: u32, ghost body: bytes) returns (serverId: u32)
      requires p.position <= p.length <= p.buffer.Length
      requires p.buffer[p.position..p.length] == LE32(index) + body
      modifies p`position
      ensures serverId == index && p.position <= p.length && p.buffer[p.position..p.length] == body
    {
      hide LE32, FromLE32;
      ghost var m := p.buffer[p.position..p.length];
      assert m[..4] == LE32(index) && m[4..] == body;
      serverId := PopWord(p, m);
    }

    method PopCode(p: Packet, ghost body: bytes) returns (code: u16)
      requires p.position <= p.length <= p.buffer.Length && p.buffer[p.position..p.length] == body && 2 <= |body|
      modifies p`position
      ensures code == FromLE16(body[..2]) && p.position <= p.length && p.buffer[p.position..p.length] == body[2..]
    {
      hide FromLE16;
      ghost var m := p.buffer[p.position..p.length];
      assert p.buffer[p.position..p.position + 2] == m[..2];
      code := p.Pop16();
      assert p.buffer[p.position..p.length] == m[2..];
    }

    method PopWord(p: Packet, ghost body: bytes) returns (word: u32)
      requires p.position <= p.length <= p.buffer.Length && p.buffer[p.position..p.length] == body && 4 <= |body|
      modifies p`position
      ensures word == FromLE32(body[..4]) && p.position <= p.length && p.buffer[p.position..p.length] == body[4..]
    {
      hide FromLE32;
      ghost var m := p.buffer[p.position..p.length];
      assert p.buffer[p.position..p.position + 4] == m[..4];
      word := p.Pop32();
      assert p.buffer[p.position..p.length] == m[4..];
    }

    method PopRequest(p: Packet, ghost body: bytes) returns (clientId: u32, className: bytes)
      requires ParseRequestBody(body).Some?
      requires p.position <= p.length <= p.buffer.Length && p.buffer[p.position..p.length] == body[1..]
      modifies p`position
      ensures p.position <= p.length
      ensures ParseRequestBody(body) == Some(RequestParts(clientId, className, p.buffer[p.position..p.length]))
    {
      hide FromLE32, ParseText;
      assert body[1..][..4] == body[1..5] && body[1..][4..] == body[5..];
      clientId := PopWord(p, body[1..]);
      className := PopName(p, body[5..]);
    }

    method PopName(p: Packet, ghost body: bytes) returns (name: bytes)
      requires p.position <= p.length <= p.buffer.Length && p.buffer[p.position..p.length] == body
      requires ParseText(body).Some?
      modifies p`position
      ensures name == ParseText(body).value && p.position <= p.length
      ensures p.buffer[p.position..p.length] == body[2 + |name|..]
    {
      ghost var rest := p.buffer[p.length..];
      TextBeforeRest(body, rest);
      hide ParseText;
      assert p.buffer[p.position..] == body + rest;
      name := ReadText(p);
      assert p.buffer[p.position..p.length] == body[2 + |name|..];
    }

    /** `receive`, code 8: the callback runs on what is left of the packet. The
        erase behind `break` is not reached. */
    method ReceiveAnswer(p: Packet, ghost body: bytes) returns (fired: Option<(nat, bytes)>)
      requires p.position <= p.length <= p.buffer.Length && p.buffer[p.position..p.length] == body
      requires ReplyReadable(body)
      modifies p`position
      ensures fired == Taken(State(), Answer(body)).2 && relays == old(relays)
    {
      hide FromLE32;
      var operation := PopOperation(p, body);
      if operation != 1 { return None; }
      assert body[1..][..4] == body[1..5] && body[1..][4..] == body[5..];
      var clientId := PopWord(p, body[1..]);
      var output := p.buffer[p.position..p.length];
      fired := if clientId in relays then Some((relays[clientId], output)) else None;
    }

    /** `receive`, behind the comparison of the checksums. A code that is none of the
        protocol's is passed over. */
    method Receive(p: Packet, ghost m: Option<ClientMessage>) returns (sent: seq<bytes>, fired: Option<(nat, bytes)>)
      requires p.position + 2 <= p.length <= p.buffer.Length
      requires m.Some? ==> p.buffer[p.position..p.length] == EncodeClient(m.value) && Readable(m.value)
      requires m.None? ==> FromLE16(p.buffer[p.position..p.position + 2]) !in {6, 7, 8}
      modifies this`handlers, p`position
      ensures m.None? ==> State() == old(State()) && sent == [] && fired == None
      ensures m.Some? ==> State() == Taken(old(State()), m.value).0
      ensures m.Some? ==> sent == Encoded(Taken(old(State()), m.value).1) && fired == Taken(old(State()), m.value).2
    {
      hide FromLE16, EncodeClient, Readable, RequestReadable, ReplyReadable, Taken;
      ghost var body := p.buffer[p.position..p.length];
      assert p.buffer[p.position..p.position + 2] == body[..2];
      if m.Some? { CodeOfClient(m.value); }
      var handle := PopCode(p, body);
      sent, fired := [], None;
      if handle == 7 {
        sent := ReceiveRelayed(p, m.value.index, m.value.body);
        RelayedFiresNothing(old(State()), m.value);
      } else if handle == 8 {
        fired := ReceiveAnswer(p, m.value.body);
        AnswerSendsNothing(State(), m.value);
      }
    }
  }

  lemma CodeOfClient(m: ClientMessage)
    requires Readable(m)
    ensures var body := EncodeClient(m);
      && |body| >= 2 && FromLE16(body[..2]) == (if m.Relayed? then 7 else 8)
      && (m.Relayed? ==> body[2..] == LE32(m.index) + m.body && RequestReadable(m.body))
      && (m.Answer? ==> body[2..] == m.body && ReplyReadable(m.body))
  {
    hide LE16, FromLE16, LE32;
    assert EncodeClient(m)[..2] == LE16(if m.Relayed? then 7 else 8);
  }

  lemma RelayedFiresNothing(s: ClientState, m: ClientMessage)
    requires m.Relayed?
    ensures Taken(s, m).2 == None
  {}

  lemma AnswerSendsNothing(s: ClientState, m: ClientMessage)
    requires m.Answer?
    ensures Taken(s, m).0 == s && Taken(s, m).1 == [] && Encoded([]) == []
  {}

  function Encoded(ms: seq<HubMessage>): (r: seq<bytes>)
    ensures |r| == |ms|
  {
    seq(|ms|, i requires 0 <= i < |ms| => EncodeHub(ms[i]))
  }

  lemma TextBeforeRest(m: bytes, rest: bytes)
    requires ParseText(m).Some?
    ensures ParseText(m + rest) == ParseText(m)
  {
    hide FromLE16;
    assert (m + rest)[..2] == m[..2];
    var n := FromLE16(m[..2]);
    assert (m + rest)[2..2 + n] == m[2..2 + n];
  }
}
