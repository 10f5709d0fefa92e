/** The hub: handlers 1, 2, 3, 7 and 8 and `handle` of
    Plugin_Interserver/InterserverService.cpp. */
module InterserverServices {
  import opened Machine
  import opened PacketBuffer
  import opened Capabilities
  import opened Messages
  import opened Hub

  class InterserverService {
    /** m_capabilities, a multimap by name. */
    var capabilities: Registry
    /** m_relay */
    var relay: map<u32, Conn>

    constructor ()
      ensures capabilities == [] && relay == map[]
    {
      capabilities := [];
      relay := map[];
    }

    method RegisterCapability(cap: Capability, c: Conn)
      modifies this`capabilities
      ensures capabilities == Register(old(capabilities), cap, c)
    {
      var found := false;
      var i := 0;
      while i < |capabilities| && !found
        invariant 0 <= i <= |capabilities|
        invariant !found ==> forall j :: 0 <= j < i ==> capabilities[j].cap != cap
        invariant found ==> Registered(capabilities, cap)
        decreases |capabilities| - i, !found
      {
        var e := capabilities[i].cap;
        if e.name == cap.name && e.endpoint.port == cap.endpoint.port && e.endpoint.address == cap.endpoint.address {
          found := true;
        } else {
          i := i + 1;
        }
      }
      if !found {
        capabilities := capabilities + [Entry(cap, c)];
      }
    }

    /** Handler 2, after the capability is read. */
    method RemoveCapability(cap: Capability)
      modifies this`capabilities
      ensures capabilities == Unregister(old(capabilities), cap)
    {
      var i := 0;
      while i < |capabilities|
        invariant 0 <= i <= FirstMatch(capabilities, cap)
        invariant capabilities == old(capabilities)
      {
        var e := capabilities[i].cap;
        if e.name == cap.name && e.endpoint.port == cap.endpoint.port && e.endpoint.address == cap.endpoint.address {
          capabilities := capabilities[..i] + capabilities[i + 1..];
          return;
        }
        i := i + 1;
      }
    }

    /** Handler 3: a count, then one capability after the other. */
    method RegisterList(c: Conn, p: Packet, ghost caps: seq<Capability>)
      requires p.position <= p.buffer.Length && HubBody(ListCaps(caps)) <= p.buffer[p.position..]
      requires HubFits(ListCaps(caps))
      modifies this`capabilities, p`position
      ensures capabilities == RegisterAll(old(capabilities), caps, c)
    {
      hide EncodeCap, ParseCap, EncodeCaps, LE16, FromLE16, Register;
      ghost var body := p.buffer[p.position..];
      assert p.buffer[p.position..p.position + 2] == body[..2] == LE16(|caps|);
      var size := p.Pop16();
      assert p.buffer[p.position..] == body[2..];
      var i: nat := 0;
      while i < size
        invariant i <= size
        invariant p.position <= p.buffer.Length && EncodeCaps(caps[i..]) <= p.buffer[p.position..]
        invariant capabilities == RegisterAll(old(capabilities), caps[..i], c)
      {
        RegisterNext(c, p, caps[i..]);
        assert caps[i..][1..] == caps[i + 1..] && caps[..i + 1][..i] == caps[..i];
        i := i + 1;
      }
      assert caps[..i] == caps;
    }

    method RegisterNext(c: Conn, p: Packet, ghost caps: seq<Capability>)
      requires caps != [] && CapFits(caps[0])
      requires p.position <= p.buffer.Length && EncodeCaps(caps) <= p.buffer[p.position..]
      modifies this`capabilities, p`position
      ensures capabilities == Register(old(capabilities), caps[0], c)
      ensures p.position <= p.buffer.Length && EncodeCaps(caps[1..]) <= p.buffer[p.position..]
    {
      hide EncodeCap, ParseCap, EncodeCaps, Register;
      ghost var m, at := p.buffer[p.position..], p.position;
      CapsAtCursor(caps, m);
      var capability := ReadCap(p);
      assert p.buffer[p.position..] == m[p.position - at..];
      RegisterCapability(capability, c);
    }

    /** `while (true)` with g_random(): any unused index may come out. */
    method DrawIndex() returns (requestIndex: u32)
      requires |relay| < 0x1_0000_0000
      ensures requestIndex !in relay
    {
      UnusedIndexExists(relay);
      requestIndex :| requestIndex !in relay;
    }

    /** Handler 7, after the capability is read: every live provider is sent the
        rest of the packet under an index of its own. */
    method RelayRequest(c: Conn, name: bytes, p: Packet, live: set<Conn>)
      returns (out: seq<(Conn, bytes)>, ghost indices: seq<u32>)
      requires p.position <= p.length <= p.buffer.Length
      requires |relay| + |Providers(capabilities, name, live)| <= 0x1_0000_0000
      modifies this`relay, p`position
      ensures var providers := Providers(capabilities, name, live);
        && |indices| == |providers| && FreshIndices(old(relay), indices)
        && relay == Allocate(old(relay), indices, c)
        && |out| == |providers|
        && forall k :: 0 <= k < |out| ==>
          out[k] == (providers[k], EncodeClient(Relayed(indices[k], BodyFor(k, old(p.buffer[p.position..p.length])))))
    {
      hide Providers, Allocate, FreshIndices, EncodeClient;
      out, indices := [], [];
      ghost var body, had, providers: seq<Conn> := p.buffer[p.position..p.length], relay, [];
      ghost var all := Providers(capabilities, name, live);
      NothingYet(capabilities, name, live, relay, c);
      assert capabilities[..0] == [];
      var i: nat := 0;
      while i < |capabilities|
        invariant i <= |capabilities| && p.position <= p.length
        invariant providers == Providers(capabilities[..i], name, live) && providers <= all
        invariant |indices| == |providers| == |out|
        invariant FreshIndices(had, indices) && relay == Allocate(had, indices, c)
        invariant |relay| == |had| + |indices|
        invariant p.buffer[p.position..p.length] == BodyFor(|providers|, body)
        invariant forall k :: 0 <= k < |out| ==>
          out[k] == (providers[k], EncodeClient(Relayed(indices[k], BodyFor(k, body))))
      {
        ProvidersOne(capabilities, i, name, live);
        ProvidersPrefix(capabilities, i + 1, name, live);
        var con := capabilities[i];
        if con.cap.name == name && con.conn in live {
          providers := providers + [con.conn];
          var message, index := RelayOne(c, p);
          AllocateOne(had, indices, c, index);
          indices := indices + [index];
          out := out + [(con.conn, message)];
        }
        i := i + 1;
      }
      assert capabilities[..i] == capabilities;
    }

    /** The inner block of handler 7: one provider. */
    method RelayOne(c: Conn, p: Packet) returns (message: bytes, index: u32)
      requires p.position <= p.length <= p.buffer.Length && |relay| < 0x1_0000_0000
      modifies this`relay, p`position
      ensures index !in old(relay) && relay == old(relay)[index := c]
      ensures message == EncodeClient(Relayed(index, old(p.buffer[p.position..p.length])))
      ensures p.position == p.length
    {
      hide EncodeClient;
      index := DrawIndex();
      relay := relay[index := c];
      var b := p.Get(p.length - p.position);
      message := RelayMessage(index, b);
    }

    method RelayMessage(requestIndex: u32, b: bytes) returns (message: bytes)
      ensures message == EncodeClient(Relayed(requestIndex, b))
    {
      hide LE16, LE32, Write;
      var o := new Packet();
      o.Push16(7);
      o.Push32(requestIndex);
      assert o.Body() == LE16(7) + LE32(requestIndex);
      o.Append(b);
      message := o.buffer[o.start..o.start + o.length];
    }

    method AnswerMessage(b: bytes) returns (message: bytes)
      ensures message == EncodeClient(Answer(b))
    {
      hide LE16, Write;
      var o := new Packet();
      o.Push16(8);
      o.Append(b);
      message := o.buffer[o.start..o.start + o.length];
    }

    /** Handler 8: a known index is answered, if there is anything to say, and
        forgotten. */
    method RelayReply(p: Packet) returns (out: seq<(Conn, bytes)>)
      requires p.position + 4 <= p.length <= p.buffer.Length
      modifies this`relay, p`position
      ensures var index := FromLE32(old(p.buffer[p.position..p.position + 4]));
        var body := old(p.buffer[p.position + 4..p.length]);
        && relay == old(relay) - {index}
        && out == if index in old(relay) && body != [] then [(old(relay)[index], EncodeClient(Answer(body)))] else []
    {
      hide EncodeClient, FromLE32;
      var index := p.Pop32();
      out := [];
      if index !in relay {
        assert relay - {index} == relay;
        return;
      }
      var len := p.length - p.position;
      if len > 0 {
        var b := p.Get(len);
        var message := AnswerMessage(b);
        out := [(relay[index], message)];
      }
      relay := relay - {index};
    }

    /** `handle`: the code selects the handler; the registry and the relay table
        change as the message says, and the relayed messages go out. A heartbeat,
        code 0, changes nothing; a code without a handler ends the connection. */
    method Handle(c: Conn, p: Packet, live: set<Conn>, ghost m: Option<HubMessage>)
      returns (kept: bool, out: seq<(Conn, bytes)>, ghost indices: seq<u32>)
      requires p.position + 2 <= p.length <= p.buffer.Length
      requires m.Some? ==> p.buffer[p.position..p.length] == EncodeHub(m.value) && HubFits(m.value)
      requires m.None? ==> FromLE16(p.buffer[p.position..p.position + 2]) !in {1, 2, 3, 4, 6, 7, 8}
      requires m.Some? && m.value.Request? ==>
        |relay| + |Providers(capabilities, m.value.cap.name, live)| <= 0x1_0000_0000
      modifies this`capabilities, this`relay, p`position
      ensures m.Some? ==> kept
      ensures m.Some? ==>
        HubTransition(old(capabilities), old(relay), c, m.value, live, indices, capabilities, relay, out)
      ensures m.None? ==>
        && (kept <==> FromLE16(p.buffer[old(p.position)..old(p.position) + 2]) == 0)
        && capabilities == old(capabilities) && relay == old(relay) && out == []
    {
      hide HubTransition, EncodeHub, HubFits, Providers;
      kept, out, indices := true, [], [];
      var code := FromLE16(p.buffer[p.position..p.position + 2]);
      if m.Some? { CodeOf(p.buffer[p.position..p.length], m.value); }
      if code == 0 || code > 8 || code == 5 {
        kept := code == 0;
        return;
      }
      p.Skip(2);
      out, indices := Dispatch(c, p, live, code, m.value);
    }

    /** The handlers behind the code. */
    method Dispatch(c: Conn, p: Packet, live: set<Conn>, code: u16, ghost m: HubMessage)
      returns (out: seq<(Conn, bytes)>, ghost indices: seq<u32>)
      requires p.position <= p.length <= p.buffer.Length && code == HubCode(m)
      requires p.buffer[p.position..p.length] == HubBody(m) && HubFits(m)
      requires m.Request? ==> |relay| + |Providers(capabilities, m.cap.name, live)| <= 0x1_0000_0000
      modifies this`capabilities, this`relay, p`position
      ensures HubTransition(old(capabilities), old(relay), c, m, live, indices, capabilities, relay, out)
    {
      hide EncodeCap, EncodeCaps, ParseCap, EncodeClient, LE16, LE32, FromLE16, FromLE32;
      hide Providers, Allocate, FreshIndices, Unregister, Register, RegisterAll;
      out, indices := [], [];
      ghost var body := p.buffer[p.position..p.length];
      if code == 1 {
        var capability := ReadThis(p, m.cap, []);
        RegisterCapability(capability, c);
      } else if code == 2 {
        var capability := ReadThis(p, m.cap, []);
        RemoveCapability(capability);
      } else if code == 3 {
        assert body <= p.buffer[p.position..];
        RegisterList(c, p, m.caps);
      } else if code == 7 {
        var capability := ReadThis(p, m.cap, m.body);
        out, indices := RelayRequest(c, capability.name, p, live);
      } else {
        assert body[..4] == LE32(m.index) && body[4..] == m.body;
        assert p.buffer[p.position..p.position + 4] == body[..4];
        assert p.buffer[p.position + 4..p.length] == body[4..];
        out := RelayReply(p);
      }
    }

    /** `p->get(capability)` on a packet that holds cap, then `after`. */
    method ReadThis(p: Packet, ghost cap: Capability, ghost after: bytes) returns (c: Capability)
      requires p.position <= p.length <= p.buffer.Length && CapFits(cap)
      requires p.buffer[p.position..p.length] == EncodeCap(cap) + after
      modifies p`position
      ensures c == cap && p.position <= p.length && p.buffer[p.position..p.length] == after
    {
      hide EncodeCap, ParseCap;
      ghost var body, rest, at := p.buffer[p.position..p.length], p.buffer[p.length..], p.position;
      assert p.buffer[p.position..] == body + rest == EncodeCap(cap) + (after + rest);
      CapRoundTrip(cap, after + rest);
      c := ReadCap(p);
      assert p.buffer[p.position..p.length] == body[p.position - at..];
    }
  }

  lemma CodeOf(body: bytes, m: HubMessage)
    requires body == EncodeHub(m)
    ensures |body| >= 2 && FromLE16(body[..2]) == HubCode(m) && body[2..] == HubBody(m)
  {
    hide LE16, FromLE16, HubBody;
    assert body[..2] == LE16(HubCode(m));
  }

  /** One message handled by the hub: registry, relay table and what goes out. */
  ghost predicate HubTransition(reg: Registry, relay: map<u32, Conn>, c: Conn, m: HubMessage, live: set<Conn>,
    indices: seq<u32>, reg': Registry, relay': map<u32, Conn>, out: seq<(Conn, bytes)>)
  {
    match m
    case AddCap(cap) => reg' == Register(reg, cap, c) && relay' == relay && out == []
    case RemoveCap(cap) => reg' == Unregister(reg, cap) && relay' == relay && out == []
    case ListCaps(caps) => reg' == RegisterAll(reg, caps, c) && relay' == relay && out == []
    case Request(cap, body) =>
      var providers := Providers(reg, cap.name, live);
      && reg' == reg
      && |indices| == |providers| == |out| && FreshIndices(relay, indices)
      && relay' == Allocate(relay, indices, c)
      && forall k :: 0 <= k < |out| ==>
        out[k] == (RelayedTo(providers, indices, body)[k].0, EncodeClient(RelayedTo(providers, indices, body)[k].1))
    case Reply(index, body) =>
      && reg' == reg && relay' == relay - {index}
      && out == if index in relay && body != [] then [(relay[index], EncodeClient(Answer(body)))] else []
  }

  lemma NothingYet(reg: Registry, name: bytes, live: set<Conn>, relay: map<u32, Conn>, c: Conn)
    ensures Providers([], name, live) == [] && Allocate(relay, [], c) == relay && FreshIndices(relay, [])
  {}

  lemma {:induction false} ProvidersPrefix(reg: Registry, n: nat, name: bytes, live: set<Conn>)
    requires n <= |reg|
    ensures Providers(reg[..n], name, live) <= Providers(reg, name, live)
    decreases |reg| - n
  {
    if n == |reg| {
      assert reg[..n] == reg;
    } else {
      ProvidersPrefix(reg, n + 1, name, live);
      assert reg[..n + 1][..n] == reg[..n];
    }
  }

  lemma CapsAtCursor(caps: seq<Capability>, m: bytes)
    requires caps != [] && CapFits(caps[0]) && EncodeCaps(caps) <= m
    ensures ParseCap(m) == Some((caps[0], |EncodeCap(caps[0])|))
    ensures |EncodeCap(caps[0])| <= |m| && EncodeCaps(caps[1..]) <= m[|EncodeCap(caps[0])|..]
  {
    hide EncodeCap, ParseCap;
    var rest := m[|EncodeCap(caps[0])|..];
    assert m == EncodeCap(caps[0]) + rest;
    CapRoundTrip(caps[0], rest);
  }
}
