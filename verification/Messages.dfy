/** What hub and clients send each other after the handshake, and its bytes:
    Plugin_Interserver/InterserverService.cpp:47-193 and
    Plugin_InterserverClient/InterserverClient.cpp:264-346, 380-439. */
module Messages {
  import opened Machine
  import opened Capabilities

  datatype HubMessage =
    | AddCap(cap: Capability)
    | RemoveCap(cap: Capability)
    | ListCaps(caps: seq<Capability>)
    | Request(cap: Capability, body: bytes)
    | Reply(index: u32, body: bytes)

  datatype ClientMessage =
    | Relayed(index: u32, body: bytes)
    | Answer(body: bytes)

  function EncodeCaps(caps: seq<Capability>): bytes {
    if caps == [] then [] else EncodeCap(caps[0]) + EncodeCaps(caps[1..])
  }

  function HubCode(m: HubMessage): u16 {
    match m
    case AddCap(_) => 1
    case RemoveCap(_) => 2
    case ListCaps(_) => 3
    case Request(_, _) => 7
    case Reply(_, _) => 8
  }

  function HubBody(m: HubMessage): bytes {
    match m
    case AddCap(c) => EncodeCap(c)
    case RemoveCap(c) => EncodeCap(c)
    case ListCaps(cs) => LE16(Wrap16(|cs|)) + EncodeCaps(cs)
    case Request(c, body) => EncodeCap(c) + body
    case Reply(index, body) => LE32(index) + body
  }

  function EncodeHub(m: HubMessage): bytes { LE16(HubCode(m)) + HubBody(m) }

  function EncodeClient(m: ClientMessage): bytes {
    match m
    case Relayed(index, body) => LE16(7) + LE32(index) + body
    case Answer(body) => LE16(8) + body
  }

  /** Texts and lists short enough for their 16-bit counts. */
  predicate HubFits(m: HubMessage) {
    match m
    case AddCap(c) => CapFits(c)
    case RemoveCap(c) => CapFits(c)
    case ListCaps(cs) => |cs| < 0x1_0000 && forall i :: 0 <= i < |cs| ==> CapFits(cs[i])
    case Request(c, _) => CapFits(c)
    case Reply(_, _) => true
  }

  /** The part of a request the hub relays unread, and of a reply. */
  const REQUEST_PACKET_SERIALIZABLE: u8 := 1

  function RequestBody(id: u32, className: bytes, data: bytes): bytes {
    [REQUEST_PACKET_SERIALIZABLE] + LE32(id) + EncodeText(className) + data
  }

  function ReplyBody(id: u32, output: bytes): bytes {
    [REQUEST_PACKET_SERIALIZABLE] + LE32(id) + output
  }

  datatype RequestParts = RequestParts(id: u32, className: bytes, data: bytes)
  datatype ReplyParts = ReplyParts(id: u32, output: bytes)

  function ParseRequestBody(m: bytes): Option<RequestParts> {
    if |m| < 5 || m[0] != REQUEST_PACKET_SERIALIZABLE then None
    else
      var className := ParseText(m[5..]);
      if className.None? then None
      else Some(RequestParts(FromLE32(m[1..5]), className.value, m[5..][2 + |className.value|..]))
  }

  function ParseReplyBody(m: bytes): Option<ReplyParts> {
    if |m| < 5 || m[0] != REQUEST_PACKET_SERIALIZABLE then None
    else Some(ReplyParts(FromLE32(m[1..5]), m[5..]))
  }

  /** The provider finds in a relayed request what the requester put there. */
  lemma RequestBodyRoundTrip(id: u32, className: bytes, data: bytes)
    ensures ParseRequestBody(RequestBody(id, className, data)) == Some(RequestParts(id, className, data))
      <==> TextFits(className)
  {
    hide LE32, FromLE32, ParseText, EncodeText;
    var m := RequestBody(id, className, data);
    assert m[1..5] == LE32(id);
    assert m[5..] == EncodeText(className) + data;
    TextRoundTrip(className, data);
  }

  lemma ReplyBodyRoundTrip(id: u32, output: bytes)
    ensures ParseReplyBody(ReplyBody(id, output)) == Some(ReplyParts(id, output))
  {}
}
