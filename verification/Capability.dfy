/** `Capability` of PhoenixLibrary/NetworkDefinitions.h and the values pushed into
    and popped from packets (PhoenixLibrary/Packet.h:54-108, 207-243). */
module Capabilities {
  import opened Machine
  import opened PacketBuffer

  /** An address is the text it prints as. */
  datatype Endpoint = Endpoint(address: bytes, port: u16)
  datatype Capability = Capability(name: bytes, endpoint: Endpoint)

  datatype Field =
    | Byte(b: u8)
    | Short(h: u16)
    | Word(w: u32)
    | Text(t: bytes)
    | Cap(c: Capability)

  datatype Kind = ByteKind | ShortKind | WordKind | TextKind | CapKind

  function KindOf(f: Field): Kind {
    match f
    case Byte(_) => ByteKind
    case Short(_) => ShortKind
    case Word(_) => WordKind
    case Text(_) => TextKind
    case Cap(_) => CapKind
  }

  function EncodeText(t: bytes): bytes { LE16(Wrap16(|t|)) + t }

  function EncodeCap(c: Capability): bytes {
    EncodeText(c.name) + (EncodeText(c.endpoint.address) + LE16(c.endpoint.port))
  }

  function Encode(f: Field): bytes {
    match f
    case Byte(b) => [b]
    case Short(h) => LE16(h)
    case Word(w) => LE32(w)
    case Text(t) => EncodeText(t)
    case Cap(c) => EncodeCap(c)
  }

  function EncodeAll(fs: seq<Field>): bytes {
    if fs == [] then [] else Encode(fs[0]) + EncodeAll(fs[1..])
  }

  /** Popping: a value and the bytes it took, or None past the end. */
  function ParseShort(m: bytes): Option<u16> {
    if |m| < 2 then None else Some(FromLE16(m[..2]))
  }

  function ParseText(m: bytes): (r: Option<bytes>)
    ensures r.Some? ==> 2 + |r.value| <= |m| && TextFits(r.value)
  {
    if |m| < 2 || |m| < 2 + FromLE16(m[..2]) then None else Some(m[2..2 + FromLE16(m[..2])])
  }

  function ParseCap(m: bytes): (r: Option<(Capability, nat)>)
    ensures r.Some? ==> r.value.1 <= |m| && CapFits(r.value.0)
  {
    var name := ParseText(m);
    if name.None? then None
    else
      var m1 := m[2 + |name.value|..];
      var address := ParseText(m1);
      if address.None? then None
      else
        var port := ParseShort(m1[2 + |address.value|..]);
        if port.None? then None
        else Some((Capability(name.value, Endpoint(address.value, port.value)), |name.value| + |address.value| + 6))
  }

  function Parse(k: Kind, m: bytes): (r: Option<(Field, nat)>)
    ensures r.Some? ==> KindOf(r.value.0) == k && r.value.1 <= |m| && Fits(r.value.0)
  {
    match k
    case ByteKind => if |m| < 1 then None else Some((Byte(m[0]), 1))
    case ShortKind => if |m| < 2 then None else Some((Short(FromLE16(m[..2])), 2))
    case WordKind => if |m| < 4 then None else Some((Word(FromLE32(m[..4])), 4))
    case TextKind =>
      var t := ParseText(m);
      if t.None? then None else Some((Text(t.value), 2 + |t.value|))
    case CapKind =>
      var c := ParseCap(m);
      if c.None? then None else Some((Cap(c.value.0), c.value.1))
  }

  function ParseAll(ks: seq<Kind>, m: bytes): (r: Option<(seq<Field>, nat)>)
    ensures r.Some? ==> |r.value.0| == |ks| && r.value.1 <= |m|
  {
    if ks == [] then Some(([], 0))
    else
      var head := Parse(ks[0], m);
      if head.None? then None
      else
        var tail := ParseAll(ks[1..], m[head.value.1..]);
        if tail.None? then None
        else Some(([head.value.0] + tail.value.0, head.value.1 + tail.value.1))
  }

  function Kinds(fs: seq<Field>): (ks: seq<Kind>)
    ensures |ks| == |fs|
  {
    seq(|fs|, i requires 0 <= i < |fs| => KindOf(fs[i]))
  }

  predicate TextFits(t: bytes) { |t| < 0x1_0000 }

  predicate CapFits(c: Capability) { TextFits(c.name) && TextFits(c.endpoint.address) }

  predicate Fits(f: Field) {
    match f
    case Text(t) => TextFits(t)
    case Cap(c) => CapFits(c)
    case _ => true
  }

  predicate AllFit(fs: seq<Field>) {
    fs == [] || (Fits(fs[0]) && AllFit(fs[1..]))
  }

  lemma TextRoundTrip(t: bytes, rest: bytes)
    ensures ParseText(EncodeText(t) + rest) == Some(t) <==> TextFits(t)
    ensures TextFits(t) ==> (EncodeText(t) + rest)[2 + |t|..] == rest
    ensures ParseText(EncodeText(t) + rest).Some?
  {}

  lemma CapRoundTrip(c: Capability, rest: bytes)
    ensures ParseCap(EncodeCap(c) + rest) == Some((c, |EncodeCap(c)|)) <==> CapFits(c)
    ensures CapFits(c) ==> (EncodeCap(c) + rest)[|EncodeCap(c)|..] == rest
  {
    hide ParseText, EncodeText;
    var m := EncodeCap(c) + rest;
    var tail := EncodeText(c.endpoint.address) + LE16(c.endpoint.port);
    var m1 := tail + rest;
    assert m == EncodeText(c.name) + m1;
    TextRoundTrip(c.name, m1);
    var m2 := LE16(c.endpoint.port) + rest;
    assert m1 == EncodeText(c.endpoint.address) + m2;
    TextRoundTrip(c.endpoint.address, m2);
    assert m2[..2] == LE16(c.endpoint.port);
    EncodedLength(c);
  }

  lemma EncodedLength(c: Capability)
    ensures |EncodeCap(c)| == |c.name| + |c.endpoint.address| + 6
  {}

  /** Popping what was pushed gives it back exactly when its texts fit in their
      16-bit lengths. */
  lemma FieldRoundTrip(f: Field, rest: bytes)
    ensures Parse(KindOf(f), Encode(f) + rest) == Some((f, |Encode(f)|)) <==> Fits(f)
    ensures Fits(f) ==> (Encode(f) + rest)[|Encode(f)|..] == rest
  {
    hide ParseCap, EncodeCap, ParseText, EncodeText, LE16, LE32, FromLE16, FromLE32;
    var m := Encode(f) + rest;
    match f
    case Byte(_) =>
    case Short(h) => assert m[..2] == LE16(h);
    case Word(w) => assert m[..4] == LE32(w);
    case Text(t) => TextRoundTrip(t, rest); TextLength(t);
    case Cap(c) => CapRoundTrip(c, rest);
  }

  lemma TextLength(t: bytes)
    ensures |EncodeText(t)| == 2 + |t|
  {}

  lemma KindsTail(fs: seq<Field>)
    requires fs != []
    ensures Kinds(fs)[0] == KindOf(fs[0]) && Kinds(fs)[1..] == Kinds(fs[1..])
  {}

  /** The same for every list of values. */
  lemma {:induction false} ListRoundTrip(fs: seq<Field>, rest: bytes)
    ensures ParseAll(Kinds(fs), EncodeAll(fs) + rest) == Some((fs, |EncodeAll(fs)|))
      <==> AllFit(fs)
  {
    hide Parse, Encode, Fits;
    if fs != [] {
      var head, rest' := Encode(fs[0]), EncodeAll(fs[1..]) + rest;
      assert EncodeAll(fs) + rest == head + rest' && |EncodeAll(fs)| == |head| + |EncodeAll(fs[1..])|;
      FieldRoundTrip(fs[0], rest');
      ListRoundTrip(fs[1..], rest);
      KindsTail(fs);
      hide Kinds;
      hide EncodeAll;
      assert (head + rest')[|head|..] == rest';
      assert fs == [fs[0]] + fs[1..];
    }
  }

  method WriteText(p: Packet, s: bytes)
    requires p.Writing()
    modifies p`buffer, p`position, p`length, p.buffer
    ensures p.Writing() && p.Body() == old(p.Body()) + EncodeText(s)
    ensures p.start == old(p.start) && (p.buffer == old(p.buffer) || fresh(p.buffer))
  {
    hide LE16, Write;
    ghost var was := p.Body();
    p.PushText(s);
    assert was + LE16(Wrap16(|s|)) + s == was + EncodeText(s);
  }

  /** `Capability::write` */
  method WriteCap(p: Packet, c: Capability)
    requires p.Writing()
    modifies p`buffer, p`position, p`length, p.buffer
    ensures p.Writing() && p.Body() == old(p.Body()) + EncodeCap(c)
    ensures p.start == old(p.start) && (p.buffer == old(p.buffer) || fresh(p.buffer))
  {
    hide LE16, EncodeText, Write;
    ghost var was := p.Body();
    ghost var name, address, port := EncodeText(c.name), EncodeText(c.endpoint.address), LE16(c.endpoint.port);
    WriteText(p, c.name);
    WriteText(p, c.endpoint.address);
    p.Push16(c.endpoint.port);
    assert was + name + address + port == was + (name + (address + port));
  }

  /** `Capability::read` */
  method ReadCap(p: Packet) returns (c: Capability)
    requires p.position <= p.buffer.Length && ParseCap(p.buffer[p.position..]).Some?
    modifies p`position
    ensures (c, p.position - old(p.position)) == ParseCap(old(p.buffer[p.position..])).value
  {
    hide FromLE16;
    ghost var m := p.buffer[p.position..];
    var name := ReadText(p);
    assert p.buffer[p.position..] == m[2 + |name|..];
    var address := ReadText(p);
    assert p.buffer[p.position..] == m[2 + |name|..][2 + |address|..];
    assert p.buffer[p.position..p.position + 2] == p.buffer[p.position..][..2];
    var port := p.Pop16();
    c := Capability(name, Endpoint(address, port));
  }

  method ReadText(p: Packet) returns (s: bytes)
    requires p.position <= p.buffer.Length && ParseText(p.buffer[p.position..]).Some?
    modifies p`position
    ensures s == ParseText(old(p.buffer[p.position..])).value && p.position == old(p.position) + 2 + |s|
  {
    hide FromLE16;
    ghost var m := p.buffer[p.position..];
    assert p.buffer[p.position..p.position + 2] == m[..2];
    s := p.PopText();
    assert s == m[2..2 + |s|];
  }

  method PushField(p: Packet, f: Field)
    requires p.Writing()
    modifies p`buffer, p`position, p`length, p.buffer
    ensures p.Writing() && p.Body() == old(p.Body()) + Encode(f)
    ensures p.start == old(p.start) && (p.buffer == old(p.buffer) || fresh(p.buffer))
  {
    hide EncodeCap, EncodeText, LE16, LE32, Write;
    match f
    case Byte(b) => p.Push8(b);
    case Short(h) => p.Push16(h);
    case Word(w) => p.Push32(w);
    case Text(t) => WriteText(p, t);
    case Cap(c) => WriteCap(p, c);
  }

  method PopField(p: Packet, k: Kind) returns (f: Field)
    requires p.position <= p.buffer.Length && Parse(k, p.buffer[p.position..]).Some?
    modifies p`position
    ensures (f, p.position - old(p.position)) == Parse(k, old(p.buffer[p.position..])).value
  {
    hide ParseCap, ParseText, FromLE16, FromLE32;
    ghost var m, at := p.buffer[p.position..], p.position;
    match k {
      case ByteKind => var b := p.Pop8(); f := Byte(b);
      case ShortKind =>
        assert p.buffer[at..at + 2] == m[..2];
        var h := p.Pop16();
        f := Short(h);
      case WordKind =>
        assert p.buffer[at..at + 4] == m[..4];
        var w := p.Pop32();
        f := Word(w);
      case TextKind => var t := ReadText(p); f := Text(t);
      case CapKind => var c := ReadCap(p); f := Cap(c);
    }
  }

  method PushAll(p: Packet, fs: seq<Field>)
    requires p.Writing()
    modifies p`buffer, p`position, p`length, p.buffer
    ensures p.Writing() && p.Body() == old(p.Body()) + EncodeAll(fs)
    ensures p.start == old(p.start) && (p.buffer == old(p.buffer) || fresh(p.buffer))
  {
    hide Encode, Write;
    if fs != [] {
      ghost var was := p.Body();
      PushField(p, fs[0]);
      PushAll(p, fs[1..]);
      assert was + Encode(fs[0]) + EncodeAll(fs[1..]) == was + (Encode(fs[0]) + EncodeAll(fs[1..]));
    }
  }

  method PopAll(p: Packet, ks: seq<Kind>) returns (fs: seq<Field>)
    requires p.position <= p.buffer.Length && ParseAll(ks, p.buffer[p.position..]).Some?
    modifies p`position
    ensures (fs, p.position - old(p.position)) == ParseAll(ks, old(p.buffer[p.position..])).value
  {
    hide Parse;
    if ks == [] {
      fs := [];
    } else {
      ghost var m, at := p.buffer[p.position..], p.position;
      var f := PopField(p, ks[0]);
      assert p.buffer[p.position..] == m[p.position - at..];
      var tail := PopAll(p, ks[1..]);
      fs := [f] + tail;
    }
  }

  /** A packet written from any list of values whose texts fit, rewound to its
      start, reads back the list and ends where the writing ended. */
  method WriteThenRead(fs: seq<Field>) returns (read: seq<Field>)
    requires AllFit(fs)
    ensures read == fs
  {
    hide AllFit, Parse, ParseAll, Encode, EncodeAll, Kinds;
    var p := new Packet();
    PushAll(p, fs);
    var end := p.position;
    p.position := p.start;
    assert p.buffer[p.start..end] == EncodeAll(fs);
    Cut(p.buffer[..], p.start, end, p.buffer.Length);
    assert p.buffer[p.start..] == p.buffer[..][p.start..p.buffer.Length];
    assert p.buffer[end..] == p.buffer[..][end..p.buffer.Length];
    ListRoundTrip(fs, p.buffer[end..]);
    read := PopAll(p, Kinds(fs));
    assert p.position == end;
  }
}
