/** Sending and receiving frames: PhoenixLibrary/NetworkConnection.cpp, the
    client's gate (Plugin_InterserverClient/InterserverClient.cpp:374-378) and the
    listener's check (PhoenixLibrary/NetworkListener.cpp:199-219). */
module Connection {
  import opened Machine
  import opened Xtea
  import opened PacketBuffer
  import opened Adler32
  import ErrorDetection

  /** Bytes `encrypt` appends to reach a multiple of 8. */
  function Padding(size: nat): (n: nat)
    ensures n < 8 && (size + n) % 8 == 0
  {
    if size % 8 != 0 then 8 - size % 8 else 0
  }

  /** A payload with its inner length and its padding, enciphered. */
  function Sealed(k: Key, payload: bytes, padding: bytes): (r: bytes)
    requires |padding| == Padding(|payload| + 2)
    ensures |r| == |payload| + 2 + |padding| && |r| % 8 == 0
  {
    MapBlocks(EncipherWith(k), LE16(Wrap16(|payload|)) + payload + padding)
  }

  /** What `handleBody` sums over lies in the memory of the packet. */
  predicate SummedInside(m: bytes, position: nat, size: nat) {
    var n := Wrap32(size - position - 4);
    n > MAX_PACKET || position + 4 + n <= |m|
  }

  /** What `handleBody` stores as the last checksum, for a message in memory m.
      The length is computed in size_t and cut to 32 bits. */
  function ChecksumFrom(m: bytes, position: nat, size: nat): u32
    requires SummedInside(m, position, size)
  {
    var n := Wrap32(size - position - 4);
    if n > MAX_PACKET then 0 else Checksum(m[position + 4..position + 4 + n])
  }

  /** What `decrypt` makes of memory m: success, memory, cursor, size. */
  function Opened(k: Key, m: bytes, position: nat, size: nat): (r: (bool, bytes, nat, nat))
    requires 6 <= size && (size - 6) % 8 == 0 ==> position + (size - 6) <= |m| && position + 2 <= |m|
    ensures |r.1| == |m| && r.2 <= position + 2
  {
    if size < 6 || (size - 6) % 8 != 0 then (false, m, position, size)
    else
      var plain := DoneUpTo(DecipherWith(k), m, position, position + (size - 6));
      var inner := FromLE16(plain[position..position + 2]);
      if inner > Wrap64(size - 8) then (false, plain, position + 2, size)
      else (true, plain, position + 2, inner)
  }

  /** Reading a frame of a connection that may have keys: success, memory, cursor,
      size. What the buffer held behind the frame stays. */
  function Arrived(hasKeys: bool, k: Key, m: bytes, frame: bytes): (r: (bool, bytes, nat, nat))
    requires 2 <= |frame| <= |m| && 8 <= |m|
    ensures |r.1| == |m| && r.2 <= 4
  {
    var now := frame + m[|frame|..];
    if hasKeys then Opened(k, now, HEADER_SIZE, |frame|) else (true, now, HEADER_SIZE, |frame|)
  }

  /** A frame can be summed where it is, whatever its size, but for an inner length
      beyond the buffer in a keyed frame of size 6, where `size() - 8` wraps. */
  ghost predicate Summable(hasKeys: bool, k: Key, m: bytes, frame: bytes)
    requires 2 <= |frame| <= |m| && 8 <= |m|
  {
    var (ok, now, position, size) := Arrived(hasKeys, k, m, frame);
    ok ==> SummedInside(now, position, size)
  }

  lemma OtherSizesSummable(hasKeys: bool, k: Key, m: bytes, frame: bytes)
    requires 2 <= |frame| <= |m| && 8 <= |m| && |frame| < 0x1_0002
    requires !hasKeys || |frame| != 6
    ensures Summable(hasKeys, k, m, frame)
  {
    hide DoneUpTo;
  }

  class NetworkConnection {
    const recv: Packet
    var checksum: u32
    var keys: Key
    var hasKeys: bool
    /** `needChecksum()`: fixed by the service, and true for the client. */
    const needsChecksum: bool

    constructor (needsChecksum: bool)
      ensures !hasKeys && fresh(recv) && fresh(recv.buffer)
      ensures this.needsChecksum == needsChecksum
      ensures recv.buffer.Length == 512
    {
      recv := new Packet();
      checksum := 0;
      keys := [0, 0, 0, 0];
      hasKeys := false;
      this.needsChecksum := needsChecksum;
    }

    method SetKeys(k: Key)
      modifies this`keys, this`hasKeys
      ensures hasKeys && keys == k
    {
      hasKeys := true;
      keys := k;
    }

    /** The headroom the headers need, and the room `pad` takes for granted. */
    ghost predicate CanSend(packet: Packet)
      reads this, packet, packet.buffer
    {
      && packet.start + packet.length <= packet.buffer.Length
      && (if needsChecksum then 6 else 2) + (if hasKeys then 2 else 0) <= packet.start
      && (hasKeys ==> packet.start + packet.length + Padding(packet.length + 2) <= packet.buffer.Length)
    }

    /** `encrypt` */
    method Encrypt(packet: Packet)
      requires packet.start + packet.length + Padding(packet.length) <= packet.buffer.Length
      modifies packet`position, packet`length, packet.buffer
      ensures packet.position == old(packet.position) + Padding(old(packet.length))
      ensures packet.length == old(packet.length) + Padding(old(packet.length))
      ensures packet.buffer[..]
        == DoneUpTo(EncipherWith(keys), old(packet.buffer[..]), packet.start, packet.start + packet.length)
    {
      hide DoneUpTo;
      var paddingBytes := packet.length % 8;
      if paddingBytes != 0 {
        packet.Pad(8 - paddingBytes);
      }
      EncryptRegion(keys, packet.buffer, packet.start, packet.length);
    }

    /** The keyed half of `send`. */
    method Seal(packet: Packet)
      requires 2 <= packet.start && packet.start + packet.length <= packet.buffer.Length
      requires packet.start + packet.length + Padding(packet.length + 2) <= packet.buffer.Length
      modifies packet`start, packet`position, packet`length, packet.buffer
      ensures packet.start == old(packet.start) - 2 && packet.start + packet.length <= packet.buffer.Length
      ensures packet.Body() == Sealed(keys, old(packet.Body()), old(PaddingOf(packet)))
    {
      hide MapBlocks, DoneUpTo, Splice;
      ghost var was, payload, padding := packet.buffer[..], packet.Body(), PaddingOf(packet);
      packet.WriteMessageLength();
      ghost var clear, from := packet.buffer[..], packet.start;
      ghost var mid, end := from + packet.length, from + packet.length + |padding|;
      SpliceElsewhere(was, from, LE16(Wrap16(|payload|)), mid, end);
      Cut(clear, from, mid, end);
      assert packet.Body() == clear[from..mid];
      Encrypt(packet);
      DoneThere(EncipherWith(keys), clear, from, end);
      assert packet.Body() == packet.buffer[..][from..end];
    }

    /** `send`: what reaches the socket. */
    method Send(packet: Packet) returns (wire: bytes)
      requires CanSend(packet)
      modifies packet`start, packet`position, packet`length, packet.buffer
      ensures !hasKeys ==> wire == Framed(needsChecksum, old(packet.Body()))
      ensures hasKeys ==>
        wire == Framed(needsChecksum, Sealed(keys, old(packet.Body()), old(PaddingOf(packet))))
      ensures packet.start == old(packet.start) - (if needsChecksum then 6 else 2) - (if hasKeys then 2 else 0)
    {
      if hasKeys {
        Seal(packet);
      }
      packet.AddCryptoHeader(needsChecksum);
      wire := packet.buffer[packet.start..packet.start + packet.length];
    }

    /** `handleHeader`, once the two length bytes are in the buffer. */
    method HandleHeader() returns (len: nat)
      requires 2 <= recv.buffer.Length
      modifies recv`length, recv`position
      ensures len == FromLE16(recv.buffer[..2]) && recv.length == len + 2 && recv.position == 2
    {
      len := recv.ParseLength();
      recv.position := HEADER_SIZE;
    }

    /** `decrypt` */
    method Decrypt() returns (ok: bool)
      requires 6 <= recv.length && (recv.length - 6) % 8 == 0 ==>
        recv.position + (recv.length - 6) <= recv.buffer.Length && recv.position + 2 <= recv.buffer.Length
      modifies recv`position, recv`length, recv.buffer
      ensures (ok, recv.buffer[..], recv.position, recv.length)
        == old(Opened(keys, recv.buffer[..], recv.position, recv.length))
    {
      hide DoneUpTo;
      if (recv.length - 6) % 8 != 0 {   // size_t wraps at a multiple of 8
        return false;
      }
      DecryptRegion(keys, recv.buffer, recv.position, recv.length - 6);
      assert recv.buffer[..][recv.position..recv.position + 2] == recv.buffer[recv.position..recv.position + 2];
      var innerLength := recv.Pop16();
      if innerLength > Wrap64(recv.length - 8) {
        return false;
      }
      recv.length := innerLength;
      ok := true;
    }

    /** The receive packet as `handleBody` sees it after its first lines. */
    ghost function Unsealed(): (r: (bool, bytes, nat, nat))
      requires recv.position == HEADER_SIZE && recv.length <= recv.buffer.Length && 8 <= recv.buffer.Length
      reads this, recv, recv.buffer
      ensures |r.1| == recv.buffer.Length && r.2 <= 4
    {
      if hasKeys then Opened(keys, recv.buffer[..], recv.position, recv.length)
      else (true, recv.buffer[..], recv.position, recv.length)
    }

    /** `handleBody`, once the rest of the frame is in the buffer. The packet it
        hands on is a copy of the receive packet; none if decryption fails. */
    method HandleBody() returns (delivered: Packet?)
      requires recv.position == HEADER_SIZE && recv.length <= recv.buffer.Length && 8 <= recv.buffer.Length
      requires var (ok, m, position, size) := Unsealed(); ok ==> SummedInside(m, position, size)
      modifies this`checksum, recv`position, recv`length, recv.buffer
      ensures var (ok, m, position, size) := old(Unsealed());
        && (delivered == null <==> !ok)
        && recv.buffer[..] == m && recv.position == position && recv.length == size
        && (ok ==>
          && fresh(delivered) && fresh(delivered.buffer) && delivered.buffer[..] == m
          && delivered.position == position && delivered.length == size)
        && checksum == if ok then ChecksumFrom(m, position, size) else old(checksum)
    {
      hide DoneUpTo, Opened;
      assert Checksum([]) == 0;
      hide Checksum;
      ghost var u := Unsealed();
      if hasKeys {
        var ok := Decrypt();
        if !ok { return null; }
      }
      assert u == (true, recv.buffer[..], recv.position, recv.length);
      KeepSum();
      delivered := new Packet.Copy(recv);
    }

    /** The sum over what follows the checksum word. */
    method KeepSum()
      requires SummedInside(recv.buffer[..], recv.position, recv.length)
      modifies this`checksum
      ensures checksum == ChecksumFrom(recv.buffer[..], recv.position, recv.length)
    {
      assert Checksum([]) == 0;
      hide Checksum;
      var n := Wrap32(recv.length - recv.position - 4);
      if n > 0 {
        checksum := AdlerChecksum(recv.buffer, recv.position + 4, n);
      } else {
        checksum := 0;
      }
      ghost var from := recv.position + 4;
      assert n <= MAX_PACKET ==> recv.buffer[from..from + n] == recv.buffer[..][from..from + n];
    }

    /** One frame read by the asynchronous calls of `beginReading` and
        `handleHeader`. The buffer is as large as it ever gets, so the frame must
        fit. */
    method Receive(frame: bytes) returns (delivered: Packet?)
      requires WellFramed(frame) && 8 <= recv.buffer.Length && |frame| <= recv.buffer.Length
      requires Summable(hasKeys, keys, recv.buffer[..], frame)
      modifies this`checksum, recv`position, recv`length, recv.buffer
      ensures var (ok, m, position, size) := Arrived(hasKeys, keys, old(recv.buffer[..]), frame);
        && (delivered == null <==> !ok)
        && recv.buffer[..] == m && recv.position == position && recv.length == size
        && (ok ==>
          && fresh(delivered) && fresh(delivered.buffer) && delivered.buffer[..] == m
          && delivered.position == position && delivered.length == size)
        && checksum == if ok then ChecksumFrom(m, position, size) else old(checksum)
    {
      hide Splice, ChecksumFrom, Opened, SummedInside;
      FrameInMemory(recv.buffer[..], frame);
      Store(recv.buffer, 0, frame[..2]);
      assert recv.buffer[..2] == recv.buffer[..][..2];
      var len := HandleHeader();
      Store(recv.buffer, 2, frame[2..]);
      delivered := HandleBody();
    }

    /** The first lines of the client's callback: the checksum word must be the
        sum computed on arrival. */
    method PassesGate(packet: Packet) returns (accepted: bool)
      requires packet.position + 4 <= packet.buffer.Length
      modifies packet`position
      ensures packet.position == old(packet.position) + 4
      ensures accepted <==> FromLE32(packet.buffer[old(packet.position)..packet.position]) == checksum
    {
      var word := packet.Pop32();
      accepted := checksum == word;
    }

    /** A frame reaching the client is accepted exactly when its checksum word is
        the sum kept on arrival: without keys, the checksum of the rest. Of a frame
        too short for a checksum word, the word is read from what the buffer held. */
    method ClientReceives(frame: bytes) returns (accepted: bool, delivered: Packet?)
      requires WellFramed(frame) && 8 <= recv.buffer.Length && |frame| <= recv.buffer.Length
      requires Summable(hasKeys, keys, recv.buffer[..], frame)
      modifies this`checksum, recv`position, recv`length, recv.buffer
      ensures var (ok, m, position, size) := Arrived(hasKeys, keys, old(recv.buffer[..]), frame);
        && (delivered == null <==> !ok)
        && recv.buffer[..] == m && recv.position == position && recv.length == size
        && checksum == (if ok then ChecksumFrom(m, position, size) else old(checksum))
        && (accepted <==> ok && FromLE32(m[position..position + 4]) == ChecksumFrom(m, position, size))
        && (ok ==>
          && fresh(delivered) && fresh(delivered.buffer) && delivered.buffer[..] == m
          && delivered.position == position + 4 && delivered.length == size)
      ensures !hasKeys && 6 <= |frame| ==> (accepted <==> ErrorDetection.GateAccepts(frame[2..]))
      ensures !hasKeys && |frame| < 6 ==>
        (accepted <==> FromLE32((frame + old(recv.buffer[..])[|frame|..])[2..6]) == 0)
    {
      hide Opened, ChecksumFrom, SummedInside;
      ghost var m := frame + recv.buffer[|frame|..];
      assert recv.buffer[..][|frame|..] == recv.buffer[|frame|..];
      delivered := Receive(frame);
      if delivered == null { return false, null; }
      assert delivered.buffer[delivered.position..delivered.position + 4]
        == delivered.buffer[..][delivered.position..delivered.position + 4];
      accepted := PassesGate(delivered);
      if !hasKeys { GateOfFrame(m, frame); }
    }

    /** The check of `handleReceive` in the listener compares two sums of the same
        bytes: it never skips a packet, whatever its checksum word says, and the
        service gets what was read, the cursor behind the checksum word. */
    method ListenerReceives(frame: bytes) returns (skipPacket: bool, delivered: Packet?)
      requires WellFramed(frame) && 8 <= recv.buffer.Length && |frame| <= recv.buffer.Length
      requires Summable(hasKeys, keys, recv.buffer[..], frame)
      modifies this`checksum, recv`position, recv`length, recv.buffer
      ensures !skipPacket
      ensures var (ok, m, position, size) := Arrived(hasKeys, keys, old(recv.buffer[..]), frame);
        && (delivered == null <==> !ok)
        && recv.buffer[..] == m && recv.position == position && recv.length == size
        && checksum == (if ok then ChecksumFrom(m, position, size) else old(checksum))
        && (ok ==>
          && fresh(delivered) && fresh(delivered.buffer) && delivered.buffer[..] == m
          && delivered.position == position + 4 && delivered.length == size)
    {
      hide Opened, ChecksumFrom, SummedInside;
      SizeArrived(hasKeys, keys, recv.buffer[..], frame);
      delivered := Receive(frame);
      skipPacket := false;
      if delivered == null { return; }
      delivered.Skip(4);
      skipPacket := SumDiffers(delivered);
    }

    /** The sum the listener takes, over a length computed in size_t. */
    method SumDiffers(packet: Packet) returns (differs: bool)
      requires 4 <= packet.position <= 8 && packet.length < 0x1_0002
      requires SummedInside(packet.buffer[..], packet.position - 4, packet.length)
      requires checksum == ChecksumFrom(packet.buffer[..], packet.position - 4, packet.length)
      ensures !differs
    {
      hide Checksum;
      var n := Wrap64(packet.length - packet.position);
      assert n <= MAX_PACKET ==>
        packet.buffer[packet.position..packet.position + n] == packet.buffer[..][packet.position..packet.position + n];
      var sum := AdlerChecksum(packet.buffer, packet.position, n);
      differs := sum != checksum;
    }
  }

  lemma SizeArrived(hasKeys: bool, k: Key, m: bytes, frame: bytes)
    requires WellFramed(frame) && |frame| <= |m| && 8 <= |m|
    ensures Arrived(hasKeys, k, m, frame).3 < 0x1_0002
  {
    hide DoneUpTo;
  }

  lemma GateOfFrame(m: bytes, frame: bytes)
    requires WellFramed(frame) && frame <= m && 6 <= |m|
    ensures SummedInside(m, 2, |frame|)
    ensures 6 <= |frame| ==>
      (FromLE32(m[2..6]) == ChecksumFrom(m, 2, |frame|) <==> ErrorDetection.GateAccepts(frame[2..]))
    ensures |frame| < 6 ==> ChecksumFrom(m, 2, |frame|) == 0
  {
    hide FromLE32, FromLE16, Rfc;
    if 6 <= |frame| {
      assert m[2..6] == frame[2..][..4];
      assert m[6..|frame|] == frame[2..][4..];
    }
  }

  /** The outer length tells how long the frame is. */
  ghost predicate WellFramed(frame: bytes) {
    |frame| >= 2 && |frame| == FromLE16(frame[..2]) + 2
  }

  /** What a sender frames is well framed, whatever it is, while its length fits. */
  lemma FramedIsWellFramed(addChecksum: bool, body: bytes)
    requires |body| + (if addChecksum then 4 else 0) < 0x1_0000
    ensures WellFramed(Framed(addChecksum, body))
    ensures |Framed(addChecksum, body)| == |body| + (if addChecksum then 6 else 2)
  {
    hide LE16, FromLE16, LE32, Checksum;
    var checked := if addChecksum then LE32(Checksum(body)) + body else body;
    assert Framed(addChecksum, body)[..2] == LE16(|checked|);
  }

  lemma FrameInMemory(m: bytes, frame: bytes)
    requires 2 <= |frame| <= |m|
    ensures Splice(m, 0, frame[..2])[..2] == frame[..2]
    ensures Splice(Splice(m, 0, frame[..2]), 2, frame[2..]) == frame + m[|frame|..]
  {}

  lemma SumOnArrival(frame: bytes)
    requires 6 <= |frame| < 0x1_0002
    ensures SummedInside(frame, 2, |frame|) && ChecksumFrom(frame, 2, |frame|) == Checksum(frame[6..])
  {
    hide Rfc;
    assert frame[6..|frame|] == frame[6..];
  }

  /** Without keys, what is received is what was sent, the empty payload
      included: the stored word equals the sum computed on arrival. */
  lemma PlainRoundTrip(payload: bytes)
    requires |payload| + 4 < 0x1_0000
    ensures var frame := Framed(true, payload);
      && WellFramed(frame) && |frame| == |payload| + 6
      && frame[2..] == ErrorDetection.Codeword(payload) && frame[6..] == payload
      && SummedInside(frame, 2, |frame|) && FromLE32(frame[2..6]) == ChecksumFrom(frame, 2, |frame|)
      && ErrorDetection.GateAccepts(frame[2..])
  {
    hide LE16, FromLE16, LE32, FromLE32, Checksum;
    var frame, word := Framed(true, payload), LE32(Checksum(payload));
    var checked := word + payload;
    assert frame == LE16(|checked|) + checked;
    assert frame[..2] == LE16(|checked|) && frame[2..] == checked;
    assert frame[6..] == payload && frame[2..6] == word;
    assert checked[..4] == word && checked[4..] == payload;
    SumOnArrival(frame);
  }

  /** Every corruption of one or two bytes of checksum and payload is rejected by
      the client; none is noticed by the listener (`ListenerReceives`). */
  lemma ClientRejectsCorruption(payload: bytes, frame: bytes)
    requires |payload| <= MAX_PACKET
    requires |frame| == |Framed(true, payload)| && frame[..2] == Framed(true, payload)[..2]
    requires 1 <= Distance(Framed(true, payload)[2..], frame[2..]) <= 2
    ensures WellFramed(frame) && !ErrorDetection.GateAccepts(frame[2..])
  {
    PlainRoundTrip(payload);
    ErrorDetection.CorruptionRejected(payload, frame[2..]);
  }

  /** With keys, the checksummed frame opened from behind its checksum gives back
      the payload and its exact length. */
  lemma KeyedRoundTrip(k: Key, payload: bytes, padding: bytes, m: bytes)
    requires |padding| == Padding(|payload| + 2) && |payload| + 6 + |padding| < 0x1_0000
    requires Framed(true, Sealed(k, payload, padding)) <= m
    ensures var frame := Framed(true, Sealed(k, payload, padding));
      && WellFramed(frame) && |frame| == |payload| + 8 + |padding| && |frame| - 6 == |Sealed(k, payload, padding)|
      && Opened(k, m, 6, |frame|).0
      && Opened(k, m, 6, |frame|).2 == 8
      && Opened(k, m, 6, |frame|).3 == |payload|
      && Opened(k, m, 6, |frame|).1 == m[..6] + LE16(|payload|) + payload + padding + m[|frame|..]
  {
    hide MapBlocks, Splice, Opened, Framed, LE16, FromLE16;
    var clear := LE16(|payload|) + payload + padding;
    var sealed := Sealed(k, payload, padding);
    SealedLayout(sealed, m);
    RegionInverse(k, clear);
    assert clear[..2] == LE16(|payload|);
    OpenedAt(k, m, |sealed| + 6, clear);
  }

  lemma SealedLayout(sealed: bytes, m: bytes)
    requires |sealed| + 4 < 0x1_0000 && Framed(true, sealed) <= m
    ensures WellFramed(Framed(true, sealed)) && |Framed(true, sealed)| == |sealed| + 6
    ensures m[6..|sealed| + 6] == sealed
  {}

  lemma OpenedAt(k: Key, m: bytes, size: nat, clear: bytes)
    requires 8 <= size <= |m| && (size - 6) % 8 == 0 && |clear| == size - 6
    requires MapBlocks(DecipherWith(k), m[6..size]) == clear
    requires FromLE16(clear[..2]) <= size - 8 < 0x1_0000
    ensures Opened(k, m, 6, size) == (true, m[..6] + clear + m[size..], 8, FromLE16(clear[..2]))
  {
    hide MapBlocks;
    var plain := m[..6] + clear + m[size..];
    assert DoneUpTo(DecipherWith(k), m, 6, 6 + (size - 6)) == plain;
    assert plain[6..8] == clear[..2];
  }

  /** The bytes behind a message that `pad` takes in. */
  ghost function PaddingOf(packet: Packet): bytes
    requires packet.start + packet.length + Padding(packet.length + 2) <= packet.buffer.Length
    reads packet, packet.buffer
  {
    var end := packet.start + packet.length;
    packet.buffer[end..end + Padding(packet.length + 2)]
  }

  /** Put together, `handleHeader` and `handleBody` open a keyed frame from its
      checksum on: the last four bytes of the frame stay enciphered, and the inner
      length is read out of the deciphered checksum. */
  lemma ComposedKeyedReceive(k: Key, frame: bytes, m: bytes)
    requires WellFramed(frame) && 14 <= |frame| && (|frame| - 6) % 8 == 0 && frame <= m
    ensures var (ok, m', position, size) := Opened(k, m, 2, |frame|);
      var plain := MapBlocks(DecipherWith(k), frame[2..|frame| - 4]);
      && position == 4
      && m' == frame[..2] + plain + (frame[|frame| - 4..] + m[|frame|..])
      && (ok <==> FromLE16(plain[..2]) <= |frame| - 8)
      && (ok ==> size == FromLE16(plain[..2]))
  {
    hide MapBlocks, DecipherWith, DoneUpTo, FromLE16;
    var end := |frame| - 4;
    DoneAround(DecipherWith(k), m, 2, end);
    DoneThere(DecipherWith(k), m, 2, end);
    assert m[..2] == frame[..2] && m[2..end] == frame[2..end];
    assert m[end..] == frame[end..] + m[|frame|..];
    var plain := DoneUpTo(DecipherWith(k), m, 2, end);
    assert plain[2..4] == plain[2..end][..2];
  }

  /** A keyed frame, and what is enciphered in it. */
  ghost predicate KeyedFrame(k: Key, clear: bytes, frame: bytes) {
    && |clear| % 8 == 0 && 8 <= |clear| && |clear| + 4 < 0x1_0000
    && frame == Framed(true, MapBlocks(EncipherWith(k), clear))
  }

  lemma KeyedLayout(k: Key, clear: bytes, frame: bytes)
    requires KeyedFrame(k, clear, frame)
    ensures WellFramed(frame) && |frame| == |clear| + 6
    ensures frame[6..] == MapBlocks(EncipherWith(k), clear)
  {
    hide MapBlocks;
    PlainRoundTrip(MapBlocks(EncipherWith(k), clear));
  }

  lemma SealedIsKeyed(k: Key, payload: bytes, padding: bytes)
    requires |padding| == Padding(|payload| + 2) && |payload| + 6 + |padding| < 0x1_0000
    ensures KeyedFrame(k, LE16(|payload|) + payload + padding, Framed(true, Sealed(k, payload, padding)))
  {
    hide MapBlocks, EncipherWith, Framed, LE16;
  }

  /** Deciphering a region four bytes too early recovers its first e bytes exactly
      when the enciphered bytes are the same four bytes earlier. */
  lemma EarlyRegion(k: Key, clear: bytes, frame: bytes, e: nat)
    requires KeyedFrame(k, clear, frame) && |frame| == |clear| + 6 && e % 8 == 0 && e <= |clear|
    ensures MapBlocks(DecipherWith(k), frame[2..|frame| - 4])[..e] == clear[..e]
      <==> frame[2..2 + e] == frame[6..6 + e]
  {
    hide MapBlocks, EncipherWith, DecipherWith;
    KeyedLayout(k, clear, frame);
    var early, sealed := frame[2..|frame| - 4], MapBlocks(EncipherWith(k), clear);
    MapPrefix(DecipherWith(k), early, e);
    MapPrefix(EncipherWith(k), clear, e);
    RegionInverse(k, early[..e]);
    RegionInverse(k, clear[..e]);
    assert early[..e] == frame[2..2 + e] && sealed[..e] == frame[6..6 + e];
  }

  /** The exact condition: put together, the two handlers recover inner length,
      payload and padding if and only if everything behind the outer length, read
      as words, repeats the checksum word. */
  lemma ComposedRecoversExactly(k: Key, payload: bytes, padding: bytes, m: bytes)
    requires |padding| == Padding(|payload| + 2) && |payload| + 6 + |padding| < 0x1_0000
    requires Framed(true, Sealed(k, payload, padding)) <= m
    ensures var frame := Framed(true, Sealed(k, payload, padding));
      var clear := LE16(|payload|) + payload + padding;
      var (ok, m', position, size) := Opened(k, m, 2, |frame|);
      && |frame| == |clear| + 6
      && ((ok && size == |payload| && m'[2..2 + |clear|] == clear) <==> frame[2..|frame| - 4] == frame[6..])
  {
    hide MapBlocks, DecipherWith, EncipherWith, Opened, Framed, LE16, FromLE16;
    var clear, frame := LE16(|payload|) + payload + padding, Framed(true, Sealed(k, payload, padding));
    assert clear[..2] == LE16(|payload|);
    KeyedLayout(k, clear, frame);
    ComposedKeyedReceive(k, frame, m);
    EarlyRegion(k, clear, frame, |clear|);
    var plain := MapBlocks(DecipherWith(k), frame[2..|frame| - 4]);
    assert plain[..|clear|] == plain && clear[..|clear|] == clear;
    assert frame[2..2 + |clear|] == frame[2..|frame| - 4] && frame[6..6 + |clear|] == frame[6..];
    assert Opened(k, m, 2, |frame|).1[2..2 + |clear|] == plain;
  }

  /** What recovering the payload means for the deciphered region: it starts with
      the inner length and the payload. */
  lemma RecoveredHead(k: Key, payload: bytes, padding: bytes, m: bytes)
    requires |padding| == Padding(|payload| + 2) && |payload| + 6 + |padding| < 0x1_0000
    requires Framed(true, Sealed(k, payload, padding)) <= m
    ensures var frame := Framed(true, Sealed(k, payload, padding));
      var (ok, m', position, size) := Opened(k, m, 2, |frame|);
      && |frame| == |payload| + 8 + |padding|
      && ((ok && size == |payload| && m'[4..4 + |payload|] == payload)
        <==> MapBlocks(DecipherWith(k), frame[2..|frame| - 4])[..2 + |payload|] == LE16(|payload|) + payload)
  {
    hide MapBlocks, DecipherWith, EncipherWith, Opened, Framed, LE16, FromLE16;
    var two := LE16(|payload|);
    var frame := Framed(true, Sealed(k, payload, padding));
    KeyedLayout(k, two + payload + padding, frame);
    ComposedKeyedReceive(k, frame, m);
    var plain := MapBlocks(DecipherWith(k), frame[2..|frame| - 4]);
    Within(frame[..2], plain, frame[|frame| - 4..] + m[|frame|..], |payload|);
    HeadParts(plain, two, payload);
    if FromLE16(plain[..2]) == |payload| { LE16Read(plain[..2], |payload|); }
  }

  lemma HeadParts(s: bytes, two: bytes, payload: bytes)
    requires |two| == 2 && 2 + |payload| <= |s|
    ensures s[..2 + |payload|] == two + payload <==> s[..2] == two && s[2..2 + |payload|] == payload
  {
    var t := s[..2 + |payload|];
    assert t == t[..2] + t[2..] && t[..2] == s[..2] && t[2..] == s[2..2 + |payload|];
  }

  /** The bytes of the whole blocks in a region of n bytes. */
  function WholeBlocks(n: nat): (e: nat)
    ensures e <= n && e % 8 == 0
    ensures e < n ==> n + Padding(n) == e + 8
  {
    n / 8 * 8
  }

  /** The exact condition for the payload: the whole blocks of inner length and
      payload repeat, and the block the payload shares with the padding deciphers,
      four bytes too early, to the last bytes of the payload. */
  lemma ComposedRecoversPayload(k: Key, payload: bytes, padding: bytes, m: bytes)
    requires |padding| == Padding(|payload| + 2) && |payload| + 6 + |padding| < 0x1_0000
    requires Framed(true, Sealed(k, payload, padding)) <= m
    ensures var frame, head := Framed(true, Sealed(k, payload, padding)), LE16(|payload|) + payload;
      var e := WholeBlocks(|head|);
      var (ok, m', position, size) := Opened(k, m, 2, |frame|);
      && |frame| == |head| + |padding| + 6
      && ((ok && size == |payload| && m'[4..4 + |payload|] == payload)
        <==> (frame[2..2 + e] == frame[6..6 + e]
          && (e < |head| ==> DecipherBlock(k, frame[2 + e..10 + e])[..|head| - e] == head[e..])))
  {
    hide MapBlocks, DecipherWith, EncipherWith, DecipherBlock, Opened, Framed, LE16, FromLE16, WholeBlocks;
    var head, frame := LE16(|payload|) + payload, Framed(true, Sealed(k, payload, padding));
    var e := WholeBlocks(|head|);
    SealedIsKeyed(k, payload, padding);
    hide Sealed, KeyedFrame;
    RecoveredHead(k, payload, padding, m);
    KeyedLayout(k, head + padding, frame);
    EarlyRegion(k, head + padding, frame, e);
    var early := frame[2..|frame| - 4];
    var plain := MapBlocks(DecipherWith(k), early);
    SplitAt(plain, head, padding, e);
    if e < |head| {
      LastOfRegion(k, frame, e, |head|);
    }
  }

  lemma SplitAt(s: bytes, head: bytes, rest: bytes, e: nat)
    requires e <= |head| <= |s|
    ensures s[..|head|] == head <==> s[..e] == (head + rest)[..e] && s[e..|head|] == head[e..]
  {
    var t := s[..|head|];
    assert t == t[..e] + t[e..] && head == head[..e] + head[e..];
    assert t[..e] == s[..e] && t[e..] == s[e..|head|] && (head + rest)[..e] == head[..e];
  }

  lemma LastOfRegion(k: Key, frame: bytes, e: nat, n: nat)
    requires 6 <= |frame| && (|frame| - 6) % 8 == 0 && e % 8 == 0 && e <= n <= e + 8 <= |frame| - 6
    ensures MapBlocks(DecipherWith(k), frame[2..|frame| - 4])[e..n] == DecipherBlock(k, frame[2 + e..10 + e])[..n - e]
  {
    hide MapBlocks, DecipherBlock;
    var early := frame[2..|frame| - 4];
    MapAt(DecipherWith(k), early, e / 8);
    SliceOfSlice(frame, 2, |frame| - 4, e, e + 8);
    SliceOfSlice(MapBlocks(DecipherWith(k), early), e, e + 8, 0, n - e);
  }

  lemma SliceOfSlice(s: bytes, a: nat, b: nat, i: nat, j: nat)
    requires a <= b <= |s| && i <= j <= b - a
    ensures s[a..b][i..j] == s[a + i..a + j]
  {
    var x, y := s[a..b][i..j], s[a + i..a + j];
    assert |x| == |y|;
    forall q | 0 <= q < |x| ensures x[q] == y[q] {
      assert x[q] == s[a..b][i + q] == s[a + i + q];
    }
  }

  /** Words that repeat repeat in blocks. */
  lemma {:induction false} Repeats(s: bytes, e: nat, q: nat, n: nat)
    requires 2 + e + 4 <= |s| && s[2..2 + e] == s[6..6 + e]
    requires 2 <= q && q + 4 * n < 6 + e
    ensures s[q + 4 * n] == s[q]
  {
    if n > 0 {
      Repeats(s, e, q, n - 1);
      var i := q + 4 * (n - 1);
      assert s[2..2 + e][i - 2] == s[i] && s[6..6 + e][i - 2] == s[i + 4];
    }
  }

  /** What a sender can tell beforehand: if two whole blocks of inner length and
      payload differ, the two handlers put together lose the payload, whatever the
      key. */
  lemma DifferingBlocksAreLost(k: Key, payload: bytes, padding: bytes, m: bytes, i: nat, j: nat)
    requires |padding| == Padding(|payload| + 2) && |payload| + 6 + |padding| < 0x1_0000
    requires Framed(true, Sealed(k, payload, padding)) <= m
    requires i < j && 8 * j + 8 <= |payload| + 2
    requires var clear := LE16(|payload|) + payload; clear[8 * i..8 * i + 8] != clear[8 * j..8 * j + 8]
    ensures var (ok, m', position, size) := Opened(k, m, 2, |Framed(true, Sealed(k, payload, padding))|);
      !(ok && size == |payload| && m'[4..4 + |payload|] == payload)
  {
    hide MapBlocks, DecipherWith, EncipherWith, Opened, Framed, LE16, FromLE16;
    var clear, frame := LE16(|payload|) + payload + padding, Framed(true, Sealed(k, payload, padding));
    var head, e := LE16(|payload|) + payload, 8 * j + 8;
    HeadBlock(head, padding, i);
    HeadBlock(head, padding, j);
    RecoveredHead(k, payload, padding, m);
    var plain := MapBlocks(DecipherWith(k), frame[2..|frame| - 4]);
    if plain[..|head|] == head {
      HeadAgrees(plain, head, padding, e);
      EarlyRegion(k, clear, frame, e);
      SameBlocks(k, clear, frame, e, i, j);
    }
  }

  lemma HeadBlock(head: bytes, rest: bytes, i: nat)
    requires 8 * i + 8 <= |head|
    ensures (head + rest)[8 * i..8 * i + 8] == head[8 * i..8 * i + 8]
  {}

  lemma Within(front: bytes, plain: bytes, rest: bytes, n: nat)
    requires |front| == 2 && n + 2 <= |plain|
    ensures (front + plain + rest)[4..4 + n] == plain[2..2 + n]
  {}

  lemma HeadAgrees(plain: bytes, head: bytes, rest: bytes, e: nat)
    requires e <= |head| <= |plain| && plain[..|head|] == head
    ensures plain[..e] == (head + rest)[..e]
  {
    SplitAt(plain, head, rest, e);
  }

  lemma LE16Read(s: bytes, v: u16)
    requires |s| == 2 && FromLE16(s) == v
    ensures s == LE16(v)
  {
    var lo: nat, hi: nat := s[0], s[1];
    assert (lo + 0x100 * hi) / 0x100 == hi;
  }

  lemma SameBlocks(k: Key, clear: bytes, frame: bytes, e: nat, i: nat, j: nat)
    requires KeyedFrame(k, clear, frame) && |frame| == |clear| + 6 && e <= |clear| && i < j && 8 * j + 8 <= e
    requires frame[2..2 + e] == frame[6..6 + e]
    ensures clear[8 * i..8 * i + 8] == clear[8 * j..8 * j + 8]
  {
    hide MapBlocks, DecipherWith, EncipherWith, EncipherBlock, DecipherBlock;
    KeyedLayout(k, clear, frame);
    MapAt(EncipherWith(k), clear, i);
    MapAt(EncipherWith(k), clear, j);
    RepeatedBlocks(frame, e, i, j);
    BlockInverse(k, clear[8 * i..8 * i + 8]);
    BlockInverse(k, clear[8 * j..8 * j + 8]);
  }

  lemma RepeatedBlocks(s: bytes, e: nat, i: nat, j: nat)
    requires 2 + e + 4 <= |s| && s[2..2 + e] == s[6..6 + e] && i < j && 8 * j + 8 <= e
    ensures s[6..][8 * i..8 * i + 8] == s[6..][8 * j..8 * j + 8]
  {
    var x, y := s[6 + 8 * i..], s[6 + 8 * j..];
    forall q | 0 <= q < 8 ensures x[q] == y[q] {
      Repeats(s, e, 6 + 8 * i + q, 2 * (j - i));
    }
    assert s[6..][8 * i..8 * i + 8] == x[..8] && s[6..][8 * j..8 * j + 8] == y[..8];
  }

  /** An input on which the promise fails, for every key and whatever the buffer
      held: fourteen zero bytes. */
  lemma ZerosAreLost(k: Key, m: bytes)
    requires Framed(true, Sealed(k, Zeros(14), [])) <= m
    ensures var (ok, m', position, size) := Opened(k, m, 2, |Framed(true, Sealed(k, Zeros(14), []))|);
      !(ok && size == 14 && m'[4..18] == Zeros(14))
  {
    hide Framed, Sealed, Opened;
    var clear := LE16(14) + Zeros(14);
    assert clear[0..8][0] == 14 && clear[8..16][0] == 0;
    DifferingBlocksAreLost(k, Zeros(14), [], m, 0, 1);
  }

  /** From the sender's packet to the receiver's handler, without keys. */
  method PlainDelivery(sender: NetworkConnection, receiver: NetworkConnection, packet: Packet)
      returns (accepted: bool, delivered: Packet?)
    requires sender.CanSend(packet) && sender.needsChecksum && !sender.hasKeys && !receiver.hasKeys
    requires packet.length + 6 <= receiver.recv.buffer.Length && packet.length + 4 < 0x1_0000
    requires 8 <= receiver.recv.buffer.Length
    requires packet != receiver.recv && packet.buffer != receiver.recv.buffer
    modifies packet, packet.buffer, receiver`checksum, receiver.recv, receiver.recv.buffer
    ensures accepted && delivered != null && fresh(delivered) && fresh(delivered.buffer)
    ensures delivered.position == 6 <= delivered.length <= delivered.buffer.Length
    ensures delivered.buffer[6..delivered.length] == old(packet.Body())
  {
    ghost var payload, was := packet.Body(), receiver.recv.buffer[..];
    var wire := sender.Send(packet);
    PlainRoundTrip(payload);
    OtherSizesSummable(false, receiver.keys, receiver.recv.buffer[..], wire);
    accepted, delivered := receiver.ClientReceives(wire);
    assert delivered.buffer[6..delivered.length] == delivered.buffer[..][6..|wire|] == wire[6..];
  }

  /** With keys, when the receiver's cursor has been moved behind the checksum. */
  method KeyedDelivery(sender: NetworkConnection, receiver: NetworkConnection, packet: Packet) returns (ok: bool)
    requires sender.CanSend(packet) && sender.needsChecksum && sender.hasKeys && receiver.keys == sender.keys
    requires packet.length + 8 + Padding(packet.length + 2) <= receiver.recv.buffer.Length
    requires packet.length + 6 + Padding(packet.length + 2) < 0x1_0000
    requires packet != receiver.recv && packet.buffer != receiver.recv.buffer
    modifies packet, packet.buffer, receiver.recv, receiver.recv.buffer
    ensures ok && receiver.recv.position == 8 && receiver.recv.length == old(packet.length)
    ensures 8 + receiver.recv.length <= receiver.recv.buffer.Length
    ensures receiver.recv.buffer[8..8 + receiver.recv.length] == old(packet.Body())
  {
    hide Opened, Sealed, Framed, Splice;
    ghost var payload, padding := packet.Body(), PaddingOf(packet);
    var wire := sender.Send(packet);
    var recv := receiver.recv;
    ghost var was := recv.buffer[..];
    FramedIsWellFramed(true, Sealed(sender.keys, payload, padding));
    KeyedRoundTrip(sender.keys, payload, padding, wire + was[|wire|..]);
    Store(recv.buffer, 0, wire);
    Overwritten(was, wire);
    var len := receiver.HandleHeader();
    recv.position := 6;
    ok := receiver.Decrypt();
  }

  /** Two connections given the same keys: what one sends, the other opens. The
      payload is as long as the receive buffer of a new connection allows. */
  method FreshKeyedDelivery(k: Key, payload: bytes) returns (received: bytes)
    requires |payload| + 8 + Padding(|payload| + 2) <= 512
    ensures received == payload
  {
    hide Splice, Zeros;
    var sender := new NetworkConnection(true);
    var receiver := new NetworkConnection(true);
    sender.SetKeys(k);
    receiver.SetKeys(k);
    var packet := new Packet();
    packet.Append(payload);
    assert packet.buffer.Length == 512;
    var ok := KeyedDelivery(sender, receiver, packet);
    received := receiver.recv.buffer[8..8 + receiver.recv.length];
  }

  lemma Overwritten(m: bytes, s: bytes)
    requires |s| <= |m|
    ensures Splice(m, 0, s) == s + m[|s|..]
  {}
}
