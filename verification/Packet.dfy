/** The growable message buffer of PhoenixLibrary/Packet.h. */
module PacketBuffer {
  import opened Machine
  import Adler32
  import Xtea

  const HEADROOM: nat := 8
  const GROWTH: nat := 512
  const HEADER_SIZE: nat := 2

  /** The size reached by adding GROWTH until `needed` bytes fit. */
  function Grown(size: nat, needed: nat): (r: nat)
    ensures size <= r && needed <= r
    ensures needed <= size ==> r == size
    ensures needed > size ==> r < needed + GROWTH
    decreases if needed > size then needed - size else 0
  {
    if needed <= size then size else Grown(size + GROWTH, needed)
  }

  lemma {:induction false} GrownInSteps(size: nat, needed: nat)
    ensures (Grown(size, needed) - size) % GROWTH == 0
    decreases if needed > size then needed - size else 0
  {
    if needed > size { GrownInSteps(size + GROWTH, needed); }
  }

  lemma {:induction false} GrownTwice(size: nat, first: nat, needed: nat)
    requires first <= needed
    ensures Grown(Grown(size, first), needed) == Grown(size, needed)
    decreases if first > size then first - size else 0
  {
    if first > size { GrownTwice(size + GROWTH, first, needed); }
  }

  /** Memory m, grown as far as needed, with s written at `at`. */
  function Write(m: bytes, at: nat, s: bytes): (r: bytes)
    ensures |r| == Grown(|m|, at + |s|)
  {
    Splice(m + Zeros(Grown(|m|, at + |s|) - |m|), at, s)
  }

  /** One value after the other, or both at once. */
  lemma WriteTwice(m: bytes, at: nat, s: bytes, t: bytes)
    ensures Write(Write(m, at, s), at + |s|, t) == Write(m, at, s + t)
  {
    hide Grown, Splice, Zeros, Write;
    GrownTwice(|m|, at + |s|, at + |s| + |t|);
    var n, n' := Grown(|m|, at + |s|), Grown(|m|, at + |s| + |t|);
    WriteIs(m, at, s, n);
    WriteIs(Write(m, at, s), at + |s|, t, n');
    WriteIs(m, at, s + t, n');
    SpliceTwiceGrown(m, at, s, t, n - |m|, n' - n);
  }

  lemma WriteIs(m: bytes, at: nat, s: bytes, n: nat)
    requires n == Grown(|m|, at + |s|)
    ensures Write(m, at, s) == Splice(m + Zeros(n - |m|), at, s)
  {}

  lemma SpliceTwiceGrown(m: bytes, at: nat, s: bytes, t: bytes, x: nat, y: nat)
    requires at + |s| <= |m| + x && at + |s| + |t| <= |m| + x + y
    ensures Splice(Splice(m + Zeros(x), at, s) + Zeros(y), at + |s|, t) == Splice(m + Zeros(x + y), at, s + t)
  {
    SpliceBefore(m + Zeros(x), at, s, Zeros(y));
    assert m + Zeros(x) + Zeros(y) == m + Zeros(x + y);
    hide Splice;
    SpliceTwice(m + Zeros(x + y), at, s, t);
  }

  lemma SpliceBefore(m: bytes, at: nat, s: bytes, more: bytes)
    requires at + |s| <= |m|
    ensures Splice(m, at, s) + more == Splice(m + more, at, s)
  {}

  lemma AppendKeeps(m: bytes, more: bytes, start: nat, at: nat, s: bytes)
    requires at + |s| <= |m| + |more|
    ensures start <= at <= |m| ==> Splice(m + more, at, s)[start..at + |s|] == m[start..at] + s
  {}

  class Packet {
    var start: nat
    var position: nat
    var length: nat
    var buffer: array<u8>

    /** The cursor stands at the end of the message while it is written. */
    ghost predicate Writing()
      reads this
    {
      position == start + length <= buffer.Length
    }

    /** The message proper. */
    ghost function Body(): bytes
      requires start + length <= buffer.Length
      reads this, buffer
    {
      buffer[start..start + length]
    }

    constructor ()
      ensures start == 8 && Writing() && Body() == []
      ensures fresh(buffer) && buffer[..] == Zeros(512)
    {
      start, position, length := HEADROOM, HEADROOM, 0;
      buffer := new u8[GROWTH](_ => 0);
    }

    /** The copy handed to the reader of a connection. */
    constructor Copy(p: Packet)
      ensures start == p.start && position == p.position && length == p.length
      ensures fresh(buffer) && buffer[..] == p.buffer[..]
    {
      start, position, length := p.start, p.position, p.length;
      var b := new u8[p.buffer.Length](i requires 0 <= i < p.buffer.Length reads p, p.buffer => p.buffer[i]);
      buffer := b;
    }

    /** The growth loop shared by every push; new bytes are zero. */
    method Reserve(needed: nat)
      modifies this`buffer
      ensures buffer.Length == Grown(old(buffer.Length), needed)
      ensures buffer == old(buffer) || fresh(buffer)
      ensures buffer[..] == old(buffer[..]) + Zeros(buffer.Length - old(buffer.Length))
    {
      ghost var was := buffer[..];
      while needed > buffer.Length
        invariant |was| <= buffer.Length && buffer[..] == was + Zeros(buffer.Length - |was|)
        invariant buffer == old(buffer) || fresh(buffer)
        invariant Grown(buffer.Length, needed) == Grown(|was|, needed)
        decreases needed - buffer.Length
      {
        var old_ := buffer;
        var larger := new u8[old_.Length + GROWTH](
          i requires 0 <= i < old_.Length + GROWTH reads old_ => if i < old_.Length then old_[i] else 0);
        buffer := larger;
      }
    }

    /** What writing s at the cursor leaves in memory. */
    ghost function Written(s: bytes): bytes
      reads this, buffer
    {
      Write(buffer[..], position, s)
    }

    /** `copy`: every push is a copy of the value's bytes. */
    method Append(s: bytes)
      modifies this`buffer, this`position, this`length, buffer
      ensures buffer[..] == old(Written(s))
      ensures buffer == old(buffer) || fresh(buffer)
      ensures position == old(position) + |s| && length == old(length) + |s|
      ensures old(Writing()) ==> Writing() && Body() == old(Body()) + s
    {
      hide Splice, Grown, Zeros, Write;
      ghost var was, at, n := buffer[..], position, Grown(buffer.Length, position + |s|);
      WriteIs(was, at, s, n);
      AppendKeeps(was, Zeros(n - |was|), start, at, s);
      Reserve(position + |s|);
      Xtea.Store(buffer, position, s);
      assert buffer[..] == Write(was, at, s);
      position := position + |s|;
      length := length + |s|;
    }

    method Push8(v: u8)
      modifies this`buffer, this`position, this`length, buffer
      ensures buffer == old(buffer) || fresh(buffer)
      ensures buffer[..] == old(Written([v]))
      ensures position == old(position) + 1 && length == old(length) + 1
      ensures old(Writing()) ==> Writing() && Body() == old(Body()) + [v]
    {
      Append([v]);
    }

    method Push16(v: u16)
      modifies this`buffer, this`position, this`length, buffer
      ensures buffer == old(buffer) || fresh(buffer)
      ensures buffer[..] == old(Written(LE16(v)))
      ensures position == old(position) + 2 && length == old(length) + 2
      ensures old(Writing()) ==> Writing() && Body() == old(Body()) + LE16(v)
    {
      Append(LE16(v));
    }

    method Push32(v: u32)
      modifies this`buffer, this`position, this`length, buffer
      ensures buffer == old(buffer) || fresh(buffer)
      ensures buffer[..] == old(Written(LE32(v)))
      ensures position == old(position) + 4 && length == old(length) + 4
      ensures old(Writing()) ==> Writing() && Body() == old(Body()) + LE32(v)
    {
      Append(LE32(v));
    }

    /** A string goes out behind its length, which is cut to 16 bits. */
    method PushText(s: bytes)
      modifies this`buffer, this`position, this`length, buffer
      ensures buffer == old(buffer) || fresh(buffer)
      ensures start == old(start)
      ensures buffer[..] == old(Written(LE16(Wrap16(|s|)) + s))
      ensures position == old(position) + 2 + |s| && length == old(length) + 2 + |s|
      ensures old(Writing()) ==> Writing() && Body() == old(Body()) + LE16(Wrap16(|s|)) + s
    {
      hide Splice, Grown, LE16;
      WriteTwice(buffer[..], position, LE16(Wrap16(|s|)), s);
      Push16(Wrap16(|s|));
      Append(s);
    }

    method Peek32() returns (v: u32)
      requires position + 4 <= buffer.Length
      ensures v == FromLE32(buffer[position..position + 4])
    {
      v := FromLE32(buffer[position..position + 4]);
    }

    method Pop8() returns (v: u8)
      requires position + 1 <= buffer.Length
      modifies this`position
      ensures position == old(position) + 1
      ensures v == buffer[old(position)]
    {
      v := buffer[position];
      position := position + 1;
    }

    method Pop16() returns (v: u16)
      requires position + 2 <= buffer.Length
      modifies this`position
      ensures position == old(position) + 2
      ensures v == FromLE16(buffer[old(position)..position])
    {
      v := FromLE16(buffer[position..position + 2]);
      position := position + 2;
    }

    method Pop32() returns (v: u32)
      requires position + 4 <= buffer.Length
      modifies this`position
      ensures position == old(position) + 4
      ensures v == FromLE32(buffer[old(position)..position])
    {
      v := Peek32();
      position := position + 4;
    }

    /** The bytes a string occupies at the cursor. */
    ghost function TextEnd(): nat
      requires position + 2 <= buffer.Length
      reads this, buffer
    {
      position + 2 + FromLE16(buffer[position..position + 2])
    }

    method PopText() returns (s: bytes)
      requires position + 2 <= buffer.Length && TextEnd() <= buffer.Length
      modifies this`position
      ensures position == old(TextEnd())
      ensures s == buffer[old(position) + 2..position]
    {
      var n := Pop16();
      s := buffer[position..position + n];
      position := position + n;
    }

    /** `get(len, value)`. */
    method Get(n: nat) returns (s: bytes)
      requires position + n <= buffer.Length
      modifies this`position
      ensures position == old(position) + n
      ensures s == buffer[old(position)..position]
    {
      s := buffer[position..position + n];
      position := position + n;
    }

    method Skip(n: nat)
      modifies this`position
      ensures position == old(position) + n
    {
      position := position + n;
    }

    /** `pad`: the message grows over whatever the buffer holds behind it. */
    method Pad(n: nat)
      modifies this`position, this`length
      ensures position == old(position) + n && length == old(length) + n
    {
      length := length + n;
      Skip(n);
    }

    /** `addHeader`: the message grows downwards into the headroom. */
    method AddHeader(s: bytes)
      requires |s| <= start && start + length <= buffer.Length
      modifies this`start, this`length, buffer
      ensures start == old(start) - |s| && length == old(length) + |s|
      ensures Body() == s + old(Body())
      ensures buffer[..] == Splice(old(buffer[..]), start, s)
    {
      start := start - |s|;
      Xtea.Store(buffer, start, s);
      length := length + |s|;
    }

    method WriteMessageLength()
      requires 2 <= start && start + length <= buffer.Length
      modifies this`start, this`length, buffer
      ensures start == old(start) - 2 && length == old(length) + 2
      ensures Body() == LE16(Wrap16(old(length))) + old(Body())
      ensures buffer[..] == Splice(old(buffer[..]), start, LE16(Wrap16(old(length))))
    {
      AddHeader(LE16(Wrap16(length)));
    }

    /** Checksum over the message as it stands, then the length of both. */
    method AddCryptoHeader(addChecksum: bool)
      requires (if addChecksum then 6 else 2) <= start && start + length <= buffer.Length
      modifies this`start, this`length, buffer
      ensures start == old(start) - (if addChecksum then 6 else 2)
      ensures start + length <= buffer.Length
      ensures Body() == Framed(addChecksum, old(Body()))
    {
      if addChecksum {
        var sum := Adler32.AdlerChecksum(buffer, start, length);
        assert sum == Adler32.Checksum(Body());
        AddHeader(LE32(sum));
      }
      AddHeader(LE16(Wrap16(length)));
    }

    method ParseLength() returns (n: nat)
      requires 2 <= buffer.Length
      modifies this`length
      ensures n == FromLE16(buffer[..2]) && length == n + 2
    {
      var lo: nat, hi: nat := buffer[0], buffer[1];
      length := lo + 0x100 * hi + HEADER_SIZE;
      n := length - HEADER_SIZE;
    }
  }

  /** A message as it goes on the wire: length, optional checksum, message. */
  function Framed(addChecksum: bool, body: bytes): bytes {
    var checked := if addChecksum then LE32(Adler32.Checksum(body)) + body else body;
    LE16(Wrap16(|checked|)) + checked
  }
}
