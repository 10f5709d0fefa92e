/** `sha1.hex` of PhoenixTibiaServer/data/libs/sha1.lua:215-293. */
module Sha1 {
  import opened Machine
  import opened Modular
  import opened BitStrings
  import opened Fips180
  import opened Sha1Words

  /** `string.char` of one number. */
  function Char(x: real): Option<u8> {
    if 0 <= x.Floor < 0x100 then Some(x.Floor) else None
  }

  /** The last four bytes of the length, first byte first, taken off by `modf`; a
      length of 2^32 bits or more is an error of `string.char`. */
  function LengthBytes(bits: nat): Option<bytes> {
    ModfOfQuotient(bits, 0x100_0000);
    var (b1, r1) := Modf(bits as real / 16777216.0);
    ModfOfQuotient(bits % 0x100_0000, 0x1_0000);
    var (b2, r2) := Modf(16777216.0 * r1 / 65536.0);
    ModfOfQuotient(bits % 0x100_0000 % 0x1_0000, 0x100);
    var (b3, r3) := Modf(65536.0 * r2 / 256.0);
    var b4 := 256.0 * r3;
    Chars(b1 as real, b2 as real, b3 as real, b4)
  }

  function Chars(b1: real, b2: real, b3: real, b4: real): Option<bytes> {
    match (Char(b1), Char(b2), Char(b3), Char(b4))
    case (Some(c1), Some(c2), Some(c3), Some(c4)) => Some([c1, c2, c3, c4])
    case _ => None
  }

  lemma LengthBytesAreTheWord(bits: nat)
    ensures bits < 0x1_0000_0000 ==>
      var q := W32ToBytes(bits); LengthBytes(bits) == Some([q.0, q.1, q.2, q.3])
    ensures bits >= 0x1_0000_0000 ==> LengthBytes(bits) == None
  {
    hide LengthBytes, Char;
    LengthParts(bits);
    LengthDigits(bits);
    CharOf(bits / 0x100_0000);
    CharOf(bits / 0x1_0000 % 0x100);
    CharOf(bits / 0x100 % 0x100);
    CharOf(bits % 0x100);
  }

  lemma CharOf(n: nat)
    ensures Char(n as real) == if n < 0x100 then Some(n) else None
  {}

  /** What `modf` leaves over at each step is the rest of a division. */
  lemma LengthParts(n: nat)
    ensures var m1 := n % 0x100_0000; var m2 := m1 % 0x1_0000;
      LengthBytes(n)
        == Chars((n / 0x100_0000) as real, (m1 / 0x1_0000) as real, (m2 / 0x100) as real, (m2 % 0x100) as real)
  {
    hide Chars, Modf;
    ModfOfQuotient(n, 0x100_0000);
    ModfOfQuotient(n % 0x100_0000, 0x1_0000);
    ModfOfQuotient(n % 0x100_0000 % 0x1_0000, 0x100);
  }

  lemma LengthDigits(n: nat)
    ensures n % 0x100_0000 / 0x1_0000 == n / 0x1_0000 % 0x100
    ensures n % 0x100_0000 % 0x1_0000 / 0x100 == n / 0x100 % 0x100
    ensures n % 0x100_0000 % 0x1_0000 % 0x100 == n % 0x100
  {
    Digit(n, 0x100, 0x1_0000);
    Digit(n, 0x100, 0x100);
    Digit(n % 0x100_0000, 0x100, 0x100);
    Digit(n, 0x1_0000, 0x100);
  }

  /** How many zero bytes follow the 0x80. */
  function SecondAppend(n: nat): nat {
    var m := (n + 1 + 8) % 64;
    if m > 0 then 64 - m else 0
  }

  /** The message as `sha1.hex` pads it. */
  function PaddedMessage(msg: bytes): Option<bytes> {
    match LengthBytes(8 * |msg|)
    case Some(low) => Some(msg + [0x80] + Zeros(SecondAppend(|msg|)) + [0, 0, 0, 0] + low)
    case None => None
  }

  predicate Hashable(msg: bytes) { 8 * |msg| < 0x1_0000_0000 }

  lemma WhenPadded(msg: bytes)
    ensures PaddedMessage(msg).Some? <==> Hashable(msg)
    ensures Hashable(msg) ==> var q := W32ToBytes(8 * |msg|);
      PaddedMessage(msg) == Some(msg + [0x80] + Zeros(SecondAppend(|msg|)) + [0, 0, 0, 0] + [q.0, q.1, q.2, q.3])
  {
    LengthBytesAreTheWord(8 * |msg|);
  }

  lemma SecondAppendFills(n: nat)
    ensures (n + 1 + SecondAppend(n) + 8) % 64 == 0 && SecondAppend(n) < 64
    ensures Filling(8 * n) == 7 + 8 * SecondAppend(n)
  {
    var q, r := n / 64, n % 64;
    assert n == q * 64 + r;
    FillingLeast(8 * n);
    if r <= 55 {
      Quotient(8 * n + 1, 512, q, 8 * r + 1);
      if r < 55 { Quotient(n + 9, 64, q, r + 9); } else { Quotient(n + 9, 64, q + 1, 0); }
      Quotient(n + 9 + SecondAppend(n), 64, q + 1, 0);
    } else {
      Quotient(8 * n + 1, 512, q, 8 * r + 1);
      Quotient(n + 9, 64, q + 1, r - 55);
      Quotient(n + 9 + SecondAppend(n), 64, q + 2, 0);
    }
  }

  /** The padded length is the least multiple of 64 with room for the 0x80 and the
      eight bytes of length. */
  lemma PaddedLength(msg: bytes)
    requires Hashable(msg)
    ensures var n := |PaddedMessage(msg).value|; n % 64 == 0 && |msg| + 9 <= n < |msg| + 9 + 64
  {
    WhenPadded(msg);
    SecondAppendFills(|msg|);
  }

  /** The message that was padded: its length stands in the last four bytes. */
  function Unpadded(p: bytes): bytes
    requires |p| >= 4
  {
    var n := |p|;
    var l := BytesToW32(p[n - 4], p[n - 3], p[n - 2], p[n - 1]) / 8;
    if l <= n then p[..l] else []
  }

  /** Padding loses nothing, so no two messages pad to the same string. */
  lemma PaddingInverse(msg: bytes)
    requires Hashable(msg)
    ensures |PaddedMessage(msg).value| >= 4 && Unpadded(PaddedMessage(msg).value) == msg
  {
    WhenPadded(msg);
    hide LengthBytes;
    var q := W32ToBytes(8 * |msg|);
    BytesSplit(8 * |msg|);
    var p := PaddedMessage(msg).value;
    assert p[|p| - 4..] == [q.0, q.1, q.2, q.3];
    assert p[..|msg|] == msg;
  }

  /** It is the padding of the standard. */
  lemma PaddingIsPadded(msg: bytes)
    requires Hashable(msg)
    ensures BitsOf(PaddedMessage(msg).value) == Padded(BitsOf(msg))
  {
    var l: u32 := 8 * |msg|;
    var q := W32ToBytes(l);
    var low := [q.0, q.1, q.2, q.3];
    WhenPadded(msg);
    SecondAppendFills(|msg|);
    LowBits(l);
    hide LengthBytes, W32ToBytes, BitsOf, Bits, Filling, SecondAppend;
    var z := SecondAppend(|msg|);
    PaddingBits(msg, z, low);
    assert Bits(64, l) == Repeat(32, false) + BitsOf(low);
  }

  lemma LowBits(l: u32)
    ensures var q := W32ToBytes(l); Bits(64, l) == Repeat(32, false) + BitsOf([q.0, q.1, q.2, q.3])
  {
    var q := W32ToBytes(l);
    BytesSplit(l);
    FourBytes(q.0, q.1, q.2, q.3);
    hide BitsOf, W32ToBytes;
    PowersOfTwo();
    BitsConcat(32, 32, 0, l);
    BitsOfZero(32);
  }

  lemma BitsOfTwo(s: bytes, a: u8, b: u8)
    ensures BitsOf(s + [a, b]) == BitsOf(s) + Bits(8, a) + Bits(8, b)
  {
    hide BitsOf, Bits;
    BitsOfLast(s, a);
    BitsOfLast(s + [a], b);
    assert s + [a] + [b] == s + [a, b];
  }

  lemma FourBytes(a: u8, b: u8, c: u8, d: u8)
    ensures BitsOf([a, b, c, d]) == QuadBits((a, b, c, d))
  {
    assert BitsOf([]) == [];
    hide BitsOf, Bits;
    BitsOfTwo([], a, b);
    BitsOfTwo([a, b], c, d);
    assert [] + [a, b] == [a, b] && [a, b] + [c, d] == [a, b, c, d];
    assert [] + Bits(8, a) == Bits(8, a);
  }

  lemma PaddingBits(msg: bytes, z: nat, low: bytes)
    ensures BitsOf(msg + [0x80] + Zeros(z) + [0, 0, 0, 0] + low)
      == BitsOf(msg) + [true] + Repeat(7 + 8 * z, false) + (Repeat(32, false) + BitsOf(low))
  {
    hide BitsOf, Repeat, Zeros;
    BitsOfZeros(z);
    BitsOfZeros(4);
    FirstAppend();
    assert Zeros(4) == [0, 0, 0, 0];
    BitsOfConcat(msg + [0x80] + Zeros(z) + [0, 0, 0, 0], low);
    BitsOfConcat(msg + [0x80] + Zeros(z), [0, 0, 0, 0]);
    BitsOfConcat(msg + [0x80], Zeros(z));
    BitsOfConcat(msg, [0x80]);
    FillingJoined(BitsOf(msg), z, BitsOf(low));
  }

  lemma FillingJoined(m: bits, z: nat, low: bits)
    ensures m + ([true] + Repeat(7, false)) + Repeat(8 * z, false) + Repeat(32, false) + low
      == m + [true] + Repeat(7 + 8 * z, false) + (Repeat(32, false) + low)
  {}

  lemma FirstAppend()
    ensures BitsOf([0x80]) == [true] + Repeat(7, false)
  {}

  /** A table of words holds the first n words of the schedule. */
  ghost predicate Scheduled(w: seq<u32>, block: bits, n: nat)
    requires |w| == 80 && |block| == 512
  {
    forall t :: 0 <= t < n && t < 80 ==> Word(w[t]) == W(block, t)
  }

  lemma FirstWords(p: bytes, start: nat, t: nat)
    requires start + 64 <= |p| && t < 16
    ensures var i := start + 4 * t;
      Word(BytesToW32(p[i], p[i + 1], p[i + 2], p[i + 3])) == W(BitsOf(p[start..start + 64]), t)
  {
    var c := p[start..start + 64];
    ChunkWords(c, t);
    hide BitsOf, BytesToW32, Word, W;
    assert c[4 * t] == p[start + 4 * t] && c[4 * t + 1] == p[start + 4 * t + 1];
    assert c[4 * t + 2] == p[start + 4 * t + 2] && c[4 * t + 3] == p[start + 4 * t + 3];
  }

  lemma ChunkWords(c: bytes, t: nat)
    requires |c| == 64 && t < 16
    ensures Word(BytesToW32(c[4 * t], c[4 * t + 1], c[4 * t + 2], c[4 * t + 3])) == W(BitsOf(c), t)
  {
    hide BitsOf, QuadBits, BytesToW32, Word;
    var i := 4 * t;
    BytesJoined(c[i], c[i + 1], c[i + 2], c[i + 3]);
    FourBytes(c[i], c[i + 1], c[i + 2], c[i + 3]);
    BitsOfCut(c, i, i + 4);
    assert c[i..i + 4] == [c[i], c[i + 1], c[i + 2], c[i + 3]];
    assert W(BitsOf(c), t) == BitsOf(c)[8 * i..8 * (i + 4)];
  }

  /** W[0] to W[15]. */
  method BreakUp(msg: bytes, at: nat, w: array<u32>)
    requires at + 64 <= |msg| && w.Length == 80
    modifies w
    ensures Scheduled(w[..], BitsOf(msg[at..at + 64]), 16)
  {
    hide BitsOf, W, Word, BytesToW32;
    var start := at;
    for t := 0 to 16
      invariant start == at + 4 * t
      invariant Scheduled(w[..], BitsOf(msg[at..at + 64]), t)
    {
      FirstWords(msg, at, t);
      w[t] := BytesToW32(msg[start], msg[start + 1], msg[start + 2], msg[start + 3]);
      start := start + 4;
    }
  }

  lemma XorOfFour(a: u32, b: u32, c: u32, d: u32)
    ensures XorAll(a, [b, c, d]) == Xor(Xor(Xor(Word(a), Word(b)), Word(c)), Word(d))
  {
    hide Word, Xor;
    assert [b, c, d][..2] == [b, c] && [b, c][..1] == [b] && [b][..0] == [];
    assert XorAll(a, []) == Word(a);
    assert XorAll(a, [b]) == Xor(Word(a), Word(b));
    assert XorAll(a, [b, c]) == Xor(Xor(Word(a), Word(b)), Word(c));
  }

  lemma XorOfThree(a: u32, b: u32, c: u32)
    ensures XorAll(a, [b, c]) == Xor(Xor(Word(a), Word(b)), Word(c))
  {
    hide Word, Xor;
    assert [b, c][..1] == [b] && [b][..0] == [];
    assert XorAll(a, []) == Word(a);
    assert XorAll(a, [b]) == Xor(Word(a), Word(b));
  }

  lemma AddOfFive(a: u32, b: u32, c: u32, d: u32, e: u32)
    ensures AddAll(a, [b, c, d, e]) == Add(Add(Add(Add(Word(a), Word(b)), Word(c)), Word(d)), Word(e))
  {
    hide Word, Add;
    assert [b, c, d, e][..3] == [b, c, d] && [b, c, d][..2] == [b, c] && [b, c][..1] == [b] && [b][..0] == [];
    assert AddAll(a, []) == Word(a);
    assert AddAll(a, [b]) == Add(Word(a), Word(b));
    assert AddAll(a, [b, c]) == Add(Add(Word(a), Word(b)), Word(c));
    assert AddAll(a, [b, c, d]) == Add(Add(Add(Word(a), Word(b)), Word(c)), Word(d));
  }

  /** `w32_rot` where a whole number is wanted. */
  function Rot(n: nat, a: u32): (r: u32)
    requires n <= 32
    ensures Word(r) == RotateLeft(n, Word(a))
  {
    RotationRotates(n, a);
    W32Rot(n, a).Floor
  }

  /** W[16] to W[79]. */
  method Expand(ghost block: bits, w: array<u32>)
    requires |block| == 512 && w.Length == 80 && Scheduled(w[..], block, 16)
    modifies w
    ensures Scheduled(w[..], block, 80)
  {
    hide Word, Rot, RotateLeft, Xor;
    for t := 16 to 80
      invariant Scheduled(w[..], block, t)
    {
      var x := W32XorN(w[t - 3], [w[t - 8], w[t - 14], w[t - 16]]);
      XorOfFour(w[t - 3], w[t - 8], w[t - 14], w[t - 16]);
      w[t] := Rot(1, x);
    }
  }

  /** f and K of round t. */
  method Choose(t: nat, b: u32, c: u32, d: u32) returns (f: u32, k: u32)
    ensures Word(f) == F(t, Word(b), Word(c), Word(d))
    ensures Word(k) == K(t)
  {
    hide Word, Pointwise, Negated, W32Gate, W32Not, W32Or3;
    if t <= 19 {
      W32GateIsPointwise(Conj, b, c);
      W32NotIsNot(b);
      W32GateIsPointwise(Conj, W32Not(b), d);
      W32GateIsPointwise(Disj, W32And(b, c), W32And(W32Not(b), d));
      f := W32Or(W32And(b, c), W32And(W32Not(b), d));
      k := 0x5A827999;
    } else if t <= 39 {
      f := W32XorN(b, [c, d]);
      XorOfThree(b, c, d);
      k := 0x6ED9EBA1;
    } else if t <= 59 {
      W32GateIsPointwise(Conj, b, c);
      W32GateIsPointwise(Conj, b, d);
      W32GateIsPointwise(Conj, c, d);
      W32Or3IsOr(W32And(b, c), W32And(b, d), W32And(c, d));
      f := W32Or3(W32And(b, c), W32And(b, d), W32And(c, d));
      k := 0x8F1BBCDC;
    } else {
      f := W32XorN(b, [c, d]);
      XorOfThree(b, c, d);
      k := 0xCA62C1D6;
    }
  }

  /** Five numbers as the words of a state. */
  function Words(a: u32, b: u32, c: u32, d: u32, e: u32): State {
    State(Word(a), Word(b), Word(c), Word(d), Word(e))
  }

  /** The eighty rounds of one block. */
  method Compress(ghost block: bits, w: array<u32>, h0: u32, h1: u32, h2: u32, h3: u32, h4: u32)
      returns (a: u32, b: u32, c: u32, d: u32, e: u32)
    requires |block| == 512 && w.Length == 80 && Scheduled(w[..], block, 80)
    ensures Words(a, b, c, d, e) == Rounds(block, Words(h0, h1, h2, h3, h4), 80)
  {
    hide Word, Rot, RotateLeft, Add, F, K, W;
    a, b, c, d, e := h0, h1, h2, h3, h4;
    for t := 0 to 80
      invariant Words(a, b, c, d, e) == Rounds(block, Words(h0, h1, h2, h3, h4), t)
    {
      var f, k := Choose(t, b, c, d);
      var temp := W32AddN(Rot(5, a), [f, e, w[t], k]);
      AddOfFive(Rot(5, a), f, e, w[t], k);
      a, b, c, d, e := temp, a, Rot(30, b), c, d;
    }
  }

  lemma {:induction false} HexConcat(x: bits, y: bits)
    requires |x| % 4 == 0 && |y| % 4 == 0
    ensures Hex(x + y) == Hex(x) + Hex(y)
    decreases |y|
  {
    if y == [] {
      assert x + y == x;
    } else {
      var u, v := y[..|y| - 4], y[|y| - 4..];
      HexConcat(x, u);
      assert (x + y)[..|x + y| - 4] == x + u && (x + y)[|x + y| - 4..] == v;
    }
  }

  lemma HexOfFive(a: word, b: word, c: word, d: word, e: word)
    ensures Hex(a + b + c + d + e) == Hex(a) + Hex(b) + Hex(c) + Hex(d) + Hex(e)
  {
    hide Hex;
    HexConcat(a + b + c + d, e);
    HexConcat(a + b + c, d);
    HexConcat(a + b, c);
    HexConcat(a, b);
  }

  /** The five printed words. */
  lemma PrintedDigest(a: u32, b: u32, c: u32, d: u32, e: u32)
    ensures W32ToHexString(a) + W32ToHexString(b) + W32ToHexString(c) + W32ToHexString(d) + W32ToHexString(e)
      == Hex(Word(a) + Word(b) + Word(c) + Word(d) + Word(e))
  {
    hide Hex, Word, W32ToHexString;
    PrintedIsHex(a);
    PrintedIsHex(b);
    PrintedIsHex(c);
    PrintedIsHex(d);
    PrintedIsHex(e);
    HexOfFive(Word(a), Word(b), Word(c), Word(d), Word(e));
  }

  lemma AddWords(h0: u32, h1: u32, h2: u32, h3: u32, h4: u32, a: u32, b: u32, c: u32, d: u32, e: u32)
    ensures Words(W32Add(h0, a), W32Add(h1, b), W32Add(h2, c), W32Add(h3, d), W32Add(h4, e))
      == AddState(Words(h0, h1, h2, h3, h4), Words(a, b, c, d, e))
  {
    hide Word, Add, W32Add;
    W32AddIsAdd(h0, a);
    W32AddIsAdd(h1, b);
    W32AddIsAdd(h2, c);
    W32AddIsAdd(h3, d);
    W32AddIsAdd(h4, e);
  }

  /** The body of the chunk loop. */
  method Chunk(msg: bytes, start: nat, w: array<u32>, h0: u32, h1: u32, h2: u32, h3: u32, h4: u32)
      returns (g0: u32, g1: u32, g2: u32, g3: u32, g4: u32)
    requires start + 64 <= |msg| && w.Length == 80
    modifies w
    ensures var s := Words(h0, h1, h2, h3, h4);
      Words(g0, g1, g2, g3, g4) == AddState(s, Rounds(BitsOf(msg[start..start + 64]), s, 80))
  {
    hide BitsOf, Words, Rounds, AddState, W32Add;
    ghost var block := BitsOf(msg[start..start + 64]);
    BreakUp(msg, start, w);
    Expand(block, w);
    var a, b, c, d, e := Compress(block, w, h0, h1, h2, h3, h4);
    AddWords(h0, h1, h2, h3, h4, a, b, c, d, e);
    g0, g1, g2, g3, g4 := W32Add(h0, a), W32Add(h1, b), W32Add(h2, c), W32Add(h3, d), W32Add(h4, e);
  }

  /** The chunk loop over a padded message. */
  method Chunks(msg: bytes) returns (h0: u32, h1: u32, h2: u32, h3: u32, h4: u32)
    requires |msg| % 64 == 0
    ensures Words(h0, h1, h2, h3, h4) == Processed(BitsOf(msg), |msg| / 64)
  {
    hide BitsOf, Words, Rounds, AddState, Start;
    h0, h1, h2, h3, h4 := 0x67452301, 0xEFCDAB89, 0x98BADCFE, 0x10325476, 0xC3D2E1F0;
    StartWords();
    var w := new u32[80];
    var chunks := |msg| / 64;
    var chunk := 0;
    while chunk < chunks
      invariant chunk <= chunks
      invariant Words(h0, h1, h2, h3, h4) == Processed(BitsOf(msg), chunk)
    {
      BitsOfCut(msg, chunk * 64, chunk * 64 + 64);
      h0, h1, h2, h3, h4 := Chunk(msg, chunk * 64, w, h0, h1, h2, h3, h4);
      chunk := chunk + 1;
    }
  }

  lemma StartWords()
    ensures Words(0x67452301, 0xEFCDAB89, 0x98BADCFE, 0x10325476, 0xC3D2E1F0) == Start()
  {}

  /** `sha1.hex`: the digest of FIPS PUB 180-1 in hex for every message of fewer than
      2^32 bits, and an error for every longer one. */
  method HexDigest(msg: bytes) returns (r: Option<string>)
    ensures r == if Hashable(msg) then Some(DigestInHex(msg)) else None
  {
    hide BitsOf, Hex, W32ToHexString, Processed, Padded;
    var padded := PaddedMessage(msg);
    WhenPadded(msg);
    hide PaddedMessage;
    if padded == None { return None; }
    PaddedLength(msg);
    PaddingIsPadded(msg);
    var h0, h1, h2, h3, h4 := Chunks(padded.value);
    PrintedDigest(h0, h1, h2, h3, h4);
    hide Word;
    r := Some(W32ToHexString(h0) + W32ToHexString(h1) + W32ToHexString(h2) + W32ToHexString(h3) + W32ToHexString(h4));
  }
}
