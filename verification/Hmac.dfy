/** HMAC of section 2 of RFC 2104 over SHA-1. */
module Rfc2104 {
  import opened Machine
  import opened Modular
  import opened BitStrings
  import opened Fips180

  /** B, the block length of the hash in bytes. */
  const BLOCK := 64
  const IPAD: u8 := 0x36
  const OPAD: u8 := 0x5C

  /** The hash of a string of bytes, L = 20 bytes. */
  function H(text: bytes): (h: bytes)
    ensures |h| == 20
  {
    BytesOf(Digest(BitsOf(text)))
  }

  /** The key, hashed if it is longer than a block, with zeros up to a block. */
  function KeyBlock(key: bytes): (k: bytes)
    ensures |k| == BLOCK
  {
    var k := if |key| > BLOCK then H(key) else key;
    k + Zeros(BLOCK - |k|)
  }

  function XorByte(a: u8, b: u8): u8 {
    Byte(XorBits(Bits(8, a), Bits(8, b)))
  }

  function XorPad(k: bytes, pad: u8): (r: bytes)
    ensures |r| == |k| && forall i :: 0 <= i < |r| ==> r[i] == XorByte(k[i], pad)
  {
    seq(|k|, i requires 0 <= i < |k| => XorByte(k[i], pad))
  }

  function Hmac(key: bytes, text: bytes): bytes {
    var k := KeyBlock(key);
    H(XorPad(k, OPAD) + H(XorPad(k, IPAD) + text))
  }

  /** The two strings hashed: the inner one starts with the key block, each byte
      exclusive-or'd with 0x36, the outer one with the same and 0x5C. */
  lemma HashedStrings(key: bytes, text: bytes, inner: bytes, outer: bytes)
    requires |inner| == |outer| == 64
    requires forall i :: 0 <= i < 64 ==> Bits(8, inner[i]) == XorBits(Bits(8, KeyBlock(key)[i]), Bits(8, 0x36))
    requires forall i :: 0 <= i < 64 ==> Bits(8, outer[i]) == XorBits(Bits(8, KeyBlock(key)[i]), Bits(8, 0x5C))
    ensures Hmac(key, text) == H(outer + H(inner + text))
  {
    hide H, Bits, Val;
    forall i | 0 <= i < 64
      ensures inner[i] == XorByte(KeyBlock(key)[i], 0x36) && outer[i] == XorByte(KeyBlock(key)[i], 0x5C)
    {
      PowersOfTwo();
      ValBits(8, inner[i]);
      ValBits(8, outer[i]);
    }
    assert inner == XorPad(KeyBlock(key), IPAD) && outer == XorPad(KeyBlock(key), OPAD);
  }
}

/** `hex_to_binary`, `sha1.bin` and `sha1.hmacHex` of
    PhoenixTibiaServer/data/libs/sha1.lua:295-328. */
module Sha1Hmac {
  import opened Machine
  import opened Modular
  import opened BitStrings
  import opened Fips180
  import opened Sha1Words
  import opened Sha1
  import opened Rfc2104

  predicate IsHexDigit(c: char) { '0' <= c <= '9' || 'a' <= c <= 'f' }

  /** `tonumber` of one hex digit. */
  function DigitValue(c: char): nat
    requires IsHexDigit(c)
  {
    if c <= '9' then c as int - '0' as int else c as int - 'a' as int + 10
  }

  lemma DigitInverse(n: nat)
    requires n < 16
    ensures IsHexDigit(HexDigit(n)) && DigitValue(HexDigit(n)) == n
  {}

  lemma DigitOfValue(c: char)
    requires IsHexDigit(c)
    ensures DigitValue(c) < 16 && HexDigit(DigitValue(c)) == c
  {}

  /** An even number of hex digits, which is what `sha1.hex` returns. */
  predicate IsHex(h: string) {
    |h| % 2 == 0 && forall i :: 0 <= i < |h| ==> IsHexDigit(h[i])
  }

  /** `hex_to_binary`: each two digits become the byte they stand for. */
  function HexToBinary(h: string): (r: bytes)
    requires IsHex(h)
    ensures |r| == |h| / 2
  {
    if h == "" then []
    else
      var n := |h|;
      HexToBinary(h[..n - 2]) + [16 * DigitValue(h[n - 2]) + DigitValue(h[n - 1])]
  }

  lemma HexByte(b: u8)
    ensures Hex(Bits(8, b)) == [HexDigit(b / 16), HexDigit(b % 16)]
  {
    hide Hex, Bits, HexDigit, Fixed;
    HexOfBits(2, b);
    TwoDigits(b / 16, b % 16, b);
  }

  lemma TwoDigits(x: nat, y: nat, b: u8)
    requires x == b / 16 && y == b % 16
    ensures x < 16 && y < 16 && Fixed(2, b) == [HexDigit(x), HexDigit(y)]
  {
    hide HexDigit;
    assert Fixed(0, x / 16) == "" && x % 16 == x;
    assert Fixed(1, x) == [HexDigit(x)];
  }

  lemma HexLast(s: bytes, b: u8)
    ensures InHex(s + [b]) == InHex(s) + [HexDigit(b / 16), HexDigit(b % 16)]
  {
    BitsOfLast(s, b);
    HexBitsLast(BitsOf(s), b);
    hide Hex, BitsOf, Bits, HexDigit;
  }

  lemma HexBitsLast(x: bits, b: u8)
    requires |x| % 4 == 0
    ensures Hex(x + Bits(8, b)) == Hex(x) + [HexDigit(b / 16), HexDigit(b % 16)]
  {
    hide Hex, Bits, HexDigit;
    HexConcat(x, Bits(8, b));
    HexByte(b);
  }

  lemma BinaryLast(g: string, b: u8)
    requires IsHex(g)
    ensures var h := g + [HexDigit(b / 16), HexDigit(b % 16)];
      IsHex(h) && HexToBinary(h) == HexToBinary(g) + [b]
  {
    DigitInverse(b / 16);
    DigitInverse(b % 16);
    hide HexDigit, DigitValue, IsHexDigit;
    var h := g + [HexDigit(b / 16), HexDigit(b % 16)];
    assert h[..|h| - 2] == g;
  }

  /** Reading the printed bytes of a string gives the string back, */
  lemma {:induction false} HexToBinaryUndoesHex(s: bytes)
    ensures IsHex(InHex(s)) && HexToBinary(InHex(s)) == s
  {
    if s != [] {
      var t, b := s[..|s| - 1], s[|s| - 1];
      HexToBinaryUndoesHex(t);
      hide InHex, HexToBinary, IsHex;
      HexLast(t, b);
      BinaryLast(InHex(t), b);
      assert s == t + [b];
    }
  }

  /** and printing what was read gives the digits back. */
  lemma {:induction false} HexUndoesHexToBinary(h: string)
    requires IsHex(h)
    ensures InHex(HexToBinary(h)) == h
  {
    if h != "" {
      var n := |h|;
      var g := h[..n - 2];
      HexUndoesHexToBinary(g);
      hide InHex, HexDigit, DigitValue, IsHexDigit;
      DigitOfValue(h[n - 2]);
      DigitOfValue(h[n - 1]);
      HexPair(HexToBinary(g), DigitValue(h[n - 2]), DigitValue(h[n - 1]));
      LastTwo(h);
    }
  }

  lemma LastTwo(h: string)
    requires |h| >= 2
    ensures h == h[..|h| - 2] + [h[|h| - 2], h[|h| - 1]]
  {}

  lemma HexPair(s: bytes, hi: nat, lo: nat)
    requires hi < 16 && lo < 16
    ensures InHex(s + [16 * hi + lo]) == InHex(s) + [HexDigit(hi), HexDigit(lo)]
  {
    hide InHex, HexDigit;
    var b := 16 * hi + lo;
    assert b / 16 == hi && b % 16 == lo;
    HexLast(s, b);
  }

  lemma BinaryOfDigest(msg: bytes)
    ensures DigestInHex(msg) == InHex(H(msg))
    ensures IsHex(DigestInHex(msg)) && HexToBinary(DigestInHex(msg)) == H(msg)
  {
    hide Hex, Digest, BytesOf, BitsOf, HexToBinary, IsHex;
    BitsOfBytes(Digest(BitsOf(msg)));
    HexToBinaryUndoesHex(H(msg));
  }

  /** `sha1.bin`: the digest as 20 bytes. */
  method Bin(msg: bytes) returns (r: Option<bytes>)
    ensures r == if Hashable(msg) then Some(H(msg)) else None
  {
    hide H, DigestInHex;
    var hex := HexDigest(msg);
    if hex == None { return None; }
    BinaryOfDigest(msg);
    r := Some(HexToBinary(hex.value));
  }

  /** `gsub` through one of the two tables, then the table's byte up to a block. */
  function XorKey(key: bytes, pad: u8): (r: bytes)
    requires |key| <= 64
    ensures |r| == 64
  {
    seq(|key|, i requires 0 <= i < |key| => ByteGate(Parity, key[i], pad)) + seq(64 - |key|, _ => pad)
  }

  lemma ByteGateIsXor(a: u8, b: u8)
    ensures ByteGate(Parity, a, b) == XorByte(a, b)
  {
    PowersOfTwo();
    ByteGateIsPointwise(Parity, a, b);
    ValBits(8, ByteGate(Parity, a, b));
  }

  lemma XorWithZero(b: u8)
    ensures XorByte(0, b) == b
  {
    PowersOfTwo();
    BitsOfZero(8);
    assert XorBits(Repeat(8, false), Bits(8, b)) == Bits(8, b);
    ValBits(8, b);
  }

  /** The same block as the padded key exclusive-or'd throughout. */
  lemma XorKeyIsXorPad(key: bytes, pad: u8)
    requires |key| <= 64
    ensures XorKey(key, pad) == XorPad(key + Zeros(64 - |key|), pad)
  {
    hide XorByte, ByteGate;
    XorWithZero(pad);
    forall i | 0 <= i < |key| ensures ByteGate(Parity, key[i], pad) == XorByte(key[i], pad) {
      ByteGateIsXor(key[i], pad);
    }
  }

  /** `sha1.hmacHex`: the HMAC of RFC 2104, printed, whatever the length of the key; an
      error exactly when a string to be hashed has 2^32 bits or more. */
  method HmacHex(key: bytes, text: bytes) returns (r: Option<string>)
    ensures r == if (|key| > 64 ==> Hashable(key)) && 8 * (64 + |text|) < 0x1_0000_0000
      then Some(InHex(Hmac(key, text))) else None
  {
    hide H, DigestInHex, XorKey, XorPad, InHex;
    var k := key;
    if |key| > 64 {
      var bin := Bin(key);
      if bin == None { return None; }
      k := bin.value;
    }
    XorKeyIsXorPad(k, 0x36);
    XorKeyIsXorPad(k, 0x5C);
    var inner := Bin(XorKey(k, 0x36) + text);
    if inner == None { return None; }
    r := HexDigest(XorKey(k, 0x5C) + inner.value);
    BinaryOfDigest(XorKey(k, 0x5C) + inner.value);
  }
}
