/** The Secure Hash Algorithm of FIPS PUB 180-1, on bit strings. Section numbers
    are those of that document. */
module Fips180 {
  import opened Machine
  import opened Modular
  import opened BitStrings

  /** Section 3; words, and their addition, are those of `BitStrings`. */
  function And(x: word, y: word): word { AndBits(x, y) }
  function Or(x: word, y: word): word { OrBits(x, y) }
  function Xor(x: word, y: word): word { XorBits(x, y) }
  function Not(x: word): word { Negated(x) }

  function RotateLeft(n: nat, x: word): word
    requires n <= 32
  {
    x[n..] + x[..n]
  }

  /** Section 4: how many zeros go between the 1 and the 64-bit length. */
  predicate Fills(l: nat, k: nat) { (l + 1 + k) % 512 == 448 }

  function Filling(l: nat): (k: nat)
    ensures Fills(l, k) && forall j: nat :: j < k ==> !Fills(l, j)
  {
    FillingLeast(l);
    FillingOf(l)
  }

  function FillingOf(l: nat): nat {
    var r := (l + 1) % 512;
    if r <= 448 then 448 - r else 960 - r
  }

  lemma FillingLeast(l: nat)
    ensures Fills(l, FillingOf(l)) && forall j: nat :: j < FillingOf(l) ==> !Fills(l, j)
  {
    var q, r, k := (l + 1) / 512, (l + 1) % 512, FillingOf(l);
    if r <= 448 { Quotient(l + 1 + k, 512, q, 448); } else { Quotient(l + 1 + k, 512, q + 1, 448); }
    forall j: nat | j < k ensures !Fills(l, j) {
      if r + j < 512 { Quotient(l + 1 + j, 512, q, r + j); } else { Quotient(l + 1 + j, 512, q + 1, r + j - 512); }
    }
  }

  lemma FillingFits(l: nat)
    ensures (l + 1 + Filling(l) + 64) % 512 == 0
  {
    assert Fills(l, Filling(l));
    hide Filling;
  }

  /** The padded message, for messages of fewer than 2^64 bits. */
  function Padded(message: bits): (p: bits)
    ensures |p| % 512 == 0
  {
    var l := |message|;
    FillingFits(l);
    message + [true] + Repeat(Filling(l), false) + Bits(64, l)
  }

  /** Section 5. */
  function F(t: nat, b: word, c: word, d: word): word {
    if t <= 19 then Or(And(b, c), And(Not(b), d))
    else if t <= 39 then Xor(Xor(b, c), d)
    else if t <= 59 then Or(Or(And(b, c), And(b, d)), And(c, d))
    else Xor(Xor(b, c), d)
  }

  /** Section 6. */
  /** Bit by bit, the functions of section 5 choose between c and d, take the parity
      of the three, or go with the majority. */
  lemma FBitByBit(t: nat, b: word, c: word, d: word, i: nat)
    requires i < 32
    ensures F(t, b, c, d)[i] ==
      if t <= 19 then if b[i] then c[i] else d[i]
      else if 40 <= t <= 59 then if b[i] then c[i] || d[i] else c[i] && d[i]
      else (b[i] != c[i]) != d[i]
  {}

  function K(t: nat): word {
    if t <= 19 then Word(0x5A827999)
    else if t <= 39 then Word(0x6ED9EBA1)
    else if t <= 59 then Word(0x8F1BBCDC)
    else Word(0xCA62C1D6)
  }

  /** Section 7: the five words carried through the rounds and from block to block. */
  /** The constants of section 6 are the square roots of 2, 3, 5 and 10, times 2^30,
      rounded down. */
  lemma KAreRoots(t: nat)
    ensures var n := if t <= 19 then 2 else if t <= 39 then 3 else if t <= 59 then 5 else 10;
      var k := Val(K(t));
      k * k <= n * 0x1000_0000_0000_0000 < (k + 1) * (k + 1)
  {
    hide Bits, Val, Pow2;
    PowersOfTwo();
    ValBits(32, 0x5A827999);
    ValBits(32, 0x6ED9EBA1);
    ValBits(32, 0x8F1BBCDC);
    ValBits(32, 0xCA62C1D6);
  }

  datatype State = State(a: word, b: word, c: word, d: word, e: word)

  function Start(): State {
    State(Word(0x67452301), Word(0xEFCDAB89), Word(0x98BADCFE), Word(0x10325476), Word(0xC3D2E1F0))
  }

  /** W(t): the words of the block, then each from four before it. */
  function W(block: bits, t: nat): word
    requires |block| == 512
  {
    if t < 16 then block[32 * t..32 * t + 32]
    else RotateLeft(1, Xor(Xor(Xor(W(block, t - 3), W(block, t - 8)), W(block, t - 14)), W(block, t - 16)))
  }

  function Round(t: nat, s: State, w: word): State {
    var temp := Add(Add(Add(Add(RotateLeft(5, s.a), F(t, s.b, s.c, s.d)), s.e), w), K(t));
    State(temp, s.a, RotateLeft(30, s.b), s.c, s.d)
  }

  function Rounds(block: bits, s: State, t: nat): State
    requires |block| == 512
  {
    if t == 0 then s else Round(t - 1, Rounds(block, s, t - 1), W(block, t - 1))
  }

  function AddState(s: State, r: State): State {
    State(Add(s.a, r.a), Add(s.b, r.b), Add(s.c, r.c), Add(s.d, r.d), Add(s.e, r.e))
  }

  function Block(p: bits, i: nat): bits
    requires 512 * (i + 1) <= |p|
  {
    p[512 * i..512 * i + 512]
  }

  /** The state after the first n blocks of p. */
  function Processed(p: bits, n: nat): State
    requires 512 * n <= |p|
  {
    if n == 0 then Start()
    else
      var s := Processed(p, n - 1);
      AddState(s, Rounds(Block(p, n - 1), s, 80))
  }

  /** The message digest, 160 bits. */
  function Digest(message: bits): (d: bits)
    ensures |d| == 160
  {
    var p := Padded(message);
    var s := Processed(p, |p| / 512);
    s.a + s.b + s.c + s.d + s.e
  }

  /** Section 2: a string of whole hex digits. */
  function HexDigit(n: nat): char
    requires n < 16
  {
    "0123456789abcdef"[n]
  }

  function Hex(s: bits): (h: string)
    requires |s| % 4 == 0
    ensures |h| == |s| / 4
  {
    if s == [] then ""
    else
      assert Pow2(4) == 16;
      Hex(s[..|s| - 4]) + [HexDigit(Val(s[|s| - 4..]))]
  }

  /** The digest of a string of bytes, as it is printed. */
  function DigestInHex(message: bytes): (h: string)
    ensures |h| == 40
  {
    Printed(Digest(BitsOf(message)))
  }

  function Printed(d: bits): (h: string)
    requires |d| == 160
    ensures h == Hex(d) && |h| == 40
  {
    Hex(d)
  }

  /** A string of bytes in hex. */
  lemma EightByFour(n: nat)
    ensures 8 * n % 4 == 0 && 8 * n / 4 == 2 * n
  {}

  function InHex(s: bytes): (h: string)
    ensures |h| == 2 * |s|
  {
    EightByFour(|s|);
    Hex(BitsOf(s))
  }
}
