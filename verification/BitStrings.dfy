/** Bit strings, most significant bit first, and the numbers they stand for. */
module BitStrings {
  import opened Machine
  import opened Modular

  type bits = seq<bool>

  function Bit(p: bool): nat { if p then 1 else 0 }

  /** The last n bits of x. */
  function Bits(n: nat, x: nat): (s: bits)
    ensures |s| == n
  {
    if n == 0 then [] else Bits(n - 1, x / 2) + [x % 2 == 1]
  }

  function Val(s: bits): (x: nat)
    ensures x < Pow2(|s|)
  {
    if s == [] then 0 else 2 * Val(s[..|s| - 1]) + Bit(s[|s| - 1])
  }

  lemma {:induction false} ValBits(n: nat, x: nat)
    requires x < Pow2(n)
    ensures Val(Bits(n, x)) == x
  {
    if n > 0 {
      ValBits(n - 1, x / 2);
      assert Bits(n, x)[..n - 1] == Bits(n - 1, x / 2);
    }
  }

  lemma LastBit(n: nat, x: nat, p: nat)
    requires n > 0 && p < 2
    ensures Bits(n, 2 * x + p) == Bits(n - 1, x) + [p == 1]
  {}

  lemma {:induction false} BitsVal(s: bits)
    ensures Bits(|s|, Val(s)) == s
  {
    hide Pow2;
    if s != [] {
      var t, p := s[..|s| - 1], s[|s| - 1];
      BitsVal(t);
      assert Val(s) == 2 * Val(t) + Bit(p);
      LastBit(|s|, Val(t), Bit(p));
      hide Val, Bits;
      assert s == t + [p];
    }
  }

  /** Only the last n bits matter. */
  lemma {:induction false} BitsMod(n: nat, x: nat)
    ensures Bits(n, x % Pow2(n)) == Bits(n, x)
  {
    if n > 0 {
      BitsMod(n - 1, x / 2);
      HalfMod(x, Pow2(n - 1));
    }
  }

  lemma HalfMod(x: nat, m: nat)
    requires m > 0
    ensures x % (2 * m) / 2 == x / 2 % m
    ensures x % (2 * m) % 2 == x % 2
  {
    var q, r := x / 2 / m, x / 2 % m;
    assert x == q * (2 * m) + (2 * r + x % 2);
    Quotient(x, 2 * m, q, 2 * r + x % 2);
  }

  lemma {:induction false} BitsConcat(m: nat, n: nat, hi: nat, lo: nat)
    requires lo < Pow2(n)
    ensures Bits(m + n, hi * Pow2(n) + lo) == Bits(m, hi) + Bits(n, lo)
  {
    if n == 0 {
      assert Bits(m, hi) + [] == Bits(m, hi);
    } else {
      HalfConcat(hi, Pow2(n - 1), lo);
      BitsConcat(m, n - 1, hi, lo / 2);
      assert Bits(m, hi) + Bits(n - 1, lo / 2) + [lo % 2 == 1] == Bits(m, hi) + Bits(n, lo);
    }
  }

  lemma HalfConcat(hi: nat, m: nat, lo: nat)
    ensures (hi * (2 * m) + lo) / 2 == hi * m + lo / 2
    ensures (hi * (2 * m) + lo) % 2 == lo % 2
  {}

  lemma Middle(x: bits, y: bits, z: bits)
    ensures (x + y + z)[|x|..|x| + |y|] == y
  {}

  /** The bits of a string of bytes. */
  function BitsOf(s: bytes): (r: bits)
    ensures |r| == 8 * |s|
  {
    if s == [] then [] else BitsOf(s[..|s| - 1]) + Bits(8, s[|s| - 1])
  }

  lemma BitsOfLast(s: bytes, b: u8)
    ensures BitsOf(s + [b]) == BitsOf(s) + Bits(8, b)
  {}

  lemma Associates(x: bits, y: bits, z: bits)
    ensures x + y + z == x + (y + z)
  {}

  lemma {:induction false} BitsOfConcat(s: bytes, t: bytes)
    ensures BitsOf(s + t) == BitsOf(s) + BitsOf(t)
  {
    if t == [] {
      assert s + t == s;
    } else {
      var u, b := t[..|t| - 1], t[|t| - 1];
      BitsOfConcat(s, u);
      BitsOfLast(s + u, b);
      BitsOfLast(u, b);
      hide BitsOf, Bits;
      assert t == u + [b];
      assert s + t == s + u + [b];
      Associates(BitsOf(s), BitsOf(u), Bits(8, b));
    }
  }

  lemma BitsOfCut(s: bytes, i: nat, j: nat)
    requires i <= j <= |s|
    ensures BitsOf(s)[8 * i..8 * j] == BitsOf(s[i..j])
  {
    hide *;
    BitsOfMiddle(s[..i], s[i..j], s[j..], i, j);
    ThreeParts(s, i, j);
  }

  lemma ThreeParts(s: bytes, i: nat, j: nat)
    requires i <= j <= |s|
    ensures s[..i] + s[i..j] + s[j..] == s
  {}

  lemma BitsOfMiddle(x: bytes, y: bytes, z: bytes, i: nat, j: nat)
    requires |x| == i && |x + y| == j
    ensures BitsOf(x + y + z)[8 * i..8 * j] == BitsOf(y)
  {
    BitsOfConcat(x + y, z);
    BitsOfConcat(x, y);
    hide BitsOf;
    Middle(BitsOf(x), BitsOf(y), BitsOf(z));
  }

  /** The bytes of a string of whole bytes. */
  function BytesOf(s: bits): (r: bytes)
    requires |s| % 8 == 0
    ensures |r| == |s| / 8
  {
    if s == [] then [] else BytesOf(s[..|s| - 8]) + [Byte(s[|s| - 8..])]
  }

  function Byte(s: bits): u8
    requires |s| == 8
  {
    PowersOfTwo();
    Val(s)
  }

  lemma {:induction false} BytesOfBits(s: bytes)
    ensures BytesOf(BitsOf(s)) == s
  {
    if s != [] {
      var t, b := s[..|s| - 1], s[|s| - 1];
      BytesOfBits(t);
      BytesOfBitsLast(t, b);
      hide BytesOf, BitsOf;
      assert s == t + [b];
    }
  }

  lemma BytesOfBitsLast(t: bytes, b: u8)
    ensures BytesOf(BitsOf(t + [b])) == BytesOf(BitsOf(t)) + [b]
  {
    BytesOfLast(BitsOf(t), b);
    BitsOfLast(t, b);
    hide BytesOf, BitsOf, Bits;
  }

  lemma BytesOfLast(s: bits, b: u8)
    requires |s| % 8 == 0
    ensures BytesOf(s + Bits(8, b)) == BytesOf(s) + [b]
  {
    PowersOfTwo();
    ValBits(8, b);
    var r := s + Bits(8, b);
    assert r[..|r| - 8] == s && r[|r| - 8..] == Bits(8, b);
  }

  lemma BitsOfByteAfter(s: bytes, u: bits)
    requires |u| == 8
    ensures BitsOf(s + [Byte(u)]) == BitsOf(s) + u
  {
    BitsOfLast(s, Byte(u));
    BitsVal(u);
    hide BitsOf, Bits, Val;
  }

  lemma BytesOfByteAfter(s: bits, u: bits)
    requires |s| % 8 == 0 && |u| == 8
    ensures |s + u| % 8 == 0 && BytesOf(s + u) == BytesOf(s) + [Byte(u)]
  {
    hide Byte;
    assert (s + u)[..|s + u| - 8] == s && (s + u)[|s + u| - 8..] == u;
  }

  lemma NoBytes()
    ensures BytesOf([]) == [] && BitsOf([]) == []
  {}

  lemma {:induction false} BitsOfBytes(s: bits)
    requires |s| % 8 == 0
    ensures BitsOf(BytesOf(s)) == s
  {
    NoBytes();
    hide BitsOf, BytesOf, Byte;
    if s != [] {
      var t, u := s[..|s| - 8], s[|s| - 8..];
      BitsOfBytes(t);
      assert s == t + u;
      BitsOfByteAfter(BytesOf(t), u);
      BytesOfByteAfter(t, u);
    }
  }

  /** A string of n bits all equal. */
  function Repeat(n: nat, p: bool): (r: bits)
    ensures |r| == n && forall i :: 0 <= i < n ==> r[i] == p
  {
    seq(n, _ => p)
  }

  lemma {:induction false} BitsOfZero(n: nat)
    ensures Bits(n, 0) == Repeat(n, false)
  {
    if n > 0 { BitsOfZero(n - 1); }
  }

  lemma {:induction false} BitsOfZeros(n: nat)
    ensures BitsOf(Zeros(n)) == Repeat(8 * n, false)
  {
    if n > 0 {
      BitsOfZeros(n - 1);
      BitsOfZero(8);
      assert Zeros(n)[..n - 1] == Zeros(n - 1);
    }
  }

  /** Strings of one length, bit by bit. */
  function AndBits(x: bits, y: bits): (r: bits)
    requires |x| == |y|
    ensures |r| == |x| && forall i :: 0 <= i < |r| ==> r[i] == (x[i] && y[i])
  {
    seq(|x|, i requires 0 <= i < |x| => x[i] && y[i])
  }

  function OrBits(x: bits, y: bits): (r: bits)
    requires |x| == |y|
    ensures |r| == |x| && forall i :: 0 <= i < |r| ==> r[i] == (x[i] || y[i])
  {
    seq(|x|, i requires 0 <= i < |x| => x[i] || y[i])
  }

  function XorBits(x: bits, y: bits): (r: bits)
    requires |x| == |y|
    ensures |r| == |x| && forall i :: 0 <= i < |r| ==> r[i] == (x[i] != y[i])
  {
    seq(|x|, i requires 0 <= i < |x| => x[i] != y[i])
  }

  /** The three connectives on single bits, and what they come to on strings. */
  datatype Gate = Conj | Disj | Parity

  predicate Apply(g: Gate, p: bool, q: bool) {
    match g
    case Conj => p && q
    case Disj => p || q
    case Parity => p != q
  }

  function Pointwise(g: Gate, x: bits, y: bits): (r: bits)
    requires |x| == |y|
    ensures |r| == |x| && forall i :: 0 <= i < |r| ==> r[i] == Apply(g, x[i], y[i])
  {
    match g
    case Conj => AndBits(x, y)
    case Disj => OrBits(x, y)
    case Parity => XorBits(x, y)
  }

  function Negated(x: bits): (r: bits)
    ensures |r| == |x| && forall i :: 0 <= i < |r| ==> r[i] == !x[i]
  {
    seq(|x|, i requires 0 <= i < |x| => !x[i])
  }

  lemma PointwiseConcat(g: Gate, x: bits, y: bits, x': bits, y': bits)
    requires |x| == |y| && |x'| == |y'|
    ensures Pointwise(g, x + x', y + y') == Pointwise(g, x, y) + Pointwise(g, x', y')
  {}

  /** A word is a string of 32 bits; the word that stands for x. */
  type word = w: bits | |w| == 32 witness Repeat(32, false)

  function Word(x: nat): word { Bits(32, x) }

  /** Addition of words, modulo 2^32. */
  function Add(x: word, y: word): word { Word((Val(x) + Val(y)) % Pow2(32)) }

  lemma WordOfSum(x: u32, y: u32)
    ensures Word(Wrap32(x + y)) == Add(Word(x), Word(y))
  {
    hide Bits, Val, Pow2;
    PowersOfTwo();
    ValBits(32, x);
    ValBits(32, y);
  }
}
