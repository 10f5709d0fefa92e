/** The 32-bit words of PhoenixTibiaServer/data/libs/sha1.lua:68-209: plain numbers,
    with every bitwise operation built from division, remainder and lists of
    booleans. Each is proved equal to the operation on bit strings. */
module Sha1Words {
  import opened Machine
  import opened Modular
  import opened BitStrings
  import opened Fips180

  function BytesToW32(a: u8, b: u8, c: u8, d: u8): u32 {
    var a: nat, b: nat, c: nat, d: nat := a, b, c, d;
    a * 0x100_0000 + b * 0x1_0000 + c * 0x100 + d
  }

  function W32ToBytes(i: u32): (u8, u8, u8, u8) {
    (i / 0x100_0000 % 0x100, i / 0x1_0000 % 0x100, i / 0x100 % 0x100, i % 0x100)
  }

  type Quad = (u8, u8, u8, u8)

  function QuadBits(x: Quad): word {
    Bits(8, x.0) + Bits(8, x.1) + Bits(8, x.2) + Bits(8, x.3)
  }

  lemma BytesJoined(a: u8, b: u8, c: u8, d: u8)
    ensures Word(BytesToW32(a, b, c, d)) == QuadBits((a, b, c, d))
  {
    hide Bits, Pow2;
    PowersOfTwo();
    var x: nat, y: nat, z: nat, w: nat := a, b, c, d;
    BitsConcat(8, 8, x, y);
    BitsConcat(16, 8, x * 0x100 + y, z);
    BitsConcat(24, 8, (x * 0x100 + y) * 0x100 + z, w);
  }

  lemma DigitsOfWord(i: u32)
    ensures var s := W32ToBytes(i); BytesToW32(s.0, s.1, s.2, s.3) == i
  {
    Divided(i, 0x100, 0x100);
    Divided(i, 0x100, 0x1_0000);
  }

  /** Splitting a word and joining its bytes. */
  lemma BytesSplit(i: u32)
    ensures var s := W32ToBytes(i); BytesToW32(s.0, s.1, s.2, s.3) == i
    ensures Word(i) == QuadBits(W32ToBytes(i))
  {
    var s := W32ToBytes(i);
    DigitsOfWord(i);
    BytesJoined(s.0, s.1, s.2, s.3);
    hide W32ToBytes, BytesToW32, Word, Bits;
  }

  /** `math.modf` of a number that is not negative. */
  function Modf(x: real): (nat, real)
    requires x >= 0.0
  {
    (x.Floor, x - x.Floor as real)
  }

  /** `w32_rot`, on numbers that need not be whole on the way. */
  function W32Rot(n: nat, a: u32): real
    requires n <= 32
  {
    Rotation(a as real, Pow2(32 - n) as real, Pow2(n) as real)
  }

  function Rotation(a: real, b2: real, k: real): real
    requires a >= 0.0 && b2 > 0.0
  {
    assert a / b2 >= 0.0;
    var (w, f) := Modf(a / b2);
    w as real + f * b2 * k
  }

  lemma ModfOfQuotient(a: nat, m: nat)
    requires m > 0
    ensures a as real / m as real >= 0.0
    ensures Modf(a as real / m as real).0 == a / m
    ensures Modf(a as real / m as real).1 * m as real == (a % m) as real
  {
    RealOf(a, m);
    hide Modf;
    ModfOfParts(a as real, m as real, a / m, (a % m) as real);
  }

  lemma ModfOfParts(x: real, m: real, q: nat, r: real)
    requires 0.0 <= r < m && x == q as real * m + r
    ensures x / m >= 0.0 && Modf(x / m).0 == q && Modf(x / m).1 * m == r
  {
    hide Modf;
    RealQuotient(q as real, r, m);
    ModfOfSum(q, r / m);
  }

  lemma RealOf(a: nat, m: nat)
    requires m > 0
    ensures a as real == (a / m) as real * m as real + (a % m) as real
  {
    var q, r := a / m, a % m;
    assert a == q * m + r;
    assert (q * m) as real == q as real * m as real;
  }

  lemma ModfOfSum(q: nat, x: real)
    requires 0.0 <= x < 1.0
    ensures q as real + x >= 0.0 && Modf(q as real + x) == (q, x)
  {
    var y := q as real + x;
    assert y.Floor as real <= y < (y.Floor + 1) as real;
    assert (q as int) as real <= y < (q + 1) as real;
    assert q <= y.Floor < q + 1;
  }

  lemma RealQuotient(q: real, r: real, m: real)
    requires q >= 0.0 && 0.0 <= r < m
    ensures (q * m + r) / m == q + r / m && 0.0 <= r / m < 1.0
    ensures r / m * m == r
  {
    var t := r / m;
    assert t * m == r;
    assert q * m + r == (q + t) * m;
    assert (q + t) * m / m == q + t;
  }

  /** The rotation has no fraction left, fits in 32 bits, and moves the first n bits
      to the end. */
  lemma RotationRotates(n: nat, a: u32)
    requires n <= 32
    ensures W32Rot(n, a) == Rotated(n, a) as real
    ensures Word(Rotated(n, a)) == RotateLeft(n, Word(a))
  {
    RotationWhole(a, Pow2(32 - n), Pow2(n));
    RotatedBits(n, a);
    hide Rotation, RotateLeft, Pow2;
  }

  lemma RotatedBits(n: nat, a: u32)
    requires n <= 32
    ensures Word(Rotated(n, a)) == RotateLeft(n, Word(a))
  {
    hide Pow2, RotateLeft, Word;
    Parts(n, a);
    RotationOfParts(n, a / Pow2(32 - n), a % Pow2(32 - n));
  }

  lemma Parts(n: nat, a: u32)
    requires n <= 32
    ensures var m, k := Pow2(32 - n), Pow2(n);
      a / m < k && a == a / m * m + a % m && Swapped(a, m, k) < 0x1_0000_0000
  {
    hide Pow2;
    Pow2Sum(n, 32 - n);
    PowersOfTwo();
    HighPart(a, Pow2(32 - n), Pow2(n));
  }

  lemma RotationOfParts(n: nat, hi: nat, lo: nat)
    requires n <= 32 && hi < Pow2(n) && lo < Pow2(32 - n)
    ensures Word(hi + lo * Pow2(n)) == RotateLeft(n, Word(hi * Pow2(32 - n) + lo))
  {
    hide Pow2, Bits;
    BitsConcat(n, 32 - n, hi, lo);
    BitsConcat(32 - n, n, lo, hi);
  }

  lemma RotationWhole(a: nat, m: nat, k: nat)
    requires m > 0
    ensures Rotation(a as real, m as real, k as real) == Swapped(a, m, k) as real
  {
    ModfOfQuotient(a, m);
    hide Modf;
    var y, r := Modf(a as real / m as real).1, a % m;
    assert y * m as real * k as real == r as real * k as real;
    assert r as real * k as real == (r * k) as real;
  }

  function Rotated(n: nat, a: u32): (r: u32)
    requires n <= 32
  {
    Parts(n, a);
    Swapped(a, Pow2(32 - n), Pow2(n))
  }

  function Swapped(a: nat, m: nat, k: nat): nat
    requires m > 0
  {
    a / m + a % m * k
  }

  lemma HighPart(a: nat, m: nat, k: nat)
    requires m > 0 && k > 0 && a < k * m
    ensures a / m < k && a == a / m * m + a % m
    ensures Swapped(a, m, k) < k * m
  {
    var q, r := a / m, a % m;
    assert a == q * m + r;
    if q >= k { Scaled(k, q, m); }
    assert r * k <= (m - 1) * k;
  }

  /** The eight bits of a byte, the last one first. */
  function ByteToBits(b: u8): (s: bits)
    ensures |s| == 8
  {
    var b: nat := b;
    [b % 2 == 1, b / 2 % 2 == 1, b / 4 % 2 == 1, b / 8 % 2 == 1,
     b / 16 % 2 == 1, b / 32 % 2 == 1, b / 64 % 2 == 1, b / 128 % 2 == 1]
  }

  function BitsToByte(s: bits): u8
    requires |s| == 8
  {
    Weight(s[0], 1) + Weight(s[1], 2) + Weight(s[2], 4) + Weight(s[3], 8)
    + Weight(s[4], 16) + Weight(s[5], 32) + Weight(s[6], 64) + Weight(s[7], 128)
  }

  function Weight(p: bool, x: nat): nat { if p then x else 0 }

  function Mirror(s: bits): (r: bits)
    ensures |r| == |s| && forall i :: 0 <= i < |r| ==> r[i] == s[|s| - 1 - i]
  {
    seq(|s|, i requires 0 <= i < |s| => s[|s| - 1 - i])
  }

  lemma {:induction false} BitAt(n: nat, x: nat, k: nat)
    requires k < n
    ensures Bits(n, x)[n - 1 - k] == (x / Pow2(k) % 2 == 1)
  {
    if k > 0 {
      BitAt(n - 1, x / 2, k - 1);
      Divided(x, Pow2(k - 1), 2);
      Divided(x, 2, Pow2(k - 1));
    }
  }

  lemma SmallPowers()
    ensures Pow2(0) == 1 && Pow2(1) == 2 && Pow2(2) == 4 && Pow2(3) == 8
    ensures Pow2(4) == 16 && Pow2(5) == 32 && Pow2(6) == 64 && Pow2(7) == 128
  {}

  lemma ByteToBitsAt(b: u8, k: nat)
    requires k < 8
    ensures ByteToBits(b)[k] == (b / Pow2(k) % 2 == 1)
  {
    SmallPowers();
    hide Pow2;
  }

  lemma ByteToBitsIsBits(b: u8)
    ensures ByteToBits(b) == Mirror(Bits(8, b))
  {
    hide ByteToBits, Bits;
    forall k | 0 <= k < 8 ensures ByteToBits(b)[k] == Bits(8, b)[7 - k] {
      ByteToBitsAt(b, k);
      BitAt(8, b, k);
    }
  }

  lemma ValAppend(s: bits, p: bool)
    ensures Val(s + [p]) == 2 * Val(s) + Bit(p)
  {}

  lemma BitsToByteIsVal(s: bits)
    requires |s| == 8
    ensures BitsToByte(s) == Val(Mirror(s))
  {
    hide BitsToByte, Val, Bit;
    WeightsOfEight(s);
    ValOfEight(Mirror(s));
  }

  lemma WeightsOfEight(s: bits)
    requires |s| == 8
    ensures BitsToByte(s) == 128 * Bit(s[7]) + 64 * Bit(s[6]) + 32 * Bit(s[5]) + 16 * Bit(s[4])
      + 8 * Bit(s[3]) + 4 * Bit(s[2]) + 2 * Bit(s[1]) + Bit(s[0])
  {}

  lemma ValOfEight(r: bits)
    requires |r| == 8
    ensures Val(r) == 128 * Bit(r[0]) + 64 * Bit(r[1]) + 32 * Bit(r[2]) + 16 * Bit(r[3])
      + 8 * Bit(r[4]) + 4 * Bit(r[5]) + 2 * Bit(r[6]) + Bit(r[7])
  {
    hide Bit, Val, Pow2;
    assert r[..0] == [] && r[..8] == r;
    NoBits();
    ValFour(r, 0);
    ValFour(r, 4);
    var high := 8 * Bit(r[0]) + 4 * Bit(r[1]) + 2 * Bit(r[2]) + Bit(r[3]);
    var low := 8 * Bit(r[4]) + 4 * Bit(r[5]) + 2 * Bit(r[6]) + Bit(r[7]);
    assert Val(r[..4]) == high;
    assert Val(r[..8]) == 16 * high + low;
  }

  lemma NoBits()
    ensures Val([]) == 0
  {}

  lemma ValFour(s: bits, k: nat)
    requires k + 4 <= |s|
    ensures Val(s[..k + 4])
      == 16 * Val(s[..k]) + 8 * Bit(s[k]) + 4 * Bit(s[k + 1]) + 2 * Bit(s[k + 2]) + Bit(s[k + 3])
  {
    hide Val, Bit;
    ValPrefix(s, k);
    ValPrefix(s, k + 1);
    ValPrefix(s, k + 2);
    ValPrefix(s, k + 3);
  }

  lemma ValPrefix(s: bits, k: nat)
    requires k < |s|
    ensures Val(s[..k + 1]) == 2 * Val(s[..k]) + Bit(s[k])
  {
    ValAppend(s[..k], s[k]);
    assert s[..k + 1] == s[..k] + [s[k]];
  }

  /** Splitting a byte and joining bits undo each other. */
  lemma ByteBitsInverse(b: u8, s: bits)
    requires |s| == 8
    ensures BitsToByte(ByteToBits(b)) == b
    ensures ByteToBits(BitsToByte(s)) == s
  {
    PowersOfTwo();
    hide Bits, Val;
    ByteToBitsIsBits(b);
    BitsToByteIsVal(ByteToBits(b));
    assert Mirror(ByteToBits(b)) == Bits(8, b);
    ValBits(8, b);
    BitsToByteIsVal(s);
    ByteToBitsIsBits(BitsToByte(s));
    BitsVal(Mirror(s));
    assert Mirror(Mirror(s)) == s;
  }

  /** `band`, `bor` and `bxor`. */
  function ByteGate(g: Gate, a: u8, b: u8): u8 {
    var p, q := ByteToBits(b), ByteToBits(a);
    BitsToByte(seq(8, i requires 0 <= i < 8 => Apply(g, p[i], q[i])))
  }

  lemma ByteGateIsPointwise(g: Gate, a: u8, b: u8)
    ensures Bits(8, ByteGate(g, a, b)) == Pointwise(g, Bits(8, a), Bits(8, b))
  {
    hide Bits, Val, BitsToByte, ByteToBits, Apply;
    var s := seq(8, i requires 0 <= i < 8 => Apply(g, ByteToBits(b)[i], ByteToBits(a)[i]));
    BitsToByteIsVal(s);
    BitsVal(Mirror(s));
    ByteToBitsIsBits(a);
    ByteToBitsIsBits(b);
    Commutes(g);
    assert Mirror(s) == Pointwise(g, Bits(8, a), Bits(8, b));
    assert ByteGate(g, a, b) == BitsToByte(s);
  }

  lemma Commutes(g: Gate)
    ensures forall p, q :: Apply(g, p, q) == Apply(g, q, p)
  {}

  function QuadGate(g: Gate, x: Quad, y: Quad): Quad {
    (ByteGate(g, x.0, y.0), ByteGate(g, x.1, y.1), ByteGate(g, x.2, y.2), ByteGate(g, x.3, y.3))
  }

  lemma QuadGateIsPointwise(g: Gate, x: Quad, y: Quad)
    ensures QuadBits(QuadGate(g, x, y)) == Pointwise(g, QuadBits(x), QuadBits(y))
  {
    hide Bits, ByteGate, Pointwise;
    ByteGateIsPointwise(g, x.0, y.0);
    ByteGateIsPointwise(g, x.1, y.1);
    ByteGateIsPointwise(g, x.2, y.2);
    ByteGateIsPointwise(g, x.3, y.3);
    PointwiseConcat(g, Bits(8, x.0), Bits(8, y.0), Bits(8, x.1), Bits(8, y.1));
    PointwiseConcat(g, Bits(8, x.0) + Bits(8, x.1), Bits(8, y.0) + Bits(8, y.1), Bits(8, x.2), Bits(8, y.2));
    PointwiseConcat(g, Bits(8, x.0) + Bits(8, x.1) + Bits(8, x.2), Bits(8, y.0) + Bits(8, y.1) + Bits(8, y.2),
      Bits(8, x.3), Bits(8, y.3));
  }

  function Joined(x: Quad): u32 { BytesToW32(x.0, x.1, x.2, x.3) }

  /** `w32_comb` of one of the three. */
  function W32Gate(g: Gate, a: u32, b: u32): u32 {
    Joined(QuadGate(g, W32ToBytes(a), W32ToBytes(b)))
  }

  function W32And(a: u32, b: u32): u32 { W32Gate(Conj, a, b) }
  function W32Or(a: u32, b: u32): u32 { W32Gate(Disj, a, b) }

  /** Byte by byte or bit by bit. */
  lemma W32GateIsPointwise(g: Gate, a: u32, b: u32)
    ensures Word(W32Gate(g, a, b)) == Pointwise(g, Word(a), Word(b))
  {
    var x, y := W32ToBytes(a), W32ToBytes(b);
    var z := QuadGate(g, x, y);
    BytesSplit(a);
    BytesSplit(b);
    QuadGateIsPointwise(g, x, y);
    hide QuadGate, QuadBits, W32ToBytes, Word, Pointwise;
    BytesJoined(z.0, z.1, z.2, z.3);
  }

  function W32Or3(a: u32, b: u32, c: u32): u32 {
    Joined(QuadGate(Disj, W32ToBytes(a), QuadGate(Disj, W32ToBytes(b), W32ToBytes(c))))
  }

  lemma W32Or3IsOr(a: u32, b: u32, c: u32)
    ensures Word(W32Or3(a, b, c)) == Or(Or(Word(a), Word(b)), Word(c))
  {
    var x, y, z := W32ToBytes(a), W32ToBytes(b), W32ToBytes(c);
    var yz := QuadGate(Disj, y, z);
    var xyz := QuadGate(Disj, x, yz);
    BytesSplit(a);
    BytesSplit(b);
    BytesSplit(c);
    QuadGateIsPointwise(Disj, y, z);
    QuadGateIsPointwise(Disj, x, yz);
    hide QuadGate, QuadBits, W32ToBytes, Word;
    BytesJoined(xyz.0, xyz.1, xyz.2, xyz.3);
    OrAssociates(Word(a), Word(b), Word(c));
  }

  lemma OrAssociates(x: word, y: word, z: word)
    ensures Or(x, Or(y, z)) == Or(Or(x, y), z)
  {}

  function W32Not(a: u32): u32 { 4294967295 - a % 4294967296 }

  lemma W32NotIsNot(a: u32)
    ensures Word(W32Not(a)) == Not(Word(a))
  {
    hide Pow2, Bits;
    PowersOfTwo();
    ComplementNegates(32, a);
  }

  lemma {:induction false} ComplementNegates(n: nat, x: nat)
    requires x < Pow2(n)
    ensures Bits(n, Pow2(n) - 1 - x) == Negated(Bits(n, x))
  {
    if n > 0 {
      assert (Pow2(n) - 1 - x) / 2 == Pow2(n - 1) - 1 - x / 2;
      ComplementNegates(n - 1, x / 2);
    }
  }

  function W32Add(a: u32, b: u32): u32 { (a as nat + b) % 4294967296 }

  lemma W32AddIsAdd(a: u32, b: u32)
    ensures Word(W32Add(a, b)) == Add(Word(a), Word(b))
  {
    WordOfSum(a, b);
  }

  function XorAll(a: u32, rest: seq<u32>): word {
    if rest == [] then Word(a) else Xor(XorAll(a, rest[..|rest| - 1]), Word(rest[|rest| - 1]))
  }

  function AddAll(a: u32, rest: seq<u32>): word {
    if rest == [] then Word(a) else Add(AddAll(a, rest[..|rest| - 1]), Word(rest[|rest| - 1]))
  }

  /** `w32_xor_n`: the four bytes of the result are kept apart until the end. */
  method W32XorN(a: u32, rest: seq<u32>) returns (r: u32)
    ensures Word(r) == XorAll(a, rest)
  {
    var x := W32ToBytes(a);
    BytesSplit(a);
    hide QuadGate, QuadBits, W32ToBytes, BytesToW32, Word, Bits, Pointwise;
    for i := 0 to |rest|
      invariant QuadBits(x) == XorAll(a, rest[..i])
    {
      BytesSplit(rest[i]);
      QuadGateIsPointwise(Parity, x, W32ToBytes(rest[i]));
      assert rest[..i + 1][..i] == rest[..i];
      x := QuadGate(Parity, x, W32ToBytes(rest[i]));
    }
    assert rest[..|rest|] == rest;
    r := BytesToW32(x.0, x.1, x.2, x.3);
    BytesJoined(x.0, x.1, x.2, x.3);
  }

  /** `w32_add_n`. */
  method W32AddN(a: u32, rest: seq<u32>) returns (r: u32)
    ensures Word(r) == AddAll(a, rest)
  {
    hide Word, Add;
    r := a;
    for i := 0 to |rest|
      invariant Word(r) == AddAll(a, rest[..i])
    {
      W32AddIsAdd(r, rest[i]);
      assert rest[..i + 1][..i] == rest[..i];
      r := (r as nat + rest[i]) % 4294967296;
    }
    assert rest[..|rest|] == rest;
  }

  /** `%x` and `%08x`. */
  function Digits(x: nat): (h: string)
    ensures |h| > 0
  {
    if x < 16 then [HexDigit(x)] else Digits(x / 16) + [HexDigit(x % 16)]
  }

  function W32ToHexString(w: u32): string {
    var d := Digits(w);
    if |d| >= 8 then d else seq(8 - |d|, _ => '0') + d
  }

  /** The last n hex digits of x. */
  function Fixed(n: nat, x: nat): (h: string)
    ensures |h| == n
  {
    if n == 0 then "" else Fixed(n - 1, x / 16) + [HexDigit(x % 16)]
  }

  lemma {:induction false} PrintedIsFixed(n: nat, x: nat)
    requires n > 0 && x < Pow2(4 * n)
    ensures |Digits(x)| <= n
    ensures Fixed(n, x) == seq(n - |Digits(x)|, _ => '0') + Digits(x)
  {
    if x < 16 {
      FixedZero(n - 1);
    } else {
      Pow2Sum(4, 4 * (n - 1));
      assert Pow2(4) == 16;
      PrintedIsFixed(n - 1, x / 16);
    }
  }

  lemma {:induction false} FixedZero(n: nat)
    ensures Fixed(n, 0) == seq(n, _ => '0')
  {
    if n > 0 { FixedZero(n - 1); }
  }

  lemma {:induction false} HexOfBits(n: nat, x: nat)
    ensures Hex(Bits(4 * n, x)) == Fixed(n, x)
  {
    if n > 0 {
      HexOfBits(n - 1, x / 16);
      LastDigit(n, x);
      hide Bits, Hex, HexDigit;
      HexAppend(Bits(4 * (n - 1), x / 16), x % 16);
    }
  }

  lemma LastDigit(n: nat, x: nat)
    requires n > 0
    ensures Bits(4 * n, x) == Bits(4 * (n - 1), x / 16) + Bits(4, x % 16)
  {
    assert Pow2(4) == 16;
    hide Bits, Pow2;
    var m := 4 * (n - 1);
    BitsConcat(m, 4, x / 16, x % 16);
    assert m + 4 == 4 * n && x / 16 * 16 + x % 16 == x;
  }

  lemma HexAppend(s: bits, d: nat)
    requires |s| % 4 == 0 && d < 16
    ensures Hex(s + Bits(4, d)) == Hex(s) + [HexDigit(d)]
  {
    assert Pow2(4) == 16;
    ValBits(4, d);
    var r := s + Bits(4, d);
    assert r[..|r| - 4] == s && r[|r| - 4..] == Bits(4, d);
    hide Bits, Val;
  }

  /** What is printed is the word in hex, eight digits. */
  lemma PrintedIsHex(w: u32)
    ensures W32ToHexString(w) == Hex(Word(w))
  {
    PowersOfTwo();
    PrintedIsFixed(8, w);
    HexOfBits(8, w);
  }
}
