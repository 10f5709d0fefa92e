/** The block cipher of PhoenixLibrary/NetworkConnection.cpp: XTEA (Needham and
    Wheeler, "Tea extensions", 1997) over the words of a byte buffer. */
module Xtea {
  import opened Machine
  import opened Modular
  import B = BitStrings
  import Tea

  type Key = k: seq<u32> | |k| == 4 witness [0, 0, 0, 0]

  /** 0x61C88647 in the code, subtracted; minus that is the paper's constant. */
  const DELTA: u32 := 0x61C88647
  const PAPER_DELTA: u32 := Tea.DELTA
  const LAST_SUM: u32 := 0xC6EF3720

  /** Exclusive or of the n lowest binary digits. */
  function XorDigits(n: nat, x: nat, y: nat): (r: nat)
    ensures r < Pow2(n)
  {
    if n == 0 then 0 else (x + y) % 2 + 2 * XorDigits(n - 1, x / 2, y / 2)
  }

  function Xor(x: u32, y: u32): u32 {
    PowersOfTwo();
    XorDigits(32, x, y)
  }

  lemma ParityOfSum(x: nat, y: nat)
    ensures (x + y) % 2 == 1 <==> (x % 2 == 1) != (y % 2 == 1)
  {}

  lemma XorLast(a: B.bits, b: B.bits, p: bool, q: bool)
    requires |a| == |b|
    ensures B.XorBits(a + [p], b + [q]) == B.XorBits(a, b) + [p != q]
  {}

  /** It is the exclusive or of the binary digits one by one. */
  lemma {:induction false} XorIsBitwise(n: nat, x: nat, y: nat)
    ensures B.Bits(n, XorDigits(n, x, y)) == B.XorBits(B.Bits(n, x), B.Bits(n, y))
  {
    if n > 0 {
      var r := XorDigits(n - 1, x / 2, y / 2);
      XorIsBitwise(n - 1, x / 2, y / 2);
      B.LastBit(n, r, (x + y) % 2);
      B.LastBit(n, x / 2, x % 2);
      B.LastBit(n, y / 2, y % 2);
      assert XorDigits(n, x, y) == 2 * r + (x + y) % 2;
      hide XorDigits, Pow2, B.Bits;
      ParityOfSum(x, y);
      XorLast(B.Bits(n - 1, x / 2), B.Bits(n - 1, y / 2), x % 2 == 1, y % 2 == 1);
    }
  }

  /** (v << 4 ^ v >> 5) + v */
  function Mix(v: u32): u32 {
    Wrap32(Xor(Wrap32(v * 0x10), v / 0x20) + v)
  }

  /** In bits: shifted left by four and right by five, exclusive-or'd and added. */
  lemma MixBitByBit(v: u32)
    ensures B.Word(Mix(v))
      == B.Add(B.XorBits(Tea.ShiftLeft(4, B.Word(v)), Tea.ShiftRight(5, B.Word(v))), B.Word(v))
  {
    hide B.Bits, B.Add, XorDigits, B.XorBits;
    PowersOfTwo();
    ShiftLeft(v);
    ShiftRight(v);
    XorIsBitwise(32, Wrap32(v * 0x10), v / 0x20);
    B.WordOfSum(Xor(Wrap32(v * 0x10), v / 0x20), v);
  }

  /** The two shifts of `Mix` move the bits of v, zeros coming in. */
  lemma ShiftLeft(v: u32)
    ensures B.Bits(32, Wrap32(v * 0x10)) == B.Bits(32, v)[4..] + B.Repeat(4, false)
  {
    hide B.Bits, Pow2;
    Small();
    var a, b := v / 0x1000_0000, v % 0x1000_0000;
    Quotient(v * 0x10, 0x1_0000_0000, a, b * 0x10);
    B.BitsConcat(4, 28, a, b);
    B.BitsConcat(28, 4, b, 0);
    B.BitsOfZero(4);
  }

  lemma ShiftRight(v: u32)
    ensures B.Bits(32, v / 0x20) == B.Repeat(5, false) + B.Bits(32, v)[..27]
  {
    hide B.Bits, Pow2;
    Small();
    B.BitsConcat(27, 5, v / 0x20, v % 0x20);
    B.BitsConcat(5, 27, 0, v / 0x20);
    B.BitsOfZero(5);
  }

  lemma Small()
    ensures Pow2(4) == 0x10 && Pow2(5) == 0x20 && Pow2(27) == 0x800_0000 && Pow2(28) == 0x1000_0000
  {
    PowersOfTwo();
    Pow2Sum(24, 3);
    Pow2Sum(24, 4);
  }

  /** sum & 3 and (sum >> 11) & 3 select the key words. */
  function LowKey(k: Key, sum: u32): u32 { Wrap32(sum + k[sum % 4]) }
  function HighKey(k: Key, sum: u32): u32 { Wrap32(sum + k[sum / 0x800 % 4]) }

  lemma LastTwoBits(n: nat, x: nat)
    ensures B.Bits(n + 2, x)[n] <==> x / 2 % 2 == 1
    ensures B.Bits(n + 2, x)[n + 1] <==> x % 2 == 1
    ensures x % 4 == 2 * (x / 2 % 2) + x % 2
  {
    var s := B.Bits(n, x / 2 / 2);
    assert B.Bits(n + 1, x / 2) == s + [x / 2 % 2 == 1];
    assert B.Bits(n + 2, x) == s + [x / 2 % 2 == 1] + [x % 2 == 1];
  }

  lemma LowKeyBitByBit(k: Key, sum: u32)
    ensures B.Word(LowKey(k, sum)) == Tea.Low(Schedule(k), B.Word(sum))
  {
    hide B.Bits, B.Add;
    LastTwoBits(30, sum);
    B.WordOfSum(sum, k[sum % 4]);
  }

  lemma HighKeyBitByBit(k: Key, sum: u32)
    ensures B.Word(HighKey(k, sum)) == Tea.High(Schedule(k), B.Word(sum))
  {
    hide B.Bits, B.Add;
    HighBits(sum);
    LastTwoBits(19, sum / 0x800);
    B.WordOfSum(sum, k[sum / 0x800 % 4]);
  }

  lemma HighBits(x: u32)
    ensures B.Bits(32, x)[..21] == B.Bits(21, x / 0x800)
  {
    hide B.Bits, Pow2;
    assert Pow2(11) == 0x800 by { Eleven(); }
    B.BitsConcat(21, 11, x / 0x800, x % 0x800);
  }

  lemma Eleven()
    ensures Pow2(11) == 0x800
  {
    assert Pow2(8) == 0x100;
  }

  /** The key as four words of bits. */
  function Schedule(k: Key): Tea.Schedule { [B.Word(k[0]), B.Word(k[1]), B.Word(k[2]), B.Word(k[3])] }

  /** The Feistel half-round on one word, and its inverse. */
  function Add(v: u32, w: u32, subkey: u32): u32 { Wrap32(v + Xor(Mix(w), subkey)) }
  function Subtract(v: u32, w: u32, subkey: u32): u32 { Wrap32(v - Xor(Mix(w), subkey)) }

  lemma AddIsHalf(v: u32, w: u32, subkey: u32)
    ensures B.Word(Add(v, w, subkey)) == Tea.Half(B.Word(v), B.Word(w), B.Word(subkey))
  {
    hide B.Bits, B.Add, B.XorBits, XorDigits, Mix, Tea.ShiftLeft, Tea.ShiftRight;
    MixBitByBit(w);
    XorIsBitwise(32, Mix(w), subkey);
    B.WordOfSum(v, Xor(Mix(w), subkey));
  }

  datatype Block = Block(v0: u32, v1: u32, sum: u32)

  function Round(k: Key, b: Block): Block {
    var v0 := Add(b.v0, b.v1, LowKey(k, b.sum));
    var sum := Wrap32(b.sum - DELTA);
    var v1 := Add(b.v1, v0, HighKey(k, sum));
    Block(v0, v1, sum)
  }

  function RoundBack(k: Key, b: Block): Block {
    var v1 := Subtract(b.v1, b.v0, HighKey(k, b.sum));
    var sum := Wrap32(b.sum + DELTA);
    var v0 := Subtract(b.v0, v1, LowKey(k, sum));
    Block(v0, v1, sum)
  }

  function Rounds(k: Key, n: nat, b: Block): Block {
    if n == 0 then b else Round(k, Rounds(k, n - 1, b))
  }

  function RoundsBack(k: Key, n: nat, b: Block): Block {
    if n == 0 then b else RoundsBack(k, n - 1, RoundBack(k, b))
  }

  lemma WrapUndo(x: u32, y: u32)
    ensures Wrap32(Wrap32(x + y) - y) == x && Wrap32(Wrap32(x - y) + y) == x
  {
    ModAdd(x + y, -(y as int), 0x1_0000_0000);
    ModAdd(x - y, y, 0x1_0000_0000);
  }

  lemma HalfInverse(v: u32, w: u32, subkey: u32)
    ensures Subtract(Add(v, w, subkey), w, subkey) == v
    ensures Add(Subtract(v, w, subkey), w, subkey) == v
  {
    hide Mix, Xor, Wrap32;
    WrapUndo(v, Xor(Mix(w), subkey));
  }

  lemma RoundInverse(k: Key, b: Block)
    ensures RoundBack(k, Round(k, b)) == b
    ensures Round(k, RoundBack(k, b)) == b
  {
    hide Add, Subtract, LowKey, HighKey;
    var r, q := Round(k, b), RoundBack(k, b);
    HalfInverse(b.v1, r.v0, HighKey(k, r.sum));
    HalfInverse(b.v0, b.v1, LowKey(k, b.sum));
    HalfInverse(b.v1, b.v0, HighKey(k, b.sum));
    HalfInverse(b.v0, q.v1, LowKey(k, q.sum));
  }

  lemma {:induction false} RoundsInverse(k: Key, n: nat, b: Block)
    ensures RoundsBack(k, n, Rounds(k, n, b)) == b
    ensures Rounds(k, n, RoundsBack(k, n, b)) == b
  {
    hide Round, RoundBack;
    if n > 0 {
      RoundsInverse(k, n - 1, b);
      RoundInverse(k, Rounds(k, n - 1, b));
      RoundsInverse(k, n - 1, RoundBack(k, b));
      RoundInverse(k, b);
    }
  }

  lemma SumStep(x: int, y: int)
    ensures Wrap32(Wrap32(x) - DELTA) == Wrap32(x + PAPER_DELTA)
    ensures Wrap32(Wrap32(x + DELTA) - y) == Wrap32(x - PAPER_DELTA - y)
  {
    ModAdd(x, -(DELTA as int), 0x1_0000_0000);
    ModShift(x + PAPER_DELTA, -1, 0x1_0000_0000);
    ModAdd(x + DELTA, -y, 0x1_0000_0000);
    ModShift(x - PAPER_DELTA - y, 1, 0x1_0000_0000);
  }

  /** The running sum is a multiple of the paper's constant, whatever the block. */
  lemma {:induction false} SumAfter(k: Key, n: nat, b: Block)
    requires b.sum == 0
    ensures Rounds(k, n, b).sum == Wrap32(n * PAPER_DELTA)
  {
    hide Add, LowKey, HighKey;
    if n > 0 {
      SumAfter(k, n - 1, b);
      SumStep((n - 1) * PAPER_DELTA, 0);
    }
  }

  /** The two directions meet: `encrypt` ends where `decrypt` begins. */
  lemma SumsMeet(k: Key, v0: u32, v1: u32)
    ensures Rounds(k, 32, Block(v0, v1, 0)).sum == LAST_SUM
    ensures RoundsBack(k, 32, Block(v0, v1, LAST_SUM)).sum == 0
  {
    hide Rounds, RoundsBack;
    SumAfter(k, 32, Block(v0, v1, 0));
    SumBack(k, 32, Block(v0, v1, LAST_SUM));
  }

  lemma {:induction false} SumBack(k: Key, n: nat, b: Block)
    ensures RoundsBack(k, n, b).sum == Wrap32(b.sum - n * PAPER_DELTA)
  {
    hide Subtract, LowKey, HighKey;
    if n > 0 {
      SumBack(k, n - 1, RoundBack(k, b));
      SumStep(b.sum, (n - 1) * PAPER_DELTA);
    }
  }

  function Encipher(k: Key, v0: u32, v1: u32): Block { Rounds(k, 32, Block(v0, v1, 0)) }
  function Decipher(k: Key, v0: u32, v1: u32): Block { RoundsBack(k, 32, Block(v0, v1, LAST_SUM)) }

  lemma {:induction false} MultipleInBits(n: nat)
    ensures B.Word(Wrap32(n * PAPER_DELTA)) == Tea.Multiple(n)
  {
    hide B.Bits, B.Add;
    if n > 0 {
      MultipleInBits(n - 1);
      B.WordOfSum(Wrap32((n - 1) * PAPER_DELTA), PAPER_DELTA);
      ModAdd((n - 1) * PAPER_DELTA, PAPER_DELTA, 0x1_0000_0000);
    }
  }

  /** A round of the code is two half-rounds of the paper, and its running sum gives
      the paper's subkeys. */
  lemma {:induction false} RoundsAreFeistel(k: Key, n: nat, v0: u32, v1: u32)
    ensures var b := Rounds(k, n, Block(v0, v1, 0));
      Tea.Feistel(Schedule(k), 2 * n, B.Word(v0), B.Word(v1)) == (B.Word(b.v0), B.Word(b.v1))
  {
    hide Add, LowKey, HighKey, B.Bits, B.Word, Tea.Half, Tea.Low, Tea.High, Tea.Multiple, Schedule;
    if n > 0 {
      RoundsAreFeistel(k, n - 1, v0, v1);
      SumAfter(k, n - 1, Block(v0, v1, 0));
      SumAfter(k, n, Block(v0, v1, 0));
      MultipleInBits(n - 1);
      MultipleInBits(n);
      TwoHalves(k, n - 1, Rounds(k, n - 1, Block(v0, v1, 0)), B.Word(v0), B.Word(v1));
    }
  }

  lemma TwoHalves(k: Key, n: nat, b: Block, x: B.word, y: B.word)
    requires Tea.Feistel(Schedule(k), 2 * n, x, y) == (B.Word(b.v0), B.Word(b.v1))
    requires B.Word(b.sum) == Tea.Multiple(n) && B.Word(Round(k, b).sum) == Tea.Multiple(n + 1)
    ensures Tea.Feistel(Schedule(k), 2 * n + 2, x, y) == (B.Word(Round(k, b).v0), B.Word(Round(k, b).v1))
  {
    hide Add, LowKey, HighKey, B.Word, Tea.Half, Tea.Low, Tea.High, Tea.Multiple, Schedule;
    var r := Round(k, b);
    LowKeyBitByBit(k, b.sum);
    AddIsHalf(b.v0, b.v1, LowKey(k, b.sum));
    HighKeyBitByBit(k, r.sum);
    AddIsHalf(b.v1, r.v0, HighKey(k, r.sum));
    assert (2 * n + 1) / 2 == n && (2 * n + 2) / 2 == n + 1;
    assert Tea.Feistel(Schedule(k), 2 * n + 1, x, y) == (B.Word(b.v1), B.Word(r.v0));
  }

  /** 32 rounds of the code are the 64 half-rounds of the paper. */
  lemma EncipherIsXtea(k: Key, v0: u32, v1: u32)
    ensures (B.Word(Encipher(k, v0, v1).v0), B.Word(Encipher(k, v0, v1).v1))
      == Tea.Feistel(Schedule(k), 64, B.Word(v0), B.Word(v1))
  {
    hide Rounds, Tea.Feistel;
    RoundsAreFeistel(k, 32, v0, v1);
  }

  lemma CipherInverse(k: Key, v0: u32, v1: u32)
    ensures var e := Encipher(k, v0, v1); Decipher(k, e.v0, e.v1) == Block(v0, v1, 0)
    ensures var d := Decipher(k, v0, v1); Encipher(k, d.v0, d.v1) == Block(v0, v1, LAST_SUM)
  {
    hide Rounds, RoundsBack;
    SumsMeet(k, v0, v1);
    RoundsInverse(k, 32, Block(v0, v1, 0));
    RoundsInverse(k, 32, Block(v0, v1, LAST_SUM));
  }

  /** Functions whose values are blocks of eight bytes. */
  ghost predicate OnBlocks(f: bytes -> bytes) {
    forall s: bytes :: |f(s)| == 8
  }

  /** A region of memory, block by block. */
  function MapBlocks(f: bytes -> bytes, s: bytes): (r: bytes)
    requires OnBlocks(f) && |s| % 8 == 0
    ensures |r| == |s|
  {
    if s == [] then [] else MapBlocks(f, s[..|s| - 8]) + f(s[|s| - 8..])
  }

  lemma MapAppend(f: bytes -> bytes, s: bytes, block: bytes)
    requires OnBlocks(f) && |s| % 8 == 0 && |block| == 8
    ensures |s + block| % 8 == 0
    ensures MapBlocks(f, s + block) == MapBlocks(f, s) + f(block)
  {}

  lemma {:induction false} MapInverse(f: bytes -> bytes, g: bytes -> bytes, s: bytes)
    requires OnBlocks(f) && OnBlocks(g) && |s| % 8 == 0
    requires forall b: bytes | |b| == 8 :: g(f(b)) == b
    ensures MapBlocks(g, MapBlocks(f, s)) == s
  {
    MapNothing(f);
    MapNothing(g);
    hide MapBlocks;
    if s != [] {
      var front, last := s[..|s| - 8], s[|s| - 8..];
      assert s == front + last;
      MapInverse(f, g, front);
      MapAppend(f, front, last);
      MapAppend(g, MapBlocks(f, front), f(last));
    }
  }

  lemma MapNothing(f: bytes -> bytes)
    requires OnBlocks(f)
    ensures MapBlocks(f, []) == []
  {}

  /** Each block of the result is that block's own image. */
  lemma {:induction false} MapAt(f: bytes -> bytes, s: bytes, i: nat)
    requires OnBlocks(f) && |s| % 8 == 0 && 8 * i + 8 <= |s|
    ensures MapBlocks(f, s)[8 * i..8 * i + 8] == f(s[8 * i..8 * i + 8])
  {
    hide MapBlocks;
    var front, last := s[..|s| - 8], s[|s| - 8..];
    assert s == front + last;
    MapAppend(f, front, last);
    if 8 * i + 8 == |s| {
      BackPart(front, last, 8 * i, 8 * i + 8);
      BackPart(MapBlocks(f, front), f(last), 8 * i, 8 * i + 8);
      assert last[..8] == last && f(last)[..8] == f(last);
    } else {
      MapAt(f, front, i);
      FrontPart(front, last, 8 * i, 8 * i + 8);
      FrontPart(MapBlocks(f, front), f(last), 8 * i, 8 * i + 8);
    }
  }

  lemma {:induction false} MapPrefix(f: bytes -> bytes, s: bytes, e: nat)
    requires OnBlocks(f) && |s| % 8 == 0 && e % 8 == 0 && e <= |s|
    ensures MapBlocks(f, s)[..e] == MapBlocks(f, s[..e])
  {
    hide MapBlocks;
    if e < |s| {
      var front, last := s[..|s| - 8], s[|s| - 8..];
      assert s == front + last;
      MapAppend(f, front, last);
      MapPrefix(f, front, e);
      FrontPart(front, last, 0, e);
      FrontPart(MapBlocks(f, front), f(last), 0, e);
    } else {
      assert s[..e] == s;
    }
  }

  /** Memory with the blocks of from..p replaced. */
  function DoneUpTo(f: bytes -> bytes, m: bytes, from: nat, p: nat): (r: bytes)
    requires OnBlocks(f) && from <= p <= |m| && (p - from) % 8 == 0
    ensures |r| == |m|
  {
    Splice(m, from, MapBlocks(f, m[from..p]))
  }

  lemma DoneAround(f: bytes -> bytes, m: bytes, from: nat, p: nat)
    requires OnBlocks(f) && from <= p <= |m| && (p - from) % 8 == 0
    ensures DoneUpTo(f, m, from, p) == m[..from] + MapBlocks(f, m[from..p]) + m[p..]
  {
    hide MapBlocks, OnBlocks;
  }

  lemma DoneThere(f: bytes -> bytes, m: bytes, from: nat, p: nat)
    requires OnBlocks(f) && from <= p <= |m| && (p - from) % 8 == 0
    ensures DoneUpTo(f, m, from, p)[from..p] == MapBlocks(f, m[from..p])
  {}

  lemma NothingDone(f: bytes -> bytes, m: bytes, from: nat)
    requires OnBlocks(f) && from <= |m|
    ensures DoneUpTo(f, m, from, from) == m
  {}

  /** If the region is done up to p, one more block leaves it done up to p + 8. */
  lemma MapStep(f: bytes -> bytes, m: bytes, from: nat, p: nat)
    requires OnBlocks(f) && from <= p && p + 8 <= |m| && (p - from) % 8 == 0
    ensures var now := DoneUpTo(f, m, from, p);
      Splice(now, p, f(now[p..p + 8])) == DoneUpTo(f, m, from, p + 8)
  {
    hide Splice, MapBlocks;
    var done, block := m[from..p], m[p..p + 8];
    MapAppend(f, done, block);
    Cut(m, from, p, p + 8);
    SpliceElsewhere(m, from, MapBlocks(f, done), p, p + 8);
    SpliceTwice(m, from, MapBlocks(f, done), f(block));
  }

  function EncipherBlock(k: Key, s: bytes): (r: bytes)
    ensures |r| == 8
  {
    if |s| != 8 then Zeros(8)
    else
      var b := Encipher(k, FromLE32(s[..4]), FromLE32(s[4..]));
      LE32(b.v0) + LE32(b.v1)
  }

  /** The cipher as a function on blocks. */
  function EncipherWith(k: Key): (f: bytes -> bytes)
    ensures OnBlocks(f) && forall s: bytes :: f(s) == EncipherBlock(k, s)
  {
    (s: bytes) => EncipherBlock(k, s)
  }

  function DecipherBlock(k: Key, s: bytes): (r: bytes)
    ensures |r| == 8
  {
    if |s| != 8 then Zeros(8)
    else
      var b := Decipher(k, FromLE32(s[..4]), FromLE32(s[4..]));
      LE32(b.v0) + LE32(b.v1)
  }

  /** The cipher as a function on blocks. */
  function DecipherWith(k: Key): (f: bytes -> bytes)
    ensures OnBlocks(f) && forall s: bytes :: f(s) == DecipherBlock(k, s)
  {
    (s: bytes) => DecipherBlock(k, s)
  }

  lemma BlockInverse(k: Key, s: bytes)
    requires |s| == 8
    ensures DecipherBlock(k, EncipherBlock(k, s)) == s
    ensures EncipherBlock(k, DecipherBlock(k, s)) == s
  {
    hide Encipher, Decipher, LE32, FromLE32;
    var v0, v1 := FromLE32(s[..4]), FromLE32(s[4..]);
    CipherInverse(k, v0, v1);
    LE32Inverse(s[..4]);
    LE32Inverse(s[4..]);
    var e, d := EncipherBlock(k, s), DecipherBlock(k, s);
    assert e[..4] == LE32(Encipher(k, v0, v1).v0) && e[4..] == LE32(Encipher(k, v0, v1).v1);
    assert d[..4] == LE32(Decipher(k, v0, v1).v0) && d[4..] == LE32(Decipher(k, v0, v1).v1);
    assert s == s[..4] + s[4..];
  }

  /** Each direction undoes the other on every region of whole blocks. */
  lemma RegionInverse(k: Key, s: bytes)
    requires |s| % 8 == 0
    ensures MapBlocks(DecipherWith(k), MapBlocks(EncipherWith(k), s)) == s
    ensures MapBlocks(EncipherWith(k), MapBlocks(DecipherWith(k), s)) == s
  {
    hide EncipherBlock, DecipherBlock, EncipherWith, DecipherWith;
    forall b: bytes | |b| == 8
      ensures DecipherBlock(k, EncipherBlock(k, b)) == b && EncipherBlock(k, DecipherBlock(k, b)) == b
    {
      BlockInverse(k, b);
    }
    MapInverse(EncipherWith(k), DecipherWith(k), s);
    MapInverse(DecipherWith(k), EncipherWith(k), s);
  }

  /** The round loop of `encrypt`. */
  method EncryptBlock(k: Key, x: u32, y: u32) returns (v0: u32, v1: u32)
    ensures v0 == Encipher(k, x, y).v0 && v1 == Encipher(k, x, y).v1
  {
    hide Add, LowKey, HighKey;
    v0, v1 := x, y;
    var sum: u32 := 0;
    var i := 31;
    while i >= 0
      invariant -1 <= i <= 31
      invariant Block(v0, v1, sum) == Rounds(k, 31 - i, Block(x, y, 0))
    {
      v0 := Add(v0, v1, LowKey(k, sum));
      sum := Wrap32(sum - DELTA);
      v1 := Add(v1, v0, HighKey(k, sum));
      i := i - 1;
    }
  }

  /** The round loop of `decrypt`. */
  method DecryptBlock(k: Key, x: u32, y: u32) returns (v0: u32, v1: u32)
    ensures v0 == Decipher(k, x, y).v0 && v1 == Decipher(k, x, y).v1
  {
    hide Subtract, LowKey, HighKey;
    v0, v1 := x, y;
    var sum: u32 := LAST_SUM;
    var i := 31;
    while i >= 0
      invariant -1 <= i <= 31
      invariant RoundsBack(k, i + 1, Block(v0, v1, sum)) == Decipher(k, x, y)
    {
      v1 := Subtract(v1, v0, HighKey(k, sum));
      sum := Wrap32(sum + DELTA);
      v0 := Subtract(v0, v1, LowKey(k, sum));
      i := i - 1;
    }
  }

  /** memcpy of s to a + at. */
  method Store(a: array<u8>, at: nat, s: bytes)
    requires at + |s| <= a.Length
    modifies a
    ensures a[..] == Splice(old(a[..]), at, s)
  {
    forall k | 0 <= k < |s| {
      a[at + k] := s[k];
    }
  }

  /** One pass of the block loop of `encrypt`: two words at a + p. */
  method EncryptAt(k: Key, a: array<u8>, p: nat)
    requires p + 8 <= a.Length
    modifies a
    ensures a[..] == Splice(old(a[..]), p, EncipherBlock(k, old(a[..])[p..p + 8]))
  {
    hide Encipher, LE32, FromLE32;
    ghost var was, block := a[..], a[p..p + 8];
    var w0, w1 := a[p..p + 4], a[p + 4..p + 8];
    assert w0 == block[..4] && w1 == block[4..];
    var v0, v1 := EncryptBlock(k, FromLE32(w0), FromLE32(w1));
    Store(a, p, LE32(v0));
    Store(a, p + 4, LE32(v1));
    SpliceTwice(was, p, LE32(v0), LE32(v1));
  }

  /** The block loop of `encrypt`, over the words from a + from on. */
  method EncryptRegion(k: Key, a: array<u8>, from: nat, size: nat)
    requires from + size <= a.Length && size % 8 == 0
    modifies a
    ensures a[..] == DoneUpTo(EncipherWith(k), old(a[..]), from, from + size)
  {
    hide EncipherBlock, EncipherWith, DoneUpTo, Splice;
    var messageLength := size / 4;
    var readPos: nat := 0;
    ghost var was: bytes, p: nat, f := a[..], from, EncipherWith(k);
    NothingDone(f, was, from);
    while readPos < messageLength
      invariant readPos <= messageLength && readPos % 2 == 0
      invariant p == from + 4 * readPos && (p - from) % 8 == 0
      invariant a[..] == DoneUpTo(f, was, from, p)
    {
      MapStep(f, was, from, p);
      EncryptAt(k, a, from + 4 * readPos);
      p := p + 8;
      readPos := readPos + 2;
    }
  }

  /** One pass of the block loop of `decrypt`: two words at a + p. */
  method DecryptAt(k: Key, a: array<u8>, p: nat)
    requires p + 8 <= a.Length
    modifies a
    ensures a[..] == Splice(old(a[..]), p, DecipherBlock(k, old(a[..])[p..p + 8]))
  {
    hide Decipher, LE32, FromLE32;
    ghost var was, block := a[..], a[p..p + 8];
    var w0, w1 := a[p..p + 4], a[p + 4..p + 8];
    assert w0 == block[..4] && w1 == block[4..];
    var v0, v1 := DecryptBlock(k, FromLE32(w0), FromLE32(w1));
    Store(a, p, LE32(v0));
    Store(a, p + 4, LE32(v1));
    SpliceTwice(was, p, LE32(v0), LE32(v1));
  }

  /** The block loop of `decrypt`, over the words from a + from on. */
  method DecryptRegion(k: Key, a: array<u8>, from: nat, size: nat)
    requires from + size <= a.Length && size % 8 == 0
    modifies a
    ensures a[..] == DoneUpTo(DecipherWith(k), old(a[..]), from, from + size)
  {
    hide DecipherBlock, DecipherWith, DoneUpTo, Splice;
    var messageLength := size / 4;
    var readPos: nat := 0;
    ghost var was: bytes, p: nat, f := a[..], from, DecipherWith(k);
    NothingDone(f, was, from);
    while readPos < messageLength
      invariant readPos <= messageLength && readPos % 2 == 0
      invariant p == from + 4 * readPos && (p - from) % 8 == 0
      invariant a[..] == DoneUpTo(f, was, from, p)
    {
      MapStep(f, was, from, p);
      DecryptAt(k, a, from + 4 * readPos);
      p := p + 8;
      readPos := readPos + 2;
    }
  }
}
