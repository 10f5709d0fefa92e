/** `adlerChecksum` of PhoenixLibrary/Tools.cpp, and section 8.2 of RFC 1950. */
module Adler32 {
  import opened Machine
  import opened Modular

  const BASE: nat := 65521
  const MAX_PACKET: nat := 0x7fff
  const CHUNK: nat := 5552

  /** Section 8.2 of RFC 1950: both sums are reduced after every byte. */
  function Rfc(a: nat, b: nat, s: bytes): (nat, nat) {
    if s == [] then (a, b)
    else
      var (pa, pb) := Rfc(a, b, s[..|s| - 1]);
      var na := (pa + s[|s| - 1]) % BASE;
      (na, (pb + na) % BASE)
  }

  /** The checksum the code promises: that of RFC 1950 on the lengths it
      serves, 0 on the others. */
  function Checksum(s: bytes): (r: u32)
  {
    if s == [] || |s| > MAX_PACKET then 0
    else
      RfcBelowBase(1, 0, s);
      var (a, b) := Rfc(1, 0, s);
      b * 0x1_0000 + a
  }

  lemma RfcBelowBase(a: nat, b: nat, s: bytes)
    requires a < BASE && b < BASE
    ensures Rfc(a, b, s).0 < BASE && Rfc(a, b, s).1 < BASE
  {}

  /** The sum of the bytes, and the sum of all its prefix sums. */
  function Sum(s: bytes): nat {
    if s == [] then 0 else Sum(s[..|s| - 1]) + s[|s| - 1]
  }

  function SumOfSums(s: bytes): nat {
    if s == [] then 0 else SumOfSums(s[..|s| - 1]) + Sum(s)
  }

  /** What the two accumulators hold when nothing is reduced. */
  function RawA(a: nat, s: bytes): nat { a + Sum(s) }
  function RawB(a: nat, b: nat, s: bytes): nat {
    if s == [] then b else RawB(a, b, s[..|s| - 1]) + RawA(a, s)
  }

  lemma {:induction false} RawBClosed(a: nat, b: nat, s: bytes)
    ensures RawB(a, b, s) == b + |s| * a + SumOfSums(s)
  {
    if s != [] {
      RawBClosed(a, b, s[..|s| - 1]);
      assert |s| * a == (|s| - 1) * a + a;
    }
  }

  lemma Step(a: nat, b: nat, s: bytes, x: u8)
    ensures RawA(a, s + [x]) == RawA(a, s) + x
    ensures RawB(a, b, s + [x]) == RawB(a, b, s) + RawA(a, s + [x])
    ensures var (pa, pb) := Rfc(a, b, s);
      Rfc(a, b, s + [x]) == ((pa + x) % BASE, (pb + (pa + x) % BASE) % BASE)
  {}

  /** Reducing once at the end of a chunk is reducing after every byte. */
  lemma {:induction false} DeferredModulo(a: nat, b: nat, s: bytes)
    requires a < BASE && b < BASE
    ensures Rfc(a, b, s) == (RawA(a, s) % BASE, RawB(a, b, s) % BASE)
  {
    if s != [] {
      var p, x := s[..|s| - 1], s[|s| - 1];
      assert s == p + [x];
      DeferredModulo(a, b, p);
      Step(a, b, p, x);
      ModAdd(RawA(a, p), x, BASE);
      ModSum(RawB(a, b, p), RawA(a, s), BASE);
    }
  }

  lemma {:induction false} RfcConcat(a: nat, b: nat, s: bytes, t: bytes)
    ensures Rfc(a, b, s + t) == Rfc(Rfc(a, b, s).0, Rfc(a, b, s).1, t)
  {
    if t == [] {
      assert s + t == s;
    } else {
      RfcConcat(a, b, s, t[..|t| - 1]);
      assert (s + t)[..|s + t| - 1] == s + t[..|t| - 1];
    }
  }

  /** A chunk of n bytes never pushes the second accumulator out of 32 bits. */
  ghost predicate NeverWraps(n: nat) {
    forall a: nat, b: nat, s: bytes | a < BASE && b < BASE && |s| == n :: RawB(a, b, s) < 0x1_0000_0000
  }

  lemma {:induction false} SumBounds(s: bytes)
    ensures Sum(s) <= 255 * |s|
    ensures 2 * SumOfSums(s) <= 255 * (|s| * (|s| + 1))
    ensures (forall k :: 0 <= k < |s| ==> s[k] == 255) ==>
      Sum(s) == 255 * |s| && 2 * SumOfSums(s) == 255 * (|s| * (|s| + 1))
  {
    if s != [] {
      SumBounds(s[..|s| - 1]);
      var n := |s|;
      assert (n - 1) * n + 2 * n == n * (n + 1);
    }
  }

  lemma RawBounds(a: nat, b: nat, s: bytes)
    requires a < BASE && b < BASE && |s| <= CHUNK
    ensures RawA(a, s) < 0x1_0000_0000 && RawB(a, b, s) < 0x1_0000_0000
  {
    SumBounds(s);
    RawBClosed(a, b, s);
    Product(|s|, |s| + 1, CHUNK, CHUNK + 1);
    Product(|s|, a, CHUNK, BASE - 1);
  }

  lemma Product(x: nat, y: nat, xx: nat, yy: nat)
    requires x <= xx && y <= yy
    ensures x * y <= xx * yy
  {}

  /** The chunk length of the code is the largest safe one. */
  lemma ChunkLengthIsTight(n: nat)
    ensures NeverWraps(n) <==> n <= CHUNK
  {
    if n <= CHUNK {
      forall a: nat, b: nat, s: bytes | a < BASE && b < BASE && |s| == n
        ensures RawB(a, b, s) < 0x1_0000_0000
      {
        RawBounds(a, b, s);
      }
    } else {
      var s: bytes := seq(n, _ => 255);
      SumBounds(s);
      RawBClosed(BASE - 1, BASE - 1, s);
      Product(CHUNK + 1, CHUNK + 2, n, n + 1);
      Product(CHUNK + 1, BASE - 1, n, BASE - 1);
      assert RawB(BASE - 1, BASE - 1, s) >= 0x1_0000_0000;
    }
  }

  /** The inner loop: n bytes are added without reducing. */
  method AddChunk(data: array<u8>, p: nat, n: nat, a0: u32, b0: u32) returns (a: u32, b: u32)
    requires p + n <= data.Length && 0 < n <= CHUNK
    requires a0 < BASE && b0 < BASE
    ensures a == RawA(a0, data[p..p + n]) && b == RawB(a0, b0, data[p..p + n])
  {
    a, b := a0, b0;
    ghost var chunk := data[p..p + n];
    var i, tmp := p, n;
    var more := true;
    while more
      invariant i + tmp == p + n && 0 <= tmp && p <= i
      invariant more <==> tmp > 0
      invariant a == RawA(a0, chunk[..i - p]) && b == RawB(a0, b0, chunk[..i - p])
      decreases tmp
    {
      assert chunk[..i + 1 - p] == chunk[..i - p] + [data[i]];
      Step(a0, b0, chunk[..i - p], data[i]);
      RawBounds(a0, b0, chunk[..i + 1 - p]);
      a := Wrap32(a + data[i]);
      i := i + 1;
      b := Wrap32(b + a);
      tmp := tmp - 1;
      more := tmp != 0;
    }
    assert chunk[..i - p] == chunk;
  }

  lemma ReducedOnce(a: nat, b: nat, s: bytes, i: nat, j: nat, k: nat)
    requires a < BASE && b < BASE && i <= j <= k <= |s| && (a, b) == Rfc(1, 0, s[i..j])
    ensures (RawA(a, s[j..k]) % BASE, RawB(a, b, s[j..k]) % BASE) == Rfc(1, 0, s[i..k])
  {
    hide Rfc, RawA, RawB;
    DeferredModulo(a, b, s[j..k]);
    RfcConcat(1, 0, s[i..j], s[j..k]);
    Cut(s, i, j, k);
  }

  /** `adlerChecksum(data + offset, length)`. */
  method AdlerChecksum(data: array<u8>, offset: nat, length: nat) returns (sum: u32)
    requires length <= MAX_PACKET ==> offset + length <= data.Length
    ensures length > 0x7fff ==> sum == 0
    ensures length <= 0x7fff ==> sum == Checksum(data[offset..offset + length])
  {
    if length > MAX_PACKET || length == 0 {
      return 0;
    }
    hide Rfc, RawA, RawB;
    assert data[offset..offset] == [];
    var a: u32, b: u32 := 1, 0;
    var left: nat, p: nat := length, offset;
    while left > 0
      invariant p + left == offset + length && offset <= p
      invariant a < BASE && b < BASE
      invariant (a, b) == Rfc(1, 0, data[offset..p])
    {
      var tmp := if left > CHUNK then CHUNK else left;
      left := left - tmp;
      ReducedOnce(a, b, data[..], offset, p, p + tmp);
      a, b := AddChunk(data, p, tmp, a, b);
      p := p + tmp;
      a, b := a % BASE, b % BASE;
    }
    sum := b * 0x1_0000 + a;   // b << 16 and a share no bit, so | adds them
  }
}
