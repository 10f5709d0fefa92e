/** Which corruptions the checksum of PhoenixLibrary/Tools.cpp detects. */
module ErrorDetection {
  import opened Machine
  import opened Modular
  import opened Adler32

  lemma NoByteDivides(d: nat)
    requires 2 <= d < 0x100
    ensures BASE % d != 0
  {}

  ghost predicate Prime(n: nat) {
    n >= 2 && forall d :: 2 <= d < n ==> n % d != 0
  }

  /** The base of RFC 1950, section 8.2: the largest prime below 65536. */
  lemma LargestPrime()
    ensures BASE < 0x1_0000 && Prime(BASE)
    ensures forall n :: BASE < n < 0x1_0000 ==> !Prime(n)
  {
    forall d | 2 <= d < BASE
      ensures BASE % d != 0
    {
      if d < 0x100 {
        NoByteDivides(d);
      } else {
        forall q | 2 <= q < 0x100 ensures BASE % q != 0 { NoByteDivides(q); }
        NoCofactor(BASE, d);
      }
    }
    forall n | BASE < n < 0x1_0000
      ensures !Prime(n)
    {
      var d := SmallDivisor(n);
    }
  }

  /** A divisor of two bytes has a cofactor of one byte, which would divide too. */
  lemma NoCofactor(n: nat, d: nat)
    requires 0x100 <= d < n < 0x1_0000
    requires forall q :: 2 <= q < 0x100 ==> n % q != 0
    ensures n % d != 0
  {
    if n % d == 0 {
      Cofactor(n, d, n / d);
    }
  }

  lemma Cofactor(n: nat, d: nat, q: nat)
    requires 0x100 <= d < n < 0x1_0000 && n == q * d
    ensures 2 <= q < 0x100 && n % q == 0
  {
    Scaled(0x100, d, q);
    assert 0x100 * q <= n && q >= 2;
    Quotient(n, q, d, 0);
  }

  lemma SmallDivisor(n: nat) returns (d: nat)
    requires BASE < n < 0x1_0000
    ensures 2 <= d < 0x100 && n % d == 0
  {
    d := if n == 65523 || n == 65529 || n == 65535 then 3
      else if n == 65525 then 5
      else if n == 65527 then 7
      else if n == 65531 then 19
      else if n == 65533 then 13 else 2;
  }

  lemma Expand(b: int, q: int, d: int, r: int, k: int)
    requires b == q * d + r
    ensures k * b + (-q) * (d * k) == r * k
  {}

  lemma RemainderTimes(d: nat, k: nat)
    requires d > 0 && (d * k) % BASE == 0
    ensures ((BASE % d) * k) % BASE == 0
  {
    var q, r := BASE / d, BASE % d;
    Expand(BASE, q, d, r, k);
    DividesCombination(BASE, d * k, -q, k * BASE);
    ModShift(0, k, BASE);
  }

  /** The part of the primality of BASE that is needed: Euclid's descent on d. */
  lemma {:induction false} NotMultiple(d: nat, k: nat)
    requires 0 < d < 0x100 && 0 < k < BASE
    ensures (d * k) % BASE != 0
    decreases d
  {
    if d > 1 && (d * k) % BASE == 0 {
      NoByteDivides(d);
      RemainderTimes(d, k);
      NotMultiple(BASE % d, k);
    }
  }

  lemma OneMore(m: int, d: int)
    ensures (m + 1) * d == m * d + d
  {}

  lemma {:induction false} SumUpdate(s: bytes, i: nat, v: u8)
    requires i < |s|
    ensures Sum(s[i := v]) == Sum(s) + (v - s[i])
    ensures SumOfSums(s[i := v]) == SumOfSums(s) + (|s| - i) * (v - s[i])
  {
    var n, t := |s|, s[i := v];
    if i == n - 1 {
      assert t[..n - 1] == s[..n - 1];
    } else {
      assert t[..n - 1] == s[..n - 1][i := v];
      SumUpdate(s[..n - 1], i, v);
      OneMore(n - 1 - i, v - s[i]);
    }
  }

  lemma ChecksumHalves(x: bytes)
    requires 1 <= |x| <= MAX_PACKET
    ensures Checksum(x) % 0x1_0000 == RawA(1, x) % BASE
    ensures Checksum(x) / 0x1_0000 == (|x| + SumOfSums(x)) % BASE
  {
    hide Rfc, RawB, SumOfSums;
    DeferredModulo(1, 0, x);
    RawBClosed(1, 0, x);
    WordOfHalves(RawA(1, x) % BASE, RawB(1, 0, x) % BASE);
  }

  lemma WordOfHalves(a: nat, b: nat)
    requires a < 0x1_0000
    ensures (b * 0x1_0000 + a) % 0x1_0000 == a && (b * 0x1_0000 + a) / 0x1_0000 == b
  {}

  /** Equal checksums, on the lengths the code serves, are two congruences. */
  lemma SameChecksum(x: bytes, y: bytes)
    requires |x| == |y| && 1 <= |x| <= MAX_PACKET
    ensures Checksum(x) == Checksum(y) <==>
      (Sum(x) - Sum(y)) % BASE == 0 && (SumOfSums(x) - SumOfSums(y)) % BASE == 0
    ensures (Sum(x) - Sum(y)) % BASE != 0 ==> Checksum(x) % 0x1_0000 != Checksum(y) % 0x1_0000
    ensures (SumOfSums(x) - SumOfSums(y)) % BASE != 0 ==> Checksum(x) / 0x1_0000 != Checksum(y) / 0x1_0000
  {
    ChecksumHalves(x);
    ChecksumHalves(y);
    ModDifference(RawA(1, x), RawA(1, y), BASE);
    ModDifference(|x| + SumOfSums(x), |y| + SumOfSums(y), BASE);
  }

  lemma SmallMultiple(d: int)
    requires -510 <= d <= 510 && d % BASE == 0
    ensures d == 0
  {}

  lemma NotMultipleSigned(d: int, k: int)
    requires d != 0 && k != 0 && -0x100 < d < 0x100 && -(BASE as int) < k < BASE
    ensures (d * k) % BASE != 0
  {
    var dd: nat, kk: nat := if d < 0 then -d else d, if k < 0 then -k else k;
    NotMultiple(dd, kk);
    assert dd * kk == d * k || d * k == -1 * (dd * kk);
    assert dd * kk == d * k || dd * kk == -1 * (d * k);
    if (d * k) % BASE == 0 { DividesCombination(BASE, d * k, -1, 0); }
  }

  /** One changed byte changes both halves of the checksum. */
  lemma OneChange(x: bytes, i: nat, v: u8)
    requires i < |x| <= MAX_PACKET && v != x[i]
    ensures Checksum(x[i := v]) % 0x1_0000 != Checksum(x) % 0x1_0000
    ensures Checksum(x[i := v]) / 0x1_0000 != Checksum(x) / 0x1_0000
  {
    var d := v - x[i];
    SumUpdate(x, i, v);
    SameChecksum(x[i := v], x);
    NotMultipleSigned(d, |x| - i);
    assert (|x| - i) * d == d * (|x| - i);
    if d % BASE == 0 { SmallMultiple(d); }
  }

  lemma Weighted(m: int, n: int, d: int)
    ensures m * d + n * (-d) == d * (m - n)
  {}

  /** Two changed bytes, transpositions included, change the checksum. */
  lemma TwoChanges(x: bytes, i: nat, v: u8, j: nat, w: u8)
    requires i < j < |x| <= MAX_PACKET && v != x[i] && w != x[j]
    ensures Checksum(x[i := v][j := w]) != Checksum(x)
  {
    var y := x[i := v];
    var z := y[j := w];
    var d, e := v - x[i], w - x[j];
    SumUpdate(x, i, v);
    SumUpdate(y, j, w);
    SameChecksum(z, x);
    if Checksum(z) == Checksum(x) {
      assert Sum(z) - Sum(x) == d + e;
      SmallMultiple(d + e);
      Weighted(|x| - i, |x| - j, d);
      NotMultipleSigned(d, j - i);
    }
  }

  /** Strings of one length at distance 1 or 2 are one or two updates apart. */
  lemma TwoPositions<T>(x: seq<T>, y: seq<T>) returns (i: nat, j: nat)
    requires |x| == |y| && 1 <= Distance(x, y) <= 2
    ensures i <= j < |x|
    ensures x[i] != y[i] && x[j] != y[j]
    ensures y == x[i := y[i]][j := y[j]]
  {
    var d := Differences(x, y);
    i :| i in d;
    var rest := d - {i};
    if rest == {} {
      j := i;
      assert d == {i};
    } else {
      j :| j in rest;
      assert |rest - {j}| == 0;
      assert d == {i, j};
    }
    forall k: nat | k < |x| && k != i && k != j ensures x[k] == y[k] { assert k !in d; }
    if j < i { i, j := j, i; }
  }

  /** Any two strings of one served length at distance 1 or 2 have different
      checksums. */
  lemma CloseStringsDiffer(x: bytes, y: bytes)
    requires |x| == |y| && 1 <= |x| <= MAX_PACKET
    requires 1 <= Distance(x, y) <= 2
    ensures Checksum(x) != Checksum(y)
  {
    var i, j := TwoPositions(x, y);
    if i == j {
      assert y == x[i := y[i]];
      OneChange(x, i, y[i]);
    } else {
      TwoChanges(x, i, y[i], j, y[j]);
    }
  }

  /** The served lengths are exactly those on which close strings differ. */
  lemma ServedLengthsAreExact(n: nat)
    requires n > 0
    ensures (forall x: bytes, y: bytes | |x| == |y| == n && 1 <= Distance(x, y) <= 2 :: Checksum(x) != Checksum(y))
      <==> n <= 0x7fff
  {
    if n <= MAX_PACKET {
      forall x: bytes, y: bytes | |x| == |y| == n && 1 <= Distance(x, y) <= 2
        ensures Checksum(x) != Checksum(y)
      {
        CloseStringsDiffer(x, y);
      }
    } else {
      var x := Zeros(n);
      var y := x[0 := 1];
      assert Differences(x, y) == {0};
      assert Checksum(x) == Checksum(y) == 0;
    }
  }

  /** What follows the outer length on the wire: checksum word, then payload. */
  function Codeword(payload: bytes): bytes {
    LE32(Checksum(payload)) + payload
  }

  /** The client's comparison (PhoenixLibrary/NetworkConnection.cpp:99-101 and
      Plugin_InterserverClient/InterserverClient.cpp:376-378) on what follows the
      outer length. */
  ghost predicate GateAccepts(body: bytes)
    requires |body| >= 4
  {
    FromLE32(body[..4]) == Checksum(body[4..])
  }

  lemma GateAcceptsExactlyCodewords(body: bytes)
    requires |body| >= 4
    ensures GateAccepts(body) <==> body == Codeword(body[4..])
  {
    LE32Inverse(body[..4]);
    assert body == body[..4] + body[4..];
    assert Codeword(body[4..])[..4] == LE32(Checksum(body[4..]));
  }

  /** A changed byte of the checksum word leaves one half of it alone. */
  lemma WordHalves(s: bytes, i: nat, v: u8)
    requires |s| == 4 && i < 4
    ensures i < 2 ==> FromLE32(s[i := v]) / 0x1_0000 == FromLE32(s) / 0x1_0000
    ensures i >= 2 ==> FromLE32(s[i := v]) % 0x1_0000 == FromLE32(s) % 0x1_0000
  {
    var t := s[i := v];
    LE32Halves(s);
    LE32Halves(t);
    if i < 2 { assert t[2..] == s[2..]; } else { assert t[..2] == s[..2]; }
  }

  /** Every corruption of one or two bytes, anywhere in checksum and payload, is
      rejected. */
  lemma CorruptionRejected(payload: bytes, body: bytes)
    requires |payload| <= MAX_PACKET && |body| == |payload| + 4
    requires 1 <= Distance(Codeword(payload), body) <= 2
    ensures !GateAccepts(body)
  {
    var sent := Codeword(payload);
    var i, j := TwoPositions(sent, body);
    var word, data := body[..4], body[4..];
    assert sent[..4] == LE32(Checksum(payload)) && sent[4..] == payload;
    if i >= 4 {
      assert word == sent[..4];
      assert data == payload[i - 4 := body[i]][j - 4 := body[j]];
      if i == j { assert data == payload[i - 4 := body[i]]; OneChange(payload, i - 4, body[i]); }
      else { TwoChanges(payload, i - 4, body[i], j - 4, body[j]); }
    } else if j >= 4 {
      assert word == sent[..4][i := body[i]];
      assert data == payload[j - 4 := body[j]];
      WordHalves(sent[..4], i, body[i]);
      OneChange(payload, j - 4, body[j]);
    } else {
      assert data == payload;
      LE32Inverse(word);
      assert word[i] != sent[..4][i];
    }
  }

  lemma SmallSums(a: u8, b: u8, c: u8)
    ensures Sum([a, b, c]) == a + b + c
    ensures SumOfSums([a, b, c]) == 3 * (a as int) + 2 * (b as int) + c
  {
    assert [a, b, c][..2] == [a, b] && [a, b][..1] == [a] && [a][..0] == [];
    assert Sum([a]) == a && SumOfSums([a]) == a;
    assert Sum([a, b]) == a + b && SumOfSums([a, b]) == 2 * (a as int) + b;
  }

  /** The distance is exactly 3: three changed bytes can go unnoticed. */
  lemma ThreeChangesCanPass()
    ensures Distance(Codeword([1, 0, 1]), Codeword([0, 2, 0])) == 3
    ensures GateAccepts(Codeword([0, 2, 0]))
  {
    var x: bytes, y: bytes := [1, 0, 1], [0, 2, 0];
    SmallSums(1, 0, 1);
    SmallSums(0, 2, 0);
    SameChecksum(x, y);
    assert Differences(Codeword(x), Codeword(y)) == {4, 5, 6} by {
      assert Codeword(x)[..4] == Codeword(y)[..4];
    }
    assert |{4, 5, 6}| == 3;
    assert Codeword(y)[4..] == y;
    GateAcceptsExactlyCodewords(Codeword(y));
  }
}
