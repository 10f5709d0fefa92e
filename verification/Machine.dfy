/** The machine integers of the wire code. They are ranges of `nat`, so every
    wrap-around of the original is written out with one of the Wrap functions. */
module Machine {
  import opened Modular


  datatype Option<+T> = None | Some(value: T)

  type u8 = x: nat | x < 0x100
  type u16 = x: nat | x < 0x1_0000
  type u32 = x: nat | x < 0x1_0000_0000
  type bytes = seq<u8>

  function Wrap16(x: int): u16 { x % 0x1_0000 }
  function Wrap32(x: int): u32 { x % 0x1_0000_0000 }
  /** Arithmetic on size_t. */
  function Wrap64(x: int): nat { x % 0x1_0000_0000_0000_0000 }

  /** Words in memory: least significant byte first. */
  function LE16(v: u16): (s: bytes)
    ensures |s| == 2 && FromLE16(s) == v
  {
    [v % 0x100, v / 0x100]
  }

  function FromLE16(s: bytes): u16
    requires |s| == 2
  {
    var lo: nat, hi: nat := s[0], s[1];
    lo + 0x100 * hi
  }

  function LE32(v: u32): (s: bytes)
    ensures |s| == 4 && FromLE32(s) == v
  {
    var s := LE16(v % 0x1_0000) + LE16(v / 0x1_0000);
    assert s[..2] == LE16(v % 0x1_0000) && s[2..] == LE16(v / 0x1_0000);
    s
  }

  function FromLE32(s: bytes): u32
    requires |s| == 4
  {
    var lo: nat, hi: nat := FromLE16(s[..2]), FromLE16(s[2..]);
    lo + 0x1_0000 * hi
  }

  lemma LE32Halves(s: bytes)
    requires |s| == 4
    ensures FromLE32(s) % 0x1_0000 == FromLE16(s[..2])
    ensures FromLE32(s) / 0x1_0000 == FromLE16(s[2..])
  {}

  lemma LE16Inverse(s: bytes)
    requires |s| == 2
    ensures LE16(FromLE16(s)) == s
  {
    var lo: nat, hi: nat := s[0], s[1];
    assert (lo + 0x100 * hi) / 0x100 == hi && (lo + 0x100 * hi) % 0x100 == lo;
  }

  /** Reading a word loses no byte. */
  lemma LE32Inverse(s: bytes)
    requires |s| == 4
    ensures LE32(FromLE32(s)) == s
  {
    LE32Halves(s);
    hide FromLE32, LE16, FromLE16;
    LE16Inverse(s[..2]);
    LE16Inverse(s[2..]);
    assert s == s[..2] + s[2..];
  }

  /** Least significant byte first. */
  lemma LeastFirst(v: u32, i: nat)
    requires i < 4
    ensures LE32(v)[i] == v / Pow2(8 * i) % 0x100
    ensures v < 0x1_0000 && i < 2 ==> LE16(v)[i] == v / Pow2(8 * i) % 0x100
  {
    PowersOfTwo();
    assert Pow2(0) == 1;
    Digit(v, 0x100, 0x100);
    Divided(v, 0x100, 0x1_0000);
  }

  function Zeros(n: nat): (s: bytes)
    ensures |s| == n && forall k :: 0 <= k < n ==> s[k] == 0
  {
    seq(n, _ => 0)
  }

  /** Memory m with s written at `at`. */
  function Splice<T>(m: seq<T>, at: nat, s: seq<T>): (r: seq<T>)
    requires at + |s| <= |m|
    ensures |r| == |m|
  {
    m[..at] + s + m[at + |s|..]
  }

  lemma SpliceTwice<T>(m: seq<T>, at: nat, s: seq<T>, t: seq<T>)
    requires at + |s| + |t| <= |m|
    ensures Splice(Splice(m, at, s), at + |s|, t) == Splice(m, at, s + t)
  {}

  lemma SpliceElsewhere<T>(m: seq<T>, at: nat, s: seq<T>, i: nat, j: nat)
    requires at + |s| <= |m| && i <= j <= |m| && (j <= at || at + |s| <= i)
    ensures Splice(m, at, s)[i..j] == m[i..j]
  {}

  lemma FrontPart<T>(x: seq<T>, y: seq<T>, i: nat, j: nat)
    requires i <= j <= |x|
    ensures (x + y)[i..j] == x[i..j]
  {}

  lemma BackPart<T>(x: seq<T>, y: seq<T>, i: nat, j: nat)
    requires |x| <= i <= j <= |x| + |y|
    ensures (x + y)[i..j] == y[i - |x|..j - |x|]
  {}

  lemma Cut<T>(m: seq<T>, i: nat, j: nat, k: nat)
    requires i <= j <= k <= |m|
    ensures m[i..k] == m[i..j] + m[j..k]
  {}

  /** In how many positions two strings of one length differ. */
  ghost function Differences<T>(x: seq<T>, y: seq<T>): set<nat>
    requires |x| == |y|
  {
    set k: nat | k < |x| && x[k] != y[k]
  }

  ghost function Distance<T>(x: seq<T>, y: seq<T>): nat
    requires |x| == |y|
  {
    |Differences(x, y)|
  }
}
