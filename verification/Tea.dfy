/** The block cipher XTEA as its authors define it (Needham and Wheeler, "Tea
    extensions", 1997): a Feistel network of half-rounds on words of bits. */
module Tea {
  import opened BitStrings

  const DELTA: nat := 0x9E3779B9

  /** (sqrt(5) - 1) * 2^31, rounded down. */
  lemma DeltaIsGolden()
    ensures var x := DELTA + 0x8000_0000;
      x * x <= 5 * 0x4000_0000_0000_0000 < (x + 1) * (x + 1)
  {}

  function ShiftLeft(n: nat, x: word): word
    requires n <= 32
  {
    x[n..] + Repeat(n, false)
  }

  function ShiftRight(n: nat, x: word): word
    requires n <= 32
  {
    Repeat(n, false) + x[..32 - n]
  }

  /** Four words. */
  type Schedule = k: seq<word> | |k| == 4 witness [Word(0), Word(0), Word(0), Word(0)]

  /** The running sum after n additions of the constant. */
  function Multiple(n: nat): word {
    if n == 0 then Word(0) else Add(Multiple(n - 1), Word(DELTA))
  }

  /** The number that two bits spell. */
  function Two(p: bool, q: bool): (n: nat)
    ensures n < 4
  {
    (if p then 2 else 0) + (if q then 1 else 0)
  }

  /** Subkeys take turns: the sum plus the key word chosen by bits 1 and 0 of the sum
      (the last two), then by its bits 12 and 11. */
  function Low(k: Schedule, sum: word): word { Add(sum, k[Two(sum[30], sum[31])]) }
  function High(k: Schedule, sum: word): word { Add(sum, k[Two(sum[19], sum[20])]) }

  function Subkey(k: Schedule, j: nat): word {
    var sum := Multiple((j + 1) / 2);
    if j % 2 == 0 then Low(k, sum) else High(k, sum)
  }

  /** (y << 4 ^ y >> 5) + y, exclusive-or'd with the subkey, is added to x. */
  function Half(x: word, y: word, subkey: word): word {
    var mixed := Add(XorBits(ShiftLeft(4, y), ShiftRight(5, y)), y);
    Add(x, XorBits(mixed, subkey))
  }

  /** n half-rounds; the words swap after each. */
  function Feistel(k: Schedule, n: nat, x: word, y: word): (word, word) {
    if n == 0 then (x, y)
    else
      var (l, r) := Feistel(k, n - 1, x, y);
      (r, Half(l, r, Subkey(k, n - 1)))
  }
}
