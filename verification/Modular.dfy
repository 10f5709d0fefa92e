/** Remainders and powers of two. */
module Modular {

  lemma ModSum(x: int, y: int, m: nat)
    requires m > 0
    ensures (x % m + y % m) % m == (x + y) % m
  {
    ModAdd(x, y % m, m);
    ModAdd(y, x, m);
  }

  lemma ModAdd(x: int, y: int, m: nat)
    requires m > 0
    ensures (x % m + y) % m == (x + y) % m
  {
    var q := x / m;
    assert x == q * m + x % m;
    ModShift(x % m + y, q, m);
  }

  lemma {:induction false} ModShift(x: int, q: int, m: nat)
    requires m > 0
    ensures (x + q * m) % m == x % m
    decreases if q < 0 then -q else q
  {
    if q > 0 {
      ModShift(x, q - 1, m);
      ModStep(x + (q - 1) * m, m);
      assert x + (q - 1) * m + m == x + q * m;
    } else if q < 0 {
      ModShift(x, q + 1, m);
      ModStep(x + q * m, m);
      assert x + q * m + m == x + (q + 1) * m;
    }
  }

  lemma ModStep(x: int, m: nat)
    requires m > 0
    ensures (x + m) % m == x % m
  {
    var q, r := x / m, x % m;
    assert x + m == (q + 1) * m + r;
    Quotient(x + m, m, q + 1, r);
  }

  lemma Quotient(x: int, m: nat, q: int, r: int)
    requires m > 0 && 0 <= r < m && x == q * m + r
    ensures x / m == q && x % m == r
  {
    var q', r' := x / m, x % m;
    assert (q - q') * m == r' - r;
    assert q - q' >= 1 ==> (q - q') * m >= m;
    assert q' - q >= 1 ==> (q' - q) * m >= m;
  }

  lemma Divided(x: nat, k: nat, m: nat)
    requires k > 0 && m > 0
    ensures k * m > 0 && x / m / k == x / (k * m)
  {
    var q, a, b := x / m / k, x / m % k, x % m;
    Regrouped(q, k, a, m, b);
    Scaled(a + 1, k, m);
    Quotient(x, k * m, q, a * m + b);
  }

  lemma Regrouped(q: int, k: int, a: int, m: int, b: int)
    ensures (q * k + a) * m + b == q * (k * m) + (a * m + b)
  {}

  lemma Scaled(k: nat, q: nat, m: nat)
    requires k <= q
    ensures k * m <= q * m
  {}

  /** The digit at m of a number written to base k. */
  lemma Digit(n: nat, k: nat, m: nat)
    requires k > 0 && m > 0
    ensures k * m > 0
    ensures n % (k * m) / m == n / m % k
    ensures n % (k * m) % m == n % m
  {
    var q, a, b := n / m / k, n / m % k, n % m;
    Regrouped(q, k, a, m, b);
    Scaled(a + 1, k, m);
    Quotient(n, k * m, q, a * m + b);
    Quotient(a * m + b, m, a, b);
  }

  lemma DividesCombination(m: nat, x: int, c: int, y: int)
    requires m > 0 && x % m == 0
    ensures (c * x) % m == 0 && (y + c * x) % m == y % m
  {
    var q := x / m;
    assert c * x == (c * q) * m;
    ModShift(0, c * q, m);
    ModShift(y, c * q, m);
  }

  lemma ModDifference(x: int, y: int, m: nat)
    requires m > 0
    ensures x % m == y % m <==> (x - y) % m == 0
  {
    if x % m == y % m {
      assert x - y == (x / m - y / m) * m;
      ModShift(0, x / m - y / m, m);
    }
    if (x - y) % m == 0 {
      assert x == y + ((x - y) / m) * m;
      ModShift(y, (x - y) / m, m);
    }
  }

  function Pow2(n: nat): (r: nat)
    ensures r > 0
  {
    if n == 0 then 1 else 2 * Pow2(n - 1)
  }

  lemma PowersOfTwo()
    ensures Pow2(8) == 0x100
    ensures Pow2(16) == 0x1_0000
    ensures Pow2(24) == 0x100_0000
    ensures Pow2(32) == 0x1_0000_0000
  {}

  lemma {:induction false} Pow2Sum(m: nat, n: nat)
    ensures Pow2(m + n) == Pow2(m) * Pow2(n)
  {
    if m > 0 { Pow2Sum(m - 1, n); }
  }
}
