/** Powers of two and bit lengths. */
module Bits {

  function Pow2(n: nat): (r: nat)
    ensures r > 0
  {
    if n == 0 then 1 else 2 * Pow2(n - 1)
  }

  /** `int.bit_length` of a non-negative integer. */
  function BitLength(n: nat): nat {
    if n == 0 then 0 else 1 + BitLength(n / 2)
  }

  function Abs(x: int): nat {
    if x < 0 then -x else x
  }

  lemma {:induction false} Pow2Add(a: nat, b: nat)
    ensures Pow2(a + b) == Pow2(a) * Pow2(b)
  {
    if a > 0 {
      Pow2Add(a - 1, b);
      MulAssoc(2, Pow2(a - 1), Pow2(b));
    }
  }

  lemma MulAssoc(a: int, b: int, c: int)
    ensures a * (b * c) == (a * b) * c
  {
  }

  lemma {:induction false} Pow2Monotone(a: nat, b: nat)
    requires a <= b
    ensures Pow2(a) <= Pow2(b)
    ensures a < b ==> 2 * Pow2(a) <= Pow2(b)
    decreases b
  {
    if a < b { Pow2Monotone(a, b - 1); }
  }

  lemma {:induction false} BitLengthBounds(n: nat)
    requires n > 0
    ensures BitLength(n) > 0 && Pow2(BitLength(n) - 1) <= n < Pow2(BitLength(n))
  {
    if n > 1 { BitLengthBounds(n / 2); }
  }

  /** The bit length of a positive integer is the one power-of-two interval it lies in. */
  lemma BitLengthUnique(n: nat, k: nat)
    requires n > 0 && (k > 0 ==> Pow2(k - 1) <= n) && n < Pow2(k)
    ensures BitLength(n) == k
  {
    BitLengthBounds(n);
    if BitLength(n) < k { Pow2Monotone(BitLength(n), k - 1); }
    if k < BitLength(n) { Pow2Monotone(k, BitLength(n) - 1); }
  }

  lemma Pow2Values()
    ensures Pow2(4) == 16 && Pow2(16) == 0x1_0000 && Pow2(32) == 0x1_0000_0000
    ensures Pow2(52) == 0x10_0000_0000_0000 && Pow2(53) == 0x20_0000_0000_0000
  {
    assert Pow2(4) == 16;
    Pow2Add(4, 4);
    Pow2Add(8, 8);
    Pow2Add(16, 16);
    Pow2Add(16, 4);
    Pow2Add(32, 20);
  }

  lemma MulMonotone(a: int, b: int, u: int)
    requires a <= b && u >= 0
    ensures a * u <= b * u
  {
  }

  lemma MulCommutes(a: int, b: int)
    ensures a * b == b * a
  {
  }

  lemma MulAtLeast(a: int, u: int)
    requires u > 0
    ensures a >= 1 ==> a * u >= u
    ensures a <= -1 ==> a * u <= -u
  {
  }

  lemma MulDistributes(a: int, b: int, u: int)
    ensures (a - b) * u == a * u - b * u
    ensures (a + b) * u == a * u + b * u
  {
  }

  /** Quotient and remainder are determined by the division equation. */
  lemma DivModOf(n: int, q: int, u: int, r: int)
    requires u > 0 && n == q * u + r && 0 <= r < u
    ensures n / u == q && n % u == r
  {
    var p := n / u;
    assert n == p * u + n % u;
    MulDistributes(q, p, u);
    MulAtLeast(q - p, u);
  }

  lemma QuotientBounds(n: int, u: int, lo: int, hi: int)
    requires u > 0 && lo * u <= n < hi * u
    ensures lo <= n / u < hi
  {
    var q := n / u;
    assert n == q * u + n % u;
    MulDistributes(q, lo, u);
    MulDistributes(q, hi, u);
    MulAtLeast(q - lo, u);
    MulAtLeast(q - hi, u);
  }

  function Quotient(n: nat, u: nat): (q: nat)
    requires u > 0
    ensures q == n / u
  {
    QuotientBounds(n, u, 0, n + 1);
    n / u
  }
}
