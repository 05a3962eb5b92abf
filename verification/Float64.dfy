/**
 Integer-valued double arithmetic: a sum, difference or product of doubles is the
 exact integer rounded to the nearest double, ties to the even significand (section
 4.3.1 of IEEE 754).  The exponent range is not bounded.
 */
module Float64 {
  import opened Bits

  const TWO53 := 0x20_0000_0000_0000
  const TWO52 := 0x10_0000_0000_0000

  /** The unit in the last place of a double of the size of `n`, or 1 when that is smaller. */
  function Unit(n: nat): (u: nat)
    ensures u > 0
  {
    if BitLength(n) <= 53 then 1 else Pow2(BitLength(n) - 53)
  }

  function RoundNat(n: nat): int {
    var u := Unit(n);
    var q, r := n / u, n % u;
    if 2 * r < u || (2 * r == u && q % 2 == 0) then q * u else (q + 1) * u
  }

  function Round(x: int): int {
    if x < 0 then -RoundNat(-x) else RoundNat(x)
  }

  /** `x` is `m * 2^e` with a significand of at most 53 bits. */
  ghost predicate IsDouble(x: int) {
    exists m: int, e: nat :: Scaled(x, m, e)
  }

  ghost predicate Scaled(x: int, m: int, e: nat) {
    -TWO53 <= m <= TWO53 && x == m * Pow2(e)
  }

  /** The unit of `n` is a power of two, and its significand has at most 53 bits. */
  lemma Binade(n: nat) returns (k: nat)
    ensures Unit(n) == Pow2(k) && n / Unit(n) < TWO53
    ensures k == 0 || TWO52 <= n / Unit(n)
  {
    Pow2Values();
    var b := BitLength(n);
    if n > 0 { BitLengthBounds(n); }
    if b <= 53 {
      k := 0;
      Pow2Monotone(b, 53);
    } else {
      k := b - 53;
      Pow2Add(52, k);
      Pow2Add(53, k);
      QuotientBounds(n, Unit(n), TWO52, TWO53);
    }
  }

  lemma RoundNatIsDouble(n: nat)
    ensures IsDouble(RoundNat(n))
  {
    var k := Binade(n);
    var u := Unit(n);
    var q := n / u;
    assert Scaled(q * u, q, k);
    assert Scaled((q + 1) * u, q + 1, k);
  }

  lemma NegatedDouble(x: int)
    requires IsDouble(x)
    ensures IsDouble(-x)
  {
    var m, e :| Scaled(x, m, e);
    assert Scaled(-x, -m, e);
  }

  /** Rounding gives a double. */
  lemma RoundIsDouble(x: int)
    ensures IsDouble(Round(x))
  {
    RoundNatIsDouble(Abs(x));
    if x < 0 { NegatedDouble(RoundNat(-x)); }
  }

  /** From the bottom of the binade of `n` up, the doubles are multiples of its unit. */
  lemma DoublesAreMultiples(d: int, n: nat) returns (c: int)
    requires IsDouble(d) && (Unit(n) > 1 ==> d >= TWO52 * Unit(n))
    ensures d == c * Unit(n)
  {
    var u := Unit(n);
    var k := Binade(n);
    var m, e :| Scaled(d, m, e);
    if u == 1 {
      c := d;
    } else if e >= k {
      Pow2Add(e - k, k);
      MulAssoc(m, Pow2(e - k), u);
      c := m * Pow2(e - k);
    } else {
      Pow2Monotone(e, k);
      c := TWO52;
      MulMonotone(m, TWO53, Pow2(e));
    }
  }

  lemma RoundNatNearest(n: nat, d: int)
    requires IsDouble(d)
    ensures Abs(RoundNat(n) - n) <= Abs(d - n)
  {
    var k := Binade(n);
    var u := Unit(n);
    var q, r := n / u, n % u;
    assert n == q * u + r;
    MulDistributes(q, 1, u);
    if u == 1 || d >= TWO52 * u {
      var c := DoublesAreMultiples(d, n);
      if c <= q { MulMonotone(c, q, u); } else { MulMonotone(q + 1, c, u); }
    } else {
      MulMonotone(TWO52, q, u);
    }
  }

  /** No double is nearer to `x` than the one rounding picks. */
  lemma RoundNearest(x: int, d: int)
    requires IsDouble(d)
    ensures Abs(Round(x) - x) <= Abs(d - x)
  {
    if x < 0 {
      NegatedDouble(d);
      RoundNatNearest(-x, -d);
    } else {
      RoundNatNearest(x, d);
    }
  }

  /** Halfway between two doubles, the even significand wins. */
  lemma TiesToEven(n: nat)
    requires 2 * (n % Unit(n)) == Unit(n)
    ensures (RoundNat(n) / Unit(n)) % 2 == 0
  {
    hide Unit;
    var u := Unit(n);
    DivModOf((n / u) * u, n / u, u, 0);
    DivModOf((n / u + 1) * u, n / u + 1, u, 0);
  }

  /** Doubles round to themselves. */
  lemma RoundExact(x: int)
    requires IsDouble(x)
    ensures Round(x) == x
  {
    RoundNearest(x, x);
  }

  lemma SmallIsExact(x: int)
    requires -TWO53 <= x <= TWO53
    ensures IsDouble(x) && Round(x) == x
  {
    assert Scaled(x, x, 0);
    RoundExact(x);
  }

  lemma RoundNegates(x: int)
    ensures Round(-x) == -Round(x)
  {
    if x == 0 { SmallIsExact(0); }
  }

  /** Rounding keeps the order. */
  lemma RoundMonotone(x: int, y: int)
    requires x <= y
    ensures Round(x) <= Round(y)
  {
    RoundIsDouble(x);
    RoundIsDouble(y);
    RoundNearest(x, Round(y));
    RoundNearest(y, Round(x));
  }

  /** Comparing a rounded count with a bound below 2^53 gives the exact answer. */
  lemma RoundKeepsComparison(x: nat, bound: real)
    requires bound < TWO53 as real
    ensures Round(x) as real <= bound <==> x as real <= bound
  {
    if x <= TWO53 {
      SmallIsExact(x);
    } else {
      RoundMonotone(TWO53, x);
      SmallIsExact(TWO53);
    }
  }

  /** Rounding is off by at most one part in 2^53. */
  lemma RoundError(n: nat)
    ensures Abs(RoundNat(n) - n) * TWO53 <= n
  {
    var k := Binade(n);
    var u := Unit(n);
    var q, r := n / u, n % u;
    assert n == q * u + r;
    MulDistributes(q, 1, u);
    hide Unit;
    var e := Abs(RoundNat(n) - n);
    assert 2 * e <= u;
    if u > 1 { MulMonotone(TWO52, q, u); }
  }

  /** Above 2^53 every second integer is a double; the odd ones go to the multiple of four. */
  lemma RoundNextBinade(x: int)
    requires TWO53 <= x < 2 * TWO53
    ensures Round(x) == if x % 2 == 0 then x else if x % 4 == 1 then x - 1 else x + 1
  {
    UnitNextBinade(x);
    hide Unit;
    assert x == 2 * (x / 2) + x % 2;
  }

  lemma UnitNextBinade(x: nat)
    requires TWO53 <= x < 2 * TWO53
    ensures Unit(x) == 2
  {
    Pow2Values();
    Pow2Add(53, 1);
    assert Pow2(1) == 2;
    hide Pow2, BitLength;
    BitLengthUnique(x, 54);
  }

  /** The same by the multiple of four and what is left over. */
  lemma RoundInFours(k: int, j: int)
    requires 0 <= j < 4 && TWO53 <= 4 * k + j < 2 * TWO53
    ensures Round(4 * k + j) == 4 * k + if j <= 1 then 0 else if j == 2 then 2 else 4
  {
    hide Round;
    var x := 4 * k + j;
    DivModOf(x, k, 4, j);
    DivModOf(x, 2 * k + j / 2, 2, j % 2);
    RoundNextBinade(x);
  }

  /** Above 2^54 every fourth integer is a double; halfway ones go to the multiple of eight. */
  lemma RoundBinadeAfter(x: int)
    requires 2 * TWO53 <= x < 4 * TWO53
    ensures Round(x) == if x % 4 == 0 then x
                        else if x % 4 == 1 then x - 1
                        else if x % 4 == 3 then x + 1
                        else if x % 8 == 2 then x - 2 else x + 2
  {
    UnitBinadeAfter(x);
    hide Unit;
    assert x == 4 * (x / 4) + x % 4;
  }

  lemma UnitBinadeAfter(x: nat)
    requires 2 * TWO53 <= x < 4 * TWO53
    ensures Unit(x) == 4
  {
    Pow2Values();
    Pow2Add(53, 1);
    Pow2Add(53, 2);
    assert Pow2(1) == 2 && Pow2(2) == 4;
    hide Pow2, BitLength;
    BitLengthUnique(x, 55);
  }

  /** From 2^54 on, the doubles are multiples of four. */
  lemma DoublesAboveAreFourfold(d: int)
    requires IsDouble(d) && d >= 2 * TWO53
    ensures d % 4 == 0
  {
    var m: int, e: nat :| Scaled(d, m, e);
    assert Pow2(0) == 1 && Pow2(1) == 2 && Pow2(2) == 4;
    if e >= 2 {
      Pow2Add(2, e - 2);
      FourTimes(m, Pow2(e - 2));
    }
  }

  lemma FourTimes(m: int, k: int)
    ensures (m * (4 * k)) % 4 == 0
  {
    assert m * (4 * k) == 4 * (m * k);
  }

  /** A double at least as large as 2^54 is also what its successor rounds to. */
  lemma SuccessorRoundsBack(d: int)
    requires IsDouble(d) && d >= 2 * TWO53
    ensures Round(d + 1) == d
  {
    hide Round, IsDouble;
    RoundNearest(d + 1, d);
    RoundIsDouble(d + 1);
    DoublesAboveAreFourfold(d);
    var r := Round(d + 1);
    RoundMonotone(d, d + 1);
    RoundExact(d);
    DoublesAboveAreFourfold(r);
  }
}
