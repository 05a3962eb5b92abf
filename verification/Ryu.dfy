/**
 The power-of-five tables behind the double-to-decimal conversion: each entry is a
 125-bit approximation of 5^i or of its reciprocal.  Everything here holds for every
 exponent, not only for those the tables store.
 */
module Ryu {
  import opened Bits

  const BITCOUNT := 125

  function Pow5(i: nat): (r: nat)
    ensures r > 0
  {
    if i == 0 then 1 else 5 * Pow5(i - 1)
  }

  /** `n << k` */
  function ShiftLeft(n: nat, k: nat): nat { n * Pow2(k) }

  /** `n >> k` */
  function ShiftRight(n: nat, k: nat): nat { Quotient(n, Pow2(k)) }

  /** `compute_pow5`: the leading 125 bits of 5^i. */
  function ComputePow5(i: nat): nat {
    var pow5 := Pow5(i);
    var shift: int := BitLength(pow5) - BITCOUNT;
    if shift > 0 then ShiftRight(pow5, shift)
    else if shift < 0 then ShiftLeft(pow5, -shift)
    else pow5
  }

  /** The exponent of the power of two that `compute_pow5_inv` divides by 5^i. */
  function InverseShift(i: nat): (j: nat)
    ensures j >= BITCOUNT
  {
    Pow5Positive(i);
    BITCOUNT + (BitLength(Pow5(i)) - 1)
  }

  /** `compute_pow5_inv`: 2^j / 5^i, rounded up. */
  function ComputePow5Inv(i: nat): nat {
    (ShiftLeft(1, InverseShift(i)) + Pow5(i) - 1) / Pow5(i)
  }

  /** `split128`: the low and the high word; masking and shifting floor for negative values too. */
  function Split128(v: int): (nat, nat) {
    (v % Pow2(64), (v / Pow2(64)) % Pow2(64))
  }

  lemma Pow5Positive(i: nat)
    ensures BitLength(Pow5(i)) >= 1
  {
    BitLengthBounds(Pow5(i));
  }

  // ----- the size of the entries

  /** Every entry of the first table has exactly 125 bits, so it fits in 128. */
  lemma Pow5EntryRange(i: nat)
    ensures Pow2(124) <= ComputePow5(i) < Pow2(125)
    ensures BitLength(ComputePow5(i)) == 125
  {
    var p, b := Pow5(i), BitLength(Pow5(i));
    BitLengthBounds(p);
    hide BitLength, Pow2, Pow5;
    if b > 125 {
      Pow2Add(124, b - 125);
      Pow2Add(125, b - 125);
      QuotientBounds(p, Pow2(b - 125), Pow2(124), Pow2(125));
    } else if b < 125 {
      Pow2Add(b - 1, 125 - b);
      Pow2Add(b, 125 - b);
      ScaledBounds(p, Pow2(b - 1), Pow2(b), Pow2(125 - b));
    }
    BitLengthUnique(ComputePow5(i), 125);
  }

  lemma ScaledBounds(p: nat, lo: nat, hi: nat, u: nat)
    requires lo <= p < hi && u > 0
    ensures lo * u <= p * u < hi * u
  {
    MulDistributes(p, lo, u);
    MulDistributes(hi, p, u);
    MulAtLeast(hi - p, u);
    MulAtLeast(p - lo, u);
  }

  /** The reciprocal entry times 5^i overshoots 2^j by less than 5^i. */
  lemma InverseError(i: nat) returns (e: nat)
    ensures ComputePow5Inv(i) * Pow5(i) == Pow2(InverseShift(i)) + e
    ensures e < Pow5(i)
  {
    hide Pow2, Pow5, InverseShift;
    CeilingDivision(Pow2(InverseShift(i)), Pow5(i));
    e := ComputePow5Inv(i) * Pow5(i) - Pow2(InverseShift(i));
  }

  lemma CeilingDivision(n: nat, d: nat)
    requires d > 0
    ensures n <= ((n + d - 1) / d) * d < n + d
  {
    var q := (n + d - 1) / d;
    assert n + d - 1 == q * d + (n + d - 1) % d;
  }

  lemma InverseShiftBits(i: nat) returns (b: nat)
    ensures b == BitLength(Pow5(i)) && b >= 1 && InverseShift(i) == 124 + b
    ensures Pow2(b - 1) <= Pow5(i) < Pow2(b)
    ensures Pow2(InverseShift(i)) == Pow2(124) * Pow2(b) == Pow2(125) * Pow2(b - 1)
  {
    b := BitLength(Pow5(i));
    BitLengthBounds(Pow5(i));
    Pow2Add(124, b);
    Pow2Add(125, b - 1);
  }

  /**
   Every entry of the second table lies above 2^124 and at most at 2^125, so it fits in
   128 bits.  It reaches 2^125 exactly when 5^i exceeds a power of two by less than one
   part in 2^125, as 5^0 does.
   */
  lemma InverseEntryRange(i: nat)
    ensures Pow2(124) < ComputePow5Inv(i) <= Pow2(125)
    ensures BitLength(ComputePow5Inv(i)) <= 128
    ensures BitLength(Pow5(i)) >= 1
    ensures ComputePow5Inv(i) == Pow2(125) <==>
            Pow2(125) * (Pow5(i) - Pow2(BitLength(Pow5(i)) - 1)) < Pow5(i)
  {
    var p, v := Pow5(i), ComputePow5Inv(i);
    var b := InverseShiftBits(i);
    var e := InverseError(i);
    hide BitLength, Pow2, Pow5, ComputePow5Inv, InverseShift;
    EntryBounds(v, p, e, Pow2(b - 1), Pow2(b), Pow2(124), Pow2(125));
    EntryBits(v);
  }

  lemma EntryBounds(v: nat, p: nat, e: nat, lo: nat, hi: nat, t124: nat, t125: nat)
    requires lo <= p < hi && t124 > 0 && e < p
    requires v * p == t124 * hi + e == t125 * lo + e
    ensures t124 < v <= t125
    ensures v == t125 <==> t125 * (p - lo) < p
  {
    EntryLower(v, p, e, hi, t124);
    EntryUpper(v, p, e, lo, t125);
    EntryAtTop(v, p, e, lo, t125);
  }

  lemma EntryLower(v: nat, p: nat, e: nat, hi: nat, t: nat)
    requires p < hi && t > 0 && v * p == t * hi + e
    ensures t < v
  {
    MulCommutes(t, hi);
    MulCommutes(t, p);
    MulDistributes(hi, p, t);
    MulAtLeast(hi - p, t);
    if v <= t { MulMonotone(v, t, p); }
  }

  lemma EntryUpper(v: nat, p: nat, e: nat, lo: nat, t: nat)
    requires lo <= p && e < p && v * p == t * lo + e
    ensures v <= t
  {
    MulCommutes(t, lo);
    MulCommutes(t, p);
    MulMonotone(lo, p, t);
    MulDistributes(t, 1, p);
    if v > t { MulMonotone(t + 1, v, p); }
  }

  lemma EntryAtTop(v: nat, p: nat, e: nat, lo: nat, t: nat)
    requires lo <= p && e < p && v * p == t * lo + e
    ensures v == t <==> t * (p - lo) < p
  {
    EntryUpper(v, p, e, lo, t);
    MulCommutes(t, p - lo);
    MulDistributes(p, lo, t);
    MulCommutes(t, lo);
    MulCommutes(t, p);
    MulDistributes(t, 1, p);
    if v < t { MulMonotone(v, t - 1, p); }
  }

  lemma EntryBits(v: nat)
    requires 0 < v <= Pow2(125)
    ensures BitLength(v) <= 128
  {
    BitLengthBounds(v);
    hide BitLength;
    Pow2Monotone(125, 126);
    if BitLength(v) > 128 { Pow2Monotone(126, BitLength(v) - 1); }
  }

  // ----- division by multiplication

  /** `mul_shift`: multiply by a table entry and keep the high part. */
  function MulShift(m: nat, entry: nat, j: nat): nat { ShiftRight(m * entry, j) }

  /**
   Multiplying by the reciprocal entry and shifting gives floor(m / 5^i) exactly when
   the error, m times over, does not carry the remainder past the divisor.
   */
  lemma DivisionExactlyWhen(i: nat, m: nat)
    ensures MulShift(m, ComputePow5Inv(i), InverseShift(i)) == m / Pow5(i) <==>
            (m % Pow5(i)) * Pow2(InverseShift(i)) +
            m * (ComputePow5Inv(i) * Pow5(i) - Pow2(InverseShift(i))) < Pow5(i) * Pow2(InverseShift(i))
  {
    var e := InverseError(i);
    hide Pow2, Pow5, ComputePow5Inv, InverseShift;
    ReciprocalDivision(m, Pow5(i), ComputePow5Inv(i), Pow2(InverseShift(i)), e);
  }

  lemma ReciprocalDivision(m: nat, p: nat, v: nat, t: nat, e: nat)
    requires p > 0 && t > 0 && v * p == t + e
    ensures (m * v) / t == m / p <==> (m % p) * t + m * e < p * t
  {
    var q, r := m / p, m % p;
    assert m == q * p + r;
    QuotientGap(m, p, v, t, e, q, r);
    var w := m * v - q * t;
    MulMonotone(0, r, t);
    MulMonotone(0, e, m);
    MulCommutes(m, e);
    MulCommutes(p, t);
    if w < 0 { MulAtLeast(w, p); }
    if w < t {
      MulMonotone(w, t - 1, p);
      MulDistributes(t, 1, p);
      DivModOf(m * v, q, t, w);
    } else {
      MulMonotone(t, w, p);
      assert m * v == ((m * v) / t) * t + (m * v) % t;
    }
  }

  /** What multiplying by the reciprocal leaves above q * 2^j, times the divisor. */
  lemma QuotientGap(m: nat, p: nat, v: nat, t: nat, e: nat, q: nat, r: nat)
    requires v * p == t + e && m == q * p + r
    ensures (m * v - q * t) * p == r * t + m * e
  {
    MulDistributes(m * v, q * t, p);
    MulAssoc(m, v, p);
    assert m * (v * p) == m * t + m * e;
    MulDistributes(q * p, r, t);
    assert (q * t) * p == (q * p) * t;
  }

  /** For every exponent and every multiplicand up to 2^124 the division is exact. */
  lemma DivisionByMultiplication(i: nat, m: nat)
    requires m <= Pow2(124)
    ensures MulShift(m, ComputePow5Inv(i), InverseShift(i)) == m / Pow5(i)
  {
    var e := InverseError(i);
    var b := InverseShiftBits(i);
    DivisionExactlyWhen(i, m);
    hide Pow2, Pow5, ComputePow5Inv, InverseShift, MulShift;
    SmallError(m, Pow5(i), e, Pow2(b), Pow2(124), Pow2(InverseShift(i)));
  }

  lemma SmallError(m: nat, p: nat, e: nat, hi: nat, bound: nat, t: nat)
    requires m <= bound && 0 < p < hi && e < p && t == bound * hi && bound > 0
    ensures (m % p) * t + m * e < p * t
  {
    var r := m % p;
    MulDistributes(bound, m, e);
    assert (bound - m) * e >= 0;
    MulDistributes(hi, e, bound);
    MulAtLeast(hi - e, bound);
    MulDistributes(p, r, t);
    MulAtLeast(p - r, t);
  }

  // ----- the two tables against each other and against 5^i

  lemma {:induction false} Pow5Odd(i: nat)
    ensures Pow5(i) % 2 == 1
  {
    if i > 0 {
      Pow5Odd(i - 1);
      var k := Pow5(i - 1) / 2;
      assert Pow5(i - 1) == 2 * k + 1;
      assert Pow5(i) == 2 * (5 * k + 2) + 1;
    }
  }

  /** An entry scaled back is 5^i itself exactly when no bits were shifted out. */
  lemma Pow5EntryExact(i: nat)
    ensures var shift: int := BitLength(Pow5(i)) - BITCOUNT;
            shift <= 0 <==>
            ComputePow5(i) * Pow2(if shift > 0 then shift else 0) == Pow5(i) * Pow2(if shift < 0 then -shift else 0)
  {
    var shift: int := BitLength(Pow5(i)) - BITCOUNT;
    assert Pow2(0) == 1;
    if shift > 0 {
      Pow5Odd(i);
      assert Pow2(shift) == 2 * Pow2(shift - 1);
      EvenProduct(ComputePow5(i), Pow2(shift - 1));
    }
  }

  lemma EvenProduct(a: nat, b: nat)
    ensures (a * (2 * b)) % 2 == 0
  {
    assert a * (2 * b) == 2 * (a * b);
  }

  /** The entries for one exponent are reciprocal to within one part in 2^124. */
  lemma EntriesReciprocal(i: nat)
    ensures Abs(ComputePow5(i) * ComputePow5Inv(i) - Pow2(249)) < Pow2(125)
  {
    var p, x, v := Pow5(i), ComputePow5(i), ComputePow5Inv(i);
    var b := InverseShiftBits(i);
    var e := InverseError(i);
    var u := EntryScaling(i);
    Pow5EntryRange(i);
    InverseEntryRange(i);
    hide BitLength, Pow2, Pow5, ComputePow5, ComputePow5Inv, InverseShift;
    if b <= 125 {
      Pow2Add(InverseShift(i), 125 - b);
      ScaledUpProduct(p, x, v, u, Pow2(InverseShift(i)), e, Pow2(125));
    } else {
      Pow2Add(125, b - 125);
      Pow2Add(249, b - 125);
      ScaledDownProduct(p, x, v, u, Pow2(249), e, Pow2(125));
    }
  }

  /** The power of two between 5^i and its entry. */
  lemma EntryScaling(i: nat) returns (u: nat)
    ensures var b := BitLength(Pow5(i));
            if b <= 125 then u == Pow2(125 - b) && ComputePow5(i) == Pow5(i) * u
            else u == Pow2(b - 125) && ComputePow5(i) == Pow5(i) / u
  {
    var b := BitLength(Pow5(i));
    assert Pow2(0) == 1;
    hide BitLength, Pow2, Pow5;
    u := if b <= 125 then Pow2(125 - b) else Pow2(b - 125);
  }

  lemma ScaledUpProduct(p: nat, x: nat, v: nat, u: nat, t: nat, e: nat, bound: nat)
    requires x == p * u && v * p == t + e && e < p && x < bound && u > 0
    ensures 0 <= x * v - t * u < bound
  {
    assert x * v == (v * p) * u;
    MulDistributes(t, e, u);
    MulDistributes(p, e, u);
    MulAtLeast(p - e, u);
    assert e * u >= 0;
  }

  lemma ScaledDownProduct(p: nat, x: nat, v: nat, s: nat, t: nat, e: nat, bound: nat)
    requires s > 0 && x == p / s && v * p == t * s + e && e < p < bound * s && v <= bound && bound > 0
    ensures Abs(x * v - t) < bound
  {
    var r, d := p % s, x * v - t;
    RemainderProduct(p, x, v, s, t, e, r);
    MulDistributes(d, bound, s);
    MulAtLeast(d - bound, s);
    MulAtLeast(d + bound, s);
    ProductBelow(v, r, bound, s);
  }

  lemma RemainderProduct(p: nat, x: nat, v: nat, s: nat, t: nat, e: nat, r: nat)
    requires p == x * s + r && v * p == t * s + e
    ensures (x * v - t) * s == e - v * r
  {
    assert v * p == v * (x * s) + v * r;
    assert v * (x * s) == (x * v) * s;
    MulDistributes(x * v, t, s);
  }

  lemma ProductBelow(v: nat, r: nat, bound: nat, s: nat)
    requires v <= bound && r < s && bound > 0
    ensures v * r < bound * s
  {
    MulDistributes(bound, v, r);
    assert (bound - v) * r >= 0;
    MulDistributes(s, r, bound);
    MulAtLeast(s - r, bound);
  }

  // ----- the stored form

  /** The two words give back the value exactly when it is a 128-bit unsigned integer. */
  lemma SplitRoundTrip(v: int)
    ensures var (lo, hi) := Split128(v);
            && lo < Pow2(64) && hi < Pow2(64)
            && (lo + ShiftLeft(hi, 64) == v <==> 0 <= v < Pow2(128))
  {
    Pow2Add(64, 64);
    hide Pow2;
    var w := Pow2(64);
    if 0 <= v < w * w { SplitLossless(v, w); }
    JoinedInRange(v % w, (v / w) % w, w);
  }

  lemma SplitLossless(v: int, w: nat)
    requires w > 0 && 0 <= v < w * w
    ensures v % w + ((v / w) % w) * w == v
  {
    QuotientBounds(v, w, 0, w);
    DivModOf(v / w, 0, w, v / w);
    assert v == (v / w) * w + v % w;
  }

  lemma JoinedInRange(lo: nat, hi: nat, w: nat)
    requires lo < w && hi < w
    ensures 0 <= lo + hi * w < w * w
  {
    MulDistributes(w, hi, w);
    MulAtLeast(w - hi, w);
  }

  /** Both tables are stored without loss, for every exponent. */
  lemma EntriesStored(i: nat)
    ensures var (lo, hi) := Split128(ComputePow5(i)); lo + ShiftLeft(hi, 64) == ComputePow5(i)
    ensures var (lo, hi) := Split128(ComputePow5Inv(i)); lo + ShiftLeft(hi, 64) == ComputePow5Inv(i)
  {
    Pow5EntryRange(i);
    InverseEntryRange(i);
    hide BitLength, Pow5, ComputePow5, ComputePow5Inv, Split128;
    Pow2Monotone(125, 128);
    SplitRoundTrip(ComputePow5(i));
    SplitRoundTrip(ComputePow5Inv(i));
  }

  /** The script's spot checks; its introduction gives 2^125 and 5 * 2^123 for the first two. */
  lemma SpotChecks()
    ensures ComputePow5(0) == Pow2(124)
    ensures ComputePow5(1) == 5 * Pow2(122)
    ensures ComputePow5(18) == Pow5(18) * Pow2(83)
    ensures ComputePow5Inv(0) == Pow2(125)
    ensures ComputePow5Inv(1) == (Pow2(127) + 4) / 5
  {
    hide Pow5, Pow2, BitLength;
    SmallPowers();
    Pow5Of18();
  }

  lemma SmallPowers()
    ensures Pow5(0) == 1 && Pow5(1) == 5 && BitLength(1) == 1 && BitLength(5) == 3
  {
  }

  lemma Pow5Of18()
    ensures BitLength(Pow5(18)) == 42
  {
    assert Pow5(6) == 15625;
    assert Pow5(9) == 1953125;
    Pow5Add(9, 9);
    Pow2Values();
    assert Pow2(10) == 1024 && Pow2(9) == 512;
    Pow2Add(32, 10);
    Pow2Add(32, 9);
    BitLengthUnique(Pow5(18), 42);
  }

  lemma {:induction false} Pow5Add(a: nat, b: nat)
    ensures Pow5(a + b) == Pow5(a) * Pow5(b)
  {
    if a > 0 {
      Pow5Add(a - 1, b);
      MulAssoc(5, Pow5(a - 1), Pow5(b));
    }
  }
}
