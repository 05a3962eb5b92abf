/**
 `assertNear`: two doubles are compared by how many representable values lie between
 them, read off their bit patterns through a shared buffer whose byte order is probed
 once.  A double is its 64-bit pattern (section 3.4 of IEEE 754).
 */
module Ulp {
  import opened Bits
  import opened Float64

  const TWO32 := 0x1_0000_0000
  const TWO63 := 0x8000_0000_0000_0000
  const TWO64 := 0x1_0000_0000_0000_0000
  const INFINITY := 0x7FF0_0000_0000_0000

  type Pattern = n: nat | n < TWO64

  const MIN_VALUE: Pattern := 1
  const MAX_VALUE: Pattern := 0x7FEF_FFFF_FFFF_FFFF
  const ONE: Pattern := 0x3FF0_0000_0000_0000
  const ONE_PLUS_EPSILON: Pattern := 0x3FF0_0000_0000_0001
  const ONE_MINUS_EPSILON: Pattern := 0x3FEF_FFFF_FFFF_FFFF
  const DOUBLE_TWO: Pattern := 0x4000_0000_0000_0000
  const DOUBLE_FOUR: Pattern := 0x4010_0000_0000_0000

  predicate Negative(p: Pattern) { p >= TWO63 }

  function Magnitude(p: Pattern): nat { if p >= TWO63 then p - TWO63 else p }

  predicate IsNaN(p: Pattern) { Magnitude(p) > INFINITY }

  predicate IsFinite(p: Pattern) { Magnitude(p) < INFINITY }

  predicate IsZero(p: Pattern) { Magnitude(p) == 0 }

  predicate SameSign(p: Pattern, q: Pattern) { Negative(p) == Negative(q) }

  /** The value of a magnitude as a multiple of the smallest positive double. */
  function Size(m: nat): nat {
    var exponent, fraction := m / TWO52, m % TWO52;
    if exponent == 0 then fraction else (TWO52 + fraction) * Pow2(exponent - 1)
  }

  /** The value of a finite double as a multiple of the smallest positive double. */
  function Value(p: Pattern): int {
    var size: int := Size(Magnitude(p));
    if Negative(p) then -size else size
  }

  // ----- the order of patterns is the order of values

  lemma SizeWithin(e: nat, f: nat)
    requires f < TWO52 && e > 0
    ensures TWO52 * Pow2(e - 1) <= (TWO52 + f) * Pow2(e - 1) < TWO52 * Pow2(e)
  {
    MulMonotone(TWO52, TWO52 + f, Pow2(e - 1));
    MulDistributes(2 * TWO52, TWO52 + f, Pow2(e - 1));
    MulAtLeast(TWO52 - f, Pow2(e - 1));
    assert TWO52 * Pow2(e) == (2 * TWO52) * Pow2(e - 1);
  }

  lemma SizeStrictlyMonotone(m: nat, n: nat)
    requires m < n
    ensures Size(m) < Size(n)
  {
    var d, f := m / TWO52, m % TWO52;
    var e, g := n / TWO52, n % TWO52;
    assert m == TWO52 * d + f && n == TWO52 * e + g;
    if d > 0 { SizeWithin(d, f); }
    if e > 0 { SizeWithin(e, g); }
    if d == e {
      if d > 0 {
        MulDistributes(TWO52 + g, TWO52 + f, Pow2(d - 1));
        MulAtLeast(g - f, Pow2(d - 1));
      }
    } else {
      Pow2Monotone(d, e - 1);
    }
  }

  lemma SizeOrder(m: nat, n: nat)
    ensures Size(m) < Size(n) <==> m < n
  {
    if m < n { SizeStrictlyMonotone(m, n); }
    if n < m { SizeStrictlyMonotone(n, m); }
  }

  /** The scale of the values: the smallest double is 1, and 1, 2 and the largest double are these multiples. */
  lemma SizeValues()
    ensures Size(1) == 1 && Size(0x3FF0_0000_0000_0000) == Pow2(1074)
    ensures Size(0x4000_0000_0000_0000) == 2 * Pow2(1074)
    ensures Size(0x7FEF_FFFF_FFFF_FFFF) == (TWO53 - 1) * Pow2(2045)
  {
    Pow2Values();
    Pow2Add(52, 1022);
    Pow2Add(52, 1023);
    Pow2Add(1, 1074);
  }

  // ----- what the distance of two patterns counts

  function Distance(p: Pattern, q: Pattern): nat { Abs(q - p) }

  ghost predicate StrictlyBetween(x: int, y: int, z: int) { x < y < z || z < y < x }

  /** The finite doubles strictly between two doubles. */
  ghost function Between(p: Pattern, q: Pattern): set<Pattern> {
    set k: Pattern | 0 <= k < TWO64 && IsFinite(k) && StrictlyBetween(Value(p), Value(k), Value(q))
  }

  /** How many representable steps lead from one double to the other. */
  ghost function Steps(p: Pattern, q: Pattern): nat {
    if p == q then 0 else |Between(p, q)| + 1
  }

  predicate Inside(lo: Pattern, k: Pattern, hi: Pattern) { lo < k < hi }

  ghost function Patterns(lo: Pattern, hi: Pattern): set<Pattern> {
    set k: Pattern | lo < k < hi && Inside(lo, k, hi)
  }

  lemma {:induction false} PatternCount(lo: Pattern, hi: Pattern)
    requires lo < hi
    ensures |Patterns(lo, hi)| == hi - lo - 1
    decreases hi - lo
  {
    if lo + 1 == hi {
      assert Patterns(lo, hi) == {};
    } else {
      PatternCount(lo, hi - 1);
      assert Patterns(lo, hi) == Patterns(lo, hi - 1) + {hi - 1};
    }
  }

  lemma BetweenIsInterval(p: Pattern, q: Pattern)
    requires IsFinite(p) && IsFinite(q) && SameSign(p, q) && p < q
    ensures Between(p, q) == Patterns(p, q)
  {
    forall k: Pattern
      ensures k in Between(p, q) <==> k in Patterns(p, q)
    {
      SizeOrder(Magnitude(p), Magnitude(k));
      SizeOrder(Magnitude(k), Magnitude(q));
      SizeOrder(Magnitude(p), Magnitude(q));
      SizeOrder(0, Magnitude(p));
      SizeOrder(0, Magnitude(q));
    }
  }

  /**
   For finite doubles of one sign the distance of the patterns is 0 when they are
   equal, and otherwise one more than the number of doubles strictly between them.
   */
  lemma DistanceCountsDoubles(p: Pattern, q: Pattern)
    requires IsFinite(p) && IsFinite(q) && SameSign(p, q)
    ensures Distance(p, q) == Steps(p, q)
  {
    if p < q {
      BetweenIsInterval(p, q);
      PatternCount(p, q);
    } else if q < p {
      BetweenIsInterval(q, p);
      PatternCount(q, p);
      assert Between(p, q) == Between(q, p);
    }
  }

  /** Patterns of different signs are far apart, even for neighbouring values. */
  lemma DistanceAcrossZero(p: Pattern, q: Pattern)
    requires IsFinite(p) && IsFinite(q) && !SameSign(p, q)
    ensures Distance(p, q) > TWO52
    ensures Distance(p, q) == if Negative(p) then TWO63 + Magnitude(p) - Magnitude(q)
                              else TWO63 + Magnitude(q) - Magnitude(p)
  {
  }

  // ----- the shared buffer

  function High(p: Pattern): nat { p / TWO32 }

  function Low(p: Pattern): nat { p % TWO32 }

  /** A word difference times 2^32 is a double, so only the final addition rounds. */
  lemma WordShiftExact(hi: int)
    requires -TWO32 <= hi <= TWO32
    ensures Round(hi * TWO32) == hi * TWO32
  {
    Pow2Values();
    assert Scaled(hi * TWO32, hi, 32);
    RoundExact(hi * TWO32);
  }

  lemma WordsMakePattern(p: Pattern)
    ensures High(p) < TWO32 && Low(p) < TWO32 && p == High(p) * TWO32 + Low(p)
  {
  }

  /** A Float64Array of two doubles and the Uint32Array over its four words. */
  class Prober {
    const bigEndian: bool
    const words: array<int>
    /** 0 for little-endian, 1 for big-endian; settled by the constructor's probe. */
    var endian: nat

    ghost predicate Valid()
      reads this, words
    {
      && words.Length == 4
      && (forall i | 0 <= i < 4 :: 0 <= words[i] < TWO32)
      && endian <= 1
    }

    ghost predicate Settled()
      reads this
    {
      endian == if bigEndian then 1 else 0
    }

    /** Storing through the Float64Array puts the words in the order of the platform. */
    method StoreDouble(slot: nat, p: Pattern)
      requires Valid() && slot <= 1
      modifies words
      ensures Valid()
      ensures words[2 * slot] == if bigEndian then High(p) else Low(p)
      ensures words[2 * slot + 1] == if bigEndian then Low(p) else High(p)
      ensures forall i | 0 <= i < 4 && i / 2 != slot :: words[i] == old(words[i])
    {
      WordsMakePattern(p);
      words[2 * slot] := if bigEndian then High(p) else Low(p);
      words[2 * slot + 1] := if bigEndian then Low(p) else High(p);
    }

    /** `__t262_ulp_diff`, before and after the byte order is settled. */
    method UlpDiff(a: Pattern, b: Pattern) returns (r: nat)
      requires Valid()
      modifies words
      ensures Valid()
      ensures Settled() ==> r == Abs(Round(Distance(a, b)))
      ensures !Settled() ==> r == Abs(Round((Low(b) - Low(a)) * TWO32 + (High(b) - High(a))))
    {
      StoreDouble(0, a);
      StoreDouble(1, b);
      WordsMakePattern(a);
      WordsMakePattern(b);
      var hi := words[3 - endian] - words[1 - endian];
      var lo := words[2 + endian] - words[0 + endian];
      WordShiftExact(hi);
      r := Abs(Round(Round(hi * TWO32) + lo));
      if Settled() {
        MulDistributes(High(b), High(a), TWO32);
        assert hi * TWO32 + lo == b - a;
      }
    }

    constructor (bigEndian: bool)
      ensures Valid() && Settled() && this.bigEndian == bigEndian && fresh(words)
    {
      this.bigEndian := bigEndian;
      words := new int[4](_ => 0);
      endian := 0;
      new;
      var probe := UlpDiff(DOUBLE_TWO, DOUBLE_FOUR);
      ProbeAnswers();
      if probe == 0x10_0000 { endian := 1; }
    }

    /** The four checks the shell runs when it is loaded. */
    method LoadTimeChecks() returns (ok: bool)
      requires Valid() && Settled()
      modifies words
      ensures ok
    {
      var d1 := UlpDiff(DOUBLE_TWO, DOUBLE_FOUR);
      var d2 := UlpDiff(0, MIN_VALUE);
      var d3 := UlpDiff(ONE, ONE_PLUS_EPSILON);
      var d4 := UlpDiff(ONE, ONE_MINUS_EPSILON);
      SmallIsExact(Distance(DOUBLE_TWO, DOUBLE_FOUR));
      SmallIsExact(1);
      ok := d1 == 0x10_0000_0000_0000 && d2 == 1 && d3 == 1 && d4 == 1;
    }

    /** `assertNear`; false stands for a thrown Test262Error. */
    method AssertNear(a: Pattern, b: Pattern, tolerance: real) returns (ok: bool)
      requires Valid() && Settled()
      modifies words
      ensures Valid() && Settled()
      ensures IsFinite(a) && IsFinite(b) ==> (ok <==> Passes(a, b, tolerance))
      ensures !IsFinite(a) || !IsFinite(b) || ExactTolerance(tolerance) ==> (ok <==> Near(a, b, tolerance))
    {
      if !IsFinite(b) { return false; }
      if IsNaN(a) { return false; }
      if !IsFinite(a) {
        SizeOrder(Magnitude(b), MAX_VALUE);
        SizeOrder(MAX_VALUE, Magnitude(b));
        SizeOrder(0, Magnitude(b));
        SizeOrder(0, MAX_VALUE);
        var signed := if Negative(a) then -Value(b) else Value(b);
        return !(signed < Value(MAX_VALUE));
      }
      var target := Target(a, b);
      var err := UlpDiff(a, target);
      RoundMonotone(0, Distance(a, target));
      SmallIsExact(0);
      if ExactTolerance(tolerance) { ExactVerdict(a, b, tolerance); }
      return !(err as real > tolerance);
    }
  }

  lemma ProbeAnswers()
    ensures Abs(Round(Distance(DOUBLE_TWO, DOUBLE_FOUR))) != 0x10_0000
    ensures Abs(Round((Low(DOUBLE_FOUR) - Low(DOUBLE_TWO)) * TWO32 +
                      (High(DOUBLE_FOUR) - High(DOUBLE_TWO)))) == 0x10_0000
  {
    SmallIsExact(Distance(DOUBLE_TWO, DOUBLE_FOUR));
    SmallIsExact(0x10_0000);
  }

  // ----- what the assertion decides

  /** A zero expectation takes the sign of what we got: `b === 0 ? a * 0 : b`. */
  function Target(a: Pattern, b: Pattern): Pattern {
    if IsZero(b) then (if Negative(a) then TWO63 else 0) else b
  }

  /**
   Near within a tolerance: finite values of one sign by the representable steps
   between them, either zero standing for the zero of the sign of `a`; an infinity only
   at the largest finite value of its sign; values of different signs never within 2^52.
   */
  ghost predicate Near(a: Pattern, b: Pattern, tolerance: real) {
    && IsFinite(b)
    && !IsNaN(a)
    && if !IsFinite(a) then SameSign(a, b) && Magnitude(b) == MAX_VALUE
       else if SameSign(a, b) || IsZero(b) then Steps(a, Target(a, b)) as real <= tolerance
       else FarSteps(a, b) as real <= tolerance
  }

  /** The distance the patterns of a positive and a negative double report. */
  function FarSteps(p: Pattern, q: Pattern): (d: nat)
    requires IsFinite(p) && IsFinite(q)
    ensures d > TWO52
  {
    var positive, negative := if Negative(p) then Magnitude(q) else Magnitude(p),
                              if Negative(p) then Magnitude(p) else Magnitude(q);
    TWO63 + negative - positive
  }

  // ----- which tolerances give the exact verdict

  /** The largest distance of two finite doubles. */
  const LARGEST := TWO63 + MAX_VALUE

  /** The comparison the helper makes between finite values. */
  predicate Passes(a: Pattern, b: Pattern, tolerance: real) {
    Round(Distance(a, Target(a, b))) as real <= tolerance
  }

  /** A real number below 2^53, or a double. */
  ghost predicate IsTolerance(tolerance: real) {
    tolerance < TWO53 as real || (tolerance == tolerance.Floor as real && IsDouble(tolerance.Floor))
  }

  /**
   Below 2^53; from there to 2^54 when the tolerance is twice an odd number; and once no
   distance is larger.
   */
  ghost predicate ExactTolerance(tolerance: real) {
    && IsTolerance(tolerance)
    && (|| tolerance < TWO53 as real
        || (tolerance < (2 * TWO53) as real && tolerance.Floor % 4 == 2)
        || tolerance >= LARGEST as real)
  }

  /** NaN is near nothing, nothing is near an infinity or NaN, and each infinity only near one value. */
  lemma NotFiniteMeans(a: Pattern, b: Pattern, tolerance: real)
    ensures b % 0x8000_0000_0000_0000 >= 0x7FF0_0000_0000_0000 ==> !Near(a, b, tolerance)
    ensures a % 0x8000_0000_0000_0000 > 0x7FF0_0000_0000_0000 ==> !Near(a, b, tolerance)
    ensures a == 0x7FF0_0000_0000_0000 ==> (Near(a, b, tolerance) <==> b == 0x7FEF_FFFF_FFFF_FFFF)
    ensures a == 0xFFF0_0000_0000_0000 ==> (Near(a, b, tolerance) <==> b == 0xFFEF_FFFF_FFFF_FFFF)
    ensures IsFinite(a) <==> a % 0x8000_0000_0000_0000 < 0x7FF0_0000_0000_0000
  {
    hide Steps;
  }

  /** A zero expectation is as far away as the value is from the zero of its sign. */
  lemma ZeroTarget(a: Pattern, b: Pattern)
    requires b == 0 || b == 0x8000_0000_0000_0000
    ensures Distance(a, Target(a, b)) == a % 0x8000_0000_0000_0000
  {
  }

  lemma DistanceAtMost(a: Pattern, b: Pattern)
    requires IsFinite(a) && IsFinite(b)
    ensures Distance(a, Target(a, b)) <= LARGEST
  {
  }

  /** Every distance up to the largest is that of some pair. */
  lemma DistanceReached(d: nat) returns (a: Pattern, b: Pattern)
    requires d <= LARGEST
    ensures IsFinite(a) && IsFinite(b) && Distance(a, Target(a, b)) == d
  {
    if d <= MAX_VALUE {
      a, b := d, 0;
    } else if d <= TWO63 {
      a, b := TWO63 + 1 - d, TWO63 + 1;
    } else {
      a, b := 0, d;
    }
  }

  /** Nearness of finite values is a matter of the distance of their patterns. */
  lemma NearByDistance(a: Pattern, b: Pattern, tolerance: real)
    requires IsFinite(a) && IsFinite(b)
    ensures Near(a, b, tolerance) <==> Distance(a, Target(a, b)) as real <= tolerance
  {
    hide Steps;
    var target := Target(a, b);
    if SameSign(a, target) { DistanceCountsDoubles(a, target); } else { DistanceAcrossZero(a, target); }
  }

  /** Rounding never rejects a distance within the tolerance. */
  lemma NeverRejects(d: nat, tolerance: real)
    requires IsTolerance(tolerance) && d as real <= tolerance
    ensures Round(d) as real <= tolerance
  {
    hide IsDouble, Round;
    if tolerance < TWO53 as real {
      RoundKeepsComparison(d, tolerance);
    } else {
      RoundMonotone(d, tolerance.Floor);
      RoundExact(tolerance.Floor);
    }
  }

  /** With an exact tolerance, rounding accepts nothing beyond it either. */
  lemma NeverAccepts(d: nat, tolerance: real)
    requires ExactTolerance(tolerance) && d <= LARGEST && d as real > tolerance
    ensures Round(d) as real > tolerance
  {
    hide IsDouble, Round;
    if tolerance < TWO53 as real {
      RoundKeepsComparison(d, tolerance);
    } else {
      var t := tolerance.Floor;
      RoundMonotone(t + 1, d);
      RoundNextBinade(t + 1);
    }
  }

  lemma ExactVerdict(a: Pattern, b: Pattern, tolerance: real)
    requires IsFinite(a) && IsFinite(b) && ExactTolerance(tolerance)
    ensures Passes(a, b, tolerance) <==> Near(a, b, tolerance)
  {
    var d := Distance(a, Target(a, b));
    DistanceAtMost(a, b);
    NearByDistance(a, b, tolerance);
    hide Near, Steps, Round;
    if d as real <= tolerance { NeverRejects(d, tolerance); } else { NeverAccepts(d, tolerance); }
  }

  /** For any other tolerance the next distance up rounds down to it, and is let through. */
  lemma WronglyAccepted(tolerance: real) returns (a: Pattern, b: Pattern)
    requires IsTolerance(tolerance) && !ExactTolerance(tolerance)
    ensures IsFinite(a) && IsFinite(b) && Passes(a, b, tolerance) && !Near(a, b, tolerance)
  {
    hide Round, IsDouble, Near, Target;
    var t := tolerance.Floor;
    NextRoundsBack(t);
    a, b := DistanceReached(t + 1);
    NearByDistance(a, b, tolerance);
  }

  lemma NextRoundsBack(t: int)
    requires IsDouble(t) && t >= TWO53 && !(t < 2 * TWO53 && t % 4 == 2)
    ensures Round(t + 1) == t
  {
    hide Round, IsDouble;
    if t < 2 * TWO53 {
      EvenInNextBinade(t);
      EvenFours(t);
      RoundInFours(t / 4, 1);
    } else {
      SuccessorRoundsBack(t);
    }
  }

  lemma EvenFours(t: int)
    requires t % 2 == 0 && t % 4 != 2
    ensures t == 4 * (t / 4)
  {
  }

  lemma EvenInNextBinade(t: int)
    requires IsDouble(t) && TWO53 <= t < 2 * TWO53
    ensures t % 2 == 0
  {
    hide Round, IsDouble;
    RoundExact(t);
    RoundNextBinade(t);
  }

  /** The verdict is right for all finite operands exactly for these tolerances. */
  lemma VerdictExactlyWhen(tolerance: real)
    requires IsTolerance(tolerance)
    ensures ExactTolerance(tolerance) <==>
            forall a: Pattern, b: Pattern | IsFinite(a) && IsFinite(b) ::
              Passes(a, b, tolerance) <==> Near(a, b, tolerance)
  {
    hide Passes, Near, IsTolerance, IsFinite;
    if ExactTolerance(tolerance) {
      forall a: Pattern, b: Pattern | IsFinite(a) && IsFinite(b)
        ensures Passes(a, b, tolerance) <==> Near(a, b, tolerance)
      {
        ExactVerdict(a, b, tolerance);
      }
    } else {
      var a, b := WronglyAccepted(tolerance);
    }
  }

  /** Rounding lets more through, never less, whatever the tolerance. */
  lemma NearAlwaysPasses(a: Pattern, b: Pattern, tolerance: real)
    requires IsFinite(a) && IsFinite(b) && IsTolerance(tolerance) && Near(a, b, tolerance)
    ensures Passes(a, b, tolerance)
  {
    NearByDistance(a, b, tolerance);
    hide Near, Round;
    NeverRejects(Distance(a, Target(a, b)), tolerance);
  }

  /** Two doubles 2^53 + 1 steps apart pass within 2^53. */
  lemma LargeToleranceAccepts()
    ensures var a: Pattern := 0x20_0000_0000_0001;
            && IsFinite(a) && Steps(a, 0) == TWO53 + 1
            && Round(Distance(a, Target(a, 0))) == TWO53
  {
    hide Steps, Round;
    DistanceCountsDoubles(0x20_0000_0000_0001, 0);
    RoundNextBinade(TWO53 + 1);
  }
}
