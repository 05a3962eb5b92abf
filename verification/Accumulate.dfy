/**
 Sums of doubles stepped inside a loop header, or inside a loop bounded by the square
 of its counter: where the partial sums are exact, and where the last one rounds.
 Counters and sums are doubles holding integers.
 */
module Accumulate {
  import opened Bits
  import opened Float64

  // ----- a step in the loop header runs once more than the body

  /** `argStart` with offset 0; a larger count never ends, since `d++` stops at 2^53. */
  method ArgStart(n: nat) returns (s: int)
    requires n <= TWO53
    ensures s == if n < TWO53 then TWO53 else TWO53 + 2
  {
    hide Round;
    StartOfTwos(n);
    s := Round(Round(TWO53 - 1 - Round(2 * n)) + 0);
    var d := 0;
    ghost var start := s;
    while true
      invariant 0 <= d <= n && s == start + 2 * d
      decreases n - d
    {
      StepOfTwos(n, d, s);
      s := Round(s + 2);
      if !(d < n) { break; }
      SmallIsExact(d + 1);
      d := Round(d + 1);
    }
  }

  /** The start value is exact, except for the largest count. */
  lemma StartOfTwos(n: nat)
    requires n <= TWO53
    ensures Round(Round(TWO53 - 1 - Round(2 * n)) + 0) == if n < TWO53 then TWO53 - 1 - 2 * n else -TWO53
  {
    DoubledIsExact(n);
    if n < TWO53 {
      SmallIsExact(TWO53 - 1 - 2 * n);
    } else {
      RoundNextBinade(TWO53 + 1);
      SmallIsExact(-TWO53);
    }
  }

  lemma DoubledIsExact(n: nat)
    requires n <= TWO53
    ensures Round(2 * n) == 2 * n
  {
    assert Pow2(1) == 2;
    assert Scaled(2 * n, n, 1);
    RoundExact(2 * n);
  }

  /** Every sum but the last is at most 2^53; the last one is 2^53 + 1 and goes to even. */
  lemma StepOfTwos(n: nat, d: nat, s: int)
    requires d <= n <= TWO53
    requires s == (if n < TWO53 then TWO53 - 1 - 2 * n else -TWO53) + 2 * d
    ensures d < n ==> Round(s + 2) == s + 2
    ensures d == n ==> Round(s + 2) == if n < TWO53 then TWO53 else TWO53 + 2
  {
    if s + 2 <= TWO53 { SmallIsExact(s + 2); } else { RoundNextBinade(s + 2); }
  }

  /** A third of 2^54 - 1: the first count whose start value rounds. */
  const THIRD := 6004799503160661

  /** By how many fours the start value lies below -2^53. */
  function Fours(n: nat): nat {
    if n < THIRD || Round(3 * n) < 2 * TWO53 then 0 else (Round(3 * n) - 2 * TWO53) / 4
  }

  /**
   The sum after `k` steps of three: below -2^53 and from 2^53 + 2 on it moves by four,
   between the two by three.
   */
  function ThreesAt(n: nat, k: nat): int {
    if n < THIRD then
      if k <= n then TWO53 - 1 - Round(3 * n) + 3 * k
      else if Round(3 * n) == 3 * n then TWO53 + 2
      else if Round(3 * n) == 3 * n - 1 then TWO53 + 4
      else TWO53
    else
      var m := Fours(n);
      if k <= m then -TWO53 - 4 * (m - k)
      else if k <= m + THIRD then -TWO53 + 3 * (k - m)
      else if k == m + THIRD + 1 then TWO53 + 2
      else TWO53 + 4 * (k - m - THIRD - 1)
  }

  /**
   `whileTest` with offset 0, for every count at which the loop ends.  Up to 2^54 - 1 for
   `3 * n` the answer does not depend on the count, unless `3 * n` rounds and the start
   value does not round back; beyond, the last steps pass 2^53 + 2.
   */
  method WhileTest(n: nat) returns (s: int)
    requires n <= TWO53
    ensures s == TWO53 + 2 <==> n <= THIRD && (Round(3 * n) == 3 * n || n == THIRD)
    ensures n < THIRD && Round(3 * n) != 3 * n ==> s == if (3 * n) % 4 == 1 then TWO53 + 4 else TWO53
    ensures n > THIRD ==> s == 3 * TWO53 + 4 * (n - THIRD) - Round(3 * n) && s >= TWO53 + 4
  {
    hide Round, ThreesAt;
    StartOfThrees(n);
    s := Round(Round(TWO53 - 1 - Round(3 * n)) + 0);
    var d := 0;
    while true
      invariant 0 <= d <= n && s == ThreesAt(n, d)
      decreases n - d
    {
      StepOfThrees(n, d);
      s := Round(s + 3);
      if !(d < n) { break; }
      SmallIsExact(d + 1);
      d := Round(d + 1);
    }
    EndOfThrees(n);
  }

  /** Three times the count rounds by at most one below 2^54, and to a multiple of four from there on. */
  lemma TripleRounds(n: nat)
    requires n <= TWO53
    ensures n < THIRD ==> -1 <= Round(3 * n) - 3 * n <= 1
    ensures n < THIRD && Round(3 * n) != 3 * n ==> Round(3 * n) == if (3 * n) % 4 == 1 then 3 * n - 1 else 3 * n + 1
    ensures n >= THIRD ==> Round(3 * n) == 2 * TWO53 + 4 * Fours(n)
    ensures n == THIRD ==> Fours(n) == 0
    ensures n > THIRD ==> 4 * Fours(n) <= TWO53 && Fours(n) < n - THIRD
  {
    hide Round;
    if 3 * n <= TWO53 {
      SmallIsExact(3 * n);
    } else if 3 * n < 2 * TWO53 {
      RoundNextBinade(3 * n);
    } else {
      RoundBinadeAfter(3 * n);
    }
  }

  lemma StartOfThrees(n: nat)
    requires n <= TWO53
    ensures Round(Round(TWO53 - 1 - Round(3 * n)) + 0) == ThreesAt(n, 0)
  {
    hide Round;
    TripleRounds(n);
    if n < THIRD {
      SmallIsExact(TWO53 - 1 - Round(3 * n));
    } else {
      hide Fours;
      StartBelow(TWO53 + 4 * Fours(n));
    }
  }

  /** One above a multiple of four goes back to it, and rounding again changes nothing. */
  lemma StartBelow(x: int)
    requires TWO53 <= x <= 2 * TWO53 && x % 4 == 0
    ensures Round(Round(-x - 1) + 0) == -x
  {
    hide Round;
    RoundNegates(x);
    RoundNegates(x + 1);
    if x < 2 * TWO53 {
      RoundNextBinade(x);
      RoundNextBinade(x + 1);
    } else {
      RoundBinadeAfter(x);
      RoundBinadeAfter(x + 1);
    }
  }

  lemma StepOfThrees(n: nat, d: nat)
    requires d <= n <= TWO53
    ensures Round(ThreesAt(n, d) + 3) == ThreesAt(n, d + 1)
  {
    TripleRounds(n);
    hide Round, Fours;
    var s := ThreesAt(n, d);
    if n < THIRD {
      StepWithin(n, Round(3 * n), d, s);
    } else {
      StepAround(Fours(n), d, s);
    }
  }

  lemma StepWithin(n: nat, r: int, d: nat, s: int)
    requires d <= n < THIRD && -1 <= r - 3 * n <= 1
    requires s == TWO53 - 1 - r + 3 * d
    ensures d < n ==> Round(s + 3) == s + 3
    ensures d == n ==> Round(s + 3) == if r == 3 * n then TWO53 + 2 else if r == 3 * n - 1 then TWO53 + 4 else TWO53
  {
    hide Round;
    if s + 3 <= TWO53 { SmallIsExact(s + 3); } else { RoundNextBinade(s + 3); }
  }

  lemma StepAround(m: nat, d: nat, s: int)
    requires d <= TWO53 && 4 * m <= TWO53
    requires s == if d <= m then -TWO53 - 4 * (m - d)
                  else if d <= m + THIRD then -TWO53 + 3 * (d - m)
                  else if d == m + THIRD + 1 then TWO53 + 2
                  else TWO53 + 4 * (d - m - THIRD - 1)
    ensures d < m ==> Round(s + 3) == s + 4
    ensures m <= d <= m + THIRD ==> Round(s + 3) == s + 3
    ensures d == m + THIRD + 1 ==> Round(s + 3) == s + 2
    ensures d > m + THIRD + 1 ==> Round(s + 3) == s + 4
  {
    hide Round;
    if d < m {
      StepBelow(m - d);
    } else if d <= m + THIRD {
      SmallOrNext(s + 3);
    } else if d == m + THIRD + 1 {
      RoundInFours(QUARTER + 1, 1);
    } else {
      StepAbove(d - m - THIRD - 1);
    }
  }

  /** A fourth of 2^53. */
  const QUARTER := 0x8_0000_0000_0000

  lemma StepBelow(x: nat)
    requires 0 < x && 4 * x <= TWO53
    ensures Round(-TWO53 - 4 * x + 3) == -TWO53 - 4 * x + 4
  {
    hide Round;
    RoundNegates(TWO53 + 4 * x - 3);
    RoundInFours(QUARTER + x - 1, 1);
  }

  lemma SmallOrNext(x: int)
    requires -TWO53 <= x <= TWO53 || x == TWO53 + 2
    ensures Round(x) == x
  {
    hide Round;
    if x <= TWO53 { SmallIsExact(x); } else { RoundInFours(QUARTER, 2); }
  }

  lemma StepAbove(x: nat)
    requires 0 < x <= TWO53 / 2
    ensures Round(TWO53 + 4 * x + 3) == TWO53 + 4 * x + 4
  {
    hide Round;
    if TWO53 + 4 * x + 3 < 2 * TWO53 {
      RoundInFours(QUARTER + x, 3);
    } else {
      var y := TWO53 + 4 * x + 3;
      DivModOf(y, QUARTER + x, 4, 3);
      RoundBinadeAfter(y);
    }
  }

  lemma EndOfThrees(n: nat)
    requires n <= TWO53
    ensures var s := ThreesAt(n, n + 1);
            && (s == TWO53 + 2 <==> n <= THIRD && (Round(3 * n) == 3 * n || n == THIRD))
            && (n < THIRD && Round(3 * n) != 3 * n ==> s == if (3 * n) % 4 == 1 then TWO53 + 4 else TWO53)
            && (n > THIRD ==> s == 3 * TWO53 + 4 * (n - THIRD) - Round(3 * n) && s >= TWO53 + 4)
  {
    TripleRounds(n);
    hide Round, Fours;
  }

  /** At 2^54 - 1 two roundings cancel: the triple is not a double, and the answer is still 2^53 + 2. */
  lemma RoundingsCancel(n: nat)
    requires n == THIRD
    ensures 3 * n == 2 * TWO53 - 1 && !IsDouble(3 * n) && ThreesAt(n, n + 1) == TWO53 + 2
  {
    hide Round;
    RoundNextBinade(3 * n);
    if IsDouble(3 * n) { RoundExact(3 * n); }
  }

  // ----- a counter bounded through its square

  function Isqrt(n: nat): (r: nat)
    ensures r * r <= n < (r + 1) * (r + 1)
  {
    if n == 0 then 0
    else
      var r := Isqrt(n - 1);
      if (r + 1) * (r + 1) <= n then r + 1 else r
  }

  lemma SquareMonotone(a: nat, b: nat)
    requires a <= b
    ensures a * a <= b * b
  {
    MulMonotone(a, b, a);
    MulMonotone(a, b, b);
  }

  lemma CounterBelow(n: nat, d: nat)
    requires d >= 1
    ensures d * d <= n <==> d <= Isqrt(n)
    ensures d * d <= n ==> d <= n
  {
    var r := Isqrt(n);
    MulMonotone(1, d, d);
    if d <= r { SquareMonotone(d, r); } else { SquareMonotone(r + 1, d); }
  }

  /** The square after the integer square root does not round down to the bound. */
  predicate SquareStays(n: nat) {
    Round((Isqrt(n) + 1) * (Isqrt(n) + 1)) > n
  }

  /** How often `d * d <= n` holds for d = 1, 2, …, in double arithmetic. */
  function Turns(n: int): nat {
    if n < 0 then 0 else if SquareStays(n) then Isqrt(n) else Isqrt(n) + 1
  }

  /** A rounded square falls short of the square by at most its root. */
  lemma RoundedSquare(y: nat)
    requires y <= TWO53
    ensures Round(y * y) >= y * y - y
  {
    RoundError(y * y);
    var e := Abs(RoundNat(y * y) - y * y);
    hide *;
    if e > y {
      MulMonotone(y + 1, e, TWO53);
      MulMonotone(y, TWO53, y);
      MulDistributes(y, 1, TWO53);
      MulCommutes(y, TWO53);
    }
  }

  /** The test, in double arithmetic, holds for exactly the first `Turns(n)` counters. */
  lemma SquareTest(n: int, d: nat)
    requires n >= 0 ==> IsDouble(n) && n < TWO53 * TWO53
    requires 1 <= d <= TWO53
    ensures Round(d * d) <= n <==> d <= Turns(n)
    ensures Turns(n) < TWO53
  {
    if n < 0 {
      RoundMonotone(0, d * d);
      SmallIsExact(0);
    } else {
      var r := Isqrt(n);
      RootBelow(n, r);
      FirstTurns(n, r, d);
    }
  }

  lemma RootBelow(n: nat, r: nat)
    requires IsDouble(n) && n < TWO53 * TWO53 && r * r <= n
    ensures r < TWO53
    ensures r == Isqrt(n) && !SquareStays(n) ==> r + 1 < TWO53
  {
    if r >= TWO53 { SquareMonotone(TWO53, r); }
    if r + 1 == TWO53 {
      assert Scaled(TWO53 * TWO53, TWO53, 53) by { Pow2Values(); }
      RoundExact(TWO53 * TWO53);
    }
  }

  lemma FirstTurns(n: nat, r: nat, d: nat)
    requires IsDouble(n) && r == Isqrt(n) && 1 <= d <= TWO53
    ensures d <= r ==> Round(d * d) <= n
    ensures d > r + 1 ==> Round(d * d) > n
  {
    hide Isqrt, Round, IsDouble;
    if d <= r {
      SquareMonotone(d, r);
      RoundMonotone(d * d, n);
      RoundExact(n);
    } else if d > r + 1 {
      RoundedSquare(d);
      SquareMonotone(r + 1, d - 1);
      MulDistributes(d, 1, d);
      MulMonotone(d - 1, d, d - 1);
      MulCommutes(d, d - 1);
    }
  }

  /** Below 2^53 the test is exact. */
  lemma SmallTurns(n: int)
    requires n < TWO53
    ensures n >= 0 ==> SquareStays(n) && Turns(n) == Isqrt(n)
  {
    if n >= 0 {
      var y := (Isqrt(n) + 1) * (Isqrt(n) + 1);
      hide Isqrt;
      if y <= TWO53 {
        SmallIsExact(y);
      } else {
        RoundMonotone(TWO53, y);
        SmallIsExact(TWO53);
      }
    }
  }

  /** A step added `k` times, rounding each time. */
  function Repeated(step: int, k: nat): int {
    if k == 0 then 0 else Round(Repeated(step, k - 1) + step)
  }

  lemma {:induction false} RepeatedExact(step: int, k: nat)
    requires k * Abs(step) <= TWO53
    ensures Repeated(step, k) == k * step
  {
    if k > 0 {
      hide Round;
      MulMonotone(k - 1, k, Abs(step));
      RepeatedExact(step, k - 1);
      MulDistributes(k, 1, step);
      SignedProduct(k, step);
      SmallIsExact(k * step);
    }
  }

  lemma SignedProduct(d: nat, step: int)
    ensures Abs(d * step) == d * Abs(step)
  {
    if step < 0 { assert d * step == -(d * -step); }
  }

  /** `large`; with a count from 2^106 on it never ends, since `d++` stops at 2^53. */
  method Large(n: int, step: int) returns (s: int)
    requires n >= 0 ==> IsDouble(n) && n < TWO53 * TWO53
    ensures s == Repeated(step, Turns(n))
  {
    hide Round, Isqrt, Turns, IsDouble;
    s := 0;
    var d := 1;
    SquareTest(n, 1);
    while Round(d * d) <= n
      invariant 1 <= d <= TWO53 && d - 1 <= Turns(n)
      invariant s == Repeated(step, d - 1)
      decreases Turns(n) - d
    {
      SquareTest(n, d);
      s := Round(s + step);
      SmallIsExact(d + 1);
      d := Round(d + 1);
    }
    SquareTest(n, d);
  }

  /**
   While the whole sum stays within 2^53 of zero, the answer is the integer square root
   times the step exactly when the next square does not round down to the bound.
   */
  lemma LargeIsExact(n: nat, step: int)
    requires IsDouble(n) && n < TWO53 * TWO53
    requires Abs(Isqrt(n) * step) <= TWO53
    ensures Repeated(step, Turns(n)) == Isqrt(n) * step <==> step == 0 || SquareStays(n)
    ensures n < TWO53 ==> SquareStays(n)
  {
    RootBelow(n, Isqrt(n));
    if n < TWO53 { SmallTurns(n); }
    hide Isqrt, Round, SquareStays, IsDouble, Abs, Repeated;
    TurnsDecide(Isqrt(n), step, Turns(n));
  }

  lemma TurnsDecide(r: nat, step: int, turns: nat)
    requires (turns == r || turns == r + 1 < TWO53) && Abs(r * step) <= TWO53
    ensures Repeated(step, turns) == r * step <==> step == 0 || turns == r
  {
    hide Round, Repeated;
    SignedProduct(r, step);
    RepeatedExact(step, r);
    if turns == r + 1 { OneTooMany(r, step); }
  }

  lemma OneTooMany(r: nat, step: int)
    requires r < TWO53 && Abs(r * step) <= TWO53 && Repeated(step, r) == r * step
    ensures Repeated(step, r + 1) == r * step <==> step == 0
  {
    var v := r * step;
    assert Repeated(step, r + 1) == Round(v + step);
    hide Round, Repeated;
    if step == 0 {
      SmallIsExact(v);
    } else {
      if Abs(step) == 1 { SignedProduct(r, step); }
      StepMoves(v, step);
    }
  }

  /** Adding a step to a sum within 2^53 changes it; only 2^53 + 1 would round back. */
  lemma StepMoves(v: int, step: int)
    requires Abs(v) <= TWO53 && step != 0 && (Abs(step) == 1 ==> Abs(v) < TWO53)
    ensures Round(v + step) != v
  {
    hide Round;
    if step < 0 {
      RoundNegates(v + step);
      StepUp(-v, -step);
    } else {
      StepUp(v, step);
    }
  }

  lemma StepUp(v: int, step: int)
    requires -TWO53 <= v <= TWO53 && step > 0 && (v == TWO53 ==> step > 1)
    ensures Round(v + step) > v
  {
    hide Round;
    if v == TWO53 {
      RoundMonotone(TWO53 + 2, v + step);
      RoundNextBinade(TWO53 + 2);
    } else {
      RoundMonotone(v + 1, v + step);
      SmallIsExact(v + 1);
    }
  }

  /** The answer is one step too many for the double just below the square of 94906267. */
  lemma LargeCountsOneMore(n: nat)
    requires n == 9007199515875288
    ensures IsDouble(n) && Isqrt(n) == 94906266 && Repeated(1, Turns(n)) == 94906267
  {
    hide Isqrt, Round, Repeated, IsDouble;
    RoundNextBinade(n);
    RoundIsDouble(n);
    RoundNextBinade(n + 1);
    CounterBelow(n, 94906266);
    CounterBelow(n, 94906267);
    RepeatedExact(1, Turns(n));
  }

  /** Three steps of 2^52 + 1, as the program takes them: the third one rounds. */
  lemma LargeRounds(step: int, n: nat)
    requires step == 4503599627370497 && n == 9
    ensures Repeated(step, Turns(n)) == 13510798882111492
  {
    hide Round, Isqrt, Turns, Repeated, SquareStays;
    CounterBelow(n, 3);
    CounterBelow(n, 4);
    SmallTurns(n);
    RepeatedThrice(step);
  }

  lemma RepeatedThrice(step: int)
    requires step == 4503599627370497
    ensures Repeated(step, 3) == 13510798882111492
  {
    hide Round;
    assert Repeated(step, 3) == Round(Round(Round(0 + step) + step) + step);
    SmallIsExact(0 + step);
    RoundNextBinade(step + step);
    RoundNextBinade(step + step + step);
  }

  // ----- rows of conditional steps

  datatype Sum = PerRow | Carried | Skipping

  /** What the body adds at counters `i` and `d`. */
  function Added(p: Sum, i: nat, d: nat): int
    requires d >= 1
  {
    match p
    case PerRow => if i % 3 == d % 3 then d * 2 else 0
    case Carried => if (i + d) % 2 == 0 then d else 0
    case Skipping => if d % 4 == 0 then 0 else if i % d == 0 then d else -1
  }

  /** What row `i` adds for the counters below `d`. */
  function Part(p: Sum, i: nat, d: nat): int {
    if d <= 1 then 0 else Part(p, i, d - 1) + Added(p, i, d - 1)
  }

  function Row(p: Sum, i: nat): int { Part(p, i, Isqrt(i) + 1) }

  function Rows(p: Sum, n: nat): int { if n == 0 then 0 else Rows(p, n - 1) + Row(p, n) }

  // ----- the value of a row

  /** Twice the sum of the first `m` positive numbers that leave the remainder `c` by three. */
  function ThirdsDoubled(c: nat, m: nat): int {
    if c == 0 then 3 * (m * m) + 3 * m else if c == 1 then 3 * (m * m) - m else 3 * (m * m) + m
  }

  lemma ThirdsStep(c: nat, m: nat)
    requires c < 3 && m > 0
    ensures ThirdsDoubled(c, m) == ThirdsDoubled(c, m - 1) + 2 * (if c == 0 then 3 * m else 3 * (m - 1) + c)
  {
    assert m * m == (m - 1) * (m - 1) + 2 * m - 1;
  }

  /** How many of 1, …, r leave the remainder `c`. */
  function ThirdsCount(c: nat, r: nat): nat {
    if c == 0 then r / 3 else if c == 1 then (r + 2) / 3 else (r + 1) / 3
  }

  lemma ThirdsCountStep(c: nat, r: nat)
    requires c < 3 && r > 0
    ensures ThirdsCount(c, r) == ThirdsCount(c, r - 1) + if r % 3 == c then 1 else 0
    ensures r % 3 == c ==> r == if c == 0 then 3 * ThirdsCount(c, r) else 3 * (ThirdsCount(c, r) - 1) + c
  {
  }

  lemma {:induction false} PerRowPart(i: nat, r: nat)
    ensures Part(PerRow, i, r + 1) == ThirdsDoubled(i % 3, ThirdsCount(i % 3, r))
  {
    if r > 0 {
      PerRowPart(i, r - 1);
      ThirdsCountStep(i % 3, r);
      hide ThirdsCount, ThirdsDoubled;
      if r % 3 == i % 3 { ThirdsStep(i % 3, ThirdsCount(i % 3, r)); }
    }
  }

  /** The sum of the first `m` odd numbers, or of the first `m` positive even ones. */
  function HalvesSum(odd: bool, m: nat): nat {
    if odd then m * m else m * m + m
  }

  lemma HalvesStep(odd: bool, m: nat)
    requires m > 0
    ensures HalvesSum(odd, m) == HalvesSum(odd, m - 1) + if odd then 2 * m - 1 else 2 * m
  {
    assert m * m == (m - 1) * (m - 1) + 2 * m - 1;
  }

  lemma {:induction false} CarriedPart(i: nat, r: nat)
    ensures Part(Carried, i, r + 1) == HalvesSum(i % 2 == 1, if i % 2 == 1 then (r + 1) / 2 else r / 2)
  {
    if r > 0 {
      CarriedPart(i, r - 1);
      hide HalvesSum;
      assert Added(Carried, i, r) == if i % 2 == r % 2 then r else 0;
      if i % 2 == r % 2 { HalvesStep(i % 2 == 1, if i % 2 == 1 then (r + 1) / 2 else r / 2); }
    }
  }

  /** The divisors of `i` up to `r` that four does not divide. */
  ghost function Divisors(i: nat, r: nat): set<nat> {
    set d | 1 <= d <= r && i % d == 0 && d % 4 != 0
  }

  /** The sum of the numbers up to `r` that are in a set. */
  ghost function SumIn(s: set<nat>, r: nat): nat {
    if r == 0 then 0 else SumIn(s, r - 1) + if r in s then r else 0
  }

  lemma {:induction false} SumInSame(s: set<nat>, t: set<nat>, r: nat)
    requires forall d | 1 <= d <= r :: d in s <==> d in t
    ensures SumIn(s, r) == SumIn(t, r)
  {
    if r > 0 { SumInSame(s, t, r - 1); }
  }

  lemma {:induction false} SkippingPart(i: nat, r: nat)
    ensures Part(Skipping, i, r + 1) == SumIn(Divisors(i, r), r) + |Divisors(i, r)| - (r - r / 4)
  {
    if r == 0 {
      assert Divisors(i, 0) == {};
    } else {
      SkippingPart(i, r - 1);
      var before, now := Divisors(i, r - 1), Divisors(i, r);
      assert now == if i % r == 0 && r % 4 != 0 then before + {r} else before;
      SumInSame(before, now, r - 1);
    }
  }

  /**
   With r the integer square root: `perRow` adds twice the counters congruent to the row
   by three, `carried` those of its parity, and `skipping` the divisors, less one for
   every other counter that four does not divide.
   */
  lemma RowValue(i: nat)
    ensures var r := Isqrt(i);
            && (i % 3 == 0 ==> var m := r / 3; Row(PerRow, i) == 3 * (m * m) + 3 * m)
            && (i % 3 == 1 ==> var m := (r + 2) / 3; Row(PerRow, i) == 3 * (m * m) - m)
            && (i % 3 == 2 ==> var m := (r + 1) / 3; Row(PerRow, i) == 3 * (m * m) + m)
            && (i % 2 == 1 ==> var m := (r + 1) / 2; Row(Carried, i) == m * m)
            && (i % 2 == 0 ==> var m := r / 2; Row(Carried, i) == m * m + m)
            && Row(Skipping, i) == SumIn(Divisors(i, r), r) + |Divisors(i, r)| - (r - r / 4)
  {
    var r := Isqrt(i);
    PerRowPart(i, r);
    CarriedPart(i, r);
    SkippingPart(i, r);
    hide Isqrt, Part, SumIn, Divisors;
  }

  function Triangle(n: nat): nat { if n == 0 then 0 else Triangle(n - 1) + n }

  lemma {:induction false} TriangleClosed(n: nat)
    ensures 2 * Triangle(n) == n * (n + 1)
  {
    if n > 0 {
      TriangleClosed(n - 1);
      assert (n - 1) * n + 2 * n == n * (n + 1);
    }
  }

  lemma {:induction false} TriangleMonotone(i: nat, n: nat)
    requires i <= n
    ensures Triangle(i) <= Triangle(n)
  {
    if i < n { TriangleMonotone(i, n - 1); }
  }

  /** The triangle over the integer square root of a positive number is at most that number. */
  lemma TriangleOfRoot(i: nat, r: nat)
    requires r <= Isqrt(i)
    ensures Triangle(r) <= i && r <= i
  {
    if r > 0 {
      CounterBelow(i, r);
      TriangleClosed(r);
      assert r * (r + 1) == r * r + r;
    }
  }

  /** The steps of `perRow` are at most twice their counter, the others at most the counter. */
  function Weighted(p: Sum, bound: nat): nat { if p.PerRow? then 2 * bound else bound }

  lemma {:induction false} PartBound(p: Sum, i: nat, d: nat)
    requires d >= 1
    ensures Abs(Part(p, i, d)) <= Weighted(p, Triangle(d - 1))
    ensures Part(p, i, d) >= if p.Skipping? then 1 - d else 0
  {
    if d > 1 {
      PartBound(p, i, d - 1);
      assert Abs(Added(p, i, d - 1)) <= Weighted(p, d - 1);
    }
  }

  /** With r the integer square root, a row lies between 0 (or -r) and r * (r + 1) / 2, doubled for `perRow`. */
  lemma RowBound(p: Sum, i: nat)
    ensures Abs(Row(p, i)) <= Weighted(p, Triangle(Isqrt(i))) <= Weighted(p, i)
    ensures Row(p, i) >= if p.Skipping? then 0 - Isqrt(i) else 0
  {
    var r := Isqrt(i);
    hide Isqrt, Part, Triangle;
    PartBound(p, i, r + 1);
    TriangleOfRoot(i, r);
  }

  lemma {:induction false} RowsBound(p: Sum, n: nat)
    ensures Abs(Rows(p, n)) <= Weighted(p, Triangle(n))
  {
    if n > 0 {
      RowsBound(p, n - 1);
      RowBound(p, n);
      hide Row, Isqrt;
    }
  }

  /** Every partial sum is exact while the bound for `n` rows is at most 2^53. */
  lemma PartialExact(p: Sum, n: nat, i: nat, d: nat)
    requires Weighted(p, Triangle(n)) <= TWO53 && 1 <= i <= n && 1 <= d <= Isqrt(i)
    ensures Part(p, i, d + 1) == Part(p, i, d) + Added(p, i, d)
    ensures Round(Part(p, i, d + 1)) == Part(p, i, d + 1)
    ensures Round(Rows(p, i - 1) + Part(p, i, d + 1)) == Rows(p, i - 1) + Part(p, i, d + 1)
  {
    PartStep(p, i, d);
    hide *;
    PartFits(p, i, d);
    RowsFit(p, n, i);
    WithinBound(p, Rows(p, i - 1), Part(p, i, d + 1), Triangle(i - 1), i);
  }

  lemma PartFits(p: Sum, i: nat, d: nat)
    requires 1 <= d <= Isqrt(i)
    ensures Abs(Part(p, i, d + 1)) <= Weighted(p, i)
  {
    hide Isqrt, Part, Triangle;
    PartBound(p, i, d + 1);
    TriangleOfRoot(i, d);
  }

  lemma RowsFit(p: Sum, n: nat, i: nat)
    requires Weighted(p, Triangle(n)) <= TWO53 && 1 <= i <= n
    ensures Abs(Rows(p, i - 1)) <= Weighted(p, Triangle(i - 1)) && Weighted(p, Triangle(i - 1) + i) <= TWO53
  {
    RowsBound(p, i - 1);
    TriangleMonotone(i, n);
    assert Triangle(i - 1) + i == Triangle(i);
    hide Rows, Triangle;
  }

  lemma PartStep(p: Sum, i: nat, d: nat)
    requires i >= 1 && d >= 1
    ensures Part(p, i, d + 1) == Part(p, i, d) + Added(p, i, d)
    ensures Triangle(i - 1) + i == Triangle(i)
  {
  }

  lemma WithinBound(p: Sum, x: int, y: int, a: nat, b: nat)
    requires Abs(x) <= Weighted(p, a) && Abs(y) <= Weighted(p, b) && Weighted(p, a + b) <= TWO53
    ensures Round(y) == y && Round(x + y) == x + y
  {
    hide Round;
    SmallIsExact(y);
    SmallIsExact(x + y);
  }

  lemma TotalExact(p: Sum, n: nat, i: nat)
    requires Weighted(p, Triangle(n)) <= TWO53 && 1 <= i <= n
    ensures Round(Rows(p, i - 1) + Row(p, i)) == Rows(p, i)
    ensures i < TWO53 && Round(i + 1) == i + 1
  {
    RowsBound(p, i);
    TriangleMonotone(i, n);
    SmallRows(i);
    hide Row, Round, Triangle;
    SmallIsExact(Rows(p, i));
    SmallIsExact(i + 1);
  }

  lemma {:induction false} SmallRows(i: nat)
    requires Triangle(i) <= TWO53
    ensures i < TWO53
  {
    if i >= 2 { TriangleMonotone(1, i - 1); }
  }

  /** The test of the inner loops. */
  lemma RowTest(i: nat, d: nat)
    requires 1 <= i < TWO53 && 1 <= d <= Isqrt(i) + 1
    ensures Round(d * d) <= i <==> d <= Isqrt(i)
    ensures Round(d + 1) == d + 1
  {
    TriangleOfRoot(i, Isqrt(i));
    SmallIsExact(i);
    SmallTurns(i);
    hide Isqrt, Round, Turns, Triangle;
    SquareTest(i, d);
    SmallIsExact(d + 1);
  }

  /** `perRow`: no partial sum rounds while n * (n + 1) is at most 2^53. */
  method RowsPerRow(n: nat) returns (total: int)
    requires n * (n + 1) <= TWO53
    ensures total == Rows(PerRow, n)
  {
    hide Round, Isqrt, Part, Triangle;
    TriangleClosed(n);
    total := 0;
    var i := 1;
    while i <= n
      invariant 1 <= i <= n + 1 && total == Rows(PerRow, i - 1)
      decreases n - i
    {
      TotalExact(PerRow, n, i);
      RowTest(i, 1);
      PartEmpty(PerRow, i);
      var s := 0;
      var d := 1;
      while Round(d * d) <= i
        invariant 1 <= d <= Isqrt(i) + 1 && s == Part(PerRow, i, d)
        decreases Isqrt(i) - d
      {
        RowTest(i, d);
        PartialExact(PerRow, n, i, d);
        if i % 3 == d % 3 { s := Round(s + d * 2); }
        d := Round(d + 1);
      }
      RowTest(i, d);
      total := Round(total + s);
      i := Round(i + 1);
    }
  }

  lemma PartEmpty(p: Sum, i: nat)
    ensures Part(p, i, 1) == 0
  {
  }

  /** `carried`: one sum over all rows. */
  method RowsCarried(n: nat) returns (s: int)
    requires n * (n + 1) <= 2 * TWO53
    ensures s == Rows(Carried, n)
  {
    hide Round, Isqrt, Part, Triangle;
    TriangleClosed(n);
    s := 0;
    var i := 1;
    while i <= n
      invariant 1 <= i <= n + 1 && s == Rows(Carried, i - 1)
      decreases n - i
    {
      TotalExact(Carried, n, i);
      RowTest(i, 1);
      PartEmpty(Carried, i);
      var d := 1;
      while Round(d * d) <= i
        invariant 1 <= d <= Isqrt(i) + 1 && s == Rows(Carried, i - 1) + Part(Carried, i, d)
        decreases Isqrt(i) - d
      {
        RowTest(i, d);
        PartialExact(Carried, n, i, d);
        if (i + d) % 2 == 0 { s := Round(s + d); }
        d := Round(d + 1);
      }
      RowTest(i, d);
      i := Round(i + 1);
    }
  }

  /** `skipping`: every fourth counter is passed over, and a counter that does not divide takes one away. */
  method RowsSkipping(n: nat) returns (total: int)
    requires n * (n + 1) <= 2 * TWO53
    ensures total == Rows(Skipping, n)
  {
    hide Round, Isqrt, Part, Triangle;
    TriangleClosed(n);
    total := 0;
    var i := 1;
    while i <= n
      invariant 1 <= i <= n + 1 && total == Rows(Skipping, i - 1)
      decreases n - i
    {
      TotalExact(Skipping, n, i);
      RowTest(i, 1);
      PartEmpty(Skipping, i);
      var s := 0;
      var d := 1;
      while Round(d * d) <= i
        invariant 1 <= d <= Isqrt(i) + 1 && s == Part(Skipping, i, d)
        decreases Isqrt(i) - d
      {
        RowTest(i, d);
        PartialExact(Skipping, n, i, d);
        if d % 4 != 0 {
          if i % d == 0 { s := Round(s + d); } else { s := Round(s - 1); }
        }
        d := Round(d + 1);
      }
      RowTest(i, d);
      total := Round(total + s);
      i := Round(i + 1);
    }
  }
}
