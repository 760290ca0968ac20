/**
 * The 48-bit linear congruential step of `Random::next` and its period.
 * The step is studied without the 48-bit mask (`Raw`) and then reduced modulo 2^48.
 */
module LinearCongruential {
  import opened Numbers

  const MULTIPLIER: int := 0x5DEECE66D
  const ADDEND: int := 0xB
  const PERIOD: int := 0x1_0000_0000_0000

  type Seed = x: int | 0 <= x < PERIOD

  /** One update of the seed: multiply, add, keep 48 bits. */
  function Step(x: Seed): Seed {
    (x * MULTIPLIER + ADDEND) % PERIOD
  }

  /** The seed after `n` updates. */
  ghost function Iterate(n: nat, x: Seed): Seed {
    if n == 0 then x else Step(Iterate(n - 1, x))
  }

  /** `n` updates without the mask. */
  ghost function Raw(n: nat, x: int): int {
    if n == 0 then x else Raw(n - 1, x) * MULTIPLIER + ADDEND
  }

  lemma {:induction false} RawAdd(m: nat, n: nat, x: int)
    ensures Raw(m + n, x) == Raw(n, Raw(m, x))
  {
    if n > 0 {
      RawAdd(m, n - 1, x);
      assert m + n - 1 == m + (n - 1);
    }
  }

  lemma {:induction false} IterateAdd(m: nat, n: nat, x: Seed)
    ensures Iterate(m + n, x) == Iterate(n, Iterate(m, x))
  {
    if n > 0 {
      IterateAdd(m, n - 1, x);
      assert m + n - 1 == m + (n - 1);
    }
  }

  lemma {:induction false} IterateIsRawMasked(n: nat, x: Seed)
    ensures Iterate(n, x) == Raw(n, x) % PERIOD
  {
    if n > 0 {
      IterateIsRawMasked(n - 1, x);
      var r := Raw(n - 1, x);
      var q := r / PERIOD;
      assert r * MULTIPLIER + ADDEND - ((r % PERIOD) * MULTIPLIER + ADDEND) == PERIOD * (q * MULTIPLIER);
      MultipleHasNoRemainder(PERIOD, q * MULTIPLIER);
      SameRemainder(r * MULTIPLIER + ADDEND, (r % PERIOD) * MULTIPLIER + ADDEND, PERIOD);
    }
  }

  // ---------------------------------------------------------------------------
  // 2^k updates: x becomes (1 + 4 * 2^k * Slope(k)) * x + 2^k * (2 * Offset(k) + 1)
  // ---------------------------------------------------------------------------

  ghost function Slope(k: nat): int {
    if k == 0 then (MULTIPLIER - 1) / 4
    else Slope(k - 1) + 2 * Pow2(k - 1) * Slope(k - 1) * Slope(k - 1)
  }

  ghost function Offset(k: nat): int {
    if k == 0 then (ADDEND - 1) / 2
    else Offset(k - 1) + Pow2(k - 1) * Slope(k - 1) * (2 * Offset(k - 1) + 1)
  }

  ghost function Leap(k: nat, x: int): int {
    LeapBy(Pow2(k), Slope(k), Offset(k), x)
  }

  ghost function LeapBy(p: int, s: int, o: int, x: int): int {
    x + p * (2 * (2 * s * x + o) + 1)
  }

  lemma LeapTwice(k: nat, x: int)
    ensures Leap(k, Leap(k, x)) == Leap(k + 1, x)
  {
    var p, s, o := Pow2(k), Slope(k), Offset(k);
    LeapByTwice(p, s, o, x, s + 2 * p * s * s, o + p * s * (2 * o + 1));
  }

  lemma LeapByTwice(p: int, s: int, o: int, x: int, s': int, o': int)
    requires s' == s + 2 * p * s * s && o' == o + p * s * (2 * o + 1)
    ensures LeapBy(p, s, o, LeapBy(p, s, o, x)) == LeapBy(2 * p, s', o', x)
  {
    LeapAlgebra(p, s, o, x);
  }

  lemma LeapAlgebra(p: int, s: int, o: int, x: int)
    ensures var z := x + p * (2 * (2 * s * x + o) + 1);
            z + p * (2 * (2 * s * z + o) + 1)
            == x + 2 * p * (2 * (2 * (s + 2 * p * s * s) * x + (o + p * s * (2 * o + 1))) + 1)
  {}

  lemma LeapOne(x: int)
    ensures Raw(1, x) == Leap(0, x)
  {
    assert Raw(1, x) == Raw(0, x) * MULTIPLIER + ADDEND;
    assert Leap(0, x) == LeapBy(1, Slope(0), Offset(0), x);
  }

  lemma {:induction false} RawIsLeap(k: nat, x: int)
    ensures Raw(Pow2(k), x) == Leap(k, x)
  {
    if k == 0 {
      LeapOne(x);
    } else {
      var h := Pow2(k - 1);
      RawAdd(h, h, x);
      RawIsLeap(k - 1, x);
      RawIsLeap(k - 1, Leap(k - 1, x));
      LeapTwice(k - 1, x);
    }
  }

  /** 2^k updates move the seed by an odd multiple of 2^k. */
  lemma RawLeap(k: nat, x: int) returns (w: int)
    ensures Raw(Pow2(k), x) == x + Pow2(k) * (2 * w + 1)
  {
    RawIsLeap(k, x);
    w := 2 * Slope(k) * x + Offset(k);
  }

  /** q * 2^k updates move the seed by q * 2^k, up to a multiple of 2^(k+1). */
  lemma {:induction false} RawLeaps(q: nat, k: nat, x: int) returns (t: int)
    ensures Raw(Pow2(k) * q, x) == x + Pow2(k) * (q + 2 * t)
  {
    if q == 0 {
      t := 0;
    } else {
      var p := Pow2(k);
      var t' := RawLeaps(q - 1, k, x);
      Distribute(p, q - 1, 1);
      Monotone(p, q);
      RawAdd(p * (q - 1), p, x);
      var w := RawLeap(k, Raw(p * (q - 1), x));
      t := t' + w;
      Distribute(p, q - 1 + 2 * t', 2 * w + 1);
      assert q - 1 + 2 * t' + (2 * w + 1) == q + 2 * t;
    }
  }

  lemma ParityDecides(p: nat, d: int, n: int, q: int, t: int)
    requires p > 0 && n == p * q && d == p * (q + 2 * t)
    ensures d % (2 * p) == 0 <==> n % (2 * p) == 0
  {
    HalfDividesBy(d, p, q + 2 * t);
    HalfDividesBy(n, p, q);
  }

  /** The low k bits return to where they were exactly every 2^k updates. */
  lemma {:induction false} RawReturns(k: nat, n: nat, x: int)
    ensures (Raw(n, x) - x) % Pow2(k) == 0 <==> n % Pow2(k) == 0
  {
    if k > 0 {
      var p := Pow2(k - 1);
      RawReturns(k - 1, n, x);
      HalfDivides(Raw(n, x) - x, p);
      HalfDivides(n, p);
      if n % p == 0 {
        var q := n / p;
        var t := RawLeaps(q, k - 1, x);
        ParityDecides(p, Raw(n, x) - x, n, q, t);
      }
    }
  }

  lemma ReachOneMoreBit(k: nat, n: nat, x: int, y: int, t: int) returns (n': nat, t': int)
    requires n < Pow2(k) && Raw(n, x) == y + Pow2(k) * t
    ensures n' < Pow2(k + 1) && Raw(n', x) == y + Pow2(k + 1) * t'
  {
    var p := Pow2(k);
    assert Pow2(k + 1) == 2 * p;
    if t % 2 == 0 {
      n', t' := n, t / 2;
      HalveQuotient(p, t, t');
    } else {
      RawAdd(n, p, x);
      var w := RawLeap(k, Raw(n, x));
      Distribute(p, t, 2 * w + 1);
      n', t' := n + p, t / 2 + w + 1;
      HalveQuotient(p, t + (2 * w + 1), t');
    }
  }

  /** Fewer than 2^k updates reach any wanted pattern of the low k bits. */
  lemma {:induction false} RawReaches(k: nat, x: int, y: int) returns (n: nat, t: int)
    ensures n < Pow2(k) && Raw(n, x) == y + Pow2(k) * t
  {
    if k == 0 {
      n, t := 0, x - y;
    } else {
      n, t := RawReaches(k - 1, x, y);
      n, t := ReachOneMoreBit(k - 1, n, x, y, t);
    }
  }

  // ---------------------------------------------------------------------------
  // The period
  // ---------------------------------------------------------------------------

  lemma Pow2Of48()
    ensures Pow2(48) == PERIOD
  {
    assert Pow2(4) == 16;
    Pow2Add(4, 4);
    Pow2Add(8, 8);
    Pow2Add(16, 16);
    Pow2Add(32, 16);
  }

  /** The low k bits of the seed have period exactly 2^k: the low bits cycle fast. */
  lemma LowBitsPeriod(k: nat, n: nat, x: Seed)
    requires k <= 48
    ensures Iterate(n, x) % Pow2(k) == x % Pow2(k) <==> n % Pow2(k) == 0
  {
    var p, c := Pow2(k), Pow2(48 - k);
    var r := Raw(n, x);
    var q := r / PERIOD;
    Pow2Of48();
    Pow2Add(k, 48 - k);
    IterateIsRawMasked(n, x);
    assert r - Iterate(n, x) == PERIOD * q;
    Regroup(p, c, q);
    MultipleHasNoRemainder(p, c * q);
    SameRemainder(r, Iterate(n, x), p);
    SameRemainder(r, x, p);
    RawReturns(k, n, x);
  }

  /** A seed comes back exactly after the multiples of 2^48 updates. */
  lemma ReturnsExactlyAfterPeriods(n: nat, x: Seed)
    ensures Iterate(n, x) == x <==> n % PERIOD == 0
  {
    var y := Iterate(n, x);
    Pow2Of48();
    LowBitsPeriod(48, n, x);
    RemainderIsUnique(x, PERIOD, 0, x);
    RemainderIsUnique(y, PERIOD, 0, y);
  }

  /** No update leaves the seed where it was. */
  lemma NoFixedPoint(x: Seed)
    ensures Step(x) != x
  {
    ReturnsExactlyAfterPeriods(1, x);
    assert Iterate(1, x) == Step(Iterate(0, x));
  }

  lemma {:induction false} StepIsInjective(x: Seed, y: Seed)
    ensures Step(x) == Step(y) ==> x == y
  {
    if Step(x) == Step(y) {
      var last := (PERIOD - 1) as nat;
      ReturnsExactlyAfterPeriods(PERIOD, x);
      ReturnsExactlyAfterPeriods(PERIOD, y);
      IterateAdd(1, last, x);
      IterateAdd(1, last, y);
      assert Iterate(1, x) == Step(Iterate(0, x)) && Iterate(1, y) == Step(Iterate(0, y));
    }
  }

  // ---------------------------------------------------------------------------
  // Which generator it is
  // ---------------------------------------------------------------------------

  /** The generator runs backwards by the inverse of its multiplier modulo 2^48. */
  lemma StepBackwards(x: Seed, y: Seed)
    ensures Step(x) == y <==> x == (y - 0xB) * 0xDFE05BCB1365 % PERIOD
  {
    var z: Seed := (y - 0xB) * 0xDFE05BCB1365 % PERIOD;
    InverseOfMultiplier(y - 0xB, (y - 0xB) * 0xDFE05BCB1365 / PERIOD);
    StepIsInjective(x, z);
  }

  lemma InverseOfMultiplier(d: int, q: int)
    requires 0 <= d + 0xB < PERIOD
    ensures ((d * 0xDFE05BCB1365 - PERIOD * q) * 0x5DEECE66D + 0xB) % PERIOD == d + 0xB
  {
    assert 0xDFE05BCB1365 * 0x5DEECE66D == 1 + PERIOD * 0x5_2255_86E9;
    RemainderIsUnique((d * 0xDFE05BCB1365 - PERIOD * q) * 0x5DEECE66D + 0xB, PERIOD,
                      d * 0x5_2255_86E9 - q * 0x5DEECE66D, d + 0xB);
  }

  function Power(b: int, n: nat): int {
    if n == 0 then 1 else b * Power(b, n - 1)
  }

  /** The seed after `n` updates in closed form, multiplied by the multiplier less one. */
  lemma ClosedForm(n: nat, x: Seed) returns (r: int)
    ensures Iterate(n, x) == r % PERIOD
    ensures 0x5DEECE66C * r == Power(0x5DEECE66D, n) * (0x5DEECE66C * x + 0xB) - 0xB
  {
    r := Raw(n, x);
    IterateIsRawMasked(n, x);
    RawClosedForm(n, x);
  }

  lemma {:induction false} RawClosedForm(n: nat, x: int)
    ensures 0x5DEECE66C * Raw(n, x) == Power(0x5DEECE66D, n) * (0x5DEECE66C * x + 0xB) - 0xB
  {
    if n > 0 {
      RawClosedForm(n - 1, x);
      assert Raw(n, x) == Raw(n - 1, x) * 0x5DEECE66D + 0xB;
      Regroup(0x5DEECE66D, Power(0x5DEECE66D, n - 1), 0x5DEECE66C * x + 0xB);
    }
  }

  /** Two seeds of one orbit less than a period apart are different. */
  lemma NoRepeatWithinPeriod(x: Seed, m: nat, n: nat)
    requires m < n < m + PERIOD
    ensures Iterate(m, x) != Iterate(n, x)
  {
    var z := Iterate(m, x);
    IterateAdd(m, n - m, x);
    ReturnsExactlyAfterPeriods(n - m, z);
  }

  lemma SomeStepsTo(x: Seed, y: Seed) returns (n: nat)
    ensures n < PERIOD && Iterate(n, x) == y
  {
    Pow2Of48();
    var t;
    n, t := RawReaches(48, x, y);
    IterateIsRawMasked(n, x);
    RemainderIsUnique(Raw(n, x), PERIOD, t, y);
  }

  lemma StepsAreUnique(x: Seed, m: nat, n: nat)
    requires m < PERIOD && n < PERIOD && Iterate(m, x) == Iterate(n, x)
    ensures m == n
  {
    if m < n {
      NoRepeatWithinPeriod(x, m, n);
    } else if n < m {
      NoRepeatWithinPeriod(x, n, m);
    }
  }

  /** How many updates lead from `x` to `y`. */
  ghost function Steps(x: Seed, y: Seed): (n: nat)
    ensures n < PERIOD && Iterate(n, x) == y
  {
    assert exists n: nat :: n < PERIOD && Iterate(n, x) == y by {
      var n := SomeStepsTo(x, y);
    }
    var n: nat :| n < PERIOD && Iterate(n, x) == y;
    n
  }

  /** Full period: from every seed, every seed is visited exactly once in 2^48 updates. */
  lemma FullPeriod(x: Seed, y: Seed)
    ensures exists n: nat :: n < PERIOD && Iterate(n, x) == y
                             && forall m: nat :: m < PERIOD && Iterate(m, x) == y ==> m == n
    ensures Iterate(PERIOD, x) == x
  {
    ReturnsExactlyAfterPeriods(PERIOD, x);
    var n := Steps(x, y);
    forall m: nat | m < PERIOD && Iterate(m, x) == y ensures m == n {
      StepsAreUnique(x, m, n);
    }
  }

  /** An update that does not arrive at `y` brings the orbit one step closer to it. */
  lemma StepsDecrease(x: Seed, y: Seed)
    requires x != y
    ensures Steps(Step(x), y) == Steps(x, y) - 1
  {
    var n := Steps(x, y);
    assert n > 0;
    IterateAdd(1, n - 1, x);
    assert Iterate(1, x) == Step(Iterate(0, x));
    StepsAreUnique(Step(x), n - 1, Steps(Step(x), y));
  }
}
