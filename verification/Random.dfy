/** The pseudorandom generator of include/cetty/util/Random.h. */
module RandomGenerator {
  import opened Bits
  import opened Draws
  import opened LinearCongruential
  import opened Numbers
  import opened Results

  /** The seed that `setSeed(s)` stores. */
  ghost function Scrambled(s: int): Seed {
    Pow2Of48();
    Xor(48, s, MULTIPLIER)
  }

  /** `setSeed` tells apart exactly the seeds that differ in their low 48 bits. */
  lemma ScrambledCollides(s: int, s': int)
    ensures Scrambled(s) == Scrambled(s') <==> s % PERIOD == s' % PERIOD
  {
    Pow2Of48();
    XorTwice(48, s, MULTIPLIER);
    XorTwice(48, s', MULTIPLIER);
    if s % PERIOD == s' % PERIOD {
      XorOfEqualLowBits(48, s, s', MULTIPLIER);
    }
  }

  /** Every state of the generator can be set: scrambling twice restores the low 48 bits. */
  lemma ScrambledTwice(s: int)
    ensures Scrambled(Scrambled(s)) == s % PERIOD
  {
    Pow2Of48();
    XorTwice(48, s, MULTIPLIER);
  }

  /** Scrambling flips the same bits of every argument. */
  lemma ScrambleFlips(s: int)
    ensures Xor(48, s, Scrambled(s)) == 0x5DEECE66D
  {
    Pow2Of48();
    XorUndoes(48, s, MULTIPLIER);
  }

  /** Draw number `k` from the seed `x` is the first that `nextInt(n)` keeps. */
  ghost predicate FirstKept(x: Seed, n: int, k: nat)
    requires 0 < n < TWO_31
  {
    && k < PERIOD
    && Bounded(n, Draw(Nth(x, k))).Some?
    && forall j: nat :: j < k ==> Bounded(n, Draw(Nth(x, j))) == None
  }

  /** From every seed and for every bound some draw of the coming period is kept. */
  lemma SomeDrawIsKept(x: Seed, n: int)
    requires 0 < n < TWO_31
    ensures exists k: nat :: FirstKept(x, n, k)
  {
    var x1 := Step(x);
    var k: nat := Steps(x1, 0);
    IterateAdd(1, k, x);
    assert Iterate(1, x) == Step(Iterate(0, x));
    ZeroIsKept(n);
    assert Bounded(n, Draw(Nth(x, k))).Some?;
    FirstKeptUpTo(x, n, k);
  }

  lemma {:induction false} FirstKeptUpTo(x: Seed, n: int, k: nat)
    requires 0 < n < TWO_31 && k < PERIOD && Bounded(n, Draw(Nth(x, k))).Some?
    ensures exists k': nat :: FirstKept(x, n, k')
  {
    if j: nat :| j < k && Bounded(n, Draw(Nth(x, j))) != None {
      FirstKeptUpTo(x, n, j);
    } else {
      assert FirstKept(x, n, k);
    }
  }

  /** How many draws a call of `nextInt(n)` rejects. */
  ghost function Rejects(x: Seed, n: int): (k: nat)
    requires 0 < n < TWO_31
    ensures FirstKept(x, n, k) && forall j: nat :: FirstKept(x, n, j) ==> j == k
  {
    SomeDrawIsKept(x, n);
    var k: nat :| FirstKept(x, n, k);
    assert forall j: nat :: FirstKept(x, n, j) ==> !(j < k) && !(k < j);
    k
  }

  /** The seed that a call of `nextInt(n)` leaves. */
  ghost function Called(x: Seed, n: int): Seed
    requires 0 < n < TWO_31
  {
    Nth(x, Rejects(x, n))
  }

  /** What the call returns. */
  ghost function Returned(x: Seed, n: int): (v: int)
    requires 0 < n < TWO_31
    ensures Bounded(n, Draw(Called(x, n))) == Some(v)
  {
    Bounded(n, Draw(Called(x, n))).value
  }

  /** A power of two never needs a second draw. */
  lemma PowerOfTwoKeepsFirst(x: Seed, n: int)
    requires 0 < n < TWO_31 && IsPow2(n)
    ensures FirstKept(x, n, 0)
  {}

  lemma DrawIsOutput(s: Seed)
    ensures Output(s, 31) == Draw(s)
  {
    Pow2OfWords();
  }

  /** The 48-bit mask undoes the 64-bit overflow of the product. */
  lemma MaskUndoesOverflow(x: int)
    ensures Wrap64(Wrap64(x * MULTIPLIER) + ADDEND) % PERIOD == (x * MULTIPLIER + ADDEND) % PERIOD
  {
    var y := x * MULTIPLIER;
    SameMask(y);
    SameMask(Wrap64(y) + ADDEND);
    SameRemainder(Wrap64(y), y, PERIOD);
    SameRemainder(Wrap64(y) + ADDEND, y + ADDEND, PERIOD);
  }

  lemma SameMask(x: int)
    ensures Wrap64(x) % PERIOD == x % PERIOD
  {
    assert TWO_64 == PERIOD * 0x1_0000;
  }

  class Random {
    var seed: Seed

    /** The generator started with an explicit seed. */
    constructor (s: int)
      ensures seed == Scrambled(s) && Xor(48, s, seed) == 0x5DEECE66D
    {
      this.seed := 0;
      new;
      SetSeed(s);
    }

    method SetSeed(s: int)
      modifies this
      ensures seed == Scrambled(s) && Xor(48, s, seed) == 0x5DEECE66D
    {
      ScrambleFlips(s);
      Pow2Of48();
      XorIgnoresHighBits(64, 48, s, MULTIPLIER);
      seed := Xor(64, s, MULTIPLIER) % PERIOD;
    }

    /** Steps the seed once and returns its top bits; the retry loop never runs twice. */
    method Next(bits: nat) returns (r: int)
      requires 1 <= bits <= 32
      modifies this
      ensures seed == Step(old(seed)) && r == Output(seed, bits)
      ensures seed == (old(seed) * 0x5DEECE66D + 0xB) % 0x1_0000_0000_0000
    {
      var stored := false;
      var nextseed: Seed := seed;
      while !stored
        invariant stored ==> seed == nextseed == Step(old(seed))
        invariant !stored ==> seed == old(seed)
        decreases !stored
      {
        var oldseed := seed;
        MaskUndoesOverflow(oldseed);
        nextseed := Wrap64(Wrap64(oldseed * MULTIPLIER) + ADDEND) % PERIOD;
        NoFixedPoint(oldseed);
        if oldseed != nextseed {
          seed := nextseed;
          stored := true;
        }
      }
      r := Wrap32(nextseed / Pow2(48 - bits));
    }

    /**
     * A value in [0, n): the result of the first draw that is kept. Every bound and every seed
     * needs at most one period of draws.
     */
    method NextInt(n: int) returns (r: Result<int>)
      requires -TWO_31 <= n < TWO_31
      modifies this
      ensures n <= 0 ==> r == Thrown(InvalidArgumentException) && seed == old(seed)
      ensures n > 0 ==> r.Ok? && 0 <= r.value < n
      ensures n > 0 ==> Bounded(n, Draw(seed)) == Some(r.value)
      ensures n > 0 ==> exists k: nat :: k < PERIOD && seed == Nth(old(seed), k)
                                         && forall j: nat :: j < k ==> Bounded(n, Draw(Nth(old(seed), j))) == None
      ensures n > 0 ==> seed == Called(old(seed), n) && r.value == Returned(old(seed), n)
    {
      if n <= 0 {
        return Thrown(InvalidArgumentException);
      }
      ghost var x := seed;
      FirstDraw(x);
      IsPow2Test(n);
      if And(n, -n % TWO_32) == n {
        var draw := Next(31);
        PowerOfTwoResult(n, draw);
        PowerOfTwoKeepsFirst(x, n);
        return Ok(Wrap32(n * draw / TWO_31));
      }
      var draw := Next(31);
      var val := draw % n;
      ghost var k: nat := 0;
      while Wrap32(draw - val + (n - 1)) < 0
        invariant draw == Draw(seed) && val == draw % n && seed == Nth(x, k)
        invariant Steps(seed, 0) + k == Steps(Nth(x, 0), 0)
        invariant forall j: nat :: j < k ==> Bounded(n, Draw(Nth(x, j))) == None
        decreases Steps(seed, 0)
      {
        RejectedDraw(n, seed);
        draw := Next(31);
        val := draw % n;
        k := k + 1;
      }
      KeptDraw(n, draw);
      assert FirstKept(x, n, k);
      return Ok(val);
    }

    /** The numerator of `nextDouble`: 26 and 27 bits side by side, below 2^53. */
    method NextDoubleNumerator() returns (r: int)
      modifies this
      ensures seed == Step(Step(old(seed)))
      ensures 0 <= r < 0x20_0000_0000_0000
      ensures r / 0x800_0000 == Output(Step(old(seed)), 26) && r % 0x800_0000 == Output(seed, 27)
    {
      HalvesInRange(Step(seed));
      var high := Next(26);
      HalvesInRange(Step(seed));
      var low := Next(27);
      HalvesJoin(high, low);
      r := Wrap64(high * 0x800_0000) + low;
    }
  }

  lemma PowerOfTwoResult(n: int, draw: int)
    requires 0 < n < TWO_31 && IsPow2(n) && 0 <= draw < TWO_31
    ensures 0 <= Wrap32(n * draw / TWO_31) < n
    ensures Bounded(n, draw) == Some(Wrap32(n * draw / TWO_31))
  {
    ScaledDraw(n, draw);
    ResultInRange(n, draw);
  }

  lemma RejectedDraw(n: int, s: Seed)
    requires 0 < n < TWO_31 && !IsPow2(n) && Wrap32(Draw(s) - Draw(s) % n + (n - 1)) < 0
    ensures Bounded(n, Draw(s)) == None
    ensures Steps(Step(s), 0) == Steps(s, 0) - 1
    ensures Output(Step(s), 31) == Draw(Step(s))
  {
    WrappedTestRejects(n, Draw(s));
    ZeroIsKept(n);
    StepsDecrease(s, 0);
    DrawIsOutput(Step(s));
  }

  lemma KeptDraw(n: int, draw: int)
    requires 0 < n < TWO_31 && !IsPow2(n) && 0 <= draw < TWO_31
    requires Wrap32(draw - draw % n + (n - 1)) >= 0
    ensures Bounded(n, draw) == Some(draw % n)
  {
    WrappedTestRejects(n, draw);
  }

  lemma IsPow2Test(n: int)
    requires 0 < n < TWO_31
    ensures And(n, -n % TWO_32) == n <==> IsPow2(n)
  {
    NegationPattern(n);
    Pow2OfWord();
    AndNegationFindsPowersOfTwo(32, n);
  }

  lemma Pow2OfWord()
    ensures Pow2(32) == TWO_32
  {
    Pow2OfWords();
  }

  lemma NegationPattern(n: int)
    requires 0 < n < TWO_31
    ensures -n % TWO_32 == TWO_32 - n
  {}

  lemma FirstDraw(x: Seed)
    ensures Nth(x, 0) == Step(x) && Output(Step(x), 31) == Draw(Step(x))
  {
    DrawIsOutput(Step(x));
    assert Iterate(1, x) == Step(Iterate(0, x));
  }

  lemma HalvesJoin(high: int, low: int)
    requires 0 <= high < 0x400_0000 && 0 <= low < 0x800_0000
    ensures var r := Wrap64(high * 0x800_0000) + low;
            0 <= r < 0x20_0000_0000_0000 && r / 0x800_0000 == high && r % 0x800_0000 == low
  {
    assert Wrap64(high * 0x800_0000) == high * 0x800_0000;
  }

  lemma HalvesInRange(s: Seed)
    ensures 0 <= Output(s, 26) < 0x400_0000 && 0 <= Output(s, 27) < 0x800_0000
  {
    Pow2OfWords();
    assert Pow2(21) == 32 * Pow2(16) && Pow2(22) == 2 * Pow2(21) by {
      Pow2Add(5, 16);
      assert Pow2(5) == 32;
    }
  }
}
