/**
 * What `Random` returns for a seed, and how often it returns it: over one period every
 * output of `next(bits)` and every result of `nextInt(n)` occurs equally often.
 */
module Draws {
  import opened Bits
  import opened LinearCongruential
  import opened Numbers
  import opened Results

  /** The top `bits` bits of the 48-bit seed, as an `int`. */
  function Output(s: Seed, bits: nat): (r: int)
    requires 1 <= bits <= 32
  {
    Wrap32(s / Pow2(48 - bits))
  }

  /** The 31-bit draw of a seed. */
  function Draw(s: Seed): (b: int)
    ensures 0 <= b < TWO_31 && b * 0x2_0000 <= s < (b + 1) * 0x2_0000
  {
    s / 0x2_0000
  }

  /** How many draws are kept for each result of `nextInt(n)`. */
  function Share(n: int): int
    requires n > 0
  {
    TWO_31 / n
  }

  /**
   * The result `nextInt(n)` takes from a 31-bit draw, or none when it draws again: the high
   * bits for a power of two, otherwise the remainder, kept only below the last whole bucket.
   */
  function Bounded(n: int, draw: int): Option<int>
    requires 0 < n < TWO_31 && 0 <= draw
  {
    if IsPow2(n) then Some(draw / Share(n))
    else if draw < n * Share(n) then Some(draw % n)
    else None
  }

  // ---------------------------------------------------------------------------
  // Powers of two as 31-bit bounds
  // ---------------------------------------------------------------------------

  lemma Pow2Divides(n: int)
    requires 0 < n < TWO_31 && IsPow2(n)
    ensures TWO_31 == n * Share(n)
  {
    var j: nat :| j < n && n == Pow2(j);
    Pow2OfWords();
    if j >= 31 {
      Pow2Monotone(31, j);
      assert false;
    }
    Pow2Add(j, 31 - j);
    RemainderIsUnique(TWO_31, n, Pow2(31 - j), 0);
  }

  /** Dropping low bits in two goes drops them all. */
  lemma DivideTwice(x: nat, a: nat, b: nat)
    requires a > 0 && b > 0
    ensures a * b > 0 && x / a / b == x / (a * b)
  {
    var q := x / a / b;
    Monotone(a, b);
    Distribute(a, b * q, x / a % b);
    Regroup(a, b, q);
    Distribute(a, b, x / a % b + 1);
    Distribute(a, x / a % b, 1);
    Monotone(a, b - (x / a % b + 1));
    Monotone(a, x / a % b);
    RemainderIsUnique(x, a * b, q, a * (x / a % b) + x % a);
  }

  lemma ShareOfPow2(j: nat)
    requires j <= 30
    ensures 0 < Pow2(j) < TWO_31 && IsPow2(Pow2(j)) && Share(Pow2(j)) == Pow2(31 - j)
  {
    Pow2OfWords();
    Pow2Monotone(j, 30);
    BelowPow2(j);
    Pow2Add(j, 31 - j);
    RemainderIsUnique(TWO_31, Pow2(j), Pow2(31 - j), 0);
  }

  lemma OutputIsQuotient(s: Seed, j: nat)
    requires 1 <= j <= 31
    ensures Output(s, j) == s / Pow2(48 - j)
  {
    QuotientFits(s, j);
    var q := s / Pow2(48 - j);
    PeriodInBuckets(j);
    OutputIsBucket(s, j, q, q);
  }

  lemma QuotientBelow(s: int, m: nat, n: nat)
    requires 0 <= s < m * n && 0 < m
    ensures 0 <= s / m < n
  {
    BucketIndex(m, n, s);
  }

  lemma QuotientFits(s: Seed, bits: nat)
    requires 1 <= bits <= 32
    ensures 0 <= s / Pow2(48 - bits) < Pow2(bits)
  {
    PeriodInBuckets(bits);
    QuotientBelow(s, Pow2(48 - bits), Pow2(bits));
  }

  /** `nextInt` of a power of two returns the high-order bits of the seed, as `next` does. */
  lemma PowerOfTwoGivesHighBits(s: Seed, j: nat)
    requires 1 <= j <= 30
    ensures 0 < Pow2(j) < TWO_31
    ensures Bounded(Pow2(j), Draw(s)) == Some(s / Pow2(48 - j)) == Some(Output(s, j))
  {
    ShareOfPow2(j);
    Pow2OfWords();
    Pow2Add(17, 31 - j);
    DivideTwice(s, 0x2_0000, Pow2(31 - j));
    OutputIsQuotient(s, j);
  }

  /** In the power-of-two branch, scaling by n and dropping 31 bits keeps the high bits. */
  lemma ScaledDraw(n: int, draw: int)
    requires 0 < n < TWO_31 && IsPow2(n) && 0 <= draw < TWO_31
    ensures n * draw / TWO_31 == draw / Share(n)
  {
    Pow2Divides(n);
    var m := Share(n);
    var q, r := draw / m, draw % m;
    Distribute(n, m * q, r);
    Regroup(n, m, q);
    Monotone(n, r);
    Monotone(n, m - r);
    Distribute(n, m, r);
    RemainderIsUnique(n * draw, TWO_31, q, n * r);
  }

  /** The wrapped test of the rejection loop keeps exactly the draws below n * floor(2^31 / n). */
  lemma WrappedTestRejects(n: int, draw: int)
    requires 0 < n < TWO_31 && 0 <= draw < TWO_31
    ensures Wrap32(draw - draw % n + (n - 1)) < 0 <==> draw >= n * Share(n)
  {
    var q, m := draw / n, Share(n);
    BucketIndex(n, m, draw);
    Distribute(n, q, 1);
    BucketIndex(n, q + 1, TWO_31);
  }

  lemma ResultInRange(n: int, draw: int)
    requires 0 < n < TWO_31 && 0 <= draw < TWO_31
    ensures Bounded(n, draw).Some? ==> 0 <= Bounded(n, draw).value < n
  {
    if IsPow2(n) {
      Pow2Divides(n);
      BucketIndex(Share(n), n, draw);
    }
  }

  /** The draw 0 is always kept. */
  lemma ZeroIsKept(n: int)
    requires 0 < n < TWO_31
    ensures Bounded(n, 0) == Some(0)
  {
    var m := Share(n);
    assert m >= 1 by {
      Distribute(n, m, 1);
    }
    Monotone(n, m);
    RemainderIsUnique(0, n, 0, 0);
    RemainderIsUnique(0, m, 0, 0);
  }

  lemma UnsignedReading(q: int)
    requires 0 <= q < TWO_32
    ensures var w := Wrap32(q); (if w < 0 then w + TWO_32 else w) == q && (q < TWO_31 ==> w == q)
  {}

  lemma QuotientAndRest(x: int, m: nat)
    requires m > 0
    ensures x == m * (x / m) + x % m
  {}

  /** `next(bits)` returns the high bits of the seed: with the bits it drops they make up the seed. */
  lemma OutputKeepsHighBits(s: Seed, bits: nat)
    requires 1 <= bits <= 32
    ensures -TWO_31 <= Output(s, bits) < TWO_31 && (bits < 32 ==> 0 <= Output(s, bits))
    ensures var u := if Output(s, bits) < 0 then Output(s, bits) + TWO_32 else Output(s, bits);
            s == Pow2(48 - bits) * u + s % Pow2(48 - bits)
  {
    var m := Pow2(48 - bits);
    var q := s / m;
    QuotientAndRest(s, m);
    QuotientFits(s, bits);
    PatternsFitWords(bits);
    UnsignedReading(q);
  }

  /** For a power of two the result is the draw scaled down from 2^31 to n, rounded down. */
  lemma ResultOfPowerOfTwo(n: int, draw: int, v: int)
    requires 0 < n < TWO_31 && IsPow2(n) && 0 <= draw < TWO_31
    ensures Bounded(n, draw) == Some(v) <==> TWO_31 * v <= n * draw < TWO_31 * (v + 1)
  {
    ScaledDraw(n, draw);
  }

  /** A draw is kept when its bucket of n draws lies wholly below 2^31. */
  lemma KeptBucketIsWhole(n: int, draw: int)
    requires 0 < n < TWO_31 && 0 <= draw
    ensures draw < n * Share(n) <==> n * (draw / n + 1) <= TWO_31
  {
    var k, m := draw / n, Share(n);
    BucketIndex(n, m, draw);
    BucketIndex(n, k + 1, TWO_31);
    Distribute(n, m, k + 1);
    Monotone(n, m - (k + 1));
  }

  /** Otherwise it is the place of the draw in its bucket of n draws, if that lies wholly below 2^31. */
  lemma ResultOfOthers(n: int, draw: int, v: int)
    requires 0 < n < TWO_31 && !IsPow2(n) && 0 <= draw < TWO_31
    ensures Bounded(n, draw) == Some(v) <==> 0 <= v < n && exists q :: draw == n * q + v && n * (q + 1) <= TWO_31
  {
    KeptBucketIsWhole(n, draw);
    QuotientAndRest(draw, n);
    if q :| draw == n * q + v && n * (q + 1) <= TWO_31 && 0 <= v < n {
      RemainderIsUnique(draw, n, q, v);
    }
  }

  // ---------------------------------------------------------------------------
  // The draws that give one result
  // ---------------------------------------------------------------------------

  /** The i-th draw that `nextInt(n)` turns into `v`. */
  ghost function Preimage(n: int, v: int, i: int): int
    requires 0 < n < TWO_31
  {
    if IsPow2(n) then Share(n) * v + i else n * i + v
  }

  /** Which of the draws with its result `draw` is. */
  ghost function Rank(n: int, draw: int): int
    requires 0 < n < TWO_31 && 0 < Share(n)
  {
    if IsPow2(n) then draw % Share(n) else draw / n
  }

  lemma ShareIsPositive(n: int)
    requires 0 < n < TWO_31
    ensures 0 < Share(n)
  {
    Monotone(n, Share(n));
  }

  lemma PreimageGives(n: int, v: int, i: int)
    requires 0 < n < TWO_31 && 0 <= v < n && 0 <= i < Share(n)
    ensures 0 <= Preimage(n, v, i) < TWO_31
    ensures Bounded(n, Preimage(n, v, i)) == Some(v)
    ensures Rank(n, Preimage(n, v, i)) == i
  {
    if IsPow2(n) {
      HighPreimage(n, v, i);
    } else {
      LowPreimage(n, v, i);
    }
  }

  lemma HighPreimage(n: int, v: int, i: int)
    requires 0 < n < TWO_31 && 0 <= v < n && 0 <= i < Share(n) && IsPow2(n)
    ensures 0 <= Share(n) * v + i < TWO_31
    ensures (Share(n) * v + i) / Share(n) == v && (Share(n) * v + i) % Share(n) == i
  {
    Pow2Divides(n);
    Bucket(Share(n), n, v, i);
  }

  lemma LowPreimage(n: int, v: int, i: int)
    requires 0 < n < TWO_31 && 0 <= v < n && 0 <= i < Share(n)
    ensures 0 <= n * i + v < n * Share(n) <= TWO_31
    ensures (n * i + v) / n == i && (n * i + v) % n == v
  {
    Bucket(n, Share(n), i, v);
  }

  lemma OnlyPreimagesGive(n: int, v: int, draw: int)
    requires 0 < n < TWO_31 && 0 <= draw < TWO_31 && Bounded(n, draw) == Some(v)
    ensures 0 < Share(n) && 0 <= Rank(n, draw) < Share(n) && draw == Preimage(n, v, Rank(n, draw))
  {
    ShareIsPositive(n);
    var m := Share(n);
    if !IsPow2(n) {
      BucketIndex(n, m, draw);
    }
  }

  // ---------------------------------------------------------------------------
  // Counting over one period
  // ---------------------------------------------------------------------------

  /** The seed that draw number `t` is taken from, counting from 0. */
  ghost function Nth(x: Seed, t: nat): (s: Seed)
    ensures s == Step(Iterate(t, x))
  {
    Iterate(t + 1, x)
  }

  /** When, during one period of updates from `x`, the seed satisfies `p`. */
  ghost function Visits(x: Seed, p: Seed -> bool): set<int> {
    set t | 0 <= t < PERIOD && p(Nth(x, t))
  }

  /** `g` numbers the seeds that satisfy `p` from 0 to `k - 1`, each exactly once. */
  ghost predicate EnumeratesSeeds(p: Seed -> bool, k: nat, g: int -> Seed) {
    && (forall i :: 0 <= i < k ==> p(g(i)))
    && (forall i, j :: 0 <= i < j < k ==> g(i) != g(j))
    && (forall s: Seed :: p(s) ==> exists i :: 0 <= i < k && g(i) == s)
  }

  /** Over one period as many visits satisfy `p` as there are seeds that do. */
  lemma VisitsCount(x: Seed, p: Seed -> bool, k: nat, g: int -> Seed)
    requires EnumeratesSeeds(p, k, g)
    ensures |Visits(x, p)| == k
  {
    var x1 := Step(x);
    var h: int -> int := i => Steps(x1, g(i));
    forall t: nat ensures Nth(x, t) == Iterate(t, x1) {
      IterateAdd(1, t, x);
      assert Iterate(1, x) == Step(Iterate(0, x));
    }
    forall t | t in Visits(x, p) ensures exists i :: 0 <= i < k && h(i) == t {
      var i :| 0 <= i < k && g(i) == Nth(x, t);
      StepsAreUnique(x1, t, h(i));
    }
    EnumeratedCount(Visits(x, p), k, h);
  }

  /** The bit pattern, read as unsigned, of the value `v` of `next(bits)`. */
  ghost predicate HasPattern(bits: nat, v: int, u: nat)
    requires 1 <= bits <= 32
  {
    u < Pow2(bits) && u == if v < 0 then v + TWO_32 else v
  }

  lemma PeriodInBuckets(bits: nat)
    requires 1 <= bits <= 32
    ensures PERIOD == Pow2(48 - bits) * Pow2(bits)
    ensures Pow2(bits) <= TWO_32 && (bits < 32 ==> Pow2(bits) <= TWO_31)
  {
    Pow2Of48();
    Pow2Add(48 - bits, bits);
    PatternsFitWords(bits);
  }

  lemma PatternsFitWords(bits: nat)
    requires 1 <= bits <= 32
    ensures Pow2(bits) <= TWO_32 && (bits < 32 ==> Pow2(bits) <= TWO_31)
  {
    Pow2OfWords();
    Pow2Monotone(bits, 32);
    if bits < 32 {
      Pow2Monotone(bits, 31);
    }
  }

  lemma WrapReadsPattern(q: int, v: int, u: int)
    requires 0 <= q < TWO_32 && -TWO_31 <= v < TWO_31 && u == if v < 0 then v + TWO_32 else v
    ensures Wrap32(q) == v <==> q == u
  {}

  lemma OutputIsBucket(s: Seed, bits: nat, v: int, u: nat)
    requires 1 <= bits <= 32 && HasPattern(bits, v, u) && -TWO_31 <= v < TWO_31
    ensures Output(s, bits) == v <==> s / Pow2(48 - bits) == u
  {
    PeriodInBuckets(bits);
    QuotientFits(s, bits);
    WrapReadsPattern(s / Pow2(48 - bits), v, u);
  }

  /** The i-th seed of a bucket. */
  ghost function SeedInBucket(bits: nat, u: nat, i: int): Seed
    requires 1 <= bits <= 32 && u < Pow2(bits) && 0 <= i < Pow2(48 - bits)
  {
    PeriodInBuckets(bits);
    Bucket(Pow2(48 - bits), Pow2(bits), u, i);
    Pow2(48 - bits) * u + i
  }

  lemma SeedInBucketIsThere(bits: nat, u: nat, s: Seed)
    requires 1 <= bits <= 32 && u < Pow2(bits)
    ensures s / Pow2(48 - bits) == u ==> SeedInBucket(bits, u, s % Pow2(48 - bits)) == s
    ensures forall i | 0 <= i < Pow2(48 - bits) :: SeedInBucket(bits, u, i) / Pow2(48 - bits) == u
  {
    forall i | 0 <= i < Pow2(48 - bits) ensures SeedInBucket(bits, u, i) / Pow2(48 - bits) == u {
      Bucket(Pow2(48 - bits), Pow2(bits), u, i);
    }
  }

  /** Over one period of `next(bits)` every `bits`-bit value occurs exactly 2^(48 - bits) times. */
  lemma EveryOutputEquallyOften(x: Seed, bits: nat, v: int)
    requires 1 <= bits <= 32
    requires if bits == 32 then -TWO_31 <= v < TWO_31 else 0 <= v < Pow2(bits)
    ensures |Visits(x, (s: Seed) => Output(s, bits) == v)| == Pow2(48 - bits)
  {
    var m := Pow2(48 - bits);
    var u: nat := if v < 0 then v + TWO_32 else v;
    assert HasPattern(bits, v, u) && -TWO_31 <= v < TWO_31 by {
      PatternsFitWords(bits);
      Pow2OfWords();
    }
    var p: Seed -> bool := (s: Seed) => Output(s, bits) == v;
    var g: int -> Seed := i => if 0 <= i < m then SeedInBucket(bits, u, i) else 0;
    BucketIsNumbered(bits, v, u, p, m, g);
    VisitsCount(x, p, m, g);
    assert Visits(x, p) == Visits(x, (s: Seed) => Output(s, bits) == v);
  }

  lemma BucketIsNumbered(bits: nat, v: int, u: nat, p: Seed -> bool, m: nat, g: int -> Seed)
    requires 1 <= bits <= 32 && HasPattern(bits, v, u) && -TWO_31 <= v < TWO_31 && m == Pow2(48 - bits)
    requires forall s: Seed :: p(s) <==> Output(s, bits) == v
    requires forall i :: 0 <= i < m ==> g(i) == SeedInBucket(bits, u, i)
    ensures EnumeratesSeeds(p, m, g)
  {
    forall i | 0 <= i < m ensures p(g(i)) {
      SeedInBucketIsThere(bits, u, 0);
      OutputIsBucket(g(i), bits, v, u);
    }
    forall i, j | 0 <= i < j < m ensures g(i) != g(j) {}
    forall s: Seed | p(s) ensures exists i :: 0 <= i < m && g(i) == s {
      OutputIsBucket(s, bits, v, u);
      SeedInBucketIsThere(bits, u, s);
      assert g(s % m) == s;
    }
  }

  /**
   * Over one period `nextInt(n)` has exactly 2^17 * floor(2^31 / n) kept draws for each of its n
   * results: no result is favoured.
   */
  lemma EveryResultEquallyOften(x: Seed, n: int, v: int)
    requires 0 < n < TWO_31 && 0 <= v < n
    ensures |Visits(x, (s: Seed) => Bounded(n, Draw(s)) == Some(v))| == 0x2_0000 * Share(n)
  {
    var m := Share(n);
    ShareIsPositive(n);
    var k := 0x2_0000 * m;
    var g: int -> Seed := i => if 0 <= i < k then SeedWithDraw(n, v, i) else 0;
    forall i | 0 <= i < k ensures Bounded(n, Draw(g(i))) == Some(v) {
      SeedWithDrawRank(n, v, i);
    }
    forall i, j | 0 <= i < j < k ensures g(i) != g(j) {
      SeedWithDrawRank(n, v, i);
      SeedWithDrawRank(n, v, j);
    }
    forall s: Seed | Bounded(n, Draw(s)) == Some(v) ensures exists i :: 0 <= i < k && g(i) == s {
      OnlyPreimagesGive(n, v, Draw(s));
      var i := Rank(n, Draw(s)) * 0x2_0000 + s % 0x2_0000;
      SeedWithDrawRank(n, v, i);
      assert g(i) == s;
    }
    VisitsCount(x, (s: Seed) => Bounded(n, Draw(s)) == Some(v), k, g);
  }

  /** The i-th seed whose draw gives `v`: 2^17 seeds share each draw. */
  ghost function SeedWithDraw(n: int, v: int, i: int): Seed
    requires 0 < n < TWO_31 && 0 <= v < n && 0 <= i < 0x2_0000 * Share(n)
  {
    PreimageGives(n, v, i / 0x2_0000);
    Preimage(n, v, i / 0x2_0000) * 0x2_0000 + i % 0x2_0000
  }

  lemma SeedWithDrawRank(n: int, v: int, i: int)
    requires 0 < n < TWO_31 && 0 <= v < n && 0 <= i < 0x2_0000 * Share(n)
    ensures Bounded(n, Draw(SeedWithDraw(n, v, i))) == Some(v)
    ensures 0 < Share(n)
            && i == Rank(n, Draw(SeedWithDraw(n, v, i))) * 0x2_0000 + SeedWithDraw(n, v, i) % 0x2_0000
  {
    ShareIsPositive(n);
    PreimageGives(n, v, i / 0x2_0000);
  }
}
