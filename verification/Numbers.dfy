/** Powers of two, C++ integer wrap-around and counting, shared by the other modules. */
module Numbers {

  const TWO_31: int := 0x8000_0000
  const TWO_32: int := 0x1_0000_0000
  const TWO_63: int := 0x8000_0000_0000_0000
  const TWO_64: int := 0x1_0000_0000_0000_0000

  function Pow2(k: nat): (p: nat)
    ensures 1 <= p
  {
    if k == 0 then 1 else 2 * Pow2(k - 1)
  }

  lemma {:induction false} Pow2Add(j: nat, k: nat)
    ensures Pow2(j + k) == Pow2(j) * Pow2(k)
  {
    if j > 0 {
      Pow2Add(j - 1, k);
      assert Pow2(j + k) == 2 * Pow2(j - 1 + k);
      assert 2 * (Pow2(j - 1) * Pow2(k)) == (2 * Pow2(j - 1)) * Pow2(k);
    }
  }

  lemma {:induction false} Pow2Monotone(j: nat, k: nat)
    requires j <= k
    ensures Pow2(j) <= Pow2(k)
  {
    if j < k {
      Pow2Monotone(j, k - 1);
    }
  }

  lemma Pow2OfWords()
    ensures Pow2(16) == 0x1_0000 && Pow2(17) == 0x2_0000 && Pow2(31) == TWO_31 && Pow2(32) == TWO_32
  {
    assert Pow2(4) == 16;
    Pow2Add(4, 4);
    Pow2Add(8, 8);
    Pow2Add(16, 16);
    assert Pow2(17) == 2 * Pow2(16);
    assert Pow2(32) == 2 * Pow2(31);
  }

  /** The value a C++ `int` holds when the mathematical result is `x`. */
  function Wrap32(x: int): (w: int)
    ensures -TWO_31 <= w < TWO_31 && (w - x) % TWO_32 == 0
  {
    (x + TWO_31) % TWO_32 - TWO_31
  }

  /** The value a `boost::int64_t` holds when the mathematical result is `x`. */
  function Wrap64(x: int): (w: int)
    ensures -TWO_63 <= w < TWO_63 && (w - x) % TWO_64 == 0
  {
    (x + TWO_63) % TWO_64 - TWO_63
  }

  // ---------------------------------------------------------------------------
  // Products, one fact at a time
  // ---------------------------------------------------------------------------

  lemma Distribute(p: int, a: int, b: int)
    ensures p * (a + b) == p * a + p * b
    ensures p * (a - b) == p * a - p * b
  {}

  lemma Regroup(a: int, b: int, c: int)
    ensures a * (b * c) == (a * b) * c
  {}

  lemma Monotone(m: nat, d: int)
    ensures d >= 1 ==> m * d >= m
    ensures d <= -1 ==> m * d + m <= 0
  {}

  /** The quotient and remainder of a division are the only ones that fit. */
  lemma RemainderIsUnique(x: int, m: nat, q: int, r: int)
    requires m > 0 && 0 <= r < m && x == m * q + r
    ensures x / m == q && x % m == r
  {
    var d := x / m - q;
    Distribute(m, x / m, q);
    Monotone(m, d);
  }

  lemma MultipleHasNoRemainder(m: nat, q: int)
    requires m > 0
    ensures (m * q) % m == 0 && (m * q) / m == q
  {
    RemainderIsUnique(m * q, m, q, 0);
  }

  /** `m * v + i` is the i-th place of the v-th of `n` buckets of size `m`. */
  lemma Bucket(m: nat, n: nat, v: nat, i: nat)
    requires v < n && i < m
    ensures 0 <= m * v + i < m * n
    ensures (m * v + i) / m == v && (m * v + i) % m == i
  {
    RemainderIsUnique(m * v + i, m, v, i);
    Distribute(m, n, v + 1);
    Distribute(m, v, 1);
    Monotone(m, v);
    Monotone(m, n - (v + 1));
  }

  lemma BucketIndex(m: nat, n: int, x: int)
    requires 0 < m && 0 <= x
    ensures x < m * n <==> x / m < n
  {
    Distribute(m, x / m, n);
    Distribute(m, n, x / m + 1);
    Distribute(m, x / m, 1);
    Monotone(m, x / m - n);
    Monotone(m, n - (x / m + 1));
  }

  /** Equal remainders are a difference of whole multiples. */
  lemma SameRemainder(x: int, y: int, m: nat)
    requires m > 0
    ensures x % m == y % m <==> (x - y) % m == 0
  {
    if x % m == y % m {
      Distribute(m, x / m, y / m);
      RemainderIsUnique(x - y, m, x / m - y / m, 0);
    }
    if (x - y) % m == 0 {
      Distribute(m, (x - y) / m, y / m);
      RemainderIsUnique(x, m, (x - y) / m + y / m, y % m);
    }
  }

  /** A multiple of 2p is a multiple of p with an even quotient. */
  lemma HalfDivides(d: int, p: nat)
    requires p > 0
    ensures d % (2 * p) == 0 <==> d % p == 0 && (d / p) % 2 == 0
  {
    var h, q := d / p, d / (2 * p);
    Regroup(p, 2, q);
    Regroup(p, 2, h / 2);
    if d % (2 * p) == 0 {
      RemainderIsUnique(d, p, 2 * q, 0);
    }
    if d % p == 0 && h % 2 == 0 {
      assert h == 2 * (h / 2);
      RemainderIsUnique(d, 2 * p, h / 2, 0);
    }
  }

  lemma HalfDividesBy(d: int, p: nat, h: int)
    requires p > 0 && d == p * h
    ensures d % (2 * p) == 0 <==> h % 2 == 0
  {
    MultipleHasNoRemainder(p, h);
    HalfDivides(d, p);
  }

  lemma HalveQuotient(p: int, t: int, h: int)
    requires t == 2 * h
    ensures p * t == (2 * p) * h
  {
    Regroup(p, 2, h);
  }

  lemma {:induction false} SubsetOfSameSize<T>(a: set<T>, b: set<T>)
    requires a <= b
    ensures |a| <= |b|
    ensures |a| == |b| ==> a == b
  {
    if x :| x in a {
      SubsetOfSameSize(a - {x}, b - {x});
    }
  }

  /** `g` numbers the members of `s` from 0 to `k - 1`, each exactly once. */
  ghost predicate Enumerates<T(!new)>(s: set<T>, k: nat, g: int -> T) {
    && (forall i :: 0 <= i < k ==> g(i) in s)
    && (forall i, j :: 0 <= i < j < k ==> g(i) != g(j))
    && (forall y :: y in s ==> exists i :: 0 <= i < k && g(i) == y)
  }

  lemma {:induction false} EnumeratedCount<T(!new)>(s: set<T>, k: nat, g: int -> T)
    requires Enumerates(s, k, g)
    ensures |s| == k
    decreases k
  {
    if k == 0 {
      assert s == {};
    } else {
      var last := g(k - 1);
      var s' := s - {last};
      forall y | y in s' ensures exists i :: 0 <= i < k - 1 && g(i) == y {
        var i :| 0 <= i < k && g(i) == y;
        assert i != k - 1;
      }
      EnumeratedCount(s', k - 1, g);
      assert s == s' + {last};
    }
  }
}
