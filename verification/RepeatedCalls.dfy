/**
 * Calling `nextInt(n)` again and again: the results of as many calls as one period has accepted
 * draws are spread evenly, whatever the seed.
 */
module RepeatedCalls {
  import opened Draws
  import opened LinearCongruential
  import opened Numbers
  import opened RandomGenerator
  import opened Results

  /** The seed after some calls of `nextInt(n)`. */
  ghost function SeedAfter(x: Seed, n: int, calls: nat): Seed
    requires 0 < n < TWO_31
  {
    if calls == 0 then x else Called(SeedAfter(x, n, calls - 1), n)
  }

  /** What they return, in order. */
  ghost function Values(x: Seed, n: int, calls: nat): (vs: seq<int>)
    requires 0 < n < TWO_31
    ensures |vs| == calls
  {
    if calls == 0 then [] else Values(x, n, calls - 1) + [Returned(SeedAfter(x, n, calls - 1), n)]
  }

  /** How many updates of the seed they make. */
  ghost function Updates(x: Seed, n: int, calls: nat): nat
    requires 0 < n < TWO_31
  {
    if calls == 0 then 0 else Updates(x, n, calls - 1) + Rejects(SeedAfter(x, n, calls - 1), n) + 1
  }

  lemma {:induction false} SeedAfterUpdates(x: Seed, n: int, calls: nat)
    requires 0 < n < TWO_31
    ensures SeedAfter(x, n, calls) == Iterate(Updates(x, n, calls), x)
  {
    if calls > 0 {
      SeedAfterUpdates(x, n, calls - 1);
      var y := SeedAfter(x, n, calls - 1);
      NthAfter(x, y, Updates(x, n, calls - 1), Rejects(y, n));
    }
  }

  /** The draws from a seed of the orbit are draws of the orbit. */
  lemma NthAfter(x: Seed, y: Seed, h: nat, k: nat)
    requires y == Iterate(h, x)
    ensures Nth(y, k) == Nth(x, h + k)
  {
    IterateAdd(h, k + 1, x);
  }

  /** Whether `nextInt(n)` keeps the draw of a seed, and if so whether it returns less than `m`. */
  ghost function KeptBelow(n: int, m: int): Seed -> bool
    requires 0 < n < TWO_31
  {
    (s: Seed) => Bounded(n, Draw(s)).Some? && Bounded(n, Draw(s)).value < m
  }

  ghost function Gives(n: int, v: int): Seed -> bool
    requires 0 < n < TWO_31
  {
    (s: Seed) => Bounded(n, Draw(s)) == Some(v)
  }

  ghost predicate OnlyKept(n: int, p: Seed -> bool)
    requires 0 < n < TWO_31
  {
    forall s: Seed :: p(s) ==> Bounded(n, Draw(s)).Some?
  }

  /** The visits among the first `h` draws. */
  ghost function VisitsBefore(x: Seed, p: Seed -> bool, h: nat): set<int> {
    set t | 0 <= t < h && p(Nth(x, t))
  }

  /** Of the draws of one call only the last one can be a visit. */
  lemma OneMoreCall(x: Seed, n: int, p: Seed -> bool, calls: nat)
    requires 0 < n < TWO_31 && OnlyKept(n, p)
    ensures var h, last := Updates(x, n, calls), Updates(x, n, calls + 1) - 1;
            && h <= last && last !in VisitsBefore(x, p, h)
            && Nth(x, last) == SeedAfter(x, n, calls + 1)
            && VisitsBefore(x, p, last + 1)
               == VisitsBefore(x, p, h) + (if p(SeedAfter(x, n, calls + 1)) then {last} else {})
  {
    var y, h := SeedAfter(x, n, calls), Updates(x, n, calls);
    var k := Rejects(y, n);
    SeedAfterUpdates(x, n, calls);
    NthAfter(x, y, h, k);
    forall t | h <= t < h + k ensures !p(Nth(x, t)) {
      NthAfter(x, y, h, t - h);
    }
  }

  lemma OneMoreVisit(x: Seed, n: int, p: Seed -> bool, calls: nat)
    requires 0 < n < TWO_31 && OnlyKept(n, p)
    ensures |VisitsBefore(x, p, Updates(x, n, calls + 1))|
         == |VisitsBefore(x, p, Updates(x, n, calls))| + if p(SeedAfter(x, n, calls + 1)) then 1 else 0
  {
    OneMoreCall(x, n, p, calls);
  }

  lemma CountAppended(vs: seq<int>, w: int, v: int)
    ensures multiset(vs + [w])[v] == multiset(vs)[v] + if w == v then 1 else 0
  {}

  lemma OneMoreValue(x: Seed, n: int, v: int, calls: nat)
    requires 0 < n < TWO_31
    ensures multiset(Values(x, n, calls + 1))[v]
         == multiset(Values(x, n, calls))[v] + if Gives(n, v)(SeedAfter(x, n, calls + 1)) then 1 else 0
  {
    CountAppended(Values(x, n, calls), Returned(SeedAfter(x, n, calls), n), v);
  }

  ghost predicate Agree(x: Seed, n: int, v: int, calls: nat)
    requires 0 < n < TWO_31
  {
    multiset(Values(x, n, calls))[v] == |VisitsBefore(x, Gives(n, v), Updates(x, n, calls))|
  }

  lemma StillAgree(x: Seed, n: int, v: int, calls: nat)
    requires 0 < n < TWO_31 && Agree(x, n, v, calls)
    ensures Agree(x, n, v, calls + 1)
  {
    OneMoreValue(x, n, v, calls);
    OneMoreVisit(x, n, Gives(n, v), calls);
  }

  /** As many calls return `v` as draws that give `v` were made. */
  lemma {:induction false} CallsCount(x: Seed, n: int, v: int, calls: nat)
    requires 0 < n < TWO_31
    ensures Agree(x, n, v, calls)
  {
    if calls > 0 {
      CallsCount(x, n, v, calls - 1);
      StillAgree(x, n, v, calls - 1);
    }
  }

  /** Every call makes one draw that is kept. */
  lemma {:induction false} KeptCount(x: Seed, n: int, calls: nat)
    requires 0 < n < TWO_31
    ensures |VisitsBefore(x, KeptBelow(n, n), Updates(x, n, calls))| == calls
  {
    if calls > 0 {
      KeptCount(x, n, calls - 1);
      OneMoreVisit(x, n, KeptBelow(n, n), calls - 1);
      ResultInRange(n, Draw(SeedAfter(x, n, calls)));
    }
  }

  lemma NoneBelowZero(x: Seed, n: int)
    requires 0 < n < TWO_31
    ensures Visits(x, KeptBelow(n, 0)) == {}
  {
    forall t: nat ensures !KeptBelow(n, 0)(Nth(x, t)) {
      ResultInRange(n, Draw(Nth(x, t)));
    }
  }

  lemma GivesInPeriod(x: Seed, n: int, v: int)
    requires 0 < n < TWO_31 && 0 <= v < n
    ensures |Visits(x, Gives(n, v))| == 0x2_0000 * Share(n)
  {
    EveryResultEquallyOften(x, n, v);
    assert Visits(x, Gives(n, v)) == Visits(x, (s: Seed) => Bounded(n, Draw(s)) == Some(v));
  }

  lemma OneMoreResult(x: Seed, n: int, m: int)
    requires 0 < n < TWO_31
    ensures |Visits(x, KeptBelow(n, m + 1))| == |Visits(x, KeptBelow(n, m))| + |Visits(x, Gives(n, m))|
  {
    var below, last := Visits(x, KeptBelow(n, m)), Visits(x, Gives(n, m));
    assert below !! last;
    assert Visits(x, KeptBelow(n, m + 1)) == below + last;
  }

  lemma {:induction false} EqualShares(total: int -> int, m: nat, each: int)
    requires total(0) == 0 && forall i :: 0 <= i < m ==> total(i + 1) == total(i) + each
    ensures total(m) == m * each
  {
    if m > 0 {
      EqualShares(total, m - 1, each);
      Distribute(each, m - 1, 1);
    }
  }

  /** One period keeps n times as many draws as give one result. */
  lemma KeptInPeriod(x: Seed, n: int)
    requires 0 < n < TWO_31
    ensures |Visits(x, KeptBelow(n, n))| == n * (0x2_0000 * Share(n))
  {
    var total: int -> int := i => |Visits(x, KeptBelow(n, i))|;
    NoneBelowZero(x, n);
    forall i | 0 <= i < n ensures total(i + 1) == total(i) + 0x2_0000 * Share(n) {
      OneMoreResult(x, n, i);
      GivesInPeriod(x, n, i);
    }
    EqualShares(total, n, 0x2_0000 * Share(n));
  }

  lemma VisitsOfPeriod(x: Seed, p: Seed -> bool, h: nat)
    ensures h >= PERIOD ==> Visits(x, p) <= VisitsBefore(x, p, h)
    ensures h <= PERIOD ==> VisitsBefore(x, p, h) <= Visits(x, p)
  {}

  /** Before the last draw of a call nothing is kept that was not kept before the call. */
  lemma OnlyLastIsKept(x: Seed, n: int, calls: nat)
    requires 0 < n < TWO_31
    ensures Updates(x, n, calls + 1) > Updates(x, n, calls)
    ensures VisitsBefore(x, KeptBelow(n, n), Updates(x, n, calls + 1) - 1)
         == VisitsBefore(x, KeptBelow(n, n), Updates(x, n, calls))
  {
    OneMoreCall(x, n, KeptBelow(n, n), calls);
  }

  /** As many calls as one period has kept draws make their draws within the period. */
  lemma CallsFitPeriod(x: Seed, n: int, calls: nat)
    requires 0 < n < TWO_31 && calls == |Visits(x, KeptBelow(n, n))|
    ensures Updates(x, n, calls) <= PERIOD
  {
    if calls > 0 && Updates(x, n, calls) > PERIOD {
      var h := Updates(x, n, calls) - 1;
      var kept := KeptBelow(n, n);
      KeptCount(x, n, calls - 1);
      OnlyLastIsKept(x, n, calls - 1);
      VisitsOfPeriod(x, kept, h);
      SubsetOfSameSize(Visits(x, kept), VisitsBefore(x, kept, h));
      assert false;
    }
  }

  /** And they leave no draw of the period that would be kept. */
  lemma PeriodIsUsedUp(x: Seed, n: int, calls: nat)
    requires 0 < n < TWO_31 && calls == |Visits(x, KeptBelow(n, n))|
    ensures VisitsBefore(x, KeptBelow(n, n), Updates(x, n, calls)) == Visits(x, KeptBelow(n, n))
  {
    CallsFitPeriod(x, n, calls);
    KeptCount(x, n, calls);
    VisitsOfPeriod(x, KeptBelow(n, n), Updates(x, n, calls));
    SubsetOfSameSize(VisitsBefore(x, KeptBelow(n, n), Updates(x, n, calls)), Visits(x, KeptBelow(n, n)));
  }

  /** Hence they return each result as often as the period has draws that give it. */
  lemma CallsCountPeriod(x: Seed, n: int, v: int, calls: nat)
    requires 0 < n < TWO_31 && 0 <= v < n && calls == |Visits(x, KeptBelow(n, n))|
    ensures multiset(Values(x, n, calls))[v] == |Visits(x, Gives(n, v))|
  {
    var h := Updates(x, n, calls);
    CallsCount(x, n, v, calls);
    CallsFitPeriod(x, n, calls);
    PeriodIsUsedUp(x, n, calls);
    forall t | t in Visits(x, Gives(n, v)) ensures t < h {
      assert t in Visits(x, KeptBelow(n, n));
    }
    assert VisitsBefore(x, Gives(n, v), h) == Visits(x, Gives(n, v));
  }

  /**
   * From any seed, n * 2^17 * floor(2^31 / n) calls of `nextInt(n)` return each of the n results
   * exactly 2^17 * floor(2^31 / n) times.
   */
  lemma CallsAreEven(x: Seed, n: int, v: int)
    requires 0 < n < TWO_31 && 0 <= v < n
    ensures multiset(Values(x, n, n * (0x2_0000 * Share(n))))[v] == 0x2_0000 * Share(n)
  {
    ShareIsPositive(n);
    KeptInPeriod(x, n);
    CallsCountPeriod(x, n, v, n * (0x2_0000 * Share(n)));
    GivesInPeriod(x, n, v);
  }
}
