/** The round-robin pool of benchmark/asio/io_service_pool.cpp. */
module IoServicePools {
  import opened Numbers
  import opened Results

  /** Which of the first `calls` calls returned service `v` of `n`. */
  ghost function CallsTo(n: nat, v: nat, calls: nat): set<int>
    requires 0 < n
  {
    set i | 0 <= i < calls && i % n == v
  }

  lemma BeforeLastBucket(n: nat, v: nat, j: int, calls: nat)
    requires v < n
    ensures n * j + v < calls <==> j < (calls + n - 1 - v) / n
  {
    Distribute(n, j, 1);
    BucketIndex(n, j + 1, calls + n - 1 - v);
  }

  ghost function Share(n: nat, v: nat, calls: nat): nat
    requires v < n
  {
    (calls + n - 1 - v) / n
  }

  lemma PlaceIsCall(n: nat, v: nat, j: nat, calls: nat)
    requires v < n && j < Share(n, v, calls)
    ensures n * j + v in CallsTo(n, v, calls)
  {
    BeforeLastBucket(n, v, j, calls);
    RemainderIsUnique(n * j + v, n, j, v);
    Monotone(n, j);
  }

  lemma CallHasPlace(n: nat, v: nat, i: int, calls: nat)
    requires v < n && i in CallsTo(n, v, calls)
    ensures 0 <= i / n < Share(n, v, calls) && n * (i / n) + v == i
  {
    BeforeLastBucket(n, v, i / n, calls);
    BucketIndex(n, 0, i);
  }

  lemma PlacesDiffer(n: nat, v: nat, i: int, j: int)
    requires 0 < n && i < j
    ensures n * i + v != n * j + v
  {
    Distribute(n, j, i);
    Monotone(n, j - i);
  }

  /** The i-th call returns service i mod n, so service v was returned ceil((calls - v) / n) times. */
  lemma CallsToCount(n: nat, v: nat, calls: nat)
    requires v < n
    ensures |CallsTo(n, v, calls)| == (calls + n - 1 - v) / n
  {
    var k := Share(n, v, calls);
    var g: int -> int := j => n * j + v;
    forall j | 0 <= j < k ensures g(j) in CallsTo(n, v, calls) {
      PlaceIsCall(n, v, j, calls);
    }
    forall i, j | 0 <= i < j < k ensures g(i) != g(j) {
      PlacesDiffer(n, v, i, j);
    }
    forall i | i in CallsTo(n, v, calls) ensures exists j :: 0 <= j < k && g(j) == i {
      CallHasPlace(n, v, i, calls);
      assert g(i / n) == i;
    }
    EnumeratedCount(CallsTo(n, v, calls), k, g);
  }

  /** No service is ever used more than once more often than another. */
  lemma LoadsDifferByOne(n: nat, v: nat, u: nat, calls: nat)
    requires v < n && u < n
    ensures |CallsTo(n, v, calls)| <= |CallsTo(n, u, calls)| + 1
  {
    CallsToCount(n, v, calls);
    CallsToCount(n, u, calls);
    SharesDifferByOne(n, calls + n - 1 - v, calls + n - 1 - u);
  }

  lemma SharesDifferByOne(n: nat, x: nat, y: nat)
    requires 0 < n && x < y + n
    ensures x / n <= y / n + 1
  {
    Distribute(n, y / n, 2);
    BucketIndex(n, y / n + 2, x);
  }

  /** Any n calls in a row return every service exactly once. */
  lemma WindowServesEachOnce(n: nat, v: nat, calls: nat)
    requires v < n
    ensures |CallsTo(n, v, calls + n)| == |CallsTo(n, v, calls)| + 1
  {
    CallsToCount(n, v, calls);
    CallsToCount(n, v, calls + n);
    var x := calls + n - 1 - v;
    Distribute(n, x / n, 1);
    RemainderIsUnique(x + n, n, x / n + 1, x % n);
  }

  class IoServicePool<Service> {
    const services: seq<Service>
    var next: nat
    ghost var calls: nat

    ghost predicate Valid()
      reads this
    {
      0 < |services| && next == calls % |services|
    }

    constructor (services: seq<Service>)
      requires services != []
      ensures Valid() && calls == 0 && this.services == services
    {
      this.services := services;
      next, calls := 0, 0;
    }

    method GetIoService() returns (service: Service)
      requires Valid()
      modifies this
      ensures Valid() && calls == old(calls) + 1
      ensures service == services[old(calls) % |services|]
    {
      service := services[next];
      NextRemainder(calls, |services|);
      next := next + 1;
      if next == |services| {
        next := 0;
      }
      calls := calls + 1;
    }
  }

  /** A pool of no services is refused. */
  method CreatePool<Service>(services: seq<Service>) returns (r: Result<IoServicePool<Service>>)
    ensures services == [] ==> r == Thrown(RuntimeError)
    ensures services != [] ==> r.Ok? && fresh(r.value) && r.value.Valid() && r.value.calls == 0
                               && r.value.services == services
  {
    if services == [] {
      return Thrown(RuntimeError);
    }
    var pool := new IoServicePool(services);
    r := Ok(pool);
  }

  lemma NextRemainder(i: nat, n: nat)
    requires 0 < n
    ensures (i + 1) % n == if i % n + 1 == n then 0 else i % n + 1
  {
    if i % n + 1 == n {
      Distribute(n, i / n, 1);
      RemainderIsUnique(i + 1, n, i / n + 1, 0);
    } else {
      RemainderIsUnique(i + 1, n, i / n, i % n + 1);
    }
  }
}
