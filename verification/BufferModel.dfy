/**
 * A dynamic channel buffer as its users see it: the bytes below the writer index, the reader
 * index, the two marks, the capacity, and how many bytes reallocations have copied so far. What
 * lies above the writer index is unspecified.
 */
module BufferModel {
  import opened Bytes
  import opened Codec
  import opened Numbers

  // ---------------------------------------------------------------------------
  // Growth by doubling
  // ---------------------------------------------------------------------------

  /** Doubles `c` until it is at least `demand`. */
  function Doubled(c: nat, demand: int): (d: nat)
    requires c > 0
    ensures d >= c && d >= demand
    decreases demand - c
  {
    if c < demand then Doubled(2 * c, demand) else c
  }

  function Grown(capacity: nat, demand: int): nat {
    Doubled(if capacity == 0 then 1 else capacity, demand)
  }

  /** Doubling stops at the least `c * 2^k` that suffices. */
  lemma {:induction false} DoubledIsLeast(c: nat, demand: int)
    requires c > 0
    ensures exists k: nat :: Doubled(c, demand) == c * Pow2(k)
    ensures forall k: nat :: c * Pow2(k) >= demand ==> Doubled(c, demand) <= c * Pow2(k)
    decreases demand - c
  {
    if c < demand {
      DoubledIsLeast(2 * c, demand);
      var k: nat :| Doubled(2 * c, demand) == (2 * c) * Pow2(k);
      Regroup(c, 2, Pow2(k));
      assert Doubled(c, demand) == c * Pow2(k + 1);
      forall j: nat | c * Pow2(j) >= demand ensures Doubled(c, demand) <= c * Pow2(j) {
        assert j > 0;
        Regroup(c, 2, Pow2(j - 1));
      }
    } else {
      assert Doubled(c, demand) == c * Pow2(0);
      forall j: nat ensures c <= c * Pow2(j) {
        Distribute(c, Pow2(j) - 1, 1);
        Monotone(c, Pow2(j) - 1);
      }
    }
  }

  lemma {:induction false} DoubledBelowTwice(c: nat, demand: int)
    requires c > 0
    ensures Doubled(c, demand) == c || 2 * c <= Doubled(c, demand) < 2 * demand
    decreases demand - c
  {
    if c < demand {
      DoubledBelowTwice(2 * c, demand);
    }
  }

  /** What `ensureWritableBytes` grows to: the least doubling of the capacity, or of 1, that suffices. */
  lemma GrownIsLeast(capacity: nat, demand: int)
    ensures var c: nat := if capacity == 0 then 1 else capacity;
            && demand <= Grown(capacity, demand)
            && (exists k: nat :: Grown(capacity, demand) == c * Pow2(k))
            && (forall j: nat :: c * Pow2(j) >= demand ==> Grown(capacity, demand) <= c * Pow2(j))
  {
    DoubledIsLeast(if capacity == 0 then 1 else capacity, demand);
  }

  /**
   * The new capacity fits an `int` exactly when some doubling that does suffices; every demand
   * up to 2^30 is safe.
   */
  lemma GrowthFitsInt(capacity: nat, demand: int)
    ensures var c: nat := if capacity == 0 then 1 else capacity;
            Grown(capacity, demand) < TWO_31 <==> exists k: nat :: demand <= c * Pow2(k) < TWO_31
    ensures capacity < TWO_31 && demand <= TWO_31 / 2 ==> Grown(capacity, demand) < TWO_31
  {
    var c: nat := if capacity == 0 then 1 else capacity;
    DoubledIsLeast(c, demand);
    DoubledBelowTwice(c, demand);
  }

  /** One byte more than 2^30 is too much for a buffer that started with one byte. */
  lemma GrowthCanOverflow()
    ensures Grown(1, TWO_31 / 2 + 1) >= TWO_31
  {
    GrowthFitsInt(1, TWO_31 / 2 + 1);
    DoubledIsLeast(1, TWO_31 / 2 + 1);
    if k: nat :| TWO_31 / 2 + 1 <= 1 * Pow2(k) < TWO_31 {
      Pow2OfWords();
      assert Pow2(31) == 2 * Pow2(30);
      if k <= 30 {
        Pow2Monotone(k, 30);
      } else {
        Pow2Monotone(31, k);
      }
      assert false;
    }
  }

  // ---------------------------------------------------------------------------
  // The buffer and its operations
  // ---------------------------------------------------------------------------

  datatype Buf = Buf(capacity: nat, store: seq<Byte>, r: int, markedR: int, markedW: int, copied: nat)
  {
    predicate Valid() {
      0 <= r <= |store| <= capacity && 0 <= markedR <= capacity && 0 <= markedW <= capacity
    }

    /** The readable bytes. */
    function Contents(): seq<Byte>
      requires Valid()
    {
      store[r..]
    }

    function Ensured(n: int): Buf
      requires Valid()
    {
      if n <= capacity - |store| then this
      else this.(capacity := Grown(capacity, |store| + n), copied := copied + |store|)
    }

    function Written(bytes: seq<Byte>): Buf
      requires Valid()
    {
      var b := Ensured(|bytes|);
      b.(store := b.store + bytes)
    }

    function Skipped(n: int): Buf
      requires Valid()
    {
      this.(r := r + n)
    }

    function Cleared(): Buf {
      this.(store := [], r := 0)
    }

    /** `readBytes(n)` that returns a new buffer: reading the last byte clears the indexes. */
    function TakenAway(n: nat): Buf
      requires Valid() && n <= |Contents()|
    {
      if n == 0 then this
      else if r + n == |store| then Cleared()
      else Skipped(n)
    }

    function Discarded(): Buf
      requires Valid()
    {
      if r == 0 then this
      else if r == |store| then Cleared()
      else Buf(capacity, store[r..], 0, ShiftedMark(markedR), ShiftedMark(markedW), copied)
    }

    function ShiftedMark(mark: int): int {
      if mark - r > 0 then mark - r else 0
    }
  }

  /**
   * A mark inside the readable bytes marks the same byte after `discardReadBytes` exactly when
   * nothing was discarded or a readable byte is left.
   */
  lemma DiscardMovesMarks(b: Buf, mark: int)
    requires b.Valid() && b.r <= mark <= |b.store|
    requires mark == b.markedR
    ensures b.Discarded().markedR == mark - b.r <==> b.r == 0 || b.r < |b.store|
    ensures mark < |b.store| ==> b.Discarded().store[b.Discarded().markedR] == b.store[mark]
  {}

  /** A mark before the readable bytes ends at 0 when some are left; otherwise both marks stay as they are. */
  lemma DiscardKeepsMarksInRange(b: Buf)
    requires b.Valid()
    ensures b.markedR <= b.r < |b.store| ==> b.Discarded().markedR == 0
    ensures b.markedW <= b.r < |b.store| ==> b.Discarded().markedW == 0
    ensures b.r == 0 || b.r == |b.store| ==> b.Discarded().markedR == b.markedR && b.Discarded().markedW == b.markedW
  {}

  /** The same for the marked writer index. */
  lemma DiscardMovesWriterMark(b: Buf, mark: int)
    requires b.Valid() && b.r <= mark <= |b.store|
    requires mark == b.markedW
    ensures b.Discarded().markedW == mark - b.r <==> b.r == 0 || b.r < |b.store|
  {}

  /** Taking the last byte makes the whole capacity writable again; taking fewer only moves the reader index. */
  lemma TakingAllReclaims(b: Buf, n: nat)
    requires b.Valid() && n <= |b.Contents()|
    ensures 0 < n == |b.Contents()| ==> b.TakenAway(n) == b.(store := [], r := 0)
    ensures n < |b.Contents()| ==> b.TakenAway(n) == b.(r := b.r + n)
  {}

  /** Making room keeps the bytes below the writer index and all indexes, and copies only when the buffer grows. */
  lemma EnsuredKeeps(b: Buf, n: int)
    requires b.Valid()
    ensures var e := b.Ensured(n);
            && n <= e.capacity - |e.store| && e.store == b.store
            && e.r == b.r && e.markedR == b.markedR && e.markedW == b.markedW
            && (n <= b.capacity - |b.store| ==> e == b)
            && (n > b.capacity - |b.store| ==> e.copied == b.copied + |b.store|)
  {}

  /** Writing keeps the bytes below the writer index, reader index and marks, and grows only for want of room. */
  lemma WrittenKeeps(b: Buf, bytes: seq<Byte>)
    requires b.Valid()
    ensures var w := b.Written(bytes);
            && w.store == b.store + bytes && w.r == b.r && w.markedR == b.markedR && w.markedW == b.markedW
            && (|w.store| <= b.capacity ==> w.capacity == b.capacity && w.copied == b.copied)
            && (|w.store| > b.capacity ==> w.capacity >= |w.store| && w.copied == b.copied + |b.store|)
  {}

  /** Discarding keeps the readable bytes and makes exactly the read ones writable again. */
  lemma DiscardReclaims(b: Buf)
    requires b.Valid()
    ensures b.Discarded().Valid() && b.Discarded().Contents() == b.Contents() && b.Discarded().r == 0
    ensures b.Discarded().capacity - |b.Discarded().store| == b.capacity - |b.store| + b.r
  {}

  // ---------------------------------------------------------------------------
  // Runs: the buffer is a byte queue
  // ---------------------------------------------------------------------------

  datatype Op =
    | Write(bytes: seq<Byte>)
    | Zero(n: int)
    | Read(n: int)
    | TakeAway(n: int)
    | Skip(count: nat)
    | Clear
    | Discard
    | Ensure(n: int)
    | MarkReader
    | MarkWriter

  /** What an operation takes from the queue: none for those that throw. */
  function Amount(q: seq<Byte>, op: Op): nat {
    match op
    case Read(n) => if 0 <= n <= |q| then n else 0
    case TakeAway(n) => if 0 <= n <= |q| then n else 0
    case Skip(count) => if count <= |q| then count else 0
    case _ => 0
  }

  function Max(x: int, y: int): (m: int)
    ensures m >= x && m >= y && (m == x || m == y)
  {
    if x < y then y else x
  }

  function Do(b: Buf, op: Op): (b': Buf)
    requires b.Valid()
  {
    match op
    case Write(bytes) => b.Written(bytes)
    case Zero(n) => b.Written(Zeros(Max(n, 0)))
    case Read(_) => b.Skipped(Amount(b.Contents(), op))
    case TakeAway(_) => b.TakenAway(Amount(b.Contents(), op))
    case Skip(_) => b.Skipped(Amount(b.Contents(), op))
    case Clear => b.Cleared()
    case Discard => b.Discarded()
    case Ensure(n) => b.Ensured(n)
    case MarkReader => b.(markedR := b.r)
    case MarkWriter => b.(markedW := |b.store|)
  }

  /** The same on a plain queue. */
  function Queue(q: seq<Byte>, op: Op): seq<Byte> {
    match op
    case Write(bytes) => q + bytes
    case Zero(n) => q + Zeros(Max(n, 0))
    case Clear => []
    case _ => q[Amount(q, op)..]
  }

  lemma DoRefinesQueue(b: Buf, op: Op)
    requires b.Valid()
    ensures Do(b, op).Valid() && Do(b, op).Contents() == Queue(b.Contents(), op)
  {}

  function DoAll(b: Buf, ops: seq<Op>): Buf
    requires b.Valid()
    decreases |ops|
  {
    if ops == [] then b
    else DoRefinesQueue(b, ops[0]); DoAll(Do(b, ops[0]), ops[1..])
  }

  function QueueAll(q: seq<Byte>, ops: seq<Op>): seq<Byte>
    decreases |ops|
  {
    if ops == [] then q else QueueAll(Queue(q, ops[0]), ops[1..])
  }

  /** After any run, across any growth, compaction and clearing, the readable bytes are the queue. */
  lemma {:induction false} RunRefinesQueue(b: Buf, ops: seq<Op>)
    requires b.Valid()
    ensures DoAll(b, ops).Valid() && DoAll(b, ops).Contents() == QueueAll(b.Contents(), ops)
    decreases |ops|
  {
    if ops != [] {
      DoRefinesQueue(b, ops[0]);
      RunRefinesQueue(Do(b, ops[0]), ops[1..]);
    }
  }

  // ---------------------------------------------------------------------------
  // Runs: what growth costs
  // ---------------------------------------------------------------------------

  /** The largest writer index an operation asks room for. */
  function Demand(b: Buf, op: Op): int
    requires b.Valid()
  {
    match op
    case Write(bytes) => |b.store| + |bytes|
    case Zero(n) => |b.store| + Max(n, 0)
    case Ensure(n) => |b.store| + n
    case _ => 0
  }

  function Peak(b: Buf, ops: seq<Op>): int
    requires b.Valid()
    decreases |ops|
  {
    if ops == [] then 0
    else DoRefinesQueue(b, ops[0]); Max(Demand(b, ops[0]), Peak(Do(b, ops[0]), ops[1..]))
  }

  lemma EnsuredCost(b: Buf, n: int)
    requires b.Valid()
    ensures b.Ensured(n).copied + b.capacity <= b.copied + b.Ensured(n).capacity
    ensures b.Ensured(n).capacity == b.capacity || b.capacity < b.Ensured(n).capacity < 2 * (|b.store| + n)
  {
    if n > b.capacity - |b.store| {
      DoubledBelowTwice(if b.capacity == 0 then 1 else b.capacity, |b.store| + n);
    }
  }

  lemma DoCost(b: Buf, op: Op)
    requires b.Valid()
    ensures Do(b, op).copied + b.capacity <= b.copied + Do(b, op).capacity
    ensures Do(b, op).capacity == b.capacity || b.capacity < Do(b, op).capacity < 2 * Demand(b, op)
  {
    match op
    case Write(bytes) => EnsuredCost(b, |bytes|);
    case Zero(n) => EnsuredCost(b, Max(n, 0));
    case Ensure(n) => EnsuredCost(b, n);
    case _ =>
  }

  /**
   * Amortised growth: the bytes that reallocations copied are at most what the capacity gained,
   * and a capacity that grew is below twice the largest index demanded.
   */
  lemma {:induction false} GrowthIsAmortised(b: Buf, ops: seq<Op>)
    requires b.Valid()
    ensures DoAll(b, ops).copied + b.capacity <= b.copied + DoAll(b, ops).capacity
    ensures DoAll(b, ops).capacity == b.capacity || b.capacity < DoAll(b, ops).capacity < 2 * Peak(b, ops)
    decreases |ops|
  {
    if ops != [] {
      DoRefinesQueue(b, ops[0]);
      DoCost(b, ops[0]);
      GrowthIsAmortised(Do(b, ops[0]), ops[1..]);
    }
  }

  /** Hence the copying of a whole run is below twice its peak demand. */
  lemma CopyingIsLinear(b: Buf, ops: seq<Op>)
    requires b.Valid() && b.copied == 0
    ensures DoAll(b, ops).copied == 0 || DoAll(b, ops).copied < 2 * Peak(b, ops)
  {
    GrowthIsAmortised(b, ops);
  }

  // ---------------------------------------------------------------------------
  // Runs: the capacity stays an int
  // ---------------------------------------------------------------------------

  /** How many writable bytes an operation asks for. */
  function Room(op: Op): int {
    match op
    case Write(bytes) => |bytes|
    case Zero(n) => Max(n, 0)
    case Ensure(n) => n
    case _ => 0
  }

  /** The operation does not grow the buffer beyond what an `int` counts. */
  predicate Fits(b: Buf, op: Op)
    requires b.Valid()
  {
    Room(op) > b.capacity - |b.store| ==> Grown(b.capacity, |b.store| + Room(op)) < TWO_31
  }

  predicate AllFit(b: Buf, ops: seq<Op>)
    requires b.Valid()
    decreases |ops|
  {
    ops == [] || (DoRefinesQueue(b, ops[0]); Fits(b, ops[0]) && AllFit(Do(b, ops[0]), ops[1..]))
  }

  lemma OperationFits(b: Buf, op: Op)
    requires b.Valid() && b.capacity < TWO_31 && Demand(b, op) <= TWO_31 / 2
    ensures Fits(b, op) && Do(b, op).capacity < TWO_31
  {
    DoCost(b, op);
    GrowthFitsInt(b.capacity, |b.store| + Room(op));
  }

  /** A run whose peak demand is at most 2^30 never grows beyond what an `int` counts. */
  lemma {:induction false} RunFits(b: Buf, ops: seq<Op>)
    requires b.Valid() && b.capacity < TWO_31 && Peak(b, ops) <= TWO_31 / 2
    ensures AllFit(b, ops) && DoAll(b, ops).capacity < TWO_31
    decreases |ops|
  {
    if ops != [] {
      DoRefinesQueue(b, ops[0]);
      OperationFits(b, ops[0]);
      RunFits(Do(b, ops[0]), ops[1..]);
    }
  }

  // ---------------------------------------------------------------------------
  // Typed values
  // ---------------------------------------------------------------------------

  /** A value and the number of bytes of the accessor it is written and read with. */
  datatype Typed = Typed(width: nat, value: int)

  function EncodeAll(vs: seq<Typed>): seq<Byte> {
    if vs == [] then [] else Encode(vs[0].width, vs[0].value) + EncodeAll(vs[1..])
  }

  /** Reading in the order of `vs` from bytes that begin with their encoding. */
  function DecodeAll(vs: seq<Typed>, bytes: seq<Byte>): seq<int> {
    if vs == [] || |bytes| < vs[0].width then []
    else [Signed(vs[0].width, Decode(bytes[..vs[0].width]))] + DecodeAll(vs[1..], bytes[vs[0].width..])
  }

  /** Values written one after the other are read back in order, each truncated to its width. */
  lemma {:induction false} TypedRoundTrip(vs: seq<Typed>, rest: seq<Byte>)
    ensures |DecodeAll(vs, EncodeAll(vs) + rest)| == |vs|
    ensures forall i :: 0 <= i < |vs| ==> DecodeAll(vs, EncodeAll(vs) + rest)[i] == Truncated(vs[i].width, vs[i].value)
  {
    if vs != [] {
      var v := vs[0];
      var bytes := EncodeAll(vs) + rest;
      assert bytes == Encode(v.width, v.value) + (EncodeAll(vs[1..]) + rest);
      assert bytes[..v.width] == Encode(v.width, v.value);
      assert bytes[v.width..] == EncodeAll(vs[1..]) + rest;
      RoundTrip(v.width, v.value);
      TypedRoundTrip(vs[1..], rest);
    }
  }
}
