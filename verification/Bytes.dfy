/** Bytes, and storing runs of them. */
module Bytes {
  type Byte = b: int | 0 <= b < 256

  function Zeros(n: nat): (z: seq<Byte>)
    ensures |z| == n && forall i :: 0 <= i < n ==> z[i] == 0
  {
    seq(n, _ => 0 as Byte)
  }

  /** `data` with `bytes` in place of what was at `at`. */
  function Spliced(data: seq<Byte>, at: nat, bytes: seq<Byte>): seq<Byte>
    requires at + |bytes| <= |data|
  {
    data[..at] + bytes + data[at + |bytes|..]
  }

  lemma SplicedAt(data: seq<Byte>, at: nat, bytes: seq<Byte>, k: nat)
    requires at + |bytes| <= |data| && k < |data|
    ensures |Spliced(data, at, bytes)| == |data|
    ensures Spliced(data, at, bytes)[k] == if at <= k < at + |bytes| then bytes[k - at] else data[k]
  {}

  predicate InRange(data: seq<Byte>, index: int, n: nat) {
    0 <= index && index + n <= |data|
  }

  /**
   * `data` after assigning `bytes` one by one from `index` upward, when an assignment outside
   * throws: the bytes before the first one outside are stored.
   */
  function Stored(data: seq<Byte>, index: int, bytes: seq<Byte>): (r: seq<Byte>)
    ensures |r| == |data|
  {
    if index < 0 || |data| <= index then data
    else if index + |bytes| <= |data| then Spliced(data, index, bytes)
    else Spliced(data, index, bytes[..|data| - index])
  }

  lemma StoredTwice(data: seq<Byte>, index: int, a: seq<Byte>, b: seq<Byte>)
    requires InRange(data, index, |a|)
    ensures Stored(Stored(data, index, a), index + |a|, b) == Stored(data, index, a + b)
  {
    if index + |a| < |data| && index + |a| + |b| > |data| {
      assert (a + b)[..|data| - index] == a + b[..|data| - index - |a|];
    }
  }

  lemma StoreNext(before: seq<Byte>, index: int, bytes: seq<Byte>, k: nat)
    requires k < |bytes| && (k == 0 || InRange(before, index, k))
    ensures var now := Stored(before, index, bytes[..k]);
            if 0 <= index + k < |before|
            then InRange(before, index, k + 1) && now[index + k := bytes[k]] == Stored(before, index, bytes[..k + 1])
            else !InRange(before, index, |bytes|) && now == Stored(before, index, bytes)
  {
    assert bytes[..k + 1] == bytes[..k] + [bytes[k]];
    if k == 0 {
      assert Stored(before, index, bytes[..0]) == before;
    }
  }

  /** Storing changes the requested bytes and no other. */
  lemma StoredAt(data: seq<Byte>, index: int, bytes: seq<Byte>, k: nat)
    requires k < |data|
    ensures Stored(data, index, bytes)[k] == if 0 <= index <= k < index + |bytes| then bytes[k - index] else data[k]
  {}

  /**
   * Storing n more zero bytes after `done` of them: either all fit, or the result is what storing
   * any larger number would give.
   */
  lemma ZeroStride(before: seq<Byte>, index: int, done: nat, n: nat, length: nat)
    requires done + n <= length && n > 0 && (done == 0 || InRange(before, index, done))
    ensures var after := Stored(Stored(before, index, Zeros(done)), index + done, Zeros(n));
            if InRange(before, index + done, n)
            then InRange(before, index, done + n) && after == Stored(before, index, Zeros(done + n))
            else !InRange(before, index, length) && after == Stored(before, index, Zeros(length))
  {
    assert Zeros(done) + Zeros(n) == Zeros(done + n);
    if done == 0 {
      assert Stored(before, index, Zeros(0)) == before;
    } else {
      StoredTwice(before, index, Zeros(done), Zeros(n));
    }
    if 0 <= index < |before| && !InRange(before, index, done + n) {
      var room := |before| - index;
      assert Zeros(done + n)[..room] == Zeros(length)[..room];
    }
  }
}
