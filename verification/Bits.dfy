/** Bitwise operators of C++ integers, read as two's-complement bit patterns. */
module Bits {
  import opened Numbers

  /** `x & y` of two bit patterns. */
  function And(x: nat, y: nat): (r: nat)
    ensures r <= x
  {
    if x == 0 then 0 else (if x % 2 == 1 && y % 2 == 1 then 1 else 0) + 2 * And(x / 2, y / 2)
  }

  /** The low `w` bits of `x ^ y`; a negative operand stands for its two's complement. */
  function Xor(w: nat, x: int, y: int): (r: nat)
    ensures r < Pow2(w)
  {
    if w == 0 then 0 else (x % 2 + y % 2) % 2 + 2 * Xor(w - 1, x / 2, y / 2)
  }

  predicate IsPow2(n: int) {
    exists j: nat :: j < n && n == Pow2(j)
  }

  lemma {:induction false} BelowPow2(j: nat)
    ensures j < Pow2(j)
  {
    if j > 0 {
      BelowPow2(j - 1);
    }
  }

  /** A number and its bitwise complement share no bit. */
  lemma {:induction false} AndComplement(w: nat, m: nat)
    requires m < Pow2(w)
    ensures And(m, Pow2(w) - 1 - m) == 0
  {
    if m > 0 {
      assert (Pow2(w) - 1 - m) / 2 == Pow2(w - 1) - 1 - m / 2;
      AndComplement(w - 1, m / 2);
    }
  }

  lemma IsPow2Doubles(m: nat)
    requires 0 < m
    ensures IsPow2(2 * m) <==> IsPow2(m)
  {
    if IsPow2(m) {
      var j: nat :| j < m && m == Pow2(j);
      assert 2 * m == Pow2(j + 1);
    }
    if IsPow2(2 * m) {
      var j: nat :| j < 2 * m && 2 * m == Pow2(j);
      assert j > 0;
      BelowPow2(j - 1);
      assert m == Pow2(j - 1);
    }
  }

  lemma Pow2Parity(j: nat)
    ensures Pow2(j) % 2 == 1 <==> j == 0
  {}

  lemma OddPow2(n: nat)
    requires n % 2 == 1
    ensures IsPow2(n) <==> n == 1
  {
    assert Pow2(0) == 1;
    if IsPow2(n) {
      var j: nat :| j < n && n == Pow2(j);
      Pow2Parity(j);
    }
  }

  /** The test `(n & -n) == n` on w-bit integers accepts exactly the powers of two. */
  lemma {:induction false} AndNegationFindsPowersOfTwo(w: nat, n: nat)
    requires 0 < n < Pow2(w)
    ensures And(n, Pow2(w) - n) == n <==> IsPow2(n)
  {
    var m, b, p := n / 2, n % 2, Pow2(w - 1);
    assert n == 2 * m + b && Pow2(w) == 2 * p;
    if b == 0 {
      AndNegationFindsPowersOfTwo(w - 1, m);
      IsPow2Doubles(m);
      AndOfDoubles(m, p - m, 0);
    } else {
      AndComplement(w - 1, m);
      OddPow2(n);
      AndOfDoubles(m, p - 1 - m, 1);
    }
  }

  lemma AndOfDoubles(x: nat, y: nat, b: nat)
    requires b <= 1
    ensures And(2 * x + b, 2 * y + b) == 2 * And(x, y) + b
  {}

  lemma RemainderOfDouble(x: int, p: nat)
    requires p > 0
    ensures x % (2 * p) == 2 * ((x / 2) % p) + x % 2
  {
    var h, q := x / 2, x / 2 / p;
    Regroup(2, p, q);
    RemainderIsUnique(x, 2 * p, q, 2 * (h % p) + x % 2);
  }

  lemma XorDigits(w: nat, x: int, y: int)
    requires w > 0
    ensures Xor(w, x, y) % 2 == (x % 2 + y % 2) % 2
    ensures Xor(w, x, y) / 2 == Xor(w - 1, x / 2, y / 2)
  {}

  /** Xor with the same pattern twice restores the low bits. */
  lemma {:induction false} XorTwice(w: nat, x: int, y: int)
    ensures Xor(w, Xor(w, x, y), y) == x % Pow2(w)
  {
    if w > 0 {
      XorTwice(w - 1, x / 2, y / 2);
      var r := Xor(w, x, y);
      var z := Xor(w, r, y);
      XorDigits(w, x, y);
      XorDigits(w, r, y);
      assert z / 2 == (x / 2) % Pow2(w - 1);
      ParityOfSum(x, y, r, z);
      RemainderOfDouble(x, Pow2(w - 1));
      assert z == 2 * (z / 2) + z % 2;
    }
  }

  lemma ParityOfSum(x: int, y: int, r: int, z: int)
    requires r % 2 == (x % 2 + y % 2) % 2 && z % 2 == (r % 2 + y % 2) % 2
    ensures z % 2 == x % 2
  {}

  lemma {:induction false} XorCommutes(w: nat, x: int, y: int)
    ensures Xor(w, x, y) == Xor(w, y, x)
  {
    if w > 0 {
      XorCommutes(w - 1, x / 2, y / 2);
    }
  }

  /** Xor with the result gives back the pattern. */
  lemma XorUndoes(w: nat, x: int, y: int)
    ensures Xor(w, x, Xor(w, x, y)) == y % Pow2(w)
  {
    XorCommutes(w, x, Xor(w, x, y));
    XorCommutes(w, x, y);
    XorTwice(w, y, x);
  }

  /** Bit `i` of a two's complement. */
  function Bit(x: int, i: nat): (b: nat)
    ensures b <= 1
  {
    x / Pow2(i) % 2
  }

  lemma BitOfHalf(x: int, i: nat)
    requires i > 0
    ensures Bit(x, i) == Bit(x / 2, i - 1)
  {
    var p, q := Pow2(i - 1), x / 2 / Pow2(i - 1);
    Regroup(2, p, q);
    RemainderIsUnique(x, 2 * p, q, 2 * (x / 2 % p) + x % 2);
  }

  /** A bit is set in the result when exactly one of the operands has it. */
  lemma {:induction false} XorBit(w: nat, x: int, y: int, i: nat)
    requires i < w
    ensures Bit(Xor(w, x, y), i) == 1 <==> Bit(x, i) != Bit(y, i)
  {
    XorDigits(w, x, y);
    if i == 0 {
      assert Pow2(0) == 1;
    } else {
      BitOfHalf(Xor(w, x, y), i);
      BitOfHalf(x, i);
      BitOfHalf(y, i);
      XorBit(w - 1, x / 2, y / 2, i - 1);
    }
  }

  lemma AndDigits(x: nat, y: nat)
    ensures And(x, y) % 2 == 1 <==> x % 2 == 1 && y % 2 == 1
    ensures And(x, y) / 2 == And(x / 2, y / 2)
  {}

  /** A bit is set in the result when both operands have it. */
  lemma {:induction false} AndBit(x: nat, y: nat, i: nat)
    ensures Bit(And(x, y), i) == 1 <==> Bit(x, i) == 1 && Bit(y, i) == 1
  {
    AndDigits(x, y);
    if i == 0 {
      assert Pow2(0) == 1;
    } else {
      BitOfHalf(And(x, y), i);
      BitOfHalf(x, i);
      BitOfHalf(y, i);
      AndBit(x / 2, y / 2, i - 1);
    }
  }

  /** Only the low bits of the operand matter. */
  lemma {:induction false} XorIgnoresHighBits(w: nat, v: nat, x: int, y: int)
    requires v <= w
    ensures Xor(w, x, y) % Pow2(v) == Xor(v, x, y)
  {
    if v > 0 {
      XorIgnoresHighBits(w - 1, v - 1, x / 2, y / 2);
      XorDigits(w, x, y);
      RemainderOfDouble(Xor(w, x, y), Pow2(v - 1));
    }
  }

  /** Equal low bits give equal results. */
  lemma {:induction false} XorOfEqualLowBits(w: nat, x: int, x': int, y: int)
    requires x % Pow2(w) == x' % Pow2(w)
    ensures Xor(w, x, y) == Xor(w, x', y)
  {
    if w > 0 {
      RemainderOfDouble(x, Pow2(w - 1));
      RemainderOfDouble(x', Pow2(w - 1));
      XorOfEqualLowBits(w - 1, x / 2, x' / 2, y / 2);
    }
  }
}
