/** Big-endian integers of 1, 2, 3, 4 and 8 bytes, as src/cetty/buffer/BigEndianHeapChannelBuffer.cpp stores them. */
module Codec {
  import opened Bytes
  import opened Numbers

  function Pow256(w: nat): (p: nat)
    ensures p > 0 && (w > 0 ==> p % 2 == 0)
  {
    if w == 0 then 1 else 256 * Pow256(w - 1)
  }

  /** The low `w` bytes of `v`, most significant first; `/` and `%` act on two's complements. */
  function Encode(w: nat, v: int): (bs: seq<Byte>)
    ensures |bs| == w
  {
    if w == 0 then [] else Encode(w - 1, v / 256) + [v % 256]
  }

  /** The unsigned number that bytes spell, most significant first. */
  function Decode(bs: seq<Byte>): (u: nat)
    ensures u < Pow256(|bs|)
  {
    if bs == [] then 0 else Decode(bs[..|bs| - 1]) * 256 + bs[|bs| - 1]
  }

  /** The `w`-byte pattern `u` read as a signed number. */
  function Signed(w: nat, u: int): int {
    if 2 * u >= Pow256(w) then u - Pow256(w) else u
  }

  /** `v` cut down to `w` bytes and sign-extended. */
  function Truncated(w: nat, v: int): int {
    Signed(w, v % Pow256(w))
  }

  /** Shifting by a byte first is shifting further; masking likewise. */
  lemma ShiftTwice(v: int, p: nat)
    requires p > 0
    ensures v / 256 / p == v / (256 * p)
    ensures v % (256 * p) == 256 * (v / 256 % p) + v % 256
  {
    var q := v / 256 / p;
    Regroup(256, p, q);
    RemainderIsUnique(v, 256 * p, q, 256 * (v / 256 % p) + v % 256);
  }

  lemma {:induction false} DecodeOfEncode(w: nat, v: int)
    ensures Decode(Encode(w, v)) == v % Pow256(w)
  {
    if w == 0 {
      assert v % 1 == 0;
    } else {
      DecodeOfEncode(w - 1, v / 256);
      assert Encode(w, v)[..w - 1] == Encode(w - 1, v / 256);
      ShiftTwice(v, Pow256(w - 1));
    }
  }

  /** Bytes are the encoding of the number they spell: encoding and decoding are inverse. */
  lemma {:induction false} EncodeOfDecode(bs: seq<Byte>)
    ensures Encode(|bs|, Decode(bs)) == bs
  {
    if bs != [] {
      EncodeOfDecode(bs[..|bs| - 1]);
      var u := Decode(bs);
      assert u / 256 == Decode(bs[..|bs| - 1]) && u % 256 == bs[|bs| - 1];
    }
  }

  /** A number written in `w` bytes is read back truncated to them, unchanged if it fits. */
  lemma RoundTrip(w: nat, v: int)
    ensures Signed(w, Decode(Encode(w, v))) == Truncated(w, v)
    ensures w > 0 && -(Pow256(w) / 2) <= v < Pow256(w) / 2 ==> Truncated(w, v) == v
  {
    DecodeOfEncode(w, v);
    var p := Pow256(w);
    if w > 0 && 0 <= v < p / 2 {
      RemainderIsUnique(v, p, 0, v);
    } else if w > 0 && -(p / 2) <= v < 0 {
      RemainderIsUnique(v, p, -1, v + p);
    }
  }

  lemma {:induction false} Pow256IsPow2(w: nat)
    ensures Pow256(w) == Pow2(8 * w)
  {
    if w > 0 {
      Pow256IsPow2(w - 1);
      Pow2Add(8, 8 * (w - 1));
      assert Pow2(4) == 16;
      Pow2Add(4, 4);
    }
  }

  /** Byte `k` of an encoding, counted from the most significant, is the number shifted right and masked. */
  lemma {:induction false} EncodeAt(w: nat, v: int, k: nat)
    requires k < w
    ensures Encode(w, v)[k] == v / Pow2(8 * (w - 1 - k)) % 256
  {
    if k < w - 1 {
      EncodeAt(w - 1, v / 256, k);
      Pow256IsPow2(w - 1 - k);
      Pow256IsPow2(w - 2 - k);
      ShiftTwice(v, Pow256(w - 2 - k));
    } else {
      assert Pow2(0) == 1;
    }
  }

  lemma SignedIsCongruent(v: int, p: nat)
    requires p > 0
    ensures (v % p - v) % p == 0 && (v % p - p - v) % p == 0
  {
    var q := v / p;
    Distribute(p, -q, 1);
    MultipleHasNoRemainder(p, -q);
    MultipleHasNoRemainder(p, -q - 1);
  }

  /** The truncated value is the one that fits `w` bytes and differs from `v` by a multiple of 2^(8w). */
  lemma TruncatedFits(w: nat, v: int)
    requires w > 0
    ensures (Truncated(w, v) - v) % Pow2(8 * w) == 0
    ensures 0 - Pow2(8 * w - 1) <= Truncated(w, v) < Pow2(8 * w - 1)
  {
    Pow256IsPow2(w);
    SignedIsCongruent(v, Pow256(w));
    assert Pow2(8 * w) == 2 * Pow2(8 * w - 1);
  }

  // ---------------------------------------------------------------------------
  // The shifts and masks of the accessors
  // ---------------------------------------------------------------------------

  lemma Pow256Values()
    ensures Pow256(1) == 0x100 && Pow256(2) == 0x1_0000 && Pow256(3) == 0x100_0000
    ensures Pow256(4) == TWO_32 && Pow256(8) == TWO_64
  {
    assert Pow256(4) == 256 * Pow256(3);
    assert Pow256(6) == 256 * 256 * Pow256(4);
    assert Pow256(8) == 256 * 256 * Pow256(6);
  }

  lemma {:induction false} EncodeZero(w: nat)
    ensures Encode(w, 0) == Zeros(w)
  {
    if w > 0 {
      EncodeZero(w - 1);
    }
  }

  lemma EncodeByte(v: int)
    ensures Encode(1, v) == [v % 256]
  {
    assert Encode(0, v / 256) == [];
  }

  lemma EncodeShort(v: int)
    ensures Encode(2, v) == [v / 0x100 % 256, v % 256]
  {
    EncodeByte(v / 256);
  }

  lemma EncodeMedium(v: int)
    ensures Encode(3, v) == [v / 0x1_0000 % 256, v / 0x100 % 256, v % 256]
  {
    EncodeShort(v / 256);
    assert v / 256 / 0x100 == v / 0x1_0000;
  }

  lemma EncodeInt(v: int)
    ensures Encode(4, v) == [v / 0x100_0000 % 256, v / 0x1_0000 % 256, v / 0x100 % 256, v % 256]
  {
    EncodeMedium(v / 256);
    assert v / 256 / 0x1_0000 == v / 0x100_0000;
    assert v / 256 / 0x100 == v / 0x1_0000;
  }

  lemma {:induction false} EncodeSplit(hi: nat, lo: nat, v: int)
    ensures Encode(hi + lo, v) == Encode(hi, v / Pow256(lo)) + Encode(lo, v)
  {
    if lo == 0 {
      assert v / 1 == v;
      assert Encode(0, v) == [];
    } else {
      EncodeSplit(hi, lo - 1, v / 256);
      assert hi + lo - 1 == hi + (lo - 1);
      ShiftTwice(v, Pow256(lo - 1));
      assert Encode(hi, v / Pow256(lo)) + (Encode(lo - 1, v / 256) + [v % 256])
          == (Encode(hi, v / 256 / Pow256(lo - 1)) + Encode(lo - 1, v / 256)) + [v % 256];
    }
  }

  lemma EncodeLong(v: int)
    ensures Encode(8, v) == [v / 0x100_0000_0000_0000 % 256, v / 0x1_0000_0000_0000 % 256,
                             v / 0x100_0000_0000 % 256, v / 0x1_0000_0000 % 256,
                             v / 0x100_0000 % 256, v / 0x1_0000 % 256, v / 0x100 % 256, v % 256]
  {
    Pow256Values();
    EncodeSplit(4, 4, v);
    var h := v / TWO_32;
    EncodeInt(h);
    EncodeInt(v);
    assert h / 0x100_0000 == v / 0x100_0000_0000_0000;
    assert h / 0x1_0000 == v / 0x1_0000_0000_0000;
    assert h / 0x100 == v / 0x100_0000_0000;
  }

  function Join2(b0: int, b1: int): int {
    b0 * 0x100 + b1
  }

  function Join3(b0: int, b1: int, b2: int): int {
    b0 * 0x1_0000 + b1 * 0x100 + b2
  }

  function Join4(b0: int, b1: int, b2: int, b3: int): int {
    b0 * 0x100_0000 + b1 * 0x1_0000 + b2 * 0x100 + b3
  }

  function Join8(b0: int, b1: int, b2: int, b3: int, b4: int, b5: int, b6: int, b7: int): int {
    b0 * 0x100_0000_0000_0000 + b1 * 0x1_0000_0000_0000 + b2 * 0x100_0000_0000 + b3 * 0x1_0000_0000
    + b4 * 0x100_0000 + b5 * 0x1_0000 + b6 * 0x100 + b7
  }

  lemma DecodeByte(bs: seq<Byte>)
    requires |bs| == 1
    ensures Decode(bs) == bs[0]
  {
    assert bs[..0] == [];
  }

  lemma DecodeShort(bs: seq<Byte>)
    requires |bs| == 2
    ensures Decode(bs) == Join2(bs[0], bs[1])
  {
    DecodeByte(bs[..1]);
  }

  lemma DecodeMedium(bs: seq<Byte>)
    requires |bs| == 3
    ensures Decode(bs) == Join3(bs[0], bs[1], bs[2])
  {
    DecodeShort(bs[..2]);
  }

  lemma DecodeInt(bs: seq<Byte>)
    requires |bs| == 4
    ensures Decode(bs) == Join4(bs[0], bs[1], bs[2], bs[3])
  {
    DecodeMedium(bs[..3]);
  }

  lemma DecodeLong(bs: seq<Byte>)
    requires |bs| == 8
    ensures Decode(bs) == Join8(bs[0], bs[1], bs[2], bs[3], bs[4], bs[5], bs[6], bs[7])
  {
    var b7, b6, b5 := bs[..7], bs[..6], bs[..5];
    assert b7[..6] == b6 && b6[..5] == b5 && b5[..4] == bs[..4];
    DecodeInt(bs[..4]);
    assert Decode(b5) == Decode(b5[..4]) * 256 + bs[4];
    assert Decode(b6) == Decode(b6[..5]) * 256 + bs[5];
    assert Decode(b7) == Decode(b7[..6]) * 256 + bs[6];
  }
}
