/** Any sequence of typed writes to a dynamic buffer, read back in the same order of types. */
module TypedAccess {
  import opened BufferModel
  import opened Bytes
  import opened ChannelBuffers
  import opened Codec
  import opened Numbers
  import opened Results

  ghost predicate Accessible(vs: seq<Typed>) {
    forall v <- vs :: v.width in {1, 2, 3, 4, 8}
  }

  /** Everything fits below 2^30, so no growth leaves the range of an `int`. */
  ghost predicate Roomy(b: ChannelBuffer, n: nat)
    reads b
  {
    b.buffer.Length < TWO_31 && b.writerIdx + n <= TWO_31 / 2
  }

  method WriteTyped(b: ChannelBuffer, v: Typed)
    requires b.Valid() && b.growable && v.width in {1, 2, 3, 4, 8} && Roomy(b, v.width)
    modifies b, b.buffer
    ensures b.buffer == old(b.buffer) || fresh(b.buffer)
    ensures b.Valid() && b.View() == old(b.View()).Written(Encode(v.width, v.value))
    ensures b.Contents() == old(b.Contents()) + Encode(v.width, v.value)
    ensures b.writerIdx == old(b.writerIdx) + v.width && b.buffer.Length < TWO_31
  {
    GrowthFitsInt(b.buffer.Length, b.writerIdx + v.width);
    DoRefinesQueue(b.View(), Write(Encode(v.width, v.value)));
    ghost var before := b.View();
    var r: Result<()>;
    match v.width {
      case 1 => r := b.WriteByte(v.value);
      case 2 => r := b.WriteShort(v.value);
      case 3 => r := b.WriteMedium(v.value);
      case 4 => r := b.WriteInt(v.value);
      case _ => r := b.WriteLong(v.value);
    }
    assert b.View() == before.Written(Encode(v.width, v.value));
    assert |b.View().store| == |before.store| + v.width;
  }

  method ReadTyped(b: ChannelBuffer, width: nat) returns (r: Result<int>)
    requires b.Valid() && width in {1, 2, 3, 4, 8}
    modifies b`readerIdx
    ensures b.Valid() && r == ReadResult(width, old(b.Contents()))
    ensures b.Contents() == if r.Ok? then old(b.Contents())[width..] else old(b.Contents())
  {
    match width {
      case 1 => r := b.ReadByte();
      case 2 => r := b.ReadShort();
      case 3 => r := b.ReadMedium();
      case 4 => r := b.ReadInt();
      case _ => r := b.ReadLong();
    }
  }

  lemma EncodeAllStep(vs: seq<Typed>, i: nat, written: seq<Byte>)
    requires i < |vs| && written + EncodeAll(vs[i..]) == EncodeAll(vs)
    ensures (written + Encode(vs[i].width, vs[i].value)) + EncodeAll(vs[i + 1..]) == EncodeAll(vs)
  {
    var tail, e := vs[i..], Encode(vs[i].width, vs[i].value);
    assert tail[0] == vs[i] && tail[1..] == vs[i + 1..];
    Associate(written, e, EncodeAll(tail[1..]));
  }

  lemma Associate<T>(a: seq<T>, b: seq<T>, c: seq<T>)
    ensures a + (b + c) == (a + b) + c
  {}

  /** Writes every value in order. */
  method WriteAll(b: ChannelBuffer, vs: seq<Typed>)
    requires b.Valid() && b.growable && Accessible(vs) && Roomy(b, |EncodeAll(vs)|)
    modifies b, b.buffer
    ensures b.buffer == old(b.buffer) || fresh(b.buffer)
    ensures b.Valid() && b.Contents() == old(b.Contents()) + EncodeAll(vs)
  {
    ghost var before, start := b.Contents(), b.writerIdx;
    ghost var written := [];
    for i := 0 to |vs|
      invariant b.Valid() && (b.buffer == old(b.buffer) || fresh(b.buffer))
      invariant written + EncodeAll(vs[i..]) == EncodeAll(vs)
      invariant b.Contents() == before + written
      invariant b.writerIdx == start + |written| && b.buffer.Length < TWO_31
    {
      EncodeAllStep(vs, i, written);
      WriteTyped(b, vs[i]);
      ghost var e := Encode(vs[i].width, vs[i].value);
      Associate(before, written, e);
      written := written + e;
    }
    assert vs[|vs|..] == [];
  }

  lemma DecodeAllStep(vs: seq<Typed>, i: nat, bytes: seq<Byte>)
    requires i < |vs| && DecodeAll(vs[i..], bytes) != []
    ensures |bytes| >= vs[i].width
    ensures DecodeAll(vs[i..], bytes)
         == [Signed(vs[i].width, Decode(bytes[..vs[i].width]))] + DecodeAll(vs[i + 1..], bytes[vs[i].width..])
  {
    assert vs[i..][1..] == vs[i + 1..];
  }

  /** Reads one value of each type in order. */
  method ReadAll(b: ChannelBuffer, vs: seq<Typed>) returns (back: seq<int>)
    requires b.Valid() && Accessible(vs) && |DecodeAll(vs, b.Contents())| == |vs|
    modifies b`readerIdx
    ensures b.Valid() && back == DecodeAll(vs, old(b.Contents()))
  {
    back := [];
    assert vs[0..] == vs;
    for i := 0 to |vs|
      invariant b.Valid() && |back| == i
      invariant back + DecodeAll(vs[i..], b.Contents()) == DecodeAll(vs, old(b.Contents()))
    {
      DecodeAllStep(vs, i, b.Contents());
      ghost var rest := DecodeAll(vs[i + 1..], b.Contents()[vs[i].width..]);
      var r := ReadTyped(b, vs[i].width);
      Associate(back, [r.value], rest);
      back := back + [r.value];
    }
    assert vs[|vs|..] == [];
  }

  /** What was written comes back in order, truncated to its width and sign-extended. */
  method WriteThenRead(capacity: nat, vs: seq<Typed>) returns (back: seq<int>)
    requires capacity < TWO_31 && Accessible(vs) && |EncodeAll(vs)| <= TWO_31 / 2
    ensures |back| == |vs| && forall i :: 0 <= i < |vs| ==> back[i] == Truncated(vs[i].width, vs[i].value)
  {
    var b := new ChannelBuffer(true, capacity);
    WriteAll(b, vs);
    assert b.Contents() == EncodeAll(vs) + [];
    TypedRoundTrip(vs, []);
    back := ReadAll(b, vs);
  }
}
