/**
 * Channel buffers over one byte array: the code of AbstractChannelBuffer.cpp on a fixed
 * big-endian heap buffer (`growable` false) and on a dynamic buffer (`growable` true), which
 * grows before it writes.
 */
module ChannelBuffers {
  import opened BufferModel
  import opened Bytes
  import opened Codec
  import opened Numbers
  import opened Results
  import ByteArray

  class ChannelBuffer {
    const growable: bool
    var buffer: array<Byte>
    var readerIdx: int
    var writerIdx: int
    var markedReaderIndex: int
    var markedWriterIndex: int
    ghost var copied: nat  // bytes copied by reallocations so far

    ghost predicate Valid()
      reads this
    {
      && 0 <= readerIdx <= writerIdx <= buffer.Length
      && 0 <= markedReaderIndex <= buffer.Length && 0 <= markedWriterIndex <= buffer.Length
    }

    ghost function View(): Buf
      requires Valid()
      reads this, buffer
    {
      Buf(buffer.Length, buffer[..writerIdx], readerIdx, markedReaderIndex, markedWriterIndex, copied)
    }

    ghost function Contents(): seq<Byte>
      requires Valid()
      reads this, buffer
    {
      View().Contents()
    }

    /** Room for `n` more bytes exists or can be made without the capacity leaving an `int`. */
    ghost predicate CanHold(n: int)
      reads this
    {
      growable && n > buffer.Length - writerIdx ==> Grown(buffer.Length, writerIdx + n) < TWO_31
    }

    constructor (growable: bool, capacity: nat)
      ensures Valid() && fresh(buffer) && this.growable == growable
      ensures View() == Buf(capacity, [], 0, 0, 0, 0)
    {
      this.growable := growable;
      buffer := new Byte[capacity];
      readerIdx, writerIdx, markedReaderIndex, markedWriterIndex := 0, 0, 0, 0;
      copied := 0;
    }

    // -------------------------------------------------------------------------
    // Indexes and marks
    // -------------------------------------------------------------------------

    method SetReaderIndex(index: int) returns (r: Result<()>)
      requires Valid()
      modifies this`readerIdx
      ensures Valid() && r == if 0 <= index <= writerIdx then Ok(()) else Thrown(RangeException)
      ensures readerIdx == if r.Ok? then index else old(readerIdx)
    {
      if index < 0 || index > writerIdx {
        return Thrown(RangeException);
      }
      readerIdx := index;
      r := Ok(());
    }

    method SetWriterIndex(index: int) returns (r: Result<()>)
      requires Valid()
      modifies this`writerIdx
      ensures Valid() && r == if readerIdx <= index <= buffer.Length then Ok(()) else Thrown(RangeException)
      ensures writerIdx == if r.Ok? then index else old(writerIdx)
    {
      if index < readerIdx || index > buffer.Length {
        return Thrown(RangeException);
      }
      writerIdx := index;
      r := Ok(());
    }

    method Clear()
      requires Valid()
      modifies this`readerIdx, this`writerIdx
      ensures Valid() && View() == old(View()).Cleared() && readerIdx == writerIdx == 0
    {
      readerIdx, writerIdx := 0, 0;
    }

    method MarkReaderIndex()
      requires Valid()
      modifies this`markedReaderIndex
      ensures Valid() && View() == Do(old(View()), MarkReader) && markedReaderIndex == readerIdx
    {
      markedReaderIndex := readerIdx;
    }

    method MarkWriterIndex()
      requires Valid()
      modifies this`markedWriterIndex
      ensures Valid() && View() == Do(old(View()), MarkWriter) && markedWriterIndex == writerIdx
    {
      markedWriterIndex := writerIdx;
    }

    method ResetReaderIndex() returns (r: Result<()>)
      requires Valid()
      modifies this`readerIdx
      ensures Valid() && r == if 0 <= markedReaderIndex <= writerIdx then Ok(()) else Thrown(RangeException)
      ensures readerIdx == if r.Ok? then markedReaderIndex else old(readerIdx)
    {
      r := SetReaderIndex(markedReaderIndex);
    }

    /** The code does not check the mark: the indexes stay in order exactly when the documented guard holds. */
    method ResetWriterIndex()
      requires Valid()
      modifies this`writerIdx
      ensures writerIdx == markedWriterIndex
      ensures Valid() <==> readerIdx <= markedWriterIndex
    {
      writerIdx := markedWriterIndex;
    }

    /** Nor does it check for negative lengths, which move the reader index back. */
    method SkipBytes(length: int) returns (r: Result<()>)
      requires Valid()
      modifies this`readerIdx
      ensures r == if length <= |old(Contents())| then Ok(()) else Thrown(RangeException)
      ensures readerIdx == old(readerIdx) + if r.Ok? then length else 0
      ensures Valid() <==> 0 <= old(readerIdx) + length
      ensures 0 <= length ==> View() == Do(old(View()), Skip(length))
    {
      var newReaderIndex := readerIdx + length;
      if newReaderIndex > writerIdx {
        return Thrown(RangeException);
      }
      readerIdx := newReaderIndex;
      r := Ok(());
    }

    /** Moves the readable bytes to the front; source and destination may overlap. */
    method DiscardReadBytes()
      requires Valid()
      modifies this, buffer
      ensures Valid() && buffer == old(buffer)
      ensures View() == old(View()).Discarded()
      ensures readerIdx == 0 && writerIdx == old(writerIdx - readerIdx)
      ensures var kept := old(readerIdx == 0 || readerIdx == writerIdx);
              && markedReaderIndex == (if kept then old(markedReaderIndex)
                                       else Max(old(markedReaderIndex - readerIdx), 0))
              && markedWriterIndex == (if kept then old(markedWriterIndex)
                                       else Max(old(markedWriterIndex - readerIdx), 0))
      ensures buffer[writerIdx..] == old(buffer[..])[writerIdx..]
    {
      if readerIdx == 0 {
        return;
      }
      if readerIdx == writerIdx {
        readerIdx, writerIdx := 0, 0;
        return;
      }
      var moved := ByteArray.Copy(buffer, 0, buffer, readerIdx, writerIdx - readerIdx);
      writerIdx := writerIdx - readerIdx;
      markedReaderIndex := if markedReaderIndex - readerIdx > 0 then markedReaderIndex - readerIdx else 0;
      markedWriterIndex := if markedWriterIndex - readerIdx > 0 then markedWriterIndex - readerIdx else 0;
      readerIdx := 0;
    }

    // -------------------------------------------------------------------------
    // Growth
    // -------------------------------------------------------------------------

    /** A dynamic buffer reallocates by doubling; a fixed one throws when there is no room. */
    method EnsureWritableBytes(n: int) returns (r: Result<()>)
      requires Valid() && CanHold(n)
      modifies this
      ensures Valid() && (buffer == old(buffer) || fresh(buffer))
      ensures growable ==> r.Ok? && View() == old(View()).Ensured(n) && n <= buffer.Length - writerIdx
      ensures unchanged(this`readerIdx, this`writerIdx, this`markedReaderIndex, this`markedWriterIndex)
      ensures !growable ==> r == (if n <= buffer.Length - writerIdx then Ok(()) else Thrown(RangeException))
      ensures !growable || n <= old(buffer.Length) - old(writerIdx) ==>
                buffer == old(buffer) && View() == old(View())
    {
      if n <= buffer.Length - writerIdx {
        return Ok(());
      }
      if !growable {
        return Thrown(RangeException);
      }
      var newCapacity := GrowCapacity(buffer.Length, writerIdx + n);
      var newBuffer := new Byte[newCapacity];
      var filled := ByteArray.Copy(newBuffer, 0, buffer, 0, writerIdx);
      assert newBuffer[..writerIdx] == buffer[..writerIdx];
      buffer := newBuffer;
      copied := copied + writerIdx;
      r := Ok(());
    }

    // -------------------------------------------------------------------------
    // Accessors by index
    // -------------------------------------------------------------------------

    /** `arry[index + k] = bytes[k]` for each k in turn; an index outside throws. */
    method Assign(index: int, bytes: seq<Byte>) returns (r: Result<()>)
      modifies buffer
      ensures buffer[..] == Stored(old(buffer[..]), index, bytes)
      ensures r == if bytes == [] || InRange(buffer[..], index, |bytes|) then Ok(()) else Thrown(RangeException)
    {
      ghost var before := buffer[..];
      assert Stored(before, index, bytes[..0]) == before;
      for k := 0 to |bytes|
        invariant k == 0 || InRange(before, index, k)
        invariant buffer[..] == Stored(before, index, bytes[..k])
      {
        StoreNext(before, index, bytes, k);
        if index + k < 0 || index + k >= buffer.Length {
          return Thrown(RangeException);
        }
        buffer[index + k] := bytes[k];
      }
      assert bytes[..|bytes|] == bytes;
      r := Ok(());
    }

    method SetByte(index: int, value: int) returns (r: Result<()>)
      modifies buffer
      ensures buffer[..] == Stored(old(buffer[..]), index, Encode(1, value))
      ensures r == if InRange(buffer[..], index, 1) then Ok(()) else Thrown(RangeException)
    {
      EncodeByte(value);
      r := Assign(index, [value % 256]);
    }

    method SetShort(index: int, value: int) returns (r: Result<()>)
      modifies buffer
      ensures buffer[..] == Stored(old(buffer[..]), index, Encode(2, value))
      ensures r == if InRange(buffer[..], index, 2) then Ok(()) else Thrown(RangeException)
    {
      EncodeShort(value);
      r := Assign(index, [value / 0x100 % 256, value % 256]);
    }

    method SetMedium(index: int, value: int) returns (r: Result<()>)
      modifies buffer
      ensures buffer[..] == Stored(old(buffer[..]), index, Encode(3, value))
      ensures r == if InRange(buffer[..], index, 3) then Ok(()) else Thrown(RangeException)
    {
      EncodeMedium(value);
      r := Assign(index, [value / 0x1_0000 % 256, value / 0x100 % 256, value % 256]);
    }

    method SetInt(index: int, value: int) returns (r: Result<()>)
      modifies buffer
      ensures buffer[..] == Stored(old(buffer[..]), index, Encode(4, value))
      ensures r == if InRange(buffer[..], index, 4) then Ok(()) else Thrown(RangeException)
    {
      EncodeInt(value);
      r := Assign(index, [value / 0x100_0000 % 256, value / 0x1_0000 % 256, value / 0x100 % 256, value % 256]);
    }

    method SetLong(index: int, value: int) returns (r: Result<()>)
      modifies buffer
      ensures buffer[..] == Stored(old(buffer[..]), index, Encode(8, value))
      ensures r == if InRange(buffer[..], index, 8) then Ok(()) else Thrown(RangeException)
    {
      EncodeLong(value);
      r := Assign(index, [value / 0x100_0000_0000_0000 % 256, value / 0x1_0000_0000_0000 % 256,
                          value / 0x100_0000_0000 % 256, value / 0x1_0000_0000 % 256,
                          value / 0x100_0000 % 256, value / 0x1_0000 % 256, value / 0x100 % 256, value % 256]);
    }

    method GetByte(index: int) returns (r: Result<int>)
      ensures r == if InRange(buffer[..], index, 1) then Ok(Signed(1, Decode(buffer[index..index + 1])))
                   else Thrown(RangeException)
    {
      if index < 0 || index >= buffer.Length {
        return Thrown(RangeException);
      }
      DecodeByte(buffer[index..index + 1]);
      Pow256Values();
      r := Ok(SignedByte(buffer[index]));
    }

    method GetShort(index: int) returns (r: Result<int>)
      ensures r == if InRange(buffer[..], index, 2) then Ok(Signed(2, Decode(buffer[index..index + 2])))
                   else Thrown(RangeException)
    {
      if index < 0 || index + 1 >= buffer.Length {
        return Thrown(RangeException);
      }
      DecodeShort(buffer[index..index + 2]);
      Pow256Values();
      r := Ok(Join2(SignedByte(buffer[index]), buffer[index + 1]));
    }

    method GetUnsignedMedium(index: int) returns (r: Result<int>)
      ensures r == if InRange(buffer[..], index, 3) then Ok(Decode(buffer[index..index + 3]))
                   else Thrown(RangeException)
    {
      if index < 0 || index + 2 >= buffer.Length {
        return Thrown(RangeException);
      }
      DecodeMedium(buffer[index..index + 3]);
      r := Ok(Join3(buffer[index], buffer[index + 1], buffer[index + 2]));
    }

    /** Or-ing 0xff000000 into a medium with bit 23 set sign-extends it. */
    method GetMedium(index: int) returns (r: Result<int>)
      ensures r == if InRange(buffer[..], index, 3) then Ok(Signed(3, Decode(buffer[index..index + 3])))
                   else Thrown(RangeException)
    {
      Pow256Values();
      r := GetUnsignedMedium(index);
      if r.Ok? && r.value / 0x80_0000 % 2 != 0 {
        r := Ok(Wrap32(r.value + 0xff00_0000));
      }
    }

    method GetInt(index: int) returns (r: Result<int>)
      ensures r == if InRange(buffer[..], index, 4) then Ok(Signed(4, Decode(buffer[index..index + 4])))
                   else Thrown(RangeException)
    {
      if index < 0 || index + 3 >= buffer.Length {
        return Thrown(RangeException);
      }
      DecodeInt(buffer[index..index + 4]);
      Pow256Values();
      r := Ok(Wrap32(Join4(buffer[index], buffer[index + 1], buffer[index + 2], buffer[index + 3])));
    }

    method GetLong(index: int) returns (r: Result<int>)
      ensures r == if InRange(buffer[..], index, 8) then Ok(Signed(8, Decode(buffer[index..index + 8])))
                   else Thrown(RangeException)
    {
      if index < 0 || index + 7 >= buffer.Length {
        return Thrown(RangeException);
      }
      DecodeLong(buffer[index..index + 8]);
      Pow256Values();
      r := Ok(Wrap64(Join8(buffer[index], buffer[index + 1], buffer[index + 2], buffer[index + 3],
                           buffer[index + 4], buffer[index + 5], buffer[index + 6], buffer[index + 7])));
    }

    // -------------------------------------------------------------------------
    // Typed reads and writes at the indexes
    // -------------------------------------------------------------------------

    method ReadByte() returns (r: Result<int>)
      requires Valid()
      modifies this`readerIdx
      ensures Valid() && View() == old(View()).Skipped(if r.Ok? then 1 else 0)
      ensures r == ReadResult(1, old(Contents())) && (|old(Contents())| < 1 ==> r == Thrown(RangeException))
    {
      if readerIdx == writerIdx {
        return Thrown(RangeException);
      }
      assert Contents()[..1] == buffer[readerIdx..readerIdx + 1];
      r := GetByte(readerIdx);
      readerIdx := readerIdx + 1;
    }

    method ReadShort() returns (r: Result<int>)
      requires Valid()
      modifies this`readerIdx
      ensures Valid() && View() == old(View()).Skipped(if r.Ok? then 2 else 0)
      ensures r == ReadResult(2, old(Contents())) && (|old(Contents())| < 2 ==> r == Thrown(RangeException))
    {
      if writerIdx - readerIdx < 2 {
        return Thrown(RangeException);
      }
      assert Contents()[..2] == buffer[readerIdx..readerIdx + 2];
      r := GetShort(readerIdx);
      readerIdx := readerIdx + 2;
    }

    method ReadUnsignedMedium() returns (r: Result<int>)
      requires Valid()
      modifies this`readerIdx
      ensures Valid() && View() == old(View()).Skipped(if r.Ok? then 3 else 0)
      ensures r == if |old(Contents())| < 3 then Thrown(RangeException) else Ok(Decode(old(Contents())[..3]))
    {
      if writerIdx - readerIdx < 3 {
        return Thrown(RangeException);
      }
      assert Contents()[..3] == buffer[readerIdx..readerIdx + 3];
      r := GetUnsignedMedium(readerIdx);
      readerIdx := readerIdx + 3;
    }

    method ReadMedium() returns (r: Result<int>)
      requires Valid()
      modifies this`readerIdx
      ensures Valid() && View() == old(View()).Skipped(if r.Ok? then 3 else 0)
      ensures r == ReadResult(3, old(Contents())) && (|old(Contents())| < 3 ==> r == Thrown(RangeException))
    {
      Pow256Values();
      r := ReadUnsignedMedium();
      if r.Ok? && r.value / 0x80_0000 % 2 != 0 {
        r := Ok(Wrap32(r.value + 0xff00_0000));
      }
    }

    method ReadInt() returns (r: Result<int>)
      requires Valid()
      modifies this`readerIdx
      ensures Valid() && View() == old(View()).Skipped(if r.Ok? then 4 else 0)
      ensures r == ReadResult(4, old(Contents())) && (|old(Contents())| < 4 ==> r == Thrown(RangeException))
    {
      if writerIdx - readerIdx < 4 {
        return Thrown(RangeException);
      }
      assert Contents()[..4] == buffer[readerIdx..readerIdx + 4];
      r := GetInt(readerIdx);
      readerIdx := readerIdx + 4;
    }

    method ReadLong() returns (r: Result<int>)
      requires Valid()
      modifies this`readerIdx
      ensures Valid() && View() == old(View()).Skipped(if r.Ok? then 8 else 0)
      ensures r == ReadResult(8, old(Contents())) && (|old(Contents())| < 8 ==> r == Thrown(RangeException))
    {
      if writerIdx - readerIdx < 8 {
        return Thrown(RangeException);
      }
      assert Contents()[..8] == buffer[readerIdx..readerIdx + 8];
      r := GetLong(readerIdx);
      readerIdx := readerIdx + 8;
    }

    /**
     * On a full fixed buffer the code moves the writer index before the store throws, and leaves
     * it beyond the capacity.
     */
    method WriteByte(value: int) returns (r: Result<()>)
      requires Valid() && CanHold(1)
      modifies this, buffer
      ensures buffer == old(buffer) || fresh(buffer)
      ensures !growable || 1 <= old(buffer.Length) - old(writerIdx) ==> buffer == old(buffer)
      ensures Valid() <==> r.Ok?
      ensures r == if growable || old(writerIdx) < old(buffer.Length) then Ok(()) else Thrown(RangeException)
      ensures r.Ok? ==> View() == old(View()).Written(Encode(1, value))
      ensures !r.Ok? ==> buffer == old(buffer) && buffer[..] == old(buffer[..]) && writerIdx == old(writerIdx) + 1
                         && unchanged(this`readerIdx, this`markedReaderIndex, this`markedWriterIndex, this`copied)
    {
      if growable {
        r := EnsureWritableBytes(1);
      }
      ghost var before := buffer[..];
      writerIdx := writerIdx + 1;
      r := SetByte(writerIdx - 1, value);
      assert r.Ok? ==> buffer[..writerIdx] == before[..writerIdx - 1] + Encode(1, value);
    }

    /** `setShort(writerIdx, ...)` and the like, then moving the writer index if nothing was thrown. */
    ghost predicate Appended(before: Buf, n: nat, bytes: seq<Byte>, r: Result<()>)
      reads this, buffer
    {
      && Valid() && before.Valid()
      && r == (if growable || n <= before.capacity - |before.store| then Ok(()) else Thrown(RangeException))
      && View() == if r.Ok? then before.Written(bytes) else before
    }

    /** As much of `bytes` as there is room for was stored from the writer index on. */
    ghost predicate CutOff(before: seq<Byte>, bytes: seq<Byte>)
      reads this, buffer
    {
      buffer[..] == Stored(before, writerIdx, bytes)
    }

    method WriteShort(value: int) returns (r: Result<()>)
      requires Valid() && CanHold(2)
      modifies this, buffer
      ensures buffer == old(buffer) || fresh(buffer)
      ensures !growable || 2 <= old(buffer.Length) - old(writerIdx) ==> buffer == old(buffer)
      ensures Appended(old(View()), 2, Encode(2, value), r)
      ensures !r.Ok? ==> buffer == old(buffer) && CutOff(old(buffer[..]), Encode(2, value))
    {
      if growable {
        r := EnsureWritableBytes(2);
      }
      ghost var before := buffer[..];
      r := SetShort(writerIdx, value);
      assert buffer[..writerIdx] == before[..writerIdx];
      if r.Ok? {
        writerIdx := writerIdx + 2;
        assert buffer[..writerIdx] == before[..writerIdx - 2] + Encode(2, value);
      }
    }

    method WriteMedium(value: int) returns (r: Result<()>)
      requires Valid() && CanHold(3)
      modifies this, buffer
      ensures buffer == old(buffer) || fresh(buffer)
      ensures !growable || 3 <= old(buffer.Length) - old(writerIdx) ==> buffer == old(buffer)
      ensures Appended(old(View()), 3, Encode(3, value), r)
      ensures !r.Ok? ==> buffer == old(buffer) && CutOff(old(buffer[..]), Encode(3, value))
    {
      if growable {
        r := EnsureWritableBytes(3);
      }
      ghost var before := buffer[..];
      r := SetMedium(writerIdx, value);
      assert buffer[..writerIdx] == before[..writerIdx];
      if r.Ok? {
        writerIdx := writerIdx + 3;
        assert buffer[..writerIdx] == before[..writerIdx - 3] + Encode(3, value);
      }
    }

    method WriteInt(value: int) returns (r: Result<()>)
      requires Valid() && CanHold(4)
      modifies this, buffer
      ensures buffer == old(buffer) || fresh(buffer)
      ensures !growable || 4 <= old(buffer.Length) - old(writerIdx) ==> buffer == old(buffer)
      ensures Appended(old(View()), 4, Encode(4, value), r)
      ensures !r.Ok? ==> buffer == old(buffer) && CutOff(old(buffer[..]), Encode(4, value))
    {
      if growable {
        r := EnsureWritableBytes(4);
      }
      ghost var before := buffer[..];
      r := SetInt(writerIdx, value);
      assert buffer[..writerIdx] == before[..writerIdx];
      if r.Ok? {
        writerIdx := writerIdx + 4;
        assert buffer[..writerIdx] == before[..writerIdx - 4] + Encode(4, value);
      }
    }

    method WriteLong(value: int) returns (r: Result<()>)
      requires Valid() && CanHold(8)
      modifies this, buffer
      ensures buffer == old(buffer) || fresh(buffer)
      ensures !growable || 8 <= old(buffer.Length) - old(writerIdx) ==> buffer == old(buffer)
      ensures Appended(old(View()), 8, Encode(8, value), r)
      ensures !r.Ok? ==> buffer == old(buffer) && CutOff(old(buffer[..]), Encode(8, value))
    {
      if growable {
        r := EnsureWritableBytes(8);
      }
      ghost var before := buffer[..];
      r := SetLong(writerIdx, value);
      assert buffer[..writerIdx] == before[..writerIdx];
      if r.Ok? {
        writerIdx := writerIdx + 8;
        assert buffer[..writerIdx] == before[..writerIdx - 8] + Encode(8, value);
      }
    }

    // -------------------------------------------------------------------------
    // Bulk reads and writes
    // -------------------------------------------------------------------------

    /** Reads into a caller's array, which may be the buffer's own; nothing moves when it throws. */
    method ReadBytes(dst: array<Byte>, dstIndex: int, length: int) returns (r: Result<()>)
      requires Valid()
      modifies this`readerIdx, dst
      ensures r.Ok? <==> length == 0 || (0 < length <= |old(Contents())| && 0 <= dstIndex <= dst.Length - length)
      ensures !r.Ok? ==> r == Thrown(RangeException) && dst[..] == old(dst[..])
      ensures r.Ok? && length != 0 ==> dst[..] == Spliced(old(dst[..]), dstIndex, old(Contents())[..length])
      ensures length == 0 ==> dst[..] == old(dst[..])
      ensures Valid() && readerIdx == old(readerIdx) + if r.Ok? then length else 0
      ensures dst != buffer ==> View() == old(View()).Skipped(if r.Ok? then length else 0)
    {
      if length == 0 {
        return Ok(());
      }
      if writerIdx - readerIdx < length {
        return Thrown(RangeException);
      }
      assert length > 0 ==> Contents()[..length] == buffer[readerIdx..readerIdx + length];
      r := ByteArray.Copy(dst, dstIndex, buffer, readerIdx, length);
      if r.Ok? {
        readerIdx := readerIdx + length;
      }
    }

    /** Reads into a new fixed buffer; reading the last byte clears the indexes. */
    method ReadBuffer(length: int) returns (r: Result<ChannelBuffer>)
      requires Valid()
      modifies this`readerIdx, this`writerIdx
      ensures length < 0 ==> r == Thrown(InvalidArgumentException)
      ensures length > |old(Contents())| ==> r == Thrown(RangeException)
      ensures r.Ok? <==> 0 <= length <= |old(Contents())|
      ensures r.Ok? ==> fresh(r.value) && fresh(r.value.buffer) && r.value.Valid() && !r.value.growable
                        && r.value.Contents() == old(Contents())[..length] && r.value.buffer.Length == length
      ensures Valid() && View() == if r.Ok? then old(View()).TakenAway(length) else old(View())
      ensures 0 < length == |old(Contents())| ==> readerIdx == writerIdx == 0
      ensures 0 <= length < |old(Contents())| ==> readerIdx == old(readerIdx) + length && writerIdx == old(writerIdx)
    {
      if length == 0 {
        var empty := new ChannelBuffer(false, 0);
        return Ok(empty);
      }
      if writerIdx - readerIdx < length {
        return Thrown(RangeException);
      }
      if length < 0 {
        return Thrown(InvalidArgumentException);
      }
      var buf := new ChannelBuffer(false, length);
      ghost var taken := Contents()[..length];
      assert taken == buffer[readerIdx..readerIdx + length];
      var copied := buf.WriteBytes(buffer, readerIdx, length);
      assert buf.Contents() == taken by {
        assert [] + taken == taken;
      }
      readerIdx := readerIdx + length;
      if readerIdx == writerIdx {
        readerIdx, writerIdx := 0, 0;
      }
      r := Ok(buf);
    }

    /**
     * Writes from a caller's array, growing first on a dynamic buffer. Growing deletes the
     * buffer's own array, which is a source only when there is room.
     */
    method WriteBytes(src: array<Byte>, srcIndex: int, length: int) returns (r: Result<()>)
      requires Valid() && CanHold(length)
      requires src == buffer && growable ==> length <= buffer.Length - writerIdx
      modifies this, buffer
      ensures buffer == old(buffer) || fresh(buffer)
      ensures r.Ok? <==> 0 <= length && 0 <= srcIndex <= src.Length - length
                         && (growable || length <= old(buffer.Length) - old(writerIdx))
      ensures !r.Ok? ==> r == Thrown(RangeException)
      ensures Valid() && View() == if r.Ok? then old(View()).Written(old(src[srcIndex..srcIndex + length]))
                                   else if growable then old(View()).Ensured(length) else old(View())
    {
      if growable {
        r := EnsureWritableBytes(length);
      }
      ghost var before, source := buffer[..], src[..];
      r := ByteArray.Copy(buffer, writerIdx, src, srcIndex, length);
      assert buffer[..writerIdx] == before[..writerIdx];
      if r.Ok? {
        writerIdx := writerIdx + length;
        assert source[srcIndex..srcIndex + length] == old(src[srcIndex..srcIndex + length]);
        assert buffer[..writerIdx] == before[..writerIdx - length] + source[srcIndex..srcIndex + length];
      }
    }

    // -------------------------------------------------------------------------
    // Zero fill in strides of 8, 4 and 1 bytes
    // -------------------------------------------------------------------------

    /** `done` zero bytes were stored from `index` on. */
    ghost predicate ZeroedUpTo(before: seq<Byte>, index: int, done: nat)
      reads this, buffer
    {
      (done == 0 || InRange(before, index, done)) && buffer[..] == Stored(before, index, Zeros(done))
    }

    /** Equals storing `length` zero bytes one by one. */
    method SetZero(index: int, length: int) returns (r: Result<()>)
      modifies buffer
      ensures length < 0 ==> r == Thrown(InvalidArgumentException) && buffer[..] == old(buffer[..])
      ensures length >= 0 ==> buffer[..] == Stored(old(buffer[..]), index, Zeros(length))
      ensures length >= 0 ==>
                r == if length == 0 || InRange(buffer[..], index, length) then Ok(()) else Thrown(RangeException)
    {
      if length == 0 {
        return Ok(());
      }
      if length < 0 {
        return Thrown(InvalidArgumentException);
      }
      ghost var before := buffer[..];
      var nLong := length / 8;
      var nBytes := length % 8;
      ghost var done: nat := 0;
      for i := nLong downto 0
        invariant done == 8 * (nLong - i) && ZeroedUpTo(before, index, done)
      {
        r := ZeroLong(before, index, done, index + 8 * (nLong - i - 1), length);
        if r.Thrown? {
          return;
        }
        done := done + 8;
      }
      var at := index + 8 * nLong;
      if nBytes == 4 {
        r := ZeroInt(before, index, done, at, length);
      } else if nBytes < 4 {
        r := ZeroTail(before, index, done, at, nBytes, length);
      } else {
        r := ZeroInt(before, index, done, at, length);
        if r.Thrown? {
          return;
        }
        r := ZeroTail(before, index, done + 4, at + 4, nBytes - 4, length);
      }
    }

    /** Storing stopped at the end of the array: the same bytes as for the whole fill. */
    ghost predicate ZeroedOut(before: seq<Byte>, index: int, length: nat)
      reads this, buffer
    {
      !InRange(before, index, length) && buffer[..] == Stored(before, index, Zeros(length))
    }

    method ZeroLong(ghost before: seq<Byte>, ghost index: int, ghost done: nat, at: int, ghost length: nat)
      returns (r: Result<()>)
      requires ZeroedUpTo(before, index, done) && at == index + done && done + 8 <= length
      modifies buffer
      ensures if r == Ok(()) then ZeroedUpTo(before, index, done + 8)
              else r == Thrown(RangeException) && ZeroedOut(before, index, length)
    {
      ZeroStride(before, index, done, 8, length);
      EncodeZero(8);
      r := SetLong(at, 0);
    }

    method ZeroInt(ghost before: seq<Byte>, ghost index: int, ghost done: nat, at: int, ghost length: nat)
      returns (r: Result<()>)
      requires ZeroedUpTo(before, index, done) && at == index + done && done + 4 <= length
      modifies buffer
      ensures if r == Ok(()) then ZeroedUpTo(before, index, done + 4)
              else r == Thrown(RangeException) && ZeroedOut(before, index, length)
    {
      ZeroStride(before, index, done, 4, length);
      EncodeZero(4);
      r := SetInt(at, 0);
    }

    method ZeroByte(ghost before: seq<Byte>, ghost index: int, ghost done: nat, at: int, ghost length: nat)
      returns (r: Result<()>)
      requires ZeroedUpTo(before, index, done) && at == index + done && done + 1 <= length
      modifies buffer
      ensures if r == Ok(()) then ZeroedUpTo(before, index, done + 1)
              else r == Thrown(RangeException) && ZeroedOut(before, index, length)
    {
      ZeroStride(before, index, done, 1, length);
      EncodeZero(1);
      r := SetByte(at, 0);
    }

    /** The single bytes at the end. */
    method ZeroTail(ghost before: seq<Byte>, ghost index: int, ghost done: nat, at: int, n: nat, ghost length: nat)
      returns (r: Result<()>)
      requires ZeroedUpTo(before, index, done) && at == index + done && done + n == length
      modifies buffer
      ensures if r == Ok(()) then ZeroedUpTo(before, index, length)
              else r == Thrown(RangeException) && ZeroedOut(before, index, length)
    {
      ghost var stored := done;
      for i := 0 to n
        invariant stored == done + i && ZeroedUpTo(before, index, stored)
      {
        r := ZeroByte(before, index, stored, at + i, length);
        if r.Thrown? {
          return;
        }
        stored := stored + 1;
      }
      r := Ok(());
    }

    /**
     * Appends `length` zero bytes. A dynamic buffer grows once, before the first stride; a fixed
     * buffer without the room throws in the middle.
     */
    method WriteZero(length: int) returns (r: Result<()>)
      requires Valid() && CanHold(length)
      modifies this, buffer
      ensures buffer == old(buffer) || fresh(buffer)
      ensures length < 0 ==> r == Thrown(InvalidArgumentException) && Valid() && View() == old(View())
      ensures length >= 0 ==> r == if growable || length <= old(buffer.Length) - old(writerIdx) then Ok(())
                                   else Thrown(RangeException)
      ensures r.Ok? ==> Valid() && View() == old(View()).Written(Zeros(length))
      ensures r == Thrown(RangeException) ==> buffer == old(buffer) && FellShort(old(View()), length)
    {
      if growable {
        r := EnsureWritableBytes(length);
      }
      r := WriteZeroInPlace(length);
    }

    /** The strides; on a dynamic buffer there is room for all of them. */
    method WriteZeroInPlace(length: int) returns (r: Result<()>)
      requires Valid() && (growable ==> length <= buffer.Length - writerIdx)
      modifies this, buffer
      ensures buffer == old(buffer)
      ensures length < 0 ==> r == Thrown(InvalidArgumentException) && Valid() && View() == old(View())
      ensures length >= 0 ==> r == if length <= old(buffer.Length) - old(writerIdx) then Ok(())
                                   else Thrown(RangeException)
      ensures r.Ok? ==> Valid() && View() == old(View()).(store := old(View()).store + Zeros(length))
      ensures r == Thrown(RangeException) ==> FellShort(old(View()), length)
    {
      if length == 0 {
        return Ok(());
      }
      if length < 0 {
        return Thrown(InvalidArgumentException);
      }
      ghost var start := View();
      var nLong := length / 8;
      var nBytes := length % 8;
      assert start.store + Zeros(0) == start.store;
      r := WriteZeroLongs(start, nLong, length);
      if r.Thrown? {
        return;
      }
      if nBytes == 4 {
        r := WriteZeroInt(start, 8 * nLong, length);
      } else if nBytes < 4 {
        r := WriteZeroTail(start, 8 * nLong, nBytes, length);
      } else {
        r := WriteZeroInt(start, 8 * nLong, length);
        if r.Thrown? {
          return;
        }
        r := WriteZeroTail(start, 8 * nLong + 4, nBytes - 4, length);
      }
    }

    /**
     * All room after `start` was filled with zero bytes, and the writer index stands before the
     * stride that did not fit, or beyond the capacity if that was a single byte.
     */
    ghost predicate FellShort(start: Buf, length: nat)
      reads this, buffer
    {
      && |start.store| <= start.capacity == buffer.Length
      && buffer[..] == start.store + Zeros(start.capacity - |start.store|)
      && writerIdx == |start.store| + ZerosCounted(start.capacity - |start.store|, length)
      && readerIdx == start.r && copied == start.copied
      && markedReaderIndex == start.markedR && markedWriterIndex == start.markedW
    }

    method WriteZeroLongs(ghost start: Buf, n: nat, ghost length: nat) returns (r: Result<()>)
      requires n == length / 8 && AppendedZeros(start, 0, length)
      modifies this, buffer
      ensures buffer == old(buffer)
      ensures if r == Ok(()) then AppendedZeros(start, 8 * n, length)
              else r == Thrown(RangeException) && ZerosDoNotFit(start, length) && FellShort(start, length)
    {
      ghost var done: nat := 0;
      for i := n downto 0
        invariant buffer == old(buffer)
        invariant done == 8 * (n - i) && AppendedZeros(start, done, length)
      {
        r := WriteZeroLong(start, done, length);
        if r.Thrown? {
          return;
        }
        done := done + 8;
      }
      r := Ok(());
    }

    method WriteZeroLong(ghost start: Buf, ghost done: nat, ghost length: nat) returns (r: Result<()>)
      requires done % 8 == 0 && done + 8 <= 8 * (length / 8) && AppendedZeros(start, done, length)
      modifies this, buffer
      ensures buffer == old(buffer)
      ensures if r == Ok(()) then AppendedZeros(start, done + 8, length)
              else r == Thrown(RangeException) && ZerosDoNotFit(start, length) && FellShort(start, length)
    {
      EncodeZero(8);
      StoredToTheEnd(start, done, length, 8);
      StepZeros(start, done, 8);
      r := WriteLong(0);
      assert r.Thrown? ==> View() == start.(store := start.store + Zeros(done))
                           && start.capacity < |start.store| + done + 8;
    }

    method WriteZeroInt(ghost start: Buf, ghost done: nat, ghost length: nat) returns (r: Result<()>)
      requires done == 8 * (length / 8) && done + 4 <= length && AppendedZeros(start, done, length)
      modifies this, buffer
      ensures buffer == old(buffer)
      ensures if r == Ok(()) then AppendedZeros(start, done + 4, length)
              else r == Thrown(RangeException) && ZerosDoNotFit(start, length) && FellShort(start, length)
    {
      EncodeZero(4);
      StoredToTheEnd(start, done, length, 4);
      StepZeros(start, done, 4);
      r := WriteInt(0);
      assert r.Thrown? ==> View() == start.(store := start.store + Zeros(done))
                           && start.capacity < |start.store| + done + 4;
    }

    ghost predicate ZerosDoNotFit(start: Buf, length: nat) {
      !growable && length > start.capacity - |start.store|
    }

    /** `done` zero bytes were appended to `start`, without growing. */
    ghost predicate AppendedZeros(start: Buf, done: nat, length: nat)
      reads this, buffer
    {
      && start.Valid() && done <= length
      && (growable ==> length <= start.capacity - |start.store|)
      && done <= start.capacity - |start.store|
      && Valid() && View() == start.(store := start.store + Zeros(done))
    }

    /** What a throwing store of more zero bytes leaves in the array. */
    lemma StoredToTheEnd(start: Buf, done: nat, length: nat, n: nat)
      requires AppendedZeros(start, done, length)
      ensures writerIdx == |start.store| + done
      ensures var room := start.capacity - |start.store|;
              done + n > room ==> Stored(buffer[..], writerIdx, Zeros(n)) == start.store + Zeros(room)
    {
      var room := start.capacity - |start.store|;
      var after := Stored(buffer[..], writerIdx, Zeros(n));
      assert buffer[..writerIdx] == start.store + Zeros(done);
      assert |buffer[..writerIdx]| == |start.store + Zeros(done)|;
      if done + n > room {
        forall k | 0 <= k < |after| ensures after[k] == (start.store + Zeros(room))[k] {
          StoredAt(buffer[..], writerIdx, Zeros(n), k);
          assert k < writerIdx ==> buffer[k] == (start.store + Zeros(done))[k];
        }
        assert after == start.store + Zeros(room);
      }
    }

    /** The single bytes at the end. */
    method WriteZeroTail(ghost start: Buf, ghost done: nat, n: nat, ghost length: nat) returns (r: Result<()>)
      requires done + n == length && AppendedZeros(start, done, length)
      requires done == 8 * (length / 8) + if length % 8 >= 4 then 4 else 0
      modifies this, buffer
      ensures buffer == old(buffer)
      ensures if r == Ok(()) then AppendedZeros(start, length, length)
              else r == Thrown(RangeException) && ZerosDoNotFit(start, length) && FellShort(start, length)
    {
      EncodeZero(1);
      for i := n downto 0
        invariant buffer == old(buffer)
        invariant AppendedZeros(start, done + n - i, length)
      {
        StoredToTheEnd(start, done + n - i - 1, length, 1);
        StepZeros(start, done + n - i - 1, 1);
        r := WriteByte(0);
        if r.Thrown? {
          return;
        }
      }
      r := Ok(());
    }
  }

  /** The constructors of both buffers refuse a negative capacity. */
  method NewBuffer(growable: bool, capacity: int) returns (r: Result<ChannelBuffer>)
    ensures capacity < 0 ==> r == Thrown(InvalidArgumentException)
    ensures capacity >= 0 ==> r.Ok? && fresh(r.value) && fresh(r.value.buffer) && r.value.growable == growable
                              && r.value.Valid() && r.value.View() == Buf(capacity, [], 0, 0, 0, 0)
  {
    if capacity < 0 {
      return Thrown(InvalidArgumentException);
    }
    var b := new ChannelBuffer(growable, capacity);
    r := Ok(b);
  }

  /** Doubles the capacity, or 1, until it is at least `demand`: the least doubling that suffices. */
  method GrowCapacity(capacity: nat, demand: int) returns (newCapacity: int)
    requires Grown(capacity, demand) < TWO_31
    ensures newCapacity == Grown(capacity, demand) >= demand
    ensures var c: nat := if capacity == 0 then 1 else capacity;
            && (exists k: nat :: newCapacity == c * Pow2(k))
            && (forall j: nat :: c * Pow2(j) >= demand ==> newCapacity <= c * Pow2(j))
  {
    newCapacity := if capacity == 0 then 1 else capacity;
    while newCapacity < demand
      invariant newCapacity > 0
      invariant Doubled(newCapacity, demand) == Grown(capacity, demand)
    {
      newCapacity := Wrap32(2 * newCapacity);
    }
    GrownIsLeast(capacity, demand);
  }

  /** A byte as `boost::int8_t`. */
  function SignedByte(b: Byte): int {
    if b >= 128 then b - 256 else b
  }

  /** What a signed typed read of `w` bytes returns. */
  function ReadResult(w: nat, contents: seq<Byte>): Result<int> {
    if |contents| < w then Thrown(RangeException) else Ok(Signed(w, Decode(contents[..w])))
  }

  /** How far `writeZero(length)` moves the writer index before it throws for want of room. */
  function ZerosCounted(room: nat, length: nat): nat {
    if room < 8 * (length / 8) then 8 * (room / 8)
    else if length % 8 >= 4 && room < 8 * (length / 8) + 4 then 8 * (length / 8)
    else room + 1
  }

  /** The stores of `writeZero(length)`: as many of 8 bytes as fit into it, then one of 4, then single bytes. */
  function Strides(length: nat): seq<nat> {
    if length >= 8 then [8] + Strides(length - 8)
    else if length >= 4 then [4] + Strides(length - 4)
    else if length >= 1 then [1] + Strides(length - 1)
    else []
  }

  /** How far stores in a row get: a single byte moves the writer index even when it does not fit. */
  function Progress(room: nat, strides: seq<nat>): nat {
    if strides == [] then 0
    else if strides[0] <= room then strides[0] + Progress(room - strides[0], strides[1..])
    else if strides[0] == 1 then 1
    else 0
  }

  function FirstStride(length: nat): nat {
    if length >= 8 then 8 else if length >= 4 then 4 else 1
  }

  lemma ZerosCountedNext(room: nat, length: nat)
    requires room < length
    ensures var n := FirstStride(length);
            ZerosCounted(room, length)
            == if n <= room then n + ZerosCounted(room - n, length - n) else if n == 1 then 1 else 0
  {
    if length >= 8 {
      assert (length - 8) / 8 == length / 8 - 1 && (length - 8) % 8 == length % 8;
    }
  }

  /** The stores get as far as `ZerosCounted` says. */
  lemma {:induction false} ZerosCountedByStrides(room: nat, length: nat)
    requires room < length
    ensures ZerosCounted(room, length) == Progress(room, Strides(length))
  {
    var n := FirstStride(length);
    ZerosCountedNext(room, length);
    assert Strides(length) == [n] + Strides(length - n) && Strides(length)[1..] == Strides(length - n);
    if n <= room {
      ZerosCountedByStrides(room - n, length - n);
    }
  }

  lemma StepZeros(start: Buf, done: nat, n: nat)
    requires start.Valid() && done <= start.capacity - |start.store|
    ensures var b := start.(store := start.store + Zeros(done));
            b.Valid() && (done + n <= start.capacity - |start.store|
                          ==> b.Written(Zeros(n)) == start.(store := start.store + Zeros(done + n)))
  {
    assert Zeros(done) + Zeros(n) == Zeros(done + n);
    assert start.store + Zeros(done) + Zeros(n) == start.store + (Zeros(done) + Zeros(n));
  }
}
