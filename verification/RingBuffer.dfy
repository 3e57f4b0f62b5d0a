/** The ring buffer: a bounded first-in first-out byte queue in a fixed array. */
module RingBuffer {

  type Byte = bv8

  function Least(a: int, b: int): int { if a < b then a else b }

  /** The bytes from `read` on, wrapping around the end of the array. */
  ghost function Wrapped(bytes: seq<Byte>, read: int, count: int): seq<Byte>
    requires 0 <= read < |bytes| && 0 <= count <= |bytes|
  {
    if read + count <= |bytes| then bytes[read..read + count] else bytes[read..] + bytes[..read + count - |bytes|]
  }

  class Ring {
    const buffer: array<Byte>
    var writeOffset: int
    var readOffset: int
    var readAvailable: int

    ghost predicate Valid()
      reads this
    {
      && 0 <= readOffset < buffer.Length && 0 <= readAvailable <= buffer.Length
      && writeOffset == if readOffset + readAvailable < buffer.Length then readOffset + readAvailable
                        else readOffset + readAvailable - buffer.Length
    }

    /** What has been written and not yet read. */
    ghost function Contents(): seq<Byte>
      requires Valid()
      reads this, buffer
    {
      Wrapped(buffer[..], readOffset, readAvailable)
    }

    constructor (size: nat)
      requires size > 0
      ensures Valid() && Contents() == [] && buffer.Length == size && fresh(buffer)
    {
      buffer := new Byte[size];
      writeOffset, readOffset, readAvailable := 0, 0, 0;
    }

    /** The copy into the array at an offset. */
    method CopyIn(offset: int, src: seq<Byte>)
      requires 0 <= offset && offset + |src| <= buffer.Length
      modifies buffer
      ensures buffer[..] == old(buffer[..offset]) + src + old(buffer[offset + |src|..])
    {
      forall i | 0 <= i < |src| { buffer[offset + i] := src[i]; }
    }

    /** ringbuffer_read: the oldest bytes, as many as asked for and there are. */
    method Read(wanted: nat) returns (out: seq<Byte>)
      requires Valid()
      modifies this
      ensures Valid()
      ensures var n := Least(wanted, |old(Contents())|);
        out == old(Contents())[..n] && Contents() == old(Contents())[n..]
    {
      hide Wrapped;
      var count := if wanted > readAvailable then readAvailable else wanted;
      ghost var bytes := buffer[..];
      WrappedLength(bytes, readOffset, readAvailable);
      WrappedDrop(bytes, readOffset, readAvailable, count);
      out := [];
      var rest := count;
      if count + readOffset >= buffer.Length {
        var first := buffer.Length - readOffset;
        out := buffer[readOffset..];
        rest := rest - first;
        readAvailable := readAvailable - first;
        readOffset := 0;
      }
      out := out + buffer[readOffset..readOffset + rest];
      readOffset := readOffset + rest;
      readAvailable := readAvailable - rest;
    }

    /** One copy of ringbuffer_write, up to the end of the array at most. */
    method Append(data: seq<Byte>)
      requires Valid() && readAvailable + |data| <= buffer.Length && writeOffset + |data| <= buffer.Length
      modifies this, buffer
      ensures Valid() && Contents() == old(Contents()) + data && readOffset == old(readOffset)
      ensures writeOffset == if old(writeOffset) + |data| == buffer.Length then 0 else old(writeOffset) + |data|
      ensures readAvailable == old(readAvailable) + |data|
    {
      hide Wrapped;
      ghost var bytes := buffer[..];
      CopyIn(writeOffset, data);
      WrappedAppend(bytes, buffer[..], readOffset, readAvailable, writeOffset, data);
      readAvailable := readAvailable + |data|;
      writeOffset := writeOffset + |data|;
      if writeOffset == buffer.Length { writeOffset := 0; }
    }

    /** ringbuffer_write: the bytes go after what is there, as many as there is room for. */
    method Write(src: seq<Byte>) returns (count: nat)
      requires Valid()
      modifies this, buffer
      ensures Valid() && count == Least(|src|, buffer.Length - |old(Contents())|)
      ensures Contents() == old(Contents()) + src[..count]
    {
      hide Wrapped;
      WrappedLength(buffer[..], readOffset, readAvailable);
      count := if |src| > buffer.Length - readAvailable then buffer.Length - readAvailable else |src|;
      var first := 0;
      if count + writeOffset >= buffer.Length {
        first := buffer.Length - writeOffset;
        Append(src[..first]);
      }
      Append(src[first..count]);
      assert src[..first] + src[first..count] == src[..count];
    }
  }

  lemma WrappedLength(bytes: seq<Byte>, read: int, count: int)
    requires 0 <= read < |bytes| && 0 <= count <= |bytes|
    ensures |Wrapped(bytes, read, count)| == count
  {
  }

  /** Reading from the front moves the start. */
  lemma WrappedDrop(bytes: seq<Byte>, read: int, count: int, n: int)
    requires 0 <= read < |bytes| && 0 <= n <= count <= |bytes|
    ensures var w := Wrapped(bytes, read, count);
      if read + n >= |bytes|
      then w[..n] == bytes[read..] + bytes[..read + n - |bytes|] && w[n..] == Wrapped(bytes, read + n - |bytes|, count - n)
      else w[..n] == bytes[read..read + n] && w[n..] == Wrapped(bytes, read + n, count - n)
  {
  }

  /** Bytes stored right after the end, in one piece, are appended. */
  lemma WrappedAppend(bytes: seq<Byte>, bytes': seq<Byte>, read: int, count: int, at: int, data: seq<Byte>)
    requires 0 <= read < |bytes| && 0 <= count && count + |data| <= |bytes|
    requires at == (if read + count < |bytes| then read + count else read + count - |bytes|) && at + |data| <= |bytes|
    requires bytes' == bytes[..at] + data + bytes[at + |data|..]
    ensures Wrapped(bytes', read, count + |data|) == Wrapped(bytes, read, count) + data
  {
  }
}
