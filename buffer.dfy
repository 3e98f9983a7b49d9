/** `ByteBuffer`, the growable byte stream the writer builds its header, node
    stream and data stream in. Its source is not part of this model; the
    semantics below are the ones the writer relies on: a byte sequence whose
    length is the committed `Length`, and a movable write cursor `Offset`. */
module Buffer {
  import opened Bytes

  class ByteBuffer {
    var Data: seq<byte>
    var Offset: nat

    ghost predicate Valid()
      reads this
    {
      Offset <= |Data|
    }

    /** The committed length: it only grows. */
    function Length(): nat
      reads this
    {
      |Data|
    }

    constructor ()
      ensures Valid() && Data == [] && Offset == 0
    {
      Data, Offset := [], 0;
    }

    /** Writes `b` at `Offset`, growing `Length` only where the write passes it. */
    method AppendBytes(b: seq<byte>)
      requires Valid()
      modifies this
      ensures Valid()
      ensures Data == Overwrite(old(Data), old(Offset), b)
      ensures Offset == old(Offset) + |b|
      ensures old(Offset) == old(Length()) ==> Data == old(Data) + b
    {
      OverwriteAtEnd(Data, b);
      Data := Overwrite(Data, Offset, b);
      Offset := Offset + |b|;
    }

    /** Writes the low eight bits of `v`. */
    method AppendU8(v: int)
      requires Valid()
      modifies this
      ensures Valid()
      ensures Data == Overwrite(old(Data), old(Offset), [ToByte(v)])
      ensures Offset == old(Offset) + 1
      ensures old(Offset) == old(Length()) ==> Data == old(Data) + [ToByte(v)]
    {
      AppendBytes([ToByte(v)]);
    }

    /** Writes `v` as an unsigned 32-bit field. */
    method AppendU32(v: int)
      requires Valid()
      modifies this
      ensures Valid()
      ensures Data == Overwrite(old(Data), old(Offset), U32Bytes(v))
      ensures Offset == old(Offset) + 4
      ensures old(Offset) == old(Length()) ==> Data == old(Data) + U32Bytes(v)
    {
      AppendBytes(U32Bytes(v));
    }

    /** Writes `v` as a signed 32-bit field: the same 32 bits as `AppendU32`. */
    method AppendS32(v: int)
      requires Valid()
      modifies this
      ensures Valid()
      ensures Data == Overwrite(old(Data), old(Offset), U32Bytes(v))
      ensures Offset == old(Offset) + 4
      ensures old(Offset) == old(Length()) ==> Data == old(Data) + U32Bytes(v)
    {
      AppendBytes(U32Bytes(v));
    }

    /** Appends zero bytes until `Length` is a multiple of 4 and leaves the
        cursor at the end. */
    method RealignWrite()
      requires Valid()
      modifies this
      ensures Valid()
      ensures Data == Padded(old(Data)) && Offset == |Data|
    {
      ghost var start := Data;
      while |Data| % 4 != 0
        invariant |start| <= |Data| <= |start| + PadCount(|start|)
        invariant Data == start + Zeros(|Data| - |start|)
        decreases |start| + PadCount(|start|) - |Data|
      {
        Data := Data + [0];
      }
      Offset := |Data|;
    }
  }
}
