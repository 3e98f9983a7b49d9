/** `KBinWriter`: the object that walks a tree once, at construction, filling
    a node stream and a data stream, and assembles them behind the header
    into `Document`. Every method is proved to do to its buffers exactly what
    the functions of module `Encoder` describe. */
module Writer {
  import opened Bytes
  import opened Text
  import opened Tree
  import opened Buffer
  import opened Encoder

  /** The `encoding` argument of the constructor: omitted (null), an entry of
      the encoding table, or an encoding the table does not hold. */
  datatype EncodingArg =
    | DefaultEncoding
    | TableEncoding(index: nat)
    | OtherEncoding(codec: string -> seq<byte>)

  /** `encoding ?? Encodings[0]`: the `GetBytes` the writer uses. Unless the
      argument lies outside the table, it is the table entry `EncodingIndex`
      names. */
  function ResolvedCodec(encodings: seq<string -> seq<byte>>, e: EncodingArg): (r: string -> seq<byte>)
    requires |encodings| > 0 && (e.TableEncoding? ==> e.index < |encodings|)
    ensures !e.OtherEncoding? ==> 0 <= EncodingIndex(e) < |encodings| && r == encodings[EncodingIndex(e)]
  {
    match e
    case DefaultEncoding => encodings[0]
    case TableEncoding(i) => encodings[i]
    case OtherEncoding(c) => c
  }

  /** The table position of the encoding in use (-1 when it is not in the
      table), the default being the first entry. Table entries are taken to
      be distinct. */
  function EncodingIndex(e: EncodingArg): (r: int)
    ensures r >= -1 && (r == -1 <==> e.OtherEncoding?)
  {
    match e
    case DefaultEncoding => 0
    case TableEncoding(i) => i
    case OtherEncoding(_) => -1
  }

  /** The header names the encoding in use: for the default and for a table
      entry, byte 2 holds a table index (shifted left by 5) whose entry is
      the codec the writer encodes with. */
  lemma HeaderNamesEncoding(encodings: seq<string -> seq<byte>>, e: EncodingArg, compressed: bool)
    requires 0 < |encodings| <= 8 && (e.TableEncoding? ==> e.index < |encodings|)
    requires !e.OtherEncoding?
    ensures var i := EncodingIndex(e);
            && 0 <= i < |encodings| && encodings[i] == ResolvedCodec(encodings, e)
            && Header(compressed, i)[2] as int / 32 == i
  {
    HeaderFields(compressed, EncodingIndex(e));
  }

  /** The "bin" payload parse: one byte per pair of hex digits, `value[2i..2i+2]`
      for byte i, an odd last digit ignored. */
  method HexPayload(value: string) returns (data: seq<byte>)
    requires HexDigits(value)
    ensures data == HexBytes(value)
  {
    var bytes := new byte[|value| / 2];
    for i := 0 to bytes.Length
      invariant forall j :: 0 <= j < i ==> bytes[j] == HexPair(value[2 * j], value[2 * j + 1])
    {
      bytes[i] := HexPair(value[2 * i], value[2 * i + 1]);
    }
    data := bytes[..];
  }

  class KBinWriter {
    const compressed: bool
    const encode: string -> seq<byte>
    const formats: seq<Format>
    const nodeBuffer: ByteBuffer
    const dataBuffer: ByteBuffer
    /** Where the next 1-byte and the next 2-byte scalar go in `dataBuffer`
        (the `Offset`s of the byte and word views of the data stream). */
    var byteSlot: nat
    var wordSlot: nat
    var Document: seq<byte>

    function Config(): Settings
    {
      Settings(compressed, encode, formats)
    }

    /** The data stream and both slot cursors. */
    function DataNow(): DataState
      reads this, dataBuffer
    {
      DataState(dataBuffer.Data, byteSlot, wordSlot)
    }

    /** Two distinct buffers, each with its cursor at its end, and slot cursors
        inside the 4-aligned data stream. */
    ghost predicate Valid()
      reads this, nodeBuffer, dataBuffer
    {
      && nodeBuffer != dataBuffer
      && nodeBuffer.Offset == |nodeBuffer.Data|
      && dataBuffer.Offset == |dataBuffer.Data|
      && SlotInv(DataNow())
    }

    /** Writes the document for `root`: the header, the node-stream length,
        the node stream closed by SectionEnd, realigned and followed by the
        data-stream length, then the data stream. */
    constructor (root: Node, encoding: EncodingArg, compressed: bool,
                 encodings: seq<string -> seq<byte>>, formats: seq<Format>)
      requires |encodings| > 0 && (encoding.TableEncoding? ==> encoding.index < |encodings|)
      requires Encodable(Settings(compressed, ResolvedCodec(encodings, encoding), formats), root)
      ensures Document == Encoder.Document(
                Settings(compressed, ResolvedCodec(encodings, encoding), formats),
                EncodingIndex(encoding), root)
    {
      this.compressed := compressed;
      this.encode := ResolvedCodec(encodings, encoding);
      this.formats := formats;

      var header := WriteHeader(compressed, EncodingIndex(encoding));

      nodeBuffer := new ByteBuffer();
      dataBuffer := new ByteBuffer();
      byteSlot, wordSlot := 0, 0;
      Document := [];
      new;

      assert DataNow() == Fresh && nodeBuffer.Data == [];
      WriteNode(root);
      Seal(header, EncodingIndex(encoding), root);
    }

    /** The end of the constructor, once the root is written: SectionEnd and
        realignment close the node stream, its length completes the header,
        the data-stream length ends the node buffer, and the three buffers are
        concatenated. */
    method Seal(header: ByteBuffer, index: int, root: Node)
      requires Valid() && header.Valid() && header !in {nodeBuffer, dataBuffer}
      requires header.Data == Header(compressed, index) && header.Offset == |header.Data|
      requires Encodable(Config(), root)
      requires nodeBuffer.Data == NodeBytes(Config(), [], root)
      requires DataNow() == DataWalk(Config(), Fresh, root)
      modifies this, header, nodeBuffer
      ensures Document == Encoder.Document(Config(), index, root)
    {
      ghost var nodes, data := NodeSection(Config(), root), DataSection(Config(), root);
      ToByteOfByte(WithBit6(SectionEndControl));
      nodeBuffer.AppendU8(WithBit6(SectionEndControl) as int);
      nodeBuffer.RealignWrite();
      assert nodeBuffer.Data == nodes;
      header.AppendU32(nodeBuffer.Length());
      nodeBuffer.AppendU32(dataBuffer.Length());
      Document := header.Data + nodeBuffer.Data + dataBuffer.Data;
    }

    /** The header buffer as the constructor starts it: the signature, the
        name mode, the shifted encoding index and its complement. */
    static method WriteHeader(compressed: bool, index: int) returns (header: ByteBuffer)
      ensures fresh(header) && header.Valid()
      ensures header.Data == Header(compressed, index) && header.Offset == |header.Data|
    {
      header := new ByteBuffer();
      header.AppendU8(0xA0);
      header.AppendU8(if compressed then 0x42 else 0x45);
      var encodingIndex := index * 32;
      header.AppendU8(encodingIndex);
      // the low eight bits of `encodingIndex ^ 0xFF`
      ToByteOfByte(Complement(ToByte(encodingIndex)));
      header.AppendU8(Complement(ToByte(encodingIndex)) as int);
    }

    /** Routes a scalar payload of `size * count` bytes: 1-byte and 2-byte
        values into the open slot of their class, opening a zero-filled slot
        at the end of the data stream when none is open; anything else is
        appended and realigned. */
    method WriteDataAligned(data: seq<byte>, size: int, count: int)
      requires Valid()
      requires size * count == 1 ==> |data| >= 1
      requires size * count == 2 ==> |data| >= 2
      modifies this`byteSlot, this`wordSlot, dataBuffer
      ensures Valid()
      ensures DataNow() == Pack(old(DataNow()), data, size * count)
    {
      if byteSlot % 4 == 0 {
        byteSlot := dataBuffer.Offset;
      }
      if wordSlot % 4 == 0 {
        wordSlot := dataBuffer.Offset;
      }

      var totalSize := size * count;
      if totalSize == 1 {
        byteSlot := PutInSlot(byteSlot, data[..1]);
      } else if totalSize == 2 {
        wordSlot := PutInSlot(wordSlot, data[..2]);
      } else {
        dataBuffer.AppendBytes(data);
        dataBuffer.RealignWrite();
      }
    }

    /** One slot write through a cursor: opens a zero-filled slot at the end
        of the data stream when the cursor is on a slot boundary, then writes
        `v` at the cursor and returns the advanced cursor. */
    method PutInSlot(cursor: nat, v: seq<byte>) returns (next: nat)
      requires Valid() && cursor <= dataBuffer.Length() && 1 <= |v| <= 2
      requires |v| == 2 ==> EvenOffset(cursor)
      modifies dataBuffer
      ensures Valid()
      ensures (dataBuffer.Data, next) == SlotWrite(old(dataBuffer.Data), cursor, v)
    {
      ghost var before := dataBuffer.Data;
      next := cursor;
      if next % 4 == 0 {
        next := dataBuffer.Length();
        dataBuffer.AppendU32(0);
        assert U32Bytes(0) == Zeros(4);
        PutAt(next, v);
        assert dataBuffer.Data == before + v + Zeros(4 - |v|);
      } else {
        SlotRoom(cursor, |before|, |v|);
        PutAt(next, v);
      }
      next := next + |v|;
    }

    /** A write through a slot view: `v` replaces the bytes at `at`, inside
        the stream, and the data stream's own cursor stays at its end. */
    method PutAt(at: nat, v: seq<byte>)
      requires Valid() && at + |v| <= dataBuffer.Length()
      modifies dataBuffer
      ensures Valid()
      ensures dataBuffer.Data == old(dataBuffer.Data[..at] + v + dataBuffer.Data[at + |v|..])
    {
      var end := dataBuffer.Offset;
      dataBuffer.Offset := at;
      dataBuffer.AppendBytes(v);
      dataBuffer.Offset := end;
    }

    /** A variable-length value: its length as a signed 32-bit field, its
        bytes, zero padding. */
    method WriteDataAuto(data: seq<byte>)
      requires Valid()
      modifies dataBuffer
      ensures Valid()
      ensures dataBuffer.Data == LengthPrefixed(old(dataBuffer.Data), data)
    {
      dataBuffer.AppendS32(|data|);
      dataBuffer.AppendBytes(data);
      dataBuffer.RealignWrite();
    }

    method WriteString(text: string)
      requires Valid()
      modifies dataBuffer
      ensures Valid()
      ensures dataBuffer.Data == LengthPrefixed(old(dataBuffer.Data), encode(text))
    {
      WriteDataAuto(encode(text));
    }

    method WriteNodeName(name: string)
      requires Valid()
      modifies nodeBuffer
      ensures Valid()
      ensures nodeBuffer.Data == old(nodeBuffer.Data) + NameBytes(Config(), name)
    {
      if compressed {
        // six-bit name packing is not implemented: nothing is written
      } else {
        var encoded := encode(name);
        ToByteOfByte(NameLengthByte(|encoded|));
        nodeBuffer.AppendU8(NameLengthByte(|encoded|) as int);
        nodeBuffer.AppendBytes(encoded);
        AppendAssoc(old(nodeBuffer.Data), [NameLengthByte(|encoded|)], encoded);
      }
    }

    /** The value part of `WriteNode` (nothing for a "void" node): the
        payload its format makes of the text, length-prefixed for arrays and
        variable-arity formats, slot-packed otherwise. */
    method WriteValue(n: Node, nodeType: string, format: Format, isArray: bool)
      requires Valid() && NodeOk(Config(), n)
      requires nodeType == TypeName(n) && format == NodeFormat(Config(), n) && isArray == IsArray(n)
      modifies this`byteSlot, this`wordSlot, dataBuffer
      ensures Valid()
      ensures DataNow() == NodeValue(Config(), old(DataNow()), n)
    {
      if nodeType != "void" {
        var value := n.text;
        var data: seq<byte>;
        if format.name == "bin" {
          data := HexPayload(value);
        } else if format.name == "str" {
          data := encode(value);
        } else {
          data := NumericBytes(format, SplitOnSpace(value));
        }

        if isArray || format.count == -1 {
          dataBuffer.AppendU32(|data|);
          dataBuffer.AppendBytes(data);
          dataBuffer.RealignWrite();
        } else {
          WriteDataAligned(data, format.size, format.count);
        }
      }
    }

    /** One turn of the attribute loop: a reserved `__` name is skipped;
        otherwise the value goes to the data stream, the Attribute marker and
        the name to the node stream. */
    method WriteAttribute(a: Attr)
      requires Valid()
      modifies nodeBuffer, dataBuffer
      ensures Valid()
      ensures nodeBuffer.Data == old(nodeBuffer.Data) + AttrNodeBytes(Config(), a)
      ensures DataNow() == AttrData(Config(), old(DataNow()), a)
    {
      if !StartsWith(a.name, "__") {
        WriteString(a.value);
        nodeBuffer.AppendU8(AttributeControl as int);
        WriteNodeName(a.name);
      }
    }

    /** The attribute loop over `attrs` (already in name order). */
    method WriteAttributes(attrs: seq<Attr>)
      requires Valid()
      modifies nodeBuffer, dataBuffer
      ensures Valid()
      ensures nodeBuffer.Data == AttrsNodeBytes(Config(), old(nodeBuffer.Data), attrs, |attrs|)
      ensures DataNow() == AttrsData(Config(), old(DataNow()), attrs, |attrs|)
    {
      for i := 0 to |attrs|
        invariant Valid()
        invariant nodeBuffer.Data == AttrsNodeBytes(Config(), old(nodeBuffer.Data), attrs, i)
        invariant DataNow() == AttrsData(Config(), old(DataNow()), attrs, i)
      {
        WriteAttribute(attrs[i]);
      }
    }

    /** The child loop of `WriteNode(n)`. */
    method WriteChildren(n: Node)
      requires Valid() && Encodable(Config(), n)
      modifies this`byteSlot, this`wordSlot, nodeBuffer, dataBuffer
      ensures Valid()
      ensures nodeBuffer.Data == KidsNodeBytes(Config(), old(nodeBuffer.Data), n, |n.children|)
      ensures DataNow() == KidsData(Config(), old(DataNow()), n, |n.children|)
      decreases n, 0
    {
      for i := 0 to |n.children|
        invariant Valid()
        invariant nodeBuffer.Data == KidsNodeBytes(Config(), old(nodeBuffer.Data), n, i)
        invariant DataNow() == KidsData(Config(), old(DataNow()), n, i)
      {
        ChildIsSmaller(n, i);
        WriteNode(n.children[i]);
      }
    }

    /** Writes one element and, recursively, its children. */
    method WriteNode(n: Node)
      requires Valid() && Encodable(Config(), n)
      modifies this`byteSlot, this`wordSlot, nodeBuffer, dataBuffer
      ensures Valid()
      ensures nodeBuffer.Data == NodeBytes(Config(), old(nodeBuffer.Data), n)
      ensures DataNow() == DataWalk(Config(), old(DataNow()), n)
      decreases n, 1
    {
      var nodeType := TypeName(n);
      var format := formats[FindFormat(formats, nodeType).value];
      var isArray := IsArray(n);

      ToByteOfByte(ControlByte(format, isArray));
      nodeBuffer.AppendU8(ControlByte(format, isArray) as int);
      WriteNodeName(n.name);
      assert nodeBuffer.Data == OpenBytes(Config(), old(nodeBuffer.Data), n);
      WriteValue(n, nodeType, format, isArray);
      WriteAttributes(SortByName(n.attrs));
      WriteChildren(n);
      ToByteOfByte(WithBit6(NodeEndControl));
      nodeBuffer.AppendU8(WithBit6(NodeEndControl) as int);
    }
  }
}
