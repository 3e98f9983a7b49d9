# kbin writer in Dafny

This project models `KBinWriter`, the writer half of the kbin packed binary
XML format. At construction it walks an element tree once and fills two byte
streams:

- the node stream, which holds the structure: control bytes, names, and the
  Attribute, NodeEnd and SectionEnd markers;
- the data stream, which holds the values. Variable-length values get a
  length prefix and 4-byte padding. 1-byte and 2-byte scalars share 4-byte
  slots through two cursors.

It then assembles the `Document`: a four-byte preamble, the node-stream
length, the node stream, the data-stream length, and the data stream.

The model has two layers, and the class is proved against the functions:

- **The functions of module `Encoder`** describe what each step does to the
  node stream, the data stream and the two slot cursors. The lemmas beside
  them state what the format promises: header fields, name length bytes,
  control byte bits, length-prefix layout, slot placement and sharing, document
  framing, and one write per element.
- **The class `Writer.KBinWriter`** holds the buffers and cursors. Its
  methods and loops follow the source's methods and loops, with the
  statements listed under "## Findings" corrected. Each method is proved to
  leave its buffers exactly as the `Encoder` functions say, so the
  constructor's `Document` equals `Encoder.Document`.

Files:

- `bytes.dfy` (module `Bytes`): bytes, C#'s truncating byte cast, bit 6,
  4-byte fields, padding.
- `buffer.dfy` (module `Buffer`): `ByteBuffer`, which has a data sequence, a
  committed length and a movable `Offset`.
- `text.dfy` (module `Text`): `Split(" ")`, hex pairs, and the ordinal name
  order.
- `tree.dfy` (module `Tree`): elements, attributes, formats, type
  selection, and the attribute sort.
- `encoder.dfy` (module `Encoder`): the specification functions and lemmas.
- `writer.dfy` (module `Writer`): the class.
- `findings.dfy` (module `Findings`): the statements modelled as written,
  with their counterexamples.

The class models the corrected code (see "## Findings"). It writes its 1-byte
and 2-byte slots into the data stream through two cursors, `byteSlot` and
`wordSlot`. When a cursor stands on a slot boundary, four zero bytes are
appended and the value goes at the start of the new slot. That placement is
itself a correction: as written, lines 56 and 62 write the zero field through
the slot's own view, which moves its cursor past the field, so the value
would land after the four zeros.

The header's node-stream length is taken at line 41, before line 42 appends
the data-length field to the node buffer, so it does not count that trailing
field. The model follows the code.

## Model

| member | source | states |
|---|---|---|
| Buffer.ByteBuffer.constructor | KBinXML/KBinWriter.cs:32-33 | a new buffer is empty with its cursor at 0 |
| Buffer.ByteBuffer.AppendBytes | KBinXML/KBinWriter.cs:149 | writes the bytes at `Offset`, overwriting or extending; at the end of the buffer it is an append; the cursor advances by the count |
| Buffer.ByteBuffer.AppendU8 | KBinXML/KBinWriter.cs:99 | writes the low eight bits of its int argument at `Offset` |
| Buffer.ByteBuffer.AppendU32 | KBinXML/KBinWriter.cs:41-42 | writes the 4-byte field of its argument at `Offset` |
| Buffer.ByteBuffer.AppendS32 | KBinXML/KBinWriter.cs:72 | writes the same 32 bits as `AppendU32` |
| Buffer.ByteBuffer.RealignWrite | KBinXML/KBinWriter.cs:40 | pads with the fewest zero bytes that make the length a multiple of 4, and leaves the cursor at the end |
| Bytes.ToByte | KBinXML/KBinWriter.cs:29 | the byte cast keeps the value modulo 256; for a negative 32-bit value it is the low byte of its two's-complement pattern (the value plus 2^32), and a byte value is kept as it is |
| Bytes.ToBytePeriodic | KBinXML/KBinWriter.cs:29 | the cast sees only the low eight bits: adding 256 changes nothing |
| Bytes.WithBit6Bits | KBinXML/KBinWriter.cs:140 | or-ing 64 sets bit 6 and keeps every other bit |
| Bytes.Complement | KBinXML/KBinWriter.cs:30 | `x ^ 0xFF` flips every one of the eight bits of `x` |
| Bytes.FlipsLowBits | KBinXML/KBinWriter.cs:30 | subtracting from 2^j - 1 flips each of the j low bits, by induction on the bit position |
| Bytes.U32Bytes | KBinXML/KBinWriter.cs:41-42 | a 32-bit field is 4 bytes wide |
| Bytes.U32RoundTrip | KBinXML/KBinWriter.cs:41-42 | a reader recovers the field's value modulo 2^32 |
| Bytes.Padded | KBinXML/KBinWriter.cs:40 | realignment keeps the bytes, appends fewer than 4 zero bytes, and leaves a multiple of 4 |
| Bytes.Overwrite | KBinXML/KBinWriter.cs:55-58 | a write at a cursor replaces exactly the bytes it covers, keeps the rest, and grows the sequence only past its end |
| Encoder.Header | KBinXML/KBinWriter.cs:24-30 | the preamble is 4 bytes |
| Encoder.HeaderFields | KBinXML/KBinWriter.cs:24-30 | the bytes are A0, then 42 when compressed else 45, then `index << 5`, then its complement; byte 3 always complements byte 2 |
| Encoder.NameLengthByte | KBinXML/KBinWriter.cs:148 | the length minus one with bit 6 or-ed in has bit 6 set, and a length from 1 to 64 comes back as the byte minus 0x3F |
| Encoder.NameBytes | KBinXML/KBinWriter.cs:143-151 | compressed mode writes nothing; otherwise one length byte, then exactly the encoded name |
| Encoder.NameLengthRecoverable | KBinXML/KBinWriter.cs:148 | the length byte has bit 6 set, and for 1 to 64 encoded bytes the length is the byte minus 0x3F |
| Encoder.ControlByte | KBinXML/KBinWriter.cs:92-99 | for a six-bit format id the low six bits of the control byte are the id, and bit 6 is set exactly for array (`__count`) nodes |
| Encoder.TypeSelection | KBinXML/KBinWriter.cs:82-126 | a node with neither `__type` nor text is void and adds nothing to the data stream; a typed array or variable-length value adds at least its 4-byte length field |
| Encoder.NumericConcat | KBinXML/KBinWriter.cs:116 | the element fold distributes over concatenation of the pieces |
| Encoder.NumericWidth | KBinXML/KBinWriter.cs:116 | with a fixed-width element codec, k elements take k times the width |
| Encoder.NumericBytes | KBinXML/KBinWriter.cs:116 | the elements are appended in order: the bytes of every leading run of pieces begin the result, and a single piece is its own bytes |
| Encoder.Payload | KBinXML/KBinWriter.cs:108-117 | a "bin" payload has half as many bytes as hex digits, and a numeric payload with a fixed-width codec has the width times the number of pieces |
| Encoder.LengthPrefixed | KBinXML/KBinWriter.cs:71-75 | the stream stays 4-aligned and grows by 4 plus the payload rounded up to a multiple of 4 |
| Encoder.LengthPrefixedLayout | KBinXML/KBinWriter.cs:71-75 | the old stream, then a field holding the payload length, then the payload, then only zero bytes |
| Encoder.FiveByteString | KBinXML/KBinWriter.cs:77-79 | a 5-byte string value takes 12 bytes: prefix 5, the bytes, three zeros |
| Encoder.SlotWrite | KBinXML/KBinWriter.cs:53-64 | the corrected slot write (value at the start of a new slot, see "## Findings"): it keeps the stream 4-aligned and the cursor inside it, and keeps a 2-byte cursor even |
| Encoder.SlotWritePlaces | KBinXML/KBinWriter.cs:53-64 | for the corrected slot write: the stream grows by one slot when the cursor is on a boundary and not at all otherwise; the value sits at the slot position (the new slot's start on a boundary); the cursor follows it; every other byte is old or a fresh zero |
| Encoder.Pack | KBinXML/KBinWriter.cs:46-69 | keeps the slot invariant; a cursor on a boundary moves to the end; other sizes append the payload and realign without touching the cursors |
| Encoder.PackPlaces | KBinXML/KBinWriter.cs:46-64 | a 1-byte value is placed through the byte cursor and a 2-byte value through the word cursor, each as `SlotWritePlaces` says |
| Encoder.StoreValue | KBinXML/KBinWriter.cs:119-125 | array and variable-arity payloads are length-prefixed and everything else is packed; the stream never shrinks |
| Encoder.ByteJoinsSlot | KBinXML/KBinWriter.cs:53-58 | a 1-byte value joins the open slot at the cursor's position |
| Encoder.FourBytesShareASlot | KBinXML/KBinWriter.cs:53-58 | four 1-byte values share one new slot, 4 bytes in all, in order |
| Encoder.TwoWordsShareASlot | KBinXML/KBinWriter.cs:59-64 | two 2-byte values share one new slot, 4 bytes in all |
| Encoder.ByteThenFourBytes | KBinXML/KBinWriter.cs:65-68 | a 4-byte value bypasses the slots and lands after the open slot |
| Encoder.ByteAndWordSlotsInterleave | KBinXML/KBinWriter.cs:46-64 | byte and word slots are independent: byte, word, byte fill two slots |
| Encoder.NodeValue | KBinXML/KBinWriter.cs:104-126 | a node's value keeps the slot invariant and never shrinks the data stream |
| Encoder.AttrData | KBinXML/KBinWriter.cs:129-130 | one attribute keeps the slot invariant: a reserved name leaves the data state as it is, any other value is length-prefixed |
| Encoder.AttrsData | KBinXML/KBinWriter.cs:128-134 | the attribute loop keeps the slot invariant |
| Encoder.DataWalk | KBinXML/KBinWriter.cs:81-141 | a node's walk keeps the slot invariant of the data stream |
| Encoder.KidsData | KBinXML/KBinWriter.cs:136-138 | the child loop keeps the slot invariant |
| Encoder.CompressedNodeLength | KBinXML/KBinWriter.cs:136-140 | every element is written once: without attributes and in compressed mode, two node bytes per element |
| Encoder.CompressedKidsLength | KBinXML/KBinWriter.cs:136-138 | the child loop writes each child's subtree once |
| Encoder.NodeBytes | KBinXML/KBinWriter.cs:81-141 | writing a node only appends to the node stream, opens with the node's control byte and closes with NodeEnd |
| Encoder.KidsNodeBytes | KBinXML/KBinWriter.cs:136-138 | the child loop only appends to the node stream |
| Encoder.AttrsNodeShift | KBinXML/KBinWriter.cs:128-134 | the attribute loop only appends to the node stream |
| Encoder.NodeSection | KBinXML/KBinWriter.cs:39-40 | the sealed node stream is 4-aligned and longer than the root's bytes |
| Encoder.DataSection | KBinXML/KBinWriter.cs:34-43 | the data stream that ends the document is 4-aligned |
| Encoder.Document | KBinXML/KBinWriter.cs:39-43 | the document opens with the header, is 12 bytes longer than its two streams, and is 4-aligned |
| Encoder.Assemble | KBinXML/KBinWriter.cs:41-43 | the three buffers concatenated: the header first, 8 bytes of length fields besides the streams |
| Encoder.DocumentLayout | KBinXML/KBinWriter.cs:39-43 | the document is the header, the node-stream length without the trailing field, the node stream, the data-stream length and the data stream; both streams are 4-aligned |
| Encoder.Framing | KBinXML/KBinWriter.cs:41-43 | the positions of the two length fields and the two streams in the concatenation |
| Encoder.NodeSectionShape | KBinXML/KBinWriter.cs:39-40 | the node stream is the root's bytes closed by NodeEnd, then SectionEnd, then at most three zero bytes |
| Text.SplitOnSpace | KBinXML/KBinWriter.cs:116 | `Split(" ")` yields at least one piece and no piece holds a space |
| Text.JoinSplit | KBinXML/KBinWriter.cs:116 | joining the pieces with spaces gives the text back |
| Text.SplitJoin | KBinXML/KBinWriter.cs:116 | space-free pieces survive a join and a split |
| Text.HexBytes | KBinXML/KBinWriter.cs:108-112 | a "bin" payload has `value.Length / 2` bytes |
| Text.HexRoundTrip | KBinXML/KBinWriter.cs:108-112 | hex text written for any bytes parses back to exactly those bytes |
| Text.OrdinalTotal | KBinXML/KBinWriter.cs:128 | the name order is total |
| Text.OrdinalTransitive | KBinXML/KBinWriter.cs:128 | the name order is transitive |
| Text.OrdinalAntisymmetric | KBinXML/KBinWriter.cs:128 | the name order is antisymmetric |
| Tree.Lookup | KBinXML/KBinWriter.cs:82 | an attribute lookup is None exactly when no attribute has the name, and otherwise returns the value of an attribute with that name |
| Tree.TypeName | KBinXML/KBinWriter.cs:82-89 | the type is `__type` when present, else "str" exactly when there is text, else "void" |
| Tree.IsArray | KBinXML/KBinWriter.cs:93-97 | a node is an array exactly when some attribute is named `__count` |
| Tree.FindFormat | KBinXML/KBinWriter.cs:91 | `First` finds the first format answering to the type, or reports that none does |
| Tree.InsertByName | KBinXML/KBinWriter.cs:128 | an insertion adds exactly one element |
| Tree.InsertKeepsSorted | KBinXML/KBinWriter.cs:128 | an insertion keeps the sequence sorted by name |
| Tree.SortByName | KBinXML/KBinWriter.cs:128 | the attributes in name order are sorted and a permutation of the input |
| Writer.HeaderNamesEncoding | KBinXML/KBinWriter.cs:22-29 | the header's index names the table entry whose codec the writer uses |
| Writer.EncodingIndex | KBinXML/KBinWriter.cs:22-28 | the table position of the encoding in use is -1 exactly for an encoding outside the table |
| Writer.ResolvedCodec | KBinXML/KBinWriter.cs:22 | `encoding ?? Encodings[0]`: unless the argument lies outside the table, the codec is the entry `EncodingIndex` names |
| Writer.HexPayload | KBinXML/KBinWriter.cs:108-112 | the hex loop fills the array with exactly `HexBytes` of the text |
| Writer.KBinWriter.constructor | KBinXML/KBinWriter.cs:20-44 | `Document` equals `Encoder.Document` of the tree |
| Writer.KBinWriter.WriteHeader | KBinXML/KBinWriter.cs:24-30 | the header buffer holds `Header` with its cursor at the end |
| Writer.KBinWriter.Seal | KBinXML/KBinWriter.cs:39-43 | SectionEnd, realignment, the two length fields and the concatenation give `Encoder.Document` |
| Writer.KBinWriter.WriteDataAligned | KBinXML/KBinWriter.cs:46-69 | the data stream and both cursors become `Pack` of the old ones, with the statements of lines 50, 56, 62 and 64 corrected |
| Writer.KBinWriter.PutInSlot | KBinXML/KBinWriter.cs:53-64 | one slot write through a cursor is `SlotWrite`: the zero field is appended to the data stream and the value written at the slot's start (the correction of lines 56 and 62) |
| Writer.KBinWriter.PutAt | KBinXML/KBinWriter.cs:58 | a write through a slot view replaces the bytes at the cursor and leaves the stream's own cursor at its end |
| Writer.KBinWriter.WriteDataAuto | KBinXML/KBinWriter.cs:71-75 | the data stream becomes `LengthPrefixed` of the old one |
| Writer.KBinWriter.WriteString | KBinXML/KBinWriter.cs:77-79 | the encoded text is length-prefixed |
| Writer.KBinWriter.WriteNodeName | KBinXML/KBinWriter.cs:143-151 | the node stream grows by exactly `NameBytes` |
| Writer.KBinWriter.WriteValue | KBinXML/KBinWriter.cs:104-126 | the data state becomes `NodeValue` |
| Writer.KBinWriter.WriteAttribute | KBinXML/KBinWriter.cs:129-133 | a reserved name is skipped; otherwise the value goes to the data stream and the Attribute marker and the name to the node stream |
| Writer.KBinWriter.WriteAttributes | KBinXML/KBinWriter.cs:128-134 | both streams become the attribute fold over the sorted attributes |
| Writer.KBinWriter.WriteChildren | KBinXML/KBinWriter.cs:136-138 | both streams become the child fold |
| Writer.KBinWriter.WriteNode | KBinXML/KBinWriter.cs:81-141 | the node stream becomes `NodeBytes` and the data state `DataWalk` |
| Findings.DefaultHeaderAsWritten | KBinXML/KBinWriter.cs:28-30 | as written, an omitted encoding gives header bytes E0 1F (entry 7) instead of 00 FF |
| Findings.EncodingIndexAsWritten | KBinXML/KBinWriter.cs:28 | `IndexOf` on the argument gives -1 for an omitted encoding as for one outside the table, and differs from the index of the encoding in use exactly for the default |
| Findings.ScalarLostAsWritten | KBinXML/KBinWriter.cs:34-43 | as written, a 1-byte scalar never reaches the data stream of the document |
| Findings.DataStreamSeparate | KBinXML/KBinWriter.cs:34-43 | with separate slot buffers, a scalar of total size 1 or 2 leaves the document's data stream unchanged; other sizes are appended and realigned |
| Findings.SlotWriteAsWritten | KBinXML/KBinWriter.cs:53-62 | as written, with the slot buffers sharing the data stream (lines 34-35 corrected), on a slot boundary the zero field goes through the slot view and the value lands after it: the stream grows by 4 plus the value |
| Findings.SlotOpenAsWritten | KBinXML/KBinWriter.cs:53-58 | as written, one byte into an empty stream gives 00 00 00 00 x, 5 bytes and no longer 4-aligned, instead of x 00 00 00 |
| Findings.PackAsWritten | KBinXML/KBinWriter.cs:46-69 | the slot packer as written (cursor mix-ups at lines 50 and 64, zero field written through the slot view at lines 56 and 62) keeps both cursors inside the stream |
| Findings.WordsShareNoSlotAsWritten | KBinXML/KBinWriter.cs:49-64 | as written, with the slot buffers sharing the data stream (lines 34-35 corrected), two 2-byte scalars take 8 bytes instead of 4 |
| Findings.HexBytesAsWritten | KBinXML/KBinWriter.cs:109-111 | the parse as written still yields `value.Length / 2` bytes |
| Findings.HexSliceAsWritten | KBinXML/KBinWriter.cs:111 | as written "0A0B" parses to 0A A0 instead of 0A 0B |
| Findings.LengthPrefixedAsWritten | KBinXML/KBinWriter.cs:120-122 | the prefixed stream as written stays 4-aligned |
| Findings.ArrayPrefixAsWritten | KBinXML/KBinWriter.cs:120 | as written, a 4-byte u16 array gets a prefix of 8 instead of 4 |
| Findings.DescendantsAsWritten | KBinXML/KBinWriter.cs:136-137 | as written, a chain of three empty elements takes 8 node bytes instead of 6 |
| Findings.NodeBytesAsWritten | KBinXML/KBinWriter.cs:81-141 | the node walk as written over `Descendants()` only appends, opens with the control byte and closes with NodeEnd |
| Findings.DescendantsBytesAsWritten | KBinXML/KBinWriter.cs:136-137 | the descendants loop as written only appends to the node stream |

## Left out

- `ByteBuffer` is not part of this model's source. Its semantics are assumed:
  a byte sequence, a committed length and a movable `Offset`; writes go at
  `Offset` and grow the length only where they pass it.
- The byte order of 4-byte fields is not visible here. Most significant byte
  first is assumed, and only the width and the round trip are relied upon.
- `System.Xml.Linq` is replaced by the `Node` datatype. `GetValue()` is the
  node's `text` field, taken as given. `Name.LocalName` is `name`.
- `Encoding.GetBytes` is a function parameter of the writer. The encoding
  table is a sequence parameter whose entries are assumed to be distinct.
- The `Formats` registry and `FormatFromString` are defined with the reader,
  which is not part of this model. They are a sequence of `Format` records
  searched in order, and the element codec is a function field.
- The control bytes Attribute (0x2E), NodeEnd (0xBE) and SectionEnd (0xBF)
  are also defined with the reader. Their kbin values are assumed.
- Where the source throws, the model has a precondition and models no error
  path. This covers:
  - `First` finding no format;
  - `int.Parse` rejecting `__count`;
  - `Convert.ToByte` rejecting a non-hex pair;
  - `data[0]` or `data[..2]` on a payload that is too short.
  `Encodable` collects these conditions.
- `int.Parse` is modelled as an optional sign, decimal digits and the `int`
  range. Surrounding white space and culture settings are not modelled. The
  parsed count is unused in the source and in the model.
- `OrderBy` over names (line 128) and `StartsWith("__")` (line 129) use
  culture-sensitive comparison. The model uses ordinal order and an ordinal
  prefix test (`Text.StartsWith`).
- Encoder.SlotWritePlaces, like `Encoder.SlotWrite`, `Encoder.Pack` and
  `Writer.KBinWriter.PutInSlot`, states the corrected slot opening (the value
  at the start of the new slot), not the code as written, where lines 56 and
  62 put the value after the zero field; the as-written behaviour is
  `Findings.SlotWriteAsWritten` (see "## Findings").
- Encoder.NodeControl: a type no format answers to has no control byte. The
  writer throws before writing one, and 0 stands in for it in the
  specification function.
- Compressed-mode names are written as nothing, which is faithful to the
  unimplemented six-bit packing at line 145. Compressed mode is the
  constructor's default (`compressed = true`, line 20), so by default a
  document carries no names. Six-bit packing is not modelled.
- A scalar whose total size is neither 1 nor 2 is appended and realigned, as
  the code does. Nothing rejects a total size of 3, 0 or less: the code
  appends and realigns such a payload, and so does the model.
- Encoder.NumericWidth: the element codec's width is an assumption on
  `fromString`, because the codecs are not part of this model.
- The comment at line 114 about a trailing null byte after strings describes
  another implementation. The model follows the code and appends no null byte.

## Findings

| source | as written | input that shows it | evidently intended | confidence | as-written member | corrected member |
|---|---|---|---|---|---|---|
| KBinXML/KBinWriter.cs:28 | `Array.IndexOf(Encodings, encoding)` looks up the argument, which is null when omitted | constructor without an encoding: header bytes 2-3 are E0 1F, naming entry 7 | the index of the resolved `_encoding`: 00 FF for the default entry 0 | not executed | Findings.DefaultHeaderAsWritten | Writer.HeaderNamesEncoding |
| KBinXML/KBinWriter.cs:34-35 | the 1-byte and 2-byte slot buffers are separate new buffers, and line 43 concatenates only `_dataBuffer` | any u8 node: its byte is written to `_dataByteBuffer` and never reaches `Document` | the slot buffers alias the data stream, as lines 55 and 61 assume when they use `_dataBuffer.Length` | not executed | Findings.ScalarLostAsWritten | Encoder.PackPlaces |
| KBinXML/KBinWriter.cs:49-64 | line 50 moves the byte cursor when the word cursor is on a boundary, and line 64 writes 2-byte values through the byte cursor | two u16 scalars into an empty stream, with the slot buffers sharing the data stream (lines 34-35 corrected): the stream becomes a0 a1 0 0 b0 b1 0 0 | the values share one slot: a0 a1 b0 b1 | not executed | Findings.WordsShareNoSlotAsWritten | Encoder.TwoWordsShareASlot |
| KBinXML/KBinWriter.cs:53-62 | on a slot boundary `_dataByteBuffer.AppendU32(0)` (and `_dataWordBuffer.AppendU32(0)`) writes the zero field through the slot view, which moves that view's cursor past it | one byte into an empty data stream, with the slot buffers sharing the data stream (lines 34-35 corrected): 00 00 00 00 x, 5 bytes, no longer 4-aligned | the field is appended to the data stream and the value goes at the slot's start: x 00 00 00 | not executed | Findings.SlotOpenAsWritten | Encoder.SlotWritePlaces |
| KBinXML/KBinWriter.cs:111 | `value[i..(i + 2)]` for byte i | "0A0B" parses to 0A A0 | `value[2i..2i + 2]`: 0A 0B | not executed | Findings.HexSliceAsWritten | Text.HexRoundTrip |
| KBinXML/KBinWriter.cs:120 | the length prefix is `data.Length * format.Size` | a u16 array of two elements: 4 payload bytes under a prefix of 8 | the prefix is the byte count `data.Length`: 4 | not executed | Findings.ArrayPrefixAsWritten | Encoder.LengthPrefixedLayout |
| KBinXML/KBinWriter.cs:136 | the child loop iterates `element.Descendants()` | compressed chain a > b > c of empty elements: 8 node bytes, c written twice | `element.Elements()`: 6 node bytes, each element once | not executed | Findings.DescendantsAsWritten | Encoder.CompressedNodeLength |
