/** The writer's statements that do not do what the format and the rest of
    the writer intend, modelled as written, each with the input that shows the
    difference from the corrected member the rest of the model uses. */
module Findings {
  import opened Bytes
  import opened Text
  import opened Tree
  import opened Encoder
  import opened Writer

  // ---------------------------------------------------------------------------
  // The encoding index in the header
  // ---------------------------------------------------------------------------

  /** `Array.IndexOf(Encodings, encoding)` on the constructor's argument
      rather than on the resolved encoding: an omitted (null) argument is not
      in the table and gives -1, as an encoding outside the table does, so for
      the default it disagrees with the index of the encoding in use. */
  function EncodingIndexAsWritten(e: EncodingArg): (r: int)
    ensures r == -1 <==> !e.TableEncoding?
    ensures r == EncodingIndex(e) <==> !e.DefaultEncoding?
  {
    match e
    case DefaultEncoding => -1
    case TableEncoding(i) => i
    case OtherEncoding(_) => -1
  }

  /** With the encoding left out, the header announces table entry 7 (bytes
      E0 1F) while the writer encodes with entry 0 (bytes 00 FF). */
  lemma DefaultHeaderAsWritten(compressed: bool)
    ensures Header(compressed, EncodingIndexAsWritten(DefaultEncoding))[2..] == [0xE0, 0x1F]
    ensures Header(compressed, EncodingIndexAsWritten(DefaultEncoding))[2] as int / 32 == 7
    ensures Header(compressed, EncodingIndex(DefaultEncoding))[2..] == [0x00, 0xFF]
  {
    assert ToByte(-1 * 32) == 0xE0;
  }

  // ---------------------------------------------------------------------------
  // The slot buffers
  // ---------------------------------------------------------------------------

  /** `_dataBuffer` after one `WriteDataAligned` call when the 1-byte and the
      2-byte slot buffers are buffers of their own, as constructed: a scalar
      of total size 1 or 2 is written to one of them, and only `_dataBuffer`
      is concatenated into the document. */
  function DataStreamSeparate(data: seq<byte>, payload: seq<byte>, total: int): (r: seq<byte>)
    ensures total == 1 || total == 2 ==> r == data
    ensures total != 1 && total != 2 ==>
              && |r| % 4 == 0 && |data| + |payload| <= |r|
              && r[..|data|] == data && r[|data|..|data| + |payload|] == payload
  {
    if total == 1 || total == 2 then data else Padded(data + payload)
  }

  /** A 1-byte scalar never reaches the document as written, and it does
      when the slots alias the data stream. */
  lemma ScalarLostAsWritten(d: DataState, x: byte)
    requires SlotInv(d)
    ensures DataStreamSeparate(d.data, [x], 1) == d.data
    ensures x in Pack(d, [x], 1).data
  {
    PackPlaces(d, [x], 1);
    var r := Pack(d, [x], 1);
    var at := if d.byteSlot % 4 == 0 then |d.data| else d.byteSlot;
    assert [x][..1] == [x];
    assert r.data[at..at + 1] == [x];
    assert r.data[at] == x;
  }

  /** A slot write through a slot view as lines 54-58 write it, with the
      slot buffers sharing the data stream (lines 34-35 corrected): on a slot
      boundary the view's cursor is moved to the end of the data stream and
      the zero field is written THROUGH that view, which moves its cursor past
      the field, so the value lands after the four zeros instead of at the
      slot's start; inside a slot the value replaces the bytes at the cursor.
      The cursor ends just after the value. */
  function SlotWriteAsWritten(data: seq<byte>, cursor: nat, v: seq<byte>): (r: (seq<byte>, nat))
    requires cursor <= |data|
    ensures r.1 <= |r.0| && |data| <= |r.0|
    ensures cursor % 4 == 0 ==>
              && |r.0| == |data| + 4 + |v| && r.0[..|data|] == data
              && r.0[|data|..|data| + 4] == Zeros(4) && r.0[|data| + 4..] == v
  {
    if cursor % 4 == 0 then
      var withField := Overwrite(data, |data|, U32Bytes(0));
      ZeroField();
      (Overwrite(withField, |data| + 4, v), |data| + 4 + |v|)
    else
      (Overwrite(data, cursor, v), cursor + |v|)
  }

  lemma ZeroField()
    ensures U32Bytes(0) == Zeros(4)
  {
  }

  /** One byte into an empty data stream, with the slot buffers sharing the
      data stream (lines 34-35 corrected): as written the stream becomes
      00 00 00 00 x, five bytes, and is no longer 4-aligned; with the value
      at the start of the new slot it is x 00 00 00. */
  lemma SlotOpenAsWritten(x: byte)
    ensures SlotWriteAsWritten([], 0, [x]) == ([0, 0, 0, 0, x], 5)
    ensures |SlotWriteAsWritten([], 0, [x]).0| % 4 != 0
    ensures SlotWrite([], 0, [x]) == ([x, 0, 0, 0], 1)
  {
    var empty: seq<byte> := [];
    var r := SlotWriteAsWritten(empty, 0, [x]);
    assert Zeros(4) == [0, 0, 0, 0] && Zeros(3) == [0, 0, 0];
    assert r.0[0..4] == [0, 0, 0, 0] && r.0[4..] == [x];
    assert r.0 == r.0[0..4] + r.0[4..];
    assert r.0 == [0, 0, 0, 0, x];
    assert r.1 == 5;
    var c := SlotWrite(empty, 0, [x]);
    assert c.0 == empty + [x] + Zeros(3);
    assert c.0 == [x, 0, 0, 0];
    assert c.1 == 1;
  }

  /** `WriteDataAligned` with the slots aliasing the data stream, but with
      its statements as written: when the 2-byte cursor is on a slot boundary
      it is the 1-byte cursor that is moved to the end (line 50), a slot is
      opened by writing its zero field through the slot's own view (lines 56
      and 62), and a 2-byte value is written through the 1-byte view (line
      64). The data stream's own `Offset` is read as its length. */
  function PackAsWritten(d: DataState, payload: seq<byte>, total: int): (r: DataState)
    requires d.byteSlot <= |d.data| && d.wordSlot <= |d.data|
    requires total == 1 ==> |payload| >= 1
    requires total == 2 ==> |payload| >= 2
    ensures r.byteSlot <= |r.data| && r.wordSlot <= |r.data| && |d.data| <= |r.data|
  {
    var byteSlot := if d.byteSlot % 4 == 0 then |d.data| else d.byteSlot;
    var byteSlot := if d.wordSlot % 4 == 0 then |d.data| else byteSlot;
    if total == 1 then
      var (data, cursor) := SlotWriteAsWritten(d.data, byteSlot, payload[..1]);
      DataState(data, cursor, d.wordSlot)
    else if total == 2 then
      var (data, wordSlot) :=
        if d.wordSlot % 4 == 0 then (Overwrite(d.data, |d.data|, U32Bytes(0)), |d.data| + 4)
        else (d.data, d.wordSlot);
      DataState(Overwrite(data, byteSlot, payload[..2]), byteSlot + 2, wordSlot)
    else
      DataState(Padded(d.data + payload), byteSlot, d.wordSlot)
  }

  /** Two 2-byte scalars into a fresh data stream, with the slot buffers
      sharing the data stream (lines 34-35 corrected): as written each opens a
      slot of its own and the stream grows by 8 bytes, half of them padding;
      with the cursors as intended they share one slot, 4 bytes in all. */
  lemma WordsShareNoSlotAsWritten(a0: byte, a1: byte, b0: byte, b1: byte)
    ensures PackAsWritten(PackAsWritten(Fresh, [a0, a1], 2), [b0, b1], 2).data
            == [a0, a1, 0, 0, b0, b1, 0, 0]
    ensures Pack(Pack(Fresh, [a0, a1], 2), [b0, b1], 2).data == [a0, a1, b0, b1]
  {
    var d1 := PackAsWritten(Fresh, [a0, a1], 2);
    assert [a0, a1][..2] == [a0, a1] && [b0, b1][..2] == [b0, b1];
    assert U32Bytes(0) == [0, 0, 0, 0];
    assert d1 == DataState([a0, a1, 0, 0], 2, 4);
    var z := [a0, a1, 0, 0] + Zeros(4);
    assert z == [a0, a1, 0, 0, 0, 0, 0, 0];
    TwoWordsShareASlot(Fresh, [a0, a1], [b0, b1]);
  }

  // ---------------------------------------------------------------------------
  // The "bin" payload
  // ---------------------------------------------------------------------------

  /** Every character the parse as written reads is a hex digit: positions
      0 to |v|/2 when there is at least one pair, none for a shorter value. */
  predicate HexDigitsAsWritten(v: string)
  {
    forall j :: 0 < |v| / 2 && 0 <= j <= |v| / 2 ==> IsHexDigit(v[j])
  }

  /** `data[i] = Convert.ToByte(value[i..(i + 2)], 16)`: byte i is parsed
      from characters i and i+1, so consecutive bytes overlap by a digit. */
  function HexBytesAsWritten(v: string): (r: seq<byte>)
    requires HexDigitsAsWritten(v)
    ensures |r| == |v| / 2
  {
    seq(|v| / 2, i requires 0 <= i < |v| / 2 => HexPair(v[i], v[i + 1]))
  }

  /** "0A0B" comes out as 0A A0 as written, and as 0A 0B with the pair at 2i. */
  lemma HexSliceAsWritten()
    ensures HexBytesAsWritten("0A0B") == [0x0A, 0xA0]
    ensures HexBytes("0A0B") == [0x0A, 0x0B]
  {
    var v := "0A0B";
    assert HexValue('0') == 0 && HexValue('A') == 10 && HexValue('B') == 11;
    assert HexBytesAsWritten(v)[1] == HexPair(v[1], v[2]) == 0xA0;
    assert HexBytes(v)[1] == HexPair(v[2], v[3]) == 0x0B;
  }

  // ---------------------------------------------------------------------------
  // The array length prefix
  // ---------------------------------------------------------------------------

  /** Lines 120-122 as written: the length field holds the payload's byte
      count times the element size. */
  function LengthPrefixedAsWritten(data: seq<byte>, payload: seq<byte>, size: int): (r: seq<byte>)
    ensures |r| % 4 == 0 && |r| >= |data| + 4 + |payload|
  {
    Padded(data + U32Bytes(|payload| * size) + payload)
  }

  /** A two-element array of a 2-byte format (4 payload bytes): the length
      field says 8 as written, where the 4 payload bytes end after 4. */
  lemma ArrayPrefixAsWritten(data: seq<byte>, payload: seq<byte>)
    requires |payload| == 4
    ensures U32Value(LengthPrefixedAsWritten(data, payload, 2)[|data|..|data| + 4]) == 8
    ensures U32Value(LengthPrefixed(data, payload)[|data|..|data| + 4]) == 4
  {
    var raw := data + U32Bytes(8) + payload;
    var r := LengthPrefixedAsWritten(data, payload, 2);
    assert r[..|raw|] == raw;
    assert r[|data|..|data| + 4] == raw[|data|..|data| + 4] == U32Bytes(8);
    U32RoundTrip(8);
    LengthPrefixedLayout(data, payload);
    U32RoundTrip(4);
  }

  // ---------------------------------------------------------------------------
  // The child loop
  // ---------------------------------------------------------------------------

  /** `WriteNode` as written: its loop runs over `element.Descendants()`,
      every element below the node in document order, and writes each with
      its whole subtree, so an element two levels down is written again after
      its parent has written it. */
  function NodeBytesAsWritten(s: Settings, b: seq<byte>, n: Node): (r: seq<byte>)
    ensures b <= r && |r| >= |b| + 2
    ensures r[|b|] == NodeControl(s, n) && r[|r| - 1] == WithBit6(NodeEndControl)
    decreases n, 2
  {
    var sorted := SortByName(n.attrs);
    var opening := OpenBytes(s, b, n);
    AttrsNodeShift(s, opening, sorted, |sorted|);
    var body := DescendantsBytesAsWritten(s, AttrsNodeBytes(s, opening, sorted, |sorted|), n, |n.children|);
    assert opening <= body;
    assert body[|b|] == opening[|b|];
    body + [WithBit6(NodeEndControl)]
  }

  /** The descendants loop of `n` through the subtrees of its first k
      children: each child, then every descendant of that child, each written
      in full. */
  function DescendantsBytesAsWritten(s: Settings, b: seq<byte>, n: Node, k: nat): (r: seq<byte>)
    requires k <= |n.children|
    ensures b <= r
    decreases n, 1, k
  {
    if k == 0 then b
    else
      var c := n.children[k - 1];
      var before := DescendantsBytesAsWritten(s, b, n, k - 1);
      DescendantsBytesAsWritten(s, NodeBytesAsWritten(s, before, c), c, |c.children|)
  }

  /** A chain a > b > c of empty elements in compressed mode: three elements
      take 6 node-stream bytes (a control byte and a NodeEnd each), but as
      written c is emitted twice and the stream takes 8. */
  lemma DescendantsAsWritten(s: Settings)
    requires s.compressed
    ensures var a := Node("a", "", [], [Node("b", "", [], [Node("c", "", [], [])])]);
            && |NodeBytes(s, [], a)| == 6
            && |NodeBytesAsWritten(s, [], a)| == 8
  {
    var c := Node("c", "", [], []);
    var b := Node("b", "", [], [c]);
    var a := Node("a", "", [], [b]);
    assert KidsSize(c, 0) == 0 && Size(c) == 1;
    assert KidsSize(b, 1) == Size(c) && Size(b) == 2;
    assert KidsSize(a, 1) == Size(b) && Size(a) == 3;
    assert NoAttributes(c) && NoAttributes(b) && NoAttributes(a);
    CompressedNodeLength(s, [], a);
    ChainAsWritten(s, a, b, c);
  }

  /** The node stream as written for the chain a > b > c, step by step. */
  lemma ChainAsWritten(s: Settings, a: Node, b: Node, c: Node)
    requires s.compressed
    requires c == Node("c", "", [], []) && b == Node("b", "", [], [c]) && a == Node("a", "", [], [b])
    ensures |NodeBytesAsWritten(s, [], a)| == 8
  {
    var end := [WithBit6(NodeEndControl)];
    assert SortByName([]) == [];
    var x := OpenBytes(s, [], a);
    var y := OpenBytes(s, x, b);
    assert |x| == 1 && |y| == 2;
    var y' := NodeBytesAsWritten(s, x, b);
    var z' := NodeBytesAsWritten(s, y, c);
    assert z' == OpenBytes(s, y, c) + end;
    assert y' == DescendantsBytesAsWritten(s, y, b, 1) + end;
    assert DescendantsBytesAsWritten(s, y, b, 1) == DescendantsBytesAsWritten(s, z', c, 0);
    var w := NodeBytesAsWritten(s, y', c);
    assert w == OpenBytes(s, y', c) + end;
    assert NodeBytesAsWritten(s, [], a) == DescendantsBytesAsWritten(s, x, a, 1) + end;
    assert DescendantsBytesAsWritten(s, x, a, 1) == DescendantsBytesAsWritten(s, y', b, 1);
    assert DescendantsBytesAsWritten(s, y', b, 1) == DescendantsBytesAsWritten(s, w, c, 0);
  }
}
