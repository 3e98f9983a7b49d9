/** The kbin writer as functions: what each step of `KBinWriter` does to the
    node stream, the data stream and the two slot cursors, and the document
    they are assembled into. The class in writer.dfy is proved to compute
    exactly these; the lemmas here state what the format promises of them. */
module Encoder {
  import opened Bytes
  import opened Text
  import opened Tree

  /** What a writer fixes at construction: the name mode, the text encoding's
      `GetBytes`, and the format registry. */
  datatype Settings = Settings(compressed: bool, encode: string -> seq<byte>, formats: seq<Format>)

  /** The data stream and the cursors of the 1-byte and the 2-byte slot
      classes into it. (The node stream never depends on these, so it is
      described on its own, by `NodeBytes`.) */
  datatype DataState = DataState(data: seq<byte>, byteSlot: nat, wordSlot: nat)

  const Fresh: DataState := DataState([], 0, 0)

  // Control bytes of the kbin format (defined with the reader, which is not
  // part of this model).
  const AttributeControl: byte := 0x2E
  const NodeEndControl: byte := 0xBE
  const SectionEndControl: byte := 0xBF

  // ---------------------------------------------------------------------------
  // Header
  // ---------------------------------------------------------------------------

  /** The four preamble bytes for an encoding table index: the signature,
      the name mode, `index << 5` and that value `^ 0xFF` (only the low eight
      bits of each reach the header). */
  function Header(compressed: bool, index: int): (r: seq<byte>)
    ensures |r| == 4
  {
    [0xA0, if compressed then 0x42 else 0x45, ToByte(index * 32), Complement(ToByte(index * 32))]
  }

  /** Byte 3 always complements byte 2, and a table index below 8 survives
      the shift into byte 2. */
  lemma HeaderFields(compressed: bool, index: int)
    ensures var h := Header(compressed, index);
            && h[0] == 0xA0 && h[1] == (if compressed then 0x42 else 0x45)
            && h[2] as int + h[3] as int == 0xFF
            && (0 <= index < 8 ==> h[2] as int == 32 * index)
  {
  }

  // ---------------------------------------------------------------------------
  // Names and control bytes
  // ---------------------------------------------------------------------------

  /** `(n - 1) | 64`, cut to a byte: bit 6 is set, and a length from 1 to 64
      comes back as the byte minus 0x3F. */
  function NameLengthByte(n: int): (r: byte)
    ensures HasBit6(r)
    ensures 1 <= n <= 64 ==> r as int - 0x3F == n
  {
    WithBit6Bits(ToByte(n - 1));
    WithBit6(ToByte(n - 1))
  }

  /** `WriteNodeName`: nothing in compressed mode (six-bit packing is not
      implemented); otherwise a length byte and the encoded name. */
  function NameBytes(s: Settings, name: string): (r: seq<byte>)
    ensures s.compressed ==> r == []
    ensures !s.compressed ==> |r| == 1 + |s.encode(name)| && r[1..] == s.encode(name)
  {
    if s.compressed then [] else [NameLengthByte(|s.encode(name)|)] + s.encode(name)
  }

  /** The length byte of a plain name has bit 6 set, and a reader gets the
      length back from it when it is between 1 and 64. */
  lemma NameLengthRecoverable(s: Settings, name: string)
    requires !s.compressed
    ensures HasBit6(NameBytes(s, name)[0])
    ensures 1 <= |s.encode(name)| <= 64 ==> NameBytes(s, name)[0] as int - 0x3F == |s.encode(name)|
  {
    WithBit6Bits(ToByte(|s.encode(name)| - 1));
  }

  /** `nodeId | isArray`, cut to a byte. For a six-bit format id the low six
      bits are the id, and bit 6 is set exactly for array nodes. */
  function ControlByte(f: Format, isArray: bool): (r: byte)
    ensures 0 <= f.id < 64 ==> Low6(r) as int == f.id && (HasBit6(r) <==> isArray)
  {
    WithBit6Bits(ToByte(f.id));
    if isArray then WithBit6(ToByte(f.id)) else ToByte(f.id)
  }

  // ---------------------------------------------------------------------------
  // Payloads
  // ---------------------------------------------------------------------------

  /** `value.Split(" ").Aggregate(new byte[0], (b, s) => b.Concat(...))`:
      the elements are appended in order, so the bytes of every leading run
      of pieces begin the result, and a single piece is its own bytes. */
  function NumericBytes(f: Format, pieces: seq<string>): (r: seq<byte>)
    ensures forall k :: 0 <= k <= |pieces| ==> NumericBytes(f, pieces[..k]) <= r
    ensures |pieces| == 1 ==> r == f.fromString(pieces[0])
  {
    if |pieces| == 0 then []
    else
      LeadingRuns(pieces);
      NumericBytes(f, pieces[..|pieces| - 1]) + f.fromString(pieces[|pieces| - 1])
  }

  /** A leading run shorter than `s` is a leading run of `s` without its
      last element. */
  lemma LeadingRuns(s: seq<string>)
    requires |s| > 0
    ensures forall k :: 0 <= k < |s| ==> s[..k] == s[..|s| - 1][..k]
    ensures s[..|s|] == s
  {
  }

  /** The element loop distributes over concatenation of the pieces. */
  lemma {:induction false} NumericConcat(f: Format, a: seq<string>, b: seq<string>)
    ensures NumericBytes(f, a + b) == NumericBytes(f, a) + NumericBytes(f, b)
    decreases |b|
  {
    if |b| == 0 {
      assert a + b == a;
    } else {
      var b' := b[..|b| - 1];
      assert (a + b)[..|a + b| - 1] == a + b';
      assert (a + b)[|a + b| - 1] == b[|b| - 1];
      NumericConcat(f, a, b');
    }
  }

  /** Assuming the codec writes `size` bytes per element, k elements take
      k * size bytes. */
  lemma {:induction false} NumericWidth(f: Format, pieces: seq<string>)
    ensures f.size >= 0 && (forall p :: |f.fromString(p)| == f.size) ==>
              |NumericBytes(f, pieces)| == f.size * |pieces|
  {
    if |pieces| > 0 && f.size >= 0 && (forall p :: |f.fromString(p)| == f.size) {
      var k := |pieces| - 1;
      NumericWidth(f, pieces[..k]);
      assert f.size * k + f.size == f.size * (k + 1);
    }
  }

  /** What a node's text becomes in binary: hex pairs for "bin", the encoded
      text for "str", the concatenated elements for numeric formats. */
  function Payload(s: Settings, f: Format, text: string): (r: seq<byte>)
    requires f.name == "bin" ==> HexDigits(text)
    ensures f.name == "bin" ==> |r| == |text| / 2
    ensures f.name != "bin" && f.name != "str" && f.size >= 0
              && (forall p :: |f.fromString(p)| == f.size) ==>
              |r| == f.size * |SplitOnSpace(text)|
  {
    NumericWidth(f, SplitOnSpace(text));
    if f.name == "bin" then HexBytes(text)
    else if f.name == "str" then s.encode(text)
    else NumericBytes(f, SplitOnSpace(text))
  }


  // ---------------------------------------------------------------------------
  // The data stream: length-prefixed payloads and shared slots
  // ---------------------------------------------------------------------------

  /** Where the two slot cursors may stand: the data stream is 4-aligned, both
      cursors lie within it, and the 2-byte cursor sits on an even offset. */
  predicate SlotInv(d: DataState)
  {
    && |d.data| % 4 == 0
    && d.byteSlot <= |d.data|
    && d.wordSlot <= |d.data| && EvenOffset(d.wordSlot)
  }

  lemma PadCountShift(a: nat, b: nat)
    ensures a % 4 == 0 ==> PadCount(a + b) == PadCount(b)
  {
  }

  /** A 4-byte length, the payload, then zero padding to a 4-byte boundary. */
  function LengthPrefixed(data: seq<byte>, payload: seq<byte>): (r: seq<byte>)
    ensures |r| % 4 == 0
    ensures |data| + 4 + |payload| <= |r| < |data| + 8 + |payload|
    ensures |data| % 4 == 0 ==> |r| == |data| + 4 + |payload| + PadCount(|payload|)
  {
    PadCountShift(|data| + 4, |payload|);
    Padded(data + U32Bytes(|payload|) + payload)
  }

  /** Where a reader finds the length and the payload, and that the rest is
      the old stream and zero padding. */
  lemma LengthPrefixedLayout(data: seq<byte>, payload: seq<byte>)
    ensures var r := LengthPrefixed(data, payload);
            && r[..|data|] == data
            && U32Value(r[|data|..|data| + 4]) == |payload| % TwoTo32
            && r[|data| + 4..|data| + 4 + |payload|] == payload
            && forall i :: |data| + 4 + |payload| <= i < |r| ==> r[i] == 0
  {
    var raw := data + U32Bytes(|payload|) + payload;
    var r := LengthPrefixed(data, payload);
    assert r[..|raw|] == raw;
    assert r[..|data|] == raw[..|data|];
    assert r[|data|..|data| + 4] == raw[|data|..|data| + 4] == U32Bytes(|payload|);
    assert r[|data| + 4..|data| + 4 + |payload|] == raw[|data| + 4..];
    U32RoundTrip(|payload|);
  }

  /** An open slot has room for the value: a 1-byte value anywhere inside
      it, a 2-byte value at its even offset. */
  lemma SlotRoom(cursor: nat, n: nat, w: nat)
    requires n % 4 == 0 && cursor <= n && cursor % 4 != 0
    requires w == 1 || (w == 2 && EvenOffset(cursor))
    ensures cursor + w <= n
  {
    var q := cursor / 4;
    assert cursor == 4 * q + cursor % 4;
    assert n == 4 * (n / 4);
    assert q < n / 4;
  }

  /** A 1-byte or 2-byte value `v` written through a slot cursor: when the
      cursor is on a 4-byte boundary a zero-filled slot is appended and `v`
      goes at its start; otherwise `v` replaces the bytes at the cursor and
      the length is unchanged. The cursor ends just after `v`. */
  function SlotWrite(data: seq<byte>, cursor: nat, v: seq<byte>): (r: (seq<byte>, nat))
    requires |data| % 4 == 0 && cursor <= |data| && 1 <= |v| <= 2
    requires |v| == 2 ==> EvenOffset(cursor)
    ensures |r.0| % 4 == 0 && |data| <= |r.0| && r.1 <= |r.0|
    ensures |v| == 2 ==> EvenOffset(r.1)
  {
    if cursor % 4 == 0 then
      SlotOpens(|data|, |v|);
      (data + v + Zeros(4 - |v|), |data| + |v|)
    else
      SlotRoom(cursor, |data|, |v|);
      SlotAdvances(cursor, |v|);
      (data[..cursor] + v + data[cursor + |v|..], cursor + |v|)
  }

  /** A slot opened at the 4-aligned end `n` keeps the stream aligned, and a
      2-byte value written at its start leaves the cursor even. */
  lemma SlotOpens(n: nat, w: nat)
    requires n % 4 == 0 && 1 <= w <= 2
    ensures (n + w + (4 - w)) % 4 == 0
    ensures w == 2 ==> EvenOffset(n + w)
  {
  }

  /** A 2-byte value written at an even offset leaves the cursor even. */
  lemma SlotAdvances(cursor: nat, w: nat)
    requires w == 2 ==> EvenOffset(cursor)
    ensures w == 2 ==> EvenOffset(cursor + w)
  {
  }

  /** What a slot write means for a reader: the stream grows by a whole slot
      or not at all, `v` sits at the slot position, the cursor follows it,
      and every other byte is the old byte or a fresh zero. */
  predicate PlacedInSlot(data: seq<byte>, cursor: nat, v: seq<byte>, data': seq<byte>, cursor': nat)
  {
    var at := if cursor % 4 == 0 then |data| else cursor;
    && |data'| == (if cursor % 4 == 0 then |data| + 4 else |data|)
    && at + |v| <= |data'|
    && data'[at..at + |v|] == v
    && cursor' == at + |v|
    && forall i :: 0 <= i < |data'| && !(at <= i < at + |v|) ==>
         data'[i] == (if i < |data| then data[i] else 0)
  }

  lemma SlotWritePlaces(data: seq<byte>, cursor: nat, v: seq<byte>)
    requires |data| % 4 == 0 && cursor <= |data| && 1 <= |v| <= 2
    requires |v| == 2 ==> EvenOffset(cursor)
    ensures var r := SlotWrite(data, cursor, v);
            PlacedInSlot(data, cursor, v, r.0, r.1)
  {
    var r := SlotWrite(data, cursor, v);
    if cursor % 4 == 0 {
      var z := Zeros(4 - |v|);
      assert r.0 == data + v + z;
      assert r.0[|data|..|data| + |v|] == v;
      forall i | 0 <= i < |r.0| && !(|data| <= i < |data| + |v|)
        ensures r.0[i] == (if i < |data| then data[i] else 0)
      {
        if i >= |data| + |v| {
          assert r.0[i] == z[i - |data| - |v|];
        }
      }
    } else {
      SlotRoom(cursor, |data|, |v|);
      assert r.0 == data[..cursor] + v + data[cursor + |v|..];
      assert r.0[cursor..cursor + |v|] == v;
    }
  }

  /** `WriteDataAligned` as intended. First a cursor standing on a slot
      boundary is moved to the end of the data stream; then a payload of total
      size 1 or 2 goes into a slot of its class, and any other size is
      appended and realigned. */
  function Pack(d: DataState, payload: seq<byte>, total: int): (r: DataState)
    requires SlotInv(d)
    requires total == 1 ==> |payload| >= 1
    requires total == 2 ==> |payload| >= 2
    ensures SlotInv(r)
    ensures total != 1 ==> r.byteSlot == if d.byteSlot % 4 == 0 then |d.data| else d.byteSlot
    ensures total != 2 ==> r.wordSlot == if d.wordSlot % 4 == 0 then |d.data| else d.wordSlot
    ensures total != 1 && total != 2 ==> r.data == Padded(d.data + payload)
  {
    var byteSlot := if d.byteSlot % 4 == 0 then |d.data| else d.byteSlot;
    var wordSlot := if d.wordSlot % 4 == 0 then |d.data| else d.wordSlot;
    if total == 1 then
      var (data, cursor) := SlotWrite(d.data, byteSlot, payload[..1]);
      DataState(data, cursor, wordSlot)
    else if total == 2 then
      var (data, cursor) := SlotWrite(d.data, wordSlot, payload[..2]);
      DataState(data, byteSlot, cursor)
    else
      DataState(Padded(d.data + payload), byteSlot, wordSlot)
  }

  /** A 1-byte or 2-byte scalar is placed through the cursor of its own class
      (and never touches the other class's cursor). */
  lemma PackPlaces(d: DataState, payload: seq<byte>, total: int)
    requires SlotInv(d) && (total == 1 || total == 2) && |payload| >= total
    ensures var r := Pack(d, payload, total);
            && (total == 1 ==> PlacedInSlot(d.data, d.byteSlot, payload[..1], r.data, r.byteSlot))
            && (total == 2 ==> PlacedInSlot(d.data, d.wordSlot, payload[..2], r.data, r.wordSlot))
  {
    if total == 1 {
      var c := if d.byteSlot % 4 == 0 then |d.data| else d.byteSlot;
      SlotWritePlaces(d.data, c, payload[..1]);
    } else {
      var c := if d.wordSlot % 4 == 0 then |d.data| else d.wordSlot;
      SlotWritePlaces(d.data, c, payload[..2]);
    }
  }

  /** A scalar payload holds the bytes its slot write reads (`data[0]`,
      `data[..2]`). */
  predicate RoutableScalar(f: Format, payload: seq<byte>)
  {
    && (f.size * f.count == 1 ==> |payload| >= 1)
    && (f.size * f.count == 2 ==> |payload| >= 2)
  }

  /** The lines that route a node's payload: arrays and variable-arity
      formats are length-prefixed, everything else goes through `Pack`. */
  function StoreValue(d: DataState, f: Format, isArray: bool, payload: seq<byte>): (r: DataState)
    requires SlotInv(d)
    requires !(isArray || f.count == -1) ==> RoutableScalar(f, payload)
    ensures SlotInv(r) && |r.data| >= |d.data|
  {
    if isArray || f.count == -1 then d.(data := LengthPrefixed(d.data, payload))
    else Pack(d, payload, f.size * f.count)
  }

  // ---------------------------------------------------------------------------
  // What slot packing saves
  // ---------------------------------------------------------------------------

  /** One 1-byte scalar into the slot `d.data[base..base + 4]`, whose first
      k bytes are taken: it becomes byte k of the slot. */
  lemma ByteJoinsSlot(d: DataState, before: seq<byte>, slot: seq<byte>, k: nat, x: byte)
    requires SlotInv(d) && |slot| == 4 && 1 <= k < 4
    requires d.data == before + slot && d.byteSlot == |before| + k
    ensures var r := Pack(d, [x], 1);
            r.data == before + (slot[..k] + [x] + slot[k + 1..]) && r.byteSlot == |before| + k + 1
  {
    assert [x][..1] == [x];
    assert |before| % 4 == 0;
    AlignedShift(|before|, k);
    assert (d.data[..|before| + k] + [x] + d.data[|before| + k + 1..]) == before + (slot[..k] + [x] + slot[k + 1..]);
  }

  /** Four 1-byte scalars written while no 1-byte slot is open share one new
      slot: the data stream grows by exactly 4 bytes, which hold the values in
      order, and the slot is full again afterwards. */
  lemma FourBytesShareASlot(d: DataState, a: byte, b: byte, c: byte, e: byte)
    requires SlotInv(d) && d.byteSlot % 4 == 0
    ensures var r := Pack(Pack(Pack(Pack(d, [a], 1), [b], 1), [c], 1), [e], 1);
            r.data == d.data + [a, b, c, e] && r.byteSlot == |r.data|
  {
    var n := |d.data|;
    assert [a][..1] == [a];
    var d1 := Pack(d, [a], 1);
    assert d1.data == d.data + [a, 0, 0, 0] && d1.byteSlot == n + 1;
    ByteJoinsSlot(d1, d.data, [a, 0, 0, 0], 1, b);
    var d2 := Pack(d1, [b], 1);
    assert [a, 0, 0, 0][..1] + [b] + [a, 0, 0, 0][2..] == [a, b, 0, 0];
    ByteJoinsSlot(d2, d.data, [a, b, 0, 0], 2, c);
    var d3 := Pack(d2, [c], 1);
    assert [a, b, 0, 0][..2] + [c] + [a, b, 0, 0][3..] == [a, b, c, 0];
    ByteJoinsSlot(d3, d.data, [a, b, c, 0], 3, e);
    assert [a, b, c, 0][..3] + [e] + [a, b, c, 0][4..] == [a, b, c, e];
  }

  /** Two 2-byte scalars share one slot: 4 bytes of growth in all. */
  lemma TwoWordsShareASlot(d: DataState, a: seq<byte>, b: seq<byte>)
    requires SlotInv(d) && d.wordSlot % 4 == 0
    requires |a| == 2 && |b| == 2
    ensures var r := Pack(Pack(d, a, 2), b, 2);
            r.data == d.data + a + b && r.wordSlot == |r.data|
  {
    var n := |d.data|;
    assert a[..2] == a && b[..2] == b;
    var d1 := Pack(d, a, 2);
    assert d1.data == d.data + a + [0, 0] && d1.wordSlot == n + 2;
  }

  /** A 1-byte scalar then a 4-byte scalar: the byte opens a slot, the 4-byte
      value bypasses the packer and lands after it, 8 bytes in all. */
  lemma ByteThenFourBytes(d: DataState, a: byte, w: seq<byte>)
    requires SlotInv(d) && d.byteSlot % 4 == 0
    requires |w| == 4
    ensures var r := Pack(Pack(d, [a], 1), w, 4);
            r.data == d.data + [a, 0, 0, 0] + w
  {
    assert [a][..1] == [a];
    var d1 := Pack(d, [a], 1);
    assert d1.data == d.data + [a, 0, 0, 0];
  }

  /** The two slot classes are independent: a byte, a word, then another byte
      fill two slots, the second byte joining the first. */
  lemma ByteAndWordSlotsInterleave(d: DataState, a: byte, w: seq<byte>, b: byte)
    requires SlotInv(d) && d.byteSlot % 4 == 0 && d.wordSlot % 4 == 0
    requires |w| == 2
    ensures var r := Pack(Pack(Pack(d, [a], 1), w, 2), [b], 1);
            r.data == d.data + [a, b, 0, 0] + w + [0, 0]
  {
    var n := |d.data|;
    assert [a][..1] == [a] && [b][..1] == [b] && w[..2] == w;
    var d1 := Pack(d, [a], 1);
    assert d1.data == d.data + [a, 0, 0, 0] && d1.byteSlot == n + 1 && d1.wordSlot == n;
    var d2 := Pack(d1, w, 2);
    assert d2.data == d.data + [a, 0, 0, 0] + w + [0, 0] && d2.byteSlot == n + 1;
  }

  /** A 5-byte string value: a 4-byte prefix of 5, the bytes, 3 zero bytes;
      12 bytes of growth. */
  lemma FiveByteString(data: seq<byte>, v: seq<byte>)
    requires |data| % 4 == 0 && |v| == 5
    ensures LengthPrefixed(data, v) == data + U32Bytes(5) + v + [0, 0, 0]
    ensures |LengthPrefixed(data, v)| == |data| + 12
  {
    var r := LengthPrefixed(data, v);
    assert r[|data| + 9..] == [0, 0, 0];
    assert r == r[..|data|] + r[|data|..|data| + 4] + r[|data| + 4..|data| + 9] + r[|data| + 9..];
  }

  // ---------------------------------------------------------------------------
  // Nodes
  // ---------------------------------------------------------------------------

  /** The conditions under which the writer does not throw on node `n` itself:
      its type resolves, its `__count` parses, a "bin" text is hex, and a
      scalar payload is long enough for its slot write. */
  predicate NodeOk(s: Settings, n: Node)
  {
    var found := FindFormat(s.formats, TypeName(n));
    && found.Some?
    && (IsArray(n) ==> ParsesAsInt(Lookup(n.attrs, "__count").value))
    && (TypeName(n) != "void" ==>
          var f := s.formats[found.value];
          && (f.name == "bin" ==> HexDigits(n.text))
          && (!(IsArray(n) || f.count == -1) ==> RoutableScalar(f, Payload(s, f, n.text))))
  }

  /** Every node of the tree is writable. */
  predicate Encodable(s: Settings, n: Node)
  {
    NodeOk(s, n) && forall i :: 0 <= i < |n.children| ==> Encodable(s, n.children[i])
  }

  function NodeFormat(s: Settings, n: Node): Format
    requires NodeOk(s, n)
  {
    s.formats[FindFormat(s.formats, TypeName(n)).value]
  }

  /** The value part of `WriteNode`: nothing for a "void" node, otherwise the
      payload routed by `StoreValue`. */
  function NodeValue(s: Settings, d: DataState, n: Node): (r: DataState)
    requires NodeOk(s, n) && SlotInv(d)
    ensures SlotInv(r) && |r.data| >= |d.data|
  {
    if TypeName(n) == "void" then d
    else
      var f := NodeFormat(s, n);
      StoreValue(d, f, IsArray(n), Payload(s, f, n.text))
  }

  /** What the type rule means for the data stream: a node with neither a
      `__type` attribute nor text is "void" and adds nothing to it, while a
      typed array or variable-length value adds at least its length field. */
  lemma TypeSelection(s: Settings, d: DataState, n: Node)
    requires NodeOk(s, n) && SlotInv(d)
    ensures Lookup(n.attrs, "__type").None? && |n.text| == 0 ==> NodeValue(s, d, n) == d
    ensures TypeName(n) == "void" ==> NodeValue(s, d, n) == d
    ensures TypeName(n) != "void" && (IsArray(n) || NodeFormat(s, n).count == -1) ==>
              |NodeValue(s, d, n).data| >= |d.data| + 4
  {
  }

  /** The data-stream part of one turn of the attribute loop: a reserved `__`
      name is skipped, any other attribute's value is length-prefixed. */
  function AttrData(s: Settings, d: DataState, a: Attr): (r: DataState)
    requires SlotInv(d)
    ensures SlotInv(r)
  {
    if StartsWith(a.name, "__") then d
    else d.(data := LengthPrefixed(d.data, s.encode(a.value)))
  }

  /** The data stream after the first k turns of the attribute loop. */
  function AttrsData(s: Settings, d: DataState, attrs: seq<Attr>, k: nat): (r: DataState)
    requires SlotInv(d) && k <= |attrs|
    ensures SlotInv(r)
  {
    if k == 0 then d else AttrData(s, AttrsData(s, d, attrs, k - 1), attrs[k - 1])
  }

  /** The data stream after `WriteNode(n)`: the value, the attributes in name
      order, then every child in turn. */
  function DataWalk(s: Settings, d: DataState, n: Node): (r: DataState)
    requires Encodable(s, n) && SlotInv(d)
    ensures SlotInv(r)
    decreases n, 1
  {
    var sorted := SortByName(n.attrs);
    var d1 := AttrsData(s, NodeValue(s, d, n), sorted, |sorted|);
    KidsData(s, d1, n, |n.children|)
  }

  /** The data stream after the first k turns of the child loop of `n`. */
  function KidsData(s: Settings, d: DataState, n: Node, k: nat): (r: DataState)
    requires Encodable(s, n) && SlotInv(d) && k <= |n.children|
    ensures SlotInv(r)
    decreases n, 0, k
  {
    if k == 0 then d else DataWalk(s, KidsData(s, d, n, k - 1), n.children[k - 1])
  }

  /** The node-stream part of one turn of the attribute loop: the Attribute
      control byte and the name, unless the name is reserved. */
  function AttrNodeBytes(s: Settings, a: Attr): seq<byte>
  {
    if StartsWith(a.name, "__") then [] else [AttributeControl] + NameBytes(s, a.name)
  }

  /** The node stream `b` after the attribute loop's first k turns. */
  function AttrsNodeBytes(s: Settings, b: seq<byte>, attrs: seq<Attr>, k: nat): seq<byte>
    requires k <= |attrs|
  {
    if k == 0 then b else AttrsNodeBytes(s, b, attrs, k - 1) + AttrNodeBytes(s, attrs[k - 1])
  }

  /** The control byte `WriteNode` opens `n` with: its format's id, with bit
      6 set for an array node. A type no format answers to has none (the
      writer throws before writing it), and 0 stands in for it here. */
  function NodeControl(s: Settings, n: Node): byte
  {
    match FindFormat(s.formats, TypeName(n))
    case Some(i) => ControlByte(s.formats[i], IsArray(n))
    case None => 0
  }

  /** The opening of `WriteNode` in the node stream: control byte and name. */
  function OpenBytes(s: Settings, b: seq<byte>, n: Node): seq<byte>
  {
    b + [NodeControl(s, n)] + NameBytes(s, n.name)
  }

  /** The node stream `b` after `WriteNode(n)`: its opening, the attribute
      markers and names in name order, each child's bytes once and in order,
      and NodeEnd. */
  function NodeBytes(s: Settings, b: seq<byte>, n: Node): (r: seq<byte>)
    ensures b <= r && |r| >= |b| + 2
    ensures r[|b|] == NodeControl(s, n) && r[|r| - 1] == WithBit6(NodeEndControl)
    decreases n, 1
  {
    var sorted := SortByName(n.attrs);
    var opening := OpenBytes(s, b, n);
    AttrsNodeShift(s, opening, sorted, |sorted|);
    var body := KidsNodeBytes(s, AttrsNodeBytes(s, opening, sorted, |sorted|), n, |n.children|);
    assert opening <= body;
    assert body[|b|] == opening[|b|];
    body + [WithBit6(NodeEndControl)]
  }

  /** The node stream `b` after the first k turns of the child loop of `n`. */
  function KidsNodeBytes(s: Settings, b: seq<byte>, n: Node, k: nat): (r: seq<byte>)
    requires k <= |n.children|
    ensures b <= r
    decreases n, 0, k
  {
    if k == 0 then b else NodeBytes(s, KidsNodeBytes(s, b, n, k - 1), n.children[k - 1])
  }

  /** Every element is written exactly once: in compressed mode a tree
      without attributes takes two node-stream bytes per element, its control
      byte and its NodeEnd. */
  lemma {:induction false} CompressedNodeLength(s: Settings, b: seq<byte>, n: Node)
    requires s.compressed && NoAttributes(n)
    ensures |NodeBytes(s, b, n)| == |b| + 2 * Size(n)
    decreases n, 1
  {
    assert SortByName(n.attrs) == [];
    CompressedKidsLength(s, OpenBytes(s, b, n), n, |n.children|);
  }

  lemma {:induction false} CompressedKidsLength(s: Settings, b: seq<byte>, n: Node, k: nat)
    requires s.compressed && NoAttributes(n) && k <= |n.children|
    ensures |KidsNodeBytes(s, b, n, k)| == |b| + 2 * KidsSize(n, k)
    decreases n, 0, k
  {
    if k > 0 {
      CompressedKidsLength(s, b, n, k - 1);
      ChildIsSmaller(n, k - 1);
      CompressedNodeLength(s, KidsNodeBytes(s, b, n, k - 1), n.children[k - 1]);
    }
  }

  /** The attribute loop only appends to the node stream: what it writes
      does not depend on what the stream held before. */
  lemma {:induction false} AttrsNodeShift(s: Settings, b: seq<byte>, attrs: seq<Attr>, k: nat)
    requires k <= |attrs|
    ensures AttrsNodeBytes(s, b, attrs, k) == b + AttrsNodeBytes(s, [], attrs, k)
  {
    if k > 0 {
      var e := AttrsNodeBytes(s, [], attrs, k - 1);
      var x := AttrNodeBytes(s, attrs[k - 1]);
      AttrsNodeShift(s, b, attrs, k - 1);
      assert AttrsNodeBytes(s, b, attrs, k) == (b + e) + x;
      assert AttrsNodeBytes(s, [], attrs, k) == e + x;
      AppendAssoc(b, e, x);
    }
  }

  // ---------------------------------------------------------------------------
  // The document
  // ---------------------------------------------------------------------------

  /** The node stream as it stands when the header takes its length: the
      root's bytes, SectionEnd, realignment. */
  function NodeSection(s: Settings, root: Node): (r: seq<byte>)
    requires Encodable(s, root)
    ensures |r| % 4 == 0 && |NodeBytes(s, [], root)| < |r|
  {
    Padded(NodeBytes(s, [], root) + [WithBit6(SectionEndControl)])
  }

  /** The data stream once the root is written: 4-aligned. */
  function DataSection(s: Settings, root: Node): (r: seq<byte>)
    requires Encodable(s, root)
    ensures |r| % 4 == 0
  {
    DataWalk(s, Fresh, root).data
  }

  /** `Document`: the header buffer (preamble and node-stream length), the
      node buffer (node stream and the data length as its trailing field),
      the data buffer. */
  function Document(s: Settings, index: int, root: Node): (r: seq<byte>)
    requires Encodable(s, root)
    ensures |r| == 12 + |NodeSection(s, root)| + |DataSection(s, root)| && |r| % 4 == 0
    ensures r[..4] == Header(s.compressed, index)
  {
    var nodes := NodeSection(s, root);
    var data := DataSection(s, root);
    var r := Assemble(Header(s.compressed, index), nodes, data);
    AlignedSum(|nodes|, |data|, |r|);
    r
  }

  lemma AlignedSum(a: nat, b: nat, n: nat)
    requires a % 4 == 0 && b % 4 == 0 && n == 12 + a + b
    ensures n % 4 == 0
  {
  }

  /** The header buffer, the node buffer and the data buffer concatenated:
      the header comes first, and the two length fields add 8 bytes. */
  function Assemble(h: seq<byte>, nodes: seq<byte>, data: seq<byte>): (r: seq<byte>)
    requires |h| == 4
    ensures |r| == 12 + |nodes| + |data| && r[..4] == h
  {
    var front := h + U32Bytes(|nodes|);
    assert front[..4] == h;
    front + (nodes + U32Bytes(|data|)) + data
  }

  /** Where a reader finds each part of a document, and that both streams
      are 4-aligned. The header's length field counts the node stream up to
      its realignment, without the trailing data-length field. */
  lemma DocumentLayout(s: Settings, index: int, root: Node)
    requires Encodable(s, root)
    ensures var d := Document(s, index, root);
            var nodes := NodeSection(s, root);
            var data := DataSection(s, root);
            var m := 8 + |nodes|;
            && |d| == m + 4 + |data|
            && d[..4] == Header(s.compressed, index)
            && U32Value(d[4..8]) == |nodes| % TwoTo32
            && d[8..m] == nodes
            && U32Value(d[m..m + 4]) == |data| % TwoTo32
            && d[m + 4..] == data
            && |nodes| % 4 == 0 && |data| % 4 == 0
  {
    Framing(Header(s.compressed, index), NodeSection(s, root), DataSection(s, root));
  }

  /** The field positions of `Document`, for any header and streams. */
  lemma Framing(h: seq<byte>, nodes: seq<byte>, data: seq<byte>)
    requires |h| == 4
    ensures var d := (h + U32Bytes(|nodes|)) + (nodes + U32Bytes(|data|)) + data;
            var m := 8 + |nodes|;
            && |d| == m + 4 + |data|
            && d[..4] == h
            && U32Value(d[4..8]) == |nodes| % TwoTo32
            && d[8..m] == nodes
            && U32Value(d[m..m + 4]) == |data| % TwoTo32
            && d[m + 4..] == data
  {
    var d := (h + U32Bytes(|nodes|)) + (nodes + U32Bytes(|data|)) + data;
    var m := 8 + |nodes|;
    U32RoundTrip(|nodes|);
    U32RoundTrip(|data|);
    assert d[4..8] == U32Bytes(|nodes|);
    assert d[8..m] == nodes;
    assert d[m..m + 4] == U32Bytes(|data|);
    assert d[m + 4..] == data;
  }

  /** The node stream opens with the root's control byte, holds the root's
      bytes closed by NodeEnd, then the SectionEnd marker, then at most three
      zero bytes. */
  lemma NodeSectionShape(s: Settings, root: Node)
    requires Encodable(s, root)
    ensures var nodes := NodeSection(s, root);
            var body := NodeBytes(s, [], root);
            && |body| < |nodes| < |body| + 5
            && nodes[..|body|] == body
            && nodes[|body|] == WithBit6(SectionEndControl)
            && (forall i :: |body| < i < |nodes| ==> nodes[i] == 0)
            && body[|body| - 1] == WithBit6(NodeEndControl)
  {
    var body := NodeBytes(s, [], root);
    var raw := body + [WithBit6(SectionEndControl)];
    assert NodeSection(s, root)[..|raw|] == raw;
    assert raw[..|body|] == body;
  }
}
