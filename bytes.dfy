/** Byte-level vocabulary of the kbin writer: the truncating byte cast, the
    4-byte encoding of 32-bit fields, zero padding to 4-byte boundaries and the
    overwrite-or-extend write that a `ByteBuffer` performs at its cursor. */
module Bytes {

  /** An unsigned 8-bit value. */
  newtype byte = x: int | 0 <= x < 256

  const TwoTo32: int := 0x1_0000_0000

  /** C#'s unchecked `(byte)` cast: the low eight bits of a two's-complement
      integer. Dafny's `%` is Euclidean, so a negative input wraps as in C#. */
  function ToByte(x: int): (b: byte)
    ensures b as int == x % 256
    ensures -0x8000_0000 <= x < 0 ==> b as int == (x + TwoTo32) % 256
    ensures 0 <= x < 256 ==> b as int == x
  {
    (x % 256) as byte
  }

  /** The cast sees only the low eight bits: adding 256 changes nothing. */
  lemma ToBytePeriodic(x: int)
    ensures ToByte(x + 256) == ToByte(x)
  {
  }

  /** A byte cast back to a byte is itself. */
  lemma ToByteOfByte(b: byte)
    ensures ToByte(b as int) == b
  {
  }

  // The three bit operations the writer applies to bytes, written out on the
  // byte's value.

  /** Bit 6 (0x40) of `x`. */
  predicate HasBit6(x: byte)
  {
    (x as int / 64) % 2 == 1
  }

  /** `x | 0x40`. */
  function WithBit6(x: byte): byte
  {
    if HasBit6(x) then x else x + 64
  }

  /** `WithBit6` sets bit 6 and keeps every other bit. */
  lemma WithBit6Bits(x: byte)
    ensures HasBit6(WithBit6(x))
    ensures WithBit6(x) as int % 64 == x as int % 64
    ensures WithBit6(x) as int / 128 == x as int / 128
  {
  }

  /** Bit k of `x` (0 is the least significant). */
  function Bit(x: int, k: nat): int
    decreases k
  {
    if k == 0 then x % 2 else Bit(x / 2, k - 1)
  }

  /** Bit k of a byte. */
  function ByteBit(x: byte, k: nat): int
  {
    Bit(x as int, k)
  }

  /** `x ^ 0xFF`: every bit flipped. */
  function Complement(x: byte): (r: byte)
    ensures forall k: nat :: k < 8 ==> ByteBit(r, k) == 1 - ByteBit(x, k)
  {
    assert AllOnes(8) == 255;
    forall k: nat | k < 8 ensures ByteBit(255 - x, k) == 1 - ByteBit(x, k) {
      FlipsLowBits(8, x as int, k);
    }
    255 - x
  }

  /** The number whose j low bits are all set: 2^j - 1. */
  function AllOnes(j: nat): nat
  {
    if j == 0 then 0 else 2 * AllOnes(j - 1) + 1
  }

  /** Subtracting from 2^j - 1 flips each of the j low bits. */
  lemma {:induction false} FlipsLowBits(j: nat, x: int, k: nat)
    requires 0 <= x <= AllOnes(j) && k < j
    ensures Bit(AllOnes(j) - x, k) == 1 - Bit(x, k)
  {
    var half := AllOnes(j - 1);
    assert AllOnes(j) - x == 2 * (half - x / 2) + (1 - x % 2);
    if k > 0 {
      FlipsLowBits(j - 1, x / 2, k - 1);
    }
  }

  /** `x & 0x3F`: the low six bits. */
  function Low6(x: byte): (r: byte)
    ensures r < 64
  {
    x % 64
  }

  /** The four bytes written for a 32-bit field holding `x` (its low 32 bits).
      The byte order is not visible in the writer; most significant byte first
      is assumed, and only the width and `U32RoundTrip` are relied upon. */
  function U32Bytes(x: int): (r: seq<byte>)
    ensures |r| == 4
  {
    var v := x % TwoTo32;
    var q1 := v / 256;
    var q2 := q1 / 256;
    var q3 := q2 / 256;
    [ToByte(q3), ToByte(q2), ToByte(q1), ToByte(v)]
  }

  /** The unsigned value a reader recovers from a 4-byte field. */
  function U32Value(b: seq<byte>): nat
    requires |b| == 4
  {
    b[0] as int * 0x100_0000 + b[1] as int * 0x1_0000 + b[2] as int * 0x100 + b[3] as int
  }

  /** A 32-bit field gives back its value modulo 2^32. */
  lemma U32RoundTrip(x: int)
    ensures U32Value(U32Bytes(x)) == x % TwoTo32
  {
    var v := x % TwoTo32;
    var q1 := v / 256;
    var q2 := q1 / 256;
    var q3 := q2 / 256;
    var b := U32Bytes(x);
    assert b[0] as int == q3 % 256 == q3;
    assert b[1] as int == q2 % 256;
    assert b[2] as int == q1 % 256;
    assert b[3] as int == v % 256;
    assert v == 256 * q1 + v % 256;
    assert q1 == 256 * q2 + q1 % 256;
    assert q2 == 256 * q3 + q2 % 256;
  }

  function Zeros(n: nat): (r: seq<byte>)
    ensures |r| == n && forall i :: 0 <= i < n ==> r[i] == 0
  {
    seq(n, _ => 0)
  }

  /** How many zero bytes bring a length of `n` up to a multiple of 4. */
  function PadCount(n: nat): (k: nat)
    ensures k < 4 && (n + k) % 4 == 0
  {
    (4 - n % 4) % 4
  }

  /** Moving by a multiple of 4 keeps the position within a 4-byte slot. */
  lemma AlignedShift(a: int, k: int)
    requires a % 4 == 0
    ensures (a + k) % 4 == k % 4
  {
  }

  /** An even offset, told from its position within a 4-byte slot. */
  predicate EvenOffset(c: int)
  {
    c % 4 == 0 || c % 4 == 2
  }

  /** `s` followed by the fewest zero bytes that make its length a multiple of 4
      (what `RealignWrite` leaves behind). */
  function Padded(s: seq<byte>): (r: seq<byte>)
    ensures |r| % 4 == 0 && |s| <= |r| < |s| + 4
    ensures r[..|s|] == s
    ensures forall i :: |s| <= i < |r| ==> r[i] == 0
    ensures |s| % 4 == 0 ==> r == s
  {
    s + Zeros(PadCount(|s|))
  }

  /** Writing `b` at position `off` of `s`: the bytes at off.. are replaced, and
      the sequence grows only where the write runs past its end. */
  function Overwrite(s: seq<byte>, off: nat, b: seq<byte>): (r: seq<byte>)
    requires off <= |s|
    ensures |r| == if off + |b| < |s| then |s| else off + |b|
    ensures r[..off] == s[..off]
    ensures r[off..off + |b|] == b
    ensures forall i :: off + |b| <= i < |s| ==> r[i] == s[i]
  {
    s[..off] + b + (if off + |b| < |s| then s[off + |b|..] else [])
  }

  /** An overwrite at the very end is an append. */
  lemma OverwriteAtEnd(s: seq<byte>, b: seq<byte>)
    ensures Overwrite(s, |s|, b) == s + b
  {
  }

  lemma AppendAssoc(a: seq<byte>, b: seq<byte>, c: seq<byte>)
    ensures a + (b + c) == (a + b) + c
  {
  }
}
