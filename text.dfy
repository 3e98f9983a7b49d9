/** String vocabulary of the kbin writer: `StartsWith`, `Split(" ")`, the
    two-character hex parse that `Convert.ToByte(…, 16)` performs, and the
    order `OrderBy` sorts attribute names in. */
module Text {
  import opened Bytes

  /** `s.StartsWith(prefix)`, compared character by character. */
  predicate StartsWith(s: string, prefix: string)
  {
    |prefix| <= |s| && s[..|prefix|] == prefix
  }

  // ---------------------------------------------------------------------------
  // value.Split(" ")
  // ---------------------------------------------------------------------------

  /** `s.Split(" ")`: the pieces between single spaces, empty pieces included,
      so there is always at least one piece. */
  function SplitOnSpace(s: string): (r: seq<string>)
    ensures |r| >= 1
    ensures forall i :: 0 <= i < |r| ==> ' ' !in r[i]
  {
    if |s| == 0 then [""]
    else
      var rest := SplitOnSpace(s[1..]);
      if s[0] == ' ' then [""] + rest
      else [[s[0]] + rest[0]] + rest[1..]
  }

  /** The inverse of `SplitOnSpace`: the pieces joined by single spaces. */
  function JoinWithSpace(ps: seq<string>): string
    requires |ps| >= 1
  {
    if |ps| == 1 then ps[0] else ps[0] + " " + JoinWithSpace(ps[1..])
  }

  /** Splitting loses nothing: joining the pieces gives the text back. */
  lemma {:induction false} JoinSplit(s: string)
    ensures JoinWithSpace(SplitOnSpace(s)) == s
  {
    if |s| > 0 {
      var rest := SplitOnSpace(s[1..]);
      JoinSplit(s[1..]);
      if s[0] == ' ' {
        assert ([""] + rest)[1..] == rest;
      } else {
        var r := [[s[0]] + rest[0]] + rest[1..];
        if |rest| > 1 {
          assert r[1..] == rest[1..];
          assert JoinWithSpace(rest) == rest[0] + " " + JoinWithSpace(rest[1..]);
        }
      }
    }
  }

  /** Splitting a space-free prefix glued to `t` extends `t`'s first piece. */
  lemma {:induction false} SplitPrefix(a: string, t: string)
    requires ' ' !in a
    ensures SplitOnSpace(a + t) == [a + SplitOnSpace(t)[0]] + SplitOnSpace(t)[1..]
  {
    if |a| > 0 {
      assert (a + t)[1..] == a[1..] + t;
      assert a[0] in a;
      assert forall c :: c in a[1..] ==> c in a;
      SplitPrefix(a[1..], t);
      assert [a[0]] + (a[1..] + SplitOnSpace(t)[0]) == a + SplitOnSpace(t)[0];
    } else {
      var r := SplitOnSpace(t);
      assert a + t == t && a + r[0] == r[0];
      assert [r[0]] + r[1..] == r;
    }
  }

  /** Space-free pieces come back unchanged: `SplitOnSpace` is injective on
      what it produces. */
  lemma {:induction false} SplitJoin(ps: seq<string>)
    requires |ps| >= 1
    requires forall i :: 0 <= i < |ps| ==> ' ' !in ps[i]
    ensures SplitOnSpace(JoinWithSpace(ps)) == ps
  {
    if |ps| == 1 {
      SplitPrefix(ps[0], "");
      assert ps[0] + "" == ps[0];
    } else {
      var j := JoinWithSpace(ps[1..]);
      SplitJoin(ps[1..]);
      assert ps[0] + " " + j == ps[0] + (" " + j);
      SplitPrefix(ps[0], " " + j);
      assert (" " + j)[1..] == j;
      assert SplitOnSpace(" " + j) == [""] + ps[1..];
      assert ps[0] + "" == ps[0];
    }
  }

  // ---------------------------------------------------------------------------
  // Convert.ToByte(pair, 16)
  // ---------------------------------------------------------------------------

  predicate IsHexDigit(c: char)
  {
    '0' <= c <= '9' || 'a' <= c <= 'f' || 'A' <= c <= 'F'
  }

  function HexValue(c: char): (v: nat)
    requires IsHexDigit(c)
    ensures v < 16
  {
    if '0' <= c <= '9' then c as int - '0' as int
    else if 'a' <= c <= 'f' then c as int - 'a' as int + 10
    else c as int - 'A' as int + 10
  }

  /** The lower-case digit for `v`: `HexValue` undoes it. */
  function HexDigit(v: nat): (c: char)
    requires v < 16
    ensures IsHexDigit(c) && HexValue(c) == v
  {
    if v < 10 then ('0' as int + v) as char else ('a' as int + v - 10) as char
  }

  /** The byte two hex digits denote, high digit first. */
  function HexPair(hi: char, lo: char): byte
    requires IsHexDigit(hi) && IsHexDigit(lo)
  {
    (16 * HexValue(hi) + HexValue(lo)) as byte
  }

  /** Every character a "bin" payload parse reads is a hex digit: the pairs
      0..1, 2..3, … up to |v|/2 pairs; an odd last character is never read. */
  predicate HexDigits(v: string)
  {
    forall i :: 0 <= i < |v| / 2 * 2 ==> IsHexDigit(v[i])
  }

  /** The bytes a "bin" text denotes: byte i is the pair 2i, 2i+1. */
  function HexBytes(v: string): (r: seq<byte>)
    requires HexDigits(v)
    ensures |r| == |v| / 2
  {
    seq(|v| / 2, i requires 0 <= i < |v| / 2 => HexPair(v[2 * i], v[2 * i + 1]))
  }

  /** The hex text of `b`, two lower-case digits per byte (what a reader of a
      "bin" node produces). */
  function ToHex(b: seq<byte>): (s: string)
    ensures |s| == 2 * |b|
  {
    if |b| == 0 then ""
    else [HexDigit(b[0] as int / 16), HexDigit(b[0] as int % 16)] + ToHex(b[1..])
  }

  lemma {:induction false} ToHexAt(b: seq<byte>, i: nat)
    requires i < |b|
    ensures ToHex(b)[2 * i] == HexDigit(b[i] as int / 16)
    ensures ToHex(b)[2 * i + 1] == HexDigit(b[i] as int % 16)
  {
    if i > 0 {
      ToHexAt(b[1..], i - 1);
    }
  }

  /** Hex text written for any bytes parses back to exactly those bytes. */
  lemma HexRoundTrip(b: seq<byte>)
    ensures HexDigits(ToHex(b))
    ensures HexBytes(ToHex(b)) == b
  {
    var s := ToHex(b);
    forall k | 0 <= k < |s|
      ensures IsHexDigit(s[k])
    {
      ToHexAt(b, k / 2);
      assert k == 2 * (k / 2) || k == 2 * (k / 2) + 1;
    }
    forall i | 0 <= i < |b|
      ensures HexBytes(s)[i] == b[i]
    {
      ToHexAt(b, i);
      HexPairOfDigits(b[i]);
    }
  }

  lemma HexPairOfDigits(x: byte)
    ensures HexPair(HexDigit(x as int / 16), HexDigit(x as int % 16)) == x
  {
    var v := x as int;
    assert 16 * (v / 16) + v % 16 == v;
  }

  // ---------------------------------------------------------------------------
  // The order attribute names are sorted in
  // ---------------------------------------------------------------------------

  /** Ordinal (code-unit by code-unit) "less than or equal" on strings. */
  predicate OrdinalLe(a: string, b: string)
    decreases |a|
  {
    |a| == 0 || (|b| > 0 && (a[0] < b[0] || (a[0] == b[0] && OrdinalLe(a[1..], b[1..]))))
  }

  lemma {:induction false} OrdinalTotal(a: string, b: string)
    ensures OrdinalLe(a, b) || OrdinalLe(b, a)
    decreases |a|
  {
    if |a| > 0 && |b| > 0 && a[0] == b[0] {
      OrdinalTotal(a[1..], b[1..]);
    }
  }

  lemma {:induction false} OrdinalTransitive(a: string, b: string, c: string)
    requires OrdinalLe(a, b) && OrdinalLe(b, c)
    ensures OrdinalLe(a, c)
    decreases |a|
  {
    if |a| > 0 && a[0] == b[0] == c[0] {
      OrdinalTransitive(a[1..], b[1..], c[1..]);
    }
  }

  lemma {:induction false} OrdinalAntisymmetric(a: string, b: string)
    requires OrdinalLe(a, b) && OrdinalLe(b, a)
    ensures a == b
    decreases |a|
  {
    if |a| > 0 {
      OrdinalAntisymmetric(a[1..], b[1..]);
      assert a == [a[0]] + a[1..] && b == [b[0]] + b[1..];
    }
  }
}
