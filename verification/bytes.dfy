/**
  Byte-level helpers the codec relies on: big-endian unsigned integers
  (`struct.unpack('>I' / '>H', …)`), lower-case hex (`bytes.hex()`),
  fixed-width binary text (`f"{x:08b}"`) and single-bit tests (`x & (1 << b)`).
  Each encoder comes with its inverse and a round-trip lemma.
 */
module Bytes {
  import opened Base

  function Pow256(n: nat): (r: nat)
    ensures r >= 1
  {
    if n == 0 then 1 else 256 * Pow256(n - 1)
  }

  function Pow2(n: nat): (r: nat)
    ensures r >= 1
  {
    if n == 0 then 1 else 2 * Pow2(n - 1)
  }

  // ---------------------------------------------------------------------------
  // Big-endian unsigned integers
  // ---------------------------------------------------------------------------

  /** The unsigned integer whose big-endian encoding is `s` (most significant byte first). */
  function BigEndian(s: seq<byte>): (v: nat)
    ensures v < Pow256(|s|)
  {
    if |s| == 0 then 0
    else BigEndian(s[..|s| - 1]) * 256 + s[|s| - 1]
  }

  /** The `n`-byte big-endian encoding of `v` (what `struct.pack('>I')` does for n = 4). */
  function ToBigEndian(v: nat, n: nat): (s: seq<byte>)
    ensures |s| == n
  {
    if n == 0 then [] else ToBigEndian(v / 256, n - 1) + [v % 256]
  }

  lemma {:induction false} BigEndianOfToBigEndian(v: nat, n: nat)
    requires v < Pow256(n)
    ensures BigEndian(ToBigEndian(v, n)) == v
  {
    if n > 0 {
      var p := Pow256(n - 1);
      assert Pow256(n) == 256 * p;
      assert v / 256 < p;
      var s := ToBigEndian(v, n);
      assert s[..n - 1] == ToBigEndian(v / 256, n - 1);
      assert s[n - 1] == v % 256;
      BigEndianOfToBigEndian(v / 256, n - 1);
      assert BigEndian(s) == (v / 256) * 256 + v % 256;
    }
  }

  lemma {:induction false} ToBigEndianOfBigEndian(s: seq<byte>)
    ensures ToBigEndian(BigEndian(s), |s|) == s
  {
    if |s| > 0 {
      var init := s[..|s| - 1];
      var v := BigEndian(s);
      assert v / 256 == BigEndian(init);
      assert v % 256 == s[|s| - 1];
      ToBigEndianOfBigEndian(init);
      assert s == init + [s[|s| - 1]];
    }
  }

  // ---------------------------------------------------------------------------
  // Lower-case hexadecimal text, as produced by Python's `bytes.hex()`
  // ---------------------------------------------------------------------------

  function HexDigit(n: nat): (c: char)
    requires n < 16
    ensures '0' <= c <= '9' || 'a' <= c <= 'f'
  {
    if n < 10 then ('0' as int + n) as char else ('a' as int + n - 10) as char
  }

  function HexValue(c: char): (v: Option<nat>)
    ensures v.Some? ==> v.value < 16
  {
    if '0' <= c <= '9' then Some(c as int - '0' as int)
    else if 'a' <= c <= 'f' then Some(c as int - 'a' as int + 10)
    else None
  }

  lemma HexValueOfHexDigit(n: nat)
    requires n < 16
    ensures HexValue(HexDigit(n)) == Some(n)
  {
  }

  /** Two lower-case hex digits per byte, high nibble first. */
  function Hex(bs: seq<byte>): (h: string)
    ensures |h| == 2 * |bs|
  {
    if |bs| == 0 then ""
    else [HexDigit(bs[0] / 16), HexDigit(bs[0] % 16)] + Hex(bs[1..])
  }

  /** Inverse of `Hex`: fails on odd length or a character outside `[0-9a-f]`. */
  function Unhex(h: string): Option<seq<byte>>
    decreases |h|
  {
    if |h| == 0 then Some([])
    else if |h| == 1 then None
    else
      var hi := HexValue(h[0]);
      var lo := HexValue(h[1]);
      var rest := Unhex(h[2..]);
      if hi.Some? && lo.Some? && rest.Some? then Some([hi.value * 16 + lo.value] + rest.value)
      else None
  }

  lemma {:induction false} UnhexOfHex(bs: seq<byte>)
    ensures Unhex(Hex(bs)) == Some(bs)
  {
    if |bs| > 0 {
      var h := Hex(bs);
      var hi, lo := bs[0] / 16, bs[0] % 16;
      assert h == [HexDigit(hi), HexDigit(lo)] + Hex(bs[1..]);
      assert h[2..] == Hex(bs[1..]);
      UnhexOfHex(bs[1..]);
      HexValueOfHexDigit(hi);
      HexValueOfHexDigit(lo);
      assert HexValue(h[0]) == Some(hi);
      assert HexValue(h[1]) == Some(lo);
      assert hi * 16 + lo == bs[0];
      assert bs == [bs[0]] + bs[1..];
    }
  }

  // ---------------------------------------------------------------------------
  // Single bits and fixed-width binary text
  // ---------------------------------------------------------------------------

  /** Bit `b` of `x` (bit 0 least significant): Python's `x & (1 << b) != 0`. */
  predicate BitSet(x: nat, b: nat)
  {
    if b == 0 then x % 2 == 1 else BitSet(x / 2, b - 1)
  }

  /** `x` written in binary with exactly `n` digits, most significant first;
      `f"{x:08b}"` is `Binary(x, 8)` for `x < 256`. */
  function Binary(x: nat, n: nat): (s: string)
    ensures |s| == n
    ensures forall i :: 0 <= i < n ==> s[i] in "01"
  {
    if n == 0 then "" else Binary(x / 2, n - 1) + [if x % 2 == 1 then '1' else '0']
  }

  /** Inverse of `Binary`: reads a string of binary digits, most significant first. */
  function FromBinary(s: string): nat
  {
    if |s| == 0 then 0
    else 2 * FromBinary(s[..|s| - 1]) + (if s[|s| - 1] == '1' then 1 else 0)
  }

  lemma {:induction false} FromBinaryOfBinary(x: nat, n: nat)
    requires x < Pow2(n)
    ensures FromBinary(Binary(x, n)) == x
  {
    if n > 0 {
      var s := Binary(x, n);
      assert s[..n - 1] == Binary(x / 2, n - 1);
      FromBinaryOfBinary(x / 2, n - 1);
    }
  }

  /** Digit `i` of the binary text is '1' exactly when bit `n - 1 - i` is set. */
  lemma {:induction false} BinaryDigitIsBit(x: nat, n: nat, b: nat)
    requires b < n
    ensures Binary(x, n)[n - 1 - b] == '1' <==> BitSet(x, b)
  {
    if b > 0 {
      BinaryDigitIsBit(x / 2, n - 1, b - 1);
    }
  }

  /** No bit at or above position `n` is set in a value below 2^n. */
  lemma {:induction false} HighBitsClear(x: nat, n: nat, b: nat)
    requires x < Pow2(n) && b >= n
    ensures !BitSet(x, b)
  {
    if n == 0 {
      assert x == 0;
      ZeroHasNoBits(b);
    } else if b > 0 {
      HighBitsClear(x / 2, n - 1, b - 1);
    }
  }

  lemma {:induction false} ZeroHasNoBits(b: nat)
    ensures !BitSet(0, b)
  {
    if b > 0 {
      ZeroHasNoBits(b - 1);
    }
  }
}
