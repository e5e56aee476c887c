/** Byte strings and the fixed encodings the code relies on: little- and
    big-endian integers (`to_le_bytes`, `from_be_bytes`, `from_le_bytes`),
    lowercase hexadecimal (`hex::encode`) and UTF-8 (`str::as_bytes`). */
module Bytes {

  type byte = x: int | 0 <= x < 256
  type bytes = seq<byte>
  type u16 = x: nat | x < 0x1_0000
  type u32 = x: nat | x < 0x1_0000_0000
  type u64 = x: nat | x < 0x1_0000_0000_0000_0000

  // ---------------------------------------------------------------------------
  // Little-endian integers
  // ---------------------------------------------------------------------------

  function Pow256(k: nat): (r: nat)
    ensures r > 0
  {
    if k == 0 then 1 else 256 * Pow256(k - 1)
  }

  /** The `k` low-order bytes of `n`, least significant first. */
  function LeBytes(n: nat, k: nat): (r: bytes)
    ensures |r| == k
  {
    if k == 0 then [] else [n % 256] + LeBytes(n / 256, k - 1)
  }

  /** The value of a little-endian byte string. */
  function LeValue(s: bytes): nat {
    if s == [] then 0 else s[0] + 256 * LeValue(s[1..])
  }

  /** `u64::to_le_bytes` (and `usize::to_le_bytes` on a 64-bit target). */
  function U64Le(n: nat): (r: bytes)
    ensures |r| == 8
  {
    LeBytes(n, 8)
  }

  /** Decoding the `k` little-endian bytes of `n` gives `n` back, when `n` fits. */
  lemma {:induction false} LeBytesRoundTrip(n: nat, k: nat)
    requires n < Pow256(k)
    ensures LeValue(LeBytes(n, k)) == n
  {
    if k > 0 {
      LeBytesRoundTrip(n / 256, k - 1);
      assert LeBytes(n, k)[1..] == LeBytes(n / 256, k - 1);
    }
  }

  /** Every `u64` survives `to_le_bytes` followed by `from_le_bytes`, so the
      eight timestamp bytes in every signed layout determine the timestamp. */
  lemma U64LeRoundTrip(n: u64)
    ensures LeValue(U64Le(n)) == n
  {
    assert Pow256(8) == 0x1_0000_0000_0000_0000;
    LeBytesRoundTrip(n, 8);
  }

  lemma U64LeInjective(a: u64, b: u64)
    requires U64Le(a) == U64Le(b)
    ensures a == b
  {
    U64LeRoundTrip(a);
    U64LeRoundTrip(b);
  }

  // ---------------------------------------------------------------------------
  // Fixed-width big- and little-endian reads
  // ---------------------------------------------------------------------------

  /** `u16::from_be_bytes([hi, lo])`. */
  function Be16(hi: byte, lo: byte): (r: u16)
    ensures r / 256 == hi && r % 256 == lo
  {
    hi * 256 + lo
  }

  /** `u16::from_le_bytes([lo, hi])`. */
  function Le16(lo: byte, hi: byte): (r: u16)
    ensures r / 256 == hi && r % 256 == lo
  {
    hi * 256 + lo
  }

  /** `u32::from_be_bytes([b0, b1, b2, b3])`. */
  function Be32(b0: byte, b1: byte, b2: byte, b3: byte): (r: u32)
    ensures r / 0x100_0000 == b0 && (r / 0x1_0000) % 256 == b1
    ensures (r / 256) % 256 == b2 && r % 256 == b3
  {
    ((b0 * 256 + b1) * 256 + b2) * 256 + b3
  }

  // ---------------------------------------------------------------------------
  // Lowercase hexadecimal (`hex::encode`)
  // ---------------------------------------------------------------------------

  predicate IsLowerHexChar(c: char) {
    '0' <= c <= '9' || 'a' <= c <= 'f'
  }

  predicate IsLowerHex(s: string) {
    forall i :: 0 <= i < |s| ==> IsLowerHexChar(s[i])
  }

  function HexDigit(d: nat): (c: char)
    requires d < 16
    ensures IsLowerHexChar(c)
  {
    if d < 10 then ('0' as int + d) as char else ('a' as int + d - 10) as char
  }

  function DigitValue(c: char): (d: nat)
    requires IsLowerHexChar(c)
    ensures d < 16
  {
    if c <= '9' then c as int - '0' as int else c as int - 'a' as int + 10
  }

  lemma DigitValueOfHexDigit(d: nat)
    requires d < 16
    ensures DigitValue(HexDigit(d)) == d
  {
  }

  /** `hex::encode`: two lowercase digits per byte, high nibble first. */
  function Hex(s: bytes): (r: string)
    ensures |r| == 2 * |s|
    ensures IsLowerHex(r)
  {
    if s == [] then [] else [HexDigit(s[0] / 16), HexDigit(s[0] % 16)] + Hex(s[1..])
  }

  /** The inverse of `Hex`, used only to state that `Hex` loses nothing. */
  function Unhex(r: string): (s: bytes)
    requires |r| % 2 == 0 && IsLowerHex(r)
    ensures |s| == |r| / 2
  {
    if r == [] then []
    else [DigitValue(r[0]) * 16 + DigitValue(r[1])] + Unhex(r[2..])
  }

  lemma {:induction false} UnhexHex(s: bytes)
    ensures Unhex(Hex(s)) == s
  {
    if s != [] {
      var r := Hex(s);
      assert r[2..] == Hex(s[1..]);
      DigitValueOfHexDigit(s[0] / 16);
      DigitValueOfHexDigit(s[0] % 16);
      UnhexHex(s[1..]);
    }
  }

  /** Distinct byte strings have distinct hex encodings. */
  lemma HexInjective(a: bytes, b: bytes)
    requires Hex(a) == Hex(b)
    ensures a == b
  {
    UnhexHex(a);
    UnhexHex(b);
  }

  // ---------------------------------------------------------------------------
  // UTF-8 (`str::as_bytes`)
  // ---------------------------------------------------------------------------

  /** The UTF-8 encoding of one Unicode scalar value. */
  function Utf8Char(c: char): (r: bytes)
    ensures 1 <= |r| <= 4
    ensures (c as int < 0x80) == (r == [c as int])
  {
    var cp := c as int;
    if cp < 0x80 then [cp]
    else if cp < 0x800 then [0xC0 + cp / 64, 0x80 + cp % 64]
    else if cp < 0x1_0000 then [0xE0 + cp / 4096, 0x80 + (cp / 64) % 64, 0x80 + cp % 64]
    else [0xF0 + cp / 262144, 0x80 + (cp / 4096) % 64, 0x80 + (cp / 64) % 64, 0x80 + cp % 64]
  }

  function Utf8(s: string): bytes {
    if s == [] then [] else Utf8Char(s[0]) + Utf8(s[1..])
  }
}
