/** Fixed-width integers, their little-endian wire form (the `byteorder`
    crate's `LittleEndian` reads and writes), and the two ways the codec turns
    text into bytes and back: `String::as_bytes` (UTF-8) when writing and
    `char::from` on each byte when reading. */
module Bytes {

  type byte = x: int | 0 <= x < 0x100
  type u16 = x: int | 0 <= x < 0x1_0000
  type u64 = x: int | 0 <= x < 0x1_0000_0000_0000_0000

  function Pow256(n: nat): (r: nat)
    ensures r >= 1
  {
    if n == 0 then 1 else 256 * Pow256(n - 1)
  }

  /** The low `n` bytes of `x`, least significant first. */
  function LittleEndian(x: nat, n: nat): (r: seq<byte>)
    ensures |r| == n
  {
    if n == 0 then [] else [x % 256] + LittleEndian(x / 256, n - 1)
  }

  /** The number whose little-endian image is `bs`. */
  function FromLittleEndian(bs: seq<byte>): (r: nat)
    ensures r < Pow256(|bs|)
  {
    if bs == [] then 0 else bs[0] + 256 * FromLittleEndian(bs[1..])
  }

  /** Reading back an `n`-byte little-endian write gives the written value. */
  lemma {:induction false} FromToLittleEndian(x: nat, n: nat)
    requires x < Pow256(n)
    ensures FromLittleEndian(LittleEndian(x, n)) == x
  {
    if n > 0 {
      FromToLittleEndian(x / 256, n - 1);
      assert LittleEndian(x, n)[1..] == LittleEndian(x / 256, n - 1);
    }
  }

  /** Every byte string is the little-endian image of its value. */
  lemma {:induction false} ToFromLittleEndian(bs: seq<byte>)
    ensures LittleEndian(FromLittleEndian(bs), |bs|) == bs
  {
    if bs != [] {
      ToFromLittleEndian(bs[1..]);
      var v := FromLittleEndian(bs);
      assert v % 256 == bs[0] && v / 256 == FromLittleEndian(bs[1..]);
    }
  }

  /** A string that survives NUL-terminated framing unchanged: every
      character is ASCII and none is NUL. */
  predicate IsCString(s: string) {
    forall i :: 0 <= i < |s| ==> 0 < s[i] as int < 0x80
  }

  /** The UTF-8 encoding of one Unicode scalar value. */
  function Utf8Char(c: char): (r: seq<byte>)
    ensures 1 <= |r| <= 4
    ensures |r| == 1 <==> c as int < 0x80
    ensures |r| == 1 ==> r[0] == c as int
    ensures |r| > 1 ==> forall i :: 0 <= i < |r| ==> r[i] >= 0x80
  {
    var v := c as int;
    if v < 0x80 then [v]
    else if v < 0x800 then [0xC0 + v / 0x40, 0x80 + v % 0x40]
    else if v < 0x1_0000 then [0xE0 + v / 0x1000, 0x80 + (v / 0x40) % 0x40, 0x80 + v % 0x40]
    else [0xF0 + v / 0x4_0000, 0x80 + (v / 0x1000) % 0x40, 0x80 + (v / 0x40) % 0x40, 0x80 + v % 0x40]
  }

  /** `String::as_bytes`: the UTF-8 encoding of a whole string. */
  function Utf8(s: string): (r: seq<byte>)
    ensures |r| >= |s|
    ensures IsCString(s) ==> |r| == |s| && forall i :: 0 <= i < |s| ==> r[i] == s[i] as int
    ensures 0 !in r <==> forall i :: 0 <= i < |s| ==> s[i] != 0 as char
  {
    if s == [] then [] else Utf8Char(s[0]) + Utf8(s[1..])
  }

  /** One `char::from(byte)` per byte: byte value `b` becomes code point `b`. */
  function Latin1(bs: seq<byte>): (r: string)
    ensures |r| == |bs|
    ensures forall i :: 0 <= i < |bs| ==> r[i] as int == bs[i]
  {
    seq(|bs|, i requires 0 <= i < |bs| => bs[i] as char)
  }

  /** Text written with `as_bytes` and read back byte by byte is unchanged
      exactly when it is ASCII; NUL-freedom is what the framing adds. */
  lemma CStringBytes(s: string)
    requires IsCString(s)
    ensures Latin1(Utf8(s)) == s
    ensures 0 !in Utf8(s)
  {
    assert forall i :: 0 <= i < |s| ==> s[i] != 0 as char;
  }

  /** Without the ASCII condition the round trip fails: U+00E9 is written as
      two bytes and read back as the two characters U+00C3 U+00A9. */
  lemma NonAsciiDoesNotRoundTrip()
    ensures Utf8([0xE9 as char]) == [0xC3, 0xA9]
    ensures Latin1(Utf8([0xE9 as char])) == [0xC3 as char, 0xA9 as char]
    ensures Latin1(Utf8([0xE9 as char])) != [0xE9 as char]
  {
    assert Utf8([0xE9 as char]) == Utf8Char(0xE9 as char) + Utf8([]);
  }
}
