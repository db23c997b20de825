/**
 * Byte-level building blocks of the index decoder: the short-read behaviour of
 * a memory-mapped file, big-endian unsigned integers (struct's "!I" and "!H"),
 * and binascii.hexlify.
 */
module Bytes {

  /** An octet of the index file. */
  newtype byte = b: int | 0 <= b < 256

  /** A value produced by a decoder together with the bytes left unread after it. */
  datatype Decoded<+T> = Decoded(value: T, rest: seq<byte>)

  /** mmap.read(n): the next n bytes, or every remaining byte when fewer than n remain. */
  function ReadBytes(s: seq<byte>, n: nat): (r: Decoded<seq<byte>>)
    ensures r.value + r.rest == s
    ensures |r.value| == if n <= |s| then n else |s|
  {
    if n <= |s| then Decoded(s[..n], s[n..]) else Decoded(s, [])
  }

  /** 256 to the power n: one more than the largest value that n bytes hold. */
  function Pow256(n: nat): (p: nat)
    ensures p >= 1
  {
    if n == 0 then 1 else 256 * Pow256(n - 1)
  }

  /** The unsigned integer whose big-endian (network order) bytes are bs. */
  function FromBigEndian(bs: seq<byte>): (v: nat)
    ensures v < Pow256(|bs|)
  {
    if bs == [] then 0 else FromBigEndian(bs[..|bs| - 1]) * 256 + bs[|bs| - 1] as int
  }

  /** The width big-endian bytes of v. */
  function ToBigEndian(v: nat, width: nat): (bs: seq<byte>)
    requires v < Pow256(width)
    ensures |bs| == width
  {
    if width == 0 then [] else ToBigEndian(v / 256, width - 1) + [(v % 256) as byte]
  }

  /** Splitting a value into its last byte and the rest. */
  lemma DivModByte(v: nat)
    ensures v == (v / 256) * 256 + v % 256 && v % 256 < 256
  {
  }

  lemma {:induction false} FromToBigEndian(v: nat, width: nat)
    requires v < Pow256(width)
    ensures FromBigEndian(ToBigEndian(v, width)) == v
  {
    if width > 0 {
      var bs := ToBigEndian(v, width);
      var high := ToBigEndian(v / 256, width - 1);
      var low := (v % 256) as byte;
      assert bs == high + [low];
      assert bs[..width - 1] == high;
      FromToBigEndian(v / 256, width - 1);
      DivModByte(v);
    }
  }

  lemma {:induction false} ToFromBigEndian(bs: seq<byte>)
    ensures ToBigEndian(FromBigEndian(bs), |bs|) == bs
  {
    if bs != [] {
      var n := |bs|;
      var init, last := bs[..n - 1], bs[n - 1];
      var high := FromBigEndian(init);
      var v := high * 256 + last as int;
      assert FromBigEndian(bs) == v;
      assert v / 256 == high && v % 256 == last as int;
      ToFromBigEndian(init);
      assert ToBigEndian(v, n) == ToBigEndian(high, n - 1) + [last];
      assert bs == init + [last];
    }
  }

  predicate IsHexDigit(c: char) {
    '0' <= c <= '9' || 'a' <= c <= 'f'
  }

  /** Every character is a lower-case hexadecimal digit. */
  predicate IsLowerHex(s: string) {
    forall i :: 0 <= i < |s| ==> IsHexDigit(s[i])
  }

  lemma LowerHexDrop(s: string, k: nat)
    requires k <= |s| && IsLowerHex(s)
    ensures IsLowerHex(s[k..])
  {
    forall i | 0 <= i < |s| - k
      ensures IsHexDigit(s[k..][i])
    {
      assert s[k..][i] == s[k + i];
    }
  }

  function HexDigit(n: nat): (c: char)
    requires n < 16
    ensures IsHexDigit(c)
  {
    if n < 10 then ('0' as int + n) as char else ('a' as int + n - 10) as char
  }

  function HexValue(c: char): (n: nat)
    requires IsHexDigit(c)
    ensures n < 16 && HexDigit(n) == c
  {
    if c <= '9' then c as int - '0' as int else c as int - 'a' as int + 10
  }

  lemma HexDigitValue(n: nat)
    requires n < 16
    ensures HexValue(HexDigit(n)) == n
  {
  }

  /** binascii.hexlify(bs).decode("ascii"): two lower-case hex digits per byte, high nibble first. */
  function Hexlify(bs: seq<byte>): (s: string)
    ensures |s| == 2 * |bs| && IsLowerHex(s)
  {
    if bs == [] then ""
    else [HexDigit(bs[0] as int / 16), HexDigit(bs[0] as int % 16)] + Hexlify(bs[1..])
  }

  /** The bytes whose hexlified form is s. */
  function Unhexlify(s: string): (bs: seq<byte>)
    requires |s| % 2 == 0 && IsLowerHex(s)
    ensures |bs| == |s| / 2
  {
    if s == [] then []
    else [(HexValue(s[0]) * 16 + HexValue(s[1])) as byte] + Unhexlify(s[2..])
  }

  lemma {:induction false} UnhexlifyHexlify(bs: seq<byte>)
    ensures Unhexlify(Hexlify(bs)) == bs
  {
    if bs != [] {
      var s := Hexlify(bs);
      HexDigitValue(bs[0] as int / 16);
      HexDigitValue(bs[0] as int % 16);
      assert s[2..] == Hexlify(bs[1..]);
      UnhexlifyHexlify(bs[1..]);
    }
  }

  lemma DivModNibbles(hi: nat, lo: nat)
    requires hi < 16 && lo < 16
    ensures (hi * 16 + lo) / 16 == hi && (hi * 16 + lo) % 16 == lo
  {
  }

  /** The byte two hex digits stand for hexlifies back to those digits. */
  lemma HexPair(c0: char, c1: char)
    requires IsHexDigit(c0) && IsHexDigit(c1)
    ensures var b := (HexValue(c0) * 16 + HexValue(c1)) as byte;
      HexDigit(b as int / 16) == c0 && HexDigit(b as int % 16) == c1
  {
    var hi, lo := HexValue(c0), HexValue(c1);
    var n := hi * 16 + lo;
    assert n / 16 == hi && n % 16 == lo by { DivModNibbles(hi, lo); }
  }

  lemma {:induction false} HexlifyUnhexlify(s: string)
    requires |s| % 2 == 0 && IsLowerHex(s)
    ensures Hexlify(Unhexlify(s)) == s
  {
    if s != [] {
      var bs := Unhexlify(s);
      LowerHexDrop(s, 2);
      assert bs[0] == (HexValue(s[0]) * 16 + HexValue(s[1])) as byte;
      assert bs[1..] == Unhexlify(s[2..]);
      HexPair(s[0], s[1]);
      HexlifyUnhexlify(s[2..]);
      assert Hexlify(bs) == [s[0], s[1]] + s[2..];
    }
  }

  /** The orders on concrete bytes: most significant byte first, and high nibble first. */
  lemma OrderExamples()
    ensures FromBigEndian([0, 0, 0, 2]) == 2 && FromBigEndian([0, 0, 0, 1]) == 1
    ensures FromBigEndian([0x01, 0x02]) == 0x0102
    ensures Hexlify([0xAB, 0x01]) == "ab01"
  {
    var two: seq<byte> := [0, 0, 0, 2];
    assert two[..3] == [0, 0, 0];
    assert FromBigEndian([0, 0, 0]) == 0;
    var one: seq<byte> := [0, 0, 0, 1];
    assert one[..3] == [0, 0, 0];
  }
}
