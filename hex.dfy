/**
 * Lowercase hexadecimal text: two digits per byte, most significant nibble
 * first, as ethers and JSON-RPC nodes write byte strings.
 */
module Hex {
  import opened Bytes

  predicate IsHexDigit(c: char) {
    '0' <= c <= '9' || 'a' <= c <= 'f'
  }

  predicate IsHex(s: string) {
    forall i :: 0 <= i < |s| ==> IsHexDigit(s[i])
  }

  /** The digit for a nibble. */
  function Digit(d: nat): (c: char)
    requires d < 16
    ensures IsHexDigit(c)
  {
    if d < 10 then ('0' as int + d) as char else ('a' as int + d - 10) as char
  }

  /** The nibble a digit stands for; the inverse of Digit. */
  function DigitValue(c: char): (d: nat)
    requires IsHexDigit(c)
    ensures d < 16 && Digit(d) == c
  {
    if c <= '9' then c as int - '0' as int else c as int - 'a' as int + 10
  }

  lemma DigitInjective(d: nat, e: nat)
    requires d < 16 && e < 16 && Digit(d) == Digit(e)
    ensures d == e
  {
    assert DigitValue(Digit(d)) == d && DigitValue(Digit(e)) == e;
  }

  /** The two digits of one byte. */
  function HexOfByte(b: Byte): (s: string)
    ensures |s| == 2 && IsHex(s)
  {
    [Digit(b / 16), Digit(b % 16)]
  }

  /** The hex text of a byte string, two digits per byte. */
  function HexOf(bs: seq<Byte>): (s: string)
    ensures |s| == 2 * |bs| && IsHex(s)
  {
    if bs == [] then [] else HexOfByte(bs[0]) + HexOf(bs[1..])
  }

  /** The value of hex text, most significant digit first. */
  function HexValue(s: string): nat
    requires IsHex(s)
  {
    if s == [] then 0 else HexValue(s[..|s| - 1]) * 16 + DigitValue(s[|s| - 1])
  }

  /** The bytes of even-length hex text, two digits each. */
  function DecodeHex(s: string): (bs: seq<Byte>)
    requires IsHex(s) && |s| % 2 == 0
    ensures |bs| == |s| / 2
  {
    if s == [] then []
    else [DigitValue(s[0]) * 16 + DigitValue(s[1])] + DecodeHex(s[2..])
  }

  lemma {:induction false} HexOfAppend(a: seq<Byte>, b: seq<Byte>)
    ensures HexOf(a + b) == HexOf(a) + HexOf(b)
  {
    if a != [] {
      assert (a + b)[1..] == a[1..] + b;
      HexOfAppend(a[1..], b);
    } else {
      assert a + b == b;
    }
  }

  lemma HexOfSingle(b: Byte)
    ensures HexOf([b]) == HexOfByte(b)
  {
    assert [b][1..] == [];
  }

  lemma HexOfCons(b: Byte, rest: seq<Byte>)
    ensures HexOf([b] + rest) == HexOfByte(b) + HexOf(rest)
  {
    HexOfAppend([b], rest);
    HexOfSingle(b);
  }

  /** Decoding the hex text of a byte string gives the byte string back. */
  lemma {:induction false} DecodeHexOf(bs: seq<Byte>)
    ensures DecodeHex(HexOf(bs)) == bs
  {
    if bs != [] {
      var s := HexOf(bs);
      assert s[2..] == HexOf(bs[1..]);
      DecodeHexOf(bs[1..]);
      assert DigitValue(s[0]) == bs[0] / 16 && DigitValue(s[1]) == bs[0] % 16;
    }
  }

  /** Encoding the bytes of hex text gives the text back. */
  lemma {:induction false} HexOfDecode(s: string)
    requires IsHex(s) && |s| % 2 == 0
    ensures HexOf(DecodeHex(s)) == s
  {
    if s != [] {
      var bs := DecodeHex(s);
      var b := DigitValue(s[0]) * 16 + DigitValue(s[1]);
      assert bs[1..] == DecodeHex(s[2..]);
      HexOfDecode(s[2..]);
      assert b / 16 == DigitValue(s[0]) && b % 16 == DigitValue(s[1]);
      assert s == s[..2] + s[2..];
    }
  }

  /** Read as a hex number, the hex text of a byte string has the byte string's value. */
  lemma {:induction false} HexValueOfHexOf(bs: seq<Byte>)
    ensures HexValue(HexOf(bs)) == BigEndian(bs)
  {
    if bs != [] {
      var init, last := bs[..|bs| - 1], bs[|bs| - 1];
      assert bs == init + [last];
      HexOfAppend(init, [last]);
      HexOfSingle(last);
      var s := HexOf(bs);
      assert s == HexOf(init) + [Digit(last / 16), Digit(last % 16)];
      assert s[..|s| - 1][..|s| - 2] == HexOf(init);
      assert s[..|s| - 1] == HexOf(init) + [Digit(last / 16)];
      HexValueOfHexOf(init);
    }
  }

  /** The hex text of n zero bytes is n "00" pairs. */
  lemma {:induction false} HexOfZeros(n: nat)
    ensures forall i :: 0 <= i < |HexOf(Zeros(n))| ==> HexOf(Zeros(n))[i] == '0'
  {
    if n > 0 {
      assert Zeros(n)[1..] == Zeros(n - 1);
      HexOfZeros(n - 1);
    }
  }
}
