/**
 * The two library primitives the deployment script builds its strings with:
 * ethers' `hexlify` applied to a non-negative integer, and JavaScript's
 * `String.prototype.repeat`.
 */
module Runtime {
  import opened Wrappers
  import opened Bytes
  import opened Hex

  /**
   * `ethers.utils.hexlify(val)` for a non-negative integer: "0x" and the
   * minimal even-length lowercase hex of val, "0x00" for 0.
   */
  function Hexlify(val: nat): string {
    "0x" + HexOf(MinimalBytes(val))
  }

  /**
   * What hexlify promises: "0x", then an even number (at least two) of hex
   * digits whose value is val and that start with "00" only for "0x00".
   */
  lemma HexlifyIsMinimalHex(val: nat)
    ensures var r := Hexlify(val);
            && |r| >= 4 && |r| % 2 == 0 && r[..2] == "0x" && IsHex(r[2..])
            && HexValue(r[2..]) == val
            && (|r| > 4 ==> r[2..4] != "00")
            && (val == 0 ==> r == "0x00")
  {
    var bs := MinimalBytes(val);
    assert Hexlify(val)[2..] == HexOf(bs);
    HexValueOfHexOf(bs);
    NoLeadingZeroPair(bs);
  }

  /** Hex text of bytes that start with a non-zero byte does not start with "00". */
  lemma NoLeadingZeroPair(bs: seq<Byte>)
    requires |bs| >= 1 && (|bs| > 1 ==> bs[0] != 0)
    ensures |bs| > 1 ==> HexOf(bs)[..2] != "00"
  {
    if |bs| > 1 {
      assert HexOf(bs) == HexOfByte(bs[0]) + HexOf(bs[1..]);
      assert HexOf(bs)[..2] == HexOfByte(bs[0]);
      if HexOfByte(bs[0]) == "00" {
        DigitInjective(bs[0] / 16, 0);
        DigitInjective(bs[0] % 16, 0);
      }
    }
  }

  /**
   * `s.repeat(count)`: s written count times, or None where JavaScript throws
   * a RangeError because count is negative. The contents are pinned down by
   * the length, the first copy of s, and periodicity: dropping the first |s|
   * characters gives the same text as dropping the last |s|.
   */
  function Repeat(s: string, count: int): (r: Option<string>)
    ensures r.Some? <==> count >= 0
    ensures r.Some? ==> |r.value| == count * |s|
    ensures r.Some? && count >= 1 ==> r.value[..|s|] == s
    ensures r.Some? && count >= 1 ==> r.value[|s|..] == r.value[..|r.value| - |s|]
  {
    if count < 0 then None else Some(RepeatNat(s, count))
  }

  function RepeatNat(s: string, n: nat): (r: string)
    ensures |r| == n * |s|
    ensures n >= 1 ==> r[..|s|] == s
    ensures n >= 1 ==> r[|s|..] == r[..|r| - |s|]
  {
    if n == 0 then ""
    else
      var rest := RepeatNat(s, n - 1);
      RepeatStep(s, rest, n);
      s + rest
  }

  /** Prepending s to n - 1 copies of s gives n copies, still periodic. */
  lemma RepeatStep(s: string, rest: string, n: nat)
    requires n >= 1 && |rest| == (n - 1) * |s|
    requires n >= 2 ==> rest[..|s|] == s && rest[|s|..] == rest[..|rest| - |s|]
    ensures |s + rest| == n * |s|
    ensures (s + rest)[..|s|] == s
    ensures (s + rest)[|s|..] == (s + rest)[..|s + rest| - |s|]
  {
    assert |s| + (n - 1) * |s| == n * |s|;
    var r := s + rest;
    assert r[|s|..] == rest;
    if n >= 2 {
      calc {
        r[..|r| - |s|];
        s + rest[..|rest| - |s|];
        rest[..|s|] + rest[|s|..];
        rest;
      }
    } else {
      assert rest == [];
    }
  }

  /** Every character of a periodic text whose first period is all '0' is '0'. */
  lemma {:induction false} PeriodicZeros(r: string, p: nat, i: nat)
    requires p >= 1 && p <= |r| && i < |r|
    requires forall j :: 0 <= j < p ==> r[j] == '0'
    requires r[p..] == r[..|r| - p]
    ensures r[i] == '0'
    decreases i
  {
    if i >= p {
      assert r[i] == r[p..][i - p] == r[..|r| - p][i - p] == r[i - p];
      PeriodicZeros(r, p, i - p);
    }
  }
}
