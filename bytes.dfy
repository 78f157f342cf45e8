/**
 * Byte strings read as big-endian unsigned integers: the arithmetic behind
 * fixed-width and minimal-width encodings of a number.
 */
module Bytes {

  type Byte = b: int | 0 <= b < 256

  /** 256^n, the number of distinct n-byte strings. */
  function Pow256(n: nat): (r: nat)
    ensures r >= 1
    ensures n >= 1 ==> r >= 256
  {
    if n == 0 then 1 else 256 * Pow256(n - 1)
  }

  /** The value of a byte string, most significant byte first. */
  function BigEndian(bs: seq<Byte>): nat
  {
    if bs == [] then 0 else BigEndian(bs[..|bs| - 1]) * 256 + bs[|bs| - 1]
  }

  lemma BigEndianSingle(b: Byte)
    ensures BigEndian([b]) == b
  {
    assert [b][..0] == [];
  }

  lemma BigEndianPair(hi: Byte, lo: Byte)
    ensures BigEndian([hi, lo]) == hi * 256 + lo
  {
    assert [hi, lo][..1] == [hi];
    BigEndianSingle(hi);
  }

  /** n zero bytes. */
  function Zeros(n: nat): (r: seq<Byte>)
    ensures |r| == n
  {
    seq(n, _ => 0)
  }

  lemma {:induction false} BigEndianBound(bs: seq<Byte>)
    ensures BigEndian(bs) < Pow256(|bs|)
  {
    if bs != [] {
      BigEndianBound(bs[..|bs| - 1]);
    }
  }

  lemma {:induction false} BigEndianAppend(a: seq<Byte>, b: seq<Byte>)
    ensures BigEndian(a + b) == BigEndian(a) * Pow256(|b|) + BigEndian(b)
  {
    if b == [] {
      assert a + b == a;
    } else {
      var b' := b[..|b| - 1];
      assert (a + b)[..|a + b| - 1] == a + b';
      BigEndianAppend(a, b');
      calc {
        BigEndian(a + b);
        BigEndian(a + b') * 256 + b[|b| - 1];
        (BigEndian(a) * Pow256(|b'|) + BigEndian(b')) * 256 + b[|b| - 1];
        BigEndian(a) * (Pow256(|b'|) * 256) + (BigEndian(b') * 256 + b[|b| - 1]);
      }
    }
  }

  /** Leading zero bytes do not change the value. */
  lemma {:induction false} BigEndianLeadingZeros(n: nat, bs: seq<Byte>)
    ensures BigEndian(Zeros(n) + bs) == BigEndian(bs)
  {
    BigEndianAppend(Zeros(n), bs);
    BigEndianOfZeros(n);
  }

  lemma {:induction false} BigEndianOfZeros(n: nat)
    ensures BigEndian(Zeros(n)) == 0
  {
    if n > 0 {
      assert Zeros(n)[..n - 1] == Zeros(n - 1);
      BigEndianOfZeros(n - 1);
    }
  }

  /** Two byte strings of one length with one value are the same string. */
  lemma {:induction false} BigEndianInjective(a: seq<Byte>, b: seq<Byte>)
    requires |a| == |b| && BigEndian(a) == BigEndian(b)
    ensures a == b
  {
    if a != [] {
      var n := |a| - 1;
      assert BigEndian(a) % 256 == a[n] && BigEndian(a) / 256 == BigEndian(a[..n]);
      assert BigEndian(b) % 256 == b[n] && BigEndian(b) / 256 == BigEndian(b[..n]);
      BigEndianInjective(a[..n], b[..n]);
      assert a == a[..n] + [a[n]] && b == b[..n] + [b[n]];
    }
  }

  /** The n-byte big-endian encoding of a value below 256^n. */
  function FixedBytes(val: nat, n: nat): (r: seq<Byte>)
    requires val < Pow256(n)
    ensures |r| == n && BigEndian(r) == val
  {
    if n == 0 then []
    else
      var r := FixedBytes(val / 256, n - 1) + [val % 256];
      assert r[..n - 1] == FixedBytes(val / 256, n - 1);
      r
  }

  /**
   * The shortest big-endian encoding of a value: at least one byte, and no
   * leading zero byte unless the value is 0 (which is the single byte 0).
   */
  function MinimalBytes(val: nat): (r: seq<Byte>)
    ensures 1 <= |r| && BigEndian(r) == val
    ensures |r| > 1 ==> r[0] != 0
    ensures val == 0 ==> r == [0]
    decreases val
  {
    if val < 256 then [val]
    else
      var r := MinimalBytes(val / 256) + [val % 256];
      assert r[..|r| - 1] == MinimalBytes(val / 256);
      r
  }

  /** A value needs at most n bytes exactly when it is below 256^n. */
  lemma {:induction false} MinimalBytesFit(val: nat, n: nat)
    requires n >= 1
    ensures |MinimalBytes(val)| <= n <==> val < Pow256(n)
    decreases val
  {
    if val >= 256 && n >= 2 {
      MinimalBytesFit(val / 256, n - 1);
    }
  }

  /** Padding the minimal encoding with leading zeros gives the fixed-width one. */
  lemma {:induction false} FixedBytesPadsMinimal(val: nat, n: nat)
    requires |MinimalBytes(val)| <= n
    ensures val < Pow256(n)
    ensures FixedBytes(val, n) == Zeros(n - |MinimalBytes(val)|) + MinimalBytes(val)
  {
    MinimalBytesFit(val, n);
    var padded := Zeros(n - |MinimalBytes(val)|) + MinimalBytes(val);
    BigEndianLeadingZeros(n - |MinimalBytes(val)|, MinimalBytes(val));
    BigEndianInjective(FixedBytes(val, n), padded);
  }
}
