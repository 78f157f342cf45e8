/**
 * The encoders of the deployment script: a fixed-width big-endian hex
 * encoder, the 12-byte init-code prefix that copies the code following it
 * into memory and returns it, and the init code assembled from that prefix
 * and a payload (scripts/deploy.ts, lines 4-26 and 37-38).
 */
module Deploy {
  import opened Wrappers
  import opened Bytes
  import opened Hex
  import opened Runtime
  import opened Evm

  /** What the script's encoders can throw. */
  datatype Error =
      /** The script's own "Could not convert ..." Error. */
    | CouldNotConvert(val: nat, hex: string, bytes: nat)
      /** The RangeError of `repeat` with a negative count. */
    | RangeError(count: int)

  /**
   * `toHexBytes(val, bytes)`: the hex of val left-padded with "00" pairs to
   * exactly `bytes` bytes, without "0x". The guard compares the needed byte
   * count with 2 * bytes, so a value needing bytes + 1 .. 2 * bytes bytes
   * passes it and fails in `repeat` instead.
   */
  function ToHexBytes(val: nat, bytes: nat): Result<string, Error> {
    var hex := Hexlify(val)[2..];
    var requiredBytes := |hex| / 2;
    if requiredBytes > 2 * bytes then
      Failure(CouldNotConvert(val, hex, bytes))
    else
      match Repeat("00", bytes - requiredBytes)
      case None => Failure(RangeError(bytes - requiredBytes))
      case Some(padding) => Success(padding + hex)
  }

  /** A value that fits is encoded as its bytes-wide big-endian representation. */
  lemma ToHexBytesIsFixedWidth(val: nat, bytes: nat)
    requires |MinimalBytes(val)| <= bytes
    ensures val < Pow256(bytes)
    ensures ToHexBytes(val, bytes) == Success(HexOf(FixedBytes(val, bytes)))
  {
    var minimal := MinimalBytes(val);
    var pad := bytes - |minimal|;
    var hex := Hexlify(val)[2..];
    assert hex == HexOf(minimal);
    assert |hex| / 2 == |minimal|;
    ZeroPadding(pad);
    assert ToHexBytes(val, bytes) == Success(HexOf(Zeros(pad)) + hex);
    FixedBytesPadsMinimal(val, bytes);
    HexOfAppend(Zeros(pad), minimal);
  }

  /** The padding "00".repeat(k) is the hex of k zero bytes. */
  lemma ZeroPadding(k: nat)
    ensures Repeat("00", k) == Some(HexOf(Zeros(k)))
  {
    HexOfZeros(k);
    var padding := Repeat("00", k).value;
    forall i | 0 <= i < |padding|
      ensures padding[i] == '0'
    {
      assert padding[..2] == "00";
      PeriodicZeros(padding, 2, i);
    }
    assert padding == HexOf(Zeros(k));
  }

  /** Read back as big-endian hex, the output of ToHexBytes is val. */
  lemma ToHexBytesRoundTrip(val: nat, bytes: nat)
    ensures ToHexBytes(val, bytes).Success? ==>
              val < Pow256(bytes) &&
              IsHex(ToHexBytes(val, bytes).value) && |ToHexBytes(val, bytes).value| % 2 == 0 &&
              HexValue(ToHexBytes(val, bytes).value) == val &&
              DecodeHex(ToHexBytes(val, bytes).value) == FixedBytes(val, bytes)
  {
    if ToHexBytes(val, bytes).Success? {
      ToHexBytesIsFixedWidth(val, bytes);
      HexValueOfHexOf(FixedBytes(val, bytes));
      DecodeHexOf(FixedBytes(val, bytes));
    }
  }

  /** ToHexBytes yields a string exactly when val is below 256^bytes. */
  lemma ToHexBytesFits(val: nat, bytes: nat)
    ensures ToHexBytes(val, bytes).Success? <==> bytes >= 1 && val < Pow256(bytes)
  {
    if bytes >= 1 {
      MinimalBytesFit(val, bytes);
    }
  }

  /** All the padding is leading "00" pairs, followed by hexlify's minimal digits. */
  lemma ToHexBytesPadding(val: nat, bytes: nat)
    requires ToHexBytes(val, bytes).Success?
    ensures var r, pad := ToHexBytes(val, bytes).value, bytes - |MinimalBytes(val)|;
            (forall i :: 0 <= i < 2 * pad ==> r[i] == '0') && r[2 * pad..] == Hexlify(val)[2..]
  {
    var r, pad := ToHexBytes(val, bytes).value, bytes - |MinimalBytes(val)|;
    var hex := Hexlify(val)[2..];
    assert |hex| / 2 == |MinimalBytes(val)| by {
      assert hex == HexOf(MinimalBytes(val));
    }
    ZeroPadding(pad);
    HexOfZeros(pad);
    assert r == HexOf(Zeros(pad)) + hex;
  }

  /**
   * ToHexBytes yields a string exactly when val needs at most `bytes` bytes,
   * and the string is 2 * bytes hex digits. It fails in two places: the
   * explicit Error only when val needs more than 2 * bytes bytes, the
   * RangeError of a negative repeat count when it needs bytes + 1 ..
   * 2 * bytes.
   */
  lemma ToHexBytesOutcome(val: nat, bytes: nat)
    ensures var r, need := ToHexBytes(val, bytes), |MinimalBytes(val)|;
            && (r.Success? <==> need <= bytes)
            && (r.Success? ==> |r.value| == 2 * bytes && IsHex(r.value))
            && (r == Failure(CouldNotConvert(val, Hexlify(val)[2..], bytes)) <==> need > 2 * bytes)
            && (r == Failure(RangeError(bytes - need)) <==> bytes < need <= 2 * bytes)
  {
    var need := |MinimalBytes(val)|;
    assert Hexlify(val)[2..] == HexOf(MinimalBytes(val));
    if need <= bytes {
      ToHexBytesIsFixedWidth(val, bytes);
    }
  }

  /** For a two-byte field: 65536 fails in repeat, 2^32 at the explicit guard. */
  lemma ToHexBytesTwoByteFailures()
    ensures ToHexBytes(0x1_0000, 2) == Failure(RangeError(-1))
    ensures ToHexBytes(0x1_0000_0000, 2).Failure? && ToHexBytes(0x1_0000_0000, 2).error.CouldNotConvert?
  {
    MinimalBytesFit(0x1_0000, 2);
    MinimalBytesFit(0x1_0000, 3);
    MinimalBytesFit(0x1_0000_0000, 4);
  }

  /** The init-code prefix as bytes (Yellow Paper, Appendix H.2 opcodes). */
  function PrefixBytes(size: nat): (code: seq<Byte>)
    requires size < 0x1_0000
  {
    [PUSH2, size / 256, size % 256, DUP1, PUSH1, 0x0c, PUSH1, 0x00, CODECOPY, PUSH1, 0x00, RETURN]
  }

  /**
   * The PUSH1 immediate that becomes CODECOPY's source offset is the
   * prefix's own length, and only bytes 1 and 2, which hold size, vary.
   */
  lemma PrefixLayout(s1: nat, s2: nat)
    requires s1 < 0x1_0000 && s2 < 0x1_0000
    ensures |PrefixBytes(s1)| == PrefixBytes(s1)[5] == 12
    ensures BigEndian(PrefixBytes(s1)[1..3]) == s1
    ensures forall i :: 0 <= i < 12 && i != 1 && i != 2 ==> PrefixBytes(s1)[i] == PrefixBytes(s2)[i]
  {
    assert PrefixBytes(s1)[1..3] == [s1 / 256, s1 % 256];
    BigEndianPair(s1 / 256, s1 % 256);
  }

  /**
   * `blankConstructor(deployedBytecodeSize)`: "0x" and 12 bytes of init code
   * that copy the following deployedBytecodeSize bytes into memory and
   * return them.
   */
  function BlankConstructor(deployedBytecodeSize: nat): Result<string, Error> {
    var sizeHex :- ToHexBytes(deployedBytecodeSize, 2);
    Success("0x" + "61" + sizeHex + "80" + "60" + "0c" + "60" + "00" + "39" + "60" + "00" + "f3")
  }

  /**
   * For a size below 65536, BlankConstructor is "0x" and 24 hex digits; from
   * 65536 on it fails: in repeat below 2^32, at the explicit guard above.
   */
  lemma BlankConstructorOutcome(size: nat)
    ensures BlankConstructor(size).Success? <==> size < 0x1_0000
    ensures BlankConstructor(size).Success? ==>
              var r := BlankConstructor(size).value;
              |r| == 26 && r[..2] == "0x" && IsHex(r[2..])
    ensures 0x1_0000 <= size < 0x1_0000_0000 ==> BlankConstructor(size).error.RangeError?
    ensures 0x1_0000_0000 <= size ==> BlankConstructor(size).error.CouldNotConvert?
  {
    MinimalBytesFit(size, 2);
    MinimalBytesFit(size, 4);
    ToHexBytesOutcome(size, 2);
    if size < 0x1_0000 {
      BlankConstructorEncodesPrefix(size);
      assert BlankConstructor(size).value[2..] == HexOf(PrefixBytes(size));
    }
  }

  /** The text BlankConstructor builds is the hex of PrefixBytes. */
  lemma BlankConstructorEncodesPrefix(size: nat)
    requires size < 0x1_0000
    ensures BlankConstructor(size) == Success("0x" + HexOf(PrefixBytes(size)))
  {
    var sizeHex := HexOf([size / 256, size % 256]);
    SizeHex(size);
    PrefixHex(size);
    assert BlankConstructor(size)
        == Success("0x" + "61" + sizeHex + "80" + "60" + "0c" + "60" + "00" + "39" + "60" + "00" + "f3");
    PrefixText(sizeHex);
  }

  lemma PrefixText(sizeHex: string)
    ensures "0x" + "61" + sizeHex + "80" + "60" + "0c" + "60" + "00" + "39" + "60" + "00" + "f3"
         == "0x" + ("61" + sizeHex + "80600c6000396000f3")
  {
  }

  lemma PrefixHex(size: nat)
    requires size < 0x1_0000
    ensures HexOf(PrefixBytes(size)) == "61" + HexOf([size / 256, size % 256]) + "80600c6000396000f3"
  {
    var sizeBytes: seq<Byte> := [size / 256, size % 256];
    var tail: seq<Byte> := [DUP1, PUSH1, 0x0c, PUSH1, 0x00, CODECOPY, PUSH1, 0x00, RETURN];
    assert PrefixBytes(size) == [PUSH2] + sizeBytes + tail;
    HexOfAppend([PUSH2] + sizeBytes, tail);
    HexOfAppend([PUSH2], sizeBytes);
    HexOfSingle(PUSH2);
    TailHex();
  }

  /** The two-byte size field of the prefix, in hex. */
  lemma SizeHex(size: nat)
    requires size < 0x1_0000
    ensures ToHexBytes(size, 2) == Success(HexOf([size / 256, size % 256]))
  {
    MinimalBytesFit(size, 2);
    ToHexBytesIsFixedWidth(size, 2);
    BigEndianPair(size / 256, size % 256);
    BigEndianInjective(FixedBytes(size, 2), [size / 256, size % 256]);
  }

  /** The hex of the nine bytes after the size field. */
  lemma TailHex()
    ensures HexOf([DUP1, PUSH1, 0x0c, PUSH1, 0x00, CODECOPY, PUSH1, 0x00, RETURN]) == "80600c6000396000f3"
  {
    var head: seq<Byte> := [DUP1, PUSH1, 0x0c, PUSH1];
    var rest: seq<Byte> := [0x00, CODECOPY, PUSH1, 0x00, RETURN];
    assert head + rest == [DUP1, PUSH1, 0x0c, PUSH1, 0x00, CODECOPY, PUSH1, 0x00, RETURN];
    HexOfAppend(head, rest);
    HeadHex();
    RestHex();
  }

  lemma HeadHex()
    ensures HexOf([DUP1, PUSH1, 0x0c, PUSH1]) == "80600c60"
  {
    var t3: seq<Byte> := [PUSH1];
    assert HexOf(t3) == "60" by {
      HexOfSingle(PUSH1);
    }
    var t2 := [0x0c] + t3;
    assert HexOf(t2) == "0c60" by {
      HexOfCons(0x0c, t3);
    }
    var t1 := [PUSH1] + t2;
    assert HexOf(t1) == "600c60" by {
      HexOfCons(PUSH1, t2);
    }
    assert HexOf([DUP1] + t1) == "80600c60" by {
      HexOfCons(DUP1, t1);
    }
    assert [DUP1] + t1 == [DUP1, PUSH1, 0x0c, PUSH1];
  }

  lemma RestHex()
    ensures HexOf([0x00, CODECOPY, PUSH1, 0x00, RETURN]) == "00396000f3"
  {
    var t4: seq<Byte> := [RETURN];
    assert HexOf(t4) == "f3" by {
      HexOfSingle(RETURN);
    }
    var t3 := [0x00] + t4;
    assert HexOf(t3) == "00f3" by {
      HexOfCons(0x00, t4);
    }
    var t2 := [PUSH1] + t3;
    assert HexOf(t2) == "6000f3" by {
      HexOfCons(PUSH1, t3);
    }
    var t1 := [CODECOPY] + t2;
    assert HexOf(t1) == "396000f3" by {
      HexOfCons(CODECOPY, t2);
    }
    assert HexOf([0x00] + t1) == "00396000f3" by {
      HexOfCons(0x00, t1);
    }
    assert [0x00] + t1 == [0x00, CODECOPY, PUSH1, 0x00, RETURN];
  }

  /**
   * The init code `test` sends (scripts/deploy.ts, lines 37-38): the prefix for a payload
   * of |deployedBytecode| / 2 bytes, then the payload's hex.
   */
  function InitCode(deployedBytecode: string): Result<string, Error>
    requires IsHex(deployedBytecode) && |deployedBytecode| % 2 == 0
  {
    var size := |deployedBytecode| / 2;
    var prefix :- BlankConstructor(size);
    Success(prefix + deployedBytecode)
  }

  /** The script's init code is the hex of the prefix bytes followed by the payload bytes. */
  lemma InitCodeIsHexOfCode(deployedBytecode: string)
    requires IsHex(deployedBytecode) && |deployedBytecode| % 2 == 0
    requires |deployedBytecode| / 2 < 0x1_0000
    ensures var payload := DecodeHex(deployedBytecode);
            InitCode(deployedBytecode) == Success("0x" + HexOf(PrefixBytes(|payload|) + payload))
  {
    var payload := DecodeHex(deployedBytecode);
    var n := |payload|;
    InitCodeText(deployedBytecode);
    HexOfDecode(deployedBytecode);
    HexOfAppend(PrefixBytes(n), payload);
    AppendAssoc("0x", HexOf(PrefixBytes(n)), HexOf(payload));
  }

  lemma InitCodeText(deployedBytecode: string)
    requires IsHex(deployedBytecode) && |deployedBytecode| % 2 == 0
    requires |deployedBytecode| / 2 < 0x1_0000
    ensures InitCode(deployedBytecode) == Success("0x" + HexOf(PrefixBytes(|deployedBytecode| / 2)) + deployedBytecode)
  {
    BlankConstructorEncodesPrefix(|deployedBytecode| / 2);
  }

  lemma AppendAssoc(a: string, b: string, c: string)
    ensures a + b + c == a + (b + c)
  {
  }

  /**
   * Init code exists exactly for payloads below 65536 bytes: 26 characters
   * of prefix followed by the payload's hex unchanged. Larger payloads fail
   * in repeat below 2^32 bytes and at the explicit guard above.
   */
  lemma InitCodeOutcome(deployedBytecode: string)
    requires IsHex(deployedBytecode) && |deployedBytecode| % 2 == 0
    ensures InitCode(deployedBytecode).Success? <==> |deployedBytecode| / 2 < 0x1_0000
    ensures InitCode(deployedBytecode).Success? ==>
              var r := InitCode(deployedBytecode).value;
              |r| == 26 + |deployedBytecode| && r[..26] == BlankConstructor(|deployedBytecode| / 2).value &&
              r[26..] == deployedBytecode
    ensures 0x1_0000 <= |deployedBytecode| / 2 < 0x1_0000_0000 ==> InitCode(deployedBytecode).error.RangeError?
    ensures 0x1_0000_0000 <= |deployedBytecode| / 2 ==> InitCode(deployedBytecode).error.CouldNotConvert?
  {
    BlankConstructorOutcome(|deployedBytecode| / 2);
  }
}
