/**
 * Contract creation from the script's init code. A creation transaction
 * runs its data as EVM code and stores what RETURN hands back as the new
 * contract's code. The central theorem: created from prefix ++ payload, a
 * contract's code is exactly the payload.
 */
module Creation {
  import opened Wrappers
  import opened Bytes
  import opened Hex
  import opened Evm
  import opened Deploy

  /**
   * The code a creation transaction with the given "0x"-prefixed init code
   * leaves at the new address, as "0x"-prefixed hex (what eth_getCode
   * reports); None when the init code is not hex or creation fails.
   */
  function CodeAfterCreation(initCode: string): Option<string> {
    if IsHexData(initCode) then CreatedCode(DecodeHex(initCode[2..])) else None
  }

  /** "0x" followed by an even number of lowercase hex digits. */
  predicate IsHexData(s: string) {
    |s| >= 2 && s[..2] == "0x" && IsHex(s[2..]) && |s| % 2 == 0
  }

  /** The code that running init code leaves behind, None when the run fails. */
  function CreatedCode(code: seq<Byte>): Option<string> {
    match Execute(code)
    case Returned(output) => Some("0x" + HexOf(output))
    case Stopped => Some("0x")
    case _ => None
  }

  /**
   * The comparison in scripts/deploy.ts at lines 49 and 65 holds: created from the script's init
   * code, the contract's code is "0x" followed by the payload.
   */
  lemma {:induction false} CreatedCodeIsPayload(deployedBytecode: string)
    requires IsHex(deployedBytecode) && |deployedBytecode| % 2 == 0
    requires |deployedBytecode| / 2 < 0x1_0000
    ensures InitCode(deployedBytecode).Success?
    ensures CodeAfterCreation(InitCode(deployedBytecode).value) == Some("0x" + deployedBytecode)
  {
    var payload := DecodeHex(deployedBytecode);
    var code := PrefixBytes(|payload|) + payload;
    InitCodeIsHexOfCode(deployedBytecode);
    PrefixReturnsPayload(payload);
    CreationReturns(code, payload);
    HexOfDecode(deployedBytecode);
  }

  /** Init code whose run returns output leaves output as the contract's code. */
  lemma CreationReturns(code: seq<Byte>, output: seq<Byte>)
    requires Execute(code) == Returned(output)
    ensures CodeAfterCreation("0x" + HexOf(code)) == Some("0x" + HexOf(output))
  {
    HexDataOfCode(code);
    assert CreatedCode(code) == Some("0x" + HexOf(output));
  }

  /** Code written as "0x" and its hex is hex data that decodes back to the code. */
  lemma HexDataOfCode(code: seq<Byte>)
    ensures IsHexData("0x" + HexOf(code))
    ensures DecodeHex(("0x" + HexOf(code))[2..]) == code
  {
    var initCode := "0x" + HexOf(code);
    assert initCode[..2] == "0x" && initCode[2..] == HexOf(code);
    DecodeHexOf(code);
  }

  /**
   * Yellow Paper semantics of prefix ++ payload: the prefix copies the
   * payload into memory and returns exactly the payload.
   */
  lemma {:induction false} PrefixReturnsPayload(payload: seq<Byte>)
    requires |payload| < 0x1_0000
    ensures Execute(PrefixBytes(|payload|) + payload) == Returned(payload)
  {
    var n := |payload|;
    var code := PrefixBytes(n) + payload;
    assert code[12..] == payload;
    var trace := PrefixTrace(n, payload);
    PushSize(code, n);
    DupSize(code, n);
    PushCopyOffset(code, n);
    PushCopyDestination(code, n);
    CopyPayload(code, n);
    PushReturnOffset(code, n);
    ReturnPayload(code, n);
    RunTrace(code, trace, Returned(payload));
  }

  /** The machines the prefix passes through, before each of its seven instructions. */
  function PrefixTrace(n: nat, payload: seq<Byte>): (trace: seq<Machine>)
    requires n < 0x1_0000
    ensures |trace| == 7 && trace[0] == Initial
  {
    [ Initial,
      Machine(3, [n], []),
      Machine(4, [n, n], []),
      Machine(6, [12, n, n], []),
      Machine(8, [0, 12, n, n], []),
      Machine(9, [n], payload),
      Machine(11, [0, n], payload) ]
  }

  // The prefix, one instruction at a time.

  lemma PushSize(code: seq<Byte>, n: nat)
    requires n < 0x1_0000 && |code| >= 12 && code[..12] == PrefixBytes(n)
    ensures Step(code, Initial) == Next(Machine(3, [n], []))
  {
    assert code[0] == PUSH2;
    assert PaddedSlice(code, 1, 2) == [n / 256, n % 256];
    BigEndianPair(n / 256, n % 256);
    StepPush(code, Initial, 2);
    assert [Immediate(code, 0, 2)] + [] == [n];
  }

  lemma DupSize(code: seq<Byte>, n: nat)
    requires n < 0x1_0000 && |code| >= 12 && code[..12] == PrefixBytes(n)
    ensures Step(code, Machine(3, [n], [])) == Next(Machine(4, [n, n], []))
  {
    assert code[3] == DUP1;
    StepDup(code, Machine(3, [n], []));
    assert [n] + [n] == [n, n];
  }

  lemma PushCopyOffset(code: seq<Byte>, n: nat)
    requires n < 0x1_0000 && |code| >= 12 && code[..12] == PrefixBytes(n)
    ensures Step(code, Machine(4, [n, n], [])) == Next(Machine(6, [12, n, n], []))
  {
    assert code[4] == PUSH1;
    assert PaddedSlice(code, 5, 1) == [12];
    BigEndianSingle(12);
    StepPush(code, Machine(4, [n, n], []), 1);
    assert [12] + [n, n] == [12, n, n];
  }

  lemma PushCopyDestination(code: seq<Byte>, n: nat)
    requires n < 0x1_0000 && |code| >= 12 && code[..12] == PrefixBytes(n)
    ensures Step(code, Machine(6, [12, n, n], [])) == Next(Machine(8, [0, 12, n, n], []))
  {
    assert code[6] == PUSH1;
    assert PaddedSlice(code, 7, 1) == [0];
    BigEndianSingle(0);
    StepPush(code, Machine(6, [12, n, n], []), 1);
    assert [0] + [12, n, n] == [0, 12, n, n];
  }

  lemma CopyPayload(code: seq<Byte>, n: nat)
    requires n < 0x1_0000 && |code| == 12 + n && code[..12] == PrefixBytes(n)
    ensures Step(code, Machine(8, [0, 12, n, n], [])) == Next(Machine(9, [n], code[12..]))
  {
    assert code[8] == CODECOPY;
    StepCodeCopy(code, Machine(8, [0, 12, n, n], []));
    assert PaddedSlice(code, 12, n) == code[12..];
    assert Store([], 0, code[12..]) == code[12..];
    assert [0, 12, n, n][3..] == [n];
  }

  lemma PushReturnOffset(code: seq<Byte>, n: nat)
    requires n < 0x1_0000 && |code| == 12 + n && code[..12] == PrefixBytes(n)
    ensures Step(code, Machine(9, [n], code[12..])) == Next(Machine(11, [0, n], code[12..]))
  {
    assert code[9] == PUSH1;
    assert PaddedSlice(code, 10, 1) == [0];
    BigEndianSingle(0);
    StepPush(code, Machine(9, [n], code[12..]), 1);
    assert [0] + [n] == [0, n];
  }

  lemma ReturnPayload(code: seq<Byte>, n: nat)
    requires n < 0x1_0000 && |code| == 12 + n && code[..12] == PrefixBytes(n)
    ensures Step(code, Machine(11, [0, n], code[12..])) == Halt(Returned(code[12..]))
  {
    assert code[11] == RETURN;
    StepReturn(code, Machine(11, [0, n], code[12..]));
    assert PaddedSlice(code[12..], 0, n) == code[12..];
  }

}
