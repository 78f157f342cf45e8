/**
 * Execution of EVM code restricted to the instructions a minimal init-code
 * prefix uses: PUSH1, PUSH2, DUP1, CODECOPY and RETURN, plus STOP, which is
 * what the machine reads past the end of its code. The semantics follow
 * section 9 and Appendix H.2 of the Ethereum Yellow Paper; gas is not
 * modelled.
 */
module Evm {
  import opened Bytes

  // Opcodes (Yellow Paper, Appendix H.2).
  const STOP: Byte := 0x00
  const CODECOPY: Byte := 0x39
  const PUSH1: Byte := 0x60
  const PUSH2: Byte := 0x61
  const DUP1: Byte := 0x80
  const RETURN: Byte := 0xf3

  /** The deepest the stack may grow (Yellow Paper, section 9.4.2). */
  const StackLimit: nat := 1024

  /** A 256-bit machine word. */
  type Word = w: nat | w < 0x1_0000000000000000000000000000000000000000000000000000000000000000

  /** Program counter, stack (top first, as the Yellow Paper's mu_s) and memory. */
  datatype Machine = Machine(pc: nat, stack: seq<Word>, memory: seq<Byte>)

  /** How an execution ends. */
  datatype Outcome =
    | Returned(output: seq<Byte>)
    | Stopped
    | StackUnderflow
    | StackOverflow
    | Unsupported(opcode: Byte)

  datatype StepResult = Next(next: Machine) | Halt(outcome: Outcome)

  /** The machine a contract creation starts in. */
  const Initial := Machine(0, [], [])

  predicate Valid(m: Machine) {
    |m.stack| <= StackLimit
  }

  /** The instruction at pc; past the end of the code the machine reads STOP. */
  function OpcodeAt(code: seq<Byte>, pc: nat): Byte {
    if pc < |code| then code[pc] else STOP
  }

  /**
   * size bytes of s from offset on, reading 0 past the end of s (how both
   * CODECOPY reads code and RETURN reads memory).
   */
  function PaddedSlice(s: seq<Byte>, offset: nat, size: nat): (r: seq<Byte>)
    ensures |r| == size
  {
    seq(size, i requires 0 <= i < size => if offset + i < |s| then s[offset + i] else 0)
  }

  /**
   * Memory after storing data at offset: memory grows (with zero bytes) to
   * cover the written range, and nothing outside that range changes.
   */
  function Store(memory: seq<Byte>, offset: nat, data: seq<Byte>): (r: seq<Byte>)
    ensures data != [] ==> |r| == if offset + |data| > |memory| then offset + |data| else |memory|
    ensures data == [] ==> r == memory
  {
    if data == [] then memory
    else
      var size := if offset + |data| > |memory| then offset + |data| else |memory|;
      seq(size, i requires 0 <= i < size =>
        if offset <= i < offset + |data| then data[i - offset]
        else if i < |memory| then memory[i] else 0)
  }

  /** Inside s, a padded slice is the plain slice; past its end it reads zeros. */
  lemma PaddedSliceInside(s: seq<Byte>, offset: nat, size: nat)
    ensures offset + size <= |s| ==> PaddedSlice(s, offset, size) == s[offset..offset + size]
    ensures offset >= |s| ==> PaddedSlice(s, offset, size) == Zeros(size)
  {
  }

  /**
   * Storing data at offset: reading those |data| bytes back gives data, and
   * every byte of the old memory outside the written range is unchanged.
   */
  lemma StoreThenRead(memory: seq<Byte>, offset: nat, data: seq<Byte>)
    ensures PaddedSlice(Store(memory, offset, data), offset, |data|) == data
    ensures forall i :: 0 <= i < |memory| && !(offset <= i < offset + |data|) ==> Store(memory, offset, data)[i] == memory[i]
  {
    var r := Store(memory, offset, data);
    if data != [] {
      assert PaddedSlice(r, offset, |data|) == data;
    }
  }

  /** The immediate of a PUSHn at pc: the next n code bytes, big-endian. */
  function Immediate(code: seq<Byte>, pc: nat, n: nat): (w: Word)
    requires 1 <= n <= 2
  {
    var bytes := PaddedSlice(code, pc + 1, n);
    BigEndianBound(bytes);
    assert Pow256(n) <= 0x1_0000;
    BigEndian(bytes)
  }

  /** One instruction. */
  function Step(code: seq<Byte>, m: Machine): (r: StepResult)
    ensures m.pc >= |code| ==> r == Halt(Stopped)
    ensures r.Next? ==> r.next.pc > m.pc
    ensures r.Next? ==> |r.next.memory| >= |m.memory|
    ensures Valid(m) && r.Next? ==> Valid(r.next)
  {
    var op := OpcodeAt(code, m.pc);
    if op == STOP then Halt(Stopped)
    else if op == PUSH1 || op == PUSH2 then
      var n := if op == PUSH1 then 1 else 2;
      if |m.stack| + 1 > StackLimit then Halt(StackOverflow)
      else Next(m.(pc := m.pc + 1 + n, stack := [Immediate(code, m.pc, n)] + m.stack))
    else if op == DUP1 then
      if |m.stack| < 1 then Halt(StackUnderflow)
      else if |m.stack| + 1 > StackLimit then Halt(StackOverflow)
      else Next(m.(pc := m.pc + 1, stack := [m.stack[0]] + m.stack))
    else if op == CODECOPY then
      if |m.stack| < 3 then Halt(StackUnderflow)
      else
        var destOffset, offset, size := m.stack[0], m.stack[1], m.stack[2];
        Next(Machine(m.pc + 1, m.stack[3..], Store(m.memory, destOffset, PaddedSlice(code, offset, size))))
    else if op == RETURN then
      if |m.stack| < 2 then Halt(StackUnderflow)
      else Halt(Returned(PaddedSlice(m.memory, m.stack[0], m.stack[1])))
    else Halt(Unsupported(op))
  }

  /** Runs from m until the machine halts; with no jumps, pc only moves forward. */
  function Run(code: seq<Byte>, m: Machine): Outcome
    decreases |code| - m.pc
  {
    match Step(code, m)
    case Halt(outcome) => outcome
    case Next(m') => Run(code, m')
  }

  /** Runs code as init code, from an empty stack and empty memory. */
  function Execute(code: seq<Byte>): Outcome {
    Run(code, Initial)
  }

  /**
   * A run that goes through the machines of trace, one instruction each, and
   * halts from the last one with o, ends in o.
   */
  lemma {:induction false} RunTrace(code: seq<Byte>, trace: seq<Machine>, o: Outcome)
    requires |trace| >= 1
    requires forall i :: 0 <= i < |trace| - 1 ==> Step(code, trace[i]) == Next(trace[i + 1])
    requires Step(code, trace[|trace| - 1]) == Halt(o)
    ensures Run(code, trace[0]) == o
    decreases |trace|
  {
    if |trace| > 1 {
      assert Step(code, trace[0]) == Next(trace[1]);
      RunTrace(code, trace[1..], o);
    }
  }

  // One lemma per instruction: its effect on a machine about to execute it.

  lemma StepPush(code: seq<Byte>, m: Machine, n: nat)
    requires 1 <= n <= 2 && OpcodeAt(code, m.pc) == (if n == 1 then PUSH1 else PUSH2)
    requires |m.stack| < StackLimit
    ensures Step(code, m) == Next(m.(pc := m.pc + 1 + n, stack := [Immediate(code, m.pc, n)] + m.stack))
  {
  }

  lemma StepDup(code: seq<Byte>, m: Machine)
    requires OpcodeAt(code, m.pc) == DUP1 && 1 <= |m.stack| < StackLimit
    ensures Step(code, m) == Next(m.(pc := m.pc + 1, stack := [m.stack[0]] + m.stack))
  {
  }

  lemma StepCodeCopy(code: seq<Byte>, m: Machine)
    requires OpcodeAt(code, m.pc) == CODECOPY && 3 <= |m.stack|
    ensures Step(code, m)
         == Next(Machine(m.pc + 1, m.stack[3..], Store(m.memory, m.stack[0], PaddedSlice(code, m.stack[1], m.stack[2]))))
  {
  }

  lemma StepReturn(code: seq<Byte>, m: Machine)
    requires OpcodeAt(code, m.pc) == RETURN && 2 <= |m.stack|
    ensures Step(code, m) == Halt(Returned(PaddedSlice(m.memory, m.stack[0], m.stack[1])))
  {
  }
}
