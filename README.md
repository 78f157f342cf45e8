# deployedBytecodeBug: a Dafny model of the init-code encoders

The deployment script `scripts/deploy.ts` deploys arbitrary bytes as a
contract's code. It prepends a 12-byte "blank constructor" to the payload:

    PUSH2 size; DUP1; PUSH1 0x0c; PUSH1 0x00; CODECOPY; PUSH1 0x00; RETURN

This prefix copies the `size` bytes after itself into memory and returns them.
The script sends the resulting init code to the chain and checks that the code
now stored there equals the payload.

This project models the script's two encoders and the init-code assembly:

- `toHexBytes` is a fixed-width big-endian hex encoder built on ethers'
  `hexlify` and JavaScript's `String.prototype.repeat`;
- `blankConstructor` builds the prefix text;
- `test` forms `blankConstructor(size) + deployedBytecode`.

The project also models the part of the Ethereum Virtual Machine the prefix
uses: PUSH1, PUSH2, DUP1, CODECOPY, RETURN and STOP, with the opcode values of
Appendix H.2 and the stack and memory rules of section 9 of the Ethereum
Yellow Paper. This machine is the specification the prefix is proved against.
The central theorem is `Creation.CreatedCodeIsPayload`: for every payload
below 65536 bytes, the script's init code produces the payload as the created
contract's code. That is the comparison the script makes at lines 49 and 65.

Modules, one per file:

- `Wrappers`: `Option` and `Result`.
- `Bytes`: bytes, big-endian values, and the minimal and fixed-width encodings
  of a natural number.
- `Hex`: lowercase hex text, and encoding and decoding with their round trips.
- `Runtime`: `hexlify` on a natural number, and `repeat`. A negative count is
  an error.
- `Evm`: the machine, one step at a time, and runs.
- `Deploy`: `ToHexBytes`, `BlankConstructor`, `PrefixBytes`, `InitCode`.
- `Creation`: what a creation transaction leaves as code, and the end-to-end
  theorem.

`toHexBytes` guards with `requiredBytes > 2*bytes` rather than
`requiredBytes > bytes`. The model keeps this as written. A value needing
between `bytes + 1` and `2*bytes` bytes passes the guard and then fails in
`repeat` with a negative count (a JavaScript RangeError). Only larger values
reach the script's own `Error`. Either way, the function returns a string
exactly when the value fits, as `Deploy.ToHexBytesOutcome` states. For the
size field of `blankConstructor` this means:

- sizes from 65536 to 2^32 - 1 fail with a RangeError;
- sizes from 2^32 on fail with the script's `Error`.

## Model

| member | source | states |
|---|---|---|
| Bytes.MinimalBytes | scripts/deploy.ts:5 | the bytes `hexlify` writes for a non-negative integer: at least one byte, big-endian value val, no leading zero byte unless the value is the single byte 0, exactly [0] for 0 |
| Bytes.MinimalBytesFit | scripts/deploy.ts:6-7 | hexlify's byte count is at most n if and only if val < 256^n |
| Bytes.FixedBytesPadsMinimal | scripts/deploy.ts:10 | when the minimal encoding fits in n bytes, the n-byte big-endian encoding is that minimal encoding with zero bytes in front |
| Hex.DecodeHexOf | scripts/deploy.ts:5 | decoding the lowercase hex of bytes gives the bytes back |
| Hex.HexOfDecode | scripts/deploy.ts:37-38 | re-encoding decoded even-length lowercase hex gives the text back |
| Hex.HexValueOfHexOf | scripts/deploy.ts:5 | the hex text of bytes, read as a big-endian hex number, is the bytes' big-endian value |
| Runtime.HexlifyIsMinimalHex | scripts/deploy.ts:5 | `hexlify(val)` is "0x" and an even number (at least two) of hex digits, with value val, starting with "00" only for "0x00" |
| Runtime.Repeat | scripts/deploy.ts:10 | `repeat` fails exactly for a negative count; otherwise the result has count times the length of s characters, starts with s, and repeats with the length of s as its period |
| Deploy.ToHexBytesOutcome | scripts/deploy.ts:4-11 | a string exactly when val needs at most `bytes` bytes, and then 2*bytes hex digits; the script's Error exactly when val needs more than 2*bytes bytes; the RangeError of `repeat` exactly in between |
| Deploy.ToHexBytesFits | scripts/deploy.ts:4-10 | a string exactly when bytes >= 1 and val < 256^bytes |
| Deploy.ToHexBytesIsFixedWidth | scripts/deploy.ts:4-10 | a value that fits is encoded as its bytes-wide big-endian representation in hex |
| Deploy.ToHexBytesRoundTrip | scripts/deploy.ts:5-10 | on success the output is even-length hex that reads back as val and decodes to val's bytes-wide big-endian bytes |
| Deploy.ToHexBytesPadding | scripts/deploy.ts:10 | on success the output is 2*(bytes - required) '0' digits followed by hexlify's digits without "0x" |
| Deploy.ZeroPadding | scripts/deploy.ts:10 | `"00".repeat(k)` is the hex of k zero bytes |
| Deploy.ToHexBytesTwoByteFailures | scripts/deploy.ts:6-10 | for a two-byte field, 65536 fails in `repeat` with count -1 and 2^32 fails at the explicit guard |
| Deploy.PrefixLayout | scripts/deploy.ts:16-26 | the prefix is 12 bytes; its byte 5, CODECOPY's source offset, is 12; bytes 1-2 are the big-endian size; all other bytes are the same for every size |
| Deploy.BlankConstructorEncodesPrefix | scripts/deploy.ts:14-26 | for a size below 65536, `blankConstructor(size)` is "0x" followed by the hex of the 12 prefix bytes |
| Deploy.BlankConstructorOutcome | scripts/deploy.ts:14-26 | a string exactly for sizes below 65536, namely "0x" and 24 hex digits; a RangeError for sizes from 65536 to 2^32 - 1, the script's Error from 2^32 on |
| Deploy.InitCodeIsHexOfCode | scripts/deploy.ts:37-38 | the init code `test` builds is "0x" and the hex of the prefix bytes followed by the payload bytes |
| Deploy.InitCodeOutcome | scripts/deploy.ts:37-38 | init code exists exactly for payloads below 65536 bytes; it is the 26-character prefix text followed by the payload hex unchanged; larger payloads fail with a RangeError below 2^32 bytes and with the script's Error from there on |
| Evm.Step | scripts/deploy.ts:16-26 | one instruction of the prefix's instruction set; past the end of the code the machine stops; a step moves pc forward, never shrinks memory, and keeps the stack within 1024 items |
| Evm.PaddedSliceInside | scripts/deploy.ts:20-25 | reading code or memory inside its bounds gives the plain slice, and reading past its end gives zeros |
| Evm.StoreThenRead | scripts/deploy.ts:22-23 | after CODECOPY's store, the stored bytes read back unchanged, and memory outside the written range is untouched |
| Evm.RunTrace | scripts/deploy.ts:13-26 | a run through a sequence of machines, one instruction each, that halts from the last machine ends with that halt's outcome |
| Creation.PrefixReturnsPayload | scripts/deploy.ts:13-26 | running prefix ++ payload from an empty machine halts through RETURN with output exactly the payload |
| Creation.CreationReturns | scripts/deploy.ts:42-46 | init code whose run returns some output leaves "0x" and the hex of that output as the contract's code |
| Creation.CreatedCodeIsPayload | scripts/deploy.ts:36-49 | for every even-length hex payload below 65536 bytes, init code exists and the created contract's code is "0x" followed by the payload |

## Left out

- Chain interaction in `main` and `test`: signers, the factory contract, `sendTransaction`, `factory.create`, `getCode`, logging and try/catch. This is network I/O. The code a creation stores is modelled instead by `Creation.CodeAfterCreation`.
- `ethers.utils.getContractAddress` and the nonce counters. The address is library code (RLP and Keccak) and the nonces mirror chain state. The model identifies the created contract only by its code.
- Gas: instruction costs, memory-expansion pricing, the 63/64 forwarding rule, `CRITICAL_SIZE` and the `gasLimit` fix. These are properties of the node's gas accounting, not of the encoders.
- Memory rounding to 32-byte words. It is only visible through gas and the MSIZE opcode, and neither is modelled.
- Opcodes other than PUSH1, PUSH2, DUP1, CODECOPY, RETURN and STOP. A run that reaches another opcode ends with `Unsupported`.
- `hexlify`'s checks on a JavaScript number: non-integers, negatives and values above 2^53 - 1 are rejected by the library. The model's arguments are natural numbers, and the sizes `test` can produce are far below 2^53.
- `InitCode` requires even-length lowercase hex. An odd-length payload would give `blankConstructor` a fractional size, which `hexlify` rejects. Every call in `main` passes even-length lowercase hex.
- The text of the script's error message. `CouldNotConvert` carries val, the hex digits and `bytes` instead of the formatted string.
- `Creation.CodeAfterCreation` does not model the EIP-170 limit of 24576 bytes on deployed code, or the EIP-3541 rejection of code starting with 0xef. Both depend on the fork the node runs.
