# Weak PRNG, CBC gadgets and CTR IV reuse, in Dafny

This project models three cryptography demonstrations written in TypeScript.

**The weak PRNG.** The project models V8's XorShift128+ generator behind `Math.random`:
- the forward step, the closed-form reverse step, and the 52-bit mantissa each state exposes;
- the 64-bit bit patterns of doubles in [1, 2) that carry those mantissas;
- the byte codec that packs 52-bit mantissas 52 bits apart into a buffer (`floatsToBytes`) and unpacks them (`bytesToFloats`);
- the `weakRandomBytes` cache that serves bytes built from `Math.random` draws;
- `findXorShiftStates`, which recovers a generator state from observed outputs by handing a system of bit-vector constraints to a solver.

**CBC gadgets.** `injectGadget` forges an AES-CBC message whose first plaintext block is known. The forged message decrypts to the first chosen block (gadget0), one block the attacker does not control, the second chosen block (gadget1), and then the original message from its second block on (the EFAIL technique).

**CTR IV reuse.** Two zero-padded messages are encrypted under one key and IV in CTR mode. Xoring the two ciphertext bodies reveals both plaintexts.

## How the model is organised

| module | file |
|---|---|
| `Arith` (powers of two, division and remainder facts) | `arith.dfy` |
| `Bytes` (buffers as `seq<bv8>`: little-endian values, `readBigUint64LE`/`writeBigUint64LE`, `subarray`, `xor`) | `bytes.dfy` |
| `XorShift128` | `xorshift128.dfy` |
| `MantissaBits` (`floatToMantissa`, `mantissaToFloat`, `extractNumberFromState` on bit patterns) | `mantissa_bits.dfy` |
| `MantissaStream` (`floatsToBytes`, `bytesToFloats`) | `mantissa_stream.dfy` |
| `WeakByteSource` (`weakRandomBytes`) | `weak_byte_source.dfy` |
| `StateRecovery` (`findXorShiftStates`) | `state_recovery.dfy` |
| `CbcGadgets` (`injectGadget`, CBC as in section 6.2 of NIST SP 800-38A) | `cbc_gadgets.dfy` |
| `IvReuseCtr` (the IV-reuse demonstration, CTR as in section 6.5 of NIST SP 800-38A) | `iv_reuse_ctr.dfy` |

**How the model stands in for what it cannot see:**
- Bytes are `bv8` and the generator's words are `bv64`. The source's `BigInt.asUintN(64, …)` truncations are exactly 64-bit bit-vector arithmetic. Because the type is `bv64`, both words of every state, before and after a step, stay below 2^64.
- The stream codec reasons about the little-endian value of a buffer, as a natural number.
- `Math.random` is a parameter: the mantissa of its k-th draw.
- The bit-vector solver is a parameter: a function from a constraint system to an answer. Its soundness and completeness appear only as hypotheses inside the contracts.
- The AES block cipher and the CTR keystream are uninterpreted functions.

**The cache serves its padding.** `floatsToBytes` pads each refill to a whole byte. A refill that draws an odd number of mantissas therefore ends with a byte whose high nibble is zero, and the cache later serves that byte as random. `WeakByteSource.ServedNibble` exhibits a concrete run where this happens.

## Model

| member | source | states |
|---|---|---|
| XorShift128.UnmixLeftInverts | weak-prng/xorshift128.ts:17-33 | the masked left fold `t ^ t<<23 ^ t<<46` and the left xor-shift undo each other, in both orders, on every 64-bit word |
| XorShift128.UnmixRightInverts | weak-prng/xorshift128.ts:18-32 | the right fold `t ^ t>>17 ^ t>>34 ^ t>>51` and the right xor-shift undo each other, in both orders |
| XorShift128.MixInverse | weak-prng/xorshift128.ts:17-33 | the reverse step's two folds invert the forward step's two xor-shifts, in both orders |
| XorShift128.BlendInverse | weak-prng/xorshift128.ts:19-31 | stripping the current first word back out undoes folding the old second word in, for every fixed first word, in both orders |
| XorShift128.Forward | weak-prng/xorshift128.ts:13-22 | `xorShift128p`: the new first word is the old second word |
| XorShift128.Reverse | weak-prng/xorshift128.ts:27-35 | `reverseXorShift128p`: the new second word is the old first word |
| XorShift128.ReverseForward | weak-prng/xorshift128.ts:13-35 | the reverse step undoes the forward step on all 2^128 states |
| XorShift128.ForwardReverse | weak-prng/xorshift128.ts:13-35 | the forward step undoes the reverse step on every state, so the step is a bijection |
| XorShift128.ForwardNShift | weak-prng/xorshift128.ts:13-22 | one step and then n steps is n + 1 steps |
| XorShift128.ReverseNShift | weak-prng/xorshift128.ts:27-35 | one reverse step and then n more is n + 1 reverse steps |
| XorShift128.ReverseNForwardN | weak-prng/xorshift128.ts:13-35 | n reverse steps after n forward steps return to the start |
| XorShift128.ForwardNReverseN | weak-prng/xorshift128.ts:13-35 | n forward steps after n reverse steps return to the start, so a recovered state can be moved either way in time |
| XorShift128.ExtractMantissa | weak-prng/xorshift128.ts:8 | `state[0] >> 12` is below 2^52 and is exactly the top 52 bits of the first word |
| MantissaBits.MantissaToBits | weak-prng/break-prng.ts:6-27 | `mantissaToFloat` as a bit pattern keeps the mantissa's low 52 bits; a mantissa below 2^52 gets the exponent of [1, 2) |
| MantissaBits.FloatToMantissa | weak-prng/prng.ts:6-11 | `floatToMantissa` gives a value below 2^52 that, with the pattern's top 12 bits, rebuilds the pattern |
| MantissaBits.MantissaRoundTrip | weak-prng/break-prng.ts:15 | masking (with `floatToMantissa`'s mask, weak-prng/prng.ts line 10) the pattern built from a mantissa gives the mantissa back |
| MantissaBits.PatternRoundTrip | weak-prng/break-prng.ts:15 | rebuilding (after `floatToMantissa`'s mask, weak-prng/prng.ts line 10) a pattern from its mantissa gives the pattern back if and only if it encodes a double in [1, 2) |
| MantissaBits.NumberBits | weak-prng/xorshift128.ts:8 | `extractNumberFromState` before its `- 1`: a double in [1, 2) whose mantissa is the state's output |
| MantissaStream.Packed | weak-prng/prng.ts:16-48 | the reference packing: ceil(52n/8) bytes whose little-endian value is the sum of m_i * 2^(52i) |
| MantissaStream.Unpacked | weak-prng/break-prng.ts:31-50 | the reference unpacking: floor(8 len/52) mantissas, each the matching 52-bit group of the buffer's value |
| MantissaStream.UnpackPacked | weak-prng/break-prng.ts:31-50 | unpacking a packed stream gives the stream back |
| MantissaStream.DigitOfValue | weak-prng/break-prng.ts:39-46 | every mantissa can be read back from its own 52-bit position of the stream's value |
| MantissaStream.ValueAppend | weak-prng/prng.ts:35-45 | the value of a concatenated stream places the second part 52 bits per mantissa up |
| MantissaStream.Offset | weak-prng/prng.ts:35-45 | the byte offset of write i is 52i/8 for an even i, and (52i - 4)/8 for an odd i, whose mantissa starts 4 bits into the byte |
| MantissaStream.BufferSize | weak-prng/prng.ts:24 | `bufferSize` (with JavaScript's remainder, so n = 0 takes the odd branch) has room for every 8-byte write and for the ceil(52n/8) bytes returned |
| MantissaStream.SharedByte | weak-prng/prng.ts:40 | the byte an odd write starts at holds only the previous mantissa's top nibble, and the buffer is still zero from 8 bytes further on |
| MantissaStream.NibbleOr | weak-prng/prng.ts:42 | `BigInt(previousByte) \| (mantissa << 4n)` is their sum and fits the 64-bit write |
| MantissaStream.OddWrite | weak-prng/prng.ts:38-45 | an odd write places the mantissa 4 bits into the shared byte and keeps that byte's low nibble |
| MantissaStream.WriteMantissa | weak-prng/prng.ts:35-45 | one loop pass adds mantissa i at bit 52i, leaves the bytes before its offset alone, and keeps the shared nibble |
| MantissaStream.Encode | weak-prng/prng.ts:16-48 | `floatsToBytes` returns exactly the reference packing |
| MantissaStream.DecodePadding | weak-prng/break-prng.ts:35 | the up-to-2-byte zero padding makes every 8-byte read fit |
| MantissaStream.ReadEven | weak-prng/break-prng.ts:41-46 | an 8-byte read at an even offset, masked to 52 bits, is that index's mantissa |
| MantissaStream.ReadOdd | weak-prng/break-prng.ts:44-46 | an 8-byte read at an odd offset, shifted down 4 bits and masked, is that index's mantissa |
| MantissaStream.ReadMantissa | weak-prng/break-prng.ts:39-46 | one decoder pass yields the i-th 52-bit group of the buffer's value |
| MantissaStream.Decode | weak-prng/break-prng.ts:31-50 | `bytesToFloats` returns exactly the reference unpacking |
| MantissaStream.BitOr | weak-prng/prng.ts:42 | a bitwise or of naturals is at least each operand and at most their sum |
| MantissaStream.BitOrDisjoint | weak-prng/prng.ts:42 | an or of numbers with disjoint bits is their sum |
| WeakByteSource.DrawCount | weak-prng/prng.ts:61 | `numRandom` is the fewest mantissas whose 52-bit groups carry 8 size bits |
| WeakByteSource.Draws | weak-prng/prng.ts:62 | the n draws after the first `from`, in order |
| WeakByteSource.BatchLength | weak-prng/prng.ts:61-63 | a refill packs between size and size + 6 bytes |
| WeakByteSource.Batch | weak-prng/prng.ts:61-63 | a refill's bytes spell the value of its draws, and a refill for 0 bytes is empty |
| WeakByteSource.AddBytes | weak-prng/prng.ts:58-64 | `addBytesToRandomCache` keeps the cache as a prefix, appends the refill, and advances the draw count |
| WeakByteSource.Deficit | weak-prng/prng.ts:70 | `toGenerateLength` is 0 exactly when the cache covers the request, and otherwise is what it lacks |
| WeakByteSource.WeakRandomBytes | weak-prng/prng.ts:68-75 | returns exactly `size` bytes; the bytes served plus the cache left are the old cache plus the refill; a covered request draws nothing; an uncovered one leaves at most 6 bytes |
| WeakByteSource.Prefilled | weak-prng/prng.ts:80 | the load-time prefill draws 20 numbers and caches 130 bytes spelling them |
| WeakByteSource.OddBatchNibble | weak-prng/prng.ts:21-47 | a batch of an odd number of mantissas ends in a byte below 16 |
| WeakByteSource.ServedNibble | weak-prng/prng.ts:58-80 | after the prefill, a 131-byte request and then a 6-byte request serve a byte below 16, whatever was drawn |
| WeakByteSource.ServeConserves | weak-prng/prng.ts:68-75 | over any run of calls, the bytes served plus the cache left are the first cache plus every refill, in order, and total the sizes requested |
| StateRecovery.SymStep | weak-prng/break-prng.ts:73-80 | one loop pass moves the second symbolic word into the first |
| StateRecovery.MixLeftBits | weak-prng/break-prng.ts:76 | `s1.xor(s1.shl(23))` is the generator's left xor-shift |
| StateRecovery.MixRightBits | weak-prng/break-prng.ts:77 | `s1.xor(s1.lshr(17))` is the generator's right xor-shift |
| StateRecovery.BlendBits | weak-prng/break-prng.ts:78-79 | the two xors with `s0` are the generator's blend |
| StateRecovery.SymStepEval | weak-prng/break-prng.ts:73-80 | for any values of the unknowns, one symbolic pass evaluates to the generator's forward step |
| StateRecovery.SymStateNEval | weak-prng/break-prng.ts:65-80 | after k passes the symbolic pair stands for the unknown state stepped forward k times |
| StateRecovery.BuildConstraints | weak-prng/break-prng.ts:72-88 | the loop asserts one constraint per observation, last observation first: pass j + 1 ties `lshr(12)` of the first word to observation n - 1 - j |
| StateRecovery.ShiftRight12Extract | weak-prng/break-prng.ts:87 | `lshr(12)` of a state's first word is the mantissa the state exposes |
| StateRecovery.ConstraintAt | weak-prng/break-prng.ts:85-87 | a constraint holds if and only if its observation's mantissa is the mantissa of the matching stepped state |
| StateRecovery.ConstraintsMeaning | weak-prng/break-prng.ts:72-88 | a state meets every constraint if and only if it is consistent with every observation |
| StateRecovery.SolverAnswers | weak-prng/break-prng.ts:90-106 | a sound solver's model is consistent; a complete solver answers `sat` whenever a consistent state exists |
| StateRecovery.FindXorShiftState | weak-prng/break-prng.ts:54-107 | a recovered state is consistent with the observations (sound solver), and recovery fails only if no state is consistent (complete solver) |
| StateRecovery.GeneratedIsConsistent | weak-prng/break-prng.ts:69-72 | outputs generated from a state and served last-first are consistent with that state, so it is among the solutions |
| Bytes.Zeros | iv-reuse-ctr/index.ts:12-13 | `Buffer.alloc(n)` is n zero bytes |
| Bytes.Subarray | iv-reuse-ctr/encryptCTR.ts:11-12 | `subarray` clamps both bounds to the buffer and is empty when the end does not pass the start |
| Bytes.Xor | cbc-gadgets/cbc-gadgets.ts:3 | `xor(buf1, buf2)` is as long as buf1; each byte is buf1's byte xored with buf2's, where a byte past buf2's end xors as 0 |
| Bytes.XorInvolutive | cbc-gadgets/cbc-gadgets.ts:3 | xoring twice with a key that covers the buffer gives the buffer back |
| Bytes.XorZeros | iv-reuse-ctr/index.ts:5 | xoring with zero bytes, or with an empty buffer, changes nothing |
| Bytes.XorCommutes | iv-reuse-ctr/index.ts:5 | on equally long buffers the operands of `xor` may be swapped |
| Bytes.ReadU64LE | weak-prng/break-prng.ts:41 | `readBigUint64LE(off)` is the 64-bit window of the buffer's value at byte off |
| Bytes.WriteU64LE | weak-prng/prng.ts:37-44 | `writeBigUint64LE(v, off)` replaces exactly the 8 bytes at off with v's little-endian bytes |
| CbcGadgets.Blocks | cbc-gadgets/encryptWithoutMac.ts:19-20 | a buffer of whole blocks cuts into 16-byte blocks, as many as it holds |
| CbcGadgets.BlocksJoin | cbc-gadgets/cbc-gadgets.ts:23-29 | cutting joined blocks gives the blocks back |
| CbcGadgets.BlocksAppend | cbc-gadgets/cbc-gadgets.ts:23-29 | cutting a concatenation at a block boundary cuts each part |
| CbcGadgets.CbcEncrypt | cbc-gadgets/encryptWithoutMac.ts:10-12 | `cipher.update` in CBC mode: each ciphertext block is the encipherment of the plaintext block xored with the previous ciphertext block, the IV for the first; a cipher that keeps blocks 16 bytes long gives whole blocks |
| CbcGadgets.CbcDecrypt | cbc-gadgets/encryptWithoutMac.ts:21-22 | CBC decryption: each plaintext block is the deciphered block xored with the previous ciphertext block, the IV for the first |
| CbcGadgets.CbcRoundTrip | cbc-gadgets/encryptWithoutMac.ts:8-23 | CBC decryption undoes CBC encryption for any block cipher |
| CbcGadgets.EncryptMessage | cbc-gadgets/encryptWithoutMac.ts:8-13 | `encrypt` lays out `<IV><ciphertext>`: the IV comes first, and whole plaintext blocks give one more block of output |
| CbcGadgets.DecryptMessage | cbc-gadgets/encryptWithoutMac.ts:18-23 | `decrypt` takes the first 16 bytes as the IV and the rest as ciphertext: one plaintext block per ciphertext block, the first deciphered against the IV |
| CbcGadgets.MessageRoundTrip | cbc-gadgets/encryptWithoutMac.ts:8-23 | a `<IV><ciphertext>` message decrypts to the blocks it encrypts |
| CbcGadgets.InjectGadget | cbc-gadgets/cbc-gadgets.ts:13-30 | the forgery is 32 bytes longer; both copies of c0 and the tail c1 are the original bytes; x0 and x1 are iv xor p0 xor each gadget |
| CbcGadgets.ForgedLayout | cbc-gadgets/cbc-gadgets.ts:18-29 | the forgery is x0, c0, x1, c0, c1 in full |
| CbcGadgets.ForgedBlocks | cbc-gadgets/cbc-gadgets.ts:14-29 | the forgery has x0 as its IV and then the blocks c0, x1, c0 followed by the original ciphertext blocks after the first |
| CbcGadgets.GadgetCancels | cbc-gadgets/cbc-gadgets.ts:18-20 | deciphering c0 and xoring with x0 leaves the gadget |
| CbcGadgets.CbcDecryptAfter | cbc-gadgets/cbc-gadgets.ts:16-28 | blocks after a block boundary decrypt using only the block before them |
| CbcGadgets.FirstBlockDeciphers | cbc-gadgets/cbc-gadgets.ts:15-25 | the first ciphertext block deciphers to p0 xor iv |
| CbcGadgets.GadgetDecrypts | cbc-gadgets/cbc-gadgets.ts:13-30 | the forgery decrypts to gadget0, a garbage block, gadget1, and then the original plaintext from its second block on |
| IvReuseCtr.PadFirst | iv-reuse-ctr/index.ts:12 | message 1 followed by as many zero bytes as message 2 has |
| IvReuseCtr.PadSecond | iv-reuse-ctr/index.ts:13 | as many zero bytes as message 1 has, followed by message 2 |
| IvReuseCtr.PaddedXor | iv-reuse-ctr/index.ts:11-17 | the xor of the padded messages is the concatenation of the messages, whatever their lengths |
| IvReuseCtr.CheckSetup | iv-reuse-ctr/index.ts:15-17 | the demonstration runs if and only if the messages are equally long; the padding check never fails |
| IvReuseCtr.Apply | iv-reuse-ctr/encryptCTR.ts:5-7 | `cipher.update` in CTR mode: the output is as long as the message, and byte i is message byte i xored with keystream byte i |
| IvReuseCtr.ApplyTwice | iv-reuse-ctr/index.ts:34-36 | applying a keystream twice gives the message back |
| IvReuseCtr.EncryptCtr | iv-reuse-ctr/encryptCTR.ts:4-8 | succeeds exactly for a 16-byte IV and lays out `<IV><ciphertext>` |
| IvReuseCtr.DecryptCtr | iv-reuse-ctr/encryptCTR.ts:10-16 | succeeds exactly for a buffer of at least 16 bytes and returns the rest's length |
| IvReuseCtr.CtrRoundTrip | iv-reuse-ctr/index.ts:24-29 | `decryptCTR` of `encryptCTR` gives the message back |
| IvReuseCtr.KeystreamCancels | iv-reuse-ctr/index.ts:34-44 | the same keystream on two equally long messages cancels: (m1 xor k) xor (m2 xor k) = m1 xor m2 |
| IvReuseCtr.ReusedIvLeaksXor | iv-reuse-ctr/index.ts:24-45 | with one key and IV, the ciphertext bodies after the 16-byte IV xor to m1 xor m2 |
| IvReuseCtr.ReusedIvRevealsMessages | iv-reuse-ctr/index.ts:19-50 | with the padded messages, the xor of the ciphertext bodies is message 1 followed by message 2 |

## Left out

- Floating point is left out. The model works on 64-bit bit patterns and mantissas. The `+ 1` that maps a draw in [0, 1) to [1, 2), and the `- 1` back, are not modelled.
- `Math.random` is a parameter (`WeakByteSource.Source`). The model does not cover V8's batching of outputs. GeneratedIsConsistent takes last-first serving as its hypothesis.
- The Z3 solver of `findXorShiftStates` is a parameter. Its `interrupt()` call and its asynchronous interface are left out.
- StateRecovery.Term has only the shift amounts the loop uses (23, 17, 26, 12). It is not a general bit-vector language.
- The PKCS#7 padding that `cipher.final()` adds before CBC encryption, and checks after decryption, is left out: messages are modelled as whole blocks. MAC verification is left out too (see below).
- AES is an uninterpreted block cipher, and the CTR keystream is an uninterpreted function of the IV under a fixed key. `randomBytes`, and the key handling of `node:crypto`, are left out.
- weak-prng/encrypt.ts (`encryptThenMac`, `checkMacThenDecrypt`) is left out. It lays a message out as `<IV><ciphertext><MAC>`: AES-256-CBC, then a 32-byte HMAC-SHA256 of the IV and ciphertext. `checkMacThenDecrypt` checks and strips the last 32 bytes before it splits off the IV. HMAC is not modelled. The `<IV><ciphertext>` part before the MAC is the layout CbcGadgets.EncryptMessage and CbcGadgets.DecryptMessage model.
- cbc-gadgets/encryptWithMac.ts (`appendMac`, `checkMacThenReturnPayload`) is left out. It does no encryption: it only appends a 32-byte HMAC-SHA256 to a payload, and checks and strips it.
- CbcGadgets.InjectGadget: for a buffer shorter than two blocks, only the result's length is stated.
- CbcGadgets.CbcDecrypt: it does not check that the ciphertext blocks are 16 bytes long. Every lemma about it assumes whole blocks.
- IvReuseCtr.EncryptCtr: Node also rejects a key that is not 32 bytes. The key is not part of the model.
- The `xorResult !== Buffer.concat(...)` comparison at iv-reuse-ctr/index.ts:49 compares references, so it is always true. The logging it guards is left out, as is every `console.log`.
- The demonstration scripts weak-prng/index.ts and cbc-gadgets/index.ts are left out. They print and call the modelled operations. weak-prng/index.ts also calls `encryptThenMac` and `checkMacThenDecrypt`, and cbc-gadgets/index.ts calls `appendMac` and `checkMacThenReturnPayload`; neither pair is modelled.
- The cache's bytes are not one packing of the whole draw stream. The code packs one refill at a time, and a refill of an odd number of draws leaves a zero nibble (see WeakByteSource.ServedNibble). The model follows the code.
