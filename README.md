# PowerPC instruction decoder of Reko, in Dafny

This project models the PowerPC disassembler of the Reko decompiler
(`PowerPcDisassembler`). The disassembler reads one 32-bit instruction word
and resets its per-instruction state: the operand list `ops` and the
"sets CR0" flag `allowSetCR0`. It then dispatches on the primary opcode
(the top six bits) through a table of decoders. A decoder leaf runs its
*mutators* left to right. A mutator either appends one operand, sets the
flag, checks a condition, or rejects the encoding. A rejected encoding, and
an encoding no decoder supports, gives the `illegal` instruction of class
`Invalid`. An all-zero word also gets the class `Zero`. Every record is
stamped with the address the word was read from and a length of 4 bytes.

Files:

- `bits.dfy` (`Bits`): 32-bit words and the C# casts the decoder uses: `(short)`, `(ushort)`, `(byte)`, `(int)`. It also holds the `Bitfield` reads.
- `operands.dfy` (`PowerPcOperands`): registers, operands, the architecture's register catalogs, and the private helpers `MemOff`, `CRegFromBits`, `RegFromBits`, `FRegFromBits`, `VRegFromBits`.
- `mutators.dfy` (`PowerPcMutators`): every mutator as a value.
  - `EffectOf` gives what a mutator does to the decode state for a word.
  - `Run` and `RunAll` give how a list of mutators composes.
- `mutator_effects.dfy` (`PowerPcMutatorEffects`): one unfolding lemma per mutator family. These keep the proofs small and state nothing beyond `EffectOf` itself.
- `mutator_properties.dfy` (`PowerPcMutatorProperties`): what the mutators guarantee: failure rules, exact operands, well-formedness, and composition.
- `decoders.dfy` (`PowerPcDecoders`): the decoder tree and the pure meaning of decoding one word (`DecodeWord`).
- `disassembler.dfy` (`PowerPcDisassembly`): the class `PowerPcDisassembler`.
  - Its fields `ops`, `allowSetCR0` and `addr` are updated in place by one method per mutator, by `DisassembleInstruction`, and by the decode loop.
  - Each method is proved against the pure definitions above.

Assumptions:

- `Bitfield` comes from Reko's core library, which is not part of this model. `Bits.Read` extracts `length` bits starting at bit `position`, counted from the least significant bit. `ReadSigned` sign-extends that value from the field's width.
- `ReadFields` concatenates the fields' bits, first field most significant, and truncates the result to a `uint`. `ReadSignedFields` sign-extends the concatenation from its total width.
- Reko's generic decoder classes are not part of this model either. `PowerPcDecoders.Decoder` models them with three node kinds:
  - an instruction leaf (mnemonic, class, mutators), which runs its mutators in order and yields `CreateInvalidInstruction()` at the first failure, or `MakeInstruction` otherwise;
  - a node that selects a child by a bit field;
  - a not-yet-implemented leaf.

Where the comments and the code disagree, the model follows the code.
`C6` tests bit 6 (`1 << 6`), although its comment names bit 10; bit 10 is
what `C10` tests. `PowerPcMutatorProperties.FlagBits` states the bit the
code tests. The second oddity is that `p1`-`p4` are bound to `f` rather than
to `p`; see "Findings".

## Model

| member | source | states |
|---|---|---|
| Bits.ToInt16 | src/Arch/PowerPC/PowerPcDisassembler.cs:133-137 | `(short) w`: in -2^15..2^15-1, and equal to the low half when that is non-negative, or to the low half minus 2^16 otherwise |
| Bits.ToUInt16 | src/Arch/PowerPC/PowerPcDisassembler.cs:140-144 | `(ushort) w` lies in 0..2^16-1 |
| Bits.HalfwordExamples | src/Arch/PowerPC/PowerPcDisassembler.cs:133-144 | a low half of 0xFFFF reads as -1 signed and as 0xFFFF unsigned; 0x8000 reads as -2^15; 0x7FFF is unchanged |
| Bits.ToByte | src/Arch/PowerPC/PowerPcDisassembler.cs:270-277 | `(byte) x` lies in 0..255, differs from x by a multiple of 256 (it keeps the low 8 bits), and leaves a value already in range unchanged |
| Bits.ToInt32 | src/Arch/PowerPC/PowerPcDisassembler.cs:285-294 | `(int)` of a `uint`: values below 2^31 are kept, values from 2^31 to 2^32-1 become the value minus 2^32 |
| Bits.Read | src/Arch/PowerPC/PowerPcDisassembler.cs:304-313 | a field read lies below 2^length (assumption about `Bitfield.Read`) |
| Bits.ReadIsDivMod | src/Arch/PowerPC/PowerPcDisassembler.cs:304-313 | a field read is the word divided by 2^position, modulo 2^length |
| Bits.ReadSigned | src/Arch/PowerPC/PowerPcDisassembler.cs:344-356 | a signed field read fits a C# `int`; its value is fixed by `ReadSignedRange` and `ReadSignedAgrees` |
| Bits.ReadSignedRange | src/Arch/PowerPC/PowerPcDisassembler.cs:344-356 | a signed read of a 1..32-bit field lies in that field's signed range |
| Bits.ReadSignedAgrees | src/Arch/PowerPC/PowerPcDisassembler.cs:344-356 | a signed read of a 1..32-bit field is the field's unsigned value when not negative and that value minus 2^length when negative, so it agrees with the field modulo 2^length; with `ReadSignedRange` this is the sign extension |
| Bits.ReadFields | src/Arch/PowerPC/PowerPcDisassembler.cs:285-294 | the concatenated fields, truncated to a `uint` |
| Bits.ReadFieldsWraps | src/Arch/PowerPC/PowerPcDisassembler.cs:285-294 | `ReadFields` is the concatenation modulo 2^32 |
| Bits.ReadFieldsNoWrap | src/Arch/PowerPC/PowerPcDisassembler.cs:285-294 | fields of at most 32 bits in total read as their exact concatenation, below 2^total |
| Bits.ConcatBound | src/Arch/PowerPC/PowerPcDisassembler.cs:285-294 | the concatenation of fields stays below 2^(total length) |
| Bits.ConcatSplit | src/Arch/PowerPC/PowerPcDisassembler.cs:285-294 | the last field's value is the concatenation's low bits, and the earlier fields are its high part |
| Bits.ReadSignedFields | src/Arch/PowerPC/PowerPcDisassembler.cs:315-324 | the sign-extended concatenation fits a C# `int`; its value is fixed by `ReadSignedFieldsAgrees` |
| Bits.ReadSignedFieldsAgrees | src/Arch/PowerPC/PowerPcDisassembler.cs:315-324 | for 1..32 bits in total, the signed concatenation lies in the signed range of the total width and is the concatenation, or the concatenation minus 2^total when negative: the concatenation sign-extended |
| Bits.FieldsExamples | src/Arch/PowerPC/PowerPcDisassembler.cs:315-324 | a 4-bit field of all ones reads as 15 unsigned and as -1 signed |
| PowerPcOperands.MemOff | src/Arch/PowerPC/PowerPcDisassembler.cs:435-438 | a Word32 memory operand whose base is GPR `reg & 0x1F` and whose offset is `(short) w`; always well formed |
| PowerPcOperands.CRegFromBits | src/Arch/PowerPC/PowerPcDisassembler.cs:440-443 | the CR field at index `r & 7`, a member of the CR bank |
| PowerPcOperands.RegFromBits | src/Arch/PowerPC/PowerPcDisassembler.cs:445-448 | the GPR at index `r & 0x1F`, a member of the GPR bank |
| PowerPcOperands.FRegFromBits | src/Arch/PowerPC/PowerPcDisassembler.cs:450-453 | the FPR at index `r & 0x1F`, a member of the FPR bank |
| PowerPcOperands.VRegFromBits | src/Arch/PowerPC/PowerPcDisassembler.cs:455-458 | unmasked: defined only for `r < 128` (every call site proves its index below 128), and then exactly the vector register at index `r` (`Low7(r)`, which `Bits.Low7OfSmall` shows is `r` itself below 128) |
| PowerPcMutators.WdIndex | src/Arch/PowerPC/PowerPcDisassembler.cs:372-377 | below 128; low five bits come from the field at 21, the two high bits from bits 2-3 |
| PowerPcMutators.WaIndex | src/Arch/PowerPC/PowerPcDisassembler.cs:379-384 | below 128; low five bits come from the field at 16, bit 5 from bit 5, bit 6 from bit 10 |
| PowerPcMutators.WbIndex | src/Arch/PowerPC/PowerPcDisassembler.cs:386-391 | below 128; low five bits come from the field at 11, the two high bits from bits 0-1 |
| PowerPcMutators.WcIndex | src/Arch/PowerPC/PowerPcDisassembler.cs:393-401 | the 3-bit field at bit 6, so only v0-v7 |
| PowerPcMutators.SprNumber | src/Arch/PowerPC/PowerPcDisassembler.cs:406-409 | below 1024; the low half is the field at 16 and the high half the field at 11 (halves swapped) |
| PowerPcMutators.EncodeSpr | src/Arch/PowerPC/PowerPcDisassembler.cs:406-409 | inverse of `SprNumber`: encoding any number below 1024 decodes back to it, and every bit outside the SPR field (bits 11-20) is kept |
| PowerPcMutators.SprOperand | src/Arch/PowerPC/PowerPcDisassembler.cs:406-418 | the table register when the number is known, otherwise a UInt32 constant equal to the number |
| PowerPcMutators.EffectOf | src/Arch/PowerPC/PowerPcDisassembler.cs:96-431 | the pure meaning of every mutator, one arm per mutator. It carries no contract of its own: `EffectFailsIff` gives the exact failure conditions, `EffectKinds` which mutators set the flag or do nothing, and `FlagBits`, `MemoryOperand`, `AlignedMemoryOperand`, `FiveBitImmediateExact`, `FieldMaskImmediateExact`, `UnsignedFieldExact`, `SignedFieldRange`, `FieldsImmediateIsSigned`, `HalfwordImmediates`, `ConcatenatedImmediate`, `PairedRejectsOdd`, `RegistersWellFormed` and `OthersWellFormed` the operands |
| PowerPcMutators.Apply | src/Arch/PowerPC/PowerPcDisassembler.cs:96-431 | a mutator succeeds unless its effect is a failure, and a failure leaves the state unchanged |
| PowerPcMutators.Run | src/Arch/PowerPC/PowerPcDisassembler.cs:96-431 | the left-to-right runner of a leaf's mutators (assumed leaf behaviour): the old operands always stay in front, with at most one new operand per effect. `RunFailsIff` and `RunSucceeds` characterise its failure and its result |
| PowerPcMutators.RunAll | src/Arch/PowerPC/PowerPcDisassembler.cs:96-431 | running a list of mutators keeps the old operands in front and adds at most one per mutator. `MutatorsFailIff` and `MutatorsKeepWellFormed` relate it to the individual mutators |
| PowerPcMutatorProperties.EffectFailsIff | src/Arch/PowerPC/PowerPcDisassembler.cs:160-167 | exactly three mutators can fail: `E2_2` on a misaligned displacement, `p` on an odd FPR, and `Is64Bit` when the word width is not 64 |
| PowerPcMutatorProperties.EffectKinds | src/Arch/PowerPC/PowerPcDisassembler.cs:101-130 | only `C`, `C6`, `C10` and `CC` touch the flag; only a successful `Is64Bit` changes nothing; every other mutator that succeeds appends an operand |
| PowerPcMutatorProperties.FlagBits | src/Arch/PowerPC/PowerPcDisassembler.cs:101-120 | the flag equals bit 0, bit 6 and bit 10 of the word; for `C6` this is bit 6, not the bit 10 its comment names |
| PowerPcMutatorProperties.EffectOperandWellFormed | src/Arch/PowerPC/PowerPcDisassembler.cs:133-426 | every appended operand is well formed: catalog registers (every bank index in range), a GPR memory base, and constants that fit their type |
| PowerPcMutatorProperties.ImmediatesWellFormed | src/Arch/PowerPC/PowerPcDisassembler.cs:133-367 | every constant a mutator appends fits its type (Int16, Word16, Byte, Int32) |
| PowerPcMutatorProperties.RegistersWellFormed | src/Arch/PowerPC/PowerPcDisassembler.cs:169-267 | a register mutator that succeeds appends a register of its own bank: CR fields for `c`, `Cr` and `X3`, FPRs for `f` and `p`, GPRs for `r`, vector registers otherwise. `v` takes the vector register of its 5-bit field (v0-v31); `v3_` and `Wc` take that of a 3-bit field (v0-v7) |
| PowerPcMutatorProperties.VectorFieldIndex | src/Arch/PowerPC/PowerPcDisassembler.cs:243-267 | `v(k)` appends the vector register numbered by the 5-bit field at k, and `v3_(k)` the one numbered by the 3-bit field at k |
| PowerPcMutatorProperties.WideSmallIndex | src/Arch/PowerPC/PowerPcDisassembler.cs:393-401 | `Wc` appends the vector register numbered by the 3-bit field at bit 6, so only v0-v7 |
| PowerPcMutatorProperties.OthersWellFormed | src/Arch/PowerPC/PowerPcDisassembler.cs:146-167 | `E` and `E2_2` append a memory operand based on a GPR with an Int16 offset; `SPR` appends a register of the SPR table or a UInt32 constant below 1024 |
| PowerPcMutatorProperties.PairedRejectsOdd | src/Arch/PowerPC/PowerPcDisassembler.cs:212-223 | when FPR numbers follow the index parity, `p(k)` fails iff bit k of the word is set, and otherwise acts as `f(k)` |
| PowerPcMutatorProperties.LowBitParity | src/Arch/PowerPC/PowerPcDisassembler.cs:217-218 | a masked register index is odd exactly when its lowest bit is set |
| PowerPcMutatorProperties.PairedInstancesAcceptOdd | src/Arch/PowerPC/PowerPcDisassembler.cs:224-227 | as written, `p1`-`p4` never fail: word 0x0020_0000 is rejected by `p(21)` but accepted by `p1` |
| PowerPcMutatorProperties.CorrectedPairsRejectOdd | src/Arch/PowerPC/PowerPcDisassembler.cs:212-227 | the instances bound to `p` reject exactly an odd register in their field |
| PowerPcMutatorProperties.FiveBitImmediateExact | src/Arch/PowerPC/PowerPcDisassembler.cs:270-283 | `I(k)` is exactly the 5-bit field at k; the byte cast truncates nothing |
| PowerPcMutatorProperties.FieldMaskImmediateExact | src/Arch/PowerPC/PowerPcDisassembler.cs:296-302 | `M` is exactly the 8-bit field at bit 12 |
| PowerPcMutatorProperties.UnsignedFieldExact | src/Arch/PowerPC/PowerPcDisassembler.cs:304-313 | for fields of at most 8 bits, `u(pos, len)` is the unsigned field value, below 2^len |
| PowerPcMutatorProperties.SignedFieldRange | src/Arch/PowerPC/PowerPcDisassembler.cs:344-356 | `s(pos, len)` appends an Int32 constant in the signed range of a len-bit field that agrees with the field value modulo 2^len: the field sign-extended |
| PowerPcMutatorProperties.HalfwordImmediates | src/Arch/PowerPC/PowerPcDisassembler.cs:133-144 | `S` and `U` read the same low half: the signed value modulo 2^16 is the unsigned value |
| PowerPcMutatorProperties.FieldsImmediateIsSigned | src/Arch/PowerPC/PowerPcDisassembler.cs:315-324 | `u(Bitfield[])` has the same effect as `s(Bitfield[])`, an Int32 constant that for 1..32 bits in total lies in the signed range of that width and agrees with the concatenation modulo 2^total: the fields are sign-extended despite the name |
| PowerPcMutatorProperties.ConcatenatedImmediate | src/Arch/PowerPC/PowerPcDisassembler.cs:285-294 | `i(fields)` of at most 32 bits in total is the concatenated value when it is below 2^31 and that value minus 2^32 otherwise; with at most 31 bits it is never negative |
| PowerPcMutatorProperties.MemoryOperand | src/Arch/PowerPC/PowerPcDisassembler.cs:146-158 | `E(k)` is a Word32 access based at the GPR of the 5-bit field at k, with the sign-extended low half as offset |
| PowerPcMutatorProperties.AlignedMemoryOperand | src/Arch/PowerPC/PowerPcDisassembler.cs:160-167 | `E2_2` fails iff `w & 3 != 0`, and otherwise equals `E(16)` |
| PowerPcMutatorProperties.SprExample | src/Arch/PowerPC/PowerPcDisassembler.cs:406-409 | the SPR field of `mtspr 272, r0` (0x7C1043A6) decodes as 272 |
| PowerPcMutatorProperties.RunFailsIff | src/Arch/PowerPC/PowerPcDisassembler.cs:96-431 | a run of effects fails iff one of the effects is a failure |
| PowerPcMutatorProperties.MutatorsFailIff | src/Arch/PowerPC/PowerPcDisassembler.cs:96-431 | a list of mutators fails on a word iff one of them fails on it |
| PowerPcMutatorProperties.RunSucceeds | src/Arch/PowerPC/PowerPcDisassembler.cs:96-431 | after a successful run, the operands are the old ones followed by the appended ones in order, and the flag is the last one set |
| PowerPcMutatorProperties.LastFlagFront | src/Arch/PowerPC/PowerPcDisassembler.cs:101-130 | the last flag setting, seen from the front: the first effect only decides the starting value |
| PowerPcMutatorProperties.RunKeepsWellFormed | src/Arch/PowerPC/PowerPcDisassembler.cs:96-431 | appending only well-formed operands keeps the operand list well formed |
| PowerPcMutatorProperties.MutatorsKeepWellFormed | src/Arch/PowerPC/PowerPcDisassembler.cs:96-431 | any list of mutators keeps the operand list well formed |
| PowerPcDecoders.Select | src/Arch/PowerPC/PowerPcDisassembler.cs:67 | the leaf a word reaches is never a mask node, and it is well formed and free of a class when the whole tree is |
| PowerPcDecoders.SelectTotal | src/Arch/PowerPC/PowerPcDisassembler.cs:67 | in a well-formed tree, every word reaches a leaf |
| PowerPcDecoders.Decode | src/Arch/PowerPC/PowerPcDisassembler.cs:67-94 | decoding through a tree yields either the invalid instruction or a length-4 record at the given address that carries exactly the operands and flag left behind; old operands are never dropped. `DecodeLeaf` gives the exact record |
| PowerPcDecoders.DecodeLeaf | src/Arch/PowerPC/PowerPcDisassembler.cs:75-94 | an instruction leaf gives the invalid instruction iff a mutator fails; otherwise a length-4 record with the appended operands in order and the last flag set. A not-yet-implemented leaf gives the invalid instruction and changes nothing |
| PowerPcDecoders.DecodeWellFormed | src/Arch/PowerPC/PowerPcDisassembler.cs:67 | decoding keeps the operands well formed |
| PowerPcDecoders.PrimaryIndex | src/Arch/PowerPC/PowerPcDisassembler.cs:67 | the primary dispatch index `w >> 26` is below 64 |
| PowerPcDecoders.PrimaryIndexIsOpcode | src/Arch/PowerPC/PowerPcDisassembler.cs:67 | the dispatch index is the word divided by 2^26, that is, the primary opcode |
| PowerPcDecoders.DecodeWord | src/Arch/PowerPC/PowerPcDisassembler.cs:60-73 | the pure meaning of `DisassembleInstruction` after a read: the record carries the read address and length 4, word 0 gets `Zero`, and it is either the illegal record (class `Invalid`, no operands, no CR0) or the record of the decode state left behind. `DecodeWordStamped`, `DecodeWordInvalid` and `DecodeWordWellFormed` say more |
| PowerPcDecoders.DecodeWordStamped | src/Arch/PowerPC/PowerPcDisassembler.cs:64-72 | the record keeps every class its decoder gave; when no table entry uses `Zero`, it has `Zero` iff the word is 0 |
| PowerPcDecoders.DecodeWordWellFormed | src/Arch/PowerPC/PowerPcDisassembler.cs:64-72 | every operand of a decoded record is well formed, starting from the reset state |
| PowerPcDecoders.DecodeWordInvalid | src/Arch/PowerPC/PowerPcDisassembler.cs:75-82 | a failing or unsupported encoding gives `illegal` with class `Invalid` (plus `Zero` for word 0), no operands, and no CR0 |
| PowerPcDisassembly.ImageReader.TryReadUInt32 | src/Arch/PowerPC/PowerPcDisassembler.cs:62-63 | fails iff no word is left; a read yields the next word and advances by 4 |
| PowerPcDisassembly.PowerPcDisassembler.constructor | src/Arch/PowerPC/PowerPcDisassembler.cs:50-58 | stores the architecture, table, reader and word width; empty operand list, no address; the object is valid when the banks have their sizes and the table has 64 entries |
| PowerPcDisassembly.PowerPcDisassembler.C | src/Arch/PowerPC/PowerPcDisassembler.cs:101-105 | succeeds; the flag becomes bit 0 of the word and nothing else changes |
| PowerPcDisassembly.PowerPcDisassembler.C6 | src/Arch/PowerPC/PowerPcDisassembler.cs:107-114 | succeeds; the flag becomes bit 6 and nothing else changes |
| PowerPcDisassembly.PowerPcDisassembler.C10 | src/Arch/PowerPC/PowerPcDisassembler.cs:116-120 | succeeds; the flag becomes bit 10 and nothing else changes |
| PowerPcDisassembly.PowerPcDisassembler.CC | src/Arch/PowerPC/PowerPcDisassembler.cs:123-130 | succeeds; the flag becomes true and nothing else changes |
| PowerPcDisassembly.PowerPcDisassembler.S | src/Arch/PowerPC/PowerPcDisassembler.cs:132-137 | succeeds and appends exactly one Int16 constant `(short) w` to `ops` |
| PowerPcDisassembly.PowerPcDisassembler.U | src/Arch/PowerPC/PowerPcDisassembler.cs:139-144 | succeeds and appends exactly one Word16 constant `(ushort) w` |
| PowerPcDisassembly.PowerPcDisassembler.E | src/Arch/PowerPC/PowerPcDisassembler.cs:146-158 | succeeds and appends exactly one memory operand `MemOff(w >> bitPos, w)` |
| PowerPcDisassembly.PowerPcDisassembler.E2_2 | src/Arch/PowerPC/PowerPcDisassembler.cs:160-167 | succeeds iff `w & 3 == 0`: it then appends `MemOff(w >> 16, w)`, and otherwise leaves everything unchanged |
| PowerPcDisassembly.PowerPcDisassembler.c | src/Arch/PowerPC/PowerPcDisassembler.cs:169-181 | succeeds and appends the CR field selected by the word |
| PowerPcDisassembly.PowerPcDisassembler.Cr | src/Arch/PowerPC/PowerPcDisassembler.cs:183-196 | succeeds and appends the CR field selected by the word |
| PowerPcDisassembly.PowerPcDisassembler.f | src/Arch/PowerPC/PowerPcDisassembler.cs:198-210 | succeeds and appends the selected FPR |
| PowerPcDisassembly.PowerPcDisassembler.p | src/Arch/PowerPC/PowerPcDisassembler.cs:212-223 | succeeds iff the selected FPR has an even number: it then appends it, and otherwise leaves everything unchanged |
| PowerPcDisassembly.PowerPcDisassembler.r | src/Arch/PowerPC/PowerPcDisassembler.cs:229-241 | succeeds and appends the selected GPR |
| PowerPcDisassembly.PowerPcDisassembler.v | src/Arch/PowerPC/PowerPcDisassembler.cs:243-255 | succeeds and appends the vector register of the 5-bit field |
| PowerPcDisassembly.PowerPcDisassembler.v3_ | src/Arch/PowerPC/PowerPcDisassembler.cs:257-267 | succeeds and appends the vector register of the 3-bit field |
| PowerPcDisassembly.PowerPcDisassembler.I | src/Arch/PowerPC/PowerPcDisassembler.cs:270-283 | succeeds and appends the byte constant of the 5-bit field |
| PowerPcDisassembly.PowerPcDisassembler.i | src/Arch/PowerPC/PowerPcDisassembler.cs:285-294 | succeeds and appends `(int) ReadFields` |
| PowerPcDisassembly.PowerPcDisassembler.M | src/Arch/PowerPC/PowerPcDisassembler.cs:296-302 | succeeds and appends the byte constant of the 8-bit field at 12 |
| PowerPcDisassembly.PowerPcDisassembler.u | src/Arch/PowerPC/PowerPcDisassembler.cs:304-313 | succeeds and appends the byte cast of the field read |
| PowerPcDisassembly.PowerPcDisassembler.uFields | src/Arch/PowerPC/PowerPcDisassembler.cs:315-324 | succeeds and appends `ReadSignedFields` as an Int32 constant |
| PowerPcDisassembly.PowerPcDisassembler.s | src/Arch/PowerPC/PowerPcDisassembler.cs:344-352 | succeeds and appends the signed field read |
| PowerPcDisassembly.PowerPcDisassembler.sFields | src/Arch/PowerPC/PowerPcDisassembler.cs:358-367 | succeeds and appends `ReadSignedFields` as an Int32 constant |
| PowerPcDisassembly.PowerPcDisassembler.Wd | src/Arch/PowerPC/PowerPcDisassembler.cs:372-377 | succeeds and appends the vector register at `WdIndex` |
| PowerPcDisassembly.PowerPcDisassembler.Wa | src/Arch/PowerPC/PowerPcDisassembler.cs:379-384 | succeeds and appends the vector register at `WaIndex` |
| PowerPcDisassembly.PowerPcDisassembler.Wb | src/Arch/PowerPC/PowerPcDisassembler.cs:386-391 | succeeds and appends the vector register at `WbIndex` |
| PowerPcDisassembly.PowerPcDisassembler.Wc | src/Arch/PowerPC/PowerPcDisassembler.cs:393-401 | succeeds and appends the vector register at `WcIndex` |
| PowerPcDisassembly.PowerPcDisassembler.SPR | src/Arch/PowerPC/PowerPcDisassembler.cs:403-418 | succeeds and appends the table register or the UInt32 number |
| PowerPcDisassembly.PowerPcDisassembler.X3 | src/Arch/PowerPC/PowerPcDisassembler.cs:420-426 | succeeds and appends the CR field at bit 23 |
| PowerPcDisassembly.PowerPcDisassembler.Is64Bit | src/Arch/PowerPC/PowerPcDisassembler.cs:428-431 | succeeds iff the default word width is 64 bits, and changes nothing |
| PowerPcDisassembly.PowerPcDisassembler.Mutate | src/Arch/PowerPC/PowerPcDisassembler.cs:96-431 | running any mutator's method changes the state exactly as `Apply(EffectOf(...))` says and keeps `addr` |
| PowerPcDisassembly.PowerPcDisassembler.RunMutators | src/Arch/PowerPC/PowerPcDisassembler.cs:67 | the loop over a leaf's mutators ends in exactly the outcome and state of `RunAll` (assumed leaf behaviour) |
| PowerPcDisassembly.PowerPcDisassembler.DecodeWith | src/Arch/PowerPC/PowerPcDisassembler.cs:67 | decoding through a tree yields the record and state of `PowerPcDecoders.Decode` |
| PowerPcDisassembly.PowerPcDisassembler.MakeInstruction | src/Arch/PowerPC/PowerPcDisassembler.cs:84-94 | the record has the given mnemonic and class, the current address, length 4, the current operands and `setsCR0 == allowSetCR0` |
| PowerPcDisassembly.PowerPcDisassembler.CreateInvalidInstruction | src/Arch/PowerPC/PowerPcDisassembler.cs:75-82 | mnemonic `illegal`, class `Invalid`, no operands |
| PowerPcDisassembly.PowerPcDisassembler.NotYetImplemented | src/Arch/PowerPC/PowerPcDisassembler.cs:474-479 | yields the invalid instruction |
| PowerPcDisassembly.PowerPcDisassembler.EmitUnknown | src/Arch/PowerPC/PowerPcDisassembler.cs:460-472 | yields the invalid instruction |
| PowerPcDisassembly.PowerPcDisassembler.DisassembleInstruction | src/Arch/PowerPC/PowerPcDisassembler.cs:60-73 | `addr` is set to the reader address before the read. With no word left: no record, and decode state and reader unchanged. Otherwise: exactly the record and state of `DecodeWord` on the word read at that address, with the reader advanced by 4 |

## Left out

- Byte reading and endianness of `EndianImageReader`: the reader is a sequence of already assembled 32-bit words. A failed read is modelled as leaving the reader unchanged.
- The test-generation callback in `NotYetImplemented` (`ITestGenerationService.ReportMissingDecoder`), an external service call that only observes. The commented-out `#if DEBUG` text in `EmitUnknown` is also left out.
- The contents of the primary decoder table and of the register catalogs. The table is any 64 entries; the catalogs are any banks of 32 GPRs, 32 FPRs, 8 CR fields and 128 vector registers, plus any SPR map.
- Reko decoder kinds other than instruction, mask and not-yet-implemented nodes. A mask node whose field selects a missing child yields the invalid instruction, where the C# code would throw. `PowerPcDecoders.SelectTotal` shows this cannot happen in a well-formed tree.
- `Constant`, `ImmediateOperand`, `MemoryOperand` and `RegisterStorage` internals. An operand records its value and primitive type; a register records its name and number.
- `InstrClass` is a flags enum; it is modelled as a set of flags.
- Shift counts are `bv5` values. C# uses only the low five bits of a shift count on a `uint`, and the table instances all use counts below 32.
- The `ops.ToArray()` copy in `MakeInstruction`: Dafny sequences are values, so a record can never alias the operand list.
- `PowerPcDisassembly.PowerPcDisassembler.p`: the C# test `(op.Number & 1) == 1` is written as `number % 2 == 1`. Dafny's `%` is Euclidean, so the two agree for negative numbers too.
- `PowerPcMutatorProperties.PairedRejectsOdd`: assumes that FPR k has a number of the same parity as k, as Reko's catalog numbers them. This numbering is an input here.
- `Bits.ReadSigned`: a field wider than 32 bits is read as 32 bits. The extraction and sign extension are an assumption about Reko's `Bitfield`.
- A bit-level characterisation of the sign of `(short) w` (negative iff bit 15 is set) is not stated. The range and the relation to `(ushort) w` are stated instead.

## Findings

| source | as written | input that shows it | evidently intended | confidence | as-written member | corrected member |
|---|---|---|---|---|---|---|
| src/Arch/PowerPC/PowerPcDisassembler.cs:224-227 | `p1`-`p4` are bound to `f(21)`, `f(16)`, `f(11)`, `f(6)`, so the even-register check of `p` is never applied | word 0x0020_0000: FPR field 1 at bit 21 is accepted by `p1`, but `p(21)` rejects it | `p1`-`p4` bound to `p(21)`, `p(16)`, `p(11)`, `p(6)` | not executed | PowerPcMutatorProperties.PairedInstancesAcceptOdd | PowerPcMutatorProperties.CorrectedPairsRejectOdd |
