/**
 * `PowerPcDisassembler` as a class: the per-instruction state (`ops`,
 * `allowSetCR0`, `addr`) lives in fields that the mutators update in place,
 * and each method is proved against the pure definitions of the mutator
 * and decoder modules.
 */
module PowerPcDisassembly {
  import opened Bits
  import opened PowerPcOperands
  import Mut = PowerPcMutators
  import Eff = PowerPcMutatorEffects
  import Dec = PowerPcDecoders
  import Props = PowerPcMutatorProperties

  /**
   * The image reader as far as the decoder uses it: the 32-bit words left
   * to read, already assembled in the image's byte order, and the address
   * of the next one.
   */
  class ImageReader {
    var words: seq<Word>
    var address: Address

    constructor(words: seq<Word>, address: Address)
      ensures this.words == words && this.address == address
    {
      this.words := words;
      this.address := address;
    }

    /** `TryReadUInt32`: fails only when no word is left; a read advances by 4 bytes. */
    method TryReadUInt32() returns (ok: bool, w: Word)
      modifies this
      ensures ok <==> old(words) != []
      ensures ok ==> w == old(words)[0] && words == old(words)[1..] && address == old(address) + 4
      ensures !ok ==> words == old(words) && address == old(address)
    {
      if words == [] {
        return false, 0;
      }
      ok, w := true, words[0];
      words := words[1..];
      address := address + 4;
    }
  }

  class PowerPcDisassembler {
    const arch: Arch
    const primaryDecoders: seq<Dec.Decoder>
    const rdr: ImageReader
    /** The bit size of `defaultWordWidth`. */
    const defaultWordBits: nat
    var addr: Option<Address>
    var allowSetCR0: bool
    var ops: seq<Operand>

    constructor(arch: Arch, primaryDecoders: seq<Dec.Decoder>, rdr: ImageReader, defaultWordBits: nat)
      ensures this.arch == arch && this.primaryDecoders == primaryDecoders
      ensures this.rdr == rdr && this.defaultWordBits == defaultWordBits
      ensures addr == None && ops == [] && !allowSetCR0
      ensures arch.Valid() && |primaryDecoders| == 64 ==> Valid()
    {
      this.arch := arch;
      this.rdr := rdr;
      this.defaultWordBits := defaultWordBits;
      this.primaryDecoders := primaryDecoders;
      this.ops := [];
      this.addr := None;
      this.allowSetCR0 := false;
    }

    /** The register banks have their sizes and the primary table has one entry per opcode. */
    predicate Valid()
    {
      arch.Valid() && |primaryDecoders| == 64
    }

    function Ctx(): Mut.Context
    {
      Mut.Context(arch, defaultWordBits)
    }

    function State(): Mut.DecodeState
      reads this
    {
      Mut.DecodeState(ops, allowSetCR0)
    }

    /** The step appended `op` to the operand list and changed nothing else. */
    twostate predicate Appends(op: Operand)
      reads this
    {
      ops == old(ops) + [op] && allowSetCR0 == old(allowSetCR0) && addr == old(addr)
    }

    /** The step set the CR0 flag to `b` and changed nothing else. */
    twostate predicate SetsFlag(b: bool)
      reads this
    {
      ops == old(ops) && allowSetCR0 == b && addr == old(addr)
    }

    twostate predicate Unchanged()
      reads this
    {
      ops == old(ops) && allowSetCR0 == old(allowSetCR0) && addr == old(addr)
    }

    // The mutators. Each returns whether the encoding is acceptable.

    /** `C`: CR0 is set when bit 0 (the Rc bit) is 1. */
    method C(w: Word) returns (ok: bool)
      modifies this
      ensures ok && SetsFlag(w & 1 != 0)
    {
      allowSetCR0 := w & 1 != 0;
      ok := true;
    }

    /** `C6`: the flag from bit 6 (its documentation says bit 10). */
    method C6(w: Word) returns (ok: bool)
      modifies this
      ensures ok && SetsFlag(w & (1 << 6) != 0)
    {
      allowSetCR0 := w & (1 << 6) != 0;
      ok := true;
    }

    /** `C10`: the flag from bit 10. */
    method C10(w: Word) returns (ok: bool)
      modifies this
      ensures ok && SetsFlag(w & (1 << 10) != 0)
    {
      allowSetCR0 := w & (1 << 10) != 0;
      ok := true;
    }

    /** `CC`: the flag forced on. */
    method CC(w: Word) returns (ok: bool)
      modifies this
      ensures ok && SetsFlag(true)
    {
      allowSetCR0 := true;
      ok := true;
    }

    /** `S`: the low half as a signed 16-bit constant. */
    method S(w: Word) returns (ok: bool)
      modifies this
      ensures ok && Appends(Imm(ToInt16(w), Int16))
    {
      ops := ops + [Imm(ToInt16(w), Int16)];
      ok := true;
    }

    /** `U`: the low half as an unsigned 16-bit constant. */
    method U(w: Word) returns (ok: bool)
      modifies this
      ensures ok && Appends(Imm(ToUInt16(w), Word16))
    {
      ops := ops + [Imm(ToUInt16(w), Word16)];
      ok := true;
    }

    /** `E(bitPos)`: a memory operand based on the register field at `bitPos`. */
    method E(bitPos: ShiftCount, w: Word) returns (ok: bool)
      requires Valid()
      modifies this
      ensures ok && Appends(MemOff(arch, Shr(w, bitPos), w))
    {
      var op := MemOff(arch, Shr(w, bitPos), w);
      ops := ops + [op];
      ok := true;
    }

    /** `E2_2`: like `E(16)`, but rejects a displacement that is not a multiple of 4. */
    method E2_2(w: Word) returns (ok: bool)
      requires Valid()
      modifies this
      ensures ok <==> w & 0x3 == 0
      ensures ok ==> Appends(MemOff(arch, w >> 16, w))
      ensures !ok ==> Unchanged()
    {
      if w & 0x3 != 0 {
        return false;
      }
      var op := MemOff(arch, w >> 16, w);
      ops := ops + [op];
      ok := true;
    }

    /** `c(bitPos)`: a condition-register field. */
    method c(bitPos: ShiftCount, w: Word) returns (ok: bool)
      requires Valid()
      modifies this
      ensures ok && Appends(RegOp(CRegFromBits(arch, Shr(w, bitPos))))
    {
      var op := CRegFromBits(arch, Shr(w, bitPos));
      ops := ops + [RegOp(op)];
      ok := true;
    }

    /** `Cr(offset)`: a condition-register field. */
    method Cr(offset: ShiftCount, w: Word) returns (ok: bool)
      requires Valid()
      modifies this
      ensures ok && Appends(RegOp(CRegFromBits(arch, Shr(w, offset))))
    {
      var op := CRegFromBits(arch, Shr(w, offset));
      ops := ops + [RegOp(op)];
      ok := true;
    }

    /** `f(offset)`: a floating-point register. */
    method f(offset: ShiftCount, w: Word) returns (ok: bool)
      requires Valid()
      modifies this
      ensures ok && Appends(RegOp(FRegFromBits(arch, Shr(w, offset))))
    {
      var op := FRegFromBits(arch, Shr(w, offset));
      ops := ops + [RegOp(op)];
      ok := true;
    }

    /** `p(offset)`: a floating-point register that must have an even number. */
    method p(offset: ShiftCount, w: Word) returns (ok: bool)
      requires Valid()
      modifies this
      ensures ok <==> FRegFromBits(arch, Shr(w, offset)).number % 2 == 0
      ensures ok ==> Appends(RegOp(FRegFromBits(arch, Shr(w, offset))))
      ensures !ok ==> Unchanged()
    {
      var op := FRegFromBits(arch, Shr(w, offset));
      if op.number % 2 == 1 {
        return false;
      }
      ops := ops + [RegOp(op)];
      ok := true;
    }

    /** `r(offset)`: a general-purpose register. */
    method r(offset: ShiftCount, w: Word) returns (ok: bool)
      requires Valid()
      modifies this
      ensures ok && Appends(RegOp(RegFromBits(arch, Shr(w, offset))))
    {
      var op := RegFromBits(arch, Shr(w, offset));
      ops := ops + [RegOp(op)];
      ok := true;
    }

    /** `v(offset)`: a vector register from a 5-bit field. */
    method v(offset: ShiftCount, w: Word) returns (ok: bool)
      requires Valid()
      modifies this
      ensures ok && Appends(RegOp(VRegFromBits(arch, Shr(w, offset) & 0x1F)))
    {
      var op := VRegFromBits(arch, Shr(w, offset) & 0x1F);
      ops := ops + [RegOp(op)];
      ok := true;
    }

    /** `v3_(offset)`: a vector register from a 3-bit field. */
    method v3_(offset: ShiftCount, w: Word) returns (ok: bool)
      requires Valid()
      modifies this
      ensures ok && Appends(RegOp(VRegFromBits(arch, Shr(w, offset) & 0x7)))
    {
      var op := VRegFromBits(arch, Shr(w, offset) & 0x7);
      ops := ops + [RegOp(op)];
      ok := true;
    }

    /** `I(offset)`: a 5-bit field as a byte constant. */
    method I(offset: ShiftCount, w: Word) returns (ok: bool)
      modifies this
      ensures ok && Appends(Imm(ToByte(Low5(Shr(w, offset))), Byte))
    {
      ops := ops + [Imm(ToByte(Low5(Shr(w, offset))), Byte)];
      ok := true;
    }

    /** `i(bitfields)`: the concatenated fields as a 32-bit signed constant. */
    method i(fields: seq<Bitfield>, w: Word) returns (ok: bool)
      modifies this
      ensures ok && Appends(Imm(ToInt32(ReadFields(fields, w)), Int32))
    {
      var n := ToInt32(ReadFields(fields, w));
      ops := ops + [Imm(n, Int32)];
      ok := true;
    }

    /** `M`: the 8-bit CR field mask at bit 12 as a byte constant. */
    method M(w: Word) returns (ok: bool)
      modifies this
      ensures ok && Appends(Imm(ToByte(Low8(w >> 12)), Byte))
    {
      ops := ops + [Imm(ToByte(Low8(w >> 12)), Byte)];
      ok := true;
    }

    /** `u(pos, len)`: an unsigned field as a byte constant. */
    method u(pos: nat, len: nat, w: Word) returns (ok: bool)
      modifies this
      ensures ok && Appends(Imm(ToByte(Read(Bitfield(pos, len), w)), Byte))
    {
      var field := Bitfield(pos, len);
      ops := ops + [Imm(ToByte(Read(field, w)), Byte)];
      ok := true;
    }

    /** `u(Bitfield[])`: the concatenated fields, sign-extended although the name suggests unsigned. */
    method uFields(fields: seq<Bitfield>, w: Word) returns (ok: bool)
      modifies this
      ensures ok && Appends(Imm(ReadSignedFields(fields, w), Int32))
    {
      var n := ReadSignedFields(fields, w);
      ops := ops + [Imm(n, Int32)];
      ok := true;
    }

    /** `s(bitOffset, len)`: a sign-extended field as a 32-bit constant. */
    method s(bitOffset: nat, len: nat, w: Word) returns (ok: bool)
      modifies this
      ensures ok && Appends(Imm(ReadSigned(Bitfield(bitOffset, len), w), Int32))
    {
      var field := Bitfield(bitOffset, len);
      ops := ops + [Imm(ReadSigned(field, w), Int32)];
      ok := true;
    }

    /** `s(Bitfield[])`: the concatenated fields, sign-extended. */
    method sFields(fields: seq<Bitfield>, w: Word) returns (ok: bool)
      modifies this
      ensures ok && Appends(Imm(ReadSignedFields(fields, w), Int32))
    {
      var n := ReadSignedFields(fields, w);
      ops := ops + [Imm(n, Int32)];
      ok := true;
    }

    /** `Wd`: a VMX128 destination vector register, v0-v127. */
    method Wd(w: Word) returns (ok: bool)
      requires Valid()
      modifies this
      ensures ok && Appends(RegOp(VRegFromBits(arch, Mut.WdIndex(w))))
    {
      var op := VRegFromBits(arch, Mut.WdIndex(w));
      ops := ops + [RegOp(op)];
      ok := true;
    }

    /** `Wa`: a VMX128 first source vector register, v0-v127. */
    method Wa(w: Word) returns (ok: bool)
      requires Valid()
      modifies this
      ensures ok && Appends(RegOp(VRegFromBits(arch, Mut.WaIndex(w))))
    {
      var op := VRegFromBits(arch, Mut.WaIndex(w));
      ops := ops + [RegOp(op)];
      ok := true;
    }

    /** `Wb`: a VMX128 second source vector register, v0-v127. */
    method Wb(w: Word) returns (ok: bool)
      requires Valid()
      modifies this
      ensures ok && Appends(RegOp(VRegFromBits(arch, Mut.WbIndex(w))))
    {
      var op := VRegFromBits(arch, Mut.WbIndex(w));
      ops := ops + [RegOp(op)];
      ok := true;
    }

    /** `Wc`: a vector register v0-v7. */
    method Wc(w: Word) returns (ok: bool)
      requires Valid()
      modifies this
      ensures ok && Appends(RegOp(VRegFromBits(arch, Mut.WcIndex(w))))
    {
      var op := VRegFromBits(arch, Mut.WcIndex(w));
      ops := ops + [RegOp(op)];
      ok := true;
    }

    /** `SPR`: the special-purpose register, or its number when the table does not know it. */
    method SPR(w: Word) returns (ok: bool)
      modifies this
      ensures ok && Appends(Mut.SprOperand(arch, w))
    {
      var nSpr := Mut.SprNumber(w) as int;
      if nSpr in arch.spRegisters {
        ops := ops + [RegOp(arch.spRegisters[nSpr])];
      } else {
        ops := ops + [Imm(nSpr, UInt32)];
      }
      ok := true;
    }

    /** `X3`: the CR field of the compare instructions, at bit 23. */
    method X3(w: Word) returns (ok: bool)
      requires Valid()
      modifies this
      ensures ok && Appends(RegOp(CRegFromBits(arch, (w >> 23) & 0x7)))
    {
      var op := CRegFromBits(arch, (w >> 23) & 0x7);
      ops := ops + [RegOp(op)];
      ok := true;
    }

    /** `Is64Bit`: accepts the encoding only on a 64-bit variant; changes nothing. */
    method Is64Bit(w: Word) returns (ok: bool)
      ensures ok <==> defaultWordBits == 64
    {
      ok := defaultWordBits == 64;
    }

    /** Mutator `m` of a decoder table applied to the word. */
    method Mutate(m: Mut.Mutator, w: Word) returns (ok: bool)
      requires Valid()
      modifies this
      ensures Mut.Outcome(ok, State()) == Mut.Apply(Mut.EffectOf(Ctx(), m, w), old(State()))
      ensures addr == old(addr)
    {
      if Props.IsImmediate(m) {
        ok := MutateImmediate(m, w);
      } else if IsVector(m) {
        ok := MutateVector(m, w);
      } else if Props.IsRegister(m) {
        ok := MutateRegister(m, w);
      } else {
        ok := MutateOther(m, w);
      }
    }

    method MutateImmediate(m: Mut.Mutator, w: Word) returns (ok: bool)
      requires Valid() && Props.IsImmediate(m)
      modifies this
      ensures Mut.Outcome(ok, State()) == Mut.Apply(Mut.EffectOf(Ctx(), m, w), old(State()))
      ensures addr == old(addr)
    {
      var ctx := Ctx();
      match m
      case S => ok := S(w); Eff.EffectOfS(ctx, w);
      case U => ok := U(w); Eff.EffectOfU(ctx, w);
      case I(offset) => ok := I(offset, w); Eff.EffectOfFiveBit(ctx, offset, w);
      case i(fields) => ok := i(fields, w); Eff.EffectOfConcat(ctx, fields, w);
      case M => ok := M(w); Eff.EffectOfFieldMask(ctx, w);
      case u(pos, len) => ok := u(pos, len, w); Eff.EffectOfUnsigned(ctx, pos, len, w);
      case uFields(fields) => ok := uFields(fields, w); Eff.EffectOfFields(ctx, fields, w);
      case s(pos, len) => ok := s(pos, len, w); Eff.EffectOfSigned(ctx, pos, len, w);
      case sFields(fields) => ok := sFields(fields, w); Eff.EffectOfFields(ctx, fields, w);
      case _ => assert false;
    }

    /** The mutators that append a vector register. */
    static predicate IsVector(m: Mut.Mutator)
    {
      m.v? || m.v3_? || m.Wd? || m.Wa? || m.Wb? || m.Wc?
    }

    method MutateRegister(m: Mut.Mutator, w: Word) returns (ok: bool)
      requires Valid() && Props.IsRegister(m) && !IsVector(m)
      modifies this
      ensures Mut.Outcome(ok, State()) == Mut.Apply(Mut.EffectOf(Ctx(), m, w), old(State()))
      ensures addr == old(addr)
    {
      var ctx := Ctx();
      match m
      case c(bitPos) => ok := c(bitPos, w); Eff.EffectOfCrField(ctx, bitPos, w);
      case Cr(offset) => ok := Cr(offset, w); Eff.EffectOfCrField(ctx, offset, w);
      case f(offset) => ok := f(offset, w); Eff.EffectOfFloat(ctx, offset, w);
      case p(offset) => ok := p(offset, w); Eff.EffectOfPaired(ctx, offset, w);
      case r(offset) => ok := r(offset, w); Eff.EffectOfGpr(ctx, offset, w);
      case X3 => ok := X3(w); Eff.EffectOfX3(ctx, w);
      case _ => assert false;
    }

    method MutateVector(m: Mut.Mutator, w: Word) returns (ok: bool)
      requires Valid() && IsVector(m)
      modifies this
      ensures Mut.Outcome(ok, State()) == Mut.Apply(Mut.EffectOf(Ctx(), m, w), old(State()))
      ensures addr == old(addr)
    {
      var ctx := Ctx();
      match m
      case v(offset) => ok := v(offset, w); Eff.EffectOfVector(ctx, offset, w);
      case v3_(offset) => ok := v3_(offset, w); Eff.EffectOfVector(ctx, offset, w);
      case Wd => ok := Wd(w); Eff.EffectOfWide(ctx, w);
      case Wa => ok := Wa(w); Eff.EffectOfWide(ctx, w);
      case Wb => ok := Wb(w); Eff.EffectOfWide(ctx, w);
      case Wc => ok := Wc(w); Eff.EffectOfWide(ctx, w);
      case _ => assert false;
    }

    method MutateOther(m: Mut.Mutator, w: Word) returns (ok: bool)
      requires Valid() && !Props.IsImmediate(m) && !Props.IsRegister(m)
      modifies this
      ensures Mut.Outcome(ok, State()) == Mut.Apply(Mut.EffectOf(Ctx(), m, w), old(State()))
      ensures addr == old(addr)
    {
      var ctx := Ctx();
      match m
      case C => ok := C(w); Eff.EffectOfFlags(ctx, w);
      case C6 => ok := C6(w); Eff.EffectOfFlags(ctx, w);
      case C10 => ok := C10(w); Eff.EffectOfFlags(ctx, w);
      case CC => ok := CC(w); Eff.EffectOfFlags(ctx, w);
      case E(bitPos) => ok := E(bitPos, w); Eff.EffectOfE(ctx, bitPos, w);
      case E2_2 => ok := E2_2(w); Eff.EffectOfE2_2(ctx, w);
      case SPR => ok := SPR(w); Eff.EffectOfSpr(ctx, w);
      case Is64Bit => ok := Is64Bit(w);
      case _ => assert false;
    }

    /** An instruction leaf's mutators, left to right, stopping at the first that fails. */
    method RunMutators(ms: seq<Mut.Mutator>, w: Word) returns (ok: bool)
      requires Valid()
      modifies this
      ensures Mut.Outcome(ok, State()) == Mut.RunAll(Ctx(), ms, w, old(State()))
      ensures addr == old(addr)
    {
      ghost var es := Mut.Effects(Ctx(), ms, w);
      ok := true;
      var k := 0;
      while k < |ms|
        invariant 0 <= k <= |ms|
        invariant addr == old(addr)
        invariant Mut.Run(es, old(State())) == Mut.Run(es[k..], State())
      {
        ok := Mutate(ms[k], w);
        assert es[k..][1..] == es[k + 1..];
        if !ok {
          return;
        }
        k := k + 1;
      }
    }

    /** `Decode` through the tree `d`. */
    method DecodeWith(d: Dec.Decoder, w: Word) returns (instr: Instruction)
      requires Valid()
      modifies this
      ensures Dec.Decoded(instr, State()) == Dec.Decode(Ctx(), d, w, addr, old(State()))
      ensures addr == old(addr)
      decreases d
    {
      match d
      case Instr(mnemonic, iclass, ms) =>
        var ok := RunMutators(ms, w);
        if ok {
          instr := MakeInstruction(iclass, mnemonic);
        } else {
          instr := CreateInvalidInstruction();
        }
      case Mask(field, ds) =>
        var k := Read(field, w);
        if k < |ds| {
          instr := DecodeWith(ds[k], w);
        } else {
          instr := CreateInvalidInstruction();
        }
      case Nyi(message) =>
        instr := NotYetImplemented(message);
    }

    /** `MakeInstruction`: a record of the current address, operands and CR0 flag, of length 4. */
    method MakeInstruction(iclass: set<InstrClass>, mnemonic: Mnemonic) returns (instr: Instruction)
      ensures instr.mnemonic == mnemonic && instr.iclass == iclass
      ensures instr.address == addr && instr.length == 4
      ensures instr.operands == ops && instr.setsCR0 == allowSetCR0
    {
      instr := Instruction(mnemonic, iclass, addr, 4, ops, allowSetCR0);
    }

    /** `CreateInvalidInstruction`: `illegal`, class `Invalid`, no operands. */
    method CreateInvalidInstruction() returns (instr: Instruction)
      ensures instr.mnemonic == Illegal && instr.iclass == {Invalid} && instr.operands == []
      ensures instr == Dec.InvalidInstruction
    {
      instr := Instruction(Illegal, {Invalid}, None, 0, [], false);
    }

    /** `NotYetImplemented`: an unsupported encoding decodes as the invalid instruction. */
    method NotYetImplemented(message: string) returns (instr: Instruction)
      ensures instr == Dec.InvalidInstruction
    {
      instr := CreateInvalidInstruction();
    }

    /** `EmitUnknown`: a word no decoder accepts decodes as the invalid instruction. */
    method EmitUnknown(instr: Word) returns (result: Instruction)
      ensures result == Dec.InvalidInstruction
    {
      result := CreateInvalidInstruction();
    }

    /**
     * `DisassembleInstruction`: remembers the reader's address, reads a
     * word, and decodes it from a reset state. When no word is left it
     * yields nothing and leaves the decode state and the reader as they were.
     */
    method DisassembleInstruction() returns (instr: Option<Instruction>)
      requires Valid()
      modifies this, rdr
      ensures addr == Some(old(rdr.address))
      ensures old(rdr.words) == [] ==>
        instr == None && State() == old(State()) && rdr.words == old(rdr.words) && rdr.address == old(rdr.address)
      ensures old(rdr.words) != [] ==>
        var res := Dec.DecodeWord(Ctx(), primaryDecoders, old(rdr.words)[0], old(rdr.address));
        instr == Some(res.instr) && State() == res.st
        && rdr.words == old(rdr.words)[1..] && rdr.address == old(rdr.address) + 4
    {
      addr := Some(rdr.address);
      var ok, w := rdr.TryReadUInt32();
      if !ok {
        return None;
      }
      allowSetCR0 := false;
      ops := [];
      var instrCur := DecodeWith(primaryDecoders[Dec.PrimaryIndex(w)], w);
      if w == 0 {
        instrCur := instrCur.(iclass := instrCur.iclass + {Zero});
      }
      instrCur := instrCur.(address := addr, length := 4);
      return Some(instrCur);
    }
  }
}
