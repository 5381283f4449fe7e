/**
 * Unfolding lemmas for `EffectOf`, one per mutator family. Each states
 * nothing beyond `EffectOf` itself: it exposes one arm of the definition for
 * a known constructor, so the lemmas about arbitrary mutators (in
 * `PowerPcMutatorProperties`) and the class methods can combine small
 * proofs case by case.
 */
module PowerPcMutatorEffects {
  import opened Bits
  import opened PowerPcOperands
  import opened PowerPcMutators

  lemma EffectOfS(ctx: Context, w: Word)
    requires ctx.Valid()
    ensures EffectOf(ctx, S, w) == Append(Imm(ToInt16(w), Int16))
  {
  }

  lemma EffectOfU(ctx: Context, w: Word)
    requires ctx.Valid()
    ensures EffectOf(ctx, U, w) == Append(Imm(ToUInt16(w), Word16))
  {
  }

  lemma EffectOfE(ctx: Context, k: ShiftCount, w: Word)
    requires ctx.Valid()
    ensures EffectOf(ctx, E(k), w) == Append(MemOff(ctx.arch, Shr(w, k), w))
  {
  }

  lemma EffectOfE2_2(ctx: Context, w: Word)
    requires ctx.Valid()
    ensures EffectOf(ctx, E2_2, w) == if w & 0x3 != 0 then Fail else Append(MemOff(ctx.arch, w >> 16, w))
  {
  }

  lemma EffectOfCrField(ctx: Context, k: ShiftCount, w: Word)
    requires ctx.Valid()
    ensures EffectOf(ctx, c(k), w) == Append(RegOp(CRegFromBits(ctx.arch, Shr(w, k))))
    ensures EffectOf(ctx, Cr(k), w) == Append(RegOp(CRegFromBits(ctx.arch, Shr(w, k))))
  {
    assert EffectOf(ctx, c(k), w) == Append(RegOp(CRegFromBits(ctx.arch, Shr(w, k))));
  }

  lemma EffectOfFloat(ctx: Context, k: ShiftCount, w: Word)
    requires ctx.Valid()
    ensures EffectOf(ctx, f(k), w) == Append(RegOp(FRegFromBits(ctx.arch, Shr(w, k))))
  {
  }

  lemma EffectOfPaired(ctx: Context, k: ShiftCount, w: Word)
    requires ctx.Valid()
    ensures EffectOf(ctx, p(k), w) ==
      if FRegFromBits(ctx.arch, Shr(w, k)).number % 2 == 1 then Fail
      else Append(RegOp(FRegFromBits(ctx.arch, Shr(w, k))))
  {
  }

  lemma EffectOfGpr(ctx: Context, k: ShiftCount, w: Word)
    requires ctx.Valid()
    ensures EffectOf(ctx, r(k), w) == Append(RegOp(RegFromBits(ctx.arch, Shr(w, k))))
  {
  }

  lemma EffectOfX3(ctx: Context, w: Word)
    requires ctx.Valid()
    ensures EffectOf(ctx, X3, w) == Append(RegOp(CRegFromBits(ctx.arch, (w >> 23) & 0x7)))
  {
  }

  lemma EffectOfFiveBit(ctx: Context, k: ShiftCount, w: Word)
    requires ctx.Valid()
    ensures EffectOf(ctx, I(k), w) == Append(Imm(ToByte(Low5(Shr(w, k))), Byte))
  {
  }

  lemma EffectOfFieldMask(ctx: Context, w: Word)
    requires ctx.Valid()
    ensures EffectOf(ctx, M, w) == Append(Imm(ToByte(Low8(w >> 12)), Byte))
  {
  }

  lemma EffectOfUnsigned(ctx: Context, pos: nat, len: nat, w: Word)
    requires ctx.Valid()
    ensures EffectOf(ctx, u(pos, len), w) == Append(Imm(ToByte(Read(Bitfield(pos, len), w)), Byte))
  {
  }

  lemma EffectOfSigned(ctx: Context, pos: nat, len: nat, w: Word)
    requires ctx.Valid()
    ensures EffectOf(ctx, s(pos, len), w) == Append(Imm(ReadSigned(Bitfield(pos, len), w), Int32))
  {
  }

  lemma EffectOfConcat(ctx: Context, fs: seq<Bitfield>, w: Word)
    requires ctx.Valid()
    ensures EffectOf(ctx, i(fs), w) == Append(Imm(ToInt32(ReadFields(fs, w)), Int32))
  {
  }

  lemma EffectOfFields(ctx: Context, fs: seq<Bitfield>, w: Word)
    requires ctx.Valid()
    ensures EffectOf(ctx, uFields(fs), w) == Append(Imm(ReadSignedFields(fs, w), Int32))
    ensures EffectOf(ctx, sFields(fs), w) == Append(Imm(ReadSignedFields(fs, w), Int32))
  {
    assert EffectOf(ctx, uFields(fs), w) == Append(Imm(ReadSignedFields(fs, w), Int32));
  }

  lemma EffectOfVector(ctx: Context, k: ShiftCount, w: Word)
    requires ctx.Valid()
    ensures EffectOf(ctx, v(k), w) == Append(RegOp(VRegFromBits(ctx.arch, Shr(w, k) & 0x1F)))
    ensures EffectOf(ctx, v3_(k), w) == Append(RegOp(VRegFromBits(ctx.arch, Shr(w, k) & 0x7)))
  {
    assert EffectOf(ctx, v(k), w) == Append(RegOp(VRegFromBits(ctx.arch, Shr(w, k) & 0x1F)));
  }

  lemma EffectOfSpr(ctx: Context, w: Word)
    requires ctx.Valid()
    ensures EffectOf(ctx, SPR, w) == Append(SprOperand(ctx.arch, w))
  {
  }

  lemma EffectOfWide(ctx: Context, w: Word)
    requires ctx.Valid()
    ensures EffectOf(ctx, Wd, w) == Append(RegOp(VRegFromBits(ctx.arch, WdIndex(w))))
    ensures EffectOf(ctx, Wa, w) == Append(RegOp(VRegFromBits(ctx.arch, WaIndex(w))))
    ensures EffectOf(ctx, Wb, w) == Append(RegOp(VRegFromBits(ctx.arch, WbIndex(w))))
    ensures EffectOf(ctx, Wc, w) == Append(RegOp(VRegFromBits(ctx.arch, WcIndex(w))))
  {
    assert EffectOf(ctx, Wd, w) == Append(RegOp(VRegFromBits(ctx.arch, WdIndex(w))));
    assert EffectOf(ctx, Wa, w) == Append(RegOp(VRegFromBits(ctx.arch, WaIndex(w))));
    assert EffectOf(ctx, Wb, w) == Append(RegOp(VRegFromBits(ctx.arch, WbIndex(w))));
  }

  lemma EffectOfFlags(ctx: Context, w: Word)
    requires ctx.Valid()
    ensures EffectOf(ctx, C, w) == SetFlag(w & 1 != 0)
    ensures EffectOf(ctx, C6, w) == SetFlag(w & (1 << 6) != 0)
    ensures EffectOf(ctx, C10, w) == SetFlag(w & (1 << 10) != 0)
    ensures EffectOf(ctx, CC, w) == SetFlag(true)
  {
    assert EffectOf(ctx, C, w) == SetFlag(w & 1 != 0);
    assert EffectOf(ctx, C6, w) == SetFlag(w & (1 << 6) != 0);
    assert EffectOf(ctx, C10, w) == SetFlag(w & (1 << 10) != 0);
  }
}
