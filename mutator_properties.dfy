/**
 * What the mutator library guarantees: when a mutator fails, which operand
 * it appends, that every operand it builds is well formed (register-bank
 * indices in range, constants fitting their types), and how a sequence of
 * mutators composes.
 */
module PowerPcMutatorProperties {
  import opened Bits
  import opened PowerPcOperands
  import opened PowerPcMutators
  import opened PowerPcMutatorEffects

  /**
   * Only three mutators can fail: `E2_2` on a displacement that is not a
   * multiple of 4, `p` on an odd floating-point register, and `Is64Bit`
   * when the default word width is not 64 bits.
   */
  lemma EffectFailsIff(ctx: Context, m: Mutator, w: Word)
    requires ctx.Valid()
    ensures EffectOf(ctx, m, w).Fail? <==>
      (m == E2_2 && w & 0x3 != 0)
      || (m.p? && FRegFromBits(ctx.arch, Shr(w, m.offset)).number % 2 == 1)
      || (m == Is64Bit && ctx.defaultWordBits != 64)
  {
  }

  /**
   * Only the four flag mutators touch the flag, and only a successful
   * `Is64Bit` leaves the context as it was; every other mutator that
   * succeeds appends one operand.
   */
  lemma EffectKinds(ctx: Context, m: Mutator, w: Word)
    requires ctx.Valid()
    ensures EffectOf(ctx, m, w).SetFlag? <==> m == C || m == C6 || m == C10 || m == CC
    ensures EffectOf(ctx, m, w).Pass? <==> m == Is64Bit && ctx.defaultWordBits == 64
  {
  }

  /**
   * `C`, `C6` and `C10` copy bit 0, bit 6 and bit 10 of the word into the
   * flag; `CC` sets it unconditionally.
   */
  lemma FlagBits(ctx: Context, w: Word)
    requires ctx.Valid()
    ensures EffectOf(ctx, C, w) == SetFlag(w & 1 == 1)
    ensures EffectOf(ctx, C6, w) == SetFlag((w >> 6) & 1 == 1)
    ensures EffectOf(ctx, C10, w) == SetFlag((w >> 10) & 1 == 1)
    ensures EffectOf(ctx, CC, w) == SetFlag(true)
  {
    EffectOfFlags(ctx, w);
  }

  /**
   * Every operand a mutator appends is well formed: its registers come
   * from the catalogs (so every bank index was in range) and its constant
   * fits the type it is given.
   */
  lemma EffectOperandWellFormed(ctx: Context, m: Mutator, w: Word)
    requires ctx.Valid()
    ensures EffectOf(ctx, m, w).Append? ==> WellFormed(ctx.arch, EffectOf(ctx, m, w).op)
  {
    if IsImmediate(m) {
      ImmediatesWellFormed(ctx, m, w);
    } else if IsRegister(m) {
      RegistersWellFormed(ctx, m, w);
    } else {
      OthersWellFormed(ctx, m, w);
    }
  }

  /** The mutators that append a constant. */
  predicate IsImmediate(m: Mutator)
  {
    m.S? || m.U? || m.I? || m.i? || m.M? || m.u? || m.uFields? || m.s? || m.sFields?
  }

  /** The mutators that append a register. */
  predicate IsRegister(m: Mutator)
  {
    m.c? || m.Cr? || m.f? || m.p? || m.r? || m.X3? || m.v? || m.v3_? || m.Wd? || m.Wa? || m.Wb? || m.Wc?
  }

  lemma ImmediatesWellFormed(ctx: Context, m: Mutator, w: Word)
    requires ctx.Valid() && IsImmediate(m)
    ensures EffectOf(ctx, m, w).Append? ==> WellFormed(ctx.arch, EffectOf(ctx, m, w).op)
  {
    match m
    case S => EffectOfS(ctx, w);
    case U => EffectOfU(ctx, w);
    case I(k) => EffectOfFiveBit(ctx, k, w);
    case i(fs) => EffectOfConcat(ctx, fs, w);
    case M => EffectOfFieldMask(ctx, w);
    case u(pos, len) => EffectOfUnsigned(ctx, pos, len, w);
    case uFields(fs) => EffectOfFields(ctx, fs, w);
    case s(pos, len) => EffectOfSigned(ctx, pos, len, w);
    case sFields(fs) => EffectOfFields(ctx, fs, w);
  }

  /** The catalog a register mutator indexes. */
  function Bank(arch: Arch, m: Mutator): seq<Reg>
    requires IsRegister(m)
  {
    if m.c? || m.Cr? || m.X3? then arch.crRegisters
    else if m.f? || m.p? then arch.fpRegisters
    else if m.r? then arch.registers
    else arch.vecRegisters
  }

  /**
   * A register mutator that succeeds appends a register of its own bank.
   * `v` appends the vector register of its 5-bit field (v0-v31), and `v3_`
   * and `Wc` that of a 3-bit field (v0-v7).
   */
  lemma RegistersWellFormed(ctx: Context, m: Mutator, w: Word)
    requires ctx.Valid() && IsRegister(m)
    ensures EffectOf(ctx, m, w).Append? ==> WellFormed(ctx.arch, EffectOf(ctx, m, w).op)
    ensures EffectOf(ctx, m, w).Append? ==>
      EffectOf(ctx, m, w).op.RegOp? && EffectOf(ctx, m, w).op.reg in Bank(ctx.arch, m)
    ensures m.v? ==> EffectOf(ctx, m, w).op.reg == ctx.arch.vecRegisters[Low5(Shr(w, m.offset))]
    ensures m.v3_? ==> EffectOf(ctx, m, w).op.reg == ctx.arch.vecRegisters[Low3(Shr(w, m.offset))]
    ensures m.Wc? ==> EffectOf(ctx, m, w).op.reg == ctx.arch.vecRegisters[Low3(w >> 6)]
  {
    if m.c? || m.Cr? || m.X3? {
      CrFamilyBank(ctx, m, w);
    } else if m.f? || m.p? || m.r? {
      IntegerAndFloatBank(ctx, m, w);
    } else {
      VectorFamilyBank(ctx, m, w);
    }
  }

  lemma CrFamilyBank(ctx: Context, m: Mutator, w: Word)
    requires ctx.Valid() && (m.c? || m.Cr? || m.X3?)
    ensures EffectOf(ctx, m, w).Append? && EffectOf(ctx, m, w).op.RegOp?
    ensures EffectOf(ctx, m, w).op.reg in ctx.arch.crRegisters
  {
    match m
    case c(k) => EffectOfCrField(ctx, k, w);
    case Cr(k) => EffectOfCrField(ctx, k, w);
    case X3 => EffectOfX3(ctx, w);
  }

  lemma IntegerAndFloatBank(ctx: Context, m: Mutator, w: Word)
    requires ctx.Valid() && (m.f? || m.p? || m.r?)
    ensures EffectOf(ctx, m, w).Append? ==> EffectOf(ctx, m, w).op.RegOp?
    ensures EffectOf(ctx, m, w).Append? && m.r? ==> EffectOf(ctx, m, w).op.reg in ctx.arch.registers
    ensures EffectOf(ctx, m, w).Append? && !m.r? ==> EffectOf(ctx, m, w).op.reg in ctx.arch.fpRegisters
  {
    match m
    case f(k) => EffectOfFloat(ctx, k, w);
    case p(k) => EffectOfPaired(ctx, k, w);
    case r(k) => EffectOfGpr(ctx, k, w);
  }

  lemma VectorFamilyBank(ctx: Context, m: Mutator, w: Word)
    requires ctx.Valid() && (m.v? || m.v3_? || m.Wd? || m.Wa? || m.Wb? || m.Wc?)
    ensures EffectOf(ctx, m, w).Append? && EffectOf(ctx, m, w).op.RegOp?
    ensures EffectOf(ctx, m, w).op.reg in ctx.arch.vecRegisters
    ensures m.v? ==> EffectOf(ctx, m, w).op.reg == ctx.arch.vecRegisters[Low5(Shr(w, m.offset))]
    ensures m.v3_? ==> EffectOf(ctx, m, w).op.reg == ctx.arch.vecRegisters[Low3(Shr(w, m.offset))]
    ensures m.Wc? ==> EffectOf(ctx, m, w).op.reg == ctx.arch.vecRegisters[Low3(w >> 6)]
  {
    match m
    case v(k) => VectorFieldIndex(ctx, k, w);
    case v3_(k) => VectorFieldIndex(ctx, k, w);
    case Wd => EffectOfWide(ctx, w);
    case Wa => EffectOfWide(ctx, w);
    case Wb => EffectOfWide(ctx, w);
    case Wc => WideSmallIndex(ctx, w);
  }

  /** `v(k)` and `v3_(k)` index the vector bank by the 5-bit and the 3-bit field at k. */
  lemma VectorFieldIndex(ctx: Context, k: ShiftCount, w: Word)
    requires ctx.Valid()
    ensures EffectOf(ctx, v(k), w) == Append(RegOp(ctx.arch.vecRegisters[Low5(Shr(w, k))]))
    ensures EffectOf(ctx, v3_(k), w) == Append(RegOp(ctx.arch.vecRegisters[Low3(Shr(w, k))]))
  {
    EffectOfVector(ctx, k, w);
    Low7OfMasked(Shr(w, k));
  }

  /** `Wc` indexes the vector bank by the 3-bit field at bit 6, so it reaches only v0-v7. */
  lemma WideSmallIndex(ctx: Context, w: Word)
    requires ctx.Valid()
    ensures EffectOf(ctx, Wc, w) == Append(RegOp(ctx.arch.vecRegisters[Low3(w >> 6)]))
  {
    EffectOfWide(ctx, w);
    Low7OfMasked(w >> 6);
    assert WcIndex(w) == (w >> 6) & 0x7;
  }

  /**
   * `E` and `E2_2` append a memory operand based on a general-purpose
   * register; `SPR` appends a register of the SPR table or a UInt32
   * constant below 1024.
   */
  lemma OthersWellFormed(ctx: Context, m: Mutator, w: Word)
    requires ctx.Valid() && !IsImmediate(m) && !IsRegister(m)
    ensures EffectOf(ctx, m, w).Append? ==> WellFormed(ctx.arch, EffectOf(ctx, m, w).op)
    ensures (m.E? || m == E2_2) && EffectOf(ctx, m, w).Append? ==>
      EffectOf(ctx, m, w).op.Mem? && EffectOf(ctx, m, w).op.base in ctx.arch.registers
    ensures m == SPR ==>
      (EffectOf(ctx, m, w).op.RegOp? && EffectOf(ctx, m, w).op.reg in ctx.arch.spRegisters.Values)
      || (EffectOf(ctx, m, w).op.Imm? && EffectOf(ctx, m, w).op.width == UInt32
          && 0 <= EffectOf(ctx, m, w).op.value < 1024)
  {
    if m.E? || m == E2_2 {
      MemoryFamilyBase(ctx, m, w);
    } else if m == SPR {
      SprRegisterOrNumber(ctx, w);
    }
  }

  lemma MemoryFamilyBase(ctx: Context, m: Mutator, w: Word)
    requires ctx.Valid() && (m.E? || m == E2_2)
    ensures EffectOf(ctx, m, w).Append? ==>
      EffectOf(ctx, m, w).op.Mem? && EffectOf(ctx, m, w).op.base in ctx.arch.registers
      && WellFormed(ctx.arch, EffectOf(ctx, m, w).op)
  {
    if m.E? {
      EffectOfE(ctx, m.bitPos, w);
    } else {
      EffectOfE2_2(ctx, w);
    }
  }

  lemma SprRegisterOrNumber(ctx: Context, w: Word)
    requires ctx.Valid()
    ensures EffectOf(ctx, SPR, w).Append?
    ensures WellFormed(ctx.arch, EffectOf(ctx, SPR, w).op)
    ensures (EffectOf(ctx, SPR, w).op.RegOp? && EffectOf(ctx, SPR, w).op.reg in ctx.arch.spRegisters.Values)
      || (EffectOf(ctx, SPR, w).op.Imm? && EffectOf(ctx, SPR, w).op.width == UInt32
          && 0 <= EffectOf(ctx, SPR, w).op.value < 1024)
  {
    EffectOfSpr(ctx, w);
    var n := SprNumber(w) as int;
    if n in ctx.arch.spRegisters {
      assert ctx.arch.spRegisters[n] in ctx.arch.spRegisters.Values;
    }
  }

  /**
   * `p` rejects exactly the odd floating-point registers, when register
   * numbers follow the catalog index as in Reko's PowerPC architecture;
   * otherwise it is `f`.
   */
  lemma PairedRejectsOdd(ctx: Context, offset: ShiftCount, w: Word)
    requires ctx.Valid() && ctx.arch.FpNumbersFollowIndex()
    ensures EffectOf(ctx, p(offset), w).Fail? <==> Shr(w, offset) & 1 == 1
    ensures !EffectOf(ctx, p(offset), w).Fail? ==> EffectOf(ctx, p(offset), w) == EffectOf(ctx, f(offset), w)
  {
    EffectOfPaired(ctx, offset, w);
    EffectOfFloat(ctx, offset, w);
    var x := Shr(w, offset);
    var k := Low5(x);
    assert ctx.arch.fpRegisters[k].number % 2 == k % 2;
    LowBitParity(x);
  }

  lemma LowBitParity(x: Word)
    ensures Low5(x) % 2 == 1 <==> x & 1 == 1
  {
    var y := (x & 0x1F) as bv5;
    assert y & 1 == 1 <==> x & 1 == 1;
    ParityOfSmall(y);
  }

  lemma ParityOfSmall(y: bv5)
    ensures (y as int) % 2 == 1 <==> y & 1 == 1
  {
  }

  /**
   * As written, `p1`-`p4` are the plain `f` mutators: they never fail, so
   * an odd register is accepted where `p` would reject it.
   */
  lemma PairedInstancesAcceptOdd(ctx: Context, w: Word)
    requires ctx.Valid() && ctx.arch.FpNumbersFollowIndex()
    ensures !EffectOf(ctx, p1, w).Fail? && !EffectOf(ctx, p2, w).Fail?
    ensures !EffectOf(ctx, p3, w).Fail? && !EffectOf(ctx, p4, w).Fail?
    ensures w == 0x0020_0000 ==> EffectOf(ctx, p1Even, w).Fail? && EffectOf(ctx, p1, w).Append?
  {
    EffectOfFloat(ctx, 21, w);
    EffectOfFloat(ctx, 16, w);
    EffectOfFloat(ctx, 11, w);
    EffectOfFloat(ctx, 6, w);
    if w == 0x0020_0000 {
      PairedRejectsOdd(ctx, 21, w);
      assert Shr(w, 21) == 1;
    }
  }

  /** The corrected instances reject an odd register in their own field. */
  lemma CorrectedPairsRejectOdd(ctx: Context, w: Word)
    requires ctx.Valid() && ctx.arch.FpNumbersFollowIndex()
    ensures EffectOf(ctx, p1Even, w).Fail? <==> (w >> 21) & 1 == 1
    ensures EffectOf(ctx, p2Even, w).Fail? <==> (w >> 16) & 1 == 1
    ensures EffectOf(ctx, p3Even, w).Fail? <==> (w >> 11) & 1 == 1
    ensures EffectOf(ctx, p4Even, w).Fail? <==> (w >> 6) & 1 == 1
  {
    PairedRejectsOdd(ctx, 21, w);
    PairedRejectsOdd(ctx, 16, w);
    PairedRejectsOdd(ctx, 11, w);
    PairedRejectsOdd(ctx, 6, w);
  }

  /** `I(k)` is the 5-bit field at k, which the byte cast does not truncate. */
  lemma FiveBitImmediateExact(ctx: Context, w: Word, k: ShiftCount)
    requires ctx.Valid()
    ensures EffectOf(ctx, I(k), w) == Append(Imm(Low5(Shr(w, k)), Byte))
  {
    EffectOfFiveBit(ctx, k, w);
  }

  /** `M` is the 8-bit field at bit 12, which the byte cast does not truncate. */
  lemma FieldMaskImmediateExact(ctx: Context, w: Word)
    requires ctx.Valid()
    ensures EffectOf(ctx, M, w) == Append(Imm(Low8(w >> 12), Byte))
  {
    EffectOfFieldMask(ctx, w);
  }

  /** `u(pos, len)` with a field of at most 8 bits is that field's unsigned value. */
  lemma UnsignedFieldExact(ctx: Context, w: Word, pos: nat, len: nat)
    requires ctx.Valid() && len <= 8
    ensures EffectOf(ctx, u(pos, len), w) == Append(Imm(Read(Bitfield(pos, len), w), Byte))
  {
    EffectOfUnsigned(ctx, pos, len, w);
    Pow2Table();
    Pow2Monotonic(len, 8);
  }

  /**
   * `s(pos, len)` appends an `Int32` constant in the signed range of a
   * `len`-bit field that agrees with the field on its `len` bits: the
   * field sign-extended.
   */
  lemma SignedFieldRange(ctx: Context, w: Word, pos: nat, len: nat)
    requires ctx.Valid() && 1 <= len <= 32
    ensures EffectOf(ctx, s(pos, len), w).Append? && EffectOf(ctx, s(pos, len), w).op.Imm?
    ensures EffectOf(ctx, s(pos, len), w).op.width == Int32
    ensures -(Pow2(len - 1) as int) <= EffectOf(ctx, s(pos, len), w).op.value < Pow2(len - 1)
    ensures EffectOf(ctx, s(pos, len), w).op.value % Pow2(len) == Read(Bitfield(pos, len), w)
  {
    EffectOfSigned(ctx, pos, len, w);
    ReadSignedRange(Bitfield(pos, len), w);
    ReadSignedAgrees(Bitfield(pos, len), w);
  }

  /**
   * `S` and `U` read the same low half of the word: `S` as a signed and
   * `U` as an unsigned 16-bit number, so the two agree modulo 2^16.
   */
  lemma HalfwordImmediates(ctx: Context, w: Word)
    requires ctx.Valid()
    ensures EffectOf(ctx, S, w).op.value % 0x1_0000 == EffectOf(ctx, U, w).op.value
    ensures EffectOf(ctx, S, w).op.width == Int16 && EffectOf(ctx, U, w).op.width == Word16
  {
    EffectOfS(ctx, w);
    EffectOfU(ctx, w);
    var sv, uv := ToInt16(w), ToUInt16(w);
    if sv < 0 {
      DivModUnique(sv, 0x1_0000, -1, uv);
    } else {
      DivModUnique(sv, 0x1_0000, 0, uv);
    }
  }

  /**
   * `u(Bitfield[])`, despite its name, reads its fields exactly as
   * `s(Bitfield[])` does: sign-extended (see `Bits.FieldsExamples`). For
   * fields of 1 to 32 bits in total the constant lies in the signed range of
   * that width and agrees with the concatenation on its bits.
   */
  lemma FieldsImmediateIsSigned(ctx: Context, fs: seq<Bitfield>, w: Word)
    requires ctx.Valid()
    ensures EffectOf(ctx, uFields(fs), w) == EffectOf(ctx, sFields(fs), w)
    ensures EffectOf(ctx, uFields(fs), w) == Append(Imm(ReadSignedFields(fs, w), Int32))
    ensures 1 <= TotalLength(fs) <= 32 ==>
      -(Pow2(TotalLength(fs) - 1) as int) <= ReadSignedFields(fs, w) < Pow2(TotalLength(fs) - 1) &&
      ReadSignedFields(fs, w) % Pow2(TotalLength(fs)) == Concat(fs, w)
  {
    EffectOfFields(ctx, fs, w);
    if 1 <= TotalLength(fs) <= 32 {
      ReadSignedFieldsAgrees(fs, w);
    }
  }

  /**
   * `i(Bitfield[])` is the concatenated fields cast to a C# `int`: for at
   * most 32 bits, their exact unsigned value when it is below 2^31 and that
   * value minus 2^32 otherwise; fields of at most 31 bits are never negative.
   */
  lemma ConcatenatedImmediate(ctx: Context, fs: seq<Bitfield>, w: Word)
    requires ctx.Valid() && TotalLength(fs) <= 32
    ensures Concat(fs, w) < 0x8000_0000 ==> EffectOf(ctx, i(fs), w) == Append(Imm(Concat(fs, w), Int32))
    ensures Concat(fs, w) >= 0x8000_0000 ==>
      EffectOf(ctx, i(fs), w) == Append(Imm(Concat(fs, w) - 0x1_0000_0000, Int32))
    ensures TotalLength(fs) <= 31 ==> Concat(fs, w) < 0x8000_0000
  {
    EffectOfConcat(ctx, fs, w);
    ReadFieldsNoWrap(fs, w);
    Pow2Table();
    if TotalLength(fs) <= 31 {
      Pow2Monotonic(TotalLength(fs), 31);
    }
  }

  /**
   * `E(k)` appends the 32-bit access at the GPR in the 5-bit field at k
   * with the sign-extended low half as offset.
   */
  lemma MemoryOperand(ctx: Context, k: ShiftCount, w: Word)
    requires ctx.Valid()
    ensures EffectOf(ctx, E(k), w) ==
      Append(Mem(Word32, ctx.arch.registers[Low5(Shr(w, k))], ToInt16(w)))
  {
    EffectOfE(ctx, k, w);
  }

  /**
   * `E2_2` fails exactly when the low two bits are set, and otherwise
   * behaves as `E(16)`.
   */
  lemma AlignedMemoryOperand(ctx: Context, w: Word)
    requires ctx.Valid()
    ensures EffectOf(ctx, E2_2, w).Fail? <==> w & 0x3 != 0
    ensures w & 0x3 == 0 ==> EffectOf(ctx, E2_2, w) == EffectOf(ctx, E(16), w)
  {
    EffectOfE2_2(ctx, w);
    EffectOfE(ctx, 16, w);
    assert Shr(w, 16) == w >> 16;
  }

  /** `mtspr 272, r0`: the two halves of the SPR field are reassembled in order. */
  lemma SprExample()
    ensures SprNumber(0x7C10_43A6) == 272
  {
  }

  /** A run fails exactly when one of its effects is a failure. */
  lemma {:induction false} RunFailsIff(es: seq<Effect>, st: DecodeState)
    ensures !Run(es, st).ok <==> exists k :: 0 <= k < |es| && es[k].Fail?
    decreases |es|
  {
    if es != [] {
      var o := Apply(es[0], st);
      if o.ok {
        RunFailsIff(es[1..], o.st);
        if exists k :: 0 <= k < |es| && es[k].Fail? {
          var k :| 0 <= k < |es| && es[k].Fail?;
          assert es[1..][k - 1] == es[k];
        }
        if exists k :: 0 <= k < |es[1..]| && es[1..][k].Fail? {
          var k :| 0 <= k < |es[1..]| && es[1..][k].Fail?;
          assert es[k + 1] == es[1..][k];
        }
      }
    }
  }

  /** Running mutators fails exactly when one of them fails on the word. */
  lemma MutatorsFailIff(ctx: Context, ms: seq<Mutator>, w: Word, st: DecodeState)
    requires ctx.Valid()
    ensures !RunAll(ctx, ms, w, st).ok <==> exists k :: 0 <= k < |ms| && EffectOf(ctx, ms[k], w).Fail?
  {
    var es := Effects(ctx, ms, w);
    RunFailsIff(es, st);
    if exists k :: 0 <= k < |ms| && EffectOf(ctx, ms[k], w).Fail? {
      var k :| 0 <= k < |ms| && EffectOf(ctx, ms[k], w).Fail?;
      assert es[k].Fail?;
    }
  }

  /**
   * After a successful run the operand list is the old one followed by the
   * appended operands in order, and the flag is the last flag setting (or
   * unchanged when there is none).
   */
  lemma {:induction false} RunSucceeds(es: seq<Effect>, st: DecodeState)
    requires Run(es, st).ok
    ensures Run(es, st).st.ops == st.ops + Appended(es)
    ensures Run(es, st).st.allowSetCR0 == LastFlag(es, st.allowSetCR0)
    decreases |es|
  {
    if es != [] {
      var o := Apply(es[0], st);
      RunSucceeds(es[1..], o.st);
      LastFlagFront(es, st.allowSetCR0);
    }
  }

  /** `LastFlag` seen from the front: the first effect only decides the starting value. */
  lemma {:induction false} LastFlagFront(es: seq<Effect>, b: bool)
    requires es != []
    ensures LastFlag(es, b) == LastFlag(es[1..], if es[0].SetFlag? then es[0].flag else b)
    decreases |es|
  {
    var n := |es|;
    if n > 1 {
      var init := es[..n - 1];
      assert init[1..] == es[1..][..n - 2];
      assert es[1..][n - 2] == es[n - 1];
      assert init[0] == es[0];
      LastFlagFront(init, b);
    } else {
      assert es[..0] == [];
    }
  }

  /** The effects of a list of mutators append only well-formed operands. */
  predicate AppendsWellFormed(arch: Arch, es: seq<Effect>)
  {
    forall k :: 0 <= k < |es| && es[k].Append? ==> WellFormed(arch, es[k].op)
  }

  /** A run whose effects append well-formed operands keeps the operand list well formed. */
  lemma {:induction false} RunKeepsWellFormed(arch: Arch, es: seq<Effect>, st: DecodeState)
    requires AppendsWellFormed(arch, es)
    requires AllWellFormed(arch, st.ops)
    ensures AllWellFormed(arch, Run(es, st).st.ops)
    decreases |es|
  {
    if es != [] {
      var o := Apply(es[0], st);
      if o.ok {
        assert AllWellFormed(arch, o.st.ops) by {
          forall k | 0 <= k < |o.st.ops|
            ensures WellFormed(arch, o.st.ops[k])
          {
            if k >= |st.ops| {
              assert es[0].Append?;
            }
          }
        }
        assert AppendsWellFormed(arch, es[1..]) by {
          forall k | 0 <= k < |es[1..]| && es[1..][k].Append?
            ensures WellFormed(arch, es[1..][k].op)
          {
            assert es[1..][k] == es[k + 1];
          }
        }
        RunKeepsWellFormed(arch, es[1..], o.st);
      }
    }
  }

  /** Every mutator run appends only well-formed operands. */
  lemma MutatorsKeepWellFormed(ctx: Context, ms: seq<Mutator>, w: Word, st: DecodeState)
    requires ctx.Valid()
    requires AllWellFormed(ctx.arch, st.ops)
    ensures AllWellFormed(ctx.arch, RunAll(ctx, ms, w, st).st.ops)
  {
    var es := Effects(ctx, ms, w);
    forall k | 0 <= k < |es| && es[k].Append?
      ensures WellFormed(ctx.arch, es[k].op)
    {
      EffectOperandWellFormed(ctx, ms[k], w);
    }
    RunKeepsWellFormed(ctx.arch, es, st);
  }
}
