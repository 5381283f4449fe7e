/**
 * The mutator library of the PowerPC disassembler as values.
 *
 * Each constructor of `Mutator` is one mutator (or one member of a
 * parameterised family) of `PowerPcDisassembler`; `EffectOf` says what it
 * does to the decode context for a given instruction word: append one
 * operand, set the "sets CR0" flag, do nothing, or fail. `Apply` applies an
 * effect to the per-instruction state and `RunAll` applies a sequence of
 * mutators left to right, stopping at the first failure. The class methods
 * of the disassembler are proved against these functions.
 */
module PowerPcMutators {
  import opened Bits
  import opened PowerPcOperands

  /** What a mutator may consult besides the word: the architecture and the default word width. */
  datatype Context = Context(arch: Arch, defaultWordBits: nat)
  {
    predicate Valid()
    {
      arch.Valid()
    }
  }

  datatype Mutator =
    | C               // CR0 flag from bit 0
    | C6              // CR0 flag from bit 6
    | C10             // CR0 flag from bit 10
    | CC              // CR0 flag forced on
    | S               // signed 16-bit immediate
    | U               // unsigned 16-bit immediate
    | E(bitPos: ShiftCount)  // memory operand, base register field at bitPos
    | E2_2            // memory operand at 16 whose displacement must be 4-aligned
    | c(bitPos: ShiftCount)  // condition-register field
    | Cr(offset: ShiftCount) // condition-register field (second family)
    | f(offset: ShiftCount)  // floating-point register
    | p(offset: ShiftCount)  // floating-point register that must be even
    | r(offset: ShiftCount)  // general-purpose register
    | v(offset: ShiftCount)  // vector register, 5-bit field
    | v3_(offset: ShiftCount) // vector register, 3-bit field
    | I(offset: ShiftCount)  // 5-bit unsigned immediate
    | i(fields: seq<Bitfield>)      // immediate from concatenated fields
    | M               // 8-bit CR field mask
    | u(pos: nat, len: nat)          // unsigned field, as a byte
    | uFields(fields: seq<Bitfield>) // `u(Bitfield[])`
    | s(pos: nat, len: nat)          // signed field
    | sFields(fields: seq<Bitfield>) // `s(Bitfield[])`
    | Wd | Wa | Wb | Wc // VMX128 extended vector registers
    | SPR             // special-purpose register, halves swapped
    | X3              // CR field of the CMP[L][I] instructions
    | Is64Bit         // succeeds only for a 64-bit default word width

  // The named instances that the decoder tables use.
  const E1: Mutator := E(21)
  const E2: Mutator := E(16)
  const E3: Mutator := E(11)
  const E4: Mutator := E(6)
  const c1: Mutator := c(21)
  const c2: Mutator := c(16)
  const c3: Mutator := c(11)
  const c4: Mutator := c(6)
  const C1: Mutator := Cr(23)
  const C2: Mutator := Cr(18)
  const f1: Mutator := f(21)
  const f2: Mutator := f(16)
  const f3: Mutator := f(11)
  const f4: Mutator := f(6)
  // As in the C# code, the paired-register instances are bound to `f`, not `p`.
  const p1: Mutator := f(21)
  const p2: Mutator := f(16)
  const p3: Mutator := f(11)
  const p4: Mutator := f(6)
  const r1: Mutator := r(21)
  const r2: Mutator := r(16)
  const r3: Mutator := r(11)
  const r4: Mutator := r(6)
  const v1: Mutator := v(21)
  const v2: Mutator := v(16)
  const v3: Mutator := v(11)
  const v4: Mutator := v(6)
  const v3_6: Mutator := v3_(6)
  const I1: Mutator := I(21)
  const I2: Mutator := I(16)
  const I3: Mutator := I(11)
  const I4: Mutator := I(6)
  const I5: Mutator := I(1)
  const u6_2: Mutator := u(6, 2)
  const u6_4: Mutator := u(6, 4)
  const u6_5: Mutator := u(6, 5)
  const u9_1: Mutator := u(9, 1)
  const u11_5: Mutator := u(11, 5)
  const u14_2: Mutator := u(14, 2)
  const u16_1: Mutator := u(16, 1)
  const u16_2: Mutator := u(16, 2)
  const u16_3: Mutator := u(16, 3)
  const u16_4: Mutator := u(16, 4)
  const u16_5: Mutator := u(16, 5)
  const u17_8: Mutator := u(17, 8)
  const u18_3: Mutator := u(18, 3)
  const u21_1: Mutator := u(21, 1)
  const u21_4: Mutator := u(21, 4)
  const u22_3: Mutator := u(22, 3)
  const u22_5: Mutator := u(22, 5)
  const s0_12: Mutator := s(0, 12)
  const s11_5: Mutator := s(11, 5)
  const s16_5: Mutator := s(16, 5)

  // The corrected paired-register instances (see `PairedInstancesAcceptOdd`).
  const p1Even: Mutator := p(21)
  const p2Even: Mutator := p(16)
  const p3Even: Mutator := p(11)
  const p4Even: Mutator := p(6)

  /**
   * `Wd`: a 7-bit vector register number whose low five bits are the field
   * at bit 21 and whose two high bits are bits 2-3 of the word.
   */
  function WdIndex(w: Word): (n: Word)
    ensures n < 128
    ensures n & 0x1F == (w >> 21) & 0x1F
    ensures n >> 5 == (w >> 2) & 3
  {
    ((w >> 21) & 0x1F) | ((w & 0xC) << 3)
  }

  /**
   * `Wa`: low five bits from the field at bit 16, bit 5 from bit 5 of the
   * word and bit 6 from bit 10 of the word.
   */
  function WaIndex(w: Word): (n: Word)
    ensures n < 128
    ensures n & 0x1F == (w >> 16) & 0x1F
    ensures (n >> 5) & 1 == (w >> 5) & 1
    ensures n >> 6 == (w >> 10) & 1
  {
    ((w >> 16) & 0x1F) | ((w >> 4) & 0x40) | (w & 0x20)
  }

  /** `Wb`: low five bits from the field at bit 11, two high bits from bits 0-1. */
  function WbIndex(w: Word): (n: Word)
    ensures n < 128
    ensures n & 0x1F == (w >> 11) & 0x1F
    ensures n >> 5 == w & 3
  {
    ((w >> 11) & 0x1F) | ((w & 0x3) << 5)
  }

  /** `Wc`: only v0-v7, from the 3-bit field at bit 6. */
  function WcIndex(w: Word): (n: Word)
    ensures n < 8
    ensures n == (w >> 6) % 8
  {
    (w >> 6) & 7
  }

  /**
   * `SPR`: the 10-bit special-purpose register number, whose low half is
   * the field at bit 16 and whose high half is the field at bit 11.
   */
  function SprNumber(w: Word): (n: Word)
    ensures n < 1024
    ensures n & 0x1F == (w >> 16) & 0x1F
    ensures n >> 5 == (w >> 11) & 0x1F
  {
    ((w >> 16) & 0x1F) | ((w >> 6) & 0x3E0)
  }

  /**
   * Places an SPR number into the instruction word `w`, halves swapped, as
   * an assembler would: the inverse of `SprNumber`.
   */
  function EncodeSpr(n: Word, w: Word): (w': Word)
    requires n < 1024
    ensures SprNumber(w') == n
    ensures w' & 0xFFE0_07FF == w & 0xFFE0_07FF
  {
    (w & 0xFFE0_07FF) | ((n & 0x1F) << 16) | ((n & 0x3E0) << 6)
  }

  /**
   * The operand `SPR` appends: the table register when the number is
   * known, otherwise a `UInt32` constant equal to the number.
   */
  function SprOperand(arch: Arch, w: Word): (op: Operand)
    ensures (SprNumber(w) as int) in arch.spRegisters ==> op == RegOp(arch.spRegisters[SprNumber(w) as int])
    ensures (SprNumber(w) as int) !in arch.spRegisters ==> op == Imm(SprNumber(w) as int, UInt32)
    ensures op.Imm? ==> 0 <= op.value < 1024
  {
    var n := SprNumber(w) as int;
    if n in arch.spRegisters then RegOp(arch.spRegisters[n]) else Imm(n, UInt32)
  }

  /** What one mutator does to the decode context. */
  datatype Effect = Append(op: Operand) | SetFlag(flag: bool) | Pass | Fail

  /** The effect of mutator `m` on instruction word `w`. */
  function EffectOf(ctx: Context, m: Mutator, w: Word): Effect
    requires ctx.Valid()
  {
    var arch := ctx.arch;
    match m
    case C => SetFlag(w & 1 != 0)
    case C6 => SetFlag(w & (1 << 6) != 0)
    case C10 => SetFlag(w & (1 << 10) != 0)
    case CC => SetFlag(true)
    case S => Append(Imm(ToInt16(w), Int16))
    case U => Append(Imm(ToUInt16(w), Word16))
    case E(bitPos) => Append(MemOff(arch, Shr(w, bitPos), w))
    case E2_2 => if w & 0x3 != 0 then Fail else Append(MemOff(arch, w >> 16, w))
    case c(bitPos) => Append(RegOp(CRegFromBits(arch, Shr(w, bitPos))))
    case Cr(offset) => Append(RegOp(CRegFromBits(arch, Shr(w, offset))))
    case f(offset) => Append(RegOp(FRegFromBits(arch, Shr(w, offset))))
    case p(offset) =>
      var reg := FRegFromBits(arch, Shr(w, offset));
      if reg.number % 2 == 1 then Fail else Append(RegOp(reg))
    case r(offset) => Append(RegOp(RegFromBits(arch, Shr(w, offset))))
    case v(offset) => Append(RegOp(VRegFromBits(arch, Shr(w, offset) & 0x1F)))
    case v3_(offset) => Append(RegOp(VRegFromBits(arch, Shr(w, offset) & 0x7)))
    case I(offset) => Append(Imm(ToByte(Low5(Shr(w, offset))), Byte))
    case i(fields) => Append(Imm(ToInt32(ReadFields(fields, w)), Int32))
    case M => Append(Imm(ToByte(Low8(w >> 12)), Byte))
    case u(pos, len) => Append(Imm(ToByte(Read(Bitfield(pos, len), w)), Byte))
    case uFields(fields) => Append(Imm(ReadSignedFields(fields, w), Int32))
    case s(pos, len) => Append(Imm(ReadSigned(Bitfield(pos, len), w), Int32))
    case sFields(fields) => Append(Imm(ReadSignedFields(fields, w), Int32))
    case Wd => Append(RegOp(VRegFromBits(arch, WdIndex(w))))
    case Wa => Append(RegOp(VRegFromBits(arch, WaIndex(w))))
    case Wb => Append(RegOp(VRegFromBits(arch, WbIndex(w))))
    case Wc => Append(RegOp(VRegFromBits(arch, WcIndex(w))))
    case SPR => Append(SprOperand(arch, w))
    case X3 => Append(RegOp(CRegFromBits(arch, (w >> 23) & 0x7)))
    case Is64Bit => if ctx.defaultWordBits == 64 then Pass else Fail
  }

  /** The per-instruction mutable part of the disassembler. */
  datatype DecodeState = DecodeState(ops: seq<Operand>, allowSetCR0: bool)

  /** The state at the start of every instruction: no operands, flag off. */
  const Reset: DecodeState := DecodeState([], false)

  /** Whether the mutators succeeded, and the state they left. */
  datatype Outcome = Outcome(ok: bool, st: DecodeState)

  /** One effect applied to the state: a failing mutator changes nothing. */
  function Apply(e: Effect, st: DecodeState): (o: Outcome)
    ensures o.ok <==> !e.Fail?
    ensures !o.ok ==> o.st == st
  {
    match e
    case Append(op) => Outcome(true, st.(ops := st.ops + [op]))
    case SetFlag(b) => Outcome(true, st.(allowSetCR0 := b))
    case Pass => Outcome(true, st)
    case Fail => Outcome(false, st)
  }

  /** The effects of the mutators of `ms` on `w`, in order. */
  function Effects(ctx: Context, ms: seq<Mutator>, w: Word): (es: seq<Effect>)
    requires ctx.Valid()
    ensures |es| == |ms|
    ensures forall k :: 0 <= k < |ms| ==> es[k] == EffectOf(ctx, ms[k], w)
  {
    seq(|ms|, k requires 0 <= k < |ms| => EffectOf(ctx, ms[k], w))
  }

  /**
   * A sequence of effects, left to right, stopping at the first failure.
   * Whatever the outcome, it only adds operands after the existing ones,
   * at most one per effect.
   */
  function Run(es: seq<Effect>, st: DecodeState): (o: Outcome)
    ensures st.ops <= o.st.ops
    ensures |o.st.ops| <= |st.ops| + |es|
    decreases |es|
  {
    if es == [] then Outcome(true, st)
    else
      var o := Apply(es[0], st);
      if !o.ok then o else Run(es[1..], o.st)
  }

  /**
   * The mutators of `ms` run on `w` as the decoder runs them: the old
   * operands stay in front, followed by at most one operand per mutator.
   */
  function RunAll(ctx: Context, ms: seq<Mutator>, w: Word, st: DecodeState): (o: Outcome)
    requires ctx.Valid()
    ensures st.ops <= o.st.ops
    ensures |o.st.ops| <= |st.ops| + |ms|
  {
    Run(Effects(ctx, ms, w), st)
  }

  /** The operands that the effects append, in order. */
  function Appended(es: seq<Effect>): seq<Operand>
    decreases |es|
  {
    if es == [] then []
    else (if es[0].Append? then [es[0].op] else []) + Appended(es[1..])
  }

  /** The flag after the effects: the last flag setting, or `b` if there is none. */
  function LastFlag(es: seq<Effect>, b: bool): bool
    decreases |es|
  {
    if es == [] then b
    else if es[|es| - 1].SetFlag? then es[|es| - 1].flag
    else LastFlag(es[..|es| - 1], b)
  }
}
