/**
 * Operands, register catalogs and instruction records of the PowerPC
 * disassembler, and the private helpers of `PowerPcDisassembler` that turn
 * bits of an instruction word into a register or a memory operand.
 *
 * Registers are identified only through the architecture's read-only
 * catalogs: the decoder computes an index and looks it up.
 */
module PowerPcOperands {
  import opened Bits

  /** A `RegisterStorage`: its name and its architecture-wide number. */
  datatype Reg = Reg(name: string, number: int)

  /** The `PrimitiveType`s the decoder gives its constants and memory accesses. */
  datatype PrimitiveType = Byte | Word16 | Int16 | Int32 | UInt32 | Word32

  /**
   * A `MachineOperand`: a register, an immediate constant of a given type,
   * or a memory access `offset(base)` of a given width.
   */
  datatype Operand =
    | RegOp(reg: Reg)
    | Imm(value: int, width: PrimitiveType)
    | Mem(width: PrimitiveType, base: Reg, offset: int)

  /** Whether `value` is representable by a constant of type `t`. */
  predicate Fits(value: int, t: PrimitiveType)
  {
    match t
    case Byte => 0 <= value < 0x100
    case Word16 => 0 <= value < 0x1_0000
    case Int16 => -0x8000 <= value < 0x8000
    case Int32 => -0x8000_0000 <= value < 0x8000_0000
    case UInt32 | Word32 => 0 <= value < 0x1_0000_0000
  }

  /**
   * The register catalogs of `PowerPcArchitecture` that the decoder uses:
   * general-purpose, floating-point, condition-register fields, vector
   * registers, and the special-purpose-register table keyed by SPR number.
   */
  datatype Arch = Arch(
    registers: seq<Reg>,
    fpRegisters: seq<Reg>,
    crRegisters: seq<Reg>,
    vecRegisters: seq<Reg>,
    spRegisters: map<int, Reg>)
  {
    /** The bank sizes the decoder's index masks rely on. */
    predicate Valid()
    {
      |registers| == 32 && |fpRegisters| == 32 && |crRegisters| == 8 && |vecRegisters| == 128
    }

    /**
     * The floating-point register at index k has a number of the same
     * parity as k (Reko numbers them consecutively from an even base).
     */
    predicate FpNumbersFollowIndex()
      requires Valid()
    {
      forall k :: 0 <= k < 32 ==> fpRegisters[k].number % 2 == k % 2
    }

    /** A register that occurs in one of the catalogs. */
    predicate Owns(reg: Reg)
    {
      reg in registers || reg in fpRegisters || reg in crRegisters || reg in vecRegisters
      || reg in spRegisters.Values
    }
  }

  /**
   * An operand the decoder can produce: its registers come from the
   * catalogs, a memory base is a general-purpose register, and every
   * constant fits its type.
   */
  predicate WellFormed(arch: Arch, op: Operand)
  {
    match op
    case RegOp(reg) => arch.Owns(reg)
    case Imm(value, t) => Fits(value, t)
    case Mem(t, base, offset) => t == Word32 && base in arch.registers && Fits(offset, Int16)
  }

  predicate AllWellFormed(arch: Arch, ops: seq<Operand>)
  {
    forall k :: 0 <= k < |ops| ==> WellFormed(arch, ops[k])
  }

  /**
   * `MemOff`: a 32-bit memory access whose base is the general-purpose
   * register selected by the low 5 bits of `reg` and whose offset is the
   * sign-extended low half of the instruction word.
   */
  function MemOff(arch: Arch, reg: Word, w: Word): (op: Operand)
    requires arch.Valid()
    ensures op.Mem? && op.width == Word32
    ensures op.base == arch.registers[Low5(reg)]
    ensures op.offset == ToInt16(w)
    ensures WellFormed(arch, op)
  {
    Mem(Word32, RegFromBits(arch, reg), ToInt16(w))
  }

  /** `CRegFromBits`: the condition-register field selected by the low 3 bits. */
  function CRegFromBits(arch: Arch, r: Word): (reg: Reg)
    requires arch.Valid()
    ensures reg in arch.crRegisters
    ensures reg == arch.crRegisters[Low3(r)]
  {
    arch.crRegisters[Low3(r)]
  }

  /** `RegFromBits`: the general-purpose register selected by the low 5 bits. */
  function RegFromBits(arch: Arch, r: Word): (reg: Reg)
    requires arch.Valid()
    ensures reg in arch.registers
    ensures reg == arch.registers[Low5(r)]
  {
    arch.registers[Low5(r)]
  }

  /** `FRegFromBits`: the floating-point register selected by the low 5 bits. */
  function FRegFromBits(arch: Arch, r: Word): (reg: Reg)
    requires arch.Valid()
    ensures reg in arch.fpRegisters
    ensures reg == arch.fpRegisters[Low5(r)]
  {
    arch.fpRegisters[Low5(r)]
  }

  /**
   * `VRegFromBits`: the vector register at index `r`. Unlike the other
   * helpers it does not mask, so its callers must keep `r` below the size
   * of the vector bank.
   */
  function VRegFromBits(arch: Arch, r: Word): (reg: Reg)
    requires arch.Valid()
    requires r < 128
    ensures reg in arch.vecRegisters
    ensures reg == arch.vecRegisters[Low7(r)]
  {
    arch.vecRegisters[Low7(r)]
  }

  /** The `InstrClass` flags; a record carries a set of them. */
  datatype InstrClass = Linear | Conditional | Transfer | Call | Return | Privileged | Padding | Invalid | Zero

  type Mnemonic = string

  const Illegal: Mnemonic := "illegal"

  type Address = nat

  /**
   * A `PowerPcInstruction`: mnemonic, class flags, address (absent until
   * it is stamped), length in bytes, operands, and whether it sets CR0.
   */
  datatype Instruction = Instruction(
    mnemonic: Mnemonic,
    iclass: set<InstrClass>,
    address: Option<Address>,
    length: nat,
    operands: seq<Operand>,
    setsCR0: bool)
}
