/**
 * The decoder tree the disassembler dispatches through, and the pure
 * meaning of decoding one instruction word.
 *
 * Reko's generic decoder classes are not part of this model; they are
 * represented by the three kinds of node the PowerPC tables are built
 * from: an instruction leaf with its mnemonic, class and mutators, a node
 * that selects a child by a bit field of the word, and a leaf for
 * encodings the decoder does not yet support. An instruction leaf runs its
 * mutators left to right and yields the invalid instruction as soon as one
 * fails; otherwise it builds the record from the operands and flag the
 * mutators left behind.
 */
module PowerPcDecoders {
  import opened Bits
  import opened PowerPcOperands
  import opened PowerPcMutators
  import opened PowerPcMutatorProperties

  datatype Decoder =
    | Instr(mnemonic: Mnemonic, iclass: set<InstrClass>, mutators: seq<Mutator>)
    | Mask(field: Bitfield, decoders: seq<Decoder>)
    | Nyi(message: string)

  /** A mask node has one child for every value of its field, at every level. */
  predicate WellFormed(d: Decoder)
  {
    match d
    case Mask(field, ds) =>
      |ds| == Pow2(field.length) && forall k :: 0 <= k < |ds| ==> WellFormed(ds[k])
    case _ => true
  }

  /** No instruction leaf of `d` carries class `c`. */
  predicate NeverTags(d: Decoder, c: InstrClass)
  {
    match d
    case Instr(_, iclass, _) => c !in iclass
    case Mask(_, ds) => forall k :: 0 <= k < |ds| ==> NeverTags(ds[k], c)
    case Nyi(_) => true
  }

  /**
   * The leaf that word `w` reaches: each mask node follows the child its
   * field selects. `None` when a field value has no child.
   */
  function Select(d: Decoder, w: Word): (leaf: Option<Decoder>)
    ensures leaf.Some? ==> !leaf.value.Mask?
    ensures leaf.Some? && WellFormed(d) ==> WellFormed(leaf.value)
    ensures forall c :: leaf.Some? && NeverTags(d, c) ==> NeverTags(leaf.value, c)
    decreases d
  {
    match d
    case Mask(field, ds) =>
      var k := Read(field, w);
      if k < |ds| then Select(ds[k], w) else None
    case _ => Some(d)
  }

  /** Every word reaches a leaf of a well-formed tree. */
  lemma {:induction false} SelectTotal(d: Decoder, w: Word)
    requires WellFormed(d)
    ensures Select(d, w).Some?
    decreases d
  {
    if d.Mask? {
      var k := Read(d.field, w);
      SelectTotal(d.decoders[k], w);
    }
  }

  /** `CreateInvalidInstruction`: mnemonic `illegal`, class `Invalid`, no operands. */
  const InvalidInstruction: Instruction := Instruction(Illegal, {Invalid}, None, 0, [], false)

  /** `MakeInstruction`: the record built from the current address and decode state. */
  function MakeRecord(addr: Option<Address>, iclass: set<InstrClass>, mnemonic: Mnemonic, st: DecodeState): Instruction
  {
    Instruction(mnemonic, iclass, addr, 4, st.ops, st.allowSetCR0)
  }

  /** The record a decoder yields, and the decode state it leaves. */
  datatype Decoded = Decoded(instr: Instruction, st: DecodeState)

  /**
   * Decoding `w` with `d`, starting from state `st`, at the address `addr`.
   * The result is either the invalid instruction or a record at `addr` of
   * length 4 that carries exactly the operands and flag left behind; the
   * old operands are never dropped.
   */
  function Decode(ctx: Context, d: Decoder, w: Word, addr: Option<Address>, st: DecodeState): (r: Decoded)
    requires ctx.Valid()
    ensures r.instr == InvalidInstruction
      || (r.instr.address == addr && r.instr.length == 4
          && r.instr.operands == r.st.ops && r.instr.setsCR0 == r.st.allowSetCR0)
    ensures st.ops <= r.st.ops
  {
    var leaf := Select(d, w);
    if leaf.Some? && leaf.value.Instr? then
      var o := RunAll(ctx, leaf.value.mutators, w, st);
      if o.ok then Decoded(MakeRecord(addr, leaf.value.iclass, leaf.value.mnemonic, o.st), o.st)
      else Decoded(InvalidInstruction, o.st)
    else Decoded(InvalidInstruction, st)
  }

  /**
   * What an instruction leaf yields: the invalid instruction exactly when
   * one of its mutators fails on the word; otherwise a record whose
   * operands are the ones the mutators append, in order, and whose CR0 flag
   * is the last flag a mutator set. A not-yet-implemented leaf always
   * yields the invalid instruction and changes nothing.
   */
  lemma DecodeLeaf(ctx: Context, d: Decoder, w: Word, addr: Option<Address>, st: DecodeState)
    requires ctx.Valid()
    requires Select(d, w).Some?
    ensures Select(d, w).value.Nyi? ==> Decode(ctx, d, w, addr, st) == Decoded(InvalidInstruction, st)
    ensures Select(d, w).value.Instr? ==>
      var leaf := Select(d, w).value;
      var es := Effects(ctx, leaf.mutators, w);
      Decode(ctx, d, w, addr, st).instr ==
        if exists k :: 0 <= k < |es| && es[k].Fail? then InvalidInstruction
        else Instruction(leaf.mnemonic, leaf.iclass, addr, 4, st.ops + Appended(es), LastFlag(es, st.allowSetCR0))
  {
    var leaf := Select(d, w).value;
    if leaf.Instr? {
      var es := Effects(ctx, leaf.mutators, w);
      RunFailsIff(es, st);
      if Run(es, st).ok {
        RunSucceeds(es, st);
      }
    }
  }

  /** Decoding only ever adds well-formed operands to a well-formed list. */
  lemma DecodeWellFormed(ctx: Context, d: Decoder, w: Word, addr: Option<Address>, st: DecodeState)
    requires ctx.Valid()
    requires AllWellFormed(ctx.arch, st.ops)
    ensures AllWellFormed(ctx.arch, Decode(ctx, d, w, addr, st).instr.operands)
    ensures AllWellFormed(ctx.arch, Decode(ctx, d, w, addr, st).st.ops)
  {
    var leaf := Select(d, w);
    if leaf.Some? && leaf.value.Instr? {
      MutatorsKeepWellFormed(ctx, leaf.value.mutators, w, st);
    }
  }

  /** A class that no leaf carries never appears in a decoded record, except `Invalid` from a failure. */
  lemma DecodeNeverTags(ctx: Context, d: Decoder, w: Word, addr: Option<Address>, st: DecodeState, c: InstrClass)
    requires ctx.Valid()
    requires NeverTags(d, c)
    requires c != Invalid
    ensures c !in Decode(ctx, d, w, addr, st).instr.iclass
  {
  }

  /** The primary dispatch index: the top six bits of the word, the primary opcode. */
  function PrimaryIndex(w: Word): (k: nat)
    ensures k < 64
  {
    (w >> 26) as int
  }

  /** The dispatch index is the word's value divided by 2^26. */
  lemma PrimaryIndexIsOpcode(w: Word)
    ensures PrimaryIndex(w) == Unsigned(w) / 0x400_0000
  {
  }

  /**
   * `DisassembleInstruction` once a word has been read at address `a`: reset
   * the decode state, decode through the primary table, add `Zero` to the
   * class of the all-zero word, and stamp the address and a length of 4.
   */
  function DecodeWord(ctx: Context, table: seq<Decoder>, w: Word, a: Address): (r: Decoded)
    requires ctx.Valid()
    requires |table| == 64
    ensures r.instr.address == Some(a) && r.instr.length == 4
    ensures w == 0 ==> Zero in r.instr.iclass
    ensures (r.instr.mnemonic == Illegal && Invalid in r.instr.iclass && r.instr.operands == [] && !r.instr.setsCR0)
      || (r.instr.operands == r.st.ops && r.instr.setsCR0 == r.st.allowSetCR0)
  {
    var res := Decode(ctx, table[PrimaryIndex(w)], w, Some(a), Reset);
    var iclass := if w == 0 then res.instr.iclass + {Zero} else res.instr.iclass;
    Decoded(res.instr.(iclass := iclass, address := Some(a), length := 4), res.st)
  }

  /**
   * The record of every decoded word keeps every class its decoder gave
   * it, and when no table entry uses `Zero`, carries `Zero` exactly when
   * the word is 0.
   */
  lemma DecodeWordStamped(ctx: Context, table: seq<Decoder>, w: Word, a: Address)
    requires ctx.Valid()
    requires |table| == 64
    ensures Decode(ctx, table[PrimaryIndex(w)], w, Some(a), Reset).instr.iclass <= DecodeWord(ctx, table, w, a).instr.iclass
    ensures (forall k :: 0 <= k < 64 ==> NeverTags(table[k], Zero)) ==>
      (Zero in DecodeWord(ctx, table, w, a).instr.iclass <==> w == 0)
  {
    if forall k :: 0 <= k < 64 ==> NeverTags(table[k], Zero) {
      DecodeNeverTags(ctx, table[PrimaryIndex(w)], w, Some(a), Reset, Zero);
    }
  }

  /** Every operand of a decoded record comes from the catalogs and every constant fits its type. */
  lemma DecodeWordWellFormed(ctx: Context, table: seq<Decoder>, w: Word, a: Address)
    requires ctx.Valid()
    requires |table| == 64
    ensures AllWellFormed(ctx.arch, DecodeWord(ctx, table, w, a).instr.operands)
    ensures AllWellFormed(ctx.arch, DecodeWord(ctx, table, w, a).st.ops)
  {
    DecodeWellFormed(ctx, table[PrimaryIndex(w)], w, Some(a), Reset);
  }

  /**
   * The illegal record: an instruction leaf whose mutators fail on the word
   * or a not-yet-implemented leaf yields no operands, class `Invalid` (plus
   * `Zero` for the zero word) and does not set CR0.
   */
  lemma DecodeWordInvalid(ctx: Context, table: seq<Decoder>, w: Word, a: Address)
    requires ctx.Valid()
    requires |table| == 64
    requires Select(table[PrimaryIndex(w)], w).Some?
    requires var leaf := Select(table[PrimaryIndex(w)], w).value;
      leaf.Nyi? || exists k :: 0 <= k < |leaf.mutators| && EffectOf(ctx, leaf.mutators[k], w).Fail?
    ensures DecodeWord(ctx, table, w, a).instr.mnemonic == Illegal
    ensures DecodeWord(ctx, table, w, a).instr.iclass == if w == 0 then {Invalid, Zero} else {Invalid}
    ensures DecodeWord(ctx, table, w, a).instr.operands == []
    ensures !DecodeWord(ctx, table, w, a).instr.setsCR0
  {
    var leaf := Select(table[PrimaryIndex(w)], w).value;
    if leaf.Instr? {
      MutatorsFailIff(ctx, leaf.mutators, w, Reset);
    }
  }
}
