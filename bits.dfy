/**
 * 32-bit instruction words, the integer casts of C# that the PowerPC decoder
 * applies to them, and bit-field extraction.
 *
 * The `Bitfield` functions at the end stand for Reko's `Bitfield.Read`,
 * `ReadSigned`, `ReadFields` and `ReadSignedFields`, whose implementation is
 * not part of this model. They are specified here abstractly: a field of
 * `length` bits starting at bit `position`, counted from the least
 * significant bit, read as an unsigned number; several fields are
 * concatenated, the first field giving the most significant bits; the
 * signed variants sign-extend the result from the total field width.
 */
module Bits {

  /** One PowerPC instruction word (a C# `uint`). */
  type Word = bv32

  datatype Option<T> = None | Some(value: T)

  /**
   * The count of a shift of a C# `uint`: C# uses only its low five bits,
   * so a shift count is modelled as a 5-bit value.
   */
  type ShiftCount = bv5

  /**
   * `w >> k` for a shift count taken from a mutator's parameter. Keeping
   * it a named function lets facts about one shift be reused wherever the
   * same shift occurs.
   */
  function Shr(w: Word, k: ShiftCount): Word
  {
    w >> k
  }

  /** The low 3 bits of `x` as a number. */
  function Low3(x: Word): (r: nat)
    ensures r < 8
  {
    ((x & 0x7) as bv3) as int
  }

  /** The low 5 bits of `x` as a number. */
  function Low5(x: Word): (r: nat)
    ensures r < 32
  {
    ((x & 0x1F) as bv5) as int
  }

  /** The low 7 bits of `x` as a number. */
  function Low7(x: Word): (r: nat)
    ensures r < 128
  {
    ((x & 0x7F) as bv7) as int
  }

  /** Below 128, the low 7 bits are the whole number. */
  lemma Low7OfSmall(x: Word)
    requires x < 128
    ensures Low7(x) == Unsigned(x)
  {
  }

  /** The low 8 bits of `x` as a number. */
  function Low8(x: Word): (r: nat)
    ensures r < 0x100
  {
    ((x & 0xFF) as bv8) as int
  }

  /** After a 5-bit or a 3-bit mask, the low 7 bits are the low 5 or the low 3 bits. */
  lemma Low7OfMasked(x: Word)
    ensures Low7(x & 0x1F) == Low5(x) && Low7(x & 0x7) == Low3(x)
  {
  }

  function Pow2(n: nat): (r: nat)
    ensures r >= 1
  {
    if n == 0 then 1 else 2 * Pow2(n - 1)
  }

  lemma {:induction false} Pow2Table()
    ensures Pow2(8) == 0x100 && Pow2(16) == 0x1_0000 && Pow2(31) == 0x8000_0000
    ensures Pow2(32) == 0x1_0000_0000
  {
    assert Pow2(4) == 0x10;
    assert Pow2(8) == 0x100;
    assert Pow2(12) == 0x1000;
    assert Pow2(16) == 0x1_0000;
    assert Pow2(20) == 0x10_0000;
    assert Pow2(24) == 0x100_0000;
    assert Pow2(28) == 0x1000_0000;
    assert Pow2(31) == 0x8000_0000;
  }

  lemma {:induction false} Pow2Monotonic(a: nat, b: nat)
    requires a <= b
    ensures Pow2(a) <= Pow2(b)
  {
    if a < b {
      Pow2Monotonic(a, b - 1);
    }
  }

  lemma {:induction false} Pow2Add(a: nat, b: nat)
    ensures Pow2(a + b) == Pow2(a) * Pow2(b)
  {
    if b > 0 {
      Pow2Add(a, b - 1);
      assert Pow2(a + b) == 2 * Pow2(a + b - 1);
    }
  }

  function Min(a: nat, b: nat): nat
  {
    if a <= b then a else b
  }

  /** The low `len` bits of `n` as a number, taken one bit at a time. */
  function LowBits(n: nat, len: nat): (r: nat)
    ensures r < Pow2(len)
  {
    if len == 0 then 0 else n % 2 + 2 * LowBits(n / 2, len - 1)
  }

  /** `n` with its `k` low bits shifted out. */
  function ShiftDown(n: nat, k: nat): nat
  {
    if k == 0 then n else ShiftDown(n / 2, k - 1)
  }

  /** `LowBits` is the remainder modulo 2^len. */
  lemma {:induction false} LowBitsIsMod(n: nat, len: nat)
    ensures LowBits(n, len) == n % Pow2(len)
  {
    if len > 0 {
      LowBitsIsMod(n / 2, len - 1);
      ModStep(n, Pow2(len - 1));
    }
  }

  lemma ModStep(n: nat, m: nat)
    requires m > 0
    ensures n % (2 * m) == n % 2 + 2 * ((n / 2) % m)
  {
    var h := n / 2;
    var q, lo := h / m, h % m;
    assert h == q * m + lo;
    assert q * (2 * m) == 2 * (q * m);
    assert n == q * (2 * m) + (n % 2 + 2 * lo);
    DivModUnique(n, 2 * m, q, n % 2 + 2 * lo);
  }

  /** `ShiftDown` is the quotient by 2^k. */
  lemma {:induction false} ShiftDownIsDiv(n: nat, k: nat)
    ensures ShiftDown(n, k) == n / Pow2(k)
  {
    if k > 0 {
      ShiftDownIsDiv(n / 2, k - 1);
      DivDiv(n, 2, Pow2(k - 1));
    }
  }

  lemma DivDiv(n: nat, a: nat, b: nat)
    requires a > 0 && b > 0
    ensures n / a / b == n / (a * b)
  {
    var q := n / a / b;
    var r1 := n % a;
    var r2 := (n / a) % b;
    assert n == a * (b * q + r2) + r1;
    assert n == (a * b) * q + (a * r2 + r1);
    assert a * r2 + r1 < a * b by {
      assert r2 <= b - 1;
      assert a * r2 <= a * (b - 1);
    }
    DivModUnique(n, a * b, q, a * r2 + r1);
  }

  /** A number that already fits in `len` bits is its own low part. */
  lemma LowBitsOfSmall(n: nat, len: nat)
    ensures n < Pow2(len) ==> LowBits(n, len) == n
  {
    LowBitsIsMod(n, len);
    if n < Pow2(len) {
      DivModUnique(n, Pow2(len), 0, n);
    }
  }

  /**
   * Two's-complement reading of the low `bits` bits of `x`: the unique
   * value in the signed range of that width that agrees with `x` on those
   * bits.
   */
  function SignExtend(x: nat, bits: nat): (r: int)
    requires 1 <= bits
    ensures -(Pow2(bits - 1) as int) <= r < Pow2(bits - 1)
    ensures r >= 0 ==> r == LowBits(x, bits)
    ensures r < 0 ==> r + Pow2(bits) == LowBits(x, bits)
  {
    var lo := LowBits(x, bits);
    if lo >= Pow2(bits - 1) then lo - Pow2(bits) else lo
  }

  /** A C# `uint` read as a number. */
  function Unsigned(w: Word): (r: nat)
    ensures r < 0x1_0000_0000
  {
    w as int
  }

  /** C#'s `(ushort) w`: the low 16 bits, zero-extended. */
  function ToUInt16(w: Word): (r: int)
    ensures 0 <= r < 0x1_0000
  {
    Unsigned(w) % 0x1_0000
  }

  /** C#'s `(short) w`: the low 16 bits, sign-extended. */
  function ToInt16(w: Word): (r: int)
    ensures -0x8000 <= r < 0x8000
    ensures r >= 0 ==> r == ToUInt16(w)
    ensures r < 0 ==> r + 0x1_0000 == ToUInt16(w)
  {
    Pow2Table();
    LowBitsOfSmall(ToUInt16(w), 16);
    SignExtend(ToUInt16(w), 16)
  }

  /** C#'s `(byte) x`: the low 8 bits. */
  function ToByte(x: int): (r: int)
    ensures 0 <= r < 0x100
    ensures 0 <= x < 0x100 ==> r == x
    ensures (x - r) % 0x100 == 0
  {
    x % 0x100
  }

  /** C#'s `(int) x` applied to a `uint`: reinterpretation as two's complement. */
  function ToInt32(x: nat): (r: int)
    ensures -0x8000_0000 <= r < 0x8000_0000
    ensures x < 0x8000_0000 ==> r == x
    ensures 0x8000_0000 <= x < 0x1_0000_0000 ==> r == x - 0x1_0000_0000
  {
    Pow2Table();
    LowBitsOfSmall(x, 32);
    SignExtend(x, 32)
  }

  /** The two 16-bit casts of an all-ones and of a positive low half. */
  lemma HalfwordExamples()
    ensures ToInt16(0xFFFF) == -1 && ToUInt16(0xFFFF) == 0xFFFF
    ensures ToInt16(0x1234_8000) == -0x8000 && ToInt16(0x7FFF) == 0x7FFF
  {
    assert ToUInt16(0xFFFF) == 0xFFFF;
    assert ToUInt16(0x1234_8000) == 0x8000;
    assert ToUInt16(0x7FFF) == 0x7FFF;
  }

  /** A contiguous bit range of an instruction word. */
  datatype Bitfield = Bitfield(position: nat, length: nat)

  /** `Bitfield.Read`: the field's bits as an unsigned number. */
  function Read(bf: Bitfield, w: Word): (r: nat)
    ensures r < Pow2(bf.length)
  {
    LowBits(ShiftDown(Unsigned(w), bf.position), bf.length)
  }

  /** The field read is the word divided by 2^position, modulo 2^length. */
  lemma ReadIsDivMod(bf: Bitfield, w: Word)
    ensures Read(bf, w) == (Unsigned(w) / Pow2(bf.position)) % Pow2(bf.length)
  {
    ShiftDownIsDiv(Unsigned(w), bf.position);
    LowBitsIsMod(ShiftDown(Unsigned(w), bf.position), bf.length);
  }

  /**
   * `Bitfield.ReadSigned`: the field sign-extended from its own width (a C#
   * `int`, so widths above 32 are read as 32).
   */
  function ReadSigned(bf: Bitfield, w: Word): (r: int)
    ensures -0x8000_0000 <= r < 0x8000_0000
  {
    if bf.length == 0 then 0
    else
      var bits := Min(bf.length, 32);
      Pow2Table();
      Pow2Monotonic(bits - 1, 31);
      SignExtend(Read(bf, w), bits)
  }

  /** A signed field of 1 to 32 bits lies in the signed range of its width. */
  lemma ReadSignedRange(bf: Bitfield, w: Word)
    requires 1 <= bf.length <= 32
    ensures -(Pow2(bf.length - 1) as int) <= ReadSigned(bf, w) < Pow2(bf.length - 1)
  {
    assert ReadSigned(bf, w) == SignExtend(Read(bf, w), bf.length);
  }

  /**
   * A signed field of 1 to 32 bits agrees with the unsigned field on its
   * bits: it is the field itself when not negative and the field minus
   * 2^length when negative. With `ReadSignedRange` this fixes the value.
   */
  lemma ReadSignedAgrees(bf: Bitfield, w: Word)
    requires 1 <= bf.length <= 32
    ensures ReadSigned(bf, w) >= 0 ==> ReadSigned(bf, w) == Read(bf, w)
    ensures ReadSigned(bf, w) < 0 ==> ReadSigned(bf, w) + Pow2(bf.length) == Read(bf, w)
    ensures ReadSigned(bf, w) % Pow2(bf.length) == Read(bf, w)
  {
    var r, x := ReadSigned(bf, w), Read(bf, w);
    assert r == SignExtend(x, bf.length);
    LowBitsOfSmall(x, bf.length);
    DivModUnique(r, Pow2(bf.length), if r >= 0 then 0 else -1, x);
  }

  /** Total number of bits of a list of fields. */
  function TotalLength(fields: seq<Bitfield>): nat
  {
    if fields == [] then 0 else TotalLength(fields[..|fields| - 1]) + fields[|fields| - 1].length
  }

  /**
   * The fields' values concatenated, the first field most significant, as
   * an unbounded number.
   */
  function Concat(fields: seq<Bitfield>, w: Word): nat
  {
    if fields == [] then 0
    else
      var last := fields[|fields| - 1];
      Concat(fields[..|fields| - 1], w) * Pow2(last.length) + Read(last, w)
  }

  /** The concatenation never needs more bits than the fields have together. */
  lemma {:induction false} ConcatBound(fields: seq<Bitfield>, w: Word)
    ensures Concat(fields, w) < Pow2(TotalLength(fields))
  {
    if fields != [] {
      var init, last := fields[..|fields| - 1], fields[|fields| - 1];
      ConcatBound(init, w);
      var a, m, x := Concat(init, w), Pow2(last.length), Read(last, w);
      var t := Pow2(TotalLength(init));
      AppendBound(a, t, x, m);
      Pow2Add(TotalLength(init), last.length);
    }
  }

  lemma AppendBound(a: nat, t: nat, x: nat, m: nat)
    requires a < t && x < m
    ensures a * m + x < t * m
  {
    MulMonotonic(a + 1, t, m);
    assert (a + 1) * m == a * m + m;
  }

  lemma {:induction false} MulMonotonic(a: int, b: int, m: nat)
    requires a <= b
    ensures a * m <= b * m
  {
    if m > 0 {
      MulMonotonic(a, b, m - 1);
      assert a * m == a * (m - 1) + a;
      assert b * m == b * (m - 1) + b;
    }
  }

  /**
   * Appending a field shifts what was read so far up by the field's width
   * and puts the new field in the low bits: both parts can be read back.
   */
  lemma ConcatSplit(fields: seq<Bitfield>, f: Bitfield, w: Word)
    ensures Concat(fields + [f], w) % Pow2(f.length) == Read(f, w)
    ensures Concat(fields + [f], w) / Pow2(f.length) == Concat(fields, w)
  {
    var s := fields + [f];
    assert s[..|s| - 1] == fields;
    var a, m, x := Concat(fields, w), Pow2(f.length), Read(f, w);
    assert Concat(s, w) == a * m + x;
    DivModUnique(a * m + x, m, a, x);
  }

  lemma DivModUnique(n: int, m: int, q: int, r: int)
    requires m > 0 && 0 <= r < m && n == q * m + r
    ensures n % m == r && n / m == q
  {
    var q', r' := n / m, n % m;
    assert n == q' * m + r';
    if q' < q {
      assert (q - q') * m == q * m - q' * m;
      MulMonotonic(1, q - q', m);
    } else if q' > q {
      assert (q' - q) * m == q' * m - q * m;
      MulMonotonic(1, q' - q, m);
    }
  }

  /** `Bitfield.ReadFields`: the concatenation as a C# `uint`. */
  function ReadFields(fields: seq<Bitfield>, w: Word): (r: nat)
    ensures r < 0x1_0000_0000
  {
    Pow2Table();
    LowBits(Concat(fields, w), 32)
  }

  /** `ReadFields` keeps the concatenation modulo 2^32, as a `uint` does. */
  lemma ReadFieldsWraps(fields: seq<Bitfield>, w: Word)
    ensures ReadFields(fields, w) == Concat(fields, w) % 0x1_0000_0000
  {
    Pow2Table();
    LowBitsIsMod(Concat(fields, w), 32);
  }

  /** When the fields fit in 32 bits the `uint` holds the whole concatenation. */
  lemma ReadFieldsNoWrap(fields: seq<Bitfield>, w: Word)
    requires TotalLength(fields) <= 32
    ensures ReadFields(fields, w) == Concat(fields, w)
    ensures ReadFields(fields, w) < Pow2(TotalLength(fields))
  {
    Pow2Table();
    ConcatBound(fields, w);
    Pow2Monotonic(TotalLength(fields), 32);
    LowBitsOfSmall(Concat(fields, w), 32);
  }

  /**
   * `Bitfield.ReadSignedFields`: the concatenation sign-extended from the
   * total width of the fields (a C# `int`, so at most 32 bits).
   */
  function ReadSignedFields(fields: seq<Bitfield>, w: Word): (r: int)
    ensures -0x8000_0000 <= r < 0x8000_0000
  {
    var total := TotalLength(fields);
    if total == 0 then 0
    else
      var bits := Min(total, 32);
      Pow2Table();
      Pow2Monotonic(bits - 1, 31);
      SignExtend(ReadFields(fields, w), bits)
  }

  /**
   * For fields of 1 to 32 bits in total, the signed concatenation lies in
   * the signed range of the total width and agrees with `Concat` on its
   * bits: it is the concatenation when not negative and the concatenation
   * minus 2^total when negative.
   */
  lemma ReadSignedFieldsAgrees(fields: seq<Bitfield>, w: Word)
    requires 1 <= TotalLength(fields) <= 32
    ensures -(Pow2(TotalLength(fields) - 1) as int) <= ReadSignedFields(fields, w) < Pow2(TotalLength(fields) - 1)
    ensures ReadSignedFields(fields, w) >= 0 ==> ReadSignedFields(fields, w) == Concat(fields, w)
    ensures ReadSignedFields(fields, w) < 0 ==>
      ReadSignedFields(fields, w) + Pow2(TotalLength(fields)) == Concat(fields, w)
    ensures ReadSignedFields(fields, w) % Pow2(TotalLength(fields)) == Concat(fields, w)
  {
    var n := TotalLength(fields);
    var r, x := ReadSignedFields(fields, w), ReadFields(fields, w);
    assert r == SignExtend(x, n);
    ReadFieldsNoWrap(fields, w);
    LowBitsOfSmall(x, n);
    DivModUnique(r, Pow2(n), if r >= 0 then 0 else -1, x);
  }

  /** Four set bits read as fields: 15 as a `uint`, -1 sign-extended. */
  lemma FieldsExamples()
    ensures ReadFields([Bitfield(0, 4)], 0xF) == 15
    ensures ReadSignedFields([Bitfield(0, 4)], 0xF) == -1
  {
    var fs := [Bitfield(0, 4)];
    assert fs[..0] == [];
    assert Read(Bitfield(0, 4), 0xF) == 15;
    assert Concat(fs, 0xF) == 15;
    assert TotalLength(fs) == 4;
    ReadFieldsNoWrap(fs, 0xF);
  }
}
