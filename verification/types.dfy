/** The assembler's shared types and the six RV32I instruction layouts.

    A parsed `instruction_t` becomes `Instruction`; a symbol-table entry
    becomes `Symbol`; the bit-field union `encoded_fields_t` becomes `Encoded`,
    one constructor per format, whose fields hold the values the encoder
    assigns, and `Word` is what the union's `word` member reads back: every
    field cut to its width and placed at its bit position, opcode in the least
    significant bits. */
module Types {
  import opened Wrappers
  import opened Words

  const BASE_ADDRESS: nat := 0x0040_0000
  const SOURCE_LINE_MAX: nat := 256
  /** `char mnemonic[8]` keeps at most 7 characters and a terminator. */
  const MNEMONIC_MAX: nat := 7
  /** `char *operands[4]`. */
  const MAX_OPERANDS: nat := 4
  const ENCODING_ERROR_SENTINEL: nat := 0xFFFF_FFFF

  datatype Format = R | I | S | B | U | J

  datatype Symbol = Symbol(name: string, address: nat)

  datatype Instruction = Instruction(
    labelName: Option<string>,
    mnemonic: string,
    operands: seq<string>,
    lineNumber: nat,
    address: nat)
  {
    /** What fits in an `instruction_t`. */
    predicate Fits() {
      |mnemonic| <= MNEMONIC_MAX && |operands| <= MAX_OPERANDS
    }
  }

  /** The union members `r`, `i`, `s`, `b`, `u` and `j`, each with the values
      the encoder stores into its bit-fields (before they are cut to width). */
  datatype Encoded =
    | RFields(opcode: int, rd: int, funct3: int, rs1: int, rs2: int, funct7: int)
    | IFields(opcode: int, rd: int, funct3: int, rs1: int, imm: int)
    | SFields(opcode: int, imm4_0: int, funct3: int, rs1: int, rs2: int, imm11_5: int)
    | BFields(opcode: int, imm11: int, imm4_1: int, funct3: int, rs1: int, rs2: int, imm10_5: int, imm12: int)
    | UFields(opcode: int, rd: int, imm: int)
    | JFields(opcode: int, rd: int, imm19_12: int, imm11: int, imm10_1: int, imm20: int)

  /** Field widths of each union member, least significant field first. */
  function Layout(f: Format): seq<nat>
  {
    match f
    case R => [7, 5, 3, 5, 5, 7]
    case I => [7, 5, 3, 5, 12]
    case S => [7, 5, 3, 5, 5, 7]
    case B => [7, 1, 4, 3, 5, 5, 6, 1]
    case U => [7, 5, 20]
    case J => [7, 5, 8, 1, 10, 1]
  }

  function FormatOf(e: Encoded): Format
  {
    match e
    case RFields(_, _, _, _, _, _) => R
    case IFields(_, _, _, _, _) => I
    case SFields(_, _, _, _, _, _) => S
    case BFields(_, _, _, _, _, _, _, _) => B
    case UFields(_, _, _) => U
    case JFields(_, _, _, _, _, _) => J
  }

  /** The stored values in layout order. */
  function Fields(e: Encoded): (vs: seq<int>)
    ensures |vs| == |Layout(FormatOf(e))|
  {
    match e
    case RFields(op, rd, f3, rs1, rs2, f7) => [op, rd, f3, rs1, rs2, f7]
    case IFields(op, rd, f3, rs1, imm) => [op, rd, f3, rs1, imm]
    case SFields(op, lo, f3, rs1, rs2, hi) => [op, lo, f3, rs1, rs2, hi]
    case BFields(op, b11, b4_1, f3, rs1, rs2, b10_5, b12) => [op, b11, b4_1, f3, rs1, rs2, b10_5, b12]
    case UFields(op, rd, imm) => [op, rd, imm]
    case JFields(op, rd, b19_12, b11, b10_1, b20) => [op, rd, b19_12, b11, b10_1, b20]
  }

  /** The member of format f whose stored values are vs. */
  function FromFields(f: Format, vs: seq<int>): (e: Encoded)
    requires |vs| == |Layout(f)|
    ensures FormatOf(e) == f && Fields(e) == vs
  {
    match f
    case R => RFields(vs[0], vs[1], vs[2], vs[3], vs[4], vs[5])
    case I => IFields(vs[0], vs[1], vs[2], vs[3], vs[4])
    case S => SFields(vs[0], vs[1], vs[2], vs[3], vs[4], vs[5])
    case B => BFields(vs[0], vs[1], vs[2], vs[3], vs[4], vs[5], vs[6], vs[7])
    case U => UFields(vs[0], vs[1], vs[2])
    case J => JFields(vs[0], vs[1], vs[2], vs[3], vs[4], vs[5])
  }

  /** Every layout covers exactly the 32 bits of the word. */
  lemma LayoutWidth(f: Format)
    ensures Sum(Layout(f)) == 32
  {
    match f
    case R => assert Sum([7, 5, 3, 5, 5, 7]) == 32;
    case I => assert Sum([7, 5, 3, 5, 12]) == 32;
    case S => assert Sum([7, 5, 3, 5, 5, 7]) == 32;
    case B => assert Sum([7, 1, 4, 3, 5, 5, 6, 1]) == 32;
    case U => assert Sum([7, 5, 20]) == 32;
    case J => assert Sum([7, 5, 8, 1, 10, 1]) == 32;
  }

  /** The union read through its `word` member. */
  function Word(e: Encoded): (w: nat)
    ensures w < Pow2(32)
  {
    LayoutWidth(FormatOf(e));
    Pack(Layout(FormatOf(e)), Fields(e))
  }

  /** A word read through the union member of format f: each field as the
      unsigned bits it holds. */
  function Decode(f: Format, w: int): (e: Encoded)
    ensures FormatOf(e) == f
  {
    FromFields(f, Unpack(Layout(f), w))
  }

  /** The stored value of every field, cut to its width. */
  function Stored(e: Encoded): (t: Encoded)
    ensures FormatOf(t) == FormatOf(e)
  {
    FromFields(FormatOf(e), Truncated(Layout(FormatOf(e)), Fields(e)))
  }

  /** Reading the fields back out of a word gives what was stored in them. */
  lemma DecodeWord(e: Encoded)
    ensures Decode(FormatOf(e), Word(e)) == Stored(e)
  {
    UnpackPack(Layout(FormatOf(e)), Fields(e));
  }

  /** Every 32-bit word is the word of its own fields, in every format. */
  lemma WordDecode(f: Format, w: nat)
    requires w < Pow2(32)
    ensures Word(Decode(f, w)) == w
  {
    LayoutWidth(f);
    PackUnpack(Layout(f), w);
  }

  // ---------------------------------------------------------------------------
  // Where each field sits (bit positions counted from the least significant)

  /** Field i of a word sits at its layout offset and holds the stored value. */
  lemma FieldOfWord(e: Encoded, i: nat)
    requires i < |Layout(FormatOf(e))|
    ensures Bits(Word(e), Offset(Layout(FormatOf(e)), i), Layout(FormatOf(e))[i])
            == Fields(e)[i] % Pow2(Layout(FormatOf(e))[i])
  {
    FieldAt(Layout(FormatOf(e)), Fields(e), i);
  }

  /** Every format keeps the opcode in the low seven bits. */
  lemma OpcodeField(e: Encoded)
    ensures Bits(Word(e), 0, 7) == e.opcode % 128
  {
    var ws := Layout(FormatOf(e));
    assert ws[..0] == [] && ws[0] == 7;
    assert Pow2(7) == 128;
    FieldOfWord(e, 0);
  }

  lemma RLayout(e: Encoded)
    requires e.RFields?
    ensures Bits(Word(e), 0, 7) == e.opcode % 128
    ensures Bits(Word(e), 7, 5) == e.rd % 32
    ensures Bits(Word(e), 12, 3) == e.funct3 % 8
    ensures Bits(Word(e), 15, 5) == e.rs1 % 32
    ensures Bits(Word(e), 20, 5) == e.rs2 % 32
    ensures Bits(Word(e), 25, 7) == e.funct7 % 128
  {
    RSOffsets();
    assert Pow2(3) == 8 && Pow2(5) == 32 && Pow2(7) == 128;
    FieldOfWord(e, 0);
    FieldOfWord(e, 1);
    FieldOfWord(e, 2);
    FieldOfWord(e, 3);
    FieldOfWord(e, 4);
    FieldOfWord(e, 5);
  }

  lemma ILayout(e: Encoded)
    requires e.IFields?
    ensures Bits(Word(e), 0, 7) == e.opcode % 128
    ensures Bits(Word(e), 7, 5) == e.rd % 32
    ensures Bits(Word(e), 12, 3) == e.funct3 % 8
    ensures Bits(Word(e), 15, 5) == e.rs1 % 32
    ensures Bits(Word(e), 20, 12) == e.imm % 4096
  {
    IOffsets();
    assert Pow2(3) == 8 && Pow2(5) == 32 && Pow2(7) == 128 && Pow2(12) == 4096;
    FieldOfWord(e, 0);
    FieldOfWord(e, 1);
    FieldOfWord(e, 2);
    FieldOfWord(e, 3);
    FieldOfWord(e, 4);
  }

  lemma SLayout(e: Encoded)
    requires e.SFields?
    ensures Bits(Word(e), 0, 7) == e.opcode % 128
    ensures Bits(Word(e), 7, 5) == e.imm4_0 % 32
    ensures Bits(Word(e), 12, 3) == e.funct3 % 8
    ensures Bits(Word(e), 15, 5) == e.rs1 % 32
    ensures Bits(Word(e), 20, 5) == e.rs2 % 32
    ensures Bits(Word(e), 25, 7) == e.imm11_5 % 128
  {
    RSOffsets();
    assert Pow2(3) == 8 && Pow2(5) == 32 && Pow2(7) == 128;
    FieldOfWord(e, 0);
    FieldOfWord(e, 1);
    FieldOfWord(e, 2);
    FieldOfWord(e, 3);
    FieldOfWord(e, 4);
    FieldOfWord(e, 5);
  }

  lemma BLayout(e: Encoded)
    requires e.BFields?
    ensures Bits(Word(e), 0, 7) == e.opcode % 128
    ensures Bits(Word(e), 7, 1) == e.imm11 % 2
    ensures Bits(Word(e), 8, 4) == e.imm4_1 % 16
    ensures Bits(Word(e), 12, 3) == e.funct3 % 8
    ensures Bits(Word(e), 15, 5) == e.rs1 % 32
    ensures Bits(Word(e), 20, 5) == e.rs2 % 32
    ensures Bits(Word(e), 25, 6) == e.imm10_5 % 64
    ensures Bits(Word(e), 31, 1) == e.imm12 % 2
  {
    BLayoutLow(e);
    BLayoutHigh(e);
  }

  lemma BLayoutLow(e: Encoded)
    requires e.BFields?
    ensures Bits(Word(e), 0, 7) == e.opcode % 128
    ensures Bits(Word(e), 7, 1) == e.imm11 % 2
    ensures Bits(Word(e), 8, 4) == e.imm4_1 % 16
    ensures Bits(Word(e), 12, 3) == e.funct3 % 8
  {
    BOffsets();
    assert Pow2(1) == 2 && Pow2(3) == 8 && Pow2(4) == 16 && Pow2(7) == 128;
    FieldOfWord(e, 0);
    FieldOfWord(e, 1);
    FieldOfWord(e, 2);
    FieldOfWord(e, 3);
  }

  lemma BLayoutHigh(e: Encoded)
    requires e.BFields?
    ensures Bits(Word(e), 15, 5) == e.rs1 % 32
    ensures Bits(Word(e), 20, 5) == e.rs2 % 32
    ensures Bits(Word(e), 25, 6) == e.imm10_5 % 64
    ensures Bits(Word(e), 31, 1) == e.imm12 % 2
  {
    BOffsets();
    assert Pow2(1) == 2 && Pow2(5) == 32 && Pow2(6) == 64;
    FieldOfWord(e, 4);
    FieldOfWord(e, 5);
    FieldOfWord(e, 6);
    FieldOfWord(e, 7);
  }

  /** Where the B-type fields start. */
  lemma BOffsets()
    ensures Layout(B) == [7, 1, 4, 3, 5, 5, 6, 1]
    ensures Offset(Layout(B), 0) == 0 && Offset(Layout(B), 1) == 7 && Offset(Layout(B), 2) == 8 && Offset(Layout(B), 3) == 12
    ensures Offset(Layout(B), 4) == 15 && Offset(Layout(B), 5) == 20 && Offset(Layout(B), 6) == 25 && Offset(Layout(B), 7) == 31
  {
    assert Layout(B)[..0] == [];
    assert Layout(B)[..1] == [7];
    assert Layout(B)[..2] == [7, 1];
    assert Layout(B)[..3] == [7, 1, 4];
    assert Layout(B)[..4] == [7, 1, 4, 3];
    assert Layout(B)[..5] == [7, 1, 4, 3, 5];
    assert Layout(B)[..6] == [7, 1, 4, 3, 5, 5];
    assert Layout(B)[..7] == [7, 1, 4, 3, 5, 5, 6];
  }

  lemma ULayout(e: Encoded)
    requires e.UFields?
    ensures Bits(Word(e), 0, 7) == e.opcode % 128
    ensures Bits(Word(e), 7, 5) == e.rd % 32
    ensures Bits(Word(e), 12, 20) == e.imm % 1048576
  {
    UOffsets();
    assert Pow2(5) == 32 && Pow2(7) == 128 && Pow2(20) == 1048576;
    FieldOfWord(e, 0);
    FieldOfWord(e, 1);
    FieldOfWord(e, 2);
  }

  lemma JLayout(e: Encoded)
    requires e.JFields?
    ensures Bits(Word(e), 0, 7) == e.opcode % 128
    ensures Bits(Word(e), 7, 5) == e.rd % 32
    ensures Bits(Word(e), 12, 8) == e.imm19_12 % 256
    ensures Bits(Word(e), 20, 1) == e.imm11 % 2
    ensures Bits(Word(e), 21, 10) == e.imm10_1 % 1024
    ensures Bits(Word(e), 31, 1) == e.imm20 % 2
  {
    JOffsets();
    assert Pow2(1) == 2 && Pow2(5) == 32 && Pow2(7) == 128 && Pow2(8) == 256 && Pow2(10) == 1024;
    FieldOfWord(e, 0);
    FieldOfWord(e, 1);
    FieldOfWord(e, 2);
    FieldOfWord(e, 3);
    FieldOfWord(e, 4);
    FieldOfWord(e, 5);
  }

  /** Where the R-type and S-type fields start (the two share one layout). */
  lemma RSOffsets()
    ensures Layout(R) == Layout(S) == [7, 5, 3, 5, 5, 7]
    ensures Offset(Layout(R), 0) == 0 && Offset(Layout(R), 1) == 7 && Offset(Layout(R), 2) == 12
    ensures Offset(Layout(R), 3) == 15 && Offset(Layout(R), 4) == 20 && Offset(Layout(R), 5) == 25
  {
    var ws := Layout(R);
    assert ws[..0] == [];
    assert ws[..1] == [7];
    assert ws[..2] == [7, 5];
    assert ws[..3] == [7, 5, 3];
    assert ws[..4] == [7, 5, 3, 5];
    assert ws[..5] == [7, 5, 3, 5, 5];
  }

  /** Where the I-type fields start. */
  lemma IOffsets()
    ensures Layout(I) == [7, 5, 3, 5, 12]
    ensures Offset(Layout(I), 0) == 0 && Offset(Layout(I), 1) == 7 && Offset(Layout(I), 2) == 12
    ensures Offset(Layout(I), 3) == 15 && Offset(Layout(I), 4) == 20
  {
    assert Layout(I)[..0] == [];
    assert Layout(I)[..1] == [7];
    assert Layout(I)[..2] == [7, 5];
    assert Layout(I)[..3] == [7, 5, 3];
    assert Layout(I)[..4] == [7, 5, 3, 5];
  }

  /** Where the U-type fields start. */
  lemma UOffsets()
    ensures Layout(U) == [7, 5, 20]
    ensures Offset(Layout(U), 0) == 0 && Offset(Layout(U), 1) == 7 && Offset(Layout(U), 2) == 12
  {
    assert Layout(U)[..0] == [];
    assert Layout(U)[..1] == [7];
    assert Layout(U)[..2] == [7, 5];
  }

  /** Where the J-type fields start. */
  lemma JOffsets()
    ensures Layout(J) == [7, 5, 8, 1, 10, 1]
    ensures Offset(Layout(J), 0) == 0 && Offset(Layout(J), 1) == 7 && Offset(Layout(J), 2) == 12
    ensures Offset(Layout(J), 3) == 20 && Offset(Layout(J), 4) == 21 && Offset(Layout(J), 5) == 31
  {
    assert Layout(J)[..0] == [];
    assert Layout(J)[..1] == [7];
    assert Layout(J)[..2] == [7, 5];
    assert Layout(J)[..3] == [7, 5, 8];
    assert Layout(J)[..4] == [7, 5, 8, 1];
    assert Layout(J)[..5] == [7, 5, 8, 1, 10];
  }

  // ---------------------------------------------------------------------------
  // Immediates as the ISA reads them back out of a word (RISC-V Unprivileged
  // ISA, section 2.3, "Immediate Encoding Variants")

  function IImmediate(w: int): int
  {
    SignExtend(Bits(w, 20, 12), 12)
  }

  function SImmediate(w: int): int
  {
    SignExtend(Bits(w, 25, 7) * 32 + Bits(w, 7, 5), 12)
  }

  function BImmediate(w: int): int
  {
    SignExtend(Bits(w, 31, 1) * 4096 + Bits(w, 7, 1) * 2048 + Bits(w, 25, 6) * 32 + Bits(w, 8, 4) * 2, 13)
  }

  function UImmediate(w: int): int
  {
    Bits(w, 12, 20)
  }

  function JImmediate(w: int): int
  {
    SignExtend(Bits(w, 31, 1) * 1048576 + Bits(w, 12, 8) * 4096 + Bits(w, 20, 1) * 2048 + Bits(w, 21, 10) * 2, 21)
  }

  /** Cutting an S immediate into imm[4:0] and imm[11:5] loses nothing for
      values that fit 12 signed bits. */
  lemma SSplit(imm: int)
    requires -2048 <= imm <= 2047
    ensures SignExtend(Bits(imm, 5, 7) * 32 + Bits(imm, 0, 5), 12) == imm
  {
    assert Pow2(0) == 1 && Pow2(5) == 32 && Pow2(12) == 4096;
    SplitLow(imm, 0, 5);
    assert imm % 32 == Bits(imm, 0, 5);
    SplitLow(imm, 5, 7);
    assert imm % 4096 == imm % 32 + 32 * Bits(imm, 5, 7);
    SignExtendStore(imm, 12);
  }

  /** The B-type scramble of an even 13-bit offset reassembles to the offset. */
  lemma BScramble(offset: int)
    requires -4096 <= offset <= 4094 && offset % 2 == 0
    ensures SignExtend(Bits(offset, 12, 1) * 4096 + Bits(offset, 11, 1) * 2048
                       + Bits(offset, 5, 6) * 32 + Bits(offset, 1, 4) * 2, 13) == offset
  {
    BLow(offset);
    assert Pow2(12) == 4096 && Pow2(13) == 8192;
    SignExtendStore(offset, 13);
  }

  /** The low 13 bits of an even number, from its B-type pieces. */
  lemma BLow(offset: int)
    requires offset % 2 == 0
    ensures offset % 8192 == Bits(offset, 12, 1) * 4096 + Bits(offset, 11, 1) * 2048
                             + Bits(offset, 5, 6) * 32 + Bits(offset, 1, 4) * 2
  {
    var low5 := offset % Pow2(5);
    var low11 := offset % Pow2(11);
    var low12 := offset % Pow2(12);
    var low13 := offset % Pow2(13);
    SplitLow(offset, 1, 4);
    SplitLow(offset, 5, 6);
    SplitLow(offset, 11, 1);
    SplitLow(offset, 12, 1);
    assert Pow2(1) == 2 && Pow2(5) == 32 && Pow2(11) == 2048 && Pow2(12) == 4096 && Pow2(13) == 8192;
    BChain(low5, low11, low12, low13, Bits(offset, 1, 4), Bits(offset, 5, 6), Bits(offset, 11, 1), Bits(offset, 12, 1));
  }

  /** Four pieces stacked at bits 1, 5, 11 and 12. */
  lemma BChain(low5: int, low11: int, low12: int, low13: int, a: int, b: int, c: int, d: int)
    requires low5 == 2 * a && low11 == low5 + 32 * b
    requires low12 == low11 + 2048 * c && low13 == low12 + 4096 * d
    ensures low13 == d * 4096 + c * 2048 + b * 32 + a * 2
  {
  }

  /** The J-type scramble of an even 21-bit offset reassembles to the offset. */
  lemma JScramble(offset: int)
    requires -1048576 <= offset <= 1048574 && offset % 2 == 0
    ensures SignExtend(Bits(offset, 20, 1) * 1048576 + Bits(offset, 12, 8) * 4096
                       + Bits(offset, 11, 1) * 2048 + Bits(offset, 1, 10) * 2, 21) == offset
  {
    JLow(offset);
    assert Pow2(20) == 1048576 && Pow2(21) == 2097152;
    SignExtendStore(offset, 21);
  }

  /** The low 21 bits of an even number, from its J-type pieces. */
  lemma JLow(offset: int)
    requires offset % 2 == 0
    ensures offset % 2097152 == Bits(offset, 20, 1) * 1048576 + Bits(offset, 12, 8) * 4096
                                + Bits(offset, 11, 1) * 2048 + Bits(offset, 1, 10) * 2
  {
    var low11 := offset % Pow2(11);
    var low12 := offset % Pow2(12);
    var low20 := offset % Pow2(20);
    var low21 := offset % Pow2(21);
    SplitLow(offset, 1, 10);
    SplitLow(offset, 11, 1);
    SplitLow(offset, 12, 8);
    SplitLow(offset, 20, 1);
    assert Pow2(1) == 2 && Pow2(11) == 2048 && Pow2(12) == 4096 && Pow2(20) == 1048576 && Pow2(21) == 2097152;
    JChain(low11, low12, low20, low21, Bits(offset, 1, 10), Bits(offset, 11, 1), Bits(offset, 12, 8), Bits(offset, 20, 1));
  }

  /** Four pieces stacked at bits 1, 11, 12 and 20. */
  lemma JChain(low11: int, low12: int, low20: int, low21: int, a: int, b: int, c: int, d: int)
    requires low11 == 2 * a && low12 == low11 + 2048 * b
    requires low20 == low12 + 4096 * c && low21 == low20 + 1048576 * d
    ensures low21 == d * 1048576 + c * 4096 + b * 2048 + a * 2
  {
  }
}
