/** `encode_instruction`: one parsed instruction, the symbol table and the
    address of the instruction in, the 32-bit machine word out, or the error
    sentinel 0xFFFFFFFF when the instruction cannot be encoded.

    `Encode` says which error (each is a distinct message on standard error
    in the C code) or which union member with which values; `EncodeInstruction`
    is the word the C function returns. */
module Encoder {
  import opened Wrappers
  import opened Words
  import opened Types
  import opened EncodingTable
  import opened SymbolTable
  import opened Immediate
  import opened Text

  /** The reasons `encode_instruction` gives up, one per error message. */
  datatype EncodeError =
    | UnknownMnemonic         // no row of the instruction table
    | OperandCount            // wrong number of operands for the format
    | InvalidRegister         // R, B and J: a register name that is not one
    | MalformedMemoryOperand  // no "imm(rs1)" where one is required
    | InvalidOperand          // I, S and U: a bad register or immediate
    | ImmediateOutOfRange     // I, S and U: immediate too wide for its field
    | UnresolvedTarget        // B and J: neither a label nor a number
    | OffsetOutOfRange        // B and J: offset too far or odd

  // ---------------------------------------------------------------------------
  // The memory operand "imm(rs1)", read by sscanf with "%31[^()](%7[^)])"

  const OFFSET_TEXT_MAX: nat := 31
  const BASE_TEXT_MAX: nat := 7

  datatype MemRef = MemRef(offset: string, base: string)

  /** The two conversions of the sscanf call, or None when it does not
      return 2. The offset is 1 to 31 characters that are not parentheses,
      directly followed by '('; the base is 1 to 7 characters that are not
      ')'. The closing parenthesis and what follows it are never looked at. */
  function MemOperand(s: string): (r: Option<MemRef>)
    ensures r.Some? ==>
      var k := |r.value.offset|;
      1 <= k <= OFFSET_TEXT_MAX && k < |s| && s[..k] == r.value.offset && s[k] == '(' &&
      1 <= |r.value.base| <= BASE_TEXT_MAX && |r.value.base| <= |s| - k - 1 &&
      s[k + 1..k + 1 + |r.value.base|] == r.value.base &&
      (forall i | 0 <= i < k :: s[i] != '(' && s[i] != ')') &&
      (forall i | 0 <= i < |r.value.base| :: r.value.base[i] != ')')
  {
    var k := Strcspn(s, {'(', ')'});
    if k == 0 || k > OFFSET_TEXT_MAX || k == |s| || s[k] != '(' then None
    else
      var rest := s[k + 1..];
      var m := Strcspn(rest, {')'});
      if m == 0 then None
      else
        var b := if m <= BASE_TEXT_MAX then m else BASE_TEXT_MAX;
        assert s[k + 1..k + 1 + b] == rest[..b];
        Some(MemRef(s[..k], rest[..b]))
  }

  /** Writing an offset, '(' and a base reads back as that offset and base,
      the base cut to its first seven characters; the closing parenthesis
      may be there or not. */
  lemma MemOperandOf(offset: string, base: string, tail: string)
    requires 1 <= |offset| <= OFFSET_TEXT_MAX
    requires forall i | 0 <= i < |offset| :: offset[i] != '(' && offset[i] != ')'
    requires 1 <= |base| && forall i | 0 <= i < |base| :: base[i] != ')'
    requires |tail| == 0 || tail[0] == ')'
    ensures MemOperand(offset + "(" + base + tail) ==
      Some(MemRef(offset, if |base| <= BASE_TEXT_MAX then base else base[..BASE_TEXT_MAX]))
  {
    var rest := base + tail;
    assert offset + "(" + base + tail == offset + "(" + rest;
    OffsetSpan(offset, rest);
    BaseSpan(base, tail);
    MemOperandParts(offset, base, tail);
  }

  /** `MemOperand` once both spans are known. */
  lemma MemOperandParts(offset: string, base: string, tail: string)
    requires 1 <= |offset| <= OFFSET_TEXT_MAX && 1 <= |base|
    requires Strcspn(offset + "(" + (base + tail), {'(', ')'}) == |offset|
    requires Strcspn(base + tail, {')'}) == |base|
    ensures MemOperand(offset + "(" + (base + tail)) ==
      Some(MemRef(offset, if |base| <= BASE_TEXT_MAX then base else base[..BASE_TEXT_MAX]))
  {
    var rest := base + tail;
    var s := offset + "(" + rest;
    assert s[|offset| + 1..] == rest && s[..|offset|] == offset && s[|offset|] == '(';
    var b := if |base| <= BASE_TEXT_MAX then |base| else BASE_TEXT_MAX;
    assert rest[..b] == base[..b];
    assert base[..|base|] == base;
    MemOperandSpans(s, |offset|, |base|);
  }

  /** The offset text runs up to the '(' that follows it. */
  lemma OffsetSpan(offset: string, rest: string)
    requires forall i | 0 <= i < |offset| :: offset[i] != '(' && offset[i] != ')'
    ensures Strcspn(offset + "(" + rest, {'(', ')'}) == |offset|
  {
    var s := offset + "(" + rest;
    assert s[..|offset|] == offset && s[|offset|] == '(';
    StrcspnStops(s, {'(', ')'}, |offset|);
  }

  /** The base text runs up to the ')' that follows it, or to the end. */
  lemma BaseSpan(base: string, tail: string)
    requires forall i | 0 <= i < |base| :: base[i] != ')'
    requires |tail| == 0 || tail[0] == ')'
    ensures Strcspn(base + tail, {')'}) == |base|
  {
    var rest := base + tail;
    assert rest[..|base|] == base;
    assert |tail| > 0 ==> rest[|base|] == ')';
    StrcspnStops(rest, {')'}, |base|);
  }

  /** The two spans that decide `MemOperand`. */
  lemma MemOperandSpans(s: string, k: nat, m: nat)
    requires 1 <= k <= OFFSET_TEXT_MAX && k < |s| && s[k] == '(' && 1 <= m
    requires Strcspn(s, {'(', ')'}) == k && Strcspn(s[k + 1..], {')'}) == m
    ensures MemOperand(s) == Some(MemRef(s[..k], s[k + 1..][..if m <= BASE_TEXT_MAX then m else BASE_TEXT_MAX]))
  {
  }

  // ---------------------------------------------------------------------------
  // Operands

  /** The loads `encode_instruction` recognises by name. */
  predicate IsLoad(mnemonic: string)
  {
    mnemonic in {"lw", "lb", "lh", "lbu", "lhu"}
  }

  /** The shifts by an immediate amount. */
  predicate IsShift(mnemonic: string)
  {
    mnemonic in {"slli", "srli", "srai"}
  }

  /** Bits 11:5 of a shift's immediate: the row's funct7 cut to seven bits,
      or 0b0100000 for `srai` whatever the row says. */
  function ShiftFunct7(entry: InstructionEntry): (f: nat)
    ensures f < 128
  {
    if entry.mnemonic == "srai" then 0x20 else entry.funct7 % 128
  }

  /** A shift amount as the encoder turns it into the 12-bit immediate:
      None where it does not parse or lies outside 0..31. */
  function ShiftImmediate(entry: InstructionEntry, parsed: Option<int>): (r: Option<int>)
    ensures r.Some? <==> parsed.Some? && 0 <= parsed.value <= 0x1F
    ensures r.Some? ==> 0 <= r.value < 4096 && r.value % 32 == parsed.value &&
                        r.value / 32 == ShiftFunct7(entry)
  {
    match parsed
    case None => None
    case Some(shamt) =>
      if shamt < 0 || shamt > 0x1F then None
      else Some(ShiftFunct7(entry) * 32 + shamt)
  }

  /** rd, rs1 and the immediate of an I-type instruction, as the three
      branches of the I case read them; -1 stands for an invalid register
      as in the C code, None for an immediate that failed. */
  datatype IOperands = IOperands(rd: int, rs1: int, imm: Option<int>)

  function IOperandsOf(entry: InstructionEntry, ops: seq<string>): Result<IOperands, EncodeError>
  {
    if IsLoad(entry.mnemonic) then
      if |ops| != 2 then Failure(OperandCount)
      else
        match MemOperand(ops[1])
        case None => Failure(MalformedMemoryOperand)
        case Some(m) => Success(IOperands(RegisterNumber(ops[0]), RegisterNumber(m.base), ParseImmediate(m.offset)))
    else if IsShift(entry.mnemonic) then
      if |ops| != 3 then Failure(OperandCount)
      else Success(IOperands(RegisterNumber(ops[0]), RegisterNumber(ops[1]), ShiftImmediate(entry, ParseImmediate(ops[2]))))
    else if |ops| < 2 || |ops| > 3 then Failure(OperandCount)
    else if entry.mnemonic == "jalr" then
      if |ops| == 2 then Success(IOperands(RegisterNumber(ops[0]), RegisterNumber(ops[1]), Some(0)))
      else
        match MemOperand(ops[1])
        case Some(m) => Success(IOperands(RegisterNumber(ops[0]), RegisterNumber(m.base), ParseImmediate(m.offset)))
        case None => Success(IOperands(RegisterNumber(ops[0]), RegisterNumber(ops[1]), ParseImmediate(ops[2])))
    else if |ops| != 3 then Failure(OperandCount)
    else Success(IOperands(RegisterNumber(ops[0]), RegisterNumber(ops[1]), ParseImmediate(ops[2])))
  }

  /** A branch or jump target: the address of a label relative to the
      instruction, or else a number taken as the offset itself. The C code
      takes a lookup answer of -1 for "no such label" unless the text is
      "-1", so "-1" that is no label becomes the address -1. */
  function ResolveTarget(syms: seq<Symbol>, text: string, pc: int): (r: Option<int>)
    ensures Find(syms, text).Some? ==> r == Some(Find(syms, text).value - pc)
    ensures Find(syms, text).None? && text != "-1" ==> r == ParseImmediate(text)
    ensures Find(syms, text).None? && text == "-1" ==> r == Some(-1 - pc)
  {
    var target := AddressOf(syms, text);
    if target == -1 && text != "-1" then ParseImmediate(text) else Some(target - pc)
  }

  // ---------------------------------------------------------------------------
  // One function per case of the switch

  function EncodeR(entry: InstructionEntry, ops: seq<string>): (r: Result<Encoded, EncodeError>)
    ensures r.Success? ==> FormatOf(r.value) == R && r.value.opcode == entry.opcode
    ensures r != Failure(UnknownMnemonic)
  {
    if |ops| != 3 then Failure(OperandCount)
    else
      var rd, rs1, rs2 := RegisterNumber(ops[0]), RegisterNumber(ops[1]), RegisterNumber(ops[2]);
      if rd == -1 || rs1 == -1 || rs2 == -1 then Failure(InvalidRegister)
      else Success(RFields(entry.opcode, rd, entry.funct3, rs1, rs2, entry.funct7))
  }

  function EncodeI(entry: InstructionEntry, ops: seq<string>): (r: Result<Encoded, EncodeError>)
    ensures r.Success? ==> FormatOf(r.value) == I && r.value.opcode == entry.opcode
    ensures r != Failure(UnknownMnemonic)
  {
    match IOperandsOf(entry, ops)
    case Failure(err) => Failure(err)
    case Success(io) => FinishI(entry, io)
  }

  /** The checks after the three branches: both registers valid and the
      immediate read, then its range, which is not checked for the shifts
      because their immediate holds funct7 and the shift amount. */
  function FinishI(entry: InstructionEntry, io: IOperands): (r: Result<Encoded, EncodeError>)
    ensures r.Success? ==> FormatOf(r.value) == I && r.value.opcode == entry.opcode
    ensures r.Failure? ==> r.error == InvalidOperand || r.error == ImmediateOutOfRange
  {
    if io.rd == -1 || io.rs1 == -1 || io.imm.None? then Failure(InvalidOperand)
    else if (io.imm.value < -2048 || io.imm.value > 2047) && !IsShift(entry.mnemonic) then Failure(ImmediateOutOfRange)
    else Success(IFields(entry.opcode, io.rd, entry.funct3, io.rs1, io.imm.value))
  }

  function EncodeS(entry: InstructionEntry, ops: seq<string>): (r: Result<Encoded, EncodeError>)
    ensures r.Success? ==> FormatOf(r.value) == S && r.value.opcode == entry.opcode
    ensures r != Failure(UnknownMnemonic)
  {
    if |ops| != 2 then Failure(OperandCount)
    else
      var rs2 := RegisterNumber(ops[0]);
      match MemOperand(ops[1])
      case None => Failure(MalformedMemoryOperand)
      case Some(m) =>
        var rs1, imm := RegisterNumber(m.base), ParseImmediate(m.offset);
        if rs1 == -1 || rs2 == -1 || imm.None? then Failure(InvalidOperand)
        else if imm.value < -2048 || imm.value > 2047 then Failure(ImmediateOutOfRange)
        else Success(SFields(entry.opcode, Bits(imm.value, 0, 5), entry.funct3, rs1, rs2, Bits(imm.value, 5, 7)))
  }

  /** The target is resolved before the registers are checked. */
  function EncodeB(entry: InstructionEntry, ops: seq<string>, syms: seq<Symbol>, pc: int): (r: Result<Encoded, EncodeError>)
    ensures r.Success? ==> FormatOf(r.value) == B && r.value.opcode == entry.opcode
    ensures r != Failure(UnknownMnemonic)
  {
    if |ops| != 3 then Failure(OperandCount)
    else
      var rs1, rs2 := RegisterNumber(ops[0]), RegisterNumber(ops[1]);
      match ResolveTarget(syms, ops[2], pc)
      case None => Failure(UnresolvedTarget)
      case Some(offset) =>
        if rs1 == -1 || rs2 == -1 then Failure(InvalidRegister)
        else if offset < -4096 || offset > 4094 || offset % 2 != 0 then Failure(OffsetOutOfRange)
        else Success(BFields(entry.opcode, Bits(offset, 11, 1), Bits(offset, 1, 4), entry.funct3,
                             rs1, rs2, Bits(offset, 5, 6), Bits(offset, 12, 1)))
  }

  function EncodeU(entry: InstructionEntry, ops: seq<string>): (r: Result<Encoded, EncodeError>)
    ensures r.Success? ==> FormatOf(r.value) == U && r.value.opcode == entry.opcode
    ensures r != Failure(UnknownMnemonic)
  {
    if |ops| != 2 then Failure(OperandCount)
    else
      var rd, imm := RegisterNumber(ops[0]), ParseImmediate(ops[1]);
      if rd == -1 || imm.None? then Failure(InvalidOperand)
      else if imm.value < 0 || imm.value > 0xF_FFFF then Failure(ImmediateOutOfRange)
      else Success(UFields(entry.opcode, rd, imm.value))
  }

  /** With one operand the link register is `ra` (x1). */
  function EncodeJ(entry: InstructionEntry, ops: seq<string>, syms: seq<Symbol>, pc: int): (r: Result<Encoded, EncodeError>)
    ensures r.Success? ==> FormatOf(r.value) == J && r.value.opcode == entry.opcode
    ensures r != Failure(UnknownMnemonic)
  {
    if |ops| < 1 || |ops| > 2 then Failure(OperandCount)
    else
      var rd := if |ops| == 2 then RegisterNumber(ops[0]) else 1;
      var target := if |ops| == 2 then ops[1] else ops[0];
      JumpTo(entry, rd, ResolveTarget(syms, target, pc))
  }

  /** The rest of the J case once the link register number and the target
      are read: the target is checked first, then the register, then the
      range and alignment of the offset. */
  function JumpTo(entry: InstructionEntry, rd: int, target: Option<int>): (r: Result<Encoded, EncodeError>)
    ensures r.Success? ==> FormatOf(r.value) == J && r.value.opcode == entry.opcode
    ensures r != Failure(UnknownMnemonic)
  {
    match target
    case None => Failure(UnresolvedTarget)
    case Some(offset) =>
      if rd == -1 then Failure(InvalidRegister)
      else if offset < -1048576 || offset > 1048574 || offset % 2 != 0 then Failure(OffsetOutOfRange)
      else Success(JFields(entry.opcode, rd, Bits(offset, 12, 8), Bits(offset, 11, 1),
                           Bits(offset, 1, 10), Bits(offset, 20, 1)))
  }

  /** `encode_instruction` up to the word: the union member and its values,
      or the error. */
  function Encode(inst: Instruction, syms: seq<Symbol>, pc: int): (r: Result<Encoded, EncodeError>)
    ensures r == Failure(UnknownMnemonic) <==> FindInstruction(inst.mnemonic).None?
    ensures r.Success? ==>
      FormatOf(r.value) == FindInstruction(inst.mnemonic).value.format &&
      r.value.opcode == FindInstruction(inst.mnemonic).value.opcode
  {
    match FindInstruction(inst.mnemonic)
    case None => Failure(UnknownMnemonic)
    case Some(entry) => EncodeWith(entry, inst.operands, syms, pc)
  }

  /** The switch on the row's format. */
  function EncodeWith(entry: InstructionEntry, ops: seq<string>, syms: seq<Symbol>, pc: int): (r: Result<Encoded, EncodeError>)
    ensures r.Success? ==> FormatOf(r.value) == entry.format && r.value.opcode == entry.opcode
    ensures r != Failure(UnknownMnemonic)
  {
    match entry.format
    case R => EncodeR(entry, ops)
    case I => EncodeI(entry, ops)
    case S => EncodeS(entry, ops)
    case B => EncodeB(entry, ops, syms, pc)
    case U => EncodeU(entry, ops)
    case J => EncodeJ(entry, ops, syms, pc)
  }

  /** The word `encode_instruction` returns: the error sentinel exactly when
      the instruction cannot be encoded. */
  function EncodeInstruction(inst: Instruction, syms: seq<Symbol>, pc: int): (w: nat)
    ensures w <= 0xFFFF_FFFF
    ensures w == ENCODING_ERROR_SENTINEL <==> Encode(inst, syms, pc).Failure?
  {
    match Encode(inst, syms, pc)
    case Failure(_) => ENCODING_ERROR_SENTINEL
    case Success(e) =>
      WordCount();
      RowFieldsFit(FindInstruction(inst.mnemonic).value);
      NotSentinel(e);
      Word(e)
  }

  /** A word whose opcode is not 0x7F is not the sentinel; no opcode in the
      table is. */
  lemma NotSentinel(e: Encoded)
    requires 0 <= e.opcode < 0x7F
    ensures Word(e) != ENCODING_ERROR_SENTINEL
  {
    OpcodeField(e);
    assert Bits(Word(e), 0, 7) < 0x7F;
    SentinelOpcode();
  }

  lemma SentinelOpcode()
    ensures Bits(ENCODING_ERROR_SENTINEL, 0, 7) == 0x7F
  {
    assert Pow2(0) == 1 && Pow2(7) == 128;
  }

  // ---------------------------------------------------------------------------
  // Reading the immediates back out of the words, as the ISA does

  lemma IWord(e: Encoded)
    requires e.IFields? && -2048 <= e.imm <= 2047
    ensures IImmediate(Word(e)) == e.imm
  {
    ILayout(e);
    assert Pow2(11) == 2048 && Pow2(12) == 4096;
    SignExtendStore(e.imm, 12);
  }

  lemma SWord(e: Encoded, imm: int)
    requires e.SFields? && -2048 <= imm <= 2047
    requires e.imm4_0 == Bits(imm, 0, 5) && e.imm11_5 == Bits(imm, 5, 7)
    ensures SImmediate(Word(e)) == imm
  {
    SLayout(e);
    SRead(Word(e), imm);
  }

  /** The S immediate of a word whose two fields hold the two parts of imm. */
  lemma SRead(w: int, imm: int)
    requires -2048 <= imm <= 2047
    requires Bits(w, 7, 5) == Bits(imm, 0, 5) % 32 && Bits(w, 25, 7) == Bits(imm, 5, 7) % 128
    ensures SImmediate(w) == imm
  {
    assert Pow2(5) == 32 && Pow2(7) == 128;
    Below(Bits(imm, 0, 5), 32);
    Below(Bits(imm, 5, 7), 128);
    SSplit(imm);
  }

  lemma BWord(e: Encoded, offset: int)
    requires e.BFields? && -4096 <= offset <= 4094 && offset % 2 == 0
    requires e.imm4_1 == Bits(offset, 1, 4) && e.imm10_5 == Bits(offset, 5, 6)
    requires e.imm11 == Bits(offset, 11, 1) && e.imm12 == Bits(offset, 12, 1)
    ensures BImmediate(Word(e)) == offset
  {
    BLayout(e);
    BRead(Word(e), offset);
  }

  /** The B immediate of a word whose four fields hold the scattered bits of
      offset. */
  lemma BRead(w: int, offset: int)
    requires -4096 <= offset <= 4094 && offset % 2 == 0
    requires Bits(w, 8, 4) == Bits(offset, 1, 4) % 16 && Bits(w, 25, 6) == Bits(offset, 5, 6) % 64
    requires Bits(w, 7, 1) == Bits(offset, 11, 1) % 2 && Bits(w, 31, 1) == Bits(offset, 12, 1) % 2
    ensures BImmediate(w) == offset
  {
    assert Pow2(1) == 2 && Pow2(4) == 16 && Pow2(6) == 64;
    Below(Bits(offset, 1, 4), 16);
    Below(Bits(offset, 5, 6), 64);
    Below(Bits(offset, 11, 1), 2);
    Below(Bits(offset, 12, 1), 2);
    BScramble(offset);
  }

  lemma UWord(e: Encoded)
    requires e.UFields? && 0 <= e.imm <= 0xF_FFFF
    ensures UImmediate(Word(e)) == e.imm
  {
    ULayout(e);
  }

  lemma JWord(e: Encoded, offset: int)
    requires e.JFields? && -1048576 <= offset <= 1048574 && offset % 2 == 0
    requires e.imm10_1 == Bits(offset, 1, 10) && e.imm11 == Bits(offset, 11, 1)
    requires e.imm19_12 == Bits(offset, 12, 8) && e.imm20 == Bits(offset, 20, 1)
    ensures JImmediate(Word(e)) == offset
  {
    JLayout(e);
    JRead(Word(e), offset);
  }

  /** The J immediate of a word whose four fields hold the scattered bits of
      offset. */
  lemma JRead(w: int, offset: int)
    requires -1048576 <= offset <= 1048574 && offset % 2 == 0
    requires Bits(w, 21, 10) == Bits(offset, 1, 10) % 1024 && Bits(w, 20, 1) == Bits(offset, 11, 1) % 2
    requires Bits(w, 12, 8) == Bits(offset, 12, 8) % 256 && Bits(w, 31, 1) == Bits(offset, 20, 1) % 2
    ensures JImmediate(w) == offset
  {
    assert Pow2(1) == 2 && Pow2(8) == 256 && Pow2(10) == 1024;
    Below(Bits(offset, 1, 10), 1024);
    Below(Bits(offset, 11, 1), 2);
    Below(Bits(offset, 12, 8), 256);
    Below(Bits(offset, 20, 1), 2);
    JScramble(offset);
  }

  lemma Below(x: int, m: int)
    requires 0 <= x < m
    ensures x % m == x
  {
  }

  /** The fields of an I-type word, read back. */
  lemma IFieldsOf(e: Encoded)
    requires e.IFields? && 0 <= e.opcode < 128 && 0 <= e.rd < 32 && 0 <= e.funct3 < 8 && 0 <= e.rs1 < 32
    requires -2048 <= e.imm <= 2047
    ensures Bits(Word(e), 0, 7) == e.opcode && Bits(Word(e), 7, 5) == e.rd && Bits(Word(e), 12, 3) == e.funct3
    ensures Bits(Word(e), 15, 5) == e.rs1 && IImmediate(Word(e)) == e.imm
  {
    ILayout(e);
    Below(e.opcode, 128);
    Below(e.rd, 32);
    Below(e.funct3, 8);
    Below(e.rs1, 32);
    IWord(e);
  }

  /** The fields of an R-type word, read back. */
  lemma RFieldsOf(e: Encoded)
    requires e.RFields? && 0 <= e.opcode < 128 && 0 <= e.rd < 32 && 0 <= e.funct3 < 8
    requires 0 <= e.rs1 < 32 && 0 <= e.rs2 < 32 && 0 <= e.funct7 < 128
    ensures Bits(Word(e), 0, 7) == e.opcode && Bits(Word(e), 7, 5) == e.rd && Bits(Word(e), 12, 3) == e.funct3
    ensures Bits(Word(e), 15, 5) == e.rs1 && Bits(Word(e), 20, 5) == e.rs2 && Bits(Word(e), 25, 7) == e.funct7
  {
    RLayout(e);
    Below(e.opcode, 128);
    Below(e.rd, 32);
    Below(e.funct3, 8);
    Below(e.rs1, 32);
    Below(e.rs2, 32);
    Below(e.funct7, 128);
  }

  // ---------------------------------------------------------------------------
  // What each format accepts, and what its word holds

  /** R-type (`add rd, rs1, rs2`): three register names; the word holds the
      row's opcode, funct3 and funct7 and the three register numbers. */
  lemma REncoding(entry: InstructionEntry, ops: seq<string>)
    requires FieldsFit(entry) && entry.format == R
    ensures EncodeR(entry, ops).Success? <==>
      |ops| == 3 && RegisterNumber(ops[0]) != -1 && RegisterNumber(ops[1]) != -1 && RegisterNumber(ops[2]) != -1
    ensures EncodeR(entry, ops).Success? ==>
      var w := Word(EncodeR(entry, ops).value);
      Bits(w, 0, 7) == entry.opcode && Bits(w, 12, 3) == entry.funct3 && Bits(w, 25, 7) == entry.funct7 &&
      Bits(w, 7, 5) == RegisterNumber(ops[0]) && Bits(w, 15, 5) == RegisterNumber(ops[1]) &&
      Bits(w, 20, 5) == RegisterNumber(ops[2])
  {
    if EncodeR(entry, ops).Success? {
      RegisterNumberRange(ops[0]);
      RegisterNumberRange(ops[1]);
      RegisterNumberRange(ops[2]);
      RFieldsOf(EncodeR(entry, ops).value);
    }
  }

  /** The tail of the I case for all but the shifts: valid registers and an
      immediate that fits 12 signed bits, and the word holds them. */
  lemma FinishIEncoding(entry: InstructionEntry, io: IOperands)
    requires FieldsFit(entry) && entry.format == I && !IsShift(entry.mnemonic)
    requires io.rd == -1 || 0 <= io.rd < 32
    requires io.rs1 == -1 || 0 <= io.rs1 < 32
    ensures FinishI(entry, io).Success? <==>
      io.rd != -1 && io.rs1 != -1 && io.imm.Some? && -2048 <= io.imm.value <= 2047
    ensures FinishI(entry, io).Success? ==>
      var w := Word(FinishI(entry, io).value);
      Bits(w, 0, 7) == entry.opcode && Bits(w, 12, 3) == entry.funct3 &&
      Bits(w, 7, 5) == io.rd && Bits(w, 15, 5) == io.rs1 && IImmediate(w) == io.imm.value
  {
    if FinishI(entry, io).Success? {
      IFieldsOf(FinishI(entry, io).value);
    }
  }

  /** I-type arithmetic (`addi rd, rs1, imm`): two register names and an
      immediate that fits 12 signed bits. */
  lemma IArithmeticEncoding(entry: InstructionEntry, ops: seq<string>)
    requires FieldsFit(entry) && entry.format == I
    requires !IsLoad(entry.mnemonic) && !IsShift(entry.mnemonic) && entry.mnemonic != "jalr"
    ensures EncodeI(entry, ops).Success? <==>
      |ops| == 3 && RegisterNumber(ops[0]) != -1 && RegisterNumber(ops[1]) != -1 &&
      ParseImmediate(ops[2]).Some? && -2048 <= ParseImmediate(ops[2]).value <= 2047
    ensures EncodeI(entry, ops).Success? ==>
      var w := Word(EncodeI(entry, ops).value);
      Bits(w, 0, 7) == entry.opcode && Bits(w, 12, 3) == entry.funct3 &&
      Bits(w, 7, 5) == RegisterNumber(ops[0]) && Bits(w, 15, 5) == RegisterNumber(ops[1]) &&
      IImmediate(w) == ParseImmediate(ops[2]).value
  {
    if |ops| == 3 {
      var io := IOperands(RegisterNumber(ops[0]), RegisterNumber(ops[1]), ParseImmediate(ops[2]));
      assert IOperandsOf(entry, ops) == Success(io);
      RegisterNumberRange(ops[0]);
      RegisterNumberRange(ops[1]);
      FinishIEncoding(entry, io);
    }
  }

  /** Loads (`lw rd, imm(rs1)`): a register name and a memory operand whose
      base is a register name and whose offset fits 12 signed bits. */
  lemma LoadEncoding(entry: InstructionEntry, ops: seq<string>)
    requires FieldsFit(entry) && entry.format == I && IsLoad(entry.mnemonic)
    ensures EncodeI(entry, ops).Success? <==>
      |ops| == 2 && MemOperand(ops[1]).Some? &&
      RegisterNumber(ops[0]) != -1 && RegisterNumber(MemOperand(ops[1]).value.base) != -1 &&
      ParseImmediate(MemOperand(ops[1]).value.offset).Some? &&
      -2048 <= ParseImmediate(MemOperand(ops[1]).value.offset).value <= 2047
    ensures EncodeI(entry, ops).Success? ==>
      var w, m := Word(EncodeI(entry, ops).value), MemOperand(ops[1]).value;
      Bits(w, 0, 7) == entry.opcode && Bits(w, 12, 3) == entry.funct3 &&
      Bits(w, 7, 5) == RegisterNumber(ops[0]) && Bits(w, 15, 5) == RegisterNumber(m.base) &&
      IImmediate(w) == ParseImmediate(m.offset).value
  {
    assert !IsShift(entry.mnemonic);
    if |ops| == 2 && MemOperand(ops[1]).Some? {
      var m := MemOperand(ops[1]).value;
      var io := IOperands(RegisterNumber(ops[0]), RegisterNumber(m.base), ParseImmediate(m.offset));
      assert IOperandsOf(entry, ops) == Success(io);
      RegisterNumberRange(ops[0]);
      RegisterNumberRange(m.base);
      FinishIEncoding(entry, io);
    }
  }

  /** Shifts (`slli rd, rs1, shamt`): two register names and a shift amount
      from 0 to 31; the word holds the amount in bits 24:20 and funct7 in
      bits 31:25. */
  lemma ShiftEncoding(entry: InstructionEntry, ops: seq<string>)
    requires FieldsFit(entry) && entry.format == I && IsShift(entry.mnemonic)
    ensures EncodeI(entry, ops).Success? <==>
      |ops| == 3 && RegisterNumber(ops[0]) != -1 && RegisterNumber(ops[1]) != -1 &&
      ParseImmediate(ops[2]).Some? && 0 <= ParseImmediate(ops[2]).value <= 31
    ensures EncodeI(entry, ops).Success? ==>
      var w := Word(EncodeI(entry, ops).value);
      Bits(w, 0, 7) == entry.opcode && Bits(w, 12, 3) == entry.funct3 &&
      Bits(w, 7, 5) == RegisterNumber(ops[0]) && Bits(w, 15, 5) == RegisterNumber(ops[1]) &&
      Bits(w, 20, 5) == ParseImmediate(ops[2]).value && Bits(w, 25, 7) == ShiftFunct7(entry)
  {
    assert !IsLoad(entry.mnemonic);
    if |ops| == 3 {
      var io := IOperands(RegisterNumber(ops[0]), RegisterNumber(ops[1]), ShiftImmediate(entry, ParseImmediate(ops[2])));
      assert IOperandsOf(entry, ops) == Success(io);
      if EncodeI(entry, ops).Success? {
        RegisterNumberRange(ops[0]);
        RegisterNumberRange(ops[1]);
        var e := EncodeI(entry, ops).value;
        assert e == IFields(entry.opcode, io.rd, entry.funct3, io.rs1, io.imm.value);
        ShiftFieldsOf(e, ShiftFunct7(entry), ParseImmediate(ops[2]).value);
      }
    }
  }

  /** `jalr rd, rs1`: two register names, offset 0. */
  lemma JalrRegisterEncoding(entry: InstructionEntry, ops: seq<string>)
    requires FieldsFit(entry) && entry.format == I && entry.mnemonic == "jalr" && |ops| == 2
    ensures EncodeI(entry, ops).Success? <==> RegisterNumber(ops[0]) != -1 && RegisterNumber(ops[1]) != -1
    ensures EncodeI(entry, ops).Success? ==>
      var w := Word(EncodeI(entry, ops).value);
      Bits(w, 0, 7) == entry.opcode && Bits(w, 12, 3) == entry.funct3 &&
      Bits(w, 7, 5) == RegisterNumber(ops[0]) && Bits(w, 15, 5) == RegisterNumber(ops[1]) &&
      IImmediate(w) == 0
  {
    assert !IsLoad(entry.mnemonic) && !IsShift(entry.mnemonic);
    var io := IOperands(RegisterNumber(ops[0]), RegisterNumber(ops[1]), Some(0));
    assert IOperandsOf(entry, ops) == Success(io);
    RegisterNumberRange(ops[0]);
    RegisterNumberRange(ops[1]);
    FinishIEncoding(entry, io);
  }

  /** `jalr rd, imm(rs1), x`: when the second of three operands reads as a
      memory operand, it gives the base and the offset, and the third
      operand is not looked at. */
  lemma JalrMemoryEncoding(entry: InstructionEntry, ops: seq<string>)
    requires FieldsFit(entry) && entry.format == I && entry.mnemonic == "jalr"
    requires |ops| == 3 && MemOperand(ops[1]).Some?
    ensures EncodeI(entry, ops).Success? <==>
      RegisterNumber(ops[0]) != -1 && RegisterNumber(MemOperand(ops[1]).value.base) != -1 &&
      ParseImmediate(MemOperand(ops[1]).value.offset).Some? &&
      -2048 <= ParseImmediate(MemOperand(ops[1]).value.offset).value <= 2047
    ensures EncodeI(entry, ops).Success? ==>
      var w, m := Word(EncodeI(entry, ops).value), MemOperand(ops[1]).value;
      Bits(w, 0, 7) == entry.opcode && Bits(w, 12, 3) == entry.funct3 &&
      Bits(w, 7, 5) == RegisterNumber(ops[0]) && Bits(w, 15, 5) == RegisterNumber(m.base) &&
      IImmediate(w) == ParseImmediate(m.offset).value
  {
    assert !IsLoad(entry.mnemonic) && !IsShift(entry.mnemonic);
    var m := MemOperand(ops[1]).value;
    var io := IOperands(RegisterNumber(ops[0]), RegisterNumber(m.base), ParseImmediate(m.offset));
    assert IOperandsOf(entry, ops) == Success(io);
    RegisterNumberRange(ops[0]);
    RegisterNumberRange(m.base);
    FinishIEncoding(entry, io);
  }

  /** `jalr rd, rs1, imm`: otherwise three operands read as for `addi`. */
  lemma JalrImmediateEncoding(entry: InstructionEntry, ops: seq<string>)
    requires FieldsFit(entry) && entry.format == I && entry.mnemonic == "jalr"
    requires |ops| == 3 && MemOperand(ops[1]).None?
    ensures EncodeI(entry, ops).Success? <==>
      RegisterNumber(ops[0]) != -1 && RegisterNumber(ops[1]) != -1 &&
      ParseImmediate(ops[2]).Some? && -2048 <= ParseImmediate(ops[2]).value <= 2047
    ensures EncodeI(entry, ops).Success? ==>
      var w := Word(EncodeI(entry, ops).value);
      Bits(w, 0, 7) == entry.opcode && Bits(w, 12, 3) == entry.funct3 &&
      Bits(w, 7, 5) == RegisterNumber(ops[0]) && Bits(w, 15, 5) == RegisterNumber(ops[1]) &&
      IImmediate(w) == ParseImmediate(ops[2]).value
  {
    assert !IsLoad(entry.mnemonic) && !IsShift(entry.mnemonic);
    var io := IOperands(RegisterNumber(ops[0]), RegisterNumber(ops[1]), ParseImmediate(ops[2]));
    assert IOperandsOf(entry, ops) == Success(io);
    RegisterNumberRange(ops[0]);
    RegisterNumberRange(ops[1]);
    FinishIEncoding(entry, io);
  }

  /** S-type (`sw rs2, imm(rs1)`): a register name and a memory operand; the
      word holds the offset split into bits 11:7 and 31:25. */
  lemma SEncoding(entry: InstructionEntry, ops: seq<string>)
    requires FieldsFit(entry) && entry.format == S
    ensures EncodeS(entry, ops).Success? <==>
      |ops| == 2 && MemOperand(ops[1]).Some? &&
      RegisterNumber(ops[0]) != -1 && RegisterNumber(MemOperand(ops[1]).value.base) != -1 &&
      ParseImmediate(MemOperand(ops[1]).value.offset).Some? &&
      -2048 <= ParseImmediate(MemOperand(ops[1]).value.offset).value <= 2047
    ensures EncodeS(entry, ops).Success? ==>
      var w, m := Word(EncodeS(entry, ops).value), MemOperand(ops[1]).value;
      Bits(w, 0, 7) == entry.opcode && Bits(w, 12, 3) == entry.funct3 &&
      Bits(w, 15, 5) == RegisterNumber(m.base) && Bits(w, 20, 5) == RegisterNumber(ops[0]) &&
      SImmediate(w) == ParseImmediate(m.offset).value
  {
    if EncodeS(entry, ops).Success? {
      var m := MemOperand(ops[1]).value;
      RegisterNumberRange(ops[0]);
      RegisterNumberRange(m.base);
      SFieldsOf(EncodeS(entry, ops).value, ParseImmediate(m.offset).value);
    }
  }

  /** B-type (`beq rs1, rs2, target`): two register names and a target that
      resolves to an even offset within 4 KiB either way; the word holds
      the offset scattered over bits 31, 7, 30:25 and 11:8. */
  lemma BEncoding(entry: InstructionEntry, ops: seq<string>, syms: seq<Symbol>, pc: int)
    requires FieldsFit(entry) && entry.format == B
    ensures EncodeB(entry, ops, syms, pc).Success? <==>
      |ops| == 3 && RegisterNumber(ops[0]) != -1 && RegisterNumber(ops[1]) != -1 &&
      ResolveTarget(syms, ops[2], pc).Some? &&
      -4096 <= ResolveTarget(syms, ops[2], pc).value <= 4094 && ResolveTarget(syms, ops[2], pc).value % 2 == 0
    ensures EncodeB(entry, ops, syms, pc).Success? ==>
      var w := Word(EncodeB(entry, ops, syms, pc).value);
      Bits(w, 0, 7) == entry.opcode && Bits(w, 12, 3) == entry.funct3 &&
      Bits(w, 15, 5) == RegisterNumber(ops[0]) && Bits(w, 20, 5) == RegisterNumber(ops[1]) &&
      BImmediate(w) == ResolveTarget(syms, ops[2], pc).value
  {
    if EncodeB(entry, ops, syms, pc).Success? {
      RegisterNumberRange(ops[0]);
      RegisterNumberRange(ops[1]);
      BFieldsOf(EncodeB(entry, ops, syms, pc).value, ResolveTarget(syms, ops[2], pc).value);
    }
  }

  /** U-type (`lui rd, imm`): a register name and an immediate from 0 to
      0xFFFFF, which the word holds in bits 31:12. */
  lemma UEncoding(entry: InstructionEntry, ops: seq<string>)
    requires FieldsFit(entry) && entry.format == U
    ensures EncodeU(entry, ops).Success? <==>
      |ops| == 2 && RegisterNumber(ops[0]) != -1 &&
      ParseImmediate(ops[1]).Some? && 0 <= ParseImmediate(ops[1]).value <= 0xF_FFFF
    ensures EncodeU(entry, ops).Success? ==>
      var w := Word(EncodeU(entry, ops).value);
      Bits(w, 0, 7) == entry.opcode && Bits(w, 7, 5) == RegisterNumber(ops[0]) &&
      UImmediate(w) == ParseImmediate(ops[1]).value
  {
    if EncodeU(entry, ops).Success? {
      RegisterNumberRange(ops[0]);
      UFieldsOf(EncodeU(entry, ops).value);
    }
  }

  /** J-type (`jal rd, target` or `jal target`): the last operand resolves to
      an even offset within 1 MiB either way; the link register is the first
      operand, or `ra` (x1) when there is only one. */
  lemma JEncoding(entry: InstructionEntry, ops: seq<string>, syms: seq<Symbol>, pc: int)
    requires FieldsFit(entry) && entry.format == J
    ensures EncodeJ(entry, ops, syms, pc).Success? <==>
      1 <= |ops| <= 2 && (|ops| == 2 ==> RegisterNumber(ops[0]) != -1) &&
      ResolveTarget(syms, ops[|ops| - 1], pc).Some? &&
      -1048576 <= ResolveTarget(syms, ops[|ops| - 1], pc).value <= 1048574 &&
      ResolveTarget(syms, ops[|ops| - 1], pc).value % 2 == 0
    ensures EncodeJ(entry, ops, syms, pc).Success? ==>
      var w := Word(EncodeJ(entry, ops, syms, pc).value);
      Bits(w, 0, 7) == entry.opcode &&
      Bits(w, 7, 5) == (if |ops| == 2 then RegisterNumber(ops[0]) else 1) &&
      JImmediate(w) == ResolveTarget(syms, ops[|ops| - 1], pc).value
  {
    if 1 <= |ops| <= 2 {
      var target := ops[|ops| - 1];
      assert target == if |ops| == 2 then ops[1] else ops[0];
      var rd := if |ops| == 2 then RegisterNumber(ops[0]) else 1;
      RegisterNumberRange(ops[0]);
      assert EncodeJ(entry, ops, syms, pc) == JumpTo(entry, rd, ResolveTarget(syms, target, pc));
      match ResolveTarget(syms, target, pc)
      case None =>
      case Some(offset) =>
        JAccepted(entry, rd, offset);
    }
  }

  /** The J-type word once the link register and the offset are known. */
  lemma JAccepted(entry: InstructionEntry, rd: int, offset: int)
    requires FieldsFit(entry) && entry.format == J && -1 <= rd < 32
    ensures JumpTo(entry, rd, Some(offset)).Success? <==>
      rd != -1 && -1048576 <= offset <= 1048574 && offset % 2 == 0
    ensures JumpTo(entry, rd, Some(offset)).Success? ==>
      var w := Word(JumpTo(entry, rd, Some(offset)).value);
      Bits(w, 0, 7) == entry.opcode && Bits(w, 7, 5) == rd && JImmediate(w) == offset
  {
    if rd != -1 && -1048576 <= offset <= 1048574 && offset % 2 == 0 {
      var e := JFields(entry.opcode, rd, Bits(offset, 12, 8), Bits(offset, 11, 1),
                       Bits(offset, 1, 10), Bits(offset, 20, 1));
      JFieldsOf(e, offset);
    }
  }

  /** The operand counts each form accepts, as the usage comments of the
      encoder give them: `op rd, rs1, rs2`; `op rd, rs1, imm`, `load rd,
      imm(rs1)` and `jalr rd, rs1` or `jalr rd, rs1, imm`; `store rs2,
      imm(rs1)`; `branch rs1, rs2, target`; `lui rd, imm`; `jal rd, target`
      or `jal target`. */
  function Arity(entry: InstructionEntry): (counts: set<nat>)
    ensures counts != {} && forall n | n in counts :: 1 <= n <= 3
  {
    match entry.format
    case R => {3}
    case I =>
      if IsLoad(entry.mnemonic) then {2}
      else if entry.mnemonic == "jalr" then {2, 3}
      else {3}
    case S => {2}
    case B => {3}
    case U => {2}
    case J => {1, 2}
  }

  /** The operand count is refused exactly when it is not one of the form's. */
  lemma OperandCountChecked(entry: InstructionEntry, ops: seq<string>, syms: seq<Symbol>, pc: int)
    ensures EncodeWith(entry, ops, syms, pc) == Failure(OperandCount) <==> |ops| !in Arity(entry)
  {
    match entry.format
    case R => RCount(entry, ops);
    case I => ICount(entry, ops);
    case S => SCount(entry, ops);
    case B => BCount(entry, ops, syms, pc);
    case U => UCount(entry, ops);
    case J => JCount(entry, ops, syms, pc);
  }

  lemma RCount(entry: InstructionEntry, ops: seq<string>)
    ensures EncodeR(entry, ops) == Failure(OperandCount) <==> |ops| != 3
  {
  }

  lemma ICount(entry: InstructionEntry, ops: seq<string>)
    requires entry.format == I
    ensures EncodeI(entry, ops) == Failure(OperandCount) <==> |ops| !in Arity(entry)
  {
    if |ops| in Arity(entry) {
      assert IOperandsOf(entry, ops) != Failure(OperandCount);
    }
  }

  lemma SCount(entry: InstructionEntry, ops: seq<string>)
    ensures EncodeS(entry, ops) == Failure(OperandCount) <==> |ops| != 2
  {
  }

  lemma BCount(entry: InstructionEntry, ops: seq<string>, syms: seq<Symbol>, pc: int)
    ensures EncodeB(entry, ops, syms, pc) == Failure(OperandCount) <==> |ops| != 3
  {
  }

  lemma UCount(entry: InstructionEntry, ops: seq<string>)
    ensures EncodeU(entry, ops) == Failure(OperandCount) <==> |ops| != 2
  {
  }

  lemma JCount(entry: InstructionEntry, ops: seq<string>, syms: seq<Symbol>, pc: int)
    ensures EncodeJ(entry, ops, syms, pc) == Failure(OperandCount) <==> |ops| !in {1, 2}
  {
  }

  /** A branch to a label lands on the label: the target the word encodes,
      relative to the branch, is the label's address. */
  lemma BranchToLabel(entry: InstructionEntry, ops: seq<string>, syms: seq<Symbol>, pc: int)
    requires FieldsFit(entry) && entry.format == B
    requires EncodeB(entry, ops, syms, pc).Success? && Find(syms, ops[2]).Some?
    ensures pc + BImmediate(Word(EncodeB(entry, ops, syms, pc).value)) == Find(syms, ops[2]).value
  {
    BEncoding(entry, ops, syms, pc);
  }

  /** A jump to a label lands on the label. */
  lemma JumpToLabel(entry: InstructionEntry, ops: seq<string>, syms: seq<Symbol>, pc: int)
    requires FieldsFit(entry) && entry.format == J
    requires EncodeJ(entry, ops, syms, pc).Success? && Find(syms, ops[|ops| - 1]).Some?
    ensures pc + JImmediate(Word(EncodeJ(entry, ops, syms, pc).value)) == Find(syms, ops[|ops| - 1]).value
  {
    JEncoding(entry, ops, syms, pc);
  }

  /** A target "-1" that is no label stands for the address -1, which is
      odd from an even address: a branch to it always fails, as it would if
      it were read as the offset -1. */
  lemma MinusOneBranch(entry: InstructionEntry, ops: seq<string>, syms: seq<Symbol>, pc: int)
    requires FieldsFit(entry) && entry.format == B
    requires |ops| == 3 && ops[2] == "-1" && Find(syms, "-1").None? && pc % 2 == 0
    ensures EncodeB(entry, ops, syms, pc) == Failure(OffsetOutOfRange) || EncodeB(entry, ops, syms, pc) == Failure(InvalidRegister)
  {
    OddBefore(pc);
    OddBranch(entry, ops, syms, pc, -1 - pc);
  }

  /** A branch whose target resolves to an odd offset fails. */
  lemma OddBranch(entry: InstructionEntry, ops: seq<string>, syms: seq<Symbol>, pc: int, offset: int)
    requires |ops| == 3 && ResolveTarget(syms, ops[2], pc) == Some(offset) && offset % 2 != 0
    ensures EncodeB(entry, ops, syms, pc) == Failure(OffsetOutOfRange) || EncodeB(entry, ops, syms, pc) == Failure(InvalidRegister)
  {
  }

  /** The same for a jump. */
  lemma MinusOneJump(entry: InstructionEntry, ops: seq<string>, syms: seq<Symbol>, pc: int)
    requires FieldsFit(entry) && entry.format == J
    requires 1 <= |ops| <= 2 && ops[|ops| - 1] == "-1" && Find(syms, "-1").None? && pc % 2 == 0
    ensures EncodeJ(entry, ops, syms, pc) == Failure(OffsetOutOfRange) || EncodeJ(entry, ops, syms, pc) == Failure(InvalidRegister)
  {
    OddBefore(pc);
    OddJump(entry, ops, syms, pc, -1 - pc);
  }

  /** A jump whose target resolves to an odd offset fails. */
  lemma OddJump(entry: InstructionEntry, ops: seq<string>, syms: seq<Symbol>, pc: int, offset: int)
    requires 1 <= |ops| <= 2 && ResolveTarget(syms, ops[|ops| - 1], pc) == Some(offset) && offset % 2 != 0
    ensures EncodeJ(entry, ops, syms, pc) == Failure(OffsetOutOfRange) || EncodeJ(entry, ops, syms, pc) == Failure(InvalidRegister)
  {
    assert ops[|ops| - 1] == if |ops| == 2 then ops[1] else ops[0];
    var rd := if |ops| == 2 then RegisterNumber(ops[0]) else 1;
    assert EncodeJ(entry, ops, syms, pc) == JumpTo(entry, rd, Some(offset));
  }

  /** The address just before an even one is odd. */
  lemma OddBefore(pc: int)
    requires pc % 2 == 0
    ensures (-1 - pc) % 2 == 1
  {
    var q := pc / 2;
    assert pc == 2 * q;
    DivModUnique(-1 - pc, 2, -q - 1, 1);
  }

  // ---------------------------------------------------------------------------
  // Word fields of each format, read back

  lemma ShiftFieldsOf(e: Encoded, f: int, shamt: int)
    requires e.IFields? && 0 <= e.opcode < 128 && 0 <= e.rd < 32 && 0 <= e.funct3 < 8 && 0 <= e.rs1 < 32
    requires 0 <= f < 128 && 0 <= shamt < 32 && e.imm == f * 32 + shamt
    ensures Bits(Word(e), 0, 7) == e.opcode && Bits(Word(e), 7, 5) == e.rd && Bits(Word(e), 12, 3) == e.funct3
    ensures Bits(Word(e), 15, 5) == e.rs1 && Bits(Word(e), 20, 5) == shamt && Bits(Word(e), 25, 7) == f
  {
    ILayout(e);
    Below(e.opcode, 128);
    Below(e.rd, 32);
    Below(e.funct3, 8);
    Below(e.rs1, 32);
    Below(e.imm, 4096);
    ShiftRead(Word(e), f, shamt);
  }

  /** A 12-bit field at bit 20 holding f * 32 + shamt holds shamt in its
      low five bits and f in its high seven. */
  lemma ShiftRead(w: int, f: int, shamt: int)
    requires 0 <= f < 128 && 0 <= shamt < 32 && Bits(w, 20, 12) == f * 32 + shamt
    ensures Bits(w, 20, 5) == shamt && Bits(w, 25, 7) == f
  {
    var x := w / Pow2(20);
    assert Pow2(5) == 32 && Pow2(7) == 128 && Pow2(12) == 4096;
    DivDiv(w, 20, 5);
    DivModNest(x, 32, 128);
    DivModUnique(x % 4096, 32, f, shamt);
    DivModUnique(x % 4096, 32, x / 32 % 128, x % 32);
  }

  lemma SFieldsOf(e: Encoded, imm: int)
    requires e.SFields? && 0 <= e.opcode < 128 && 0 <= e.funct3 < 8 && 0 <= e.rs1 < 32 && 0 <= e.rs2 < 32
    requires -2048 <= imm <= 2047 && e.imm4_0 == Bits(imm, 0, 5) && e.imm11_5 == Bits(imm, 5, 7)
    ensures Bits(Word(e), 0, 7) == e.opcode && Bits(Word(e), 12, 3) == e.funct3
    ensures Bits(Word(e), 15, 5) == e.rs1 && Bits(Word(e), 20, 5) == e.rs2 && SImmediate(Word(e)) == imm
  {
    SLayout(e);
    Below(e.opcode, 128);
    Below(e.funct3, 8);
    Below(e.rs1, 32);
    Below(e.rs2, 32);
    SWord(e, imm);
  }

  lemma BFieldsOf(e: Encoded, offset: int)
    requires e.BFields? && 0 <= e.opcode < 128 && 0 <= e.funct3 < 8 && 0 <= e.rs1 < 32 && 0 <= e.rs2 < 32
    requires -4096 <= offset <= 4094 && offset % 2 == 0
    requires e.imm4_1 == Bits(offset, 1, 4) && e.imm10_5 == Bits(offset, 5, 6)
    requires e.imm11 == Bits(offset, 11, 1) && e.imm12 == Bits(offset, 12, 1)
    ensures Bits(Word(e), 0, 7) == e.opcode && Bits(Word(e), 12, 3) == e.funct3
    ensures Bits(Word(e), 15, 5) == e.rs1 && Bits(Word(e), 20, 5) == e.rs2 && BImmediate(Word(e)) == offset
  {
    BLayout(e);
    Below(e.opcode, 128);
    Below(e.funct3, 8);
    Below(e.rs1, 32);
    Below(e.rs2, 32);
    BWord(e, offset);
  }

  lemma UFieldsOf(e: Encoded)
    requires e.UFields? && 0 <= e.opcode < 128 && 0 <= e.rd < 32 && 0 <= e.imm <= 0xF_FFFF
    ensures Bits(Word(e), 0, 7) == e.opcode && Bits(Word(e), 7, 5) == e.rd && UImmediate(Word(e)) == e.imm
  {
    ULayout(e);
    Below(e.opcode, 128);
    Below(e.rd, 32);
    Below(e.imm, 1048576);
  }

  lemma JFieldsOf(e: Encoded, offset: int)
    requires e.JFields? && 0 <= e.opcode < 128 && 0 <= e.rd < 32
    requires -1048576 <= offset <= 1048574 && offset % 2 == 0
    requires e.imm10_1 == Bits(offset, 1, 10) && e.imm11 == Bits(offset, 11, 1)
    requires e.imm19_12 == Bits(offset, 12, 8) && e.imm20 == Bits(offset, 20, 1)
    ensures Bits(Word(e), 0, 7) == e.opcode && Bits(Word(e), 7, 5) == e.rd && JImmediate(Word(e)) == offset
  {
    JLayout(e);
    Below(e.opcode, 128);
    Below(e.rd, 32);
    JWord(e, offset);
  }
}
